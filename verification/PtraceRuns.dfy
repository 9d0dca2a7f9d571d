/** What the ptrace engine guarantees over every run, and where an exec event breaks it. */
module PtraceRuns {
  import opened Common
  import opened PtraceEngine
  import opened PtraceWorld
  import opened PtraceInvariants

  // ---------------------------------------------------------------- where runs begin

  /** A thread of process `tgid` as the set-up leaves it. */
  function Fresh(tgid: Pid): Tracee {
    Tracee(Running, [], false, 0, 0, 0, tgid)
  }

  /** The engine `PtraceTracer.Spawn` leaves behind can begin a run: the child's first stop has been
      answered. */
  lemma SpawnBegins(child: Pid, follow: bool, procReadable: bool)
    ensures Reachable(Sys(map[child := Fresh(child)],
                          State(follow, {child}, map[], map[child := child], None, [Resume(child, None)]),
                          [], [Stopped(child, SIGTRAP)], 0, 1, [], procReadable))
  {
    var delivered := [Stopped(child, SIGTRAP)];
    assert delivered == [] + [Stopped(child, SIGTRAP)];
    OwedAppend([], Stopped(child, SIGTRAP));
    var s := Sys(map[child := Fresh(child)],
                 State(follow, {child}, map[], map[child := child], None, [Resume(child, None)]),
                 [], delivered, 0, 1, [], procReadable);
    assert Init(s) && IsRun(s, []) && Run(s, []) == s;
  }

  function AttachStops(pids: seq<Pid>): (stops: seq<WaitStatus>)
    ensures |stops| == |pids| && forall i :: 0 <= i < |pids| ==> stops[i] == Stopped(pids[i], SIGSTOP)
  {
    seq(|pids|, i requires 0 <= i < |pids| => Stopped(pids[i], SIGSTOP))
  }

  lemma {:induction false} AttachOwes(pids: seq<Pid>)
    ensures OwedFor(AttachStops(pids)) == seq(|pids|, i requires 0 <= i < |pids| => Resume(pids[i], None))
  {
    if pids != [] {
      var n := |pids| - 1;
      AttachOwes(pids[..n]);
      assert AttachStops(pids) == AttachStops(pids[..n]) + [Stopped(pids[n], SIGSTOP)];
      OwedAppend(AttachStops(pids[..n]), Stopped(pids[n], SIGSTOP));
    }
  }

  /** So can the one `PtraceTracer.Attach` leaves behind. */
  lemma AttachBegins(pids: seq<Pid>, tgidOf: Pid -> Pid, follow: bool, procReadable: bool)
    ensures Reachable(Sys(map p | p in pids :: Fresh(tgidOf(p)),
                          State(follow, set p | p in pids, map[], map[], None,
                                seq(|pids|, i requires 0 <= i < |pids| => Resume(pids[i], None))),
                          [], AttachStops(pids), 0, 1, [], procReadable))
  {
    AttachOwes(pids);
    var s := Sys(map p | p in pids :: Fresh(tgidOf(p)),
                 State(follow, set p | p in pids, map[], map[], None,
                       seq(|pids|, i requires 0 <= i < |pids| => Resume(pids[i], None))),
                 [], AttachStops(pids), 0, 1, [], procReadable);
    assert Init(s) && IsRun(s, []) && Run(s, []) == s;
  }

  // ---------------------------------------------------------------- what every run guarantees

  lemma StopsAllowedIn(s: Sys)
    requires Reachable(s)
    ensures StopsAllowed(s)
  {
    ReachableInv(s);
  }

  /** In flight exactly if "inside a call" differs from "has had an exec event". */
  lemma PairingIsExact(s: Sys, t: Pid)
    requires Reachable(s) && t in s.tracees
    ensures Living(s, t) ==> (t in s.tr.inflight <==> (InCall(s.tracees[t].acts) != s.tracees[t].execd))
    ensures !Living(s, t) ==> t !in s.tr.inflight && t !in s.tr.tgid
  {
    ReachableInv(s);
  }

  /** Without an exec event, the stream tells a life as its completed calls, with the entry's
      number and arguments, the exit's return value and one process id; between two calls
      that is so only without an exec event. */
  lemma StreamTellsCompletedCalls(s: Sys, t: Pid)
    requires Reachable(s) && t in s.tracees
    ensures s.tracees[t].base <= |EventsOf(s.out, t)|
    ensures !s.tracees[t].execd ==> CallsOf(LifeEvents(s, t)) == Completed(s.tracees[t].acts)
    ensures !InCall(s.tracees[t].acts) ==>
      (CallsOf(LifeEvents(s, t)) == Completed(s.tracees[t].acts) <==> !s.tracees[t].execd)
    ensures s.tracees[t].execd ==> s.tr.follow
    ensures forall i, j :: 0 <= i < |LifeEvents(s, t)| && 0 <= j < |LifeEvents(s, t)| ==>
              LifeEvents(s, t)[i].pid == LifeEvents(s, t)[j].pid
  {
    ReachableInv(s);
    assert History(s, t) && SamePid(LifeEvents(s, t), Living(s, t), Find(s.tr.tgid, t));
  }

  /** Every stop handed over is resumed once, in order, with its own signal or none; the one
      exception is the pending tracee, which is the only one still held. */
  lemma EveryStopResumedOnce(s: Sys)
    requires Reachable(s)
    ensures s.tr.issued + PendingList(s.tr) == OwedFor(s.delivered)
    ensures forall t :: t in s.tracees ==> (s.tracees[t].motion.Held? <==> s.tr.pending == Some(Resume(t, None)))
  {
    ReachableInv(s);
  }

  /** An engine that knows of no live tracee has none: a lost one would need an older lost one. */
  lemma {:induction false} LostNeedsOlder(s: Sys, t: Pid)
    requires NobodyLost(s) && s.tr.live == {} && t in s.tracees
    ensures !Living(s, t)
    decreases s.tracees[t].born
  {
    if Living(s, t) {
      LostNeedsOlder(s, s.tracees[t].creator);
    }
  }

  lemma NoPrematureEnd(s: Sys)
    requires Reachable(s) && s.tr.live == {}
    ensures forall t :: t in s.tracees ==> s.tracees[t].motion.Gone?
  {
    ReachableInv(s);
    forall t | t in s.tracees
      ensures s.tracees[t].motion.Gone?
    {
      LostNeedsOlder(s, t);
    }
  }

  /** Deaths and signals are told, each once, in the order they were handed over, and with their
      own code. While /proc can be read, every syscall event and every signal carries the process id
      of its thread; a death does if and only if the engine has it in its cache or the thread leads
      its process, and otherwise it carries the thread's own id. A thread with a reported call is
      in the cache. */
  lemma DeathsAndSignalsAreTold(s: Sys)
    requires Reachable(s)
    ensures AllTold(OthersOf(s.out), s.happened, s.procReadable)
    ensures s.procReadable ==> TruePids(s)
    ensures forall t :: Living(s, t) ==> s.tracees[t].base <= |EventsOf(s.out, t)|
    ensures forall t :: Living(s, t) && LifeEvents(s, t) != [] ==> t in s.tr.tgid
  {
    ReachableInv(s);
    forall t | Living(s, t)
      ensures s.tracees[t].base <= |EventsOf(s.out, t)| && (LifeEvents(s, t) != [] ==> t in s.tr.tgid)
    {
      assert SamePid(LifeEvents(s, t), Living(s, t), Find(s.tr.tgid, t));
    }
  }

  /** A death that is handed over is told at once, and with the process id above. */
  lemma DeathTold(s: Sys, t: Pid, code: int, now: U64, tgidAnswer: Option<Pid>)
    requires Reachable(s) && Enabled(s, Deliver(t, now, tgidAnswer)) && s.tracees[t].motion == Waiting(Death(code))
    requires s.procReadable
    ensures var k, known := s.tracees[t], t in s.tr.tgid || t == s.tracees[t].tgid;
      var s' := Step(s, Deliver(t, now, tgidAnswer));
      && s'.out == s.out + [ProcessExit(if known then k.tgid else t, code)]
      && s'.happened == s.happened + [Notice(ProcessExit(k.tgid, code), t, known)]
  {
    CacheIsTrueIn(s);
  }

  lemma CacheIsTrueIn(s: Sys)
    requires Reachable(s) && s.procReadable
    ensures CacheIsTrue(s)
  {
    ReachableInv(s);
  }

  /** So a death can be told of the wrong process: attached to thread 2 of process 1, with all of
      /proc readable, the engine says that process 2 has ended. */
  lemma DeathMisnamed()
    ensures exists s: Sys ::
      && Reachable(s) && s.procReadable
      && s.out == [ProcessExit(2, 0)] && s.happened == [Notice(ProcessExit(1, 0), 2, false)]
  {
    var pids := [2];
    AttachBegins(pids, _ => 1, false, true);
    var s0 := Sys(map p | p in pids :: Fresh(1),
                  State(false, set p | p in pids, map[], map[], None,
                        seq(|pids|, i requires 0 <= i < |pids| => Resume(pids[i], None))),
                  [], AttachStops(pids), 0, 1, [], true);
    var s1 := DeathComes(s0);
    ReachableStep(s1, Deliver(2, 0, None));
    DeathTold(s1, 2, 0, 0, None);
  }

  lemma DeathComes(s0: Sys) returns (s1: Sys)
    requires Reachable(s0) && s0.tr.pending.None? && s0.tr.live == {2} && s0.tr.tgid == map[]
    requires 2 in s0.tracees && s0.tracees[2] == Fresh(1)
    requires s0.out == [] && s0.happened == [] && s0.clock == 0 && s0.procReadable
    ensures Reachable(s1) && Enabled(s1, Deliver(2, 0, None)) && s1.tracees[2].motion == Waiting(Death(0))
    ensures s1.tracees[2].tgid == 1 && 2 !in s1.tr.tgid && s1.procReadable && s1.out == [] && s1.happened == []
  {
    ReachableStep(s0, Stops(2, Death(0)));
    s1 := Step(s0, Stops(2, Death(0)));
  }

  /** The measured duration is the true one: a reported call ends at the moment its exit stop is
      handled, so the subtraction never saturates. */
  lemma CallEndsNow(s: Sys, t: Pid, now: U64, tgidAnswer: Option<Pid>)
    requires Reachable(s) && Enabled(s, Deliver(t, now, tgidAnswer))
    ensures var s' := Step(s, Deliver(t, now, tgidAnswer));
      |s'.out| > |s.out| && s'.out[|s.out|].Syscall? ==>
        var ev := s'.out[|s.out|].ev;
        ev.tid == t && t in s.tr.inflight && ev.tsEnter == s.tr.inflight[t].enterNs && EndOf(ev) == now
  {
    StopsAllowedIn(s);
    EntriesAreOld(s);
    DeliverStep(s, t, now, tgidAnswer);
  }

  lemma EntriesAreOld(s: Sys)
    requires Reachable(s)
    ensures forall t :: t in s.tr.inflight ==> s.tr.inflight[t].enterNs <= s.clock
  {
    ReachableInv(s);
  }

  /** Calls end in stream order, calls of one thread do not overlap, no clock reading of
      the future is reported. */
  lemma StreamIsTimely(s: Sys)
    requires Reachable(s)
    ensures InOrder(s.out)
    ensures forall i :: 0 <= i < |s.out| && s.out[i].Syscall? ==> EndOf(s.out[i].ev) <= s.clock
  {
    ReachableInv(s);
  }

  // ---------------------------------------------------------------- when the system refuses

  /** Handling a status fails exactly if it needs the registers or a resume and does not get them. Nothing
      was resumed then, and nothing is left pending by it; but what the stop itself changed stays: the
      entry taken out, or put in, and the child taken on. */
  lemma FailsExactly(tr: State, status: WaitStatus, a: Answers)
    ensures var h := Handle(tr, status, a);
      && (h.outcome.Fail? <==>
           match status
           case PtraceSyscall(pid) => a.regs.None? || (pid !in tr.inflight && !a.resumes)
           case PtraceEvent(_, _) => !a.resumes
           case Stopped(_, _) => !a.resumes
           case _ => false)
      && (h.outcome.Fail? ==>
            h.state == match status
                       case PtraceSyscall(pid) =>
                         if pid in tr.inflight then tr.(inflight := tr.inflight - {pid})
                         else if a.regs.None? then tr
                         else
                           var r := a.regs.value;
                           tr.(inflight := tr.inflight[pid := Inflight(r.origRax, r.args, a.now)])
                       case PtraceEvent(pid, event) =>
                         if event == 4 then tr.(inflight := tr.inflight - {pid})
                         else if tr.follow && event in {1, 2, 3} && a.child.Some?
                         then tr.(live := tr.live + {a.child.value})
                         else tr
                       case _ => tr)
  {
  }

  /** A fork event changes nothing if it is not followed or its message cannot be read, and a status
      of no interest changes nothing at all. */
  lemma NothingToFollow(tr: State, pid: Pid, event: nat, a: Answers)
    requires event != 4 && a.resumes && (!tr.follow || a.child.None? || event !in {1, 2, 3})
    ensures Handle(tr, PtraceEvent(pid, event), a) == Handled(tr.(issued := tr.issued + [Resume(pid, None)]), Quiet)
    ensures Handle(tr, Continued(pid), a) == Handle(tr, StillAlive, a) == Handled(tr, Quiet)
  {
  }

  /** How a call ends that does not get to hear of a stop. */
  lemma CallEndsAtOnce(tr: State, resumes: bool, waits: seq<Wait>)
    ensures tr.pending.Some? && !resumes ==>
      NextEvent(tr, resumes, waits) == CallResult(tr.(pending := None), Failed, 0)
    ensures tr.pending.None? || resumes ==>
      var r := NextEvent(tr, resumes, waits);
      && (tr.live == {} ==> r.verdict == Done && r.used == 0)
      && (tr.live != {} && waits == [] ==> r.verdict == Blocked)
      && (tr.live != {} && waits != [] && waits[0] == NoChild ==> r.verdict == Done && r.used == 1)
      && (tr.live != {} && waits != [] && waits[0] == WaitFailed ==> r.verdict == Failed && r.used == 1)
      && (tr.live == {} || waits == [] || !waits[0].Got? ==>
            r.state == tr.(pending := None, issued := tr.issued + PendingList(tr)))
  {
    assert tr.issued + [] == tr.issued;
  }

  // ---------------------------------------------------------------- an exec event does mispair

  lemma OneLabel(s: Sys, l: Label)
    requires Enabled(s, l)
    ensures IsRun(s, [l]) && Run(s, [l]) == Step(s, l)
  {
    var labels := [l];
    assert |labels[1..]| == 0;
  }

  lemma {:induction false} RunExtends(s: Sys, labels: seq<Label>, l: Label)
    requires IsRun(s, labels) && Enabled(Run(s, labels), l)
    ensures IsRun(s, labels + [l]) && Run(s, labels + [l]) == Step(Run(s, labels), l)
    decreases |labels|
  {
    if |labels| == 0 {
      assert labels + [l] == [l];
      OneLabel(s, l);
    } else {
      RunExtends(Step(s, labels[0]), labels[1..], l);
      assert (labels + [l])[0] == labels[0] && (labels + [l])[1..] == labels[1..] + [l];
    }
  }

  lemma ReachableStep(s: Sys, l: Label)
    requires Reachable(s) && Enabled(s, l)
    ensures Reachable(Step(s, l))
  {
    var s0, labels :| Init(s0) && IsRun(s0, labels) && Run(s0, labels) == s;
    RunExtends(s0, labels, l);
  }

  /** A thread of a following engine, between two stops. */
  ghost predicate Between(s: Sys, t: Pid, acts: seq<Act>, execd: bool) {
    && Reachable(s) && s.tr.follow && s.tr.pending.None? && t in s.tr.live
    && t in s.tracees && s.tracees[t].motion.Running?
    && s.tracees[t].acts == acts && s.tracees[t].execd == execd
  }

  /** One stop of `t` that the engine does not report, handed over at once. */
  lemma StopAndDeliver(s: Sys, t: Pid, acts: seq<Act>, execd: bool, stop: Stop) returns (s': Sys)
    requires Between(s, t, acts, execd) && StopAllowed(s, t, stop) && !stop.ForkStop? && !Dying(stop)
    requires SyscallStop(stop) ==> InCall(acts) == execd
    ensures Between(s', t, ActsAfter(acts, stop), execd || stop.ExecStop?)
  {
    PairingIsExact(s, t);
    ReachableStep(s, Stops(t, stop));
    var s1 := Step(s, Stops(t, stop));
    StopsAllowedIn(s1);
    var answer := Some(s1.tracees[t].tgid);
    DeliverStep(s1, t, s1.clock, answer);
    ReachableStep(s1, Deliver(t, s1.clock, answer));
    s' := Step(s1, Deliver(t, s1.clock, answer));
  }

  /** When following, one successful execve is enough: its exit stop is taken for an entry,
      so the finished call is not reported. */
  lemma ExecEventMispairs()
    ensures exists s: Sys, t: Pid ::
      && Reachable(s) && t in s.tracees && s.tracees[t].base <= |EventsOf(s.out, t)|
      && !InCall(s.tracees[t].acts)
      && CallsOf(LifeEvents(s, t)) != Completed(s.tracees[t].acts)
  {
    SpawnBegins(1, true, true);
    var s0 := Sys(map[1 := Fresh(1)],
                  State(true, {1}, map[], map[1 := 1], None, [Resume(1, None)]),
                  [], [Stopped(1, SIGTRAP)], 0, 1, [], true);
    var s1 := StopAndDeliver(s0, 1, [], false, EnterStop(NO_REGS));
    var s2 := StopAndDeliver(s1, 1, [Enter(0, NO_REGS.args)], false, ExecStop);
    var s3 := StopAndDeliver(s2, 1, [Enter(0, NO_REGS.args)], true, ExitStop(NO_REGS));
    assert !InCall(s3.tracees[1].acts);
    StreamTellsCompletedCalls(s3, 1);
  }
}
