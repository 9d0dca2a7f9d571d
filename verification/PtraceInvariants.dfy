/** What every step of the ptrace engine and its kernel keeps. */
module PtraceInvariants {
  import opened Common
  import opened PtraceEngine
  import opened PtraceWorld

  // ---------------------------------------------------------------- who is stopped

  /** The one stopped tracee whose stop was handed over and that has not been resumed
      is the pending one. */
  ghost predicate OnlyPendingHeld(s: Sys) {
    && (forall t :: t in s.tracees && s.tracees[t].motion.Held? ==> s.tr.pending == Some(Resume(t, None)))
    && (s.tr.pending.Some? ==>
          && s.tr.pending.value.pid in s.tracees && s.tracees[s.tr.pending.value.pid].motion.Held?
          && s.tr.pending.value.sig.None?)
  }

  function PendingList(s: State): seq<Resume> {
    if s.pending.Some? then [s.pending.value] else []
  }

  /** Every stop handed over is answered once, in order, with its own signal. */
  ghost predicate ResumesConserved(s: Sys) {
    s.tr.issued + PendingList(s.tr) == OwedFor(s.delivered)
  }

  // ---------------------------------------------------------------- pairing

  function Find<K, V>(m: map<K, V>, k: K): Option<V> {
    if k in m then Some(m[k]) else None
  }

  /** A tracee is in flight exactly if being inside a call differs from having had an
      exec event; a dead one never is. */
  ghost predicate Paired(s: Sys) {
    && (forall t :: t in s.tr.inflight || t in s.tr.tgid ==> Living(s, t))
    && forall t :: Living(s, t) ==>
         (t in s.tr.inflight <==> (InCall(s.tracees[t].acts) != s.tracees[t].execd))
  }

  /** The history of one life, given the events that told it: without an exec event they
      are its completed calls; with one, a finished call more than they tell. */
  ghost predicate Tells(life: seq<SyscallEvent>, acts: seq<Act>, execd: bool, inflight: Option<Inflight>) {
    && (!execd ==> CallsOf(life) == Completed(acts))
    && |life| + (if execd && !InCall(acts) then 1 else 0) == |Completed(acts)|
    && (inflight.Some? && !execd && InCall(acts) ==>
          inflight.value.nr == acts[|acts| - 1].nr && inflight.value.args == acts[|acts| - 1].args)
  }

  /** The syscall events of a tracee's present life. */
  function LifeEvents(s: Sys, t: Pid): seq<SyscallEvent>
    requires t in s.tracees && s.tracees[t].base <= |EventsOf(s.out, t)|
  {
    EventsOf(s.out, t)[s.tracees[t].base..]
  }

  ghost predicate History(s: Sys, t: Pid)
    requires t in s.tracees
  {
    && s.tracees[t].base <= |EventsOf(s.out, t)|
    && Tells(LifeEvents(s, t), s.tracees[t].acts, s.tracees[t].execd, Find(s.tr.inflight, t))
  }

  ghost predicate Histories(s: Sys) {
    forall t :: t in s.tracees ==> History(s, t)
  }

  /** All events of one life carry one process id, the cached one while the tracee lives. */
  ghost predicate SamePid(life: seq<SyscallEvent>, living: bool, cached: Option<Pid>) {
    && (forall i, j :: 0 <= i < |life| && 0 <= j < |life| ==> life[i].pid == life[j].pid)
    && (living && life != [] ==> cached == Some(life[0].pid))
  }

  ghost predicate OnePid(s: Sys) {
    forall t :: t in s.tracees ==>
      s.tracees[t].base <= |EventsOf(s.out, t)| && SamePid(LifeEvents(s, t), Living(s, t), Find(s.tr.tgid, t))
  }

  /** Without following, no exec event is ever asked for. */
  ghost predicate ExecsAskedFor(s: Sys) {
    forall t :: t in s.tracees && s.tracees[t].execd ==> s.tr.follow
  }

  // ---------------------------------------------------------------- whose, and what else

  /** The events that are not syscalls, in stream order. */
  function OthersOf(out: seq<Event>): seq<Event> {
    if out == [] then []
    else
      var last := out[|out| - 1];
      OthersOf(out[..|out| - 1]) + if last.Syscall? then [] else [last]
  }

  /** `e` tells of `n`; if /proc can be read, its process id is the right one exactly if it could be
      known, and the thread's own id otherwise. */
  predicate SameNotice(e: Event, n: Notice, exact: bool) {
    && !e.Syscall? && !n.event.Syscall? && e == n.event.(pid := e.pid)
    && (exact ==> e.pid == (if n.known then n.event.pid else n.tid) && (e.pid == n.event.pid <==> n.known))
  }

  ghost predicate AllTold(others: seq<Event>, happened: seq<Notice>, exact: bool) {
    |others| == |happened| && forall i :: 0 <= i < |others| ==> SameNotice(others[i], happened[i], exact)
  }

  ghost predicate CacheIsTrue(s: Sys) {
    forall t :: t in s.tr.tgid ==> t in s.tracees && s.tr.tgid[t] == s.tracees[t].tgid
  }

  ghost predicate TruePids(s: Sys) {
    forall t :: t in s.tracees ==>
      && s.tracees[t].base <= |EventsOf(s.out, t)|
      && forall i :: 0 <= i < |LifeEvents(s, t)| ==> LifeEvents(s, t)[i].pid == s.tracees[t].tgid
  }

  /** Deaths and signals are told, each once and in order; while /proc can be read every syscall
      event carries the process id of its thread. */
  ghost predicate ToldTruly(s: Sys) {
    && AllTold(OthersOf(s.out), s.happened, s.procReadable)
    && (s.procReadable ==> CacheIsTrue(s) && TruePids(s))
  }

  // ---------------------------------------------------------------- nobody is lost

  /** Every living tracee is known to the engine, or is a newborn whose older, living
      creator sits at the fork event that will announce it. */
  ghost predicate NobodyLost(s: Sys) {
    && (forall t :: t in s.tracees ==> s.tracees[t].born < s.births)
    && forall t :: Living(s, t) && t !in s.tr.live ==>
         var p := s.tracees[t].creator;
         && p in s.tracees && s.tracees[p].born < s.tracees[t].born
         && s.tracees[p].motion.Waiting? && s.tracees[p].motion.stop.ForkStop?
         && s.tracees[p].motion.stop.child == t
  }

  // ---------------------------------------------------------------- time

  ghost predicate Timely(s: Sys) {
    && InOrder(s.out)
    && (forall i :: 0 <= i < |s.out| && s.out[i].Syscall? ==> EndOf(s.out[i].ev) <= s.clock)
    && (forall t :: t in s.tr.inflight ==> s.tr.inflight[t].enterNs <= s.clock)
    && (forall t, i :: t in s.tr.inflight && 0 <= i < |s.out| && s.out[i].Syscall? && s.out[i].ev.tid == t ==>
          EndOf(s.out[i].ev) <= s.tr.inflight[t].enterNs)
  }

  ghost predicate Inv(s: Sys) {
    && StopsAllowed(s) && ExecsAskedFor(s) && OnlyPendingHeld(s) && ResumesConserved(s)
    && Paired(s) && Histories(s) && OnePid(s)
    && NobodyLost(s) && Timely(s) && ToldTruly(s)
  }

  // ---------------------------------------------------------------- one step

  lemma ReleasedOne(tracees: map<Pid, Tracee>, r: Resume)
    ensures Released(tracees, []) == tracees
    ensures Released(tracees, [r])
         == if r.pid in tracees && tracees[r.pid].motion.Held?
            then tracees[r.pid := tracees[r.pid].(motion := Running)] else tracees
  {
    assert [r][..0] == [];
    assert Released(tracees, [r][..0]) == tracees;
  }

  /** The tracee a hand-over leaves behind: the engine resumes it at once, unless it
      died or its finished call has just been reported. */
  function Settled(s: Sys, t: Pid): Tracee
    requires t in s.tracees && s.tracees[t].motion.Waiting?
  {
    var k := s.tracees[t];
    var k1 := HandedOver(k);
    if Dying(k.motion.stop) then k1
    else if t in s.tr.inflight && SyscallStop(k.motion.stop) then k1
    else k1.(motion := Running)
  }

  /** What handling a stop of `t` does to the engine, field by field. */
  ghost predicate Handles(tr: State, t: Pid, stop: Stop, now: U64, h: Handled) {
    var reports := SyscallStop(stop) && t in tr.inflight;
    var tr' := h.state;
    && tr'.follow == tr.follow
    && tr'.pending == (if reports then Some(Resume(t, None)) else tr.pending)
    && tr'.issued == tr.issued + (if reports then [] else Owed(StatusOf(t, stop)))
    && tr'.live == (if Dying(stop) then tr.live - {t}
                    else if stop.ForkStop? then tr.live + {stop.child} else tr.live)
    && tr'.inflight == (if reports || stop.ExecStop? || Dying(stop) then tr.inflight - {t}
                        else if SyscallStop(stop)
                        then tr.inflight[t := Inflight(stop.regs.origRax, stop.regs.args, now)]
                        else tr.inflight)
    && (Dying(stop) ==> t !in tr'.tgid)
    && (!Dying(stop) && t in tr.tgid ==> t in tr'.tgid && tr'.tgid[t] == tr.tgid[t])
    && tr'.tgid - {t} == tr.tgid - {t}
    && (reports ==>
          && t in tr'.tgid
          && h.outcome == Emit(Syscall(SyscallEvent(
               tr'.tgid[t], t, tr.inflight[t].nr, tr.inflight[t].args, AsI64(stop.regs.rax),
               tr.inflight[t].enterNs, SatSub(now, tr.inflight[t].enterNs)))))
    && (!reports ==> h.outcome == Quiet || (h.outcome.Emit? && !h.outcome.event.Syscall?))
  }

  /** What a hand-over from `t` does to the whole system. */
  ghost predicate Delivers(s: Sys, t: Pid, now: U64, s': Sys)
    requires t in s.tracees && s.tracees[t].motion.Waiting?
  {
    exists o: Outcome ::
      && Handles(s.tr, t, s.tracees[t].motion.stop, now, Handled(s'.tr, o))
      && s'.out == s.out + Emitted(o)
      && s'.tracees == s.tracees[t := Settled(s, t)]
      && s'.births == s.births && s'.clock == now
      && s'.delivered == s.delivered + [StatusOf(t, s.tracees[t].motion.stop)]
  }

  lemma HandleStep(tr: State, t: Pid, stop: Stop, now: U64, tgidAnswer: Option<Pid>)
    requires stop.ForkStop? ==> tr.follow && stop.event in {1, 2, 3}
    ensures Handles(tr, t, stop, now, Handle(tr, StatusOf(t, stop), AnswersOf(stop, now, tgidAnswer)))
  {
    var h := Handle(tr, StatusOf(t, stop), AnswersOf(stop, now, tgidAnswer));
    match stop
    case EnterStop(_) =>
    case ExitStop(_) =>
    case ExecStop =>
    case ForkStop(_, _, _) =>
    case SignalStop(_) =>
    case Death(_) => assert h.state.live == tr.live - {t};
    case Killed(_) => assert h.state.live == tr.live - {t};
  }

  lemma DeliverStep(s: Sys, t: Pid, now: U64, tgidAnswer: Option<Pid>)
    requires Enabled(s, Deliver(t, now, tgidAnswer)) && StopsAllowed(s)
    ensures Delivers(s, t, now, Step(s, Deliver(t, now, tgidAnswer)))
  {
    var stop := s.tracees[t].motion.stop;
    var h := Handle(s.tr, StatusOf(t, stop), AnswersOf(stop, now, tgidAnswer));
    HandleStep(s.tr, t, stop, now, tgidAnswer);
    SettledByResumes(s, t, h, now);
    assert Handles(s.tr, t, stop, now, Handled(h.state, h.outcome));
  }

  lemma SettledByResumes(s: Sys, t: Pid, h: Handled, now: U64)
    requires t in s.tracees && s.tracees[t].motion.Waiting?
    requires Handles(s.tr, t, s.tracees[t].motion.stop, now, h)
    ensures Released(s.tracees[t := HandedOver(s.tracees[t])], h.state.issued[|s.tr.issued|..])
         == s.tracees[t := Settled(s, t)]
  {
    var held := s.tracees[t := HandedOver(s.tracees[t])];
    var requests := h.state.issued[|s.tr.issued|..];
    if SyscallStop(s.tracees[t].motion.stop) && t in s.tr.inflight {
      assert requests == [];
    } else {
      assert requests == Owed(StatusOf(t, s.tracees[t].motion.stop));
      if requests != [] {
        ReleasedOne(held, requests[0]);
        assert held[t := held[t].(motion := Running)] == s.tracees[t := Settled(s, t)];
      }
    }
  }

  // ---------------------------------------------------------------- preservation

  lemma OwedAppend(delivered: seq<WaitStatus>, status: WaitStatus)
    ensures OwedFor(delivered + [status]) == OwedFor(delivered) + Owed(status)
  {
    assert (delivered + [status])[..|delivered|] == delivered;
  }

  lemma SimpleInvariantsKept(s: Sys, t: Pid, now: U64, s': Sys)
    requires t in s.tracees && s.tracees[t].motion.Waiting? && Delivers(s, t, now, s')
    requires s.tr.pending.None? && StopsAllowed(s)
    ensures StopsAllowed(s')
    ensures ExecsAskedFor(s) ==> ExecsAskedFor(s')
    ensures OnlyPendingHeld(s) ==> OnlyPendingHeld(s')
    ensures ResumesConserved(s) ==> ResumesConserved(s')
  {
    OwedAppend(s.delivered, StatusOf(t, s.tracees[t].motion.stop));
    assert s.tr.issued + [] == s.tr.issued;
  }

  lemma PairedKept(s: Sys, t: Pid, now: U64, s': Sys)
    requires t in s.tracees && s.tracees[t].motion.Waiting? && Delivers(s, t, now, s')
    requires Paired(s) && StopAllowed(s, t, s.tracees[t].motion.stop)
    ensures Paired(s')
  {
    forall u | u in s'.tr.inflight || u in s'.tr.tgid
      ensures Living(s', u)
    {
      if u != t && u in s'.tr.tgid {
        assert u in s'.tr.tgid - {t};
      }
    }
    forall u | Living(s', u)
      ensures u in s'.tr.inflight <==> (InCall(s'.tracees[u].acts) != s'.tracees[u].execd)
    {
      assert Living(s, u);
    }
  }

  lemma NobodyLostKept(s: Sys, t: Pid, now: U64, s': Sys)
    requires t in s.tracees && s.tracees[t].motion.Waiting? && Delivers(s, t, now, s')
    requires NobodyLost(s)
    ensures NobodyLost(s')
  {
    forall u | Living(s', u) && u !in s'.tr.live
      ensures var p := s'.tracees[u].creator;
        && p in s'.tracees && s'.tracees[p].born < s'.tracees[u].born
        && s'.tracees[p].motion.Waiting? && s'.tracees[p].motion.stop.ForkStop?
        && s'.tracees[p].motion.stop.child == u
    {
      assert Living(s, u) && u !in s.tr.live;
    }
  }

  lemma TimelyKept(s: Sys, t: Pid, now: U64, s': Sys)
    requires t in s.tracees && s.tracees[t].motion.Waiting? && Delivers(s, t, now, s')
    requires s.clock <= now && Timely(s)
    ensures Timely(s')
  {
    forall i | 0 <= i < |s'.out| && s'.out[i].Syscall?
      ensures EndOf(s'.out[i].ev) <= s'.clock
    {
      if i < |s.out| { assert s'.out[i] == s.out[i]; }
    }
    forall i, j | 0 <= i < j < |s'.out| && s'.out[i].Syscall? && s'.out[j].Syscall?
      ensures EndOf(s'.out[i].ev) <= EndOf(s'.out[j].ev)
      ensures s'.out[i].ev.tid == s'.out[j].ev.tid ==> EndOf(s'.out[i].ev) <= s'.out[j].ev.tsEnter
    {
      assert s'.out[i] == s.out[i];
      if j < |s.out| { assert s'.out[j] == s.out[j]; }
    }
    forall u, i | u in s'.tr.inflight && 0 <= i < |s'.out| && s'.out[i].Syscall? && s'.out[i].ev.tid == u
      ensures EndOf(s'.out[i].ev) <= s'.tr.inflight[u].enterNs
    {
      if i < |s.out| { assert s'.out[i] == s.out[i]; }
    }
  }

  // ---------------------------------------------------------------- histories

  /** What a hand-over adds to the story of `u`. */
  lemma EventsGrow(s: Sys, t: Pid, now: U64, s': Sys, u: Pid)
    requires t in s.tracees && s.tracees[t].motion.Waiting? && Delivers(s, t, now, s')
    ensures var reports := SyscallStop(s.tracees[t].motion.stop) && t in s.tr.inflight;
      if u == t && reports then
        && t in s'.tr.tgid
        && EventsOf(s'.out, t) == EventsOf(s.out, t) + [SyscallEvent(
             s'.tr.tgid[t], t, s.tr.inflight[t].nr, s.tr.inflight[t].args,
             AsI64(s.tracees[t].motion.stop.regs.rax),
             s.tr.inflight[t].enterNs, SatSub(now, s.tr.inflight[t].enterNs))]
      else EventsOf(s'.out, u) == EventsOf(s.out, u)
  {
    var o :| Handles(s.tr, t, s.tracees[t].motion.stop, now, Handled(s'.tr, o)) && s'.out == s.out + Emitted(o);
    if o.Emit? {
      EventsOfAppend(s.out, o.event, u);
    } else {
      assert s.out + [] == s.out;
    }
  }

  /** One more act, seen by an engine that pairs acts the way `Paired` says. */
  lemma TellsNext(
      life: seq<SyscallEvent>, acts: seq<Act>, execd: bool, inflight: Option<Inflight>,
      act: Act, ev: SyscallEvent)
    requires Tells(life, acts, execd, inflight)
    requires act.Enter? <==> !InCall(acts)
    requires inflight.Some? <==> (InCall(acts) != execd)
    ensures inflight.Some? && !execd && CallOf(ev) == Call(inflight.value.nr, inflight.value.args, act.retval)
            ==> Tells(life + [ev], acts + [act], execd, None)
    ensures inflight.Some? && execd ==> Tells(life + [ev], acts + [act], execd, None)
    ensures inflight.None? && execd ==>
      forall i: Inflight :: Tells(life, acts + [act], execd, Some(i))
    ensures inflight.None? && !execd ==>
      forall i: Inflight :: i.nr == act.nr && i.args == act.args ==> Tells(life, acts + [act], execd, Some(i))
  {
    CompletedAppend(acts, act);
    assert CallsOf(life + [ev]) == CallsOf(life) + [CallOf(ev)];
  }

  lemma OwnHistoryReported(s: Sys, t: Pid, now: U64, s': Sys)
    requires t in s.tracees && s.tracees[t].motion.Waiting? && Delivers(s, t, now, s')
    requires History(s, t) && Paired(s) && StopAllowed(s, t, s.tracees[t].motion.stop)
    requires SyscallStop(s.tracees[t].motion.stop) && t in s.tr.inflight
    ensures History(s', t)
  {
    var k := s.tracees[t];
    assert Living(s, t);
    EventsGrow(s, t, now, s', t);
    var act := ActsAfter(k.acts, k.motion.stop)[|k.acts|];
    var ev := EventsOf(s'.out, t)[|EventsOf(s.out, t)|];
    TellsNext(LifeEvents(s, t), k.acts, k.execd, Find(s.tr.inflight, t), act, ev);
    assert s'.tracees[t].acts == k.acts + [act];
    assert LifeEvents(s', t) == LifeEvents(s, t) + [ev];
  }

  lemma OwnHistoryOpened(s: Sys, t: Pid, now: U64, s': Sys)
    requires t in s.tracees && s.tracees[t].motion.Waiting? && Delivers(s, t, now, s')
    requires History(s, t) && Paired(s) && StopAllowed(s, t, s.tracees[t].motion.stop)
    requires SyscallStop(s.tracees[t].motion.stop) && t !in s.tr.inflight
    ensures History(s', t)
  {
    var k := s.tracees[t];
    assert Living(s, t);
    EventsGrow(s, t, now, s', t);
    var act := ActsAfter(k.acts, k.motion.stop)[|k.acts|];
    TellsNext(LifeEvents(s, t), k.acts, k.execd, None, act, SyscallEvent(0, t, 0, NO_REGS.args, 0, 0, 0));
    assert s'.tracees[t].acts == k.acts + [act];
    assert LifeEvents(s', t) == LifeEvents(s, t);
  }

  lemma OwnHistoryKept(s: Sys, t: Pid, now: U64, s': Sys)
    requires t in s.tracees && s.tracees[t].motion.Waiting? && Delivers(s, t, now, s')
    requires History(s, t) && Paired(s) && StopAllowed(s, t, s.tracees[t].motion.stop)
    ensures History(s', t)
  {
    if !SyscallStop(s.tracees[t].motion.stop) {
      assert Living(s, t);
      EventsGrow(s, t, now, s', t);
      assert LifeEvents(s', t) == LifeEvents(s, t);
    } else if t in s.tr.inflight {
      OwnHistoryReported(s, t, now, s');
    } else {
      OwnHistoryOpened(s, t, now, s');
    }
  }

  lemma HistoriesKept(s: Sys, t: Pid, now: U64, s': Sys)
    requires t in s.tracees && s.tracees[t].motion.Waiting? && Delivers(s, t, now, s')
    requires Histories(s) && Paired(s) && StopsAllowed(s)
    ensures Histories(s')
  {
    OwnHistoryKept(s, t, now, s');
    forall u | u in s'.tracees && u != t
      ensures History(s', u)
    {
      assert History(s, u);
      EventsGrow(s, t, now, s', u);
    }
  }

  lemma SamePidNext(life: seq<SyscallEvent>, ev: SyscallEvent, before: Option<Pid>, living: bool)
    requires SamePid(life, true, before) && (before.Some? ==> before.value == ev.pid)
    ensures SamePid(life + [ev], living, Some(ev.pid))
  {
    assert life != [] ==> life[0].pid == ev.pid;
  }

  lemma OwnPidKept(s: Sys, t: Pid, now: U64, s': Sys)
    requires t in s.tracees && s.tracees[t].motion.Waiting? && Delivers(s, t, now, s')
    requires s.tracees[t].base <= |EventsOf(s.out, t)|
    requires SamePid(LifeEvents(s, t), true, Find(s.tr.tgid, t))
    ensures s'.tracees[t].base <= |EventsOf(s'.out, t)|
            && SamePid(LifeEvents(s', t), Living(s', t), Find(s'.tr.tgid, t))
  {
    EventsGrow(s, t, now, s', t);
    if SyscallStop(s.tracees[t].motion.stop) && t in s.tr.inflight {
      var ev := EventsOf(s'.out, t)[|EventsOf(s.out, t)|];
      assert LifeEvents(s', t) == LifeEvents(s, t) + [ev];
      SamePidNext(LifeEvents(s, t), ev, Find(s.tr.tgid, t), Living(s', t));
    } else {
      assert LifeEvents(s', t) == LifeEvents(s, t);
    }
  }

  lemma OnePidKept(s: Sys, t: Pid, now: U64, s': Sys)
    requires t in s.tracees && s.tracees[t].motion.Waiting? && Delivers(s, t, now, s')
    requires OnePid(s)
    ensures OnePid(s')
  {
    assert Living(s, t);
    OwnPidKept(s, t, now, s');
    forall u | u in s'.tracees && u != t
      ensures s'.tracees[u].base <= |EventsOf(s'.out, u)|
              && SamePid(LifeEvents(s', u), Living(s', u), Find(s'.tr.tgid, u))
    {
      assert SamePid(LifeEvents(s, u), Living(s, u), Find(s.tr.tgid, u));
      EventsGrow(s, t, now, s', u);
      assert Find(s'.tr.tgid, u) == Find(s'.tr.tgid - {t}, u) == Find(s.tr.tgid - {t}, u);
    }
  }

  // ---------------------------------------------------------------- the other events

  lemma OthersGrow(out: seq<Event>, e: Event)
    ensures OthersOf(out + [e]) == OthersOf(out) + if e.Syscall? then [] else [e]
  {
    assert (out + [e])[..|out|] == out;
  }

  /** The event, if any, tells the notice, if any. */
  ghost predicate Tellings(o: Outcome, notices: seq<Notice>, exact: bool) {
    if o.Emit? && !o.event.Syscall?
    then |notices| == 1 && SameNotice(o.event, notices[0], exact)
    else notices == []
  }

  /** What a hand-over says of the process, and of its end or its signal. */
  ghost predicate Announces(s: Sys, t: Pid, s': Sys)
    requires t in s.tracees && s.tracees[t].motion.Waiting?
  {
    && s'.procReadable == s.procReadable
    && (s.procReadable && t in s'.tr.tgid ==> s'.tr.tgid[t] == s.tracees[t].tgid)
    && exists o: Outcome, notices: seq<Notice> ::
         s'.out == s.out + Emitted(o) && s'.happened == s.happened + notices && Tellings(o, notices, s.procReadable)
  }

  lemma AnnounceStep(s: Sys, t: Pid, now: U64, tgidAnswer: Option<Pid>)
    requires Enabled(s, Deliver(t, now, tgidAnswer)) && (s.procReadable ==> CacheIsTrue(s))
    ensures Announces(s, t, Step(s, Deliver(t, now, tgidAnswer)))
  {
    var stop := s.tracees[t].motion.stop;
    var h := Handle(s.tr, StatusOf(t, stop), AnswersOf(stop, now, tgidAnswer));
    var notices := Happening(s.tracees[t], t, t in s.tr.tgid);
    var s' := Step(s, Deliver(t, now, tgidAnswer));
    assert Tellings(h.outcome, notices, s.procReadable);
    assert s'.out == s.out + Emitted(h.outcome) && s'.happened == s.happened + notices;
  }

  lemma AllToldNext(others: seq<Event>, happened: seq<Notice>, e: Event, n: Notice, exact: bool)
    requires AllTold(others, happened, exact) && SameNotice(e, n, exact)
    ensures AllTold(others + [e], happened + [n], exact)
  {
  }

  lemma AllToldKept(s: Sys, t: Pid, s': Sys)
    requires t in s.tracees && s.tracees[t].motion.Waiting? && Announces(s, t, s')
    requires AllTold(OthersOf(s.out), s.happened, s.procReadable)
    ensures AllTold(OthersOf(s'.out), s'.happened, s'.procReadable)
  {
    var o: Outcome, notices: seq<Notice> :|
      s'.out == s.out + Emitted(o) && s'.happened == s.happened + notices && Tellings(o, notices, s.procReadable);
    if o.Emit? {
      OthersGrow(s.out, o.event);
    } else {
      assert s'.out == s.out;
    }
    if o.Emit? && !o.event.Syscall? {
      AllToldNext(OthersOf(s.out), s.happened, o.event, notices[0], s.procReadable);
      assert notices == [notices[0]];
    } else {
      assert s'.happened == s.happened && OthersOf(s'.out) == OthersOf(s.out);
    }
  }

  lemma CacheKept(s: Sys, t: Pid, now: U64, s': Sys)
    requires t in s.tracees && s.tracees[t].motion.Waiting? && Delivers(s, t, now, s') && Announces(s, t, s')
    requires s.procReadable && CacheIsTrue(s)
    ensures CacheIsTrue(s')
  {
    forall u | u in s'.tr.tgid
      ensures u in s'.tracees && s'.tr.tgid[u] == s'.tracees[u].tgid
    {
      if u != t {
        assert u in s'.tr.tgid - {t} && s'.tr.tgid[u] == (s'.tr.tgid - {t})[u] == (s.tr.tgid - {t})[u];
      }
    }
  }

  lemma TruePidsKept(s: Sys, t: Pid, now: U64, s': Sys)
    requires t in s.tracees && s.tracees[t].motion.Waiting? && Delivers(s, t, now, s') && Announces(s, t, s')
    requires s.procReadable && TruePids(s)
    ensures TruePids(s')
  {
    forall u | u in s'.tracees
      ensures s'.tracees[u].base <= |EventsOf(s'.out, u)|
      ensures forall i :: 0 <= i < |LifeEvents(s', u)| ==> LifeEvents(s', u)[i].pid == s'.tracees[u].tgid
    {
      EventsGrow(s, t, now, s', u);
      assert forall i :: 0 <= i < |LifeEvents(s, u)| ==> LifeEvents(s', u)[i] == LifeEvents(s, u)[i];
    }
  }

  lemma ToldTrulyKept(s: Sys, t: Pid, now: U64, s': Sys)
    requires t in s.tracees && s.tracees[t].motion.Waiting? && Delivers(s, t, now, s') && Announces(s, t, s')
    requires ToldTruly(s)
    ensures ToldTruly(s')
  {
    AllToldKept(s, t, s');
    if s.procReadable {
      CacheKept(s, t, now, s');
      TruePidsKept(s, t, now, s');
    }
  }

  lemma ToldTrulyByStops(s: Sys, t: Pid, stop: Stop)
    requires ToldTruly(s) && Paired(s) && Enabled(s, Stops(t, stop))
    ensures ToldTruly(Step(s, Stops(t, stop)))
  {
    var s' := Step(s, Stops(t, stop));
    if s.procReadable {
      forall u | u in s'.tracees
        ensures s'.tracees[u].base <= |EventsOf(s'.out, u)|
        ensures forall i :: 0 <= i < |LifeEvents(s', u)| ==> LifeEvents(s', u)[i].pid == s'.tracees[u].tgid
      {
        if stop.ForkStop? && u == stop.child {
          assert LifeEvents(s', u) == [];
        } else {
          assert LifeEvents(s', u) == LifeEvents(s, u);
        }
      }
    }
  }

  lemma ToldTrulyByLetGo(s: Sys, s': Sys)
    requires ToldTruly(s) && LetsGo(s, s')
    ensures ToldTruly(s')
  {
    if s.procReadable {
      forall u | u in s'.tracees
        ensures s'.tracees[u].base <= |EventsOf(s'.out, u)|
        ensures forall i :: 0 <= i < |LifeEvents(s', u)| ==> LifeEvents(s', u)[i].pid == s'.tracees[u].tgid
      {
        assert LifeEvents(s', u) == LifeEvents(s, u);
      }
    }
  }

  // ---------------------------------------------------------------- whole runs

  lemma InitInv(s: Sys)
    requires Init(s)
    ensures Inv(s)
  {
    forall t | t in s.tracees
      ensures History(s, t) && SamePid(LifeEvents(s, t), Living(s, t), Find(s.tr.tgid, t))
    {
      assert LifeEvents(s, t) == [];
    }
    assert s.tr.issued + [] == s.tr.issued;
  }

  lemma StoriesKeptByStops(s: Sys, t: Pid, stop: Stop)
    requires Histories(s) && OnePid(s) && Paired(s) && Enabled(s, Stops(t, stop))
    ensures Histories(Step(s, Stops(t, stop))) && OnePid(Step(s, Stops(t, stop)))
  {
    var s' := Step(s, Stops(t, stop));
    forall u | u in s'.tracees
      ensures History(s', u) && SamePid(LifeEvents(s', u), Living(s', u), Find(s'.tr.tgid, u))
    {
      if stop.ForkStop? && u == stop.child {
        assert LifeEvents(s', u) == [];
        assert u !in s.tr.inflight;
      } else {
        assert History(s, u) && LifeEvents(s', u) == LifeEvents(s, u);
        assert SamePid(LifeEvents(s, u), Living(s, u), Find(s.tr.tgid, u));
      }
    }
  }

  lemma NobodyLostByStops(s: Sys, t: Pid, stop: Stop)
    requires NobodyLost(s) && Enabled(s, Stops(t, stop))
    ensures NobodyLost(Step(s, Stops(t, stop)))
  {
    var s' := Step(s, Stops(t, stop));
    forall u | Living(s', u) && u !in s'.tr.live
      ensures var p := s'.tracees[u].creator;
        && p in s'.tracees && s'.tracees[p].born < s'.tracees[u].born
        && s'.tracees[p].motion.Waiting? && s'.tracees[p].motion.stop.ForkStop?
        && s'.tracees[p].motion.stop.child == u
    {
      if !(stop.ForkStop? && u == stop.child) {
        assert Living(s, u) && u !in s.tr.live;
      }
    }
  }

  lemma RestKeptByStops(s: Sys, t: Pid, stop: Stop)
    requires Enabled(s, Stops(t, stop))
    ensures StopsAllowed(s) ==> StopsAllowed(Step(s, Stops(t, stop)))
    ensures ExecsAskedFor(s) ==> ExecsAskedFor(Step(s, Stops(t, stop)))
    ensures OnlyPendingHeld(s) ==> OnlyPendingHeld(Step(s, Stops(t, stop)))
    ensures Paired(s) ==> Paired(Step(s, Stops(t, stop)))
  {
  }

  /** Only the motion of the pending tracee changes. */
  ghost predicate LetsGo(s: Sys, s': Sys) {
    && s.tr.pending.Some?
    && s' == s.(tracees := s'.tracees,
                tr := s.tr.(pending := None, issued := s.tr.issued + [s.tr.pending.value]))
    && s'.tracees.Keys == s.tracees.Keys
    && forall u :: u in s.tracees ==>
         s'.tracees[u] == s.tracees[u].(motion :=
           if u == s.tr.pending.value.pid && s.tracees[u].motion.Held? then Running else s.tracees[u].motion)
  }

  lemma StoriesKeptByLetGo(s: Sys, s': Sys)
    requires Histories(s) && OnePid(s) && LetsGo(s, s')
    ensures Histories(s') && OnePid(s')
  {
    forall u | u in s'.tracees
      ensures History(s', u) && SamePid(LifeEvents(s', u), Living(s', u), Find(s'.tr.tgid, u))
    {
      assert History(s, u) && SamePid(LifeEvents(s, u), Living(s, u), Find(s.tr.tgid, u));
    }
  }

  lemma LetGoStep(s: Sys)
    requires Enabled(s, LetGo)
    ensures LetsGo(s, Step(s, LetGo))
  {
    var h := TakePending(s.tr, true);
    assert h.state.issued[|s.tr.issued|..] == [s.tr.pending.value];
    ReleasedOne(s.tracees, s.tr.pending.value);
    assert s.out + [] == s.out;
  }

  lemma LetGoKeepsMost(s: Sys, s': Sys)
    requires LetsGo(s, s')
    ensures StopsAllowed(s) ==> StopsAllowed(s')
    ensures ExecsAskedFor(s) ==> ExecsAskedFor(s')
    ensures OnlyPendingHeld(s) ==> OnlyPendingHeld(s')
    ensures Paired(s) ==> Paired(s')
    ensures Timely(s) ==> Timely(s')
  {
  }

  lemma LetGoKeepsRest(s: Sys, s': Sys)
    requires LetsGo(s, s')
    ensures NobodyLost(s) ==> NobodyLost(s')
    ensures ResumesConserved(s) ==> ResumesConserved(s')
  {
    assert s'.tr.issued + [] == s.tr.issued + PendingList(s.tr);
  }

  lemma LetGoKeepsInv(s: Sys, s': Sys)
    requires Inv(s) && LetsGo(s, s')
    ensures Inv(s')
  {
    LetGoKeepsMost(s, s');
    LetGoKeepsRest(s, s');
    StoriesKeptByLetGo(s, s');
    ToldTrulyByLetGo(s, s');
  }

  /** Every step of the system, whoever makes it, keeps every invariant. */
  lemma StepKeepsInv(s: Sys, l: Label)
    requires Inv(s) && Enabled(s, l)
    ensures Inv(Step(s, l))
  {
    match l
    case Stops(t, stop) =>
      StoriesKeptByStops(s, t, stop);
      NobodyLostByStops(s, t, stop);
      RestKeptByStops(s, t, stop);
      ToldTrulyByStops(s, t, stop);
    case LetGo =>
      LetGoStep(s);
      LetGoKeepsInv(s, Step(s, LetGo));
    case Deliver(t, now, a) =>
      var s' := Step(s, l);
      DeliverStep(s, t, now, a);
      SimpleInvariantsKept(s, t, now, s');
      PairedKept(s, t, now, s');
      HistoriesKept(s, t, now, s');
      OnePidKept(s, t, now, s');
      NobodyLostKept(s, t, now, s');
      TimelyKept(s, t, now, s');
      AnnounceStep(s, t, now, a);
      ToldTrulyKept(s, t, now, s');
  }

  lemma {:induction false} RunKeepsInv(s: Sys, labels: seq<Label>)
    requires Inv(s) && IsRun(s, labels)
    ensures Inv(Run(s, labels))
    decreases |labels|
  {
    if labels != [] {
      StepKeepsInv(s, labels[0]);
      RunKeepsInv(Step(s, labels[0]), labels[1..]);
    }
  }

  lemma ReachableInv(s: Sys)
    requires Reachable(s)
    ensures Inv(s)
  {
    var s0, labels :| Init(s0) && IsRun(s0, labels) && Run(s0, labels) == s;
    InitInv(s0);
    RunKeepsInv(s0, labels);
  }
}
