/** The two backends, listening to the same threads, tell the same calls. */
module Agreement {
  import opened Common
  import opened PtraceEngine
  import opened PtraceWorld
  import opened PtraceInvariants
  import opened PtraceRuns
  import B = BpfModel
  import opened BpfRuns
  import opened EbpfStream

  lemma CompletesBehind(before: seq<Act>, acts: seq<Act>, a: Act)
    requires !InCall(before)
    ensures Completes(before + acts, a) == Completes(acts, a)
  {
    if |acts| == 0 {
      assert before + acts == before;
    } else {
      assert (before + acts)[|before + acts| - 1] == acts[|acts| - 1];
    }
  }

  lemma {:induction false} CompletedSplits(before: seq<Act>, acts: seq<Act>)
    requires !InCall(before)
    ensures Completed(before + acts) == Completed(before) + Completed(acts)
    decreases |acts|
  {
    if |acts| == 0 {
      assert before + acts == before && Completed(before) + Completed(acts) == Completed(before);
    } else {
      var some, last := acts[..|acts| - 1], acts[|acts| - 1];
      calc {
        Completed(before + acts);
        { assert before + acts == (before + some) + [last]; }
        Completed((before + some) + [last]);
        { CompletedAppend(before + some, last); CompletesBehind(before, some, last); }
        Completed(before + some) + Completes(some, last);
        { CompletedSplits(before, some); }
        Completed(before) + (Completed(some) + Completes(some, last));
        { CompletedAppend(some, last); assert acts == some + [last]; }
        Completed(before) + Completed(acts);
      }
    }
  }

  /** Take any run of the ptrace system and any history of tracepoint hits in which thread `t`, from
      the hit on that makes it a target, crosses the syscall boundary in the same way, except that
      the programs may have watched it for a while (`before`) when ptrace first saw it. What it did
      before that hit does not matter, and other threads may do anything in either. If the ring had
      room for the records of `t` and user space has read all of it, then without an exec event the
      eBPF stream tells the calls completed in `before` and then exactly what the ptrace stream tells;
      between two calls, that is so only without an exec event. A call cut short by death is told by
      neither. */
  lemma BackendsAgree(
      s: Sys, t: Pid, p: B.PathArgs, hits: seq<B.Hit>, before: seq<Act>,
      emitted: seq<Entry>, cut: Option<Cut>, baseline: U64)
    requires Reachable(s) && t in s.tracees && s.tracees[t].base <= |EventsOf(s.out, t)|
    requires Seen(p, hits, t) == before + s.tracees[t].acts && !InCall(before)
    requires RingHadRoom(p, hits, t)
    requires emitted == Merge(B.After(p, hits).ring, cut, baseline)
    ensures !s.tracees[t].execd ==>
      Told(emitted, t) == Completed(before) + CallsOf(LifeEvents(s, t))
    ensures !InCall(s.tracees[t].acts) ==>
      (Told(emitted, t) == Completed(before) + CallsOf(LifeEvents(s, t)) <==> !s.tracees[t].execd)
  {
    StreamTellsRecords(B.After(p, hits).ring, cut, baseline, t);
    NothingLost(p, hits, t);
    CompletedSplits(before, s.tracees[t].acts);
    StreamTellsCompletedCalls(s, t);
    var told, calls := CallsOf(LifeEvents(s, t)), Completed(s.tracees[t].acts);
    if Completed(before) + told == Completed(before) + calls {
      assert told == (Completed(before) + told)[|Completed(before)|..];
      assert calls == (Completed(before) + calls)[|Completed(before)|..];
    }
  }

  /** The same in terms of the hits alone: for every seed, and for every thread forked from one,
      directly or not, from the first hit on that arms or forks it, while there is room in the target
      map and in the ring. */
  lemma BackendsAgreeOnTheFollowed(
      s: Sys, t: Pid, p: B.PathArgs, hits: seq<B.Hit>, k: nat, before: seq<Act>,
      emitted: seq<Entry>, cut: Option<Cut>, baseline: U64)
    requires Reachable(s) && t in s.tracees && s.tracees[t].base <= |EventsOf(s.out, t)|
    requires HadRoom(p, hits) && BringsFirst(hits, k, t)
    requires ActsOf(hits[k + 1..], t) == before + s.tracees[t].acts && !InCall(before)
    requires forall i :: k < i < |hits| && hits[i].SysExit? && hits[i].tid == t ==> hits[i].room
    requires emitted == Merge(B.After(p, hits).ring, cut, baseline)
    ensures !s.tracees[t].execd ==>
      Told(emitted, t) == Completed(before) + CallsOf(LifeEvents(s, t))
    ensures !InCall(s.tracees[t].acts) ==>
      (Told(emitted, t) == Completed(before) + CallsOf(LifeEvents(s, t)) <==> !s.tracees[t].execd)
  {
    FirstMakesTarget(p, hits, k, t);
    SeenSince(p, hits, t, k);
    RoomSince(p, hits, t, k);
    BackendsAgree(s, t, p, hits, before, emitted, cut, baseline);
  }

  lemma RoomSince(p: B.PathArgs, hits: seq<B.Hit>, t: Pid, k: nat)
    requires k < |hits| && t !in B.After(p, hits[..k]).targets && !hits[k].SysExit?
    requires forall i :: k < i < |hits| && hits[i].SysExit? && hits[i].tid == t ==> hits[i].room
    ensures RingHadRoom(p, hits, t)
  {
    forall i {:trigger B.After(p, hits[..i])} |
      0 <= i < |hits| && t in B.After(p, hits[..i]).targets && hits[i].SysExit? && hits[i].tid == t
      ensures hits[i].room
    {
      if i <= k {
        StillTraced(p, hits, i, k, t);
      }
    }
  }

  const READ: U64 := 0
  const EXECVE: U64 := 59
  const NO_ARGS: Args := [0, 0, 0, 0, 0, 0]

  /** What the tracepoints see of a child until its program starts: it waits in `read` for the start
      pipe, is armed, is let go, and calls `execve`. */
  function StartHits(t: Pid): seq<B.Hit> {
    [B.SysEnter(t, Some(B.RawEnter(READ, NO_ARGS)), 0),
     B.Arm(t),
     B.SysExit(t, t, Some(1), 0, true, _ => B.NoStr),
     B.SysEnter(t, Some(B.RawEnter(EXECVE, NO_ARGS)), 0),
     B.SysExit(t, t, Some(0), 0, true, _ => B.NoStr)]
  }

  function StartActs(): seq<Act> {
    [Exit(1), Enter(EXECVE, NO_ARGS), Exit(0)]
  }

  lemma StartCompletes()
    ensures Completed(StartActs()) == [Call(EXECVE, NO_ARGS, 0)] && !InCall(StartActs())
  {
    var read: seq<Act> := [Exit(1)];
    CompletedAppend([], Exit(1));
    assert [] + [Exit(1)] == read;
    CompletedAppend(read, Enter(EXECVE, NO_ARGS));
    CompletedAppend(read + [Enter(EXECVE, NO_ARGS)], Exit(0));
    assert read + [Enter(EXECVE, NO_ARGS)] + [Exit(0)] == StartActs();
  }

  lemma ActsOneMore(hits: seq<B.Hit>, h: B.Hit, t: Pid)
    ensures ActsOf(hits + [h], t) == ActsOf(hits, t) + ActsIn(h, t)
  {
    assert (hits + [h])[..|hits|] == hits;
  }

  lemma ActsOfThree(hits: seq<B.Hit>, t: Pid)
    requires |hits| == 3
    ensures ActsOf(hits, t) == ActsIn(hits[0], t) + ActsIn(hits[1], t) + ActsIn(hits[2], t)
  {
    var none := hits[..0];
    ActsOneMore(none, hits[0], t);
    ActsOneMore(none + [hits[0]], hits[1], t);
    ActsOneMore(none + [hits[0]] + [hits[1]], hits[2], t);
    assert hits == none + [hits[0]] + [hits[1]] + [hits[2]];
    assert ActsOf(none, t) + ActsIn(hits[0], t) == ActsIn(hits[0], t);
  }

  lemma StartActsSeen(t: Pid)
    ensures ActsOf(StartHits(t)[2..], t) == StartActs()
  {
    ActsOfThree(StartHits(t)[2..], t);
  }

  lemma StartMakesTarget(t: Pid, p: B.PathArgs)
    ensures t !in B.After(p, StartHits(t)[..1]).targets && t in B.After(p, StartHits(t)[..2]).targets
  {
    var hits := StartHits(t);
    PrefixStep(p, hits, 0);
    PrefixStep(p, hits, 1);
    assert hits[..0] == [];
  }

  lemma StartTold(t: Pid, p: B.PathArgs)
    ensures Told(Merge(B.After(p, StartHits(t)).ring, None, 0), t) == [Call(EXECVE, NO_ARGS, 0)]
  {
    var hits := StartHits(t);
    StartMakesTarget(t, p);
    SeenSince(p, hits, t, 1);
    StartActsSeen(t);
    StartCompletes();
    RoomSince(p, hits, t, 1);
    NothingLost(p, hits, t);
    StreamTellsRecords(B.After(p, hits).ring, None, 0, t);
  }

  /** So the streams do differ: of a child just spawned, eBPF tells the `execve` that starts its
      program, and ptrace tells nothing. */
  lemma SpawnTellsMore(t: Pid, p: B.PathArgs)
    ensures exists s: Sys ::
      && Reachable(s) && t in s.tracees && s.out == []
      && Told(Merge(B.After(p, StartHits(t)).ring, None, 0), t) == [Call(EXECVE, NO_ARGS, 0)]
      && CallsOf(EventsOf(s.out, t)) == []
  {
    SpawnBegins(t, true, true);
    var s := Sys(map[t := Fresh(t)],
                 State(true, {t}, map[], map[t := t], None, [Resume(t, None)]),
                 [], [Stopped(t, SIGTRAP)], 0, 1, [], true);
    StartTold(t, p);
    assert t in s.tracees && CallsOf(EventsOf(s.out, t)) == [];
  }
}
