/** What the in-kernel programs guarantee over every history of hits. */
module BpfRuns {
  import opened Common
  import opened BpfModel

  // ---------------------------------------------------------------- map bounds

  /** Every open entry belongs to a target, and targets fit their map, so an entry is
      never refused for lack of room. */
  lemma {:induction false} MapsFit(p: PathArgs, hits: seq<Hit>)
    ensures var m := After(p, hits);
      && m.patharg == p
      && m.enters.Keys <= m.targets
      && |m.targets| <= 4_096
      && |m.enters| <= 4_096 < MAX_ENTERS
  {
    if hits != [] {
      var before := hits[..|hits| - 1];
      MapsFit(p, before);
      var m0, m := After(p, before), After(p, hits);
      SubsetSize(m0.enters.Keys, m0.targets);
      assert |m0.enters.Keys| == |m0.enters|;
      SubsetSize(m.enters.Keys, m.targets);
      assert |m.enters.Keys| == |m.enters|;
    }
  }

  lemma {:induction false} SubsetSize<T>(a: set<T>, b: set<T>)
    requires a <= b
    ensures |a| <= |b|
  {
    if a != {} {
      var x :| x in a;
      SubsetSize(a - {x}, b - {x});
    }
  }

  lemma {:induction false} TargetsOnlyGrow(p: PathArgs, hits: seq<Hit>, i: nat)
    requires i <= |hits|
    ensures After(p, hits[..i]).targets <= After(p, hits).targets
  {
    if i < |hits| {
      var before := hits[..|hits| - 1];
      TargetsOnlyGrow(p, before, i);
      assert before[..i] == hits[..i];
    } else {
      assert hits[..i] == hits;
    }
  }

  // ---------------------------------------------------------------- who is traced

  /** A line of descent within a history: a seed, then each next thread forked by the
      one before it, at ever later hits. */
  ghost predicate Descent(hits: seq<Hit>, at: seq<nat>, line: seq<Pid>) {
    && |at| == |line| > 0
    && (forall k :: 0 <= k < |at| ==> at[k] < |hits|)
    && (forall k :: 0 < k < |at| ==> at[k - 1] < at[k])
    && hits[at[0]] == Arm(line[0])
    && forall k :: 0 < k < |at| ==> hits[at[k]] == Forked(line[k - 1], line[k])
  }

  ghost predicate Descendant(hits: seq<Hit>, t: Pid) {
    exists at: seq<nat>, line: seq<Pid> :: Descent(hits, at, line) && line[|line| - 1] == t
  }

  /** The hit brings a thread that should become a target and is not one yet. */
  predicate Wants(m: Maps, h: Hit) {
    match h
    case Arm(tid) => tid !in m.targets
    case Forked(parent, child) => parent in m.targets && child !in m.targets
    case _ => false
  }

  /** No insertion so far met a full target map. */
  ghost predicate HadRoom(p: PathArgs, hits: seq<Hit>) {
    forall i {:trigger Wants(After(p, hits[..i]), hits[i])} ::
      0 <= i < |hits| && Wants(After(p, hits[..i]), hits[i]) ==>
      |After(p, hits[..i]).targets| < 4_096
  }

  lemma DescendantExtends(hits: seq<Hit>, h: Hit, t: Pid)
    requires Descendant(hits, t)
    ensures Descendant(hits + [h], t)
  {
    var at: seq<nat>, line: seq<Pid> :| Descent(hits, at, line) && line[|line| - 1] == t;
    assert Descent(hits + [h], at, line);
  }

  lemma {:induction false} TargetsDescend(p: PathArgs, hits: seq<Hit>, t: Pid)
    requires t in After(p, hits).targets
    ensures Descendant(hits, t)
    decreases |hits|
  {
    var before, h := hits[..|hits| - 1], hits[|hits| - 1];
    assert before + [h] == hits;
    if t in After(p, before).targets {
      TargetsDescend(p, before, t);
      DescendantExtends(before, h, t);
    } else if h == Arm(t) {
      assert Descent(hits, [|before|], [t]);
    } else {
      assert h == Forked(h.parent, t);
      TargetsDescend(p, before, h.parent);
      ForkExtends(before, h.parent, t);
    }
  }

  lemma ForkExtends(hits: seq<Hit>, parent: Pid, child: Pid)
    requires Descendant(hits, parent)
    ensures Descendant(hits + [Forked(parent, child)], child)
  {
    var at: seq<nat>, line: seq<Pid> :| Descent(hits, at, line) && line[|line| - 1] == parent;
    assert Descent(hits + [Forked(parent, child)], at + [|hits|], line + [child]);
  }

  lemma PrefixStep(p: PathArgs, hits: seq<Hit>, i: nat)
    requires i < |hits|
    ensures After(p, hits[..i + 1]) == Step(After(p, hits[..i]), hits[i])
  {
    assert hits[..i + 1][..i] == hits[..i];
  }

  lemma StillTraced(p: PathArgs, hits: seq<Hit>, i: nat, j: nat, t: Pid)
    requires i <= j <= |hits| && t in After(p, hits[..i]).targets
    ensures t in After(p, hits[..j]).targets
  {
    TargetsOnlyGrow(p, hits[..j], i);
    assert hits[..j][..i] == hits[..i];
  }

  /** A seed or the child of a target is a target from its hit on. */
  lemma TakenIn(p: PathArgs, hits: seq<Hit>, i: nat, t: Pid)
    requires HadRoom(p, hits) && i < |hits|
    requires || hits[i] == Arm(t)
             || (hits[i].Forked? && hits[i].child == t && hits[i].parent in After(p, hits[..i]).targets)
    ensures t in After(p, hits[..i + 1]).targets
  {
    PrefixStep(p, hits, i);
    var m := After(p, hits[..i]);
    assert Wants(m, hits[i]) ==> |m.targets| < MAX_TARGETS;
  }

  lemma DescentShortens(hits: seq<Hit>, at: seq<nat>, line: seq<Pid>)
    requires Descent(hits, at, line)
    ensures var n := |line| - 1;
      && at[n] < |hits| && hits[at[n]] == (if n == 0 then Arm(line[0]) else Forked(line[n - 1], line[n]))
      && (n > 0 ==> at[n - 1] < at[n] && Descent(hits, at[..n], line[..n]))
  {
  }

  lemma {:induction false} DescentIsTraced(p: PathArgs, hits: seq<Hit>, at: seq<nat>, line: seq<Pid>)
    requires HadRoom(p, hits) && Descent(hits, at, line)
    ensures at[|at| - 1] < |hits| && line[|line| - 1] in After(p, hits[..at[|at| - 1] + 1]).targets
    decreases |line|
  {
    var n := |line| - 1;
    DescentShortens(hits, at, line);
    if n > 0 {
      DescentIsTraced(p, hits, at[..n], line[..n]);
      StillTraced(p, hits, at[n - 1] + 1, at[n], line[n - 1]);
    }
    TakenIn(p, hits, at[n], line[n]);
  }

  lemma DescendantLasts(hits: seq<Hit>, i: nat, t: Pid)
    requires i <= |hits| && Descendant(hits[..i], t)
    ensures Descendant(hits, t)
  {
    var at: seq<nat>, line: seq<Pid> :| Descent(hits[..i], at, line) && line[|line| - 1] == t;
    assert Descent(hits, at, line);
  }

  /** A full map stays as it is. */
  lemma {:induction false} FullStays(p: PathArgs, hits: seq<Hit>, i: nat)
    requires i <= |hits| && |After(p, hits[..i]).targets| >= MAX_TARGETS
    ensures After(p, hits).targets == After(p, hits[..i]).targets
  {
    if i < |hits| {
      var before := hits[..|hits| - 1];
      assert before[..i] == hits[..i];
      FullStays(p, before, i);
    } else {
      assert hits[..i] == hits;
    }
  }

  /** A thread refused for lack of room never becomes a target. */
  lemma RefusedStaysOut(p: PathArgs, hits: seq<Hit>, i: nat) returns (t: Pid)
    requires i < |hits| && Wants(After(p, hits[..i]), hits[i])
    requires |After(p, hits[..i]).targets| >= MAX_TARGETS
    ensures Descendant(hits, t) && t !in After(p, hits).targets
  {
    var before, h := hits[..i], hits[i];
    assert hits[..i + 1] == before + [h];
    FullStays(p, hits, i);
    if h.Arm? {
      t := h.tid;
      assert Descent(before + [h], [i], [t]);
    } else {
      t := h.child;
      TargetsDescend(p, before, h.parent);
      ForkExtends(before, h.parent, t);
    }
    DescendantLasts(hits, i + 1, t);
  }

  /** Only seeds and their descendants are ever targets; and all of them are, exactly if no insertion
      met a full map. */
  lemma TargetsAreTheDescendants(p: PathArgs, hits: seq<Hit>)
    ensures forall t :: t in After(p, hits).targets ==> Descendant(hits, t)
    ensures HadRoom(p, hits) <==> forall t :: Descendant(hits, t) ==> t in After(p, hits).targets
  {
    forall t | t in After(p, hits).targets
      ensures Descendant(hits, t)
    {
      TargetsDescend(p, hits, t);
    }
    if HadRoom(p, hits) {
      forall t | Descendant(hits, t)
        ensures t in After(p, hits).targets
      {
        var at: seq<nat>, line: seq<Pid> :| Descent(hits, at, line) && line[|line| - 1] == t;
        DescentIsTraced(p, hits, at, line);
        StillTraced(p, hits, at[|at| - 1] + 1, |hits|, t);
        assert hits[..|hits|] == hits;
      }
    } else {
      var i :| 0 <= i < |hits| && Wants(After(p, hits[..i]), hits[i])
               && |After(p, hits[..i]).targets| >= MAX_TARGETS;
      var t := RefusedStaysOut(p, hits, i);
    }
  }

  // ---------------------------------------------------------------- pairing

  /** What one hit adds to the history of thread `t`. An entry the program cannot read is not an
      act of it. */
  function ActsIn(h: Hit, t: Pid): seq<Act> {
    match h
    case SysEnter(tid, raw, _) =>
      if tid == t && raw.Some? then [Enter(AsU64(raw.value.id), raw.value.args)] else []
    case SysExit(tid, _, ret, _, _, _) => if tid == t then [Exit(if ret.Some? then ret.value else 0)] else []
    case _ => []
  }

  /** What one thread does in a history of hits. */
  function ActsOf(hits: seq<Hit>, t: Pid): seq<Act> {
    if |hits| == 0 then [] else ActsOf(hits[..|hits| - 1], t) + ActsIn(hits[|hits| - 1], t)
  }

  /** A completed call together with the two things that decide whether it is reported:
      its thread was a target when it entered, and the ring had room when it returned. */
  datatype Finish = Finish(call: Call, traced: bool, room: bool)

  /** Whether thread `t` was a target at its latest readable entry. */
  function TracedAtEntry(p: PathArgs, hits: seq<Hit>, t: Pid): bool {
    if |hits| == 0 then false
    else
      var before, h := hits[..|hits| - 1], hits[|hits| - 1];
      if h.SysEnter? && h.tid == t && h.raw.Some? then t in After(p, before).targets
      else TracedAtEntry(p, before, t)
  }

  /** The completed calls of one thread: every return right after an entry. */
  function Finishes(p: PathArgs, hits: seq<Hit>, t: Pid): seq<Finish> {
    if |hits| == 0 then []
    else
      var before, h := hits[..|hits| - 1], hits[|hits| - 1];
      var acts := ActsOf(before, t);
      if h.SysExit? && h.tid == t && InCall(acts)
      then Finishes(p, before, t)
           + [Finish(Call(acts[|acts| - 1].nr, acts[|acts| - 1].args, if h.ret.Some? then h.ret.value else 0),
                     TracedAtEntry(p, before, t), h.room)]
      else Finishes(p, before, t)
  }

  function FinishCalls(fs: seq<Finish>): (calls: seq<Call>)
    ensures |calls| == |fs| && forall i :: 0 <= i < |fs| ==> calls[i] == fs[i].call
  {
    seq(|fs|, i requires 0 <= i < |fs| => fs[i].call)
  }

  function Reported(fs: seq<Finish>): seq<Call> {
    if |fs| == 0 then []
    else
      var f := fs[|fs| - 1];
      Reported(fs[..|fs| - 1]) + if f.traced && f.room then [f.call] else []
  }

  function RecordsOf(ring: seq<Record>, t: Pid): seq<Record> {
    if |ring| == 0 then []
    else
      var r := ring[|ring| - 1];
      RecordsOf(ring[..|ring| - 1], t) + if r.tid == t then [r] else []
  }

  function RecordCall(r: Record): Call {
    Call(r.nr, r.args, r.retval)
  }

  function RecordCalls(rs: seq<Record>): (calls: seq<Call>)
    ensures |calls| == |rs| && forall i :: 0 <= i < |rs| ==> calls[i] == RecordCall(rs[i])
  {
    seq(|rs|, i requires 0 <= i < |rs| => RecordCall(rs[i]))
  }

  lemma ReportedAppend(fs: seq<Finish>, f: Finish)
    ensures Reported(fs + [f]) == Reported(fs) + if f.traced && f.room then [f.call] else []
  {
    assert (fs + [f])[..|fs|] == fs;
  }

  lemma RecordsOfAppend(ring: seq<Record>, r: Record, t: Pid)
    ensures RecordCalls(RecordsOf(ring + [r], t))
         == RecordCalls(RecordsOf(ring, t)) + if r.tid == t then [RecordCall(r)] else []
  {
    assert (ring + [r])[..|ring|] == ring;
  }

  /** An entry is open exactly for a thread inside a call it entered as a target. */
  ghost predicate PairedNow(m: Maps, acts: seq<Act>, traced: bool, t: Pid) {
    && (t in m.enters <==> InCall(acts) && traced)
    && (t in m.enters ==> m.enters[t].nr == acts[|acts| - 1].nr && m.enters[t].args == acts[|acts| - 1].args)
  }

  ghost predicate EntersPaired(p: PathArgs, hits: seq<Hit>, t: Pid) {
    PairedNow(After(p, hits), ActsOf(hits, t), TracedAtEntry(p, hits, t), t)
  }

  lemma PairedStep(m: Maps, acts: seq<Act>, traced: bool, t: Pid, h: Hit)
    requires PairedNow(m, acts, traced, t) && |m.enters| < MAX_ENTERS && m.enters.Keys <= m.targets
    ensures PairedNow(Step(m, h), acts + ActsIn(h, t),
                      if h.SysEnter? && h.tid == t && h.raw.Some? then t in m.targets else traced, t)
  {
    assert acts + [] == acts;
  }

  lemma {:induction false} EntersArePaired(p: PathArgs, hits: seq<Hit>, t: Pid)
    ensures EntersPaired(p, hits, t)
    decreases |hits|
  {
    if hits != [] {
      var before, h := hits[..|hits| - 1], hits[|hits| - 1];
      EntersArePaired(p, before, t);
      MapsFit(p, before);
      PairedStep(After(p, before), ActsOf(before, t), TracedAtEntry(p, before, t), t, h);
    }
  }

  /** What one hit adds to the records of `t`. */
  lemma RecordsStep(m: Maps, h: Hit, t: Pid)
    ensures RecordCalls(RecordsOf(Step(m, h).ring, t))
         == RecordCalls(RecordsOf(m.ring, t))
            + if h.SysExit? && h.tid == t && t in m.enters && h.room
              then [Call(m.enters[t].nr, m.enters[t].args, if h.ret.Some? then h.ret.value else 0)] else []
  {
    if h.SysExit? && h.tid in m.enters && h.room {
      RecordsOfAppend(m.ring, MakeRecord(m.patharg, m.enters[h.tid], h.tid, h.tgid, h.ret, h.now, h.strings), t);
    } else {
      assert Step(m, h).ring == m.ring;
    }
  }

  /** What one hit adds to the reported calls of `t`. */
  lemma ReportedStep(p: PathArgs, hits: seq<Hit>, t: Pid)
    requires hits != []
    ensures var before, h := hits[..|hits| - 1], hits[|hits| - 1];
      var acts := ActsOf(before, t);
      Reported(Finishes(p, hits, t))
      == Reported(Finishes(p, before, t))
         + if h.SysExit? && h.tid == t && InCall(acts) && TracedAtEntry(p, before, t) && h.room
           then [Call(acts[|acts| - 1].nr, acts[|acts| - 1].args, if h.ret.Some? then h.ret.value else 0)] else []
  {
    var before, h := hits[..|hits| - 1], hits[|hits| - 1];
    if h.SysExit? && h.tid == t && InCall(ActsOf(before, t)) {
      var fs := Finishes(p, hits, t);
      ReportedAppend(Finishes(p, before, t), fs[|fs| - 1]);
    }
  }

  /** The records of a thread, whatever the other threads do, are its completed calls, in
      order, less those entered before it was a target and those that found the ring full. */
  lemma {:induction false} RecordsAreTheReportedCalls(p: PathArgs, hits: seq<Hit>, t: Pid)
    ensures RecordCalls(RecordsOf(After(p, hits).ring, t)) == Reported(Finishes(p, hits, t))
    decreases |hits|
  {
    if hits != [] {
      var before, h := hits[..|hits| - 1], hits[|hits| - 1];
      RecordsAreTheReportedCalls(p, before, t);
      EntersArePaired(p, before, t);
      RecordsStep(After(p, before), h, t);
      ReportedStep(p, hits, t);
    }
  }

  /** One hit finishes a call exactly if it completes one in the thread's own history. */
  lemma FinishesStep(p: PathArgs, hits: seq<Hit>, t: Pid)
    requires hits != []
    ensures var before, h := hits[..|hits| - 1], hits[|hits| - 1];
      FinishCalls(Finishes(p, hits, t))
      == FinishCalls(Finishes(p, before, t))
         + if ActsIn(h, t) == [] then [] else Completes(ActsOf(before, t), ActsIn(h, t)[0])
  {
  }

  /** The flagged calls are exactly the completed calls of the thread's own history. */
  lemma {:induction false} FinishesAreTheCompletedCalls(p: PathArgs, hits: seq<Hit>, t: Pid)
    ensures FinishCalls(Finishes(p, hits, t)) == Completed(ActsOf(hits, t))
    decreases |hits|
  {
    if hits != [] {
      var before, h := hits[..|hits| - 1], hits[|hits| - 1];
      var acts := ActsOf(before, t);
      FinishesAreTheCompletedCalls(p, before, t);
      FinishesStep(p, hits, t);
      if ActsIn(h, t) == [] {
        assert acts + [] == acts;
      } else {
        assert ActsIn(h, t) == [ActsIn(h, t)[0]];
        CompletedAppend(acts, ActsIn(h, t)[0]);
      }
    }
  }

  // ---------------------------------------------------------------- since a thread is a target

  /** What a thread does from the hit on that makes it a target; nothing if no hit does. */
  function Seen(p: PathArgs, hits: seq<Hit>, t: Pid): seq<Act> {
    if |hits| == 0 then []
    else
      var before, h := hits[..|hits| - 1], hits[|hits| - 1];
      if t in After(p, before).targets then Seen(p, before, t) + ActsIn(h, t) else []
  }

  /** The ring had room whenever `t`, being a target, returned. */
  ghost predicate RingHadRoom(p: PathArgs, hits: seq<Hit>, t: Pid) {
    forall i {:trigger After(p, hits[..i])} ::
      0 <= i < |hits| && t in After(p, hits[..i]).targets && hits[i].SysExit? && hits[i].tid == t ==> hits[i].room
  }

  lemma RingHadRoomBefore(p: PathArgs, hits: seq<Hit>, t: Pid)
    requires hits != [] && RingHadRoom(p, hits, t)
    ensures var before, h := hits[..|hits| - 1], hits[|hits| - 1];
      && RingHadRoom(p, before, t)
      && (t in After(p, before).targets && h.SysExit? && h.tid == t ==> h.room)
  {
    var before := hits[..|hits| - 1];
    forall i | 0 <= i < |before|
      ensures before[..i] == hits[..i] && before[i] == hits[i]
    {
    }
  }

  /** Before it is a target, a thread leaves nothing behind. */
  lemma {:induction false} NonTargetLeavesNothing(p: PathArgs, hits: seq<Hit>, t: Pid)
    requires t !in After(p, hits).targets
    ensures t !in After(p, hits).enters && RecordCalls(RecordsOf(After(p, hits).ring, t)) == []
  {
    MapsFit(p, hits);
    if hits != [] {
      var before := hits[..|hits| - 1];
      TargetsOnlyGrow(p, hits, |hits| - 1);
      NonTargetLeavesNothing(p, before, t);
      RecordsStep(After(p, before), hits[|hits| - 1], t);
    }
  }

  /** The open entry and the records of `t` tell `acts`, all of them. */
  ghost predicate Heard(m: Maps, acts: seq<Act>, t: Pid) {
    PairedNow(m, acts, true, t) && RecordCalls(RecordsOf(m.ring, t)) == Completed(acts)
  }

  lemma HeardStep(m: Maps, acts: seq<Act>, t: Pid, h: Hit)
    requires Heard(m, acts, t) && t in m.targets && |m.enters| < MAX_ENTERS && m.enters.Keys <= m.targets
    requires h.SysExit? && h.tid == t ==> h.room
    ensures Heard(Step(m, h), acts + ActsIn(h, t), t)
  {
    PairedStep(m, acts, true, t, h);
    RecordsStep(m, h, t);
    if ActsIn(h, t) == [] {
      assert acts + [] == acts;
    } else {
      assert ActsIn(h, t) == [ActsIn(h, t)[0]];
      CompletedAppend(acts, ActsIn(h, t)[0]);
    }
  }

  lemma BroughtWithNothing(p: PathArgs, hits: seq<Hit>, t: Pid)
    requires hits != [] && t !in After(p, hits[..|hits| - 1]).targets
    ensures Heard(After(p, hits), [], t)
  {
    var before := hits[..|hits| - 1];
    NonTargetLeavesNothing(p, before, t);
    RecordsStep(After(p, before), hits[|hits| - 1], t);
  }

  /** With no record dropped, a thread is reported whole from the hit on that makes it a target,
      whatever it did before: every call it entered and finished since then, and nothing else. */
  lemma {:induction false} NothingLost(p: PathArgs, hits: seq<Hit>, t: Pid)
    requires RingHadRoom(p, hits, t)
    ensures Heard(After(p, hits), Seen(p, hits, t), t)
    ensures RecordCalls(RecordsOf(After(p, hits).ring, t)) == Completed(Seen(p, hits, t))
  {
    if hits != [] {
      var before, h := hits[..|hits| - 1], hits[|hits| - 1];
      RingHadRoomBefore(p, hits, t);
      if t in After(p, before).targets {
        NothingLost(p, before, t);
        MapsFit(p, before);
        HeardStep(After(p, before), Seen(p, before, t), t, h);
      } else {
        BroughtWithNothing(p, hits, t);
      }
    }
  }

  lemma ActsBehind(hits: seq<Hit>, k: nat, t: Pid)
    requires k + 1 < |hits|
    ensures var n := |hits| - 1;
      ActsOf(hits[k + 1..], t) == ActsOf(hits[..n][k + 1..], t) + ActsIn(hits[n], t)
  {
    var n, behind := |hits| - 1, hits[k + 1..];
    assert behind[..|behind| - 1] == hits[..n][k + 1..] && behind[|behind| - 1] == hits[n];
  }

  lemma SeenStarts(p: PathArgs, hits: seq<Hit>, t: Pid)
    requires hits != [] && t !in After(p, hits[..|hits| - 1]).targets
    ensures Seen(p, hits, t) == ActsOf(hits[|hits|..], t)
  {
    var none := hits[|hits|..];
    assert |none| == 0;
  }

  lemma SeenStep(p: PathArgs, hits: seq<Hit>, t: Pid)
    requires hits != [] && t in After(p, hits[..|hits| - 1]).targets
    ensures Seen(p, hits, t) == Seen(p, hits[..|hits| - 1], t) + ActsIn(hits[|hits| - 1], t)
  {
  }

  lemma MakesTargetBefore(p: PathArgs, hits: seq<Hit>, t: Pid, k: nat)
    requires k + 1 < |hits| && t !in After(p, hits[..k]).targets && t in After(p, hits[..k + 1]).targets
    ensures var before := hits[..|hits| - 1];
      t !in After(p, before[..k]).targets && t in After(p, before[..k + 1]).targets
  {
    var before := hits[..|hits| - 1];
    assert before[..k] == hits[..k] && before[..k + 1] == hits[..k + 1];
  }

  /** That is what it does in the hits behind the one that makes it a target. */
  lemma {:induction false} SeenSince(p: PathArgs, hits: seq<Hit>, t: Pid, k: nat)
    requires k < |hits| && t !in After(p, hits[..k]).targets && t in After(p, hits[..k + 1]).targets
    ensures Seen(p, hits, t) == ActsOf(hits[k + 1..], t)
    decreases |hits|
  {
    if k + 1 == |hits| {
      SeenStarts(p, hits, t);
    } else {
      MakesTargetBefore(p, hits, t, k);
      SeenSince(p, hits[..|hits| - 1], t, k);
      StillTraced(p, hits, k + 1, |hits| - 1, t);
      SeenStep(p, hits, t);
      ActsBehind(hits, k, t);
    }
  }

  /** Hit `k` seeds `t`, or forks it from a seed or a descendant of one. */
  ghost predicate Brings(hits: seq<Hit>, k: nat, t: Pid) {
    && k < |hits|
    && (hits[k] == Arm(t) || (hits[k].Forked? && hits[k].child == t && Descendant(hits[..k], hits[k].parent)))
  }

  ghost predicate BringsFirst(hits: seq<Hit>, k: nat, t: Pid) {
    Brings(hits, k, t) && forall i: nat :: i < k ==> !Brings(hits, i, t)
  }

  lemma HadRoomBefore(p: PathArgs, hits: seq<Hit>, k: nat)
    requires k <= |hits| && HadRoom(p, hits)
    ensures HadRoom(p, hits[..k])
  {
    var before := hits[..k];
    forall i {:trigger Wants(After(p, before[..i]), before[i])} |
      0 <= i < |before| && Wants(After(p, before[..i]), before[i])
      ensures |After(p, before[..i]).targets| < MAX_TARGETS
    {
      assert before[..i] == hits[..i] && Wants(After(p, hits[..i]), hits[i]);
    }
  }

  lemma {:induction false} LaterAndLater(at: seq<nat>, i: nat, j: nat)
    requires i < j < |at| && forall k :: 0 < k < |at| ==> at[k - 1] < at[k]
    ensures at[i] < at[j]
    decreases j - i
  {
    assert at[j - 1] < at[j];
    if i < j - 1 {
      LaterAndLater(at, i, j - 1);
    }
  }

  /** A descendant was brought by a hit. */
  lemma DescendantIsBrought(hits: seq<Hit>, j: nat, t: Pid) returns (k: nat)
    requires j <= |hits| && Descendant(hits[..j], t)
    ensures k < j && Brings(hits, k, t)
  {
    var before := hits[..j];
    var at: seq<nat>, line: seq<Pid> :| Descent(before, at, line) && line[|line| - 1] == t;
    var n := |line| - 1;
    k := at[n];
    if n > 0 {
      forall m | 0 <= m < n
        ensures at[m] < k
      {
        LaterAndLater(at, m, n);
      }
      assert Descent(hits[..k], at[..n], line[..n]);
      assert hits[k] == before[k] == Forked(line[n - 1], t);
    }
  }

  /** While there is room, the first hit that brings a thread makes it a target. */
  lemma FirstMakesTarget(p: PathArgs, hits: seq<Hit>, k: nat, t: Pid)
    requires HadRoom(p, hits) && BringsFirst(hits, k, t)
    ensures t !in After(p, hits[..k]).targets && t in After(p, hits[..k + 1]).targets
  {
    HadRoomBefore(p, hits, k);
    TargetsAreTheDescendants(p, hits[..k]);
    if t in After(p, hits[..k]).targets {
      var i := DescendantIsBrought(hits, k, t);
    }
    TakenIn(p, hits, k, t);
  }

  // ---------------------------------------------------------------- records and hits

  predicate ActsFor(h: Hit, t: Pid) {
    (h.SysEnter? && h.tid == t && h.raw.Some?) || (h.SysExit? && h.tid == t)
  }

  /** Record `r` tells the return at hit `j` of the call entered at hit `i`, and nothing
      happened to that thread in between. */
  ghost predicate Joins(p: PathArgs, hits: seq<Hit>, i: nat, j: nat, r: Record) {
    && i < j < |hits| && hits[i].SysEnter? && hits[i].raw.Some? && hits[j].SysExit?
    && hits[i].tid == hits[j].tid == r.tid
    && (forall k :: i < k < j ==> !ActsFor(hits[k], r.tid))
    && r.tid in After(p, hits[..i]).targets && hits[j].room
    && r.pid == hits[j].tgid
    && r.nr == AsU64(hits[i].raw.value.id) && r.args == hits[i].raw.value.args
    && r.retval == (if hits[j].ret.Some? then hits[j].ret.value else 0)
    && r.tsEnter == hits[i].ts
    && (hits[i].ts <= hits[j].now ==> r.tsEnter + r.duration == hits[j].now)
    && CaptureTells(p, r, hits[j].strings)
  }

  /** The call has a path argument to capture, and the helper could read it. */
  predicate Captures(p: PathArgs, nr: U64, args: Args, strings: Strings) {
    var n := nr % 0x1_0000_0000;
    n < 512 && 1 <= p[n] <= 6 && args[p[n] - 1] != 0 && strings(args[p[n] - 1]).Str?
  }

  /** The capture is the string at the call's path argument as the helper read it on
      return, with its NUL, or nothing. */
  ghost predicate CaptureTells(p: PathArgs, r: Record, strings: Strings) {
    if Captures(p, r.nr, r.args, strings)
    then
      var addr := r.args[p[r.nr % 0x1_0000_0000] - 1];
      var s := strings(addr);
      r.capAddr == addr && r.cap == s.buf && r.capLen == if s.n < 128 then s.n + 1 else 128
    else r.capAddr == 0 && r.capLen == 0
  }

  /** Where the open call of a thread was entered. */
  ghost predicate OpenSince(p: PathArgs, hits: seq<Hit>, t: Pid, i: nat) {
    && i < |hits| && hits[i].SysEnter? && hits[i].tid == t && hits[i].raw.Some?
    && (forall k :: i < k < |hits| ==> !ActsFor(hits[k], t))
    && t in After(p, hits[..i]).targets
    && t in After(p, hits).enters
    && After(p, hits).enters[t] == EnterData(AsU64(hits[i].raw.value.id), hits[i].raw.value.args, hits[i].ts)
  }

  lemma OpenSinceLasts(p: PathArgs, hits: seq<Hit>, t: Pid, i: nat)
    requires hits != [] && OpenSince(p, hits[..|hits| - 1], t, i)
    requires t in After(p, hits).enters && !ActsFor(hits[|hits| - 1], t)
    ensures OpenSince(p, hits, t, i)
  {
    var before := hits[..|hits| - 1];
    assert before[..i] == hits[..i];
  }

  /** An entry comes from the latest hit of its thread. */
  lemma OpenEntryStep(p: PathArgs, hits: seq<Hit>, t: Pid)
    requires hits != [] && t in After(p, hits).enters
    ensures var before, h := hits[..|hits| - 1], hits[|hits| - 1];
      if h.SysEnter? && h.tid == t && h.raw.Some? then OpenSince(p, hits, t, |hits| - 1)
      else t in After(p, before).enters && !ActsFor(h, t)
  {
    MapsFit(p, hits[..|hits| - 1]);
  }

  lemma {:induction false} OpenEntryHasAHit(p: PathArgs, hits: seq<Hit>, t: Pid) returns (i: nat)
    requires t in After(p, hits).enters
    ensures OpenSince(p, hits, t, i)
    decreases |hits|
  {
    OpenEntryStep(p, hits, t);
    if ActsFor(hits[|hits| - 1], t) {
      i := |hits| - 1;
    } else {
      i := OpenEntryHasAHit(p, hits[..|hits| - 1], t);
      OpenSinceLasts(p, hits, t, i);
    }
  }

  ghost predicate Matching(p: PathArgs, hits: seq<Hit>, at: seq<(nat, nat)>, ring: seq<Record>) {
    && |at| == |ring|
    && (forall k :: 0 <= k < |at| ==> Joins(p, hits, at[k].0, at[k].1, ring[k]))
    && (forall k, l :: 0 <= k < l < |at| ==> at[k].1 < at[l].1 && at[k].0 != at[l].0)
  }

  lemma MatchingLasts(p: PathArgs, hits: seq<Hit>, h: Hit, at: seq<(nat, nat)>, ring: seq<Record>)
    requires Matching(p, hits, at, ring)
    ensures Matching(p, hits + [h], at, ring)
  {
    forall k | 0 <= k < |at|
      ensures Joins(p, hits + [h], at[k].0, at[k].1, ring[k])
    {
      assert (hits + [h])[..at[k].0] == hits[..at[k].0];
    }
  }

  lemma NewRecordJoins(p: PathArgs, hits: seq<Hit>, h: Hit, i: nat)
    requires h.SysExit? && h.room && OpenSince(p, hits, h.tid, i)
    ensures Joins(p, hits + [h], i, |hits|,
                  MakeRecord(p, After(p, hits).enters[h.tid], h.tid, h.tgid, h.ret, h.now, h.strings))
  {
    assert (hits + [h])[..i] == hits[..i];
  }

  lemma MatchingGrows(p: PathArgs, hits: seq<Hit>, at: seq<(nat, nat)>, ring: seq<Record>, i: nat, r: Record)
    requires hits != [] && Matching(p, hits, at, ring)
    requires forall k :: 0 <= k < |at| ==> at[k].1 < |hits| - 1
    requires Joins(p, hits, i, |hits| - 1, r)
    ensures Matching(p, hits, at + [(i, |hits| - 1)], ring + [r])
  {
    forall k | 0 <= k < |at|
      ensures at[k].0 != i
    {
      assert Joins(p, hits, at[k].0, at[k].1, ring[k]);
      if at[k].0 == i {
        assert ActsFor(hits[at[k].1], r.tid);
      }
    }
  }

  /** Every record ever submitted joins one entry of a target to that thread's next return;
      records come in the order of their returns, and no entry feeds two of them. */
  lemma {:induction false} RecordsJoinHits(p: PathArgs, hits: seq<Hit>)
    ensures exists at: seq<(nat, nat)> :: Matching(p, hits, at, After(p, hits).ring)
    decreases |hits|
  {
    if hits == [] {
      assert After(p, hits).ring == [];
      assert Matching(p, hits, [], After(p, hits).ring);
    } else {
      var before, h := hits[..|hits| - 1], hits[|hits| - 1];
      var m := After(p, before);
      assert before + [h] == hits;
      RecordsJoinHits(p, before);
      var at: seq<(nat, nat)> :| Matching(p, before, at, m.ring);
      assert forall k :: 0 <= k < |at| ==> Joins(p, before, at[k].0, at[k].1, m.ring[k]);
      MatchingLasts(p, before, h, at, m.ring);
      if h.SysExit? && h.tid in m.enters && h.room {
        MapsFit(p, before);
        var i := OpenEntryHasAHit(p, before, h.tid);
        NewRecordJoins(p, before, h, i);
        MatchingGrows(p, hits, at, m.ring, i, After(p, hits).ring[|m.ring|]);
      } else {
        assert After(p, hits).ring == m.ring;
      }
    }
  }

  // ---------------------------------------------------------------- time

  /** The clock reading of a hit that takes one. */
  function StampOf(h: Hit): Option<U64> {
    match h
    case SysEnter(_, _, ts) => Some(ts)
    case SysExit(_, _, _, now, _, _) => Some(now)
    case _ => None
  }

  /** The clock never runs backwards. */
  predicate Forwards(hits: seq<Hit>) {
    forall i, j :: 0 <= i < j < |hits| && StampOf(hits[i]).Some? && StampOf(hits[j]).Some? ==>
      StampOf(hits[i]).value <= StampOf(hits[j]).value
  }

  function RecordEnd(r: Record): nat {
    r.tsEnter + r.duration
  }

  /** `r` ends before `q` does, and before it begins if they are of one thread. */
  predicate Precedes(r: Record, q: Record) {
    RecordEnd(r) <= RecordEnd(q) && (r.tid == q.tid ==> RecordEnd(r) <= q.tsEnter)
  }

  lemma JoinedInOrder(p: PathArgs, hits: seq<Hit>, i: nat, j: nat, r: Record, k: nat, l: nat, q: Record)
    requires Forwards(hits) && Joins(p, hits, i, j, r) && Joins(p, hits, k, l, q) && j < l
    ensures Precedes(r, q)
  {
    assert StampOf(hits[i]).value <= StampOf(hits[j]).value <= StampOf(hits[l]).value;
    assert StampOf(hits[k]).value <= StampOf(hits[l]).value;
    if r.tid == q.tid {
      assert ActsFor(hits[j], q.tid);
      assert j < k;
    }
  }

  /** Records end in the order of the ring, and those of one thread do not overlap. */
  lemma RecordsInOrder(p: PathArgs, hits: seq<Hit>, i: nat, j: nat)
    requires Forwards(hits) && i < j < |After(p, hits).ring|
    ensures Precedes(After(p, hits).ring[i], After(p, hits).ring[j])
  {
    var ring := After(p, hits).ring;
    RecordsJoinHits(p, hits);
    var at: seq<(nat, nat)> :| Matching(p, hits, at, ring);
    JoinedInOrder(p, hits, at[i].0, at[i].1, ring[i], at[j].0, at[j].1, ring[j]);
  }

  /** Every hit behind a seed is stamped `baseline` or later, as it is when `baseline` is read before
      anything is armed. */
  predicate ArmedAfter(hits: seq<Hit>, baseline: U64) {
    forall i, j :: 0 <= i < j < |hits| && hits[i].Arm? && StampOf(hits[j]).Some? ==>
      baseline <= StampOf(hits[j]).value
  }

  lemma RecordsAreLate(p: PathArgs, hits: seq<Hit>, baseline: U64)
    requires ArmedAfter(hits, baseline)
    ensures var ring := After(p, hits).ring; forall i :: 0 <= i < |ring| ==> baseline <= ring[i].tsEnter
  {
    var ring := After(p, hits).ring;
    RecordsJoinHits(p, hits);
    var at: seq<(nat, nat)> :| Matching(p, hits, at, ring);
    forall i | 0 <= i < |ring|
      ensures baseline <= ring[i].tsEnter
    {
      var k := at[i].0;
      assert Joins(p, hits, k, at[i].1, ring[i]);
      TargetsDescend(p, hits[..k], ring[i].tid);
      var seed: seq<nat>, line: seq<Pid> :| Descent(hits[..k], seed, line);
      assert hits[seed[0]] == Arm(line[0]) && StampOf(hits[k]).Some?;
    }
  }
}
