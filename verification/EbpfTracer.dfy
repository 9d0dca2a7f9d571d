/** `crates/syren-trace/src/ebpf.rs`: the user-space half of the eBPF backend, reading the
    ring while the kernel goes on writing to it. */
module EbpfStream {
  import opened Common
  import opened BpfModel
  import opened BpfRuns

  /** A slice of ring bytes: a whole record, or too short to be one. */
  datatype Item = Whole(rec: Record) | Short

  datatype Capture = Capture(addr: U64, bytes: seq<Byte>)

  /** One element of the queue. */
  datatype Entry = Entry(event: Event, cap: Option<Capture>)

  function RecordToEvent(r: Record, baseline: U64): SyscallEvent {
    SyscallEvent(r.pid, r.tid, r.nr, r.args, r.retval, SatSub(r.tsEnter, baseline), r.duration)
  }

  /** `Record::captured`: never more than the buffer holds. */
  function CapturedBytes(r: Record): seq<Byte> {
    var len := if r.capLen <= CAP_BYTES then r.capLen else CAP_BYTES;
    if len <= |r.cap| then r.cap[..len] else r.cap
  }

  function CaptureOf(r: Record): Option<Capture> {
    if r.capLen > 0 then Some(Capture(r.capAddr, CapturedBytes(r))) else None
  }

  function EntryOf(r: Record, baseline: U64): Entry {
    Entry(Syscall(RecordToEvent(r, baseline)), CaptureOf(r))
  }

  function Wholes(items: seq<Item>): seq<Record> {
    if items == [] then []
    else
      var last := items[|items| - 1];
      Wholes(items[..|items| - 1]) + if last.Whole? then [last.rec] else []
  }

  lemma WholesAppend(items: seq<Item>, i: Item)
    ensures Wholes(items + [i]) == Wholes(items) + if i.Whole? then [i.rec] else []
  {
    assert (items + [i])[..|items|] == items;
  }

  lemma {:induction false} WholesOfPrefix(items: seq<Item>, n: nat)
    requires n <= |items|
    ensures Wholes(items[..n]) <= Wholes(items)
  {
    if n < |items| {
      WholesOfPrefix(items[..|items| - 1], n);
      assert items[..|items| - 1][..n] == items[..n];
    } else {
      assert items[..n] == items;
    }
  }

  /** The record is of process `p`, whichever of its threads made it, or of the thread `p`. */
  predicate IsAbout(r: Record, p: Pid) {
    r.pid == p || r.tid == p
  }

  function RecordsAbout(rs: seq<Record>, p: Pid): seq<Record> {
    if rs == [] then []
    else
      var r := rs[|rs| - 1];
      RecordsAbout(rs[..|rs| - 1], p) + if IsAbout(r, p) then [r] else []
  }

  predicate Silent(items: seq<Item>, p: Pid) {
    forall i :: 0 <= i < |items| && items[i].Whole? ==> !IsAbout(items[i].rec, p)
  }

  /** If a process is silent from item `n` on, all its records are among the first `n` items. */
  lemma {:induction false} SilentAddsNothing(items: seq<Item>, n: nat, p: Pid)
    requires n <= |items| && Silent(items[n..], p)
    ensures RecordsAbout(Wholes(items), p) == RecordsAbout(Wholes(items[..n]), p)
  {
    if n < |items| {
      var before, last := items[..|items| - 1], items[|items| - 1];
      assert before + [last] == items && before[..n] == items[..n];
      assert items[n..][|items| - 1 - n] == last;
      assert before[n..] == items[n..][..|items| - 1 - n];
      SilentAddsNothing(before, n, p);
      WholesAppend(before, last);
      if last.Whole? {
        assert (Wholes(before) + [last.rec])[..|Wholes(before)|] == Wholes(before);
        assert RecordsAbout(Wholes(before), p) + [] == RecordsAbout(Wholes(before), p);
      } else {
        assert Wholes(before) + [] == Wholes(before);
      }
    } else {
      assert items[..n] == items;
    }
  }

  /** Where the exit event goes: after how many records, with which code. */
  datatype Cut = Cut(after: nat, pid: Pid, code: int)

  /** The whole stream: the records in ring order, and at most one exit. */
  function Merge(rs: seq<Record>, cut: Option<Cut>, baseline: U64): seq<Entry>
    decreases |rs|, cut.Some?
  {
    if cut.Some? && cut.value.after == |rs|
    then Merge(rs, None, baseline) + [Entry(ProcessExit(cut.value.pid, cut.value.code), None)]
    else if rs == [] then []
    else Merge(rs[..|rs| - 1], cut, baseline) + [EntryOf(rs[|rs| - 1], baseline)]
  }

  lemma MergeAppend(rs: seq<Record>, cut: Option<Cut>, r: Record, baseline: U64)
    requires cut.Some? ==> cut.value.after <= |rs|
    ensures Merge(rs + [r], cut, baseline) == Merge(rs, cut, baseline) + [EntryOf(r, baseline)]
  {
    assert (rs + [r])[..|rs|] == rs;
  }

  lemma {:induction false} MergePlain(rs: seq<Record>, baseline: U64)
    ensures |Merge(rs, None, baseline)| == |rs|
    ensures forall i :: 0 <= i < |rs| ==> Merge(rs, None, baseline)[i] == EntryOf(rs[i], baseline)
  {
    if rs != [] {
      MergePlain(rs[..|rs| - 1], baseline);
    }
  }

  /** A stream with an announced exit announces it exactly once, behind exactly the records
      before the cut, and tells every record in ring order. */
  lemma {:induction false} ExitOnce(rs: seq<Record>, cut: Cut, baseline: U64)
    requires cut.after <= |rs|
    ensures var es := Merge(rs, Some(cut), baseline);
      && |es| == |rs| + 1
      && es[cut.after] == Entry(ProcessExit(cut.pid, cut.code), None)
      && (forall i :: 0 <= i < cut.after ==> es[i] == EntryOf(rs[i], baseline))
      && (forall i :: cut.after < i < |es| ==> es[i] == EntryOf(rs[i - 1], baseline))
  {
    if cut.after == |rs| {
      MergePlain(rs, baseline);
    } else {
      ExitOnce(rs[..|rs| - 1], cut, baseline);
    }
  }

  lemma {:induction false} MergeCounts(rs: seq<Record>, cut: Option<Cut>, baseline: U64)
    requires cut.Some? ==> cut.value.after <= |rs|
    ensures |Merge(rs, cut, baseline)| == |rs| + if cut.Some? then 1 else 0
  {
    if cut.Some? {
      ExitOnce(rs, cut.value, baseline);
    } else {
      MergePlain(rs, baseline);
    }
  }

  lemma {:induction false} WholesCount(a: seq<Item>, b: seq<Item>)
    ensures |Wholes(a + b)| == |Wholes(a)| + |Wholes(b)|
    decreases |b|
  {
    if |b| == 0 {
      assert a + b == a;
    } else {
      var before, last := b[..|b| - 1], b[|b| - 1];
      assert a + b == (a + before) + [last] && b == before + [last];
      WholesCount(a, before);
      WholesAppend(a + before, last);
      WholesAppend(before, last);
    }
  }

  /** Every syscall event of the stream tells its own record, stamped from the baseline on, and carries
      the record's capture; the exit carries none. */
  lemma OwnCapture(rs: seq<Record>, cut: Option<Cut>, baseline: U64, i: nat)
    requires i < |Merge(rs, cut, baseline)| && (cut.Some? ==> cut.value.after <= |rs|)
    ensures var e := Merge(rs, cut, baseline)[i];
      if cut.Some? && i == cut.value.after then e == Entry(ProcessExit(cut.value.pid, cut.value.code), None)
      else
        var k := if cut.Some? && cut.value.after < i then i - 1 else i;
        && k < |rs| && e.event.Syscall? && e.cap == CaptureOf(rs[k])
        && e.event.ev == SyscallEvent(rs[k].pid, rs[k].tid, rs[k].nr, rs[k].args, rs[k].retval,
                                      if baseline <= rs[k].tsEnter then rs[k].tsEnter - baseline else 0,
                                      rs[k].duration)
  {
    if cut.Some? {
      ExitOnce(rs, cut.value, baseline);
    } else {
      MergePlain(rs, baseline);
    }
  }

  function EventsIn(es: seq<Entry>): (out: seq<Event>)
    ensures |out| == |es| && forall i :: 0 <= i < |es| ==> out[i] == es[i].event
  {
    seq(|es|, i requires 0 <= i < |es| => es[i].event)
  }

  /** The calls the stream tells about one thread. */
  function Told(es: seq<Entry>, t: Pid): seq<Call> {
    CallsOf(EventsOf(EventsIn(es), t))
  }

  lemma ToldAppend(es: seq<Entry>, e: Entry, t: Pid)
    ensures Told(es + [e], t)
         == Told(es, t) + if e.event.Syscall? && e.event.ev.tid == t then [CallOf(e.event.ev)] else []
  {
    assert EventsIn(es + [e]) == EventsIn(es) + [e.event];
    EventsOfAppend(EventsIn(es), e.event, t);
  }

  /** The events of one thread in the stream are its records, in ring order, whether or not
      the exit has been announced. */
  lemma {:induction false} StreamTellsRecords(rs: seq<Record>, cut: Option<Cut>, baseline: U64, t: Pid)
    ensures Told(Merge(rs, cut, baseline), t) == RecordCalls(RecordsOf(rs, t))
    decreases |rs|, cut.Some?
  {
    if cut.Some? && cut.value.after == |rs| {
      StreamTellsRecords(rs, None, baseline, t);
      ToldAppend(Merge(rs, None, baseline), Entry(ProcessExit(cut.value.pid, cut.value.code), None), t);
    } else if rs != [] {
      var before, r := rs[..|rs| - 1], rs[|rs| - 1];
      assert before + [r] == rs;
      StreamTellsRecords(before, cut, baseline, t);
      ToldAppend(Merge(before, cut, baseline), EntryOf(r, baseline), t);
      RecordsOfAppend(before, r, t);
    }
  }

  /** The record behind the `i`-th element of a stream, if that is not the exit. */
  function RecordAt(cut: Option<Cut>, i: nat): nat {
    if cut.Some? && cut.value.after < i then i - 1 else i
  }

  lemma EndKept(r: Record, baseline: U64)
    requires baseline <= r.tsEnter
    ensures EndOf(RecordToEvent(r, baseline)) == RecordEnd(r) - baseline
  {
  }

  /** Timing over whole runs: if the baseline was read before anything was armed and the clock never
      runs backwards, the calls of the stream end in stream order over all threads, and those of one
      thread do not overlap. */
  lemma StreamIsTimely(p: PathArgs, hits: seq<Hit>, cut: Option<Cut>, baseline: U64)
    requires Forwards(hits) && ArmedAfter(hits, baseline)
    requires cut.Some? ==> cut.value.after <= |After(p, hits).ring|
    ensures InOrder(EventsIn(Merge(After(p, hits).ring, cut, baseline)))
  {
    var ring := After(p, hits).ring;
    var out := EventsIn(Merge(ring, cut, baseline));
    RecordsAreLate(p, hits, baseline);
    forall i, j | 0 <= i < j < |out| && out[i].Syscall? && out[j].Syscall?
      ensures EndOf(out[i].ev) <= EndOf(out[j].ev)
      ensures out[i].ev.tid == out[j].ev.tid ==> EndOf(out[i].ev) <= out[j].ev.tsEnter
    {
      OwnCapture(ring, cut, baseline, i);
      OwnCapture(ring, cut, baseline, j);
      var r, q := ring[RecordAt(cut, i)], ring[RecordAt(cut, j)];
      assert RecordAt(cut, i) < RecordAt(cut, j) < |ring|;
      RecordsInOrder(p, hits, RecordAt(cut, i), RecordAt(cut, j));
      EndKept(r, baseline);
      EndKept(q, baseline);
    }
  }
}

module EbpfObject {
  import opened Common
  import opened EbpfStream

  /** What `waitpid(child, WNOHANG)` says. */
  datatype ChildStatus = ChildExited(code: int) | ChildSignaled(sig: nat) | ChildAlive | ChildError

  /** The kernel as user space meets it. `coming` is what the programs will still submit:
      any part of it may reach the ring whenever user space looks. */
  class Kernel {
    var ring: seq<Item>
    var coming: seq<Item>
    ghost var taken: seq<Item>
    /** What waitpid said of the child when last asked, and which of the watched processes were found
        alive, since these were last cleared; and how often anybody waited for the ring. */
    ghost var childSaid: Option<ChildStatus>
    ghost var found: map<Pid, bool>
    ghost var waits: nat

    constructor (coming: seq<Item>)
      ensures ring == [] && taken == [] && this.coming == coming
    {
      ring, taken, this.coming := [], [], coming;
      childSaid, found, waits := None, map[], 0;
    }

    /** Everything submitted so far, in order. */
    ghost function Submitted(): seq<Item>
      reads this
    {
      taken + ring
    }

    /** Everything ever submitted, in order. */
    ghost function All(): seq<Item>
      reads this
    {
      taken + ring + coming
    }

    ghost function Left(): nat
      reads this
    {
      |ring| + |coming|
    }

    /** Meanwhile the programs submit any number of records. */
    method Meanwhile()
      modifies this`ring, this`coming
      ensures All() == old(All()) && old(Submitted()) <= Submitted() && Left() == old(Left())
      ensures forall t :: Silent(old(coming), t) ==> Silent(coming, t)
    {
      var k: nat :| k <= |coming|;
      assert coming == coming[..k] + coming[k..];
      assert taken + ring + coming == taken + (ring + coming[..k]) + coming[k..];
      ring, coming := ring + coming[..k], coming[k..];
    }

    /** `RingBuf::next`. */
    method Next() returns (item: Option<Item>)
      modifies this`ring, this`coming, this`taken
      ensures All() == old(All()) && old(Submitted()) <= Submitted()
      ensures item.None? ==> ring == [] && taken == old(taken)
      ensures item.Some? ==> taken == old(taken) + [item.value] && Left() < old(Left())
      ensures forall t :: Silent(old(coming), t) ==> Silent(coming, t)
    {
      Meanwhile();
      if ring == [] {
        return None;
      }
      item := Some(ring[0]);
      assert taken + ring == (taken + [ring[0]]) + ring[1..];
      taken, ring := taken + [ring[0]], ring[1..];
    }

    /** `waitpid(child, WNOHANG)`: a child that is reported dead has no thread left to make a record. */
    method WaitChild(child: Pid) returns (st: ChildStatus)
      modifies this`ring, this`coming, this`childSaid
      ensures All() == old(All()) && old(Submitted()) <= Submitted() && Left() == old(Left())
      ensures st.ChildExited? || st.ChildSignaled? ==> Silent(coming, child)
      ensures childSaid == Some(st)
    {
      Meanwhile();
      st := *;
      if (st.ChildExited? || st.ChildSignaled?) && !Silent(coming, child) {
        st := ChildAlive;
      }
      childSaid := Some(st);
    }

    /** `kill(pid, 0)`: a process that no longer exists has no thread left to make a record. */
    method PidAlive(pid: Pid) returns (alive: bool)
      modifies this`ring, this`coming, this`found
      ensures All() == old(All()) && old(Submitted()) <= Submitted() && Left() == old(Left())
      ensures forall t :: Silent(old(coming), t) ==> Silent(coming, t)
      ensures !alive ==> Silent(coming, pid)
      ensures found == old(found)[pid := alive]
    {
      Meanwhile();
      alive := *;
      if !Silent(coming, pid) {
        alive := true;
      }
      found := found[pid := alive];
    }

    /** `poll` on the ring: time passes. */
    method Wait()
      modifies this`ring, this`coming, this`waits
      ensures All() == old(All()) && old(Submitted()) <= Submitted() && Left() == old(Left())
      ensures waits == old(waits) + 1
    {
      Meanwhile();
      waits := waits + 1;
    }
  }

  function EntriesFor(item: Item, baseline: U64): seq<Entry> {
    if item.Whole? then [EntryOf(item.rec, baseline)] else []
  }

  ghost predicate InStep(emitted: seq<Entry>, queue: seq<Entry>, taken: seq<Item>, cut: Option<Cut>, baseline: U64) {
    && (cut.Some? ==> cut.value.after <= |Wholes(taken)|)
    && emitted + queue == Merge(Wholes(taken), cut, baseline)
  }

  lemma DrainOne(
      emitted: seq<Entry>, queue: seq<Entry>, taken: seq<Item>, item: Item, cut: Option<Cut>, baseline: U64)
    requires InStep(emitted, queue, taken, cut, baseline)
    ensures InStep(emitted, queue + EntriesFor(item, baseline), taken + [item], cut, baseline)
  {
    WholesAppend(taken, item);
    assert emitted + (queue + EntriesFor(item, baseline)) == emitted + queue + EntriesFor(item, baseline);
    if item.Whole? {
      MergeAppend(Wholes(taken), cut, item.rec, baseline);
    } else {
      assert emitted + queue + [] == emitted + queue;
      assert Wholes(taken) + [] == Wholes(taken);
    }
  }

  lemma CutNow(emitted: seq<Entry>, queue: seq<Entry>, taken: seq<Item>, leader: Pid, code: int, baseline: U64)
    requires InStep(emitted, queue, taken, None, baseline)
    ensures InStep(emitted, queue + [Entry(ProcessExit(leader, code), None)], taken,
                   Some(Cut(|Wholes(taken)|, leader, code)), baseline)
  {
    var exit := Entry(ProcessExit(leader, code), None);
    assert emitted + (queue + [exit]) == emitted + queue + [exit];
  }

  /** If everything that was in the ring has been taken and the queue is empty without anything having
      been handed out, there was nothing to hand out. */
  lemma NothingHeldBack(
      emitted: seq<Entry>, queue0: seq<Entry>, taken0: seq<Item>, ring0: seq<Item>, taken: seq<Item>,
      cut: Option<Cut>, baseline: U64)
    requires InStep(emitted, queue0, taken0, cut, baseline) && InStep(emitted, [], taken, cut, baseline)
    requires taken0 + ring0 <= taken
    ensures queue0 == [] && Wholes(ring0) == []
  {
    MergeCounts(Wholes(taken0), cut, baseline);
    MergeCounts(Wholes(taken), cut, baseline);
    WholesCount(taken0, ring0);
    var more := taken[|taken0 + ring0|..];
    assert taken == taken0 + ring0 + more;
    WholesCount(taken0 + ring0, more);
  }

  datatype Verdict = Ready(event: Event) | Done | StillWaiting

  class EbpfTracer {
    const kernel: Kernel
    const leader: Pid
    const baseline: U64
    const child: Option<Pid>
    const watch: seq<Pid>
    var queue: seq<Entry>
    var current: Option<Capture>
    var finished: bool
    /** Everything handed to the caller so far. */
    ghost var emitted: seq<Entry>
    /** Where the exit was put into the stream, after how many ring items, and who was
        known to be dead by then. */
    ghost var cut: Option<Cut>
    ghost var cutAt: nat
    ghost var dead: set<Pid>

    /** Why the exit is announced with `code`, and who is known to be dead: the child as waitpid said,
        nobody if waiting for it failed, or everybody watched. */
    ghost predicate Grounds(code: int, known: set<Pid>)
      reads this, kernel
    {
      if child.Some?
      then
        match kernel.childSaid
        case Some(ChildExited(c)) => code == c && known == {child.value}
        case Some(ChildSignaled(sig)) => code == 128 + sig && known == {child.value}
        case Some(ChildError) => code == 0 && known == {}
        case _ => false
      else code == 0 && known == (set p | p in watch) && forall p :: p in watch ==> FoundDead(p)
    }

    ghost predicate FoundDead(p: Pid)
      reads this, kernel
    {
      p in kernel.found && !kernel.found[p]
    }

    /** Why the trace goes on: the child is alive, or somebody watched is. */
    ghost predicate SomebodyAlive()
      reads this, kernel
    {
      if child.Some? then kernel.childSaid == Some(ChildAlive)
      else exists p :: p in watch && p in kernel.found && kernel.found[p]
    }

    /** The stream so far, handed out or queued, is the merge of the records drained so far
        with the exit; nobody known to be dead has a record after it. */
    ghost predicate Valid()
      reads this, kernel
    {
      && (child.Some? || watch != [])
      && (finished <==> cut.Some?)
      && InStep(emitted, queue, kernel.taken, cut, baseline)
      && (cut.Some? ==>
            && cut.value.pid == leader && Grounds(cut.value.code, dead)
            && cutAt <= |kernel.All()| && cut.value.after == |Wholes(kernel.All()[..cutAt])|
            && forall t :: t in dead ==> Silent(kernel.All()[cutAt..], t))
    }

    constructor (kernel: Kernel, leader: Pid, baseline: U64, child: Option<Pid>, watch: seq<Pid>)
      requires child.Some? || watch != []
      requires kernel.taken == []
      ensures Valid() && emitted == [] && !finished && this.kernel == kernel && this.leader == leader
      ensures this.baseline == baseline && this.child == child && this.watch == watch
    {
      this.kernel, this.leader, this.baseline, this.child, this.watch := kernel, leader, baseline, child, watch;
      queue, current, finished := [], None, false;
      emitted, cut, cutAt, dead := [], None, 0, {};
    }

    /** The exit comes behind every record of every process known to be dead, whichever of its threads
        made it and whatever the programs still submit: of all records ever, those before the exit
        hold all of them. */
    lemma ExitComesLast(p: Pid)
      requires Valid() && cut.Some? && p in dead
      ensures cut.value.after <= |Wholes(kernel.All())|
      ensures RecordsAbout(Wholes(kernel.All())[..cut.value.after], p) == RecordsAbout(Wholes(kernel.All()), p)
    {
      WholesOfPrefix(kernel.All(), cutAt);
      assert Wholes(kernel.All())[..cut.value.after] == Wholes(kernel.All()[..cutAt]);
      SilentAddsNothing(kernel.All(), cutAt, p);
    }

    method DrainRing()
      requires Valid()
      modifies this`queue, kernel`ring, kernel`coming, kernel`taken
      ensures Valid() && kernel.All() == old(kernel.All())
      ensures kernel.ring == [] && old(kernel.Submitted()) <= kernel.taken
      ensures old(queue) <= queue
      ensures queue == [] ==> old(queue) == [] && Wholes(old(kernel.ring)) == []
      ensures kernel.Left() <= old(kernel.Left())
      ensures forall t :: Silent(old(kernel.coming), t) ==> Silent(kernel.coming, t)
    {
      while true
        invariant InStep(emitted, queue, kernel.taken, cut, baseline)
        invariant kernel.All() == old(kernel.All()) && old(kernel.Submitted()) <= kernel.Submitted()
        invariant old(queue) <= queue
        invariant kernel.Left() <= old(kernel.Left())
        invariant forall t :: Silent(old(kernel.coming), t) ==> Silent(kernel.coming, t)
        decreases kernel.Left()
      {
        ghost var taken, queued := kernel.taken, queue;
        var item := kernel.Next();
        if item.None? {
          if queue == [] {
            NothingHeldBack(emitted, old(queue), old(kernel.taken), old(kernel.ring), kernel.taken, cut, baseline);
          }
          return;
        }
        if item.value.Whole? {
          var rec := item.value.rec;
          var cap := if rec.capLen > 0 then Some(Capture(rec.capAddr, CapturedBytes(rec))) else None;
          queue := queue + [Entry(Syscall(RecordToEvent(rec, baseline)), cap)];
        }
        assert queue == queued + EntriesFor(item.value, baseline);
        DrainOne(emitted, queued, taken, item.value, cut, baseline);
      }
    }

    /** The exit goes behind every record submitted before it was noticed. */
    method EnqueueExit(code: int, ghost known: set<Pid>)
      requires Valid() && !finished
      requires Grounds(code, known) && forall t :: t in known ==> Silent(kernel.coming, t)
      modifies this`queue, this`finished, this`cut, this`cutAt, this`dead, kernel`ring, kernel`coming, kernel`taken
      ensures Valid() && finished && kernel.All() == old(kernel.All())
      ensures queue != [] && old(kernel.Submitted()) <= kernel.taken
      ensures |old(kernel.Submitted())| <= cutAt && cut.value.code == code && dead == known
    {
      DrainRing();
      assert kernel.All() == kernel.taken + kernel.coming;
      queue := queue + [Entry(ProcessExit(leader, code), None)];
      finished := true;
      cut, cutAt, dead := Some(Cut(|Wholes(kernel.taken)|, leader, code)), |kernel.taken|, known;
      assert kernel.All()[..cutAt] == kernel.taken && kernel.All()[cutAt..] == kernel.coming;
      CutNow(emitted, queue[..|queue| - 1], kernel.taken, leader, code, baseline);
    }

    /** `liveness_done`: asks once, and ends the stream unless the answer is that somebody lives. */
    method LivenessDone() returns (done: bool)
      requires Valid() && !finished
      modifies this`queue, this`finished, this`cut, this`cutAt, this`dead
      modifies kernel`ring, kernel`coming, kernel`taken, kernel`childSaid, kernel`found
      ensures Valid() && kernel.All() == old(kernel.All())
      ensures done ==> finished && queue != [] && |old(kernel.Submitted())| <= cutAt && Grounds(cut.value.code, dead)
      ensures !done ==> !finished && queue == old(queue) && SomebodyAlive() && kernel.taken == old(kernel.taken)
      ensures old(kernel.Submitted()) <= kernel.Submitted()
    {
      kernel.childSaid, kernel.found := None, map[];
      if child.Some? {
        var st := kernel.WaitChild(child.value);
        match st {
          case ChildExited(code) =>
            EnqueueExit(code, {child.value});
            done := true;
          case ChildSignaled(sig) =>
            EnqueueExit(128 + sig, {child.value});
            done := true;
          case ChildAlive =>
            done := false;
          case ChildError =>
            EnqueueExit(0, {});
            done := true;
        }
      } else {
        for k := 0 to |watch|
          invariant Valid() && !finished && queue == old(queue) && kernel.All() == old(kernel.All())
          invariant old(kernel.Submitted()) <= kernel.Submitted() && kernel.taken == old(kernel.taken)
          invariant forall j :: 0 <= j < k ==> Silent(kernel.coming, watch[j]) && FoundDead(watch[j])
        {
          var alive := kernel.PidAlive(watch[k]);
          if alive {
            assert watch[k] in watch && kernel.found[watch[k]];
            return false;
          }
        }
        EnqueueExit(0, set p | p in watch);
        done := true;
      }
    }

    /** Hands out the front of the queue. */
    method PopFront() returns (event: Event)
      requires Valid() && queue != []
      modifies this`queue, this`emitted, this`current
      ensures Valid() && event == old(queue)[0].event && current == old(queue)[0].cap
      ensures emitted == old(emitted) + [Entry(event, current)]
    {
      var front := queue[0];
      assert emitted + queue == (emitted + [front]) + queue[1..];
      queue := queue[1..];
      emitted := emitted + [front];
      current := front.cap;
      event := front.event;
    }

    /** `next_event`, giving up after `polls` fruitless waits. Nothing that is queued or in the ring when
        it is called is held back. */
    method NextEvent(polls: nat) returns (v: Verdict)
      requires Valid()
      modifies this, kernel
      ensures Valid() && kernel.All() == old(kernel.All())
      ensures v.Ready? ==> emitted == old(emitted) + [Entry(v.event, current)]
      ensures !v.Ready? ==> emitted == old(emitted) && queue == [] && old(kernel.Submitted()) <= kernel.taken
      ensures old(queue) != [] || Wholes(old(kernel.ring)) != [] ==> v.Ready?
      ensures v.Done? ==> finished && kernel.ring == [] && emitted == Merge(Wholes(kernel.taken), cut, baseline)
      ensures v.StillWaiting? ==> !finished && SomebodyAlive() && kernel.waits == old(kernel.waits) + polls
      ensures old(finished) ==> finished && cut == old(cut) && cutAt == old(cutAt) && dead == old(dead)
    {
      var left := polls;
      ghost var drained := false;
      while true
        invariant Valid() && kernel.All() == old(kernel.All()) && emitted == old(emitted)
        invariant old(kernel.Submitted()) <= kernel.Submitted()
        invariant kernel.waits + left == old(kernel.waits) + polls
        invariant !drained ==> queue == old(queue) && kernel.ring == old(kernel.ring)
        invariant drained && queue == [] ==> old(queue) == [] && Wholes(old(kernel.ring)) == []
        invariant old(finished) ==> finished && cut == old(cut) && cutAt == old(cutAt) && dead == old(dead)
        decreases left, !finished, queue == []
      {
        if queue != [] {
          var event := PopFront();
          return Ready(event);
        }
        DrainRing();
        drained := true;
        if queue != [] {
          continue;
        }
        if finished {
          return Done;
        }
        var done := LivenessDone();
        if done {
          continue;
        }
        if left == 0 {
          return StillWaiting;
        }
        kernel.Wait();
        left := left - 1;
      }
    }
  }
}
