/** `crates/syren-output/src/summary.rs`: the aggregate table. */
module SummaryModel {
  import opened Common

  datatype Stat = Stat(calls: nat, errors: nat, totalNs: nat)

  const ZERO := Stat(0, 0, 0)

  /** One item of the trace stream, as far as the summary looks at it. */
  datatype Record = SyscallRecord(name: string, durationNs: U64, failed: bool) | OtherRecord

  function Plus(a: Stat, b: Stat): Stat {
    Stat(a.calls + b.calls, a.errors + b.errors, a.totalNs + b.totalNs)
  }

  /** What one record contributes to a name. */
  function Share(r: Record, name: string): Stat {
    if r.SyscallRecord? && r.name == name then Stat(1, if r.failed then 1 else 0, r.durationNs) else ZERO
  }

  /** The reference: everything the records say about one name. */
  function StatOf(recs: seq<Record>, name: string): Stat {
    if |recs| == 0 then ZERO else Plus(StatOf(recs[..|recs| - 1], name), Share(recs[|recs| - 1], name))
  }

  /** What one record contributes to the totals. */
  function Whole(r: Record): Stat {
    if r.SyscallRecord? then Share(r, r.name) else ZERO
  }

  function TotalOf(recs: seq<Record>): Stat {
    if |recs| == 0 then ZERO else Plus(TotalOf(recs[..|recs| - 1]), Whole(recs[|recs| - 1]))
  }

  function NamesOf(recs: seq<Record>): set<string> {
    set r | r in recs && r.SyscallRecord? :: r.name
  }

  datatype Row = Row(name: string, stat: Stat)

  /** Byte order of names. */
  predicate NameLess(a: string, b: string) {
    b != "" && (a == "" || a[0] < b[0] || (a[0] == b[0] && NameLess(a[1..], b[1..])))
  }

  /** Time descending, then calls descending, then name ascending. */
  predicate Before(a: Row, b: Row) {
    a.stat.totalNs > b.stat.totalNs
    || (a.stat.totalNs == b.stat.totalNs
        && (a.stat.calls > b.stat.calls || (a.stat.calls == b.stat.calls && NameLess(a.name, b.name))))
  }

  predicate Sorted(rows: seq<Row>) {
    forall i, j :: 0 <= i < j < |rows| ==> Before(rows[i], rows[j])
  }

  /** The one table the records call for: a row for every name, with all the name's records in it,
      in order. */
  ghost predicate IsTable(recs: seq<Record>, rows: seq<Row>) {
    && Sorted(rows)
    && forall r :: r in rows <==> r.name in NamesOf(recs) && r.stat == StatOf(recs, r.name)
  }

  /** `usecs` is the average time of a call in microseconds, rounded down. */
  predicate RoundsDown(s: Stat, usecs: nat) {
    usecs * 1000 * s.calls <= s.totalNs < (usecs + 1) * 1000 * s.calls
  }

  function UsecsPerCall(s: Stat): nat {
    if s.calls == 0 then 0 else s.totalNs / s.calls / 1000
  }

  // ---------------------------------------------------------------- the order of rows

  lemma {:induction false} NameOrder(a: string, b: string)
    ensures a != b ==> NameLess(a, b) || NameLess(b, a)
    ensures NameLess(a, b) ==> a != b && !NameLess(b, a)
    decreases |a|
  {
    if a != "" && b != "" && a[0] == b[0] {
      NameOrder(a[1..], b[1..]);
      assert a == [a[0]] + a[1..] && b == [b[0]] + b[1..];
    }
  }

  lemma {:induction false} NameOrderTransitive(a: string, b: string, c: string)
    requires NameLess(a, b) && NameLess(b, c)
    ensures NameLess(a, c)
  {
    if a != "" && a[0] == b[0] == c[0] {
      NameOrderTransitive(a[1..], b[1..], c[1..]);
    }
  }

  /** Alphabetically: where the names first differ, the character of `a` is the smaller one or `a` ends. */
  ghost predicate Alphabetical(a: string, b: string) {
    exists k: nat :: k <= |a| && k <= |b| && a[..k] == b[..k]
                     && if k < |a| then k < |b| && a[k] < b[k] else k < |b|
  }

  lemma {:induction false} NameLessIsAlphabetical(a: string, b: string)
    ensures NameLess(a, b) <==> Alphabetical(a, b)
    decreases |a|
  {
    if |a| == 0 || |b| == 0 || a[0] != b[0] {
      assert a[..0] == b[..0];
    } else {
      NameLessIsAlphabetical(a[1..], b[1..]);
      if Alphabetical(a[1..], b[1..]) {
        var k: nat :| k <= |a[1..]| && k <= |b[1..]| && a[1..][..k] == b[1..][..k]
                      && if k < |a[1..]| then k < |b[1..]| && a[1..][k] < b[1..][k] else k < |b[1..]|;
        assert a[..k + 1] == [a[0]] + a[1..][..k] && b[..k + 1] == [b[0]] + b[1..][..k];
      }
      if Alphabetical(a, b) {
        var k: nat :| k <= |a| && k <= |b| && a[..k] == b[..k] && if k < |a| then k < |b| && a[k] < b[k] else k < |b|;
        assert k > 0;
        assert a[1..][..k - 1] == a[..k][1..] == b[..k][1..] == b[1..][..k - 1];
      }
    }
  }

  /** Later rows took less time, or were called less often in the same time, or have a later name. */
  ghost predicate Descending(rows: seq<Row>) {
    forall i, j :: 0 <= i < j < |rows| ==>
      var a, b := rows[i], rows[j];
      if a.stat.totalNs != b.stat.totalNs then a.stat.totalNs > b.stat.totalNs
      else if a.stat.calls != b.stat.calls then a.stat.calls > b.stat.calls
      else Alphabetical(a.name, b.name)
  }

  lemma SortedMeansDescending(rows: seq<Row>)
    requires Sorted(rows)
    ensures Descending(rows)
  {
    forall i, j | 0 <= i < j < |rows|
      ensures var a, b := rows[i], rows[j];
        if a.stat.totalNs != b.stat.totalNs then a.stat.totalNs > b.stat.totalNs
        else if a.stat.calls != b.stat.calls then a.stat.calls > b.stat.calls
        else Alphabetical(a.name, b.name)
    {
      assert Before(rows[i], rows[j]);
      NameLessIsAlphabetical(rows[i].name, rows[j].name);
    }
  }

  lemma RowOrder(a: Row, b: Row)
    ensures a.name != b.name ==> Before(a, b) || Before(b, a)
    ensures !(Before(a, b) && Before(b, a)) && !Before(a, a)
  {
    NameOrder(a.name, b.name);
    NameOrder(a.name, a.name);
  }

  lemma RowOrderTransitive(a: Row, b: Row, c: Row)
    requires Before(a, b) && Before(b, c)
    ensures Before(a, c)
  {
    if NameLess(a.name, b.name) && NameLess(b.name, c.name) {
      NameOrderTransitive(a.name, b.name, c.name);
    }
  }

  predicate Distinct(names: seq<string>) {
    forall i, j :: 0 <= i < j < |names| ==> names[i] != names[j]
  }

  /** A sorted table is determined by its rows. */
  lemma {:induction false} SortedIsUnique(a: seq<Row>, b: seq<Row>)
    requires Sorted(a) && Sorted(b) && forall r :: r in a <==> r in b
    ensures a == b
    decreases |a|
  {
    assert b != [] ==> b[0] in a;
    if a != [] {
      assert a[0] in b;
      FirstComesFirst(a, b[0]);
      FirstComesFirst(b, a[0]);
      RowOrder(a[0], b[0]);
      forall r
        ensures r in a[1..] <==> r in b[1..]
      {
        TailMembers(a, r);
        TailMembers(b, r);
      }
      SortedIsUnique(a[1..], b[1..]);
      assert a == [a[0]] + a[1..] && b == [b[0]] + b[1..];
    }
  }

  lemma FirstComesFirst(a: seq<Row>, r: Row)
    requires Sorted(a) && r in a
    ensures r == a[0] || Before(a[0], r)
  {
    var i :| 0 <= i < |a| && a[i] == r;
    assert i == 0 || Before(a[0], a[i]);
  }

  lemma TailMembers(a: seq<Row>, r: Row)
    requires Sorted(a) && a != []
    ensures r in a[1..] <==> r in a && r != a[0]
  {
    RowOrder(a[0], a[0]);
    if r in a && r != a[0] {
      var i :| 0 <= i < |a| && a[i] == r;
      assert a[1..][i - 1] == r;
    }
    if r in a[1..] {
      var i :| 0 <= i < |a[1..]| && a[1..][i] == r;
      assert Before(a[0], a[i + 1]);
    }
  }

  // ---------------------------------------------------------------- records in any order

  lemma StatOfOneMore(recs: seq<Record>, r: Record, name: string)
    ensures StatOf(recs + [r], name) == Plus(StatOf(recs, name), Share(r, name))
  {
    assert (recs + [r])[..|recs|] == recs;
  }

  lemma PlusZero(a: Stat)
    ensures Plus(a, ZERO) == a && Plus(ZERO, a) == a
  {
  }

  lemma PlusAssociates(a: Stat, b: Stat, c: Stat)
    ensures Plus(Plus(a, b), c) == Plus(a, Plus(b, c))
  {
  }

  lemma PlusSwaps(a: Stat, b: Stat, c: Stat, d: Stat)
    ensures Plus(Plus(a, b), Plus(c, d)) == Plus(Plus(a, c), Plus(b, d))
  {
  }

  lemma {:induction false} StatOfSplits(a: seq<Record>, b: seq<Record>, name: string)
    ensures StatOf(a + b, name) == Plus(StatOf(a, name), StatOf(b, name))
    decreases |b|
  {
    if |b| == 0 {
      assert a + b == a;
      PlusZero(StatOf(a, name));
    } else {
      var before, last := b[..|b| - 1], b[|b| - 1];
      StatOfSplits(a, before, name);
      assert b == before + [last] && a + b == (a + before) + [last];
      StatOfOneMore(before, last, name);
      StatOfOneMore(a + before, last, name);
      PlusAssociates(StatOf(a, name), StatOf(before, name), Share(last, name));
    }
  }

  /** Taking one record out, wherever it stands. */
  lemma SplitAt(a: seq<Record>, i: nat, name: string)
    requires i < |a|
    ensures multiset(a[..i] + a[i + 1..]) == multiset(a) - multiset{a[i]}
    ensures StatOf(a, name) == Plus(StatOf(a[..i] + a[i + 1..], name), Share(a[i], name))
  {
    var x, y, r := a[..i], a[i + 1..], a[i];
    assert a == (x + [r]) + y;
    assert multiset(a) == multiset(x) + multiset{r} + multiset(y);
    StatOfSplits(x + [r], y, name);
    StatOfOneMore(x, r, name);
    StatOfSplits(x, y, name);
    PlusAssociates(StatOf(x, name), Share(r, name), StatOf(y, name));
    PlusAssociates(StatOf(x, name), StatOf(y, name), Share(r, name));
  }

  lemma SameNames(a: seq<Record>, b: seq<Record>)
    requires multiset(a) == multiset(b)
    ensures NamesOf(a) == NamesOf(b)
  {
    assert forall q :: q in a <==> q in multiset(a);
    assert forall q :: q in b <==> q in multiset(b);
  }

  /** The statistics do not depend on the order of the records. */
  lemma {:induction false} OrderOfRecordsIsIrrelevant(a: seq<Record>, b: seq<Record>, name: string)
    requires multiset(a) == multiset(b)
    ensures StatOf(a, name) == StatOf(b, name)
    decreases |a|
  {
    assert |a| == |multiset(a)| == |b|;
    if |a| > 0 {
      var n := |a| - 1;
      assert a[n] in multiset(b);
      var i :| 0 <= i < |b| && b[i] == a[n];
      SplitAt(a, n, name);
      SplitAt(b, i, name);
      OrderOfRecordsIsIrrelevant(a[..n] + a[n + 1..], b[..i] + b[i + 1..], name);
    }
  }

  // ---------------------------------------------------------------- nothing lost, nothing counted twice

  function SumStats(recs: seq<Record>, names: seq<string>): Stat {
    if |names| == 0 then ZERO else Plus(StatOf(recs, names[0]), SumStats(recs, names[1..]))
  }

  function SumShares(r: Record, names: seq<string>): Stat {
    if |names| == 0 then ZERO else Plus(Share(r, names[0]), SumShares(r, names[1..]))
  }

  lemma {:induction false} SumStatsStep(recs: seq<Record>, r: Record, names: seq<string>)
    ensures SumStats(recs + [r], names) == Plus(SumStats(recs, names), SumShares(r, names))
    decreases |names|
  {
    if |names| == 0 {
      PlusZero(ZERO);
    } else {
      var n, rest := names[0], names[1..];
      calc {
        SumStats(recs + [r], names);
        Plus(StatOf(recs + [r], n), SumStats(recs + [r], rest));
        { SumStatsStep(recs, r, rest); }
        Plus(StatOf(recs + [r], n), Plus(SumStats(recs, rest), SumShares(r, rest)));
        { StatOfOneMore(recs, r, n); }
        Plus(Plus(StatOf(recs, n), Share(r, n)), Plus(SumStats(recs, rest), SumShares(r, rest)));
        { PlusSwaps(StatOf(recs, n), Share(r, n), SumStats(recs, rest), SumShares(r, rest)); }
        Plus(SumStats(recs, names), SumShares(r, names));
      }
    }
  }

  lemma {:induction false} NoShare(r: Record, names: seq<string>)
    requires r.SyscallRecord? ==> r.name !in names
    ensures SumShares(r, names) == ZERO
    decreases |names|
  {
    if |names| > 0 {
      assert names[0] in names;
      NoShare(r, names[1..]);
      assert Share(r, names[0]) == ZERO;
      PlusZero(ZERO);
    }
  }

  lemma {:induction false} OneShare(r: Record, names: seq<string>, i: nat)
    requires Distinct(names) && i < |names| && r.SyscallRecord? && names[i] == r.name
    ensures SumShares(r, names) == Whole(r)
    decreases |names|
  {
    PlusZero(Whole(r));
    if i == 0 {
      NoShare(r, names[1..]);
    } else {
      OneShare(r, names[1..], i - 1);
      assert Share(r, names[0]) == ZERO;
    }
  }

  lemma {:induction false} SumOfNothing(recs: seq<Record>, names: seq<string>)
    requires |recs| == 0
    ensures SumStats(recs, names) == ZERO
    decreases |names|
  {
    if |names| > 0 {
      assert StatOf(recs, names[0]) == ZERO;
      SumOfNothing(recs, names[1..]);
      PlusZero(ZERO);
    }
  }

  /** The rows of a complete table add up to the records. */
  lemma {:induction false} RowsAddUp(recs: seq<Record>, names: seq<string>)
    requires Distinct(names) && forall r :: r in recs && r.SyscallRecord? ==> r.name in names
    ensures SumStats(recs, names) == TotalOf(recs)
    decreases |recs|
  {
    if |recs| == 0 {
      SumOfNothing(recs, names);
    } else {
      var before, r := recs[..|recs| - 1], recs[|recs| - 1];
      assert recs == before + [r];
      RowsAddUp(before, names);
      SumStatsStep(before, r, names);
      assert TotalOf(recs) == Plus(TotalOf(before), Whole(r));
      if r.SyscallRecord? {
        assert r in recs;
        var i :| 0 <= i < |names| && names[i] == r.name;
        OneShare(r, names, i);
      } else {
        NoShare(r, names);
      }
    }
  }

  lemma MulMonotone(a: nat, b: nat, c: nat)
    requires a <= b
    ensures a * c <= b * c
  {
  }

  /** The column "usecs/call" rounds the average time down, never up, by less than one. */
  lemma UsecsRoundDown(s: Stat)
    requires s.calls > 0
    ensures RoundsDown(s, UsecsPerCall(s))
  {
    var q, u := s.totalNs / s.calls, UsecsPerCall(s);
    assert q * s.calls <= s.totalNs < (q + 1) * s.calls;
    assert u * 1000 <= q && q + 1 <= (u + 1) * 1000;
    MulMonotone(u * 1000, q, s.calls);
    MulMonotone(q + 1, (u + 1) * 1000, s.calls);
  }

  function RowNames(rows: seq<Row>): (names: seq<string>)
    ensures |names| == |rows| && forall i :: 0 <= i < |rows| ==> names[i] == rows[i].name
  {
    seq(|rows|, i requires 0 <= i < |rows| => rows[i].name)
  }

  function SumRows(rows: seq<Row>): Stat {
    if |rows| == 0 then ZERO else Plus(SumRows(rows[..|rows| - 1]), rows[|rows| - 1].stat)
  }

  lemma {:induction false} SumStatsSnoc(recs: seq<Record>, names: seq<string>, name: string)
    ensures SumStats(recs, names + [name]) == Plus(SumStats(recs, names), StatOf(recs, name))
    decreases |names|
  {
    if |names| == 0 {
      assert names + [name] == [name] && [name][1..] == [];
    } else {
      SumStatsSnoc(recs, names[1..], name);
      assert (names + [name])[1..] == names[1..] + [name];
    }
  }

  lemma {:induction false} SumRowsIsSumStats(recs: seq<Record>, rows: seq<Row>)
    requires forall i :: 0 <= i < |rows| ==> rows[i].stat == StatOf(recs, rows[i].name)
    ensures SumRows(rows) == SumStats(recs, RowNames(rows))
    decreases |rows|
  {
    if rows != [] {
      var n := |rows| - 1;
      SumRowsIsSumStats(recs, rows[..n]);
      SumStatsSnoc(recs, RowNames(rows[..n]), rows[n].name);
      assert RowNames(rows) == RowNames(rows[..n]) + [rows[n].name];
    }
  }

  /** The rows of a table add up to the records it was made from. */
  lemma TableAddsUp(recs: seq<Record>, rows: seq<Row>)
    requires IsTable(recs, rows)
    ensures SumRows(rows) == TotalOf(recs)
  {
    var names := RowNames(rows);
    forall i, j | 0 <= i < j < |rows|
      ensures names[i] != names[j]
    {
      assert rows[i] in rows && rows[j] in rows;
      RowOrder(rows[i], rows[j]);
    }
    forall r | r in recs && r.SyscallRecord?
      ensures r.name in names
    {
      assert r.name in NamesOf(recs);
      var row := Row(r.name, StatOf(recs, r.name));
      assert row in rows;
      var i :| 0 <= i < |rows| && rows[i] == row;
      assert names[i] == r.name;
    }
    RowsAddUp(recs, names);
    forall i | 0 <= i < |rows|
      ensures rows[i].stat == StatOf(recs, rows[i].name)
    {
      assert rows[i] in rows;
    }
    SumRowsIsSumStats(recs, rows);
  }

  lemma SumRowsStarts(rows: seq<Row>)
    ensures SumRows(rows[..0]) == ZERO
  {
  }

  lemma SumRowsStep(rows: seq<Row>, k: nat)
    requires k < |rows|
    ensures SumRows(rows[..k + 1]) == Plus(SumRows(rows[..k]), rows[k].stat)
  {
    assert rows[..k + 1][..k] == rows[..k];
  }

  lemma RowRoundsDown(recs: seq<Record>, rows: seq<Row>, k: nat)
    requires IsTable(recs, rows) && k < |rows|
    ensures RoundsDown(rows[k].stat, UsecsPerCall(rows[k].stat))
  {
    assert rows[k] in rows;
    CountedOnce(recs, rows[k].name);
    UsecsRoundDown(rows[k].stat);
  }

  /** What one more record changes. */
  lemma RecordStep(recs: seq<Record>, r: Record)
    ensures NamesOf(recs + [r]) == NamesOf(recs) + if r.SyscallRecord? then {r.name} else {}
    ensures forall n :: StatOf(recs + [r], n) == Plus(StatOf(recs, n), Share(r, n))
    ensures r.SyscallRecord? && r.name !in NamesOf(recs) ==> StatOf(recs, r.name) == ZERO
  {
    SeenBefore(recs, r);
    forall n
      ensures StatOf(recs + [r], n) == Plus(StatOf(recs, n), Share(r, n))
    {
      StatOfOneMore(recs, r, n);
    }
    if r.SyscallRecord? && r.name !in NamesOf(recs) {
      NeverSeen(recs, r.name);
    }
  }

  /** A tally is right: it lists exactly the names of the records, with their statistics. */
  ghost predicate Tallies(stats: map<string, Stat>, recs: seq<Record>) {
    stats.Keys == NamesOf(recs) && forall n :: n in stats ==> stats[n] == StatOf(recs, n)
  }

  /** One record moves at most the line of its own name. */
  lemma TallyStep(stats: map<string, Stat>, recs: seq<Record>, r: Record)
    requires Tallies(stats, recs)
    ensures r.OtherRecord? ==> Tallies(stats, recs + [r])
    ensures r.SyscallRecord? ==>
      Tallies(stats[r.name := Plus(if r.name in stats then stats[r.name] else ZERO, Share(r, r.name))], recs + [r])
  {
    RecordStep(recs, r);
    forall n | n in stats && !(r.SyscallRecord? && r.name == n)
      ensures StatOf(recs + [r], n) == stats[n]
    {
      assert Share(r, n) == ZERO;
      PlusZero(StatOf(recs, n));
    }
    if r.SyscallRecord? {
      assert StatOf(recs + [r], r.name) == Plus(if r.name in stats then stats[r.name] else ZERO, Share(r, r.name));
    }
  }

  lemma SeenBefore(before: seq<Record>, last: Record)
    ensures NamesOf(before + [last]) == NamesOf(before) + if last.SyscallRecord? then {last.name} else {}
  {
    assert forall q :: q in before + [last] <==> q in before || q == last;
  }

  lemma OneMoreNothing(before: seq<Record>, last: Record, name: string)
    requires StatOf(before, name) == ZERO && (last.SyscallRecord? ==> last.name != name)
    ensures StatOf(before + [last], name) == ZERO
  {
    assert Share(last, name) == ZERO;
    StatOfOneMore(before, last, name);
    PlusZero(ZERO);
  }

  lemma {:induction false} NeverSeen(recs: seq<Record>, name: string)
    requires name !in NamesOf(recs)
    ensures StatOf(recs, name) == ZERO
  {
    if |recs| == 0 {
      assert StatOf(recs, name) == ZERO;
    } else {
      var before, last := recs[..|recs| - 1], recs[|recs| - 1];
      assert recs == before + [last];
      SeenBefore(before, last);
      NeverSeen(before, name);
      OneMoreNothing(before, last, name);
    }
  }

  lemma {:induction false} CountedOnce(recs: seq<Record>, name: string)
    requires name in NamesOf(recs)
    ensures StatOf(recs, name).calls > 0
  {
    var n := |recs| - 1;
    if recs[n].SyscallRecord? && recs[n].name == name {
      assert StatOf(recs, name) == Plus(StatOf(recs[..n], name), Share(recs[n], name));
    } else {
      assert forall q :: q in recs ==> q in recs[..n] || q == recs[n];
      CountedOnce(recs[..n], name);
    }
  }

  lemma {:induction false} DistinctCount(names: seq<string>)
    requires Distinct(names)
    ensures |set n | n in names| == |names|
    decreases |names|
  {
    if |names| > 0 {
      DistinctCount(names[1..]);
      assert (set n | n in names) == {names[0]} + (set n | n in names[1..]);
    }
  }

  /** Putting a row in its place. */
  function Insert(rows: seq<Row>, row: Row): (r: seq<Row>)
    requires Sorted(rows) && forall i :: 0 <= i < |rows| ==> rows[i].name != row.name
    ensures Sorted(r) && |r| == |rows| + 1
    ensures forall x :: x in r <==> x in rows || x == row
    decreases |rows|
  {
    if rows == [] then [row]
    else
      var n := |rows| - 1;
      RowOrder(rows[n], row);
      assert rows == rows[..n] + [rows[n]];
      if Before(rows[n], row) then
        assert forall i :: 0 <= i < n ==> Before(rows[i], row) by {
          forall i | 0 <= i < n ensures Before(rows[i], row) { RowOrderTransitive(rows[i], rows[n], row); }
        }
        rows + [row]
      else
        var r := Insert(rows[..n], row);
        assert forall x :: x in rows[..n] ==> Before(x, rows[n]);
        r + [rows[n]]
  }

  /** Two summaries of the same records, fed and listed in any order, are the same table. */
  lemma SummaryIsDeterministic(fed1: seq<Record>, fed2: seq<Record>, rows1: seq<Row>, rows2: seq<Row>)
    requires multiset(fed1) == multiset(fed2) && IsTable(fed1, rows1) && IsTable(fed2, rows2)
    ensures rows1 == rows2
  {
    SameNames(fed1, fed2);
    forall r
      ensures r in rows1 <==> r in rows2
    {
      OrderOfRecordsIsIrrelevant(fed1, fed2, r.name);
    }
    SortedIsUnique(rows1, rows2);
  }
}

module SummaryObject {
  import opened SummaryModel

  class SummarySink {
    var stats: map<string, Stat>
    /** Every record fed so far. */
    ghost var fed: seq<Record>

    ghost predicate Valid()
      reads this
    {
      Tallies(stats, fed)
    }

    constructor ()
      ensures Valid() && fed == []
    {
      stats, fed := map[], [];
    }

    method Record(rec: Record)
      requires Valid()
      modifies this
      ensures Valid() && fed == old(fed) + [rec]
    {
      TallyStep(stats, fed, rec);
      fed := fed + [rec];
      if rec.SyscallRecord? {
        var stat := if rec.name in stats then stats[rec.name] else ZERO;
        stat := stat.(calls := stat.calls + 1, totalNs := stat.totalNs + rec.durationNs);
        if rec.failed {
          stat := stat.(errors := stat.errors + 1);
        }
        stats := stats[rec.name := stat];
      }
    }

    /** `order` is the order in which the hash map happens to list its names. */
    ghost predicate Lists(order: seq<string>)
      reads this
    {
      Distinct(order) && forall n :: n in order <==> n in stats
    }

    /** The rows, collected in the map's order and sorted. */
    method SortedRows(order: seq<string>) returns (rows: seq<Row>)
      requires Valid() && Lists(order)
      ensures IsTable(fed, rows) && |rows| == |NamesOf(fed)| && Descending(rows)
    {
      rows := [];
      for k := 0 to |order|
        invariant Sorted(rows) && |rows| == k
        invariant forall r :: r in rows <==> r.name in order[..k] && r.stat == StatOf(fed, r.name)
      {
        assert order[..k + 1] == order[..k] + [order[k]];
        rows := Insert(rows, Row(order[k], stats[order[k]]));
      }
      assert order[..|order|] == order;
      DistinctCount(order);
      assert NamesOf(fed) == set n | n in order;
      SortedMeansDescending(rows);
    }

    /** The time of all rows together. */
    method GrandTotal(order: seq<string>) returns (grand: nat)
      requires Valid() && Lists(order)
      ensures grand == TotalOf(fed).totalNs
    {
      grand := 0;
      for k := 0 to |order|
        invariant grand == SumStats(fed, order[..k]).totalNs
      {
        SumStatsSnoc(fed, order[..k], order[k]);
        assert order[..k + 1] == order[..k] + [order[k]];
        grand := grand + stats[order[k]].totalNs;
      }
      assert order[..|order|] == order;
      RowsAddUp(fed, order);
    }

    /** `finish`: the printed rows with their "usecs/call" column, and the line of totals. None
        of them depends on `order`. */
    method Finish(order: seq<string>) returns (rows: seq<Row>, usecs: seq<nat>, totals: Stat)
      requires Valid() && Lists(order)
      ensures IsTable(fed, rows) && |rows| == |NamesOf(fed)| && Descending(rows)
      ensures |usecs| == |rows|
      ensures forall k :: 0 <= k < |rows| ==> RoundsDown(rows[k].stat, usecs[k])
      ensures totals == TotalOf(fed) == SumRows(rows)
    {
      var grand := GrandTotal(order);
      rows := SortedRows(order);
      var calls, errors := 0, 0;
      usecs := [];
      SumRowsStarts(rows);
      for k := 0 to |rows|
        invariant |usecs| == k && forall i :: 0 <= i < k ==> RoundsDown(rows[i].stat, usecs[i])
        invariant calls == SumRows(rows[..k]).calls && errors == SumRows(rows[..k]).errors
      {
        SumRowsStep(rows, k);
        RowRoundsDown(fed, rows, k);
        usecs := usecs + [UsecsPerCall(rows[k].stat)];
        calls := calls + rows[k].stat.calls;
        errors := errors + rows[k].stat.errors;
      }
      assert rows[..|rows|] == rows;
      TableAddsUp(fed, rows);
      totals := Stat(calls, errors, grand);
    }
  }
}
