/** `crates/syren-cli/src/filter.rs`: which syscalls to report. */
module FilterModel {
  import opened Common
  import opened Text
  import opened Syscalls

  /** The generated tables. */
  datatype Tables = Tables(syscalls: seq<SyscallInfo>, categories: seq<string>)

  datatype Filter =
    | All
    | Numbers(numbers: set<U32>)

  datatype Refusal =
    | UnsupportedQualifier(qualifier: string)
    | UnknownToken(token: string)

  datatype Parsed =
    | Accepted(filter: Filter)
    | Refused(why: Refusal)

  // ---------------------------------------------------------------- text

  function LowerChar(c: char): char {
    if 'A' <= c <= 'Z' then c - 'A' + 'a' else c
  }

  /** Rust's `eq_ignore_ascii_case`. */
  predicate SameIgnoringCase(a: string, b: string) {
    |a| == |b| && forall i :: 0 <= i < |a| ==> LowerChar(a[i]) == LowerChar(b[i])
  }

  /** The characters that Rust's `trim` removes: Unicode's White_Space. */
  predicate IsSpace(c: char) {
    var n := c as int;
    || 0x9 <= n <= 0xd || n in {0x20, 0x85, 0xa0, 0x1680, 0x2028, 0x2029, 0x202f, 0x205f, 0x3000}
    || 0x2000 <= n <= 0x200a
  }

  function Trim(s: string): (r: string)
    ensures Tidy(r)
  {
    if |s| == 0 then ""
    else if IsSpace(s[0]) then Trim(s[1..])
    else if IsSpace(s[|s| - 1]) then Trim(s[..|s| - 1])
    else s
  }

  predicate Tidy(s: string) {
    s != "" ==> !IsSpace(s[0]) && !IsSpace(s[|s| - 1])
  }

  /** Rust's `split_once`. */
  function SplitOnce(s: string, sep: char): (r: Option<(string, string)>)
    ensures r.None? <==> sep !in s
    ensures r.Some? ==> s == r.value.0 + [sep] + r.value.1 && sep !in r.value.0
  {
    if |s| == 0 then None
    else if s[0] == sep then Some(("", s[1..]))
    else
      match SplitOnce(s[1..], sep)
      case None => None
      case Some((before, after)) => Some(([s[0]] + before, after))
  }

  lemma SpacesAre(c: char)
    ensures IsSpace(c) <==>
      c as int in {0x9, 0xa, 0xb, 0xc, 0xd, 0x20, 0x85, 0xa0, 0x1680, 0x2000, 0x2001, 0x2002, 0x2003, 0x2004, 0x2005,
                   0x2006, 0x2007, 0x2008, 0x2009, 0x200a, 0x2028, 0x2029, 0x202f, 0x205f, 0x3000}
  {
  }

  predicate AllSpaces(s: string) {
    forall i :: 0 <= i < |s| ==> IsSpace(s[i])
  }

  /** Trimming takes the spaces around a text and nothing else. */
  lemma {:induction false} TrimTakesSpaces(before: string, t: string, after: string)
    requires AllSpaces(before) && AllSpaces(after) && Tidy(t)
    ensures Trim(before + t + after) == t
    decreases |before| + |after|
  {
    var s := before + t + after;
    if |before| > 0 {
      assert s[0] == before[0] && s[1..] == before[1..] + t + after;
      TrimTakesSpaces(before[1..], t, after);
    } else if |after| > 0 {
      var n := |after| - 1;
      if |t| == 0 {
        assert s[0] == after[0] && s[1..] == before + t + after[1..];
        TrimTakesSpaces(before, t, after[1..]);
      } else {
        assert s[0] == t[0] && s[|s| - 1] == after[n] && s[..|s| - 1] == before + t + after[..n];
        TrimTakesSpaces(before, t, after[..n]);
      }
    } else {
      assert s == t;
    }
  }

  /** A letter and its other case. */
  predicate SameLetter(a: char, b: char) {
    || a == b
    || ('a' <= a <= 'z' && b as int + 32 == a as int)
    || ('a' <= b <= 'z' && a as int + 32 == b as int)
  }

  lemma IgnoringCaseMeans(a: string, b: string)
    ensures SameIgnoringCase(a, b) <==> |a| == |b| && forall i :: 0 <= i < |a| ==> SameLetter(a[i], b[i])
  {
    assert forall x, y :: LowerChar(x) == LowerChar(y) <==> SameLetter(x, y);
    if |a| == |b| {
      assert forall i :: 0 <= i < |a| ==> (LowerChar(a[i]) == LowerChar(b[i]) <==> SameLetter(a[i], b[i]));
    }
  }

  /** The token in one piece between commas, if there is one. */
  function TokenIn(piece: string): seq<string> {
    var t := Trim(piece);
    if |t| == 0 then [] else [t]
  }

  function Tokens(s: string): seq<string> {
    FlatMap(TokenIn, Split(s, ','))
  }

  // ---------------------------------------------------------------- one token

  predicate SaysAll(token: string) {
    SameIgnoringCase(token, "all")
  }

  /** `Category::parse`. */
  function ParseCategory(categories: seq<string>, s: string): Option<string> {
    if |categories| == 0 then None
    else if SameIgnoringCase(categories[0], s) then Some(categories[0])
    else ParseCategory(categories[1..], s)
  }

  /** `syscall_by_name`. */
  function FindByName(table: seq<SyscallInfo>, name: string): Option<SyscallInfo> {
    if |table| == 0 then None
    else if table[0].name == name then Some(table[0])
    else FindByName(table[1..], name)
  }

  /** `Category::parse` answers with the first category of that name. */
  lemma {:induction false} ParseCategoryFinds(categories: seq<string>, s: string) returns (i: nat)
    ensures i <= |categories| && forall j :: 0 <= j < i ==> !SameIgnoringCase(categories[j], s)
    ensures if i < |categories|
            then SameIgnoringCase(categories[i], s) && ParseCategory(categories, s) == Some(categories[i])
            else ParseCategory(categories, s) == None
  {
    i := 0;
    if |categories| > 0 && !SameIgnoringCase(categories[0], s) {
      i := ParseCategoryFinds(categories[1..], s);
      i := i + 1;
    }
  }

  /** `syscall_by_name` answers with the first syscall of that name. */
  lemma {:induction false} FindByNameFinds(table: seq<SyscallInfo>, name: string) returns (i: nat)
    ensures i <= |table| && forall j :: 0 <= j < i ==> table[j].name != name
    ensures if i < |table| then table[i].name == name && FindByName(table, name) == Some(table[i])
            else FindByName(table, name) == None
  {
    i := 0;
    if |table| > 0 && table[0].name != name {
      i := FindByNameFinds(table[1..], name);
      i := i + 1;
    }
  }

  function Bare(token: string): string {
    if token != "" && token[0] == '%' then token[1..] else token
  }

  function NumbersIn(table: seq<SyscallInfo>, c: string): set<U32> {
    set e | e in table && e.category == c :: e.number
  }

  /** The numbers a token stands for; none if it names nothing. */
  function NumbersNamed(tables: Tables, token: string): Option<set<U32>> {
    match ParseCategory(tables.categories, Bare(token))
    case Some(c) => Some(NumbersIn(tables.syscalls, c))
    case None =>
      match FindByName(tables.syscalls, token)
      case Some(info) => Some({info.number})
      case None => None
  }

  // ---------------------------------------------------------------- all expressions

  /** What an expression list says, piece by piece: tokens, and qualifiers nobody knows. */
  datatype Item =
    | Token(text: string)
    | BadQualifier(qualifier: string)

  function TokenItems(tokens: seq<string>): (items: seq<Item>)
    ensures |items| == |tokens| && forall i :: 0 <= i < |items| ==> items[i] == Token(tokens[i])
  {
    seq(|tokens|, i requires 0 <= i < |tokens| => Token(tokens[i]))
  }

  function ItemsOf(spec: string): seq<Item> {
    match SplitOnce(spec, '=')
    case None => TokenItems(Tokens(spec))
    case Some((qualifier, rest)) =>
      if qualifier == "trace" then TokenItems(Tokens(rest)) else [BadQualifier(qualifier)]
  }

  function Items(exprs: seq<string>): seq<Item> {
    FlatMap(ItemsOf, exprs)
  }

  predicate IsAll(item: Item) {
    item.Token? && SaysAll(item.text)
  }

  /** An item that no filter can be made of. */
  predicate IsBad(tables: Tables, item: Item) {
    item.BadQualifier? || (!SaysAll(item.text) && NumbersNamed(tables, item.text).None?)
  }

  /** An item at which reading ends. */
  predicate Stops(tables: Tables, item: Item) {
    IsAll(item) || IsBad(tables, item)
  }

  function FirstStop(tables: Tables, items: seq<Item>): (k: nat)
    ensures k <= |items| && forall i :: 0 <= i < k ==> !Stops(tables, items[i])
    ensures k < |items| ==> Stops(tables, items[k])
  {
    if |items| == 0 || Stops(tables, items[0]) then 0 else 1 + FirstStop(tables, items[1..])
  }

  /** Everything the tokens stand for together. */
  function NumbersOf(tables: Tables, items: seq<Item>): set<U32> {
    set item, n | item in items && item.Token? && NumbersNamed(tables, item.text).Some?
                  && n in NumbersNamed(tables, item.text).value :: n
  }

  /** What a stopping item makes of the whole. */
  function Ending(item: Item): Parsed {
    match item
    case BadQualifier(q) => Refused(UnsupportedQualifier(q))
    case Token(t) => if SaysAll(t) then Accepted(All) else Refused(UnknownToken(t))
  }

  function ParsedOf(tables: Tables, items: seq<Item>): Parsed {
    var k := FirstStop(tables, items);
    if k < |items| then Ending(items[k]) else Accepted(Numbers(NumbersOf(tables, items)))
  }

  function Verdict(tables: Tables, exprs: seq<string>): Parsed {
    if exprs == [] then Accepted(All) else ParsedOf(tables, Items(exprs))
  }

  function Allows(f: Filter, nr: U64): bool {
    match f
    case All => true
    case Numbers(set_) => nr < TWO32 && nr in set_
  }

  // ---------------------------------------------------------------- the method

  lemma {:induction false} StopIsUnique(tables: Tables, items: seq<Item>, k: nat)
    requires k <= |items| && (forall i :: 0 <= i < k ==> !Stops(tables, items[i]))
    requires k < |items| ==> Stops(tables, items[k])
    ensures FirstStop(tables, items) == k
  {
    if k < FirstStop(tables, items) {
      assert false;
    }
  }

  lemma NumbersOfOneMore(tables: Tables, done: seq<Item>, t: string)
    requires NumbersNamed(tables, t).Some?
    ensures NumbersOf(tables, done + [Token(t)]) == NumbersOf(tables, done) + NumbersNamed(tables, t).value
  {
    var more := done + [Token(t)];
    assert forall item :: item in more <==> item in done || item == Token(t);
  }

  /** Reading got as far as `done` without an end. */
  ghost predicate ReadSoFar(tables: Tables, done: seq<Item>, numbers: set<U32>) {
    && (forall i :: 0 <= i < |done| ==> !Stops(tables, done[i]))
    && numbers == NumbersOf(tables, done)
  }

  lemma EndsHere(tables: Tables, items: seq<Item>, done: seq<Item>, item: Item, rest: seq<Item>)
    requires items == done + [item] + rest && Stops(tables, item)
    requires forall i :: 0 <= i < |done| ==> !Stops(tables, done[i])
    ensures ParsedOf(tables, items) == Ending(item)
  {
    assert items[|done|] == item;
    assert forall i :: 0 <= i < |done| ==> items[i] == done[i];
    StopIsUnique(tables, items, |done|);
  }

  lemma NextExpression(exprs: seq<string>, i: nat)
    requires i < |exprs|
    ensures Items(exprs[i..]) == ItemsOf(exprs[i]) + Items(exprs[i + 1..])
  {
    assert exprs[i..] == [exprs[i]] + exprs[i + 1..];
    FlatMapAppends(ItemsOf, [exprs[i]], exprs[i + 1..]);
    FlatMapOne(ItemsOf, exprs[i]);
  }

  lemma NextToken(done: seq<Item>, tokens: seq<string>, j: nat)
    requires j < |tokens|
    ensures done + TokenItems(tokens[j..]) == done + [Token(tokens[j])] + TokenItems(tokens[j + 1..])
  {
    assert TokenItems(tokens[j..]) == [Token(tokens[j])] + TokenItems(tokens[j + 1..]);
  }

  lemma OneMoreRead(tables: Tables, done: seq<Item>, numbers: set<U32>, t: string)
    requires ReadSoFar(tables, done, numbers) && !Stops(tables, Token(t))
    ensures ReadSoFar(tables, done + [Token(t)], numbers + NumbersNamed(tables, t).value)
  {
    NumbersOfOneMore(tables, done, t);
  }

  lemma ReadAll(tables: Tables, items: seq<Item>, numbers: set<U32>)
    requires ReadSoFar(tables, items, numbers)
    ensures ParsedOf(tables, items) == Accepted(Numbers(numbers))
  {
    StopIsUnique(tables, items, |items|);
  }

  /** The numbers of one token, when there are any. */
  method Lookup(tables: Tables, token: string) returns (r: Option<set<U32>>)
    ensures r == NumbersNamed(tables, token)
  {
    var category := ParseCategory(tables.categories, Bare(token));
    if category.Some? {
      return Some(NumbersIn(tables.syscalls, category.value));
    }
    var info := FindByName(tables.syscalls, token);
    r := if info.Some? then Some({info.value.number}) else None;
  }

  /** The inner loop of `Filter::from_exprs`: the tokens of one expression, read after `done` and
      before `later`. */
  method ReadTokens(tables: Tables, tokens: seq<string>, read: set<U32>, ghost done: seq<Item>, ghost later: seq<Item>)
    returns (end: Option<Parsed>, numbers: set<U32>)
    requires ReadSoFar(tables, done, read)
    ensures end.Some? ==> end.value == ParsedOf(tables, done + TokenItems(tokens) + later)
    ensures end.None? ==> ReadSoFar(tables, done + TokenItems(tokens), numbers)
  {
    numbers := read;
    ghost var all, sofar := done + TokenItems(tokens) + later, done;
    assert tokens[0..] == tokens;
    for j := 0 to |tokens|
      invariant ReadSoFar(tables, sofar, numbers)
      invariant sofar + TokenItems(tokens[j..]) == done + TokenItems(tokens)
    {
      var token := tokens[j];
      ghost var rest := TokenItems(tokens[j + 1..]);
      NextToken(sofar, tokens, j);
      assert all == sofar + [Token(token)] + (rest + later);
      if SaysAll(token) {
        EndsHere(tables, all, sofar, Token(token), rest + later);
        return Some(Accepted(All)), numbers;
      }
      var named := Lookup(tables, token);
      if named.None? {
        EndsHere(tables, all, sofar, Token(token), rest + later);
        return Some(Refused(UnknownToken(token))), numbers;
      }
      OneMoreRead(tables, sofar, numbers, token);
      numbers := numbers + named.value;
      sofar := sofar + [Token(token)];
    }
    assert sofar == done + TokenItems(tokens);
    end := None;
  }

  /** `Filter::from_exprs`. */
  method FromExprs(tables: Tables, exprs: seq<string>) returns (r: Parsed)
    ensures r == Verdict(tables, exprs)
  {
    if exprs == [] {
      return Accepted(All);
    }
    var numbers: set<U32> := {};
    ghost var items, done: seq<Item> := Items(exprs), [];
    assert exprs[0..] == exprs;
    for i := 0 to |exprs|
      invariant ReadSoFar(tables, done, numbers)
      invariant done + Items(exprs[i..]) == items
    {
      ghost var later := Items(exprs[i + 1..]);
      NextExpression(exprs, i);
      assert items == done + ItemsOf(exprs[i]) + later;
      var split := SplitOnce(exprs[i], '=');
      if split.Some? && split.value.0 != "trace" {
        EndsHere(tables, items, done, BadQualifier(split.value.0), later);
        return Refused(UnsupportedQualifier(split.value.0));
      }
      var tokens := Tokens(if split.Some? then split.value.1 else exprs[i]);
      var end;
      end, numbers := ReadTokens(tables, tokens, numbers, done, later);
      if end.Some? {
        return end.value;
      }
      done := done + TokenItems(tokens);
    }
    assert done == items;
    ReadAll(tables, items, numbers);
    r := Accepted(Numbers(numbers));
  }

  // ---------------------------------------------------------------- what an accepted filter means

  /** The token is the name of category `c`, with or without a percent sign in front. */
  predicate IsCategory(c: string, token: string) {
    if |token| > 0 && token[0] == '%' then SameIgnoringCase(c, token[1..]) else SameIgnoringCase(c, token)
  }

  /** The `i`-th category is the one the token names. */
  predicate NamesCategory(tables: Tables, token: string, i: nat) {
    && i < |tables.categories| && IsCategory(tables.categories[i], token)
    && forall j :: 0 <= j < i ==> !IsCategory(tables.categories[j], token)
  }

  /** The `i`-th syscall is the one the token names. */
  predicate NamesSyscall(tables: Tables, token: string, i: nat) {
    && i < |tables.syscalls| && tables.syscalls[i].name == token
    && forall j :: 0 <= j < i ==> tables.syscalls[j].name != token
  }

  predicate NoCategory(tables: Tables, token: string) {
    forall c :: c in tables.categories ==> !IsCategory(c, token)
  }

  predicate NoSyscall(tables: Tables, token: string) {
    forall e :: e in tables.syscalls ==> e.name != token
  }

  /** The item asks for syscall number `nr`: through its category if it is the name of one, and
      otherwise through its own name. */
  ghost predicate AsksFor(tables: Tables, item: Item, nr: U64) {
    item.Token? &&
    if NoCategory(tables, item.text)
    then exists i: nat :: NamesSyscall(tables, item.text, i) && tables.syscalls[i].number == nr
    else exists i: nat, e :: NamesCategory(tables, item.text, i) && e in tables.syscalls
                        && e.category == tables.categories[i] && e.number == nr
  }

  lemma AsksForByCategory(tables: Tables, item: Item, nr: U64, i: nat)
    requires item.Token? && NamesCategory(tables, item.text, i)
    ensures AsksFor(tables, item, nr) <==>
              exists e :: e in tables.syscalls && e.category == tables.categories[i] && e.number == nr
  {
    assert tables.categories[i] in tables.categories;
    forall k: nat | NamesCategory(tables, item.text, k)
      ensures k == i
    {
      assert !(k < i) && !(i < k);
    }
  }

  lemma AsksForByName(tables: Tables, item: Item, nr: U64, i: nat)
    requires item.Token? && NoCategory(tables, item.text) && NamesSyscall(tables, item.text, i)
    ensures AsksFor(tables, item, nr) <==> tables.syscalls[i].number == nr
  {
    forall k: nat | NamesSyscall(tables, item.text, k)
      ensures k == i
    {
      assert !(k < i) && !(i < k);
    }
  }

  /** A token is unknown exactly if it is neither in the one table nor in the other. */
  lemma UnknownMeans(tables: Tables, token: string)
    ensures NumbersNamed(tables, token).None? <==> NoCategory(tables, token) && NoSyscall(tables, token)
  {
    var i := ParseCategoryFinds(tables.categories, Bare(token));
    var k := FindByNameFinds(tables.syscalls, token);
    if i < |tables.categories| {
      assert tables.categories[i] in tables.categories;
    } else if k < |tables.syscalls| {
      assert tables.syscalls[k] in tables.syscalls;
    }
  }

  lemma AsksForItsNumbers(tables: Tables, item: Item, nr: U64)
    requires !Stops(tables, item)
    ensures AsksFor(tables, item, nr) <==> nr in NumbersNamed(tables, item.text).value
  {
    var i := ParseCategoryFinds(tables.categories, Bare(item.text));
    var k := FindByNameFinds(tables.syscalls, item.text);
    if i < |tables.categories| {
      AsksForByCategory(tables, item, nr, i);
    } else {
      AsksForByName(tables, item, nr, k);
    }
  }

  /** An accepted list allows a number if and only if it is empty, says `all` somewhere, or asks
      for the number somewhere. */
  lemma AcceptedMeaning(tables: Tables, exprs: seq<string>, nr: U64)
    requires Verdict(tables, exprs).Accepted?
    ensures Allows(Verdict(tables, exprs).filter, nr)
       <==> exprs == [] || exists item :: item in Items(exprs) && (IsAll(item) || AsksFor(tables, item, nr))
  {
    var items := Items(exprs);
    if exprs != [] {
      var k := FirstStop(tables, items);
      if k < |items| {
        assert items[k] in items;
      } else {
        forall item | item in items
          ensures !Stops(tables, item)
          ensures AsksFor(tables, item, nr) <==> nr in NumbersNamed(tables, item.text).value
        {
          AsksForItsNumbers(tables, item, nr);
        }
      }
    }
  }

  /** A list is accepted if and only if no bad item comes before the first `all`. */
  lemma AcceptedWhen(tables: Tables, exprs: seq<string>)
    ensures Verdict(tables, exprs).Accepted? <==> NoBadBeforeAll(tables, Items(exprs))
  {
    ParsedWhen(tables, Items(exprs));
  }

  /** If it is refused, the error is that of the first bad item. */
  lemma RefusedBecause(tables: Tables, exprs: seq<string>, i: nat)
    requires Verdict(tables, exprs).Refused?
    requires i < |Items(exprs)| && IsBad(tables, Items(exprs)[i])
    requires forall j :: 0 <= j < i ==> !IsBad(tables, Items(exprs)[j])
    ensures Verdict(tables, exprs) == Refused(match Items(exprs)[i]
                                              case BadQualifier(q) => UnsupportedQualifier(q)
                                              case Token(t) => UnknownToken(t))
  {
    var items := Items(exprs);
    var k := FirstStop(tables, items);
    assert k < |items| && IsBad(tables, items[k]);
    assert Stops(tables, items[i]);
    assert k == i;
  }

  ghost predicate NoBadBeforeAll(tables: Tables, items: seq<Item>) {
    forall i :: 0 <= i < |items| && IsBad(tables, items[i]) ==> exists j :: 0 <= j < i && IsAll(items[j])
  }

  lemma ParsedWhen(tables: Tables, items: seq<Item>)
    ensures ParsedOf(tables, items).Accepted? <==> NoBadBeforeAll(tables, items)
  {
    var k := FirstStop(tables, items);
    if ParsedOf(tables, items).Accepted? {
      forall i | 0 <= i < |items| && IsBad(tables, items[i])
        ensures exists j :: 0 <= j < i && IsAll(items[j])
      {
        assert Stops(tables, items[i]);
        assert k < i && IsAll(items[k]);
      }
    } else {
      assert IsBad(tables, items[k]);
      assert forall j :: 0 <= j < k ==> !Stops(tables, items[j]);
    }
  }

  /** Two accepted lists with the same items allow the same numbers, whatever their order. */
  lemma ReorderingsAgree(tables: Tables, a: seq<string>, b: seq<string>, nr: U64)
    requires Verdict(tables, a).Accepted? && Verdict(tables, b).Accepted? && (a == [] <==> b == [])
    requires forall item :: item in Items(a) <==> item in Items(b)
    ensures Allows(Verdict(tables, a).filter, nr) <==> Allows(Verdict(tables, b).filter, nr)
  {
    AcceptedMeaning(tables, a, nr);
    AcceptedMeaning(tables, b, nr);
  }

  /** Without an `all`, order does not even matter for being accepted, and no number beyond the
      table passes. */
  lemma WithoutAll(tables: Tables, a: seq<string>, b: seq<string>, nr: U64)
    requires a != [] && b != [] && forall item :: item in Items(a) <==> item in Items(b)
    requires forall item :: item in Items(a) ==> !IsAll(item)
    ensures Verdict(tables, a).Accepted? <==> Verdict(tables, b).Accepted?
    ensures Verdict(tables, a).Accepted? && Allows(Verdict(tables, a).filter, nr)
        ==> exists e :: e in tables.syscalls && e.number == nr
  {
    SameBad(tables, Items(a), Items(b));
    ParsedWhen(tables, Items(a));
    ParsedWhen(tables, Items(b));
    if Verdict(tables, a).Accepted? && Allows(Verdict(tables, a).filter, nr) {
      AcceptedMeaning(tables, a, nr);
      var item :| item in Items(a) && AsksFor(tables, item, nr);
      AsksForListed(tables, item, nr);
    }
  }

  lemma AsksForListed(tables: Tables, item: Item, nr: U64)
    requires AsksFor(tables, item, nr)
    ensures exists e :: e in tables.syscalls && e.number == nr
  {
    if NoCategory(tables, item.text) {
      var i: nat :| NamesSyscall(tables, item.text, i) && tables.syscalls[i].number == nr;
      assert tables.syscalls[i] in tables.syscalls;
    }
  }

  lemma SameBad(tables: Tables, a: seq<Item>, b: seq<Item>)
    requires forall item :: item in a <==> item in b
    requires forall item :: item in a ==> !IsAll(item)
    ensures NoBadBeforeAll(tables, a) <==> NoBadBeforeAll(tables, b)
  {
    NoBadWithoutAll(tables, a);
    NoBadWithoutAll(tables, b);
  }

  lemma NoBadWithoutAll(tables: Tables, items: seq<Item>)
    requires forall item :: item in items ==> !IsAll(item)
    ensures NoBadBeforeAll(tables, items) <==> forall item :: item in items ==> !IsBad(tables, item)
  {
    forall i | 0 <= i < |items|
      ensures !IsAll(items[i])
    {
      assert items[i] in items;
    }
  }

  /** With an `all`, being accepted does depend on the order. */
  lemma OrderDecidesAcceptance(tables: Tables)
    ensures Verdict(tables, ["all", "x=1"]) == Accepted(All)
    ensures Verdict(tables, ["x=1", "all"]) == Refused(UnsupportedQualifier("x"))
    ensures multiset(["all", "x=1"]) == multiset(["x=1", "all"])
  {
    var all, bad := "all", "x=1";
    ItemsOfAll();
    ItemsOfBad();
    TwoExpressions(all, bad);
    TwoExpressions(bad, all);
    assert [Token("all")] + [BadQualifier("x")] == [] + [Token("all")] + [BadQualifier("x")];
    EndsHere(tables, Items([all, bad]), [], Token("all"), [BadQualifier("x")]);
    EndsHere(tables, Items([bad, all]), [], BadQualifier("x"), [Token("all")]);
  }

  lemma ItemsOfAll()
    ensures ItemsOf("all") == [Token("all")]
  {
    var all := "all";
    SplitOne(all, ',');
    FlatMapOne(TokenIn, all);
    assert Trim(all) == all;
  }

  lemma ItemsOfBad()
    ensures ItemsOf("x=1") == [BadQualifier("x")]
  {
    SplitOnceAt("x", "1", '=');
    assert "x=1" == "x" + ['='] + "1";
  }

  lemma TwoExpressions(a: string, b: string)
    ensures Items([a, b]) == ItemsOf(a) + ItemsOf(b)
  {
    FlatMapAppends(ItemsOf, [a], [b]);
    FlatMapOne(ItemsOf, a);
    FlatMapOne(ItemsOf, b);
    assert [a] + [b] == [a, b];
  }

  // ---------------------------------------------------------------- commas and repeated expressions

  lemma {:induction false} SplitOnceAt(a: string, b: string, sep: char)
    requires sep !in a
    ensures SplitOnce(a + [sep] + b, sep) == Some((a, b))
  {
    var s := a + [sep] + b;
    if |a| == 0 {
      assert s == [sep] + b && s[1..] == b;
    } else {
      SplitOnceAt(a[1..], b, sep);
      assert s[1..] == a[1..] + [sep] + b;
      assert a == [a[0]] + a[1..];
    }
  }

  lemma {:induction false} SplitOnceAppends(a: string, b: string, sep: char)
    ensures sep in a ==>
      && SplitOnce(a, sep).Some?
      && SplitOnce(a + b, sep) == Some((SplitOnce(a, sep).value.0, SplitOnce(a, sep).value.1 + b))
  {
    if |a| > 0 {
      assert (a + b)[1..] == a[1..] + b;
      if a[0] != sep {
        SplitOnceAppends(a[1..], b, sep);
        assert sep in a ==> sep in a[1..];
      }
    }
  }

  /** `-e a,b` is `-e a -e b`, as long as `b` brings no qualifier of its own. */
  lemma CommaIsAnotherExpression(tables: Tables, before: seq<string>, a: string, b: string, after: seq<string>)
    requires '=' !in b
    ensures Verdict(tables, before + [a + "," + b] + after) == Verdict(tables, before + [a, b] + after)
  {
    var head, tail := Items(before), Items(after);
    ItemsAround(before, [a + "," + b], after);
    ItemsAround(before, [a, b], after);
    FlatMapOne(ItemsOf, a + "," + b);
    TwoExpressions(a, b);
    CommaItems(a, b);
    if ItemsOf(a + "," + b) != ItemsOf(a) + ItemsOf(b) {
      BadEndsEither(tables, head, ItemsOf(a), ItemsOf(b), tail);
    }
  }

  lemma ItemsAround(before: seq<string>, middle: seq<string>, after: seq<string>)
    ensures Items(before + middle + after) == Items(before) + Items(middle) + Items(after)
  {
    FlatMapAppends(ItemsOf, before + middle, after);
    FlatMapAppends(ItemsOf, before, middle);
  }

  lemma BadEndsEither(tables: Tables, head: seq<Item>, bad: seq<Item>, x: seq<Item>, tail: seq<Item>)
    requires |bad| == 1 && bad[0].BadQualifier?
    ensures ParsedOf(tables, head + bad + tail) == ParsedOf(tables, head + (bad + x) + tail)
  {
    BadEndsAll(tables, head, bad[0], tail, x + tail);
    assert [bad[0]] == bad && head + bad + (x + tail) == head + (bad + x) + tail;
  }

  lemma CommaItems(a: string, b: string)
    requires '=' !in b
    ensures || ItemsOf(a + "," + b) == ItemsOf(a) + ItemsOf(b)
            || (|ItemsOf(a)| == 1 && ItemsOf(a)[0].BadQualifier? && ItemsOf(a + "," + b) == ItemsOf(a))
  {
    assert a + "," + b == a + ("," + b);
    if '=' !in a {
      TokensAppend(a, b);
    } else {
      SplitOnceAppends(a, "," + b, '=');
      var rest := SplitOnce(a, '=').value.1;
      assert rest + ("," + b) == rest + "," + b;
      TokensAppend(rest, b);
    }
  }

  lemma TokensAppend(a: string, b: string)
    ensures TokenItems(Tokens(a + "," + b)) == TokenItems(Tokens(a)) + TokenItems(Tokens(b))
  {
    SplitAppends(a, b, ',');
    FlatMapAppends(TokenIn, Split(a, ','), Split(b, ','));
  }

  /** Nothing after a bad item matters. */
  lemma BadEndsAll(tables: Tables, head: seq<Item>, q: Item, x: seq<Item>, y: seq<Item>)
    requires q.BadQualifier?
    ensures ParsedOf(tables, head + [q] + x) == ParsedOf(tables, head + [q] + y)
  {
    var k := FirstStop(tables, head + [q]);
    assert (head + [q])[|head|] == q;
    var a, b := head + [q] + x, head + [q] + y;
    assert forall i :: 0 <= i <= |head| ==> a[i] == (head + [q])[i] == b[i];
    StopIsUnique(tables, a, k);
    StopIsUnique(tables, b, k);
  }

  // ---------------------------------------------------------------- writing a filter down

  function JoinTokens(tokens: seq<string>): string {
    if |tokens| == 0 then "" else if |tokens| == 1 then tokens[0] else tokens[0] + "," + JoinTokens(tokens[1..])
  }

  predicate Writable(t: string) {
    t != "" && Tidy(t) && ',' !in t
  }

  /** Between the commas the pieces count, each without the spaces around it. */
  lemma {:induction false} TokensPieceByPiece(pieces: seq<string>)
    requires |pieces| > 0 && forall i :: 0 <= i < |pieces| ==> ',' !in pieces[i]
    ensures Tokens(JoinTokens(pieces)) == FlatMap(TokenIn, pieces)
  {
    var t := pieces[0];
    if |pieces| == 1 {
      SplitOne(t, ',');
      assert pieces == [t];
    } else {
      var rest := JoinTokens(pieces[1..]);
      SplitToken(t, rest, ',');
      FlatMapOne(TokenIn, t);
      FlatMapAppends(TokenIn, [t], Split(rest, ','));
      TokensPieceByPiece(pieces[1..]);
      FlatMapAppends(TokenIn, [t], pieces[1..]);
      assert pieces == [t] + pieces[1..];
    }
  }

  /** A piece is the token between its spaces, or no token at all. */
  lemma PieceMeans(before: string, t: string, after: string)
    requires AllSpaces(before) && AllSpaces(after) && Tidy(t)
    ensures TokenIn(before + t + after) == if t == "" then [] else [t]
  {
    TrimTakesSpaces(before, t, after);
  }

  lemma {:induction false} TokensReadBack(tokens: seq<string>)
    requires forall i :: 0 <= i < |tokens| ==> Writable(tokens[i])
    ensures Tokens(JoinTokens(tokens)) == tokens
  {
    if |tokens| == 0 {
      SplitToken("", "", ',');
      FlatMapOne(TokenIn, "");
    } else {
      var t, rest := tokens[0], JoinTokens(tokens[1..]);
      SplitToken(t, rest, ',');
      FlatMapOne(TokenIn, t);
      FlatMapAppends(TokenIn, [t], Split(rest, ','));
      TokensReadBack(tokens[1..]);
      assert tokens == [t] + tokens[1..];
    }
  }

  /** The names of some lines of the table. */
  function NamesOf(wanted: seq<SyscallInfo>): (names: seq<string>)
    ensures |names| == |wanted| && forall i :: 0 <= i < |names| ==> names[i] == wanted[i].name
  {
    seq(|wanted|, i requires 0 <= i < |wanted| => wanted[i].name)
  }

  lemma TraceItems(spec: string, rest: string)
    requires spec == "trace" + ['='] + rest
    ensures Items([spec]) == TokenItems(Tokens(rest))
  {
    SplitOnceAt("trace", rest, '=');
    FlatMapOne(ItemsOf, spec);
  }

  /** No category and not `all`: a token that can only mean this syscall. */
  predicate OnlyItself(tables: Tables, e: SyscallInfo) {
    && e in tables.syscalls && Writable(e.name) && !SaysAll(e.name)
    && NoCategory(tables, e.name)
  }

  lemma NameAsksForItself(tables: Tables, e: SyscallInfo, nr: U64)
    requires UniqueNames(tables) && OnlyItself(tables, e)
    ensures !Stops(tables, Token(e.name)) && (AsksFor(tables, Token(e.name), nr) <==> e.number == nr)
  {
    UnknownMeans(tables, e.name);
    var i := FindByNameFinds(tables.syscalls, e.name);
    assert tables.syscalls[i] in tables.syscalls;
    AsksForByName(tables, Token(e.name), nr, i);
  }

  predicate UniqueNames(tables: Tables) {
    forall x, y :: x in tables.syscalls && y in tables.syscalls && x.name == y.name ==> x == y
  }

  /** What is written from names is read as the tokens that were meant. */
  lemma WrittenItems(names: seq<string>, text: string, exprs: seq<string>)
    requires forall i :: 0 <= i < |names| ==> Writable(names[i])
    requires text == JoinTokens(names) && exprs == ["trace" + ['='] + text]
    ensures Items(exprs) == TokenItems(names)
  {
    TokensReadBack(names);
    TraceItems(exprs[0], text);
  }

  lemma WantedItems(tables: Tables, wanted: seq<SyscallInfo>, nr: U64)
    requires UniqueNames(tables) && forall e :: e in wanted ==> OnlyItself(tables, e)
    ensures var items := TokenItems(NamesOf(wanted));
      && (forall i :: 0 <= i < |items| ==> Writable(NamesOf(wanted)[i]) && !Stops(tables, items[i]))
      && forall i :: 0 <= i < |items| ==> (AsksFor(tables, items[i], nr) <==> wanted[i].number == nr)
  {
    forall i | 0 <= i < |wanted|
      ensures OnlyItself(tables, wanted[i])
      ensures !Stops(tables, Token(wanted[i].name))
      ensures AsksFor(tables, Token(wanted[i].name), nr) <==> wanted[i].number == nr
    {
      assert wanted[i] in wanted;
      NameAsksForItself(tables, wanted[i], nr);
    }
  }

  /** Some item asks for the number exactly if some line wanted has it. */
  lemma SomeItemAsks(tables: Tables, wanted: seq<SyscallInfo>, nr: U64)
    requires UniqueNames(tables) && forall e :: e in wanted ==> OnlyItself(tables, e)
    ensures (exists item :: item in TokenItems(NamesOf(wanted)) && (IsAll(item) || AsksFor(tables, item, nr)))
       <==> exists e :: e in wanted && e.number == nr
  {
    var items := TokenItems(NamesOf(wanted));
    WantedItems(tables, wanted, nr);
    if item :| item in items && (IsAll(item) || AsksFor(tables, item, nr)) {
      var i :| 0 <= i < |items| && items[i] == item;
      assert wanted[i] in wanted && wanted[i].number == nr;
    }
    if e :| e in wanted && e.number == nr {
      var i :| 0 <= i < |wanted| && wanted[i] == e;
      assert items[i] in items;
    }
  }

  /** Every set of syscalls can be asked for by name: the filter written from a list of names allows
      exactly their numbers. */
  lemma NamesRoundTrip(tables: Tables, wanted: seq<SyscallInfo>, nr: U64)
    requires UniqueNames(tables) && forall e :: e in wanted ==> OnlyItself(tables, e)
    ensures var parsed := Verdict(tables, ["trace=" + JoinTokens(NamesOf(wanted))]);
            parsed.Accepted? && (Allows(parsed.filter, nr) <==> exists e :: e in wanted && e.number == nr)
  {
    var names := NamesOf(wanted);
    var exprs := ["trace=" + JoinTokens(names)];
    WantedItems(tables, wanted, nr);
    assert "trace=" + JoinTokens(names) == "trace" + ['='] + JoinTokens(names);
    WrittenItems(names, JoinTokens(names), exprs);
    ParsedWhen(tables, TokenItems(names));
    SomeItemAsks(tables, wanted, nr);
    AcceptedMeaning(tables, exprs, nr);
  }
}
