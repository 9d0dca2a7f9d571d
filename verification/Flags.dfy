/** `crates/syren-decode/src/flags.rs`: printing flag words, and what the text still says. */
module FlagText {
  import opened Common
  import opened Text

  /** A 64-bit word, as the set of the positions of its set bits: `&` is `*`, `|` is `+`,
      and `x & !y` is `x - y`. */
  type Word = w: set<nat> | forall i :: i in w ==> i < 64

  /** The number a word stands for, from bit `64 - k` upwards. */
  function Num(w: set<nat>, k: nat): nat
    requires k <= 64
  {
    if k == 0 then 0 else (if 64 - k in w then 1 else 0) + 2 * Num(w, k - 1)
  }

  function BitsFrom(n: nat, k: nat): set<nat>
    requires k <= 64
  {
    if k == 0 then {} else (if n % 2 == 1 then {64 - k} else {}) + BitsFrom(n / 2, k - 1)
  }

  function Number(w: Word): nat {
    Num(w, 64)
  }

  function WordOf(n: nat): (w: Word)
  {
    BitsInRange(n, 64);
    BitsFrom(n, 64)
  }

  lemma {:induction false} BitsInRange(n: nat, k: nat)
    requires k <= 64
    ensures forall i :: i in BitsFrom(n, k) ==> 64 - k <= i < 64
  {
    if k > 0 {
      BitsInRange(n / 2, k - 1);
    }
  }

  lemma {:induction false} BitsOfNum(w: Word, k: nat)
    requires k <= 64
    ensures BitsFrom(Num(w, k), k) == set i | i in w && 64 - k <= i
  {
    if k > 0 {
      BitsOfNum(w, k - 1);
    }
  }

  lemma {:induction false} NumOfBits(n: nat, k: nat, w: set<nat>)
    requires k <= 64 && n < Pow2(k)
    requires forall i :: 64 - k <= i < 64 ==> (i in w <==> i in BitsFrom(n, k))
    ensures Num(w, k) == n
  {
    if k > 0 {
      BitsInRange(n / 2, k - 1);
      NumOfBits(n / 2, k - 1, w);
    }
  }

  function Pow2(k: nat): nat {
    if k == 0 then 1 else 2 * Pow2(k - 1)
  }

  lemma Pow2Of64()
    ensures Pow2(64) == TWO64
  {
    assert Pow2(8) == 0x100;
    assert Pow2(16) == 0x1_0000;
    assert Pow2(24) == 0x100_0000;
    assert Pow2(32) == TWO32;
    assert Pow2(40) == 0x100 * TWO32;
    assert Pow2(48) == 0x1_0000 * TWO32;
    assert Pow2(56) == 0x100_0000 * TWO32;
  }

  lemma {:induction false} NumFits(w: set<nat>, k: nat)
    requires k <= 64
    ensures Num(w, k) < Pow2(k)
  {
    if k > 0 {
      NumFits(w, k - 1);
    }
  }

  /** Words and 64-bit numbers are the same thing. */
  lemma WordsAreNumbers(w: Word, n: nat)
    ensures WordOf(Number(w)) == w && Number(w) < Pow2(64)
    ensures n < Pow2(64) ==> Number(WordOf(n)) == n
  {
    BitsOfNum(w, 64);
    NumFits(w, 64);
    if n < Pow2(64) {
      NumOfBits(n, 64, BitsFrom(n, 64));
    }
  }

  /** A named bit, or a named group of bits. */
  datatype Flag = Flag(name: string, bits: Word)

  /** `OPEN_FLAGS`: the last two contain O_DSYNC and O_DIRECTORY. */
  const OPEN_FLAGS: seq<Flag> := [
    Flag("O_CREAT", {6}),
    Flag("O_EXCL", {7}),
    Flag("O_NOCTTY", {8}),
    Flag("O_TRUNC", {9}),
    Flag("O_APPEND", {10}),
    Flag("O_NONBLOCK", {11}),
    Flag("O_DSYNC", {12}),
    Flag("O_ASYNC", {13}),
    Flag("O_DIRECT", {14}),
    Flag("O_LARGEFILE", {15}),
    Flag("O_DIRECTORY", {16}),
    Flag("O_NOFOLLOW", {17}),
    Flag("O_NOATIME", {18}),
    Flag("O_CLOEXEC", {19}),
    Flag("O_PATH", {21}),
    Flag("O_SYNC", {12, 20}),
    Flag("O_TMPFILE", {16, 22})]

  const PROT_FLAGS: seq<Flag> := [
    Flag("PROT_READ", {0}),
    Flag("PROT_WRITE", {1}),
    Flag("PROT_EXEC", {2}),
    Flag("PROT_SEM", {3}),
    Flag("PROT_GROWSDOWN", {24}),
    Flag("PROT_GROWSUP", {25})]

  const MAP_FLAGS: seq<Flag> := [
    Flag("MAP_SHARED", {0}),
    Flag("MAP_PRIVATE", {1}),
    Flag("MAP_FIXED", {4}),
    Flag("MAP_ANONYMOUS", {5}),
    Flag("MAP_32BIT", {6}),
    Flag("MAP_GROWSDOWN", {8}),
    Flag("MAP_DENYWRITE", {11}),
    Flag("MAP_EXECUTABLE", {12}),
    Flag("MAP_LOCKED", {13}),
    Flag("MAP_NORESERVE", {14}),
    Flag("MAP_POPULATE", {15}),
    Flag("MAP_NONBLOCK", {16}),
    Flag("MAP_STACK", {17}),
    Flag("MAP_HUGETLB", {18}),
    Flag("MAP_SYNC", {19}),
    Flag("MAP_FIXED_NOREPLACE", {20})]

  // ---------------------------------------------------------------- printing

  predicate IsPresent(f: Flag, value: Word) {
    f.bits != {} && f.bits <= value
  }

  /** `decode_bits`: the flags wholly present, in table order. */
  function Present(table: seq<Flag>, value: Word): seq<Flag> {
    if table == [] then []
    else (if IsPresent(table[0], value) then [table[0]] else []) + Present(table[1..], value)
  }

  function Names(flags: seq<Flag>): (names: seq<string>)
    ensures |names| == |flags| && forall i :: 0 <= i < |flags| ==> names[i] == flags[i].name
  {
    seq(|flags|, i requires 0 <= i < |flags| => flags[i].name)
  }

  /** The union of the bits of some flags (`covered`, for a whole table). */
  function Union(flags: seq<Flag>): Word {
    if flags == [] then {} else flags[0].bits + Union(flags[1..])
  }

  function JoinBar(tokens: seq<string>): string {
    if tokens == [] then "" else if |tokens| == 1 then tokens[0] else tokens[0] + "|" + JoinBar(tokens[1..])
  }

  function HexBits(value: Word): string {
    Hex(Number(value))
  }

  function Leftover(table: seq<Flag>, value: Word): seq<string> {
    var leftover := value - Union(table);
    if leftover == {} then [] else [HexBits(leftover)]
  }

  function RenderSet(table: seq<Flag>, value: Word, zero: string): string {
    if value == {} then zero
    else
      var named := Names(Present(table, value));
      if named == [] then HexBits(value) else JoinBar(named + Leftover(table, value))
  }

  /** `join`: a mandatory leading token, the flags, and any leftover bits. */
  function JoinLead(lead: string, named: seq<string>, masked: Word, table: seq<Flag>): string {
    JoinBar([lead] + named + Leftover(table, masked))
  }

  const OPEN_MODES: seq<Flag> := [
    Flag("O_RDONLY", {}), Flag("O_WRONLY", {0}), Flag("O_RDWR", {1}), Flag("O_ACCMODE", {0, 1})]

  function OpenMode(value: Word): Flag {
    var mode := value * {0, 1};
    if mode == {} then OPEN_MODES[0] else if mode == {0} then OPEN_MODES[1]
    else if mode == {1} then OPEN_MODES[2] else OPEN_MODES[3]
  }

  function RenderOpen(value: Word): string {
    var masked := value - {0, 1};
    JoinLead(OpenMode(value).name, Names(Present(OPEN_FLAGS, masked)), masked, OPEN_FLAGS)
  }

  const MAP_VALIDATE := Flag("MAP_SHARED_VALIDATE", {0, 1})

  function MapKind(value: Word): Option<Flag> {
    var kind := value * {0, 1, 2, 3};
    if kind == {0} then Some(MAP_FLAGS[0]) else if kind == {1} then Some(MAP_FLAGS[1])
    else if kind == {0, 1} then Some(MAP_VALIDATE) else None
  }

  function MapText(table: seq<Flag>, kind: Option<Flag>, value: Word): string {
    var masked := value - {0, 1, 2, 3};
    match kind
    case Some(k) => JoinLead(k.name, Names(Present(table, masked)), masked, table)
    case None => RenderSet(table, value, "0")
  }

  function RenderMap(value: Word): string {
    MapText(MAP_FLAGS, MapKind(value), value)
  }

  /** `join` in the form it has in the source. */
  method Join(lead: string, named: seq<string>, masked: Word, table: seq<Flag>) returns (out: string)
    ensures out == JoinLead(lead, named, masked, table)
  {
    out := lead;
    for i := 0 to |named|
      invariant out == JoinBar([lead] + named[..i])
    {
      JoinBarAppend([lead] + named[..i], named[i]);
      assert [lead] + named[..i + 1] == [lead] + named[..i] + [named[i]];
      out := out + "|" + named[i];
    }
    assert named[..|named|] == named;
    var leftover := masked - Union(table);
    if leftover != {} {
      JoinBarAppend([lead] + named, HexBits(leftover));
      out := out + "|" + HexBits(leftover);
    } else {
      assert [lead] + named + [] == [lead] + named;
    }
  }

  lemma {:induction false} JoinBarAppend(tokens: seq<string>, t: string)
    requires tokens != []
    ensures JoinBar(tokens + [t]) == JoinBar(tokens) + "|" + t
  {
    if |tokens| == 1 {
      assert (tokens + [t])[1..] == [t];
    } else {
      JoinBarAppend(tokens[1..], t);
      assert (tokens + [t])[1..] == tokens[1..] + [t];
      assert tokens[0] + "|" + (JoinBar(tokens[1..]) + "|" + t) == tokens[0] + "|" + JoinBar(tokens[1..]) + "|" + t;
    }
  }

  // ---------------------------------------------------------------- reading the text back

  lemma {:induction false} SplitsJoined(tokens: seq<string>)
    requires tokens != [] && forall i :: 0 <= i < |tokens| ==> '|' !in tokens[i]
    ensures Split(JoinBar(tokens), '|') == tokens
  {
    SplitToken(tokens[0], JoinBar(tokens[1..]), '|');
    if |tokens| > 1 {
      SplitsJoined(tokens[1..]);
    }
  }

  function Lookup(dict: seq<Flag>, name: string): Option<Word> {
    if dict == [] then None
    else if dict[0].name == name then Some(dict[0].bits)
    else Lookup(dict[1..], name)
  }

  function TokenBits(dict: seq<Flag>, t: string): Option<Word> {
    if |t| >= 2 && t[..2] == "0x"
    then
      var n := HexValue(t[2..]);
      if n.Some? && n.value < TWO64 then Some(WordOf(n.value)) else None
    else if t == "0" then Some({})
    else Lookup(dict, t)
  }

  function OrAll(dict: seq<Flag>, tokens: seq<string>): Option<Word> {
    if tokens == [] then Some({})
    else
      var first, rest := TokenBits(dict, tokens[0]), OrAll(dict, tokens[1..]);
      if first.None? || rest.None? then None else Some(first.value + rest.value)
  }

  /** What a reader of the trace gets out of a printed flag word. */
  function Parse(dict: seq<Flag>, text: string): Option<Word> {
    OrAll(dict, Split(text, '|'))
  }

  // ---------------------------------------------------------------- tables a reader can use

  predicate NameChar(c: char) {
    'A' <= c <= 'Z' || '0' <= c <= '9' || c == '_'
  }

  predicate GoodName(name: string) {
    name != "" && name[0] != '0' && forall i :: 0 <= i < |name| ==> NameChar(name[i])
  }

  ghost predicate GoodTable(dict: seq<Flag>) {
    && (forall i, j :: 0 <= i < j < |dict| ==> dict[i].name != dict[j].name)
    && forall i :: 0 <= i < |dict| ==> GoodName(dict[i].name)
  }

  lemma {:induction false} LookupFinds(dict: seq<Flag>, i: nat)
    requires i < |dict| && forall j, k :: 0 <= j < k < |dict| ==> dict[j].name != dict[k].name
    ensures Lookup(dict, dict[i].name) == Some(dict[i].bits)
  {
    if i > 0 {
      LookupFinds(dict[1..], i - 1);
    }
  }

  lemma NameTokenReads(dict: seq<Flag>, f: Flag)
    requires GoodTable(dict) && f in dict
    ensures TokenBits(dict, f.name) == Some(f.bits) && '|' !in f.name
  {
    var i :| 0 <= i < |dict| && dict[i] == f;
    LookupFinds(dict, i);
    assert GoodName(f.name);
    if |f.name| >= 2 {
      assert f.name[..2][0] == f.name[0] && "0x"[0] == '0';
    }
  }

  lemma HexTokenReads(dict: seq<Flag>, value: Word)
    ensures TokenBits(dict, HexBits(value)) == Some(value) && '|' !in HexBits(value)
  {
    var n := Number(value);
    WordsAreNumbers(value, 0);
    Pow2Of64();
    HexReadsBack(n);
    HexIsPlain(n);
    assert HexBits(value)[..2] == "0x" && HexBits(value)[2..] == HexDigits(n);
  }

  lemma {:induction false} OrAllSplits(dict: seq<Flag>, a: seq<string>, b: seq<string>)
    requires OrAll(dict, a).Some? && OrAll(dict, b).Some?
    ensures OrAll(dict, a + b) == Some(OrAll(dict, a).value + OrAll(dict, b).value)
  {
    if a == [] {
      assert a + b == b;
      assert {} + OrAll(dict, b).value == OrAll(dict, b).value;
    } else {
      OrAllSplits(dict, a[1..], b);
      assert (a + b)[1..] == a[1..] + b;
      var x, y, z := TokenBits(dict, a[0]).value, OrAll(dict, a[1..]).value, OrAll(dict, b).value;
      assert x + (y + z) == (x + y) + z;
    }
  }

  lemma {:induction false} NamesRead(dict: seq<Flag>, flags: seq<Flag>)
    requires GoodTable(dict) && forall f :: f in flags ==> f in dict
    ensures OrAll(dict, Names(flags)) == Some(Union(flags))
    ensures forall i :: 0 <= i < |flags| ==> '|' !in Names(flags)[i]
  {
    if flags != [] {
      NamesRead(dict, flags[1..]);
      NameTokenReads(dict, flags[0]);
      assert Names(flags)[1..] == Names(flags[1..]);
    }
  }

  lemma {:induction false} PresentIsPart(table: seq<Flag>, value: Word)
    ensures forall f :: f in Present(table, value) <==> f in table && IsPresent(f, value)
  {
    if table != [] {
      PresentIsPart(table[1..], value);
    }
  }

  lemma LeftoverReads(dict: seq<Flag>, table: seq<Flag>, value: Word)
    ensures OrAll(dict, Leftover(table, value)) == Some(value - Union(table))
    ensures forall i :: 0 <= i < |Leftover(table, value)| ==> '|' !in Leftover(table, value)[i]
  {
    var l := Leftover(table, value);
    HexTokenReads(dict, value - Union(table));
    if l != [] {
      assert l[1..] == [];
      assert value - Union(table) + {} == value - Union(table);
    }
  }

  /** What survives printing: the bits of the flags wholly present, and the leftover. */
  function Kept(table: seq<Flag>, value: Word): Word {
    Union(Present(table, value)) + (value - Union(table))
  }

  lemma LeadTokens(dict: seq<Flag>, table: seq<Flag>, lead: Flag, masked: Word)
    requires GoodTable(dict) && lead in dict && forall f :: f in table ==> f in dict
    ensures Split(JoinLead(lead.name, Names(Present(table, masked)), masked, table), '|')
         == [lead.name] + Names(Present(table, masked)) + Leftover(table, masked)
  {
    PresentIsPart(table, masked);
    NamesRead(dict, Present(table, masked));
    LeftoverReads(dict, table, masked);
    NameTokenReads(dict, lead);
    SplitsJoined([lead.name] + Names(Present(table, masked)) + Leftover(table, masked));
  }

  lemma JoinLeadReads(dict: seq<Flag>, table: seq<Flag>, lead: Flag, masked: Word)
    requires GoodTable(dict) && lead in dict && forall f :: f in table ==> f in dict
    ensures Parse(dict, JoinLead(lead.name, Names(Present(table, masked)), masked, table))
         == Some(lead.bits + Kept(table, masked))
  {
    var named, left := Names(Present(table, masked)), Leftover(table, masked);
    PresentIsPart(table, masked);
    NamesRead(dict, Present(table, masked));
    LeftoverReads(dict, table, masked);
    NameTokenReads(dict, lead);
    OrAllSplits(dict, named, left);
    var tokens := [lead.name] + named + left;
    assert tokens[0] == lead.name && tokens[1..] == named + left;
    LeadTokens(dict, table, lead, masked);
  }

  lemma SetReads(dict: seq<Flag>, table: seq<Flag>, value: Word, zero: string)
    requires GoodTable(dict) && forall f :: f in table ==> f in dict
    requires Parse(dict, zero) == Some({})
    ensures Parse(dict, RenderSet(table, value, zero))
         == Some(if Present(table, value) == [] then value else Kept(table, value))
  {
    var named, left := Names(Present(table, value)), Leftover(table, value);
    PresentIsPart(table, value);
    NamesRead(dict, Present(table, value));
    LeftoverReads(dict, table, value);
    HexTokenReads(dict, value);
    if value == {} {
      assert Present(table, value) != [] ==> IsPresent(Present(table, value)[0], value);
    } else if named == [] {
      SplitToken(HexBits(value), "", '|');
      assert [HexBits(value)][1..] == [];
      assert value + {} == value;
    } else {
      OrAllSplits(dict, named, left);
      SplitsJoined(named + left);
    }
  }

  // ---------------------------------------------------------------- what printing loses

  lemma {:induction false} UnionMembers(flags: seq<Flag>, i: nat)
    ensures i in Union(flags) <==> exists f :: f in flags && i in f.bits
  {
    if flags != [] {
      UnionMembers(flags[1..], i);
      if i in flags[0].bits {
        assert flags[0] in flags;
      }
    }
  }

  /** For any table: the decoded bits and the leftover together never add a bit, and what they lack
      are exactly the set bits the table can name but that lie in no flag wholly present. */
  lemma LosesExactly(table: seq<Flag>, value: Word)
    ensures Kept(table, value) <= value
    ensures forall i :: i in value - Kept(table, value) <==>
              i in value && (exists f :: f in table && i in f.bits)
              && !exists f :: f in table && IsPresent(f, value) && i in f.bits
  {
    PresentIsPart(table, value);
    forall i
      ensures i in Kept(table, value) ==> i in value
      ensures i in value - Kept(table, value) <==>
              i in value && (exists f :: f in table && i in f.bits)
              && !exists f :: f in table && IsPresent(f, value) && i in f.bits
    {
      UnionMembers(table, i);
      UnionMembers(Present(table, value), i);
    }
  }

  predicate Single(w: Word) {
    exists i :: i in w && w == {i}
  }

  /** A table of single bits loses nothing. */
  lemma SinglesLoseNothing(table: seq<Flag>, value: Word)
    requires forall f :: f in table ==> Single(f.bits)
    ensures Kept(table, value) == value
  {
    LosesExactly(table, value);
    forall i | i in value
      ensures i in Kept(table, value)
    {
      if f :| f in table && i in f.bits {
        assert IsPresent(f, value);
      }
    }
  }

  // ---------------------------------------------------------------- the three tables

  lemma GoodAppend(a: seq<Flag>, b: seq<Flag>)
    requires GoodTable(a) && GoodTable(b)
    requires forall i, j :: 0 <= i < |a| && 0 <= j < |b| ==> a[i].name != b[j].name
    ensures GoodTable(a + b)
  {
    forall i, j | 0 <= i < j < |a + b|
      ensures (a + b)[i].name != (a + b)[j].name
    {
      if i < |a| <= j {
        assert a[i].name != b[j - |a|].name;
      }
    }
  }

  lemma ProtNames()
    ensures forall i, j :: 0 <= i < j < |PROT_FLAGS| ==> PROT_FLAGS[i].name != PROT_FLAGS[j].name
  {
  }

  lemma ProtGood()
    ensures forall i :: 0 <= i < |PROT_FLAGS| ==> GoodName(PROT_FLAGS[i].name)
  {
  }

  lemma MapNames()
    ensures forall i, j :: 0 <= i < j < |MAP_FLAGS| ==> MAP_FLAGS[i].name != MAP_FLAGS[j].name
  {
  }

  lemma MapGood(i: nat)
    requires i < |MAP_FLAGS|
    ensures GoodName(MAP_FLAGS[i].name)
  {
    MapGoodTo8(i);
    MapGood8To12(i);
    MapGoodFrom12(i);
  }

  lemma MapGoodTo8(i: nat)
    requires i < |MAP_FLAGS|
    ensures i < 8 ==> GoodName(MAP_FLAGS[i].name)
  {
  }

  lemma MapGood8To12(i: nat)
    requires i < |MAP_FLAGS|
    ensures 8 <= i < 12 ==> GoodName(MAP_FLAGS[i].name)
  {
  }

  lemma MapGoodFrom12(i: nat)
    requires i < |MAP_FLAGS|
    ensures 12 <= i ==> GoodName(MAP_FLAGS[i].name)
  {
  }

  lemma MapSingles()
    ensures forall i :: 0 <= i < |MAP_FLAGS| ==> Single(MAP_FLAGS[i].bits)
  {
  }

  lemma OpenNames()
    ensures forall i, j :: 0 <= i < j < |OPEN_FLAGS| ==> OPEN_FLAGS[i].name != OPEN_FLAGS[j].name
  {
  }

  lemma OpenGood(i: nat)
    requires i < |OPEN_FLAGS|
    ensures GoodName(OPEN_FLAGS[i].name)
  {
    OpenGoodTo8(i);
    OpenGoodFrom8(i);
  }

  lemma OpenGoodTo8(i: nat)
    requires i < |OPEN_FLAGS|
    ensures i < 8 ==> GoodName(OPEN_FLAGS[i].name)
  {
  }

  lemma OpenGoodFrom8(i: nat)
    requires i < |OPEN_FLAGS|
    ensures 8 <= i ==> GoodName(OPEN_FLAGS[i].name)
  {
  }

  lemma OpenModesApart()
    ensures forall i, j :: 0 <= i < |OPEN_FLAGS| && 0 <= j < |OPEN_MODES| ==> OPEN_FLAGS[i].name != OPEN_MODES[j].name
  {
  }

  lemma OpenModesDistinct()
    ensures forall i, j :: 0 <= i < j < |OPEN_MODES| ==> OPEN_MODES[i].name != OPEN_MODES[j].name
  {
  }

  lemma OpenModesGood()
    ensures forall i :: 0 <= i < |OPEN_MODES| ==> GoodName(OPEN_MODES[i].name)
  {
  }

  /** The dictionaries a reader needs: the tables, and the words that stand outside them. */
  const PROT_NONE := Flag("PROT_NONE", {})
  const PROT_WORDS: seq<Flag> := PROT_FLAGS + [PROT_NONE]
  const MAP_WORDS: seq<Flag> := MAP_FLAGS + [MAP_VALIDATE]
  const OPEN_WORDS: seq<Flag> := OPEN_FLAGS + OPEN_MODES

  lemma ProtTable()
    ensures GoodTable(PROT_WORDS)
    ensures forall f :: f in PROT_FLAGS ==> Single(f.bits)
  {
    ProtNames();
    ProtGood();
    assert GoodName(PROT_NONE.name);
    GoodAppend(PROT_FLAGS, [PROT_NONE]);
  }

  lemma MapApart()
    ensures forall i :: 0 <= i < |MAP_FLAGS| ==> MAP_FLAGS[i].name != MAP_VALIDATE.name
    ensures GoodName(MAP_VALIDATE.name)
  {
  }

  lemma MapTable()
    ensures GoodTable(MAP_WORDS)
    ensures forall f :: f in MAP_FLAGS ==> Single(f.bits)
  {
    MapNames();
    forall i | 0 <= i < |MAP_FLAGS|
      ensures GoodName(MAP_FLAGS[i].name)
    {
      MapGood(i);
    }
    MapSingles();
    MapApart();
    GoodAppend(MAP_FLAGS, [MAP_VALIDATE]);
  }

  lemma OpenTable()
    ensures GoodTable(OPEN_WORDS)
  {
    OpenNames();
    forall i | 0 <= i < |OPEN_FLAGS|
      ensures GoodName(OPEN_FLAGS[i].name)
    {
      OpenGood(i);
    }
    OpenModesApart();
    OpenModesDistinct();
    OpenModesGood();
    GoodAppend(OPEN_FLAGS, OPEN_MODES);
  }

  lemma OneToken(dict: seq<Flag>, t: string)
    requires '|' !in t && TokenBits(dict, t).Some?
    ensures Parse(dict, t) == TokenBits(dict, t)
  {
    SplitToken(t, "", '|');
    var w := TokenBits(dict, t).value;
    assert [t][1..] == [];
    assert OrAll(dict, [t][1..]) == Some({});
    assert w + {} == w;
  }

  lemma ZeroReads(dict: seq<Flag>)
    ensures Parse(dict, "0") == Some({})
  {
    OneToken(dict, "0");
  }

  /** PROT words are printed without loss. */
  lemma ProtReadsBack(value: Word)
    ensures Parse(PROT_WORDS, RenderSet(PROT_FLAGS, value, "PROT_NONE")) == Some(value)
  {
    ProtTable();
    assert PROT_NONE in PROT_WORDS;
    NameTokenReads(PROT_WORDS, PROT_NONE);
    OneToken(PROT_WORDS, "PROT_NONE");
    SinglesRead(PROT_WORDS, PROT_FLAGS, value, "PROT_NONE");
  }

  lemma KindReads(dict: seq<Flag>, table: seq<Flag>, kind: Flag, value: Word, low: Word)
    requires GoodTable(dict) && (forall f :: f in table ==> f in dict) && kind in dict
    requires (forall f :: f in table ==> Single(f.bits)) && kind.bits == value * low
    ensures Parse(dict, JoinLead(kind.name, Names(Present(table, value - low)), value - low, table)) == Some(value)
  {
    SinglesLoseNothing(table, value - low);
    JoinLeadReads(dict, table, kind, value - low);
    assert value * low + (value - low) == value;
  }

  lemma SinglesRead(dict: seq<Flag>, table: seq<Flag>, value: Word, zero: string)
    requires GoodTable(dict) && (forall f :: f in table ==> f in dict) && Parse(dict, zero) == Some({})
    requires forall f :: f in table ==> Single(f.bits)
    ensures Parse(dict, RenderSet(table, value, zero)) == Some(value)
  {
    SinglesLoseNothing(table, value);
    SetReads(dict, table, value, zero);
  }

  lemma MapKindBits(value: Word)
    ensures MapKind(value).Some? ==>
      MapKind(value).value in MAP_WORDS && MapKind(value).value.bits == value * {0, 1, 2, 3}
  {
  }

  lemma MapTextReads(dict: seq<Flag>, table: seq<Flag>, kind: Option<Flag>, value: Word)
    requires GoodTable(dict) && (forall f :: f in table ==> f in dict && Single(f.bits))
    requires kind.Some? ==> kind.value in dict && kind.value.bits == value * {0, 1, 2, 3}
    ensures Parse(dict, MapText(table, kind, value)) == Some(value)
  {
    if kind.Some? {
      KindReads(dict, table, kind.value, value, {0, 1, 2, 3});
    } else {
      ZeroReads(dict);
      SinglesRead(dict, table, value, "0");
    }
  }

  /** MAP words are printed without loss, with or without a mapping type. */
  lemma MapReadsBack(value: Word)
    ensures Parse(MAP_WORDS, RenderMap(value)) == Some(value)
  {
    MapTable();
    MapKindBits(value);
    MapTextReads(MAP_WORDS, MAP_FLAGS, MapKind(value), value);
  }

  /** What printing loses of an open word: the second bit of O_SYNC without O_DSYNC, and the
      second bit of O_TMPFILE without O_DIRECTORY. */
  function OpenLoses(value: Word): Word {
    (if 12 !in value then value * {20} else {}) + (if 16 !in value then value * {22} else {})
  }

  /** The shape of the open table: single bits, then the two groups. */
  ghost predicate OpenShape(table: seq<Flag>) {
    && |table| == 17
    && (forall k :: 0 <= k < 14 ==> table[k].bits == {6 + k})
    && table[14].bits == {21} && table[15].bits == {12, 20} && table[16].bits == {16, 22}
  }

  lemma OpenTableLow()
    ensures |OPEN_FLAGS| == 17 && forall k :: 0 <= k < 14 ==> OPEN_FLAGS[k].bits == {6 + k}
  {
  }

  lemma OpenTableHigh()
    ensures OPEN_FLAGS[14].bits == {21} && OPEN_FLAGS[15].bits == {12, 20} && OPEN_FLAGS[16].bits == {16, 22}
  {
  }

  lemma OpenTableShape()
    ensures OpenShape(OPEN_FLAGS)
  {
    OpenTableLow();
    OpenTableHigh();
  }

  lemma OpenShapeNames(table: seq<Flag>, masked: Word, i: nat)
    requires OpenShape(table)
    ensures (exists f :: f in table && i in f.bits) <==> 6 <= i <= 22
    ensures (exists f :: f in table && IsPresent(f, masked) && i in f.bits) <==>
      i in masked && (6 <= i <= 19 || i == 21 || (i == 20 && 12 in masked) || (i == 22 && 16 in masked))
  {
    if 6 <= i <= 19 {
      assert table[i - 6] in table && i in table[i - 6].bits;
    }
    assert table[14] in table && table[15] in table && table[16] in table;
    assert 21 in table[14].bits && 20 in table[15].bits && 22 in table[16].bits;
    if f :| f in table && IsPresent(f, masked) && i in f.bits {
      var k :| 0 <= k < |table| && table[k] == f;
    }
  }

  lemma OpenKeeps(table: seq<Flag>, masked: Word)
    requires OpenShape(table)
    ensures Kept(table, masked) == masked - OpenLoses(masked)
  {
    LosesExactly(table, masked);
    forall i | i in masked
      ensures i in Kept(table, masked) <==> i !in OpenLoses(masked)
    {
      OpenShapeNames(table, masked, i);
      assert i in masked - Kept(table, masked) <==>
             i in masked && (exists f :: f in table && i in f.bits)
             && !exists f :: f in table && IsPresent(f, masked) && i in f.bits;
    }
  }

  lemma ModeReads(dict: seq<Flag>, table: seq<Flag>, mode: Flag, value: Word)
    requires GoodTable(dict) && (forall f :: f in table ==> f in dict) && mode in dict
    requires OpenShape(table) && mode.bits == value * {0, 1}
    ensures var masked := value - {0, 1};
      Parse(dict, JoinLead(mode.name, Names(Present(table, masked)), masked, table)) == Some(value - OpenLoses(value))
  {
    var masked := value - {0, 1};
    JoinLeadReads(dict, table, mode, masked);
    OpenKeeps(table, masked);
    assert value - OpenLoses(value) == value * {0, 1} + (masked - OpenLoses(masked));
  }

  lemma OpenModeBits(value: Word)
    ensures OpenMode(value) in OPEN_MODES && OpenMode(value).bits == value * {0, 1}
  {
  }

  /** Open words are printed with no other loss. */
  lemma OpenReadsBack(value: Word)
    ensures Parse(OPEN_WORDS, RenderOpen(value)) == Some(value - OpenLoses(value))
  {
    OpenTable();
    OpenTableShape();
    OpenModeBits(value);
    ModeReads(OPEN_WORDS, OPEN_FLAGS, OpenMode(value), value);
  }

  /** The loss does occur: the second bit of O_SYNC alone prints like no flag at all, and so does that
      of O_TMPFILE. */
  lemma LoneBitsAreLost(w: Word)
    requires w == {20} || w == {22}
    ensures Parse(OPEN_WORDS, RenderOpen(w)) == Some({})
  {
    OpenReadsBack(w);
    assert w - OpenLoses(w) == {};
  }

  // ---------------------------------------------------------------- the order of the text

  /** The flags shown are those of the table, each once and in its order. */
  lemma {:induction false} PresentInOrder(table: seq<Flag>, value: Word) returns (at: seq<nat>)
    ensures |at| == |Present(table, value)|
    ensures forall k :: 0 <= k < |at| ==> at[k] < |table| && table[at[k]] == Present(table, value)[k]
    ensures forall k, l :: 0 <= k < l < |at| ==> at[k] < at[l]
  {
    if |table| == 0 {
      at := [];
    } else {
      var rest := PresentInOrder(table[1..], value);
      var moved := seq(|rest|, k requires 0 <= k < |rest| => rest[k] + 1);
      at := (if IsPresent(table[0], value) then [0] else []) + moved;
    }
  }

  /** The access modes by name. */
  predicate NamesMode(value: Word, name: string) {
    name == if 0 in value then if 1 in value then "O_ACCMODE" else "O_WRONLY"
            else if 1 in value then "O_RDWR" else "O_RDONLY"
  }

  lemma ModeIsNamed(value: Word)
    ensures NamesMode(value, OpenMode(value).name)
  {
    assert 0 in value * {0, 1} <==> 0 in value;
    assert 1 in value * {0, 1} <==> 1 in value;
  }

  /** The mode comes first, then the flags, then what no flag covers. */
  lemma OpenTokens(value: Word)
    ensures var tokens, masked := Split(RenderOpen(value), '|'), value - {0, 1};
      && NamesMode(value, tokens[0])
      && tokens == [tokens[0]] + Names(Present(OPEN_FLAGS, masked)) + Leftover(OPEN_FLAGS, masked)
  {
    OpenTable();
    OpenModeBits(value);
    ModeIsNamed(value);
    ModeTokens(OPEN_WORDS, OPEN_FLAGS, OpenMode(value), value);
  }

  lemma ModeTokens(dict: seq<Flag>, table: seq<Flag>, mode: Flag, value: Word)
    requires GoodTable(dict) && mode in dict && forall f :: f in table ==> f in dict
    ensures var masked := value - {0, 1};
      Split(JoinLead(mode.name, Names(Present(table, masked)), masked, table), '|')
      == [mode.name] + Names(Present(table, masked)) + Leftover(table, masked)
  {
    LeadTokens(dict, table, mode, value - {0, 1});
  }

  /** The mapping types by name. */
  predicate NamesKind(value: Word, name: string) {
    name == if 0 in value then if 1 in value then "MAP_SHARED_VALIDATE" else "MAP_SHARED" else "MAP_PRIVATE"
  }

  lemma KindIsNamed(value: Word)
    ensures MapKind(value).Some? <==> (0 in value || 1 in value) && 2 !in value && 3 !in value
    ensures MapKind(value).Some? ==> NamesKind(value, MapKind(value).value.name)
  {
    var low := value * {0, 1, 2, 3};
    assert forall i :: i in low <==> i in value && i < 4;
    assert 0 in value && 1 in value && 2 !in value && 3 !in value ==> low == {0, 1};
    assert 0 in value && 1 !in value && 2 !in value && 3 !in value ==> low == {0};
    assert 0 !in value && 1 in value && 2 !in value && 3 !in value ==> low == {1};
  }

  /** A mapping type comes first if there is one; then the flags, then what no flag covers. */
  lemma MapTokens(value: Word)
    requires (0 in value || 1 in value) && 2 !in value && 3 !in value
    ensures var tokens, masked := Split(RenderMap(value), '|'), value - {0, 1, 2, 3};
      && NamesKind(value, tokens[0])
      && tokens == [tokens[0]] + Names(Present(MAP_FLAGS, masked)) + Leftover(MAP_FLAGS, masked)
  {
    MapTable();
    MapKindBits(value);
    KindIsNamed(value);
    KindTokens(MAP_WORDS, MAP_FLAGS, MapKind(value).value, value);
  }

  lemma KindTokens(dict: seq<Flag>, table: seq<Flag>, kind: Flag, value: Word)
    requires GoodTable(dict) && kind in dict && forall f :: f in table ==> f in dict
    ensures var masked := value - {0, 1, 2, 3};
      Split(MapText(table, Some(kind), value), '|')
      == [kind.name] + Names(Present(table, masked)) + Leftover(table, masked)
  {
    LeadTokens(dict, table, kind, value - {0, 1, 2, 3});
  }

  /** A set without a first word: a word of its own for zero, the whole number if no flag is present, and
      otherwise the flags and what no flag covers. */
  lemma SetTokens(dict: seq<Flag>, table: seq<Flag>, value: Word, zero: string)
    requires GoodTable(dict) && forall f :: f in table ==> f in dict
    ensures value == {} ==> RenderSet(table, value, zero) == zero
    ensures value != {} && Present(table, value) == [] ==> RenderSet(table, value, zero) == HexBits(value)
    ensures value != {} && Present(table, value) != [] ==>
      Split(RenderSet(table, value, zero), '|') == Names(Present(table, value)) + Leftover(table, value)
  {
    PresentIsPart(table, value);
    NamesRead(dict, Present(table, value));
    LeftoverReads(dict, table, value);
    if value != {} && Present(table, value) != [] {
      SplitsJoined(Names(Present(table, value)) + Leftover(table, value));
    }
  }

  lemma {:induction false} NumOfNone(k: nat)
    requires k <= 64
    ensures Num({}, k) == 0
  {
    if k > 0 {
      NumOfNone(k - 1);
    }
  }

  lemma ZeroWord(n: nat)
    requires n == 0
    ensures WordOf(n) == {}
  {
    NumOfNone(64);
    WordsAreNumbers({}, n);
  }

  lemma MapOfNothing(value: Word)
    requires value == {}
    ensures RenderMap(value) == "0"
  {
    KindIsNamed(value);
  }

  // ---------------------------------------------------------------- the tables as numbers

  lemma {:induction false} NumOfOne(i: nat, k: nat)
    requires i < 64 && k <= 64
    ensures Num({i}, k) == if 64 - k <= i then Pow2(i - (64 - k)) else 0
  {
    if k > 0 {
      NumOfOne(i, k - 1);
    }
  }

  lemma {:induction false} NumOfTwo(i: nat, j: nat, k: nat)
    requires i < 64 && j < 64 && i != j && k <= 64
    ensures Num({i, j}, k) == Num({i}, k) + Num({j}, k)
  {
    if k > 0 {
      NumOfTwo(i, j, k - 1);
    }
  }

  lemma OneBit(w: Word, i: nat)
    requires i < 64 && w == {i}
    ensures Number(w) == Pow2(i)
  {
    NumOfOne(i, 64);
  }

  lemma TwoBits(w: Word, i: nat, j: nat)
    requires i < 64 && j < 64 && i != j && w == {i, j}
    ensures Number(w) == Pow2(i) + Pow2(j)
  {
    NumOfTwo(i, j, 64);
    NumOfOne(i, 64);
    NumOfOne(j, 64);
  }

  datatype Named = Named(name: string, number: nat)

  /** The numbers of the tables. */
  const OPEN_NUMBERS: seq<Named> := [
    Named("O_CREAT", 0x40), Named("O_EXCL", 0x80), Named("O_NOCTTY", 0x100), Named("O_TRUNC", 0x200),
    Named("O_APPEND", 0x400), Named("O_NONBLOCK", 0x800), Named("O_DSYNC", 0x1000), Named("O_ASYNC", 0x2000),
    Named("O_DIRECT", 0x4000), Named("O_LARGEFILE", 0x8000), Named("O_DIRECTORY", 0x1_0000),
    Named("O_NOFOLLOW", 0x2_0000), Named("O_NOATIME", 0x4_0000), Named("O_CLOEXEC", 0x8_0000),
    Named("O_PATH", 0x20_0000), Named("O_SYNC", 0x10_1000), Named("O_TMPFILE", 0x41_0000)]

  const PROT_NUMBERS: seq<Named> := [
    Named("PROT_READ", 0x1), Named("PROT_WRITE", 0x2), Named("PROT_EXEC", 0x4), Named("PROT_SEM", 0x8),
    Named("PROT_GROWSDOWN", 0x100_0000), Named("PROT_GROWSUP", 0x200_0000)]

  const MAP_NUMBERS: seq<Named> := [
    Named("MAP_SHARED", 0x1), Named("MAP_PRIVATE", 0x2), Named("MAP_FIXED", 0x10), Named("MAP_ANONYMOUS", 0x20),
    Named("MAP_32BIT", 0x40), Named("MAP_GROWSDOWN", 0x100), Named("MAP_DENYWRITE", 0x800),
    Named("MAP_EXECUTABLE", 0x1000), Named("MAP_LOCKED", 0x2000), Named("MAP_NORESERVE", 0x4000),
    Named("MAP_POPULATE", 0x8000), Named("MAP_NONBLOCK", 0x1_0000), Named("MAP_STACK", 0x2_0000),
    Named("MAP_HUGETLB", 0x4_0000), Named("MAP_SYNC", 0x8_0000), Named("MAP_FIXED_NOREPLACE", 0x10_0000)]

  /** A flag of a table has that name and that number. */
  ghost predicate Agrees(f: Flag, n: Named) {
    f.name == n.name && Number(f.bits) == n.number
  }

  lemma Powers(i: nat)
    requires i < 32
    ensures Pow2(i) == [0x1, 0x2, 0x4, 0x8, 0x10, 0x20, 0x40, 0x80, 0x100, 0x200, 0x400, 0x800, 0x1000, 0x2000,
      0x4000, 0x8000, 0x1_0000, 0x2_0000, 0x4_0000, 0x8_0000, 0x10_0000, 0x20_0000, 0x40_0000, 0x80_0000,
      0x100_0000, 0x200_0000, 0x400_0000, 0x800_0000, 0x1000_0000, 0x2000_0000, 0x4000_0000, 0x8000_0000][i]
  {
    if i > 0 {
      Powers(i - 1);
    }
  }

  lemma BitAgrees(f: Flag, n: Named, i: nat)
    requires i < 32 && f.name == n.name && f.bits == {i} && n.number == Pow2(i)
    ensures Agrees(f, n)
  {
    OneBit(f.bits, i);
  }

  lemma ProtNumbers(k: nat)
    requires k < |PROT_FLAGS|
    ensures |PROT_NUMBERS| == |PROT_FLAGS| && Agrees(PROT_FLAGS[k], PROT_NUMBERS[k])
  {
    var i := [0, 1, 2, 3, 24, 25][k];
    Powers(i);
    BitAgrees(PROT_FLAGS[k], PROT_NUMBERS[k], i);
  }

  lemma MapNumbersTo6(k: nat)
    requires k < 6
    ensures Agrees(MAP_FLAGS[k], MAP_NUMBERS[k])
  {
    var i := [0, 1, 4, 5, 6, 8][k];
    Powers(i);
    BitAgrees(MAP_FLAGS[k], MAP_NUMBERS[k], i);
  }

  lemma MapNumbers6To9(k: nat)
    requires 6 <= k < 9
    ensures Agrees(MAP_FLAGS[k], MAP_NUMBERS[k])
  {
    Powers(k + 5);
    BitAgrees(MAP_FLAGS[k], MAP_NUMBERS[k], k + 5);
  }

  lemma MapNumbers9To12(k: nat)
    requires 9 <= k < 12
    ensures Agrees(MAP_FLAGS[k], MAP_NUMBERS[k])
  {
    Powers(k + 5);
    BitAgrees(MAP_FLAGS[k], MAP_NUMBERS[k], k + 5);
  }

  lemma MapNumbersFrom12(k: nat)
    requires 12 <= k < 16
    ensures Agrees(MAP_FLAGS[k], MAP_NUMBERS[k])
  {
    Powers(k + 5);
    BitAgrees(MAP_FLAGS[k], MAP_NUMBERS[k], k + 5);
  }

  lemma MapNumbers(k: nat)
    requires k < |MAP_FLAGS|
    ensures |MAP_NUMBERS| == |MAP_FLAGS| && Agrees(MAP_FLAGS[k], MAP_NUMBERS[k])
  {
    if k < 6 {
      MapNumbersTo6(k);
    } else if k < 9 {
      MapNumbers6To9(k);
    } else if k < 12 {
      MapNumbers9To12(k);
    } else {
      MapNumbersFrom12(k);
    }
  }

  lemma OpenNumbersTo5(k: nat)
    requires k < 5
    ensures Agrees(OPEN_FLAGS[k], OPEN_NUMBERS[k])
  {
    Powers(k + 6);
    BitAgrees(OPEN_FLAGS[k], OPEN_NUMBERS[k], k + 6);
  }

  lemma OpenNumbers5To8(k: nat)
    requires 5 <= k < 8
    ensures Agrees(OPEN_FLAGS[k], OPEN_NUMBERS[k])
  {
    Powers(k + 6);
    BitAgrees(OPEN_FLAGS[k], OPEN_NUMBERS[k], k + 6);
  }

  lemma OpenNumbers8To10(k: nat)
    requires 8 <= k < 10
    ensures Agrees(OPEN_FLAGS[k], OPEN_NUMBERS[k])
  {
    Powers(k + 6);
    BitAgrees(OPEN_FLAGS[k], OPEN_NUMBERS[k], k + 6);
  }

  lemma OpenNumbers10To14(k: nat)
    requires 10 <= k < 14
    ensures Agrees(OPEN_FLAGS[k], OPEN_NUMBERS[k])
  {
    Powers(k + 6);
    BitAgrees(OPEN_FLAGS[k], OPEN_NUMBERS[k], k + 6);
  }

  lemma OpenNumberOfPath()
    ensures Agrees(OPEN_FLAGS[14], OPEN_NUMBERS[14])
  {
    Powers(21);
    BitAgrees(OPEN_FLAGS[14], OPEN_NUMBERS[14], 21);
  }

  lemma OpenNumberOfSync()
    ensures Agrees(OPEN_FLAGS[15], OPEN_NUMBERS[15])
  {
    Powers(12);
    Powers(20);
    TwoBits(OPEN_FLAGS[15].bits, 12, 20);
  }

  lemma OpenNumberOfTmpfile()
    ensures Agrees(OPEN_FLAGS[16], OPEN_NUMBERS[16])
  {
    Powers(16);
    Powers(22);
    TwoBits(OPEN_FLAGS[16].bits, 16, 22);
  }

  lemma OpenNumbers(k: nat)
    requires k < |OPEN_FLAGS|
    ensures |OPEN_NUMBERS| == |OPEN_FLAGS| && Agrees(OPEN_FLAGS[k], OPEN_NUMBERS[k])
  {
    if k < 5 {
      OpenNumbersTo5(k);
    } else if k < 8 {
      OpenNumbers5To8(k);
    } else if k < 10 {
      OpenNumbers8To10(k);
    } else if k < 14 {
      OpenNumbers10To14(k);
    } else {
      OpenNumberOfPath();
      OpenNumberOfSync();
      OpenNumberOfTmpfile();
    }
  }
}
