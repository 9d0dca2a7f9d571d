/** `crates/syren-decode/src/lib.rs`: rendering the arguments of a call, and taking the
    rendered line apart again. */
module Signature {
  import opened Common
  import opened Text
  import opened Syscalls
  import opened Render
  import opened PathCapture
  import opened FlagText

  /** The symbolic constants of `consts::render`, by syscall, argument name, value and registers. */
  type Constants = (string, string, U64, Args) -> Option<TableName>

  datatype DecodedArg = DecodedArg(name: Option<string>, value: string, raw: U64)

  datatype Decoded = Decoded(name: TableName, args: seq<DecodedArg>)

  // ---------------------------------------------------------------- rendering

  datatype FlagSet = OpenSet | ProtSet | MapSet

  /** Which flag set an argument of a syscall holds, if it is a known one. */
  function FlagSetOf(syscall: string, arg: string): Option<FlagSet> {
    if syscall in {"open", "openat", "openat2"} && arg == "flags" then Some(OpenSet)
    else if syscall in {"mmap", "mprotect", "pkey_mprotect"} && arg == "prot" then Some(ProtSet)
    else if syscall == "mmap" && arg == "flags" then Some(MapSet)
    else None
  }

  function RenderFlagSet(kind: FlagSet, w: Word): string {
    match kind
    case OpenSet => RenderOpen(w)
    case ProtSet => RenderSet(PROT_FLAGS, w, "PROT_NONE")
    case MapSet => RenderMap(w)
  }

  /** `flags::render`, or plain hex. */
  function RenderFlags(syscall: string, arg: string, value: U64): string {
    var kind := FlagSetOf(syscall, arg);
    if kind.Some? then RenderFlagSet(kind.value, WordOf(value)) else Hex(value)
  }

  /** `value as u32 as i32`. */
  function AsI32(value: U64): (r: int)
    ensures -0x8000_0000 <= r < 0x8000_0000 && (r - value) % TWO32 == 0
  {
    var low := value % TWO32;
    if low < 0x8000_0000 then low else low - TWO32
  }

  function RenderFd(value: U64): string {
    if AsI32(value) == -100 then "AT_FDCWD" else SignedDecimal(AsI32(value))
  }

  /** How much of a buffer is asked for: as much as the next argument says if that is a size, but no
      more than is shown and one byte. */
  function WantedOf(metas: seq<ArgInfo>, i: nat, args: Args): (want: nat)
    requires i < |metas| <= 6
    ensures want <= MAX_STR + 1
  {
    var bound := if i + 1 < |metas| && metas[i + 1].ty == Size then args[i + 1] else MAX_STR;
    if bound < MAX_STR + 1 then bound else MAX_STR + 1
  }

  function RenderBuf(metas: seq<ArgInfo>, i: nat, args: Args, mem: Reader): string
    requires i < |metas| <= 6
  {
    if args[i] == 0 then "NULL" else BufText(mem, args[i], WantedOf(metas, i, args))
  }

  /** `i32::from_ne_bytes`, little-endian as on x86-64. */
  function WordOfBytes(b: seq<Byte>): int
    requires |b| == 4
  {
    var b0: nat, b1: nat, b2: nat, b3: nat := b[0], b[1], b[2], b[3];
    AsI32(b0 + 0x100 * b1 + 0x1_0000 * b2 + 0x100_0000 * b3)
  }

  function RenderSockoptOptval(args: Args, mem: Reader): string {
    var addr := args[3];
    if addr == 0 then "NULL"
    else if args[4] == 4
    then
      var got := mem(addr, 4);
      if got.Some? && |got.value| == 4 then "[" + SignedDecimal(WordOfBytes(got.value)) + "]" else Hex(addr)
    else Hex(addr)
  }

  /** The kinds of argument that are shown from the register alone. */
  function RenderScalar(syscall: string, arg: string, ty: ArgType, raw: U64): string {
    match ty
    case Fd => RenderFd(raw)
    case Size => Decimal(raw)
    case Uint => Decimal(raw)
    case Int => SignedDecimal(AsI64(raw))
    case Offset => SignedDecimal(AsI64(raw))
    case HexArg => Hex(raw)
    case Flags => RenderFlags(syscall, arg, raw)
    case _ => PtrOrNull(raw)
  }

  function RenderArg(consts: Constants, syscall: string, metas: seq<ArgInfo>, i: nat, args: Args, mem: Reader): string
    requires i < |metas| <= 6
  {
    var raw := args[i];
    var symbolic := consts(syscall, metas[i].name, raw, args);
    if symbolic.Some? then symbolic.value
    else if syscall == "setsockopt" && metas[i].name == "optval" then RenderSockoptOptval(args, mem)
    else
      match metas[i].ty
      case Path => PathText(mem, raw)
      case Buf => RenderBuf(metas, i, args, mem)
      case ty => RenderScalar(syscall, metas[i].name, ty, raw)
  }

  function DecodeTyped(consts: Constants, syscall: string, metas: seq<ArgInfo>, args: Args, mem: Reader)
    : (r: seq<DecodedArg>)
    requires |metas| <= 6
    ensures |r| == |metas|
    ensures forall i :: 0 <= i < |r| ==>
      r[i] == DecodedArg(Some(metas[i].name), RenderArg(consts, syscall, metas, i, args, mem), args[i])
  {
    seq(|metas|, i requires 0 <= i < |metas| =>
      DecodedArg(Some(metas[i].name), RenderArg(consts, syscall, metas, i, args, mem), args[i]))
  }

  /** How many leading registers `decode_raw` shows: up to the last one that is not zero. */
  function RawCount(args: seq<U64>): (n: nat)
    ensures n <= |args| && (n > 0 ==> args[n - 1] != 0)
    ensures forall i :: n <= i < |args| ==> args[i] == 0
  {
    if args == [] then 0
    else if args[|args| - 1] != 0 then |args|
    else RawCount(args[..|args| - 1])
  }

  function DecodeRaw(args: Args): (r: seq<DecodedArg>)
    ensures |r| == RawCount(args)
    ensures forall i :: 0 <= i < |r| ==> r[i] == DecodedArg(None, Hex(args[i]), args[i])
  {
    seq(RawCount(args), i requires 0 <= i < RawCount(args) => DecodedArg(None, Hex(args[i]), args[i]))
  }

  function UnknownName(nr: U64): TableName {
    DecimalIsPlain(nr);
    "syscall_" + Decimal(nr)
  }

  /** `decode`, given what the syscall table says about the number. */
  function Decode(consts: Constants, info: Option<SyscallInfo>, nr: U64, args: Args, mem: Reader): Decoded
  {
    if info.Some? && info.value.args != []
    then Decoded(info.value.name, DecodeTyped(consts, info.value.name, info.value.args, args, mem))
    else Decoded(if info.Some? then info.value.name else UnknownName(nr), DecodeRaw(args))
  }

  function Values(args: seq<DecodedArg>): (vs: seq<string>)
    ensures |vs| == |args| && forall i :: 0 <= i < |args| ==> vs[i] == args[i].value
  {
    seq(|args|, i requires 0 <= i < |args| => args[i].value)
  }

  function JoinComma(values: seq<string>): string {
    if values == [] then "" else if |values| == 1 then values[0] else values[0] + ", " + JoinComma(values[1..])
  }

  function SignatureText(d: Decoded): string {
    d.name + "(" + JoinComma(Values(d.args)) + ")"
  }

  lemma {:induction false} JoinCommaAppend(values: seq<string>, v: string)
    requires values != []
    ensures JoinComma(values + [v]) == JoinComma(values) + ", " + v
  {
    if |values| == 1 {
      assert (values + [v])[1..] == [v];
    } else {
      JoinCommaAppend(values[1..], v);
      assert (values + [v])[1..] == values[1..] + [v];
      assert values[0] + ", " + (JoinComma(values[1..]) + ", " + v)
          == values[0] + ", " + JoinComma(values[1..]) + ", " + v;
    }
  }

  /** `signature` in the form it has in the source. */
  method MakeSignature(d: Decoded) returns (out: string)
    ensures out == SignatureText(d)
  {
    out := d.name + "(";
    ghost var vs := Values(d.args);
    for i := 0 to |d.args|
      invariant out == d.name + "(" + JoinComma(vs[..i])
    {
      if i > 0 {
        JoinCommaAppend(vs[..i], vs[i]);
        out := out + ", ";
      }
      assert vs[..i + 1] == vs[..i] + [vs[i]];
      out := out + d.args[i].value;
    }
    assert vs[..|vs|] == vs;
    out := out + ")";
  }

  // ---------------------------------------------------------------- reading the line back

  /** Where a reader of the line is: outside a quoted string, inside one, or behind a backslash. */
  datatype Mode = Out | In | Esc

  function NextMode(m: Mode, c: char): Mode {
    match m
    case Out => if c == '"' then In else Out
    case In => if c == '\\' then Esc else if c == '"' then Out else In
    case Esc => In
  }

  function ModeAfter(m: Mode, s: string): Mode
    decreases |s|
  {
    if s == "" then m else ModeAfter(NextMode(m, s[0]), s[1..])
  }

  predicate NoOuterComma(m: Mode, s: string)
    decreases |s|
  {
    s == "" || (!(m == Out && s[0] == ',') && NoOuterComma(NextMode(m, s[0]), s[1..]))
  }

  /** A rendered value: not empty, quotes closed, no comma outside them. */
  predicate Token(v: string) {
    v != "" && NoOuterComma(Out, v) && ModeAfter(Out, v) == Out
  }

  function SplitArgs(s: string, m: Mode, cur: string): seq<string>
    decreases |s|
  {
    if s == "" then [cur]
    else if m == Out && |s| >= 2 && s[0] == ',' && s[1] == ' ' then [cur] + SplitArgs(s[2..], Out, "")
    else SplitArgs(s[1..], NextMode(m, s[0]), cur + [s[0]])
  }

  function SplitName(s: string): Option<(string, string)> {
    if s == "" then None
    else if s[0] == '(' then Some(("", s[1..]))
    else
      var rest := SplitName(s[1..]);
      if rest.None? then None else Some(([s[0]] + rest.value.0, rest.value.1))
  }

  /** The name and the argument values of a line. */
  function ReadSignature(s: string): Option<(string, seq<string>)> {
    var parts := SplitName(s);
    if parts.None? || parts.value.1 == "" || parts.value.1[|parts.value.1| - 1] != ')' then None
    else
      var inner := parts.value.1[..|parts.value.1| - 1];
      Some((parts.value.0, if inner == "" then [] else SplitArgs(inner, Out, "")))
  }

  lemma {:induction false} SplitOverToken(v: string, m: Mode, cur: string, rest: string)
    requires NoOuterComma(m, v)
    ensures SplitArgs(v + rest, m, cur) == SplitArgs(rest, ModeAfter(m, v), cur + v)
    decreases |v|
  {
    if v == "" {
      assert v + rest == rest && cur + v == cur;
    } else {
      assert (v + rest)[1..] == v[1..] + rest;
      assert cur + [v[0]] + v[1..] == cur + v;
      SplitOverToken(v[1..], NextMode(m, v[0]), cur + [v[0]], rest);
    }
  }

  lemma {:induction false} SplitsJoinedArgs(values: seq<string>)
    requires values != [] && forall i :: 0 <= i < |values| ==> Token(values[i])
    ensures SplitArgs(JoinComma(values), Out, "") == values
  {
    var v := values[0];
    assert Token(v) && "" + v == v;
    if |values| == 1 {
      SplitOverToken(v, Out, "", "");
      assert v + "" == v;
    } else {
      var rest := JoinComma(values[1..]);
      SplitOverToken(v, Out, "", ", " + rest);
      assert v + ", " + rest == v + (", " + rest);
      assert (", " + rest)[2..] == rest;
      SplitsJoinedArgs(values[1..]);
    }
  }

  lemma {:induction false} SplitsName(name: string, rest: string)
    requires '(' !in name
    ensures SplitName(name + "(" + rest) == Some((name, rest))
  {
    if name == "" {
      assert (name + "(" + rest) == "(" + rest;
    } else {
      SplitsName(name[1..], rest);
      assert [name[0]] + name[1..] == name;
      assert (name + "(" + rest)[1..] == name[1..] + "(" + rest;
    }
  }

  lemma JoinedNotEmpty(values: seq<string>)
    requires values != [] && Token(values[0])
    ensures JoinComma(values) != ""
  {
  }

  lemma TokensReadBack(d: Decoded)
    requires forall i :: 0 <= i < |d.args| ==> Token(d.args[i].value)
    ensures ReadSignature(SignatureText(d)) == Some((d.name, Values(d.args)))
  {
    var vs, inner := Values(d.args), JoinComma(Values(d.args));
    SplitsName(d.name, inner + ")");
    assert d.name + "(" + inner + ")" == d.name + "(" + (inner + ")");
    assert (inner + ")")[..|inner|] == inner;
    if vs != [] {
      SplitsJoinedArgs(vs);
      JoinedNotEmpty(vs);
    }
  }

  // ---------------------------------------------------------------- every rendering is a token

  lemma {:induction false} OuterScan(s: string)
    requires forall i :: 0 <= i < |s| ==> s[i] != '"' && s[i] != ','
    ensures NoOuterComma(Out, s) && ModeAfter(Out, s) == Out
    decreases |s|
  {
    if s != "" {
      OuterScan(s[1..]);
    }
  }

  lemma PlainIsToken(s: string)
    requires Plain(s)
    ensures Token(s)
  {
    assert forall i :: 0 <= i < |s| ==> PlainChar(s[i]);
    OuterScan(s);
  }

  lemma {:induction false} ScanSplits(m: Mode, a: string, b: string)
    ensures ModeAfter(m, a + b) == ModeAfter(ModeAfter(m, a), b)
    ensures NoOuterComma(m, a + b) <==> NoOuterComma(m, a) && NoOuterComma(ModeAfter(m, a), b)
    decreases |a|
  {
    if a == "" {
      assert a + b == b;
    } else {
      assert (a + b)[1..] == a[1..] + b;
      ScanSplits(NextMode(m, a[0]), a[1..], b);
    }
  }

  lemma {:induction false} InnerScan(s: string)
    requires forall i :: 0 <= i < |s| ==> s[i] != '"' && s[i] != '\\'
    ensures NoOuterComma(In, s) && ModeAfter(In, s) == In
    decreases |s|
  {
    if s != "" {
      InnerScan(s[1..]);
    }
  }

  lemma EscapeScan(b: Byte)
    ensures NoOuterComma(In, Escape(b)) && ModeAfter(In, Escape(b)) == In
  {
    var e := Escape(b);
    if e[0] == '\\' {
      OctalReads(b);
      assert e[1..][0] == e[1];
      InnerScan(e[1..][1..]);
    } else {
      InnerScan(e);
    }
  }

  lemma {:induction false} EscapeAllScan(bytes: seq<Byte>)
    ensures NoOuterComma(In, EscapeAll(bytes)) && ModeAfter(In, EscapeAll(bytes)) == In
  {
    if bytes != [] {
      EscapeScan(bytes[0]);
      EscapeAllScan(bytes[1..]);
      ScanSplits(In, Escape(bytes[0]), EscapeAll(bytes[1..]));
    }
  }

  lemma QuoteIsToken(bytes: seq<Byte>)
    ensures Token(Quote(bytes))
  {
    var e, tail := EscapeAll(Shown(bytes)), if |bytes| > MAX_STR then "..." else "";
    EscapeAllScan(Shown(bytes));
    assert Quote(bytes) == "\"" + (e + ("\"" + tail));
    assert ("\"" + (e + ("\"" + tail)))[1..] == e + ("\"" + tail);
    ScanSplits(In, e, "\"" + tail);
    assert ("\"" + tail)[1..] == tail;
    OuterScan(tail);
  }

  lemma {:induction false} JoinBarIsPlain(tokens: seq<string>)
    requires tokens != [] && forall i :: 0 <= i < |tokens| ==> Plain(tokens[i])
    ensures Plain(JoinBar(tokens))
  {
    if |tokens| > 1 {
      JoinBarIsPlain(tokens[1..]);
    }
  }

  lemma GoodNameIsPlain(name: string)
    requires GoodName(name)
    ensures Plain(name)
  {
  }

  lemma NamesArePlain(dict: seq<Flag>, table: seq<Flag>, value: Word)
    requires GoodTable(dict) && forall f :: f in table ==> f in dict
    ensures forall i :: 0 <= i < |Present(table, value)| ==> Plain(Names(Present(table, value))[i])
    ensures forall i :: 0 <= i < |Leftover(table, value)| ==> Plain(Leftover(table, value)[i])
  {
    PresentIsPart(table, value);
    forall i | 0 <= i < |Present(table, value)|
      ensures Plain(Names(Present(table, value))[i])
    {
      var f := Present(table, value)[i];
      assert f in dict;
      GoodNameIsPlain(f.name);
    }
    HexIsPlain(Number(value - Union(table)));
  }

  lemma LeadIsPlain(dict: seq<Flag>, table: seq<Flag>, lead: Flag, masked: Word)
    requires GoodTable(dict) && lead in dict && forall f :: f in table ==> f in dict
    ensures Plain(JoinLead(lead.name, Names(Present(table, masked)), masked, table))
  {
    NamesArePlain(dict, table, masked);
    GoodNameIsPlain(lead.name);
    JoinBarIsPlain([lead.name] + Names(Present(table, masked)) + Leftover(table, masked));
  }

  lemma SetIsPlain(dict: seq<Flag>, table: seq<Flag>, value: Word, zero: string)
    requires GoodTable(dict) && (forall f :: f in table ==> f in dict) && Plain(zero)
    ensures Plain(RenderSet(table, value, zero))
  {
    NamesArePlain(dict, table, value);
    HexIsPlain(Number(value));
    var named := Names(Present(table, value));
    if named != [] {
      JoinBarIsPlain(named + Leftover(table, value));
    }
  }

  lemma MapTextIsPlain(dict: seq<Flag>, table: seq<Flag>, kind: Option<Flag>, value: Word)
    requires GoodTable(dict) && (forall f :: f in table ==> f in dict) && (kind.Some? ==> kind.value in dict)
    ensures Plain(MapText(table, kind, value))
  {
    if kind.Some? {
      LeadIsPlain(dict, table, kind.value, value - {0, 1, 2, 3});
    } else {
      SetIsPlain(dict, table, value, "0");
    }
  }

  lemma OpenIsPlain(w: Word)
    ensures Plain(RenderOpen(w))
  {
    OpenTable();
    OpenModeBits(w);
    var mode := OpenMode(w);
    assert mode in OPEN_WORDS;
    LeadIsPlain(OPEN_WORDS, OPEN_FLAGS, mode, w - {0, 1});
  }

  lemma ProtIsPlain(w: Word)
    ensures Plain(RenderSet(PROT_FLAGS, w, "PROT_NONE"))
  {
    ProtTable();
    SetIsPlain(PROT_WORDS, PROT_FLAGS, w, "PROT_NONE");
  }

  lemma MapIsPlain(w: Word)
    ensures Plain(RenderMap(w))
  {
    MapTable();
    MapKindBits(w);
    MapTextIsPlain(MAP_WORDS, MAP_FLAGS, MapKind(w), w);
  }

  lemma FlagSetIsPlain(kind: FlagSet, w: Word)
    ensures Plain(RenderFlagSet(kind, w))
  {
    match kind
    case OpenSet => OpenIsPlain(w);
    case ProtSet => ProtIsPlain(w);
    case MapSet => MapIsPlain(w);
  }

  lemma FlagsArePlain(syscall: string, arg: string, value: U64)
    ensures Plain(RenderFlags(syscall, arg, value))
  {
    var kind := FlagSetOf(syscall, arg);
    if kind.Some? {
      FlagSetIsPlain(kind.value, WordOf(value));
    } else {
      HexIsPlain(value);
    }
  }

  lemma ScalarIsPlain(syscall: string, arg: string, ty: ArgType, raw: U64)
    ensures Plain(RenderScalar(syscall, arg, ty, raw))
  {
    match ty {
      case Flags =>
        FlagsArePlain(syscall, arg, raw);
      case _ =>
        HexIsPlain(raw);
        DecimalIsPlain(raw);
        SignedDecimalIsPlain(AsI64(raw));
        SignedDecimalIsPlain(AsI32(raw));
        PtrIsPlain(raw);
    }
  }

  lemma SockoptIsToken(args: Args, mem: Reader)
    ensures Token(RenderSockoptOptval(args, mem))
  {
    HexIsPlain(args[3]);
    var got := mem(args[3], 4);
    if got.Some? && |got.value| == 4 {
      SignedDecimalIsPlain(WordOfBytes(got.value));
    }
    PlainIsToken(RenderSockoptOptval(args, mem));
  }

  lemma BufIsToken(metas: seq<ArgInfo>, i: nat, args: Args, mem: Reader)
    requires i < |metas| <= 6
    ensures Token(RenderBuf(metas, i, args, mem))
  {
    PlainIsToken("NULL");
    HexIsPlain(args[i]);
    PlainIsToken(Hex(args[i]));
    var got := mem(args[i], WantedOf(metas, i, args));
    if got.Some? {
      QuoteIsToken(got.value);
    }
  }

  lemma PathIsToken(mem: Reader, addr: U64)
    ensures Token(PathText(mem, addr))
  {
    var s := Cstr(mem, addr, PATH_CAP);
    if s.Some? {
      QuoteIsToken(s.value);
    } else {
      PtrIsPlain(addr);
      PlainIsToken(PtrOrNull(addr));
    }
  }

  /** Whatever the metadata, the registers and the memory, a rendered argument is a token. */
  lemma ArgIsToken(consts: Constants, syscall: string, metas: seq<ArgInfo>, i: nat, args: Args, mem: Reader)
    requires i < |metas| <= 6
    ensures Token(RenderArg(consts, syscall, metas, i, args, mem))
  {
    var raw := args[i];
    var symbolic := consts(syscall, metas[i].name, raw, args);
    var text := RenderArg(consts, syscall, metas, i, args, mem);
    if symbolic.Some? {
      PlainIsToken(text);
    } else if syscall == "setsockopt" && metas[i].name == "optval" {
      SockoptIsToken(args, mem);
    } else if metas[i].ty.Path? {
      PathIsToken(mem, raw);
    } else if metas[i].ty.Buf? {
      BufIsToken(metas, i, args, mem);
    } else {
      ScalarIsPlain(syscall, metas[i].name, metas[i].ty, raw);
      PlainIsToken(text);
    }
  }

  /** For every event and every memory, the line says which call it was and what was rendered
      for each argument: nothing in a value can be taken for a separator. */
  lemma SignatureReadsBack(consts: Constants, info: Option<SyscallInfo>, nr: U64, args: Args, mem: Reader)
    ensures var d := Decode(consts, info, nr, args, mem);
      ReadSignature(SignatureText(d)) == Some((d.name, Values(d.args)))
  {
    var d := Decode(consts, info, nr, args, mem);
    forall i | 0 <= i < |d.args|
      ensures Token(d.args[i].value)
    {
      if info.Some? && info.value.args != [] {
        ArgIsToken(consts, info.value.name, info.value.args, i, args, mem);
      } else {
        HexIsPlain(args[i]);
        PlainIsToken(Hex(args[i]));
      }
    }
    TokensReadBack(d);
  }

  // ---------------------------------------------------------------- reading the registers back

  /** What a reader of the trace makes of a value, given the type of the argument. */
  function ReadScalar(ty: ArgType, text: string): Option<U64> {
    match ty
    case Size => AsWord(DecimalValue(text))
    case Uint => AsWord(DecimalValue(text))
    case Int => AsRegister(SignedValue(text))
    case Offset => AsRegister(SignedValue(text))
    case HexArg => AsWord(HexNumber(text))
    case Ptr => if text == "NULL" then Some(0) else AsWord(HexNumber(text))
    case Fd => AsRegister(if text == "AT_FDCWD" then Some(-100) else SignedValue(text))
    case _ => None
  }

  function AsWord(n: Option<nat>): Option<U64> {
    if n.Some? && n.value < TWO64 then Some(n.value) else None
  }

  function AsRegister(n: Option<int>): Option<U64> {
    if n.Some? then Some(AsU64(n.value)) else None
  }

  /** The types whose values are numbers. */
  predicate IsNumber(ty: ArgType) {
    !ty.Path? && !ty.Buf? && !ty.Flags?
  }

  /** What of a register is shown: a descriptor is an `int`, so its upper half is not. */
  function ShownRegister(ty: ArgType, raw: U64): U64 {
    if ty.Fd? then AsU64(AsI32(raw)) else raw
  }

  lemma SignedRegister(raw: U64)
    ensures AsU64(AsI64(raw)) == raw
  {
    if raw >= TWO63 {
      assert raw - TWO64 == -1 * TWO64 + raw;
    }
  }

  lemma PtrReadsBack(raw: U64)
    ensures ReadScalar(Ptr, PtrOrNull(raw)) == Some(raw) && (PtrOrNull(raw) == "NULL" <==> raw == 0)
  {
    HexNumberReadsBack(raw);
    assert Hex(raw)[0] == '0';
  }

  lemma FdReadsBack(raw: U64)
    ensures ReadScalar(Fd, RenderFd(raw)) == Some(AsU64(AsI32(raw)))
    ensures RenderFd(raw) == "AT_FDCWD" <==> raw % TWO32 == 0xFFFF_FF9C
  {
    SignedReadsBack(AsI32(raw));
  }

  /** A number that is shown from its register can be read back from its text; the null pointer and the
      current directory, and nothing else, have names. */
  lemma ScalarReadsBack(syscall: string, arg: string, ty: ArgType, raw: U64)
    requires IsNumber(ty)
    ensures var text := RenderScalar(syscall, arg, ty, raw);
      && ReadScalar(ty, text) == Some(ShownRegister(ty, raw))
      && (ty.Ptr? ==> (text == "NULL" <==> raw == 0))
      && (ty.Fd? ==> (text == "AT_FDCWD" <==> raw % TWO32 == 0xFFFF_FF9C))
  {
    match ty {
      case Size => DecimalReadsBack(raw);
      case Uint => DecimalReadsBack(raw);
      case Int =>
        SignedReadsBack(AsI64(raw));
        SignedRegister(raw);
      case Offset =>
        SignedReadsBack(AsI64(raw));
        SignedRegister(raw);
      case HexArg => HexNumberReadsBack(raw);
      case Ptr => PtrReadsBack(raw);
      case Fd => FdReadsBack(raw);
    }
  }

  // ---------------------------------------------------------------- what the line shows of each argument

  /** The value of the `i`-th argument, as a reader of the line finds it. */
  function ShownValue(consts: Constants, info: SyscallInfo, nr: U64, args: Args, mem: Reader, i: nat): Option<string> {
    var read := ReadSignature(SignatureText(Decode(consts, Some(info), nr, args, mem)));
    if read.Some? && read.value.0 == info.name && |read.value.1| == |info.args| && i < |info.args|
    then Some(read.value.1[i]) else None
  }

  lemma ShownIsRendered(consts: Constants, info: SyscallInfo, nr: U64, args: Args, mem: Reader, i: nat)
    requires i < |info.args|
    ensures ShownValue(consts, info, nr, args, mem, i)
         == Some(RenderArg(consts, info.name, info.args, i, args, mem))
  {
    SignatureReadsBack(consts, Some(info), nr, args, mem);
  }

  /** The argument has no symbolic name and is not the option value of `setsockopt`. */
  predicate Ordinary(consts: Constants, info: SyscallInfo, args: Args, i: nat)
    requires i < |info.args|
  {
    && consts(info.name, info.args[i].name, args[i], args).None?
    && !(info.name == "setsockopt" && info.args[i].name == "optval")
  }

  /** A symbolic name, where there is one, is what is shown. */
  lemma NamedLineShows(consts: Constants, info: SyscallInfo, nr: U64, args: Args, mem: Reader, i: nat)
    requires i < |info.args| && consts(info.name, info.args[i].name, args[i], args).Some?
    ensures ShownValue(consts, info, nr, args, mem, i)
         == Some(consts(info.name, info.args[i].name, args[i], args).value)
  {
    ShownIsRendered(consts, info, nr, args, mem, i);
  }

  /** Of an argument that is a number, what that register held: all of it, or of a descriptor the lower
      half. */
  lemma TypedLineReadsBack(consts: Constants, info: SyscallInfo, nr: U64, args: Args, mem: Reader, i: nat)
    requires i < |info.args| && IsNumber(info.args[i].ty) && Ordinary(consts, info, args, i)
    ensures var v, ty := ShownValue(consts, info, nr, args, mem, i), info.args[i].ty;
      && v.Some? && ReadScalar(ty, v.value) == Some(ShownRegister(ty, args[i]))
      && (ty.Ptr? ==> (v.value == "NULL" <==> args[i] == 0))
      && (ty.Fd? ==> (v.value == "AT_FDCWD" <==> args[i] % TWO32 == 0xFFFF_FF9C))
  {
    ShownIsRendered(consts, info, nr, args, mem, i);
    ScalarReadsBack(info.name, info.args[i].name, info.args[i].ty, args[i]);
  }

  /** What a text says of a flags argument: of the opening calls all flags but the two bits that printing
      loses, of the memory calls all; of any other call the number. */
  predicate TellsFlags(call: string, arg: string, value: U64, text: string) {
    if call in {"open", "openat", "openat2"} && arg == "flags"
    then Parse(OPEN_WORDS, text) == Some(WordOf(value) - OpenLoses(WordOf(value)))
    else if call in {"mmap", "mprotect", "pkey_mprotect"} && arg == "prot"
    then Parse(PROT_WORDS, text) == Some(WordOf(value)) && (value == 0 ==> text == "PROT_NONE")
    else if call == "mmap" && arg == "flags"
    then Parse(MAP_WORDS, text) == Some(WordOf(value)) && (value == 0 ==> text == "0")
    else HexNumber(text) == Some(value)
  }

  lemma ProtRead(value: U64, text: string)
    requires text == RenderSet(PROT_FLAGS, WordOf(value), "PROT_NONE")
    ensures Parse(PROT_WORDS, text) == Some(WordOf(value)) && (value == 0 ==> text == "PROT_NONE")
  {
    ProtReadsBack(WordOf(value));
    if value == 0 {
      ZeroWord(value);
    }
  }

  lemma MapRead(value: U64, text: string)
    requires text == RenderMap(WordOf(value))
    ensures Parse(MAP_WORDS, text) == Some(WordOf(value)) && (value == 0 ==> text == "0")
  {
    MapReadsBack(WordOf(value));
    if value == 0 {
      ZeroWord(value);
      MapOfNothing(WordOf(value));
    }
  }

  lemma FlagsRead(call: string, arg: string, value: U64)
    ensures TellsFlags(call, arg, value, RenderFlags(call, arg, value))
  {
    var w, text := WordOf(value), RenderFlags(call, arg, value);
    if call in {"open", "openat", "openat2"} && arg == "flags" {
      OpenReadsBack(w);
    } else if call in {"mmap", "mprotect", "pkey_mprotect"} && arg == "prot" {
      ProtRead(value, text);
    } else if call == "mmap" && arg == "flags" {
      MapRead(value, text);
    } else {
      HexNumberReadsBack(value);
    }
  }

  lemma FlagsShown(
      consts: Constants, info: SyscallInfo, nr: U64, args: Args, mem: Reader, i: nat, text: string)
    requires i < |info.args| && info.args[i].ty.Flags? && Ordinary(consts, info, args, i)
    requires text == RenderFlags(info.name, info.args[i].name, args[i])
    ensures ShownValue(consts, info, nr, args, mem, i) == Some(text)
  {
    ShownIsRendered(consts, info, nr, args, mem, i);
  }

  /** Of a flags argument, the flags. */
  lemma FlagsLineReadsBack(consts: Constants, info: SyscallInfo, nr: U64, args: Args, mem: Reader, i: nat)
    requires i < |info.args| && info.args[i].ty.Flags? && Ordinary(consts, info, args, i)
    ensures exists text ::
      && ShownValue(consts, info, nr, args, mem, i) == Some(text)
      && TellsFlags(info.name, info.args[i].name, args[i], text)
  {
    var text := RenderFlags(info.name, info.args[i].name, args[i]);
    FlagsRead(info.name, info.args[i].name, args[i]);
    FlagsShown(consts, info, nr, args, mem, i, text);
  }

  /** Of a path argument, the string in memory, quoted; of one that is null or leads nowhere, the
      pointer. */
  lemma PathLineShows(
      consts: Constants, info: SyscallInfo, nr: U64, args: Args, read: Reader, mem: Memory, i: nat)
    requires i < |info.args| && info.args[i].ty.Path? && Ordinary(consts, info, args, i)
    requires Honest(read, mem) && args[i] + 4096 <= TWO64
    ensures var v := ShownValue(consts, info, nr, args, read, i);
      v.Some? &&
      if args[i] != 0 && args[i] in mem then v.value == Quote(StringAt(mem, args[i], 4096))
      else ReadScalar(Ptr, v.value) == Some(args[i]) && (v.value == "NULL" <==> args[i] == 0)
  {
    ShownIsRendered(consts, info, nr, args, read, i);
    ReadCstrIsChunkFree(read, mem, args[i], PATH_CAP);
    PtrReadsBack(args[i]);
  }

  /** Of a buffer argument, the bytes in memory, quoted: as many as the next argument says if that is a
      size, but at most one more than is shown. */
  lemma BufLineShows(
      consts: Constants, info: SyscallInfo, nr: U64, args: Args, read: Reader, mem: Memory, i: nat)
    requires i < |info.args| && info.args[i].ty.Buf? && Ordinary(consts, info, args, i) && Exhaustive(read, mem)
    ensures var v := ShownValue(consts, info, nr, args, read, i);
      var sized := i + 1 < |info.args| && info.args[i + 1].ty.Size?;
      var want := if sized then if args[i + 1] < 33 then args[i + 1] else 33 else 32;
      var there := MappedFrom(mem, args[i], want);
      v.Some? &&
      if args[i] == 0 then v.value == "NULL"
      else if there != [] then v.value == Quote(there)
      else HexNumber(v.value) == Some(args[i])
  {
    ShownIsRendered(consts, info, nr, args, read, i);
    HexNumberReadsBack(args[i]);
  }

  /** Of the option value of `setsockopt`, the four bytes in memory as a signed number, little end
      first, if that is its size and they can be read; otherwise the pointer. */
  lemma OptvalLineShows(consts: Constants, info: SyscallInfo, nr: U64, args: Args, read: Reader, i: nat)
    requires i < |info.args| && info.name == "setsockopt" && info.args[i].name == "optval"
    requires consts(info.name, info.args[i].name, args[i], args).None?
    ensures var v := ShownValue(consts, info, nr, args, read, i);
      v.Some? &&
      if args[3] == 0 then v.value == "NULL"
      else if args[4] == 4 && read(args[3], 4).Some? && |read(args[3], 4).value| == 4
      then
        var b := read(args[3], 4).value;
        var b0: int, b1: int, b2: int, b3: int := b[0], b[1], b[2], b[3];
        exists n: int ::
          && -0x8000_0000 <= n < 0x8000_0000 && v.value == "[" + SignedDecimal(n) + "]"
          && (n - (b0 + 0x100 * b1 + 0x1_0000 * b2 + 0x100_0000 * b3)) % TWO32 == 0
      else HexNumber(v.value) == Some(args[3])
  {
    ShownIsRendered(consts, info, nr, args, read, i);
    HexNumberReadsBack(args[3]);
    var got := read(args[3], 4);
    if args[3] != 0 && args[4] == 4 && got.Some? && |got.value| == 4 {
      var n := WordOfBytes(got.value);
      assert RenderSockoptOptval(args, read) == "[" + SignedDecimal(n) + "]";
    }
  }

  /** From the line of a syscall without argument metadata its reader gets its name, or its number if it
      is not even known, and all six registers: those not shown are zero. */
  lemma RawLineReadsBack(consts: Constants, info: Option<SyscallInfo>, nr: U64, args: Args, mem: Reader)
    requires info.Some? ==> info.value.args == []
    ensures var read := ReadSignature(SignatureText(Decode(consts, info, nr, args, mem)));
      && read.Some? && |read.value.1| <= 6
      && (info.Some? ==> read.value.0 == info.value.name)
      && (info.None? ==>
            |read.value.0| >= 8 && read.value.0[..8] == "syscall_" && DecimalValue(read.value.0[8..]) == Some(nr))
      && forall i :: 0 <= i < 6 ==>
           args[i] == if i < |read.value.1| then RegisterIn(read.value.1[i]) else 0
  {
    SignatureReadsBack(consts, info, nr, args, mem);
    DecimalReadsBack(nr);
    assert UnknownName(nr)[..8] == "syscall_" && UnknownName(nr)[8..] == Decimal(nr);
    var shown := DecodeRaw(args);
    forall i | 0 <= i < |shown|
      ensures RegisterIn(shown[i].value) == args[i]
    {
      HexNumberReadsBack(args[i]);
    }
  }

  /** The register a value of an unknown syscall shows. */
  function RegisterIn(text: string): nat {
    if HexNumber(text).Some? then HexNumber(text).value else 0
  }
}
