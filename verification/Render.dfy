/** `crates/syren-decode/src/render.rs`: following string pointers, and quoting bytes. */
module Render {
  import opened Common
  import opened Text

  const MAX_STR := 32
  const PATH_CAP := 4096

  /** `MemoryReader::read`: up to `len` bytes at an address, or nothing. */
  type Reader = (nat, nat) -> Option<seq<Byte>>

  /** Mapped memory. */
  type Memory = map<nat, Byte>

  /** The bytes `chunk` stand in memory from address `a` on. */
  ghost predicate Stand(mem: Memory, a: nat, chunk: seq<Byte>) {
    forall i :: a <= i < a + |chunk| ==> i in mem && mem[i] == chunk[i - a]
  }

  ghost predicate TruePrefix(mem: Memory, a: nat, len: nat, chunk: seq<Byte>) {
    0 < |chunk| <= len && Stand(mem, a, chunk)
  }

  /** A reader that shows some of what is there whenever the first byte is mapped, and
      nothing otherwise; how much it shows at a time is its own affair. */
  ghost predicate Honest(read: Reader, mem: Memory) {
    forall a: nat, len: nat {:trigger read(a, len)} :: len > 0 ==>
      if a in mem then read(a, len).Some? && TruePrefix(mem, a, len, read(a, len).value)
      else read(a, len).None? || read(a, len).value == []
  }

  /** The string at an address: the bytes before the first NUL, unmapped byte or the cap. */
  ghost function StringAt(mem: Memory, a: nat, cap: nat): seq<Byte>
    decreases cap, a
  {
    if cap == 0 || a !in mem || mem[a] == 0 then [] else [mem[a]] + StringAt(mem, a + 1, cap - 1)
  }

  function FirstNul(chunk: seq<Byte>): (pos: Option<nat>)
    ensures pos.None? ==> 0 !in chunk
    ensures pos.Some? ==> pos.value < |chunk| && chunk[pos.value] == 0 && 0 !in chunk[..pos.value]
  {
    if chunk == [] then None
    else if chunk[0] == 0 then Some(0)
    else
      var rest := FirstNul(chunk[1..]);
      if rest.None? then None
      else
        assert chunk[..rest.value + 1] == [chunk[0]] + chunk[1..][..rest.value];
        Some(rest.value + 1)
  }

  lemma {:induction false} StringAcrossChunk(mem: Memory, a: nat, cap: nat, chunk: seq<Byte>)
    requires |chunk| <= cap && 0 !in chunk && Stand(mem, a, chunk)
    ensures StringAt(mem, a, cap) == chunk + StringAt(mem, a + |chunk|, cap - |chunk|)
    decreases |chunk|
  {
    if chunk != [] {
      StringAcrossChunk(mem, a + 1, cap - 1, chunk[1..]);
      assert chunk == [chunk[0]] + chunk[1..];
      assert a in mem && mem[a] == chunk[0];
    }
  }

  /** What `read_cstr` answers for mapped memory. */
  ghost function CStringIn(mem: Memory, addr: nat, cap: nat): Option<seq<Byte>> {
    if addr == 0 || (cap > 0 && addr !in mem) then None else Some(StringAt(mem, addr, cap))
  }

  /** `cursor += n` on a `u64`. */
  function Advance(cursor: U64, n: nat): (r: U64)
    ensures (r - (cursor + n)) % TWO64 == 0
  {
    (cursor + n) % TWO64
  }

  /** The most `read_cstr` asks for at a time. */
  function Want(room: nat): (r: nat)
    ensures r <= 256 && r <= room && (r == 256 || r == room)
  {
    if 256 < room then 256 else room
  }

  function Less(room: nat, n: nat): nat {
    if n < room then room - n else 0
  }

  /** The bytes `read_cstr` gathers from `cursor` on, chunk by chunk. */
  function ReadFrom(read: Reader, cursor: U64, room: nat): seq<Byte>
    decreases room, cursor
  {
    if room == 0 then []
    else
      var got := read(cursor, Want(room));
      if got.None? || got.value == [] then []
      else
        var pos := FirstNul(got.value);
        if pos.Some? then got.value[..pos.value]
        else
          got.value + ReadFrom(read, Advance(cursor, |got.value|), Less(room, |got.value|))
  }

  /** `read_cstr` through any reader, honest or not. */
  function Cstr(read: Reader, addr: U64, cap: nat): Option<seq<Byte>> {
    if addr == 0 then None
    else if cap > 0 && (var got := read(addr, Want(cap)); got.None? || got.value == []) then None
    else Some(ReadFrom(read, addr, cap))
  }

  lemma ChunkTaken(read: Reader, cursor: U64, room: nat, out: seq<Byte>, chunk: seq<Byte>)
    requires room > 0 && chunk != [] && FirstNul(chunk).None? && read(cursor, Want(room)) == Some(chunk)
    ensures out + ReadFrom(read, cursor, room)
         == (out + chunk) + ReadFrom(read, Advance(cursor, |chunk|), Less(room, |chunk|))
  {
    var rest := ReadFrom(read, Advance(cursor, |chunk|), Less(room, |chunk|));
    assert ReadFrom(read, cursor, room) == chunk + rest;
    assert out + (chunk + rest) == (out + chunk) + rest;
  }

  method ReadCstr(read: Reader, addr: U64, cap: nat) returns (r: Option<seq<Byte>>)
    ensures r == Cstr(read, addr, cap)
  {
    if addr == 0 {
      return None;
    }
    var out: seq<Byte> := [];
    var cursor: U64 := addr;
    while |out| < cap
      invariant out == [] ==> cursor == addr
      invariant out != [] ==> Cstr(read, addr, cap).Some?
      invariant ReadFrom(read, addr, cap) == out + ReadFrom(read, cursor, Less(cap, |out|))
      decreases cap - |out|
    {
      var got := read(cursor, Want(cap - |out|));
      if got.None? || got.value == [] {
        assert out + [] == out;
        return if out != [] then Some(out) else None;
      }
      var chunk := got.value;
      var pos := FirstNul(chunk);
      if pos.Some? {
        return Some(out + chunk[..pos.value]);
      }
      ChunkTaken(read, cursor, cap - |out|, out, chunk);
      cursor := Advance(cursor, |chunk|);
      out := out + chunk;
    }
    assert out + [] == out;
    r := Some(out);
  }

  /** A chunk with a NUL in it ends the string; one without goes on. */
  lemma ChunkReads(read: Reader, mem: Memory, a: nat, room: nat, chunk: seq<Byte>)
    requires room > 0 && a < TWO64 && a + room <= TWO64 && a in mem
    requires read(a, Want(room)) == Some(chunk) && TruePrefix(mem, a, Want(room), chunk)
    requires FirstNul(chunk).None? && |chunk| < room ==>
      ReadFrom(read, a + |chunk|, room - |chunk|) == StringAt(mem, a + |chunk|, room - |chunk|)
    ensures ReadFrom(read, a, room) == StringAt(mem, a, room)
  {
    var pos := FirstNul(chunk);
    if pos.Some? {
      StringUpToNul(mem, a, room, chunk, pos.value);
    } else {
      StringAcrossChunk(mem, a, room, chunk);
    }
  }

  lemma {:induction false} HonestReads(read: Reader, mem: Memory, a: nat, room: nat)
    requires Honest(read, mem) && a < TWO64 && a + room <= TWO64
    ensures ReadFrom(read, a, room) == StringAt(mem, a, room)
    decreases room
  {
    if room > 0 && a in mem {
      var chunk := read(a, Want(room)).value;
      assert TruePrefix(mem, a, Want(room), chunk);
      if FirstNul(chunk).None? && |chunk| < room {
        HonestReads(read, mem, a + |chunk|, room - |chunk|);
      }
      ChunkReads(read, mem, a, room, chunk);
    }
  }

  lemma StringUpToNul(mem: Memory, a: nat, cap: nat, chunk: seq<Byte>, pos: nat)
    requires |chunk| <= cap && Stand(mem, a, chunk)
    requires pos < |chunk| && chunk[pos] == 0 && 0 !in chunk[..pos]
    ensures StringAt(mem, a, cap) == chunk[..pos]
  {
    StringAcrossChunk(mem, a, cap, chunk[..pos]);
    assert mem[a + pos] == chunk[pos];
    assert chunk[..pos] + [] == chunk[..pos];
  }

  /** Against an honest reader the chunks do not show: the result is the string in memory, or
      nothing exactly if the address is null or nothing is mapped there. */
  lemma ReadCstrIsChunkFree(read: Reader, mem: Memory, addr: U64, cap: nat)
    requires Honest(read, mem) && addr + cap <= TWO64
    ensures Cstr(read, addr, cap) == CStringIn(mem, addr, cap)
  {
    HonestReads(read, mem, addr, cap);
  }

  /** The defining property of the string: no NUL in it, all of it mapped, and it stops only
      where it must. */
  lemma {:induction false} StringAtIsMaximal(mem: Memory, a: nat, cap: nat)
    ensures var s := StringAt(mem, a, cap);
      && |s| <= cap && 0 !in s
      && Stand(mem, a, s)
      && (|s| < cap ==> a + |s| !in mem || mem[a + |s|] == 0)
    decreases cap
  {
    if !(cap == 0 || a !in mem || mem[a] == 0) {
      StringAtIsMaximal(mem, a + 1, cap - 1);
    }
  }

  // ---------------------------------------------------------------- quoting

  function OctalDigit(d: nat): char
    requires d < 8
  {
    '0' + d as char
  }

  predicate IsOctalDigit(c: char) {
    '0' <= c <= '7'
  }

  /** Rust's `{b:o}`: no leading zeros. */
  function Octal(b: Byte): string {
    if b < 8 then [OctalDigit(b)]
    else if b < 64 then [OctalDigit(b / 8), OctalDigit(b % 8)]
    else [OctalDigit(b / 64), OctalDigit(b / 8 % 8), OctalDigit(b % 8)]
  }

  function Escape(b: Byte): string {
    if b == '"' as nat then "\\\""
    else if b == '\\' as nat then "\\\\"
    else if b == '\n' as nat then "\\n"
    else if b == '\r' as nat then "\\r"
    else if b == '\t' as nat then "\\t"
    else if 0x20 <= b <= 0x7e then [b as char]
    else "\\" + Octal(b)
  }

  function EscapeAll(bytes: seq<Byte>): string {
    FlatMap(Escape, bytes)
  }

  function Shown(bytes: seq<Byte>): seq<Byte> {
    if |bytes| <= MAX_STR then bytes else bytes[..MAX_STR]
  }

  function Quote(bytes: seq<Byte>): string {
    "\"" + EscapeAll(Shown(bytes)) + "\"" + if |bytes| > MAX_STR then "..." else ""
  }

  lemma EscapeAllAppend(bytes: seq<Byte>, b: Byte)
    ensures EscapeAll(bytes + [b]) == EscapeAll(bytes) + Escape(b)
  {
    FlatMapAppends(Escape, bytes, [b]);
    FlatMapOne(Escape, b);
  }

  lemma QuotedOneMore(bytes: seq<Byte>, i: nat)
    requires i < |bytes|
    ensures "\"" + EscapeAll(bytes[..i + 1]) == "\"" + EscapeAll(bytes[..i]) + Escape(bytes[i])
  {
    assert bytes[..i + 1] == bytes[..i] + [bytes[i]];
    EscapeAllAppend(bytes[..i], bytes[i]);
  }

  method QuoteBytes(bytes: seq<Byte>) returns (s: string)
    ensures s == Quote(bytes)
  {
    var truncated := |bytes| > MAX_STR;
    s := "\"";
    var shown := Shown(bytes);
    for i := 0 to |shown|
      invariant s == "\"" + EscapeAll(shown[..i])
    {
      ghost var before := s;
      var b := shown[i];
      if b == '"' as nat {
        s := s + "\\\"";
      } else if b == '\\' as nat {
        s := s + "\\\\";
      } else if b == '\n' as nat {
        s := s + "\\n";
      } else if b == '\r' as nat {
        s := s + "\\r";
      } else if b == '\t' as nat {
        s := s + "\\t";
      } else if 0x20 <= b <= 0x7e {
        s := s + [b as char];
      } else {
        s := s + "\\" + Octal(b);
      }
      assert s == before + Escape(b);
      QuotedOneMore(shown, i);
    }
    assert shown[..|shown|] == shown;
    s := s + "\"";
    if truncated {
      s := s + "...";
    }
  }

  predicate Printable(s: string) {
    forall i :: 0 <= i < |s| ==> ' ' <= s[i] <= '~'
  }

  lemma {:induction false} EscapeAllShape(bytes: seq<Byte>)
    ensures Printable(EscapeAll(bytes)) && |EscapeAll(bytes)| <= 4 * |bytes|
  {
    if bytes != [] {
      EscapeAllShape(bytes[1..]);
      assert Printable(Escape(bytes[0])) && |Escape(bytes[0])| <= 4;
    }
  }

  /** Whatever the bytes, the text is printable ASCII and short. */
  lemma QuoteShape(bytes: seq<Byte>)
    ensures Printable(Quote(bytes)) && |Quote(bytes)| <= 133
  {
    EscapeAllShape(Shown(bytes));
  }

  /** What can be printed is printed as it is. */
  predicate PrintsAsItself(b: Byte) {
    0x20 <= b <= 0x7e && b != '"' as nat && b != '\\' as nat
  }

  lemma {:induction false} EscapeAllPlain(bytes: seq<Byte>)
    requires forall i :: 0 <= i < |bytes| ==> PrintsAsItself(bytes[i])
    ensures |EscapeAll(bytes)| == |bytes|
    ensures forall i :: 0 <= i < |bytes| ==> EscapeAll(bytes)[i] as int == bytes[i]
  {
    if |bytes| > 0 {
      EscapeAllPlain(bytes[1..]);
      assert EscapeAll(bytes) == [bytes[0] as char] + EscapeAll(bytes[1..]);
    }
  }

  lemma PlainTextUnchanged(bytes: seq<Byte>)
    requires |bytes| <= 32 && forall i :: 0 <= i < |bytes| ==> PrintsAsItself(bytes[i])
    ensures |Quote(bytes)| == |bytes| + 2 && forall i :: 0 <= i < |bytes| ==> Quote(bytes)[i + 1] as int == bytes[i]
  {
    EscapeAllPlain(bytes);
  }

  // ---------------------------------------------------------------- reading a quoted string back

  /** How many octal digits an escape takes: all there are, at most three. */
  function OctalRun(s: string, max: nat): (n: nat)
    ensures n <= max && n <= |s|
    decreases max, |s|
  {
    if max == 0 || |s| == 0 || !IsOctalDigit(s[0]) then 0 else 1 + OctalRun(s[1..], max - 1)
  }

  function OctalValue(s: string): nat
    requires forall i :: 0 <= i < |s| ==> IsOctalDigit(s[i])
  {
    if |s| == 0 then 0
    else
      assert IsOctalDigit(s[|s| - 1]);
      8 * OctalValue(s[..|s| - 1]) + (s[|s| - 1] as int - '0' as int)
  }

  /** The letters that stand for a byte behind a backslash. */
  function Letter(c: char): Option<Byte> {
    match c
    case '"' => Some('"' as int)
    case '\\' => Some('\\' as int)
    case 'n' => Some('\n' as int)
    case 'r' => Some('\r' as int)
    case 't' => Some('\t' as int)
    case _ => None
  }

  /** The octal digits behind a backslash, with the length of the whole escape. */
  function OctalEscape(s: string): Option<(Byte, nat)> {
    var k := OctalRun(s, 3);
    if k == 0 then None
    else
      OctalRunDigits(s, 3);
      Some((OctalValue(s[..k]) % 256, 1 + k))
  }

  /** One byte off the front of a quoted body, with the length of its text. */
  function Unit(s: string): Option<(Byte, nat)>
    requires s != ""
  {
    if s[0] != '\\' then if s[0] as int < 256 then Some((s[0] as int, 1)) else None
    else if |s| == 1 then None
    else if Letter(s[1]).Some? then Some((Letter(s[1]).value, 2))
    else OctalEscape(s[1..])
  }

  lemma OctalRunDigits(s: string, max: nat)
    ensures forall i :: 0 <= i < OctalRun(s, max) ==> IsOctalDigit(s[i])
    decreases max
  {
    if max > 0 && s != "" && IsOctalDigit(s[0]) {
      OctalRunDigits(s[1..], max - 1);
      forall i | 0 <= i < OctalRun(s, max)
        ensures IsOctalDigit(s[i])
      {
        if i > 0 { assert s[i] == s[1..][i - 1]; }
      }
    }
  }

  /** The bytes up to the closing quote, and what follows it. */
  function Body(s: string): Option<(seq<Byte>, string)>
    decreases |s|
  {
    if |s| == 0 then None
    else if s[0] == '"' then Some(([], s[1..]))
    else
      var u := Unit(s);
      if u.None? || u.value.1 > |s| || u.value.1 == 0 then None
      else
        var rest := Body(s[u.value.1..]);
        if rest.None? then None else Some(([u.value.0] + rest.value.0, rest.value.1))
  }

  /** The reader a user of the trace would write: the shown bytes, and whether there were more. */
  function Unquote(s: string): Option<(seq<Byte>, bool)> {
    if |s| == 0 || s[0] != '"' then None
    else
      var b := Body(s[1..]);
      if b.None? then None
      else if |b.value.1| == 0 then Some((b.value.0, false))
      else if b.value.1 == "..." then Some((b.value.0, true))
      else None
  }

  /** Printed as an octal escape of fewer than three digits. */
  predicate ShortOctal(b: Byte) {
    b < 32 && b != '\n' as nat && b != '\r' as nat && b != '\t' as nat
  }

  predicate PrintsAsOctalDigit(b: Byte) {
    '0' as nat <= b <= '7' as nat
  }

  /** No short escape is followed by a byte that reads like one more digit of it. */
  predicate Unambiguous(bytes: seq<Byte>) {
    forall i :: 0 <= i < |bytes| - 1 ==> !(ShortOctal(bytes[i]) && PrintsAsOctalDigit(bytes[i + 1]))
  }

  lemma {:induction false} OctalRunWhole(digits: string, rest: string, max: nat)
    requires |digits| <= max && forall i :: 0 <= i < |digits| ==> IsOctalDigit(digits[i])
    requires |digits| == max || |rest| == 0 || !IsOctalDigit(rest[0])
    ensures OctalRun(digits + rest, max) == |digits|
    decreases |digits|
  {
    if digits == "" {
      assert digits + rest == rest;
    } else {
      assert (digits + rest)[1..] == digits[1..] + rest;
      OctalRunWhole(digits[1..], rest, max - 1);
    }
  }

  lemma OctalValueGrows(s: string, c: char)
    requires forall i :: 0 <= i < |s| ==> IsOctalDigit(s[i])
    requires IsOctalDigit(c)
    ensures OctalValue(s + [c]) == 8 * OctalValue(s) + (c as int - '0' as int)
  {
    assert (s + [c])[..|s|] == s;
  }

  lemma OctalOne(d: nat)
    requires d < 8
    ensures OctalValue([OctalDigit(d)]) == d
  {
    var none := [OctalDigit(d)][..0];
    OctalValueGrows(none, OctalDigit(d));
    assert none + [OctalDigit(d)] == [OctalDigit(d)];
  }

  lemma OctalTwo(d: nat, e: nat)
    requires d < 8 && e < 8
    ensures OctalValue([OctalDigit(d), OctalDigit(e)]) == 8 * d + e
  {
    OctalOne(d);
    OctalValueGrows([OctalDigit(d)], OctalDigit(e));
    assert [OctalDigit(d)] + [OctalDigit(e)] == [OctalDigit(d), OctalDigit(e)];
  }

  lemma OctalThree(d: nat, e: nat, f: nat)
    requires d < 8 && e < 8 && f < 8
    ensures OctalValue([OctalDigit(d), OctalDigit(e), OctalDigit(f)]) == 64 * d + 8 * e + f
  {
    OctalTwo(d, e);
    OctalValueGrows([OctalDigit(d), OctalDigit(e)], OctalDigit(f));
    assert [OctalDigit(d), OctalDigit(e)] + [OctalDigit(f)] == [OctalDigit(d), OctalDigit(e), OctalDigit(f)];
  }

  lemma OctalDigitsAreDigits(b: Byte)
    ensures forall i :: 0 <= i < |Octal(b)| ==> IsOctalDigit(Octal(b)[i])
  {
  }

  lemma OctalReads(b: Byte)
    ensures forall i :: 0 <= i < |Octal(b)| ==> IsOctalDigit(Octal(b)[i])
    ensures OctalValue(Octal(b)) == b
  {
    OctalDigitsAreDigits(b);
    if b < 8 {
      OctalOne(b);
    } else if b < 64 {
      OctalTwo(b / 8, b % 8);
    } else {
      OctalThree(b / 64, b / 8 % 8, b % 8);
      assert b == 64 * (b / 64) + 8 * (b / 8 % 8) + b % 8;
    }
  }

  /** The first byte of a quoted body is `b`; its text has `n` characters and `rest` follows. */
  predicate Takes(s: string, b: Byte, n: nat, rest: string) {
    0 < n <= |s| && s[0] != '"' && Unit(s) == Some((b, n)) && s[n..] == rest
  }

  lemma OctalEscapeReads(run: string, rest: string)
    requires 1 <= |run| <= 3 && forall i :: 0 <= i < |run| ==> IsOctalDigit(run[i])
    requires |run| == 3 || |rest| == 0 || !IsOctalDigit(rest[0])
    ensures OctalEscape(run + rest) == Some((OctalValue(run) % 256, 1 + |run|))
  {
    OctalRunWhole(run, rest, 3);
    assert (run + rest)[..|run|] == run;
  }

  lemma UnitIsOctal(s: string)
    requires |s| > 1 && s[0] == '\\' && IsOctalDigit(s[1])
    ensures Unit(s) == OctalEscape(s[1..])
  {
  }

  lemma BackslashRun(run: string, rest: string)
    requires |run| >= 1
    ensures var s := "\\" + run + rest;
      s[0] == '\\' && s[1] == run[0] && s[1..] == run + rest && s[1 + |run|..] == rest
  {
  }

  /** A backslash and all the octal digits behind it, at most three. */
  lemma OctalUnit(run: string, rest: string)
    requires 1 <= |run| <= 3 && forall i :: 0 <= i < |run| ==> IsOctalDigit(run[i])
    requires |run| == 3 || |rest| == 0 || !IsOctalDigit(rest[0])
    ensures Takes("\\" + run + rest, OctalValue(run) % 256, 1 + |run|, rest)
  {
    var s := "\\" + run + rest;
    BackslashRun(run, rest);
    UnitIsOctal(s);
    OctalEscapeReads(run, rest);
  }

  lemma LetterUnit(c: char, rest: string)
    requires Letter(c).Some?
    ensures Takes("\\" + [c] + rest, Letter(c).value, 2, rest)
  {
  }

  lemma CharUnit(c: char, rest: string)
    requires ' ' <= c <= '~' && c != '"' && c != '\\'
    ensures Takes([c] + rest, c as int, 1, rest)
  {
  }

  /** The three ways a byte is printed. */
  lemma EscapeCases(b: Byte)
    ensures || (Escape(b) == "\\" + Octal(b))
            || (exists c :: Letter(c) == Some(b) && Escape(b) == "\\" + [c])
            || (0x20 <= b <= 0x7e && b != '"' as nat && b != '\\' as nat && Escape(b) == [b as char])
  {
    assert Letter('"').Some? && Letter('\\').Some? && Letter('n').Some? && Letter('r').Some? && Letter('t').Some?;
  }

  /** The text of a byte followed by something that does not continue it. */
  lemma UnitReads(b: Byte, rest: string)
    requires ShortOctal(b) ==> |rest| == 0 || !IsOctalDigit(rest[0])
    ensures Takes(Escape(b) + rest, b, |Escape(b)|, rest)
  {
    EscapeCases(b);
    if Escape(b) == "\\" + Octal(b) {
      OctalReads(b);
      OctalUnit(Octal(b), rest);
    } else if c :| Letter(c) == Some(b) && Escape(b) == "\\" + [c] {
      LetterUnit(c, rest);
    } else {
      CharUnit(b as char, rest);
    }
  }

  /** What stands behind a byte in a quoted string: the next byte's text, or the closing quote. */
  lemma NextChar(bytes: seq<Byte>, tail: string)
    ensures var s := EscapeAll(bytes) + "\"" + tail;
      IsOctalDigit(s[0]) <==> bytes != [] && PrintsAsOctalDigit(bytes[0])
  {
    if bytes != [] {
      assert (EscapeAll(bytes) + "\"" + tail)[0] == Escape(bytes[0])[0];
    }
  }

  lemma EscapeAllFirst(bytes: seq<Byte>, tail: string)
    requires bytes != []
    ensures EscapeAll(bytes) + "\"" + tail == Escape(bytes[0]) + (EscapeAll(bytes[1..]) + "\"" + tail)
  {
    assert EscapeAll(bytes) == Escape(bytes[0]) + EscapeAll(bytes[1..]);
  }

  lemma DigitFirst(bytes: seq<Byte>, tail: string)
    requires bytes != [] && PrintsAsOctalDigit(bytes[0])
    ensures EscapeAll(bytes) + "\"" + tail == [bytes[0] as char] + (EscapeAll(bytes[1..]) + "\"" + tail)
  {
    EscapeAllFirst(bytes, tail);
  }

  lemma ShortEscape(b: Byte)
    requires ShortOctal(b)
    ensures Escape(b) == "\\" + Octal(b) && 1 <= |Octal(b)| <= 2
    ensures forall i :: 0 <= i < |Octal(b)| ==> IsOctalDigit(Octal(b)[i])
  {
  }

  /** An ambiguous byte and the digit behind it. */
  lemma AmbiguousFront(bytes: seq<Byte>, tail: string)
    requires |bytes| >= 2 && ShortOctal(bytes[0]) && PrintsAsOctalDigit(bytes[1])
    ensures EscapeAll(bytes) + "\"" + tail
         == "\\" + (Octal(bytes[0]) + [bytes[1] as char]) + (EscapeAll(bytes[2..]) + "\"" + tail)
  {
    ShortEscape(bytes[0]);
    EscapeAllFirst(bytes, tail);
    DigitFirst(bytes[1..], tail);
    assert bytes[1..][1..] == bytes[2..];
  }

  lemma RunGrows(run: string, d: char, rest: string)
    ensures "\\" + run + ([d] + rest) == "\\" + (run + [d]) + rest
  {
  }

  /** An ambiguous byte swallows at least one of the bytes behind it. */
  lemma UnitSwallows(bytes: seq<Byte>, tail: string) returns (e: nat, b: Byte, n: nat)
    requires |bytes| >= 2 && ShortOctal(bytes[0]) && PrintsAsOctalDigit(bytes[1])
    ensures 1 <= e < |bytes|
    ensures Takes(EscapeAll(bytes) + "\"" + tail, b, n, EscapeAll(bytes[1 + e..]) + "\"" + tail)
  {
    AmbiguousFront(bytes, tail);
    ShortEscape(bytes[0]);
    NextChar(bytes[2..], tail);
    var run, rest := Octal(bytes[0]) + [bytes[1] as char], EscapeAll(bytes[2..]) + "\"" + tail;
    e := 1;
    if |run| == 2 && |bytes| > 2 && PrintsAsOctalDigit(bytes[2]) {
      DigitFirst(bytes[2..], tail);
      assert bytes[2..][1..] == bytes[3..];
      RunGrows(run, bytes[2] as char, EscapeAll(bytes[3..]) + "\"" + tail);
      e, run, rest := 2, run + [bytes[2] as char], EscapeAll(bytes[3..]) + "\"" + tail;
    }
    OctalUnit(run, rest);
    b, n := OctalValue(run) % 256, 1 + |run|;
  }

  /** Reading on behind the first byte. */
  lemma BodyTakes(s: string, b: Byte, n: nat, rest: string)
    requires Takes(s, b, n, rest) && Body(rest).Some?
    ensures Body(s) == Some(([b] + Body(rest).value.0, Body(rest).value.1))
  {
  }

  /** Reading a quoted body back always works; it gives the bytes if they are unambiguous,
      and too few of them if they are not. */
  lemma {:induction false} BodyReads(bytes: seq<Byte>, tail: string)
    ensures var b := Body(EscapeAll(bytes) + "\"" + tail);
      && b.Some? && b.value.1 == tail
      && (if Unambiguous(bytes) then b.value.0 == bytes else |b.value.0| < |bytes|)
    decreases |bytes|
  {
    var s := EscapeAll(bytes) + "\"" + tail;
    if bytes == [] {
      assert s == "\"" + tail && s[1..] == tail;
    } else if |bytes| >= 2 && ShortOctal(bytes[0]) && PrintsAsOctalDigit(bytes[1]) {
      var e, b, n := UnitSwallows(bytes, tail);
      BodyReads(bytes[1 + e..], tail);
      BodyTakes(s, b, n, EscapeAll(bytes[1 + e..]) + "\"" + tail);
    } else {
      var rest := EscapeAll(bytes[1..]) + "\"" + tail;
      EscapeAllFirst(bytes, tail);
      NextChar(bytes[1..], tail);
      UnitReads(bytes[0], rest);
      BodyReads(bytes[1..], tail);
      BodyTakes(s, bytes[0], |Escape(bytes[0])|, rest);
      UnambiguousTail(bytes);
    }
  }

  lemma UnambiguousTail(bytes: seq<Byte>)
    requires bytes != [] && !(|bytes| >= 2 && ShortOctal(bytes[0]) && PrintsAsOctalDigit(bytes[1]))
    ensures Unambiguous(bytes) <==> Unambiguous(bytes[1..])
  {
    if Unambiguous(bytes[1..]) {
      forall i | 0 <= i < |bytes| - 1
        ensures !(ShortOctal(bytes[i]) && PrintsAsOctalDigit(bytes[i + 1]))
      {
        if i > 0 {
          assert bytes[i] == bytes[1..][i - 1] && bytes[i + 1] == bytes[1..][i];
        }
      }
    }
  }

  lemma UnquoteReads(body: string, shown: seq<Byte>, more: bool)
    requires Body(body) == Some((shown, if more then "..." else ""))
    ensures Unquote("\"" + body) == Some((shown, more))
  {
    assert ("\"" + body)[1..] == body;
  }

  lemma QuoteIsBody(bytes: seq<Byte>, tail: string)
    requires tail == if |bytes| > MAX_STR then "..." else ""
    ensures Quote(bytes) == "\"" + (EscapeAll(Shown(bytes)) + "\"" + tail)
  {
  }

  lemma BodyRoundTrip(shown: seq<Byte>, more: bool, tail: string)
    requires tail == if more then "..." else ""
    ensures Unquote("\"" + (EscapeAll(shown) + "\"" + tail)) == Some((shown, more)) <==> Unambiguous(shown)
  {
    var body := EscapeAll(shown) + "\"" + tail;
    BodyReads(shown, tail);
    UnquoteReads(body, Body(body).value.0, more);
  }

  /** A quoted string can be read back (the shown bytes, and whether there were more) exactly
      if no short escape in it is followed by an octal digit. */
  lemma QuoteRoundTrip(bytes: seq<Byte>)
    ensures var shown := if |bytes| <= 32 then bytes else bytes[..32];
      Unquote(Quote(bytes)) == Some((shown, |bytes| > 32)) <==> Unambiguous(shown)
  {
    var tail := if |bytes| > MAX_STR then "..." else "";
    QuoteIsBody(bytes, tail);
    BodyRoundTrip(Shown(bytes), |bytes| > MAX_STR, tail);
  }

  /** The condition is needed: two different byte strings print alike. */
  lemma QuoteIsAmbiguous()
    ensures Quote([1, '3' as nat]) == Quote([11])
  {
    var low: Byte, digit: Byte, both: Byte := 1, '3' as nat, 11;
    var one: seq<Byte> := [low];
    EscapeAllAppend(one, digit);
    FlatMapOne(Escape, low);
    FlatMapOne(Escape, both);
    assert one + [digit] == [1, '3' as nat];
    assert Escape(low) + Escape(digit) == Escape(both);
  }
}
