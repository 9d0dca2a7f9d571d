/** Number formatting shared by the renderers, and reading numbers back. */
module Text {
  import opened Common

  function HexDigit(d: nat): char
    requires d < 16
  {
    if d < 10 then '0' + d as char else 'a' + (d - 10) as char
  }

  function HexDigits(n: nat): string {
    if n < 16 then [HexDigit(n)] else HexDigits(n / 16) + [HexDigit(n % 16)]
  }

  /** Rust's `{:#x}`. */
  function Hex(n: nat): string {
    "0x" + HexDigits(n)
  }

  function Decimal(n: nat): string {
    if n < 10 then ['0' + n as char] else Decimal(n / 10) + ['0' + (n % 10) as char]
  }

  function SignedDecimal(n: int): string {
    if n < 0 then "-" + Decimal(-n) else Decimal(n)
  }

  /** `ptr_or_null`. */
  function PtrOrNull(value: U64): string {
    if value == 0 then "NULL" else Hex(value)
  }

  function HexDigitValue(c: char): Option<nat> {
    if '0' <= c <= '9' then Some((c - '0') as nat)
    else if 'a' <= c <= 'f' then Some((c - 'a') as nat + 10)
    else None
  }

  function HexValue(s: string): Option<nat> {
    if s == "" then Some(0)
    else
      var before, last := HexValue(s[..|s| - 1]), HexDigitValue(s[|s| - 1]);
      if before.None? || last.None? then None else Some(16 * before.value + last.value)
  }

  lemma {:induction false} HexReadsBack(n: nat)
    ensures HexValue(HexDigits(n)) == Some(n)
    ensures HexDigits(n) != "" && (HexDigits(n)[0] == '0' ==> n == 0)
  {
    var s := HexDigits(n);
    if n >= 16 {
      HexReadsBack(n / 16);
      assert s[..|s| - 1] == HexDigits(n / 16);
    } else {
      assert s[..0] == "";
    }
  }

  /** Reading a hexadecimal number with its `0x`. */
  function HexNumber(s: string): Option<nat> {
    if |s| >= 2 && s[0] == '0' && s[1] == 'x' then HexValue(s[2..]) else None
  }

  lemma HexNumberReadsBack(n: nat)
    ensures HexNumber(Hex(n)) == Some(n)
  {
    HexReadsBack(n);
    assert Hex(n)[2..] == HexDigits(n);
  }

  function DecimalValue(s: string): Option<nat> {
    if |s| == 0 then Some(0)
    else
      var before, last := DecimalValue(s[..|s| - 1]), s[|s| - 1];
      if before.None? || !('0' <= last <= '9') then None else Some(10 * before.value + (last as int - '0' as int))
  }

  lemma {:induction false} DecimalReadsBack(n: nat)
    ensures DecimalValue(Decimal(n)) == Some(n) && Decimal(n) != "" && '0' <= Decimal(n)[0] <= '9'
    ensures Decimal(n)[0] == '0' ==> n == 0
  {
    var s := Decimal(n);
    if n >= 10 {
      DecimalReadsBack(n / 10);
      assert s[..|s| - 1] == Decimal(n / 10);
    } else {
      assert |s[..0]| == 0;
    }
  }

  function SignedValue(s: string): Option<int> {
    if |s| > 0 && s[0] == '-'
    then
      var v := DecimalValue(s[1..]);
      if v.None? then None else Some(0 - v.value)
    else
      var v := DecimalValue(s);
      if v.None? then None else Some(v.value)
  }

  lemma SignedReadsBack(n: int)
    ensures SignedValue(SignedDecimal(n)) == Some(n) && SignedDecimal(n) != "AT_FDCWD"
  {
    DecimalReadsBack(if n < 0 then -n else n);
    if n < 0 {
      assert SignedDecimal(n)[1..] == Decimal(-n);
    }
  }

  /** A character of a plain rendering: a letter, a digit, or one of `_|-[]`. */
  predicate PlainChar(c: char) {
    'a' <= c <= 'z' || 'A' <= c <= 'Z' || '0' <= c <= '9' || c == '_' || c == '|' || c == '-' || c == '[' || c == ']'
  }

  predicate Plain(s: string) {
    s != "" && forall i :: 0 <= i < |s| ==> PlainChar(s[i])
  }

  lemma {:induction false} HexIsPlain(n: nat)
    ensures Plain(HexDigits(n)) && Plain(Hex(n))
    ensures forall i :: 0 <= i < |HexDigits(n)| ==> HexDigits(n)[i] != '|'
  {
    if n >= 16 {
      HexIsPlain(n / 16);
    }
  }

  lemma {:induction false} DecimalIsPlain(n: nat)
    ensures Plain(Decimal(n))
  {
    if n >= 10 {
      DecimalIsPlain(n / 10);
    }
  }

  lemma SignedDecimalIsPlain(n: int)
    ensures Plain(SignedDecimal(n))
  {
    DecimalIsPlain(if n < 0 then -n else n);
  }

  lemma PtrIsPlain(value: U64)
    ensures Plain(PtrOrNull(value))
  {
    HexIsPlain(value);
  }

  /** Puts character `c` in front of a text that was split into `pieces`. */
  function SplitChar(c: char, sep: char, pieces: seq<string>): (r: seq<string>)
    requires |pieces| > 0
    ensures |r| > 0
  {
    if c == sep then [""] + pieces else [[c] + pieces[0]] + pieces[1..]
  }

  /** Rust's `split` on one character. */
  function Split(s: string, sep: char): (pieces: seq<string>)
    ensures |pieces| > 0
  {
    if |s| == 0 then [s] else SplitChar(s[0], sep, Split(s[1..], sep))
  }

  lemma SplitCharAppends(c: char, sep: char, a: seq<string>, b: seq<string>)
    requires |a| > 0
    ensures SplitChar(c, sep, a + b) == SplitChar(c, sep, a) + b
  {
    assert (a + b)[1..] == a[1..] + b;
  }

  lemma {:induction false} SplitAppends(a: string, b: string, sep: char)
    ensures Split(a + [sep] + b, sep) == Split(a, sep) + Split(b, sep)
  {
    var s := a + [sep] + b;
    if |a| == 0 {
      assert s[0] == sep && s[1..] == b;
    } else {
      SplitAppends(a[1..], b, sep);
      assert s[0] == a[0] && s[1..] == a[1..] + [sep] + b;
      SplitCharAppends(a[0], sep, Split(a[1..], sep), Split(b, sep));
    }
  }

  lemma {:induction false} SplitOne(t: string, sep: char)
    requires sep !in t
    ensures Split(t, sep) == [t]
  {
    if |t| > 0 {
      SplitOne(t[1..], sep);
      assert [t[0]] + t[1..] == t;
    }
  }

  lemma SplitToken(t: string, rest: string, sep: char)
    requires sep !in t
    ensures Split(t + [sep] + rest, sep) == [t] + Split(rest, sep)
    ensures Split(t, sep) == [t]
  {
    SplitOne(t, sep);
    SplitAppends(t, rest, sep);
  }

  /** Rust's `flat_map`. */
  function FlatMap<A, B>(f: A -> seq<B>, xs: seq<A>): seq<B> {
    if |xs| == 0 then [] else f(xs[0]) + FlatMap(f, xs[1..])
  }

  lemma {:induction false} FlatMapAppends<A, B>(f: A -> seq<B>, a: seq<A>, b: seq<A>)
    ensures FlatMap(f, a + b) == FlatMap(f, a) + FlatMap(f, b)
  {
    if |a| == 0 {
      assert a + b == b;
    } else {
      FlatMapAppends(f, a[1..], b);
      assert (a + b)[0] == a[0] && (a + b)[1..] == a[1..] + b;
      assert FlatMap(f, a + b) == f(a[0]) + (FlatMap(f, a[1..]) + FlatMap(f, b));
    }
  }

  lemma FlatMapOne<A, B>(f: A -> seq<B>, x: A)
    ensures FlatMap(f, [x]) == f(x)
  {
    var xs := [x];
    assert |xs[1..]| == 0;
  }
}
