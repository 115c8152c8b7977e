/**
 * What the fetcher reads out of status and header lines, with the C library's
 * conventions: text ends at a NUL, numbers are read from the front and saturate.
 */
module HeaderText {
  import opened Basics

  const LLONG_MAX: int := 0x7fff_ffff_ffff_ffff
  const ULONG_MAX: nat := 0xffff_ffff

  function Ascii(s: string): seq<byte> {
    seq(|s|, i requires 0 <= i < |s| => (s[i] as int) % 256)
  }

  /** Where `b` first is in s, or |s|. */
  function IndexOf(s: seq<byte>, b: byte): (k: nat)
    ensures k <= |s| && (k < |s| ==> s[k] == b) && forall i | 0 <= i < k :: s[i] != b
  {
    if s == [] || s[0] == b then 0 else 1 + IndexOf(s[1..], b)
  }

  function CString(s: seq<byte>): seq<byte> {
    s[..IndexOf(s, NUL)]
  }

  function Lower(b: byte): byte {
    if 65 <= b <= 90 then b + 32 else b
  }

  predicate SameNoCase(a: seq<byte>, b: seq<byte>) {
    |a| == |b| && forall i | 0 <= i < |a| :: Lower(a[i]) == Lower(b[i])
  }

  predicate StartsNoCase(s: seq<byte>, prefix: seq<byte>) {
    |prefix| <= |s| && SameNoCase(s[..|prefix|], prefix)
  }

  predicate ContainsNoCase(s: seq<byte>, part: seq<byte>) {
    exists i | 0 <= i <= |s| :: StartsNoCase(s[i..], part)
  }

  predicate IsBlank(b: byte) {
    b == SPACE || b == TAB
  }

  predicate IsSpace(b: byte) {
    b == SPACE || 9 <= b <= 13
  }

  predicate IsDigit(b: byte) {
    48 <= b <= 57
  }

  function SkipBlanks(s: seq<byte>): seq<byte> {
    if s != [] && IsBlank(s[0]) then SkipBlanks(s[1..]) else s
  }

  function SkipSpaces(s: seq<byte>): seq<byte> {
    if s != [] && IsSpace(s[0]) then SkipSpaces(s[1..]) else s
  }

  function TrimEnd(s: seq<byte>): (t: seq<byte>)
    ensures t <= s && (t != [] ==> !IsBlank(t[|t| - 1]))
    ensures forall i | |t| <= i < |s| :: IsBlank(s[i])
  {
    if s != [] && IsBlank(s[|s| - 1]) then TrimEnd(s[..|s| - 1]) else s
  }

  /** The value of a header line with this name. */
  function HeaderValue(line: seq<byte>, name: string): Option<seq<byte>> {
    var text, n := CString(line), Ascii(name);
    if StartsNoCase(text, n) && |text| > |n| && text[|n|] == 58 then Some(SkipBlanks(text[|n| + 1..])) else None
  }

  function DecimalValue(s: seq<byte>, sofar: nat): nat
    decreases |s|
  {
    if s == [] || !IsDigit(s[0]) then sofar else DecimalValue(s[1..], sofar * 10 + (s[0] - 48))
  }

  /** strtoll of the text, to base 10. */
  function ParseDecimal(s: seq<byte>): int {
    var t := SkipSpaces(CString(s));
    var negative := t != [] && t[0] == 45;
    var digits := if t != [] && (t[0] == 45 || t[0] == 43) then t[1..] else t;
    var v: int := DecimalValue(digits, 0);
    if negative then Max(-v, -LLONG_MAX - 1) else Min(v, LLONG_MAX)
  }

  /** How many of the first bytes are hexadecimal digits. */
  function HexRun(s: seq<byte>): (k: nat)
    ensures k <= |s| && AllHex(s[..k]) && (k < |s| ==> !IsHexDigit(s[k]))
  {
    if s == [] || !IsHexDigit(s[0]) then 0
    else
      var k := 1 + HexRun(s[1..]);
      assert forall i | 1 <= i < k :: s[..k][i] == s[1..][..k - 1][i - 1];
      k
  }

  /** strtoul of the text, to base 16, with 32 bits; nothing when there are no digits. */
  function ParseHex(s: seq<byte>): Option<nat> {
    var t := SkipSpaces(CString(s));
    var negative := t != [] && t[0] == 45;
    var u := if t != [] && (t[0] == 45 || t[0] == 43) then t[1..] else t;
    var digits := if |u| > 2 && u[0] == 48 && (u[1] == 120 || u[1] == 88) && IsHexDigit(u[2]) then u[2..] else u;
    var k := HexRun(digits);
    if k == 0 then None
    else
      var v := HexValue(digits[..k]);
      Some(if v > ULONG_MAX then ULONG_MAX else if negative then (ULONG_MAX + 1 - v) % (ULONG_MAX + 1) else v)
  }

  lemma {:induction false} IndexOfPast(a: seq<byte>, b: seq<byte>, c: byte)
    requires forall i | 0 <= i < |a| :: a[i] != c
    ensures IndexOf(a + b, c) == |a| + IndexOf(b, c)
  {
    if a == [] {
      assert a + b == b;
    } else {
      assert (a + b)[1..] == a[1..] + b;
      IndexOfPast(a[1..], b, c);
    }
  }

  lemma {:induction false} HexRunOf(digits: seq<byte>, rest: seq<byte>)
    requires AllHex(digits) && (rest != [] ==> !IsHexDigit(rest[0]))
    ensures HexRun(digits + rest) == |digits|
  {
    if digits == [] {
      assert digits + rest == rest;
    } else {
      assert (digits + rest)[1..] == digits[1..] + rest;
      HexRunOf(digits[1..], rest);
    }
  }

  /** A size followed by something that cannot belong to it is read as the number it denotes. */
  lemma ParseHexReads(digits: seq<byte>, rest: seq<byte>)
    requires digits != [] && AllHex(digits) && HexValue(digits) <= ULONG_MAX
    requires rest != [] ==> !IsHexDigit(rest[0]) && rest[0] != 120 && rest[0] != 88
    ensures ParseHex(digits + rest) == Some(HexValue(digits))
  {
    hide HexValue, HexRun, IndexOf;
    IndexOfPast(digits, rest, NUL);
    var text := CString(digits + rest);
    var tail := rest[..IndexOf(rest, NUL)];
    assert text == digits + tail;
    HexRunOf(digits, tail);
    assert text[..|digits|] == digits;
    assert SkipSpaces(text) == text;
  }

  /** Capitals stand for the small letters, and everything else for itself. */
  lemma LowerIsByLetters(b: byte)
    ensures 'A' as int <= b <= 'Z' as int ==> Lower(b) - 'a' as int == b - 'A' as int
    ensures b < 'A' as int || b > 'Z' as int ==> Lower(b) == b
  {
  }

  function LowerAll(s: seq<byte>): (t: seq<byte>)
    ensures |t| == |s| && forall i | 0 <= i < |s| :: t[i] == Lower(s[i])
  {
    seq(|s|, i requires 0 <= i < |s| => Lower(s[i]))
  }
}
