/** Types shared by the models: octets and the few characters protocols name. */
module Basics {
  type byte = x: int | 0 <= x < 256

  const NUL: byte := 0
  const TAB: byte := 9
  const LF: byte := 10
  const CR: byte := 13
  const SPACE: byte := 32
  const SEMICOLON: byte := 59

  datatype Option<+T> = None | Some(value: T)

  function Min(a: int, b: int): int {
    if a <= b then a else b
  }

  function Max(a: int, b: int): int {
    if a <= b then b else a
  }

  function Abs(x: int): nat {
    if x < 0 then -x else x
  }

  /** What follows an offset; nothing past the end. */
  function From(s: seq<byte>, at: nat): seq<byte> {
    s[Min(at, |s|)..]
  }

  predicate IsHexDigit(b: byte) {
    || 48 <= b <= 57   // 0-9
    || 65 <= b <= 70   // A-F
    || 97 <= b <= 102  // a-f
  }

  function HexDigitValue(b: byte): (v: nat)
    requires IsHexDigit(b)
    ensures v < 16
  {
    if b <= 57 then b - 48 else if b <= 70 then b - 55 else b - 87
  }

  predicate AllHex(s: seq<byte>) {
    forall i | 0 <= i < |s| :: IsHexDigit(s[i])
  }

  /** The number a run of hexadecimal digits denotes, most significant first. */
  function HexValue(digits: seq<byte>): nat
    requires AllHex(digits)
  {
    if digits == [] then 0
    else HexValue(digits[..|digits| - 1]) * 16 + HexDigitValue(digits[|digits| - 1])
  }

  // ── Arithmetic ──────────────────────────────────────────────────────────

  lemma Multiples(c: int, d: int)
    requires c > 0
    ensures d >= 1 ==> c * d >= c
    ensures d <= -1 ==> c * d <= -c
  {
  }

  lemma ModUnique(y: int, c: nat, q: int, r: int)
    requires c > 0 && y == c * q + r && 0 <= r < c
    ensures y % c == r
  {
    Multiples(c, q - y / c);
    assert c * (q - y / c) == y % c - r by {
      assert c * (y / c) + y % c == y;
      assert c * (q - y / c) == c * q - c * (y / c);
    }
  }
}
