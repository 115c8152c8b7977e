/**
 * Character conversion: one character is decoded and encoded at a time, and a call
 * stops at an incomplete tail or a full output buffer to be continued later.
 */
module Iconv {
  import opened Basics

  datatype Encoding = Utf8 | Ascii | Latin1 | Cp1252 | Utf16BE | Utf16LE | Utf32BE | Utf32LE

  const MAX_CODE := 0x10FFFF
  type Code = x: int | 0 <= x <= MAX_CODE

  const QUESTION: Code := 63

  predicate IsSurrogate(uc: Code) {
    0xD800 <= uc <= 0xDFFF
  }

  /** The characters of the 32 bytes where Windows-1252 differs from Latin-1; 0 for bytes that stand for none. */
  function Cp1252High(i: nat): (uc: Code)
    requires i < 32
    ensures uc == 0 || (uc > 0xFF && !IsSurrogate(uc))
  {
    match i
    case 0 => 0x20AC case 1 => 0 case 2 => 0x201A case 3 => 0x0192
    case 4 => 0x201E case 5 => 0x2026 case 6 => 0x2020 case 7 => 0x2021
    case 8 => 0x02C6 case 9 => 0x2030 case 10 => 0x0160 case 11 => 0x2039
    case 12 => 0x0152 case 13 => 0 case 14 => 0x017D case 15 => 0
    case 16 => 0 case 17 => 0x2018 case 18 => 0x2019 case 19 => 0x201C
    case 20 => 0x201D case 21 => 0x2022 case 22 => 0x2013 case 23 => 0x2014
    case 24 => 0x02DC case 25 => 0x2122 case 26 => 0x0161 case 27 => 0x203A
    case 28 => 0x0153 case 29 => 0 case 30 => 0x017E case _ => 0x0178
  }

  predicate IsUtf16(enc: Encoding) {
    enc == Utf16BE || enc == Utf16LE
  }

  predicate IsUtf32(enc: Encoding) {
    enc == Utf32BE || enc == Utf32LE
  }

  // ── Decoding ────────────────────────────────────────────────────────────

  datatype Decoded = Incomplete | Invalid | Char(used: nat, uc: Code)

  predicate IsContinuation(b: byte) {
    0x80 <= b < 0xC0
  }

  function Unit(first: byte, second: byte, big: bool): (u: Code)
    ensures u < 0x1_0000
  {
    if big then first * 256 + second else second * 256 + first
  }

  function DecodeUtf16(s: seq<byte>, big: bool): (d: Decoded)
    requires s != []
    ensures d.Char? ==> 1 <= d.used <= Min(|s|, 4) && !IsSurrogate(d.uc)
    ensures d == Incomplete ==> |s| < 4
  {
    if |s| < 2 then Incomplete
    else
      var u := Unit(s[0], s[1], big);
      if 0xD800 <= u < 0xDC00 then
        if |s| < 4 then Incomplete
        else
          var lo := Unit(s[2], s[3], big);
          if lo < 0xDC00 || lo > 0xDFFF then Invalid
          else Char(4, 0x10000 + (u - 0xD800) * 1024 + (lo - 0xDC00))
      else if 0xDC00 <= u <= 0xDFFF then Invalid
      else Char(2, u)
  }

  function Utf32Char(b3: byte, b2: byte, b1: byte, b0: byte): Decoded {
    var u := b3 * 0x100_0000 + b2 * 0x1_0000 + b1 * 0x100 + b0;
    if u > MAX_CODE then Invalid else Char(4, u)
  }

  /** The continuation bytes from i on, u being what the bytes before them denote. */
  function Utf8Tail(s: seq<byte>, i: nat, n: nat, u: nat): (d: Decoded)
    requires 1 <= i <= n <= 4 && i <= |s|
    ensures d.Char? ==> d.used == n <= |s| && !IsSurrogate(d.uc)
    ensures d == Incomplete ==> |s| < n
    decreases n - i
  {
    if i == n then
      if (n == 3 && u < 0x800) || (n == 4 && u < 0x10000) || u > MAX_CODE || IsSurrogate(u) then Invalid else Char(n, u)
    else if i >= |s| then Incomplete
    else if !IsContinuation(s[i]) then Invalid
    else Utf8Tail(s, i + 1, n, u * 64 + (s[i] - 0x80))
  }

  function DecodeUtf8(s: seq<byte>): (d: Decoded)
    requires s != []
    ensures d.Char? ==> 1 <= d.used <= Min(|s|, 4) && !IsSurrogate(d.uc)
    ensures d == Incomplete ==> |s| < 4
  {
    var c: int := s[0];
    if c < 0x80 then Char(1, c)
    else if 0xC2 <= c <= 0xDF then Utf8Tail(s, 1, 2, c - 0xC0)
    else if 0xE0 <= c <= 0xEF then Utf8Tail(s, 1, 3, c - 0xE0)
    else if 0xF0 <= c <= 0xF4 then Utf8Tail(s, 1, 4, c - 0xF0)
    else Invalid
  }

  function Decode(enc: Encoding, s: seq<byte>): (d: Decoded)
    requires s != []
    ensures d.Char? ==> 1 <= d.used <= Min(|s|, 4)
    ensures d == Incomplete ==> |s| < 4
    ensures d.Char? && !IsUtf32(enc) ==> !IsSurrogate(d.uc)
  {
    match enc
    case Ascii => if s[0] > 0x7F then Invalid else Char(1, s[0])
    case Latin1 => Char(1, s[0])
    case Cp1252 =>
      if 0x80 <= s[0] <= 0x9F
      then if Cp1252High(s[0] - 0x80) != 0 then Char(1, Cp1252High(s[0] - 0x80)) else Invalid
      else Char(1, s[0])
    case Utf16BE => DecodeUtf16(s, true)
    case Utf16LE => DecodeUtf16(s, false)
    case Utf32BE => if |s| < 4 then Incomplete else Utf32Char(s[0], s[1], s[2], s[3])
    case Utf32LE => if |s| < 4 then Incomplete else Utf32Char(s[3], s[2], s[1], s[0])
    case Utf8 => DecodeUtf8(s)
  }

  // ── Encoding ────────────────────────────────────────────────────────────

  datatype Encoded = NoRoom | Unrepresentable | Bytes(bytes: seq<byte>)

  function Fitting(bytes: seq<byte>, room: nat): Encoded {
    if room < |bytes| then NoRoom else Bytes(bytes)
  }

  /** The last of the first n table entries that is uc, or -1. */
  function LastHigh(uc: Code, n: nat): (i: int)
    requires n <= 32
    ensures -1 <= i < n && (i >= 0 ==> Cp1252High(i) == uc && uc != 0)
    ensures forall k | 0 <= k < n && Cp1252High(k) == uc && uc != 0 :: k <= i
  {
    if n == 0 then -1
    else if Cp1252High(n - 1) != 0 && Cp1252High(n - 1) == uc then n - 1
    else LastHigh(uc, n - 1)
  }

  function UnitBytes(u: int, big: bool): seq<byte>
    requires 0 <= u < 0x1_0000
  {
    if big then [u / 256, u % 256] else [u % 256, u / 256]
  }

  function EncodeUtf16(uc: Code, big: bool): (b: seq<byte>)
    ensures |b| == if uc >= 0x10000 then 4 else 2
  {
    if uc >= 0x10000
    then UnitBytes(0xD800 + (uc - 0x10000) / 1024, big) + UnitBytes(0xDC00 + (uc - 0x10000) % 1024, big)
    else UnitBytes(uc, big)
  }

  function EncodeUtf8(uc: Code): (b: seq<byte>)
    ensures 1 <= |b| <= 4
  {
    if uc < 0x80 then [uc]
    else if uc < 0x800 then [0xC0 + uc / 64, 0x80 + uc % 64]
    else if uc < 0x10000 then [0xE0 + uc / 4096, 0x80 + uc / 64 % 64, 0x80 + uc % 64]
    else [0xF0 + uc / 0x4_0000, 0x80 + uc / 4096 % 64, 0x80 + uc / 64 % 64, 0x80 + uc % 64]
  }

  function Encode(enc: Encoding, uc: Code, room: nat): (e: Encoded)
    ensures e.Bytes? ==> 1 <= |e.bytes| <= Min(room, 4)
  {
    match enc
    case Ascii => if uc > 0x7F then Unrepresentable else Fitting([uc], room)
    case Latin1 => if uc > 0xFF then Unrepresentable else Fitting([uc], room)
    case Cp1252 =>
      if uc < 0x80 || 0xA0 <= uc <= 0xFF then Fitting([uc], room)
      else
        var i := LastHigh(uc, 32);
        if i < 0 then Unrepresentable else Fitting([0x80 + i], room)
    case Utf16BE => Fitting(EncodeUtf16(uc, true), room)
    case Utf16LE => Fitting(EncodeUtf16(uc, false), room)
    case Utf32BE => Fitting([0, uc / 0x1_0000, uc / 0x100 % 256, uc % 256], room)
    case Utf32LE => Fitting([uc % 256, uc / 0x100 % 256, uc / 0x1_0000, 0], room)
    case Utf8 => Fitting(EncodeUtf8(uc), room)
  }

  // ── One character, there and back ───────────────────────────────────────

  lemma Utf32DecodeOfEncode(uc: Code)
    ensures Utf32Char(0, uc / 0x1_0000, uc / 0x100 % 256, uc % 256) == Char(4, uc)
  {
    assert uc / 0x1_0000 == uc / 0x100 / 256;
  }

  lemma Utf16DecodeOfEncode(uc: Code, after: seq<byte>, big: bool)
    ensures DecodeUtf16(EncodeUtf16(uc, big) + after, big) == Char(|EncodeUtf16(uc, big)|, uc) <==> !IsSurrogate(uc)
  {
    var s := EncodeUtf16(uc, big) + after;
    if uc >= 0x10000 {
      assert Unit(s[0], s[1], big) == 0xD800 + (uc - 0x10000) / 1024;
      assert Unit(s[2], s[3], big) == 0xDC00 + (uc - 0x10000) % 1024;
    } else {
      assert Unit(s[0], s[1], big) == uc;
    }
  }

  lemma Utf8TailOf2(uc: Code, s: seq<byte>)
    requires 0x80 <= uc < 0x800 && |s| >= 2 && s[1] == 0x80 + uc % 64
    ensures Utf8Tail(s, 1, 2, uc / 64) == Char(2, uc)
  {
    assert uc / 64 * 64 + uc % 64 == uc;
    assert Utf8Tail(s, 1, 2, uc / 64) == Utf8Tail(s, 2, 2, uc);
  }

  lemma Utf8TailOf3(uc: Code, s: seq<byte>)
    requires 0x800 <= uc < 0x10000 && |s| >= 3 && s[1] == 0x80 + uc / 64 % 64 && s[2] == 0x80 + uc % 64
    ensures Utf8Tail(s, 1, 3, uc / 4096) == if IsSurrogate(uc) then Invalid else Char(3, uc)
  {
    assert uc / 4096 * 64 + uc / 64 % 64 == uc / 64 && uc / 64 * 64 + uc % 64 == uc;
    assert Utf8Tail(s, 1, 3, uc / 4096) == Utf8Tail(s, 2, 3, uc / 64) == Utf8Tail(s, 3, 3, uc);
  }

  lemma Utf8TailOf4(uc: Code, s: seq<byte>)
    requires 0x10000 <= uc && |s| >= 4
    requires s[1] == 0x80 + uc / 4096 % 64 && s[2] == 0x80 + uc / 64 % 64 && s[3] == 0x80 + uc % 64
    ensures Utf8Tail(s, 1, 4, uc / 0x4_0000) == Char(4, uc)
  {
    assert uc / 0x4_0000 * 64 + uc / 4096 % 64 == uc / 4096;
    assert uc / 4096 * 64 + uc / 64 % 64 == uc / 64 && uc / 64 * 64 + uc % 64 == uc;
    assert Utf8Tail(s, 1, 4, uc / 0x4_0000) == Utf8Tail(s, 2, 4, uc / 4096) == Utf8Tail(s, 3, 4, uc / 64)
        == Utf8Tail(s, 4, 4, uc);
  }

  lemma Utf8DecodeOfEncode(uc: Code, after: seq<byte>)
    ensures DecodeUtf8(EncodeUtf8(uc) + after) == Char(|EncodeUtf8(uc)|, uc) <==> !IsSurrogate(uc)
  {
    hide Utf8Tail;
    var b := EncodeUtf8(uc);
    var s := b + after;
    assert forall i | 0 <= i < |b| :: s[i] == b[i];
    if uc < 0x80 {
    } else if uc < 0x800 {
      Utf8TailOf2(uc, s);
    } else if uc < 0x10000 {
      Utf8TailOf3(uc, s);
    } else {
      Utf8TailOf4(uc, s);
    }
  }

  predicate IsWrittenNotRead(enc: Encoding, uc: Code) {
    IsSurrogate(uc) && (enc == Utf8 || IsUtf16(enc))
  }

  /**
   * Decoding what encoding wrote gives the character back, whatever follows, except for exactly
   * the surrogates, which UTF-8 and UTF-16 write but do not read.
   */
  lemma DecodeOfEncode(enc: Encoding, uc: Code, room: nat, after: seq<byte>)
    requires Encode(enc, uc, room).Bytes?
    ensures var b := Encode(enc, uc, room).bytes;
            Decode(enc, b + after) == Char(|b|, uc) <==> !IsWrittenNotRead(enc, uc)
  {
    hide LastHigh, Cp1252High, DecodeUtf8, EncodeUtf8, DecodeUtf16, EncodeUtf16, Utf32Char;
    match enc
    case Utf8 => Utf8DecodeOfEncode(uc, after);
    case Utf16BE => Utf16DecodeOfEncode(uc, after, true);
    case Utf16LE => Utf16DecodeOfEncode(uc, after, false);
    case Utf32BE => Utf32DecodeOfEncode(uc);
    case Utf32LE => Utf32DecodeOfEncode(uc);
    case _ =>
  }

  lemma Utf32EncodeOfDecode(b3: byte, b2: byte, b1: byte, b0: byte)
    requires Utf32Char(b3, b2, b1, b0).Char?
    ensures var uc := Utf32Char(b3, b2, b1, b0).uc;
            b3 == 0 && uc / 0x1_0000 == b2 && uc / 0x100 % 256 == b1 && uc % 256 == b0
    ensures Utf32Char(b3, b2, b1, b0).used == 4
  {
    var uc := Utf32Char(b3, b2, b1, b0).uc;
    assert uc / 0x100 == b2 * 0x100 + b1;
  }

  /** No two entries are the same: the place of each in the table. */
  function TableIndex(uc: Code): int {
    if uc == 0x20AC then 0
    else if uc == 0x201A then 2
    else if uc == 0x0192 then 3
    else if uc == 0x201E then 4
    else if uc == 0x2026 then 5
    else if uc == 0x2020 then 6
    else if uc == 0x2021 then 7
    else if uc == 0x02C6 then 8
    else if uc == 0x2030 then 9
    else if uc == 0x0160 then 10
    else if uc == 0x2039 then 11
    else if uc == 0x0152 then 12
    else if uc == 0x017D then 14
    else if uc == 0x2018 then 17
    else if uc == 0x2019 then 18
    else if uc == 0x201C then 19
    else if uc == 0x201D then 20
    else if uc == 0x2022 then 21
    else if uc == 0x2013 then 22
    else if uc == 0x2014 then 23
    else if uc == 0x02DC then 24
    else if uc == 0x2122 then 25
    else if uc == 0x0161 then 26
    else if uc == 0x203A then 27
    else if uc == 0x0153 then 28
    else if uc == 0x017E then 30
    else if uc == 0x0178 then 31
    else -1
  }

  lemma HighHasIndex(i: nat)
    requires i < 32
    ensures Cp1252High(i) != 0 ==> TableIndex(Cp1252High(i)) == i
  {
  }

  lemma HighDistinct(i: nat)
    requires i < 32 && Cp1252High(i) != 0
    ensures LastHigh(Cp1252High(i), 32) == i
  {
    hide Cp1252High, TableIndex, LastHigh;
    HighHasIndex(i);
    HighHasIndex(LastHigh(Cp1252High(i), 32));
  }

  lemma Cp1252EncodeOfDecode(s: seq<byte>, room: nat)
    requires s != [] && Decode(Cp1252, s).Char? && room >= 1
    ensures Encode(Cp1252, Decode(Cp1252, s).uc, room) == Bytes(s[..1])
  {
    hide LastHigh;
    assert [s[0]] == s[..1];
    if 0x80 <= s[0] <= 0x9F {
      HighDistinct(s[0] - 0x80);
    }
  }

  lemma UnitBytesOf(a: byte, b: byte, big: bool)
    ensures UnitBytes(Unit(a, b, big), big) == [a, b]
  {
  }

  lemma Utf16EncodeOfDecode(s: seq<byte>, big: bool)
    requires s != [] && DecodeUtf16(s, big).Char?
    ensures EncodeUtf16(DecodeUtf16(s, big).uc, big) == s[..DecodeUtf16(s, big).used]
  {
    hide Unit, UnitBytes;
    var d := DecodeUtf16(s, big);
    var u := Unit(s[0], s[1], big);
    UnitBytesOf(s[0], s[1], big);
    if d.used == 4 {
      var lo := Unit(s[2], s[3], big);
      UnitBytesOf(s[2], s[3], big);
      assert (d.uc - 0x10000) / 1024 == u - 0xD800 && (d.uc - 0x10000) % 1024 == lo - 0xDC00;
      assert s[..4] == [s[0], s[1]] + [s[2], s[3]];
    } else {
      assert s[..2] == [s[0], s[1]];
    }
  }

  lemma Utf8Two(b0: int, b1: int, s: seq<byte>)
    requires |s| >= 2 && b0 == s[0] && b1 == s[1] && 0xC2 <= b0 <= 0xDF && Utf8Tail(s, 1, 2, b0 - 0xC0).Char?
    ensures EncodeUtf8(Utf8Tail(s, 1, 2, b0 - 0xC0).uc) == [s[0], s[1]]
  {
    assert Utf8Tail(s, 1, 2, b0 - 0xC0) == Utf8Tail(s, 2, 2, (b0 - 0xC0) * 64 + (b1 - 0x80));
  }

  lemma Utf8Three(b0: int, b1: int, b2: int, s: seq<byte>)
    requires |s| >= 3 && b0 == s[0] && b1 == s[1] && b2 == s[2] && 0xE0 <= b0 <= 0xEF
    requires Utf8Tail(s, 1, 3, b0 - 0xE0).Char?
    ensures EncodeUtf8(Utf8Tail(s, 1, 3, b0 - 0xE0).uc) == [s[0], s[1], s[2]]
  {
    var u := (b0 - 0xE0) * 64 + (b1 - 0x80);
    assert Utf8Tail(s, 1, 3, b0 - 0xE0) == Utf8Tail(s, 2, 3, u) == Utf8Tail(s, 3, 3, u * 64 + (b2 - 0x80));
    var uc := u * 64 + (b2 - 0x80);
    assert uc / 64 == u && uc / 4096 == u / 64;
  }

  lemma Utf8Four(b0: int, b1: int, b2: int, b3: int, s: seq<byte>)
    requires |s| >= 4 && b0 == s[0] && b1 == s[1] && b2 == s[2] && b3 == s[3] && 0xF0 <= b0 <= 0xF4
    requires Utf8Tail(s, 1, 4, b0 - 0xF0).Char?
    ensures EncodeUtf8(Utf8Tail(s, 1, 4, b0 - 0xF0).uc) == [s[0], s[1], s[2], s[3]]
  {
    var u := (b0 - 0xF0) * 64 + (b1 - 0x80);
    var v := u * 64 + (b2 - 0x80);
    assert Utf8Tail(s, 1, 4, b0 - 0xF0) == Utf8Tail(s, 2, 4, u) == Utf8Tail(s, 3, 4, v)
        == Utf8Tail(s, 4, 4, v * 64 + (b3 - 0x80));
    var uc := v * 64 + (b3 - 0x80);
    assert uc / 64 == v && uc / 4096 == v / 64 == u && uc / 0x4_0000 == u / 64;
  }

  lemma Utf8EncodeOfDecode(s: seq<byte>)
    requires s != [] && DecodeUtf8(s).Char?
    ensures EncodeUtf8(DecodeUtf8(s).uc) == s[..DecodeUtf8(s).used]
  {
    var n := DecodeUtf8(s).used;
    if n == 1 {
      assert s[..1] == [s[0]];
    } else if n == 2 {
      assert s[..2] == [s[0], s[1]];
      Utf8Two(s[0], s[1], s);
    } else if n == 3 {
      assert s[..3] == [s[0], s[1], s[2]];
      Utf8Three(s[0], s[1], s[2], s);
    } else {
      assert s[..4] == [s[0], s[1], s[2], s[3]];
      Utf8Four(s[0], s[1], s[2], s[3], s);
    }
  }

  /**
   * Encoding what decoding read gives the same bytes back, in every encoding: there is one form
   * of each character, the shortest.
   */
  lemma EncodeOfDecode(enc: Encoding, s: seq<byte>, room: nat)
    requires s != [] && Decode(enc, s).Char? && room >= Decode(enc, s).used
    ensures Encode(enc, Decode(enc, s).uc, room) == Bytes(s[..Decode(enc, s).used])
  {
    hide LastHigh, Cp1252High, DecodeUtf8, EncodeUtf8, DecodeUtf16, EncodeUtf16, Utf32Char;
    match enc
    case Utf8 => Utf8EncodeOfDecode(s);
    case Utf16BE => Utf16EncodeOfDecode(s, true);
    case Utf16LE => Utf16EncodeOfDecode(s, false);
    case Cp1252 => Cp1252EncodeOfDecode(s, room);
    case Utf32BE => Utf32EncodeOfDecode(s[0], s[1], s[2], s[3]); assert s[..4] == [s[0], s[1], s[2], s[3]];
    case Utf32LE => Utf32EncodeOfDecode(s[3], s[2], s[1], s[0]); assert s[..4] == [s[0], s[1], s[2], s[3]];
    case _ => assert [s[0]] == s[..1];
  }

  /** What Encode calls unrepresentable is exactly what Decode never gives. */
  lemma RepresentableIffDecoded(enc: Encoding, uc: Code)
    requires !IsWrittenNotRead(enc, uc)
    ensures Encode(enc, uc, 4).Bytes? <==> exists s :: s != [] && Decode(enc, s).Char? && Decode(enc, s).uc == uc
  {
    hide Decode, Encode;
    if Encode(enc, uc, 4).Bytes? {
      var b := Encode(enc, uc, 4).bytes;
      DecodeOfEncode(enc, uc, 4, []);
      assert b + [] == b;
    } else if s :| s != [] && Decode(enc, s).Char? && Decode(enc, s).uc == uc {
      EncodeOfDecode(enc, s, 4);
    }
  }

  // ── What lets a conversion be continued ─────────────────────────────────

  lemma {:induction false} Utf8TailIsStable(s: seq<byte>, more: seq<byte>, i: nat, n: nat, u: nat)
    requires 1 <= i <= n <= 4 && i <= |s| && Utf8Tail(s, i, n, u) != Incomplete
    ensures Utf8Tail(s + more, i, n, u) == Utf8Tail(s, i, n, u)
    decreases n - i
  {
    if i < n && IsContinuation(s[i]) {
      Utf8TailIsStable(s, more, i + 1, n, u * 64 + (s[i] - 0x80));
    }
  }

  /** An answer other than "incomplete" stands whatever comes later. */
  lemma DecodeIsStable(enc: Encoding, s: seq<byte>, more: seq<byte>)
    requires s != [] && Decode(enc, s) != Incomplete
    ensures Decode(enc, s + more) == Decode(enc, s)
  {
    hide Cp1252High, Utf32Char, Unit, Utf8Tail;
    var t := s + more;
    assert forall i | 0 <= i < |s| :: t[i] == s[i];
    if enc == Utf8 {
      if 0xC2 <= s[0] <= 0xDF {
        Utf8TailIsStable(s, more, 1, 2, s[0] - 0xC0);
      } else if 0xE0 <= s[0] <= 0xEF {
        Utf8TailIsStable(s, more, 1, 3, s[0] - 0xE0);
      } else if 0xF0 <= s[0] <= 0xF4 {
        Utf8TailIsStable(s, more, 1, 4, s[0] - 0xF0);
      }
    }
  }

  /** Room decides only whether the bytes fit: not which they are, nor whether there are any. */
  lemma EncodeRoom(enc: Encoding, uc: Code, room: nat)
    ensures Encode(enc, uc, room) == match Encode(enc, uc, 4)
                                     case Bytes(b) => Fitting(b, room)
                                     case e => e
    ensures Encode(enc, uc, 4) != NoRoom
  {
  }

  // ── Whole calls ─────────────────────────────────────────────────────────

  datatype Descriptor = Descriptor(from: Encoding, to: Encoding, translit: bool)

  /** Why a call ends: Converted, or EILSEQ, EINVAL and E2BIG. */
  datatype Ending = Converted | IllegalSequence | IncompleteTail | OutputFull

  datatype Step = Stop(why: Ending) | Wrote(used: nat, bytes: seq<byte>, lossy: nat)

  function EncodeStep(cd: Descriptor, used: nat, uc: Code, lossy: nat, room: nat): (r: Step)
    ensures r.Wrote? ==> r.used == used && 1 <= |r.bytes| <= Min(room, 4) && r.lossy >= lossy
    ensures r.Stop? ==> r.why == IllegalSequence || r.why == OutputFull
  {
    match Encode(cd.to, uc, room)
    case Bytes(b) => Wrote(used, b, lossy)
    case NoRoom => Stop(OutputFull)
    case Unrepresentable =>
      if !cd.translit then Stop(IllegalSequence)
      else match Encode(cd.to, QUESTION, room)
        case Bytes(b) => Wrote(used, b, lossy + 1)
        case _ => Stop(OutputFull)
  }

  function StepOf(cd: Descriptor, s: seq<byte>, room: nat): (r: Step)
    requires s != []
    ensures r.Wrote? ==> 1 <= r.used <= |s| && 1 <= |r.bytes| <= Min(room, 4)
    ensures r.Stop? ==> r.why != Converted
  {
    match Decode(cd.from, s)
    case Incomplete => Stop(IncompleteTail)
    case Invalid => if !cd.translit then Stop(IllegalSequence) else EncodeStep(cd, 1, QUESTION, 1, room)
    case Char(used, uc) => EncodeStep(cd, used, uc, 0, room)
  }

  /** What a call does: the bytes it takes and gives, why it ends, and how many characters were replaced. */
  datatype Call = Call(used: nat, out: seq<byte>, why: Ending, lossy: nat) {
    function Then(next: Call): Call {
      Call(used + next.used, out + next.out, next.why, lossy + next.lossy)
    }
  }

  function Convert(cd: Descriptor, s: seq<byte>, room: nat): (c: Call)
    ensures c.used <= |s| && |c.out| <= room
    ensures c.why == Converted ==> c.used == |s|
    decreases |s|
  {
    if s == [] then Call(0, [], Converted, 0)
    else match StepOf(cd, s, room)
      case Stop(why) => Call(0, [], why, 0)
      case Wrote(used, bytes, lossy) =>
        Call(used, bytes, Converted, lossy).Then(Convert(cd, s[used..], room - |bytes|))
  }

  lemma QuestionFits(enc: Encoding, room: nat)
    ensures Encode(enc, QUESTION, room) != Unrepresentable
    ensures room >= 4 ==> Encode(enc, QUESTION, room).Bytes?
  {
  }

  lemma EncodeRoomForBoth(cd: Descriptor, s: seq<byte>)
    requires s != []
    ensures StepOf(cd, s, 4) != Stop(OutputFull)
  {
    match Decode(cd.from, s)
    case Char(_, uc) => EncodeRoom(cd.to, uc, 4); EncodeRoom(cd.to, QUESTION, 4); QuestionFits(cd.to, 4);
    case _ => QuestionFits(cd.to, 4);
  }

  /** The same with all the room it could want. */
  function Whole(cd: Descriptor, s: seq<byte>): (c: Call)
    ensures c.used <= |s| && c.why != OutputFull
    ensures c.why == Converted ==> c.used == |s|
    decreases |s|
  {
    if s == [] then Call(0, [], Converted, 0)
    else
      EncodeRoomForBoth(cd, s);
      match StepOf(cd, s, 4)
      case Stop(why) => Call(0, [], why, 0)
      case Wrote(used, bytes, lossy) => Call(used, bytes, Converted, lossy).Then(Whole(cd, s[used..]))
  }

  /** A step with some room is the step with all the room, if its bytes fit. */
  lemma StepRoom(cd: Descriptor, s: seq<byte>, room: nat)
    requires s != []
    ensures StepOf(cd, s, room) == match StepOf(cd, s, 4)
                                   case Wrote(_, bytes, _) =>
                                     if |bytes| <= room then StepOf(cd, s, 4) else Stop(OutputFull)
                                   case stop => stop
  {
    EncodeRoom(cd.to, QUESTION, room);
    QuestionFits(cd.to, 4);
    match Decode(cd.from, s)
    case Char(_, uc) => EncodeRoom(cd.to, uc, room);
    case _ =>
  }

  lemma StepIsStable(cd: Descriptor, s: seq<byte>, more: seq<byte>)
    requires s != [] && StepOf(cd, s, 4) != Stop(IncompleteTail)
    ensures StepOf(cd, s + more, 4) == StepOf(cd, s, 4)
  {
    DecodeIsStable(cd.from, s, more);
  }

  /** One call does the whole conversion if and only if its output fits. */
  lemma {:induction false} OneCallIsWhole(cd: Descriptor, s: seq<byte>, room: nat)
    ensures Convert(cd, s, room) == Whole(cd, s) <==> |Whole(cd, s).out| <= room
    decreases |s|
  {
    if s == [] {
    } else {
      StepRoom(cd, s, room);
      var step := StepOf(cd, s, 4);
      if step.Wrote? && |step.bytes| <= room {
        OneCallIsWhole(cd, s[step.used..], room - |step.bytes|);
        var rest := Convert(cd, s[step.used..], room - |step.bytes|);
        var whole := Whole(cd, s[step.used..]);
        if step.bytes + rest.out == step.bytes + whole.out {
          assert rest.out == (step.bytes + rest.out)[|step.bytes|..] == whole.out;
        }
      }
    }
  }

  lemma NothingTaken(cd: Descriptor, s: seq<byte>, room: nat)
    requires Convert(cd, s, room).used == 0
    ensures Convert(cd, s, room).out == [] && Convert(cd, s, room).lossy == 0
  {
  }

  /**
   * However a call ended, continuing from where it left the pointers, with more input or not,
   * does the rest of the whole conversion.
   */
  lemma {:induction false} CallContinues(cd: Descriptor, s: seq<byte>, more: seq<byte>, room: nat)
    ensures var c := Convert(cd, s, room);
            Whole(cd, s + more) == c.Then(Whole(cd, s[c.used..] + more))
    decreases |s|
  {
    hide StepOf;
    var c := Convert(cd, s, room);
    if c.used == 0 {
      assert s[0..] == s;
      NothingTaken(cd, s, room);
      var w := Whole(cd, s + more);
      assert [] + w.out == w.out;
    } else {
      WroteContinues(cd, s, more, room);
    }
  }

  lemma ConvertWrote(cd: Descriptor, s: seq<byte>, room: nat)
    requires s != [] && StepOf(cd, s, room).Wrote?
    ensures var step := StepOf(cd, s, room);
            Convert(cd, s, room)
            == Call(step.used, step.bytes, Converted, step.lossy).Then(Convert(cd, s[step.used..], room - |step.bytes|))
  {
  }

  lemma WholeWrote(cd: Descriptor, s: seq<byte>)
    requires s != [] && StepOf(cd, s, 4).Wrote?
    ensures var step := StepOf(cd, s, 4);
            Whole(cd, s) == Call(step.used, step.bytes, Converted, step.lossy).Then(Whole(cd, s[step.used..]))
  {
  }

  lemma {:induction false} WroteContinues(cd: Descriptor, s: seq<byte>, more: seq<byte>, room: nat)
    requires s != [] && StepOf(cd, s, room).Wrote?
    ensures var c := Convert(cd, s, room);
            Whole(cd, s + more) == c.Then(Whole(cd, s[c.used..] + more))
    decreases |s|, 0
  {
    hide StepOf, Convert, Whole;
    StepRoom(cd, s, room);
    var step := StepOf(cd, s, 4);
    ConvertWrote(cd, s, room);
    StepIsStable(cd, s, more);
    WholeWrote(cd, s + more);
    CallContinues(cd, s[step.used..], more, room - |step.bytes|);
    var rest := Convert(cd, s[step.used..], room - |step.bytes|);
    assert (s + more)[step.used..] == s[step.used..] + more;
    assert s[step.used..][rest.used..] == s[step.used + rest.used..];
    var w := Whole(cd, s[step.used + rest.used..] + more);
    assert step.bytes + (rest.out + w.out) == (step.bytes + rest.out) + w.out;
  }

  lemma ConvertStops(cd: Descriptor, s: seq<byte>, room: nat)
    requires s != [] && StepOf(cd, s, room).Stop?
    ensures Convert(cd, s, room) == Call(0, [], StepOf(cd, s, room).why, 0)
  {
  }

  lemma ConvertNothing(cd: Descriptor, room: nat)
    ensures Convert(cd, [], room) == Call(0, [], Converted, 0)
  {
  }

  lemma ThenNothing(c: Call)
    ensures Call(0, [], Converted, 0).Then(c) == c
  {
    assert [] + c.out == c.out;
  }

  lemma ThenIsAssociative(a: Call, b: Call, c: Call)
    ensures a.Then(b.Then(c)) == a.Then(b).Then(c)
  {
    assert a.out + (b.out + c.out) == (a.out + b.out) + c.out;
  }

  /** A buffer after bytes were written into it at a place. */
  function Written(buffer: seq<byte>, at: nat, bytes: seq<byte>): (b: seq<byte>)
    requires at + |bytes| <= |buffer|
    ensures |b| == |buffer|
  {
    buffer[..at] + bytes + buffer[at + |bytes|..]
  }

  lemma WrittenMore(buffer: seq<byte>, at: nat, done: seq<byte>, bytes: seq<byte>)
    requires at + |done| + |bytes| <= |buffer|
    ensures Written(Written(buffer, at, done), at + |done|, bytes) == Written(buffer, at, done + bytes)
  {
    var was := Written(buffer, at, done);
    assert was[..at + |done|] == buffer[..at] + done;
    assert was[at + |done| + |bytes|..] == buffer[at + |done| + |bytes|..];
  }

  lemma WrittenNothing(buffer: seq<byte>, at: nat)
    requires at <= |buffer|
    ensures Written(buffer, at, []) == buffer
  {
  }

  // ── Any number of calls ─────────────────────────────────────────────────

  /** A call: the input that has arrived since the last one, and the room there is. */
  datatype Turn = Turn(more: seq<byte>, room: nat)

  function Arrived(turns: seq<Turn>): seq<byte> {
    if turns == [] then [] else turns[0].more + Arrived(turns[1..])
  }

  /** Calls on what is pending, each time with what has arrived. */
  function Calls(cd: Descriptor, pending: seq<byte>, turns: seq<Turn>): (r: (Call, seq<byte>))
    decreases |turns|
  {
    if turns == [] then (Call(0, [], Converted, 0), pending)
    else
      var s := pending + turns[0].more;
      var c := Convert(cd, s, turns[0].room);
      var (later, left) := Calls(cd, s[c.used..], turns[1..]);
      (c.Then(later), left)
  }

  /**
   * Converting in pieces, whatever the pieces and whatever the room in each call, writes what one
   * call on everything would write: what is not yet written is the conversion of what is pending.
   */
  lemma {:induction false} PiecesAreWhole(cd: Descriptor, pending: seq<byte>, turns: seq<Turn>)
    ensures var (c, left) := Calls(cd, pending, turns);
            Whole(cd, pending + Arrived(turns)) == c.Then(Whole(cd, left))
    decreases |turns|
  {
    hide Convert, Whole;
    if turns == [] {
      assert pending + [] == pending;
      var w := Whole(cd, pending);
      assert [] + w.out == w.out;
    } else {
      var s := pending + turns[0].more;
      var c := Convert(cd, s, turns[0].room);
      var (later, left) := Calls(cd, s[c.used..], turns[1..]);
      CallContinues(cd, s, Arrived(turns[1..]), turns[0].room);
      PiecesAreWhole(cd, s[c.used..], turns[1..]);
      assert pending + Arrived(turns) == s + Arrived(turns[1..]);
      var w := Whole(cd, left);
      assert c.out + (later.out + w.out) == (c.out + later.out) + w.out;
    }
  }

  // ── A whole text, there and back ────────────────────────────────────────

  /** The characters of a text, as far as it decodes. */
  function Chars(enc: Encoding, s: seq<byte>): seq<Code>
    decreases |s|
  {
    if s == [] || !Decode(enc, s).Char? then []
    else [Decode(enc, s).uc] + Chars(enc, s[Decode(enc, s).used..])
  }

  predicate Readable(enc: Encoding, text: seq<Code>) {
    forall i | 0 <= i < |text| :: !IsWrittenNotRead(enc, text[i])
  }

  function Back(cd: Descriptor): Descriptor {
    Descriptor(cd.to, cd.from, cd.translit)
  }

  lemma StepBack(cd: Descriptor, s: seq<byte>, after: seq<byte>)
    requires s != [] && StepOf(cd, s, 4).Wrote? && StepOf(cd, s, 4).lossy == 0
    ensures var step, d := StepOf(cd, s, 4), Decode(cd.from, s);
            && d.Char? && d.used == step.used
            && (!IsWrittenNotRead(cd.to, d.uc) ==>
                StepOf(Back(cd), step.bytes + after, 4) == Wrote(|step.bytes|, s[..step.used], 0))
  {
    hide Decode, Encode;
    DecodeOfEncode(cd.to, Decode(cd.from, s).uc, 4, after);
    EncodeOfDecode(cd.from, s, 4);
  }

  lemma SurrogatesAreUtf32(cd: Descriptor, s: seq<byte>)
    requires s != [] && Decode(cd.from, s).Char? && IsWrittenNotRead(cd.to, Decode(cd.from, s).uc)
    ensures IsUtf32(cd.from) && Decode(cd.from, s).used == 4
    ensures forall uc: Code :: Encode(cd.from, uc, 4).Bytes? && |Encode(cd.from, uc, 4).bytes| == 4
  {
  }

  /** A surrogate never comes back as it was: it stops the conversion, or becomes something else. */
  lemma SurrogateBack(cd: Descriptor, s: seq<byte>, after: seq<byte>)
    requires s != [] && StepOf(cd, s, 4).Wrote? && StepOf(cd, s, 4).lossy == 0
    requires Decode(cd.from, s).Char? && IsWrittenNotRead(cd.to, Decode(cd.from, s).uc)
    ensures var back := StepOf(Back(cd), StepOf(cd, s, 4).bytes + after, 4);
            back.Wrote? ==> back.lossy > 0 || (|back.bytes| <= |s| && back.bytes != s[..|back.bytes|])
  {
    hide Decode, Encode;
    var t := StepOf(cd, s, 4).bytes + after;
    var back := StepOf(Back(cd), t, 4);
    if back.Wrote? && back.lossy == 0 {
      var uc, uc' := Decode(cd.from, s).uc, Decode(cd.to, t).uc;
      EncodeOfDecode(cd.from, s, 4);
      SurrogatesAreUtf32(cd, s);
      DecodeOfEncode(cd.from, uc', 4, []);
      DecodeOfEncode(cd.from, uc, 4, []);
    }
  }

  lemma ReadableTail(enc: Encoding, uc: Code, text: seq<Code>)
    requires !IsWrittenNotRead(enc, uc)
    ensures Readable(enc, [uc] + text) <==> Readable(enc, text)
  {
    assert forall i | 0 <= i < |text| :: ([uc] + text)[i + 1] == text[i];
  }

  lemma SamePrefix(s: seq<byte>, n: nat, t: seq<byte>)
    requires n <= |s|
    ensures s[..n] + t == s <==> t == s[n..]
  {
    if s[..n] + t == s {
      assert t == (s[..n] + t)[n..];
    }
  }

  /**
   * A text converted without loss converts back to the same bytes if and only if the other
   * encoding can be read back: that is, unless surrogates were written as UTF-8 or UTF-16.
   */
  lemma {:induction false} ThereAndBack(cd: Descriptor, s: seq<byte>)
    requires Whole(cd, s).why == Converted && Whole(cd, s).lossy == 0
    ensures var out := Whole(cd, s).out;
            Whole(Back(cd), out) == Call(|out|, s, Converted, 0) <==> Readable(cd.to, Chars(cd.from, s))
    decreases |s|
  {
    hide StepOf, Decode, IsWrittenNotRead;
    if s == [] {
    } else {
      var step := StepOf(cd, s, 4);
      var rest := s[step.used..];
      var more := Whole(cd, rest).out;
      StepBack(cd, s, more);
      assert Chars(cd.from, s) == [Decode(cd.from, s).uc] + Chars(cd.from, rest);
      var again := StepOf(Back(cd), step.bytes + more, 4);
      var w := Whole(Back(cd), step.bytes + more);
      if IsWrittenNotRead(cd.to, Decode(cd.from, s).uc) {
        SurrogateBack(cd, s, more);
        assert Chars(cd.from, s)[0] == Decode(cd.from, s).uc;
        if again.Wrote? && w.out == s {
          assert w.out[..|again.bytes|] == again.bytes;
        }
      } else {
        ThereAndBack(cd, rest);
        ReadableTail(cd.to, Decode(cd.from, s).uc, Chars(cd.from, rest));
        assert (step.bytes + more)[|step.bytes|..] == more;
        SamePrefix(s, step.used, Whole(Back(cd), more).out);
      }
    }
  }

  lemma WholeOfOne(cd: Descriptor, s: seq<byte>, bytes: seq<byte>)
    requires s != [] && StepOf(cd, s, 4) == Wrote(|s|, bytes, 0)
    ensures Whole(cd, s) == Call(|s|, bytes, Converted, 0)
  {
    hide StepOf;
    assert s[|s|..] == [] && bytes + [] == bytes;
  }

  lemma WholeOfNone(cd: Descriptor, s: seq<byte>, why: Ending)
    requires s != [] && StepOf(cd, s, 4) == Stop(why)
    ensures Whole(cd, s) == Call(0, [], why, 0)
  {
  }

  lemma SurrogateWritten(cd: Descriptor, s: seq<byte>)
    requires cd == Descriptor(Utf32BE, Utf8, false) && s == [0, 0, 0xD8, 0]
    ensures StepOf(cd, s, 4) == Wrote(4, [0xED, 0xA0, 0x80], 0)
  {
    assert Decode(Utf32BE, s) == Char(4, 0xD800);
    hide Decode;
    assert Encode(Utf8, 0xD800, 4) == Bytes([0xED, 0xA0, 0x80]);
  }

  lemma SurrogateNotRead(cd: Descriptor, s: seq<byte>)
    requires cd == Descriptor(Utf8, Utf32BE, false) && s == [0xED, 0xA0, 0x80]
    ensures StepOf(cd, s, 4) == Stop(IllegalSequence)
  {
    hide Encode;
    assert Decode(Utf8, s) == Invalid;
  }

  /** U+D800 as UTF-32 becomes three bytes of UTF-8 without complaint, which then do not convert back. */
  lemma SurrogateDoesNotReturn()
    ensures var cd, text := Descriptor(Utf32BE, Utf8, false), [0, 0, 0xD8, 0];
            && Whole(cd, text) == Call(4, [0xED, 0xA0, 0x80], Converted, 0)
            && Whole(Back(cd), Whole(cd, text).out) == Call(0, [], IllegalSequence, 0)
  {
    hide Whole, StepOf;
    var cd, text, out := Descriptor(Utf32BE, Utf8, false), [0, 0, 0xD8, 0], [0xED, 0xA0, 0x80];
    SurrogateWritten(cd, text);
    WholeOfOne(cd, text, out);
    SurrogateNotRead(Back(cd), out);
    WholeOfNone(Back(cd), out, IllegalSequence);
  }

  // ── The loop itself ─────────────────────────────────────────────────────

  datatype Pointers = Pointers(inAt: nat, inLeft: nat, outAt: nat, outLeft: nat)

  /** Decodes and encodes one character. */
  method OneCharacter(cd: Descriptor, s: seq<byte>, room: nat) returns (step: Step)
    requires s != []
    ensures step == StepOf(cd, s, room)
  {
    hide Decode, Encode;
    var used, uc, lossy := 0, QUESTION, 0;
    match Decode(cd.from, s) {
      case Incomplete =>
        return Stop(IncompleteTail);
      case Invalid =>
        if !cd.translit {
          return Stop(IllegalSequence);
        }
        used, lossy := 1, 1;
      case Char(n, c) =>
        used, uc := n, c;
    }
    var wrote := Encode(cd.to, uc, room);
    if wrote == Unrepresentable {
      if !cd.translit {
        return Stop(IllegalSequence);
      }
      wrote := Encode(cd.to, QUESTION, room);
      QuestionFits(cd.to, room);
      lossy := lossy + 1;
    }
    if wrote == NoRoom {
      return Stop(OutputFull);
    }
    return Wrote(used, wrote.bytes, lossy);
  }

  method Put(out: array<byte>, at: nat, bytes: seq<byte>)
    requires at + |bytes| <= out.Length
    modifies out
    ensures out[..] == Written(old(out[..]), at, bytes)
  {
    for i := 0 to |bytes|
      invariant out[..at + i] == old(out[..])[..at] + bytes[..i]
      invariant out[at + i..] == old(out[..])[at + i..]
    {
      out[at + i] := bytes[i];
      assert out[..at + i + 1] == out[..at + i] + [bytes[i]];
    }
    assert out[..] == out[..at + |bytes|] + out[at + |bytes|..];
  }

  /** Converts from p.inAt on into out from p.outAt on; moves the pointers and counts as Convert says. */
  method Run(cd: Descriptor, input: array<byte>, out: array<byte>, p: Pointers)
    returns (q: Pointers, why: Ending, irreversible: nat)
    requires input != out && p.inAt + p.inLeft <= input.Length && p.outAt + p.outLeft <= out.Length
    modifies out
    ensures var c := Convert(cd, old(input[p.inAt..p.inAt + p.inLeft]), p.outLeft);
            && q == Pointers(p.inAt + c.used, p.inLeft - c.used, p.outAt + |c.out|, p.outLeft - |c.out|)
            && out[..] == Written(old(out[..]), p.outAt, c.out)
            && why == c.why && (why == Converted ==> irreversible == c.lossy)
  {
    hide Convert, StepOf, Written;
    WrittenNothing(out[..], p.outAt);
    q, why, irreversible := p, Converted, 0;
    ghost var s := input[p.inAt..p.inAt + p.inLeft];
    ghost var done := Call(0, [], Converted, 0);
    assert s[0..] == s;
    ThenNothing(Convert(cd, s, p.outLeft));
    while q.inLeft > 0
      invariant done.used <= |s| && |done.out| <= p.outLeft
      invariant q == Pointers(p.inAt + done.used, p.inLeft - done.used, p.outAt + |done.out|, p.outLeft - |done.out|)
      invariant Convert(cd, s, p.outLeft) == done.Then(Convert(cd, s[done.used..], q.outLeft))
      invariant out[..] == Written(old(out[..]), p.outAt, done.out)
      invariant why == Converted && irreversible == done.lossy
      decreases q.inLeft
    {
      var here := input[q.inAt..q.inAt + q.inLeft];
      assert here == s[done.used..];
      var step := OneCharacter(cd, here, q.outLeft);
      if step.Stop? {
        why := step.why;
        ConvertStops(cd, here, q.outLeft);
        assert done.out + [] == done.out;
        return;
      }
      ConvertWrote(cd, here, q.outLeft);
      Put(out, q.outAt, step.bytes);
      WrittenMore(old(out[..]), p.outAt, done.out, step.bytes);
      ghost var call := Call(step.used, step.bytes, Converted, step.lossy);
      ThenIsAssociative(done, call, Convert(cd, here[step.used..], q.outLeft - |step.bytes|));
      done, irreversible := done.Then(call), irreversible + step.lossy;
      q := Pointers(q.inAt + step.used, q.inLeft - step.used, q.outAt + |step.bytes|, q.outLeft - |step.bytes|);
      assert here[step.used..] == s[done.used..];
    }
    ConvertNothing(cd, q.outLeft);
    assert done.out + [] == done.out;
  }
}
