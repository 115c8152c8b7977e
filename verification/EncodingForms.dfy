/**
 * The encodings as their standards define them, each as a relation between a character
 * and its bytes, and that the converter decodes and encodes exactly by it.
 */
module EncodingForms {
  import opened Basics
  import opened Iconv

  /** The number that bytes denote, the most significant first. */
  function BigEndian(b: seq<byte>): nat {
    if b == [] then 0 else BigEndian(b[..|b| - 1]) * 256 + b[|b| - 1]
  }

  /** The number that bytes denote, the least significant first. */
  function LittleEndian(b: seq<byte>): nat {
    if b == [] then 0 else b[0] + 256 * LittleEndian(b[1..])
  }

  function NumberIn(b: seq<byte>, big: bool): nat {
    if big then BigEndian(b) else LittleEndian(b)
  }

  /** Section 2.1 of RFC 2781: one unit, or a pair of surrogates for what does not fit one. */
  predicate IsUtf16Form(uc: Code, b: seq<byte>, big: bool) {
    || (|b| == 2 && NumberIn(b, big) == uc)
    || (|b| == 4 && var hi, lo := NumberIn(b[..2], big), NumberIn(b[2..], big);
        && 0xD800 <= hi < 0xDC00 && 0xDC00 <= lo < 0xE000
        && uc == 0x1_0000 + (hi - 0xD800) * 0x400 + (lo - 0xDC00))
  }

  predicate IsUtf32Form(uc: Code, b: seq<byte>, big: bool) {
    |b| == 4 && NumberIn(b, big) == uc
  }

  predicate AreTails(b: seq<byte>) {
    forall i | 1 <= i < |b| :: 0x80 <= b[i] < 0xC0
  }

  /** What the bits of a byte after the first, and of a first byte that begins at `lead`, stand for. */
  function Bits(b: int, lead: int): int {
    b - lead
  }

  /** Section 3 of RFC 3629: the length is in the first byte, six bits are in each other, and no shorter form would do. */
  predicate IsUtf8Form(uc: Code, b: seq<byte>) {
    AreTails(b) && match |b|
      case 1 => uc < 0x80 && b[0] == uc
      case 2 => 0x80 <= uc < 0x800 && 0xC0 <= b[0] < 0xE0 && uc == Bits(b[0], 0xC0) * 64 + Bits(b[1], 0x80)
      case 3 => 0x800 <= uc < 0x1_0000 && 0xE0 <= b[0] < 0xF0
                && uc == (Bits(b[0], 0xE0) * 64 + Bits(b[1], 0x80)) * 64 + Bits(b[2], 0x80)
      case 4 => 0x1_0000 <= uc && 0xF0 <= b[0] < 0xF8
                && uc == ((Bits(b[0], 0xF0) * 64 + Bits(b[1], 0x80)) * 64 + Bits(b[2], 0x80)) * 64 + Bits(b[3], 0x80)
      case _ => false
  }

  /** Where Windows-1252 differs from Latin-1: byte and character. */
  predicate IsCp1252Pair(b: byte, uc: Code) {
    || (b, uc) == (0x80, 0x20AC) || (b, uc) == (0x82, 0x201A) || (b, uc) == (0x83, 0x0192) || (b, uc) == (0x84, 0x201E)
    || (b, uc) == (0x85, 0x2026) || (b, uc) == (0x86, 0x2020) || (b, uc) == (0x87, 0x2021) || (b, uc) == (0x88, 0x02C6)
    || (b, uc) == (0x89, 0x2030) || (b, uc) == (0x8A, 0x0160) || (b, uc) == (0x8B, 0x2039) || (b, uc) == (0x8C, 0x0152)
    || (b, uc) == (0x8E, 0x017D) || (b, uc) == (0x91, 0x2018) || (b, uc) == (0x92, 0x2019) || (b, uc) == (0x93, 0x201C)
    || (b, uc) == (0x94, 0x201D) || (b, uc) == (0x95, 0x2022) || (b, uc) == (0x96, 0x2013) || (b, uc) == (0x97, 0x2014)
    || (b, uc) == (0x98, 0x02DC) || (b, uc) == (0x99, 0x2122) || (b, uc) == (0x9A, 0x0161) || (b, uc) == (0x9B, 0x203A)
    || (b, uc) == (0x9C, 0x0153) || (b, uc) == (0x9E, 0x017E) || (b, uc) == (0x9F, 0x0178)
  }

  /** These are the bytes of the character. */
  predicate IsFormOf(enc: Encoding, uc: Code, b: seq<byte>) {
    match enc
    case Ascii => uc < 0x80 && b == [uc]
    case Latin1 => uc < 0x100 && b == [uc]
    case Cp1252 => |b| == 1 && if 0x80 <= b[0] < 0xA0 then IsCp1252Pair(b[0], uc) else b[0] == uc
    case Utf16BE => IsUtf16Form(uc, b, true)
    case Utf16LE => IsUtf16Form(uc, b, false)
    case Utf32BE => IsUtf32Form(uc, b, true)
    case Utf32LE => IsUtf32Form(uc, b, false)
    case Utf8 => IsUtf8Form(uc, b)
  }

  // ── Encoding is by form ─────────────────────────────────────────────────

  /** Two bytes, the first on top. */
  function Pair(high: int, low: int): int {
    high * 256 + low
  }

  lemma TwoBytes(b: seq<byte>)
    requires |b| == 2
    ensures BigEndian(b) == Pair(b[0], b[1]) && LittleEndian(b) == Pair(b[1], b[0])
  {
    assert b[..1] == [b[0]] && b[1..] == [b[1]] && b[..1][..0] == [] && [b[1]][1..] == [];
    assert BigEndian(b[..1]) == b[0] && LittleEndian(b[1..]) == b[1];
  }

  lemma FourBytes(b: seq<byte>)
    requires |b| == 4
    ensures BigEndian(b) == Pair(Pair(Pair(b[0], b[1]), b[2]), b[3])
    ensures LittleEndian(b) == Pair(Pair(Pair(b[3], b[2]), b[1]), b[0])
  {
    var front, back := b[..3], b[1..];
    assert front[..2] == b[..2] && back[1..] == b[2..];
    TwoBytes(b[..2]);
    TwoBytes(b[2..]);
    assert BigEndian(front) == BigEndian(b[..2]) * 256 + b[2];
    assert LittleEndian(back) == b[1] + 256 * LittleEndian(b[2..]);
  }

  lemma UnitBytesAre(u: int, b0: byte, b1: byte, big: bool)
    requires 0 <= u < 0x1_0000
    ensures UnitBytes(u, big) == [b0, b1] <==> u == if big then Pair(b0, b1) else Pair(b1, b0)
    ensures |UnitBytes(u, big)| == 2
  {
  }

  lemma UnitIs(uc: Code, b: seq<byte>, big: bool)
    requires |b| == 2
    ensures EncodeUtf16(uc, big) == b <==> uc == if big then Pair(b[0], b[1]) else Pair(b[1], b[0])
  {
    if uc < 0x1_0000 {
      UnitBytesAre(uc, b[0], b[1], big);
    }
    assert b == [b[0], b[1]];
  }

  lemma SamePairs(x: seq<byte>, y: seq<byte>, b: seq<byte>)
    requires |x| == 2 && |y| == 2 && |b| == 4
    ensures x + y == b <==> x == [b[0], b[1]] && y == [b[2], b[3]]
  {
    assert x == (x + y)[..2] && y == (x + y)[2..];
    assert b[..2] == [b[0], b[1]] && b[2..] == [b[2], b[3]] && b == b[..2] + b[2..];
  }

  lemma PairIs(uc: Code, b: seq<byte>, big: bool)
    requires |b| == 4
    ensures var hi := if big then Pair(b[0], b[1]) else Pair(b[1], b[0]);
            var lo := if big then Pair(b[2], b[3]) else Pair(b[3], b[2]);
            EncodeUtf16(uc, big) == b <==>
            0xD800 <= hi < 0xDC00 && 0xDC00 <= lo < 0xE000 && uc == 0x1_0000 + (hi - 0xD800) * 0x400 + (lo - 0xDC00)
  {
    hide UnitBytes;
    if uc >= 0x1_0000 {
      var h, l := 0xD800 + (uc - 0x1_0000) / 1024, 0xDC00 + (uc - 0x1_0000) % 1024;
      UnitBytesAre(h, b[0], b[1], big);
      UnitBytesAre(l, b[2], b[3], big);
      SamePairs(UnitBytes(h, big), UnitBytes(l, big), b);
      hide Pair;
    }
  }

  lemma Utf16Is(uc: Code, b: seq<byte>, big: bool)
    ensures EncodeUtf16(uc, big) == b <==> IsUtf16Form(uc, b, big)
  {
    hide BigEndian, LittleEndian;
    if |b| == 2 {
      TwoBytes(b);
      UnitIs(uc, b, big);
    } else if |b| == 4 {
      TwoBytes(b[..2]);
      TwoBytes(b[2..]);
      PairIs(uc, b, big);
    }
  }

  lemma FourParts(uc: Code, b3: byte, b2: byte, b1: byte, b0: byte)
    ensures Pair(Pair(Pair(b3, b2), b1), b0) == uc <==>
            b3 == 0 && b2 == uc / 0x1_0000 && b1 == uc / 0x100 % 256 && b0 == uc % 256
  {
    var q := uc / 0x100;
    assert q / 0x100 == uc / 0x1_0000 && uc == Pair(q, uc % 256) && q == Pair(q / 0x100, q % 256);
    if Pair(Pair(Pair(b3, b2), b1), b0) == uc {
      assert uc % 256 == b0 && q == Pair(Pair(b3, b2), b1);
      assert q % 256 == b1 && uc / 0x1_0000 == Pair(b3, b2);
    }
  }

  lemma Utf32Is(uc: Code, b: seq<byte>)
    requires |b| == 4
    ensures [0, uc / 0x1_0000, uc / 0x100 % 256, uc % 256] == b <==> BigEndian(b) == uc
    ensures [uc % 256, uc / 0x100 % 256, uc / 0x1_0000, 0] == b <==> LittleEndian(b) == uc
  {
    hide BigEndian, LittleEndian;
    FourBytes(b);
    FourParts(uc, b[0], b[1], b[2], b[3]);
    FourParts(uc, b[3], b[2], b[1], b[0]);
    assert b == [b[0], b[1], b[2], b[3]];
    hide Pair;
  }

  /** A number in groups of six bits. */
  lemma Sixes(uc: nat)
    ensures uc == uc / 64 * 64 + uc % 64
    ensures uc == (uc / 4096 * 64 + uc / 64 % 64) * 64 + uc % 64
    ensures uc == ((uc / 0x4_0000 * 64 + uc / 4096 % 64) * 64 + uc / 64 % 64) * 64 + uc % 64
  {
    var q, r := uc / 64, uc / 4096;
    assert q / 64 == r && r / 64 == uc / 0x4_0000;
    assert uc == q * 64 + uc % 64 && q == r * 64 + q % 64 && r == r / 64 * 64 + r % 64;
  }

  lemma Utf8IsForm(uc: Code)
    ensures IsUtf8Form(uc, EncodeUtf8(uc))
  {
    Sixes(uc);
  }

  lemma OfSixes(a: nat, b: nat, c: nat, d: nat)
    requires b < 64 && c < 64 && d < 64
    ensures (a * 64 + d) / 64 == a && (a * 64 + d) % 64 == d
    ensures var x := (a * 64 + c) * 64 + d; x / 4096 == a && x / 64 % 64 == c && x % 64 == d
    ensures var x := ((a * 64 + b) * 64 + c) * 64 + d;
            x / 0x4_0000 == a && x / 4096 % 64 == b && x / 64 % 64 == c && x % 64 == d
  {
    var y := (a * 64 + c) * 64 + d;
    assert y / 64 == a * 64 + c && y / 4096 == y / 64 / 64;
    var x := ((a * 64 + b) * 64 + c) * 64 + d;
    assert x / 64 == (a * 64 + b) * 64 + c && x / 4096 == x / 64 / 64 == a * 64 + b && x / 0x4_0000 == x / 4096 / 64;
  }

  lemma Utf8FormOfThree(uc: Code, b: seq<byte>)
    requires IsUtf8Form(uc, b) && |b| == 3
    ensures EncodeUtf8(uc) == b
  {
    OfSixes(b[0] - 0xE0, 0, b[1] - 0x80, b[2] - 0x80);
    assert b == [b[0], b[1], b[2]];
  }

  lemma Utf8FormOfFour(uc: Code, b: seq<byte>)
    requires IsUtf8Form(uc, b) && |b| == 4
    ensures EncodeUtf8(uc) == b
  {
    OfSixes(b[0] - 0xF0, b[1] - 0x80, b[2] - 0x80, b[3] - 0x80);
    assert b == [b[0], b[1], b[2], b[3]];
  }

  lemma Utf8FormIs(uc: Code, b: seq<byte>)
    requires IsUtf8Form(uc, b)
    ensures EncodeUtf8(uc) == b
  {
    if |b| == 1 {
      assert b == [b[0]];
    } else if |b| == 2 {
      OfSixes(b[0] - 0xC0, 0, 0, b[1] - 0x80);
      assert b == [b[0], b[1]];
    } else if |b| == 3 {
      Utf8FormOfThree(uc, b);
    } else {
      Utf8FormOfFour(uc, b);
    }
  }

  lemma Utf8Is(uc: Code, b: seq<byte>)
    ensures EncodeUtf8(uc) == b <==> IsUtf8Form(uc, b)
  {
    if EncodeUtf8(uc) == b {
      Utf8IsForm(uc);
    } else if IsUtf8Form(uc, b) {
      Utf8FormIs(uc, b);
    }
  }

  lemma Cp1252Is(uc: Code, b: byte)
    requires 0x80 <= b < 0xA0
    ensures IsCp1252Pair(b, uc) <==> uc != 0 && Cp1252High(b - 0x80) == uc
  {
  }

  lemma Cp1252Encodes(uc: Code, b: seq<byte>)
    ensures Encode(Cp1252, uc, 4) == Bytes(b) <==> IsFormOf(Cp1252, uc, b)
  {
    hide Cp1252High, LastHigh, IsCp1252Pair;
    if |b| == 1 && 0x80 <= b[0] < 0xA0 {
      Cp1252Is(uc, b[0]);
      if Cp1252High(b[0] - 0x80) == uc && uc != 0 {
        HighDistinct(b[0] - 0x80);
      }
    }
  }

  /** Encoding a character gives exactly its form, and none if it has none. */
  lemma EncodesByForm(enc: Encoding, uc: Code, b: seq<byte>)
    ensures Encode(enc, uc, 4) == Bytes(b) <==> IsFormOf(enc, uc, b)
  {
    hide EncodeUtf8, EncodeUtf16, IsUtf8Form, IsUtf16Form, IsCp1252Pair, BigEndian, LittleEndian, LastHigh;
    match enc
    case Utf8 => Utf8Is(uc, b);
    case Utf16BE => Utf16Is(uc, b, true);
    case Utf16LE => Utf16Is(uc, b, false);
    case Utf32BE => if |b| == 4 { Utf32Is(uc, b); }
    case Utf32LE => if |b| == 4 { Utf32Is(uc, b); }
    case Cp1252 => Cp1252Encodes(uc, b);
    case _ =>
  }

  /** Decoding gives exactly the character whose form comes first, the surrogates in UTF-8 and UTF-16 apart. */
  lemma DecodesByForm(enc: Encoding, s: seq<byte>, used: nat, uc: Code)
    requires s != []
    ensures Decode(enc, s) == Char(used, uc) <==>
            used <= |s| && IsFormOf(enc, uc, s[..used]) && !IsWrittenNotRead(enc, uc)
  {
    hide Decode, Encode, IsFormOf;
    if Decode(enc, s) == Char(used, uc) {
      EncodeOfDecode(enc, s, 4);
    }
    if used <= |s| {
      EncodesByForm(enc, uc, s[..used]);
      if Encode(enc, uc, 4) == Bytes(s[..used]) {
        DecodeOfEncode(enc, uc, 4, s[used..]);
        assert s == s[..used] + s[used..];
      }
    }
  }

  /** The beginning of a form is incomplete, and nothing else. */
  lemma BeginningIsIncomplete(enc: Encoding, s: seq<byte>, rest: seq<byte>, uc: Code)
    requires s != [] && rest != [] && IsFormOf(enc, uc, s + rest) && !IsWrittenNotRead(enc, uc)
    ensures Decode(enc, s) == Incomplete
  {
    hide Decode, Encode, IsFormOf;
    assert (s + rest)[..|s + rest|] == s + rest;
    DecodesByForm(enc, s + rest, |s + rest|, uc);
    if Decode(enc, s) != Incomplete {
      DecodeIsStable(enc, s, rest);
    }
  }

  // ── Texts ───────────────────────────────────────────────────────────────

  function Joined(forms: seq<seq<byte>>): seq<byte> {
    if forms == [] then [] else forms[0] + Joined(forms[1..])
  }

  /** The character has no form in the encoding. */
  ghost predicate HasNoForm(enc: Encoding, uc: Code) {
    forall b: seq<byte> :: !IsFormOf(enc, uc, b)
  }

  /** What a character becomes: its form, or where it has none and that is asked for, a question mark. */
  ghost predicate Becomes(cd: Descriptor, uc: Code, b: seq<byte>, lost: bool) {
    if lost then cd.translit && HasNoForm(cd.to, uc) && IsFormOf(cd.to, QUESTION, b) else IsFormOf(cd.to, uc, b)
  }

  function Count(lost: seq<bool>): nat {
    if lost == [] then 0 else (if lost[0] then 1 else 0) + Count(lost[1..])
  }

  lemma RoomForAll(enc: Encoding, uc: Code)
    ensures Encode(enc, uc, 4) != NoRoom
  {
    hide LastHigh, Cp1252High;
  }

  lemma StepBecomes(cd: Descriptor, uc: Code, form: seq<byte>, rest: seq<byte>, b: seq<byte>, lost: bool)
    requires IsFormOf(cd.from, uc, form) && !IsWrittenNotRead(cd.from, uc) && Becomes(cd, uc, b, lost)
    ensures form != [] && StepOf(cd, form + rest, 4) == Wrote(|form|, b, if lost then 1 else 0)
  {
    hide Decode, Encode, IsFormOf;
    EncodesByForm(cd.from, uc, form);
    assert (form + rest)[..|form|] == form;
    DecodesByForm(cd.from, form + rest, |form|, uc);
    if lost {
      EncodesByForm(cd.to, QUESTION, b);
      if Encode(cd.to, uc, 4).Bytes? {
        EncodesByForm(cd.to, uc, Encode(cd.to, uc, 4).bytes);
      } else {
        RoomForAll(cd.to, uc);
      }
    } else {
      EncodesByForm(cd.to, uc, b);
    }
  }

  /**
   * A text converts character by character: what is written is the characters' forms in the other encoding,
   * with a question mark, counted, for each that has none where that is asked for.
   */
  lemma {:induction false} TextConverts(cd: Descriptor, chars: seq<Code>, forms: seq<seq<byte>>, others: seq<seq<byte>>,
                                        lost: seq<bool>)
    requires |chars| == |forms| == |others| == |lost|
    requires forall i | 0 <= i < |chars| :: IsFormOf(cd.from, chars[i], forms[i]) && !IsWrittenNotRead(cd.from, chars[i])
    requires forall i | 0 <= i < |chars| :: Becomes(cd, chars[i], others[i], lost[i])
    ensures Whole(cd, Joined(forms)) == Call(|Joined(forms)|, Joined(others), Converted, Count(lost))
    decreases |chars|
  {
    hide StepOf, IsFormOf, Becomes, IsWrittenNotRead;
    if chars == [] {
    } else {
      var rest := Joined(forms[1..]);
      StepBecomes(cd, chars[0], forms[0], rest, others[0], lost[0]);
      TextConverts(cd, chars[1..], forms[1..], others[1..], lost[1..]);
      assert (forms[0] + rest)[|forms[0]|..] == rest;
    }
  }
}
