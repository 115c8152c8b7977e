/**
 * Undoing PNG row filters in place, and unpacking samples of less than a byte
 * (sections 9.2 and 9.4 of the PNG specification).
 */
module PngFilter {
  import opened Basics

  // ── One row ─────────────────────────────────────────────────────────────

  function Paeth(a: byte, b: byte, c: byte): byte {
    var p := a + b - c;
    if Abs(p - a) <= Abs(p - b) && Abs(p - a) <= Abs(p - c) then a
    else if Abs(p - b) <= Abs(p - c) then b
    else c
  }

  /** What a filter predicts from the bytes to the left (a), above (b) and above left (c). */
  function Predicted(kind: byte, a: byte, b: byte, c: byte): byte {
    if kind == 1 then a
    else if kind == 2 then b
    else if kind == 3 then (a + b) / 2
    else if kind == 4 then Paeth(a, b, c)
    else 0
  }

  /** The Paeth predictor is the neighbour nearest to a + b - c, the first of a, b, c if several are. */
  lemma PaethIsNearest(a: byte, b: byte, c: byte, x: byte)
    requires x == a || x == b || x == c
    ensures var p, r := a + b - c, Paeth(a, b, c);
            && (r == a || r == b || r == c)
            && Abs(p - r) <= Abs(p - x)
            && (Abs(p - r) == Abs(p - a) ==> r == a)
            && (Abs(p - r) == Abs(p - b) && r != a ==> r == b)
  {
  }

  function LeftOf(row: seq<byte>, i: nat, bpp: nat): byte
    requires i <= |row|
  {
    if bpp <= i && bpp > 0 then row[i - bpp] else 0
  }

  /** What the filter predicts for byte i of a row. */
  function PredictedAt(kind: byte, bpp: nat, row: seq<byte>, prev: seq<byte>, i: nat): byte
    requires i <= |row| && i < |prev|
  {
    Predicted(kind, LeftOf(row, i, bpp), prev[i], LeftOf(prev, i, bpp))
  }

  /** Filtering: each byte less its prediction. */
  function Filtered(kind: byte, bpp: nat, row: seq<byte>, prev: seq<byte>): (f: seq<byte>)
    requires |row| <= |prev|
    ensures |f| == |row|
  {
    seq(|row|, i requires 0 <= i < |row| => (row[i] - PredictedAt(kind, bpp, row, prev, i)) % 256)
  }

  /** A row is determined by its filtered bytes: bytes before it and the row above decide each. */
  lemma {:induction false} FilteredIsInjective(kind: byte, bpp: nat, row: seq<byte>, other: seq<byte>, prev: seq<byte>, n: nat)
    requires |row| == |other| <= |prev| && bpp >= 1 && n <= |row|
    requires Filtered(kind, bpp, row, prev) == Filtered(kind, bpp, other, prev)
    ensures row[..n] == other[..n]
    decreases n
  {
    if n == 0 {
    } else {
      FilteredIsInjective(kind, bpp, row, other, prev, n - 1);
      var i := n - 1;
      assert LeftOf(row, i, bpp) == LeftOf(other, i, bpp) by {
        if bpp <= i {
          assert row[i - bpp] == row[..i][i - bpp] == other[..i][i - bpp];
        }
      }
      assert Filtered(kind, bpp, row, prev)[i] == Filtered(kind, bpp, other, prev)[i];
      assert row[i] == other[i];
    }
  }

  /** A row that the data ends in passes if its filter changes nothing and at most bpp bytes of it are missing. */
  predicate ShortRowPasses(kind: byte, bpp: nat, length: nat, stride: nat) {
    !(1 <= kind <= 4) && length + bpp >= stride
  }

  /** The prediction while the row is being undone: it reads only what is done. */
  ghost function PredictedIn(kind: byte, bpp: nat, line: array<byte>, prev: array<byte>, i: nat): byte
    requires i < line.Length <= prev.Length && bpp >= 1
    reads line, prev
  {
    Predicted(kind, if bpp <= i then line[i - bpp] else 0, prev[i], if bpp <= i then prev[i - bpp] else 0)
  }

  lemma Undone(raw: byte, value: int, predicted: byte)
    requires value == (raw + predicted) % 256
    ensures (value - predicted) % 256 == raw
  {
  }

  method UnfilterByte(kind: byte, x: byte, a: byte, b: byte, c: byte) returns (v: byte)
    ensures (v - Predicted(kind, a, b, c)) % 256 == x && (!(1 <= kind <= 4) ==> v == x)
  {
    var sum: int := x;
    if kind == 1 {
      sum := sum + a;
    } else if kind == 2 {
      sum := sum + b;
    } else if kind == 3 {
      sum := sum + (a + b) / 2;
    } else if kind == 4 {
      var p := a + b - c;
      var pa, pb, pc := Abs(p - a), Abs(p - b), Abs(p - c);
      var pred := if pa <= pb && pa <= pc then a else if pb <= pc then b else c;
      sum := sum + pred;
    }
    v := sum % 256;
    Undone(x, v, Predicted(kind, a, b, c));
  }

  /**
   * In place, from left to right: the bytes to the left are already the row's own. It fails at
   * the first byte that it needs and the row does not have.
   */
  method Unfilter(kind: byte, bpp: nat, line: array<byte>, prev: array<byte>) returns (ok: bool)
    requires bpp >= 1 && line.Length <= prev.Length && line != prev
    modifies line
    ensures ok == (line.Length == prev.Length || ShortRowPasses(kind, bpp, line.Length, prev.Length))
    ensures ok ==> Filtered(kind, bpp, line[..], prev[..]) == old(line[..])
    ensures ok && line.Length < prev.Length ==> line[..] == old(line[..])
  {
    hide Predicted;
    ghost var raw := line[..];
    for i := 0 to prev.Length
      invariant forall k | i <= k < line.Length :: line[k] == raw[k]
      invariant forall k | 0 <= k < i && k < line.Length ::
                  raw[k] == (line[k] - PredictedIn(kind, bpp, line, prev, k)) % 256
      invariant i <= line.Length || ShortRowPasses(kind, bpp, line.Length, i)
      invariant !(1 <= kind <= 4) ==> line[..] == raw
    {
      if (i >= bpp && i - bpp >= line.Length) || (1 <= kind <= 4 && i >= line.Length) {
        return false;
      }
      if i < line.Length {
        var a := if i >= bpp then line[i - bpp] else 0;
        var c := if i >= bpp then prev[i - bpp] else 0;
        var v := UnfilterByte(kind, line[i], a, prev[i], c);
        line[i] := v;
      }
    }
    forall k | 0 <= k < line.Length
      ensures raw[k] == Filtered(kind, bpp, line[..], prev[..])[k]
    {
      assert PredictedIn(kind, bpp, line, prev, k) == PredictedAt(kind, bpp, line[..], prev[..], k);
    }
    return true;
  }

  // ── All rows ────────────────────────────────────────────────────────────

  predicate IsImage(rows: seq<seq<byte>>, stride: nat) {
    forall i | 0 <= i < |rows| :: |rows[i]| == stride
  }

  function Above(rows: seq<seq<byte>>, i: nat, stride: nat): seq<byte>
    requires i <= |rows|
  {
    if i == 0 then seq(stride, _ => 0) else rows[i - 1]
  }

  /** The filtered image: each row's filter and its filtered bytes. */
  function Encoded(kinds: seq<byte>, rows: seq<seq<byte>>, stride: nat, bpp: nat): (raw: seq<byte>)
    requires |kinds| == |rows| && IsImage(rows, stride)
    ensures |raw| == |rows| * (1 + stride)
    decreases |rows|
  {
    if rows == [] then []
    else
      var n := |rows| - 1;
      assert Above(rows, n, stride) == Above(rows[..n], n, stride);
      Encoded(kinds[..n], rows[..n], stride, bpp)
      + [kinds[n]] + Filtered(kinds[n], bpp, rows[n], Above(rows, n, stride))
  }

  /** The last row's filter and filtered bytes come after the rest. */
  lemma LastRow(kinds: seq<byte>, rows: seq<seq<byte>>, stride: nat, bpp: nat)
    requires |kinds| == |rows| > 0 && IsImage(rows, stride)
    ensures var n := |rows| - 1;
            Encoded(kinds, rows, stride, bpp)
            == Encoded(kinds[..n], rows[..n], stride, bpp)
               + ([kinds[n]] + Filtered(kinds[n], bpp, rows[n], Above(rows, n, stride)))
  {
    hide Filtered;
  }

  lemma SameParts(a: seq<byte>, b: seq<byte>, a': seq<byte>, b': seq<byte>)
    requires a + b == a' + b' && |a| == |a'|
    ensures a == a' && b == b'
  {
    assert a == (a + b)[..|a|] && a' == (a' + b')[..|a|];
    assert b == (a + b)[|a|..] && b' == (a' + b')[|a|..];
  }

  lemma {:induction false} EncodedIsInjective(kinds: seq<byte>, rows: seq<seq<byte>>, kinds': seq<byte>,
                                              rows': seq<seq<byte>>, stride: nat, bpp: nat)
    requires |kinds| == |rows| == |kinds'| == |rows'| && IsImage(rows, stride) && IsImage(rows', stride) && bpp >= 1
    requires Encoded(kinds, rows, stride, bpp) == Encoded(kinds', rows', stride, bpp)
    ensures kinds == kinds' && rows == rows'
    decreases |rows|
  {
    hide Filtered, Encoded;
    if rows == [] {
    } else {
      var n := |rows| - 1;
      LastRow(kinds, rows, stride, bpp);
      LastRow(kinds', rows', stride, bpp);
      var tail := [kinds[n]] + Filtered(kinds[n], bpp, rows[n], Above(rows, n, stride));
      var tail' := [kinds'[n]] + Filtered(kinds'[n], bpp, rows'[n], Above(rows', n, stride));
      SameParts(Encoded(kinds[..n], rows[..n], stride, bpp), tail, Encoded(kinds'[..n], rows'[..n], stride, bpp), tail');
      EncodedIsInjective(kinds[..n], rows[..n], kinds'[..n], rows'[..n], stride, bpp);
      assert Above(rows, n, stride) == Above(rows[..n], n, stride) && Above(rows', n, stride) == Above(rows'[..n], n, stride);
      assert tail[0] == tail'[0] && tail[1..] == tail'[1..];
      FilteredIsInjective(kinds[n], bpp, rows[n], rows'[n], Above(rows, n, stride), stride);
      assert rows[n] == rows'[n];
      assert rows == rows[..n] + [rows[n]] && rows' == rows'[..n] + [rows'[n]];
      assert kinds == kinds[..n] + [kinds[n]] && kinds' == kinds'[..n] + [kinds'[n]];
    }
  }

  /** The data ends in the last row, which passes all the same. */
  predicate EndsShort(raw: seq<byte>, height: nat, stride: nat, bpp: nat) {
    height > 0
    && var last := (height - 1) * (1 + stride);
       last < |raw| < last + 1 + stride && ShortRowPasses(raw[last], bpp, |raw| - last - 1, stride)
  }

  lemma RowsFit(n: nat, height: nat, stride: nat)
    requires n <= height
    ensures n * (1 + stride) <= height * (1 + stride)
    ensures n >= 1 ==> n * (1 + stride) == (n - 1) * (1 + stride) + 1 + stride
  {
  }

  function Kinds(raw: seq<byte>, height: nat, stride: nat): (k: seq<byte>)
    requires height * (1 + stride) <= |raw|
    ensures |k| == height
  {
    seq(height, i requires 0 <= i < height => RowsFit(i + 1, height, stride); raw[i * (1 + stride)])
  }

  /** These rows are the first of the image. */
  ghost predicate AreRows(raw: seq<byte>, rows: seq<seq<byte>>, stride: nat, bpp: nat) {
    && IsImage(rows, stride) && |rows| * (1 + stride) <= |raw|
    && Encoded(Kinds(raw, |rows|, stride), rows, stride, bpp) == raw[..|rows| * (1 + stride)]
  }

  /** These are all rows of an image that ends short. */
  ghost predicate AreRowsShort(raw: seq<byte>, rows: seq<seq<byte>>, stride: nat, bpp: nat) {
    && EndsShort(raw, |rows|, stride, bpp) && AreRows(raw, rows[..|rows| - 1], stride, bpp)
    && rows[|rows| - 1] == raw[(|rows| - 1) * (1 + stride) + 1..]
  }

  lemma NoRows(raw: seq<byte>, stride: nat, bpp: nat)
    ensures AreRows(raw, [], stride, bpp)
  {
  }

  lemma ShortOrNot(raw: seq<byte>, rows: seq<seq<byte>>, height: nat, stride: nat, bpp: nat)
    requires |rows| == height
    ensures EndsShort(raw, height, stride, bpp) ==> |raw| < height * (1 + stride)
    ensures AreRowsShort(raw, rows, stride, bpp) ==> EndsShort(raw, height, stride, bpp)
  {
    hide ShortRowPasses, AreRows;
    RowsFit(height, height, stride);
  }

  /** The data ends before the n-th row does, and that row does not pass. */
  lemma TooShort(raw: seq<byte>, n: nat, height: nat, stride: nat, bpp: nat)
    requires n < height
    requires var at := n * (1 + stride);
             |raw| <= at || (|raw| < at + 1 + stride && !ShortRowPasses(raw[at], bpp, |raw| - at - 1, stride))
    ensures |raw| < height * (1 + stride) && !EndsShort(raw, height, stride, bpp)
  {
    hide ShortRowPasses;
    RowsFit(n + 1, height, stride);
    if n + 1 < height {
      RowsFit(n + 1, height - 1, stride);
    }
  }

  lemma EncodedNext(raw: seq<byte>, rows: seq<seq<byte>>, line: seq<byte>, n: nat, stride: nat, bpp: nat)
    requires |rows| == n && IsImage(rows, stride) && |line| == stride && (n + 1) * (1 + stride) <= |raw|
    requires n * (1 + stride) <= |raw| && Encoded(Kinds(raw, n, stride), rows, stride, bpp) == raw[..n * (1 + stride)]
    requires Filtered(raw[n * (1 + stride)], bpp, line, Above(rows, n, stride))
             == raw[n * (1 + stride) + 1..(n + 1) * (1 + stride)]
    ensures Encoded(Kinds(raw, n + 1, stride), rows + [line], stride, bpp) == raw[..(n + 1) * (1 + stride)]
  {
    assert (rows + [line])[..n] == rows;
    assert Kinds(raw, n + 1, stride)[..n] == Kinds(raw, n, stride);
    var at := n * (1 + stride);
    assert raw[..(n + 1) * (1 + stride)] == raw[..at] + [raw[at]] + raw[at + 1..(n + 1) * (1 + stride)];
  }

  lemma NextRow(raw: seq<byte>, rows: seq<seq<byte>>, line: seq<byte>, n: nat, stride: nat, bpp: nat)
    requires |rows| == n && AreRows(raw, rows, stride, bpp) && n * (1 + stride) < |raw| && |line| <= stride
    requires var at := n * (1 + stride);
             && |line| == Min(stride, |raw| - at - 1)
             && Filtered(raw[at], bpp, line, Above(rows, n, stride)) == raw[at + 1..at + 1 + |line|]
             && (|line| < stride ==> line == raw[at + 1..] && ShortRowPasses(raw[at], bpp, |line|, stride))
    ensures var next := rows + [line];
            if (n + 1) * (1 + stride) <= |raw| then AreRows(raw, next, stride, bpp)
            else AreRowsShort(raw, next, stride, bpp)
  {
    hide ShortRowPasses, Filtered, Encoded;
    RowsFit(n + 1, n + 1, stride);
    assert (rows + [line])[..n] == rows;
    if |line| == stride {
      EncodedNext(raw, rows, line, n, stride, bpp);
    }
  }

  /** The whole image, or None where the data is too short. */
  method UnfilterImage(raw: seq<byte>, height: nat, stride: nat, bpp: nat) returns (image: Option<seq<seq<byte>>>)
    requires bpp >= 1
    ensures image.None? <==> |raw| < height * (1 + stride) && !EndsShort(raw, height, stride, bpp)
    ensures image.Some? ==> |image.value| == height
    ensures |raw| >= height * (1 + stride) ==> image.Some? && AreRows(raw, image.value, stride, bpp)
    ensures EndsShort(raw, height, stride, bpp) ==> image.Some? && AreRowsShort(raw, image.value, stride, bpp)
  {
    hide EndsShort, ShortRowPasses, AreRows, AreRowsShort;
    var rows: seq<seq<byte>> := [];
    var prev := new byte[stride](_ => 0);
    var at := 0;
    NoRows(raw, stride, bpp);
    for n := 0 to height
      invariant at == n * (1 + stride) && |rows| == n
      invariant if at <= |raw| then AreRows(raw, rows, stride, bpp) else AreRowsShort(raw, rows, stride, bpp)
      invariant at <= |raw| ==> prev.Length == stride && prev[..] == Above(rows, n, stride)
    {
      if at >= |raw| {
        TooShort(raw, n, height, stride, bpp);
        return None;
      }
      var kind := raw[at];
      var length := Min(stride, |raw| - at - 1);
      var line := new byte[length](i requires 0 <= i < length => raw[at + 1 + i]);
      assert line[..] == raw[at + 1..at + 1 + length];
      var ok := Unfilter(kind, bpp, line, prev);
      if !ok {
        TooShort(raw, n, height, stride, bpp);
        return None;
      }
      NextRow(raw, rows, line[..], n, stride, bpp);
      rows, prev, at := rows + [line[..]], line, at + 1 + stride;
    }
    ShortOrNot(raw, rows, height, stride, bpp);
    return Some(rows);
  }

  /** Whatever the rows and whatever filter each was given, the rows come back. */
  method FilteringIsUndone(ghost kinds: seq<byte>, ghost rows: seq<seq<byte>>, raw: seq<byte>, height: nat, stride: nat,
                           bpp: nat)
    returns (image: Option<seq<seq<byte>>>)
    requires bpp >= 1 && |kinds| == |rows| == height && IsImage(rows, stride)
    requires Encoded(kinds, rows, stride, bpp) <= raw
    ensures image == Some(rows)
  {
    image := UnfilterImage(raw, height, stride, bpp);
    EncodedIsInjective(kinds, rows, Kinds(raw, height, stride), image.value, stride, bpp);
  }

  // ── The filters of the PNG specification ────────────────────────────────

  /** The filter types of section 9.2, in the order of their numbers. */
  datatype FilterType = NoFilter | Sub | Up | Average | PaethType

  function Number(f: FilterType): byte {
    match f
    case NoFilter => 0
    case Sub => 1
    case Up => 2
    case Average => 3
    case PaethType => 4
  }

  /** x is as near to left + above - corner as any of the three. */
  predicate IsNearest(x: byte, left: byte, above: byte, corner: byte) {
    var p := left + above - corner;
    Abs(p - x) <= Abs(p - left) && Abs(p - x) <= Abs(p - above) && Abs(p - x) <= Abs(p - corner)
  }

  /** What each type subtracts: the byte to the left, the one above, their mean, or the nearest neighbour. */
  function Prediction(f: FilterType, left: byte, above: byte, corner: byte): byte {
    match f
    case NoFilter => 0
    case Sub => left
    case Up => above
    case Average => (left + above) / 2
    case PaethType =>
      if IsNearest(left, left, above, corner) then left else if IsNearest(above, left, above, corner) then above else corner
  }

  /** The byte bpp bytes before byte i, and 0 before the row's first pixel. */
  function Before(row: seq<byte>, i: nat, bpp: nat): byte
    requires i < |row|
  {
    if i < bpp || bpp == 0 then 0 else row[i - bpp]
  }

  function FilterRow(f: FilterType, bpp: nat, row: seq<byte>, above: seq<byte>): seq<byte>
    requires |row| == |above|
  {
    seq(|row|, i requires 0 <= i < |row| =>
      (row[i] - Prediction(f, Before(row, i, bpp), above[i], Before(above, i, bpp))) % 256)
  }

  /** An image as it is in a PNG: before each filtered row the number of its filter; above the first row is nothing but 0. */
  function PngBytes(filters: seq<FilterType>, rows: seq<seq<byte>>, stride: nat, bpp: nat): seq<byte>
    requires |filters| == |rows| && IsImage(rows, stride)
  {
    if rows == [] then []
    else
      var n := |rows| - 1;
      PngBytes(filters[..n], rows[..n], stride, bpp)
      + ([Number(filters[n])] + FilterRow(filters[n], bpp, rows[n], if n == 0 then seq(stride, _ => 0) else rows[n - 1]))
  }

  lemma PredictionIs(f: FilterType, a: byte, b: byte, c: byte)
    ensures Predicted(Number(f), a, b, c) == Prediction(f, a, b, c)
  {
    PaethIsNearest(a, b, c, a);
    PaethIsNearest(a, b, c, b);
    PaethIsNearest(a, b, c, c);
  }

  lemma FilterRowIs(f: FilterType, bpp: nat, row: seq<byte>, above: seq<byte>)
    requires |row| == |above|
    ensures Filtered(Number(f), bpp, row, above) == FilterRow(f, bpp, row, above)
  {
    hide Predicted, Prediction;
    forall i: nat | i < |row|
      ensures Filtered(Number(f), bpp, row, above)[i] == FilterRow(f, bpp, row, above)[i]
    {
      PredictionIs(f, Before(row, i, bpp), above[i], Before(above, i, bpp));
    }
  }

  function Numbers(filters: seq<FilterType>): seq<byte> {
    seq(|filters|, i requires 0 <= i < |filters| => Number(filters[i]))
  }

  lemma NothingEncoded(kinds: seq<byte>, stride: nat, bpp: nat)
    requires kinds == []
    ensures Encoded(kinds, [], stride, bpp) == []
  {
  }

  lemma {:induction false} PngBytesAre(filters: seq<FilterType>, rows: seq<seq<byte>>, stride: nat, bpp: nat)
    requires |filters| == |rows| && IsImage(rows, stride)
    ensures Encoded(Numbers(filters), rows, stride, bpp) == PngBytes(filters, rows, stride, bpp)
    decreases |rows|
  {
    hide Filtered, FilterRow, Encoded;
    if rows == [] {
      NothingEncoded(Numbers(filters), stride, bpp);
    } else {
      var n := |rows| - 1;
      LastRow(Numbers(filters), rows, stride, bpp);
      PngBytesAre(filters[..n], rows[..n], stride, bpp);
      assert Numbers(filters)[..n] == Numbers(filters[..n]);
      FilterRowIs(filters[n], bpp, rows[n], Above(rows, n, stride));
      assert Above(rows, n, stride) == if n == 0 then seq(stride, _ => 0) else rows[n - 1];
    }
  }

  /** Whatever the rows and whatever filter of the specification each was given, the rows come back. */
  method PngIsDecoded(ghost filters: seq<FilterType>, ghost rows: seq<seq<byte>>, raw: seq<byte>, height: nat, stride: nat,
                      bpp: nat)
    returns (image: Option<seq<seq<byte>>>)
    requires bpp >= 1 && |filters| == |rows| == height && IsImage(rows, stride)
    requires PngBytes(filters, rows, stride, bpp) <= raw
    ensures image == Some(rows)
  {
    PngBytesAre(filters, rows, stride, bpp);
    image := FilteringIsUndone(Numbers(filters), rows, raw, height, stride, bpp);
  }

  // ── Samples ─────────────────────────────────────────────────────────────

  predicate IsPacked(depth: nat) {
    depth == 1 || depth == 2 || depth == 4
  }

  /** b >> n. */
  function Shifted(b: byte, n: nat): nat {
    match n
    case 0 => b case 1 => b / 2 case 2 => b / 4 case 3 => b / 8
    case 4 => b / 16 case 5 => b / 32 case 6 => b / 64 case 7 => b / 128 case _ => 0
  }

  function Masked(v: nat, depth: nat): nat {
    match depth
    case 1 => v % 2 case 2 => v % 4 case _ => v % 16
  }

  function Per(depth: nat): nat {
    match depth
    case 1 => 8 case 2 => 4 case _ => 2
  }

  /** Sample k of a byte, from the top. */
  function SampleOf(b: byte, depth: nat, k: nat): nat
    requires IsPacked(depth) && k < Per(depth)
  {
    Masked(Shifted(b, 8 - depth * (k + 1)), depth)
  }

  predicate WholeBytes(n: nat, depth: nat) {
    (depth == 1 ==> n % 8 == 0) && (depth == 2 ==> n % 4 == 0) && (depth == 4 ==> n % 2 == 0)
  }

  predicate AllMasked(s: seq<nat>, depth: nat) {
    forall i | 0 <= i < |s| :: s[i] == Masked(s[i], depth)
  }

  predicate AreSamples(s: seq<nat>, depth: nat)
    requires IsPacked(depth)
  {
    WholeBytes(|s|, depth) && AllMasked(s, depth)
  }

  function PackedByte(s: seq<nat>, depth: nat): (b: byte)
    requires IsPacked(depth) && AreSamples(s, depth) && |s| == Per(depth)
  {
    match depth
    case 1 => s[0] * 128 + s[1] * 64 + s[2] * 32 + s[3] * 16 + s[4] * 8 + s[5] * 4 + s[6] * 2 + s[7]
    case 2 => s[0] * 64 + s[1] * 16 + s[2] * 4 + s[3]
    case _ => s[0] * 16 + s[1]
  }

  /** Packing samples of 1, 2 or 4 bits into bytes, the first on top. */
  function Packed(s: seq<nat>, depth: nat): seq<byte>
    requires IsPacked(depth) && AreSamples(s, depth)
  {
    if s == [] then []
    else var head := |s| - Per(depth);
      Packed(s[..head], depth) + [PackedByte(s[head..], depth)]
  }

  lemma Bits(s0: nat, s1: nat, s2: nat, s3: nat, s4: nat, s5: nat, s6: nat, s7: nat)
    requires s0 < 2 && s1 < 2 && s2 < 2 && s3 < 2 && s4 < 2 && s5 < 2 && s6 < 2 && s7 < 2
    ensures var b := s0 * 128 + s1 * 64 + s2 * 32 + s3 * 16 + s4 * 8 + s5 * 4 + s6 * 2 + s7;
            && b / 128 % 2 == s0 && b / 64 % 2 == s1 && b / 32 % 2 == s2 && b / 16 % 2 == s3
            && b / 8 % 2 == s4 && b / 4 % 2 == s5 && b / 2 % 2 == s6 && b % 2 == s7
  {
    var q2 := s0 * 2 + s1;
    var q3 := q2 * 2 + s2;
    var q4 := q3 * 2 + s3;
    var q5 := q4 * 2 + s4;
    var q6 := q5 * 2 + s5;
    var q7 := q6 * 2 + s6;
    var b := q7 * 2 + s7;
    assert b / 2 == q7 && q7 / 2 == q6 && q6 / 2 == q5 && q5 / 2 == q4 && q4 / 2 == q3 && q3 / 2 == q2 && q2 / 2 == s0;
    assert b / 4 == q6 && b / 8 == q5 && b / 16 == q4 && b / 32 == q3 && b / 64 == q2 && b / 128 == s0;
  }

  lemma SampleOfPacked1(s: seq<nat>, k: nat)
    requires |s| == 8 && AreSamples(s, 1) && k < 8
    ensures SampleOf(PackedByte(s, 1), 1, k) == s[k]
  {
    Bits(s[0], s[1], s[2], s[3], s[4], s[5], s[6], s[7]);
  }

  lemma Crumbs(s0: nat, s1: nat, s2: nat, s3: nat)
    requires s0 < 4 && s1 < 4 && s2 < 4 && s3 < 4
    ensures var b := s0 * 64 + s1 * 16 + s2 * 4 + s3;
            b / 64 % 4 == s0 && b / 16 % 4 == s1 && b / 4 % 4 == s2 && b % 4 == s3
  {
    var b := s0 * 64 + s1 * 16 + s2 * 4 + s3;
    assert b / 4 == s0 * 16 + s1 * 4 + s2 && b / 16 == s0 * 4 + s1 && b / 64 == s0;
  }

  lemma SampleOfPacked2(s: seq<nat>, k: nat)
    requires |s| == 4 && AreSamples(s, 2) && k < 4
    ensures SampleOf(PackedByte(s, 2), 2, k) == s[k]
  {
    Crumbs(s[0], s[1], s[2], s[3]);
  }

  lemma SampleOfPacked(s: seq<nat>, depth: nat, k: nat)
    requires IsPacked(depth) && AreSamples(s, depth) && |s| == Per(depth) && k < |s|
    ensures SampleOf(PackedByte(s, depth), depth, k) == s[k]
  {
    if depth == 1 {
      SampleOfPacked1(s, k);
    } else if depth == 2 {
      SampleOfPacked2(s, k);
    } else {
      assert PackedByte(s, 4) / 16 == s[0];
    }
  }

  lemma Halvings(b: byte)
    ensures b == 2 * (b / 2) + b % 2 && b / 2 == 2 * (b / 4) + b / 2 % 2
    ensures b / 4 == 2 * (b / 8) + b / 4 % 2 && b / 8 == 2 * (b / 16) + b / 8 % 2
    ensures b / 16 == 2 * (b / 32) + b / 16 % 2 && b / 32 == 2 * (b / 64) + b / 32 % 2
    ensures b / 64 == 2 * (b / 128) + b / 64 % 2 && b / 128 == b / 128 % 2
  {
    assert b / 4 == b / 2 / 2 && b / 8 == b / 4 / 2 && b / 16 == b / 8 / 2 && b / 32 == b / 16 / 2;
    assert b / 64 == b / 32 / 2 && b / 128 == b / 64 / 2;
  }

  lemma ByteOfBits(b: byte)
    ensures b == b / 128 % 2 * 128 + b / 64 % 2 * 64 + b / 32 % 2 * 32 + b / 16 % 2 * 16 + b / 8 % 2 * 8
                 + b / 4 % 2 * 4 + b / 2 % 2 * 2 + b % 2
  {
    Halvings(b);
  }

  lemma ByteOfCrumbs(b: byte)
    ensures b == b / 64 % 4 * 64 + b / 16 % 4 * 16 + b / 4 % 4 * 4 + b % 4
  {
    assert b / 16 == b / 4 / 4 && b / 64 == b / 16 / 4;
  }

  function SamplesOf(b: byte, depth: nat): (s: seq<nat>)
    requires IsPacked(depth)
  {
    seq(Per(depth), k requires 0 <= k < Per(depth) => SampleOf(b, depth, k))
  }

  lemma MaskedIsMasked(v: nat, depth: nat)
    requires IsPacked(depth)
    ensures Masked(Masked(v, depth), depth) == Masked(v, depth)
  {
  }

  lemma PackedOfSamples1(b: byte, s: seq<nat>)
    requires s == SamplesOf(b, 1) && AreSamples(s, 1)
    ensures PackedByte(s, 1) == b
  {
    ByteOfBits(b);
    assert s[0] == b / 128 % 2 && s[1] == b / 64 % 2 && s[2] == b / 32 % 2 && s[3] == b / 16 % 2;
    assert s[4] == b / 8 % 2 && s[5] == b / 4 % 2 && s[6] == b / 2 % 2 && s[7] == b % 2;
  }

  lemma PackedOfSamples2(b: byte, s: seq<nat>)
    requires s == SamplesOf(b, 2) && AreSamples(s, 2)
    ensures PackedByte(s, 2) == b
  {
    ByteOfCrumbs(b);
    assert s[0] == b / 64 % 4 && s[1] == b / 16 % 4 && s[2] == b / 4 % 4 && s[3] == b % 4;
  }

  lemma PackedOfSamples(b: byte, depth: nat)
    requires IsPacked(depth)
    ensures AreSamples(SamplesOf(b, depth), depth) && PackedByte(SamplesOf(b, depth), depth) == b
  {
    forall k | 0 <= k < Per(depth)
      ensures Masked(SampleOf(b, depth, k), depth) == SampleOf(b, depth, k)
    {
      MaskedIsMasked(Shifted(b, 8 - depth * (k + 1)), depth);
    }
    if depth == 1 {
      PackedOfSamples1(b, SamplesOf(b, 1));
    } else if depth == 2 {
      PackedOfSamples2(b, SamplesOf(b, 2));
    } else {
      assert b == b / 16 % 16 * 16 + b % 16;
    }
  }

  method ByteSamples(b: byte, depth: nat) returns (mine: seq<nat>)
    requires IsPacked(depth)
    ensures |mine| == Per(depth) && AreSamples(mine, depth) && PackedByte(mine, depth) == b
  {
    mine := [];
    for k := 0 to Per(depth)
      invariant mine == SamplesOf(b, depth)[..k]
    {
      mine := mine + [SampleOf(b, depth, k)];
    }
    PackedOfSamples(b, depth);
  }

  lemma MultiplesAdd(m: nat, n: nat, d: nat)
    requires d > 0 && m % d == 0 && n % d == 0
    ensures (m + n) % d == 0
  {
    assert m == d * (m / d) && n == d * (n / d);
    assert d * (m / d + n / d) == d * (m / d) + d * (n / d);
    ModUnique(m + n, d, m / d + n / d, 0);
  }

  lemma WholeBytesAdd(m: nat, n: nat, depth: nat)
    requires IsPacked(depth) && WholeBytes(m, depth) && WholeBytes(n, depth)
    ensures WholeBytes(m + n, depth)
  {
    if depth == 1 {
      MultiplesAdd(m, n, 8);
    } else if depth == 2 {
      MultiplesAdd(m, n, 4);
    } else {
      MultiplesAdd(m, n, 2);
    }
  }

  lemma JoinSamples(s: seq<nat>, more: seq<nat>, depth: nat)
    requires IsPacked(depth) && AreSamples(s, depth) && AreSamples(more, depth)
    ensures AreSamples(s + more, depth)
  {
    WholeBytesAdd(|s|, |more|, depth);
    hide WholeBytes, Masked;
  }

  lemma PackedNext(s: seq<nat>, more: seq<nat>, depth: nat)
    requires IsPacked(depth) && AreSamples(s, depth) && AreSamples(more, depth) && |more| == Per(depth)
    ensures AreSamples(s + more, depth) && Packed(s + more, depth) == Packed(s, depth) + [PackedByte(more, depth)]
  {
    JoinSamples(s, more, depth);
    hide PackedByte, AreSamples;
    assert (s + more)[..|s|] == s && (s + more)[|s|..] == more;
  }

  /** The samples of a row: as many per byte as fit, the top ones first. */
  method Samples(line: array<byte>, depth: nat) returns (out: seq<nat>)
    requires IsPacked(depth) || depth == 8 || depth == 16
    ensures depth == 8 ==> out == line[..]
    ensures depth == 16 ==> |out| == (line.Length + 1) / 2 && forall i | 0 <= i < |out| :: out[i] == line[2 * i]
    ensures IsPacked(depth) ==>
      |out| == line.Length * Per(depth) && AreSamples(out, depth) && Packed(out, depth) == line[..]
  {
    out := [];
    if depth == 8 {
      return line[..];
    }
    if depth == 16 {
      for i := 0 to (line.Length + 1) / 2
        invariant |out| == i && forall j | 0 <= j < i :: out[j] == line[2 * j]
      {
        out := out + [line[2 * i]];  // strip to 8 bits
      }
      return;
    }
    for i := 0 to line.Length
      invariant |out| == i * Per(depth) && AreSamples(out, depth) && Packed(out, depth) == line[..i]
    {
      var mine := ByteSamples(line[i], depth);
      PackedNext(out, mine, depth);
      assert line[..i + 1] == line[..i] + [line[i]];
      out := out + mine;
    }
    assert line[..line.Length] == line[..];
  }

  lemma OneLess(n: nat, d: nat)
    requires d > 0 && n > 0 && n % d == 0
    ensures d <= n && (n - d) % d == 0
  {
    assert n == d * (n / d);
    Multiples(d, n / d);
    assert n - d == d * (n / d - 1);
    ModUnique(n - d, d, n / d - 1, 0);
  }

  lemma FullByte(n: nat, depth: nat)
    requires IsPacked(depth) && n > 0 && WholeBytes(n, depth)
    ensures 0 < Per(depth) <= n && WholeBytes(Per(depth), depth) && WholeBytes(n - Per(depth), depth)
  {
    if depth == 1 {
      OneLess(n, 8);
    } else if depth == 2 {
      OneLess(n, 4);
    } else {
      OneLess(n, 2);
    }
  }

  lemma SplitSamples(s: seq<nat>, depth: nat)
    requires IsPacked(depth) && s != [] && AreSamples(s, depth)
    ensures var head := |s| - Per(depth);
            0 <= head < |s| && AreSamples(s[..head], depth) && AreSamples(s[head..], depth)
  {
    FullByte(|s|, depth);
    hide WholeBytes, Masked, Per;
  }

  lemma LastByte(s: seq<nat>, depth: nat)
    requires IsPacked(depth) && s != [] && AreSamples(s, depth)
    ensures var head := |s| - Per(depth);
            && 0 <= head < |s| && AreSamples(s[..head], depth) && AreSamples(s[head..], depth)
            && Packed(s, depth) == Packed(s[..head], depth) + [PackedByte(s[head..], depth)]
  {
    hide PackedByte, Masked;
    SplitSamples(s, depth);
    hide AreSamples;
  }

  lemma PackedByteIsInjective(s: seq<nat>, t: seq<nat>, depth: nat)
    requires IsPacked(depth) && AreSamples(s, depth) && AreSamples(t, depth) && |s| == |t| == Per(depth)
    requires PackedByte(s, depth) == PackedByte(t, depth)
    ensures s == t
  {
    hide PackedByte, SampleOf, AreSamples;
    forall k | 0 <= k < Per(depth)
      ensures s[k] == t[k]
    {
      SampleOfPacked(s, depth, k);
      SampleOfPacked(t, depth, k);
    }
  }

  lemma {:induction false} PackedIsInjective(s: seq<nat>, t: seq<nat>, depth: nat)
    requires IsPacked(depth) && AreSamples(s, depth) && AreSamples(t, depth) && Packed(s, depth) == Packed(t, depth)
    ensures s == t
    decreases |s|
  {
    assert AreSamples([], depth) && Packed([], depth) == [];
    hide PackedByte, Masked, AreSamples, Per, Packed;
    if s != [] && t != [] {
      LastByte(s, depth);
      LastByte(t, depth);
      var i, j := |s| - Per(depth), |t| - Per(depth);
      var p, q := Packed(s[..i], depth), Packed(t[..j], depth);
      assert (p + [PackedByte(s[i..], depth)])[..|p|] == p && (q + [PackedByte(t[j..], depth)])[..|q|] == q;
      assert PackedByte(s[i..], depth) == PackedByte(t[j..], depth);
      PackedByteIsInjective(s[i..], t[j..], depth);
      PackedIsInjective(s[..i], t[..j], depth);
      assert s == s[..i] + s[i..] && t == t[..j] + t[j..];
    } else if s != [] {
      LastByte(s, depth);
    } else if t != [] {
      LastByte(t, depth);
    }
  }

  /** Whatever the samples, unpacking gives back what was packed. */
  method PackingIsUndone(ghost s: seq<nat>, line: array<byte>, depth: nat) returns (out: seq<nat>)
    requires IsPacked(depth) && AreSamples(s, depth) && line[..] == Packed(s, depth)
    ensures out == s
  {
    out := Samples(line, depth);
    PackedIsInjective(s, out, depth);
  }
}
