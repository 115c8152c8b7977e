/**
 * YUV pictures into RGB565 through three clamping tables: every output pixel is the
 * fixed-point formula of one luma and one chroma sample, on every path.
 */
module Yuv {
  import opened Basics

  const TAB_LO := -384
  const TAB_SIZE := 1152

  datatype Layout = Yuv420 | Yuv422 | Yuv444 | Gray

  /** Luma gain and black level, and chroma gains (all gains times 256). */
  datatype Coeffs = Coeffs(cy: int, yoff: int, crv: int, cgu: int, cgv: int, cbu: int)

  /** ITU-R BT.601 or BT.709, TV or full range. */
  function CoeffsFor(fullRange: bool, bt709: bool): Coeffs {
    if fullRange
    then if bt709 then Coeffs(256, 0, 403, 48, 120, 475) else Coeffs(256, 0, 359, 88, 183, 454)
    else if bt709 then Coeffs(298, 16, 459, 55, 136, 541) else Coeffs(298, 16, 409, 100, 208, 516)
  }

  // ── A pixel ─────────────────────────────────────────────────────────────

  function Clamp(v: int): (c: byte) {
    if v < 0 then 0 else if v > 255 then 255 else v
  }

  function Luma(k: Coeffs, y: byte): int {
    k.cy * (y - k.yoff) + 128
  }

  /** The channels before clamping, for a luma and the two chroma samples. */
  function Red(k: Coeffs, y: byte, v: byte): int {
    (Luma(k, y) + k.crv * (v - 128)) / 256
  }

  function Green(k: Coeffs, y: byte, u: byte, v: byte): int {
    (Luma(k, y) - (k.cgu * (u - 128) + k.cgv * (v - 128))) / 256
  }

  function Blue(k: Coeffs, y: byte, u: byte): int {
    (Luma(k, y) + k.cbu * (u - 128)) / 256
  }

  /** Five bits of red, six of green and five of blue. */
  function Rgb565(r: byte, g: byte, b: byte): nat {
    r / 8 * 2048 + g / 4 * 32 + b / 8
  }

  lemma FieldsApart(r5: nat, g6: nat, b5: nat)
    requires r5 < 32 && g6 < 64 && b5 < 32
    ensures var p := r5 * 2048 + g6 * 32 + b5;
            p < 0x1_0000 && p / 2048 == r5 && p / 32 % 64 == g6 && p % 32 == b5
  {
    var p := r5 * 2048 + g6 * 32 + b5;
    assert p / 32 == r5 * 64 + g6;
  }

  /** It fits 16 bits, and each channel's bits can be taken from it again. */
  lemma FieldsOf(r: byte, g: byte, b: byte)
    ensures var p := Rgb565(r, g, b);
            p < 0x1_0000 && p / 2048 == r / 8 && p / 32 % 64 == g / 4 && p % 32 == b / 8
  {
    var r5: nat, g6: nat, b5: nat := r / 8, g / 4, b / 8;
    FieldsApart(r5, g6, b5);
  }

  function Pixel(k: Coeffs, y: byte, u: byte, v: byte): nat {
    Rgb565(Clamp(Red(k, y, v)), Clamp(Green(k, y, u, v)), Clamp(Blue(k, y, u)))
  }

  // ── What the recommendations say ────────────────────────────────────────

  /** A colour, from 0 (black) to 255 (full) in each channel when it is one that can be shown. */
  datatype Colour = Colour(r: real, g: real, b: real)

  /** The weights of red and of blue in luma: BT.709 section 3.2, BT.601 section 2.5.1. */
  function RedWeight(bt709: bool): real {
    if bt709 then 0.2126 else 0.299
  }

  function BlueWeight(bt709: bool): real {
    if bt709 then 0.0722 else 0.114
  }

  /** Luma is the weighted sum of the channels, and the chroma are the scaled differences of blue and red from it. */
  predicate IsEncodedAs(c: Colour, bt709: bool, luma: real, cb: real, cr: real) {
    var kr, kb := RedWeight(bt709), BlueWeight(bt709);
    && luma == kr * c.r + (1.0 - kr - kb) * c.g + kb * c.b
    && c.b - luma == 2.0 * (1.0 - kb) * cb
    && c.r - luma == 2.0 * (1.0 - kr) * cr
  }

  /**
   * The colour that three samples stand for. In TV range black is 16 and white is 235, and chroma reaches
   * 112 to either side of 128; in full range the samples use all values.
   */
  predicate StandFor(y: byte, u: byte, v: byte, fullRange: bool, bt709: bool, c: Colour) {
    var luma, cb, cr := y as real, u as real - 128.0, v as real - 128.0;
    if fullRange then IsEncodedAs(c, bt709, luma, cb, cr)
    else IsEncodedAs(c, bt709, (luma - 16.0) * 255.0 / 219.0, cb * 255.0 / 224.0, cr * 255.0 / 224.0)
  }

  /** At most one and a half levels off. */
  predicate IsNear(channel: int, exact: real) {
    -1.5 <= channel as real - exact <= 1.5
  }

  /** A word holds a clamped channel's upper bits in each field. */
  predicate Holds(p: nat, r: int, g: int, b: int) {
    p / 2048 == Clamp(r) / 8 && p / 32 % 64 == Clamp(g) / 4 && p % 32 == Clamp(b) / 8
  }

  /** The fixed-point channels are the colour the samples stand for, in either standard and range. */
  lemma ChannelsAreItu(fullRange: bool, bt709: bool, y: byte, u: byte, v: byte, c: Colour)
    requires StandFor(y, u, v, fullRange, bt709, c)
    ensures var k := CoeffsFor(fullRange, bt709);
            IsNear(Red(k, y, v), c.r) && IsNear(Green(k, y, u, v), c.g) && IsNear(Blue(k, y, u), c.b)
  {
  }

  /**
   * So a pixel's fields are those of a colour within one and a half levels of what its samples stand for,
   * clamped to 0..255.
   */
  lemma PixelIsItu(fullRange: bool, bt709: bool, y: byte, u: byte, v: byte, c: Colour) returns (r: int, g: int, b: int)
    requires StandFor(y, u, v, fullRange, bt709, c)
    ensures IsNear(r, c.r) && IsNear(g, c.g) && IsNear(b, c.b)
    ensures Holds(Pixel(CoeffsFor(fullRange, bt709), y, u, v), r, g, b)
  {
    var k := CoeffsFor(fullRange, bt709);
    r, g, b := Red(k, y, v), Green(k, y, u, v), Blue(k, y, u);
    ChannelsAreItu(fullRange, bt709, y, u, v, c);
    FieldsOf(Clamp(r), Clamp(g), Clamp(b));
  }

  predicate InTable(v: int) {
    TAB_LO <= v < TAB_LO + TAB_SIZE
  }

  /** No channel of any pixel falls outside the tables, with any of the four sets of coefficients. */
  lemma ChannelsInTable(fullRange: bool, bt709: bool, y: byte, u: byte, v: byte)
    ensures var k := CoeffsFor(fullRange, bt709);
            InTable(Red(k, y, v)) && InTable(Green(k, y, u, v)) && InTable(Blue(k, y, u)) && InTable(Luma(k, y) / 256)
  {
  }

  /** Bitwise or. */
  function Or(a: nat, b: nat): nat {
    if a == 0 && b == 0 then 0 else Max(a % 2, b % 2) + 2 * Or(a / 2, b / 2)
  }

  function Pow2(n: nat): (p: nat)
    ensures p > 0
  {
    if n == 0 then 1 else 2 * Pow2(n - 1)
  }

  lemma {:induction false} OrZero(a: nat)
    ensures Or(a, 0) == a
    decreases a
  {
    if a == 0 {
    } else {
      OrZero(a / 2);
    }
  }

  /** Or of fields that do not overlap is their sum. */
  lemma {:induction false} OrIsSum(a: nat, b: nat, n: nat)
    requires b < Pow2(n)
    ensures Or(a * Pow2(n), b) == a * Pow2(n) + b
    decreases n
  {
    if n == 0 {
      OrZero(a);
    } else {
      var high := a * Pow2(n);
      assert high == 2 * (a * Pow2(n - 1));
      OrIsSum(a, b / 2, n - 1);
    }
  }

  lemma Powers()
    ensures Pow2(5) == 32 && Pow2(11) == 2048
  {
    assert Pow2(5) == 2 * Pow2(4) == 4 * Pow2(3) == 8 * Pow2(2);
    assert Pow2(11) == 2 * Pow2(10) == 4 * Pow2(9) == 8 * Pow2(8) == 16 * Pow2(7) == 32 * Pow2(6) == 64 * Pow2(5);
  }

  lemma OrIsRgb565(r: byte, g: byte, b: byte)
    ensures Or(Or((r / 8 * 8) * 256, (g / 4 * 4) * 8), b / 8) == Rgb565(r, g, b)
  {
    Powers();
    hide Pow2, Or;
    OrIsSum(r / 8, g / 4 * 32, 11);
    OrIsSum(r / 8 * 64 + g / 4, b / 8, 5);
  }

  // ── A picture ───────────────────────────────────────────────────────────

  /** The three planes and their strides. */
  datatype Planes = Planes(y: seq<byte>, u: seq<byte>, v: seq<byte>, ys: nat, us: nat, vs: nat)

  /** What to take of it: every step-th sample from an even corner. */
  datatype View = View(layout: Layout, x0: nat, y0: nat, step: nat, fullRange: bool, bt709: bool)

  function Even(n: nat): nat {
    n - n % 2
  }

  /** n >> the subsampling shift. */
  function ShiftX(layout: Layout, n: nat): nat {
    if layout == Yuv444 then n else n / 2
  }

  function ShiftY(layout: Layout, n: nat): nat {
    if layout == Yuv420 then n / 2 else n
  }

  /** n steps of d, added up: n * d. */
  function Steps(n: nat, d: nat): nat {
    if n == 0 then 0 else Steps(n - 1, d) + d
  }

  lemma {:induction false} StepsAreProduct(n: nat, d: nat)
    ensures Steps(n, d) == n * d
    decreases n
  {
    if n == 0 {
    } else {
      StepsAreProduct(n - 1, d);
      assert n * d == (n - 1) * d + d;
    }
  }

  lemma {:induction false} StepsOfOne(n: nat)
    ensures Steps(n, 1) == n
    decreases n
  {
    if n == 0 {
    } else {
      StepsOfOne(n - 1);
    }
  }

  /** The sample coordinates of an output pixel. */
  function XOf(view: View, ox: nat): nat {
    Even(view.x0) + Steps(ox, view.step)
  }

  function YOf(view: View, oy: nat): nat {
    Even(view.y0) + Steps(oy, view.step)
  }

  /** The place of a sample in its plane. */
  function At(row: nat, stride: nat, column: nat): nat {
    Steps(row, stride) + column
  }

  /** They are the products one expects: x0 + ox * step, and row * stride + column. */
  lemma PlacesAreProducts(view: View, ox: nat, row: nat, stride: nat, column: nat)
    ensures XOf(view, ox) == Even(view.x0) + ox * view.step && YOf(view, ox) == Even(view.y0) + ox * view.step
    ensures At(row, stride, column) == row * stride + column
  {
    StepsAreProduct(ox, view.step);
    StepsAreProduct(row, stride);
  }

  predicate HasSamples(p: Planes, view: View, ox: nat, oy: nat) {
    var x, y := XOf(view, ox), YOf(view, oy);
    && At(y, p.ys, x) < |p.y|
    && (view.layout != Gray ==>
        && At(ShiftY(view.layout, y), p.us, ShiftX(view.layout, x)) < |p.u|
        && At(ShiftY(view.layout, y), p.vs, ShiftX(view.layout, x)) < |p.v|)
  }

  /** The pixel of an output position: grey has neutral chroma. */
  function PixelAt(p: Planes, view: View, ox: nat, oy: nat): nat
    requires HasSamples(p, view, ox, oy)
  {
    var x, y := XOf(view, ox), YOf(view, oy);
    var k := CoeffsFor(view.fullRange, view.bt709);
    if view.layout == Gray then Pixel(k, p.y[At(y, p.ys, x)], 128, 128)
    else
      var cx, cy := ShiftX(view.layout, x), ShiftY(view.layout, y);
      Pixel(k, p.y[At(y, p.ys, x)], p.u[At(cy, p.us, cx)], p.v[At(cy, p.vs, cx)])
  }

  /** The sample in a row and column of a plane. */
  predicate IsSample(plane: seq<byte>, stride: nat, row: nat, column: nat, b: byte) {
    var i := row * stride + column;
    0 <= i < |plane| && plane[i] == b
  }

  lemma SampleIsAt(plane: seq<byte>, stride: nat, row: nat, column: nat)
    requires At(row, stride, column) < |plane|
    ensures IsSample(plane, stride, row, column, plane[At(row, stride, column)])
  {
    StepsAreProduct(row, stride);
  }

  /**
   * The samples of an output pixel, counted out: luma in its row and column, and chroma in half the row and
   * column (4:2:0), half the column (4:2:2) or the same place (4:4:4); a grey picture has neutral chroma.
   */
  lemma SamplesOfPixel(p: Planes, view: View, ox: nat, oy: nat) returns (x: nat, y: nat, luma: byte, cb: byte, cr: byte)
    requires HasSamples(p, view, ox, oy)
    ensures PixelAt(p, view, ox, oy) == Pixel(CoeffsFor(view.fullRange, view.bt709), luma, cb, cr)
    ensures x == view.x0 / 2 * 2 + ox * view.step && y == view.y0 / 2 * 2 + oy * view.step
    ensures IsSample(p.y, p.ys, y, x, luma)
    ensures match view.layout
            case Yuv420 => IsSample(p.u, p.us, y / 2, x / 2, cb) && IsSample(p.v, p.vs, y / 2, x / 2, cr)
            case Yuv422 => IsSample(p.u, p.us, y, x / 2, cb) && IsSample(p.v, p.vs, y, x / 2, cr)
            case Yuv444 => IsSample(p.u, p.us, y, x, cb) && IsSample(p.v, p.vs, y, x, cr)
            case Gray => cb == 128 && cr == 128
  {
    hide Pixel, IsSample, At;
    StepsAreProduct(ox, view.step);
    StepsAreProduct(oy, view.step);
    x, y := XOf(view, ox), YOf(view, oy);
    luma, cb, cr := p.y[At(y, p.ys, x)], 128, 128;
    SampleIsAt(p.y, p.ys, y, x);
    if view.layout != Gray {
      var row, column := ShiftY(view.layout, y), ShiftX(view.layout, x);
      cb, cr := p.u[At(row, p.us, column)], p.v[At(row, p.vs, column)];
      SampleIsAt(p.u, p.us, row, column);
      SampleIsAt(p.v, p.vs, row, column);
    }
  }

  /** Chroma of an even corner plus an offset: the corner's chroma plus the offset's. */
  lemma ShiftOfEven(layout: Layout, x0: nat, d: nat)
    ensures ShiftX(layout, Even(x0) + d) == ShiftX(layout, Even(x0)) + ShiftX(layout, d)
  {
  }

  // ── The converter ───────────────────────────────────────────────────────

  /** Entry i of the tables: the clamped channel value's bits of the word. */
  predicate IsEntry(i: int, r: nat, g: nat, b: nat) {
    var v := Clamp(i + TAB_LO);
    r == v / 8 * 8 * 256 && g == v / 4 * 4 * 8 && b == v / 8
  }

  lemma RowsApart(r: nat, n: int, stride: nat)
    requires r <= n
    ensures r * stride <= n * stride && (r + 1) * stride == r * stride + stride
  {
  }

  /** A row of the output holds its pixels. */
  ghost predicate RowIs(dst: seq<nat>, at: nat, p: Planes, view: View, w: nat, oy: nat) {
    && at + w <= |dst|
    && forall ox | 0 <= ox < w :: HasSamples(p, view, ox, oy) && dst[at + ox] == PixelAt(p, view, ox, oy)
  }

  ghost predicate InPicture(i: nat, stride: nat, w: nat, h: nat) {
    exists oy: nat :: oy < h && oy * stride <= i < oy * stride + w
  }

  lemma RowStays(was: seq<nat>, now: seq<nat>, at: nat, p: Planes, view: View, w: nat, oy: nat)
    requires RowIs(was, at, p, view, w, oy) && |now| == |was|
    requires forall i | at <= i < at + w :: now[i] == was[i]
    ensures RowIs(now, at, p, view, w, oy)
  {
  }

  lemma OutsideBefore(i: nat, stride: nat, w: nat, oy: nat)
    requires !InPicture(i, stride, w, oy + 1)
    ensures !InPicture(i, stride, w, oy) && !(oy * stride <= i < oy * stride + w)
  {
  }

  /** The samples of an output pixel, counted from the row's first. */
  ghost predicate OwnSamples(p: Planes, view: View, ox: nat, oy: nat, yr: seq<byte>, ur: seq<byte>, vr: seq<byte>) {
    var x := Steps(ox, view.step);
    var c := ShiftX(view.layout, x);
    && HasSamples(p, view, ox, oy) && x < |yr| && c < |ur| && c < |vr|
    && PixelAt(p, view, ox, oy) == Pixel(CoeffsFor(view.fullRange, view.bt709), yr[x], ur[c], vr[c])
  }

  /** At full size with halved chroma, a pair of pixels shares its chroma. */
  lemma SharedChroma(p: Planes, view: View, i: nat, oy: nat, yr: seq<byte>, ur: seq<byte>, vr: seq<byte>)
    requires view.step == 1 && view.layout != Yuv444 && OwnSamples(p, view, i, oy, yr, ur, vr)
    ensures HasSamples(p, view, i, oy) && i < |yr| && i / 2 < |ur| && i / 2 < |vr|
    ensures PixelAt(p, view, i, oy) == Pixel(CoeffsFor(view.fullRange, view.bt709), yr[i], ur[i / 2], vr[i / 2])
  {
    hide HasSamples, PixelAt, Pixel, CoeffsFor;
    StepsOfOne(i);
  }

  ghost predicate GraySamples(p: Planes, view: View, ox: nat, oy: nat, yr: seq<byte>) {
    && HasSamples(p, view, ox, oy) && Steps(ox, view.step) < |yr|
    && PixelAt(p, view, ox, oy) == Pixel(CoeffsFor(view.fullRange, view.bt709), yr[Steps(ox, view.step)], 128, 128)
  }

  /** The rows' first samples. */
  ghost predicate RowStarts(p: Planes, view: View, oy: nat, yr: seq<byte>, ur: seq<byte>, vr: seq<byte>) {
    && yr == From(p.y, At(YOf(view, oy), p.ys, Even(view.x0)))
    && (view.layout != Gray ==>
        && ur == From(p.u, At(ShiftY(view.layout, YOf(view, oy)), p.us, ShiftX(view.layout, Even(view.x0))))
        && vr == From(p.v, At(ShiftY(view.layout, YOf(view, oy)), p.vs, ShiftX(view.layout, Even(view.x0)))))
  }

  lemma FromAt(s: seq<byte>, at: nat, d: nat)
    requires at + d < |s|
    ensures d < |From(s, at)| && From(s, at)[d] == s[at + d]
  {
  }

  lemma SamplesOf(p: Planes, view: View, ox: nat, oy: nat, yr: seq<byte>, ur: seq<byte>, vr: seq<byte>)
    requires HasSamples(p, view, ox, oy)
    requires RowStarts(p, view, oy, yr, ur, vr)
    ensures if view.layout == Gray then GraySamples(p, view, ox, oy, yr) else OwnSamples(p, view, ox, oy, yr, ur, vr)
  {
    hide Pixel, CoeffsFor, ShiftX, ShiftY, Even, From;
    var x, d := Even(view.x0), Steps(ox, view.step);
    ShiftOfEven(view.layout, view.x0, d);
    FromAt(p.y, At(YOf(view, oy), p.ys, x), d);
    if view.layout != Gray {
      var cy := ShiftY(view.layout, YOf(view, oy));
      FromAt(p.u, At(cy, p.us, ShiftX(view.layout, x)), ShiftX(view.layout, d));
      FromAt(p.v, At(cy, p.vs, ShiftX(view.layout, x)), ShiftX(view.layout, d));
    }
  }

  lemma OwnSamplesOfRow(p: Planes, view: View, w: nat, oy: nat, yr: seq<byte>, ur: seq<byte>, vr: seq<byte>)
    requires view.layout != Gray && forall ox | 0 <= ox < w :: HasSamples(p, view, ox, oy)
    requires RowStarts(p, view, oy, yr, ur, vr)
    ensures forall ox | 0 <= ox < w :: OwnSamples(p, view, ox, oy, yr, ur, vr)
  {
    hide HasSamples, OwnSamples;
    forall ox | 0 <= ox < w
      ensures OwnSamples(p, view, ox, oy, yr, ur, vr)
    {
      SamplesOf(p, view, ox, oy, yr, ur, vr);
    }
  }

  lemma GraySamplesOfRow(p: Planes, view: View, w: nat, oy: nat, yr: seq<byte>)
    requires view.layout == Gray && forall ox | 0 <= ox < w :: HasSamples(p, view, ox, oy)
    requires RowStarts(p, view, oy, yr, [], [])
    ensures forall ox | 0 <= ox < w :: GraySamples(p, view, ox, oy, yr)
  {
    hide HasSamples, GraySamples;
    forall ox | 0 <= ox < w
      ensures GraySamples(p, view, ox, oy, yr)
    {
      SamplesOf(p, view, ox, oy, yr, [], []);
    }
  }

  class Converter {
    const rtab: array<nat>
    const gtab: array<nat>
    const btab: array<nat>
    var ready: bool

    predicate Valid()
      reads this, rtab, gtab, btab
    {
      && rtab.Length == gtab.Length == btab.Length == TAB_SIZE
      && rtab != gtab && rtab != btab && gtab != btab
      && (ready ==> forall i | 0 <= i < TAB_SIZE :: IsEntry(i, rtab[i], gtab[i], btab[i]))
    }

    constructor ()
      ensures Valid() && !ready && fresh(rtab) && fresh(gtab) && fresh(btab)
    {
      rtab, gtab, btab := new nat[TAB_SIZE], new nat[TAB_SIZE], new nat[TAB_SIZE];
      ready := false;
    }

    method InitTabs()
      requires Valid()
      modifies this, rtab, gtab, btab
      ensures Valid() && ready
    {
      for i := 0 to TAB_SIZE
        invariant forall k | 0 <= k < i :: IsEntry(k, rtab[k], gtab[k], btab[k])
      {
        var v := i + TAB_LO;
        v := if v < 0 then 0 else if v > 255 then 255 else v;
        rtab[i], gtab[i], btab[i] := (v / 8 * 8) * 256, (v / 4 * 4) * 8, v / 8;
      }
      ready := true;
    }

    /** y, rv, guv and bu are the luma's and the chroma's shares, times 256. */
    method Pack(y: int, rv: int, guv: int, bu: int) returns (p: nat)
      requires Valid() && ready && InTable((y + rv) / 256) && InTable((y + guv) / 256) && InTable((y + bu) / 256)
      ensures p == Rgb565(Clamp((y + rv) / 256), Clamp((y + guv) / 256), Clamp((y + bu) / 256))
    {
      var r, g, b := (y + rv) / 256, (y + guv) / 256, (y + bu) / 256;
      assert rtab[r - TAB_LO] == Clamp(r) / 8 * 8 * 256;
      assert gtab[g - TAB_LO] == Clamp(g) / 4 * 4 * 8;
      assert btab[b - TAB_LO] == Clamp(b) / 8;
      OrIsRgb565(Clamp(r), Clamp(g), Clamp(b));
      p := Or(Or(rtab[r - TAB_LO], gtab[g - TAB_LO]), btab[b - TAB_LO]);
    }

    /** One pixel of its own luma and chroma. */
    method PackSamples(fullRange: bool, bt709: bool, y: byte, u: byte, v: byte) returns (p: nat)
      requires Valid() && ready
      ensures p == Pixel(CoeffsFor(fullRange, bt709), y, u, v)
    {
      var k := CoeffsFor(fullRange, bt709);
      ChannelsInTable(fullRange, bt709, y, u, v);
      p := Pack(k.cy * (y - k.yoff) + 128, k.crv * (v - 128), -(k.cgu * (u - 128) + k.cgv * (v - 128)), k.cbu * (u - 128));
    }

    predicate Separate(dst: array<nat>) {
      dst != rtab && dst != gtab && dst != btab
    }

    /** Two neighbouring luma samples share a chroma sample: pairs, and perhaps one more. */
    method RowShared(dst: array<nat>, at: nat, yr: seq<byte>, ur: seq<byte>, vr: seq<byte>, w: nat, p: Planes, view: View,
                     oy: nat)
      requires Valid() && ready && Separate(dst) && at + w <= dst.Length
      requires view.step == 1 && view.layout != Yuv444
      requires forall ox | 0 <= ox < w :: OwnSamples(p, view, ox, oy, yr, ur, vr)
      modifies dst
      ensures RowIs(dst[..], at, p, view, w, oy)
      ensures forall i | 0 <= i < dst.Length && !(at <= i < at + w) :: dst[i] == old(dst[i])
    {
      hide IsEntry, Pixel, CoeffsFor, HasSamples, PixelAt, Converter.Valid;
      var i := 0;
      while i + 1 < w
        invariant i <= w && i % 2 == 0 && Valid() && ready
        invariant forall j | 0 <= j < i :: HasSamples(p, view, j, oy) && dst[at + j] == PixelAt(p, view, j, oy)
        invariant forall j | 0 <= j < dst.Length && !(at <= j < at + i) :: dst[j] == old(dst[j])
      {
        SharedChroma(p, view, i, oy, yr, ur, vr);
        SharedChroma(p, view, i + 1, oy, yr, ur, vr);
        var p0, p1 := PackPair(view.fullRange, view.bt709, yr[i], yr[i + 1], ur[i / 2], vr[i / 2]);
        dst[at + i] := p0;
        dst[at + i + 1] := p1;
        i := i + 2;
      }
      if i < w {
        SharedChroma(p, view, i, oy, yr, ur, vr);
        var px := PackSamples(view.fullRange, view.bt709, yr[i], ur[i / 2], vr[i / 2]);
        dst[at + i] := px;
      }
    }

    method PackPair(fullRange: bool, bt709: bool, ya: byte, yb: byte, us: byte, vs: byte) returns (p0: nat, p1: nat)
      requires Valid() && ready
      ensures p0 == Pixel(CoeffsFor(fullRange, bt709), ya, us, vs) && p1 == Pixel(CoeffsFor(fullRange, bt709), yb, us, vs)
    {
      hide CoeffsFor, InTable, Rgb565, Clamp, IsEntry;
      var k := CoeffsFor(fullRange, bt709);
      ChannelsInTable(fullRange, bt709, ya, us, vs);
      ChannelsInTable(fullRange, bt709, yb, us, vs);
      var u: int, v: int := us - 128, vs - 128;
      var rv, guv, bu := k.crv * v, -(k.cgu * u + k.cgv * v), k.cbu * u;
      p0 := Pack(k.cy * (ya - k.yoff) + 128, rv, guv, bu);
      p1 := Pack(k.cy * (yb - k.yoff) + 128, rv, guv, bu);
    }

    method PackGray(fullRange: bool, bt709: bool, y: byte) returns (p: nat)
      requires Valid() && ready
      ensures p == Pixel(CoeffsFor(fullRange, bt709), y, 128, 128)
    {
      hide CoeffsFor, InTable, Rgb565, Clamp, IsEntry;
      var k := CoeffsFor(fullRange, bt709);
      ChannelsInTable(fullRange, bt709, y, 128, 128);
      assert k.crv * 0 == 0 && k.cgu * 0 + k.cgv * 0 == 0 && k.cbu * 0 == 0;
      p := Pack(k.cy * (y - k.yoff) + 128, 0, 0, 0);
    }

    /** A row of grey: the luma in all three channels. */
    method RowGray(dst: array<nat>, at: nat, yr: seq<byte>, w: nat, p: Planes, view: View, oy: nat)
      requires Valid() && ready && Separate(dst) && at + w <= dst.Length
      requires forall ox | 0 <= ox < w :: GraySamples(p, view, ox, oy, yr)
      modifies dst
      ensures RowIs(dst[..], at, p, view, w, oy)
      ensures forall i | 0 <= i < dst.Length && !(at <= i < at + w) :: dst[i] == old(dst[i])
    {
      hide IsEntry, Pixel, CoeffsFor, HasSamples, PixelAt, Converter.Valid;
      for ox := 0 to w
        invariant Valid() && ready
        invariant forall j | 0 <= j < ox :: HasSamples(p, view, j, oy) && dst[at + j] == PixelAt(p, view, j, oy)
        invariant forall j | 0 <= j < dst.Length && !(at <= j < at + ox) :: dst[j] == old(dst[j])
      {
        assert GraySamples(p, view, ox, oy, yr);
        StepsAreProduct(ox, view.step);
        var px := PackGray(view.fullRange, view.bt709, yr[ox * view.step]);
        dst[at + ox] := px;
      }
    }

    /** A row where each pixel has its own chroma: 4:4:4, or every second pixel. */
    method RowOwn(dst: array<nat>, at: nat, yr: seq<byte>, ur: seq<byte>, vr: seq<byte>, w: nat, p: Planes, view: View,
                  oy: nat)
      requires Valid() && ready && Separate(dst) && at + w <= dst.Length
      requires forall ox | 0 <= ox < w :: OwnSamples(p, view, ox, oy, yr, ur, vr)
      modifies dst
      ensures RowIs(dst[..], at, p, view, w, oy)
      ensures forall i | 0 <= i < dst.Length && !(at <= i < at + w) :: dst[i] == old(dst[i])
    {
      hide IsEntry, Pixel, CoeffsFor, HasSamples, PixelAt, Converter.Valid;
      for ox := 0 to w
        invariant Valid() && ready
        invariant forall j | 0 <= j < ox :: HasSamples(p, view, j, oy) && dst[at + j] == PixelAt(p, view, j, oy)
        invariant forall j | 0 <= j < dst.Length && !(at <= j < at + ox) :: dst[j] == old(dst[j])
      {
        assert OwnSamples(p, view, ox, oy, yr, ur, vr);
        StepsAreProduct(ox, view.step);
        var ci := if view.layout != Yuv444 then ox * view.step / 2 else ox * view.step;
        var px := PackSamples(view.fullRange, view.bt709, yr[ox * view.step], ur[ci], vr[ci]);
        dst[at + ox] := px;
      }
    }

    /** A row of the picture, on whichever path fits it. */
    method Row(dst: array<nat>, at: nat, p: Planes, view: View, w: nat, oy: nat)
      requires Valid() && ready && Separate(dst) && at + w <= dst.Length
      requires forall ox | 0 <= ox < w :: HasSamples(p, view, ox, oy)
      modifies dst
      ensures RowIs(dst[..], at, p, view, w, oy)
      ensures forall i | 0 <= i < dst.Length && !(at <= i < at + w) :: dst[i] == old(dst[i])
    {
      hide IsEntry, Pixel, CoeffsFor, HasSamples, PixelAt, GraySamples, OwnSamples, From;
      var sy := Even(view.y0) + oy * view.step;
      StepsAreProduct(oy, view.step);
      StepsAreProduct(sy, p.ys);
      var yr := From(p.y, sy * p.ys + Even(view.x0));
      if view.layout == Gray {
        GraySamplesOfRow(p, view, w, oy, yr);
        RowGray(dst, at, yr, w, p, view, oy);
        return;
      }
      var cy := ShiftY(view.layout, sy);
      StepsAreProduct(cy, p.us);
      StepsAreProduct(cy, p.vs);
      var ur := From(p.u, cy * p.us + ShiftX(view.layout, Even(view.x0)));
      var vr := From(p.v, cy * p.vs + ShiftX(view.layout, Even(view.x0)));
      OwnSamplesOfRow(p, view, w, oy, yr, ur, vr);
      if view.step == 1 && view.layout != Yuv444 {
        RowShared(dst, at, yr, ur, vr, w, p, view, oy);
      } else {
        RowOwn(dst, at, yr, ur, vr, w, p, view, oy);
      }
    }

    /**
     * Every pixel of the picture is PixelAt, whichever path its row took, and nothing else
     * of dst changes.
     */
    method ToRgb565(dst: array<nat>, stride: nat, p: Planes, view: View, w: nat, h: nat)
      requires Valid() && Separate(dst) && stride >= w
      requires h > 0 ==> (h - 1) * stride + w <= dst.Length
      requires forall ox, oy | 0 <= ox < w && 0 <= oy < h :: HasSamples(p, view, ox, oy)
      modifies this, rtab, gtab, btab, dst
      ensures Valid()
      ensures forall oy | 0 <= oy < h :: RowIs(dst[..], oy * stride, p, view, w, oy)
      ensures forall i | 0 <= i < dst.Length && !InPicture(i, stride, w, h) :: dst[i] == old(dst[i])
    {
      hide HasSamples, PixelAt, RowIs, Converter.Valid;
      if !ready {
        InitTabs();
      }
      for oy := 0 to h
        invariant Valid() && ready
        invariant forall r | 0 <= r < oy :: RowIs(dst[..], r * stride, p, view, w, r)
        invariant forall i | 0 <= i < dst.Length && !InPicture(i, stride, w, oy) :: dst[i] == old(dst[i])
      {
        RowsApart(oy, h - 1, stride);
        ghost var was := dst[..];
        Row(dst, oy * stride, p, view, w, oy);
        forall r | 0 <= r < oy
          ensures RowIs(dst[..], r * stride, p, view, w, r)
        {
          RowsApart(r + 1, oy, stride);
          RowsApart(r, oy, stride);
          RowStays(was, dst[..], r * stride, p, view, w, r);
        }
        forall i | 0 <= i < dst.Length && !InPicture(i, stride, w, oy + 1)
          ensures dst[i] == old(dst[i])
        {
          OutsideBefore(i, stride, w, oy);
        }
      }
    }
  }
}
