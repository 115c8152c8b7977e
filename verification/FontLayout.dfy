/** Text measured for layout: widths, the position under a point, and where a line is broken. */
module FontLayout {
  import opened Basics

  const SPACE_CHAR := 0x20

  /** A decoded character: its code, how many bytes it takes, and how far it advances the pen. */
  datatype Glyph = Glyph(ucs4: nat, bytes: nat, advance: nat)

  /** The width of the first k characters. */
  function Width(text: seq<Glyph>, k: nat): (w: nat)
    requires k <= |text|
  {
    if k == 0 then 0 else Width(text, k - 1) + text[k - 1].advance
  }

  /** The byte offset of character k. */
  function Offset(text: seq<Glyph>, k: nat): nat
    requires k <= |text|
  {
    if k == 0 then 0 else Offset(text, k - 1) + text[k - 1].bytes
  }

  predicate IsText(text: seq<Glyph>) {
    forall i | 0 <= i < |text| :: 1 <= text[i].bytes <= 4
  }

  predicate IsSpaceAt(text: seq<Glyph>, k: nat) {
    k < |text| && text[k].ucs4 == SPACE_CHAR
  }

  lemma {:induction false} WidthGrows(text: seq<Glyph>, j: nat, k: nat)
    requires j <= k <= |text|
    ensures Width(text, j) <= Width(text, k)
    decreases k - j
  {
    if j < k {
      WidthGrows(text, j, k - 1);
    }
  }

  lemma {:induction false} OffsetGrows(text: seq<Glyph>, j: nat, k: nat)
    requires IsText(text) && j <= k <= |text|
    ensures Offset(text, j) + (k - j) <= Offset(text, k)
    decreases k - j
  {
    if j < k {
      OffsetGrows(text, j, k - 1);
    }
  }

  lemma {:induction false} WidthOfPrefix(a: seq<Glyph>, b: seq<Glyph>, k: nat)
    requires k <= |a|
    ensures Width(a + b, k) == Width(a, k)
    decreases k
  {
    if k == 0 {
    } else {
      WidthOfPrefix(a, b, k - 1);
    }
  }

  /** Text measured in two parts measures the same. */
  lemma {:induction false} WidthOfParts(a: seq<Glyph>, b: seq<Glyph>, k: nat)
    requires k <= |b|
    ensures Width(a + b, |a| + k) == Width(a, |a|) + Width(b, k)
    decreases k
  {
    if k == 0 {
      WidthOfPrefix(a, b, |a|);
    } else {
      WidthOfParts(a, b, k - 1);
    }
  }

  method FontWidth(text: seq<Glyph>) returns (width: int)
    requires IsText(text)
    ensures width == Width(text, |text|)
  {
    width := 0;
    var k := 0;
    while k < |text|
      invariant k <= |text| && width == Width(text, k)
    {
      width := width + text[k].advance;
      k := k + 1;
    }
  }

  // ── The position under a point ──────────────────────────────────────────

  /** Boundary k is as near to x as any. */
  ghost predicate IsNearest(text: seq<Glyph>, x: int, k: nat)
    requires k <= |text|
  {
    forall j | 0 <= j <= |text| :: Abs(Width(text, k) - x) <= Abs(Width(text, j) - x)
  }

  /** Boundaries on the two sides of x: one of them is nearest. */
  lemma NearestOfTwo(text: seq<Glyph>, x: int, k: nat)
    requires k < |text| && Width(text, k + 1) > x && (k == 0 || Width(text, k) <= x)
    ensures if Abs(Width(text, k + 1) - x) > Abs(Width(text, k) - x) then IsNearest(text, x, k) else IsNearest(text, x, k + 1)
  {
    hide Width;
    forall j | 0 <= j <= |text|
      ensures j <= k ==> Width(text, j) <= Width(text, k)
      ensures j > k ==> Width(text, k + 1) <= Width(text, j)
    {
      if j <= k {
        WidthGrows(text, j, k);
      } else {
        WidthGrows(text, k + 1, j);
      }
    }
  }

  lemma NearestIsEnd(text: seq<Glyph>, x: int)
    requires Width(text, |text|) <= x || text == []
    ensures IsNearest(text, x, |text|)
  {
    hide Width;
    forall j | 0 <= j <= |text|
      ensures Width(text, j) <= Width(text, |text|)
    {
      WidthGrows(text, j, |text|);
    }
  }

  /** The character boundary nearest to x, as a byte offset, and its x. */
  method FontPosition(text: seq<Glyph>, x: int) returns (offset: nat, actualX: int)
    requires IsText(text)
    ensures exists k: nat :: k <= |text| && offset == Offset(text, k) && actualX == Width(text, k) && IsNearest(text, x, k)
  {
    offset, actualX := 0, 0;
    ghost var k := 0;
    var prevX := 0;
    var next := 0;
    while next < |text|
      invariant next <= |text| && k == next && offset == Offset(text, next)
      invariant actualX == prevX == Width(text, next) && (next == 0 || actualX <= x)
      decreases |text| - next
    {
      actualX := actualX + text[next].advance;
      if actualX > x {
        break;
      }
      prevX := actualX;
      offset, next, k := offset + text[next].bytes, next + 1, k + 1;
    }
    if next < |text| {
      NearestOfTwo(text, x, next);
    } else {
      NearestIsEnd(text, x);
    }
    // x is within this character: take whichever end of it is not farther
    if Abs(actualX - x) > Abs(prevX - x) {
      actualX := prevX;
    } else if next < |text| {
      offset, k := offset + text[next].bytes, k + 1;
    }
  }

  // ── Where a line is broken ──────────────────────────────────────────────

  predicate EndsPast(text: seq<Glyph>, x: int, k: nat) {
    k < |text| && Width(text, k + 1) > x
  }

  /** The first character whose end is past x. */
  ghost predicate IsFirstPast(text: seq<Glyph>, x: int, p: nat) {
    EndsPast(text, x, p) && forall j: nat | j < p :: !EndsPast(text, x, j)
  }

  ghost predicate NoSpaceIn(text: seq<Glyph>, from: nat, to: nat) {
    forall j: nat | from <= j < to :: !IsSpaceAt(text, j)
  }

  ghost predicate IsSplitFor(text: seq<Glyph>, k: nat, p: nat) {
    0 < k && IsSpaceAt(text, k) && if k <= p then NoSpaceIn(text, k + 1, p + 1) else NoSpaceIn(text, 1, k)
  }

  /**
   * Where to break at width x: nowhere if no character ends past x; else at the last space (not
   * the first character) at or before the first character that does; else at the first space
   * after it; else nowhere.
   */
  ghost predicate IsBreak(text: seq<Glyph>, x: int, k: nat) {
    && k <= |text|
    && if k < |text| then exists p: nat :: IsFirstPast(text, x, p) && IsSplitFor(text, k, p)
       else forall p: nat :: IsFirstPast(text, x, p) ==> NoSpaceIn(text, 1, |text|)
  }

  lemma FirstPastIsOne(text: seq<Glyph>, x: int, p: nat, q: nat)
    requires IsFirstPast(text, x, p) && IsFirstPast(text, x, q)
    ensures p == q
  {
  }

  /** There is one such break. */
  lemma BreakIsOne(text: seq<Glyph>, x: int, k: nat, k': nat)
    requires IsBreak(text, x, k) && IsBreak(text, x, k')
    ensures k == k'
  {
    hide EndsPast, IsFirstPast;
    if k < |text| && k' < |text| {
      var p: nat :| IsFirstPast(text, x, p) && IsSplitFor(text, k, p);
      var q: nat :| IsFirstPast(text, x, q) && IsSplitFor(text, k', q);
      FirstPastIsOne(text, x, p, q);
    }
  }

  lemma {:induction false} FirstPast(text: seq<Glyph>, x: int, n: nat) returns (p: nat)
    requires n < |text| && Width(text, n + 1) > x
    ensures p <= n && IsFirstPast(text, x, p)
    decreases n
  {
    if n > 0 && Width(text, n) > x {
      p := FirstPast(text, x, n - 1);
    } else {
      p := n;
      forall j: nat | j < p
        ensures !EndsPast(text, x, j)
      {
        WidthGrows(text, j + 1, n);
      }
    }
  }

  /** At the first character past x that has a space at or before it, the last such space is the break. */
  lemma BreaksHere(text: seq<Glyph>, x: int, n: nat, last: nat)
    requires n < |text| && Width(text, n + 1) > x
    requires 0 < last <= n && IsSpaceAt(text, last) && NoSpaceIn(text, last + 1, n + 1)
    requires Width(text, n) <= x || (last == n && NoSpaceIn(text, 1, n))
    ensures IsBreak(text, x, last)
  {
    var p := FirstPast(text, x, n);
    if p < n {
      WidthGrows(text, p + 1, n);
    }
    assert IsSplitFor(text, last, p);
  }

  /** A text that is never past x, or has no space, has no break. */
  lemma NoBreak(text: seq<Glyph>, x: int)
    requires Width(text, |text|) <= x || NoSpaceIn(text, 1, |text|)
    ensures IsBreak(text, x, |text|)
  {
    hide Width;
    forall p: nat | IsFirstPast(text, x, p)
      ensures NoSpaceIn(text, 1, |text|)
    {
      WidthGrows(text, p + 1, |text|);
    }
  }

  /** The break as a byte offset, and the width before it. */
  method FontSplit(text: seq<Glyph>, x: int) returns (offset: nat, actualX: int)
    requires IsText(text)
    ensures exists k: nat :: k <= |text| && IsBreak(text, x, k) && offset == Offset(text, k) && actualX == Width(text, k)
  {
    offset, actualX := 0, 0;
    var lastSpaceX, lastSpaceOffset := 0, 0;
    ghost var last := 0;  // the last space's index, 0 for none
    var next := 0;
    while next < |text|
      invariant next <= |text| && offset == Offset(text, next) && actualX == Width(text, next)
      invariant last <= next && lastSpaceX == Width(text, last) && lastSpaceOffset == Offset(text, last)
      invariant last < next || last == 0
      invariant (last > 0 ==> IsSpaceAt(text, last)) && NoSpaceIn(text, Max(last + 1, 1), next)
      invariant last > 0 ==> actualX <= x
      decreases |text| - next
    {
      if text[next].ucs4 == SPACE_CHAR {
        lastSpaceX, lastSpaceOffset, last := actualX, offset, next;
      }
      actualX := actualX + text[next].advance;
      OffsetGrows(text, 0, last);
      if actualX > x && lastSpaceOffset != 0 {
        // too wide, and there is a place to break at
        BreaksHere(text, x, next, last);
        return lastSpaceOffset, lastSpaceX;
      }
      offset, next := offset + text[next].bytes, next + 1;
    }
    NoBreak(text, x);
  }
}
