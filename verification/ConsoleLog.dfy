/**
 * Console text in the loader's log: cut into lines, and the lines rationed by a
 * token bucket that counts what it drops.
 */
module ConsoleLog {
  import opened Basics

  const BURST := 60
  const COST := 100_000       // of a line, in us: 10 lines a second
  const CAPACITY := 6_000_000 // a burst's cost
  const LINE_SIZE := 200

  type Text = seq<char>

  // ── Cutting text into lines ─────────────────────────────────────────────

  /** The lines handed on so far, and the one being collected. */
  datatype Cut = Cut(lines: seq<Text>, line: Text)

  function CutChar(cut: Cut, c: char): Cut {
    if c == '\r' then cut
    else if c == '\n' then Cut(cut.lines + [cut.line], [])
    else if |cut.line| == LINE_SIZE - 1 then Cut(cut.lines + [cut.line], [c])
    else Cut(cut.lines, cut.line + [c])
  }

  function CutText(cut: Cut, text: Text): Cut
    decreases |text|
  {
    if text == [] then cut else CutChar(CutText(cut, text[..|text| - 1]), text[|text| - 1])
  }

  lemma NothingCut(cut: Cut)
    ensures CutText(cut, []) == cut
  {
  }

  lemma CutTextNext(cut: Cut, text: Text, i: nat)
    requires i < |text|
    ensures CutText(cut, text[..i + 1]) == CutChar(CutText(cut, text[..i]), text[i])
  {
    assert text[..i + 1][..i] == text[..i];
  }

  /** How console text is split across calls does not matter. */
  lemma {:induction false} CallsDoNotMatter(cut: Cut, text: Text, more: Text)
    ensures CutText(cut, text + more) == CutText(CutText(cut, text), more)
    decreases |more|
  {
    if more == [] {
      assert text + more == text;
    } else {
      var n := |more| - 1;
      assert (text + more)[..|text + more| - 1] == text + more[..n];
      CallsDoNotMatter(cut, text, more[..n]);
    }
  }

  /** Lines in the plain sense: what newlines separate, carriage returns dropped. */
  function Segments(text: Text): (s: seq<Text>)
    ensures |s| > 0
    decreases |text|
  {
    if text == [] then [[]]
    else
      var before, c := Segments(text[..|text| - 1]), text[|text| - 1];
      if c == '\r' then before
      else if c == '\n' then before + [[]]
      else before[|before| - 1 := before[|before| - 1] + [c]]
  }

  function Joined(segments: seq<Text>): Text {
    if segments == [] then []
    else if |segments| == 1 then segments[0]
    else Joined(segments[..|segments| - 1]) + ['\n'] + segments[|segments| - 1]
  }

  function WithoutReturns(text: Text): Text {
    if text == [] then []
    else WithoutReturns(text[..|text| - 1]) + if text[|text| - 1] == '\r' then [] else [text[|text| - 1]]
  }

  /** The segments are the text: put back together they give it, and none holds a newline. */
  lemma {:induction false} SegmentsAreText(text: Text)
    ensures Joined(Segments(text)) == WithoutReturns(text)
    ensures forall i | 0 <= i < |Segments(text)| :: '\n' !in Segments(text)[i]
    decreases |text|
  {
    if text == [] {
    } else {
      var before, c := Segments(text[..|text| - 1]), text[|text| - 1];
      SegmentsAreText(text[..|text| - 1]);
      if c == '\n' {
        assert Segments(text)[..|before|] == before;
      } else if c != '\r' {
        assert Segments(text)[..|before| - 1] == before[..|before| - 1];
      }
    }
  }

  /** A segment in pieces of at most a line's length. */
  function Pieces(s: Text): (p: seq<Text>)
    ensures |p| > 0
    decreases |s|
  {
    if |s| <= LINE_SIZE - 1 then [s] else [s[..LINE_SIZE - 1]] + Pieces(s[LINE_SIZE - 1..])
  }

  function AllPieces(segments: seq<Text>): (p: seq<Text>)
    ensures segments != [] ==> |p| > 0
  {
    if segments == [] then []
    else AllPieces(segments[..|segments| - 1]) + Pieces(segments[|segments| - 1])
  }

  lemma {:induction false} PiecesNext(s: Text, c: char)
    ensures var p := Pieces(s);
            var last := p[|p| - 1];
            |last| <= LINE_SIZE - 1 &&
            Pieces(s + [c]) == if |last| == LINE_SIZE - 1 then p + [[c]] else p[|p| - 1 := last + [c]]
    decreases |s|
  {
    if |s| > LINE_SIZE - 1 {
      PiecesNext(s[LINE_SIZE - 1..], c);
      assert (s + [c])[..LINE_SIZE - 1] == s[..LINE_SIZE - 1];
      assert (s + [c])[LINE_SIZE - 1..] == s[LINE_SIZE - 1..] + [c];
    } else if |s| == LINE_SIZE - 1 {
      assert (s + [c])[..LINE_SIZE - 1] == s && (s + [c])[LINE_SIZE - 1..] == [c];
      assert Pieces([c]) == [[c]];
    }
  }

  lemma LastPiece(a: seq<Text>, p: seq<Text>, lines: seq<Text>, line: Text, c: char)
    requires |p| > 0 && lines + [line] == a + p
    ensures line == p[|p| - 1] && lines == a + p[..|p| - 1]
    ensures lines + [line + [c]] == a + p[|p| - 1 := p[|p| - 1] + [c]]
    ensures lines + [line] + [[c]] == a + (p + [[c]])
  {
    assert (lines + [line])[|lines|] == line && (a + p)[|a| + |p| - 1] == p[|p| - 1];
    assert lines == (lines + [line])[..|lines|] == (a + p)[..|a| + |p| - 1] == a + p[..|p| - 1];
  }

  /** The lines handed on, and the one being collected, are the segments' pieces. */
  lemma {:induction false} CutIsPieces(text: Text)
    ensures var cut := CutText(Cut([], []), text);
            cut.lines + [cut.line] == AllPieces(Segments(text))
    decreases |text|
  {
    var cut := CutText(Cut([], []), text);
    if text == [] {
      assert AllPieces([[]]) == AllPieces([]) + Pieces([]);
    } else {
      var c := text[|text| - 1];
      var before, was := Segments(text[..|text| - 1]), CutText(Cut([], []), text[..|text| - 1]);
      CutIsPieces(text[..|text| - 1]);
      var n := |before| - 1;
      if c == '\n' {
        assert Segments(text)[..n + 1] == before;
        assert Pieces([]) == [[]];
      } else if c != '\r' {
        PiecesNext(before[n], c);
        assert Segments(text)[..n] == before[..n];
        LastPiece(AllPieces(before[..n]), Pieces(before[n]), was.lines, was.line, c);
      }
    }
  }

  // ── Rationing ───────────────────────────────────────────────────────────

  datatype Bucket = Bucket(lastUs: int, tokensUs: int)

  const FULL: Bucket := Bucket(0, CAPACITY)

  predicate IsBucket(b: Bucket) {
    0 <= b.tokensUs <= CAPACITY
  }

  function Refilled(b: Bucket, now: int): int {
    Min(b.tokensUs + now - b.lastUs, CAPACITY)
  }

  /** A line at a time: whether it is logged, and the bucket after it. */
  function Logs(b: Bucket, now: int): bool {
    Refilled(b, now) >= COST
  }

  function After(b: Bucket, now: int): Bucket {
    Bucket(now, Refilled(b, now) - if Logs(b, now) then COST else 0)
  }

  function AfterAll(b: Bucket, times: seq<int>): Bucket {
    if times == [] then b else After(AfterAll(b, times[..|times| - 1]), times[|times| - 1])
  }

  predicate Ascending(from: int, times: seq<int>) {
    (times != [] ==> from <= times[0]) && forall i | 0 < i < |times| :: times[i - 1] <= times[i]
  }

  /** How many of the lines at these times are logged. */
  function Logged(b: Bucket, times: seq<int>): nat {
    if times == [] then 0
    else Logged(b, times[..|times| - 1])
         + if Logs(AfterAll(b, times[..|times| - 1]), times[|times| - 1]) then 1 else 0
  }

  lemma OneMore(b: Bucket, times: seq<int>, now: int)
    ensures AfterAll(b, times + [now]) == After(AfterAll(b, times), now)
    ensures Logged(b, times + [now]) == Logged(b, times) + if Logs(AfterAll(b, times), now) then 1 else 0
  {
    assert (times + [now])[..|times|] == times;
  }

  lemma NoneYet(b: Bucket)
    ensures AfterAll(b, []) == b && Logged(b, []) == 0
  {
  }

  /** Tokens are spent: from any time on, what is logged is paid for by a full bucket and the time since. */
  lemma {:induction false} TokensPay(b: Bucket, times: seq<int>)
    requires IsBucket(b) && Ascending(b.lastUs, times)
    ensures IsBucket(AfterAll(b, times))
    ensures times != [] ==>
      && AfterAll(b, times).lastUs == times[|times| - 1]
      && AfterAll(b, times).tokensUs + COST * Logged(b, times) <= CAPACITY + times[|times| - 1] - times[0]
    decreases |times|
  {
    if times == [] {
    } else {
      var n := |times| - 1;
      TokensPay(b, times[..n]);
      assert times == times[..n] + [times[n]];
      OneMore(b, times[..n], times[n]);
      hide AfterAll, Logged;
      if n > 0 {
        assert times[..n][0] == times[0] && times[..n][n - 1] == times[n - 1] <= times[n];
      } else {
        assert AfterAll(b, times[..n]) == b && Logged(b, times[..n]) == 0 by {
          NoneYet(b);
        }
      }
    }
  }

  lemma AscendingParts(before: seq<int>, times: seq<int>)
    requires Ascending(0, before + times) && times != []
    ensures Ascending(0, before) && Ascending(if before == [] then 0 else before[|before| - 1], times)
  {
    var all := before + times;
    assert forall i | 0 <= i < |before| :: all[i] == before[i];
    assert forall i | 0 <= i < |times| :: all[|before| + i] == times[i];
    assert all[|before|] == times[0];
    forall i | 0 < i < |times|
      ensures times[i - 1] <= times[i]
    {
      assert all[|before| + i - 1] <= all[|before| + i];
    }
  }

  /**
   * For any clock that does not go back, of the lines handed in between two times at most
   * 60 and one per 100000 us are logged, whatever came before.
   */
  lemma AtMostTheRate(before: seq<int>, times: seq<int>, a: int, b: int)
    requires Ascending(0, before + times) && times != [] && a <= times[0] && times[|times| - 1] <= b
    ensures Logged(AfterAll(FULL, before), times) <= BURST + (b - a) / COST
  {
    hide AfterAll, Logged;
    AscendingParts(before, times);
    NoneYet(FULL);
    TokensPay(FULL, before);
    TokensPay(AfterAll(FULL, before), times);
  }

  lemma AscendingNext(times: seq<int>, now: int)
    requires Ascending(0, times) && now >= if times == [] then 0 else times[|times| - 1]
    ensures Ascending(0, times + [now])
  {
  }

  /** A bucket left alone long enough is full: that many lines at once are all logged. */
  lemma {:induction false} BurstIsLogged(b: Bucket, now: int, n: nat)
    requires IsBucket(b) && now - b.lastUs >= CAPACITY && n <= BURST
    ensures Logged(b, seq(n, _ => now)) == n
    ensures n > 0 ==> AfterAll(b, seq(n, _ => now)) == Bucket(now, (BURST - n) * COST)
    decreases n
  {
    NoneYet(b);
    if n > 0 {
      var times := seq(n, _ => now);
      assert times == seq(n - 1, _ => now) + [now];
      BurstIsLogged(b, now, n - 1);
      OneMore(b, seq(n - 1, _ => now), now);
      hide AfterAll, Logged;
    } else {
      assert seq(n, _ => now) == [];
    }
  }

  // ── What the log says ───────────────────────────────────────────────────

  datatype Entry = Line(text: Text) | NotLogged(count: nat)

  /** A line handed in, and whether it was logged. */
  datatype Handed = Handed(text: Text, logged: bool)

  function DroppedLast(handed: seq<Handed>): nat {
    if handed == [] || handed[|handed| - 1].logged then 0 else 1 + DroppedLast(handed[..|handed| - 1])
  }

  /** The log of what was handed in: each logged line, after the count of what was dropped just before it. */
  function LogOf(handed: seq<Handed>): seq<Entry> {
    if handed == [] then []
    else
      var before, last := handed[..|handed| - 1], handed[|handed| - 1];
      if !last.logged then LogOf(before)
      else LogOf(before)
           + (if DroppedLast(before) > 0 then [NotLogged(DroppedLast(before))] else []) + [Line(last.text)]
  }

  /** The lines an entry stands for. */
  function Accounted(log: seq<Entry>): nat {
    if log == [] then 0
    else Accounted(log[..|log| - 1]) + match log[|log| - 1] case Line(_) => 1 case NotLogged(n) => n
  }

  function LinesOf(log: seq<Entry>): seq<Text> {
    if log == [] then []
    else LinesOf(log[..|log| - 1]) + match log[|log| - 1] case Line(text) => [text] case NotLogged(_) => []
  }

  function LoggedLines(handed: seq<Handed>): seq<Text> {
    if handed == [] then []
    else LoggedLines(handed[..|handed| - 1])
         + if handed[|handed| - 1].logged then [handed[|handed| - 1].text] else []
  }

  lemma AppendEntry(log: seq<Entry>, e: Entry)
    ensures Accounted(log + [e]) == Accounted(log) + match e case Line(_) => 1 case NotLogged(n) => n
    ensures LinesOf(log + [e]) == LinesOf(log) + match e case Line(text) => [text] case NotLogged(_) => []
  {
    assert (log + [e])[..|log|] == log;
  }

  /** Every line handed in is logged, in order, or counted once, in the log or in the running count. */
  lemma {:induction false} EachLineOnce(handed: seq<Handed>)
    ensures Accounted(LogOf(handed)) + DroppedLast(handed) == |handed|
    ensures LinesOf(LogOf(handed)) == LoggedLines(handed)
    decreases |handed|
  {
    if handed == [] {
    } else {
      var before, last := handed[..|handed| - 1], handed[|handed| - 1];
      EachLineOnce(before);
      if last.logged {
        var log := LogOf(before);
        if DroppedLast(before) > 0 {
          AppendEntry(log, NotLogged(DroppedLast(before)));
          AppendEntry(log + [NotLogged(DroppedLast(before))], Line(last.text));
        } else {
          AppendEntry(log, Line(last.text));
          assert log + [] + [Line(last.text)] == log + [Line(last.text)];
        }
      }
    }
  }

  /** Which lines are logged is the bucket's decision at their times. */
  ghost predicate AreLogs(b: Bucket, handed: seq<Handed>, times: seq<int>) {
    |handed| == |times| && forall i | 0 <= i < |times| :: handed[i].logged == Logs(AfterAll(b, times[..i]), times[i])
  }

  lemma {:induction false} AfterAllSplits(b: Bucket, times: seq<int>, more: seq<int>)
    ensures AfterAll(AfterAll(b, times), more) == AfterAll(b, times + more)
    decreases |more|
  {
    if more == [] {
      assert times + more == times;
    } else {
      var n := |more| - 1;
      AfterAllSplits(b, times, more[..n]);
      assert (times + more)[..|times| + n] == times + more[..n];
    }
  }

  lemma {:induction false} LoggedCount(b: Bucket, handed: seq<Handed>, times: seq<int>)
    requires AreLogs(b, handed, times)
    ensures |LoggedLines(handed)| == Logged(b, times)
    decreases |times|
  {
    if times == [] {
    } else {
      var n := |times| - 1;
      assert forall i | 0 <= i < n :: times[..n][..i] == times[..i];
      LoggedCount(b, handed[..n], times[..n]);
    }
  }

  lemma LogsOfWindow(handed: seq<Handed>, times: seq<int>, i: nat, j: nat)
    requires AreLogs(FULL, handed, times) && i <= j <= |times|
    ensures AreLogs(AfterAll(FULL, times[..i]), handed[i..j], times[i..j])
  {
    hide AfterAll, Logs;
    forall k | 0 <= k < j - i
      ensures handed[i..j][k].logged == Logs(AfterAll(AfterAll(FULL, times[..i]), times[i..j][..k]), times[i..j][k])
    {
      AfterAllSplits(FULL, times[..i], times[i..j][..k]);
      assert times[..i] + times[i..j][..k] == times[..i + k];
    }
  }

  /** In the log itself: of any consecutive lines handed in, at most the rate's share is logged. */
  lemma WindowRate(handed: seq<Handed>, times: seq<int>, i: nat, j: nat)
    requires AreLogs(FULL, handed, times) && Ascending(0, times) && i < j <= |times| == |handed|
    ensures |LoggedLines(handed[i..j])| <= BURST + (times[j - 1] - times[i]) / COST
  {
    hide AreLogs, AfterAll, Logged;
    LogsOfWindow(handed, times, i, j);
    LoggedCount(AfterAll(FULL, times[..i]), handed[i..j], times[i..j]);
    assert times[..i] + times[i..j] == times[..j];
    AtMostTheRate(times[..i], times[i..j], times[i], times[j - 1]);
  }

  lemma LogsStay(handed: seq<Handed>, times: seq<int>, h: Handed, now: int)
    requires AreLogs(FULL, handed, times) && h.logged == Logs(AfterAll(FULL, times), now)
    ensures AreLogs(FULL, handed + [h], times + [now])
  {
    forall i | 0 <= i < |times|
      ensures (handed + [h])[i].logged == Logs(AfterAll(FULL, (times + [now])[..i]), (times + [now])[i])
    {
      assert (times + [now])[..i] == times[..i];
    }
    assert (times + [now])[..|times|] == times;
  }

  /** The bucket is what the times so far left, and it decided which lines are logged. */
  ghost predicate IsRationed(b: Bucket, clock: int, times: seq<int>, handed: seq<Handed>) {
    && b == AfterAll(FULL, times) && IsBucket(b) && AreLogs(FULL, handed, times)
    && Ascending(0, times) && b.lastUs == (if times == [] then 0 else times[|times| - 1]) && 0 <= b.lastUs <= clock
  }

  lemma RationedNext(b: Bucket, clock: int, times: seq<int>, handed: seq<Handed>, now: int, text: Text)
    requires IsRationed(b, clock, times, handed) && now >= clock
    ensures IsRationed(After(b, now), now, times + [now], handed + [Handed(text, Logs(b, now))])
  {
    hide AreLogs, AfterAll, Ascending;
    OneMore(FULL, times, now);
    AscendingNext(times, now);
    LogsStay(handed, times, Handed(text, Logs(b, now)), now);
  }

  lemma LogOfNext(handed: seq<Handed>, h: Handed)
    ensures DroppedLast(handed + [h]) == if h.logged then 0 else DroppedLast(handed) + 1
    ensures LogOf(handed + [h])
            == if !h.logged then LogOf(handed)
               else if DroppedLast(handed) == 0 then LogOf(handed) + [Line(h.text)]
               else LogOf(handed) + [NotLogged(DroppedLast(handed))] + [Line(h.text)]
  {
    assert (handed + [h])[..|handed|] == handed;
    assert LogOf(handed) + [] == LogOf(handed);
  }

  // ── The console ─────────────────────────────────────────────────────────

  function Flat(texts: seq<Text>): Text {
    if texts == [] then [] else Flat(texts[..|texts| - 1]) + texts[|texts| - 1]
  }

  function Texts(handed: seq<Handed>): seq<Text> {
    seq(|handed|, i requires 0 <= i < |handed| => handed[i].text)
  }

  lemma TextsNext(handed: seq<Handed>, after: seq<Handed>)
    requires |after| == |handed| + 1 && after[..|handed|] == handed
    ensures Texts(after) == Texts(handed) + [after[|handed|].text]
  {
    forall i | 0 <= i < |handed|
      ensures after[i].text == handed[i].text
    {
      assert after[..|handed|][i] == handed[i];
    }
  }

  class Console {
    var lastUs: int
    var tokensUs: int
    var dropped: nat
    const line: array<char>
    var used: nat
    var log: seq<Entry>
    var clock: int
    ghost var times: seq<int>        // when lines were handed in
    ghost var handed: seq<Handed>    // and what became of them

    ghost predicate Rationed()
      reads this`lastUs, this`tokensUs, this`dropped, this`log, this`clock, this`times, this`handed
    {
      IsRationed(Bucket(lastUs, tokensUs), clock, times, handed) && log == LogOf(handed) && dropped == DroppedLast(handed)
    }

    ghost predicate Valid()
      reads this, line
    {
      line.Length == LINE_SIZE && used <= LINE_SIZE - 1 && Rationed()
    }

    constructor (clock: int)
      requires clock >= 0
      ensures Valid() && handed == [] && line[..used] == [] && log == []
    {
      line := new char[LINE_SIZE];
      lastUs, tokensUs, dropped, used, log := 0, CAPACITY, 0, 0, [];
      this.clock, times, handed := clock, [], [];
    }

    /** The loader's clock, which does not go back. */
    method Now() returns (now: int)
      modifies this`clock
      ensures now == clock >= old(clock)
    {
      now :| now >= clock;
      clock := now;
    }

    /** Takes the tokens for a line, if there are. */
    method Spend(now: int) returns (enough: bool)
      modifies this`lastUs, this`tokensUs
      ensures Bucket(lastUs, tokensUs) == After(old(Bucket(lastUs, tokensUs)), now)
      ensures enough == Logs(old(Bucket(lastUs, tokensUs)), now)
    {
      tokensUs := tokensUs + (now - lastUs);
      lastUs := now;
      if tokensUs > CAPACITY {
        tokensUs := CAPACITY;
      }
      enough := tokensUs >= COST;
      if enough {
        tokensUs := tokensUs - COST;
      }
    }

    /** Logs the line if there are tokens for it, with the count of those dropped before it. */
    method LogLine(text: Text)
      requires Rationed()
      modifies this`lastUs, this`tokensUs, this`dropped, this`log, this`clock, this`times, this`handed
      ensures Rationed() && |handed| == |old(handed)| + 1
      ensures handed[..|old(handed)|] == old(handed) && handed[|old(handed)|].text == text
    {
      hide LogOf, DroppedLast, IsRationed;
      ghost var b := Bucket(lastUs, tokensUs);
      var now := Now();
      RationedNext(b, old(clock), times, handed, now, text);
      var enough := Spend(now);
      LogOfNext(handed, Handed(text, enough));
      times, handed := times + [now], handed + [Handed(text, enough)];
      if !enough {
        dropped := dropped + 1;
        return;
      }
      if dropped > 0 {
        log := log + [NotLogged(dropped)];
        dropped := 0;
      }
      log := log + [Line(text)];
    }

    /** Cuts text into lines and hands them on. */
    method LogConsole(str: Text)
      requires Valid()
      modifies this, line
      ensures Valid()
      ensures |old(handed)| <= |handed| && handed[..|old(handed)|] == old(handed)
      ensures Cut(Texts(handed), line[..used]) == CutText(Cut(Texts(old(handed)), old(line[..used])), str)
    {
      hide CutText, Console.Rationed;
      ghost var start := Cut(Texts(handed), line[..used]);
      NothingCut(start);
      for i := 0 to |str|
        invariant Valid() && |old(handed)| <= |handed| && handed[..|old(handed)|] == old(handed)
        invariant Cut(Texts(handed), line[..used]) == CutText(start, str[..i])
      {
        CutTextNext(start, str, i);
        var c := str[i];
        if c == '\r' {
          continue;
        }
        if c == '\n' || used == LINE_SIZE - 1 {
          ghost var was := handed;
          LogLine(line[..used]);
          TextsNext(was, handed);
          used := 0;
          if c == '\n' {
            continue;
          }
        }
        ghost var collected := line[..used];
        line[used] := c;
        used := used + 1;
        assert line[..used] == collected + [c];
      }
      assert str[..|str|] == str;
    }

    /**
     * Any number of calls on a new console: the lines are those of all the text at once, each is
     * logged or counted, and no window of them exceeds the rate.
     */
    method Session(texts: seq<Text>)
      requires Valid() && handed == [] && used == 0
      modifies this, line
      ensures Valid()
      ensures Texts(handed) + [line[..used]] == AllPieces(Segments(Flat(texts)))
      ensures Accounted(log) + dropped == |handed| && LinesOf(log) == LoggedLines(handed)
      ensures forall i, j | 0 <= i < j <= |times| ::
        |LoggedLines(handed[i..j])| <= BURST + (times[j - 1] - times[i]) / COST
    {
      assert Texts(handed) == [] && line[..used] == [];
      NothingCut(Cut([], []));
      for n := 0 to |texts|
        invariant Valid()
        invariant Cut(Texts(handed), line[..used]) == CutText(Cut([], []), Flat(texts[..n]))
      {
        CallsDoNotMatter(Cut([], []), Flat(texts[..n]), texts[n]);
        assert texts[..n + 1][..n] == texts[..n];
        LogConsole(texts[n]);
      }
      assert texts[..|texts|] == texts;
      CutIsPieces(Flat(texts));
      EachLineOnce(handed);
      forall i, j | 0 <= i < j <= |times|
        ensures |LoggedLines(handed[i..j])| <= BURST + (times[j - 1] - times[i]) / COST
      {
        WindowRate(handed, times, i, j);
      }
    }
  }
}
