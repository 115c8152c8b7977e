/**
 * What the fetcher's parser makes of whole responses. Heads are described as servers
 * write them: a version, three digits, and fields by name and value, of which the
 * parser knows four names; how long the body is, and how the fetch ends, follows.
 */
module HttpHead {
  import opened Basics
  import opened HeaderText
  import opened H = HttpFeed
  import C = ChunkedCoding

  const COLON: byte := 58

  datatype Field = Field(name: seq<byte>, gap: seq<byte>, value: seq<byte>)

  /** The code's three digits, what follows them on the status line, and the fields. */
  datatype Head = Head(http10: bool, hundreds: nat, tens: nat, units: nat, reason: seq<byte>, fields: seq<Field>)

  predicate IsText(s: seq<byte>) {
    forall i | 0 <= i < |s| :: s[i] != NUL && s[i] != LF && s[i] != CR
  }

  function FieldLine(f: Field): seq<byte> {
    f.name + [COLON] + f.gap + f.value
  }

  predicate IsField(f: Field) {
    && f.name != [] && !IsBlank(f.name[0]) && IsText(f.name) && COLON !in f.name
    && IsText(f.value) && (forall i | 0 <= i < |f.gap| :: IsBlank(f.gap[i]))
    && (f.value == [] ==> f.gap == [])
    && (f.value != [] ==> !IsBlank(f.value[0]) && !IsBlank(f.value[|f.value| - 1]))
    && |FieldLine(f)| <= MAX_LINE
  }

  function StatusText(h: Head): seq<byte> {
    Ascii(if h.http10 then "HTTP/1.0" else "HTTP/1.1") + [SPACE]
    + [(48 + h.hundreds) % 256, (48 + h.tens) % 256, (48 + h.units) % 256] + h.reason
  }

  predicate IsHead(h: Head) {
    && 1 <= h.hundreds <= 9 && h.tens <= 9 && h.units <= 9
    && IsText(h.reason) && (h.reason != [] ==> !IsDigit(h.reason[0])) && |StatusText(h)| <= MAX_LINE
    && forall i | 0 <= i < |h.fields| :: IsField(h.fields[i])
  }

  function Code(h: Head): nat {
    h.hundreds * 100 + h.tens * 10 + h.units
  }

  function FieldsBytes(fields: seq<Field>): seq<byte> {
    if fields == [] then [] else FieldsBytes(fields[..|fields| - 1]) + (FieldLine(fields[|fields| - 1]) + C.CRLF)
  }

  function HeadBytes(h: Head): seq<byte> {
    StatusText(h) + C.CRLF + FieldsBytes(h.fields) + C.CRLF
  }

  // ── What a head says ────────────────────────────────────────────────────

  predicate IsNamed(f: Field, name: string) {
    |f.name| == |name| && forall i | 0 <= i < |name| :: Lower(f.name[i]) == Lower(Ascii(name)[i])
  }

  /** The value of the last field of that name. */
  function LastNamed(fields: seq<Field>, name: string): Option<seq<byte>> {
    if fields == [] then None
    else if IsNamed(fields[|fields| - 1], name) then Some(fields[|fields| - 1].value)
    else LastNamed(fields[..|fields| - 1], name)
  }

  predicate IsAt(value: seq<byte>, word: string, at: nat) {
    at + |word| <= |value| && forall i | 0 <= i < |word| :: Lower(value[at + i]) == Lower(Ascii(word)[i])
  }

  /** The word is somewhere in the value, in any case. */
  predicate Says(value: seq<byte>, word: string) {
    exists at | 0 <= at <= |value| :: IsAt(value, word, at)
  }

  /** The last Connection field that says either decides; without one, the version does. */
  predicate Closes(fields: seq<Field>, http10: bool) {
    if fields == [] then http10
    else
      var f := fields[|fields| - 1];
      if IsNamed(f, "Connection") && Says(f.value, "close") then true
      else if IsNamed(f, "Connection") && Says(f.value, "keep-alive") then false
      else Closes(fields[..|fields| - 1], http10)
  }

  predicate IsNumber(s: seq<byte>) {
    s != [] && forall i | 0 <= i < |s| :: IsDigit(s[i])
  }

  /** The number decimal digits denote, most significant first. */
  function NumberOf(digits: seq<byte>): nat
    requires forall i | 0 <= i < |digits| :: IsDigit(digits[i])
  {
    if digits == [] then 0
    else
      assert IsDigit(digits[|digits| - 1]);
      NumberOf(digits[..|digits| - 1]) * 10 + (digits[|digits| - 1] - 48)
  }

  function Lines(fields: seq<Field>): seq<seq<byte>> {
    seq(|fields|, i requires 0 <= i < |fields| => FieldLine(fields[i]))
  }

  // ── Numbers ─────────────────────────────────────────────────────────────

  lemma {:induction false} DecimalParts(a: seq<byte>, b: seq<byte>, n: nat)
    requires forall i | 0 <= i < |a| :: IsDigit(a[i])
    ensures DecimalValue(a + b, n) == DecimalValue(b, DecimalValue(a, n))
    decreases |a|
  {
    if a == [] {
      assert a + b == b;
    } else {
      assert (a + b)[1..] == a[1..] + b;
      DecimalParts(a[1..], b, n * 10 + (a[0] - 48));
    }
  }

  lemma {:induction false} DecimalIsNumber(digits: seq<byte>)
    requires forall i | 0 <= i < |digits| :: IsDigit(digits[i])
    ensures DecimalValue(digits, 0) == NumberOf(digits)
  {
    if digits == [] {
    } else {
      var front, d := digits[..|digits| - 1], digits[|digits| - 1];
      assert digits == front + [d];
      DecimalParts(front, [d], 0);
      DecimalIsNumber(front);
      assert [d][1..] == [];
    }
  }

  lemma DecimalStops(rest: seq<byte>, n: nat)
    requires rest != [] ==> !IsDigit(rest[0])
    ensures DecimalValue(rest, n) == n
  {
  }

  lemma NoNul(s: seq<byte>)
    requires forall i | 0 <= i < |s| :: s[i] != NUL
    ensures CString(s) == s
  {
    IndexOfPast(s, [], NUL);
    assert s + [] == s;
  }

  /** Digits followed by something else are read as their number, as far as 64 bits go. */
  lemma DecimalReads(digits: seq<byte>, rest: seq<byte>)
    requires IsNumber(digits) && IsText(rest) && (rest != [] ==> !IsDigit(rest[0]))
    ensures ParseDecimal(digits + rest) == Min(NumberOf(digits), LLONG_MAX)
  {
    hide NumberOf, DecimalValue;
    var s := digits + rest;
    assert forall i | 0 <= i < |s| :: s[i] != NUL;
    NoNul(s);
    assert IsDigit(s[0]) && SkipSpaces(s) == s;
    DecimalParts(digits, rest, 0);
    DecimalIsNumber(digits);
    DecimalStops(rest, DecimalValue(digits, 0));
  }

  // ── Lines ───────────────────────────────────────────────────────────────

  /** The parser is at the start of a line of the head. */
  predicate AtHead(r: Response) {
    r.Valid() && r.outcome.Running? && !r.phase.Body? && r.line == []
  }

  lemma {:induction false} TakeHeadText(q: Request, r: Response, s: seq<byte>)
    requires r.Valid() && r.outcome.Running? && !r.phase.Body? && IsText(s) && |r.line| + |s| <= MAX_LINE
    ensures TakeAll(q, r, s) == r.(line := r.line + s)
    decreases |s|
  {
    if s == [] {
      assert r.line + s == r.line;
    } else {
      var t := Take(q, r, s[0]);
      TakeHeadText(q, t, s[1..]);
      assert t.line + s[1..] == r.line + s;
    }
  }

  lemma TakeLineEnd(q: Request, r: Response)
    requires r.Valid() && r.outcome.Running? && !r.phase.Body?
    ensures TakeAll(q, r, C.CRLF) == HeadLine(q, r.(line := []), r.line)
  {
    hide HeadLine;
    assert C.CRLF[0] == CR && C.CRLF[1..] == [LF];
    assert Take(q, r, CR) == r;
    assert TakeAll(q, r, C.CRLF) == TakeAll(q, r, [LF]) == Take(q, r, LF);
  }

  /** A whole line of the head does what its text says. */
  lemma TakeLine(q: Request, r: Response, s: seq<byte>)
    requires AtHead(r) && IsText(s) && |s| <= MAX_LINE
    ensures TakeAll(q, r, s + C.CRLF) == HeadLine(q, r, s)
  {
    hide TakeAll, HeadLine;
    TakeHeadText(q, r, s);
    assert [] + s == s;
    TakeLineEnd(q, r.(line := s));
    assert r.(line := s).(line := []) == r;
    TakeAllSplits(q, r, s, C.CRLF);
  }

  // ── Fields ──────────────────────────────────────────────────────────────

  predicate NoColon(name: string) {
    forall i | 0 <= i < |name| :: Ascii(name)[i] != COLON
  }

  lemma {:induction false} SkipsGap(gap: seq<byte>, value: seq<byte>)
    requires (forall i | 0 <= i < |gap| :: IsBlank(gap[i])) && (value != [] ==> !IsBlank(value[0]))
    ensures SkipBlanks(gap + value) == value
    decreases |gap|
  {
    if gap == [] {
      assert gap + value == value;
    } else {
      assert (gap + value)[1..] == gap[1..] + value;
      SkipsGap(gap[1..], value);
    }
  }

  lemma FieldIsText(f: Field)
    requires IsField(f)
    ensures var line := FieldLine(f);
            && IsText(line) && line != [] && !IsBlank(line[0]) && TrimEnd(line) == line && CString(line) == line
  {
    var line := FieldLine(f);
    assert forall i | 0 <= i < |line| :: line[i] != NUL && line[i] != LF && line[i] != CR;
    NoNul(line);
    if f.value == [] {
      assert line == f.name + [COLON];
    } else {
      assert line[|line| - 1] == f.value[|f.value| - 1];
    }
  }

  lemma DiffersAt(line: seq<byte>, prefix: seq<byte>, k: nat)
    requires k < |prefix| && (k < |line| ==> Lower(line[k]) != Lower(prefix[k]))
    ensures !StartsNoCase(line, prefix)
  {
    assert |prefix| <= |line| ==> line[..|prefix|][k] == line[k];
  }

  /** A field's value is found by its name, in any case, and by no other. */
  lemma ValueByName(f: Field, name: string)
    requires IsField(f) && NoColon(name)
    ensures HeaderValue(FieldLine(f), name) == if IsNamed(f, name) then Some(f.value) else None
  {
    hide SkipBlanks, CString;
    var line, n := FieldLine(f), Ascii(name);
    FieldIsText(f);
    SkipsGap(f.gap, f.value);
    assert line[|f.name|] == COLON && line[..|f.name|] == f.name;
    assert line[|f.name| + 1..] == f.gap + f.value;
    if |f.name| < |n| {
      DiffersAt(line, n, |f.name|);
    }
    if |n| < |f.name| {
      assert line[|n|] == f.name[|n|];
    }
    if |n| == |f.name| {
      assert forall i | 0 <= i < |n| :: line[..|n|][i] == f.name[i];
    }
  }

  lemma NamesHaveNoColon()
    ensures NoColon("Location") && NoColon("Content-Length") && NoColon("Transfer-Encoding") && NoColon("Connection")
  {
  }

  lemma SaysIsContains(value: seq<byte>, word: string)
    ensures Says(value, word) <==> ContainsNoCase(value, Ascii(word))
  {
    var w := Ascii(word);
    if Says(value, word) {
      var at: nat :| at <= |value| && IsAt(value, word, at);
      assert forall i | 0 <= i < |w| :: value[at..][..|w|][i] == value[at + i];
      assert StartsNoCase(value[at..], w);
    }
    if ContainsNoCase(value, w) {
      var at: nat :| at <= |value| && StartsNoCase(value[at..], w);
      assert forall i | 0 <= i < |w| :: value[at..][..|w|][i] == value[at + i];
      assert IsAt(value, word, at);
    }
  }

  /** What the parser knows after these fields. */
  function Knows(r: Response, fields: seq<Field>): Response {
    var location, length := LastNamed(fields, "Location"), LastNamed(fields, "Content-Length");
    var coding := LastNamed(fields, "Transfer-Encoding");
    r.(headers := r.headers + Lines(fields),
       location := if location.Some? then location else r.location,
       contentLength := if length.Some? then Max(ParseDecimal(length.value), -1) else r.contentLength,
       chunked := if coding.Some? then Says(coding.value, "chunked") else r.chunked,
       connClose := Closes(fields, r.connClose))
  }

  lemma TakeField(q: Request, r: Response, f: Field)
    requires AtHead(r) && r.phase.Headers? && IsField(f)
    ensures TakeAll(q, r, FieldLine(f) + C.CRLF) == HeaderLine(r, FieldLine(f))
  {
    hide HeaderLine;
    FieldIsText(f);
    TakeLine(q, r, FieldLine(f));
  }

  lemma OneField(r: Response, f: Field)
    requires AtHead(r) && r.phase.Headers? && IsField(f)
    ensures var t := r.(headers := r.headers + [FieldLine(f)]);
            HeaderLine(r, FieldLine(f)) ==
            if IsNamed(f, "Location") then t.(location := Some(f.value))
            else if IsNamed(f, "Content-Length") then t.(contentLength := Max(ParseDecimal(f.value), -1))
            else if IsNamed(f, "Transfer-Encoding") then t.(chunked := Says(f.value, "chunked"))
            else if IsNamed(f, "Connection") && Says(f.value, "close") then t.(connClose := true)
            else if IsNamed(f, "Connection") && Says(f.value, "keep-alive") then t.(connClose := false)
            else t
  {
    NamesHaveNoColon();
    ValueByName(f, "Location");
    ValueByName(f, "Content-Length");
    ValueByName(f, "Transfer-Encoding");
    ValueByName(f, "Connection");
    SaysIsContains(f.value, "chunked");
    SaysIsContains(f.value, "close");
    SaysIsContains(f.value, "keep-alive");
    hide HeaderValue, IsNamed, Says, ContainsNoCase, ParseDecimal;
  }

  /** No field has two of the names. */
  lemma OneName(f: Field)
    ensures IsNamed(f, "Location") ==> |f.name| == 8
    ensures IsNamed(f, "Content-Length") ==> |f.name| == 14
    ensures IsNamed(f, "Transfer-Encoding") ==> |f.name| == 17
    ensures IsNamed(f, "Connection") ==> |f.name| == 10
  {
  }

  lemma OneMoreNamed(fields: seq<Field>, f: Field, name: string)
    ensures LastNamed(fields + [f], name) == if IsNamed(f, name) then Some(f.value) else LastNamed(fields, name)
  {
    assert (fields + [f])[..|fields|] == fields;
  }

  lemma OneMoreCloses(fields: seq<Field>, f: Field, http10: bool)
    ensures Closes(fields + [f], http10)
            == if IsNamed(f, "Connection") && Says(f.value, "close") then true
               else if IsNamed(f, "Connection") && Says(f.value, "keep-alive") then false
               else Closes(fields, http10)
  {
    assert (fields + [f])[..|fields|] == fields;
  }

  lemma KnowsOneMore(r: Response, fields: seq<Field>, f: Field)
    requires AtHead(r) && AtHead(Knows(r, fields)) && r.phase.Headers? && IsField(f)
    ensures HeaderLine(Knows(r, fields), FieldLine(f)) == Knows(r, fields + [f])
  {
    hide HeaderLine, FieldLine, IsNamed, Says, ParseDecimal, LastNamed, Closes, IsField;
    OneField(Knows(r, fields), f);
    OneName(f);
    OneMoreNamed(fields, f, "Location");
    OneMoreNamed(fields, f, "Content-Length");
    OneMoreNamed(fields, f, "Transfer-Encoding");
    OneMoreCloses(fields, f, r.connClose);
    assert Lines(fields + [f]) == Lines(fields) + [FieldLine(f)];
    assert r.headers + (Lines(fields) + [FieldLine(f)]) == r.headers + Lines(fields) + [FieldLine(f)];
  }

  lemma {:induction false} TakeFields(q: Request, r: Response, fields: seq<Field>)
    requires AtHead(r) && r.phase.Headers? && forall i | 0 <= i < |fields| :: IsField(fields[i])
    ensures TakeAll(q, r, FieldsBytes(fields)) == Knows(r, fields) && AtHead(Knows(r, fields))
  {
    hide HeaderLine, IsNamed, Says, ParseDecimal, IsField;
    if fields == [] {
      assert Lines([]) == [] && r.headers + [] == r.headers;
    } else {
      var front, f := fields[..|fields| - 1], fields[|fields| - 1];
      assert fields == front + [f];
      TakeFields(q, r, front);
      TakeAllSplits(q, r, FieldsBytes(front), FieldLine(f) + C.CRLF);
      TakeField(q, Knows(r, front), f);
      KnowsOneMore(r, front, f);
    }
  }

  // ── Heads ───────────────────────────────────────────────────────────────

  /** Where a response can begin: what came before, interim answers perhaps, left no fields. */
  predicate IsStart(r: Response) {
    && r.Valid() && r.outcome.Running? && r.phase.Status? && r.line == [] && r.body == []
    && r.contentLength == -1 && !r.chunked && r.location.None?
  }

  lemma FreshIsStart()
    ensures IsStart(FRESH)
  {
  }

  lemma ThreeDigits(digits: seq<byte>, a: nat, b: nat, c: nat)
    requires digits == [48 + a, 48 + b, 48 + c] && a <= 9 && b <= 9 && c <= 9
    ensures NumberOf(digits) == a * 100 + b * 10 + c
  {
    var one, two := [48 + a], [48 + a, 48 + b];
    assert digits[..2] == two && two[..1] == one && one[..0] == [];
    assert NumberOf([]) == 0;
    assert NumberOf(one) == a;
    assert NumberOf(two) == a * 10 + b;
  }

  lemma VersionReads(http10: bool, rest: seq<byte>)
    ensures var text := Ascii(if http10 then "HTTP/1.0" else "HTTP/1.1") + rest;
            Ascii("HTTP/") <= text && (Ascii("HTTP/1.0") <= text <==> http10)
    ensures IsText(Ascii(if http10 then "HTTP/1.0" else "HTTP/1.1"))
    ensures SPACE !in Ascii(if http10 then "HTTP/1.0" else "HTTP/1.1")
  {
    assert Ascii("HTTP/") == [72, 84, 84, 80, 47] && Ascii("HTTP/1.0") == [72, 84, 84, 80, 47, 49, 46, 48];
    assert Ascii("HTTP/1.1") == [72, 84, 84, 80, 47, 49, 46, 49];
    var text := Ascii(if http10 then "HTTP/1.0" else "HTTP/1.1") + rest;
    assert text[7] == if http10 then 48 else 49;
    if Ascii("HTTP/1.0") <= text {
      assert text[7] == Ascii("HTTP/1.0")[7];
    }
  }

  lemma EightLong()
    ensures |Ascii("HTTP/1.0")| == 8 && |Ascii("HTTP/1.1")| == 8
  {
  }

  function CodeDigits(h: Head): seq<byte> {
    [(48 + h.hundreds) % 256, (48 + h.tens) % 256, (48 + h.units) % 256]
  }

  lemma StatusParts(h: Head)
    ensures var version := Ascii(if h.http10 then "HTTP/1.0" else "HTTP/1.1");
            |version| == 8 && StatusText(h) == version + ([SPACE] + (CodeDigits(h) + h.reason))
  {
    EightLong();
    hide Ascii;
  }

  lemma CodeReads(version: seq<byte>, digits: seq<byte>, reason: seq<byte>)
    requires |version| == 8 && SPACE !in version && IsNumber(digits) && IsText(reason)
    requires reason != [] ==> !IsDigit(reason[0])
    ensures var text := version + ([SPACE] + (digits + reason));
            IndexOf(text, SPACE) == 8 < |text| && ParseDecimal(text[9..]) == Min(NumberOf(digits), LLONG_MAX)
  {
    hide ParseDecimal, NumberOf;
    var rest := [SPACE] + (digits + reason);
    IndexOfPast(version, rest, SPACE);
    assert (version + rest)[9..] == digits + reason;
    DecimalReads(digits, reason);
  }

  lemma StatusReads(h: Head)
    requires IsHead(h) || (h.hundreds == 0 && IsHead(h.(hundreds := 1)))
    ensures var text := StatusText(h);
            && IsText(text) && CString(text) == text && Ascii("HTTP/") <= text && (Ascii("HTTP/1.0") <= text <==> h.http10)
            && IndexOf(text, SPACE) == 8 < |text| && ParseDecimal(text[9..]) == Code(h)
  {
    hide ParseDecimal, CString, Ascii, NumberOf, IndexOf;
    var version := Ascii(if h.http10 then "HTTP/1.0" else "HTTP/1.1");
    StatusParts(h);
    VersionReads(h.http10, [SPACE] + (CodeDigits(h) + h.reason));
    CodeReads(version, CodeDigits(h), h.reason);
    ThreeDigits(CodeDigits(h), h.hundreds, h.tens, h.units);
    hide StatusText;
    assert IsText(StatusText(h));
    NoNul(StatusText(h));
  }

  /** The status line. */
  lemma TakeStatus(q: Request, r: Response, h: Head)
    requires IsStart(r) && IsHead(h)
    ensures TakeAll(q, r, StatusText(h) + C.CRLF) == r.(code := Code(h), connClose := h.http10, phase := Headers)
  {
    StatusReads(h);
    hide StatusText, TakeAll, ParseDecimal, IndexOf, CString;
    TakeLine(q, r, StatusText(h));
  }

  /** All of a head: what it says is known when its blank line comes. */
  lemma TakeHead(q: Request, r: Response, h: Head)
    requires IsStart(r) && IsHead(h)
    ensures var known := Knows(r.(code := Code(h), connClose := h.http10, phase := Headers), h.fields);
            AtHead(known) && TakeAll(q, r, HeadBytes(h)) == HeadLine(q, known, [])
  {
    hide TakeAll, HeadLine, StatusText, Knows, FieldsBytes;
    TakeStatus(q, r, h);
    var s := r.(code := Code(h), connClose := h.http10, phase := Headers);
    TakeFields(q, s, h.fields);
    TakeLine(q, Knows(s, h.fields), []);
    assert [] + C.CRLF == C.CRLF;
    TakeAllSplits(q, r, StatusText(h) + C.CRLF, FieldsBytes(h.fields));
    TakeAllSplits(q, r, StatusText(h) + C.CRLF + FieldsBytes(h.fields), C.CRLF);
  }

  /** An interim answer changes nothing that the real one does not set again, apart from fields of its own. */
  lemma InterimIsSkipped(q: Request, r: Response, h: Head)
    requires IsStart(r) && IsHead(h) && Code(h) < 200 && h.fields == []
    ensures IsStart(TakeAll(q, r, HeadBytes(h))) && TakeAll(q, r, HeadBytes(h)).headers == r.headers
  {
    hide TakeAll;
    TakeHead(q, r, h);
    assert r.headers + Lines([]) == r.headers;
  }

  /** An answer that is not HTTP ends the fetch, and so does a code below 100. */
  lemma NotHttp(q: Request, s: seq<byte>)
    requires IsText(s) && |s| <= MAX_LINE && !(Ascii("HTTP/") <= s)
    ensures TakeAll(q, FRESH, s + C.CRLF).outcome == BadProtocol
  {
    hide TakeAll;
    NoNul(s);
    TakeLine(q, FRESH, s);
  }

  lemma BadCode(q: Request, h: Head)
    requires IsHead(h.(hundreds := 1)) && h.hundreds == 0
    ensures TakeAll(q, FRESH, StatusText(h) + C.CRLF).outcome == BadStatus
  {
    StatusReads(h);
    hide StatusText, TakeAll, ParseDecimal, IndexOf, CString;
    TakeLine(q, FRESH, StatusText(h));
  }

  /** A line that continues the field before it is passed over. */
  lemma FoldIsSkipped(q: Request, r: Response, s: seq<byte>)
    requires AtHead(r) && r.phase.Headers? && IsText(s) && |s| <= MAX_LINE && s != [] && IsBlank(s[0])
    ensures TakeAll(q, r, s + C.CRLF) == r
  {
    hide TakeAll;
    TakeLine(q, r, s);
  }

  function LocationOf(h: Head): Option<seq<byte>> {
    LastNamed(h.fields, "Location")
  }

  predicate IsChunkedHead(h: Head) {
    var coding := LastNamed(h.fields, "Transfer-Encoding");
    coding.Some? && Says(coding.value, "chunked")
  }

  /** No length is announced, or one that is a number the parser can hold. */
  predicate LengthIsClear(h: Head) {
    var length := LastNamed(h.fields, "Content-Length");
    length.Some? ==> IsNumber(length.value) && NumberOf(length.value) <= LLONG_MAX
  }

  function LengthOf(h: Head): Option<nat>
    requires LengthIsClear(h)
  {
    var length := LastNamed(h.fields, "Content-Length");
    if length.Some? then Some(NumberOf(length.value)) else None
  }

  /** How a fetch ends at the head already, if it does. */
  datatype AtOnce = GoesOn | EndsWith(outcome: Outcome)

  function EndAtHead(q: Request, h: Head): AtOnce {
    if Code(h) == 304 && !q.post then EndsWith(NotModified)
    else if h.hundreds == 3 && LocationOf(h).Some? then EndsWith(Redirect(LocationOf(h).value))
    else if Code(h) == 401 then EndsWith(Auth)
    else if q.only2xx && h.hundreds != 2 then EndsWith(Not2xx)
    else if Code(h) == 204 || Code(h) == 304 then EndsWith(Finished)
    else GoesOn
  }

  lemma LengthReads(h: Head)
    requires LengthIsClear(h) && LengthOf(h).Some?
    ensures ParseDecimal(LastNamed(h.fields, "Content-Length").value) == LengthOf(h).value
  {
    var digits := LastNamed(h.fields, "Content-Length").value;
    DecimalReads(digits, []);
    assert digits + [] == digits;
  }

  /** What is known when the head is over. */
  lemma HeadKnown(q: Request, h: Head)
    requires IsHead(h)
    ensures var s := FRESH.(code := Code(h), connClose := h.http10, phase := Headers);
            var known := Knows(s, h.fields);
            AtHead(known) && TakeAll(q, FRESH, HeadBytes(h)) == HeadLine(q, known, [])
            && known.phase.Headers? && known.body == [] && known.headers == Lines(h.fields)
            && known.code == Code(h) && known.location == LocationOf(h)
            && known.connClose == Closes(h.fields, h.http10) && known.chunked == IsChunkedHead(h)
            && known.contentLength == (var n := LastNamed(h.fields, "Content-Length");
                                       if n.Some? then Max(ParseDecimal(n.value), -1) else -1)
  {
    hide TakeAll, ParseDecimal, LastNamed, Says, Closes, HeadBytes, HeadLine;
    FreshIsStart();
    TakeHead(q, FRESH, h);
    assert [] + Lines(h.fields) == Lines(h.fields);
  }

  lemma DoneIs(q: Request, r: Response)
    requires AtHead(r) && r.phase.Headers? && r.code >= 200
    ensures HeadLine(q, r, []) == HeadersDone(q, r)
  {
    hide HeadersDone;
  }

  lemma DoneKeeps(q: Request, r: Response)
    requires r.Valid() && r.outcome.Running?
    ensures var t := HeadersDone(q, r);
            t.headers == r.headers && t.body == r.body && t.code == r.code && t.connClose == r.connClose
  {
  }

  lemma DoneEnds(q: Request, h: Head, r: Response)
    requires IsHead(h) && Code(h) >= 200 && AtHead(r) && r.code == Code(h) && r.location == LocationOf(h)
    ensures EndAtHead(q, h).EndsWith? ==> HeadersDone(q, r).outcome == EndAtHead(q, h).outcome
  {
    hide LocationOf, StatusText, IsField;
    assert h.hundreds == 3 <==> 300 <= Code(h) < 400;
    assert h.hundreds == 2 <==> 200 <= Code(h) < 300;
  }

  /**
   * What a final head tells: NetSurf gets every field's line, the connection is to be closed exactly if the
   * version and the Connection fields say so, and some heads end the fetch.
   */
  lemma HeadDecides(q: Request, h: Head)
    requires IsHead(h) && Code(h) >= 200
    ensures var r := TakeAll(q, FRESH, HeadBytes(h));
            && r.Valid() && r.headers == Lines(h.fields) && r.body == [] && r.code == Code(h)
            && r.connClose == Closes(h.fields, h.http10)
    ensures var r := TakeAll(q, FRESH, HeadBytes(h));
            EndAtHead(q, h).EndsWith? ==> r.outcome == EndAtHead(q, h).outcome
  {
    hide TakeAll, ParseDecimal, LastNamed, IsChunkedHead, Closes, HeadBytes, Knows, Lines, HeadLine, HeadersDone, EndAtHead;
    HeadKnown(q, h);
    var known := Knows(FRESH.(code := Code(h), connClose := h.http10, phase := Headers), h.fields);
    DoneIs(q, known);
    DoneKeeps(q, known);
    DoneEnds(q, h, known);
  }

  /** After any other a body follows, whose extent is chunked, of the announced length, or until the close. */
  lemma BodyDecides(q: Request, h: Head)
    requires IsHead(h) && Code(h) >= 200 && EndAtHead(q, h).GoesOn?
    ensures var r := TakeAll(q, FRESH, HeadBytes(h));
            if IsChunkedHead(h) then AtLine(r, ChSize)
            else LengthIsClear(h) ==>
              match LengthOf(h)
              case None => InData(r) && r.mode.ToClose?
              case Some(n) => if n == 0 then r.outcome == Finished else InData(r) && r.mode.Length? && r.remaining == n
  {
    hide TakeAll, ParseDecimal, LastNamed, IsChunkedHead, Closes, HeadBytes, Knows, NumberOf, Lines;
    HeadKnown(q, h);
    if LengthIsClear(h) && LengthOf(h).Some? {
      LengthReads(h);
    }
  }

  // ── Whole responses ─────────────────────────────────────────────────────

  ghost predicate IsChunked(m: C.ChunkedBody, body: seq<byte>, head: seq<byte>, bytes: seq<byte>) {
    C.IsChunkedBody(m) && BodyFits(m) && bytes == head + C.Encode(m) && body == C.PayloadOf(m.chunks)
  }

  /** A head that a body follows, and the body in the extent the head announces. */
  ghost predicate IsResponse(q: Request, h: Head, body: seq<byte>, bytes: seq<byte>) {
    && IsHead(h) && Code(h) >= 200 && EndAtHead(q, h).GoesOn?
    && if IsChunkedHead(h) then exists m: C.ChunkedBody :: IsChunked(m, body, HeadBytes(h), bytes)
       else LengthIsClear(h) && bytes == HeadBytes(h) + body && (LengthOf(h).Some? ==> LengthOf(h).value == |body|)
  }

  /** The head says where the body ends. */
  predicate EndsByItself(h: Head) {
    IsChunkedHead(h) || LastNamed(h.fields, "Content-Length").Some?
  }

  lemma ChunkLineLeavesHead(r: Response, line: seq<byte>)
    requires r.Valid() && r.outcome.Running? && r.phase.Body?
    ensures var t := ChunkLine(r, line);
            t.phase.Body? && t.headers == r.headers && t.code == r.code && t.connClose == r.connClose
  {
    hide ParseHex;
  }

  lemma OneByteLeavesHead(q: Request, r: Response, b: byte)
    requires r.Valid() && r.phase.Body?
    ensures var t := Take(q, r, b);
            t.phase.Body? && t.headers == r.headers && t.code == r.code && t.connClose == r.connClose
  {
    if r.outcome.Running? && r.mode.Chunked? {
      ChunkLineLeavesHead(r.(line := []), r.line);
    }
    hide HeadLine, ChunkLine, AddToLine;
  }

  lemma {:induction false} BodyLeavesHead(q: Request, r: Response, s: seq<byte>)
    requires r.Valid() && r.phase.Body?
    ensures var t := TakeAll(q, r, s);
            t.phase.Body? && t.headers == r.headers && t.code == r.code && t.connClose == r.connClose
    decreases |s|
  {
    if s == [] {
    } else {
      hide Take;
      OneByteLeavesHead(q, r, s[0]);
      BodyLeavesHead(q, Take(q, r, s[0]), s[1..]);
    }
  }

  lemma TakesAll(q: Request, r: Response, body: seq<byte>)
    requires r.Valid() && InData(r) && r.body == [] && !r.mode.Chunked?
    requires r.mode.Length? ==> r.remaining == |body|
    ensures var t := TakeAll(q, r, body); t.body == body && t.outcome == if r.mode.Length? then Finished else Running
  {
    TakeData(q, r, body);
    assert [] + body == body;
  }

  /**
   * Every such response is delivered: NetSurf gets all header lines and then exactly the body, and the
   * fetch is finished at the response's last byte, where the head says which that is.
   */
  lemma ResponseDelivered(q: Request, h: Head, body: seq<byte>, bytes: seq<byte>)
    requires IsResponse(q, h, body, bytes)
    ensures var r := TakeAll(q, FRESH, bytes);
            && r.Valid() && r.headers == Lines(h.fields) && r.body == body && r.connClose == Closes(h.fields, h.http10)
            && r.outcome == (if EndsByItself(h) then Finished else Running) && (r.outcome.Running? ==> r.phase.Body?)
  {
    hide TakeAll, HeadBytes, IsChunkedHead, LastNamed, Closes, Lines, NumberOf, C.Encode, C.PayloadOf, BodyFits, IsHead;
    HeadDecides(q, h);
    BodyDecides(q, h);
    var r := TakeAll(q, FRESH, HeadBytes(h));
    if IsChunkedHead(h) {
      var m: C.ChunkedBody :| IsChunked(m, body, HeadBytes(h), bytes);
      TakeAllSplits(q, FRESH, HeadBytes(h), C.Encode(m));
      ChunkedBodyDelivered(q, r, m, []);
      assert C.Encode(m) + [] == C.Encode(m) && [] + C.PayloadOf(m.chunks) == C.PayloadOf(m.chunks);
      BodyLeavesHead(q, r, C.Encode(m));
    } else {
      TakeAllSplits(q, FRESH, HeadBytes(h), body);
      if r.outcome == Finished {
        TakeAfterEnd(q, r, body);
      } else {
        TakesAll(q, r, body);
        BodyLeavesHead(q, r, body);
      }
    }
  }

  /** A head, and all of a body but its last byte. */
  lemma InBodyAfter(q: Request, head: seq<byte>, most: seq<byte>, bytes: seq<byte>)
    requires bytes != [] && bytes[..|bytes| - 1] == head + most
    requires var r := TakeAll(q, FRESH, head); r.phase.Body? && TakeAll(q, r, most).outcome.Running?
    ensures EndsInBody(q, FRESH, bytes)
  {
    hide TakeAll;
    TakeAllSplits(q, FRESH, head, most);
    BodyLeavesHead(q, TakeAll(q, FRESH, head), most);
  }

  /** And not before its last byte. */
  lemma NotBeforeTheEnd(q: Request, h: Head, body: seq<byte>, bytes: seq<byte>)
    requires IsResponse(q, h, body, bytes) && (body != [] || IsChunkedHead(h))
    ensures EndsInBody(q, FRESH, bytes)
  {
    hide TakeAll, HeadBytes, IsChunkedHead, LastNamed, NumberOf, BodyFits, IsHead, EndsInBody;
    HeadDecides(q, h);
    BodyDecides(q, h);
    var r := TakeAll(q, FRESH, HeadBytes(h));
    if IsChunkedHead(h) {
      var m: C.ChunkedBody :| IsChunked(m, body, HeadBytes(h), bytes);
      ChunkedBodyDelivered(q, r, m, []);
      assert bytes[..|bytes| - 1] == HeadBytes(h) + C.EncodeButLast(m);
      InBodyAfter(q, HeadBytes(h), C.EncodeButLast(m), bytes);
    } else {
      var most := body[..|body| - 1];
      assert bytes[..|bytes| - 1] == HeadBytes(h) + most;
      TakeData(q, r, most);
      InBodyAfter(q, HeadBytes(h), most, bytes);
    }
  }

  /**
   * On the fetcher itself: a response in any segments, with the server closing the connection where the
   * head does not say how long the body is, ends with its header lines and its body handed on.
   */
  method Receive(f: Fetch, segments: seq<seq<byte>>, ghost h: Head, ghost body: seq<byte>)
    requires f.Valid() && f.resp == FRESH && f.sock && IsResponse(f.q, h, body, Concat(segments))
    modifies f
    ensures f.Valid() && !f.sock && f.resp.outcome == Finished && f.resp.headers == Lines(h.fields) && f.resp.body == body
    ensures f.kept ==> !Closes(h.fields, h.http10) && EndsByItself(h) && !f.q.proxy
    ensures EndsByItself(h) && (body != [] || IsChunkedHead(h)) ==> f.kept == (!Closes(h.fields, h.http10) && !f.q.proxy)
  {
    ResponseDelivered(f.q, h, body, Concat(segments));
    if body != [] || IsChunkedHead(h) {
      NotBeforeTheEnd(f.q, h, body, Concat(segments));
    }
    hide TakeAll, IsResponse, Lines, Closes, EndsByItself, EndsInBody, IsChunkedHead;
    f.FeedSegments(segments);
    if f.resp.outcome.Running? {
      f.ClosedByServer();
    }
  }
}
