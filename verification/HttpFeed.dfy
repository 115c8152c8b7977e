/**
 * The NetSurf fetcher's incremental response parser. What a response means is
 * defined one byte at a time (Take); the fetcher's own loops work on whatever
 * segments arrive and hand body bytes on in pieces. They are shown to agree,
 * so how the network cuts a response up makes no difference.
 */
module HttpFeed {
  import opened Basics
  import opened HeaderText
  import C = ChunkedCoding

  const MAX_LINE := 8192

  datatype Phase = Status | Headers | Body
  datatype BodyMode = NoBody | Length | Chunked | ToClose
  datatype ChunkPhase = ChSize | ChData | ChDataEnd | ChTrailer

  /** How a fetch ends: the last message NetSurf gets. */
  datatype Outcome =
    | Running
    | Finished
    | NotModified
    | Redirect(location: seq<byte>)
    | Auth
    | BadProtocol
    | BadStatus
    | BadChunk
    | Not2xx
    | ClosedEarly

  /** What was asked for, as far as reading the answer depends on it. */
  datatype Request = Request(post: bool, only2xx: bool, proxy: bool)

  /** The response part of a fetch, with everything NetSurf has been told so far. */
  datatype Response = Response(
    phase: Phase, line: seq<byte>, code: int, connClose: bool, contentLength: int, chunked: bool,
    location: Option<seq<byte>>, mode: BodyMode, remaining: int, chunk: ChunkPhase,
    headers: seq<seq<byte>>, body: seq<byte>, outcome: Outcome)
  {
    predicate Valid() {
      && |line| <= MAX_LINE
      && (outcome.Running? && phase.Body? ==> !mode.NoBody? && (mode.Length? ==> remaining > 0))
      && (mode.Chunked? && chunk.ChData? ==> remaining > 0)
    }
  }

  const FRESH := Response(Status, [], 0, false, -1, false, None, NoBody, 0, ChSize, [], [], Running)

  // ── One byte at a time ──────────────────────────────────────────────────

  function AddToLine(line: seq<byte>, b: byte): seq<byte> {
    if b != CR && |line| < MAX_LINE then line + [b] else line
  }

  function StatusLine(r: Response, line: seq<byte>): (s: Response)
    requires r.Valid() && r.outcome.Running?
    ensures s.Valid()
  {
    var text := CString(line);
    var sp := IndexOf(text, SPACE);
    var code := if sp < |text| then ParseDecimal(text[sp + 1..]) else 0;
    if !(Ascii("HTTP/") <= text) then r.(outcome := BadProtocol)
    else if code < 100 || code > 999 then r.(code := code, outcome := BadStatus)
    else r.(code := code, connClose := Ascii("HTTP/1.0") <= text, phase := Headers)
  }

  function HeaderLine(r: Response, line: seq<byte>): (s: Response)
    requires r.Valid() && r.outcome.Running?
    ensures s.Valid()
  {
    var t := r.(headers := r.headers + [line]);
    var location, length := HeaderValue(line, "Location"), HeaderValue(line, "Content-Length");
    var coding, connection := HeaderValue(line, "Transfer-Encoding"), HeaderValue(line, "Connection");
    if location.Some? then t.(location := location)
    else if length.Some? then t.(contentLength := Max(ParseDecimal(length.value), -1))
    else if coding.Some? then t.(chunked := ContainsNoCase(coding.value, Ascii("chunked")))
    else if connection.Some? then
      if ContainsNoCase(connection.value, Ascii("close")) then t.(connClose := true)
      else if ContainsNoCase(connection.value, Ascii("keep-alive")) then t.(connClose := false)
      else t
    else t
  }

  /** The blank line after the headers: the fetch ends here, or a body follows. */
  function HeadersDone(q: Request, r: Response): (s: Response)
    requires r.Valid() && r.outcome.Running?
    ensures s.Valid()
  {
    if r.code == 304 && !q.post then r.(mode := NoBody, outcome := NotModified)
    else if 300 <= r.code < 400 && r.location.Some? then r.(outcome := Redirect(r.location.value))
    else if r.code == 401 then r.(outcome := Auth)
    else if q.only2xx && (r.code < 200 || r.code > 299) then r.(outcome := Not2xx)
    else
      var t := r.(phase := Body);
      if r.code == 204 || r.code == 304 then t.(mode := NoBody, outcome := Finished)
      else if r.chunked then t.(mode := Chunked, chunk := ChSize)
      else if r.contentLength == 0 then t.(mode := Length, remaining := 0, outcome := Finished)
      else if r.contentLength > 0 then t.(mode := Length, remaining := r.contentLength)
      else t.(mode := ToClose)
  }

  function HeadLine(q: Request, r: Response, line: seq<byte>): (s: Response)
    requires r.Valid() && r.outcome.Running?
    ensures s.Valid()
  {
    if r.phase.Status? then StatusLine(r, line)
    else if line == [] then (if 100 <= r.code < 200 then r.(phase := Status) else HeadersDone(q, r))
    else if IsBlank(line[0]) then r
    else HeaderLine(r, TrimEnd(line))
  }

  function ChunkLine(r: Response, line: seq<byte>): (s: Response)
    requires r.Valid() && r.outcome.Running?
    ensures s.Valid()
  {
    match r.chunk
    case ChSize =>
      var size := ParseHex(line);
      if size.None? then r.(outcome := BadChunk)
      else if size.value == 0 then r.(chunk := ChTrailer)
      else r.(remaining := size.value, chunk := ChData)
    case ChDataEnd => r.(chunk := ChSize)
    case ChTrailer => if line == [] then r.(outcome := Finished) else r
    case ChData => r
  }

  function Take(q: Request, r: Response, b: byte): (s: Response)
    requires r.Valid()
    ensures s.Valid()
  {
    if !r.outcome.Running? then r
    else if !r.phase.Body? then
      if b == LF then HeadLine(q, r.(line := []), r.line) else r.(line := AddToLine(r.line, b))
    else match r.mode
      case ToClose => r.(body := r.body + [b])
      case Length =>
        r.(body := r.body + [b], remaining := r.remaining - 1, outcome := if r.remaining == 1 then Finished else Running)
      case Chunked =>
        if r.chunk.ChData? then
          r.(body := r.body + [b], remaining := r.remaining - 1, chunk := if r.remaining == 1 then ChDataEnd else ChData)
        else if b == LF then ChunkLine(r.(line := []), r.line)
        else r.(line := AddToLine(r.line, b))
      case NoBody => r
  }

  function TakeAll(q: Request, r: Response, s: seq<byte>): (t: Response)
    requires r.Valid()
    ensures t.Valid()
    decreases |s|
  {
    if s == [] then r else TakeAll(q, Take(q, r, s[0]), s[1..])
  }

  // ── Splitting makes no difference ───────────────────────────────────────

  lemma {:induction false} TakeAllSplits(q: Request, r: Response, a: seq<byte>, b: seq<byte>)
    requires r.Valid()
    ensures TakeAll(q, r, a + b) == TakeAll(q, TakeAll(q, r, a), b)
    decreases |a|
  {
    if a == [] {
      assert a + b == b;
    } else {
      assert (a + b)[0] == a[0] && (a + b)[1..] == a[1..] + b;
      TakeAllSplits(q, Take(q, r, a[0]), a[1..], b);
    }
  }

  lemma {:induction false} TakeAfterEnd(q: Request, r: Response, s: seq<byte>)
    requires r.Valid() && !r.outcome.Running?
    ensures TakeAll(q, r, s) == r
    decreases |s|
  {
    if s == [] {
    } else {
      TakeAfterEnd(q, r, s[1..]);
    }
  }

  lemma NothingTaken(q: Request, r: Response)
    requires r.Valid()
    ensures TakeAll(q, r, []) == r
  {
  }

  lemma TakeNext(q: Request, r: Response, s: seq<byte>, k: nat)
    requires r.Valid() && k < |s|
    ensures TakeAll(q, r, s[..k + 1]) == Take(q, TakeAll(q, r, s[..k]), s[k])
  {
    assert s[..k + 1] == s[..k] + [s[k]];
    TakeAllSplits(q, r, s[..k], [s[k]]);
    assert TakeAll(q, TakeAll(q, r, s[..k]), [s[k]]) == Take(q, TakeAll(q, r, s[..k]), s[k]);
  }

  /** Where body bytes go straight through, with nothing but counters to keep. */
  predicate InData(r: Response) {
    r.outcome.Running? && r.phase.Body? && (r.mode.ToClose? || r.mode.Length? || (r.mode.Chunked? && r.chunk.ChData?))
  }

  /** A response after `data` was handed on in one piece. */
  function Handed(r: Response, data: seq<byte>): Response {
    var left := r.remaining - |data|;
    var s := r.(body := r.body + data);
    match r.mode
    case Length => s.(remaining := left, outcome := if left == 0 then Finished else r.outcome)
    case Chunked => s.(remaining := left, chunk := if left == 0 then ChDataEnd else ChData)
    case _ => s
  }

  /** A piece of the body can be handed on at once. */
  lemma {:induction false} TakeData(q: Request, r: Response, data: seq<byte>)
    requires r.Valid() && InData(r)
    requires !r.mode.ToClose? ==> |data| <= r.remaining
    ensures TakeAll(q, r, data) == if data == [] then r else Handed(r, data)
    decreases |data|
  {
    hide HeadLine, ChunkLine, AddToLine;
    if |data| == 1 {
      assert data == [data[0]];
    } else if data != [] {
      var s := Take(q, r, data[0]);
      TakeData(q, s, data[1..]);
      assert s.body + data[1..] == r.body + data;
    }
  }

  // ── The fetcher's loops ─────────────────────────────────────────────────

  function Concat(segments: seq<seq<byte>>): seq<byte> {
    if segments == [] then [] else segments[0] + Concat(segments[1..])
  }

  lemma {:induction false} ConcatSplits(segments: seq<seq<byte>>, k: nat)
    requires k <= |segments|
    ensures Concat(segments) == Concat(segments[..k]) + Concat(segments[k..])
  {
    if k > 0 {
      ConcatSplits(segments[1..], k - 1);
      assert segments[1..][..k - 1] == segments[..k][1..] && segments[1..][k - 1..] == segments[k..];
    } else {
      assert segments[..0] == [] && segments[0..] == segments;
    }
  }

  lemma ConcatNext(segments: seq<seq<byte>>, k: nat)
    requires k < |segments|
    ensures Concat(segments[..k + 1]) == Concat(segments[..k]) + segments[k]
  {
    ConcatSplits(segments[..k + 1], k);
    assert segments[..k + 1][..k] == segments[..k] && segments[..k + 1][k..] == [segments[k]];
    assert Concat([segments[k]]) == segments[k] + Concat([]);
  }

  /** A response that was over before the last byte is over without it. */
  lemma OverBeforeLast(q: Request, r: Response, data: seq<byte>, i: nat)
    requires r.Valid() && i < |data| && !TakeAll(q, r, data[..i]).outcome.Running?
    ensures !TakeAll(q, r, data[..|data| - 1]).outcome.Running?
  {
    hide TakeAll;
    var most := data[..|data| - 1];
    assert most[..i] == data[..i] && most == most[..i] + most[i..];
    TakeAllSplits(q, r, most[..i], most[i..]);
    TakeAfterEnd(q, TakeAll(q, r, most[..i]), most[i..]);
  }

  /** A response is in the middle of its body until the last of these bytes. */
  ghost predicate EndsInBody(q: Request, r: Response, data: seq<byte>)
    requires r.Valid()
  {
    data != [] && var t := TakeAll(q, r, data[..|data| - 1]); t.outcome.Running? && t.phase.Body?
  }

  lemma EndsRunning(q: Request, r: Response, data: seq<byte>)
    requires r.Valid() && data != []
    ensures EndsInBody(q, r, data) ==> TakeAll(q, r, data[..|data| - 1]).outcome.Running?
  {
  }

  /** A response that ended at the i-th byte has ended with all of them, and before the last if there are more. */
  lemma EndedAt(q: Request, r: Response, data: seq<byte>, i: nat)
    requires r.Valid() && 0 < i <= |data| && !TakeAll(q, r, data[..i]).outcome.Running?
    ensures TakeAll(q, r, data) == TakeAll(q, r, data[..i])
    ensures if i < |data| then !TakeAll(q, r, data[..|data| - 1]).outcome.Running? else data[..i - 1] == data[..|data| - 1]
  {
    hide TakeAll;
    assert data == data[..i] + data[i..];
    TakeAllSplits(q, r, data[..i], data[i..]);
    TakeAfterEnd(q, TakeAll(q, r, data[..i]), data[i..]);
    if i < |data| {
      OverBeforeLast(q, r, data, i);
    } else {
      assert data[..i] == data;
    }
  }

  /** Some chunk data taken at once, from the i-th byte on. */
  lemma DataFrom(q: Request, r: Response, data: seq<byte>, i: nat, take: nat)
    requires r.Valid() && i + take <= |data|
    requires var t := TakeAll(q, r, data[..i]);
             t.outcome.Running? && InData(t) && t.mode.Chunked? && take <= t.remaining
    ensures var t := TakeAll(q, r, data[..i]);
            TakeAll(q, r, data[..i + take])
            == t.(body := t.body + data[i..i + take], remaining := t.remaining - take,
                  chunk := if t.remaining == take then ChDataEnd else t.chunk)
  {
    hide TakeAll;
    assert data[..i + take] == data[..i] + data[i..i + take];
    TakeAllSplits(q, r, data[..i], data[i..i + take]);
    TakeData(q, TakeAll(q, r, data[..i]), data[i..i + take]);
  }

  /** A response that ended with the head's last line, at the i-th byte. */
  lemma EndedInHead(q: Request, r: Response, inHead: Response, t: Response, data: seq<byte>, i: nat)
    requires r.Valid() && t.Valid() && 0 < i <= |data|
    requires inHead == TakeAll(q, r, data[..i - 1]) && t == TakeAll(q, r, data[..i])
    requires inHead.outcome.Running? && !inHead.phase.Body? && !t.outcome.Running?
    ensures t == TakeAll(q, r, data) && !EndsInBody(q, r, data)
    ensures i == |data| ==> TakeAll(q, r, data[..|data| - 1]).outcome.Running?
  {
    hide TakeAll;
    EndedAt(q, r, data, i);
  }

  /** A response that ends in its body at the very last byte does so in the segment it ends in. */
  lemma EndsInLast(q: Request, r: Response, before: seq<byte>, segment: seq<byte>, after: seq<byte>)
    requires r.Valid() && TakeAll(q, r, before).outcome.Running? && !TakeAll(q, r, before + segment).outcome.Running?
    ensures EndsInBody(q, r, before + segment + after) ==> EndsInBody(q, TakeAll(q, r, before), segment)
  {
    hide TakeAll;
    assert segment == [] ==> before + segment == before;
    var whole := before + segment + after;
    var i := |before + segment|;
    assert whole[..i] == before + segment;
    if after != [] {
      OverBeforeLast(q, r, whole, i);
    } else {
      var most := segment[..|segment| - 1];
      assert whole[..|whole| - 1] == before + most;
      TakeAllSplits(q, r, before, most);
    }
  }

  /** The server closes the connection: whatever its framing, a body is what came of it. */
  function AfterClose(r: Response): Response {
    if r.phase.Body? then r.(connClose := true, outcome := Finished) else r.(outcome := ClosedEarly)
  }

  class Fetch {
    const q: Request
    var resp: Response
    var trailing: bool
    var sock: bool  // holds a connection
    var kept: bool  // the connection went to the keep-alive pool

    ghost predicate Valid()
      reads this
    {
      resp.Valid() && (kept ==> !sock) && (!resp.outcome.Running? ==> !sock) && (resp.outcome.Running? ==> !kept)
    }

    constructor (q: Request)
      ensures Valid() && this.q == q && resp == FRESH && !sock && !kept
    {
      this.q, resp, trailing, sock, kept := q, FRESH, false, false, false;
    }

    /** A fetch in the middle of a response, on its connection. */
    constructor Resume(q: Request, resp: Response, trailing: bool)
      requires resp.Valid() && resp.outcome.Running?
      ensures Valid() && this.q == q && this.resp == resp && this.trailing == trailing && sock && !kept
    {
      this.q, this.resp, this.trailing, sock, kept := q, resp, trailing, true, false;
    }

    /** The end of a response: the connection is kept when `reusable`, and closed otherwise. */
    method Finish(reusable: bool)
      modifies this`sock, this`kept
      ensures !sock && kept == (old(kept) || (old(sock) && reusable))
    {
      if sock && reusable {
        sock, kept := false, true;
      }
      sock := false;
    }

    method BodyDone()
      modifies this`sock, this`kept
      ensures !sock
      ensures kept == (old(kept) || (old(sock) && !resp.connClose && !trailing && !resp.mode.ToClose? && !q.proxy))
    {
      Finish(!resp.connClose && !trailing && !resp.mode.ToClose? && !q.proxy);
    }

    /** A whole line of the head has arrived. */
    method OnHeadLine(line: seq<byte>)
      requires resp.Valid() && resp.outcome.Running? && !resp.phase.Body? && !kept
      modifies this`resp, this`sock, this`kept
      ensures resp == HeadLine(q, old(resp), line)
      ensures resp.outcome.Running? ==> sock == old(sock) && !kept
      ensures !resp.outcome.Running? ==> !sock
      ensures sock == old(sock) || !sock
      ensures kept ==> line == []
      ensures kept <==> old(sock) && !trailing && !resp.connClose && !q.proxy && resp.outcome in {Finished, NotModified}
    {
      resp := HeadLine(q, resp, line);
      if resp.outcome == NotModified {
        Finish(!resp.connClose && !trailing && !q.proxy);
      } else if resp.outcome == Finished {
        BodyDone();
      } else if !resp.outcome.Running? {
        Finish(false);
      }
    }

    /**
     * Everything one receive brought. Whether more is wanted; a connection is
     * only kept when the response was complete exactly at the segment's end, and a body
     * that ended there leaves no bytes that would keep it from being kept.
     */
    method Feed(data: seq<byte>) returns (more: bool)
      requires Valid() && resp.outcome.Running? && sock
      modifies this
      ensures Valid() && more == resp.outcome.Running?
      ensures resp == TakeAll(q, old(resp), data)
      ensures more ==> sock
      ensures kept ==> data != [] && TakeAll(q, old(resp), data[..|data| - 1]).outcome.Running?
      ensures kept <==> resp.outcome in {Finished, NotModified} && !resp.connClose && !q.proxy && !trailing
      ensures resp.outcome == Finished && EndsInBody(q, old(resp), data) ==> !trailing
    {
      hide HeadLine, ChunkLine, EndsInBody;
      ghost var r := resp;
      var i := 0;
      while i < |data| && !resp.phase.Body?
        invariant 0 <= i <= |data|
        invariant Valid() && resp.outcome.Running? && sock
        invariant resp == TakeAll(q, r, data[..i])
      {
        var b := data[i];
        TakeNext(q, r, data, i);
        ghost var inHead := resp;
        i := i + 1;
        if b == LF {
          var line := resp.line;
          resp := resp.(line := []);
          if line == [] && i < |data| {
            trailing := true;  // BodyBytes decides otherwise if these belong to a body
          }
          OnHeadLine(line);
          if !resp.outcome.Running? {
            EndedInHead(q, r, inHead, resp, data, i);
            return false;
          }
        } else {
          resp := resp.(line := AddToLine(resp.line, b));
        }
      }
      assert data == data[..i] + data[i..];
      TakeAllSplits(q, r, data[..i], data[i..]);
      if i < |data| {
        ghost var mid := resp;
        more := BodyBytes(data[i..]);
        assert data[..|data| - 1] == data[..i] + data[i..][..|data| - i - 1];
        TakeAllSplits(q, r, data[..i], data[i..][..|data| - i - 1]);
        EndsRunning(q, r, data);
      } else {
        more := true;
      }
    }

    /** Transfer decoding of what is left of a segment. */
    method BodyBytes(data: seq<byte>) returns (more: bool)
      requires Valid() && resp.outcome.Running? && sock && resp.phase.Body? && data != []
      modifies this
      ensures Valid() && more == resp.outcome.Running? && (more ==> sock)
      ensures resp == TakeAll(q, old(resp), data)
      ensures kept ==> TakeAll(q, old(resp), data[..|data| - 1]).outcome.Running?
      ensures kept <==> resp.outcome == Finished && !resp.connClose && !q.proxy && !trailing
      ensures resp.outcome != NotModified
      ensures resp.outcome == Finished ==> (trailing <==> !TakeAll(q, old(resp), data[..|data| - 1]).outcome.Running?)
    {
      match resp.mode {
        case ToClose =>
          TakeData(q, resp, data);
          resp := resp.(body := resp.body + data);
          more := true;
        case Length =>
          more := LengthBytes(data);
        case Chunked =>
          more := ChunkedBytes(data);
      }
    }

    method LengthBytes(data: seq<byte>) returns (more: bool)
      requires Valid() && resp.outcome.Running? && sock && resp.phase.Body? && data != [] && resp.mode.Length?
      modifies this
      ensures Valid() && more == resp.outcome.Running? && (more ==> sock)
      ensures resp == TakeAll(q, old(resp), data)
      ensures kept ==> TakeAll(q, old(resp), data[..|data| - 1]).outcome.Running?
      ensures kept <==> resp.outcome == Finished && !resp.connClose && !q.proxy && !trailing
      ensures resp.outcome != NotModified
      ensures resp.outcome == Finished ==> (trailing <==> !TakeAll(q, old(resp), data[..|data| - 1]).outcome.Running?)
    {
      ghost var r := resp;
      var take := if |data| < resp.remaining then |data| else resp.remaining;
      TakeData(q, resp, data[..take]);
      assert data == data[..take] + data[take..];
      TakeAllSplits(q, resp, data[..take], data[take..]);
      resp := resp.(body := resp.body + data[..take], remaining := resp.remaining - take);
      if resp.remaining == 0 {
        trailing := |data| > take;
        resp := resp.(outcome := Finished);
        TakeAfterEnd(q, resp, data[take..]);
        TakeData(q, r, data[..take - 1]);
        if |data| > take {
          OverBeforeLast(q, r, data, take);
        }
        BodyDone();
        return false;
      }
      return true;
    }

    method ChunkedBytes(data: seq<byte>) returns (more: bool)
      requires Valid() && resp.outcome.Running? && sock && resp.phase.Body? && resp.mode.Chunked?
      modifies this
      ensures Valid() && more == resp.outcome.Running? && (more ==> sock)
      ensures resp == TakeAll(q, old(resp), data)
      ensures kept ==> data != [] && TakeAll(q, old(resp), data[..|data| - 1]).outcome.Running?
      ensures kept <==> resp.outcome == Finished && !resp.connClose && !q.proxy && !trailing
      ensures resp.outcome != NotModified
      ensures resp.outcome == Finished ==>
                data != [] && (trailing <==> !TakeAll(q, old(resp), data[..|data| - 1]).outcome.Running?)
    {
      hide TakeAll;
      ghost var r := resp;
      var i := 0;
      NothingTaken(q, r);
      while i < |data|
        invariant 0 <= i <= |data|
        invariant Valid() && resp.outcome.Running? && sock && resp.phase.Body? && resp.mode.Chunked?
        invariant resp == TakeAll(q, r, data[..i])
      {
        if resp.chunk.ChData? {
          var take := if |data| - i < resp.remaining then |data| - i else resp.remaining;
          DataFrom(q, r, data, i, take);
          resp := resp.(body := resp.body + data[i..i + take], remaining := resp.remaining - take);
          i := i + take;
          if resp.remaining == 0 {
            resp := resp.(chunk := ChDataEnd);
          }
          continue;
        }
        TakeNext(q, r, data, i);
        var b := data[i];
        i := i + 1;
        if b != LF {
          resp := resp.(line := AddToLine(resp.line, b));
          continue;
        }
        var line := resp.line;
        resp := ChunkLine(resp.(line := []), line);
        if !resp.outcome.Running? {
          EndedAt(q, r, data, i);
          if resp.outcome == Finished {
            trailing := |data| > i;
            BodyDone();
          } else {
            Finish(false);
          }
          return false;
        }
      }
      assert data[..i] == data;
      return true;
    }

    /** Segments in the order they are received, until the response is over. */
    method FeedSegments(segments: seq<seq<byte>>)
      requires Valid() && resp.outcome.Running? && sock
      modifies this
      ensures Valid() && resp == TakeAll(q, old(resp), Concat(segments))
      ensures (resp.outcome.Running? ==> sock) && (kept ==> !resp.connClose && !q.proxy)
      ensures resp.outcome == Finished && EndsInBody(q, old(resp), Concat(segments)) ==> kept == (!resp.connClose && !q.proxy)
    {
      hide TakeAll, EndsInBody;
      ghost var r := resp;
      NothingTaken(q, r);
      for i := 0 to |segments|
        invariant Valid() && resp.outcome.Running? && sock
        invariant resp == TakeAll(q, r, Concat(segments[..i]))
      {
        ConcatSplits(segments, i);
        ConcatSplits(segments, i + 1);
        ConcatNext(segments, i);
        TakeAllSplits(q, r, Concat(segments[..i]), segments[i]);
        var more := Feed(segments[i]);
        if !more {
          EndsInLast(q, r, Concat(segments[..i]), segments[i], Concat(segments[i + 1..]));
          TakeAllSplits(q, r, Concat(segments[..i + 1]), Concat(segments[i + 1..]));
          TakeAfterEnd(q, resp, Concat(segments[i + 1..]));
          return;
        }
      }
      assert segments[..|segments|] == segments;
    }

    /** The server closed the connection and the request is not sent again. */
    method ClosedByServer()
      requires Valid() && resp.outcome.Running? && sock
      modifies this
      ensures Valid() && !sock && !kept
      ensures resp.outcome == if old(resp).phase.Body? then Finished else ClosedEarly
      ensures resp.body == old(resp).body && resp.headers == old(resp).headers && resp == AfterClose(old(resp))
    {
      if resp.phase.Body? {
        resp := resp.(connClose := true, outcome := Finished);
        BodyDone();
      } else {
        resp := resp.(outcome := ClosedEarly);
        Finish(false);
      }
    }
  }

  /**
   * Two fetches that receive the same bytes, cut up in different ways, tell NetSurf the same header
   * lines, the same body and the same ending.
   */
  method SegmentationIrrelevant(a: Fetch, b: Fetch, one: seq<seq<byte>>, other: seq<seq<byte>>)
    requires a != b && a.Valid() && b.Valid() && a.q == b.q && a.resp == b.resp
    requires a.resp.outcome.Running? && a.sock && b.sock && Concat(one) == Concat(other)
    modifies a, b
    ensures a.Valid() && b.Valid() && a.resp == b.resp
  {
    a.FeedSegments(one);
    b.FeedSegments(other);
  }

  // ── Chunked bodies ──────────────────────────────────────────────────────

  /** A body whose size lines this parser can read: 32-bit sizes on lines it can hold. */
  predicate Fits(c: C.Chunk) {
    |c.size| <= MAX_LINE && |c.data| <= ULONG_MAX
  }

  predicate BodyFits(m: C.ChunkedBody) {
    Fits(m.last) && forall i | 0 <= i < |m.chunks| :: Fits(m.chunks[i])
  }

  predicate AtLine(r: Response, chunk: ChunkPhase) {
    r.Valid() && r.outcome.Running? && r.phase.Body? && r.mode.Chunked? && r.chunk == chunk && r.line == []
  }

  function KeptOf(line: seq<byte>, s: seq<byte>): seq<byte>
    decreases |s|
  {
    if s == [] then line else KeptOf(AddToLine(line, s[0]), s[1..])
  }

  lemma {:induction false} KeptExtends(line: seq<byte>, s: seq<byte>)
    requires |line| <= MAX_LINE
    ensures line <= KeptOf(line, s) && |KeptOf(line, s)| <= MAX_LINE
    ensures s != [] && s[0] != CR && |line| < MAX_LINE ==> |KeptOf(line, s)| > |line| && KeptOf(line, s)[|line|] == s[0]
    ensures s == [] || |line| == MAX_LINE ==> KeptOf(line, s) == line
    decreases |s|
  {
    if s == [] {
    } else {
      KeptExtends(AddToLine(line, s[0]), s[1..]);
    }
  }

  lemma {:induction false} KeptDigits(line: seq<byte>, digits: seq<byte>, rest: seq<byte>)
    requires AllHex(digits) && |line| + |digits| <= MAX_LINE
    ensures KeptOf(line, digits + rest) == KeptOf(line + digits, rest)
    decreases |digits|
  {
    if digits == [] {
      assert digits + rest == rest && line + digits == line;
    } else {
      assert (digits + rest)[1..] == digits[1..] + rest;
      KeptDigits(line + [digits[0]], digits[1..], rest);
      assert line + [digits[0]] + digits[1..] == line + digits;
    }
  }

  /** Text of a chunk's framing collects on the line. */
  lemma {:induction false} TakeText(q: Request, r: Response, s: seq<byte>)
    requires r.Valid() && r.outcome.Running? && r.phase.Body? && r.mode.Chunked? && !r.chunk.ChData?
    requires C.NoLineFeed(s)
    ensures |KeptOf(r.line, s)| <= MAX_LINE
    ensures TakeAll(q, r, s) == r.(line := KeptOf(r.line, s))
    decreases |s|
  {
    if s == [] {
    } else {
      TakeText(q, Take(q, r, s[0]), s[1..]);
    }
  }

  /** One whole line of framing. */
  lemma TakeFramingLine(q: Request, r: Response, chunk: ChunkPhase, s: seq<byte>)
    requires AtLine(r, chunk) && !chunk.ChData? && C.NoLineFeed(s)
    ensures TakeAll(q, r, s + C.CRLF) == ChunkLine(r, KeptOf([], s))
  {
    hide ChunkLine;
    TakeText(q, r, s);
    var t := r.(line := KeptOf([], s));
    TakeAllSplits(q, r, s, C.CRLF);
    assert C.CRLF[0] == CR && C.CRLF[1..] == [LF];
    assert Take(q, t, CR) == t;
    assert TakeAll(q, t, C.CRLF) == TakeAll(q, t, [LF]) == Take(q, t, LF);
    assert t.(line := []) == r;
  }

  lemma {:induction false} ExtensionHasNoLineFeed(ext: seq<byte>)
    requires C.IsExtension(ext)
    ensures C.NoLineFeed(ext)
    decreases |ext|
  {
    if ext != [] && ext[0] != SEMICOLON {
      ExtensionHasNoLineFeed(ext[1..]);
      assert forall i | 1 <= i < |ext| :: ext[i] == ext[1..][i - 1];
    }
  }

  lemma SizeHasNoLineFeed(size: seq<byte>, ext: seq<byte>)
    requires AllHex(size) && C.IsExtension(ext)
    ensures C.NoLineFeed(size + ext)
  {
    ExtensionHasNoLineFeed(ext);
  }

  lemma TakeSizeLine(q: Request, r: Response, c: C.Chunk, n: nat)
    requires AtLine(r, ChSize) && C.IsSize(c.size, n) && C.IsExtension(c.ext)
    requires |c.size| <= MAX_LINE && n <= ULONG_MAX
    ensures TakeAll(q, r, C.SizeLine(c))
         == if n == 0 then r.(chunk := ChTrailer) else r.(remaining := n, chunk := ChData)
  {
    hide TakeAll, KeptOf, HexValue, ParseHex;
    SizeHasNoLineFeed(c.size, c.ext);
    TakeFramingLine(q, r, ChSize, c.size + c.ext);
    KeptDigits([], c.size, c.ext);
    assert [] + c.size == c.size;
    KeptExtends(c.size, c.ext);
    var line := KeptOf([], c.size + c.ext);
    var rest := line[|c.size|..];
    assert line == c.size + rest;
    ParseHexReads(c.size, rest);
  }

  lemma TakeDataEnd(q: Request, r: Response)
    requires AtLine(r, ChDataEnd)
    ensures TakeAll(q, r, C.CRLF) == r.(chunk := ChSize)
  {
    TakeFramingLine(q, r, ChDataEnd, []);
    assert [] + C.CRLF == C.CRLF;
  }

  lemma TakeChunk(q: Request, r: Response, c: C.Chunk)
    requires AtLine(r, ChSize) && C.IsChunk(c) && Fits(c)
    ensures TakeAll(q, r, C.SizeLine(c) + (c.data + C.CRLF)) == r.(body := r.body + c.data, remaining := 0)
  {
    hide ChunkLine;
    var n := |c.data|;
    TakeSizeLine(q, r, c, n);
    var t := r.(remaining := n, chunk := ChData);
    TakeData(q, t, c.data);
    var u := r.(body := r.body + c.data, remaining := 0, chunk := ChDataEnd);
    assert Handed(t, c.data) == u;
    TakeDataEnd(q, u);
    TakeAllSplits(q, t, c.data, C.CRLF);
    TakeAllSplits(q, r, C.SizeLine(c), c.data + C.CRLF);
  }

  lemma FirstChunk(chunks: seq<C.Chunk>)
    requires chunks != [] && C.AreChunks(chunks)
    ensures C.IsChunk(chunks[0]) && C.AreChunks(chunks[1..])
    ensures C.EncodeChunks(chunks) == C.SizeLine(chunks[0]) + (chunks[0].data + C.CRLF) + C.EncodeChunks(chunks[1..])
    ensures C.PayloadOf(chunks) == chunks[0].data + C.PayloadOf(chunks[1..])
  {
  }

  lemma {:induction false} TakeChunks(q: Request, r: Response, chunks: seq<C.Chunk>)
    requires AtLine(r, ChSize) && C.AreChunks(chunks) && forall i | 0 <= i < |chunks| :: Fits(chunks[i])
    ensures var t := TakeAll(q, r, C.EncodeChunks(chunks));
            AtLine(t, ChSize) && t == r.(body := r.body + C.PayloadOf(chunks), remaining := t.remaining)
    decreases |chunks|
  {
    if chunks == [] {
      assert r.body + [] == r.body;
    } else {
      FirstChunk(chunks);
      hide TakeAll, Fits, C.EncodeChunks, C.PayloadOf, C.AreChunks;
      var s := r.(body := r.body + chunks[0].data, remaining := 0);
      TakeChunk(q, r, chunks[0]);
      TakeChunks(q, s, chunks[1..]);
      TakeAllSplits(q, r, C.SizeLine(chunks[0]) + (chunks[0].data + C.CRLF), C.EncodeChunks(chunks[1..]));
      assert s.body + C.PayloadOf(chunks[1..]) == r.body + C.PayloadOf(chunks);
    }
  }

  lemma {:induction false} TakeTrailers(q: Request, r: Response, lines: seq<seq<byte>>)
    requires AtLine(r, ChTrailer) && C.AreTrailerLines(lines)
    ensures TakeAll(q, r, C.EncodeTrailers(lines)) == r
    decreases |lines|
  {
    if lines == [] {
    } else {
      TakeFramingLine(q, r, ChTrailer, lines[0]);
      KeptExtends([], lines[0]);
      TakeTrailers(q, r, lines[1..]);
      TakeAllSplits(q, r, lines[0] + C.CRLF, C.EncodeTrailers(lines[1..]));
    }
  }

  lemma TakeLastLine(q: Request, r: Response)
    requires AtLine(r, ChTrailer)
    ensures TakeAll(q, r, [CR]) == r
    ensures TakeAll(q, r, [LF]) == r.(outcome := Finished)
  {
    assert TakeAll(q, r, [CR]) == Take(q, r, CR);
    assert TakeAll(q, r, [LF]) == Take(q, r, LF);
  }

  /**
   * On a well-formed chunked body the parser hands on the payload and finishes
   * at the body's last byte: the same payload as the range stream's decoder.
   */
  lemma ChunkedBodyDelivered(q: Request, r: Response, m: C.ChunkedBody, after: seq<byte>)
    requires AtLine(r, ChSize) && C.IsChunkedBody(m) && BodyFits(m)
    ensures TakeAll(q, r, C.EncodeButLast(m)).outcome.Running?
    ensures TakeAll(q, r, C.Encode(m)).outcome == Finished
    ensures TakeAll(q, r, C.Encode(m) + after).body == r.body + C.PayloadOf(m.chunks)
    ensures TakeAll(q, r, C.Encode(m) + after).body == r.body + C.Run(C.START, C.Encode(m) + after).payload
  {
    hide ChunkLine;
    var chunks, last, trailers := C.EncodeChunks(m.chunks), C.SizeLine(m.last), C.EncodeTrailers(m.trailers);
    TakeChunks(q, r, m.chunks);
    var s := TakeAll(q, r, chunks);
    TakeSizeLine(q, s, m.last, 0);
    var t := s.(chunk := ChTrailer);
    TakeTrailers(q, t, m.trailers);
    TakeAllSplits(q, r, chunks, last);
    TakeAllSplits(q, r, chunks + last, trailers);
    TakeLastLine(q, t);
    TakeAllSplits(q, r, chunks + last + trailers, [CR]);
    TakeAllSplits(q, r, C.EncodeButLast(m), [LF]);
    TakeAllSplits(q, r, C.Encode(m), after);
    TakeAfterEnd(q, TakeAll(q, r, C.Encode(m)), after);
    C.DecodeInvertsEncode(m, after);
  }
}
