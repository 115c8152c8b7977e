/**
 * The video player's HTTP range stream: a resource read at any offset through a
 * ring that caches what was received, over connections that come and go.
 *
 * The world outside is part of the state: `resource` is what every server
 * answer carries a piece of, `wire` is what the peer of the open connection
 * will still deliver, `stalls` how often it will keep us waiting, `flagPolls` how
 * often the abort flag still reads zero. Answers, segmentation, time-outs and
 * failures are arbitrary choices.
 */
module RangeStream {
  import opened Basics
  import opened ChunkedCoding

  const RING_BYTES := 4 * 1024 * 1024
  const KEEP_BEHIND := 512 * 1024
  const FILL_CHUNK := 64 * 1024
  const SKIP_TCP := 256 * 1024
  const SKIP_TLS := 1024 * 1024
  const PREFETCH_MAX := 256 * 1024
  const RAW_BYTES := 16384

  /** What comes back for a range request, redirects having been followed. */
  datatype Answer =
    | NoAnswer
    | Answer(status: int, rangeStart: int, rangeTotal: int, chunked: bool, length: int,
             received: seq<byte>, wire: seq<byte>)

  /** The bytes of a body that is `s` on the wire: `left` is its Content-Length, negative if none. */
  function BodyBytes(chunked: bool, d: Decoder, left: int, s: seq<byte>): seq<byte>
    requires d.Valid()
  {
    if chunked then Run(d, s).payload
    else if left >= 0 then s[..Min(left, |s|)]
    else s
  }

  /** Bytes that are the resource's at the offset, or none at all. */
  predicate IsPieceOf(resource: seq<byte>, at: int, bytes: seq<byte>) {
    bytes == [] || (0 <= at && at + |bytes| <= |resource| && bytes == resource[at..at + |bytes|])
  }

  lemma RawSplits(raw: array<byte>, lo: nat, mid: nat, hi: nat, wire: seq<byte>)
    requires lo <= mid <= hi <= raw.Length
    ensures (raw[lo..hi] + wire)[..mid - lo] == raw[lo..mid]
    ensures (raw[lo..hi] + wire)[mid - lo..] == raw[mid..hi] + wire
  {
  }

  lemma PieceSplits(resource: seq<byte>, at: int, a: seq<byte>, b: seq<byte>)
    requires a + b == [] || IsPieceOf(resource, at, a + b)
    ensures IsPieceOf(resource, at, a) && IsPieceOf(resource, at + |a|, b)
  {
    assert a == (a + b)[..|a|] && b == (a + b)[|a|..];
  }

  /** The body of an answer, as far as the peer sends it. */
  function BodyOf(a: Answer): seq<byte>
    requires a.Answer?
  {
    BodyBytes(a.chunked, START, if a.chunked then -1 else a.length, a.received + a.wire)
  }

  /**
   * Servers are only trusted to send the resource's bytes: from its start with a 200, and with a
   * 206 from the offset the answer names or, if it names none, from the one it was asked for.
   */
  predicate IsHonest(resource: seq<byte>, a: Answer, from: nat) {
    a.Answer? ==>
      && |a.received| <= RAW_BYTES
      && (a.status == 200 ==> IsPieceOf(resource, 0, BodyOf(a)))
      && (a.status == 206 && a.rangeStart >= 0 ==> IsPieceOf(resource, a.rangeStart, BodyOf(a)))
      && (a.status == 206 && a.rangeStart < 0 ==> IsPieceOf(resource, from, BodyOf(a)))
  }

  /** What servers of a stream that calls them faithful answer: the rest of the resource, or that there is none. */
  predicate IsFaithful(resource: seq<byte>, a: Answer, from: nat) {
    a.Answer? && if from >= |resource| then a.status == 416 else
      a.status == 206 && a.rangeStart == from && a.rangeTotal == |resource| && BodyOf(a) == resource[from..]
  }

  lemma FaithfulAnswers(resource: seq<byte>, from: nat) returns (a: Answer)
    ensures IsFaithful(resource, a, from) && IsHonest(resource, a, from)
  {
    if from >= |resource| {
      a := Answer(416, -1, -1, false, 0, [], []);
    } else {
      a := Answer(206, from, |resource|, false, |resource| - from, [], resource[from..]);
      assert a.received + a.wire == resource[from..];
    }
  }

  ghost predicate IsChunked(m: ChunkedBody, after: seq<byte>, sent: seq<byte>, body: seq<byte>) {
    IsChunkedBody(m) && sent <= Encode(m) + after && body == PayloadOf(m.chunks)
  }

  /**
   * The bytes on the wire are a body in the framing an answer announces: chunks, as many bytes as it
   * says, or all there is until the close. They may break off early, and otherwise anything may follow.
   */
  ghost predicate IsFramed(a: Answer, body: seq<byte>) {
    a.Answer? && var sent := a.received + a.wire;
    if a.chunked then exists m: ChunkedBody, after: seq<byte> :: IsChunked(m, after, sent, body)
    else if a.length >= 0 then (sent == body && |body| <= a.length) || (body <= sent && |body| == a.length)
    else sent == body
  }

  /** However a body that is a piece of the resource is framed, what is read of it is such a piece. */
  lemma FramedIsHonest(resource: seq<byte>, a: Answer, at: nat, body: seq<byte>)
    requires a.Answer? && IsFramed(a, body) && IsPieceOf(resource, at, body)
    ensures BodyOf(a) <= body && IsPieceOf(resource, at, BodyOf(a))
  {
    var sent := a.received + a.wire;
    if a.chunked {
      var m, after :| IsChunked(m, after, sent, body);
      var all := Encode(m) + after;
      DecodeInvertsEncode(m, after);
      RunSplits(START, sent, all[|sent|..]);
      assert all == sent + all[|sent|..];
    }
    assert body == BodyOf(a) + body[|BodyOf(a)|..];
    PieceSplits(resource, at, BodyOf(a), body[|BodyOf(a)|..]);
  }

  /** And all of it is read, if it was all sent. */
  lemma FramedIsRead(a: Answer, body: seq<byte>)
    requires a.Answer? && (a.chunked ==> exists m, after: seq<byte> ::
               IsChunkedBody(m) && a.received + a.wire == Encode(m) + after && body == PayloadOf(m.chunks))
    requires !a.chunked && a.length >= 0 ==> body <= a.received + a.wire && |body| == a.length
    requires !a.chunked && a.length < 0 ==> body == a.received + a.wire
    ensures BodyOf(a) == body
  {
    if a.chunked {
      var m, after: seq<byte> :|
        IsChunkedBody(m) && a.received + a.wire == Encode(m) + after && body == PayloadOf(m.chunks);
      DecodeInvertsEncode(m, after);
    }
  }

  /** The offset an answer's first byte is at. */
  predicate IsLabel(a: Answer, from: nat, at: nat)
    requires a.Answer?
  {
    && (a.status == 200 ==> at == 0)
    && (a.status == 206 ==> at == if a.rangeStart >= 0 then a.rangeStart else from)
    && (a.status == 416 ==> at == from)
  }

  /** The size of the resource after an answer, known from before as `size` (negative if not). */
  function SizeTold(a: Answer, from: nat, size: int): int
    requires a.Answer?
  {
    if a.status == 206 && a.rangeTotal >= 0 then a.rangeTotal
    else if a.status == 200 && !a.chunked && a.length >= 0 then a.length
    else if a.status == 416 && size < 0 then from
    else size
  }

  /** If what an answer tells of the size is true, what is known afterwards is, or is past the end. */
  lemma SizeToldIsTrue(resource: seq<byte>, a: Answer, from: nat, size: int)
    requires a.Answer? && (size < 0 || size >= |resource|)
    requires a.status == 206 && a.rangeTotal >= 0 ==> a.rangeTotal == |resource|
    requires a.status == 200 && a.length >= 0 ==> a.length == |resource|
    requires a.status == 416 ==> from >= |resource|
    ensures SizeTold(a, from, size) < 0 || SizeTold(a, from, size) >= |resource|
    ensures a.status == 206 && a.rangeTotal >= 0 ==> SizeTold(a, from, size) == |resource|
    ensures a.status == 200 && !a.chunked && a.length >= 0 ==> SizeTold(a, from, size) == |resource|
    ensures a.status == 416 ==> SizeTold(a, from, size) >= |resource|
  {
  }

  /** What is left of a body once `take` of its bytes, which come next on the wire, are taken. */
  lemma BodyTake(chunked: bool, d: Decoder, left: int, s: seq<byte>, take: nat)
    requires d.Valid() && 0 < take <= |s|
    requires if chunked then d.state.Data? && !d.eof && take <= d.left else left < 0 || take <= left
    ensures BodyBytes(chunked, d, left, s)
         == s[..take] + BodyBytes(chunked, if chunked then Taken(d.left, take) else d,
                                  if left > 0 then left - take else left, s[take..])
  {
    if chunked {
      RunTake(d.left, s, take);
    } else {
      assert s == s[..take] + s[take..];
    }
  }

  /** Where an offset of the resource is kept in the ring. */
  function Slot(o: nat): (s: nat)
    ensures s < RING_BYTES
  {
    o % RING_BYTES
  }

  lemma SlotsDiffer(o: nat, p: nat)
    requires o < p < o + RING_BYTES
    ensures Slot(o) != Slot(p)
  {
  }

  lemma SlotAfter(o: nat, k: nat)
    requires Slot(o) + k < RING_BYTES
    ensures Slot(o + k) == Slot(o) + k
  {
  }

  lemma SlotWraps(o: nat, k: nat)
    requires k < RING_BYTES
    ensures Slot(o + k) == if Slot(o) + k < RING_BYTES then Slot(o) + k else Slot(o) + k - RING_BYTES
  {
  }

  ghost predicate Holds(ring: seq<byte>, resource: seq<byte>, start: nat, end: nat)
    requires |ring| == RING_BYTES
  {
    && (start < end ==> end <= |resource|)
    && forall o: nat | start <= o < end :: ring[Slot(o)] == resource[o]
  }

  /** Bytes written at the ring's end replace only offsets that leave the ring. */
  lemma RingTakes(before: seq<byte>, after: seq<byte>, resource: seq<byte>, start: nat, end: nat, bytes: seq<byte>,
                  newStart: nat)
    requires |before| == |after| == RING_BYTES && bytes != []
    requires Slot(end) + |bytes| <= RING_BYTES && start <= end
    requires start <= newStart && end + |bytes| - RING_BYTES <= newStart
    requires Holds(before, resource, start, end) && IsPieceOf(resource, end, bytes)
    requires after[Slot(end)..Slot(end) + |bytes|] == bytes
    requires forall i | 0 <= i < RING_BYTES && !(Slot(end) <= i < Slot(end) + |bytes|) :: after[i] == before[i]
    ensures Holds(after, resource, newStart, end + |bytes|)
  {
    hide Slot;
    var at := Slot(end);
    forall o: nat | newStart <= o < end + |bytes|
      ensures after[Slot(o)] == resource[o]
    {
      if o < end {
        if at <= Slot(o) < at + |bytes| {
          SlotAfter(end, Slot(o) - at);
          SlotsDiffer(o, end + (Slot(o) - at));
        }
      } else {
        SlotAfter(end, o - end);
        assert after[at..at + |bytes|][o - end] == bytes[o - end];
      }
    }
  }

  /** Two copies, up to the ring's edge and from its start, give the bytes at an offset. */
  lemma RingPiece(ring: seq<byte>, resource: seq<byte>, start: nat, end: nat, pos: nat, out: seq<byte>)
    requires |ring| == RING_BYTES && Holds(ring, resource, start, end)
    requires start <= pos && pos + |out| <= end <= start + RING_BYTES
    requires forall i | 0 <= i < |out| ::
               out[i] == ring[if Slot(pos) + i < RING_BYTES then Slot(pos) + i else Slot(pos) + i - RING_BYTES]
    ensures out != [] ==> pos + |out| <= |resource| && out == resource[pos..pos + |out|]
  {
    hide Slot;
    forall i | 0 <= i < |out|
      ensures out[i] == resource[pos + i]
    {
      SlotWraps(pos, i);
    }
  }

  lemma EmptyRing(ring: seq<byte>, resource: seq<byte>, at: nat)
    requires |ring| == RING_BYTES
    ensures Holds(ring, resource, at, at)
  {
  }

  /** What the demuxer may ask of the stream, and what a read gave it. */
  datatype Op = ReadOp(want: nat) | SeekOp(to: int) | PrefetchOp

  /** Where it was asked, what it answered, and the bytes it gave. */
  datatype Got = Got(at: nat, r: int, bytes: seq<byte>)

  /** What an operation may answer at its position, and the position after it. */
  predicate Answers(op: Op, g: Got, next: nat) {
    match op
    case ReadOp(want) => -1 <= g.r <= want && |g.bytes| == Max(g.r, 0) && next == g.at + |g.bytes|
    case SeekOp(to) => g.bytes == [] && ((g.r == 0 && next == to) || (g.r == -1 && next == g.at))
    case PrefetchOp => g.bytes == [] && next == g.at
  }

  /** A read gives something wherever the resource has something, and says so where it has ended. */
  predicate Delivers(resource: seq<byte>, op: Op, g: Got) {
    op.ReadOp? && op.want > 0 ==> if g.at < |resource| then g.r > 0 else g.r == 0
  }

  /** Where operation i was asked, or where it all ended. */
  function AskedAt(got: seq<Got>, i: nat, end: nat): nat {
    if i < |got| then got[i].at else end
  }

  /** What a run of operations did: each at the position the one before left, and all bytes the resource's. */
  ghost predicate IsTrace(resource: seq<byte>, ops: seq<Op>, got: seq<Got>, start: nat, end: nat) {
    && |got| == |ops| && AskedAt(got, 0, end) == start
    && forall i: nat | i < |ops| ::
         IsPieceOf(resource, got[i].at, got[i].bytes) && Answers(ops[i], got[i], AskedAt(got, i + 1, end))
  }

  lemma NoTrace(resource: seq<byte>, start: nat)
    ensures IsTrace(resource, [], [], start, start)
  {
  }

  lemma TraceNext(resource: seq<byte>, ops: seq<Op>, got: seq<Got>, start: nat, g: Got, op: Op, end: nat)
    requires IsTrace(resource, ops, got, start, g.at)
    requires IsPieceOf(resource, g.at, g.bytes) && Answers(op, g, end)
    ensures IsTrace(resource, ops + [op], got + [g], start, end)
  {
    hide IsPieceOf, Answers;
    assert forall i: nat | i < |ops| :: (got + [g])[i] == got[i];
  }

  class Stream {
    const resource: seq<byte>
    const faithful: bool     // servers answer every request with the rest of the resource (if not, with anything honest)
    const smooth: bool       // the transport neither fails nor stays silent for too long (if not, it may at any time)
    var wire: seq<byte>
    var stalls: nat          // how often a smooth one will still have nothing ready when it is asked
    var flagPolls: nat
    ghost var breaks: nat    // how often it has failed, or been silent for too long

    var pos: nat
    var size: int
    var tls: bool
    var seekable: bool
    var h: int
    var connPos: nat
    var connEof: bool
    var bodyLeft: int
    var chunked: bool
    var chunkState: ChunkState
    var chunkLeft: nat
    const ring: array<byte>
    var ringStart: nat
    var ringEnd: nat
    const raw: array<byte>
    var rawOff: nat
    var rawLen: nat

    /** The body the open connection will still yield. */
    ghost function Body(): seq<byte>
      requires BuffersValid()
      reads this`wire, this`h, this`connEof, this`chunked, this`bodyLeft
      reads this`chunkState, this`chunkLeft, this`rawOff, this`rawLen, raw
    {
      if h < 0 || connEof then []
      else BodyBytes(chunked, Dec(), bodyLeft, raw[rawOff..rawLen] + wire)
    }

    ghost function Dec(): Decoder
      reads this`chunkState, this`chunkLeft
    {
      Decoder(chunkState, chunkLeft, false)
    }

    ghost predicate BuffersValid()
      reads this`chunkState, this`chunkLeft, this`rawOff, this`rawLen
    {
      && ring.Length == RING_BYTES
      && raw.Length == RAW_BYTES
      && ring != raw
      && rawOff <= rawLen <= RAW_BYTES
      && Dec().Valid()
    }

    /** The ring holds the resource's bytes for the offsets it claims. */
    ghost predicate RingAgrees()
      requires ring.Length == RING_BYTES
      reads this`ringStart, this`ringEnd, ring
    {
      ringStart <= ringEnd <= ringStart + RING_BYTES && Holds(ring[..], resource, ringStart, ringEnd)
    }

    /** All of the invariant that holds even between a new answer and the ring's reset. */
    ghost predicate Core()
      reads this`wire, this`h, this`connPos, this`connEof, this`chunked, this`bodyLeft, this`chunkState, this`chunkLeft
      reads this`rawOff, this`rawLen, this`ringStart, this`ringEnd, raw, ring
      ensures Core() ==> BuffersValid() && ringStart <= ringEnd <= ringStart + RING_BYTES
    {
      BuffersValid() && RingAgrees() && IsPieceOf(resource, connPos, Body())
    }

    ghost predicate Live()
      reads this`h, this`connEof
    {
      h >= 0 && !connEof
    }

    /** Body bytes of the open connection have been received and not handed out. */
    ghost predicate DataWaits()
      reads this`h, this`connEof, this`chunked, this`chunkState, this`bodyLeft, this`rawOff, this`rawLen
    {
      Live() && rawOff < rawLen && if chunked then chunkState == Data else bodyLeft != 0
    }

    /** A live connection continues the ring, or the size has been cut off at the ring's end. */
    ghost predicate Synced()
      reads this
    {
      Live() ==> connPos == ringEnd || size == ringEnd
    }

    ghost predicate Valid()
      reads this, raw, ring
    {
      Core() && Synced()
    }

    /** With faithful servers a live connection goes on to the resource's end, whose size is then known. */
    ghost predicate Whole()
      requires BuffersValid()
      reads this, raw
    {
      faithful ==>
        && (Live() ==> connPos == ringEnd && size == |resource| && connPos + |Body()| == |resource|)
        && (size < 0 || size >= |resource|) && (seekable ==> size == |resource|) && (seekable || ringStart <= pos)
    }

    constructor (resource: seq<byte>, faithful: bool, smooth: bool, stalls: nat, tls: bool, flagPolls: nat)
      ensures Valid() && Whole() && fresh(ring) && fresh(raw)
      ensures this.resource == resource && this.faithful == faithful && this.smooth == smooth
      ensures this.stalls == stalls && this.flagPolls == flagPolls && pos == 0 && h < 0
    {
      this.resource, this.faithful, this.smooth := resource, faithful, smooth;
      this.wire, this.stalls, this.flagPolls, this.breaks := [], stalls, flagPolls, 0;
      this.pos, this.size, this.tls, this.seekable := 0, -1, tls, false;
      this.h, this.connPos, this.connEof, this.bodyLeft := -1, 0, false, 0;
      this.chunked, this.chunkState, this.chunkLeft := false, Size, 0;
      this.ring := new byte[RING_BYTES];
      this.raw := new byte[RAW_BYTES];
      this.ringStart, this.ringEnd, this.rawOff, this.rawLen := 0, 0, 0, 0;
    }

    /** Whether the abort flag is set; once set it stays set. */
    method Aborted() returns (raised: bool)
      modifies this`flagPolls
      ensures raised == (old(flagPolls) == 0)
      ensures raised ==> flagPolls == old(flagPolls)
      ensures !raised ==> flagPolls == old(flagPolls) - 1
    {
      raised := flagPolls == 0;
      if !raised {
        flagPolls := flagPolls - 1;
      }
    }

    /** The transport does not fail, and its pauses are over before the abort flag is set. */
    predicate Patient()
      reads this`stalls, this`flagPolls
    {
      smooth && Slack() >= 0
    }

    /** How often the abort flag will still be found clear when nothing is waited for. */
    function Slack(): int
      reads this`stalls, this`flagPolls
    {
      flagPolls - stalls
    }

    /** What the transport may answer. */
    predicate MayReceive(n: int)
      reads this`wire, this`stalls
    {
      && -2 <= n <= RAW_BYTES && n <= |wire| && (n == -1 ==> wire == [])
      && (smooth ==> n != -2 && (n == 0 ==> stalls > 0))
    }

    /** More than 0: bytes received; 0: none yet; -1: the peer closed; -2: failed. */
    method Receive() returns (n: int)
      requires raw.Length == RAW_BYTES
      modifies this`wire, this`stalls, this`breaks, raw
      ensures -2 <= n <= RAW_BYTES
      ensures n > 0 ==> raw[..n] + wire == old(wire)
      ensures n <= 0 ==> wire == old(wire) && raw[..] == old(raw[..])
      ensures n == -1 ==> wire == []
      ensures smooth ==> n != -2 && stalls == old(stalls) - (if n == 0 then 1 else 0)
      ensures breaks == old(breaks) + if n == -2 then 1 else 0
    {
      assert MayReceive(if wire == [] then -1 else 1);
      var answer: int :| MayReceive(answer);
      assert MayReceive(answer);
      n := answer;
      if n > 0 {
        Arrive(n);
      } else if n == 0 && stalls > 0 {
        stalls := stalls - 1;
      }
      breaks := breaks + if n == -2 then 1 else 0;
    }

    /** Whether nothing has arrived for too long. */
    method SilentTooLong() returns (late: bool)
      modifies this`breaks
      ensures (smooth ==> !late) && breaks == old(breaks) + if late then 1 else 0
    {
      late := *;
      late := late && !smooth;
      breaks := breaks + if late then 1 else 0;
    }

    /** The next n bytes that the peer sent. */
    method Arrive(n: nat)
      requires raw.Length == RAW_BYTES && n <= RAW_BYTES && n <= |wire|
      modifies this`wire, raw
      ensures raw[..n] + wire == old(wire)
    {
      forall i | 0 <= i < n {
        raw[i] := wire[i];
      }
      assert raw[..n] == wire[..n];
      wire := wire[n..];
    }

    /**
     * Up to `max` body bytes into dst: more than 0: how many; 0: none ready (or none
     * wanted); -1: the body is over; -2: failed. However the transport segments
     * the body, what is handed out is exactly its next bytes, and the end is
     * only reported when nothing of the body is left.
     */
    method BodyRead(dst: array<byte>, at: nat, max: int, wait: bool) returns (n: int)
      requires BuffersValid() && dst != raw && at + max <= dst.Length
      modifies this`wire, this`stalls, this`breaks, this`flagPolls, this`connPos, this`connEof, this`bodyLeft,
               this`chunkState, this`chunkLeft, this`rawOff, this`rawLen, raw, dst
      ensures BuffersValid()
      ensures -2 <= n <= Max(max, 0) && flagPolls <= old(flagPolls)
      ensures n > 0 ==> old(Body()) == dst[at..at + n] + Body() && connPos == old(connPos) + n && Live()
      ensures n <= 0 ==> connPos == old(connPos)
      ensures n == 0 ==> Body() == old(Body()) && (wait ==> max <= 0) && Live() == old(Live())
      ensures n == -1 ==> old(Body()) == [] && Body() == []
      ensures n == -2 ==> Body() == [] || Body() == old(Body())
      ensures n == -1 ==> h < 0 || connEof
      ensures n == -2 || (n == 0 && max > 0) ==> rawOff == rawLen
      ensures max > 0 && old(DataWaits()) ==> n > 0
      ensures if n == -2 then breaks > old(breaks) || flagPolls == 0 else breaks == old(breaks)
      ensures (old(Patient()) ==> n != -2) && (smooth ==> Slack() >= old(Slack()))
      ensures Live() ==> old(Live())
      ensures forall i | 0 <= i < dst.Length && !(at <= i < at + n) :: dst[i] == old(dst[i])
    {
      hide Stream.Body, BodyBytes, Run, Step;
      ghost var body := Body();
      while max > 0
        invariant BuffersValid() && Body() == body
        invariant connPos == old(connPos) && flagPolls <= old(flagPolls)
        invariant Live() ==> old(Live())
        invariant old(DataWaits()) ==> DataWaits()
        invariant breaks == old(breaks) && (max <= 0 ==> connEof == old(connEof))
        invariant smooth ==> Slack() >= old(Slack())
        invariant unchanged(dst)
        decreases flagPolls, |wire| + rawLen - rawOff
      {
        var ended := Ended();
        if ended {
          return -1;
        }
        if rawOff == rawLen {
          var got := Refill(wait);
          if got < 0 {
            return got;
          }
          if got == 0 {
            if !wait {
              return 0;
            }
            continue;
          }
        }
        if chunked && chunkState != Data {
          var over := TakeFraming();
          if over {
            return -1;
          }
          continue;
        }
        n := Deliver(dst, at, max);
        return;
      }
      return 0;
    }

    /** Nothing of the body is left, as far as can be told without receiving. */
    method Ended() returns (ended: bool)
      requires BuffersValid()
      modifies this`connEof
      ensures BuffersValid() && Body() == old(Body())
      ensures ended ==> Body() == [] && !Live() && !old(DataWaits())
      ensures !ended ==> Live() && connEof == old(connEof) && (chunked || bodyLeft != 0)
    {
      hide Run, Step;
      if connEof || h < 0 {
        return true;
      }
      if !chunked && bodyLeft == 0 {
        connEof := true;
        return true;
      }
      return false;
    }

    /**
     * Receives into the empty raw buffer: more than 0 when it holds something now, 0 to try
     * again (or, not waiting, later), -1 at a close by the peer, -2 on failure.
     */
    method Refill(wait: bool) returns (got: int)
      requires BuffersValid() && Live() && rawOff == rawLen
      modifies this`wire, this`stalls, this`breaks, this`flagPolls, this`connEof, this`rawOff, this`rawLen, raw
      ensures BuffersValid() && flagPolls <= old(flagPolls) && got >= -2
      ensures got > 0 ==> rawOff < rawLen && |wire| + rawLen - rawOff == |old(wire)|
      ensures got == 0 ==> rawOff == rawLen && (wait ==> flagPolls < old(flagPolls))
      ensures got >= 0 ==> Live() && Body() == old(Body())
      ensures got == -1 ==> old(Body()) == []
      ensures got < 0 ==> Body() == [] || Body() == old(Body())
      ensures got == -1 ==> connEof
      ensures got == -2 ==> rawOff == rawLen
      ensures if got == -2 then breaks > old(breaks) || flagPolls == 0 else breaks == old(breaks)
      ensures (old(Patient()) ==> got != -2) && (smooth ==> Slack() >= old(Slack()))
    {
      assert raw[rawOff..rawLen] + wire == wire;
      got := Receive();
      if got > 0 {
        rawOff, rawLen := 0, got;
        assert raw[rawOff..rawLen] + wire == old(wire);
        return;
      }
      assert raw[rawOff..rawLen] + wire == wire;
      if got < 0 {
        connEof := true;
        return;
      }
      if wait {
        var quit := Aborted();
        if quit {
          return -2;
        }
        var late := SilentTooLong();
        if late {
          return -2;
        }
      }
    }

    /** Body bytes that have arrived, into dst. */
    method Deliver(dst: array<byte>, at: nat, max: int) returns (n: int)
      requires BuffersValid() && Live() && max > 0 && dst != raw && at + max <= dst.Length
      requires rawOff < rawLen && if chunked then chunkState == Data else bodyLeft != 0
      modifies this`connPos, this`bodyLeft, this`chunkState, this`chunkLeft, this`rawOff, dst
      ensures BuffersValid() && 0 < n <= max
      ensures old(Body()) == dst[at..at + n] + Body() && connPos == old(connPos) + n
      ensures forall i | 0 <= i < dst.Length && !(at <= i < at + n) :: dst[i] == old(dst[i])
    {
      hide BodyBytes;
      if chunked {
        n := TakeChunkData(max);
      } else {
        n := TakePlain(max);
      }
      CopyOut(dst, at, rawOff - n, n);
    }

    /** Takes body bytes of an answer that is not chunked from the raw buffer. */
    method TakePlain(max: int) returns (take: int)
      requires BuffersValid() && Live() && max > 0
      requires !chunked && bodyLeft != 0 && rawOff < rawLen
      modifies this`connPos, this`bodyLeft, this`rawOff
      ensures BuffersValid() && 0 < take <= max
      ensures rawOff == old(rawOff) + take && connPos == old(connPos) + take
      ensures old(Body()) == raw[rawOff - take..rawOff] + Body()
    {
      hide BodyBytes;
      ghost var pending, left := raw[rawOff..rawLen] + wire, bodyLeft;
      var avail := rawLen - rawOff;
      take := Min(avail, max);
      if bodyLeft >= 0 && take > bodyLeft {
        take := bodyLeft;
      }
      RawSplits(raw, rawOff, rawOff + take, rawLen, wire);
      rawOff, connPos := rawOff + take, connPos + take;
      if bodyLeft > 0 {
        bodyLeft := bodyLeft - take;
      }
      BodyTake(false, Dec(), left, pending, take);
    }

    /** Takes data bytes of the current chunk from the raw buffer. */
    method TakeChunkData(max: int) returns (take: int)
      requires BuffersValid() && Live() && max > 0
      requires chunked && chunkState == Data && rawOff < rawLen
      modifies this`connPos, this`chunkState, this`chunkLeft, this`rawOff
      ensures BuffersValid() && 0 < take <= max
      ensures rawOff == old(rawOff) + take && connPos == old(connPos) + take
      ensures old(Body()) == raw[rawOff - take..rawOff] + Body()
    {
      hide Run, Step;
      ghost var pending := raw[rawOff..rawLen] + wire;
      ghost var d := Dec();
      var avail := rawLen - rawOff;
      take := Min(avail, max);
      if take > chunkLeft {
        take := chunkLeft;
      }
      RawSplits(raw, rawOff, rawOff + take, rawLen, wire);
      rawOff, connPos := rawOff + take, connPos + take;
      chunkLeft := chunkLeft - take;
      if chunkLeft == 0 {
        chunkState := DataEnd;
      }
      BodyTake(true, d, bodyLeft, pending, take);
      assert Dec() == Taken(d.left, take);
    }

    /** One byte of chunk framing; whether it was the body's last. */
    method TakeFraming() returns (over: bool)
      requires BuffersValid() && Live() && chunked && chunkState != Data && rawOff < rawLen
      modifies this`connEof, this`chunkState, this`chunkLeft, this`rawOff
      ensures BuffersValid() && rawOff == old(rawOff) + 1
      ensures Body() == old(Body()) && connEof == over
      ensures over ==> Body() == []
    {
      ghost var pending := raw[rawOff..rawLen] + wire;
      hide Run;
      ghost var d := Dec();
      RunOne(d, pending);
      var c := raw[rawOff];
      rawOff := rawOff + 1;
      assert pending[0] == c && pending[1..] == raw[rawOff..rawLen] + wire;
      over := false;
      match chunkState {
        case Size =>
          if IsHexDigit(c) {
            chunkLeft := chunkLeft * 16 + HexDigitValue(c);
          } else if c == SEMICOLON {
            chunkState := Ext;
          } else if c == LF {
            chunkState := if chunkLeft > 0 then Data else Trailer;
          }
        case Ext =>
          if c == LF {
            chunkState := if chunkLeft > 0 then Data else Trailer;
          }
        case DataEnd =>
          if c == LF {
            chunkState, chunkLeft := Size, 0;
          }
        case Trailer =>
          if c == LF {
            connEof, over := true, true;  // the empty line after the last chunk
            RunAfterEnd(Step(d, c).dec, pending[1..]);
          } else if c != CR {
            chunkState := TrailerLine;
          }
        case TrailerLine =>
          if c == LF {
            chunkState := Trailer;
          }
      }
    }

    /**
     * Reads of any sizes, however the transport segments the body: what they hand out is the body's
     * bytes in order. More reads than there are bytes, if none asks for nothing and none fails,
     * hand out all of them and then report the end. One fails only if the transport does, is
     * silent for too long, or the abort flag is set; so none does on a transport that only pauses,
     * as long as the flag is not set meanwhile.
     */
    method ReadBody(sizes: seq<nat>) returns (bytes: seq<byte>, over: bool, failed: bool)
      requires BuffersValid()
      modifies this`wire, this`stalls, this`breaks, this`flagPolls, this`connPos, this`connEof, this`bodyLeft,
               this`chunkState, this`chunkLeft, this`rawOff, this`rawLen, raw
      ensures BuffersValid() && bytes <= old(Body()) && (over ==> bytes == old(Body()) && !failed)
      ensures !failed && !over ==> old(Body()) == bytes + Body()
      ensures (forall i | 0 <= i < |sizes| :: sizes[i] > 0) && |sizes| > |old(Body())| && !failed ==> over
      ensures if failed then breaks > old(breaks) || flagPolls == 0 else breaks == old(breaks)
      ensures old(Patient()) ==> !failed
    {
      hide Stream.Body, Stream.BuffersValid, Stream.Slack;
      ghost var body := Body();
      bytes, over, failed := [], false, false;
      for i := 0 to |sizes|
        invariant BuffersValid() && body == bytes + Body()
        invariant breaks == old(breaks)
        invariant smooth ==> Slack() >= old(Slack())
        invariant (forall j | 0 <= j < |sizes| :: sizes[j] > 0) ==> |bytes| >= i
      {
        var dst := new byte[sizes[i]];
        var n := BodyRead(dst, 0, sizes[i], true);
        if n == -1 {
          return bytes, true, false;
        }
        if n == -2 {
          return bytes, false, true;
        }
        ghost var rest := Body();
        assert body == (bytes + dst[..n]) + rest;
        bytes := bytes + dst[..n];
      }
    }

    /**
     * On a well-formed chunked body that is all the peer sends, or that anything follows, such reads
     * hand out the payload and nothing else, and report the end when all of it was.
     */
    method ReadChunkedBody(ghost m: ChunkedBody, ghost after: seq<byte>, sizes: seq<nat>)
      returns (bytes: seq<byte>, over: bool, failed: bool)
      requires BuffersValid() && h >= 0 && !connEof && chunked && Dec() == START
      requires IsChunkedBody(m) && raw[rawOff..rawLen] + wire == Encode(m) + after
      modifies this`wire, this`stalls, this`breaks, this`flagPolls, this`connPos, this`connEof, this`bodyLeft,
               this`chunkState, this`chunkLeft, this`rawOff, this`rawLen, raw
      ensures BuffersValid() && bytes <= PayloadOf(m.chunks) && (over ==> bytes == PayloadOf(m.chunks) && !failed)
      ensures !failed && !over ==> PayloadOf(m.chunks) == bytes + Body()
      ensures (forall i | 0 <= i < |sizes| :: sizes[i] > 0) && |sizes| > |PayloadOf(m.chunks)| && !failed ==>
        over && bytes == PayloadOf(m.chunks)
      ensures if failed then breaks > old(breaks) || flagPolls == 0 else breaks == old(breaks)
      ensures old(Patient()) ==> !failed
    {
      DecodeInvertsEncode(m, after);
      assert Body() == PayloadOf(m.chunks);
      hide IsChunkedBody, Stream.Body;
      bytes, over, failed := ReadBody(sizes);
    }

    /** The memcpy of BodyRead. */
    method CopyOut(dst: array<byte>, at: nat, from: nat, n: nat)
      requires raw != dst && at + n <= dst.Length && from + n <= raw.Length
      modifies dst
      ensures dst[at..at + n] == raw[from..from + n]
      ensures forall i | 0 <= i < dst.Length && !(at <= i < at + n) :: dst[i] == old(dst[i])
    {
      forall i | 0 <= i < n {
        dst[at + i] := raw[from + i];
      }
    }

    /**
     * Receives into the ring at its end: how many bytes were added, 0 if none
     * were ready, -1 at the end of the body, -2 on failure. Never called on a
     * live connection that does not continue the ring.
     */
    method RingFill(want: int, wait: bool) returns (added: int)
      requires Core() && (Live() ==> connPos == ringEnd)
      modifies this`wire, this`stalls, this`breaks, this`flagPolls, this`connPos, this`connEof, this`bodyLeft,
               this`chunkState, this`chunkLeft, this`rawOff, this`rawLen, this`ringStart, this`ringEnd, raw, ring
      ensures Core() && (Live() ==> connPos == ringEnd) && (Live() ==> old(Live()))
      ensures -2 <= added <= Max(want, 0) && flagPolls <= old(flagPolls)
      ensures ringEnd == old(ringEnd) + Max(added, 0)
      ensures ringStart == Max(old(ringStart), ringEnd - RING_BYTES)
      ensures added == 0 && want > 0 ==> !wait
      ensures want > 0 && old(DataWaits()) ==> added > 0
      ensures old(Patient()) ==> added != -2 && |Body()| == |old(Body())| - Max(added, 0)
      ensures smooth ==> Slack() >= old(Slack())
      ensures old(Patient()) && old(Live()) ==> Live() || Body() == []
      ensures added == -1 ==> old(Body()) == []
    {
      hide Stream.Core, Stream.Body;
      added := 0;
      while added < want
        invariant Core() && (Live() ==> connPos == ringEnd) && (Live() ==> old(Live()))
        invariant 0 <= added && added <= Max(want, 0) && flagPolls <= old(flagPolls)
        invariant ringEnd == old(ringEnd) + added
        invariant ringStart == Max(old(ringStart), ringEnd - RING_BYTES)
        invariant added == 0 ==> Body() == old(Body()) && DataWaits() == old(DataWaits())
        invariant smooth ==> Slack() >= old(Slack())
        invariant old(Patient()) ==> |Body()| == |old(Body())| - added
        invariant old(Live()) ==> Live()
        decreases want - added
      {
        var n := FillOnce(want - added, wait && added == 0);
        if n <= 0 {
          return if added > 0 then added else n;
        }
        added := added + n;
      }
    }

    /** One turn of RingFill's loop: what one read of the body adds, up to the ring's edge. */
    method FillOnce(want: int, wait: bool) returns (n: int)
      requires Core() && (Live() ==> connPos == ringEnd) && want > 0
      modifies this`wire, this`stalls, this`breaks, this`flagPolls, this`connPos, this`connEof, this`bodyLeft,
               this`chunkState, this`chunkLeft, this`rawOff, this`rawLen, this`ringStart, this`ringEnd, raw, ring
      ensures Core() && (Live() ==> connPos == ringEnd) && (Live() ==> old(Live()))
      ensures -2 <= n <= want && flagPolls <= old(flagPolls) && (n == 0 ==> !wait)
      ensures old(DataWaits()) ==> n > 0
      ensures n != -2 ==> |Body()| == |old(Body())| - Max(n, 0)
      ensures n == -1 ==> old(Body()) == []
      ensures n >= 0 && old(Live()) ==> Live()
      ensures (old(Patient()) ==> n != -2) && (smooth ==> Slack() >= old(Slack()))
      ensures ringEnd == old(ringEnd) + Max(n, 0)
      ensures ringStart == Max(old(ringStart), ringEnd - RING_BYTES)
    {
      hide Stream.Body, Slot, IsPieceOf, Holds;
      var at := Slot(ringEnd);
      var room := Min(RING_BYTES - at, want);
      ghost var before, oldStart := ring[..], ringStart;
      n := BodyRead(ring, at, room, wait);
      if n <= 0 {
        assert ring[..] == before;
        PieceSplits(resource, connPos, [], []);
        return;
      }
      ghost var oldEnd := ringEnd;
      ringEnd := ringEnd + n;
      if ringEnd - ringStart > RING_BYTES {
        ringStart := ringEnd - RING_BYTES;
      }
      ghost var taken := ring[at..at + n];
      PieceSplits(resource, oldEnd, taken, Body());
      RingTakes(before, ring[..], resource, oldStart, oldEnd, taken, ringStart);
    }

    /**
     * A GET from `from` on. On success the connection is at the body's first byte, at the offset
     * the answer names; on failure there is no connection.
     */
    method Request(from: nat) returns (ok: bool, ghost a: Answer)
      requires Core()
      modifies this`wire, this`tls, this`seekable, this`size, this`h, this`connPos, this`connEof, this`bodyLeft,
               this`chunked, this`chunkState, this`chunkLeft, this`rawOff, this`rawLen, raw
      ensures Core()
      ensures !ok ==> h < 0 && size == old(size) && seekable == old(seekable)
      ensures IsHonest(resource, a, from) && ok == (a.Answer? && a.status in {200, 206, 416})
      ensures faithful ==> IsFaithful(resource, a, from)
      ensures ok ==> h >= 0 && connEof == (a.status == 416) && IsLabel(a, from, connPos) && (Live() ==> Body() == BodyOf(a))
      ensures ok ==> size == SizeTold(a, from, old(size))
      ensures ok ==> seekable == (a.status == 206 || (old(seekable) && !(a.status == 200 && from > 0)))
    {
      hide Stream.RingAgrees, BodyBytes, IsPieceOf;
      PieceSplits(resource, connPos, [], []);
      h, rawOff, rawLen := -1, 0, 0;
      tls := *;  // wherever the request ended up
      var answer := Ask(from);
      a := answer;
      if answer.NoAnswer? {
        return false, a;
      }
      ReceiveWith(answer);
      ok := Adopt(answer, from);
    }

    /** What comes back. */
    method Ask(from: nat) returns (a: Answer)
      ensures IsHonest(resource, a, from) && (faithful ==> IsFaithful(resource, a, from))
    {
      var answer: Answer :| IsHonest(resource, answer, from) && (faithful ==> IsFaithful(resource, answer, from)) by {
        var some := FaithfulAnswers(resource, from);
        assert IsHonest(resource, some, from) && IsFaithful(resource, some, from);
      }
      a := answer;
    }

    /** Takes an answer's status, range and framing over into the stream. */
    method Adopt(a: Answer, from: nat) returns (ok: bool)
      requires a.Answer? && IsHonest(resource, a, from) && BuffersValid() && h < 0
      requires raw[rawOff..rawLen] + wire == a.received + a.wire
      modifies this`seekable, this`size, this`h, this`connPos, this`connEof, this`bodyLeft, this`chunked,
               this`chunkState, this`chunkLeft
      ensures BuffersValid() && IsPieceOf(resource, connPos, Body())
      ensures !ok ==> h < 0 && size == old(size) && seekable == old(seekable)
      ensures ok == (a.status == 206 || a.status == 200 || a.status == 416)
      ensures ok ==> h >= 0 && connEof == (a.status == 416) && IsLabel(a, from, connPos) && (Live() ==> Body() == BodyOf(a))
      ensures ok ==> seekable == (a.status == 206 || (old(seekable) && !(a.status == 200 && from > 0)))
      ensures ok ==> size == SizeTold(a, from, old(size))
    {
      hide BodyBytes, IsPieceOf;
      PieceSplits(resource, connPos, [], []);
      PieceSplits(resource, from, [], []);
      ok := TakeOver(a, from);
      if ok {
        var handle :| handle >= 0;
        h := handle;
      }
    }

    /** The stream's share of an answer. */
    method TakeOver(a: Answer, from: nat) returns (ok: bool)
      requires a.Answer? && h < 0
      modifies this`seekable, this`size, this`connPos, this`connEof, this`bodyLeft, this`chunked, this`chunkState,
               this`chunkLeft
      ensures chunked == a.chunked && chunkState == Size && chunkLeft == 0
      ensures ok == (a.status == 206 || a.status == 200 || a.status == 416)
      ensures !ok ==> size == old(size) && seekable == old(seekable) && connPos == old(connPos)
      ensures ok ==> IsLabel(a, from, connPos) && size == SizeTold(a, from, old(size))
      ensures ok ==> seekable == (a.status == 206 || (old(seekable) && !(a.status == 200 && from > 0)))
      ensures connEof == (a.status == 416)
      ensures ok ==> bodyLeft == if a.status == 416 then 0 else if a.chunked then -1 else a.length
    {
      chunked, chunkState, chunkLeft, connEof := a.chunked, Size, 0, false;
      if a.status == 206 {
        connPos, seekable := if a.rangeStart >= 0 then a.rangeStart else from, true;
        if a.rangeTotal >= 0 {
          size := a.rangeTotal;
        }
        bodyLeft := if chunked then -1 else a.length;
      } else if a.status == 200 {
        // an answer from offset 0, whatever was asked for
        connPos := 0;
        if from > 0 {
          seekable := false;
        }
        if !chunked && a.length >= 0 {
          size := a.length;
        }
        bodyLeft := if chunked then -1 else a.length;
      } else if a.status == 416 {
        connPos, connEof, bodyLeft := from, true, 0;
        if size < 0 {
          size := from;
        }
      } else {
        return false;
      }
      return true;
    }

    /** What came with the headers is in the raw buffer. */
    method ReceiveWith(a: Answer)
      requires a.Answer? && |a.received| <= RAW_BYTES == raw.Length
      modifies this`wire, this`rawOff, this`rawLen, raw
      ensures wire == a.wire && rawOff == 0 && rawLen == |a.received| && raw[0..rawLen] == a.received
    {
      forall i | 0 <= i < |a.received| {
        raw[i] := a.received[i];
      }
      rawOff, rawLen, wire := 0, |a.received|, a.wire;
    }

    /** The first request of a new stream. */
    method Open() returns (ok: bool)
      requires Valid() && h < 0
      modifies this, raw
      ensures Valid() && pos == old(pos)
      ensures ok ==> h >= 0 && ringStart == ringEnd == connPos
      ensures !ok ==> h < 0 && ringStart == old(ringStart) && ringEnd == old(ringEnd)
      ensures faithful && old(Whole()) ==> ok && Whole()
    {
      ghost var answer;
      ok, answer := Request(0);
      if ok {
        ringStart, ringEnd := connPos, connPos;
      }
    }

    /** Nothing to wait for or connect to: pos is buffered, or can be read up to. */
    ghost predicate Reading()
      reads this
    {
      ringStart <= pos && (ringEnd <= pos ==> Live() ==> connPos == ringEnd)
    }

    /** The position is in the ring. */
    ghost predicate InRing()
      reads this`ringStart, this`ringEnd, this`pos
    {
      ringStart <= pos < ringEnd
    }

    /** The open connection continues the ring, and the position is not too far ahead to read up to. */
    ghost predicate Reachable()
      reads this`h, this`connEof, this`connPos, this`ringEnd, this`pos, this`tls
    {
      Live() && connPos == ringEnd <= pos && pos - ringEnd <= if tls then SKIP_TLS else SKIP_TCP
    }

    /** The connection and the ring are as they were. */
    twostate predicate Untouched()
      reads this
    {
      && wire == old(wire) && h == old(h) && connPos == old(connPos) && connEof == old(connEof)
      && ringStart == old(ringStart) && ringEnd == old(ringEnd) && size == old(size)
    }

    /** Makes the stream read on towards pos: with what it has, or with a new request. */
    method Locate() returns (ok: bool)
      requires Valid() && !(0 <= size <= pos)
      modifies this`wire, this`tls, this`seekable, this`size, this`h, this`connPos, this`connEof, this`bodyLeft,
               this`chunked, this`chunkState, this`chunkLeft, this`rawOff, this`rawLen, this`ringStart, this`ringEnd, raw
      ensures Valid() && (ok ==> Reading())
      ensures old(InRing() || Reachable()) ==> ok && Untouched()
      ensures !old(InRing() || Reachable()) && !old(seekable) && (pos < old(ringStart) || old(Live())) ==>
        Untouched() && ok == (pos >= old(ringStart))
      ensures !Untouched() && ok ==> ringStart == ringEnd == connPos <= pos
      ensures old(Whole()) ==> Whole() && (faithful ==> ok && (InRing() || Onward()))
    {
      hide Stream.Body, Holds, BodyBytes;
      var skip := if tls then SKIP_TLS else SKIP_TCP;
      var inRing := ringStart <= pos < ringEnd;
      var reachable := h >= 0 && !connEof && connPos == ringEnd && pos >= ringEnd && pos - ringEnd <= skip;
      if !inRing && !reachable {
        if !seekable && pos < ringStart {
          return false;
        }
        if seekable || h < 0 || connEof {
          ghost var answer;
          ok, answer := Request(pos);
          if !ok {
            return;
          }
          EmptyRing(ring[..], resource, connPos);
          ringStart, ringEnd := connPos, connPos;
          if connPos > pos {
            return false;
          }
        }
      }
      return true;
    }

    /** The connection leads to the position, or no connection can. */
    ghost predicate Onward()
      reads this`h, this`connEof, this`pos, this`seekable, this`ringEnd
    {
      if pos < |resource| then Live() || ringEnd == |resource| else !seekable && !Live() && ringEnd == pos
    }

    /** The body is over and the position not reached: a new one from there, or that was the resource's end. */
    method Resume() returns (again: bool)
      requires Valid() && Reading() && ringEnd <= pos
      modifies this`flagPolls, this`wire, this`tls, this`seekable, this`size, this`h, this`connPos, this`connEof,
               this`bodyLeft, this`chunked, this`chunkState, this`chunkLeft, this`rawOff, this`rawLen, raw
      ensures Valid() && (again ==> Reading() && flagPolls < old(flagPolls)) && flagPolls <= old(flagPolls)
      ensures !again ==> 0 <= size <= pos
      ensures faithful && old(Whole() && Onward()) && pos >= |resource| ==>
        !again && Whole() && flagPolls == old(flagPolls)
    {
      hide Stream.Core, Slot;
      if size < 0 || ringEnd < size {
        // there may be more of the resource than this body had
        if seekable && size > ringEnd {
          var quit := Aborted();
          if !quit {
            ghost var answer;
            var ok;
            ok, answer := Request(ringEnd);
            if ok && connPos == ringEnd {
              return true;
            }
          }
        }
        size := ringEnd;
      }
      return false;
    }

    /** Fills until pos is in the ring: 1; 0 when the resource ends before it, -1 on failure. */
    method FillTo() returns (r: int)
      requires Valid() && Reading()
      modifies this`wire, this`stalls, this`breaks, this`flagPolls, this`tls, this`seekable, this`size, this`h,
               this`connPos, this`connEof, this`bodyLeft, this`chunked, this`chunkState, this`chunkLeft, this`rawOff,
               this`rawLen, this`ringStart, this`ringEnd, raw, ring
      ensures Valid() && -1 <= r <= 1
      ensures r == 1 ==> ringStart <= pos < ringEnd
      ensures r == 0 ==> 0 <= size <= pos
      ensures old(InRing()) ==> r == 1 && Untouched()
      ensures faithful && old(Whole() && Patient() && (InRing() || Onward())) ==>
        Whole() && Slack() >= old(Slack()) && r == if old(InRing()) || pos < |resource| then 1 else 0
    {
      hide Stream.Core, Slot;
      while ringEnd <= pos
        invariant Valid() && Reading() && (old(InRing()) ==> Untouched() && InRing())
        invariant faithful && old(Whole() && Patient() && (InRing() || Onward())) ==>
          Whole() && Slack() >= old(Slack()) && (old(InRing()) || Onward())
        decreases flagPolls, pos + FILL_CHUNK - ringEnd
      {
        var n := RingFill(FILL_CHUNK, true);
        if n == -1 {
          assert faithful && old(Whole() && Patient() && (InRing() || Onward())) ==> Whole() && Onward() && pos >= |resource|;
          var again := Resume();
          if again {
            continue;
          }
          return 0;
        }
        if n < 0 {
          return -1;
        }
      }
      return 1;
    }

    /** Brings the position into the ring: 1; 0 when the resource ends before it, -1 on failure. */
    method Find() returns (r: int)
      requires Valid() && !(0 <= size <= pos)
      modifies this`wire, this`stalls, this`breaks, this`flagPolls, this`tls, this`seekable, this`size, this`h,
               this`connPos, this`connEof, this`bodyLeft, this`chunked, this`chunkState, this`chunkLeft, this`rawOff,
               this`rawLen, this`ringStart, this`ringEnd, raw, ring
      ensures Valid() && -1 <= r <= 1
      ensures r == 1 ==> ringStart <= pos < ringEnd
      ensures r == 0 ==> 0 <= size <= pos
      ensures old(InRing()) ==> r == 1 && Untouched()
      ensures faithful && old(Whole() && Patient()) ==>
        Whole() && Slack() >= old(Slack()) && r == if pos < |resource| then 1 else 0
    {
      assert InRing() ==> pos < |resource|;
      hide Stream.Core, Stream.Whole;
      var ok := Locate();
      if !ok {
        return -1;
      }
      r := FillTo();
    }

    /** The ring's bytes at pos, which may wrap around its edge. */
    method CopyFromRing(buf: array<byte>, n: nat)
      requires Core() && ringStart <= pos && pos + n <= ringEnd && n <= buf.Length && buf != ring && buf != raw
      modifies buf
      ensures n > 0 ==> pos + n <= |resource|
      ensures n > 0 ==> buf[..n] == resource[pos..pos + n]
      ensures forall i | n <= i < buf.Length :: buf[i] == old(buf[i])
    {
      hide Slot, Holds, Stream.Body;
      ghost var cached := ring[..];
      var at := Slot(pos);
      var first := Min(RING_BYTES - at, n);
      forall i | 0 <= i < first {
        buf[i] := ring[at + i];
      }
      if n > first {
        forall i | first <= i < n {
          buf[i] := ring[i - first];
        }
      }
      assert ring[..] == cached;
      RingPiece(cached, resource, ringStart, ringEnd, pos, buf[..n]);
    }

    /**
     * Up to `want` bytes at pos. Whatever happened before on however many
     * connections, bytes handed out are the resource's at pos.
     */
    method Read(buf: array<byte>, want: nat) returns (n: int)
      requires Valid() && want <= buf.Length && buf != ring && buf != raw
      modifies this`wire, this`stalls, this`breaks, this`flagPolls, this`tls, this`seekable, this`size, this`h,
               this`connPos, this`connEof, this`bodyLeft, this`chunked, this`chunkState, this`chunkLeft, this`rawOff,
               this`rawLen, this`ringStart, this`ringEnd, this`pos, raw, ring, buf
      ensures Valid() && -1 <= n <= want
      ensures n > 0 ==> pos <= |resource|
      ensures pos == old(pos) + Max(n, 0)
      ensures n > 0 ==> buf[..n] == resource[old(pos)..pos]
      ensures n == 0 && want > 0 ==> 0 <= size <= pos
      ensures old(InRing() && flagPolls > 0 && !(0 <= size <= pos)) ==> n == Min(want, old(ringEnd - pos)) && Untouched()
      ensures n > 0 ==> n == Min(want, ringEnd - old(pos))
      ensures faithful && old(Whole() && smooth && Slack() > 0) ==>
        Whole() && Slack() >= old(Slack()) - 1 && (want > 0 ==> if old(pos) < |resource| then n > 0 else n == 0)
      ensures forall i | 0 <= i < buf.Length && i >= n :: buf[i] == old(buf[i])
    {
      hide Stream.Body, Stream.Core, Holds;
      var quit := Aborted();
      if quit {
        return -1;
      }
      if size >= 0 && pos >= size {
        return 0;
      }
      var r := Find();
      if r <= 0 {
        return r;
      }
      n := Min(want, ringEnd - pos);
      CopyFromRing(buf, n);
      pos := pos + n;
    }

    /** Moves the read position; nothing is asked of the network until the next read. */
    method Seek(to: int) returns (r: int)
      requires Valid()
      modifies this`pos
      ensures Valid()
      ensures r == if to < 0 || (!seekable && to < ringStart) then -1 else 0
      ensures pos == if r == 0 then to else old(pos)
      ensures old(Whole()) ==> Whole()
    {
      if to < 0 || (!seekable && to < ringStart) {
        return -1;
      }
      pos := to;
      return 0;
    }

    /** Tops the ring up with what has arrived, keeping KEEP_BEHIND bytes behind the read position. */
    method Prefetch()
      requires Valid()
      modifies this`wire, this`stalls, this`breaks, this`flagPolls, this`connPos, this`connEof, this`bodyLeft,
               this`chunkState, this`chunkLeft, this`rawOff, this`rawLen, this`ringStart, this`ringEnd, raw, ring
      ensures Valid() && ringEnd >= old(ringEnd)
      ensures !old(Live() && connPos == ringEnd && ringStart <= pos <= ringEnd) ==> Untouched()
      ensures ringStart <= Max(old(ringStart), pos - KEEP_BEHIND)
      ensures old(DataWaits() && connPos == ringEnd && ringStart <= pos <= ringEnd < pos + RING_BYTES - KEEP_BEHIND) ==>
        ringEnd > old(ringEnd)
      ensures faithful && old(Whole() && Patient()) ==> Whole() && Slack() >= old(Slack())
    {
      hide Stream.Body, Stream.Core, Holds;
      if h < 0 || connEof || connPos != ringEnd || pos < ringStart || pos > ringEnd {
        return;
      }
      var room := RING_BYTES - KEEP_BEHIND - (ringEnd - pos);
      if room <= 0 {
        return;
      }
      if room > PREFETCH_MAX {
        room := PREFETCH_MAX;
      }
      var n := RingFill(room, false);
    }

    /**
     * Any run of reads, seeks and prefetches: what each answered, which is what a cursor over the
     * resource would, short of failures and ends. There are no failures, and no ends but the
     * resource's, with faithful servers, a transport that only pauses, and an abort flag that stays clear.
     */
    method Session(ops: seq<Op>) returns (got: seq<Got>)
      requires Valid()
      modifies this, raw, ring
      ensures Valid() && IsTrace(resource, ops, got, old(pos), pos)
      ensures faithful && old(Whole()) && smooth && old(Slack()) >= |ops| ==>
        forall i | 0 <= i < |ops| :: Delivers(resource, ops[i], got[i])
    {
      hide IsTrace, Delivers, Stream.Whole, Stream.Core;
      got := [];
      ghost var start := pos;
      NoTrace(resource, start);
      assert ops[..0] == [];
      for i := 0 to |ops|
        invariant Valid() && IsTrace(resource, ops[..i], got, start, pos) && |got| == i
        invariant faithful && old(Whole()) && smooth && old(Slack()) >= |ops| ==>
          Whole() && Slack() >= |ops| - i && forall j | 0 <= j < i :: Delivers(resource, ops[j], got[j])
      {
        ghost var before := got;
        var g := Do(ops[i]);
        got := got + [g];
        TraceNext(resource, ops[..i], before, start, g, ops[i], pos);
        assert ops[..i + 1] == ops[..i] + [ops[i]];
      }
      assert ops[..|ops|] == ops;
    }

    /** One operation. */
    method Do(op: Op) returns (g: Got)
      requires Valid()
      modifies this, raw, ring
      ensures Valid() && g.at == old(pos) && Answers(op, g, pos) && IsPieceOf(resource, g.at, g.bytes)
      ensures faithful && old(Whole() && smooth && Slack() > 0) ==>
        Whole() && Slack() >= old(Slack()) - 1 && Delivers(resource, op, g)
    {
      var at := pos;
      match op {
        case ReadOp(want) =>
          var buf := new byte[want];
          var n := Read(buf, want);
          g := Got(at, n, if n > 0 then buf[..n] else []);
        case SeekOp(to) =>
          var r := Seek(to);
          g := Got(at, r, []);
        case PrefetchOp =>
          Prefetch();
          g := Got(at, 0, []);
      }
    }
  }
}
