/**
 * The chunked transfer coding (section 7.1 of RFC 9112), as the video player's
 * range stream decodes it: a machine that takes one received byte at a time.
 * Encoded bodies are described independently, and decoding is shown to invert
 * encoding and to be indifferent to how the bytes were segmented.
 */
module ChunkedCoding {
  import opened Basics

  datatype ChunkState = Size | Ext | Data | DataEnd | Trailer | TrailerLine

  /** `left` is the size read so far (Size, Ext) or the data bytes still to come (Data). */
  datatype Decoder = Decoder(state: ChunkState, left: nat, eof: bool) {
    predicate Valid() {
      (state.Data? ==> left > 0) && (eof ==> state.Trailer?)
    }
  }

  const START := Decoder(Size, 0, false)

  datatype Decoded = Decoded(dec: Decoder, payload: seq<byte>)

  /** The end of a chunk-size line: data follows, or the trailer after a zero size. */
  function SizeLineEnd(d: Decoder): Decoder {
    d.(state := if d.left > 0 then Data else Trailer)
  }

  function Step(d: Decoder, b: byte): (r: Decoded)
    requires d.Valid()
    ensures r.dec.Valid()
  {
    if d.eof then Decoded(d, [])
    else match d.state
      case Data =>
        Decoded(if d.left == 1 then Decoder(DataEnd, 0, false) else d.(left := d.left - 1), [b])
      case Size =>
        Decoded(if IsHexDigit(b) then d.(left := d.left * 16 + HexDigitValue(b))
                else if b == SEMICOLON then d.(state := Ext)
                else if b == LF then SizeLineEnd(d)
                else d, [])
      case Ext =>
        Decoded(if b == LF then SizeLineEnd(d) else d, [])
      case DataEnd =>
        Decoded(if b == LF then Decoder(Size, 0, false) else d, [])
      case Trailer =>
        Decoded(if b == LF then d.(eof := true)
                else if b != CR then d.(state := TrailerLine)
                else d, [])
      case TrailerLine =>
        Decoded(if b == LF then d.(state := Trailer) else d, [])
  }

  /** Decodes a run of bytes; bytes after the end of the body are not looked at. */
  function Run(d: Decoder, s: seq<byte>): (r: Decoded)
    requires d.Valid()
    ensures r.dec.Valid()
    decreases |s|
  {
    if s == [] then Decoded(d, [])
    else
      var one := Step(d, s[0]);
      var more := Run(one.dec, s[1..]);
      Decoded(more.dec, one.payload + more.payload)
  }

  lemma RunOne(d: Decoder, s: seq<byte>)
    requires d.Valid() && s != []
    ensures Run(d, s).payload == Step(d, s[0]).payload + Run(Step(d, s[0]).dec, s[1..]).payload
  {
  }

  /** Segmentation does not matter: decoding in two runs is decoding in one. */
  lemma {:induction false} RunSplits(d: Decoder, a: seq<byte>, b: seq<byte>)
    requires d.Valid()
    ensures var first := Run(d, a);
            var second := Run(first.dec, b);
            Run(d, a + b) == Decoded(second.dec, first.payload + second.payload)
    decreases |a|
  {
    if a == [] {
      assert a + b == b;
    } else {
      var one := Step(d, a[0]);
      RunSplits(one.dec, a[1..], b);
      assert (a + b)[0] == a[0] && (a + b)[1..] == a[1..] + b;
      var first := Run(one.dec, a[1..]);
      var second := Run(first.dec, b);
      assert one.payload + (first.payload + second.payload) == (one.payload + first.payload) + second.payload;
    }
  }

  lemma {:induction false} RunAfterEnd(d: Decoder, s: seq<byte>)
    requires d.Valid() && d.eof
    ensures Run(d, s) == Decoded(d, [])
    decreases |s|
  {
    if s == [] {
    } else {
      RunAfterEnd(d, s[1..]);
    }
  }

  /** The decoder once `take` of the chunk's data bytes are taken. */
  function Taken(left: nat, take: nat): Decoder
    requires take <= left
  {
    if take == left then Decoder(DataEnd, 0, false) else Decoder(Data, left - take, false)
  }

  /** Within one chunk's data, bytes come out as they are. */
  lemma {:induction false} RunData(left: nat, s: seq<byte>)
    requires 0 < |s| <= left
    ensures Run(Decoder(Data, left, false), s) == Decoded(Taken(left, |s|), s)
  {
    if |s| > 1 {
      RunData(left - 1, s[1..]);
    }
    assert s == [s[0]] + s[1..];
  }

  /** Taking some of a chunk's data leaves the rest of the body. */
  lemma {:induction false} RunTake(left: nat, pending: seq<byte>, take: nat)
    requires 0 < take <= left && take <= |pending|
    ensures Run(Decoder(Data, left, false), pending).payload
         == pending[..take] + Run(Taken(left, take), pending[take..]).payload
  {
    var more := pending[1..];
    if take == 1 {
      assert pending[..1] == [pending[0]];
    } else {
      RunTake(left - 1, more, take - 1);
      assert more[take - 1..] == pending[take..];
      assert pending[..take] == [pending[0]] + more[..take - 1];
    }
  }

  // ── Encoded bodies ──────────────────────────────────────────────────────

  /** One chunk: the size as sent (any case, leading zeros), extensions, data. */
  datatype Chunk = Chunk(size: seq<byte>, ext: seq<byte>, data: seq<byte>)

  const CRLF: seq<byte> := [CR, LF]

  predicate NoLineFeed(s: seq<byte>) {
    forall i | 0 <= i < |s| :: s[i] != LF
  }

  /** Nothing, or optional blanks and then `;` and anything on the same line. */
  predicate IsExtension(s: seq<byte>)
    decreases |s|
  {
    s == [] || (s[0] == SEMICOLON && NoLineFeed(s)) || ((s[0] == SPACE || s[0] == TAB) && |s| > 1 && IsExtension(s[1..]))
  }

  predicate IsSize(s: seq<byte>, n: nat) {
    s != [] && AllHex(s) && HexValue(s) == n
  }

  predicate IsChunk(c: Chunk) {
    c.data != [] && IsSize(c.size, |c.data|) && IsExtension(c.ext)
  }

  /** A trailer field: a line with something other than carriage returns on it. */
  predicate IsTrailerLine(s: seq<byte>) {
    s != [] && s[0] != CR && NoLineFeed(s)
  }

  predicate AreChunks(chunks: seq<Chunk>) {
    forall i | 0 <= i < |chunks| :: IsChunk(chunks[i])
  }

  predicate AreTrailerLines(lines: seq<seq<byte>>) {
    forall i | 0 <= i < |lines| :: IsTrailerLine(lines[i])
  }

  datatype ChunkedBody = ChunkedBody(chunks: seq<Chunk>, last: Chunk, trailers: seq<seq<byte>>)

  predicate IsChunkedBody(m: ChunkedBody) {
    && AreChunks(m.chunks)
    && m.last.data == [] && IsSize(m.last.size, 0) && IsExtension(m.last.ext)
    && AreTrailerLines(m.trailers)
  }

  function SizeLine(c: Chunk): seq<byte> {
    c.size + c.ext + CRLF
  }

  function EncodeChunks(chunks: seq<Chunk>): seq<byte> {
    if chunks == [] then []
    else SizeLine(chunks[0]) + (chunks[0].data + CRLF) + EncodeChunks(chunks[1..])
  }

  function EncodeTrailers(lines: seq<seq<byte>>): seq<byte> {
    if lines == [] then [] else lines[0] + CRLF + EncodeTrailers(lines[1..])
  }

  /** Everything of the body but its very last line feed. */
  function EncodeButLast(m: ChunkedBody): seq<byte> {
    EncodeChunks(m.chunks) + SizeLine(m.last) + EncodeTrailers(m.trailers) + [CR]
  }

  function Encode(m: ChunkedBody): seq<byte> {
    EncodeButLast(m) + [LF]
  }

  function PayloadOf(chunks: seq<Chunk>): seq<byte> {
    if chunks == [] then [] else chunks[0].data + PayloadOf(chunks[1..])
  }

  // ── Decoding inverts encoding ───────────────────────────────────────────

  /** Size digits accumulate the number they denote. */
  lemma {:induction false} RunDigits(s: seq<byte>)
    requires AllHex(s)
    ensures Run(START, s) == Decoded(Decoder(Size, HexValue(s), false), [])
  {
    if s == [] {
    } else {
      var k := |s| - 1;
      RunDigits(s[..k]);
      assert s == s[..k] + [s[k]];
      RunSplits(START, s[..k], [s[k]]);
    }
  }

  lemma {:induction false} RunExtText(n: nat, s: seq<byte>)
    requires NoLineFeed(s)
    ensures Run(Decoder(Ext, n, false), s) == Decoded(Decoder(Ext, n, false), [])
  {
    if s == [] {
    } else {
      RunExtText(n, s[1..]);
    }
  }

  /** An extension leaves the size alone. */
  lemma {:induction false} RunExtension(n: nat, s: seq<byte>)
    requires IsExtension(s)
    ensures var r := Run(Decoder(Size, n, false), s);
            r.payload == [] && (r.dec == Decoder(Size, n, false) || r.dec == Decoder(Ext, n, false))
    decreases |s|
  {
    if s == [] {
    } else {
      if s[0] == SEMICOLON {
        RunExtText(n, s[1..]);
      } else {
        RunExtension(n, s[1..]);
      }
    }
  }

  lemma RunLineEnd(d: Decoder)
    requires d.Valid() && !d.eof && (d.state.Size? || d.state.Ext?)
    ensures Run(d, CRLF) == Decoded(SizeLineEnd(d), [])
  {
    assert CRLF[0] == CR && CRLF[1..] == [LF] && [LF][1..] == [];
    assert Step(d, CR) == Decoded(d, []) && Step(d, LF) == Decoded(SizeLineEnd(d), []);
    assert Run(d, [LF]) == Decoded(SizeLineEnd(d), []);
  }

  lemma RunSizeLine(c: Chunk, n: nat)
    requires IsSize(c.size, n) && IsExtension(c.ext)
    ensures Run(START, SizeLine(c)) == Decoded(SizeLineEnd(Decoder(Size, n, false)), [])
  {
    RunDigits(c.size);
    RunExtension(n, c.ext);
    RunSplits(START, c.size, c.ext);
    RunSplits(START, c.size + c.ext, CRLF);
    RunLineEnd(Run(START, c.size + c.ext).dec);
  }

  lemma RunChunk(c: Chunk)
    requires IsChunk(c)
    ensures Run(START, SizeLine(c) + (c.data + CRLF)) == Decoded(START, c.data)
  {
    var n := |c.data|;
    RunSizeLine(c, n);
    RunData(n, c.data);
    var inData := Decoder(Data, n, false);
    RunSplits(inData, c.data, CRLF);
    assert Run(Decoder(DataEnd, 0, false), CRLF) == Decoded(START, []) by {
      assert CRLF[0] == CR && CRLF[1..] == [LF];
      assert Run(Decoder(DataEnd, 0, false), [LF]) == Decoded(START, []);
    }
    RunSplits(START, SizeLine(c), c.data + CRLF);
  }

  lemma {:induction false} RunChunks(chunks: seq<Chunk>)
    requires AreChunks(chunks)
    ensures Run(START, EncodeChunks(chunks)) == Decoded(START, PayloadOf(chunks))
  {
    if chunks == [] {
    } else {
      var head := SizeLine(chunks[0]) + (chunks[0].data + CRLF);
      RunChunk(chunks[0]);
      RunChunks(chunks[1..]);
      RunSplits(START, head, EncodeChunks(chunks[1..]));
    }
  }

  lemma {:induction false} RunTrailerText(n: nat, s: seq<byte>)
    requires NoLineFeed(s)
    ensures Run(Decoder(TrailerLine, n, false), s) == Decoded(Decoder(TrailerLine, n, false), [])
  {
    if s == [] {
    } else {
      RunTrailerText(n, s[1..]);
    }
  }

  lemma {:induction false} RunTrailers(n: nat, lines: seq<seq<byte>>)
    requires AreTrailerLines(lines)
    ensures Run(Decoder(Trailer, n, false), EncodeTrailers(lines)) == Decoded(Decoder(Trailer, n, false), [])
  {
    if lines == [] {
    } else {
      var d := Decoder(Trailer, n, false);
      var t := lines[0];
      RunTrailerText(n, t[1..]);
      assert Run(d, t) == Decoded(Decoder(TrailerLine, n, false), []);
      RunSplits(d, t, CRLF);
      assert Run(Decoder(TrailerLine, n, false), CRLF) == Decoded(d, []) by {
        assert CRLF[0] == CR && CRLF[1..] == [LF];
        assert Run(Decoder(TrailerLine, n, false), [LF]) == Decoded(d, []);
      }
      RunTrailers(n, lines[1..]);
      RunSplits(d, t + CRLF, EncodeTrailers(lines[1..]));
    }
  }

  lemma RunButLast(m: ChunkedBody)
    requires IsChunkedBody(m)
    ensures Run(START, EncodeButLast(m)) == Decoded(Decoder(Trailer, 0, false), PayloadOf(m.chunks))
  {
    var chunks, last, trailers := EncodeChunks(m.chunks), SizeLine(m.last), EncodeTrailers(m.trailers);
    RunChunks(m.chunks);
    RunSizeLine(m.last, 0);
    RunTrailers(0, m.trailers);
    RunSplits(START, chunks, last);
    RunSplits(START, chunks + last, trailers);
    RunSplits(START, chunks + last + trailers, [CR]);
  }

  /**
   * Decoding an encoded body gives back the payload, whatever follows it on the
   * connection, and the end is reported at the body's last byte and not before.
   */
  lemma DecodeInvertsEncode(m: ChunkedBody, after: seq<byte>)
    requires IsChunkedBody(m)
    ensures Run(START, Encode(m) + after).payload == PayloadOf(m.chunks)
    ensures Run(START, Encode(m)).dec.eof
    ensures forall k :: 0 <= k < |Encode(m)| ==> !Run(START, Encode(m)[..k]).dec.eof
  {
    RunButLast(m);
    RunSplits(START, EncodeButLast(m), [LF]);
    RunSplits(START, Encode(m), after);
    RunAfterEnd(Run(START, Encode(m)).dec, after);
    forall k | 0 <= k < |Encode(m)|
      ensures !Run(START, Encode(m)[..k]).dec.eof
    {
      var a, b := EncodeButLast(m)[..k], EncodeButLast(m)[k..];
      assert Encode(m)[..k] == a && a + b == EncodeButLast(m);
      RunSplits(START, a, b);
      if Run(START, a).dec.eof {
        RunAfterEnd(Run(START, a).dec, b);
      }
    }
  }
}
