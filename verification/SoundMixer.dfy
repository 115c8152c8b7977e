/**
 * The sound backend's voices: chunks of samples queued by the game and resampled
 * by the mixer, one block at a time, with a 16.16 fixed-point position.
 */
module SoundMixer {
  import opened Basics

  const QUEUE_LEN := 3
  const CHUNK_MAX := 8192 + 128
  const FULL_VOLUME := 65536
  const ONE := 65536           // one frame, in 16.16
  const W := 0x1_0000_0000     // positions have 32 bits
  const MAX_STEP := W - CHUNK_MAX * ONE

  datatype Chunk = Chunk(data: seq<byte>, bits: int, channels: int, rate: nat) {
    predicate Valid() {
      (bits == 8 || bits == 16) && (channels == 1 || channels == 2) && |data| <= CHUNK_MAX
    }

    function Count(): (n: nat)
      requires Valid()
      ensures n * (bits / 8) * channels <= |data| && n <= CHUNK_MAX
    {
      |data| / ((bits / 8) * channels)
    }
  }

  datatype Frame = Frame(left: int, right: int)

  datatype Format = Format(bits: int, channels: int, rate: nat)

  predicate IsFormat(f: Format) {
    (f.bits == 8 || f.bits == 16) && (f.channels == 1 || f.channels == 2)
  }

  function Signed16(lo: byte, hi: byte): int {
    var v := lo + 256 * hi;
    if v >= 0x8000 then v - 0x1_0000 else v
  }

  /** A sample of a frame, as 16 bits. */
  function SampleAt(c: Chunk, frame: nat, channel: nat): (s: int)
    requires c.Valid() && frame < c.Count() && channel < 2
    ensures -0x8000 <= s < 0x8000
  {
    var index := frame * c.channels + (if c.channels > 1 then channel else 0);
    if c.bits == 16 then Signed16(c.data[2 * index], c.data[2 * index + 1])
    else
      var b: int := c.data[index];
      (b - 128) * 256
  }

  /** Mono plays on both sides. */
  function FrameAt(c: Chunk, k: nat): (f: Frame)
    requires c.Valid() && k < c.Count()
    ensures c.channels == 1 ==> f.left == f.right
  {
    Frame(SampleAt(c, k, 0), SampleAt(c, k, 1))
  }

  function StepOf(c: Chunk, outRate: nat): nat
    requires outRate > 0
  {
    ((c.rate * ONE) % W) / outRate
  }

  /** What a sample contributes at a volume. */
  function Scaled(sample: int, volume: nat): int {
    (sample * volume) / ONE
  }

  lemma MulMonotone(x: nat, a: int, b: int)
    requires a <= b
    ensures x * a <= x * b
  {
  }

  /** The product fits 32 bits (the least value is reached), and the contribution 16. */
  lemma ScaledFits(sample: int, volume: nat)
    requires -0x8000 <= sample < 0x8000 && volume <= FULL_VOLUME
    ensures -0x8000_0000 <= sample * volume <= 0x7fff_ffff
    ensures -0x8000 <= Scaled(sample, volume) < 0x8000
    ensures Scaled(sample, volume) * ONE <= sample * volume < (Scaled(sample, volume) + 1) * ONE
    ensures volume == FULL_VOLUME ==> Scaled(sample, volume) == sample
    ensures sample * volume == -0x8000_0000 <==> sample == -0x8000 && volume == FULL_VOLUME
  {
    if sample >= 0 {
      MulMonotone(sample, 0, volume);
      MulMonotone(sample, volume, FULL_VOLUME);
    } else {
      MulMonotone(-sample, 0, volume);
      MulMonotone(-sample, volume, FULL_VOLUME);
      assert (-sample) * volume == -(sample * volume);
      if volume < FULL_VOLUME {
        MulMonotone(-sample, volume, FULL_VOLUME - 1);
      }
    }
  }

  /** The position never wraps around if and only if the step is at most MAX_STEP ... */
  lemma PositionFitsIff(step: nat)
    ensures (forall pos: nat | pos / ONE < CHUNK_MAX :: pos + step < W) <==> step <= MAX_STEP
  {
    var last: nat := CHUNK_MAX * ONE - 1;
    assert last / ONE < CHUNK_MAX;
    if step > MAX_STEP {
      assert last + step >= W;
    }
  }

  lemma HalfAtMost(v: nat, d: nat)
    requires d >= 2
    ensures 2 * (v / d) <= v
  {
    var q := v / d;
    assert d * q <= v;
    assert (d - 2) * q >= 0;
  }

  /** ... which rates below 65536 Hz give for every output rate but 1 Hz. */
  lemma RatesFit(c: Chunk, outRate: nat)
    requires c.rate < 65536 && outRate >= 2
    ensures StepOf(c, outRate) == c.rate * ONE / outRate <= MAX_STEP
  {
    HalfAtMost(c.rate * ONE, outRate);
  }

  // ── A voice's output, chunk by chunk ────────────────────────────────────

  ghost predicate AllValid(chunks: seq<Chunk>) {
    forall i | 0 <= i < |chunks| :: chunks[i].Valid()
  }

  /** What mixing produced and what it left: unplayed chunks, and the position in the first. */
  datatype Mix = Mix(out: seq<Frame>, rest: seq<Chunk>, pos: nat)

  ghost function Mixed(chunks: seq<Chunk>, pos: nat, outRate: nat, n: nat): (m: Mix)
    requires AllValid(chunks) && outRate > 0 && pos < W
    ensures |m.out| <= n && m.pos < W && (|m.out| < n ==> m.rest == []) && AllValid(m.rest)
    decreases n, |chunks|
  {
    if n == 0 || chunks == [] then Mix([], chunks, pos)
    else if pos / ONE >= chunks[0].Count() then Mixed(chunks[1..], pos - chunks[0].Count() * ONE, outRate, n)
    else
      var next := (pos + StepOf(chunks[0], outRate)) % W;
      var more := if next / ONE >= chunks[0].Count()
                  then Mixed(chunks[1..], next - chunks[0].Count() * ONE, outRate, n - 1)
                  else Mixed(chunks, next, outRate, n - 1);
      Mix([FrameAt(chunks[0], pos / ONE)] + more.out, more.rest, more.pos)
  }

  /** The queue and position once a finished first chunk is dropped. */
  ghost function NextQueue(chunks: seq<Chunk>, pos: nat): (q: seq<Chunk>)
    requires chunks != [] && AllValid(chunks)
    ensures AllValid(q)
  {
    if pos / ONE >= chunks[0].Count() then chunks[1..] else chunks
  }

  ghost function NextPos(chunks: seq<Chunk>, pos: nat): (p: nat)
    requires chunks != [] && AllValid(chunks)
    ensures p <= pos
  {
    if pos / ONE >= chunks[0].Count() then pos - chunks[0].Count() * ONE else pos
  }

  lemma NextMixed(chunks: seq<Chunk>, pos: nat, outRate: nat, n: nat)
    requires chunks != [] && AllValid(chunks) && outRate > 0 && pos < W && n > 0
    ensures Mixed(chunks, pos, outRate, n) == Mixed(NextQueue(chunks, pos), NextPos(chunks, pos), outRate, n)
  {
  }

  lemma MixedEmit(chunks: seq<Chunk>, pos: nat, outRate: nat, n: nat)
    requires chunks != [] && AllValid(chunks) && outRate > 0 && pos < W && n > 0 && pos / ONE < chunks[0].Count()
    ensures var next := (pos + StepOf(chunks[0], outRate)) % W;
            var m := Mixed(NextQueue(chunks, next), NextPos(chunks, next), outRate, n - 1);
            Mixed(chunks, pos, outRate, n) == Mix([FrameAt(chunks[0], pos / ONE)] + m.out, m.rest, m.pos)
  {
  }

  /** However a request is split into calls, the frames are the same. */
  lemma {:induction false} MixedSplits(chunks: seq<Chunk>, pos: nat, outRate: nat, n: nat, m: nat)
    requires AllValid(chunks) && outRate > 0 && pos < W
    ensures var first := Mixed(chunks, pos, outRate, n);
            var second := Mixed(first.rest, first.pos, outRate, m);
            Mixed(chunks, pos, outRate, n + m) == Mix(first.out + second.out, second.rest, second.pos)
    decreases n, |chunks|
  {
    hide SampleAt, FrameAt, StepOf, Chunk.Count;
    if n == 0 || chunks == [] {
      var second := Mixed(chunks, pos, outRate, m);
      assert [] + second.out == second.out;
    } else if pos / ONE >= chunks[0].Count() {
      MixedSplits(chunks[1..], pos - chunks[0].Count() * ONE, outRate, n, m);
    } else {
      MixedSplitsEmit(chunks, pos, outRate, n, m);
    }
  }

  lemma {:induction false} MixedSplitsEmit(chunks: seq<Chunk>, pos: nat, outRate: nat, n: nat, m: nat)
    requires AllValid(chunks) && outRate > 0 && pos < W
    requires n > 0 && chunks != [] && pos / ONE < chunks[0].Count()
    ensures var first := Mixed(chunks, pos, outRate, n);
            var second := Mixed(first.rest, first.pos, outRate, m);
            Mixed(chunks, pos, outRate, n + m) == Mix(first.out + second.out, second.rest, second.pos)
    decreases n, |chunks|, 0
  {
    hide SampleAt, FrameAt, StepOf, Chunk.Count, Mixed;
    var next := (pos + StepOf(chunks[0], outRate)) % W;
    var f := [FrameAt(chunks[0], pos / ONE)];
    MixedEmit(chunks, pos, outRate, n);
    MixedEmit(chunks, pos, outRate, n + m);
    MixedSplits(NextQueue(chunks, next), NextPos(chunks, next), outRate, n - 1, m);
    var first := Mixed(NextQueue(chunks, next), NextPos(chunks, next), outRate, n - 1);
    var second := Mixed(first.rest, first.pos, outRate, m);
    assert f + (first.out + second.out) == (f + first.out) + second.out;
  }

  lemma NextAppend(chunks: seq<Chunk>, more: seq<Chunk>, pos: nat)
    requires chunks != [] && AllValid(chunks) && AllValid(more)
    ensures NextQueue(chunks + more, pos) == NextQueue(chunks, pos) + more
    ensures NextPos(chunks + more, pos) == NextPos(chunks, pos)
  {
    assert (chunks + more)[1..] == chunks[1..] + more;
  }

  /** Chunks queued meanwhile do not change what comes before them. */
  lemma {:induction false} MixedAppend(chunks: seq<Chunk>, more: seq<Chunk>, pos: nat, outRate: nat, n: nat)
    requires AllValid(chunks) && AllValid(more) && outRate > 0 && pos < W
    requires |Mixed(chunks, pos, outRate, n).out| == n
    ensures var m := Mixed(chunks, pos, outRate, n);
            Mixed(chunks + more, pos, outRate, n) == Mix(m.out, m.rest + more, m.pos)
    decreases n, |chunks|
  {
    hide SampleAt, FrameAt, StepOf, Chunk.Count;
    if n == 0 {
    } else {
      if pos / ONE >= chunks[0].Count() {
        assert (chunks + more)[1..] == chunks[1..] + more;
        MixedAppend(chunks[1..], more, pos - chunks[0].Count() * ONE, outRate, n);
      } else {
        MixedAppendEmit(chunks, more, pos, outRate, n);
      }
    }
  }

  lemma {:induction false} MixedAppendEmit(chunks: seq<Chunk>, more: seq<Chunk>, pos: nat, outRate: nat, n: nat)
    requires AllValid(chunks) && AllValid(more) && outRate > 0 && pos < W
    requires n > 0 && chunks != [] && pos / ONE < chunks[0].Count()
    requires |Mixed(chunks, pos, outRate, n).out| == n
    ensures var m := Mixed(chunks, pos, outRate, n);
            Mixed(chunks + more, pos, outRate, n) == Mix(m.out, m.rest + more, m.pos)
    decreases n, |chunks|, 0
  {
    hide SampleAt, FrameAt, StepOf, Chunk.Count, Mixed, NextQueue, NextPos;
    var next := (pos + StepOf(chunks[0], outRate)) % W;
    MixedEmit(chunks, pos, outRate, n);
    MixedEmit(chunks + more, pos, outRate, n);
    NextAppend(chunks, more, next);
    MixedAppend(NextQueue(chunks, next), more, NextPos(chunks, next), outRate, n - 1);
  }

  /** A request that runs dry has used up its chunks; whatever is queued later goes on from there. */
  lemma {:induction false} MixedDry(chunks: seq<Chunk>, more: seq<Chunk>, pos: nat, outRate: nat, n: nat, later: nat)
    requires AllValid(chunks) && AllValid(more) && outRate > 0 && pos < W && later > 0
    requires |Mixed(chunks, pos, outRate, n).out| < n
    ensures var m := Mixed(chunks, pos, outRate, n);
            var k := Mixed(more, m.pos, outRate, later);
            Mixed(chunks + more, pos, outRate, |m.out| + later) == Mix(m.out + k.out, k.rest, k.pos)
    decreases n, |chunks|
  {
    hide SampleAt, FrameAt, StepOf, Chunk.Count;
    if chunks == [] {
      assert [] + more == more;
      var k := Mixed(more, pos, outRate, later);
      assert [] + k.out == k.out;
    } else if pos / ONE >= chunks[0].Count() {
      assert (chunks + more)[1..] == chunks[1..] + more;
      MixedDry(chunks[1..], more, pos - chunks[0].Count() * ONE, outRate, n, later);
    } else {
      MixedDryEmit(chunks, more, pos, outRate, n, later);
    }
  }

  lemma {:induction false} MixedDryEmit(chunks: seq<Chunk>, more: seq<Chunk>, pos: nat, outRate: nat, n: nat, later: nat)
    requires AllValid(chunks) && AllValid(more) && outRate > 0 && pos < W && later > 0
    requires chunks != [] && pos / ONE < chunks[0].Count() && |Mixed(chunks, pos, outRate, n).out| < n
    ensures var m := Mixed(chunks, pos, outRate, n);
            var k := Mixed(more, m.pos, outRate, later);
            Mixed(chunks + more, pos, outRate, |m.out| + later) == Mix(m.out + k.out, k.rest, k.pos)
    decreases n, |chunks|, 0
  {
    hide SampleAt, FrameAt, StepOf, Chunk.Count, Mixed, NextQueue, NextPos;
    var next := (pos + StepOf(chunks[0], outRate)) % W;
    var f := [FrameAt(chunks[0], pos / ONE)];
    var rest := Mixed(NextQueue(chunks, next), NextPos(chunks, next), outRate, n - 1);
    MixedEmit(chunks, pos, outRate, n);
    MixedEmit(chunks + more, pos, outRate, 1 + |rest.out| + later);
    NextAppend(chunks, more, next);
    MixedDry(NextQueue(chunks, next), more, NextPos(chunks, next), outRate, n - 1, later);
    var k := Mixed(more, rest.pos, outRate, later);
    assert f + (rest.out + k.out) == (f + rest.out) + k.out;
  }

  // ── The same without chunks ─────────────────────────────────────────────

  function FramesOf(c: Chunk): seq<Frame>
    requires c.Valid()
  {
    seq(c.Count(), k requires 0 <= k < c.Count() => FrameAt(c, k))
  }

  ghost function Audio(chunks: seq<Chunk>): seq<Frame>
    requires AllValid(chunks)
  {
    if chunks == [] then [] else FramesOf(chunks[0]) + Audio(chunks[1..])
  }

  /** Resampling one piece of audio: every step-th frame from the position on, while there are any. */
  function Resampled(audio: seq<Frame>, pos: nat, step: nat, n: nat): seq<Frame>
    decreases n
  {
    if n == 0 || pos / ONE >= |audio| then [] else [audio[pos / ONE]] + Resampled(audio, pos + step, step, n - 1)
  }

  lemma {:induction false} ResampledAt(audio: seq<Frame>, pos: nat, step: nat, n: nat, k: nat)
    requires k < n
    ensures k < |Resampled(audio, pos, step, n)| <==> (pos + k * step) / ONE < |audio|
    ensures k < |Resampled(audio, pos, step, n)| ==> Resampled(audio, pos, step, n)[k] == audio[(pos + k * step) / ONE]
    decreases n
  {
    if k == 0 {
    } else {
      assert pos + k * step == pos + step + (k - 1) * step;
      if pos / ONE < |audio| {
        ResampledAt(audio, pos + step, step, n - 1, k - 1);
      } else {
        assert pos <= pos + k * step;
      }
    }
  }

  /** Audio before the position does not matter. */
  lemma {:induction false} ResampledShift(before: seq<Frame>, audio: seq<Frame>, pos: nat, step: nat, n: nat)
    ensures Resampled(before + audio, pos + |before| * ONE, step, n) == Resampled(audio, pos, step, n)
    decreases n
  {
    if n > 0 && pos / ONE < |audio| {
      assert (pos + |before| * ONE) / ONE == |before| + pos / ONE;
      assert pos + step + |before| * ONE == pos + |before| * ONE + step;
      ResampledShift(before, audio, pos + step, step, n - 1);
    }
  }

  // ── What the bytes of a chunk are ───────────────────────────────────────

  /** 16 bits signed, or 8 bits, which are the upper ones of 16. */
  predicate IsSample(v: int, bits: int) {
    -0x8000 <= v < 0x8000 && (bits == 8 ==> v % 256 == 0)
  }

  /** A frame that a format can hold: samples of its width, and one and the same on both sides for mono. */
  predicate IsFrame(frame: Frame, f: Format) {
    && IsFormat(f) && IsSample(frame.left, f.bits) && IsSample(frame.right, f.bits)
    && (f.channels == 1 ==> frame.left == frame.right)
  }

  /** A sample as PCM has it: two bytes, the low one first, in two's complement; or one byte, with 128 for silence. */
  function SampleBytes(v: int, bits: int): (bytes: seq<byte>)
    requires IsSample(v, bits)
    ensures |bytes| == if bits == 16 then 2 else 1
  {
    if bits == 16 then var u := if v < 0 then v + 0x1_0000 else v; [u % 256, u / 256]
    else [v / 256 + 128]
  }

  /** How many bytes so many frames take. */
  function Bytes(frames: nat, f: Format): nat {
    if f.bits == 16 then if f.channels == 2 then 4 * frames else 2 * frames
    else if f.channels == 2 then 2 * frames else frames
  }

  /** The left sample and then the right one, or the only one. */
  function FrameBytes(frame: Frame, f: Format): (bytes: seq<byte>)
    requires IsFrame(frame, f)
    ensures |bytes| == Bytes(1, f)
  {
    if f.channels == 1 then SampleBytes(frame.left, f.bits)
    else SampleBytes(frame.left, f.bits) + SampleBytes(frame.right, f.bits)
  }

  ghost predicate AreFrames(frames: seq<Frame>, f: Format) {
    forall i | 0 <= i < |frames| :: IsFrame(frames[i], f)
  }

  function Pcm(frames: seq<Frame>, f: Format): (data: seq<byte>)
    requires forall i | 0 <= i < |frames| :: IsFrame(frames[i], f)
    ensures |data| == Bytes(|frames|, f)
  {
    if frames == [] then [] else Pcm(frames[..|frames| - 1], f) + FrameBytes(frames[|frames| - 1], f)
  }

  /** Where a frame is among the bytes. */
  lemma {:induction false} PcmAt(frames: seq<Frame>, f: Format, k: nat)
    requires AreFrames(frames, f) && k < |frames|
    ensures Bytes(k + 1, f) <= |Pcm(frames, f)|
    ensures Pcm(frames, f)[Bytes(k, f)..Bytes(k + 1, f)] == FrameBytes(frames[k], f)
    decreases |frames|
  {
    hide FrameBytes, IsFrame;
    var m := |frames| - 1;
    var front := Pcm(frames[..m], f);
    if k == m {
    } else {
      PcmAt(frames[..m], f, k);
      assert Pcm(frames, f)[..|front|] == front;
      assert Pcm(frames, f)[Bytes(k, f)..Bytes(k + 1, f)] == front[Bytes(k, f)..Bytes(k + 1, f)];
    }
  }

  lemma CountIs(c: Chunk, f: Format, k: nat, rest: nat)
    requires c.Valid() && c.bits == f.bits && c.channels == f.channels && |c.data| == Bytes(k, f) + rest < Bytes(k + 1, f)
    ensures c.Count() == k
  {
    assert (c.bits / 8) * c.channels == Bytes(1, f);
  }

  lemma Sample16(c: Chunk, frame: nat, channel: nat, index: nat, v: int)
    requires c.Valid() && c.bits == 16 && frame < c.Count() && channel < 2 && IsSample(v, 16)
    requires index == frame * c.channels + (if c.channels > 1 then channel else 0)
    requires 2 * index + 2 <= |c.data| && c.data[2 * index..2 * index + 2] == SampleBytes(v, 16)
    ensures SampleAt(c, frame, channel) == v
  {
    var bytes := c.data[2 * index..2 * index + 2];
    assert bytes[0] == c.data[2 * index] && bytes[1] == c.data[2 * index + 1];
  }

  lemma Sample8(c: Chunk, frame: nat, channel: nat, index: nat, v: int)
    requires c.Valid() && c.bits == 8 && frame < c.Count() && channel < 2 && IsSample(v, 8)
    requires index == frame * c.channels + (if c.channels > 1 then channel else 0)
    requires index + 1 <= |c.data| && c.data[index..index + 1] == SampleBytes(v, 8)
    ensures SampleAt(c, frame, channel) == v
  {
    assert c.data[index..index + 1][0] == c.data[index];
  }

  lemma FrameReads(c: Chunk, k: nat, frame: Frame, f: Format)
    requires c.Valid() && k < c.Count() && IsFrame(frame, f) && c.bits == f.bits && c.channels == f.channels
    requires Bytes(k + 1, f) <= |c.data| && c.data[Bytes(k, f)..Bytes(k + 1, f)] == FrameBytes(frame, f)
    ensures FrameAt(c, k) == frame
  {
    hide SampleAt, SampleBytes, Chunk.Count;
    var bytes, at := FrameBytes(frame, f), Bytes(k, f);
    if f.bits == 16 && f.channels == 2 {
      assert c.data[at..at + 4] == bytes;
      assert c.data[at..at + 2] == bytes[..2] && c.data[at + 2..at + 4] == bytes[2..];
      Sample16(c, k, 0, 2 * k, frame.left);
      Sample16(c, k, 1, 2 * k + 1, frame.right);
    } else if f.bits == 16 {
      Sample16(c, k, 0, k, frame.left);
      Sample16(c, k, 1, k, frame.right);
    } else if f.channels == 2 {
      assert c.data[at..at + 2] == bytes;
      assert c.data[at..at + 1] == bytes[..1] && c.data[at + 1..at + 2] == bytes[1..];
      Sample8(c, k, 0, 2 * k, frame.left);
      Sample8(c, k, 1, 2 * k + 1, frame.right);
    } else {
      Sample8(c, k, 0, k, frame.left);
      Sample8(c, k, 1, k, frame.right);
    }
  }

  /**
   * The frames read out of a chunk are those its bytes encode, for both widths and both channel counts, all of
   * them, whatever bytes too few for another frame come after them.
   */
  lemma FramesOfPcm(frames: seq<Frame>, f: Format, rest: seq<byte>)
    requires IsFormat(f) && AreFrames(frames, f) && |rest| < Bytes(1, f) && Bytes(|frames|, f) + |rest| <= CHUNK_MAX
    ensures FramesOf(Chunk(Pcm(frames, f) + rest, f.bits, f.channels, f.rate)) == frames
  {
    hide FrameAt, FrameBytes, Chunk.Count, Pcm;
    var c := Chunk(Pcm(frames, f) + rest, f.bits, f.channels, f.rate);
    CountIs(c, f, |frames|, |rest|);
    forall k: nat | k < |frames|
      ensures FrameAt(c, k) == frames[k]
    {
      PcmAt(frames, f, k);
      assert c.data[Bytes(k, f)..Bytes(k + 1, f)] == Pcm(frames, f)[Bytes(k, f)..Bytes(k + 1, f)];
      FrameReads(c, k, frames[k], f);
    }
  }

  /** All chunks have the rate that gives this step. */
  ghost predicate OneRate(chunks: seq<Chunk>, outRate: nat, step: nat)
    requires outRate > 0
  {
    AllValid(chunks) && step <= MAX_STEP && forall i | 0 <= i < |chunks| :: StepOf(chunks[i], outRate) == step
  }

  /** Dropping a finished chunk leaves what is heard. */
  lemma ResampledNext(chunks: seq<Chunk>, pos: nat, step: nat, n: nat)
    requires chunks != [] && AllValid(chunks)
    ensures Resampled(Audio(NextQueue(chunks, pos)), NextPos(chunks, pos), step, n) == Resampled(Audio(chunks), pos, step, n)
  {
    if pos / ONE >= chunks[0].Count() {
      ResampledShift(FramesOf(chunks[0]), Audio(chunks[1..]), NextPos(chunks, pos), step, n);
    }
  }

  lemma AudioStarts(chunks: seq<Chunk>, k: nat)
    requires chunks != [] && AllValid(chunks) && k < chunks[0].Count()
    ensures k < |Audio(chunks)| && Audio(chunks)[k] == FrameAt(chunks[0], k)
  {
  }

  /**
   * Chunk boundaries cannot be heard: whatever the sizes of the chunks (empty ones too), output
   * frame k is the frame at (pos + k * step) / 65536 of all the queued audio.
   */
  lemma {:induction false} MixedIsResampled(chunks: seq<Chunk>, pos: nat, outRate: nat, n: nat, step: nat)
    requires outRate > 0 && pos < W && OneRate(chunks, outRate, step)
    ensures Mixed(chunks, pos, outRate, n).out == Resampled(Audio(chunks), pos, step, n)
    decreases n, |chunks|
  {
    hide SampleAt, FrameAt, StepOf;
    if n > 0 && chunks != [] {
      if pos / ONE >= chunks[0].Count() {
        NextMixed(chunks, pos, outRate, n);
        ResampledNext(chunks, pos, step, n);
        MixedIsResampled(NextQueue(chunks, pos), NextPos(chunks, pos), outRate, n, step);
      } else {
        MixedOneRate(chunks, pos, outRate, n, step);
      }
    }
  }

  lemma {:induction false} MixedOneRate(chunks: seq<Chunk>, pos: nat, outRate: nat, n: nat, step: nat)
    requires outRate > 0 && pos < W && OneRate(chunks, outRate, step)
    requires n > 0 && chunks != [] && pos / ONE < chunks[0].Count()
    ensures Mixed(chunks, pos, outRate, n).out == Resampled(Audio(chunks), pos, step, n)
    decreases n, |chunks|, 0
  {
    hide SampleAt, FrameAt, StepOf, Mixed, Audio;
    var next := pos + step;
    MixedEmit(chunks, pos, outRate, n);
    AudioStarts(chunks, pos / ONE);
    MixedIsResampled(NextQueue(chunks, next), NextPos(chunks, next), outRate, n - 1, step);
    ResampledNext(chunks, next, step, n - 1);
  }

  // ── Chunks queued between requests ──────────────────────────────────────

  datatype Op = Buffering(data: seq<byte>) | Mixing(frames: nat)

  /** What came of a run: what each request asked for and got, what is left, and what was queued. */
  datatype Course = Course(asked: seq<nat>, pieces: seq<seq<Frame>>, rest: seq<Chunk>, pos: nat, queued: seq<Chunk>)

  ghost function OneOp(c: Course, op: Op, outRate: nat, f: Format): (d: Course)
    requires AllValid(c.rest) && AllValid(c.queued) && outRate > 0 && c.pos < W && IsFormat(f)
    ensures AllValid(d.rest) && AllValid(d.queued) && d.pos < W
    ensures d.queued == c.queued || exists k: Chunk :: d.queued == c.queued + [k] && k.rate == f.rate
  {
    match op
    case Buffering(data) =>
      var k := Chunk(data[..Min(|data|, CHUNK_MAX)], f.bits, f.channels, f.rate);
      if |c.rest| < QUEUE_LEN then c.(rest := c.rest + [k], queued := c.queued + [k]) else c
    case Mixing(frames) =>
      var m := Mixed(c.rest, c.pos, outRate, frames);
      c.(asked := c.asked + [frames], pieces := c.pieces + [m.out], rest := m.rest, pos := m.pos)
  }

  ghost function CourseOf(ops: seq<Op>, chunks: seq<Chunk>, pos: nat, outRate: nat, f: Format): (c: Course)
    requires AllValid(chunks) && outRate > 0 && pos < W && IsFormat(f)
    ensures AllValid(c.rest) && AllValid(c.queued) && c.pos < W
    ensures forall i | 0 <= i < |c.queued| :: c.queued[i].rate == f.rate
    decreases |ops|
  {
    if ops == [] then Course([], [], chunks, pos, [])
    else OneOp(CourseOf(ops[..|ops| - 1], chunks, pos, outRate, f), ops[|ops| - 1], outRate, f)
  }

  function Joined(pieces: seq<seq<Frame>>): seq<Frame> {
    if pieces == [] then [] else Joined(pieces[..|pieces| - 1]) + pieces[|pieces| - 1]
  }

  ghost predicate Goes(all: seq<Chunk>, from: nat, outRate: nat, out: seq<Frame>, rest: seq<Chunk>, pos: nat,
                       more: seq<Chunk>, n: nat)
    requires AllValid(all) && AllValid(rest) && AllValid(more) && outRate > 0 && from < W && pos < W
  {
    var m := Mixed(rest + more, pos, outRate, n);
    Mixed(all + more, from, outRate, |out| + n) == Mix(out + m.out, m.rest, m.pos)
  }

  /** What came out so far is the start of what mixing everything gives, whatever is queued from here on. */
  ghost predicate Ahead(all: seq<Chunk>, from: nat, outRate: nat, out: seq<Frame>, rest: seq<Chunk>, pos: nat)
    requires AllValid(all) && AllValid(rest) && outRate > 0 && from < W && pos < W
  {
    forall more: seq<Chunk>, n: nat | AllValid(more) && n > 0 :: Goes(all, from, outRate, out, rest, pos, more, n)
  }

  lemma AheadAtFirst(all: seq<Chunk>, from: nat, outRate: nat)
    requires AllValid(all) && outRate > 0 && from < W
    ensures Ahead(all, from, outRate, [], all, from)
  {
    hide Mixed;
    forall more: seq<Chunk>, n: nat | AllValid(more) && n > 0
      ensures Goes(all, from, outRate, [], all, from, more, n)
    {
      var m := Mixed(all + more, from, outRate, n);
      assert [] + m.out == m.out;
    }
  }

  lemma AheadBuffered(all: seq<Chunk>, from: nat, outRate: nat, out: seq<Frame>, rest: seq<Chunk>, pos: nat, c: Chunk)
    requires AllValid(all) && AllValid(rest) && outRate > 0 && from < W && pos < W && c.Valid()
    requires Ahead(all, from, outRate, out, rest, pos)
    ensures Ahead(all + [c], from, outRate, out, rest + [c], pos)
  {
    hide Mixed;
    forall more: seq<Chunk>, n: nat | AllValid(more) && n > 0
      ensures Goes(all + [c], from, outRate, out, rest + [c], pos, more, n)
    {
      assert Goes(all, from, outRate, out, rest, pos, [c] + more, n);
      assert all + ([c] + more) == all + [c] + more && rest + ([c] + more) == rest + [c] + more;
    }
  }

  lemma AheadMixed(all: seq<Chunk>, from: nat, outRate: nat, out: seq<Frame>, rest: seq<Chunk>, pos: nat, frames: nat)
    requires AllValid(all) && AllValid(rest) && outRate > 0 && from < W && pos < W
    requires Ahead(all, from, outRate, out, rest, pos)
    ensures var m := Mixed(rest, pos, outRate, frames); Ahead(all, from, outRate, out + m.out, m.rest, m.pos)
  {
    hide Mixed;
    var m := Mixed(rest, pos, outRate, frames);
    forall more: seq<Chunk>, n: nat | AllValid(more) && n > 0
      ensures Goes(all, from, outRate, out + m.out, m.rest, m.pos, more, n)
    {
      assert Goes(all, from, outRate, out, rest, pos, more, |m.out| + n);
      var k := Mixed(m.rest + more, m.pos, outRate, n);
      assert out + (m.out + k.out) == out + m.out + k.out;
      if |m.out| == frames {
        MixedAppend(rest, more, pos, outRate, frames);
        MixedSplits(rest + more, pos, outRate, frames, n);
      } else {
        assert m.rest + more == more;
        MixedDry(rest, more, pos, outRate, frames, n);
      }
    }
  }

  lemma {:induction false} CourseAhead(ops: seq<Op>, chunks: seq<Chunk>, pos: nat, outRate: nat, f: Format)
    requires AllValid(chunks) && outRate > 0 && pos < W && IsFormat(f)
    ensures var c := CourseOf(ops, chunks, pos, outRate, f);
            Ahead(chunks + c.queued, pos, outRate, Joined(c.pieces), c.rest, c.pos)
    decreases |ops|
  {
    hide Ahead, Mixed;
    if ops == [] {
      assert chunks + [] == chunks;
      AheadAtFirst(chunks, pos, outRate);
    } else {
      var c := CourseOf(ops[..|ops| - 1], chunks, pos, outRate, f);
      CourseAhead(ops[..|ops| - 1], chunks, pos, outRate, f);
      match ops[|ops| - 1] {
        case Buffering(data) =>
          var k := Chunk(data[..Min(|data|, CHUNK_MAX)], f.bits, f.channels, f.rate);
          AheadBuffered(chunks + c.queued, pos, outRate, Joined(c.pieces), c.rest, c.pos, k);
          assert chunks + c.queued + [k] == chunks + (c.queued + [k]);
        case Mixing(frames) =>
          var m := Mixed(c.rest, c.pos, outRate, frames);
          AheadMixed(chunks + c.queued, pos, outRate, Joined(c.pieces), c.rest, c.pos, frames);
          assert (c.pieces + [m.out])[..|c.pieces|] == c.pieces;
      }
    }
  }

  lemma NothingMixed(pos: nat, outRate: nat, n: nat)
    requires outRate > 0 && pos < W
    ensures Mixed([], pos, outRate, n).out == []
  {
  }

  /**
   * However requests and newly queued chunks follow one another, and even where the voice ran dry in
   * between, what comes out, put together, is what one request on all the chunks gives.
   */
  lemma PiecesAreOne(ops: seq<Op>, chunks: seq<Chunk>, pos: nat, outRate: nat, f: Format)
    requires AllValid(chunks) && outRate > 0 && pos < W && IsFormat(f)
    ensures var c := CourseOf(ops, chunks, pos, outRate, f);
            Joined(c.pieces) == Mixed(chunks + c.queued, pos, outRate, |Joined(c.pieces)|).out
  {
    hide Mixed, CourseOf;
    var c := CourseOf(ops, chunks, pos, outRate, f);
    var all, out := chunks + c.queued, Joined(c.pieces);
    CourseAhead(ops, chunks, pos, outRate, f);
    assert Goes(all, pos, outRate, out, c.rest, c.pos, [], 1);
    assert all + [] == all;
    var first := Mixed(all, pos, outRate, |out|);
    MixedSplits(all, pos, outRate, |out|, 1);
    if |first.out| < |out| {
      NothingMixed(first.pos, outRate, 1);
    }
    assert first.out == (first.out + Mixed(first.rest, first.pos, outRate, 1).out)[..|out|];
  }

  /** So frame k of it all is the frame at (pos + k * step) / 65536 of all the audio there was. */
  lemma HeardAt(ops: seq<Op>, chunks: seq<Chunk>, pos: nat, outRate: nat, f: Format, step: nat, k: nat)
    requires AllValid(chunks) && outRate > 0 && pos < W && IsFormat(f)
    requires OneRate(chunks + CourseOf(ops, chunks, pos, outRate, f).queued, outRate, step)
    requires k < |Joined(CourseOf(ops, chunks, pos, outRate, f).pieces)|
    ensures var c := CourseOf(ops, chunks, pos, outRate, f);
            var audio, at := Audio(chunks + c.queued), (pos + k * step) / ONE;
            at < |audio| && Joined(c.pieces)[k] == audio[at]
  {
    hide Mixed, CourseOf;
    var c := CourseOf(ops, chunks, pos, outRate, f);
    PiecesAreOne(ops, chunks, pos, outRate, f);
    MixedIsResampled(chunks + c.queued, pos, outRate, |Joined(c.pieces)|, step);
    ResampledAt(Audio(chunks + c.queued), pos, step, |Joined(c.pieces)|, k);
  }

  // ── The loop's bookkeeping ──────────────────────────────────────────────

  /** Mixing n frames from the start is what is done so far, and mixing the rest from here. */
  ghost predicate Continues(queue: seq<Chunk>, from: nat, outRate: nat, n: nat, done: seq<Frame>,
                            rest: seq<Chunk>, pos: nat)
    requires AllValid(queue) && AllValid(rest) && outRate > 0 && from < W && pos < W && |done| <= n
  {
    var m := Mixed(rest, pos, outRate, n - |done|);
    Mixed(queue, from, outRate, n) == Mix(done + m.out, m.rest, m.pos)
  }

  /** The accumulator has the frames done so far added, and nothing else. */
  ghost predicate Added(acc: seq<int>, before: seq<int>, frames: nat, volume: nat, done: seq<Frame>)
    requires |acc| == |before| == 2 * frames
  {
    forall k | 0 <= k < frames ::
      && acc[2 * k] == before[2 * k] + (if k < |done| then Scaled(done[k].left, volume) else 0)
      && acc[2 * k + 1] == before[2 * k + 1] + (if k < |done| then Scaled(done[k].right, volume) else 0)
  }

  lemma Beginning(queue: seq<Chunk>, from: nat, outRate: nat, n: nat, acc: seq<int>, volume: nat)
    requires AllValid(queue) && outRate > 0 && from < W && |acc| == 2 * n
    ensures Continues(queue, from, outRate, n, [], queue, from) && Added(acc, acc, n, volume, [])
  {
    var m := Mixed(queue, from, outRate, n);
    assert [] + m.out == m.out;
  }

  lemma ContinuesNext(queue: seq<Chunk>, from: nat, outRate: nat, n: nat, done: seq<Frame>, cur: seq<Chunk>, pos: nat)
    requires AllValid(queue) && AllValid(cur) && cur != [] && outRate > 0 && from < W && pos < W && |done| < n
    requires Continues(queue, from, outRate, n, done, cur, pos)
    ensures Continues(queue, from, outRate, n, done, NextQueue(cur, pos), NextPos(cur, pos))
  {
    NextMixed(cur, pos, outRate, n - |done|);
  }

  lemma MixedAll(queue: seq<Chunk>, from: nat, outRate: nat, done: seq<Frame>, rest: seq<Chunk>, pos: nat)
    requires AllValid(queue) && AllValid(rest) && outRate > 0 && from < W && pos < W
    requires Continues(queue, from, outRate, |done|, done, rest, pos)
    ensures Mixed(queue, from, outRate, |done|) == Mix(done, rest, pos)
  {
    assert done + [] == done;
  }

  lemma MixedEnd(queue: seq<Chunk>, from: nat, outRate: nat, n: nat, done: seq<Frame>, pos: nat)
    requires AllValid(queue) && outRate > 0 && from < W && pos < W && |done| <= n
    requires Continues(queue, from, outRate, n, done, [], pos)
    ensures Mixed(queue, from, outRate, n) == Mix(done, [], pos)
  {
    assert done + [] == done;
  }

  lemma ContinuesOne(queue: seq<Chunk>, from: nat, outRate: nat, n: nat, done: seq<Frame>, cur: seq<Chunk>, pos: nat)
    requires AllValid(queue) && AllValid(cur) && cur != [] && outRate > 0 && from < W && pos < W && |done| < n
    requires pos / ONE < cur[0].Count()
    requires Continues(queue, from, outRate, n, done, cur, pos)
    ensures var next := (pos + StepOf(cur[0], outRate)) % W;
            Continues(queue, from, outRate, n, done + [FrameAt(cur[0], pos / ONE)], NextQueue(cur, next), NextPos(cur, next))
  {
    var next := (pos + StepOf(cur[0], outRate)) % W;
    var f := [FrameAt(cur[0], pos / ONE)];
    var m := Mixed(NextQueue(cur, next), NextPos(cur, next), outRate, n - |done| - 1);
    assert Mixed(cur, pos, outRate, n - |done|) == Mix(f + m.out, m.rest, m.pos);
    assert done + (f + m.out) == (done + f) + m.out;
  }

  ghost function Silence(frames: nat): (s: seq<int>)
    ensures |s| == 2 * frames
  {
    seq(2 * frames, _ => 0)
  }

  /** These are the sums of one request on silence. */
  ghost predicate Fits(sum: seq<int>, asked: nat, piece: seq<Frame>, volume: nat) {
    |sum| == 2 * asked && Added(sum, Silence(asked), asked, volume, piece)
  }

  ghost predicate AreSums(sums: seq<seq<int>>, asked: seq<nat>, pieces: seq<seq<Frame>>, volume: nat) {
    |sums| == |asked| == |pieces| && forall i | 0 <= i < |sums| :: Fits(sums[i], asked[i], pieces[i], volume)
  }

  lemma SumFits(sum: seq<int>, asked: nat, piece: seq<Frame>, volume: nat)
    requires |sum| == 2 * asked && Added(sum, Silence(asked), asked, volume, piece)
    ensures Fits(sum, asked, piece, volume)
  {
  }

  lemma AddedOne(was: seq<int>, acc: seq<int>, before: seq<int>, frames: nat, volume: nat, done: seq<Frame>, f: Frame)
    requires |was| == |acc| == |before| == 2 * frames && |done| < frames
    requires Added(was, before, frames, volume, done)
    requires acc == was[2 * |done| := was[2 * |done|] + Scaled(f.left, volume)]
                       [2 * |done| + 1 := was[2 * |done| + 1] + Scaled(f.right, volume)]
    ensures Added(acc, before, frames, volume, done + [f])
  {
  }

  // ── Voices ──────────────────────────────────────────────────────────────

  ghost function QueueOf(chunks: seq<Chunk>, head: nat, n: nat): (q: seq<Chunk>)
    requires |chunks| == QUEUE_LEN
    ensures |q| == n
  {
    seq(n, k requires 0 <= k < n => chunks[(head + k) % QUEUE_LEN])
  }

  lemma QueueAppend(chunks: seq<Chunk>, head: nat, n: nat, c: Chunk)
    requires |chunks| == QUEUE_LEN && n < QUEUE_LEN
    ensures QueueOf(chunks[(head + n) % QUEUE_LEN := c], head, n + 1) == QueueOf(chunks, head, n) + [c]
  {
  }

  lemma QueueRest(chunks: seq<Chunk>, head: nat, n: nat)
    requires |chunks| == QUEUE_LEN && n > 0
    ensures QueueOf(chunks, head, n) == [chunks[head % QUEUE_LEN]] + QueueOf(chunks, head + 1, n - 1)
  {
  }

  class Voice {
    const chunks: array<Chunk>
    var head: nat      // next chunk to play
    var tail: nat      // next free chunk
    var pos: nat
    var playing: bool
    var volume: nat
    var bits: int
    var channels: int
    var rate: nat

    ghost predicate Valid()
      reads this, chunks
    {
      && chunks.Length == QUEUE_LEN
      && head <= tail <= head + QUEUE_LEN
      && pos < W && volume <= FULL_VOLUME
      && (bits == 8 || bits == 16) && (channels == 1 || channels == 2)
      && AllValid(Queue())
    }

    /** The chunks still to be played, the current one first. */
    ghost function Queue(): seq<Chunk>
      requires chunks.Length == QUEUE_LEN && head <= tail
      reads this`head, this`tail, chunks
    {
      QueueOf(chunks[..], head, tail - head)
    }

    constructor (bits: int, stereo: bool, rate: nat)
      ensures Valid() && Queue() == [] && pos == 0 && !playing && volume == FULL_VOLUME
    {
      chunks := new Chunk[QUEUE_LEN](_ => Chunk([], 8, 1, 0));
      head, tail, pos, playing, volume := 0, 0, 0, false, FULL_VOLUME;
      this.bits, channels, this.rate := if bits == 8 then 8 else 16, if stereo then 2 else 1, rate;
    }

    method FreeCount() returns (n: int)
      requires Valid()
      ensures n == QUEUE_LEN - |Queue()| && n >= 0
    {
      n := QUEUE_LEN - (tail - head);
    }

    /** Queues a chunk of what fits, if there is room for one. */
    method BufferData(data: seq<byte>)
      requires Valid()
      modifies this`tail, chunks
      ensures Valid()
      ensures Queue() == if |old(Queue())| < QUEUE_LEN
                         then old(Queue()) + [Chunk(data[..Min(|data|, CHUNK_MAX)], bits, channels, rate)] else old(Queue())
    {
      var free := FreeCount();
      if free <= 0 {
        return;
      }
      var c := Chunk(data[..Min(|data|, CHUNK_MAX)], bits, channels, rate);
      QueueAppend(chunks[..], head, tail - head, c);
      chunks[tail % QUEUE_LEN] := c;
      assert chunks[..] == old(chunks[..])[tail % QUEUE_LEN := c];
      tail := tail + 1;
    }

    method StartSample()
      requires Valid()
      modifies this`playing
      ensures Valid() && playing == (Queue() != [])
    {
      playing := head != tail;
    }

    method StopSample()
      requires Valid()
      modifies this`playing, this`head, this`pos
      ensures Valid() && !playing && Queue() == [] && pos == 0
    {
      playing, head, pos := false, tail, 0;
    }

    /** The current chunk is done. */
    method NextChunk()
      requires Valid() && head < tail && pos / ONE >= Queue()[0].Count()
      modifies this`head, this`pos
      ensures Valid() && Queue() == old(Queue())[1..]
      ensures pos == old(pos) - old(Queue())[0].Count() * ONE
    {
      hide Chunk.Count, QueueOf;
      ghost var queue := Queue();
      QueueRest(chunks[..], head, tail - head);
      assert queue[0] == chunks[head % QUEUE_LEN];
      pos := pos - chunks[head % QUEUE_LEN].Count() * ONE;
      head := head + 1;
      assert queue == [queue[0]] + Queue();
      assert Queue() == queue[1..];
    }

    /**
     * Adds up to `frames` frames of this voice into acc (stereo). What is added, and what is left
     * to play, is as Mixed says; a voice that runs dry stops.
     */
    method MixVoice(acc: array<int>, frames: nat, outRate: nat)
      requires Valid() && outRate > 0 && acc.Length == 2 * frames
      modifies this`head, this`pos, this`playing, acc
      ensures Valid()
      ensures var m := Mixed(old(Queue()), old(pos), outRate, frames);
              && Queue() == m.rest && pos == m.pos
              && playing == (old(playing) && |m.out| == frames)
              && Added(acc[..], old(acc[..]), frames, volume, m.out)
    {
      hide Mixed, SampleAt, Continues, Added, StepOf, QueueOf;
      ghost var queue, from, before := Queue(), pos, acc[..];
      ghost var done: seq<Frame> := [];
      var out := 0;
      Beginning(queue, from, outRate, frames, before, volume);
      while out < frames
        invariant 0 <= out <= frames && |done| == out && Valid() && playing == old(playing)
        invariant Continues(queue, from, outRate, frames, done, Queue(), pos)
        invariant Added(acc[..], before, frames, volume, done)
        decreases frames - out, tail - head
      {
        if head == tail {
          playing := false;  // ran dry
          assert Queue() == [];
          MixedEnd(queue, from, outRate, frames, done, pos);
          return;
        }
        out, done := MixChunk(acc, out, frames, outRate, queue, from, before, done);
      }
      MixedAll(queue, from, outRate, done, Queue(), pos);
    }

    ghost function Form(): Format
      reads this`bits, this`channels, this`rate
    {
      Format(bits, channels, rate)
    }

    /** Any chunks and requests, one after another: each request adds to silence what CourseOf says it gets. */
    method Session(ops: seq<Op>, outRate: nat) returns (sums: seq<seq<int>>)
      requires Valid() && outRate > 0
      modifies this`head, this`tail, this`pos, this`playing, chunks
      ensures Valid()
      ensures var c := CourseOf(ops, old(Queue()), old(pos), outRate, Form());
              Queue() == c.rest && pos == c.pos && AreSums(sums, c.asked, c.pieces, volume)
    {
      hide Mixed, Added, QueueOf, Fits;
      sums := [];
      ghost var queue, from, form := Queue(), pos, Form();
      for i := 0 to |ops|
        invariant Valid() && Form() == form
        invariant var c := CourseOf(ops[..i], queue, from, outRate, form);
                  Queue() == c.rest && pos == c.pos && AreSums(sums, c.asked, c.pieces, volume)
      {
        assert ops[..i + 1][..i] == ops[..i];
        match ops[i] {
          case Buffering(data) =>
            BufferData(data);
          case Mixing(frames) =>
            ghost var m := Mixed(Queue(), pos, outRate, frames);
            var acc := new int[2 * frames](_ => 0);
            assert acc[..] == Silence(frames);
            MixVoice(acc, frames, outRate);
            SumFits(acc[..], frames, m.out, volume);
            sums := sums + [acc[..]];
        }
      }
      assert ops[..|ops|] == ops;
    }

    /** Plays from the current chunk until it ends or the request is met. */
    method MixChunk(acc: array<int>, start: nat, frames: nat, outRate: nat, ghost queue: seq<Chunk>,
                    ghost from: nat, ghost before: seq<int>, ghost done: seq<Frame>)
      returns (out: nat, ghost done': seq<Frame>)
      requires Valid() && head < tail && outRate > 0 && acc.Length == 2 * frames == |before|
      requires start == |done| < frames && AllValid(queue) && from < W
      requires Continues(queue, from, outRate, frames, done, Queue(), pos)
      requires Added(acc[..], before, frames, volume, done)
      modifies this`head, this`pos, acc
      ensures Valid() && start <= out == |done'| <= frames && tail - head <= old(tail - head)
      ensures out == start ==> tail - head < old(tail - head)
      ensures Continues(queue, from, outRate, frames, done', Queue(), pos)
      ensures Added(acc[..], before, frames, volume, done')
    {
      hide Mixed, SampleAt, Continues, Added, StepOf, QueueOf;
      ghost var cur := Queue();
      out, done' := start, done;
      QueueRest(chunks[..], head, tail - head);
      var c := chunks[head % QUEUE_LEN];
      assert cur[0] == c;
      var count := c.Count();
      var step := StepOf(c, outRate);
      ContinuesNext(queue, from, outRate, frames, done, cur, pos);
      while out < frames && pos / ONE < count
        invariant start <= out == |done'| <= frames && Valid() && head < tail && Queue() == cur
        invariant out == start ==> pos == old(pos)
        invariant Continues(queue, from, outRate, frames, done', NextQueue(cur, pos), NextPos(cur, pos))
        invariant Added(acc[..], before, frames, volume, done')
        decreases frames - out
      {
        var frame := pos / ONE;
        ghost var was := acc[..];
        acc[out * 2] := acc[out * 2] + Scaled(SampleAt(c, frame, 0), volume);
        acc[out * 2 + 1] := acc[out * 2 + 1] + Scaled(SampleAt(c, frame, 1), volume);
        AddedOne(was, acc[..], before, frames, volume, done', FrameAt(c, frame));
        ContinuesOne(queue, from, outRate, frames, done', cur, pos);
        done' := done' + [FrameAt(c, frame)];
        pos := (pos + step) % W;
        out := out + 1;
      }
      if pos / ONE >= count {
        NextChunk();
      }
    }
  }
}
