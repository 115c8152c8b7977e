/**
 * What the player's steps are for: a packet becomes a picture that is shown, a seek
 * leaves nothing of the old input anywhere, and a picture is given up only for a
 * reason. PlayerPipeline says what can never happen; this is what does.
 */
module PlayerProgress {
  import opened Basics
  import opened Q = SpscQueue
  import opened P = PlayerPipeline

  /** The state after further steps. */
  function After(s: State, steps: seq<Step>): State
    decreases |steps|
  {
    if steps == [] then s else After(Apply(s, steps[0]), steps[1..])
  }

  lemma AfterOne(s: State, step: Step)
    ensures After(s, [step]) == Apply(s, step)
  {
    assert [step][1..] == [];
  }

  lemma {:induction false} AfterSplits(s: State, a: seq<Step>, b: seq<Step>)
    ensures After(s, a + b) == After(After(s, a), b)
    decreases |a|
  {
    hide Apply;
    if a == [] {
      assert a + b == b;
    } else {
      assert (a + b)[0] == a[0] && (a + b)[1..] == a[1..] + b;
      AfterSplits(Apply(s, a[0]), a[1..], b);
    }
  }

  lemma TwoSteps(s: State, a: Step, s1: State, b: Step, t: State)
    requires Apply(s, a) == s1 && Apply(s1, b) == t
    ensures After(s, [a] + [b]) == t
  {
    hide After, Apply;
    AfterOne(s, a);
    AfterOne(s1, b);
    AfterSplits(s, [a], [b]);
  }

  lemma ThreeSteps(s: State, a: Step, s1: State, b: Step, s2: State, c: Step, t: State)
    requires Apply(s, a) == s1 && Apply(s1, b) == s2 && Apply(s2, c) == t
    ensures After(s, [a] + [b] + [c]) == t
  {
    hide After, Apply;
    TwoSteps(s, a, s1, b, s2);
    AfterOne(s2, c);
    AfterSplits(s, [a] + [b], [c]);
  }

  lemma FourSteps(s: State, a: Step, s1: State, b: Step, s2: State, c: Step, s3: State, d: Step, t: State)
    requires Apply(s, a) == s1 && Apply(s1, b) == s2 && Apply(s2, c) == s3 && Apply(s3, d) == t
    ensures After(s, [a] + [b] + [c] + [d]) == t
  {
    hide After, Apply;
    ThreeSteps(s, a, s1, b, s2, c, s3);
    AfterOne(s3, d);
    AfterSplits(s, [a] + [b] + [c], [d]);
  }

  lemma {:induction false} RunContinues(steps: seq<Step>, more: seq<Step>)
    ensures Run(steps + more) == After(Run(steps), more)
    decreases |more|
  {
    hide Apply;
    if more == [] {
      assert steps + more == steps;
    } else {
      var n := |more| - 1;
      assert (steps + more)[..|steps| + n] == steps + more[..n];
      RunContinues(steps, more[..n]);
      assert more == more[..n] + [more[n]];
      AfterSplits(Run(steps), more[..n], [more[n]]);
      AfterOne(After(Run(steps), more[..n]), more[n]);
    }
  }

  lemma {:induction false} InvAfter(s: State, steps: seq<Step>)
    requires Inv(s)
    ensures Inv(After(s, steps))
    decreases |steps|
  {
    hide Apply, Inv;
    if steps == [] {
    } else {
      InvStays(s, steps[0]);
      InvAfter(Apply(s, steps[0]), steps[1..]);
    }
  }

  // ── Which pictures are given up ─────────────────────────────────────────

  /** A picture of the serial in force is right behind the one the main task looks at. */
  predicate AnotherWaits(s: State) {
    |s.readyq| > 1 && 0 <= s.readyq[1] < |s.slots| && s.slots[s.readyq[1]] == Picture(s.serial, s.serial)
  }

  /**
   * In every run: a chosen picture goes back unshown if and only if it is late and another of the same
   * serial waits behind it; it is left for later if and only if the main task waits; otherwise it is shown.
   */
  lemma OnlyLateIsSkipped(steps: seq<Step>, step: Step)
    requires Run(steps).main.Chosen?
    ensures var s, t := Run(steps), Run(steps + [step]);
            && (t.main.Returning? <==> step == MainDecide(false, true) && AnotherWaits(s))
            && (t.main.Showing? <==> step == MainDecide(false, false) || (step == MainDecide(false, true) && !AnotherWaits(s)))
            && (t.main.Resting? <==> step.MainDecide? && step.wait)
            && (t.main.Resting? ==> t.readyq == s.readyq && t.slots == s.slots)
            && (t.main.Returning? || t.main.Showing? ==>
                t.main.slot == s.main.slot && s.readyq == [s.main.slot] + t.readyq && t.slots == s.slots)
  {
    InvHolds(steps);
    var s := Run(steps);
    assert (steps + [step])[..|steps|] == steps;
    if |s.readyq| > 1 {
      assert Truthful(s, s.readyq[1]);
    }
    if !ByMain(step) {
      ChosenStaysOne(s, step);
    }
  }

  /** A picture at the front of the ready queue is chosen if and only if it is of the serial in force, and else goes back. */
  lemma CheckedBySerial(steps: seq<Step>)
    requires Run(steps).main.Peeked?
    ensures 0 <= Run(steps).main.slot < |Run(steps).slots|
    ensures var s, t := Run(steps), Run(steps + [MainCheck]);
            if s.slots[s.main.slot] == Picture(s.serial, s.serial) then t == s.(main := Chosen(s.main.slot))
            else t.main == Returning(s.main.slot) && s.readyq == [s.main.slot] + t.readyq
  {
    InvHolds(steps);
    assert (steps + [MainCheck])[..|steps|] == steps;
    assert Truthful(Run(steps), Run(steps).readyq[0]);
  }

  /** A packet reaches the decoder if and only if it is of the serial in force. */
  lemma DecodedBySerial(steps: seq<Step>, accepted: bool)
    requires Run(steps).video.Got? && Run(steps).video.item.pkt.Some?
    ensures var s, t := Run(steps), Run(steps + [VideoCheck(accepted)]);
            && (s.video.item.serial == s.serial ==>
                t.decoder == s.decoder + {s.serial} && t.video == if accepted then Decoding else Waiting)
            && (s.video.item.serial != s.serial ==> t == s.(video := Waiting))
  {
    InvHolds(steps);
    assert (steps + [VideoCheck(accepted)])[..|steps|] == steps;
  }

  // ── One packet, one picture ─────────────────────────────────────────────

  /** Nothing is under way: all that was read has been dealt with. */
  predicate Quiet(s: State) {
    && s.demux.Reading? && s.vq == [] && s.video.Waiting? && s.videoSerial == s.serial
    && s.readyq == [] && s.main.Resting?
  }

  function Demuxed(size: nat): seq<Step> {
    [ReadPacket(false, size)] + [PushPacket]
  }

  function Received(epoch: nat): seq<Step> {
    [VideoPop] + [VideoCheck(true)] + [VideoReceive(epoch, true)] + [VideoLate(false)]
  }

  const FILLED := [VideoPopSlot] + [VideoKeepOrFill] + [VideoFill] + [VideoPushReady]
  const SHOWN := [MainPeek] + [MainCheck] + [MainDecide(false, false)]
  const GIVEN_BACK := [MainConverted] + [MainPushFree]

  /** The slot the next picture goes into: the one held back, if there is one, or else the oldest free one. */
  function NextSlot(s: State): int
    requires s.held >= 0 || s.freeq != []
  {
    if s.held >= 0 then s.held else s.freeq[0]
  }

  /** In a quiet player every slot is free, or one is held back and the others are. */
  lemma QuietHasSlots(s: State)
    requires Inv(s) && Quiet(s)
    ensures |s.freeq| == (if s.held >= 0 then NSLOTS - 1 else NSLOTS) && 0 <= NextSlot(s) < NSLOTS == |s.slots|
    ensures s.epoch == s.serial && forall e | e in s.decoder :: e == s.serial
  {
    forall k | 0 <= k < |s.freeq|
      ensures 0 <= s.freeq[k] < NSLOTS
    {
      CountMember(s.freeq, k);
      assert Places(s, s.freeq[k]) >= 1;
    }
    CountAll(s.freeq);
    assert Places(s, 0) == 1 && Places(s, 1) == 1 && Places(s, 2) == 1 && Places(s, 3) == 1;
    assert s.held >= 0 ==> Places(s, s.held) >= 1;
  }

  lemma Demuxes(s: State, size: nat)
    requires Inv(s) && Quiet(s)
    ensures After(s, Demuxed(size)) == s.(vq := [Item(Pkt, s.serial, Some(AvPacket(size, s.serial)))])
  {
    hide After, VideoStep, MainStep;
    var it := Item(Pkt, s.serial, Some(AvPacket(size, s.epoch)));
    assert [] + [it] == [it];
    TwoSteps(s, ReadPacket(false, size), s.(demux := Pushing(it)), PushPacket, s.(vq := [it]));
  }

  lemma Receives(s: State, it: Item)
    requires s.vq == [it] && s.video.Waiting? && it.kind.Pkt? && it.pkt.Some? && it.serial == s.serial
    ensures var t := s.(vq := [], decoder := s.decoder + {it.pkt.value.epoch});
            After(s, Received(it.pkt.value.epoch))
            == if s.held >= 0 then t.(video := HaveSlot(it.pkt.value.epoch, s.held), held := -1)
               else t.(video := WantSlot(it.pkt.value.epoch))
  {
    hide After, DemuxStep, MainStep;
    var e := it.pkt.value.epoch;
    var s1 := s.(vq := [], video := Got(it));
    var s2 := s1.(decoder := s.decoder + {e}, video := Decoding);
    assert [it][1..] == [];
    var t := s.(vq := [], decoder := s.decoder + {e});
    FourSteps(s, VideoPop, s1, VideoCheck(true), s2, VideoReceive(e, true), s2.(video := Decoded(e)), VideoLate(false),
              if s.held >= 0 then t.(video := HaveSlot(e, s.held), held := -1) else t.(video := WantSlot(e)));
  }

  lemma PopsSlot(s: State, e: nat, i: int)
    requires s.video == HaveSlot(e, i) || (s.video == WantSlot(e) && s.freeq != [] && s.freeq[0] == i)
    ensures Apply(s, VideoPopSlot) == s.(video := HaveSlot(e, i), freeq := if s.video.HaveSlot? then s.freeq else s.freeq[1..])
  {
    hide DemuxStep, MainStep;
  }

  lemma FillsIt(s: State, e: nat, i: int)
    requires s.videoSerial == s.serial && 0 <= i < |s.slots| && s.video == HaveSlot(e, i)
    ensures After(s, [VideoKeepOrFill] + [VideoFill] + [VideoPushReady])
            == s.(video := Decoding, slots := s.slots[i := Picture(s.serial, e)], readyq := s.readyq + [i])
  {
    hide After, DemuxStep, MainStep;
    var s1 := s.(video := Filling(e, i), slots := s.slots[i := NoPicture]);
    var s2 := s.(video := Filled(i), slots := s.slots[i := Picture(s.serial, e)]);
    assert s1.slots[i := Picture(s.serial, e)] == s2.slots;
    ThreeSteps(s, VideoKeepOrFill, s1, VideoFill, s2, VideoPushReady, s2.(video := Decoding, readyq := s.readyq + [i]));
  }

  /** With a slot, or with one free, the picture goes into it and the slot onto the ready queue. */
  lemma Fills(s: State, e: nat, i: int)
    requires s.videoSerial == s.serial && 0 <= i < |s.slots|
    requires s.video == HaveSlot(e, i) || (s.video == WantSlot(e) && s.freeq != [] && s.freeq[0] == i)
    ensures After(s, FILLED) == s.(video := Decoding, slots := s.slots[i := Picture(s.serial, e)], readyq := s.readyq + [i],
                                   freeq := if s.video.HaveSlot? then s.freeq else s.freeq[1..])
  {
    hide After, Apply;
    var s1 := s.(video := HaveSlot(e, i), freeq := if s.video.HaveSlot? then s.freeq else s.freeq[1..]);
    PopsSlot(s, e, i);
    FillsIt(s1, e, i);
    AfterOne(s, VideoPopSlot);
    AfterSplits(s, [VideoPopSlot], [VideoKeepOrFill] + [VideoFill] + [VideoPushReady]);
    assert FILLED == [VideoPopSlot] + ([VideoKeepOrFill] + [VideoFill] + [VideoPushReady]);
  }

  /** A ready picture of the serial in force, on time, is shown. */
  lemma Shows(s: State)
    requires s.main.Resting? && s.readyq != [] && 0 <= s.readyq[0] < |s.slots|
    requires s.slots[s.readyq[0]] == Picture(s.serial, s.serial)
    ensures After(s, SHOWN) == s.(readyq := s.readyq[1..], main := Showing(s.readyq[0]))
  {
    hide After, DemuxStep, VideoStep;
    var i := s.readyq[0];
    ThreeSteps(s, MainPeek, s.(main := Peeked(i)), MainCheck, s.(main := Chosen(i)), MainDecide(false, false),
               s.(readyq := s.readyq[1..], main := Showing(i)));
  }

  lemma GivesBack(s: State)
    requires s.main.Showing?
    ensures After(s, GIVEN_BACK) == s.(freeq := s.freeq + [s.main.slot], main := Resting)
  {
    hide After, DemuxStep, VideoStep;
    TwoSteps(s, MainConverted, s.(main := Returning(s.main.slot)), MainPushFree,
             s.(freeq := s.freeq + [s.main.slot], main := Resting));
  }

  /**
   * In a quiet player, at the end of any run, one packet becomes one picture: of the packet's input, in
   * a slot that was held back or free, and shown.
   */
  lemma OnePictureIsShown(steps: seq<Step>, size: nat)
    requires Quiet(Run(steps))
    ensures var s := Run(steps);
            var t := Run(steps + (Demuxed(size) + Received(s.serial) + FILLED + SHOWN));
            (s.held >= 0 || s.freeq != []) && t.main == Showing(NextSlot(s))
            && 0 <= NextSlot(s) < |t.slots| && t.slots[NextSlot(s)] == Picture(s.serial, s.serial)
  {
    hide After, Apply, Inv, Run;
    var s := Run(steps);
    InvHolds(steps);
    QuietHasSlots(s);
    var it := Item(Pkt, s.serial, Some(AvPacket(size, s.serial)));
    var i := NextSlot(s);
    Demuxes(s, size);
    var s1 := s.(vq := [it]);
    Receives(s1, it);
    var s2 := After(s1, Received(s.serial));
    Fills(s2, s.serial, i);
    var s3 := After(s2, FILLED);
    assert [] + [i] == [i];
    Shows(s3);
    RunContinues(steps, Demuxed(size) + Received(s.serial) + FILLED + SHOWN);
    AfterSplits(s, Demuxed(size), Received(s.serial));
    AfterSplits(s, Demuxed(size) + Received(s.serial), FILLED);
    AfterSplits(s, Demuxed(size) + Received(s.serial) + FILLED, SHOWN);
  }

  /** From the very start too. */
  lemma FirstPictureIsShown(size: nat)
    ensures Run([VideoStart] + (Demuxed(size) + Received(0) + FILLED + SHOWN)).main == Showing(0)
  {
    hide After, Inv;
    assert [VideoStart][..0] == [];
    assert Run([VideoStart]) == INITIAL.(video := Waiting);
    hide Run, Apply;
    OnePictureIsShown([VideoStart], size);
  }

  /** What the demuxer has to push is never lost: it waits for room. */
  lemma FullQueueWaits(s: State)
    requires |s.vq| >= VCAP
    ensures Apply(s, PushPacket) == Apply(s, PushFlush) == s
  {
  }

  // ── Seeks ───────────────────────────────────────────────────────────────

  const SOUGHT := [InputSeek] + [BumpSerial] + [PushFlush]

  /** A seek moves input and serial on by one, and then the marker goes behind what is queued, if there is room. */
  lemma Seeks(s: State)
    requires s.demux.Reading? && s.epoch == s.serial && |s.vq| < VCAP
    ensures After(s, SOUGHT)
            == s.(epoch := s.serial + 1, serial := s.serial + 1, vq := s.vq + [Item(Flush, s.serial + 1, None)])
  {
    hide After, VideoStep, MainStep;
    var s1 := s.(epoch := s.epoch + 1, demux := Sought);
    var s2 := s1.(serial := s.serial + 1, demux := Flushing(s.serial + 1));
    ThreeSteps(s, InputSeek, s1, BumpSerial, s2, PushFlush,
               s.(epoch := s.serial + 1, serial := s.serial + 1, vq := s.vq + [Item(Flush, s.serial + 1, None)]));
  }

  function Drain(n: nat): seq<Step> {
    if n == 0 then [] else [VideoPop] + [VideoCheck(true)] + Drain(n - 1)
  }

  /** Everything queued before the marker of the serial in force is of an older one. */
  predicate OldThenMarker(s: State) {
    && s.vq != [] && s.vq[|s.vq| - 1] == Item(Flush, s.serial, None)
    && forall k | 0 <= k < |s.vq| - 1 :: s.vq[k].serial < s.serial
  }

  lemma PopsOne(s: State)
    requires s.video.Waiting? && s.vq != [] && (s.vq[0].kind.Flush? || s.vq[0].serial != s.serial)
    ensures After(s, [VideoPop] + [VideoCheck(true)])
            == if s.vq[0].kind.Flush? then s.(vq := s.vq[1..], decoder := {}, videoSerial := s.vq[0].serial)
               else s.(vq := s.vq[1..])
  {
    hide After, DemuxStep, MainStep;
    var s1 := Apply(s, VideoPop);
    TwoSteps(s, VideoPop, s1, VideoCheck(true), Apply(s1, VideoCheck(true)));
  }

  lemma AfterNothing(s: State)
    ensures After(s, []) == s
  {
  }

  /** After a seek the video task gives nothing of what was queued before to the decoder, and empties it. */
  lemma {:induction false} SeekDrains(s: State)
    requires s.video.Waiting? && OldThenMarker(s)
    ensures After(s, Drain(|s.vq|)) == s.(vq := [], decoder := {}, videoSerial := s.serial)
    decreases |s.vq|
  {
    hide After, Apply;
    var t := After(s, [VideoPop] + [VideoCheck(true)]);
    assert |s.vq| > 1 ==> s.vq[0].serial < s.serial;
    PopsOne(s);
    AfterSplits(s, [VideoPop] + [VideoCheck(true)], Drain(|s.vq| - 1));
    if |s.vq| == 1 {
      assert s.vq[1..] == [] && Drain(0) == [];
      AfterNothing(t);
    } else {
      SeekDrains(t);
    }
  }

  function DropAll(n: nat): seq<Step> {
    if n == 0 then [] else [MainPeek] + [MainCheck] + [MainPushFree] + DropAll(n - 1)
  }

  lemma DropsOne(s: State)
    requires s.main.Resting? && s.readyq != [] && LabelOf(s, s.readyq[0]) != Some(s.serial)
    ensures After(s, [MainPeek] + [MainCheck] + [MainPushFree])
            == s.(readyq := s.readyq[1..], freeq := s.freeq + [s.readyq[0]])
  {
    hide After, DemuxStep, VideoStep;
    var i := s.readyq[0];
    ThreeSteps(s, MainPeek, s.(main := Peeked(i)), MainCheck, s.(main := Returning(i), readyq := s.readyq[1..]),
               MainPushFree, s.(readyq := s.readyq[1..], freeq := s.freeq + [i]));
  }

  /** After a seek all pictures that were ready go back to the video task unshown, in order. */
  lemma {:induction false} SeekDrops(s: State)
    requires s.main.Resting? && forall k | 0 <= k < |s.readyq| :: LabelOf(s, s.readyq[k]) != Some(s.serial)
    ensures After(s, DropAll(|s.readyq|)) == s.(readyq := [], freeq := s.freeq + s.readyq)
    decreases |s.readyq|
  {
    hide After, Apply;
    if s.readyq == [] {
      AfterNothing(s);
      assert s.freeq + [] == s.freeq;
    } else {
      var t := After(s, [MainPeek] + [MainCheck] + [MainPushFree]);
      DropsOne(s);
      AfterSplits(s, [MainPeek] + [MainCheck] + [MainPushFree], DropAll(|s.readyq| - 1));
      SeekDrops(t);
      assert s.freeq + [s.readyq[0]] + s.readyq[1..] == s.freeq + s.readyq;
    }
  }

  /**
   * So a player whose tasks are between packets and pictures, however much is queued, is quiet again after
   * a seek, at the new serial, with nothing of the old input in the decoder, in the queues, or shown.
   */
  lemma SeekQuiets(s: State)
    requires Inv(s) && s.demux.Reading? && |s.vq| < VCAP && s.video.Waiting? && s.main.Resting?
    requires forall k | 0 <= k < |s.vq| :: s.vq[k].serial <= s.serial
    requires forall k | 0 <= k < |s.readyq| :: LabelOf(s, s.readyq[k]) != Some(s.serial + 1)
    ensures var t := After(s, SOUGHT + Drain(|s.vq| + 1) + DropAll(|s.readyq|));
            Quiet(t) && t.serial == s.serial + 1 && t.decoder == {} && t.slots == s.slots && t.freeq == s.freeq + s.readyq
  {
    hide After, Apply;
    assert s.epoch == s.serial;
    Seeks(s);
    var s1 := After(s, SOUGHT);
    assert forall k | 0 <= k < |s.vq| :: s1.vq[k] == s.vq[k];
    SeekDrains(s1);
    var s2 := After(s1, Drain(|s.vq| + 1));
    assert forall k | 0 <= k < |s.readyq| :: LabelOf(s2, s2.readyq[k]) == LabelOf(s, s.readyq[k]);
    SeekDrops(s2);
    AfterSplits(s, SOUGHT, Drain(|s.vq| + 1));
    AfterSplits(s, SOUGHT + Drain(|s.vq| + 1), DropAll(|s.readyq|));
  }

  // ── What a seek finds in the video task's hands ─────────────────────────

  /** A slot the video task has when a seek comes is emptied and held back, and serves its next picture. */
  lemma HeldSlotIsUsed(s: State, e: nat, next: nat)
    requires s.video.HaveSlot? && s.serial != s.videoSerial && 0 <= s.video.slot < |s.slots| && next in s.decoder
    ensures var i := s.video.slot;
            && After(s, [VideoKeepOrFill]) == s.(video := Decoding, held := i, slots := s.slots[i := NoPicture])
            && After(s, [VideoKeepOrFill] + [VideoReceive(next, true)] + [VideoLate(false)])
               == s.(video := HaveSlot(next, i), held := -1, slots := s.slots[i := NoPicture])
  {
    hide After, DemuxStep, MainStep;
    var i := s.video.slot;
    var s1 := s.(video := Decoding, held := i, slots := s.slots[i := NoPicture]);
    AfterOne(s, VideoKeepOrFill);
    ThreeSteps(s, VideoKeepOrFill, s1, VideoReceive(next, true), s1.(video := Decoded(next)), VideoLate(false),
               s1.(video := HaveSlot(next, i), held := -1));
  }

  /** A task that waits for a slot stops waiting if and only if a seek came or a slot is free. */
  lemma WaitsForSlot(s: State)
    requires s.video.WantSlot?
    ensures Apply(s, VideoGiveUp) == if s.serial != s.videoSerial then s.(video := Decoding) else s
    ensures s.freeq == [] ==> Apply(s, VideoPopSlot) == s
    ensures s.freeq != [] ==> Apply(s, VideoPopSlot).video == HaveSlot(s.video.epoch, s.freeq[0])
  {
  }

  /** A late picture costs no slot, and when the decoder has none the task goes back for a packet. */
  lemma LateCostsNothing(s: State, e: nat)
    requires s.video.Decoding? && e in s.decoder
    ensures After(s, [VideoReceive(e, true)] + [VideoLate(true)]) == s
    ensures Apply(s, VideoReceive(e, false)) == s.(video := Waiting)
  {
    hide After, DemuxStep, MainStep;
    TwoSteps(s, VideoReceive(e, true), s.(video := Decoded(e)), VideoLate(true), s);
  }

  /** The end of the input reaches the video task as an end marker, which lets the decoder hand out what it still has. */
  lemma EndArrives(s: State)
    requires Inv(s) && Quiet(s)
    ensures After(s, [ReadPacket(true, 0)] + [PushPacket] + [VideoPop] + [VideoCheck(true)]) == s.(video := Decoding)
  {
    hide After, MainStep, Inv;
    var it := Item(Eof, s.serial, None);
    assert [] + [it] == [it] && [it][1..] == [];
    FourSteps(s, ReadPacket(true, 0), s.(demux := Pushing(it)), PushPacket, s.(vq := [it]), VideoPop,
              s.(video := Got(it)), VideoCheck(true), s.(video := Decoding));
  }
}
