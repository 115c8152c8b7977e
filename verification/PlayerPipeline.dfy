/**
 * The video player's tasks as interleaved atomic steps: the demuxer (packets and
 * seeks), the video task (decoding into frame slots) and the main task (showing
 * ready pictures). Queues are taken at their contents (PlayerTasks runs the same steps on
 * the rings themselves).
 *
 * `epoch` is where in the file the demuxer reads: it changes with every seek of
 * the input. Packets, decoded pictures and slots carry the epoch they come from
 * besides the serial number the player goes by, so that what the serial numbers
 * are for can be stated: a picture chosen to be shown is not from before a seek.
 */
module PlayerPipeline {
  import opened Basics
  import opened Q = SpscQueue

  /** What a frame slot holds: the label the main task checks, and where the picture is from. */
  datatype Picture = NoPicture | Picture(serial: nat, epoch: nat)

  datatype Demux =
    | Reading
    | Sought                   // the input has moved, the serial not yet
    | Flushing(serial: nat)    // waiting to push the flush marker
    | Pushing(item: Item)    // waiting to push a packet or the end marker

  datatype Video =
    | Starting                     // has not read the serial yet
    | Waiting
    | Got(item: Item)            // popped, its serial not yet checked
    | Decoding
    | Decoded(epoch: nat)          // a picture out of the decoder
    | WantSlot(epoch: nat)
    | HaveSlot(epoch: nat, slot: int)
    | Filling(epoch: nat, slot: int)
    | Filled(slot: int)            // about to push it

  datatype Main =
    | Resting
    | Peeked(slot: int)
    | Chosen(slot: int)   // passed the serial check
    | Showing(slot: int)  // taken off the ready queue, being converted
    | Returning(slot: int)

  datatype State = State(
    serial: nat, epoch: nat, demux: Demux, vq: seq<Item>,
    video: Video, videoSerial: nat, decoder: set<nat>, held: int,
    slots: seq<Picture>, freeq: seq<int>, readyq: seq<int>, main: Main)

  /** The atomic steps; `pick` chooses among a decoder's pictures, `yes` among outcomes of timing or data. */
  datatype Step =
    | InputSeek
    | BumpSerial
    | PushFlush
    | ReadPacket(end: bool, size: nat)
    | PushPacket
    | VideoStart
    | VideoPop
    | VideoCheck(accepted: bool)
    | VideoReceive(pick: nat, more: bool)
    | VideoLate(yes: bool)
    | VideoPopSlot
    | VideoGiveUp
    | VideoKeepOrFill
    | VideoFill
    | VideoPushReady
    | MainPeek
    | MainCheck
    | MainDecide(wait: bool, late: bool)
    | MainConverted
    | MainPushFree

  const INITIAL := State(0, 0, Reading, [], Starting, 0, {}, -1,
                         [NoPicture, NoPicture, NoPicture, NoPicture],
                         [0, 1, 2, 3], [], Resting)

  // ── The steps ───────────────────────────────────────────────────────────

  function DemuxStep(s: State, step: Step): State {
    match step
    case InputSeek => if s.demux.Reading? then s.(epoch := s.epoch + 1, demux := Sought) else s
    case BumpSerial => if s.demux.Sought? then s.(serial := s.serial + 1, demux := Flushing(s.serial + 1)) else s
    case PushFlush =>
      if s.demux.Flushing? && |s.vq| < VCAP
      then s.(vq := s.vq + [Item(Flush, s.demux.serial, None)], demux := Reading) else s
    case ReadPacket(end, size) =>
      if !s.demux.Reading? then s
      else s.(demux := Pushing(if end then Item(Eof, s.serial, None) else Item(Pkt, s.serial, Some(AvPacket(size, s.epoch)))))
    case PushPacket =>
      if s.demux.Pushing? && |s.vq| < VCAP then s.(vq := s.vq + [s.demux.item], demux := Reading) else s
    case _ => s
  }

  function VideoStep(s: State, step: Step): State {
    match step
    case VideoStart => if s.video.Starting? then s.(videoSerial := s.serial, video := Waiting) else s
    case VideoPop =>
      if !s.video.Waiting? || s.vq == [] then s
      else if s.vq[0].kind.Flush? then s.(vq := s.vq[1..], decoder := {}, videoSerial := s.vq[0].serial)
      else s.(vq := s.vq[1..], video := Got(s.vq[0]))
    case VideoCheck(accepted) =>
      if !s.video.Got? then s
      else if s.video.item.serial != s.serial then s.(video := Waiting)
      else s.(decoder := if s.video.item.pkt.Some? then s.decoder + {s.video.item.pkt.value.epoch} else s.decoder,
              video := if accepted then Decoding else Waiting)
    case VideoReceive(pick, more) =>
      if !s.video.Decoding? then s
      else if more && pick in s.decoder then s.(video := Decoded(pick))
      else s.(video := Waiting)
    case VideoLate(yes) =>
      if !s.video.Decoded? then s
      else if yes then s.(video := Decoding)
      else if s.held >= 0 then s.(video := HaveSlot(s.video.epoch, s.held), held := -1)
      else s.(video := WantSlot(s.video.epoch))
    case VideoPopSlot =>
      if s.video.WantSlot? && s.freeq != []
      then s.(video := HaveSlot(s.video.epoch, s.freeq[0]), freeq := s.freeq[1..]) else s
    case VideoGiveUp => if s.video.WantSlot? && s.serial != s.videoSerial then s.(video := Decoding) else s
    case VideoKeepOrFill =>
      if !s.video.HaveSlot? || !(0 <= s.video.slot < |s.slots|) then s
      else
        var t := s.(slots := s.slots[s.video.slot := NoPicture]);
        if s.serial == s.videoSerial then t.(video := Filling(s.video.epoch, s.video.slot))
        else t.(held := s.video.slot, video := Decoding)
    case VideoFill =>
      if !s.video.Filling? || !(0 <= s.video.slot < |s.slots|) then s
      else s.(slots := s.slots[s.video.slot := Picture(s.videoSerial, s.video.epoch)], video := Filled(s.video.slot))
    case VideoPushReady =>
      if s.video.Filled? then s.(readyq := s.readyq + [s.video.slot], video := Decoding) else s
    case _ => s
  }

  function LabelOf(s: State, slot: int): Option<nat> {
    if 0 <= slot < |s.slots| && s.slots[slot].Picture? then Some(s.slots[slot].serial) else None
  }

  /** A late picture is only skipped for another one of the current serial that waits behind it. */
  predicate NextIsCurrent(s: State) {
    |s.readyq| > 1 && LabelOf(s, s.readyq[1]) == Some(s.serial)
  }

  function MainStep(s: State, step: Step): State {
    match step
    case MainPeek => if s.main.Resting? && s.readyq != [] then s.(main := Peeked(s.readyq[0])) else s
    case MainCheck =>
      if !s.main.Peeked? || s.readyq == [] then s
      else if LabelOf(s, s.main.slot) == Some(s.serial) then s.(main := Chosen(s.main.slot))
      else s.(readyq := s.readyq[1..], main := Returning(s.main.slot))
    case MainDecide(wait, late) =>
      if !s.main.Chosen? || s.readyq == [] then s
      else if wait then s.(main := Resting)
      else s.(readyq := s.readyq[1..], main := if late && NextIsCurrent(s) then Returning(s.main.slot) else Showing(s.main.slot))
    case MainConverted => if s.main.Showing? then s.(main := Returning(s.main.slot)) else s
    case MainPushFree => if s.main.Returning? then s.(freeq := s.freeq + [s.main.slot], main := Resting) else s
    case _ => s
  }

  function Apply(s: State, step: Step): State {
    if step.InputSeek? || step.BumpSerial? || step.PushFlush? || step.ReadPacket? || step.PushPacket? then DemuxStep(s, step)
    else if step.MainPeek? || step.MainCheck? || step.MainDecide? || step.MainConverted? || step.MainPushFree?
    then MainStep(s, step)
    else VideoStep(s, step)
  }

  /** The state after a run; a step that is not possible when it comes up does nothing. */
  function Run(steps: seq<Step>): State {
    if steps == [] then INITIAL else Apply(Run(steps[..|steps| - 1]), steps[|steps| - 1])
  }

  // ── Frame slots ─────────────────────────────────────────────────────────

  function Count(q: seq<int>, i: int): nat {
    if q == [] then 0 else (if q[0] == i then 1 else 0) + Count(q[1..], i)
  }

  function VideoHolds(v: Video, i: int): nat {
    if (v.HaveSlot? || v.Filling? || v.Filled?) && v.slot == i then 1 else 0
  }

  function MainHolds(m: Main, i: int): nat {
    if (m.Showing? || m.Returning?) && m.slot == i then 1 else 0
  }

  /** In how many places a slot index is: the queues, held back, or in the hands of a task. */
  function Places(s: State, i: int): nat {
    Count(s.freeq, i) + Count(s.readyq, i) + (if i >= 0 && s.held == i then 1 else 0)
    + VideoHolds(s.video, i) + MainHolds(s.main, i)
  }

  /** Every slot index is in exactly one place, and nothing else is in any. */
  ghost predicate SlotsConserved(s: State) {
    forall i :: Places(s, i) == if 0 <= i < NSLOTS then 1 else 0
  }

  /** What the main task looks at is at the front of the ready queue. */
  ghost predicate PeekedFirst(s: State) {
    s.main.Peeked? || s.main.Chosen? ==> s.readyq != [] && s.readyq[0] == s.main.slot
  }

  /** A slot is only held back while the video task has no other. */
  ghost predicate HeldOk(s: State) {
    s.held >= -1 && (s.video.WantSlot? || s.video.HaveSlot? ==> s.held == -1)
  }

  lemma {:induction false} CountAppend(q: seq<int>, x: int, i: int)
    ensures Count(q + [x], i) == Count(q, i) + (if x == i then 1 else 0)
  {
    if q == [] {
    } else {
      assert (q + [x])[1..] == q[1..] + [x];
      CountAppend(q[1..], x, i);
    }
  }

  lemma {:induction false} CountMember(q: seq<int>, k: nat)
    requires k < |q|
    ensures Count(q, q[k]) >= 1
    ensures forall j | 0 <= j < k && q[j] == q[k] :: Count(q, q[k]) >= 2
  {
    if k == 0 {
    } else {
      CountMember(q[1..], k - 1);
      assert forall j | 1 <= j < k :: q[j] == q[1..][j - 1];
    }
  }

  lemma {:induction false} CountAll(q: seq<int>)
    requires forall k | 0 <= k < |q| :: 0 <= q[k] < NSLOTS
    ensures |q| == Count(q, 0) + Count(q, 1) + Count(q, 2) + Count(q, 3)
  {
    if q == [] {
    } else {
      CountAll(q[1..]);
    }
  }

  lemma PlacesAfterDemux(s: State, step: Step, i: int)
    ensures Places(DemuxStep(s, step), i) == Places(s, i)
  {
  }

  lemma PlacesAfterVideo(s: State, step: Step, i: int)
    requires HeldOk(s) && (s.video.HaveSlot? ==> s.video.slot >= 0)
    ensures Places(VideoStep(s, step), i) == Places(s, i)
  {
    if step.VideoPushReady? && s.video.Filled? {
      CountAppend(s.readyq, s.video.slot, i);
    }
  }

  lemma PlacesAfterMain(s: State, step: Step, i: int)
    requires PeekedFirst(s)
    ensures Places(MainStep(s, step), i) == Places(s, i)
  {
    if step.MainPushFree? && s.main.Returning? {
      CountAppend(s.freeq, s.main.slot, i);
    }
  }

  /** Every step only moves indices. (A slot held back is never a negative index.) */
  lemma PlacesKept(s: State, step: Step, i: int)
    requires PeekedFirst(s) && HeldOk(s) && (s.video.HaveSlot? ==> s.video.slot >= 0)
    ensures Places(Apply(s, step), i) == Places(s, i)
  {
    hide DemuxStep, VideoStep, MainStep, Places;
    PlacesAfterDemux(s, step, i);
    PlacesAfterVideo(s, step, i);
    PlacesAfterMain(s, step, i);
  }

  ghost predicate SlotsOk(s: State) {
    SlotsConserved(s) && PeekedFirst(s) && HeldOk(s)
  }

  lemma SlotsStayOk(s: State, step: Step)
    requires SlotsOk(s)
    ensures SlotsOk(Apply(s, step))
  {
    var t := Apply(s, step);
    assert s.video.HaveSlot? ==> Places(s, s.video.slot) >= 1;
    forall i
      ensures Places(t, i) == if 0 <= i < NSLOTS then 1 else 0
    {
      PlacesKept(s, step, i);
    }
  }

  /** So there is always room to push an index, and no index is out of range or twice in a queue. */
  lemma QueuesNeverFull(s: State)
    requires SlotsConserved(s)
    ensures |s.freeq| <= NSLOTS && |s.readyq| <= NSLOTS
    ensures s.video.Filled? ==> |s.readyq| < NSLOTS
    ensures s.main.Returning? ==> |s.freeq| < NSLOTS
  {
    forall k | 0 <= k < |s.freeq|
      ensures 0 <= s.freeq[k] < NSLOTS
    {
      CountMember(s.freeq, k);
      assert Places(s, s.freeq[k]) >= 1;
    }
    forall k | 0 <= k < |s.readyq|
      ensures 0 <= s.readyq[k] < NSLOTS
    {
      CountMember(s.readyq, k);
      assert Places(s, s.readyq[k]) >= 1;
    }
    CountAll(s.freeq);
    CountAll(s.readyq);
    assert Places(s, 0) == 1 && Places(s, 1) == 1 && Places(s, 2) == 1 && Places(s, 3) == 1;
    if s.video.Filled? {
      assert Places(s, s.video.slot) >= 1;
    }
    if s.main.Returning? {
      assert Places(s, s.main.slot) >= 1;
    }
  }

  /** The slot the video task may be writing is none the main task may be reading. */
  lemma NoSlotShared(s: State)
    requires SlotsConserved(s) && (s.video.HaveSlot? || s.video.Filling? || s.video.Filled?)
    ensures s.video.slot !in s.readyq && s.video.slot !in s.freeq && s.video.slot != s.held
    ensures (s.main.Showing? || s.main.Returning?) ==> s.main.slot != s.video.slot
  {
    var i := s.video.slot;
    assert Places(s, i) <= 1;
    if i in s.readyq {
      var k :| 0 <= k < |s.readyq| && s.readyq[k] == i;
      CountMember(s.readyq, k);
    }
    if i in s.freeq {
      var k :| 0 <= k < |s.freeq| && s.freeq[k] == i;
      CountMember(s.freeq, k);
    }
  }

  // ── Seeks ───────────────────────────────────────────────────────────────

  /** The serial the video task goes by once it has popped all of the queue. */
  function SerialAfter(q: seq<Item>, v: nat): nat {
    if q == [] then v else SerialAfter(q[1..], if q[0].kind.Flush? then q[0].serial else v)
  }

  /** A packet is from where its serial was read. */
  predicate OwnEpoch(it: Item) {
    it.pkt.Some? ==> it.pkt.value.epoch == it.serial
  }

  /** Packets come after the marker of their serial, and no serial is from the future. */
  predicate QueueOk(q: seq<Item>, v: nat, serial: nat) {
    q == [] ||
    (if q[0].kind.Flush? then q[0].serial <= serial && QueueOk(q[1..], q[0].serial, serial)
     else q[0].serial <= v && OwnEpoch(q[0]) && QueueOk(q[1..], v, serial))
  }

  lemma {:induction false} QueueAppend(q: seq<Item>, v: nat, serial: nat, it: Item)
    requires QueueOk(q, v, serial)
    requires if it.kind.Flush? then it.serial <= serial else it.serial <= SerialAfter(q, v) && OwnEpoch(it)
    ensures QueueOk(q + [it], v, serial)
    ensures SerialAfter(q + [it], v) == if it.kind.Flush? then it.serial else SerialAfter(q, v)
  {
    if q == [] {
    } else {
      assert (q + [it])[1..] == q[1..] + [it];
      QueueAppend(q[1..], if q[0].kind.Flush? then q[0].serial else v, serial, it);
    }
  }

  lemma {:induction false} QueueLater(q: seq<Item>, v: nat, w: nat, serial: nat, now: nat)
    requires QueueOk(q, v, serial) && v <= w && serial <= now
    ensures QueueOk(q, w, now)
    ensures SerialAfter(q, w) == SerialAfter(q, v) || (SerialAfter(q, v) == v && SerialAfter(q, w) == w)
  {
    if q == [] {
    } else {
      if q[0].kind.Flush? {
        QueueLater(q[1..], q[0].serial, q[0].serial, serial, now);
      } else {
        QueueLater(q[1..], v, w, serial, now);
      }
    }
  }

  ghost predicate DemuxOk(s: State) {
    && s.epoch == s.serial + (if s.demux.Sought? then 1 else 0)
    && QueueOk(s.vq, s.videoSerial, s.serial)
    && s.videoSerial <= s.serial
    && match s.demux
       case Flushing(serial) => serial == s.serial
       case Pushing(it) =>
         !it.kind.Flush? && it.serial == s.serial && OwnEpoch(it) && SerialAfter(s.vq, s.videoSerial) == s.serial
       case _ => SerialAfter(s.vq, s.videoSerial) == s.serial
  }

  /** Whatever the video task has in hand is of its own serial, and from where that serial was read. */
  ghost predicate DecoderOk(s: State) {
    && (forall e | e in s.decoder :: e == s.videoSerial)
    && (s.video.Starting? ==> s.decoder == {})
    && match s.video
       case Got(it) => !it.kind.Flush? && it.serial <= s.videoSerial && OwnEpoch(it)
       case Decoded(e) => e == s.videoSerial
       case WantSlot(e) => e == s.videoSerial
       case HaveSlot(e, _) => e == s.videoSerial
       case Filling(e, _) => e == s.videoSerial
       case _ => true
  }

  /** The slot holds a picture labelled with the serial it comes from. */
  ghost predicate Truthful(s: State, i: int) {
    0 <= i < |s.slots| && s.slots[i].Picture? && s.slots[i].serial == s.slots[i].epoch
  }

  ghost predicate PicturesOk(s: State) {
    && (forall k | 0 <= k < |s.readyq| :: Truthful(s, s.readyq[k]))
    && (s.video.Filled? ==> Truthful(s, s.video.slot))
    && (s.main.Showing? ==> Truthful(s, s.main.slot))
  }

  ghost predicate Inv(s: State) {
    |s.slots| == NSLOTS && SlotsOk(s) && DemuxOk(s) && DecoderOk(s) && PicturesOk(s)
  }

  lemma DemuxAfterDemux(s: State, step: Step)
    requires DemuxOk(s)
    ensures DemuxOk(DemuxStep(s, step))
  {
    match step {
      case BumpSerial => QueueLater(s.vq, s.videoSerial, s.videoSerial, s.serial, s.serial + 1);
      case PushFlush =>
        if s.demux.Flushing? {
          QueueAppend(s.vq, s.videoSerial, s.serial, Item(Flush, s.demux.serial, None));
        }
      case PushPacket =>
        if s.demux.Pushing? {
          QueueAppend(s.vq, s.videoSerial, s.serial, s.demux.item);
        }
      case _ =>
    }
  }

  lemma DemuxAfterVideo(s: State, step: Step)
    requires DemuxOk(s) && DecoderOk(s)
    ensures DemuxOk(VideoStep(s, step))
  {
    if step.VideoStart? {
      QueueLater(s.vq, s.videoSerial, s.serial, s.serial, s.serial);
    }
  }

  /** The main task's steps leave the demuxer's and the decoder's side alone. */
  lemma MainLeaves(s: State, step: Step)
    ensures var t := MainStep(s, step);
            t == s.(readyq := t.readyq, freeq := t.freeq, main := t.main)
  {
  }

  lemma DemuxStaysOk(s: State, step: Step)
    requires DemuxOk(s) && DecoderOk(s)
    ensures DemuxOk(Apply(s, step))
  {
    hide DemuxStep, VideoStep, MainStep;
    DemuxAfterDemux(s, step);
    DemuxAfterVideo(s, step);
    MainLeaves(s, step);
  }

  lemma DecoderStaysOk(s: State, step: Step)
    requires DemuxOk(s) && DecoderOk(s)
    ensures DecoderOk(Apply(s, step))
  {
    hide MainStep;
    MainLeaves(s, step);
  }

  lemma PicturesAfterVideo(s: State, step: Step)
    requires PicturesOk(s) && SlotsOk(s) && DecoderOk(s)
    ensures PicturesOk(VideoStep(s, step))
  {
    if s.video.HaveSlot? || s.video.Filling? || s.video.Filled? {
      NoSlotShared(s);
    }
    hide Places, SlotsConserved;
  }

  lemma PicturesAfterMain(s: State, step: Step)
    requires PicturesOk(s) && SlotsOk(s)
    ensures PicturesOk(MainStep(s, step))
  {
    hide Places, SlotsConserved;
  }

  /** The demuxer's steps leave the slots, the video task and the main task alone. */
  lemma DemuxLeaves(s: State, step: Step)
    ensures var t := DemuxStep(s, step);
            t == s.(serial := t.serial, epoch := t.epoch, demux := t.demux, vq := t.vq)
  {
  }

  lemma PicturesStayOk(s: State, step: Step)
    requires PicturesOk(s) && SlotsOk(s) && DecoderOk(s)
    ensures PicturesOk(Apply(s, step))
  {
    DemuxLeaves(s, step);
    PicturesAfterVideo(s, step);
    PicturesAfterMain(s, step);
    hide DemuxStep, VideoStep, MainStep, SlotsOk, DecoderOk;
  }

  lemma CountInitial(i: int)
    ensures Count([0, 1, 2, 3], i) == if 0 <= i < NSLOTS then 1 else 0
  {
    assert Count([0, 1, 2], i) == (if 0 <= i < 3 then 1 else 0) by {
      assert Count([], i) == 0 && [0] == [] + [0] && [0, 1] == [0] + [1] && [0, 1, 2] == [0, 1] + [2];
      CountAppend([], 0, i);
      CountAppend([0], 1, i);
      CountAppend([0, 1], 2, i);
    }
    assert [0, 1, 2, 3] == [0, 1, 2] + [3];
    CountAppend([0, 1, 2], 3, i);
  }

  lemma NoneIn(i: int)
    ensures Count([], i) == 0
  {
  }

  lemma InvAtFirst()
    ensures Inv(INITIAL)
  {
    hide Count;
    forall i
      ensures Places(INITIAL, i) == if 0 <= i < NSLOTS then 1 else 0
    {
      CountInitial(i);
      NoneIn(i);
    }
  }

  lemma InvStays(s: State, step: Step)
    requires Inv(s)
    ensures Inv(Apply(s, step))
  {
    SlotsStayOk(s, step);
    DemuxStaysOk(s, step);
    DecoderStaysOk(s, step);
    PicturesStayOk(s, step);
    hide SlotsOk, DemuxOk, DecoderOk, PicturesOk;
  }

  lemma {:induction false} InvHolds(steps: seq<Step>)
    ensures Inv(Run(steps))
  {
    hide Inv, Apply;
    if steps == [] {
      InvAtFirst();
    } else {
      InvHolds(steps[..|steps| - 1]);
      InvStays(Run(steps[..|steps| - 1]), steps[|steps| - 1]);
    }
  }

  /**
   * Seek safety, over every interleaving: when the main task takes a picture to show it, the
   * picture is from where the input was read under the serial in force at that moment; nothing
   * from before a completed seek is chosen.
   */
  lemma ChosenIsCurrent(steps: seq<Step>)
    requires Run(steps).main.Peeked? && Apply(Run(steps), MainCheck).main.Chosen?
    ensures var s := Run(steps);
            0 <= s.main.slot < |s.slots| && s.slots[s.main.slot] == Picture(s.serial, s.serial)
  {
    InvHolds(steps);
    var s := Run(steps);
    assert Truthful(s, s.readyq[0]);
  }

  /** A packet that reaches the decoder is of the serial the video task goes by, and of the current one. */
  lemma DecodedIsCurrent(steps: seq<Step>, accepted: bool)
    requires Run(steps).video.Got? && Apply(Run(steps), VideoCheck(accepted)).video.Decoding?
    ensures var s := Run(steps);
            && s.video.item.serial == s.videoSerial == s.serial
            && (s.video.item.pkt.Some? ==> s.video.item.pkt.value.epoch == s.serial)
  {
    InvHolds(steps);
  }

  /** Every picture waiting to be shown carries the serial of the packets it was decoded from. */
  lemma ReadyIsTruthful(steps: seq<Step>, k: nat)
    requires k < |Run(steps).readyq|
    ensures Truthful(Run(steps), Run(steps).readyq[k])
  {
    InvHolds(steps);
  }

  predicate HasSlot(v: Video) {
    v.HaveSlot? || v.Filling? || v.Filled?
  }

  /**
   * In every reachable state each frame slot is in one place only, and pushing an index cannot fail.
   * While the video task has a slot, whether it empties, fills or hands it on, that slot is in neither
   * queue and not the one the main task has; so whatever the main task reads, the ready slot behind it
   * included, nobody writes.
   */
  lemma SlotsSafe(steps: seq<Step>)
    ensures var s := Run(steps);
            && SlotsConserved(s)
            && (s.video.Filled? ==> |s.readyq| < NSLOTS)
            && (s.main.Returning? ==> |s.freeq| < NSLOTS)
            && (HasSlot(s.video) ==>
                var i := s.video.slot;
                && 0 <= i < NSLOTS && i !in s.freeq && i !in s.readyq && i != s.held
                && (!s.main.Resting? ==> s.main.slot != i))
  {
    var s := Run(steps);
    InvHolds(steps);
    QueuesNeverFull(s);
    if HasSlot(s.video) {
      NoSlotShared(s);
      assert Places(s, s.video.slot) >= 1;
    }
  }

  // ── The clock ───────────────────────────────────────────────────────────

  predicate ByMain(step: Step) {
    step.MainPeek? || step.MainCheck? || step.MainDecide? || step.MainConverted? || step.MainPushFree?
  }

  /** The main task still has the picture it had, and the serial may have moved on. */
  predicate SamePicture(s: State, t: State) {
    && t.main == s.main && s.serial <= t.serial
    && (s.main.Chosen? ==> 0 <= s.main.slot < |s.slots| == |t.slots| && t.slots[s.main.slot] == s.slots[s.main.slot])
  }

  lemma ChosenStaysOne(s: State, step: Step)
    requires Inv(s) && s.main.Chosen? && !ByMain(step)
    ensures SamePicture(s, Apply(s, step))
  {
    if HasSlot(s.video) {
      NoSlotShared(s);
    }
    assert Truthful(s, s.readyq[0]);
    hide Places, SlotsConserved, DemuxOk, DecoderOk;
  }

  lemma ChosenIsASlot(s: State)
    requires Inv(s) && s.main.Chosen?
    ensures 0 <= s.main.slot < |s.slots|
  {
    assert Truthful(s, s.readyq[0]);
  }

  /** However the other tasks go on meanwhile, a chosen picture stays as it was chosen. */
  lemma {:induction false} ChosenStays(steps: seq<Step>, between: seq<Step>)
    requires Run(steps).main.Chosen? && forall k | 0 <= k < |between| :: !ByMain(between[k])
    ensures SamePicture(Run(steps), Run(steps + between))
    decreases |between|
  {
    hide Inv, Apply, ByMain;
    InvHolds(steps);
    if between == [] {
      assert steps + between == steps;
      ChosenIsASlot(Run(steps));
    } else {
      var n := |between| - 1;
      ChosenStays(steps, between[..n]);
      InvHolds(steps + between[..n]);
      assert (steps + between)[..|steps| + n] == steps + between[..n];
      ChosenStaysOne(Run(steps + between[..n]), between[n]);
    }
  }

  /**
   * The main task may set the clock of the serial in force by the picture it has chosen. That picture
   * is of this serial's input if and only if no seek moved the serial on since it was checked.
   */
  lemma ClockIsCurrentIff(steps: seq<Step>, between: seq<Step>)
    requires Run(steps).main.Peeked? && Apply(Run(steps), MainCheck).main.Chosen?
    requires forall k | 0 <= k < |between| :: !ByMain(between[k])
    ensures var s, t := Run(steps), Run(steps + [MainCheck] + between);
            && t.main.Chosen? && 0 <= t.main.slot < |t.slots| && t.slots[t.main.slot].Picture?
            && (t.slots[t.main.slot].epoch == t.serial <==> t.serial == s.serial)
  {
    hide Inv, ByMain;
    assert (steps + [MainCheck])[..|steps|] == steps;
    assert Run(steps + [MainCheck]) == Apply(Run(steps), MainCheck);
    ChosenIsCurrent(steps);
    ChosenStays(steps + [MainCheck], between);
  }

  lemma RunsOn(steps: seq<Step>, step: Step, t: State)
    requires Apply(Run(steps), step) == t
    ensures Run(steps + [step]) == t
  {
    assert (steps + [step])[..|steps|] == steps;
  }

  const DECODING := INITIAL.(video := Decoding, decoder := {0})
  const FILLING := DECODING.(video := Filling(0, 0), freeq := [1, 2, 3])
  const READY := FILLING.(video := Decoding, slots := [Picture(0, 0), NoPicture, NoPicture, NoPicture], readyq := [0])

  const TO_DECODING := [VideoStart] + [ReadPacket(false, 1)] + [PushPacket] + [VideoPop] + [VideoCheck(true)]
  const TO_FILLING := TO_DECODING + [VideoReceive(0, true)] + [VideoLate(false)] + [VideoPopSlot] + [VideoKeepOrFill]
  const TO_READY := TO_FILLING + [VideoFill] + [VideoPushReady]

  lemma ToDecoding()
    ensures Run(TO_DECODING) == DECODING
  {
    var packet := Item(Pkt, 0, Some(AvPacket(1, 0)));
    var s1 := INITIAL.(video := Waiting);
    var s2, s3, s4 := s1.(demux := Pushing(packet)), s1.(vq := [packet]), s1.(video := Got(packet));
    var p1 := [VideoStart];
    assert [] + [VideoStart] == p1;
    RunsOn([], VideoStart, s1);
    hide Run;
    RunsOn(p1, ReadPacket(false, 1), s2);
    RunsOn(p1 + [ReadPacket(false, 1)], PushPacket, s3);
    RunsOn(p1 + [ReadPacket(false, 1)] + [PushPacket], VideoPop, s4);
    RunsOn(p1 + [ReadPacket(false, 1)] + [PushPacket] + [VideoPop], VideoCheck(true), DECODING);
  }

  lemma ToFilling()
    ensures Run(TO_FILLING) == FILLING
  {
    ToDecoding();
    hide Run;
    var s1, s2 := DECODING.(video := Decoded(0)), DECODING.(video := WantSlot(0));
    var s3 := DECODING.(video := HaveSlot(0, 0), freeq := [1, 2, 3]);
    var p := TO_DECODING;
    RunsOn(p, VideoReceive(0, true), s1);
    RunsOn(p + [VideoReceive(0, true)], VideoLate(false), s2);
    RunsOn(p + [VideoReceive(0, true)] + [VideoLate(false)], VideoPopSlot, s3);
    RunsOn(p + [VideoReceive(0, true)] + [VideoLate(false)] + [VideoPopSlot], VideoKeepOrFill, FILLING);
  }

  lemma ToReady()
    ensures Run(TO_READY) == READY
  {
    ToFilling();
    hide Run;
    RunsOn(TO_FILLING, VideoFill, READY.(video := Filled(0), readyq := []));
    RunsOn(TO_FILLING + [VideoFill], VideoPushReady, READY);
  }

  /**
   * So the clock of the new serial may be set by a picture from before the seek: one packet becomes a
   * picture, the main task checks it, and then the seek moves the serial on.
   */
  lemma ClockFromOldPicture()
    ensures var s := Run(TO_READY + [MainPeek] + [MainCheck] + [InputSeek] + [BumpSerial]);
            s.main == Chosen(0) && s.serial == 1 && |s.slots| > 0 && s.slots[0] == Picture(0, 0)
  {
    ToReady();
    hide Run;
    var s1, s2 := READY.(main := Peeked(0)), READY.(main := Chosen(0));
    var s3, s4 := s2.(epoch := 1, demux := Sought), s2.(epoch := 1, serial := 1, demux := Flushing(1));
    RunsOn(TO_READY, MainPeek, s1);
    RunsOn(TO_READY + [MainPeek], MainCheck, s2);
    RunsOn(TO_READY + [MainPeek] + [MainCheck], InputSeek, s3);
    RunsOn(TO_READY + [MainPeek] + [MainCheck] + [InputSeek], BumpSerial, s4);
  }
}
