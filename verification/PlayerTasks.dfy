/**
 * The player's three tasks on the rings and slots themselves: each atomic step of a task, run
 * when the task is at that point, does exactly what PlayerPipeline says of the contents.
 */
module PlayerTasks {
  import opened Basics
  import opened SpscQueue
  import P = PlayerPipeline

  lemma NoPictures(slots: seq<P.Picture>)
    requires |slots| == NSLOTS && forall i | 0 <= i < NSLOTS :: slots[i] == P.NoPicture
    ensures slots == P.INITIAL.slots
  {
  }

  predicate IsPush(s: P.State, step: P.Step, ready: bool) {
    if ready then step.VideoPushReady? && s.video.Filled? else step.MainPushFree? && s.main.Returning?
  }

  /** How often a run hands a slot on: the video task to the main task, or the main task back. */
  ghost function Pushes(steps: seq<P.Step>, ready: bool): nat {
    if steps == [] then 0
    else
      var n := |steps| - 1;
      Pushes(steps[..n], ready) + if IsPush(P.Run(steps[..n]), steps[n], ready) then 1 else 0
  }

  lemma {:induction false} PushesGrow(steps: seq<P.Step>, i: nat, ready: bool)
    requires i <= |steps|
    ensures Pushes(steps[..i], ready) <= Pushes(steps, ready)
    decreases |steps|
  {
    if i == |steps| {
      assert steps[..i] == steps;
    } else {
      PushesGrow(steps[..|steps| - 1], i, ready);
      assert steps[..|steps| - 1][..i] == steps[..i];
    }
  }

  lemma NextStep(steps: seq<P.Step>, i: nat)
    requires i < |steps|
    ensures P.Run(steps[..i + 1]) == P.Apply(P.Run(steps[..i]), steps[i])
    ensures forall ready ::
      && Pushes(steps[..i + 1], ready) == Pushes(steps[..i], ready) + (if IsPush(P.Run(steps[..i]), steps[i], ready) then 1 else 0)
      && Pushes(steps[..i + 1], ready) <= Pushes(steps, ready)
  {
    hide P.Apply, IsPush;
    assert steps[..i + 1][..i] == steps[..i];
    PushesGrow(steps, i + 1, true);
    PushesGrow(steps, i + 1, false);
  }

  /** A slot in the video task's hands is a slot, and not one the main task reads. */
  lemma InHand(s: P.State)
    requires P.Inv(s) && (s.video.HaveSlot? || s.video.Filling?)
    ensures 0 <= s.video.slot < NSLOTS == |s.slots|
    ensures s.main.Peeked? || s.main.Chosen? || s.main.Showing? ==> s.main.slot != s.video.slot
  {
    assert P.Places(s, s.video.slot) >= 1;
    P.NoSlotShared(s);
  }

  lemma RoomToPush(s: P.State)
    requires P.Inv(s)
    ensures s.video.Filled? ==> |s.readyq| < NSLOTS
    ensures s.main.Returning? ==> |s.freeq| < NSLOTS
  {
    P.QueuesNeverFull(s);
  }

  /** Everything in the ready queue is a slot with a picture. */
  lemma ReadyTruthful(s: P.State)
    requires P.Inv(s)
    ensures |s.slots| == NSLOTS && forall k | 0 <= k < |s.readyq| :: P.Truthful(s, s.readyq[k])
  {
  }

  /** What the main task looks at is at the front of the ready queue and has a picture. */
  lemma AtFront(s: P.State)
    requires P.Inv(s) && (s.main.Peeked? || s.main.Chosen?)
    ensures s.readyq != [] && s.readyq[0] == s.main.slot && P.Truthful(s, s.main.slot) && |s.slots| == NSLOTS
  {
  }

  class Player {
    var serial: nat                  // shared by all tasks
    const vq: PacketQueue
    const freeq: IndexQueue
    const readyq: IndexQueue
    const slots: array<P.Picture>
    var heldSlot: int
    var epoch: nat                   // where the input stands
    var demux: P.Demux               // where each task is, and what it has in hand
    var video: P.Video
    var main: P.Main
    var videoSerial: nat
    var decoder: set<nat>

    ghost function Now(): P.State
      requires vq.items.Length > 0 && freeq.idx.Length > 0 && readyq.idx.Length > 0
      reads this, vq, vq.items, freeq, freeq.idx, readyq, readyq.idx, slots
    {
      P.State(serial, epoch, demux, vq.Contents(), video, videoSerial, decoder, heldSlot, slots[..], freeq.Contents(),
              readyq.Contents(), main)
    }

    ghost predicate Rings()
      reads vq, vq.items, freeq, freeq.idx, readyq, readyq.idx
      ensures Rings() ==> vq.items.Length > 0 && freeq.idx.Length > 0 && readyq.idx.Length > 0
    {
      && vq.Valid() && freeq.Valid() && readyq.Valid() && vq.items.Length == VCAP
      && freeq != readyq && freeq.idx != readyq.idx && slots.Length == NSLOTS
    }

    ghost predicate Valid()
      reads this, vq, vq.items, freeq, freeq.idx, readyq, readyq.idx, slots
    {
      Rings() && P.Inv(Now())
    }

    constructor ()
      ensures Valid() && Now() == P.INITIAL
      ensures fresh(vq) && fresh(vq.items) && fresh(freeq) && fresh(freeq.idx) && fresh(readyq) && fresh(readyq.idx)
      ensures fresh(slots) && freeq.head == NSLOTS && readyq.head == 0
    {
      vq := new PacketQueue(VCAP);
      freeq := new IndexQueue();
      readyq := new IndexQueue();
      slots := new P.Picture[NSLOTS](_ => P.NoPicture);
      serial, epoch, videoSerial, heldSlot, decoder := 0, 0, 0, -1, {};
      demux, video, main := P.Reading, P.Starting, P.Resting;
      new;
      hide P.Inv, Held, RingOk;
      FillFree(freeq);
      P.InvAtFirst();
      NoPictures(slots[..]);
    }

    /** At the start all slots are free. */
    static method FillFree(q: IndexQueue)
      requires q.Valid() && q.Contents() == [] && q.head == 0
      modifies q, q.idx
      ensures q.Valid() && q.Contents() == [0, 1, 2, 3] && q.head == NSLOTS
    {
      hide Held, RingOk;
      for i := 0 to NSLOTS
        invariant q.Valid() && q.head == i && q.Contents() == [0, 1, 2, 3][..i]
      {
        var ok := q.Push(i);
      }
    }

    /** Both slot queues always have room when they are pushed to: the source does not look at the result. */
    static method HandOn(q: IndexQueue, slot: int)
      requires q.Valid() && |q.Contents()| < NSLOTS && q.head + 1 < WRAP
      modifies q`head, q.idx
      ensures q.Valid() && q.Contents() == old(q.Contents()) + [slot] && q.head == old(q.head) + 1
    {
      hide Held, RingOk;
      var ok := q.Push(slot);
      assert ok;
    }

    // ── The demuxer ─────────────────────────────────────────────────────

    /** A seek moves the input first ... */
    method SeekInput()
      requires Valid()
      modifies this`epoch, this`demux
      ensures Valid() && Now() == P.Apply(old(Now()), P.InputSeek)
    {
      P.InvStays(Now(), P.InputSeek);
      hide P.Inv;
      if demux.Reading? {
        epoch, demux := epoch + 1, P.Sought;
      }
    }

    /** ... then the serial ... */
    method BumpSerial()
      requires Valid()
      modifies this`serial, this`demux
      ensures Valid() && Now() == P.Apply(old(Now()), P.BumpSerial)
    {
      P.InvStays(Now(), P.BumpSerial);
      hide P.Inv;
      if demux.Sought? {
        serial := serial + 1;
        demux := P.Flushing(serial);
      }
    }

    /** ... and then tells the video task, as soon as its queue has room. */
    method PushFlush()
      requires Valid()
      modifies this`demux, vq`head, vq`bytesIn, vq.items
      ensures Valid() && Now() == P.Apply(old(Now()), P.PushFlush)
    {
      P.InvStays(Now(), P.PushFlush);
      hide P.Inv;
      if demux.Flushing? {
        var ok := vq.Push(Item(Flush, demux.serial, None));
        if ok {
          demux := P.Reading;
        }
      }
    }

    /** A packet of this size, or the end, under the serial in force. */
    method ReadPacket(end: bool, size: nat)
      requires Valid()
      modifies this`demux
      ensures Valid() && Now() == P.Apply(old(Now()), P.ReadPacket(end, size))
    {
      P.InvStays(Now(), P.ReadPacket(end, size));
      hide P.Inv;
      if demux.Reading? {
        demux := P.Pushing(if end then Item(Eof, serial, None) else Item(Pkt, serial, Some(AvPacket(size, epoch))));
      }
    }

    method PushPacket()
      requires Valid()
      modifies this`demux, vq`head, vq`bytesIn, vq.items
      ensures Valid() && Now() == P.Apply(old(Now()), P.PushPacket)
    {
      P.InvStays(Now(), P.PushPacket);
      hide P.Inv;
      if demux.Pushing? {
        var ok := vq.Push(demux.item);
        if ok {
          demux := P.Reading;
        }
      }
    }

    // ── The video task ──────────────────────────────────────────────────

    method VideoStart()
      requires Valid()
      modifies this`videoSerial, this`video
      ensures Valid() && Now() == P.Apply(old(Now()), P.VideoStart)
    {
      P.InvStays(Now(), P.VideoStart);
      hide P.Inv;
      if video.Starting? {
        videoSerial, video := serial, P.Waiting;
      }
    }

    /** Takes a packet; a flush marker empties the decoder and brings the serial to go by. */
    method VideoPop()
      requires Valid()
      modifies this`videoSerial, this`video, this`decoder, vq`tail, vq`bytesOut
      ensures Valid() && Now() == P.Apply(old(Now()), P.VideoPop)
    {
      P.InvStays(Now(), P.VideoPop);
      hide P.Inv;
      if video.Waiting? {
        var popped := vq.Pop();
        if popped.Some? {
          var it := popped.value;
          if it.kind.Flush? {
            decoder, videoSerial := {}, it.serial;
          } else {
            video := P.Got(it);
          }
        }
      }
    }

    /** Drops what is from before a seek, and gives the rest to the decoder (which may reject it). */
    method VideoCheck(accepted: bool)
      requires Valid()
      modifies this`video, this`decoder
      ensures Valid() && Now() == P.Apply(old(Now()), P.VideoCheck(accepted))
    {
      P.InvStays(Now(), P.VideoCheck(accepted));
      hide P.Inv;
      if video.Got? {
        var it := video.item;
        if it.serial != serial {
          video := P.Waiting;
          return;
        }
        if it.pkt.Some? {
          decoder := decoder + {it.pkt.value.epoch};
        }
        video := if accepted then P.Decoding else P.Waiting;
      }
    }

    /** A picture of one of the packets in the decoder, or none for now. */
    method VideoReceive(pick: nat, more: bool)
      requires Valid()
      modifies this`video
      ensures Valid() && Now() == P.Apply(old(Now()), P.VideoReceive(pick, more))
    {
      P.InvStays(Now(), P.VideoReceive(pick, more));
      hide P.Inv;
      if video.Decoding? {
        video := if more && pick in decoder then P.Decoded(pick) else P.Waiting;
      }
    }

    /** A late picture is dropped; otherwise the slot held back is used, if there is one. */
    method VideoLate(late: bool)
      requires Valid()
      modifies this`video, this`heldSlot
      ensures Valid() && Now() == P.Apply(old(Now()), P.VideoLate(late))
    {
      P.InvStays(Now(), P.VideoLate(late));
      hide P.Inv;
      if video.Decoded? {
        if late {
          video := P.Decoding;
          return;
        }
        var slot := heldSlot;
        heldSlot := -1;
        if slot >= 0 {
          video := P.HaveSlot(video.epoch, slot);
        } else {
          video := P.WantSlot(video.epoch);
          heldSlot := slot;
        }
      }
    }

    /** Takes a free slot, when there is one. */
    method VideoPopSlot()
      requires Valid()
      modifies this`video, freeq`tail
      ensures Valid() && Now() == P.Apply(old(Now()), P.VideoPopSlot)
    {
      P.InvStays(Now(), P.VideoPopSlot);
      hide P.Inv;
      if video.WantSlot? {
        var slot := freeq.Pop();
        if slot.Some? {
          video := P.HaveSlot(video.epoch, slot.value);
        }
      }
    }

    method VideoGiveUp()
      requires Valid()
      modifies this`video
      ensures Valid() && Now() == P.Apply(old(Now()), P.VideoGiveUp)
    {
      P.InvStays(Now(), P.VideoGiveUp);
      hide P.Inv;
      if video.WantSlot? && serial != videoSerial {
        video := P.Decoding;
      }
    }

    /** The slot's old picture goes; after a seek the slot is held back, with no picture. */
    method VideoKeepOrFill()
      requires Valid()
      modifies this`video, this`heldSlot, slots
      ensures Valid() && Now() == P.Apply(old(Now()), P.VideoKeepOrFill)
    {
      P.InvStays(Now(), P.VideoKeepOrFill);
      if video.HaveSlot? {
        InHand(Now());
        hide P.Inv;
        var slot := video.slot;
        slots[slot] := P.NoPicture;
        assert slots[..] == old(slots[..])[slot := P.NoPicture];
        if serial == videoSerial {
          video := P.Filling(video.epoch, slot);
        } else {
          heldSlot, video := slot, P.Decoding;
        }
      }
    }

    /** The picture goes into the slot with the serial the task goes by. */
    method VideoFill()
      requires Valid()
      modifies this`video, slots
      ensures Valid() && Now() == P.Apply(old(Now()), P.VideoFill)
      ensures old(video).Filling? && (main.Peeked? || main.Chosen? || main.Showing?) ==> main.slot != old(video).slot
    {
      P.InvStays(Now(), P.VideoFill);
      if video.Filling? {
        InHand(Now());
        hide P.Inv;
        var slot := video.slot;
        slots[slot] := P.Picture(videoSerial, video.epoch);
        assert slots[..] == old(slots[..])[slot := P.Picture(videoSerial, video.epoch)];
        video := P.Filled(slot);
      }
    }

    /** The slot with its picture goes to the main task. */
    method VideoPushReady()
      requires Valid() && (video.Filled? ==> readyq.head + 1 < WRAP)
      modifies this`video, readyq`head, readyq.idx
      ensures Valid() && Now() == P.Apply(old(Now()), P.VideoPushReady) && freeq.head == old(freeq.head)
      ensures readyq.head == old(readyq.head) + if old(video).Filled? then 1 else 0
    {
      P.InvStays(Now(), P.VideoPushReady);
      RoomToPush(Now());
      hide P.Inv;
      if video.Filled? {
        HandOn(readyq, video.slot);
        video := P.Decoding;
      }
    }

    // ── The main task ───────────────────────────────────────────────────

    method MainPeek()
      requires Valid()
      modifies this`main
      ensures Valid() && Now() == P.Apply(old(Now()), P.MainPeek)
    {
      P.InvStays(Now(), P.MainPeek);
      hide P.Inv;
      if main.Resting? {
        var slot := readyq.Peek();
        if slot.Some? {
          main := P.Peeked(slot.value);
        }
      }
    }

    /** A picture from before a seek is dropped. */
    method MainCheck()
      requires Valid()
      modifies this`main, readyq`tail
      ensures Valid() && Now() == P.Apply(old(Now()), P.MainCheck)
      ensures main.Chosen? && !old(main).Chosen? ==>
        0 <= main.slot < slots.Length && slots[main.slot] == P.Picture(serial, serial)
    {
      P.InvStays(Now(), P.MainCheck);
      if main.Peeked? {
        AtFront(Now());
        hide P.Inv;
        if slots[main.slot].serial == serial {
          main := P.Chosen(main.slot);
        } else {
          readyq.Drop();
          main := P.Returning(main.slot);
        }
      }
    }

    /** Whether a picture of the current serial waits behind the oldest. */
    method NextIsCurrent() returns (yes: bool)
      requires Valid()
      ensures yes == P.NextIsCurrent(Now())
    {
      ReadyTruthful(Now());
      hide P.Inv;
      var next := readyq.Second();
      yes := next.Some? && slots[next.value].serial == serial;
    }

    /** Not yet, or shown, or too late with the next one waiting. */
    method MainDecide(wait: bool, late: bool)
      requires Valid()
      modifies this`main, readyq`tail
      ensures Valid() && Now() == P.Apply(old(Now()), P.MainDecide(wait, late))
    {
      P.InvStays(Now(), P.MainDecide(wait, late));
      if main.Chosen? {
        AtFront(Now());
        hide P.Inv;
        if wait {
          main := P.Resting;
        } else {
          var next := false;
          if late {
            next := NextIsCurrent();
          }
          readyq.Drop();
          main := if next then P.Returning(main.slot) else P.Showing(main.slot);
        }
      }
    }

    method MainConverted()
      requires Valid()
      modifies this`main
      ensures Valid() && Now() == P.Apply(old(Now()), P.MainConverted)
    {
      P.InvStays(Now(), P.MainConverted);
      hide P.Inv;
      if main.Showing? {
        main := P.Returning(main.slot);
      }
    }

    /** The slot goes back to the video task. */
    method MainPushFree()
      requires Valid() && (main.Returning? ==> freeq.head + 1 < WRAP)
      modifies this`main, freeq`head, freeq.idx
      ensures Valid() && Now() == P.Apply(old(Now()), P.MainPushFree) && readyq.head == old(readyq.head)
      ensures freeq.head == old(freeq.head) + if old(main).Returning? then 1 else 0
    {
      P.InvStays(Now(), P.MainPushFree);
      RoomToPush(Now());
      hide P.Inv;
      if main.Returning? {
        HandOn(freeq, main.slot);
        main := P.Resting;
      }
    }

    // ── Any interleaving ────────────────────────────────────────────────

    method Do(step: P.Step)
      requires Valid()
      requires IsPush(Now(), step, true) ==> readyq.head + 1 < WRAP
      requires IsPush(Now(), step, false) ==> freeq.head + 1 < WRAP
      modifies this, vq, vq.items, freeq, freeq.idx, readyq, readyq.idx, slots
      ensures Valid() && Now() == P.Apply(old(Now()), step)
      ensures readyq.head == old(readyq.head) + if IsPush(old(Now()), step, true) then 1 else 0
      ensures freeq.head == old(freeq.head) + if IsPush(old(Now()), step, false) then 1 else 0
    {
      hide P.Inv, P.Apply, Player.Rings;
      match step {
        case InputSeek => SeekInput();
        case BumpSerial => BumpSerial();
        case PushFlush => PushFlush();
        case ReadPacket(end, size) => ReadPacket(end, size);
        case PushPacket => PushPacket();
        case VideoStart => VideoStart();
        case VideoPop => VideoPop();
        case VideoCheck(accepted) => VideoCheck(accepted);
        case VideoReceive(pick, more) => VideoReceive(pick, more);
        case VideoLate(late) => VideoLate(late);
        case VideoPopSlot => VideoPopSlot();
        case VideoGiveUp => VideoGiveUp();
        case VideoKeepOrFill => VideoKeepOrFill();
        case VideoFill => VideoFill();
        case VideoPushReady => VideoPushReady();
        case MainPeek => MainPeek();
        case MainCheck => MainCheck();
        case MainDecide(wait, late) => MainDecide(wait, late);
        case MainConverted => MainConverted();
        case MainPushFree => MainPushFree();
      }
    }

    /** From the start, any steps of the three tasks in any order; the slot rings must not wrap around. */
    method Play(steps: seq<P.Step>)
      requires Valid() && Now() == P.INITIAL && freeq.head == NSLOTS && readyq.head == 0
      requires NSLOTS + Pushes(steps, false) < WRAP && Pushes(steps, true) < WRAP
      modifies this, vq, vq.items, freeq, freeq.idx, readyq, readyq.idx, slots
      ensures Valid() && Now() == P.Run(steps)
      ensures readyq.head == Pushes(steps, true) && freeq.head == NSLOTS + Pushes(steps, false)
    {
      hide P.Inv, P.Apply, Player.Rings, IsPush;
      for i := 0 to |steps|
        invariant Valid() && Now() == P.Run(steps[..i])
        invariant readyq.head == Pushes(steps[..i], true) && freeq.head == NSLOTS + Pushes(steps[..i], false)
      {
        NextStep(steps, i);
        Do(steps[i]);
      }
      assert steps[..|steps|] == steps;
    }
  }
}
