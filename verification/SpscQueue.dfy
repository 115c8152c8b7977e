/**
 * The player's single-producer single-consumer rings. Their counters are 32-bit
 * and run on, so an element's place is its counter modulo 2^32 and then modulo
 * the capacity; that is first-in first-out across the wrap-around exactly for
 * capacities that divide 2^32.
 */
module SpscQueue {
  import opened Basics

  const WRAP := 0x1_0000_0000

  const VCAP := 512
  const ACAP := 1024
  const NSLOTS := 4

  /** The place of the k-th element counted from a counter. */
  function Place(counter: nat, k: nat, cap: nat): (p: nat)
    requires cap > 0
    ensures p < cap
  {
    ((counter + k) % WRAP) % cap
  }

  function Waiting(head: nat, tail: nat): (n: nat)
    ensures n < WRAP
  {
    (head - tail) % WRAP
  }

  // ── Modular arithmetic ──────────────────────────────────────────────────

  /** Reducing modulo a multiple of c first changes nothing modulo c. */
  lemma ModMod(x: nat, c: nat, m: nat)
    requires c > 0 && m > 0 && m % c == 0
    ensures (x % m) % c == x % c
  {
    var q := m / c;
    assert m == c * q;
    var r := x % m;
    var k := q * (x / m);
    assert r == x - c * k by {
      assert x == m * (x / m) + r;
      assert m * (x / m) == c * (q * (x / m));
    }
    assert r == c * (x / c - k) + x % c by {
      assert x == c * (x / c) + x % c;
      assert c * (x / c - k) == c * (x / c) - c * k;
    }
    ModUnique(r, c, x / c - k, x % c);
  }

  lemma NearbyDiffer(x: nat, y: nat, c: nat)
    requires x < y < x + c
    ensures x % c != y % c
  {
    Multiples(c, y / c - x / c);
    assert c * (y / c - x / c) == y - x + x % c - y % c by {
      assert x == c * (x / c) + x % c && y == c * (y / c) + y % c;
      assert c * (y / c - x / c) == c * (y / c) - c * (x / c);
    }
  }

  lemma PlaceIs(counter: nat, k: nat, cap: nat)
    requires 0 < cap <= WRAP
    requires WRAP % cap == 0 || counter + k < WRAP
    ensures Place(counter, k, cap) == (counter + k) % cap
  {
    if WRAP % cap == 0 {
      ModMod(counter + k, cap, WRAP);
    }
  }

  /** No two of the elements a ring may hold share a place. */
  lemma PlacesDiffer(counter: nat, k: nat, j: nat, cap: nat)
    requires 0 < cap <= WRAP && k < j < cap
    requires WRAP % cap == 0 || counter + j < WRAP
    ensures Place(counter, k, cap) != Place(counter, j, cap)
  {
    PlaceIs(counter, k, cap);
    PlaceIs(counter, j, cap);
    NearbyDiffer(counter + k, counter + j, cap);
  }

  lemma Collide(w: nat, cap: nat, r: nat)
    requires 0 < cap <= w && r == w % cap && r > 0
    ensures ((w - r) % w) % cap == 0 && (w % w) % cap == 0
  {
    ModUnique(w - r, cap, w / cap, 0);
    ModUnique(w - r, w, 0, w - r);
    ModUnique(w, w, 1, 0);
  }

  /** Otherwise the last counter values before the wrap-around collide with the first after it. */
  lemma PlacesCollide(cap: nat, r: nat)
    requires 0 < cap <= WRAP && r == WRAP % cap && r > 0
    ensures Place(WRAP - r, 0, cap) == Place(WRAP - r, r, cap)
  {
    Collide(WRAP, cap, r);
  }

  ghost predicate PlacesAllDiffer(cap: nat)
    requires cap > 0
  {
    forall counter: nat, k: nat, j: nat | counter < WRAP && k < j < cap :: Place(counter, k, cap) != Place(counter, j, cap)
  }

  /** A ring whose counters wrap around keeps its elements apart if and only if its capacity divides 2^32. */
  lemma PlacesApartIff(cap: nat)
    requires 0 < cap <= WRAP
    ensures PlacesAllDiffer(cap) <==> WRAP % cap == 0
  {
    hide Place;
    if WRAP % cap == 0 {
      forall counter: nat, k: nat, j: nat | counter < WRAP && k < j < cap
        ensures Place(counter, k, cap) != Place(counter, j, cap)
      {
        PlacesDiffer(counter, k, j, cap);
      }
    } else {
      PlacesCollide(cap, WRAP % cap);
    }
  }

  /** What a ring holds, oldest first. */
  ghost function Held<T>(items: seq<T>, head: nat, tail: nat): seq<T>
    requires items != []
  {
    seq(Waiting(head, tail), k requires 0 <= k < Waiting(head, tail) => items[Place(tail, k, |items|)])
  }

  /** The ring's places after x was written at the head. */
  function Pushed<T>(items: seq<T>, head: nat, x: T): (after: seq<T>)
    requires items != []
    ensures |after| == |items|
  {
    items[head % |items| := x]
  }

  ghost predicate RingOk(cap: nat, head: nat, tail: nat) {
    && 0 < cap <= WRAP && head < WRAP && tail < WRAP
    && Waiting(head, tail) <= cap
    && (WRAP % cap == 0 || tail <= head)
  }

  lemma OneMoreWaits(head: nat, tail: nat)
    requires head < WRAP && tail < WRAP && Waiting(head, tail) < WRAP - 1
    ensures Waiting((head + 1) % WRAP, tail) == Waiting(head, tail) + 1
    ensures (tail + Waiting(head, tail)) % WRAP == head
    ensures tail <= head ==> tail + Waiting(head, tail) == head
  {
    if tail <= head {
      assert Waiting(head, tail) == head - tail;
    } else {
      assert Waiting(head, tail) == head - tail + WRAP;
    }
  }

  lemma WaitingPush(cap: nat, head: nat, tail: nat)
    requires RingOk(cap, head, tail) && Waiting(head, tail) < cap && Waiting(head, tail) < WRAP - 1
    requires WRAP % cap == 0 || head + 1 < WRAP
    ensures RingOk(cap, (head + 1) % WRAP, tail) && Waiting((head + 1) % WRAP, tail) == Waiting(head, tail) + 1
    ensures Place(tail, Waiting(head, tail), cap) == head % cap
    ensures WRAP % cap == 0 || tail + Waiting(head, tail) < WRAP
  {
    OneMoreWaits(head, tail);
    hide Waiting;
  }

  /** Writing at the head and moving it appends. */
  lemma HeldPush<T>(items: seq<T>, head: nat, tail: nat, x: T)
    requires RingOk(|items|, head, tail) && Waiting(head, tail) < |items| && Waiting(head, tail) < WRAP - 1
    requires WRAP % |items| == 0 || head + 1 < WRAP
    ensures RingOk(|items|, (head + 1) % WRAP, tail)
    ensures Held(Pushed(items, head, x), (head + 1) % WRAP, tail) == Held(items, head, tail) + [x]
  {
    hide Place, Waiting;
    WaitingPush(|items|, head, tail);
    var n, cap := Waiting(head, tail), |items|;
    var after := items[head % cap := x];
    var was, now := Held(items, head, tail), Held(after, (head + 1) % WRAP, tail);
    forall k: nat | k < n
      ensures now[k] == was[k]
    {
      PlacesDiffer(tail, k, n, cap);
    }
    assert now[n] == after[Place(tail, n, cap)] == x;
  }

  /** Whatever the counters, and whatever the ring holds, pushing to one that is not full appends. */
  ghost predicate PushAppends(cap: nat)
    requires cap > 0
  {
    forall items: seq<int>, head: nat, tail: nat, x: int |
      |items| == cap && head < WRAP && tail < WRAP && Waiting(head, tail) < cap ::
      Held(Pushed(items, head, x), (head + 1) % WRAP, tail) == Held(items, head, tail) + [x]
  }

  /** Just after the wrap-around, a ring of any other capacity writes over the oldest of the r elements it holds. */
  lemma OverwritesOldest(items: seq<int>, r: nat, x: int)
    requires 0 < |items| < WRAP && r == WRAP % |items| && r > 0
    ensures Waiting(0, WRAP - r) == r < |items|
    ensures items[0] != x ==> Held(Pushed(items, 0, x), 1, WRAP - r) != Held(items, 0, WRAP - r) + [x]
  {
    Collide(WRAP, |items|, r);
    assert Place(WRAP - r, 0, |items|) == 0;
    var was, now := Held(items, 0, WRAP - r), Held(Pushed(items, 0, x), 1, WRAP - r);
    assert was[0] == items[0] && now[0] == x;
    assert (was + [x])[0] == was[0];
  }

  /** A ring whose counters wrap around is first-in first-out if and only if its capacity divides 2^32. */
  lemma FifoAcrossWrapIff(cap: nat)
    requires 0 < cap < WRAP
    ensures PushAppends(cap) <==> WRAP % cap == 0
  {
    hide Held, Pushed, Place;
    if WRAP % cap == 0 {
      forall items: seq<int>, head: nat, tail: nat, x: int |
        |items| == cap && head < WRAP && tail < WRAP && Waiting(head, tail) < cap
        ensures Held(Pushed(items, head, x), (head + 1) % WRAP, tail) == Held(items, head, tail) + [x]
      {
        HeldPush(items, head, tail, x);
      }
    } else {
      var r := WRAP % cap;
      var zeros := seq(cap, _ => 0);
      OverwritesOldest(zeros, r, 1);
      assert !(Held(Pushed(zeros, 0, 1), (0 + 1) % WRAP, WRAP - r) == Held(zeros, 0, WRAP - r) + [1]);
    }
  }

  /** The frame slot rings are not: with their head and tail at 2^32 - 1, two pushes leave the second element twice. */
  lemma SlotRingOverwrites(items: seq<int>, x: int, y: int)
    requires |items| == NSLOTS + 1
    ensures var one := Pushed(items, WRAP - 1, x);
            Held(one, 0, WRAP - 1) == [x] && Held(Pushed(one, 0, y), 1, WRAP - 1) == [y, y]
  {
    assert (WRAP - 1) % (NSLOTS + 1) == 0;
  }

  /** The packet rings may wrap around; the frame slot rings (and the sound voices' chunk rings, of 3) may not. */
  lemma CapacitiesAcrossWrap()
    ensures PushAppends(VCAP) && PushAppends(ACAP) && !PushAppends(NSLOTS + 1) && !PushAppends(3)
  {
    hide PushAppends;
    FifoAcrossWrapIff(VCAP);
    FifoAcrossWrapIff(ACAP);
    FifoAcrossWrapIff(NSLOTS + 1);
    FifoAcrossWrapIff(3);
  }

  lemma NextPlace(tail: nat, k: nat, cap: nat)
    requires cap > 0 && tail < WRAP
    ensures Place((tail + 1) % WRAP, k, cap) == Place(tail, k + 1, cap)
  {
    assert ((tail + 1) % WRAP + k) % WRAP == (tail + (k + 1)) % WRAP;
  }

  lemma FirstPlace(tail: nat, cap: nat)
    requires cap > 0 && tail < WRAP
    ensures Place(tail, 0, cap) == tail % cap
  {
  }

  lemma OneLessWaits(head: nat, tail: nat)
    requires head < WRAP && tail < WRAP && head != tail
    ensures Waiting(head, tail) > 0 && Waiting(head, (tail + 1) % WRAP) == Waiting(head, tail) - 1
  {
    if tail <= head {
      assert Waiting(head, tail) == head - tail;
    } else {
      assert Waiting(head, tail) == head - tail + WRAP;
    }
  }

  lemma WaitingPop(cap: nat, head: nat, tail: nat)
    requires RingOk(cap, head, tail) && head != tail
    ensures RingOk(cap, head, (tail + 1) % WRAP)
    ensures Waiting(head, tail) > 0 && Waiting(head, (tail + 1) % WRAP) == Waiting(head, tail) - 1
  {
    OneLessWaits(head, tail);
    hide Waiting;
  }

  /** Moving the tail drops the oldest. */
  lemma HeldPop<T>(items: seq<T>, head: nat, tail: nat)
    requires RingOk(|items|, head, tail) && head != tail
    ensures RingOk(|items|, head, (tail + 1) % WRAP)
    ensures Held(items, head, tail) == [items[tail % |items|]] + Held(items, head, (tail + 1) % WRAP)
  {
    hide Place, Waiting;
    WaitingPop(|items|, head, tail);
    FirstPlace(tail, |items|);
    var was, now := Held(items, head, tail), Held(items, head, (tail + 1) % WRAP);
    forall k: nat | k < |now|
      ensures now[k] == was[k + 1]
    {
      NextPlace(tail, k, |items|);
    }
  }

  // ── Packets ─────────────────────────────────────────────────────────────

  datatype Kind = Pkt | Flush | Eof

  /** A packet: its size, and where in the input it is from. */
  datatype AvPacket = AvPacket(size: nat, epoch: nat)

  /** A queued item; markers have no packet. */
  datatype Item = Item(kind: Kind, serial: nat, pkt: Option<AvPacket>)

  function ItemBytes(it: Item): nat {
    if it.pkt.Some? then it.pkt.value.size else 0
  }

  function Bytes(items: seq<Item>): nat {
    if items == [] then 0 else ItemBytes(items[0]) + Bytes(items[1..])
  }

  lemma {:induction false} BytesAppend(items: seq<Item>, it: Item)
    ensures Bytes(items + [it]) == Bytes(items) + ItemBytes(it)
  {
    if items == [] {
    } else {
      assert (items + [it])[1..] == items[1..] + [it];
      BytesAppend(items[1..], it);
    }
  }

  /** The byte counters' difference follows what waits, whatever their width. */
  lemma BytesIn(bytesIn: nat, bytesOut: nat, waiting: nat, n: nat)
    requires (bytesIn - bytesOut) % WRAP == waiting % WRAP
    ensures ((bytesIn + n) % WRAP - bytesOut) % WRAP == (waiting + n) % WRAP
  {
  }

  lemma BytesOut(bytesIn: nat, bytesOut: nat, waiting: nat, n: nat)
    requires (bytesIn - bytesOut) % WRAP == (waiting + n) % WRAP
    ensures (bytesIn - (bytesOut + n) % WRAP) % WRAP == waiting % WRAP
  {
  }

  lemma SameModulo(n: nat)
    requires n < WRAP
    ensures (n + 0) % WRAP == n
  {
  }

  lemma BytesFirst(it: Item, rest: seq<Item>)
    ensures Bytes([it] + rest) == ItemBytes(it) + Bytes(rest)
  {
    assert ([it] + rest)[1..] == rest;
  }

  /** The two byte counters tell how many bytes wait, as far as 32 bits do. */
  predicate BytesOk(bytesIn: nat, bytesOut: nat, waiting: seq<Item>) {
    bytesIn < WRAP && bytesOut < WRAP && (bytesIn - bytesOut) % WRAP == Bytes(waiting) % WRAP
  }

  lemma BytesPopped(bytesIn: nat, bytesOut: nat, it: Item, rest: seq<Item>)
    requires BytesOk(bytesIn, bytesOut, [it] + rest)
    ensures BytesOk(bytesIn, if it.pkt.Some? then (bytesOut + it.pkt.value.size) % WRAP else bytesOut, rest)
  {
    BytesFirst(it, rest);
    BytesOut(bytesIn, bytesOut, Bytes(rest), ItemBytes(it));
    SameModulo(bytesOut);
    hide Bytes;
  }

  lemma BytesPushed(bytesIn: nat, bytesOut: nat, it: Item, waiting: seq<Item>)
    requires BytesOk(bytesIn, bytesOut, waiting)
    ensures BytesOk(if it.pkt.Some? then (bytesIn + it.pkt.value.size) % WRAP else bytesIn, bytesOut, waiting + [it])
  {
    BytesAppend(waiting, it);
    BytesIn(bytesIn, bytesOut, Bytes(waiting), ItemBytes(it));
    SameModulo(bytesIn);
    hide Bytes;
  }

  class PacketQueue {
    const items: array<Item>
    var head: nat
    var tail: nat
    var bytesIn: nat
    var bytesOut: nat

    ghost predicate Valid()
      reads this, items
    {
      RingOk(items.Length, head, tail) && items.Length < WRAP && BytesOk(bytesIn, bytesOut, Contents())
    }

    ghost function Contents(): seq<Item>
      requires items.Length > 0
      reads this, items
    {
      Held(items[..], head, tail)
    }

    constructor (cap: nat)
      requires 0 < cap < WRAP
      ensures Valid() && fresh(items) && items.Length == cap && Contents() == []
    {
      items := new Item[cap](_ => Item(Flush, 0, None));
      head, tail, bytesIn, bytesOut := 0, 0, 0, 0;
    }

    method Count() returns (n: nat)
      requires Valid()
      ensures n == |Contents()|
    {
      n := (head - tail) % WRAP;
    }

    /** The bytes of the packets waiting, as far as 32 bits tell. */
    method CountBytes() returns (n: nat)
      requires Valid()
      ensures n == Bytes(Contents()) % WRAP
    {
      n := (bytesIn - bytesOut) % WRAP;
    }

    method Push(it: Item) returns (ok: bool)
      requires Valid() && (WRAP % items.Length == 0 || head + 1 < WRAP)
      modifies this`head, this`bytesIn, items
      ensures Valid() && ok == (|old(Contents())| < items.Length)
      ensures Contents() == if ok then old(Contents()) + [it] else old(Contents())
    {
      var h := head;
      if (h - tail) % WRAP >= items.Length {
        return false;
      }
      hide Held, RingOk, BytesOk;
      HeldPush(items[..], head, tail, it);
      BytesPushed(bytesIn, bytesOut, it, Contents());
      items[h % items.Length] := it;
      if it.pkt.Some? {
        bytesIn := (bytesIn + it.pkt.value.size) % WRAP;
      }
      head := (h + 1) % WRAP;
      assert items[..] == old(items[..])[h % items.Length := it];
      return true;
    }

    method Pop() returns (it: Option<Item>)
      requires Valid()
      modifies this`tail, this`bytesOut
      ensures Valid() && it.Some? == (old(Contents()) != [])
      ensures old(Contents()) == if it.Some? then [it.value] + Contents() else Contents()
    {
      var t := tail;
      assert items.Length > 0;
      if t == head {
        return None;
      }
      hide Held, RingOk, BytesOk, Waiting;
      HeldPop(items[..], head, tail);
      var out := items[t % items.Length];
      BytesPopped(bytesIn, bytesOut, out, Held(items[..], head, (t + 1) % WRAP));
      if out.pkt.Some? {
        bytesOut := (bytesOut + out.pkt.value.size) % WRAP;
      }
      tail := (t + 1) % WRAP;
      return Some(out);
    }
  }

  // ── Frame slot indices ──────────────────────────────────────────────────

  class IndexQueue {
    const idx: array<int>
    var head: nat
    var tail: nat

    ghost predicate Valid()
      reads this, idx
      ensures Valid() ==> head < WRAP && tail < WRAP
    {
      idx.Length == NSLOTS + 1 && RingOk(NSLOTS + 1, head, tail)
    }

    ghost function Contents(): seq<int>
      requires idx.Length > 0
      reads this, idx
    {
      Held(idx[..], head, tail)
    }

    constructor ()
      ensures Valid() && fresh(idx) && Contents() == [] && head == 0
    {
      idx := new int[NSLOTS + 1](_ => 0);
      head, tail := 0, 0;
    }

    method Push(v: int) returns (ok: bool)
      requires idx.Length == NSLOTS + 1 && head < WRAP && tail < WRAP
      modifies this`head, idx
      ensures ok == (|old(Contents())| <= NSLOTS) && head == if ok then (old(head) + 1) % WRAP else old(head)
      ensures idx[..] == if ok then Pushed(old(idx[..]), old(head), v) else old(idx[..])
      ensures old(Valid()) && old(head) + 1 < WRAP ==>
                Valid() && Contents() == if ok then old(Contents()) + [v] else old(Contents())
    {
      var h := head;
      if (h - tail) % WRAP > NSLOTS {
        return false;
      }
      hide Held, RingOk;
      if Valid() && h + 1 < WRAP {
        HeldPush(idx[..], head, tail, v);
      }
      idx[h % (NSLOTS + 1)] := v;
      head := (h + 1) % WRAP;
      assert idx[..] == old(idx[..])[h % (NSLOTS + 1) := v];
      return true;
    }

    method Peek() returns (v: Option<int>)
      requires Valid()
      ensures v == if Contents() == [] then None else Some(Contents()[0])
    {
      if tail == head {
        return None;
      }
      HeldPop(idx[..], head, tail);
      return Some(idx[tail % (NSLOTS + 1)]);
    }

    /** The one behind the oldest, if more than one waits. */
    method Second() returns (v: Option<int>)
      requires Valid()
      ensures v == if |Contents()| > 1 then Some(Contents()[1]) else None
    {
      if (head - tail) % WRAP <= 1 {
        return None;
      }
      NextPlace(tail, 0, NSLOTS + 1);
      FirstPlace((tail + 1) % WRAP, NSLOTS + 1);
      return Some(idx[(tail + 1) % WRAP % (NSLOTS + 1)]);
    }

    method Drop()
      requires Valid() && Contents() != []
      modifies this`tail
      ensures Valid() && Contents() == old(Contents())[1..]
    {
      HeldPop(idx[..], head, tail);
      tail := (tail + 1) % WRAP;
    }

    method Pop() returns (v: Option<int>)
      requires Valid()
      modifies this`tail
      ensures Valid() && v.Some? == (old(Contents()) != [])
      ensures old(Contents()) == if v.Some? then [v.value] + Contents() else Contents()
    {
      v := Peek();
      if v.Some? {
        Drop();
      }
    }
  }
}
