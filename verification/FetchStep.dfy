/**
 * One scheduler tick's step of a fetch, as a function of what the world answers: the host name lookup,
 * the loader's connections, the bytes it takes and brings, and which waits have lasted too long.
 */
module FetchStep {
  import opened Basics
  import H = HttpFeed
  import HH = HttpHead

  const MAX_READ_PER_POLL := 48 * 1024

  /** A connection of the loader's; TCP and TLS handles are numbered apart. */
  datatype Handle = Handle(tls: bool, id: nat)

  datatype State = Resolve | Connect | Connecting | Send | Receive

  /**
   * A fetch, with its parser's state. The last three fields are history: how often the
   * request was started over, on how many connections any of it was sent, and how many
   * connections had been put into the pool when the fetch began.
   */
  datatype Ctx = Ctx(
    tls: bool, host: seq<byte>, port: nat, post: bool, only2xx: bool, proxy: bool, reqLen: nat,
    state: State, sock: Option<Handle>, reused: bool, sent: nat, gotBytes: bool, dead: bool,
    resp: H.Response, trailing: bool, restarts: nat, conns: nat, putsBefore: nat)

  /** What was asked for, as far as reading the answer depends on it. */
  function Asked(c: Ctx): H.Request {
    H.Request(c.post, c.only2xx, c.proxy)
  }

  /** A fetch that has done nothing yet. */
  function Starting(tls: bool, host: seq<byte>, port: nat, post: bool, only2xx: bool, proxy: bool, reqLen: nat,
                    puts: nat): Ctx {
    Ctx(tls, host, port, post, only2xx, proxy, reqLen, Resolve, None, false, 0, false, false, H.FRESH, false, 0, 0, puts)
  }

  // ── What the world answers ──────────────────────────────────────────────

  datatype Reply = Waiting | Failed | Ready

  type Received = s: seq<byte> | s != [] witness [0]

  /** What a receive brings. NetSurf may abort the fetch while it is told of a segment. */
  datatype Arrival = Lost | Closed | Segment(bytes: Received, aborted: bool)

  /** What a fetch waits for, each until a deadline of its own. */
  datatype Wait = ForAddress | ForSession | ForHandle | ToConnect | ToSend | ToReceive

  /**
   * The loader's and the lookup's answers during a step: whether there are network services (and TLS,
   * where it is needed), the server's address, the handle that is opened, whether NetSurf aborts the
   * fetch when told of that, the connection, how much each send takes (negative when the connection is
   * lost), what each receive brings (nothing more after the last), and the deadlines that have passed.
   */
  datatype World = World(
    services: bool, address: Reply, handle: Option<nat>, aborted: bool, connected: Reply,
    takes: seq<int>, arrivals: seq<Arrival>, late: set<Wait>)

  /** Nothing is answered, and nothing is late. */
  const IDLE := World(true, Waiting, None, false, Waiting, [], [], {})

  // ── One step ────────────────────────────────────────────────────────────

  /** The fetch's last message: its connection is closed. */
  function Over(c: Ctx): (d: Ctx)
    ensures d.resp == c.resp
  {
    c.(sock := None, dead := true)
  }

  function UnlessLate(c: Ctx, w: World, wait: Wait): (d: Ctx)
    ensures d.resp == c.resp
  {
    if wait in w.late then Over(c) else c
  }

  /** The connection failed: a kept one without an answer is given up for a new one. */
  predicate MayStartOver(c: Ctx) {
    c.reused && !c.gotBytes
  }

  function StartedOver(c: Ctx): (d: Ctx)
    ensures d.resp == c.resp
  {
    c.(sock := None, reused := false, sent := 0, state := Resolve, restarts := c.restarts + 1)
  }

  function AfterLoss(c: Ctx): (d: Ctx)
    ensures d.resp == c.resp
  {
    if MayStartOver(c) then StartedOver(c) else Over(c)
  }

  /** ST_RESOLVE: `kept` is a connection from the pool. */
  function AfterResolve(c: Ctx, w: World, kept: Option<Handle>): (d: Ctx)
    ensures d.resp == c.resp && d.tls == c.tls
  {
    if !c.state.Resolve? then c
    else if !w.services then Over(c)
    else if kept.Some? then c.(sock := kept, reused := true, state := Send)
    else match w.address
      case Ready => c.(state := Connect)
      case Failed => Over(c)
      case Waiting => UnlessLate(c, w, ForAddress)
  }

  /** The loader opens a connection, never on a handle that is open already, or does not. */
  function AfterOpen(c: Ctx, w: World, open: set<Handle>): (d: Ctx)
    ensures d.resp == c.resp
  {
    if w.handle.None? || Handle(c.tls, w.handle.value) in open then UnlessLate(c, w, ForHandle)
    else c.(sock := Some(Handle(c.tls, w.handle.value)), state := Connecting, dead := w.aborted)
  }

  /** ST_CONNECT: `room` for another TLS session, where the fetch needs one. */
  function AfterConnect(c: Ctx, w: World, room: bool, open: set<Handle>): (d: Ctx)
    ensures d.resp == c.resp
  {
    if !c.state.Connect? || c.dead then c
    else if room then AfterOpen(c, w, open) else UnlessLate(c, w, ForSession)
  }

  function AfterConnecting(c: Ctx, w: World): (d: Ctx)
    ensures d.resp == c.resp
  {
    if !c.state.Connecting? || c.dead then c
    else match w.connected
      case Ready => c.(state := Send)
      case Failed => Over(c)
      case Waiting => UnlessLate(c, w, ToConnect)
  }

  /** How many of `left` bytes the sends take, one after another. */
  function Taken(left: nat, takes: seq<int>): (n: nat)
    ensures n <= left
  {
    if left == 0 || takes == [] || takes[0] <= 0 then 0
    else Min(takes[0], left) + Taken(left - Min(takes[0], left), takes[1..])
  }

  /** The connection is lost before all of them are taken. */
  predicate IsLost(left: nat, takes: seq<int>) {
    && left > 0 && takes != []
    && (takes[0] < 0 || (takes[0] > 0 && IsLost(left - Min(takes[0], left), takes[1..])))
  }

  function Unsent(c: Ctx): nat {
    if c.sent < c.reqLen then c.reqLen - c.sent else 0
  }

  /** n more bytes of the request went out; a connection is counted when its first does. */
  function SentMore(c: Ctx, n: nat): (d: Ctx)
    ensures d.resp == c.resp
  {
    c.(sent := c.sent + n, conns := c.conns + if c.sent == 0 < n then 1 else 0)
  }

  /** The sends are over: the connection was lost, or takes no more, or has taken everything. */
  function AfterSends(c: Ctx, w: World, lost: bool): (d: Ctx)
    ensures d.resp == c.resp
  {
    if lost then AfterLoss(c)
    else if c.sent < c.reqLen then UnlessLate(c, w, ToSend)
    else c.(state := Receive)
  }

  /** ST_SEND. */
  function AfterSend(c: Ctx, w: World): (d: Ctx)
    ensures d.resp == c.resp
  {
    if !c.state.Send? || c.dead then c
    else AfterSends(SentMore(c, Taken(Unsent(c), w.takes)), w, IsLost(Unsent(c), w.takes))
  }

  /** The parser took a segment, and the fetch is over if the response is. */
  function AfterSegment(c: Ctx, bytes: seq<byte>): (d: Ctx)
    requires c.resp.Valid()
    ensures d.resp.Valid()
  {
    var r := H.TakeAll(Asked(c), c.resp, bytes);
    var more := r.outcome.Running?;
    c.(gotBytes := true, resp := r, dead := !more, sock := if more then c.sock else None)
  }

  /** NetSurf aborts the fetch while it is told of something; the connection is closed when it is released. */
  function AfterAbort(c: Ctx): Ctx {
    c.(gotBytes := true, dead := true)
  }

  function ClosedBy(c: Ctx): (d: Ctx)
    ensures c.resp.Valid() ==> d.resp.Valid()
  {
    c.(sock := None, dead := true, resp := H.AfterClose(c.resp))
  }

  function AfterClose(c: Ctx): (d: Ctx)
    ensures c.resp.Valid() ==> d.resp.Valid()
  {
    if MayStartOver(c) then StartedOver(c) else ClosedBy(c)
  }

  /** The receives, with `total` bytes before them, up to what one poll may take. */
  function AfterReceives(c: Ctx, arrivals: seq<Arrival>, total: nat, late: bool): (d: Ctx)
    requires c.resp.Valid()
    ensures d.resp.Valid()
    decreases |arrivals|
  {
    if arrivals == [] || total >= MAX_READ_PER_POLL then if late then Over(c) else c
    else match arrivals[0]
      case Lost => AfterLoss(c)
      case Closed => AfterClose(c)
      case Segment(bytes, aborted) =>
        if aborted then AfterAbort(c)
        else
          var d := AfterSegment(c, bytes);
          if d.dead then d else AfterReceives(d, arrivals[1..], total + |bytes|, false)
  }

  /** ST_STATUS to ST_BODY. */
  function AfterReceive(c: Ctx, w: World): (d: Ctx)
    requires c.resp.Valid()
    ensures d.resp.Valid()
  {
    if !c.state.Receive? || c.dead then c else AfterReceives(c, w.arrivals, 0, ToReceive in w.late)
  }

  /**
   * A step up to the request: each state's part in turn, as far as the fetch gets. `kept` is a connection
   * from the pool, `room` whether there is room for a TLS session, and `open` the handles that are open.
   */
  function Requested(c: Ctx, w: World, kept: Option<Handle>, room: bool, open: set<Handle>): Ctx {
    AfterSend(AfterConnecting(AfterConnect(AfterResolve(c, w, kept), w, room, open), w), w)
  }

  lemma RequestedKeeps(c: Ctx, w: World, kept: Option<Handle>, room: bool, open: set<Handle>)
    ensures Requested(c, w, kept, room, open).resp == c.resp
  {
    hide AfterResolve, AfterConnect, AfterConnecting, AfterSend;
  }

  /** A whole step. */
  function Stepped(c: Ctx, w: World, kept: Option<Handle>, room: bool, open: set<Handle>): (d: Ctx)
    requires c.resp.Valid()
    ensures d.resp.Valid()
  {
    RequestedKeeps(c, w, kept, room, open);
    AfterReceive(Requested(c, w, kept, room, open), w)
  }

  // ── Waiting ─────────────────────────────────────────────────────────────

  /** A step in which nothing is answered and nothing is late leaves a waiting fetch as it is. */
  lemma IdleKeeps(c: Ctx, open: set<Handle>)
    requires c.resp.Valid() && !c.dead && (c.state.Send? ==> c.sent < c.reqLen)
    ensures Stepped(c, IDLE, None, true, open) == c
  {
  }

  /** A part that is another state's, or of a fetch that is over, changes nothing. */
  lemma PartsSkipped(c: Ctx, w: World, kept: Option<Handle>, room: bool, open: set<Handle>)
    requires c.resp.Valid()
    ensures !c.state.Resolve? ==> AfterResolve(c, w, kept) == c
    ensures c.dead || !c.state.Connect? ==> AfterConnect(c, w, room, open) == c
    ensures c.dead || !c.state.Connecting? ==> AfterConnecting(c, w) == c
    ensures c.dead || !c.state.Send? ==> AfterSend(c, w) == c
    ensures c.dead || !c.state.Receive? ==> AfterReceive(c, w) == c
  {
  }

  /** Each state's part ends the fetch when its wait has lasted too long. */
  lemma LateParts(c: Ctx, w: World, room: bool, open: set<Handle>)
    requires c.resp.Valid() && !c.dead
    requires w == IDLE.(late := {ForAddress, ForSession, ForHandle, ToConnect, ToSend, ToReceive})
    ensures c.state.Resolve? ==> AfterResolve(c, w, None) == Over(c)
    ensures c.state.Connect? ==> AfterConnect(c, w, room, open) == Over(c)
    ensures c.state.Connecting? ==> AfterConnecting(c, w) == Over(c)
    ensures c.state.Send? ==> AfterSend(c, w) == if Unsent(c) > 0 then Over(c) else c.(state := Receive)
    ensures c.state.Receive? ==> AfterReceive(c, w) == Over(c)
  {
  }

  /** No fetch waits for ever: with all its deadlines passed and nothing answered, it is over. */
  lemma LateEnds(c: Ctx, w: World, room: bool, open: set<Handle>)
    requires c.resp.Valid() && !c.dead
    requires w == IDLE.(late := {ForAddress, ForSession, ForHandle, ToConnect, ToSend, ToReceive})
    ensures var d := Stepped(c, w, None, room, open); d.dead && d.sock.None?
  {
    hide AfterResolve, AfterConnect, AfterConnecting, AfterSend, AfterReceive;
    PartsSkipped(c, w, None, room, open);
    PartsSkipped(Over(c), w, None, room, open);
    LateParts(c, w, room, open);
    LateParts(c.(state := Receive), w, room, open);
  }

  // ── A response ──────────────────────────────────────────────────────────

  lemma {:induction false} NotLost(left: nat, takes: seq<int>)
    requires Taken(left, takes) == left
    ensures !IsLost(left, takes)
    decreases |takes|
  {
    if left == 0 {
    } else {
      NotLost(left - Min(takes[0], left), takes[1..]);
    }
  }

  /** Segments that NetSurf takes, no more than one poll's worth. */
  predicate AreSegments(arrivals: seq<Arrival>, total: nat)
    decreases |arrivals|
  {
    arrivals == [] ||
    (&& arrivals[0].Segment? && !arrivals[0].aborted && total < MAX_READ_PER_POLL
     && AreSegments(arrivals[1..], total + |arrivals[0].bytes|))
  }

  function BytesOf(arrivals: seq<Arrival>): seq<byte> {
    if arrivals == [] then []
    else (if arrivals[0].Segment? then arrivals[0].bytes else []) + BytesOf(arrivals[1..])
  }

  /** The fetch after `bytes`, in whatever segments they came. */
  function AfterBytes(c: Ctx, bytes: seq<byte>): (d: Ctx)
    requires c.resp.Valid()
    ensures d.resp.Valid()
  {
    if bytes == [] then c else AfterSegment(c, bytes)
  }

  lemma BytesThenBytes(c: Ctx, bytes: seq<byte>, rest: seq<byte>)
    requires c.resp.Valid() && !c.dead
    ensures var d := AfterBytes(c, bytes);
            AfterBytes(c, bytes + rest) == if d.dead then d else AfterBytes(d, rest)
  {
    hide H.TakeAll;
    if rest == [] {
      assert bytes + rest == bytes;
    } else if bytes == [] {
      assert bytes + rest == rest;
    } else {
      H.TakeAllSplits(Asked(c), c.resp, bytes, rest);
      var d := AfterSegment(c, bytes);
      if d.dead {
        H.TakeAfterEnd(Asked(c), d.resp, rest);
      }
    }
  }

  lemma BytesOfNone(c: Ctx)
    requires c.resp.Valid()
    ensures AfterBytes(c, []) == c
  {
  }

  lemma BytesOfOne(c: Ctx, bytes: Received)
    requires c.resp.Valid()
    ensures AfterBytes(c, bytes) == AfterSegment(c, bytes)
    ensures AfterSegment(c, bytes).state == c.state
  {
  }

  lemma {:induction false} SegmentsAreBytes(c: Ctx, arrivals: seq<Arrival>, total: nat, late: bool)
    requires c.resp.Valid() && !c.dead && AreSegments(arrivals, total) && (late ==> arrivals != [])
    ensures AfterReceives(c, arrivals, total, late) == AfterBytes(c, BytesOf(arrivals))
    decreases |arrivals|
  {
    hide AfterSegment, AfterBytes;
    if arrivals == [] {
      BytesOfNone(c);
    } else {
      var bytes := arrivals[0].bytes;
      BytesOfOne(c, bytes);
      BytesThenBytes(c, bytes, BytesOf(arrivals[1..]));
      var d := AfterSegment(c, bytes);
      if !d.dead {
        SegmentsAreBytes(d, arrivals[1..], total + |bytes|, false);
      }
    }
  }

  // ── Over several polls ──────────────────────────────────────────────────

  /** The steps of a fetch that only receives. */
  function Polled(c: Ctx, worlds: seq<World>): Ctx
    requires c.resp.Valid()
    decreases |worlds|
  {
    if worlds == [] then c
    else Polled(AfterReceive(c, worlds[0]), worlds[1..])
  }

  /** Each poll brings segments, or at least does not find that it is too late. */
  predicate KeepComing(worlds: seq<World>) {
    forall i | 0 <= i < |worlds| ::
      AreSegments(worlds[i].arrivals, 0) && (worlds[i].arrivals == [] ==> ToReceive !in worlds[i].late)
  }

  function AllBytes(worlds: seq<World>): seq<byte> {
    if worlds == [] then [] else BytesOf(worlds[0].arrivals) + AllBytes(worlds[1..])
  }

  lemma BytesKeepState(c: Ctx, bytes: seq<byte>)
    requires c.resp.Valid()
    ensures AfterBytes(c, bytes).state == c.state
  {
  }

  lemma {:induction false} PolledOver(c: Ctx, worlds: seq<World>)
    requires c.resp.Valid() && c.dead
    ensures Polled(c, worlds) == c
    decreases |worlds|
  {
    if worlds == [] {
    } else {
      PolledOver(c, worlds[1..]);
    }
  }

  /** What the polls bring is taken as if it came at once. */
  lemma {:induction false} PollsAreBytes(c: Ctx, worlds: seq<World>)
    requires c.resp.Valid() && c.state.Receive? && !c.dead && KeepComing(worlds)
    ensures Polled(c, worlds) == AfterBytes(c, AllBytes(worlds))
    decreases |worlds|
  {
    hide AfterBytes, AfterReceives;
    if worlds == [] {
      BytesOfNone(c);
    } else {
      var w, d := worlds[0], AfterReceive(c, worlds[0]);
      SegmentsAreBytes(c, w.arrivals, 0, ToReceive in w.late);
      BytesThenBytes(c, BytesOf(w.arrivals), AllBytes(worlds[1..]));
      if d.dead {
        PolledOver(d, worlds[1..]);
      } else {
        BytesKeepState(c, BytesOf(w.arrivals));
        PollsAreBytes(d, worlds[1..]);
      }
    }
  }

  // ── A whole fetch ───────────────────────────────────────────────────────

  /** A fetch that begins, or starts over. */
  predicate IsUnsent(c: Ctx) {
    && c.state.Resolve? && !c.dead && c.sock.None? && !c.reused && !c.gotBytes && c.sent == 0
    && c.resp == H.FRESH
  }

  /** There is a kept connection to the server, or a new one can be made in this step. */
  predicate IsReachable(c: Ctx, w: World, kept: Option<Handle>, room: bool, open: set<Handle>) {
    w.services &&
    (kept.Some? ||
     (room && w.address.Ready? && w.handle.Some? && Handle(c.tls, w.handle.value) !in open && !w.aborted && w.connected.Ready?))
  }

  /** The connection it is on then. */
  function Line(c: Ctx, w: World, kept: Option<Handle>): Option<Handle> {
    if kept.Some? || w.handle.None? then kept else Some(Handle(c.tls, w.handle.value))
  }

  /** The request on its way: n bytes of it are sent. */
  function OnLine(c: Ctx, w: World, kept: Option<Handle>): Ctx {
    c.(state := Send, sock := Line(c, w, kept), reused := kept.Some?)
  }

  lemma Reached(c: Ctx, w: World, kept: Option<Handle>, room: bool, open: set<Handle>)
    requires IsUnsent(c) && IsReachable(c, w, kept, room, open)
    ensures Requested(c, w, kept, room, open) == AfterSend(OnLine(c, w, kept), w)
  {
    hide AfterSend;
  }

  /** The whole request goes out on it. */
  lemma RequestGoesOut(c: Ctx, w: World, kept: Option<Handle>, room: bool, open: set<Handle>)
    requires IsUnsent(c) && IsReachable(c, w, kept, room, open) && Taken(c.reqLen, w.takes) == c.reqLen
    ensures Requested(c, w, kept, room, open) == SentMore(OnLine(c, w, kept), c.reqLen).(state := Receive)
  {
    hide AfterResolve, AfterConnect, AfterConnecting;
    Reached(c, w, kept, room, open);
    NotLost(c.reqLen, w.takes);
    hide Requested;
  }

  /** The request goes out, and the fetch is what the bytes received make of it. */
  lemma BytesFetched(c: Ctx, w: World, kept: Option<Handle>, room: bool, open: set<Handle>, later: seq<World>)
    requires IsUnsent(c) && IsReachable(c, w, kept, room, open) && Taken(c.reqLen, w.takes) == c.reqLen
    requires KeepComing([w] + later)
    ensures Polled(Stepped(c, w, kept, room, open), later)
            == AfterBytes(SentMore(OnLine(c, w, kept), c.reqLen).(state := Receive), AllBytes([w] + later))
  {
    RequestGoesOut(c, w, kept, room, open);
    hide Requested, OnLine, SentMore, AfterBytes, AfterReceive, AllBytes, IsReachable, KeepComing;
    PollsAreBytes(SentMore(OnLine(c, w, kept), c.reqLen).(state := Receive), [w] + later);
    assert ([w] + later)[0] == w && ([w] + later)[1..] == later;
  }

  /**
   * A fetch gets its response: when the server can be reached, takes the request and sends any response
   * at all in any segments over any number of polls, NetSurf has its header lines and its body, and the
   * fetch is over with it, or with the close where the head does not say how long the body is.
   */
  lemma ResponseFetched(c: Ctx, w: World, kept: Option<Handle>, room: bool, open: set<Handle>, later: seq<World>,
                        h: HH.Head, body: seq<byte>)
    requires IsUnsent(c) && IsReachable(c, w, kept, room, open) && Taken(c.reqLen, w.takes) == c.reqLen
    requires KeepComing([w] + later) && HH.IsResponse(Asked(c), h, body, AllBytes([w] + later))
    ensures var d := Polled(Stepped(c, w, kept, room, open), later);
            && d.resp.body == body && d.resp.headers == HH.Lines(h.fields) && d.sent == c.reqLen && d.restarts == c.restarts
            && if HH.EndsByItself(h) then d.dead && d.sock.None? && d.resp.outcome == H.Finished
               else !d.dead && var e := AfterClose(d); e.dead && e.resp.outcome == H.Finished && e.resp.body == body
  {
    hide Requested, Stepped, Polled, HH.IsResponse, HH.Lines, HH.EndsByItself, H.TakeAll, AllBytes, IsReachable, KeepComing;
    var bytes := AllBytes([w] + later);
    BytesFetched(c, w, kept, room, open, later);
    HH.ResponseDelivered(Asked(c), h, body, bytes);
    assert bytes == [] ==> H.TakeAll(Asked(c), c.resp, bytes) == c.resp by { H.NothingTaken(Asked(c), c.resp); }
  }

  /** A fetch that starts over is as it was. */
  lemma StartsOverAs(c: Ctx, w: World, kept: Option<Handle>, n: nat)
    requires IsUnsent(c) && kept.Some?
    ensures var d := AfterLoss(SentMore(OnLine(c, w, kept), n));
            IsUnsent(d) && d == c.(restarts := c.restarts + 1, conns := d.conns) && d.conns <= c.conns + 1
    ensures var s := SentMore(OnLine(c, w, kept), n);
            AfterClose(s) == AfterLoss(s) && AfterLoss(s.(state := Receive)) == AfterLoss(s)
            && AfterClose(s.(state := Receive)) == AfterLoss(s)
  {
  }

  /**
   * A kept connection that turns out to be lost costs the fetch nothing but the request's bytes: it is as
   * it was, to be tried again on a new connection.
   */
  lemma LostIsTriedAgain(c: Ctx, w: World, kept: Option<Handle>, room: bool, open: set<Handle>)
    requires IsUnsent(c) && w.services && kept.Some?
    requires IsLost(c.reqLen, w.takes)
             || (Taken(c.reqLen, w.takes) == c.reqLen && w.arrivals != [] && !w.arrivals[0].Segment?)
    ensures var d := Stepped(c, w, kept, room, open);
            IsUnsent(d) && d == c.(restarts := c.restarts + 1, conns := d.conns) && d.conns <= c.conns + 1
  {
    StartsOverAs(c, w, kept, Taken(c.reqLen, w.takes));
    hide AfterLoss, AfterClose;
    Reached(c, w, kept, room, open);
    if !IsLost(c.reqLen, w.takes) {
      RequestGoesOut(c, w, kept, room, open);
    }
    hide Requested, SentMore;
  }
}
