/**
 * Who holds the fetcher's connections: fetches and the keep-alive pool, with the
 * bound on TLS sessions, and the rules for sending a request again. What is
 * received goes through the response parser (HttpFeed), which decides when a
 * response is over and whether its connection is kept. What the loader, the lookup
 * and the clock answer is a parameter of every step (FetchStep.World).
 */
module KeepPool {
  import opened Basics
  import opened FetchStep
  import opened HeaderText
  import H = HttpFeed
  import HH = HttpHead

  const KEEP_MAX := 4
  const TLS_MAX := 3
  const KEEP_IDLE_US := 15000000

  /** A kept connection, with the response it carried last. */
  datatype Kept = Kept(h: Handle, host: seq<byte>, port: nat, since: int, last: H.Response)

  datatype Owner = InPool(slot: nat) | InFetch(fetch: nat)

  type Pool = s: seq<Option<Kept>> | |s| == KEEP_MAX witness [None, None, None, None]

  /** What a connection was opened to. */
  datatype Server = Server(tls: bool, host: seq<byte>, port: nat)

  /** The same transport, port and host name, up to the case of its letters. */
  predicate IsServer(s: Server, tls: bool, host: seq<byte>, port: nat) {
    s.tls == tls && s.port == port && LowerAll(s.host) == LowerAll(host)
  }

  /** Every connection a fetch has was opened to its own server, and every kept one to the server it is kept for. */
  ghost predicate ServersOk(keep: Pool, fetches: map<nat, Ctx>, servers: map<Handle, Server>) {
    && (forall f | f in fetches && fetches[f].sock.Some? ::
          var c := fetches[f]; c.sock.value in servers && IsServer(servers[c.sock.value], c.tls, c.host, c.port))
    && (forall i | 0 <= i < KEEP_MAX && keep[i].Some? ::
          var k := keep[i].value; k.h in servers && IsServer(servers[k.h], k.h.tls, k.host, k.port))
  }

  ghost predicate Holds(keep: Pool, fetches: map<nat, Ctx>, h: Handle, o: Owner) {
    match o
    case InPool(i) => i < KEEP_MAX && keep[i].Some? && keep[i].value.h == h
    case InFetch(f) => f in fetches && fetches[f].sock == Some(h)
  }

  /** Every open handle has exactly one owner, and every handle anyone holds is open. */
  ghost predicate OwnersOk(keep: Pool, fetches: map<nat, Ctx>, owner: map<Handle, Owner>) {
    && (forall h | h in owner :: Holds(keep, fetches, h, owner[h]))
    && (forall i | 0 <= i < KEEP_MAX && keep[i].Some? :: keep[i].value.h in owner && owner[keep[i].value.h] == InPool(i))
    && (forall f | f in fetches && fetches[f].sock.Some? ::
          fetches[f].sock.value in owner && owner[fetches[f].sock.value] == InFetch(f))
  }

  /** A fetch changes without gaining or losing a connection. */
  lemma OwnersKeep(keep: Pool, fetches: map<nat, Ctx>, owner: map<Handle, Owner>, f: nat, next: Ctx)
    requires OwnersOk(keep, fetches, owner)
    requires if f in fetches then next.sock == fetches[f].sock else next.sock.None?
    ensures OwnersOk(keep, fetches[f := next], owner)
  {
  }

  lemma OwnersDropFetch(keep: Pool, fetches: map<nat, Ctx>, owner: map<Handle, Owner>, f: nat, next: Ctx)
    requires OwnersOk(keep, fetches, owner) && f in fetches && fetches[f].sock.Some? && next.sock.None?
    ensures fetches[f].sock.value in owner
    ensures OwnersOk(keep, fetches[f := next], owner - {fetches[f].sock.value})
  {
  }

  lemma OwnersForget(keep: Pool, fetches: map<nat, Ctx>, owner: map<Handle, Owner>, f: nat)
    requires OwnersOk(keep, fetches, owner) && f in fetches && fetches[f].sock.None?
    ensures OwnersOk(keep, fetches - {f}, owner)
  {
  }

  lemma OwnersDropSlot(keep: Pool, fetches: map<nat, Ctx>, owner: map<Handle, Owner>, i: nat)
    requires OwnersOk(keep, fetches, owner) && i < KEEP_MAX && keep[i].Some?
    ensures keep[i].value.h in owner
    ensures OwnersOk(keep[i := None], fetches, owner - {keep[i].value.h})
  {
  }

  lemma OwnersOpen(keep: Pool, fetches: map<nat, Ctx>, owner: map<Handle, Owner>, f: nat, next: Ctx)
    requires OwnersOk(keep, fetches, owner) && f in fetches && fetches[f].sock.None?
    requires next.sock.Some? && next.sock.value !in owner
    ensures OwnersOk(keep, fetches[f := next], owner[next.sock.value := InFetch(f)])
  {
  }

  lemma OwnersPut(keep: Pool, fetches: map<nat, Ctx>, owner: map<Handle, Owner>, f: nat, next: Ctx, i: nat, k: Kept)
    requires OwnersOk(keep, fetches, owner) && f in fetches && fetches[f].sock == Some(k.h) && next.sock.None?
    requires i < KEEP_MAX && keep[i].None?
    ensures k.h in owner
    ensures OwnersOk(keep[i := Some(k)], fetches[f := next], owner[k.h := InPool(i)])
  {
  }

  lemma OwnersTake(keep: Pool, fetches: map<nat, Ctx>, owner: map<Handle, Owner>, f: nat, next: Ctx, i: nat)
    requires OwnersOk(keep, fetches, owner) && f in fetches && fetches[f].sock.None?
    requires i < KEEP_MAX && keep[i].Some? && next.sock == Some(keep[i].value.h)
    ensures keep[i].value.h in owner
    ensures OwnersOk(keep[i := None], fetches[f := next], owner[keep[i].value.h := InFetch(f)])
  {
  }

  ghost function TlsHandles(owner: map<Handle, Owner>): set<Handle> {
    set h | h in owner && h.tls
  }

  function PoolCount(keep: seq<Option<Kept>>): nat {
    if keep == [] then 0 else (if keep[0].Some? then 1 else 0) + PoolCount(keep[1..])
  }

  lemma {:induction false} PoolCountBound(keep: seq<Option<Kept>>)
    ensures PoolCount(keep) <= |keep|
  {
    if keep == [] {
    } else {
      PoolCountBound(keep[1..]);
    }
  }

  lemma {:induction false} PoolCountUpdate(keep: seq<Option<Kept>>, i: nat, k: Option<Kept>)
    requires i < |keep|
    ensures PoolCount(keep[i := k]) == PoolCount(keep) - (if keep[i].Some? then 1 else 0) + (if k.Some? then 1 else 0)
    ensures PoolCount(keep) <= |keep|
  {
    if i == 0 {
      assert keep[i := k][1..] == keep[1..];
      PoolCountBound(keep[1..]);
    } else {
      assert keep[i := k][1..] == keep[1..][i - 1 := k];
      PoolCountUpdate(keep[1..], i - 1, k);
    }
  }

  /** A request goes out again only after a kept connection was used up. */
  ghost predicate CtxOk(c: Ctx, poolCount: nat, puts: nat) {
    && (c.state.Resolve? || c.state.Connect? ==> c.sock.None? && !c.reused && c.sent == 0)
    && (c.reused ==> !c.post && !c.state.Connecting?)
    && (c.post ==> c.restarts == 0)
    && (c.sent > 0 ==> c.state.Send? || c.state.Receive?)
    && c.sent <= c.reqLen
    && (!c.dead && (c.state.Connecting? || c.state.Send? || c.state.Receive?) ==> c.sock.Some?)
    && (c.sock.Some? ==> c.sock.value.tls == c.tls)
    && c.resp.Valid() && (!c.dead ==> c.resp.outcome.Running?)
    && c.conns <= c.restarts + (if c.sent > 0 then 1 else 0)
    && c.putsBefore <= puts
    && c.restarts + (if c.reused then 1 else 0) + poolCount <= KEEP_MAX + (puts - c.putsBefore)
  }

  lemma StartingIsOk(tls: bool, host: seq<byte>, port: nat, post: bool, only2xx: bool, proxy: bool, reqLen: nat,
                     poolCount: nat, puts: nat)
    requires poolCount <= KEEP_MAX
    ensures CtxOk(Starting(tls, host, port, post, only2xx, proxy, reqLen, puts), poolCount, puts)
    ensures Starting(tls, host, port, post, only2xx, proxy, reqLen, puts).sock.None?
    ensures !Starting(tls, host, port, post, only2xx, proxy, reqLen, puts).dead
  {
  }

  /** A response that ended where its framing says, on a connection that stays open. */
  predicate IsComplete(r: H.Response) {
    r.outcome in {H.Finished, H.NotModified} && !r.connClose
  }

  /** What holds of a fetch at all times, and of one that is gone. */
  predicate Bounded(c: Ctx, puts: nat) {
    && c.putsBefore <= puts
    && c.restarts <= KEEP_MAX + (puts - c.putsBefore) && c.conns <= c.restarts + 1
    && (c.post ==> c.conns <= 1 && c.restarts == 0)
  }

  /** The pool, the fetches, who holds which connection, the TLS sessions open, and how often the pool was put to. */
  datatype Books = Books(
    keep: Pool, fetches: map<nat, Ctx>, owner: map<Handle, Owner>, servers: map<Handle, Server>, tlsOpen: nat, puts: nat)
  {
    ghost predicate Ok() {
      && OwnersOk(keep, fetches, owner)
      && ServersOk(keep, fetches, servers)
      && tlsOpen == |TlsHandles(owner)| <= TLS_MAX
      && (forall f | f in fetches :: CtxOk(fetches[f], PoolCount(keep), puts))
      && (forall i | 0 <= i < KEEP_MAX && keep[i].Some? :: IsComplete(keep[i].value.last))
    }

    function Set(f: nat, next: Ctx): Books {
      this.(fetches := fetches[f := next])
    }

    /** A connection is closed. */
    function Closed(h: Handle): Books {
      this.(owner := owner - {h}, tlsOpen := if h.tls && tlsOpen > 0 then tlsOpen - 1 else tlsOpen)
    }
  }

  lemma OkOf(b: Books, f: nat)
    requires b.Ok() && f in b.fetches
    ensures CtxOk(b.fetches[f], PoolCount(b.keep), b.puts)
  {
  }

  /** What a fetch does not change as it goes on. */
  predicate SameGoal(c: Ctx, next: Ctx) {
    next.tls == c.tls && next.host == c.host && next.port == c.port
  }

  lemma GoesOn(b: Books, f: nat, next: Ctx)
    requires b.Ok() && f in b.fetches && next.sock == b.fetches[f].sock && SameGoal(b.fetches[f], next)
    requires CtxOk(next, PoolCount(b.keep), b.puts)
    ensures b.Set(f, next).Ok()
  {
    hide OwnersOk, TlsHandles, PoolCount, CtxOk, IsServer;
    OwnersKeep(b.keep, b.fetches, b.owner, f, next);
  }

  lemma Begins(b: Books, f: nat, next: Ctx)
    requires b.Ok() && f !in b.fetches && next.sock.None? && CtxOk(next, PoolCount(b.keep), b.puts)
    ensures b.Set(f, next).Ok()
  {
    hide OwnersOk, TlsHandles, PoolCount, CtxOk, IsServer;
    OwnersKeep(b.keep, b.fetches, b.owner, f, next);
  }

  lemma Leaves(b: Books, f: nat)
    requires b.Ok() && f in b.fetches && b.fetches[f].sock.None?
    ensures b.(fetches := b.fetches - {f}).Ok()
    ensures forall h | h in b.owner :: b.owner[h] != InFetch(f)
  {
    OwnersForget(b.keep, b.fetches, b.owner, f);
    hide TlsHandles, PoolCount, CtxOk;
  }

  lemma TlsHandlesMinus(owner: map<Handle, Owner>, h: Handle)
    requires h in owner
    ensures |TlsHandles(owner - {h})| == |TlsHandles(owner)| - (if h.tls then 1 else 0)
  {
    assert TlsHandles(owner - {h}) == TlsHandles(owner) - {h};
    assert h.tls ==> h in TlsHandles(owner);
  }

  lemma FetchCloses(b: Books, f: nat, next: Ctx)
    requires b.Ok() && f in b.fetches && b.fetches[f].sock.Some? && next.sock.None?
    requires CtxOk(next, PoolCount(b.keep), b.puts)
    ensures b.Set(f, next).Closed(b.fetches[f].sock.value).Ok()
  {
    hide OwnersOk, TlsHandles, PoolCount, CtxOk, IsServer;
    OwnersDropFetch(b.keep, b.fetches, b.owner, f, next);
    TlsHandlesMinus(b.owner, b.fetches[f].sock.value);
  }

  lemma SlotCloses(b: Books, i: nat)
    requires b.Ok() && i < KEEP_MAX && b.keep[i].Some?
    ensures b.keep[i].value.h in b.owner && b.tlsOpen <= TLS_MAX && (b.keep[i].value.h.tls ==> b.tlsOpen > 0)
    ensures b.(keep := b.keep[i := None]).Closed(b.keep[i].value.h).Ok()
  {
    hide OwnersOk, TlsHandles, PoolCount, IsServer;
    OwnersDropSlot(b.keep, b.fetches, b.owner, i);
    TlsHandlesMinus(b.owner, b.keep[i].value.h);
    PoolCountUpdate(b.keep, i, None);
  }

  lemma TlsHandlesPlus(owner: map<Handle, Owner>, h: Handle, o: Owner)
    ensures |TlsHandles(owner[h := o])| == |TlsHandles(owner)| + (if h.tls && h !in owner then 1 else 0)
  {
    assert TlsHandles(owner[h := o]) == TlsHandles(owner) + (if h.tls then {h} else {});
    if h.tls && h in owner {
      assert h in TlsHandles(owner);
    }
  }

  function ServerOf(c: Ctx): Server {
    Server(c.tls, c.host, c.port)
  }

  lemma NobodyHas(b: Books, h: Handle)
    requires b.Ok() && h !in b.owner
    ensures forall f | f in b.fetches :: b.fetches[f].sock != Some(h)
    ensures forall i | 0 <= i < KEEP_MAX && b.keep[i].Some? :: b.keep[i].value.h != h
  {
    hide CtxOk, TlsHandles, PoolCount, ServersOk;
  }

  lemma AddressCases(c: Ctx, w: World)
    requires c.state.Resolve?
    ensures var d := AfterResolve(c, w, None);
            && (!w.services || w.address.Failed? ==> d == c.(sock := None, dead := true))
            && (w.services && w.address.Waiting? ==> d == UnlessLate(c, w, ForAddress) && d.state.Resolve?)
            && (w.services && w.address.Ready? ==> d == c.(state := Connect))
  {
  }

  lemma AddressIsOk(c: Ctx, poolCount: nat, puts: nat)
    requires CtxOk(c, poolCount, puts) && c.state.Resolve?
    ensures CtxOk(c.(state := Connect), poolCount, puts)
  {
  }

  lemma OpensAfresh(c: Ctx, w: World, open: set<Handle>)
    requires c.sock.None?
    ensures var sock := AfterOpen(c, w, open).sock; sock.Some? ==> sock.value !in open
  {
  }

  lemma OpenedIsOk(c: Ctx, next: Ctx, poolCount: nat, puts: nat)
    requires CtxOk(c, poolCount, puts) && c.state.Connect?
    requires next == c.(sock := next.sock, state := Connecting, dead := next.dead)
    requires next.sock.Some? && next.sock.value.tls == c.tls
    requires c.dead ==> next.dead
    ensures c.sock.None? && CtxOk(next, poolCount, puts)
  {
  }

  lemma ServersOpen(b: Books, f: nat, next: Ctx)
    requires b.Ok() && f in b.fetches && next.sock.Some? && next.sock.value !in b.owner && next.sock.value.tls == next.tls
    ensures ServersOk(b.keep, b.fetches[f := next], b.servers[next.sock.value := ServerOf(next)])
  {
    NobodyHas(b, next.sock.value);
    hide OwnersOk, TlsHandles, PoolCount, CtxOk, LowerAll;
  }

  lemma Opens(b: Books, f: nat, next: Ctx)
    requires b.Ok() && f in b.fetches && b.fetches[f].sock.None? && next.sock.Some? && next.sock.value !in b.owner
    requires CtxOk(next, PoolCount(b.keep), b.puts) && (next.sock.value.tls ==> b.tlsOpen < TLS_MAX)
    requires next.sock.value.tls == next.tls
    ensures var h := next.sock.value;
            b.Set(f, next).(owner := b.owner[h := InFetch(f)], servers := b.servers[h := ServerOf(next)],
                            tlsOpen := b.tlsOpen + if h.tls then 1 else 0).Ok()
  {
    NobodyHas(b, next.sock.value);
    ServersOpen(b, f, next);
    hide OwnersOk, ServersOk, TlsHandles, PoolCount, CtxOk;
    OwnersOpen(b.keep, b.fetches, b.owner, f, next);
    TlsHandlesPlus(b.owner, next.sock.value, InFetch(f));
  }

  lemma IsKept(b: Books, f: nat, next: Ctx, i: nat, k: Kept)
    requires b.Ok() && f in b.fetches && b.fetches[f].sock == Some(k.h) && next == b.fetches[f].(sock := None, dead := true)
    requires i < KEEP_MAX && b.keep[i].None? && IsComplete(k.last) && k.host == b.fetches[f].host && k.port == b.fetches[f].port
    ensures k.h in b.owner
    ensures b.Set(f, next).(keep := b.keep[i := Some(k)], owner := b.owner[k.h := InPool(i)], puts := b.puts + 1).Ok()
  {
    hide OwnersOk, TlsHandles, PoolCount, IsServer;
    OwnersPut(b.keep, b.fetches, b.owner, f, next, i, k);
    TlsHandlesPlus(b.owner, k.h, InPool(i));
    PoolCountUpdate(b.keep, i, Some(k));
  }

  /** A kept connection is for the same transport, port and server name. */
  predicate Serves(k: Option<Kept>, c: Ctx) {
    k.Some? && k.value.h.tls == c.tls && k.value.port == c.port && SameNoCase(k.value.host, c.host)
  }

  predicate IsTlsSlot(k: Option<Kept>) {
    k.Some? && k.value.h.tls
  }

  /** A kept connection that is too old, or on which the server has something to say. */
  predicate IsStale(k: Option<Kept>, now: int, readable: set<Handle>) {
    k.Some? && (now - k.value.since > KEEP_IDLE_US || k.value.h in readable)
  }

  /** A kept connection goes to the fetch's server. */
  predicate Suits(k: Option<Kept>, c: Ctx) {
    k.Some? && IsServer(Server(k.value.h.tls, k.value.host, k.value.port), c.tls, c.host, c.port)
  }

  /** The pool's test is that the connection goes to the fetch's server. */
  lemma ServesIfSuits(k: Option<Kept>, c: Ctx)
    ensures Serves(k, c) <==> Suits(k, c)
  {
    if k.Some? && LowerAll(k.value.host) == LowerAll(c.host) {
      assert |LowerAll(k.value.host)| == |LowerAll(c.host)|;
      assert forall i | 0 <= i < |c.host| :: LowerAll(k.value.host)[i] == LowerAll(c.host)[i];
    }
  }

  lemma IsTaken(b: Books, f: nat, next: Ctx, i: nat)
    requires b.Ok() && f in b.fetches && i < KEEP_MAX && Suits(b.keep[i], b.fetches[f])
    requires b.fetches[f].state.Resolve? && !b.fetches[f].post
    requires next == b.fetches[f].(sock := Some(b.keep[i].value.h), reused := true, state := Send)
    ensures b.keep[i].value.h in b.owner
    ensures b.Set(f, next).(keep := b.keep[i := None], owner := b.owner[b.keep[i].value.h := InFetch(f)]).Ok()
  {
    hide OwnersOk, TlsHandles, PoolCount;
    OwnersTake(b.keep, b.fetches, b.owner, f, next, i);
    TlsHandlesPlus(b.owner, b.keep[i].value.h, InFetch(f));
    PoolCountUpdate(b.keep, i, None);
  }

  /** Of every fetch that began, a record: it is under way, or gone within the bounds. */
  ghost predicate Recorded(fetches: map<nat, Ctx>, released: seq<Ctx>, begun: nat, puts: nat) {
    begun == |fetches.Keys| + |released| && forall i | 0 <= i < |released| :: Bounded(released[i], puts)
  }

  lemma RecordedSet(fetches: map<nat, Ctx>, released: seq<Ctx>, begun: nat, puts: nat, f: nat, next: Ctx, more: nat)
    requires Recorded(fetches, released, begun, puts) && puts <= more
    ensures Recorded(fetches[f := next], released, if f in fetches then begun else begun + 1, more)
  {
    assert fetches[f := next].Keys == fetches.Keys + {f};
  }

  lemma RecordedGone(fetches: map<nat, Ctx>, released: seq<Ctx>, begun: nat, puts: nat, f: nat, c: Ctx)
    requires Recorded(fetches, released, begun, puts) && f in fetches && Bounded(c, puts)
    ensures Recorded(fetches - {f}, released + [c], begun, puts)
  {
    assert (fetches - {f}).Keys == fetches.Keys - {f};
  }

  lemma OkIsBounded(c: Ctx, poolCount: nat, puts: nat)
    requires CtxOk(c, poolCount, puts)
    ensures Bounded(c, puts)
  {
  }

  // ── What a step may make of a fetch ─────────────────────────────────────

  /** Only fetch f may have changed. */
  ghost predicate OnlyFetch(before: map<nat, Ctx>, after: map<nat, Ctx>, f: nat) {
    after.Keys == before.Keys && forall g | g in before && g != f :: after[g] == before[g]
  }

  function WithTrailing(c: Ctx, trailing: bool): Ctx {
    c.(trailing := trailing)
  }

  /** But for whether bytes followed the response's end, which only decides about the pool. */
  function Plain(c: Ctx): Ctx {
    WithTrailing(c, false)
  }

  /** Nothing but the pool depends on it. */
  lemma EndAside(c: Ctx, t: bool)
    ensures WithTrailing(c, t).resp == c.resp && WithTrailing(c, t).dead == c.dead
    ensures MayStartOver(WithTrailing(c, t)) == MayStartOver(c)
    ensures Over(WithTrailing(c, t)) == WithTrailing(Over(c), t)
    ensures AfterAbort(WithTrailing(c, t)) == WithTrailing(AfterAbort(c), t)
  {
  }

  lemma StartAside(c: Ctx, t: bool)
    ensures StartedOver(WithTrailing(c, t)) == WithTrailing(StartedOver(c), t)
  {
  }

  lemma CloseAside(c: Ctx, t: bool)
    ensures ClosedBy(WithTrailing(c, t)) == WithTrailing(ClosedBy(c), t)
  {
  }

  lemma EndsAside(c: Ctx, t: bool)
    ensures WithTrailing(c, t).resp == c.resp && WithTrailing(c, t).dead == c.dead
    ensures Over(WithTrailing(c, t)) == WithTrailing(Over(c), t)
    ensures AfterLoss(WithTrailing(c, t)) == WithTrailing(AfterLoss(c), t)
    ensures AfterClose(WithTrailing(c, t)) == WithTrailing(AfterClose(c), t)
    ensures AfterAbort(WithTrailing(c, t)) == WithTrailing(AfterAbort(c), t)
  {
    EndAside(c, t);
    StartAside(c, t);
    CloseAside(c, t);
    hide WithTrailing, StartedOver, ClosedBy, Over, AfterAbort, MayStartOver;
  }

  lemma SegmentAside(c: Ctx, t: bool, bytes: seq<byte>)
    requires c.resp.Valid()
    ensures WithTrailing(c, t).resp == c.resp
    ensures AfterSegment(WithTrailing(c, t), bytes) == WithTrailing(AfterSegment(c, bytes), t)
  {
    hide H.TakeAll, H.Response.Valid;
    assert Asked(WithTrailing(c, t)) == Asked(c);
    hide Asked;
  }

  lemma {:induction false} TrailingAside(c: Ctx, t: bool, arrivals: seq<Arrival>, total: nat, late: bool)
    requires c.resp.Valid()
    ensures WithTrailing(c, t).resp == c.resp
    ensures AfterReceives(WithTrailing(c, t), arrivals, total, late) == WithTrailing(AfterReceives(c, arrivals, total, late), t)
    decreases |arrivals|
  {
    hide WithTrailing, AfterSegment, AfterLoss, AfterClose, AfterAbort, Over, H.Response.Valid;
    EndsAside(c, t);
    if arrivals == [] || !arrivals[0].Segment? {
    } else {
      var bytes := arrivals[0].bytes;
      SegmentAside(c, t, bytes);
      EndsAside(AfterSegment(c, bytes), t);
      TrailingAside(AfterSegment(c, bytes), t, arrivals[1..], total + |bytes|, false);
    }
  }

  lemma PlainIsSame(c: Ctx, d: Ctx)
    requires Plain(d) == Plain(c)
    ensures d == WithTrailing(c, d.trailing) && d.resp == c.resp && d.dead == c.dead
  {
  }

  lemma PlainOf(c: Ctx, t: bool)
    ensures Plain(WithTrailing(c, t)) == Plain(c)
  {
  }

  lemma ReceivesEnd(c: Ctx, arrivals: seq<Arrival>, total: nat, late: bool)
    requires c.resp.Valid() && (arrivals == [] || total >= MAX_READ_PER_POLL)
    ensures AfterReceives(c, arrivals, total, late) == if late then Over(c) else c
  {
  }

  /** One arrival of several. */
  lemma ReceivesNext(c: Ctx, arrivals: seq<Arrival>, i: nat, total: nat, late: bool)
    requires c.resp.Valid() && i < |arrivals| && total < MAX_READ_PER_POLL
    ensures AfterReceives(c, arrivals[i..], total, late)
            == match arrivals[i]
               case Lost => AfterLoss(c)
               case Closed => AfterClose(c)
               case Segment(bytes, aborted) =>
                 if aborted then AfterAbort(c)
                 else
                   var d := AfterSegment(c, bytes);
                   if d.dead then d else AfterReceives(d, arrivals[i + 1..], total + |bytes|, false)
  {
    hide AfterSegment, AfterLoss, AfterClose, AfterAbort;
    assert arrivals[i..][0] == arrivals[i] && arrivals[i..][1..] == arrivals[i + 1..];
  }

  /** A segment that leaves the response unfinished, whatever was seen of bytes after its end. */
  lemma ReceivesOn(c: Ctx, d: Ctx, arrivals: seq<Arrival>, i: nat, total: nat, late: bool)
    requires c.resp.Valid() && d.resp.Valid() && i < |arrivals| && total < MAX_READ_PER_POLL
    requires arrivals[i].Segment? && !arrivals[i].aborted && !d.dead && Plain(d) == Plain(AfterSegment(c, arrivals[i].bytes))
    ensures Plain(AfterReceives(d, arrivals[i + 1..], total + |arrivals[i].bytes|, false))
            == Plain(AfterReceives(c, arrivals[i..], total, late))
  {
    ReceivesNext(c, arrivals, i, total, late);
    var m := AfterSegment(c, arrivals[i].bytes);
    PlainIsSame(m, d);
    hide Plain, WithTrailing, AfterSegment, AfterReceives, AfterLoss, AfterClose, AfterAbort;
    TrailingAside(m, d.trailing, arrivals[i + 1..], total + |arrivals[i].bytes|, false);
    PlainOf(AfterReceives(m, arrivals[i + 1..], total + |arrivals[i].bytes|, false), d.trailing);
  }

  lemma UnsentIs(c: Ctx)
    ensures Unsent(c) == if c.sent < c.reqLen then c.reqLen - c.sent else 0
  {
  }

  lemma SentNone(c: Ctx)
    ensures SentMore(c, 0) == c
  {
  }

  lemma SentOneMore(c: Ctx, n: nat, more: nat)
    requires 0 < more <= SentMore(c, n).reqLen - SentMore(c, n).sent
    ensures SentMore(SentMore(c, n), more) == SentMore(c, n + more)
    ensures Unsent(SentMore(c, n + more)) == Unsent(SentMore(c, n)) - more
    ensures SentMore(c, n + more).state == SentMore(c, n).state && SentMore(c, n + more).dead == SentMore(c, n).dead
  {
  }

  lemma SendsEnd(left: nat, takes: seq<int>)
    requires left == 0 || takes == []
    ensures Taken(left, takes) == 0 && !IsLost(left, takes)
  {
  }

  /** One send of several. */
  lemma SendsNext(left: nat, takes: seq<int>, i: nat)
    requires 0 < left && i < |takes|
    ensures var n := Min(takes[i], left);
            if takes[i] > 0
            then Taken(left, takes[i..]) == n + Taken(left - n, takes[i + 1..])
                 && IsLost(left, takes[i..]) == IsLost(left - n, takes[i + 1..])
            else Taken(left, takes[i..]) == 0 && IsLost(left, takes[i..]) == (takes[i] < 0)
  {
    assert takes[i..][0] == takes[i] && takes[i..][1..] == takes[i + 1..];
  }

  /** A step of the fetch with what the world answered, from the pool and into it. */
  ghost predicate IsStep(c: Ctx, w: World, d: Ctx) {
    c.resp.Valid() && exists kept, room, open :: Plain(d) == Plain(Stepped(c, w, kept, room, open))
  }

  /** A fetch has taken a step, and is gone if it was over then. */
  ghost predicate Advanced(c: Ctx, w: World, f: nat, after: map<nat, Ctx>) {
    if f in after then IsStep(c, w, after[f]) && !after[f].dead else exists d :: IsStep(c, w, d) && d.dead
  }

  function WorldOf(worlds: map<nat, World>, f: nat): World {
    if f in worlds then worlds[f] else IDLE
  }

  /** What the fetcher is told: a fetch begins, a tick, a fetch is aborted between ticks. */
  datatype Event =
    | Begin(f: nat, tls: bool, host: seq<byte>, port: nat, post: bool, only2xx: bool, proxy: bool, reqLen: nat)
    | Tick(now: int, worlds: map<nat, World>, readable: set<Handle>)
    | Abort(f: nat)

  /** What an event makes of which fetches are under way. */
  predicate Follows(before: set<nat>, event: Event, after: set<nat>) {
    match event
    case Begin(f, _, _, _, _, _, _, _) => after == before + {f}
    case Tick(_, _, _) => after <= before
    case Abort(f) => after == before - {f}
  }

  predicate IsNew(event: Event, keys: set<nat>) {
    event.Begin? && event.f !in keys
  }

  /** How many fetches began. */
  function Beginnings(events: seq<Event>, keys: seq<set<nat>>): nat
    requires |keys| > |events|
  {
    if events == [] then 0
    else
      Beginnings(events[..|events| - 1], keys[..|keys| - 1]) +
      if IsNew(events[|events| - 1], keys[|events| - 1]) then 1 else 0
  }

  /** The fetches under way before and after each event, from `first` to `last`, and how many of them began. */
  ghost predicate IsChronicle(events: seq<Event>, keys: seq<set<nat>>, first: set<nat>, last: set<nat>, n: int) {
    && |keys| == |events| + 1 && keys[0] == first && keys[|events|] == last && n == Beginnings(events, keys)
    && forall i | 0 <= i < |events| :: Follows(keys[i], events[i], keys[i + 1])
  }

  lemma ChronicleStarts(events: seq<Event>, first: set<nat>)
    ensures IsChronicle(events[..0], [first], first, first, 0)
  {
  }

  lemma ChronicleNext(events: seq<Event>, i: nat, keys: seq<set<nat>>, first: set<nat>, last: set<nat>, n: int,
                      next: set<nat>)
    requires i < |events| && IsChronicle(events[..i], keys, first, last, n) && Follows(last, events[i], next)
    ensures IsChronicle(events[..i + 1], keys + [next], first, next, n + if IsNew(events[i], last) then 1 else 0)
  {
    hide Follows, IsNew;
    assert events[..i + 1][..i] == events[..i] && (keys + [next])[..i + 1] == keys;
  }

  predicate Distinct(list: seq<nat>) {
    forall i, j | 0 <= i < j < |list| :: list[i] != list[j]
  }

  ghost predicate Covers(list: seq<nat>, keys: set<nat>) {
    forall f :: f in list <==> f in keys
  }

  /** Without every occurrence of f. */
  function Without(list: seq<nat>, f: nat): (left: seq<nat>)
    ensures forall g :: g in left <==> g in list && g != f
  {
    if list == [] then []
    else if list[0] == f then Without(list[1..], f)
    else [list[0]] + Without(list[1..], f)
  }

  lemma {:induction false} WithoutIsDistinct(list: seq<nat>, f: nat)
    requires Distinct(list)
    ensures Distinct(Without(list, f))
  {
    if list == [] {
    } else {
      var rest := list[1..];
      assert forall i, j | 0 <= i < j < |rest| :: rest[i] == list[i + 1] && rest[j] == list[j + 1];
      WithoutIsDistinct(rest, f);
      assert list[0] !in rest;
    }
  }

  class Fetcher {
    const keep: array<Option<Kept>>
    var tlsOpen: nat
    var fetches: map<nat, Ctx>
    var list: seq<nat>
    var owner: map<Handle, Owner>  // the loader's open handles, and who of us holds each
    ghost var servers: map<Handle, Server>  // what each handle was opened to, the last time
    var puts: nat  // connections put into the pool so far
    ghost var begun: nat           // fetches that began,
    ghost var released: seq<Ctx>   // and those that are gone, as they were last

    ghost function Now(): Books
      requires keep.Length == KEEP_MAX
      reads this`tlsOpen, this`fetches, this`owner, this`servers, this`puts, keep
    {
      Books(keep[..], fetches, owner, servers, tlsOpen, puts)
    }

    ghost predicate Valid()
      reads this`tlsOpen, this`fetches, this`owner, this`servers, this`puts, this`begun, this`released, keep
      ensures Valid() ==> keep.Length == KEEP_MAX
    {
      keep.Length == KEEP_MAX && Now().Ok() && Recorded(fetches, released, begun, puts)
    }

    constructor ()
      ensures Valid() && fresh(keep) && fetches == map[] && owner == map[] && list == []
    {
      keep := new Option<Kept>[KEEP_MAX](_ => None);
      tlsOpen, fetches, list, owner, puts := 0, map[], [], map[], 0;
      begun, released, servers := 0, [], map[];
      new;
      assert TlsHandles(owner) == {};
    }

    // ── Handles ─────────────────────────────────────────────────────────────

    /** A fetch's connection, if it has one, is closed; the fetch goes on as `next`. */
    method CloseConn(f: nat, next: Ctx)
      requires Valid() && f in fetches && next.sock.None? && SameGoal(fetches[f], next)
      requires CtxOk(next, PoolCount(keep[..]), puts)
      modifies this`tlsOpen, this`fetches, this`owner
      ensures Valid() && fetches == old(fetches)[f := next]
      ensures owner == if old(fetches)[f].sock.Some? then old(owner) - {old(fetches)[f].sock.value} else old(owner)
      ensures old(fetches)[f].sock.None? ==> tlsOpen == old(tlsOpen)
    {
      hide Books.Ok, Recorded, CtxOk;
      var sock := fetches[f].sock;
      RecordedSet(fetches, released, begun, puts, f, next, puts);
      if sock.Some? {
        FetchCloses(Now(), f, next);
        if sock.value.tls && tlsOpen > 0 {
          tlsOpen := tlsOpen - 1;
        }
        owner := owner - {sock.value};
      } else {
        GoesOn(Now(), f, next);
      }
      fetches := fetches[f := next];
    }

    /** A pool slot's connection is closed. */
    method KeepClose(i: nat)
      requires Valid() && i < KEEP_MAX && keep[i].Some?
      modifies this`tlsOpen, this`owner, keep
      ensures Valid()
      ensures keep[..] == old(keep[..])[i := None]
      ensures owner == old(owner) - {old(keep[i]).value.h}
      ensures old(keep[i]).value.h.tls ==> tlsOpen < TLS_MAX
    {
      hide Books.Ok, Recorded;
      var h := keep[i].value.h;
      SlotCloses(Now(), i);
      if h.tls && tlsOpen > 0 {
        tlsOpen := tlsOpen - 1;
      }
      owner := owner - {h};
      keep[i] := None;
      assert keep[..] == old(keep[..])[i := None];
    }

    /** Gives up the TLS connection that has been kept longest, if any is, to make room for a session. */
    method DropKeptTls() returns (dropped: bool)
      requires Valid()
      modifies this`tlsOpen, this`owner, keep
      ensures Valid()
      ensures dropped == exists i | 0 <= i < KEEP_MAX :: IsTlsSlot(old(keep[i]))
      ensures !dropped ==> keep[..] == old(keep[..]) && owner == old(owner)
      ensures dropped ==> tlsOpen < TLS_MAX
      ensures dropped ==> exists i | 0 <= i < KEEP_MAX ::
                && old(keep[i]).Some? && old(keep[i]).value.h.tls && keep[..] == old(keep[..])[i := None]
                && owner == old(owner) - {old(keep[i]).value.h}
                && forall j | 0 <= j < KEEP_MAX && old(keep[j]).Some? && old(keep[j]).value.h.tls ::
                     old(keep[i]).value.since <= old(keep[j]).value.since
    {
      hide Fetcher.Valid;
      var oldest := -1;
      for i := 0 to KEEP_MAX
        invariant -1 <= oldest < i && (oldest >= 0 ==> keep[oldest].Some? && keep[oldest].value.h.tls)
        invariant forall j | 0 <= j < i && keep[j].Some? && keep[j].value.h.tls ::
                    oldest >= 0 && keep[oldest].value.since <= keep[j].value.since
      {
        if keep[i].Some? && keep[i].value.h.tls && (oldest < 0 || keep[i].value.since < keep[oldest].value.since) {
          oldest := i;
        }
      }
      if oldest < 0 {
        return false;
      }
      KeepClose(oldest);
      return true;
    }

    /** The slot a connection goes into: a free one, or the oldest. */
    method KeepSlot() returns (slot: int)
      requires keep.Length == KEEP_MAX
      ensures 0 <= slot < KEEP_MAX
      ensures keep[slot].Some? ==> forall j | 0 <= j < KEEP_MAX ::
                keep[j].Some? && keep[slot].value.since <= keep[j].value.since
    {
      slot := -1;
      for i := 0 to KEEP_MAX
        invariant -1 <= slot < i && (i > 0 ==> slot >= 0)
        invariant forall j | 0 <= j < i :: keep[j].Some? && keep[slot].Some?
                                           && keep[slot].value.since <= keep[j].value.since
      {
        if keep[i].None? {
          slot := i;
          break;
        }
        if slot < 0 || keep[i].value.since < keep[slot].value.since {
          slot := i;
        }
      }
    }

    /** Puts a fetch's connection into a free slot, or in place of the oldest; the fetch is over. */
    method KeepPut(f: nat, now: int)
      requires Valid() && f in fetches && fetches[f].sock.Some? && IsComplete(fetches[f].resp)
      modifies this`tlsOpen, this`fetches, this`owner, this`puts, keep
      ensures Valid() && puts == old(puts) + 1
      ensures fetches == old(fetches)[f := old(fetches)[f].(sock := None, dead := true)]
      ensures var c, was := old(fetches)[f], old(keep[..]);
              exists i | 0 <= i < KEEP_MAX ::
                && keep[..] == was[i := Some(Kept(c.sock.value, c.host, c.port, now, c.resp))]
                && (was[i].Some? ==> forall j | 0 <= j < KEEP_MAX ::
                      was[j].Some? && was[i].value.since <= was[j].value.since)
      ensures old(fetches)[f].sock.value in owner
    {
      hide Fetcher.Valid;
      var slot := KeepSlot();
      Evict(slot);
      Deposit(f, slot, now);
      assert keep[..] == old(keep[..])[slot := keep[slot]];
    }

    /** The slot's connection, if it has one, makes room for another. */
    method Evict(slot: nat)
      requires Valid() && slot < KEEP_MAX
      modifies this`tlsOpen, this`owner, keep
      ensures Valid() && keep[..] == old(keep[..])[slot := None]
    {
      hide Books.Ok, Recorded;
      if keep[slot].Some? {
        KeepClose(slot);
      }
      assert keep[..] == old(keep[..])[slot := None];
    }

    /** A free slot takes fetch f's connection. */
    method Deposit(f: nat, slot: nat, now: int)
      requires Valid() && f in fetches && fetches[f].sock.Some? && slot < KEEP_MAX && keep[slot].None?
      requires IsComplete(fetches[f].resp)
      modifies this`fetches, this`owner, this`puts, keep
      ensures Valid() && puts == old(puts) + 1
      ensures fetches == old(fetches)[f := old(fetches)[f].(sock := None, dead := true)]
      ensures var c := old(fetches)[f];
              keep[..] == old(keep[..])[slot := Some(Kept(c.sock.value, c.host, c.port, now, c.resp))]
      ensures old(fetches)[f].sock.value in owner
    {
      hide Books.Ok, Recorded, IsComplete;
      var c := fetches[f];
      var k := Kept(c.sock.value, c.host, c.port, now, c.resp);
      var next := c.(sock := None, dead := true);
      IsKept(Now(), f, next, slot, k);
      RecordedSet(fetches, released, begun, puts, f, next, puts + 1);
      owner := owner[k.h := InPool(slot)];
      fetches := fetches[f := next];
      puts := puts + 1;
      keep[slot] := Some(k);
      assert keep[..] == old(keep[..])[slot := Some(k)];
    }

    /** A kept connection to the fetch's server, if there is one. */
    method KeepTake(f: nat) returns (taken: bool)
      requires Valid() && f in fetches && fetches[f].state.Resolve? && !fetches[f].post && !fetches[f].dead
      modifies this`fetches, this`owner, keep
      ensures Valid()
      ensures taken == exists i | 0 <= i < KEEP_MAX :: Suits(old(keep[i]), old(fetches)[f])
      ensures !taken ==> fetches == old(fetches) && owner == old(owner) && keep[..] == old(keep[..])
      ensures owner.Keys == old(owner).Keys
      ensures taken ==> exists i | 0 <= i < KEEP_MAX ::
                && Suits(old(keep[i]), old(fetches)[f])
                && keep[..] == old(keep[..])[i := None]
                && fetches == old(fetches)[f := old(fetches)[f].(sock := Some(old(keep[i]).value.h), reused := true,
                                                                 state := Send)]
    {
      hide Fetcher.Valid, Serves, Suits;
      var c := fetches[f];
      for i := 0 to KEEP_MAX
        invariant Valid() && fetches == old(fetches) && owner == old(owner) && keep[..] == old(keep[..])
        invariant forall j | 0 <= j < i :: !Suits(keep[j], c)
      {
        ServesIfSuits(keep[i], c);
        if Serves(keep[i], c) {
          TakeSlot(f, i);
          return true;
        }
      }
      return false;
    }

    /** The slot's connection is fetch f's from now on. */
    method TakeSlot(f: nat, i: nat)
      requires Valid() && f in fetches && fetches[f].state.Resolve? && !fetches[f].post
      requires i < KEEP_MAX && Suits(keep[i], fetches[f])
      modifies this`fetches, this`owner, keep
      ensures Valid() && keep[..] == old(keep[..])[i := None] && owner.Keys == old(owner).Keys
      ensures fetches == old(fetches)[f := old(fetches)[f].(sock := Some(old(keep[i]).value.h), reused := true,
                                                               state := Send)]
    {
      hide Books.Ok, Recorded;
      var h := keep[i].value.h;
      var next := fetches[f].(sock := Some(h), reused := true, state := Send);
      IsTaken(Now(), f, next, i);
      RecordedSet(fetches, released, begun, puts, f, next, puts);
      owner := owner[h := InFetch(f)];
      fetches := fetches[f := next];
      keep[i] := None;
      assert keep[..] == old(keep[..])[i := None];
    }

    /** Closes kept connections that are too old, or that the server has something to say on, and no others. */
    method KeepCheck(now: int, readable: set<Handle>)
      requires Valid()
      modifies this`tlsOpen, this`owner, keep
      ensures Valid() && owner.Keys <= old(owner).Keys
      ensures forall i | 0 <= i < KEEP_MAX :: keep[i] == if IsStale(old(keep[i]), now, readable) then None else old(keep[i])
    {
      hide Fetcher.Valid;
      for i := 0 to KEEP_MAX
        invariant Valid() && owner.Keys <= old(owner).Keys
        invariant forall j | 0 <= j < i :: keep[j] == if IsStale(old(keep[j]), now, readable) then None else old(keep[j])
        invariant forall j | i <= j < KEEP_MAX :: keep[j] == old(keep[j])
      {
        if keep[i].Some? && (now - keep[i].value.since > KEEP_IDLE_US || keep[i].value.h in readable) {
          ghost var was := keep[..];
          KeepClose(i);
          assert forall j | 0 <= j < KEEP_MAX :: keep[j] == keep[..][j] == if j == i then None else was[j];
        }
      }
    }

    // ── One step of a fetch ─────────────────────────────────────────────────

    /** The fetch goes on as `next`, holding what it held. */
    method Become(f: nat, next: Ctx)
      requires Valid() && f in fetches && next.sock == fetches[f].sock && SameGoal(fetches[f], next)
      requires CtxOk(next, PoolCount(keep[..]), puts)
      modifies this`fetches
      ensures Valid() && fetches == old(fetches)[f := next]
    {
      hide Books.Ok, Recorded, CtxOk;
      GoesOn(Now(), f, next);
      RecordedSet(fetches, released, begun, puts, f, next, puts);
      fetches := fetches[f := next];
    }

    /** What holds of a fetch. */
    lemma Fine(f: nat)
      requires Valid() && f in fetches
      ensures CtxOk(fetches[f], PoolCount(keep[..]), puts)
    {
      hide CtxOk;
      OkOf(Now(), f);
    }

    /** The fetch's last message: nothing of it is left but its record. */
    method Finish(f: nat)
      requires Valid() && f in fetches
      modifies this`tlsOpen, this`fetches, this`owner
      ensures Valid() && fetches == old(fetches)[f := old(fetches)[f].(sock := None, dead := true)]
      ensures owner.Keys <= old(owner).Keys && (old(fetches)[f].sock.None? ==> tlsOpen == old(tlsOpen))
    {
      hide Fetcher.Valid;
      Fine(f);
      CloseConn(f, fetches[f].(sock := None, dead := true));
    }

    /**
     * Lost on a kept connection, before any byte of an answer: the fetch starts over. In no other
     * case is a request sent again.
     */
    method RetryFresh(f: nat) returns (again: bool)
      requires Valid() && f in fetches && !fetches[f].dead
      modifies this`tlsOpen, this`fetches, this`owner
      ensures Valid()
      ensures again == (old(fetches)[f].reused && !old(fetches)[f].gotBytes)
      ensures again ==> !old(fetches)[f].post
      ensures fetches == if !again then old(fetches)
                         else old(fetches)[f := old(fetches)[f].(sock := None, reused := false, sent := 0,
                                                                 state := Resolve,
                                                                 restarts := old(fetches)[f].restarts + 1)]
    {
      hide Fetcher.Valid;
      Fine(f);
      var c := fetches[f];
      again := c.reused && !c.gotBytes;
      if again {
        CloseConn(f, c.(sock := None, reused := false, sent := 0, state := Resolve, restarts := c.restarts + 1));
      }
    }

    /** Starts over if that is allowed, else the fetch is over. */
    method RetryOrFinish(f: nat)
      requires Valid() && f in fetches && !fetches[f].dead
      modifies this`tlsOpen, this`fetches, this`owner
      ensures Valid() && OnlyFetch(old(fetches), fetches, f)
      ensures fetches[f] == AfterLoss(old(fetches)[f])
    {
      hide Fetcher.Valid;
      var again := RetryFresh(f);
      if !again {
        Finish(f);
      }
    }

    /** A wait goes on until its deadline. */
    method TimeOut(f: nat, w: World, wait: Wait)
      requires Valid() && f in fetches
      modifies this`tlsOpen, this`fetches, this`owner
      ensures Valid() && fetches == old(fetches)[f := UnlessLate(old(fetches)[f], w, wait)]
      ensures owner.Keys <= old(owner).Keys && (old(fetches)[f].sock.None? ==> tlsOpen == old(tlsOpen))
    {
      hide Fetcher.Valid;
      if wait in w.late {
        Finish(f);
      }
    }

    method KnowAddress(f: nat)
      requires Valid() && f in fetches && fetches[f].state.Resolve?
      modifies this`fetches
      ensures Valid() && fetches == old(fetches)[f := old(fetches)[f].(state := Connect)]
    {
      hide Fetcher.Valid, CtxOk;
      Fine(f);
      AddressIsOk(fetches[f], PoolCount(keep[..]), puts);
      Become(f, fetches[f].(state := Connect));
    }

    /** Without a kept connection: the server's address, if it is known. */
    method StepAddress(f: nat, w: World)
      requires Valid() && f in fetches && fetches[f].state.Resolve? && !fetches[f].dead
      modifies this`tlsOpen, this`fetches, this`owner
      ensures Valid() && fetches == old(fetches)[f := AfterResolve(old(fetches)[f], w, None)]
      ensures tlsOpen == old(tlsOpen)
      ensures owner.Keys <= old(owner).Keys
    {
      NoSock(f);
      AddressCases(fetches[f], w);
      hide Fetcher.Valid, CtxOk, AfterResolve, UnlessLate;
      if !w.services || w.address.Failed? {
        Finish(f);
      } else if w.address.Waiting? {
        TimeOut(f, w, ForAddress);
      } else {
        KnowAddress(f);
      }
    }

    /** ST_RESOLVE: a kept connection to the server, if there is one, or the server's address. */
    method StepResolve(f: nat, w: World) returns (ghost kept: Option<Handle>)
      requires Valid() && f in fetches && fetches[f].state.Resolve? && !fetches[f].dead
      modifies this`tlsOpen, this`fetches, this`owner, keep
      ensures Valid() && OnlyFetch(old(fetches), fetches, f) && fetches[f] == AfterResolve(old(fetches)[f], w, kept)
      ensures var c := old(fetches)[f];
              kept.Some? <==> w.services && !c.post && !c.proxy && exists i | 0 <= i < KEEP_MAX :: Suits(old(keep[i]), c)
      ensures kept.Some? ==> exists i | 0 <= i < KEEP_MAX ::
                && Suits(old(keep[i]), old(fetches)[f]) && kept == Some(old(keep[i]).value.h)
                && keep[..] == old(keep[..])[i := None]
      ensures kept.None? ==> keep[..] == old(keep[..])
      ensures tlsOpen == old(tlsOpen)
      ensures owner.Keys <= old(owner).Keys
    {
      hide Fetcher.Valid, Suits, CtxOk;
      kept := None;
      if w.services && !fetches[f].post && !fetches[f].proxy {
        var taken := KeepTake(f);
        if taken {
          kept := fetches[f].sock;
          return;
        }
      }
      StepAddress(f, w);
    }

    /** Room for another TLS session, made by giving up a kept one if need be. */
    method MakeRoom(f: nat) returns (room: bool)
      requires Valid() && f in fetches
      modifies this`tlsOpen, this`owner, keep
      ensures Valid() && owner.Keys <= old(owner).Keys
      ensures room == (!fetches[f].tls || old(tlsOpen) < TLS_MAX || exists i | 0 <= i < KEEP_MAX :: IsTlsSlot(old(keep[i])))
      ensures room && fetches[f].tls ==> tlsOpen < TLS_MAX
      ensures !fetches[f].tls || old(tlsOpen) < TLS_MAX ==> keep[..] == old(keep[..]) && owner == old(owner)
    {
      hide Fetcher.Valid;
      room := true;
      if fetches[f].tls && tlsOpen >= TLS_MAX {
        room := DropKeptTls();
      }
    }

    /** ST_CONNECT: a new connection; never more than TLS_MAX sessions at once. */
    method StepConnect(f: nat, w: World) returns (room: bool, ghost open: set<Handle>)
      requires Valid() && f in fetches && fetches[f].state.Connect? && !fetches[f].dead
      modifies this`servers, this`tlsOpen, this`fetches, this`owner, keep
      ensures Valid() && OnlyFetch(old(fetches), fetches, f) && fetches[f] == AfterConnect(old(fetches)[f], w, room, open)
      ensures room == (!old(fetches)[f].tls || old(tlsOpen) < TLS_MAX
                       || exists i | 0 <= i < KEEP_MAX :: IsTlsSlot(old(keep[i])))
      ensures open <= old(owner).Keys
    {
      hide Fetcher.Valid;
      room := MakeRoom(f);
      open := owner.Keys;
      if room {
        OpenConn(f, w);
      } else {
        TimeOut(f, w, ForSession);
      }
    }

    /** The loader opens a connection, or does not. */
    method OpenConn(f: nat, w: World)
      requires Valid() && f in fetches && fetches[f].state.Connect? && !fetches[f].dead
      requires fetches[f].tls ==> tlsOpen < TLS_MAX
      modifies this`servers, this`tlsOpen, this`fetches, this`owner
      ensures Valid() && fetches == old(fetches)[f := AfterOpen(old(fetches)[f], w, old(owner).Keys)]
      ensures fetches[f].sock.Some? ==> fetches[f].sock.value !in old(owner)
    {
      hide Fetcher.Valid, CtxOk;
      NoSock(f);
      OpensAfresh(fetches[f], w, owner.Keys);
      var c := fetches[f];
      if w.handle.None? || Handle(c.tls, w.handle.value) in owner {  // (the loader never answers with a handle that is open)
        assert AfterOpen(c, w, owner.Keys) == UnlessLate(c, w, ForHandle);
        hide AfterOpen, UnlessLate;
        TimeOut(f, w, ForHandle);
      } else {
        assert AfterOpen(c, w, owner.Keys)
            == c.(sock := Some(Handle(c.tls, w.handle.value)), state := Connecting, dead := w.aborted);
        hide AfterOpen;
        Opened(f, Handle(c.tls, w.handle.value), w.aborted);
      }
    }

    lemma NoSock(f: nat)
      requires Valid() && f in fetches && (fetches[f].state.Resolve? || fetches[f].state.Connect?)
      ensures fetches[f].sock.None?
    {
      hide Fetcher.Valid;
      Fine(f);
    }

    /** A new connection is the fetch's. */
    method Opened(f: nat, h: Handle, aborted: bool)
      requires Valid() && f in fetches && fetches[f].state.Connect? && !fetches[f].dead
      requires h !in owner && h.tls == fetches[f].tls && (h.tls ==> tlsOpen < TLS_MAX)
      modifies this`servers, this`tlsOpen, this`fetches, this`owner
      ensures Valid()
      ensures fetches == old(fetches)[f := old(fetches)[f].(sock := Some(h), state := Connecting, dead := aborted)]
    {
      hide Books.Ok, Recorded, CtxOk;
      OkOf(Now(), f);
      var next := fetches[f].(sock := Some(h), state := Connecting, dead := aborted);
      OpenedIsOk(fetches[f], next, PoolCount(keep[..]), puts);
      Opens(Now(), f, next);
      RecordedSet(fetches, released, begun, puts, f, next, puts);
      if h.tls {
        tlsOpen := tlsOpen + 1;
      }
      owner := owner[h := InFetch(f)];
      servers := servers[h := ServerOf(next)];
      fetches := fetches[f := next];
    }

    method StepConnecting(f: nat, w: World)
      requires Valid() && f in fetches && fetches[f].state.Connecting? && !fetches[f].dead
      modifies this`tlsOpen, this`fetches, this`owner
      ensures Valid() && OnlyFetch(old(fetches), fetches, f) && fetches[f] == AfterConnecting(old(fetches)[f], w)
    {
      hide Fetcher.Valid;
      match w.connected {
        case Waiting => TimeOut(f, w, ToConnect);
        case Failed => Finish(f);
        case Ready =>
          Fine(f);
          Become(f, fetches[f].(state := Send));
      }
    }

    /** ST_SEND: request bytes, as many as the connection takes. */
    method StepSend(f: nat, w: World)
      requires Valid() && f in fetches && fetches[f].state.Send? && !fetches[f].dead
      modifies this`tlsOpen, this`fetches, this`owner
      ensures Valid() && OnlyFetch(old(fetches), fetches, f) && fetches[f] == AfterSend(old(fetches)[f], w)
    {
      hide Fetcher.Valid, Taken, IsLost;
      var lost := SendBytes(f, w.takes);
      if lost {
        RetryOrFinish(f);
      } else if fetches[f].sent < fetches[f].reqLen {
        TimeOut(f, w, ToSend);
      } else {
        Fine(f);
        Become(f, fetches[f].(state := Receive));
      }
    }

    /** The loop of StepSend: whether the connection was lost. */
    method SendBytes(f: nat, takes: seq<int>) returns (lost: bool)
      requires Valid() && f in fetches && fetches[f].state.Send? && !fetches[f].dead
      modifies this`fetches
      ensures Valid() && OnlyFetch(old(fetches), fetches, f)
      ensures var c := old(fetches)[f];
              fetches[f] == SentMore(c, Taken(Unsent(c), takes)) && lost == IsLost(Unsent(c), takes)
    {
      hide Fetcher.Valid, CtxOk, Taken, IsLost, SentMore, Unsent;
      ghost var c, n := fetches[f], 0;
      var i := 0;
      SentNone(c);
      while fetches[f].sent < fetches[f].reqLen && i < |takes|
        decreases |takes| - i
        invariant 0 <= i <= |takes| && 0 <= n && Valid() && fetches == old(fetches)[f := SentMore(c, n)]
        invariant fetches[f].state.Send? && !fetches[f].dead
        invariant Taken(Unsent(c), takes) == n + Taken(Unsent(fetches[f]), takes[i..])
        invariant IsLost(Unsent(c), takes) == IsLost(Unsent(fetches[f]), takes[i..])
      {
        UnsentIs(fetches[f]);
        SendsNext(Unsent(fetches[f]), takes, i);
        if takes[i] <= 0 {
          return takes[i] < 0;
        }
        var more := Min(takes[i], fetches[f].reqLen - fetches[f].sent);
        SentOneMore(c, n, more);
        SendOnce(f, more);
        i, n := i + 1, n + more;
      }
      UnsentIs(fetches[f]);
      SendsEnd(Unsent(fetches[f]), takes[i..]);
      return false;
    }

    /** The connection took n more bytes of the request. */
    method SendOnce(f: nat, n: nat)
      requires Valid() && f in fetches && fetches[f].state.Send? && !fetches[f].dead
      requires 0 < n <= fetches[f].reqLen - fetches[f].sent
      modifies this`fetches
      ensures Valid() && fetches == old(fetches)[f := SentMore(old(fetches)[f], n)]
    {
      hide Fetcher.Valid;
      Fine(f);
      Become(f, SentMore(fetches[f], n));
    }

    /** ST_STATUS to ST_BODY: what the server sent, until nothing is left or the fetch is over. */
    method StepReceive(f: nat, w: World, now: int)
      requires Valid() && f in fetches && fetches[f].state.Receive? && !fetches[f].dead
      modifies this`tlsOpen, this`fetches, this`owner, this`puts, keep
      ensures Valid() && OnlyFetch(old(fetches), fetches, f) && old(fetches)[f].resp.Valid()
      ensures Plain(fetches[f]) == Plain(AfterReceive(old(fetches)[f], w))
      ensures old(puts) <= puts <= old(puts) + 1
      ensures puts > old(puts) ==> fetches[f].dead && !fetches[f].proxy && IsComplete(fetches[f].resp)
    {
      hide Fetcher.Valid, IsComplete, CtxOk, AfterReceives, AfterSegment, AfterLoss, AfterClose, AfterAbort;
      RespValid(f);
      ghost var c := fetches[f];
      var late := ToReceive in w.late;
      var i, total := 0, 0;
      assert w.arrivals[0..] == w.arrivals;
      while i < |w.arrivals| && total < MAX_READ_PER_POLL
        invariant 0 <= i <= |w.arrivals| && 0 <= total && Valid() && OnlyFetch(old(fetches), fetches, f) && puts == old(puts)
        invariant fetches[f].state.Receive? && !fetches[f].dead && fetches[f].resp.Valid()
        invariant Plain(AfterReceives(fetches[f], w.arrivals[i..], total, late)) == Plain(AfterReceive(c, w))
      {
        ghost var before := fetches[f];
        ReceivesNext(before, w.arrivals, i, total, late);
        var more := ReceiveOnce(f, w.arrivals[i], now);
        if !more {
          return;
        }
        RespValid(f);
        ReceivesOn(before, fetches[f], w.arrivals, i, total, late);
        total, late, i := total + |w.arrivals[i].bytes|, false, i + 1;
      }
      ReceivesEnd(fetches[f], w.arrivals[i..], total, late);
      if late {
        Finish(f);
      }
    }

    lemma RespValid(f: nat)
      requires Valid() && f in fetches
      ensures fetches[f].resp.Valid()
    {
      hide Fetcher.Valid;
      Fine(f);
    }

    /** One segment, or what came instead of it: whether to go on receiving. */
    method ReceiveOnce(f: nat, arrival: Arrival, now: int) returns (more: bool)
      requires Valid() && f in fetches && fetches[f].state.Receive? && !fetches[f].dead
      modifies this`tlsOpen, this`fetches, this`owner, this`puts, keep
      ensures Valid() && OnlyFetch(old(fetches), fetches, f) && old(fetches)[f].resp.Valid()
      ensures var c, d := old(fetches)[f], fetches[f];
              match arrival
              case Lost => d == AfterLoss(c) && !more
              case Closed => d == AfterClose(c) && !more
              case Segment(bytes, aborted) =>
                if aborted then d == AfterAbort(c) && !more
                else Plain(d) == Plain(AfterSegment(c, bytes)) && more == !d.dead
      ensures more ==> puts == old(puts) && fetches[f].state.Receive?
      ensures old(puts) <= puts <= old(puts) + 1
      ensures puts > old(puts) ==> fetches[f].dead && !fetches[f].proxy && IsComplete(fetches[f].resp)
    {
      hide Fetcher.Valid, IsComplete, H.TakeAll;
      RespValid(f);
      more := false;
      match arrival {
        case Lost => RetryOrFinish(f);
        case Closed => ClosedByServer(f);
        case Segment(bytes, aborted) =>
          if aborted {
            Aborted(f);
          } else {
            more := TakeSegment(f, bytes, now);
          }
      }
    }

    /** The server closed the connection: on a kept one the fetch may start over, else it is over. */
    method ClosedByServer(f: nat)
      requires Valid() && f in fetches && fetches[f].state.Receive? && !fetches[f].dead
      modifies this`tlsOpen, this`fetches, this`owner
      ensures Valid() && OnlyFetch(old(fetches), fetches, f) && fetches[f] == AfterClose(old(fetches)[f])
    {
      hide Fetcher.Valid;
      Fine(f);
      var again := RetryFresh(f);
      if !again {
        var c := fetches[f];
        var parser := new H.Fetch.Resume(Asked(c), c.resp, c.trailing);
        parser.ClosedByServer();
        Become(f, c.(resp := parser.resp, dead := true));
        Finish(f);
      }
    }

    /** NetSurf aborts the fetch while it is told of something; it is closed when it is released. */
    method Aborted(f: nat)
      requires Valid() && f in fetches
      modifies this`fetches
      ensures Valid() && fetches == old(fetches)[f := old(fetches)[f].(gotBytes := true, dead := true)]
    {
      hide Fetcher.Valid;
      Fine(f);
      Become(f, fetches[f].(gotBytes := true, dead := true));
    }

    /**
     * The parser takes a segment. If the response is over so is the fetch, and its connection goes
     * into the pool if and only if the parser keeps it; then the response was complete exactly at
     * the segment's last byte. A body that ends there leaves its connection to the pool unless it
     * is to be closed, or the fetch went through a proxy.
     */
    method TakeSegment(f: nat, segment: seq<byte>, now: int) returns (more: bool)
      requires Valid() && f in fetches && fetches[f].state.Receive? && !fetches[f].dead
      modifies this`tlsOpen, this`fetches, this`owner, this`puts, keep
      ensures Valid() && OnlyFetch(old(fetches), fetches, f)
      ensures var c, d := old(fetches)[f], fetches[f];
              && d.resp == H.TakeAll(Asked(c), c.resp, segment) && more == d.resp.outcome.Running?
              && d == c.(gotBytes := true, resp := d.resp, trailing := d.trailing, dead := !more,
                         sock := if more then c.sock else None)
              && puts == old(puts) + (if IsComplete(d.resp) && !c.proxy && !d.trailing then 1 else 0)
              && (puts > old(puts) ==>
                  segment != [] && H.TakeAll(Asked(c), c.resp, segment[..|segment| - 1]).outcome.Running?)
              && (d.resp.outcome == H.Finished && H.EndsInBody(Asked(c), c.resp, segment) ==>
                  puts == old(puts) + if d.resp.connClose || c.proxy then 0 else 1)
      ensures more ==> puts == old(puts)
    {
      hide Fetcher.Valid, H.TakeAll, H.EndsInBody;
      Fine(f);
      var c := fetches[f];
      var parser := new H.Fetch.Resume(Asked(c), c.resp, c.trailing);
      more := parser.Feed(segment);
      ResponseTaken(f, parser.resp, parser.trailing, parser.kept, now);
    }

    /** What is done about it. */
    method ResponseTaken(f: nat, resp: H.Response, trailing: bool, reusable: bool, now: int)
      requires Valid() && f in fetches && fetches[f].state.Receive? && !fetches[f].dead && resp.Valid()
      requires reusable ==> IsComplete(resp)
      modifies this`tlsOpen, this`fetches, this`owner, this`puts, keep
      ensures Valid() && OnlyFetch(old(fetches), fetches, f)
      ensures var c, more := old(fetches)[f], resp.outcome.Running?;
              fetches[f] == c.(gotBytes := true, resp := resp, trailing := trailing, dead := !more,
                               sock := if more then c.sock else None)
      ensures puts == old(puts) + if reusable then 1 else 0
    {
      hide Fetcher.Valid;
      Fine(f);
      Become(f, fetches[f].(gotBytes := true, resp := resp, trailing := trailing, dead := !resp.outcome.Running?));
      if resp.outcome.Running? {
        return;
      }
      if reusable {
        KeepPut(f, now);
      } else {
        Finish(f);
      }
    }

    /** The states up to the request, each in turn. */
    method StepRequest(f: nat, w: World) returns (ghost kept: Option<Handle>, room: bool, ghost open: set<Handle>)
      requires Valid() && f in fetches && !fetches[f].dead
      modifies this`servers, this`tlsOpen, this`fetches, this`owner, keep
      ensures Valid() && OnlyFetch(old(fetches), fetches, f) && old(fetches)[f].resp.Valid()
      ensures fetches[f] == Requested(old(fetches)[f], w, kept, room, open)
      ensures var c := old(fetches)[f];
              kept.Some? <==> c.state.Resolve? && w.services && !c.post && !c.proxy
                              && exists i | 0 <= i < KEEP_MAX :: Suits(old(keep[i]), c)
      ensures kept.None? && !room ==>
                old(fetches)[f].tls && old(tlsOpen) >= TLS_MAX && forall i | 0 <= i < KEEP_MAX :: !IsTlsSlot(old(keep[i]))
      ensures open <= old(owner).Keys
    {
      hide Fetcher.Valid, Suits, AfterResolve, AfterConnect, AfterConnecting, AfterSend, IsTlsSlot;
      RespValid(f);
      kept, room, open := None, true, {};
      ghost var c := fetches[f];
      if fetches[f].state.Resolve? {
        kept := StepResolve(f, w);
      } else {
        PartsSkipped(c, w, None, room, open);
      }
      ghost var c1 := fetches[f];
      assert c1 == AfterResolve(c, w, kept);
      if fetches[f].state.Connect? && !fetches[f].dead {
        room, open := StepConnect(f, w);
      } else {
        PartsSkipped(c1, w, None, room, open);
      }
      ghost var c2 := fetches[f];
      assert c2 == AfterConnect(c1, w, room, open);
      if fetches[f].state.Connecting? && !fetches[f].dead {
        StepConnecting(f, w);
      } else {
        PartsSkipped(c2, w, None, room, open);
      }
      ghost var c3 := fetches[f];
      assert c3 == AfterConnecting(c2, w);
      if fetches[f].state.Send? && !fetches[f].dead {
        StepSend(f, w);
      } else {
        PartsSkipped(c3, w, None, room, open);
      }
    }

    /** A step of a fetch is what the world's answers make of it, from the pool and with what room there is. */
    method Step(f: nat, w: World, now: int) returns (ghost kept: Option<Handle>, room: bool, ghost open: set<Handle>)
      requires Valid() && f in fetches && !fetches[f].dead
      modifies this`servers, this`tlsOpen, this`fetches, this`owner, this`puts, keep
      ensures Valid() && OnlyFetch(old(fetches), fetches, f) && old(puts) <= puts <= old(puts) + 1
      ensures old(fetches)[f].resp.Valid() && Plain(fetches[f]) == Plain(Stepped(old(fetches)[f], w, kept, room, open))
      ensures var c := old(fetches)[f];
              kept.Some? <==> c.state.Resolve? && w.services && !c.post && !c.proxy
                              && exists i | 0 <= i < KEEP_MAX :: Suits(old(keep[i]), c)
      ensures kept.None? && !room ==>
                old(fetches)[f].tls && old(tlsOpen) >= TLS_MAX && forall i | 0 <= i < KEEP_MAX :: !IsTlsSlot(old(keep[i]))
      ensures open <= old(owner).Keys
    {
      hide Fetcher.Valid, Suits, Requested, AfterReceive, IsTlsSlot;
      kept, room, open := StepRequest(f, w);
      if fetches[f].state.Receive? && !fetches[f].dead {
        StepReceive(f, w, now);
      } else {
        RespValid(f);
        PartsSkipped(fetches[f], w, None, room, open);
      }
    }

    /**
     * A fetch that begins, or starts over, has its response after one step in which its server can be
     * reached, takes the request and sends it: the header lines and the body, for any response whose head
     * says where it ends.
     */
    method Deliver(f: nat, w: World, now: int, ghost h: HH.Head, ghost body: seq<byte>)
      requires Valid() && f in fetches && IsUnsent(fetches[f])
      requires IsReachable(fetches[f], w, None, true, owner.Keys) && Taken(fetches[f].reqLen, w.takes) == fetches[f].reqLen
      requires !fetches[f].tls || tlsOpen < TLS_MAX || exists i | 0 <= i < KEEP_MAX :: IsTlsSlot(keep[i])
      requires KeepComing([w]) && HH.EndsByItself(h) && HH.IsResponse(Asked(fetches[f]), h, body, AllBytes([w]))
      modifies this`servers, this`tlsOpen, this`fetches, this`owner, this`puts, keep
      ensures Valid() && OnlyFetch(old(fetches), fetches, f)
      ensures var d := fetches[f];
              && d.dead && d.sock.None? && d.resp.outcome == H.Finished
              && d.resp.headers == HH.Lines(h.fields) && d.resp.body == body && d.restarts == old(fetches)[f].restarts
    {
      hide Fetcher.Valid, HH.IsResponse, HH.EndsByItself, HH.Lines, KeepComing, AllBytes, IsTlsSlot, Suits;
      ghost var c := fetches[f];
      var kept, room, open := Step(f, w, now);
      assert [w] + [] == [w];
      ResponseFetched(c, w, kept, room, open, [], h, body);
      hide Stepped;
    }

    method StepTo(f: nat, w: World, now: int)
      requires Valid() && f in fetches && !fetches[f].dead
      modifies this`servers, this`tlsOpen, this`fetches, this`owner, this`puts, keep
      ensures Valid() && OnlyFetch(old(fetches), fetches, f) && IsStep(old(fetches)[f], w, fetches[f])
    {
      hide Fetcher.Valid, Stepped, Plain, Suits;
      var _, _, _ := Step(f, w, now);
    }

    // ── Fetches come and go ─────────────────────────────────────────────────

    method Setup(f: nat, tls: bool, host: seq<byte>, port: nat, post: bool, only2xx: bool, proxy: bool, reqLen: nat)
      requires Valid() && Listed() && f !in fetches
      modifies this`fetches, this`list, this`begun
      ensures Valid() && Listed() && list == old(list) + [f] && begun == old(begun) + 1
      ensures fetches == old(fetches)[f := Starting(tls, host, port, post, only2xx, proxy, reqLen, puts)]
    {
      hide Books.Ok, Recorded, Starting, CtxOk;
      var c := Starting(tls, host, port, post, only2xx, proxy, reqLen, puts);
      PoolCountBound(keep[..]);
      StartingIsOk(tls, host, port, post, only2xx, proxy, reqLen, PoolCount(keep[..]), puts);
      Begins(Now(), f, c);
      RecordedSet(fetches, released, begun, puts, f, c, puts);
      assert Distinct(list + [f]) && forall g :: g in list + [f] <==> g in fetches.Keys + {f};
      fetches, list, begun := fetches[f := c], list + [f], begun + 1;
    }

    /** A fetch that is over goes back to NetSurf; it leaves no connection behind. */
    method Release(f: nat)
      requires Valid() && f in fetches
      modifies this`tlsOpen, this`fetches, this`owner, this`released
      ensures Valid() && fetches == old(fetches) - {f}
      ensures released == old(released) + [old(fetches)[f].(sock := None, dead := true)]
      ensures forall h | h in owner :: owner[h] != InFetch(f)
    {
      hide Books.Ok, Recorded, CtxOk, Bounded;
      Finish(f);
      OkOf(Now(), f);
      OkIsBounded(fetches[f], PoolCount(keep[..]), puts);
      Leaves(Now(), f);
      RecordedGone(fetches, released, begun, puts, f, fetches[f]);
      released := released + [fetches[f]];
      fetches := fetches - {f};
    }

    /** Every fetch is advanced a step. */
    method StepAll(now: int, worlds: map<nat, World>)
      requires Valid() && Listed()
      modifies this`servers, this`tlsOpen, this`fetches, this`owner, this`puts, keep
      ensures Valid() && fetches.Keys == old(fetches).Keys
      ensures forall f | f in fetches :: IsStep(old(fetches)[f], WorldOf(worlds, f), fetches[f])
    {
      hide Fetcher.Valid, IsStep;
      for i := 0 to |list|
        invariant Valid() && fetches.Keys == old(fetches).Keys
        invariant forall j | 0 <= j < i :: IsStep(old(fetches)[list[j]], WorldOf(worlds, list[j]), fetches[list[j]])
        invariant forall j | i <= j < |list| :: fetches[list[j]] == old(fetches)[list[j]]
      {
        StepTo(list[i], WorldOf(worlds, list[i]), now);
      }
    }

    /** The fetches that are over are released, and only these. */
    method ReleaseOver()
      requires Valid() && Distinct(list) && Covers(list, fetches.Keys)
      modifies this`tlsOpen, this`fetches, this`owner, this`released, this`list
      ensures Valid() && Listed()
      ensures forall f | f in old(fetches) :: f in fetches <==> !old(fetches)[f].dead
      ensures forall f | f in fetches :: f in old(fetches) && fetches[f] == old(fetches)[f]
    {
      hide Fetcher.Valid;
      var left: seq<nat> := [];
      for i := 0 to |list|
        invariant Valid() && list == old(list)
        invariant forall f | f in fetches :: f in old(fetches) && fetches[f] == old(fetches)[f]
        invariant forall j | 0 <= j < i :: list[j] in fetches <==> !old(fetches)[list[j]].dead
        invariant forall j | i <= j < |list| :: list[j] in fetches
        invariant forall g :: g in left <==> g in list[..i] && g in fetches
        invariant Distinct(left)
      {
        var f := list[i];
        assert list[..i + 1] == list[..i] + [f];
        if fetches[f].dead {
          Release(f);
        } else {
          left := left + [f];
        }
      }
      assert list[..|list|] == list;
      list := left;
    }

    /** One scheduler tick: every fetch is advanced a step, then those that are over are released. */
    method Poll(now: int, worlds: map<nat, World>, readable: set<Handle>)
      requires Valid() && Listed()
      modifies this, keep
      ensures Valid() && Listed() && begun == old(begun) && fetches.Keys <= old(fetches).Keys
      ensures forall f | f in old(fetches) :: Advanced(old(fetches)[f], WorldOf(worlds, f), f, fetches)
    {
      hide Fetcher.Valid, IsStep;
      KeepCheck(now, readable);
      StepAll(now, worlds);
      ReleaseOver();
    }

    /** NetSurf ends a fetch between ticks. */
    method AbortFetch(f: nat)
      requires Valid() && f in fetches && Listed()
      modifies this`tlsOpen, this`fetches, this`owner, this`list, this`released
      ensures Valid() && Listed() && fetches == old(fetches) - {f} && f !in list
      ensures released == old(released) + [old(fetches)[f].(sock := None, dead := true)]
      ensures forall h | h in owner :: owner[h] != InFetch(f)
    {
      hide Fetcher.Valid;
      Release(f);
      WithoutIsDistinct(list, f);
      list := Without(list, f);
    }

    /** Between ticks, every fetch is on the list once, and none is over. */
    ghost predicate Listed()
      reads this`list, this`fetches
    {
      Distinct(list) && Covers(list, fetches.Keys) && forall f | f in fetches :: !fetches[f].dead
    }

    /** What an event leaves behind. */
    predicate Served(event: Event)
      reads this`list, this`fetches
    {
      match event
      case Begin(f, _, _, _, _, _, _, _) => f in fetches
      case Tick(_, _, _) => forall i | 0 <= i < |list| :: list[i] in fetches && !fetches[list[i]].dead
      case Abort(f) => f !in fetches && f !in list
    }

    /** One event. A fetch that begins is a new one, on the list and with nothing done yet; no other fetch changes. */
    method Serve(event: Event)
      requires Valid() && Listed()
      modifies this, keep
      ensures Valid() && Listed() && Served(event)
      ensures Follows(old(fetches).Keys, event, fetches.Keys)
      ensures begun == old(begun) + if IsNew(event, old(fetches).Keys) then 1 else 0
      ensures IsNew(event, old(fetches).Keys) ==> list == old(list) + [event.f] && released == old(released)
      ensures IsNew(event, old(fetches).Keys) ==>
        var e := event;
        fetches == old(fetches)[e.f := Starting(e.tls, e.host, e.port, e.post, e.only2xx, e.proxy, e.reqLen, puts)]
      ensures event.Tick? ==> forall f | f in old(fetches) :: Advanced(old(fetches)[f], WorldOf(event.worlds, f), f, fetches)
      ensures event.Abort? ==> fetches == old(fetches) - {event.f}
    {
      hide Fetcher.Valid, Starting;
      match event {
        case Begin(f, tls, host, port, post, only2xx, proxy, reqLen) =>
          if f !in fetches {
            Setup(f, tls, host, port, post, only2xx, proxy, reqLen);
          }
        case Tick(now, worlds, readable) =>
          Poll(now, worlds, readable);
        case Abort(f) =>
          if f in fetches {
            AbortFetch(f);
          }
      }
    }

    method ServeAll(events: seq<Event>) returns (ghost keys: seq<set<nat>>)
      requires Valid() && Listed()
      modifies this, keep
      ensures Valid() && Listed() && (events != [] ==> Served(events[|events| - 1]))
      ensures IsChronicle(events, keys, old(fetches).Keys, fetches.Keys, begun - old(begun))
    {
      hide Fetcher.Valid, Fetcher.Served, IsChronicle, Follows, IsNew;
      keys := [fetches.Keys];
      ChronicleStarts(events, fetches.Keys);
      for i := 0 to |events|
        invariant Valid() && Listed() && (i > 0 ==> Served(events[i - 1]))
        invariant IsChronicle(events[..i], keys, old(fetches).Keys, fetches.Keys, begun - old(begun))
      {
        ghost var last, n := fetches.Keys, begun - old(begun);
        Serve(events[i]);
        ChronicleNext(events, i, keys, old(fetches).Keys, last, n, fetches.Keys);
        keys := keys + [fetches.Keys];
      }
      assert events[..|events|] == events;
    }

    /**
     * Any run of fetches beginning, being polled and being aborted: every open handle has one
     * owner, and there are never more than TLS_MAX TLS sessions. A request is started over at most
     * KEEP_MAX times plus once for every connection put into the pool meanwhile, its bytes go out
     * on at most one connection more than that, and those of a POST on at most one ever: for the
     * fetches that are under way and for all that are gone. A connection is only ever kept after a
     * complete response. `keys` are the fetches under way before and after each event.
     */
    method Session(events: seq<Event>) returns (ghost keys: seq<set<nat>>)
      requires Valid() && Listed()
      modifies this, keep
      ensures Valid() && Listed()
      ensures OwnersOk(keep[..], fetches, owner) && tlsOpen == |TlsHandles(owner)| <= TLS_MAX
      ensures begun == |fetches.Keys| + |released|
      ensures events != [] ==> Served(events[|events| - 1])
      ensures IsChronicle(events, keys, old(fetches).Keys, fetches.Keys, begun - old(begun))
      ensures forall f | f in fetches :: Bounded(fetches[f], puts)
      ensures ServersOk(keep[..], fetches, servers)
      ensures forall i | 0 <= i < |released| :: Bounded(released[i], puts)
      ensures forall i | 0 <= i < KEEP_MAX && keep[i].Some? :: IsComplete(keep[i].value.last)
    {
      hide OwnersOk, ServersOk, CtxOk, Bounded, IsComplete, IsChronicle, Fetcher.Served;
      keys := ServeAll(events);
      forall f | f in fetches
        ensures Bounded(fetches[f], puts)
      {
        Fine(f);
        OkIsBounded(fetches[f], PoolCount(keep[..]), puts);
      }
    }
  }
}
