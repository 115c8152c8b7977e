/**
 * File reads through a read-ahead buffer, meant to be a plain cursor over the file:
 * exactly when they are, and what happens when they are not.
 */
module ReadAhead {
  import opened Basics

  const READ_AHEAD := 32768

  datatype Whence = Set | Cur | End

  datatype Op = Reading(count: nat) | Seeking(offset: int, whence: Whence)

  datatype Answer = Data(bytes: seq<byte>) | At(position: nat) | Failed

  function Take(s: seq<byte>, n: nat): seq<byte> {
    s[..Min(n, |s|)]
  }

  lemma FromFrom(content: seq<byte>, at: nat, n: nat)
    ensures From(From(content, at), n) == From(content, at + n)
  {
  }

  /** Of the first count bytes of s, `done` is taken, and `rest` is what is left of s. */
  ghost predicate Underway(s: seq<byte>, count: nat, done: seq<byte>, rest: seq<byte>) {
    && |done| <= count && rest == From(s, |done|)
    && done + Take(rest, count - |done|) == Take(s, count)
  }

  lemma UnderwayStarts(s: seq<byte>, count: nat)
    ensures Underway(s, count, [], s)
  {
  }

  lemma UnderwayOn(s: seq<byte>, count: nat, done: seq<byte>, rest: seq<byte>, bytes: seq<byte>)
    requires Underway(s, count, done, rest) && bytes == Take(rest, |bytes|) && |done| + |bytes| <= count
    ensures Underway(s, count, done + bytes, From(rest, |bytes|))
    ensures bytes == Take(rest, count - |done|) ==> done + bytes == Take(s, count)
  {
    assert Take(s, count)[..|done|] == done;
  }

  lemma UnderwayAhead(s: seq<byte>, count: nat, done: seq<byte>, rest: seq<byte>)
    requires Underway(s, count, done, rest)
    ensures rest == From(s, |done|)
  {
  }

  lemma UnderwayEnds(s: seq<byte>, done: seq<byte>, rest: seq<byte>)
    requires Underway(s, |done|, done, rest)
    ensures done == Take(s, |done|) && rest == From(s, |done|)
  {
  }

  lemma TakeNone(s: seq<byte>, n: nat)
    requires s == [] || n == 0
    ensures Take(s, n) == []
  {
  }

  lemma TakeTaken(s: seq<byte>, n: nat)
    ensures Take(s, |Take(s, n)|) == Take(s, n)
  {
  }

  lemma Untaken(s: seq<byte>, count: nat)
    ensures [] + Take(From(s, 0), count) == Take(s, count) && From(s, 0) == s
  {
  }

  // ── The plain cursor ────────────────────────────────────────────────────

  function Target(size: nat, cursor: nat, offset: int, whence: Whence): int {
    match whence
    case Set => offset
    case Cur => cursor + offset
    case End => size + offset
  }

  function Plain(content: seq<byte>, limit: nat, cursor: nat, op: Op): (nat, Answer) {
    match op
    case Reading(count) => (cursor + |Take(From(content, cursor), count)|, Data(Take(From(content, cursor), count)))
    case Seeking(offset, whence) =>
      var target := Target(|content|, cursor, offset, whence);
      if 0 <= target <= limit then (target, At(target)) else (cursor, Failed)
  }

  function PlainRun(content: seq<byte>, limit: nat, cursor: nat, ops: seq<Op>): (r: (nat, seq<Answer>))
    ensures |r.1| == |ops|
    decreases |ops|
  {
    if ops == [] then (cursor, [])
    else
      var (before, answers) := PlainRun(content, limit, cursor, ops[..|ops| - 1]);
      var (after, answer) := Plain(content, limit, before, ops[|ops| - 1]);
      (after, answers + [answer])
  }

  lemma PlainRunNext(content: seq<byte>, limit: nat, cursor: nat, ops: seq<Op>, k: nat)
    requires k < |ops|
    ensures var (before, answers) := PlainRun(content, limit, cursor, ops[..k]);
            var (after, answer) := Plain(content, limit, before, ops[k]);
            PlainRun(content, limit, cursor, ops[..k + 1]) == (after, answers + [answer])
  {
    assert ops[..k + 1][..k] == ops[..k];
  }

  lemma {:induction false} PlainRunPrefix(content: seq<byte>, limit: nat, cursor: nat, ops: seq<Op>, k: nat)
    requires k <= |ops|
    ensures PlainRun(content, limit, cursor, ops[..k]).1 == PlainRun(content, limit, cursor, ops).1[..k]
    decreases |ops|
  {
    if k < |ops| {
      PlainRunPrefix(content, limit, cursor, ops[..|ops| - 1], k);
      assert ops[..|ops| - 1][..k] == ops[..k];
    } else {
      assert ops[..k] == ops;
    }
  }

  // ── What the buffer holds ───────────────────────────────────────────────

  /**
   * The buffer is the len bytes of the file that end `bypassed` bytes before the loader's
   * position, bypassed being what large reads took since the buffer was filled.
   */
  ghost predicate Holds(content: seq<byte>, buf: seq<byte>, len: nat, bypassed: nat, lpos: nat) {
    && len <= |buf| && len + bypassed <= lpos
    && (len > 0 ==> lpos <= |content| && buf[..len] == content[lpos - bypassed - len..lpos - bypassed])
  }

  /** What reads will still hand out: the rest of the buffer and then the file from the loader's position. */
  function Rest(content: seq<byte>, buf: seq<byte>, len: nat, pos: nat, lpos: nat): seq<byte>
    requires pos <= len <= |buf|
  {
    buf[pos..len] + From(content, lpos)
  }

  lemma RestAtEnd(content: seq<byte>, buf: seq<byte>, len: nat, lpos: nat)
    requires len <= |buf|
    ensures Rest(content, buf, len, len, lpos) == From(content, lpos)
  {
  }

  /** Just filled, the buffer is the file's next bytes. */
  lemma FreshRest(content: seq<byte>, buf: seq<byte>, was: nat, bytes: seq<byte>)
    requires bytes == Take(From(content, was), READ_AHEAD) && |bytes| <= |buf| && buf[..|bytes|] == bytes
    ensures Holds(content, buf, |bytes|, 0, was + |bytes|)
    ensures Rest(content, buf, |bytes|, 0, was + |bytes|) == From(content, was)
    ensures bytes == [] ==> From(content, was) == []
  {
    assert From(content, was) == bytes + From(content, was + |bytes|);
  }

  /** That is the file from the cursor on, if nothing bypassed the buffer or it is used up ... */
  lemma RestIsFile(content: seq<byte>, buf: seq<byte>, len: nat, pos: nat, bypassed: nat, lpos: nat)
    requires Holds(content, buf, len, bypassed, lpos) && pos <= len
    requires bypassed == 0 || pos == len
    ensures Rest(content, buf, len, pos, lpos) == From(content, lpos - len + pos)
  {
    var file := From(content, lpos - len + pos);
    if pos < len {
      assert buf[pos..len] == buf[..len][pos..] == content[lpos - len + pos..lpos];
      assert file == content[lpos - len + pos..lpos] + content[lpos..];
    }
  }

  /**
   * ... and only then: otherwise, for some file with this buffer, the very next byte is wrong.
   * So a seek back into the window is safe, for every file, if and only if no large read
   * bypassed the buffer (or it seeks to the window's end).
   */
  lemma SafeIffNothingBypassed(size: nat, len: nat, pos: nat, bypassed: nat, lpos: nat)
    requires pos <= len && len + bypassed <= lpos <= size
    ensures bypassed == 0 || pos == len <==>
            forall content: seq<byte>, buf: seq<byte> | |content| == size && Holds(content, buf, len, bypassed, lpos) ::
              Rest(content, buf, len, pos, lpos) == From(content, lpos - len + pos)
  {
    if bypassed == 0 || pos == len {
      forall content: seq<byte>, buf: seq<byte> | |content| == size && Holds(content, buf, len, bypassed, lpos)
        ensures Rest(content, buf, len, pos, lpos) == From(content, lpos - len + pos)
      {
        RestIsFile(content, buf, len, pos, bypassed, lpos);
      }
    } else {
      var at := lpos - len + pos;
      var content: seq<byte> := seq(size, i => if i == at then 1 else 0);
      var buf := content[lpos - bypassed - len..lpos - bypassed];
      assert Holds(content, buf, len, bypassed, lpos);
      assert Rest(content, buf, len, pos, lpos)[0] == content[at - bypassed] == 0;
      assert From(content, at)[0] == 1;
    }
  }

  // ── The numbers ─────────────────────────────────────────────────────────

  /** The loader's position, the buffer's length, the next byte in it, and what bypassed it. */
  datatype Numbers = Numbers(lpos: nat, len: nat, pos: nat, bypassed: nat)

  function AfterRefill(b: Numbers, size: nat): Numbers {
    var n := Min(READ_AHEAD, Max(size - b.lpos, 0));
    Numbers(b.lpos + n, n, 0, 0)
  }

  function AfterBypass(b: Numbers, size: nat, count: nat, resets: bool): Numbers {
    var n := Min(count, Max(size - b.lpos, 0));
    if resets then Numbers(b.lpos + n, 0, 0, 0) else b.(lpos := b.lpos + n, bypassed := b.bypassed + n)
  }

  /** What a read does to them: it depends only on the size of the file. */
  function AfterRead(b: Numbers, size: nat, count: nat, resets: bool): Numbers
    decreases count, if b.pos < b.len then 0 else 1
  {
    if count == 0 then b
    else if b.pos < b.len then
      var n := Min(b.len - b.pos, count);
      AfterRead(b.(pos := b.pos + n), size, count - n, resets)
    else if count >= READ_AHEAD then AfterBypass(b, size, count, resets)
    else
      var filled := AfterRefill(b, size);
      if filled.len == 0 then filled else AfterRead(filled, size, count, resets)
  }

  lemma AfterBuffered(b: Numbers, size: nat, count: nat, resets: bool)
    requires b.pos < b.len && count > 0
    ensures var n := Min(b.len - b.pos, count);
            AfterRead(b, size, count, resets) == AfterRead(Numbers(b.lpos, b.len, b.pos + n, b.bypassed), size, count - n, resets)
  {
  }

  lemma AfterNone(b: Numbers, size: nat, resets: bool)
    ensures AfterRead(b, size, 0, resets) == b
  {
  }

  lemma AfterFilled(b: Numbers, size: nat, count: nat, resets: bool)
    requires b.pos >= b.len && 0 < count < READ_AHEAD
    ensures var filled := AfterRefill(b, size);
            AfterRead(b, size, count, resets) == if filled.len == 0 then filled else AfterRead(filled, size, count, resets)
  {
  }

  lemma AfterLarge(b: Numbers, size: nat, count: nat, resets: bool)
    requires b.pos >= b.len && count >= READ_AHEAD
    ensures AfterRead(b, size, count, resets) == AfterBypass(b, size, count, resets)
  {
  }

  // ── The layer ───────────────────────────────────────────────────────────

  class File {
    const content: seq<byte>
    const limit: nat         // the farthest the loader seeks to
    const cached: bool       // opened read-only, and there was memory
    const resets: bool       // the repaired layer, which drops the buffer before a large read
    const buf: array<byte>
    var lpos: nat            // the loader's position
    var len: nat             // bytes in buf
    var pos: nat             // next byte to hand out
    var bypassed: nat        // only the model keeps this: what large reads took since the buffer was filled

    ghost predicate Valid()
      reads this, buf
      ensures Valid() ==> pos <= len && len <= lpos
    {
      && buf.Length == READ_AHEAD && pos <= len
      && (!cached ==> len == 0) && (resets ==> bypassed == 0)
      && |content| <= limit && lpos <= limit
      && Holds(content, buf[..], len, bypassed, lpos)
    }

    /** What the buffer will still hand out is right. */
    ghost predicate Settled()
      reads this`bypassed, this`pos, this`len
    {
      bypassed == 0 || pos == len
    }

    /** The game's position: the loader's is past the read-ahead. */
    ghost function Cursor(): nat
      requires Valid()
      reads this, buf
    {
      lpos - len + pos
    }

    ghost function Books(): Numbers
      reads this
    {
      Numbers(lpos, len, pos, bypassed)
    }

    ghost function Ahead(): seq<byte>
      requires Valid()
      reads this, buf
    {
      Rest(content, buf[..], len, pos, lpos)
    }

    constructor (content: seq<byte>, limit: nat, cached: bool, resets: bool)
      requires |content| <= limit
      ensures Valid() && Books() == Numbers(0, 0, 0, 0) && fresh(buf)
      ensures this.content == content && this.limit == limit && this.cached == cached && this.resets == resets
    {
      this.content, this.limit, this.cached, this.resets := content, limit, cached, resets;
      buf := new byte[READ_AHEAD](_ => 0);
      lpos, len, pos, bypassed := 0, 0, 0, 0;
    }

    /** The loader's file_read into memory of the caller's. */
    method LoaderRead(count: nat) returns (bytes: seq<byte>)
      requires lpos <= limit && |content| <= limit
      modifies this`lpos
      ensures lpos <= limit
      ensures bytes == Take(From(content, old(lpos)), count) && lpos == old(lpos) + |bytes|
      ensures |bytes| == Min(count, Max(|content| - old(lpos), 0))
    {
      bytes := Take(From(content, lpos), count);
      lpos := lpos + |bytes|;
    }

    /** One read-ahead. */
    method Refill()
      requires Valid() && cached && pos == len
      modifies this, buf
      ensures Valid() && Cursor() == old(Cursor()) && Ahead() == old(Ahead())
      ensures Books() == AfterRefill(old(Books()), |content|)
      ensures pos == bypassed == 0 && (len == 0 ==> Ahead() == [])
    {
      hide Rest, From, Take;
      RestAtEnd(content, buf[..], len, lpos);
      var bytes := LoaderRead(READ_AHEAD);
      Store(bytes);
      len, pos, bypassed := |bytes|, 0, 0;
      FreshRest(content, buf[..], old(lpos), bytes);
    }

    /** What the loader's read left in the buffer. */
    method Store(bytes: seq<byte>)
      requires |bytes| <= buf.Length
      modifies buf
      ensures buf[..|bytes|] == bytes
    {
      for i := 0 to |bytes|
        invariant buf[..i] == bytes[..i]
      {
        buf[i] := bytes[i];
      }
    }

    /** A large read gains nothing from the buffer: straight from the loader. */
    method Bypass(count: nat) returns (bytes: seq<byte>)
      requires Valid() && cached && pos == len
      modifies this
      ensures Valid() && Cursor() == old(Cursor()) + |bytes| && pos == len
      ensures bytes == Take(old(Ahead()), count) == Take(old(Ahead()), |bytes|) && |bytes| <= count
      ensures Ahead() == From(old(Ahead()), |bytes|)
      ensures Books() == AfterBypass(old(Books()), |content|, count, resets)
    {
      hide Rest, From, Take;
      RestAtEnd(content, buf[..], len, lpos);
      if resets {
        len, pos, bypassed := 0, 0, 0;
      }
      bytes := LoaderRead(count);
      if !resets {
        bypassed := bypassed + |bytes|;
      }
      FromFrom(content, old(lpos), |bytes|);
      TakeTaken(old(Ahead()), count);
      RestAtEnd(content, buf[..], len, lpos);
    }

    /** Takes from the buffer. */
    method TakeBuffered(count: nat) returns (bytes: seq<byte>)
      requires Valid() && pos < len
      modifies this`pos
      ensures Valid() && Cursor() == old(Cursor()) + |bytes| && |bytes| == Min(count, len - old(pos))
      ensures bytes == Take(old(Ahead()), |bytes|) && Ahead() == From(old(Ahead()), |bytes|)
    {
      var n := Min(len - pos, count);
      bytes := buf[pos..pos + n];
      pos := pos + n;
    }

    /** One turn of the read loop: from the buffer, past it, or a read-ahead; whether to go on. */
    method ReadSome(count: nat) returns (bytes: seq<byte>, more: bool)
      requires Valid() && cached && count > 0
      modifies this, buf
      ensures Valid() && |bytes| <= count && bytes == Take(old(Ahead()), |bytes|)
      ensures Ahead() == From(old(Ahead()), |bytes|) && Cursor() == old(Cursor()) + |bytes|
      ensures !more ==> bytes == Take(old(Ahead()), count)
      ensures old(Settled()) ==> Settled()
      ensures AfterRead(old(Books()), |content|, count, resets)
              == if more then AfterRead(Books(), |content|, count - |bytes|, resets) else Books()
      ensures more ==> |bytes| > 0 || (old(pos == len) && pos < len)
    {
      hide Rest, From, Holds, Take, AfterRead, AfterRefill, AfterBypass, File.Ahead;
      TakeNone(Ahead(), 0);
      Untaken(Ahead(), 0);
      if pos < len {
        AfterBuffered(Books(), |content|, count, resets);
        bytes := TakeBuffered(count);
        more := true;
      } else if count >= READ_AHEAD {
        AfterLarge(Books(), |content|, count, resets);
        bytes := Bypass(count);
        more := false;
      } else {
        AfterFilled(Books(), |content|, count, resets);
        Refill();
        TakeNone([], count);
        bytes, more := [], len > 0;  // or the end of the file
      }
    }

    /** Hands out the next count bytes of what is ahead, or all there are. */
    method Read(count: nat) returns (data: seq<byte>)
      requires Valid()
      modifies this, buf
      ensures Valid() && data == Take(old(Ahead()), count)
      ensures Cursor() == old(Cursor()) + |data| && Ahead() == From(old(Ahead()), |data|)
      ensures old(Settled()) ==> Settled()
      ensures cached ==> Books() == AfterRead(old(Books()), |content|, count, resets)
    {
      if !cached {
        data := ReadDirect(count);
        return;
      }
      data := ReadCached(count);
    }

    /** With one: a large rest of the request goes past it, and a small one is served from it. */
    method ReadCached(count: nat) returns (data: seq<byte>)
      requires Valid() && cached
      modifies this, buf
      ensures Valid() && data == Take(old(Ahead()), count)
      ensures Cursor() == old(Cursor()) + |data| && Ahead() == From(old(Ahead()), |data|)
      ensures old(Settled()) ==> Settled()
      ensures Books() == AfterRead(old(Books()), |content|, count, resets)
    {
      hide Rest, From, Holds, Take, Underway, AfterRead, File.Valid, File.Ahead, File.Books, File.Settled;
      ghost var ahead, books := Ahead(), Books();
      data := [];
      UnderwayStarts(ahead, count);
      while |data| < count
        invariant Valid() && |data| <= count && Underway(ahead, count, data, Ahead())
        invariant Cursor() == old(Cursor()) + |data|
        invariant old(Settled()) ==> Settled()
        invariant AfterRead(Books(), |content|, count - |data|, resets) == AfterRead(books, |content|, count, resets)
        decreases count - |data|, if pos < len then 0 else 1
      {
        ghost var done, rest := data, Ahead();
        var bytes, more := ReadSome(count - |data|);
        UnderwayOn(ahead, count, done, rest, bytes);
        data := data + bytes;
        if !more {
          UnderwayAhead(ahead, count, data, Ahead());
          return;
        }
      }
      UnderwayEnds(ahead, data, Ahead());
      AfterNone(Books(), |content|, resets);
    }

    /** Without a buffer. */
    method ReadDirect(count: nat) returns (data: seq<byte>)
      requires Valid() && !cached
      modifies this`lpos
      ensures Valid() && data == Take(old(Ahead()), count)
      ensures Cursor() == old(Cursor()) + |data| && Ahead() == From(old(Ahead()), |data|)
    {
      hide Rest, From, Take;
      RestAtEnd(content, buf[..], len, lpos);
      data := LoaderRead(count);
      FromFrom(content, old(lpos), |data|);
      RestAtEnd(content, buf[..], len, lpos);
    }

    /** The loader's file_seek: whether it succeeded. */
    method LoaderSeek(offset: int, whence: Whence) returns (ok: bool)
      modifies this`lpos
      ensures var target := Target(|content|, old(lpos), offset, whence);
              ok == (0 <= target <= limit) && lpos == if ok then target else old(lpos)
    {
      var target := Target(|content|, lpos, offset, whence);
      ok := 0 <= target <= limit;
      if ok {
        lpos := target;
      }
    }

    /** Whether a seek stays in the window, where the loader is not asked. */
    ghost predicate InWindow(offset: int, whence: Whence)
      requires Valid()
      reads this, buf
    {
      cached && whence != End && lpos - len <= Target(|content|, Cursor(), offset, whence) <= lpos
    }

    /**
     * A seek in the window keeps the buffer; any other drops it, and if it fails the position
     * is the loader's: a failed seek loses the position if and only if anything was left unread.
     */
    method Lseek(offset: int, whence: Whence) returns (answer: Answer)
      requires Valid()
      modifies this
      ensures Valid()
      ensures var target := Target(|content|, old(Cursor()), offset, whence);
              && (old(InWindow(offset, whence)) ==>
                  answer == At(target) && Cursor() == target && bypassed == old(bypassed) && len == old(len) && lpos == old(lpos))
              && (!old(InWindow(offset, whence)) ==>
                  && pos == len == 0
                  && answer == (if 0 <= target <= limit then At(target) else Failed)
                  && Cursor() == if answer == Failed then old(lpos) else target)
      ensures answer == Failed ==> (Cursor() == old(Cursor()) <==> old(pos) == old(len))
    {
      var off, wh := offset, whence;
      if cached && whence != End {
        var start := lpos - len;
        var target := if whence == Cur then start + pos + offset else offset;
        if start <= target <= start + len {
          pos := target - start;  // still inside the buffer
          return At(target);
        }
        off, wh := target, Set;
      }
      len, pos, bypassed := 0, 0, 0;
      var ok := LoaderSeek(off, wh);
      return if ok then At(lpos) else Failed;
    }

    /** The guard: the operation does not take from a bypassed window, and does not lose the position. */
    ghost predicate Safe(op: Op)
      requires Valid()
      reads this, buf
    {
      match op
      case Reading(count) => count == 0 || Settled()
      case Seeking(offset, whence) =>
        InWindow(offset, whence) || 0 <= Target(|content|, Cursor(), offset, whence) <= limit || pos == len
    }

    method IsSafe(op: Op) returns (safe: bool)
      requires Valid()
      ensures safe == Safe(op)
    {
      match op {
        case Reading(count) =>
          return count == 0 || bypassed == 0 || pos == len;
        case Seeking(offset, whence) =>
          var target := Target(|content|, lpos - len + pos, offset, whence);
          return (cached && whence != End && lpos - len <= target <= lpos) || 0 <= target <= limit || pos == len;
      }
    }

    method Do(op: Op) returns (answer: Answer)
      requires Valid() && Safe(op)
      modifies this, buf
      ensures Valid() && (Cursor(), answer) == Plain(content, limit, old(Cursor()), op)
    {
      match op {
        case Reading(count) =>
          hide AfterRead, Rest, From, Take, Holds;
          if count == 0 {
            TakeNone(Ahead(), 0);
            TakeNone(From(content, Cursor()), 0);
          } else {
            RestIsFile(content, buf[..], len, pos, bypassed, lpos);
          }
          var data := Read(count);
          answer := Data(data);
        case Seeking(offset, whence) =>
          hide Rest, From, Take, Holds;
          answer := Lseek(offset, whence);
      }
    }

    /**
     * Runs operations up to the first that is not safe, which is a read from a bypassed window or a
     * seek that fails with something unread. Until then the layer is the plain cursor; the repaired
     * layer always is, as long as no seek fails.
     */
    method Session(ops: seq<Op>) returns (answers: seq<Answer>)
      requires Valid()
      modifies this, buf
      ensures Valid() && |answers| <= |ops|
      ensures (Cursor(), answers) == PlainRun(content, limit, old(Cursor()), ops[..|answers|])
      ensures answers == PlainRun(content, limit, old(Cursor()), ops).1[..|answers|]
      ensures |answers| < |ops| ==> !Safe(ops[|answers|])
      ensures resets && (forall i | 0 <= i < |ops| :: PlainRun(content, limit, old(Cursor()), ops).1[i] != Failed) ==>
              |answers| == |ops|
    {
      hide Rest, From, Take, Holds;
      answers := [];
      while |answers| < |ops|
        invariant Valid() && |answers| <= |ops|
        invariant (Cursor(), answers) == PlainRun(content, limit, old(Cursor()), ops[..|answers|])
      {
        var op := ops[|answers|];
        PlainRunPrefix(content, limit, old(Cursor()), ops, |answers|);
        PlainRunPrefix(content, limit, old(Cursor()), ops, |answers| + 1);
        PlainRunNext(content, limit, old(Cursor()), ops, |answers|);
        var safe := IsSafe(op);
        if !safe {
          assert resets ==> PlainRun(content, limit, old(Cursor()), ops[..|answers| + 1]).1[|answers|] == Failed;
          assert PlainRun(content, limit, old(Cursor()), ops).1[..|answers| + 1][|answers|]
              == PlainRun(content, limit, old(Cursor()), ops).1[|answers|];
          break;
        }
        var answer := Do(op);
        answers := answers + [answer];
      }
      PlainRunPrefix(content, limit, old(Cursor()), ops, |answers|);
    }
  }

  lemma AfterTwoReads()
    ensures AfterRead(AfterRead(Numbers(0, 0, 0, 0), 2 * READ_AHEAD, 1, false), 2 * READ_AHEAD, 2 * READ_AHEAD - 1, false)
            == Numbers(2 * READ_AHEAD, READ_AHEAD, READ_AHEAD, READ_AHEAD)
  {
    var size := 2 * READ_AHEAD;
    assert AfterRead(Numbers(0, 0, 0, 0), size, 1, false) == AfterRead(Numbers(READ_AHEAD, READ_AHEAD, 0, 0), size, 1, false)
        == AfterRead(Numbers(READ_AHEAD, READ_AHEAD, 1, 0), size, 0, false);
    assert AfterRead(Numbers(READ_AHEAD, READ_AHEAD, 1, 0), size, size - 1, false)
        == AfterRead(Numbers(READ_AHEAD, READ_AHEAD, READ_AHEAD, 0), size, READ_AHEAD, false);
  }

  lemma WrongByte(content: seq<byte>, buf: seq<byte>, len: nat)
    requires |content| == 2 * READ_AHEAD && Holds(content, buf, len, len, 2 * len) && len == READ_AHEAD
    requires content[len - 1] != content[2 * len - 1]
    ensures Take(Rest(content, buf, len, len - 1, 2 * len), 1) != Take(From(content, 2 * len - 1), 1)
  {
    assert buf[..len][len - 1] == content[len - 1];
    assert Rest(content, buf, len, len - 1, 2 * len)[0] == content[len - 1];
    assert From(content, 2 * len - 1)[0] == content[2 * len - 1];
    assert Take(From(content, 2 * len - 1), 1)[0] == content[2 * len - 1];
    assert Take(Rest(content, buf, len, len - 1, 2 * len), 1)[0] == content[len - 1];
  }

  /** A run that diverges: after a large read, one byte back is a byte of the old window. */
  method Diverging(content: seq<byte>) returns (got: Answer, wanted: Answer)
    requires |content| == 2 * READ_AHEAD && content[READ_AHEAD - 1] != content[2 * READ_AHEAD - 1]
    ensures got != wanted
  {
    hide AfterRead, AfterRefill, AfterBypass, Rest, From, Take, Holds;
    var file := new File(content, |content|, true, false);
    var first := file.Read(1);
    var second := file.Read(2 * READ_AHEAD - 1);
    AfterTwoReads();
    var back := file.Lseek(-1, Cur);
    assert back == At(2 * READ_AHEAD - 1);
    WrongByte(content, file.buf[..], READ_AHEAD);
    var last := file.Read(1);
    got, wanted := Data(last), Data(Take(From(content, 2 * READ_AHEAD - 1), 1));
  }

  lemma AfterOneRead(size: nat)
    requires size > READ_AHEAD
    ensures AfterRead(Numbers(0, 0, 0, 0), size, 1, false) == Numbers(READ_AHEAD, READ_AHEAD, 1, 0)
  {
    assert AfterRead(Numbers(0, 0, 0, 0), size, 1, false) == AfterRead(Numbers(READ_AHEAD, READ_AHEAD, 0, 0), size, 1, false)
        == AfterRead(Numbers(READ_AHEAD, READ_AHEAD, 1, 0), size, 0, false);
  }

  lemma OneByte(content: seq<byte>, at: nat)
    requires at < |content|
    ensures Take(From(content, at), 1) == [content[at]]
  {
  }

  /** A run that loses its place: after a seek that fails, the next byte is from past the read-ahead. */
  method LosingPlace(content: seq<byte>) returns (answer: Answer, got: Answer, wanted: Answer)
    requires |content| > READ_AHEAD && content[1] != content[READ_AHEAD]
    ensures answer == Failed && got != wanted
    ensures got == Data([content[READ_AHEAD]]) && (2, wanted) == Plain(content, |content|, 1, Reading(1))
  {
    hide AfterRead, AfterRefill, AfterBypass, Rest, From, Take, Holds;
    var file := new File(content, |content|, true, false);
    var first := file.Read(1);
    AfterOneRead(|content|);
    answer := file.Lseek(-1, Set);
    RestAtEnd(content, file.buf[..], 0, READ_AHEAD);
    var next := file.Read(1);
    OneByte(content, READ_AHEAD);
    OneByte(content, 1);
    got, wanted := Data(next), Data(Take(From(content, 1), 1));
  }
}
