/**
 * The host name lookup table shared by the fetcher (the main task) and the
 * lookup task: every method is one atomic action of one of them, and any
 * interleaving of their actions keeps the table consistent.
 */
module DnsJobs {
  import opened Basics
  import opened HeaderText

  const DNS_JOBS := 6
  const DNS_CACHE := 16
  const DNS_TTL_US := 300 * 1000000
  const CACHE_HOST_MAX := 64

  datatype JobState = Free | Queued | Done
  datatype Job = Job(state: JobState, abandoned: bool, host: seq<byte>, ip: nat, ok: bool)

  /** Something the resolver said: whether the host exists, and where. */
  datatype Said = Said(host: seq<byte>, ok: bool, ip: nat)

  /** How far the lookup task is with a job. */
  datatype Worker =
    | Idle
    | Looking(slot: nat, host: seq<byte>)
    | Answered(slot: nat, said: Said)
    | OkStored(slot: nat, said: Said)
    | IpStored(slot: nat, said: Said)

  /** What the main task is in the middle of. */
  datatype Main =
    | Calm
    | Filling(slot: nat, fetch: nat)
    | Collecting(slot: nat, fetch: nat, ok: bool, ip: nat)
    | Reaping(slot: nat)

  datatype Cached = Cached(host: seq<byte>, ip: nat, expires: int)

  /** The actions of the two tasks; those that are not possible in a state do nothing. */
  datatype MainAction =
    | Start(fetch: nat)
    | Publish
    | CheckResult(fetch: nat)
    | Collect
    | Abandon(fetch: nat)
    | ReapMark(slot: nat)
    | ReapFree

  datatype WorkerAction =
    | See(slot: nat)
    | Answer(ok: bool, ip: nat)
    | StoreOk
    | StoreIp
    | StoreDone

  datatype Action = ByMain(main: MainAction) | ByWorker(worker: WorkerAction)

  /** Everything the actions change. */
  datatype Snapshot = Snapshot(jobs: seq<Job>, worker: Worker, main: Main, slots: map<nat, nat>)

  /** The first free slot from i on, or -1. */
  function FirstFree(jobs: seq<Job>, i: nat): (slot: int)
    requires i <= |jobs|
    ensures -1 <= slot < |jobs| && (slot >= 0 ==> slot >= i && jobs[slot].state.Free? && !jobs[slot].abandoned)
    ensures forall k | i <= k < (if slot >= 0 then slot else |jobs|) :: !jobs[k].state.Free? || jobs[k].abandoned
    decreases |jobs| - i
  {
    if i == |jobs| then -1
    else if jobs[i].state.Free? && !jobs[i].abandoned then i
    else FirstFree(jobs, i + 1)
  }

  function With(s: Snapshot, i: nat, j: Job): Snapshot {
    if i < |s.jobs| then s.(jobs := s.jobs[i := j]) else s
  }

  function JobAt(s: Snapshot, i: nat): Job {
    if i < |s.jobs| then s.jobs[i] else Job(Free, false, [], 0, false)
  }

  function NextMain(s: Snapshot, hosts: map<nat, seq<byte>>, a: MainAction): Snapshot {
    match a
    case Start(f) =>
      var i := FirstFree(s.jobs, 0);
      if !s.main.Calm? || f !in hosts || f in s.slots || i < 0 then s
      else With(s, i, s.jobs[i].(host := hosts[f], ok := false)).(main := Filling(i, f))
    case Publish =>
      if !s.main.Filling? then s
      else With(s, s.main.slot, JobAt(s, s.main.slot).(state := Queued))
           .(slots := s.slots[s.main.fetch := s.main.slot], main := Calm)
    case CheckResult(f) =>
      if !s.main.Calm? || f !in s.slots || !JobAt(s, s.slots[f]).state.Done? then s
      else s.(main := Collecting(s.slots[f], f, JobAt(s, s.slots[f]).ok, JobAt(s, s.slots[f]).ip))
    case Collect =>
      if !s.main.Collecting? then s
      else With(s, s.main.slot, JobAt(s, s.main.slot).(state := Free)).(slots := s.slots - {s.main.fetch}, main := Calm)
    case Abandon(f) =>
      if !s.main.Calm? || f !in s.slots then s
      else With(s, s.slots[f], JobAt(s, s.slots[f]).(abandoned := true)).(slots := s.slots - {f})
    case ReapMark(i) =>
      if !s.main.Calm? || i >= |s.jobs| || !s.jobs[i].abandoned || !s.jobs[i].state.Done? then s
      else With(s, i, s.jobs[i].(abandoned := false)).(main := Reaping(i))
    case ReapFree =>
      if !s.main.Reaping? then s else With(s, s.main.slot, JobAt(s, s.main.slot).(state := Free)).(main := Calm)
  }

  function NextWorker(s: Snapshot, a: WorkerAction): Snapshot {
    match a
    case See(i) =>
      if !s.worker.Idle? || i >= |s.jobs| || !s.jobs[i].state.Queued? then s
      else s.(worker := Looking(i, s.jobs[i].host))
    case Answer(ok, ip) =>
      if !s.worker.Looking? then s else s.(worker := Answered(s.worker.slot, Said(s.worker.host, ok, ip)))
    case StoreOk =>
      if !s.worker.Answered? then s
      else With(s, s.worker.slot, JobAt(s, s.worker.slot).(ok := s.worker.said.ok))
           .(worker := OkStored(s.worker.slot, s.worker.said))
    case StoreIp =>
      if !s.worker.OkStored? then s
      else With(s, s.worker.slot, JobAt(s, s.worker.slot).(ip := s.worker.said.ip))
           .(worker := IpStored(s.worker.slot, s.worker.said))
    case StoreDone =>
      if !s.worker.IpStored? then s
      else With(s, s.worker.slot, JobAt(s, s.worker.slot).(state := Done)).(worker := Idle)
  }

  /** What an action does to the table. */
  function Next(s: Snapshot, hosts: map<nat, seq<byte>>, a: Action): Snapshot {
    if a.ByMain? then NextMain(s, hosts, a.main) else NextWorker(s, a.worker)
  }

  /** What an action gives a fetch: the end of its wait, and the answer. */
  function GivenBy(s: Snapshot, a: Action): seq<(nat, bool, nat)> {
    if a == ByMain(Collect) && s.main.Collecting? then [(s.main.fetch, s.main.ok, s.main.ip)] else []
  }

  function NextAll(s: Snapshot, hosts: map<nat, seq<byte>>, actions: seq<Action>): Snapshot {
    if actions == [] then s
    else Next(NextAll(s, hosts, actions[..|actions| - 1]), hosts, actions[|actions| - 1])
  }

  function GivenByAll(s: Snapshot, hosts: map<nat, seq<byte>>, actions: seq<Action>): seq<(nat, bool, nat)> {
    if actions == [] then []
    else
      var before := actions[..|actions| - 1];
      GivenByAll(s, hosts, before) + GivenBy(NextAll(s, hosts, before), actions[|actions| - 1])
  }

  lemma OneMoreAction(s: Snapshot, hosts: map<nat, seq<byte>>, actions: seq<Action>, k: nat)
    requires k < |actions|
    ensures NextAll(s, hosts, actions[..k + 1]) == Next(NextAll(s, hosts, actions[..k]), hosts, actions[k])
    ensures GivenByAll(s, hosts, actions[..k + 1])
            == GivenByAll(s, hosts, actions[..k]) + GivenBy(NextAll(s, hosts, actions[..k]), actions[k])
  {
    assert actions[..k + 1][..k] == actions[..k];
  }

  /**
   * A slot that becomes free held a finished lookup, whose fetch collects it now or which is being reaped;
   * and the host in a slot only changes while it is free.
   */
  ghost predicate SlotsFreed(s: Snapshot, t: Snapshot, a: Action) {
    |t.jobs| == |s.jobs| && forall i | 0 <= i < |s.jobs| ::
      && (t.jobs[i].state.Free? && !s.jobs[i].state.Free? ==>
          && s.jobs[i].state.Done?
          && ((a == ByMain(Collect) && s.main.Collecting? && s.main.slot == i)
              || (a == ByMain(ReapFree) && s.main == Reaping(i))))
      && (t.jobs[i].host != s.jobs[i].host ==> s.jobs[i].state.Free?)
  }

  /** A slot is free, or a live fetch's, or abandoned, or being reaped: exactly one of these. */
  ghost predicate SlotOk(j: Job, i: nat, holder: map<nat, nat>, hosts: map<nat, seq<byte>>, main: Main, said: set<Said>) {
    && (j.state.Free? <==> i !in holder && !j.abandoned && main != Reaping(i))
    && (i in holder ==> !j.abandoned && main != Reaping(i) && holder[i] in hosts && j.host == hosts[holder[i]])
    && (j.abandoned ==> main != Reaping(i))
    && (j.state.Done? ==> Said(j.host, j.ok, j.ip) in said)
  }

  // ── A lookup goes on to its answer ──────────────────────────────────────

  /** How far the lookup of a waiting fetch has come: from queued (1) to about to be collected (7). */
  function Stage(s: Snapshot, f: nat): nat {
    if f !in s.slots then 0
    else
      var i := s.slots[f];
      if JobAt(s, i).state.Done? then if s.main.Collecting? && s.main.slot == i then 7 else 6
      else if s.worker.Idle? || s.worker.slot != i then 1
      else if s.worker.Looking? then 2
      else if s.worker.Answered? then 3
      else if s.worker.OkStored? then 4
      else 5
  }

  /** The action that brings it further. */
  predicate IsTurn(s: Snapshot, f: nat, a: Action) {
    match Stage(s, f)
    case 0 => false
    case 1 => s.worker.Idle? && a == ByWorker(See(s.slots[f]))
    case 2 => a.ByWorker? && a.worker.Answer?
    case 3 => a == ByWorker(StoreOk)
    case 4 => a == ByWorker(StoreIp)
    case 5 => a == ByWorker(StoreDone)
    case 6 => s.main.Calm? && a == ByMain(CheckResult(f))
    case _ => a == ByMain(Collect)
  }

  /** The fetch is among those that were given something. */
  ghost predicate IsGiven(given: seq<(nat, bool, nat)>, f: nat) {
    exists k | 0 <= k < |given| :: given[k].0 == f
  }

  lemma GivenGrows(x: seq<(nat, bool, nat)>, y: seq<(nat, bool, nat)>, f: nat)
    ensures IsGiven(x + y, f) <==> IsGiven(x, f) || IsGiven(y, f)
  {
    if IsGiven(x, f) {
      var k :| 0 <= k < |x| && x[k].0 == f;
      assert (x + y)[k].0 == f;
    }
    if IsGiven(y, f) {
      var k :| 0 <= k < |y| && y[k].0 == f;
      assert (x + y)[|x| + k].0 == f;
    }
  }

  /** It waits on as before, its lookup no less far than it was. */
  ghost predicate WaitsOn(s: Snapshot, t: Snapshot, f: nat) {
    f in s.slots && f in t.slots && t.slots[f] == s.slots[f] && Stage(s, f) <= Stage(t, f)
  }

  /** Nothing but its own being abandoned sets a lookup back, and its turn brings it on. */
  ghost predicate Advances(s: Snapshot, t: Snapshot, a: Action, f: nat) {
    f in s.slots && a != ByMain(Abandon(f)) ==>
      if IsGiven(GivenBy(s, a), f) then f !in t.slots && Stage(s, f) == 7
      else WaitsOn(s, t, f) && (IsTurn(s, f, a) ==> Stage(s, f) < Stage(t, f) && Stage(s, f) < 7)
  }

  // ── A lookup, action by action ──────────────────────────────────────────

  /** The lookup task's actions on a queued job. */
  function LookUp(i: nat, ok: bool, ip: nat): seq<Action> {
    [] + [ByWorker(See(i))] + [ByWorker(Answer(ok, ip))] + [ByWorker(StoreOk)] + [ByWorker(StoreIp)] + [ByWorker(StoreDone)]
  }

  /** The main task's actions on a finished one. */
  function HandOver(f: nat): seq<Action> {
    [ByMain(CheckResult(f)), ByMain(Collect)]
  }

  /** The main task's actions for a fetch that begins to wait. */
  function Ask(f: nat): seq<Action> {
    [ByMain(Start(f)), ByMain(Publish)]
  }

  lemma {:induction false} RunInTwo(s: Snapshot, hosts: map<nat, seq<byte>>, x: seq<Action>, y: seq<Action>)
    ensures NextAll(s, hosts, x + y) == NextAll(NextAll(s, hosts, x), hosts, y)
    ensures GivenByAll(s, hosts, x + y) == GivenByAll(s, hosts, x) + GivenByAll(NextAll(s, hosts, x), hosts, y)
    decreases |y|
  {
    hide Next, GivenBy;
    if y == [] {
      assert x + y == x;
    } else {
      var z := y[..|y| - 1];
      assert (x + y)[..|x + y| - 1] == x + z;
      RunInTwo(s, hosts, x, z);
    }
  }

  /** An action of the lookup task goes on from a run, and gives nobody anything. */
  lemma WorkerRuns(s: Snapshot, hosts: map<nat, seq<byte>>, run: seq<Action>, a: WorkerAction)
    ensures NextAll(s, hosts, run + [ByWorker(a)]) == NextWorker(NextAll(s, hosts, run), a)
    ensures GivenByAll(s, hosts, run + [ByWorker(a)]) == GivenByAll(s, hosts, run)
  {
    hide NextWorker;
    assert (run + [ByWorker(a)])[..|run|] == run;
  }

  /** The five actions, one after another. */
  lemma WorkerSteps(s: Snapshot, i: nat, ok: bool, ip: nat)
    requires s.worker.Idle? && i < |s.jobs| && s.jobs[i].state.Queued?
    ensures var looking := NextWorker(s, See(i));
            var answered := NextWorker(looking, Answer(ok, ip));
            var okStored := NextWorker(answered, StoreOk);
            var ipStored := NextWorker(okStored, StoreIp);
            NextWorker(ipStored, StoreDone)
            == s.(jobs := s.jobs[i := Job(Done, s.jobs[i].abandoned, s.jobs[i].host, ip, ok)])
  {
    var j, said := s.jobs[i], Said(s.jobs[i].host, ok, ip);
    var answered := NextWorker(NextWorker(s, See(i)), Answer(ok, ip));
    assert answered == s.(worker := Answered(i, said));
    var okStored := NextWorker(answered, StoreOk);
    assert okStored == s.(jobs := s.jobs[i := j.(ok := ok)], worker := OkStored(i, said));
    var ipStored := NextWorker(okStored, StoreIp);
    assert ipStored == s.(jobs := s.jobs[i := j.(ok := ok, ip := ip)], worker := IpStored(i, said));
  }

  /** The lookup task takes a queued job to its end, and touches nothing else. */
  lemma LookedUp(s: Snapshot, hosts: map<nat, seq<byte>>, i: nat, ok: bool, ip: nat)
    requires s.worker.Idle? && i < |s.jobs| && s.jobs[i].state.Queued?
    ensures NextAll(s, hosts, LookUp(i, ok, ip))
            == s.(jobs := s.jobs[i := Job(Done, s.jobs[i].abandoned, s.jobs[i].host, ip, ok)])
    ensures GivenByAll(s, hosts, LookUp(i, ok, ip)) == []
  {
    assert NextAll(s, hosts, []) == s && GivenByAll(s, hosts, []) == [];
    hide NextAll, GivenByAll, NextWorker;
    var saw := [] + [ByWorker(See(i))];
    var answered := saw + [ByWorker(Answer(ok, ip))];
    var okStored := answered + [ByWorker(StoreOk)];
    var ipStored := okStored + [ByWorker(StoreIp)];
    WorkerRuns(s, hosts, [], See(i));
    WorkerRuns(s, hosts, saw, Answer(ok, ip));
    WorkerRuns(s, hosts, answered, StoreOk);
    WorkerRuns(s, hosts, okStored, StoreIp);
    WorkerRuns(s, hosts, ipStored, StoreDone);
    WorkerSteps(s, i, ok, ip);
  }

  /** A finished lookup is given to the fetch that waits for it, with what it found; its slot is free again. */
  lemma HandedOver(s: Snapshot, hosts: map<nat, seq<byte>>, f: nat)
    requires s.main.Calm? && f in s.slots && s.slots[f] < |s.jobs| && s.jobs[s.slots[f]].state.Done?
    ensures var i := s.slots[f];
            && NextAll(s, hosts, HandOver(f)) == s.(jobs := s.jobs[i := s.jobs[i].(state := Free)], slots := s.slots - {f})
            && GivenByAll(s, hosts, HandOver(f)) == [(f, s.jobs[i].ok, s.jobs[i].ip)]
  {
    var run := HandOver(f);
    assert run[..0] == [] && run[..2] == run;
    OneMoreAction(s, hosts, run, 0);
    OneMoreAction(s, hosts, run, 1);
  }

  /** A fetch asks: it takes the first free slot and its host is queued there. */
  lemma AskedFor(s: Snapshot, hosts: map<nat, seq<byte>>, f: nat)
    requires s.main.Calm? && f in hosts && f !in s.slots && FirstFree(s.jobs, 0) >= 0
    ensures var i := FirstFree(s.jobs, 0);
            && NextAll(s, hosts, Ask(f))
               == s.(jobs := s.jobs[i := s.jobs[i].(state := Queued, host := hosts[f], ok := false)], slots := s.slots[f := i])
            && GivenByAll(s, hosts, Ask(f)) == []
  {
    hide NextWorker;
    var run := Ask(f);
    assert run[..0] == [] && run[..2] == run;
    OneMoreAction(s, hosts, run, 0);
    OneMoreAction(s, hosts, run, 1);
  }

  /**
   * From the start of a lookup to its answer: the fetch takes the first free slot, the lookup task looks its
   * host up, and the fetch alone is given what the resolver said.
   */
  lemma LookupIsGiven(s: Snapshot, hosts: map<nat, seq<byte>>, f: nat, ok: bool, ip: nat)
    requires s.main.Calm? && s.worker.Idle? && f in hosts && f !in s.slots && FirstFree(s.jobs, 0) >= 0
    ensures var i := FirstFree(s.jobs, 0);
            var run := Ask(f) + LookUp(i, ok, ip) + HandOver(f);
            && GivenByAll(s, hosts, run) == [(f, ok, ip)]
            && NextAll(s, hosts, run) == s.(jobs := s.jobs[i := Job(Free, false, hosts[f], ip, ok)])
  {
    hide NextAll, GivenByAll, FirstFree, Ask, LookUp, HandOver;
    var i := FirstFree(s.jobs, 0);
    AskedFor(s, hosts, f);
    var queued := NextAll(s, hosts, Ask(f));
    LookedUp(queued, hosts, i, ok, ip);
    var found := NextAll(queued, hosts, LookUp(i, ok, ip));
    var done := Job(Done, false, hosts[f], ip, ok);
    assert found.jobs == s.jobs[i := done] && found.slots == s.slots[f := i];
    HandedOver(found, hosts, f);
    RunInTwo(s, hosts, Ask(f), LookUp(i, ok, ip));
    RunInTwo(s, hosts, Ask(f) + LookUp(i, ok, ip), HandOver(f));
    assert found.slots - {f} == s.slots;
    assert found.jobs[i := done.(state := Free)] == s.jobs[i := done.(state := Free)];
  }

  // ── A waiting fetch, whatever the tasks are doing ───────────────────────

  /** The fetch waits for a job that neither task is giving back or filling for another. */
  ghost predicate Waits(s: Snapshot, f: nat) {
    && f in s.slots && s.slots[f] < |s.jobs| && !s.jobs[s.slots[f]].state.Free?
    && (s.main.Filling? ==> s.main.slot != s.slots[f] && s.main.fetch != f)
    && (s.main.Collecting? ==> (s.main.slot == s.slots[f] <==> s.main.fetch == f))
    && (s.main.Reaping? ==> s.main.slot != s.slots[f])
    && (s.main.Collecting? || s.main.Reaping? ==> JobAt(s, s.main.slot).state.Done?)
    && (s.worker.Idle? || (s.worker.slot < |s.jobs| && s.jobs[s.worker.slot].state.Queued?))
  }

  /** What is left of the lookup task's work on the job it has. */
  function WorkLeft(worker: Worker): nat {
    match worker
    case Idle => 0
    case Looking(_, _) => 4
    case Answered(_, _) => 3
    case OkStored(_, _) => 2
    case IpStored(_, _) => 1
  }

  /** How many actions are left until the fetch has its answer. */
  function Left(s: Snapshot, f: nat): nat
    requires f in s.slots
  {
    var i := s.slots[f];
    var looking := if s.worker.Idle? || s.worker.slot != i then 5 else 0;
    (if s.main.Calm? then 0 else 1) +
    (if s.main.Collecting? && s.main.slot == i then 0
     else if JobAt(s, i).state.Done? then 2 else 2 + looking + WorkLeft(s.worker))
  }

  /** An action of the task whose turn it is. */
  function TurnFor(s: Snapshot, f: nat, ok: bool, ip: nat): Action
    requires f in s.slots
  {
    match s.main
    case Filling(_, _) => ByMain(Publish)
    case Collecting(_, _, _, _) => ByMain(Collect)
    case Reaping(_) => ByMain(ReapFree)
    case Calm =>
      if JobAt(s, s.slots[f]).state.Done? then ByMain(CheckResult(f))
      else match s.worker
        case Idle => ByWorker(See(s.slots[f]))
        case Looking(_, _) => ByWorker(Answer(ok, ip))
        case Answered(_, _) => ByWorker(StoreOk)
        case OkStored(_, _) => ByWorker(StoreIp)
        case IpStored(_, _) => ByWorker(StoreDone)
  }

  /** The fetch is given its answer, or waits on with less to do. */
  ghost predicate LeadsOn(s: Snapshot, t: Snapshot, a: Action, f: nat)
    requires f in s.slots
  {
    IsGiven(GivenBy(s, a), f) || (Waits(t, f) && Left(t, f) < Left(s, f))
  }

  lemma MainLeadsOn(s: Snapshot, hosts: map<nat, seq<byte>>, f: nat, a: MainAction)
    requires Waits(s, f)
    requires if s.main.Calm? then JobAt(s, s.slots[f]).state.Done? && a == CheckResult(f) else a == TurnFor(s, f, false, 0).main
    ensures LeadsOn(s, NextMain(s, hosts, a), ByMain(a), f) && Left(s, f) > 0
  {
    hide FirstFree;
    if a.Collect? && s.main.fetch == f {
      assert GivenBy(s, ByMain(a))[0].0 == f;
    }
  }

  lemma WorkerLeadsOn(s: Snapshot, f: nat, ok: bool, ip: nat)
    requires Waits(s, f) && TurnFor(s, f, ok, ip).ByWorker?
    ensures var a := TurnFor(s, f, ok, ip).worker;
            LeadsOn(s, NextWorker(s, a), ByWorker(a), f) && Left(s, f) > 0
  {
  }

  /** An action of the task whose turn it is leaves less to do, or gives the fetch its answer. */
  lemma TurnLeadsOn(s: Snapshot, hosts: map<nat, seq<byte>>, f: nat, ok: bool, ip: nat)
    requires Waits(s, f)
    ensures var a := TurnFor(s, f, ok, ip);
            LeadsOn(s, Next(s, hosts, a), a, f) && Left(s, f) > 0
  {
    var a := TurnFor(s, f, ok, ip);
    hide NextMain, NextWorker, LeadsOn, Waits, Left;
    if a.ByMain? {
      MainLeadsOn(s, hosts, f, a.main);
    } else {
      WorkerLeadsOn(s, f, ok, ip);
    }
  }

  /**
   * Whatever the two tasks are in the middle of, a waiting fetch can have its answer within twelve more
   * actions of theirs: no state of the table leaves it waiting for ever.
   */
  lemma AnswerComes(s: Snapshot, hosts: map<nat, seq<byte>>, f: nat, ok: bool, ip: nat) returns (run: seq<Action>)
    requires Waits(s, f)
    ensures IsGiven(GivenByAll(s, hosts, run), f) && |run| <= Left(s, f) <= 12
    decreases Left(s, f)
  {
    hide Next, GivenBy, TurnFor;
    var a := TurnFor(s, f, ok, ip);
    TurnLeadsOn(s, hosts, f, ok, ip);
    var one := [a];
    assert one[..0] == [] && one[..1] == one;
    OneMoreAction(s, hosts, one, 0);
    assert GivenByAll(s, hosts, one) == GivenBy(s, a);
    if IsGiven(GivenBy(s, a), f) {
      return one;
    }
    var t := Next(s, hosts, a);
    var rest := AnswerComes(t, hosts, f, ok, ip);
    RunInTwo(s, hosts, one, rest);
    var k :| 0 <= k < |GivenByAll(t, hosts, rest)| && GivenByAll(t, hosts, rest)[k].0 == f;
    run := one + rest;
    assert GivenByAll(s, hosts, run)[|GivenBy(s, a)| + k].0 == f;
  }

  class Table {
    const jobs: array<Job>
    var worker: Worker
    var main: Main
    var hosts: map<nat, seq<byte>>  // of every fetch
    var slots: map<nat, nat>        // of the fetches that wait for a lookup
    ghost var holder: map<nat, nat>
    ghost var said: set<Said>

    /** Waiting fetches and their slots pair off. */
    ghost predicate Paired()
      reads this
    {
      && (forall f | f in slots :: f in hosts && slots[f] < DNS_JOBS && slots[f] in holder && holder[slots[f]] == f)
      && (forall i | i in holder :: holder[i] in slots && slots[holder[i]] == i)
    }

    /** The lookup task works on a queued job, whose host does not change under it. */
    ghost predicate WorkerOk()
      requires jobs.Length == DNS_JOBS
      reads this, jobs
    {
      worker.Idle? ||
      (worker.slot < DNS_JOBS &&
       var j := jobs[worker.slot];
       && j.state.Queued?
       && (worker.Looking? ==> j.host == worker.host)
       && (!worker.Looking? ==> j.host == worker.said.host && worker.said in said)
       && (worker.OkStored? || worker.IpStored? ==> j.ok == worker.said.ok)
       && (worker.IpStored? ==> j.ip == worker.said.ip))
    }

    ghost predicate MainOk()
      requires jobs.Length == DNS_JOBS
      reads this, jobs
    {
      match main
      case Calm => true
      case Filling(i, f) =>
        i < DNS_JOBS && jobs[i].state.Free? && f in hosts && f !in slots && jobs[i].host == hosts[f]
      case Collecting(i, f, ok, ip) =>
        i < DNS_JOBS && jobs[i].state.Done? && f in slots && slots[f] == i && jobs[i].ok == ok && jobs[i].ip == ip
      case Reaping(i) => i < DNS_JOBS && jobs[i].state.Done?
    }

    ghost predicate Slots()
      requires jobs.Length == DNS_JOBS
      reads this, jobs
    {
      forall i: nat | i < DNS_JOBS :: SlotOk(jobs[i], i, holder, hosts, main, said)
    }

    ghost predicate Valid()
      reads this, jobs
    {
      jobs.Length == DNS_JOBS && Paired() && WorkerOk() && MainOk() && Slots()
    }

    ghost function Snap(): Snapshot
      reads this`worker, this`main, this`slots, jobs
    {
      Snapshot(jobs[..], worker, main, slots)
    }

    constructor (hosts: map<nat, seq<byte>>)
      ensures Valid() && fresh(jobs) && this.hosts == hosts && slots == map[] && said == {}
    {
      jobs := new Job[DNS_JOBS](_ => Job(Free, false, [], 0, false));
      worker, main, this.hosts, slots, holder, said := Idle, Calm, hosts, map[], map[], {};
    }

    // ── The main task ───────────────────────────────────────────────────────

    /** A free slot takes the fetch's host; the lookup task does not see it yet. */
    method DnsStart(f: nat) returns (slot: int)
      requires Valid() && main.Calm? && f in hosts && f !in slots
      modifies this`main, jobs
      ensures Valid() && -1 <= slot < DNS_JOBS
      ensures slot < 0 <==> forall i | 0 <= i < DNS_JOBS :: !old(jobs[i]).state.Free?
      ensures slot < 0 ==> main.Calm?
      ensures slot >= 0 ==> old(jobs[slot]).state.Free? && main == Filling(slot, f)
      ensures slot == FirstFree(old(jobs[..]), 0)
      ensures jobs[..] == if slot < 0 then old(jobs[..])
                          else old(jobs[..])[slot := old(jobs[slot]).(host := hosts[f], ok := false)]
    {
      for i := 0 to DNS_JOBS
        invariant forall j | 0 <= j < i :: !jobs[j].state.Free?
      {
        if jobs[i].state.Free? && !jobs[i].abandoned {
          jobs[i] := jobs[i].(host := hosts[f], ok := false);
          main := Filling(i, f);
          return i;
        }
        assert SlotOk(jobs[i], i, holder, hosts, main, said);
      }
      return -1;
    }

    method DnsPublish()
      requires Valid() && main.Filling?
      modifies this`main, this`slots, this`holder, jobs
      ensures Valid() && main.Calm? && slots == old(slots)[old(main).fetch := old(main).slot]
      ensures jobs[..] == old(jobs[..])[old(main).slot := old(jobs[main.slot]).(state := Queued)]
    {
      var i, f := main.slot, main.fetch;
      jobs[i] := jobs[i].(state := Queued);
      slots, holder, main := slots[f := i], holder[i := f], Calm;
    }

    /** Whether the fetch's lookup is finished; its result is read but the slot not yet given back. */
    method DnsCheck(f: nat) returns (done: bool)
      requires Valid() && main.Calm? && f in slots
      modifies this`main
      ensures Valid() && done == jobs[slots[f]].state.Done?
      ensures main == if done then Collecting(slots[f], f, jobs[slots[f]].ok, jobs[slots[f]].ip) else Calm
    {
      var i := slots[f];
      done := jobs[i].state.Done?;
      if done {
        main := Collecting(i, f, jobs[i].ok, jobs[i].ip);
      }
    }

    /** Gives the slot back. The address is what the resolver said of the fetch's own host. */
    method DnsCollect() returns (f: nat, ok: bool, ip: nat)
      requires Valid() && main.Collecting?
      modifies this`main, this`slots, this`holder, jobs
      ensures Valid() && main.Calm? && (f, ok, ip) == (old(main).fetch, old(main).ok, old(main).ip)
      ensures f !in slots && slots == old(slots) - {f}
      ensures f in hosts && Said(hosts[f], ok, ip) in said
      ensures jobs[..] == old(jobs[..])[old(main).slot := old(jobs[main.slot]).(state := Free)]
    {
      var i := main.slot;
      f, ok, ip := main.fetch, main.ok, main.ip;
      assert SlotOk(jobs[i], i, holder, hosts, main, said);
      jobs[i] := jobs[i].(state := Free);
      slots, holder, main := slots - {f}, holder - {i}, Calm;
    }

    /** The fetch no longer waits; its slot stays taken until the lookup is finished and reaped. */
    method DnsAbandon(f: nat)
      requires Valid() && main.Calm? && f in slots
      modifies this`slots, this`holder, jobs
      ensures Valid() && slots == old(slots) - {f}
      ensures jobs[..] == old(jobs[..])[old(slots)[f] := old(jobs[slots[f]]).(abandoned := true)]
    {
      var i := slots[f];
      assert SlotOk(jobs[i], i, holder, hosts, main, said);
      jobs[i] := jobs[i].(abandoned := true);
      slots, holder := slots - {f}, holder - {i};
    }

    /** The first half of reaping a finished lookup nobody waits for. */
    method DnsReapMark(i: nat)
      requires Valid() && main.Calm? && i < DNS_JOBS
      modifies this`main, jobs
      ensures Valid()
      ensures main == if old(jobs[i]).abandoned && old(jobs[i]).state.Done? then Reaping(i) else Calm
      ensures jobs[..] == if main.Calm? then old(jobs[..]) else old(jobs[..])[i := old(jobs[i]).(abandoned := false)]
    {
      assert SlotOk(jobs[i], i, holder, hosts, main, said);
      if jobs[i].abandoned && jobs[i].state.Done? {
        jobs[i] := jobs[i].(abandoned := false);
        main := Reaping(i);
      }
    }

    method DnsReapFree()
      requires Valid() && main.Reaping?
      modifies this`main, jobs
      ensures Valid() && main.Calm?
      ensures jobs[..] == old(jobs[..])[old(main).slot := old(jobs[main.slot]).(state := Free)]
    {
      var i := main.slot;
      assert SlotOk(jobs[i], i, holder, hosts, main, said);
      jobs[i] := jobs[i].(state := Free);
      main := Calm;
    }

    // ── The lookup task ─────────────────────────────────────────────────────

    method WorkerSee(i: nat)
      requires Valid() && worker.Idle? && i < DNS_JOBS
      modifies this`worker
      ensures Valid() && worker == if jobs[i].state.Queued? then Looking(i, jobs[i].host) else Idle
    {
      if jobs[i].state.Queued? {
        worker := Looking(i, jobs[i].host);
      }
    }

    /** net_resolve returns. */
    method WorkerAnswer(ok: bool, ip: nat)
      requires Valid() && worker.Looking?
      modifies this`worker, this`said
      ensures Valid() && said == old(said) + {Said(old(worker).host, ok, ip)}
      ensures worker == Answered(old(worker).slot, Said(old(worker).host, ok, ip))
    {
      var s := Said(worker.host, ok, ip);
      said := said + {s};
      worker := Answered(worker.slot, s);
    }

    method WorkerStoreOk()
      requires Valid() && worker.Answered?
      modifies this`worker, jobs
      ensures Valid() && worker == OkStored(old(worker).slot, old(worker).said)
      ensures jobs[..] == old(jobs[..])[worker.slot := old(jobs[worker.slot]).(ok := worker.said.ok)]
    {
      var i := worker.slot;
      jobs[i] := jobs[i].(ok := worker.said.ok);
      worker := OkStored(i, worker.said);
    }

    method WorkerStoreIp()
      requires Valid() && worker.OkStored?
      modifies this`worker, jobs
      ensures Valid() && worker == IpStored(old(worker).slot, old(worker).said)
      ensures jobs[..] == old(jobs[..])[worker.slot := old(jobs[worker.slot]).(ip := worker.said.ip)]
    {
      var i := worker.slot;
      jobs[i] := jobs[i].(ip := worker.said.ip);
      worker := IpStored(i, worker.said);
    }

    method WorkerDone()
      requires Valid() && worker.IpStored?
      modifies this`worker, jobs
      ensures Valid() && worker.Idle?
      ensures jobs[..] == old(jobs[..])[old(worker).slot := old(jobs[worker.slot]).(state := Done)]
    {
      var i := worker.slot;
      assert SlotOk(jobs[i], i, holder, hosts, main, said);
      jobs[i] := jobs[i].(state := Done);
      worker := Idle;
    }

    lemma OnlyFinishedFreed(a: Action)
      requires Valid()
      ensures SlotsFreed(Snap(), Next(Snap(), hosts, a), a)
    {
      hide FirstFree;
    }

    /** Every fetch that waits can have its answer. */
    lemma WaitingIsWaits(f: nat)
      requires Valid() && f in slots
      ensures Waits(Snap(), f)
    {
      assert SlotOk(jobs[slots[f]], slots[f], holder, hosts, main, said);
    }

    /** Every action brings a waiting lookup on if it is its turn, and sets none back. */
    lemma TurnsAdvance(a: Action, f: nat)
      requires Valid()
      ensures Advances(Snap(), Next(Snap(), hosts, a), a, f)
    {
      hide Advances;
      if a.ByMain? {
        MainAdvances(a.main, f);
      } else {
        WorkerAdvances(a.worker, f);
      }
    }

    lemma MainAdvances(a: MainAction, f: nat)
      requires Valid()
      ensures Advances(Snap(), NextMain(Snap(), hosts, a), ByMain(a), f)
    {
      hide FirstFree;
      if a.Collect? && main.Collecting? && main.fetch == f {
        assert GivenBy(Snap(), ByMain(a))[0].0 == f;
      }
    }

    lemma WorkerAdvances(a: WorkerAction, f: nat)
      requires Valid()
      ensures Advances(Snap(), NextWorker(Snap(), a), ByWorker(a), f)
    {
    }

    // ── Any interleaving ────────────────────────────────────────────────────

    /** One action of either task, if it is possible; what a fetch is given by it. */
    method Do(a: Action) returns (given: seq<(nat, bool, nat)>)
      requires Valid()
      modifies this`main, this`worker, this`slots, this`holder, this`said, jobs
      ensures Valid() && Snap() == Next(old(Snap()), hosts, a) && given == GivenBy(old(Snap()), a)
      ensures SlotsFreed(old(Snap()), Snap(), a) && forall f :: Advances(old(Snap()), Snap(), a, f)
      ensures old(said) <= said
      ensures forall k | 0 <= k < |given| :: given[k].0 in hosts && Said(hosts[given[k].0], given[k].1, given[k].2) in said
    {
      hide Table.Valid, NextMain, NextWorker, SlotsFreed, Advances;
      OnlyFinishedFreed(a);
      forall f ensures Advances(Snap(), Next(Snap(), hosts, a), a, f) {
        TurnsAdvance(a, f);
      }
      given := [];
      if a.ByMain? {
        given := DoMain(a.main);
      } else {
        DoWorker(a.worker);
      }
    }

    method DoMain(a: MainAction) returns (given: seq<(nat, bool, nat)>)
      requires Valid()
      modifies this`main, this`slots, this`holder, jobs
      ensures Valid() && Snap() == NextMain(old(Snap()), hosts, a) && given == GivenBy(old(Snap()), ByMain(a))
      ensures forall k | 0 <= k < |given| :: given[k].0 in hosts && Said(hosts[given[k].0], given[k].1, given[k].2) in said
    {
      hide FirstFree;
      given := [];
      match a {
        case Start(f) => if main.Calm? && f in hosts && f !in slots { var _ := DnsStart(f); }
        case Publish => if main.Filling? { DnsPublish(); }
        case CheckResult(f) => if main.Calm? && f in slots { var _ := DnsCheck(f); }
        case Collect =>
          if main.Collecting? {
            var f, ok, ip := DnsCollect();
            given := [(f, ok, ip)];
          }
        case Abandon(f) => if main.Calm? && f in slots { DnsAbandon(f); }
        case ReapMark(i) => if main.Calm? && i < DNS_JOBS { DnsReapMark(i); }
        case ReapFree => if main.Reaping? { DnsReapFree(); }
      }
    }

    method DoWorker(a: WorkerAction)
      requires Valid()
      modifies this`worker, this`said, jobs
      ensures Valid() && Snap() == NextWorker(old(Snap()), a) && old(said) <= said
    {
      match a {
        case See(i) => if worker.Idle? && i < DNS_JOBS { WorkerSee(i); }
        case Answer(ok, ip) => if worker.Looking? { WorkerAnswer(ok, ip); }
        case StoreOk => if worker.Answered? { WorkerStoreOk(); }
        case StoreIp => if worker.OkStored? { WorkerStoreIp(); }
        case StoreDone => if worker.IpStored? { WorkerDone(); }
      }
    }

    /**
     * The actions of both tasks in any order. Every address a fetch was given is one the resolver
     * gave for that fetch's host, no slot ever became free before its lookup was finished and
     * collected or reaped, and a fetch that waited and was not abandoned was given its answer or
     * waits on, its lookup no less far.
     */
    method Run(actions: seq<Action>) returns (given: seq<(nat, bool, nat)>)
      requires Valid()
      modifies this`main, this`worker, this`slots, this`holder, this`said, jobs
      ensures Valid() && Snap() == NextAll(old(Snap()), hosts, actions) && given == GivenByAll(old(Snap()), hosts, actions)
      ensures forall k | 0 <= k < |given| :: given[k].0 in hosts && Said(hosts[given[k].0], given[k].1, given[k].2) in said
      ensures forall f | f in old(slots) && ByMain(Abandon(f)) !in actions ::
                IsGiven(given, f) || WaitsOn(old(Snap()), Snap(), f)
      ensures forall k | 0 <= k < |actions| ::
                SlotsFreed(NextAll(old(Snap()), hosts, actions[..k]), NextAll(old(Snap()), hosts, actions[..k + 1]), actions[k])
    {
      hide Table.Valid, Next, GivenBy, SlotsFreed, Stage;
      given := [];
      ghost var start := Snap();
      assert actions[..0] == [];
      for k := 0 to |actions|
        invariant Valid()
        invariant Snap() == NextAll(start, hosts, actions[..k]) && given == GivenByAll(start, hosts, actions[..k])
        invariant forall m | 0 <= m < k ::
                    SlotsFreed(NextAll(start, hosts, actions[..m]), NextAll(start, hosts, actions[..m + 1]), actions[m])
        invariant forall f | f in start.slots && ByMain(Abandon(f)) !in actions ::
                    IsGiven(given, f) || WaitsOn(start, Snap(), f)
        invariant forall m | 0 <= m < |given| ::
                    given[m].0 in hosts && Said(hosts[given[m].0], given[m].1, given[m].2) in said
      {
        OneMoreAction(start, hosts, actions, k);
        ghost var before, givenBefore := Snap(), given;
        var more := Do(actions[k]);
        given := given + more;
        forall f | f in start.slots && ByMain(Abandon(f)) !in actions
          ensures IsGiven(given, f) || WaitsOn(start, Snap(), f)
        {
          GivenGrows(givenBefore, more, f);
          assert Advances(before, Snap(), actions[k], f);
        }
      }
      assert actions[..|actions|] == actions;
    }
  }

  /** Recently resolved names. */
  class Cache {
    const entries: array<Cached>
    ghost var remembered: set<(seq<byte>, nat, int)>  // host, address, and when it was remembered

    ghost predicate Valid()
      reads this, entries
    {
      && entries.Length == DNS_CACHE
      && forall i | 0 <= i < DNS_CACHE && entries[i].host != [] ::
           (entries[i].host, entries[i].ip, entries[i].expires - DNS_TTL_US) in remembered
    }

    constructor ()
      ensures Valid() && fresh(entries) && remembered == {}
    {
      entries := new Cached[DNS_CACHE](_ => Cached([], 0, 0));
      remembered := {};
    }

    /** An address for the host, remembered for that name (up to case) within the time to live. */
    method Lookup(host: seq<byte>, now: int) returns (ip: Option<nat>)
      requires Valid()
      ensures ip.Some? ==> exists h, t ::
                (h, ip.value, t) in remembered && SameNoCase(h, host) && now < t + DNS_TTL_US
      ensures ip.None? ==> forall i | 0 <= i < DNS_CACHE ::
                entries[i].host == [] || entries[i].expires <= now || !SameNoCase(entries[i].host, host)
    {
      for i := 0 to DNS_CACHE
        invariant forall j | 0 <= j < i ::
                    entries[j].host == [] || entries[j].expires <= now || !SameNoCase(entries[j].host, host)
      {
        var e := entries[i];
        if e.host != [] && e.expires > now && SameNoCase(e.host, host) {
          assert (e.host, e.ip, e.expires - DNS_TTL_US) in remembered;
          return Some(e.ip);
        }
      }
      return None;
    }

    /** Takes the place of the entry that expires first; names too long to keep are not remembered. */
    method Remember(host: seq<byte>, ip: nat, now: int)
      requires Valid()
      modifies this`remembered, entries
      ensures Valid() && remembered == old(remembered) + {(host, ip, now)}
      ensures |host| >= CACHE_HOST_MAX ==> entries[..] == old(entries[..])
      ensures |host| < CACHE_HOST_MAX ==> exists k | 0 <= k < DNS_CACHE ::
                && entries[..] == old(entries[..])[k := Cached(host, ip, now + DNS_TTL_US)]
                && forall j | 0 <= j < DNS_CACHE :: old(entries[k]).expires <= old(entries[j]).expires
    {
      remembered := remembered + {(host, ip, now)};
      if |host| >= CACHE_HOST_MAX {
        return;
      }
      var slot := 0;
      for i := 0 to DNS_CACHE
        invariant 0 <= slot < DNS_CACHE
        invariant forall j | 0 <= j < i :: entries[slot].expires <= entries[j].expires
      {
        if entries[i].expires < entries[slot].expires {
          slot := i;
        }
      }
      entries[slot] := Cached(host, ip, now + DNS_TTL_US);
      assert entries[..] == old(entries[..])[slot := Cached(host, ip, now + DNS_TTL_US)];
    }
  }
}
