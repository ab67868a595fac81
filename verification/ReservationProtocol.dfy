// The reservation table under any number of threads, in small steps: reading the clock,
// reading the conflict list, taking one lock, erasing one entry, checking one entry,
// writing, releasing one lock. The scheduler is free.
module ReservationProtocol {
  import opened Util
  import opened SpatialHash
  import opened ConflictIndex
  import opened ReservationSpec

  // `now` is the clock value an operation read before it took any lock. An exclusive
  // operation locks shards for writing, the others for reading.
  datatype Op =
    | Reserve(node: int, entry: Entry, now: int)
    | Free(node: int, owner: string, now: int)
    | Sweep(owner: string, keep: seq<int>, now: int)
    | Snapshot(exclude: string, expand: bool, now: int)
    | Probe(node: int, exclude: string, now: int)
    | Look(node: int, now: int)
    | Configure(next: Index, now: int)
  {
    predicate Writes() { Reserve? || Free? || Sweep? }

    // Operations that return before touching the table are not started.
    predicate CanStart() {
      && (Reserve? ==> node >= 0 && entry.owner != "")
      && (Free? ==> node >= 0 && owner != "")
      && (Probe? || Look? ==> node >= 0)
    }

    // On whose behalf the operation may remove or rewrite live holds.
    predicate ActsFor(who: string) {
      (Reserve? && entry.owner == who) || (Free? && owner == who) || (Sweep? && owner == who)
    }
  }

  datatype Stage =
    | WantIndex
    | AtIndex
    | HaveIds(ids: seq<int>)
    | Locking(ids: seq<int>, plan: seq<int>, k: nat)
    | Purging(ids: seq<int>, i: nat)
    | Checking(ids: seq<int>, i: nat)
    | Writing(ids: seq<int>)
    | Acting(ids: seq<int>)
    | Sweeping(shard: nat, inside: bool)
    | Unlocking(ok: bool)

  datatype Thread = Thread(op: Op, stage: Stage, held: set<int>)

  // A thread without an entry is idle.
  datatype State = State(clock: int, table: Table, index: Index, threads: map<nat, Thread>)

  // The conflict-index lock; the shard locks are 0 .. 63.
  const INDEX_LOCK := -1

  function ShardsOf(ids: seq<int>): (r: seq<int>)
    ensures |r| == |ids| && forall i :: 0 <= i < |ids| ==> r[i] == ShardOf(ids[i])
  {
    seq(|ids|, i requires 0 <= i < |ids| => ShardOf(ids[i]))
  }

  // The order in which tryReserve and findBlockingHold lock shards.
  function Plan(ids: seq<int>): (r: seq<int>)
    ensures StrictlyAscending(r)
    ensures forall n :: n in ids ==> ShardOf(n) in r
    ensures forall l :: l in r ==> 0 <= l < SHARD_COUNT
  {
    var shards := ShardsOf(ids);
    assert forall n :: n in ids ==> ShardOf(n) in shards by {
      forall n | n in ids ensures ShardOf(n) in shards {
        var i :| 0 <= i < |ids| && ids[i] == n;
        assert shards[i] == ShardOf(n);
      }
    }
    SortUnique(shards)
  }

  // Which mode an operation takes a lock in.
  predicate Shares(op: Op, l: int) {
    if l == INDEX_LOCK then !op.Configure? else !op.Writes()
  }

  // std::shared_mutex: nobody else holds the lock, or all of them share it.
  predicate CanTake(s: State, t: nat, op: Op, l: int) {
    forall u :: u in s.threads && u != t && l in s.threads[u].held ==> Shares(op, l) && Shares(s.threads[u].op, l)
  }

  datatype Choice = Tick(d: nat) | Start(op: Op) | Go | Erase(n: int) | Unlock(l: int)

  function FirstStage(op: Op): Stage {
    match op
    case Reserve(_, _, _) => WantIndex
    case Probe(_, _, _) => WantIndex
    case Configure(_, _) => WantIndex
    case Free(n, _, _) => Locking([n], Plan([n]), 0)
    case Look(n, _) => Locking([n], Plan([n]), 0)
    case Sweep(_, _, _) => Sweeping(0, false)
    case Snapshot(_, _, _) => Sweeping(0, false)
  }

  function With(s: State, t: nat, th: Thread): State {
    s.(threads := s.threads[t := th])
  }

  // One step of thread t; None when it cannot make that step now.
  function StepTo(s: State, t: nat, c: Choice): Option<State> {
    match c
    case Tick(d) => Some(s.(clock := s.clock + d))
    case Start(op) =>
      if t !in s.threads && op.CanStart() && op.now == s.clock
      then Some(With(s, t, Thread(op, FirstStage(op), {}))) else None
    case Go => if t in s.threads then GoTo(s, t, s.threads[t]) else None
    case Erase(n) =>
      if t in s.threads && s.threads[t].op.Sweep? && s.threads[t].stage.Sweeping? && s.threads[t].stage.inside
        && n in s.table && ShardOf(n) == s.threads[t].stage.shard
        && Dropped(n, s.table[n], s.threads[t].op.owner, s.threads[t].op.keep, s.threads[t].op.now)
      then Some(s.(table := s.table - {n})) else None
    case Unlock(l) =>
      if t in s.threads && s.threads[t].stage.Unlocking? && l in s.threads[t].held
      then Some(With(s, t, s.threads[t].(held := s.threads[t].held - {l}))) else None
  }

  // The step that the code's next statement makes.
  function GoTo(s: State, t: nat, th: Thread): Option<State>
    requires t in s.threads && s.threads[t] == th
  {
    var op := th.op;
    match th.stage
    case WantIndex =>
      if CanTake(s, t, op, INDEX_LOCK)
      then Some(With(s, t, th.(stage := AtIndex, held := th.held + {INDEX_LOCK}))) else None
    case AtIndex =>
      if op.Configure? then Some(With(s, t, th.(stage := Unlocking(true))).(index := op.next))
      else if op.Reserve? || op.Probe? then Some(With(s, t, th.(stage := HaveIds(ConflictIds(s.index, op.node)))))
      else Some(With(s, t, th.(stage := Unlocking(true))))
    case HaveIds(ids) =>
      Some(With(s, t, th.(stage := Locking(ids, Plan(ids), 0), held := th.held - {INDEX_LOCK})))
    case Locking(ids, plan, k) =>
      if k < |plan| then
        if CanTake(s, t, op, plan[k])
        then Some(With(s, t, th.(stage := Locking(ids, plan, k + 1), held := th.held + {plan[k]}))) else None
      else Some(With(s, t, th.(stage := if op.Reserve? then Purging(ids, 0) else Acting(ids))))
    case Purging(ids, i) =>
      if i < |ids| then
        var s' := With(s, t, th.(stage := Purging(ids, i + 1)));
        Some(if ids[i] in s.table && s.table[ids[i]].Expired(op.now) then s'.(table := s.table - {ids[i]}) else s')
      else Some(With(s, t, th.(stage := Checking(ids, 0))))
    case Checking(ids, i) =>
      if !op.Reserve? then None
      else if i < |ids| then
        Some(With(s, t, th.(stage := if ids[i] in s.table && s.table[ids[i]].owner != op.entry.owner
                                     then Unlocking(false) else Checking(ids, i + 1))))
      else Some(With(s, t, th.(stage := Writing(ids))))
    case Writing(ids) =>
      if !op.Reserve? then None
      else Some(With(s, t, th.(stage := Unlocking(true))).(table := s.table[op.node := op.entry]))
    case Acting(ids) =>
      var s' := With(s, t, th.(stage := Unlocking(true)));
      Some(if op.Free? then s'.(table := Release(s.table, op.node, op.owner, op.now)) else s')
    case Sweeping(k, false) =>
      if k < SHARD_COUNT then
        if CanTake(s, t, op, k)
        then Some(With(s, t, th.(stage := Sweeping(k, true), held := th.held + {k}))) else None
      else Some(With(s, t, th.(stage := if op.Snapshot? && op.expand then WantIndex else Unlocking(true))))
    case Sweeping(k, true) =>
      if op.Sweep? && (exists n :: n in s.table && ShardOf(n) == k && Dropped(n, s.table[n], op.owner, op.keep, op.now))
      then None
      else Some(With(s, t, th.(stage := Sweeping(k + 1, false), held := th.held - {k})))
    case Unlocking(_) =>
      if th.held == {} then Some(s.(threads := s.threads - {t})) else None
  }

  ghost predicate Initial(s: State) {
    s.table == map[] && s.threads == map[]
  }

  // States linked by steps, with the thread and choice of each step.
  ghost predicate Linked(ss: seq<State>, who: seq<nat>, how: seq<Choice>) {
    && |ss| == |who| + 1 && |how| == |who|
    && forall i :: 0 <= i < |who| ==> StepTo(ss[i], who[i], how[i]) == Some(ss[i + 1])
  }

  ghost predicate Run(ss: seq<State>, who: seq<nat>, how: seq<Choice>) {
    Linked(ss, who, how) && Initial(ss[0])
  }

  // ---- Locks -----------------------------------------------------------------------------

  // What a thread holds at each stage: the index lock alone, or a prefix of its ascending
  // plan, or one swept shard.
  ghost predicate Shape(th: Thread) {
    match th.stage
    case WantIndex => th.held == {}
    case AtIndex => th.held == {INDEX_LOCK}
    case HaveIds(_) => th.held == {INDEX_LOCK} && (th.op.Reserve? || th.op.Probe?)
    case Locking(ids, plan, k) => plan == Plan(ids) && k <= |plan| && th.held == Elements(plan[..k])
    case Purging(ids, i) => th.op.Reserve? && Covers(th.held, ids) && i <= |ids|
    case Checking(ids, i) => th.op.Reserve? && Covers(th.held, ids) && i <= |ids|
    case Writing(ids) => th.op.Reserve? && Covers(th.held, ids)
    case Acting(ids) => Covers(th.held, ids)
    case Sweeping(k, inside) => if inside then k < SHARD_COUNT && th.held == {k} else k <= SHARD_COUNT && th.held == {}
    case Unlocking(_) => true
  }

  ghost predicate Covers(held: set<int>, ids: seq<int>) {
    forall n :: n in ids ==> ShardOf(n) in held
  }

  ghost predicate LocksOk(s: State) {
    && (forall t :: t in s.threads ==> Shape(s.threads[t]))
    && (forall t, u, l :: t in s.threads && u in s.threads && t != u && l in s.threads[t].held && l in s.threads[u].held
          ==> Shares(s.threads[t].op, l) && Shares(s.threads[u].op, l))
  }

  lemma PrefixElements(plan: seq<int>, k: nat)
    requires k < |plan|
    ensures Elements(plan[..0]) == {} && Elements(plan[..|plan|]) == Elements(plan)
    ensures Elements(plan[..k + 1]) == Elements(plan[..k]) + {plan[k]}
  {
    assert plan[..k + 1] == plan[..k] + [plan[k]];
    assert plan[..|plan|] == plan;
  }

  lemma LockingKeepsShape(th: Thread, th': Thread)
    requires th.stage.Locking? && Shape(th)
    requires var Locking(ids, plan, k) := th.stage;
      if k < |plan| then th' == th.(stage := Locking(ids, plan, k + 1), held := th.held + {plan[k]})
      else th' == th.(stage := if th.op.Reserve? then Purging(ids, 0) else Acting(ids))
    ensures Shape(th')
  {
    var Locking(ids, plan, k) := th.stage;
    if k < |plan| {
      PrefixElements(plan, k);
    } else {
      assert plan[..k] == plan;
    }
  }

  lemma GoKeepsShape(s: State, t: nat, th: Thread, s': State)
    requires t in s.threads && s.threads[t] == th && Shape(th)
    requires GoTo(s, t, th) == Some(s')
    ensures t in s'.threads ==> Shape(s'.threads[t])
  {
    if th.stage.Locking? {
      LockingKeepsShape(th, s'.threads[t]);
    } else if th.stage.HaveIds? {
      assert Elements(Plan(th.stage.ids)[..0]) == {};
    }
  }

  lemma StepKeepsShape(s: State, t: nat, c: Choice, s': State)
    requires t in s.threads ==> Shape(s.threads[t])
    requires StepTo(s, t, c) == Some(s')
    ensures t in s'.threads ==> Shape(s'.threads[t])
  {
    if c.Start? {
      assert forall plan: seq<int> :: Elements(plan[..0]) == {};
    } else if c.Go? {
      GoKeepsShape(s, t, s.threads[t], s');
    }
  }

  lemma OtherThreadsStay(s: State, t: nat, c: Choice, s': State)
    requires StepTo(s, t, c) == Some(s')
    ensures forall u :: u != t ==> (u in s.threads <==> u in s'.threads)
    ensures forall u :: u != t && u in s.threads ==> s'.threads[u] == s.threads[u]
  {
  }

  // A newly held lock was free or shared.
  lemma TakenLockWasFree(s: State, t: nat, c: Choice, s': State, l: int)
    requires StepTo(s, t, c) == Some(s') && t in s'.threads && l in s'.threads[t].held
    ensures (t in s.threads && l in s.threads[t].held && s.threads[t].op == s'.threads[t].op)
      || CanTake(s, t, s'.threads[t].op, l)
  {
  }

  lemma StepKeepsLocks(s: State, t: nat, c: Choice, s': State)
    requires LocksOk(s) && StepTo(s, t, c) == Some(s')
    ensures LocksOk(s')
  {
    OtherThreadsStay(s, t, c, s');
    StepKeepsShape(s, t, c, s');
    forall a, b, l | a in s'.threads && b in s'.threads && a != b && l in s'.threads[a].held && l in s'.threads[b].held
      ensures Shares(s'.threads[a].op, l) && Shares(s'.threads[b].op, l)
    {
      if a == t { TakenLockWasFree(s, t, c, s', l); }
      if b == t { TakenLockWasFree(s, t, c, s', l); }
    }
  }
}
