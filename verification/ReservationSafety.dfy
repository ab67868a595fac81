// Safety of the reservation protocol over every interleaving: nodes that exclude each other
// never have different owners as long as the holds fit each new conflict index, live holds
// end only by expiry or by their owner, and each tryReserve takes effect as one atomic step.
module ReservationSafety {
  import opened Util
  import opened MapModel
  import opened SpatialHash
  import opened ConflictIndex
  import opened ReservationSpec
  import opened ReservationProtocol

  // The node list a stage carries.
  function StageIds(stage: Stage): seq<int> {
    match stage
    case HaveIds(ids) => ids
    case Locking(ids, _, _) => ids
    case Purging(ids, _) => ids
    case Checking(ids, _) => ids
    case Writing(ids) => ids
    case Acting(ids) => ids
    case _ => []
  }

  predicate HasIds(stage: Stage) {
    stage.HaveIds? || stage.Locking? || stage.Purging? || stage.Checking? || stage.Writing? || stage.Acting?
  }

  // The list an operation works on: the conflict list it read, or just its node.
  predicate RightIds(op: Op, index: Index, ids: seq<int>) {
    match op
    case Reserve(n, _, _) => ids == ConflictIds(index, n)
    case Probe(n, _, _) => ids == ConflictIds(index, n)
    case Free(n, _, _) => ids == [n]
    case Look(n, _) => ids == [n]
    case _ => true
  }

  ghost predicate IdsOk(th: Thread, index: Index) {
    HasIds(th.stage) ==> RightIds(th.op, index, StageIds(th.stage))
  }

  // Of the first n listed nodes, none has an entry that had expired when the clock was read.
  ghost predicate Unexpired(t: Table, ids: seq<int>, n: nat, now: int) {
    n <= |ids| && forall j :: 0 <= j < n && ids[j] in t ==> !t[ids[j]].Expired(now)
  }

  ghost predicate OwnedBy(t: Table, ids: seq<int>, n: nat, owner: string) {
    n <= |ids| && forall j :: 0 <= j < n && ids[j] in t ==> t[ids[j]].owner == owner
  }

  // What a reserving thread knows of the table while it holds its shards.
  ghost predicate Knows(th: Thread, t: Table) {
    match th.stage
    case Purging(ids, i) => th.op.Reserve? && Unexpired(t, ids, i, th.op.now)
    case Checking(ids, i) => th.op.Reserve? && Unexpired(t, ids, |ids|, th.op.now) && OwnedBy(t, ids, i, th.op.entry.owner)
    case Writing(ids) => th.op.Reserve? && Unexpired(t, ids, |ids|, th.op.now) && OwnedBy(t, ids, |ids|, th.op.entry.owner)
    case _ => true
  }

  ghost predicate ThreadOk(th: Thread, t: Table, index: Index, clock: int) {
    th.op.now <= clock && IdsOk(th, index) && Knows(th, t)
  }

  ghost predicate Safe(s: State) {
    && LocksOk(s)
    && Exclusive(s.table, s.index)
    && forall t :: t in s.threads ==> ThreadOk(s.threads[t], s.table, s.index, s.clock)
  }

  predicate SameAt(a: Table, b: Table, n: int) {
    (n in a <==> n in b) && (n in a ==> a[n] == b[n])
  }

  // An entry changes only under its shard's lock, held for writing.
  lemma ChangesUnderLock(s: State, t: nat, c: Choice, s': State, n: int)
    requires StepTo(s, t, c) == Some(s')
    requires t in s.threads ==> Shape(s.threads[t]) && IdsOk(s.threads[t], s.index)
    ensures SameAt(s.table, s'.table, n)
      || (t in s.threads && s.threads[t].op.Writes() && ShardOf(n) in s.threads[t].held)
  {
    if c.Go? {
      GoChangesUnderLock(s, t, s.threads[t], s', n);
    }
  }

  lemma GoChangesUnderLock(s: State, t: nat, th: Thread, s': State, n: int)
    requires t in s.threads && s.threads[t] == th && Shape(th) && IdsOk(th, s.index)
    requires GoTo(s, t, th) == Some(s')
    ensures SameAt(s.table, s'.table, n) || (th.op.Writes() && ShardOf(n) in th.held)
  {
    if th.stage.Purging? {
      if th.stage.i < |th.stage.ids| { assert th.stage.ids[th.stage.i] in th.stage.ids; }
    } else if th.stage.Writing? || (th.stage.Acting? && th.op.Free?) {
      assert th.stage.ids[0] == th.op.node;
    } else {
      assert s'.table == s.table;
    }
  }

  ghost predicate SameOn(t: Table, t': Table, ids: seq<int>) {
    forall j :: 0 <= j < |ids| ==> SameAt(t, t', ids[j])
  }

  lemma FactsStay(t: Table, t': Table, ids: seq<int>, n: nat, now: int, owner: string)
    requires SameOn(t, t', ids)
    ensures Unexpired(t, ids, n, now) ==> Unexpired(t', ids, n, now)
    ensures OwnedBy(t, ids, n, owner) ==> OwnedBy(t', ids, n, owner)
  {
    assert forall j :: 0 <= j < |ids| && ids[j] in t' ==> SameAt(t, t', ids[j]);
  }

  // What a thread knows survives any step that leaves its locked nodes alone.
  lemma KnowledgeStays(th: Thread, t: Table, t': Table)
    requires Knows(th, t)
    requires SameOn(t, t', StageIds(th.stage))
    ensures Knows(th, t')
  {
    match th.stage
    case Purging(ids, i) => FactsStay(t, t', ids, i, th.op.now, "");
    case Checking(ids, i) =>
      FactsStay(t, t', ids, |ids|, th.op.now, "");
      FactsStay(t, t', ids, i, th.op.now, th.op.entry.owner);
    case Writing(ids) => FactsStay(t, t', ids, |ids|, th.op.now, th.op.entry.owner);
    case _ =>
  }

  // Nobody else changes an entry whose shard a thread has locked for writing.
  lemma LockedEntriesStay(s: State, t: nat, c: Choice, s': State, u: nat, n: int)
    requires LocksOk(s) && StepTo(s, t, c) == Some(s')
    requires t in s.threads ==> IdsOk(s.threads[t], s.index)
    requires u in s.threads && u != t && s.threads[u].op.Writes() && ShardOf(n) in s.threads[u].held
    ensures SameAt(s.table, s'.table, n)
  {
    ChangesUnderLock(s, t, c, s', n);
  }

  lemma OthersStayOk(s: State, t: nat, c: Choice, s': State, u: nat)
    requires LocksOk(s) && StepTo(s, t, c) == Some(s') && s'.index == s.index
    requires t in s.threads ==> IdsOk(s.threads[t], s.index)
    requires u in s.threads && u != t && ThreadOk(s.threads[u], s.table, s.index, s.clock)
    ensures ThreadOk(s.threads[u], s'.table, s'.index, s'.clock)
  {
    var th := s.threads[u];
    assert Shape(th);
    assert s'.clock >= s.clock;
    if th.stage.Purging? || th.stage.Checking? || th.stage.Writing? {
      var ids := StageIds(th.stage);
      forall j | 0 <= j < |ids| ensures SameAt(s.table, s'.table, ids[j]) {
        assert ids[j] in ids;
        LockedEntriesStay(s, t, c, s', u, ids[j]);
      }
      KnowledgeStays(th, s.table, s'.table);
    }
  }

  lemma PurgeStep(t: Table, ids: seq<int>, i: nat, now: int)
    requires Unexpired(t, ids, i, now) && i < |ids|
    ensures Unexpired(if ids[i] in t && t[ids[i]].Expired(now) then t - {ids[i]} else t, ids, i + 1, now)
  {
  }

  // The stepping thread keeps its own part of the invariant.
  lemma OwnStaysOk(s: State, t: nat, c: Choice, s': State)
    requires Safe(s) && StepTo(s, t, c) == Some(s') && s'.index == s.index
    requires t in s'.threads
    ensures ThreadOk(s'.threads[t], s'.table, s'.index, s'.clock)
  {
    if c.Go? {
      GoStaysOk(s, t, s.threads[t], s');
    } else if t in s.threads {
      assert ThreadOk(s.threads[t], s.table, s.index, s.clock);
    }
  }

  lemma GoKeepsIds(s: State, t: nat, th: Thread, s': State)
    requires t in s.threads && s.threads[t] == th && Shape(th) && IdsOk(th, s.index)
    requires GoTo(s, t, th) == Some(s') && s'.index == s.index
    requires t in s'.threads
    ensures IdsOk(s'.threads[t], s'.index)
  {
    GoCarriesIds(s, t, th, s');
  }

  // A list once read is carried on unchanged; reading it takes the index as it is.
  lemma GoCarriesIds(s: State, t: nat, th: Thread, s': State)
    requires t in s.threads && s.threads[t] == th && Shape(th)
    requires GoTo(s, t, th) == Some(s') && t in s'.threads
    ensures var th' := s'.threads[t];
      && th'.op == th.op
      && (HasIds(th'.stage) ==>
            if HasIds(th.stage) then StageIds(th'.stage) == StageIds(th.stage)
            else th'.stage == HaveIds(ConflictIds(s.index, th.op.node)) && (th.op.Reserve? || th.op.Probe?))
  {
  }

  lemma GoKeepsKnowledge(s: State, t: nat, th: Thread, s': State)
    requires t in s.threads && s.threads[t] == th && Shape(th) && Knows(th, s.table)
    requires GoTo(s, t, th) == Some(s')
    requires t in s'.threads
    ensures Knows(s'.threads[t], s'.table)
  {
    if th.stage.Purging? {
      if th.stage.i < |th.stage.ids| {
        PurgeStep(s.table, th.stage.ids, th.stage.i, th.op.now);
      }
    } else if th.stage.Checking? {
      assert s'.table == s.table;
    }
  }

  lemma GoStaysOk(s: State, t: nat, th: Thread, s': State)
    requires t in s.threads && s.threads[t] == th && Shape(th) && ThreadOk(th, s.table, s.index, s.clock)
    requires GoTo(s, t, th) == Some(s') && s'.index == s.index
    requires t in s'.threads
    ensures ThreadOk(s'.threads[t], s'.table, s'.index, s'.clock)
  {
    GoKeepsIds(s, t, th, s');
    GoKeepsKnowledge(s, t, th, s');
    assert s'.threads[t].op == th.op && s'.clock == s.clock;
  }

  // The write: everything that excludes the node has been found to belong to the owner.
  lemma WriteKeepsExclusive(t: Table, index: Index, node: int, entry: Entry, ids: seq<int>)
    requires Exclusive(t, index) && Symmetric(index)
    requires ids == ConflictIds(index, node) && OwnedBy(t, ids, |ids|, entry.owner)
    ensures Exclusive(t[node := entry], index)
  {
    var t' := t[node := entry];
    forall a, b | a in t' && b in t' && a in ConflictIds(index, b) ensures t'[a].owner == t'[b].owner {
      assert b in ConflictIds(index, a);
      if a == node && b != node {
        var j :| 0 <= j < |ids| && ids[j] == b;
      } else if b == node && a != node {
        var j :| 0 <= j < |ids| && ids[j] == a;
      }
    }
  }

  lemma RemovalKeepsExclusive(t: Table, t': Table, index: Index)
    requires Exclusive(t, index) && forall n :: n in t' ==> n in t && t'[n] == t[n]
    ensures Exclusive(t', index)
  {
  }

  // Apart from the write, steps only remove entries.
  lemma OtherStepsRemove(s: State, t: nat, c: Choice, s': State)
    requires StepTo(s, t, c) == Some(s')
    requires !(c.Go? && t in s.threads && s.threads[t].stage.Writing?)
    ensures forall n :: n in s'.table ==> n in s.table && s'.table[n] == s.table[n]
  {
  }

  lemma StepKeepsExclusive(s: State, t: nat, c: Choice, s': State)
    requires Safe(s) && Symmetric(s.index) && StepTo(s, t, c) == Some(s') && s'.index == s.index
    ensures Exclusive(s'.table, s'.index)
  {
    if c.Go? && t in s.threads && s.threads[t].stage.Writing? {
      var th := s.threads[t];
      assert ThreadOk(th, s.table, s.index, s.clock);
      WriteKeepsExclusive(s.table, s.index, th.op.node, th.op.entry, th.stage.ids);
    } else {
      OtherStepsRemove(s, t, c, s');
      RemovalKeepsExclusive(s.table, s'.table, s.index);
    }
  }

  lemma StepKeepsSafe(s: State, t: nat, c: Choice, s': State)
    requires Safe(s) && Symmetric(s.index) && StepTo(s, t, c) == Some(s') && s'.index == s.index
    ensures Safe(s')
  {
    StepKeepsLocks(s, t, c, s');
    StepKeepsExclusive(s, t, c, s');
    OtherThreadsStay(s, t, c, s');
    forall u | u in s'.threads ensures ThreadOk(s'.threads[u], s'.table, s'.index, s'.clock) {
      if u == t {
        OwnStaysOk(s, t, c, s');
      } else {
        assert t in s.threads ==> ThreadOk(s.threads[t], s.table, s.index, s.clock);
        assert ThreadOk(s.threads[u], s.table, s.index, s.clock);
        OthersStayOk(s, t, c, s', u);
      }
    }
  }

  // ---- Replacing the index ---------------------------------------------------------------

  ghost predicate Reconfigures(s: State, t: nat, c: Choice) {
    c.Go? && t in s.threads && s.threads[t].op.Configure? && s.threads[t].stage.AtIndex?
  }

  // The holds fit another index, and so do the lists that operations have read already.
  ghost predicate Fits(s: State, next: Index) {
    Exclusive(s.table, next) && forall t :: t in s.threads ==> IdsOk(s.threads[t], next)
  }

  lemma OnlyReconfiguringReplaces(s: State, t: nat, c: Choice, s': State)
    requires StepTo(s, t, c) == Some(s')
    ensures Reconfigures(s, t, c) || s'.index == s.index
    ensures Reconfigures(s, t, c) ==> s'.index == s.threads[t].op.next
  {
  }

  // Replacing the index is safe exactly when everything fits the new one.
  lemma ReconfiguringIsSafeWhen(s: State, t: nat, c: Choice, s': State)
    requires Safe(s) && Reconfigures(s, t, c) && StepTo(s, t, c) == Some(s')
    ensures Safe(s') <==> Fits(s, s.threads[t].op.next)
  {
    StepKeepsLocks(s, t, c, s');
    OtherThreadsStay(s, t, c, s');
    var th := s.threads[t];
    assert ThreadOk(th, s.table, s.index, s.clock);
    assert s'.table == s.table && s'.clock == s.clock && s'.threads[t] == th.(stage := Unlocking(true));
    forall u | u in s.threads
      ensures ThreadOk(s'.threads[u], s'.table, s'.index, s'.clock) <==> IdsOk(s.threads[u], s'.index)
    {
      assert ThreadOk(s.threads[u], s.table, s.index, s.clock);
    }
  }

  // Every index is symmetric, and whatever replaces one fits.
  ghost predicate Guarded(ss: seq<State>) {
    && (forall i :: 0 <= i < |ss| ==> Symmetric(ss[i].index))
    && (forall i, j :: 0 <= i < j < |ss| && j == i + 1 ==>
          ss[j].index == ss[i].index || Fits(ss[i], ss[j].index))
  }

  lemma GuardedStepKeepsSafe(s: State, t: nat, c: Choice, s': State)
    requires Safe(s) && Symmetric(s.index) && StepTo(s, t, c) == Some(s')
    requires s'.index == s.index || Fits(s, s'.index)
    ensures Safe(s')
  {
    OnlyReconfiguringReplaces(s, t, c, s');
    if s'.index == s.index {
      StepKeepsSafe(s, t, c, s');
    } else {
      ReconfiguringIsSafeWhen(s, t, c, s');
    }
  }

  lemma {:induction false} RunIsSafe(ss: seq<State>, who: seq<nat>, how: seq<Choice>, i: nat)
    requires Run(ss, who, how) && Guarded(ss) && i < |ss|
    ensures Safe(ss[i])
  {
    if i > 0 {
      RunIsSafe(ss, who, how, i - 1);
      assert StepTo(ss[i - 1], who[i - 1], how[i - 1]) == Some(ss[i - 1 + 1]);
      GuardedStepKeepsSafe(ss[i - 1], who[i - 1], how[i - 1], ss[i]);
    }
  }

  // A run over symmetric indices is safe throughout exactly when each replacement fits.
  lemma RunIsSafeExactly(ss: seq<State>, who: seq<nat>, how: seq<Choice>)
    requires Run(ss, who, how) && forall i :: 0 <= i < |ss| ==> Symmetric(ss[i].index)
    ensures Guarded(ss) <==> forall i :: 0 <= i < |ss| ==> Safe(ss[i])
  {
    if Guarded(ss) {
      forall i | 0 <= i < |ss| ensures Safe(ss[i]) { RunIsSafe(ss, who, how, i); }
    }
    if forall i :: 0 <= i < |ss| ==> Safe(ss[i]) {
      forall i, j | 0 <= i < j < |ss| && j == i + 1
        ensures ss[j].index == ss[i].index || Fits(ss[i], ss[j].index)
      {
        OnlyReconfiguringReplaces(ss[i], who[i], how[i], ss[j]);
        if ss[j].index != ss[i].index {
          ReconfiguringIsSafeWhen(ss[i], who[i], how[i], ss[j]);
        }
      }
    }
  }

  // Mutual exclusion over all runs of any number of threads.
  lemma MutualExclusion(ss: seq<State>, who: seq<nat>, how: seq<Choice>, i: nat, a: int, b: int)
    requires Run(ss, who, how) && Guarded(ss) && i < |ss|
    requires a in ss[i].table && b in ss[i].table && a in ConflictIds(ss[i].index, b)
    ensures ss[i].table[a].owner == ss[i].table[b].owner
  {
    RunIsSafe(ss, who, how, i);
  }

  // The same in terms of the map: under one index configured from nodes whose ranges are
  // mutual, two ids in range of each other are never held by different owners.
  lemma NearNodesExclude(ss: seq<State>, who: seq<nat>, how: seq<Choice>, i: nat,
                         nodes: seq<Node>, threshold: real, k: int, id: int)
    requires Run(ss, who, how) && i < |ss|
    requires IsConfigured(nodes, threshold, ss[0].index) && forall j :: 0 <= j < |ss| ==> ss[j].index == ss[0].index
    requires threshold > 0.0 && NearIsMutual(nodes, threshold)
    requires LastOf(FieldOf(nodes, threshold), k) && HasNear(FieldOf(nodes, threshold), k, id)
    requires nodes[k].id in ss[i].table && id in ss[i].table
    ensures ss[i].table[nodes[k].id].owner == ss[i].table[id].owner
  {
    SymmetricExactly(nodes, threshold, ss[0].index);
    FixedIsGuarded(ss);
    NearConflicts(nodes, threshold, ss[0].index, k, id);
    MutualExclusion(ss, who, how, i, id, nodes[k].id);
  }

  // A run in which a symmetric index is never replaced.
  lemma FixedIsGuarded(ss: seq<State>)
    requires ss != [] && Symmetric(ss[0].index) && forall j :: 0 <= j < |ss| ==> ss[j].index == ss[0].index
    ensures Guarded(ss)
  {
  }

  lemma NearConflicts(nodes: seq<Node>, threshold: real, index: Index, k: int, id: int)
    requires threshold > 0.0 && IsConfigured(nodes, threshold, index)
    requires LastOf(FieldOf(nodes, threshold), k) && HasNear(FieldOf(nodes, threshold), k, id)
    ensures id in ConflictIds(index, nodes[k].id)
  {
  }

  // One step leaves a live hold as it is unless it acts for the hold's owner, and never
  // hands a held node to somebody else.
  lemma StepKeepsLiveHold(s: State, t: nat, c: Choice, s': State, n: int)
    requires Safe(s) && StepTo(s, t, c) == Some(s') && n in s.table
    ensures n in s'.table ==> s'.table[n].owner == s.table[n].owner
    ensures !s.table[n].Expired(s.clock) && !(t in s.threads && s.threads[t].op.ActsFor(s.table[n].owner))
      ==> n in s'.table && s'.table[n] == s.table[n]
  {
    if t in s.threads {
      var th := s.threads[t];
      assert ThreadOk(th, s.table, s.index, s.clock);
      if c.Go? && th.stage.Writing? && n == th.op.node {
        assert th.stage.ids[0] == n;
      }
    }
  }

  lemma StaysUnexpired(s: State, t: nat, c: Choice, s': State, e: Entry)
    requires StepTo(s, t, c) == Some(s') && !e.Expired(s'.clock)
    ensures !e.Expired(s.clock)
  {
    assert s.clock <= s'.clock;
  }

  // Between two points of a run a hold that has not expired persists unchanged, as long as
  // no step in between acts for its owner.
  lemma {:induction false} LiveHoldPersists(ss: seq<State>, who: seq<nat>, how: seq<Choice>, i: nat, j: nat, n: int)
    requires Run(ss, who, how) && Guarded(ss) && i <= j < |ss|
    requires n in ss[i].table && !ss[i].table[n].Expired(ss[j].clock)
    requires forall k :: i <= k < j && who[k] in ss[k].threads ==>
      !ss[k].threads[who[k]].op.ActsFor(ss[i].table[n].owner)
    ensures n in ss[j].table && ss[j].table[n] == ss[i].table[n]
    decreases j - i
  {
    if i < j {
      var k := j - 1;
      assert StepTo(ss[k], who[k], how[k]) == Some(ss[k + 1]);
      RunIsSafe(ss, who, how, k);
      StaysUnexpired(ss[k], who[k], how[k], ss[j], ss[i].table[n]);
      LiveHoldPersists(ss, who, how, i, k, n);
      StepKeepsLiveHold(ss[k], who[k], how[k], ss[j], n);
    }
  }

  // The step at which a reservation is decided: the write, or the check that fails.
  ghost predicate Decides(s: State, t: nat, c: Choice) {
    && c.Go? && t in s.threads && s.threads[t].op.Reserve?
    && var th := s.threads[t];
       (th.stage.Writing?
        || (th.stage.Checking? && th.stage.i < |th.stage.ids| && th.stage.ids[th.stage.i] in s.table
            && s.table[th.stage.ids[th.stage.i]].owner != th.op.entry.owner))
  }

  // Linearisation: the deciding step returns and leaves what a whole tryReserve would do to
  // the table at that instant.
  lemma DecisionIsAtomic(s: State, t: nat, c: Choice, s': State)
    requires Safe(s) && Decides(s, t, c) && StepTo(s, t, c) == Some(s')
    requires s.threads[t].op.node >= 0 && s.threads[t].op.entry.owner != ""
    ensures s'.threads[t].stage.Unlocking?
    ensures var op := s.threads[t].op;
      (s'.threads[t].stage.ok, s'.table) == TryReserve(s.table, s.index, op.node, op.entry, op.now)
  {
    var th := s.threads[t];
    assert ThreadOk(th, s.table, s.index, s.clock);
    var ids := ConflictIds(s.index, th.op.node);
    var purged := Purged(s.table, ids, th.op.now);
    forall n | n in ids && n in s.table ensures !s.table[n].Expired(th.op.now) {
      var j :| 0 <= j < |ids| && ids[j] == n;
    }
    TablesEqual(purged, s.table);
    if th.stage.Writing? {
      forall n | n in ids && n in s.table ensures s.table[n].owner == th.op.entry.owner {
        var j :| 0 <= j < |ids| && ids[j] == n;
      }
    } else {
      var n := ids[th.stage.i];
      assert n in ids && n in purged && purged[n].owner != th.op.entry.owner;
    }
  }

  // The acting step of a release removes the node's entry at that instant, when it has expired
  // or belongs to the owner, and nothing else.
  lemma ReleaseIsAtomic(s: State, t: nat, s': State)
    requires t in s.threads && s.threads[t].op.Free? && s.threads[t].stage.Acting? && s.threads[t].op.CanStart()
    requires StepTo(s, t, Go) == Some(s')
    ensures var op := s.threads[t].op; LosesExactly(s.table, s'.table, (n: int, e: Entry) =>
      n == op.node && (e.Expired(op.now) || e.owner == op.owner))
  {
    var op := s.threads[t].op;
    ReleaseLoses(s.table, op.node, op.owner, op.now);
  }

  // A sweep erases only what has expired or is its owner's to drop, and leaves a shard only
  // when nothing of that is left in it.
  lemma SweepErasesRightly(s: State, t: nat, n: int, s': State)
    requires StepTo(s, t, Erase(n)) == Some(s')
    ensures n in s.table && s'.table == s.table - {n}
    ensures var op := s.threads[t].op;
      s.table[n].Expired(op.now) || (op.owner != "" && s.table[n].owner == op.owner && n !in op.keep)
  {
  }

  lemma SweepLeavesNothing(s: State, t: nat, s': State, n: int)
    requires t in s.threads && s.threads[t].op.Sweep? && s.threads[t].stage.Sweeping? && s.threads[t].stage.inside
    requires StepTo(s, t, Go) == Some(s')
    requires n in s'.table && ShardOf(n) == s.threads[t].stage.shard
    ensures var op := s.threads[t].op;
      !s'.table[n].Expired(op.now) && (op.owner == "" || s'.table[n].owner != op.owner || n in op.keep)
  {
    var op := s.threads[t].op;
    assert !Dropped(n, s.table[n], op.owner, op.keep, op.now);
  }
}
