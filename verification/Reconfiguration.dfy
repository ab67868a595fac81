// A run in which replacing the conflict index breaks the exclusion: two operations reserve
// two nodes that do not conflict yet, and then an index is configured in which they do.
module Reconfiguration {
  import opened Util
  import opened SpatialHash
  import opened ConflictIndex
  import opened ReservationSpec
  import opened ReservationProtocol
  import opened ReservationSafety

  // Steps over symmetric indices lead from state a to state b.
  ghost predicate Path(ss: seq<State>, who: seq<nat>, how: seq<Choice>, a: State, b: State) {
    && Linked(ss, who, how) && ss[0] == a && ss[|ss| - 1] == b
    && forall i :: 0 <= i < |ss| ==> Symmetric(ss[i].index)
  }

  ghost predicate Reaches(a: State, b: State) {
    exists ss, who, how :: Path(ss, who, how, a, b)
  }

  lemma ReachesItself(a: State)
    requires Symmetric(a.index)
    ensures Reaches(a, a)
  {
    assert Path([a], [], [], a, a);
  }

  lemma ReachesNext(a: State, b: State, t: nat, c: Choice, d: State)
    requires Reaches(a, b) && StepTo(b, t, c) == Some(d) && Symmetric(d.index)
    ensures Reaches(a, d)
  {
    var ss, who, how :| Path(ss, who, how, a, b);
    var ss', who', how' := ss + [d], who + [t], how + [c];
    forall i | 0 <= i < |who'| ensures StepTo(ss'[i], who'[i], how'[i]) == Some(ss'[i + 1]) {
      if i < |who| { assert StepTo(ss[i], who[i], how[i]) == Some(ss[i + 1]); }
    }
    assert Path(ss', who', how', a, d);
  }

  // A state in which one operation is under way.
  function During(s: State, t: nat, op: Op, stage: Stage, held: set<int>): State {
    s.(threads := map[t := Thread(op, stage, held)])
  }

  // One step of the only operation under way.
  lemma NextStage(a: State, s: State, t: nat, op: Op, stage: Stage, held: set<int>, d: State)
    requires Reaches(a, During(s, t, op, stage, held)) && Symmetric(d.index)
    requires var next := GoTo(During(s, t, op, stage, held), t, Thread(op, stage, held));
      next.Some? && SameState(next.value, d)
    ensures Reaches(a, d)
  {
    SameStatesEqual(GoTo(During(s, t, op, stage, held), t, Thread(op, stage, held)).value, d);
    ReachesNext(a, During(s, t, op, stage, held), t, Go, d);
  }

  ghost predicate SameState(s: State, d: State) {
    && s.clock == d.clock && s.table == d.table && s.index == d.index
    && (forall u :: u in s.threads <==> u in d.threads)
    && (forall u :: u in s.threads ==> SameThread(s.threads[u], d.threads[u]))
  }

  ghost predicate SameThread(x: Thread, y: Thread) {
    x.op == y.op && x.stage == y.stage && forall l :: l in x.held <==> l in y.held
  }

  lemma SameStatesEqual(s: State, d: State)
    requires SameState(s, d)
    ensures s == d
  {
    if s.threads != d.threads {
      var u := MapDifference(s.threads, d.threads);
      assert SameThread(s.threads[u], d.threads[u]);
      if s.threads[u].held != d.threads[u].held {
        var l := SetDifference(s.threads[u].held, d.threads[u].held);
      }
    }
  }

  lemma PlanOfOne(n: int)
    ensures Plan([n]) == [ShardOf(n)]
  {
    assert ShardsOf([n]) == [ShardOf(n)];
    AscendingUnique(Plan([n]), [ShardOf(n)]);
  }

  lemma ReadsItsList(a: State, s: State, t: nat, op: Op)
    requires Reaches(a, s) && s.threads == map[] && s.index == map[]
    requires op.Reserve? && op.CanStart() && op.now == s.clock
    ensures Reaches(a, During(s, t, op, HaveIds([op.node]), {INDEX_LOCK}))
  {
    NothingConflicts();
    assert ConflictIds(s.index, op.node) == [op.node];
    ReachesNext(a, s, t, Start(op), During(s, t, op, WantIndex, {}));
    NextStage(a, s, t, op, WantIndex, {}, During(s, t, op, AtIndex, {INDEX_LOCK}));
    NextStage(a, s, t, op, AtIndex, {INDEX_LOCK}, During(s, t, op, HaveIds([op.node]), {INDEX_LOCK}));
  }

  lemma PlansItsLocks(a: State, s: State, t: nat, op: Op)
    requires Symmetric(s.index) && op.Reserve?
    requires Reaches(a, During(s, t, op, HaveIds([op.node]), {INDEX_LOCK}))
    ensures Reaches(a, During(s, t, op, Locking([op.node], [ShardOf(op.node)], 0), {}))
  {
    var ids, shard := [op.node], ShardOf(op.node);
    PlanOfOne(op.node);
    NextStage(a, s, t, op, HaveIds(ids), {INDEX_LOCK}, During(s, t, op, Locking(ids, [shard], 0), {}));
  }

  lemma TakesItsShard(a: State, s: State, t: nat, op: Op, ids: seq<int>, shard: int)
    requires Symmetric(s.index) && op.Reserve?
    requires Reaches(a, During(s, t, op, Locking(ids, [shard], 0), {}))
    ensures Reaches(a, During(s, t, op, Locking(ids, [shard], 1), {shard}))
  {
    NextStage(a, s, t, op, Locking(ids, [shard], 0), {}, During(s, t, op, Locking(ids, [shard], 1), {shard}));
  }

  lemma StartsPurging(a: State, s: State, t: nat, op: Op, held: set<int>, ids: seq<int>)
    requires Symmetric(s.index) && op.Reserve? && |ids| == 1
    requires Reaches(a, During(s, t, op, Locking(ids, [ShardOf(ids[0])], 1), held))
    ensures Reaches(a, During(s, t, op, Purging(ids, 0), held))
  {
    NextStage(a, s, t, op, Locking(ids, [ShardOf(ids[0])], 1), held, During(s, t, op, Purging(ids, 0), held));
  }

  lemma PurgesNothing(a: State, s: State, t: nat, op: Op, held: set<int>, ids: seq<int>)
    requires Symmetric(s.index) && op.Reserve? && |ids| == 1 && ids[0] !in s.table
    requires Reaches(a, During(s, t, op, Purging(ids, 0), held))
    ensures Reaches(a, During(s, t, op, Purging(ids, 1), held))
  {
    NextStage(a, s, t, op, Purging(ids, 0), held, During(s, t, op, Purging(ids, 1), held));
  }

  lemma StartsChecking(a: State, s: State, t: nat, op: Op, held: set<int>, ids: seq<int>)
    requires Symmetric(s.index) && op.Reserve? && |ids| == 1
    requires Reaches(a, During(s, t, op, Purging(ids, 1), held))
    ensures Reaches(a, During(s, t, op, Checking(ids, 0), held))
  {
    NextStage(a, s, t, op, Purging(ids, 1), held, During(s, t, op, Checking(ids, 0), held));
  }

  lemma FindsItFree(a: State, s: State, t: nat, op: Op, held: set<int>, ids: seq<int>)
    requires Symmetric(s.index) && op.Reserve? && |ids| == 1 && ids[0] !in s.table
    requires Reaches(a, During(s, t, op, Checking(ids, 0), held))
    ensures Reaches(a, During(s, t, op, Checking(ids, 1), held))
  {
    NextStage(a, s, t, op, Checking(ids, 0), held, During(s, t, op, Checking(ids, 1), held));
  }

  lemma StartsWriting(a: State, s: State, t: nat, op: Op, held: set<int>, ids: seq<int>)
    requires Symmetric(s.index) && op.Reserve? && |ids| == 1
    requires Reaches(a, During(s, t, op, Checking(ids, 1), held))
    ensures Reaches(a, During(s, t, op, Writing(ids), held))
  {
    NextStage(a, s, t, op, Checking(ids, 1), held, During(s, t, op, Writing(ids), held));
  }

  lemma WritesAndLeaves(a: State, s: State, t: nat, op: Op, shard: int)
    requires Symmetric(s.index) && op.Reserve? && s.threads == map[]
    requires Reaches(a, During(s, t, op, Writing([op.node]), {shard}))
    ensures Reaches(a, s.(table := s.table[op.node := op.entry]))
  {
    var s' := s.(table := s.table[op.node := op.entry]);
    var leaving := During(s', t, op, Unlocking(true), {shard});
    NextStage(a, s, t, op, Writing([op.node]), {shard}, leaving);
    var left := StepTo(leaving, t, Unlock(shard)).value;
    SameStatesEqual(left, During(s', t, op, Unlocking(true), {}));
    ReachesNext(a, leaving, t, Unlock(shard), left);
    NextStage(a, s', t, op, Unlocking(true), {}, s');
  }

  lemma Reserves(a: State, s: State, t: nat, op: Op)
    requires Reaches(a, s) && s.threads == map[] && s.index == map[]
    requires op.Reserve? && op.CanStart() && op.now == s.clock && op.node !in s.table
    ensures Reaches(a, s.(table := s.table[op.node := op.entry]))
  {
    NothingConflicts();
    ReadsItsList(a, s, t, op);
    var ids, shard := [op.node], ShardOf(op.node);
    PlansItsLocks(a, s, t, op);
    TakesItsShard(a, s, t, op, ids, shard);
    StartsPurging(a, s, t, op, {shard}, ids);
    PurgesNothing(a, s, t, op, {shard}, ids);
    StartsChecking(a, s, t, op, {shard}, ids);
    FindsItFree(a, s, t, op, {shard}, ids);
    StartsWriting(a, s, t, op, {shard}, ids);
    WritesAndLeaves(a, s, t, op, shard);
  }

  lemma Configures(a: State, s: State, t: nat, op: Op)
    requires Reaches(a, s) && s.threads == map[] && Symmetric(s.index)
    requires op.Configure? && op.now == s.clock && Symmetric(op.next)
    ensures Reaches(a, During(s.(index := op.next), t, op, Unlocking(true), {INDEX_LOCK}))
  {
    ReachesNext(a, s, t, Start(op), During(s, t, op, WantIndex, {}));
    NextStage(a, s, t, op, WantIndex, {}, During(s, t, op, AtIndex, {INDEX_LOCK}));
    NextStage(a, s, t, op, AtIndex, {INDEX_LOCK}, During(s.(index := op.next), t, op, Unlocking(true), {INDEX_LOCK}));
  }

  lemma NothingConflicts()
    ensures Symmetric(map[])
  {
    assert forall a, b :: a in ConflictIds(map[], b) ==> a == b;
  }

  // Whatever two nodes the new index makes conflict, some run has reserved them for two
  // owners before it is configured.
  lemma ReconfiguringBreaksExclusion(next: Index, m: int, n: int, x: Entry, y: Entry)
      returns (ss: seq<State>, who: seq<nat>, how: seq<Choice>)
    requires m >= 0 && n >= 0 && m != n && m in ConflictIds(next, n) && Symmetric(next)
    requires x.owner != "" && y.owner != "" && x.owner != y.owner
    ensures Run(ss, who, how) && forall i :: 0 <= i < |ss| ==> Symmetric(ss[i].index)
    ensures var s := ss[|ss| - 1]; s.index == next && !Exclusive(s.table, next)
  {
    var s0 := State(0, map[], map[], map[]);
    var s1 := s0.(table := map[m := x]);
    var s2 := s0.(table := map[m := x, n := y]);
    NothingConflicts();
    ReachesItself(s0);
    Reserves(s0, s0, 0, Reserve(m, x, 0));
    assert s0.table[m := x] == s1.table;
    Reserves(s0, s1, 0, Reserve(n, y, 0));
    assert s1.table[n := y] == s2.table;
    var op := Configure(next, 0);
    Configures(s0, s2, 0, op);
    ss, who, how :| Path(ss, who, how, s0, During(s2.(index := next), 0, op, Unlocking(true), {INDEX_LOCK}));
    assert m in s2.table && n in s2.table;
  }
}
