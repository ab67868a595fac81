// `TaskReachabilityFilter` without the shortest-path updater: forcing out tasks no AMR can
// serve, mapping a result back to all tasks, and trying the forced tasks again.
module ReachabilityFilter {
  import opened Util
  import opened Travel
  import opened Tasks
  import opened Placement

  predicate LegsFinite(plane: Plane, nodes: seq<int>) {
    forall i {:trigger nodes[i]} :: 0 <= i < |nodes| - 1 ==> plane.Finite(nodes[i], nodes[i + 1])
  }

  // The task has stops and each is connected to the next.
  predicate IsReachable(plane: Plane, task: Task) {
    CollectTaskNodes(task) != [] && LegsFinite(plane, CollectTaskNodes(task))
  }

  method IsTaskReachable(plane: Plane, task: Task) returns (ok: bool)
    ensures ok <==> IsReachable(plane, task)
  {
    var nodes := CollectTaskNodes(task);
    if nodes == [] { return false; }
    for i := 0 to |nodes| - 1
      invariant forall j {:trigger nodes[j]} :: 0 <= j < i ==> plane.Finite(nodes[j], nodes[j + 1])
    {
      if !plane.Knows(nodes[i]) || !plane.Knows(nodes[i + 1]) || !plane.Linked(nodes[i], nodes[i + 1]) {
        assert !plane.Finite(nodes[i], nodes[i + 1]);
        return false;
      }
    }
    ok := true;
  }

  // Some AMR's start is connected to the task's first stop.
  predicate IsServed(plane: Plane, starts: seq<int>, task: Task) {
    exists i :: 0 <= i < |starts| && plane.Finite(starts[i], ResolveEndpoints(task).start)
  }

  predicate Accepts(plane: Plane, starts: seq<int>, task: Task) {
    IsReachable(plane, task) && (starts == [] || IsServed(plane, starts, task))
  }

  method AmrReaches(plane: Plane, starts: seq<int>, task: Task) returns (ok: bool)
    ensures ok <==> starts == [] || IsServed(plane, starts, task)
  {
    ok := starts == [];
    var target := ResolveEndpoints(task).start;
    for i := 0 to |starts|
      invariant !ok ==> forall j :: 0 <= j < i ==> !plane.Finite(starts[j], target)
      invariant ok ==> starts == [] || IsServed(plane, starts, task)
    {
      if starts[i] >= 0 && target >= 0 && plane.Linked(starts[i], target) {
        return true;
      }
    }
  }

  datatype FilterResult = FilterResult(
    filteredTasks: seq<Task>,
    filteredToOriginal: seq<int>,
    originalToFiltered: seq<int>,
    forcedTaskIndices: seq<int>)

  // The indices below n whose task is accepted (or not), in order.
  ghost predicate Lists(plane: Plane, starts: seq<int>, tasks: seq<Task>, n: nat, accepted: bool, s: seq<int>)
    requires n <= |tasks|
  {
    StrictlyAscending(s) && forall i :: i in s <==> 0 <= i < n && Accepts(plane, starts, tasks[i]) == accepted
  }

  lemma ListsNext(plane: Plane, starts: seq<int>, tasks: seq<Task>, n: nat, accepted: bool, s: seq<int>)
    requires n < |tasks| && Lists(plane, starts, tasks, n, accepted, s)
    ensures Lists(plane, starts, tasks, n + 1, accepted, if Accepts(plane, starts, tasks[n]) == accepted then s + [n] else s)
  {
    forall i | 0 <= i < |s| ensures s[i] < n {
      assert s[i] in s;
    }
  }

  // The filtered tasks are the accepted ones, and the two index maps invert each other.
  ghost predicate TablesMatch(tasks: seq<Task>, r: FilterResult) {
    && |r.filteredTasks| == |r.filteredToOriginal| && |r.originalToFiltered| == |tasks|
    && (forall k {:trigger r.filteredTasks[k]} {:trigger r.filteredToOriginal[k]} :: 0 <= k < |r.filteredTasks| ==>
          IsTask(tasks, r.filteredToOriginal[k]) && r.filteredTasks[k] == tasks[r.filteredToOriginal[k]])
    && (forall i {:trigger r.originalToFiltered[i]} :: 0 <= i < |tasks| ==> Inverts(r, i))
  }

  predicate Inverts(r: FilterResult, i: int) {
    && 0 <= i < |r.originalToFiltered|
    && var k := r.originalToFiltered[i];
      if i in r.filteredToOriginal then 0 <= k < |r.filteredToOriginal| && r.filteredToOriginal[k] == i else k == -1
  }

  // The first n tasks are split into accepted and forced ones.
  ghost predicate IsSplit(plane: Plane, starts: seq<int>, tasks: seq<Task>, n: nat, r: FilterResult)
    requires n <= |tasks|
  {
    && Lists(plane, starts, tasks, n, true, r.filteredToOriginal)
    && Lists(plane, starts, tasks, n, false, r.forcedTaskIndices)
    && TablesMatch(tasks, r)
  }

  function Accept(r: FilterResult, task: Task, n: nat): FilterResult
    requires n < |r.originalToFiltered|
  {
    FilterResult(r.filteredTasks + [task], r.filteredToOriginal + [n], r.originalToFiltered[n := |r.filteredTasks|],
                 r.forcedTaskIndices)
  }

  lemma AcceptKeepsTables(tasks: seq<Task>, n: nat, r: FilterResult)
    requires n < |tasks| && TablesMatch(tasks, r) && n !in r.filteredToOriginal
    ensures TablesMatch(tasks, Accept(r, tasks[n], n))
  {
    var r' := Accept(r, tasks[n], n);
    forall i | 0 <= i < |tasks| ensures Inverts(r', i) {
      assert Inverts(r, i);
    }
  }

  function Force(r: FilterResult, n: nat): FilterResult {
    FilterResult(r.filteredTasks, r.filteredToOriginal, r.originalToFiltered, r.forcedTaskIndices + [n])
  }

  lemma ForceKeepsTables(tasks: seq<Task>, n: nat, r: FilterResult)
    requires TablesMatch(tasks, r)
    ensures TablesMatch(tasks, Force(r, n))
  {
    forall i | 0 <= i < |tasks| ensures Inverts(Force(r, n), i) {
      assert Inverts(r, i);
    }
  }

  lemma StartIsSplit(plane: Plane, starts: seq<int>, tasks: seq<Task>, r: FilterResult)
    requires r == FilterResult([], [], seq(|tasks|, _ => -1), [])
    ensures IsSplit(plane, starts, tasks, 0, r)
  {
    forall i | 0 <= i < |tasks| ensures Inverts(r, i) {
      assert r.originalToFiltered[i] == -1;
    }
  }

  method FilterTasksByReachability(plane: Plane, tasks: seq<Task>, starts: seq<int>) returns (r: FilterResult)
    ensures IsSplit(plane, starts, tasks, |tasks|, r)
  {
    r := FilterResult([], [], seq(|tasks|, _ => -1), []);
    StartIsSplit(plane, starts, tasks, r);
    for idx := 0 to |tasks|
      invariant IsSplit(plane, starts, tasks, idx, r)
    {
      ListsNext(plane, starts, tasks, idx, true, r.filteredToOriginal);
      ListsNext(plane, starts, tasks, idx, false, r.forcedTaskIndices);
      var ok := IsTaskReachable(plane, tasks[idx]);
      if ok {
        ok := AmrReaches(plane, starts, tasks[idx]);
      }
      if ok {
        AcceptKeepsTables(tasks, idx, r);
        r := Accept(r, tasks[idx], idx);
      } else {
        ForceKeepsTables(tasks, idx, r);
        r := Force(r, idx);
      }
    }
  }

  function Remap(f2o: seq<int>, idx: int): int {
    if 0 <= idx < |f2o| then f2o[idx] else -1
  }

  function RemapRow(f2o: seq<int>, row: seq<int>): seq<int> {
    seq(|row|, i requires 0 <= i < |row| => Remap(f2o, row[i]))
  }

  function RemapRows(f2o: seq<int>, rows: Rows): Rows {
    seq(|rows|, i requires 0 <= i < |rows| => RemapRow(f2o, rows[i]))
  }

  // Unallocated indices outside the table or the task list disappear.
  function RemapIds(f2o: seq<int>, ids: seq<int>, n: nat): seq<int> {
    if ids == [] then []
    else
      var front, last := ids[..|ids| - 1], Remap(f2o, ids[|ids| - 1]);
      RemapIds(f2o, front, n) + (if 0 <= last < n then [last] else [])
  }

  method RemapAllocationToOriginal(rows0: Rows, unallocated0: seq<int>, f2o: seq<int>, n: nat)
      returns (rows: Rows, unallocated: seq<int>)
    ensures rows == RemapRows(f2o, rows0) && unallocated == RemapIds(f2o, unallocated0, n)
  {
    rows := rows0;
    for i := 0 to |rows|
      invariant |rows| == |rows0|
      invariant forall k :: 0 <= k < |rows| ==> rows[k] == if k < i then RemapRow(f2o, rows0[k]) else rows0[k]
    {
      var chain := rows[i];
      for j := 0 to |chain|
        invariant |chain| == |rows0[i]|
        invariant forall k :: 0 <= k < |chain| ==> chain[k] == if k < j then Remap(f2o, rows0[i][k]) else rows0[i][k]
      {
        chain := chain[j := Remap(f2o, chain[j])];
      }
      assert chain == RemapRow(f2o, rows0[i]);
      rows := rows[i := chain];
    }
    unallocated := [];
    for j := 0 to |unallocated0|
      invariant unallocated == RemapIds(f2o, unallocated0[..j], n)
    {
      assert unallocated0[..j + 1][..j] == unallocated0[..j];
      var mapped := Remap(f2o, unallocated0[j]);
      if 0 <= mapped < n { unallocated := unallocated + [mapped]; }
    }
    assert unallocated0[..|unallocated0|] == unallocated0;
  }

  method AppendForcedTasks(unallocated0: seq<int>, forced: seq<int>) returns (unallocated: seq<int>)
    ensures StrictlyAscending(unallocated)
    ensures forall t :: t in unallocated <==> t in unallocated0 || (t in forced && t >= 0)
  {
    unallocated := unallocated0;
    for k := 0 to |forced|
      invariant forall t :: t in unallocated <==> t in unallocated0 || (t in forced[..k] && t >= 0)
    {
      PrefixGrows(forced, k);
      if forced[k] >= 0 { unallocated := unallocated + [forced[k]]; }
    }
    assert forced[..|forced|] == forced;
    unallocated := SortUnique(unallocated);
  }

  // Remapping along an ascending table moves every count with its index.
  ghost predicate IsTable(f2o: seq<int>, n: nat) {
    StrictlyAscending(f2o) && forall k :: 0 <= k < |f2o| ==> 0 <= f2o[k] < n
  }

  lemma {:induction false} RemapRowCounts(f2o: seq<int>, n: nat, row: seq<int>, k: nat)
    requires IsTable(f2o, n) && k < |f2o|
    ensures multiset(RemapRow(f2o, row))[f2o[k]] == multiset(row)[k]
  {
    if row != [] {
      var front, last := row[..|row| - 1], row[|row| - 1];
      RemapRowCounts(f2o, n, front, k);
      assert row == front + [last];
      assert RemapRow(f2o, row) == RemapRow(f2o, front) + [Remap(f2o, last)];
      assert Remap(f2o, last) == f2o[k] <==> last == k;
    }
  }

  lemma {:induction false} RemapRowsCounts(f2o: seq<int>, n: nat, rows: Rows, k: nat)
    requires IsTable(f2o, n) && k < |f2o|
    ensures Tally(RemapRows(f2o, rows))[f2o[k]] == Tally(rows)[k]
  {
    if rows != [] {
      var m := |rows| - 1;
      RemapRowsCounts(f2o, n, rows[..m], k);
      RemapRowCounts(f2o, n, rows[m], k);
      assert RemapRows(f2o, rows)[..m] == RemapRows(f2o, rows[..m]);
    }
  }

  lemma {:induction false} RemapIdsCounts(f2o: seq<int>, n: nat, ids: seq<int>, k: nat)
    requires IsTable(f2o, n) && k < |f2o|
    ensures f2o[k] in RemapIds(f2o, ids, n) <==> k in ids
  {
    if ids != [] {
      var front, last := ids[..|ids| - 1], ids[|ids| - 1];
      RemapIdsCounts(f2o, n, front, k);
      assert ids == front + [last];
      assert Remap(f2o, last) == f2o[k] <==> last == k;
    }
  }

  lemma RemapOnlyTable(f2o: seq<int>, n: nat, rows: Rows, ids: seq<int>, t: int)
    requires t >= 0 && t !in f2o
    ensures Tally(RemapRows(f2o, rows))[t] == 0 && t !in RemapIds(f2o, ids, n)
  {
    RemapRowsOnlyTable(f2o, rows, t);
    RemapIdsOnlyTable(f2o, n, ids, t);
  }

  lemma RemapRowsOnlyTable(f2o: seq<int>, rows: Rows, t: int)
    requires t >= 0 && t !in f2o
    ensures Tally(RemapRows(f2o, rows))[t] == 0
  {
    InTally(RemapRows(f2o, rows), t);
    forall i | 0 <= i < |rows| ensures t !in RemapRows(f2o, rows)[i] {
      assert RemapRows(f2o, rows)[i] == RemapRow(f2o, rows[i]);
    }
    assert t !in Tally(RemapRows(f2o, rows));
  }

  lemma {:induction false} RemapIdsOnlyTable(f2o: seq<int>, n: nat, ids: seq<int>, t: int)
    requires t >= 0 && t !in f2o
    ensures t !in RemapIds(f2o, ids, n)
  {
    if ids != [] { RemapIdsOnlyTable(f2o, n, ids[..|ids| - 1], t); }
  }

  // A result that names every accepted task exactly once becomes, mapped back and joined with
  // the forced tasks, one that names every task exactly once.
  lemma RoundTripCoversAllTasks(plane: Plane, starts: seq<int>, tasks: seq<Task>, r: FilterResult,
                                rows: Rows, unallocated: seq<int>, unallocated': seq<int>, t: int)
    requires IsSplit(plane, starts, tasks, |tasks|, r) && IsTask(tasks, t)
    requires forall k :: 0 <= k < |r.filteredTasks| ==> Tally(rows)[k] + multiset(unallocated)[k] == 1
    requires StrictlyAscending(unallocated')
    requires forall i :: i in unallocated' <==>
      i in RemapIds(r.filteredToOriginal, unallocated, |tasks|) || (i in r.forcedTaskIndices && i >= 0)
    ensures Tally(RemapRows(r.filteredToOriginal, rows))[t] + multiset(unallocated')[t] == 1
  {
    var f2o := r.filteredToOriginal;
    assert Inverts(r, t);
    AscendingCounts(unallocated', t);
    if t in f2o {
      var k := r.originalToFiltered[t];
      RemapRowsCounts(f2o, |tasks|, rows, k);
      RemapIdsCounts(f2o, |tasks|, unallocated, k);
      CountMeansIn(unallocated, k);
    } else {
      RemapOnlyTable(f2o, |tasks|, rows, unallocated, t);
    }
  }
}
