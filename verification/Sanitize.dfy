// `SanitizeAllocationResult` without the shortest-path updater: tasks an AMR cannot reach in
// its chain are taken out and put back where they add least.
module Sanitize {
  import opened Util
  import opened Travel
  import opened Tasks
  import opened Placement

  function Ends(tasks: seq<Task>, t: int): Endpoints
    requires IsTask(tasks, t)
  {
    ExtractTaskEndpoints(tasks[t])
  }

  predicate LegOk(plane: Plane, cur: int, ends: Endpoints) {
    && plane.Finite(cur, ends.start)
    && (ends.start >= 0 && ends.end >= 0 && ends.start != ends.end ==> plane.Finite(ends.start, ends.end))
  }

  // Every leg of the chain, from the AMR's node through each task, is connected.
  predicate Feasible(plane: Plane, tasks: seq<Task>, cur: int, chain: seq<int>)
    decreases chain
  {
    chain != [] ==>
      (IsTask(tasks, chain[0])
      && LegOk(plane, cur, Ends(tasks, chain[0]))
      && Feasible(plane, tasks, Ends(tasks, chain[0]).end, chain[1..]))
  }

  // What the filter keeps and removes of a row, from left to right.
  function Kept(plane: Plane, tasks: seq<Task>, cur: int, row: seq<int>): seq<int>
    decreases row
  {
    if row == [] then []
    else if !IsTask(tasks, row[0]) then Kept(plane, tasks, cur, row[1..])
    else
      var ends := Ends(tasks, row[0]);
      if LegOk(plane, cur, ends) then [row[0]] + Kept(plane, tasks, ends.end, row[1..])
      else Kept(plane, tasks, cur, row[1..])
  }

  function Removed(plane: Plane, tasks: seq<Task>, cur: int, row: seq<int>): (r: seq<int>)
    ensures forall t :: t in r ==> IsTask(tasks, t)
    decreases row
  {
    if row == [] then []
    else if !IsTask(tasks, row[0]) then Removed(plane, tasks, cur, row[1..])
    else
      var ends := Ends(tasks, row[0]);
      if LegOk(plane, cur, ends) then Removed(plane, tasks, ends.end, row[1..])
      else [row[0]] + Removed(plane, tasks, cur, row[1..])
  }

  lemma {:induction false} KeptIsFeasible(plane: Plane, tasks: seq<Task>, cur: int, row: seq<int>)
    ensures Feasible(plane, tasks, cur, Kept(plane, tasks, cur, row))
    decreases row
  {
    if row != [] {
      if IsTask(tasks, row[0]) && LegOk(plane, cur, Ends(tasks, row[0])) {
        KeptIsFeasible(plane, tasks, Ends(tasks, row[0]).end, row[1..]);
      } else {
        KeptIsFeasible(plane, tasks, cur, row[1..]);
      }
    }
  }

  // A further task is kept exactly when it can be reached from where the kept ones end and its
  // own ends are connected.
  lemma {:induction false} KeptNext(plane: Plane, tasks: seq<Task>, cur: int, row: seq<int>, t: int)
    ensures var kept := Kept(plane, tasks, cur, row);
      Kept(plane, tasks, cur, row + [t]) ==
        if IsTask(tasks, t) && LegOk(plane, NodeBefore(tasks, cur, kept, |kept|), Ends(tasks, t)) then kept + [t] else kept
    ensures var kept := Kept(plane, tasks, cur, row);
      Removed(plane, tasks, cur, row + [t]) == Removed(plane, tasks, cur, row)
        + if IsTask(tasks, t) && !LegOk(plane, NodeBefore(tasks, cur, kept, |kept|), Ends(tasks, t)) then [t] else []
    decreases row
  {
    var more := row + [t];
    if row == [] {
      assert more[1..] == [];
    } else {
      assert more[0] == row[0] && more[1..] == row[1..] + [t];
      if IsTask(tasks, row[0]) && LegOk(plane, cur, Ends(tasks, row[0])) {
        var next := Ends(tasks, row[0]).end;
        KeptNext(plane, tasks, next, row[1..], t);
        LastNodeInRest(tasks, cur, row[0], Kept(plane, tasks, next, row[1..]));
      } else {
        KeptNext(plane, tasks, cur, row[1..], t);
      }
    }
  }

  lemma LastNodeInRest(tasks: seq<Task>, cur: int, first: int, rest: seq<int>)
    requires IsTask(tasks, first)
    ensures NodeBefore(tasks, cur, [first] + rest, |rest| + 1) == NodeBefore(tasks, Ends(tasks, first).end, rest, |rest|)
  {
    assert rest != [] ==> ([first] + rest)[|rest|] == rest[|rest| - 1];
  }

  lemma {:induction false} FeasibleIsKept(plane: Plane, tasks: seq<Task>, cur: int, chain: seq<int>)
    requires Feasible(plane, tasks, cur, chain)
    ensures Kept(plane, tasks, cur, chain) == chain && Removed(plane, tasks, cur, chain) == []
    decreases chain
  {
    if chain != [] {
      FeasibleIsKept(plane, tasks, Ends(tasks, chain[0]).end, chain[1..]);
    }
  }

  lemma {:induction false} KeptPlusRemoved(plane: Plane, tasks: seq<Task>, cur: int, row: seq<int>)
    ensures multiset(Kept(plane, tasks, cur, row)) + multiset(Removed(plane, tasks, cur, row)) == multiset(TasksIn(tasks, row))
    decreases row
  {
    if row != [] {
      if IsTask(tasks, row[0]) && LegOk(plane, cur, Ends(tasks, row[0])) {
        KeptPlusRemoved(plane, tasks, Ends(tasks, row[0]).end, row[1..]);
      } else {
        KeptPlusRemoved(plane, tasks, cur, row[1..]);
      }
    }
  }

  method FilterRow(plane: Plane, tasks: seq<Task>, start: int, row: seq<int>) returns (kept: seq<int>, removed: seq<int>)
    ensures kept == Kept(plane, tasks, start, row) && removed == Removed(plane, tasks, start, row)
  {
    kept, removed := [], [];
    var cur := start;
    for i := 0 to |row|
      invariant kept + Kept(plane, tasks, cur, row[i..]) == Kept(plane, tasks, start, row)
      invariant removed + Removed(plane, tasks, cur, row[i..]) == Removed(plane, tasks, start, row)
    {
      assert row[i..][0] == row[i] && row[i..][1..] == row[i + 1..];
      if IsTask(tasks, row[i]) {
        var ends := Ends(tasks, row[i]);
        if LegOk(plane, cur, ends) {
          kept := kept + [row[i]];
          cur := ends.end;
        } else {
          removed := removed + [row[i]];
        }
      }
    }
  }

  // The added seconds of t at a place; None when a leg is not connected.
  function Delta(plane: Plane, tasks: seq<Task>, starts: seq<int>, rows: Rows, t: int): Offers {
    (ai: int, pos: int) =>
      if !(IsTask(tasks, t) && 0 <= ai < |starts| && ai < |rows| && 0 <= pos <= |rows[ai]|) then None
      else DeltaIn(plane, tasks, starts[ai], rows[ai], pos, Ends(tasks, t))
  }

  function OffersFor(plane: Plane, tasks: seq<Task>, starts: seq<int>): OfferTable {
    (rows: Rows, t: int) => Delta(plane, tasks, starts, rows, t)
  }

  function NodeBefore(tasks: seq<Task>, start: int, chain: seq<int>, pos: nat): int
    requires pos <= |chain|
  {
    if pos == 0 then start else if IsTask(tasks, chain[pos - 1]) then Ends(tasks, chain[pos - 1]).end else -1
  }

  function NodeAfter(tasks: seq<Task>, chain: seq<int>, pos: nat): int
    requires pos <= |chain|
  {
    if pos < |chain| && IsTask(tasks, chain[pos]) then Ends(tasks, chain[pos]).start else -1
  }

  function DeltaIn(plane: Plane, tasks: seq<Task>, start: int, chain: seq<int>, pos: nat, ends: Endpoints): Option<real>
    requires pos <= |chain|
  {
    var prevEnd, nextStart := NodeBefore(tasks, start, chain, pos), NodeAfter(tasks, chain, pos);
    var c1 := plane.Seconds(prevEnd, ends.start);
    var c2 := plane.Seconds(ends.start, ends.end);
    var c3 := if nextStart >= 0 then plane.Seconds(ends.end, nextStart) else Some(0.0);
    if c1.None? || c2.None? || c3.None? then None
    else
      var base := if nextStart >= 0 then plane.Seconds(prevEnd, nextStart) else Some(0.0);
      Some(c1.value + c2.value + c3.value - (if base.None? then 0.0 else base.value))
  }

  // The legs around the place are connected.
  predicate LegsConnect(plane: Plane, tasks: seq<Task>, start: int, chain: seq<int>, pos: nat, ends: Endpoints)
    requires pos <= |chain|
  {
    var nextStart := NodeAfter(tasks, chain, pos);
    && plane.Finite(NodeBefore(tasks, start, chain, pos), ends.start) && plane.Finite(ends.start, ends.end)
    && (nextStart >= 0 ==> plane.Finite(ends.end, nextStart))
  }

  lemma OfferMeansLegsConnect(plane: Plane, tasks: seq<Task>, start: int, chain: seq<int>, pos: nat, ends: Endpoints)
    requires pos <= |chain|
    ensures DeltaIn(plane, tasks, start, chain, pos, ends).Some? <==> LegsConnect(plane, tasks, start, chain, pos, ends)
  {
  }

  // Some AMR's start is connected to the task, and the task's own ends are connected.
  predicate Placeable(plane: Plane, starts: seq<int>, ends: Endpoints) {
    plane.Finite(ends.start, ends.end) && exists ai :: 0 <= ai < |starts| && plane.Finite(starts[ai], ends.start)
  }

  predicate CanBePlaced(plane: Plane, tasks: seq<Task>, starts: seq<int>, t: int) {
    IsTask(tasks, t) && Placeable(plane, starts, Ends(tasks, t))
  }

  // In a feasible chain whatever is connected to the node before a position is connected to
  // the chain's start.
  lemma {:induction false} BeforeIsLinked(plane: Plane, tasks: seq<Task>, cur: int, chain: seq<int>, pos: nat, x: int)
    requires Feasible(plane, tasks, cur, chain) && pos <= |chain|
    requires plane.Finite(NodeBefore(tasks, cur, chain, pos), x)
    ensures plane.Finite(cur, x)
    decreases pos
  {
    if pos > 0 {
      var ends := Ends(tasks, chain[0]);
      assert pos > 1 ==> chain[1..][pos - 2] == chain[pos - 1];
      BeforeIsLinked(plane, tasks, ends.end, chain[1..], pos - 1, x);
      if ends.start != ends.end {
        plane.FiniteTransitive(cur, ends.start, ends.end);
      }
      plane.FiniteTransitive(cur, ends.end, x);
    }
  }

  // A task has an offer in a feasible chain exactly when the chain's start is connected to it.
  lemma OfferNeedsLink(plane: Plane, tasks: seq<Task>, start: int, chain: seq<int>, pos: nat, ends: Endpoints)
    requires Feasible(plane, tasks, start, chain) && pos <= |chain|
    requires LegsConnect(plane, tasks, start, chain, pos, ends)
    ensures plane.Finite(start, ends.start) && plane.Finite(ends.start, ends.end)
  {
    BeforeIsLinked(plane, tasks, start, chain, pos, ends.start);
  }

  lemma LinkGivesOffer(plane: Plane, tasks: seq<Task>, start: int, chain: seq<int>, ends: Endpoints)
    requires Feasible(plane, tasks, start, chain)
    requires plane.Finite(start, ends.start) && plane.Finite(ends.start, ends.end)
    ensures LegsConnect(plane, tasks, start, chain, 0, ends)
  {
    if chain != [] {
      var next := Ends(tasks, chain[0]).start;
      plane.FiniteTransitive(start, ends.start, ends.end);
      plane.FiniteSymmetric(start, ends.end);
      plane.FiniteTransitive(ends.end, start, next);
    }
  }

  lemma LegsConnectInRest(plane: Plane, tasks: seq<Task>, start: int, chain: seq<int>, pos: nat, ends: Endpoints)
    requires 0 < pos <= |chain| && IsTask(tasks, chain[0])
    requires LegsConnect(plane, tasks, start, chain, pos, ends)
    ensures LegsConnect(plane, tasks, Ends(tasks, chain[0]).end, chain[1..], pos - 1, ends)
  {
    assert pos > 1 ==> chain[1..][pos - 2] == chain[pos - 1];
    assert pos < |chain| ==> chain[1..][pos - 1] == chain[pos];
  }

  lemma {:induction false} InsertKeepsFeasible(plane: Plane, tasks: seq<Task>, start: int, chain: seq<int>, pos: nat, t: int)
    requires Feasible(plane, tasks, start, chain) && pos <= |chain| && IsTask(tasks, t)
    requires LegsConnect(plane, tasks, start, chain, pos, Ends(tasks, t))
    ensures Feasible(plane, tasks, start, InsertAt(chain, pos, t))
    decreases pos
  {
    if pos == 0 {
      assert InsertAt(chain, pos, t)[1..] == chain;
    } else {
      LegsConnectInRest(plane, tasks, start, chain, pos, Ends(tasks, t));
      InsertKeepsFeasible(plane, tasks, Ends(tasks, chain[0]).end, chain[1..], pos - 1, t);
      InsertInRest(chain, pos, t);
    }
  }

  function Leg(plane: Plane, a: int, b: int): real {
    if plane.Finite(a, b) then plane.Seconds(a, b).value else 0.0
  }

  // The seconds a chain takes: every entry leg and every task's own leg.
  function ChainSeconds(plane: Plane, tasks: seq<Task>, cur: int, chain: seq<int>): real
    decreases chain
  {
    if chain == [] || !IsTask(tasks, chain[0]) then 0.0
    else
      var ends := Ends(tasks, chain[0]);
      TaskSeconds(plane, cur, ends) + ChainSeconds(plane, tasks, ends.end, chain[1..])
  }

  function TaskSeconds(plane: Plane, cur: int, ends: Endpoints): real {
    Leg(plane, cur, ends.start) + Leg(plane, ends.start, ends.end)
  }

  lemma ChainSecondsStep(plane: Plane, tasks: seq<Task>, cur: int, chain: seq<int>)
    requires chain != [] && IsTask(tasks, chain[0])
    ensures ChainSeconds(plane, tasks, cur, chain) == TaskSeconds(plane, cur, Ends(tasks, chain[0]))
      + ChainSeconds(plane, tasks, Ends(tasks, chain[0]).end, chain[1..])
  {
  }

  lemma DeltaAtFront(plane: Plane, tasks: seq<Task>, start: int, chain: seq<int>, ends: Endpoints)
    requires Feasible(plane, tasks, start, chain) && LegsConnect(plane, tasks, start, chain, 0, ends)
    ensures DeltaIn(plane, tasks, start, chain, 0, ends) == Some(TaskSeconds(plane, start, ends)
      + ChainSeconds(plane, tasks, ends.end, chain) - ChainSeconds(plane, tasks, start, chain))
  {
    if chain != [] {
      ChainSecondsStep(plane, tasks, start, chain);
      ChainSecondsStep(plane, tasks, ends.end, chain);
    }
  }

  lemma DeltaInRest(plane: Plane, tasks: seq<Task>, start: int, chain: seq<int>, pos: nat, ends: Endpoints)
    requires 0 < pos <= |chain| && IsTask(tasks, chain[0])
    ensures DeltaIn(plane, tasks, start, chain, pos, ends)
      == DeltaIn(plane, tasks, Ends(tasks, chain[0]).end, chain[1..], pos - 1, ends)
  {
    assert pos > 1 ==> chain[1..][pos - 2] == chain[pos - 1];
    assert pos < |chain| ==> chain[1..][pos - 1] == chain[pos];
    assert NodeBefore(tasks, start, chain, pos) == NodeBefore(tasks, Ends(tasks, chain[0]).end, chain[1..], pos - 1);
    assert NodeAfter(tasks, chain, pos) == NodeAfter(tasks, chain[1..], pos - 1);
  }

  ghost predicate AddsUp(plane: Plane, tasks: seq<Task>, start: int, chain: seq<int>, pos: nat, t: int)
    requires pos <= |chain| && IsTask(tasks, t)
  {
    DeltaIn(plane, tasks, start, chain, pos, Ends(tasks, t))
      == Some(ChainSeconds(plane, tasks, start, InsertAt(chain, pos, t)) - ChainSeconds(plane, tasks, start, chain))
  }

  lemma AddsUpAtFront(plane: Plane, tasks: seq<Task>, start: int, chain: seq<int>, t: int)
    requires Feasible(plane, tasks, start, chain) && IsTask(tasks, t)
    requires LegsConnect(plane, tasks, start, chain, 0, Ends(tasks, t))
    ensures AddsUp(plane, tasks, start, chain, 0, t)
  {
    assert InsertAt(chain, 0, t)[1..] == chain;
    DeltaAtFront(plane, tasks, start, chain, Ends(tasks, t));
    ChainSecondsStep(plane, tasks, start, InsertAt(chain, 0, t));
  }

  lemma AddsUpBefore(plane: Plane, tasks: seq<Task>, start: int, chain: seq<int>, pos: nat, t: int)
    requires 0 < pos <= |chain| && IsTask(tasks, chain[0]) && IsTask(tasks, t)
    requires AddsUp(plane, tasks, Ends(tasks, chain[0]).end, chain[1..], pos - 1, t)
    ensures AddsUp(plane, tasks, start, chain, pos, t)
  {
    DeltaInRest(plane, tasks, start, chain, pos, Ends(tasks, t));
    InsertInRest(chain, pos, t);
    ChainSecondsStep(plane, tasks, start, chain);
    ChainSecondsStep(plane, tasks, start, InsertAt(chain, pos, t));
  }

  // The value minimised is what the chain gets longer by.
  lemma {:induction false} DeltaIsAddedTime(plane: Plane, tasks: seq<Task>, start: int, chain: seq<int>, pos: nat, t: int)
    requires Feasible(plane, tasks, start, chain) && pos <= |chain| && IsTask(tasks, t)
    requires LegsConnect(plane, tasks, start, chain, pos, Ends(tasks, t))
    ensures AddsUp(plane, tasks, start, chain, pos, t)
    decreases pos
  {
    if pos == 0 {
      AddsUpAtFront(plane, tasks, start, chain, t);
    } else {
      LegsConnectInRest(plane, tasks, start, chain, pos, Ends(tasks, t));
      DeltaIsAddedTime(plane, tasks, Ends(tasks, chain[0]).end, chain[1..], pos - 1, t);
      AddsUpBefore(plane, tasks, start, chain, pos, t);
    }
  }

  function Order(n: nat): seq<int> { seq(n, i => i) }

  ghost predicate AllFeasible(plane: Plane, tasks: seq<Task>, starts: seq<int>, rows: Rows) {
    |starts| <= |rows| && forall i {:trigger rows[i]} :: 0 <= i < |starts| ==> Feasible(plane, tasks, starts[i], rows[i])
  }

  // A step keeps every chain feasible and finds a place exactly for tasks that can be placed.
  lemma StepIsRight(plane: Plane, tasks: seq<Task>, starts: seq<int>, rows: Rows, t: int, place: Option<Place>, rows': Rows)
    requires AllFeasible(plane, tasks, starts, rows)
    requires IsStep(Order(|starts|), OffersFor(plane, tasks, starts), rows, t, place, rows')
    ensures AllFeasible(plane, tasks, starts, rows') && |rows'| == |rows|
    ensures forall i :: |starts| <= i < |rows| ==> rows'[i] == rows[i]
    ensures place.Some? <==> CanBePlaced(plane, tasks, starts, t)
  {
    var delta := Delta(plane, tasks, starts, rows, t);
    if place.Some? {
      var ai, pos := place.value.row, place.value.pos;
      assert delta(ai, pos).Some? && 0 <= ai < |starts|;
      var ends := Ends(tasks, t);
      assert Feasible(plane, tasks, starts[ai], rows[ai]);
      OfferMeansLegsConnect(plane, tasks, starts[ai], rows[ai], pos, ends);
      OfferNeedsLink(plane, tasks, starts[ai], rows[ai], pos, ends);
      InsertKeepsFeasible(plane, tasks, starts[ai], rows[ai], pos, t);
    } else if CanBePlaced(plane, tasks, starts, t) {
      var ends := Ends(tasks, t);
      var ai :| 0 <= ai < |starts| && plane.Finite(starts[ai], ends.start);
      assert Feasible(plane, tasks, starts[ai], rows[ai]);
      LinkGivesOffer(plane, tasks, starts[ai], rows[ai], ends);
      OfferMeansLegsConnect(plane, tasks, starts[ai], rows[ai], 0, ends);
      assert IsOffer(Order(|starts|), rows, delta, ai, 0);
    }
  }

  function Padded(rows: Rows, n: nat): (r: Rows)
    ensures |r| == if |rows| < n then n else |rows|
  {
    rows + seq(if |rows| < n then n - |rows| else 0, _ => [])
  }

  // The rows before reinsertion: AMR rows filtered, missing rows empty, further rows untouched.
  function KeptRow(plane: Plane, tasks: seq<Task>, starts: seq<int>, rows: Rows, i: nat): seq<int>
    requires i < |rows|
  {
    if i < |starts| then Kept(plane, tasks, starts[i], rows[i]) else rows[i]
  }

  function RemovedRow(plane: Plane, tasks: seq<Task>, starts: seq<int>, rows: Rows, i: nat): (r: seq<int>)
    requires i < |rows|
    ensures forall t :: t in r ==> IsTask(tasks, t)
  {
    if i < |starts| then Removed(plane, tasks, starts[i], rows[i]) else []
  }

  // The entries that count: the tasks in AMR rows, and further rows as they are.
  function CountedRow(tasks: seq<Task>, n: nat, rows: Rows, i: nat): seq<int>
    requires i < |rows|
  {
    if i < n then TasksIn(tasks, rows[i]) else rows[i]
  }

  function KeptRows(plane: Plane, tasks: seq<Task>, starts: seq<int>, rows: Rows): Rows {
    var all := Padded(rows, |starts|);
    seq(|all|, i requires 0 <= i < |all| => KeptRow(plane, tasks, starts, all, i))
  }

  function RemovedRows(plane: Plane, tasks: seq<Task>, starts: seq<int>, rows: Rows): Rows {
    var all := Padded(rows, |starts|);
    seq(|all|, i requires 0 <= i < |all| => RemovedRow(plane, tasks, starts, all, i))
  }

  function CountedRows(tasks: seq<Task>, n: nat, rows: Rows): Rows {
    var all := Padded(rows, n);
    seq(|all|, i requires 0 <= i < |all| => CountedRow(tasks, n, all, i))
  }

  // The removed tasks, AMR by AMR.
  function RemovedOf(plane: Plane, tasks: seq<Task>, starts: seq<int>, rows: Rows): seq<int> {
    Flatten(RemovedRows(plane, tasks, starts, rows))
  }

  predicate IsDropped(plane: Plane, tasks: seq<Task>, starts: seq<int>, removed: seq<int>, t: int) {
    t in removed && !CanBePlaced(plane, tasks, starts, t)
  }

  // The removed tasks are reinserted one after the other over all AMRs and positions; those
  // that cannot be placed join the unallocated ones.
  ghost predicate IsSanitized(plane: Plane, tasks: seq<Task>, starts: seq<int>, rows0: Rows, unallocated0: seq<int>,
                              rows: Rows, unallocated: seq<int>, trace: seq<Rows>, places: seq<Option<Place>>)
  {
    var removed := RemovedOf(plane, tasks, starts, rows0);
    && IsRun(Order(|starts|), OffersFor(plane, tasks, starts), removed, trace, places)
    && trace[0] == KeptRows(plane, tasks, starts, rows0) && trace[|removed|] == rows
    && StrictlyAscending(unallocated)
    && forall t :: t in unallocated <==> t in unallocated0 || IsDropped(plane, tasks, starts, removed, t)
  }

  lemma RemovedAreTasks(plane: Plane, tasks: seq<Task>, starts: seq<int>, rows: Rows)
    ensures forall t :: t in RemovedOf(plane, tasks, starts, rows) ==> IsTask(tasks, t)
  {
    var removed := RemovedRows(plane, tasks, starts, rows);
    forall t | t in Flatten(removed) ensures IsTask(tasks, t) {
      InFlatten(removed, t);
      var i :| 0 <= i < |removed| && t in removed[i];
      assert removed[i] == RemovedRow(plane, tasks, starts, Padded(rows, |starts|), i);
    }
  }

  lemma KeptRowsAreFeasible(plane: Plane, tasks: seq<Task>, starts: seq<int>, rows: Rows)
    ensures AllFeasible(plane, tasks, starts, KeptRows(plane, tasks, starts, rows))
  {
    var all, kept := Padded(rows, |starts|), KeptRows(plane, tasks, starts, rows);
    forall i | 0 <= i < |starts| ensures Feasible(plane, tasks, starts[i], kept[i]) {
      assert kept[i] == KeptRow(plane, tasks, starts, all, i);
      KeptIsFeasible(plane, tasks, starts[i], all[i]);
    }
  }

  // What reinsertion keeps at every step.
  lemma {:induction false} RunKeepsFeasible(plane: Plane, tasks: seq<Task>, starts: seq<int>, removed: seq<int>,
                                            trace: seq<Rows>, places: seq<Option<Place>>, n: nat)
    requires IsRun(Order(|starts|), OffersFor(plane, tasks, starts), removed, trace, places) && n <= |removed|
    requires AllFeasible(plane, tasks, starts, trace[0])
    ensures AllFeasible(plane, tasks, starts, trace[n]) && |trace[n]| == |trace[0]|
    ensures forall i :: |starts| <= i < |trace[0]| ==> trace[n][i] == trace[0][i]
    ensures forall k {:trigger places[k]} :: 0 <= k < n ==> (places[k].Some? <==> CanBePlaced(plane, tasks, starts, removed[k]))
  {
    if n > 0 {
      var k := n - 1;
      RunKeepsFeasible(plane, tasks, starts, removed, trace, places, k);
      assert IsStep(Order(|starts|), OffersFor(plane, tasks, starts), trace[k], removed[k], places[k], trace[k + 1]);
      StepIsRight(plane, tasks, starts, trace[k], removed[k], places[k], trace[k + 1]);
    }
  }

  // Filtering splits the counted entries into kept rows and removed tasks.
  lemma FilterConserves(plane: Plane, tasks: seq<Task>, starts: seq<int>, rows: Rows)
    ensures Tally(KeptRows(plane, tasks, starts, rows)) + multiset(RemovedOf(plane, tasks, starts, rows))
      == Tally(CountedRows(tasks, |starts|, rows))
  {
    var all := Padded(rows, |starts|);
    var kept, removed, counted := KeptRows(plane, tasks, starts, rows), RemovedRows(plane, tasks, starts, rows),
      CountedRows(tasks, |starts|, rows);
    forall i | 0 <= i < |all| ensures multiset(kept[i]) + multiset(removed[i]) == multiset(counted[i]) {
      assert kept[i] == KeptRow(plane, tasks, starts, all, i);
      assert removed[i] == RemovedRow(plane, tasks, starts, all, i);
      assert counted[i] == CountedRow(tasks, |starts|, all, i);
      if i < |starts| { KeptPlusRemoved(plane, tasks, starts[i], all[i]); }
    }
    TallySplit(kept, removed, counted);
    FlattenTally(removed);
  }

  // Nothing is lost: the resulting rows and the dropped tasks are together the counted input.
  lemma Conservation(plane: Plane, tasks: seq<Task>, starts: seq<int>, rows0: Rows, unallocated0: seq<int>,
                     rows: Rows, unallocated: seq<int>, trace: seq<Rows>, places: seq<Option<Place>>)
      returns (dropped: seq<int>)
    requires IsSanitized(plane, tasks, starts, rows0, unallocated0, rows, unallocated, trace, places)
    ensures Tally(rows) + multiset(dropped) == Tally(CountedRows(tasks, |starts|, rows0))
    ensures forall t :: t in dropped <==> IsDropped(plane, tasks, starts, RemovedOf(plane, tasks, starts, rows0), t)
  {
    var removed := RemovedOf(plane, tasks, starts, rows0);
    KeptRowsAreFeasible(plane, tasks, starts, rows0);
    RunKeepsFeasible(plane, tasks, starts, removed, trace, places, |removed|);
    RunConserves(Order(|starts|), OffersFor(plane, tasks, starts), removed, trace, places, |removed|);
    UnplacedAreBad(removed, places, |removed|, t => CanBePlaced(plane, tasks, starts, t));
    assert removed[..|removed|] == removed;
    FilterConserves(plane, tasks, starts, rows0);
    dropped := Unplaced(removed, places, |removed|);
  }

  // In well-formed input the AMR rows name tasks, and no task is named twice in the rows and
  // the unallocated list together.
  ghost predicate WellFormed(tasks: seq<Task>, n: nat, rows: Rows, unallocated: seq<int>) {
    && (forall i {:trigger rows[i]} :: 0 <= i < |rows| && i < n ==> TasksIn(tasks, rows[i]) == rows[i])
    && (forall t :: Tally(rows)[t] + multiset(unallocated)[t] <= 1)
  }

  // Then rows and unallocated list together name every task exactly as often as before.
  lemma WellFormedIsConserved(plane: Plane, tasks: seq<Task>, starts: seq<int>, rows0: Rows, unallocated0: seq<int>,
                              rows: Rows, unallocated: seq<int>, trace: seq<Rows>, places: seq<Option<Place>>, t: int)
    requires IsSanitized(plane, tasks, starts, rows0, unallocated0, rows, unallocated, trace, places)
    requires WellFormed(tasks, |starts|, rows0, unallocated0)
    ensures Tally(rows)[t] + multiset(unallocated)[t] == Tally(rows0)[t] + multiset(unallocated0)[t]
  {
    var dropped := Conservation(plane, tasks, starts, rows0, unallocated0, rows, unallocated, trace, places);
    CountedIsAll(tasks, |starts|, rows0);
    SameCounts(Tally(rows), multiset(dropped), Tally(rows0), t);
    AscendingCounts(unallocated, t);
    CountMeansIn(dropped, t);
    CountMeansIn(unallocated0, t);
  }

  lemma SameCounts<T>(a: multiset<T>, b: multiset<T>, c: multiset<T>, x: T)
    requires a + b == c
    ensures a[x] + b[x] == c[x]
  {
  }

  lemma CountedIsAll(tasks: seq<Task>, n: nat, rows: Rows)
    requires forall i {:trigger rows[i]} :: 0 <= i < |rows| && i < n ==> TasksIn(tasks, rows[i]) == rows[i]
    ensures Tally(CountedRows(tasks, n, rows)) == Tally(rows)
  {
    var all, counted := Padded(rows, n), CountedRows(tasks, n, rows);
    forall i | 0 <= i < |all| ensures counted[i] == all[i] {
      assert counted[i] == CountedRow(tasks, n, all, i);
      assert i < |rows| ==> all[i] == rows[i];
    }
    assert counted == all;
    FlattenTally(all);
    FlattenTally(rows);
    FlattenEmptyTail(all, |rows|);
    assert all[..|rows|] == rows;
  }

  // Every leg of every AMR's chain is connected afterwards, and further rows are untouched.
  lemma ChainsAreFeasible(plane: Plane, tasks: seq<Task>, starts: seq<int>, rows0: Rows, unallocated0: seq<int>,
                          rows: Rows, unallocated: seq<int>, trace: seq<Rows>, places: seq<Option<Place>>)
    requires IsSanitized(plane, tasks, starts, rows0, unallocated0, rows, unallocated, trace, places)
    ensures AllFeasible(plane, tasks, starts, rows)
    ensures |rows| == (if |rows0| < |starts| then |starts| else |rows0|)
    ensures forall i :: |starts| <= i < |rows0| ==> rows[i] == rows0[i]
  {
    var removed := RemovedOf(plane, tasks, starts, rows0);
    KeptRowsAreFeasible(plane, tasks, starts, rows0);
    RunKeepsFeasible(plane, tasks, starts, removed, trace, places, |removed|);
  }

  // A removed task ends up unallocated exactly when no AMR start is connected to its start or
  // its own ends are not connected; otherwise it is in some row.
  lemma DropsExactly(plane: Plane, tasks: seq<Task>, starts: seq<int>, rows0: Rows, unallocated0: seq<int>,
                     rows: Rows, unallocated: seq<int>, trace: seq<Rows>, places: seq<Option<Place>>, t: int)
    requires IsSanitized(plane, tasks, starts, rows0, unallocated0, rows, unallocated, trace, places)
    requires t in RemovedOf(plane, tasks, starts, rows0)
    ensures IsTask(tasks, t)
    ensures t !in unallocated0 ==> (t in unallocated <==> !Placeable(plane, starts, Ends(tasks, t)))
    ensures Placeable(plane, starts, Ends(tasks, t)) ==> t in Tally(rows)
  {
    var removed := RemovedOf(plane, tasks, starts, rows0);
    RemovedAreTasks(plane, tasks, starts, rows0);
    var dropped := Conservation(plane, tasks, starts, rows0, unallocated0, rows, unallocated, trace, places);
    FilterConserves(plane, tasks, starts, rows0);
    CountMeansIn(dropped, t);
    CountMeansIn(removed, t);
    if Placeable(plane, starts, Ends(tasks, t)) {
      OnTheLeft(Tally(rows), multiset(dropped), Tally(KeptRows(plane, tasks, starts, rows0)), multiset(removed), t);
    }
  }

  lemma OnTheLeft<T>(a: multiset<T>, b: multiset<T>, c: multiset<T>, d: multiset<T>, x: T)
    requires a + b == c + d && d[x] > 0 && b[x] == 0
    ensures x in a
  {
    assert (a + b)[x] == (c + d)[x];
  }

  // A second run changes neither the chains nor the unallocated list.
  lemma SecondRunChangesNothing(plane: Plane, tasks: seq<Task>, starts: seq<int>, rows0: Rows, unallocated0: seq<int>,
                                rows: Rows, unallocated: seq<int>, trace: seq<Rows>, places: seq<Option<Place>>,
                                rows2: Rows, unallocated2: seq<int>, trace2: seq<Rows>, places2: seq<Option<Place>>)
    requires IsSanitized(plane, tasks, starts, rows0, unallocated0, rows, unallocated, trace, places)
    requires IsSanitized(plane, tasks, starts, rows, unallocated, rows2, unallocated2, trace2, places2)
    ensures rows2 == rows && unallocated2 == unallocated
  {
    ChainsAreFeasible(plane, tasks, starts, rows0, unallocated0, rows, unallocated, trace, places);
    FeasibleRowsStay(plane, tasks, starts, rows);
    AscendingUnique(unallocated2, unallocated);
  }

  lemma FeasibleRowsStay(plane: Plane, tasks: seq<Task>, starts: seq<int>, rows: Rows)
    requires AllFeasible(plane, tasks, starts, rows)
    ensures KeptRows(plane, tasks, starts, rows) == rows && RemovedOf(plane, tasks, starts, rows) == []
  {
    var all := Padded(rows, |starts|);
    assert all == rows;
    var kept, removed := KeptRows(plane, tasks, starts, rows), RemovedRows(plane, tasks, starts, rows);
    forall i | 0 <= i < |rows| ensures kept[i] == rows[i] && removed[i] == [] {
      assert kept[i] == KeptRow(plane, tasks, starts, all, i) && removed[i] == RemovedRow(plane, tasks, starts, all, i);
      if i < |starts| { FeasibleIsKept(plane, tasks, starts[i], rows[i]); }
    }
    FlattenEmptyTail(removed, 0);
    assert removed[..0] == [];
  }

  method FilterAll(plane: Plane, tasks: seq<Task>, starts: seq<int>, rows0: Rows) returns (rows: Rows, removed: seq<int>)
    ensures rows == KeptRows(plane, tasks, starts, rows0)
    ensures removed == RemovedOf(plane, tasks, starts, rows0)
  {
    var parsed := Padded(rows0, |starts|);
    ghost var keptRows, removedRows := KeptRows(plane, tasks, starts, rows0), RemovedRows(plane, tasks, starts, rows0);
    rows, removed := [], [];
    for i := 0 to |starts|
      invariant rows == keptRows[..i] && removed == Flatten(removedRows[..i])
    {
      assert keptRows[i] == KeptRow(plane, tasks, starts, parsed, i);
      assert removedRows[i] == RemovedRow(plane, tasks, starts, parsed, i);
      var kept, out := FilterRow(plane, tasks, starts[i], parsed[i]);
      rows, removed := rows + [kept], removed + out;
      assert removedRows[..i + 1][..i] == removedRows[..i];
    }
    rows := rows + parsed[|starts|..];
    forall i | |starts| <= i < |parsed| ensures keptRows[i] == parsed[i] && removedRows[i] == [] {
      assert keptRows[i] == KeptRow(plane, tasks, starts, parsed, i);
      assert removedRows[i] == RemovedRow(plane, tasks, starts, parsed, i);
    }
    assert rows == keptRows;
    FlattenEmptyTail(removedRows, |starts|);
  }

  method ReinsertAll(plane: Plane, tasks: seq<Task>, starts: seq<int>, rows0: Rows, removed: seq<int>)
      returns (rows: Rows, inserted: seq<bool>, ghost trace: seq<Rows>, ghost places: seq<Option<Place>>)
    requires AllFeasible(plane, tasks, starts, rows0)
    requires forall t :: t in removed ==> IsTask(tasks, t)
    ensures |inserted| == |tasks|
    ensures IsRun(Order(|starts|), OffersFor(plane, tasks, starts), removed, trace, places)
    ensures trace[0] == rows0 && trace[|removed|] == rows
    ensures forall t :: 0 <= t < |tasks| && t in removed ==> (inserted[t] <==> CanBePlaced(plane, tasks, starts, t))
  {
    rows, trace, places := rows0, [rows0], [];
    inserted := seq(|tasks|, _ => false);
    for k := 0 to |removed|
      invariant |trace| == k + 1 && |places| == k && trace[0] == rows0 && trace[k] == rows && |inserted| == |tasks|
      invariant AllFeasible(plane, tasks, starts, rows)
      invariant IsRun(Order(|starts|), OffersFor(plane, tasks, starts), removed[..k], trace, places)
      invariant forall t :: 0 <= t < |tasks| ==> (inserted[t] <==> t in removed[..k] && CanBePlaced(plane, tasks, starts, t))
    {
      var t := removed[k];
      var place, next := PlaceBest(Order(|starts|), OffersFor(plane, tasks, starts), rows, t);
      StepIsRight(plane, tasks, starts, rows, t, place, next);
      PrefixGrows(removed, k);
      RunGrows(Order(|starts|), OffersFor(plane, tasks, starts), removed[..k], trace, places, t, place, next);
      rows, trace, places := next, trace + [next], places + [place];
      if place.Some? { inserted := inserted[t := true]; }
    }
    assert removed[..|removed|] == removed;
  }

  // Adds the tasks that were not put back, then sorts.
  method MergeUnallocated(n: nat, unallocated0: seq<int>, removed: seq<int>, inserted: seq<bool>) returns (unallocated: seq<int>)
    requires |inserted| == n && forall k :: 0 <= k < |removed| ==> 0 <= removed[k] < n
    ensures StrictlyAscending(unallocated)
    ensures forall t :: t in unallocated <==> t in unallocated0 || (0 <= t < n && t in removed && !inserted[t])
  {
    var flags := seq(n, i => i in unallocated0);
    unallocated := unallocated0;
    for k := 0 to |removed|
      invariant |flags| == n && forall t :: 0 <= t < n ==> (flags[t] <==> t in unallocated)
      invariant forall t :: t in unallocated <==> t in unallocated0 || (0 <= t < n && t in removed[..k] && !inserted[t])
    {
      var t := removed[k];
      assert removed[..k + 1] == removed[..k] + [t];
      if !inserted[t] && !flags[t] {
        unallocated := unallocated + [t];
        flags := flags[t := true];
      }
    }
    assert removed[..|removed|] == removed;
    unallocated := SortUnique(unallocated);
  }

  method SanitizeAllocationResult(plane: Plane, tasks: seq<Task>, starts: seq<int>, rows0: Rows, unallocated0: seq<int>)
      returns (rows: Rows, unallocated: seq<int>, ghost trace: seq<Rows>, ghost places: seq<Option<Place>>)
    ensures IsSanitized(plane, tasks, starts, rows0, unallocated0, rows, unallocated, trace, places)
    ensures AllFeasible(plane, tasks, starts, rows)
  {
    var kept, removed := FilterAll(plane, tasks, starts, rows0);
    KeptRowsAreFeasible(plane, tasks, starts, rows0);
    RemovedAreTasks(plane, tasks, starts, rows0);
    var inserted;
    rows, inserted, trace, places := ReinsertAll(plane, tasks, starts, kept, removed);
    forall k | 0 <= k < |removed| ensures 0 <= removed[k] < |tasks| {
      assert removed[k] in removed && IsTask(tasks, removed[k]);
    }
    unallocated := MergeUnallocated(|tasks|, unallocated0, removed, inserted);
    ChainsAreFeasible(plane, tasks, starts, rows0, unallocated0, rows, unallocated, trace, places);
  }
}
