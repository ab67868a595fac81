// `InsertForcedTasks` without the shortest-path updater: each forced task is tried at every
// position of every available chain.
module ForcedInsertion {
  import opened Util
  import opened Travel
  import opened Tasks
  import opened Placement
  import opened ReachabilityFilter

  function Ends(tasks: seq<Task>, t: int): Endpoints
    requires IsTask(tasks, t)
  {
    ResolveEndpoints(tasks[t])
  }

  function Stops(tasks: seq<Task>, t: int): seq<int>
    requires IsTask(tasks, t)
  {
    CollectTaskNodes(tasks[t])
  }

  // `internal_cost_wait`: the legs between a task's own stops; None when one is not connected.
  function Internal(plane: Plane, nodes: seq<int>): Option<real> {
    if |nodes| <= 1 then Some(0.0)
    else
      var n := |nodes| - 1;
      var total, last := Internal(plane, nodes[..n]), plane.Seconds(nodes[n - 1], nodes[n]);
      if total.None? || last.None? then None else Some(total.value + last.value)
  }

  lemma {:induction false} InternalIsFinite(plane: Plane, nodes: seq<int>)
    ensures Internal(plane, nodes).Some? <==> LegsFinite(plane, nodes)
  {
    if |nodes| > 1 {
      var n := |nodes| - 1;
      InternalIsFinite(plane, nodes[..n]);
      assert nodes[..n][n - 1] == nodes[n - 1];
      if LegsFinite(plane, nodes[..n]) && plane.Finite(nodes[n - 1], nodes[n]) {
        forall i | 0 <= i < n ensures plane.Finite(nodes[i], nodes[i + 1]) {
          assert i < n - 1 ==> plane.Finite(nodes[..n][i], nodes[..n][i + 1]);
        }
      }
    }
  }

  // Going to the last stop directly is never longer than through all stops.
  lemma {:induction false} LastStopIsNearer(plane: Plane, nodes: seq<int>, cur: int)
    requires nodes != [] && plane.Finite(cur, nodes[0]) && Internal(plane, nodes).Some?
    ensures plane.Finite(cur, nodes[|nodes| - 1])
    ensures plane.Seconds(cur, nodes[|nodes| - 1]).value <= plane.Seconds(cur, nodes[0]).value + Internal(plane, nodes).value
    ensures Internal(plane, nodes).value >= 0.0
  {
    if |nodes| > 1 {
      var n := |nodes| - 1;
      LastStopIsNearer(plane, nodes[..n], cur);
      plane.Detour(cur, nodes[n - 1], nodes[n]);
      plane.SecondsNonNegative(nodes[n - 1], nodes[n]);
    }
  }

  predicate LegOk(plane: Plane, tasks: seq<Task>, cur: int, t: int) {
    IsTask(tasks, t) && plane.Finite(cur, Ends(tasks, t).start) && LegsFinite(plane, Stops(tasks, t))
  }

  // From the AMR's node through every stop of every task, each leg is connected.
  predicate Feasible(plane: Plane, tasks: seq<Task>, cur: int, chain: seq<int>)
    decreases chain
  {
    chain != [] ==> LegOk(plane, tasks, cur, chain[0]) && Feasible(plane, tasks, Ends(tasks, chain[0]).end, chain[1..])
  }

  // `ChainDurationSec`
  function ChainDurationSec(plane: Plane, tasks: seq<Task>, cur: int, chain: seq<int>): Option<real>
    decreases chain
  {
    if chain == [] then Some(0.0)
    else if !IsTask(tasks, chain[0]) then None
    else
      var nodes := Stops(tasks, chain[0]);
      var rest := ChainDurationSec(plane, tasks, if nodes == [] then cur else nodes[|nodes| - 1], chain[1..]);
      var own := if nodes == [] then Some(CalcServiceSec(tasks[chain[0]])) else TaskSeconds(plane, tasks, cur, chain[0]);
      if own.None? || rest.None? then None else Some(own.value + rest.value)
  }

  // Entry, own legs and service of one task.
  function TaskSeconds(plane: Plane, tasks: seq<Task>, cur: int, t: int): Option<real>
    requires IsTask(tasks, t) && Stops(tasks, t) != []
  {
    var entry, own := plane.Seconds(cur, Stops(tasks, t)[0]), Internal(plane, Stops(tasks, t));
    if entry.None? || own.None? then None else Some(entry.value + own.value + CalcServiceSec(tasks[t]))
  }

  // A chain whose tasks have a first stop is feasible exactly when its duration is finite.
  lemma {:induction false} FeasibleMeansFiniteDuration(plane: Plane, tasks: seq<Task>, cur: int, chain: seq<int>)
    requires forall k :: 0 <= k < |chain| && IsTask(tasks, chain[k]) ==> Ends(tasks, chain[k]).start >= 0
    ensures Feasible(plane, tasks, cur, chain) <==> ChainDurationSec(plane, tasks, cur, chain).Some?
    decreases chain
  {
    if chain != [] && IsTask(tasks, chain[0]) {
      EndpointsAreCollected(tasks[chain[0]]);
      InternalIsFinite(plane, Stops(tasks, chain[0]));
      FeasibleMeansFiniteDuration(plane, tasks, Ends(tasks, chain[0]).end, chain[1..]);
    }
  }

  function NodeBefore(tasks: seq<Task>, start: int, chain: seq<int>, pos: nat): int
    requires pos <= |chain|
  {
    if pos == 0 then start else if IsTask(tasks, chain[pos - 1]) then Ends(tasks, chain[pos - 1]).end else -1
  }

  function NodeAfter(tasks: seq<Task>, chain: seq<int>, pos: nat): int
    requires pos <= |chain|
  {
    if pos < |chain| && IsTask(tasks, chain[pos]) then Ends(tasks, chain[pos]).start else -1
  }

  // The added seconds at one position, before its sign is looked at.
  function RawDelta(plane: Plane, tasks: seq<Task>, start: int, chain: seq<int>, pos: nat, t: int): Option<real>
    requires pos <= |chain| && IsTask(tasks, t)
  {
    var before, after, ends := NodeBefore(tasks, start, chain, pos), NodeAfter(tasks, chain, pos), Ends(tasks, t);
    var removed := if pos < |chain| then plane.Seconds(before, after) else Some(0.0);
    var toNew, own := plane.Seconds(before, ends.start), Internal(plane, Stops(tasks, t));
    var fromNew := if after >= 0 then plane.Seconds(ends.end, after) else Some(0.0);
    if before < 0 || removed.None? || toNew.None? || fromNew.None? || own.None? then None
    else Some(toNew.value + own.value + CalcServiceSec(tasks[t]) + fromNew.value - removed.value)
  }

  // A negative difference is skipped.
  function Delta(plane: Plane, tasks: seq<Task>, start: int, chain: seq<int>, pos: nat, t: int): Option<real>
    requires pos <= |chain| && IsTask(tasks, t)
  {
    var d := RawDelta(plane, tasks, start, chain, pos, t);
    if d.Some? && d.value < 0.0 then None else d
  }

  predicate AllTasks(tasks: seq<Task>, chain: seq<int>) {
    forall k :: 0 <= k < |chain| ==> IsTask(tasks, chain[k])
  }

  function OffersOf(plane: Plane, tasks: seq<Task>, starts: seq<int>, rows: Rows, t: int): Offers {
    (ai: int, pos: int) =>
      if !(IsTask(tasks, t) && 0 <= ai < |rows| && ai < |starts| && 0 <= pos <= |rows[ai]| && AllTasks(tasks, rows[ai]))
        || Ends(tasks, t).start < 0 || Ends(tasks, t).end < 0
      then None
      else Delta(plane, tasks, starts[ai], rows[ai], pos, t)
  }

  function OffersFor(plane: Plane, tasks: seq<Task>, starts: seq<int>): OfferTable {
    (rows: Rows, t: int) => OffersOf(plane, tasks, starts, rows, t)
  }

  predicate LegsConnect(plane: Plane, tasks: seq<Task>, start: int, chain: seq<int>, pos: nat, t: int)
    requires pos <= |chain|
  {
    var before, after := NodeBefore(tasks, start, chain, pos), NodeAfter(tasks, chain, pos);
    && LegOk(plane, tasks, before, t) && (pos < |chain| ==> plane.Finite(before, after))
    && (after >= 0 ==> plane.Finite(Ends(tasks, t).end, after))
  }

  lemma RawDeltaMeansLegsConnect(plane: Plane, tasks: seq<Task>, start: int, chain: seq<int>, pos: nat, t: int)
    requires pos <= |chain| && IsTask(tasks, t)
    ensures RawDelta(plane, tasks, start, chain, pos, t).Some? <==> LegsConnect(plane, tasks, start, chain, pos, t)
  {
    InternalIsFinite(plane, Stops(tasks, t));
  }

  // Every finite difference is non-negative, so the branch that skips negative ones is dead.
  lemma DeltaIsNeverNegative(plane: Plane, tasks: seq<Task>, start: int, chain: seq<int>, pos: nat, t: int)
    requires pos <= |chain| && IsTask(tasks, t)
    ensures RawDelta(plane, tasks, start, chain, pos, t).Some? ==> RawDelta(plane, tasks, start, chain, pos, t).value >= 0.0
    ensures Delta(plane, tasks, start, chain, pos, t) == RawDelta(plane, tasks, start, chain, pos, t)
  {
    if RawDelta(plane, tasks, start, chain, pos, t).Some? {
      var before, after := NodeBefore(tasks, start, chain, pos), NodeAfter(tasks, chain, pos);
      EndpointsAreCollected(tasks[t]);
      LastStopIsNearer(plane, Stops(tasks, t), before);
      plane.SecondsNonNegative(before, Ends(tasks, t).start);
      if pos < |chain| {
        plane.Detour(before, Ends(tasks, t).end, after);
      }
    }
  }

  // Whatever is connected to the node before a position is connected to the chain's start.
  lemma {:induction false} BeforeIsLinked(plane: Plane, tasks: seq<Task>, cur: int, chain: seq<int>, pos: nat, x: int)
    requires Feasible(plane, tasks, cur, chain) && pos <= |chain|
    requires plane.Finite(NodeBefore(tasks, cur, chain, pos), x)
    ensures plane.Finite(cur, x)
    decreases pos
  {
    if pos > 0 {
      var end := Ends(tasks, chain[0]).end;
      assert pos > 1 ==> chain[1..][pos - 2] == chain[pos - 1];
      BeforeIsLinked(plane, tasks, end, chain[1..], pos - 1, x);
      EndIsLinked(plane, tasks, cur, chain[0]);
      plane.FiniteTransitive(cur, end, x);
    }
  }

  lemma EndIsLinked(plane: Plane, tasks: seq<Task>, cur: int, t: int)
    requires LegOk(plane, tasks, cur, t)
    ensures plane.Finite(cur, Ends(tasks, t).end)
  {
    EndpointsAreCollected(tasks[t]);
    InternalIsFinite(plane, Stops(tasks, t));
    LastStopIsNearer(plane, Stops(tasks, t), cur);
  }

  lemma LinkGivesOffer(plane: Plane, tasks: seq<Task>, start: int, chain: seq<int>, t: int)
    requires Feasible(plane, tasks, start, chain) && LegOk(plane, tasks, start, t)
    ensures LegsConnect(plane, tasks, start, chain, 0, t)
  {
    if chain != [] {
      var end, next := Ends(tasks, t).end, Ends(tasks, chain[0]).start;
      EndIsLinked(plane, tasks, start, t);
      plane.FiniteSymmetric(start, end);
      plane.FiniteTransitive(end, start, next);
    }
  }

  lemma LegsConnectInRest(plane: Plane, tasks: seq<Task>, start: int, chain: seq<int>, pos: nat, t: int)
    requires 0 < pos <= |chain| && IsTask(tasks, chain[0])
    requires LegsConnect(plane, tasks, start, chain, pos, t)
    ensures LegsConnect(plane, tasks, Ends(tasks, chain[0]).end, chain[1..], pos - 1, t)
  {
    assert pos > 1 ==> chain[1..][pos - 2] == chain[pos - 1];
    assert pos < |chain| ==> chain[1..][pos - 1] == chain[pos];
  }

  lemma {:induction false} InsertKeepsFeasible(plane: Plane, tasks: seq<Task>, start: int, chain: seq<int>, pos: nat, t: int)
    requires Feasible(plane, tasks, start, chain) && pos <= |chain|
    requires LegsConnect(plane, tasks, start, chain, pos, t)
    ensures Feasible(plane, tasks, start, InsertAt(chain, pos, t))
    decreases pos
  {
    if pos == 0 {
      assert InsertAt(chain, pos, t)[1..] == chain;
    } else {
      LegsConnectInRest(plane, tasks, start, chain, pos, t);
      InsertKeepsFeasible(plane, tasks, Ends(tasks, chain[0]).end, chain[1..], pos - 1, t);
      InsertInRest(chain, pos, t);
    }
  }

  lemma {:induction false} FeasibleNamesTasks(plane: Plane, tasks: seq<Task>, cur: int, chain: seq<int>)
    requires Feasible(plane, tasks, cur, chain)
    ensures AllTasks(tasks, chain)
    decreases chain
  {
    if chain != [] {
      FeasibleNamesTasks(plane, tasks, Ends(tasks, chain[0]).end, chain[1..]);
      assert forall k :: 0 < k < |chain| ==> chain[k] == chain[1..][k - 1];
    }
  }

  lemma DurationStep(plane: Plane, tasks: seq<Task>, cur: int, chain: seq<int>)
    requires chain != [] && Feasible(plane, tasks, cur, chain)
    ensures ChainDurationSec(plane, tasks, cur, chain).Some?
    ensures Stops(tasks, chain[0]) != [] && TaskSeconds(plane, tasks, cur, chain[0]).Some?
    ensures ChainDurationSec(plane, tasks, Ends(tasks, chain[0]).end, chain[1..]).Some?
    ensures ChainDurationSec(plane, tasks, cur, chain).value == TaskSeconds(plane, tasks, cur, chain[0]).value
      + ChainDurationSec(plane, tasks, Ends(tasks, chain[0]).end, chain[1..]).value
  {
    FeasibleIsFinite(plane, tasks, cur, chain);
    FeasibleIsFinite(plane, tasks, Ends(tasks, chain[0]).end, chain[1..]);
    EndpointsAreCollected(tasks[chain[0]]);
  }

  lemma {:induction false} FeasibleIsFinite(plane: Plane, tasks: seq<Task>, cur: int, chain: seq<int>)
    requires Feasible(plane, tasks, cur, chain)
    ensures ChainDurationSec(plane, tasks, cur, chain).Some?
    decreases chain
  {
    if chain != [] {
      EndpointsAreCollected(tasks[chain[0]]);
      InternalIsFinite(plane, Stops(tasks, chain[0]));
      FeasibleIsFinite(plane, tasks, Ends(tasks, chain[0]).end, chain[1..]);
    }
  }

  // Entering the same chain from another node changes its duration by the entry leg.
  lemma EntryMoves(plane: Plane, tasks: seq<Task>, a: int, b: int, chain: seq<int>)
    requires chain != [] && Feasible(plane, tasks, a, chain) && plane.Finite(b, Ends(tasks, chain[0]).start)
    ensures ChainDurationSec(plane, tasks, a, chain).Some? && ChainDurationSec(plane, tasks, b, chain).Some?
    ensures var next := Ends(tasks, chain[0]).start;
      && plane.Finite(a, next) && ChainDurationSec(plane, tasks, b, chain).value
        == ChainDurationSec(plane, tasks, a, chain).value - plane.Seconds(a, next).value + plane.Seconds(b, next).value
  {
    DurationStep(plane, tasks, a, chain);
    DurationStep(plane, tasks, b, chain);
    EndpointsAreCollected(tasks[chain[0]]);
  }

  // Inserting t makes the chain last d longer.
  ghost predicate Lengthens(plane: Plane, tasks: seq<Task>, start: int, chain: seq<int>, pos: nat, t: int, d: real)
    requires pos <= |chain|
  {
    var before := ChainDurationSec(plane, tasks, start, chain);
    var after := ChainDurationSec(plane, tasks, start, InsertAt(chain, pos, t));
    before.Some? && after.Some? && after.value == before.value + d
  }

  // What entering the rest of the chain from t instead of from its start adds.
  function Rerouting(plane: Plane, tasks: seq<Task>, start: int, chain: seq<int>, t: int): real
    requires IsTask(tasks, t)
  {
    if chain == [] || !IsTask(tasks, chain[0]) then 0.0
    else
      var next := Ends(tasks, chain[0]).start;
      if plane.Finite(Ends(tasks, t).end, next) && plane.Finite(start, next)
      then plane.Seconds(Ends(tasks, t).end, next).value - plane.Seconds(start, next).value else 0.0
  }

  lemma LengthensAtFront(plane: Plane, tasks: seq<Task>, start: int, chain: seq<int>, t: int)
    requires Feasible(plane, tasks, start, chain) && IsTask(tasks, t) && LegsConnect(plane, tasks, start, chain, 0, t)
    ensures Stops(tasks, t) != [] && TaskSeconds(plane, tasks, start, t).Some?
    ensures Lengthens(plane, tasks, start, chain, 0, t,
      TaskSeconds(plane, tasks, start, t).value + Rerouting(plane, tasks, start, chain, t))
  {
    var longer := InsertAt(chain, 0, t);
    assert longer[1..] == chain;
    InsertKeepsFeasible(plane, tasks, start, chain, 0, t);
    DurationStep(plane, tasks, start, longer);
    if chain != [] {
      EntryMoves(plane, tasks, start, Ends(tasks, t).end, chain);
    }
  }

  lemma RawDeltaAtFront(plane: Plane, tasks: seq<Task>, start: int, chain: seq<int>, t: int)
    requires Feasible(plane, tasks, start, chain) && IsTask(tasks, t) && LegsConnect(plane, tasks, start, chain, 0, t)
    requires Stops(tasks, t) != [] && TaskSeconds(plane, tasks, start, t).Some?
    ensures RawDelta(plane, tasks, start, chain, 0, t)
      == Some(TaskSeconds(plane, tasks, start, t).value + Rerouting(plane, tasks, start, chain, t))
  {
    EndpointsAreCollected(tasks[t]);
  }

  lemma RawDeltaInRest(plane: Plane, tasks: seq<Task>, start: int, chain: seq<int>, pos: nat, t: int)
    requires 0 < pos <= |chain| && IsTask(tasks, chain[0]) && IsTask(tasks, t)
    ensures RawDelta(plane, tasks, start, chain, pos, t)
      == RawDelta(plane, tasks, Ends(tasks, chain[0]).end, chain[1..], pos - 1, t)
  {
    EndsInRest(tasks, start, chain, pos);
  }

  // The rest of a chain has the same nodes around a position.
  lemma EndsInRest(tasks: seq<Task>, start: int, chain: seq<int>, pos: nat)
    requires 0 < pos <= |chain| && IsTask(tasks, chain[0])
    ensures NodeBefore(tasks, start, chain, pos) == NodeBefore(tasks, Ends(tasks, chain[0]).end, chain[1..], pos - 1)
    ensures NodeAfter(tasks, chain, pos) == NodeAfter(tasks, chain[1..], pos - 1)
  {
    assert pos > 1 ==> chain[1..][pos - 2] == chain[pos - 1];
    assert pos < |chain| ==> chain[1..][pos - 1] == chain[pos];
  }

  lemma LengthensBefore(plane: Plane, tasks: seq<Task>, start: int, chain: seq<int>, pos: nat, t: int, d: real)
    requires 0 < pos <= |chain| && Feasible(plane, tasks, start, chain)
    requires Feasible(plane, tasks, start, InsertAt(chain, pos, t))
    requires Lengthens(plane, tasks, Ends(tasks, chain[0]).end, chain[1..], pos - 1, t, d)
    ensures Lengthens(plane, tasks, start, chain, pos, t, d)
  {
    InsertInRest(chain, pos, t);
    DurationStep(plane, tasks, start, chain);
    DurationStep(plane, tasks, start, InsertAt(chain, pos, t));
  }

  // The value minimised is what the chain's duration grows by.
  lemma {:induction false} DeltaIsAddedDuration(plane: Plane, tasks: seq<Task>, start: int, chain: seq<int>, pos: nat, t: int)
    requires Feasible(plane, tasks, start, chain) && pos <= |chain| && IsTask(tasks, t)
    requires LegsConnect(plane, tasks, start, chain, pos, t)
    ensures RawDelta(plane, tasks, start, chain, pos, t).Some?
    ensures Lengthens(plane, tasks, start, chain, pos, t, RawDelta(plane, tasks, start, chain, pos, t).value)
    decreases pos
  {
    if pos == 0 {
      LengthensAtFront(plane, tasks, start, chain, t);
      RawDeltaAtFront(plane, tasks, start, chain, t);
    } else {
      var end := Ends(tasks, chain[0]).end;
      LegsConnectInRest(plane, tasks, start, chain, pos, t);
      DeltaIsAddedDuration(plane, tasks, end, chain[1..], pos - 1, t);
      RawDeltaInRest(plane, tasks, start, chain, pos, t);
      InsertKeepsFeasible(plane, tasks, start, chain, pos, t);
      LengthensBefore(plane, tasks, start, chain, pos, t, RawDelta(plane, tasks, end, chain[1..], pos - 1, t).value);
    }
  }

  // Every available chain is feasible.
  ghost predicate AvailableFeasible(plane: Plane, tasks: seq<Task>, starts: seq<int>, available: seq<int>, rows: Rows) {
    |rows| <= |starts| && forall k {:trigger available[k]} :: 0 <= k < |available| && 0 <= available[k] < |rows| ==>
      Feasible(plane, tasks, starts[available[k]], rows[available[k]])
  }

  // A valid endpoint, connected own legs and an available AMR whose start is connected.
  ghost predicate CanBePlaced(plane: Plane, tasks: seq<Task>, starts: seq<int>, available: seq<int>, n: nat, t: int)
    requires n <= |starts|
  {
    IsTask(tasks, t) && exists k {:trigger available[k]} ::
      0 <= k < |available| && 0 <= available[k] < n && LegOk(plane, tasks, starts[available[k]], t)
  }

  lemma StepIsRight(plane: Plane, tasks: seq<Task>, starts: seq<int>, available: seq<int>, rows: Rows, t: int,
                    place: Option<Place>, rows': Rows)
    requires AvailableFeasible(plane, tasks, starts, available, rows)
    requires IsStep(available, OffersFor(plane, tasks, starts), rows, t, place, rows')
    ensures AvailableFeasible(plane, tasks, starts, available, rows') && |rows'| == |rows|
    ensures place.Some? <==> CanBePlaced(plane, tasks, starts, available, |rows|, t)
  {
    if place.Some? {
      PlacedIsRight(plane, tasks, starts, available, rows, t, place.value);
    } else if CanBePlaced(plane, tasks, starts, available, |rows|, t) {
      var k := PlaceableHasOffer(plane, tasks, starts, available, rows, t);
    }
  }

  lemma PlaceableHasOffer(plane: Plane, tasks: seq<Task>, starts: seq<int>, available: seq<int>, rows: Rows, t: int) returns (k: int)
    requires AvailableFeasible(plane, tasks, starts, available, rows) && CanBePlaced(plane, tasks, starts, available, |rows|, t)
    ensures IsOffer(available, rows, OffersOf(plane, tasks, starts, rows, t), k, 0)
  {
    k :| 0 <= k < |available| && 0 <= available[k] < |rows| && LegOk(plane, tasks, starts[available[k]], t);
    var ai := available[k];
    FeasibleNamesTasks(plane, tasks, starts[ai], rows[ai]);
    EndpointsAreCollected(tasks[t]);
    LinkGivesOffer(plane, tasks, starts[ai], rows[ai], t);
    RawDeltaMeansLegsConnect(plane, tasks, starts[ai], rows[ai], 0, t);
    DeltaIsNeverNegative(plane, tasks, starts[ai], rows[ai], 0, t);
  }

  lemma PlacedIsRight(plane: Plane, tasks: seq<Task>, starts: seq<int>, available: seq<int>, rows: Rows, t: int, place: Place)
    requires AvailableFeasible(plane, tasks, starts, available, rows)
    requires IsBestPlace(available, rows, OffersOf(plane, tasks, starts, rows, t), Some(place))
    ensures 0 <= place.row < |rows| && 0 <= place.pos <= |rows[place.row]|
    ensures AvailableFeasible(plane, tasks, starts, available, rows[place.row := InsertAt(rows[place.row], place.pos, t)])
    ensures CanBePlaced(plane, tasks, starts, available, |rows|, t)
  {
    var delta := OffersOf(plane, tasks, starts, rows, t);
    var k :| 0 <= k < |available| && available[k] == place.row && IsOffer(available, rows, delta, k, place.pos);
    var ai, pos := place.row, place.pos;
    var chain := rows[ai];
    RawDeltaMeansLegsConnect(plane, tasks, starts[ai], chain, pos, t);
    BeforeIsLinked(plane, tasks, starts[ai], chain, pos, Ends(tasks, t).start);
    assert LegOk(plane, tasks, starts[available[k]], t);
    InsertKeepsFeasible(plane, tasks, starts[ai], chain, pos, t);
  }

  // Through the whole run: chains stay feasible, and exactly the tasks that can be placed are.
  lemma {:induction false} RunKeepsFeasible(plane: Plane, tasks: seq<Task>, starts: seq<int>, available: seq<int>,
                                            ts: seq<int>, trace: seq<Rows>, places: seq<Option<Place>>, n: nat)
    requires IsRun(available, OffersFor(plane, tasks, starts), ts, trace, places) && n <= |ts|
    requires AvailableFeasible(plane, tasks, starts, available, trace[0])
    ensures AvailableFeasible(plane, tasks, starts, available, trace[n]) && |trace[n]| == |trace[0]|
    ensures forall k {:trigger places[k]} :: 0 <= k < n ==>
      (places[k].Some? <==> CanBePlaced(plane, tasks, starts, available, |trace[0]|, ts[k]))
  {
    if n > 0 {
      var k := n - 1;
      RunKeepsFeasible(plane, tasks, starts, available, ts, trace, places, k);
      assert IsStep(available, OffersFor(plane, tasks, starts), trace[k], ts[k], places[k], trace[k + 1]);
      StepIsRight(plane, tasks, starts, available, trace[k], ts[k], places[k], trace[k + 1]);
    }
  }

  // The outcome: candidates in their order, what is left in pending.
  ghost predicate IsInserted(plane: Plane, tasks: seq<Task>, starts: seq<int>, available: seq<int>, rows0: Rows,
                             candidates: seq<int>, rows: Rows, pending: seq<int>, trace: seq<Rows>, places: seq<Option<Place>>)
  {
    && IsRun(available, OffersFor(plane, tasks, starts), candidates, trace, places)
    && trace[0] == rows0 && trace[|candidates|] == rows
    && pending == Unplaced(candidates, places, |candidates|)
  }

  // ---- the order of the candidates ----

  // `NormalizeStartIso`
  function StartIso(task: Task): string {
    if task.expectedStart != "" then task.expectedStart
    else if task.created != "" then task.created
    else "9999-12-31T23:59:59Z"
  }

  // The order of `std::string`.
  predicate TextBefore(a: string, b: string)
    decreases |a|
  {
    b != "" && (a == "" || a[0] < b[0] || (a[0] == b[0] && TextBefore(a[1..], b[1..])))
  }

  lemma {:induction false} TextBeforeIsTransitive(a: string, b: string, c: string)
    requires TextBefore(a, b) && TextBefore(b, c)
    ensures TextBefore(a, c)
    decreases |a|
  {
    if a != "" && a[0] == b[0] && b[0] == c[0] {
      TextBeforeIsTransitive(a[1..], b[1..], c[1..]);
    }
  }

  lemma {:induction false} TextBeforeIsStrict(a: string)
    ensures !TextBefore(a, a)
    decreases |a|
  {
    if a != "" { TextBeforeIsStrict(a[1..]); }
  }

  // The texts agree up to some place at which one ends or has the smaller character.
  lemma {:induction false} TextBeforeExactly(a: string, b: string)
    ensures TextBefore(a, b) <==> exists k :: FirstDifference(a, b, k) && (k == |a| || a[k] < b[k])
    decreases |a|
  {
    if a != "" && b != "" && a[0] == b[0] {
      TextBeforeExactly(a[1..], b[1..]);
      if k :| FirstDifference(a, b, k) && (k == |a| || a[k] < b[k]) {
        DifferenceInRest(a, b, k);
        assert FirstDifference(a[1..], b[1..], k - 1);
      }
      if k :| FirstDifference(a[1..], b[1..], k) && (k == |a| - 1 || a[1..][k] < b[1..][k]) {
        DifferenceInRest(a, b, k + 1);
        assert FirstDifference(a, b, k + 1);
      }
    } else {
      assert b != "" && (a == "" || a[0] < b[0]) ==> FirstDifference(a, b, 0);
    }
  }

  // Place k lies within b, and before it the texts agree.
  predicate FirstDifference(a: string, b: string, k: int) {
    0 <= k <= |a| && k < |b| && (forall i :: 0 <= i < k ==> a[i] == b[i]) && (k < |a| ==> a[k] != b[k])
  }

  lemma DifferenceInRest(a: string, b: string, k: int)
    requires a != "" && b != "" && a[0] == b[0]
    ensures FirstDifference(a, b, k) <==> k > 0 && FirstDifference(a[1..], b[1..], k - 1)
  {
    if FirstDifference(a, b, k) {
      assert forall i :: 0 <= i < k - 1 ==> a[1..][i] == a[i + 1] && b[1..][i] == b[i + 1];
    }
    if k > 0 && FirstDifference(a[1..], b[1..], k - 1) {
      forall i | 0 <= i < k ensures a[i] == b[i] {
        if i > 0 { assert a[1..][i - 1] == b[1..][i - 1]; }
      }
    }
  }

  // A higher priority goes first, then an earlier start.
  predicate GoesBefore(tasks: seq<Task>, a: int, b: int) {
    && IsTask(tasks, a) && IsTask(tasks, b)
    && (if tasks[a].priority != tasks[b].priority then tasks[a].priority > tasks[b].priority
        else TextBefore(StartIso(tasks[a]), StartIso(tasks[b])))
  }

  lemma GoesBeforeIsStrictOrder(tasks: seq<Task>, a: int, b: int, c: int)
    ensures !GoesBefore(tasks, a, a)
    ensures GoesBefore(tasks, a, b) && GoesBefore(tasks, b, c) ==> GoesBefore(tasks, a, c)
  {
    if IsTask(tasks, a) { TextBeforeIsStrict(StartIso(tasks[a])); }
    if GoesBefore(tasks, a, b) && GoesBefore(tasks, b, c) && tasks[a].priority == tasks[c].priority {
      TextBeforeIsTransitive(StartIso(tasks[a]), StartIso(tasks[b]), StartIso(tasks[c]));
    }
  }

  predicate InOrder(tasks: seq<Task>, candidates: seq<int>) {
    forall i, j :: 0 <= i < j < |candidates| ==> !GoesBefore(tasks, candidates[j], candidates[i])
  }

  lemma InsertKeepsOrder(tasks: seq<Task>, s: seq<int>, p: nat, t: int)
    requires InOrder(tasks, s) && p <= |s|
    requires forall i :: 0 <= i < p ==> !GoesBefore(tasks, t, s[i])
    requires p < |s| ==> GoesBefore(tasks, t, s[p])
    ensures InOrder(tasks, InsertAt(s, p, t))
  {
    forall j | p <= j < |s| ensures !GoesBefore(tasks, s[j], t) {
      GoesBeforeIsStrictOrder(tasks, s[j], t, s[p]);
    }
    var longer := InsertAt(s, p, t);
    forall i, j | 0 <= i < j < |longer| ensures !GoesBefore(tasks, longer[j], longer[i]) {
      var before, after := if i < p then i else i - 1, if j < p then j else j - 1;
      assert i != p ==> longer[i] == s[before];
      assert j != p ==> longer[j] == s[after];
    }
  }

  // One more candidate, placed where the order lets it.
  method InsertInOrder(tasks: seq<Task>, s: seq<int>, t: int) returns (r: seq<int>)
    requires InOrder(tasks, s)
    ensures InOrder(tasks, r) && multiset(r) == multiset(s) + multiset{t}
  {
    var p := 0;
    while p < |s| && !GoesBefore(tasks, t, s[p])
      invariant 0 <= p <= |s| && forall i :: 0 <= i < p ==> !GoesBefore(tasks, t, s[i])
    {
      p := p + 1;
    }
    InsertKeepsOrder(tasks, s, p, t);
    r := InsertAt(s, p, t);
  }

  // The candidates: the forced indices that are tasks, sorted.
  method SortCandidates(tasks: seq<Task>, forced: seq<int>) returns (r: seq<int>)
    ensures InOrder(tasks, r) && multiset(r) == multiset(TasksIn(tasks, forced))
  {
    r := [];
    for i := 0 to |forced|
      invariant InOrder(tasks, r)
      invariant multiset(r) + multiset(TasksIn(tasks, forced[i..])) == multiset(TasksIn(tasks, forced))
    {
      assert forced[i..][1..] == forced[i + 1..];
      if IsTask(tasks, forced[i]) {
        ghost var rest := TasksIn(tasks, forced[i + 1..]);
        assert multiset([forced[i]] + rest) == multiset{forced[i]} + multiset(rest);
        r := InsertInOrder(tasks, r, forced[i]);
      }
    }
  }

  // The candidates are placed in the order of their priority and start time; equal ones may
  // come in any order. Without forced tasks or available AMRs the forced list comes back.
  method InsertForcedTasks(plane: Plane, tasks: seq<Task>, starts: seq<int>, rows0: Rows, forced: seq<int>,
                           available: seq<int>)
      returns (rows: Rows, pending: seq<int>, ghost candidates: seq<int>, ghost trace: seq<Rows>, ghost places: seq<Option<Place>>)
    requires |rows0| <= |starts|
    ensures forced == [] || available == [] ==> rows == rows0 && pending == forced
    ensures forced != [] && available != [] ==>
      && InOrder(tasks, candidates) && multiset(candidates) == multiset(TasksIn(tasks, forced))
      && IsInserted(plane, tasks, starts, available, rows0, candidates, rows, pending, trace, places)
  {
    rows, candidates, trace, places := rows0, [], [rows0], [];
    if forced == [] || available == [] {
      pending := forced;
      return;
    }
    var sorted := SortCandidates(tasks, forced);
    candidates := sorted;
    rows, pending, trace, places := PlaceEach(available, OffersFor(plane, tasks, starts), rows0, sorted);
  }

  // A candidate stays pending exactly when it has no valid endpoint, its own legs are not
  // connected, or no available AMR is connected to it; and nothing is lost or doubled.
  lemma PendingExactly(plane: Plane, tasks: seq<Task>, starts: seq<int>, available: seq<int>, rows0: Rows,
                       candidates: seq<int>, rows: Rows, pending: seq<int>, trace: seq<Rows>, places: seq<Option<Place>>)
    requires IsInserted(plane, tasks, starts, available, rows0, candidates, rows, pending, trace, places)
    requires AvailableFeasible(plane, tasks, starts, available, rows0)
    ensures AvailableFeasible(plane, tasks, starts, available, rows) && |rows| == |rows0|
    ensures forall t :: t in pending <==> t in candidates && !CanBePlaced(plane, tasks, starts, available, |rows0|, t)
    ensures Tally(rows) + multiset(pending) == Tally(rows0) + multiset(candidates)
  {
    var n := |candidates|;
    RunKeepsFeasible(plane, tasks, starts, available, candidates, trace, places, n);
    RunConserves(available, OffersFor(plane, tasks, starts), candidates, trace, places, n);
    UnplacedAreBad(candidates, places, n, t => CanBePlaced(plane, tasks, starts, available, |rows0|, t));
    assert candidates[..n] == candidates;
  }

  // The filter and the insertion judge alike: over the same AMRs a task is accepted exactly
  // when it can be placed.
  lemma FilterAgreesWithInsertion(plane: Plane, tasks: seq<Task>, starts: seq<int>, available: seq<int>, n: nat, t: int)
    requires n <= |starts| && available != [] && IsTask(tasks, t)
    requires forall k :: 0 <= k < |available| ==> 0 <= available[k] < n
    ensures Accepts(plane, StartsOf(starts, available), tasks[t]) <==> CanBePlaced(plane, tasks, starts, available, n, t)
  {
    var amrs := StartsOf(starts, available);
    if Accepts(plane, amrs, tasks[t]) {
      var i :| 0 <= i < |amrs| && plane.Finite(amrs[i], ResolveEndpoints(tasks[t]).start);
      assert LegOk(plane, tasks, starts[available[i]], t);
    }
    if CanBePlaced(plane, tasks, starts, available, n, t) {
      var k :| 0 <= k < |available| && LegOk(plane, tasks, starts[available[k]], t);
      EndpointsAreCollected(tasks[t]);
      assert plane.Finite(amrs[k], ResolveEndpoints(tasks[t]).start);
    }
  }

  // The start nodes of the available AMRs.
  function StartsOf(starts: seq<int>, available: seq<int>): seq<int>
    requires forall k :: 0 <= k < |available| ==> 0 <= available[k] < |starts|
  {
    seq(|available|, k requires 0 <= k < |available| => starts[available[k]])
  }

  // So the tasks the filter forced out over these AMRs are never inserted.
  lemma ForcedTasksStayForced(plane: Plane, tasks: seq<Task>, starts: seq<int>, available: seq<int>, rows0: Rows,
                              candidates: seq<int>, rows: Rows, pending: seq<int>, trace: seq<Rows>, places: seq<Option<Place>>,
                              r: FilterResult)
    requires IsInserted(plane, tasks, starts, available, rows0, candidates, rows, pending, trace, places)
    requires AvailableFeasible(plane, tasks, starts, available, rows0) && available != []
    requires forall k :: 0 <= k < |available| ==> 0 <= available[k] < |rows0|
    requires IsSplit(plane, StartsOf(starts, available), tasks, |tasks|, r)
    requires forall k :: 0 <= k < |candidates| ==> candidates[k] in r.forcedTaskIndices
    ensures rows == rows0 && pending == candidates
  {
    RunKeepsFeasible(plane, tasks, starts, available, candidates, trace, places, |candidates|);
    forall k | 0 <= k < |candidates| ensures places[k].None? {
      assert candidates[k] in r.forcedTaskIndices;
      FilterAgreesWithInsertion(plane, tasks, starts, available, |rows0|, candidates[k]);
    }
    NothingPlaced(available, OffersFor(plane, tasks, starts), candidates, trace, places, |candidates|);
    assert candidates[..|candidates|] == candidates;
  }
}
