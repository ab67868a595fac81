// One call of `findPath` as a best-first search problem on the map: which steps the code
// lets through, what they cost, and when the Manhattan estimate bounds the result.
module AStarSpec {
  import opened Util
  import opened MapModel
  import opened BestFirst

  // The two end points are already mapped to indices. A null ban list or penalty table
  // behaves as an empty one. `price` is the step price PriceOf spells out.
  datatype Query = Query(
    m: RoadMap,
    start: int,
    goal: int,
    turn: real,
    bannedNodes: set<int>,
    bannedEdges: set<(int, int)>,
    nodePenalty: map<int, real>,
    nodePenaltyMm: real,
    price: (int, int, int) -> real)
  {
    ghost predicate Valid() {
      && m.WellFormed() && m.InRange(start) && m.InRange(goal)
      && forall p, u, v :: IsPrice(p, u, v)
    }

    ghost predicate IsPrice(p: int, u: int, v: int) {
      m.InRange(u) && m.InRange(v) ==>
        price(p, u, v) == PriceOf(m, turn, nodePenalty, nodePenaltyMm, p, u, v)
    }

    // The tests that let the search move from node u to its listed successor v.
    predicate StepOk(u: int, v: int) {
      && m.InRange(u) && m.InRange(v)
      && v in m.Successors(u)
      && m.nodes[v].allowPass
      && (m.nodes[u].id, m.nodes[v].id) !in bannedEdges
      && (v == goal || v == start || m.nodes[v].id !in bannedNodes)
    }

    function AsProblem(): Problem
      requires m.InRange(goal)
    {
      Problem(|m.nodes|, start, goal,
        u => m.Successors(u),
        (u, v) => StepOk(u, v),
        price,
        u => if m.InRange(u) then m.Manhattan(u, goal) else 0.0)
    }

    // kappa bounds Manhattan length by Euclidean length on every edge the search may take,
    // and the turn penalty is not negative.
    ghost predicate Stretched(kappa: real) {
      && kappa >= 1.0 && turn >= 0.0
      && forall u, v {:trigger Stretch(m, kappa, u, v)} :: StepOk(u, v) ==> Stretch(m, kappa, u, v)
    }
  }

  function PenaltyCost(m: RoadMap, nodePenalty: map<int, real>, nodePenaltyMm: real, v: int): (r: real)
    requires m.InRange(v)
    ensures r >= 0.0
  {
    if nodePenaltyMm > 0.0 && m.nodes[v].id in nodePenalty
    then nodePenaltyMm * Clamp01(nodePenalty[m.nodes[v].id])
    else 0.0
  }

  // Edge length, turn penalty and node penalty of entering v from u after p.
  function PriceOf(m: RoadMap, turn: real, nodePenalty: map<int, real>, nodePenaltyMm: real,
                   p: int, u: int, v: int): (r: real)
    requires m.InRange(u) && m.InRange(v)
    ensures turn >= 0.0 ==> r >= m.span(u, v)
  {
    m.span(u, v) + (if p >= 0 then m.TurnPenaltyMm(p, u, v, turn) else 0.0)
      + PenaltyCost(m, nodePenalty, nodePenaltyMm, v)
  }

  function MakeQuery(m: RoadMap, start: int, goal: int, turn: real, bannedNodes: set<int>,
                     bannedEdges: set<(int, int)>, nodePenalty: map<int, real>, nodePenaltyMm: real): (q: Query)
    requires m.WellFormed() && m.InRange(start) && m.InRange(goal)
    ensures q.Valid()
  {
    Query(m, start, goal, turn, bannedNodes, bannedEdges, nodePenalty, nodePenaltyMm,
      (p, u, v) => if m.InRange(u) && m.InRange(v)
                   then PriceOf(m, turn, nodePenalty, nodePenaltyMm, p, u, v) else 0.0)
  }

  lemma ProblemIsValid(q: Query)
    requires q.Valid()
    ensures q.AsProblem().Valid()
  {
    var pb := q.AsProblem();
    forall u, v | pb.Ok(u, v) ensures pb.IsNode(u) && pb.IsNode(v) && v in pb.Next(u) {
      assert q.StepOk(u, v);
    }
  }

  lemma PriceCoversLength(q: Query, p: int, u: int, v: int)
    requires q.Valid() && q.turn >= 0.0 && q.m.InRange(u) && q.m.InRange(v)
    ensures q.price(p, u, v) >= q.m.span(u, v)
  {
    assert q.IsPrice(p, u, v);
  }

  // A step that costs at least its length covers, times kappa, the drop of the estimate.
  lemma LengthCovers(m: RoadMap, goal: int, kappa: real, u: int, v: int, c: real)
    requires m.InRange(u) && m.InRange(v) && m.InRange(goal) && m.span(u, v) >= 0.0
    requires kappa >= 1.0 && Stretch(m, kappa, u, v) && c >= m.span(u, v)
    ensures c >= 0.0 && m.Manhattan(u, goal) <= kappa * c + m.Manhattan(v, goal)
  {
    var far, near, whole := m.Manhattan(u, v), m.Manhattan(v, goal), m.Manhattan(u, goal);
    assert whole <= far + near by {
      m.ManhattanTriangle(u, v, goal);
    }
    StretchCovers(m, kappa, u, v, c);
  }

  // Prices scaled by kappa.
  ghost function Scaled(kappa: real, price: (int, int, int) -> real): (int, int, int) -> real {
    (p, u, v) => kappa * price(p, u, v)
  }

  lemma {:induction false} ScaledCost(kappa: real, price: (int, int, int) -> real, w: seq<int>)
    requires |w| >= 1
    ensures CostAt(Scaled(kappa, price), w) == kappa * CostAt(price, w)
  {
    if |w| > 1 {
      var front := w[..|w| - 1];
      var s := LastState(front);
      ScaledCost(kappa, price, front);
      var base, step := CostAt(price, front), price(s.prev, s.curr, w[|w| - 1]);
      assert kappa * (base + step) == kappa * base + kappa * step;
    }
  }

  lemma AtLeastOnce(kappa: real, c: real, upper: real)
    requires kappa >= 1.0 && c >= 0.0 && upper == kappa * c
    ensures c <= upper
  {
    MulMonotone(c, 1.0, kappa);
    assert c * kappa == kappa * c;
  }

  lemma ScaledStep(m: RoadMap, goal: int, kappa: real, u: int, v: int, c: real, upper: real)
    requires m.InRange(u) && m.InRange(v) && m.InRange(goal) && m.span(u, v) >= 0.0
    requires kappa >= 1.0 && Stretch(m, kappa, u, v) && c >= m.span(u, v)
    requires upper == kappa * c
    ensures 0.0 <= c <= upper && m.Manhattan(u, goal) <= upper + m.Manhattan(v, goal)
  {
    LengthCovers(m, goal, kappa, u, v, c);
    AtLeastOnce(kappa, c, upper);
  }

  // The problem's terms for one step are the query's.
  lemma ProblemTerms(q: Query, p: int, u: int, v: int)
    requires q.m.InRange(q.goal) && q.m.InRange(u) && q.m.InRange(v)
    ensures var pb := q.AsProblem();
      && pb.StepCost(p, u, v) == q.price(p, u, v)
      && pb.Estimate(u) == q.m.Manhattan(u, q.goal)
      && pb.Estimate(v) == q.m.Manhattan(v, q.goal)
  {
  }

  lemma StepIsCovered(m: RoadMap, goal: int, kappa: real, price: (int, int, int) -> real, p: int, u: int, v: int)
    requires m.InRange(u) && m.InRange(v) && m.InRange(goal) && m.span(u, v) >= 0.0
    requires kappa >= 1.0 && Stretch(m, kappa, u, v) && price(p, u, v) >= m.span(u, v)
    ensures 0.0 <= price(p, u, v) <= Scaled(kappa, price)(p, u, v)
    ensures m.Manhattan(u, goal) <= Scaled(kappa, price)(p, u, v) + m.Manhattan(v, goal)
  {
    var c, upper := price(p, u, v), Scaled(kappa, price)(p, u, v);
    assert upper == kappa * c;
    ScaledStep(m, goal, kappa, u, v, c, upper);
  }

  // Every step costs at least its length.
  ghost predicate CoversLengths(q: Query) {
    forall p, u, v :: q.m.InRange(u) && q.m.InRange(v) ==> q.price(p, u, v) >= q.m.span(u, v)
  }

  lemma OkIsCovered(q: Query, kappa: real, p: int, u: int, v: int)
    requires q.m.InRange(q.goal) && q.m.InRange(u) && q.m.InRange(v) && kappa >= 1.0 && q.m.span(u, v) >= 0.0
    requires Stretch(q.m, kappa, u, v) && q.price(p, u, v) >= q.m.span(u, v)
    ensures PriceCovers(q.AsProblem(), Scaled(kappa, q.price), p, u, v)
  {
    StepIsCovered(q.m, q.goal, kappa, q.price, p, u, v);
    ProblemTerms(q, p, u, v);
  }

  lemma CoveredIsBounded(q: Query, kappa: real)
    requires q.m.WellFormed() && q.m.InRange(q.goal) && CoversLengths(q) && q.Stretched(kappa)
    ensures Bounded(q.AsProblem(), Scaled(kappa, q.price))
  {
    var pb := q.AsProblem();
    var upper := Scaled(kappa, q.price);
    forall p, u, v | pb.Ok(u, v) ensures PriceCovers(pb, upper, p, u, v) {
      assert q.StepOk(u, v);
      assert Stretch(q.m, kappa, u, v);
      q.m.SpanNonNegative(u, v);
      OkIsCovered(q, kappa, p, u, v);
    }
  }

  lemma StretchedIsBounded(q: Query, kappa: real)
    requires q.Valid() && q.Stretched(kappa)
    ensures Bounded(q.AsProblem(), Scaled(kappa, q.price))
  {
    forall p, u, v | q.m.InRange(u) && q.m.InRange(v) ensures q.price(p, u, v) >= q.m.span(u, v) {
      PriceCoversLength(q, p, u, v);
    }
    CoveredIsBounded(q, kappa);
  }

  // Every edge the search may take is parallel to an axis.
  ghost predicate AxisAligned(q: Query) {
    forall u, v :: q.StepOk(u, v) ==>
      q.m.nodes[u].x == q.m.nodes[v].x || q.m.nodes[u].y == q.m.nodes[v].y
  }

  lemma AxisAlignedStretched(q: Query)
    requires q.Valid() && q.turn >= 0.0 && AxisAligned(q)
    ensures q.Stretched(1.0)
  {
    forall u, v | q.StepOk(u, v) ensures Stretch(q.m, 1.0, u, v) {
      assert q.m.IsSpan(u, v);
      AxisAlignedStretch(q.m, u, v);
    }
  }

  lemma EveryMapStretched(q: Query, kappa: real)
    requires q.Valid() && q.turn >= 0.0 && kappa >= 1.0 && kappa * kappa >= 2.0
    ensures q.Stretched(kappa)
  {
    forall u, v | q.StepOk(u, v) ensures Stretch(q.m, kappa, u, v) {
      assert q.m.IsSpan(u, v);
      DiagonalStretch(q.m, kappa, u, v);
    }
  }

  // What an accepted distance means on the map, for any kappa that bounds its edges.
  lemma DistanceWithinStretch(q: Query, distance: real, w: seq<int>, kappa: real)
    requires q.Valid() && NearBest(q.AsProblem(), distance) && IsRoute(q.AsProblem(), w)
    requires q.Stretched(kappa)
    ensures distance <= kappa * Cost(q.AsProblem(), w)
  {
    var upper := Scaled(kappa, q.price);
    assert distance <= CostAt(upper, w) by {
      StretchedIsBounded(q, kappa);
    }
    ScaledCost(kappa, q.price, w);
  }

  // Axis-aligned maps: the distance is the least cost of any route.
  lemma AxisAlignedDistanceIsLeast(q: Query, distance: real, w: seq<int>)
    requires q.Valid() && NearBest(q.AsProblem(), distance) && IsRoute(q.AsProblem(), w)
    requires q.turn >= 0.0 && AxisAligned(q)
    ensures distance <= Cost(q.AsProblem(), w)
  {
    AxisAlignedStretched(q);
    DistanceWithinStretch(q, distance, w, 1.0);
  }

  // Every map: at most the square root of two times the least cost.
  lemma EveryMapDistanceBound(q: Query, distance: real, w: seq<int>, kappa: real)
    requires q.Valid() && NearBest(q.AsProblem(), distance) && IsRoute(q.AsProblem(), w)
    requires q.turn >= 0.0 && kappa >= 1.0 && kappa * kappa >= 2.0
    ensures distance <= kappa * Cost(q.AsProblem(), w)
  {
    EveryMapStretched(q, kappa);
    DistanceWithinStretch(q, distance, w, kappa);
  }

  // Whether a route exists does not depend on the turn penalty or the node penalties.
  lemma RoutesIgnorePenalties(q: Query, q': Query, w: seq<int>)
    requires q.Valid() && q'.Valid()
    requires q.m == q'.m && q.start == q'.start && q.goal == q'.goal
    requires q.bannedNodes == q'.bannedNodes && q.bannedEdges == q'.bannedEdges
    ensures IsRoute(q.AsProblem(), w) <==> IsRoute(q'.AsProblem(), w)
  {
    assert forall u, v :: q.AsProblem().Ok(u, v) <==> q'.AsProblem().Ok(u, v);
  }

  // Which walks are routes, on the map itself: from start to goal along listed successors, over
  // passable nodes, no banned edge, and no banned node but the two ends.
  lemma RouteExactly(q: Query, w: seq<int>)
    requires q.Valid()
    ensures IsRoute(q.AsProblem(), w) <==>
      && |w| >= 1 && w[0] == q.start && w[|w| - 1] == q.goal
      && forall i :: 0 <= i < |w| - 1 ==> IsLegalStep(q, w[i], w[i + 1])
  {
    assert forall u, v :: q.AsProblem().Ok(u, v) <==> q.StepOk(u, v);
    assert forall u, v :: q.StepOk(u, v) <==> IsLegalStep(q, u, v);
  }

  predicate IsLegalStep(q: Query, u: int, v: int) {
    && 0 <= u < |q.m.nodes| && 0 <= v < |q.m.nodes| && u in q.m.aft && v in q.m.aft[u] && q.m.nodes[v].allowPass
    && !((q.m.nodes[u].id, q.m.nodes[v].id) in q.bannedEdges)
    && (q.m.nodes[v].id in q.bannedNodes ==> v == q.start || v == q.goal)
  }
}
