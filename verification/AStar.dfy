// The class `AStarPathFinder`: node numbering tables and the public `findPath`.
module AStar {
  import opened Util
  import opened MapModel
  import opened BestFirst
  import opened AStarSpec
  import Search

  datatype PathResult = PathResult(path: seq<int>, distance: real, found: bool)

  const NO_PATH := PathResult([], 0.0, false)

  predicate OnMap(m: RoadMap, w: seq<int>) {
    forall i {:trigger w[i]} :: 0 <= i < |w| ==> m.InRange(w[i])
  }

  // The node ids along a walk of indices.
  function Ids(m: RoadMap, w: seq<int>): (r: seq<int>)
    requires OnMap(m, w)
    ensures |r| == |w| && forall i :: 0 <= i < |w| ==> r[i] == m.nodes[w[i]].id
  {
    seq(|w|, i requires 0 <= i < |w| => m.nodes[w[i]].id)
  }

  // What a caller may rely on: `found` exactly when a route exists, and then a route of
  // the reported cost that is at most any route's upper price. A goal that may
  // not be passed has no route, even from itself.
  ghost predicate Answers(q: Query, r: PathResult)
    requires q.Valid()
  {
    var pb := q.AsProblem();
    && (r.found <==> q.m.nodes[q.goal].allowPass && exists w :: IsRoute(pb, w))
    && (r.found ==> NearBest(pb, r.distance) && ExplainedBy(q, r))
    && (!r.found ==> r == NO_PATH)
  }

  ghost predicate ExplainedBy(q: Query, r: PathResult)
    requires q.Valid()
  {
    exists w :: RouteWithIds(q, w, r.path) && r.distance == Cost(q.AsProblem(), w)
  }

  ghost predicate RouteWithIds(q: Query, w: seq<int>, path: seq<int>)
    requires q.Valid()
  {
    && IsRoute(q.AsProblem(), w)
    && OnMap(q.m, w) && path == Ids(q.m, w)
  }

  class AStarPathFinder {
    const m: RoadMap
    var nodeIdToIndex: map<int, nat>
    var nodeIndexToId: map<nat, int>

    ghost predicate Valid()
      reads this
    {
      && m.WellFormed()
      && IsNumbering(m.nodes, nodeIdToIndex)
      && (forall i: nat :: i in nodeIndexToId <==> i < |m.nodes|)
      && (forall i: nat :: i < |m.nodes| ==> nodeIndexToId[i] == m.nodes[i].id)
    }

    constructor (map_: RoadMap)
      requires map_.WellFormed()
      ensures Valid() && m == map_
    {
      m := map_;
      nodeIdToIndex := map[];
      nodeIndexToId := map[];
      new;
      for i := 0 to |m.nodes|
        invariant IsNumbering(m.nodes[..i], nodeIdToIndex)
        invariant forall k: nat :: k in nodeIndexToId <==> k < i
        invariant forall k: nat :: k < i ==> nodeIndexToId[k] == m.nodes[k].id
      {
        NumberingNext(m.nodes, i, nodeIdToIndex);
        nodeIdToIndex := nodeIdToIndex[m.nodes[i].id := i];
        nodeIndexToId := nodeIndexToId[i := m.nodes[i].id];
      }
      assert m.nodes[..|m.nodes|] == m.nodes;
    }

    method FindPath(startNodeId: int, endNodeId: int, turnPenalty: real, bannedNodes: set<int>,
                    bannedEdges: set<(int, int)>, nodePenalty: map<int, real>, nodePenaltyMm: real)
        returns (r: PathResult)
      requires Valid()
      ensures IndexOf(m.nodes, startNodeId).None? || IndexOf(m.nodes, endNodeId).None? ==> r == NO_PATH
      ensures IndexOf(m.nodes, startNodeId).Some? && IndexOf(m.nodes, endNodeId).Some? ==>
        Answers(MakeQuery(m, IndexOf(m.nodes, startNodeId).value, IndexOf(m.nodes, endNodeId).value,
                      turnPenalty, bannedNodes, bannedEdges, nodePenalty, nodePenaltyMm), r)
    {
      if startNodeId !in nodeIdToIndex || endNodeId !in nodeIdToIndex {
        return NO_PATH;
      }
      var startIdx, endIdx := nodeIdToIndex[startNodeId], nodeIdToIndex[endNodeId];
      var q := MakeQuery(m, startIdx, endIdx, turnPenalty, bannedNodes, bannedEdges, nodePenalty, nodePenaltyMm);
      var pb := q.AsProblem();
      ProblemIsValid(q);
      if startIdx == endIdx {
        if !m.nodes[startIdx].allowPass {
          return NO_PATH;
        }
        assert IsRoute(pb, [startIdx]);
        r := PathResult([startNodeId], 0.0, true);
        ZeroIsBest(q);
        assert RouteWithIds(q, [startIdx], r.path) && Cost(pb, [startIdx]) == 0.0;
        return;
      }
      if !m.nodes[endIdx].allowPass {
        return NO_PATH;
      }
      var route := Search.FindRoute(pb);
      if route.Some? {
        WalkIsOnNodes(pb, route.value.0);
        assert forall i {:trigger route.value.0[i]} :: 0 <= i < |route.value.0| ==> pb.IsNode(route.value.0[i]);
        r := PathResult(Ids(m, route.value.0), route.value.1, true);
        assert RouteWithIds(q, route.value.0, r.path);
      } else {
        r := NO_PATH;
      }
    }
  }

  lemma {:induction false} UpperCostNonNegative(pb: Problem, upper: (int, int, int) -> real, w: seq<int>)
    requires Bounded(pb, upper) && IsWalk(pb, w)
    ensures CostAt(upper, w) >= 0.0
  {
    if |w| > 1 {
      Shorten(pb, w);
      UpperCostNonNegative(pb, upper, w[..|w| - 1]);
      var s := LastState(w[..|w| - 1]);
      assert PriceCovers(pb, upper, s.prev, s.curr, w[|w| - 1]);
    }
  }

  lemma ZeroIsBest(q: Query)
    requires q.Valid()
    ensures NearBest(q.AsProblem(), 0.0)
  {
    var pb := q.AsProblem();
    forall upper, w | Bounded(pb, upper) && IsRoute(pb, w) ensures 0.0 <= CostAt(upper, w) {
      UpperCostNonNegative(pb, upper, w);
    }
  }
}
