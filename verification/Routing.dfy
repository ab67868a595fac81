// Route requests by node ids: what an answer of `findPath` means for them, and how routes
// that meet at a node combine.
module Routing {
  import opened Util
  import opened MapModel
  import opened BestFirst
  import opened AStarSpec
  import opened AStar

  // One question put to `findPath`, by node ids.
  datatype Request = Request(m: RoadMap, start: int, goal: int, banned: set<int>, blockedEdges: set<(int, int)>)
  {
    predicate Known() {
      IndexOf(m.nodes, start).Some? && IndexOf(m.nodes, goal).Some?
    }

    ghost predicate Valid() { m.WellFormed() }

    function AtPenalty(turn: real): (q: Query)
      requires m.WellFormed() && Known()
      ensures q.Valid()
    {
      MakeQuery(m, IndexOf(m.nodes, start).value, IndexOf(m.nodes, goal).value, turn, banned, blockedEdges, map[], 0.0)
    }

    function Plain(): (q: Query)
      requires m.WellFormed() && Known()
      ensures q.Valid()
    {
      AtPenalty(0.0)
    }
  }

  // A route exists. The penalty plays no part in that, so it is taken to be zero.
  ghost predicate Reachable(rq: Request)
    requires rq.Valid()
  {
    && rq.Known() && rq.m.nodes[rq.Plain().goal].allowPass
    && exists w :: IsRoute(rq.Plain().AsProblem(), w)
  }

  // The node ids of some route.
  ghost predicate IsPathOf(rq: Request, path: seq<int>)
    requires rq.Valid()
  {
    rq.Known() && exists w :: RouteWithIds(rq.Plain(), w, path)
  }

  // The node ids of a route whose cost at this penalty is at most every route's upper price.
  ghost predicate IsNearBestPath(rq: Request, turn: real, path: seq<int>)
    requires rq.Valid()
  {
    && rq.Known()
    && var q := rq.AtPenalty(turn);
       exists w :: RouteWithIds(q, w, path) && NearBest(q.AsProblem(), Cost(q.AsProblem(), w))
  }

  // The whole answer to a request: a path exactly when a route exists, near-best at `turn`.
  ghost predicate Answered(rq: Request, turn: real, path: seq<int>)
    requires rq.Valid()
  {
    && (path != [] <==> Reachable(rq))
    && (path != [] ==> IsPathOf(rq, path) && IsNearBestPath(rq, turn, path))
  }

  lemma PenaltyFree(rq: Request, turn: real, w: seq<int>, path: seq<int>)
    requires rq.Valid() && rq.Known()
    ensures RouteWithIds(rq.AtPenalty(turn), w, path) <==> RouteWithIds(rq.Plain(), w, path)
    ensures IsRoute(rq.AtPenalty(turn).AsProblem(), w) <==> IsRoute(rq.Plain().AsProblem(), w)
  {
    RoutesIgnorePenalties(rq.AtPenalty(turn), rq.Plain(), w);
  }

  // One answer of `findPath`, read as an answer to the request.
  lemma AnswerMeans(rq: Request, turn: real, r: PathResult)
    requires rq.Valid()
    requires if rq.Known() then Answers(rq.AtPenalty(turn), r) else r == NO_PATH
    ensures r.found <==> Reachable(rq)
    ensures r.found ==> IsPathOf(rq, r.path) && r.path != [] && IsNearBestPath(rq, turn, r.path)
    ensures !r.found ==> r.path == []
  {
    if rq.Known() {
      var q := rq.AtPenalty(turn);
      forall w ensures IsRoute(q.AsProblem(), w) <==> IsRoute(rq.Plain().AsProblem(), w) {
        PenaltyFree(rq, turn, w, []);
      }
      if r.found {
        var w :| RouteWithIds(q, w, r.path) && r.distance == Cost(q.AsProblem(), w);
        PenaltyFree(rq, turn, w, r.path);
      }
    }
  }

  // Two routes that meet at an unbanned node form a route.
  lemma JoinRoutes(q1: Query, q2: Query, q: Query, w1: seq<int>, w2: seq<int>)
    requires q1.Valid() && q2.Valid() && q.Valid()
    requires q1.m == q.m && q2.m == q.m
    requires q1.start == q.start && q1.goal == q2.start && q2.goal == q.goal
    requires q1.bannedNodes == q.bannedNodes && q2.bannedNodes == q.bannedNodes
    requires q1.bannedEdges == q.bannedEdges && q2.bannedEdges == q.bannedEdges
    requires q.m.nodes[q1.goal].id !in q.bannedNodes
    requires IsRoute(q1.AsProblem(), w1) && IsRoute(q2.AsProblem(), w2)
    ensures IsRoute(q.AsProblem(), w1 + w2[1..])
  {
    var w := w1 + w2[1..];
    var pb := q.AsProblem();
    forall i | 0 <= i < |w| - 1 ensures pb.Ok(w[i], w[i + 1]) {
      if i < |w1| - 1 {
        assert q1.AsProblem().Ok(w1[i], w1[i + 1]);
        assert q1.StepOk(w1[i], w1[i + 1]) && q.StepOk(w1[i], w1[i + 1]);
      } else {
        var j := i - (|w1| - 1);
        assert w[i] == w2[j] && w[i + 1] == w2[j + 1];
        assert q2.AsProblem().Ok(w2[j], w2[j + 1]);
        assert q2.StepOk(w2[j], w2[j + 1]) && q.StepOk(w2[j], w2[j + 1]);
      }
    }
  }

  lemma JoinIds(m: RoadMap, w1: seq<int>, w2: seq<int>)
    requires OnMap(m, w1) && OnMap(m, w2) && |w2| >= 1
    ensures OnMap(m, w1 + w2[1..]) && Ids(m, w1 + w2[1..]) == Ids(m, w1) + Ids(m, w2)[1..]
  {
    var w := w1 + w2[1..];
    forall i {:trigger w[i]} | 0 <= i < |w| ensures m.InRange(w[i]) {
      if i >= |w1| { assert w[i] == w2[i - |w1| + 1]; }
    }
  }

  // The same at the level of requests and node ids.
  lemma JoinPaths(rq: Request, mid: int, path1: seq<int>, path2: seq<int>)
    requires rq.Valid() && mid !in rq.banned
    requires IsPathOf(rq.(goal := mid), path1) && IsPathOf(rq.(start := mid), path2)
    ensures path2 != [] && IsPathOf(rq, path1 + path2[1..])
  {
    var q1, q2, q := rq.(goal := mid).Plain(), rq.(start := mid).Plain(), rq.Plain();
    var w1 :| RouteWithIds(q1, w1, path1);
    var w2 :| RouteWithIds(q2, w2, path2);
    JoinRoutes(q1, q2, q, w1, w2);
    JoinIds(rq.m, w1, w2);
    assert RouteWithIds(q, w1 + w2[1..], path1 + path2[1..]);
  }

  lemma PathMeansReachable(rq: Request, path: seq<int>)
    requires rq.Valid() && IsPathOf(rq, path)
    requires IndexOf(rq.m.nodes, rq.goal).Some? && rq.m.nodes[IndexOf(rq.m.nodes, rq.goal).value].allowPass
    ensures Reachable(rq)
  {
  }

  // Consecutive ids belong to a node and one of its listed successors.
  ghost predicate Linked(m: RoadMap, a: int, b: int) {
    exists u, v :: LinkedAt(m, a, b, u, v)
  }

  predicate LinkedAt(m: RoadMap, a: int, b: int, u: int, v: int) {
    m.InRange(u) && m.InRange(v) && m.nodes[u].id == a && m.nodes[v].id == b && v in m.Successors(u)
  }

  // A list of node ids that leads from one node to another along listed edges.
  ghost predicate Leads(m: RoadMap, path: seq<int>, a: int, b: int) {
    && |path| >= 1 && path[0] == a && path[|path| - 1] == b
    && forall i {:trigger path[i]} :: 0 <= i < |path| - 1 ==> Linked(m, path[i], path[i + 1])
  }

  lemma RouteLeads(rq: Request, path: seq<int>)
    requires rq.Valid() && IsPathOf(rq, path)
    ensures Leads(rq.m, path, rq.start, rq.goal)
  {
    var q := rq.Plain();
    var w :| RouteWithIds(q, w, path);
    forall i {:trigger path[i]} | 0 <= i < |path| - 1 ensures Linked(rq.m, path[i], path[i + 1]) {
      assert q.AsProblem().Ok(w[i], w[i + 1]);
      assert LinkedAt(rq.m, path[i], path[i + 1], w[i], w[i + 1]);
    }
  }

  lemma JoinLeads(m: RoadMap, path1: seq<int>, path2: seq<int>, a: int, b: int, c: int)
    requires Leads(m, path1, a, b) && Leads(m, path2, b, c)
    ensures Leads(m, path1 + path2[1..], a, c)
  {
    var path := path1 + path2[1..];
    forall i {:trigger path[i]} | 0 <= i < |path| - 1 ensures Linked(m, path[i], path[i + 1]) {
      if i < |path1| - 1 {
        assert Linked(m, path1[i], path1[i + 1]);
      } else {
        var j := i - (|path1| - 1);
        assert path[i] == path2[j] && path[i + 1] == path2[j + 1];
      }
    }
  }
}
