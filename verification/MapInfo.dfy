// Loading a map: the numbering of node ids, the edge tables and the union-find that answers
// connectivity queries.
module Connectivity {
  import opened Util

  type Pairs = set<(int, int)>

  predicate Joined(pairs: Pairs, a: int, b: int) { (a, b) in pairs || (b, a) in pairs }

  ghost predicate IsChain(pairs: Pairs, path: seq<int>) {
    |path| >= 1 && forall i :: 0 <= i < |path| - 1 ==> Joined(pairs, path[i], path[i + 1])
  }

  ghost predicate Links(pairs: Pairs, path: seq<int>, a: int, b: int) {
    IsChain(pairs, path) && path[0] == a && path[|path| - 1] == b
  }

  // Undirected reachability over the loaded edges.
  ghost predicate Connected(pairs: Pairs, a: int, b: int) {
    exists path :: Links(pairs, path, a, b)
  }

  lemma ConnectedSelf(pairs: Pairs, a: int)
    ensures Connected(pairs, a, a)
  {
    assert Links(pairs, [a], a, a);
  }

  lemma ConnectedJoined(pairs: Pairs, a: int, b: int)
    requires Joined(pairs, a, b)
    ensures Connected(pairs, a, b)
  {
    assert Links(pairs, [a, b], a, b);
  }

  lemma ConnectedSym(pairs: Pairs, a: int, b: int)
    requires Connected(pairs, a, b)
    ensures Connected(pairs, b, a)
  {
    var p :| Links(pairs, p, a, b);
    var r := seq(|p|, i requires 0 <= i < |p| => p[|p| - 1 - i]);
    forall i | 0 <= i < |r| - 1 ensures Joined(pairs, r[i], r[i + 1]) {
      var j := |p| - 2 - i;
      assert Joined(pairs, p[j], p[j + 1]);
    }
    assert Links(pairs, r, b, a);
  }

  lemma ConnectedTrans(pairs: Pairs, a: int, b: int, c: int)
    requires Connected(pairs, a, b) && Connected(pairs, b, c)
    ensures Connected(pairs, a, c)
  {
    var p :| Links(pairs, p, a, b);
    var q :| Links(pairs, q, b, c);
    var r := p + q[1..];
    forall i | 0 <= i < |r| - 1 ensures Joined(pairs, r[i], r[i + 1]) {
      if i < |p| - 1 {
        assert Joined(pairs, p[i], p[i + 1]);
      } else {
        var j := i - (|p| - 1);
        assert r[i] == q[j] && r[i + 1] == q[j + 1];
      }
    }
    assert Links(pairs, r, a, c);
  }

  lemma ConnectedMore(pairs: Pairs, more: Pairs, a: int, b: int)
    requires Connected(pairs, a, b) && forall e :: e in pairs ==> e in more
    ensures Connected(more, a, b)
  {
    var p :| Links(pairs, p, a, b);
    forall i | 0 <= i < |p| - 1 ensures Joined(more, p[i], p[i + 1]) {
      assert Joined(pairs, p[i], p[i + 1]);
    }
    assert Links(more, p, a, b);
  }

  // The set marks say what the pairs connect.
  ghost predicate Agrees(mark: seq<int>, pairs: Pairs) {
    && (forall a, b :: (a, b) in pairs ==> 0 <= a < |mark| && 0 <= b < |mark| && mark[a] == mark[b])
    && (forall a, b :: 0 <= a < |mark| && 0 <= b < |mark| && mark[a] == mark[b] ==> Connected(pairs, a, b))
  }

  lemma {:induction false} ChainSharesMark(mark: seq<int>, pairs: Pairs, path: seq<int>)
    requires Agrees(mark, pairs) && IsChain(pairs, path) && 0 <= path[0] < |mark|
    ensures 0 <= path[|path| - 1] < |mark| && mark[path[0]] == mark[path[|path| - 1]]
  {
    if |path| > 1 {
      assert Joined(pairs, path[0], path[0 + 1]);
      var rest := path[1..];
      forall i | 0 <= i < |rest| - 1 ensures Joined(pairs, rest[i], rest[i + 1]) {
        assert Joined(pairs, path[i + 1], path[i + 1 + 1]);
      }
      ChainSharesMark(mark, pairs, rest);
    }
  }

  lemma MarksDecide(mark: seq<int>, pairs: Pairs, a: int, b: int)
    requires Agrees(mark, pairs) && 0 <= a < |mark| && 0 <= b < |mark|
    ensures mark[a] == mark[b] <==> Connected(pairs, a, b)
  {
    if Connected(pairs, a, b) {
      var p :| Links(pairs, p, a, b);
      ChainSharesMark(mark, pairs, p);
    }
  }

  lemma MergeKeepsAgreement(mark: seq<int>, mark': seq<int>, pairs: Pairs, x: int, y: int)
    requires Agrees(mark, pairs) && |mark'| == |mark| && 0 <= x < |mark| && 0 <= y < |mark|
    requires forall a, b :: 0 <= a < |mark| && 0 <= b < |mark| ==>
      (mark'[a] == mark'[b] <==>
        (mark[a] == mark[b]
        || (mark[a] == mark[x] && mark[y] == mark[b]) || (mark[a] == mark[y] && mark[x] == mark[b])))
    ensures Agrees(mark', pairs + {(x, y)})
  {
    var more := pairs + {(x, y)};
    assert Joined(more, x, y) && Joined(more, y, x);
    ConnectedJoined(more, x, y);
    ConnectedJoined(more, y, x);
    forall a, b | 0 <= a < |mark| && 0 <= b < |mark| && mark'[a] == mark'[b] ensures Connected(more, a, b) {
      if mark[a] == mark[b] {
        ConnectedMore(pairs, more, a, b);
      } else if mark[a] == mark[x] {
        ConnectedMore(pairs, more, a, x);
        ConnectedMore(pairs, more, y, b);
        ConnectedTrans(more, a, x, y);
        ConnectedTrans(more, a, y, b);
      } else {
        ConnectedMore(pairs, more, a, y);
        ConnectedMore(pairs, more, x, b);
        ConnectedTrans(more, a, y, x);
        ConnectedTrans(more, a, x, b);
      }
    }
  }
}

module MapInfo {
  import opened Util
  import opened MapModel
  import opened Connectivity
  import opened UnionFind

  // mode: 0 skip, 1 one way, 2 both ways.
  datatype RawEdge = RawEdge(startNodeId: int, endNodeId: int, weight: real, mode: int)

  datatype Edge = Edge(source: int, target: int, weight: real, direction: int)

  // 1 right, 2 up, 3 left, 4 down.
  function CalculateDirection(dx: real, dy: real): (d: int)
    ensures 1 <= d <= 4
  {
    if Abs(dx) > Abs(dy) then (if dx > 0.000001 then 1 else 3)
    else (if dy > 0.000001 then 2 else 4)
  }

  function Opposite(d: int): int {
    match d case 1 => 3 case 2 => 4 case 3 => 1 case 4 => 2 case _ => 0
  }

  // The larger offset decides: right or left where it is horizontal, up or down otherwise.
  lemma DirectionMeans(dx: real, dy: real)
    ensures Abs(dx) > Abs(dy) && dx > 0.000001 ==> CalculateDirection(dx, dy) == 1
    ensures Abs(dx) > Abs(dy) && dx < 0.0 ==> CalculateDirection(dx, dy) == 3
    ensures Abs(dx) <= Abs(dy) && dy > 0.000001 ==> CalculateDirection(dx, dy) == 2
    ensures Abs(dx) <= Abs(dy) && dy < 0.0 ==> CalculateDirection(dx, dy) == 4
  {
  }

  // The direction written for the way back is the one that would be calculated for it exactly
  // when the larger offset is above the tolerance.
  lemma ReverseDirectionExactly(dx: real, dy: real)
    ensures CalculateDirection(-dx, -dy) == Opposite(CalculateDirection(dx, dy))
      <==> Abs(dx) > 0.000001 || Abs(dy) > 0.000001
  {
  }

  // The failing case: two nodes a ten-millionth apart.
  lemma ReverseDirectionFails()
    ensures CalculateDirection(-0.0000001, 0.0) != Opposite(CalculateDirection(0.0000001, 0.0))
  {
    ReverseDirectionExactly(0.0000001, 0.0);
  }

  type Lists = map<int, seq<int>>

  function Push(lists: Lists, key: int, value: int): Lists {
    lists[key := (if key in lists then lists[key] else []) + [value]]
  }

  predicate Listed(lists: Lists, a: int, b: int) { a in lists && b in lists[a] }

  lemma PushListed(lists: Lists, key: int, value: int)
    ensures forall a, b :: Listed(Push(lists, key, value), a, b) <==>
      (Listed(lists, a, b) || (a == key && b == value))
  {
  }

  lemma NothingIsNumbered()
    ensures IsNumbering([], map[])
  {
  }

  // An edge that loading takes: switched on, between two known nodes that may carry traffic.
  predicate IsUsable(nodes: seq<Node>, ids: map<int, nat>, raw: RawEdge) {
    && raw.mode != 0 && raw.startNodeId in ids && raw.endNodeId in ids
    && ids[raw.startNodeId] < |nodes| && ids[raw.endNodeId] < |nodes|
    && nodes[ids[raw.startNodeId]].nodeType != -1 && nodes[ids[raw.endNodeId]].nodeType != -1
  }

  function EndsOf(ids: map<int, nat>, raw: RawEdge): (int, int)
    requires raw.startNodeId in ids && raw.endNodeId in ids
  {
    (ids[raw.startNodeId] as int, ids[raw.endNodeId] as int)
  }

  // The raw edge leads from a to b; one of mode 2 also leads back.
  predicate LeadsFrom(nodes: seq<Node>, ids: map<int, nat>, raw: RawEdge, a: int, b: int) {
    IsUsable(nodes, ids, raw) && (EndsOf(ids, raw) == (a, b) || (raw.mode == 2 && EndsOf(ids, raw) == (b, a)))
  }

  lemma LeadsFromEnds(nodes: seq<Node>, ids: map<int, nat>, raw: RawEdge, a: int, b: int, x: int, y: int)
    requires IsUsable(nodes, ids, raw) && EndsOf(ids, raw) == (a, b)
    ensures LeadsFrom(nodes, ids, raw, x, y) <==> (x == a && y == b) || (raw.mode == 2 && x == b && y == a)
  {
  }

  predicate SomeLeads(nodes: seq<Node>, ids: map<int, nat>, raws: seq<RawEdge>, a: int, b: int) {
    exists k :: 0 <= k < |raws| && LeadsFrom(nodes, ids, raws[k], a, b)
  }

  lemma SomeLeadsNext(nodes: seq<Node>, ids: map<int, nat>, raws: seq<RawEdge>, n: nat, a: int, b: int)
    requires n < |raws|
    ensures SomeLeads(nodes, ids, raws[..n + 1], a, b) <==>
      SomeLeads(nodes, ids, raws[..n], a, b) || LeadsFrom(nodes, ids, raws[n], a, b)
  {
    var now := raws[..n + 1];
    assert now[n] == raws[n];
    if SomeLeads(nodes, ids, raws[..n], a, b) {
      var k :| 0 <= k < n && LeadsFrom(nodes, ids, raws[..n][k], a, b);
      assert now[k] == raws[..n][k];
    }
    if SomeLeads(nodes, ids, now, a, b) {
      var k :| 0 <= k < |now| && LeadsFrom(nodes, ids, now[k], a, b);
      assert k < n ==> raws[..n][k] == now[k];
    }
  }

  // The ends of the usable edges: what one load unites.
  function UsablePairs(nodes: seq<Node>, ids: map<int, nat>, raws: seq<RawEdge>): Pairs {
    if raws == [] then {}
    else
      var last := raws[|raws| - 1];
      UsablePairs(nodes, ids, raws[..|raws| - 1]) + (if IsUsable(nodes, ids, last) then {EndsOf(ids, last)} else {})
  }

  lemma {:induction false} UsablePairsAre(nodes: seq<Node>, ids: map<int, nat>, raws: seq<RawEdge>, e: (int, int))
    ensures e in UsablePairs(nodes, ids, raws) <==>
      exists k :: 0 <= k < |raws| && IsUsable(nodes, ids, raws[k]) && EndsOf(ids, raws[k]) == e
  {
    if raws != [] {
      var front := raws[..|raws| - 1];
      UsablePairsAre(nodes, ids, front, e);
      if k :| 0 <= k < |raws| && IsUsable(nodes, ids, raws[k]) && EndsOf(ids, raws[k]) == e {
        assert k < |front| ==> front[k] == raws[k];
      }
      if k :| 0 <= k < |front| && IsUsable(nodes, ids, front[k]) && EndsOf(ids, front[k]) == e {
        assert raws[k] == front[k];
      }
    }
  }

  // The edge list: one entry per direction of each usable edge, in order.
  function ArcsOf(nodes: seq<Node>, ids: map<int, nat>, raw: RawEdge): seq<Edge> {
    if !IsUsable(nodes, ids, raw) then []
    else
      var e := EndsOf(ids, raw);
      var d := CalculateDirection(nodes[e.1].x - nodes[e.0].x, nodes[e.1].y - nodes[e.0].y);
      [Edge(e.0, e.1, raw.weight, d)] + (if raw.mode == 2 then [Edge(e.1, e.0, raw.weight, Opposite(d))] else [])
  }

  function EdgesOf(nodes: seq<Node>, ids: map<int, nat>, raws: seq<RawEdge>): seq<Edge> {
    if raws == [] then []
    else EdgesOf(nodes, ids, raws[..|raws| - 1]) + ArcsOf(nodes, ids, raws[|raws| - 1])
  }

  // A usable raw edge gives its own length and the direction from its start to its end, and with
  // mode 2 the same length and the opposite direction back; an unusable one gives nothing.
  lemma ArcsMean(nodes: seq<Node>, ids: map<int, nat>, raw: RawEdge, e: Edge)
    ensures e in ArcsOf(nodes, ids, raw) <==> (IsUsable(nodes, ids, raw) && e.weight == raw.weight &&
      var a, b := nodes[ids[raw.startNodeId]], nodes[ids[raw.endNodeId]];
      var d := CalculateDirection(b.x - a.x, b.y - a.y);
      (e.source == ids[raw.startNodeId] && e.target == ids[raw.endNodeId] && e.direction == d)
      || (raw.mode == 2 && e.source == ids[raw.endNodeId] && e.target == ids[raw.startNodeId] && e.direction == Opposite(d)))
  {
  }

  // The edges of the raw edges come one after the other.
  lemma {:induction false} EdgesAddUp(nodes: seq<Node>, ids: map<int, nat>, a: seq<RawEdge>, b: seq<RawEdge>)
    ensures EdgesOf(nodes, ids, a + b) == EdgesOf(nodes, ids, a) + EdgesOf(nodes, ids, b)
    ensures |a| == 1 ==> EdgesOf(nodes, ids, a) == ArcsOf(nodes, ids, a[0])
  {
    if b == [] {
      assert a + b == a;
      assert |a| == 1 ==> a[..0] == [] && EdgesOf(nodes, ids, a[..0]) == [];
    } else {
      var front := b[..|b| - 1];
      assert (a + b)[..|a + b| - 1] == a + front;
      EdgesAddUp(nodes, ids, a, front);
    }
  }

  // The edge tables are mirror images, in range, and every listed pair has its edge.
  ghost predicate TablesOk(n: nat, aft: Lists, pre: Lists, edges: seq<Edge>, edgeIndex: map<(int, int), nat>) {
    && (forall a, b :: Listed(aft, a, b) <==> Listed(pre, b, a))
    && (forall a, b :: Listed(aft, a, b) ==> 0 <= a < n && 0 <= b < n)
    && (forall a, b :: Listed(aft, a, b) <==> (a, b) in edgeIndex)
    && (forall e :: e in edgeIndex ==>
          (edgeIndex[e] < |edges| && edges[edgeIndex[e]].source == e.0 && edges[edgeIndex[e]].target == e.1))
    && (forall i {:trigger edges[i]} :: 0 <= i < |edges| ==> IsIndexedAfter(edges, edgeIndex, i))
  }

  // The index names the last edge of a pair.
  predicate IsIndexedAfter(edges: seq<Edge>, edgeIndex: map<(int, int), nat>, i: int) {
    && 0 <= i < |edges| && (edges[i].source, edges[i].target) in edgeIndex
    && i <= edgeIndex[(edges[i].source, edges[i].target)]
  }

  lemma ArcKeepsTables(n: nat, aft: Lists, pre: Lists, edges: seq<Edge>, edgeIndex: map<(int, int), nat>, e: Edge)
    requires TablesOk(n, aft, pre, edges, edgeIndex) && 0 <= e.source < n && 0 <= e.target < n
    ensures TablesOk(n, Push(aft, e.source, e.target), Push(pre, e.target, e.source), edges + [e],
                     edgeIndex[(e.source, e.target) := |edges|])
  {
    PushListed(aft, e.source, e.target);
    PushListed(pre, e.target, e.source);
    var edges', edgeIndex' := edges + [e], edgeIndex[(e.source, e.target) := |edges|];
    forall i | 0 <= i < |edges'| ensures IsIndexedAfter(edges', edgeIndex', i) {
      assert i < |edges| ==> IsIndexedAfter(edges, edgeIndex, i);
    }
  }

  // The tables hold exactly the raw edges' directions, and their pairs have been united.
  ghost predicate AreLoaded(nodes: seq<Node>, ids: map<int, nat>, raws: seq<RawEdge>, aft: Lists, edges: seq<Edge>,
                            united: Pairs, before: Pairs)
  {
    && (forall a, b :: Listed(aft, a, b) <==> SomeLeads(nodes, ids, raws, a, b))
    && edges == EdgesOf(nodes, ids, raws)
    && united == before + UsablePairs(nodes, ids, raws)
  }

  lemma SkippedIsLoaded(nodes: seq<Node>, ids: map<int, nat>, raws: seq<RawEdge>, n: nat, aft: Lists, edges: seq<Edge>,
                        united: Pairs, before: Pairs)
    requires n < |raws| && AreLoaded(nodes, ids, raws[..n], aft, edges, united, before)
    requires !IsUsable(nodes, ids, raws[n])
    ensures AreLoaded(nodes, ids, raws[..n + 1], aft, edges, united, before)
  {
    assert raws[..n + 1][..n] == raws[..n];
    forall a, b ensures Listed(aft, a, b) <==> SomeLeads(nodes, ids, raws[..n + 1], a, b) {
      SomeLeadsNext(nodes, ids, raws, n, a, b);
    }
  }

  lemma AddedIsLoaded(nodes: seq<Node>, ids: map<int, nat>, raws: seq<RawEdge>, n: nat, aft0: Lists, edges0: seq<Edge>,
                      united0: Pairs, before: Pairs, aft: Lists, edges: seq<Edge>, united: Pairs)
    requires n < |raws| && AreLoaded(nodes, ids, raws[..n], aft0, edges0, united0, before)
    requires IsUsable(nodes, ids, raws[n])
    requires forall a, b :: Listed(aft, a, b) <==> Listed(aft0, a, b) || LeadsFrom(nodes, ids, raws[n], a, b)
    requires edges == edges0 + ArcsOf(nodes, ids, raws[n]) && united == united0 + {EndsOf(ids, raws[n])}
    ensures AreLoaded(nodes, ids, raws[..n + 1], aft, edges, united, before)
  {
    assert raws[..n + 1][..n] == raws[..n];
    forall a, b ensures Listed(aft, a, b) <==> SomeLeads(nodes, ids, raws[..n + 1], a, b) {
      SomeLeadsNext(nodes, ids, raws, n, a, b);
    }
    assert before + UsablePairs(nodes, ids, raws[..n]) + {EndsOf(ids, raws[n])}
      == before + (UsablePairs(nodes, ids, raws[..n]) + {EndsOf(ids, raws[n])});
  }

  // Listed edges join; and if every union so far came from the listed edges, nothing else does.
  ghost predicate ListsJoin(aft: Lists, united: Pairs, before: Pairs) {
    && (forall a, b :: Listed(aft, a, b) ==> Joined(united, a, b))
    && (forall a, b :: (a, b) in united ==> (a, b) in before || Listed(aft, a, b))
    && (forall e :: e in before ==> e in united)
  }

  // A rectangle with a speed limit.
  datatype Area = Area(minX: real, maxX: real, minY: real, maxY: real, maxSpeed: real)
  {
    predicate Covers(x: real, y: real) { minX <= x <= maxX && minY <= y <= maxY }
  }

  // The least of the global limit and the limits of the areas that cover the spot.
  function SpeedLimit(areas: seq<Area>, globalMaxSpeed: real, x: real, y: real): (v: real)
    ensures v <= globalMaxSpeed && forall a :: a in areas && a.Covers(x, y) ==> v <= a.maxSpeed
    ensures v == globalMaxSpeed || exists a :: a in areas && a.Covers(x, y) && v == a.maxSpeed
  {
    if areas == [] then globalMaxSpeed
    else
      var last := areas[|areas| - 1];
      assert forall a :: a in areas <==> a in areas[..|areas| - 1] || a == last;
      var v := SpeedLimit(areas[..|areas| - 1], globalMaxSpeed, x, y);
      if last.Covers(x, y) then Min(v, last.maxSpeed) else v
  }

  method LimitAt(areas: seq<Area>, globalMaxSpeed: real, x: real, y: real) returns (v: real)
    ensures v == SpeedLimit(areas, globalMaxSpeed, x, y)
  {
    v := globalMaxSpeed;
    for i := 0 to |areas|
      invariant v == SpeedLimit(areas[..i], globalMaxSpeed, x, y)
    {
      assert areas[..i + 1][..i] == areas[..i];
      if areas[i].Covers(x, y) { v := Min(v, areas[i].maxSpeed); }
    }
    assert areas[..|areas|] == areas;
  }

  function Limited(rawNodes: seq<Node>, areas: seq<Area>, globalMaxSpeed: real): (r: seq<Node>)
    ensures |r| == |rawNodes|
    ensures forall i :: 0 <= i < |r| ==>
      r[i] == rawNodes[i].(maxSpeed := SpeedLimit(areas, globalMaxSpeed, rawNodes[i].x, rawNodes[i].y))
  {
    seq(|rawNodes|, i requires 0 <= i < |rawNodes| =>
      rawNodes[i].(maxSpeed := SpeedLimit(areas, globalMaxSpeed, rawNodes[i].x, rawNodes[i].y)))
  }

  lemma NothingIsLoaded(nodes: seq<Node>, ids: map<int, nat>, united: Pairs)
    ensures TablesOk(|nodes|, map[], map[], [], map[]) && AreLoaded(nodes, ids, [], map[], [], united, united)
  {
  }

  class MapInfo {
    var nodes: seq<Node>
    var id2index: map<int, nat>
    var preNode: Lists
    var aftNode: Lists
    var edges: seq<Edge>
    var edgeIndex: map<(int, int), nat>
    var reachAnalyzer: UnionFind
    // Every pair united since the nodes were loaded.
    ghost var united: Pairs

    ghost predicate Valid()
      reads this, reachAnalyzer, reachAnalyzer.parent, reachAnalyzer.rank
    {
      && reachAnalyzer.Valid() && reachAnalyzer.parent.Length == |nodes|
      && IsNumbering(nodes, id2index)
      && Agrees(Marks(), united)
    }

    // The union-find root of every node.
    ghost function Marks(): (r: seq<int>)
      reads this, reachAnalyzer, reachAnalyzer.parent, reachAnalyzer.rank
      requires reachAnalyzer.Valid()
      ensures |r| == reachAnalyzer.parent.Length
      ensures forall i :: 0 <= i < |r| ==> r[i] == reachAnalyzer.RootOf(i)
    {
      RootsOf(reachAnalyzer.parent[..], reachAnalyzer.rank[..])
    }

    // An object before any map is loaded: no nodes, and a union-find over none.
    constructor ()
      ensures Valid() && nodes == [] && united == {}
      ensures fresh(reachAnalyzer) && fresh(reachAnalyzer.parent) && fresh(reachAnalyzer.rank)
    {
      nodes, id2index, preNode, aftNode, edges, edgeIndex := [], map[], map[], map[], [], map[];
      reachAnalyzer := new UnionFind(0);
      united := {};
      new;
      NothingIsNumbered();
      EmptyIsValid();
    }

    // Numbers the nodes, gives each the least speed limit of the areas it lies in, and starts a
    // new union-find; an empty list is refused. Edge tables of an earlier map stay until
    // `LoadEdges` is called.
    method LoadNodes(rawNodes: seq<Node>, areas: seq<Area>, globalMaxSpeed: real) returns (ok: bool)
      modifies this
      ensures ok <==> rawNodes != []
      ensures ok ==> Valid() && nodes == Limited(rawNodes, areas, globalMaxSpeed) && united == {}
      ensures ok ==> fresh(reachAnalyzer) && fresh(reachAnalyzer.parent) && fresh(reachAnalyzer.rank)
      ensures !ok ==> nodes == [] && id2index == map[] && united == old(united)
    {
      nodes, id2index := [], map[];
      if rawNodes == [] { return false; }
      var ids: map<int, nat> := map[];
      var limited: seq<Node> := [];
      for i := 0 to |rawNodes|
        invariant limited == Limited(rawNodes, areas, globalMaxSpeed)[..i] && IsNumbering(limited, ids)
      {
        var speed := LimitAt(areas, globalMaxSpeed, rawNodes[i].x, rawNodes[i].y);
        ghost var all := Limited(rawNodes, areas, globalMaxSpeed);
        NumberingNext(all, i, ids);
        ids := ids[rawNodes[i].id := i];
        limited := limited + [rawNodes[i].(maxSpeed := speed)];
      }
      nodes, id2index := limited, ids;
      reachAnalyzer := new UnionFind(|rawNodes|);
      united := {};
      FreshMarksAgree();
      ok := true;
    }

    lemma EmptyIsValid()
      requires reachAnalyzer.Valid() && reachAnalyzer.parent.Length == 0
      requires nodes == [] && IsNumbering(nodes, id2index) && united == {}
      ensures Valid()
    {
      assert Marks() == [];
    }

    lemma FreshMarksAgree()
      requires reachAnalyzer.Valid() && united == {}
      requires forall x :: 0 <= x < reachAnalyzer.parent.Length ==> reachAnalyzer.RootOf(x) == x
      ensures Agrees(Marks(), united)
    {
      var marks := Marks();
      forall a, b | 0 <= a < |marks| && 0 <= b < |marks| && marks[a] == marks[b] ensures Connected(united, a, b) {
        assert marks[a] == a && marks[b] == b;
        ConnectedSelf(united, a);
      }
    }

    // Fills the edge tables and unites the ends of every usable edge. Refused without nodes.
    method LoadEdges(rawEdges: seq<RawEdge>) returns (ok: bool)
      requires Valid()
      modifies this`edges, this`edgeIndex, this`preNode, this`aftNode, this`united
      modifies reachAnalyzer.parent, reachAnalyzer.rank
      ensures ok <==> nodes != []
      ensures ok ==> Valid() && TablesOk(|nodes|, aftNode, preNode, edges, edgeIndex)
      ensures ok ==> AreLoaded(nodes, id2index, rawEdges, aftNode, edges, united, old(united))
      ensures ok ==> ListsJoin(aftNode, united, old(united))
    {
      edges, edgeIndex, preNode, aftNode := [], map[], map[], map[];
      if nodes == [] { return false; }
      NothingIsLoaded(nodes, id2index, united);
      assert rawEdges[..0] == [];
      for k := 0 to |rawEdges|
        invariant Valid() && TablesOk(|nodes|, aftNode, preNode, edges, edgeIndex)
        invariant AreLoaded(nodes, id2index, rawEdges[..k], aftNode, edges, united, old(united))
      {
        LoadEdge(rawEdges, k, old(united));
      }
      assert rawEdges[..|rawEdges|] == rawEdges;
      LoadedListsJoin(nodes, id2index, rawEdges, aftNode, edges, united, old(united));
      ok := true;
    }

    // One round of the loop: an unusable edge is skipped.
    method LoadEdge(rawEdges: seq<RawEdge>, k: nat, ghost before: Pairs)
      requires k < |rawEdges| && Valid() && TablesOk(|nodes|, aftNode, preNode, edges, edgeIndex)
      requires AreLoaded(nodes, id2index, rawEdges[..k], aftNode, edges, united, before)
      modifies this`edges, this`edgeIndex, this`preNode, this`aftNode, this`united
      modifies reachAnalyzer.parent, reachAnalyzer.rank
      ensures Valid() && TablesOk(|nodes|, aftNode, preNode, edges, edgeIndex)
      ensures AreLoaded(nodes, id2index, rawEdges[..k + 1], aftNode, edges, united, before)
    {
      if IsUsable(nodes, id2index, rawEdges[k]) {
        ghost var aft, arcs, pairs := aftNode, edges, united;
        AddEdge(rawEdges[k]);
        AddedIsLoaded(nodes, id2index, rawEdges, k, aft, arcs, pairs, before, aftNode, edges, united);
      } else {
        SkippedIsLoaded(nodes, id2index, rawEdges, k, aftNode, edges, united, before);
      }
    }

    method AddEdge(raw: RawEdge)
      requires Valid() && IsUsable(nodes, id2index, raw)
      requires TablesOk(|nodes|, aftNode, preNode, edges, edgeIndex)
      modifies this`edges, this`edgeIndex, this`preNode, this`aftNode, this`united
      modifies reachAnalyzer.parent, reachAnalyzer.rank
      ensures Valid() && TablesOk(|nodes|, aftNode, preNode, edges, edgeIndex)
      ensures united == old(united) + {EndsOf(id2index, raw)}
      ensures edges == old(edges) + ArcsOf(nodes, id2index, raw)
      ensures forall x, y :: Listed(aftNode, x, y) <==> Listed(old(aftNode), x, y) || LeadsFrom(nodes, id2index, raw, x, y)
    {
      var a, b := id2index[raw.startNodeId], id2index[raw.endNodeId];
      AddArcs(a, b, raw);
      UniteEnds(a, b);
    }

    method AddArcs(a: nat, b: nat, raw: RawEdge)
      requires IsUsable(nodes, id2index, raw) && EndsOf(id2index, raw) == (a, b)
      requires TablesOk(|nodes|, aftNode, preNode, edges, edgeIndex)
      modifies this`edges, this`edgeIndex, this`preNode, this`aftNode
      ensures TablesOk(|nodes|, aftNode, preNode, edges, edgeIndex)
      ensures edges == old(edges) + ArcsOf(nodes, id2index, raw)
      ensures forall x, y :: Listed(aftNode, x, y) <==> Listed(old(aftNode), x, y) || LeadsFrom(nodes, id2index, raw, x, y)
    {
      var dir := CalculateDirection(nodes[b].x - nodes[a].x, nodes[b].y - nodes[a].y);
      ghost var before := edges;
      AddArc(a, b, raw.weight, dir);
      if raw.mode == 2 {
        AddArc(b, a, raw.weight, Opposite(dir));
        assert edges == before + ([Edge(a, b, raw.weight, dir)] + [Edge(b, a, raw.weight, Opposite(dir))]);
      }
      forall x, y ensures LeadsFrom(nodes, id2index, raw, x, y) <==> (x == a && y == b) || (raw.mode == 2 && x == b && y == a) {
        LeadsFromEnds(nodes, id2index, raw, a, b, x, y);
      }
    }

    method UniteEnds(a: nat, b: nat)
      requires Valid() && a < |nodes| && b < |nodes|
      modifies this`united, reachAnalyzer.parent, reachAnalyzer.rank
      ensures Valid() && united == old(united) + {(a as int, b as int)}
    {
      ghost var marks := Marks();
      reachAnalyzer.Unite(a, b);
      ghost var marks' := Marks();
      forall c, d | 0 <= c < |marks| && 0 <= d < |marks|
        ensures marks'[c] == marks'[d] <==>
          (marks[c] == marks[d]
          || (marks[c] == marks[a] && marks[b] == marks[d]) || (marks[c] == marks[b] && marks[a] == marks[d]))
      {
        assert reachAnalyzer.Together(c, d) <==> old(reachAnalyzer.Together(c, d)
          || (reachAnalyzer.Together(c, a) && reachAnalyzer.Together(b, d))
          || (reachAnalyzer.Together(c, b) && reachAnalyzer.Together(a, d)));
      }
      MergeKeepsAgreement(marks, marks', united, a, b);
      united := united + {(a as int, b as int)};
    }

    // One direction of an edge.
    method AddArc(a: nat, b: nat, weight: real, dir: int)
      requires a < |nodes| && b < |nodes|
      requires TablesOk(|nodes|, aftNode, preNode, edges, edgeIndex)
      modifies this`edges, this`edgeIndex, this`preNode, this`aftNode
      ensures TablesOk(|nodes|, aftNode, preNode, edges, edgeIndex)
      ensures forall x, y :: Listed(aftNode, x, y) <==> Listed(old(aftNode), x, y) || (x == a && y == b)
      ensures edgeIndex == old(edgeIndex)[(a as int, b as int) := |old(edges)|]
      ensures edges == old(edges) + [Edge(a, b, weight, dir)]
    {
      ArcKeepsTables(|nodes|, aftNode, preNode, edges, edgeIndex, Edge(a, b, weight, dir));
      edges := edges + [Edge(a, b, weight, dir)];
      edgeIndex := edgeIndex[(a as int, b as int) := |edges| - 1];
      PushListed(aftNode, a, b);
      aftNode := Push(aftNode, a, b);
      preNode := Push(preNode, b, a);
    }

    method IsConnectedById(startNodeId: int, endNodeId: int) returns (c: bool)
      requires Valid()
      ensures c <==>
        (startNodeId in id2index && endNodeId in id2index
         && Connected(united, id2index[startNodeId], id2index[endNodeId]))
    {
      if startNodeId !in id2index || endNodeId !in id2index { return false; }
      var a, b := id2index[startNodeId], id2index[endNodeId];
      c := reachAnalyzer.IsConnected(a, b);
      MarksDecide(Marks(), united, a, b);
    }
  }

  ghost function RootsOf(p: seq<int>, r: seq<int>): (roots: seq<int>)
    requires Forest.IsForest(p, r)
    ensures |roots| == |p| && forall i :: 0 <= i < |p| ==> roots[i] == Forest.Root(p, r, i)
  {
    seq(|p|, i requires 0 <= i < |p| => Forest.Root(p, r, i))
  }

  lemma LoadedListsJoin(nodes: seq<Node>, ids: map<int, nat>, raws: seq<RawEdge>, aft: Lists, edges: seq<Edge>,
                        united: Pairs, before: Pairs)
    requires AreLoaded(nodes, ids, raws, aft, edges, united, before)
    ensures ListsJoin(aft, united, before)
  {
    forall a, b | Listed(aft, a, b) ensures Joined(united, a, b) {
      var k :| 0 <= k < |raws| && LeadsFrom(nodes, ids, raws[k], a, b);
      UsablePairsAre(nodes, ids, raws, EndsOf(ids, raws[k]));
    }
    forall a, b | (a, b) in united && (a, b) !in before ensures Listed(aft, a, b) {
      UsablePairsAre(nodes, ids, raws, (a, b));
      var k :| 0 <= k < |raws| && IsUsable(nodes, ids, raws[k]) && EndsOf(ids, raws[k]) == (a, b);
      assert LeadsFrom(nodes, ids, raws[k], a, b);
    }
  }

  // A walk from node to node along usable edges, in either direction.
  ghost predicate UsableWalk(nodes: seq<Node>, ids: map<int, nat>, raws: seq<RawEdge>, path: seq<int>) {
    |path| >= 1 && forall i {:trigger path[i]} :: 0 <= i < |path| - 1 ==>
      SomeLeads(nodes, ids, raws, path[i], path[i + 1]) || SomeLeads(nodes, ids, raws, path[i + 1], path[i])
  }

  ghost predicate UsableWalkBetween(nodes: seq<Node>, ids: map<int, nat>, raws: seq<RawEdge>, a: int, b: int) {
    exists path :: UsableWalk(nodes, ids, raws, path) && path[0] == a && path[|path| - 1] == b
  }

  lemma JoinedMeansUsable(nodes: seq<Node>, ids: map<int, nat>, raws: seq<RawEdge>, a: int, b: int)
    ensures Joined(UsablePairs(nodes, ids, raws), a, b) <==>
      SomeLeads(nodes, ids, raws, a, b) || SomeLeads(nodes, ids, raws, b, a)
  {
    UsablePairsAre(nodes, ids, raws, (a, b));
    UsablePairsAre(nodes, ids, raws, (b, a));
    if k :| 0 <= k < |raws| && IsUsable(nodes, ids, raws[k]) && EndsOf(ids, raws[k]) == (a, b) {
      assert LeadsFrom(nodes, ids, raws[k], a, b);
    }
    if k :| 0 <= k < |raws| && IsUsable(nodes, ids, raws[k]) && EndsOf(ids, raws[k]) == (b, a) {
      assert LeadsFrom(nodes, ids, raws[k], b, a);
    }
  }

  // After one load of these raw edges, connectivity is undirected reachability along them.
  lemma OneLoadIsReachability(nodes: seq<Node>, ids: map<int, nat>, raws: seq<RawEdge>, aft: Lists, edges: seq<Edge>,
                              united: Pairs, a: int, b: int)
    requires AreLoaded(nodes, ids, raws, aft, edges, united, {})
    ensures Connected(united, a, b) <==> UsableWalkBetween(nodes, ids, raws, a, b)
  {
    assert united == UsablePairs(nodes, ids, raws);
    if Connected(united, a, b) {
      var path :| Links(united, path, a, b);
      forall i {:trigger path[i]} | 0 <= i < |path| - 1
        ensures SomeLeads(nodes, ids, raws, path[i], path[i + 1]) || SomeLeads(nodes, ids, raws, path[i + 1], path[i])
      {
        JoinedMeansUsable(nodes, ids, raws, path[i], path[i + 1]);
      }
      assert UsableWalk(nodes, ids, raws, path);
    }
    if UsableWalkBetween(nodes, ids, raws, a, b) {
      var path :| UsableWalk(nodes, ids, raws, path) && path[0] == a && path[|path| - 1] == b;
      forall i | 0 <= i < |path| - 1 ensures Joined(united, path[i], path[i + 1]) {
        JoinedMeansUsable(nodes, ids, raws, path[i], path[i + 1]);
      }
      assert Links(united, path, a, b);
    }
  }

  // A directed path over listed edges is never rejected, however often edges were loaded.
  lemma DirectedPathIsConnected(aft: Lists, united: Pairs, before: Pairs, path: seq<int>)
    requires ListsJoin(aft, united, before) && |path| >= 1
    requires forall i :: 0 <= i < |path| - 1 ==> Listed(aft, path[i], path[i + 1])
    ensures Connected(united, path[0], path[|path| - 1])
  {
    forall i | 0 <= i < |path| - 1 ensures Joined(united, path[i], path[i + 1]) {
      assert Listed(aft, path[i], path[i + 1]);
    }
    assert Links(united, path, path[0], path[|path| - 1]);
  }

  // `LoadEdges` clears the edge tables but not the union-find. After a further load,
  // connectivity is undirected reachability along the new edges exactly when the new edges
  // connect the ends of every pair united before.
  lemma ReloadIsExactWhen(nodes: seq<Node>, ids: map<int, nat>, raws: seq<RawEdge>, aft: Lists, edges: seq<Edge>,
                          united: Pairs, before: Pairs)
    requires AreLoaded(nodes, ids, raws, aft, edges, united, before)
    ensures (forall a, b :: Connected(united, a, b) <==> UsableWalkBetween(nodes, ids, raws, a, b))
      <==> (forall a, b :: (a, b) in before ==> UsableWalkBetween(nodes, ids, raws, a, b))
  {
    var added := UsablePairs(nodes, ids, raws);
    forall a, b ensures Connected(added, a, b) <==> UsableWalkBetween(nodes, ids, raws, a, b) {
      OneLoadIsReachability(nodes, ids, raws, aft, edges, added, a, b);
    }
    MorePairsConnectSame(before, added);
    assert before + added == united;
  }

  // Adding pairs to others keeps what those connect exactly when they connect the added ends.
  lemma MorePairsConnectSame(before: Pairs, added: Pairs)
    ensures (forall a, b :: Connected(before + added, a, b) <==> Connected(added, a, b))
      <==> (forall a, b :: (a, b) in before ==> Connected(added, a, b))
  {
    var united := before + added;
    forall a, b | (a, b) in before ensures Connected(united, a, b) {
      assert Joined(united, a, b);
      ConnectedJoined(united, a, b);
    }
    if forall a, b :: (a, b) in before ==> Connected(added, a, b) {
      forall a, b ensures Connected(united, a, b) <==> Connected(added, a, b) {
        if Connected(added, a, b) { ConnectedMore(added, united, a, b); }
        if Connected(united, a, b) { AddedThrough(before, added, a, b); }
      }
    }
  }

  lemma AddedThrough(before: Pairs, added: Pairs, a: int, b: int)
    requires Connected(before + added, a, b) && forall x, y :: (x, y) in before ==> Connected(added, x, y)
    ensures Connected(added, a, b)
  {
    forall x, y | (x, y) in before + added ensures Connected(added, x, y) {
      if (x, y) !in before {
        assert Joined(added, x, y);
        ConnectedJoined(added, x, y);
      }
    }
    ConnectedThrough(before + added, added, a, b);
  }

  // Pairs whose ends other pairs connect add nothing to what those connect.
  lemma ConnectedThrough(pairs: Pairs, others: Pairs, a: int, b: int)
    requires Connected(pairs, a, b) && forall x, y :: (x, y) in pairs ==> Connected(others, x, y)
    ensures Connected(others, a, b)
  {
    var path :| Links(pairs, path, a, b);
    ChainThrough(pairs, others, path);
  }

  lemma {:induction false} ChainThrough(pairs: Pairs, others: Pairs, path: seq<int>)
    requires IsChain(pairs, path) && forall x, y :: (x, y) in pairs ==> Connected(others, x, y)
    ensures Connected(others, path[0], path[|path| - 1])
  {
    if |path| == 1 {
      ConnectedSelf(others, path[0]);
    } else {
      var rest := path[1..];
      forall i | 0 <= i < |rest| - 1 ensures Joined(pairs, rest[i], rest[i + 1]) {
        assert Joined(pairs, path[i + 1], path[i + 1 + 1]);
      }
      assert Joined(pairs, path[0], path[0 + 1]);
      ChainThrough(pairs, others, rest);
      if (path[0], path[1]) !in pairs { ConnectedSym(others, path[1], path[0]); }
      ConnectedTrans(others, path[0], path[1], path[|path| - 1]);
    }
  }

  lemma NoEdgesNoStep(nodes: seq<Node>, ids: map<int, nat>, path: seq<int>)
    requires UsableWalk(nodes, ids, [], path)
    ensures |path| == 1
  {
    assert path[0] == path[..1][0];
  }

  // The failing case: nodes 0 and 1 united by a first load still count as connected after a
  // second load without edges, although no edge leads between them any more.
  lemma ReloadKeepsOldConnections(nodes: seq<Node>, ids: map<int, nat>, aft: Lists, united: Pairs)
    requires AreLoaded(nodes, ids, [], aft, [], united, {(0, 1)})
    ensures Connected(united, 0, 1) && !UsableWalkBetween(nodes, ids, [], 0, 1)
  {
    LoadedListsJoin(nodes, ids, [], aft, [], united, {(0, 1)});
    assert (0, 1) in united;
    assert Joined(united, 0, 1);
    ConnectedJoined(united, 0, 1);
    if UsableWalkBetween(nodes, ids, [], 0, 1) {
      var path :| UsableWalk(nodes, ids, [], path) && path[0] == 0 && path[|path| - 1] == 1;
      NoEdgesNoStep(nodes, ids, path);
    }
  }
}
