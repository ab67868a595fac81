// The class `GlobalPathPlanner`: the five-strategy A* cascade with its path cache, and the
// mixed planner that joins A* segments with paths of the static table.
module GlobalPlanner {
  import opened Util
  import opened MapModel
  import opened AStar
  import opened Routing

  datatype Source = StaticTable | MixedPlanning | PureAStar | Unreachable

  datatype PlanResult = PlanResult(path: seq<int>, distance: real, reachable: bool, source: Source)

  const NO_PLAN := PlanResult([], 0.0, false, Unreachable)

  // An answer of the static table: its path and the base distance stored with it.
  datatype TablePath = TablePath(path: seq<int>, distance: real)

  // Straight-line length between two nodes given by id; None when one is unknown.
  function Distance(m: RoadMap, a: int, b: int): Option<real> {
    var i, j := IndexOf(m.nodes, a), IndexOf(m.nodes, b);
    if i.Some? && j.Some? then Some(m.span(i.value, j.value)) else None
  }

  // calculatePathDistance: pairs with an unknown node count nothing.
  function PathLength(m: RoadMap, path: seq<int>): real {
    if |path| < 2 then 0.0
    else
      PathLength(m, path[..|path| - 1])
      + (match Distance(m, path[|path| - 2], path[|path| - 1]) case Some(d) => d case None => 0.0)
  }

  // A single edge is as long as the straight line between its two nodes, a node by itself nothing.
  lemma EdgeLength(m: RoadMap, a: int, b: int)
    requires IndexOf(m.nodes, a).Some? && IndexOf(m.nodes, b).Some?
    ensures PathLength(m, [a, b]) == m.span(IndexOf(m.nodes, a).value, IndexOf(m.nodes, b).value)
    ensures PathLength(m, [a]) == 0.0
  {
    assert [a, b][..1] == [a];
  }

  // Joining two paths at their common node adds their lengths.
  lemma {:induction false} JoinedLength(m: RoadMap, path1: seq<int>, path2: seq<int>)
    requires |path1| >= 1 && |path2| >= 1 && path1[|path1| - 1] == path2[0]
    ensures PathLength(m, path1 + path2[1..]) == PathLength(m, path1) + PathLength(m, path2)
  {
    var path := path1 + path2[1..];
    if |path2| == 1 {
      assert path == path1;
    } else {
      var shorter := path2[..|path2| - 1];
      JoinedLength(m, path1, shorter);
      assert path[..|path| - 1] == path1 + shorter[1..];
    }
  }

  // concatenatePaths: empty segments are skipped, later ones lose their first node.
  function Joined(segments: seq<seq<int>>): seq<int> {
    if segments == [] then []
    else
      var before, last := Joined(segments[..|segments| - 1]), segments[|segments| - 1];
      if last == [] then before
      else if before == [] then last
      else before + last[1..]
  }

  // Two paths without the doubled joint; an empty one adds nothing.
  function Glued(a: seq<int>, b: seq<int>): seq<int> {
    if b == [] then a else if a == [] then b else a + b[1..]
  }

  lemma GluedLeads(m: RoadMap, a: seq<int>, b: seq<int>, x: int, y: int, z: int)
    requires if a == [] then x == y else Leads(m, a, x, y)
    requires if b == [] then y == z else Leads(m, b, y, z)
    ensures Glued(a, b) == [] || Leads(m, Glued(a, b), x, z)
    ensures a != [] || b != [] ==> Glued(a, b) != []
  {
    if a != [] && b != [] { JoinLeads(m, a, b, x, y, z); }
  }

  lemma JoinedAppended(segments: seq<seq<int>>, last: seq<int>)
    ensures Joined(segments + [last]) == Glued(Joined(segments), last)
  {
    assert (segments + [last])[..|segments|] == segments;
  }

  function TotalLength(m: RoadMap, segments: seq<seq<int>>): real {
    if segments == [] then 0.0
    else TotalLength(m, segments[..|segments| - 1]) + PathLength(m, segments[|segments| - 1])
  }

  // Each segment leads from one stop to the next.
  ghost predicate MeetAt(m: RoadMap, segments: seq<seq<int>>, stops: seq<int>) {
    && |segments| >= 1 && |stops| == |segments| + 1
    && forall i {:trigger segments[i]} :: 0 <= i < |segments| ==> Leads(m, segments[i], stops[i], stops[i + 1])
  }

  // Segments that meet join to a path from the first stop to the last, as long as all together.
  lemma {:induction false} JoinedOfMeeting(m: RoadMap, segments: seq<seq<int>>, stops: seq<int>)
    requires MeetAt(m, segments, stops)
    ensures Leads(m, Joined(segments), stops[0], stops[|segments|])
    ensures PathLength(m, Joined(segments)) == TotalLength(m, segments)
  {
    var n := |segments| - 1;
    var front, last := segments[..n], segments[n];
    assert Leads(m, last, stops[n], stops[n + 1]);
    if n == 0 {
      assert Joined(front) == [] && TotalLength(m, front) == 0.0;
    } else {
      forall i {:trigger front[i]} | 0 <= i < n ensures Leads(m, front[i], stops[..n + 1][i], stops[..n + 1][i + 1]) {
        assert Leads(m, segments[i], stops[i], stops[i + 1]);
      }
      JoinedOfMeeting(m, front, stops[..n + 1]);
      JoinLeads(m, Joined(front), last, stops[0], stops[n], stops[n + 1]);
      JoinedLength(m, Joined(front), last);
    }
  }

  function KeyNodeIds(nodes: seq<Node>): seq<int> {
    if nodes == [] then []
    else
      var n := nodes[|nodes| - 1];
      KeyNodeIds(nodes[..|nodes| - 1]) + (if n.nodeType in {1, 2, 7, 9} then [n.id] else [])
  }

  // Exactly the ids of nodes of types 1, 2, 7 and 9.
  lemma {:induction false} KeyNodesAre(nodes: seq<Node>, id: int)
    ensures id in KeyNodeIds(nodes) <==>
      exists i :: 0 <= i < |nodes| && nodes[i].id == id
        && (nodes[i].nodeType == 1 || nodes[i].nodeType == 2 || nodes[i].nodeType == 7 || nodes[i].nodeType == 9)
  {
    if nodes != [] {
      var front := nodes[..|nodes| - 1];
      KeyNodesAre(front, id);
      assert forall i :: 0 <= i < |front| ==> front[i] == nodes[i];
    }
  }

  function Without(ids: seq<int>, id: int): (r: seq<int>)
    ensures forall x :: x in r <==> x in ids && x != id
  {
    if ids == [] then []
    else
      assert ids == ids[..|ids| - 1] + [ids[|ids| - 1]];
      Without(ids[..|ids| - 1], id) + (if ids[|ids| - 1] == id then [] else [ids[|ids| - 1]])
  }

  // The queue order of candidates: nearer first, then smaller id.
  predicate NoLater(m: RoadMap, from: int, a: int, b: int) {
    match (Distance(m, from, a), Distance(m, from, b))
    case (Some(d), Some(e)) => d < e || (d == e && a <= b)
    case (Some(_), None) => true
    case (None, Some(_)) => false
    case (None, None) => a <= b
  }

  // r and rest split the candidates, and nothing left over comes before anything taken.
  ghost predicate Selection(m: RoadMap, from: int, all: seq<int>, r: seq<int>, rest: seq<int>) {
    && multiset(r) + multiset(rest) == multiset(all)
    && forall x, y :: x in r && y in rest ==> NoLater(m, from, x, y)
  }

  lemma SelectNext(m: RoadMap, from: int, all: seq<int>, r: seq<int>, pool: seq<int>, best: nat)
    requires Selection(m, from, all, r, pool)
    requires best < |pool| && forall y :: y in pool ==> NoLater(m, from, pool[best], y)
    ensures Selection(m, from, all, r + [pool[best]], pool[..best] + pool[best + 1..])
  {
    var rest := pool[..best] + pool[best + 1..];
    assert pool == pool[..best] + [pool[best]] + pool[best + 1..];
    assert multiset(r + [pool[best]]) + multiset(rest) == multiset(r) + multiset(pool);
    assert forall y :: y in rest ==> y in pool;
  }

  lemma SelectedAreCandidates(m: RoadMap, from: int, all: seq<int>, r: seq<int>, rest: seq<int>)
    requires Selection(m, from, all, r, rest)
    ensures forall x :: x in r ==> x in all
  {
    forall x | x in r ensures x in all {
      assert x in multiset(r) + multiset(rest);
      assert x in multiset(all);
    }
  }

  method EarliestIndex(m: RoadMap, from: int, pool: seq<int>) returns (best: nat)
    requires pool != []
    ensures best < |pool| && forall y :: y in pool ==> NoLater(m, from, pool[best], y)
  {
    best := 0;
    for j := 1 to |pool|
      invariant best < |pool|
      invariant forall t :: 0 <= t < j ==> NoLater(m, from, pool[best], pool[t])
    {
      if !NoLater(m, from, pool[best], pool[j]) { best := j; }
    }
  }

  // A path this short ends the scan of candidates.
  const SHORT_ENOUGH := 5000.0

  predicate IsShort(length: Option<real>) { length.Some? && length.value < SHORT_ENOUGH }

  predicate NoneIsShort(lengths: seq<Option<real>>) {
    forall i {:trigger lengths[i]} :: 0 <= i < |lengths| ==> !IsShort(lengths[i])
  }

  // A scan ends at its first short length or at the last candidate.
  predicate EndsAtShort(candidates: seq<int>, lengths: seq<Option<real>>) {
    && (|lengths| < |candidates| ==> lengths != [] && IsShort(lengths[|lengths| - 1]))
    && (lengths != [] ==> NoneIsShort(lengths[..|lengths| - 1]))
  }

  lemma StopsAtShort(candidates: seq<int>, lengths: seq<Option<real>>, length: Option<real>)
    requires NoneIsShort(lengths) && (IsShort(length) || |lengths| + 1 == |candidates|)
    ensures EndsAtShort(candidates, lengths + [length])
  {
    assert (lengths + [length])[..|lengths|] == lengths;
  }

  // The least measured length, first on ties.
  ghost predicate IsFirstLeast(lengths: seq<Option<real>>, i: int) {
    && 0 <= i < |lengths| && lengths[i].Some?
    && (forall j {:trigger lengths[j]} :: 0 <= j < |lengths| && lengths[j].Some? ==> lengths[i].value <= lengths[j].value)
    && (forall j {:trigger lengths[j]} :: 0 <= j < i && lengths[j].Some? ==> lengths[i].value < lengths[j].value)
  }

  ghost predicate IsLeastSoFar(candidates: seq<int>, lengths: seq<Option<real>>, best: Option<real>, r: int) {
    && |lengths| <= |candidates|
    && (best.None? ==> forall j {:trigger lengths[j]} :: 0 <= j < |lengths| ==> lengths[j].None?)
    && (best.Some? ==> exists i :: IsFirstLeast(lengths, i) && lengths[i] == best && r == candidates[i])
  }

  lemma LeastNext(candidates: seq<int>, lengths: seq<Option<real>>, best: Option<real>, r: int, length: Option<real>)
    requires IsLeastSoFar(candidates, lengths, best, r) && |lengths| < |candidates|
    ensures var better := length.Some? && (best.None? || length.value < best.value);
      IsLeastSoFar(candidates, lengths + [length], if better then length else best, if better then candidates[|lengths|] else r)
  {
    var more := lengths + [length];
    if length.Some? && (best.None? || length.value < best.value) {
      if best.Some? {
        var i :| IsFirstLeast(lengths, i) && lengths[i] == best;
      }
      assert IsFirstLeast(more, |lengths|);
    } else if best.Some? {
      var i :| IsFirstLeast(lengths, i) && lengths[i] == best && r == candidates[i];
      assert more[i] == lengths[i];
      assert IsFirstLeast(more, i);
    }
  }

  lemma LeastIsFirst(candidates: seq<int>, lengths: seq<Option<real>>, best: Option<real>, r: int)
    requires IsLeastSoFar(candidates, lengths, best, r)
    ensures best.Some? <==> exists i :: IsFirstLeast(lengths, i)
    ensures best.Some? ==> r in candidates && exists i :: IsFirstLeast(lengths, i) && r == candidates[i]
  {
  }

  ghost predicate AllEntries<K(!new), V>(entries: map<K, V>, holds: (K, V) -> bool) {
    forall k {:trigger entries[k]} :: k in entries ==> holds(k, entries[k])
  }

  lemma AddEntry<K(!new), V>(entries: map<K, V>, holds: (K, V) -> bool, key: K, value: V)
    requires AllEntries(entries, holds) && holds(key, value)
    ensures AllEntries(entries[key := value], holds)
  {
  }

  // The planner's configuration, with the three turn penalties its environment settles on.
  datatype Config = Config(
    defaultTurn: real,
    retryTurn: real,
    lastResortTurn: real,
    enableCache: bool,
    cacheSize: nat,
    enableNearestCache: bool,
    nearestCandidates: int,
    shortDistance: real,
    mixedEnabled: bool,
    pureAStar: bool)

  class GlobalPathPlanner {
    const m: RoadMap
    const finder: AStarPathFinder
    const config: Config
    const table: (int, int, set<int>, set<(int, int)>) -> Option<TablePath>
    var keyNodes: seq<int>
    var shortPathCache: map<(int, int), seq<int>>
    var nearestKeyCache: map<int, int>

    // Construction followed by `initialize`, which collects the key nodes.
    constructor (map_: RoadMap, config_: Config, table_: (int, int, set<int>, set<(int, int)>) -> Option<TablePath>)
      requires map_.WellFormed()
      requires forall a, b, nodes, edges :: table_(a, b, nodes, edges).Some? ==>
        Leads(map_, table_(a, b, nodes, edges).value.path, a, b)
      ensures Valid() && m == map_ && config == config_ && table == table_
      ensures !config.enableNearestCache ==> shortPathCache == map[] && nearestKeyCache == map[]
      ensures config.enableNearestCache && CanPrepare() ==> PreparedUpTo(|m.nodes|)
    {
      m := map_;
      config := config_;
      table := table_;
      finder := new AStarPathFinder(map_);
      shortPathCache := map[];
      nearestKeyCache := map[];
      keyNodes := [];
      new;
      for i := 0 to |m.nodes|
        invariant finder.Valid() && finder.m == m && shortPathCache == map[] && nearestKeyCache == map[]
        invariant keyNodes == KeyNodeIds(m.nodes[..i])
      {
        assert m.nodes[..i + 1][..i] == m.nodes[..i];
        if m.nodes[i].nodeType in {1, 2, 7, 9} {
          keyNodes := keyNodes + [m.nodes[i].id];
        }
      }
      assert m.nodes[..|m.nodes|] == m.nodes;
      if config.enableNearestCache {
        PrepareNearestKeyNodes();
      }
    }

    // The nearest key node is known without a search.
    predicate IsPrepared(nodeId: int)
      reads this
    {
      nodeId in keyNodes || nodeId in nearestKeyCache
    }

    // Candidates are asked for, there is a key node, and no key node reads as none.
    predicate CanPrepare()
      reads this`keyNodes
    {
      config.nearestCandidates > 0 && keyNodes != [] && -1 !in keyNodes
    }

    ghost predicate PreparedUpTo(n: int)
      requires n <= |m.nodes|
      reads this
    {
      forall i :: 0 <= i < n && m.nodes[i].nodeType == 0 ==> IsPrepared(m.nodes[i].id)
    }

    // Fills the cache for all ordinary nodes.
    method PrepareNearestKeyNodes()
      requires Valid() && config.enableNearestCache
      modifies this`shortPathCache, this`nearestKeyCache
      ensures Valid()
      ensures CanPrepare() ==> PreparedUpTo(|m.nodes|)
    {
      for i := 0 to |m.nodes|
        invariant Valid() && (CanPrepare() ==> PreparedUpTo(i))
      {
        PrepareAt(i);
      }
    }

    method PrepareAt(i: nat)
      requires Valid() && config.enableNearestCache && i < |m.nodes|
      modifies this`shortPathCache, this`nearestKeyCache
      ensures Valid()
      ensures CanPrepare() && old(PreparedUpTo(i)) ==> PreparedUpTo(i + 1)
    {
      if m.nodes[i].nodeType == 0 {
        PrepareNode(m.nodes[i].id);
      }
    }

    method PrepareNode(nodeId: int)
      requires Valid() && config.enableNearestCache && IndexOf(m.nodes, nodeId).Some?
      modifies this`shortPathCache, this`nearestKeyCache
      ensures Valid()
      ensures forall id :: old(IsPrepared(id)) ==> IsPrepared(id)
      ensures CanPrepare() ==> IsPrepared(nodeId)
    {
      var r := NearestKeyNode(nodeId);
      if nodeId !in keyNodes && CanPrepare() {
        SomeCandidate(nodeId);
        assert IsChosen(nodeId, r);
      }
    }

    // A known ordinary node has a candidate if there is any key node.
    lemma SomeCandidate(nodeId: int)
      requires nodeId !in keyNodes && keyNodes != [] && config.nearestCandidates > 0 && IndexOf(m.nodes, nodeId).Some?
      ensures !AreCandidates(nodeId, [])
    {
      forall rest | Selection(m, nodeId, Without(keyNodes, nodeId), [], rest) ensures rest != [] {
        assert keyNodes[0] in Without(keyNodes, nodeId);
        assert keyNodes[0] in multiset(Without(keyNodes, nodeId));
      }
    }

    function Ask(start: int, end: int, blockedNodes: set<int>, blockedEdges: set<(int, int)>): Request {
      Request(m, start, end, blockedNodes - {start, end}, blockedEdges)
    }

    // Every cached path answers the request without bans that it was stored for.
    ghost predicate Cached(key: (int, int), path: seq<int>) {
      m.WellFormed() && path != [] && Answered(Ask(key.0, key.1, {}, {}), config.defaultTurn, path)
    }

    ghost predicate CacheIsSound(cache: map<(int, int), seq<int>>) {
      AllEntries(cache, Cached)
    }

    // What the planner assumes of the static table.
    ghost predicate TableLeads() {
      forall a, b, nodes, edges :: table(a, b, nodes, edges).Some? ==>
        Leads(m, table(a, b, nodes, edges).value.path, a, b)
    }

    // What no call changes.
    ghost predicate IsSetUp()
      reads this`keyNodes, finder
    {
      && m.WellFormed() && finder.m == m && finder.Valid()
      && TableLeads()
      && keyNodes == KeyNodeIds(m.nodes)
    }

    ghost predicate Valid()
      reads this, finder
    {
      IsSetUp() && CacheIsSound(shortPathCache) && NearestAreRight(nearestKeyCache)
    }

    // Every remembered nearest key node is the one a fresh search would give.
    ghost predicate NearestAreRight(cache: map<int, int>)
      reads this`keyNodes
    {
      forall id :: id in cache ==> IsNearestKey(id, cache[id])
    }

    // The key node itself, or the choice among some candidates as IsNearest says.
    ghost predicate IsNearestKey(nodeId: int, r: int)
      reads this`keyNodes
    {
      m.WellFormed() && (r == -1 || r in keyNodes)
      && if nodeId in keyNodes then r == nodeId else IsChosen(nodeId, r)
    }

    ghost predicate IsChosen(nodeId: int, r: int)
      requires m.WellFormed()
      reads this`keyNodes
    {
      exists candidates, lengths :: IsNearest(nodeId, candidates, lengths, r)
    }

    lemma RememberedStayRight(cache: map<int, int>, nodeId: int, r: int)
      requires NearestAreRight(cache) && IsNearestKey(nodeId, r)
      ensures NearestAreRight(cache[nodeId := r])
    {
    }

    // findNearestKKeyNodesByEuclidean: repeatedly takes the queue's first candidate.
    method NearestKeyNodes(nodeId: int, k: int) returns (r: seq<int>)
      requires Valid()
      ensures IndexOf(m.nodes, nodeId).None? ==> r == []
      ensures |r| <= if k < 0 then 0 else k
      ensures forall x :: x in r ==> x in keyNodes && x != nodeId
      ensures IndexOf(m.nodes, nodeId).Some? ==> exists rest ::
        Selection(m, nodeId, Without(keyNodes, nodeId), r, rest) && (|r| < k ==> rest == [])
    {
      r := [];
      if IndexOf(m.nodes, nodeId).None? { return; }
      var all := Without(keyNodes, nodeId);
      var pool := all;
      while |r| < k && pool != []
        invariant |r| == 0 || |r| <= k
        invariant Selection(m, nodeId, all, r, pool)
        decreases |pool|
      {
        var best := EarliestIndex(m, nodeId, pool);
        SelectNext(m, nodeId, all, r, pool, best);
        r := r + [pool[best]];
        pool := pool[..best] + pool[best + 1..];
      }
      SelectedAreCandidates(m, nodeId, all, r, pool);
    }

    // Strategy 4: through one key node near the start and one near the goal.
    method ViaTwoKeyNodes(rq: Request) returns (path: seq<int>)
      requires Valid() && rq.m == m
      ensures path != [] ==> Reachable(rq) && IsPathOf(rq, path)
    {
      path := [];
      var nearStart := NearestKeyNodes(rq.start, 3);
      var nearEnd := NearestKeyNodes(rq.goal, 3);
      for i := 0 to |nearStart|
        invariant path == []
      {
        var midStart := nearStart[i];
        if midStart != rq.start && midStart != rq.goal && midStart !in rq.banned {
          for j := 0 to |nearEnd|
            invariant path == []
          {
            var midEnd := nearEnd[j];
            if midEnd != rq.start && midEnd != rq.goal && midEnd != midStart && midEnd !in rq.banned {
              var seg1 := Segment(rq.(goal := midStart));
              var seg2 := Segment(rq.(start := midStart, goal := midEnd));
              var seg3 := Segment(rq.(start := midEnd));
              if seg1 != [] && seg2 != [] && seg3 != [] {
                JoinPaths(rq.(goal := midEnd), midStart, seg1, seg2);
                JoinPaths(rq, midEnd, seg1 + seg2[1..], seg3);
                path := seg1 + seg2[1..] + seg3[1..];
                PathMeansReachable(rq, path);
                return;
              }
            }
          }
        }
      }
    }

    // Strategy 5: through one of ten key nodes near the goal.
    method ViaOneKeyNode(rq: Request) returns (path: seq<int>)
      requires Valid() && rq.m == m
      ensures path != [] ==> Reachable(rq) && IsPathOf(rq, path)
    {
      path := [];
      var candidates := NearestKeyNodes(rq.goal, 10);
      for i := 0 to |candidates|
        invariant path == []
      {
        var mid := candidates[i];
        if mid != rq.start && mid != rq.goal && mid !in rq.banned {
          var seg1 := Segment(rq.(goal := mid));
          var seg2 := Segment(rq.(start := mid));
          if seg1 != [] && seg2 != [] {
            JoinPaths(rq, mid, seg1, seg2);
            path := seg1 + seg2[1..];
            PathMeansReachable(rq, path);
            return;
          }
        }
      }
    }

    // One segment of strategies 4 and 5; empty when it was not found.
    method Segment(rq: Request) returns (path: seq<int>)
      requires Valid() && rq.m == m
      ensures path != [] ==> Reachable(rq) && IsPathOf(rq, path)
    {
      var r := finder.FindPath(rq.start, rq.goal, config.lastResortTurn, rq.banned, rq.blockedEdges, map[], 0.0);
      AnswerMeans(rq, config.lastResortTurn, r);
      path := r.path;
    }

    // The cascade. Its answer is the one strategy 1 alone would give: the later strategies
    // never find a path that the first one missed.
    method FiveStrategies(rq: Request) returns (path: seq<int>)
      requires Valid() && rq.m == m
      ensures Answered(rq, config.defaultTurn, path)
    {
      var result := finder.FindPath(rq.start, rq.goal, config.defaultTurn, rq.banned, rq.blockedEdges, map[], 0.0);
      AnswerMeans(rq, config.defaultTurn, result);
      path := result.path;
      if path == [] {
        result := finder.FindPath(rq.start, rq.goal, config.retryTurn, rq.banned, rq.blockedEdges, map[], 0.0);
        AnswerMeans(rq, config.retryTurn, result);
        path := result.path;
      }
      if path == [] {
        path := Segment(rq);
      }
      if path == [] {
        path := ViaTwoKeyNodes(rq);
      }
      if path == [] {
        path := ViaOneKeyNode(rq);
      }
    }

    method AStarSearch(start: int, end: int, blockedNodes: set<int>, blockedEdges: set<(int, int)>)
        returns (path: seq<int>)
      requires Valid()
      modifies this`shortPathCache
      ensures Valid()
      ensures Answered(Ask(start, end, blockedNodes, blockedEdges), config.defaultTurn, path)
    {
      var cacheable := blockedNodes == {} && blockedEdges == {};
      if cacheable && config.enableCache && (start, end) in shortPathCache {
        EntryIsCached((start, end));
        path := shortPathCache[(start, end)];
        CachedMeansAnswered(start, end, blockedNodes, blockedEdges, path);
        return;
      }
      path := FiveStrategies(Ask(start, end, blockedNodes, blockedEdges));
      if cacheable && config.enableCache && path != [] {
        RememberAnswer(start, end, blockedNodes, blockedEdges, path);
      }
    }

    method RememberAnswer(start: int, end: int, blockedNodes: set<int>, blockedEdges: set<(int, int)>, path: seq<int>)
      requires Valid() && blockedNodes == {} && blockedEdges == {} && path != []
      requires Answered(Ask(start, end, blockedNodes, blockedEdges), config.defaultTurn, path)
      modifies this`shortPathCache
      ensures Valid()
    {
      CachedMeansAnswered(start, end, blockedNodes, blockedEdges, path);
      Remember((start, end), path);
    }

    lemma EntryIsCached(key: (int, int))
      requires CacheIsSound(shortPathCache) && key in shortPathCache
      ensures Cached(key, shortPathCache[key])
    {
    }

    lemma CachedMeansAnswered(start: int, end: int, blockedNodes: set<int>, blockedEdges: set<(int, int)>, path: seq<int>)
      requires m.WellFormed() && blockedNodes == {} && blockedEdges == {} && path != []
      ensures Cached((start, end), path)
        <==> Answered(Ask(start, end, blockedNodes, blockedEdges), config.defaultTurn, path)
    {
    }

    function Trimmed(cache: map<(int, int), seq<int>>): map<(int, int), seq<int>> {
      if |cache| >= config.cacheSize then map[] else cache
    }

    lemma TrimmedIsSound(cache: map<(int, int), seq<int>>, key: (int, int), path: seq<int>)
      requires CacheIsSound(cache) && Cached(key, path)
      ensures CacheIsSound(Trimmed(cache)[key := path])
    {
      AddEntry(Trimmed(cache), Cached, key, path);
    }

    // Stores a path; a full cache is emptied first.
    method Remember(key: (int, int), path: seq<int>)
      requires CacheIsSound(shortPathCache) && Cached(key, path)
      modifies this`shortPathCache
      ensures CacheIsSound(shortPathCache)
      ensures shortPathCache == Trimmed(old(shortPathCache))[key := path]
    {
      TrimmedIsSound(shortPathCache, key, path);
      TrimCache();
      shortPathCache := shortPathCache[key := path];
    }

    method TrimCache()
      modifies this`shortPathCache
      ensures shortPathCache == Trimmed(old(shortPathCache))
    {
      if |shortPathCache| >= config.cacheSize {
        shortPathCache := map[];
      }
    }

    // What the search from a node to one candidate measured: the length of an answer, or
    // none when the candidate cannot be reached.
    ghost predicate Measured(nodeId: int, candidate: int, length: Option<real>)
      requires m.WellFormed()
    {
      match length
      case None => !Reachable(Ask(nodeId, candidate, {}, {}))
      case Some(d) => exists path :: path != [] && d == PathLength(m, path)
                        && Answered(Ask(nodeId, candidate, {}, {}), config.defaultTurn, path)
    }

    // The choice among scanned candidates: the first with the least measured length, or the
    // very first when none was reached. The scan may stop early at a short one.
    ghost predicate IsNearestChoice(nodeId: int, candidates: seq<int>, lengths: seq<Option<real>>, r: int)
      requires m.WellFormed()
    {
      && candidates != [] && AreMeasured(nodeId, candidates, lengths) && EndsAtShort(candidates, lengths)
      && (if exists i :: IsFirstLeast(lengths, i) then exists i :: IsFirstLeast(lengths, i) && r == candidates[i]
          else (forall i {:trigger lengths[i]} :: 0 <= i < |lengths| ==> lengths[i].None?) && r == candidates[0])
    }

    // findNearestKeyNode: the node itself, a cached answer, or the choice among the nearest
    // candidates, which is cached; -1 without candidates.
    method NearestKeyNode(nodeId: int) returns (r: int)
      requires Valid()
      modifies this`shortPathCache, this`nearestKeyCache
      ensures Valid() && IsNearestKey(nodeId, r)
      ensures nodeId !in keyNodes && IsRemembered(old(nearestKeyCache), nodeId) ==> r == old(nearestKeyCache)[nodeId]
      ensures nearestKeyCache ==
        if nodeId !in keyNodes && config.enableNearestCache && nodeId !in old(nearestKeyCache) && r != -1
        then old(nearestKeyCache)[nodeId := r] else old(nearestKeyCache)
    {
      if nodeId in keyNodes {
        r := nodeId;
      } else if config.enableNearestCache && nodeId in nearestKeyCache {
        r := nearestKeyCache[nodeId];
      } else {
        r := ChooseNearest(nodeId);
        RememberNearest(nodeId, r);
      }
    }

    method RememberNearest(nodeId: int, r: int)
      requires Valid() && IsNearestKey(nodeId, r)
      modifies this`nearestKeyCache
      ensures Valid()
      ensures nearestKeyCache ==
        if config.enableNearestCache && r != -1 then old(nearestKeyCache)[nodeId := r] else old(nearestKeyCache)
    {
      if config.enableNearestCache && r != -1 {
        RememberedStayRight(nearestKeyCache, nodeId, r);
        nearestKeyCache := nearestKeyCache[nodeId := r];
      }
    }

    predicate IsRemembered(cache: map<int, int>, nodeId: int) {
      config.enableNearestCache && nodeId in cache
    }

    // The choice among the nearest candidates; -1 without candidates.
    ghost predicate IsNearest(nodeId: int, candidates: seq<int>, lengths: seq<Option<real>>, r: int)
      requires m.WellFormed()
      reads this`keyNodes
    {
      && AreCandidates(nodeId, candidates)
      && (if candidates == [] then r == -1 else r in keyNodes && IsNearestChoice(nodeId, candidates, lengths, r))
    }

    method ChooseNearest(nodeId: int) returns (r: int)
      requires Valid() && nodeId !in keyNodes
      modifies this`shortPathCache
      ensures Valid() && IsNearestKey(nodeId, r)
    {
      if keyNodes == [] {
        NoKeyNodes(nodeId);
        assert IsNearest(nodeId, [], [], -1);
        return -1;
      }
      var nearest := NearestKeyNodes(nodeId, config.nearestCandidates);
      if nearest == [] {
        assert IsNearest(nodeId, [], [], -1);
        return -1;
      }
      ghost var lengths;
      r, lengths := ScanCandidates(nodeId, nearest);
      assert IsNearest(nodeId, nearest, lengths, r);
    }

    // The candidates are key nodes nearest by straight line, as many as configured.
    ghost predicate AreCandidates(nodeId: int, candidates: seq<int>)
      reads this`keyNodes
    {
      if IndexOf(m.nodes, nodeId).None? then candidates == []
      else
        exists rest ::
          Selection(m, nodeId, Without(keyNodes, nodeId), candidates, rest)
          && |candidates| <= (if config.nearestCandidates < 0 then 0 else config.nearestCandidates)
          && (|candidates| < config.nearestCandidates ==> rest == [])
    }

    lemma NoKeyNodes(nodeId: int)
      requires keyNodes == []
      ensures AreCandidates(nodeId, [])
    {
      assert Selection(m, nodeId, Without(keyNodes, nodeId), [], []);
    }

    method ScanCandidates(nodeId: int, candidates: seq<int>) returns (r: int, ghost lengths: seq<Option<real>>)
      requires Valid() && candidates != [] && forall x :: x in candidates ==> x in keyNodes
      modifies this`shortPathCache
      ensures Valid() && r in keyNodes
      ensures IsNearestChoice(nodeId, candidates, lengths, r)
    {
      r, lengths := -1, [];
      var best: Option<real> := None;
      var i := 0;
      while i < |candidates|
        invariant Valid() && 0 <= i == |lengths| <= |candidates|
        invariant AreMeasured(nodeId, candidates, lengths) && NoneIsShort(lengths)
        invariant i == |candidates| ==> EndsAtShort(candidates, lengths)
        invariant IsLeastSoFar(candidates, lengths, best, r)
      {
        var path := MeasureCandidate(nodeId, candidates[i]);
        ghost var before := lengths;
        lengths := lengths + [LengthOf(path)];
        LeastNext(candidates, before, best, r, LengthOf(path));
        MeasuredNext(nodeId, candidates, before, LengthOf(path));
        if path != [] {
          var d := PathLength(m, path);
          if best.None? || d < best.value {
            best, r := Some(d), candidates[i];
          }
          if d < SHORT_ENOUGH {
            StopsAtShort(candidates, before, Some(d));
            break;
          }
        }
        if i + 1 == |candidates| { StopsAtShort(candidates, before, LengthOf(path)); }
        i := i + 1;
      }
      ScanIsChoice(nodeId, candidates, lengths, best, r);
      if best.None? { r := candidates[0]; }
    }

    ghost function LengthOf(path: seq<int>): Option<real> {
      if path == [] then None else Some(PathLength(m, path))
    }

    ghost predicate AreMeasured(nodeId: int, candidates: seq<int>, lengths: seq<Option<real>>)
      requires m.WellFormed()
    {
      |lengths| <= |candidates|
      && forall i {:trigger lengths[i]} :: 0 <= i < |lengths| ==> Measured(nodeId, candidates[i], lengths[i])
    }

    lemma MeasuredNext(nodeId: int, candidates: seq<int>, lengths: seq<Option<real>>, length: Option<real>)
      requires m.WellFormed() && |lengths| < |candidates|
      requires AreMeasured(nodeId, candidates, lengths) && Measured(nodeId, candidates[|lengths|], length)
      ensures AreMeasured(nodeId, candidates, lengths + [length])
    {
      forall i | 0 <= i < |lengths| + 1 ensures Measured(nodeId, candidates[i], (lengths + [length])[i]) {
        if i < |lengths| { assert (lengths + [length])[i] == lengths[i]; }
      }
    }

    method MeasureCandidate(nodeId: int, candidate: int) returns (path: seq<int>)
      requires Valid()
      modifies this`shortPathCache
      ensures Valid() && Measured(nodeId, candidate, LengthOf(path))
    {
      path := AStarSearch(nodeId, candidate, {}, {});
    }

    lemma ScanIsChoice(nodeId: int, candidates: seq<int>, lengths: seq<Option<real>>, best: Option<real>, r: int)
      requires m.WellFormed() && candidates != []
      requires AreMeasured(nodeId, candidates, lengths) && IsLeastSoFar(candidates, lengths, best, r)
      requires EndsAtShort(candidates, lengths)
      ensures IsNearestChoice(nodeId, candidates, lengths, if best.None? then candidates[0] else r)
      ensures (if best.None? then candidates[0] else r) in candidates
    {
      LeastIsFirst(candidates, lengths, best, r);
    }

    // A plain A* answer to the whole request.
    ghost predicate IsPlain(start: int, end: int, blockedNodes: set<int>, blockedEdges: set<(int, int)>, r: PlanResult) {
      && m.WellFormed() && Answered(Ask(start, end, blockedNodes, blockedEdges), config.defaultTurn, r.path)
      && r == if r.path == [] then NO_PLAN else PlanResult(r.path, PathLength(m, r.path), true, PureAStar)
    }

    // The fallback shared by all cases.
    method PlainAnswer(start: int, end: int, blockedNodes: set<int>, blockedEdges: set<(int, int)>)
        returns (r: PlanResult)
      requires Valid()
      modifies this`shortPathCache
      ensures Valid()
      ensures IsPlain(start, end, blockedNodes, blockedEdges, r)
    {
      var path := AStarSearch(start, end, blockedNodes, blockedEdges);
      r := if path == [] then NO_PLAN else PlanResult(path, PathLength(m, path), true, PureAStar);
    }

    lemma PlainIsSound(start: int, end: int, blockedNodes: set<int>, blockedEdges: set<(int, int)>, r: PlanResult)
      requires IsPlain(start, end, blockedNodes, blockedEdges, r)
      ensures Sound(start, end, r)
      ensures r.reachable <==> Reachable(Ask(start, end, blockedNodes, blockedEdges))
    {
      if r.path != [] {
        RouteLeads(Ask(start, end, blockedNodes, blockedEdges), r.path);
      }
    }

    // A reachable answer leads from start to end; unless the static table supplied it
    // whole, its distance is the length of its path.
    ghost predicate Sound(start: int, end: int, r: PlanResult) {
      && (r.reachable ==> Leads(m, r.path, start, end))
      && (r.reachable && r.source != StaticTable ==> r.distance == PathLength(m, r.path))
      && (!r.reachable ==> r == NO_PLAN)
    }

    method ConcatenatePaths(segments: seq<seq<int>>, source: Source) returns (r: PlanResult)
      ensures r == PlanResult(Joined(segments), PathLength(m, Joined(segments)), true, source)
      ensures forall stops :: MeetAt(m, segments, stops) ==>
        Leads(m, r.path, stops[0], stops[|segments|]) && r.distance == TotalLength(m, segments)
    {
      var path := [];
      for i := 0 to |segments|
        invariant path == Joined(segments[..i])
      {
        assert segments[..i + 1][..i] == segments[..i];
        if segments[i] != [] {
          if path == [] { path := segments[i]; } else { path := path + segments[i][1..]; }
        }
      }
      assert segments[..|segments|] == segments;
      r := PlanResult(path, PathLength(m, path), true, source);
      forall stops | MeetAt(m, segments, stops)
        ensures Leads(m, r.path, stops[0], stops[|segments|]) && r.distance == TotalLength(m, segments)
      {
        JoinedOfMeeting(m, segments, stops);
      }
    }

    // Two ends that are no key nodes and near each other are not worth a detour.
    predicate IsShortHop(start: int, end: int)
      reads this`keyNodes
    {
      && start !in keyNodes && end !in keyNodes
      && Distance(m, start, end).Some? && Distance(m, start, end).value < config.shortDistance
    }

    // Both ends are key nodes, or the hop is short: plain A* is asked at once.
    predicate IsDirect(start: int, end: int)
      reads this`keyNodes
    {
      (start in keyNodes && end in keyNodes) || IsShortHop(start, end)
    }

    // From one key node to the other the table answers, and the outer segments exist.
    ghost predicate Mixes(start: int, end: int, blockedNodes: set<int>, blockedEdges: set<(int, int)>, first: int, last: int)
      reads this`keyNodes
    {
      && m.WellFormed() && !IsDirect(start, end)
      && (start !in keyNodes ==> first != -1 && Reachable(Ask(start, first, blockedNodes, blockedEdges)))
      && (end !in keyNodes ==> last != -1 && Reachable(Ask(last, end, blockedNodes, blockedEdges)))
      && table(first, last, blockedNodes, blockedEdges).Some?
    }

    // An answer for the outer segment at one end; empty where that is a key node itself.
    ghost predicate IsOuter(outer: int, from: int, goal: int, blockedNodes: set<int>, blockedEdges: set<(int, int)>,
                            path: seq<int>)
      reads this`keyNodes
    {
      if outer in keyNodes then path == []
      else m.WellFormed() && Answered(Ask(from, goal, blockedNodes, blockedEdges), config.defaultTurn, path)
    }

    // Outer segments and table path, without the doubled joints.
    function Stitched(head: seq<int>, middle: seq<int>, tail: seq<int>): seq<int> {
      Glued(Glued(head, middle), tail)
    }

    ghost predicate IsMixed(start: int, end: int, blockedNodes: set<int>, blockedEdges: set<(int, int)>, first: int, last: int,
                            r: PlanResult)
      requires table(first, last, blockedNodes, blockedEdges).Some?
      reads this`keyNodes
    {
      exists head, tail ::
        && IsOuter(start, start, first, blockedNodes, blockedEdges, head)
        && IsOuter(end, last, end, blockedNodes, blockedEdges, tail)
        && var path := Stitched(head, table(first, last, blockedNodes, blockedEdges).value.path, tail);
           r == PlanResult(path, PathLength(m, path), true, MixedPlanning)
    }

    // The key nodes a mixed plan goes through: an end that is one itself, or the nearest one.
    ghost predicate AreEntries(start: int, end: int, first: int, last: int)
      reads this`keyNodes
    {
      IsNearestKey(start, first) && IsNearestKey(end, last)
    }

    // Which plan the mixed planner gives.
    ghost predicate IsMixedPlan(start: int, end: int, blockedNodes: set<int>, blockedEdges: set<(int, int)>,
                                first: int, last: int, r: PlanResult)
      reads this`keyNodes
    {
      && (!IsDirect(start, end) ==> AreEntries(start, end, first, last))
      && (r.source == MixedPlanning <==> Mixes(start, end, blockedNodes, blockedEdges, first, last))
      && (if Mixes(start, end, blockedNodes, blockedEdges, first, last)
          then IsMixed(start, end, blockedNodes, blockedEdges, first, last, r)
          else IsPlain(start, end, blockedNodes, blockedEdges, r))
    }

    lemma PlainIsMixedPlan(start: int, end: int, blockedNodes: set<int>, blockedEdges: set<(int, int)>,
                           first: int, last: int, r: PlanResult)
      requires IsPlain(start, end, blockedNodes, blockedEdges, r)
      requires !IsDirect(start, end) ==> AreEntries(start, end, first, last)
      requires !Mixes(start, end, blockedNodes, blockedEdges, first, last)
      ensures IsMixedPlan(start, end, blockedNodes, blockedEdges, first, last, r)
    {
    }

    // mixedPlanning: the four cases of which end points are key nodes. Whatever the case,
    // it succeeds when plain A* would.
    method MixedPlan(start: int, end: int, blockedNodes: set<int>, blockedEdges: set<(int, int)>)
        returns (r: PlanResult, ghost first: int, ghost last: int)
      requires Valid()
      modifies this`shortPathCache, this`nearestKeyCache
      ensures Valid()
      ensures Reachable(Ask(start, end, blockedNodes, blockedEdges)) ==> r.reachable
      ensures Sound(start, end, r)
      ensures IsMixedPlan(start, end, blockedNodes, blockedEdges, first, last, r)
    {
      var startIn, endIn := start in keyNodes, end in keyNodes;
      first, last := start, end;
      var direct := Distance(m, start, end);
      if (startIn && endIn) || (!startIn && !endIn && direct.Some? && direct.value < config.shortDistance) {
        r := PlainAnswer(start, end, blockedNodes, blockedEdges);
        PlainIsSound(start, end, blockedNodes, blockedEdges, r);
        PlainIsMixedPlan(start, end, blockedNodes, blockedEdges, first, last, r);
        return;
      }
      var a, b := start, end;
      if !startIn { a := NearestKeyNode(start); }
      if !endIn { b := NearestKeyNode(end); }
      first, last := a, b;
      r := ThroughKeyNodes(start, a, b, end, blockedNodes, blockedEdges);
    }

    method ThroughKeyNodes(start: int, first: int, last: int, end: int, blockedNodes: set<int>, blockedEdges: set<(int, int)>)
        returns (r: PlanResult)
      requires Valid() && !IsDirect(start, end) && AreEntries(start, end, first, last)
      modifies this`shortPathCache
      ensures Valid()
      ensures Reachable(Ask(start, end, blockedNodes, blockedEdges)) ==> r.reachable
      ensures Sound(start, end, r)
      ensures IsMixedPlan(start, end, blockedNodes, blockedEdges, first, last, r)
    {
      if (start !in keyNodes && first == -1) || (end !in keyNodes && last == -1) {
        r := FallBack(start, first, last, end, blockedNodes, blockedEdges);
        return;
      }
      var head, tail := OuterSegments(start, first, last, end, blockedNodes, blockedEdges);
      var middle := table(first, last, blockedNodes, blockedEdges);
      if (start !in keyNodes && head == []) || middle.None? || (end !in keyNodes && tail == []) {
        MissingSegment(start, first, last, end, blockedNodes, blockedEdges, head, tail);
        r := FallBack(start, first, last, end, blockedNodes, blockedEdges);
      } else {
        r := MixSegments(start, first, last, end, blockedNodes, blockedEdges, head, middle.value.path, tail);
      }
    }

    // The mixed plan, all segments being at hand.
    method MixSegments(start: int, first: int, last: int, end: int, ghost blockedNodes: set<int>,
                       ghost blockedEdges: set<(int, int)>, head: seq<int>, middle: seq<int>, tail: seq<int>)
        returns (r: PlanResult)
      requires m.WellFormed() && TableLeads() && !IsDirect(start, end) && AreEntries(start, end, first, last)
      requires (start !in keyNodes ==> first != -1 && head != []) && (end !in keyNodes ==> last != -1 && tail != [])
      requires IsOuter(start, start, first, blockedNodes, blockedEdges, head)
      requires IsOuter(end, last, end, blockedNodes, blockedEdges, tail)
      requires table(first, last, blockedNodes, blockedEdges).Some?
      requires middle == table(first, last, blockedNodes, blockedEdges).value.path
      ensures r.reachable && Sound(start, end, r)
      ensures IsMixedPlan(start, end, blockedNodes, blockedEdges, first, last, r)
    {
      TablePathLeads(first, last, blockedNodes, blockedEdges);
      r := StitchSegments(head, middle, tail, start in keyNodes, end in keyNodes);
      StitchedIsMixedPlan(start, end, blockedNodes, blockedEdges, first, last, head, tail, r);
    }

    // A plain answer where nothing can be mixed.
    method FallBack(start: int, first: int, last: int, end: int, blockedNodes: set<int>, blockedEdges: set<(int, int)>)
        returns (r: PlanResult)
      requires Valid() && AreEntries(start, end, first, last)
      requires !Mixes(start, end, blockedNodes, blockedEdges, first, last)
      modifies this`shortPathCache
      ensures Valid()
      ensures Reachable(Ask(start, end, blockedNodes, blockedEdges)) ==> r.reachable
      ensures Sound(start, end, r)
      ensures IsMixedPlan(start, end, blockedNodes, blockedEdges, first, last, r)
    {
      r := PlainAnswer(start, end, blockedNodes, blockedEdges);
      PlainIsSound(start, end, blockedNodes, blockedEdges, r);
      PlainIsMixedPlan(start, end, blockedNodes, blockedEdges, first, last, r);
    }

    lemma MissingSegment(start: int, first: int, last: int, end: int, blockedNodes: set<int>, blockedEdges: set<(int, int)>,
                         head: seq<int>, tail: seq<int>)
      requires IsOuter(start, start, first, blockedNodes, blockedEdges, head)
      requires IsOuter(end, last, end, blockedNodes, blockedEdges, tail)
      requires (start !in keyNodes && head == []) || table(first, last, blockedNodes, blockedEdges).None?
        || (end !in keyNodes && tail == [])
      ensures !Mixes(start, end, blockedNodes, blockedEdges, first, last)
    {
    }

    lemma TablePathLeads(first: int, last: int, blockedNodes: set<int>, blockedEdges: set<(int, int)>)
      requires TableLeads() && table(first, last, blockedNodes, blockedEdges).Some?
      ensures Leads(m, table(first, last, blockedNodes, blockedEdges).value.path, first, last)
    {
    }

    method StitchSegments(head: seq<int>, middle: seq<int>, tail: seq<int>, startIn: bool, endIn: bool) returns (r: PlanResult)
      requires middle != [] && (head == [] <==> startIn) && (tail == [] <==> endIn)
      ensures var path := Stitched(head, middle, tail); r == PlanResult(path, PathLength(m, path), true, MixedPlanning)
    {
      JoinedIsStitched(head, middle, tail, startIn, endIn);
      r := ConcatenatePaths((if startIn then [] else [head]) + [middle] + (if endIn then [] else [tail]), MixedPlanning);
    }

    // With all segments at hand the stitched path is the mixed plan.
    lemma StitchedIsMixedPlan(start: int, end: int, blockedNodes: set<int>, blockedEdges: set<(int, int)>,
                              first: int, last: int, head: seq<int>, tail: seq<int>, r: PlanResult)
      requires m.WellFormed() && !IsDirect(start, end) && AreEntries(start, end, first, last)
      requires table(first, last, blockedNodes, blockedEdges).Some?
      requires Leads(m, table(first, last, blockedNodes, blockedEdges).value.path, first, last)
      requires (start !in keyNodes ==> first != -1) && (end !in keyNodes ==> last != -1)
      requires IsOuter(start, start, first, blockedNodes, blockedEdges, head)
      requires IsOuter(end, last, end, blockedNodes, blockedEdges, tail)
      requires (head == [] <==> start in keyNodes) && (tail == [] <==> end in keyNodes)
      requires var path := Stitched(head, table(first, last, blockedNodes, blockedEdges).value.path, tail);
        r == PlanResult(path, PathLength(m, path), true, MixedPlanning)
      ensures IsMixedPlan(start, end, blockedNodes, blockedEdges, first, last, r) && Sound(start, end, r)
    {
      var middle := table(first, last, blockedNodes, blockedEdges).value.path;
      assert IsMixed(start, end, blockedNodes, blockedEdges, first, last, r);
      OuterSegmentsLead(start, first, last, end, blockedNodes, blockedEdges, head, tail);
      StitchedLeads(start, first, last, end, head, middle, tail);
    }

    lemma StitchedLeads(start: int, first: int, last: int, end: int, head: seq<int>, middle: seq<int>, tail: seq<int>)
      requires Leads(m, middle, first, last)
      requires if head == [] then start == first else Leads(m, head, start, first)
      requires if tail == [] then last == end else Leads(m, tail, last, end)
      ensures Leads(m, Stitched(head, middle, tail), start, end)
    {
      GluedLeads(m, head, middle, start, first, last);
      GluedLeads(m, Glued(head, middle), tail, start, last, end);
    }

    // The searched segments before the first and behind the last key node.
    method OuterSegments(start: int, first: int, last: int, end: int, blockedNodes: set<int>, blockedEdges: set<(int, int)>)
        returns (head: seq<int>, tail: seq<int>)
      requires Valid()
      modifies this`shortPathCache
      ensures Valid()
      ensures IsOuter(start, start, first, blockedNodes, blockedEdges, head)
      ensures IsOuter(end, last, end, blockedNodes, blockedEdges, tail)
    {
      head, tail := [], [];
      if start !in keyNodes { head := AStarSearch(start, first, blockedNodes, blockedEdges); }
      if end !in keyNodes { tail := AStarSearch(last, end, blockedNodes, blockedEdges); }
    }

    lemma OuterSegmentsLead(start: int, first: int, last: int, end: int, blockedNodes: set<int>, blockedEdges: set<(int, int)>,
                            head: seq<int>, tail: seq<int>)
      requires IsOuter(start, start, first, blockedNodes, blockedEdges, head)
      requires IsOuter(end, last, end, blockedNodes, blockedEdges, tail)
      ensures head != [] ==> Leads(m, head, start, first)
      ensures tail != [] ==> Leads(m, tail, last, end)
    {
      if head != [] { RouteLeads(Ask(start, first, blockedNodes, blockedEdges), head); }
      if tail != [] { RouteLeads(Ask(last, end, blockedNodes, blockedEdges), tail); }
    }

    lemma JoinedIsStitched(head: seq<int>, middle: seq<int>, tail: seq<int>, startIn: bool, endIn: bool)
      requires middle != [] && (head == [] <==> startIn) && (tail == [] <==> endIn)
      ensures Joined((if startIn then [] else [head]) + [middle] + (if endIn then [] else [tail])) == Stitched(head, middle, tail)
    {
      var none: seq<seq<int>> := [];
      var front := (if startIn then none else [head]) + [middle];
      JoinedAppended(none, head);
      JoinedAppended(if startIn then none else [head], middle);
      JoinedAppended(front, tail);
      assert none + [head] == [head];
      assert endIn ==> front + none == front;
    }

    // planGlobalPath of an initialised planner.
    method PlanGlobalPath(start: int, end: int, blockedNodes: set<int>, blockedEdges: set<(int, int)>)
        returns (r: PlanResult, ghost first: int, ghost last: int)
      requires Valid()
      modifies this`shortPathCache, this`nearestKeyCache
      ensures Valid()
      ensures Sound(start, end, r)
      ensures IsPlan(start, end, blockedNodes, blockedEdges, first, last, r)
      ensures config.pureAStar || config.mixedEnabled ==>
        (Reachable(Ask(start, end, blockedNodes, blockedEdges)) ==> r.reachable)
    {
      first, last := start, end;
      if config.pureAStar {
        r := PlainAnswer(start, end, blockedNodes, blockedEdges);
        PlainIsSound(start, end, blockedNodes, blockedEdges, r);
        return;
      }
      var whole := table(start, end, blockedNodes, blockedEdges);
      if whole.Some? {
        r := PlanResult(whole.value.path, whole.value.distance, true, StaticTable);
      } else if !config.mixedEnabled {
        r := NO_PLAN;
      } else {
        r, first, last := MixedPlan(start, end, blockedNodes, blockedEdges);
      }
    }

    // Which of the planner's sources answers, and with what.
    ghost predicate IsPlan(start: int, end: int, blockedNodes: set<int>, blockedEdges: set<(int, int)>,
                           first: int, last: int, r: PlanResult)
      reads this`keyNodes
    {
      if config.pureAStar then IsPlain(start, end, blockedNodes, blockedEdges, r)
      else
        match table(start, end, blockedNodes, blockedEdges)
        case Some(found) => r == PlanResult(found.path, found.distance, true, StaticTable)
        case None =>
          if !config.mixedEnabled then r == NO_PLAN
          else IsMixedPlan(start, end, blockedNodes, blockedEdges, first, last, r)
    }
  }
}
