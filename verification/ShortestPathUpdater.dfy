// `ShortestPathUpdater` over a loaded road network: the distance matrix and its two writers.
module ShortestPathUpdater {
  import opened Util
  import opened MapModel
  import opened Dijkstra
  import opened ShortestPathMeaning
  import opened HeuristicFinder
  import opened Connectivity
  import MapInfo

  // The loaded tables as the queries read them; `edges[(u, v)]` is what getEdge returns.
  datatype Network = Network(
    nodes: seq<Node>,
    id2index: map<int, nat>,
    aft: map<int, seq<int>>,
    edges: map<(int, int), MapInfo.Edge>,
    globalMaxSpeed: real)
  {
    predicate IsIndex(i: int) { 0 <= i < |nodes| }

    // Listed indices are in range and no edge has a negative length.
    ghost predicate Valid() {
      && (forall id :: id in id2index ==> id2index[id] < |nodes|)
      && (forall u :: u in aft ==> IsIndex(u) && forall k :: 0 <= k < |aft[u]| ==> IsIndex(aft[u][k]))
      && (forall e :: e in edges ==> edges[e].weight >= 0.0)
    }

    predicate IsEdge(u: int, v: int) { u in aft && v in aft[u] && (u, v) in edges }

    function Speed(u: int): (v: real)
      ensures v > 0.0
    {
      if IsIndex(u) && nodes[u].maxSpeed > 0.0 then nodes[u].maxSpeed
      else if globalMaxSpeed > 0.0 then globalMaxSpeed else 1000.0
    }

    predicate PassAllowed(u: int, typeKey: string) {
      IsIndex(u) && nodes[u].allowPass && (nodes[u].passTypes == [] || typeKey in nodes[u].passTypes)
    }

    predicate RotAllowed(u: int, typeKey: string) {
      IsIndex(u) && nodes[u].allowRot && (nodes[u].rotTypes == [] || typeKey in nodes[u].rotTypes)
    }

    function TravelTime(u: int, v: int): real {
      if IsEdge(u, v) then edges[(u, v)].weight / Speed(u) else 0.0
    }
  }

  // The decimal digits of a type number, as std::to_string writes them.
  function Decimal(n: nat): string {
    (if n < 10 then "" else Decimal(n / 10)) + [(n % 10) as char + '0']
  }

  // The roads one vehicle type sees.
  function RoadsFor(net: Network, amrType: nat, penalty: real): Roads {
    var key := Decimal(amrType);
    Roads(
      |net.nodes|,
      u => if u in net.aft then net.aft[u] else [],
      (u, v) => net.IsEdge(u, v),
      (u, v) => net.TravelTime(u, v),
      (u, v) => if (u, v) in net.edges then net.edges[(u, v)].direction else 0,
      u => penalty / net.Speed(u),
      u => net.PassAllowed(u, key),
      u => net.RotAllowed(u, key))
  }

  // What one vehicle type sees: listed edges with a length, driven at the start node's limit or
  // else the global one or else 1000; turns that cost the penalty at that speed; and nodes that
  // are open to every type or name this one.
  lemma RoadsMean(net: Network, amrType: nat, penalty: real, u: int, v: int)
    requires 0 <= u < |net.nodes|
    ensures var g, node := RoadsFor(net, amrType, penalty), net.nodes[u];
      var speed := if node.maxSpeed > 0.0 then node.maxSpeed else if net.globalMaxSpeed > 0.0 then net.globalMaxSpeed else 1000.0;
      && (g.HasEdge(u, v) <==> u in net.aft && v in net.aft[u] && (u, v) in net.edges)
      && (g.HasEdge(u, v) ==> g.Time(u, v) * speed == net.edges[(u, v)].weight && g.Dir(u, v) == net.edges[(u, v)].direction)
      && g.TurnTime(u) * speed == penalty
      && (g.MayPass(u) <==> node.allowPass && (node.passTypes == [] || Decimal(amrType) in node.passTypes))
      && (g.MayTurn(u) <==> node.allowRot && (node.rotTypes == [] || Decimal(amrType) in node.rotTypes))
  {
    QuotientTimes(penalty, net.Speed(u));
    if net.IsEdge(u, v) { QuotientTimes(net.edges[(u, v)].weight, net.Speed(u)); }
  }

  lemma QuotientTimes(x: real, v: real)
    requires v > 0.0
    ensures x / v * v == x
  {
  }

  lemma QuotientNonNegative(a: real, b: real)
    requires a >= 0.0 && b > 0.0
    ensures a / b >= 0.0
  {
  }

  lemma RoadsAreValid(net: Network, amrType: nat, penalty: real)
    requires net.Valid() && penalty >= 0.0
    ensures RoadsFor(net, amrType, penalty).Valid()
  {
    var g := RoadsFor(net, amrType, penalty);
    forall u, v | g.HasEdge(u, v) ensures g.IsNode(u) && g.IsNode(v) && v in g.Next(u) && g.Time(u, v) >= 0.0 {
      assert net.IsEdge(u, v);
      QuotientNonNegative(net.edges[(u, v)].weight, net.Speed(u));
    }
    forall u | g.IsNode(u) ensures g.TurnTime(u) >= 0.0 {
      QuotientNonNegative(penalty, net.Speed(u));
    }
  }

  // Cells keyed by start index, target index and vehicle type; a missing key is uncalculated.
  type Matrix = map<(int, int, nat), Cell>

  function Store(matrix: Matrix, s: int, amrType: nat, row: map<int, Cell>): Matrix {
    matrix + map t | t in row :: (s, t, amrType) := row[t]
  }

  function TargetIndices(net: Network, ids: seq<int>): set<int> {
    set id | id in ids && id in net.id2index :: net.id2index[id] as int
  }

  // Storing writes exactly the row's cells.
  lemma StoreMeans(matrix: Matrix, s: int, amrType: nat, row: map<int, Cell>, a: int, t: int, k: nat)
    ensures var after := Store(matrix, s, amrType, row);
      if a == s && k == amrType && t in row then (a, t, k) in after && after[(a, t, k)] == row[t]
      else ((a, t, k) in after <==> (a, t, k) in matrix) && ((a, t, k) in matrix ==> after[(a, t, k)] == matrix[(a, t, k)])
  {
  }

  // The targets are the known ids' nodes.
  lemma TargetsMean(net: Network, ids: seq<int>, t: int)
    ensures t in TargetIndices(net, ids) <==> exists k :: 0 <= k < |ids| && ids[k] in net.id2index && net.id2index[ids[k]] == t
  {
    if t in TargetIndices(net, ids) {
      var id :| id in ids && id in net.id2index && net.id2index[id] as int == t;
      var k :| 0 <= k < |ids| && ids[k] == id;
      assert ids[k] in net.id2index && net.id2index[ids[k]] == t;
    }
    if k :| 0 <= k < |ids| && ids[k] in net.id2index && net.id2index[ids[k]] == t {
      var id := ids[k];
      assert id in ids && id in net.id2index;
      assert (net.id2index[id] as int) in TargetIndices(net, ids);
    }
  }

  // A decimal text stands for its number and has no leading zero.
  function ValueOf(text: string): int {
    if text == "" then 0 else 10 * ValueOf(text[..|text| - 1]) + (text[|text| - 1] as int - '0' as int)
  }

  lemma {:induction false} DecimalMeans(n: nat)
    ensures Decimal(n) != "" && ValueOf(Decimal(n)) == n && AreDigits(Decimal(n))
    ensures Decimal(n)[0] == '0' ==> n == 0
  {
    var front := if n < 10 then "" else Decimal(n / 10);
    var digit := (n % 10) as char + '0';
    assert Decimal(n) == front + [digit];
    if n >= 10 {
      DecimalMeans(n / 10);
      assert Decimal(n)[0] == front[0];
    }
    DigitAppended(front, n % 10);
  }

  predicate AreDigits(text: string) { forall i :: 0 <= i < |text| ==> '0' <= text[i] <= '9' }

  lemma DigitAppended(front: string, d: int)
    requires 0 <= d < 10 && AreDigits(front)
    ensures ValueOf(front + [d as char + '0']) == 10 * ValueOf(front) + d && AreDigits(front + [d as char + '0'])
    ensures d as char + '0' == '0' ==> d == 0
  {
    var text := front + [d as char + '0'];
    assert text[..|text| - 1] == front;
  }

  // Every stored value is the cost of a rotation-legal path for its vehicle type.
  ghost predicate MatrixIsSound(net: Network, penalty: real, matrix: Matrix) {
    forall s, t, k {:trigger (s, t, k) in matrix} :: (s, t, k) in matrix && matrix[(s, t, k)].Value? ==>
      HasPath(RoadsFor(net, k, penalty), {}, s, t, matrix[(s, t, k)].seconds)
  }

  lemma HasPathPastTargets(g: Roads, targets: set<int>, s: int, t: int, c: real)
    requires HasPath(g, targets, s, t, c)
    ensures HasPath(g, {}, s, t, c)
  {
    var path :| IsPath(g, targets, s, path) && path[|path| - 1] == t && IsLegal(g, path) && TurnAwareCost(g, path) == c;
    FewerTargets(g, targets, {}, s, path);
  }

  lemma StoreKeepsSound(net: Network, penalty: real, matrix: Matrix, s: int, amrType: nat, targets: set<int>, row: map<int, Cell>)
    requires MatrixIsSound(net, penalty, matrix) && Sound(RoadsFor(net, amrType, penalty), targets, s, row)
    ensures MatrixIsSound(net, penalty, Store(matrix, s, amrType, row))
  {
    var after := Store(matrix, s, amrType, row);
    forall a, t, k | (a, t, k) in after && after[(a, t, k)].Value?
      ensures HasPath(RoadsFor(net, k, penalty), {}, a, t, after[(a, t, k)].seconds)
    {
      if a == s && k == amrType && t in row {
        HasPathPastTargets(RoadsFor(net, k, penalty), targets, a, t, row[t].seconds);
      } else {
        assert (a, t, k) in matrix;
      }
    }
  }

  class ShortestPathUpdater {
    const net: Network
    const directionPenalty: real
    var matrix: Matrix

    ghost predicate Valid()
      reads this
    {
      net.Valid() && directionPenalty >= 0.0 && MatrixIsSound(net, directionPenalty, matrix)
    }

    constructor (net: Network, directionPenalty: real)
      requires net.Valid() && directionPenalty >= 0.0
      ensures Valid() && this.net == net && this.directionPenalty == directionPenalty && matrix == map[]
    {
      this.net, this.directionPenalty, matrix := net, directionPenalty, map[];
    }

    // Unknown ids are skipped. Otherwise one cell per target is rewritten and no other.
    method BatchQueryByNodeId(startNodeId: int, targetNodeIds: seq<int>, amrType: nat) returns (row: map<int, Cell>)
      requires Valid()
      modifies this
      ensures Valid()
      ensures row.Keys == (if startNodeId in net.id2index then TargetIndices(net, targetNodeIds) else {})
      ensures startNodeId !in net.id2index ==> matrix == old(matrix)
      ensures startNodeId in net.id2index ==>
        var g, s := RoadsFor(net, amrType, directionPenalty), net.id2index[startNodeId];
        && matrix == Store(old(matrix), s, amrType, row)
        && g.Valid() && Sound(g, row.Keys, s, row) && Complete(g, row.Keys, s, row)
    {
      if startNodeId !in net.id2index { return map[]; }
      var s := net.id2index[startNodeId];
      var targets := TargetIndices(net, targetNodeIds);
      RoadsAreValid(net, amrType, directionPenalty);
      row := Dijkstra.Run(RoadsFor(net, amrType, directionPenalty), s, targets);
      if row.Keys != targets { var t := SetDifference(row.Keys, targets); }
      StoreKeepsSound(net, directionPenalty, matrix, s, amrType, targets, row);
      matrix := Store(matrix, s, amrType, row);
    }

    // What a worker writes for one queued query.
    method ShortestPathFinder(s: nat, end: nat, amrType: nat, h: int -> real)
      requires Valid() && s < |net.nodes| && end < |net.nodes|
      modifies this
      ensures Valid() && (s as int, end as int, amrType) in matrix
      ensures matrix == old(matrix)[(s as int, end as int, amrType) := matrix[(s as int, end as int, amrType)]]
      ensures var g, cell := RoadsFor(net, amrType, directionPenalty), matrix[(s as int, end as int, amrType)];
        && (ShortestPathMeaning.OpenlyReachable(g, {}, s, end) ==> cell.Value?)
        && (g.TurnsEverywhere() ==> (cell.Value? <==> ShortestPathMeaning.Reachable(g, {}, s, end)))
    {
      RoadsAreValid(net, amrType, directionPenalty);
      var cell := FindTime(RoadsFor(net, amrType, directionPenalty), s, end, h);
      matrix := matrix[(s as int, end as int, amrType) := cell];
    }
  }

  // `isPathValid`: same component, an outgoing entry at the start, an incoming one at the end.
  ghost predicate IsPathValid(united: Pairs, aft: MapInfo.Lists, pre: MapInfo.Lists, s: int, e: int) {
    Connected(united, s, e) && s in aft && e in pre
  }

  // The prefilter never rejects a pair that a path of at least one edge connects. A path of
  // no edge is the exception: a node without outgoing or incoming edges is rejected against itself.
  lemma PrefilterKeepsPaths(n: nat, aft: MapInfo.Lists, pre: MapInfo.Lists, edges: seq<MapInfo.Edge>,
                            edgeIndex: map<(int, int), nat>, united: Pairs, before: Pairs, path: seq<int>)
    requires MapInfo.TablesOk(n, aft, pre, edges, edgeIndex) && MapInfo.ListsJoin(aft, united, before)
    requires |path| >= 1
    requires forall i :: 0 <= i < |path| - 1 ==> MapInfo.Listed(aft, path[i], path[i + 1])
    ensures IsPathValid(united, aft, pre, path[0], path[|path| - 1]) <==>
      (|path| > 1 || (path[0] in aft && path[0] in pre))
  {
    MapInfo.DirectedPathIsConnected(aft, united, before, path);
    if |path| > 1 {
      var i := |path| - 2;
      assert MapInfo.Listed(aft, path[0], path[0 + 1]);
      assert MapInfo.Listed(aft, path[i], path[i + 1]);
      assert MapInfo.Listed(pre, path[i + 1], path[i]);
    }
  }

  // The failing case: on a map of one node without edges, that node against itself.
  lemma LoneNodeIsRejected()
    ensures MapInfo.TablesOk(1, map[], map[], [], map[]) && MapInfo.ListsJoin(map[], {}, {})
    ensures Connected({}, 0, 0) && !IsPathValid({}, map[], map[], 0, 0)
  {
    ConnectedSelf({}, 0);
  }
}
