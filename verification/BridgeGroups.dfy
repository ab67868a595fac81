// The undirected node graph the congestion regions are built on.
module RegionGraph {
  import opened Util
  import opened MapModel
  import opened Connectivity
  import M = MapInfo

  datatype Graph = Graph(nodes: seq<Node>, aft: map<int, seq<int>>, pre: map<int, seq<int>>)
  {
    predicate InRange(i: int) { 0 <= i < |nodes| }

    predicate IsPassable(i: int) {
      InRange(i) && nodes[i].id >= 0 && nodes[i].nodeType != -1 && nodes[i].allowPass
    }

    // `gatherNeighborIndices`
    function Neighbours(i: int): (r: seq<int>)
      ensures StrictlyAscending(r)
      ensures forall v :: v in r <==> M.Listed(aft, i, v) || M.Listed(pre, i, v)
    {
      var all := (if i in aft then aft[i] else []) + (if i in pre then pre[i] else []);
      SortUnique(all)
    }

    // The edge tables mirror each other, so being neighbours is symmetric.
    ghost predicate IsMirrored() {
      forall a, b :: M.Listed(aft, a, b) <==> M.Listed(pre, b, a)
    }

    lemma NeighboursSymmetric(u: int, v: int)
      requires IsMirrored()
      ensures v in Neighbours(u) <==> u in Neighbours(v)
    {
    }
  }

  function PassableOf(g: Graph, s: seq<int>): seq<int> {
    if s == [] then [] else (if g.IsPassable(s[0]) then [s[0]] else []) + PassableOf(g, s[1..])
  }

  // The passable ones of a list, in its order.
  lemma {:induction false} PassableOfIs(g: Graph, s: seq<int>, v: int)
    ensures v in PassableOf(g, s) <==> v in s && g.IsPassable(v)
    ensures StrictlyAscending(s) ==> StrictlyAscending(PassableOf(g, s))
  {
    if s != [] {
      PassableOfIs(g, s[1..], v);
      assert s == [s[0]] + s[1..];
      forall k | 0 <= k < |PassableOf(g, s[1..])| && StrictlyAscending(s) ensures s[0] < PassableOf(g, s[1..])[k] {
        PassableOfIs(g, s[1..], PassableOf(g, s[1..])[k]);
      }
    }
  }

  method CountPassableRegionNeighbors(g: Graph, i: int) returns (count: nat)
    ensures count == |PassableOf(g, g.Neighbours(i))|
  {
    var uniq := g.Neighbours(i);
    count := 0;
    for k := 0 to |uniq|
      invariant count + |PassableOf(g, uniq[k..])| == |PassableOf(g, uniq)|
    {
      assert uniq[k..][0] == uniq[k] && uniq[k..][1..] == uniq[k + 1..];
      if g.IsPassable(uniq[k]) { count := count + 1; }
    }
  }

  // A passable node with one or two passable neighbours.
  predicate IsCore(g: Graph, i: int) {
    g.IsPassable(i) && 1 <= |PassableOf(g, g.Neighbours(i))| <= 2
  }

  // The neighbour pairs among some nodes.
  ghost function Inside(g: Graph, s: set<int>): Pairs {
    set u, v | u in s && v in s && v in g.Neighbours(u) :: (u, v)
  }
}

// `collectBridgeRegionGroups`: connected runs of narrow nodes with the wider nodes they end at.
module BridgeGroups {
  import opened Util
  import opened Connectivity
  import opened Spreading
  import opened RegionGraph
  import opened UnionFind

  ghost function Cores(g: Graph): set<int> {
    set i | 0 <= i < |g.nodes| && IsCore(g, i)
  }

  function CoreNet(g: Graph, core: seq<bool>): Net {
    Net(|g.nodes|, u => g.Neighbours(u), v => 0 <= v < |core| && core[v])
  }

  // Component numbers: every core node has one below count, neighbours share it, equal numbers
  // mean a connection through core nodes, and each number is in use.
  ghost predicate IsLabelling(g: Graph, comp: seq<int>, count: int, upTo: int) {
    && |comp| == |g.nodes| && count >= 0
    && (forall i {:trigger comp[i]} :: 0 <= i < |comp| ==> (comp[i] >= 0 ==> IsCore(g, i) && comp[i] < count))
    && (forall i {:trigger comp[i]} :: 0 <= i < |comp| && i < upTo && IsCore(g, i) ==> comp[i] >= 0)
    && (forall u, v {:trigger v in g.Neighbours(u)} ::
          IsCore(g, u) && IsCore(g, v) && v in g.Neighbours(u) && 0 <= u < |comp| && 0 <= v < |comp| && comp[u] >= 0 ==>
            comp[v] == comp[u])
    && (forall u, v {:trigger comp[u], comp[v]} :: 0 <= u < |comp| && 0 <= v < |comp| && comp[u] == comp[v] >= 0 ==>
          Connected(Inside(g, Cores(g)), u, v))
    && (forall c :: 0 <= c < count ==> IsUsed(comp, c))
  }

  predicate IsUsed(comp: seq<int>, c: int) { exists i :: 0 <= i < |comp| && comp[i] == c }

  // What spreading from one unlabelled core node adds.
  lemma NewComponentWalk(g: Graph, core: seq<bool>, mark0: seq<int>, i: int, walk: seq<int>)
    requires |core| == |mark0| == |g.nodes| && (forall v :: 0 <= v < |core| ==> (core[v] <==> IsCore(g, v)))
    requires IsWalk(CoreNet(g, core), mark0, [i], walk) && IsCore(g, i)
    ensures walk[0] == i && Connected(Inside(g, Cores(g)), i, walk[|walk| - 1]) && IsCore(g, walk[|walk| - 1])
  {
    var net, pairs := CoreNet(g, core), Inside(g, Cores(g));
    assert walk[0] == i;
    forall k | 0 <= k < |walk| ensures IsCore(g, walk[k]) {
      if k > 0 { assert Step(net, mark0, walk[k - 1], walk[k - 1 + 1]); }
    }
    forall k | 0 <= k < |walk| - 1 ensures Joined(pairs, walk[k], walk[k + 1]) {
      assert Step(net, mark0, walk[k], walk[k + 1]);
      assert walk[k] in Cores(g) && walk[k + 1] in Cores(g);
    }
    assert Links(pairs, walk, i, walk[|walk| - 1]);
  }

  // Labels stay, and new ones are the next number on core nodes connected to node i.
  ghost predicate AddsComponent(g: Graph, comp: seq<int>, count: nat, i: nat, mark: seq<int>) {
    && |mark| == |comp| && i < |mark|
    && (forall v {:trigger mark[v]} :: 0 <= v < |comp| && comp[v] >= 0 ==> mark[v] == comp[v])
    && (forall v {:trigger mark[v]} :: 0 <= v < |comp| && comp[v] < 0 && mark[v] >= 0 ==>
          mark[v] == count && IsCore(g, v) && Connected(Inside(g, Cores(g)), i, v))
  }

  lemma SpreadLabels(g: Graph, core: seq<bool>, comp: seq<int>, count: nat, i: nat, mark: seq<int>)
    requires |core| == |comp| == |g.nodes| && (forall v :: 0 <= v < |core| ==> (core[v] <==> IsCore(g, v)))
    requires i < |comp| && IsCore(g, i) && comp[i] < 0
    requires IsSpread(CoreNet(g, core), comp[i := count], [i], mark)
    ensures mark[i] == count && AddsComponent(g, comp, count, i, mark)
  {
    var net, mark0 := CoreNet(g, core), comp[i := count];
    assert [i][0] == i;
    forall v | 0 <= v < |comp| && comp[v] < 0 && mark[v] >= 0
      ensures mark[v] == count && IsCore(g, v) && Connected(Inside(g, Cores(g)), i, v)
    {
      if v == i {
        ConnectedSelf(Inside(g, Cores(g)), i);
      } else {
        assert IsReachable(net, mark0, [i], v);
        var walk :| WalkTo(net, mark0, [i], walk, v) && 0 <= walk[0] < |mark0| && mark0[walk[0]] == mark[v];
        NewComponentWalk(g, core, mark0, i, walk);
      }
    }
  }

  lemma SpreadIsClosed(g: Graph, core: seq<bool>, comp: seq<int>, count: nat, i: nat, mark: seq<int>, u: int, v: int)
    requires |core| == |comp| == |g.nodes| && (forall v :: 0 <= v < |core| ==> (core[v] <==> IsCore(g, v)))
    requires i < |comp| && IsSpread(CoreNet(g, core), comp[i := count], [i], mark) && mark[i] == count
    requires 0 <= u < |comp| && 0 <= v < |comp| && comp[u] < 0 && comp[v] < 0 && mark[u] >= 0
    requires IsCore(g, v) && v in g.Neighbours(u)
    ensures mark[v] >= 0
  {
    var net, mark0 := CoreNet(g, core), comp[i := count];
    if v != i {
      var walk := WalkToMarked(g, core, comp, count, i, mark, u);
      assert IsFresh(net, mark0, v) && Step(net, mark0, u, v);
      ExtendWalk(net, mark0, [i], walk, v);
      assert IsReachable(net, mark0, [i], v);
    }
  }

  lemma WalkToMarked(g: Graph, core: seq<bool>, comp: seq<int>, count: nat, i: nat, mark: seq<int>, u: int) returns (walk: seq<int>)
    requires |core| == |comp| == |g.nodes| && i < |comp|
    requires IsSpread(CoreNet(g, core), comp[i := count], [i], mark)
    requires 0 <= u < |comp| && comp[u] < 0 && mark[u] >= 0
    ensures WalkTo(CoreNet(g, core), comp[i := count], [i], walk, u)
  {
    var net, mark0 := CoreNet(g, core), comp[i := count];
    if u == i {
      walk := [i];
      assert [i][0] == i;
    } else {
      assert IsReachable(net, mark0, [i], u);
      walk :| WalkTo(net, mark0, [i], walk, u);
    }
  }

  lemma LabellingGrows(g: Graph, core: seq<bool>, comp: seq<int>, count: nat, i: nat, mark: seq<int>)
    requires g.IsMirrored() && |core| == |g.nodes| && (forall v :: 0 <= v < |core| ==> (core[v] <==> IsCore(g, v)))
    requires IsLabelling(g, comp, count, i) && i < |comp| && IsCore(g, i) && comp[i] < 0
    requires IsSpread(CoreNet(g, core), comp[i := count], [i], mark)
    ensures IsLabelling(g, mark, count + 1, i + 1)
  {
    SpreadLabels(g, core, comp, count, i, mark);
    forall u, v | IsCore(g, u) && IsCore(g, v) && v in g.Neighbours(u) && 0 <= u < |mark| && 0 <= v < |mark| && mark[u] >= 0
      ensures mark[v] == mark[u]
    {
      g.NeighboursSymmetric(u, v);
      if comp[u] < 0 {
        assert comp[v] < 0;
        SpreadIsClosed(g, core, comp, count, i, mark, u, v);
      }
    }
    forall u, v | 0 <= u < |mark| && 0 <= v < |mark| && mark[u] == mark[v] >= 0
      ensures Connected(Inside(g, Cores(g)), u, v)
    {
      EqualLabelsConnect(g, comp, count, i, mark, u, v);
    }
    forall c | 0 <= c < count + 1 ensures IsUsed(mark, c) {
      UsedLabels(g, comp, count, i, mark, c);
    }
  }

  lemma EqualLabelsConnect(g: Graph, comp: seq<int>, count: nat, i: nat, mark: seq<int>, u: int, v: int)
    requires IsLabelling(g, comp, count, i) && AddsComponent(g, comp, count, i, mark)
    requires 0 <= u < |mark| && 0 <= v < |mark| && mark[u] == mark[v] >= 0
    ensures Connected(Inside(g, Cores(g)), u, v)
  {
    var pairs := Inside(g, Cores(g));
    if comp[u] < 0 && comp[v] < 0 {
      ConnectedSym(pairs, i, u);
      ConnectedTrans(pairs, u, i, v);
    } else {
      assert comp[u] == comp[v];
    }
  }

  lemma UsedLabels(g: Graph, comp: seq<int>, count: nat, i: nat, mark: seq<int>, c: int)
    requires IsLabelling(g, comp, count, i) && AddsComponent(g, comp, count, i, mark) && mark[i] == count
    requires 0 <= c < count + 1
    ensures IsUsed(mark, c)
  {
    if c < count {
      assert IsUsed(comp, c);
      var k :| 0 <= k < |comp| && comp[k] == c;
      assert mark[k] == c;
    }
  }

  lemma StartLabelling(g: Graph, comp: seq<int>)
    requires |comp| == |g.nodes| && forall i :: 0 <= i < |comp| ==> comp[i] == -1
    ensures IsLabelling(g, comp, 0, 0)
  {
  }

  lemma LabellingSkips(g: Graph, comp: seq<int>, count: nat, i: nat)
    requires IsLabelling(g, comp, count, i) && i < |comp| && (IsCore(g, i) ==> comp[i] >= 0)
    ensures IsLabelling(g, comp, count, i + 1)
  {
  }

  method FindCores(g: Graph) returns (core: seq<bool>)
    ensures |core| == |g.nodes| && (forall v :: 0 <= v < |core| ==> (core[v] <==> IsCore(g, v)))
  {
    core := [];
    for i := 0 to |g.nodes|
      invariant |core| == i && forall v :: 0 <= v < i ==> (core[v] <==> IsCore(g, v))
    {
      var degree := CountPassableRegionNeighbors(g, i);
      core := core + [g.IsPassable(i) && 1 <= degree <= 2];
    }
  }

  // Each unlabelled core node starts a component.
  method LabelComponents(g: Graph, core: seq<bool>) returns (comp: seq<int>, count: nat)
    requires g.IsMirrored() && |core| == |g.nodes| && (forall v :: 0 <= v < |core| ==> (core[v] <==> IsCore(g, v)))
    ensures IsLabelling(g, comp, count, |g.nodes|)
  {
    comp, count := seq(|g.nodes|, _ => -1), 0;
    StartLabelling(g, comp);
    for i := 0 to |g.nodes|
      invariant IsLabelling(g, comp, count, i)
    {
      if core[i] && comp[i] < 0 {
        assert [i][0] == i;
        var mark := Spread(CoreNet(g, core), comp[i := count], [i]);
        LabellingGrows(g, core, comp, count, i, mark);
        comp, count := mark, count + 1;
      } else {
        LabellingSkips(g, comp, count, i);
      }
    }
  }

  // The passable nodes outside the cores that touch component c.
  ghost predicate IsConnector(g: Graph, comp: seq<int>, c: int, v: int) {
    g.IsPassable(v) && !IsCore(g, v) && exists u :: 0 <= u < |comp| && comp[u] == c && v in g.Neighbours(u)
  }

  // The nodes of each component, and the connectors of each, in order.
  ghost predicate AreParts(g: Graph, comp: seq<int>, cores: seq<seq<int>>, conns: seq<seq<int>>) {
    && |cores| == |conns|
    && (forall c, v {:trigger v in cores[c]} :: 0 <= c < |cores| ==> (v in cores[c] <==> 0 <= v < |comp| && comp[v] == c))
    && (forall c, v {:trigger v in conns[c]} :: 0 <= c < |conns| ==> (v in conns[c] <==> IsConnector(g, comp, c, v)))
  }

  method NodesOf(comp: seq<int>, c: int) returns (s: seq<int>)
    ensures forall v :: v in s <==> 0 <= v < |comp| && comp[v] == c
  {
    s := [];
    for i := 0 to |comp|
      invariant forall v :: v in s <==> 0 <= v < i && comp[v] == c
    {
      if comp[i] == c { s := s + [i]; }
    }
  }

  // A passable node outside the cores.
  predicate IsWide(g: Graph, v: int) { g.IsPassable(v) && !IsCore(g, v) }

  // The wide neighbours of one node, appended.
  method AddConnectors(g: Graph, core: seq<bool>, u: int, s0: seq<int>) returns (s: seq<int>)
    requires |core| == |g.nodes| && (forall v :: 0 <= v < |core| ==> (core[v] <==> IsCore(g, v)))
    ensures forall v :: v in s <==> v in s0 || (v in g.Neighbours(u) && IsWide(g, v))
  {
    s := s0;
    var next := g.Neighbours(u);
    for k := 0 to |next|
      invariant forall v :: v in s <==> v in s0 || (v in next[..k] && IsWide(g, v))
    {
      PrefixGrows(next, k);
      assert IsWide(g, next[k]) <==> g.IsPassable(next[k]) && !core[next[k]];
      if g.IsPassable(next[k]) && !core[next[k]] { s := s + [next[k]]; }
    }
    assert next[..|next|] == next;
  }

  method ConnectorsOf(g: Graph, core: seq<bool>, comp: seq<int>, c: int, nodes: seq<int>) returns (s: seq<int>)
    requires |core| == |comp| == |g.nodes| && (forall v :: 0 <= v < |core| ==> (core[v] <==> IsCore(g, v)))
    requires forall v :: v in nodes <==> 0 <= v < |comp| && comp[v] == c
    ensures forall v :: v in s <==> IsConnector(g, comp, c, v)
  {
    s := [];
    for k := 0 to |nodes|
      invariant forall v :: v in s <==> IsWide(g, v) && TouchesOneOf(g, nodes[..k], v)
    {
      ghost var before := s;
      s := AddConnectors(g, core, nodes[k], s);
      PrefixGrows(nodes, k);
      forall v ensures TouchesOneOf(g, nodes[..k + 1], v) <==> TouchesOneOf(g, nodes[..k], v) || v in g.Neighbours(nodes[k]) {
        TouchesNext(g, nodes[..k], nodes[k], v);
      }
    }
    assert nodes[..|nodes|] == nodes;
    s := SortUnique(s);
  }

  predicate TouchesOneOf(g: Graph, nodes: seq<int>, v: int) {
    exists u :: u in nodes && v in g.Neighbours(u)
  }

  lemma TouchesNext(g: Graph, nodes: seq<int>, u: int, v: int)
    ensures TouchesOneOf(g, nodes + [u], v) <==> TouchesOneOf(g, nodes, v) || v in g.Neighbours(u)
  {
    assert u in nodes + [u];
    if TouchesOneOf(g, nodes, v) {
      var x :| x in nodes && v in g.Neighbours(x);
      assert x in nodes + [u];
    }
  }

  method CollectParts(g: Graph, core: seq<bool>, comp: seq<int>, count: nat) returns (cores: seq<seq<int>>, conns: seq<seq<int>>)
    requires |core| == |comp| == |g.nodes| && (forall v :: 0 <= v < |core| ==> (core[v] <==> IsCore(g, v)))
    ensures AreParts(g, comp, cores, conns) && |cores| == count
  {
    cores, conns := [], [];
    for c := 0 to count
      invariant AreParts(g, comp, cores, conns) && |cores| == c
    {
      var nodes := NodesOf(comp, c);
      var s := ConnectorsOf(g, core, comp, c, nodes);
      cores, conns := cores + [nodes], conns + [s];
    }
  }

  predicate Share(conns: seq<seq<int>>, c: int, d: int) {
    0 <= c < |conns| && 0 <= d < |conns| && exists k :: k in conns[c] && k in conns[d]
  }

  // Every united pair shares a connector, and components that share one are united.
  ghost predicate AreUnited(conns: seq<seq<int>>, pairs: Pairs) {
    && (forall c, d :: (c, d) in pairs ==> Share(conns, c, d))
    && (forall c, d :: Share(conns, c, d) ==> Connected(pairs, c, d))
  }

  // While connectors are read: the first component of each one read is remembered, and every
  // later one is united with it.
  ghost predicate IsIndexed(conns: seq<seq<int>>, first: map<int, int>, pairs: Pairs, c: int, j: int) {
    && (forall a, b :: (a, b) in pairs ==> Share(conns, a, b))
    && (forall k :: k in first ==> 0 <= first[k] < |conns| && k in conns[first[k]])
    && (forall d, i {:trigger conns[d][i]} :: 0 <= d < |conns| && 0 <= i < |conns[d]| && (d < c || (d == c && i < j)) ==>
          conns[d][i] in first && Connected(pairs, d, first[conns[d][i]]))
  }

  lemma IndexedIsUnited(conns: seq<seq<int>>, first: map<int, int>, pairs: Pairs)
    requires IsIndexed(conns, first, pairs, |conns|, 0)
    ensures AreUnited(conns, pairs)
  {
    forall c, d | Share(conns, c, d) ensures Connected(pairs, c, d) {
      var k :| k in conns[c] && k in conns[d];
      var i :| 0 <= i < |conns[c]| && conns[c][i] == k;
      var j :| 0 <= j < |conns[d]| && conns[d][j] == k;
      assert conns[c][i] in first && conns[d][j] in first;
      ConnectedSym(pairs, d, first[k]);
      ConnectedTrans(pairs, c, first[k], d);
    }
  }

  lemma IndexNext(conns: seq<seq<int>>, first: map<int, int>, pairs: Pairs, c: int, j: int)
    requires IsIndexed(conns, first, pairs, c, j) && 0 <= c < |conns| && 0 <= j < |conns[c]|
    ensures conns[c][j] !in first ==> IsIndexed(conns, first[conns[c][j] := c], pairs, c, j + 1)
    ensures conns[c][j] in first ==> IsIndexed(conns, first, pairs + {(c, first[conns[c][j]])}, c, j + 1)
  {
    var k := conns[c][j];
    if k !in first {
      ConnectedSelf(pairs, c);
    } else {
      var more := pairs + {(c, first[k])};
      assert Share(conns, c, first[k]);
      assert Joined(more, c, first[k]);
      ConnectedJoined(more, c, first[k]);
      forall d, i | 0 <= d < |conns| && 0 <= i < |conns[d]| && (d < c || (d == c && i < j + 1))
        ensures conns[d][i] in first && Connected(more, d, first[conns[d][i]])
      {
        if d < c || i < j { ConnectedMore(pairs, more, d, first[conns[d][i]]); }
      }
    }
  }

  lemma IndexRow(conns: seq<seq<int>>, first: map<int, int>, pairs: Pairs, c: int)
    requires 0 <= c < |conns|
    ensures IsIndexed(conns, first, pairs, c, |conns[c]|) <==> IsIndexed(conns, first, pairs, c + 1, 0)
  {
  }

  // The set marks of the union-find over components.
  ghost function MarksOf(dsu: UnionFind): (r: seq<int>)
    reads dsu, dsu.parent, dsu.rank
    requires dsu.Valid()
    ensures |r| == dsu.parent.Length && forall i :: 0 <= i < |r| ==> r[i] == dsu.RootOf(i) && 0 <= r[i] < |r|
  {
    seq(dsu.parent.Length, i requires 0 <= i < dsu.parent.Length && dsu.Valid() reads dsu, dsu.parent, dsu.rank => dsu.RootOf(i))
  }

  method UniteTracked(dsu: UnionFind, a: int, b: int, ghost pairs: Pairs)
    requires dsu.Valid() && 0 <= a < dsu.parent.Length && 0 <= b < dsu.parent.Length
    requires Agrees(MarksOf(dsu), pairs)
    modifies dsu.parent, dsu.rank
    ensures dsu.Valid() && Agrees(MarksOf(dsu), pairs + {(a, b)})
  {
    ghost var marks := MarksOf(dsu);
    dsu.Unite(a, b);
    ghost var marks' := MarksOf(dsu);
    forall c, d | 0 <= c < |marks| && 0 <= d < |marks|
      ensures marks'[c] == marks'[d] <==>
        (marks[c] == marks[d]
        || (marks[c] == marks[a] && marks[b] == marks[d]) || (marks[c] == marks[b] && marks[a] == marks[d]))
    {
      assert dsu.Together(c, d) <==> old(dsu.Together(c, d)
        || (dsu.Together(c, a) && dsu.Together(b, d)) || (dsu.Together(c, b) && dsu.Together(a, d)));
    }
    MergeKeepsAgreement(marks, marks', pairs, a, b);
  }

  lemma FreshAgrees(marks: seq<int>)
    requires forall i :: 0 <= i < |marks| ==> marks[i] == i
    ensures Agrees(marks, {})
  {
    forall a, b | 0 <= a < |marks| && 0 <= b < |marks| && marks[a] == marks[b] ensures Connected({}, a, b) {
      ConnectedSelf({}, a);
    }
  }

  // Components that share a connector get the same root, and only chains of such do.
  method MergeComponents(conns: seq<seq<int>>) returns (roots: seq<int>, ghost pairs: Pairs)
    ensures |roots| == |conns| && AreUnited(conns, pairs) && Agrees(roots, pairs)
    ensures forall c :: 0 <= c < |roots| ==> 0 <= roots[c] < |roots|
  {
    var dsu := new UnionFind(|conns|);
    var first: map<int, int> := map[];
    pairs := {};
    FreshAgrees(MarksOf(dsu));
    for c := 0 to |conns|
      invariant fresh(dsu) && fresh(dsu.parent) && fresh(dsu.rank) && dsu.Valid() && dsu.parent.Length == |conns|
      invariant Agrees(MarksOf(dsu), pairs) && IsIndexed(conns, first, pairs, c, 0)
    {
      for j := 0 to |conns[c]|
        invariant fresh(dsu) && fresh(dsu.parent) && fresh(dsu.rank) && dsu.Valid() && dsu.parent.Length == |conns|
        invariant Agrees(MarksOf(dsu), pairs) && IsIndexed(conns, first, pairs, c, j)
      {
        var k := conns[c][j];
        IndexNext(conns, first, pairs, c, j);
        if k in first {
          UniteTracked(dsu, c, first[k], pairs);
          pairs := pairs + {(c, first[k])};
        } else {
          first := first[k := c];
        }
      }
      IndexRow(conns, first, pairs, c);
    }
    IndexedIsUnited(conns, first, pairs);
    roots := ReadRoots(dsu);
  }

  method ReadRoots(dsu: UnionFind) returns (roots: seq<int>)
    requires dsu.Valid()
    modifies dsu.parent, dsu.rank
    ensures roots == old(MarksOf(dsu))
  {
    ghost var marks := MarksOf(dsu);
    roots := [];
    for c := 0 to dsu.parent.Length
      invariant dsu.Valid() && MarksOf(dsu) == marks && roots == marks[..c]
    {
      var r := dsu.Find(c);
      assert MarksOf(dsu) == marks;
      roots := roots + [r];
    }
  }

  type Lists = seq<seq<int>>

  // Everything the components below n with root r bring along.
  function Raw(cores: Lists, conns: Lists, roots: seq<int>, r: int, n: nat): seq<int>
    requires |cores| == |conns| == |roots| && n <= |cores|
  {
    if n == 0 then []
    else Raw(cores, conns, roots, r, n - 1) + (if roots[n - 1] == r then cores[n - 1] + conns[n - 1] else [])
  }

  lemma {:induction false} InRaw(cores: Lists, conns: Lists, roots: seq<int>, r: int, n: nat, v: int)
    requires |cores| == |conns| == |roots| && n <= |cores|
    ensures v in Raw(cores, conns, roots, r, n) <==> exists c :: 0 <= c < n && roots[c] == r && (v in cores[c] || v in conns[c])
  {
    if n > 0 { InRaw(cores, conns, roots, r, n - 1, v); }
  }

  function Merged(cores: Lists, conns: Lists, roots: seq<int>, r: int): seq<int>
    requires |cores| == |conns| == |roots|
  {
    SortUnique(Raw(cores, conns, roots, r, |cores|))
  }

  predicate IsRoot(roots: seq<int>, r: int) { r in roots }

  // The groups are the merged lists of the roots below n that are large enough.
  ghost predicate AreGroups(cores: Lists, conns: Lists, roots: seq<int>, minNodes: int, n: int, groups: Lists)
    requires |cores| == |conns| == |roots|
  {
    && (forall r {:trigger IsRoot(roots, r)} :: IsRoot(roots, r) && r < n && |Merged(cores, conns, roots, r)| >= minNodes ==>
          Merged(cores, conns, roots, r) in groups)
    && (forall i {:trigger groups[i]} :: 0 <= i < |groups| ==> IsGroup(cores, conns, roots, minNodes, n, groups[i]))
    && ByFront(groups)
  }

  ghost predicate IsGroup(cores: Lists, conns: Lists, roots: seq<int>, minNodes: int, n: int, group: seq<int>)
    requires |cores| == |conns| == |roots|
  {
    |group| >= minNodes && exists r :: IsRoot(roots, r) && r < n && group == Merged(cores, conns, roots, r)
  }

  // In order of their first, least, nodes.
  predicate ByFront(groups: Lists) {
    && (forall i :: 0 <= i < |groups| ==> groups[i] != [])
    && (forall i, j :: 0 <= i < j < |groups| ==> groups[i][0] < groups[j][0])
  }

  function InsertGroup(group: seq<int>, groups: Lists): (r: Lists)
    requires ByFront(groups) && group != [] && forall i :: 0 <= i < |groups| ==> groups[i][0] != group[0]
    ensures ByFront(r) && forall x :: x in r <==> x == group || x in groups
  {
    if groups == [] then [group]
    else if group[0] < groups[0][0] then [group] + groups
    else
      var rest := InsertGroup(group, groups[1..]);
      assert forall x :: x in groups <==> x == groups[0] || x in groups[1..];
      assert forall k :: 0 <= k < |rest| ==> groups[0][0] < rest[k][0] by {
        assert forall k :: 0 <= k < |rest| ==> rest[k] in rest;
      }
      [groups[0]] + rest
  }

  // All the facts about components, connectors and roots that the grouping needs.
  ghost predicate IsMerging(g: Graph, comp: seq<int>, count: nat, cores: Lists, conns: Lists, roots: seq<int>, pairs: Pairs) {
    && IsLabelling(g, comp, count, |g.nodes|) && AreParts(g, comp, cores, conns) && |cores| == |roots| == count
    && AreUnited(conns, pairs) && Agrees(roots, pairs)
  }

  // A node belongs to one root only.
  lemma OneRootPerNode(g: Graph, comp: seq<int>, count: nat, cores: Lists, conns: Lists, roots: seq<int>, pairs: Pairs,
                       r: int, r': int, v: int)
    requires IsMerging(g, comp, count, cores, conns, roots, pairs)
    requires v in Merged(cores, conns, roots, r) && v in Merged(cores, conns, roots, r')
    ensures r == r'
  {
    InRaw(cores, conns, roots, r, count, v);
    InRaw(cores, conns, roots, r', count, v);
    var c :| 0 <= c < count && roots[c] == r && (v in cores[c] || v in conns[c]);
    var d :| 0 <= d < count && roots[d] == r' && (v in cores[d] || v in conns[d]);
    if v in cores[c] {
      assert v in cores[d] || IsConnector(g, comp, d, v);
      assert c == d;
    } else {
      assert IsConnector(g, comp, c, v);
      assert v in cores[d] ==> IsCore(g, v);
      assert Share(conns, c, d);
      MarksDecide(roots, pairs, c, d);
    }
  }

  lemma RootsAreNotEmpty(g: Graph, comp: seq<int>, count: nat, cores: Lists, conns: Lists, roots: seq<int>, pairs: Pairs, r: int)
    requires IsMerging(g, comp, count, cores, conns, roots, pairs) && IsRoot(roots, r)
    ensures Merged(cores, conns, roots, r) != []
  {
    var c :| 0 <= c < |roots| && roots[c] == r;
    assert IsUsed(comp, c);
    var v :| 0 <= v < |comp| && comp[v] == c;
    assert v in cores[c];
    InRaw(cores, conns, roots, r, count, v);
    assert v in Merged(cores, conns, roots, r);
  }

  // The merged list of one more root is in no group yet, so it can be inserted by its front.
  lemma InsertKeepsGroups(g: Graph, comp: seq<int>, count: nat, cores: Lists, conns: Lists, roots: seq<int>, pairs: Pairs,
                          minNodes: int, r: int, groups: Lists)
    requires IsMerging(g, comp, count, cores, conns, roots, pairs) && IsRoot(roots, r)
    requires AreGroups(cores, conns, roots, minNodes, r, groups) && |Merged(cores, conns, roots, r)| >= minNodes
    ensures var group := Merged(cores, conns, roots, r);
      && group != [] && (forall i :: 0 <= i < |groups| ==> groups[i][0] != group[0])
      && AreGroups(cores, conns, roots, minNodes, r + 1, InsertGroup(group, groups))
  {
    var group := Merged(cores, conns, roots, r);
    RootsAreNotEmpty(g, comp, count, cores, conns, roots, pairs, r);
    forall i | 0 <= i < |groups| ensures groups[i][0] != group[0] {
      assert IsGroup(cores, conns, roots, minNodes, r, groups[i]);
      var s :| IsRoot(roots, s) && s < r && groups[i] == Merged(cores, conns, roots, s);
      if groups[i][0] == group[0] {
        assert groups[i][0] in groups[i] && group[0] in group;
        OneRootPerNode(g, comp, count, cores, conns, roots, pairs, r, s, group[0]);
      }
    }
    var more := InsertGroup(group, groups);
    forall i | 0 <= i < |more| ensures IsGroup(cores, conns, roots, minNodes, r + 1, more[i]) {
      assert more[i] in more;
      if more[i] != group {
        var j :| 0 <= j < |groups| && groups[j] == more[i];
        assert IsGroup(cores, conns, roots, minNodes, r, groups[j]);
      }
    }
  }

  lemma SkipKeepsGroups(cores: Lists, conns: Lists, roots: seq<int>, minNodes: int, r: int, groups: Lists)
    requires |cores| == |conns| == |roots| && AreGroups(cores, conns, roots, minNodes, r, groups)
    requires IsRoot(roots, r) ==> |Merged(cores, conns, roots, r)| < minNodes
    ensures AreGroups(cores, conns, roots, minNodes, r + 1, groups)
  {
    forall i | 0 <= i < |groups| ensures IsGroup(cores, conns, roots, minNodes, r + 1, groups[i]) {
      assert IsGroup(cores, conns, roots, minNodes, r, groups[i]);
    }
  }

  // After the first c components each root met has its own list, and no other root has one.
  ghost predicate IsByRoot(cores: Lists, conns: Lists, roots: seq<int>, c: nat, byRoot: map<int, seq<int>>)
    requires |cores| == |conns| == |roots| && c <= |cores|
  {
    forall r :: HasRaw(cores, conns, roots, c, byRoot, r)
  }

  predicate HasRaw(cores: Lists, conns: Lists, roots: seq<int>, c: nat, byRoot: map<int, seq<int>>, r: int)
    requires |cores| == |conns| == |roots| && c <= |cores|
  {
    && (r in byRoot <==> IsRoot(roots[..c], r))
    && Raw(cores, conns, roots, r, c) == if r in byRoot then byRoot[r] else []
  }

  lemma ByRootNext(cores: Lists, conns: Lists, roots: seq<int>, c: nat, byRoot: map<int, seq<int>>)
    requires |cores| == |conns| == |roots| && c < |cores| && IsByRoot(cores, conns, roots, c, byRoot)
    ensures var r := roots[c];
      IsByRoot(cores, conns, roots, c + 1, byRoot[r := (if r in byRoot then byRoot[r] else []) + (cores[c] + conns[c])])
  {
    var next := byRoot[roots[c] := (if roots[c] in byRoot then byRoot[roots[c]] else []) + (cores[c] + conns[c])];
    var n := c + 1;
    PrefixGrows(roots, c);
    forall r ensures HasRaw(cores, conns, roots, n, next, r) {
      assert HasRaw(cores, conns, roots, c, byRoot, r);
      assert Raw(cores, conns, roots, r, c) + [] == Raw(cores, conns, roots, r, c);
    }
  }

  // `nodesByRoot`
  method NodesByRoot(cores: Lists, conns: Lists, roots: seq<int>) returns (byRoot: map<int, seq<int>>)
    requires |cores| == |conns| == |roots|
    ensures forall r :: (r in byRoot <==> IsRoot(roots, r)) && (r in byRoot ==> byRoot[r] == Raw(cores, conns, roots, r, |cores|))
  {
    byRoot := map[];
    for c := 0 to |cores|
      invariant IsByRoot(cores, conns, roots, c, byRoot)
    {
      ByRootNext(cores, conns, roots, c, byRoot);
      var merged := if roots[c] in byRoot then byRoot[roots[c]] else [];
      byRoot := byRoot[roots[c] := merged + (cores[c] + conns[c])];
    }
    assert roots[..|cores|] == roots;
    forall r ensures (r in byRoot <==> IsRoot(roots, r)) && (r in byRoot ==> byRoot[r] == Raw(cores, conns, roots, r, |cores|)) {
      assert HasRaw(cores, conns, roots, |cores|, byRoot, r);
    }
  }

  // Roots are component numbers, so they are met in the order 0, 1, ...; the result is sorted
  // by front in any case.
  method CollectGroups(g: Graph, ghost comp: seq<int>, ghost count: nat, cores: Lists, conns: Lists, roots: seq<int>,
                       ghost pairs: Pairs, minNodes: int) returns (groups: Lists)
    requires IsMerging(g, comp, count, cores, conns, roots, pairs)
    requires forall c :: 0 <= c < |roots| ==> 0 <= roots[c] < |roots|
    ensures AreGroups(cores, conns, roots, minNodes, |roots|, groups)
  {
    var byRoot := NodesByRoot(cores, conns, roots);
    groups := [];
    for r := 0 to |roots|
      invariant AreGroups(cores, conns, roots, minNodes, r, groups)
    {
      if r in byRoot && |SortUnique(byRoot[r])| >= minNodes {
        InsertKeepsGroups(g, comp, count, cores, conns, roots, pairs, minNodes, r, groups);
        groups := InsertGroup(SortUnique(byRoot[r]), groups);
      } else {
        SkipKeepsGroups(cores, conns, roots, minNodes, r, groups);
      }
    }
  }

  // Distinct groups have no node in common.
  lemma GroupsAreDisjoint(g: Graph, comp: seq<int>, count: nat, cores: Lists, conns: Lists, roots: seq<int>, pairs: Pairs,
                          minNodes: int, groups: Lists, i: nat, j: nat, v: int)
    requires IsMerging(g, comp, count, cores, conns, roots, pairs)
    requires AreGroups(cores, conns, roots, minNodes, count, groups) && i < |groups| && j < |groups|
    requires v in groups[i] && v in groups[j]
    ensures i == j
  {
    assert IsGroup(cores, conns, roots, minNodes, count, groups[i]) && IsGroup(cores, conns, roots, minNodes, count, groups[j]);
    var r :| IsRoot(roots, r) && groups[i] == Merged(cores, conns, roots, r);
    var s :| IsRoot(roots, s) && groups[j] == Merged(cores, conns, roots, s);
    OneRootPerNode(g, comp, count, cores, conns, roots, pairs, r, s, v);
    assert groups[i][0] == groups[j][0];
  }

  ghost function NodesIn(group: seq<int>): set<int> { set v | v in group }

  // A chain of core nodes stays in its component.
  lemma {:induction false} ChainKeepsComponent(g: Graph, comp: seq<int>, count: nat, path: seq<int>)
    requires IsLabelling(g, comp, count, |g.nodes|) && g.IsMirrored()
    requires IsChain(Inside(g, Cores(g)), path) && 0 <= path[0] < |comp| && comp[path[0]] >= 0
    ensures forall k {:trigger path[k]} :: 0 <= k < |path| ==> 0 <= path[k] < |comp| && comp[path[k]] == comp[path[0]]
  {
    if |path| > 1 {
      assert Joined(Inside(g, Cores(g)), path[0], path[0 + 1]);
      g.NeighboursSymmetric(path[0], path[1]);
      var rest := path[1..];
      forall i | 0 <= i < |rest| - 1 ensures Joined(Inside(g, Cores(g)), rest[i], rest[i + 1]) {
        assert Joined(Inside(g, Cores(g)), path[i + 1], path[i + 1 + 1]);
      }
      ChainKeepsComponent(g, comp, count, rest);
      forall k | 0 <= k < |path| ensures 0 <= path[k] < |comp| && comp[path[k]] == comp[path[0]] {
        if k > 0 { assert path[k] == rest[k - 1]; }
      }
    }
  }

  // Two nodes of one component are connected inside any set that holds the component.
  lemma ComponentIsConnected(g: Graph, comp: seq<int>, count: nat, s: set<int>, c: int, u: int, v: int)
    requires IsLabelling(g, comp, count, |g.nodes|) && g.IsMirrored()
    requires 0 <= u < |comp| && 0 <= v < |comp| && comp[u] == comp[v] == c >= 0
    requires forall x :: 0 <= x < |comp| && comp[x] == c ==> x in s
    ensures Connected(Inside(g, s), u, v)
  {
    var path :| Links(Inside(g, Cores(g)), path, u, v);
    ChainKeepsComponent(g, comp, count, path);
    forall i | 0 <= i < |path| - 1 ensures Joined(Inside(g, s), path[i], path[i + 1]) {
      assert Joined(Inside(g, Cores(g)), path[i], path[i + 1]);
    }
    assert Links(Inside(g, s), path, u, v);
  }

  // A connector is connected to its component's nodes.
  lemma ConnectorIsConnected(g: Graph, comp: seq<int>, count: nat, s: set<int>, c: int, k: int, u: int)
    requires IsLabelling(g, comp, count, |g.nodes|) && g.IsMirrored()
    requires IsConnector(g, comp, c, k) && k in s && 0 <= u < |comp| && comp[u] == c >= 0
    requires forall x :: 0 <= x < |comp| && comp[x] == c ==> x in s
    ensures Connected(Inside(g, s), k, u)
  {
    var x :| 0 <= x < |comp| && comp[x] == c && k in g.Neighbours(x);
    assert Joined(Inside(g, s), k, x);
    ConnectedJoined(Inside(g, s), k, x);
    ComponentIsConnected(g, comp, count, s, c, x, u);
    ConnectedTrans(Inside(g, s), k, x, u);
  }

  // The set holds everything the components with root r bring along.
  ghost predicate Holds(cores: Lists, conns: Lists, roots: seq<int>, r: int, s: set<int>)
    requires |cores| == |conns| == |roots|
  {
    forall c {:trigger roots[c]} :: 0 <= c < |roots| && roots[c] == r ==>
      (forall v :: v in cores[c] ==> v in s) && (forall v :: v in conns[c] ==> v in s)
  }

  // Nodes of two components that a chain of shared connectors joins are connected.
  lemma {:induction false} ChainOfComponents(g: Graph, comp: seq<int>, count: nat, cores: Lists, conns: Lists,
                                             roots: seq<int>, pairs: Pairs, s: set<int>, r: int, path: seq<int>, u: int, v: int)
    requires IsMerging(g, comp, count, cores, conns, roots, pairs) && g.IsMirrored() && Holds(cores, conns, roots, r, s)
    requires IsChain(pairs, path) && 0 <= path[0] < |roots| && roots[path[0]] == r
    requires u in cores[path[0]] && 0 <= path[|path| - 1] < |cores| && v in cores[path[|path| - 1]]
    ensures Connected(Inside(g, s), u, v)
    decreases |path|
  {
    var c := path[0];
    if |path| == 1 {
      ComponentIsConnected(g, comp, count, s, c, u, v);
    } else {
      var d, rest := path[1], path[1..];
      assert Joined(pairs, path[0], path[0 + 1]);
      assert Share(conns, c, d) || Share(conns, d, c);
      forall i | 0 <= i < |rest| - 1 ensures Joined(pairs, rest[i], rest[i + 1]) {
        assert Joined(pairs, path[i + 1], path[i + 1 + 1]);
      }
      assert roots[d] == roots[c];
      var k :| k in conns[c] && k in conns[d];
      assert IsUsed(comp, d);
      var w :| 0 <= w < |comp| && comp[w] == d;
      assert w in cores[d];
      assert IsConnector(g, comp, c, k) && IsConnector(g, comp, d, k);
      ConnectorIsConnected(g, comp, count, s, c, k, u);
      ConnectorIsConnected(g, comp, count, s, d, k, w);
      ChainOfComponents(g, comp, count, cores, conns, roots, pairs, s, r, rest, w, v);
      ConnectedSym(Inside(g, s), k, u);
      ConnectedTrans(Inside(g, s), u, k, w);
      ConnectedTrans(Inside(g, s), u, w, v);
    }
  }

  lemma HoldsOwnNodes(cores: Lists, conns: Lists, roots: seq<int>, r: int)
    requires |cores| == |conns| == |roots|
    ensures Holds(cores, conns, roots, r, NodesIn(Merged(cores, conns, roots, r)))
  {
    forall c, v | 0 <= c < |roots| && roots[c] == r && (v in cores[c] || v in conns[c])
      ensures v in Merged(cores, conns, roots, r)
    {
      InRaw(cores, conns, roots, r, |cores|, v);
    }
  }

  // Every node of a group is connected to a core node of one of its components.
  lemma Anchor(g: Graph, comp: seq<int>, count: nat, cores: Lists, conns: Lists, roots: seq<int>, pairs: Pairs, r: int, u: int)
      returns (c: int, x: int)
    requires IsMerging(g, comp, count, cores, conns, roots, pairs) && g.IsMirrored()
    requires u in Merged(cores, conns, roots, r)
    ensures 0 <= c < |roots| && roots[c] == r && x in cores[c]
    ensures Connected(Inside(g, NodesIn(Merged(cores, conns, roots, r))), u, x)
  {
    var s := NodesIn(Merged(cores, conns, roots, r));
    HoldsOwnNodes(cores, conns, roots, r);
    InRaw(cores, conns, roots, r, count, u);
    c :| 0 <= c < count && roots[c] == r && (u in cores[c] || u in conns[c]);
    if u in cores[c] {
      x := u;
      ConnectedSelf(Inside(g, s), u);
    } else {
      assert IsUsed(comp, c);
      x :| 0 <= x < |comp| && comp[x] == c;
      assert x in cores[c] && IsConnector(g, comp, c, u);
      ConnectorIsConnected(g, comp, count, s, c, u, x);
    }
  }

  // A group is connected within itself.
  lemma GroupIsConnected(g: Graph, comp: seq<int>, count: nat, cores: Lists, conns: Lists, roots: seq<int>, pairs: Pairs,
                         r: int, u: int, v: int)
    requires IsMerging(g, comp, count, cores, conns, roots, pairs) && g.IsMirrored()
    requires u in Merged(cores, conns, roots, r) && v in Merged(cores, conns, roots, r)
    ensures Connected(Inside(g, NodesIn(Merged(cores, conns, roots, r))), u, v)
  {
    var s := NodesIn(Merged(cores, conns, roots, r));
    var inside := Inside(g, s);
    HoldsOwnNodes(cores, conns, roots, r);
    var c, x := Anchor(g, comp, count, cores, conns, roots, pairs, r, u);
    var d, y := Anchor(g, comp, count, cores, conns, roots, pairs, r, v);
    MarksDecide(roots, pairs, c, d);
    var path :| Links(pairs, path, c, d);
    ChainOfComponents(g, comp, count, cores, conns, roots, pairs, s, r, path, x, y);
    ConnectedSym(inside, v, y);
    ConnectedTrans(inside, u, x, y);
    ConnectedTrans(inside, u, y, v);
  }

  lemma MergedIsPassable(g: Graph, comp: seq<int>, count: nat, cores: Lists, conns: Lists, roots: seq<int>, pairs: Pairs,
                         r: int, v: int)
    requires IsMerging(g, comp, count, cores, conns, roots, pairs) && v in Merged(cores, conns, roots, r)
    ensures g.IsPassable(v)
  {
    InRaw(cores, conns, roots, r, count, v);
    var c :| 0 <= c < count && roots[c] == r && (v in cores[c] || v in conns[c]);
    assert v in conns[c] ==> IsConnector(g, comp, c, v);
  }

  // How the groups came about.
  datatype Merging = Merging(comp: seq<int>, count: nat, cores: Lists, conns: Lists, roots: seq<int>, pairs: Pairs)

  ghost predicate AreMergedGroups(g: Graph, minNodes: int, m: Merging, groups: Lists) {
    && IsMerging(g, m.comp, m.count, m.cores, m.conns, m.roots, m.pairs)
    && AreGroups(m.cores, m.conns, m.roots, minNodes, m.count, groups)
    && forall c :: 0 <= c < |m.roots| ==> 0 <= m.roots[c] < m.count
  }

  // Disjoint, each ordered, passable, large enough and connected within itself.
  ghost predicate AreBridgeGroups(g: Graph, minNodes: int, groups: Lists) {
    && ByFront(groups)
    && (forall i, j, v {:trigger v in groups[i], v in groups[j]} ::
          0 <= i < |groups| && 0 <= j < |groups| && v in groups[i] && v in groups[j] ==> i == j)
    && (forall i {:trigger groups[i]} :: 0 <= i < |groups| ==> IsBridgeGroup(g, minNodes, groups[i]))
  }

  ghost predicate IsBridgeGroup(g: Graph, minNodes: int, group: seq<int>) {
    && StrictlyAscending(group) && |group| >= minNodes && (forall v :: v in group ==> g.IsPassable(v))
    && forall u, v :: u in group && v in group ==> Connected(Inside(g, NodesIn(group)), u, v)
  }

  lemma MergedGroupsAreBridgeGroups(g: Graph, minNodes: int, m: Merging, groups: Lists)
    requires AreMergedGroups(g, minNodes, m, groups) && g.IsMirrored()
    ensures AreBridgeGroups(g, minNodes, groups)
  {
    forall i, j, v | 0 <= i < |groups| && 0 <= j < |groups| && v in groups[i] && v in groups[j] ensures i == j {
      GroupsAreDisjoint(g, m.comp, m.count, m.cores, m.conns, m.roots, m.pairs, minNodes, groups, i, j, v);
    }
    forall i | 0 <= i < |groups| ensures IsBridgeGroup(g, minNodes, groups[i]) {
      assert IsGroup(m.cores, m.conns, m.roots, minNodes, m.count, groups[i]);
      var r :| IsRoot(m.roots, r) && groups[i] == Merged(m.cores, m.conns, m.roots, r);
      forall v | v in groups[i] ensures g.IsPassable(v) {
        MergedIsPassable(g, m.comp, m.count, m.cores, m.conns, m.roots, m.pairs, r, v);
      }
      forall u, v | u in groups[i] && v in groups[i] ensures Connected(Inside(g, NodesIn(groups[i])), u, v) {
        GroupIsConnected(g, m.comp, m.count, m.cores, m.conns, m.roots, m.pairs, r, u, v);
      }
    }
  }

  method CollectBridgeRegionGroups(g: Graph, minNodes: int) returns (groups: Lists, ghost m: Merging)
    requires g.IsMirrored()
    ensures AreMergedGroups(g, minNodes, m, groups)
    ensures AreBridgeGroups(g, minNodes, groups)
  {
    var core := FindCores(g);
    var comp, count := LabelComponents(g, core);
    var cores, conns := CollectParts(g, core, comp, count);
    var roots;
    ghost var pairs;
    roots, pairs := MergeComponents(conns);
    m := Merging(comp, count, cores, conns, roots, pairs);
    groups := CollectGroups(g, comp, count, cores, conns, roots, pairs, minNodes);
    MergedGroupsAreBridgeGroups(g, minNodes, m, groups);
  }
}
