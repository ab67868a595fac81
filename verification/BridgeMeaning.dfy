// Which groups the bridge regions are, said on the graph alone: the connected parts that narrow
// nodes and their passable neighbours form, as far as they are large enough.
module BridgeMeaning {
  import opened Util
  import opened Connectivity
  import opened RegionGraph
  import opened BridgeGroups

  // The links of the bridges: from a core node to a passable neighbour.
  ghost function Spine(g: Graph): Pairs {
    set a, b | 0 <= a < |g.nodes| && 0 <= b < |g.nodes| && IsCore(g, a) && g.IsPassable(b) && b in g.Neighbours(a) :: (a, b)
  }

  // The ascending list of everything connected to some core node along these links.
  ghost predicate IsBridgeComponent(g: Graph, group: seq<int>) {
    StrictlyAscending(group) && exists u :: IsCore(g, u) && IsReachOf(g, u, group)
  }

  ghost predicate IsReachOf(g: Graph, u: int, group: seq<int>) {
    forall v :: v in group <==> Connected(Spine(g), u, v)
  }

  lemma CoresAreLinked(g: Graph, comp: seq<int>, count: nat, u: int, v: int)
    requires IsLabelling(g, comp, count, |g.nodes|) && 0 <= u < |comp| && 0 <= v < |comp| && comp[u] == comp[v] >= 0
    ensures Connected(Spine(g), u, v)
  {
    var path :| Links(Inside(g, Cores(g)), path, u, v);
    forall i | 0 <= i < |path| - 1 ensures Joined(Spine(g), path[i], path[i + 1]) {
      assert Joined(Inside(g, Cores(g)), path[i], path[i + 1]);
    }
    assert Links(Spine(g), path, u, v);
  }

  lemma ConnectorIsLinked(g: Graph, comp: seq<int>, count: nat, c: int, k: int, u: int)
    requires IsLabelling(g, comp, count, |g.nodes|) && IsConnector(g, comp, c, k)
    requires 0 <= u < |comp| && comp[u] == c >= 0
    ensures Connected(Spine(g), k, u)
  {
    var x :| 0 <= x < |comp| && comp[x] == c && k in g.Neighbours(x);
    assert Joined(Spine(g), k, x);
    ConnectedJoined(Spine(g), k, x);
    CoresAreLinked(g, comp, count, x, u);
    ConnectedTrans(Spine(g), k, x, u);
  }

  ghost predicate IsMergingOf(g: Graph, m: Merging) {
    IsMerging(g, m.comp, m.count, m.cores, m.conns, m.roots, m.pairs)
  }

  lemma CoreNodeOf(g: Graph, m: Merging, c: int) returns (x: int)
    requires IsMergingOf(g, m) && 0 <= c < m.count
    ensures x in m.cores[c] && 0 <= x < |m.comp| && m.comp[x] == c && IsCore(g, x)
  {
    assert IsUsed(m.comp, c);
    x :| 0 <= x < |m.comp| && m.comp[x] == c;
    assert x in m.cores[c];
  }

  // Two components that share a connector are linked.
  lemma SharingIsLinked(g: Graph, m: Merging, c: int, d: int, u: int, v: int)
    requires IsMergingOf(g, m) && Share(m.conns, c, d) && u in m.cores[c] && v in m.cores[d]
    ensures Connected(Spine(g), u, v)
  {
    var k :| k in m.conns[c] && k in m.conns[d];
    assert IsConnector(g, m.comp, c, k) && IsConnector(g, m.comp, d, k);
    ConnectorIsLinked(g, m.comp, m.count, c, k, u);
    ConnectorIsLinked(g, m.comp, m.count, d, k, v);
    ConnectedSym(Spine(g), k, u);
    ConnectedTrans(Spine(g), u, k, v);
  }

  lemma {:induction false} ChainIsLinked(g: Graph, m: Merging, path: seq<int>, u: int, v: int)
    requires IsMergingOf(g, m) && IsChain(m.pairs, path)
    requires 0 <= path[0] < m.count && u in m.cores[path[0]]
    requires 0 <= path[|path| - 1] < m.count && v in m.cores[path[|path| - 1]]
    ensures Connected(Spine(g), u, v)
    decreases |path|
  {
    var c := path[0];
    if |path| == 1 {
      CoresAreLinked(g, m.comp, m.count, u, v);
    } else {
      var d, rest := path[1], path[1..];
      assert Joined(m.pairs, path[0], path[0 + 1]);
      assert Share(m.conns, c, d) || Share(m.conns, d, c);
      forall i | 0 <= i < |rest| - 1 ensures Joined(m.pairs, rest[i], rest[i + 1]) {
        assert Joined(m.pairs, path[i + 1], path[i + 1 + 1]);
      }
      var w := CoreNodeOf(g, m, d);
      SharingIsLinked(g, m, c, d, u, w);
      ChainIsLinked(g, m, rest, w, v);
      ConnectedTrans(Spine(g), u, w, v);
    }
  }

  // Every node of a merged list is linked to a core node of one of its components.
  lemma AnchorIsLinked(g: Graph, m: Merging, r: int, v: int) returns (c: int, x: int)
    requires IsMergingOf(g, m) && v in Merged(m.cores, m.conns, m.roots, r)
    ensures 0 <= c < m.count && m.roots[c] == r && x in m.cores[c] && Connected(Spine(g), v, x)
  {
    InRaw(m.cores, m.conns, m.roots, r, m.count, v);
    c :| 0 <= c < m.count && m.roots[c] == r && (v in m.cores[c] || v in m.conns[c]);
    if v in m.cores[c] {
      x := v;
      ConnectedSelf(Spine(g), v);
    } else {
      x := CoreNodeOf(g, m, c);
      assert IsConnector(g, m.comp, c, v);
      ConnectorIsLinked(g, m.comp, m.count, c, v, x);
    }
  }

  lemma MergedIsLinked(g: Graph, m: Merging, r: int, u: int, v: int)
    requires IsMergingOf(g, m) && u in Merged(m.cores, m.conns, m.roots, r) && v in Merged(m.cores, m.conns, m.roots, r)
    ensures Connected(Spine(g), u, v)
  {
    var c, x := AnchorIsLinked(g, m, r, u);
    var d, y := AnchorIsLinked(g, m, r, v);
    MarksDecide(m.roots, m.pairs, c, d);
    var path :| Links(m.pairs, path, c, d);
    ChainIsLinked(g, m, path, x, y);
    ConnectedSym(Spine(g), v, y);
    ConnectedTrans(Spine(g), u, x, y);
    ConnectedTrans(Spine(g), u, y, v);
  }

  // A link from a node of a merged list leads to a node of that list.
  lemma CoreLinkStays(g: Graph, m: Merging, r: int, a: int, b: int)
    requires IsMergingOf(g, m) && (a, b) in Spine(g) && a in Merged(m.cores, m.conns, m.roots, r)
    ensures b in Merged(m.cores, m.conns, m.roots, r)
  {
    var c := m.comp[a];
    CoreIsInItsRoot(g, m, a);
    OneRootPerNode(g, m.comp, m.count, m.cores, m.conns, m.roots, m.pairs, r, m.roots[c], a);
    if IsCore(g, b) {
      assert b in m.cores[c];
    } else {
      assert IsConnector(g, m.comp, c, b);
      assert b in m.conns[c];
    }
    InRaw(m.cores, m.conns, m.roots, r, m.count, b);
  }

  lemma CoreIsInItsRoot(g: Graph, m: Merging, a: int)
    requires IsMergingOf(g, m) && IsCore(g, a)
    ensures 0 <= a < |m.comp| && 0 <= m.comp[a] < m.count && a in m.cores[m.comp[a]]
    ensures a in Merged(m.cores, m.conns, m.roots, m.roots[m.comp[a]])
  {
    assert m.comp[a] >= 0;
    assert a in m.cores[m.comp[a]];
    InRaw(m.cores, m.conns, m.roots, m.roots[m.comp[a]], m.count, a);
  }

  lemma OtherLinkStays(g: Graph, m: Merging, r: int, a: int, b: int)
    requires IsMergingOf(g, m) && (b, a) in Spine(g) && a in Merged(m.cores, m.conns, m.roots, r)
    ensures b in Merged(m.cores, m.conns, m.roots, r)
  {
    CoreIsInItsRoot(g, m, b);
    var s := m.roots[m.comp[b]];
    CoreLinkStays(g, m, s, b, a);
    OneRootPerNode(g, m.comp, m.count, m.cores, m.conns, m.roots, m.pairs, r, s, a);
  }

  lemma {:induction false} ChainStays(g: Graph, m: Merging, r: int, path: seq<int>)
    requires IsMergingOf(g, m) && IsChain(Spine(g), path) && path[0] in Merged(m.cores, m.conns, m.roots, r)
    ensures path[|path| - 1] in Merged(m.cores, m.conns, m.roots, r)
    decreases |path|
  {
    if |path| > 1 {
      assert Joined(Spine(g), path[0], path[0 + 1]);
      if (path[0], path[1]) in Spine(g) {
        CoreLinkStays(g, m, r, path[0], path[1]);
      } else {
        OtherLinkStays(g, m, r, path[0], path[1]);
      }
      var rest := path[1..];
      forall i | 0 <= i < |rest| - 1 ensures Joined(Spine(g), rest[i], rest[i + 1]) {
        assert Joined(Spine(g), path[i + 1], path[i + 1 + 1]);
      }
      ChainStays(g, m, r, rest);
    }
  }

  // A merged list is everything linked to any one of its nodes.
  lemma MergedIsReach(g: Graph, m: Merging, r: int, u: int)
    requires IsMergingOf(g, m) && u in Merged(m.cores, m.conns, m.roots, r)
    ensures IsReachOf(g, u, Merged(m.cores, m.conns, m.roots, r))
  {
    var group := Merged(m.cores, m.conns, m.roots, r);
    forall v ensures v in group <==> Connected(Spine(g), u, v) {
      if v in group {
        MergedIsLinked(g, m, r, u, v);
      }
      if Connected(Spine(g), u, v) {
        var path :| Links(Spine(g), path, u, v);
        ChainStays(g, m, r, path);
      }
    }
  }

  // The groups are exactly the large enough connected parts.
  lemma GroupsExactly(g: Graph, minNodes: int, m: Merging, groups: Lists, group: seq<int>)
    requires AreMergedGroups(g, minNodes, m, groups)
    ensures group in groups <==> IsBridgeComponent(g, group) && |group| >= minNodes
  {
    if group in groups {
      var i :| 0 <= i < |groups| && groups[i] == group;
      assert IsGroup(m.cores, m.conns, m.roots, minNodes, m.count, groups[i]);
      var r :| IsRoot(m.roots, r) && group == Merged(m.cores, m.conns, m.roots, r);
      var c :| 0 <= c < |m.roots| && m.roots[c] == r;
      var u := CoreNodeOf(g, m, c);
      CoreIsInItsRoot(g, m, u);
      MergedIsReach(g, m, r, u);
    }
    if IsBridgeComponent(g, group) && |group| >= minNodes {
      var u :| IsCore(g, u) && IsReachOf(g, u, group);
      CoreIsInItsRoot(g, m, u);
      var r := m.roots[m.comp[u]];
      MergedIsReach(g, m, r, u);
      AscendingUnique(group, Merged(m.cores, m.conns, m.roots, r));
      assert IsRoot(m.roots, r);
    }
  }
}
