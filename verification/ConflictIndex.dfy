// The distance-conflict index of `NodeReservationTable`: which node ids exclude each other,
// found by hashing nodes into cells and looking at nine cells around each.
module SpatialHash {
  import opened Util

  // Nodes by position, with the nearness test and the cell keys left open: key(i, dx, dy)
  // is the key of the cell dx, dy away from node i's own. Distinct cells may share a key.
  datatype Field = Field(ids: seq<int>, nearTest: (int, int) -> bool, keyTable: (int, int, int) -> int)
  {
    predicate Has(i: int) { 0 <= i < |ids| }

    predicate Near(i: int, k: int) { nearTest(i, k) }

    function Key(i: int, dx: int, dy: int): int { keyTable(i, dx, dy) }

    // Near nodes lie in the same or a neighbouring cell.
    ghost predicate Valid() {
      && (forall i :: Has(i) ==> Near(i, i))
      && (forall i, k :: Has(i) && Has(k) && Near(i, k) ==> InNineCells(i, k))
    }

    ghost predicate InNineCells(i: int, k: int) {
      exists dx, dy :: -1 <= dx <= 1 && -1 <= dy <= 1 && Key(k, 0, 0) == Key(i, dx, dy)
    }
  }

  type Index = map<int, seq<int>>

  // The reference definition: the ids of all near nodes, in order.
  ghost predicate IsNeighbourhood(f: Field, i: int, ids: seq<int>) {
    && StrictlyAscending(ids)
    && forall y :: y in ids <==> HasNear(f, i, y)
  }

  ghost predicate HasNear(f: Field, i: int, id: int) {
    id >= 0 && exists k :: f.Has(k) && f.ids[k] == id && f.Near(i, k)
  }

  // The node whose list an id ends up with.
  ghost predicate LastOf(f: Field, i: int) {
    f.Has(i) && f.ids[i] >= 0 && forall k :: i < k < |f.ids| ==> f.ids[k] != f.ids[i]
  }

  ghost predicate IsIndex(f: Field, index: Index) {
    && (forall id :: id in index ==> id >= 0 && exists i :: LastOf(f, i) && f.ids[i] == id)
    && (forall i :: LastOf(f, i) ==> f.ids[i] in index && IsNeighbourhood(f, i, index[f.ids[i]]))
  }

  // Where the last carrier of one id has another id near, that one's last carrier has the
  // first id near.
  ghost predicate MutualNeighbours(f: Field) {
    forall i, k :: LastOf(f, i) && LastOf(f, k) && HasNear(f, i, f.ids[k]) ==> HasNear(f, k, f.ids[i])
  }

  type Grid = map<int, seq<int>>

  // The cells hold exactly the first n nodes that have an id, each under its own key.
  ghost predicate IsGrid(f: Field, n: int, grid: Grid) {
    && (forall k :: f.Has(k) && k < n && f.ids[k] >= 0 ==> InCell(grid, f.Key(k, 0, 0), k))
    && (forall key, k :: InCell(grid, key, k) ==> f.Has(k) && k < n && f.ids[k] >= 0)
  }

  ghost predicate InCell(grid: Grid, key: int, k: int) { key in grid && k in grid[key] }

  method BuildGrid(f: Field) returns (grid: Grid)
    ensures IsGrid(f, |f.ids|, grid)
  {
    grid := map[];
    for i := 0 to |f.ids|
      invariant IsGrid(f, i, grid)
    {
      if f.ids[i] >= 0 {
        var key := f.Key(i, 0, 0);
        ghost var before := grid;
        grid := grid[key := (if key in grid then grid[key] else []) + [i]];
        assert forall c, k :: InCell(grid, c, k) <==> InCell(before, c, k) || (c == key && k == i);
      }
    }
  }

  // What scanning some cells contributes for node i: only near nodes, and all near nodes
  // whose key was scanned.
  ghost predicate Scanned(f: Field, i: int, keys: set<int>, near: seq<int>) {
    && (forall y :: y in near ==> HasNear(f, i, y))
    && (forall k :: f.Has(k) && f.ids[k] >= 0 && f.Near(i, k) && f.Key(k, 0, 0) in keys ==> f.ids[k] in near)
  }

  method ScanCell(f: Field, grid: Grid, i: int, key: int, ghost keys: set<int>, near0: seq<int>)
      returns (near: seq<int>)
    requires f.Has(i) && f.ids[i] >= 0
    requires IsGrid(f, |f.ids|, grid)
    requires f.ids[i] in near0 && Scanned(f, i, keys, near0)
    ensures f.ids[i] in near && Scanned(f, i, keys + {key}, near)
  {
    near := near0;
    if key !in grid {
      assert forall k :: f.Has(k) && f.ids[k] >= 0 && f.Key(k, 0, 0) == key ==> InCell(grid, key, k);
      return;
    }
    var cell := grid[key];
    for j := 0 to |cell|
      invariant f.ids[i] in near && Scanned(f, i, keys, near)
      invariant forall t :: 0 <= t < j && f.Has(cell[t]) && f.Near(i, cell[t]) ==> f.ids[cell[t]] in near
    {
      var k := cell[j];
      assert InCell(grid, key, k);
      if k != i && f.Near(i, k) {
        assert HasNear(f, i, f.ids[k]);
        near := near + [f.ids[k]];
      }
    }
    forall k | f.Has(k) && f.ids[k] >= 0 && f.Near(i, k) && f.Key(k, 0, 0) == key ensures f.ids[k] in near {
      assert InCell(grid, key, k);
    }
  }

  method NeighbourhoodOf(f: Field, grid: Grid, i: int) returns (ids: seq<int>)
    requires f.Valid() && f.Has(i) && f.ids[i] >= 0
    requires IsGrid(f, |f.ids|, grid)
    ensures IsNeighbourhood(f, i, ids)
  {
    var near := [f.ids[i]];
    ghost var keys: set<int> := {};
    for dx := -1 to 2
      invariant f.ids[i] in near && Scanned(f, i, keys, near)
      invariant forall a, b :: -1 <= a < dx && -1 <= b <= 1 ==> f.Key(i, a, b) in keys
    {
      for dy := -1 to 2
        invariant f.ids[i] in near && Scanned(f, i, keys, near)
        invariant forall a, b :: -1 <= a < dx && -1 <= b <= 1 ==> f.Key(i, a, b) in keys
        invariant forall b :: -1 <= b < dy ==> f.Key(i, dx, b) in keys
      {
        var key := f.Key(i, dx, dy);
        near := ScanCell(f, grid, i, key, keys, near);
        keys := keys + {key};
      }
    }
    ids := SortUnique(near);
    AllNearScanned(f, i, keys, near);
  }

  lemma AllNearScanned(f: Field, i: int, keys: set<int>, near: seq<int>)
    requires f.Valid() && f.Has(i) && Scanned(f, i, keys, near)
    requires forall a, b :: -1 <= a <= 1 && -1 <= b <= 1 ==> f.Key(i, a, b) in keys
    ensures forall y :: y in near <==> HasNear(f, i, y)
  {
    forall y | HasNear(f, i, y) ensures y in near {
      var k :| f.Has(k) && f.ids[k] == y && f.Near(i, k);
      assert f.InNineCells(i, k);
    }
  }

  // Among the first n nodes the i-th is the last of its id.
  ghost predicate LastUpTo(f: Field, n: int, i: int) {
    0 <= i < n <= |f.ids| && f.ids[i] >= 0 && forall k :: i < k < n ==> f.ids[k] != f.ids[i]
  }

  // The index while the first n nodes have been written.
  ghost predicate IsIndexUpTo(f: Field, n: int, index: Index)
    requires 0 <= n <= |f.ids|
  {
    && (forall id :: id in index ==> id >= 0 && exists i :: 0 <= i < n && f.ids[i] == id)
    && (forall i :: LastUpTo(f, n, i) ==> f.ids[i] in index && IsNeighbourhood(f, i, index[f.ids[i]]))
  }

  lemma IndexGrows(f: Field, n: int, index: Index, ids: seq<int>)
    requires 0 <= n < |f.ids| && IsIndexUpTo(f, n, index)
    requires f.ids[n] >= 0 ==> IsNeighbourhood(f, n, ids)
    ensures IsIndexUpTo(f, n + 1, if f.ids[n] >= 0 then index[f.ids[n] := ids] else index)
  {
    var next := if f.ids[n] >= 0 then index[f.ids[n] := ids] else index;
    forall i | LastUpTo(f, n + 1, i) ensures f.ids[i] in next && IsNeighbourhood(f, i, next[f.ids[i]]) {
      if i < n {
        assert LastUpTo(f, n, i) && f.ids[n] != f.ids[i];
      }
    }
    forall id | id in next ensures id >= 0 && exists i :: 0 <= i < n + 1 && f.ids[i] == id {
      if id in index {
        var i :| 0 <= i < n && f.ids[i] == id;
      } else {
        assert f.ids[n] == id;
      }
    }
  }

  // configureDistanceConflict with a usable threshold.
  method BuildIndex(f: Field) returns (index: Index)
    requires f.Valid()
    ensures IsIndex(f, index)
  {
    var grid := BuildGrid(f);
    index := map[];
    for i := 0 to |f.ids|
      invariant IsIndexUpTo(f, i, index)
    {
      ghost var before, list := index, [];
      if f.ids[i] >= 0 {
        var ids := NeighbourhoodOf(f, grid, i);
        index := index[f.ids[i] := ids];
        list := ids;
      }
      IndexGrows(f, i, before, list);
    }
    UpToAll(f, index);
  }

  lemma {:induction false} HasLast(f: Field, i: int) returns (k: int)
    requires f.Has(i) && f.ids[i] >= 0
    ensures LastOf(f, k) && f.ids[k] == f.ids[i]
    decreases |f.ids| - i
  {
    if j :| i < j < |f.ids| && f.ids[j] == f.ids[i] {
      k := HasLast(f, j);
    } else {
      k := i;
    }
  }

  lemma UpToAll(f: Field, index: Index)
    requires IsIndexUpTo(f, |f.ids|, index)
    ensures IsIndex(f, index)
  {
    forall id | id in index ensures id >= 0 && exists i :: LastOf(f, i) && f.ids[i] == id {
      var i :| 0 <= i < |f.ids| && f.ids[i] == id;
      var k := HasLast(f, i);
    }
    forall i | LastOf(f, i) ensures f.ids[i] in index && IsNeighbourhood(f, i, index[f.ids[i]]) {
      assert LastUpTo(f, |f.ids|, i);
    }
  }
}

module ConflictIndex {
  import opened Util
  import opened MapModel
  import opened SpatialHash

  // Squared distance within the squared threshold, as the code compares it.
  predicate Within(nodes: seq<Node>, threshold: real, i: int, k: int)
    requires 0 <= i < |nodes| && 0 <= k < |nodes|
  {
    var dx, dy := nodes[i].x - nodes[k].x, nodes[i].y - nodes[k].y;
    dx * dx + dy * dy <= threshold * threshold
  }

  function CellCoord(value: real, cell: real): int
    requires cell > 0.0
  {
    (value / cell).Floor
  }

  // ((uint64)cx << 32) ^ ((uint64)cy & 0xffffffff), read back as a signed number.
  function CellKey(cx: int, cy: int): int {
    var u := (cx % 0x1_0000_0000) * 0x1_0000_0000 + cy % 0x1_0000_0000;
    if u < 0x8000_0000_0000_0000 then u else u - 0x1_0000_0000_0000_0000
  }

  function KeyOf(nodes: seq<Node>, cell: real, i: int, dx: int, dy: int): int
    requires 0 <= i < |nodes| && cell > 0.0
  {
    CellKey(CellCoord(nodes[i].x, cell) + dx, CellCoord(nodes[i].y, cell) + dy)
  }

  function NodeIds(nodes: seq<Node>): (r: seq<int>)
    ensures |r| == |nodes| && forall i :: 0 <= i < |nodes| ==> r[i] == nodes[i].id
  {
    seq(|nodes|, i requires 0 <= i < |nodes| => nodes[i].id)
  }

  function FieldOf(nodes: seq<Node>, threshold: real): Field
    requires threshold > 0.0
  {
    Field(NodeIds(nodes),
      (i, k) => 0 <= i < |nodes| && 0 <= k < |nodes| && Within(nodes, threshold, i, k),
      (i, dx, dy) => if 0 <= i < |nodes| then KeyOf(nodes, threshold, i, dx, dy) else 0)
  }

  lemma QuotientsNear(a: real, b: real, p: real, q: real, cell: real)
    requires cell > 0.0 && p * cell == a && q * cell == b && a - b <= cell
    ensures p - q <= 1.0
  {
    var d := p - q - 1.0;
    assert p * cell == (q + 1.0 + d) * cell;
    assert d * cell == a - b - cell;
    assert d > 0.0 ==> d * cell > 0.0;
  }

  lemma FloorStep(p: real, q: real)
    requires p - q <= 1.0
    ensures p.Floor <= q.Floor + 1
  {
    assert p.Floor as real <= p && q < q.Floor as real + 1.0;
  }

  // Numbers at most one cell apart fall into the same or neighbouring cells.
  lemma CellsNear(a: real, b: real, cell: real)
    requires cell > 0.0 && a - b <= cell
    ensures CellCoord(a, cell) - CellCoord(b, cell) <= 1
  {
    var p, q := a / cell, b / cell;
    assert p * cell == a && q * cell == b;
    QuotientsNear(a, b, p, q, cell);
    FloorStep(p, q);
  }

  lemma DifferenceWithin(d: real, e: real, threshold: real)
    requires threshold > 0.0 && d * d + e * e <= threshold * threshold
    ensures -threshold <= d <= threshold
  {
    assert e * e >= 0.0 && (-d) * (-d) == d * d;
    SquareOrder(d, threshold);
    SquareOrder(-d, threshold);
  }

  lemma WithinMeansNear(nodes: seq<Node>, threshold: real, i: int, k: int)
    requires 0 <= i < |nodes| && 0 <= k < |nodes| && threshold > 0.0 && Within(nodes, threshold, i, k)
    ensures exists dx, dy :: (-1 <= dx <= 1 && -1 <= dy <= 1
      && KeyOf(nodes, threshold, k, 0, 0) == KeyOf(nodes, threshold, i, dx, dy))
  {
    var x, y := nodes[i].x - nodes[k].x, nodes[i].y - nodes[k].y;
    DifferenceWithin(x, y, threshold);
    DifferenceWithin(y, x, threshold);
    CellsNear(nodes[k].x, nodes[i].x, threshold);
    CellsNear(nodes[i].x, nodes[k].x, threshold);
    CellsNear(nodes[k].y, nodes[i].y, threshold);
    CellsNear(nodes[i].y, nodes[k].y, threshold);
    var dx := CellCoord(nodes[k].x, threshold) - CellCoord(nodes[i].x, threshold);
    var dy := CellCoord(nodes[k].y, threshold) - CellCoord(nodes[i].y, threshold);
    assert KeyOf(nodes, threshold, k, 0, 0) == KeyOf(nodes, threshold, i, dx, dy);
  }

  lemma FieldIsValid(nodes: seq<Node>, threshold: real)
    requires threshold > 0.0
    ensures FieldOf(nodes, threshold).Valid()
  {
    var f := FieldOf(nodes, threshold);
    forall i | f.Has(i) ensures f.Near(i, i) {
      WithinItself(nodes, threshold, i);
    }
    forall i, k | f.Has(i) && f.Has(k) && f.Near(i, k) ensures f.InNineCells(i, k) {
      WithinMeansNear(nodes, threshold, i, k);
      var dx, dy :| -1 <= dx <= 1 && -1 <= dy <= 1
        && KeyOf(nodes, threshold, k, 0, 0) == KeyOf(nodes, threshold, i, dx, dy);
      assert f.Key(k, 0, 0) == f.Key(i, dx, dy);
    }
  }

  lemma WithinItself(nodes: seq<Node>, threshold: real, i: int)
    requires 0 <= i < |nodes|
    ensures Within(nodes, threshold, i, i)
  {
  }

  // conflictNodeIdsFor: the node itself first, then the listed others.
  function Others(ids: seq<int>, id: int): (r: seq<int>)
    ensures forall x :: x in r <==> x in ids && x != id
  {
    if ids == [] then []
    else if ids[0] == id then Others(ids[1..], id)
    else [ids[0]] + Others(ids[1..], id)
  }

  function ConflictIds(index: Index, id: int): (r: seq<int>)
    ensures |r| >= 1 && r[0] == id
    ensures forall x :: x in r <==> x == id || (id in index && x in index[id])
  {
    [id] + (if id in index then Others(index[id], id) else [])
  }

  ghost predicate Symmetric(index: Index) {
    forall a, b :: a in ConflictIds(index, b) ==> b in ConflictIds(index, a)
  }

  // No two map nodes share a non-negative id.
  ghost predicate UniqueIds(nodes: seq<Node>) {
    forall i, k :: 0 <= i < |nodes| && 0 <= k < |nodes| && nodes[i].id == nodes[k].id >= 0 ==> i == k
  }

  // What configuring makes of a node list.
  ghost predicate IsConfigured(nodes: seq<Node>, threshold: real, index: Index) {
    if threshold > 0.0 then IsIndex(FieldOf(nodes, threshold), index)
    else
      && (forall id :: id in index <==> id >= 0 && id in NodeIds(nodes))
      && (forall id :: id in index ==> index[id] == [id])
  }

  // Where the last carrier of one id has another id in range, that one's last carrier has
  // the first id in range.
  ghost predicate NearIsMutual(nodes: seq<Node>, threshold: real) {
    threshold > 0.0 ==> MutualNeighbours(FieldOf(nodes, threshold))
  }

  // The relation is symmetric exactly on such node lists.
  lemma SymmetricExactly(nodes: seq<Node>, threshold: real, index: Index)
    requires IsConfigured(nodes, threshold, index)
    ensures Symmetric(index) <==> NearIsMutual(nodes, threshold)
  {
    if threshold > 0.0 {
      var f := FieldOf(nodes, threshold);
      if Symmetric(index) {
        SymmetricIsMutual(f, index);
      }
      if MutualNeighbours(f) {
        MutualIsSymmetric(f, index);
      }
    } else {
      assert forall a, b :: a in ConflictIds(index, b) ==> a == b;
    }
  }

  lemma SymmetricIsMutual(f: Field, index: Index)
    requires IsIndex(f, index) && Symmetric(index)
    ensures MutualNeighbours(f)
  {
    forall i, k | LastOf(f, i) && LastOf(f, k) && HasNear(f, i, f.ids[k]) ensures HasNear(f, k, f.ids[i]) {
      assert f.ids[k] in ConflictIds(index, f.ids[i]);
      assert f.ids[i] in ConflictIds(index, f.ids[k]);
      if f.ids[i] == f.ids[k] {
        assert i == k;
      }
    }
  }

  lemma MutualIsSymmetric(f: Field, index: Index)
    requires IsIndex(f, index) && MutualNeighbours(f)
    ensures Symmetric(index)
  {
    forall a, b | a in ConflictIds(index, b) ensures b in ConflictIds(index, a) {
      if a != b {
        var i :| LastOf(f, i) && f.ids[i] == b;
        assert HasNear(f, i, a);
        var n :| f.Has(n) && f.ids[n] == a && f.Near(i, n);
        var k := HasLast(f, n);
        assert HasNear(f, k, f.ids[i]);
      }
    }
  }

  // configureDistanceConflict. A threshold that is not positive (or not finite, which the
  // model reads as not positive) makes each node conflict with itself alone.
  method ConfigureDistanceConflict(nodes: seq<Node>, threshold: real) returns (index: Index)
    ensures IsConfigured(nodes, threshold, index)
    ensures Symmetric(index) <==> NearIsMutual(nodes, threshold)
  {
    if threshold > 0.0 {
      var f := FieldOf(nodes, threshold);
      FieldIsValid(nodes, threshold);
      index := BuildIndex(f);
      SymmetricExactly(nodes, threshold, index);
      return;
    }
    index := map[];
    for i := 0 to |nodes|
      invariant forall id :: id in index <==> id >= 0 && id in NodeIds(nodes)[..i]
      invariant forall id :: id in index ==> index[id] == [id]
    {
      if nodes[i].id >= 0 { index := index[nodes[i].id := [nodes[i].id]]; }
      assert NodeIds(nodes)[..i + 1] == NodeIds(nodes)[..i] + [nodes[i].id];
    }
    assert NodeIds(nodes)[..|nodes|] == NodeIds(nodes);
    SymmetricExactly(nodes, threshold, index);
  }

  lemma WithinIsSymmetric(nodes: seq<Node>, threshold: real, i: int, k: int)
    requires 0 <= i < |nodes| && 0 <= k < |nodes|
    ensures Within(nodes, threshold, i, k) <==> Within(nodes, threshold, k, i)
  {
    var dx, dy := nodes[i].x - nodes[k].x, nodes[i].y - nodes[k].y;
    assert (-dx) * (-dx) == dx * dx && (-dy) * (-dy) == dy * dy;
  }

  // With unique ids the conflict list of a map node is exactly the nodes in range, as brute
  // force over all pairs would find them.
  lemma ConflictsAreNearNodes(nodes: seq<Node>, threshold: real, index: Index, i: int, k: int)
    requires threshold > 0.0 && IsIndex(FieldOf(nodes, threshold), index) && UniqueIds(nodes)
    requires 0 <= i < |nodes| && 0 <= k < |nodes| && nodes[i].id >= 0 && nodes[k].id >= 0
    ensures nodes[k].id in ConflictIds(index, nodes[i].id) <==> Within(nodes, threshold, i, k)
  {
    var f := FieldOf(nodes, threshold);
    assert LastOf(f, i);
    assert f.Near(i, k) <==> Within(nodes, threshold, i, k);
    assert nodes[k].id in index[nodes[i].id] <==> HasNear(f, i, nodes[k].id);
    WithinItself(nodes, threshold, i);
  }

  // Unique ids are enough, for nearness itself is mutual.
  lemma UniqueIdsAreMutual(nodes: seq<Node>, threshold: real)
    requires UniqueIds(nodes)
    ensures NearIsMutual(nodes, threshold)
  {
    if threshold > 0.0 {
      var f := FieldOf(nodes, threshold);
      forall i, k | LastOf(f, i) && LastOf(f, k) && HasNear(f, i, f.ids[k]) ensures HasNear(f, k, f.ids[i]) {
        var n :| f.Has(n) && f.ids[n] == f.ids[k] && f.Near(i, n);
        assert nodes[n].id == nodes[k].id;
        WithinIsSymmetric(nodes, threshold, i, k);
        assert f.Near(k, i);
      }
    }
  }

  function At(id: int, x: real): Node { Node(id, 0, x, 0.0, true, true, [], [], 1.0) }

  function SharedIds(): seq<Node> { [At(1, 0.0), At(1, 100.0), At(2, 0.0)] }

  // Repeated ids can break the symmetry: here node 1 is listed twice, near node 2 and far
  // away, and only the far one's list survives.
  lemma SharedIdsBreakSymmetry(index: Index)
    requires IsConfigured(SharedIds(), 1.0, index)
    ensures !Symmetric(index)
  {
    SymmetricExactly(SharedIds(), 1.0, index);
    SharedSpots();
    OneSided(FieldOf(SharedIds(), 1.0));
  }

  lemma OneSided(f: Field)
    requires f.ids == [1, 1, 2] && f.Near(2, 0) && !f.Near(1, 2)
    ensures !MutualNeighbours(f)
  {
    assert LastOf(f, 1) && LastOf(f, 2);
    assert f.ids[0] == 1 && HasNear(f, 2, f.ids[1]);
    assert forall k :: f.Has(k) && f.ids[k] == 2 ==> k == 2;
    assert !HasNear(f, 1, f.ids[2]);
  }

  lemma SharedSpots()
    ensures var f := FieldOf(SharedIds(), 1.0);
      f.ids == [1, 1, 2] && f.Near(2, 0) && !f.Near(1, 2)
  {
    assert Within(SharedIds(), 1.0, 2, 0) && !Within(SharedIds(), 1.0, 1, 2);
  }

  // Repeated ids alone do no harm: nodes at one spot keep it whatever their ids.
  lemma OneSpotKeepsSymmetry(nodes: seq<Node>, threshold: real, index: Index)
    requires threshold > 0.0 && IsConfigured(nodes, threshold, index)
    requires forall i, k :: 0 <= i < |nodes| && 0 <= k < |nodes| ==> SameSpot(nodes[i], nodes[k])
    ensures Symmetric(index)
  {
    SymmetricExactly(nodes, threshold, index);
    var f := FieldOf(nodes, threshold);
    forall i, k | f.Has(i) && f.Has(k) ensures f.Near(i, k) {
      SameSpotIsWithin(nodes, threshold, i, k);
    }
    AllNearIsMutual(f);
  }

  predicate SameSpot(a: Node, b: Node) { a.x == b.x && a.y == b.y }

  lemma SameSpotIsWithin(nodes: seq<Node>, threshold: real, i: int, k: int)
    requires 0 <= i < |nodes| && 0 <= k < |nodes| && SameSpot(nodes[i], nodes[k])
    ensures Within(nodes, threshold, i, k)
  {
  }

  lemma AllNearIsMutual(f: Field)
    requires forall i, k :: f.Has(i) && f.Has(k) ==> f.Near(i, k)
    ensures MutualNeighbours(f)
  {
    forall i, k | LastOf(f, i) && LastOf(f, k) && HasNear(f, i, f.ids[k]) ensures HasNear(f, k, f.ids[i]) {
      assert f.Near(k, i);
    }
  }
}
