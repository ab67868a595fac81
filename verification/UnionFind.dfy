// Union-find with path compression and union by rank, in place on two arrays.
module Forest {
  import opened Util

  function Pow2(k: nat): (r: nat)
    ensures r >= 1 && r > k
  {
    if k == 0 then 1 else 2 * Pow2(k - 1)
  }

  // Parents are in range, ranks rise strictly towards the root and stay below the size.
  ghost predicate IsForest(p: seq<int>, r: seq<int>) {
    && |p| == |r|
    && (forall i {:trigger p[i]} :: 0 <= i < |p| ==> 0 <= p[i] < |p|)
    && (forall i {:trigger r[i]} :: 0 <= i < |r| ==> 0 <= r[i] < |r|)
    && (forall i {:trigger p[i]} :: 0 <= i < |p| && p[i] != i ==> r[i] < r[p[i]])
  }

  ghost function Root(p: seq<int>, r: seq<int>, i: int): (root: int)
    requires IsForest(p, r) && 0 <= i < |p|
    ensures 0 <= root < |p| && p[root] == root && r[i] <= r[root]
    ensures root != i <==> p[i] != i
    ensures root != i ==> r[i] < r[root]
    decreases |p| - r[i]
  {
    if p[i] == i then i else Root(p, r, p[i])
  }

  ghost function Members(p: seq<int>, r: seq<int>, root: int): set<int>
    requires IsForest(p, r)
  {
    set i | 0 <= i < |p| && Root(p, r, i) == root
  }

  // A root of rank k has at least 2^k members.
  ghost predicate Sized(p: seq<int>, r: seq<int>)
    requires IsForest(p, r)
  {
    forall i {:trigger Members(p, r, i)} :: 0 <= i < |p| && p[i] == i ==> Pow2(r[i]) <= |Members(p, r, i)|
  }

  // Pointing a node straight at its root changes no root.
  lemma {:induction false} CompressKeepsRoot(p: seq<int>, r: seq<int>, x: int, i: int)
    requires IsForest(p, r) && 0 <= x < |p| && p[x] != x && 0 <= i < |p|
    ensures IsForest(p[x := Root(p, r, x)], r)
    ensures Root(p[x := Root(p, r, x)], r, i) == Root(p, r, i)
    decreases |p| - r[i]
  {
    var root := Root(p, r, x);
    var p' := p[x := root];
    assert IsForest(p', r);
    if i == x {
      assert Root(p', r, i) == Root(p', r, root);
    } else if p[i] != i {
      CompressKeepsRoot(p, r, x, p[i]);
    }
  }

  lemma CompressKeepsSized(p: seq<int>, r: seq<int>, x: int)
    requires IsForest(p, r) && Sized(p, r) && 0 <= x < |p| && p[x] != x
    ensures IsForest(p[x := Root(p, r, x)], r) && Sized(p[x := Root(p, r, x)], r)
  {
    var p' := p[x := Root(p, r, x)];
    CompressKeepsRoot(p, r, x, x);
    forall i | 0 <= i < |p| && p'[i] == i ensures Pow2(r[i]) <= |Members(p', r, i)| {
      forall j | 0 <= j < |p| ensures Root(p', r, j) == Root(p, r, j) {
        CompressKeepsRoot(p, r, x, j);
      }
      SameMembers(p, p', r, r, i, i);
    }
  }

  lemma SameMembers(p: seq<int>, p': seq<int>, r: seq<int>, r': seq<int>, i: int, i': int)
    requires IsForest(p, r) && IsForest(p', r') && |p| == |p'|
    requires forall j :: 0 <= j < |p| ==> (Root(p, r, j) == i <==> Root(p', r', j) == i')
    ensures Members(p, r, i) == Members(p', r', i')
  {
    if Members(p, r, i) != Members(p', r', i') {
      var x := SetDifference(Members(p, r, i), Members(p', r', i'));
    }
  }

  // Linking root a below root b, as `unite` does.
  ghost predicate Links(p: seq<int>, r: seq<int>, a: int, b: int, r': seq<int>)
    requires IsForest(p, r)
  {
    && 0 <= a < |p| && 0 <= b < |p| && a != b && p[a] == a && p[b] == b
    && (if r[a] < r[b] then r' == r else r[a] == r[b] && r' == r[b := r[b] + 1])
  }

  lemma {:induction false} LinkedRoot(p: seq<int>, r: seq<int>, a: int, b: int, r': seq<int>, i: int)
    requires IsForest(p, r) && Links(p, r, a, b, r') && IsForest(p[a := b], r') && 0 <= i < |p|
    ensures Root(p[a := b], r', i) == if Root(p, r, i) == a then b else Root(p, r, i)
    decreases |p| - r[i]
  {
    var p' := p[a := b];
    if i == a {
      assert Root(p', r', a) == Root(p', r', b);
    } else if p[i] != i {
      LinkedRoot(p, r, a, b, r', p[i]);
    }
  }

  ghost function UpTo(n: nat): (r: set<int>)
    ensures |r| == n && forall x :: x in r <==> 0 <= x < n
  {
    if n == 0 then {} else UpTo(n - 1) + {n - 1}
  }

  lemma SubsetSize(a: set<int>, b: set<int>)
    requires forall x :: x in a ==> x in b
    ensures |a| <= |b|
  {
    var common := a * b;
    if common != a {
      var x := SetDifference(common, a);
    }
    assert b == common + (b - common);
    assert |b| == |common| + |b - common|;
  }

  lemma MembersBounded(p: seq<int>, r: seq<int>, root: int)
    requires IsForest(p, r)
    ensures |Members(p, r, root)| <= |p|
  {
    SubsetSize(Members(p, r, root), UpTo(|p|));
  }

  // Ranks are logarithmic: a tree of rank r needs 2^r elements.
  lemma RankIsLogarithmic(p: seq<int>, r: seq<int>, i: int)
    requires IsForest(p, r) && Sized(p, r) && 0 <= i < |p|
    ensures Pow2(r[Root(p, r, i)]) <= |p| && r[i] <= r[Root(p, r, i)]
  {
    MembersBounded(p, r, Root(p, r, i));
  }

  lemma TwoRootsBounded(p: seq<int>, r: seq<int>, a: int, b: int)
    requires IsForest(p, r) && a != b
    ensures |Members(p, r, a)| + |Members(p, r, b)| <= |p|
  {
    var both := Members(p, r, a) + Members(p, r, b);
    assert Members(p, r, a) !! Members(p, r, b);
    assert |both| == |Members(p, r, a)| + |Members(p, r, b)|;
    SubsetSize(both, UpTo(|p|));
  }

  // Linking keeps a forest: the new rank still fits because both trees are large enough.
  lemma LinkKeepsForest(p: seq<int>, r: seq<int>, a: int, b: int, r': seq<int>)
    requires IsForest(p, r) && Sized(p, r) && Links(p, r, a, b, r')
    ensures IsForest(p[a := b], r')
  {
    TwoRootsBounded(p, r, a, b);
    assert Pow2(r[a] + 1) == 2 * Pow2(r[a]);
  }

  // The effect of a link on every node's root.
  ghost predicate Relinked(p: seq<int>, r: seq<int>, a: int, b: int, p': seq<int>, r': seq<int>)
    requires IsForest(p, r) && IsForest(p', r') && |p| == |p'|
  {
    forall z :: 0 <= z < |p| ==> Root(p', r', z) == if Root(p, r, z) == a then b else Root(p, r, z)
  }

  lemma LinkRelinks(p: seq<int>, r: seq<int>, a: int, b: int, r': seq<int>)
    requires IsForest(p, r) && Links(p, r, a, b, r') && IsForest(p[a := b], r')
    ensures Relinked(p, r, a, b, p[a := b], r')
  {
    forall z | 0 <= z < |p|
      ensures Root(p[a := b], r', z) == if Root(p, r, z) == a then b else Root(p, r, z)
    {
      LinkedRoot(p, r, a, b, r', z);
    }
  }

  lemma MergedMembers(p: seq<int>, r: seq<int>, a: int, b: int, p': seq<int>, r': seq<int>)
    requires IsForest(p, r) && IsForest(p', r') && |p| == |p'| && a != b
    requires Relinked(p, r, a, b, p', r')
    ensures |Members(p', r', b)| == |Members(p, r, a)| + |Members(p, r, b)|
  {
    var both := Members(p, r, a) + Members(p, r, b);
    if Members(p', r', b) != both {
      var x := SetDifference(Members(p', r', b), both);
    }
    assert Members(p, r, a) !! Members(p, r, b);
  }

  lemma OtherMembers(p: seq<int>, r: seq<int>, a: int, b: int, p': seq<int>, r': seq<int>, i: int)
    requires IsForest(p, r) && IsForest(p', r') && |p| == |p'| && i != a && i != b
    requires Relinked(p, r, a, b, p', r')
    ensures Members(p', r', i) == Members(p, r, i)
  {
    if Members(p', r', i) != Members(p, r, i) {
      var x := SetDifference(Members(p', r', i), Members(p, r, i));
    }
  }

  lemma LinkKeepsSized(p: seq<int>, r: seq<int>, a: int, b: int, r': seq<int>)
    requires IsForest(p, r) && Sized(p, r) && Links(p, r, a, b, r')
    ensures IsForest(p[a := b], r') && Sized(p[a := b], r')
    ensures Relinked(p, r, a, b, p[a := b], r')
  {
    LinkKeepsForest(p, r, a, b, r');
    LinkRelinks(p, r, a, b, r');
    var p' := p[a := b];
    forall i | 0 <= i < |p| && p'[i] == i ensures Pow2(r'[i]) <= |Members(p', r', i)| {
      if i == b {
        MergedMembers(p, r, a, b, p', r');
        assert Pow2(r[b] + 1) == 2 * Pow2(r[b]);
      } else {
        OtherMembers(p, r, a, b, p', r', i);
      }
    }
  }
}

module UnionFind {
  import opened Util
  import opened Forest

  class UnionFind {
    const parent: array<int>
    const rank: array<int>

    ghost predicate Valid()
      reads this, parent, rank
    {
      parent != rank && IsForest(parent[..], rank[..]) && Sized(parent[..], rank[..])
    }

    ghost function RootOf(x: int): int
      reads this, parent, rank
      requires Valid() && 0 <= x < parent.Length
    {
      Root(parent[..], rank[..], x)
    }

    ghost predicate Together(x: int, y: int)
      reads this, parent, rank
      requires Valid() && 0 <= x < parent.Length && 0 <= y < parent.Length
    {
      RootOf(x) == RootOf(y)
    }

    constructor (n: nat)
      ensures Valid() && fresh(parent) && fresh(rank) && parent.Length == n
      ensures forall x :: 0 <= x < n ==> RootOf(x) == x
    {
      parent := new int[n];
      rank := new int[n](_ => 0);
      new;
      for i := 0 to n
        invariant forall k :: 0 <= k < i ==> parent[k] == k
        invariant forall k :: 0 <= k < n ==> rank[k] == 0
      {
        parent[i] := i;
      }
      forall i | 0 <= i < n ensures Pow2(0) <= |Members(parent[..], rank[..], i)| {
        assert i in Members(parent[..], rank[..], i);
        SubsetSize({i}, Members(parent[..], rank[..], i));
      }
    }

    // The read-only find. Its range check and its step guard never fire.
    method FindConst(x: int) returns (root: int)
      requires Valid()
      ensures root == if 0 <= x < parent.Length then RootOf(x) else -1
    {
      if x < 0 || x >= parent.Length { return -1; }
      root := x;
      var steps := 0;
      while parent[root] != root
        invariant 0 <= root < parent.Length && RootOf(root) == RootOf(x)
        invariant 0 <= steps <= rank[root]
        decreases parent.Length - rank[root]
      {
        var p := parent[root];
        assert parent[..][root] == p && rank[..][root] == rank[root];
        if p < 0 || p >= parent.Length { assert false; }
        root := p;
        steps := steps + 1;
        if steps > parent.Length { assert false; }
      }
      assert parent[..][root] == root;
    }

    // find with path compression: the same answer, and no root changes.
    method Find(x: int) returns (root: int)
      requires Valid()
      modifies parent
      ensures Valid()
      ensures root == if 0 <= x < parent.Length then old(RootOf(x)) else -1
      ensures forall y :: 0 <= y < parent.Length ==> RootOf(y) == old(RootOf(y))
    {
      root := FindConst(x);
      if root < 0 { return; }
      var y := x;
      while parent[y] != y
        invariant Valid() && 0 <= y < parent.Length && RootOf(y) == root
        invariant forall z :: 0 <= z < parent.Length ==> RootOf(z) == old(RootOf(z))
        decreases parent.Length - rank[y]
      {
        var p := parent[y];
        assert parent[..][y] == p && rank[..][y] == rank[y] && rank[..][p] == rank[p];
        if p < 0 || p >= parent.Length { assert false; }
        PointAtRoot(y, root);
        y := p;
      }
    }

    method PointAtRoot(y: int, root: int)
      requires Valid() && 0 <= y < parent.Length && parent[y] != y && root == RootOf(y)
      modifies parent
      ensures Valid()
      ensures forall z :: 0 <= z < parent.Length ==> RootOf(z) == old(RootOf(z))
    {
      ghost var p, r := parent[..], rank[..];
      CompressKeepsSized(p, r, y);
      forall z | 0 <= z < |p| ensures Root(p[y := root], r, z) == Root(p, r, z) {
        CompressKeepsRoot(p, r, y, z);
      }
      parent[y] := root;
      assert parent[..] == p[y := root];
    }

    // unite merges exactly the two sets it is given.
    method Unite(x: int, y: int)
      requires Valid()
      modifies parent, rank
      ensures Valid()
      ensures !(0 <= x < parent.Length && 0 <= y < parent.Length) ==>
        forall a :: 0 <= a < parent.Length ==> RootOf(a) == old(RootOf(a))
      ensures 0 <= x < parent.Length && 0 <= y < parent.Length ==>
        forall a, b :: 0 <= a < parent.Length && 0 <= b < parent.Length ==>
          (Together(a, b) <==> old(Together(a, b)
            || (Together(a, x) && Together(y, b)) || (Together(a, y) && Together(x, b))))
    {
      var rootX := Find(x);
      var rootY := Find(y);
      if rootX < 0 || rootY < 0 { return; }
      if rootX == rootY { return; }
      if rank[rootX] < rank[rootY] {
        Link(rootX, rootY);
      } else {
        Link(rootY, rootX);
      }
    }

    // Puts root a below root b and raises b's rank when the two were equal.
    method Link(a: int, b: int)
      requires Valid() && 0 <= a < parent.Length && 0 <= b < parent.Length && a != b
      requires parent[a] == a && parent[b] == b && rank[a] <= rank[b]
      modifies parent, rank
      ensures Valid()
      ensures forall z :: 0 <= z < parent.Length ==>
        RootOf(z) == if old(RootOf(z)) == a then b else old(RootOf(z))
    {
      ghost var p, r := parent[..], rank[..];
      ghost var r' := if r[a] < r[b] then r else r[b := r[b] + 1];
      LinkKeepsSized(p, r, a, b, r');
      parent[a] := b;
      assert parent[..] == p[a := b];
      if rank[a] == rank[b] { rank[b] := rank[b] + 1; }
      assert rank[..] == r';
      assert Relinked(p, r, a, b, parent[..], rank[..]);
    }

    method IsConnected(x: int, y: int) returns (c: bool)
      requires Valid()
      ensures c <==> 0 <= x < parent.Length && 0 <= y < parent.Length && Together(x, y)
    {
      var rx := FindConst(x);
      if rx < 0 { return false; }
      var ry := FindConst(y);
      if ry < 0 { return false; }
      c := rx == ry;
    }
  }
}
