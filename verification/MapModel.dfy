// The loaded map as the planners read it: nodes with coordinates, the successor table
// `aftNode` and, for every pair of nodes, the Euclidean length between them.
module MapModel {
  import opened Util

  datatype Node = Node(
    id: int,
    nodeType: int,
    x: real,
    y: real,
    allowPass: bool,
    allowRot: bool,
    passTypes: seq<string>,
    rotTypes: seq<string>,
    maxSpeed: real)

  // The index an id stands for: the last node that carries it.
  function IndexOf(nodes: seq<Node>, id: int): (r: Option<nat>)
    ensures r.Some? ==> r.value < |nodes| && nodes[r.value].id == id
    ensures r.None? ==> forall i :: 0 <= i < |nodes| ==> nodes[i].id != id
  {
    if nodes == [] then None
    else if nodes[|nodes| - 1].id == id then Some(|nodes| - 1)
    else IndexOf(nodes[..|nodes| - 1], id)
  }

  lemma IndexOfNext(nodes: seq<Node>, i: nat, id: int)
    requires i < |nodes|
    ensures IndexOf(nodes[..i + 1], id) == if nodes[i].id == id then Some(i) else IndexOf(nodes[..i], id)
  {
    assert nodes[..i + 1][..i] == nodes[..i];
  }

  // The table from ids to indices.
  ghost predicate IsNumbering(nodes: seq<Node>, ids: map<int, nat>) {
    && (forall id :: id in ids <==> IndexOf(nodes, id).Some?)
    && (forall id :: id in ids ==> Some(ids[id]) == IndexOf(nodes, id))
  }

  lemma NumberingNext(nodes: seq<Node>, i: nat, ids: map<int, nat>)
    requires i < |nodes| && IsNumbering(nodes[..i], ids)
    ensures IsNumbering(nodes[..i + 1], ids[nodes[i].id := i])
  {
    forall id ensures IndexOf(nodes[..i + 1], id) == if nodes[i].id == id then Some(i) else IndexOf(nodes[..i], id) {
      IndexOfNext(nodes, i, id);
    }
  }

  // The factor for two edges, given by their offsets and lengths.
  function BendFactor(dx1: real, dy1: real, dx2: real, dy2: real, len1: real, len2: real): (r: real)
    ensures r == 0.0 || r == 1.0 || r == 2.0
  {
    if len1 < 0.000001 || len2 < 0.000001 then 0.0
    else UnitBendFactor(dx1 / len1, dy1 / len1, dx2 / len2, dy2 / len2)
  }

  // The same for two unit vectors.
  function UnitBendFactor(ndx1: real, ndy1: real, ndx2: real, ndy2: real): (r: real)
    ensures r == 0.0 || r == 1.0 || r == 2.0
  {
    var cross := ndx1 * ndy2 - ndy1 * ndx2;
    var dot := ndx1 * ndx2 + ndy1 * ndy2;
    if dot < -0.999 then 2.0
    else if Abs(cross) > 0.001 then 1.0
    else 0.0
  }

  // `span(i, j)` stands for std::sqrt(dx*dx + dy*dy): the model carries the root itself
  // and IsSpan says that it is one.
  datatype RoadMap = RoadMap(
    nodes: seq<Node>,
    aft: map<int, seq<int>>,
    span: (int, int) -> real)
  {
    predicate InRange(i: int) { 0 <= i < |nodes| }

    ghost predicate IsSpan(i: int, j: int)
      requires InRange(i) && InRange(j)
    {
      var dx, dy := nodes[j].x - nodes[i].x, nodes[j].y - nodes[i].y;
      span(i, j) >= 0.0 && span(i, j) * span(i, j) == dx * dx + dy * dy
    }

    ghost predicate WellFormed() {
      forall i, j :: InRange(i) && InRange(j) ==> IsSpan(i, j)
    }

    lemma SpanNonNegative(i: int, j: int)
      requires WellFormed() && InRange(i) && InRange(j)
      ensures span(i, j) >= 0.0
    {
      assert IsSpan(i, j);
    }

    function Manhattan(i: int, j: int): (r: real)
      requires InRange(i) && InRange(j)
      ensures r >= 0.0
    {
      Abs(nodes[j].x - nodes[i].x) + Abs(nodes[j].y - nodes[i].y)
    }

    lemma ManhattanTriangle(i: int, j: int, k: int)
      requires InRange(i) && InRange(j) && InRange(k)
      ensures Manhattan(i, k) <= Manhattan(i, j) + Manhattan(j, k)
    {
    }

    function Successors(i: int): seq<int> {
      if i in aft then aft[i] else []
    }

    // calculateTurnPenaltyMm: the factor on the base penalty for going p -> c -> n.
    function TurnFactor(p: int, c: int, n: int): (r: real)
      requires InRange(p) && InRange(c) && InRange(n)
      ensures r == 0.0 || r == 1.0 || r == 2.0
    {
      BendFactor(nodes[c].x - nodes[p].x, nodes[c].y - nodes[p].y, nodes[n].x - nodes[c].x, nodes[n].y - nodes[c].y,
        span(p, c), span(c, n))
    }

    function TurnPenaltyMm(p: int, c: int, n: int, base: real): (r: real)
      ensures base >= 0.0 ==> 0.0 <= r <= 2.0 * base
    {
      if InRange(p) && InRange(c) && InRange(n) then base * TurnFactor(p, c, n) else 0.0
    }
  }

  // Manhattan length is at most kappa times the Euclidean length on one edge.
  ghost predicate Stretch(m: RoadMap, kappa: real, u: int, v: int)
    requires m.InRange(u) && m.InRange(v)
  {
    m.Manhattan(u, v) <= kappa * m.span(u, v)
  }

  lemma StretchCovers(m: RoadMap, kappa: real, u: int, v: int, c: real)
    requires m.InRange(u) && m.InRange(v) && Stretch(m, kappa, u, v)
    requires kappa >= 0.0 && c >= m.span(u, v)
    ensures m.Manhattan(u, v) <= kappa * c
  {
    MulMonotone(kappa, m.span(u, v), c);
  }

  // On an axis-aligned edge the two lengths agree, so kappa = 1 will do.
  lemma AxisAlignedStretch(m: RoadMap, u: int, v: int)
    requires m.InRange(u) && m.InRange(v) && m.IsSpan(u, v)
    requires m.nodes[u].x == m.nodes[v].x || m.nodes[u].y == m.nodes[v].y
    ensures Stretch(m, 1.0, u, v)
  {
    SquareOrder(m.Manhattan(u, v), m.span(u, v));
  }

  // On no other edge: the heuristic is admissible on exactly the axis-aligned edges.
  lemma AdmissibleExactly(m: RoadMap, u: int, v: int)
    requires m.InRange(u) && m.InRange(v) && m.IsSpan(u, v)
    ensures Stretch(m, 1.0, u, v) <==> m.nodes[u].x == m.nodes[v].x || m.nodes[u].y == m.nodes[v].y
  {
    var dx, dy := m.nodes[v].x - m.nodes[u].x, m.nodes[v].y - m.nodes[u].y;
    if dx == 0.0 || dy == 0.0 {
      AxisAlignedStretch(m, u, v);
    } else {
      AbsSquare(dx);
      AbsSquare(dy);
      SumExceeds(Abs(dx), Abs(dy), m.span(u, v));
    }
  }

  lemma SumExceeds(a: real, b: real, s: real)
    requires a > 0.0 && b > 0.0 && s >= 0.0 && a * a + b * b == s * s
    ensures a + b > s
  {
    var sum := a + b;
    ProductPositive(a, b);
    assert sum * sum == a * a + b * b + 2.0 * (a * b);
    LargerSquare(sum, s);
  }

  lemma LargerSquare(x: real, y: real)
    requires x >= 0.0 && y >= 0.0 && x * x > y * y
    ensures x > y
  {
    if x <= y {
      SquareMonotone(x, y);
      assert false;
    }
  }

  // Any kappa whose square is at least two will do on every edge of every map.
  lemma DiagonalStretch(m: RoadMap, kappa: real, u: int, v: int)
    requires m.InRange(u) && m.InRange(v) && m.IsSpan(u, v)
    requires kappa >= 0.0 && kappa * kappa >= 2.0
    ensures Stretch(m, kappa, u, v)
  {
    var dx, dy := m.nodes[v].x - m.nodes[u].x, m.nodes[v].y - m.nodes[u].y;
    AbsSquare(dx);
    AbsSquare(dy);
    SumWithin(Abs(dx), Abs(dy), m.span(u, v), kappa);
  }

  lemma AbsSquare(x: real)
    ensures Abs(x) * Abs(x) == x * x && Abs(-x) == Abs(x)
  {
  }

  lemma SquareOfProduct(x: real, y: real)
    ensures (x * y) * (x * y) == (y * y) * (x * x)
  {
    var p := x * y;
    assert p * (x * y) == (p * x) * y;
    assert p * x == (x * x) * y;
    assert ((x * x) * y) * y == (x * x) * (y * y);
  }

  lemma SumWithin(a: real, b: real, s: real, kappa: real)
    requires kappa >= 0.0 && s >= 0.0 && a * a + b * b == s * s && kappa * kappa >= 2.0
    ensures a + b <= kappa * s
  {
    SquareOfSum(a, b);
    var c, d := s * s, kappa * kappa;
    MulMonotone(c, 2.0, d);
    SquareOfProduct(kappa, s);
    ProductNonNegative(kappa, s);
    SquareOrder(a + b, kappa * s);
  }

  lemma SquareOfSum(a: real, b: real)
    ensures (a + b) * (a + b) <= 2.0 * (a * a + b * b)
  {
    if a >= b {
      MulMonotone(a - b, b, a);
    } else {
      MulMonotone(b - a, a, b);
    }
  }
}
