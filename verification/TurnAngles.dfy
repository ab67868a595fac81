// What a turn costs, by the angle between the two edges: nothing straight on, the base for a
// bend, twice the base for a reversal; and what a penalised node costs.
module TurnAngles {
  import opened Util
  import opened MapModel
  import opened AStarSpec

  // Scalar and cross product of the two edges p -> c and c -> n.
  function Dot(m: RoadMap, p: int, c: int, n: int): real
    requires m.InRange(p) && m.InRange(c) && m.InRange(n)
  {
    Inner(m.nodes[c].x - m.nodes[p].x, m.nodes[c].y - m.nodes[p].y, m.nodes[n].x - m.nodes[c].x, m.nodes[n].y - m.nodes[c].y)
  }

  function Cross(m: RoadMap, p: int, c: int, n: int): real
    requires m.InRange(p) && m.InRange(c) && m.InRange(n)
  {
    Outer(m.nodes[c].x - m.nodes[p].x, m.nodes[c].y - m.nodes[p].y, m.nodes[n].x - m.nodes[c].x, m.nodes[n].y - m.nodes[c].y)
  }

  lemma Scaled(u: real, k: real, l: real)
    requires l > 0.0
    ensures u < k <==> u * l < k * l
  {
    if u < k {
      ProductPositive(k - u, l);
      assert (k - u) * l == k * l - u * l;
    } else {
      ProductNonNegative(u - k, l);
      assert (u - k) * l == u * l - k * l;
    }
  }

  lemma ScaledAbs(u: real, l: real)
    requires l > 0.0
    ensures Abs(u) * l == Abs(u * l)
  {
    if u >= 0.0 {
      ProductNonNegative(u, l);
    } else {
      ProductPositive(-u, l);
      assert (-u) * l == -(u * l);
    }
  }

  lemma FourFactors(a: real, b: real, k: real, l: real)
    ensures (a * b) * (k * l) == (a * k) * (b * l)
  {
    assert (a * b) * (k * l) == a * (b * (k * l));
    assert b * (k * l) == k * (b * l);
    assert a * (k * (b * l)) == (a * k) * (b * l);
  }

  // Products of unit vectors, scaled by both lengths, are those of the vectors.
  lemma ScaledProducts(a: real, b: real, c: real, d: real, k: real, l: real, x1: real, y1: real, x2: real, y2: real)
    requires a * k == x1 && b * k == y1 && c * l == x2 && d * l == y2
    ensures (a * c + b * d) * (k * l) == Inner(x1, y1, x2, y2)
    ensures (a * d - b * c) * (k * l) == Outer(x1, y1, x2, y2)
  {
    ScaledProduct(a, c, k, l, x1, x2);
    ScaledProduct(b, d, k, l, y1, y2);
    ScaledProduct(a, d, k, l, x1, y2);
    ScaledProduct(b, c, k, l, y1, x2);
    Spread(a * c, b * d, k * l);
    Spread(a * d, -(b * c), k * l);
    Negated(b * c, k * l);
  }

  lemma ScaledProduct(a: real, b: real, k: real, l: real, x: real, y: real)
    requires a * k == x && b * l == y
    ensures (a * b) * (k * l) == x * y
  {
    FourFactors(a, b, k, l);
  }

  lemma Spread(x: real, y: real, z: real)
    ensures (x + y) * z == x * z + y * z
  {
  }

  lemma Negated(x: real, z: real)
    ensures (-x) * z == -(x * z)
  {
  }

  lemma Normalised(x: real, k: real)
    requires k > 0.0
    ensures (x / k) * k == x
  {
  }

  // The factor by cosine and sine of the angle, both scaled by the lengths.
  function AngleFactor(dot: real, cross: real, l: real): real {
    if dot < -0.999 * l then 2.0 else if 0.001 * l < Abs(cross) then 1.0 else 0.0
  }

  lemma AnglesCompared(dot: real, cross: real, l: real, scaledDot: real, scaledCross: real)
    requires l > 0.0 && dot * l == scaledDot && cross * l == scaledCross
    ensures AngleFactor(scaledDot, scaledCross, l) == if dot < -0.999 then 2.0 else if Abs(cross) > 0.001 then 1.0 else 0.0
  {
    Scaled(dot, -0.999, l);
    Scaled(0.001, Abs(cross), l);
    ScaledAbs(cross, l);
  }

  lemma UnitFactor(a: real, b: real, c: real, d: real, k: real, l: real, x1: real, y1: real, x2: real, y2: real)
    requires k > 0.0 && l > 0.0 && a * k == x1 && b * k == y1 && c * l == x2 && d * l == y2
    ensures UnitBendFactor(a, b, c, d) == AngleFactor(Inner(x1, y1, x2, y2), Outer(x1, y1, x2, y2), k * l)
  {
    ScaledProducts(a, b, c, d, k, l, x1, y1, x2, y2);
    ProductPositive(k, l);
    AnglesCompared(a * c + b * d, a * d - b * c, k * l, Inner(x1, y1, x2, y2), Outer(x1, y1, x2, y2));
  }

  function Inner(x1: real, y1: real, x2: real, y2: real): real { x1 * x2 + y1 * y2 }

  function Outer(x1: real, y1: real, x2: real, y2: real): real { x1 * y2 - y1 * x2 }

  // The factor free of fractions.
  lemma FactorByAngle(dx1: real, dy1: real, dx2: real, dy2: real, k: real, l: real)
    requires k >= 0.000001 && l >= 0.000001
    ensures BendFactor(dx1, dy1, dx2, dy2, k, l) == AngleFactor(Inner(dx1, dy1, dx2, dy2), Outer(dx1, dy1, dx2, dy2), k * l)
  {
    Normalised(dx1, k);
    Normalised(dy1, k);
    Normalised(dx2, l);
    Normalised(dy2, l);
    UnitFactor(dx1 / k, dy1 / k, dx2 / l, dy2 / l, k, l, dx1, dy1, dx2, dy2);
  }

  lemma TurnByAngle(m: RoadMap, p: int, c: int, n: int)
    requires m.InRange(p) && m.InRange(c) && m.InRange(n)
    requires m.span(p, c) >= 0.000001 && m.span(c, n) >= 0.000001
    ensures m.TurnFactor(p, c, n) == AngleFactor(Dot(m, p, c, n), Cross(m, p, c, n), m.span(p, c) * m.span(c, n))
  {
    FactorByAngle(m.nodes[c].x - m.nodes[p].x, m.nodes[c].y - m.nodes[p].y,
      m.nodes[n].x - m.nodes[c].x, m.nodes[n].y - m.nodes[c].y, m.span(p, c), m.span(c, n));
  }

  // Straight on, whatever the two lengths: nothing.
  lemma StraightCostsNothing(m: RoadMap, p: int, c: int, n: int, base: real)
    requires m.InRange(p) && m.InRange(c) && m.InRange(n)
    requires m.span(p, c) >= 0.000001 && m.span(c, n) >= 0.000001
    requires Cross(m, p, c, n) == 0.0 && Dot(m, p, c, n) >= 0.0
    ensures m.TurnPenaltyMm(p, c, n, base) == 0.0
  {
    TurnByAngle(m, p, c, n);
    ProductPositive(m.span(p, c), m.span(c, n));
  }

  // Squares of the two products add up to the product of the squared lengths.
  lemma LengthsOfProducts(dx1: real, dy1: real, dx2: real, dy2: real)
    ensures var dot, cross := dx1 * dx2 + dy1 * dy2, dx1 * dy2 - dy1 * dx2;
      dot * dot + cross * cross == (dx1 * dx1 + dy1 * dy1) * (dx2 * dx2 + dy2 * dy2)
  {
    var a, b, c, d := dx1 * dx2, dy1 * dy2, dx1 * dy2, dy1 * dx2;
    assert (a + b) * (a + b) == a * a + 2.0 * (a * b) + b * b;
    assert (c - d) * (c - d) == c * c - 2.0 * (c * d) + d * d;
    SquareOfProduct(dx1, dx2);
    SquareOfProduct(dy1, dy2);
    SquareOfProduct(dx1, dy2);
    SquareOfProduct(dy1, dx2);
    MiddleTerms(dx1, dy1, dx2, dy2);
    var s, t, u, v := dx1 * dx1, dy1 * dy1, dx2 * dx2, dy2 * dy2;
    assert (s + t) * (u + v) == s * u + t * v + s * v + t * u;
  }

  lemma MiddleTerms(a: real, b: real, c: real, d: real)
    ensures (a * c) * (b * d) == (a * d) * (b * c)
  {
    assert (a * c) * (b * d) == a * (c * (b * d));
    assert (a * d) * (b * c) == a * (d * (b * c));
    assert c * (b * d) == (b * c) * d;
  }

  lemma SpanProduct(m: RoadMap, p: int, c: int, n: int)
    requires m.InRange(p) && m.InRange(c) && m.InRange(n) && m.IsSpan(p, c) && m.IsSpan(c, n)
    ensures var l, dot, cross := m.span(p, c) * m.span(c, n), Dot(m, p, c, n), Cross(m, p, c, n);
      l * l == dot * dot + cross * cross
  {
    LengthsOfProducts(m.nodes[c].x - m.nodes[p].x, m.nodes[c].y - m.nodes[p].y,
      m.nodes[n].x - m.nodes[c].x, m.nodes[n].y - m.nodes[c].y);
    SquareOfProduct(m.span(p, c), m.span(c, n));
    Commuted(m.span(p, c) * m.span(p, c), m.span(c, n) * m.span(c, n));
  }

  lemma Commuted(x: real, y: real)
    ensures x * y == y * x
  {
  }

  // A right angle: the base.
  lemma RightAngleCostsBase(m: RoadMap, p: int, c: int, n: int, base: real)
    requires m.InRange(p) && m.InRange(c) && m.InRange(n) && m.IsSpan(p, c) && m.IsSpan(c, n)
    requires m.span(p, c) >= 0.000001 && m.span(c, n) >= 0.000001
    requires Dot(m, p, c, n) == 0.0
    ensures m.TurnPenaltyMm(p, c, n, base) == base
  {
    var l, cross := m.span(p, c) * m.span(c, n), Cross(m, p, c, n);
    TurnByAngle(m, p, c, n);
    ProductPositive(m.span(p, c), m.span(c, n));
    SpanProduct(m, p, c, n);
    SameSquare(cross, l);
  }

  lemma SameSquare(x: real, y: real)
    requires x * x == y * y && y >= 0.0
    ensures Abs(x) == y
  {
    AbsSquare(x);
    SquareOrder(Abs(x), y);
    SquareOrder(y, Abs(x));
  }

  // Straight back: twice the base.
  lemma ReversalCostsTwice(m: RoadMap, p: int, c: int, n: int, base: real)
    requires m.InRange(p) && m.InRange(c) && m.InRange(n) && m.IsSpan(p, c) && m.IsSpan(c, n)
    requires m.span(p, c) >= 0.000001 && m.span(c, n) >= 0.000001
    requires Cross(m, p, c, n) == 0.0 && Dot(m, p, c, n) <= 0.0
    ensures m.TurnPenaltyMm(p, c, n, base) == base * 2.0
  {
    var l, dot := m.span(p, c) * m.span(c, n), Dot(m, p, c, n);
    TurnByAngle(m, p, c, n);
    ProductPositive(m.span(p, c), m.span(c, n));
    SpanProduct(m, p, c, n);
    SameSquare(dot, l);
  }

  // What entering a node adds: its share of the penalty, cut to between none and all.
  lemma NodePenaltyMeans(m: RoadMap, nodePenalty: map<int, real>, nodePenaltyMm: real, v: int)
    requires m.InRange(v)
    ensures var cost := PenaltyCost(m, nodePenalty, nodePenaltyMm, v);
      && (nodePenaltyMm <= 0.0 || m.nodes[v].id !in nodePenalty ==> cost == 0.0)
      && (nodePenaltyMm > 0.0 && m.nodes[v].id in nodePenalty ==>
            var share := nodePenalty[m.nodes[v].id];
            && (share <= 0.0 ==> cost == 0.0) && (share >= 1.0 ==> cost == nodePenaltyMm)
            && (0.0 <= share <= 1.0 ==> cost == nodePenaltyMm * share))
  {
  }

  // The price of a step is the sum of the edge's length, the turn and the node's penalty; the
  // first step of a walk has no turn.
  lemma PriceIsSum(m: RoadMap, turn: real, nodePenalty: map<int, real>, nodePenaltyMm: real, p: int, u: int, v: int)
    requires m.InRange(u) && m.InRange(v)
    ensures PriceOf(m, turn, nodePenalty, nodePenaltyMm, p, u, v)
      - m.span(u, v) - PenaltyCost(m, nodePenalty, nodePenaltyMm, v) == if p < 0 then 0.0 else m.TurnPenaltyMm(p, u, v, turn)
  {
  }
}
