// `SegmentProfile`: accelerate, cruise, brake over one segment. Tolerances are zero; the peak
// speed's square root is a parameter that is constrained by its square.
module SegmentProfile {
  import opened Util
  import opened SpeedPlan

  datatype Profile = Profile(
    length: real,
    v0: real,
    v1: real,
    vPeak: real,
    tAcc: real,
    tCruise: real,
    tDec: real,
    tTotal: real,
    accel: real,
    decel: real)
  {
    // The phases fit together: each lasts as long as its change of speed takes.
    ghost predicate Valid() {
      && accel > 0.0 && decel > 0.0 && 0.0 <= v0 <= vPeak && 0.0 <= v1 <= vPeak
      && tAcc >= 0.0 && tCruise >= 0.0 && tDec >= 0.0 && tTotal == tAcc + tCruise + tDec
      && accel * tAcc == vPeak - v0 && decel * tDec == vPeak - v1
    }

    function Clamp(t: real): (r: real)
      ensures tTotal >= 0.0 ==> 0.0 <= r <= tTotal && (0.0 <= t <= tTotal ==> r == t)
    {
      Max(0.0, Min(tTotal, t))
    }

    function DistAt(time: real): real {
      var t := Clamp(time);
      if length <= 0.0 then 0.0 else DistIn(t)
    }

    // The distance after t seconds, for t within the profile.
    function DistIn(t: real): real {
      if t <= tAcc then v0 * t + 0.5 * accel * t * t
      else
        var t2 := t - tAcc;
        var dAcc := v0 * tAcc + 0.5 * accel * tAcc * tAcc;
        if t2 <= tCruise then dAcc + vPeak * t2
        else
          var t3 := t2 - tCruise;
          dAcc + vPeak * tCruise + vPeak * t3 - 0.5 * decel * t3 * t3
    }

    function SpeedAt(time: real): real {
      SpeedIn(Clamp(time))
    }

    function SpeedIn(t: real): real {
      if t <= tAcc then Max(0.0, v0 + accel * t)
      else
        var t2 := t - tAcc;
        if t2 <= tCruise then Max(0.0, vPeak)
        else Max(0.0, vPeak - decel * (t2 - tCruise))
    }
  }

  type Curve = real -> real

  // At time t a uniformly accelerated phase has run for x seconds from speed v and distance base.
  predicate IsOn(dist: Curve, speed: Curve, t: real, base: real, v: real, a: real, x: real) {
    dist(t) == base + (v * x + 0.5 * a * x * x) && speed(t) == v + a * x
  }

  // Between two times the distance covered is the mean of the two speeds times the time, the
  // speed stays between 0 and its top, and it changes no faster than the two rates allow.
  predicate MovesProperly(dist: Curve, speed: Curve, s: real, t: real, accel: real, decel: real, top: real) {
    && dist(t) - dist(s) == (speed(s) + speed(t)) / 2.0 * (t - s)
    && 0.0 <= speed(s) <= top && 0.0 <= speed(t) <= top
    && -(decel * (t - s)) <= speed(t) - speed(s) <= accel * (t - s)
  }

  // The mean value law of uniformly accelerated motion.
  lemma MeanSpeed(v: real, a: real, s: real, t: real)
    ensures (v * t + 0.5 * a * t * t) - (v * s + 0.5 * a * s * s) == ((v + a * s) + (v + a * t)) / 2.0 * (t - s)
  {
  }

  lemma UniformMotion(dist: Curve, speed: Curve, s: real, t: real, base: real, v: real, a: real, x: real,
                      accel: real, decel: real, top: real)
    requires s <= t && -decel <= a <= accel
    requires IsOn(dist, speed, s, base, v, a, x) && IsOn(dist, speed, t, base, v, a, x + (t - s))
    requires 0.0 <= speed(s) <= top && 0.0 <= speed(t) <= top
    ensures MovesProperly(dist, speed, s, t, accel, decel, top)
  {
    var y := x + (t - s);
    MeanSpeed(v, a, x, y);
    assert speed(t) - speed(s) == a * (t - s);
    MulMonotone(t - s, a, accel);
    MulMonotone(t - s, -decel, a);
  }

  function DistOf(p: Profile): Curve { t => p.DistIn(t) }

  function SpeedOf(p: Profile): Curve { t => p.SpeedIn(t) }

  predicate SamePhase(p: Profile, s: real, t: real) {
    || (0.0 <= s <= t <= p.tAcc)
    || (p.tAcc <= s <= t <= p.tAcc + p.tCruise)
    || (p.tAcc + p.tCruise <= s <= t <= p.tTotal)
  }

  function AccelerationDistance(p: Profile): real {
    p.v0 * p.tAcc + 0.5 * p.accel * p.tAcc * p.tAcc
  }

  // The formulas of the phases, which also hold on their borders.
  lemma InAcceleration(p: Profile, t: real)
    requires p.Valid() && 0.0 <= t <= p.tAcc
    ensures IsOn(DistOf(p), SpeedOf(p), t, 0.0, p.v0, p.accel, t)
    ensures 0.0 <= SpeedOf(p)(t) <= p.vPeak
  {
    ProductNonNegative(p.accel, t);
    ProductNonNegative(p.accel, p.tAcc - t);
  }

  lemma InCruise(p: Profile, t: real)
    requires p.Valid() && p.tAcc <= t <= p.tAcc + p.tCruise
    ensures IsOn(DistOf(p), SpeedOf(p), t, AccelerationDistance(p), p.vPeak, 0.0, t - p.tAcc)
    ensures SpeedOf(p)(t) == p.vPeak
  {
    if t == p.tAcc { InAcceleration(p, t); }
  }

  function CruiseEnd(p: Profile): real {
    AccelerationDistance(p) + p.vPeak * p.tCruise
  }

  lemma InBraking(p: Profile, t: real)
    requires p.Valid() && p.tAcc + p.tCruise <= t <= p.tTotal
    ensures IsOn(DistOf(p), SpeedOf(p), t, CruiseEnd(p), p.vPeak, -p.decel, t - p.tAcc - p.tCruise)
    ensures 0.0 <= SpeedOf(p)(t) <= p.vPeak
  {
    BrakingSpeed(p.vPeak, p.decel, p.tDec, t - p.tAcc - p.tCruise);
    if t == p.tAcc + p.tCruise {
      InCruise(p, t);
    } else {
      BrakingFormula(p, t);
    }
  }

  lemma BrakingFormula(p: Profile, t: real)
    requires p.tAcc + p.tCruise < t && p.tCruise >= 0.0
    requires p.vPeak - p.decel * (t - p.tAcc - p.tCruise) >= 0.0
    ensures IsOn(DistOf(p), SpeedOf(p), t, CruiseEnd(p), p.vPeak, -p.decel, t - p.tAcc - p.tCruise)
  {
    NegatedSquare(p.decel, t - p.tAcc - p.tCruise);
  }

  lemma BrakingSpeed(v: real, decel: real, duration: real, x: real)
    requires decel >= 0.0 && 0.0 <= x <= duration && decel * duration <= v
    ensures 0.0 <= v - decel * x <= v && v - decel * x == v + (-decel) * x
  {
    ProductNonNegative(decel, x);
    MulMonotone(decel, x, duration);
  }

  lemma NegatedSquare(a: real, x: real)
    ensures 0.5 * (-a) * x * x == -(0.5 * a * x * x) && (-a) * x == -(a * x)
  {
  }

  // A profile moves properly between any two times of one phase.
  lemma MotionIsProper(p: Profile, s: real, t: real)
    requires p.Valid() && SamePhase(p, s, t)
    ensures MovesProperly(DistOf(p), SpeedOf(p), s, t, p.accel, p.decel, p.vPeak)
  {
    if 0.0 <= s <= t <= p.tAcc {
      InAcceleration(p, s);
      InAcceleration(p, t);
      UniformMotion(DistOf(p), SpeedOf(p), s, t, 0.0, p.v0, p.accel, s, p.accel, p.decel, p.vPeak);
    } else if p.tAcc <= s <= t <= p.tAcc + p.tCruise {
      InCruise(p, s);
      InCruise(p, t);
      UniformMotion(DistOf(p), SpeedOf(p), s, t, AccelerationDistance(p), p.vPeak, 0.0, s - p.tAcc, p.accel, p.decel, p.vPeak);
    } else {
      InBraking(p, s);
      InBraking(p, t);
      UniformMotion(DistOf(p), SpeedOf(p), s, t, CruiseEnd(p), p.vPeak, -p.decel, s - p.tAcc - p.tCruise,
                    p.accel, p.decel, p.vPeak);
    }
  }

  lemma NeverBack(dist: Curve, speed: Curve, s: real, t: real, accel: real, decel: real, top: real)
    requires s <= t && MovesProperly(dist, speed, s, t, accel, decel, top)
    ensures dist(s) <= dist(t)
  {
    ProductNonNegative((speed(s) + speed(t)) / 2.0, t - s);
  }

  lemma PhaseMonotone(p: Profile, s: real, t: real)
    requires p.Valid() && SamePhase(p, s, t)
    ensures DistOf(p)(s) <= DistOf(p)(t)
  {
    MotionIsProper(p, s, t);
    NeverBack(DistOf(p), SpeedOf(p), s, t, p.accel, p.decel, p.vPeak);
  }

  // Any stretch of time is cut at the phase borders.
  lemma DistInMonotone(p: Profile, s: real, t: real)
    requires p.Valid() && 0.0 <= s <= t <= p.tTotal
    ensures DistOf(p)(s) <= DistOf(p)(t)
  {
    var a, c := p.tAcc, p.tAcc + p.tCruise;
    if s <= a && a <= t { PhaseMonotone(p, s, a); }
    if s <= c && c <= t { PhaseMonotone(p, if s <= a then a else s, c); }
    PhaseMonotone(p, if c <= t && s <= c then c else if a <= t && s <= a then a else s, t);
  }

  // A vehicle never moves back, whatever the two times.
  lemma DistAtMonotone(p: Profile, s: real, t: real)
    requires p.Valid() && s <= t
    ensures 0.0 <= p.DistAt(s) <= p.DistAt(t)
  {
    DistInMonotone(p, p.Clamp(s), p.Clamp(t));
    DistInMonotone(p, 0.0, p.Clamp(s));
    InAcceleration(p, 0.0);
  }

  // Twice the rate times the distance is the difference of the squared speeds.
  lemma SpeedGainDistance(rate: real, low: real, high: real, t: real)
    requires rate * t == high - low
    ensures 2.0 * rate * (low * t + 0.5 * rate * t * t) == high * high - low * low
    ensures 2.0 * rate * (high * t - 0.5 * rate * t * t) == high * high - low * low
  {
    assert rate * (low * t) == low * (rate * t);
    assert rate * (high * t) == high * (rate * t);
    assert rate * (rate * t * t) == (rate * t) * (rate * t);
  }

  // The whole distance of a profile, by phases.
  function BrakingDistance(p: Profile): real {
    p.vPeak * p.tDec - 0.5 * p.decel * p.tDec * p.tDec
  }

  lemma WholeDistance(p: Profile)
    requires p.Valid()
    ensures p.DistIn(p.tTotal) == CruiseEnd(p) + BrakingDistance(p)
    ensures 2.0 * p.accel * AccelerationDistance(p) == p.vPeak * p.vPeak - p.v0 * p.v0
    ensures 2.0 * p.decel * BrakingDistance(p) == p.vPeak * p.vPeak - p.v1 * p.v1
  {
    AtTheEnd(p);
    SpeedGainDistance(p.accel, p.v0, p.vPeak, p.tAcc);
    SpeedGainDistance(p.decel, p.v1, p.vPeak, p.tDec);
  }

  lemma AtTheEnd(p: Profile)
    requires p.Valid()
    ensures p.DistIn(p.tTotal) == CruiseEnd(p) + BrakingDistance(p)
  {
    AtTheEndOn(p, DistOf(p), SpeedOf(p));
  }

  lemma AtTheEndOn(p: Profile, dist: Curve, speed: Curve)
    requires p.Valid() && dist == DistOf(p) && speed == SpeedOf(p)
    ensures dist(p.tTotal) == CruiseEnd(p) + BrakingDistance(p)
  {
    InBraking(p, p.tTotal);
    assert p.tTotal - p.tAcc - p.tCruise == p.tDec;
    BrakedAfter(dist, speed, p.tTotal, CruiseEnd(p), p.vPeak, p.decel, p.tDec, p.tDec);
  }

  lemma BrakedAfter(dist: Curve, speed: Curve, t: real, base: real, v: real, decel: real, x: real, duration: real)
    requires IsOn(dist, speed, t, base, v, -decel, x) && x == duration
    ensures dist(t) == base + (v * duration - 0.5 * decel * duration * duration)
  {
    NegatedSquare(decel, x);
  }

  // The square of the speed at which accelerating and braking meet.
  function PeakSquare(d: real, v0: real, v1: real, a: real, b: real): real
    requires a > 0.0 && b > 0.0
  {
    SumOfReciprocals(a, b);
    (2.0 * d + v0 * v0 / a + v1 * v1 / b) / (1.0 / a + 1.0 / b)
  }

  lemma SumOfReciprocals(a: real, b: real)
    requires a > 0.0 && b > 0.0
    ensures 1.0 / a + 1.0 / b > 0.0 && a * b * (1.0 / a + 1.0 / b) == a + b
  {
    Quotient(1.0, a);
    Quotient(1.0, b);
    assert a * b * (1.0 / a + 1.0 / b) == b * (a * (1.0 / a)) + a * (b * (1.0 / b));
  }

  lemma Quotient(x: real, a: real)
    requires a > 0.0
    ensures a * (x / a) == x && (x >= 0.0 ==> x / a >= 0.0) && (x > 0.0 ==> x / a > 0.0)
  {
  }

  // Free of fractions.
  lemma PeakSquareScaled(d: real, v0: real, v1: real, a: real, b: real)
    requires a > 0.0 && b > 0.0
    ensures (a + b) * PeakSquare(d, v0, v1, a, b) == 2.0 * d * (a * b) + b * (v0 * v0) + a * (v1 * v1)
  {
    var top, bottom := 2.0 * d + v0 * v0 / a + v1 * v1 / b, 1.0 / a + 1.0 / b;
    SumOfReciprocals(a, b);
    Quotient(top, bottom);
    Quotient(v0 * v0, a);
    Quotient(v1 * v1, b);
    assert a * b * top == 2.0 * d * (a * b) + b * (a * (v0 * v0 / a)) + a * (b * (v1 * v1 / b));
    assert (a + b) * (top / bottom) == a * b * (bottom * (top / bottom));
  }

  // Either end of the segment can be reached from the other within the rates.
  predicate AreConsecutive(d: real, v0: real, v1: real, a: real, b: real) {
    v1 * v1 <= v0 * v0 + 2.0 * a * d && v0 * v0 <= v1 * v1 + 2.0 * b * d
  }

  // The meeting speed is below an end's speed exactly when that end cannot be reached.
  lemma PeakAboveEnds(d: real, v0: real, v1: real, a: real, b: real)
    requires a > 0.0 && b > 0.0
    ensures PeakSquare(d, v0, v1, a, b) >= v0 * v0 <==> v0 * v0 <= v1 * v1 + 2.0 * b * d
    ensures PeakSquare(d, v0, v1, a, b) >= v1 * v1 <==> v1 * v1 <= v0 * v0 + 2.0 * a * d
  {
    var p := PeakSquare(d, v0, v1, a, b);
    PeakSquareScaled(d, v0, v1, a, b);
    assert (a + b) * (p - v0 * v0) == a * (2.0 * b * d + v1 * v1 - v0 * v0);
    assert (a + b) * (p - v1 * v1) == b * (2.0 * a * d + v0 * v0 - v1 * v1);
    SameSign(a + b, p - v0 * v0, a, 2.0 * b * d + v1 * v1 - v0 * v0);
    SameSign(a + b, p - v1 * v1, b, 2.0 * a * d + v0 * v0 - v1 * v1);
  }

  lemma SameSign(c: real, x: real, e: real, y: real)
    requires c > 0.0 && e > 0.0 && c * x == e * y
    ensures x >= 0.0 <==> y >= 0.0
  {
    if x >= 0.0 { ProductNonNegative(c, x); }
    if y >= 0.0 { ProductNonNegative(e, y); }
    if x < 0.0 { assert c * x < 0.0; }
    if y < 0.0 { assert e * y < 0.0; }
  }

  const SLOWEST: real := 0.000000001

  // `root` stands for the square root of the meeting speed's square, cut off at zero.
  predicate IsRoot(root: real, square: real) {
    root >= 0.0 && root * root == Max(0.0, square)
  }

  function BuildSegmentProfile(length: real, startSpeed: real, endSpeed: real, maxSpeed: real, accelRate: real,
                               decelRate: real, root: real): Profile
  {
    var d, v0, v1, vMax := Max(0.0, length), Max(0.0, startSpeed), Max(0.0, endSpeed), Max(0.0, maxSpeed);
    var accel, decel := Rate(accelRate), Rate(decelRate);
    var floor := Max(v0, v1);
    if d <= 0.0 then Profile(d, v0, v1, floor, 0.0, 0.0, 0.0, 0.0, accel, decel)
    else
      var tri := if root < floor then floor else root;
      if tri <= vMax then
        var vPeak := Max(floor, tri);
        Cruising(d, v0, v1, vPeak, 0.0, accel, decel)
      else
        var vPeak := Max(floor, vMax);
        var rest := Max(0.0, d - Ramp(v0, vPeak, accel) - Ramp(v1, vPeak, decel));
        Cruising(d, v0, v1, vPeak, rest / Max(SLOWEST, vPeak), accel, decel)
  }

  // The distance between the speeds v and vPeak.
  function Ramp(v: real, vPeak: real, rate: real): real
    requires rate > 0.0
  {
    if vPeak > v then (vPeak * vPeak - v * v) / (2.0 * rate) else 0.0
  }

  function Cruising(d: real, v0: real, v1: real, vPeak: real, tCruise: real, accel: real, decel: real): Profile
    requires accel > 0.0 && decel > 0.0
  {
    var tAcc, tDec := Max(0.0, (vPeak - v0) / accel), Max(0.0, (vPeak - v1) / decel);
    Profile(d, v0, v1, vPeak, tAcc, tCruise, tDec, tAcc + tCruise + tDec, accel, decel)
  }

  lemma CruisingIsValid(d: real, v0: real, v1: real, vPeak: real, tCruise: real, accel: real, decel: real)
    requires accel > 0.0 && decel > 0.0 && 0.0 <= v0 <= vPeak && 0.0 <= v1 <= vPeak && tCruise >= 0.0
    ensures Cruising(d, v0, v1, vPeak, tCruise, accel, decel).Valid()
  {
    Quotient(vPeak - v0, accel);
    Quotient(vPeak - v1, decel);
  }

  // Ramps whose peak squares to x cover the segment exactly at the meeting speed, less below it.
  lemma RampsFit(d: real, v0: real, v1: real, vPeak: real, a: real, b: real, up: real, down: real)
    requires a > 0.0 && b > 0.0
    requires 2.0 * a * up == vPeak * vPeak - v0 * v0 && 2.0 * b * down == vPeak * vPeak - v1 * v1
    ensures vPeak * vPeak == PeakSquare(d, v0, v1, a, b) <==> up + down == d
    ensures vPeak * vPeak <= PeakSquare(d, v0, v1, a, b) ==> up + down <= d
  {
    var p := PeakSquare(d, v0, v1, a, b);
    PeakSquareScaled(d, v0, v1, a, b);
    assert 2.0 * (a * b) * (up + down) == b * (2.0 * a * up) + a * (2.0 * b * down);
    assert (a + b) * (p - vPeak * vPeak) == 2.0 * (a * b) * (d - (up + down));
    ProductPositive(a, b);
    SameSign(a + b, p - vPeak * vPeak, 2.0 * (a * b), d - (up + down));
    SameSign(a + b, vPeak * vPeak - p, 2.0 * (a * b), (up + down) - d);
  }

  // With speeds that can follow each other the clamp of the peak speed never fires.
  lemma ClampNeverFires(d: real, v0: real, v1: real, a: real, b: real, root: real)
    requires a > 0.0 && b > 0.0 && v0 >= 0.0 && v1 >= 0.0
    requires IsRoot(root, PeakSquare(d, v0, v1, a, b))
    ensures AreConsecutive(d, v0, v1, a, b) ==>
      Max(v0, v1) <= root && root * root == PeakSquare(d, v0, v1, a, b)
    ensures d >= 0.0 && Max(v0, v1) <= root && root > 0.0 ==> AreConsecutive(d, v0, v1, a, b)
  {
    PeakAboveEnds(d, v0, v1, a, b);
    if AreConsecutive(d, v0, v1, a, b) {
      SquareOrder(v0, root);
      SquareOrder(v1, root);
    } else if Max(v0, v1) <= root {
      MulMonotone(v0, v0, root);
      MulMonotone(root, v0, root);
      MulMonotone(v1, v1, root);
      MulMonotone(root, v1, root);
    }
  }

  lemma RampsOf(p: Profile)
    requires p.Valid()
    ensures PeaksAtMeeting(p) <==> AccelerationDistance(p) + BrakingDistance(p) == p.length
    ensures PeaksBelowMeeting(p) ==> AccelerationDistance(p) + BrakingDistance(p) <= p.length
  {
    WholeDistance(p);
    RampsFit(p.length, p.v0, p.v1, p.vPeak, p.accel, p.decel, AccelerationDistance(p), BrakingDistance(p));
  }

  lemma EndDistance(p: Profile)
    requires p.Valid() && p.length > 0.0
    ensures p.DistAt(p.tTotal) == AccelerationDistance(p) + p.vPeak * p.tCruise + BrakingDistance(p)
  {
    AtTheEnd(p);
  }

  predicate Covers(p: Profile) { p.DistAt(p.tTotal) == p.length }

  // A cruise of what the ramps leave covers the segment exactly when the peak speed is not
  // below the smallest divisor, or there is nothing to cruise.
  lemma CruiseCovers(p: Profile, up: real, down: real)
    requires p.vPeak >= 0.0 && up + down <= p.length
    requires p.DistAt(p.tTotal) == up + p.vPeak * p.tCruise + down
    requires p.tCruise == (p.length - up - down) / Max(SLOWEST, p.vPeak)
    ensures Covers(p) <==> up + down == p.length || p.vPeak >= SLOWEST
  {
    CruiseTime(p.length - up - down, p.vPeak, p.tCruise);
  }

  lemma CruiseTime(rest: real, v: real, time: real)
    requires rest >= 0.0 && v >= 0.0 && time == rest / Max(SLOWEST, v)
    ensures v * time == rest <==> rest == 0.0 || v >= SLOWEST
  {
    Quotient(rest, Max(SLOWEST, v));
    if v < SLOWEST {
      assert rest == SLOWEST * time;
      SlowerCoversLess(v, SLOWEST, time);
    }
  }

  lemma SlowerCoversLess(v: real, w: real, time: real)
    requires v < w && time >= 0.0
    ensures v * time == w * time <==> time == 0.0
  {
    if time > 0.0 {
      ProductPositive(w - v, time);
      assert w * time == v * time + (w - v) * time;
    }
  }

  lemma RampDistance(v: real, vPeak: real, rate: real, dist: real)
    requires rate > 0.0 && 0.0 <= v <= vPeak && 2.0 * rate * dist == vPeak * vPeak - v * v
    ensures dist == Ramp(v, vPeak, rate)
  {
    Quotient(vPeak * vPeak - v * v, 2.0 * rate);
    if vPeak == v { assert dist == 0.0; }
  }

  // The ramps of a profile as the builder measures them.
  lemma RampsAsBuilt(p: Profile)
    requires p.Valid()
    ensures AccelerationDistance(p) == Ramp(p.v0, p.vPeak, p.accel)
    ensures BrakingDistance(p) == Ramp(p.v1, p.vPeak, p.decel)
  {
    WholeDistance(p);
    RampDistance(p.v0, p.vPeak, p.accel, AccelerationDistance(p));
    RampDistance(p.v1, p.vPeak, p.decel, BrakingDistance(p));
  }

  // The arguments of the builder after its own clamping.
  datatype Segment = Segment(d: real, v0: real, v1: real, vMax: real, accel: real, decel: real, root: real)
  {
    predicate IsClean() {
      d >= 0.0 && v0 >= 0.0 && v1 >= 0.0 && vMax >= 0.0 && accel >= 0.000001 && decel >= 0.000001
    }

    predicate Valid() {
      IsClean() && AreConsecutive(d, v0, v1, accel, decel) && IsRoot(root, PeakSquare(d, v0, v1, accel, decel))
    }

    // Some speed of the segment reaches the smallest divisor, or the speed at which
    // accelerating and braking meet.
    predicate CanMove() {
      Max(Max(v0, v1), vMax) >= Min(root, SLOWEST)
    }

    function Profile(): Profile {
      BuildSegmentProfile(d, v0, v1, vMax, accel, decel, root)
    }
  }

  lemma StandingStill(v0: real, v1: real)
    requires v0 >= 0.0 && v1 >= 0.0 && v0 * v0 == v1 * v1
    ensures v0 == v1
  {
    SquareOrder(v0, v1);
    SquareOrder(v1, v0);
  }

  // The peak squares to the meeting speed's square, or to no more.
  predicate PeaksAtMeeting(p: Profile) {
    p.accel > 0.0 && p.decel > 0.0 && p.vPeak * p.vPeak == PeakSquare(p.length, p.v0, p.v1, p.accel, p.decel)
  }

  predicate PeaksBelowMeeting(p: Profile) {
    p.accel > 0.0 && p.decel > 0.0 && p.vPeak * p.vPeak <= PeakSquare(p.length, p.v0, p.v1, p.accel, p.decel)
  }

  // Ends below the peak, phases in proportion, and the given time of cruising.
  predicate IsBuilt(p: Profile, cruise: real) {
    && p.accel > 0.0 && p.decel > 0.0 && p.length > 0.0 && 0.0 <= p.v0 <= p.vPeak && 0.0 <= p.v1 <= p.vPeak
    && p == Cruising(p.length, p.v0, p.v1, p.vPeak, cruise, p.accel, p.decel)
  }

  // The time it takes to cruise what the ramps leave.
  function RestSeconds(p: Profile): real
    requires p.accel > 0.0 && p.decel > 0.0
  {
    Max(0.0, p.length - Ramp(p.v0, p.vPeak, p.accel) - Ramp(p.v1, p.vPeak, p.decel)) / Max(SLOWEST, p.vPeak)
  }

  predicate CruisesRest(p: Profile) {
    p.accel > 0.0 && p.decel > 0.0 && IsBuilt(p, RestSeconds(p))
  }

  lemma TriangleCovers(p: Profile)
    requires IsBuilt(p, 0.0) && PeaksAtMeeting(p)
    ensures p.Valid() && Covers(p)
  {
    CruisingIsValid(p.length, p.v0, p.v1, p.vPeak, 0.0, p.accel, p.decel);
    RampsOf(p);
    EndDistance(p);
  }

  lemma CruisesRestIsValid(p: Profile)
    requires CruisesRest(p)
    ensures p.Valid() && p.tCruise == RestSeconds(p)
  {
    Quotient(Max(0.0, p.length - Ramp(p.v0, p.vPeak, p.accel) - Ramp(p.v1, p.vPeak, p.decel)), Max(SLOWEST, p.vPeak));
    CruisingIsValid(p.length, p.v0, p.v1, p.vPeak, RestSeconds(p), p.accel, p.decel);
  }

  lemma RestIsCruised(p: Profile)
    requires CruisesRest(p) && PeaksBelowMeeting(p)
    ensures p.Valid() && (Covers(p) <==> PeaksAtMeeting(p) || p.vPeak >= SLOWEST)
  {
    CruisesRestIsValid(p);
    RampsOf(p);
    CruiseOfRest(p);
  }

  lemma CruiseOfRest(p: Profile)
    requires p.Valid() && p.length > 0.0 && p.tCruise == RestSeconds(p)
    requires AccelerationDistance(p) + BrakingDistance(p) <= p.length
    ensures Covers(p) <==> AccelerationDistance(p) + BrakingDistance(p) == p.length || p.vPeak >= SLOWEST
  {
    RampsAsBuilt(p);
    EndDistance(p);
    CruiseCovers(p, AccelerationDistance(p), BrakingDistance(p));
  }

  // The profile carries the segment's own numbers.
  predicate Carries(p: Profile, s: Segment) {
    p.length == s.d && p.v0 == s.v0 && p.v1 == s.v1 && p.accel == s.accel && p.decel == s.decel
  }

  lemma BuiltTriangle(s: Segment)
    requires s.IsClean() && s.d > 0.0 && Max(s.v0, s.v1) <= s.root <= s.vMax
    ensures Carries(s.Profile(), s) && IsBuilt(s.Profile(), 0.0) && s.Profile().vPeak == s.root
  {
  }

  lemma BuiltCruise(s: Segment)
    requires s.IsClean() && s.d > 0.0 && Max(s.v0, s.v1) <= s.root && s.vMax < s.root
    ensures Carries(s.Profile(), s) && CruisesRest(s.Profile()) && s.Profile().vPeak == Max(Max(s.v0, s.v1), s.vMax)
  {
  }

  lemma RootIsAtMeeting(p: Profile, s: Segment)
    requires s.Valid() && Carries(p, s) && 0.0 <= p.vPeak <= s.root
    ensures PeaksBelowMeeting(p) && (p.vPeak == s.root <==> PeaksAtMeeting(p))
  {
    ClampNeverFires(s.d, s.v0, s.v1, s.accel, s.decel, s.root);
    PeakAgainstRoot(p, s.root);
  }

  lemma PeakAgainstRoot(p: Profile, root: real)
    requires p.accel > 0.0 && p.decel > 0.0 && 0.0 <= p.vPeak <= root
    requires root * root == PeakSquare(p.length, p.v0, p.v1, p.accel, p.decel)
    ensures PeaksBelowMeeting(p) && (p.vPeak == root <==> PeaksAtMeeting(p))
  {
    BelowRoot(p.vPeak, root, PeakSquare(p.length, p.v0, p.v1, p.accel, p.decel));
  }

  lemma BelowRoot(x: real, root: real, square: real)
    requires 0.0 <= x <= root && root * root == square
    ensures x * x <= square && (x == root <==> x * x == square)
  {
    SquareMonotone(x, root);
    if x * x == square { StandingStill(x, root); }
  }

  // For speeds that can follow each other the built profile is well-formed, never exceeds the
  // larger of the end speeds and the limit, and ends exactly at the segment's length just
  // when the segment allows it to move.
  lemma ProfileCoversSegment(s: Segment)
    requires s.Valid()
    ensures s.Profile().Valid() && Carries(s.Profile(), s)
    ensures s.Profile().vPeak <= Max(Max(s.v0, s.v1), s.vMax)
    ensures Covers(s.Profile()) <==> s.CanMove()
  {
    ClampNeverFires(s.d, s.v0, s.v1, s.accel, s.decel, s.root);
    if s.d == 0.0 {
      StandsStill(s);
    } else if s.root <= s.vMax {
      BuiltTriangle(s);
      RootIsAtMeeting(s.Profile(), s);
      TriangleCovers(s.Profile());
    } else {
      BuiltCruise(s);
      RootIsAtMeeting(s.Profile(), s);
      RestIsCruised(s.Profile());
    }
  }

  lemma StandsStill(s: Segment)
    requires s.Valid() && s.d == 0.0
    ensures s.Profile().Valid() && Carries(s.Profile(), s) && Covers(s.Profile())
    ensures s.Profile().vPeak <= Max(Max(s.v0, s.v1), s.vMax) && s.CanMove()
  {
    StandingStill(s.v0, s.v1);
    PeakAboveEnds(s.d, s.v0, s.v1, s.accel, s.decel);
    PeakSquareScaled(s.d, s.v0, s.v1, s.accel, s.decel);
    ScaledBack(s.accel + s.decel, PeakSquare(s.d, s.v0, s.v1, s.accel, s.decel), s.v0 * s.v0);
    StandingStill(s.root, s.v0);
  }

  lemma ScaledBack(c: real, x: real, y: real)
    requires c > 0.0 && c * x == c * y
    ensures x == y
  {
    assert c * (x - y) == 0.0;
  }

  // Where neither end has a speed and the limit is zero, the built profile never moves.
  lemma ZeroLimitNeverCovers(s: Segment)
    requires s.Valid() && s.v0 == 0.0 && s.v1 == 0.0 && s.vMax == 0.0 && s.d > 0.0
    ensures !Covers(s.Profile())
  {
    PeakSquareScaled(s.d, s.v0, s.v1, s.accel, s.decel);
    ProductPositive(s.accel, s.decel);
    ProductPositive(2.0 * s.d, s.accel * s.decel);
    if s.root == 0.0 { assert PeakSquare(s.d, s.v0, s.v1, s.accel, s.decel) <= 0.0; }
    ProfileCoversSegment(s);
  }

  // One such segment, a metre long.
  lemma ZeroLimitExample()
    ensures Segment(1.0, 0.0, 0.0, 0.0, 1.0, 1.0, 1.0).Valid()
    ensures !Covers(Segment(1.0, 0.0, 0.0, 0.0, 1.0, 1.0, 1.0).Profile())
  {
    PeakSquareScaled(1.0, 0.0, 0.0, 1.0, 1.0);
    ZeroLimitNeverCovers(Segment(1.0, 0.0, 0.0, 0.0, 1.0, 1.0, 1.0));
  }

  // The peak is as high as the limits allow: the meeting speed, unless the limit or an end speed
  // above the limit is lower; and there is no cruising below the limit.
  lemma PeakIsHighest(s: Segment)
    requires s.Valid() && s.d > 0.0
    ensures s.Profile().vPeak == Min(s.root, Max(Max(s.v0, s.v1), s.vMax))
    ensures s.root <= s.vMax ==> s.Profile().tCruise == 0.0
  {
    ClampNeverFires(s.d, s.v0, s.v1, s.accel, s.decel, s.root);
    if s.root <= s.vMax { BuiltTriangle(s); } else { BuiltCruise(s); }
  }

  // A profile starts and ends at the speeds it was built for.
  lemma SpeedsAtEnds(p: Profile)
    requires p.Valid()
    ensures p.DistAt(0.0) == 0.0 && p.SpeedAt(0.0) == p.v0 && p.SpeedAt(p.tTotal) == p.v1
  {
    InAcceleration(p, 0.0);
    InBraking(p, p.tTotal);
    assert SpeedOf(p)(0.0) == p.SpeedIn(0.0) && SpeedOf(p)(p.tTotal) == p.SpeedIn(p.tTotal);
  }

  // Any two consecutive speeds of a plan can follow each other.
  lemma PlannedSpeedsAreConsecutive(q: seq<real>, caps: seq<real>, dist: seq<real>, accel: real, decel: real,
                                    i: nat, v0: real, v1: real)
    requires |dist| >= |caps| - 1 && accel >= 0.0 && decel >= 0.0
    requires IsPlan(q, caps, dist, accel, decel) && i < |q| - 1
    requires v0 * v0 == q[i] && v1 * v1 == q[i + 1]
    ensures AreConsecutive(Max(0.0, dist[i]), v0, v1, accel, decel)
  {
    assert q[i + 1] <= q[i] + Gain(dist, accel, i) && q[i] <= q[i + 1] + Gain(dist, decel, i);
  }

  // From speed plan to motion: over every segment of the planned speeds the vehicle leaves
  // with the first speed, arrives with the second and ends exactly at the segment's length
  // just when the segment allows it to move.
  lemma PlannedSegmentIsDriven(q: seq<real>, nodeVmax: seq<real>, dist: seq<real>, accel: real, decel: real,
                               startSpeed: Option<real>, i: nat, s: Segment)
    requires |dist| >= |nodeVmax| - 1
    requires IsGreatest(q, Caps(nodeVmax, startSpeed), dist, Rate(accel), Rate(decel)) && i < |q| - 1
    requires s.IsClean() && s.d == Max(0.0, dist[i]) && s.accel == Rate(accel) && s.decel == Rate(decel)
    requires s.v0 * s.v0 == q[i] && s.v1 * s.v1 == q[i + 1]
    requires IsRoot(s.root, PeakSquare(s.d, s.v0, s.v1, s.accel, s.decel))
    ensures var p := s.Profile();
      && p.Valid() && p.DistAt(0.0) == 0.0 && p.SpeedAt(0.0) == s.v0 && p.SpeedAt(p.tTotal) == s.v1
      && (Covers(p) <==> s.CanMove())
  {
    PlannedSpeedsAreConsecutive(q, Caps(nodeVmax, startSpeed), dist, Rate(accel), Rate(decel), i, s.v0, s.v1);
    ProfileCoversSegment(s);
    SpeedsAtEnds(s.Profile());
  }
}
