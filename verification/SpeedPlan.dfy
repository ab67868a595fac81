// `_forward_backward_speeds` on squared speeds: the square of min(v, sqrt(x)) is the smaller
// of the squares, so no root is taken.
module SpeedPlan {
  import opened Util

  // The squared speed gained, or shed, over the segment after node i.
  function Gain(dist: seq<real>, rate: real, i: int): (g: real)
    requires 0 <= i < |dist| && rate >= 0.0
    ensures g >= 0.0
  {
    MulMonotone(2.0 * rate, 0.0, Max(0.0, dist[i]));
    2.0 * rate * Max(0.0, dist[i])
  }

  function Cap(nodeVmax: seq<real>, startSpeed: Option<real>, i: int): (c: real)
    requires 0 <= i < |nodeVmax|
    ensures c >= 0.0
  {
    Square(Max(0.0, if i == 0 && startSpeed.Some? then startSpeed.value else nodeVmax[i]))
  }

  // The squared limits the plan starts from; a given start speed replaces the first limit.
  function Caps(nodeVmax: seq<real>, startSpeed: Option<real>): (caps: seq<real>)
    ensures |caps| == |nodeVmax| && forall i :: 0 <= i < |caps| ==> caps[i] >= 0.0
  {
    seq(|nodeVmax|, i requires 0 <= i < |nodeVmax| => Cap(nodeVmax, startSpeed, i))
  }

  function Square(x: real): (r: real)
    ensures r >= 0.0
  {
    x * x
  }

  // Squared speeds within the node limits that a vehicle can follow: over each segment they
  // rise by no more than accelerating and fall by no more than braking allows.
  ghost predicate IsPlan(q: seq<real>, caps: seq<real>, dist: seq<real>, accel: real, decel: real)
    requires |dist| >= |caps| - 1 && accel >= 0.0 && decel >= 0.0
  {
    && |q| == |caps| && (forall i {:trigger q[i]} :: 0 <= i < |q| ==> 0.0 <= q[i] <= caps[i])
    && (forall i {:trigger Gain(dist, accel, i)} :: 0 <= i < |q| - 1 ==> q[i + 1] <= q[i] + Gain(dist, accel, i))
    && (forall i {:trigger Gain(dist, decel, i)} :: 0 <= i < |q| - 1 ==> q[i] <= q[i + 1] + Gain(dist, decel, i))
  }

  ghost predicate IsGreatest(q: seq<real>, caps: seq<real>, dist: seq<real>, accel: real, decel: real)
    requires |dist| >= |caps| - 1 && accel >= 0.0 && decel >= 0.0
  {
    && IsPlan(q, caps, dist, accel, decel)
    && forall p :: IsPlan(p, caps, dist, accel, decel) ==> IsBelow(p, q)
  }

  predicate IsBelow(p: seq<real>, q: seq<real>) {
    |p| == |q| && forall i {:trigger p[i]} {:trigger q[i]} :: 0 <= i < |q| ==> p[i] <= q[i]
  }

  // After the forward pass: within the limits, accelerating no harder than allowed, and not
  // below any plan.
  ghost predicate IsForward(q: seq<real>, caps: seq<real>, dist: seq<real>, accel: real, decel: real, n: nat)
    requires |dist| >= |caps| - 1 && accel >= 0.0 && decel >= 0.0
  {
    && |q| == |caps| && n <= |q|
    && (forall i {:trigger q[i]} :: 0 <= i < |q| ==> 0.0 <= q[i] <= caps[i] && (n <= i ==> q[i] == caps[i]))
    && (forall i {:trigger Gain(dist, accel, i)} :: 0 <= i < n - 1 ==> q[i + 1] <= q[i] + Gain(dist, accel, i))
    && forall p :: IsPlan(p, caps, dist, accel, decel) ==> IsBelow(p, q)
  }

  method ForwardPass(caps: seq<real>, dist: seq<real>, accel: real, ghost decel: real) returns (q: seq<real>)
    requires |dist| >= |caps| - 1 && accel >= 0.0 && decel >= 0.0
    requires forall i :: 0 <= i < |caps| ==> caps[i] >= 0.0
    ensures IsForward(q, caps, dist, accel, decel, |caps|)
  {
    q := caps;
    if |caps| == 0 { return; }
    for i := 0 to |caps| - 1
      invariant IsForward(q, caps, dist, accel, decel, i + 1)
    {
      var next := Min(q[i + 1], Max(0.0, q[i] + Gain(dist, accel, i)));
      forall p | IsPlan(p, caps, dist, accel, decel) ensures IsBelow(p, q[i + 1 := next]) {
        assert p[i + 1] <= p[i] + Gain(dist, accel, i);
        assert IsBelow(p, q);
      }
      q := q[i + 1 := next];
    }
  }

  // During the backward pass nodes from n on also brake no harder than allowed.
  ghost predicate IsBackward(q: seq<real>, caps: seq<real>, dist: seq<real>, accel: real, decel: real, n: nat)
    requires |dist| >= |caps| - 1 && accel >= 0.0 && decel >= 0.0
  {
    && IsForward(q, caps, dist, accel, decel, |caps|)
    && forall i {:trigger Gain(dist, decel, i)} :: n <= i < |q| - 1 ==> q[i] <= q[i + 1] + Gain(dist, decel, i)
  }

  // Lowering node n to what braking allows keeps the forward limits: the new value is either
  // the old one or no smaller than the next node's.
  lemma LowerKeeps(q: seq<real>, caps: seq<real>, dist: seq<real>, accel: real, decel: real, n: nat)
    requires |dist| >= |caps| - 1 && accel >= 0.0 && decel >= 0.0 && n < |caps| - 1
    requires IsBackward(q, caps, dist, accel, decel, n + 1)
    ensures IsBackward(q[n := Min(q[n], Max(0.0, q[n + 1] + Gain(dist, decel, n)))], caps, dist, accel, decel, n)
  {
    var q' := q[n := Min(q[n], Max(0.0, q[n + 1] + Gain(dist, decel, n)))];
    assert q'[n] <= q[n] && q'[n + 1] == q[n + 1] <= q'[n] + Gain(dist, accel, n);
    forall i | 0 <= i < |q| - 1 ensures q'[i + 1] <= q'[i] + Gain(dist, accel, i) {
      assert q[i + 1] <= q[i] + Gain(dist, accel, i);
    }
    forall p | IsPlan(p, caps, dist, accel, decel) ensures IsBelow(p, q') {
      assert IsBelow(p, q);
      assert p[n] <= p[n + 1] + Gain(dist, decel, n);
    }
  }

  method BackwardPass(q0: seq<real>, caps: seq<real>, dist: seq<real>, ghost accel: real, decel: real) returns (q: seq<real>)
    requires |dist| >= |caps| - 1 && accel >= 0.0 && decel >= 0.0
    requires IsForward(q0, caps, dist, accel, decel, |caps|)
    ensures IsGreatest(q, caps, dist, accel, decel)
  {
    q := q0;
    if |caps| == 0 { return; }
    for i := |caps| - 1 downto 0
      invariant IsBackward(q, caps, dist, accel, decel, i)
    {
      LowerKeeps(q, caps, dist, accel, decel, i);
      q := q[i := Min(q[i], Max(0.0, q[i + 1] + Gain(dist, decel, i)))];
    }
  }

  function Rate(x: real): (r: real)
    ensures r > 0.0
  {
    Max(0.000001, x)
  }

  // Both passes together give the pointwise greatest plan under the limits.
  method ForwardBackwardSpeeds(dist: seq<real>, nodeVmax: seq<real>, accel: real, decel: real, startSpeed: Option<real>)
      returns (q: seq<real>)
    requires |dist| >= |nodeVmax| - 1
    ensures IsGreatest(q, Caps(nodeVmax, startSpeed), dist, Rate(accel), Rate(decel))
  {
    q := ForwardPass(Caps(nodeVmax, startSpeed), dist, Rate(accel), Rate(decel));
    q := BackwardPass(q, Caps(nodeVmax, startSpeed), dist, Rate(accel), Rate(decel));
  }

  // The greatest plan is unique, so any two ways of computing it agree.
  lemma GreatestIsUnique(q: seq<real>, q': seq<real>, caps: seq<real>, dist: seq<real>, accel: real, decel: real)
    requires |dist| >= |caps| - 1 && accel >= 0.0 && decel >= 0.0
    requires IsGreatest(q, caps, dist, accel, decel) && IsGreatest(q', caps, dist, accel, decel)
    ensures q == q'
  {
    assert IsBelow(q, q') && IsBelow(q', q);
    assert forall i :: 0 <= i < |q| ==> q[i] == q'[i];
  }

  // A plan's speeds stay within the node limits, and a given start speed replaces the first one.
  lemma PlannedSpeedIsWithin(q: seq<real>, nodeVmax: seq<real>, startSpeed: Option<real>, dist: seq<real>,
                             accel: real, decel: real, i: nat, v: real)
    requires |dist| >= |nodeVmax| - 1 && accel >= 0.0 && decel >= 0.0
    requires IsPlan(q, Caps(nodeVmax, startSpeed), dist, accel, decel) && i < |q| && v >= 0.0 && v * v == q[i]
    ensures v <= Max(0.0, if i == 0 && startSpeed.Some? then startSpeed.value else nodeVmax[i])
  {
    var limit := Max(0.0, if i == 0 && startSpeed.Some? then startSpeed.value else nodeVmax[i]);
    assert q[i] <= Caps(nodeVmax, startSpeed)[i] == Square(limit);
    SquareOrder(v, limit);
  }
}
