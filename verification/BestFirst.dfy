// Best-first search over (previous, current) states, with a queue ordered by cost so far
// plus an estimate, in which a closed state is never reopened. The module is about any
// step costs and any estimate; AStar.dfy runs it on a map.
module BestFirst {
  import opened Util

  datatype Problem = Problem(
    size: nat,
    start: int,
    goal: int,
    successors: int -> seq<int>,
    allowed: (int, int) -> bool,
    price: (int, int, int) -> real,
    remaining: int -> real)
  {
    predicate IsNode(u: int) { 0 <= u < size }

    // The nodes listed after u, and which of them may be entered from it.
    function Next(u: int): seq<int> { successors(u) }

    predicate Ok(u: int, v: int) { allowed(u, v) }

    // The price of entering v from u after p (p < 0 at the start).
    function StepCost(p: int, u: int, v: int): real { price(p, u, v) }

    function Estimate(u: int): real { remaining(u) }

    ghost predicate Valid() {
      && IsNode(start) && IsNode(goal)
      && Estimate(goal) == 0.0
      && forall u, v :: Ok(u, v) ==> IsNode(u) && IsNode(v) && v in Next(u)
    }
  }

  // A search state remembers the node it was entered from, so that turn costs are known.
  datatype State = State(prev: int, curr: int)

  // A priority-queue element: the state, its cost when pushed and its key.
  datatype Entry = Entry(prev: int, curr: int, g: real, f: real)
  {
    function Key(): State { State(prev, curr) }
  }

  ghost predicate IsWalk(pb: Problem, w: seq<int>) {
    && |w| >= 1 && w[0] == pb.start
    && forall i :: 0 <= i < |w| - 1 ==> pb.Ok(w[i], w[i + 1])
  }

  ghost predicate IsRoute(pb: Problem, w: seq<int>) {
    IsWalk(pb, w) && w[|w| - 1] == pb.goal
  }

  function LastState(w: seq<int>): State
    requires |w| >= 1
  {
    State(if |w| >= 2 then w[|w| - 2] else -1, w[|w| - 1])
  }

  // What a walk costs at given step prices.
  ghost function CostAt(price: (int, int, int) -> real, w: seq<int>): real
    requires |w| >= 1
  {
    if |w| == 1 then 0.0
    else
      var front := w[..|w| - 1];
      var s := LastState(front);
      CostAt(price, front) + price(s.prev, s.curr, w[|w| - 1])
  }

  ghost function Cost(pb: Problem, w: seq<int>): real
    requires |w| >= 1
  {
    CostAt(pb.price, w)
  }

  // `upper` is at least the price of the step and at least the drop of the estimate.
  ghost predicate PriceCovers(pb: Problem, upper: (int, int, int) -> real, p: int, u: int, v: int) {
    && 0.0 <= pb.StepCost(p, u, v) <= upper(p, u, v)
    && pb.Estimate(u) <= upper(p, u, v) + pb.Estimate(v)
  }

  // Prices that bound the true ones and make the estimate consistent.
  ghost predicate Bounded(pb: Problem, upper: (int, int, int) -> real) {
    forall p, u, v :: pb.Ok(u, v) ==> PriceCovers(pb, upper, p, u, v)
  }

  function StartState(pb: Problem): State { State(-1, pb.start) }

  function EntryOf(pb: Problem, s: State, g: real): Entry {
    Entry(s.prev, s.curr, g, g + pb.Estimate(s.curr))
  }

  lemma WalkIsOnNodes(pb: Problem, w: seq<int>)
    requires pb.Valid() && IsWalk(pb, w)
    ensures forall i :: 0 <= i < |w| ==> pb.IsNode(w[i])
  {
    forall i | 0 <= i < |w| ensures pb.IsNode(w[i]) {
      if i > 0 { var j := i - 1; assert pb.Ok(w[j], w[j + 1]); }
    }
  }

  lemma Extend(pb: Problem, w: seq<int>, v: int)
    requires IsWalk(pb, w) && pb.Ok(w[|w| - 1], v)
    ensures IsWalk(pb, w + [v])
    ensures LastState(w + [v]) == State(w[|w| - 1], v)
    ensures Cost(pb, w + [v]) == Cost(pb, w) + pb.StepCost(LastState(w).prev, LastState(w).curr, v)
  {
    var x := w + [v];
    forall i | 0 <= i < |x| - 1 ensures pb.Ok(x[i], x[i + 1]) {
      if i < |w| - 1 { assert pb.Ok(w[i], w[i + 1]); }
    }
    assert x[..|x| - 1] == w;
  }

  // Splits the last step off a walk.
  lemma Shorten(pb: Problem, w: seq<int>)
    requires IsWalk(pb, w) && |w| >= 2
    ensures IsWalk(pb, w[..|w| - 1])
    ensures pb.Ok(w[|w| - 2], w[|w| - 1])
  {
    assert pb.Ok(w[|w| - 2], w[|w| - 2 + 1]);
    var front := w[..|w| - 1];
    forall i | 0 <= i < |front| - 1 ensures pb.Ok(front[i], front[i + 1]) {
      assert pb.Ok(w[i], w[i + 1]);
    }
  }

  // Every scored state is reached by a walk of exactly its score.
  ghost predicate Witnessed(pb: Problem, g: map<State, real>, wit: map<State, seq<int>>) {
    && wit.Keys == g.Keys
    && StartState(pb) in wit && wit[StartState(pb)] == [pb.start]
    && forall s :: s in wit ==> IsWalk(pb, wit[s]) && LastState(wit[s]) == s && Cost(pb, wit[s]) == g[s]
  }

  // `cameFrom` leads from each state but the start to a closed one, one step up its walk.
  ghost predicate Chained(pb: Problem, came: map<State, State>, closed: set<State>, wit: map<State, seq<int>>) {
    && came.Keys == wit.Keys - {StartState(pb)}
    && forall s {:trigger came[s]} :: s in came ==>
      && came[s] in closed && came[s] in wit
      && wit[s] == wit[came[s]] + [s.curr]
  }

  // An open state has its current score in the queue; a queued score is never too small.
  ghost predicate Queued(pb: Problem, g: map<State, real>, closed: set<State>, open: multiset<Entry>) {
    && StartState(pb) in g && g[StartState(pb)] == 0.0
    && (forall s {:trigger EntryOf(pb, s, g[s])} :: s in g && s !in closed ==> EntryOf(pb, s, g[s]) in open)
    && (forall e :: e in open ==> e.Key() in g && g[e.Key()] <= e.g && e == EntryOf(pb, e.Key(), e.g))
  }

  // The successors in `next` have been offered the cost through `s`.
  ghost predicate Relaxed(pb: Problem, g: map<State, real>, closed: set<State>, s: State, next: seq<int>)
    requires s in g
  {
    forall v {:trigger pb.Ok(s.curr, v)} :: v in next && pb.Ok(s.curr, v) ==>
      var t := State(s.curr, v);
      t in g && (t !in closed ==> g[t] <= g[s] + pb.StepCost(s.prev, s.curr, v))
  }

  ghost predicate AllRelaxed(pb: Problem, g: map<State, real>, closed: set<State>, done: set<State>) {
    && done <= g.Keys
    && forall s {:trigger Relaxed(pb, g, closed, s, pb.Next(s.curr))} :: s in done ==> Relaxed(pb, g, closed, s, pb.Next(s.curr))
  }

  // No walk to `s` is cheaper than c, even when paid for at upper prices.
  ghost predicate WithinUpper(pb: Problem, s: State, c: real) {
    forall upper, w {:trigger Bounded(pb, upper), CostAt(upper, w)} ::
      Bounded(pb, upper) && IsWalk(pb, w) && LastState(w) == s ==> c <= CostAt(upper, w)
  }

  // c is at most the upper price of every route, for all upper prices.
  ghost predicate NearBest(pb: Problem, c: real) {
    forall upper, w {:trigger Bounded(pb, upper), CostAt(upper, w)} ::
      Bounded(pb, upper) && IsRoute(pb, w) ==> c <= CostAt(upper, w)
  }

  ghost predicate ClosedWithinUpper(pb: Problem, g: map<State, real>, closed: set<State>) {
    && closed <= g.Keys
    && (forall s :: s in closed ==> s.curr != pb.goal)
    && (forall s {:trigger WithinUpper(pb, s, g[s])} :: s in closed ==> WithinUpper(pb, s, g[s]))
  }

  // The whole invariant; `done` are the states whose expansion has finished.
  ghost predicate Searching(pb: Problem, g: map<State, real>, came: map<State, State>, closed: set<State>,
                            done: set<State>, open: multiset<Entry>, wit: map<State, seq<int>>)
  {
    && pb.Valid()
    && Witnessed(pb, g, wit)
    && Chained(pb, came, closed, wit)
    && Queued(pb, g, closed, open)
    && AllRelaxed(pb, g, closed, done)
    && ClosedWithinUpper(pb, g, closed)
  }

  // No open entry has a smaller key than e.
  ghost predicate IsTop(e: Entry, open: multiset<Entry>) {
    e in open && forall o :: o in open ==> e.f <= o.f
  }

  lemma {:induction false} TopExists(open: multiset<Entry>)
    requires open != multiset{}
    ensures exists e :: IsTop(e, open)
    decreases |open|
  {
    var x :| x in open;
    var rest := open - multiset{x};
    if rest == multiset{} {
      assert open == multiset{x};
      assert IsTop(x, open);
    } else {
      TopExists(rest);
      var y :| IsTop(y, rest);
      assert forall o :: o in open ==> o == x || o in rest;
      assert IsTop(if x.f <= y.f then x else y, open);
    }
  }

  // The heart of the bound. While the walk's last state is not closed, some open state
  // lies on the walk, so the least key is at most the walk's upper price plus what is left
  // from its end.
  lemma {:induction false} FrontierBound(pb: Problem, g: map<State, real>, closed: set<State>,
      open: multiset<Entry>, top: Entry, upper: (int, int, int) -> real, w: seq<int>)
    requires Queued(pb, g, closed, open) && AllRelaxed(pb, g, closed, closed) && ClosedWithinUpper(pb, g, closed)
    requires pb.Valid()
    requires forall o :: o in open ==> top.f <= o.f
    requires Bounded(pb, upper) && IsWalk(pb, w) && LastState(w) !in closed
    ensures top.f <= CostAt(upper, w) + pb.Estimate(w[|w| - 1])
    decreases |w|
  {
    if |w| == 1 {
      assert LastState(w) == StartState(pb);
      assert EntryOf(pb, StartState(pb), 0.0) in open;
    } else {
      Shorten(pb, w);
      var front, v := w[..|w| - 1], w[|w| - 1];
      var s, t := LastState(front), LastState(w);
      assert PriceCovers(pb, upper, s.prev, s.curr, v);
      if s !in closed {
        FrontierBound(pb, g, closed, open, top, upper, front);
      } else {
        assert g[s] <= CostAt(upper, front) by { assert WithinUpper(pb, s, g[s]); }
        assert g[t] <= g[s] + pb.StepCost(s.prev, s.curr, v) by {
          assert Relaxed(pb, g, closed, s, pb.Next(s.curr));
        }
        assert EntryOf(pb, t, g[t]) in open;
      }
    }
  }

  // A popped state may be closed, or accepted as the goal.
  lemma PopBound(pb: Problem, g: map<State, real>, closed: set<State>, open: multiset<Entry>, top: Entry)
    requires Queued(pb, g, closed, open) && AllRelaxed(pb, g, closed, closed) && ClosedWithinUpper(pb, g, closed)
    requires pb.Valid()
    requires IsTop(top, open)
    ensures top.Key() !in closed ==> WithinUpper(pb, top.Key(), top.g)
    ensures top.curr == pb.goal ==> NearBest(pb, top.g)
  {
    forall upper, w | Bounded(pb, upper) && IsWalk(pb, w) && LastState(w) == top.Key() && top.Key() !in closed
      ensures top.g <= CostAt(upper, w)
    {
      FrontierBound(pb, g, closed, open, top, upper, w);
    }
    forall upper, w | top.curr == pb.goal && Bounded(pb, upper) && IsRoute(pb, w)
      ensures top.g <= CostAt(upper, w)
    {
      FrontierBound(pb, g, closed, open, top, upper, w);
    }
  }

  // Once nothing is open, every walk ends in a closed state: none ends at the goal.
  lemma {:induction false} ExhaustedClosed(pb: Problem, g: map<State, real>, closed: set<State>,
                                           open: multiset<Entry>, w: seq<int>)
    requires Queued(pb, g, closed, open) && AllRelaxed(pb, g, closed, closed)
    requires pb.Valid() && open == multiset{} && IsWalk(pb, w)
    ensures LastState(w) in closed
    decreases |w|
  {
    var t := LastState(w);
    if |w| == 1 {
      assert t == StartState(pb);
    } else {
      Shorten(pb, w);
      ExhaustedClosed(pb, g, closed, open, w[..|w| - 1]);
      var s := LastState(w[..|w| - 1]);
      assert Relaxed(pb, g, closed, s, pb.Next(s.curr));
      assert t == State(s.curr, w[|w| - 1]);
    }
    var key := EntryOf(pb, t, g[t]);
    assert t !in closed ==> key in open;
  }

  // Recording a better walk to an open state through a closed one keeps the invariant.
  lemma ImproveWitness(pb: Problem, g: map<State, real>, came: map<State, State>, closed: set<State>,
                       wit: map<State, seq<int>>, s: State, v: int, c: real)
      returns (wit': map<State, seq<int>>)
    requires pb.Valid() && Witnessed(pb, g, wit) && Chained(pb, came, closed, wit)
    requires s in closed && s in g && pb.Ok(s.curr, v)
    requires State(s.curr, v) !in closed
    requires c == g[s] + pb.StepCost(s.prev, s.curr, v)
    ensures var t := State(s.curr, v);
      Witnessed(pb, g[t := c], wit') && Chained(pb, came[t := s], closed, wit')
  {
    var t := State(s.curr, v);
    Extend(pb, wit[s], v);
    WalkIsOnNodes(pb, wit[s]);
    assert t != StartState(pb);
    wit' := wit[t := wit[s] + [v]];
  }

  lemma ImproveQueue(pb: Problem, g: map<State, real>, closed: set<State>, done: set<State>,
                     open: multiset<Entry>, t: State, c: real)
    requires done <= closed
    requires Queued(pb, g, closed, open) && AllRelaxed(pb, g, closed, done) && ClosedWithinUpper(pb, g, closed)
    requires t !in closed && t != StartState(pb)
    requires t in g ==> c < g[t]
    ensures Queued(pb, g[t := c], closed, open + multiset{EntryOf(pb, t, c)})
    ensures AllRelaxed(pb, g[t := c], closed, done) && ClosedWithinUpper(pb, g[t := c], closed)
  {
    forall x | x in done
      ensures x in g[t := c] && Relaxed(pb, g[t := c], closed, x, pb.Next(x.curr))
    {
      assert Relaxed(pb, g, closed, x, pb.Next(x.curr));
      forall v | v in pb.Next(x.curr) && pb.Ok(x.curr, v)
        ensures var y := State(x.curr, v);
          y in g[t := c] && (y !in closed ==> g[t := c][y] <= g[t := c][x] + pb.StepCost(x.prev, x.curr, v))
      {
        var y := State(x.curr, v);
        assert y in g;
      }
    }
    forall x | x in closed ensures WithinUpper(pb, x, g[t := c][x]) {
      assert WithinUpper(pb, x, g[x]);
    }
  }
}
