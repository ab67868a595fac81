// Breadth-first spreading of labels from labelled sources over unlabelled nodes, as both the
// bridge components and the region growth use it.
module Spreading {
  import opened Util

  // `open(v)` says where labels may spread.
  datatype Net = Net(size: nat, neighbours: int -> seq<int>, open: int -> bool)
  {
    predicate IsNode(v: int) { 0 <= v < size }
    function Near(u: int): seq<int> { neighbours(u) }
    predicate IsOpen(v: int) { IsNode(v) && open(v) }
  }

  // A node that may receive a mark and has none.
  predicate IsFresh(g: Net, mark0: seq<int>, v: int) {
    g.IsOpen(v) && v < |mark0| && mark0[v] < 0
  }

  predicate Step(g: Net, mark0: seq<int>, u: int, v: int) {
    v in g.Near(u) && IsFresh(g, mark0, v)
  }

  // From a source through fresh nodes.
  ghost predicate IsWalk(g: Net, mark0: seq<int>, sources: seq<int>, walk: seq<int>) {
    && |walk| >= 1 && walk[0] in sources
    && forall i {:trigger walk[i]} :: 0 <= i < |walk| - 1 ==> Step(g, mark0, walk[i], walk[i + 1])
  }

  ghost predicate WalkTo(g: Net, mark0: seq<int>, sources: seq<int>, walk: seq<int>, v: int) {
    IsWalk(g, mark0, sources, walk) && walk[|walk| - 1] == v
  }

  ghost predicate IsReachable(g: Net, mark0: seq<int>, sources: seq<int>, v: int) {
    exists walk :: WalkTo(g, mark0, sources, walk, v)
  }

  // A shortest walk to v starts at a source labelled c.
  ghost predicate IsNearest(g: Net, mark0: seq<int>, sources: seq<int>, v: int, c: int) {
    exists walk :: WalkTo(g, mark0, sources, walk, v) && 0 <= walk[0] < |mark0| && mark0[walk[0]] == c
      && IsShortest(g, mark0, sources, walk, v)
  }

  ghost predicate IsShortest(g: Net, mark0: seq<int>, sources: seq<int>, walk: seq<int>, v: int) {
    forall w :: WalkTo(g, mark0, sources, w, v) ==> |walk| <= |w|
  }

  // What spreading does: labels stay, exactly the reachable fresh nodes get one, and it is a
  // nearest source's.
  ghost predicate IsSpread(g: Net, mark0: seq<int>, sources: seq<int>, mark: seq<int>) {
    && |mark| == |mark0| == g.size
    && (forall v {:trigger mark[v]} :: 0 <= v < g.size && mark0[v] >= 0 ==> mark[v] == mark0[v])
    && (forall v {:trigger mark[v]} :: 0 <= v < g.size && mark0[v] < 0 ==>
          (if IsReachable(g, mark0, sources, v) then IsNearest(g, mark0, sources, v, mark[v]) && mark[v] >= 0
          else mark[v] == mark0[v]))
  }

  // The reached nodes so far with their distance in hops.
  type Levels = map<int, nat>

  ghost predicate Explained(g: Net, mark0: seq<int>, sources: seq<int>, mark: seq<int>, lev: Levels) {
    forall v {:trigger lev[v]} :: v in lev ==> HasWalk(g, mark0, sources, mark, v, lev[v])
  }

  // v carries the mark of a source lev hops away.
  ghost predicate HasWalk(g: Net, mark0: seq<int>, sources: seq<int>, mark: seq<int>, v: int, lev: nat) {
    && g.IsNode(v) && |mark| == |mark0| == g.size
    && exists walk :: WalkTo(g, mark0, sources, walk, v) && |walk| == lev + 1
         && 0 <= walk[0] < |mark0| && mark0[walk[0]] == mark[v] >= 0
  }

  ghost predicate Marked(g: Net, mark0: seq<int>, sources: seq<int>, mark: seq<int>, lev: Levels) {
    && |mark| == |mark0| == g.size
    && (forall v :: v in sources ==> v in lev && lev[v] == 0)
    && (forall v {:trigger mark[v]} :: 0 <= v < g.size ==> mark[v] == mark0[v] || (IsFresh(g, mark0, v) && v in lev))
    && (forall v {:trigger v in lev} :: v in lev ==> 0 <= v < g.size && mark[v] >= 0)
    && (forall v :: v in lev && lev[v] == 0 ==> v in sources)
  }

  // The queue is in order of levels, and nothing reached is more than one level ahead of its head.
  ghost predicate Ordered(lev: Levels, queue: seq<int>) {
    && (forall i :: 0 <= i < |queue| ==> queue[i] in lev)
    && (forall i, j :: 0 <= i < j < |queue| ==> AtMost(lev, queue[i], queue[j], 0))
    && (queue != [] ==> forall v :: v in lev ==> AtMost(lev, v, queue[0], 1))
  }

  predicate AtMost(lev: Levels, u: int, v: int, d: nat) {
    u in lev && v in lev && lev[u] <= lev[v] + d
  }

  // A reached node not in the queue has passed its level on.
  ghost predicate Settled(g: Net, mark0: seq<int>, lev: Levels, u: int, next: seq<int>) {
    forall v {:trigger Step(g, mark0, u, v)} :: v in next && Step(g, mark0, u, v) ==> AtMost(lev, v, u, 1)
  }

  ghost predicate AllSettled(g: Net, mark0: seq<int>, lev: Levels, queue: seq<int>) {
    forall u {:trigger Settled(g, mark0, lev, u, g.Near(u))} ::
      u in lev && u !in queue ==> Settled(g, mark0, lev, u, g.Near(u))
  }

  ghost predicate Grows(lev0: Levels, lev: Levels) {
    forall v {:trigger v in lev} {:trigger v in lev0} :: v in lev0 ==> v in lev && lev[v] == lev0[v]
  }

  lemma SettledStays(g: Net, mark0: seq<int>, lev0: Levels, lev: Levels, u: int, next: seq<int>)
    requires Settled(g, mark0, lev0, u, next) && Grows(lev0, lev)
    ensures Settled(g, mark0, lev, u, next)
  {
    forall v | v in next && Step(g, mark0, u, v) ensures AtMost(lev, v, u, 1) {
      assert AtMost(lev0, v, u, 1);
    }
  }

  lemma ExtendWalk(g: Net, mark0: seq<int>, sources: seq<int>, walk: seq<int>, v: int)
    requires IsWalk(g, mark0, sources, walk) && Step(g, mark0, walk[|walk| - 1], v)
    ensures WalkTo(g, mark0, sources, walk + [v], v)
  {
    var longer := walk + [v];
    forall i | 0 <= i < |longer| - 1 ensures Step(g, mark0, longer[i], longer[i + 1]) {
      if i < |walk| - 1 { assert Step(g, mark0, walk[i], walk[i + 1]); }
    }
  }

  // Passing u's mark on to a fresh unlabelled neighbour.
  lemma PassOnKeepsExplained(g: Net, mark0: seq<int>, sources: seq<int>, mark: seq<int>, lev: Levels, u: int, v: int)
    requires |mark| == |mark0| == g.size && Explained(g, mark0, sources, mark, lev)
    requires u in lev && v !in lev && Step(g, mark0, u, v)
    ensures Explained(g, mark0, sources, mark[v := mark[u]], lev[v := lev[u] + 1])
  {
    var mark', lev' := mark[v := mark[u]], lev[v := lev[u] + 1];
    assert HasWalk(g, mark0, sources, mark, u, lev[u]);
    var walk :| WalkTo(g, mark0, sources, walk, u) && |walk| == lev[u] + 1
      && 0 <= walk[0] < |mark0| && mark0[walk[0]] == mark[u] >= 0;
    ExtendWalk(g, mark0, sources, walk, v);
    assert (walk + [v])[0] == walk[0];
    forall x | x in lev' ensures HasWalk(g, mark0, sources, mark', x, lev'[x]) {
      if x != v {
        assert HasWalk(g, mark0, sources, mark, x, lev[x]);
        var w :| WalkTo(g, mark0, sources, w, x) && |w| == lev[x] + 1
          && 0 <= w[0] < |mark0| && mark0[w[0]] == mark[x] >= 0;
      }
    }
  }

  // During u's turn: the queue's tail may already hold nodes one level further than u.
  ghost predicate TurnOrdered(lev: Levels, queue: seq<int>, u: int) {
    && u in lev
    && (forall i :: 0 <= i < |queue| ==> queue[i] in lev)
    && (forall i, j :: 0 <= i < j < |queue| ==> AtMost(lev, queue[i], queue[j], 0))
    && (forall i :: 0 <= i < |queue| ==> AtMost(lev, u, queue[i], 0))
    && (forall v :: v in lev ==> AtMost(lev, v, u, 1))
  }

  lemma PassOnKeepsOrder(lev: Levels, queue: seq<int>, u: int, v: int)
    requires TurnOrdered(lev, queue, u) && v !in lev
    ensures TurnOrdered(lev[v := lev[u] + 1], queue + [v], u)
  {
    var lev', queue' := lev[v := lev[u] + 1], queue + [v];
    forall i, j | 0 <= i < j < |queue'| ensures AtMost(lev', queue'[i], queue'[j], 0) {
      if j < |queue| { assert AtMost(lev, queue[i], queue[j], 0); } else { assert AtMost(lev, queue[i], u, 1); }
    }
    forall i | 0 <= i < |queue'| ensures AtMost(lev', u, queue'[i], 0) {
      if i < |queue| { assert AtMost(lev, u, queue[i], 0); }
    }
    forall x | x in lev' ensures AtMost(lev', x, u, 1) {
      if x != v { assert AtMost(lev, x, u, 1); }
    }
  }

  lemma PassOnKeepsMarked(g: Net, mark0: seq<int>, sources: seq<int>, mark: seq<int>, lev: Levels, u: int, v: int)
    requires Marked(g, mark0, sources, mark, lev) && u in lev && v !in lev && IsFresh(g, mark0, v)
    ensures Marked(g, mark0, sources, mark[v := mark[u]], lev[v := lev[u] + 1])
  {
  }

  ghost predicate InTurn(g: Net, mark0: seq<int>, sources: seq<int>, mark: seq<int>, queue: seq<int>, lev: Levels, u: int) {
    Marked(g, mark0, sources, mark, lev) && Explained(g, mark0, sources, mark, lev) && TurnOrdered(lev, queue, u)
  }

  // What a turn leaves alone: levels stay, and only queued nodes are new.
  ghost predicate Adds(lev0: Levels, queue0: seq<int>, lev: Levels, queue: seq<int>) {
    Grows(lev0, lev) && forall v {:trigger v in lev} :: v in lev && v !in queue ==> v in lev0 && v !in queue0
  }

  lemma PassOnKeepsTurn(g: Net, mark0: seq<int>, sources: seq<int>, mark: seq<int>, queue: seq<int>, lev: Levels,
                        u: int, v: int, lev0: Levels, queue0: seq<int>)
    requires InTurn(g, mark0, sources, mark, queue, lev, u) && Adds(lev0, queue0, lev, queue)
    requires Step(g, mark0, u, v) && mark[v] < 0
    ensures InTurn(g, mark0, sources, mark[v := mark[u]], queue + [v], lev[v := lev[u] + 1], u)
    ensures Adds(lev0, queue0, lev[v := lev[u] + 1], queue + [v]) && Grows(lev, lev[v := lev[u] + 1])
  {
    PassOnKeepsMarked(g, mark0, sources, mark, lev, u, v);
    PassOnKeepsExplained(g, mark0, sources, mark, lev, u, v);
    PassOnKeepsOrder(lev, queue, u, v);
    PassOnAdds(lev0, queue0, lev, queue, v, lev[u] + 1);
  }

  lemma PassOnAdds(lev0: Levels, queue0: seq<int>, lev: Levels, queue: seq<int>, v: int, d: nat)
    requires Adds(lev0, queue0, lev, queue) && v !in lev
    ensures Adds(lev0, queue0, lev[v := d], queue + [v]) && Grows(lev, lev[v := d])
  {
    forall x | x in lev[v := d] && x !in queue + [v] ensures x in lev0 && x !in queue0 {
      assert x in lev && x !in queue;
    }
  }

  lemma SettledNext(g: Net, mark0: seq<int>, lev: Levels, u: int, next: seq<int>, i: nat)
    requires i < |next| && Settled(g, mark0, lev, u, next[..i])
    requires Step(g, mark0, u, next[i]) ==> AtMost(lev, next[i], u, 1)
    ensures Settled(g, mark0, lev, u, next[..i + 1])
  {
    PrefixGrows(next, i);
  }

  // A neighbour that has a label, or may not have one, is settled already.
  lemma KnownIsSettled(g: Net, mark0: seq<int>, sources: seq<int>, mark: seq<int>, queue: seq<int>, lev: Levels, u: int, v: int)
    requires InTurn(g, mark0, sources, mark, queue, lev, u) && Step(g, mark0, u, v) && mark[v] >= 0
    ensures AtMost(lev, v, u, 1)
  {
  }

  ghost function Unreached(g: Net, lev: Levels): set<int> {
    set v | 0 <= v < g.size && v !in lev
  }

  // Queued and unreached nodes together: what is left to do.
  ghost function Work(g: Net, lev: Levels, queue: seq<int>): nat {
    |queue| + |Unreached(g, lev)|
  }

  lemma PassOnMovesWork(g: Net, lev: Levels, queue: seq<int>, v: int, d: nat)
    requires g.IsNode(v) && v !in lev
    ensures Work(g, lev[v := d], queue + [v]) == Work(g, lev, queue)
  {
    var before, after := Unreached(g, lev), Unreached(g, lev[v := d]);
    if before != after + {v} { var x := SetDifference(before, after + {v}); }
  }

  // The first i neighbours have been dealt with, and nothing left to do was lost.
  ghost predicate Settling(g: Net, mark0: seq<int>, lev: Levels, queue: seq<int>, u: int, next: seq<int>, i: nat, work: nat) {
    i <= |next| && Settled(g, mark0, lev, u, next[..i]) && Work(g, lev, queue) == work
  }

  lemma PassOnKeepsSettling(g: Net, mark0: seq<int>, lev: Levels, queue: seq<int>, u: int, next: seq<int>, i: nat, work: nat)
    requires Settling(g, mark0, lev, queue, u, next, i, work) && i < |next|
    requires u in lev && g.IsNode(next[i]) && next[i] !in lev
    ensures Settling(g, mark0, lev[next[i] := lev[u] + 1], queue + [next[i]], u, next, i + 1, work)
  {
    PassOnMovesWork(g, lev, queue, next[i], lev[u] + 1);
    PassOnSettles(g, mark0, lev, u, next, i);
  }

  lemma PassOnSettles(g: Net, mark0: seq<int>, lev: Levels, u: int, next: seq<int>, i: nat)
    requires i < |next| && u in lev && next[i] !in lev && Settled(g, mark0, lev, u, next[..i])
    ensures Settled(g, mark0, lev[next[i] := lev[u] + 1], u, next[..i + 1])
  {
    var lev' := lev[next[i] := lev[u] + 1];
    SettledStays(g, mark0, lev, lev', u, next[..i]);
    SettledNext(g, mark0, lev', u, next, i);
  }

  // The neighbours of u take its label if they have none.
  method Visit(g: Net, ghost mark0: seq<int>, ghost sources: seq<int>, u: int, markBefore: seq<int>, queueBefore: seq<int>,
               ghost levBefore: Levels)
      returns (mark: seq<int>, queue: seq<int>, ghost lev: Levels)
    requires InTurn(g, mark0, sources, markBefore, queueBefore, levBefore, u)
    ensures InTurn(g, mark0, sources, mark, queue, lev, u)
    ensures Adds(levBefore, queueBefore, lev, queue) && Settled(g, mark0, lev, u, g.Near(u))
    ensures Work(g, lev, queue) == Work(g, levBefore, queueBefore)
  {
    mark, queue, lev := markBefore, queueBefore, levBefore;
    var next := g.Near(u);
    ghost var work := Work(g, lev, queue);
    for i := 0 to |next|
      invariant InTurn(g, mark0, sources, mark, queue, lev, u) && Adds(levBefore, queueBefore, lev, queue)
      invariant Settling(g, mark0, lev, queue, u, next, i, work)
    {
      var v := next[i];
      if g.IsOpen(v) && mark[v] < 0 {
        PassOnKeepsSettling(g, mark0, lev, queue, u, next, i, work);
        PassOnKeepsTurn(g, mark0, sources, mark, queue, lev, u, v, levBefore, queueBefore);
        mark, queue, lev := mark[v := mark[u]], queue + [v], lev[v := lev[u] + 1];
      } else {
        if Step(g, mark0, u, v) {
          KnownIsSettled(g, mark0, sources, mark, queue, lev, u, v);
        }
        SettledNext(g, mark0, lev, u, next, i);
      }
    }
    assert next[..|next|] == next;
  }

  ghost predicate Spreads(g: Net, mark0: seq<int>, sources: seq<int>, mark: seq<int>, queue: seq<int>, lev: Levels) {
    && Marked(g, mark0, sources, mark, lev) && Explained(g, mark0, sources, mark, lev)
    && Ordered(lev, queue) && AllSettled(g, mark0, lev, queue)
  }

  // The queue's head begins its turn ...
  lemma TurnBegins(g: Net, mark0: seq<int>, sources: seq<int>, mark: seq<int>, queue: seq<int>, lev: Levels)
    requires Spreads(g, mark0, sources, mark, queue, lev) && queue != []
    ensures InTurn(g, mark0, sources, mark, queue[1..], lev, queue[0])
  {
    forall i | 0 <= i < |queue| - 1 ensures AtMost(lev, queue[0], queue[1..][i], 0) {
      assert AtMost(lev, queue[0], queue[i + 1], 0);
    }
    forall i, j | 0 <= i < j < |queue| - 1 ensures AtMost(lev, queue[1..][i], queue[1..][j], 0) {
      assert AtMost(lev, queue[i + 1], queue[j + 1], 0);
    }
  }

  // ... and ends it.
  lemma TurnEnds(g: Net, mark0: seq<int>, sources: seq<int>, mark: seq<int>, queue: seq<int>, lev: Levels, u: int,
                 queue0: seq<int>, lev0: Levels)
    requires InTurn(g, mark0, sources, mark, queue, lev, u) && Settled(g, mark0, lev, u, g.Near(u))
    requires queue0 != [] && u == queue0[0] && AllSettled(g, mark0, lev0, queue0) && Adds(lev0, queue0[1..], lev, queue)
    ensures Spreads(g, mark0, sources, mark, queue, lev)
  {
    if queue != [] {
      forall v | v in lev ensures AtMost(lev, v, queue[0], 1) {
        assert AtMost(lev, v, u, 1) && AtMost(lev, u, queue[0], 0);
      }
    }
    forall x | x in lev && x !in queue ensures Settled(g, mark0, lev, x, g.Near(x)) {
      if x != u {
        assert forall y :: y in queue0 <==> y == u || y in queue0[1..];
        SettledStays(g, mark0, lev0, lev, x, g.Near(x));
      }
    }
  }

  // With an empty queue no walk reaches a node earlier than its level.
  lemma {:induction false} LevelsAreLeast(g: Net, mark0: seq<int>, sources: seq<int>, mark: seq<int>, lev: Levels, walk: seq<int>)
    requires Spreads(g, mark0, sources, mark, [], lev) && IsWalk(g, mark0, sources, walk)
    ensures walk[|walk| - 1] in lev && lev[walk[|walk| - 1]] + 1 <= |walk|
    decreases |walk|
  {
    if |walk| > 1 {
      var front, u, v := walk[..|walk| - 1], walk[|walk| - 2], walk[|walk| - 1];
      forall i | 0 <= i < |front| - 1 ensures Step(g, mark0, front[i], front[i + 1]) {
        assert Step(g, mark0, walk[i], walk[i + 1]);
      }
      LevelsAreLeast(g, mark0, sources, mark, lev, front);
      var i := |walk| - 2;
      assert Step(g, mark0, walk[i], walk[i + 1]);
      assert Settled(g, mark0, lev, u, g.Near(u));
      assert AtMost(lev, v, u, 1);
    }
  }

  lemma SpreadIsDone(g: Net, mark0: seq<int>, sources: seq<int>, mark: seq<int>, lev: Levels)
    requires Spreads(g, mark0, sources, mark, [], lev)
    ensures IsSpread(g, mark0, sources, mark)
  {
    forall v | 0 <= v < g.size && mark0[v] < 0
      ensures if IsReachable(g, mark0, sources, v) then IsNearest(g, mark0, sources, v, mark[v]) && mark[v] >= 0
              else mark[v] == mark0[v]
    {
      assert v in lev ==> HasWalk(g, mark0, sources, mark, v, lev[v]);
      if IsReachable(g, mark0, sources, v) {
        var any :| WalkTo(g, mark0, sources, any, v);
        LevelsAreLeast(g, mark0, sources, mark, lev, any);
        var walk :| WalkTo(g, mark0, sources, walk, v) && |walk| == lev[v] + 1
          && 0 <= walk[0] < |mark0| && mark0[walk[0]] == mark[v] >= 0;
        forall w | WalkTo(g, mark0, sources, w, v) ensures |walk| <= |w| {
          LevelsAreLeast(g, mark0, sources, mark, lev, w);
        }
        assert IsShortest(g, mark0, sources, walk, v);
      }
    }
  }

  lemma StartSpreads(g: Net, mark0: seq<int>, sources: seq<int>)
    requires |mark0| == g.size
    requires forall i :: 0 <= i < |sources| ==> 0 <= sources[i] < g.size && mark0[sources[i]] >= 0
    ensures Spreads(g, mark0, sources, mark0, sources, map v | v in sources :: 0)
  {
    var lev: Levels := map v | v in sources :: 0;
    forall v | v in lev ensures HasWalk(g, mark0, sources, mark0, v, 0) {
      assert WalkTo(g, mark0, sources, [v], v);
    }
  }

  // The queue loop, from sources that already carry their labels.
  method Spread(g: Net, mark0: seq<int>, sources: seq<int>) returns (mark: seq<int>)
    requires |mark0| == g.size
    requires forall i :: 0 <= i < |sources| ==> 0 <= sources[i] < g.size && mark0[sources[i]] >= 0
    ensures IsSpread(g, mark0, sources, mark)
  {
    mark := mark0;
    var queue := sources;
    ghost var lev: Levels := map v | v in sources :: 0;
    StartSpreads(g, mark0, sources);
    while queue != []
      invariant Spreads(g, mark0, sources, mark, queue, lev)
      decreases Work(g, lev, queue)
    {
      ghost var queue0, lev0 := queue, lev;
      TurnBegins(g, mark0, sources, mark, queue, lev);
      var u := queue[0];
      mark, queue, lev := Visit(g, mark0, sources, u, mark, queue[1..], lev);
      TurnEnds(g, mark0, sources, mark, queue, lev, u, queue0, lev0);
    }
    SpreadIsDone(g, mark0, sources, mark, lev);
  }
}
