// What the Dijkstra cells mean for one target, for several targets and without turning time.
module ShortestPathMeaning {
  import opened Util
  import opened Dijkstra

  ghost predicate LeadsTo(g: Roads, targets: set<int>, s: int, path: seq<int>, t: int) {
    IsPath(g, targets, s, path) && path[|path| - 1] == t
  }

  ghost predicate Reachable(g: Roads, targets: set<int>, s: int, t: int) {
    exists path :: LeadsTo(g, targets, s, path, t)
  }

  // The same by a path whose every arc may be taken however one comes.
  ghost predicate LeadsOpenlyTo(g: Roads, targets: set<int>, s: int, path: seq<int>, t: int) {
    IsOpenPath(g, targets, s, path) && path[|path| - 1] == t
  }

  ghost predicate OpenlyReachable(g: Roads, targets: set<int>, s: int, t: int) {
    exists path :: LeadsOpenlyTo(g, targets, s, path, t)
  }

  lemma ReachableMeansOpenly(g: Roads, targets: set<int>, s: int, t: int)
    requires g.Valid() && g.TurnsEverywhere()
    ensures Reachable(g, targets, s, t) <==> OpenlyReachable(g, targets, s, t)
  {
    if Reachable(g, targets, s, t) {
      var path :| LeadsTo(g, targets, s, path, t);
      AllPathsAreOpen(g, targets, s, path);
      assert LeadsOpenlyTo(g, targets, s, path, t);
    }
    if OpenlyReachable(g, targets, s, t) {
      var path :| LeadsOpenlyTo(g, targets, s, path, t);
      assert LeadsTo(g, targets, s, path, t);
    }
  }

  lemma {:induction false} PrefixIsCheaper(g: Roads, targets: set<int>, s: int, path: seq<int>, n: nat)
    requires g.Valid() && IsOpenPath(g, targets, s, path) && 1 <= n <= |path|
    ensures IsOpenPath(g, targets, s, path[..n])
    ensures UpperCost(g, s, path[..n]) <= UpperCost(g, s, path)
  {
    if n < |path| {
      SplitOpen(g, targets, s, path);
      var front := path[..|path| - 1];
      PrefixIsCheaper(g, targets, s, front, n);
      assert front[..n] == path[..n];
    } else {
      assert path[..n] == path;
    }
  }

  // An open path that meets no other target can be cut at its first arrival at t, at no extra cost.
  lemma {:induction false} FirstArrival(g: Roads, targets: set<int>, s: int, path: seq<int>) returns (cut: seq<int>)
    requires g.Valid() && |path| >= 1 && IsOpenPath(g, targets - {path[|path| - 1]}, s, path)
    ensures LeadsOpenlyTo(g, targets, s, cut, path[|path| - 1])
    ensures UpperCost(g, s, cut) <= UpperCost(g, s, path)
    decreases |path|
  {
    var t := path[|path| - 1];
    if i :| 0 <= i < |path| - 1 && path[i] == t {
      PrefixIsCheaper(g, targets - {t}, s, path, i + 1);
      cut := FirstArrival(g, targets, s, path[..i + 1]);
    } else {
      cut := path;
      forall i | 0 <= i < |path| - 1 ensures g.Arc(path[i], path[i + 1]) && path[i] !in targets {
        assert g.Arc(path[i], path[i + 1]) && path[i] !in targets - {t};
      }
      assert IsPath(g, targets, s, path);
    }
  }

  lemma FewerTargets(g: Roads, targets: set<int>, fewer: set<int>, s: int, path: seq<int>)
    requires IsPath(g, targets, s, path) && fewer <= targets
    ensures IsPath(g, fewer, s, path)
  {
  }

  // A value is written where an open path meets no other target first, and none where no
  // passable path does; so with turning allowed everywhere a target is unreachable exactly when
  // every passable path to it meets another target first: settled targets are not expanded.
  lemma ValueMeansReachablePastNoTarget(g: Roads, s: int, targets: set<int>, cells: map<int, Cell>, t: int)
    requires g.Valid() && Sound(g, targets, s, cells) && Complete(g, targets, s, cells)
    requires t in targets && t in cells
    ensures OpenlyReachable(g, targets - {t}, s, t) ==> cells[t].Value?
    ensures cells[t].Value? ==> Reachable(g, targets - {t}, s, t)
    ensures g.TurnsEverywhere() ==> (cells[t].Value? <==> Reachable(g, targets - {t}, s, t))
  {
    if cells[t].Value? {
      assert HasPath(g, targets, s, t, cells[t].seconds);
      var path :| IsPath(g, targets, s, path) && path[|path| - 1] == t && TurnAwareCost(g, path) == cells[t].seconds;
      FewerTargets(g, targets, targets - {t}, s, path);
      assert LeadsTo(g, targets - {t}, s, path, t);
    }
    if OpenlyReachable(g, targets - {t}, s, t) {
      var path :| LeadsOpenlyTo(g, targets - {t}, s, path, t);
      var cut := FirstArrival(g, targets, s, path);
      assert IsWithin(cells, t, UpperCost(g, s, cut));
    }
    if g.TurnsEverywhere() { ReachableMeansOpenly(g, targets - {t}, s, t); }
  }

  // With one target: the value is a real legal path's cost and within the upper price of
  // every open path, past the target or not.
  lemma SingleTarget(g: Roads, s: int, t: int, cells: map<int, Cell>)
    requires g.Valid() && cells.Keys == {t}
    requires Sound(g, {t}, s, cells) && Complete(g, {t}, s, cells)
    ensures cells[t].Value? ==> HasPath(g, {}, s, t, cells[t].seconds)
    ensures Complete(g, {}, s, cells)
    ensures OpenlyReachable(g, {}, s, t) ==> cells[t].Value?
    ensures g.TurnsEverywhere() ==> (cells[t].Unreachable? <==> !Reachable(g, {}, s, t))
  {
    assert {t} - {t} == {};
    ValueMeansReachablePastNoTarget(g, s, {t}, cells, t);
    if cells[t].Value? {
      assert HasPath(g, {t}, s, t, cells[t].seconds);
      var path :| IsPath(g, {t}, s, path) && path[|path| - 1] == t && IsLegal(g, path)
        && TurnAwareCost(g, path) == cells[t].seconds;
      FewerTargets(g, {t}, {}, s, path);
    }
    forall path | IsOpenPath(g, {}, s, path) && path[|path| - 1] in cells
      ensures IsWithin(cells, path[|path| - 1], UpperCost(g, s, path))
    {
      var cut := FirstArrival(g, {t}, s, path);
      assert IsWithin(cells, t, UpperCost(g, s, cut));
    }
  }

  ghost predicate TurnsAreFree(g: Roads) {
    forall u :: g.IsNode(u) ==> g.MayTurn(u) && g.TurnTime(u) == 0.0
  }

  lemma {:induction false} FreeTurnsCost(g: Roads, targets: set<int>, s: int, path: seq<int>)
    requires g.Valid() && TurnsAreFree(g) && IsPath(g, targets, s, path)
    ensures TurnAwareCost(g, path) == UpperCost(g, s, path) == TravelTime(g, path) && IsLegal(g, path)
  {
    if |path| > 1 {
      Split(g, targets, s, path);
      FreeTurnsCost(g, targets, s, path[..|path| - 1]);
    }
  }

  // Without turning time the cell of a single target is exactly the least travel time.
  lemma FreeTurnsAreExact(g: Roads, s: int, t: int, cells: map<int, Cell>)
    requires g.Valid() && TurnsAreFree(g) && cells.Keys == {t}
    requires Sound(g, {t}, s, cells) && Complete(g, {t}, s, cells)
    ensures cells[t].Unreachable? <==> !Reachable(g, {}, s, t)
    ensures cells[t].Value? ==> exists path :: LeadsTo(g, {}, s, path, t) && TravelTime(g, path) == cells[t].seconds
    ensures forall path {:trigger TravelTime(g, path)} :: LeadsTo(g, {}, s, path, t) ==> IsWithin(cells, t, TravelTime(g, path))
  {
    SingleTarget(g, s, t, cells);
    if cells[t].Value? {
      assert HasPath(g, {}, s, t, cells[t].seconds);
      var path :| IsPath(g, {}, s, path) && path[|path| - 1] == t && TurnAwareCost(g, path) == cells[t].seconds;
      FreeTurnsCost(g, {}, s, path);
      assert LeadsTo(g, {}, s, path, t);
    }
    forall path {:trigger TravelTime(g, path)} | LeadsTo(g, {}, s, path, t) ensures IsWithin(cells, t, TravelTime(g, path)) {
      FreeTurnsCost(g, {}, s, path);
      AllPathsAreOpen(g, {}, s, path);
      assert IsWithin(cells, t, UpperCost(g, s, path));
    }
  }

  // Node 2 lies behind node 1; asked for both from node 0, the code calls 2 unreachable
  // although a passable path leads there.
  lemma AnotherTargetHides(g: Roads, cells: map<int, Cell>)
    requires g.Valid() && g.size == 3 && (forall u :: g.MayPass(u))
    requires forall u, v :: g.HasEdge(u, v) <==> (u == 0 && v == 1) || (u == 1 && v == 2)
    requires cells.Keys == {1, 2} && Sound(g, {1, 2}, 0, cells)
    ensures cells[2] == Unreachable && Reachable(g, {}, 0, 2)
  {
    var path := [0, 1, 2];
    assert g.HasEdge(0, 1) && g.HasEdge(1, 2);
    assert LeadsTo(g, {}, 0, path, 2);
    if cells[2].Value? {
      assert HasPath(g, {1, 2}, 0, 2, cells[2].seconds);
      var p :| IsPath(g, {1, 2}, 0, p) && p[|p| - 1] == 2 && TurnAwareCost(g, p) == cells[2].seconds;
      Split(g, {1, 2}, 0, p);
    }
  }

  // 0 leads straight to 1 and on to 2 and 3, and on another direction directly to 2, which is
  // shorter. Node 2 allows no turn.
  ghost predicate TwoWaysIn(g: Roads) {
    && g.Valid() && g.size == 4 && (forall u :: g.MayPass(u)) && (forall u :: g.MayTurn(u) <==> u != 2)
    && (forall u, v :: g.HasEdge(u, v) <==> (u, v) in {(0, 1), (1, 2), (0, 2), (2, 3)})
    && g.Dir(0, 1) == g.Dir(1, 2) == g.Dir(2, 3) == 1 && g.Dir(0, 2) == 2
    && g.Time(0, 1) == g.Time(1, 2) == g.Time(0, 2) == 1.0
  }

  lemma WaysIn(g: Roads, path: seq<int>)
    requires TwoWaysIn(g) && IsPath(g, {3}, 0, path)
    ensures path[|path| - 1] == 0 ==> path == [0]
    ensures path[|path| - 1] == 1 ==> path == [0, 1]
    ensures path[|path| - 1] == 2 ==> path == [0, 2] || path == [0, 1, 2]
    ensures path[|path| - 1] == 3 ==> path == [0, 2, 3] || path == [0, 1, 2, 3]
    decreases |path|
  {
    if |path| > 1 {
      Split(g, {3}, 0, path);
      var front := path[..|path| - 1];
      WaysIn(g, front);
      assert path == front + [path[|path| - 1]];
    }
  }

  // One label per node: the shorter way into node 2 hides the only one that leads on, so node 3
  // is called unreachable although a legal path leads there.
  lemma OneLabelHides(g: Roads, cells: map<int, Cell>)
    requires TwoWaysIn(g) && cells.Keys == {3} && Sound(g, {3}, 0, cells)
    ensures cells[3] == Unreachable
    ensures IsPath(g, {3}, 0, [0, 1, 2, 3]) && IsLegal(g, [0, 1, 2, 3])
  {
    LegalWay(g);
    if cells[3].Value? {
      assert HasThriftyPath(g, {3}, 0, 3, cells[3].seconds);
      var path :| IsPath(g, {3}, 0, path) && path[|path| - 1] == 3 && IsLegal(g, path) && IsThrifty(g, {3}, 0, path);
      NoThriftyWay(g, path);
    }
  }

  lemma NoThriftyWay(g: Roads, path: seq<int>)
    requires TwoWaysIn(g) && IsPath(g, {3}, 0, path) && path[|path| - 1] == 3 && IsLegal(g, path)
    ensures !IsThrifty(g, {3}, 0, path)
  {
    WaysIn(g, path);
    ShorterWay(g);
    var round := [0, 1, 2];
    assert path == [0, 1, 2, 3] ==> path[..|path| - 1] == round;
  }

  // What one more node adds.
  lemma Appended(g: Roads, s: int, path: seq<int>, v: int)
    requires |path| >= 1
    ensures var u := path[|path| - 1]; var turn := IsTurn(LastDir(g, path), g.Dir(u, v));
      && LastDir(g, path + [v]) == g.Dir(u, v)
      && TurnAwareCost(g, path + [v]) == TurnAwareCost(g, path) + g.Time(u, v) + (if turn then g.TurnTime(u) else 0.0)
      && UpperCost(g, s, path + [v]) == UpperCost(g, s, path) + UpperPrice(g, s, u, v)
      && (IsLegal(g, path + [v]) <==> IsLegal(g, path) && (turn ==> g.MayTurn(u)))
  {
    assert (path + [v])[..|path|] == path;
  }

  lemma LegalWay(g: Roads)
    requires TwoWaysIn(g)
    ensures IsPath(g, {3}, 0, [0, 1, 2, 3]) && IsLegal(g, [0, 1, 2, 3])
  {
    assert g.HasEdge(0, 1) && g.HasEdge(1, 2) && g.HasEdge(2, 3);
    assert [0] + [1] == [0, 1] && [0, 1] + [2] == [0, 1, 2] && [0, 1, 2] + [3] == [0, 1, 2, 3];
    Appended(g, 0, [0], 1);
    Appended(g, 0, [0, 1], 2);
    Appended(g, 0, [0, 1, 2], 3);
  }

  lemma ShorterWay(g: Roads)
    requires TwoWaysIn(g)
    ensures !IsLegal(g, [0, 2, 3]) && !IsBounded(g, {3}, 0, [0, 1, 2])
  {
    assert g.HasEdge(0, 2) && g.HasEdge(0, 1) && g.HasEdge(1, 2);
    assert [0] + [1] == [0, 1] && [0, 1] + [2] == [0, 1, 2] && [0] + [2] == [0, 2] && [0, 2] + [3] == [0, 2, 3];
    Appended(g, 0, [0], 1);
    Appended(g, 0, [0, 1], 2);
    Appended(g, 0, [0], 2);
    Appended(g, 0, [0, 2], 3);
    var direct := [0, 2];
    assert IsOpenPath(g, {3}, 0, direct) && UpperCost(g, 0, direct) == 1.0;
  }
}

// The loop of `shortestPathFinder`: a heuristic search that reopens nothing and does not
// push an open node again.
module HeuristicFinder {
  import opened Util
  import opened Dijkstra
  import opened ShortestPathMeaning

  // Labels of passable nodes stand for legal paths.
  ghost predicate Explained(g: Roads, s: int, dist: Dists, dir: seq<int>, wit: map<int, seq<int>>) {
    && |dist| == |dir| == g.size
    && forall v {:trigger wit[v]} {:trigger dist[v]} :: IsLabelled(g, dist, v) ==>
      v in wit && Explains(g, {}, s, wit[v], v, dist[v].value, dir[v])
  }

  predicate IsLabelled(g: Roads, dist: Dists, v: int) {
    0 <= v < |dist| && dist[v].Some? && g.MayPass(v)
  }

  // Every labelled passable node waits in the heap or is closed.
  ghost predicate Tracked(g: Roads, dist: Dists, open: set<int>, closed: set<int>, heap: Queue) {
    && (forall v :: IsLabelled(g, dist, v) ==> v in open || v in closed)
    && (forall v :: v in open ==> InHeap(heap, v))
    && (forall e :: e in heap ==> IsLabelled(g, dist, e.1))
    && (forall v :: v in closed ==> v !in open && IsLabelled(g, dist, v))
  }

  ghost predicate InHeap(heap: Queue, v: int) { exists e :: e in heap && e.1 == v }

  // A closed node has labelled what it leads to openly.
  ghost predicate Spread(g: Roads, s: int, dist: Dists, u: int, next: seq<int>) {
    forall v {:trigger g.Open(s, u, v)} :: v in next && g.Open(s, u, v) ==> IsLabelled(g, dist, v)
  }

  ghost predicate AllSpread(g: Roads, s: int, dist: Dists, closed: set<int>) {
    forall u {:trigger Spread(g, s, dist, u, g.Next(u))} :: u in closed ==> Spread(g, s, dist, u, g.Next(u))
  }

  ghost predicate Grows(dist0: Dists, dist: Dists) {
    |dist| == |dist0| && forall v {:trigger dist[v]} :: 0 <= v < |dist| && dist0[v].Some? ==> dist[v].Some?
  }

  lemma SpreadStays(g: Roads, s: int, dist0: Dists, dist: Dists, u: int, next: seq<int>)
    requires Spread(g, s, dist0, u, next) && Grows(dist0, dist)
    ensures Spread(g, s, dist, u, next)
  {
    forall v | v in next && g.Open(s, u, v) ensures IsLabelled(g, dist, v) {
      assert IsLabelled(g, dist0, v);
    }
  }

  lemma {:induction false} EmptyHeapMeansClosed(g: Roads, s: int, dist: Dists, open: set<int>, closed: set<int>, path: seq<int>)
    requires g.Valid() && Tracked(g, dist, open, closed, multiset{}) && AllSpread(g, s, dist, closed)
    requires IsOpenPath(g, {}, s, path) && IsLabelled(g, dist, s)
    ensures path[|path| - 1] in closed
    decreases |path|
  {
    var v := path[|path| - 1];
    if |path| > 1 {
      SplitOpen(g, {}, s, path);
      EmptyHeapMeansClosed(g, s, dist, open, closed, path[..|path| - 1]);
      var u := path[|path| - 2];
      assert Spread(g, s, dist, u, g.Next(u)) && g.Open(s, u, v);
    }
    assert IsLabelled(g, dist, v);
    assert v in open ==> InHeap(multiset{}, v);
  }

  // A shorter legal way to v replaces its label; impassable nodes are labelled too.
  lemma LabelKeepsExplained(g: Roads, s: int, dist: Dists, dir: seq<int>, wit: map<int, seq<int>>, u: int, v: int)
      returns (wit': map<int, seq<int>>)
    requires g.Valid() && Explained(g, s, dist, dir, wit) && IsLabelled(g, dist, u) && g.HasEdge(u, v)
    requires IsTurn(dir[u], g.Dir(u, v)) ==> g.MayTurn(u)
    ensures Explained(g, s, dist[v := Some(OfferedDist(g, dist, dir, u, v))], dir[v := g.Dir(u, v)], wit')
  {
    wit' := wit[v := wit[u] + [v]];
    assert Explains(g, {}, s, wit[u], u, dist[u].value, dir[u]);
    if g.MayPass(v) {
      ExtendExplained(g, {}, s, wit[u], u, dist[u].value, dir[u], v);
    }
    RelabelKeepsExplained(g, s, dist, dir, wit, v, wit[u] + [v], OfferedDist(g, dist, dir, u, v), g.Dir(u, v));
  }

  lemma RelabelKeepsExplained(g: Roads, s: int, dist: Dists, dir: seq<int>, wit: map<int, seq<int>>,
                              v: int, path: seq<int>, d: real, e: int)
    requires Explained(g, s, dist, dir, wit) && 0 <= v < |dist|
    requires g.MayPass(v) ==> Explains(g, {}, s, path, v, d, e)
    ensures Explained(g, s, dist[v := Some(d)], dir[v := e], wit[v := path])
  {
    var dist', dir', wit' := dist[v := Some(d)], dir[v := e], wit[v := path];
    forall x | IsLabelled(g, dist', x)
      ensures x in wit' && Explains(g, {}, s, wit'[x], x, dist'[x].value, dir'[x])
    {
      if x != v { assert IsLabelled(g, dist, x) && dist'[x] == dist[x] && wit'[x] == wit[x]; }
    }
  }

  lemma OpenArcIsOffered(g: Roads, s: int, dist: Dists, dir: seq<int>, wit: map<int, seq<int>>, u: int, v: int)
    requires Explained(g, s, dist, dir, wit) && IsLabelled(g, dist, u) && 0 <= s < |dir| && dir[s] == 0
    ensures g.Open(s, u, v) ==> g.HasEdge(u, v) && g.MayPass(v) && (IsTurn(dir[u], g.Dir(u, v)) ==> g.MayTurn(u))
  {
    LabelAllowsOpenArc(g, {}, s, wit[u], u, dist[u].value, dir[u], v);
  }

  // What one neighbour of the closed node u changes.
  method Relax(g: Roads, s: int, h: int -> real, u: int, v: int, closed: set<int>, dist0: Dists, dir0: seq<int>,
               open0: set<int>, heap0: Queue, ghost wit0: map<int, seq<int>>)
      returns (dist: Dists, dir: seq<int>, open: set<int>, heap: Queue, ghost wit: map<int, seq<int>>)
    requires g.Valid() && Explained(g, s, dist0, dir0, wit0) && Tracked(g, dist0, open0, closed, heap0)
    requires u in closed && s in closed && dir0[s] == 0
    ensures Explained(g, s, dist, dir, wit) && Tracked(g, dist, open, closed, heap)
    ensures Grows(dist0, dist) && dir[s] == 0
    ensures g.Open(s, u, v) ==> IsLabelled(g, dist, v)
  {
    dist, dir, open, heap, wit := dist0, dir0, open0, heap0, wit0;
    assert IsLabelled(g, dist, s) && IsLabelled(g, dist, u);
    OpenArcIsOffered(g, s, dist, dir, wit, u, v);
    if v in closed || !g.HasEdge(u, v) { return; }
    var turn := IsTurn(dir[u], g.Dir(u, v));
    if turn && !g.MayTurn(u) { return; }
    var tentative := OfferedDist(g, dist, dir, u, v);
    if dist[v].None? || tentative < dist[v].value {
      wit := LabelKeepsExplained(g, s, dist, dir, wit, u, v);
      TrackedGrows(g, dist, open, closed, heap, v, tentative, tentative + h(v));
      dist, dir := dist[v := Some(tentative)], dir[v := g.Dir(u, v)];
      if g.MayPass(v) && v !in open {
        open, heap := open + {v}, heap + multiset{(tentative + h(v), v)};
      }
    }
  }

  lemma TrackedGrows(g: Roads, dist0: Dists, open: set<int>, closed: set<int>, heap: Queue, v: int, d: real, f: real)
    requires Tracked(g, dist0, open, closed, heap) && 0 <= v < |dist0| && v !in closed
    ensures g.MayPass(v) && v !in open ==>
      Tracked(g, dist0[v := Some(d)], open + {v}, closed, heap + multiset{(f, v)})
    ensures !g.MayPass(v) || v in open ==> Tracked(g, dist0[v := Some(d)], open, closed, heap)
  {
    var dist := dist0[v := Some(d)];
    forall x | IsLabelled(g, dist, x) && x != v ensures x in open || x in closed {
      assert IsLabelled(g, dist0, x);
    }
    if g.MayPass(v) && v !in open {
      var heap' := heap + multiset{(f, v)};
      assert (f, v) in heap';
      forall x | x in open ensures InHeap(heap', x) {
        var e :| e in heap && e.1 == x;
        assert e in heap';
      }
    }
  }

  lemma CloseKeepsTracked(g: Roads, dist: Dists, open: set<int>, closed: set<int>, heap: Queue, e: (real, int))
    requires Tracked(g, dist, open, closed, heap) && e in heap && e.1 !in closed
    ensures Tracked(g, dist, open - {e.1}, closed + {e.1}, heap - multiset{e})
  {
    var rest := heap - multiset{e};
    forall x | x in open - {e.1} ensures InHeap(rest, x) {
      var o :| o in heap && o.1 == x;
      assert o in rest;
    }
  }

  lemma StaleKeepsTracked(g: Roads, dist: Dists, open: set<int>, closed: set<int>, heap: Queue, e: (real, int))
    requires Tracked(g, dist, open, closed, heap) && e in heap && e.1 in closed
    ensures Tracked(g, dist, open, closed, heap - multiset{e})
  {
    var rest := heap - multiset{e};
    forall x | x in open ensures InHeap(rest, x) {
      var o :| o in heap && o.1 == x;
      assert o in rest;
    }
  }

  // The neighbour loop of a node just closed.
  method RelaxAll(g: Roads, s: int, h: int -> real, u: int, closed: set<int>, dist0: Dists, dir0: seq<int>,
                  open0: set<int>, heap0: Queue, ghost wit0: map<int, seq<int>>)
      returns (dist: Dists, dir: seq<int>, open: set<int>, heap: Queue, ghost wit: map<int, seq<int>>)
    requires g.Valid() && Explained(g, s, dist0, dir0, wit0) && Tracked(g, dist0, open0, closed, heap0)
    requires u in closed && s in closed && dir0[s] == 0 && AllSpread(g, s, dist0, closed - {u})
    ensures Explained(g, s, dist, dir, wit) && Tracked(g, dist, open, closed, heap)
    ensures AllSpread(g, s, dist, closed)
    ensures Grows(dist0, dist) && dir[s] == 0
  {
    dist, dir, open, heap, wit := dist0, dir0, open0, heap0, wit0;
    var next := g.Next(u);
    for i := 0 to |next|
      invariant Explained(g, s, dist, dir, wit) && Tracked(g, dist, open, closed, heap)
      invariant Grows(dist0, dist) && dir[s] == 0 && Spread(g, s, dist, u, next[..i])
    {
      ghost var before := dist;
      dist, dir, open, heap, wit := Relax(g, s, h, u, next[i], closed, dist, dir, open, heap, wit);
      SpreadStays(g, s, before, dist, u, next[..i]);
      SpreadGrows(g, s, dist, u, next, i);
    }
    assert next[..|next|] == next;
    AllSpreadWith(g, s, dist0, dist, closed, u);
  }

  lemma SpreadGrows(g: Roads, s: int, dist: Dists, u: int, next: seq<int>, i: nat)
    requires i < |next| && Spread(g, s, dist, u, next[..i]) && (g.Open(s, u, next[i]) ==> IsLabelled(g, dist, next[i]))
    ensures Spread(g, s, dist, u, next[..i + 1])
  {
    assert forall v :: v in next[..i + 1] ==> v == next[i] || v in next[..i];
  }

  lemma AllSpreadWith(g: Roads, s: int, dist0: Dists, dist: Dists, closed: set<int>, u: int)
    requires AllSpread(g, s, dist0, closed - {u}) && Grows(dist0, dist) && Spread(g, s, dist, u, g.Next(u))
    ensures AllSpread(g, s, dist, closed)
  {
    forall x | x in closed ensures Spread(g, s, dist, x, g.Next(x)) {
      if x != u {
        assert Spread(g, s, dist0, x, g.Next(x));
        SpreadStays(g, s, dist0, dist, x, g.Next(x));
      }
    }
  }

  // The loop's invariant, with the end not yet closed.
  ghost predicate Searching(g: Roads, s: int, end: int, dist: Dists, dir: seq<int>, wit: map<int, seq<int>>,
                            open: set<int>, closed: set<int>, heap: Queue)
  {
    && g.Valid() && Explained(g, s, dist, dir, wit) && Tracked(g, dist, open, closed, heap)
    && StartIsFirst(g, s, dist, dir, closed) && end !in closed && AllSpread(g, s, dist, closed)
  }

  // The start is closed before any other node is labelled, so its label stays.
  ghost predicate StartIsFirst(g: Roads, s: int, dist: Dists, dir: seq<int>, closed: set<int>) {
    && IsLabelled(g, dist, s) && |dir| == |dist| && dir[s] == 0
    && (s in closed || (closed == {} && forall v :: IsLabelled(g, dist, v) ==> v == s))
  }

  lemma StartSearching(g: Roads, s: int, end: int, f: real)
    requires g.Valid() && g.IsNode(s) && g.MayPass(s)
    ensures Searching(g, s, end, seq(g.size, _ => None)[s := Some(0.0)], seq(g.size, _ => 0), map[s := [s]], {s}, {}, multiset{(f, s)})
  {
    assert (f, s) in multiset{(f, s)};
  }

  // A popped entry is dropped when its node is closed already; otherwise the node is closed
  // and its neighbours are offered labels.
  method PopOne(g: Roads, s: int, end: int, h: int -> real, e: (real, int), dist0: Dists, dir0: seq<int>,
                ghost wit0: map<int, seq<int>>, open0: set<int>, closed0: set<int>, heap0: Queue)
      returns (dist: Dists, dir: seq<int>, ghost wit: map<int, seq<int>>, open: set<int>, closed: set<int>, heap: Queue)
    requires Searching(g, s, end, dist0, dir0, wit0, open0, closed0, heap0)
    requires e in heap0 && e.1 != end
    ensures Searching(g, s, end, dist, dir, wit, open, closed, heap)
    ensures g.IsNode(e.1)
    ensures if e.1 in closed0 then closed == closed0 && heap == heap0 - multiset{e} else closed == closed0 + {e.1}
  {
    var u := e.1;
    dist, dir, wit, open, closed, heap := dist0, dir0, wit0, open0, closed0, heap0 - multiset{e};
    assert IsLabelled(g, dist, u);
    if u in closed {
      StaleKeepsTracked(g, dist, open, closed, heap0, e);
    } else {
      CloseKeepsTracked(g, dist, open, closed, heap0, e);
      open, closed := open - {u}, closed + {u};
      assert closed - {u} == closed0;
      dist, dir, open, heap, wit := RelaxAll(g, s, h, u, closed, dist, dir, open, heap, wit);
      assert IsLabelled(g, dist0, s);
    }
  }

  lemma NothingLeft(g: Roads, s: int, end: int, dist: Dists, dir: seq<int>, wit: map<int, seq<int>>,
                    open: set<int>, closed: set<int>)
    requires Searching(g, s, end, dist, dir, wit, open, closed, multiset{})
    ensures !OpenlyReachable(g, {}, s, end)
  {
    if OpenlyReachable(g, {}, s, end) {
      var path :| LeadsOpenlyTo(g, {}, s, path, end);
      EmptyHeapMeansClosed(g, s, dist, open, closed, path);
    }
  }

  lemma EndIsExplained(g: Roads, s: int, end: int, dist: Dists, dir: seq<int>, wit: map<int, seq<int>>,
                       open: set<int>, closed: set<int>, heap: Queue, e: (real, int))
    requires Searching(g, s, end, dist, dir, wit, open, closed, heap) && e in heap && e.1 == end
    ensures IsLabelled(g, dist, end) && HasPath(g, {}, s, end, dist[end].value) && Reachable(g, {}, s, end)
  {
    assert IsLabelled(g, dist, e.1);
    assert Explains(g, {}, s, wit[end], end, dist[end].value, dir[end]);
    assert LeadsTo(g, {}, s, wit[end], end);
  }

  // Whatever the heuristic, a value is the cost of a legal path, and one comes back where an
  // open path exists; with turning allowed everywhere exactly when some passable path does.
  method FindTime(g: Roads, s: int, end: int, h: int -> real) returns (cell: Cell)
    requires g.Valid() && g.IsNode(s)
    ensures cell.Value? ==> HasPath(g, {}, s, end, cell.seconds)
    ensures OpenlyReachable(g, {}, s, end) ==> cell.Value?
    ensures g.TurnsEverywhere() ==> (cell.Value? <==> Reachable(g, {}, s, end))
  {
    if g.TurnsEverywhere() { ReachableMeansOpenly(g, {}, s, end); }
    if !g.MayPass(s) { return Unreachable; }
    var dist: Dists := seq(g.size, _ => None)[s := Some(0.0)];
    var dir: seq<int> := seq(g.size, _ => 0);
    var open, closed: set<int> := {s}, {};
    var heap := multiset{(h(s), s)};
    ghost var wit: map<int, seq<int>> := map[s := [s]];
    StartSearching(g, s, end, h(s));
    while heap != multiset{}
      invariant Searching(g, s, end, dist, dir, wit, open, closed, heap)
      decreases Nodes(g) - closed, |heap|
    {
      var e := PopLeast(heap);
      if e.1 == end {
        EndIsExplained(g, s, end, dist, dir, wit, open, closed, heap, e);
        return Value(dist[end].value);
      }
      dist, dir, wit, open, closed, heap := PopOne(g, s, end, h, e, dist, dir, wit, open, closed, heap);
      assert e.1 in Nodes(g);
    }
    NothingLeft(g, s, end, dist, dir, wit, open, closed);
    cell := Unreachable;
  }
}
