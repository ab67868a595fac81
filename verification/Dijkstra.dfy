// The Dijkstra loop of `batchQueryByNodeId`, with one direction label per node and target
// nodes that are not expanded, over any road network.
module Dijkstra {
  import opened Util

  // Travel times, arc directions (0 means none yet), and where passing and turning is allowed.
  datatype Roads = Roads(
    size: nat,
    successors: int -> seq<int>,
    arcs: (int, int) -> bool,
    times: (int, int) -> real,
    directions: (int, int) -> int,
    turnTimes: int -> real,
    passTable: int -> bool,
    turnTable: int -> bool)
  {
    predicate IsNode(u: int) { 0 <= u < size }
    function Next(u: int): seq<int> { successors(u) }
    function Time(u: int, v: int): real { times(u, v) }
    function Dir(u: int, v: int): int { directions(u, v) }
    function TurnTime(u: int): real { turnTimes(u) }
    predicate MayPass(u: int) { passTable(u) }
    predicate MayTurn(u: int) { turnTable(u) }

    // v is listed after u and has an edge.
    predicate HasEdge(u: int, v: int) { arcs(u, v) }

    // An edge to a node that may be passed.
    predicate Arc(u: int, v: int) { HasEdge(u, v) && MayPass(v) }

    ghost predicate Valid() {
      && (forall u, v :: HasEdge(u, v) ==> IsNode(u) && IsNode(v) && v in Next(u) && Time(u, v) >= 0.0)
      && (forall u :: IsNode(u) ==> TurnTime(u) >= 0.0)
    }

    ghost predicate TurnsEverywhere() {
      forall u :: IsNode(u) ==> MayTurn(u)
    }

    // Going on from u to v is never a turn, however u was entered.
    ghost predicate NeverTurns(s: int, u: int, v: int) {
      u == s || forall w :: Arc(w, u) ==> !IsTurn(Dir(w, u), Dir(u, v))
    }

    // An arc that may be taken however its start was entered.
    ghost predicate Open(s: int, u: int, v: int) {
      Arc(u, v) && (MayTurn(u) || NeverTurns(s, u, v))
    }
  }

  // A path of passable nodes from s that meets no target before its end.
  ghost predicate IsPath(g: Roads, targets: set<int>, s: int, path: seq<int>) {
    && |path| >= 1 && path[0] == s && g.IsNode(s) && g.MayPass(s)
    && forall i :: 0 <= i < |path| - 1 ==> g.Arc(path[i], path[i + 1]) && path[i] !in targets
  }

  function LastDir(g: Roads, path: seq<int>): int
    requires |path| >= 1
  {
    if |path| == 1 then 0 else g.Dir(path[|path| - 2], path[|path| - 1])
  }

  // Whether going on from u, entered in direction d, in direction e is a turn.
  predicate IsTurn(d: int, e: int) { d != 0 && d != e }

  // Every turn happens at a node that allows it.
  ghost predicate IsLegal(g: Roads, path: seq<int>)
    requires |path| >= 1
  {
    |path| == 1 ||
    var front := path[..|path| - 1];
    var u, v := path[|path| - 2], path[|path| - 1];
    IsLegal(g, front) && (IsTurn(LastDir(g, front), g.Dir(u, v)) ==> g.MayTurn(u))
  }

  // Travel time plus turning time at every node where the direction changes.
  ghost function TurnAwareCost(g: Roads, path: seq<int>): real
    requires |path| >= 1
  {
    if |path| == 1 then 0.0
    else
      var front := path[..|path| - 1];
      var u, v := path[|path| - 2], path[|path| - 1];
      TurnAwareCost(g, front) + g.Time(u, v) + (if IsTurn(LastDir(g, front), g.Dir(u, v)) then g.TurnTime(u) else 0.0)
  }

  // What an arc costs at most: its time, and the turning time if it can be a turn.
  ghost function UpperPrice(g: Roads, s: int, u: int, v: int): real {
    g.Time(u, v) + (if g.NeverTurns(s, u, v) then 0.0 else g.TurnTime(u))
  }

  ghost function UpperCost(g: Roads, s: int, path: seq<int>): real
    requires |path| >= 1
  {
    if |path| == 1 then 0.0
    else UpperCost(g, s, path[..|path| - 1]) + UpperPrice(g, s, path[|path| - 2], path[|path| - 1])
  }

  // A path of arcs that may be taken however one comes.
  ghost predicate IsOpenPath(g: Roads, targets: set<int>, s: int, path: seq<int>) {
    IsPath(g, targets, s, path) && forall i :: 0 <= i < |path| - 1 ==> g.Open(s, path[i], path[i + 1])
  }

  lemma SplitOpen(g: Roads, targets: set<int>, s: int, path: seq<int>)
    requires IsOpenPath(g, targets, s, path) && |path| >= 2
    ensures IsOpenPath(g, targets, s, path[..|path| - 1])
    ensures g.Open(s, path[|path| - 2], path[|path| - 1]) && path[|path| - 2] !in targets
  {
    Split(g, targets, s, path);
    var i, front := |path| - 2, path[..|path| - 1];
    assert g.Open(s, path[i], path[i + 1]);
    forall k | 0 <= k < |front| - 1 ensures g.Open(s, front[k], front[k + 1]) {
      assert g.Open(s, path[k], path[k + 1]);
    }
  }

  // Interior nodes that allow turning make a path open; so does allowing it everywhere.
  lemma TurningNodesOpenPaths(g: Roads, targets: set<int>, s: int, path: seq<int>)
    requires IsPath(g, targets, s, path)
    requires forall i :: 0 < i < |path| - 1 && path[i] != s ==> g.MayTurn(path[i])
    ensures IsOpenPath(g, targets, s, path)
  {
    forall i | 0 <= i < |path| - 1 ensures g.Open(s, path[i], path[i + 1]) {
      assert g.Arc(path[i], path[i + 1]);
    }
  }

  lemma AllPathsAreOpen(g: Roads, targets: set<int>, s: int, path: seq<int>)
    requires g.Valid() && g.TurnsEverywhere() && IsPath(g, targets, s, path)
    ensures IsOpenPath(g, targets, s, path)
  {
    forall i | 0 < i < |path| - 1 ensures g.MayTurn(path[i]) {
      assert g.Arc(path[i], path[i + 1]);
    }
    TurningNodesOpenPaths(g, targets, s, path);
  }

  // A label's direction is that of some arc into its node, so a label never forbids an open arc.
  lemma LabelAllowsOpenArc(g: Roads, targets: set<int>, s: int, path: seq<int>, u: int, d: real, e: int, v: int)
    requires Explains(g, targets, s, path, u, d, e) && (u == s ==> e == 0)
    ensures g.NeverTurns(s, u, v) ==> !IsTurn(e, g.Dir(u, v))
  {
    if |path| > 1 {
      Split(g, targets, s, path);
      assert g.Arc(path[|path| - 2], u);
    }
  }

  ghost function TravelTime(g: Roads, path: seq<int>): real
    requires |path| >= 1
  {
    if |path| == 1 then 0.0
    else TravelTime(g, path[..|path| - 1]) + g.Time(path[|path| - 2], path[|path| - 1])
  }

  lemma Split(g: Roads, targets: set<int>, s: int, path: seq<int>)
    requires IsPath(g, targets, s, path) && |path| >= 2
    ensures IsPath(g, targets, s, path[..|path| - 1])
    ensures g.Arc(path[|path| - 2], path[|path| - 1]) && path[|path| - 2] !in targets
  {
    var i := |path| - 2;
    assert g.Arc(path[i], path[i + 1]);
    var front := path[..|path| - 1];
    forall k | 0 <= k < |front| - 1 ensures g.Arc(front[k], front[k + 1]) && front[k] !in targets {
      assert g.Arc(path[k], path[k + 1]);
    }
  }

  lemma Extend(g: Roads, targets: set<int>, s: int, path: seq<int>, v: int)
    requires IsPath(g, targets, s, path)
    requires g.Arc(path[|path| - 1], v) && path[|path| - 1] !in targets
    ensures IsPath(g, targets, s, path + [v])
    ensures LastDir(g, path + [v]) == g.Dir(path[|path| - 1], v)
    ensures var turn := IsTurn(LastDir(g, path), g.Dir(path[|path| - 1], v));
      && TurnAwareCost(g, path + [v]) == TurnAwareCost(g, path) + g.Time(path[|path| - 1], v)
           + (if turn then g.TurnTime(path[|path| - 1]) else 0.0)
      && (IsLegal(g, path) && (turn ==> g.MayTurn(path[|path| - 1])) ==> IsLegal(g, path + [v]))
  {
    var longer := path + [v];
    assert longer[..|longer| - 1] == path;
    forall k | 0 <= k < |longer| - 1 ensures g.Arc(longer[k], longer[k + 1]) && longer[k] !in targets {
      if k < |path| - 1 { assert g.Arc(path[k], path[k + 1]); }
    }
  }

  type Dists = seq<Option<real>>

  // Every labelled node has a legal path of exactly its distance that arrives in its direction.
  ghost predicate Witnessed(g: Roads, targets: set<int>, s: int, dist: Dists, dir: seq<int>, wit: map<int, seq<int>>) {
    && |dist| == |dir| == g.size
    && g.IsNode(s) && dist[s] == Some(0.0) && dir[s] == 0
    && forall v {:trigger wit[v]} {:trigger dist[v]} :: g.IsNode(v) && dist[v].Some? ==>
      v in wit && Explains(g, targets, s, wit[v], v, dist[v].value, dir[v]) && IsThrifty(g, targets, s, wit[v])
  }

  ghost predicate Explains(g: Roads, targets: set<int>, s: int, path: seq<int>, v: int, d: real, e: int) {
    && IsPath(g, targets, s, path) && path[|path| - 1] == v
    && IsLegal(g, path) && TurnAwareCost(g, path) == d && LastDir(g, path) == e
  }

  // No dearer than any open path to the same end.
  ghost predicate IsBounded(g: Roads, targets: set<int>, s: int, path: seq<int>)
    requires |path| >= 1
  {
    forall q {:trigger UpperCost(g, s, q)} :: IsOpenPath(g, targets, s, q) && q[|q| - 1] == path[|path| - 1] ==>
      TurnAwareCost(g, path) <= UpperCost(g, s, q)
  }

  // Before its last arc the path is nowhere dearer than an open path.
  ghost predicate IsThrifty(g: Roads, targets: set<int>, s: int, path: seq<int>)
    requires |path| >= 1
  {
    |path| == 1 || (IsThrifty(g, targets, s, path[..|path| - 1]) && IsBounded(g, targets, s, path[..|path| - 1]))
  }

  // One more edge explains the distance offered along it.
  lemma ExtendExplained(g: Roads, targets: set<int>, s: int, path: seq<int>, u: int, d: real, e: int, v: int)
    requires Explains(g, targets, s, path, u, d, e) && g.Arc(u, v) && u !in targets
    requires IsTurn(e, g.Dir(u, v)) ==> g.MayTurn(u)
    ensures Explains(g, targets, s, path + [v], v,
      d + g.Time(u, v) + (if IsTurn(e, g.Dir(u, v)) then g.TurnTime(u) else 0.0), g.Dir(u, v))
  {
    Extend(g, targets, s, path, v);
  }

  type Queue = multiset<(real, int)>

  // The queue holds every pending node's distance once, and nothing below a finished one.
  ghost predicate Queued(g: Roads, dist: Dists, done: set<int>, pq: Queue)
    requires |dist| == g.size
  {
    && (forall u :: u in done ==> g.IsNode(u) && dist[u].Some?)
    && (forall v {:trigger dist[v]} :: g.IsNode(v) && dist[v].Some? && v !in done ==> (dist[v].value, v) in pq)
    && (forall e :: e in pq ==> IsEntry(g, dist, done, e) && pq[e] == 1)
    && (forall u, e :: u in done && e in pq ==> NotBelow(dist, u, e))
  }

  ghost predicate IsEntry(g: Roads, dist: Dists, done: set<int>, e: (real, int))
    requires |dist| == g.size
  {
    g.IsNode(e.1) && dist[e.1].Some? && dist[e.1].value <= e.0 && (e.1 in done ==> dist[e.1].value < e.0)
  }

  predicate NotBelow(dist: Dists, u: int, e: (real, int)) {
    0 <= u < |dist| && dist[u].Some? && dist[u].value <= e.0
  }

  // Through an expanded node every open successor has been offered at most the arc's upper price.
  ghost predicate Offered(g: Roads, s: int, dist: Dists, u: int, next: seq<int>)
    requires |dist| == g.size && g.IsNode(u)
  {
    forall v {:trigger g.Open(s, u, v)} :: v in next && g.Open(s, u, v) ==> Reached(g, s, dist, u, v)
  }

  ghost predicate Reached(g: Roads, s: int, dist: Dists, u: int, v: int)
    requires |dist| == g.size && g.IsNode(u)
  {
    g.IsNode(v) && dist[u].Some? && dist[v].Some?
    && dist[v].value <= dist[u].value + UpperPrice(g, s, u, v)
  }

  ghost predicate AllOffered(g: Roads, targets: set<int>, s: int, dist: Dists, done: set<int>)
    requires |dist| == g.size
  {
    forall u {:trigger Offered(g, s, dist, u, g.Next(u))} ::
      g.IsNode(u) && u in done && u !in targets ==> Offered(g, s, dist, u, g.Next(u))
  }

  // A finished node's distance is at most the upper price of every open path to it.
  ghost predicate DoneIsBounded(g: Roads, targets: set<int>, s: int, dist: Dists, done: set<int>)
    requires |dist| == g.size
  {
    forall path {:trigger UpperCost(g, s, path)} ::
      IsOpenPath(g, targets, s, path) && path[|path| - 1] in done ==> AtMost(dist, path[|path| - 1], UpperCost(g, s, path))
  }

  predicate AtMost(dist: Dists, v: int, c: real) {
    0 <= v < |dist| && dist[v].Some? && dist[v].value <= c
  }

  lemma {:induction false} UpperCostNonNegative(g: Roads, targets: set<int>, s: int, path: seq<int>)
    requires g.Valid() && IsPath(g, targets, s, path)
    ensures UpperCost(g, s, path) >= 0.0
  {
    if |path| > 1 {
      Split(g, targets, s, path);
      UpperCostNonNegative(g, targets, s, path[..|path| - 1]);
    }
  }

  // While an open path's end is not finished, no queue entry is below the least one, which is
  // at most the path's upper price.
  lemma {:induction false} FrontierBound(g: Roads, targets: set<int>, s: int, dist: Dists, dir: seq<int>,
      wit: map<int, seq<int>>, done: set<int>, pq: Queue, d: real, path: seq<int>)
    requires g.Valid() && Witnessed(g, targets, s, dist, dir, wit) && Queued(g, dist, done, pq)
    requires AllOffered(g, targets, s, dist, done) && DoneIsBounded(g, targets, s, dist, done)
    requires forall e :: e in pq ==> d <= e.0
    requires IsOpenPath(g, targets, s, path) && path[|path| - 1] !in done
    ensures d <= UpperCost(g, s, path)
    decreases |path|
  {
    var v := path[|path| - 1];
    if |path| == 1 {
      assert (0.0, s) in pq;
    } else {
      SplitOpen(g, targets, s, path);
      var front := path[..|path| - 1];
      var u := path[|path| - 2];
      if u !in done {
        FrontierBound(g, targets, s, dist, dir, wit, done, pq, d, front);
      } else {
        assert AtMost(dist, u, UpperCost(g, s, front));
        assert Offered(g, s, dist, u, g.Next(u));
        assert Reached(g, s, dist, u, v);
        assert (dist[v].value, v) in pq;
      }
    }
  }

  // With an empty queue every open path ends in a finished node.
  lemma {:induction false} ExhaustedDone(g: Roads, targets: set<int>, s: int, dist: Dists, dir: seq<int>,
      wit: map<int, seq<int>>, done: set<int>, pq: Queue, path: seq<int>)
    requires g.Valid() && Witnessed(g, targets, s, dist, dir, wit) && Queued(g, dist, done, pq)
    requires AllOffered(g, targets, s, dist, done) && pq == multiset{}
    requires IsOpenPath(g, targets, s, path)
    ensures path[|path| - 1] in done
    decreases |path|
  {
    var v := path[|path| - 1];
    if |path| > 1 {
      SplitOpen(g, targets, s, path);
      ExhaustedDone(g, targets, s, dist, dir, wit, done, pq, path[..|path| - 1]);
      var u := path[|path| - 2];
      assert Offered(g, s, dist, u, g.Next(u));
      assert Reached(g, s, dist, u, v);
    }
    var key := (dist[v].value, v);
    assert v !in done ==> key in pq;
  }

  // The whole invariant; `expanded` are the finished nodes whose successors are all offered.
  ghost predicate Searching(g: Roads, targets: set<int>, s: int, dist: Dists, dir: seq<int>,
                            wit: map<int, seq<int>>, done: set<int>, expanded: set<int>, pq: Queue)
  {
    && g.Valid() && Witnessed(g, targets, s, dist, dir, wit) && Queued(g, dist, done, pq)
    && AllOffered(g, targets, s, dist, expanded) && DoneIsBounded(g, targets, s, dist, done)
  }

  ghost predicate IsLeast(e: (real, int), pq: Queue) {
    e in pq && forall o :: o in pq ==> e.0 <= o.0
  }

  lemma {:induction false} LeastExists(pq: Queue)
    requires pq != multiset{}
    ensures exists e :: IsLeast(e, pq)
    decreases |pq|
  {
    var x :| x in pq;
    var rest := pq - multiset{x};
    if rest == multiset{} {
      assert pq == multiset{x};
      assert IsLeast(x, pq);
    } else {
      LeastExists(rest);
      var y :| IsLeast(y, rest);
      assert forall o :: o in pq ==> o == x || o in rest;
      assert IsLeast(if x.0 <= y.0 then x else y, pq);
    }
  }

  // Finishing the popped node.
  lemma FinishKeeps(g: Roads, targets: set<int>, s: int, dist: Dists, dir: seq<int>,
                    wit: map<int, seq<int>>, done: set<int>, pq: Queue, e: (real, int))
    requires Searching(g, targets, s, dist, dir, wit, done, done, pq)
    requires IsLeast(e, pq) && dist[e.1] == Some(e.0)
    ensures e.1 !in done
    ensures Searching(g, targets, s, dist, dir, wit, done + {e.1}, done, pq - multiset{e})
  {
    assert IsEntry(g, dist, done, e);
    var done', rest := done + {e.1}, pq - multiset{e};
    forall o | o in rest ensures IsEntry(g, dist, done', o) && rest[o] == 1 {
      assert IsEntry(g, dist, done, o);
      assert o != e;
    }
    forall u, o | u in done' && o in rest ensures NotBelow(dist, u, o) {
      if u in done { assert NotBelow(dist, u, o); }
    }
    forall path | IsOpenPath(g, targets, s, path) && path[|path| - 1] in done'
      ensures AtMost(dist, path[|path| - 1], UpperCost(g, s, path))
    {
      if path[|path| - 1] !in done {
        FrontierBound(g, targets, s, dist, dir, wit, done, pq, e.0, path);
      }
    }
  }

  // A stale entry may be dropped.
  lemma DropKeeps(g: Roads, targets: set<int>, s: int, dist: Dists, dir: seq<int>,
                  wit: map<int, seq<int>>, done: set<int>, pq: Queue, e: (real, int))
    requires Searching(g, targets, s, dist, dir, wit, done, done, pq)
    requires e in pq && dist[e.1] != Some(e.0)
    ensures Searching(g, targets, s, dist, dir, wit, done, done, pq - multiset{e})
  {
    var rest := pq - multiset{e};
    forall o | o in rest ensures IsEntry(g, dist, done, o) && rest[o] == 1 {
      assert IsEntry(g, dist, done, o) && pq[o] == 1;
    }
  }

  // Recording a shorter way to an unfinished node keeps the paths, the queue and the bounds.
  lemma ImproveWitness(g: Roads, targets: set<int>, s: int, dist: Dists, dir: seq<int>, wit: map<int, seq<int>>,
                       done: set<int>, u: int, v: int)
      returns (wit': map<int, seq<int>>)
    requires Witnessed(g, targets, s, dist, dir, wit) && DoneIsBounded(g, targets, s, dist, done)
    requires g.IsNode(u) && dist[u].Some? && u in done && u !in targets && g.Arc(u, v) && g.IsNode(v) && v != s
    requires IsTurn(dir[u], g.Dir(u, v)) ==> g.MayTurn(u)
    ensures Witnessed(g, targets, s, dist[v := Some(OfferedDist(g, dist, dir, u, v))], dir[v := g.Dir(u, v)], wit')
  {
    var path := wit[u];
    ExtendExplained(g, targets, s, path, u, dist[u].value, dir[u], v);
    ExtendThrifty(g, targets, s, dist, done, path, v);
    wit' := wit[v := path + [v]];
  }

  lemma ExtendThrifty(g: Roads, targets: set<int>, s: int, dist: Dists, done: set<int>, path: seq<int>, v: int)
    requires |dist| == g.size && DoneIsBounded(g, targets, s, dist, done)
    requires |path| >= 1 && IsThrifty(g, targets, s, path)
    requires var u := path[|path| - 1]; u in done && 0 <= u < |dist| && dist[u] == Some(TurnAwareCost(g, path))
    ensures IsThrifty(g, targets, s, path + [v])
  {
    assert (path + [v])[..|path|] == path;
    forall q {:trigger UpperCost(g, s, q)} | IsOpenPath(g, targets, s, q) && q[|q| - 1] == path[|path| - 1]
      ensures TurnAwareCost(g, path) <= UpperCost(g, s, q)
    {
      assert AtMost(dist, q[|q| - 1], UpperCost(g, s, q));
    }
  }

  lemma ImproveQueue(g: Roads, dist: Dists, done: set<int>, pq: Queue, v: int, nd: real)
    requires |dist| == g.size && Queued(g, dist, done, pq)
    requires g.IsNode(v) && v !in done && (dist[v].None? || nd < dist[v].value)
    requires forall x :: x in done ==> AtMost(dist, x, nd)
    ensures Queued(g, dist[v := Some(nd)], done, pq + multiset{(nd, v)})
  {
    var dist', pq' := dist[v := Some(nd)], pq + multiset{(nd, v)};
    forall e | e in pq' ensures IsEntry(g, dist', done, e) && pq'[e] == 1 {
      if e in pq { assert IsEntry(g, dist, done, e); }
    }
    forall x, e | x in done && e in pq' ensures NotBelow(dist', x, e) {
      if e in pq { assert NotBelow(dist, x, e); } else { assert AtMost(dist, x, nd); }
    }
  }

  lemma ImproveBounds(g: Roads, targets: set<int>, s: int, dist: Dists, done: set<int>, expanded: set<int>,
                      v: int, nd: real)
    requires |dist| == g.size && g.IsNode(v) && v !in done && expanded <= done
    requires AllOffered(g, targets, s, dist, expanded) && DoneIsBounded(g, targets, s, dist, done)
    requires dist[v].None? || nd < dist[v].value
    ensures AllOffered(g, targets, s, dist[v := Some(nd)], expanded)
    ensures DoneIsBounded(g, targets, s, dist[v := Some(nd)], done)
  {
    var dist' := dist[v := Some(nd)];
    forall x | g.IsNode(x) && x in expanded && x !in targets ensures Offered(g, s, dist', x, g.Next(x)) {
      assert Offered(g, s, dist, x, g.Next(x));
      forall y | y in g.Next(x) && g.Open(s, x, y) ensures Reached(g, s, dist', x, y) {
        assert Reached(g, s, dist, x, y);
      }
    }
    forall path | IsOpenPath(g, targets, s, path) && path[|path| - 1] in done
      ensures AtMost(dist', path[|path| - 1], UpperCost(g, s, path))
    {
      assert AtMost(dist, path[|path| - 1], UpperCost(g, s, path));
    }
  }

  // What is written for a target.
  datatype Cell = Value(seconds: real) | Unreachable

  // Some legal path to t that meets no other target costs exactly c.
  ghost predicate HasPath(g: Roads, targets: set<int>, s: int, t: int, c: real) {
    exists path {:trigger TurnAwareCost(g, path)} ::
      IsPath(g, targets, s, path) && path[|path| - 1] == t && IsLegal(g, path) && TurnAwareCost(g, path) == c
  }

  ghost predicate HasThriftyPath(g: Roads, targets: set<int>, s: int, t: int, c: real) {
    exists path {:trigger TurnAwareCost(g, path)} ::
      IsPath(g, targets, s, path) && path[|path| - 1] == t && IsLegal(g, path) && TurnAwareCost(g, path) == c
      && IsThrifty(g, targets, s, path)
  }

  // A value is the cost of a legal path that is nowhere dearer than an open one.
  ghost predicate Sound(g: Roads, targets: set<int>, s: int, cells: map<int, Cell>) {
    forall t :: t in cells && cells[t].Value? ==>
      HasPath(g, targets, s, t, cells[t].seconds) && HasThriftyPath(g, targets, s, t, cells[t].seconds)
  }

  predicate IsWithin(cells: map<int, Cell>, t: int, c: real) {
    t in cells && cells[t].Value? && cells[t].seconds <= c
  }

  // Where an open path leads, a value within its upper price is written.
  ghost predicate Complete(g: Roads, targets: set<int>, s: int, cells: map<int, Cell>) {
    forall path {:trigger UpperCost(g, s, path)} ::
      IsOpenPath(g, targets, s, path) && path[|path| - 1] in cells ==> IsWithin(cells, path[|path| - 1], UpperCost(g, s, path))
  }

  lemma {:induction false} TurnAwareCostNonNegative(g: Roads, targets: set<int>, s: int, path: seq<int>)
    requires g.Valid() && IsPath(g, targets, s, path)
    ensures TurnAwareCost(g, path) >= 0.0
  {
    if |path| > 1 {
      Split(g, targets, s, path);
      TurnAwareCostNonNegative(g, targets, s, path[..|path| - 1]);
    }
  }

  lemma ImproveKeeps(g: Roads, targets: set<int>, s: int, dist: Dists, dir: seq<int>, wit: map<int, seq<int>>,
                     done: set<int>, expanded: set<int>, pq: Queue, u: int, v: int, nd: real)
      returns (wit': map<int, seq<int>>)
    requires Searching(g, targets, s, dist, dir, wit, done, expanded, pq)
    requires g.IsNode(u) && dist[u].Some? && u in done && u !in targets && g.Arc(u, v)
    requires v !in done && expanded <= done && v != s
    requires (IsTurn(dir[u], g.Dir(u, v)) ==> g.MayTurn(u)) && nd == OfferedDist(g, dist, dir, u, v)
    requires dist[v].None? || nd < dist[v].value
    requires forall x :: x in done ==> AtMost(dist, x, nd)
    ensures Searching(g, targets, s, dist[v := Some(nd)], dir[v := g.Dir(u, v)], wit', done, expanded, pq + multiset{(nd, v)})
  {
    wit' := ImproveWitness(g, targets, s, dist, dir, wit, done, u, v);
    ImproveQueue(g, dist, done, pq, v, nd);
    ImproveBounds(g, targets, s, dist, done, expanded, v, nd);
  }

  // How labels may change while the successors of a node are offered: finished nodes keep
  // theirs, the others only get closer.
  ghost predicate Closer(dist0: Dists, dir0: seq<int>, dist: Dists, dir: seq<int>, done: set<int>) {
    && |dist| == |dist0| == |dir| == |dir0|
    && (forall x :: x in done && 0 <= x < |dist| ==> dist[x] == dist0[x] && dir[x] == dir0[x])
    && (forall x {:trigger dist[x]} {:trigger dist0[x]} :: 0 <= x < |dist| && dist0[x].Some? ==> AtMost(dist, x, dist0[x].value))
  }

  lemma CloserKeepsOffers(g: Roads, s: int, dist0: Dists, dir0: seq<int>, dist: Dists, dir: seq<int>, done: set<int>,
                          u: int, next: seq<int>)
    requires |dist0| == g.size && g.IsNode(u) && u in done && Closer(dist0, dir0, dist, dir, done)
    requires Offered(g, s, dist0, u, next)
    ensures Offered(g, s, dist, u, next)
  {
    forall v | v in next && g.Open(s, u, v) ensures Reached(g, s, dist, u, v) {
      assert Reached(g, s, dist0, u, v);
    }
  }

  // The distance offered to v through u.
  function OfferedDist(g: Roads, dist: Dists, dir: seq<int>, u: int, v: int): real
    requires 0 <= u < |dist| == |dir| && dist[u].Some?
  {
    dist[u].value + g.Time(u, v) + (if IsTurn(dir[u], g.Dir(u, v)) then g.TurnTime(u) else 0.0)
  }

  // An offer that improves is made to an unfinished node other than the start.
  lemma OfferIsLater(g: Roads, targets: set<int>, s: int, dist: Dists, dir: seq<int>, wit: map<int, seq<int>>,
                     done: set<int>, expanded: set<int>, pq: Queue, u: int, v: int)
    requires Searching(g, targets, s, dist, dir, wit, done, expanded, pq)
    requires u in done && Above(dist, done, u) && g.Arc(u, v)
    ensures g.IsNode(u) && g.IsNode(v)
    ensures forall x :: x in done ==> AtMost(dist, x, OfferedDist(g, dist, dir, u, v))
    ensures dist[v].None? || OfferedDist(g, dist, dir, u, v) < dist[v].value ==> v !in done && v != s
  {
    assert forall x :: x in done ==> AtMost(dist, x, dist[u].value);
  }

  lemma ImproveIsCloser(dist: Dists, dir: seq<int>, done: set<int>, v: int, nd: real, e: int)
    requires |dist| == |dir| && 0 <= v < |dist| && v !in done && (dist[v].None? || nd < dist[v].value)
    ensures Closer(dist, dir, dist[v := Some(nd)], dir[v := e], done)
  {
  }

  // Offers the successor v of the just-finished node u a distance through u.
  method Offer(g: Roads, ghost targets: set<int>, s: int, dist0: Dists, dir0: seq<int>, pq0: Queue, u: int, v: int,
               ghost wit0: map<int, seq<int>>, ghost done: set<int>, ghost expanded: set<int>)
      returns (dist: Dists, dir: seq<int>, pq: Queue, ghost wit: map<int, seq<int>>)
    requires Searching(g, targets, s, dist0, dir0, wit0, done, expanded, pq0)
    requires u in done && u !in targets && expanded <= done
    requires Above(dist0, done, u)
    ensures Searching(g, targets, s, dist, dir, wit, done, expanded, pq)
    ensures Closer(dist0, dir0, dist, dir, done)
    ensures g.Open(s, u, v) ==> Reached(g, s, dist, u, v)
  {
    dist, dir, pq, wit := dist0, dir0, pq0, wit0;
    if g.Arc(u, v) {
      OfferIsLater(g, targets, s, dist, dir, wit, done, expanded, pq, u, v);
      LabelAllowsOpenArc(g, targets, s, wit[u], u, dist[u].value, dir[u], v);
      var turn := IsTurn(dir[u], g.Dir(u, v));
      if !turn || g.MayTurn(u) {
        var nd := OfferedDist(g, dist, dir, u, v);
        if dist[v].None? || nd < dist[v].value {
          wit := ImproveKeeps(g, targets, s, dist, dir, wit, done, expanded, pq, u, v, nd);
          ImproveIsCloser(dist, dir, done, v, nd, g.Dir(u, v));
          dist, dir, pq := dist[v := Some(nd)], dir[v := g.Dir(u, v)], pq + multiset{(nd, v)};
        }
      }
    }
  }

  lemma OfferedGrows(g: Roads, s: int, dist: Dists, u: int, next: seq<int>, i: nat)
    requires |dist| == g.size && g.IsNode(u) && i < |next|
    requires Offered(g, s, dist, u, next[..i]) && (g.Open(s, u, next[i]) ==> Reached(g, s, dist, u, next[i]))
    ensures Offered(g, s, dist, u, next[..i + 1])
  {
    assert forall v :: v in next[..i + 1] ==> v == next[i] || v in next[..i];
  }

  lemma CloserTwice(dist0: Dists, dir0: seq<int>, dist1: Dists, dir1: seq<int>, dist2: Dists, dir2: seq<int>, done: set<int>)
    requires Closer(dist0, dir0, dist1, dir1, done) && Closer(dist1, dir1, dist2, dir2, done)
    ensures Closer(dist0, dir0, dist2, dir2, done)
  {
  }

  ghost predicate Above(dist: Dists, done: set<int>, u: int) {
    && 0 <= u < |dist| && dist[u].Some? && dist[u].value >= 0.0
    && forall x :: x in done ==> AtMost(dist, x, dist[u].value)
  }

  lemma AboveStays(dist0: Dists, dir0: seq<int>, dist: Dists, dir: seq<int>, done: set<int>, u: int)
    requires Above(dist0, done, u) && u in done && Closer(dist0, dir0, dist, dir, done)
    ensures Above(dist, done, u)
  {
    assert forall x :: x in done ==> AtMost(dist0, x, dist0[u].value);
  }

  // The successor loop.
  method ExpandNode(g: Roads, ghost targets: set<int>, s: int, dist0: Dists, dir0: seq<int>, pq0: Queue, u: int,
                    ghost wit0: map<int, seq<int>>, ghost done: set<int>, ghost expanded: set<int>)
      returns (dist: Dists, dir: seq<int>, pq: Queue, ghost wit: map<int, seq<int>>)
    requires Searching(g, targets, s, dist0, dir0, wit0, done, expanded, pq0)
    requires u in done && u !in targets && done == expanded + {u}
    requires Above(dist0, done, u)
    ensures Searching(g, targets, s, dist, dir, wit, done, done, pq)
    ensures Closer(dist0, dir0, dist, dir, done)
  {
    dist, dir, pq, wit := dist0, dir0, pq0, wit0;
    var next := g.Next(u);
    for i := 0 to |next|
      invariant Searching(g, targets, s, dist, dir, wit, done, expanded, pq)
      invariant Closer(dist0, dir0, dist, dir, done)
      invariant Offered(g, s, dist, u, next[..i])
    {
      ghost var before, beforeDir := dist, dir;
      AboveStays(dist0, dir0, dist, dir, done, u);
      dist, dir, pq, wit := Offer(g, targets, s, dist, dir, pq, u, next[i], wit, done, expanded);
      CloserTwice(dist0, dir0, before, beforeDir, dist, dir, done);
      CloserKeepsOffers(g, s, before, beforeDir, dist, dir, done, u, next[..i]);
      OfferedGrows(g, s, dist, u, next, i);
    }
    assert next[..|next|] == next;
  }

  method PopLeast(pq: Queue) returns (e: (real, int))
    requires pq != multiset{}
    ensures IsLeast(e, pq)
  {
    LeastExists(pq);
    e :| e in pq && forall o :: o in pq ==> e.0 <= o.0;
  }

  lemma StartKeeps(g: Roads, targets: set<int>, s: int)
    requires g.Valid() && g.IsNode(s) && g.MayPass(s)
    ensures Searching(g, targets, s, seq(g.size, _ => None)[s := Some(0.0)], seq(g.size, _ => 0), map[s := [s]], {}, {}, multiset{(0.0, s)})
  {
    var dist: Dists := seq(g.size, _ => None)[s := Some(0.0)];
    assert IsEntry(g, dist, {}, (0.0, s));
  }

  // The popped node is at least as far as everything finished.
  lemma PoppedIsAbove(g: Roads, targets: set<int>, s: int, dist: Dists, dir: seq<int>, wit: map<int, seq<int>>,
                      done: set<int>, pq: Queue, e: (real, int))
    requires Searching(g, targets, s, dist, dir, wit, done, done, pq)
    requires e in pq && dist[e.1] == Some(e.0)
    ensures Above(dist, done + {e.1}, e.1)
  {
    assert IsEntry(g, dist, done, e);
    TurnAwareCostNonNegative(g, targets, s, wit[e.1]);
    forall x | x in done ensures AtMost(dist, x, e.0) {
      assert NotBelow(dist, x, e);
    }
  }

  // A finished target is not expanded.
  lemma TargetKeeps(g: Roads, targets: set<int>, s: int, dist: Dists, dir: seq<int>, wit: map<int, seq<int>>,
                    done: set<int>, t: int, pq: Queue)
    requires Searching(g, targets, s, dist, dir, wit, done + {t}, done, pq) && t in targets
    ensures Searching(g, targets, s, dist, dir, wit, done + {t}, done + {t}, pq)
  {
    forall u | g.IsNode(u) && u in done + {t} && u !in targets ensures Offered(g, s, dist, u, g.Next(u)) {
      assert u in done;
    }
  }

  // The targets written so far are the finished ones, each with its distance.
  ghost predicate Written(targets: set<int>, pending: set<int>, dist: Dists, done: set<int>, cells: map<int, Cell>) {
    && (forall t :: t in pending <==> t in targets && t !in done)
    && (forall t :: t in cells <==> t in targets && t in done)
    && (forall t :: t in cells ==> IsWritten(dist, cells, t))
  }

  predicate IsWritten(dist: Dists, cells: map<int, Cell>, t: int) {
    t in cells && 0 <= t < |dist| && dist[t].Some? && cells[t] == Value(dist[t].value)
  }

  lemma WriteKeeps(targets: set<int>, pending: set<int>, dist: Dists, done: set<int>, cells: map<int, Cell>, u: int)
    requires Written(targets, pending, dist, done, cells)
    requires u in pending && 0 <= u < |dist| && dist[u].Some?
    ensures Written(targets, pending - {u}, dist, done + {u}, cells[u := Value(dist[u].value)])
  {
    var cells' := cells[u := Value(dist[u].value)];
    forall t | t in cells' ensures IsWritten(dist, cells', t) {
      assert t != u ==> IsWritten(dist, cells, t);
    }
  }

  lemma PassByKeeps(targets: set<int>, pending: set<int>, dist0: Dists, dir0: seq<int>, dist: Dists, dir: seq<int>,
                    done: set<int>, cells: map<int, Cell>, u: int)
    requires Written(targets, pending, dist0, done, cells) && u !in targets
    requires Closer(dist0, dir0, dist, dir, done + {u})
    ensures Written(targets, pending, dist, done + {u}, cells)
  {
    forall t | t in cells ensures IsWritten(dist, cells, t) {
      assert IsWritten(dist0, cells, t);
    }
  }

  // Finishes the popped node: a pending target is written, any other node is expanded.
  method Settle(g: Roads, s: int, targets: set<int>, dist0: Dists, dir0: seq<int>, pq0: Queue, e: (real, int),
                pending0: set<int>, cells0: map<int, Cell>, ghost wit0: map<int, seq<int>>, ghost done: set<int>)
      returns (dist: Dists, dir: seq<int>, pq: Queue, pending: set<int>, cells: map<int, Cell>, ghost wit: map<int, seq<int>>)
    requires Searching(g, targets, s, dist0, dir0, wit0, done, done, pq0)
    requires Written(targets, pending0, dist0, done, cells0)
    requires IsLeast(e, pq0) && dist0[e.1] == Some(e.0)
    ensures e.1 !in done && g.IsNode(e.1)
    ensures Searching(g, targets, s, dist, dir, wit, done + {e.1}, done + {e.1}, pq)
    ensures Written(targets, pending, dist, done + {e.1}, cells)
  {
    var u := e.1;
    FinishKeeps(g, targets, s, dist0, dir0, wit0, done, pq0, e);
    PoppedIsAbove(g, targets, s, dist0, dir0, wit0, done, pq0, e);
    dist, dir, pq, pending, cells, wit := dist0, dir0, pq0 - multiset{e}, pending0, cells0, wit0;
    if u in pending {
      TargetKeeps(g, targets, s, dist, dir, wit, done, u, pq);
      WriteKeeps(targets, pending, dist, done, cells, u);
      cells := cells[u := Value(e.0)];
      pending := pending - {u};
    } else {
      dist, dir, pq, wit := ExpandNode(g, targets, s, dist, dir, pq, u, wit, done + {u}, done);
      PassByKeeps(targets, pending, dist0, dir0, dist, dir, done, cells, u);
    }
  }

  // The main loop: one cell per target. A value is the cost of a legal path; where an open
  // path leads to a target past no other one, a value is written within its upper price.
  method Run(g: Roads, s: int, targets: set<int>) returns (cells: map<int, Cell>)
    requires g.Valid() && g.IsNode(s)
    ensures forall t :: t in cells <==> t in targets
    ensures Sound(g, targets, s, cells)
    ensures Complete(g, targets, s, cells)
  {
    if !g.MayPass(s) {
      cells := map t | t in targets :: Unreachable;
      NoStartNoPath(g, targets, s, cells);
      return;
    }
    var dist: Dists := seq(g.size, _ => None)[s := Some(0.0)];
    var dir: seq<int> := seq(g.size, _ => 0);
    var pq := multiset{(0.0, s)};
    ghost var wit: map<int, seq<int>> := map[s := [s]];
    ghost var done: set<int> := {};
    var pending := targets;
    cells := map[];
    StartKeeps(g, targets, s);
    while pq != multiset{} && pending != {}
      invariant Searching(g, targets, s, dist, dir, wit, done, done, pq)
      invariant Written(targets, pending, dist, done, cells)
      decreases Nodes(g) - done, |pq|
    {
      var e := PopLeast(pq);
      assert IsEntry(g, dist, done, e);
      if dist[e.1] != Some(e.0) {
        DropKeeps(g, targets, s, dist, dir, wit, done, pq, e);
        pq := pq - multiset{e};
      } else {
        dist, dir, pq, pending, cells, wit := Settle(g, s, targets, dist, dir, pq, e, pending, cells, wit, done);
        assert e.1 in Nodes(g) - done;
        done := done + {e.1};
      }
    }
    WrittenIsSound(g, targets, s, dist, dir, wit, done, pq, pending, cells);
    WrittenIsComplete(g, targets, s, dist, dir, wit, done, pq, pending, cells);
    cells := WithUnreachable(cells, pending);
  }

  lemma NoStartNoPath(g: Roads, targets: set<int>, s: int, cells: map<int, Cell>)
    requires !g.MayPass(s) && forall t :: t in cells ==> cells[t] == Unreachable
    ensures Sound(g, targets, s, cells) && Complete(g, targets, s, cells)
  {
  }

  function WithUnreachable(cells: map<int, Cell>, pending: set<int>): map<int, Cell> {
    cells + map t | t in pending :: Unreachable
  }

  ghost function Nodes(g: Roads): set<int> {
    set u | 0 <= u < g.size && g.IsNode(u)
  }

  lemma WrittenIsSound(g: Roads, targets: set<int>, s: int, dist: Dists, dir: seq<int>, wit: map<int, seq<int>>,
                       done: set<int>, pq: Queue, pending: set<int>, cells: map<int, Cell>)
    requires Searching(g, targets, s, dist, dir, wit, done, done, pq)
    requires Written(targets, pending, dist, done, cells)
    ensures Sound(g, targets, s, WithUnreachable(cells, pending))
  {
    var all := WithUnreachable(cells, pending);
    forall t | t in all && all[t].Value?
      ensures HasPath(g, targets, s, t, all[t].seconds) && HasThriftyPath(g, targets, s, t, all[t].seconds)
    {
      assert IsWritten(dist, cells, t);
      assert Explains(g, targets, s, wit[t], t, dist[t].value, dir[t]);
    }
  }

  lemma WrittenIsComplete(g: Roads, targets: set<int>, s: int, dist: Dists, dir: seq<int>, wit: map<int, seq<int>>,
                          done: set<int>, pq: Queue, pending: set<int>, cells: map<int, Cell>)
    requires Searching(g, targets, s, dist, dir, wit, done, done, pq)
    requires Written(targets, pending, dist, done, cells) && (pq == multiset{} || pending == {})
    ensures Complete(g, targets, s, WithUnreachable(cells, pending))
  {
    var all := WithUnreachable(cells, pending);
    forall path | IsOpenPath(g, targets, s, path) && path[|path| - 1] in all
      ensures IsWithin(all, path[|path| - 1], UpperCost(g, s, path))
    {
      var t := path[|path| - 1];
      if t in pending {
        ExhaustedDone(g, targets, s, dist, dir, wit, done, pq, path);
        assert false;
      } else {
        assert IsWritten(dist, cells, t);
        assert AtMost(dist, t, UpperCost(g, s, path));
      }
    }
  }
}
