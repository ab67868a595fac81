// The search loop itself, proved against the routes and costs of BestFirst.dfy.
module Search {
  import opened Util
  import opened BestFirst

  // All states the search can ever close: the measure of its main loop.
  ghost function Universe(pb: Problem): set<State> {
    set p, c | -1 <= p < pb.size && 0 <= c < pb.size :: State(p, c)
  }

  lemma ScoredInUniverse(pb: Problem, g: map<State, real>, wit: map<State, seq<int>>, s: State)
    requires pb.Valid() && Witnessed(pb, g, wit) && s in g
    ensures s in Universe(pb)
  {
    WalkIsOnNodes(pb, wit[s]);
    assert LastState(wit[s]) == s;
  }

  function Reverse<T>(s: seq<T>): (r: seq<T>)
    ensures |r| == |s| && forall i :: 0 <= i < |s| ==> r[i] == s[|s| - 1 - i]
  {
    seq(|s|, i requires 0 <= i < |s| => s[|s| - 1 - i])
  }

  // Follows `cameFrom` back to the start and turns the collected nodes round. The ghost
  // walks show that the chain is the recorded walk, and that it ends.
  method ReconstructPath(pb: Problem, came: map<State, State>, last: State, ghost closed: set<State>,
                         ghost g: map<State, real>, ghost wit: map<State, seq<int>>)
      returns (path: seq<int>)
    requires Witnessed(pb, g, wit) && Chained(pb, came, closed, wit)
    requires last in wit
    ensures path == wit[last]
  {
    ghost var walk := wit[last];
    var current := last;
    var back := [current.curr];
    while current in came
      invariant current in wit && wit[current] <= walk
      invariant |wit[current]| >= 1 && |back| + |wit[current]| == |walk| + 1
      invariant forall i :: 0 <= i < |back| ==> back[i] == walk[|walk| - 1 - i]
      decreases |wit[current]|
    {
      ghost var below := current;
      current := came[current];
      assert wit[below] == wit[current] + [below.curr];
      assert LastState(wit[current]) == current;
      back := back + [current.curr];
    }
    path := Reverse(back);
  }

  // Removes an element with the least key, as the priority queue does; ties in any order.
  method PopTop(open: multiset<Entry>) returns (top: Entry, rest: multiset<Entry>)
    requires open != multiset{}
    ensures IsTop(top, open)
    ensures rest == open - multiset{top}
  {
    TopExists(open);
    top :| top in open && forall o :: o in open ==> top.f <= o.f;
    rest := open - multiset{top};
  }

  lemma StartKeeps(pb: Problem)
    requires pb.Valid()
    ensures var s0 := StartState(pb);
      Searching(pb, map[s0 := 0.0], map[], {}, {}, multiset{EntryOf(pb, s0, 0.0)}, map[s0 := [pb.start]])
  {
  }

  // Dropping a stale entry, or one of a closed state, loses no open state's score.
  lemma DropKeeps(pb: Problem, g: map<State, real>, closed: set<State>, open: multiset<Entry>, e: Entry)
    requires Queued(pb, g, closed, open) && e in open
    requires e.g > g[e.Key()] || e.Key() in closed
    ensures Queued(pb, g, closed, open - multiset{e})
  {
    forall s | s in g && s !in closed ensures EntryOf(pb, s, g[s]) in open - multiset{e} {
      assert EntryOf(pb, s, g[s]) in open;
      assert EntryOf(pb, s, g[s]) != e by {
        assert s == State(s.prev, s.curr);
      }
    }
  }

  // Closing the popped state keeps the invariant; only its expansion is still to be done.
  lemma CloseKeeps(pb: Problem, g: map<State, real>, closed: set<State>, open: multiset<Entry>, e: Entry)
    requires pb.Valid() && Queued(pb, g, closed, open)
    requires AllRelaxed(pb, g, closed, closed) && ClosedWithinUpper(pb, g, closed)
    requires IsTop(e, open) && e.g == g[e.Key()] && e.Key() !in closed && e.curr != pb.goal
    ensures var closed' := closed + {e.Key()};
      && Queued(pb, g, closed', open - multiset{e})
      && AllRelaxed(pb, g, closed', closed) && ClosedWithinUpper(pb, g, closed')
  {
    var s := e.Key();
    var closed' := closed + {s};
    PopBound(pb, g, closed, open, e);
    forall x | x in g && x !in closed' ensures EntryOf(pb, x, g[x]) in open - multiset{e} {
      assert EntryOf(pb, x, g[x]) in open;
      assert EntryOf(pb, x, g[x]) != e by {
        assert x == State(x.prev, x.curr);
      }
    }
    forall x | x in closed ensures Relaxed(pb, g, closed', x, pb.Next(x.curr)) {
      assert Relaxed(pb, g, closed, x, pb.Next(x.curr));
    }
    forall x | x in closed' ensures WithinUpper(pb, x, g[x]) {
      assert x in closed ==> WithinUpper(pb, x, g[x]);
    }
  }

  // Growing the closed set keeps the chains through it.
  lemma ChainGrows(pb: Problem, came: map<State, State>, closed: set<State>, s: State, wit: map<State, seq<int>>)
    requires Chained(pb, came, closed, wit)
    ensures Chained(pb, came, closed + {s}, wit)
  {
  }

  // One offer of the neighbour loop: the cost of reaching v through the closed state s.
  method Offer(pb: Problem, g0: map<State, real>, came0: map<State, State>, closed: set<State>,
               open0: multiset<Entry>, s: State, v: int, ghost done: set<State>, ghost wit0: map<State, seq<int>>)
      returns (g: map<State, real>, came: map<State, State>, open: multiset<Entry>, ghost wit: map<State, seq<int>>)
    requires Searching(pb, g0, came0, closed, done, open0, wit0)
    requires s in closed && done <= closed
    ensures Searching(pb, g, came, closed, done, open, wit)
    ensures g0.Keys <= g.Keys && s in g && g[s] == g0[s]
    ensures forall x :: x in g0 ==> g[x] <= g0[x]
    ensures pb.Ok(s.curr, v) ==> var t := State(s.curr, v);
      t in g && (t !in closed ==> g[t] <= g[s] + pb.StepCost(s.prev, s.curr, v))
  {
    g, came, open, wit := g0, came0, open0, wit0;
    if pb.Ok(s.curr, v) {
      var t := State(s.curr, v);
      if t !in closed {
        var c := g[s] + pb.StepCost(s.prev, s.curr, v);
        if t !in g || c < g[t] {
          ghost var w' := ImproveWitness(pb, g, came, closed, wit, s, v, c);
          assert t != StartState(pb) by {
            WalkIsOnNodes(pb, wit[s]);
          }
          ImproveQueue(pb, g, closed, done, open, t, c);
          g, came, open, wit := g[t := c], came[t := s], open + multiset{EntryOf(pb, t, c)}, w';
        }
      }
    }
  }

  lemma RelaxedGrows(pb: Problem, g: map<State, real>, g': map<State, real>, closed: set<State>, s: State,
                     next: seq<int>, i: nat)
    requires i < |next| && s in g && Relaxed(pb, g, closed, s, next[..i])
    requires g.Keys <= g'.Keys && g'[s] == g[s] && forall x :: x in g ==> g'[x] <= g[x]
    requires pb.Ok(s.curr, next[i]) ==> var t := State(s.curr, next[i]);
      t in g' && (t !in closed ==> g'[t] <= g'[s] + pb.StepCost(s.prev, s.curr, next[i]))
    ensures Relaxed(pb, g', closed, s, next[..i + 1])
  {
    assert forall v :: v in next[..i + 1] ==> v == next[i] || v in next[..i];
  }

  // The neighbour loop of a just-closed state.
  method ExpandState(pb: Problem, g0: map<State, real>, came0: map<State, State>, closed: set<State>,
                open0: multiset<Entry>, s: State, ghost done: set<State>, ghost wit0: map<State, seq<int>>)
      returns (g: map<State, real>, came: map<State, State>, open: multiset<Entry>, ghost wit: map<State, seq<int>>)
    requires Searching(pb, g0, came0, closed, done, open0, wit0)
    requires s in closed && closed == done + {s}
    ensures Searching(pb, g, came, closed, closed, open, wit)
  {
    g, came, open, wit := g0, came0, open0, wit0;
    var next := pb.Next(s.curr);
    for i := 0 to |next|
      invariant Searching(pb, g, came, closed, done, open, wit)
      invariant s in g && Relaxed(pb, g, closed, s, next[..i])
    {
      ghost var before := g;
      g, came, open, wit := Offer(pb, g, came, closed, open, s, next[i], done, wit);
      RelaxedGrows(pb, before, g, closed, s, next, i);
    }
    assert next[..|next|] == next;
  }

  // The main loop of `findPath`. Some(path, cost) is a route and its cost; None means that
  // there is none. The cost is at most every route's upper price.
  method FindRoute(pb: Problem) returns (r: Option<(seq<int>, real)>)
    requires pb.Valid()
    ensures r.Some? ==> IsRoute(pb, r.value.0) && Cost(pb, r.value.0) == r.value.1
    ensures r.None? ==> forall w :: !IsRoute(pb, w)
    ensures r.Some? ==> NearBest(pb, r.value.1)
  {
    var s0 := StartState(pb);
    var g: map<State, real> := map[s0 := 0.0];
    var came: map<State, State> := map[];
    var closed: set<State> := {};
    var open := multiset{EntryOf(pb, s0, 0.0)};
    ghost var wit: map<State, seq<int>> := map[s0 := [pb.start]];
    StartKeeps(pb);
    while open != multiset{}
      invariant Searching(pb, g, came, closed, closed, open, wit)
      decreases Universe(pb) - closed, |open|
    {
      var top, rest := PopTop(open);
      var s := top.Key();
      if top.g > g[s] {
        DropKeeps(pb, g, closed, open, top);
        open := rest;
      } else if top.curr == pb.goal {
        PopBound(pb, g, closed, open, top);
        var path := ReconstructPath(pb, came, s, closed, g, wit);
        return Some((path, top.g));
      } else if s in closed {
        DropKeeps(pb, g, closed, open, top);
        open := rest;
      } else {
        ScoredInUniverse(pb, g, wit, s);
        CloseKeeps(pb, g, closed, open, top);
        ChainGrows(pb, came, closed, s, wit);
        ghost var done := closed;
        closed := closed + {s};
        g, came, open, wit := ExpandState(pb, g, came, closed, rest, s, done, wit);
      }
    }
    forall w ensures !IsRoute(pb, w) {
      if IsRoute(pb, w) {
        ExhaustedClosed(pb, g, closed, open, w);
      }
    }
    r := None;
  }
}
