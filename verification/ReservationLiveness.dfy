// Lock order of the reservation operations: no run ever waits in a circle, and while any
// operation is under way some operation can make its next step.
module ReservationLiveness {
  import opened Util
  import opened SpatialHash
  import opened ConflictIndex
  import opened ReservationSpec
  import opened ReservationProtocol

  // The lock a thread asks for next.
  function Wants(th: Thread): Option<int> {
    match th.stage
    case WantIndex => Some(INDEX_LOCK)
    case Locking(_, plan, k) => if k < |plan| then Some(plan[k]) else None
    case Sweeping(k, inside) => if !inside && k < SHARD_COUNT then Some(k) else None
    case _ => None
  }

  predicate Blocked(s: State, t: nat)
    requires t in s.threads
  {
    Wants(s.threads[t]).Some? && !CanTake(s, t, s.threads[t].op, Wants(s.threads[t]).value)
  }

  // u queues for the lock l to have it alone.
  predicate QueuesAlone(s: State, u: nat, l: int) {
    u in s.threads && Wants(s.threads[u]) == Some(l) && !Shares(s.threads[u].op, l)
  }

  // A shared mutex may also hold readers back while a writer queues.
  ghost predicate HeldBack(s: State, t: nat)
    requires t in s.threads
  {
    Blocked(s, t)
    || (Wants(s.threads[t]).Some?
        && var l := Wants(s.threads[t]).value;
           Shares(s.threads[t].op, l) && exists u :: u != t && QueuesAlone(s, u, l))
  }

  // t asks for a lock that u holds in a mode that does not allow sharing, or asks to share
  // a lock for which u queues to have it alone.
  ghost predicate WaitsFor(s: State, t: nat, u: nat) {
    && t in s.threads && u in s.threads && t != u
    && Wants(s.threads[t]).Some?
    && var l := Wants(s.threads[t]).value;
       (l in s.threads[u].held && !(Shares(s.threads[t].op, l) && Shares(s.threads[u].op, l)))
       || (Shares(s.threads[t].op, l) && QueuesAlone(s, u, l))
  }

  // Larger locks first, and on one lock writers before readers.
  function Rank(th: Thread): int
    requires Wants(th).Some?
  {
    2 * Wants(th).value + (if Shares(th.op, Wants(th).value) then 0 else 1)
  }

  // Locks are asked for in ascending order: everything held is smaller.
  lemma HeldBelowWanted(th: Thread, l: int)
    requires Shape(th) && Wants(th).Some? && l in th.held
    ensures l < Wants(th).value
  {
  }

  lemma RankGrows(s: State, t: nat, u: nat)
    requires LocksOk(s) && WaitsFor(s, t, u) && Wants(s.threads[u]).Some?
    ensures Rank(s.threads[t]) < Rank(s.threads[u])
  {
    var l := Wants(s.threads[t]).value;
    if l in s.threads[u].held {
      HeldBelowWanted(s.threads[u], l);
    }
  }

  lemma WantedInRange(th: Thread)
    requires Shape(th) && Wants(th).Some?
    ensures -1 <= Wants(th).value < SHARD_COUNT
  {
    if th.stage.Locking? {
      assert th.stage.plan[th.stage.k] in th.stage.plan;
    }
  }

  ghost predicate WaitChain(s: State, chain: seq<nat>) {
    |chain| >= 2 && forall i :: 0 <= i < |chain| - 1 ==> WaitsFor(s, chain[i], chain[i + 1])
  }

  ghost function RankOf(s: State, t: nat): Option<int> {
    if t in s.threads && Wants(s.threads[t]).Some? then Some(Rank(s.threads[t])) else None
  }

  // Ranks grow along a chain of waiting threads, so it never closes.
  lemma {:induction false} WaitChainGrows(s: State, chain: seq<nat>)
    requires LocksOk(s) && WaitChain(s, chain)
    ensures RankOf(s, chain[0]).Some?
    ensures var last := RankOf(s, chain[|chain| - 1]);
      last.Some? ==> RankOf(s, chain[0]).value < last.value
  {
    assert WaitsFor(s, chain[0], chain[1]);
    if Wants(s.threads[chain[1]]).Some? {
      RankGrows(s, chain[0], chain[1]);
    }
    if |chain| > 2 {
      var rest := chain[1..];
      forall i | 0 <= i < |rest| - 1 ensures WaitsFor(s, rest[i], rest[i + 1]) {
        assert WaitsFor(s, chain[i + 1], chain[i + 1 + 1]);
      }
      WaitChainGrows(s, rest);
    }
  }

  lemma NoWaitCycle(s: State, chain: seq<nat>)
    requires LocksOk(s) && WaitChain(s, chain)
    ensures chain[0] != chain[|chain| - 1]
  {
    WaitChainGrows(s, chain);
  }

  lemma SomebodyAhead(s: State, t: nat) returns (v: nat)
    requires t in s.threads && HeldBack(s, t)
    ensures WaitsFor(s, t, v)
  {
    var l := Wants(s.threads[t]).value;
    if Blocked(s, t) {
      v :| v in s.threads && v != t && l in s.threads[v].held
        && !(Shares(s.threads[t].op, l) && Shares(s.threads[v].op, l));
    } else {
      v :| v != t && QueuesAlone(s, v, l);
    }
  }

  // From a thread held back, following who it waits for leads to one that is not.
  lemma {:induction false} SomeoneRuns(s: State, t: nat) returns (u: nat)
    requires LocksOk(s) && t in s.threads
    ensures u in s.threads && !HeldBack(s, u)
    decreases if Wants(s.threads[t]).Some? then 2 * SHARD_COUNT + 2 - Rank(s.threads[t]) else 0
  {
    if HeldBack(s, t) {
      WantedInRange(s.threads[t]);
      var v := SomebodyAhead(s, t);
      if Wants(s.threads[v]).Some? {
        RankGrows(s, t, v);
        WantedInRange(s.threads[v]);
      }
      u := SomeoneRuns(s, v);
    } else {
      u := t;
    }
  }

  // The steps a thread makes on its own: anything but a clock tick or a new operation.
  predicate OwnStep(c: Choice) { c.Go? || c.Erase? || c.Unlock? }

  lemma UnblockedCanStep(s: State, t: nat) returns (c: Choice)
    requires LocksOk(s) && t in s.threads && !Blocked(s, t)
    ensures OwnStep(c) && StepTo(s, t, c).Some?
  {
    var th := s.threads[t];
    assert Shape(th);
    c := Go;
    if th.stage.Unlocking? && th.held != {} {
      var l := SetDifference(th.held, {});
      c := Unlock(l);
    } else if th.stage.Sweeping? && th.stage.inside && th.op.Sweep? {
      var Sweep(owner, keep, now) := th.op;
      if n :| n in s.table && ShardOf(n) == th.stage.shard && Dropped(n, s.table[n], owner, keep, now) {
        c := Erase(n);
      }
    }
  }

  lemma {:induction false} RunKeepsLocks(ss: seq<State>, who: seq<nat>, how: seq<Choice>, i: nat)
    requires Run(ss, who, how) && i < |ss|
    ensures LocksOk(ss[i])
  {
    if i > 0 {
      RunKeepsLocks(ss, who, how, i - 1);
      StepKeepsLocks(ss[i - 1], who[i - 1], how[i - 1], ss[i - 1 + 1]);
    }
  }

  // Deadlock freedom over all runs, reconfigurations of the index included: no circle of
  // waiting threads, and any operation under way leaves some operation that can step, even
  // if no reader overtakes a queued writer.
  lemma DeadlockFreedom(ss: seq<State>, who: seq<nat>, how: seq<Choice>, i: nat)
    requires Run(ss, who, how) && i < |ss|
    ensures forall chain :: WaitChain(ss[i], chain) ==> chain[0] != chain[|chain| - 1]
    ensures ss[i].threads != map[] ==> exists u, c ::
      OwnStep(c) && StepTo(ss[i], u, c).Some? && u in ss[i].threads && !HeldBack(ss[i], u)
  {
    RunKeepsLocks(ss, who, how, i);
    forall chain | WaitChain(ss[i], chain) ensures chain[0] != chain[|chain| - 1] {
      NoWaitCycle(ss[i], chain);
    }
    if ss[i].threads != map[] {
      var t := MapDifference(ss[i].threads, map[]);
      var u := SomeoneRuns(ss[i], t);
      var c := UnblockedCanStep(ss[i], u);
    }
  }
}
