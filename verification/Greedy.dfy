// The round loop of `GreedyTaskAllocator`: in each round every AMR names its cheapest task,
// each named task goes to the cheapest AMR that named it.
module Greedy {
  import opened Util
  import opened Placement

  // Leg costs in milliseconds, none for infinity, and the penalty for tasks that wait.
  datatype Costs = Costs(
    amrNum: nat,
    taskNum: nat,
    legs: (int, int, int) -> Option<real>,
    arrived: int -> real,
    nonCharging: int -> bool,
    now: real,
    waitCoeff: real)
  {
    predicate IsTask(t: int) { 0 <= t < taskNum }

    // The cost of t after the last task of the chain, or from the AMR's start.
    function Leg(chain: seq<int>, t: int, a: int): Option<real> {
      if chain == [] then legs(taskNum, t, a) else legs(chain[|chain| - 1], t, a)
    }

    function WaitPenalty(accum: real, t: int): real {
      var wait := now + accum / 1000.0 - arrived(t);
      if waitCoeff > 0.0 && now > 0.0 && arrived(t) > 0.0 && wait > 0.0 then waitCoeff * wait * 1000.0 else 0.0
    }

    function Effective(chain: seq<int>, accum: real, t: int, a: int): Option<real> {
      var leg := Leg(chain, t, a);
      if leg.None? then None else Some(leg.value + WaitPenalty(accum, t))
    }
  }

  // A task that has waited costs its leg plus the waiting time at the given rate, both in
  // milliseconds; any other costs its leg.
  lemma EffectiveMeans(c: Costs, chain: seq<int>, accum: real, t: int, a: int)
    requires c.Leg(chain, t, a).Some?
    ensures var waited := 1000.0 * c.now + accum - 1000.0 * c.arrived(t);
      c.Effective(chain, accum, t, a).Some?
      && c.Effective(chain, accum, t, a).value - c.Leg(chain, t, a).value ==
        if c.waitCoeff > 0.0 && c.now > 0.0 && c.arrived(t) > 0.0 && waited > 0.0 then c.waitCoeff * waited else 0.0
  {
    var wait := c.now + accum / 1000.0 - c.arrived(t);
    Thousandfold(c.waitCoeff, wait, 1000.0 * c.now + accum - 1000.0 * c.arrived(t));
  }

  lemma Thousandfold(coeff: real, wait: real, ms: real)
    requires ms == 1000.0 * wait
    ensures coeff * wait * 1000.0 == coeff * ms
  {
    assert coeff * wait * 1000.0 == coeff * (wait * 1000.0);
  }

  // Every task once or not at all, according to its flag, and nothing but tasks.
  ghost predicate Matches(c: Costs, chains: Rows, taken: seq<bool>) {
    && |chains| == c.amrNum && |taken| == c.taskNum
    && (forall t {:trigger taken[t]} :: 0 <= t < c.taskNum ==> Tally(chains)[t] == if taken[t] then 1 else 0)
    && (forall t :: t in Tally(chains) ==> c.IsTask(t))
  }

  // Every leg of a chain has a finite cost.
  ghost predicate IsDrivable(c: Costs, chain: seq<int>, a: int) {
    forall i {:trigger chain[i]} :: 0 <= i < |chain| ==> c.Leg(chain[..i], chain[i], a).Some?
  }

  ghost predicate AllDrivable(c: Costs, chains: Rows) {
    forall a {:trigger chains[a]} :: 0 <= a < |chains| ==> IsDrivable(c, chains[a], a)
  }

  // AMR a may take t: unallocated and reachable.
  predicate IsOpen(c: Costs, chains: Rows, taken: seq<bool>, a: int, t: int) {
    0 <= a < |chains| && c.IsTask(t) && t < |taken| && !taken[t] && c.Leg(chains[a], t, a).Some?
  }

  // AMR a's choice among the tasks below n: cheapest; among equally cheap ones the first,
  // unless a later one has no AMR yet in this round, then the last such.
  ghost predicate IsChoice(c: Costs, chains: Rows, accum: seq<real>, taken: seq<bool>, temp: seq<int>, a: int, n: int,
                           best: Option<(int, real)>)
    requires 0 <= a < |chains| == |accum| && |temp| == |taken| == c.taskNum && n <= c.taskNum
  {
    match best
    case None => forall t {:trigger IsOpen(c, chains, taken, a, t)} :: 0 <= t < n ==> !IsOpen(c, chains, taken, a, t)
    case Some(b) =>
      && 0 <= b.0 < n && IsOpen(c, chains, taken, a, b.0) && c.Effective(chains[a], accum[a], b.0, a) == Some(b.1)
      && (forall t {:trigger IsOpen(c, chains, taken, a, t)} :: 0 <= t < n && IsOpen(c, chains, taken, a, t) ==>
            Prefers(c.Effective(chains[a], accum[a], t, a), t, temp[t] == -1, b.1, b.0, temp[b.0] == -1))
  }

  // Task b at cost d is preferred to t: cheaper, or equally cheap and chosen by the tie rule.
  predicate Prefers(cost: Option<real>, t: int, free: bool, d: real, b: int, bestFree: bool) {
    && cost.Some? && d <= cost.value
    && (cost.value == d && t > b ==> !free) && (cost.value == d && t < b ==> bestFree)
  }

  // The loop over tasks for one AMR.
  method ChooseTask(c: Costs, chains: Rows, accum: seq<real>, taken: seq<bool>, temp: seq<int>, a: nat)
      returns (best: Option<(int, real)>)
    requires a < |chains| == |accum| && |temp| == |taken| == c.taskNum
    ensures IsChoice(c, chains, accum, taken, temp, a, c.taskNum, best)
  {
    best := None;
    for t := 0 to c.taskNum
      invariant IsChoice(c, chains, accum, taken, temp, a, t, best)
    {
      if !taken[t] {
        var cost := c.Effective(chains[a], accum[a], t, a);
        if cost.Some? && (best.None? || cost.value < best.value.1 || (cost.value == best.value.1 && temp[t] == -1)) {
          best := Some((t, cost.value));
        }
      }
    }
  }

  // The choices the AMRs below n made in this round, and the table of provisional owners:
  // each named task belongs to the first of the cheapest AMRs that named it.
  type Choices = seq<Option<(int, real)>>

  ghost predicate Chose(choices: Choices, a: int, t: int) {
    0 <= a < |choices| && choices[a].Some? && choices[a].value.0 == t
  }

  ghost predicate IsOwner(choices: Choices, t: int, a: int) {
    && Chose(choices, a, t)
    && forall b {:trigger Chose(choices, b, t)} :: Chose(choices, b, t) ==>
      choices[a].value.1 <= choices[b].value.1 && (b < a ==> choices[a].value.1 < choices[b].value.1)
  }

  ghost predicate IsTable(c: Costs, choices: Choices, temp: seq<int>, tempCost: seq<Option<real>>) {
    && |temp| == |tempCost| == c.taskNum
    && forall t {:trigger temp[t]} :: 0 <= t < c.taskNum ==> IsEntry(choices, t, temp[t], tempCost[t])
  }

  ghost predicate IsEntry(choices: Choices, t: int, owner: int, cost: Option<real>) {
    if owner == -1 then cost.None? && forall a {:trigger Chose(choices, a, t)} :: !Chose(choices, a, t)
    else IsOwner(choices, t, owner) && cost == Some(choices[owner].value.1)
  }

  // Every choice is an open task of least cost; an AMR without one has none open.
  ghost predicate AreChoices(c: Costs, chains: Rows, accum: seq<real>, taken: seq<bool>, choices: Choices)
    requires |accum| == |chains|
  {
    |choices| <= |chains| && forall a {:trigger choices[a]} :: 0 <= a < |choices| ==>
      IsCheapestOpen(c, chains, accum, taken, a, choices[a])
  }

  ghost predicate IsCheapestOpen(c: Costs, chains: Rows, accum: seq<real>, taken: seq<bool>, a: int, best: Option<(int, real)>)
    requires 0 <= a < |chains| == |accum|
  {
    && (best.Some? ==>
         IsOpen(c, chains, taken, a, best.value.0)
         && c.Effective(chains[a], accum[a], best.value.0, a) == Some(best.value.1))
    && (forall t {:trigger IsOpen(c, chains, taken, a, t)} :: IsOpen(c, chains, taken, a, t) ==>
         best.Some? && c.Effective(chains[a], accum[a], t, a).Some?
         && best.value.1 <= c.Effective(chains[a], accum[a], t, a).value)
  }

  lemma EntryUnchanged(choices: Choices, next: Option<(int, real)>, t: int, owner: int, cost: Option<real>)
    requires IsEntry(choices, t, owner, cost)
    requires next.Some? && next.value.0 == t ==> cost.Some? && cost.value <= next.value.1
    ensures IsEntry(choices + [next], t, owner, cost)
  {
    var more := choices + [next];
    forall a | Chose(more, a, t) && a < |choices| ensures Chose(choices, a, t) {
    }
    assert owner != -1 ==> Chose(choices, owner, t);
  }

  lemma EntryTaken(choices: Choices, d: real, t: int, owner: int, cost: Option<real>)
    requires IsEntry(choices, t, owner, cost) && (cost.None? || d < cost.value)
    ensures IsEntry(choices + [Some((t, d))], t, |choices|, Some(d))
  {
    var more := choices + [Some((t, d))];
    assert Chose(more, |choices|, t);
    forall b | Chose(more, b, t) && b < |choices| ensures d < more[b].value.1 {
      assert Chose(choices, b, t);
    }
  }

  // The loop over AMRs of one round.
  method NameTasks(c: Costs, chains: Rows, accum: seq<real>, taken: seq<bool>)
      returns (temp: seq<int>, ghost choices: Choices, ghost tempCost: seq<Option<real>>)
    requires |chains| == |accum| == c.amrNum && |taken| == c.taskNum
    ensures IsTable(c, choices, temp, tempCost) && AreChoices(c, chains, accum, taken, choices) && |choices| == c.amrNum
  {
    temp := seq(c.taskNum, _ => -1);
    var prices: seq<Option<real>> := seq(c.taskNum, _ => None);
    choices := [];
    for a := 0 to c.amrNum
      invariant IsTable(c, choices, temp, prices) && AreChoices(c, chains, accum, taken, choices) && |choices| == a
    {
      var best := ChooseTask(c, chains, accum, taken, temp, a);
      ghost var before, beforePrices := temp, prices;
      if best.Some? && (prices[best.value.0].None? || best.value.1 < prices[best.value.0].value) {
        temp, prices := temp[best.value.0 := a], prices[best.value.0 := Some(best.value.1)];
      }
      forall t | 0 <= t < c.taskNum ensures IsEntry(choices + [best], t, temp[t], prices[t]) {
        assert IsEntry(choices, t, before[t], beforePrices[t]);
        if temp[t] != before[t] || prices[t] != beforePrices[t] {
          EntryTaken(choices, best.value.1, t, before[t], beforePrices[t]);
        } else {
          EntryUnchanged(choices, best, t, temp[t], prices[t]);
        }
      }
      choices := choices + [best];
    }
    tempCost := prices;
  }

  function CountOpen(taken: seq<bool>): nat {
    if taken == [] then 0 else CountOpen(taken[..|taken| - 1]) + (if taken[|taken| - 1] then 0 else 1)
  }

  lemma {:induction false} CountAfterTaking(taken: seq<bool>, t: nat)
    requires t < |taken| && !taken[t]
    ensures CountOpen(taken) == CountOpen(taken[t := true]) + 1
  {
    var n := |taken| - 1;
    if t < n {
      CountAfterTaking(taken[..n], t);
      assert taken[t := true][..n] == taken[..n][t := true];
    } else {
      assert taken[t := true][..n] == taken[..n];
    }
  }

  lemma {:induction false} CountZero(taken: seq<bool>, t: nat)
    requires CountOpen(taken) == 0 && t < |taken|
    ensures taken[t]
  {
    if t < |taken| - 1 { CountZero(taken[..|taken| - 1], t); }
  }

  lemma {:induction false} CountFresh(n: nat)
    ensures CountOpen(seq(n, _ => false)) == n
  {
    if n > 0 {
      CountFresh(n - 1);
      assert seq(n, _ => false)[..n - 1] == seq(n - 1, _ => false);
    }
  }

  // What is left to commit from task n on: open tasks of different AMRs whose chains are as
  // they were when the tasks were named.
  ghost predicate IsPending(c: Costs, chains: Rows, taken: seq<bool>, temp: seq<int>, n: int) {
    && |temp| == c.taskNum
    && (forall t {:trigger temp[t]} :: n <= t < |temp| && 0 <= t && temp[t] != -1 ==> IsOpen(c, chains, taken, temp[t], t))
    && (forall t, s {:trigger temp[t], temp[s]} :: 0 <= t < |temp| && 0 <= s < |temp| && temp[t] == temp[s] != -1 ==> t == s)
  }

  lemma NamedArePending(c: Costs, chains: Rows, accum: seq<real>, taken: seq<bool>, choices: Choices, temp: seq<int>,
                        tempCost: seq<Option<real>>)
    requires |chains| == |accum| && IsTable(c, choices, temp, tempCost) && AreChoices(c, chains, accum, taken, choices)
    ensures IsPending(c, chains, taken, temp, 0)
  {
    forall t | 0 <= t < |temp| && temp[t] != -1
      ensures IsOpen(c, chains, taken, temp[t], t) && Chose(choices, temp[t], t)
    {
      assert IsEntry(choices, t, temp[t], tempCost[t]);
      var a := temp[t];
      assert choices[a].Some?;
    }
  }

  // Giving task t to its AMR.
  lemma CommitKeeps(c: Costs, chains: Rows, taken: seq<bool>, temp: seq<int>, t: nat)
    requires Matches(c, chains, taken) && AllDrivable(c, chains) && IsPending(c, chains, taken, temp, t)
    requires t < c.taskNum && temp[t] != -1
    ensures 0 <= temp[t] < |chains|
    ensures Matches(c, chains[temp[t] := chains[temp[t]] + [t]], taken[t := true])
    ensures AllDrivable(c, chains[temp[t] := chains[temp[t]] + [t]])
    ensures IsPending(c, chains[temp[t] := chains[temp[t]] + [t]], taken[t := true], temp, t + 1)
  {
    var a := temp[t];
    assert IsOpen(c, chains, taken, a, t);
    var longer := chains[a] + [t];
    assert InsertAt(chains[a], |chains[a]|, t) == longer;
    TallyOfPut(chains, a, |chains[a]|, t);
    TakenMatches(c, chains, taken, a, t);
    LongerIsDrivable(c, chains[a], t, a);
    forall b {:trigger chains[b]} | 0 <= b < |chains| ensures IsDrivable(c, chains[a := longer][b], b) {
      assert IsDrivable(c, chains[b], b);
    }
    forall s | t + 1 <= s < |temp| && temp[s] != -1 ensures IsOpen(c, chains[a := longer], taken[t := true], temp[s], s) {
      assert IsOpen(c, chains, taken, temp[s], s);
      assert temp[s] == temp[t] ==> s == t;
    }
  }

  lemma TakenMatches(c: Costs, chains: Rows, taken: seq<bool>, a: int, t: nat)
    requires Matches(c, chains, taken) && 0 <= a < |chains| && t < c.taskNum && !taken[t]
    requires Tally(chains[a := chains[a] + [t]]) == Tally(chains) + multiset{t}
    ensures Matches(c, chains[a := chains[a] + [t]], taken[t := true])
  {
    var before, after := Tally(chains), Tally(chains[a := chains[a] + [t]]);
    forall s | 0 <= s < c.taskNum ensures after[s] == if taken[t := true][s] then 1 else 0 {
      CountPlusOne(before, t, s);
      assert before[s] == if taken[s] then 1 else 0;
    }
    forall s | s in after ensures c.IsTask(s) {
      CountPlusOne(before, t, s);
      assert s != t ==> s in before;
    }
  }

  lemma CountPlusOne<T>(m: multiset<T>, x: T, y: T)
    ensures (m + multiset{x})[y] == m[y] + (if x == y then 1 else 0)
  {
  }

  lemma LongerIsDrivable(c: Costs, chain: seq<int>, t: int, a: int)
    requires IsDrivable(c, chain, a) && c.Leg(chain, t, a).Some?
    ensures IsDrivable(c, chain + [t], a)
  {
    var longer := chain + [t];
    forall i | 0 <= i < |longer| ensures c.Leg(longer[..i], longer[i], a).Some? {
      if i < |chain| {
        assert longer[..i] == chain[..i];
        assert c.Leg(chain[..i], chain[i], a).Some?;
      } else {
        assert longer[..i] == chain;
      }
    }
  }

  // After the first n tasks: each named one is at the end of its AMR's chain, whose time has
  // grown by its leg unless it charges; all other chains are as they were.
  ghost predicate AreGiven(c: Costs, chains0: Rows, accum0: seq<real>, taken0: seq<bool>, temp: seq<int>, n: int,
                           chains: Rows, accum: seq<real>, taken: seq<bool>)
  {
    && |chains| == |chains0| == |accum| == |accum0| && |taken| == |taken0| == |temp| && 0 <= n <= |temp|
    && (forall t {:trigger temp[t]} :: 0 <= t < n && temp[t] != -1 ==>
          IsGiven(c, chains0, accum0, chains, accum, temp[t], t))
    && (forall a {:trigger chains[a]} {:trigger accum[a]} :: 0 <= a < |chains| && !IsNamed(temp, n, a) ==>
          chains[a] == chains0[a] && accum[a] == accum0[a])
    && (forall t {:trigger taken[t]} {:trigger taken0[t]} :: 0 <= t < |taken| ==>
          (taken[t] <==> taken0[t] || (t < n && temp[t] != -1)))
  }

  ghost predicate IsGiven(c: Costs, chains0: Rows, accum0: seq<real>, chains: Rows, accum: seq<real>, a: int, t: int) {
    && 0 <= a < |chains| && a < |chains0| && a < |accum| && a < |accum0|
    && chains[a] == chains0[a] + [t] && c.Leg(chains0[a], t, a).Some?
    && accum[a] == accum0[a] + (if c.nonCharging(t) then c.Leg(chains0[a], t, a).value else 0.0)
  }

  predicate IsNamed(temp: seq<int>, n: int, a: int)
    requires 0 <= n <= |temp|
  {
    exists t :: 0 <= t < n && temp[t] == a
  }

  // An AMR's time with one more task; charging takes none of it.
  function AccumAfter(c: Costs, chains: Rows, accum: seq<real>, a: int, t: int): seq<real>
    requires 0 <= a < |chains| && a < |accum| && c.Leg(chains[a], t, a).Some?
  {
    if c.nonCharging(t) then accum[a := accum[a] + c.Leg(chains[a], t, a).value] else accum
  }

  lemma GivenNext(c: Costs, chains0: Rows, accum0: seq<real>, taken0: seq<bool>, temp: seq<int>, n: int,
                  chains: Rows, accum: seq<real>, taken: seq<bool>)
    requires AreGiven(c, chains0, accum0, taken0, temp, n, chains, accum, taken) && n < |temp| && temp[n] != -1
    requires forall t, s {:trigger temp[t], temp[s]} :: 0 <= t < |temp| && 0 <= s < |temp| && temp[t] == temp[s] != -1 ==> t == s
    requires 0 <= temp[n] < |chains| && c.Leg(chains[temp[n]], n, temp[n]).Some?
    ensures temp[n] < |accum|
    ensures var a := temp[n];
      AreGiven(c, chains0, accum0, taken0, temp, n + 1, chains[a := chains[a] + [n]],
        AccumAfter(c, chains, accum, a, n), taken[n := true])
  {
    var a := temp[n];
    assert !IsNamed(temp, n, a);
    assert chains[a] == chains0[a] && accum[a] == accum0[a];
    var chains' := chains[a := chains[a] + [n]];
    var accum' := AccumAfter(c, chains, accum, a, n);
    forall t | 0 <= t < n + 1 && temp[t] != -1 ensures IsGiven(c, chains0, accum0, chains', accum', temp[t], t) {
      if t < n { assert IsGiven(c, chains0, accum0, chains, accum, temp[t], t); }
    }
    forall b | 0 <= b < |chains| && !IsNamed(temp, n + 1, b) ensures chains'[b] == chains0[b] && accum'[b] == accum0[b] {
      assert b != a && !IsNamed(temp, n, b);
    }
  }

  lemma GivenSkips(c: Costs, chains0: Rows, accum0: seq<real>, taken0: seq<bool>, temp: seq<int>, n: int,
                   chains: Rows, accum: seq<real>, taken: seq<bool>)
    requires AreGiven(c, chains0, accum0, taken0, temp, n, chains, accum, taken) && n < |temp| && temp[n] == -1
    ensures AreGiven(c, chains0, accum0, taken0, temp, n + 1, chains, accum, taken)
  {
    forall b | 0 <= b < |chains| && !IsNamed(temp, n + 1, b) ensures chains[b] == chains0[b] && accum[b] == accum0[b] {
      assert forall t :: 0 <= t < n && temp[t] == b ==> t < n + 1;
      assert !IsNamed(temp, n, b);
    }
  }

  // The loop that gives the named tasks to their AMRs, all of them in this round.
  method Commit(c: Costs, chains0: Rows, accum0: seq<real>, taken0: seq<bool>, unallocated0: nat, temp: seq<int>)
      returns (chains: Rows, accum: seq<real>, taken: seq<bool>, unallocated: nat)
    requires Matches(c, chains0, taken0) && AllDrivable(c, chains0) && |accum0| == |chains0|
    requires unallocated0 == CountOpen(taken0) && IsPending(c, chains0, taken0, temp, 0)
    ensures Matches(c, chains, taken) && AllDrivable(c, chains) && |accum| == |chains|
    ensures unallocated == CountOpen(taken) <= unallocated0
    ensures NoneNamed(temp, |temp|) || unallocated < unallocated0
    ensures unallocated == unallocated0 ==> chains == chains0 && taken == taken0
    ensures AreGiven(c, chains0, accum0, taken0, temp, |temp|, chains, accum, taken)
  {
    chains, accum, taken, unallocated := chains0, accum0, taken0, unallocated0;
    for t := 0 to c.taskNum
      invariant Committed(c, chains0, accum0, taken0, unallocated0, temp, t, chains, accum, taken, unallocated)
    {
      if temp[t] != -1 {
        chains, accum, taken, unallocated :=
          GiveTask(c, chains0, accum0, taken0, unallocated0, temp, t, chains, accum, taken, unallocated);
      } else {
        CommitSkips(c, chains0, accum0, taken0, unallocated0, temp, t, chains, accum, taken, unallocated);
      }
    }
    if NoneNamed(temp, |temp|) {
      NothingGiven(c, chains0, accum0, taken0, temp, chains, accum, taken);
    }
  }

  // One task goes to the end of its AMR's chain.
  method GiveTask(c: Costs, ghost chains0: Rows, ghost accum0: seq<real>, ghost taken0: seq<bool>, ghost unallocated0: nat,
                  temp: seq<int>, t: nat, chainsBefore: Rows, accumBefore: seq<real>, takenBefore: seq<bool>, unallocatedBefore: nat)
      returns (chains: Rows, accum: seq<real>, taken: seq<bool>, unallocated: nat)
    requires Committed(c, chains0, accum0, taken0, unallocated0, temp, t, chainsBefore, accumBefore, takenBefore, unallocatedBefore)
    requires t < c.taskNum && temp[t] != -1
    ensures Committed(c, chains0, accum0, taken0, unallocated0, temp, t + 1, chains, accum, taken, unallocated)
  {
    var a := temp[t];
    CommitNext(c, chains0, accum0, taken0, unallocated0, temp, t, chainsBefore, accumBefore, takenBefore, unallocatedBefore);
    accum := AccumAfter(c, chainsBefore, accumBefore, a, t);
    chains, taken, unallocated := chainsBefore[a := chainsBefore[a] + [t]], takenBefore[t := true], unallocatedBefore - 1;
  }

  lemma CommitSkips(c: Costs, chains0: Rows, accum0: seq<real>, taken0: seq<bool>, unallocated0: nat, temp: seq<int>, t: int,
                    chains: Rows, accum: seq<real>, taken: seq<bool>, unallocated: nat)
    requires Committed(c, chains0, accum0, taken0, unallocated0, temp, t, chains, accum, taken, unallocated)
    requires 0 <= t < c.taskNum && temp[t] == -1
    ensures Committed(c, chains0, accum0, taken0, unallocated0, temp, t + 1, chains, accum, taken, unallocated)
  {
    GivenSkips(c, chains0, accum0, taken0, temp, t, chains, accum, taken);
  }

  predicate NoneNamed(temp: seq<int>, n: int) {
    0 <= n <= |temp| && forall t {:trigger temp[t]} :: 0 <= t < n ==> temp[t] == -1
  }

  lemma NothingGiven(c: Costs, chains0: Rows, accum0: seq<real>, taken0: seq<bool>, temp: seq<int>,
                     chains: Rows, accum: seq<real>, taken: seq<bool>)
    requires AreGiven(c, chains0, accum0, taken0, temp, |temp|, chains, accum, taken) && NoneNamed(temp, |temp|)
    ensures chains == chains0 && accum == accum0 && taken == taken0
  {
    assert forall a :: 0 <= a < |chains| ==> !IsNamed(temp, |temp|, a);
  }

  // What holds once the first n tasks have been dealt with.
  ghost predicate Committed(c: Costs, chains0: Rows, accum0: seq<real>, taken0: seq<bool>, unallocated0: nat, temp: seq<int>, n: int,
                            chains: Rows, accum: seq<real>, taken: seq<bool>, unallocated: nat)
  {
    && Matches(c, chains, taken) && AllDrivable(c, chains) && |accum| == |chains|
    && IsPending(c, chains, taken, temp, n) && unallocated == CountOpen(taken) <= unallocated0
    && (NoneNamed(temp, n) || unallocated < unallocated0)
    && AreGiven(c, chains0, accum0, taken0, temp, n, chains, accum, taken)
  }

  lemma CommitNext(c: Costs, chains0: Rows, accum0: seq<real>, taken0: seq<bool>, unallocated0: nat, temp: seq<int>, t: int,
                   chains: Rows, accum: seq<real>, taken: seq<bool>, unallocated: nat)
    requires Committed(c, chains0, accum0, taken0, unallocated0, temp, t, chains, accum, taken, unallocated)
    requires 0 <= t < c.taskNum && temp[t] != -1
    ensures IsOpen(c, chains, taken, temp[t], t) && unallocated > 0
    ensures var a := temp[t];
      Committed(c, chains0, accum0, taken0, unallocated0, temp, t + 1, chains[a := chains[a] + [t]],
        AccumAfter(c, chains, accum, a, t), taken[t := true], unallocated - 1)
  {
    assert IsOpen(c, chains, taken, temp[t], t);
    CommitKeeps(c, chains, taken, temp, t);
    CountAfterTaking(taken, t);
    GivenNext(c, chains0, accum0, taken0, temp, t, chains, accum, taken);
  }

  // No AMR reaches an unallocated task from the end of its chain.
  ghost predicate NothingOpen(c: Costs, chains: Rows, taken: seq<bool>) {
    forall a, t {:trigger IsOpen(c, chains, taken, a, t)} :: !IsOpen(c, chains, taken, a, t)
  }

  lemma NothingNamedIsNothingOpen(c: Costs, chains: Rows, accum: seq<real>, taken: seq<bool>, choices: Choices, temp: seq<int>,
                                  tempCost: seq<Option<real>>)
    requires |chains| == |accum| == |choices| && |taken| == c.taskNum
    requires IsTable(c, choices, temp, tempCost) && AreChoices(c, chains, accum, taken, choices)
    requires NoneNamed(temp, |temp|)
    ensures NothingOpen(c, chains, taken)
  {
    forall a, t ensures !IsOpen(c, chains, taken, a, t) {
      if 0 <= a < |choices| && choices[a].Some? {
        var s := choices[a].value.0;
        assert IsOpen(c, chains, taken, a, s);
        assert IsEntry(choices, s, temp[s], tempCost[s]);
        assert Chose(choices, a, s);
        assert false;
      }
    }
  }

  lemma AllTakenIsNothingOpen(c: Costs, chains: Rows, taken: seq<bool>)
    requires CountOpen(taken) == 0
    ensures NothingOpen(c, chains, taken)
  {
    forall a, t ensures !IsOpen(c, chains, taken, a, t) {
      if 0 <= t < |taken| { CountZero(taken, t); }
    }
  }

  // All rounds: at most one productive round per task; chains are drivable and name no task
  // twice; at the end no AMR can take a further task.
  method Allocate(c: Costs) returns (chains: Rows, taken: seq<bool>, productive: nat)
    ensures Matches(c, chains, taken) && AllDrivable(c, chains) && NothingOpen(c, chains, taken)
    ensures productive <= c.taskNum - CountOpen(taken)
  {
    chains, taken := seq(c.amrNum, _ => []), seq(c.taskNum, _ => false);
    var accum := seq(c.amrNum, _ => 0.0);
    var unallocated := c.taskNum;
    productive := 0;
    CountFresh(c.taskNum);
    EmptyTally(chains);
    while unallocated > 0
      invariant Matches(c, chains, taken) && AllDrivable(c, chains) && |accum| == |chains| && unallocated == CountOpen(taken)
      invariant productive + unallocated <= c.taskNum
      decreases unallocated
    {
      var prev := unallocated;
      var temp;
      ghost var choices, tempCost;
      temp, choices, tempCost := NameTasks(c, chains, accum, taken);
      NamedArePending(c, chains, accum, taken, choices, temp, tempCost);
      ghost var chains0, accum0, taken0 := chains, accum, taken;
      chains, accum, taken, unallocated := Commit(c, chains, accum, taken, unallocated, temp);
      if unallocated == prev {
        NothingNamedIsNothingOpen(c, chains0, accum0, taken0, choices, temp, tempCost);
        return;
      }
      productive := productive + 1;
    }
    AllTakenIsNothingOpen(c, chains, taken);
  }

  lemma {:induction false} EmptyTally(rows: Rows)
    requires forall i :: 0 <= i < |rows| ==> rows[i] == []
    ensures Tally(rows) == multiset{}
  {
    if rows != [] { EmptyTally(rows[..|rows| - 1]); }
  }

  // No task stands at two places of the chains.
  lemma NoTaskTwice(c: Costs, chains: Rows, taken: seq<bool>, a: nat, i: nat, b: nat, j: nat)
    requires Matches(c, chains, taken) && a < |chains| && i < |chains[a]| && b < |chains| && j < |chains[b]|
    requires chains[a][i] == chains[b][j]
    ensures a == b && i == j
  {
    var t := chains[a][i];
    InTally(chains, t);
    assert t in Tally(chains) && c.IsTask(t);
    assert Tally(chains)[t] == if taken[t] then 1 else 0;
    if a != b {
      TwoRows(chains, a, b, t);
    } else if i != j {
      TallySplitsOff(chains, a, t);
      CountTwice(chains[a], i, j);
    }
  }

  lemma {:induction false} TallySplitsOff(rows: Rows, a: nat, t: int)
    requires a < |rows|
    ensures Tally(rows)[t] >= multiset(rows[a])[t]
  {
    if a < |rows| - 1 { TallySplitsOff(rows[..|rows| - 1], a, t); }
  }

  lemma {:induction false} TwoRows(rows: Rows, a: nat, b: nat, t: int)
    requires a < |rows| && b < |rows| && a != b && t in rows[a] && t in rows[b]
    ensures Tally(rows)[t] >= 2
  {
    var n := |rows| - 1;
    CountMeansIn(rows[a], t);
    CountMeansIn(rows[b], t);
    if a < n && b < n {
      TwoRows(rows[..n], a, b, t);
    } else {
      TallySplitsOff(rows[..n], if a < n then a else b, t);
    }
  }

  lemma CountTwice(row: seq<int>, i: nat, j: nat)
    requires i < |row| && j < |row| && i != j && row[i] == row[j]
    ensures multiset(row)[row[i]] >= 2
  {
    var k, l := if i < j then j else i, if i < j then i else j;
    assert row == row[..k] + [row[k]] + row[k + 1..];
    assert row[..k][l] in row[..k];
    CountMeansIn(row[..k], row[l]);
  }
}
