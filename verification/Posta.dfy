// The population search of `PostaTaskAllocator`: four operators on task codes, and the loop
// that keeps the best code found. Random numbers are any numbers of their range.
module Posta {
  import opened Util
  import opened Placement

  const SEPARATOR := -1

  type Code = seq<int>

  datatype Cost = Finite(value: real) | Infinite
  {
    predicate Less(other: Cost) {
      Finite? && (other.Infinite? || value < other.value)
    }

    predicate AtMost(other: Cost) { !other.Less(this) }
  }

  ghost predicate SameEntries(a: Code, b: Code) {
    |a| == |b| && multiset(a) == multiset(b)
  }

  method Random(low: int, high: int) returns (r: int)
    requires low <= high
    ensures low <= r <= high
  {
    r :| low <= r <= high;
  }

  lemma SwapKeepsEntries(s: Code, i: int, j: int)
    requires 0 <= i <= j < |s|
    ensures SameEntries(s, s[i := s[j]][j := s[i]])
  {
    SwapKeepsMultiset(s, i, j);
  }

  // Nothing outside [lo, hi) differs.
  predicate SameOutside(a: Code, b: Code, lo: int, hi: int) {
    |a| == |b| && forall k {:trigger a[k]} {:trigger b[k]} :: 0 <= k < |a| && (k < lo || hi <= k) ==> b[k] == a[k]
  }

  // `std::shuffle` on [lo, hi)
  method Shuffle(s0: Code, lo: int, hi: int) returns (s: Code)
    requires 0 <= lo <= hi <= |s0|
    ensures SameEntries(s0, s) && SameOutside(s0, s, lo, hi)
  {
    s := s0;
    for i := lo to hi
      invariant SameEntries(s0, s) && SameOutside(s0, s, lo, hi)
    {
      var j := Random(lo, i);
      SwapKeepsEntries(s, j, i);
      s := s[j := s[i]][i := s[j]];
    }
  }

  function Clamp(alpha: int, n: int): (a: int)
    requires n >= 1
    ensures 1 <= a <= n
  {
    var low := if n < alpha then n else alpha;
    if low < 1 then 1 else low
  }

  // Every state is a rearrangement of the code.
  ghost predicate AllSameEntries(code: Code, states: seq<Code>) {
    forall i {:trigger states[i]} :: 0 <= i < |states| ==> SameEntries(code, states[i])
  }

  // A rearrangement inside one window of a entries.
  ghost predicate IsWindowShuffle(best: Code, s: Code, a: int) {
    SameEntries(best, s) && exists start, end :: 0 <= start && end == start + a <= |best| && SameOutside(best, s, start, end)
  }

  method OpSwap(best: Code, se: nat, alpha: int) returns (states: seq<Code>)
    requires |best| >= 1
    ensures |states| == se && AllSameEntries(best, states)
    ensures forall i {:trigger states[i]} :: 0 <= i < se ==> IsWindowShuffle(best, states[i], Clamp(alpha, |best|))
  {
    var a := Clamp(alpha, |best|);
    states := seq(se, _ => best);
    for i := 0 to se
      invariant |states| == se && forall k {:trigger states[k]} :: i <= k < se ==> states[k] == best
      invariant forall k {:trigger states[k]} :: 0 <= k < i ==> IsWindowShuffle(best, states[k], a)
    {
      var start := Random(0, |best| - a);
      var s := Shuffle(states[i], start, start + a);
      assert SameOutside(best, s, start, start + a);
      states := states[i := s];
    }
  }

  // Two neighbouring blocks, one of them n long, change places.
  ghost predicate IsBlockMove(a: Code, b: Code, n: int) {
    exists i, j, k :: 0 <= i <= j <= k <= |a| && (j - i == n || k - j == n) && b == BlocksMoved(a, i, j, k)
  }

  function BlocksMoved(a: Code, i: int, j: int, k: int): Code
    requires 0 <= i <= j <= k <= |a|
  {
    a[..i] + a[j..k] + a[i..j] + a[k..]
  }

  lemma BlockMoveKeepsEntries(a: Code, b: Code, n: int)
    requires IsBlockMove(a, b, n)
    ensures SameEntries(a, b)
  {
    var i, j, k :| 0 <= i <= j <= k <= |a| && (j - i == n || k - j == n) && b == BlocksMoved(a, i, j, k);
    MiddleSwapped(a, i, j, k);
  }

  lemma MiddleSwapped<T>(a: seq<T>, i: int, j: int, k: int)
    requires 0 <= i <= j <= k <= |a|
    ensures multiset(a[..i] + a[j..k] + a[i..j] + a[k..]) == multiset(a)
  {
    FourBlocks(a, i, j, k);
    SwapMiddle(a[..i], a[i..j], a[j..k], a[k..]);
  }

  lemma FourBlocks<T>(a: seq<T>, i: int, j: int, k: int)
    requires 0 <= i <= j <= k <= |a|
    ensures a == a[..i] + a[i..j] + a[j..k] + a[k..]
  {
  }

  lemma SwapMiddle<T>(a: seq<T>, b: seq<T>, c: seq<T>, d: seq<T>)
    ensures multiset(a + b + c + d) == multiset(a + c + b + d)
  {
    assert multiset(a + b + c + d) == multiset(a) + multiset(b) + multiset(c) + multiset(d);
  }

  // Appends best[lo..hi] without the segment.
  method CopyRest(best: Code, lo: int, hi: int, start: int, end: int, s0: Code) returns (s: Code)
    requires 0 <= lo <= hi <= |best| && 0 <= start <= end <= |best|
    ensures s == s0 + Outside(best, lo, hi, start, end)
  {
    s := s0;
    for i := lo to hi
      invariant s == s0 + Outside(best, lo, i, start, end)
    {
      if i < start || i >= end { s := s + [best[i]]; }
    }
  }

  function Outside(best: Code, lo: int, hi: int, start: int, end: int): Code
    requires 0 <= lo <= hi <= |best|
  {
    if lo == hi then []
    else Outside(best, lo, hi - 1, start, end) + (if hi - 1 < start || hi - 1 >= end then [best[hi - 1]] else [])
  }

  lemma {:induction false} OutsideKeeps(best: Code, lo: int, hi: int, start: int, end: int)
    requires 0 <= lo <= hi <= |best| && (hi <= start || end <= lo)
    ensures Outside(best, lo, hi, start, end) == best[lo..hi]
    decreases hi - lo
  {
    if lo < hi {
      OutsideKeeps(best, lo, hi - 1, start, end);
      assert best[lo..hi] == best[lo..hi - 1] + [best[hi - 1]];
    }
  }

  lemma {:induction false} OutsideDrops(best: Code, lo: int, hi: int, start: int, end: int)
    requires 0 <= lo <= hi <= |best| && start <= lo && hi <= end
    ensures Outside(best, lo, hi, start, end) == []
    decreases hi - lo
  {
    if lo < hi { OutsideDrops(best, lo, hi - 1, start, end); }
  }

  lemma {:induction false} OutsideSplit(best: Code, lo: int, mid: int, hi: int, start: int, end: int)
    requires 0 <= lo <= mid <= hi <= |best|
    ensures Outside(best, lo, hi, start, end) == Outside(best, lo, mid, start, end) + Outside(best, mid, hi, start, end)
    decreases hi - mid
  {
    if mid < hi { OutsideSplit(best, lo, mid, hi - 1, start, end); }
  }

  // A range that contains the segment loses exactly it.
  lemma OutsideAround(best: Code, lo: int, hi: int, start: int, end: int)
    requires 0 <= lo <= start <= end <= hi <= |best|
    ensures Outside(best, lo, hi, start, end) == best[lo..start] + best[end..hi]
  {
    OutsideSplit(best, lo, start, hi, start, end);
    OutsideSplit(best, start, end, hi, start, end);
    OutsideKeeps(best, lo, start, start, end);
    OutsideDrops(best, start, end, start, end);
    OutsideKeeps(best, end, hi, start, end);
  }

  // The rest up to and including position p, the segment, the remaining rest.
  function Moved(best: Code, start: int, a: int, p: int): Code
    requires 0 <= start && 0 < a && start + a <= |best| && 0 <= p < |best|
  {
    Outside(best, 0, p + 1, start, start + a) + best[start..start + a] + Outside(best, p + 1, |best|, start, start + a)
  }

  lemma MovedIsBlockMove(best: Code, start: int, a: int, p: int)
    requires 0 <= start && 0 < a && start + a <= |best| && 0 <= p < |best| && (p < start || start + a <= p)
    ensures IsBlockMove(best, Moved(best, start, a, p), a)
  {
    if p < start {
      MovedForward(best, start, a, p);
    } else {
      MovedBackward(best, start, a, p);
    }
  }

  lemma Regroup(a: Code, b: Code, c: Code, d: Code)
    ensures a + b + (c + d) == a + b + c + d
  {
  }

  lemma MovedForward(best: Code, start: int, a: int, p: int)
    requires 0 < a && start + a <= |best| && 0 <= p < start
    ensures Moved(best, start, a, p) == BlocksMoved(best, p + 1, start, start + a)
  {
    OutsideKeeps(best, 0, p + 1, start, start + a);
    OutsideAround(best, p + 1, |best|, start, start + a);
    Regroup(best[..p + 1], best[start..start + a], best[p + 1..start], best[start + a..]);
  }

  lemma MovedBackward(best: Code, start: int, a: int, p: int)
    requires 0 <= start && 0 < a && start + a <= p < |best|
    ensures Moved(best, start, a, p) == BlocksMoved(best, start, start + a, p + 1)
  {
    OutsideAround(best, 0, p + 1, start, start + a);
    OutsideKeeps(best, p + 1, |best|, start, start + a);
  }

  method CopyRange(best: Code, lo: int, hi: int, s0: Code) returns (s: Code)
    requires 0 <= lo <= hi <= |best|
    ensures s == s0 + best[lo..hi]
  {
    s := s0;
    for i := lo to hi
      invariant s == s0 + best[lo..i]
    {
      s := s + [best[i]];
    }
  }

  method MoveSegment(best: Code, start: int, a: int, p: int) returns (s: Code)
    requires 0 <= start && 0 < a && start + a <= |best| && 0 <= p < |best| && (p < start || start + a <= p)
    ensures IsBlockMove(best, s, a)
  {
    s := CopyRest(best, 0, p + 1, start, start + a, []);
    s := CopyRange(best, start, start + a, s);
    s := CopyRest(best, p + 1, |best|, start, start + a, s);
    assert s == Moved(best, start, a, p);
    MovedIsBlockMove(best, start, a, p);
  }

  // Where the segment goes: a position outside it, or none when there is no room.
  method PickTarget(n: int, start: int, a: int) returns (p: Option<int>)
    requires 1 <= a && 0 <= start <= n - a
    ensures p.Some? ==> 0 <= p.value <= n - a && (p.value < start || start + a <= p.value)
  {
    var insertAfter := Random(0, n - a);
    if start <= insertAfter <= start + a - 1 {
      var coin := Random(0, 1);
      if start > 0 && coin == 1 {
        insertAfter := Random(0, start - 1);
      } else if start + a - 1 < n - a {
        insertAfter := Random(start + a, n - a);
      } else {
        return None;
      }
    }
    p := Some(insertAfter);
  }

  method OpShift(best: Code, se: nat, alpha: int) returns (states: seq<Code>)
    requires |best| >= 1
    ensures |states| == se && AllSameEntries(best, states)
    ensures forall i {:trigger states[i]} :: 0 <= i < se ==>
      states[i] == best || IsBlockMove(best, states[i], Clamp(alpha, |best|))
  {
    var a := Clamp(alpha, |best|);
    states := [];
    for i := 0 to se
      invariant |states| == i && AllSameEntries(best, states)
      invariant forall k {:trigger states[k]} :: 0 <= k < i ==> states[k] == best || IsBlockMove(best, states[k], a)
    {
      var start := Random(0, |best| - a);
      var p := PickTarget(|best|, start, a);
      if p.None? {
        states := states + [best];
      } else {
        var s := MoveSegment(best, start, a, p.value);
        BlockMoveKeepsEntries(best, s, a);
        states := states + [s];
      }
    }
  }

  // `std::reverse` on [lo, hi)
  method Reverse(s0: Code, lo: int, hi: int) returns (s: Code)
    requires 0 <= lo <= hi <= |s0|
    ensures SameEntries(s0, s) && IsReversal(s0, s, lo, hi)
  {
    s := s0;
    var i, j := lo, hi;
    while i < j - 1
      invariant lo <= i <= hi && lo <= j <= hi && i - lo == hi - j && i <= j && |s| == |s0| && SameEntries(s0, s)
      invariant forall k {:trigger s[k]} :: 0 <= k < |s| ==>
        s[k] == if (lo <= k < i || j <= k < hi) then s0[lo + hi - 1 - k] else s0[k]
    {
      j := j - 1;
      SwapKeepsEntries(s, i, j);
      s := s[i := s[j]][j := s[i]];
      i := i + 1;
    }
  }

  // The window is read backwards, everything else stays.
  predicate IsReversal(a: Code, b: Code, lo: int, hi: int) {
    && 0 <= lo <= hi <= |a| == |b|
    && forall k {:trigger b[k]} :: 0 <= k < |a| ==> b[k] == if lo <= k < hi then a[lo + hi - 1 - k] else a[k]
  }

  ghost predicate IsWindowReversal(best: Code, s: Code, a: int) {
    SameEntries(best, s) && exists lo, hi :: hi == lo + a && IsReversal(best, s, lo, hi)
  }

  method OpSym(best: Code, se: nat, alpha: int) returns (states: seq<Code>)
    requires |best| >= 1
    ensures |states| == se && AllSameEntries(best, states)
    ensures forall i {:trigger states[i]} :: 0 <= i < se ==> IsWindowReversal(best, states[i], Clamp(alpha, |best|))
  {
    var a := Clamp(alpha, |best|);
    states := seq(se, _ => best);
    for i := 0 to se
      invariant |states| == se && forall k {:trigger states[k]} :: i <= k < se ==> states[k] == best
      invariant forall k {:trigger states[k]} :: 0 <= k < i ==> IsWindowReversal(best, states[k], a)
    {
      var start := Random(0, |best| - a);
      var s := Reverse(states[i], start, start + a);
      assert IsReversal(best, s, start, start + a);
      states := states[i := s];
    }
  }

  // A maximal run without separators: one AMR's tasks.
  predicate IsSegment(code: Code, l: int, r: int) {
    && 0 <= l <= r < |code| && (forall k {:trigger code[k]} :: l <= k <= r ==> code[k] != SEPARATOR)
    && (l == 0 || code[l - 1] == SEPARATOR) && (r == |code| - 1 || code[r + 1] == SEPARATOR)
  }

  datatype Segment = Segment(first: int, last: int)

  predicate IsRun(code: Code, run: Segment) {
    run.first <= run.last ==> IsSegment(code, run.first, run.last)
  }

  // `segStarts` and `segEnds`: the runs between the separators, possibly empty.
  ghost predicate AreRuns(code: Code, n: nat, runs: seq<Segment>, open: int) {
    && n <= |code| && 0 <= open <= n && (open == 0 || code[open - 1] == SEPARATOR)
    && (forall k {:trigger code[k]} :: open <= k < n ==> code[k] != SEPARATOR)
    && (forall i {:trigger runs[i]} :: 0 <= i < |runs| ==> IsRun(code, runs[i]))
    && (forall l, r {:trigger IsSegment(code, l, r)} :: IsSegment(code, l, r) && r < open ==> Segment(l, r) in runs)
    && AreInOrder(runs) && (forall i {:trigger runs[i]} :: 0 <= i < |runs| ==> runs[i].last < open)
  }

  // One run after the other, none of them overlapping.
  predicate AreInOrder(runs: seq<Segment>) {
    forall i, j {:trigger runs[i], runs[j]} :: 0 <= i < j < |runs| ==> runs[i].last < runs[j].first
  }

  // A segment that ends in the run being read is that run.
  lemma OpenRunIsOnlySegment(code: Code, n: nat, runs: seq<Segment>, open: int, l: int, r: int)
    requires AreRuns(code, n, runs, open) && (n == |code| || code[n] == SEPARATOR)
    requires IsSegment(code, l, r) && open <= r < n
    ensures l == open && r == n - 1
  {
    assert r == n - 1;
    assert l >= open;
  }

  method FindRuns(code: Code) returns (runs: seq<Segment>)
    ensures forall i {:trigger runs[i]} :: 0 <= i < |runs| ==> IsRun(code, runs[i])
    ensures forall l, r {:trigger IsSegment(code, l, r)} :: IsSegment(code, l, r) ==> Segment(l, r) in runs
    ensures AreInOrder(runs)
  {
    runs := [];
    var open := 0;
    for i := 0 to |code|
      invariant AreRuns(code, i, runs, open)
    {
      if code[i] == SEPARATOR {
        forall l, r | IsSegment(code, l, r) && open <= r < i ensures l == open && r == i - 1 {
          OpenRunIsOnlySegment(code, i, runs, open, l, r);
        }
        runs := runs + [Segment(open, i - 1)];
        open := i + 1;
      }
    }
    forall l, r | IsSegment(code, l, r) && open <= r < |code| ensures l == open && r == |code| - 1 {
      OpenRunIsOnlySegment(code, |code|, runs, open, l, r);
    }
    runs := runs + [Segment(open, |code| - 1)];
  }

  type Pair = (int, int)

  // Pairs sorted by their first parts; equal ones keep their order.
  predicate IsSorted(ps: seq<Pair>) {
    forall i, j :: 0 <= i < j < |ps| ==> ps[i].0 <= ps[j].0
  }

  function InsertStable(ps: seq<Pair>, p: Pair): (r: seq<Pair>)
    ensures |r| == |ps| + 1
  {
    if ps != [] && p.0 < ps[|ps| - 1].0 then InsertStable(ps[..|ps| - 1], p) + [ps[|ps| - 1]] else ps + [p]
  }

  lemma {:induction false} InsertKeepsSorted(ps: seq<Pair>, p: Pair)
    requires IsSorted(ps)
    ensures IsSorted(InsertStable(ps, p))
    ensures forall q :: q in InsertStable(ps, p) ==> q == p || q in ps
  {
    if ps != [] && p.0 < ps[|ps| - 1].0 {
      var front, last := ps[..|ps| - 1], ps[|ps| - 1];
      InsertKeepsSorted(front, p);
      var r := InsertStable(front, p);
      forall i | 0 <= i < |r| ensures r[i].0 <= last.0 {
        assert r[i] in r;
        if r[i] != p {
          var k :| 0 <= k < |front| && front[k] == r[i];
          assert ps[k].0 <= ps[|ps| - 1].0;
        }
      }
    } else if ps != [] {
      forall i | 0 <= i < |ps| ensures ps[i].0 <= p.0 {
        assert i < |ps| - 1 ==> ps[i].0 <= ps[|ps| - 1].0;
      }
    }
  }

  function Seconds(ps: seq<Pair>): (r: Code)
    ensures |r| == |ps| && forall i :: 0 <= i < |r| ==> r[i] == ps[i].1
  {
    seq(|ps|, i requires 0 <= i < |ps| => ps[i].1)
  }

  lemma SecondsSnoc(ps: seq<Pair>, p: Pair)
    ensures Seconds(ps + [p]) == Seconds(ps) + [p.1]
  {
  }

  lemma {:induction false} InsertAddsSecond(ps: seq<Pair>, p: Pair)
    ensures multiset(Seconds(InsertStable(ps, p))) == multiset(Seconds(ps)) + multiset{p.1}
  {
    if ps != [] && p.0 < ps[|ps| - 1].0 {
      var front, last := ps[..|ps| - 1], ps[|ps| - 1];
      InsertAddsSecond(front, p);
      SecondsSnoc(InsertStable(front, p), last);
      SecondsSnoc(front, last);
      assert ps == front + [last];
    } else {
      SecondsSnoc(ps, p);
    }
  }

  // The pairs of earlier and current entries of a segment, stably sorted by the earlier ones.
  function SortedPairs(prior: Code, cur: Code, l: int, n: int): (ps: seq<Pair>)
    requires 0 <= l <= n <= |cur| <= |prior|
    ensures |ps| == n - l
  {
    if n == l then [] else InsertStable(SortedPairs(prior, cur, l, n - 1), (prior[n - 1], cur[n - 1]))
  }

  lemma SliceGrows<T>(s: seq<T>, l: int, n: int)
    requires 0 <= l < n <= |s|
    ensures multiset(s[l..n]) == multiset(s[l..n - 1]) + multiset{s[n - 1]}
  {
    assert s[l..n] == s[l..n - 1] + [s[n - 1]];
  }

  lemma {:induction false} SortedPairsSort(prior: Code, cur: Code, l: int, n: int)
    requires 0 <= l <= n <= |cur| <= |prior|
    ensures IsSorted(SortedPairs(prior, cur, l, n))
    ensures multiset(Seconds(SortedPairs(prior, cur, l, n))) == multiset(cur[l..n])
    decreases n
  {
    if l < n {
      var ps := SortedPairs(prior, cur, l, n - 1);
      SortedPairsSort(prior, cur, l, n - 1);
      InsertKeepsSorted(ps, (prior[n - 1], cur[n - 1]));
      InsertAddsSecond(ps, (prior[n - 1], cur[n - 1]));
      SliceGrows(cur, l, n);
    } else {
      assert cur[l..n] == [];
    }
  }

  // The pairs with one first part, in order.
  function WithFirst(ps: seq<Pair>, x: int): seq<Pair> {
    if ps == [] then [] else WithFirst(ps[..|ps| - 1], x) + (if ps[|ps| - 1].0 == x then [ps[|ps| - 1]] else [])
  }

  lemma WithFirstSnoc(ps: seq<Pair>, p: Pair, x: int)
    ensures WithFirst(ps + [p], x) == WithFirst(ps, x) + (if p.0 == x then [p] else [])
  {
    assert (ps + [p])[..|ps|] == ps;
  }

  lemma {:induction false} InsertedComesLast(ps: seq<Pair>, p: Pair, x: int)
    requires IsSorted(ps)
    ensures WithFirst(InsertStable(ps, p), x) == WithFirst(ps, x) + (if p.0 == x then [p] else [])
  {
    if ps != [] && p.0 < ps[|ps| - 1].0 {
      var front, last := ps[..|ps| - 1], ps[|ps| - 1];
      InsertedComesLast(front, p, x);
      WithFirstSnoc(InsertStable(front, p), last, x);
    } else {
      WithFirstSnoc(ps, p, x);
    }
  }

  function PairsOf(prior: Code, cur: Code, l: int, n: int): (ps: seq<Pair>)
    requires 0 <= l <= n <= |cur| <= |prior|
  {
    seq(n - l, i requires 0 <= i < n - l => (prior[l + i], cur[l + i]))
  }

  lemma StableStep(ps: seq<Pair>, qs: seq<Pair>, p: Pair, x: int)
    requires IsSorted(ps) && SameWithFirst(ps, qs, x)
    ensures SameWithFirst(InsertStable(ps, p), qs + [p], x)
  {
    InsertedComesLast(ps, p, x);
    WithFirstSnoc(qs, p, x);
  }

  lemma PairsGrow(prior: Code, cur: Code, l: int, n: int)
    requires 0 <= l < n <= |cur| <= |prior|
    ensures PairsOf(prior, cur, l, n) == PairsOf(prior, cur, l, n - 1) + [(prior[n - 1], cur[n - 1])]
  {
  }

  ghost predicate SameWithFirst(ps: seq<Pair>, qs: seq<Pair>, x: int) { WithFirst(ps, x) == WithFirst(qs, x) }

  // Sorting is stable: among equal first parts the order of the segment stays.
  lemma {:induction false} SortedPairsAreStable(prior: Code, cur: Code, l: int, n: int, x: int)
    requires 0 <= l <= n <= |cur| <= |prior|
    ensures SameWithFirst(SortedPairs(prior, cur, l, n), PairsOf(prior, cur, l, n), x)
    decreases n
  {
    if l < n {
      SortedPairsAreStable(prior, cur, l, n - 1, x);
      SortedPairsSort(prior, cur, l, n - 1);
      var p := (prior[n - 1], cur[n - 1]);
      StableStep(SortedPairs(prior, cur, l, n - 1), PairsOf(prior, cur, l, n - 1), p, x);
      PairsGrow(prior, cur, l, n);
    } else {
      assert PairsOf(prior, cur, l, n) == [];
    }
  }

  // Only the segment's own entries count.
  lemma {:induction false} SortedPairsOfSame(prior: Code, a: Code, b: Code, l: int, n: int)
    requires 0 <= l <= n <= |a| == |b| <= |prior| && forall k :: l <= k < n ==> a[k] == b[k]
    ensures SortedPairs(prior, a, l, n) == SortedPairs(prior, b, l, n)
    decreases n
  {
    if l < n { SortedPairsOfSame(prior, a, b, l, n - 1); }
  }

  method SortPairs(prior: Code, cur: Code, l: int, r: int) returns (ps: seq<Pair>)
    requires 0 <= l <= r < |cur| <= |prior|
    ensures ps == SortedPairs(prior, cur, l, r + 1)
  {
    ps := [];
    for i := l to r + 1
      invariant ps == SortedPairs(prior, cur, l, i)
    {
      ps := InsertStable(ps, (prior[i], cur[i]));
    }
  }

  // Only the segment changes, and only its order.
  ghost predicate IsReordered(a: Code, b: Code, l: int, r: int) {
    && 0 <= l <= r < |a| && SameOutside(a, b, l, r + 1)
    && multiset(b[l..r + 1]) == multiset(a[l..r + 1])
  }

  method ReorderSegment(prior: Code, cur0: Code, l: int, r: int) returns (cur: Code)
    requires 0 <= l <= r < |cur0| <= |prior|
    ensures IsReordered(cur0, cur, l, r)
    ensures cur[l..r + 1] == Seconds(SortedPairs(prior, cur0, l, r + 1))
  {
    var ps := SortPairs(prior, cur0, l, r);
    SortedPairsSort(prior, cur0, l, r + 1);
    cur := cur0;
    for i := l to r + 1
      invariant SameOutside(cur0, cur, l, r + 1)
      invariant forall k {:trigger cur[k]} :: l <= k < i ==> cur[k] == ps[k - l].1
    {
      cur := cur[i := ps[i - l].1];
    }
    assert cur[l..r + 1] == Seconds(ps);
  }

  // Separators stay where they are and every AMR keeps its tasks.
  ghost predicate KeepsRoutes(code: Code, s: Code) {
    && |s| == |code|
    && (forall k {:trigger s[k]} {:trigger code[k]} :: 0 <= k < |s| ==> (s[k] == SEPARATOR <==> code[k] == SEPARATOR))
    && (forall l, r {:trigger IsSegment(code, l, r)} :: IsSegment(code, l, r) ==>
          multiset(s[l..r + 1]) == multiset(code[l..r + 1]))
  }

  lemma SegmentsAreApart(code: Code, l: int, r: int, l': int, r': int)
    requires IsSegment(code, l, r) && IsSegment(code, l', r')
    ensures (l == l' && r == r') || r < l' || r' < l
  {
  }

  lemma ReorderKeepsRoutes(code: Code, cur: Code, next: Code, l: int, r: int)
    requires KeepsRoutes(code, cur) && IsSegment(code, l, r) && IsReordered(cur, next, l, r)
    ensures KeepsRoutes(code, next)
  {
    forall k | 0 <= k < |next| ensures next[k] == SEPARATOR <==> code[k] == SEPARATOR {
      if l <= k <= r { NoSeparatorInside(code, cur, next, l, r, k); }
    }
    forall l', r' | IsSegment(code, l', r') ensures multiset(next[l'..r' + 1]) == multiset(code[l'..r' + 1]) {
      SegmentsAreApart(code, l, r, l', r');
      if l != l' { assert next[l'..r' + 1] == cur[l'..r' + 1]; }
    }
  }

  lemma NoSeparatorInside(code: Code, cur: Code, next: Code, l: int, r: int, k: int)
    requires KeepsRoutes(code, cur) && IsSegment(code, l, r) && IsReordered(cur, next, l, r) && l <= k <= r
    ensures next[k] != SEPARATOR
  {
    var a, b := cur[l..r + 1], next[l..r + 1];
    assert b[k - l] in multiset(b);
    assert b[k - l] in a;
    var i :| 0 <= i < |a| && a[i] == b[k - l];
    assert cur[l + i] == a[i] && code[l + i] != SEPARATOR;
  }

  lemma ReorderKeepsEntries(a: Code, b: Code, l: int, r: int)
    requires IsReordered(a, b, l, r)
    ensures SameEntries(a, b)
  {
    assert a == a[..l] + a[l..r + 1] + a[r + 1..];
    assert b == b[..l] + b[l..r + 1] + b[r + 1..];
    assert a[..l] == b[..l] && a[r + 1..] == b[r + 1..];
  }

  // How many of m segments are reordered: the ceiling of a share between 0.1 and 0.6 of them.
  method ShareOf(m: nat) returns (n: nat)
    requires m >= 1
    ensures 1 <= n <= m && (m + 9) / 10 <= n <= (6 * m + 9) / 10
  {
    n := Random((m + 9) / 10, (6 * m + 9) / 10);
  }

  // The run's entries, sorted by the earlier code's entries at the same places.
  ghost predicate IsSortedRun(prior: Code, code: Code, s: Code, run: Segment) {
    && 0 <= run.first <= run.last < |code| == |s| <= |prior|
    && s[run.first..run.last + 1] == Seconds(SortedPairs(prior, code, run.first, run.last + 1))
  }

  predicate Covers(run: Segment, k: int) { run.first <= k <= run.last }

  ghost predicate AllSortedRuns(prior: Code, code: Code, s: Code, chosen: seq<Segment>) {
    forall i {:trigger chosen[i]} :: 0 <= i < |chosen| ==> IsSortedRun(prior, code, s, chosen[i])
  }

  ghost predicate SameElsewhere(code: Code, s: Code, chosen: seq<Segment>) {
    |s| == |code| && forall k {:trigger s[k]} :: 0 <= k < |s| && Untouched(chosen, k) ==> s[k] == code[k]
  }

  // Exactly the chosen runs are sorted so.
  ghost predicate AreReordered(prior: Code, code: Code, s: Code, chosen: seq<Segment>) {
    AllSortedRuns(prior, code, s, chosen) && SameElsewhere(code, s, chosen)
  }

  predicate Untouched(chosen: seq<Segment>, k: int) {
    forall i {:trigger chosen[i]} :: 0 <= i < |chosen| ==> !Covers(chosen[i], k)
  }

  predicate AreApart(a: Segment, b: Segment) { a.last < b.first || b.last < a.first }

  ghost predicate AllApart(chosen: seq<Segment>, run: Segment) {
    forall i {:trigger chosen[i]} :: 0 <= i < |chosen| ==> AreApart(chosen[i], run)
  }

  lemma ReorderedNext(prior: Code, code: Code, s: Code, chosen: seq<Segment>, run: Segment, next: Code)
    requires |code| <= |prior| && AreReordered(prior, code, s, chosen) && 0 <= run.first <= run.last < |s|
    requires AllApart(chosen, run) && SameOutside(s, next, run.first, run.last + 1)
    requires next[run.first..run.last + 1] == Seconds(SortedPairs(prior, s, run.first, run.last + 1))
    ensures AreReordered(prior, code, next, chosen + [run])
  {
    RunIsSortedNow(prior, code, s, chosen, run, next);
    SortedRunsStay(prior, code, s, chosen, run, next);
    SameElsewhereNext(code, s, chosen, run, next);
  }

  lemma RunIsSortedNow(prior: Code, code: Code, s: Code, chosen: seq<Segment>, run: Segment, next: Code)
    requires |code| == |next| <= |prior| && SameElsewhere(code, s, chosen) && 0 <= run.first <= run.last < |s|
    requires AllApart(chosen, run)
    requires next[run.first..run.last + 1] == Seconds(SortedPairs(prior, s, run.first, run.last + 1))
    ensures IsSortedRun(prior, code, next, run)
  {
    forall k | run.first <= k < run.last + 1 ensures s[k] == code[k] {
      assert Untouched(chosen, k);
    }
    SortedPairsOfSame(prior, s, code, run.first, run.last + 1);
  }

  lemma SortedRunsStay(prior: Code, code: Code, s: Code, chosen: seq<Segment>, run: Segment, next: Code)
    requires AllSortedRuns(prior, code, s, chosen) && AllApart(chosen, run)
    requires 0 <= run.first <= run.last < |s| && SameOutside(s, next, run.first, run.last + 1)
    ensures AllSortedRuns(prior, code, next, chosen)
  {
    forall i {:trigger chosen[i]} | 0 <= i < |chosen| ensures IsSortedRun(prior, code, next, chosen[i]) {
      SortedRunStays(prior, code, s, next, chosen[i], run);
    }
  }

  lemma SameElsewhereNext(code: Code, s: Code, chosen: seq<Segment>, run: Segment, next: Code)
    requires SameElsewhere(code, s, chosen) && SameOutside(s, next, run.first, run.last + 1)
    ensures SameElsewhere(code, next, chosen + [run])
  {
    forall k {:trigger next[k]} | 0 <= k < |next| && Untouched(chosen + [run], k) ensures next[k] == code[k] {
      UntouchedBefore(chosen, run, k);
      assert s[k] == code[k];
    }
  }

  lemma SortedRunStays(prior: Code, code: Code, s: Code, next: Code, r: Segment, run: Segment)
    requires IsSortedRun(prior, code, s, r) && AreApart(r, run)
    requires 0 <= run.first <= run.last < |s| && SameOutside(s, next, run.first, run.last + 1)
    ensures IsSortedRun(prior, code, next, r)
  {
    SlicesSame(s, next, r.first, r.last + 1);
  }

  lemma UntouchedBefore(chosen: seq<Segment>, run: Segment, k: int)
    requires Untouched(chosen + [run], k)
    ensures Untouched(chosen, k) && !Covers(run, k)
  {
    var more := chosen + [run];
    assert more[|chosen|] == run;
    forall i | 0 <= i < |chosen| ensures !Covers(chosen[i], k) {
      assert more[i] == chosen[i];
    }
  }

  lemma SlicesSame(a: Code, b: Code, l: int, n: int)
    requires 0 <= l <= n <= |a| == |b| && forall k :: l <= k < n ==> a[k] == b[k]
    ensures a[l..n] == b[l..n]
  {
  }

  // The non-empty runs with the chosen indices.
  ghost function ChosenRuns(runs: seq<Segment>, choice: Code): (r: seq<Segment>)
    requires forall k {:trigger choice[k]} :: 0 <= k < |choice| ==> 0 <= choice[k] < |runs|
    ensures |r| == |choice| && forall k :: 0 <= k < |r| ==> r[k] == runs[choice[k]]
  {
    seq(|choice|, k requires 0 <= k < |choice| => runs[choice[k]])
  }

  method ShuffleRoutes(prior: Code, code: Code, runs: seq<Segment>, choice: Code) returns (cur: Code)
    requires |code| <= |prior| && AreInOrder(runs) && NoDuplicates(choice)
    requires forall i {:trigger runs[i]} :: 0 <= i < |runs| ==> IsRun(code, runs[i])
    requires forall k {:trigger choice[k]} :: 0 <= k < |choice| ==> 0 <= choice[k] < |runs|
    requires forall k {:trigger choice[k]} :: 0 <= k < |choice| ==> runs[choice[k]].first <= runs[choice[k]].last
    ensures KeepsRoutes(code, cur) && SameEntries(code, cur)
    ensures AreReordered(prior, code, cur, ChosenRuns(runs, choice))
  {
    cur := code;
    ghost var chosen: seq<Segment> := [];
    for k := 0 to |choice|
      invariant KeepsRoutes(code, cur) && SameEntries(code, cur)
      invariant AreReordered(prior, code, cur, chosen) && chosen == ChosenRuns(runs, choice)[..k]
    {
      var run := runs[choice[k]];
      if run.first <= run.last {
        var next := ReorderSegment(prior, cur, run.first, run.last);
        ReorderKeepsRoutes(code, cur, next, run.first, run.last);
        ReorderKeepsEntries(cur, next, run.first, run.last);
        ChosenAreApart(runs, choice, k);
        ReorderedNext(prior, code, cur, chosen, run, next);
        cur, chosen := next, chosen + [run];
      }
    }
    assert chosen == ChosenRuns(runs, choice);
  }

  lemma ChosenAreApart(runs: seq<Segment>, choice: Code, k: nat)
    requires AreInOrder(runs) && NoDuplicates(choice) && k < |choice|
    requires forall i {:trigger choice[i]} :: 0 <= i < |choice| ==> 0 <= choice[i] < |runs|
    ensures var chosen := ChosenRuns(runs, choice)[..k];
      && AllApart(chosen, runs[choice[k]])
      && ChosenRuns(runs, choice)[..k + 1] == chosen + [runs[choice[k]]]
  {
    forall i | 0 <= i < k ensures AreApart(runs[choice[i]], runs[choice[k]]) {
      assert choice[i] != choice[k];
    }
  }

  method NonEmptyRuns(runs: seq<Segment>) returns (indices: Code)
    ensures forall k {:trigger indices[k]} :: 0 <= k < |indices| ==>
      0 <= indices[k] < |runs| && runs[indices[k]].first <= runs[indices[k]].last
    ensures forall i :: i in indices <==> 0 <= i < |runs| && runs[i].first <= runs[i].last
    ensures StrictlyAscending(indices)
  {
    indices := [];
    for i := 0 to |runs|
      invariant forall k {:trigger indices[k]} :: 0 <= k < |indices| ==>
        0 <= indices[k] < i && runs[indices[k]].first <= runs[indices[k]].last
      invariant forall k :: k in indices <==> 0 <= k < i && runs[k].first <= runs[k].last
      invariant StrictlyAscending(indices)
    {
      if runs[i].first <= runs[i].last { indices := indices + [i]; }
    }
  }

  // A share of the non-empty runs, a tenth to six tenths of them rounded up, is reordered.
  ghost predicate IsShuffled(prior: Code, code: Code, s: Code, segments: nat) {
    exists chosen :: AreShareOf(code, chosen, segments) && AreReordered(prior, code, s, chosen)
  }

  ghost predicate AreShareOf(code: Code, chosen: seq<Segment>, segments: nat) {
    && (segments + 9) / 10 <= |chosen| <= (6 * segments + 9) / 10 && NoDuplicates(chosen)
    && forall i {:trigger chosen[i]} :: 0 <= i < |chosen| ==> IsSegment(code, chosen[i].first, chosen[i].last)
  }

  // The segments of a code, each once.
  ghost predicate AreSegments(code: Code, segments: seq<Segment>) {
    && NoDuplicates(segments) && forall l, r {:trigger IsSegment(code, l, r)} :: IsSegment(code, l, r) <==> Segment(l, r) in segments
  }

  // Every state keeps the separators and each AMR's tasks, and reorders some runs by the prior
  // code; without any task the code comes back.
  method OpShuffle(prior: Code, code: Code, se: nat) returns (states: seq<Code>, ghost segments: seq<Segment>)
    requires |code| <= |prior|
    ensures |states| == se && AllSameEntries(code, states) && AreSegments(code, segments)
    ensures forall i {:trigger states[i]} :: 0 <= i < se ==> KeepsRoutes(code, states[i])
    ensures forall i {:trigger states[i]} :: 0 <= i < se ==>
      if segments == [] then states[i] == code else IsShuffled(prior, code, states[i], |segments|)
  {
    states := seq(se, _ => code);
    var runs := FindRuns(code);
    var indices := NonEmptyRuns(runs);
    segments := ChosenRuns(runs, indices);
    NonEmptyRunsAreSegments(code, runs, indices);
    if indices == [] { return; }
    for i := 0 to se
      invariant |states| == se && forall k {:trigger states[k]} :: i <= k < se ==> states[k] == code
      invariant forall k {:trigger states[k]} :: 0 <= k < i ==> SameEntries(code, states[k]) && KeepsRoutes(code, states[k])
      invariant forall k {:trigger states[k]} :: 0 <= k < i ==> IsShuffled(prior, code, states[k], |segments|)
    {
      var s := ShuffleOnce(prior, code, runs, indices);
      states := states[i := s];
    }
  }

  lemma NonEmptyRunsAreSegments(code: Code, runs: seq<Segment>, indices: Code)
    requires AreInOrder(runs) && StrictlyAscending(indices)
    requires forall i {:trigger runs[i]} :: 0 <= i < |runs| ==> IsRun(code, runs[i])
    requires forall l, r {:trigger IsSegment(code, l, r)} :: IsSegment(code, l, r) ==> Segment(l, r) in runs
    requires forall k {:trigger indices[k]} :: 0 <= k < |indices| ==>
      0 <= indices[k] < |runs| && runs[indices[k]].first <= runs[indices[k]].last
    requires forall i :: i in indices <==> 0 <= i < |runs| && runs[i].first <= runs[i].last
    ensures AreSegments(code, ChosenRuns(runs, indices))
  {
    var chosen := ChosenRuns(runs, indices);
    forall l, r ensures IsSegment(code, l, r) <==> Segment(l, r) in chosen {
      if IsSegment(code, l, r) {
        var i :| 0 <= i < |runs| && runs[i] == Segment(l, r);
        var k :| 0 <= k < |indices| && indices[k] == i;
        assert chosen[k] == Segment(l, r);
      }
      if Segment(l, r) in chosen {
        var k :| 0 <= k < |chosen| && chosen[k] == Segment(l, r);
        assert IsRun(code, runs[indices[k]]);
      }
    }
    forall i, j | 0 <= i < j < |chosen| ensures chosen[i] != chosen[j] {
      assert runs[indices[i]].last < runs[indices[j]].first;
    }
  }

  method ShuffleOnce(prior: Code, code: Code, runs: seq<Segment>, indices: Code) returns (s: Code)
    requires |code| <= |prior| && AreInOrder(runs) && StrictlyAscending(indices) && indices != []
    requires forall i {:trigger runs[i]} :: 0 <= i < |runs| ==> IsRun(code, runs[i])
    requires forall k {:trigger indices[k]} :: 0 <= k < |indices| ==>
      0 <= indices[k] < |runs| && runs[indices[k]].first <= runs[indices[k]].last
    ensures SameEntries(code, s) && KeepsRoutes(code, s) && IsShuffled(prior, code, s, |indices|)
  {
    var share := ShareOf(|indices|);
    var choice := Shuffle(indices, 0, |indices|);
    ChoiceIsValid(indices, choice, runs);
    s := ShuffleRoutes(prior, code, runs, choice[..share]);
    ChoiceIsShare(code, runs, choice[..share], |indices|);
  }

  lemma ChoiceIsShare(code: Code, runs: seq<Segment>, choice: Code, segments: nat)
    requires AreInOrder(runs) && NoDuplicates(choice) && (segments + 9) / 10 <= |choice| <= (6 * segments + 9) / 10
    requires forall i {:trigger runs[i]} :: 0 <= i < |runs| ==> IsRun(code, runs[i])
    requires forall k {:trigger choice[k]} :: 0 <= k < |choice| ==>
      0 <= choice[k] < |runs| && runs[choice[k]].first <= runs[choice[k]].last
    ensures AreShareOf(code, ChosenRuns(runs, choice), segments)
  {
    var chosen := ChosenRuns(runs, choice);
    forall i, j | 0 <= i < j < |chosen| ensures chosen[i] != chosen[j] {
      assert choice[i] != choice[j];
      assert runs[choice[i]].last < runs[choice[j]].first || runs[choice[j]].last < runs[choice[i]].first;
    }
    forall i | 0 <= i < |chosen| ensures IsSegment(code, chosen[i].first, chosen[i].last) {
      assert IsRun(code, runs[choice[i]]);
    }
  }

  lemma ChoiceIsValid(indices: Code, choice: Code, runs: seq<Segment>)
    requires SameEntries(indices, choice) && StrictlyAscending(indices)
    requires forall k {:trigger indices[k]} :: 0 <= k < |indices| ==>
      0 <= indices[k] < |runs| && runs[indices[k]].first <= runs[indices[k]].last
    ensures NoDuplicates(choice)
    ensures forall k {:trigger choice[k]} :: 0 <= k < |choice| ==>
      0 <= choice[k] < |runs| && runs[choice[k]].first <= runs[choice[k]].last
  {
    forall k | 0 <= k < |choice| ensures 0 <= choice[k] < |runs| && runs[choice[k]].first <= runs[choice[k]].last {
      assert choice[k] in multiset(choice);
      assert choice[k] in indices;
      var i :| 0 <= i < |indices| && indices[i] == choice[k];
    }
    forall i, j | 0 <= i < j < |choice| ensures choice[i] != choice[j] {
      if choice[i] == choice[j] {
        CountedTwice(choice, i, j);
        CountedOnce(indices, choice[i]);
      }
    }
  }

  lemma {:induction false} CountedOnce(s: Code, x: int)
    requires StrictlyAscending(s)
    ensures multiset(s)[x] <= 1
  {
    if s != [] {
      var front, last := s[..|s| - 1], s[|s| - 1];
      assert s == front + [last];
      CountedOnce(front, x);
      if last == x {
        assert x !in front;
        assert multiset(front)[x] == 0;
      }
    }
  }

  lemma CountedTwice(s: Code, i: nat, j: nat)
    requires i < j < |s| && s[i] == s[j]
    ensures multiset(s)[s[i]] >= 2
  {
    assert s == s[..j] + s[j..];
    assert s[..j][i] == s[i] && s[j..][0] == s[i];
    assert s[i] in multiset(s[..j]) && s[i] in multiset(s[j..]);
  }

  // The first of the cheapest states.
  method SelectBest(states: seq<Code>, cost: Code -> Cost) returns (s: Code, f: Cost)
    requires states != []
    ensures f == cost(s) && exists i :: IsCheapest(states, cost, i) && s == states[i]
  {
    f := Infinite;
    var best := 0;
    for i := 0 to |states|
      invariant 0 <= best < |states|
      invariant f.Infinite? ==> best == 0 && forall j {:trigger states[j]} :: 0 <= j < i ==> cost(states[j]).Infinite?
      invariant f.Finite? ==> best < i && f == cost(states[best])
      invariant forall j {:trigger states[j]} :: 0 <= j < i ==> f.AtMost(cost(states[j]))
      invariant forall j {:trigger states[j]} :: 0 <= j < best ==> f.Less(cost(states[j]))
    {
      if cost(states[i]).Less(f) { f, best := cost(states[i]), i; }
    }
    assert IsCheapest(states, cost, best);
    s := states[best];
  }

  ghost predicate IsCheapest(states: seq<Code>, cost: Code -> Cost, i: int) {
    && 0 <= i < |states| && (forall j {:trigger states[j]} :: 0 <= j < |states| ==> cost(states[i]).AtMost(cost(states[j])))
    && (forall j {:trigger states[j]} :: 0 <= j < i ==> cost(states[i]).Less(cost(states[j])))
  }

  // A step of the search: the code is a rearrangement, its cost is known and has not grown.
  ghost predicate IsImprovement(cost: Code -> Cost, before: Code, fBefore: Cost, after: Code, fAfter: Cost) {
    SameEntries(before, after) && fAfter == cost(after) && fAfter.AtMost(fBefore)
  }

  // The choice between a code and tried ones: the first of the cheapest tried if it is cheaper,
  // else the code itself.
  ghost predicate Picks(cost: Code -> Cost, before: Code, fBefore: Cost, tried: seq<Code>, after: Code, fAfter: Cost) {
    && fAfter == cost(after) && fAfter.AtMost(fBefore)
    && (forall i {:trigger tried[i]} :: 0 <= i < |tried| ==> fAfter.AtMost(cost(tried[i])))
    && ((after == before && fAfter == fBefore)
        || (fAfter.Less(fBefore) && exists i :: IsCheapest(tried, cost, i) && after == tried[i]))
  }

  lemma SelectedIsPicked(cost: Code -> Cost, before: Code, fBefore: Cost, tried: seq<Code>, s: Code, f: Cost)
    requires fBefore == cost(before) && f == cost(s) && exists i :: IsCheapest(tried, cost, i) && s == tried[i]
    ensures Picks(cost, before, fBefore, tried, if f.Less(fBefore) then s else before, if f.Less(fBefore) then f else fBefore)
  {
  }

  // Two choices one after the other are one choice among all that were tried.
  lemma PicksTwice(cost: Code -> Cost, c0: Code, f0: Cost, tried: seq<Code>, c1: Code, f1: Cost,
                   tried': seq<Code>, c2: Code, f2: Cost)
    requires Picks(cost, c0, f0, tried, c1, f1) && Picks(cost, c1, f1, tried', c2, f2)
    ensures Picks(cost, c0, f0, tried + tried', c2, f2)
  {
    var all := tried + tried';
    forall i | 0 <= i < |all| ensures f2.AtMost(cost(all[i])) {
      if i < |tried| {
        assert all[i] == tried[i];
        assert f1.AtMost(cost(tried[i]));
      } else {
        assert all[i] == tried'[i - |tried|];
      }
    }
    if !(c2 == c0 && f2 == f0) {
      if f2.Less(f1) {
        var i :| IsCheapest(tried', cost, i) && c2 == tried'[i];
        LaterIsCheapest(cost, tried, tried', f1, i);
      } else {
        var i :| IsCheapest(tried, cost, i) && c1 == tried[i];
        EarlierIsCheapest(cost, tried, tried', i);
      }
    }
  }

  lemma LaterIsCheapest(cost: Code -> Cost, tried: seq<Code>, tried': seq<Code>, f1: Cost, i: int)
    requires IsCheapest(tried', cost, i) && cost(tried'[i]).Less(f1)
    requires forall j {:trigger tried[j]} :: 0 <= j < |tried| ==> f1.AtMost(cost(tried[j]))
    ensures IsCheapest(tried + tried', cost, |tried| + i) && (tried + tried')[|tried| + i] == tried'[i]
  {
    var all := tried + tried';
    forall j | 0 <= j < |all|
      ensures cost(all[|tried| + i]).AtMost(cost(all[j])) && (j < |tried| + i ==> cost(all[|tried| + i]).Less(cost(all[j])))
    {
      assert if j < |tried| then all[j] == tried[j] else all[j] == tried'[j - |tried|];
    }
  }

  lemma EarlierIsCheapest(cost: Code -> Cost, tried: seq<Code>, tried': seq<Code>, i: int)
    requires IsCheapest(tried, cost, i)
    requires forall j {:trigger tried'[j]} :: 0 <= j < |tried'| ==> cost(tried[i]).AtMost(cost(tried'[j]))
    ensures IsCheapest(tried + tried', cost, i) && (tried + tried')[i] == tried[i]
  {
    var all := tried + tried';
    forall j | 0 <= j < |all| ensures cost(all[i]).AtMost(cost(all[j])) && (j < i ==> cost(all[i]).Less(cost(all[j]))) {
      assert if j < |tried| then all[j] == tried[j] else all[j] == tried'[j - |tried|];
    }
  }

  lemma PickedIsImprovement(cost: Code -> Cost, before: Code, fBefore: Cost, tried: seq<Code>, after: Code, fAfter: Cost)
    requires Picks(cost, before, fBefore, tried, after, fAfter) && AllSameEntries(before, tried)
    ensures IsImprovement(cost, before, fBefore, after, fAfter)
  {
  }

  lemma AllSameEntriesJoin(code: Code, a: seq<Code>, b: seq<Code>)
    requires AllSameEntries(code, a) && AllSameEntries(code, b)
    ensures AllSameEntries(code, a + b)
  {
    forall i | 0 <= i < |a + b| ensures SameEntries(code, (a + b)[i]) {
      assert (a + b)[i] == if i < |a| then a[i] else b[i - |a|];
    }
  }

  const OMEGA := [25, 20, 15, 10, 5, 1]

  // The window size is one of those tried, and the choice was shuffled in such a window; it is 1
  // where nothing was cheaper.
  ghost predicate AlphaFits(best0: Code, f0: Cost, best: Code, f: Cost, alpha: int)
    requires |best0| >= 1
  {
    alpha in OMEGA && (if f.Less(f0) then IsWindowShuffle(best0, best, Clamp(alpha, |best0|)) else alpha == 1)
  }

  lemma AlphaNext(cost: Code -> Cost, best0: Code, f0: Cost, tried: seq<Code>, best: Code, f: Cost,
                  states: seq<Code>, s: Code, fs: Cost, alpha: int)
    requires |best0| >= 1 && Picks(cost, best0, f0, tried, best, f) && AllSameEntries(best0, tried)
    requires AllSameEntries(best0, states) && fs == cost(s) && exists i :: IsCheapest(states, cost, i) && s == states[i]
    requires forall i {:trigger states[i]} :: 0 <= i < |states| ==> IsWindowShuffle(best0, states[i], Clamp(alpha, |best0|))
    requires alpha in OMEGA
    ensures AllSameEntries(best0, tried + states)
    ensures Picks(cost, best0, f0, tried + states, if fs.Less(f) then s else best, if fs.Less(f) then fs else f)
    ensures fs.Less(f) ==> AlphaFits(best0, f0, s, fs, alpha)
  {
    SelectedIsPicked(cost, best, f, states, s, fs);
    PicksTwice(cost, best0, f0, tried, best, f, states, if fs.Less(f) then s else best, if fs.Less(f) then fs else f);
    AllSameEntriesJoin(best0, tried, states);
  }

  // Tries some codes of every window size; the size that gave the choice is kept for the sweeps.
  method UpdateAlpha(best0: Code, f0: Cost, se: nat, cost: Code -> Cost)
      returns (best: Code, f: Cost, alpha: int, ghost tried: seq<Code>)
    requires |best0| >= 1 && se >= 1 && f0 == cost(best0)
    ensures |tried| == |OMEGA| * se && AllSameEntries(best0, tried) && Picks(cost, best0, f0, tried, best, f)
    ensures AlphaFits(best0, f0, best, f, alpha)
  {
    best, f, alpha, tried := best0, f0, 1, [];
    for k := 0 to |OMEGA|
      invariant |tried| == k * se && AllSameEntries(best0, tried) && Picks(cost, best0, f0, tried, best, f)
      invariant AlphaFits(best0, f0, best, f, alpha)
    {
      var states := OpSwap(best0, se, OMEGA[k]);
      var s, fs := SelectBest(states, cost);
      AlphaNext(cost, best0, f0, tried, best, f, states, s, fs, OMEGA[k]);
      tried := tried + states;
      if fs.Less(f) { best, f, alpha := s, fs, OMEGA[k]; }
    }
  }

  method SwapOnce(best0: Code, f0: Cost, alpha: int, se: nat, cost: Code -> Cost)
      returns (best: Code, f: Cost, ghost tried: seq<Code>)
    requires |best0| >= 1 && se >= 1 && f0 == cost(best0)
    ensures |tried| == se && AllSameEntries(best0, tried) && Picks(cost, best0, f0, tried, best, f)
    ensures forall i {:trigger tried[i]} :: 0 <= i < se ==> IsWindowShuffle(best0, tried[i], Clamp(alpha, |best0|))
  {
    var states := OpSwap(best0, se, alpha);
    tried := states;
    best, f := SelectBest(states, cost);
    SelectedIsPicked(cost, best0, f0, states, best, f);
    if !f.Less(f0) { best, f := best0, f0; }
  }

  method ShiftOnce(best0: Code, f0: Cost, alpha: int, se: nat, cost: Code -> Cost)
      returns (best: Code, f: Cost, ghost tried: seq<Code>)
    requires |best0| >= 1 && se >= 1 && f0 == cost(best0)
    ensures |tried| == se && AllSameEntries(best0, tried) && Picks(cost, best0, f0, tried, best, f)
    ensures forall i {:trigger tried[i]} :: 0 <= i < se ==>
      tried[i] == best0 || IsBlockMove(best0, tried[i], Clamp(alpha, |best0|))
  {
    var states := OpShift(best0, se, alpha);
    tried := states;
    best, f := SelectBest(states, cost);
    SelectedIsPicked(cost, best0, f0, states, best, f);
    if !f.Less(f0) { best, f := best0, f0; }
  }

  // A reversal that improves is followed by a reordering of its routes.
  method SymOnce(best0: Code, f0: Cost, alpha: int, se: nat, banShuffle: bool, cost: Code -> Cost)
      returns (best: Code, f: Cost, ghost tried: seq<Code>, ghost reversed: Code)
    requires |best0| >= 1 && se >= 1 && f0 == cost(best0)
    ensures |tried| >= se && AllSameEntries(best0, tried) && Picks(cost, best0, f0, tried, best, f)
    ensures forall i {:trigger tried[i]} :: 0 <= i < se ==> IsWindowReversal(best0, tried[i], Clamp(alpha, |best0|))
    ensures Picks(cost, best0, f0, tried[..se], reversed, cost(reversed))
    ensures if banShuffle || !cost(reversed).Less(f0) then |tried| == se
            else |tried| == 2 * se && forall i {:trigger tried[i]} :: se <= i < 2 * se ==> KeepsRoutes(reversed, tried[i])
  {
    var states := OpSym(best0, se, alpha);
    best, f := SelectBest(states, cost);
    SelectedIsPicked(cost, best0, f0, states, best, f);
    tried := states;
    assert tried[..se] == states;
    if !f.Less(f0) {
      best, f := best0, f0;
      reversed := best0;
      return;
    }
    reversed := best;
    if !banShuffle {
      ghost var segments;
      var states2;
      states2, segments := OpShuffle(best0, best, se);
      var best2, f2 := SelectBest(states2, cost);
      SelectedIsPicked(cost, best, f, states2, best2, f2);
      ReorderedTried(cost, best0, f0, states, best, f, states2, if f2.Less(f) then best2 else best, if f2.Less(f) then f2 else f);
      tried := states + states2;
      if f2.Less(f) { best, f := best2, f2; }
    }
  }

  lemma ReorderedTried(cost: Code -> Cost, c0: Code, f0: Cost, states: seq<Code>, c1: Code, f1: Cost,
                       states2: seq<Code>, c2: Code, f2: Cost)
    requires Picks(cost, c0, f0, states, c1, f1) && AllSameEntries(c0, states)
    requires Picks(cost, c1, f1, states2, c2, f2) && AllSameEntries(c1, states2)
    ensures Picks(cost, c0, f0, states + states2, c2, f2) && AllSameEntries(c0, states + states2)
    ensures (states + states2)[..|states|] == states
    ensures forall i :: |states| <= i < |states| + |states2| ==> (states + states2)[i] == states2[i - |states|]
    ensures forall i :: 0 <= i < |states| ==> (states + states2)[i] == states[i]
  {
    PicksTwice(cost, c0, f0, states, c1, f1, states2, c2, f2);
    PickedIsImprovement(cost, c0, f0, states, c1, f1);
    forall i | 0 <= i < |states2| ensures SameEntries(c0, states2[i]) {
      assert SameEntries(c1, states2[i]);
    }
    AllSameEntriesJoin(c0, states, states2);
  }

  type History = seq<(Code, Cost)>

  // Every code of a run is a rearrangement of the first with its own cost, and costs never rise.
  ghost predicate IsHistory(cost: Code -> Cost, h: History, best: Code, f: Cost) {
    && h != [] && h[|h| - 1] == (best, f)
    && (forall i {:trigger h[i]} :: 0 <= i < |h| ==> SameEntries(h[0].0, h[i].0) && h[i].1 == cost(h[i].0))
    && (forall i, j {:trigger h[i], h[j]} :: 0 <= i <= j < |h| ==> h[j].1.AtMost(h[i].1))
  }

  lemma HistoryGrows(cost: Code -> Cost, h: History, best: Code, f: Cost, best': Code, f': Cost)
    requires IsHistory(cost, h, best, f) && IsImprovement(cost, best, f, best', f')
    ensures IsHistory(cost, h + [(best', f')], best', f')
  {
    var more := h + [(best', f')];
    assert h[|h| - 1] == (best, f);
    forall i | 0 <= i < |h| ensures f'.AtMost(h[i].1) {
      assert h[|h| - 1].1.AtMost(h[i].1);
    }
  }

  // Each step of a run chose among at least se tried rearrangements.
  ghost predicate IsLogged(cost: Code -> Cost, h: History, log: seq<seq<Code>>, se: nat) {
    && |h| == |log| + 1
    && forall i {:trigger log[i]} :: 0 <= i < |log| ==> IsLoggedStep(cost, h[i], log[i], h[i + 1], se)
  }

  ghost predicate IsLoggedStep(cost: Code -> Cost, before: (Code, Cost), tried: seq<Code>, after: (Code, Cost), se: nat) {
    |tried| >= se && AllSameEntries(before.0, tried) && Picks(cost, before.0, before.1, tried, after.0, after.1)
  }

  lemma LogGrows(cost: Code -> Cost, h: History, log: seq<seq<Code>>, se: nat, tried: seq<Code>, after: (Code, Cost))
    requires IsLogged(cost, h, log, se) && IsLoggedStep(cost, h[|h| - 1], tried, after, se)
    ensures IsLogged(cost, h + [after], log + [tried], se)
  {
    var h', log' := h + [after], log + [tried];
    forall i | 0 <= i < |log'| ensures IsLoggedStep(cost, h'[i], log'[i], h'[i + 1], se) {
      if i < |log| {
        assert IsLoggedStep(cost, h[i], log[i], h[i + 1], se);
        assert h'[i] == h[i] && h'[i + 1] == h[i + 1];
      }
    }
  }

  // The run so far.
  ghost predicate IsRunning(cost: Code -> Cost, h: History, log: seq<seq<Code>>, se: nat, best: Code, f: Cost) {
    IsHistory(cost, h, best, f) && IsLogged(cost, h, log, se)
  }

  lemma RunningGrows(cost: Code -> Cost, h: History, log: seq<seq<Code>>, se: nat, best: Code, f: Cost,
                     tried: seq<Code>, best': Code, f': Cost)
    requires IsRunning(cost, h, log, se, best, f)
    requires |tried| >= se && AllSameEntries(best, tried) && Picks(cost, best, f, tried, best', f')
    ensures IsRunning(cost, h + [(best', f')], log + [tried], se, best', f') && |best'| == |best|
  {
    PickedIsImprovement(cost, best, f, tried, best', f');
    HistoryGrows(cost, h, best, f, best', f');
    LogGrows(cost, h, log, se, tried, (best', f'));
  }

  datatype Operator = Swap | Shift | Sym

  // One operator: choose a window size, then sweep.
  method Phase(op: Operator, best0: Code, f0: Cost, se: nat, sweeps: nat, banShuffle: bool, cost: Code -> Cost,
               ghost h0: History, ghost log0: seq<seq<Code>>)
      returns (best: Code, f: Cost, ghost h: History, ghost log: seq<seq<Code>>)
    requires |best0| >= 1 && se >= 1 && IsRunning(cost, h0, log0, se, best0, f0)
    ensures IsRunning(cost, h, log, se, best, f) && |best| == |best0| && h0 <= h && |h| == |h0| + 1 + sweeps
  {
    var alpha;
    ghost var tried;
    assert h0[|h0| - 1].1 == cost(h0[|h0| - 1].0);
    best, f, alpha, tried := UpdateAlpha(best0, f0, se, cost);
    RunningGrows(cost, h0, log0, se, best0, f0, tried, best, f);
    h, log := h0 + [(best, f)], log0 + [tried];
    for k := 0 to sweeps
      invariant IsRunning(cost, h, log, se, best, f) && |best| == |best0| && h0 <= h && |h| == |h0| + 1 + k
    {
      var b, fb;
      assert h[|h| - 1].1 == cost(h[|h| - 1].0);
      b, fb, tried := Sweep(op, best, f, alpha, se, banShuffle, cost);
      RunningGrows(cost, h, log, se, best, f, tried, b, fb);
      best, f, h, log := b, fb, h + [(b, fb)], log + [tried];
    }
  }

  method Sweep(op: Operator, best0: Code, f0: Cost, alpha: int, se: nat, banShuffle: bool, cost: Code -> Cost)
      returns (best: Code, f: Cost, ghost tried: seq<Code>)
    requires |best0| >= 1 && se >= 1 && f0 == cost(best0)
    ensures |tried| >= se && AllSameEntries(best0, tried) && Picks(cost, best0, f0, tried, best, f)
  {
    match op
    case Swap => best, f, tried := SwapOnce(best0, f0, alpha, se, cost);
    case Shift => best, f, tried := ShiftOnce(best0, f0, alpha, se, cost);
    case Sym =>
      ghost var reversed;
      best, f, tried, reversed := SymOnce(best0, f0, alpha, se, banShuffle, cost);
  }

  // One round: all three operators in turn.
  method Round(best0: Code, f0: Cost, se: nat, sweeps: nat, banShuffle: bool, cost: Code -> Cost,
               ghost h0: History, ghost log0: seq<seq<Code>>)
      returns (best: Code, f: Cost, ghost h: History, ghost log: seq<seq<Code>>)
    requires |best0| >= 1 && se >= 1 && IsRunning(cost, h0, log0, se, best0, f0)
    ensures IsRunning(cost, h, log, se, best, f) && |best| == |best0| && h0 <= h && |h| == |h0| + 3 * (1 + sweeps)
  {
    best, f, h, log := Phase(Swap, best0, f0, se, sweeps, banShuffle, cost, h0, log0);
    best, f, h, log := Phase(Shift, best, f, se, sweeps, banShuffle, cost, h, log);
    best, f, h, log := Phase(Sym, best, f, se, sweeps, banShuffle, cost, h, log);
  }

  const MAX_ITER := 1000
  const MAX_NO_IMPROVE := 50

  // Nothing has become cheaper over the last fifty rounds; costs[r] is the cost after r rounds.
  ghost predicate IsStalled(costs: seq<Cost>) {
    |costs| > MAX_NO_IMPROVE && NoneCheaper(costs, MAX_NO_IMPROVE)
  }

  // None of the last n rounds was cheaper than the round before it; before the first round
  // there is nothing to compare with.
  ghost predicate NoneCheaper(costs: seq<Cost>, n: int) {
    && 0 <= n < |costs|
    && forall r {:trigger costs[r]} :: |costs| - n <= r < |costs| ==>
      if r == 1 then costs[1].Infinite? else !costs[r].Less(costs[r - 1])
  }

  lemma CheaperNext(costs: seq<Cost>, n: int, f: Cost)
    requires NoneCheaper(costs, n) && !f.Less(if |costs| == 1 then Infinite else costs[|costs| - 1])
    ensures NoneCheaper(costs + [f], n + 1)
  {
    var more := costs + [f];
    forall r | |more| - (n + 1) <= r < |more| ensures if r == 1 then more[1].Infinite? else !more[r].Less(more[r - 1]) {
      if r < |costs| { assert more[r] == costs[r]; }
    }
  }

  // The main loop; it may also run out of time before any round. The result is a
  // rearrangement of the initial code with its own cost, no dearer than anything before; each
  // round sweeps with all three operators, and rounds end only at the limit, when nothing has
  // improved for long, or for lack of time.
  method Search(best0: Code, se: nat, sweeps: nat, banShuffle: bool, cost: Code -> Cost)
      returns (best: Code, fBest: Cost, ghost h: History, ghost log: seq<seq<Code>>, ghost costs: seq<Cost>, ghost timedOut: bool)
    requires |best0| >= 1 && se >= 1
    ensures IsRunning(cost, h, log, se, best, fBest) && h[0] == (best0, cost(best0))
    ensures SameEntries(best0, best) && fBest == cost(best) && fBest.AtMost(cost(best0))
    ensures |costs| >= 1 && |h| == HistoryLength(sweeps, |costs| - 1)
    ensures timedOut || |costs| == MAX_ITER + 1 || IsStalled(costs)
  {
    best, fBest := best0, cost(best0);
    h, log, costs, timedOut := [(best, fBest)], [], [fBest], false;
    var noImprove, last := 0, Infinite;
    var iter := 0;
    while iter < MAX_ITER
      invariant 0 <= iter <= MAX_ITER && |costs| == iter + 1 && |h| == HistoryLength(sweeps, iter) && !timedOut
      invariant IsRunning(cost, h, log, se, best, fBest) && |best| == |best0| && h[0] == (best0, cost(best0))
      invariant last == if iter == 0 then Infinite else costs[iter]
      invariant 0 <= noImprove < MAX_NO_IMPROVE && NoneCheaper(costs, noImprove)
    {
      var inTime := Random(0, 1);
      if inTime == 0 {
        timedOut := true;
        break;
      }
      best, fBest, h, log := Round(best, fBest, se, sweeps, banShuffle, cost, h, log);
      ghost var before := costs;
      costs := costs + [fBest];
      if fBest.Less(last) {
        noImprove := 0;
      } else {
        CheaperNext(before, noImprove, fBest);
        noImprove := noImprove + 1;
        if noImprove >= MAX_NO_IMPROVE { break; }
      }
      last := fBest;
      iter := iter + 1;
    }
    assert h[|h| - 1] == (best, fBest);
    assert h[|h| - 1].1.AtMost(h[0].1);
  }

  // The initial entry and, per round, the choice of a window size and the sweeps of each operator.
  ghost function HistoryLength(sweeps: nat, rounds: nat): nat {
    if rounds == 0 then 1 else HistoryLength(sweeps, rounds - 1) + 3 * (1 + sweeps)
  }

  // Every task once, and one separator less than AMRs.
  ghost predicate IsInitialCode(code: Code, taskNum: nat, separators: nat) {
    && |code| == taskNum + separators && multiset(code)[SEPARATOR] == separators
    && forall t :: 0 <= t < taskNum ==> multiset(code)[t] == 1
  }

  lemma InitialCodeGrows(code: Code, taskNum: nat, separators: nat, pos: nat)
    requires IsInitialCode(code, taskNum, separators) && pos <= |code|
    ensures IsInitialCode(InsertAt(code, pos, SEPARATOR), taskNum, separators + 1)
  {
    forall t | 0 <= t < taskNum ensures multiset(InsertAt(code, pos, SEPARATOR))[t] == 1 {
      assert (multiset(code) + multiset{SEPARATOR})[t] == multiset(code)[t];
    }
  }

  method InitializationTa(taskNum: nat, amrNum: int) returns (code: Code)
    ensures IsInitialCode(code, taskNum, if amrNum > 1 then amrNum - 1 else 0)
  {
    var tasks: Code := [];
    for i := 0 to taskNum
      invariant |tasks| == i && multiset(tasks)[SEPARATOR] == 0
      invariant forall t :: 0 <= t ==> multiset(tasks)[t] == if t < i then 1 else 0
    {
      tasks := tasks + [i];
    }
    code := Shuffle(tasks, 0, taskNum);
    var separators := if amrNum > 1 then amrNum - 1 else 0;
    for i := 0 to separators
      invariant IsInitialCode(code, taskNum, i)
    {
      var pos := Random(0, |code|);
      InitialCodeGrows(code, taskNum, i, pos);
      code := InsertAt(code, pos, SEPARATOR);
    }
  }
}
