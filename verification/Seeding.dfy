// Farthest-point seeding over candidate nodes: the first seed has the least score, each
// further one the greatest gap to the seeds so far; the earliest candidate wins ties.
module Seeding {
  import opened Util

  type Spot = (real, real)

  // `gaps` stands for the squared distance of two candidates' spots.
  datatype Field = Field(spots: int -> Spot, gaps: (int, int) -> real, scores: int -> real)
  {
    function At(i: int): Spot { spots(i) }
    function Gap(i: int, j: int): real { gaps(i, j) }
    function Score(i: int): real { scores(i) }

    ghost predicate Valid() {
      && (forall i, j :: Gap(i, j) >= 0.0 && (Gap(i, j) == 0.0 <==> At(i) == At(j)))
      && (forall i, j, s {:trigger Gap(i, s), Gap(j, s)} :: At(i) == At(j) ==> Gap(i, s) == Gap(j, s))
      && (forall i, j {:trigger Score(i), Score(j)} :: At(i) == At(j) ==> Score(i) == Score(j))
    }
  }

  // The gap to the nearest seed.
  function MinGap(f: Field, seeds: seq<int>, i: int): real
    requires seeds != []
  {
    var n := |seeds| - 1;
    if n == 0 then f.Gap(i, seeds[0]) else Min(MinGap(f, seeds[..n], i), f.Gap(i, seeds[n]))
  }

  lemma {:induction false} MinGapMeans(f: Field, seeds: seq<int>, i: int)
    requires seeds != []
    ensures forall k :: 0 <= k < |seeds| ==> MinGap(f, seeds, i) <= f.Gap(i, seeds[k])
    ensures exists k :: 0 <= k < |seeds| && MinGap(f, seeds, i) == f.Gap(i, seeds[k])
  {
    var n := |seeds| - 1;
    if n > 0 {
      MinGapMeans(f, seeds[..n], i);
      var k :| 0 <= k < n && MinGap(f, seeds[..n], i) == f.Gap(i, seeds[..n][k]);
      assert seeds[..n][k] == seeds[k];
      forall j | 0 <= j < n ensures MinGap(f, seeds, i) <= f.Gap(i, seeds[j]) {
        assert seeds[..n][j] == seeds[j];
      }
      var least := if MinGap(f, seeds[..n], i) <= f.Gap(i, seeds[n]) then k else n;
      assert MinGap(f, seeds, i) == f.Gap(i, seeds[least]);
    } else {
      assert MinGap(f, seeds, i) == f.Gap(i, seeds[0]);
    }
  }

  lemma {:induction false} MinGapIsZero(f: Field, seeds: seq<int>, i: int)
    requires f.Valid() && seeds != []
    ensures MinGap(f, seeds, i) >= 0.0
    ensures MinGap(f, seeds, i) == 0.0 <==> f.At(i) in SpotsOf(f, seeds)
  {
    var n := |seeds| - 1;
    SpotsOfSplit(f, seeds);
    if n == 0 {
      assert seeds[..n] == [];
    } else {
      MinGapIsZero(f, seeds[..n], i);
    }
  }

  lemma {:induction false} MinGapOfSpot(f: Field, seeds: seq<int>, i: int, j: int)
    requires f.Valid() && seeds != [] && f.At(i) == f.At(j)
    ensures MinGap(f, seeds, i) == MinGap(f, seeds, j)
  {
    assert f.Gap(i, seeds[|seeds| - 1]) == f.Gap(j, seeds[|seeds| - 1]);
    if |seeds| > 1 { MinGapOfSpot(f, seeds[..|seeds| - 1], i, j); }
  }

  ghost function SpotsOf(f: Field, s: seq<int>): set<Spot> {
    set i | i in s :: f.At(i)
  }

  lemma SpotsOfSplit(f: Field, s: seq<int>)
    requires s != []
    ensures SpotsOf(f, s) == SpotsOf(f, s[..|s| - 1]) + {f.At(s[|s| - 1])}
  {
    assert s == s[..|s| - 1] + [s[|s| - 1]];
    assert forall p :: p in SpotsOf(f, s) <==> p in SpotsOf(f, s[..|s| - 1]) + {f.At(s[|s| - 1])};
  }

  ghost predicate SpotsDiffer(f: Field, s: seq<int>) {
    forall i, j :: 0 <= i < j < |s| ==> f.At(s[i]) != f.At(s[j])
  }

  lemma SpotsDifferSplit(f: Field, s: seq<int>)
    requires s != []
    ensures SpotsDiffer(f, s) <==> SpotsDiffer(f, s[..|s| - 1]) && f.At(s[|s| - 1]) !in SpotsOf(f, s[..|s| - 1])
  {
    var front, last := s[..|s| - 1], s[|s| - 1];
    if SpotsDiffer(f, s) {
      forall k | 0 <= k < |front| ensures f.At(front[k]) != f.At(last) {
        assert front[k] == s[k];
      }
    }
    if SpotsDiffer(f, front) && f.At(last) !in SpotsOf(f, front) {
      forall i, j | 0 <= i < j < |s| ensures f.At(s[i]) != f.At(s[j]) {
        assert s[i] == front[i] && front[i] in front;
        assert j < |front| ==> s[j] == front[j];
      }
    }
  }

  // As many spots as entries means that no two entries share one.
  lemma {:induction false} CountSpots(f: Field, s: seq<int>)
    ensures |SpotsOf(f, s)| <= |s|
    ensures |SpotsOf(f, s)| == |s| <==> SpotsDiffer(f, s)
  {
    if s != [] {
      var front, last := s[..|s| - 1], s[|s| - 1];
      CountSpots(f, front);
      SpotsOfSplit(f, s);
      SpotsDifferSplit(f, s);
      AddOne(SpotsOf(f, front), f.At(last));
    }
  }

  lemma AddOne<T>(a: set<T>, x: T)
    ensures |a + {x}| == |a| + (if x in a then 0 else 1)
  {
    if x in a { assert a + {x} == a; }
  }

  // The winner at position k has the least rank; the earliest such.
  ghost predicate IsFirst(f: Field, candidates: seq<int>, k: int) {
    && 0 <= k < |candidates|
    && (forall j {:trigger candidates[j]} :: 0 <= j < |candidates| ==> f.Score(candidates[k]) <= f.Score(candidates[j]))
    && (forall j {:trigger candidates[j]} :: 0 <= j < k ==> f.Score(candidates[k]) < f.Score(candidates[j]))
  }

  ghost predicate IsFarthest(f: Field, candidates: seq<int>, seeds: seq<int>, k: int)
    requires seeds != []
  {
    && 0 <= k < |candidates|
    && (forall j {:trigger candidates[j]} :: 0 <= j < |candidates| ==>
          MinGap(f, seeds, candidates[j]) <= MinGap(f, seeds, candidates[k]))
    && (forall j {:trigger candidates[j]} :: 0 <= j < k ==> MinGap(f, seeds, candidates[j]) < MinGap(f, seeds, candidates[k]))
  }

  ghost predicate IsSeeding(f: Field, candidates: seq<int>, seeds: seq<int>) {
    seeds != [] && (exists k :: IsFirst(f, candidates, k) && seeds[0] == candidates[k])
    && forall n {:trigger seeds[n]} :: 1 <= n < |seeds| ==> FollowsSeeds(f, candidates, seeds[..n], seeds[n])
  }

  ghost predicate FollowsSeeds(f: Field, candidates: seq<int>, seeds: seq<int>, next: int) {
    seeds != [] && exists k :: IsFarthest(f, candidates, seeds, k) && next == candidates[k]
  }

  // No earlier candidate lies on the same spot.
  predicate IsEarliest(f: Field, candidates: seq<int>, seed: int) {
    exists k :: 0 <= k < |candidates| && candidates[k] == seed
      && forall j {:trigger candidates[j]} :: 0 <= j < k ==> f.At(candidates[j]) != f.At(seed)
  }

  lemma SeedIsEarliest(f: Field, candidates: seq<int>, seeds: seq<int>, n: nat)
    requires f.Valid() && IsSeeding(f, candidates, seeds) && n < |seeds|
    ensures IsEarliest(f, candidates, seeds[n])
  {
    if n == 0 {
      var k :| IsFirst(f, candidates, k) && seeds[0] == candidates[k];
      forall j | 0 <= j < k ensures f.At(candidates[j]) != f.At(candidates[k]) {
        assert f.Score(candidates[k]) < f.Score(candidates[j]);
      }
    } else {
      assert FollowsSeeds(f, candidates, seeds[..n], seeds[n]);
      var k :| IsFarthest(f, candidates, seeds[..n], k) && seeds[n] == candidates[k];
      forall j | 0 <= j < k ensures f.At(candidates[j]) != f.At(candidates[k]) {
        if f.At(candidates[j]) == f.At(candidates[k]) { MinGapOfSpot(f, seeds[..n], candidates[j], candidates[k]); }
      }
    }
  }

  lemma SubsetCount<T>(a: set<T>, b: set<T>)
    requires a <= b
    ensures |a| <= |b| && (|a| < |b| ==> exists x :: x in b && x !in a)
  {
    assert b == a + (b - a);
    if |a| < |b| {
      assert |b - a| > 0;
      var x :| x in b - a;
    }
  }

  lemma SeedSpotsAmongCandidates(f: Field, candidates: seq<int>, seeds: seq<int>, n: nat)
    requires f.Valid() && IsSeeding(f, candidates, seeds) && n <= |seeds|
    ensures SpotsOf(f, seeds[..n]) <= SpotsOf(f, candidates)
  {
    forall p | p in SpotsOf(f, seeds[..n]) ensures p in SpotsOf(f, candidates) {
      var k :| 0 <= k < n && p == f.At(seeds[k]);
      SeedIsEarliest(f, candidates, seeds, k);
      var c :| 0 <= c < |candidates| && candidates[c] == seeds[k];
      assert candidates[c] in candidates;
    }
  }

  // While there are spots left, the next seed takes a new one.
  lemma NextSeedIsNew(f: Field, candidates: seq<int>, seeds: seq<int>, n: nat)
    requires f.Valid() && IsSeeding(f, candidates, seeds) && 1 <= n < |seeds|
    requires |SpotsOf(f, seeds[..n])| < |SpotsOf(f, candidates)|
    ensures f.At(seeds[n]) !in SpotsOf(f, seeds[..n])
  {
    var before := seeds[..n];
    SeedSpotsAmongCandidates(f, candidates, seeds, n);
    SubsetCount(SpotsOf(f, before), SpotsOf(f, candidates));
    var p :| p in SpotsOf(f, candidates) && p !in SpotsOf(f, before);
    var j :| 0 <= j < |candidates| && p == f.At(candidates[j]);
    assert FollowsSeeds(f, candidates, before, seeds[n]);
    var k :| IsFarthest(f, candidates, before, k) && seeds[n] == candidates[k];
    MinGapIsZero(f, before, candidates[j]);
    MinGapIsZero(f, before, candidates[k]);
    assert MinGap(f, before, candidates[j]) <= MinGap(f, before, candidates[k]);
  }

  lemma {:induction false} SeedsTakeNewSpots(f: Field, candidates: seq<int>, seeds: seq<int>, n: nat)
    requires f.Valid() && IsSeeding(f, candidates, seeds) && 1 <= n <= |seeds| <= |SpotsOf(f, candidates)|
    ensures SpotsDiffer(f, seeds[..n])
  {
    if n == 1 {
      assert |seeds[..1]| == 1;
    } else {
      var m := n - 1;
      SeedsTakeNewSpots(f, candidates, seeds, m);
      CountSpots(f, seeds[..m]);
      NextSeedIsNew(f, candidates, seeds, m);
      forall i, j | 0 <= i < j < n ensures f.At(seeds[..n][i]) != f.At(seeds[..n][j]) {
        if j == m {
          assert seeds[..m][i] in seeds[..m];
        } else {
          assert f.At(seeds[..m][i]) != f.At(seeds[..m][j]);
        }
      }
    }
  }

  // The seeds are distinct exactly when the candidates have as many different spots as seeds
  // are wanted: then every seed takes a new spot, otherwise an earlier seed comes again.
  lemma SeedsAreDistinct(f: Field, candidates: seq<int>, seeds: seq<int>)
    requires f.Valid() && IsSeeding(f, candidates, seeds)
    ensures NoDuplicates(seeds) <==> |seeds| <= |SpotsOf(f, candidates)|
  {
    assert seeds[..|seeds|] == seeds;
    if |seeds| <= |SpotsOf(f, candidates)| {
      SeedsTakeNewSpots(f, candidates, seeds, |seeds|);
      forall i, j | 0 <= i < j < |seeds| ensures seeds[i] != seeds[j] {
        assert f.At(seeds[i]) != f.At(seeds[j]);
      }
    } else {
      SeedSpotsAmongCandidates(f, candidates, seeds, |seeds|);
      SubsetCount(SpotsOf(f, seeds), SpotsOf(f, candidates));
      CountSpots(f, seeds);
      var i, j :| 0 <= i < j < |seeds| && f.At(seeds[i]) == f.At(seeds[j]);
      SeedIsEarliest(f, candidates, seeds, i);
      SeedIsEarliest(f, candidates, seeds, j);
      OneEarliestPerSpot(f, candidates, seeds[i], seeds[j]);
      assert seeds[i] == seeds[j];
    }
  }

  // Candidates that all lie at one spot give the same seed again and again.
  lemma OneSpotRepeatsSeeds(f: Field, candidates: seq<int>, seeds: seq<int>)
    requires f.Valid() && IsSeeding(f, candidates, seeds) && |seeds| >= 2
    requires forall i, j :: i in candidates && j in candidates ==> f.At(i) == f.At(j)
    ensures !NoDuplicates(seeds)
  {
    SeedsAreDistinct(f, candidates, seeds);
    OneSpotIsOne(f, candidates);
  }

  lemma {:induction false} OneSpotIsOne(f: Field, s: seq<int>)
    requires forall i, j :: i in s && j in s ==> f.At(i) == f.At(j)
    ensures |SpotsOf(f, s)| <= 1
  {
    if s != [] {
      var front, last := s[..|s| - 1], s[|s| - 1];
      OneSpotIsOne(f, front);
      SpotsOfSplit(f, s);
      AddOne(SpotsOf(f, front), f.At(last));
      if front != [] { assert f.At(front[0]) in SpotsOf(f, front) && f.At(front[0]) == f.At(last); }
    }
  }

  lemma OneEarliestPerSpot(f: Field, candidates: seq<int>, a: int, b: int)
    requires IsEarliest(f, candidates, a) && IsEarliest(f, candidates, b) && f.At(a) == f.At(b)
    ensures a == b
  {
    var k :| 0 <= k < |candidates| && candidates[k] == a
      && forall j {:trigger candidates[j]} :: 0 <= j < k ==> f.At(candidates[j]) != f.At(a);
    var l :| 0 <= l < |candidates| && candidates[l] == b
      && forall j {:trigger candidates[j]} :: 0 <= j < l ==> f.At(candidates[j]) != f.At(b);
    assert k >= l;
    assert l >= k;
  }

  method FirstSeed(f: Field, candidates: seq<int>) returns (seed: int)
    requires candidates != []
    ensures exists k :: IsFirst(f, candidates, k) && seed == candidates[k]
  {
    var best := 0;
    for i := 0 to |candidates|
      invariant 0 <= best < |candidates| && best <= i
      invariant forall j {:trigger candidates[j]} :: 0 <= j < i ==> f.Score(candidates[best]) <= f.Score(candidates[j])
      invariant forall j {:trigger candidates[j]} :: 0 <= j < best ==> f.Score(candidates[best]) < f.Score(candidates[j])
    {
      if f.Score(candidates[i]) < f.Score(candidates[best]) { best := i; }
    }
    assert IsFirst(f, candidates, best);
    seed := candidates[best];
  }

  method NearestGap(f: Field, seeds: seq<int>, i: int) returns (d: real)
    requires seeds != []
    ensures d == MinGap(f, seeds, i)
  {
    d := f.Gap(i, seeds[0]);
    for k := 1 to |seeds|
      invariant d == MinGap(f, seeds[..k], i)
    {
      assert seeds[..k + 1][..k] == seeds[..k];
      if f.Gap(i, seeds[k]) < d { d := f.Gap(i, seeds[k]); }
    }
    assert seeds[..|seeds|] == seeds;
  }

  method FarthestSeed(f: Field, candidates: seq<int>, seeds: seq<int>) returns (seed: int)
    requires f.Valid() && candidates != [] && seeds != []
    ensures FollowsSeeds(f, candidates, seeds, seed)
  {
    var best, bestGap := -1, -1.0;
    for i := 0 to |candidates|
      invariant i == 0 ==> best == -1 && bestGap == -1.0
      invariant i > 0 ==> 0 <= best < i && bestGap == MinGap(f, seeds, candidates[best])
      invariant forall j {:trigger candidates[j]} :: 0 <= j < i ==> MinGap(f, seeds, candidates[j]) <= bestGap
      invariant forall j {:trigger candidates[j]} :: 0 <= j < best ==> MinGap(f, seeds, candidates[j]) < bestGap
    {
      var d := NearestGap(f, seeds, candidates[i]);
      MinGapIsZero(f, seeds, candidates[i]);
      if d > bestGap { best, bestGap := i, d; }
    }
    assert IsFarthest(f, candidates, seeds, best);
    seed := candidates[best];
  }

  method PickSeeds(f: Field, candidates: seq<int>, wanted: nat) returns (seeds: seq<int>)
    requires f.Valid() && candidates != [] && wanted >= 1
    ensures IsSeeding(f, candidates, seeds) && |seeds| == wanted
  {
    var first := FirstSeed(f, candidates);
    seeds := [first];
    while |seeds| < wanted
      invariant IsSeeding(f, candidates, seeds) && |seeds| <= wanted
    {
      var next := FarthestSeed(f, candidates, seeds);
      SeedingGrows(f, candidates, seeds, next);
      seeds := seeds + [next];
    }
  }

  lemma SeedingGrows(f: Field, candidates: seq<int>, seeds: seq<int>, next: int)
    requires IsSeeding(f, candidates, seeds) && FollowsSeeds(f, candidates, seeds, next)
    ensures IsSeeding(f, candidates, seeds + [next])
  {
    var more := seeds + [next];
    forall n | 1 <= n < |more| ensures FollowsSeeds(f, candidates, more[..n], more[n]) {
      if n < |seeds| {
        assert more[..n] == seeds[..n] && FollowsSeeds(f, candidates, seeds[..n], seeds[n]);
      } else {
        assert more[..n] == seeds;
      }
    }
  }
}
