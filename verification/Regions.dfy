// `buildGraphRegions`: bridge groups first, then farthest-point seeds, breadth-first growth and
// nearest seeds for what growth does not reach.
module Regions {
  import opened Util
  import opened RegionGraph
  import opened Spreading
  import opened Seeding
  import Bridges = BridgeGroups
  import opened BridgeMeaning
  import opened Connectivity

  function Times(x: real, y: real): (r: real)
    ensures (x > 0.0 && y > 0.0) || (x < 0.0 && y < 0.0) ==> r > 0.0
    ensures x == 0.0 || y == 0.0 ==> r == 0.0
  {
    if x < 0.0 && y < 0.0 then
      ProductPositive(-x, -y);
      x * y
    else x * y
  }

  function SquareDistance(a: Spot, b: Spot): (r: real)
    ensures r >= 0.0 && (r == 0.0 <==> a == b)
  {
    Times(a.0 - b.0, a.0 - b.0) + Times(a.1 - b.1, a.1 - b.1)
  }

  function SpotOf(g: Graph, i: int): Spot {
    if g.InRange(i) then (g.nodes[i].x, g.nodes[i].y) else (0.0, 0.0)
  }

  function FieldOf(g: Graph): Field {
    Field(i => SpotOf(g, i), (i, j) => SquareDistance(SpotOf(g, i), SpotOf(g, j)), i => SpotOf(g, i).0 + SpotOf(g, i).1)
  }

  lemma FieldIsValid(g: Graph)
    ensures FieldOf(g).Valid()
  {
    var f := FieldOf(g);
    assert forall i, j :: f.Gap(i, j) == SquareDistance(SpotOf(g, i), SpotOf(g, j));
  }

  type Lists = seq<seq<int>>

  // Group k's nodes carry k; all other nodes carry -1.
  ghost predicate CarryGroups(g: Graph, groups: Lists, n: nat, region: seq<int>) {
    && n <= |groups| && |region| == |g.nodes|
    && (forall k, v {:trigger v in groups[k]} :: 0 <= k < n && v in groups[k] ==> 0 <= v < |region| && region[v] == k)
    && (forall v {:trigger region[v]} :: 0 <= v < |region| ==>
          region[v] == -1 || (0 <= region[v] < n && v in groups[region[v]]))
  }

  method AssignGroups(g: Graph, groups: Lists, ghost minNodes: int) returns (region: seq<int>, seeds: seq<int>, mask: seq<bool>)
    requires Bridges.AreBridgeGroups(g, minNodes, groups)
    ensures CarryGroups(g, groups, |groups|, region)
    ensures |seeds| == |mask| == |groups|
    ensures forall k :: 0 <= k < |groups| ==> groups[k] != [] && seeds[k] == groups[k][0] && mask[k]
  {
    region := seq(|g.nodes|, _ => -1);
    seeds, mask := [], [];
    for k := 0 to |groups|
      invariant CarryGroups(g, groups, k, region) && |seeds| == |mask| == k
      invariant forall i :: 0 <= i < k ==> groups[i] != [] && seeds[i] == groups[i][0] && mask[i]
    {
      ghost var before := region;
      region := MarkGroup(g, groups[k], region, k);
      GroupMarked(g, minNodes, groups, k, before, region);
      seeds, mask := seeds + [groups[k][0]], mask + [true];
    }
  }

  // Writes k at every node of the group.
  method MarkGroup(g: Graph, group: seq<int>, region0: seq<int>, k: int) returns (region: seq<int>)
    requires |region0| == |g.nodes|
    ensures |region| == |region0|
    ensures forall v {:trigger region[v]} :: 0 <= v < |region| ==> region[v] == if v in group then k else region0[v]
  {
    region := region0;
    for i := 0 to |group|
      invariant |region| == |region0|
      invariant forall v {:trigger region[v]} :: 0 <= v < |region| ==> region[v] == if v in group[..i] then k else region0[v]
    {
      PrefixGrows(group, i);
      if 0 <= group[i] < |region| { region := region[group[i] := k]; }
    }
    assert group[..|group|] == group;
  }

  lemma GroupMarked(g: Graph, minNodes: int, groups: Lists, k: nat, before: seq<int>, region: seq<int>)
    requires Bridges.AreBridgeGroups(g, minNodes, groups) && k < |groups|
    requires CarryGroups(g, groups, k, before) && |region| == |before|
    requires forall v {:trigger region[v]} :: 0 <= v < |region| ==> region[v] == if v in groups[k] then k else before[v]
    ensures CarryGroups(g, groups, k + 1, region)
  {
    forall i, v | 0 <= i < k + 1 && v in groups[i] ensures 0 <= v < |region| && region[v] == i {
      assert Bridges.IsBridgeGroup(g, minNodes, groups[i]) && g.IsPassable(v);
      assert i < k ==> v !in groups[k];
    }
  }

  // The passable nodes without a region.
  method CollectCandidates(g: Graph, region: seq<int>) returns (candidates: seq<int>)
    requires |region| == |g.nodes|
    ensures StrictlyAscending(candidates)
    ensures forall v :: v in candidates <==> g.IsPassable(v) && 0 <= v < |region| && region[v] < 0
  {
    candidates := [];
    for i := 0 to |region|
      invariant StrictlyAscending(candidates)
      invariant forall v :: v in candidates <==> g.IsPassable(v) && 0 <= v < i && region[v] < 0
    {
      assert forall k :: 0 <= k < |candidates| ==> candidates[k] in candidates;
      if g.IsPassable(i) && region[i] < 0 { candidates := candidates + [i]; }
    }
  }

  // How many further regions are wanted of n candidates: at least one after bridge regions.
  function Remaining(target: int, base: nat, n: nat): (r: nat)
    requires target > 0 && n > 0
    ensures 1 <= r <= n
    ensures target > base ==> r == if target - base < n then target - base else n
    ensures target <= base ==> r == 1
  {
    var rest := if base > 0 && target - base <= 0 then 1 else target - base;
    if rest > n then n else rest
  }

  // Seed r got base + r; a seed that comes again keeps the later number.
  ghost predicate IsSeeded(region0: seq<int>, seeds: seq<int>, base: nat, region: seq<int>) {
    && |region| == |region0|
    && (forall v {:trigger region[v]} :: 0 <= v < |region| && v !in seeds ==> region[v] == region0[v])
    && (forall r {:trigger HasNumber(seeds, base, region, r)} :: 0 <= r < |seeds| ==> HasNumber(seeds, base, region, r))
  }

  // Entry r's node carries its own number, or that of a later entry for the same node.
  predicate HasNumber(seeds: seq<int>, base: nat, region: seq<int>, r: int) {
    && 0 <= r < |seeds| && 0 <= seeds[r] < |region|
    && LastSeedAt(seeds, region[seeds[r]] - base, r)
  }

  predicate LastSeedAt(seeds: seq<int>, l: int, r: int) {
    0 <= r <= l < |seeds| && seeds[l] == seeds[r]
  }

  method LabelSeeds(region0: seq<int>, seeds: seq<int>, base: nat) returns (region: seq<int>)
    requires forall r :: 0 <= r < |seeds| ==> 0 <= seeds[r] < |region0|
    ensures IsSeeded(region0, seeds, base, region)
  {
    region := region0;
    for r := 0 to |seeds|
      invariant IsSeeded(region0, seeds[..r], base, region)
    {
      ghost var before := region;
      region := region[seeds[r] := base + r];
      SeedLabelled(region0, seeds, base, r, before);
    }
    assert seeds[..|seeds|] == seeds;
  }

  lemma LastSeedStays(seeds: seq<int>, r: nat, l: int, i: int)
    requires r < |seeds| && LastSeedAt(seeds[..r], l, i)
    ensures LastSeedAt(seeds[..r + 1], l, i)
  {
    assert seeds[..r][l] == seeds[..r + 1][l] && seeds[..r][i] == seeds[..r + 1][i];
  }

  lemma SeedLabelled(region0: seq<int>, seeds: seq<int>, base: nat, r: nat, before: seq<int>)
    requires r < |seeds| && IsSeeded(region0, seeds[..r], base, before) && 0 <= seeds[r] < |before|
    ensures IsSeeded(region0, seeds[..r + 1], base, before[seeds[r] := base + r])
  {
    var shorter, now, region := seeds[..r], seeds[..r + 1], before[seeds[r] := base + r];
    PrefixGrows(seeds, r);
    forall i | 0 <= i < |now| ensures HasNumber(now, base, region, i) {
      if i < r {
        assert HasNumber(shorter, base, before, i) && now[i] == shorter[i];
        if now[i] != seeds[r] { LastSeedStays(seeds, r, before[shorter[i]] - base, i); }
      }
    }
    forall v | 0 <= v < |region| && v !in now ensures region[v] == region0[v] {
      assert v !in shorter;
    }
  }

  // The first of the nearest seeds by distance.
  ghost predicate IsNearestSeed(f: Field, seeds: seq<int>, v: int, r: int) {
    && 0 <= r < |seeds| && (forall s {:trigger seeds[s]} :: 0 <= s < |seeds| ==> f.Gap(v, seeds[r]) <= f.Gap(v, seeds[s]))
    && (forall s {:trigger seeds[s]} :: 0 <= s < r ==> f.Gap(v, seeds[r]) < f.Gap(v, seeds[s]))
  }

  method NearestSeed(f: Field, seeds: seq<int>, v: int) returns (r: int)
    requires seeds != []
    ensures IsNearestSeed(f, seeds, v, r)
  {
    r := 0;
    for s := 1 to |seeds|
      invariant 0 <= r < s
      invariant forall i {:trigger seeds[i]} :: 0 <= i < s ==> f.Gap(v, seeds[r]) <= f.Gap(v, seeds[i])
      invariant forall i {:trigger seeds[i]} :: 0 <= i < r ==> f.Gap(v, seeds[r]) < f.Gap(v, seeds[i])
    {
      if f.Gap(v, seeds[s]) < f.Gap(v, seeds[r]) { r := s; }
    }
  }

  ghost predicate IsFilled(f: Field, candidates: seq<int>, seeds: seq<int>, base: nat, marked: seq<int>, region: seq<int>) {
    && |region| == |marked|
    && forall v {:trigger region[v]} :: 0 <= v < |region| ==>
      if v in candidates && marked[v] < 0 then region[v] >= base && IsNearestSeed(f, seeds, v, region[v] - base)
      else region[v] == marked[v]
  }

  method FillRest(f: Field, candidates: seq<int>, seeds: seq<int>, base: nat, marked: seq<int>) returns (region: seq<int>)
    requires seeds != [] && forall k :: 0 <= k < |candidates| ==> 0 <= candidates[k] < |marked|
    ensures IsFilled(f, candidates, seeds, base, marked, region)
  {
    region := marked;
    for k := 0 to |candidates|
      invariant IsFilled(f, candidates[..k], seeds, base, marked, region)
    {
      PrefixGrows(candidates, k);
      var v := candidates[k];
      if region[v] < 0 {
        var r := NearestSeed(f, seeds, v);
        region := region[v := base + r];
      }
    }
    assert candidates[..|candidates|] == candidates;
  }

  function CandidateNet(g: Graph, candidates: seq<int>): Net {
    Net(|g.nodes|, u => g.Neighbours(u), v => v in candidates)
  }

  // The stages on the way: bridge groups, regions after them, candidates, further seeds, and
  // the labels after seeding and after growing.
  datatype Stages = Stages(groups: Lists, grouped: seq<int>, candidates: seq<int>, seeds: seq<int>, seeded: seq<int>, grown: seq<int>)

  ghost predicate AreStages(g: Graph, f: Field, target: int, st: Stages, region: seq<int>) {
    && CarryGroups(g, st.groups, |st.groups|, st.grouped)
    && StrictlyAscending(st.candidates)
    && (forall v :: v in st.candidates <==> g.IsPassable(v) && 0 <= v < |st.grouped| && st.grouped[v] < 0)
    && (forall k, v {:trigger v in st.groups[k]} :: 0 <= k < |st.groups| && v in st.groups[k] ==> g.IsPassable(v))
    && (if st.candidates == [] then st.seeds == [] && region == st.grouped
       else
         && target > 0 && |st.seeds| == Remaining(target, |st.groups|, |st.candidates|)
         && IsSeeding(f, st.candidates, st.seeds)
         && IsSeeded(st.grouped, st.seeds, |st.groups|, st.seeded)
         && IsSpread(CandidateNet(g, st.candidates), st.seeded, st.seeds, st.grown)
         && IsFilled(f, st.candidates, st.seeds, |st.groups|, st.grown, region))
  }

  predicate IsPartition(g: Graph, count: nat, region: seq<int>) {
    |region| == |g.nodes|
    && forall v {:trigger region[v]} :: 0 <= v < |region| ==>
      if g.IsPassable(v) then 0 <= region[v] < count else region[v] == -1
  }

  lemma SeedsAreCandidates(f: Field, candidates: seq<int>, seeds: seq<int>, r: nat)
    requires f.Valid() && IsSeeding(f, candidates, seeds) && r < |seeds|
    ensures seeds[r] in candidates
  {
    SeedIsEarliest(f, candidates, seeds, r);
  }

  // A seed's number after seeding belongs to the further regions.
  lemma SeedNumber(region0: seq<int>, seeds: seq<int>, base: nat, region: seq<int>, v: int)
    requires IsSeeded(region0, seeds, base, region) && v in seeds
    ensures 0 <= v < |region| && base <= region[v] < base + |seeds|
  {
    var r :| 0 <= r < |seeds| && seeds[r] == v;
    assert HasNumber(seeds, base, region, r);
  }

  // Growth numbers open nodes only, and with a seed's number.
  lemma GrowthNumber(net: Net, seeded: seq<int>, seeds: seq<int>, grown: seq<int>, v: int)
    requires IsSpread(net, seeded, seeds, grown) && 0 <= v < |grown| && seeded[v] < 0 && grown[v] != seeded[v]
    requires forall r :: 0 <= r < |seeds| ==> 0 <= seeds[r] < |seeded| && seeded[seeds[r]] >= 0
    ensures net.IsOpen(v) && exists s :: s in seeds && 0 <= s < |seeded| && grown[v] == seeded[s]
  {
    assert IsReachable(net, seeded, seeds, v);
    var walk :| WalkTo(net, seeded, seeds, walk, v) && 0 <= walk[0] < |seeded| && seeded[walk[0]] == grown[v];
    assert |walk| > 1;
    var i := |walk| - 2;
    assert Step(net, seeded, walk[i], walk[i + 1]);
    assert walk[0] in seeds;
  }

  // After seeding and growing, only candidates have a new number, one of a further region.
  lemma GrownIsBounded(g: Graph, f: Field, target: int, st: Stages, region: seq<int>, v: int)
    requires f.Valid() && AreStages(g, f, target, st, region) && st.candidates != [] && 0 <= v < |st.grown|
    ensures |st.grown| == |st.grouped|
    ensures v !in st.candidates ==> st.grown[v] == st.grouped[v]
    ensures v in st.candidates ==> st.grown[v] < 0 || |st.groups| <= st.grown[v] < |st.groups| + |st.seeds|
  {
    var base := |st.groups|;
    if v in st.seeds {
      var r :| 0 <= r < |st.seeds| && st.seeds[r] == v;
      SeedsAreCandidates(f, st.candidates, st.seeds, r);
      SeedNumber(st.grouped, st.seeds, base, st.seeded, v);
    } else if st.grown[v] != st.seeded[v] {
      forall r | 0 <= r < |st.seeds| ensures 0 <= st.seeds[r] < |st.seeded| && st.seeded[st.seeds[r]] >= 0 {
        SeedNumber(st.grouped, st.seeds, base, st.seeded, st.seeds[r]);
      }
      GrowthNumber(CandidateNet(g, st.candidates), st.seeded, st.seeds, st.grown, v);
      var s :| s in st.seeds && 0 <= s < |st.seeded| && st.grown[v] == st.seeded[s];
      SeedNumber(st.grouped, st.seeds, base, st.seeded, s);
    }
  }

  // Every passable node gets exactly one region below the count, every other node none.
  lemma StagesPartition(g: Graph, f: Field, target: int, st: Stages, region: seq<int>)
    requires f.Valid() && AreStages(g, f, target, st, region)
    ensures IsPartition(g, |st.groups| + |st.seeds|, region)
  {
    forall v | 0 <= v < |region|
      ensures if g.IsPassable(v) then 0 <= region[v] < |st.groups| + |st.seeds| else region[v] == -1
    {
      if st.candidates != [] {
        GrownIsBounded(g, f, target, st, region, v);
      }
      assert st.grouped[v] == -1 || (0 <= st.grouped[v] < |st.groups| && v in st.groups[st.grouped[v]]);
    }
  }

  // A seed keeps the number seeding gave it.
  lemma SeedNumberStays(g: Graph, f: Field, target: int, st: Stages, region: seq<int>, r: nat)
    requires AreStages(g, f, target, st, region) && st.candidates != [] && r < |st.seeds|
    ensures HasNumber(st.seeds, |st.groups|, region, r)
  {
    SeedNumber(st.grouped, st.seeds, |st.groups|, st.seeded, st.seeds[r]);
    assert HasNumber(st.seeds, |st.groups|, st.seeded, r);
    assert st.grown[st.seeds[r]] == st.seeded[st.seeds[r]];
    assert region[st.seeds[r]] == st.grown[st.seeds[r]];
  }

  // Region r's seed lies in region r for all regions exactly when the candidates have at least
  // as many different coordinates as further regions are wanted.
  lemma SeedsKeepTheirRegions(g: Graph, f: Field, target: int, st: Stages, region: seq<int>)
    requires f.Valid() && AreStages(g, f, target, st, region) && st.candidates != []
    ensures OwnNumbers(st.seeds, |st.groups|, region) <==> |st.seeds| <= |SpotsOf(f, st.candidates)|
  {
    SeedsAreDistinct(f, st.candidates, st.seeds);
    forall r | 0 <= r < |st.seeds| ensures HasNumber(st.seeds, |st.groups|, region, r) {
      SeedNumberStays(g, f, target, st, region, r);
    }
    OwnNumberMeansDistinct(st.seeds, region, |st.groups|);
  }

  // Region base + r holds seed r.
  predicate OwnNumbers(seeds: seq<int>, base: nat, region: seq<int>) {
    forall r {:trigger seeds[r]} :: 0 <= r < |seeds| ==> 0 <= seeds[r] < |region| && region[seeds[r]] == base + r
  }

  lemma OwnNumberMeansDistinct(seeds: seq<int>, region: seq<int>, base: nat)
    requires forall r {:trigger HasNumber(seeds, base, region, r)} :: 0 <= r < |seeds| ==> HasNumber(seeds, base, region, r)
    ensures OwnNumbers(seeds, base, region) <==> NoDuplicates(seeds)
  {
    if NoDuplicates(seeds) {
      forall r | 0 <= r < |seeds| ensures 0 <= seeds[r] < |region| && region[seeds[r]] == base + r {
        assert HasNumber(seeds, base, region, r);
      }
    } else {
      var i, j :| 0 <= i < j < |seeds| && seeds[i] == seeds[j];
    }
  }

  // Bridge regions come through unchanged.
  lemma BridgeNodesKeepTheirRegions(g: Graph, f: Field, target: int, st: Stages, region: seq<int>, k: nat, v: int)
    requires f.Valid() && AreStages(g, f, target, st, region) && k < |st.groups| && v in st.groups[k]
    ensures 0 <= v < |region| && region[v] == k
  {
    if st.candidates != [] { GrownIsBounded(g, f, target, st, region, v); }
  }

  // A candidate the growth reaches belongs to a seed fewest hops away; any other candidate to
  // the first of the seeds nearest by distance.
  lemma CandidatesGoToNearestSeeds(g: Graph, f: Field, target: int, st: Stages, region: seq<int>, v: int)
    requires f.Valid() && AreStages(g, f, target, st, region) && v in st.candidates && v !in st.seeds
    ensures 0 <= v < |region|
    ensures if IsReachable(CandidateNet(g, st.candidates), st.seeded, st.seeds, v)
      then IsNearest(CandidateNet(g, st.candidates), st.seeded, st.seeds, v, region[v])
      else IsNearestSeed(f, st.seeds, v, region[v] - |st.groups|)
  {
    assert st.seeded[v] == st.grouped[v] < 0;
    assert region[v] == st.grown[v] || st.grown[v] < 0;
  }

  // What the caller gets: region count, region per node, seed per region, bridge marks.
  datatype Result = Result(count: nat, regionByIndex: seq<int>, seedIndices: seq<int>, bridgeMask: seq<bool>)

  // The seed of every region: the first node of each bridge group, then the further seeds.
  ghost predicate HasSeeds(st: Stages, r: Result) {
    && r.count == |r.seedIndices| == |r.bridgeMask| == |st.groups| + |st.seeds|
    && (forall k :: 0 <= k < |st.groups| ==> st.groups[k] != [] && r.seedIndices[k] == st.groups[k][0])
    && (forall k :: 0 <= k < |st.seeds| ==> r.seedIndices[|st.groups| + k] == st.seeds[k])
    && (forall k :: 0 <= k < r.count ==> (r.bridgeMask[k] <==> k < |st.groups|))
  }

  // With bridge regions on, the groups are exactly the large enough bridge components.
  ghost predicate AreAllBridges(g: Graph, enableBridges: bool, minNodes: int, groups: Lists) {
    forall group :: group in groups <==> enableBridges && IsBridgeComponent(g, group) && |group| >= minNodes
  }

  lemma AllBridgesCollected(g: Graph, minNodes: int, m: Bridges.Merging, groups: Lists)
    requires Bridges.AreMergedGroups(g, minNodes, m, groups)
    ensures AreAllBridges(g, true, minNodes, groups)
  {
    forall group ensures group in groups <==> IsBridgeComponent(g, group) && |group| >= minNodes {
      GroupsExactly(g, minNodes, m, groups, group);
    }
  }

  // The node's region is marked as a bridge.
  predicate IsBridgeNode(r: Result, v: int) {
    && 0 <= v < |r.regionByIndex| && 0 <= r.regionByIndex[v] < |r.bridgeMask|
    && r.bridgeMask[r.regionByIndex[v]]
  }

  // A node's region is a bridge exactly when the node is in one of the groups, and then it is
  // the group's own.
  lemma BridgeNodesAreGrouped(g: Graph, f: Field, target: int, st: Stages, r: Result, v: int)
    requires f.Valid() && AreStages(g, f, target, st, r.regionByIndex) && HasSeeds(st, r) && g.InRange(v)
    ensures IsBridgeNode(r, v) <==> exists k :: 0 <= k < |st.groups| && v in st.groups[k]
    ensures IsBridgeNode(r, v) ==> v in st.groups[r.regionByIndex[v]]
  {
    if k :| 0 <= k < |st.groups| && v in st.groups[k] {
      BridgeNodesKeepTheirRegions(g, f, target, st, r.regionByIndex, k, v);
    }
    if IsBridgeNode(r, v) {
      if st.candidates != [] { GrownIsBounded(g, f, target, st, r.regionByIndex, v); }
      assert st.grouped[v] == r.regionByIndex[v];
    }
  }

  // A node's region is a bridge exactly when the node belongs to a large enough bridge component.
  lemma BridgeRegionsExactly(g: Graph, f: Field, target: int, enableBridges: bool, minNodes: int, st: Stages, r: Result, v: int)
    requires f.Valid() && AreStages(g, f, target, st, r.regionByIndex) && HasSeeds(st, r) && g.InRange(v)
    requires AreAllBridges(g, enableBridges, minNodes, st.groups)
    ensures IsBridgeNode(r, v) <==> enableBridges && InLargeComponent(g, minNodes, v)
  {
    BridgeNodesAreGrouped(g, f, target, st, r, v);
    InSomeGroup(g, enableBridges, minNodes, st.groups, v);
  }

  ghost predicate InLargeComponent(g: Graph, minNodes: int, v: int) {
    exists group :: IsBridgeComponent(g, group) && |group| >= minNodes && v in group
  }

  lemma InSomeGroup(g: Graph, enableBridges: bool, minNodes: int, groups: Lists, v: int)
    requires AreAllBridges(g, enableBridges, minNodes, groups)
    ensures (exists k :: 0 <= k < |groups| && v in groups[k]) <==> enableBridges && InLargeComponent(g, minNodes, v)
  {
    if k :| 0 <= k < |groups| && v in groups[k] {
      assert groups[k] in groups;
    }
    if enableBridges && InLargeComponent(g, minNodes, v) {
      var group :| IsBridgeComponent(g, group) && |group| >= minNodes && v in group;
      var k :| 0 <= k < |groups| && groups[k] == group;
    }
  }

  // For a core node the size of what it is linked to decides.
  lemma CoreNodeDecides(g: Graph, minNodes: int, v: int, group: seq<int>)
    requires IsCore(g, v) && StrictlyAscending(group) && IsReachOf(g, v, group)
    ensures InLargeComponent(g, minNodes, v) <==> |group| >= minNodes
  {
    assert IsBridgeComponent(g, group);
    ConnectedSelf(Spine(g), v);
    if InLargeComponent(g, minNodes, v) {
      var other :| IsBridgeComponent(g, other) && |other| >= minNodes && v in other;
      SameReach(g, v, group, other);
    }
  }

  lemma SameReach(g: Graph, v: int, group: seq<int>, other: seq<int>)
    requires StrictlyAscending(group) && IsReachOf(g, v, group) && IsBridgeComponent(g, other) && v in other
    ensures group == other
  {
    var u :| IsCore(g, u) && IsReachOf(g, u, other);
    forall x ensures x in group <==> x in other {
      if x in group { ConnectedTrans(Spine(g), u, v, x); }
      if x in other {
        ConnectedSym(Spine(g), u, v);
        ConnectedTrans(Spine(g), v, u, x);
      }
    }
    AscendingUnique(group, other);
  }

  // Two bridge nodes share their region exactly when bridge links connect them.
  lemma BridgeNodesShare(g: Graph, f: Field, target: int, enableBridges: bool, minNodes: int, st: Stages, r: Result, v: int, w: int)
    requires f.Valid() && AreStages(g, f, target, st, r.regionByIndex) && HasSeeds(st, r) && g.InRange(v) && g.InRange(w)
    requires AreAllBridges(g, enableBridges, minNodes, st.groups) && IsBridgeNode(r, v) && IsBridgeNode(r, w)
    ensures r.regionByIndex[v] == r.regionByIndex[w] <==> Connected(Spine(g), v, w)
  {
    BridgeNodesAreGrouped(g, f, target, st, r, v);
    BridgeNodesAreGrouped(g, f, target, st, r, w);
    var k := r.regionByIndex[v];
    var group := st.groups[k];
    assert group in st.groups;
    var u :| IsCore(g, u) && IsReachOf(g, u, group);
    ConnectedSym(Spine(g), u, v);
    if w in group { ConnectedTrans(Spine(g), v, u, w); }
    if Connected(Spine(g), v, w) {
      ConnectedTrans(Spine(g), u, v, w);
      BridgeNodesKeepTheirRegions(g, f, target, st, r.regionByIndex, k, w);
    }
  }

  // How many regions there are: the bridges, and as many more as are wanted and can be had, but
  // one at least where a node is left.
  lemma RegionCount(g: Graph, f: Field, target: int, st: Stages, r: Result)
    requires target > 0 && AreStages(g, f, target, st, r.regionByIndex) && HasSeeds(st, r)
    ensures var bridges, left := |st.groups|, |st.candidates|;
      r.count ==
        if left == 0 then bridges
        else if target <= bridges then bridges + 1
        else if target < bridges + left then target
        else bridges + left
  {
  }

  method BuildGraphRegions(g: Graph, target: int, enableBridges: bool, minNodes: int) returns (r: Result, ghost st: Stages)
    requires g.IsMirrored()
    ensures target <= 0 || g.nodes == [] ==> r == Result(0, seq(|g.nodes|, _ => -1), [], [])
    ensures target > 0 && g.nodes != [] ==>
      IsPartition(g, r.count, r.regionByIndex) && AreStages(g, FieldOf(g), target, st, r.regionByIndex) && HasSeeds(st, r)
    ensures target > 0 && g.nodes != [] ==>
      Bridges.AreBridgeGroups(g, minNodes, st.groups) && AreAllBridges(g, enableBridges, minNodes, st.groups)
  {
    if target <= 0 || g.nodes == [] {
      r := Result(0, seq(|g.nodes|, _ => -1), [], []);
      st := Stages([], [], [], [], [], []);
      return;
    }
    var groups: Lists := [];
    if enableBridges {
      ghost var merging;
      groups, merging := Bridges.CollectBridgeRegionGroups(g, minNodes);
      AllBridgesCollected(g, minNodes, merging, groups);
    }
    r, st := RegionsAfterGroups(g, target, groups, minNodes);
    FieldIsValid(g);
    StagesPartition(g, FieldOf(g), target, st, r.regionByIndex);
  }

  method RegionsAfterGroups(g: Graph, target: int, groups: Lists, ghost minNodes: int) returns (r: Result, ghost st: Stages)
    requires target > 0 && Bridges.AreBridgeGroups(g, minNodes, groups)
    ensures AreStages(g, FieldOf(g), target, st, r.regionByIndex) && HasSeeds(st, r) && st.groups == groups
  {
    var grouped, seeds, mask := AssignGroups(g, groups, minNodes);
    var candidates := CollectCandidates(g, grouped);
    forall k, v | 0 <= k < |groups| && v in groups[k] ensures g.IsPassable(v) {
      assert Bridges.IsBridgeGroup(g, minNodes, groups[k]);
    }
    if candidates == [] {
      r := Result(|groups|, grouped, seeds, mask);
      st := Stages(groups, grouped, candidates, [], [], []);
    } else {
      FieldIsValid(g);
      var more, region;
      more, region, st := GrowRegions(g, FieldOf(g), target, groups, grouped, candidates);
      r := Result(|groups| + |more|, region, seeds + more, mask + seq(|more|, _ => false));
    }
  }

  method GrowRegions(g: Graph, f: Field, target: int, groups: Lists, grouped: seq<int>, candidates: seq<int>)
      returns (seeds: seq<int>, region: seq<int>, ghost st: Stages)
    requires f.Valid() && target > 0 && candidates != [] && StrictlyAscending(candidates) && CarryGroups(g, groups, |groups|, grouped)
    requires forall v :: v in candidates <==> g.IsPassable(v) && 0 <= v < |grouped| && grouped[v] < 0
    requires forall k, v {:trigger v in groups[k]} :: 0 <= k < |groups| && v in groups[k] ==> g.IsPassable(v)
    ensures AreStages(g, f, target, st, region)
    ensures st.groups == groups && st.candidates == candidates && st.seeds == seeds
  {
    seeds := PickSeeds(f, candidates, Remaining(target, |groups|, |candidates|));
    forall k | 0 <= k < |seeds| ensures 0 <= seeds[k] < |grouped| {
      SeedsAreCandidates(f, candidates, seeds, k);
    }
    forall k | 0 <= k < |candidates| ensures 0 <= candidates[k] < |grouped| {
      assert candidates[k] in candidates;
    }
    var seeded := LabelSeeds(grouped, seeds, |groups|);
    forall k | 0 <= k < |seeds| ensures seeded[seeds[k]] >= 0 {
      assert HasNumber(seeds, |groups|, seeded, k);
    }
    var grown := Spread(CandidateNet(g, candidates), seeded, seeds);
    region := FillRest(f, candidates, seeds, |groups|, grown);
    st := Stages(groups, grouped, candidates, seeds, seeded, grown);
  }
}
