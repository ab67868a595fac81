// What the node reservation table's operations do to its entries, as functions, and what
// they keep: nodes that exclude each other never have different owners.
module ReservationSpec {
  import opened Util
  import opened SpatialHash
  import opened ConflictIndex

  datatype HoldReason = ReservedPath | WaitingPoint | TempGoal | Other

  // expiresAt None is the default time point: the hold never expires.
  datatype Entry = Entry(owner: string, reason: HoldReason, detail: string, updatedAt: int, expiresAt: Option<int>)
  {
    predicate Expired(now: int) { expiresAt.Some? && now >= expiresAt.value }
  }

  type Table = map<int, Entry>

  const SHARD_COUNT := 64

  // std::hash<int> is the identity on the unsigned bit pattern.
  function ShardOf(nodeId: int): (s: nat)
    ensures s < SHARD_COUNT
  {
    nodeId % SHARD_COUNT
  }

  // What a request to hold a node writes.
  function NewEntry(owner: string, reason: HoldReason, detail: string, now: int, ttl: int): Entry {
    Entry(owner, reason, detail, now, if ttl > 0 then Some(now + ttl) else None)
  }

  // A hold with a positive TTL is live until that much time has passed, any other for ever; it
  // carries what was asked for.
  lemma HoldEndsWithTtl(owner: string, reason: HoldReason, detail: string, now: int, ttl: int, later: int)
    ensures var e := NewEntry(owner, reason, detail, now, ttl);
      && (e.Expired(later) <==> ttl > 0 && later >= now + ttl)
      && e.owner == owner && e.reason == reason && e.detail == detail && e.updatedAt == now
  {
  }

  function Purged(t: Table, ids: seq<int>, now: int): Table {
    map n | n in t && !(n in ids && t[n].Expired(now)) :: t[n]
  }

  predicate Blocked(t: Table, ids: seq<int>, owner: string) {
    exists n :: n in ids && n in t && t[n].owner != owner
  }

  // tryReserve: whether it succeeds and the table it leaves.
  function TryReserve(t: Table, index: Index, nodeId: int, entry: Entry, now: int): (bool, Table) {
    if nodeId < 0 || entry.owner == "" then (false, t)
    else
      var ids := ConflictIds(index, nodeId);
      var purged := Purged(t, ids, now);
      if Blocked(purged, ids, entry.owner) then (false, purged) else (true, purged[nodeId := entry])
  }

  // release: an expired entry goes whoever asks; a live one only for its owner.
  function Release(t: Table, nodeId: int, owner: string, now: int): Table {
    if nodeId >= 0 && owner != "" && nodeId in t && (t[nodeId].Expired(now) || t[nodeId].owner == owner)
    then t - {nodeId} else t
  }

  // Entries a sweep drops: expired ones, and the owner's own except those to be kept.
  predicate Dropped(n: int, e: Entry, owner: string, keep: seq<int>, now: int) {
    e.Expired(now) || (owner != "" && e.owner == owner && n !in keep)
  }

  function Swept(t: Table, owner: string, keep: seq<int>, now: int): Table {
    map n | n in t && !Dropped(n, t[n], owner, keep, now) :: t[n]
  }

  // A hold other than `exclude`'s that is live; an empty `exclude` excludes nobody.
  predicate Counts(e: Entry, exclude: string, now: int) {
    !e.Expired(now) && (exclude == "" || e.owner != exclude)
  }

  ghost function Held(t: Table, exclude: string, now: int): set<int> {
    set n | n in t && Counts(t[n], exclude, now)
  }

  // The nodes a held node rules out: its listed neighbourhood, or itself when none is listed.
  function RuledOut(index: Index, held: int): seq<int> {
    if held in index && index[held] != [] then index[held] else [held]
  }

  ghost predicate InBlockedSnapshot(t: Table, index: Index, exclude: string, now: int, nodeId: int) {
    exists h :: h in Held(t, exclude, now) && nodeId in RuledOut(index, h)
  }

  ghost predicate HasBlockingHold(t: Table, index: Index, nodeId: int, exclude: string, now: int) {
    exists n :: n in ConflictIds(index, nodeId) && n in t && Counts(t[n], exclude, now)
  }

  // Nodes that exclude each other have one owner, expired holds included.
  ghost predicate Exclusive(t: Table, index: Index) {
    forall a, b :: a in t && b in t && a in ConflictIds(index, b) ==> t[a].owner == t[b].owner
  }

  lemma TryReserveKeepsExclusive(t: Table, index: Index, nodeId: int, entry: Entry, now: int)
    requires Exclusive(t, index) && Symmetric(index)
    ensures Exclusive(TryReserve(t, index, nodeId, entry, now).1, index)
  {
  }

  lemma ReleasesKeepExclusive(t: Table, index: Index, nodeId: int, owner: string, keep: seq<int>, now: int)
    requires Exclusive(t, index)
    ensures Exclusive(Release(t, nodeId, owner, now), index)
    ensures Exclusive(Swept(t, owner, keep, now), index)
  {
  }

  // Exactly the entries that are gone by the test are missing; the others are as they were.
  ghost predicate LosesExactly(t: Table, t': Table, gone: (int, Entry) -> bool) {
    && (forall n :: n in t' <==> n in t && !gone(n, t[n]))
    && (forall n :: n in t' ==> t'[n] == t[n])
  }

  // A release by an owner removes the node's entry when it has expired or is the owner's.
  lemma ReleaseLoses(t: Table, nodeId: int, owner: string, now: int)
    ensures LosesExactly(t, Release(t, nodeId, owner, now), (n: int, e: Entry) =>
      n == nodeId && nodeId >= 0 && owner != "" && (e.Expired(now) || e.owner == owner))
  {
  }

  // A sweep for an owner removes what has expired and all of the owner's that is not kept.
  lemma SweepLoses(t: Table, owner: string, keep: seq<int>, now: int)
    ensures owner != "" ==> LosesExactly(t, Swept(t, owner, keep, now), (n: int, e: Entry) =>
      e.Expired(now) || (e.owner == owner && n !in keep))
    ensures owner == "" ==> LosesExactly(t, Swept(t, owner, keep, now), (n: int, e: Entry) => e.Expired(now))
  {
  }

  // A reservation writes its entry and nothing else, and purges what has expired in conflict;
  // it succeeds exactly when every live conflicting entry is its owner's.
  lemma ReserveWrites(t: Table, index: Index, nodeId: int, entry: Entry, now: int)
    ensures var (ok, t') := TryReserve(t, index, nodeId, entry, now);
      && (ok <==> (nodeId >= 0 && entry.owner != ""
            && forall n :: n in ConflictIds(index, nodeId) && n in t && t[n].owner != entry.owner ==> t[n].Expired(now)))
      && (ok ==> nodeId in t' && t'[nodeId] == entry)
      && (forall n :: !(ok && n == nodeId) ==> (n in t' <==> (n in t
            && !(nodeId >= 0 && entry.owner != "" && n in ConflictIds(index, nodeId) && t[n].Expired(now)))))
      && (forall n :: !(ok && n == nodeId) && n in t' ==> t'[n] == t[n])
  {
    var ids := ConflictIds(index, nodeId);
    var purged := Purged(t, ids, now);
    if Blocked(purged, ids, entry.owner) {
      var n :| n in ids && n in purged && purged[n].owner != entry.owner;
      assert n in t && !t[n].Expired(now);
    }
    forall n | n in ids && n in t && t[n].owner != entry.owner && !Blocked(purged, ids, entry.owner)
      ensures t[n].Expired(now)
    {
      assert n !in purged;
    }
  }

  // Once its owner has released it a node can be had by anybody whom nothing else blocks.
  lemma ReleasedNodeCanBeReserved(t: Table, index: Index, nodeId: int, owner: string, now: int, entry: Entry, later: int)
    requires nodeId >= 0 && owner != "" && entry.owner != ""
    requires nodeId in t ==> t[nodeId].owner == owner
    requires forall n :: n in ConflictIds(index, nodeId) && n != nodeId && n in t && t[n].owner != entry.owner ==>
      t[n].Expired(later)
    ensures var (ok, t') := TryReserve(Release(t, nodeId, owner, now), index, nodeId, entry, later);
      ok && nodeId in t' && t'[nodeId] == entry
  {
    ReleaseLoses(t, nodeId, owner, now);
    ReserveWrites(Release(t, nodeId, owner, now), index, nodeId, entry, later);
  }

  // Once an owner's holds are swept, only third owners can still block anybody.
  lemma SweptOwnerBlocksNobody(t: Table, index: Index, nodeId: int, owner: string, now: int, entry: Entry, later: int)
    requires nodeId >= 0 && owner != "" && entry.owner != ""
    requires forall n :: n in ConflictIds(index, nodeId) && n in t && t[n].owner != entry.owner ==>
      t[n].owner == owner || t[n].Expired(later)
    ensures TryReserve(Swept(t, owner, [], now), index, nodeId, entry, later).0
  {
    SweepLoses(t, owner, [], now);
    ReserveWrites(Swept(t, owner, [], now), index, nodeId, entry, later);
  }

  // A live hold survives whatever anyone else does.
  lemma OthersKeepLiveHolds(t: Table, index: Index, n: int, nodeId: int, entry: Entry, owner: string, keep: seq<int>, now: int)
    requires n in t && !t[n].Expired(now) && Symmetric(index)
    requires t[n].owner != entry.owner && t[n].owner != owner
    ensures var t' := TryReserve(t, index, nodeId, entry, now).1; n in t' && t'[n] == t[n]
    ensures var t' := Release(t, nodeId, owner, now); n in t' && t'[n] == t[n]
    ensures var t' := Swept(t, owner, keep, now); n in t' && t'[n] == t[n]
  {
    if n == nodeId {
      var ids := ConflictIds(index, nodeId);
      assert n in Purged(t, ids, now) && n in ids;
    }
  }

  // Every listed node lists itself.
  ghost predicate Reflexive(index: Index) {
    forall id :: id in index ==> id in index[id]
  }

  lemma BuiltIndexIsReflexive(f: Field, index: Index)
    requires f.Valid() && IsIndex(f, index)
    ensures Reflexive(index)
  {
    forall id | id in index ensures id in index[id] {
      var i :| LastOf(f, i) && f.ids[i] == id;
      assert f.Near(i, i);
      assert HasNear(f, i, id);
    }
  }

  lemma RuledOutAreConflicts(index: Index, h: int, n: int)
    requires Reflexive(index)
    ensures n in RuledOut(index, h) <==> n in ConflictIds(index, h)
  {
  }

  // At one instant a reservation succeeds exactly when a probe finds no blocking hold,
  // whatever the index.
  lemma ReserveAgreesWithProbe(t: Table, index: Index, nodeId: int, entry: Entry, now: int)
    requires nodeId >= 0 && entry.owner != ""
    ensures TryReserve(t, index, nodeId, entry, now).0 <==> !HasBlockingHold(t, index, nodeId, entry.owner, now)
  {
    var ids := ConflictIds(index, nodeId);
    var purged := Purged(t, ids, now);
    if Blocked(purged, ids, entry.owner) {
      var n :| n in ids && n in purged && purged[n].owner != entry.owner;
      assert Counts(t[n], entry.owner, now);
    }
    if HasBlockingHold(t, index, nodeId, entry.owner, now) {
      var n :| n in ids && n in t && Counts(t[n], entry.owner, now);
      assert n in purged;
    }
  }

  // Where conflicts are mutual, the blocked snapshot lists exactly the nodes a probe finds blocked.
  lemma SnapshotAgreesWithProbe(t: Table, index: Index, nodeId: int, exclude: string, now: int)
    requires Symmetric(index) && Reflexive(index)
    ensures InBlockedSnapshot(t, index, exclude, now, nodeId) <==> HasBlockingHold(t, index, nodeId, exclude, now)
  {
    if HasBlockingHold(t, index, nodeId, exclude, now) {
      var n :| n in ConflictIds(index, nodeId) && n in t && Counts(t[n], exclude, now);
      assert nodeId in ConflictIds(index, n);
      RuledOutAreConflicts(index, n, nodeId);
      assert n in Held(t, exclude, now);
    }
    if InBlockedSnapshot(t, index, exclude, now, nodeId) {
      var h :| h in Held(t, exclude, now) && nodeId in RuledOut(index, h);
      RuledOutAreConflicts(index, h, nodeId);
      assert h in ConflictIds(index, nodeId);
    }
  }

  lemma TablesEqual(a: Table, b: Table)
    requires forall n :: n in a <==> n in b
    requires forall n :: n in a ==> a[n] == b[n]
    ensures a == b
  {
    if a != b {
      var n := MapDifference(a, b);
    }
  }

  // One shard's part of a sweep: visits every entry and erases those to be dropped.
  method SweepEntries(entries: Table, owner: string, keep: seq<int>, now: int) returns (kept: Table)
    ensures kept == Swept(entries, owner, keep, now)
  {
    kept := entries;
    var left := entries.Keys;
    while left != {}
      invariant left <= entries.Keys
      invariant forall n :: n in kept <==> n in entries && (n in left || !Dropped(n, entries[n], owner, keep, now))
      invariant forall n :: n in kept ==> kept[n] == entries[n]
      decreases left
    {
      var n := Pick(left);
      if Dropped(n, kept[n], owner, keep, now) {
        kept := kept - {n};
      }
      left := left - {n};
    }
    TablesEqual(kept, Swept(entries, owner, keep, now));
  }

  method HeldIn(entries: Table, exclude: string, now: int) returns (r: seq<int>)
    ensures forall n :: n in r <==> n in entries && Counts(entries[n], exclude, now)
  {
    r := [];
    var left := entries.Keys;
    while left != {}
      invariant left <= entries.Keys
      invariant forall n :: n in r <==> n in entries && n !in left && Counts(entries[n], exclude, now)
      decreases left
    {
      var n := Pick(left);
      if Counts(entries[n], exclude, now) { r := r + [n]; }
      left := left - {n};
    }
  }
}
