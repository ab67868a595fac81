// The class `NodeReservationTable` on one thread: 64 shards of entries and the conflict
// index. Every operation is proved to do what ReservationSpec.dfy says of the whole table.
module ReservationTable {
  import opened Util
  import opened MapModel
  import opened SpatialHash
  import opened ConflictIndex
  import opened ReservationSpec

  // The whole table that a row of shards stands for.
  ghost function Merge(shards: seq<Table>): Table {
    if shards == [] then map[]
    else Merge(shards[..|shards| - 1]) + shards[|shards| - 1]
  }

  ghost predicate Sharded(shards: seq<Table>) {
    forall i, n :: 0 <= i < |shards| && n in shards[i] ==> ShardOf(n) == i
  }

  lemma {:induction false} MergeAt(shards: seq<Table>, n: int)
    requires Sharded(shards)
    ensures n in Merge(shards) <==> ShardOf(n) < |shards| && n in shards[ShardOf(n)]
    ensures n in Merge(shards) ==> Merge(shards)[n] == shards[ShardOf(n)][n]
  {
    if shards != [] {
      MergeAt(shards[..|shards| - 1], n);
    }
  }

  // Changing one shard changes the table on that shard's nodes only.
  lemma MergeUpdate(shards: seq<Table>, i: nat, entries: Table)
    requires |shards| == SHARD_COUNT && Sharded(shards) && i < |shards|
    requires forall n :: n in entries ==> ShardOf(n) == i
    ensures Sharded(shards[i := entries])
    ensures forall n :: n in Merge(shards[i := entries]) <==>
      if ShardOf(n) == i then n in entries else n in Merge(shards)
    ensures forall n :: n in Merge(shards[i := entries]) ==>
      Merge(shards[i := entries])[n] == if ShardOf(n) == i then entries[n] else Merge(shards)[n]
  {
    forall n ensures n in Merge(shards[i := entries]) <==>
      if ShardOf(n) == i then n in entries else n in Merge(shards)
    ensures n in Merge(shards[i := entries]) ==>
      Merge(shards[i := entries])[n] == if ShardOf(n) == i then entries[n] else Merge(shards)[n]
    {
      MergeAt(shards, n);
      MergeAt(shards[i := entries], n);
    }
  }

  class NodeReservationTable {
    const shards: array<Table>
    var index: Index

    ghost predicate Valid()
      reads this, shards
    {
      shards.Length == SHARD_COUNT && Sharded(shards[..])
    }

    ghost function Entries(): Table
      reads this, shards
      requires Valid()
    {
      Merge(shards[..])
    }

    constructor ()
      ensures Valid() && fresh(shards)
      ensures Entries() == map[] && index == map[]
    {
      shards := new Table[SHARD_COUNT](_ => map[]);
      index := map[];
      new;
      forall n ensures n !in Merge(shards[..]) { MergeAt(shards[..], n); }
    }

    lemma EntryAt(n: int)
      requires Valid()
      ensures n in Entries() <==> n in shards[ShardOf(n)]
      ensures n in Entries() ==> Entries()[n] == shards[ShardOf(n)][n]
    {
      MergeAt(shards[..], n);
      assert shards[..][ShardOf(n)] == shards[ShardOf(n)];
    }

    // Replaces one shard.
    method SetShard(i: nat, entries: Table)
      requires Valid() && i < SHARD_COUNT
      requires forall n :: n in entries ==> ShardOf(n) == i
      modifies shards
      ensures Valid()
      ensures forall n :: n in Entries() <==> if ShardOf(n) == i then n in entries else n in old(Entries())
      ensures forall n :: n in Entries() ==>
        Entries()[n] == if ShardOf(n) == i then entries[n] else old(Entries())[n]
      ensures forall k :: 0 <= k < SHARD_COUNT && k != i ==> shards[k] == old(shards[k])
    {
      MergeUpdate(shards[..], i, entries);
      shards[i] := entries;
      assert shards[..] == old(shards[..])[i := entries];
    }

    // Rebuilds the conflict index; existing holds stay as they are.
    method ConfigureDistanceConflict(nodes: seq<Node>, threshold: real)
      requires Valid()
      modifies this`index
      ensures Valid() && Entries() == old(Entries())
      ensures IsConfigured(nodes, threshold, index)
      ensures Symmetric(index) <==> NearIsMutual(nodes, threshold)
      ensures Reflexive(index)
    {
      index := ConflictIndex.ConfigureDistanceConflict(nodes, threshold);
      if threshold > 0.0 {
        FieldIsValid(nodes, threshold);
        BuiltIndexIsReflexive(FieldOf(nodes, threshold), index);
      }
    }

    method TryReserve(nodeId: int, owner: string, reason: HoldReason, detail: string, ttl: int, now: int)
        returns (ok: bool)
      requires Valid()
      modifies shards
      ensures Valid()
      ensures (ok, Entries()) ==
        ReservationSpec.TryReserve(old(Entries()), index, nodeId, NewEntry(owner, reason, detail, now, ttl), now)
    {
      if nodeId < 0 || owner == "" { return false; }
      var entry := NewEntry(owner, reason, detail, now, ttl);
      var ids := ConflictIds(index, nodeId);
      PurgeExpired(ids, now);
      ghost var purged := Entries();
      for i := 0 to |ids|
        invariant Valid() && Entries() == purged
        invariant forall k :: 0 <= k < i && ids[k] in purged ==> purged[ids[k]].owner == owner
      {
        var n := ids[i];
        EntryAt(n);
        var entries := shards[ShardOf(n)];
        if n in entries && entries[n].owner != owner { return false; }
      }
      Put(nodeId, entry);
      ok := true;
    }

    // The first loop of tryReserve: expired entries on the conflicting nodes go.
    method PurgeExpired(ids: seq<int>, now: int)
      requires Valid()
      modifies shards
      ensures Valid() && Entries() == Purged(old(Entries()), ids, now)
    {
      assert Purged(Entries(), ids[..0], now) == Entries();
      for i := 0 to |ids|
        invariant Valid() && Entries() == Purged(old(Entries()), ids[..i], now)
      {
        var n := ids[i];
        assert ids[..i + 1] == ids[..i] + [n];
        EntryAt(n);
        var entries := shards[ShardOf(n)];
        if n in entries && entries[n].Expired(now) {
          Erase(n);
        }
      }
      assert ids[..|ids|] == ids;
    }

    lemma ShardAgrees(i: nat)
      requires Valid() && i < SHARD_COUNT
      ensures forall k :: k in shards[i] ==> ShardOf(k) == i
      ensures forall k :: ShardOf(k) == i ==>
        (k in shards[i] <==> k in Entries()) && (k in shards[i] ==> shards[i][k] == Entries()[k])
    {
      assert shards[..][i] == shards[i];
      forall k | ShardOf(k) == i
        ensures (k in shards[i] <==> k in Entries()) && (k in shards[i] ==> shards[i][k] == Entries()[k])
      {
        EntryAt(k);
      }
    }

    method Erase(n: int)
      requires Valid()
      modifies shards
      ensures Valid() && Entries() == old(Entries()) - {n}
    {
      ShardAgrees(ShardOf(n));
      ghost var before := Entries();
      SetShard(ShardOf(n), shards[ShardOf(n)] - {n});
      TablesEqual(Entries(), before - {n});
    }

    method Put(n: int, entry: Entry)
      requires Valid()
      modifies shards
      ensures Valid() && Entries() == old(Entries())[n := entry]
    {
      ShardAgrees(ShardOf(n));
      ghost var before := Entries();
      SetShard(ShardOf(n), shards[ShardOf(n)][n := entry]);
      TablesEqual(Entries(), before[n := entry]);
    }

    method Release(nodeId: int, owner: string, now: int)
      requires Valid()
      modifies shards
      ensures Valid() && Entries() == ReservationSpec.Release(old(Entries()), nodeId, owner, now)
      ensures LosesExactly(old(Entries()), Entries(), (n: int, e: Entry) =>
        n == nodeId && nodeId >= 0 && owner != "" && (e.Expired(now) || e.owner == owner))
    {
      ReleaseLoses(Entries(), nodeId, owner, now);
      if nodeId < 0 || owner == "" { return; }
      EntryAt(nodeId);
      var entries := shards[ShardOf(nodeId)];
      if nodeId !in entries { return; }
      if entries[nodeId].Expired(now) {
        Erase(nodeId);
        return;
      }
      if entries[nodeId].owner != owner { return; }
      Erase(nodeId);
    }

    method ReleaseAllByOwner(owner: string, now: int)
      requires Valid()
      modifies shards
      ensures Valid() && Entries() == if owner == "" then old(Entries()) else Swept(old(Entries()), owner, [], now)
      ensures LosesExactly(old(Entries()), Entries(), (n: int, e: Entry) => owner != "" && (e.Expired(now) || e.owner == owner))
    {
      if owner == "" { return; }
      SweepLoses(Entries(), owner, [], now);
      Sweep(owner, [], now);
    }

    method ReleaseAllByOwnerExcept(owner: string, keepNodeId: int, now: int)
      requires Valid()
      modifies shards
      ensures Valid()
      ensures Entries() == if owner == "" then old(Entries()) else Swept(old(Entries()), owner, [keepNodeId], now)
      ensures LosesExactly(old(Entries()), Entries(), (n: int, e: Entry) =>
        owner != "" && (e.Expired(now) || (e.owner == owner && n != keepNodeId)))
    {
      if owner == "" { return; }
      SweepLoses(Entries(), owner, [keepNodeId], now);
      Sweep(owner, [keepNodeId], now);
    }

    method ReleaseAllByOwnerExceptSet(owner: string, keepNodeIds: seq<int>, now: int)
      requires Valid()
      modifies shards
      ensures Valid()
      ensures Entries() == if owner == "" then old(Entries()) else Swept(old(Entries()), owner, keepNodeIds, now)
      ensures LosesExactly(old(Entries()), Entries(), (n: int, e: Entry) =>
        owner != "" && (e.Expired(now) || (e.owner == owner && n !in keepNodeIds)))
    {
      if owner == "" { return; }
      SweepLoses(Entries(), owner, keepNodeIds, now);
      Sweep(owner, keepNodeIds, now);
    }

    // Without an owner only expired entries are dropped.
    method CleanupExpired(now: int)
      requires Valid()
      modifies shards
      ensures Valid() && Entries() == Swept(old(Entries()), "", [], now)
      ensures LosesExactly(old(Entries()), Entries(), (n: int, e: Entry) => e.Expired(now))
    {
      SweepLoses(Entries(), "", [], now);
      Sweep("", [], now);
    }

    // The loop over the shards that the sweeping operations share.
    method Sweep(owner: string, keep: seq<int>, now: int)
      requires Valid()
      modifies shards
      ensures Valid() && Entries() == Swept(old(Entries()), owner, keep, now)
    {
      ghost var before := Entries();
      for i := 0 to SHARD_COUNT
        invariant Valid()
        invariant forall n :: n in Entries() <==>
          n in before && !(ShardOf(n) < i && Dropped(n, before[n], owner, keep, now))
        invariant forall n :: n in Entries() ==> Entries()[n] == before[n]
      {
        ShardAgrees(i);
        var kept := SweepEntries(shards[i], owner, keep, now);
        SetShard(i, kept);
      }
      TablesEqual(Entries(), Swept(before, owner, keep, now));
    }

    method SnapshotHeldNodes(exclude: string, now: int) returns (r: seq<int>)
      requires Valid()
      ensures StrictlyAscending(r)
      ensures forall n :: n in r <==> n in Held(Entries(), exclude, now)
    {
      var out: seq<int> := [];
      for i := 0 to SHARD_COUNT
        invariant forall n :: n in out <==> n in Held(Entries(), exclude, now) && ShardOf(n) < i
      {
        ShardAgrees(i);
        var part := HeldIn(shards[i], exclude, now);
        out := out + part;
      }
      r := SortUnique(out);
    }

    method SnapshotBlockedNodes(exclude: string, now: int) returns (r: seq<int>)
      requires Valid()
      ensures StrictlyAscending(r)
      ensures forall n :: n in r <==> InBlockedSnapshot(Entries(), index, exclude, now, n)
    {
      var held := SnapshotHeldNodes(exclude, now);
      if held == [] { return held; }
      var out: seq<int> := [];
      for i := 0 to |held|
        invariant forall n :: n in out <==> exists k :: 0 <= k < i && n in RuledOut(index, held[k])
      {
        out := out + RuledOut(index, held[i]);
      }
      r := SortUnique(out);
      forall n ensures n in r <==> InBlockedSnapshot(Entries(), index, exclude, now, n) {
        if n in r {
          var k :| 0 <= k < |held| && n in RuledOut(index, held[k]);
          assert held[k] in held;
        }
        if InBlockedSnapshot(Entries(), index, exclude, now, n) {
          var h :| h in Held(Entries(), exclude, now) && n in RuledOut(index, h);
          assert h in held;
        }
      }
    }

    method Get(nodeId: int, now: int) returns (r: Option<Entry>)
      requires Valid()
      ensures r == if nodeId >= 0 && nodeId in Entries() && !Entries()[nodeId].Expired(now)
                   then Some(Entries()[nodeId]) else None
    {
      if nodeId < 0 { return None; }
      EntryAt(nodeId);
      var entries := shards[ShardOf(nodeId)];
      if nodeId !in entries || entries[nodeId].Expired(now) { return None; }
      r := Some(entries[nodeId]);
    }

    // The first live hold of somebody else, in the order of the conflict list.
    method FindBlockingHold(nodeId: int, exclude: string, now: int) returns (r: Option<(int, Entry)>)
      requires Valid()
      ensures r.None? <==> nodeId < 0 || !HasBlockingHold(Entries(), index, nodeId, exclude, now)
      ensures r.Some? ==>
        && r.value.0 in ConflictIds(index, nodeId)
        && r.value.0 in Entries() && Entries()[r.value.0] == r.value.1
        && Counts(r.value.1, exclude, now)
    {
      if nodeId < 0 { return None; }
      var ids := ConflictIds(index, nodeId);
      for i := 0 to |ids|
        invariant forall k :: 0 <= k < i && ids[k] in Entries() ==> !Counts(Entries()[ids[k]], exclude, now)
      {
        var n := ids[i];
        EntryAt(n);
        var entries := shards[ShardOf(n)];
        if n in entries && Counts(entries[n], exclude, now) {
          return Some((n, entries[n]));
        }
      }
      r := None;
    }
  }
}
