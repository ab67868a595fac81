// Lists taken from lists: which entries, each once, in the order of their first listing.
module Selections {
  import opened Util

  // The index of the first listing, -1 when there is none.
  function FirstAt<T(==)>(ts: seq<T>, t: T): (i: int)
    ensures i == -1 || (0 <= i < |ts| && ts[i] == t)
    ensures i == -1 <==> t !in ts
    ensures forall k :: 0 <= k < i ==> ts[k] != t
  {
    if ts == [] then -1
    else if ts[0] == t then 0
    else
      var i := FirstAt(ts[1..], t);
      if i == -1 then -1 else i + 1
  }

  lemma FirstAtIs<T>(ts: seq<T>, t: T, i: int)
    requires 0 <= i < |ts| && ts[i] == t && forall k :: 0 <= k < i ==> ts[k] != t
    ensures FirstAt(ts, t) == i
  {
  }

  lemma FirstAtOfMore<T>(ts: seq<T>, t: T, more: seq<T>)
    requires t in ts
    ensures FirstAt(ts + more, t) == FirstAt(ts, t)
  {
    FirstAtIs(ts + more, t, FirstAt(ts, t));
  }

  // Exactly the wanted ones among the listed, each once, in the order of their first listing.
  ghost predicate IsSelection<T(!new)>(ts: seq<T>, wanted: T -> bool, r: seq<T>) {
    && NoDuplicates(r) && AreWanted(ts, wanted, r) && FirstsAscend(ts, r)
  }

  ghost predicate AreWanted<T(!new)>(ts: seq<T>, wanted: T -> bool, r: seq<T>) {
    forall t :: t in r <==> t in ts && wanted(t)
  }

  ghost predicate FirstsAscend<T>(ts: seq<T>, r: seq<T>) {
    forall i, j :: 0 <= i < j < |r| ==> FirstAt(ts, r[i]) < FirstAt(ts, r[j])
  }

  lemma FirstsAscendOfMore<T>(ts: seq<T>, r: seq<T>, t: T)
    requires FirstsAscend(ts, r) && forall x :: x in r ==> x in ts
    ensures FirstsAscend(ts + [t], r)
  {
    forall i, j | 0 <= i < j < |r| ensures FirstAt(ts + [t], r[i]) < FirstAt(ts + [t], r[j]) {
      FirstAtOfMore(ts, r[i], [t]);
      FirstAtOfMore(ts, r[j], [t]);
    }
  }

  lemma FirstsAscendNext<T>(ts: seq<T>, r: seq<T>, t: T)
    requires FirstsAscend(ts, r) && t !in ts && forall x :: x in r ==> x in ts
    ensures FirstsAscend(ts + [t], r + [t])
  {
    FirstAtIs(ts + [t], t, |ts|);
    FirstsAscendOfMore(ts, r, t);
    var longer := r + [t];
    forall i, j | 0 <= i < j < |longer| ensures FirstAt(ts + [t], longer[i]) < FirstAt(ts + [t], longer[j]) {
      if j == |r| {
        assert longer[i] == r[i] && r[i] in r;
        FirstAtOfMore(ts, r[i], [t]);
      }
    }
  }

  lemma SelectionNext<T(!new)>(ts: seq<T>, wanted: T -> bool, r: seq<T>, t: T)
    requires IsSelection(ts, wanted, r)
    ensures IsSelection(ts + [t], wanted, if wanted(t) && t !in ts then r + [t] else r)
  {
    if wanted(t) && t !in ts { FirstsAscendNext(ts, r, t); } else { FirstsAscendOfMore(ts, r, t); }
  }

  // Passing over a list without repetitions, keeping the wanted.
  lemma SelectionOfDistinct<T(!new)>(ts: seq<T>, wanted: T -> bool, before: seq<T>, r: seq<T>)
    requires ts != [] && NoDuplicates(ts) && IsSelection(ts[..|ts| - 1], wanted, before)
    requires r == before + (if wanted(ts[|ts| - 1]) then [ts[|ts| - 1]] else [])
    ensures IsSelection(ts, wanted, r)
  {
    var front, last := ts[..|ts| - 1], ts[|ts| - 1];
    assert ts == front + [last] && last !in front;
    SelectionNext(front, wanted, before, last);
    assert before + [] == before;
  }

  // What counts as new: neither the empty one nor among those there are.
  ghost function NewTo<T(!new)>(existing: seq<T>, empty: T): T -> bool {
    x => x != empty && x !in existing
  }

  // Besides the empty one, the known ones are those there are and those added.
  ghost predicate AreKnown<T(!new)>(existing: seq<T>, empty: T, added: seq<T>, known: set<T>) {
    forall x :: x != empty ==> (x in known <==> x in existing || x in added)
  }

  lemma NewIsUnknown<T(!new)>(existing: seq<T>, empty: T, done: seq<T>, added: seq<T>, known: set<T>, x: T)
    requires AreKnown(existing, empty, added, known) && IsSelection(done, NewTo(existing, empty), added)
    ensures x != empty && x !in known <==> NewTo(existing, empty)(x) && x !in done
    ensures AreKnown(existing, empty, added + [x], known + {x})
  {
    assert x in added <==> x in done && NewTo(existing, empty)(x);
  }

  lemma SameSelection<T(!new)>(ts: seq<T>, wanted: T -> bool, other: T -> bool, r: seq<T>)
    requires IsSelection(ts, wanted, r) && forall t :: wanted(t) == other(t)
    ensures IsSelection(ts, other, r)
  {
  }

  lemma Suffixes<T>(a: seq<T>, b: seq<T>, x: T)
    requires a <= b
    ensures b == a + b[|a|..] && (b + [x])[|a|..] == b[|a|..] + [x] && a <= b + [x]
  {
  }

  // The queue is followed by the listed ones that nobody owned, in the order of their first
  // listing; they get this owner, and nothing else changes hands.
  ghost predicate Takes<T(!new), D>(owners: map<T, D>, queue: seq<T>, d: D, ts: seq<T>, owners': map<T, D>, queue': seq<T>) {
    && queue <= queue' && IsSelection(ts, Unowned(owners), queue'[|queue|..])
    && GivesTo(owners, d, ts, owners')
  }

  function Unowned<T, D>(owners: map<T, D>): T -> bool { t => t !in owners }

  ghost predicate GivesTo<T(!new), D>(owners: map<T, D>, d: D, ts: seq<T>, owners': map<T, D>) {
    && (forall t :: t in owners' <==> t in owners || t in ts)
    && (forall t :: t in owners' ==> owners'[t] == if t in owners then owners[t] else d)
  }

  // One more listed: taken when nobody owns it, else nothing changes.
  lemma TakesNext<T(!new), D>(owners: map<T, D>, queue: seq<T>, d: D, ts: seq<T>, owners': map<T, D>, queue': seq<T>, t: T)
    requires Takes(owners, queue, d, ts, owners', queue')
    ensures t !in owners' ==> Takes(owners, queue, d, ts + [t], owners'[t := d], queue' + [t])
    ensures t in owners' ==> Takes(owners, queue, d, ts + [t], owners', queue')
  {
    SelectionNext(ts, Unowned(owners), queue'[|queue|..], t);
    Suffixes(queue, queue', t);
    GivesToNext(owners, d, ts, owners', t);
  }

  lemma GivesToNext<T(!new), D>(owners: map<T, D>, d: D, ts: seq<T>, owners': map<T, D>, t: T)
    requires GivesTo(owners, d, ts, owners')
    ensures t !in owners' ==> GivesTo(owners, d, ts + [t], owners'[t := d])
    ensures t in owners' ==> GivesTo(owners, d, ts + [t], owners')
    ensures t in owners' <==> t in owners || t in ts
  {
    assert forall x :: x in ts + [t] <==> x in ts || x == t;
  }

  // Whatever the owner has stands in the queue.
  lemma TakenStands<T(!new), D>(owners: map<T, D>, queue: seq<T>, d: D, ts: seq<T>, owners': map<T, D>, queue': seq<T>, t: T)
    requires Takes(owners, queue, d, ts, owners', queue') && forall x :: x in queue <==> x in owners && owners[x] == d
    requires t in owners' && owners'[t] == d
    ensures t in queue'
  {
    Suffixes(queue, queue', t);
    if t in owners {
      assert t in queue;
    } else {
      assert t in queue'[|queue|..];
    }
  }
}

// What the simulator's events do to owners, queues, definitions and markers, said without the
// functions that compute it.
module SimMeaning {
  import opened Util
  import opened Selections
  import opened SimSpec

  // ---- one device ----

  lemma {:induction false} AddNewTakes(owners: Owners, queue: seq<string>, d: string, ts: seq<string>)
    requires NoDuplicates(queue) && forall t :: t in queue <==> t in owners && owners[t] == d
    ensures var m := AddNew(Merge(owners, queue), d, ts); Takes(owners, queue, d, ts, m.owners, m.merged)
  {
    if ts == [] {
      NothingTaken(owners, queue, d);
    } else {
      var front, t := ts[..|ts| - 1], ts[|ts| - 1];
      AddNewTakes(owners, queue, d, front);
      var m := AddNew(Merge(owners, queue), d, front);
      TakesNext(owners, queue, d, front, m.owners, m.merged, t);
      if t in m.owners && m.owners[t] == d {
        TakenStands(owners, queue, d, front, m.owners, m.merged, t);
      }
      assert ts == front + [t];
    }
  }

  lemma NothingTaken<T(!new), D>(owners: map<T, D>, queue: seq<T>, d: D)
    ensures Takes(owners, queue, d, [], owners, queue)
  {
    assert queue[|queue|..] == [];
  }

  lemma MergeTakes(owners: Owners, queues: Queues, d: string, ts: seq<string>)
    requires IsOwned(owners, queues)
    ensures var m := MergeFor(owners, queues, d, ts); Takes(owners, QueueOf(queues, d), d, ts, m.owners, m.merged)
  {
    OwnQueue(owners, queues, d);
    KeepOwnKeepsAll(owners, d, QueueOf(queues, d));
    AddNewTakes(owners, QueueOf(queues, d), d, ts);
  }

  // Assigning to one device: its queue takes the listed tasks nobody owned.
  lemma DeviceTakes(s: State, d: string, ts: seq<string>)
    requires IsOwned(s.owners, s.queues)
    ensures var s' := AssignDevice(s, d, ts);
      Takes(s.owners, QueueOf(s.queues, d), d, ts, s'.owners, QueueOf(s'.queues, d))
  {
    MergeTakes(s.owners, s.queues, d, ts);
    SetQueueIs(s.queues, d, MergeFor(s.owners, s.queues, d, ts).merged, d);
  }

  lemma SetQueueIs(queues: Queues, d: string, queue: seq<string>, e: string)
    ensures QueueOf(SetQueue(queues, d, queue), e) == if e == d then queue else QueueOf(queues, e)
  {
  }

  lemma OtherQueueStays(s: State, d: string, ts: seq<string>, e: string)
    requires e != d
    ensures QueueOf(AssignDevice(s, d, ts).queues, e) == QueueOf(s.queues, e)
  {
    SetQueueIs(s.queues, d, MergeFor(s.owners, s.queues, d, ts).merged, e);
  }

  // A listed task is refused exactly when another device owns it at that moment.
  lemma RefusedExactly(s: State, d: string, ts: seq<string>, t: string)
    requires IsOwned(s.owners, s.queues) && t in ts
    ensures t !in QueueOf(AssignDevice(s, d, ts).queues, d) <==> t in s.owners && s.owners[t] != d
  {
    var queue, s' := QueueOf(s.queues, d), AssignDevice(s, d, ts);
    OwnQueue(s.owners, s.queues, d);
    DeviceTakes(s, d, ts);
    AssignDeviceKeepsOwned(s, d, ts);
    OwnQueue(s'.owners, s'.queues, d);
    assert GivesTo(s.owners, d, ts, s'.owners);
  }

  lemma OwnQueue(owners: Owners, queues: Queues, d: string)
    requires IsOwned(owners, queues)
    ensures NoDuplicates(QueueOf(queues, d))
    ensures forall t :: t in QueueOf(queues, d) <==> t in owners && owners[t] == d
  {
    forall t | t in owners && owners[t] == d ensures t in QueueOf(queues, d) {
      assert owners[t] in queues && t in queues[owners[t]];
    }
    if d in queues {
      assert queues[d] != [] && NoDuplicates(queues[d]);
      forall t | t in queues[d] ensures t in owners && owners[t] == d {
      }
    }
  }

  // ---- a whole assignment ----

  predicate ListedBefore(entries: seq<Entry>, i: int, t: string) {
    exists k :: 0 <= k < i && k < |entries| && t in entries[k].tasks
  }

  // An unowned task goes to the first device that lists it; an owned one stays where it is.
  lemma {:induction false} AssignedToFirstLister(s: State, entries: seq<Entry>, t: string)
    requires IsOwned(s.owners, s.queues)
    ensures var s' := AssignAll(s, entries);
      && IsOwned(s'.owners, s'.queues)
      && (t in s'.owners <==> t in s.owners || ListedBefore(entries, |entries|, t))
      && (t in s.owners ==> s'.owners[t] == s.owners[t])
      && (forall i :: 0 <= i < |entries| && t in entries[i].tasks && t !in s.owners && !ListedBefore(entries, i, t) ==>
            s'.owners[t] == entries[i].device)
  {
    AssignAllKeepsOwned(s, entries);
    if entries != [] {
      var n := |entries| - 1;
      var front, e := entries[..n], entries[n];
      AssignedToFirstLister(s, front, t);
      var before := AssignAll(s, front);
      DeviceTakes(before, e.device, e.tasks);
      ListedInFront(entries, t);
      forall i | 0 <= i < n && t in entries[i].tasks && t !in s.owners && !ListedBefore(entries, i, t)
        ensures before.owners[t] == entries[i].device
      {
        ListedInPrefix(entries, i, t);
        assert front[i] == entries[i];
      }
    }
  }

  lemma ListedInFront(entries: seq<Entry>, t: string)
    requires entries != []
    ensures var n := |entries| - 1;
      && (ListedBefore(entries, n, t) <==> ListedBefore(entries[..n], n, t))
      && (ListedBefore(entries, n + 1, t) <==> ListedBefore(entries, n, t) || t in entries[n].tasks)
  {
    ListedInPrefix(entries, |entries| - 1, t);
  }

  lemma ListedInPrefix(entries: seq<Entry>, i: int, t: string)
    requires 0 <= i < |entries|
    ensures ListedBefore(entries, i, t) <==> ListedBefore(entries[..|entries| - 1], i, t)
  {
    var front := entries[..|entries| - 1];
    if ListedBefore(entries, i, t) {
      var k :| 0 <= k < i && t in entries[k].tasks;
      assert front[k] == entries[k];
    }
    if ListedBefore(front, i, t) {
      var k :| 0 <= k < i && k < |front| && t in front[k].tasks;
      assert front[k] == entries[k];
    }
  }

  ghost predicate DistinctDevices(entries: seq<Entry>) {
    forall i, j :: 0 <= i < j < |entries| ==> entries[i].device != entries[j].device
  }

  // Free at the i-th device: owned by nobody before and not listed by an earlier device.
  ghost function FreeAt(s: State, entries: seq<Entry>, i: int): string -> bool {
    t => t !in s.owners && !ListedBefore(entries, i, t)
  }

  predicate NamesDevice(entries: seq<Entry>, d: string) {
    exists i :: 0 <= i < |entries| && entries[i].device == d
  }

  // A listed device's queue is followed by exactly the tasks that are free at its turn.
  ghost predicate QueueTakes(s: State, entries: seq<Entry>, s': State, i: int)
    requires 0 <= i < |entries|
  {
    var queue, queue' := QueueOf(s.queues, entries[i].device), QueueOf(s'.queues, entries[i].device);
    queue <= queue' && IsSelection(entries[i].tasks, FreeAt(s, entries, i), queue'[|queue|..])
  }

  lemma {:induction false} OtherQueuesStay(s: State, entries: seq<Entry>, d: string)
    requires IsOwned(s.owners, s.queues) && !NamesDevice(entries, d)
    ensures QueueOf(AssignAll(s, entries).queues, d) == QueueOf(s.queues, d)
  {
    if entries != [] {
      var n := |entries| - 1;
      var front, e := entries[..n], entries[n];
      FrontNames(entries, d);
      OtherQueuesStay(s, front, d);
      AssignAllKeepsOwned(s, front);
      OtherQueueStays(AssignAll(s, front), e.device, e.tasks, d);
    }
  }

  lemma FrontNames(entries: seq<Entry>, d: string)
    requires entries != []
    ensures var n := |entries| - 1;
      NamesDevice(entries, d) <==> NamesDevice(entries[..n], d) || entries[n].device == d
  {
    var n := |entries| - 1;
    if i :| 0 <= i < n && entries[..n][i].device == d { assert entries[i].device == d; }
    if i :| 0 <= i <= n && entries[i].device == d { assert i < n ==> entries[..n][i].device == d; }
  }

  lemma LastIsNew(entries: seq<Entry>)
    requires entries != [] && DistinctDevices(entries)
    ensures var n := |entries| - 1;
      !NamesDevice(entries[..n], entries[n].device) && DistinctDevices(entries[..n])
  {
    var n := |entries| - 1;
    assert forall i :: 0 <= i < n ==> entries[..n][i] == entries[i];
  }

  lemma {:induction false} AssignmentFillsQueues(s: State, entries: seq<Entry>, i: int)
    requires IsOwned(s.owners, s.queues) && DistinctDevices(entries) && 0 <= i < |entries|
    ensures QueueTakes(s, entries, AssignAll(s, entries), i)
  {
    LastIsNew(entries);
    if i < |entries| - 1 {
      AssignmentFillsQueues(s, entries[..|entries| - 1], i);
      LastEntryPassesBy(s, entries, entries[i].device);
      EarlierQueueStays(s, entries, AssignAll(s, entries[..|entries| - 1]), AssignAll(s, entries), i);
    } else {
      LastEntryTakes(s, entries);
    }
  }

  lemma LastEntryPassesBy(s: State, entries: seq<Entry>, d: string)
    requires entries != [] && entries[|entries| - 1].device != d
    ensures QueueOf(AssignAll(s, entries).queues, d) == QueueOf(AssignAll(s, entries[..|entries| - 1]).queues, d)
  {
    var n := |entries| - 1;
    OtherQueueStays(AssignAll(s, entries[..n]), entries[n].device, entries[n].tasks, d);
  }

  lemma LastEntryTakes(s: State, entries: seq<Entry>)
    requires IsOwned(s.owners, s.queues) && entries != []
    requires var n := |entries| - 1; !NamesDevice(entries[..n], entries[n].device)
    ensures QueueTakes(s, entries, AssignAll(s, entries), |entries| - 1)
  {
    var n := |entries| - 1;
    var front, e := entries[..n], entries[n];
    AssignAllKeepsOwned(s, front);
    OtherQueuesStay(s, front, e.device);
    DeviceTakes(AssignAll(s, front), e.device, e.tasks);
    LastQueueTakes(s, entries, AssignAll(s, front), AssignAll(s, entries));
  }

  lemma LastQueueTakes(s: State, entries: seq<Entry>, before: State, s': State)
    requires entries != [] && IsOwned(s.owners, s.queues) && before == AssignAll(s, entries[..|entries| - 1])
    requires var e := entries[|entries| - 1];
      && QueueOf(before.queues, e.device) == QueueOf(s.queues, e.device)
      && Takes(before.owners, QueueOf(s.queues, e.device), e.device, e.tasks, s'.owners, QueueOf(s'.queues, e.device))
    ensures QueueTakes(s, entries, s', |entries| - 1)
  {
    var n := |entries| - 1;
    var e := entries[n];
    forall t ensures (t !in before.owners) == FreeAt(s, entries, n)(t) {
      AssignedToFirstLister(s, entries[..n], t);
      ListedInFront(entries, t);
    }
    SameSelection(e.tasks, Unowned(before.owners), FreeAt(s, entries, n),
      QueueOf(s'.queues, e.device)[|QueueOf(s.queues, e.device)|..]);
  }

  lemma EarlierQueueStays(s: State, entries: seq<Entry>, before: State, s': State, i: int)
    requires 0 <= i < |entries| - 1 && DistinctDevices(entries)
    requires QueueTakes(s, entries[..|entries| - 1], before, i)
    requires QueueOf(s'.queues, entries[i].device) == QueueOf(before.queues, entries[i].device)
    ensures QueueTakes(s, entries, s', i)
  {
    var front := entries[..|entries| - 1];
    assert front[i] == entries[i];
    forall t ensures FreeAt(s, front, i)(t) == FreeAt(s, entries, i)(t) {
      ListedInPrefix(entries, i, t);
    }
    var queue, queue' := QueueOf(s.queues, entries[i].device), QueueOf(s'.queues, entries[i].device);
    SameSelection(entries[i].tasks, FreeAt(s, front, i), FreeAt(s, entries, i), queue'[|queue|..]);
  }

  // Who owns a task afterwards.
  ghost predicate OwnerAfter(s: State, entries: seq<Entry>, s': State, t: string) {
    && (t in s'.owners <==> t in s.owners || ListedBefore(entries, |entries|, t))
    && (t in s.owners ==> s'.owners[t] == s.owners[t])
    && (forall i :: 0 <= i < |entries| && t in entries[i].tasks && t !in s.owners && !ListedBefore(entries, i, t) ==>
          s'.owners[t] == entries[i].device)
  }

  // Owners and queues after an assignment.
  ghost predicate Assigned(s: State, entries: seq<Entry>, s': State) {
    && (forall t :: OwnerAfter(s, entries, s', t))
    && (forall i :: 0 <= i < |entries| ==> QueueTakes(s, entries, s', i))
    && (forall d :: !NamesDevice(entries, d) ==> QueueOf(s'.queues, d) == QueueOf(s.queues, d))
  }

  lemma AssignmentMeans(s: State, entries: seq<Entry>)
    requires IsOwned(s.owners, s.queues) && DistinctDevices(entries)
    ensures Assigned(s, entries, AssignAll(s, entries))
  {
    var s' := AssignAll(s, entries);
    forall t ensures OwnerAfter(s, entries, s', t) { AssignedToFirstLister(s, entries, t); }
    forall i | 0 <= i < |entries| ensures QueueTakes(s, entries, s', i) { AssignmentFillsQueues(s, entries, i); }
    forall d | !NamesDevice(entries, d) ensures QueueOf(s'.queues, d) == QueueOf(s.queues, d) {
      OtherQueuesStay(s, entries, d);
    }
  }

  // ---- the payload ----

  lemma {:induction false} FirstsKept(ts: seq<string>, x: string, y: string)
    requires x in NonEmpty(ts) && y in NonEmpty(ts)
    ensures FirstAt(NonEmpty(ts), x) < FirstAt(NonEmpty(ts), y) <==> FirstAt(ts, x) < FirstAt(ts, y)
  {
    var front, last := ts[..|ts| - 1], ts[|ts| - 1];
    var kept := NonEmpty(front);
    assert ts == front + [last];
    assert NonEmpty(ts) == if last == "" then kept else kept + [last];
    FirstOfLast(front, kept, last, x);
    FirstOfLast(front, kept, last, y);
    if x in front && y in front {
      FirstsKept(front, x, y);
    }
  }

  // Where x is first listed in a list and in its non-empty entries, one more entry added.
  lemma FirstOfLast(front: seq<string>, kept: seq<string>, last: string, x: string)
    requires (forall t :: t in kept <==> t in front && t != "") && x != ""
    requires x in front || x == last
    ensures FirstAt(front + [last], x) == if x in front then FirstAt(front, x) else |front|
    ensures last != "" ==> FirstAt(kept + [last], x) == if x in front then FirstAt(kept, x) else |kept|
  {
    if x in front {
      FirstAtOfMore(front, x, [last]);
      FirstAtOfMore(kept, x, [last]);
    } else {
      FirstAtIs(front + [last], x, |front|);
      FirstAtIs(kept + [last], x, |kept|);
    }
  }

  // A selection of the non-empty entries is one of the whole list.
  lemma SelectionOfNonEmpty(ts: seq<string>, wanted: string -> bool, r: seq<string>)
    requires IsSelection(NonEmpty(ts), wanted, r)
    ensures IsSelection(ts, t => t != "" && wanted(t), r)
  {
    forall i, j | 0 <= i < j < |r| ensures FirstAt(ts, r[i]) < FirstAt(ts, r[j]) {
      assert r[i] in r && r[j] in r;
      FirstsKept(ts, r[i], r[j]);
    }
  }

  // An entry that counts: it names a device and some task.
  predicate IsUsable(e: Entry) { e.device != "" && exists t :: t in e.tasks && t != "" }

  lemma UsableMeans(e: Entry)
    ensures IsUsable(e) <==> e.device != "" && NonEmpty(e.tasks) != []
  {
    if NonEmpty(e.tasks) != [] { assert NonEmpty(e.tasks)[0] in NonEmpty(e.tasks); }
    if IsUsable(e) {
      var t :| t in e.tasks && t != "";
      assert t in NonEmpty(e.tasks);
    }
  }

  predicate IsLastUsable(payload: seq<Entry>, k: int) {
    && 0 <= k < |payload| && IsUsable(payload[k])
    && forall l :: k < l < |payload| && payload[l].device == payload[k].device ==> !IsUsable(payload[l])
  }

  predicate Lists(payload: seq<Entry>, d: string) {
    exists k :: 0 <= k < |payload| && IsUsable(payload[k]) && payload[k].device == d
  }

  // Device a has a usable entry before any of device b.
  predicate ListedFirst(payload: seq<Entry>, a: string, b: string) {
    exists k :: 0 <= k < |payload| && IsUsable(payload[k]) && payload[k].device == a && !Lists(payload[..k], b)
  }

  // Each device once, with the tasks of its last usable entry, in the order of the first ones.
  ghost predicate IsCollected(payload: seq<Entry>, r: seq<Entry>) {
    && (forall i {:trigger r[i]} :: 0 <= i < |r| ==> IsLastEntry(payload, r[i]))
    && (forall d :: NamesDevice(r, d) <==> Lists(payload, d))
    && (forall i, j :: 0 <= i < j < |r| ==> ListedFirst(payload, r[i].device, r[j].device))
  }

  ghost predicate IsLastEntry(payload: seq<Entry>, e: Entry) {
    exists k :: IsLastUsable(payload, k) && e == Entry(payload[k].device, NonEmpty(payload[k].tasks))
  }

  lemma ListsNext(payload: seq<Entry>, e: Entry, d: string)
    ensures Lists(payload + [e], d) <==> Lists(payload, d) || (IsUsable(e) && e.device == d)
  {
    var more := payload + [e];
    if Lists(payload, d) {
      var k :| 0 <= k < |payload| && IsUsable(payload[k]) && payload[k].device == d;
      assert more[k] == payload[k];
    }
    if Lists(more, d) {
      var k :| 0 <= k < |more| && IsUsable(more[k]) && more[k].device == d;
      assert k < |payload| ==> payload[k] == more[k];
    }
    assert more[|payload|] == e;
  }

  lemma ListedFirstStays(payload: seq<Entry>, e: Entry, a: string, b: string)
    requires ListedFirst(payload, a, b)
    ensures ListedFirst(payload + [e], a, b)
  {
    var k :| 0 <= k < |payload| && IsUsable(payload[k]) && payload[k].device == a && !Lists(payload[..k], b);
    assert (payload + [e])[k] == payload[k] && (payload + [e])[..k] == payload[..k];
  }

  lemma LastEntryStays(payload: seq<Entry>, e: Entry, x: Entry)
    requires IsLastEntry(payload, x) && !(IsUsable(e) && e.device == x.device)
    ensures IsLastEntry(payload + [e], x)
  {
    var k :| IsLastUsable(payload, k) && x == Entry(payload[k].device, NonEmpty(payload[k].tasks));
    assert IsLastUsable(payload + [e], k);
  }

  lemma NewEntryIsLast(payload: seq<Entry>, e: Entry)
    requires IsUsable(e)
    ensures IsLastEntry(payload + [e], Entry(e.device, NonEmpty(e.tasks)))
  {
    assert IsLastUsable(payload + [e], |payload|);
  }

  lemma NewDeviceComesLast(payload: seq<Entry>, e: Entry, a: string)
    requires Lists(payload, a) && !Lists(payload, e.device)
    ensures ListedFirst(payload + [e], a, e.device)
  {
    var k :| 0 <= k < |payload| && IsUsable(payload[k]) && payload[k].device == a;
    assert forall l :: 0 <= l < k ==> payload[..k][l] == payload[l];
    assert (payload + [e])[k] == payload[k] && (payload + [e])[..k] == payload[..k];
  }

  lemma {:induction false} CollectedMeans(payload: seq<Entry>)
    ensures IsCollected(payload, Collected(payload)) && DistinctDevices(Collected(payload))
  {
    if payload != [] {
      var front, e := payload[..|payload| - 1], payload[|payload| - 1];
      CollectedMeans(front);
      UsableMeans(e);
      assert payload == front + [e];
      var before := Collected(front);
      if !IsUsable(e) {
        SkippedEntry(front, before, e);
      } else {
        var i := IndexOfDevice(before, e.device);
        if i >= 0 { ReplacedEntry(front, before, e, i); } else { AppendedEntry(front, before, e); }
      }
    }
  }

  lemma SkippedEntry(front: seq<Entry>, r: seq<Entry>, e: Entry)
    requires IsCollected(front, r) && !IsUsable(e)
    ensures IsCollected(front + [e], r)
  {
    forall i {:trigger r[i]} | 0 <= i < |r| ensures IsLastEntry(front + [e], r[i]) { LastEntryStays(front, e, r[i]); }
    forall d ensures NamesDevice(r, d) <==> Lists(front + [e], d) { ListsNext(front, e, d); }
    forall i, j | 0 <= i < j < |r| ensures ListedFirst(front + [e], r[i].device, r[j].device) {
      ListedFirstStays(front, e, r[i].device, r[j].device);
    }
  }

  lemma ReplacedEntry(front: seq<Entry>, r: seq<Entry>, e: Entry, i: int)
    requires IsCollected(front, r) && DistinctDevices(r) && IsUsable(e) && 0 <= i < |r| && r[i].device == e.device
    ensures IsCollected(front + [e], r[i := Entry(e.device, NonEmpty(e.tasks))])
  {
    var r' := r[i := Entry(e.device, NonEmpty(e.tasks))];
    NewEntryIsLast(front, e);
    forall k {:trigger r'[k]} | 0 <= k < |r'| ensures IsLastEntry(front + [e], r'[k]) {
      if k != i { LastEntryStays(front, e, r[k]); }
    }
    forall d ensures NamesDevice(r', d) <==> Lists(front + [e], d) {
      ListsNext(front, e, d);
      SameDevices(r, r', d);
    }
    forall k, j | 0 <= k < j < |r'| ensures ListedFirst(front + [e], r'[k].device, r'[j].device) {
      ListedFirstStays(front, e, r[k].device, r[j].device);
    }
  }

  lemma SameDevices(r: seq<Entry>, r': seq<Entry>, d: string)
    requires |r| == |r'| && forall k :: 0 <= k < |r| ==> r[k].device == r'[k].device
    ensures NamesDevice(r, d) <==> NamesDevice(r', d)
  {
  }

  lemma AppendedEntry(front: seq<Entry>, r: seq<Entry>, e: Entry)
    requires IsCollected(front, r) && IsUsable(e) && !NamesDevice(r, e.device)
    ensures IsCollected(front + [e], r + [Entry(e.device, NonEmpty(e.tasks))])
  {
    var r' := r + [Entry(e.device, NonEmpty(e.tasks))];
    NewEntryIsLast(front, e);
    forall k {:trigger r'[k]} | 0 <= k < |r'| ensures IsLastEntry(front + [e], r'[k]) {
      if k < |r| {
        assert r[k].device != e.device;
        LastEntryStays(front, e, r[k]);
      }
    }
    forall d ensures NamesDevice(r', d) <==> Lists(front + [e], d) {
      ListsNext(front, e, d);
      FrontNames(r', d);
      assert r'[..|r|] == r;
    }
    forall k, j | 0 <= k < j < |r'| ensures ListedFirst(front + [e], r'[k].device, r'[j].device) {
      if j < |r| {
        ListedFirstStays(front, e, r[k].device, r[j].device);
      } else {
        assert NamesDevice(r, r[k].device);
        NewDeviceComesLast(front, e, r[k].device);
      }
    }
  }

  // ---- publishing ----

  // A published task gets its new stops unless it is owned and has some; no other task changes.
  lemma PublishedDefinition(defs: Definitions, owners: Owners, news: Definitions, t: string)
    ensures DefinitionOf(Publish(defs, owners, news), t)
      == if t in news && (t !in owners || DefinitionOf(defs, t) == []) then news[t] else DefinitionOf(defs, t)
  {
  }

  function MarkersOf(sticky: Stickies, d: string): seq<Marker> {
    if d in sticky then sticky[d] else []
  }

  // A device's markers after they were brought up to date: the rebuilt ones where there were
  // none, the joined ones where there were some; nobody else's change.
  lemma SyncedMarkers(sticky: Stickies, d: string, rebuilt: seq<Marker>, e: string)
    ensures MarkersOf(Synced(sticky, d, rebuilt), e)
      == var before := MarkersOf(sticky, e);
         if e != d || d == "" || rebuilt == [] then before
         else if before == [] then rebuilt
         else Joined(before, rebuilt)
  {
  }

  lemma {:induction false} AllSyncedMarkers(sticky: Stickies, defs: Definitions, queues: Queues, order: seq<string>, d: string)
    requires NoDuplicates(order)
    ensures MarkersOf(SyncAll(sticky, defs, queues, order), d)
      == if d in order then MarkersOf(Synced(sticky, d, BuildMarkers(defs, QueueOf(queues, d))), d) else MarkersOf(sticky, d)
  {
    if order != [] {
      var front, last := order[..|order| - 1], order[|order| - 1];
      AllSyncedMarkers(sticky, defs, queues, front, d);
      LastOfDistinct(order, d);
      var rebuilt := BuildMarkers(defs, QueueOf(queues, last));
      SyncedMarkers(SyncAll(sticky, defs, queues, front), last, rebuilt, d);
      SyncedMarkers(sticky, last, rebuilt, d);
    }
  }

  lemma LastOfDistinct<T>(order: seq<T>, d: T)
    requires order != [] && NoDuplicates(order)
    ensures var front, last := order[..|order| - 1], order[|order| - 1];
      && NoDuplicates(front) && last !in front && (d in order <==> d in front || d == last)
  {
    var front, last := order[..|order| - 1], order[|order| - 1];
    assert order == front + [last];
  }

  // ---- building markers ----

  // The markers all stops of a task would have, and those of a queue.
  function StopsOf(t: string, subs: seq<SubTask>): (r: seq<Marker>)
    ensures |r| == |subs| && forall k :: 0 <= k < |r| ==> r[k] == Marker(subs[k].nodeId, t, subs[k].subTaskId)
  {
    seq(|subs|, k requires 0 <= k < |subs| => Marker(subs[k].nodeId, t, subs[k].subTaskId))
  }

  function AllStops(defs: Definitions, ts: seq<string>): seq<Marker> {
    if ts == [] then [] else AllStops(defs, ts[..|ts| - 1]) + StopsOf(ts[|ts| - 1], DefinitionOf(defs, ts[|ts| - 1]))
  }

  // The k-th stop lies elsewhere than the one before it.
  predicate Moves(stops: seq<Marker>, k: int) {
    0 <= k < |stops| && (k == 0 || stops[k].nodeId != stops[k - 1].nodeId)
  }

  // The stops at the positions ps: those that lie elsewhere than the stop before them.
  ghost predicate IsCollapsed(stops: seq<Marker>, ps: seq<int>, markers: seq<Marker>) {
    && |ps| == |markers| && StrictlyAscending(ps)
    && (forall k :: k in ps <==> Moves(stops, k))
    && (forall i :: 0 <= i < |ps| ==> 0 <= ps[i] < |stops| && markers[i] == stops[ps[i]])
  }

  // Which stop was met last.
  predicate EndsAt(stops: seq<Marker>, node: Option<int>) {
    node == if stops == [] then None else Some(stops[|stops| - 1].nodeId)
  }

  lemma CollapsedNext(stops: seq<Marker>, ps: seq<int>, markers: seq<Marker>, m: Marker)
    requires IsCollapsed(stops, ps, markers)
    ensures if EndsAt(stops, Some(m.nodeId)) then IsCollapsed(stops + [m], ps, markers)
            else IsCollapsed(stops + [m], ps + [|stops|], markers + [m])
  {
    forall k ensures Moves(stops + [m], k) <==> Moves(stops, k) || (k == |stops| && !EndsAt(stops, Some(m.nodeId))) {
      assert 0 <= k < |stops| ==> (stops + [m])[k] == stops[k];
    }
  }

  lemma {:induction false} StopsCollapse(stops: seq<Marker>, ps: seq<int>, b: Building, t: string, subs: seq<SubTask>)
      returns (ps': seq<int>)
    requires IsCollapsed(stops, ps, b.markers) && EndsAt(stops, b.lastNode)
    ensures var b', stops' := AddStops(b, t, subs), stops + StopsOf(t, subs);
      IsCollapsed(stops', ps', b'.markers) && EndsAt(stops', b'.lastNode)
  {
    if subs == [] {
      assert stops + StopsOf(t, subs) == stops;
      ps' := ps;
    } else {
      var front, st := subs[..|subs| - 1], subs[|subs| - 1];
      var before := AddStops(b, t, front);
      var all, m := stops + StopsOf(t, front), Marker(st.nodeId, t, st.subTaskId);
      ps' := StopsCollapse(stops, ps, b, t, front);
      CollapsedNext(all, ps', before.markers, m);
      assert all + [m] == stops + StopsOf(t, subs);
      if before.lastNode != Some(st.nodeId) { ps' := ps' + [|all|]; }
    }
  }

  // A queue's markers are exactly its stops, without those at the node of the stop before.
  lemma {:induction false} MarkersAreCollapsedStops(defs: Definitions, ts: seq<string>) returns (ps: seq<int>)
    ensures IsCollapsed(AllStops(defs, ts), ps, BuildMarkers(defs, ts))
    ensures EndsAt(AllStops(defs, ts), AddTasks(defs, ts).lastNode)
  {
    if ts == [] {
      ps := [];
    } else {
      var front, t := ts[..|ts| - 1], ts[|ts| - 1];
      ps := MarkersAreCollapsedStops(defs, front);
      ps := StopsCollapse(AllStops(defs, front), ps, AddTasks(defs, front), t, DefinitionOf(defs, t));
    }
  }

  // ---- joining markers ----

  function SubIds(markers: seq<Marker>): (r: seq<string>)
    ensures |r| == |markers| && forall i :: 0 <= i < |r| ==> r[i] == markers[i].subTaskId
  {
    seq(|markers|, i requires 0 <= i < |markers| => markers[i].subTaskId)
  }

  lemma SubIdsOf(markers: seq<Marker>, m: Marker)
    ensures SubIds(markers + [m]) == SubIds(markers) + [m.subTaskId]
  {
  }

  // A marker of each id: the existing one where there is one, else the rebuilt one.
  ghost predicate IsKept(existing: seq<Marker>, rebuilt: Marker, m: Marker) {
    && m.subTaskId == rebuilt.subTaskId
    && if rebuilt.subTaskId != "" && rebuilt.subTaskId in SubIds(existing) then m in existing else m == rebuilt
  }

  // Where the next stop is still listed, the rebuilt list from it on, with existing markers kept.
  ghost predicate ContinuesAt(existing: seq<Marker>, rebuilt: seq<Marker>, start: int, r: seq<Marker>) {
    && 0 <= start < |rebuilt| && |r| == |rebuilt| - start
    && forall i :: 0 <= i < |r| ==> IsKept(existing, rebuilt[start + i], r[i])
  }

  // Otherwise the existing markers, then rebuilt ones of all ids not among them.
  ghost predicate Extends(existing: seq<Marker>, rebuilt: seq<Marker>, r: seq<Marker>) {
    && existing <= r && IsSelection(SubIds(rebuilt), NewTo(SubIds(existing), ""), SubIds(r[|existing|..]))
    && forall m :: m in r[|existing|..] ==> m in rebuilt
  }

  lemma JoinedMeans(existing: seq<Marker>, rebuilt: seq<Marker>)
    requires existing != [] && rebuilt != []
    ensures var first, r := existing[0].subTaskId, Joined(existing, rebuilt);
      if first != "" && first in SubIds(rebuilt) then ContinuesAt(existing, rebuilt, FirstAt(SubIds(rebuilt), first), r)
      else Extends(existing, rebuilt, r)
  {
    var first := existing[0].subTaskId;
    FirstWithIs(rebuilt, first);
    if first != "" && first in SubIds(rebuilt) {
      TakesKept(existing, rebuilt, FirstAt(SubIds(rebuilt), first));
    } else {
      AppendsNew(existing, rebuilt);
    }
  }

  lemma TakesKept(existing: seq<Marker>, rebuilt: seq<Marker>, start: int)
    requires 0 <= start < |rebuilt|
    ensures ContinuesAt(existing, rebuilt, start, TakeExisting(BySubTask(existing), rebuilt[start..]))
  {
    KeptMarkers(existing);
    var r := TakeExisting(BySubTask(existing), rebuilt[start..]);
    forall i | 0 <= i < |r| ensures IsKept(existing, rebuilt[start + i], r[i]) {
      assert rebuilt[start..][i] == rebuilt[start + i];
    }
  }

  lemma AppendsNew(existing: seq<Marker>, rebuilt: seq<Marker>)
    ensures Extends(existing, rebuilt, AppendNew(existing, BySubTask(existing).Keys, rebuilt))
  {
    KeptMarkers(existing);
    assert existing + [] == existing && [] + rebuilt == rebuilt;
    assert SubIds([]) == [];
    AppendNewExtends(existing, [], [], BySubTask(existing).Keys, rebuilt);
  }

  lemma FirstWithIs(rebuilt: seq<Marker>, sub: string)
    ensures FirstWith(rebuilt, sub) == FirstAt(SubIds(rebuilt), sub)
  {
    var i := FirstWith(rebuilt, sub);
    if i >= 0 {
      FirstAtIs(SubIds(rebuilt), sub, i);
    } else {
      assert forall k :: 0 <= k < |rebuilt| ==> SubIds(rebuilt)[k] != sub;
    }
  }

  // The table of existing markers holds exactly their non-empty ids, each with such a marker.
  lemma {:induction false} KeptMarkers(existing: seq<Marker>)
    ensures forall id :: id in BySubTask(existing) <==> id != "" && id in SubIds(existing)
    ensures forall id :: id in BySubTask(existing) ==>
      BySubTask(existing)[id] in existing && BySubTask(existing)[id].subTaskId == id
  {
    if existing != [] {
      var front, last := existing[..|existing| - 1], existing[|existing| - 1];
      KeptMarkers(front);
      SubIdsOf(front, last);
      assert existing == front + [last];
    }
  }

  // The loop over the rebuilt markers: `done` are behind it, `added` came of them.
  ghost predicate Appending(existing: seq<Marker>, done: seq<Marker>, added: seq<Marker>, known: set<string>) {
    && IsSelection(SubIds(done), NewTo(SubIds(existing), ""), SubIds(added)) && AreAmong(added, done)
    && AreKnown(SubIds(existing), "", SubIds(added), known)
  }

  ghost predicate AreAmong(added: seq<Marker>, done: seq<Marker>) { forall m :: m in added ==> m in done }

  lemma AppendingNext(existing: seq<Marker>, done: seq<Marker>, added: seq<Marker>, known: set<string>, m: Marker)
    requires Appending(existing, done, added, known)
    ensures if m.subTaskId == "" || m.subTaskId in known then Appending(existing, done + [m], added, known)
            else Appending(existing, done + [m], added + [m], known + {m.subTaskId})
  {
    var id := m.subTaskId;
    SubIdsOf(done, m);
    SubIdsOf(added, m);
    SelectionNext(SubIds(done), NewTo(SubIds(existing), ""), SubIds(added), id);
    NewIsUnknown(SubIds(existing), "", SubIds(done), SubIds(added), known, id);
  }

  lemma {:induction false} AppendNewExtends(existing: seq<Marker>, done: seq<Marker>, added: seq<Marker>, known: set<string>,
                                            rest: seq<Marker>)
    requires Appending(existing, done, added, known)
    ensures Extends(existing, done + rest, AppendNew(existing + added, known, rest))
    decreases rest
  {
    if rest == [] {
      assert done + rest == done && (existing + added)[|existing|..] == added;
    } else {
      var m := rest[0];
      AppendingNext(existing, done, added, known, m);
      assert done + [m] + rest[1..] == done + rest;
      if m.subTaskId == "" || m.subTaskId in known {
        AppendNewExtends(existing, done + [m], added, known, rest[1..]);
      } else {
        assert existing + added + [m] == existing + (added + [m]);
        AppendNewExtends(existing, done + [m], added + [m], known + {m.subTaskId}, rest[1..]);
      }
    }
  }

  // ---- reaching stops ----

  // The queue loses exactly the completed tasks.
  lemma {:induction false} WithoutSelects(ts: seq<string>, markers: seq<Marker>, node: int)
    requires NoDuplicates(ts)
    ensures IsSelection(ts, Unfinished(markers, node), Without(ts, markers, node))
  {
    if ts != [] {
      var front, last := ts[..|ts| - 1], ts[|ts| - 1];
      LastOfDistinct(ts, last);
      WithoutSelects(front, markers, node);
      SelectionOfDistinct(ts, Unfinished(markers, node), Without(front, markers, node), Without(ts, markers, node));
    }
  }

  ghost function Unfinished(markers: seq<Marker>, node: int): string -> bool {
    t => !IsCompleted(markers, node, t)
  }

  // Reaching stops pops the markers at that node up to the first elsewhere and takes the tasks
  // completed by that, and no others, out of the device's queue.
  lemma ReachedMeans(s: State, d: string, node: int)
    requires IsOwned(s.owners, s.queues) && d != "" && MarkersOf(s.sticky, d) != []
    ensures var markers, s' := MarkersOf(s.sticky, d), Consume(s, d, node);
      && IsRest(markers, node, MarkersOf(s'.sticky, d))
      && IsSelection(QueueOf(s.queues, d), Unfinished(markers, node), QueueOf(s'.queues, d))
  {
    var markers := s.sticky[d];
    OwnQueue(s.owners, s.queues, d);
    WithoutSelects(QueueOf(s.queues, d), markers, node);
    var k := ReachedCount(markers, node);
    assert markers == markers[..k] + markers[k..];
    if k == 0 {
      assert markers[..0] == [];
      NoneReached(QueueOf(s.queues, d), markers, node);
    } else {
      assert MarkersOf(Consume(s, d, node).sticky, d) == markers[k..];
    }
  }

  lemma {:induction false} NoneReached(ts: seq<string>, markers: seq<Marker>, node: int)
    requires ReachedCount(markers, node) == 0
    ensures Without(ts, markers, node) == ts
  {
    if ts != [] {
      NoneReached(ts[..|ts| - 1], markers, node);
      assert ts == ts[..|ts| - 1] + [ts[|ts| - 1]];
    }
  }

  // What is left after the markers at the node were popped from the front.
  ghost predicate IsRest(markers: seq<Marker>, node: int, rest: seq<Marker>) {
    && |rest| <= |markers| && rest == markers[|markers| - |rest|..]
    && (forall i :: 0 <= i < |markers| - |rest| ==> markers[i].nodeId == node)
    && (rest != [] ==> rest[0].nodeId != node)
  }
}
