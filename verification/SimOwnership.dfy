// Task queues and owners of the simulator: what assigning, publishing and reaching stops do,
// first as functions on the state, then as the methods of `SimState`.
module SimSpec {
  import opened Util

  datatype SubTask = SubTask(nodeId: int, subTaskId: string)

  datatype Marker = Marker(nodeId: int, taskId: string, subTaskId: string)

  type Owners = map<string, string>
  type Queues = map<string, seq<string>>
  type Definitions = map<string, seq<SubTask>>
  type Stickies = map<string, seq<Marker>>

  datatype State = State(owners: Owners, queues: Queues, defs: Definitions, sticky: Stickies)

  function QueueOf(queues: Queues, d: string): seq<string> {
    if d in queues then queues[d] else []
  }

  function DefinitionOf(defs: Definitions, t: string): seq<SubTask> {
    if t in defs then defs[t] else []
  }

  // Queue and owner table agree: a task is in a device's queue exactly when the device owns
  // it; queues are non-empty and name no task twice.
  ghost predicate IsOwned(owners: Owners, queues: Queues) {
    && (forall d {:trigger queues[d]} :: d in queues ==> queues[d] != [] && NoDuplicates(queues[d]))
    && (forall d, t {:trigger t in queues[d]} :: d in queues && t in queues[d] ==> t in owners && owners[t] == d)
    && (forall t {:trigger owners[t]} :: t in owners ==> owners[t] in queues && t in queues[owners[t]])
  }

  // ---- assigning ----

  datatype Merge = Merge(owners: Owners, merged: seq<string>)

  // The device's own queue first: tasks without an owner become its own, others' drop out.
  function KeepOwn(owners: Owners, d: string, ts: seq<string>): Merge {
    if ts == [] then Merge(owners, [])
    else
      var m, t := KeepOwn(owners, d, ts[..|ts| - 1]), ts[|ts| - 1];
      var o := if t in m.owners then m.owners else m.owners[t := d];
      Merge(o, if o[t] == d then m.merged + [t] else m.merged)
  }

  // Then the newly assigned tasks: owned elsewhere they are refused.
  function AddNew(m0: Merge, d: string, ts: seq<string>): Merge {
    if ts == [] then m0
    else
      var m, t := AddNew(m0, d, ts[..|ts| - 1]), ts[|ts| - 1];
      if t !in m.owners then Merge(m.owners[t := d], m.merged + [t])
      else if m.owners[t] != d || t in m.merged then m
      else Merge(m.owners, m.merged + [t])
  }

  function MergeFor(owners: Owners, queues: Queues, d: string, ts: seq<string>): Merge {
    AddNew(KeepOwn(owners, d, QueueOf(queues, d)), d, ts)
  }

  function SetQueue(queues: Queues, d: string, queue: seq<string>): Queues {
    if queue != [] then queues[d := queue] else queues - {d}
  }

  // ---- markers ----

  datatype Building = Building(markers: seq<Marker>, lastNode: Option<int>)

  // One marker per stop; a stop at the node of the one before gets none.
  function AddStops(b0: Building, t: string, subs: seq<SubTask>): Building {
    if subs == [] then b0
    else
      var b, st := AddStops(b0, t, subs[..|subs| - 1]), subs[|subs| - 1];
      if b.lastNode == Some(st.nodeId) then b
      else Building(b.markers + [Marker(st.nodeId, t, st.subTaskId)], Some(st.nodeId))
  }

  function AddTasks(defs: Definitions, ts: seq<string>): Building {
    if ts == [] then Building([], None)
    else AddStops(AddTasks(defs, ts[..|ts| - 1]), ts[|ts| - 1], DefinitionOf(defs, ts[|ts| - 1]))
  }

  function BuildMarkers(defs: Definitions, ts: seq<string>): seq<Marker> {
    AddTasks(defs, ts).markers
  }

  // The node at which the last stop of some tasks lies.
  function LastStop(defs: Definitions, ts: seq<string>): Option<int> {
    if ts == [] then None
    else
      var subs := DefinitionOf(defs, ts[|ts| - 1]);
      if subs != [] then Some(subs[|subs| - 1].nodeId) else LastStop(defs, ts[..|ts| - 1])
  }

  predicate LeavesNode(subs: seq<SubTask>, node: Option<int>) {
    exists k :: 0 <= k < |subs| && Some(subs[k].nodeId) != node
  }

  // Stops add markers of their task, and do so unless all lie where the last marker lies.
  lemma {:induction false} AddStopsGrows(b0: Building, t: string, subs: seq<SubTask>)
    ensures var b := AddStops(b0, t, subs);
      && b0.markers <= b.markers
      && (forall i :: |b0.markers| <= i < |b.markers| ==> b.markers[i].taskId == t)
      && b.lastNode == (if subs == [] then b0.lastNode else Some(subs[|subs| - 1].nodeId))
      && (|b0.markers| < |b.markers| <==> LeavesNode(subs, b0.lastNode))
  {
    if subs != [] {
      var front := subs[..|subs| - 1];
      AddStopsGrows(b0, t, front);
      assert subs == front + [subs[|subs| - 1]];
      assert LeavesNode(subs, b0.lastNode) <==>
        LeavesNode(front, b0.lastNode) || Some(subs[|subs| - 1].nodeId) != b0.lastNode;
      if !LeavesNode(front, b0.lastNode) {
        assert front != [] ==> Some(front[|front| - 1].nodeId) == b0.lastNode;
      }
    }
  }

  lemma {:induction false} LastNodeIsLastStop(defs: Definitions, ts: seq<string>)
    ensures AddTasks(defs, ts).lastNode == LastStop(defs, ts)
  {
    if ts != [] {
      LastNodeIsLastStop(defs, ts[..|ts| - 1]);
      AddStopsGrows(AddTasks(defs, ts[..|ts| - 1]), ts[|ts| - 1], DefinitionOf(defs, ts[|ts| - 1]));
    }
  }

  // Some stop of the n-th task lies elsewhere than the last stop before it.
  predicate Shows(defs: Definitions, ts: seq<string>, n: int)
    requires 0 <= n < |ts|
  {
    LeavesNode(DefinitionOf(defs, ts[n]), LastStop(defs, ts[..n]))
  }

  lemma NamesGrow(before: seq<Marker>, markers: seq<Marker>, t: string, x: string)
    requires before <= markers && forall i :: |before| <= i < |markers| ==> markers[i].taskId == t
    ensures Names(markers, x) <==> Names(before, x) || (x == t && |before| < |markers|)
  {
    if Names(before, x) {
      var i :| 0 <= i < |before| && before[i].taskId == x;
      assert markers[i].taskId == x;
    }
    if Names(markers, x) {
      var i :| 0 <= i < |markers| && markers[i].taskId == x;
      assert i < |before| ==> before[i].taskId == x;
    }
    assert |before| < |markers| ==> markers[|before|].taskId == t;
  }

  // Which tasks of a queue get markers.
  lemma {:induction false} MarkedExactly(defs: Definitions, ts: seq<string>, x: string)
    ensures Names(BuildMarkers(defs, ts), x) <==> SomeShows(defs, ts, x)
  {
    if ts != [] {
      var front, t := ts[..|ts| - 1], ts[|ts| - 1];
      MarkedExactly(defs, front, x);
      LastNodeIsLastStop(defs, front);
      AddStopsGrows(AddTasks(defs, front), t, DefinitionOf(defs, t));
      NamesGrow(BuildMarkers(defs, front), BuildMarkers(defs, ts), t, x);
      SomeShowsGrows(defs, ts, x);
    }
  }

  predicate SomeShows(defs: Definitions, ts: seq<string>, x: string) {
    exists n :: 0 <= n < |ts| && ts[n] == x && Shows(defs, ts, n)
  }

  lemma SomeShowsGrows(defs: Definitions, ts: seq<string>, x: string)
    requires ts != []
    ensures var front, t := ts[..|ts| - 1], ts[|ts| - 1];
      SomeShows(defs, ts, x) <==>
        SomeShows(defs, front, x) || (x == t && LeavesNode(DefinitionOf(defs, t), LastStop(defs, front)))
  {
    var front := ts[..|ts| - 1];
    assert forall n :: 0 <= n < |front| ==> front[..n] == ts[..n];
    if n :| 0 <= n < |ts| && ts[n] == x && Shows(defs, ts, n) {
      assert n < |front| ==> front[n] == x && Shows(defs, front, n);
    }
    if n :| 0 <= n < |front| && front[n] == x && Shows(defs, front, n) {
      assert ts[n] == x && Shows(defs, ts, n);
    }
    assert Shows(defs, ts, |front|) <==> LeavesNode(DefinitionOf(defs, ts[|front|]), LastStop(defs, front));
  }

  // A task has a marker exactly when one of its stops lies elsewhere than where the tasks
  // before it end. One that ends where it starts, behind a task ending there too, has none.
  lemma MarkerExactly(defs: Definitions, ts: seq<string>, n: nat)
    requires NoDuplicates(ts) && n < |ts|
    ensures Names(BuildMarkers(defs, ts), ts[n]) <==>
      exists k :: 0 <= k < |DefinitionOf(defs, ts[n])| && Some(DefinitionOf(defs, ts[n])[k].nodeId) != LastStop(defs, ts[..n])
  {
    MarkedExactly(defs, ts, ts[n]);
    assert Shows(defs, ts, n) <==> LeavesNode(DefinitionOf(defs, ts[n]), LastStop(defs, ts[..n]));
  }

  // What has no marker is not completed by reaching stops, whichever are reached.
  lemma HiddenIsNotCompleted(defs: Definitions, ts: seq<string>, n: nat, node: int)
    requires NoDuplicates(ts) && n < |ts| && !Shows(defs, ts, n)
    ensures !IsCompleted(BuildMarkers(defs, ts), node, ts[n])
  {
    MarkedExactly(defs, ts, ts[n]);
    var markers := BuildMarkers(defs, ts);
    var k := ReachedCount(markers, node);
    assert forall i :: 0 <= i < k ==> markers[..k][i] == markers[i];
  }

  lemma OneStop(b0: Building, t: string, st: SubTask)
    ensures AddStops(b0, t, [st]) ==
      if b0.lastNode == Some(st.nodeId) then b0
      else Building(b0.markers + [Marker(st.nodeId, t, st.subTaskId)], Some(st.nodeId))
  {
    assert [st][..0] == [];
    assert AddStops(b0, t, []) == b0;
  }

  lemma MarkersOfOne(defs: Definitions, a: string, st: SubTask)
    requires DefinitionOf(defs, a) == [st]
    ensures BuildMarkers(defs, [a]) == [Marker(st.nodeId, a, st.subTaskId)]
    ensures AddTasks(defs, [a]).lastNode == Some(st.nodeId)
  {
    var none: seq<Marker> := [];
    assert none + [Marker(st.nodeId, a, st.subTaskId)] == [Marker(st.nodeId, a, st.subTaskId)];
    OneStop(Building([], None), a, st);
    assert [a][..0] == [] && AddTasks(defs, []) == Building([], None);
  }

  lemma MarkersOfTwo(defs: Definitions, a: string, b: string, st: SubTask, st2: SubTask)
    requires DefinitionOf(defs, a) == [st] && DefinitionOf(defs, b) == [st2] && st.nodeId == st2.nodeId
    ensures BuildMarkers(defs, [a, b]) == [Marker(st.nodeId, a, st.subTaskId)]
  {
    MarkersOfOne(defs, a, st);
    OneStop(AddTasks(defs, [a]), b, st2);
    assert [a, b][..1] == [a];
  }

  lemma OneReached(m: Marker)
    ensures ReachedCount([m], m.nodeId) == 1
    ensures [m][..1] == [m] && [m][1..] == []
  {
  }

  lemma ReachOne(m: Marker, t: string)
    ensures IsCompleted([m], m.nodeId, t) <==> t != "" && m.taskId == t
  {
    OneReached(m);
    assert [m][0] == m;
  }

  // The markers by sub-task; a later one of the same sub-task wins.
  function BySubTask(existing: seq<Marker>): map<string, Marker> {
    if existing == [] then map[]
    else
      var bySub, m := BySubTask(existing[..|existing| - 1]), existing[|existing| - 1];
      if m.subTaskId != "" then bySub[m.subTaskId := m] else bySub
  }

  function FirstWith(rebuilt: seq<Marker>, sub: string): (i: int)
    ensures i == -1 || (0 <= i < |rebuilt| && rebuilt[i].subTaskId == sub)
    ensures i == -1 ==> forall k :: 0 <= k < |rebuilt| ==> rebuilt[k].subTaskId != sub
    ensures forall k :: 0 <= k < i ==> rebuilt[k].subTaskId != sub
  {
    if rebuilt == [] then -1
    else if rebuilt[0].subTaskId == sub then 0
    else
      var i := FirstWith(rebuilt[1..], sub);
      if i == -1 then -1 else i + 1
  }

  function TakeExisting(bySub: map<string, Marker>, rebuilt: seq<Marker>): (r: seq<Marker>)
    ensures |r| == |rebuilt|
    ensures forall k :: 0 <= k < |r| ==>
      r[k] == if rebuilt[k].subTaskId in bySub then bySub[rebuilt[k].subTaskId] else rebuilt[k]
  {
    seq(|rebuilt|, k requires 0 <= k < |rebuilt| =>
      if rebuilt[k].subTaskId in bySub then bySub[rebuilt[k].subTaskId] else rebuilt[k])
  }

  // Only markers of sub-tasks not seen yet.
  function AppendNew(existing: seq<Marker>, known: set<string>, rebuilt: seq<Marker>): seq<Marker>
    decreases rebuilt
  {
    if rebuilt == [] then existing
    else if rebuilt[0].subTaskId == "" || rebuilt[0].subTaskId in known then AppendNew(existing, known, rebuilt[1..])
    else AppendNew(existing + [rebuilt[0]], known + {rebuilt[0].subTaskId}, rebuilt[1..])
  }

  // Non-empty existing and rebuilt markers joined: from the next stop still to do on.
  function Joined(existing: seq<Marker>, rebuilt: seq<Marker>): seq<Marker>
    requires existing != [] && rebuilt != []
  {
    var bySub, first := BySubTask(existing), existing[0].subTaskId;
    var start := if first != "" then FirstWith(rebuilt, first) else -1;
    if start >= 0 then TakeExisting(bySub, rebuilt[start..]) else AppendNew(existing, bySub.Keys, rebuilt)
  }

  function Synced(sticky: Stickies, d: string, rebuilt: seq<Marker>): Stickies {
    if d == "" || rebuilt == [] then sticky
    else if d !in sticky || sticky[d] == [] then sticky[d := rebuilt]
    else sticky[d := Joined(sticky[d], rebuilt)]
  }

  lemma {:induction false} BySubTaskIs(existing: seq<Marker>)
    ensures forall s :: s in BySubTask(existing) ==> s != "" && BySubTask(existing)[s].subTaskId == s
    ensures forall k :: 0 <= k < |existing| && existing[k].subTaskId != "" ==> existing[k].subTaskId in BySubTask(existing)
  {
    if existing != [] { BySubTaskIs(existing[..|existing| - 1]); }
  }

  lemma {:induction false} AppendNewKeepsPrefix(existing: seq<Marker>, known: set<string>, rebuilt: seq<Marker>)
    ensures existing <= AppendNew(existing, known, rebuilt)
    decreases rebuilt
  {
    if rebuilt != [] {
      if rebuilt[0].subTaskId == "" || rebuilt[0].subTaskId in known {
        AppendNewKeepsPrefix(existing, known, rebuilt[1..]);
      } else {
        AppendNewKeepsPrefix(existing + [rebuilt[0]], known + {rebuilt[0].subTaskId}, rebuilt[1..]);
      }
    }
  }

  // Progress is never lost: the stop to do next is still the next one.
  lemma SyncKeepsProgress(existing: seq<Marker>, rebuilt: seq<Marker>)
    requires existing != [] && rebuilt != []
    ensures Joined(existing, rebuilt) != []
    ensures Joined(existing, rebuilt)[0].subTaskId == existing[0].subTaskId
  {
    BySubTaskIs(existing);
    AppendNewKeepsPrefix(existing, BySubTask(existing).Keys, rebuilt);
  }

  function AssignDevice(s: State, d: string, ts: seq<string>): State {
    var m := MergeFor(s.owners, s.queues, d, ts);
    State(m.owners, SetQueue(s.queues, d, m.merged), s.defs, Synced(s.sticky, d, BuildMarkers(s.defs, m.merged)))
  }

  datatype Entry = Entry(device: string, tasks: seq<string>)

  function NonEmpty(ts: seq<string>): (r: seq<string>)
    ensures forall t :: t in r <==> t in ts && t != ""
  {
    if ts == [] then []
    else
      assert forall t :: t in ts <==> t in ts[..|ts| - 1] || t == ts[|ts| - 1];
      NonEmpty(ts[..|ts| - 1]) + (if ts[|ts| - 1] != "" then [ts[|ts| - 1]] else [])
  }

  function IndexOfDevice(entries: seq<Entry>, d: string): (i: int)
    ensures i == -1 || (0 <= i < |entries| && entries[i].device == d)
    ensures i == -1 ==> forall k :: 0 <= k < |entries| ==> entries[k].device != d
  {
    if entries == [] then -1
    else if entries[|entries| - 1].device == d then |entries| - 1
    else IndexOfDevice(entries[..|entries| - 1], d)
  }

  // The payload's entries by device: unnamed devices and empty lists drop out, a later list
  // replaces an earlier one in its place.
  function Collected(payload: seq<Entry>): (r: seq<Entry>)
    ensures forall i, j :: 0 <= i < j < |r| ==> r[i].device != r[j].device
    ensures forall i :: 0 <= i < |r| ==> r[i].device != "" && r[i].tasks != []
  {
    if payload == [] then []
    else
      var before, e := Collected(payload[..|payload| - 1]), payload[|payload| - 1];
      var ts := NonEmpty(e.tasks);
      if e.device == "" || ts == [] then before
      else
        var i := IndexOfDevice(before, e.device);
        if i >= 0 then before[i := Entry(e.device, ts)] else before + [Entry(e.device, ts)]
  }

  function AssignAll(s: State, entries: seq<Entry>): State {
    if entries == [] then s
    else
      var e := entries[|entries| - 1];
      AssignDevice(AssignAll(s, entries[..|entries| - 1]), e.device, e.tasks)
  }

  // ---- reaching stops ----

  function ReachedCount(markers: seq<Marker>, node: int): (k: nat)
    ensures k <= |markers| && (forall i :: 0 <= i < k ==> markers[i].nodeId == node)
    ensures k < |markers| ==> markers[k].nodeId != node
  {
    if markers == [] || markers[0].nodeId != node then 0 else 1 + ReachedCount(markers[1..], node)
  }

  predicate Names(markers: seq<Marker>, t: string) {
    exists i :: 0 <= i < |markers| && markers[i].taskId == t
  }

  // The task had a marker among the reached ones and has none left.
  predicate IsCompleted(markers: seq<Marker>, node: int, t: string) {
    var k := ReachedCount(markers, node);
    t != "" && Names(markers[..k], t) && !Names(markers[k..], t)
  }

  function Without(ts: seq<string>, markers: seq<Marker>, node: int): seq<string> {
    if ts == [] then []
    else Without(ts[..|ts| - 1], markers, node) + (if IsCompleted(markers, node, ts[|ts| - 1]) then [] else [ts[|ts| - 1]])
  }

  function Released(owners: Owners, d: string, markers: seq<Marker>, node: int): Owners {
    map t | t in owners && !(owners[t] == d && IsCompleted(markers, node, t)) :: owners[t]
  }

  function Consume(s: State, d: string, node: int): State {
    if d == "" || d !in s.sticky || ReachedCount(s.sticky[d], node) == 0 then s
    else
      var markers := s.sticky[d];
      var rest := markers[ReachedCount(markers, node)..];
      State(
        Released(s.owners, d, markers, node),
        if d in s.queues then SetQueue(s.queues, d, Without(s.queues[d], markers, node)) else s.queues,
        s.defs,
        if rest != [] then s.sticky[d := rest] else s.sticky - {d})
  }

  // ---- publishing ----

  predicate IsFixed(defs: Definitions, owners: Owners, t: string) {
    DefinitionOf(defs, t) != [] && t in owners
  }

  // An owned task that has stops keeps its definition.
  function Publish(defs: Definitions, owners: Owners, news: Definitions): Definitions {
    defs + map t | t in news && !IsFixed(defs, owners, t) :: news[t]
  }

  lemma PublishOne(defs: Definitions, owners: Owners, news: Definitions, t: string, subs: seq<SubTask>)
    requires t !in news
    ensures IsFixed(Publish(defs, owners, news), owners, t) <==> IsFixed(defs, owners, t)
    ensures Publish(defs, owners, news[t := subs]) ==
      if IsFixed(defs, owners, t) then Publish(defs, owners, news) else Publish(defs, owners, news)[t := subs]
  {
  }

  // Every device with a queue gets its markers brought up to date, in some order of devices.
  function SyncAll(sticky: Stickies, defs: Definitions, queues: Queues, order: seq<string>): Stickies {
    if order == [] then sticky
    else
      var d := order[|order| - 1];
      Synced(SyncAll(sticky, defs, queues, order[..|order| - 1]), d, BuildMarkers(defs, QueueOf(queues, d)))
  }

  function PublishTasks(s: State, news: Definitions, order: seq<string>): State {
    var defs := Publish(s.defs, s.owners, news);
    State(s.owners, s.queues, defs, SyncAll(s.sticky, defs, s.queues, order))
  }

  datatype Event =
    | Assign(entries: seq<Entry>)
    | Publishing(news: Definitions, order: seq<string>)
    | Reach(device: string, node: int)

  function Apply(s: State, e: Event): State {
    match e
    case Assign(entries) => AssignAll(s, entries)
    case Publishing(news, order) => PublishTasks(s, news, order)
    case Reach(d, node) => Consume(s, d, node)
  }

  // Two tasks with one stop each, at one node, queued on a device whose markers are fresh.
  ghost predicate SharedStop(s: State, d: string, a: string, b: string, st: SubTask, st2: SubTask) {
    && d != "" && a != "" && b != "" && a != b && st.nodeId == st2.nodeId
    && DefinitionOf(s.defs, a) == [st] && DefinitionOf(s.defs, b) == [st2]
    && a in s.owners && s.owners[a] == d && b in s.owners && s.owners[b] == d
    && d in s.queues && s.queues[d] == [a, b]
    && d in s.sticky && s.sticky[d] == BuildMarkers(s.defs, [a, b])
  }

  lemma WithoutFirst(a: string, b: string, m: Marker)
    requires a != b && m.taskId == a && a != ""
    ensures Without([a, b], [m], m.nodeId) == [b]
    ensures Without([a], [m], m.nodeId) == []
  {
    ReachOne(m, a);
    ReachOne(m, b);
    assert [a, b][..1] == [a] && [a][..0] == [];
    assert Without([], [m], m.nodeId) == [];
  }

  lemma ConsumeOnly(s: State, d: string, m: Marker)
    requires d != "" && d in s.sticky && s.sticky[d] == [m]
    ensures Consume(s, d, m.nodeId) == State(
      Released(s.owners, d, [m], m.nodeId),
      if d in s.queues then SetQueue(s.queues, d, Without(s.queues[d], [m], m.nodeId)) else s.queues,
      s.defs, s.sticky - {d})
  {
    OneReached(m);
  }

  // Reaching that node completes the first task alone; the second has no marker until the
  // device's markers are next built, and only then does reaching the node complete it.
  lemma SharedStopHidesTask(s: State, d: string, a: string, b: string, st: SubTask, st2: SubTask)
    requires SharedStop(s, d, a, b, st, st2)
    ensures !Names(s.sticky[d], b)
    ensures var s1 := Consume(s, d, st.nodeId);
      && a !in s1.owners && b in s1.owners && d in s1.queues && s1.queues[d] == [b] && d !in s1.sticky
      && Consume(s1, d, st.nodeId) == s1
    ensures var s2 := PublishTasks(Consume(s, d, st.nodeId), map[], [d]);
      && d in s2.sticky && s2.sticky[d] == [Marker(st.nodeId, b, st2.subTaskId)]
      && b !in Consume(s2, d, st.nodeId).owners && d !in Consume(s2, d, st.nodeId).queues
  {
    var m, m2 := Marker(st.nodeId, a, st.subTaskId), Marker(st.nodeId, b, st2.subTaskId);
    var s1 := Consume(s, d, st.nodeId);
    MarkersOfTwo(s.defs, a, b, st, st2);
    ReachOne(m, a);
    ReachOne(m, b);
    ConsumeOnly(s, d, m);
    WithoutFirst(a, b, m);
    PublishesOne(s1, d, b, st2);
    var s2 := PublishTasks(s1, map[], [d]);
    ReachOne(m2, b);
    ConsumeOnly(s2, d, m2);
    WithoutFirst(b, a, m2);
  }

  lemma PublishesOne(s: State, d: string, b: string, st: SubTask)
    requires d != "" && d in s.queues && s.queues[d] == [b] && DefinitionOf(s.defs, b) == [st] && d !in s.sticky
    ensures PublishTasks(s, map[], [d]) ==
      State(s.owners, s.queues, s.defs, s.sticky[d := [Marker(st.nodeId, b, st.subTaskId)]])
  {
    MarkersOfOne(s.defs, b, st);
    assert Publish(s.defs, s.owners, map[]) == s.defs;
    assert [d][..0] == [] && SyncAll(s.sticky, s.defs, s.queues, []) == s.sticky;
  }

  // ---- what every event keeps ----

  lemma {:induction false} KeepOwnKeepsAll(owners: Owners, d: string, ts: seq<string>)
    requires forall t :: t in ts ==> t in owners && owners[t] == d
    ensures KeepOwn(owners, d, ts) == Merge(owners, ts)
  {
    if ts != [] {
      assert ts == ts[..|ts| - 1] + [ts[|ts| - 1]];
      KeepOwnKeepsAll(owners, d, ts[..|ts| - 1]);
    }
  }

  // What adding new tasks keeps: owners only grow, by tasks of this device that join its queue.
  ghost predicate IsMerged(owners: Owners, d: string, queue: seq<string>, m: Merge) {
    && NoDuplicates(m.merged) && queue <= m.merged
    && (forall t {:trigger m.owners[t]} {:trigger owners[t]} :: t in owners ==> t in m.owners && m.owners[t] == owners[t])
    && (forall t {:trigger m.owners[t]} :: t in m.owners ==> t in owners || m.owners[t] == d)
    && (forall t {:trigger t in m.merged} :: t in m.merged <==> t in m.owners && m.owners[t] == d)
  }

  lemma {:induction false} AddNewIsMerged(owners: Owners, d: string, queue: seq<string>, ts: seq<string>)
    requires NoDuplicates(queue) && forall t {:trigger t in queue} :: t in queue <==> t in owners && owners[t] == d
    ensures IsMerged(owners, d, queue, AddNew(Merge(owners, queue), d, ts))
  {
    if ts != [] {
      AddNewIsMerged(owners, d, queue, ts[..|ts| - 1]);
      var m, t := AddNew(Merge(owners, queue), d, ts[..|ts| - 1]), ts[|ts| - 1];
      if t !in m.owners {
        assert t !in m.merged;
      }
    }
  }

  lemma MergeForIs(owners: Owners, queues: Queues, d: string, ts: seq<string>)
    requires IsOwned(owners, queues)
    ensures IsMerged(owners, d, QueueOf(queues, d), MergeFor(owners, queues, d, ts))
  {
    KeepOwnKeepsAll(owners, d, QueueOf(queues, d));
    AddNewIsMerged(owners, d, QueueOf(queues, d), ts);
  }

  lemma MergedIsOwned(owners: Owners, queues: Queues, d: string, m: Merge)
    requires IsOwned(owners, queues) && IsMerged(owners, d, QueueOf(queues, d), m)
    ensures IsOwned(m.owners, SetQueue(queues, d, m.merged))
  {
    var queues' := SetQueue(queues, d, m.merged);
    forall e {:trigger queues'[e]} | e in queues' ensures queues'[e] != [] && NoDuplicates(queues'[e]) {
      if e != d { assert e in queues && queues'[e] == queues[e]; }
    }
    forall e, t {:trigger t in queues'[e]} | e in queues' && t in queues'[e] ensures t in m.owners && m.owners[t] == e {
      if e == d {
        assert t in m.merged;
      } else {
        assert e in queues && queues'[e] == queues[e] && t in queues[e];
        assert t in owners && owners[t] == e;
      }
    }
    forall t {:trigger m.owners[t]} | t in m.owners ensures m.owners[t] in queues' && t in queues'[m.owners[t]] {
      if m.owners[t] == d {
        assert t in m.merged;
      } else {
        assert t in owners && owners[t] == m.owners[t];
        assert owners[t] in queues && t in queues[owners[t]];
        assert owners[t] in queues' && queues'[owners[t]] == queues[owners[t]];
      }
    }
  }

  lemma AssignDeviceKeepsOwned(s: State, d: string, ts: seq<string>)
    requires IsOwned(s.owners, s.queues)
    ensures IsOwned(AssignDevice(s, d, ts).owners, AssignDevice(s, d, ts).queues)
    ensures forall t {:trigger AssignDevice(s, d, ts).owners[t]} :: t in s.owners ==>
      t in AssignDevice(s, d, ts).owners && AssignDevice(s, d, ts).owners[t] == s.owners[t]
  {
    MergeForIs(s.owners, s.queues, d, ts);
    MergedIsOwned(s.owners, s.queues, d, MergeFor(s.owners, s.queues, d, ts));
  }

  lemma {:induction false} AssignAllKeepsOwned(s: State, entries: seq<Entry>)
    requires IsOwned(s.owners, s.queues)
    ensures IsOwned(AssignAll(s, entries).owners, AssignAll(s, entries).queues)
    ensures forall t {:trigger AssignAll(s, entries).owners[t]} :: t in s.owners ==>
      t in AssignAll(s, entries).owners && AssignAll(s, entries).owners[t] == s.owners[t]
  {
    if entries != [] {
      var before, e := AssignAll(s, entries[..|entries| - 1]), entries[|entries| - 1];
      AssignAllKeepsOwned(s, entries[..|entries| - 1]);
      AssignDeviceKeepsOwned(before, e.device, e.tasks);
      forall t | t in s.owners
        ensures t in AssignDevice(before, e.device, e.tasks).owners
          && AssignDevice(before, e.device, e.tasks).owners[t] == s.owners[t]
      {
        assert before.owners[t] == s.owners[t];
      }
    }
  }

  lemma {:induction false} WithoutIs(ts: seq<string>, markers: seq<Marker>, node: int)
    ensures forall t :: t in Without(ts, markers, node) <==> t in ts && !IsCompleted(markers, node, t)
    ensures NoDuplicates(ts) ==> NoDuplicates(Without(ts, markers, node))
  {
    if ts != [] {
      var front, last := ts[..|ts| - 1], ts[|ts| - 1];
      WithoutIs(front, markers, node);
      assert forall t :: t in ts <==> t in front || t == last;
    }
  }

  lemma ConsumeKeepsOwned(s: State, d: string, node: int)
    requires IsOwned(s.owners, s.queues)
    ensures IsOwned(Consume(s, d, node).owners, Consume(s, d, node).queues)
  {
    if d != "" && d in s.sticky && ReachedCount(s.sticky[d], node) > 0 {
      var markers, after := s.sticky[d], Consume(s, d, node);
      if d in s.queues {
        WithoutIs(s.queues[d], markers, node);
      }
      forall t | t in after.owners ensures after.owners[t] in after.queues && t in after.queues[after.owners[t]] {
        assert s.owners[t] in s.queues && t in s.queues[s.owners[t]];
      }
    }
  }

  // Queue and owner table agree after every event.
  lemma ApplyKeepsOwned(s: State, e: Event)
    requires IsOwned(s.owners, s.queues)
    ensures IsOwned(Apply(s, e).owners, Apply(s, e).queues)
  {
    match e
    case Assign(entries) => AssignAllKeepsOwned(s, entries);
    case Publishing(news, order) =>
    case Reach(d, node) => ConsumeKeepsOwned(s, d, node);
  }

  // The event completes the task on the device that owns it.
  predicate Completes(s: State, e: Event, t: string) {
    e.Reach? && e.device != "" && e.device in s.sticky && t in s.owners && s.owners[t] == e.device
    && IsCompleted(s.sticky[e.device], e.node, t)
  }

  // An owned task keeps its owner, except that completing it frees it.
  lemma OwnerStays(s: State, e: Event, t: string)
    requires IsOwned(s.owners, s.queues) && t in s.owners
    ensures t in Apply(s, e).owners <==> !Completes(s, e, t)
    ensures t in Apply(s, e).owners ==> Apply(s, e).owners[t] == s.owners[t]
  {
    match e
    case Assign(entries) =>
      AssignAllKeepsOwned(s, entries);
      assert Apply(s, e) == AssignAll(s, entries) && AssignAll(s, entries).owners[t] == s.owners[t];
    case Publishing(news, order) => assert Apply(s, e).owners == s.owners;
    case Reach(d, node) =>
      if d in s.sticky && IsCompleted(s.sticky[d], node, t) {
        assert ReachedCount(s.sticky[d], node) > 0;
      }
  }

  lemma {:induction false} AssignKeepsDefinitions(s: State, entries: seq<Entry>)
    ensures AssignAll(s, entries).defs == s.defs
  {
    if entries != [] { AssignKeepsDefinitions(s, entries[..|entries| - 1]); }
  }

  // The definition of an owned task that has stops never changes.
  lemma DefinitionStays(s: State, e: Event, t: string)
    requires t in s.owners && DefinitionOf(s.defs, t) != []
    ensures DefinitionOf(Apply(s, e).defs, t) == DefinitionOf(s.defs, t)
  {
    match e
    case Assign(entries) => AssignKeepsDefinitions(s, entries);
    case Publishing(news, order) =>
    case Reach(d, node) =>
  }

  // ---- runs ----

  ghost predicate IsRun(states: seq<State>, events: seq<Event>) {
    && |states| == |events| + 1
    && states[0].owners == map[] && states[0].queues == map[]
    && forall i {:trigger events[i]} :: 0 <= i < |events| ==> states[i + 1] == Apply(states[i], events[i])
  }

  lemma {:induction false} RunIsOwned(states: seq<State>, events: seq<Event>, n: nat)
    requires IsRun(states, events) && n < |states|
    ensures IsOwned(states[n].owners, states[n].queues)
  {
    if n > 0 {
      RunIsOwned(states, events, n - 1);
      assert states[n - 1 + 1] == Apply(states[n - 1], events[n - 1]);
      ApplyKeepsOwned(states[n - 1], events[n - 1]);
    }
  }

  // No task stands in two queues or twice in one.
  lemma QueuesAreDisjoint(owners: Owners, queues: Queues, d: string, e: string, i: nat, j: nat)
    requires IsOwned(owners, queues) && d in queues && e in queues && i < |queues[d]| && j < |queues[e]|
    requires queues[d][i] == queues[e][j]
    ensures d == e && i == j
  {
    var t := queues[d][i];
    assert t in queues[d] && t in queues[e];
    assert owners[t] == d && owners[t] == e;
  }

  // In any run a task moves to another device only after its owner completed it in between.
  lemma {:induction false} MovedOnlyAfterCompletion(states: seq<State>, events: seq<Event>, t: string, i: nat, j: nat) returns (k: nat)
    requires IsRun(states, events) && i <= j < |states|
    requires t in states[i].owners && (t in states[j].owners ==> states[j].owners[t] != states[i].owners[t])
    ensures i <= k < j && Completes(states[k], events[k], t) && events[k].device == states[i].owners[t]
    decreases j - i
  {
    RunIsOwned(states, events, i);
    assert states[i + 1] == Apply(states[i], events[i]);
    OwnerStays(states[i], events[i], t);
    if Completes(states[i], events[i], t) {
      k := i;
    } else {
      k := MovedOnlyAfterCompletion(states, events, t, i + 1, j);
    }
  }

  // While a task stays owned, its stops stay as they are.
  lemma {:induction false} OwnedDefinitionsStay(states: seq<State>, events: seq<Event>, t: string, i: nat, j: nat)
    requires IsRun(states, events) && i <= j < |states|
    requires DefinitionOf(states[i].defs, t) != [] && forall k {:trigger states[k]} :: i <= k < j ==> t in states[k].owners
    ensures DefinitionOf(states[j].defs, t) == DefinitionOf(states[i].defs, t)
    decreases j
  {
    if i < j {
      OwnedDefinitionsStay(states, events, t, i, j - 1);
      assert states[j - 1 + 1] == Apply(states[j - 1], events[j - 1]);
      DefinitionStays(states[j - 1], events[j - 1], t);
    }
  }
}

// The simulator's state and its three entry points, each proved against the functions above.
module SimState {
  import opened Util
  import opened SimSpec
  import opened SimMeaning

  class SimState {
    var owners: Owners
    var queues: Queues
    var defs: Definitions
    var sticky: Stickies

    ghost function Now(): State
      reads this
    {
      State(owners, queues, defs, sticky)
    }

    ghost predicate Valid()
      reads this
    {
      IsOwned(owners, queues)
    }

    constructor ()
      ensures Valid() && Now() == State(map[], map[], map[], map[])
    {
      owners, queues, defs, sticky := map[], map[], map[], map[];
    }

    method BuildMarkersFor(taskIds: seq<string>) returns (markers: seq<Marker>)
      ensures markers == BuildMarkers(defs, taskIds)
    {
      markers := [];
      var lastNode: Option<int> := None;
      for i := 0 to |taskIds|
        invariant Building(markers, lastNode) == AddTasks(defs, taskIds[..i])
      {
        var subs := DefinitionOf(defs, taskIds[i]);
        ghost var before := Building(markers, lastNode);
        for k := 0 to |subs|
          invariant Building(markers, lastNode) == AddStops(before, taskIds[i], subs[..k])
        {
          assert subs[..k + 1][..k] == subs[..k];
          if lastNode != Some(subs[k].nodeId) {
            lastNode := Some(subs[k].nodeId);
            markers := markers + [Marker(subs[k].nodeId, taskIds[i], subs[k].subTaskId)];
          }
        }
        assert subs[..|subs|] == subs;
        assert taskIds[..i + 1][..i] == taskIds[..i];
      }
      assert taskIds[..|taskIds|] == taskIds;
    }

    method SyncStickyMarkers(d: string, rebuilt: seq<Marker>)
      modifies this`sticky
      ensures sticky == Synced(old(sticky), d, rebuilt)
    {
      if d == "" { return; }
      if d !in sticky || sticky[d] == [] {
        if rebuilt != [] { sticky := sticky[d := rebuilt]; }
        return;
      }
      if rebuilt == [] { return; }
      var joined := JoinMarkers(sticky[d], rebuilt);
      sticky := sticky[d := joined];
    }

    method JoinMarkers(existing: seq<Marker>, rebuilt: seq<Marker>) returns (joined: seq<Marker>)
      requires existing != [] && rebuilt != []
      ensures joined == Joined(existing, rebuilt)
    {
      var bySub: map<string, Marker> := map[];
      for i := 0 to |existing|
        invariant bySub == BySubTask(existing[..i])
      {
        assert existing[..i + 1][..i] == existing[..i];
        if existing[i].subTaskId != "" { bySub := bySub[existing[i].subTaskId := existing[i]]; }
      }
      assert existing[..|existing|] == existing;
      var first := existing[0].subTaskId;
      var start := if first != "" then FirstWith(rebuilt, first) else -1;
      if start >= 0 { return TakeExisting(bySub, rebuilt[start..]); }
      joined := existing;
      var known := bySub.Keys;
      for i := 0 to |rebuilt|
        invariant AppendNew(joined, known, rebuilt[i..]) == AppendNew(existing, bySub.Keys, rebuilt)
      {
        assert rebuilt[i..][0] == rebuilt[i] && rebuilt[i..][1..] == rebuilt[i + 1..];
        var sub := rebuilt[i].subTaskId;
        if sub != "" && sub !in known {
          known := known + {sub};
          joined := joined + [rebuilt[i]];
        }
      }
    }

    // The device's merged queue, with the owners it gains.
    method MergeQueue(d: string, ts: seq<string>) returns (merged: seq<string>)
      modifies this`owners
      ensures Merge(owners, merged) == MergeFor(old(owners), queues, d, ts)
    {
      var existing := QueueOf(queues, d);
      merged := [];
      for i := 0 to |existing|
        invariant Merge(owners, merged) == KeepOwn(old(owners), d, existing[..i])
      {
        assert existing[..i + 1][..i] == existing[..i];
        if existing[i] !in owners { owners := owners[existing[i] := d]; }
        if owners[existing[i]] == d { merged := merged + [existing[i]]; }
      }
      assert existing[..|existing|] == existing;
      ghost var kept := Merge(owners, merged);
      for i := 0 to |ts|
        invariant Merge(owners, merged) == AddNew(kept, d, ts[..i])
      {
        assert ts[..i + 1][..i] == ts[..i];
        if ts[i] !in owners {
          owners := owners[ts[i] := d];
          merged := merged + [ts[i]];
        } else if owners[ts[i]] == d && ts[i] !in merged {
          merged := merged + [ts[i]];
        }
      }
      assert ts[..|ts|] == ts;
    }

    method AssignTo(d: string, ts: seq<string>)
      modifies this`owners, this`queues, this`sticky
      ensures Now() == AssignDevice(old(Now()), d, ts)
    {
      var merged := MergeQueue(d, ts);
      if merged != [] { queues := queues[d := merged]; } else { queues := queues - {d}; }
      var rebuilt := BuildMarkersFor(merged);
      SyncStickyMarkers(d, rebuilt);
    }

    method AssignEach(entries: seq<Entry>)
      modifies this`owners, this`queues, this`sticky
      ensures Now() == AssignAll(old(Now()), entries)
    {
      for i := 0 to |entries|
        invariant Now() == AssignAll(old(Now()), entries[..i])
      {
        assert entries[..i + 1][..i] == entries[..i];
        AssignTo(entries[i].device, entries[i].tasks);
      }
      assert entries[..|entries|] == entries;
    }

    method SetAssignmentResponse(payload: seq<Entry>)
      requires Valid()
      modifies this
      ensures Valid() && Now() == Apply(old(Now()), Assign(Collected(payload)))
      ensures IsCollected(payload, Collected(payload)) && Assigned(old(Now()), Collected(payload), Now())
    {
      CollectedMeans(payload);
      AssignmentMeans(Now(), Collected(payload));
      ApplyKeepsOwned(Now(), Assign(Collected(payload)));
      AssignEach(Collected(payload));
    }

    // Merges definitions, then brings the markers of every device with a queue up to date.
    method SetTasksPayload(news: Definitions) returns (ghost order: seq<string>)
      requires Valid()
      modifies this
      ensures Valid() && Now() == Apply(old(Now()), Publishing(news, order))
      ensures NoDuplicates(order) && forall d :: d in order <==> d in queues
    {
      MergeDefinitions(news);
      order := [];
      var left := queues.Keys;
      while left != {}
        invariant owners == old(owners) && queues == old(queues) && defs == Publish(old(defs), owners, news)
        invariant sticky == SyncAll(old(sticky), defs, queues, order)
        invariant NoDuplicates(order) && forall d :: d in order <==> d in queues && d !in left
        decreases left
      {
        var d := Pick(left);
        var rebuilt := BuildMarkersFor(queues[d]);
        SyncStickyMarkers(d, rebuilt);
        assert (order + [d])[..|order|] == order;
        order, left := order + [d], left - {d};
      }
    }

    method MergeDefinitions(news: Definitions)
      modifies this`defs
      ensures defs == Publish(old(defs), owners, news)
    {
      var left := news.Keys;
      ghost var done: Definitions := map[];
      while left != {}
        invariant defs == Publish(old(defs), owners, done)
        invariant forall t :: t in left <==> t in news && t !in done
        invariant forall t :: t in done ==> t in news && done[t] == news[t]
        decreases left
      {
        var t := Pick(left);
        PublishOne(old(defs), owners, done, t, news[t]);
        if !IsFixed(defs, owners, t) { defs := defs[t := news[t]]; }
        left, done := left - {t}, done[t := news[t]];
      }
      if done != news { var t := MapDifference(done, news); }
    }

    method PopReached(markers: seq<Marker>, cur: int) returns (rest: seq<Marker>)
      ensures rest == markers[ReachedCount(markers, cur)..]
    {
      rest := markers;
      ghost var k := 0;
      while rest != [] && rest[0].nodeId == cur
        invariant 0 <= k <= |markers| && rest == markers[k..]
        invariant ReachedCount(markers, cur) == k + ReachedCount(rest, cur)
        decreases |rest|
      {
        rest, k := rest[1..], k + 1;
      }
    }

    // Pops the markers at the current node and frees the tasks completed by that.
    method ConsumeReachedSubtasks(d: string, node: Option<int>, near: bool)
      requires Valid()
      modifies this
      ensures Valid()
      ensures Now() == if node.None? || !near then old(Now()) else Apply(old(Now()), Reach(d, node.value))
    {
      if d == "" || d !in sticky || node.None? || !near { return; }
      var markers, cur := sticky[d], node.value;
      var rest := PopReached(markers, cur);
      if |rest| == |markers| { return; }
      ConsumeKeepsOwned(Now(), d, cur);
      if d in queues {
        queues := SetQueue(queues, d, Without(queues[d], markers, cur));
      }
      owners := Released(owners, d, markers, cur);
      if rest == [] { sticky := sticky - {d}; } else { sticky := sticky[d := rest]; }
    }
  }
}
