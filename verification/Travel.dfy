// Travel seconds between node ids as the allocation repair estimates them without the
// shortest-path updater: Manhattan distance over the global speed, and none across components.
module Travel {
  import opened Util
  import opened MapModel
  import opened Connectivity

  // The loaded map seen by id; `marks` are the union-find roots of the nodes.
  datatype Plane = Plane(
    nodes: seq<Node>,
    id2index: map<int, nat>,
    marks: seq<int>,
    globalMaxSpeed: real)
  {
    predicate Knows(id: int) {
      id in id2index && id2index[id] < |nodes| && id2index[id] < |marks|
    }

    // isConnectedById
    predicate Linked(a: int, b: int) {
      Knows(a) && Knows(b) && marks[id2index[a]] == marks[id2index[b]]
    }

    function Speed(): (v: real)
      ensures v > 0.0
    {
      if globalMaxSpeed > 0.0 then globalMaxSpeed else 1000.0
    }

    function Manhattan(a: int, b: int): (r: real)
      requires Knows(a) && Knows(b)
      ensures r >= 0.0
    {
      var m, n := nodes[id2index[a]], nodes[id2index[b]];
      Abs(m.x - n.x) + Abs(m.y - n.y)
    }

    predicate Finite(a: int, b: int) { a >= 0 && b >= 0 && Linked(a, b) }

    // `sp_seconds_or_approx` and `TravelSecondsGated`; None stands for infinity.
    function Seconds(a: int, b: int): Option<real> {
      if Finite(a, b) then Some(Manhattan(a, b) / Speed()) else None
    }

    // Connectivity is an equivalence on the ids it knows, and the seconds obey the triangle
    // inequality: a detour over b is never shorter.
    lemma Detour(a: int, b: int, c: int)
      requires Finite(a, b) && Finite(b, c)
      ensures Finite(a, c) && Seconds(a, c).value <= Seconds(a, b).value + Seconds(b, c).value
    {
      QuotientTriangle(Manhattan(a, c), Manhattan(a, b), Manhattan(b, c), Speed());
    }

    // The seconds are both coordinate distances over the global speed, or over 1000 without one.
    lemma SecondsMean(a: int, b: int)
      requires Finite(a, b)
      ensures var m, n := nodes[id2index[a]], nodes[id2index[b]];
        var dx, dy := m.x - n.x, m.y - n.y;
        Seconds(a, b).value * (if globalMaxSpeed > 0.0 then globalMaxSpeed else 1000.0)
          == (if dx < 0.0 then -dx else dx) + (if dy < 0.0 then -dy else dy)
    {
      QuotientTimes(Manhattan(a, b), Speed());
    }

    lemma FiniteTransitive(a: int, b: int, c: int)
      requires Finite(a, b) && Finite(b, c)
      ensures Finite(a, c)
    {
    }

    lemma FiniteSymmetric(a: int, b: int)
      ensures Finite(a, b) <==> Finite(b, a)
    {
    }

    lemma SecondsNonNegative(a: int, b: int)
      requires Finite(a, b)
      ensures Seconds(a, b).value >= 0.0
    {
      QuotientTriangle(0.0, Manhattan(a, b), 0.0, Speed());
    }
  }

  lemma QuotientTimes(x: real, v: real)
    requires v > 0.0
    ensures x / v * v == x
  {
  }

  lemma QuotientTriangle(x: real, y: real, z: real, v: real)
    requires x <= y + z && v > 0.0
    ensures x / v <= y / v + z / v
  {
    QuotientMonotone(x, y + z, v);
    assert (y + z) / v == y / v + z / v;
  }

  lemma QuotientMonotone(x: real, y: real, v: real)
    requires x <= y && v > 0.0
    ensures x / v <= y / v
  {
  }

  // With the marks of a loaded map, a finite travel time means undirected reachability over
  // the united edges.
  lemma FiniteMeansConnected(plane: Plane, united: Pairs, a: int, b: int)
    requires Agrees(plane.marks, united) && |plane.marks| == |plane.nodes|
    requires a >= 0 && b >= 0 && plane.Knows(a) && plane.Knows(b)
    ensures plane.Finite(a, b) <==> Connected(united, plane.id2index[a], plane.id2index[b])
  {
    MarksDecide(plane.marks, united, plane.id2index[a], plane.id2index[b]);
  }
}

// Tasks and the node ids they are planned by.
module Tasks {
  datatype SubTask = SubTask(nodeId: int, estimatedDurationMs: int)

  datatype Task = Task(
    subTasks: seq<SubTask>,
    startId: int,
    endId: int,
    priority: int,
    expectedStart: string,
    created: string)

  predicate IsTask(tasks: seq<Task>, t: int) { 0 <= t < |tasks| }

  // The entries that are task indices, in order.
  function TasksIn(tasks: seq<Task>, row: seq<int>): seq<int> {
    if row == [] then []
    else (if IsTask(tasks, row[0]) then [row[0]] else []) + TasksIn(tasks, row[1..])
  }

  datatype Endpoints = Endpoints(start: int, end: int)

  // First and last stop as the repair reads them; ids may be negative.
  function ExtractTaskEndpoints(task: Task): Endpoints {
    var subs := task.subTasks;
    if subs != [] then Endpoints(subs[0].nodeId, subs[|subs| - 1].nodeId) else Endpoints(task.startId, task.endId)
  }

  function ValidStops(subs: seq<SubTask>): (r: seq<int>)
    ensures forall k :: 0 <= k < |r| ==> r[k] >= 0
  {
    if subs == [] then []
    else (if subs[0].nodeId >= 0 then [subs[0].nodeId] else []) + ValidStops(subs[1..])
  }

  function CollectTaskNodes(task: Task): (r: seq<int>)
    ensures forall k :: 0 <= k < |r| ==> r[k] >= 0
  {
    var nodes := ValidStops(task.subTasks);
    if nodes != [] then nodes
    else
      (if task.startId >= 0 then [task.startId] else [])
      + (if task.endId >= 0 && task.endId != task.startId then [task.endId] else [])
  }

  function FirstValid(subs: seq<SubTask>): int {
    if subs == [] then -1 else if subs[0].nodeId >= 0 then subs[0].nodeId else FirstValid(subs[1..])
  }

  function LastValid(subs: seq<SubTask>): int {
    if subs == [] then -1
    else if subs[|subs| - 1].nodeId >= 0 then subs[|subs| - 1].nodeId
    else LastValid(subs[..|subs| - 1])
  }

  function ResolveEndpoints(task: Task): Endpoints {
    var subs := task.subTasks;
    var start := if subs != [] then FirstValid(subs) else task.startId;
    var end := if subs != [] then LastValid(subs) else task.endId;
    Endpoints(start, if end < 0 then start else end)
  }

  function DurationMs(subs: seq<SubTask>): nat {
    if subs == [] then 0
    else (if subs[0].estimatedDurationMs > 0 then subs[0].estimatedDurationMs else 0) + DurationMs(subs[1..])
  }

  function CalcServiceSec(task: Task): (r: real)
    ensures r >= 0.0
  {
    DurationMs(task.subTasks) as real / 1000.0
  }

  // The collected nodes are the valid stops; the declared ends stand in only without any.
  lemma CollectedNodes(task: Task, id: int)
    ensures id in CollectTaskNodes(task) <==>
      (id >= 0 && if exists k :: 0 <= k < |task.subTasks| && task.subTasks[k].nodeId >= 0
                  then exists k :: 0 <= k < |task.subTasks| && task.subTasks[k].nodeId == id
                  else id == task.startId || id == task.endId)
  {
    StopsAreValid(task.subTasks, id);
    var stops := ValidStops(task.subTasks);
    if stops != [] { StopsAreValid(task.subTasks, stops[0]); }
    forall k | 0 <= k < |task.subTasks| && task.subTasks[k].nodeId >= 0 ensures stops != [] {
      StopsAreValid(task.subTasks, task.subTasks[k].nodeId);
    }
  }

  lemma {:induction false} StopsAreValid(subs: seq<SubTask>, id: int)
    ensures id in ValidStops(subs) <==> id >= 0 && exists k :: 0 <= k < |subs| && subs[k].nodeId == id
  {
    if subs != [] {
      StopsAreValid(subs[1..], id);
      if k :| 0 <= k < |subs| && subs[k].nodeId == id { assert k > 0 ==> subs[1..][k - 1] == subs[k]; }
      if k :| 0 <= k < |subs| - 1 && subs[1..][k].nodeId == id { assert subs[k + 1] == subs[1..][k]; }
    }
  }

  // Service time: the positive durations of all stops, in seconds.
  lemma {:induction false} ServiceAddsUp(a: seq<SubTask>, b: seq<SubTask>)
    ensures DurationMs(a + b) == DurationMs(a) + DurationMs(b)
  {
    if a == [] {
      assert a + b == b;
    } else {
      assert (a + b)[1..] == a[1..] + b;
      ServiceAddsUp(a[1..], b);
    }
  }

  lemma ServiceOfOne(task: Task, st: SubTask)
    requires task.subTasks == [st]
    ensures 1000.0 * CalcServiceSec(task) == if st.estimatedDurationMs > 0 then st.estimatedDurationMs as real else 0.0
  {
    assert DurationMs([st][1..]) == 0;
  }

  lemma {:induction false} FirstStop(subs: seq<SubTask>)
    ensures FirstValid(subs) == (if ValidStops(subs) == [] then -1 else ValidStops(subs)[0])
  {
    if subs != [] && subs[0].nodeId < 0 {
      FirstStop(subs[1..]);
    }
  }

  lemma {:induction false} StopsOfConcat(a: seq<SubTask>, b: seq<SubTask>)
    ensures ValidStops(a + b) == ValidStops(a) + ValidStops(b)
  {
    if a == [] {
      assert a + b == b;
    } else {
      assert (a + b)[1..] == a[1..] + b;
      StopsOfConcat(a[1..], b);
    }
  }

  lemma {:induction false} LastStop(subs: seq<SubTask>)
    ensures LastValid(subs) == (if ValidStops(subs) == [] then -1 else ValidStops(subs)[|ValidStops(subs)| - 1])
  {
    if subs != [] {
      var front, last := subs[..|subs| - 1], subs[|subs| - 1..];
      StopsOfConcat(front, last);
      assert front + last == subs;
      assert last[1..] == [];
      LastStop(front);
    }
  }

  // Two readings of a task's ends agree: with a valid first endpoint the collected nodes
  // start and end exactly there.
  lemma EndpointsAreCollected(task: Task)
    requires ResolveEndpoints(task).start >= 0
    ensures var nodes, ends := CollectTaskNodes(task), ResolveEndpoints(task);
      nodes != [] && nodes[0] == ends.start && nodes[|nodes| - 1] == ends.end && ends.end >= 0
  {
    FirstStop(task.subTasks);
    LastStop(task.subTasks);
  }
}
