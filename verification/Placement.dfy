// Putting a task into one of several rows at the place of least added cost, and counting
// the tasks in rows.
module Placement {
  import opened Util

  type Rows = seq<seq<int>>

  // Every row's entries, with multiplicity.
  ghost function Tally(rows: Rows): multiset<int> {
    if rows == [] then multiset{} else Tally(rows[..|rows| - 1]) + multiset(rows[|rows| - 1])
  }

  lemma AddToBoth<T>(a: multiset<T>, b: multiset<T>, c: multiset<T>, d: multiset<T>, e: multiset<T>)
    requires a + b == c + d
    ensures (a + e) + b == (c + e) + d
  {
    assert (a + e) + b == (a + b) + e;
    assert (c + d) + e == (c + e) + d;
  }

  lemma {:induction false} TallyOfUpdate(rows: Rows, i: nat, row: seq<int>)
    requires i < |rows|
    ensures Tally(rows[i := row]) + multiset(rows[i]) == Tally(rows) + multiset(row)
  {
    var n := |rows| - 1;
    if i < n {
      TallyOfUpdate(rows[..n], i, row);
      var after := rows[i := row];
      assert after[..n] == rows[..n][i := row] && after[n] == rows[n];
      AddToBoth(Tally(rows[..n][i := row]), multiset(rows[i]), Tally(rows[..n]), multiset(row), multiset(rows[n]));
    } else {
      assert rows[i := row][..n] == rows[..n];
    }
  }

  lemma {:induction false} TallyOfConcat(a: Rows, b: Rows)
    ensures Tally(a + b) == Tally(a) + Tally(b)
  {
    if b == [] {
      assert a + b == a;
    } else {
      assert (a + b)[..|a + b| - 1] == a + b[..|b| - 1];
      TallyOfConcat(a, b[..|b| - 1]);
    }
  }

  lemma {:induction false} InTally(rows: Rows, x: int)
    ensures x in Tally(rows) <==> exists i :: 0 <= i < |rows| && x in rows[i]
  {
    if rows != [] {
      var front := rows[..|rows| - 1];
      InTally(front, x);
      if i :| 0 <= i < |rows| && x in rows[i] {
        assert i < |front| ==> x in front[i];
      }
      if x in Tally(front) {
        var i :| 0 <= i < |front| && x in front[i];
        assert x in rows[i];
      }
    }
  }

  function Flatten(rows: Rows): seq<int> {
    if rows == [] then [] else Flatten(rows[..|rows| - 1]) + rows[|rows| - 1]
  }

  lemma {:induction false} FlattenTally(rows: Rows)
    ensures multiset(Flatten(rows)) == Tally(rows)
  {
    if rows != [] { FlattenTally(rows[..|rows| - 1]); }
  }

  lemma InFlatten(rows: Rows, x: int)
    ensures x in Flatten(rows) <==> exists i :: 0 <= i < |rows| && x in rows[i]
  {
    FlattenTally(rows);
    InTally(rows, x);
    assert x in Flatten(rows) <==> x in multiset(Flatten(rows));
  }

  lemma {:induction false} FlattenEmptyTail(rows: Rows, n: nat)
    requires n <= |rows| && forall i :: n <= i < |rows| ==> rows[i] == []
    ensures Flatten(rows) == Flatten(rows[..n])
  {
    if n < |rows| {
      var front := rows[..|rows| - 1];
      FlattenEmptyTail(front, n);
      assert front[..n] == rows[..n];
    } else {
      assert rows[..n] == rows;
    }
  }

  // Rows that split entry by entry split in total.
  lemma {:induction false} TallySplit(a: Rows, b: Rows, c: Rows)
    requires |a| == |b| == |c|
    requires forall i :: 0 <= i < |a| ==> multiset(a[i]) + multiset(b[i]) == multiset(c[i])
    ensures Tally(a) + Tally(b) == Tally(c)
  {
    if a != [] {
      var n := |a| - 1;
      TallySplit(a[..n], b[..n], c[..n]);
      assert multiset(a[n]) + multiset(b[n]) == multiset(c[n]);
      SumOfSplits(Tally(a[..n]), Tally(b[..n]), Tally(c[..n]), multiset(a[n]), multiset(b[n]), multiset(c[n]));
    }
  }

  lemma SumOfSplits<T>(a: multiset<T>, b: multiset<T>, c: multiset<T>, x: multiset<T>, y: multiset<T>, z: multiset<T>)
    requires a + b == c && x + y == z
    ensures (a + x) + (b + y) == c + z
  {
    assert (a + x) + (b + y) == (a + b) + (x + y);
  }

  lemma CountMeansIn<T>(s: seq<T>, x: T)
    ensures multiset(s)[x] > 0 <==> x in s
  {
    assert x in s <==> x in multiset(s);
  }

  lemma {:induction false} AscendingCounts(s: seq<int>, x: int)
    requires StrictlyAscending(s)
    ensures multiset(s)[x] == if x in s then 1 else 0
  {
    if s != [] {
      AscendingCounts(s[1..], x);
      assert s == [s[0]] + s[1..];
    }
  }

  function InsertAt(row: seq<int>, pos: nat, t: int): (r: seq<int>)
    requires pos <= |row|
    ensures multiset(r) == multiset(row) + multiset{t}
    ensures |r| == |row| + 1 && r[pos] == t
  {
    assert row == row[..pos] + row[pos..];
    row[..pos] + [t] + row[pos..]
  }

  lemma InsertInRest(row: seq<int>, pos: nat, t: int)
    requires 0 < pos <= |row|
    ensures InsertAt(row, pos, t)[1..] == InsertAt(row[1..], pos - 1, t)
    ensures InsertAt(row, pos, t)[0] == row[0]
  {
  }

  // What inserting costs at a row and a position; None where it is not possible.
  type Offers = (int, int) -> Option<real>

  datatype Place = Place(row: int, pos: int)

  predicate IsOffer(order: seq<int>, rows: Rows, delta: Offers, k: int, pos: int) {
    0 <= k < |order| && 0 <= order[k] < |rows| && 0 <= pos <= |rows[order[k]]| && delta(order[k], pos).Some?
  }

  predicate Earlier(k: int, pos: int, k': int, pos': int) { k < k' || (k == k' && pos < pos') }

  // Among the offers before (k, pos), the cheapest; the first of those on ties.
  ghost predicate IsBestBefore(order: seq<int>, rows: Rows, delta: Offers, k: int, pos: int, best: Option<(int, int)>) {
    match best
    case None => forall i, p :: IsOffer(order, rows, delta, i, p) ==> !Earlier(i, p, k, pos)
    case Some(b) =>
      && IsOffer(order, rows, delta, b.0, b.1) && Earlier(b.0, b.1, k, pos)
      && forall i, p :: IsOffer(order, rows, delta, i, p) && Earlier(i, p, k, pos) ==>
        Beats(delta(order[b.0], b.1).value, b, delta(order[i], p).value, (i, p))
  }

  predicate Beats(d: real, b: (int, int), d': real, b': (int, int)) {
    d <= d' && (Earlier(b'.0, b'.1, b.0, b.1) ==> d < d')
  }

  // The cheapest place over the rows taken in the given order, first one on ties.
  ghost predicate IsBestPlace(order: seq<int>, rows: Rows, delta: Offers, place: Option<Place>) {
    match place
    case None => forall i, p :: !IsOffer(order, rows, delta, i, p)
    case Some(pl) => exists k :: 0 <= k < |order| && order[k] == pl.row
                       && IsBestBefore(order, rows, delta, |order|, 0, Some((k, pl.pos)))
  }

  lemma BestAfter(order: seq<int>, rows: Rows, delta: Offers, k: int, pos: int, best: Option<(int, int)>)
    requires IsBestBefore(order, rows, delta, k, pos, best)
    requires best.Some? && IsOffer(order, rows, delta, k, pos) ==>
      delta(order[best.value.0], best.value.1).value <= delta(order[k], pos).value
    requires best.None? ==> !IsOffer(order, rows, delta, k, pos)
    ensures IsBestBefore(order, rows, delta, k, pos + 1, best)
  {
  }

  lemma BestReplaced(order: seq<int>, rows: Rows, delta: Offers, k: int, pos: int, best: Option<(int, int)>)
    requires IsBestBefore(order, rows, delta, k, pos, best) && IsOffer(order, rows, delta, k, pos)
    requires best.Some? ==> delta(order[k], pos).value < delta(order[best.value.0], best.value.1).value
    ensures IsBestBefore(order, rows, delta, k, pos + 1, Some((k, pos)))
  {
  }

  // The two nested loops over rows and positions.
  method FindBest(order: seq<int>, rows: Rows, delta: Offers) returns (place: Option<Place>)
    ensures IsBestPlace(order, rows, delta, place)
    ensures place.Some? ==>
      && 0 <= place.value.row < |rows| && 0 <= place.value.pos <= |rows[place.value.row]|
      && place.value.row in order && delta(place.value.row, place.value.pos).Some?
  {
    var best: Option<(int, int)> := None;
    for k := 0 to |order|
      invariant IsBestBefore(order, rows, delta, k, 0, best)
    {
      var r := order[k];
      if 0 <= r < |rows| {
        for pos := 0 to |rows[r]| + 1
          invariant IsBestBefore(order, rows, delta, k, pos, best)
        {
          var d := delta(r, pos);
          if d.Some? && (best.None? || d.value < delta(order[best.value.0], best.value.1).value) {
            BestReplaced(order, rows, delta, k, pos, best);
            best := Some((k, pos));
          } else {
            BestAfter(order, rows, delta, k, pos, best);
          }
        }
      }
    }
    place := match best case None => None case Some(b) => Some(Place(order[b.0], b.1));
  }

  lemma TallyOfPut(rows: Rows, row: nat, pos: nat, t: int)
    requires row < |rows| && pos <= |rows[row]|
    ensures Tally(rows[row := InsertAt(rows[row], pos, t)]) == Tally(rows) + multiset{t}
  {
    TallyOfUpdate(rows, row, InsertAt(rows[row], pos, t));
    Cancel(Tally(rows[row := InsertAt(rows[row], pos, t)]), multiset(rows[row]), Tally(rows), multiset{t});
  }

  lemma Cancel<T>(a: multiset<T>, b: multiset<T>, c: multiset<T>, d: multiset<T>)
    requires a + b == c + (b + d)
    ensures a == c + d
  {
    forall x ensures a[x] == (c + d)[x] {
      assert (a + b)[x] == (c + (b + d))[x];
    }
  }

  function Put(rows: Rows, place: Option<Place>, t: int): Rows
    requires place.Some? ==> 0 <= place.value.row < |rows| && 0 <= place.value.pos <= |rows[place.value.row]|
  {
    match place
    case None => rows
    case Some(pl) => rows[pl.row := InsertAt(rows[pl.row], pl.pos, t)]
  }

  predicate Fits(rows: Rows, place: Option<Place>) {
    place.Some? ==> 0 <= place.value.row < |rows| && 0 <= place.value.pos <= |rows[place.value.row]|
  }

  // What each task would cost at each place of the current rows.
  type OfferTable = (Rows, int) -> Offers

  // One task goes to its cheapest place, or nowhere.
  ghost predicate IsStep(order: seq<int>, table: OfferTable, rows: Rows, t: int, place: Option<Place>, rows': Rows) {
    IsBestPlace(order, rows, table(rows, t), place) && Fits(rows, place) && rows' == Put(rows, place, t)
  }

  method PlaceBest(order: seq<int>, table: OfferTable, rows: Rows, t: int) returns (place: Option<Place>, rows': Rows)
    ensures IsStep(order, table, rows, t, place, rows')
  {
    place := FindBest(order, rows, table(rows, t));
    rows' := Put(rows, place, t);
  }

  // The tasks one after the other: trace[k] are the rows before task k.
  ghost predicate IsRun(order: seq<int>, table: OfferTable, ts: seq<int>, trace: seq<Rows>, places: seq<Option<Place>>) {
    && |trace| == |ts| + 1 && |places| == |ts|
    && forall k {:trigger places[k]} :: 0 <= k < |ts| ==> IsStep(order, table, trace[k], ts[k], places[k], trace[k + 1])
  }

  lemma RunGrows(order: seq<int>, table: OfferTable, ts: seq<int>, trace: seq<Rows>, places: seq<Option<Place>>,
                 t: int, place: Option<Place>, rows: Rows)
    requires IsRun(order, table, ts, trace, places) && IsStep(order, table, trace[|ts|], t, place, rows)
    ensures IsRun(order, table, ts + [t], trace + [rows], places + [place])
  {
    var trace', places' := trace + [rows], places + [place];
    forall k | 0 <= k < |places'| ensures IsStep(order, table, trace'[k], (ts + [t])[k], places'[k], trace'[k + 1]) {
      if k < |places| { assert IsStep(order, table, trace[k], ts[k], places[k], trace[k + 1]); }
    }
  }

  // The tasks of the first n that found no place.
  function Unplaced(ts: seq<int>, places: seq<Option<Place>>, n: nat): seq<int>
    requires |places| == |ts| && n <= |ts|
  {
    if n == 0 then [] else Unplaced(ts, places, n - 1) + (if places[n - 1].None? then [ts[n - 1]] else [])
  }

  lemma {:induction false} UnplacedOfPrefix(ts: seq<int>, places: seq<Option<Place>>, t: int, place: Option<Place>, n: nat)
    requires |places| == |ts| && n <= |ts|
    ensures Unplaced(ts + [t], places + [place], n) == Unplaced(ts, places, n)
  {
    if n > 0 { UnplacedOfPrefix(ts, places, t, place, n - 1); }
  }

  lemma UnplacedGrows(ts: seq<int>, places: seq<Option<Place>>, t: int, place: Option<Place>)
    requires |places| == |ts|
    ensures Unplaced(ts + [t], places + [place], |ts| + 1)
      == Unplaced(ts, places, |ts|) + (if place.None? then [t] else [])
  {
    UnplacedOfPrefix(ts, places, t, place, |ts|);
  }

  // The first k tasks have been dealt with.
  ghost predicate PlacedUpTo(order: seq<int>, table: OfferTable, ts: seq<int>, k: nat, rows0: Rows, rows: Rows,
                             pending: seq<int>, trace: seq<Rows>, places: seq<Option<Place>>)
  {
    && k <= |ts| && IsRun(order, table, ts[..k], trace, places)
    && trace[0] == rows0 && trace[k] == rows && pending == Unplaced(ts[..k], places, k)
  }

  lemma PlacedNext(order: seq<int>, table: OfferTable, ts: seq<int>, k: nat, rows0: Rows, rows: Rows, pending: seq<int>,
                   trace: seq<Rows>, places: seq<Option<Place>>, place: Option<Place>, next: Rows)
    requires PlacedUpTo(order, table, ts, k, rows0, rows, pending, trace, places) && k < |ts|
    requires IsStep(order, table, rows, ts[k], place, next)
    ensures PlacedUpTo(order, table, ts, k + 1, rows0, next, pending + (if place.None? then [ts[k]] else []),
      trace + [next], places + [place])
  {
    PrefixGrows(ts, k);
    RunGrows(order, table, ts[..k], trace, places, ts[k], place, next);
    UnplacedGrows(ts[..k], places, ts[k], place);
  }

  // Places the tasks one after the other and collects those without a place.
  method PlaceEach(order: seq<int>, table: OfferTable, rows0: Rows, ts: seq<int>)
      returns (rows: Rows, pending: seq<int>, ghost trace: seq<Rows>, ghost places: seq<Option<Place>>)
    ensures IsRun(order, table, ts, trace, places)
    ensures trace[0] == rows0 && trace[|ts|] == rows && pending == Unplaced(ts, places, |ts|)
  {
    rows, pending, trace, places := rows0, [], [rows0], [];
    for k := 0 to |ts|
      invariant PlacedUpTo(order, table, ts, k, rows0, rows, pending, trace, places)
    {
      var place, next := PlaceBest(order, table, rows, ts[k]);
      PlacedNext(order, table, ts, k, rows0, rows, pending, trace, places, place, next);
      rows, trace, places := next, trace + [next], places + [place];
      if place.None? { pending := pending + [ts[k]]; }
    }
    assert ts[..|ts|] == ts;
  }

  lemma {:induction false} NothingPlaced(order: seq<int>, table: OfferTable, ts: seq<int>, trace: seq<Rows>,
                                         places: seq<Option<Place>>, n: nat)
    requires IsRun(order, table, ts, trace, places) && n <= |ts|
    requires forall k :: 0 <= k < |ts| ==> places[k].None?
    ensures trace[n] == trace[0] && Unplaced(ts, places, n) == ts[..n]
  {
    if n > 0 {
      NothingPlaced(order, table, ts, trace, places, n - 1);
      assert IsStep(order, table, trace[n - 1], ts[n - 1], places[n - 1], trace[n - 1 + 1]);
      PrefixGrows(ts, n - 1);
    }
  }

  // When exactly the good tasks find a place, the others are left.
  lemma {:induction false} UnplacedAreBad(ts: seq<int>, places: seq<Option<Place>>, n: nat, good: int -> bool)
    requires |places| == |ts| && n <= |ts|
    requires forall k {:trigger places[k]} :: 0 <= k < n ==> (places[k].Some? <==> good(ts[k]))
    ensures forall t :: t in Unplaced(ts, places, n) <==> t in ts[..n] && !good(t)
  {
    if n > 0 {
      UnplacedAreBad(ts, places, n - 1, good);
      PrefixGrows(ts, n - 1);
      assert places[n - 1].Some? <==> good(ts[n - 1]);
    }
  }

  // Entries in the rows and tasks left over balance with what there was at first.
  ghost predicate Balanced<T>(rows: multiset<T>, left: seq<T>, before: multiset<T>, ts: seq<T>) {
    rows + multiset(left) == before + multiset(ts)
  }

  lemma BalancedStep<T>(rows: multiset<T>, left: seq<T>, before: multiset<T>, ts: seq<T>, t: T, placed: bool)
    requires Balanced(rows, left, before, ts)
    ensures Balanced(rows + (if placed then multiset{t} else multiset{}), left + (if placed then [] else [t]), before, ts + [t])
  {
    var one := multiset{t};
    var a, b := if placed then one else multiset{}, if placed then multiset{} else one;
    assert (rows + a) + (multiset(left) + b) == (rows + multiset(left)) + one;
    assert (before + multiset(ts)) + one == before + (multiset(ts) + one);
  }

  lemma StepTally(order: seq<int>, table: OfferTable, rows: Rows, t: int, place: Option<Place>, rows': Rows)
    requires IsStep(order, table, rows, t, place, rows')
    ensures Tally(rows') == Tally(rows) + (if place.Some? then multiset{t} else multiset{})
  {
    if place.Some? { TallyOfPut(rows, place.value.row, place.value.pos, t); }
  }

  // A run conserves: every task ends in a row or among the unplaced, and no entry is lost.
  lemma {:induction false} RunConserves(order: seq<int>, table: OfferTable, ts: seq<int>, trace: seq<Rows>,
                                        places: seq<Option<Place>>, n: nat)
    requires IsRun(order, table, ts, trace, places) && n <= |ts|
    ensures Balanced(Tally(trace[n]), Unplaced(ts, places, n), Tally(trace[0]), ts[..n])
  {
    if n > 0 {
      var k := n - 1;
      RunConserves(order, table, ts, trace, places, k);
      assert IsStep(order, table, trace[k], ts[k], places[k], trace[k + 1]);
      StepTally(order, table, trace[k], ts[k], places[k], trace[k + 1]);
      BalancedStep(Tally(trace[k]), Unplaced(ts, places, k), Tally(trace[0]), ts[..k], ts[k], places[k].Some?);
      PrefixGrows(ts, k);
    } else {
      assert ts[..0] == [];
    }
  }
}
