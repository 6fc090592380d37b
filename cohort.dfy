// The student pool of an engine and the cohort placement percentage
// (the students map built in the constructor and
// calculatePlacementPercentage in src/engine.ts).
module Cohort {
  import opened Types
  import opened Registry

  /** The pool: students by id, and the ids in the pool's iteration order
      (the insertion order of a JavaScript Map). */
  datatype Pool = Pool(byId: map<int, Student>, order: seq<int>)

  /** Every id of `ids` has a record in the map. */
  ghost predicate InPool(students: map<int, Student>, ids: seq<int>) {
    forall i :: 0 <= i < |ids| ==> ids[i] in students
  }

  ghost predicate Distinct(order: seq<int>) {
    forall i, j :: 0 <= i < j < |order| ==> order[i] != order[j]
  }

  /** The order lists every id of the map exactly once, and each record is
      filed under its own id. */
  ghost predicate WellFormed(students: map<int, Student>, order: seq<int>) {
    && Distinct(order)
    && InPool(students, order)
    && (forall id :: id in students <==> id in order)
    && (forall id :: id in students ==> students[id].id == id)
  }

  /** Adds one record the way `Map.set` does: a new id goes to the end of the
      order, a known id keeps its place and gets the new record. */
  function Insert(p: Pool, s: Student): Pool {
    if s.id in p.byId then Pool(p.byId[s.id := s], p.order)
    else Pool(p.byId[s.id := s], p.order + [s.id])
  }

  /** The pool `new Map(students.map(s => [s.id, s]))` builds: ids in order
      of first occurrence, each holding the LAST record with that id
      (BuildPoolSpec states this). */
  function BuildPool(list: seq<Student>): Pool
    decreases |list|
  {
    if list == [] then Pool(map[], [])
    else Insert(BuildPool(list[..|list| - 1]), list[|list| - 1])
  }

  /** Inserting one record keeps the pool well formed and files it under
      its id; every other id keeps its record. */
  lemma InsertSpec(p: Pool, s: Student)
    requires WellFormed(p.byId, p.order)
    ensures WellFormed(Insert(p, s).byId, Insert(p, s).order)
    ensures Insert(p, s).byId == p.byId[s.id := s]
  {
    var q := Insert(p, s);
    if s.id !in p.byId {
      forall i, j | 0 <= i < j < |q.order| ensures q.order[i] != q.order[j] {
        if j == |q.order| - 1 {
          assert q.order[i] == p.order[i];
        }
      }
    }
  }

  /** The pool holds exactly the ids of the list, well formed, and under
      each id the last record that carries it. */
  lemma BuildPoolSpec(list: seq<Student>)
    ensures WellFormed(BuildPool(list).byId, BuildPool(list).order)
    ensures forall id :: id in BuildPool(list).byId <==> exists i :: 0 <= i < |list| && list[i].id == id
    ensures forall i :: 0 <= i < |list| && (forall j :: i < j < |list| ==> list[j].id != list[i].id)
                        ==> list[i].id in BuildPool(list).byId && BuildPool(list).byId[list[i].id] == list[i]
  {
    BuildPoolWellFormed(list);
    BuildPoolKeys(list);
    BuildPoolLastWins(list);
  }

  lemma {:induction false} BuildPoolWellFormed(list: seq<Student>)
    ensures WellFormed(BuildPool(list).byId, BuildPool(list).order)
    decreases |list|
  {
    if list != [] {
      BuildPoolWellFormed(list[..|list| - 1]);
      InsertSpec(BuildPool(list[..|list| - 1]), list[|list| - 1]);
    }
  }

  lemma {:induction false} BuildPoolKeys(list: seq<Student>)
    ensures forall id :: id in BuildPool(list).byId <==> exists i :: 0 <= i < |list| && list[i].id == id
    decreases |list|
  {
    if list != [] {
      var prefix := list[..|list| - 1];
      var last := list[|list| - 1];
      BuildPoolKeys(prefix);
      var p := BuildPool(list);
      assert p.byId == BuildPool(prefix).byId[last.id := last];
      forall id
        ensures id in p.byId <==> exists i :: 0 <= i < |list| && list[i].id == id
      {
        if id in p.byId && id != last.id {
          var i :| 0 <= i < |prefix| && prefix[i].id == id;
          assert list[i].id == id;
        }
        if id == last.id {
          assert list[|list| - 1].id == id;
        }
        if exists i :: 0 <= i < |list| && list[i].id == id {
          var i :| 0 <= i < |list| && list[i].id == id;
          if i < |list| - 1 {
            assert prefix[i].id == id;
          }
        }
      }
    }
  }

  lemma {:induction false} BuildPoolLastWins(list: seq<Student>)
    ensures forall i :: 0 <= i < |list| && (forall j :: i < j < |list| ==> list[j].id != list[i].id)
                        ==> list[i].id in BuildPool(list).byId && BuildPool(list).byId[list[i].id] == list[i]
    decreases |list|
  {
    if list != [] {
      var prefix := list[..|list| - 1];
      var last := list[|list| - 1];
      BuildPoolLastWins(prefix);
      var p := BuildPool(list);
      assert p.byId == BuildPool(prefix).byId[last.id := last];
      forall i | 0 <= i < |list| && (forall j :: i < j < |list| ==> list[j].id != list[i].id)
        ensures list[i].id in p.byId && p.byId[list[i].id] == list[i]
      {
        if i < |list| - 1 {
          assert prefix[i] == list[i];
          assert forall j :: i < j < |prefix| ==> prefix[j] == list[j];
        }
      }
    }
  }

  /** The ids of the list at the positions where they first occur, in list
      order. */
  function FirstIds(list: seq<Student>): (ids: seq<int>)
    decreases |list|
  {
    if list == [] then []
    else
      var init, last := list[..|list| - 1], list[|list| - 1];
      FirstIds(init) + (if exists j :: 0 <= j < |init| && init[j].id == last.id then [] else [last.id])
  }

  /** The pool's order is the ids in order of first occurrence, whatever
      repeats the list holds. */
  lemma {:induction false} BuildPoolOrder(list: seq<Student>)
    ensures BuildPool(list).order == FirstIds(list)
    decreases |list|
  {
    if list != [] {
      var init, last := list[..|list| - 1], list[|list| - 1];
      BuildPoolOrder(init);
      BuildPoolKeys(init);
      assert last.id in BuildPool(init).byId <==> exists j :: 0 <= j < |init| && init[j].id == last.id;
    }
  }

  /** Without duplicate ids the pool keeps every record, in list order. */
  lemma {:induction false} BuildPoolDistinct(list: seq<Student>)
    requires forall i, j :: 0 <= i < j < |list| ==> list[i].id != list[j].id
    ensures BuildPool(list).order == seq(|list|, i requires 0 <= i < |list| => list[i].id)
    ensures forall i :: 0 <= i < |list| ==>
              list[i].id in BuildPool(list).byId && BuildPool(list).byId[list[i].id] == list[i]
  {
    if list != [] {
      var prefix := list[..|list| - 1];
      BuildPoolDistinct(prefix);
      BuildPoolSpec(prefix);
      assert forall i :: 0 <= i < |prefix| ==> prefix[i] == list[i];
      assert list[|list| - 1].id !in BuildPool(prefix).byId;
    }
  }

  /** Number of placed students, scanning the pool in order. */
  function PlacedCount(students: map<int, Student>, order: seq<int>): (n: nat)
    requires InPool(students, order)
    ensures n <= |order|
    decreases |order|
  {
    if order == [] then 0
    else
      var last := order[|order| - 1];
      PlacedCount(students, order[..|order| - 1]) + (if students[last].isPlaced then 1 else 0)
  }

  /** `part` out of `total` as a percentage, 0 when `total` is 0 (the
      guarded division every percentage in the engine uses). */
  function Percent(part: nat, total: nat): (pct: real)
    ensures total == 0 ==> pct == 0.0
    ensures total > 0 ==> pct * total as real == 100.0 * part as real
    ensures part <= total ==> 0.0 <= pct <= 100.0
  {
    if total > 0 then
      var q := part as real / total as real;
      assert q * total as real == part as real;
      assert part <= total ==> q <= 1.0;
      q * 100.0
    else 0.0
  }

  /** Two parts that make up the whole have percentages summing to 100. */
  lemma PercentComplement(a: nat, b: nat)
    requires a + b > 0
    ensures Percent(a, a + b) + Percent(b, a + b) == 100.0
  {
    var t := (a + b) as real;
    var x, y := a as real / t, b as real / t;
    calc {
      (x + y) * t;
      x * t + y * t;
      a as real + b as real;
      t;
    }
    assert x + y == 1.0;
    assert Percent(a, a + b) + Percent(b, a + b) == (x + y) * 100.0;
  }

  /** The placed students as a share of the pool, times 100; 0 for an empty
      pool, and never outside [0, 100]. */
  function CohortPercentage(students: map<int, Student>, order: seq<int>): (pct: real)
    requires InPool(students, order)
    ensures 0.0 <= pct <= 100.0
    ensures order == [] ==> pct == 0.0
    ensures order != [] ==> pct * |order| as real == 100.0 * PlacedCount(students, order) as real
  {
    Percent(PlacedCount(students, order), |order|)
  }

  /** The ids of the placed records of a map. */
  ghost function PlacedIds(students: map<int, Student>): set<int> {
    set id | id in students && students[id].isPlaced
  }

  /** The ids in `order` whose record is placed. */
  ghost function PlacedIn(students: map<int, Student>, order: seq<int>): set<int> {
    set id | id in order && id in students && students[id].isPlaced
  }

  /** Scanning a duplicate-free order counts each placed id in it once. */
  lemma {:induction false} PlacedCountIsPlacedIn(students: map<int, Student>, order: seq<int>)
    requires Distinct(order)
    requires InPool(students, order)
    ensures PlacedCount(students, order) == |PlacedIn(students, order)|
    decreases |order|
  {
    if order != [] {
      var init, last := order[..|order| - 1], order[|order| - 1];
      assert order == init + [last];
      PlacedCountIsPlacedIn(students, init);
      assert last !in init by {
        forall i | 0 <= i < |init| ensures init[i] != last {
          assert init[i] == order[i];
        }
      }
      if students[last].isPlaced {
        assert PlacedIn(students, order) == PlacedIn(students, init) + {last};
      } else {
        assert PlacedIn(students, order) == PlacedIn(students, init);
      }
    }
  }

  /** In a well-formed pool the scan over the order counts exactly the placed
      records of the map, so the cohort percentage is the placed records'
      share of the map's size. */
  lemma CohortPercentageOfMap(students: map<int, Student>, order: seq<int>)
    requires WellFormed(students, order)
    ensures PlacedCount(students, order) == |PlacedIds(students)|
    ensures CohortPercentage(students, order) == Percent(|PlacedIds(students)|, |students|)
  {
    PlacedCountIsPlacedIn(students, order);
    forall id ensures id in PlacedIn(students, order) <==> id in PlacedIds(students) {
      assert id in students <==> id in order;
    }
    assert PlacedIn(students, order) == PlacedIds(students);
    PoolSize(students, order);
  }

  /** What the checks see of an engine: its company and policies, and the
      cohort percentage of the pool as it stands. */
  function ContextOf(students: map<int, Student>, order: seq<int>, company: Company, policies: Policies): (ctx: Context)
    requires InPool(students, order)
  {
    Context(company, policies, CohortPercentage(students, order))
  }

  /** Four students of whom one is placed give a cohort percentage of 25. */
  lemma OneOfFourIsTwentyFive(students: map<int, Student>, order: seq<int>)
    requires InPool(students, order)
    requires |order| == 4 && PlacedCount(students, order) == 1
    ensures CohortPercentage(students, order) == 25.0
  {
  }

  /** The ids of a distinct order, as a set, have as many elements as the
      order, so the order's length is the size of the map. */
  lemma {:induction false} PoolSize(students: map<int, Student>, order: seq<int>)
    requires WellFormed(students, order)
    ensures |students| == |order|
  {
    assert forall id :: id in students.Keys <==> id in (set x | x in order);
    assert students.Keys == set x | x in order;
    DistinctCardinality(order);
  }

  lemma {:induction false} DistinctCardinality(order: seq<int>)
    requires Distinct(order)
    ensures |set id | id in order| == |order|
  {
    if order != [] {
      var prefix := order[..|order| - 1];
      var last := order[|order| - 1];
      DistinctCardinality(prefix);
      assert (set id | id in order) == (set id | id in prefix) + {last};
      assert last !in (set id | id in prefix);
    }
  }
}
