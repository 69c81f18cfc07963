/**
Flat rows to a forest (internal/httpapi/locations.go, nestLocations; the same algorithm
nests categories and both exports).
*/
module Nesting {
  import opened Arithmetic
  import opened Wrappers

  type Id = nat

  datatype Row = Row(id: Id, parent: Option<Id>, name: string)

  /** The primary key. */
  ghost predicate UniqueIds(rows: seq<Row>) {
    forall i, j | 0 <= i < j < |rows| :: rows[i].id != rows[j].id
  }

  function Ids(rows: seq<Row>): set<Id> { set row | row in rows :: row.id }

  /** A row whose parent is not among the rows is shown as a root. */
  predicate IsRoot(rows: seq<Row>, row: Row) { row.parent == None || row.parent.value !in Ids(rows) }

  /** The first n rows' roots, in row order. */
  function RootIds(rows: seq<Row>, n: nat): seq<Id>
    requires n <= |rows|
  {
    if n == 0 then []
    else RootIds(rows, n - 1) + if IsRoot(rows, rows[n - 1]) then [rows[n - 1].id] else []
  }

  /** The first n rows' children of a row, in row order. */
  function ChildIds(rows: seq<Row>, n: nat, id: Id): seq<Id>
    requires n <= |rows|
  {
    if n == 0 then []
    else ChildIds(rows, n - 1, id) + if rows[n - 1].parent == Some(id) then [rows[n - 1].id] else []
  }

  /** The way down to a row, from a root. */
  datatype Trail = Top | Below(above: Trail, id: Id)

  /** What belongs directly under a trail: the roots at the top, else its last row's children. */
  function Under(rows: seq<Row>, trail: Trail): seq<Id> {
    if trail.Top? then RootIds(rows, |rows|) else ChildIds(rows, |rows|, trail.id)
  }

  predicate IsTrail(rows: seq<Row>, trail: Trail) {
    trail.Below? ==> trail.id in Under(rows, trail.above) && IsTrail(rows, trail.above)
  }

  ghost predicate EndsAt(rows: seq<Row>, trail: Trail, id: Id) {
    IsTrail(rows, trail) && trail.Below? && trail.id == id
  }

  /** Every row hangs, over its parents, from a root. */
  ghost predicate Acyclic(rows: seq<Row>) {
    forall id | id in Ids(rows) :: exists trail :: EndsAt(rows, trail, id)
  }

  // ------------------------------------------------------------------ filters

  lemma {:induction false} RootIdsAre(rows: seq<Row>, n: nat, id: Id)
    requires n <= |rows|
    ensures id in RootIds(rows, n) <==> exists i :: 0 <= i < n && rows[i].id == id && IsRoot(rows, rows[i])
  {
    if n > 0 { RootIdsAre(rows, n - 1, id); }
  }

  lemma {:induction false} ChildIdsAre(rows: seq<Row>, n: nat, parent: Id, id: Id)
    requires n <= |rows|
    ensures id in ChildIds(rows, n, parent)
       <==> exists i :: 0 <= i < n && rows[i].id == id && rows[i].parent == Some(parent)
  {
    if n > 0 { ChildIdsAre(rows, n - 1, parent, id); }
  }

  ghost predicate Distinct(ids: seq<Id>) { forall i, j | 0 <= i < j < |ids| :: ids[i] != ids[j] }

  lemma {:induction false} RootIdsDistinct(rows: seq<Row>, n: nat)
    requires UniqueIds(rows) && n <= |rows|
    ensures Distinct(RootIds(rows, n))
  {
    if n > 0 {
      RootIdsDistinct(rows, n - 1);
      RootIdsAre(rows, n - 1, rows[n - 1].id);
    }
  }

  lemma {:induction false} ChildIdsDistinct(rows: seq<Row>, n: nat, parent: Id)
    requires UniqueIds(rows) && n <= |rows|
    ensures Distinct(ChildIds(rows, n, parent))
  {
    if n > 0 {
      ChildIdsDistinct(rows, n - 1, parent);
      ChildIdsAre(rows, n - 1, parent, rows[n - 1].id);
    }
  }

  /** What hangs under a trail is a row, and which one it hangs under is up to the row alone. */
  lemma UnderIs(rows: seq<Row>, trail: Trail, id: Id) returns (k: nat)
    requires id in Under(rows, trail) && (trail.Below? ==> trail.id in Ids(rows))
    ensures k < |rows| && rows[k].id == id && id in Ids(rows)
    ensures if trail.Top? then IsRoot(rows, rows[k]) else !IsRoot(rows, rows[k]) && rows[k].parent == Some(trail.id)
  {
    if trail.Top? {
      RootIdsAre(rows, |rows|, id);
      k :| 0 <= k < |rows| && rows[k].id == id && IsRoot(rows, rows[k]);
    } else {
      ChildIdsAre(rows, |rows|, trail.id, id);
      k :| 0 <= k < |rows| && rows[k].id == id && rows[k].parent == Some(trail.id);
    }
    assert rows[k] in rows;
  }

  // ------------------------------------------------------------------- trails

  lemma {:induction false} TrailInRows(rows: seq<Row>, trail: Trail)
    requires IsTrail(rows, trail) && trail.Below?
    ensures trail.id in Ids(rows)
  {
    if trail.above.Below? { TrailInRows(rows, trail.above); }
    var _ := UnderIs(rows, trail.above, trail.id);
  }

  /** A row hangs in one place only. */
  lemma {:induction false} OneTrail(rows: seq<Row>, p: Trail, q: Trail, id: Id)
    requires UniqueIds(rows) && EndsAt(rows, p, id) && EndsAt(rows, q, id)
    ensures p == q
  {
    if p.above.Below? { TrailInRows(rows, p.above); }
    if q.above.Below? { TrailInRows(rows, q.above); }
    var j := UnderIs(rows, p.above, id);
    var k := UnderIs(rows, q.above, id);
    assert j == k;
    if p.above.Below? { OneTrail(rows, p.above, q.above, p.above.id); }
  }

  function Visited(trail: Trail): set<Id> {
    if trail.Top? then {} else Visited(trail.above) + {trail.id}
  }

  function Depth(trail: Trail): nat { if trail.Top? then 0 else Depth(trail.above) + 1 }

  lemma {:induction false} PrefixEnding(rows: seq<Row>, trail: Trail, id: Id) returns (p: Trail)
    requires IsTrail(rows, trail) && id in Visited(trail)
    ensures EndsAt(rows, p, id) && Depth(p) <= Depth(trail)
  {
    if trail.id == id { p := trail; } else { p := PrefixEnding(rows, trail.above, id); }
  }

  lemma {:induction false} VisitsOnce(rows: seq<Row>, trail: Trail)
    requires UniqueIds(rows) && IsTrail(rows, trail)
    ensures |Visited(trail)| == Depth(trail) && Visited(trail) <= Ids(rows)
  {
    if trail.Below? {
      VisitsOnce(rows, trail.above);
      TrailInRows(rows, trail);
      if trail.id in Visited(trail.above) {
        var p := PrefixEnding(rows, trail.above, trail.id);
        OneTrail(rows, p, trail, trail.id);
      }
    }
  }

  /** A trail visits no row twice, so it is no longer than there are rows. */
  lemma TrailFits(rows: seq<Row>, trail: Trail)
    requires UniqueIds(rows) && IsTrail(rows, trail)
    ensures Depth(trail) <= |rows|
  {
    VisitsOnce(rows, trail);
    IdsCount(rows);
    SubsetCount(Visited(trail), Ids(rows));
  }

  lemma {:induction false} IdsCount(rows: seq<Row>)
    ensures |Ids(rows)| <= |rows|
  {
    if rows == [] {
      assert Ids(rows) == {};
    } else {
      var n := |rows| - 1;
      IdsCount(rows[..n]);
      assert rows == rows[..n] + [rows[n]];
      assert Ids(rows) == Ids(rows[..n]) + {rows[n].id};
    }
  }

  // ------------------------------------------------------------------- forest

  datatype Tree = Tree(id: Id, name: string, children: seq<Tree>)

  function NameOf(rows: seq<Row>, id: Id): string {
    if rows == [] then "" else if rows[0].id == id then rows[0].name else NameOf(rows[1..], id)
  }

  lemma {:induction false} NameOfRow(rows: seq<Row>, k: nat)
    requires UniqueIds(rows) && k < |rows|
    ensures NameOf(rows, rows[k].id) == rows[k].name
  {
    if k > 0 {
      NameOfRow(rows[1..], k - 1);
    }
  }

  /** Where the given rows hang under a trail. */
  ghost predicate Hang(rows: seq<Row>, trail: Trail, ids: seq<Id>) {
    UniqueIds(rows) && IsTrail(rows, trail) && forall id | id in ids :: id in Under(rows, trail)
  }

  /** The trees of rows that hang under a trail. */
  ghost function Trees(rows: seq<Row>, trail: Trail, ids: seq<Id>): (trees: seq<Tree>)
    requires Hang(rows, trail, ids)
    ensures |trees| == |ids|
    decreases |rows| - Depth(trail), |ids|
  {
    if ids == [] then []
    else
      var n := |ids| - 1;
      var down := Below(trail, ids[n]);
      assert ids[n] in ids;
      TrailFits(rows, down);
      Trees(rows, trail, ids[..n]) + [Tree(ids[n], NameOf(rows, ids[n]), Trees(rows, down, Under(rows, down)))]
  }

  ghost function Forest(rows: seq<Row>): seq<Tree>
    requires UniqueIds(rows)
  {
    Trees(rows, Top, Under(rows, Top))
  }

  /** The rows and edges of trees that hang under a given parent. */
  function Flatten(trees: seq<Tree>, parent: Option<Id>): seq<Row> {
    if trees == [] then []
    else
      var t := trees[|trees| - 1];
      Flatten(trees[..|trees| - 1], parent) + [Row(t.id, parent, t.name)] + Flatten(t.children, Some(t.id))
  }

  /** A row as the forest shows it: without a parent that is not among the rows. */
  function Shown(rows: seq<Row>, row: Row): Row { if IsRoot(rows, row) then row.(parent := None) else row }

  function LastOf(trail: Trail): Option<Id> { if trail.Top? then None else Some(trail.id) }

  /** p is q or on the way down to it. */
  predicate OnTheWay(p: Trail, q: Trail) { p == q || (q.Below? && OnTheWay(p, q.above)) }

  /** The row after p on the way down to q. */
  function NextDown(p: Trail, q: Trail): Id
    requires OnTheWay(p, q) && p != q
  {
    if q.above == p then q.id else NextDown(p, q.above)
  }

  lemma {:induction false} NextDownIs(rows: seq<Row>, p: Trail, q: Trail)
    requires IsTrail(rows, q) && OnTheWay(p, q) && p != q
    ensures NextDown(p, q) in Under(rows, p) && OnTheWay(Below(p, NextDown(p, q)), q)
    ensures forall id | OnTheWay(Below(p, id), q) :: id == NextDown(p, q)
  {
    DeeperOrSame(p, q);
    if q.above != p {
      NextDownIs(rows, p, q.above);
    }
    forall id | OnTheWay(Below(p, id), q) ensures id == NextDown(p, q) {
      DeeperOrSame(Below(p, id), q.above);
    }
  }

  lemma {:induction false} DeeperOrSame(p: Trail, q: Trail)
    ensures OnTheWay(p, q) ==> Depth(p) <= Depth(q)
  {
    if q.Below? { DeeperOrSame(p, q.above); }
  }

  lemma {:induction false} AboveToo(p: Trail, id: Id, q: Trail)
    requires OnTheWay(Below(p, id), q)
    ensures OnTheWay(p, q) && p != q
  {
    DeeperOrSame(Below(p, id), q);
    if q != Below(p, id) { AboveToo(p, id, q.above); }
  }

  lemma {:induction false} FromTheTop(q: Trail)
    ensures OnTheWay(Top, q)
  {
    if q.Below? { FromTheTop(q.above); }
  }

  /** The row a tree stands for, under its parent as shown. */
  lemma TreeRow(rows: seq<Row>, trail: Trail, id: Id) returns (k: nat)
    requires UniqueIds(rows) && IsTrail(rows, trail) && id in Under(rows, trail)
    ensures k < |rows| && rows[k].id == id
    ensures Row(id, LastOf(trail), NameOf(rows, id)) == Shown(rows, rows[k])
  {
    if trail.Below? { TrailInRows(rows, trail); }
    k := UnderIs(rows, trail, id);
    NameOfRow(rows, k);
  }

  ghost predicate Goes(p: Trail, q: Trail, ids: seq<Id>) { OnTheWay(p, q) && p != q && NextDown(p, q) in ids }

  function Bit(b: bool): nat { if b then 1 else 0 }

  lemma FlattenLast(rows: seq<Row>, p: Trail, ids: seq<Id>)
    requires Hang(rows, p, ids) && ids != []
    ensures var n := |ids| - 1; var down := Below(p, ids[n]);
      Hang(rows, down, Under(rows, down)) && Depth(down) <= |rows| &&
      Flatten(Trees(rows, p, ids), LastOf(p)) ==
        Flatten(Trees(rows, p, ids[..n]), LastOf(p)) + [Row(ids[n], LastOf(p), NameOf(rows, ids[n]))]
        + Flatten(Trees(rows, down, Under(rows, down)), LastOf(down))
  {
    var n := |ids| - 1;
    assert ids[n] in ids;
    var down := Below(p, ids[n]);
    TrailFits(rows, down);
    var trees := Trees(rows, p, ids);
    assert trees[..n] == Trees(rows, p, ids[..n]);
  }

  /** How often trees show a row. */
  ghost function Seen(rows: seq<Row>, p: Trail, ids: seq<Id>, v: Row): nat
    requires Hang(rows, p, ids)
  {
    multiset(Flatten(Trees(rows, p, ids), LastOf(p)))[v]
  }

  lemma SeenLast(rows: seq<Row>, p: Trail, ids: seq<Id>, v: Row)
    requires Hang(rows, p, ids) && ids != []
    ensures var n := |ids| - 1; var down := Below(p, ids[n]);
      Hang(rows, down, Under(rows, down)) && Depth(down) <= |rows| &&
      Seen(rows, p, ids, v) ==
        Seen(rows, p, ids[..n], v) + Bit(Row(ids[n], LastOf(p), NameOf(rows, ids[n])) == v)
        + Seen(rows, down, Under(rows, down), v)
  {
    FlattenLast(rows, p, ids);
  }

  lemma MiddleRow(rows: seq<Row>, p: Trail, id: Id, q: Trail, k: nat)
    requires UniqueIds(rows) && IsTrail(rows, p) && id in Under(rows, p) && k < |rows| && EndsAt(rows, q, rows[k].id)
    ensures Row(id, LastOf(p), NameOf(rows, id)) == Shown(rows, rows[k]) <==> q == Below(p, id)
  {
    var j := TreeRow(rows, p, id);
    if j == k { OneTrail(rows, Below(p, id), q, id); }
  }

  /** The last of the trees is on the way, or it is one of those before it. */
  lemma GoesBy(rows: seq<Row>, p: Trail, ids: seq<Id>, q: Trail)
    requires Hang(rows, p, ids) && Distinct(ids) && ids != [] && IsTrail(rows, q)
    ensures var n := |ids| - 1; var down := Below(p, ids[n]);
      Bit(Goes(p, q, ids)) == Bit(Goes(p, q, ids[..n])) + Bit(q == down) + Bit(Goes(down, q, Under(rows, down)))
  {
    var n := |ids| - 1;
    var down := Below(p, ids[n]);
    assert ids == ids[..n] + [ids[n]];
    if OnTheWay(down, q) {
      AboveToo(p, ids[n], q);
      NextDownIs(rows, p, q);
      if q != down { NextDownIs(rows, down, q); }
    } else if OnTheWay(p, q) && p != q {
      NextDownIs(rows, p, q);
    }
  }

  lemma Parts(rows: seq<Row>, p: Trail, ids: seq<Id>)
    requires Hang(rows, p, ids) && ids != []
    ensures var n := |ids| - 1; var down := Below(p, ids[n]);
      Hang(rows, p, ids[..n]) && Hang(rows, down, Under(rows, down)) && Depth(down) <= |rows|
  {
    assert ids[|ids| - 1] in ids;
    TrailFits(rows, Below(p, ids[|ids| - 1]));
  }

  /** How often the row q ends at is found among the trees under p: once when they are on the way to it. */
  lemma {:induction false} Occurs(rows: seq<Row>, p: Trail, ids: seq<Id>, q: Trail, k: nat)
    requires Hang(rows, p, ids) && Distinct(ids) && k < |rows| && EndsAt(rows, q, rows[k].id)
    ensures Seen(rows, p, ids, Shown(rows, rows[k])) == Bit(Goes(p, q, ids))
    decreases |rows| - Depth(p), |ids|
  {
    if ids != [] {
      Parts(rows, p, ids);
      var n := |ids| - 1;
      var down := Below(p, ids[n]);
      Occurs(rows, p, ids[..n], q, k);
      ChildIdsDistinct(rows, |rows|, down.id);
      Occurs(rows, down, Under(rows, down), q, k);
      OccursBy(rows, p, ids, q, k);
    }
  }

  lemma OccursBy(rows: seq<Row>, p: Trail, ids: seq<Id>, q: Trail, k: nat)
    requires Hang(rows, p, ids) && Distinct(ids) && ids != [] && k < |rows| && EndsAt(rows, q, rows[k].id)
    ensures var n := |ids| - 1; var down := Below(p, ids[n]); var v := Shown(rows, rows[k]);
      Hang(rows, down, Under(rows, down)) &&
      Seen(rows, p, ids, v) - Bit(Goes(p, q, ids)) ==
        Seen(rows, p, ids[..n], v) - Bit(Goes(p, q, ids[..n]))
        + Seen(rows, down, Under(rows, down), v) - Bit(Goes(down, q, Under(rows, down)))
  {
    SeenLast(rows, p, ids, Shown(rows, rows[k]));
    GoesBy(rows, p, ids, q);
    assert ids[|ids| - 1] in ids;
    MiddleRow(rows, p, ids[|ids| - 1], q, k);
  }

  /** Trees show nothing but rows that hang from a root. */
  lemma {:induction false} ShowsOnlyRows(rows: seq<Row>, p: Trail, ids: seq<Id>, row: Row)
    requires Hang(rows, p, ids) && row in Flatten(Trees(rows, p, ids), LastOf(p))
    ensures exists k, q :: 0 <= k < |rows| && EndsAt(rows, q, rows[k].id) && row == Shown(rows, rows[k])
    decreases |rows| - Depth(p), |ids|
  {
    if ids != [] {
      var n := |ids| - 1;
      assert ids[n] in ids;
      var down := Below(p, ids[n]);
      TrailFits(rows, down);
      FlattenLast(rows, p, ids);
      if row in Flatten(Trees(rows, p, ids[..n]), LastOf(p)) {
        ShowsOnlyRows(rows, p, ids[..n], row);
      } else if row in Flatten(Trees(rows, down, Under(rows, down)), LastOf(down)) {
        ShowsOnlyRows(rows, down, Under(rows, down), row);
      } else {
        var k := TreeRow(rows, p, ids[n]);
        assert EndsAt(rows, down, rows[k].id);
      }
    }
  }

  /**
  Every row is in the forest exactly once, under its parent, or as a root when the parent
  is not among the rows, if it hangs from a root at all; and otherwise it is not in it.
  */
  lemma AppearsIff(rows: seq<Row>, k: nat)
    requires UniqueIds(rows) && k < |rows|
    ensures multiset(Flatten(Forest(rows), None))[Shown(rows, rows[k])]
            == Bit(exists q :: EndsAt(rows, q, rows[k].id))
  {
    if q :| EndsAt(rows, q, rows[k].id) {
      RootIdsDistinct(rows, |rows|);
      Occurs(rows, Top, Under(rows, Top), q, k);
      FromTheTop(q);
      NextDownIs(rows, Top, q);
    } else if Shown(rows, rows[k]) in Flatten(Forest(rows), None) {
      ShowsOnlyRows(rows, Top, Under(rows, Top), Shown(rows, rows[k]));
    }
  }

  function ShownAll(rows: seq<Row>, n: nat): seq<Row>
    requires n <= |rows|
  {
    if n == 0 then [] else ShownAll(rows, n - 1) + [Shown(rows, rows[n - 1])]
  }

  predicate IsShown(rows: seq<Row>, n: nat, row: Row)
    requires n <= |rows|
  {
    exists k | 0 <= k < n :: row == Shown(rows, rows[k])
  }

  lemma CountLast(rows: seq<Row>, row: Row, v: Row)
    ensures multiset(rows + [row])[v] == multiset(rows)[v] + Bit(row == v)
  {
  }

  lemma {:induction false} ShownOnce(rows: seq<Row>, n: nat, row: Row)
    requires UniqueIds(rows) && n <= |rows|
    ensures multiset(ShownAll(rows, n))[row] == Bit(IsShown(rows, n, row))
  {
    if n > 0 {
      ShownOnce(rows, n - 1, row);
      CountLast(ShownAll(rows, n - 1), Shown(rows, rows[n - 1]), row);
      ShownApart(rows, n, row);
    }
  }

  lemma ShownApart(rows: seq<Row>, n: nat, row: Row)
    requires UniqueIds(rows) && 0 < n <= |rows|
    ensures Bit(IsShown(rows, n, row)) == Bit(IsShown(rows, n - 1, row)) + Bit(Shown(rows, rows[n - 1]) == row)
  {
  }

  lemma SameCount(rows: seq<Row>, row: Row)
    requires UniqueIds(rows) && Acyclic(rows)
    ensures multiset(Flatten(Forest(rows), None))[row] == Bit(IsShown(rows, |rows|, row))
  {
    if IsShown(rows, |rows|, row) {
      var k :| 0 <= k < |rows| && row == Shown(rows, rows[k]);
      assert rows[k].id in Ids(rows);
      AppearsIff(rows, k);
    } else {
      if row in Flatten(Forest(rows), None) { ShowsOnlyRows(rows, Top, Under(rows, Top), row); }
    }
  }

  /** Flattening the forest of rows without loops gives back the rows and edges, none lost and none twice. */
  lemma FlattenRecovers(rows: seq<Row>)
    requires UniqueIds(rows) && Acyclic(rows)
    ensures multiset(Flatten(Forest(rows), None)) == multiset(ShownAll(rows, |rows|))
  {
    forall row ensures multiset(Flatten(Forest(rows), None))[row] == multiset(ShownAll(rows, |rows|))[row] {
      SameCount(rows, row);
      ShownOnce(rows, |rows|, row);
    }
  }

  /** Rows whose parents are all among them: a loop, and what hangs from it. */
  ghost predicate Loop(rows: seq<Row>, ids: set<Id>) {
    && ids != {} && ids <= Ids(rows)
    && forall row | row in rows && row.id in ids :: row.parent.Some? && row.parent.value in ids
  }

  lemma {:induction false} NoTrailIntoALoop(rows: seq<Row>, ids: set<Id>, trail: Trail)
    requires Loop(rows, ids) && IsTrail(rows, trail) && trail.Below?
    ensures trail.id !in ids
  {
    if trail.above.Below? {
      TrailInRows(rows, trail.above);
      NoTrailIntoALoop(rows, ids, trail.above);
    }
    var k := UnderIs(rows, trail.above, trail.id);
    assert rows[k] in rows;
  }

  lemma LoopIsLost(rows: seq<Row>, ids: set<Id>)
    requires Loop(rows, ids)
    ensures !Acyclic(rows)
  {
    var id :| id in ids;
    forall trail ensures !EndsAt(rows, trail, id) {
      if EndsAt(rows, trail, id) { NoTrailIntoALoop(rows, ids, trail); }
    }
    assert id in Ids(rows);
  }

  lemma LostIsALoop(rows: seq<Row>) returns (lost: set<Id>)
    requires UniqueIds(rows) && !Acyclic(rows)
    ensures Loop(rows, lost)
  {
    lost := set id | id in Ids(rows) && !exists trail :: EndsAt(rows, trail, id);
    forall row | row in rows && row.id in lost ensures row.parent.Some? && row.parent.value in lost {
      ParentLost(rows, row);
    }
  }

  /** Every row hangs from a root exactly when no rows form a loop. */
  lemma AcyclicIff(rows: seq<Row>)
    requires UniqueIds(rows)
    ensures Acyclic(rows) <==> !exists ids :: Loop(rows, ids)
  {
    if ids :| Loop(rows, ids) { LoopIsLost(rows, ids); }
    if !Acyclic(rows) { var _ := LostIsALoop(rows); }
  }

  lemma ParentLost(rows: seq<Row>, row: Row)
    requires UniqueIds(rows) && row in rows && !exists trail :: EndsAt(rows, trail, row.id)
    ensures !IsRoot(rows, row) && !exists trail :: EndsAt(rows, trail, row.parent.value)
  {
    var k :| 0 <= k < |rows| && rows[k] == row;
    if IsRoot(rows, row) {
      RootIdsAre(rows, |rows|, row.id);
      assert EndsAt(rows, Below(Top, row.id), row.id);
    } else if trail :| EndsAt(rows, trail, row.parent.value) {
      ChildIdsAre(rows, |rows|, trail.id, row.id);
      assert EndsAt(rows, Below(trail, row.id), row.id);
    }
  }

  // ---------------------------------------------------------------- the code

  class Node {
    const id: Id
    const name: string
    var children: seq<Node>

    constructor (row: Row)
      ensures id == row.id && name == row.name && children == []
    {
      id, name, children := row.id, row.name, [];
    }
  }

  /** The nodes are the ones of these rows, in order. */
  ghost predicate Are(nodes: seq<Node>, byID: map<Id, Node>, ids: seq<Id>) {
    |nodes| == |ids| && forall i | 0 <= i < |ids| :: ids[i] in byID && nodes[i] == byID[ids[i]]
  }

  /** One node for every row. */
  ghost predicate NodeEach(rows: seq<Row>, byID: map<Id, Node>) {
    && byID.Keys == Ids(rows)
    && (forall row | row in rows :: byID[row.id].id == row.id && byID[row.id].name == row.name)
  }

  /** The nodes of the first n rows that are roots, in row order. */
  function RootNodes(rows: seq<Row>, n: nat, byID: map<Id, Node>): seq<Node>
    requires n <= |rows| && Ids(rows) <= byID.Keys
  {
    if n == 0 then []
    else
      assert rows[n - 1] in rows;
      RootNodes(rows, n - 1, byID) + if IsRoot(rows, rows[n - 1]) then [byID[rows[n - 1].id]] else []
  }

  /** The nodes of the first n rows that are children of a row, in row order. */
  function ChildNodes(rows: seq<Row>, n: nat, byID: map<Id, Node>, id: Id): seq<Node>
    requires n <= |rows| && Ids(rows) <= byID.Keys
  {
    if n == 0 then []
    else
      assert rows[n - 1] in rows;
      ChildNodes(rows, n - 1, byID, id) + if rows[n - 1].parent == Some(id) then [byID[rows[n - 1].id]] else []
  }

  lemma {:induction false} RootsAre(rows: seq<Row>, n: nat, byID: map<Id, Node>)
    requires n <= |rows| && Ids(rows) <= byID.Keys
    ensures Are(RootNodes(rows, n, byID), byID, RootIds(rows, n))
  {
    if n > 0 {
      RootsAre(rows, n - 1, byID);
      assert rows[n - 1] in rows;
    }
  }

  lemma {:induction false} ChildrenAre(rows: seq<Row>, n: nat, byID: map<Id, Node>, id: Id)
    requires n <= |rows| && Ids(rows) <= byID.Keys
    ensures Are(ChildNodes(rows, n, byID, id), byID, ChildIds(rows, n, id))
  {
    if n > 0 {
      ChildrenAre(rows, n - 1, byID, id);
      assert rows[n - 1] in rows;
    }
  }

  /** The nodes hang together as the rows say, in row order. */
  ghost predicate Linked(rows: seq<Row>, byID: map<Id, Node>, roots: seq<Node>)
    reads byID.Values
  {
    && Are(roots, byID, RootIds(rows, |rows|))
    && forall id | id in byID :: Are(byID[id].children, byID, ChildIds(rows, |rows|, id))
  }

  method MakeNodes(rows: seq<Row>) returns (byID: map<Id, Node>)
    ensures byID.Keys == Ids(rows)
    ensures UniqueIds(rows) ==> NodeEach(rows, byID)
    ensures forall id | id in byID :: byID[id].id == id && byID[id].children == []
    ensures forall id | id in byID :: fresh(byID[id])
  {
    byID := map[];
    for i := 0 to |rows|
      invariant byID.Keys == Ids(rows[..i])
      invariant UniqueIds(rows) ==> NodeEach(rows[..i], byID)
      invariant forall id | id in byID :: byID[id].id == id && byID[id].children == []
      invariant forall id | id in byID :: fresh(byID[id])
    {
      var node := new Node(rows[i]);
      assert rows[..i + 1] == rows[..i] + [rows[i]];
      byID := byID[rows[i].id := node];
    }
    assert rows[..|rows|] == rows;
  }

  /** The second pass, one row: the node goes to its parent, or to the roots. */
  method LinkRow(rows: seq<Row>, i: nat, byID: map<Id, Node>, roots: seq<Node>) returns (more: seq<Node>)
    requires i < |rows| && byID.Keys == Ids(rows)
    requires forall id | id in byID :: byID[id].id == id
    modifies byID.Values
    ensures rows[i].id in byID
    ensures more == roots + if IsRoot(rows, rows[i]) then [byID[rows[i].id]] else []
    ensures forall id | id in byID ::
              byID[id].children == old(byID[id].children)
                + if rows[i].parent == Some(id) then [byID[rows[i].id]] else []
  {
    var row := rows[i];
    assert row in rows;
    var node := byID[row.id];
    more := roots;
    if row.parent == None {
      more := more + [node];
    } else if row.parent.value !in byID {
      more := more + [node];
    } else {
      var parent := byID[row.parent.value];
      parent.children := parent.children + [node];
    }
  }

  /** The whole second pass. */
  method LinkAll(rows: seq<Row>, byID: map<Id, Node>) returns (roots: seq<Node>)
    requires byID.Keys == Ids(rows)
    requires forall id | id in byID :: byID[id].id == id && byID[id].children == []
    modifies byID.Values
    ensures roots == RootNodes(rows, |rows|, byID)
    ensures forall id | id in byID :: byID[id].children == ChildNodes(rows, |rows|, byID, id)
  {
    roots := [];
    for i := 0 to |rows|
      invariant roots == RootNodes(rows, i, byID)
      invariant forall id | id in byID :: byID[id].children == ChildNodes(rows, i, byID, id)
    {
      roots := LinkRow(rows, i, byID, roots);
    }
  }

  method NestLocations(rows: seq<Row>) returns (roots: seq<Node>, ghost nodes: map<Id, Node>)
    requires UniqueIds(rows)
    ensures NodeEach(rows, nodes) && Linked(rows, nodes, roots)
    ensures fresh(nodes.Values)
  {
    var byID := MakeNodes(rows);
    nodes := byID;
    roots := LinkAll(rows, byID);
    RootsAre(rows, |rows|, byID);
    forall id | id in byID ensures Are(byID[id].children, byID, ChildIds(rows, |rows|, id)) {
      ChildrenAre(rows, |rows|, byID, id);
    }
  }

  /** The nodes look like the trees, all the way down. */
  ghost predicate Alike(nodes: seq<Node>, trees: seq<Tree>, all: set<Node>)
    reads all
    decreases trees
  {
    |nodes| == |trees| && forall i | 0 <= i < |nodes| :: NodeLike(nodes[i], trees[i], all)
  }

  ghost predicate NodeLike(node: Node, tree: Tree, all: set<Node>)
    reads all
    decreases tree, 0
  {
    node in all && node.id == tree.id && node.name == tree.name && Alike(node.children, tree.children, all)
  }

  /** What NestLocations leaves in memory is the forest. */
  lemma {:induction false} LinkedIsTheForest(rows: seq<Row>, byID: map<Id, Node>, roots: seq<Node>)
    requires UniqueIds(rows) && NodeEach(rows, byID) && Linked(rows, byID, roots)
    ensures Alike(roots, Forest(rows), byID.Values)
  {
    LinkedAlike(rows, byID, roots, Top, Under(rows, Top), roots);
  }

  lemma {:induction false} LinkedAlike(rows: seq<Row>, byID: map<Id, Node>, roots: seq<Node>, p: Trail, ids: seq<Id>,
                                     nodes: seq<Node>)
    requires NodeEach(rows, byID) && Linked(rows, byID, roots)
    requires Hang(rows, p, ids) && Are(nodes, byID, ids)
    ensures Alike(nodes, Trees(rows, p, ids), byID.Values)
    decreases |rows| - Depth(p), |ids|
  {
    if ids != [] {
      Parts(rows, p, ids);
      var n := |ids| - 1;
      var down := Below(p, ids[n]);
      LinkedAlike(rows, byID, roots, p, ids[..n], nodes[..n]);
      LinkedAlike(rows, byID, roots, down, Under(rows, down), byID[ids[n]].children);
      TreesLast(rows, p, ids);
      NodeIsNamed(rows, byID, p, ids[n]);
      AlikeLast(nodes, Trees(rows, p, ids), byID.Values);
    }
  }

  lemma TreesLast(rows: seq<Row>, p: Trail, ids: seq<Id>)
    requires Hang(rows, p, ids) && ids != []
    ensures var n := |ids| - 1; var down := Below(p, ids[n]); var trees := Trees(rows, p, ids);
      Hang(rows, p, ids[..n]) && Hang(rows, down, Under(rows, down)) && |trees| == |ids|
      && trees[..n] == Trees(rows, p, ids[..n])
      && trees[n] == Tree(ids[n], NameOf(rows, ids[n]), Trees(rows, down, Under(rows, down)))
  {
    Parts(rows, p, ids);
  }

  lemma NodeIsNamed(rows: seq<Row>, byID: map<Id, Node>, p: Trail, id: Id)
    requires NodeEach(rows, byID) && UniqueIds(rows) && IsTrail(rows, p) && id in Under(rows, p)
    ensures id in byID && byID[id].id == id && byID[id].name == NameOf(rows, id)
  {
    var k := TreeRow(rows, p, id);
    assert rows[k] in rows;
    NameOfRow(rows, k);
  }

  lemma AlikeLast(nodes: seq<Node>, trees: seq<Tree>, all: set<Node>)
    requires |nodes| == |trees| > 0
    requires Alike(nodes[..|nodes| - 1], trees[..|trees| - 1], all)
    requires NodeLike(nodes[|nodes| - 1], trees[|trees| - 1], all)
    ensures Alike(nodes, trees, all)
  {
    forall i | 0 <= i < |nodes| - 1 ensures NodeLike(nodes[i], trees[i], all) {
      assert NodeLike(nodes[..|nodes| - 1][i], trees[..|trees| - 1][i], all);
    }
  }
}
