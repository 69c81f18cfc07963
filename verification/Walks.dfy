/** Walking a collection that changes between requests, a page at a time, newest first. */
module Walks {
  import opened Arithmetic
  import opened Wrappers

  /** After the cursor in the fixed order, or anything when there is none. */
  ghost predicate After<T>(id: T, after: Option<T>, rank: T -> int) { after == None || rank(id) < rank(after.value) }

  ghost predicate Descending<T>(rows: seq<T>, rank: T -> int) {
    forall i, j | 0 <= i < j < |rows| :: rank(rows[j]) < rank(rows[i])
  }

  /** What the query promises: the first n of the items after the cursor, newest first. */
  ghost predicate IsQuery<T>(items: set<T>, after: Option<T>, n: nat, rows: seq<T>, rank: T -> int) {
    && Descending(rows, rank) && |rows| <= n
    && (forall id | id in rows :: id in items && After(id, after, rank))
    && (forall id | id in items && After(id, after, rank) && id !in rows ::
          |rows| == n && forall r | r in rows :: rank(id) < rank(r))
  }

  /** A request finds the collection as it is then, and may ask for another page size. */
  datatype Request<T> = Request(items: set<T>, limit: nat)

  datatype Batch<T> = Batch(items: seq<T>, more: bool)

  /** One row too many means there is more. */
  function BatchOf<T>(rows: seq<T>, limit: nat): Batch<T> {
    if |rows| <= limit then Batch(rows, false) else Batch(rows[..limit], true)
  }

  /**
  What one batch tells: all of its items are after the cursor, and nothing there that comes before
  them is missed.
  */
  ghost predicate Answers<T>(req: Request<T>, after: Option<T>, batch: Batch<T>, rank: T -> int) {
    && Descending(batch.items, rank) && |batch.items| <= req.limit
    && (forall id | id in batch.items :: id in req.items && After(id, after, rank))
    && (batch.more ==> |batch.items| == req.limit >= 1)
    && (forall id | id in req.items && After(id, after, rank) && id !in batch.items ::
          batch.more && rank(id) < rank(batch.items[req.limit - 1]))
  }

  /** What the handler returns of what the query found. */
  lemma BatchAnswers<T>(req: Request<T>, after: Option<T>, rows: seq<T>, rank: T -> int)
    requires req.limit >= 1 && IsQuery(req.items, after, req.limit + 1, rows, rank)
    ensures Answers(req, after, BatchOf(rows, req.limit), rank)
  {
    if |rows| > req.limit {
      assert rows == rows[..req.limit] + [rows[req.limit]];
    }
  }

  /** Where the k-th request continues: after the last item of the batch before. */
  function CursorAt<T>(batches: seq<Batch<T>>, k: nat): Option<T>
    requires k <= |batches|
  {
    if k == 0 || |batches[k - 1].items| == 0 then None
    else Some(batches[k - 1].items[|batches[k - 1].items| - 1])
  }

  ghost predicate AnswersAt<T>(reqs: seq<Request<T>>, batches: seq<Batch<T>>, rank: T -> int, k: int) {
    0 <= k < |batches| && |reqs| == |batches|
    && Answers(reqs[k], CursorAt(batches, k), batches[k], rank)
    && (k < |batches| - 1 ==> batches[k].more)
  }

  ghost predicate IsWalk<T>(reqs: seq<Request<T>>, batches: seq<Batch<T>>, rank: T -> int) {
    |reqs| == |batches|
    && forall k {:trigger AnswersAt(reqs, batches, rank, k)} | 0 <= k < |batches| :: AnswersAt(reqs, batches, rank, k)
  }

  /** A batch's items come before whatever its cursor continues with. */
  lemma BeforeCursor<T>(reqs: seq<Request<T>>, batches: seq<Batch<T>>, rank: T -> int,
                                           k: nat, id: T)
    requires AnswersAt(reqs, batches, rank, k) && k < |batches| - 1 && id in batches[k].items
    ensures CursorAt(batches, k + 1).Some? && rank(CursorAt(batches, k + 1).value) <= rank(id)
  {
    var items := batches[k].items;
    var i :| 0 <= i < |items| && items[i] == id;
  }

  /** Each cursor is below the one before. */
  lemma CursorBelow<T>(reqs: seq<Request<T>>, batches: seq<Batch<T>>, rank: T -> int, k: nat)
    requires AnswersAt(reqs, batches, rank, k) && k < |batches| - 1
    ensures CursorAt(batches, k + 1).Some?
    ensures CursorAt(batches, k).Some? ==> rank(CursorAt(batches, k + 1).value) < rank(CursorAt(batches, k).value)
  {
    var items := batches[k].items;
    assert items[|items| - 1] in items;
  }

  /** Cursors only go down. */
  lemma {:induction false} CursorsDescend<T>(reqs: seq<Request<T>>, batches: seq<Batch<T>>, rank: T -> int,
                                         j: nat, k: nat)
    requires IsWalk(reqs, batches, rank) && 0 < j <= k < |batches|
    ensures CursorAt(batches, j).Some? && CursorAt(batches, k).Some?
    ensures rank(CursorAt(batches, k).value) <= rank(CursorAt(batches, j).value)
  {
    if j < k {
      CursorsDescend(reqs, batches, rank, j, k - 1);
      assert AnswersAt(reqs, batches, rank, k - 1);
      CursorBelow(reqs, batches, rank, k - 1);
    } else {
      assert AnswersAt(reqs, batches, rank, j - 1);
      CursorBelow(reqs, batches, rank, j - 1);
    }
  }

  lemma AfterItsCursor<T>(reqs: seq<Request<T>>, batches: seq<Batch<T>>, rank: T -> int,
                                           k: nat, id: T)
    requires AnswersAt(reqs, batches, rank, k) && id in batches[k].items
    ensures id in reqs[k].items && After(id, CursorAt(batches, k), rank)
  {
  }

  /** No item is returned twice, whatever comes and goes between the requests: every later item is older. */
  lemma NoItemTwice<T>(reqs: seq<Request<T>>, batches: seq<Batch<T>>, rank: T -> int, j: nat, k: nat, a: T, b: T)
    requires IsWalk(reqs, batches, rank) && j < k < |batches| && a in batches[j].items && b in batches[k].items
    ensures rank(b) < rank(a)
  {
    assert AnswersAt(reqs, batches, rank, j) && AnswersAt(reqs, batches, rank, k);
    BeforeCursor(reqs, batches, rank, j, a);
    CursorsDescend(reqs, batches, rank, j + 1, k);
    AfterItsCursor(reqs, batches, rank, k, b);
  }

  lemma ReturnedOrLater<T>(reqs: seq<Request<T>>, batches: seq<Batch<T>>, rank: T -> int,
                                           k: nat, id: T)
    requires AnswersAt(reqs, batches, rank, k) && id in reqs[k].items && After(id, CursorAt(batches, k), rank)
    ensures id in batches[k].items
         || (batches[k].more && (k < |batches| - 1 ==> After(id, CursorAt(batches, k + 1), rank)))
  {
  }

  ghost predicate Returned<T>(batches: seq<Batch<T>>, k: nat, id: T) {
    exists j :: 0 <= j < k && j < |batches| && id in batches[j].items
  }

  /** An item there all along is in one of the first k batches, or lies after the k-th cursor. */
  lemma {:induction false} ReturnedOrAhead<T>(reqs: seq<Request<T>>, batches: seq<Batch<T>>, rank: T -> int,
                                           k: nat, id: T)
    requires IsWalk(reqs, batches, rank) && k < |batches| && forall j | 0 <= j < |reqs| :: id in reqs[j].items
    ensures Returned(batches, k, id) || After(id, CursorAt(batches, k), rank)
  {
    if k > 0 {
      ReturnedOrAhead(reqs, batches, rank, k - 1, id);
      if !Returned(batches, k - 1, id) {
        assert AnswersAt(reqs, batches, rank, k - 1) && id in reqs[k - 1].items;
        ReturnedOrLater(reqs, batches, rank, k - 1, id);
      } else {
        var j :| 0 <= j < k - 1 && id in batches[j].items;
      }
    }
  }

  /** By the time there is no more, every item that was there all along has been returned. */
  lemma LastingItemsReturned<T>(reqs: seq<Request<T>>, batches: seq<Batch<T>>, rank: T -> int, id: T)
    requires IsWalk(reqs, batches, rank) && batches != [] && !batches[|batches| - 1].more
    requires forall j | 0 <= j < |reqs| :: id in reqs[j].items
    ensures Returned(batches, |batches|, id)
  {
    var n := |batches| - 1;
    ReturnedOrAhead(reqs, batches, rank, n, id);
    if Returned(batches, n, id) {
      var j :| 0 <= j < n && id in batches[j].items;
    } else {
      assert AnswersAt(reqs, batches, rank, n) && id in reqs[n].items;
      ReturnedOrLater(reqs, batches, rank, n, id);
    }
  }

  // ------------------------------------------------------------------- the end

  ghost function Ahead<T>(items: set<T>, after: Option<T>, rank: T -> int): set<T> {
    set id | id in items && After(id, after, rank)
  }

  lemma {:induction false} DistinctCount<T>(rows: seq<T>, rank: T -> int)
    requires Descending(rows, rank)
    ensures |set id | id in rows| == |rows|
  {
    if rows == [] {
      assert (set id | id in rows) == {};
    } else {
      var n := |rows| - 1;
      DistinctCount(rows[..n], rank);
      assert (set id | id in rows) == (set id | id in rows[..n]) + {rows[n]};
    }
  }

  lemma LeftAfter<T>(req: Request<T>, after: Option<T>, batch: Batch<T>, rank: T -> int)
    requires Answers(req, after, batch, rank) && batch.more
    ensures |batch.items| == req.limit >= 1
    ensures Ahead(req.items, Some(batch.items[req.limit - 1]), rank) !! (set id | id in batch.items)
    ensures Ahead(req.items, Some(batch.items[req.limit - 1]), rank) + (set id | id in batch.items)
            <= Ahead(req.items, after, rank)
  {
    var last := batch.items[req.limit - 1];
    assert last in batch.items;
    forall id | id in batch.items ensures id !in Ahead(req.items, Some(last), rank) {
      var i :| 0 <= i < |batch.items| && batch.items[i] == id;
    }
  }

  /** A batch with more to come leaves fewer items ahead: as many fewer as it returned. */
  lemma FewerAhead<T>(req: Request<T>, after: Option<T>, batch: Batch<T>, rank: T -> int)
    requires Answers(req, after, batch, rank) && batch.more
    ensures |batch.items| == req.limit >= 1
    ensures |Ahead(req.items, Some(batch.items[req.limit - 1]), rank)| + req.limit <= |Ahead(req.items, after, rank)|
  {
    LeftAfter(req, after, batch, rank);
    DistinctCount(batch.items, rank);
    SubsetCount(Ahead(req.items, Some(batch.items[req.limit - 1]), rank) + (set id | id in batch.items),
                Ahead(req.items, after, rank));
  }

  /** While nothing is added behind the cursor, a walk takes no more requests than there were items, and one. */
  lemma {:induction false} WalkIsBounded<T>(reqs: seq<Request<T>>, batches: seq<Batch<T>>, rank: T -> int, k: nat)
    requires IsWalk(reqs, batches, rank) && k < |batches|
    requires forall j | 0 < j < |batches| :: Ahead(reqs[j].items, CursorAt(batches, j), rank) <= reqs[j - 1].items
    ensures |Ahead(reqs[k].items, CursorAt(batches, k), rank)| + k <= |reqs[0].items|
  {
    if k == 0 {
      SubsetCount(Ahead(reqs[0].items, None, rank), reqs[0].items);
    } else {
      WalkIsBounded(reqs, batches, rank, k - 1);
      assert AnswersAt(reqs, batches, rank, k - 1);
      FewerAhead(reqs[k - 1], CursorAt(batches, k - 1), batches[k - 1], rank);
      SubsetCount(Ahead(reqs[k].items, CursorAt(batches, k), rank),
                  Ahead(reqs[k - 1].items, CursorAt(batches, k), rank));
    }
  }

  lemma BatchLeavesFewer<T>(req: Request<T>, after: Option<T>, batch: Batch<T>, rank: T -> int)
    requires Answers(req, after, batch, rank) && batch.more
    ensures batch.items != []
    ensures |Ahead(req.items, CursorAt([batch], 1), rank)| < |Ahead(req.items, after, rank)|
  {
    FewerAhead(req, after, batch, rank);
  }

  // ------------------------------------------------------- requests are answered

  /** No two items rank the same. */
  ghost predicate Ranked<T>(items: set<T>, rank: T -> int) {
    forall a, b | a in items && b in items && rank(a) == rank(b) :: a == b
  }

  lemma {:induction false} Highest<T>(items: set<T>, rank: T -> int) returns (m: T)
    requires items != {}
    ensures m in items && forall id | id in items :: rank(id) <= rank(m)
  {
    m :| m in items;
    if items != {m} {
      var n := Highest(items - {m}, rank);
      if rank(n) > rank(m) { m := n; }
    }
  }

  /** Whatever the collection and the cursor, the query has an answer. */
  lemma {:induction false} QueryExists<T>(items: set<T>, after: Option<T>, n: nat, rank: T -> int)
    returns (rows: seq<T>)
    requires Ranked(items, rank)
    ensures IsQuery(items, after, n, rows, rank)
    decreases n
  {
    var ahead := Ahead(items, after, rank);
    if n == 0 || ahead == {} {
      rows := [];
      assert forall id | id in items && After(id, after, rank) :: id in ahead;
    } else {
      var m := Highest(ahead, rank);
      var rest := QueryExists(items, Some(m), n - 1, rank);
      rows := [m] + rest;
      QueryMore(items, after, n, m, rest, rank);
    }
  }

  lemma QueryMore<T>(items: set<T>, after: Option<T>, n: nat, m: T, rest: seq<T>, rank: T -> int)
    requires n >= 1 && Ranked(items, rank) && IsQuery(items, Some(m), n - 1, rest, rank)
    requires m in items && After(m, after, rank)
    requires forall id | id in items && After(id, after, rank) :: rank(id) <= rank(m)
    ensures IsQuery(items, after, n, [m] + rest, rank)
  {
    var rows := [m] + rest;
    assert forall r | r in rows :: r == m || r in rest;
    forall i, j | 0 <= i < j < |rows| ensures rank(rows[j]) < rank(rows[i]) {
      assert rows[j] == rest[j - 1] && rows[j] in rest;
      if i > 0 { assert rows[i] == rest[i - 1]; }
    }
    forall id | id in items && After(id, after, rank) && id !in rows
      ensures |rows| == n && forall r | r in rows :: rank(id) < rank(r)
    {
      assert rank(id) != rank(m);
      assert After(id, Some(m), rank) && id !in rest;
    }
  }
}
