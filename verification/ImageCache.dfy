/**
The suggestion-image cache (internal/imagesearch/cache.go): rows in the database, files
in a directory, and no transaction across the two.

A row's place in `rows` is its recency, least recently used first; PutCachedImage stamps
the newest access time, so it moves its row to the end.  Every single effect on either
store is appended to `history`, so that a statement about all of `history` is a statement
about a crash between any two steps.  Whether the n-th call to the database or the file
system works is not the cache's to decide: `works` says so, for every cache there can be,
and what an operation achieves when all of its calls work is stated in terms of it.
*/
module ImageCache {
  import opened Binary
  import opened Wrappers

  type Bytes = seq<Byte>

  datatype Status = Usable | Unusable
  datatype Row = Row(hash: string, sourceURL: string, contentType: string, size: nat, status: Status)
  datatype Disk = Disk(rows: seq<Row>, files: map<string, Bytes>)

  /** What downloading and normalizing a candidate came to. */
  datatype Candidate =
    | Unreachable                     // the request failed, or the answer was not 200
    | OverDownloadCap                 // the body is larger than the download cap
    | NotUsable                       // normalizing found the picture unusable
    | NormalizeFailed
    | Picture(data: Bytes, contentType: string)

  datatype Error = StoreFailed | FileFailed | KnownUnusable | FetchFailed | NotFound

  const EVICT_TARGET_RATIO: real := 0.9
  const LRU_BATCH: nat := 64

  // ------------------------------------------------------------------ the rows

  /** The SHA-256 of a URL, in hexadecimal: never empty, never starting with a dot. */
  predicate IsHash(name: string) { |name| == 64 && name[0] != '.' }

  predicate IsDotFile(name: string) { |name| > 0 && name[0] == '.' }

  predicate WellFormed(rows: seq<Row>) {
    && (forall i | 0 <= i < |rows| :: IsHash(rows[i].hash))
    && (forall i, j | 0 <= i < j < |rows| :: rows[i].hash != rows[j].hash)
  }

  function Lookup(rows: seq<Row>, hash: string): (r: Option<Row>)
    ensures r.Some? ==> r.value in rows && r.value.hash == hash
    ensures r.None? ==> forall row | row in rows :: row.hash != hash
  {
    if rows == [] then None
    else if rows[0].hash == hash then Some(rows[0])
    else Lookup(rows[1..], hash)
  }

  function Delete(rows: seq<Row>, hash: string): seq<Row> {
    if rows == [] then []
    else (if rows[0].hash == hash then [] else [rows[0]]) + Delete(rows[1..], hash)
  }

  function Put(rows: seq<Row>, row: Row): seq<Row> { Delete(rows, row.hash) + [row] }

  function Kept(rows: seq<Row>, status: Status): seq<Row> {
    if rows == [] then []
    else (if rows[0].status == status then [rows[0]] else []) + Kept(rows[1..], status)
  }

  /** The usable rows, least recently used first, at most `limit` of them. */
  function LeastRecentlyUsed(rows: seq<Row>, limit: nat): (batch: seq<Row>)
    ensures batch <= Kept(rows, Usable) && |batch| <= limit
    ensures |batch| == limit || batch == Kept(rows, Usable)
  {
    var usable := Kept(rows, Usable);
    if |usable| < limit then usable else usable[..limit]
  }

  function Total(rows: seq<Row>): nat {
    if rows == [] then 0 else (if rows[0].status.Usable? then rows[0].size else 0) + Total(rows[1..])
  }

  lemma {:induction false} InDelete(rows: seq<Row>, hash: string)
    ensures forall row :: row in Delete(rows, hash) <==> row in rows && row.hash != hash
  {
    if rows != [] {
      InDelete(rows[1..], hash);
      assert rows == [rows[0]] + rows[1..];
    }
  }

  lemma {:induction false} InKept(rows: seq<Row>, status: Status)
    ensures forall row :: row in Kept(rows, status) <==> row in rows && row.status == status
  {
    if rows != [] {
      InKept(rows[1..], status);
      assert rows == [rows[0]] + rows[1..];
    }
  }

  lemma {:induction false} DeleteKeepsShape(rows: seq<Row>, hash: string)
    requires WellFormed(rows)
    ensures WellFormed(Delete(rows, hash))
  {
    if rows != [] {
      DeleteKeepsShape(rows[1..], hash);
      InDelete(rows[1..], hash);
      forall row | row in Delete(rows[1..], hash) ensures row.hash != rows[0].hash {}
    }
  }

  lemma DeleteAbsent(rows: seq<Row>, hash: string)
    requires forall row | row in rows :: row.hash != hash
    ensures Delete(rows, hash) == rows
  {
  }

  lemma {:induction false} KeptDelete(rows: seq<Row>, status: Status, hash: string)
    ensures Kept(Delete(rows, hash), status) == Delete(Kept(rows, status), hash)
  {
    if rows != [] {
      KeptDelete(rows[1..], status, hash);
      var rest := Delete(rows[1..], hash);
      if rows[0].hash == hash {
        assert Delete(rows, hash) == rest;
      } else {
        assert Delete(rows, hash) == [rows[0]] + rest && ([rows[0]] + rest)[1..] == rest;
      }
      if rows[0].status == status {
        assert Kept(rows, status)[1..] == Kept(rows[1..], status);
      } else {
        assert Kept(rows, status) == Kept(rows[1..], status);
      }
    }
  }

  lemma {:induction false} TotalOfKept(rows: seq<Row>)
    ensures Total(Kept(rows, Usable)) == Total(rows)
  {
    if rows != [] {
      TotalOfKept(rows[1..]);
      if rows[0].status.Usable? {
        assert Kept(rows, Usable)[1..] == Kept(rows[1..], Usable);
      } else {
        assert Kept(rows, Usable) == Kept(rows[1..], Usable);
      }
    }
  }

  lemma HeadGone(rows: seq<Row>)
    requires WellFormed(rows) && rows != []
    ensures Delete(rows, rows[0].hash) == rows[1..]
  {
    DeleteAbsent(rows[1..], rows[0].hash);
  }

  lemma OldestGoneFromKept(rows: seq<Row>)
    requires WellFormed(rows) && Kept(rows, Usable) != []
    ensures Delete(Kept(rows, Usable), Kept(rows, Usable)[0].hash) == Kept(rows, Usable)[1..]
    ensures Delete(Kept(rows, Unusable), Kept(rows, Usable)[0].hash) == Kept(rows, Unusable)
  {
    KeptDistinct(rows);
    HeadGone(Kept(rows, Usable));
    DeleteAbsent(Kept(rows, Unusable), Kept(rows, Usable)[0].hash);
  }

  /** Taking the oldest usable row away takes its size off the total, and nothing else. */
  lemma OldestGone(rows: seq<Row>)
    requires WellFormed(rows) && Kept(rows, Usable) != []
    ensures var oldest := Kept(rows, Usable)[0]; var rest := Delete(rows, oldest.hash);
      && Kept(rest, Usable) == Kept(rows, Usable)[1..]
      && Kept(rest, Unusable) == Kept(rows, Unusable)
      && Total(rest) == Total(rows) - oldest.size
  {
    var oldest := Kept(rows, Usable)[0];
    var rest := Delete(rows, oldest.hash);
    OldestGoneFromKept(rows);
    KeptDelete(rows, Usable, oldest.hash);
    KeptDelete(rows, Unusable, oldest.hash);
    assert Total(Kept(rows, Usable)) == oldest.size + Total(Kept(rows, Usable)[1..]) by { InKept(rows, Usable); }
    TotalOfKept(rows);
    TotalOfKept(rest);
  }

  lemma {:induction false} KeptDistinct(rows: seq<Row>)
    requires WellFormed(rows)
    ensures WellFormed(Kept(rows, Usable))
    ensures forall a, b | a in Kept(rows, Usable) && b in Kept(rows, Unusable) :: a.hash != b.hash
  {
    if rows != [] {
      KeptDistinct(rows[1..]);
      InKept(rows[1..], Usable);
      InKept(rows[1..], Unusable);
      forall row | row in rows[1..] ensures row.hash != rows[0].hash {}
    }
  }

  /** What eviction leaves: the oldest usable rows go, one by one, until the rest fits. */
  function Evicted(rows: seq<Row>, target: nat): seq<Row>
    requires WellFormed(rows)
    decreases |Kept(rows, Usable)|
  {
    if Total(rows) <= target then rows
    else
      TotalOfKept(rows);
      OldestGone(rows);
      DeleteKeepsShape(rows, Kept(rows, Usable)[0].hash);
      Evicted(Delete(rows, Kept(rows, Usable)[0].hash), target)
  }

  /** The evicted rows are the shortest prefix, in access order, whose removal is enough. */
  lemma {:induction false} EvictsShortestPrefix(rows: seq<Row>, target: nat) returns (k: nat)
    requires WellFormed(rows)
    ensures k <= |Kept(rows, Usable)|
    ensures Kept(Evicted(rows, target), Usable) == Kept(rows, Usable)[k..]
    ensures Kept(Evicted(rows, target), Unusable) == Kept(rows, Unusable)
    ensures Total(Evicted(rows, target)) == Total(Kept(rows, Usable)[k..]) <= target
    ensures forall j | 0 <= j < k :: Total(Kept(rows, Usable)[j..]) > target
    decreases |Kept(rows, Usable)|
  {
    TotalOfKept(rows);
    if Total(rows) <= target {
      k := 0;
    } else {
      var rest := Delete(rows, Kept(rows, Usable)[0].hash);
      OldestGone(rows);
      DeleteKeepsShape(rows, Kept(rows, Usable)[0].hash);
      var usable := Kept(rows, Usable);
      k := EvictsShortestPrefix(rest, target);
      forall j | 0 <= j < k + 1 ensures Total(usable[j..]) > target {
        if j > 0 {
          assert usable[j..] == usable[1..][j - 1..];
        }
      }
      assert usable[k + 1..] == usable[1..][k..];
      k := k + 1;
    }
  }

  lemma {:induction false} EvictedShape(rows: seq<Row>, target: nat)
    requires WellFormed(rows)
    ensures WellFormed(Evicted(rows, target))
    ensures forall row | row in Evicted(rows, target) :: row in rows
    decreases |Kept(rows, Usable)|
  {
    if Total(rows) > target {
      TotalOfKept(rows);
      OldestGone(rows);
      DeleteKeepsShape(rows, Kept(rows, Usable)[0].hash);
      EvictedShape(Delete(rows, Kept(rows, Usable)[0].hash), target);
      InDelete(rows, Kept(rows, Usable)[0].hash);
    }
  }

  lemma {:induction false} KeptAppend(rows: seq<Row>, row: Row)
    ensures Kept(rows + [row], Usable) == Kept(rows, Usable) + if row.status.Usable? then [row] else []
    ensures Total(rows + [row]) == Total(rows) + if row.status.Usable? then row.size else 0
  {
    if rows == [] {
      assert rows + [row] == [row];
    } else {
      assert (rows + [row])[1..] == rows[1..] + [row];
      KeptAppend(rows[1..], row);
    }
  }

  /** The newest row outlives the eviction exactly when it fits the target, or nothing had to go. */
  lemma NewestSurvivesIff(rows: seq<Row>, row: Row, target: nat)
    requires WellFormed(rows + [row]) && row.status.Usable?
    ensures row in Evicted(rows + [row], target) <==> row.size <= target
  {
    var all := rows + [row];
    var k := EvictsShortestPrefix(all, target);
    KeptAppend(rows, row);
    var usable := Kept(all, Usable);
    var n := |usable| - 1;
    assert usable[n..] == [row];
    InKept(Evicted(all, target), Usable);
    if k <= n {
      assert row == usable[k..][n - k];
      assert Total(usable[k..]) >= row.size by { TotalTail(usable[k..], n - k); }
    } else {
      assert Kept(Evicted(all, target), Usable) == [];
    }
  }

  lemma {:induction false} TotalTail(rows: seq<Row>, i: nat)
    requires i <= |rows|
    ensures Total(rows[i..]) <= Total(rows)
  {
    if i > 0 {
      assert rows[i..] == rows[1..][i - 1..];
      TotalTail(rows[1..], i - 1);
    }
  }

  // ------------------------------------------------------------- the two stores

  /** The safe direction: a usable row has its file.  A file may be without a row. */
  predicate Safe(d: Disk) {
    WellFormed(d.rows) && forall row | row in d.rows && row.status.Usable? :: row.hash in d.files
  }

  /** No crash since the first `from` states can have left a row without its file. */
  predicate SafeSince(history: seq<Disk>, from: nat) {
    forall i | from <= i < |history| :: Safe(history[i])
  }

  /** Files only disappear, and only behind a usable row that is gone. */
  ghost predicate FilesFollowRows(before: Disk, now: Disk) {
    && (forall name | name in now.files :: name in before.files && now.files[name] == before.files[name])
    && (forall name | name in before.files && name !in now.files ::
          exists row :: row in before.rows && row.hash == name && row.status.Usable? && row !in now.rows)
  }

  /** What eviction may have done so far: some of the rows it must take, and files behind them. */
  ghost predicate Evicting(before: Disk, now: Disk, target: nat) {
    && WellFormed(before.rows) && WellFormed(now.rows)
    && Evicted(now.rows, target) == Evicted(before.rows, target)
    && (forall row | row in now.rows :: row in before.rows)
    && FilesFollowRows(before, now)
    && (Safe(before) ==> Safe(now))
  }

  lemma EvictingStep(d: Disk, target: nat)
    requires WellFormed(d.rows) && Total(d.rows) > target && Kept(d.rows, Usable) != []
    ensures var hash := Kept(d.rows, Usable)[0].hash;
      && Evicting(d, Disk(Delete(d.rows, hash), d.files), target)
      && Evicting(d, Disk(Delete(d.rows, hash), d.files - {hash}), target)
  {
    var oldest := Kept(d.rows, Usable)[0];
    DeleteKeepsShape(d.rows, oldest.hash);
    InDelete(d.rows, oldest.hash);
    InKept(d.rows, Usable);
    assert oldest in d.rows && oldest !in Delete(d.rows, oldest.hash);
  }

  /** Every row that went took its file along. */
  ghost predicate FilesGone(before: Disk, now: Disk) {
    forall row | row in before.rows && row !in now.rows :: row.hash !in now.files
  }

  lemma EvictingThen(a: Disk, b: Disk, c: Disk, target: nat)
    requires Evicting(a, b, target) && Evicting(b, c, target)
    ensures Evicting(a, c, target)
    ensures FilesGone(a, b) && FilesGone(b, c) ==> FilesGone(a, c)
  {
  }

  class Cache {
    var rows: seq<Row>
    var files: map<string, Bytes>
    const maxBytes: nat
    /** The stores after every effect so far: what a crash may leave. */
    var history: seq<Disk>
    /** Which calls to the database and the file system work, and how many were made. */
    const works: nat -> bool
    var calls: nat

    constructor (disk: Disk, maxBytes: nat, works: nat -> bool)
      requires WellFormed(disk.rows)
      ensures Valid() && Now() == disk && history == [disk] && calls == 0
      ensures disk == Disk([], map[]) ==> Safe(Now())
      ensures this.maxBytes == maxBytes && this.works == works
    {
      rows, files, history, calls := disk.rows, disk.files, [disk], 0;
      this.maxBytes, this.works := maxBytes, works;
    }

    ghost predicate Valid()
      reads this
    {
      WellFormed(rows)
    }

    function Now(): Disk
      reads this
    {
      Disk(rows, files)
    }

    /** Where eviction stops: the ceiling times the ratio, truncated. */
    function Target(): (r: nat)
      ensures r <= maxBytes && 10 * r <= 9 * maxBytes < 10 * (r + 1)
    {
      (maxBytes as real * EVICT_TARGET_RATIO).Floor
    }

    /** Every call made since has worked. */
    ghost predicate Fine(from: nat)
      reads this
    {
      forall k | from <= k < calls :: works(k)
    }

    /** One more call to the database or the file system. */
    method Ask() returns (ok: bool)
      modifies this`calls
      ensures calls == old(calls) + 1 && ok == works(old(calls))
    {
      ok := works(calls);
      calls := calls + 1;
    }

    // --- single effects

    /** An upsert; on an error the row may be stored or not. */
    method PutRow(row: Row) returns (ok: bool)
      requires Valid() && IsHash(row.hash)
      modifies this
      ensures Valid() && files == old(files) && calls == old(calls) + 1 && ok == works(old(calls))
      ensures ok ==> rows == Put(old(rows), row)
      ensures rows == old(rows) || rows == Put(old(rows), row)
      ensures history == old(history) + [Now()]
    {
      ok := Ask();
      var landed: bool := *;
      if ok || landed {
        DeleteKeepsShape(rows, row.hash);
        InDelete(rows, row.hash);
        rows := Put(rows, row);
      }
      history := history + [Now()];
    }

    method DeleteRow(hash: string) returns (ok: bool)
      requires Valid()
      modifies this
      ensures Valid() && files == old(files) && calls == old(calls) + 1 && ok == works(old(calls))
      ensures ok ==> rows == Delete(old(rows), hash)
      ensures rows == old(rows) || rows == Delete(old(rows), hash)
      ensures history == old(history) + [Now()]
    {
      ok := Ask();
      var landed: bool := *;
      if ok || landed {
        DeleteKeepsShape(rows, hash);
        rows := Delete(rows, hash);
      }
      history := history + [Now()];
    }

    /** Creates, fills, or renames over a file. */
    method SetFile(name: string, data: Bytes)
      modifies this`files, this`history
      ensures rows == old(rows) && files == old(files)[name := data]
      ensures history == old(history) + [Now()]
    {
      files := files[name := data];
      history := history + [Now()];
    }

    /** A rename is one effect: the file has the old name or the new one. */
    method Rename(from: string, to: string) returns (ok: bool)
      requires from in files
      modifies this
      ensures rows == old(rows) && calls == old(calls) + 1 && ok == works(old(calls))
      ensures files == if ok then (old(files) - {from})[to := old(files)[from]] else old(files)
      ensures history == old(history) + [Now()]
    {
      ok := Ask();
      if ok {
        files := (files - {from})[to := files[from]];
      }
      history := history + [Now()];
    }

    /** False when the file is still there. */
    method RemoveFile(name: string) returns (ok: bool)
      modifies this
      ensures rows == old(rows) && calls == old(calls) + 1 && ok == works(old(calls))
      ensures files == if ok then old(files) - {name} else old(files)
      ensures history == old(history) + [Now()]
    {
      ok := Ask();
      if ok {
        files := files - {name};
      }
      history := history + [Now()];
    }

    // --- eviction

    /** One round of the inner loop: the row first, the file second. */
    method EvictOne(row: Row, target: nat) returns (deleted: bool)
      requires Valid() && Total(rows) > target
      requires Kept(rows, Usable) != [] && row == Kept(rows, Usable)[0]
      modifies this
      ensures Valid() && old(history) <= history && Evicting(old(Now()), Now(), target)
      ensures Safe(old(Now())) ==> SafeSince(history, |old(history)|)
      ensures deleted ==> (
        && rows == Delete(old(rows), row.hash)
        && Kept(rows, Usable) == Kept(old(rows), Usable)[1..]
        && Total(rows) == Total(old(rows)) - row.size)
      ensures old(calls) < calls && (Fine(old(calls)) ==> deleted && FilesGone(old(Now()), Now()))
    {
      OldestGone(rows);
      EvictingStep(Now(), target);
      InDelete(rows, row.hash);
      deleted := DeleteRow(row.hash);
      if deleted {
        var _ := RemoveFile(row.hash);
      }
    }

    method Evict() returns (r: Result<(), Error>)
      requires Valid()
      modifies this
      ensures Valid() && old(history) <= history && Evicting(old(Now()), Now(), Target())
      ensures Safe(old(Now())) ==> SafeSince(history, |old(history)|)
      ensures r.Ok? ==> rows == Evicted(old(rows), Target()) && Total(rows) <= Target()
      ensures old(calls) < calls && (Fine(old(calls)) ==> r.Ok? && FilesGone(old(Now()), Now()))
      ensures !works(old(calls)) ==> r == Err(StoreFailed) && Now() == old(Now())
      ensures r.Err? ==> r == Err(StoreFailed)
    {
      var target := Target();
      var ok := Ask();
      if !ok {
        return Err(StoreFailed);
      }
      var total := Total(rows);
      while total > target
        invariant EvictedSoFar(old(Now()), |old(history)|, old(calls), target)
        invariant total == Total(rows) && old(history) <= history && old(calls) < calls
        decreases |Kept(rows, Usable)|
      {
        ok := Ask();
        if !ok {
          return Err(StoreFailed);
        }
        var batch := LeastRecentlyUsed(rows, LRU_BATCH);
        TotalOfKept(rows);
        if |batch| == 0 {
          return Ok(());
        }
        total, ok := EvictBatch(batch, total, target, old(Now()), |old(history)|, old(calls));
        if !ok {
          return Err(StoreFailed);
        }
      }
      r := Ok(());
    }

    /** How far an eviction that began with `start` has come. */
    ghost predicate EvictedSoFar(start: Disk, from: nat, asked: nat, target: nat)
      reads this
    {
      && Valid() && Evicting(start, Now(), target)
      && (Safe(start) ==> SafeSince(history, from))
      && asked <= calls && (Fine(asked) ==> FilesGone(start, Now()))
    }

    method EvictNext(row: Row, target: nat, ghost start: Disk, ghost from: nat, ghost asked: nat)
      returns (deleted: bool)
      requires EvictedSoFar(start, from, asked, target) && Total(rows) > target
      requires Kept(rows, Usable) != [] && row == Kept(rows, Usable)[0]
      modifies this
      ensures EvictedSoFar(start, from, asked, target) && old(history) <= history && old(calls) < calls
      ensures deleted ==> Kept(rows, Usable) == Kept(old(rows), Usable)[1..]
      ensures deleted ==> Total(rows) == Total(old(rows)) - row.size
      ensures Fine(asked) ==> deleted
    {
      ghost var mid := Now();
      deleted := EvictOne(row, target);
      EvictingThen(start, mid, Now(), target);
    }

    method EvictBatch(batch: seq<Row>, before: nat, target: nat, ghost start: Disk, ghost from: nat, ghost asked: nat)
      returns (total: nat, ok: bool)
      requires EvictedSoFar(start, from, asked, target) && before == Total(rows) > target
      requires |batch| > 0 && batch <= Kept(rows, Usable)
      modifies this
      ensures EvictedSoFar(start, from, asked, target) && old(history) <= history && old(calls) < calls
      ensures ok ==> total == Total(rows) && |Kept(rows, Usable)| < |Kept(old(rows), Usable)|
      ensures Fine(asked) ==> ok
    {
      total := before;
      var i := 0;
      while i < |batch| && total > target
        invariant 0 <= i <= |batch| && (i == 0 ==> total == before)
        invariant EvictedSoFar(start, from, asked, target) && total == Total(rows) && old(history) <= history
        invariant batch[i..] <= Kept(rows, Usable) && |Kept(rows, Usable)| == |Kept(old(rows), Usable)| - i
        invariant old(calls) + i <= calls
      {
        ok := EvictNext(batch[i], target, start, from, asked);
        if !ok {
          return;
        }
        total := total - batch[i].size;
        i := i + 1;
      }
      ok := true;
    }

    // --- writing

    /** True when the cap holds afterwards; a failure to measure or evict is only logged. */
    method EnforceCapAfterWrite() returns (enforced: bool)
      requires Valid()
      modifies this
      ensures Valid() && old(history) <= history && Evicting(old(Now()), Now(), Target())
      ensures Safe(old(Now())) ==> SafeSince(history, |old(history)|)
      ensures Total(old(rows)) <= maxBytes ==> Now() == old(Now())
      ensures enforced ==> Total(rows) <= maxBytes
      ensures enforced && Total(old(rows)) > maxBytes ==> rows == Evicted(old(rows), Target())
      ensures old(calls) < calls && (Fine(old(calls)) ==> enforced && FilesGone(old(Now()), Now()))
      ensures !works(old(calls)) ==> !enforced && Now() == old(Now())
    {
      var ok := Ask();
      if !ok {
        return false;
      }
      var total := Total(rows);
      if total <= maxBytes {
        return true;
      }
      var r := Evict();
      enforced := r.Ok?;
    }

    /** What was done last failed, and so did cleaning up after it. */
    predicate LastTwoFailed()
      reads this
    {
      calls >= 2 && !works(calls - 2) && !works(calls - 1)
    }

    /** The bytes under a temporary name; on any failure nothing but that name can be left. */
    method WriteTemp(tmp: string, data: Bytes) returns (ok: bool)
      requires Valid() && IsDotFile(tmp)
      modifies this
      ensures Valid() && rows == old(rows) && old(history) <= history
      ensures ok ==> files == old(files)[tmp := data]
      ensures ok ==> history == old(history) + [Disk(rows, old(files)[tmp := []]), Now()]
      ensures tmp in old(files) || !works(old(calls)) ==> !ok && files == old(files)
      ensures !ok && tmp !in old(files) ==> files == old(files) || LastTwoFailed()
      ensures forall name | name != tmp :: name in files <==> name in old(files)
      ensures forall name | name != tmp && name in files :: files[name] == old(files)[name]
      ensures Safe(old(Now())) ==> SafeSince(history, |old(history)|)
      ensures old(calls) < calls && (Fine(old(calls)) && tmp !in old(files) ==> ok)
    {
      ok := Ask();
      if !ok || tmp in files {
        return false;                         // no directory, or no fresh name
      }
      SetFile(tmp, []);
      ok := Ask();
      var partial: Bytes := *;
      SetFile(tmp, if ok then data else partial);
      if !ok {
        var _ := RemoveFile(tmp);
      }
    }

    /** Temporary name and rename, so the file under the hash is whole or not there. */
    method Place(hash: string, data: Bytes, tmp: string) returns (ok: bool)
      requires Valid() && IsHash(hash) && IsDotFile(tmp)
      modifies this
      ensures Valid() && rows == old(rows) && old(history) <= history
      ensures ok ==> files == (old(files) - {tmp})[hash := data]
      ensures !ok && tmp !in old(files) ==> files == old(files) || LastTwoFailed()
      ensures forall name | name in old(files) && name != tmp :: name in files
      ensures Safe(old(Now())) ==> SafeSince(history, |old(history)|) && Safe(Now())
      ensures old(calls) < calls && (Fine(old(calls)) && tmp !in old(files) ==> ok)
    {
      ok := WriteTemp(tmp, data);
      if !ok {
        return;
      }
      ok := Rename(tmp, hash);
      if !ok {
        var _ := RemoveFile(tmp);
      }
    }

    /** The cap after a row was stored: the row goes only when it does not fit. */
    method CapAfterStoring(row: Row, ghost others: seq<Row>) returns (enforced: bool)
      requires Valid() && rows == others + [row] && row.status.Usable? && row.hash in files
      modifies this
      ensures Valid() && old(history) <= history
      ensures Safe(old(Now())) ==> SafeSince(history, |old(history)|) && Safe(Now())
      ensures forall other | other in old(rows) && other.status.Unusable? :: other in rows
      ensures enforced ==> Total(rows) <= maxBytes
      ensures row.size <= Target() || Total(old(rows)) <= maxBytes ==>
        row in rows && row.hash in files && files[row.hash] == old(files)[row.hash]
      ensures enforced ==> (row in rows <==> row.size <= Target() || Total(old(rows)) <= maxBytes)
      ensures old(calls) < calls && (Fine(old(calls)) ==> enforced)
    {
      ghost var stored := Now();
      enforced := EnforceCapAfterWrite();
      StoredSurvives(stored, Now(), others, row, Target());
    }

    /** The row for a file already in place, and the cap after it. */
    method StoreRow(row: Row) returns (r: Result<(), Error>, enforced: bool)
      requires Valid() && IsHash(row.hash) && row.status.Usable? && row.hash in files
      modifies this
      ensures Valid() && old(history) <= history
      ensures Safe(old(Now())) ==> SafeSince(history, |old(history)|) && Safe(Now())
      ensures forall other | other in old(rows) && other.status.Unusable? && other.hash != row.hash :: other in rows
      ensures enforced ==> r.Ok? && Total(rows) <= maxBytes
      ensures r.Ok? && Fits(old(rows), row) ==>
        row in rows && row.hash in files && files[row.hash] == old(files)[row.hash]
      ensures r.Ok? && enforced ==> (row in rows <==> Fits(old(rows), row))
      ensures old(calls) < calls && (Fine(old(calls)) ==> r.Ok? && enforced)
      ensures r.Err? ==> r == Err(StoreFailed) && files == old(files)
    {
      InDelete(rows, row.hash);
      var ok := PutRow(row);
      if !ok {
        return Err(StoreFailed), false;       // an orphan file, for the sweep
      }
      enforced := CapAfterStoring(row, Delete(old(rows), row.hash));
      r := Ok(());
    }

    /** A row fits when eviction need not run for it, or would stop before reaching it. */
    predicate Fits(others: seq<Row>, row: Row) {
      row.size <= Target() || Total(Put(others, row)) <= maxBytes
    }

    method Write(hash: string, sourceURL: string, data: Bytes, contentType: string, tmp: string)
      returns (r: Result<(), Error>, enforced: bool)
      requires Valid() && IsHash(hash) && IsDotFile(tmp)
      modifies this
      ensures Valid() && old(history) <= history
      ensures Safe(old(Now())) ==> SafeSince(history, |old(history)|) && Safe(Now())
      ensures forall row | row in old(rows) && row.status.Unusable? && row.hash != hash :: row in rows
      ensures enforced ==> r.Ok? && Total(rows) <= maxBytes
      ensures r.Err? ==> r == Err(FileFailed) || (r == Err(StoreFailed) && hash in files && files[hash] == data)
      ensures r == Err(FileFailed) && tmp !in old(files) ==> Now() == old(Now()) || LastTwoFailed()
      ensures var row := Row(hash, sourceURL, contentType, |data|, Usable);
        && (r.Ok? && Fits(old(rows), row) ==> row in rows && hash in files && files[hash] == data)
        && (r.Ok? && enforced ==> (row in rows <==> Fits(old(rows), row)))
      ensures old(calls) < calls && (Fine(old(calls)) && tmp !in old(files) ==> r.Ok? && enforced)
    {
      var ok := Place(hash, data, tmp);
      if !ok {
        return Err(FileFailed), false;
      }
      r, enforced := StoreRow(Row(hash, sourceURL, contentType, |data|, Usable));
    }

    method MarkUnusable(hash: string, sourceURL: string)
      requires Valid() && IsHash(hash)
      modifies this
      ensures Valid() && old(history) <= history && files == old(files)
      ensures rows == old(rows) || rows == Put(old(rows), Row(hash, sourceURL, "", 0, Unusable))
      ensures Safe(old(Now())) ==> SafeSince(history, |old(history)|) && Safe(Now())
      ensures old(calls) < calls
      ensures Fine(old(calls)) ==> rows == Put(old(rows), Row(hash, sourceURL, "", 0, Unusable))
    {
      InDelete(rows, hash);
      var _ := PutRow(Row(hash, sourceURL, "", 0, Unusable));
    }

    // --- the operations

    /** A usable row and its file: what a hash handed out stands for. */
    predicate Serves(hash: string)
      reads this
    {
      Lookup(rows, hash).Some? && Lookup(rows, hash).value.status.Usable? && hash in files
    }

    method Fetch(hash: string, sourceURL: string, candidate: Candidate, tmp: string)
      returns (r: Result<string, Error>, enforced: bool)
      requires Valid() && IsHash(hash) && IsDotFile(tmp)
      modifies this
      ensures Valid() && old(history) <= history
      ensures Safe(old(Now())) ==> SafeSince(history, |old(history)|) && Safe(Now())
      ensures forall row | row in old(rows) && row.status.Unusable? :: row in rows
      // A known-unusable candidate costs nothing, and stays known.
      ensures Remembers(old(rows), hash) ==> r.Err? && Now() == old(Now())
      // A hash handed out has its row and its file, unless its own picture is over the target.
      ensures r.Ok? ==> r.value == hash
      ensures r.Ok? && (candidate.Picture? ==> |candidate.data| <= Target()) ==> Serves(hash)
      ensures enforced ==> r.Ok? && Total(rows) <= maxBytes
      // Without a picture only a cached copy that was seen can be handed out.
      ensures r.Ok? && !candidate.Picture? ==> old(Serves(hash)) && works(old(calls)) && works(old(calls) + 1)
      ensures !works(old(calls)) ==> r == Err(StoreFailed) && Now() == old(Now())
      ensures candidate.Unreachable? || candidate.OverDownloadCap? || candidate.NormalizeFailed? ==>
        Now() == old(Now())
      ensures r.Err? && works(old(calls)) ==> r.error in Reasons(Remembers(old(rows), hash), candidate)
      // When every call works: a cached copy costs nothing, a missing one is made, and what is
      // no picture is remembered.
      ensures old(calls) < calls
      ensures Fine(old(calls)) ==> (
        && (Remembers(old(rows), hash) ==> r == Err(KnownUnusable))
        && (old(Serves(hash)) ==> r == Ok(hash) && Now() == old(Now()))
        && (!Remembers(old(rows), hash) && !old(Serves(hash)) ==> (
              && (candidate.Picture? && tmp !in old(files) ==> r.Ok? && enforced)
              && (candidate.Picture? && r.Ok? && |candidate.data| <= Target() ==> (
                    && hash in files && files[hash] == candidate.data
                    && Lookup(rows, hash)
                         == Some(Row(hash, sourceURL, candidate.contentType, |candidate.data|, Usable))))
              && (candidate.NotUsable? ==> r == Err(KnownUnusable) && Remembers(rows, hash)))))
    {
      enforced := false;
      var ok := Ask();
      if !ok {
        return Err(StoreFailed), false;
      }
      match Lookup(rows, hash) {
        case Some(row) =>
          if row.status.Unusable? {
            return Err(KnownUnusable), false;
          }
          ok := Ask();
          if ok && hash in files {
            return Ok(hash), false;
          }
        case None =>
      }
      match candidate {
        case Unreachable | OverDownloadCap | NormalizeFailed =>
          r := Err(FetchFailed);
        case NotUsable =>
          OthersStay(rows, hash);
          MarkUnusable(hash, sourceURL);
          NowRemembered(old(rows), Row(hash, sourceURL, "", 0, Unusable));
          r := Err(KnownUnusable);
        case Picture(data, contentType) =>
          var w;
          w, enforced := Write(hash, sourceURL, data, contentType, tmp);
          if w.Err? {
            return Err(w.error), false;
          }
          FoundAgain(rows, Row(hash, sourceURL, contentType, |data|, Usable));
          r := Ok(hash);
      }
    }

    /** Why a candidate is not handed out, once it could be looked up. */
    static function Reasons(known: bool, candidate: Candidate): set<Error> {
      if known then {KnownUnusable}
      else match candidate
        case Unreachable | OverDownloadCap | NormalizeFailed => {FetchFailed}
        case NotUsable => {KnownUnusable}
        case Picture(_, _) => {FileFailed, StoreFailed}
    }

    /** The row is dropped when its file is gone; the caller sees a miss either way. */
    method Open(hash: string) returns (r: Result<(Bytes, string), Error>, dropped: bool)
      requires Valid()
      modifies this
      ensures Valid() && files == old(files) && old(history) <= history
      ensures Safe(old(Now())) ==> Now() == old(Now()) && history == old(history)
      ensures r.Ok? ==> (
        && old(Serves(hash)) && Now() == old(Now())
        && r.value == (files[hash], Lookup(rows, hash).value.contentType))
      ensures dropped <==> rows != old(rows)
      ensures !works(old(calls)) ==> r == Err(StoreFailed) && Now() == old(Now())
      ensures old(Serves(hash)) && works(old(calls)) && !works(old(calls) + 1) ==> r == Err(FileFailed)
      ensures dropped ==> r.Err? && hash !in files && Lookup(rows, hash) == None
      ensures forall row | row in old(rows) && (row.hash != hash || row.status.Unusable?) :: row in rows
      // When every call works: what has row and file is served, and a usable row without its file goes.
      ensures old(calls) < calls
      ensures Fine(old(calls)) ==> (
        && (old(Serves(hash)) ==> r.Ok?)
        && (!old(Serves(hash)) ==> r == Err(NotFound))
        && (dropped <==> Lookup(old(rows), hash).Some? && !Remembers(old(rows), hash) && hash !in files)
        && (dropped ==> rows == Delete(old(rows), hash)))
    {
      dropped := false;
      var ok := Ask();
      if !ok {
        return Err(StoreFailed), false;
      }
      var found := Lookup(rows, hash);
      if found == None || found.value.status.Unusable? {
        return Err(NotFound), false;
      }
      ok := Ask();
      if !ok {
        return Err(FileFailed), false;
      }
      if hash !in files {
        InDelete(rows, hash);
        ghost var was := rows;
        assert found.value in was && found.value !in Delete(was, hash);
        OthersStay(rows, hash);
        ok := DeleteRow(hash);
        dropped := Lookup(rows, hash) == None;
        return Err(NotFound), dropped;
      }
      r := Ok((files[hash], found.value.contentType));
    }

    /** True unless the file is an orphan that could not be removed. */
    method SweepOne(name: string) returns (clean: bool)
      requires Valid()
      modifies this
      ensures Valid() && rows == old(rows) && old(history) <= history
      ensures files == old(files) || files == old(files) - {name}
      ensures IsDotFile(name) || Lookup(rows, name).Some? ==> files == old(files)
      ensures clean ==> name !in files || IsDotFile(name) || Lookup(rows, name).Some?
      ensures Safe(old(Now())) ==> SafeSince(history, |old(history)|) && Safe(Now())
      ensures old(calls) <= calls && (Fine(old(calls)) ==> clean)
    {
      clean := true;
      if Lookup(rows, name) == None && !IsDotFile(name) {
        clean := RemoveFile(name);
      }
    }

    /** Ok says whether every orphan seen could be removed. */
    method SweepOrphans() returns (r: Result<bool, Error>)
      requires Valid()
      modifies this
      ensures Valid() && rows == old(rows) && old(history) <= history
      ensures Safe(old(Now())) ==> SafeSince(history, |old(history)|) && Safe(Now())
      ensures forall name | name in files :: name in old(files) && files[name] == old(files)[name]
      ensures forall name | name in old(files) && (IsDotFile(name) || Lookup(rows, name).Some?) :: name in files
      ensures r == Ok(true) ==> forall name | name in files :: IsDotFile(name) || Lookup(rows, name).Some?
      ensures old(calls) < calls && (Fine(old(calls)) ==> r == Ok(true))
      ensures !works(old(calls)) ==> r == Err(FileFailed) && Now() == old(Now())
      ensures works(old(calls)) && !works(old(calls) + 1) ==> r == Err(StoreFailed) && Now() == old(Now())
    {
      var ok := Ask();                        // the directory
      if !ok {
        return Err(FileFailed);
      }
      ok := Ask();                            // the known hashes
      if !ok {
        return Err(StoreFailed);
      }
      var clean := SweepFiles();
      r := Ok(clean);
    }

    /** Every file there is, in any order. */
    method SweepFiles() returns (clean: bool)
      requires Valid()
      modifies this
      ensures Valid() && rows == old(rows) && old(history) <= history
      ensures Safe(old(Now())) ==> SafeSince(history, |old(history)|) && Safe(Now())
      ensures forall name | name in files :: name in old(files) && files[name] == old(files)[name]
      ensures forall name | name in old(files) && (IsDotFile(name) || Lookup(rows, name).Some?) :: name in files
      ensures clean ==> forall name | name in files :: IsDotFile(name) || Lookup(rows, name).Some?
      ensures old(calls) <= calls && (Fine(old(calls)) ==> clean)
    {
      var todo := files.Keys;
      clean := true;
      while todo != {}
        invariant Valid() && rows == old(rows) && old(history) <= history
        invariant todo <= files.Keys <= old(files).Keys
        invariant forall name | name in files :: files[name] == old(files)[name]
        invariant forall name | name in old(files) && (IsDotFile(name) || Lookup(rows, name).Some?) :: name in files
        invariant clean ==> forall name | name in files && name !in todo :: IsDotFile(name) || Lookup(rows, name).Some?
        invariant Safe(old(Now())) ==> SafeSince(history, |old(history)|) && Safe(Now())
        invariant old(calls) <= calls && (Fine(old(calls)) ==> clean)
        decreases |todo|
      {
        var name :| name in todo;
        todo := todo - {name};
        var ok := SweepOne(name);
        clean := clean && ok;
      }
    }

    /** Recency, refreshed in the background; the store skips rows that are not `stale`. */
    method Touch(hash: string, stale: bool)
      requires Valid()
      modifies this
      ensures Valid() && files == old(files) && old(history) <= history
      ensures Safe(old(Now())) ==> SafeSince(history, |old(history)|) && Safe(Now())
      ensures old(calls) <= calls
      ensures Fine(old(calls)) ==>
        rows == if stale && Lookup(old(rows), hash).Some? then Put(old(rows), Lookup(old(rows), hash).value)
                else old(rows)
    {
      var found := Lookup(rows, hash);
      if found.Some? && stale {
        InDelete(rows, hash);
        var _ := PutRow(found.value);
      }
    }

    // --- every run

    /** One operation; when every call works it has done what it is for. */
    method Do(op: Op)
      requires Valid() && Safe(Now()) && (op.FetchOp? ==> IsHash(op.hash) && IsDotFile(op.tmp))
      modifies this
      ensures Valid() && Safe(Now()) && old(history) <= history && SafeSince(history, |old(history)|)
      ensures Fine(old(calls)) ==> (
        && (op.FetchOp? && op.candidate.Picture? && |op.candidate.data| <= Target() ==>
              op.tmp in old(files) || Remembers(old(rows), op.hash) || Serves(op.hash))
        && (op.OpenOp? ==> Now() == old(Now()))
        && (op.EvictOp? ==> rows == Evicted(old(rows), Target()))
        && (op.SweepOp? ==> forall name | name in files :: IsDotFile(name) || Lookup(rows, name).Some?)
        && (op.TouchOp? && op.stale && Lookup(old(rows), op.hash).Some? ==>
              rows == Put(old(rows), Lookup(old(rows), op.hash).value)))
    {
      match op {
        case FetchOp(hash, sourceURL, candidate, tmp) =>
          var _, _ := Fetch(hash, sourceURL, candidate, tmp);
        case OpenOp(hash) => var _, _ := Open(hash);
        case EvictOp => var _ := Evict();
        case SweepOp => var _ := SweepOrphans();
        case TouchOp(hash, stale) => Touch(hash, stale);
      }
    }

    /** Any operations, one at a time; after each the process may turn out to have died inside it. */
    method Run(ops: seq<Op>)
      requires Valid() && Safe(Now())
      requires forall op | op in ops :: op.FetchOp? ==> IsHash(op.hash) && IsDotFile(op.tmp)
      modifies this
      ensures Valid() && Safe(Now())
      ensures old(history) <= history && SafeSince(history, |old(history)|)
    {
      var i := 0;
      while i < |ops|
        invariant 0 <= i <= |ops| && Valid() && Safe(Now())
        invariant old(history) <= history && SafeSince(history, |old(history)|)
      {
        var from := |history|;
        Do(ops[i]);
        var died: nat := *;
        if from <= died < |history| {
          rows, files := history[died].rows, history[died].files;
          history := history + [Now()];
        }
        i := i + 1;
      }
    }
  }

  datatype Op =
    | FetchOp(hash: string, sourceURL: string, candidate: Candidate, tmp: string)
    | OpenOp(hash: string)
    | EvictOp
    | SweepOp
    | TouchOp(hash: string, stale: bool)

  /** The negative cache: a row without a file that says not to download again. */
  predicate Remembers(rows: seq<Row>, hash: string) {
    Lookup(rows, hash).Some? && Lookup(rows, hash).value.status.Unusable?
  }

  lemma NowRemembered(rows: seq<Row>, row: Row)
    requires WellFormed(rows) && IsHash(row.hash) && row.status.Unusable?
    ensures Remembers(Put(rows, row), row.hash)
  {
    DeleteKeepsShape(rows, row.hash);
    InDelete(rows, row.hash);
    FoundAgain(Put(rows, row), row);
  }

  lemma FoundAgain(rows: seq<Row>, row: Row)
    requires WellFormed(rows)
    ensures row in rows ==> Lookup(rows, row.hash) == Some(row)
  {
    if row in rows {
      SameRow(rows, Lookup(rows, row.hash).value, row);
    }
  }

  lemma OthersStay(rows: seq<Row>, hash: string)
    requires WellFormed(rows)
    ensures forall row | row in rows && row.hash != hash :: row in Delete(rows, hash)
    ensures Lookup(Delete(rows, hash), hash) == None
    ensures !Remembers(rows, hash) ==> forall row | row in rows && row.hash == hash :: row.status.Usable?
  {
    InDelete(rows, hash);
    forall row | row in rows && row.hash == hash ensures Lookup(rows, hash) == Some(row) {
      FoundAgain(rows, row);
    }
  }

  lemma UnusableStay(before: Disk, now: Disk, target: nat)
    requires Evicting(before, now, target)
    ensures forall row | row in before.rows && row.status.Unusable? :: row in now.rows
  {
    var _ := EvictsShortestPrefix(before.rows, target);
    EvictedShape(now.rows, target);
    InKept(before.rows, Unusable);
    InKept(Evicted(before.rows, target), Unusable);
  }

  /** Eviction set off by a write takes the row just written only when it does not fit the target. */
  lemma StoredSurvives(stored: Disk, now: Disk, others: seq<Row>, row: Row, target: nat)
    requires stored.rows == others + [row] && row.status.Usable? && row.hash in stored.files
    requires Evicting(stored, now, target)
    ensures forall r | r in stored.rows && r.status.Unusable? :: r in now.rows
    ensures row.size <= target ==> row in now.rows
    ensures row in now.rows ==> row.hash in now.files && now.files[row.hash] == stored.files[row.hash]
    ensures now.rows == Evicted(stored.rows, target) ==> (row in now.rows <==> row.size <= target)
  {
    UnusableStay(stored, now, target);
    NewestSurvivesIff(others, row, target);
    EvictedShape(now.rows, target);
    forall other | other in stored.rows && other.hash == row.hash ensures other == row {
      SameRow(stored.rows, other, row);
    }
  }

  lemma SameRow(rows: seq<Row>, a: Row, b: Row)
    requires WellFormed(rows) && a in rows && b in rows && a.hash == b.hash
    ensures a == b
  {
  }
}
