/** Cursor paging (internal/httpapi/pagination.go) over a collection that changes between requests. */
module Paging {
  import opened Wrappers
  import opened Base64
  import opened Walks

  type Uuid = b: seq<Octet> | |b| == 16 witness seq(16, _ => 0)

  // -------------------------------------------------------------------- limits

  const DEFAULT_PAGE_LIMIT := 50
  const MAX_PAGE_LIMIT := 200

  /** A query parameter that should be a whole number. */
  datatype NumberParam = Absent | NotANumber | Number(n: int)

  datatype PageError = BadLimit | BadCursor

  datatype PageRequest = PageRequest(limit: nat, after: Option<Uuid>)

  /**
  A page asks for between 1 and 200 rows, never for more than was wanted, and only what is no positive
  number is refused.
  */
  function ReadLimit(limit: NumberParam): (rows: Option<nat>)
    ensures rows == None <==> limit.NotANumber? || (limit.Number? && limit.n < 1)
    ensures limit.Absent? ==> rows == Some(50)
    ensures limit.Number? && limit.n >= 1 ==> rows.Some? && rows.value <= 200 && rows.value <= limit.n
    ensures limit.Number? && limit.n >= 1 ==> rows.Some? && (rows.value == 200 || rows.value == limit.n)
  {
    match limit
    case Absent => Some(DEFAULT_PAGE_LIMIT)
    case NotANumber => None
    case Number(n) => if n < 1 then None else if n < MAX_PAGE_LIMIT then Some(n) else Some(MAX_PAGE_LIMIT)
  }

  // ------------------------------------------------------------------- cursors

  function EncodeCursor(id: Uuid): string { Encode(id) }

  function DecodeCursor(raw: string): Option<Uuid> {
    match Decode(raw)
    case None => None
    case Some(b) => if |b| == 16 then Some(b) else None
  }

  lemma CursorRoundTrip(id: Uuid)
    ensures DecodeCursor(EncodeCursor(id)) == Some(id)
  {
    RoundTrip(id);
  }

  /** A cursor is accepted exactly when, but for line breaks, it is 22 characters of the alphabet. */
  lemma AcceptedIff(raw: string)
    ensures DecodeCursor(raw).Some? <==> |SkipBreaks(raw)| == 22 && Values(SkipBreaks(raw)).Some?
  {
    if Values(SkipBreaks(raw)).Some? { SixteenBytes(Values(SkipBreaks(raw)).value); }
  }

  lemma IssuedHas(id: Uuid)
    ensures var raw := EncodeCursor(id);
      |raw| == 22 && Values(raw).Some? && Values(raw).value[21] & 0x0F == 0
  {
    var q := ToSextets(id);
    ValuesIs(Chars(q), q);
    SextetsRoundTrip(id);
    BytesOf(q);
    ByteCountIs(|q|);
    CanonicalIff(q);
  }

  lemma IssuedFor(raw: string) returns (id: Uuid)
    requires |raw| == 22 && Values(raw).Some? && Values(raw).value[21] & 0x0F == 0
    ensures raw == EncodeCursor(id)
  {
    var q := Values(raw).value;
    BytesOf(q);
    ByteCountIs(22);
    CanonicalIff(q);
    ValuesIs(raw, q);
    id := FromSextets(q).value;
  }

  /**
  It is one this server issues exactly when it has no line breaks and its last four bits, which decode
  to nothing, are zero.
  */
  lemma IssuedIff(raw: string)
    ensures (exists id: Uuid :: raw == EncodeCursor(id)) <==>
              |raw| == 22 && Values(raw).Some? && Values(raw).value[21] & 0x0F == 0
  {
    if id: Uuid :| raw == EncodeCursor(id) { IssuedHas(id); }
    if |raw| == 22 && Values(raw).Some? && Values(raw).value[21] & 0x0F == 0 { var _ := IssuedFor(raw); }
  }

  lemma BreakIsSkipped(s: string)
    ensures SkipBreaks(s + "\n") == SkipBreaks(s)
  {
    assert (s + "\n")[..|s|] == s;
  }

  /** A cursor with a line break behind it is accepted though no server issued it. */
  lemma BreakAccepted(id: Uuid)
    ensures DecodeCursor(EncodeCursor(id) + "\n") == Some(id)
    ensures forall other: Uuid :: EncodeCursor(id) + "\n" != EncodeCursor(other)
  {
    BreakIsSkipped(EncodeCursor(id));
    CursorRoundTrip(id);
    IssuedHas(id);
    forall other: Uuid ensures EncodeCursor(id) + "\n" != EncodeCursor(other) {
      IssuedHas(other);
    }
  }

  /** And so is one of the right length with a spare bit set. */
  lemma SpareBitAccepted(q: seq<Sextet>)
    requires |q| == 22 && q[21] & 0x0F != 0
    ensures DecodeCursor(Chars(q)).Some?
    ensures forall id: Uuid :: Chars(q) != EncodeCursor(id)
  {
    CharsUnbroken(q);
    ValuesIs(Chars(q), q);
    AcceptedIff(Chars(q));
    forall id: Uuid ensures Chars(q) != EncodeCursor(id) {
      IssuedHas(id);
    }
  }

  /** The empty cursor is no cursor. */
  function ReadPage(limit: NumberParam, cursor: string): Result<PageRequest, PageError> {
    match ReadLimit(limit)
    case None => Err(BadLimit)
    case Some(n) =>
      if cursor == "" then Ok(PageRequest(n, None))
      else
        match DecodeCursor(cursor)
        case None => Err(BadCursor)
        case Some(id) => Ok(PageRequest(n, Some(id)))
  }

  /** What a page is asked for with: refused for its limit first, then for a cursor that is none. */
  lemma ReadPageIs(limit: NumberParam, cursor: string)
    ensures ReadPage(limit, cursor) == Err(BadLimit) <==> limit.NotANumber? || (limit.Number? && limit.n < 1)
    ensures ReadPage(limit, cursor).Ok? <==>
      !(limit.NotANumber? || (limit.Number? && limit.n < 1))
      && (cursor == "" || (|SkipBreaks(cursor)| == 22 && Values(SkipBreaks(cursor)).Some?))
    ensures ReadPage(limit, cursor).Ok? ==> (ReadPage(limit, cursor).value.after == None <==> cursor == "")
  {
    AcceptedIff(cursor);
  }

  /** The cursor of a page, handed back, asks for what comes after its last item. */
  lemma IssuedIsRead(limit: NumberParam, id: Uuid)
    requires ReadLimit(limit).Some?
    ensures ReadPage(limit, EncodeCursor(id)) == Ok(PageRequest(ReadLimit(limit).value, Some(id)))
  {
    IssuedHas(id);
    CursorRoundTrip(id);
  }

  // --------------------------------------------------------------------- pages

  /** The database orders ids by their bytes. */
  function Value(b: seq<Octet>): nat { if b == [] then 0 else Value(b[..|b| - 1]) * 256 + b[|b| - 1] as nat }

  lemma {:induction false} OrderIsTotal(a: seq<Octet>, b: seq<Octet>)
    requires |a| == |b|
    ensures Value(a) == Value(b) <==> a == b
  {
    if a != [] {
      var n := |a| - 1;
      OrderIsTotal(a[..n], b[..n]);
      assert a == a[..n] + [a[n]] && b == b[..n] + [b[n]];
    }
  }

  /** The bytes are digits: of two ids the greater is the one with the greater first byte that differs. */
  lemma {:induction false} OrderIsByBytes(a: seq<Octet>, b: seq<Octet>, i: nat)
    requires |a| == |b| && i < |a| && a[..i] == b[..i] && a[i] < b[i]
    ensures Value(a) < Value(b)
  {
    var n := |a| - 1;
    if i == n {
      assert a[..n] == b[..n];
    } else {
      assert a[..n][..i] == a[..i] && b[..n][..i] == b[..i];
      OrderIsByBytes(a[..n], b[..n], i);
    }
  }

  datatype Page = Page(items: seq<Uuid>, next: Option<string>)

  /** One row too many means there is another page, and its cursor is the last row kept. */
  function PageOf(rows: seq<Uuid>, limit: nat): Page
    requires limit >= 1
  {
    if |rows| <= limit then Page(rows, None)
    else Page(rows[..limit], Some(EncodeCursor(rows[limit - 1])))
  }

  const RANK: Uuid -> int := (id: Uuid) => Value(id)

  /** What the cursor of a page decodes to. */
  function Resume(page: Page): Option<Uuid> { if page.next == None then None else DecodeCursor(page.next.value) }

  /** Where the k-th request continues. */
  function Decoded(pages: seq<Page>, k: nat): Option<Uuid>
    requires k <= |pages|
  {
    if k == 0 then None else Resume(pages[k - 1])
  }

  ghost predicate Serves(req: Request<Uuid>, after: Option<Uuid>, page: Page) {
    req.limit >= 1
    && exists rows :: IsQuery(req.items, after, req.limit + 1, rows, RANK) && page == PageOf(rows, req.limit)
  }

  ghost predicate ServedAt(reqs: seq<Request<Uuid>>, pages: seq<Page>, k: nat)
    requires k < |pages| == |reqs|
  {
    Serves(reqs[k], Decoded(pages, k), pages[k])
  }

  /** Page after page, each asked for with the cursor of the one before. */
  ghost predicate IsCursorWalk(reqs: seq<Request<Uuid>>, pages: seq<Page>) {
    && |reqs| == |pages|
    && (forall k | 0 <= k < |pages| :: ServedAt(reqs, pages, k))
    && (forall k | 0 <= k < |pages| - 1 :: pages[k].next.Some?)
  }

  function BatchFor(page: Page): Batch<Uuid> { Batch(page.items, page.next.Some?) }

  function Batches(pages: seq<Page>): (batches: seq<Batch<Uuid>>)
    ensures |batches| == |pages| && forall k | 0 <= k < |pages| :: batches[k] == BatchFor(pages[k])
  {
    seq(|pages|, k requires 0 <= k < |pages| => BatchFor(pages[k]))
  }

  /** A served page is a batch. */
  lemma ServesABatch(req: Request<Uuid>, after: Option<Uuid>, page: Page)
    requires Serves(req, after, page)
    ensures Answers(req, after, BatchFor(page), RANK)
  {
    var rows :| IsQuery(req.items, after, req.limit + 1, rows, RANK) && page == PageOf(rows, req.limit);
    BatchAnswers(req, after, rows, RANK);
    assert BatchFor(page) == BatchOf(rows, req.limit);
  }

  /** The page's cursor is that of its last item. */
  predicate Carries(page: Page) {
    page.next.Some? ==> page.items != [] && page.next.value == EncodeCursor(page.items[|page.items| - 1])
  }

  lemma ServedCarries(req: Request<Uuid>, after: Option<Uuid>, page: Page)
    requires Serves(req, after, page)
    ensures Carries(page)
  {
  }

  function Last(page: Page): Option<Uuid> {
    if page.items == [] then None else Some(page.items[|page.items| - 1])
  }

  /** It decodes to that item. */
  lemma ResumesAfterLast(page: Page)
    requires Carries(page) && page.next.Some?
    ensures Resume(page) == Last(page)
  {
    CursorRoundTrip(page.items[|page.items| - 1]);
  }

  lemma CursorIsLast(pages: seq<Page>, k: nat)
    requires 0 < k <= |pages|
    ensures CursorAt(Batches(pages), k) == Last(pages[k - 1])
  {
    assert Batches(pages)[k - 1] == BatchFor(pages[k - 1]);
  }

  lemma WalkResumes(reqs: seq<Request<Uuid>>, pages: seq<Page>, k: nat)
    requires IsCursorWalk(reqs, pages) && 0 < k < |pages|
    ensures Resume(pages[k - 1]) == Last(pages[k - 1])
  {
    assert ServedAt(reqs, pages, k - 1) && pages[k - 1].next.Some?;
    ServedCarries(reqs[k - 1], Decoded(pages, k - 1), pages[k - 1]);
    ResumesAfterLast(pages[k - 1]);
  }

  lemma SameCursor(reqs: seq<Request<Uuid>>, pages: seq<Page>, k: nat)
    requires IsCursorWalk(reqs, pages) && k < |pages|
    ensures Decoded(pages, k) == CursorAt(Batches(pages), k)
  {
    if k > 0 {
      WalkResumes(reqs, pages, k);
      CursorIsLast(pages, k);
    }
  }

  /** Handing the cursor back continues after the last item. */
  lemma CursorsCarryOn(reqs: seq<Request<Uuid>>, pages: seq<Page>)
    requires IsCursorWalk(reqs, pages)
    ensures IsWalk(reqs, Batches(pages), RANK)
  {
    forall k | 0 <= k < |pages| ensures AnswersAt(reqs, Batches(pages), RANK, k) {
      SameCursor(reqs, pages, k);
      assert ServedAt(reqs, pages, k);
      ServesABatch(reqs[k], Decoded(pages, k), pages[k]);
    }
  }

  /** No item is returned twice, whatever comes and goes between the requests: every later item is older. */
  lemma NeverTwice(reqs: seq<Request<Uuid>>, pages: seq<Page>, j: nat, k: nat, a: Uuid, b: Uuid)
    requires IsCursorWalk(reqs, pages) && j < k < |pages| && a in pages[j].items && b in pages[k].items
    ensures Value(b) < Value(a) && a != b
  {
    CursorsCarryOn(reqs, pages);
    NoItemTwice(reqs, Batches(pages), RANK, j, k, a, b);
  }

  /** Nor twice on one page; and every page but the last is full. */
  lemma PagesAreFull(reqs: seq<Request<Uuid>>, pages: seq<Page>, k: nat)
    requires IsCursorWalk(reqs, pages) && k < |pages|
    ensures Descending(pages[k].items, RANK) && |pages[k].items| <= reqs[k].limit
    ensures k < |pages| - 1 ==> |pages[k].items| == reqs[k].limit
  {
    CursorsCarryOn(reqs, pages);
    assert AnswersAt(reqs, Batches(pages), RANK, k);
  }

  ghost predicate OnPage(pages: seq<Page>, j: int, id: Uuid) { 0 <= j < |pages| && id in pages[j].items }

  /**
  By the time there is no next cursor, every item that was there all along has been returned, on
  exactly one page.
  */
  lemma LastingItemsReturnedOnce(reqs: seq<Request<Uuid>>, pages: seq<Page>, id: Uuid)
    requires IsCursorWalk(reqs, pages) && pages != [] && pages[|pages| - 1].next == None
    requires forall j | 0 <= j < |reqs| :: id in reqs[j].items
    ensures exists j :: OnPage(pages, j, id) && forall k | OnPage(pages, k, id) :: k == j
  {
    CursorsCarryOn(reqs, pages);
    LastingItemsReturned(reqs, Batches(pages), RANK, id);
    var j :| 0 <= j < |pages| && id in Batches(pages)[j].items;
    assert OnPage(pages, j, id);
    forall k | OnPage(pages, k, id) ensures k == j {
      if j < k { NeverTwice(reqs, pages, j, k, id, id); }
      if k < j { NeverTwice(reqs, pages, k, j, id, id); }
    }
  }

  /** While nothing is added behind the cursor, a walk ends: it takes at most one request more than there were items. */
  lemma WalkEnds(reqs: seq<Request<Uuid>>, pages: seq<Page>)
    requires IsCursorWalk(reqs, pages) && pages != []
    requires forall j | 0 < j < |pages| :: Ahead(reqs[j].items, Decoded(pages, j), RANK) <= reqs[j - 1].items
    ensures |pages| <= |reqs[0].items| + 1
  {
    CursorsCarryOn(reqs, pages);
    forall j | 0 < j < |pages| ensures Ahead(reqs[j].items, CursorAt(Batches(pages), j), RANK) <= reqs[j - 1].items {
      SameCursor(reqs, pages, j);
    }
    WalkIsBounded(reqs, Batches(pages), RANK, |pages| - 1);
  }

  // ----------------------------------------------------------------- walks exist

  lemma UuidsRanked(items: set<Uuid>)
    ensures Ranked(items, RANK)
  {
    forall a, b | a in items && b in items && RANK(a) == RANK(b) ensures a == b { OrderIsTotal(a, b); }
  }

  lemma StillServed(reqs: seq<Request<Uuid>>, pages: seq<Page>, req: Request<Uuid>, page: Page, k: nat)
    requires k < |pages| == |reqs| && ServedAt(reqs, pages, k)
    ensures ServedAt(reqs + [req], pages + [page], k)
  {
    assert k > 0 ==> (pages + [page])[k - 1] == pages[k - 1];
  }

  lemma ServedNext(reqs: seq<Request<Uuid>>, pages: seq<Page>, req: Request<Uuid>, page: Page)
    requires |pages| == |reqs| && Serves(req, Decoded(pages, |pages|), page)
    ensures ServedAt(reqs + [req], pages + [page], |pages|)
  {
    assert |pages| > 0 ==> (pages + [page])[|pages| - 1] == pages[|pages| - 1];
  }

  lemma OnePageMore(reqs: seq<Request<Uuid>>, pages: seq<Page>, req: Request<Uuid>, page: Page)
    requires IsCursorWalk(reqs, pages) && (pages != [] ==> pages[|pages| - 1].next.Some?)
    requires Serves(req, Decoded(pages, |pages|), page)
    ensures IsCursorWalk(reqs + [req], pages + [page])
  {
    ServedNext(reqs, pages, req, page);
    forall k: nat | k < |pages| ensures ServedAt(reqs + [req], pages + [page], k) {
      assert ServedAt(reqs, pages, k);
      StillServed(reqs, pages, req, page, k);
    }
  }

  predicate OneCollection(reqs: seq<Request<Uuid>>, items: set<Uuid>, limit: nat) {
    forall k | 0 <= k < |reqs| :: reqs[k] == Request(items, limit)
  }

  /** From anywhere a walk goes on to its end. */
  lemma {:induction false} WalkGoesOn(
    items: set<Uuid>, limit: nat, reqs: seq<Request<Uuid>>, pages: seq<Page>, cursor: Option<Uuid>)
    returns (allReqs: seq<Request<Uuid>>, all: seq<Page>)
    requires IsCursorWalk(reqs, pages) && (pages != [] ==> pages[|pages| - 1].next.Some?) && limit >= 1
    requires cursor == Decoded(pages, |pages|) && OneCollection(reqs, items, limit)
    ensures IsCursorWalk(allReqs, all) && OneCollection(allReqs, items, limit)
    ensures all != [] && all[|all| - 1].next == None
    decreases |Ahead(items, cursor, RANK)|
  {
    var req := Request(items, limit);
    var page := NextPage(req, cursor);
    OnePageMore(reqs, pages, req, page);
    allReqs, all := reqs + [req], pages + [page];
    if page.next.Some? {
      PageLeavesFewer(req, cursor, page);
      WalkLast(allReqs, all);
      allReqs, all := WalkGoesOn(items, limit, allReqs, all, Last(page));
    }
  }

  lemma NextPage(req: Request<Uuid>, after: Option<Uuid>) returns (page: Page)
    requires req.limit >= 1
    ensures Serves(req, after, page)
  {
    UuidsRanked(req.items);
    var rows := QueryExists(req.items, after, req.limit + 1, RANK);
    page := PageOf(rows, req.limit);
  }

  lemma PageLeavesFewer(req: Request<Uuid>, after: Option<Uuid>, page: Page)
    requires Serves(req, after, page) && page.next.Some?
    ensures |Ahead(req.items, Last(page), RANK)| < |Ahead(req.items, after, RANK)|
  {
    ServesABatch(req, after, page);
    BatchLeavesFewer(req, after, BatchFor(page), RANK);
    LastIsCursor(page);
  }

  lemma LastIsCursor(page: Page)
    ensures Last(page) == CursorAt([BatchFor(page)], 1)
  {
  }

  lemma WalkLast(reqs: seq<Request<Uuid>>, pages: seq<Page>)
    requires IsCursorWalk(reqs, pages) && pages != [] && pages[|pages| - 1].next.Some?
    ensures Decoded(pages, |pages|) == Last(pages[|pages| - 1])
    ensures pages[|pages| - 1].items != []
  {
    var n := |pages| - 1;
    assert ServedAt(reqs, pages, n);
    ServedCarries(reqs[n], Decoded(pages, n), pages[n]);
    ResumesAfterLast(pages[n]);
  }

  /** Every collection can be walked from the top to the end, at every page size. */
  lemma WalkExists(items: set<Uuid>, limit: nat) returns (reqs: seq<Request<Uuid>>, pages: seq<Page>)
    requires limit >= 1
    ensures IsCursorWalk(reqs, pages) && pages != [] && pages[|pages| - 1].next == None
    ensures OneCollection(reqs, items, limit)
  {
    reqs, pages := WalkGoesOn(items, limit, [], [], None);
  }
}
