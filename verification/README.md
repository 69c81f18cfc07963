# Inventory: models and proofs of its stateful protocols and picture algorithms

Inventory is a self-hosted household inventory server written in Go. This project models the
parts of it whose correctness rests on an argument rather than on a single line of code, and
proves that argument for every input, every run or every interleaving. One file, one component:

- `LockTables`, `Idempotency`, `RecordingWriter`: the middleware that makes a retried write run once.
  Requests are threads with a program counter; every section under a lock, every store call and
  every handler run is one atomic step, and the theorems hold after every sequence of steps.
- `ImageCache`: rows and files of the suggestion-image cache, updated step by step. `history` records
  the disk after every single step, so a statement about all of it is a statement about a crash
  anywhere.
- `Binary`, `Exif`, `Jpeg`, `Png`, `Transform`: reading the orientation (section 2 of TIFF 6.0), walking and
  re-emitting JPEG segments (section B.1.1 of ITU-T T.81) and PNG chunks (section 5.3 of the W3C PNG
  specification) without the metadata, and moving pixels where an orientation says.
- `Crop`, `PreShrink`, `BoxShrink`, `DeriveService`: derived pictures. The arithmetic three source files
  have to agree on, the averaging loop, and the service with its two single-slot lanes, its
  singleflight and its twice-checked sets as a state machine over which any callers interleave.
- `RateLimiter`: fixed windows with a sweep, over any sequence of calls in time order.
- `Sorting`, `Holiday`, `Scoring`: the two-pointer maximum and the sort-and-cluster
  score, each against a specification that knows nothing of sorting.
- `Nesting`: flat rows to a forest, on the heap and as a value.
- `EnvFile`: the parser and printer of the `.env` template.
- `Base64`, `Walks`, `Paging`: walking a changing collection by cursors, and the
  cursor codec (section 5 of RFC 4648).
- `IngestConfirm`: picture files and one transaction, in an order that survives a crash.
- `Arithmetic`, `Wrappers`: what several of them share.

Calls that can fail, of a store, a file system or a codec, ask an unknown function whether they work this
time; what an operation promises when every call works is promised for every run in which that function
says so, and what it promises in any case for all of them.

Code that changes state step by step is a class or a method with loops, proved against a function of
its old state; what is promised of it is then proved of that function. Pure code is functions.

## What the proofs found

Where code and documentation disagree the model follows the code.

- A request can wait behind background work although the package comment of `internal/derive/service.go`
  says never (lines 15-17): singleflight keys on the source and not on the lane, so a request that joins
  a background run waits for the background slot (`RequestWaitsForBackground`). `BehindEagerIff` says
  exactly when, in every run; the slot is then held by work for another key (`QueuedBehindAnother`).
- A confirm whose commit went through but whose answer was lost is treated as failed, and the pictures
  its products point at are removed (`LostAnswerBreaksAPicture`). Safe and unsafe are told apart before
  the call: if no chosen row makes its product nothing breaks whatever the outcome, and if one does the
  lost answer, with nobody else at work, breaks it (`IngestConfirm.World.Confirm`). In every other outcome no product ever points at
  a missing picture, whatever crashes.
- The rate limiter grants at most twice the limit less one in any half-open interval one window long,
  one less than twice the limit, and that bound is reached (`BoundIsReached`). Asked about several keys,
  it may still refuse when the wait it named is over: exactly when a key was charged up to the limit after
  its own window had ended (`WaitIsExactIff`, `ChargedAgain`).
- An informational header (1xx) that comes first is recorded as the outcome's status
  (`CopyIsFaithfulIff`, `EarlyHintsAreCopied`).
- A JPEG whose walk ends at an end-of-image marker before any scan has its trailing bytes copied without
  that marker, so a comment behind it comes back to life (`TrailingCommentStays`). The copy is clean
  exactly when nothing is behind the marker (`CleanIff`); what each part of clean needs of those bytes is
  said by `TrailingSegmentsIff`, `ReadsUprightIff` and `SecondCopyIff`.
- `Strip` promises to remove all metadata (`internal/images/strip.go:89`), but everything from the first
  scan on is copied verbatim: APPn and COM segments behind it survive (`CommentBehindAScan`), and so does
  whatever follows the picture's own end, as in files that hold several pictures (`TrailingPictureStays`).
  An output holds none exactly when the bytes from there on, or behind an early end-of-image marker, hold
  none (`NoMetadataIff`): no metadata segment of the picture, its scans read through, and no metadata marker
  anywhere in the bytes behind its end or from an unreadable length on.
- Printing a parsed `.env` template is a fixed point exactly when no passed-through line ends in a stray
  carriage return (`FixedPointIff`). A line with nothing but space before its `=` is printed as a blank
  one, and no other but a blank one is (`PrintedBlankIff`): `=x` loses its `x`.
- An event between two others can lower a score, by joining their chains into one
  (`ABridgeLowersTheScore`). `LowersIff` says exactly when, and `BridgeScores` by how much.
- Rows whose parents form a loop are in no tree (`AppearsIff`, `AcyclicIff`).
- A cursor with a line break in it, or with one of its last four bits set, is accepted though no server
  issued it (`AcceptedIff`, `IssuedIff`, `BreakAccepted`, `SpareBitAccepted`).
- A picture over the download cap is not recorded as unusable, although
  `internal/store/cachedimages.go:18-21` lists too-large candidates: `Fetch` returns before it would be.
- Idempotency keys are scoped by user alone (`internal/store/idempotency.go`), not by user and storage as
  `docs/specs/12-client-api-contract.md` (line 138) puts it; another storage's path changes the request hash
  and is refused (`OtherStorageRefused`).
- A record whose insert was cut off by its timeout may land after the key was unlocked. A retry that had
  looked the key up by then runs the handler a second time, and its client is told one answer while every
  later retry is told the other (`LateRecordContradicts`, `LateInsertOvertaken`). It happens once at most
  (`LateRecordOneMore`); a record made in time is final.
- An EXIF orientation behind the 512th entry is not read (`ReadsWhatIsWritten`).

## Model

| member | source | states |
|---|---|---|
| Idempotency.LockNameIsTheScope | internal/httpapi/idempotency.go:114 | the lock's name, user id, NUL and key, is the same for two requests iff user and key are |
| Idempotency.HashedIsTheRequest | internal/store/idempotency.go:32-40 | what is hashed is the same for two requests iff method, path and body are |
| Idempotency.RecordIsFinal | internal/httpapi/idempotency.go:117-167 | in every run, after a record is made for a key no other is, and a later request is given exactly the recorded response if it has the same hash and a refusal if it has not, unless its own lookup failed; the handler never runs for the key again if the insert was answered in time, and only if it was cut off and landed late does it run again |
| Idempotency.ComesFrom | internal/httpapi/idempotency.go:117-167 | every event of a run comes from the step it tells of: a failed lookup from one that failed, a replay or a refusal from one that worked |
| Idempotency.LookupAnswers | internal/httpapi/idempotency.go:117-137 | in every run a lookup that works where a record was made answers at once, with the recorded response or a refusal by the hash alone |
| Idempotency.LookupRuns | internal/httpapi/idempotency.go:117-140 | and where none was made goes on to the handler |
| Idempotency.RanAfterLookup | internal/httpapi/idempotency.go:117-140 | who runs the handler had a lookup that worked and found nothing |
| Idempotency.StragglerHadLooked | internal/httpapi/idempotency.go:117-140 | a request about to run the handler although there is a record was so already when the record was made |
| Idempotency.LateRecordOneMore | internal/httpapi/idempotency.go:117-167 | after the record was made the handler runs at most once more for the key |
| Idempotency.LateRecordContradicts | internal/httpapi/idempotency.go:153-166 | in any run in which a retry is about to run the handler while the first attempt's cut-off insert can still land, both may happen: the record holds the first answer and the retry is given its own |
| Idempotency.LateInsertOvertaken | internal/httpapi/idempotency.go:153-166 | such a run, for any request and any two answers |
| Idempotency.OtherStorageRefused | internal/store/idempotency.go:56-75 | a key recorded for one path is never replayed for another, another storage's included, but refused |
| Idempotency.ReplayWasExecuted | internal/httpapi/idempotency.go:134-137 | every replayed response was given by the handler, earlier in the run, to the same request, and its status was below 500 and not 429 |
| Idempotency.ExtraExecutionsAccounted | internal/httpapi/idempotency.go:139-166 | executions for a key exceed one by no more than those of a status of 500 or more, of 429 or with a panic, and its cut-off inserts, and by exactly that many once an insert was answered in time |
| Idempotency.NoExecutionWithoutExcuse | internal/httpapi/idempotency.go:114-140 | whenever the handler is about to run, every earlier execution for the key already ended unsettled or had its insert cut off |
| Idempotency.FinishedMeansEnded | internal/httpapi/idempotency.go:78-168 | answers and panics of the handler together come to at most one per request, and to exactly one when it is through |
| Idempotency.OneLockPerKey | internal/httpapi/idempotency.go:234-254 | requests counted on one key share one lock object and at most one owns its mutex |
| Idempotency.EntryWhileReferenced | internal/httpapi/idempotency.go:220-254 | a key has an entry exactly while some request is counted on it, and refs is how many are |
| Idempotency.IdleTableIsEmpty | internal/httpapi/idempotency.go:220-223 | with nobody in flight the map is empty |
| Idempotency.NoDeadlock | internal/httpapi/idempotency.go:234-254 | every reachable state with an unfinished request has a step other than a new arrival, and taking it is a run |
| Idempotency.Drains | internal/httpapi/idempotency.go:78-168 | whatever steps the requests in flight take, with no new ones they are no more than the work there was, and where none can go on all are finished and the map is empty |
| LockTables.KeyLocks.Enter | internal/httpapi/idempotency.go:235-242 | finds or adds the lock object and counts in, as the value of the table says |
| LockTables.KeyLocks.TryAcquire | internal/httpapi/idempotency.go:244 | takes the mutex exactly when nobody holds it |
| LockTables.KeyLocks.Release | internal/httpapi/idempotency.go:246 | gives the mutex back and changes nothing else |
| LockTables.KeyLocks.Leave | internal/httpapi/idempotency.go:247-252 | counts out and drops the entry at zero, leaving other keys' locks alone |
| RecordingWriter.Recorder.WriteHeader | internal/httpapi/idempotency.go:204-210 | the copy keeps the first status, the connection gets every call |
| RecordingWriter.Recorder.Write | internal/httpapi/idempotency.go:212-216 | the copy grows by what the connection gets, and a first write settles the status |
| RecordingWriter.CopyIsFaithfulIff | internal/httpapi/idempotency.go:139-164 | the status recorded is the one the client saw iff the handler's first header was not informational |
| RecordingWriter.EarlyHintsAreCopied | internal/httpapi/idempotency.go:204-210 | a concrete handler whose recorded status is 103 while the client saw 201 |
| ImageCache.Cache.Run | internal/imagesearch/cache.go:101-425 | in any sequence of operations, with a crash allowed after any single step of any of them, every row with status ok has its file |
| ImageCache.Cache.Do | internal/imagesearch/cache.go:101-425 | one operation keeps every row's file through all of its steps, and does what it is for when every call works |
| ImageCache.Cache.Fetch | internal/imagesearch/cache.go:101-140 | from any state: known-unusable candidates change nothing, unusable rows survive, a hash handed out has its row and file unless its own picture is over the target, the cap holds after an enforced write; and when every call works a remembered candidate is refused, a cached one handed out untouched, a picture stored and capped, an unusable one remembered; a failed lookup is reported and changes nothing, and without a picture only a cached copy that was seen is handed out |
| ImageCache.Cache.Write | internal/imagesearch/cache.go:175-217 | file before row, safe after every step; the row is there afterwards iff it survived the eviction its own write set off; when every call works the write succeeds and the cap is enforced; a temporary file is left only when removing it failed too |
| ImageCache.Cache.MarkUnusable | internal/imagesearch/cache.go:221-232 | records the candidate as unusable or changes nothing, records it when the store works, and touches no file |
| ImageCache.Cache.Open | internal/imagesearch/cache.go:255-305 | from any state, serves only a row with its file and never loses an unusable one; when every call works it serves exactly the rows with a file, and a usable row whose file is gone is dropped and no other; a failed lookup or reading is reported |
| ImageCache.Cache.EnforceCapAfterWrite | internal/imagesearch/cache.go:328-340 | nothing happens under the cap; when it could measure and evict, which it can when every call works, the total is at most the cap |
| ImageCache.Cache.Evict | internal/imagesearch/cache.go:351-385 | succeeds when every call works; a success leaves the rows the specification leaves and a total at or below the target, and every file of what is gone is gone; safe after every step whatever fails; a failed first call is reported and changes nothing |
| ImageCache.Cache.SweepOrphans | internal/imagesearch/cache.go:392-425 | removes only files with no row that are no dot file, and all of them when every call works; a failed listing is reported and removes nothing |
| ImageCache.Cache.Touch | internal/imagesearch/cache.go:312-324 | moves the row to the most recent place when the store works and it is stale; loses no file and no safety |
| ImageCache.EvictsShortestPrefix | internal/imagesearch/cache.go:351-385 | what eviction removes is the shortest prefix of usable rows, in access order, that brings the total to the target; unusable rows stay |
| ImageCache.NewestSurvivesIff | internal/imagesearch/cache.go:136-139 | the row accessed last survives an eviction iff it alone fits the target |
| ImageCache.StoredSurvives | internal/imagesearch/cache.go:326-385 | whatever an eviction gets done, a row just stored that fits the target keeps row and file |
| ImageCache.UnusableStay | internal/imagesearch/cache.go:351-385 | no unusable row is ever evicted |
| Binary.OrdersAre | internal/images/exif.go:66-84 | the two byte orders, in numbers |
| Exif.OrientationFromEXIF | internal/images/exif.go:66-122 | the bounded loop over IFD entries reads what the specification says, for any bytes; what that is, `ReadsIff` says |
| Exif.ReadsIff | internal/images/exif.go:66-135 | for all bytes: one of 2 to 8 is read iff a header of "II" or "MM" and 42 leads to an IFD whose first entry with tag 0x0112, among those counted, inside the block and among the first 512, states that number as a SHORT or in the low half of a LONG |
| Exif.ReadsWhatIsWritten | internal/images/exif.go:66-135 | for either byte order, wherever the IFD is, whatever entries come before and whatever follows: the number from 1 to 8 an entry states is the one read, iff at most 511 come before it; any other number or type reads as 1 |
| Exif.ScanPast | internal/images/exif.go:99-121 | entries with other tags are skipped, up to the number of entries looked at |
| Jpeg.WalkJPEGSegments | internal/images/strip.go:201-248 | the index walk delivers the segments of the specification to any visitor, stops when told, and says where it stopped or that the file is malformed |
| Jpeg.WalkIsGrammar | internal/images/strip.go:156-248 | a walk that finds nothing broken delivers these segments and ends so iff the bytes are markers behind fill bytes, alone or with a length, up to a first scan, an end of image or the end of the data, and these are their segments |
| Jpeg.JpegOrientation | internal/images/strip.go:251-268 | the first readable EXIF orientation of the walk |
| Jpeg.ReadsFirstExif | internal/images/strip.go:250-268 | the orientation of a file is that of its first APP1 that starts with the EXIF header, wherever the file breaks off behind it, and 1 without one |
| Jpeg.DropJPEGMetadataSegments | internal/images/strip.go:274-297 | the visitor's copy is the specified copy |
| Jpeg.WalksEmitted | internal/images/strip.go:274-297 | re-walking emitted segments delivers them again one for one, and goes on behind them |
| Jpeg.WalksCopy | internal/images/strip.go:201-297 | the walk of the copy, in every case the source can produce |
| Jpeg.CopyIsClean | internal/images/strip.go:274-297 | when the walk reached a scan, the end of the data, or an EOI with nothing behind it: the copy's walk is exactly the non-metadata segments with identical payloads, its scan bytes are unchanged, it reads as upright and a second copy is the identity |
| Jpeg.CleanIff | internal/images/strip.go:201-297 | for every JPEG that is not malformed the copy is all of that exactly in those cases |
| Jpeg.TrailingSegmentsIff | internal/images/strip.go:222-224 | after an early EOI the copy's segments are the kept ones iff the bytes behind it hold none |
| Jpeg.ReadsUprightIff | internal/images/strip.go:251-268 | and it reads as upright iff those bytes, read from there on, do |
| Jpeg.SecondCopyIff | internal/images/strip.go:274-297 | and a second copy is the identity iff those bytes are whole segments without metadata, padding or bare markers up to the end or a scan |
| Jpeg.AllOfTheCopy | internal/images/strip.go:274-297 | the copy read to its end, every scan included: the kept segments, then all that is behind the first scan or an early EOI, with the bytes behind the picture's own EOI or from an unreadable length on |
| Jpeg.NoMetadataIff | internal/images/strip.go:89-99 | the copy holds no APPn or COM segment, and no such marker in the bytes behind it, iff the bytes from the first scan, or behind an early EOI, hold none |
| Jpeg.TrailingCommentStays | internal/images/strip.go:222-224 | a concrete file whose stripped copy holds a comment |
| Jpeg.CommentBehindAScan | internal/images/strip.go:242-245 | a concrete file with a comment behind its scan that is copied as it is |
| Jpeg.TrailingPictureStays | internal/images/strip.go:239-248 | whatever follows a picture's own EOI is copied: a second picture with its metadata included |
| Jpeg.StripTwiceIff | internal/images/strip.go:165-193 | stripping a JPEG stripped without a rotation gives it back iff there was no early EOI, or the bytes behind it are given back as they are |
| Jpeg.StripJPEG | internal/images/strip.go:165-193 | re-encodes exactly when the orientation asks for it, otherwise copies |
| Jpeg.RotatesIff | internal/images/strip.go:165-193 | a JPEG is re-encoded turned by 2 to 8 iff its first EXIF segment states that number |
| Jpeg.SidewaysIsTurned | internal/images/strip.go:165-193 | in bytes: a file with such a block in its first EXIF segment, whatever is before and behind |
| Png.WalkPNGChunks | internal/images/strip.go:345-372 | the index walk hands whole chunks, CRC included, to any visitor and stops at the first error |
| Png.PngOrientation | internal/images/strip.go:374-395 | the orientation of the eXIf chunk, or upright |
| Png.DropPNGMetadataChunks | internal/images/strip.go:397-412 | the visitor's copy is the specified copy |
| Png.WalksConcat | internal/images/strip.go:345-372 | chunks put one behind the other walk as themselves |
| Png.CopyIsClean | internal/images/strip.go:345-412 | for every PNG that parses: the copy is exactly the chunks that are no eXIf, tEXt, iTXt or zTXt byte for byte, reads as upright, and copying again changes nothing |
| Png.StripTwice | internal/images/strip.go:314-340 | stripping a stripped upright PNG gives it back |
| Png.StripPNG | internal/images/strip.go:314-340 | re-encodes exactly when the orientation asks for it, otherwise copies |
| Png.RotatesIff | internal/images/strip.go:315-395 | a PNG that parses is re-encoded turned by 2 to 8 iff its last eXIf chunk states that number, with or without the six bytes of the JPEG header before it |
| Png.SidewaysIsTurned | internal/images/strip.go:315-395 | in bytes: a file with such a chunk, whatever chunks are before it and whatever others behind |
| Transform.MapsOneToOne | internal/images/transform.go:46-65 | each orientation's map is a bijection onto the output, undone by the inverse orientation's map |
| Transform.ThenMaps | internal/images/transform.go:46-65 | the eight maps are closed under composition |
| Transform.ThenIs | internal/images/transform.go:46-65 | the composition table has the upright map as unit and the inverses as inverses, and axes swap as parity says |
| Transform.ApplyOrientation | internal/images/transform.go:13-40 | the double loop draws every source pixel where the map sends it, which is where the tag says it lies |
| Transform.ShowsIffLies | internal/images/transform.go:42-66 | mapped as the code maps pixels is lying as the tag says for each of the eight: as far from the visual sides of its 0th row and column as it was from those |
| Transform.ShowsIsUnique | internal/images/transform.go:31-37 | every output pixel is some source pixel, so the output is determined |
| Transform.InverseRestores | internal/images/transform.go:12-38 | applying the inverse orientation restores the image |
| Transform.OrientingTwice | internal/images/transform.go:12-38 | two orientations in a row are one of the eight |
| Crop.CropAgrees | internal/images/productimage.go:96-137 | for every picture and box, the crop is refused iff the one-pixel test refuses, iff the box lies off the unit square, and otherwise is non-empty and inside |
| Crop.CropIsWhatTheBoxTouches | internal/images/productimage.go:96-123 | the crop is exactly the pixels some part of the box lies on |
| Crop.CropRectIs | internal/images/productimage.go:96-123 | the corners of the crop on each axis |
| PreShrink.FactorBounds | internal/images/derive.go:196-205 | the factor is the largest that keeps 2400 pixels along the long and 1152 along the short edge |
| PreShrink.FactorIsLargest | internal/images/derive.go:196-205 | so no larger factor does, and none is used exactly when 2 is already too much |
| PreShrink.FitsWithin | internal/images/productimage.go:150-168 | a picture is never scaled up, and otherwise each edge is the whole number nearest to its share of the long one |
| PreShrink.ThumbsKeepTheirSize | internal/images/derive.go:110-139 | with a factor of 2 or more every thumbnail has exactly its named size, as without shrinking |
| PreShrink.ThumbNeverGrows | internal/images/derive.go:262-270 | a picture with an edge shorter than the side keeps that edge |
| PreShrink.PreviewKeepsItsSize | internal/images/derive.go:110-122 | the preview's long edge is 1600 either way and no edge moves by more than a pixel |
| PreShrink.EdgesClose | internal/images/productimage.go:154-168 | before rounding the short edge moves by less than a pixel |
| PreShrink.SquareIsCentred | internal/images/derive.go:249-258 | the square is inside, as large as the short edge, and off centre by at most a pixel |
| BoxShrink.BoxShrink | internal/images/derive.go:211-246 | the three planes are the block means, for every subsampling, reading only inside the planes |
| BoxShrink.OffsetsAre | internal/images/derive.go:211-246 | the sample of a pixel, ratio by ratio |
| BoxShrink.MeanPlaneAt | internal/images/derive.go:211-246 | the sample at (x, y) is the mean of its own block |
| BoxShrink.MeanWithinBlock | internal/images/derive.go:211-246 | a mean lies between the smallest and largest value of its block |
| BoxShrink.MeanIsNearest | internal/images/derive.go:211-246 | a mean is the whole number nearest to its block's sum over the number of its pixels, ties up |
| BoxShrink.CountsOnce | internal/images/derive.go:211-246 | every pixel of a block, and no other, counts once towards that sum |
| BoxShrink.LumaMean | internal/images/derive.go:218-229 | one luma block read row by row without leaving the plane |
| BoxShrink.ChromaMean | internal/images/derive.go:230-244 | one chroma block, a subsampled sample read as often as it is shown |
| DeriveService.DerivesWhatIsWanted | internal/derive/service.go:146-158 | whatever the picture's size, a decode yields exactly the files the set is checked for |
| DeriveService.SelectsNothingIs | internal/derive/service.go:148-152 | the test of a box is the plain condition the model asks it in |
| DeriveService.OneRunPerKeyOneDecodePerLane | internal/derive/service.go:161-184 | in every interleaving at most one run per key is in flight and at most one decode per lane |
| DeriveService.AtMostTwoDecodes | internal/derive/service.go:14-16 | never more than two decodes at once, over all sources |
| DeriveService.SuccessMeansTheSetExists | internal/derive/service.go:186-281 | a run that succeeded has its whole set on disk unless something of the source was removed since |
| DeriveService.MadeOncePerRemoval | internal/derive/service.go:186-214 | a set is successfully made at most once more often than something of its source is removed: once while nothing is |
| DeriveService.DecodedOncePerExcuse | internal/derive/service.go:186-214 | a job's picture is decoded at most once more often than something of its source is removed and a decode or write of it fails |
| DeriveService.SecondReadFinds | internal/derive/service.go:307-343 | the second read of Open and OpenRow finds its file unless something was removed meanwhile |
| DeriveService.OpenAnswers | internal/derive/service.go:307-336 | a call of Open or OpenRow is not found exactly when the row is refused, served exactly when it is not and the file is there, and waits for a run exactly otherwise |
| DeriveService.AnsweredBy | internal/derive/service.go:161-343 | in every run a caller was answered by its own call, its second read, its run or its timeout: served only what was there then, not found only what was refused or missing then, told of a failure only after a timeout or a run that failed |
| DeriveService.ThereIff | internal/derive/service.go:186-281 | in every run a file is there iff a run of its source wrote it and it was not removed since |
| DeriveService.RunGotThere | internal/derive/service.go:186-281 | in every run a set is where its last move took it, told move by move: queued for, and decoded, only after one of its files was found missing with the slot or without, written only after a decode, successful only when no file was missing or all were written, failed only from the queue, the decode or a write |
| DeriveService.FailedBy | internal/derive/service.go:186-281 | a run failed only after it gave up its place, or a decode or a write failed |
| DeriveService.NoDeadlock | internal/derive/service.go:161-184 | while anybody waits, something other than a timeout can happen |
| DeriveService.BehindEagerIff | internal/derive/service.go:172-184 | in every run, a waiting request is behind background work iff a background run for its key was in flight when it asked |
| DeriveService.QueuedBehindAnother | internal/derive/service.go:161-184 | and while that run is queued, the slot is held by a run of another key |
| DeriveService.RequestWaitsForBackground | internal/derive/service.go:12-17 | a run in which a request waits behind another source's background decode with the request lane free |
| RateLimiter.Limiter.BlockedLocked | internal/httpapi/ratelimit.go:140-156 | the loop finds the longest wait of the blocked keys |
| RateLimiter.Limiter.Sweep | internal/httpapi/ratelimit.go:175-181 | exactly the dead windows go |
| RateLimiter.Limiter.RecordLocked | internal/httpapi/ratelimit.go:159-172 | sweeps, then charges each key, in place |
| RateLimiter.Limiter.Reset | internal/httpapi/ratelimit.go:113-119 | forgets exactly the given keys |
| RateLimiter.Limiter.Allow | internal/httpapi/ratelimit.go:128-137 | the answer is about the table before, and the attempt is charged either way |
| RateLimiter.SweepIsUnobservable | internal/httpapi/ratelimit.go:175-181 | over any calls in time order, a limiter that sweeps answers as one that never does |
| RateLimiter.GrantedPerWindow | internal/httpapi/ratelimit.go:128-172 | for a key never reset, no window grants more than the limit |
| RateLimiter.WindowIsUsed | internal/httpapi/ratelimit.go:58-111 | and a key that only attempts charge is granted exactly as often in its window as the window counts, up to the limit |
| RateLimiter.GrantedPerInterval | internal/httpapi/ratelimit.go:128-172 | for a key never reset, no half-open interval one window long grants more than twice the limit less one |
| RateLimiter.BoundIsReached | internal/httpapi/ratelimit.go:128-172 | for every limit, key and window of at least two ticks there are calls in time order, none a reset, for which the limiter grants that many |
| RateLimiter.WaitIsTheLongest | internal/httpapi/ratelimit.go:140-156 | the wait is positive, one of the blocked keys' and no shorter than any |
| RateLimiter.WaitIsSound | internal/httpapi/ratelimit.go:94-98 | absent a reset, refused for the whole wait whatever is recorded |
| RateLimiter.WaitIsExactIff | internal/httpapi/ratelimit.go:94-98 | once the wait is over a key that was blocked is blocked anew iff it was charged up to the limit after its own window had ended |
| RateLimiter.WaitIsExact | internal/httpapi/ratelimit.go:94-98 | in particular one not charged since is free, whatever else was recorded |
| RateLimiter.ChargedAgain | internal/httpapi/ratelimit.go:94-98 | a concrete run in which a key so charged blocks anew at the end of the wait |
| RateLimiter.FullWindowStays | internal/httpapi/ratelimit.go:159-172 | a full window keeps its start and stays full until it ends |
| RateLimiter.ResetForgets | internal/httpapi/ratelimit.go:113-119 | in every run, for a key a success named: table entry and answers are those of a limiter that saw only what came after it |
| RateLimiter.BlockedSinceReset | internal/httpapi/ratelimit.go:106-119 | so blocking it takes the whole limit again |
| RateLimiter.ResetSparesOthers | internal/httpapi/ratelimit.go:113-119 | and for any other key they are those of a run without that success |
| Holiday.MaxWeeksInWindow | internal/gamification/holiday.go:22-42 | the largest number of entries, repeats counted, over every possible start of 52 consecutive weeks |
| Holiday.Scan | internal/gamification/holiday.go:31-41 | the two pointers find the longest run within a window, left never passing right |
| Holiday.TallyIsARun | internal/gamification/holiday.go:33-40 | a window's tally is the length of a run of sorted entries |
| Holiday.OrderDoesNotMatter | internal/gamification/holiday.go:22-42 | the same entries in another order give the same result |
| Holiday.OneMoreWeek | internal/gamification/holiday.go:17-22 | one more week raises the result by at most one, and by one iff it falls into a fullest window |
| Scoring.Coalesce | internal/gamification/coalesce.go:52-76 | the total is the sum, over every chain of events of one reference and group, of the most one of them is worth, stated on the set of events |
| Scoring.MaxXP | internal/gamification/coalesce.go:95-103 | the largest XP, and never less than zero |
| Scoring.SumWindows | internal/gamification/coalesce.go:67-73 | closing a window at every gap adds up the windows' peaks |
| Scoring.SameGroupIff | internal/gamification/coalesce.go:78-93 | two kinds share a group iff they are the same or the two outcomes of confirming a row |
| Scoring.InSomeChain | internal/gamification/coalesce.go:32-34 | every event is in a chain, and within it follows another by less than the window |
| Scoring.InOneChain | internal/gamification/coalesce.go:32-34 | and in no other |
| Scoring.NextChainScores | internal/gamification/coalesce.go:68-72 | events a window or more after the others add exactly their peak |
| Scoring.KeysAddUp | internal/gamification/coalesce.go:57-64 | scores of events sharing no key add up |
| Scoring.DroppingARef | internal/gamification/coalesce.go:36-42 | deleting a product's events takes exactly its contribution away |
| Scoring.LatestAdds | internal/gamification/coalesce.go:65-72 | an event later than the others of its key raises the score by between nothing and its XP, and by all of it a window after them |
| Scoring.BridgeScores | internal/gamification/coalesce.go:65-72 | an event that joins two chains costs their two peaks and brings the highest of the three |
| Scoring.NoBridgeAdds | internal/gamification/coalesce.go:65-72 | any other event adds at least nothing and at most its XP |
| Scoring.LowersIff | internal/gamification/coalesce.go:65-72 | a new event lowers the score iff it joins two chains, being less than a window from both while they are a window apart, and no one of the three is worth the two peaks together |
| Scoring.ABridgeLowersTheScore | internal/gamification/coalesce.go:67-72 | a concrete event between two others that lowers the score |
| Nesting.NestLocations | internal/httpapi/locations.go:371-392 | one node a row; roots and every node's children are the right nodes in row order |
| Nesting.LinkedIsTheForest | internal/httpapi/locations.go:371-392 | what is left in memory is the forest, all the way down |
| Nesting.AppearsIff | internal/httpapi/locations.go:363-392 | a row is in the forest exactly once, under its parent or as a root when the parent is not among the rows, iff it hangs from a root |
| Nesting.FlattenRecovers | internal/httpapi/categories.go:327-352 | flattening the forest of rows without loops gives back rows and edges, none lost and none twice |
| Nesting.AcyclicIff | internal/httpapi/export.go:399-424 | every row hangs from a root iff no rows form a loop |
| Nesting.OneTrail | internal/httpapi/locations.go:378-390 | a row hangs in one place only |
| EnvFile.SplitTrailingComment | internal/config/setup.go:353-365 | the scan with its walk back splits as specified |
| EnvFile.SplitIs | internal/config/setup.go:345-365 | nothing is lost, the value holds no comment, and there is a note iff the text held a blank before a '#' |
| EnvFile.ParseExample | internal/config/setup.go:323-343 | the loop over lines parses as specified |
| EnvFile.RenderEnv | internal/config/setup.go:372-391 | the builder writes the specified text |
| EnvFile.ReadBackIff | internal/config/setup.go:345-353 | a trimmed value is read back from its line iff it holds no blank before a '#' |
| EnvFile.ValidatedIsReadBack | internal/config/setup.go:213-242 | an answer to any question: empty is accepted for the three optional settings only; else a POSTGRES_* answer is accepted iff it holds no '$' and is read back, and any other answer always |
| EnvFile.RoundTrip | internal/config/setup.go:321-391 | parsing what was printed gives the entries back, each note on its own line above its variable, up to blank lines at the end |
| EnvFile.PairsRoundTrip | internal/config/setup.go:321-391 | and the same keys and values in the same order |
| EnvFile.ParsedSettled | internal/config/setup.go:323-343 | whatever is parsed is such an entry, but for carriage returns at the end of passed-through lines |
| EnvFile.FixedPointIff | internal/config/setup.go:323-391 | for every text, printing what was parsed is a fixed point iff no passed-through line ends in a stray carriage return |
| EnvFile.PrintedBlankIff | internal/config/setup.go:323-391 | a line is printed as a blank one iff it was one or there is nothing but space before its '=' |
| EnvFile.BlankLinesIff | internal/config/setup.go:323-391 | in every text exactly those of its lines come out blank |
| EnvFile.EmptyKeyIsLost | internal/config/setup.go:323-391 | a text of one line is printed as nothing iff it is empty or such a line |
| Base64.RoundTrip | internal/httpapi/pagination.go:58-74 | decoding what was encoded gives the bytes back, for any length |
| Base64.CanonicalIff | internal/httpapi/pagination.go:63-74 | encoding what was decoded gives the same text back iff no spare bits were set |
| Base64.CharAtIs | internal/httpapi/pagination.go:58-74 | the alphabet of section 5 of RFC 4648, character by character |
| Base64.Vectors | internal/httpapi/pagination.go:58-74 | vectors of its section 10 |
| Paging.ReadLimit | internal/httpapi/pagination.go:40-46 | a page asks for 50 rows without a limit, else for as many as wanted and 200 at most; only what is no positive number is refused |
| Paging.ReadPageIs | internal/httpapi/pagination.go:36-56 | which limits and cursors are refused and for what, and that only the empty cursor starts at the top |
| Paging.IssuedIsRead | internal/httpapi/pagination.go:36-56 | an issued cursor asks for what comes after the id it was made of |
| Paging.CursorRoundTrip | internal/httpapi/pagination.go:58-74 | a cursor decodes to the id it was made of |
| Paging.AcceptedIff | internal/httpapi/pagination.go:67-74 | a cursor is accepted iff, line breaks aside, it is 22 characters of the alphabet |
| Paging.IssuedIff | internal/httpapi/pagination.go:63-65 | a text is a cursor this server issues iff it is 22 characters with the last four bits zero |
| Paging.BreakAccepted | internal/httpapi/pagination.go:67-74 | every issued cursor with a line break behind it is accepted, though none such is issued |
| Paging.SpareBitAccepted | internal/httpapi/pagination.go:67-74 | 22 characters with a spare bit set are accepted, though none such is issued |
| Paging.CursorsCarryOn | internal/httpapi/pagination.go:76-92 | handing next_cursor back continues right after the last item |
| Paging.NeverTwice | internal/httpapi/pagination.go:25-30 | whatever comes and goes between requests, no item is returned on two pages |
| Paging.PagesAreFull | internal/httpapi/jobs.go:234-248 | a page is in order without repeats, within its limit, and full unless it is the last |
| Paging.LastingItemsReturnedOnce | internal/httpapi/pagination.go:76-92 | when next_cursor is null every item present throughout has been returned on exactly one page |
| Paging.WalkEnds | internal/httpapi/pagination.go:76-92 | while nothing is added behind the cursor a walk takes at most one request more than there were items |
| Paging.WalkExists | internal/httpapi/pagination.go:76-92 | every collection can be walked to its end at every page size |
| Paging.OrderIsTotal | internal/store/jobs.go:336-358 | ids compare as equal only when they are |
| Paging.OrderIsByBytes | internal/store/jobs.go:336-358 | the greater id is the one with the greater first byte that differs |
| IngestConfirm.World.Confirm | internal/httpapi/ingest.go:252-267 | at no moment, with others at work between any steps, does a product point at a missing picture of this confirm, unless the commit's answer was lost and some chosen row makes its product; then, undisturbed, one does; when removals and usage checks work, a failed confirm leaves no file and a finished one none that no product used; the outcome is the transaction's iff every reading, cut and save works |
| IngestConfirm.LostAnswerBreaksAPicture | internal/httpapi/ingest.go:252-267 | a run in which everything works but the commit's answer: a product is left pointing at a removed file |
| IngestConfirm.World.WriteProductImages | internal/httpapi/ingest.go:309-416 | succeeds iff every reading, cut and save works; then each chosen decision, and no other, points at its own file, which is there; after a failure, which is the last step tried, no file is left when removals work |
| IngestConfirm.World.DiscardUnusedProductImages | internal/httpapi/ingest.go:423-446 | when checks and removals work: after a failure all go, after a success only those no product uses; and, undisturbed, none it could not ask about |
| IngestConfirm.World.RemoveProductImages | internal/httpapi/ingest.go:448-454 | removes the named files and nothing else, all of them when removals work |
| IngestConfirm.FirstRowsPicture | internal/httpapi/ingest.go:418-422 | a row's picture is used iff it is the first accepted row to make its product |
| IngestConfirm.NewPicturesAre | internal/store/ingestion.go:307-359 | the pictures a transaction refers to are those of the rows that make a product |

## Left out

- The database, file system, clock, randomness and network: collaborators that do what their calls promise or fail; their failures are choices of a step or a method.
- Several server processes, and the sweep of old idempotency records: one process, and records stay.
- Hash collisions: a request hash and the hash of a proposal's boxes stand for what they are made of.
- The middleware before the lock (method, key format, session, body size) and the headers of a replay: single branches.
- JSON normalisation of a stored body by the database column: a body is given back byte for byte.
- Concurrent cache operations: the cache's theorems are for one operation at a time with a crash anywhere; `Open` and `Fetch` are also specified from states that concurrency can leave.
- Temporary files of the cache that a crash leaves (`.tmp-*`): dot files are never swept, by the source's own choice.
- The throttle of `Touch`, background loops, tickers, timeouts and shutdown.
- JPEG and PNG codecs, colour conversion and scaling kernels, and with them the bytes of the re-encoded branch of `Strip`; that branch's pixels are `Transform`.
- Rounding of floating-point numbers: box coordinates and edge lengths are exact; boxes with infinite or undefined coordinates are refused as the source refuses them.
- Files of 2^32 bytes and more, and the branch of the PNG length check that only 32-bit machines reach.
- DeriveService.SecondReadFinds: a probe of one file under both encodings is one step, and other read errors than a missing file are not modelled.
- `ReplaceRowSet`, `Warm`: a removal followed by a call, both of which are steps here.
- Walks of JPEG files that are malformed: refused by the source, nothing is copied.
- `weeksBetween` and time zones: weeks are numbered by their Mondays.
- Scoring by day, levels, streaks and quests: short functions.
- The library's sort: an insertion sort stands in, and only its contract is used, so ties may fall either way.
- Wizard prompts, DATABASE_URL, file modes; strings that are not valid UTF-8.
- SQL: a query returns the first rows after the cursor in id order. Job statuses and storages select the set of items of a request.
- Cutouts, crops and decoding within a confirm: a picture is cut or it is not.
- Reservations of file names: a generated name does not repeat.
