/**
Stripping a JPEG's metadata without decoding it (internal/images/strip.go): the walk over
the marker segments (section B.1.1 of ITU-T T.81) and the copy without APPn and COM.
*/
module Jpeg {
  import opened Binary
  import opened Exif
  import opened Wrappers

  const SOI: Byte := 0xD8
  const EOI: Byte := 0xD9
  const SOS: Byte := 0xDA
  const APP0: Byte := 0xE0
  const APP1: Byte := 0xE1
  const APPF: Byte := 0xEF
  const COM: Byte := 0xFE
  const TEM: Byte := 0x01
  const RST0: Byte := 0xD0
  const RST7: Byte := 0xD7

  predicate IsJPEG(data: seq<Byte>) { |data| >= 2 && data[0] == 0xFF && data[1] == SOI }

  predicate IsMetadata(marker: Byte) { APP0 <= marker <= APPF || marker == COM }

  predicate IsStandalone(marker: Byte) { marker == TEM || RST0 <= marker <= RST7 }

  datatype Segment = Segment(marker: Byte, payload: seq<Byte>)

  datatype Error = UnsupportedFormat | Malformed

  /** Where a walk stops, with the bytes it leaves for the copy. */
  datatype End =
    | Scan(rest: seq<Byte>)        // after a scan header: entropy-coded data
    | AfterEOI(rest: seq<Byte>)    // after an end-of-image marker that came before any scan
    | DataEnd                      // the data ran out; nothing is left
    | Broken
  {
    function Rest(): seq<Byte> { if Scan? || AfterEOI? then rest else [] }
  }

  datatype Walk = Walk(segments: seq<Segment>, end: End)

  function Before(first: seq<Segment>, walk: Walk): Walk { Walk(first + walk.segments, walk.end) }

  /** Past the fill bytes: a run of 0xFF before a marker is legal padding. */
  function SkipFill(data: seq<Byte>): (r: seq<Byte>)
    ensures |r| <= |data|
    ensures data != [] && data[0] == 0xFF ==> |r| < |data|
  {
    if data != [] && data[0] == 0xFF then SkipFill(data[1..]) else data
  }

  /** What one marker comes to, and the bytes after it. */
  datatype Next = Stop(end: End) | Bare(rest: seq<Byte>) | Found(segment: Segment, rest: seq<Byte>)

  /** What a marker comes to, given the bytes after it. */
  function ReadAfter(marker: Byte, after: seq<Byte>): (r: Next)
    ensures !r.Stop? ==> |r.rest| <= |after|
  {
    if marker == EOI then Stop(AfterEOI(after))
    else if IsStandalone(marker) || marker == SOI then Bare(after)
    else if |after| < 2 then Stop(Broken)
    else
      var length := Get16(BigEndian, after[0], after[1]);
      if length < 2 || length > |after| then Stop(Broken)
      else Found(Segment(marker, after[2..length]), after[length..])
  }

  function Read(data: seq<Byte>): (r: Next)
    requires |data| > 1
    ensures !r.Stop? ==> |r.rest| < |data|
  {
    if data[0] != 0xFF then Stop(Broken)
    else
      var at := SkipFill(data);
      if at == [] then Stop(DataEnd) else ReadAfter(at[0], at[1..])
  }

  /** The segments from some marker boundary on, up to and including a scan header. */
  function Segments(data: seq<Byte>): Walk
    decreases |data|
  {
    if |data| <= 1 then Walk([], DataEnd)
    else match Read(data)
      case Stop(end) => Walk([], end)
      case Bare(rest) => Segments(rest)
      case Found(segment, rest) =>
        if segment.marker == SOS then Walk([segment], Scan(rest)) else Before([segment], Segments(rest))
  }

  /** A visitor sees the segments in order, and may end the walk. */
  function Deliver<S>(segments: seq<Segment>, state: S, visit: (S, Segment) -> (S, bool)): (S, bool) {
    if segments == [] then (state, true)
    else
      var (next, go) := visit(state, segments[0]);
      if go then Deliver(segments[1..], next, visit) else (next, false)
  }

  lemma SliceOfRest(data: seq<Byte>, k: nat, length: nat)
    requires 2 <= length && k + length <= |data|
    ensures data[k..][2..length] == data[k + 2..k + length] && data[k..][length..] == data[k + length..]
  {
  }

  /** The marker at `i`: where it leads, the segment if it has one, and whether the walk is over. */
  method ReadMarker(data: seq<Byte>, i: nat)
    returns (r: Result<nat, Error>, segment: Option<Segment>, over: bool)
    requires i + 1 < |data|
    ensures r.Ok? ==> i < r.value <= |data|
    ensures match Read(data[i..])
      case Stop(end) => over && segment == None
        && (r.Err? <==> end.Broken?) && (r.Ok? ==> data[r.value..] == end.Rest()) && (r.Err? ==> r.error == Malformed)
      case Bare(rest) => !over && segment == None && r.Ok? && data[r.value..] == rest
      case Found(found, rest) => !over && segment == Some(found) && r.Ok? && data[r.value..] == rest
  {
    if data[i] != 0xFF {
      return Err(Malformed), None, true;
    }
    var j := i;
    while j < |data| && data[j] == 0xFF
      invariant i <= j <= |data|
      invariant SkipFill(data[i..]) == SkipFill(data[j..])
    {
      j := j + 1;
    }
    assert SkipFill(data[i..]) == data[j..];
    if j >= |data| {
      return Ok(|data|), None, true;
    }
    assert data[j..][1..] == data[j + 1..];
    assert Read(data[i..]) == ReadAfter(data[j], data[j + 1..]);
    r, segment, over := ReadSegment(data, j);
  }

  /** Past the fill bytes: the marker itself. */
  method ReadSegment(data: seq<Byte>, j: nat)
    returns (r: Result<nat, Error>, segment: Option<Segment>, over: bool)
    requires j < |data|
    ensures r.Ok? ==> j < r.value <= |data|
    ensures match ReadAfter(data[j], data[j + 1..])
      case Stop(end) => over && segment == None
        && (r.Err? <==> end.Broken?) && (r.Ok? ==> data[r.value..] == end.Rest()) && (r.Err? ==> r.error == Malformed)
      case Bare(rest) => !over && segment == None && r.Ok? && data[r.value..] == rest
      case Found(found, rest) => !over && segment == Some(found) && r.Ok? && data[r.value..] == rest
  {
    var marker := data[j];
    if marker == EOI {
      return Ok(j + 1), None, true;
    }
    if IsStandalone(marker) || marker == SOI {
      return Ok(j + 1), None, false;
    }
    if j + 3 > |data| {
      return Err(Malformed), None, true;
    }
    var length := Get16(BigEndian, data[j + 1], data[j + 2]);
    if length < 2 || j + 1 + length > |data| {
      return Err(Malformed), None, true;
    }
    SliceOfRest(data, j + 1, length);
    r, segment, over := Ok(j + 1 + length), Some(Segment(marker, data[j + 3..j + 1 + length])), false;
  }

  /** The walker: the visitor's state, and the offset of the scan data or the error. */
  method WalkJPEGSegments<S>(data: seq<Byte>, init: S, visit: (S, Segment) -> (S, bool))
    returns (state: S, r: Result<nat, Error>)
    ensures !IsJPEG(data) ==> r == Err(UnsupportedFormat)
    ensures IsJPEG(data) ==>
      var walk := Segments(data[2..]);
      var (last, whole) := Deliver(walk.segments, init, visit);
      && state == last
      && (!whole ==> r.Ok? && r.value <= |data|)
      && (whole ==> (r.Err? <==> walk.end.Broken?) && (r.Err? ==> r.error == Malformed))
      && (whole && r.Ok? ==> r.value <= |data| && data[r.value..] == walk.end.Rest())
  {
    state := init;
    if !IsJPEG(data) {
      return state, Err(UnsupportedFormat);
    }
    var i := 2;
    ghost var walk := Segments(data[2..]);
    while i + 1 < |data|
      invariant 2 <= i <= |data|
      invariant Deliver(walk.segments, init, visit) == Deliver(Segments(data[i..]).segments, state, visit)
      invariant walk.end == Segments(data[i..]).end
    {
      var next, segment, over := ReadMarker(data, i);
      if over || next.Err? {
        return state, next;
      }
      i := next.value;
      if segment.Some? {
        var seen := visit(state, segment.value);
        state := seen.0;
        if !seen.1 || segment.value.marker == SOS {
          return state, Ok(i);
        }
      }
    }
    r := Ok(|data|);
  }

  // ------------------------------------------------------------ the two visitors

  /** The orientation, from the first APP1 that starts with the EXIF header. */
  function SeeOrientation(o: Orientation, segment: Segment): (Orientation, bool) {
    if segment.marker != APP1 || |segment.payload| < |EXIF_HEADER| then (o, true)
    else if segment.payload[..|EXIF_HEADER|] != EXIF_HEADER then (o, true)
    else (OrientationOf(segment.payload[|EXIF_HEADER|..]), false)
  }

  method JpegOrientation(data: seq<Byte>) returns (r: Result<Orientation, Error>)
    ensures r == ReadOrientation(data)
  {
    var o, end := WalkJPEGSegments(data, NORMAL, SeeOrientation);
    r := if end.Err? then Err(end.error) else Ok(o);
  }

  function ReadOrientation(data: seq<Byte>): Result<Orientation, Error> {
    if !IsJPEG(data) then Err(UnsupportedFormat)
    else
      var walk := Segments(data[2..]);
      var (o, whole) := Deliver(walk.segments, NORMAL, SeeOrientation);
      if whole && walk.end.Broken? then Err(Malformed) else Ok(o)
  }

  /** The copy of one segment, its length written as two bytes whatever it is. */
  function Emit(segment: Segment): seq<Byte> {
    [0xFF, segment.marker] + Put16(BigEndian, (|segment.payload| + 2) % 0x1_0000) + segment.payload
  }

  function SeeCopy(out: seq<Byte>, segment: Segment): (seq<Byte>, bool) {
    if IsMetadata(segment.marker) then (out, true) else (out + Emit(segment), true)
  }

  function Keep(segments: seq<Segment>): seq<Segment> {
    if segments == [] then []
    else (if IsMetadata(segments[0].marker) then [] else [segments[0]]) + Keep(segments[1..])
  }

  function EmitAll(segments: seq<Segment>): seq<Byte> {
    if segments == [] then [] else Emit(segments[0]) + EmitAll(segments[1..])
  }

  lemma EmitKept(segments: seq<Segment>)
    requires segments != []
    ensures EmitAll(Keep(segments))
         == (if IsMetadata(segments[0].marker) then [] else Emit(segments[0])) + EmitAll(Keep(segments[1..]))
  {
    if IsMetadata(segments[0].marker) {
      assert Keep(segments) == Keep(segments[1..]);
    } else {
      assert Keep(segments)[1..] == Keep(segments[1..]);
    }
  }

  lemma Append<T>(a: seq<T>, b: seq<T>, c: seq<T>)
    ensures (a + b) + c == a + (b + c) && a + ([] + c) == a + c
  {
  }

  lemma {:induction false} CopyVisitsAll(segments: seq<Segment>, out: seq<Byte>)
    ensures Deliver(segments, out, SeeCopy) == (out + EmitAll(Keep(segments)), true)
  {
    if segments == [] {
      assert out + [] == out;
    } else {
      var next := SeeCopy(out, segments[0]).0;
      CopyVisitsAll(segments[1..], next);
      EmitKept(segments);
      Append(out, if IsMetadata(segments[0].marker) then [] else Emit(segments[0]), EmitAll(Keep(segments[1..])));
    }
  }

  /** The file without its APPn and COM segments, and whatever the walk left copied verbatim. */
  function Copied(data: seq<Byte>): seq<Byte>
    requires IsJPEG(data)
  {
    var walk := Segments(data[2..]);
    [0xFF, SOI] + EmitAll(Keep(walk.segments)) + walk.end.Rest()
  }

  method DropJPEGMetadataSegments(data: seq<Byte>) returns (r: Result<seq<Byte>, Error>)
    ensures r == Drop(data)
  {
    var out, end := WalkJPEGSegments(data, [0xFF, SOI], SeeCopy);
    if end.Err? {
      if IsJPEG(data) {
        CopyVisitsAll(Segments(data[2..]).segments, [0xFF, SOI]);
      }
      return Err(end.error);
    }
    CopyVisitsAll(Segments(data[2..]).segments, [0xFF, SOI]);
    if end.value < |data| {
      out := out + data[end.value..];
    } else {
      assert data[end.value..] == [] && out + [] == out;
    }
    r := Ok(out);
  }

  function Drop(data: seq<Byte>): Result<seq<Byte>, Error> {
    if !IsJPEG(data) then Err(UnsupportedFormat)
    else if Segments(data[2..]).end.Broken? then Err(Malformed)
    else Ok(Copied(data))
  }

  // -------------------------------------------------------------- walking the copy

  /** A segment a walk can deliver. */
  predicate Plain(segment: Segment) {
    && segment.marker != 0xFF && segment.marker != EOI && segment.marker != SOI && !IsStandalone(segment.marker)
    && |segment.payload| + 2 < 0x1_0000
  }

  lemma {:induction false} SkipFillStops(data: seq<Byte>)
    ensures SkipFill(data) != [] ==> SkipFill(data)[0] != 0xFF
  {
    if data != [] && data[0] == 0xFF {
      SkipFillStops(data[1..]);
    }
  }

  /** Every segment is plain, and a scan header is the last one, when the walk ends at a scan. */
  predicate Delivered(walk: Walk) {
    && (forall segment | segment in walk.segments :: Plain(segment))
    && (walk.end.Scan? ==> walk.segments != [] && walk.segments[|walk.segments| - 1].marker == SOS)
    && (forall i | 0 <= i < |walk.segments| && walk.segments[i].marker == SOS ::
          walk.end.Scan? && i == |walk.segments| - 1)
  }

  lemma {:induction false} SegmentsArePlain(data: seq<Byte>)
    ensures Delivered(Segments(data))
    decreases |data|
  {
    if |data| > 1 {
      SkipFillStops(data);
      match Read(data)
      case Stop(_) =>
      case Bare(rest) => SegmentsArePlain(rest);
      case Found(segment, rest) => SegmentsArePlain(rest);
    }
  }

  lemma ReadsLength(segment: Segment, rest: seq<Byte>)
    requires Plain(segment)
    ensures ReadAfter(segment.marker, Put16(BigEndian, |segment.payload| + 2) + segment.payload + rest)
         == Found(segment, rest)
  {
    var length := Put16(BigEndian, |segment.payload| + 2);
    var after := length + segment.payload + rest;
    assert after[2..|segment.payload| + 2] == segment.payload;
    assert after[|segment.payload| + 2..] == rest;
  }

  lemma ReadsMarker(marker: Byte, after: seq<Byte>)
    requires marker != 0xFF
    ensures Read([0xFF, marker] + after) == ReadAfter(marker, after)
  {
    var data := [0xFF, marker] + after;
    assert data[1..] == [marker] + after && ([marker] + after)[1..] == after;
    assert SkipFill(data) == SkipFill([marker] + after) == [marker] + after;
  }

  lemma ReadsEmitted(segment: Segment, rest: seq<Byte>)
    requires Plain(segment)
    ensures Read(Emit(segment) + rest) == Found(segment, rest)
  {
    var after := Put16(BigEndian, |segment.payload| + 2) + segment.payload + rest;
    assert Emit(segment) + rest == [0xFF, segment.marker] + after;
    ReadsMarker(segment.marker, after);
    ReadsLength(segment, rest);
  }

  /** Emitted segments are delivered again, one for one, and the walk goes on behind them. */
  lemma {:induction false} WalksEmitted(segments: seq<Segment>, rest: seq<Byte>)
    requires forall segment | segment in segments :: Plain(segment) && segment.marker != SOS
    ensures Segments(EmitAll(segments) + rest) == Before(segments, Segments(rest))
  {
    if segments == [] {
      assert EmitAll(segments) + rest == rest;
      assert Before([], Segments(rest)).segments == Segments(rest).segments;
    } else {
      WalksEmitted(segments[1..], rest);
      assert segments[0] in segments;
      WalksOneMore(segments[0], EmitAll(segments[1..]) + rest);
      Append(Emit(segments[0]), EmitAll(segments[1..]), rest);
      BeforeBoth(segments[0], segments[1..], Segments(rest));
      assert segments == [segments[0]] + segments[1..];
    }
  }

  lemma WalksOneMore(segment: Segment, rest: seq<Byte>)
    requires Plain(segment) && segment.marker != SOS
    ensures Segments(Emit(segment) + rest) == Before([segment], Segments(rest))
  {
    ReadsEmitted(segment, rest);
  }

  lemma BeforeBoth(first: Segment, more: seq<Segment>, walk: Walk)
    ensures Before([first], Before(more, walk)) == Before([first] + more, walk)
  {
    assert [first] + (more + walk.segments) == ([first] + more) + walk.segments;
  }

  lemma {:induction false} EmitAllSplits(a: seq<Segment>, b: seq<Segment>)
    ensures EmitAll(a + b) == EmitAll(a) + EmitAll(b)
  {
    if a == [] {
      assert a + b == b;
    } else {
      assert (a + b)[1..] == a[1..] + b;
      EmitAllSplits(a[1..], b);
    }
  }

  lemma {:induction false} KeepIs(segments: seq<Segment>)
    ensures forall segment :: segment in Keep(segments) <==> segment in segments && !IsMetadata(segment.marker)
  {
    if segments != [] {
      KeepIs(segments[1..]);
      assert segments == [segments[0]] + segments[1..];
    }
  }

  lemma {:induction false} KeepTwice(segments: seq<Segment>)
    ensures Keep(Keep(segments)) == Keep(segments)
  {
    if segments != [] {
      KeepTwice(segments[1..]);
      if !IsMetadata(segments[0].marker) {
        assert Keep(segments)[1..] == Keep(segments[1..]);
      } else {
        assert Keep(segments) == Keep(segments[1..]);
      }
    }
  }

  lemma {:induction false} KeepLast(segments: seq<Segment>)
    requires segments != [] && !IsMetadata(segments[|segments| - 1].marker)
    ensures Keep(segments) == Keep(segments[..|segments| - 1]) + [segments[|segments| - 1]]
  {
    if |segments| > 1 {
      KeepLast(segments[1..]);
      assert segments[1..][..|segments| - 2] == segments[..|segments| - 1][1..];
    }
  }

  lemma KeepKeeps(segments: seq<Segment>)
    ensures forall segment :: segment in Keep(segments) <==> segment in segments && !IsMetadata(segment.marker)
    ensures Keep(Keep(segments)) == Keep(segments)
    ensures segments != [] && !IsMetadata(segments[|segments| - 1].marker) ==>
      Keep(segments) == Keep(segments[..|segments| - 1]) + [segments[|segments| - 1]]
  {
    KeepIs(segments);
    KeepTwice(segments);
    if segments != [] && !IsMetadata(segments[|segments| - 1].marker) { KeepLast(segments); }
  }

  /** The walk of the copy, in full: the kept segments, and then whatever was copied behind them. */
  lemma WalksCopy(data: seq<Byte>)
    requires IsJPEG(data) && !Segments(data[2..]).end.Broken?
    ensures IsJPEG(Copied(data))
    ensures var walk, again := Segments(data[2..]), Segments(Copied(data)[2..]);
      again == if walk.end.AfterEOI? then Before(Keep(walk.segments), Segments(walk.end.rest))
               else Walk(Keep(walk.segments), walk.end)
  {
    var walk := Segments(data[2..]);
    var kept := Keep(walk.segments);
    SegmentsArePlain(data[2..]);
    assert Copied(data)[2..] == EmitAll(kept) + walk.end.Rest();
    if walk.end.Scan? {
      WalksUpToScan(walk);
    } else {
      KeptIsPlain(walk);
      WalksEmitted(kept, walk.end.Rest());
      assert kept + [] == kept;
    }
  }

  lemma KeptIsPlain(walk: Walk)
    requires !walk.end.Scan? && Delivered(walk)
    ensures forall segment | segment in Keep(walk.segments) :: Plain(segment) && segment.marker != SOS
  {
    KeptBeforeScan(walk, |walk.segments|);
    assert walk.segments[..|walk.segments|] == walk.segments;
  }

  lemma WalksUpToScan(walk: Walk)
    requires walk.end.Scan? && Delivered(walk)
    ensures Segments(EmitAll(Keep(walk.segments)) + walk.end.rest) == Walk(Keep(walk.segments), walk.end)
  {
    var n := |walk.segments| - 1;
    KeepLast(walk.segments);
    KeptBeforeScan(walk, n);
    assert walk.segments[n] in walk.segments;
    WalksScan(Keep(walk.segments[..n]), walk.segments[n], walk.end.rest);
  }

  lemma KeptBeforeScan(walk: Walk, n: nat)
    requires n <= |walk.segments| && forall segment | segment in walk.segments :: Plain(segment)
    requires forall i | 0 <= i < n :: walk.segments[i].marker != SOS
    ensures forall segment | segment in Keep(walk.segments[..n]) :: Plain(segment) && segment.marker != SOS
  {
    KeepKeeps(walk.segments[..n]);
    forall segment | segment in Keep(walk.segments[..n]) ensures Plain(segment) && segment.marker != SOS {
      var i :| 0 <= i < n && walk.segments[..n][i] == segment;
      assert walk.segments[i] == segment && segment in walk.segments;
    }
  }

  lemma WalksScan(before: seq<Segment>, scan: Segment, rest: seq<Byte>)
    requires forall segment | segment in before :: Plain(segment) && segment.marker != SOS
    requires Plain(scan) && scan.marker == SOS
    ensures Segments(EmitAll(before + [scan]) + rest) == Walk(before + [scan], Scan(rest))
  {
    EmitAllSplits(before, [scan]);
    assert EmitAll([scan]) == Emit(scan) by { assert [scan][1..] == [] && Emit(scan) + [] == Emit(scan); }
    assert EmitAll(before + [scan]) + rest == EmitAll(before) + (Emit(scan) + rest);
    WalksEmitted(before, Emit(scan) + rest);
    ReadsEmitted(scan, rest);
  }

  /** The walk did not stop at an end-of-image marker with more bytes behind it. */
  predicate Settled(end: End) { end.Scan? || end.DataEnd? || (end.AfterEOI? && end.rest == []) }

  /** No APP0 to APP15 and no comment. */
  predicate HoldsNone(segments: seq<Segment>) {
    forall segment | segment in segments :: segment.marker != 0xFE && !(0xE0 <= segment.marker <= 0xEF)
  }

  lemma {:induction false} NothingSeen(segments: seq<Segment>, more: seq<Segment>)
    requires HoldsNone(segments)
    ensures Deliver(segments + more, NORMAL, SeeOrientation) == Deliver(more, NORMAL, SeeOrientation)
  {
    if segments == [] {
      assert segments + more == more;
    } else {
      assert segments[0] in segments;
      assert (segments + more)[1..] == segments[1..] + more;
      NothingSeen(segments[1..], more);
    }
  }

  /**
  What a copy promises: it keeps exactly the segments that are not metadata, in order and with
  their payloads, and the bytes from the scan on; it reads as upright; and copying it again
  changes nothing.
  */
  predicate Clean(data: seq<Byte>)
    requires IsJPEG(data)
  {
    var walk, out := Segments(data[2..]), Copied(data);
    && IsJPEG(out)
    && Segments(out[2..]).segments == Keep(walk.segments)
    && Segments(out[2..]).end.Rest() == walk.end.Rest()
    && ReadOrientation(out) == Ok(NORMAL)
    && Drop(out) == Ok(out)
  }

  lemma CopyIsClean(data: seq<Byte>)
    requires IsJPEG(data) && Settled(Segments(data[2..]).end)
    ensures Clean(data)
  {
    var walk, out := Segments(data[2..]), Copied(data);
    WalksCopy(data);
    KeepKeeps(walk.segments);
    NothingSeen(Keep(walk.segments), []);
    var kept := Keep(walk.segments);
    assert kept + [] == kept;
    assert Segments([]) == Walk([], DataEnd);
  }

  /** A walk uses up at least the bytes its segments take. */
  lemma {:induction false} WalkUsesUp(data: seq<Byte>)
    ensures |EmitAll(Segments(data).segments)| + |Segments(data).end.Rest()| <= |data|
    ensures data != [] ==> |Segments(data).end.Rest()| < |data|
    decreases |data|
  {
    if |data| > 1 {
      match Read(data)
      case Stop(_) =>
      case Bare(rest) => WalkUsesUp(rest);
      case Found(segment, rest) =>
        WalkUsesUp(rest);
        assert segment.marker != SOS ==> ([segment] + Segments(rest).segments)[1..] == Segments(rest).segments;
        assert EmitAll([segment]) == Emit(segment) by {
          assert [segment][1..] == [] && Emit(segment) + [] == Emit(segment);
        }
    }
  }

  /** A copy is all of that exactly when the walk left nothing behind an early end-of-image marker. */
  lemma CleanIff(data: seq<Byte>)
    requires IsJPEG(data) && !Segments(data[2..]).end.Broken?
    ensures Clean(data) <==> Settled(Segments(data[2..]).end)
  {
    var end := Segments(data[2..]).end;
    if Settled(end) {
      CopyIsClean(data);
    } else {
      WalksCopy(data);
      WalkUsesUp(end.rest);
    }
  }

  /** Behind an early end-of-image marker, the copy's segments are the kept ones iff there is none. */
  lemma TrailingSegmentsIff(data: seq<Byte>)
    requires IsJPEG(data) && Segments(data[2..]).end.AfterEOI?
    ensures var walk := Segments(data[2..]);
      Segments(Copied(data)[2..]).segments == Keep(walk.segments) <==> Segments(walk.end.rest).segments == []
  {
    WalksCopy(data);
    var kept := Keep(Segments(data[2..]).segments);
    assert |Segments(Copied(data)[2..]).segments| == |kept| + |Segments(Segments(data[2..]).end.rest).segments|;
  }

  /** The copy reads as upright iff the bytes behind the marker, read from there on, do. */
  lemma ReadsUprightIff(data: seq<Byte>)
    requires IsJPEG(data) && Segments(data[2..]).end.AfterEOI?
    ensures var behind := Segments(Segments(data[2..]).end.rest);
      var (o, whole) := Deliver(behind.segments, NORMAL, SeeOrientation);
      ReadOrientation(Copied(data)) == Ok(NORMAL) <==> o == NORMAL && (whole ==> !behind.end.Broken?)
  {
    var walk := Segments(data[2..]);
    WalksCopy(data);
    KeepKeeps(walk.segments);
    NothingSeen(Keep(walk.segments), Segments(walk.end.rest).segments);
  }

  lemma {:induction false} KeptTakesLess(segments: seq<Segment>)
    ensures |EmitAll(Keep(segments))| <= |EmitAll(segments)|
    ensures |EmitAll(Keep(segments))| == |EmitAll(segments)| ==> Keep(segments) == segments
  {
    if segments != [] {
      KeptTakesLess(segments[1..]);
      EmitKept(segments);
      assert segments == [segments[0]] + segments[1..];
    }
  }

  /** No metadata, no padding, no bare marker and no loose byte: what a walk gives back as it was. */
  predicate Verbatim(data: seq<Byte>) {
    var walk := Segments(data);
    && !walk.end.Broken?
    && HoldsNone(walk.segments)
    && data == EmitAll(walk.segments) + walk.end.Rest()
  }

  lemma {:induction false} NothingDropped(segments: seq<Segment>)
    requires HoldsNone(segments)
    ensures Keep(segments) == segments
  {
    if segments != [] {
      assert segments[0] in segments;
      NothingDropped(segments[1..]);
    }
  }

  lemma VerbatimIff(data: seq<Byte>)
    requires !Segments(data).end.Broken?
    ensures EmitAll(Keep(Segments(data).segments)) + Segments(data).end.Rest() == data <==> Verbatim(data)
  {
    var walk := Segments(data);
    WalkUsesUp(data);
    KeptTakesLess(walk.segments);
    KeepIs(walk.segments);
    if HoldsNone(walk.segments) {
      NothingDropped(walk.segments);
    }
  }

  lemma CopiedAgain(data: seq<Byte>)
    requires IsJPEG(data) && Segments(data[2..]).end.AfterEOI?
    requires !Segments(Segments(data[2..]).end.rest).end.Broken?
    ensures var walk := Segments(data[2..]);
      var behind := Segments(walk.end.rest);
      && IsJPEG(Copied(data))
      && Copied(Copied(data))
      == ([0xFF, SOI] + EmitAll(Keep(walk.segments))) + (EmitAll(Keep(behind.segments)) + behind.end.Rest())
  {
    var walk := Segments(data[2..]);
    var kept, behind := Keep(walk.segments), Segments(walk.end.rest);
    WalksCopy(data);
    KeepTwice(walk.segments);
    KeepsBoth(kept, behind.segments);
    EmitAllSplits(kept, Keep(behind.segments));
    Regroup([0xFF, SOI], EmitAll(kept), EmitAll(Keep(behind.segments)), behind.end.Rest());
  }

  lemma Regroup(a: seq<Byte>, b: seq<Byte>, c: seq<Byte>, d: seq<Byte>)
    ensures (a + (b + c)) + d == (a + b) + (c + d)
  {
  }

  /** A second copy changes nothing iff the bytes behind the marker are given back as they are. */
  lemma SecondCopyIff(data: seq<Byte>)
    requires IsJPEG(data) && Segments(data[2..]).end.AfterEOI?
    ensures Drop(Copied(data)) == Ok(Copied(data)) <==> Verbatim(Segments(data[2..]).end.rest)
  {
    var walk := Segments(data[2..]);
    var behind := Segments(walk.end.rest);
    WalksCopy(data);
    if !behind.end.Broken? {
      CopiedAgain(data);
      VerbatimIff(walk.end.rest);
      SamePrefix([0xFF, SOI] + EmitAll(Keep(walk.segments)), EmitAll(Keep(behind.segments)) + behind.end.Rest(),
                 walk.end.rest);
    }
  }

  lemma SamePrefix(a: seq<Byte>, b: seq<Byte>, c: seq<Byte>)
    ensures a + b == a + c <==> b == c
  {
    assert (a + b)[|a|..] == b && (a + c)[|a|..] == c;
  }

  lemma {:induction false} KeepsBoth(a: seq<Segment>, b: seq<Segment>)
    ensures Keep(a + b) == Keep(a) + Keep(b)
  {
    if a == [] {
      assert a + b == b;
    } else {
      assert (a + b)[1..] == a[1..] + b;
      KeepsBoth(a[1..], b);
    }
  }

  // ------------------------------------------------- metadata behind the first scan

  /** To the next marker of a scan: past stuffed bytes and restart markers, with or without fill bytes. */
  function SkipEntropy(data: seq<Byte>): (r: seq<Byte>)
    ensures |r| <= |data|
    decreases |data|
  {
    if data == [] then []
    else if data[0] != 0xFF then SkipEntropy(data[1..])
    else
      var at := SkipFill(data);
      if at == [] then []
      else if at[0] == 0 || RST0 <= at[0] <= RST7 then SkipEntropy(at[1..])
      else data
  }

  /** All of a picture's segments, and the bytes behind its end or from an unreadable marker on. */
  datatype Reading = Reading(segments: seq<Segment>, loose: seq<Byte>)

  function Onto(first: seq<Segment>, r: Reading): Reading { Reading(first + r.segments, r.loose) }

  /** Reads a picture to its end, every scan included; `scan` says whether a scan has begun. */
  function ReadWhole(data: seq<Byte>, scan: bool): Reading
    decreases |data|
  {
    var at := if scan then SkipEntropy(data) else data;
    if |at| <= 1 then Reading([], at)
    else match Read(at)
      case Stop(AfterEOI(rest)) => Reading([], rest)
      case Stop(Broken) => Reading([], at)
      case Stop(_) => Reading([], [])
      case Bare(rest) => ReadWhole(rest, scan)
      case Found(segment, rest) => Onto([segment], ReadWhole(rest, scan || segment.marker == SOS))
  }

  /** What a reader of the whole copy finds in the bytes the walk left. */
  function Left(end: End): Reading {
    match end
    case Scan(rest) => ReadWhole(rest, true)
    case AfterEOI(rest) => ReadWhole(rest, false)
    case _ => Reading([], [])
  }

  lemma OntoBoth(first: Segment, more: seq<Segment>, r: Reading)
    ensures Onto([first], Onto(more, r)) == Onto([first] + more, r)
  {
    assert [first] + (more + r.segments) == ([first] + more) + r.segments;
  }

  /** Emitted segments are read again, one for one, and the reading goes on behind them. */
  lemma {:induction false} ReadsAllEmitted(segments: seq<Segment>, rest: seq<Byte>)
    requires forall segment | segment in segments :: Plain(segment) && segment.marker != SOS
    ensures ReadWhole(EmitAll(segments) + rest, false) == Onto(segments, ReadWhole(rest, false))
  {
    if segments == [] {
      assert EmitAll(segments) + rest == rest;
      assert Onto([], ReadWhole(rest, false)).segments == ReadWhole(rest, false).segments;
    } else {
      ReadsAllEmitted(segments[1..], rest);
      assert segments[0] in segments;
      Append(Emit(segments[0]), EmitAll(segments[1..]), rest);
      ReadsEmitted(segments[0], EmitAll(segments[1..]) + rest);
      OntoBoth(segments[0], segments[1..], ReadWhole(rest, false));
      assert segments == [segments[0]] + segments[1..];
    }
  }

  lemma ReadsScan(before: seq<Segment>, scan: Segment, rest: seq<Byte>)
    requires forall segment | segment in before :: Plain(segment) && segment.marker != SOS
    requires Plain(scan) && scan.marker == SOS
    ensures ReadWhole(EmitAll(before + [scan]) + rest, false) == Onto(before + [scan], ReadWhole(rest, true))
  {
    EmitAllSplits(before, [scan]);
    assert EmitAll([scan]) == Emit(scan) by { assert [scan][1..] == [] && Emit(scan) + [] == Emit(scan); }
    Append(EmitAll(before), Emit(scan), rest);
    ReadsAllEmitted(before, Emit(scan) + rest);
    ReadsEmitted(scan, rest);
    Append(before, [scan], ReadWhole(rest, true).segments);
  }

  lemma ReadsUpToScan(walk: Walk)
    requires walk.end.Scan? && Delivered(walk)
    ensures ReadWhole(EmitAll(Keep(walk.segments)) + walk.end.rest, false)
         == Onto(Keep(walk.segments), ReadWhole(walk.end.rest, true))
  {
    var n := |walk.segments| - 1;
    KeepLast(walk.segments);
    KeptBeforeScan(walk, n);
    assert walk.segments[n] in walk.segments;
    ReadsScan(Keep(walk.segments[..n]), walk.segments[n], walk.end.rest);
  }

  /** The whole of the copy: the kept segments, then all that is behind the first scan or an early end. */
  lemma AllOfTheCopy(data: seq<Byte>)
    requires IsJPEG(data) && !Segments(data[2..]).end.Broken?
    ensures var walk := Segments(data[2..]);
      ReadWhole(Copied(data)[2..], false) == Onto(Keep(walk.segments), Left(walk.end))
  {
    var walk := Segments(data[2..]);
    SegmentsArePlain(data[2..]);
    assert Copied(data)[2..] == EmitAll(Keep(walk.segments)) + walk.end.Rest();
    if walk.end.Scan? {
      ReadsUpToScan(walk);
    } else {
      KeptIsPlain(walk);
      ReadsAllEmitted(Keep(walk.segments), walk.end.Rest());
    }
  }

  /** A metadata marker somewhere, whatever a reader makes of the bytes around it. */
  predicate Marked(bytes: seq<Byte>) {
    exists i :: 0 <= i < |bytes| - 1 && bytes[i] == 0xFF && (bytes[i + 1] == 0xFE || 0xE0 <= bytes[i + 1] <= 0xEF)
  }

  /** No metadata segment in the picture, and no metadata marker in the bytes behind it. */
  predicate Free(r: Reading) { HoldsNone(r.segments) && !Marked(r.loose) }

  /** The copy holds no metadata at all iff the bytes the walk left hold none. */
  lemma NoMetadataIff(data: seq<Byte>)
    requires IsJPEG(data) && !Segments(data[2..]).end.Broken?
    ensures Free(ReadWhole(Copied(data)[2..], false)) <==> Free(Left(Segments(data[2..]).end))
  {
    var walk := Segments(data[2..]);
    AllOfTheCopy(data);
    KeepIs(walk.segments);
    var kept, left := Keep(walk.segments), Left(walk.end).segments;
    if HoldsNone(kept + left) {
      forall segment | segment in left ensures !IsMetadata(segment.marker) {
        assert segment in kept + left;
      }
    }
  }

  /** The bytes of a scan are read past. */
  lemma PastData(byte: Byte, tail: seq<Byte>)
    requires byte != 0xFF
    ensures ReadWhole([byte] + tail, true) == ReadWhole(tail, true)
  {
    assert ([byte] + tail)[1..] == tail;
  }

  /** So is a stuffed byte or a restart marker, whatever fill bytes stand before it. */
  lemma PastRestart(fill: nat, marker: Byte, tail: seq<Byte>)
    requires marker == 0 || 0xD0 <= marker <= 0xD7
    ensures ReadWhole(Fill(fill + 1) + [marker] + tail, true) == ReadWhole(tail, true)
  {
    FillSkipped(fill + 1, [marker] + tail);
    var data := Fill(fill + 1) + [marker] + tail;
    assert data == Fill(fill + 1) + ([marker] + tail);
    assert ([marker] + tail)[1..] == tail;
    assert SkipEntropy(data) == SkipEntropy(tail);
  }

  /** From a marker on whose length cannot be read, or is more than what is left, everything is loose. */
  lemma UnreadableIsLoose(fill: nat, marker: Byte, after: seq<Byte>, scan: bool)
    requires marker !in {0, 1, 0xFF} && !(0xD0 <= marker <= 0xD9)
    requires |after| < 2 || !(2 <= Get16(BigEndian, after[0], after[1]) <= |after|)
    ensures var data := Fill(fill) + [0xFF, marker] + after; ReadWhole(data, scan) == Reading([], data)
  {
    var data := Fill(fill) + [0xFF, marker] + after;
    ReadsBehindFill(fill, marker, after);
    FillEnds(fill);
    assert data == Fill(fill + 1) + ([marker] + after) && data[0] == Fill(fill + 1)[0];
    FillSkipped(fill + 1, [marker] + after);
  }

  /** A comment behind an early end-of-image marker, or behind a scan, is still a comment of the copy. */
  lemma CommentReads(tail: seq<Byte>)
    requires tail == [0xFF, 0xFE, 0, 3, 7]
    ensures Segments(tail).segments == [Segment(COM, [7])]
    ensures ReadWhole(tail, true) == Reading([Segment(COM, [7])], [])
  {
    assert tail[1..] == [0xFE, 0, 3, 7] && SkipFill(tail) == [0xFE, 0, 3, 7];
    assert ([0xFE, 0, 3, 7])[1..] == [0, 3, 7] && ([0, 3, 7])[2..3] == [7];
    assert Read(tail) == Found(Segment(COM, [7]), []);
    assert Segments([]) == Walk([], DataEnd);
  }

  lemma CopiedVerbatim(tail: seq<Byte>)
    requires |tail| > 0
    ensures Drop([0xFF, 0xD8, 0xFF, 0xD9] + tail) == Ok([0xFF, 0xD8] + tail)
  {
    var data: seq<Byte> := [0xFF, 0xD8, 0xFF, 0xD9] + tail;
    assert data[2..][1..] == [0xD9] + tail && SkipFill(data[2..]) == [0xD9] + tail;
    assert ([0xD9] + tail)[1..] == tail;
    assert Segments(data[2..]) == Walk([], AfterEOI(tail));
    assert Copied(data) == [0xFF, 0xD8] + EmitAll([]) + tail;
    assert [0xFF, 0xD8] + EmitAll([]) + tail == [0xFF, 0xD8] + tail;
  }

  lemma ScanOnly(tail: seq<Byte>)
    ensures var data: seq<Byte> := [0xFF, 0xD8, 0xFF, 0xDA, 0, 2] + tail;
      Drop(data) == Ok(data) && Segments(data[2..]) == Walk([Segment(SOS, [])], Scan(tail))
  {
    var scan := Segment(SOS, []);
    var data: seq<Byte> := [0xFF, 0xD8, 0xFF, 0xDA, 0, 2] + tail;
    assert EmitAll([scan]) == [0xFF, 0xDA, 0, 2] by { assert [scan][1..] == [] && Emit(scan) == [0xFF, 0xDA, 0, 2]; }
    assert Keep([scan]) == [scan] by { assert [scan][1..] == []; }
    assert data[2..] == EmitAll([] + [scan]) + tail by { assert [] + [scan] == [scan]; }
    WalksScan([], scan, tail);
    assert [] + [scan] == [scan];
    assert Copied(data) == [0xFF, SOI] + [0xFF, 0xDA, 0, 2] + tail;
    assert data == [0xFF, SOI] + [0xFF, 0xDA, 0, 2] + tail;
  }

  /** What follows a first scan header is copied as it is and read on. */
  lemma BehindAScan(tail: seq<Byte>)
    ensures var data: seq<Byte> := [0xFF, 0xD8, 0xFF, 0xDA, 0, 2] + tail;
      && Drop(data) == Ok(data)
      && ReadWhole(data[2..], false) == Onto([Segment(SOS, [])], ReadWhole(tail, true))
  {
    var data: seq<Byte> := [0xFF, 0xD8, 0xFF, 0xDA, 0, 2] + tail;
    var scan := Segment(SOS, []);
    ScanOnly(tail);
    AllOfTheCopy(data);
    assert Keep([scan]) == [scan] by { assert [scan][1..] == []; }
  }

  lemma CommentBehindAScan()
    ensures var data: seq<Byte> := [0xFF, 0xD8, 0xFF, 0xDA, 0, 2] + [0xFF, 0xFE, 0, 3, 7];
      && Drop(data) == Ok(data)
      && ReadWhole(data[2..], false) == Onto([Segment(SOS, [])], Reading([Segment(COM, [7])], []))
      && !Free(ReadWhole(data[2..], false))
  {
    BehindAScan([0xFF, 0xFE, 0, 3, 7]);
    CommentReads([0xFF, 0xFE, 0, 3, 7]);
    assert ([Segment(SOS, [])] + [Segment(COM, [7])])[1].marker == 0xFE;
  }

  /** Whatever follows the picture's own end is copied, a second picture with its metadata included. */
  lemma TrailingPictureStays(tail: seq<Byte>)
    ensures var data: seq<Byte> := [0xFF, 0xD8, 0xFF, 0xDA, 0, 2] + ([0xFF, 0xD9] + tail);
      && Drop(data) == Ok(data)
      && ReadWhole(data[2..], false) == Reading([Segment(SOS, [])], tail)
      && (Free(ReadWhole(data[2..], false)) <==>
          forall i | 0 <= i < |tail| - 1 && tail[i] == 0xFF :: tail[i + 1] != 0xFE && !(0xE0 <= tail[i + 1] <= 0xEF))
  {
    BehindAScan([0xFF, 0xD9] + tail);
    EndReads(tail);
    assert [Segment(SOS, [])] + [] == [Segment(SOS, [])];
  }

  lemma EndReads(tail: seq<Byte>)
    ensures ReadWhole([0xFF, 0xD9] + tail, true) == Reading([], tail)
  {
    var data: seq<Byte> := [0xFF, 0xD9] + tail;
    assert data[1..] == [0xD9] + tail && SkipFill(data) == [0xD9] + tail;
    ReadsMarker(EOI, tail);
    assert SkipEntropy(data) == data;
  }

  lemma TrailingCommentStays()
    ensures var data: seq<Byte> := [0xFF, 0xD8, 0xFF, 0xD9, 0xFF, 0xFE, 0, 3, 7];
      && Drop(data) == Ok([0xFF, 0xD8, 0xFF, 0xFE, 0, 3, 7])
      && Segments([0xFF, 0xFE, 0, 3, 7]).segments == [Segment(COM, [7])]
  {
    var tail: seq<Byte> := [0xFF, 0xFE, 0, 3, 7];
    CommentReads(tail);
    CopiedVerbatim(tail);
    assert [0xFF, 0xD8, 0xFF, 0xD9] + tail == [0xFF, 0xD8, 0xFF, 0xD9, 0xFF, 0xFE, 0, 3, 7];
    assert [0xFF, 0xD8] + tail == [0xFF, 0xD8, 0xFF, 0xFE, 0, 3, 7];
  }

  // ---------------------------------------------------------------------- strip

  method StripJPEG(data: seq<Byte>) returns (r: Result<Stripped, Error>)
    ensures r == Strip(data)
  {
    var o := JpegOrientation(data);
    if o.Err? {
      return Err(o.error);
    }
    if NeedsTransform(o.value) {
      return Ok(Rotate(o.value));
    }
    var stripped := DropJPEGMetadataSegments(data);
    r := if stripped.Err? then Err(stripped.error) else Ok(Copy(stripped.value, o.value));
  }

  function Strip(data: seq<Byte>): Result<Stripped, Error> {
    match ReadOrientation(data)
    case Err(e) => Err(e)
    case Ok(o) =>
      if NeedsTransform(o) then Ok(Rotate(o))
      else match Drop(data)
        case Err(e) => Err(e)
        case Ok(out) => Ok(Copy(out, o))
  }

  /** An APP1 segment that starts with "Exif" and two NULs. */
  predicate IsExif(segment: Segment) {
    segment.marker == 0xE1 && |segment.payload| >= 6 && segment.payload[..6] == [0x45, 0x78, 0x69, 0x66, 0, 0]
  }

  predicate FirstExif(segments: seq<Segment>, i: nat) {
    i < |segments| && IsExif(segments[i]) && forall j | 0 <= j < i :: !IsExif(segments[j])
  }

  lemma {:induction false} FirstDecides(segments: seq<Segment>, i: nat)
    requires FirstExif(segments, i)
    ensures Deliver(segments, NORMAL, SeeOrientation) == (OrientationOf(segments[i].payload[6..]), false)
  {
    if i > 0 {
      assert !IsExif(segments[0]);
      assert forall j | 0 <= j < i - 1 :: segments[1..][j] == segments[j + 1];
      FirstDecides(segments[1..], i - 1);
    }
  }

  lemma {:induction false} NoneDecides(segments: seq<Segment>)
    requires forall segment | segment in segments :: !IsExif(segment)
    ensures Deliver(segments, NORMAL, SeeOrientation) == (1, true)
  {
    if segments != [] {
      assert segments[0] in segments;
      NoneDecides(segments[1..]);
    }
  }

  lemma {:induction false} FindExif(segments: seq<Segment>) returns (i: nat)
    requires exists segment :: segment in segments && IsExif(segment)
    ensures FirstExif(segments, i)
  {
    if IsExif(segments[0]) {
      i := 0;
    } else {
      var segment :| segment in segments && IsExif(segment);
      assert segment in segments[1..];
      var k := FindExif(segments[1..]);
      i := k + 1;
      assert forall j | 0 < j < i :: segments[j] == segments[1..][j - 1];
    }
  }

  /** The orientation of a file: what its first EXIF segment says, wherever the file breaks off behind it, or 1. */
  lemma ReadsFirstExif(data: seq<Byte>)
    requires IsJPEG(data)
    ensures var walk := Segments(data[2..]);
      && (forall i: nat | FirstExif(walk.segments, i) ::
            ReadOrientation(data) == Ok(OrientationOf(walk.segments[i].payload[6..])))
      && ((forall segment | segment in walk.segments :: !IsExif(segment)) ==>
            ReadOrientation(data) == if walk.end.Broken? then Err(Malformed) else Ok(1))
  {
    var walk := Segments(data[2..]);
    forall i: nat | FirstExif(walk.segments, i)
      ensures ReadOrientation(data) == Ok(OrientationOf(walk.segments[i].payload[6..]))
    {
      FirstDecides(walk.segments, i);
    }
    if forall segment | segment in walk.segments :: !IsExif(segment) { NoneDecides(walk.segments); }
  }

  /** The first EXIF segment states the orientation `v`. */
  ghost predicate Turned(segments: seq<Segment>, v: int) {
    exists i: nat, order, k: nat, e: nat :: FirstExif(segments, i) && States(segments[i].payload[6..], order, k, e, v)
  }

  /** A file is turned exactly when its first EXIF segment states one of 2 to 8, and then by that. */
  lemma RotatesIff(data: seq<Byte>, v: Orientation)
    requires IsJPEG(data)
    ensures Strip(data) == Ok(Rotate(v)) <==> 2 <= v <= 8 && Turned(Segments(data[2..]).segments, v)
  {
    var walk := Segments(data[2..]);
    ReadsFirstExif(data);
    SegmentsArePlain(data[2..]);
    if exists segment :: segment in walk.segments && IsExif(segment) {
      var i := FindExif(walk.segments);
      assert walk.segments[i] in walk.segments;
      if v >= 2 { ReadsIff(walk.segments[i].payload[6..], v); }
      forall j: nat | FirstExif(walk.segments, j) ensures j == i {
      }
    } else {
      forall i: nat | i < |walk.segments| ensures !FirstExif(walk.segments, i) {
        assert walk.segments[i] in walk.segments;
      }
    }
  }

  /** In bytes: a file with an EXIF block in its first such segment, whatever follows it. */
  lemma SidewaysIsTurned(before: seq<Segment>, block: seq<Byte>, rest: seq<Byte>, v: Orientation, order: Order,
                         k: nat, e: nat)
    requires forall segment | segment in before :: Plain(segment) && segment.marker != 0xDA && !IsExif(segment)
    requires |block| + 8 < 0x1_0000 && 2 <= v <= 8 && States(block, order, k, e, v)
    ensures var exif := Segment(0xE1, [0x45, 0x78, 0x69, 0x66, 0, 0] + block);
      Strip([0xFF, 0xD8] + EmitAll(before + [exif]) + rest) == Ok(Rotate(v))
  {
    var exif := Segment(0xE1, [0x45, 0x78, 0x69, 0x66, 0, 0] + block);
    var data := [0xFF, 0xD8] + EmitAll(before + [exif]) + rest;
    assert data[2..] == EmitAll(before + [exif]) + rest;
    WalksEmitted(before + [exif], rest);
    var segments := Segments(data[2..]).segments;
    assert segments[|before|] == exif;
    assert forall j | 0 <= j < |before| :: segments[j] == before[j] && before[j] in before;
    assert exif.payload[6..] == block && exif.payload[..6] == [0x45, 0x78, 0x69, 0x66, 0, 0];
    assert FirstExif(segments, |before|);
    RotatesIff(data, v);
  }

  /**
  Stripping what was stripped without a rotation gives it back, upright, unless the bytes
  behind an early end-of-image marker are not given back as they are.
  */
  lemma StripTwiceIff(data: seq<Byte>)
    requires Strip(data).Ok? && Strip(data).value.Copy?
    ensures var out, end := Strip(data).value.data, Segments(data[2..]).end;
      Strip(out) == Ok(Copy(out, NORMAL)) <==> (end.AfterEOI? ==> Verbatim(end.rest))
  {
    var end := Segments(data[2..]).end;
    if end.AfterEOI? {
      SecondCopyIff(data);
      ReadsUprightIff(data);
      if Verbatim(end.rest) {
        var behind := Segments(end.rest).segments;
        assert behind + [] == behind;
        NothingSeen(behind, []);
      }
    } else {
      CopyIsClean(data);
    }
  }

  // -------------------------------------------------------- what a header is made of

  /** A run of fill bytes. */
  function Fill(n: nat): seq<Byte> { if n == 0 then [] else [0xFF] + Fill(n - 1) }

  /** A marker behind any number of fill bytes: alone, or with a length and a payload. */
  datatype Piece = Lone(fill: nat, marker: Byte) | Long(fill: nat, segment: Segment)
  {
    /** TEM, RST0 to RST7 and a further SOI stand alone; every other marker but EOI has a length. */
    predicate Proper() {
      match this
      case Lone(_, marker) => marker == 0x01 || 0xD0 <= marker <= 0xD8
      case Long(_, segment) =>
        && segment.marker != 0x01 && !(0xD0 <= segment.marker <= 0xD9) && segment.marker != 0xFF
        && |segment.payload| <= 65533
    }

    function Text(): seq<Byte> {
      match this
      case Lone(n, marker) => Fill(n) + [0xFF, marker]
      case Long(n, segment) =>
        Fill(n) + [0xFF, segment.marker] + Put16(BigEndian, (|segment.payload| + 2) % 0x1_0000) + segment.payload
    }

    predicate IsScan() { Long? && segment.marker == 0xDA }
  }

  function TextOf(pieces: seq<Piece>): seq<Byte> {
    if pieces == [] then [] else pieces[0].Text() + TextOf(pieces[1..])
  }

  function SegmentsOf(pieces: seq<Piece>): seq<Segment> {
    if pieces == [] then []
    else (if pieces[0].Long? then [pieces[0].segment] else []) + SegmentsOf(pieces[1..])
  }

  /** What is behind the pieces: a scan's data, an end of image, or no more than a byte or some fill bytes. */
  ghost predicate EndsAs(tail: seq<Byte>, end: End) {
    match end
    case Scan(rest) => tail == rest
    case AfterEOI(rest) => exists n :: tail == Fill(n) + [0xFF, 0xD9] + rest
    case DataEnd => |tail| <= 1 || tail == Fill(|tail|)
    case Broken => false
  }

  /** No piece is a scan header, but the last one when the header ends at a scan. */
  predicate ScanIsLast(pieces: seq<Piece>, end: End) {
    && (end.Scan? ==> pieces != [])
    && forall i | 0 <= i < |pieces| :: pieces[i].IsScan() <==> end.Scan? && i == |pieces| - 1
  }

  ghost predicate IsHeader(data: seq<Byte>, walk: Walk, pieces: seq<Piece>, tail: seq<Byte>) {
    && data == TextOf(pieces) + tail && SegmentsOf(pieces) == walk.segments
    && (forall piece | piece in pieces :: piece.Proper())
    && ScanIsLast(pieces, walk.end) && EndsAs(tail, walk.end)
  }

  lemma {:induction false} FillSkipped(n: nat, rest: seq<Byte>)
    requires rest != [] ==> rest[0] != 0xFF
    ensures SkipFill(Fill(n) + rest) == rest
  {
    if n == 0 {
      assert Fill(0) + rest == rest;
    } else {
      assert (Fill(n) + rest)[1..] == Fill(n - 1) + rest;
      FillSkipped(n - 1, rest);
    }
  }

  lemma {:induction false} FillEnds(n: nat)
    ensures Fill(n + 1) == Fill(n) + [0xFF] && |Fill(n)| == n
  {
    if n > 0 { FillEnds(n - 1); }
  }

  lemma ReadsBehindFill(n: nat, marker: Byte, after: seq<Byte>)
    requires marker != 0xFF
    ensures Read(Fill(n) + [0xFF, marker] + after) == ReadAfter(marker, after)
  {
    var data := Fill(n) + [0xFF, marker] + after;
    FillEnds(n);
    assert data == Fill(n + 1) + ([marker] + after);
    FillSkipped(n + 1, [marker] + after);
    assert ([marker] + after)[1..] == after && data[0] == Fill(n + 1)[0];
  }

  lemma ReadsPiece(piece: Piece, rest: seq<Byte>)
    requires piece.Proper()
    ensures |piece.Text()| > 1
    ensures Read(piece.Text() + rest) == if piece.Lone? then Bare(rest) else Found(piece.segment, rest)
  {
    match piece
    case Lone(n, marker) => ReadsBehindFill(n, marker, rest);
    case Long(n, segment) =>
      var length := Put16(BigEndian, |segment.payload| + 2);
      assert piece.Text() + rest == Fill(n) + [0xFF, segment.marker] + (length + segment.payload + rest);
      ReadsBehindFill(n, segment.marker, length + segment.payload + rest);
      ReadsLength(segment, rest);
  }

  lemma WalksPiece(piece: Piece, rest: seq<Byte>)
    requires piece.Proper()
    ensures Segments(piece.Text() + rest) ==
      if piece.IsScan() then Walk([piece.segment], Scan(rest))
      else Before(if piece.Long? then [piece.segment] else [], Segments(rest))
  {
    ReadsPiece(piece, rest);
    if piece.Lone? { assert [] + Segments(rest).segments == Segments(rest).segments; }
  }

  lemma WalksTail(tail: seq<Byte>, end: End)
    requires EndsAs(tail, end) && !end.Scan?
    ensures Segments(tail) == Walk([], end)
  {
    match end
    case AfterEOI(rest) =>
      var n :| tail == Fill(n) + [0xFF, 0xD9] + rest;
      ReadsBehindFill(n, 0xD9, rest);
    case DataEnd =>
      FillSkipped(|tail|, []);
      assert Fill(|tail|) + [] == Fill(|tail|);
  }

  lemma {:induction false} WalksHeader(data: seq<Byte>, walk: Walk, pieces: seq<Piece>, tail: seq<Byte>)
    requires IsHeader(data, walk, pieces, tail)
    ensures Segments(data) == walk
    decreases |pieces|
  {
    if pieces == [] {
      assert TextOf(pieces) + tail == tail;
      WalksTail(tail, walk.end);
    } else {
      var piece, rest := pieces[0], TextOf(pieces[1..]) + tail;
      assert piece in pieces && data == piece.Text() + rest;
      WalksPiece(piece, rest);
      if piece.IsScan() {
        assert pieces == [piece] && rest == tail && walk.end == Scan(tail);
        assert pieces[1..] == [] && walk.segments == [piece.segment] + SegmentsOf([]);
      } else {
        WalksHeader(rest, Walk(SegmentsOf(pieces[1..]), walk.end), pieces[1..], tail);
      }
    }
  }

  lemma {:induction false} FillOf(data: seq<Byte>)
    ensures data == Fill(|data| - |SkipFill(data)|) + SkipFill(data)
  {
    if data != [] && data[0] == 0xFF {
      FillOf(data[1..]);
      assert data == [0xFF] + data[1..];
    }
  }

  /** Where a read goes on, there was a piece. */
  lemma PieceRead(data: seq<Byte>) returns (piece: Piece)
    requires |data| > 1 && !Read(data).Stop?
    ensures piece.Proper() && data == piece.Text() + Read(data).rest
    ensures Read(data) == if piece.Lone? then Bare(Read(data).rest) else Found(piece.segment, Read(data).rest)
  {
    var at, n := MarkerRead(data);
    match ReadAfter(at[0], at[1..])
    case Bare(rest) =>
      piece := Lone(n, at[0]);
    case Found(segment, rest) =>
      piece := Long(n, segment);
      LengthRead(at[0], at[1..]);
      Rejoin(Fill(n) + [0xFF, at[0]], Put16(BigEndian, |segment.payload| + 2), segment.payload, rest);
  }

  lemma Rejoin(a: seq<Byte>, b: seq<Byte>, c: seq<Byte>, d: seq<Byte>)
    ensures a + (b + c + d) == a + b + c + d
  {
  }

  lemma MarkerRead(data: seq<Byte>) returns (at: seq<Byte>, n: nat)
    requires |data| > 1 && data[0] == 0xFF && SkipFill(data) != []
    ensures at != [] && at[0] != 0xFF && Read(data) == ReadAfter(at[0], at[1..])
    ensures data == Fill(n) + [0xFF, at[0]] + at[1..]
  {
    at, n := SkipFill(data), |data| - |SkipFill(data)| - 1;
    FillOf(data);
    SkipFillStops(data);
    FillEnds(n);
    assert at == [at[0]] + at[1..];
  }

  lemma LengthRead(marker: Byte, after: seq<Byte>)
    requires ReadAfter(marker, after).Found?
    ensures var r := ReadAfter(marker, after);
      && r.segment.marker == marker && |r.segment.payload| <= 65533
      && after == Put16(BigEndian, |r.segment.payload| + 2) + r.segment.payload + r.rest
  {
    var length := Get16(BigEndian, after[0], after[1]);
    assert after == after[..2] + after[2..length] + after[length..];
    assert Put16(BigEndian, length) == after[..2];
  }

  lemma {:induction false} HeaderRead(data: seq<Byte>) returns (pieces: seq<Piece>, tail: seq<Byte>)
    requires !Segments(data).end.Broken?
    ensures IsHeader(data, Segments(data), pieces, tail)
    decreases |data|
  {
    var walk := Segments(data);
    if |data| <= 1 {
      pieces, tail := [], data;
    } else if Read(data).Stop? {
      pieces, tail := [], data;
      TailRead(data);
    } else {
      var piece := PieceRead(data);
      var rest := Read(data).rest;
      WalksPiece(piece, rest);
      if piece.IsScan() {
        pieces, tail := [piece], rest;
        ScanHeader(piece, rest);
      } else {
        var more;
        more, tail := HeaderRead(rest);
        pieces := [piece] + more;
        HeaderMore(piece, rest, Segments(rest), more, tail);
      }
    }
  }

  lemma ScanHeader(piece: Piece, rest: seq<Byte>)
    requires piece.Proper() && piece.IsScan()
    ensures IsHeader(piece.Text() + rest, Walk([piece.segment], Scan(rest)), [piece], rest)
  {
    assert [piece][1..] == [] && piece.Text() + [] == piece.Text() && [piece.segment] + [] == [piece.segment];
    assert SegmentsOf([piece]) == [piece.segment] + SegmentsOf([]);
    assert TextOf([piece]) == piece.Text() + TextOf([]);
  }

  lemma HeaderMore(piece: Piece, rest: seq<Byte>, walk: Walk, more: seq<Piece>, tail: seq<Byte>)
    requires piece.Proper() && !piece.IsScan() && IsHeader(rest, walk, more, tail)
    ensures var first := if piece.Long? then [piece.segment] else [];
      IsHeader(piece.Text() + rest, Before(first, walk), [piece] + more, tail)
  {
    var pieces := [piece] + more;
    assert pieces[1..] == more;
    assert piece.Text() + (TextOf(more) + tail) == TextOf(pieces) + tail;
    assert forall i | 1 <= i < |pieces| :: pieces[i] == more[i - 1];
  }

  lemma TailRead(data: seq<Byte>)
    requires |data| > 1 && Read(data).Stop? && !Read(data).end.Broken?
    ensures EndsAs(data, Read(data).end)
  {
    if SkipFill(data) == [] {
      FillOf(data);
    } else {
      var at, n := MarkerRead(data);
    }
  }

  /**
  The grammar of a header: a walk that finds nothing broken delivers these segments and stops so
  exactly when the bytes are pieces with these segments and such an end.
  */
  lemma WalkIsGrammar(data: seq<Byte>, walk: Walk)
    requires !walk.end.Broken?
    ensures Segments(data) == walk <==> exists pieces, tail :: IsHeader(data, walk, pieces, tail)
  {
    if Segments(data) == walk {
      var pieces, tail := HeaderRead(data);
    }
    if pieces, tail :| IsHeader(data, walk, pieces, tail) {
      WalksHeader(data, walk, pieces, tail);
    }
  }
}
