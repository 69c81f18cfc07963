/**
Stripping a PNG's metadata chunks (internal/images/strip.go): whole chunks, with their
length and CRC, are copied or left out (section 5.3 of the PNG specification).
*/
module Png {
  import opened Binary
  import opened Exif
  import opened Wrappers

  const SIGNATURE: seq<Byte> := [0x89, 0x50, 0x4E, 0x47, 0x0D, 0x0A, 0x1A, 0x0A]
  const HEADER_LEN: nat := 8
  const CRC_LEN: nat := 4

  const EXIF: seq<Byte> := [0x65, 0x58, 0x49, 0x66]   // eXIf
  const TEXT: seq<Byte> := [0x74, 0x45, 0x58, 0x74]   // tEXt
  const ITXT: seq<Byte> := [0x69, 0x54, 0x58, 0x74]   // iTXt
  const ZTXT: seq<Byte> := [0x7A, 0x54, 0x58, 0x74]   // zTXt
  const IEND: seq<Byte> := [0x49, 0x45, 0x4E, 0x44]
  predicate IsPNG(data: seq<Byte>) { |data| >= |SIGNATURE| && data[..|SIGNATURE|] == SIGNATURE }

  predicate IsMetadata(kind: seq<Byte>) { kind == EXIF || kind == TEXT || kind == ITXT || kind == ZTXT }

  datatype Error = UnsupportedFormat | Truncated

  /** A chunk, whole: length, type, data and CRC. */
  type Chunk = whole: seq<Byte> | |whole| >= HEADER_LEN + CRC_LEN
    witness [0, 0, 0, 0, 0, 0, 0, 0, 0, 0, 0, 0]

  function Kind(chunk: Chunk): seq<Byte> { chunk[4..8] }

  function Payload(chunk: Chunk): seq<Byte> { chunk[HEADER_LEN..|chunk| - CRC_LEN] }

  /** The length of the chunk that starts here, with its header and CRC. */
  function ChunkLen(data: seq<Byte>): nat
    requires |data| >= HEADER_LEN
  {
    HEADER_LEN + Get32(BigEndian, data[0], data[1], data[2], data[3]) + CRC_LEN
  }

  /** The chunks up to IEND, or up to a remainder too short for a chunk header. */
  function Chunks(data: seq<Byte>): (seq<Chunk>, Result<(), Error>)
    decreases |data|
  {
    if |data| < HEADER_LEN then ([], Ok(()))
    else if ChunkLen(data) > |data| then ([], Err(Truncated))
    else
      var chunk: Chunk := data[..ChunkLen(data)];
      if Kind(chunk) == IEND then ([chunk], Ok(()))
      else
        var (rest, end) := Chunks(data[ChunkLen(data)..]);
        ([chunk] + rest, end)
  }

  function Fold<S>(chunks: seq<Chunk>, state: S, visit: (S, Chunk) -> S): S {
    if chunks == [] then state else Fold(chunks[1..], visit(state, chunks[0]), visit)
  }

  method WalkPNGChunks<S>(data: seq<Byte>, init: S, visit: (S, Chunk) -> S) returns (state: S, r: Result<(), Error>)
    ensures !IsPNG(data) ==> r == Err(UnsupportedFormat)
    ensures IsPNG(data) ==>
      var (chunks, end) := Chunks(data[|SIGNATURE|..]);
      state == Fold(chunks, init, visit) && r == end
  {
    state := init;
    if !IsPNG(data) {
      return state, Err(UnsupportedFormat);
    }
    var i := |SIGNATURE|;
    ghost var all := Chunks(data[i..]);
    while i + HEADER_LEN <= |data|
      invariant |SIGNATURE| <= i <= |data|
      invariant Fold(all.0, init, visit) == Fold(Chunks(data[i..]).0, state, visit)
      invariant all.1 == Chunks(data[i..]).1
    {
      var end := i + HEADER_LEN + Get32(BigEndian, data[i], data[i + 1], data[i + 2], data[i + 3]) + CRC_LEN;
      if end > |data| {
        return state, Err(Truncated);
      }
      var chunk: Chunk := data[i..end];
      assert chunk == data[i..][..ChunkLen(data[i..])] && data[i..][ChunkLen(data[i..])..] == data[end..];
      state := visit(state, chunk);
      i := end;
      if Kind(chunk) == IEND {
        return state, Ok(());
      }
    }
    r := Ok(());
  }

  // ------------------------------------------------------------ the two visitors

  /** The EXIF prefix a JPEG segment has is tolerated here too; the last eXIf chunk counts. */
  function SeeOrientation(o: Orientation, chunk: Chunk): Orientation {
    if Kind(chunk) != EXIF then o
    else
      var payload := Payload(chunk);
      OrientationOf(if |payload| >= |EXIF_HEADER| && payload[..|EXIF_HEADER|] == EXIF_HEADER
                    then payload[|EXIF_HEADER|..] else payload)
  }

  function SeeCopy(out: seq<Byte>, chunk: Chunk): seq<Byte> {
    if IsMetadata(Kind(chunk)) then out else out + chunk
  }

  method PngOrientation(data: seq<Byte>) returns (r: Result<Orientation, Error>)
    ensures r == ReadOrientation(data)
  {
    var o, end := WalkPNGChunks(data, NORMAL, SeeOrientation);
    r := if end.Err? then Err(end.error) else Ok(o);
  }

  function ReadOrientation(data: seq<Byte>): Result<Orientation, Error> {
    if !IsPNG(data) then Err(UnsupportedFormat)
    else match Chunks(data[|SIGNATURE|..])
      case (chunks, Ok(_)) => Ok(Fold(chunks, NORMAL, SeeOrientation))
      case (_, Err(e)) => Err(e)
  }

  method DropPNGMetadataChunks(data: seq<Byte>) returns (r: Result<seq<Byte>, Error>)
    ensures r == Drop(data)
  {
    var out, end := WalkPNGChunks(data, SIGNATURE, SeeCopy);
    if IsPNG(data) {
      CopyFolds(Chunks(data[|SIGNATURE|..]).0, SIGNATURE);
    }
    r := if end.Err? then Err(end.error) else Ok(out);
  }

  function Keep(chunks: seq<Chunk>): seq<Chunk> {
    if chunks == [] then []
    else (if IsMetadata(Kind(chunks[0])) then [] else [chunks[0]]) + Keep(chunks[1..])
  }

  function Concat(chunks: seq<Chunk>): seq<Byte> {
    if chunks == [] then [] else chunks[0] + Concat(chunks[1..])
  }

  function Drop(data: seq<Byte>): Result<seq<Byte>, Error> {
    if !IsPNG(data) then Err(UnsupportedFormat)
    else match Chunks(data[|SIGNATURE|..])
      case (chunks, Ok(_)) => Ok(SIGNATURE + Concat(Keep(chunks)))
      case (_, Err(e)) => Err(e)
  }

  lemma ConcatKept(chunks: seq<Chunk>)
    requires chunks != []
    ensures Concat(Keep(chunks)) == (if IsMetadata(Kind(chunks[0])) then [] else chunks[0]) + Concat(Keep(chunks[1..]))
  {
    if IsMetadata(Kind(chunks[0])) {
      assert Keep(chunks) == Keep(chunks[1..]);
    } else {
      assert Keep(chunks)[1..] == Keep(chunks[1..]);
    }
  }

  lemma {:induction false} CopyFolds(chunks: seq<Chunk>, out: seq<Byte>)
    ensures Fold(chunks, out, SeeCopy) == out + Concat(Keep(chunks))
  {
    if chunks == [] {
      assert out + [] == out;
    } else {
      var next := SeeCopy(out, chunks[0]);
      CopyFolds(chunks[1..], next);
      ConcatKept(chunks);
      assert next + Concat(Keep(chunks[1..])) == out + Concat(Keep(chunks));
    }
  }

  // -------------------------------------------------------------- walking the copy

  /** Chunks a walk can deliver: each as long as it says, and none after IEND. */
  predicate Sound(chunks: seq<Chunk>) {
    && (forall i | 0 <= i < |chunks| :: ChunkLen(chunks[i]) == |chunks[i]|)
    && (forall i | 0 <= i < |chunks| - 1 :: Kind(chunks[i]) != IEND)
  }

  lemma {:induction false} ChunksAreSound(data: seq<Byte>)
    ensures Sound(Chunks(data).0)
    decreases |data|
  {
    if |data| >= HEADER_LEN && ChunkLen(data) <= |data| {
      ChunksAreSound(data[ChunkLen(data)..]);
      var chunk := data[..ChunkLen(data)];
      assert ChunkLen(chunk) == |chunk|;
    }
  }

  lemma {:induction false} KeepIsSound(chunks: seq<Chunk>)
    requires Sound(chunks)
    ensures Sound(Keep(chunks))
    ensures forall chunk :: chunk in Keep(chunks) <==> chunk in chunks && !IsMetadata(Kind(chunk))
  {
    if chunks != [] {
      KeepIsSound(chunks[1..]);
      assert chunks == [chunks[0]] + chunks[1..];
      if Kind(chunks[0]) == IEND {
        assert chunks[1..] == [];
      }
    }
  }

  lemma {:induction false} WalksConcat(chunks: seq<Chunk>)
    requires Sound(chunks)
    ensures Chunks(Concat(chunks)) == (chunks, Ok(()))
  {
    if chunks != [] {
      var data := Concat(chunks);
      assert forall i | 0 <= i < HEADER_LEN :: data[i] == chunks[0][i];
      assert ChunkLen(data) == |chunks[0]|;
      assert data[..|chunks[0]|] == chunks[0] && data[|chunks[0]|..] == Concat(chunks[1..]);
      assert Sound(chunks[1..]);
      WalksConcat(chunks[1..]);
      var chunk: Chunk := data[..ChunkLen(data)];
      assert chunk == chunks[0] && Kind(chunk) == Kind(chunks[0]);
      if Kind(chunk) == IEND {
        assert chunks == [chunk];
      } else {
        assert chunks == [chunk] + chunks[1..];
      }
    }
  }

  function Ascii(text: string): seq<int> { seq(|text|, i requires 0 <= i < |text| => text[i] as int) }

  /** None of the four kinds of chunk that hold metadata. */
  predicate HoldsNone(chunks: seq<Chunk>) {
    forall chunk | chunk in chunks ::
      && Kind(chunk) != Ascii("eXIf") && Kind(chunk) != Ascii("tEXt")
      && Kind(chunk) != Ascii("iTXt") && Kind(chunk) != Ascii("zTXt")
  }

  lemma NamesAre(kind: seq<Byte>)
    ensures IsMetadata(kind) <==>
      kind == Ascii("eXIf") || kind == Ascii("tEXt") || kind == Ascii("iTXt") || kind == Ascii("zTXt")
    ensures IEND == Ascii("IEND") && SIGNATURE == [137] + Ascii("PNG\r\n") + [26, 10]
  {
  }

  lemma {:induction false} NothingSeen(chunks: seq<Chunk>)
    requires HoldsNone(chunks)
    ensures Fold(chunks, NORMAL, SeeOrientation) == NORMAL
  {
    if chunks != [] {
      assert chunks[0] in chunks;
      NamesAre(Kind(chunks[0]));
      NothingSeen(chunks[1..]);
    }
  }

  lemma {:induction false} KeepAgain(chunks: seq<Chunk>)
    requires HoldsNone(chunks)
    ensures Keep(chunks) == chunks
  {
    if chunks != [] {
      assert chunks[0] in chunks;
      NamesAre(Kind(chunks[0]));
      KeepAgain(chunks[1..]);
    }
  }

  /**
  For every PNG that parses: the copy holds exactly the chunks that are not metadata, in
  order and byte for byte, it reads as upright, and copying it again changes nothing.
  */
  lemma CopyIsClean(data: seq<Byte>)
    requires Drop(data).Ok?
    ensures var out := Drop(data).value;
      && IsPNG(out)
      && Chunks(out[|SIGNATURE|..]) == (Keep(Chunks(data[|SIGNATURE|..]).0), Ok(()))
      && HoldsNone(Chunks(out[|SIGNATURE|..]).0)
      && (forall chunk | chunk in Chunks(data[|SIGNATURE|..]).0 && HoldsNone([chunk]) ::
            chunk in Chunks(out[|SIGNATURE|..]).0)
      && ReadOrientation(out) == Ok(1)
      && Drop(out) == Ok(out)
  {
    var chunks := Chunks(data[|SIGNATURE|..]).0;
    var out := Drop(data).value;
    assert out[|SIGNATURE|..] == Concat(Keep(chunks)) && out[..|SIGNATURE|] == SIGNATURE;
    ChunksAreSound(data[|SIGNATURE|..]);
    KeepIsSound(chunks);
    WalksConcat(Keep(chunks));
    forall chunk: Chunk ensures IsMetadata(Kind(chunk)) <==> !HoldsNone([chunk]) { NamesAre(Kind(chunk)); }
    assert HoldsNone(Keep(chunks)) by {
      forall chunk | chunk in Keep(chunks) ensures HoldsNone([chunk]) { }
      assert forall chunk | chunk in Keep(chunks) :: chunk in [chunk];
    }
    NothingSeen(Keep(chunks));
    KeepAgain(Keep(chunks));
  }

  // ---------------------------------------------------------------------- strip

  method StripPNG(data: seq<Byte>) returns (r: Result<Stripped, Error>)
    ensures r == Strip(data)
  {
    var o := PngOrientation(data);
    if o.Err? {
      return Err(o.error);
    }
    if NeedsTransform(o.value) {
      return Ok(Rotate(o.value));
    }
    var stripped := DropPNGMetadataChunks(data);
    r := if stripped.Err? then Err(stripped.error) else Ok(Copy(stripped.value, o.value));
  }

  function Strip(data: seq<Byte>): Result<Stripped, Error> {
    match ReadOrientation(data)
    case Err(e) => Err(e)
    case Ok(o) =>
      if NeedsTransform(o) then Ok(Rotate(o))
      else match Drop(data)
        case Err(e) => Err(e)
        case Ok(out) => Ok(Copy(out, o))
  }

  predicate IsExif(chunk: Chunk) { Kind(chunk) == Ascii("eXIf") }

  predicate LastExif(chunks: seq<Chunk>, i: nat) {
    i < |chunks| && IsExif(chunks[i]) && forall j | i < j < |chunks| :: !IsExif(chunks[j])
  }

  /** The EXIF block of a chunk, without the six bytes it may start with. */
  function BlockOf(chunk: Chunk): seq<Byte> {
    var payload := chunk[8..|chunk| - 4];
    if |payload| >= 6 && payload[..6] == [0x45, 0x78, 0x69, 0x66, 0, 0] then payload[6..] else payload
  }

  lemma SeesExif(o: Orientation, chunk: Chunk)
    ensures SeeOrientation(o, chunk) == if IsExif(chunk) then OrientationOf(BlockOf(chunk)) else o
  {
    assert EXIF == Ascii("eXIf");
  }

  lemma {:induction false} NoMoreExif(chunks: seq<Chunk>, o: Orientation)
    requires forall chunk | chunk in chunks :: !IsExif(chunk)
    ensures Fold(chunks, o, SeeOrientation) == o
  {
    if chunks != [] {
      assert chunks[0] in chunks;
      SeesExif(o, chunks[0]);
      NoMoreExif(chunks[1..], o);
    }
  }

  lemma {:induction false} LastDecides(chunks: seq<Chunk>, i: nat, o: Orientation)
    requires LastExif(chunks, i)
    ensures Fold(chunks, o, SeeOrientation) == OrientationOf(BlockOf(chunks[i]))
  {
    SeesExif(o, chunks[0]);
    assert forall j | 0 <= j < |chunks| - 1 :: chunks[1..][j] == chunks[j + 1];
    if i == 0 {
      NoMoreExif(chunks[1..], OrientationOf(BlockOf(chunks[0])));
    } else {
      LastDecides(chunks[1..], i - 1, SeeOrientation(o, chunks[0]));
    }
  }

  lemma {:induction false} FindExif(chunks: seq<Chunk>) returns (i: nat)
    requires exists chunk :: chunk in chunks && IsExif(chunk)
    ensures LastExif(chunks, i)
  {
    var n := |chunks| - 1;
    if IsExif(chunks[n]) {
      i := n;
    } else {
      var chunk :| chunk in chunks && IsExif(chunk);
      assert chunk in chunks[..n];
      i := FindExif(chunks[..n]);
    }
  }

  /** The last eXIf chunk states the orientation `v`. */
  ghost predicate Turned(chunks: seq<Chunk>, v: int) {
    exists i: nat, order, k: nat, e: nat :: LastExif(chunks, i) && States(BlockOf(chunks[i]), order, k, e, v)
  }

  /** A file that parses is turned exactly when its last eXIf chunk states one of 2 to 8, and then by that. */
  lemma RotatesIff(data: seq<Byte>, v: Orientation)
    requires IsPNG(data) && Chunks(data[8..]).1.Ok? && |data| < 0x1_0000_0000
    ensures Strip(data) == Ok(Rotate(v)) <==> 2 <= v <= 8 && Turned(Chunks(data[8..]).0, v)
  {
    var chunks := Chunks(data[8..]).0;
    ChunksFit(data[8..]);
    if exists chunk :: chunk in chunks && IsExif(chunk) {
      var i := FindExif(chunks);
      LastDecides(chunks, i, NORMAL);
      assert chunks[i] in chunks;
      if v >= 2 { ReadsIff(BlockOf(chunks[i]), v); }
      forall j: nat | LastExif(chunks, j) ensures j == i {
      }
    } else {
      NoMoreExif(chunks, NORMAL);
      forall i: nat | i < |chunks| ensures !LastExif(chunks, i) {
        assert chunks[i] in chunks;
      }
    }
  }

  lemma {:induction false} ChunksFit(data: seq<Byte>)
    ensures forall chunk | chunk in Chunks(data).0 :: |chunk| <= |data|
    decreases |data|
  {
    if |data| >= HEADER_LEN && ChunkLen(data) <= |data| {
      ChunksFit(data[ChunkLen(data)..]);
    }
  }

  /** A chunk as it is written: length, kind, payload and CRC. */
  function Written(kind: seq<Byte>, payload: seq<Byte>, crc: seq<Byte>): Chunk
    requires |kind| == 4 && |crc| == 4 && |payload| < 0x1_0000_0000
  {
    Put32(BigEndian, |payload|) + kind + payload + crc
  }

  lemma WrittenReads(kind: seq<Byte>, payload: seq<Byte>, crc: seq<Byte>)
    requires |kind| == 4 && |crc| == 4 && |payload| < 0x1_0000_0000
    ensures var chunk := Written(kind, payload, crc);
      Kind(chunk) == kind && ChunkLen(chunk) == |chunk| && chunk[8..|chunk| - 4] == payload
  {
    var chunk := Written(kind, payload, crc);
    assert chunk[..4] == Put32(BigEndian, |payload|);
    assert forall i | 0 <= i < 4 :: chunk[i] == Put32(BigEndian, |payload|)[i];
  }

  /** An eXIf chunk, with or without the six bytes before its block. */
  function ExifChunk(prefix: seq<Byte>, block: seq<Byte>, crc: seq<Byte>): Chunk
    requires |crc| == 4 && |prefix| + |block| < 0x1_0000_0000
  {
    Written([101, 88, 73, 102], prefix + block, crc)
  }

  lemma ExifChunkIs(prefix: seq<Byte>, block: seq<Byte>, crc: seq<Byte>)
    requires prefix == [] || prefix == [0x45, 0x78, 0x69, 0x66, 0, 0]
    requires |crc| == 4 && |prefix| + |block| < 0x1_0000_0000 && block != [] && block[0] != 0x45
    ensures IsExif(ExifChunk(prefix, block, crc)) && BlockOf(ExifChunk(prefix, block, crc)) == block
    ensures |ExifChunk(prefix, block, crc)| == 12 + |prefix| + |block|
  {
    WrittenReads([101, 88, 73, 102], prefix + block, crc);
    if prefix == [] {
      assert prefix + block == block;
    } else {
      assert (prefix + block)[..6] == prefix && (prefix + block)[6..] == block;
    }
  }

  /** In bytes: a file with an EXIF block in its last eXIf chunk, with or without the six bytes before it. */
  lemma SidewaysIsTurned(before: seq<Chunk>, prefix: seq<Byte>, block: seq<Byte>, crc: seq<Byte>, after: seq<Chunk>,
                         v: Orientation, order: Order, k: nat, e: nat)
    requires prefix == [] || prefix == [0x45, 0x78, 0x69, 0x66, 0, 0]
    requires |crc| == 4 && |Concat(before)| + |block| + |Concat(after)| + 26 < 0x1_0000_0000
    requires 2 <= v <= 8 && States(block, order, k, e, v)
    requires Sound(before + [ExifChunk(prefix, block, crc)] + after)
    requires forall chunk | chunk in after :: !IsExif(chunk)
    ensures var file := Concat(before + [ExifChunk(prefix, block, crc)] + after);
      Strip([137, 80, 78, 71, 13, 10, 26, 10] + file) == Ok(Rotate(v))
  {
    var exif := ExifChunk(prefix, block, crc);
    var chunks := before + [exif] + after;
    ExifChunkIs(prefix, block, crc);
    ConcatLength(before, exif, after);
    StripsConcat(chunks, v);
    LastOf(before, exif, after);
    assert Turned(chunks, v) by { assert chunks[|before|] == exif; }
  }

  lemma LastOf(before: seq<Chunk>, exif: Chunk, after: seq<Chunk>)
    requires IsExif(exif) && forall chunk | chunk in after :: !IsExif(chunk)
    ensures LastExif(before + [exif] + after, |before|)
  {
    var chunks := before + [exif] + after;
    forall j | |before| < j < |chunks| ensures !IsExif(chunks[j]) { assert chunks[j] in after; }
  }

  lemma StripsConcat(chunks: seq<Chunk>, v: Orientation)
    requires Sound(chunks) && 8 + |Concat(chunks)| < 0x1_0000_0000
    ensures var data := [137, 80, 78, 71, 13, 10, 26, 10] + Concat(chunks);
      Strip(data) == Ok(Rotate(v)) <==> 2 <= v <= 8 && Turned(chunks, v)
  {
    var data: seq<Byte> := [137, 80, 78, 71, 13, 10, 26, 10] + Concat(chunks);
    assert data[8..] == Concat(chunks) && data[..8] == SIGNATURE;
    WalksConcat(chunks);
    RotatesIff(data, v);
  }

  lemma {:induction false} ConcatLength(before: seq<Chunk>, chunk: Chunk, after: seq<Chunk>)
    ensures |Concat(before + [chunk] + after)| == |Concat(before)| + |chunk| + |Concat(after)|
  {
    if before == [] {
      assert [chunk] + after == before + [chunk] + after && ([chunk] + after)[1..] == after;
    } else {
      assert (before + [chunk] + after)[1..] == before[1..] + [chunk] + after;
      ConcatLength(before[1..], chunk, after);
    }
  }

  lemma StripTwice(data: seq<Byte>)
    requires Strip(data).Ok? && Strip(data).value.Copy?
    ensures Strip(Strip(data).value.data) == Ok(Copy(Strip(data).value.data, NORMAL))
  {
    CopyIsClean(data);
  }
}
