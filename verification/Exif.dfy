/**
The reader of the EXIF orientation tag (internal/images/exif.go): a bounded scan of the
entries of IFD0, in the byte order the block declares (section 2 of TIFF 6.0).
*/
module Exif {
  import opened Binary
  import opened Wrappers

  type Orientation = o: int | 1 <= o <= 8 witness 1

  const NORMAL: Orientation := 1

  predicate NeedsTransform(o: Orientation) { o > NORMAL }

  /** What stripping a picture comes to: a copy without metadata, or pixels to be rewritten upright and encoded anew. */
  datatype Stripped = Copy(data: seq<Byte>, orientation: Orientation) | Rotate(orientation: Orientation)

  /** What an EXIF block starts with where it is not a chunk of its own. */
  const EXIF_HEADER: seq<Byte> := [0x45, 0x78, 0x69, 0x66, 0, 0]

  const TAG_ORIENTATION := 0x0112
  const TYPE_SHORT := 3
  const TYPE_LONG := 4
  const TIFF_HEADER_LEN: nat := 8
  const IFD_ENTRY_LEN: nat := 12
  const MAX_IFD_ENTRIES: nat := 512

  /** Anything outside 1 to 8 leaves the pixels alone. */
  function Normalize(raw: int): Orientation {
    if raw < 1 || raw >= 9 then NORMAL else raw
  }

  function OrderOf(payload: seq<Byte>): Option<Order>
    requires |payload| >= TIFF_HEADER_LEN
  {
    if payload[0] == 'I' as int && payload[1] == 'I' as int then Some(LittleEndian)
    else if payload[0] == 'M' as int && payload[1] == 'M' as int then Some(BigEndian)
    else None
  }

  /** The byte order and the offset of IFD0, when the header is sound and leaves room for the count. */
  function Header(payload: seq<Byte>): (r: Option<(Order, nat)>)
    ensures r.Some? ==> r.value.1 + 2 <= |payload|
  {
    if |payload| < TIFF_HEADER_LEN || OrderOf(payload) == None then None
    else
      var order := OrderOf(payload).value;
      var offset := Get32(order, payload[4], payload[5], payload[6], payload[7]);
      if Get16(order, payload[2], payload[3]) != 0x002A then None
      else if offset > |payload| % 0x1_0000_0000 || offset + 2 > |payload| then None
      else Some((order, offset))
  }

  function EntryCount(payload: seq<Byte>, order: Order, offset: nat): nat
    requires offset + 2 <= |payload|
  {
    var n := Get16(order, payload[offset], payload[offset + 1]);
    if n > MAX_IFD_ENTRIES then MAX_IFD_ENTRIES else n
  }

  /** The value of one entry that carries the orientation tag. */
  function ValueOf(order: Order, entry: seq<Byte>): Orientation
    requires |entry| == IFD_ENTRY_LEN
  {
    var kind := Get16(order, entry[2], entry[3]);
    if kind == TYPE_SHORT then Normalize(Get16(order, entry[8], entry[9]))
    else if kind == TYPE_LONG then Normalize(Get32(order, entry[8], entry[9], entry[10], entry[11]) % 0x1_0000)
    else NORMAL
  }

  predicate HasTag(order: Order, entry: seq<Byte>)
    requires |entry| == IFD_ENTRY_LEN
  {
    Get16(order, entry[0], entry[1]) == TAG_ORIENTATION
  }

  /** The first `n` entries from `start` on: the first tagged one decides, unless the block ends before it. */
  function Scan(payload: seq<Byte>, order: Order, start: nat, n: nat): Orientation
    decreases n
  {
    if n == 0 || start + IFD_ENTRY_LEN > |payload| then NORMAL
    else
      var entry := payload[start..start + IFD_ENTRY_LEN];
      if HasTag(order, entry) then ValueOf(order, entry)
      else Scan(payload, order, start + IFD_ENTRY_LEN, n - 1)
  }

  function OrientationOf(payload: seq<Byte>): Orientation {
    match Header(payload)
    case None => NORMAL
    case Some((order, offset)) => Scan(payload, order, offset + 2, EntryCount(payload, order, offset))
  }

  method OrientationFromEXIF(payload: seq<Byte>) returns (o: Orientation)
    ensures o == OrientationOf(payload)
  {
    if |payload| < TIFF_HEADER_LEN {
      return NORMAL;
    }
    var order;
    if payload[0] == 'I' as int && payload[1] == 'I' as int {
      order := LittleEndian;
    } else if payload[0] == 'M' as int && payload[1] == 'M' as int {
      order := BigEndian;
    } else {
      return NORMAL;
    }
    if Get16(order, payload[2], payload[3]) != 0x002A {
      return NORMAL;
    }
    var offset := Get32(order, payload[4], payload[5], payload[6], payload[7]);
    if offset > |payload| % 0x1_0000_0000 || offset + 2 > |payload| {
      return NORMAL;
    }
    var entries := Get16(order, payload[offset], payload[offset + 1]);
    if entries > MAX_IFD_ENTRIES {
      entries := MAX_IFD_ENTRIES;
    }
    o := ScanEntries(payload, order, offset + 2, entries);
  }

  method ScanEntries(payload: seq<Byte>, order: Order, base: nat, entries: nat) returns (o: Orientation)
    ensures o == Scan(payload, order, base, entries)
  {
    for i := 0 to entries
      invariant Scan(payload, order, base, entries) == Scan(payload, order, base + i * IFD_ENTRY_LEN, entries - i)
    {
      var start := base + i * IFD_ENTRY_LEN;
      if start + IFD_ENTRY_LEN > |payload| {
        return NORMAL;
      }
      var entry := payload[start..start + IFD_ENTRY_LEN];
      if Get16(order, entry[0], entry[1]) != TAG_ORIENTATION {
        continue;
      }
      return ValueOf(order, entry);
    }
    o := NORMAL;
  }

  // ------------------------------------------------------- a block, to read back

  predicate IsOther(order: Order, entry: seq<Byte>) { |entry| == 12 && Get16(order, entry[0], entry[1]) != 0x0112 }

  function Join(entries: seq<seq<Byte>>): seq<Byte> {
    if entries == [] then [] else entries[0] + Join(entries[1..])
  }

  /** A TIFF header whose IFD0 follows `gap`, and the number of entries it states. */
  function Preamble(order: Order, gap: seq<Byte>, n: int): (r: seq<Byte>)
    requires 8 + |gap| < 0x1_0000_0000 && 0 <= n < 0x1_0000
    ensures |r| == 10 + |gap|
  {
    var mark: Byte := if order.LittleEndian? then 0x49 else 0x4D;
    [mark, mark] + Put16(order, 42) + Put32(order, 8 + |gap|) + gap + Put16(order, n)
  }

  /** An orientation entry of some type, with its count and its four bytes of value. */
  function OrientationEntry(order: Order, kind: int, count: seq<Byte>, value: seq<Byte>): (r: seq<Byte>)
    requires 0 <= kind < 0x1_0000 && |count| == |value| == 4
    ensures |r| == 12
  {
    Put16(order, 0x0112) + Put16(order, kind) + count + value
  }

  /** The number an entry states: a SHORT, or the low half of a LONG. */
  function Stated(order: Order, kind: int, value: seq<Byte>): int
    requires |value| == 4
  {
    if kind == 3 then Get16(order, value[0], value[1])
    else if kind == 4 then Get32(order, value[0], value[1], value[2], value[3]) % 65536
    else 0
  }

  lemma EntryReads(order: Order, kind: int, count: seq<Byte>, value: seq<Byte>)
    requires 0 <= kind < 0x1_0000 && |count| == |value| == 4
    ensures var entry, v := OrientationEntry(order, kind, count, value), Stated(order, kind, value);
      HasTag(order, entry) && ValueOf(order, entry) == if 1 <= v <= 8 then v else 1
  {
    var entry := OrientationEntry(order, kind, count, value);
    assert entry[0..2] == Put16(order, 0x0112) && entry[2..4] == Put16(order, kind) && entry[8..12] == value;
    assert forall i | 0 <= i < 4 :: entry[8 + i] == value[i];
  }

  lemma MagicReads(order: Order, gap: seq<Byte>, n: int, rest: seq<Byte>)
    requires 0 <= n < 0x1_0000 && 8 + |gap| < 0x1_0000_0000
    ensures var payload := Preamble(order, gap, n) + rest;
      OrderOf(payload) == Some(order) && Get16(order, payload[2], payload[3]) == 0x002A
  {
    var payload := Preamble(order, gap, n) + rest;
    assert payload[2..4] == Put16(order, 42);
    assert forall i | 0 <= i < 2 :: payload[2 + i] == payload[2..4][i];
  }

  lemma OffsetReads(order: Order, gap: seq<Byte>, n: int, rest: seq<Byte>)
    requires 0 <= n < 0x1_0000 && 8 + |gap| < 0x1_0000_0000
    ensures var payload := Preamble(order, gap, n) + rest;
      Get32(order, payload[4], payload[5], payload[6], payload[7]) == 8 + |gap|
  {
    var payload := Preamble(order, gap, n) + rest;
    assert payload[4..8] == Put32(order, 8 + |gap|);
    assert forall i | 0 <= i < 4 :: payload[4 + i] == payload[4..8][i];
  }

  lemma CountReads(order: Order, gap: seq<Byte>, n: int, rest: seq<Byte>)
    requires 0 <= n < 0x1_0000 && 8 + |gap| < 0x1_0000_0000
    ensures var payload, k := Preamble(order, gap, n) + rest, 8 + |gap|;
      k + 2 <= |payload| && Get16(order, payload[k], payload[k + 1]) == n
  {
    var payload, k := Preamble(order, gap, n) + rest, 8 + |gap|;
    assert payload[k..k + 2] == Put16(order, n);
    assert payload[k] == payload[k..k + 2][0] && payload[k + 1] == payload[k..k + 2][1];
  }

  lemma HeaderReads(order: Order, gap: seq<Byte>, n: int, rest: seq<Byte>)
    requires 0 <= n < 0x1_0000 && 10 + |gap| + |rest| < 0x1_0000_0000
    ensures var payload := Preamble(order, gap, n) + rest;
      && Header(payload) == Some((order, 8 + |gap|))
      && EntryCount(payload, order, 8 + |gap|) == if n < 512 then n else 512
  {
    MagicReads(order, gap, n, rest);
    OffsetReads(order, gap, n, rest);
    CountReads(order, gap, n, rest);
    assert |Preamble(order, gap, n)| == 10 + |gap|;
  }

  /** Entries with other tags are skipped, up to the number of entries looked at. */
  lemma {:induction false} ScanPast(
    before: seq<Byte>, order: Order, others: seq<seq<Byte>>, last: seq<Byte>, tail: seq<Byte>, n: nat)
    requires forall entry | entry in others :: IsOther(order, entry)
    requires |last| == 12 && HasTag(order, last)
    ensures Scan(before + Join(others) + last + tail, order, |before|, n)
         == if n <= |others| then NORMAL else ValueOf(order, last)
    decreases n
  {
    var payload := before + Join(others) + last + tail;
    if others == [] {
      assert payload[|before|..|before| + IFD_ENTRY_LEN] == last;
    } else {
      assert IsOther(order, others[0]);
      assert payload[|before|..|before| + IFD_ENTRY_LEN] == others[0];
      assert payload == (before + others[0]) + Join(others[1..]) + last + tail;
      if n > 0 {
        ScanPast(before + others[0], order, others[1..], last, tail, n - 1);
      }
    }
  }

  lemma ScansEntries(payload: seq<Byte>, order: Order, offset: nat)
    requires Header(payload) == Some((order, offset))
    ensures OrientationOf(payload) == Scan(payload, order, offset + 2, EntryCount(payload, order, offset))
  {
  }

  /** A TIFF block with the given entries before the orientation, and anything behind it. */
  function Block(order: Order, gap: seq<Byte>, n: int, others: seq<seq<Byte>>, last: seq<Byte>, tail: seq<Byte>)
    : seq<Byte>
    requires 8 + |gap| < 0x1_0000_0000 && 0 <= n < 0x1_0000
  {
    Preamble(order, gap, n) + Join(others) + last + tail
  }

  lemma Regrouped(a: seq<Byte>, b: seq<Byte>, c: seq<Byte>, d: seq<Byte>)
    ensures a + (b + c + d) == a + b + c + d
  {
  }

  /**
  The orientation a block states is the one read, in both byte orders and both widths,
  wherever IFD0 is and whatever follows, if its entry is among those counted and among the
  first 512; a number that is none of 1 to 8, and any other type, reads as 1.
  */
  lemma ReadsWhatIsWritten(order: Order, gap: seq<Byte>, n: int, others: seq<seq<Byte>>,
                           kind: int, count: seq<Byte>, value: seq<Byte>, tail: seq<Byte>)
    requires 0 <= n < 0x1_0000 && 0 <= kind < 0x1_0000 && |count| == |value| == 4
    requires 10 + |gap| + |Join(others)| + 12 + |tail| < 0x1_0000_0000
    requires forall entry | entry in others :: IsOther(order, entry)
    ensures var v := Stated(order, kind, value);
      OrientationOf(Block(order, gap, n, others, OrientationEntry(order, kind, count, value), tail))
        == if |others| < n && |others| < 512 && 1 <= v <= 8 then v else 1
  {
    var before, last := Preamble(order, gap, n), OrientationEntry(order, kind, count, value);
    EntryReads(order, kind, count, value);
    Regrouped(before, Join(others), last, tail);
    HeaderReads(order, gap, n, Join(others) + last + tail);
    ScansEntries(before + Join(others) + last + tail, order, 8 + |gap|);
    ScanPast(before, order, others, last, tail, if n < 512 then n else 512);
  }

  // ----------------------------------------------------- every block, byte by byte

  /** The i-th entry of an IFD whose entries start at `start` is there and has the orientation tag. */
  predicate TagAt(payload: seq<Byte>, order: Order, start: nat, i: nat) {
    start + 12 * i + 12 <= |payload| && Get16(order, payload[start + 12 * i], payload[start + 12 * i + 1]) == 0x0112
  }

  predicate NoTagBefore(payload: seq<Byte>, order: Order, start: nat, n: nat) {
    forall j: nat | j < n :: !TagAt(payload, order, start, j)
  }

  /** What the i-th entry states. */
  function StatedAt(payload: seq<Byte>, order: Order, start: nat, i: nat): int
    requires TagAt(payload, order, start, i)
  {
    var at := start + 12 * i;
    Stated(order, Get16(order, payload[at + 2], payload[at + 3]), payload[at + 8..at + 12])
  }

  /** Past the first entry. */
  lemma NextEntries(payload: seq<Byte>, order: Order, start: nat, n: nat)
    requires NoTagBefore(payload, order, start, n + 1)
    ensures NoTagBefore(payload, order, start + 12, n)
    ensures TagAt(payload, order, start + 12, n) <==> TagAt(payload, order, start, n + 1)
  {
    var next := start + 12;
    forall j: nat | j < n ensures !TagAt(payload, order, next, j) {
      var k := j + 1;
      assert !TagAt(payload, order, start, k);
    }
  }

  lemma {:induction false} ScanFinds(payload: seq<Byte>, order: Order, start: nat, n: nat, i: nat)
    requires i < n && TagAt(payload, order, start, i) && NoTagBefore(payload, order, start, i)
    ensures var v := StatedAt(payload, order, start, i); Scan(payload, order, start, n) == if 1 <= v <= 8 then v else 1
    decreases i
  {
    if i == 0 {
      var entry := payload[start..start + 12];
      assert entry[8..12] == payload[start + 8..start + 12];
    } else {
      assert !TagAt(payload, order, start, 0);
      NextEntries(payload, order, start, i - 1);
      ScanFinds(payload, order, start + 12, n - 1, i - 1);
      assert StatedAt(payload, order, start + 12, i - 1) == StatedAt(payload, order, start, i);
    }
  }

  lemma {:induction false} ScanMisses(payload: seq<Byte>, order: Order, start: nat, n: nat)
    requires NoTagBefore(payload, order, start, n)
    ensures Scan(payload, order, start, n) == 1
    decreases n
  {
    if n > 0 && start + 12 <= |payload| {
      assert !TagAt(payload, order, start, 0);
      NextEntries(payload, order, start, n - 1);
      ScanMisses(payload, order, start + 12, n - 1);
    }
  }

  /** "II" or "MM", 42, and where IFD0 is: a header that leaves room for the number of entries. */
  predicate HeaderIs(payload: seq<Byte>, order: Order, k: nat) {
    && |payload| >= 8 && payload[0] == payload[1] == (if order.LittleEndian? then 0x49 else 0x4D)
    && Get16(order, payload[2], payload[3]) == 42
    && Get32(order, payload[4], payload[5], payload[6], payload[7]) == k && k + 2 <= |payload|
  }

  /** The first entry with the tag, among those counted, there and among the first 512, states `v`. */
  predicate States(payload: seq<Byte>, order: Order, k: nat, i: nat, v: int) {
    && HeaderIs(payload, order, k) && i < Get16(order, payload[k], payload[k + 1]) && i < 512
    && TagAt(payload, order, k + 2, i) && NoTagBefore(payload, order, k + 2, i)
    && StatedAt(payload, order, k + 2, i) == v
  }

  lemma HeaderIff(payload: seq<Byte>, order: Order, k: nat)
    requires |payload| < 0x1_0000_0000
    ensures Header(payload) == Some((order, k)) <==> HeaderIs(payload, order, k)
  {
  }

  /** For all bytes: an orientation is read exactly when they state it. */
  lemma ReadsIff(payload: seq<Byte>, v: int)
    requires |payload| < 0x1_0000_0000 && 2 <= v <= 8
    ensures OrientationOf(payload) == v <==> exists order, k: nat, i: nat :: States(payload, order, k, i, v)
  {
    if order, k: nat, i: nat :| States(payload, order, k, i, v) {
      HeaderIff(payload, order, k);
      ScanFinds(payload, order, k + 2, EntryCount(payload, order, k), i);
    }
    if OrientationOf(payload) == v {
      var (order, k) := Header(payload).value;
      HeaderIff(payload, order, k);
      var n := EntryCount(payload, order, k);
      if NoTagBefore(payload, order, k + 2, n) {
        ScanMisses(payload, order, k + 2, n);
      } else {
        var i := FirstTag(payload, order, k + 2, n);
        ScanFinds(payload, order, k + 2, n, i);
        assert States(payload, order, k, i, v);
      }
    }
  }

  lemma {:induction false} FirstTag(payload: seq<Byte>, order: Order, start: nat, n: nat) returns (i: nat)
    requires !NoTagBefore(payload, order, start, n)
    ensures i < n && TagAt(payload, order, start, i) && NoTagBefore(payload, order, start, i)
  {
    if NoTagBefore(payload, order, start, n - 1) {
      i := n - 1;
    } else {
      i := FirstTag(payload, order, start, n - 1);
    }
  }
}
