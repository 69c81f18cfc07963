/** Bytes, and the two byte orders a TIFF block may use. */
module Binary {

  type Byte = b: int | 0 <= b < 256

  datatype Order = LittleEndian | BigEndian

  function Get16(order: Order, a: Byte, b: Byte): (r: int)
    ensures 0 <= r < 0x1_0000
  {
    if order.LittleEndian? then a + 0x100 * b else 0x100 * a + b
  }

  function Get32(order: Order, a: Byte, b: Byte, c: Byte, d: Byte): (r: int)
    ensures 0 <= r < 0x1_0000_0000
  {
    if order.LittleEndian? then Get16(order, a, b) + 0x1_0000 * Get16(order, c, d)
    else 0x1_0000 * Get16(order, a, b) + Get16(order, c, d)
  }

  function Put16(order: Order, v: int): (r: seq<Byte>)
    requires 0 <= v < 0x1_0000
    ensures |r| == 2 && Get16(order, r[0], r[1]) == v
  {
    if order.LittleEndian? then [v % 0x100, v / 0x100] else [v / 0x100, v % 0x100]
  }

  function Put32(order: Order, v: int): (r: seq<Byte>)
    requires 0 <= v < 0x1_0000_0000
    ensures |r| == 4 && Get32(order, r[0], r[1], r[2], r[3]) == v
  {
    if order.LittleEndian? then Put16(order, v % 0x1_0000) + Put16(order, v / 0x1_0000)
    else Put16(order, v / 0x1_0000) + Put16(order, v % 0x1_0000)
  }

  /** The two orders, in numbers: the least byte first, or last. */
  lemma OrdersAre(a: Byte, b: Byte, c: Byte, d: Byte)
    ensures Get16(LittleEndian, a, b) == a + 256 * b && Get16(BigEndian, a, b) == 256 * a + b
    ensures Get32(LittleEndian, a, b, c, d) == a + 256 * b + 65536 * c + 16777216 * d
    ensures Get32(BigEndian, a, b, c, d) == 16777216 * a + 65536 * b + 256 * c + d
    ensures Put16(LittleEndian, a + 256 * b) == [a, b] && Put16(BigEndian, 256 * a + b) == [a, b]
    ensures Put32(LittleEndian, a + 256 * b + 65536 * c + 16777216 * d) == [a, b, c, d]
    ensures Put32(BigEndian, 16777216 * a + 65536 * b + 256 * c + d) == [a, b, c, d]
  {
    Halves(a + 256 * b, c + 256 * d);
    Halves(256 * c + d, 256 * a + b);
  }

  lemma Halves(low: int, high: int)
    requires 0 <= low < 65536
    ensures (low + 65536 * high) % 65536 == low && (low + 65536 * high) / 65536 == high
  {
  }
}
