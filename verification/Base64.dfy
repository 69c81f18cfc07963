/** The URL-safe base64 alphabet without padding (section 5 of RFC 4648), as the cursor codec uses it. */
module Base64 {
  import opened Wrappers

  type Octet = bv8

  type Sextet = v: bv8 | v < 64

  function CharAt(n: nat): char
    requires n < 64
  {
    if n < 26 then ('A' as int + n) as char
    else if n < 52 then ('a' as int + n - 26) as char
    else if n < 62 then ('0' as int + n - 52) as char
    else if n == 62 then '-'
    else '_'
  }

  function PlaceOf(c: char): (n: Option<nat>)
    ensures n.Some? ==> n.value < 64
  {
    if 'A' <= c <= 'Z' then Some(c as int - 'A' as int)
    else if 'a' <= c <= 'z' then Some(c as int - 'a' as int + 26)
    else if '0' <= c <= '9' then Some(c as int - '0' as int + 52)
    else if c == '-' then Some(62)
    else if c == '_' then Some(63)
    else None
  }

  lemma PlaceIs(n: nat, c: char)
    requires n < 64
    ensures PlaceOf(c) == Some(n) <==> c == CharAt(n)
  {
  }

  function Number(v: Sextet): (n: nat)
    ensures n < 64
  {
    v as nat
  }

  function CharOf(v: Sextet): char { CharAt(Number(v)) }

  function ValueOf(c: char): Option<Sextet> {
    match PlaceOf(c)
    case None => None
    case Some(n) => Some(n as bv8)
  }

  lemma NumberBack(v: Sextet)
    ensures Number(v) as bv8 == v
  {
  }

  lemma NumberForth(n: nat)
    requires n < 64
    ensures n as bv8 < 64 && Number(n as bv8) == n
  {
  }

  lemma AlphabetIs(v: Sextet, c: char)
    ensures ValueOf(c) == Some(v) <==> c == CharOf(v)
  {
    PlaceIs(Number(v), c);
    match PlaceOf(c)
    case None =>
    case Some(n) =>
      NumberBack(v);
      NumberForth(n);
  }

  // Three bytes are four groups of six bits.

  function First(a: Octet): Sextet { a >> 2 }

  function Second(a: Octet, b: Octet): Sextet { ((a & 0x03) << 4) | (b >> 4) }

  function Third(b: Octet, c: Octet): Sextet { ((b & 0x0F) << 2) | (c >> 6) }

  function Fourth(c: Octet): Sextet { c & 0x3F }

  function ToSextets(b: seq<Octet>): seq<Sextet> {
    if |b| >= 3 then [First(b[0]), Second(b[0], b[1]), Third(b[1], b[2]), Fourth(b[2])] + ToSextets(b[3..])
    else if |b| == 2 then [First(b[0]), Second(b[0], b[1]), Third(b[1], 0)]
    else if |b| == 1 then [First(b[0]), Second(b[0], 0)]
    else []
  }

  function High(a: Sextet, b: Sextet): Octet { (a << 2) | (b >> 4) }

  function Middle(a: Sextet, b: Sextet): Octet { (a << 4) | (b >> 2) }

  function Low(a: Sextet, b: Sextet): Octet { (a << 6) | b }

  /** One left over is corrupt input; bits left over are dropped. */
  function FromSextets(q: seq<Sextet>): Option<seq<Octet>> {
    if |q| >= 4 then
      match FromSextets(q[4..])
      case None => None
      case Some(rest) => Some([High(q[0], q[1]), Middle(q[1], q[2]), Low(q[2], q[3])] + rest)
    else if |q| == 3 then Some([High(q[0], q[1]), Middle(q[1], q[2])])
    else if |q| == 2 then Some([High(q[0], q[1])])
    else if |q| == 1 then None
    else Some([])
  }

  /** No bits are left over at the end. */
  predicate NothingLeft(q: seq<Sextet>) {
    && (|q| % 4 == 2 ==> q[|q| - 1] & 0x0F == 0)
    && (|q| % 4 == 3 ==> q[|q| - 1] & 0x03 == 0)
  }

  lemma BytesBack(a: Octet, b: Octet, c: Octet)
    ensures High(First(a), Second(a, b)) == a && Middle(Second(a, b), Third(b, c)) == b
    ensures Low(Third(b, c), Fourth(c)) == c
  {
  }

  lemma SextetsBack(p: Sextet, q: Sextet, r: Sextet, s: Sextet)
    ensures First(High(p, q)) == p && Second(High(p, q), Middle(q, r)) == q
    ensures Third(Middle(q, r), Low(r, s)) == r && Fourth(Low(r, s)) == s
    ensures Second(High(p, q), 0) == q <==> q & 0x0F == 0
    ensures Third(Middle(q, r), 0) == r <==> r & 0x03 == 0
  {
  }

  lemma FromFour(p: Sextet, q: Sextet, r: Sextet, s: Sextet, more: seq<Sextet>)
    ensures FromSextets([p, q, r, s] + more) ==
              if FromSextets(more) == None then None
              else Some([High(p, q), Middle(q, r), Low(r, s)] + FromSextets(more).value)
  {
    assert ([p, q, r, s] + more)[4..] == more;
  }

  lemma ToFour(a: Octet, b: Octet, c: Octet, more: seq<Octet>)
    ensures ToSextets([a, b, c] + more) == [First(a), Second(a, b), Third(b, c), Fourth(c)] + ToSextets(more)
  {
    assert ([a, b, c] + more)[3..] == more;
  }

  lemma FromThree(p: Sextet, q: Sextet, r: Sextet)
    ensures FromSextets([p, q, r]) == Some([High(p, q), Middle(q, r)])
  {
  }

  lemma ToThree(a: Octet, b: Octet)
    ensures ToSextets([a, b]) == [First(a), Second(a, b), Third(b, 0)]
  {
  }

  lemma ThreeCanonical(p: Sextet, q: Sextet, r: Sextet)
    ensures [First(High(p, q)), Second(High(p, q), Middle(q, r)), Third(Middle(q, r), 0)] == [p, q, r]
         <==> r & 0x03 == 0
  {
    SextetsBack(p, q, r, 0);
  }

  lemma TwoCanonical(p: Sextet, q: Sextet)
    ensures [First(High(p, q)), Second(High(p, q), 0)] == [p, q] <==> q & 0x0F == 0
  {
    SextetsBack(p, q, 0, 0);
  }

  lemma FromTwo(p: Sextet, q: Sextet)
    ensures FromSextets([p, q]) == Some([High(p, q)])
  {
  }

  lemma ToTwo(a: Octet)
    ensures ToSextets([a]) == [First(a), Second(a, 0)]
  {
  }

  lemma OfThree(x: Sextet, y: Sextet, z: Sextet)
    ensures FromSextets([x, y, z]).Some?
    ensures ToSextets(FromSextets([x, y, z]).value) == [x, y, z] <==> z & 0x03 == 0
  {
    FromThree(x, y, z);
    ToThree(High(x, y), Middle(y, z));
    ThreeCanonical(x, y, z);
  }

  lemma OfTwo(x: Sextet, y: Sextet)
    ensures FromSextets([x, y]).Some?
    ensures ToSextets(FromSextets([x, y]).value) == [x, y] <==> y & 0x0F == 0
  {
    FromTwo(x, y);
    ToTwo(High(x, y));
    TwoCanonical(x, y);
  }

  lemma OfNone()
    ensures FromSextets([]) == Some([]) && ToSextets([]) == []
  {
  }

  lemma LongCanonical(q: seq<Sextet>)
    requires |q| >= 4 && FromSextets(q).Some?
    ensures FromSextets(q[4..]).Some?
    ensures ToSextets(FromSextets(q).value) == q[..4] + ToSextets(FromSextets(q[4..]).value)
  {
    var x, y, z, w, more := q[0], q[1], q[2], q[3], q[4..];
    assert q == [x, y, z, w] + more && q[..4] == [x, y, z, w];
    FromFour(x, y, z, w, more);
    ToFour(High(x, y), Middle(y, z), Low(z, w), FromSextets(more).value);
    SextetsBack(x, y, z, w);
  }

  lemma NothingLeftAfterFour(q: seq<Sextet>)
    requires |q| >= 4
    ensures NothingLeft(q) <==> NothingLeft(q[4..])
  {
    assert |q| > 4 ==> q[4..][|q| - 5] == q[|q| - 1];
  }

  /** Encoding what was decoded gives the same back exactly when no bits were dropped. */
  lemma {:induction false} CanonicalIff(q: seq<Sextet>)
    requires FromSextets(q).Some?
    ensures ToSextets(FromSextets(q).value) == q <==> NothingLeft(q)
  {
    if |q| >= 4 {
      LongCanonical(q);
      NothingLeftAfterFour(q);
      CanonicalIff(q[4..]);
      SameTail(q[..4], ToSextets(FromSextets(q[4..]).value), q[4..]);
      assert q == q[..4] + q[4..];
    } else if |q| == 3 {
      assert q == [q[0], q[1], q[2]];
      OfThree(q[0], q[1], q[2]);
    } else if |q| == 2 {
      assert q == [q[0], q[1]];
      OfTwo(q[0], q[1]);
    } else {
      OfNone();
    }
  }

  lemma SameTail(front: seq<Sextet>, a: seq<Sextet>, b: seq<Sextet>)
    ensures front + a == front + b <==> a == b
  {
    if front + a == front + b {
      assert a == (front + a)[|front|..] && b == (front + b)[|front|..];
    }
  }

  lemma {:induction false} SextetsRoundTrip(b: seq<Octet>)
    ensures FromSextets(ToSextets(b)) == Some(b)
  {
    if |b| >= 3 {
      var x, y, z, more := b[0], b[1], b[2], b[3..];
      assert b == [x, y, z] + more;
      SextetsRoundTrip(more);
      ToFour(x, y, z, more);
      FromFour(First(x), Second(x, y), Third(y, z), Fourth(z), ToSextets(more));
      BytesBack(x, y, z);
    } else if |b| == 2 {
      assert b == [b[0], b[1]];
      OfTwoBytes(b[0], b[1]);
    } else if |b| == 1 {
      assert b == [b[0]];
      OfOneByte(b[0]);
    }
  }

  lemma OfTwoBytes(x: Octet, y: Octet)
    ensures FromSextets(ToSextets([x, y])) == Some([x, y])
  {
    ToThree(x, y);
    FromThree(First(x), Second(x, y), Third(y, 0));
    BytesBack(x, y, 0);
  }

  lemma OfOneByte(x: Octet)
    ensures FromSextets(ToSextets([x])) == Some([x])
  {
    ToTwo(x);
    FromTwo(First(x), Second(x, 0));
    BytesBack(x, 0, 0);
  }

  /** How many bytes come of so many sextets. */
  function ByteCount(n: nat): nat {
    if n >= 4 then ByteCount(n - 4) + 3 else if n >= 2 then n - 1 else 0
  }

  lemma {:induction false} ByteCountIs(n: nat)
    ensures ByteCount(n) == n * 3 / 4
  {
    if n >= 4 { ByteCountIs(n - 4); }
  }

  lemma {:induction false} BytesOf(q: seq<Sextet>)
    ensures FromSextets(q) == None <==> |q| % 4 == 1
    ensures FromSextets(q).Some? ==> |FromSextets(q).value| == ByteCount(|q|)
  {
    if |q| >= 4 {
      BytesOf(q[4..]);
    }
  }

  lemma SixteenBytes(q: seq<Sextet>)
    ensures FromSextets(q).Some? && |FromSextets(q).value| == 16 <==> |q| == 22
  {
    BytesOf(q);
    ByteCountIs(|q|);
  }

  function Chars(q: seq<Sextet>): string { seq(|q|, i requires 0 <= i < |q| => CharOf(q[i])) }

  function Values(s: string): (q: Option<seq<Sextet>>)
    ensures q.Some? ==> |q.value| == |s|
  {
    if s == "" then Some([])
    else
      match (Values(s[..|s| - 1]), ValueOf(s[|s| - 1]))
      case (Some(q), Some(v)) => Some(q + [v])
      case _ => None
  }

  lemma {:induction false} ValuesIs(s: string, q: seq<Sextet>)
    ensures Values(s) == Some(q) <==> s == Chars(q)
  {
    if s == "" {
    } else if q == [] {
      assert Chars(q) == "";
    } else {
      var m, n := |s| - 1, |q| - 1;
      ValuesIs(s[..m], q[..n]);
      AlphabetIs(q[n], s[m]);
      assert Chars(q) == Chars(q[..n]) + [CharOf(q[n])];
      assert s == s[..m] + [s[m]] && q == q[..n] + [q[n]];
    }
  }

  /** The decoder skips line breaks. */
  function SkipBreaks(s: string): string {
    if s == "" then ""
    else SkipBreaks(s[..|s| - 1]) + if s[|s| - 1] == '\n' || s[|s| - 1] == '\r' then "" else [s[|s| - 1]]
  }

  lemma {:induction false} NothingSkipped(s: string)
    requires forall c | c in s :: c != '\n' && c != '\r'
    ensures SkipBreaks(s) == s
  {
    if s != "" {
      var n := |s| - 1;
      assert forall c | c in s[..n] :: c in s;
      NothingSkipped(s[..n]);
      assert s[n] in s && s == s[..n] + [s[n]];
    }
  }

  lemma CharsUnbroken(q: seq<Sextet>)
    ensures SkipBreaks(Chars(q)) == Chars(q)
  {
    var s := Chars(q);
    forall c | c in s ensures c != '\n' && c != '\r' {
      var i :| 0 <= i < |s| && s[i] == c;
    }
    NothingSkipped(s);
  }

  function Encode(b: seq<Octet>): string { Chars(ToSextets(b)) }

  function Decode(s: string): Option<seq<Octet>> {
    match Values(SkipBreaks(s))
    case None => None
    case Some(q) => FromSextets(q)
  }

  lemma RoundTrip(b: seq<Octet>)
    ensures Decode(Encode(b)) == Some(b)
  {
    CharsUnbroken(ToSextets(b));
    ValuesIs(Encode(b), ToSextets(b));
    SextetsRoundTrip(b);
  }

  const ALPHABET: string := "ABCDEFGHIJKLMNOPQRSTUVWXYZ" + "abcdefghijklmnopqrstuvwxyz" + "0123456789" + "-_"

  /** The alphabet of section 5 of RFC 4648. */
  lemma CharAtIs(n: nat)
    requires n < 64
    ensures |ALPHABET| == 64 && CharAt(n) == ALPHABET[n]
  {
    var upper, lower, digits := "ABCDEFGHIJKLMNOPQRSTUVWXYZ", "abcdefghijklmnopqrstuvwxyz", "0123456789";
    assert forall i | 0 <= i < 26 :: upper[i] == ('A' as int + i) as char && lower[i] == ('a' as int + i) as char;
    assert forall i | 0 <= i < 10 :: digits[i] == ('0' as int + i) as char;
  }

  /** Vectors of its section 10, whose letters and digits both alphabets share. */
  lemma Vectors()
    ensures Encode([0x66]) == "Zg"
    ensures Encode([0x66, 0x6F]) == "Zm8"
    ensures Encode([0x66, 0x6F, 0x6F]) == "Zm9v"
  {
    assert ToSextets([0x66]) == [25, 32];
    assert ToSextets([0x66, 0x6F]) == [25, 38, 60];
    assert ToSextets([0x66, 0x6F, 0x6F]) == [25, 38, 61, 47] + ToSextets([0x66, 0x6F, 0x6F][3..]);
  }
}
