/** The binary format byte by byte: what the encoder writes and what the decoder takes raw bytes for,
    in literal values. */
module EwkbBytes {
  import opened Options
  import opened Counted
  import opened Ewkb

  /** Four bytes as a number, least significant first. */
  function FourBytes(a: nat, b: nat, c: nat, d: nat): nat { a + 0x100 * (b + 0x100 * (c + 0x100 * d)) }

  function Word4(little: bool, b: Bytes): nat
    requires |b| >= 4
  {
    if little then FourBytes(b[0], b[1], b[2], b[3]) else FourBytes(b[3], b[2], b[1], b[0])
  }

  // ---- words and doubles ----

  lemma {:induction false} ReverseAt(b: Bytes, i: nat)
    requires i < |b|
    ensures Reverse(b)[i] == b[|b| - 1 - i]
  {
    if i < |b| - 1 { ReverseAt(b[1..], i); }
  }

  lemma {:induction false} ValueStep(b: Bytes, x: Byte)
    ensures ValueOf(b + [x]) == ValueOf(b) * 256 + x as int
  {
    assert (b + [x])[..|b|] == b;
  }

  lemma {:induction false} ValueOfFour(a: Byte, b: Byte, c: Byte, d: Byte)
    ensures ValueOf([a, b, c, d]) == FourBytes(d, c, b, a)
  {
    ValueStep([], a);
    ValueStep([a], b);
    ValueStep([a, b], c);
    ValueStep([a, b, c], d);
    assert [] + [a] == [a] && [a] + [b] == [a, b] && [a, b] + [c] == [a, b, c] && [a, b, c] + [d] == [a, b, c, d];
  }

  lemma {:induction false} FlipOfFour(o: Order, w: Bytes)
    requires |w| == 4
    ensures Flip(o, w) == if o == Little then [w[3], w[2], w[1], w[0]] else [w[0], w[1], w[2], w[3]]
  {
    forall i | 0 <= i < 4 ensures Reverse(w)[i] == w[3 - i] { ReverseAt(w, i); }
  }

  lemma {:induction false} WordInBytes(o: Order, b: Bytes)
    requires |b| >= 4
    ensures GetWord(o, b) == Word4(o == Little, b)
  {
    FlipOfFour(o, b[..4]);
    if o == Little { ValueOfFour(b[3], b[2], b[1], b[0]); } else { ValueOfFour(b[0], b[1], b[2], b[3]); }
  }

  /** What is written for a number is what four bytes stand for. */
  lemma {:induction false} PutWordInBytes(o: Order, n: nat)
    requires n < 0x1_0000_0000
    ensures Word4(o == Little, PutWord(o, n)) == n
  {
    WordRoundTrip(o, n, []);
    assert PutWord(o, n) + [] == PutWord(o, n);
    WordInBytes(o, PutWord(o, n));
  }

  lemma OneByte(x: nat, y: nat, q: nat, r: nat)
    requires x < 256 && y < 256 && x + 0x100 * q == y + 0x100 * r
    ensures x == y && q == r
  {
  }

  lemma FourBytesDiffer(a: nat, b: nat, c: nat, d: nat, a': nat, b': nat, c': nat, d': nat)
    requires a < 256 && b < 256 && c < 256 && d < 256 && a' < 256 && b' < 256 && c' < 256 && d' < 256
    requires FourBytes(a, b, c, d) == FourBytes(a', b', c', d')
    ensures a == a' && b == b' && c == c' && d == d'
  {
    OneByte(a, a', b + 0x100 * (c + 0x100 * d), b' + 0x100 * (c' + 0x100 * d'));
    OneByte(b, b', c + 0x100 * d, c' + 0x100 * d');
    OneByte(c, c', d, d');
  }

  lemma {:induction false} WordIs(o: Order, n: nat, b: Bytes)
    requires n < 0x1_0000_0000 && |b| == 4 && Word4(o == Little, b) == n
    ensures PutWord(o, n) == b
  {
    PutWordInBytes(o, n);
    var w := PutWord(o, n);
    if o == Little {
      FourBytesDiffer(w[0], w[1], w[2], w[3], b[0], b[1], b[2], b[3]);
    } else {
      FourBytesDiffer(w[3], w[2], w[1], w[0], b[3], b[2], b[1], b[0]);
    }
  }

  lemma {:induction false} DoubleInBytes(d: Double)
    ensures PutDouble(Little, d) == [d.b0, d.b1, d.b2, d.b3, d.b4, d.b5, d.b6, d.b7]
    ensures PutDouble(Big, d) == [d.b7, d.b6, d.b5, d.b4, d.b3, d.b2, d.b1, d.b0]
  {
    var b := [d.b7, d.b6, d.b5, d.b4, d.b3, d.b2, d.b1, d.b0];
    forall i | 0 <= i < 8 ensures Reverse(b)[i] == b[7 - i] { ReverseAt(b, i); }
  }

  // ---- what is written ----

  lemma {:induction false} TypeWord(o: Order, n: nat, low: Byte, high: Byte)
    requires n == low as int + 0x100_0000 * (high as int)
    ensures PutWord(o, n) == if o == Little then [low, 0, 0, high] else [high, 0, 0, low]
  {
    if o == Little { WordIs(o, n, [low, 0, 0, high]); } else { WordIs(o, n, [high, 0, 0, low]); }
  }

  lemma {:induction false} HeaderParts(g: MultiPolygon)
    ensures Header(g) == [if g.order == Little then 1 else 0] + PutWord(g.order, if g.srid.Some? then 0x2000_0006 else 6) +
                         (if g.srid.Some? then PutWord(g.order, g.srid.value) else [])
  {
  }

  /** The order byte is 1 for little-endian and 0 for big; the type is 6, a multipolygon, with the bit
      0x20000000 set when an SRID follows. */
  lemma {:induction false} HeaderInBytes(g: MultiPolygon)
    requires Fits(g)
    ensures match (g.order, g.srid)
            case (Little, None) => Header(g) == [1, 6, 0, 0, 0]
            case (Big, None) => Header(g) == [0, 0, 0, 0, 6]
            case (Little, Some(srid)) =>
              |Header(g)| == 9 && Header(g)[..5] == [1, 6, 0, 0, 0x20] && Word4(true, Header(g)[5..]) == srid
            case (Big, Some(srid)) =>
              |Header(g)| == 9 && Header(g)[..5] == [0, 0x20, 0, 0, 6] && Word4(false, Header(g)[5..]) == srid
  {
    TypeWord(g.order, if g.srid.Some? then 0x2000_0006 else 6, 6, if g.srid.Some? then 0x20 else 0);
    HeaderParts(g);
    if g.srid.Some? {
      PutWordInBytes(g.order, g.srid.value);
      assert Header(g)[5..] == PutWord(g.order, g.srid.value);
    }
  }

  /** After the header comes the number of polygons, then the polygons. */
  lemma {:induction false} EncodeInBytes(g: MultiPolygon)
    requires Fits(g)
    ensures |PutWord(g.order, |g.polygons|)| == 4 && Word4(g.order == Little, PutWord(g.order, |g.polygons|)) == |g.polygons|
    ensures Encode(g) == Header(g) + PutWord(g.order, |g.polygons|) + PutAll(PutPolygon, g.polygons)
  {
    PutWordInBytes(g.order, |g.polygons|);
  }

  lemma {:induction false} PolygonStart(p: Polygon) returns (kind: Bytes, count: Bytes, rings: Bytes)
    ensures PutPolygon(p) == [if p.order == Little then 1 else 0] + kind + count + rings
    ensures kind == (if p.order == Little then [3, 0, 0, 0] else [0, 0, 0, 3])
    ensures count == PutWord(p.order, |p.rings|) && rings == PutAll(RingPutter(p.order), p.rings)
  {
    kind, count, rings := PutWord(p.order, POLYGON), PutWord(p.order, |p.rings|), PutAll(RingPutter(p.order), p.rings);
    TypeWord(p.order, POLYGON, 3, 0);
  }

  /** A polygon is its order byte, the type 3, the number of its rings, and the rings. */
  lemma {:induction false} PolygonInBytes(p: Polygon) returns (count: Bytes, rings: Bytes)
    requires PolygonFits(p)
    ensures PutPolygon(p) == (if p.order == Little then [1, 3, 0, 0, 0] else [0, 0, 0, 0, 3]) + count + rings
    ensures |count| == 4 && Word4(p.order == Little, count) == |p.rings| && rings == PutAll(RingPutter(p.order), p.rings)
  {
    var kind;
    kind, count, rings := PolygonStart(p);
    assert [if p.order == Little then 1 else 0] + kind == if p.order == Little then [1, 3, 0, 0, 0] else [0, 0, 0, 0, 3];
    PutWordInBytes(p.order, |p.rings|);
  }

  /** A ring is the number of its points and then the points, longitude before latitude. */
  lemma {:induction false} RingInBytes(o: Order, r: Ring, i: nat)
    requires i < |r| < 0x1_0000_0000
    ensures |PutRing(o, r)| == 4 + 16 * |r| && Word4(o == Little, PutRing(o, r)) == |r|
    ensures PutRing(o, r)[4 + 16 * i..][..16] == PutDouble(o, r[i].lon) + PutDouble(o, r[i].lat)
  {
    PutWordInBytes(o, |r|);
    assert PutRing(o, r)[..4] == PutWord(o, |r|);
    PointInBytes(o, r, i);
    assert PutRing(o, r)[4 + 16 * i..] == PutPoints(o, r)[16 * i..];
  }

  lemma {:induction false} PointInBytes(o: Order, r: Ring, i: nat)
    requires i < |r|
    ensures PutPoints(o, r)[16 * i..][..16] == PutDouble(o, r[i].lon) + PutDouble(o, r[i].lat)
    decreases |r|
  {
    if i > 0 {
      PointInBytes(o, r[1..], i - 1);
      assert PutPoints(o, r)[16 * i..] == PutPoints(o, r[1..])[16 * (i - 1)..];
    }
  }

  // ---- what the decoder takes raw bytes for ----

  lemma {:induction false} TopBit(low: nat, top: nat)
    requires low < 0x100_0000
    ensures HeaderEnd(low + 0x100_0000 * top) == if top / 0x20 % 2 == 1 then 9 else 5
  {
    assert (low + 0x100_0000 * top) / 0x2000_0000 == top / 0x20;
  }

  lemma {:induction false} HeaderEndInBytes(little: bool, b: Bytes)
    requires |b| >= 4
    ensures HeaderEnd(Word4(little, b)) == if (if little then b[3] else b[0]) / 0x20 % 2 == 1 then 9 else 5
  {
    if little {
      TopBit(FourBytes(b[0], b[1], b[2], 0), b[3]);
    } else {
      TopBit(FourBytes(b[3], b[2], b[1], 0), b[0]);
    }
  }

  /** Any order byte but 1 means big-endian. The header is nine bytes if the bit 0x20 of the type's most
      significant byte is set, else five; then comes the number of polygons. */
  lemma {:induction false} DecodeReadsTheHeader(raw: Bytes)
    requires |raw| >= 5
    ensures var little := raw[0] == 1;
            var h := if (if little then raw[4] else raw[1]) / 0x20 % 2 == 1 then 9 else 5;
            Decode(raw) == if |raw| < h + 4 then PastEnd else Repeat(GetPolygon, raw[h + 4..], Word4(little, raw[h..]))
  {
    var little := raw[0] == 1;
    WordInBytes(OrderOf(raw[0]), raw[1..]);
    HeaderEndInBytes(little, raw[1..]);
    var h := HeaderEnd(Word4(little, raw[1..]));
    if |raw| >= h + 4 { WordInBytes(OrderOf(raw[0]), raw[h..]); }
  }

  lemma {:induction false} ReadHeader(raw: Bytes) returns (h: nat, count: nat)
    requires |raw| >= 13
    ensures h == if (if raw[0] == 1 then raw[4] else raw[1]) / 0x20 % 2 == 1 then 9 else 5
    ensures count == Word4(raw[0] == 1, raw[h..]) && Decode(raw) == Repeat(GetPolygon, raw[h + 4..], count)
  {
    DecodeReadsTheHeader(raw);
    h := if (if raw[0] == 1 then raw[4] else raw[1]) / 0x20 % 2 == 1 then 9 else 5;
    count := Word4(raw[0] == 1, raw[h..]);
  }

  lemma {:induction false} Word4At(b: Bytes, i: nat)
    requires i + 4 <= |b|
    ensures Word4(true, b[i..]) == FourBytes(b[i], b[i + 1], b[i + 2], b[i + 3])
  {
  }

  /** A little-endian PostGIS value with SRID 4326: the polygon count is at offset 9. */
  lemma {:induction false} DecodeOf4326(raw: Bytes, count: nat)
    requires |raw| >= 13 && raw[..9] == [0x01, 0x06, 0x00, 0x00, 0x20, 0xE6, 0x10, 0x00, 0x00]
    requires count == FourBytes(raw[9], raw[10], raw[11], raw[12])
    ensures Decode(raw) == Repeat(GetPolygon, raw[13..], count)
  {
    assert raw[0] == raw[..9][0] && raw[4] == raw[..9][4];
    var h, n := ReadHeader(raw);
    Word4At(raw, h);
  }

  /** A polygon is read in its own byte order, its type unread: of its rings the first is kept. */
  lemma {:induction false} PolygonReadsBytes(b: Bytes)
    requires |b| >= 9
    ensures var o := if b[0] == 1 then Little else Big;
            match Repeat(RingGetter(o), b[9..], Word4(o == Little, b[5..]))
            case PastEnd => GetPolygon(b) == PastEnd
            case Got(rings, rest) => GetPolygon(b) == Got(if rings == [] then [] else [rings[0]], rest)
  {
    WordInBytes(OrderOf(b[0]), b[5..]);
  }

  lemma {:induction false} RingReadsBytes(o: Order, b: Bytes)
    requires |b| >= 4
    ensures var n := Word4(o == Little, b);
            GetRing(o, b) == if |b| < 4 + 16 * n then PastEnd else Got([GetPoints(o, b[4..], n)], b[4 + 16 * n..])
  {
    WordInBytes(o, b);
  }
}
