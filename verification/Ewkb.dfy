/** The binary MultiPolygon decoder against the format it reads: WKB of clause 8 of OGC 06-103r4
    with the PostGIS SRID flag. A double is its eight bytes, most significant first, so decoding
    is exact. */
module Ewkb {
  import opened Options
  import opened Counted

  datatype Double = Double(b7: Byte, b6: Byte, b5: Byte, b4: Byte, b3: Byte, b2: Byte, b1: Byte, b0: Byte)

  datatype Point = Point(lon: Double, lat: Double)

  type Ring = seq<Point>

  datatype Order = Little | Big

  const SRID_FLAG := 0x2000_0000
  const POLYGON := 3
  const MULTIPOLYGON := 6
  const WORD := 0x1_0000_0000

  // ---- the format ----

  /** Each geometry has its own byte order; only the outermost may carry an SRID. */
  datatype Polygon = Polygon(order: Order, rings: seq<Ring>)

  datatype MultiPolygon = MultiPolygon(order: Order, srid: Option<nat>, polygons: seq<Polygon>)

  /** Counts and the SRID are 32-bit words. */
  predicate Fits(g: MultiPolygon) {
    && |g.polygons| < WORD && (g.srid.Some? ==> g.srid.value < WORD)
    && (forall p :: p in g.polygons ==> PolygonFits(p))
  }

  predicate PolygonFits(p: Polygon) { |p.rings| < WORD && RingsFit(p.rings) }

  predicate RingsFit(rings: seq<Ring>) { forall r :: r in rings ==> |r| < WORD }

  function OrderByte(o: Order): Byte { if o.Little? then 1 else 0 }

  /** The `k` low bytes of `n`, most significant first. */
  function BytesOf(n: nat, k: nat): (b: Bytes)
    ensures |b| == k
  {
    if k == 0 then [] else BytesOf(n / 256, k - 1) + [n % 256]
  }

  function ValueOf(b: Bytes): nat {
    if b == [] then 0 else ValueOf(b[..|b| - 1]) * 256 + b[|b| - 1]
  }

  function Reverse(b: Bytes): (r: Bytes)
    ensures |r| == |b|
  {
    if b == [] then [] else Reverse(b[1..]) + [b[0]]
  }

  /** Between the stored order and most significant first. */
  function Flip(o: Order, b: Bytes): (r: Bytes)
    ensures |r| == |b|
  {
    if o.Big? then b else Reverse(b)
  }

  function PutWord(o: Order, n: nat): (b: Bytes)
    ensures |b| == 4
  {
    Flip(o, BytesOf(n, 4))
  }

  function PutDouble(o: Order, d: Double): (b: Bytes)
    ensures |b| == 8
  {
    Flip(o, [d.b7, d.b6, d.b5, d.b4, d.b3, d.b2, d.b1, d.b0])
  }

  function PutPoints(o: Order, r: Ring): (b: Bytes)
    ensures |b| == 16 * |r|
  {
    if r == [] then [] else PutDouble(o, r[0].lon) + PutDouble(o, r[0].lat) + PutPoints(o, r[1..])
  }

  function PutRing(o: Order, r: Ring): Bytes {
    PutWord(o, |r|) + PutPoints(o, r)
  }

  function RingPutter(o: Order): Ring -> Bytes { r => PutRing(o, r) }

  function PutPolygon(p: Polygon): Bytes {
    [OrderByte(p.order)] + PutWord(p.order, POLYGON) + PutWord(p.order, |p.rings|) + PutAll(RingPutter(p.order), p.rings)
  }

  /** Everything up to the polygon count. */
  function Header(g: MultiPolygon): (h: Bytes)
    ensures |h| == if g.srid.Some? then 9 else 5
  {
    [OrderByte(g.order)] +
    (match g.srid
     case None => PutWord(g.order, MULTIPOLYGON)
     case Some(srid) => PutWord(g.order, MULTIPOLYGON + SRID_FLAG) + PutWord(g.order, srid))
  }

  function Encode(g: MultiPolygon): Bytes {
    Header(g) + PutWord(g.order, |g.polygons|) + PutAll(PutPolygon, g.polygons)
  }

  /** The first ring of a polygon is its outer ring. */
  function Outer(p: Polygon): seq<Ring> { p.rings[..Min(|p.rings|)] }

  function Min(n: nat): nat { if n < 1 then n else 1 }

  // ---- what the decoder computes ----

  function OrderOf(b: Byte): Order { if b == 1 then Little else Big }

  function GetWord(o: Order, b: Bytes): nat
    requires |b| >= 4
  {
    ValueOf(Flip(o, b[..4]))
  }

  function GetDouble(o: Order, b: Bytes): Double
    requires |b| >= 8
  {
    var d := Flip(o, b[..8]);
    Double(d[0], d[1], d[2], d[3], d[4], d[5], d[6], d[7])
  }

  function GetPoints(o: Order, b: Bytes, n: nat): (r: Ring)
    requires |b| >= 16 * n
    ensures |r| == n
    decreases n
  {
    if n == 0 then [] else [Point(GetDouble(o, b), GetDouble(o, b[8..]))] + GetPoints(o, b[16..], n - 1)
  }

  function GetRing(o: Order, b: Bytes): Parse<Ring> {
    if |b| < 4 then PastEnd else
      var n := GetWord(o, b);
      if |b| < 4 + 16 * n then PastEnd else Got([GetPoints(o, b[4..], n)], b[4 + 16 * n..])
  }

  function RingGetter(o: Order): Bytes -> Parse<Ring> { b => GetRing(o, b) }

  /** Of the rings of one polygon only the outer one is kept. */
  function KeepOuter(p: Parse<Ring>): Parse<Ring> {
    match p
    case PastEnd => PastEnd
    case Got(rings, rest) => Got(rings[..Min(|rings|)], rest)
  }

  /** The polygon's own type word is skipped unread. */
  function GetPolygon(b: Bytes): Parse<Ring> {
    if |b| < 9 then PastEnd else
      var o := OrderOf(b[0]);
      KeepOuter(Repeat(RingGetter(o), b[9..], GetWord(o, b[5..])))
  }

  function HeaderEnd(kind: nat): nat { if kind / SRID_FLAG % 2 == 1 then 9 else 5 }

  function Decode(raw: Bytes): Parse<Ring> {
    if |raw| < 5 then PastEnd else
      var o := OrderOf(raw[0]);
      var h := HeaderEnd(GetWord(o, raw[1..]));
      if |raw| < h + 4 then PastEnd else Repeat(GetPolygon, raw[h + 4..], GetWord(o, raw[h..]))
  }

  // ---- the decoder ----

  ghost predicate RingAt(get: Bytes -> Parse<Ring>, o: Order, raw: Bytes, i: nat)
    requires i <= |raw|
  {
    get(raw[i..]) == GetRing(o, raw[i..])
  }

  /** The loops below know their readers by these properties only: `get` reads a ring, or a
      polygon, wherever in `raw` it is applied. */
  ghost predicate RingReader(get: Bytes -> Parse<Ring>, o: Order, raw: Bytes) {
    forall i: nat :: i <= |raw| ==> RingAt(get, o, raw, i)
  }

  ghost predicate PolygonAt(get: Bytes -> Parse<Ring>, raw: Bytes, i: nat)
    requires i <= |raw|
  {
    get(raw[i..]) == GetPolygon(raw[i..])
  }

  ghost predicate PolygonReader(get: Bytes -> Parse<Ring>, raw: Bytes) {
    forall i: nat :: i <= |raw| ==> PolygonAt(get, raw, i)
  }

  method ReadRing(ghost get: Bytes -> Parse<Ring>, o: Order, raw: Bytes, start: nat) returns (c: Cursor<Ring>)
    requires RingReader(get, o, raw) && start <= |raw|
    ensures Agrees(raw, c, get(raw[start..]))
    ensures c.At? ==> |c.items| == 1
  {
    assert RingAt(get, o, raw, start);
    if start + 4 > |raw| { return Failed; }
    var n := GetWord(o, raw[start..]);
    if start + 4 + 16 * n > |raw| { return Failed; }
    assert raw[start..][4..] == raw[start + 4..] && raw[start..][4 + 16 * n..] == raw[start + 4 + 16 * n..];
    c := At([GetPoints(o, raw[start + 4..], n)], start + 4 + 16 * n);
  }

  /** The inner loop: over the rings of one polygon, of which the first is kept. */
  method ReadRings(ghost get: Bytes -> Parse<Ring>, o: Order, raw: Bytes, start: nat, count: nat)
    returns (c: Cursor<Ring>)
    requires RingReader(get, o, raw) && start <= |raw|
    ensures Agrees(raw, c, KeepOuter(Repeat(get, raw[start..], count)))
  {
    var offset: nat, outer: seq<Ring> := start, [];
    ghost var rings: seq<Ring>, parse := [], Repeat(get, raw[start..], count);
    PrependNothing(parse);
    for i := 0 to count
      invariant offset <= |raw|
      invariant parse == Prepend(rings, Repeat(get, raw[offset..], count - i))
      invariant |rings| == i && outer == rings[..Min(i)]
    {
      var ring := ReadRing(get, o, raw, offset);
      if ring.Failed? { return Failed; }
      Progress(get, raw, offset, count - i, rings, ring);
      if i == 0 { outer := outer + ring.items; }
      rings := rings + ring.items;
      offset := ring.offset;
    }
    assert rings + [] == rings;
    c := At(outer, offset);
  }

  method ReadPolygon(ghost get: Bytes -> Parse<Ring>, raw: Bytes, start: nat) returns (c: Cursor<Ring>)
    requires PolygonReader(get, raw) && start <= |raw|
    ensures Agrees(raw, c, get(raw[start..]))
  {
    assert PolygonAt(get, raw, start);
    if start + 9 > |raw| { return Failed; }
    var o := OrderOf(raw[start]);
    assert raw[start..][5..] == raw[start + 5..] && raw[start..][9..] == raw[start + 9..];
    c := ReadRings(RingGetter(o), o, raw, start + 9, GetWord(o, raw[start + 5..]));
  }

  /** The outer loop: over the polygons. */
  method ReadPolygons(ghost get: Bytes -> Parse<Ring>, raw: Bytes, start: nat, count: nat)
    returns (c: Cursor<Ring>)
    requires PolygonReader(get, raw) && start <= |raw|
    ensures Agrees(raw, c, Repeat(get, raw[start..], count))
  {
    var offset: nat, rings: seq<Ring> := start, [];
    ghost var parse := Repeat(get, raw[start..], count);
    PrependNothing(parse);
    for i := 0 to count
      invariant offset <= |raw|
      invariant parse == Prepend(rings, Repeat(get, raw[offset..], count - i))
    {
      var polygon := ReadPolygon(get, raw, offset);
      if polygon.Failed? { return Failed; }
      Progress(get, raw, offset, count - i, rings, polygon);
      rings, offset := rings + polygon.items, polygon.offset;
    }
    assert rings + [] == rings;
    c := At(rings, offset);
  }

  /** The rings and the offset reached, or a failed read. */
  method RingsFromEwkb(raw: Bytes) returns (c: Cursor<Ring>)
    ensures Agrees(raw, c, Decode(raw))
  {
    if |raw| < 5 { return Failed; }
    var o := OrderOf(raw[0]);
    var offset := HeaderEnd(GetWord(o, raw[1..]));
    if offset + 4 > |raw| { return Failed; }
    c := ReadPolygons(GetPolygon, raw, offset + 4, GetWord(o, raw[offset..]));
  }

  // ---- round trip ----

  lemma {:induction false} ReverseAppend(b: Bytes, x: Byte)
    ensures Reverse(b + [x]) == [x] + Reverse(b)
  {
    if b == [] {
      assert b + [x] == [x];
    } else {
      assert (b + [x])[1..] == b[1..] + [x];
      ReverseAppend(b[1..], x);
    }
  }

  lemma {:induction false} FlipTwice(o: Order, b: Bytes)
    ensures Flip(o, Flip(o, b)) == b
    decreases |b|
  {
    if o.Little? && b != [] {
      FlipTwice(o, b[1..]);
      ReverseAppend(Reverse(b[1..]), b[0]);
      assert [b[0]] + b[1..] == b;
    }
  }

  predicate FitsIn(n: nat, k: nat) { if k == 0 then n == 0 else FitsIn(n / 256, k - 1) }

  lemma {:induction false} ValueOfBytes(n: nat, k: nat)
    requires FitsIn(n, k)
    ensures ValueOf(BytesOf(n, k)) == n
  {
    if k > 0 {
      ValueOfBytes(n / 256, k - 1);
      assert BytesOf(n, k)[..k - 1] == BytesOf(n / 256, k - 1);
    }
  }

  lemma WordFits(n: nat)
    requires n < WORD
    ensures FitsIn(n, 4)
  {
    assert FitsIn(n / 256 / 256 / 256 / 256, 0);
    assert FitsIn(n / 256 / 256 / 256, 1);
    assert FitsIn(n / 256 / 256, 2);
  }

  lemma WordRoundTrip(o: Order, n: nat, post: Bytes)
    requires n < WORD
    ensures GetWord(o, PutWord(o, n) + post) == n
  {
    assert (PutWord(o, n) + post)[..4] == PutWord(o, n);
    FlipTwice(o, BytesOf(n, 4));
    WordFits(n);
    ValueOfBytes(n, 4);
  }

  lemma DoubleRoundTrip(o: Order, d: Double, post: Bytes)
    ensures GetDouble(o, PutDouble(o, d) + post) == d
  {
    assert (PutDouble(o, d) + post)[..8] == PutDouble(o, d);
    FlipTwice(o, [d.b7, d.b6, d.b5, d.b4, d.b3, d.b2, d.b1, d.b0]);
  }

  lemma PointsStep(o: Order, p: Point, tail: Bytes, n: nat)
    requires |tail| >= 16 * n
    ensures GetPoints(o, PutDouble(o, p.lon) + (PutDouble(o, p.lat) + tail), n + 1) == [p] + GetPoints(o, tail, n)
  {
    var lon, lat := PutDouble(o, p.lon), PutDouble(o, p.lat);
    var b := lon + (lat + tail);
    assert b[8..] == lat + tail && b[16..] == tail;
    DoubleRoundTrip(o, p.lon, lat + tail);
    DoubleRoundTrip(o, p.lat, tail);
  }

  lemma {:induction false} PointsRoundTrip(o: Order, r: Ring, post: Bytes)
    ensures GetPoints(o, PutPoints(o, r) + post, |r|) == r
    decreases |r|
  {
    if r != [] {
      var lon, lat, tail := PutDouble(o, r[0].lon), PutDouble(o, r[0].lat), PutPoints(o, r[1..]);
      Regroup(lon, lat, tail, post);
      PointsStep(o, r[0], tail + post, |r| - 1);
      PointsRoundTrip(o, r[1..], post);
    }
  }

  lemma RingRoundTrip(o: Order, ring: Ring, post: Bytes)
    requires |ring| < WORD
    ensures GetRing(o, PutRing(o, ring) + post) == Got([ring], post)
  {
    var count, points := PutWord(o, |ring|), PutPoints(o, ring);
    var b := PutRing(o, ring) + post;
    assert b == count + (points + post);
    assert b[4..] == points + post;
    assert b[4 + 16 * |ring|..] == post;
    WordRoundTrip(o, |ring|, points + post);
    PointsRoundTrip(o, ring, post);
  }

  lemma RingsRoundTrip(o: Order, rings: seq<Ring>, post: Bytes)
    requires RingsFit(rings)
    ensures Repeat(RingGetter(o), PutAll(RingPutter(o), rings) + post, |rings|) == Got(rings, post)
  {
    var get, put, one := RingGetter(o), RingPutter(o), (r: Ring) => [r];
    forall r, q | r in rings ensures get(put(r) + q) == Got(one(r), q) { RingRoundTrip(o, r, q); }
    RepeatRoundTrip(get, put, one, rings, post);
    FlattenOnes(one, rings);
  }

  lemma Regroup(a: Bytes, b: Bytes, c: Bytes, d: Bytes)
    ensures a + b + c + d == a + (b + (c + d))
  {
  }

  lemma PolygonParts(o: Order, head: Bytes, count: Bytes, tail: Bytes)
    requires |head| == 5 && |count| == 4 && head[0] == OrderByte(o)
    ensures GetPolygon(head + (count + tail)) == KeepOuter(Repeat(RingGetter(o), tail, GetWord(o, count + tail)))
  {
    var b := head + (count + tail);
    assert b[5..] == count + tail && b[9..] == tail;
  }

  lemma PolygonRoundTrip(p: Polygon, post: Bytes)
    requires PolygonFits(p)
    ensures GetPolygon(PutPolygon(p) + post) == Got(Outer(p), post)
  {
    var head, count, rings := [OrderByte(p.order)] + PutWord(p.order, POLYGON), PutWord(p.order, |p.rings|), PutAll(RingPutter(p.order), p.rings);
    WordRoundTrip(p.order, |p.rings|, rings + post);
    RingsRoundTrip(p.order, p.rings, post);
    Regroup(head, count, rings, post);
    PolygonParts(p.order, head, count, rings + post);
  }

  lemma PolygonsRoundTrip(ps: seq<Polygon>, post: Bytes)
    requires forall p :: p in ps ==> PolygonFits(p)
    ensures Repeat(GetPolygon, PutAll(PutPolygon, ps) + post, |ps|) == Got(Flatten(Outer, ps), post)
  {
    forall p, q | p in ps ensures GetPolygon(PutPolygon(p) + q) == Got(Outer(p), q) { PolygonRoundTrip(p, q); }
    RepeatRoundTrip(GetPolygon, PutPolygon, Outer, ps, post);
  }

  lemma HeaderRoundTrip(g: MultiPolygon, post: Bytes)
    requires Fits(g)
    ensures var raw := Header(g) + post;
            OrderOf(raw[0]) == g.order && HeaderEnd(GetWord(g.order, raw[1..])) == |Header(g)|
  {
    var raw := Header(g) + post;
    match g.srid
    case Some(id) =>
      var kind, srid := PutWord(g.order, MULTIPOLYGON + SRID_FLAG), PutWord(g.order, id);
      assert raw[1..] == kind + (srid + post);
      WordRoundTrip(g.order, MULTIPOLYGON + SRID_FLAG, srid + post);
    case None =>
      assert raw[1..] == PutWord(g.order, MULTIPOLYGON) + post;
      WordRoundTrip(g.order, MULTIPOLYGON, post);
  }

  lemma DecodeParts(o: Order, head: Bytes, count: Bytes, tail: Bytes)
    requires |head| >= 5 && |count| == 4
    requires var raw := head + (count + tail); OrderOf(raw[0]) == o && HeaderEnd(GetWord(o, raw[1..])) == |head|
    ensures Decode(head + (count + tail)) == Repeat(GetPolygon, tail, GetWord(o, count + tail))
  {
    var raw := head + (count + tail);
    assert raw[|head|..] == count + tail && raw[|head| + 4..] == tail;
  }

  lemma EncodeParts(g: MultiPolygon) returns (head: Bytes, count: Bytes, polygons: Bytes)
    requires Fits(g)
    ensures Encode(g) == head + (count + polygons) && |head| >= 5 && |count| == 4
    ensures var raw := head + (count + polygons);
            OrderOf(raw[0]) == g.order && HeaderEnd(GetWord(g.order, raw[1..])) == |head|
    ensures GetWord(g.order, count + polygons) == |g.polygons| && polygons == PutAll(PutPolygon, g.polygons)
  {
    head, count, polygons := Header(g), PutWord(g.order, |g.polygons|), PutAll(PutPolygon, g.polygons);
    HeaderRoundTrip(g, count + polygons);
    WordRoundTrip(g.order, |g.polygons|, polygons);
    assert Encode(g) == head + (count + polygons);
  }

  /** For every multipolygon, whatever the byte order of each geometry and with or without an
      SRID, decoding its binary form gives exactly the outer rings in order and leaves no byte
      unread. */
  lemma DecodeInvertsEncode(g: MultiPolygon)
    requires |g.polygons| < 0x1_0000_0000 && (g.srid.Some? ==> g.srid.value < 0x1_0000_0000)
    requires forall p :: p in g.polygons ==> |p.rings| < 0x1_0000_0000 && forall r :: r in p.rings ==> |r| < 0x1_0000_0000
    ensures Decode(Encode(g)) == Got(Flatten(Outer, g.polygons), [])
  {
    assert Fits(g);
    var head, count, polygons := EncodeParts(g);
    DecodeParts(g.order, head, count, polygons);
    PolygonsRoundTrip(g.polygons, []);
    assert polygons + [] == polygons;
  }

  // ---- truncation ----

  lemma WordExtends(o: Order, b: Bytes, q: Bytes)
    requires |b| >= 4
    ensures GetWord(o, b + q) == GetWord(o, b)
  {
    assert (b + q)[..4] == b[..4];
  }

  lemma DoubleExtends(o: Order, b: Bytes, q: Bytes)
    requires |b| >= 8
    ensures GetDouble(o, b + q) == GetDouble(o, b)
  {
    assert (b + q)[..8] == b[..8];
  }

  lemma {:induction false} PointsExtend(o: Order, b: Bytes, q: Bytes, n: nat)
    requires |b| >= 16 * n
    ensures GetPoints(o, b + q, n) == GetPoints(o, b, n)
    decreases n
  {
    if n > 0 {
      DropExtends(b, q, 8);
      DropExtends(b, q, 16);
      DoubleExtends(o, b, q);
      DoubleExtends(o, b[8..], q);
      PointsExtend(o, b[16..], q, n - 1);
    }
  }

  lemma RingParts(o: Order, b: Bytes, n: nat)
    requires |b| >= 4 + 16 * n && GetWord(o, b) == n
    ensures GetRing(o, b) == Got([GetPoints(o, b[4..], n)], b[4 + 16 * n..])
  {
  }

  lemma RingExtends(o: Order, b: Bytes, q: Bytes)
    requires GetRing(o, b).Got?
    ensures GetRing(o, b + q) == Got(GetRing(o, b).items, GetRing(o, b).rest + q)
  {
    var n := GetWord(o, b);
    WordExtends(o, b, q);
    RingParts(o, b, n);
    RingParts(o, b + q, n);
    DropExtends(b, q, 4);
    PointsExtend(o, b[4..], q, n);
    DropExtends(b, q, 4 + 16 * n);
  }

  lemma DropExtends(b: Bytes, q: Bytes, n: nat)
    requires n <= |b|
    ensures (b + q)[n..] == b[n..] + q
  {
  }

  lemma PolygonExtends(b: Bytes, q: Bytes)
    requires GetPolygon(b).Got?
    ensures GetPolygon(b + q) == Got(GetPolygon(b).items, GetPolygon(b).rest + q)
  {
    var o := OrderOf(b[0]);
    var get, n := RingGetter(o), GetWord(o, b[5..]);
    DropExtends(b, q, 5);
    DropExtends(b, q, 9);
    WordExtends(o, b[5..], q);
    forall b', q' | get(b').Got? ensures get(b' + q') == Got(get(b').items, get(b').rest + q') {
      RingExtends(o, b', q');
    }
    RepeatExtends(get, b[9..], q, n);
  }

  /** The decoder never looks past what it consumes: bytes that follow are left over. */
  lemma DecodeExtends(b: Bytes, q: Bytes)
    requires Decode(b).Got?
    ensures Decode(b + q) == Got(Decode(b).items, Decode(b).rest + q)
  {
    var o := OrderOf(b[0]);
    DropExtends(b, q, 1);
    WordExtends(o, b[1..], q);
    var h := HeaderEnd(GetWord(o, b[1..]));
    DropExtends(b, q, h);
    DropExtends(b, q, h + 4);
    WordExtends(o, b[h..], q);
    forall b', q' | GetPolygon(b').Got?
      ensures GetPolygon(b' + q') == Got(GetPolygon(b').items, GetPolygon(b').rest + q') {
      PolygonExtends(b', q');
    }
    RepeatExtends(GetPolygon, b[h + 4..], q, GetWord(o, b[h..]));
  }

  lemma PrefixIsRefused(b: Bytes, q: Bytes)
    requires q != [] && Decode(b + q).Got? && Decode(b + q).rest == []
    ensures Decode(b).PastEnd?
  {
    if Decode(b).Got? { DecodeExtends(b, q); }
  }

  /** Cut anywhere before its end, an encoding is refused: no truncated shape is ever taken for
      a smaller one. */
  lemma TruncationIsRefused(g: MultiPolygon, n: nat)
    requires Fits(g) && n < |Encode(g)|
    ensures Decode(Encode(g)[..n]).PastEnd?
  {
    DecodeInvertsEncode(g);
    var b, q := Encode(g)[..n], Encode(g)[n..];
    assert b + q == Encode(g);
    PrefixIsRefused(b, q);
  }
}
