/** The MULTIPOLYGON text writer and reader. A float is opaque: all that is known is how it is
    printed and what a printed one parses to. */
module Wkt {
  import opened Options
  import opened PyString

  type Ring<F> = seq<(F, F)>

  /** A printed float holds no space, comma or parenthesis and parses back to itself. */
  ghost predicate Faithful<F(!new)>(show: F -> string, parse: string -> Option<F>) {
    forall f :: Token(show(f)) && parse(show(f)) == Some(f)
  }

  ghost predicate Token(t: string) { t != "" && NoSpace(t) && Plain(t) }

  ghost predicate Plain(t: string) { ',' !in t && '(' !in t && ')' !in t }

  // ---- the writer ----

  function Pair<F>(show: F -> string, p: (F, F)): string { show(p.0) + " " + show(p.1) }

  function Pairs<F>(show: F -> string, ring: Ring<F>): seq<string> {
    if ring == [] then [] else [Pair(show, ring[0])] + Pairs(show, ring[1..])
  }

  function Coords<F>(show: F -> string, ring: Ring<F>): string { Join(", ", Pairs(show, ring)) }

  function Parts<F>(show: F -> string, rings: seq<Ring<F>>): seq<string> {
    if rings == [] then [] else ["((" + Coords(show, rings[0]) + "))"] + Parts(show, rings[1..])
  }

  function Text<F>(show: F -> string, rings: seq<Ring<F>>): string {
    "MULTIPOLYGON(" + Join(", ", Parts(show, rings)) + ")"
  }

  lemma {:induction false} PartsAppend<F>(show: F -> string, rings: seq<Ring<F>>, ring: Ring<F>)
    ensures Parts(show, rings + [ring]) == Parts(show, rings) + ["((" + Coords(show, ring) + "))"]
  {
    if rings == [] {
      assert rings + [ring] == [ring];
    } else {
      assert (rings + [ring])[1..] == rings[1..] + [ring];
      PartsAppend(show, rings[1..], ring);
    }
  }

  method ToMultipolygon<F>(show: F -> string, rings: seq<Ring<F>>) returns (wkt: string)
    ensures wkt == Text(show, rings)
  {
    var parts := [];
    for i := 0 to |rings|
      invariant parts == Parts(show, rings[..i])
    {
      assert rings[..i + 1] == rings[..i] + [rings[i]];
      PartsAppend(show, rings[..i], rings[i]);
      parts := parts + ["((" + Coords(show, rings[i]) + "))"];
    }
    assert rings[..|rings|] == rings;
    wkt := "MULTIPOLYGON(" + Join(", ", parts) + ")";
  }

  // ---- the reader ----

  function ParsePair<F>(parse: string -> Option<F>, pair: string): Option<(F, F)> {
    var ws := Words(pair);
    if |ws| != 2 then None else
      var lon, lat := parse(ws[0]), parse(ws[1]);
      if lon.None? || lat.None? then None else Some((lon.value, lat.value))
  }

  function ParsePairs<F>(parse: string -> Option<F>, pairs: seq<string>): Option<Ring<F>> {
    if pairs == [] then Some([]) else
      var p := ParsePair(parse, pairs[0]);
      if p.None? then None else Prefixed([p.value], ParsePairs(parse, pairs[1..]))
  }

  function Prefixed<T>(xs: seq<T>, r: Option<seq<T>>): Option<seq<T>> {
    if r.None? then None else Some(xs + r.value)
  }

  function ChunkCoords(chunk: string): string {
    Strip(RStrip(LStrip(Strip(chunk), IsOpen), IsClose))
  }

  predicate IsOpen(c: char) { c == '(' }

  predicate IsClose(c: char) { c == ')' }

  function ParseChunk<F>(parse: string -> Option<F>, chunk: string): Option<Ring<F>> {
    ParsePairs(parse, SplitOn(ChunkCoords(chunk), ","))
  }

  function ParseChunks<F>(parse: string -> Option<F>, chunks: seq<string>): Option<seq<Ring<F>>> {
    if chunks == [] then Some([]) else
      var r := ParseChunk(parse, chunks[0]);
      if r.None? then None else Prefixed([r.value], ParseChunks(parse, chunks[1..]))
  }

  function Inner(wkt: string): Option<string> {
    var a, z := IndexFrom(wkt, '('), RIndexEnd(wkt, ')');
    if a == |wkt| || z == 0 then None else if a + 1 <= z - 1 then Some(wkt[a + 1..z - 1]) else Some("")
  }

  /** Every failure of the code, a missing parenthesis, a pair that is not two words, a word that
      is not a float, is `None`. */
  function Parsed<F>(parse: string -> Option<F>, wkt: string): Option<seq<Ring<F>>> {
    var inner := Inner(wkt);
    if inner.None? then None else ParseChunks(parse, SplitOn(inner.value, ")),"))
  }

  lemma PrefixedTwice<T>(a: seq<T>, b: seq<T>, r: Option<seq<T>>)
    ensures Prefixed(a, Prefixed(b, r)) == Prefixed(a + b, r)
  {
    if r.Some? { assert a + (b + r.value) == (a + b) + r.value; }
  }

  method ReadRing<F>(parse: string -> Option<F>, chunk: string) returns (r: Option<Ring<F>>)
    ensures r == ParseChunk(parse, chunk)
  {
    var pairs := SplitOn(ChunkCoords(chunk), ",");
    var ring: Ring<F> := [];
    assert Prefixed(ring, ParsePairs(parse, pairs)) == ParsePairs(parse, pairs) by {
      if ParsePairs(parse, pairs).Some? { assert [] + ParsePairs(parse, pairs).value == ParsePairs(parse, pairs).value; }
    }
    for i := 0 to |pairs|
      invariant ParsePairs(parse, pairs) == Prefixed(ring, ParsePairs(parse, pairs[i..]))
    {
      var p := ParsePair(parse, pairs[i]);
      assert pairs[i..][1..] == pairs[i + 1..];
      if p.None? { return None; }
      PrefixedTwice(ring, [p.value], ParsePairs(parse, pairs[i + 1..]));
      ring := ring + [p.value];
    }
    assert ring + [] == ring;
    r := Some(ring);
  }

  method RingsFromWkt<F>(parse: string -> Option<F>, wkt: string) returns (r: Option<seq<Ring<F>>>)
    ensures r == Parsed(parse, wkt)
  {
    var inner := Inner(wkt);
    if inner.None? { return None; }
    var chunks := SplitOn(inner.value, ")),");
    var rings: seq<Ring<F>> := [];
    assert Prefixed(rings, ParseChunks(parse, chunks)) == ParseChunks(parse, chunks) by {
      if ParseChunks(parse, chunks).Some? { assert [] + ParseChunks(parse, chunks).value == ParseChunks(parse, chunks).value; }
    }
    for i := 0 to |chunks|
      invariant ParseChunks(parse, chunks) == Prefixed(rings, ParseChunks(parse, chunks[i..]))
    {
      var ring := ReadRing(parse, chunks[i]);
      assert chunks[i..][1..] == chunks[i + 1..];
      if ring.None? { return None; }
      PrefixedTwice(rings, [ring.value], ParseChunks(parse, chunks[i + 1..]));
      rings := rings + [ring.value];
    }
    assert rings + [] == rings;
    r := Some(rings);
  }

  // ---- what the printed text looks like ----

  /** No parenthesis, and a visible character at both ends. */
  ghost predicate Bare(s: string) {
    '(' !in s && ')' !in s && (s != "" ==> !IsSpace(s[0]) && !IsSpace(s[|s| - 1]))
  }

  lemma {:induction false} CoordsAreBare<F(!new)>(show: F -> string, parse: string -> Option<F>, ring: Ring<F>)
    requires Faithful(show, parse)
    ensures Bare(Coords(show, ring))
    ensures ring != [] ==> Coords(show, ring) != ""
  {
    if ring != [] {
      assert Token(show(ring[0].0)) && Token(show(ring[0].1));
      CoordsCons(show, ring);
      if |ring| > 1 { CoordsAreBare(show, parse, ring[1..]); }
    }
  }

  // ---- one ring ----

  predicate Lead(s: string) { s == "" || s == " " }

  lemma PairRoundTrip<F(!new)>(show: F -> string, parse: string -> Option<F>, lead: string, p: (F, F))
    requires Faithful(show, parse) && Lead(lead)
    ensures ParsePair(parse, lead + Pair(show, p)) == Some(p)
  {
    var a, b := show(p.0), show(p.1);
    assert Token(a) && Token(b);
    assert lead + Pair(show, p) == lead + (a + (" " + b));
    WordThenSpace(a, " " + b);
    SkipSpace(b);
    assert b + "" == b;
    WordThenSpace(b, "");
    if lead == " " { SkipSpace(a + (" " + b)); } else { assert lead + (a + (" " + b)) == a + (" " + b); }
    assert Words(lead + Pair(show, p)) == [a] + ([b] + []);
  }

  lemma ParseOnePair<F>(parse: string -> Option<F>, pair: string, p: (F, F))
    requires ParsePair(parse, pair) == Some(p)
    ensures ParsePairs(parse, [pair]) == Some([p])
  {
    assert [pair][1..] == [] && [p] + [] == [p];
    assert ParsePairs(parse, [pair][1..]) == Some([]);
  }

  lemma ParseMorePairs<F>(parse: string -> Option<F>, pair: string, p: (F, F), more: seq<string>, ring: Ring<F>)
    requires ParsePair(parse, pair) == Some(p) && ParsePairs(parse, more) == Some(ring)
    ensures ParsePairs(parse, [pair] + more) == Some([p] + ring)
  {
    assert ([pair] + more)[1..] == more;
  }

  lemma CoordsCons<F>(show: F -> string, ring: Ring<F>)
    requires ring != []
    ensures Coords(show, ring) == if |ring| == 1 then Pair(show, ring[0])
                                  else Pair(show, ring[0]) + ", " + Coords(show, ring[1..])
  {
    if |ring| == 1 {
      assert Pairs(show, ring[1..]) == [];
      assert Pairs(show, ring) == [Pair(show, ring[0])];
    } else {
      assert Pairs(show, ring)[1..] == Pairs(show, ring[1..]);
      assert |Pairs(show, ring[1..])| > 0;
    }
  }

  /** A comma and a space: the comma separates, the space leads the next piece. */
  lemma CommaThenSpace(lead: string, a: string, rest: string)
    ensures lead + (a + ", " + rest) == (lead + a) + "," + (" " + rest)
  {
  }

  lemma {:induction false} PairsRoundTrip<F(!new)>(show: F -> string, parse: string -> Option<F>, lead: string, ring: Ring<F>)
    requires Faithful(show, parse) && Lead(lead) && ring != []
    ensures ParsePairs(parse, SplitOn(lead + Coords(show, ring), ",")) == Some(ring)
    decreases |ring|
  {
    var first := lead + Pair(show, ring[0]);
    NoCommaInPair(show, parse, lead, ring[0]);
    PairRoundTrip(show, parse, lead, ring[0]);
    CoordsCons(show, ring);
    if |ring| == 1 {
      SplitWhole(first, "", ",");
      assert first + "" == first && [ring[0]] == ring;
      ParseOnePair(parse, first, ring[0]);
    } else {
      var tail := Coords(show, ring[1..]);
      CommaThenSpace(lead, Pair(show, ring[0]), tail);
      SplitHead(first, ",", " " + tail);
      PairsRoundTrip(show, parse, " ", ring[1..]);
      ParseMorePairs(parse, first, ring[0], SplitOn(" " + tail, ","), ring[1..]);
      assert [ring[0]] + ring[1..] == ring;
    }
  }

  lemma NoCommaInPair<F(!new)>(show: F -> string, parse: string -> Option<F>, lead: string, p: (F, F))
    requires Faithful(show, parse) && Lead(lead)
    ensures ',' !in lead + Pair(show, p)
  {
    assert Token(show(p.0)) && Token(show(p.1));
  }

  lemma EmptyRingFails<F>(parse: string -> Option<F>)
    ensures ParsePairs(parse, SplitOn("", ",")) == None
  {
    assert SplitOn("", ",") == [""];
    assert Words("") == [];
  }

  lemma StripLead(lead: string, body: string)
    requires Lead(lead) && body != "" && !IsSpace(body[0]) && !IsSpace(body[|body| - 1])
    ensures Strip(lead + body) == body
  {
    LStripPrefix(lead, body, IsSpace);
    RStripSuffix(body, "", IsSpace);
    assert body + "" == body;
  }

  lemma StripBare(c: string)
    requires Bare(c)
    ensures Strip(c) == c
  {
    LStripPrefix("", c, IsSpace);
    RStripSuffix(c, "", IsSpace);
    assert "" + c == c && c + "" == c;
  }

  lemma StripParens(c: string, tail: string)
    requires Bare(c) && (tail == "" || tail == "))")
    ensures RStrip(LStrip("((" + (c + tail), IsOpen), IsClose) == c
  {
    if c != "" { assert (c + tail)[0] == c[0] && c[|c| - 1] in c; }
    LStripPrefix("((", c + tail, IsOpen);
    RStripSuffix(c, tail, IsClose);
  }

  /** Whatever surrounds it, a chunk's coordinates are recovered. */
  lemma ChunkCoordsRecovered(lead: string, c: string, tail: string)
    requires Lead(lead) && Bare(c) && (tail == "" || tail == "))")
    ensures ChunkCoords(lead + "((" + c + tail) == c
  {
    var body := "((" + (c + tail);
    assert lead + "((" + c + tail == lead + body;
    assert body[|body| - 1] == if tail != "" then ')' else if c != "" then c[|c| - 1] else '(';
    StripLead(lead, body);
    StripParens(c, tail);
    StripBare(c);
  }

  lemma ChunkRoundTrip<F(!new)>(show: F -> string, parse: string -> Option<F>, lead: string, ring: Ring<F>, tail: string)
    requires Faithful(show, parse) && Lead(lead) && (tail == "" || tail == "))")
    ensures ParseChunk(parse, lead + "((" + Coords(show, ring) + tail) == if ring == [] then None else Some(ring)
  {
    var c := Coords(show, ring);
    CoordsAreBare(show, parse, ring);
    ChunkCoordsRecovered(lead, c, tail);
    if ring == [] {
      EmptyRingFails(parse);
    } else {
      PairsRoundTrip(show, parse, "", ring);
      assert "" + c == c;
    }
  }

  // ---- all rings ----

  /** What splitting the printed body leaves: the last piece keeps its closing parentheses. */
  function Chunks<F>(show: F -> string, lead: string, rings: seq<Ring<F>>): seq<string>
    requires rings != []
    decreases |rings|
  {
    if |rings| == 1 then [lead + "((" + Coords(show, rings[0]) + "))"]
    else [lead + "((" + Coords(show, rings[0]) + ""] + Chunks(show, " ", rings[1..])
  }

  lemma BodyCons<F>(show: F -> string, rings: seq<Ring<F>>)
    requires rings != []
    ensures var part := "((" + Coords(show, rings[0]) + "))";
            Join(", ", Parts(show, rings)) == if |rings| == 1 then part
                                              else part + ", " + Join(", ", Parts(show, rings[1..]))
  {
    if |rings| == 1 {
      assert Parts(show, rings[1..]) == [];
      assert Parts(show, rings) == ["((" + Coords(show, rings[0]) + "))"];
    } else {
      assert Parts(show, rings)[1..] == Parts(show, rings[1..]);
      assert |Parts(show, rings[1..])| > 0;
    }
  }

  lemma CloseThenComma(lead: string, c: string, rest: string)
    ensures lead + ("((" + c + "))" + ", " + rest) == (lead + "((" + c) + ")),"+ (" " + rest)
    ensures lead + ("((" + c + "))") == (lead + "((" + c) + "))"
  {
  }

  lemma {:induction false} SplitBody<F(!new)>(show: F -> string, parse: string -> Option<F>, lead: string, rings: seq<Ring<F>>)
    requires Faithful(show, parse) && Lead(lead) && rings != []
    ensures SplitOn(lead + Join(", ", Parts(show, rings)), ")),") == Chunks(show, lead, rings)
    decreases |rings|
  {
    var c := Coords(show, rings[0]);
    CoordsAreBare(show, parse, rings[0]);
    var first := lead + "((" + c;
    assert ')' !in first;
    BodyCons(show, rings);
    if |rings| == 1 {
      CloseThenComma(lead, c, "");
      SplitWhole(first, "))", ")),");
    } else {
      var tail := Join(", ", Parts(show, rings[1..]));
      CloseThenComma(lead, c, tail);
      SplitHead(first, ")),", " " + tail);
      SplitBody(show, parse, " ", rings[1..]);
      assert first + "" == first;
    }
  }

  /** The rings the reader can give back: at least one, none of them empty. */
  ghost predicate Printable<F>(rings: seq<Ring<F>>) {
    rings != [] && forall r :: r in rings ==> |r| > 0
  }

  lemma PrintableCons<F>(rings: seq<Ring<F>>)
    requires |rings| > 1
    ensures Printable(rings) <==> |rings[0]| > 0 && Printable(rings[1..])
    ensures rings == [rings[0]] + rings[1..]
  {
  }

  lemma ParseChunksCons<F>(parse: string -> Option<F>, chunk: string, chunks: seq<string>)
    ensures var ring := ParseChunk(parse, chunk);
            ParseChunks(parse, [chunk] + chunks) ==
            if ring.None? then None else Prefixed([ring.value], ParseChunks(parse, chunks))
    ensures [chunk] + [] == [chunk]
  {
    assert ([chunk] + chunks)[1..] == chunks;
  }

  lemma {:induction false} ChunksRoundTrip<F(!new)>(show: F -> string, parse: string -> Option<F>, lead: string, rings: seq<Ring<F>>)
    requires Faithful(show, parse) && Lead(lead) && rings != []
    ensures ParseChunks(parse, Chunks(show, lead, rings)) == if Printable(rings) then Some(rings) else None
    decreases |rings|
  {
    var c := Coords(show, rings[0]);
    if |rings| == 1 {
      ChunkRoundTrip(show, parse, lead, rings[0], "))");
      ParseChunksCons(parse, lead + "((" + c + "))", []);
      assert rings == [rings[0]] && [rings[0]] + [] == [rings[0]];
    } else {
      ChunkRoundTrip(show, parse, lead, rings[0], "");
      ChunksRoundTrip(show, parse, " ", rings[1..]);
      ParseChunksCons(parse, lead + "((" + c + "", Chunks(show, " ", rings[1..]));
      PrintableCons(rings);
    }
  }

  lemma InnerOfText(body: string)
    ensures Inner("MULTIPOLYGON(" + body + ")") == Some(body)
  {
    var wkt := "MULTIPOLYGON(" + body + ")";
    var a := IndexFrom(wkt, '(');
    assert wkt[12] == '(' && wkt[..12] == "MULTIPOLYGON";
    assert forall i :: 0 <= i < 12 ==> wkt[i] == "MULTIPOLYGON"[i] && wkt[i] != '(';
    assert a == 12;
    assert wkt[13..|wkt| - 1] == body;
  }

  /** Reading back what was written gives the same rings in order, exactly when there is at
      least one ring and no ring is empty; otherwise the reader fails. */
  lemma ParseInvertsPrint<F(!new)>(show: F -> string, parse: string -> Option<F>, rings: seq<Ring<F>>)
    requires Faithful(show, parse)
    ensures Parsed(parse, Text(show, rings)) == if Printable(rings) then Some(rings) else None
  {
    var body := Join(", ", Parts(show, rings));
    InnerOfText(body);
    if rings == [] {
      assert SplitOn("", ")),") == [""];
      assert ChunkCoords("") == "";
      EmptyRingFails(parse);
    } else {
      SplitBody(show, parse, "", rings);
      assert "" + body == body;
      ChunksRoundTrip(show, parse, "", rings);
    }
  }

  /** Longitude before latitude, a space between them, and a comma and a space between points. */
  lemma PointsInPlainTerms<F>(show: F -> string, a: (F, F), b: (F, F))
    ensures Coords(show, [a, b]) == show(a.0) + " " + show(a.1) + ", " + (show(b.0) + " " + show(b.1))
  {
    CoordsCons(show, [a, b]);
    CoordsCons(show, [b]);
    assert [a, b][1..] == [b];
  }

  /** Two parentheses around each ring, and a comma and a space between rings. */
  lemma RingsInPlainTerms<F>(show: F -> string, r: Ring<F>, q: Ring<F>)
    ensures Text(show, [r, q]) == "MULTIPOLYGON(" + ("((" + Coords(show, r) + "))" + ", " + ("((" + Coords(show, q) + "))")) + ")"
  {
    BodyCons(show, [r, q]);
    BodyCons(show, [q]);
    assert [r, q][1..] == [q];
  }

  // ---- any text ----

  /** What the reader looks at is what lies between the first opening parenthesis and the last closing
      one. */
  lemma InnerInPlainTerms(before: string, body: string, after: string)
    requires '(' !in before && ')' !in after
    ensures Inner(before + "(" + body + ")" + after) == Some(body)
  {
    var wkt := before + "(" + body + ")" + after;
    var a, z := IndexFrom(wkt, '('), RIndexEnd(wkt, ')');
    assert wkt[|before|] == '(' && forall i :: 0 <= i < |before| ==> wkt[i] == before[i];
    var close := |before| + 1 + |body|;
    assert wkt[close] == ')' && forall i :: close < i < |wkt| ==> wkt[i] == after[i - close - 1];
    assert a == |before| && z == close + 1;
    assert wkt[a + 1..z - 1] == body;
  }

  /** Without both, or with them the wrong way round, there is nothing to read. */
  lemma UnreadableText<F>(parse: string -> Option<F>, wkt: string)
    requires forall i, j :: 0 <= i < |wkt| && 0 <= j < |wkt| && wkt[i] == '(' && wkt[j] == ')' ==> j < i
    ensures Parsed(parse, wkt) == None
  {
    var a, z := IndexFrom(wkt, '('), RIndexEnd(wkt, ')');
    if a < |wkt| && z > 0 {
      assert wkt[a] == '(' && wkt[z - 1] == ')';
      assert Inner(wkt) == Some("");
      assert SplitOn("", ")),") == [""];
      assert ChunkCoords("") == "";
      EmptyRingFails(parse);
    }
  }
}
