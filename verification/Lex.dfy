/** Pairs of integers in lexicographic order: the `ORDER BY a, b` of the keyset and relay
    queries, and the order Python gives a list of `(start, end)` tuples. */
module Lex {
  type Pair = (int, int)

  predicate Less(a: Pair, b: Pair) {
    a.0 < b.0 || (a.0 == b.0 && a.1 < b.1)
  }

  predicate LessEq(a: Pair, b: Pair) {
    a == b || Less(a, b)
  }

  /** Strictly ascending, hence free of duplicates. */
  ghost predicate Ascending(s: seq<Pair>) {
    forall i, j :: 0 <= i < j < |s| ==> Less(s[i], s[j])
  }

  ghost predicate NonDescending(s: seq<Pair>) {
    forall i, j :: 0 <= i < j < |s| ==> LessEq(s[i], s[j])
  }

  ghost function Elems(s: seq<Pair>): set<Pair> {
    set x | x in s
  }

  // ---- sorting a list ----

  function Insert(x: Pair, s: seq<Pair>): (r: seq<Pair>)
    ensures multiset(r) == multiset([x] + s)
  {
    if s == [] || LessEq(x, s[0]) then [x] + s
    else
      assert s == [s[0]] + s[1..];
      [s[0]] + Insert(x, s[1..])
  }

  lemma InsertMembers(x: Pair, s: seq<Pair>)
    ensures forall y :: y in Insert(x, s) ==> y == x || y in s
  {
    forall y | y in Insert(x, s) ensures y == x || y in s {
      assert y in multiset(Insert(x, s)) && y in multiset([x] + s);
      assert y in [x] + s;
    }
  }

  lemma {:induction false} InsertKeepsOrder(x: Pair, s: seq<Pair>)
    requires NonDescending(s)
    ensures NonDescending(Insert(x, s))
  {
    if s != [] && !LessEq(x, s[0]) {
      InsertKeepsOrder(x, s[1..]);
      InsertMembers(x, s[1..]);
      var rest := Insert(x, s[1..]);
      forall j | 0 <= j < |rest| ensures LessEq(s[0], rest[j]) {
        assert rest[j] in rest && (rest[j] == x || rest[j] in s[1..]);
      }
    }
  }

  function Sort(s: seq<Pair>): (r: seq<Pair>)
    ensures NonDescending(r)
    ensures multiset(r) == multiset(s)
  {
    if s == [] then [] else
      var rest := Sort(s[1..]);
      InsertKeepsOrder(s[0], rest);
      assert multiset([s[0]] + rest) == multiset(s) by {
        assert s == [s[0]] + s[1..];
      }
      Insert(s[0], rest)
  }

  /** Sorting neither loses nor invents an element. */
  lemma SortMembers(s: seq<Pair>)
    ensures |Sort(s)| == |s|
    ensures forall x :: x in Sort(s) <==> x in s
  {
    var r := Sort(s);
    assert |multiset(r)| == |multiset(s)|;
    forall x ensures x in r <==> x in s {
      assert x in r <==> x in multiset(r);
      assert x in s <==> x in multiset(s);
    }
  }

  ghost predicate Distinct(s: seq<Pair>) {
    forall i, j :: 0 <= i < j < |s| ==> s[i] != s[j]
  }

  /** Sorting a list without duplicates gives a strictly ascending one. */
  lemma {:induction false} SortAscends(s: seq<Pair>)
    requires Distinct(s)
    ensures Ascending(Sort(s))
  {
    if s != [] {
      var rest := Sort(s[1..]);
      SortAscends(s[1..]);
      SortMembers(s[1..]);
      InsertAscends(s[0], rest);
    }
  }

  lemma {:induction false} InsertAscends(x: Pair, s: seq<Pair>)
    requires Ascending(s) && x !in s
    ensures Ascending(Insert(x, s))
  {
    if s != [] && !LessEq(x, s[0]) {
      InsertAscends(x, s[1..]);
      InsertMembers(x, s[1..]);
      var rest := Insert(x, s[1..]);
      forall j | 0 <= j < |rest| ensures Less(s[0], rest[j]) {
        assert rest[j] in rest && (rest[j] == x || rest[j] in s[1..]);
      }
    }
  }

  // ---- listing a set ----

  lemma LeastExists(s: set<Pair>) returns (m: Pair)
    requires s != {}
    ensures m in s && forall y :: y in s ==> LessEq(m, y)
    decreases |s|
  {
    m :| m in s;
    var rest := s - {m};
    assert s == rest + {m};
    if rest != {} {
      var n := LeastExists(rest);
      if Less(n, m) { m := n; }
    }
  }

  function Least(s: set<Pair>): (m: Pair)
    requires s != {}
    ensures m in s && forall y :: y in s ==> LessEq(m, y)
  {
    assert exists m :: m in s && forall y :: y in s ==> LessEq(m, y) by {
      var m := LeastExists(s);
    }
    var m :| m in s && forall y :: y in s ==> LessEq(m, y);
    m
  }

  /** The rows of a table in key order: what `ORDER BY` without `LIMIT` returns. */
  function List(s: set<Pair>): (r: seq<Pair>)
    ensures |r| == |s|
    ensures forall x :: x in r <==> x in s
    decreases |s|
  {
    if s == {} then [] else [Least(s)] + List(s - {Least(s)})
  }

  lemma {:induction false} ListAscends(s: set<Pair>)
    ensures Ascending(List(s))
    ensures Elems(List(s)) == s
    decreases |s|
  {
    if s != {} {
      ListAscends(s - {Least(s)});
      var rest := List(s - {Least(s)});
      assert forall i :: 0 <= i < |rest| ==> rest[i] in rest;
    }
  }

  /** A strictly ascending sequence is determined by its elements. */
  lemma {:induction false} AscendingUnique(a: seq<Pair>, b: seq<Pair>)
    requires Ascending(a) && Ascending(b) && Elems(a) == Elems(b)
    ensures a == b
  {
    assert a != [] ==> a[0] in Elems(a);
    assert b != [] ==> b[0] in Elems(b);
    if a != [] && b != [] {
      assert a[0] == b[0] by {
        assert a[0] in Elems(b) && b[0] in Elems(a);
        var i :| 0 <= i < |b| && b[i] == a[0];
        var j :| 0 <= j < |a| && a[j] == b[0];
      }
      assert Elems(a[1..]) == Elems(a) - {a[0]};
      assert Elems(b[1..]) == Elems(b) - {b[0]};
      AscendingUnique(a[1..], b[1..]);
      assert a == [a[0]] + a[1..] && b == [b[0]] + b[1..];
    }
  }

  /** An ascending sequence has as many entries as distinct elements. */
  lemma {:induction false} AscendingCount(s: seq<Pair>)
    requires Ascending(s)
    ensures |Elems(s)| == |s|
  {
    ListAscends(Elems(s));
    AscendingUnique(s, List(Elems(s)));
  }

  /** Two ascending runs, the first entirely below the second, make one. */
  lemma ConcatAscends(a: seq<Pair>, b: seq<Pair>, mid: Pair)
    requires Ascending(a) && Ascending(b)
    requires forall x :: x in a ==> LessEq(x, mid)
    requires forall y :: y in b ==> Less(mid, y)
    ensures Ascending(a + b)
  {
    forall i, j | 0 <= i < |a| && 0 <= j < |b| ensures Less(a[i], b[j]) {
      assert a[i] in a && b[j] in b;
    }
  }
}
