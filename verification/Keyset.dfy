/** Keyset pagination of the agenda on (start, id): one page, and a walk from page to page while
    the table changes between fetches. A cursor is the key of the last item of a page. */
module Keyset {
  import opened Options
  import opened Lex

  datatype Row = Row(tenant: int, agent: int, status: int, startAt: int)

  type Table = map<int, Row>

  datatype Filter = Filter(tenant: int, scope: Option<set<int>>, status: Option<int>, from: Option<int>, to: Option<int>)

  predicate Matches(f: Filter, r: Row) {
    && r.tenant == f.tenant
    && (f.scope.Some? ==> r.agent in f.scope.value)
    && (f.status.Some? ==> r.status == f.status.value)
    && (f.from.Some? ==> r.startAt >= f.from.value)
    && (f.to.Some? ==> r.startAt < f.to.value)
  }

  /** The keys of the rows the filter selects. */
  function View(t: Table, f: Filter): set<Pair> {
    set id | id in t && Matches(f, t[id]) :: (t[id].startAt, id)
  }

  predicate Beyond(after: Option<Pair>, k: Pair) {
    after.Some? ==> after.value.0 < k.0 || (after.value.0 == k.0 && after.value.1 < k.1)
  }

  function Remaining(t: Table, f: Filter, after: Option<Pair>): set<Pair> {
    set k | k in View(t, f) && Beyond(after, k)
  }

  const DEFAULT_PAGE_SIZE := 24
  const MAX_PAGE_SIZE := 100

  function ClampLimit(limit: Option<int>): (n: nat)
    ensures limit == None ==> n == 24
    ensures limit.Some? && 1 <= limit.value <= 100 ==> n == limit.value
    ensures limit.Some? && limit.value < 1 ==> n == 1
    ensures limit.Some? && limit.value > 100 ==> n == 100
  {
    match limit
    case None => DEFAULT_PAGE_SIZE
    case Some(n) => if n > MAX_PAGE_SIZE then MAX_PAGE_SIZE else if n < 1 then 1 else n
  }

  datatype Page = Page(items: seq<Pair>, next: Option<Pair>)

  function Take(s: seq<Pair>, n: nat): seq<Pair> { if |s| <= n then s else s[..n] }

  /** The repository fetches one row more than a page; the service keeps a page of them and, if
      there was one more, hands out the last kept key. */
  function ListPage(t: Table, f: Filter, after: Option<Pair>, size: nat): Page
    requires size >= 1
  {
    var rows := Take(List(Remaining(t, f, after)), size + 1);
    var items := Take(rows, size);
    Page(items, if |rows| > size then Some(items[|items| - 1]) else None)
  }

  /** A page is the least `size` remaining rows, and there is a next one exactly when rows are
      left, all of them beyond the cursor. */
  lemma PageIsPrefix(t: Table, f: Filter, after: Option<Pair>, size: nat)
    requires size >= 1
    ensures var all := List(Remaining(t, f, after));
            var page := ListPage(t, f, after, size);
            && page.items == Take(all, size) && Ascending(page.items)
            && (page.next.Some? <==> |all| > size)
            && (forall x :: x in page.items ==> x in Remaining(t, f, after))
            && (page.next.Some? ==> |page.items| == size && page.next.value == page.items[size - 1])
  {
    var rest := Remaining(t, f, after);
    var all := List(rest);
    ListAscends(rest);
    var page := ListPage(t, f, after, size);
    if |all| > size {
      assert all[..size + 1][..size] == all[..size];
    }
    forall x | x in page.items ensures x in rest {
      assert x in all;
    }
  }

  /** What a page leaves out lies beyond its cursor. */
  lemma RestIsBeyond(t: Table, f: Filter, after: Option<Pair>, size: nat, k: Pair)
    requires size >= 1 && k in Remaining(t, f, after)
    ensures var page := ListPage(t, f, after, size);
            k in page.items || (page.next.Some? && Beyond(page.next, k))
  {
    PageIsPrefix(t, f, after, size);
    var rest := Remaining(t, f, after);
    var all := List(rest);
    ListAscends(rest);
    assert k in all;
    var i :| 0 <= i < |all| && all[i] == k;
    if i < size {
      assert Take(all, size)[i] == k;
    } else {
      assert Less(all[size - 1], all[i]);
    }
  }

  // ---- a walk ----

  /** The pages fetched one after the other, each from the table as it then is; `None` if the
      last fetch still had a next page. */
  function Walk(tables: seq<Table>, f: Filter, after: Option<Pair>, size: nat): Option<seq<Pair>>
    requires size >= 1
    decreases |tables|
  {
    if tables == [] then None else
      var page := ListPage(tables[0], f, after, size);
      if page.next.None? then Some(page.items) else
        match Walk(tables[1..], f, page.next, size)
        case None => None
        case Some(more) => Some(page.items + more)
  }

  lemma BeyondTransitive(after: Option<Pair>, mid: Pair, k: Pair)
    requires Beyond(after, mid) && Beyond(Some(mid), k)
    ensures Beyond(after, k)
  {
  }

  lemma LastIsGreatest(s: seq<Pair>)
    requires Ascending(s) && s != []
    ensures forall x :: x in s ==> LessEq(x, s[|s| - 1])
  {
  }

  lemma {:induction false} WalkInOrder(tables: seq<Table>, f: Filter, after: Option<Pair>, size: nat)
    requires size >= 1 && Walk(tables, f, after, size).Some?
    ensures var r := Walk(tables, f, after, size).value;
            Ascending(r) && forall x :: x in r ==> Beyond(after, x)
    decreases |tables|
  {
    var page := ListPage(tables[0], f, after, size);
    PageIsPrefix(tables[0], f, after, size);
    if page.next.Some? {
      WalkInOrder(tables[1..], f, page.next, size);
      var more := Walk(tables[1..], f, page.next, size).value;
      LastIsGreatest(page.items);
      ConcatAscends(page.items, more, page.next.value);
      assert page.next.value in page.items;
      forall x | x in more ensures Beyond(after, x) {
        BeyondTransitive(after, page.next.value, x);
      }
    }
  }

  lemma {:induction false} WalkFindsAll(tables: seq<Table>, f: Filter, after: Option<Pair>, size: nat, k: Pair)
    requires size >= 1 && Walk(tables, f, after, size).Some? && Beyond(after, k)
    requires forall t :: t in tables ==> k in View(t, f)
    ensures k in Walk(tables, f, after, size).value
    decreases |tables|
  {
    RestIsBeyond(tables[0], f, after, size, k);
    var page := ListPage(tables[0], f, after, size);
    if k !in page.items {
      WalkFindsAll(tables[1..], f, page.next, size, k);
    }
  }

  lemma {:induction false} WalkFindsOnly(tables: seq<Table>, f: Filter, after: Option<Pair>, size: nat, k: Pair)
    requires size >= 1 && Walk(tables, f, after, size).Some? && k in Walk(tables, f, after, size).value
    ensures exists t :: t in tables && k in View(t, f)
    decreases |tables|
  {
    PageIsPrefix(tables[0], f, after, size);
    var page := ListPage(tables[0], f, after, size);
    if k in page.items {
      assert k in View(tables[0], f);
    } else {
      WalkFindsOnly(tables[1..], f, page.next, size, k);
      var t :| t in tables[1..] && k in View(t, f);
      assert t in tables;
    }
  }

  /** Under arbitrary inserts, deletes and edits between fetches, a completed walk is strictly
      ordered, so it shows no key twice; it shows every key that was there and matching throughout;
      and everything it shows was there and matching at some fetch. */
  lemma CompletedWalk(tables: seq<Table>, f: Filter, limit: Option<int>)
    requires Walk(tables, f, None, ClampLimit(limit)).Some?
    ensures var r := Walk(tables, f, None, ClampLimit(limit)).value;
            && Ascending(r)
            && (forall i, j :: 0 <= i < j < |r| ==> r[i].0 < r[j].0 || (r[i].0 == r[j].0 && r[i].1 < r[j].1))
            && (forall k :: (forall t :: t in tables ==> k in View(t, f)) ==> k in r)
            && (forall k :: k in r ==> exists t :: t in tables && k in View(t, f))
  {
    var size := ClampLimit(limit);
    var r := Walk(tables, f, None, size).value;
    WalkInOrder(tables, f, None, size);
    forall k | forall t :: t in tables ==> k in View(t, f) ensures k in r { WalkFindsAll(tables, f, None, size, k); }
    forall k | k in r ensures exists t :: t in tables && k in View(t, f) { WalkFindsOnly(tables, f, None, size, k); }
  }

  /** A row that keeps its start and matches throughout is shown exactly once, whatever happens to
      the others. */
  lemma SteadyRowOnce(tables: seq<Table>, f: Filter, limit: Option<int>, k: Pair)
    requires Walk(tables, f, None, ClampLimit(limit)).Some?
    requires forall t :: t in tables ==> k in View(t, f)
    ensures var r := Walk(tables, f, None, ClampLimit(limit)).value;
            exists i :: 0 <= i < |r| && r[i] == k && forall j :: 0 <= j < |r| && r[j].1 == k.1 ==> j == i
  {
    CompletedWalk(tables, f, limit);
    var r := Walk(tables, f, None, ClampLimit(limit)).value;
    assert k in r;
    var i :| 0 <= i < |r| && r[i] == k;
    forall j | 0 <= j < |r| && r[j].1 == k.1 ensures j == i {
      assert r[j] in r;
      var t :| t in tables && r[j] in View(t, f);
      assert k in View(t, f) && r[j] == k;
    }
  }

  // ---- a table that does not change ----

  /** Every fetch sees the same table. */
  ghost predicate Still(tables: seq<Table>, t: Table) {
    forall i :: 0 <= i < |tables| ==> tables[i] == t
  }

  lemma WhatIsLeft(t: Table, f: Filter, after: Option<Pair>, size: nat, k: Pair)
    requires size >= 1 && ListPage(t, f, after, size).next.Some?
    ensures var page := ListPage(t, f, after, size);
            k in Remaining(t, f, page.next) <==> k in Remaining(t, f, after) && k !in page.items
  {
    PageIsPrefix(t, f, after, size);
    var page := ListPage(t, f, after, size);
    LastIsGreatest(page.items);
    assert page.next.value in page.items;
    if k in Remaining(t, f, after) { RestIsBeyond(t, f, after, size, k); }
    if k in Remaining(t, f, page.next) { BeyondTransitive(after, page.next.value, k); }
  }

  lemma NextShrinks(t: Table, f: Filter, after: Option<Pair>, size: nat)
    requires size >= 1 && ListPage(t, f, after, size).next.Some?
    ensures |Remaining(t, f, ListPage(t, f, after, size).next)| == |Remaining(t, f, after)| - size
  {
    PageIsPrefix(t, f, after, size);
    var page := ListPage(t, f, after, size);
    var rest, rest' := Remaining(t, f, after), Remaining(t, f, page.next);
    forall k ensures k in rest' <==> k in rest - Elems(page.items) {
      WhatIsLeft(t, f, after, size, k);
    }
    assert rest' == rest - Elems(page.items);
    AscendingCount(page.items);
    assert rest == rest' + Elems(page.items);
  }

  /** How many rows `k` pages hold. */
  function Capacity(k: nat, size: nat): nat { if k == 0 then 0 else size + Capacity(k - 1, size) }

  lemma {:induction false} CapacityIsProduct(k: nat, size: nat)
    ensures Capacity(k, size) == k * size
  {
    if k > 0 {
      CapacityIsProduct(k - 1, size);
      assert k * size == (k - 1) * size + size;
    }
  }

  lemma {:induction false} StillWalkEnds(tables: seq<Table>, t: Table, f: Filter, after: Option<Pair>, size: nat)
    requires size >= 1 && tables != [] && Still(tables, t)
    requires |Remaining(t, f, after)| <= Capacity(|tables|, size)
    ensures Walk(tables, f, after, size).Some?
    decreases |tables|
  {
    assert tables[0] == t;
    PageIsPrefix(t, f, after, size);
    var page := ListPage(t, f, after, size);
    if page.next.Some? {
      NextShrinks(t, f, after, size);
      assert |Remaining(t, f, page.next)| <= Capacity(|tables| - 1, size);
      assert |tables| > 1 by { assert |Remaining(t, f, after)| > size && Capacity(0, size) == 0; }
      StillWalkEnds(tables[1..], t, f, page.next, size);
    }
  }

  /** The rows the filter selects, in plain terms: of the tenant, and within whichever of scope, status
      and period it names. */
  lemma ViewInPlainTerms(t: Table, f: Filter, startAt: int, id: int)
    ensures (startAt, id) in View(t, f) <==>
      && id in t && t[id].startAt == startAt && t[id].tenant == f.tenant
      && (f.scope == None || t[id].agent in f.scope.value)
      && (f.status == None || t[id].status == f.status.value)
      && (f.from == None || f.from.value <= startAt)
      && (f.to == None || startAt < f.to.value)
  {
  }

  /** On a table that does not change, enough fetches return exactly the sorted filtered table,
      for every page size. */
  lemma StillWalkIsTheTable(tables: seq<Table>, t: Table, f: Filter, limit: Option<int>)
    requires tables != [] && forall i :: 0 <= i < |tables| ==> tables[i] == t
    requires |View(t, f)| <= |tables| * ClampLimit(limit)
    ensures Walk(tables, f, None, ClampLimit(limit)) == Some(List(View(t, f)))
    ensures var r := List(View(t, f));
            && (forall k :: k in r <==> k in View(t, f))
            && forall i, j :: 0 <= i < j < |r| ==> r[i].0 < r[j].0 || (r[i].0 == r[j].0 && r[i].1 < r[j].1)
  {
    var size := ClampLimit(limit);
    assert Remaining(t, f, None) == View(t, f);
    CapacityIsProduct(|tables|, size);
    StillWalkEnds(tables, t, f, None, size);
    CompletedWalk(tables, f, limit);
    var r := Walk(tables, f, None, size).value;
    assert tables[0] in tables && forall u :: u in tables ==> u == t;
    assert Elems(r) == View(t, f);
    ListAscends(View(t, f));
    AscendingUnique(r, List(View(t, f)));
  }
}
