/** Versioned legal pages of one (tenant, kind): every query and both unique indexes are scoped to
    that pair, so pairs do not interact. A publisher locks the current row, flips it, reads the
    highest version and inserts the next one, under READ COMMITTED. */
module Legal {
  import opened Options
  import opened Runs

  datatype Page = Page(body: string, current: bool)

  /** The committed pages by version: the version is unique. */
  type Pages = map<nat, Page>

  lemma {:induction false} HighestExists(s: set<nat>) returns (m: nat)
    requires s != {}
    ensures m in s && forall v :: v in s ==> v <= m
    decreases |s|
  {
    m :| m in s;
    var rest := s - {m};
    assert s == rest + {m};
    if rest != {} {
      var n := HighestExists(rest);
      if n > m { m := n; }
    }
  }

  /** SELECT max(version), or 0. */
  function MaxVersion(rows: Pages): (m: nat)
    ensures rows == map[] ==> m == 0
    ensures rows != map[] ==> m in rows && forall v :: v in rows ==> v <= m
  {
    if rows == map[] then 0 else
      assert exists m :: m in rows.Keys && forall v :: v in rows.Keys ==> v <= m by {
        var m := HighestExists(rows.Keys);
      }
      var m :| m in rows.Keys && forall v :: v in rows.Keys ==> v <= m;
      m
  }

  function Published(rows: Pages, was: Option<nat>, version: nat, body: string): Pages
    requires was.Some? ==> was.value in rows
  {
    var flipped := if was.Some? then rows[was.value := rows[was.value].(current := false)] else rows;
    flipped[version := Page(body, true)]
  }

  /** Versions 1..n, the last one current and no other. */
  ghost predicate WellVersioned(rows: Pages) {
    && (forall v: nat :: v in rows <==> 1 <= v <= |rows|)
    && (forall v :: v in rows ==> (rows[v].current <==> v == |rows|))
  }

  lemma PublishKeepsVersions(rows: Pages, body: string)
    requires WellVersioned(rows)
    ensures var was := if rows == map[] then None else Some(|rows|);
            var rows' := Published(rows, was, |rows| + 1, body);
            WellVersioned(rows') && |rows'| == |rows| + 1
  {
    var was := if rows == map[] then None else Some(|rows|);
    var rows' := Published(rows, was, |rows| + 1, body);
    assert rows'.Keys == rows.Keys + {|rows| + 1};
    assert |rows'.Keys| == |rows.Keys| + 1;
  }

  lemma MaxIsCount(rows: Pages)
    requires WellVersioned(rows)
    ensures MaxVersion(rows) == |rows|
  {
    if rows != map[] {
      assert |rows| in rows by {
        assert |rows.Keys| > 0;
      }
    }
  }

  // ---- one publisher at a time ----

  class LegalPages {
    var rows: Pages

    ghost predicate Valid()
      reads this
    {
      WellVersioned(rows)
    }

    constructor ()
      ensures Valid() && rows == map[]
    {
      rows := map[];
    }

    method Publish(body: string) returns (version: nat)
      requires Valid()
      modifies this
      ensures Valid() && version == |old(rows)| + 1 == |rows|
      ensures rows[version] == Page(body, true)
      ensures forall v :: v in old(rows) ==> rows[v] == old(rows)[v].(current := false)
    {
      PublishKeepsVersions(rows, body);
      MaxIsCount(rows);
      var max := MaxVersion(rows);
      if exists v :: v in rows && rows[v].current {
        var v :| v in rows && rows[v].current;
        rows := rows[v := rows[v].(current := false)];
      }
      version := max + 1;
      rows := rows[version := Page(body, true)];
    }
  }

  // ---- every interleaving ----

  /** Where a publisher stands. `lock` is the row its FOR UPDATE returned, if any. */
  datatype Publisher =
    | Waiting(seen: nat)
    | Ready(lock: Option<nat>)
    | Planned(lock: Option<nat>, version: nat)
    | Inserted(lock: Option<nat>, version: nat, body: string)

  datatype State = State(rows: Pages, pubs: map<int, Publisher>)

  datatype Action =
    | Select(p: int)
    | Wake(p: int)
    | ReadMax(p: int)
    | Insert(p: int, body: string)
    | Commit(p: int)
    | Abort(p: int)

  const INIT := State(map[], map[])

  predicate Holds(pub: Publisher, v: nat) { !pub.Waiting? && pub.lock == Some(v) }

  predicate LockedByOther(s: State, p: int, v: nat) {
    exists q :: q in s.pubs && q != p && Holds(s.pubs[q], v)
  }

  predicate OtherInserted(s: State, p: int) {
    exists q :: q in s.pubs && q != p && s.pubs[q].Inserted?
  }

  function Goto(s: State, p: int, pub: Publisher): State { s.(pubs := s.pubs[p := pub]) }

  function End(s: State, p: int): State { s.(pubs := s.pubs - {p}) }

  /** A committed current row other than the one this publisher flipped. */
  predicate CurrentClash(s: State, lock: Option<nat>) {
    exists v :: v in s.rows && s.rows[v].current && lock != Some(v)
  }

  ghost function Step(s: State, a: Action): State {
    match a
    case Select(p) =>
      if p in s.pubs then s
      else if v :| v in s.rows && s.rows[v].current then
        (if LockedByOther(s, p, v) then Goto(s, p, Waiting(v)) else Goto(s, p, Ready(Some(v))))
      else Goto(s, p, Ready(None))
    case Wake(p) =>
      // once the lock is free the row is re-checked; the newer current row is not in the snapshot
      if p !in s.pubs || !s.pubs[p].Waiting? || LockedByOther(s, p, s.pubs[p].seen) then s else
        var v := s.pubs[p].seen;
        Goto(s, p, Ready(if v in s.rows && s.rows[v].current then Some(v) else None))
    case ReadMax(p) =>
      if p in s.pubs && s.pubs[p].Ready? then Goto(s, p, Planned(s.pubs[p].lock, MaxVersion(s.rows) + 1)) else s
    case Insert(p, body) =>
      // the unique indexes make an insert wait for another's uncommitted row or flip
      if p !in s.pubs || !s.pubs[p].Planned? || OtherInserted(s, p) then s else
        var Planned(lock, version) := s.pubs[p];
        if version in s.rows || CurrentClash(s, lock) then
          (if exists v :: v in s.rows && s.rows[v].current && LockedByOther(s, p, v) then s else End(s, p))
        else Goto(s, p, Inserted(lock, version, body))
    case Commit(p) =>
      if p in s.pubs && s.pubs[p].Inserted? then
        var Inserted(lock, version, body) := s.pubs[p];
        if lock.Some? && lock.value !in s.rows then s
        else End(s, p).(rows := Published(s.rows, lock, version, body))
      else s
    case Abort(p) => End(s, p)
  }

  ghost predicate PublisherOk(s: State, pub: Publisher) {
    match pub
    case Waiting(seen) => seen in s.rows
    case Ready(lock) => LockOk(s, lock)
    case Planned(lock, version) => LockOk(s, lock) && 1 <= version <= |s.rows| + 1 && (lock.Some? ==> version == |s.rows| + 1)
    case Inserted(lock, version, _) => lock == (if s.rows == map[] then None else Some(|s.rows|)) && version == |s.rows| + 1
  }

  /** Only the current row is ever held. */
  predicate LockOk(s: State, lock: Option<nat>) {
    lock.Some? ==> lock.value in s.rows && lock.value == |s.rows|
  }

  ghost predicate Inv(s: State) {
    && WellVersioned(s.rows)
    && (forall p :: p in s.pubs ==> PublisherOk(s, s.pubs[p]))
    && (forall p, q, v: nat :: p in s.pubs && q in s.pubs && p != q && Holds(s.pubs[p], v) ==> !Holds(s.pubs[q], v))
    && (forall p, q :: p in s.pubs && q in s.pubs && p != q && s.pubs[p].Inserted? ==> !s.pubs[q].Inserted?)
  }

  lemma InsertKeeps(s: State, p: int, body: string)
    requires Inv(s) && p in s.pubs && s.pubs[p].Planned?
    ensures Inv(Step(s, Insert(p, body)))
  {
    var Planned(lock, version) := s.pubs[p];
    assert PublisherOk(s, s.pubs[p]);
    if !OtherInserted(s, p) && !(version in s.rows || CurrentClash(s, lock)) {
      if s.rows != map[] {
        assert |s.rows.Keys| > 0;
        assert |s.rows| in s.rows && s.rows[|s.rows|].current;
        assert lock == Some(|s.rows|);
      }
      assert PublisherOk(s, Inserted(lock, version, body));
    }
  }

  lemma CommitKeeps(s: State, p: int)
    requires Inv(s) && p in s.pubs && s.pubs[p].Inserted?
    ensures Inv(Step(s, Commit(p)))
  {
    var Inserted(lock, version, body) := s.pubs[p];
    assert PublisherOk(s, s.pubs[p]);
    PublishKeepsVersions(s.rows, body);
    var s' := Step(s, Commit(p));
    assert s.rows != map[] ==> |s.rows.Keys| > 0 && |s.rows| in s.rows;
    forall q | q in s'.pubs ensures PublisherOk(s', s'.pubs[q]) {
      assert PublisherOk(s, s.pubs[q]) && q != p;
      if !s.pubs[q].Waiting? && s.pubs[q].lock.Some? {
        assert Holds(s.pubs[q], |s.rows|) && Holds(s.pubs[p], |s.rows|);
        assert false;
      }
    }
  }

  lemma SelectKeeps(s: State, p: int)
    requires Inv(s)
    ensures Inv(Step(s, Select(p)))
  {
  }

  lemma WakeKeeps(s: State, p: int)
    requires Inv(s)
    ensures Inv(Step(s, Wake(p)))
  {
  }

  lemma StepKeeps(s: State, a: Action)
    requires Inv(s)
    ensures Inv(Step(s, a))
  {
    match a
    case Select(p) => SelectKeeps(s, p);
    case Wake(p) => WakeKeeps(s, p);
    case ReadMax(p) => MaxIsCount(s.rows);
    case Insert(p, body) => if p in s.pubs && s.pubs[p].Planned? { InsertKeeps(s, p, body); }
    case Commit(p) => if p in s.pubs && s.pubs[p].Inserted? { CommitKeeps(s, p); }
    case Abort(p) =>
  }

  lemma RunKeeps(s: State, acts: seq<Action>)
    requires Inv(s)
    ensures Inv(Run(Step, s, acts))
  {
    forall t, a | Inv(t) ensures Inv(Step(t, a)) { StepKeeps(t, a); }
    Invariant(Step, Inv, s, acts);
  }

  /** In every run of publishers the committed pages are versions 1..n without a gap, and the
      n-th is the current one and the only one. */
  lemma {:induction false} VersionsWithoutGaps(acts: seq<Action>)
    ensures var rows := Run(Step, INIT, acts).rows;
            && WellVersioned(rows)
            && (forall v: nat :: v in rows <==> 1 <= v <= |rows|)
            && (forall v :: v in rows ==> (rows[v].current <==> v == |rows|))
  {
    RunKeeps(INIT, acts);
  }

  /** The row a publisher that runs alone locks. */
  lemma CurrentIsLast(rows: Pages, v: nat)
    requires WellVersioned(rows)
    ensures v in rows && rows[v].current <==> rows != map[] && v == |rows|
  {
    if rows != map[] { assert |rows.Keys| > 0; }
  }

  lemma InsertedAlone(rows: Pages, p: int, body: string)
    requires WellVersioned(rows)
    ensures var lock := if rows == map[] then None else Some(|rows|);
            Run(Step, State(rows, map[]), [Select(p), ReadMax(p), Insert(p, body)]) ==
            State(rows, map[p := Inserted(lock, |rows| + 1, body)])
  {
    var s, lock := State(rows, map[]), if rows == map[] then None else Some(|rows|);
    forall v: nat ensures v in rows && rows[v].current <==> rows != map[] && v == |rows| { CurrentIsLast(rows, v); }
    MaxIsCount(rows);
    var s1 := Step(s, Select(p));
    assert s1 == State(rows, map[p := Ready(lock)]);
    var s2 := Step(s1, ReadMax(p));
    assert s2 == State(rows, map[p := Planned(lock, |rows| + 1)]);
    RunThree(Step, s, Select(p), ReadMax(p), Insert(p, body));
  }

  lemma CommitAlone(s: State, p: int)
    requires Inv(s) && s.pubs.Keys == {p} && s.pubs[p].Inserted?
    ensures var s' := Step(s, Commit(p));
            && s'.pubs == map[] && s'.rows.Keys == s.rows.Keys + {|s.rows| + 1}
            && s'.rows[|s.rows| + 1] == Page(s.pubs[p].body, true)
            && forall v :: v in s.rows ==> s'.rows[v] == Page(s.rows[v].body, false)
  {
    CommitPublishes(s, p);
    assert PublisherOk(s, s.pubs[p]);
    assert s.rows != map[] ==> |s.rows.Keys| > 0;
    assert (s.pubs - {p}).Keys == {};
  }

  /** The one-at-a-time `Publish` is the schedule select, read the maximum, insert, commit. */
  lemma PublishIsASchedule(rows: Pages, p: int, body: string, acts: seq<Action>)
    requires WellVersioned(rows) && acts == [Select(p), ReadMax(p), Insert(p, body)]
    ensures var s' := Run(Step, State(rows, map[]), acts + [Commit(p)]);
            && s'.pubs == map[] && s'.rows.Keys == rows.Keys + {|rows| + 1}
            && s'.rows[|rows| + 1] == Page(body, true)
            && forall v :: v in rows ==> s'.rows[v] == Page(rows[v].body, false)
  {
    var t := InsertAlone(rows, p, body, acts);
    CommitAlone(t, p);
    RunLast(Step, State(rows, map[]), acts, Commit(p));
  }

  lemma InsertAlone(rows: Pages, p: int, body: string, acts: seq<Action>) returns (t: State)
    requires WellVersioned(rows) && acts == [Select(p), ReadMax(p), Insert(p, body)]
    ensures t == Run(Step, State(rows, map[]), acts) && Inv(t)
    ensures t.rows == rows && t.pubs.Keys == {p} && t.pubs[p].Inserted? && t.pubs[p].body == body
  {
    RunKeeps(State(rows, map[]), acts);
    InsertedAlone(rows, p, body);
    t := Run(Step, State(rows, map[]), acts);
  }

  // ---- what the row lock does and does not do ----

  predicate PastSelect(s: State, p: int) { p in s.pubs && !s.pubs[p].Waiting? }

  /** Of two publishers that are both past their select, in whatever run, one holds no row. */
  lemma OneHoldsNoRow(acts: seq<Action>, p: int, q: int)
    ensures var s := Run(Step, INIT, acts);
            PastSelect(s, p) && PastSelect(s, q) && p != q ==> s.pubs[p].lock.None? || s.pubs[q].lock.None?
  {
    var s := Run(Step, INIT, acts);
    RunKeeps(INIT, acts);
    if PastSelect(s, p) && PastSelect(s, q) && p != q && s.pubs[p].lock.Some? && s.pubs[q].lock.Some? {
      assert PublisherOk(s, s.pubs[p]) && PublisherOk(s, s.pubs[q]);
      assert Holds(s.pubs[p], |s.rows|) && Holds(s.pubs[q], |s.rows|);
      assert false;
    }
  }

  /** The lock makes a new publisher wait exactly when another holds the current row. */
  lemma WaitsIffHeld(s: State, p: int)
    requires Inv(s) && p !in s.pubs
    ensures p in Step(s, Select(p)).pubs
    ensures Step(s, Select(p)).pubs[p].Waiting? <==> exists q :: q in s.pubs && Holds(s.pubs[q], |s.rows|)
  {
    if q :| q in s.pubs && Holds(s.pubs[q], |s.rows|) {
      assert PublisherOk(s, s.pubs[q]);
      assert |s.rows| in s.rows && LockedByOther(s, p, |s.rows|);
    }
    forall v: nat ensures v in s.rows && s.rows[v].current <==> s.rows != map[] && v == |s.rows| { CurrentIsLast(s.rows, v); }
  }

  /** With no page yet, two publishers are past their select together. */
  lemma FirstPublishersOverlap()
    ensures var s := Run(Step, INIT, [Select(1), Select(2)]);
            s.pubs == map[1 := Ready(None), 2 := Ready(None)]
  {
    RunTwo(Step, INIT, Select(1), Select(2));
  }

  lemma SelectOutcome(s: State, p: int)
    requires WellVersioned(s.rows) && s.rows != map[] && p !in s.pubs
    ensures Step(s, Select(p)) ==
            Goto(s, p, if LockedByOther(s, p, |s.rows|) then Waiting(|s.rows|) else Ready(Some(|s.rows|)))
  {
    forall v: nat ensures v in s.rows && s.rows[v].current <==> v == |s.rows| { CurrentIsLast(s.rows, v); }
    assert |s.rows| in s.rows && s.rows[|s.rows|].current;
  }

  lemma InsertOutcome(s: State, p: int, body: string)
    requires WellVersioned(s.rows) && s.rows != map[] && p in s.pubs && !OtherInserted(s, p)
    requires s.pubs[p] == Ready(Some(|s.rows|))
    ensures Step(Step(s, ReadMax(p)), Insert(p, body)) == Goto(s, p, Inserted(Some(|s.rows|), |s.rows| + 1, body))
  {
    MaxIsCount(s.rows);
    var s1 := Step(s, ReadMax(p));
    assert s1 == Goto(s, p, Planned(Some(|s.rows|), |s.rows| + 1));
    forall v: nat ensures v in s.rows && s.rows[v].current <==> v == |s.rows| { CurrentIsLast(s.rows, v); }
    assert !OtherInserted(s1, p) && !CurrentClash(s1, Some(|s.rows|));
  }

  lemma CommitOutcome(s: State, p: int)
    requires Inv(s) && s.rows != map[] && p in s.pubs && s.pubs[p].Inserted?
    ensures var s' := Step(s, Commit(p));
            s'.pubs == s.pubs - {p} && WellVersioned(s'.rows) && |s'.rows| == |s.rows| + 1
  {
    assert PublisherOk(s, s.pubs[p]);
    PublishKeepsVersions(s.rows, s.pubs[p].body);
    assert |s.rows.Keys| > 0;
  }

  /** Two publishers of which one queues behind the other's lock. */
  lemma QueuedBehind(rows: Pages, p: int, q: int, body: string)
    requires WellVersioned(rows) && rows != map[] && p != q
    ensures Run(Step, State(rows, map[]), [Select(p), Select(q), ReadMax(p), Insert(p, body)]) ==
            State(rows, map[p := Inserted(Some(|rows|), |rows| + 1, body), q := Waiting(|rows|)])
  {
    var s := State(rows, map[]);
    SelectOutcome(s, p);
    var s1 := Step(s, Select(p));
    assert Holds(s1.pubs[p], |rows|);
    SelectOutcome(s1, q);
    var s2 := Step(s1, Select(q));
    InsertOutcome(s2, p, body);
    RunFour(Step, s, Select(p), Select(q), ReadMax(p), Insert(p, body));
  }

  /** When it wakes the row is no longer current, so it gets none, while a newcomer gets the new
      row. */
  lemma WokenWithoutRow(s: State, p: int, q: int, r: int)
    requires Inv(s) && s.rows != map[] && s.pubs.Keys == {p, q} && p != q && r !in s.pubs
    requires s.pubs[p].Inserted? && s.pubs[q] == Waiting(|s.rows|)
    ensures var s' := Run(Step, s, [Commit(p), Wake(q), Select(r)]);
            |s'.rows| == |s.rows| + 1 && s'.pubs == map[q := Ready(None), r := Ready(Some(|s'.rows|))]
  {
    CommitOutcome(s, p);
    var s1 := Step(s, Commit(p));
    CurrentIsLast(s1.rows, |s.rows|);
    var s2 := Step(s1, Wake(q));
    assert s2 == Goto(s1, q, Ready(None));
    SelectOutcome(s2, r);
    RunThree(Step, s, Commit(p), Wake(q), Select(r));
  }

  /** A current row all along does not prevent it either, whatever was published before. */
  lemma QueuedPublisherOverlaps(rows: Pages, p: int, q: int, r: int, body: string)
    requires WellVersioned(rows) && rows != map[] && p != q && r != p && r != q
    ensures var acts := [Select(p), Select(q), ReadMax(p), Insert(p, body)] + [Commit(p), Wake(q), Select(r)];
            var s' := Run(Step, State(rows, map[]), acts);
            s'.pubs == map[q := Ready(None), r := Ready(Some(|rows| + 1))] && Doomed(s', q)
  {
    var s := State(rows, map[]);
    var first, second := [Select(p), Select(q), ReadMax(p), Insert(p, body)], [Commit(p), Wake(q), Select(r)];
    RunKeeps(s, first);
    QueuedBehind(rows, p, q, body);
    WokenWithoutRow(Run(Step, s, first), p, q, r);
    Concat(Step, s, first, second);
  }

  // ---- who can still commit ----

  /** There is a page, and the publisher waits for a row that is no longer the current one, or is
      past its select without a row. */
  predicate Doomed(s: State, p: int)
    requires p in s.pubs
  {
    s.rows != map[] && match s.pubs[p]
      case Waiting(seen) => seen != |s.rows|
      case Ready(lock) => lock.None?
      case Planned(lock, _) => lock.None?
      case Inserted(_, _, _) => false
  }

  /** This publisher, not a later one of the same name, commits during the run. */
  ghost predicate Commits(s: State, acts: seq<Action>, p: int)
    decreases |acts|
  {
    acts != [] && p in s.pubs &&
    ((acts[0] == Commit(p) && s.pubs[p].Inserted?) || Commits(Step(s, acts[0]), acts[1..], p))
  }

  /** A commit dooms every other publisher in flight. */
  lemma CommitDoomsTheRest(s: State, p: int, q: int)
    requires Inv(s) && p in s.pubs && s.pubs[p].Inserted? && q in s.pubs && q != p
    ensures q in Step(s, Commit(p)).pubs && Doomed(Step(s, Commit(p)), q)
  {
    assert PublisherOk(s, s.pubs[p]) && PublisherOk(s, s.pubs[q]);
    PublishKeepsVersions(s.rows, s.pubs[p].body);
    if !s.pubs[q].Waiting? && s.pubs[q].lock.Some? {
      assert Holds(s.pubs[q], |s.rows|) && Holds(s.pubs[p], |s.rows|);
      assert false;
    }
  }

  lemma DoomedStays(s: State, a: Action, p: int)
    requires Inv(s) && p in s.pubs && Doomed(s, p)
    ensures p in Step(s, a).pubs ==> Doomed(Step(s, a), p)
  {
    assert PublisherOk(s, s.pubs[p]);
    if a.Commit? && a.p in s.pubs && s.pubs[a.p].Inserted? && a.p != p {
      CommitDoomsTheRest(s, a.p, p);
    } else if a == Wake(p) {
      assert s.pubs[p].Waiting? ==> !s.rows[s.pubs[p].seen].current;
    } else if a.Insert? && a.p == p {
      assert |s.rows.Keys| > 0;
      assert |s.rows| in s.rows && s.rows[|s.rows|].current;
    }
  }

  lemma {:induction false} DoomedNeverCommits(s: State, acts: seq<Action>, p: int)
    requires Inv(s) && p in s.pubs && Doomed(s, p)
    ensures !Commits(s, acts, p)
    decreases |acts|
  {
    if acts != [] {
      StepKeeps(s, acts[0]);
      DoomedStays(s, acts[0], p);
      if p in Step(s, acts[0]).pubs { DoomedNeverCommits(Step(s, acts[0]), acts[1..], p); }
    }
  }

  function Left(pub: Publisher): nat {
    match pub
    case Waiting(_) => 3
    case Ready(_) => 2
    case Planned(_, _) => 1
    case Inserted(_, _, _) => 0
  }

  /** What a publisher alone in flight does next. */
  function Next(pub: Publisher, p: int): Action {
    match pub
    case Waiting(_) => Wake(p)
    case Ready(_) => ReadMax(p)
    case Planned(_, _) => Insert(p, "")
    case Inserted(_, _, _) => Commit(p)
  }

  lemma NextAdvances(s: State, p: int)
    requires Inv(s) && p in s.pubs && !Doomed(s, p) && (forall q :: q in s.pubs ==> q == p) && !s.pubs[p].Inserted?
    ensures var s' := Step(s, Next(s.pubs[p], p));
            p in s'.pubs && s'.pubs.Keys == s.pubs.Keys && Left(s'.pubs[p]) < Left(s.pubs[p]) && !Doomed(s', p)
  {
    assert PublisherOk(s, s.pubs[p]);
    if s.rows != map[] { assert |s.rows.Keys| > 0; }
  }

  lemma {:induction false} OthersGiveUp(s: State, p: int) returns (acts: seq<Action>)
    requires Inv(s) && p in s.pubs && !Doomed(s, p)
    ensures Commits(s, acts, p)
    decreases |s.pubs|, Left(s.pubs[p])
  {
    if q :| q in s.pubs && q != p {
      var s' := Step(s, Abort(q));
      StepKeeps(s, Abort(q));
      assert s.pubs.Keys == s'.pubs.Keys + {q};
      var rest := OthersGiveUp(s', p);
      acts := [Abort(q)] + rest;
      assert acts[1..] == rest;
    } else if s.pubs[p].Inserted? {
      acts := [Commit(p)];
    } else {
      var a := Next(s.pubs[p], p);
      StepKeeps(s, a);
      NextAdvances(s, p);
      assert |Step(s, a).pubs.Keys| == |s.pubs.Keys|;
      var rest := OthersGiveUp(Step(s, a), p);
      acts := [a] + rest;
      assert acts[1..] == rest;
    }
  }

  ghost predicate CanCommit(s: State, p: int) { exists acts :: Commits(s, acts, p) }

  lemma CanCommitIffNotDoomed(s: State, p: int)
    requires Inv(s) && p in s.pubs
    ensures CanCommit(s, p) <==> !Doomed(s, p)
  {
    if Doomed(s, p) {
      forall acts ensures !Commits(s, acts, p) { DoomedNeverCommits(s, acts, p); }
    } else {
      var acts := OthersGiveUp(s, p);
    }
  }

  /** A publisher in flight can still commit if and only if it is not doomed, in every reachable
      state; since a commit dooms all others, of those in flight together one commits at most. */
  lemma CommitsIffNotDoomed(before: seq<Action>, p: int)
    ensures var s := Run(Step, INIT, before);
            p in s.pubs ==> (CanCommit(s, p) <==> !Doomed(s, p))
  {
    var s := Run(Step, INIT, before);
    RunKeeps(INIT, before);
    if p in s.pubs { CanCommitIffNotDoomed(s, p); }
  }

  /** An insert that clashes with a committed page, by version or by being current, fails, but not while
      another publisher still holds the current row: it waits for that one to end. */
  lemma ClashingInsert(s: State, p: int, body: string, v: nat)
    requires Inv(s) && p in s.pubs && s.pubs[p].Planned? && !OtherInserted(s, p)
    requires v in s.rows && (v == s.pubs[p].version || (s.rows[v].current && s.pubs[p].lock != Some(v)))
    ensures Step(s, Insert(p, body)) ==
            if exists q :: q in s.pubs && q != p && !s.pubs[q].Waiting? && s.pubs[q].lock == Some(|s.rows|)
            then s else s.(pubs := s.pubs - {p})
  {
    forall w: nat ensures w in s.rows && s.rows[w].current <==> s.rows != map[] && w == |s.rows| { CurrentIsLast(s.rows, w); }
    assert |s.rows.Keys| > 0 && |s.rows| in s.rows;
    assert v == s.pubs[p].version ==> s.pubs[p].version in s.rows;
    assert LockedByOther(s, p, |s.rows|) <==> exists q :: q in s.pubs && q != p && !s.pubs[q].Waiting? && s.pubs[q].lock == Some(|s.rows|);
  }

  /** What a publisher inserted is what its commit publishes, as the next version and the current one. */
  lemma CommitPublishes(s: State, p: int)
    requires Inv(s) && p in s.pubs && s.pubs[p].Inserted?
    ensures var rows' := Step(s, Commit(p)).rows;
            && rows'.Keys == s.rows.Keys + {|s.rows| + 1} && rows'[|s.rows| + 1] == Page(s.pubs[p].body, true)
            && forall v :: v in s.rows ==> rows'[v] == Page(s.rows[v].body, false)
  {
    assert PublisherOk(s, s.pubs[p]);
    if s.rows != map[] {
      assert |s.rows.Keys| > 0;
      forall v: nat ensures v in s.rows && s.rows[v].current <==> v == |s.rows| { CurrentIsLast(s.rows, v); }
    }
  }

  lemma InsertCarriesBody(s: State, p: int, body: string)
    requires p in s.pubs && s.pubs[p].Planned?
    ensures var s' := Step(s, Insert(p, body)); p in s'.pubs && s'.pubs[p].Inserted? ==> s'.pubs[p].body == body
  {
  }

  /** No run of publishers changes or removes a published version's body. */
  lemma {:induction false} BodiesNeverChange(s: State, acts: seq<Action>, v: nat)
    requires Inv(s) && v in s.rows
    ensures var s' := Run(Step, s, acts); v in s'.rows && s'.rows[v].body == s.rows[v].body
    decreases |acts|
  {
    if acts != [] {
      var s1 := Step(s, acts[0]);
      StepKeeps(s, acts[0]);
      assert v in s1.rows && s1.rows[v].body == s.rows[v].body by {
        if acts[0].Commit? && acts[0].p in s.pubs { assert PublisherOk(s, s.pubs[acts[0].p]); }
      }
      BodiesNeverChange(s1, acts[1..], v);
    }
  }
}
