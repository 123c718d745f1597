/** Monthly partitions of the raw event table: creating ahead, pruning behind, and the names that
    carry the bounds. */
module Partitions {
  import opened Options
  import opened Runs
  import opened Months

  const RAW_RETENTION_DAYS := 90
  const LOOKAHEAD_MONTHS := 3

  // ---- the partitions ----

  type Partitions = map<string, (int, int)>

  /** Where months start, how they are named, and what a name says of its upper bound. */
  datatype Calendar = Calendar(firstDay: nat -> int, nameOf: nat -> string, endOf: string -> Option<int>)

  const CALENDAR := Calendar(FirstDay, NameOf, PartitionMonthEnd)

  /** All the maintenance relies on: months follow one another, and a name parses back to its
      month's upper bound. */
  ghost predicate Agree(cal: Calendar) {
    && (forall k: nat :: Follows(cal, k))
    && (forall k: nat :: k < LAST_MONTH ==> ParsesBack(cal, k))
  }

  predicate Follows(cal: Calendar, k: nat) { cal.firstDay(k) < cal.firstDay(k + 1) }

  predicate ParsesBack(cal: Calendar, k: nat) { cal.endOf(cal.nameOf(k)) == Some(cal.firstDay(k + 1)) }

  lemma {:induction false} CalendarAgrees()
    ensures Agree(CALENDAR)
  {
    forall k: nat ensures Follows(CALENDAR, k) { MonthFollows(k); }
    forall k: nat | k < LAST_MONTH ensures ParsesBack(CALENDAR, k) { NameParsesBack(k); }
  }

  lemma {:induction false} MonthsFollow(cal: Calendar, j: nat, k: nat)
    requires Agree(cal) && j <= k
    ensures cal.firstDay(j) <= cal.firstDay(k) && (j < k ==> cal.firstDay(j) < cal.firstDay(k))
    decreases k
  {
    if j < k {
      MonthsFollow(cal, j, k - 1);
      assert Follows(cal, k - 1);
    }
  }

  predicate InMonth(cal: Calendar, day: int, k: nat) { cal.firstDay(k) <= day < cal.firstDay(k + 1) }

  lemma {:induction false} OneMonthPerDay(cal: Calendar, day: int, j: nat, k: nat)
    requires Agree(cal) && InMonth(cal, day, j) && InMonth(cal, day, k)
    ensures j == k
  {
    if j < k { MonthsFollow(cal, j + 1, k); }
    if k < j { MonthsFollow(cal, k + 1, j); }
  }

  lemma {:induction false} NamesAreDistinct(cal: Calendar, j: nat, k: nat)
    requires Agree(cal) && j < LAST_MONTH && k < LAST_MONTH && cal.nameOf(j) == cal.nameOf(k)
    ensures j == k
  {
    assert ParsesBack(cal, j) && ParsesBack(cal, k);
    if j < k { MonthsFollow(cal, j + 1, k + 1); }
    if k < j { MonthsFollow(cal, k + 1, j + 1); }
  }

  predicate Holds(range: (int, int), day: int) { range.0 <= day < range.1 }

  function Range(cal: Calendar, k: nat): (int, int) { (cal.firstDay(k), cal.firstDay(k + 1)) }

  ghost predicate IsMonth(cal: Calendar, parts: Partitions, name: string, k: nat)
    requires name in parts
  {
    k < LAST_MONTH && name == cal.nameOf(k) && parts[name] == Range(cal, k)
  }

  /** Each partition is one whole month under that month's name. */
  ghost predicate Monthly(cal: Calendar, parts: Partitions) {
    forall name :: name in parts ==> exists k: nat :: IsMonth(cal, parts, name, k)
  }

  lemma {:induction false} MonthlyIsDisjoint(cal: Calendar, parts: Partitions, a: string, b: string, day: int)
    requires Agree(cal) && Monthly(cal, parts) && a in parts && b in parts && Holds(parts[a], day) && Holds(parts[b], day)
    ensures a == b
  {
    var j: nat :| IsMonth(cal, parts, a, j);
    var k: nat :| IsMonth(cal, parts, b, k);
    OneMonthPerDay(cal, day, j, k);
  }

  /** The month `k` created if it is missing. */
  function Add(cal: Calendar, parts: Partitions, k: nat): Partitions {
    if cal.nameOf(k) in parts then parts else parts[cal.nameOf(k) := Range(cal, k)]
  }

  /** `n` months from `k` on, those that are missing created. */
  function Ensured(cal: Calendar, parts: Partitions, k: nat, n: nat): Partitions {
    if n == 0 then parts else Add(cal, Ensured(cal, parts, k, n - 1), k + n - 1)
  }

  ghost predicate Keeps(before: Partitions, after: Partitions) {
    forall name :: name in before ==> name in after && after[name] == before[name]
  }

  predicate HasMonth(cal: Calendar, parts: Partitions, k: nat) {
    cal.nameOf(k) in parts && parts[cal.nameOf(k)] == Range(cal, k)
  }

  lemma {:induction false} AddIsMonthly(cal: Calendar, parts: Partitions, k: nat)
    requires Monthly(cal, parts) && k < LAST_MONTH
    ensures Monthly(cal, Add(cal, parts, k)) && Keeps(parts, Add(cal, parts, k))
  {
    var parts' := Add(cal, parts, k);
    forall name | name in parts' ensures exists i: nat :: IsMonth(cal, parts', name, i) {
      if name in parts {
        var i: nat :| IsMonth(cal, parts, name, i);
        assert IsMonth(cal, parts', name, i);
      } else {
        assert IsMonth(cal, parts', name, k);
      }
    }
  }

  /** The month is there under its name, whether it was before or has just been created. */
  lemma {:induction false} AddedIsThere(cal: Calendar, parts: Partitions, k: nat)
    requires Agree(cal) && Monthly(cal, parts) && k < LAST_MONTH
    ensures HasMonth(cal, Add(cal, parts, k), k)
  {
    if cal.nameOf(k) in parts {
      var j: nat :| IsMonth(cal, parts, cal.nameOf(k), j);
      NamesAreDistinct(cal, k, j);
    }
  }

  lemma KeepsOn(a: Partitions, b: Partitions, c: Partitions)
    requires Keeps(a, b) && Keeps(b, c)
    ensures Keeps(a, c)
  {
  }

  lemma {:induction false} EnsuredStaysMonthly(cal: Calendar, parts: Partitions, k: nat, n: nat)
    requires Monthly(cal, parts) && k + n <= LAST_MONTH
    ensures Monthly(cal, Ensured(cal, parts, k, n))
  {
    if n > 0 {
      EnsuredStaysMonthly(cal, parts, k, n - 1);
      AddIsMonthly(cal, Ensured(cal, parts, k, n - 1), k + n - 1);
    }
  }

  lemma {:induction false} EnsuredKeeps(cal: Calendar, parts: Partitions, k: nat, n: nat)
    ensures Keeps(parts, Ensured(cal, parts, k, n))
  {
    if n > 0 {
      EnsuredKeeps(cal, parts, k, n - 1);
      KeepsOn(parts, Ensured(cal, parts, k, n - 1), Add(cal, Ensured(cal, parts, k, n - 1), k + n - 1));
    }
  }

  lemma {:induction false} EnsuredIsMonthly(cal: Calendar, parts: Partitions, k: nat, n: nat)
    requires Monthly(cal, parts) && k + n <= LAST_MONTH
    ensures Monthly(cal, Ensured(cal, parts, k, n)) && Keeps(parts, Ensured(cal, parts, k, n))
  {
    EnsuredStaysMonthly(cal, parts, k, n);
    EnsuredKeeps(cal, parts, k, n);
  }

  lemma {:induction false} EnsuredCovers(cal: Calendar, parts: Partitions, k: nat, n: nat, i: nat)
    requires Agree(cal) && Monthly(cal, parts) && k + n <= LAST_MONTH && i < n
    ensures HasMonth(cal, Ensured(cal, parts, k, n), k + i)
    decreases n
  {
    EnsuredIsMonthly(cal, parts, k, n - 1);
    var before := Ensured(cal, parts, k, n - 1);
    if i < n - 1 {
      EnsuredCovers(cal, parts, k, n - 1, i);
      AddIsMonthly(cal, before, k + n - 1);
    } else {
      AddedIsThere(cal, before, k + i);
    }
  }

  predicate Expired(cal: Calendar, name: string, cutoff: int) {
    cal.endOf(name).Some? && cal.endOf(name).value <= cutoff
  }

  function Pruned(cal: Calendar, parts: Partitions, cutoff: int): Partitions {
    map name | name in parts && !Expired(cal, name, cutoff) :: parts[name]
  }

  ghost predicate IsOneOf(cal: Calendar, k: nat, n: nat, name: string) {
    exists j: nat :: k <= j < k + n && name == cal.nameOf(j)
  }

  ghost predicate Created(cal: Calendar, k: nat, n: nat, created: seq<string>) {
    forall name :: name in created ==> IsOneOf(cal, k, n, name)
  }

  /** `created` lists exactly the partitions that were not there before; none has gone. */
  ghost predicate NewNames(before: Partitions, after: Partitions, created: seq<string>) {
    && before.Keys <= after.Keys
    && forall name :: name in created <==> name in after && name !in before
  }

  /** A month not there at the start is not there yet when its turn comes. */
  lemma {:induction false} NotYetCreated(cal: Calendar, k: nat, i: nat, created: seq<string>)
    requires Agree(cal) && k + i < LAST_MONTH
    requires Created(cal, k, i, created)
    ensures cal.nameOf(k + i) !in created
    ensures Created(cal, k, i + 1, created) && Created(cal, k, i + 1, created + [cal.nameOf(k + i)])
  {
    if cal.nameOf(k + i) in created {
      var j: nat :| k <= j < k + i && cal.nameOf(k + i) == cal.nameOf(j);
      NamesAreDistinct(cal, k + i, j);
    }
    assert IsOneOf(cal, k, i + 1, cal.nameOf(k + i));
  }

  class AnalyticsPartitions {
    const cal: Calendar
    const months: nat
    var parts: Partitions

    constructor ()
      ensures cal == CALENDAR && months == 4 && parts == map[]
    {
      cal, months, parts := CALENDAR, LOOKAHEAD_MONTHS + 1, map[];
    }

    /** `k` is the month of `now`. The whole run fails, and is rolled back, when a bound would lie
        past the last representable date. */
    method EnsurePartitions(k: nat) returns (ok: bool, created: seq<string>)
      requires Agree(cal) && Monthly(cal, parts)
      modifies this
      ensures ok <==> k + months <= 9999 * 12 - 1 || months == 0
      ensures parts == if ok then Ensured(cal, old(parts), k, months) else old(parts)
      ensures NewNames(old(parts), parts, created)
    {
      var existing, txn := parts, parts;
      created := [];
      for i := 0 to months
        invariant i > 0 ==> k + i <= LAST_MONTH
        invariant parts == existing == old(parts) && txn == Ensured(cal, existing, k, i)
        invariant NewNames(existing, txn, created) && Created(cal, k, i, created)
      {
        if k + i >= LAST_MONTH { return false, []; }
        NotYetCreated(cal, k, i, created);
        var name := cal.nameOf(k + i);
        if name !in existing {
          txn := txn[name := Range(cal, k + i)];
          created := created + [name];
        }
      }
      parts := txn;
      ok := true;
    }

    method PruneRawEvents(today: int) returns (dropped: set<string>)
      modifies this
      ensures parts == Pruned(cal, old(parts), today - 90)
      ensures dropped == old(parts).Keys - parts.Keys
    {
      var cutoff := today - RAW_RETENTION_DAYS;
      var existing := parts.Keys;
      dropped := {};
      while existing != {}
        invariant existing <= old(parts).Keys && dropped <= old(parts).Keys && existing !! dropped
        invariant forall name :: name in old(parts) && name !in existing ==> (name in dropped <==> Expired(cal, name, cutoff))
        invariant parts == old(parts) - dropped
        decreases |existing|
      {
        var name :| name in existing;
        existing := existing - {name};
        if Expired(cal, name, cutoff) {
          parts := parts - {name};
          dropped := dropped + {name};
        }
      }
    }
  }

  // ---- whole runs ----

  datatype State = State(cal: Calendar, months: nat, clock: int, parts: Partitions)

  /** Maintenance `elapsed` days after the previous one; `k` is the month it then is. */
  datatype Action = Ensure(elapsed: nat, k: nat) | Prune(elapsed: nat)

  function Step(s: State, a: Action): State {
    var now := s.clock + a.elapsed;
    match a
    case Ensure(_, k) =>
      if InMonth(s.cal, now, k) && k + s.months <= LAST_MONTH
      then s.(clock := now, parts := Ensured(s.cal, s.parts, k, s.months)) else s.(clock := now)
    case Prune(_) => s.(clock := now, parts := Pruned(s.cal, s.parts, now - RAW_RETENTION_DAYS))
  }

  lemma {:induction false} StepKeepsMonthly(s: State, a: Action)
    requires Monthly(s.cal, s.parts)
    ensures Monthly(s.cal, Step(s, a).parts) && Step(s, a).cal == s.cal
  {
    match a
    case Ensure(_, k) => if k + s.months <= LAST_MONTH { EnsuredIsMonthly(s.cal, s.parts, k, s.months); }
    case Prune(_) => PrunedIsMonthly(s.cal, s.parts, s.clock + a.elapsed - RAW_RETENTION_DAYS);
  }

  lemma {:induction false} PrunedIsMonthly(cal: Calendar, parts: Partitions, cutoff: int)
    requires Monthly(cal, parts)
    ensures Monthly(cal, Pruned(cal, parts, cutoff))
  {
    var parts' := Pruned(cal, parts, cutoff);
    forall name | name in parts' ensures exists i: nat :: IsMonth(cal, parts', name, i) {
      var i: nat :| IsMonth(cal, parts, name, i);
      assert IsMonth(cal, parts', name, i);
    }
  }

  lemma {:induction false} RunKeepsMonthly(s: State, acts: seq<Action>)
    requires Monthly(s.cal, s.parts)
    ensures Monthly(s.cal, Run(Step, s, acts).parts) && Run(Step, s, acts).cal == s.cal
  {
    var inv := (t: State) => t.cal == s.cal && Monthly(t.cal, t.parts);
    forall t, a | inv(t) ensures inv(Step(t, a)) { StepKeepsMonthly(t, a); }
    Invariant(Step, inv, s, acts);
  }

  ghost predicate Covered(parts: Partitions, day: int) {
    exists name :: name in parts && Holds(parts[name], day)
  }

  /** Over any run, starting from whole-month partitions, no day lies in two partitions. */
  lemma {:induction false} PartitionsStayDisjoint(s: State, acts: seq<Action>, a: string, b: string, day: int)
    requires Agree(s.cal) && Monthly(s.cal, s.parts)
    ensures var parts := Run(Step, s, acts).parts;
            a in parts && b in parts && Holds(parts[a], day) && Holds(parts[b], day) ==> a == b
  {
    RunKeepsMonthly(s, acts);
    var parts := Run(Step, s, acts).parts;
    if a in parts && b in parts && Holds(parts[a], day) && Holds(parts[b], day) {
      MonthlyIsDisjoint(s.cal, parts, a, b, day);
    }
  }

  lemma {:induction false} MonthOfDay(cal: Calendar, day: int, k: nat, n: nat) returns (i: nat)
    requires cal.firstDay(k) <= day < cal.firstDay(k + n)
    ensures i < n && InMonth(cal, day, k + i)
    decreases n
  {
    assert n > 0;
    if day >= cal.firstDay(k + (n - 1)) { i := n - 1; } else { i := MonthOfDay(cal, day, k, n - 1); }
  }

  ghost predicate CoveredOnce(parts: Partitions, day: int) {
    exists name :: name in parts && Holds(parts[name], day) && HeldOnlyBy(parts, day, name)
  }

  ghost predicate HeldOnlyBy(parts: Partitions, day: int, name: string) {
    forall other :: other in parts && Holds(parts[other], day) ==> other == name
  }

  lemma {:induction false} OnceCovered(cal: Calendar, parts: Partitions, k: nat, day: int)
    requires Agree(cal) && Monthly(cal, parts) && HasMonth(cal, parts, k) && InMonth(cal, day, k)
    ensures CoveredOnce(parts, day)
  {
    var name := cal.nameOf(k);
    assert Holds(parts[name], day);
    forall other | other in parts && Holds(parts[other], day) ensures other == name {
      MonthlyIsDisjoint(cal, parts, other, name, day);
    }
    assert HeldOnlyBy(parts, day, name);
  }

  /** After creating `n` months from this one on, every day of those months has just one partition. The
      code creates this month and the three after it. */
  lemma {:induction false} EnsureCoversAhead(cal: Calendar, parts: Partitions, k: nat, n: nat, day: int)
    requires Agree(cal) && Monthly(cal, parts) && k + n <= LAST_MONTH
    requires cal.firstDay(k) <= day < cal.firstDay(k + n)
    ensures CoveredOnce(Ensured(cal, parts, k, n), day)
  {
    var i := MonthOfDay(cal, day, k, n);
    EnsuredCovers(cal, parts, k, n, i);
    EnsuredIsMonthly(cal, parts, k, n);
    OnceCovered(cal, Ensured(cal, parts, k, n), k + i, day);
  }

  /** A partition is dropped exactly when its every day lies before the cutoff. */
  lemma {:induction false} PruneDropsOnlyTheOld(cal: Calendar, parts: Partitions, cutoff: int, name: string)
    requires Agree(cal) && Monthly(cal, parts) && name in parts
    ensures name !in Pruned(cal, parts, cutoff) <==> forall day :: Holds(parts[name], day) ==> day < cutoff
    ensures name in Pruned(cal, parts, cutoff) ==> Pruned(cal, parts, cutoff)[name] == parts[name]
  {
    var k: nat :| IsMonth(cal, parts, name, k);
    assert Follows(cal, k) && ParsesBack(cal, k);
    assert Holds(parts[name], cal.firstDay(k + 1) - 1);
  }

  lemma {:induction false} KeptIsCovered(before: Partitions, after: Partitions, day: int)
    requires Covered(before, day)
    requires forall name :: name in before && Holds(before[name], day) ==> name in after && after[name] == before[name]
    ensures Covered(after, day)
  {
    var name :| name in before && Holds(before[name], day);
    assert name in after && Holds(after[name], day);
  }

  lemma {:induction false} EnsureKeepsAll(cal: Calendar, parts: Partitions, k: nat, n: nat, day: int)
    requires Monthly(cal, parts) && Covered(parts, day) && k + n <= LAST_MONTH
    ensures Covered(Ensured(cal, parts, k, n), day)
  {
    EnsuredIsMonthly(cal, parts, k, n);
    KeptIsCovered(parts, Ensured(cal, parts, k, n), day);
  }

  lemma {:induction false} PruneKeepsRecent(cal: Calendar, parts: Partitions, cutoff: int, day: int)
    requires Agree(cal) && Monthly(cal, parts) && Covered(parts, day) && cutoff <= day
    ensures Covered(Pruned(cal, parts, cutoff), day)
  {
    forall name | name in parts && Holds(parts[name], day)
      ensures name in Pruned(cal, parts, cutoff) && Pruned(cal, parts, cutoff)[name] == parts[name]
    {
      PruneDropsOnlyTheOld(cal, parts, cutoff, name);
    }
    KeptIsCovered(parts, Pruned(cal, parts, cutoff), day);
  }

  lemma {:induction false} EnsureKeepsRecent(s: State, elapsed: nat, k: nat, day: int)
    requires Monthly(s.cal, s.parts) && Covered(s.parts, day)
    ensures Covered(Step(s, Ensure(elapsed, k)).parts, day)
  {
    if k + s.months <= LAST_MONTH { EnsureKeepsAll(s.cal, s.parts, k, s.months, day); }
  }

  lemma {:induction false} PruneStepKeepsRecent(s: State, elapsed: nat, day: int)
    requires Agree(s.cal) && Monthly(s.cal, s.parts) && Covered(s.parts, day)
    requires day >= s.clock + elapsed - RAW_RETENTION_DAYS
    ensures Covered(Step(s, Prune(elapsed)).parts, day)
  {
    PruneKeepsRecent(s.cal, s.parts, s.clock + elapsed - RAW_RETENTION_DAYS, day);
  }

  lemma {:induction false} StepKeepsRecent(s: State, a: Action, day: int)
    requires Agree(s.cal) && Monthly(s.cal, s.parts) && Covered(s.parts, day) && day >= s.clock + a.elapsed - RAW_RETENTION_DAYS
    ensures Covered(Step(s, a).parts, day)
  {
    match a
    case Ensure(elapsed, k) => EnsureKeepsRecent(s, elapsed, k, day);
    case Prune(elapsed) => PruneStepKeepsRecent(s, elapsed, day);
  }

  /** A day once covered stays covered, whatever maintenance runs, until it is 90 days old. */
  lemma {:induction false} RecentDaysStayCovered(s: State, acts: seq<Action>, day: int)
    requires Agree(s.cal) && Monthly(s.cal, s.parts) && Covered(s.parts, day)
    ensures s.clock <= Run(Step, s, acts).clock
    ensures day >= Run(Step, s, acts).clock - 90 ==> Covered(Run(Step, s, acts).parts, day)
    decreases |acts|
  {
    if acts != [] {
      var s1 := Step(s, acts[0]);
      StepKeepsMonthly(s, acts[0]);
      ClockRuns(s1, acts[1..]);
      if day >= s1.clock - RAW_RETENTION_DAYS {
        StepKeepsRecent(s, acts[0], day);
        RecentDaysStayCovered(s1, acts[1..], day);
      }
    }
  }

  lemma {:induction false} ClockRuns(s: State, acts: seq<Action>)
    ensures s.clock <= Run(Step, s, acts).clock
    decreases |acts|
  {
    if acts != [] { ClockRuns(Step(s, acts[0]), acts[1..]); }
  }

  // ---- in plain terms ----

  /** What the results start from: every partition is a month before December 9999 under its name. An
      empty table is a start. */
  lemma {:induction false} MonthlyInPlainTerms(cal: Calendar, parts: Partitions)
    ensures Monthly(cal, parts) <==>
            forall name :: name in parts ==>
              exists k: nat :: k < 9999 * 12 - 1 && name == cal.nameOf(k) && parts[name] == (cal.firstDay(k), cal.firstDay(k + 1))
    ensures Monthly(cal, map[])
  {
    if Monthly(cal, parts) {
      forall name | name in parts
        ensures exists k: nat :: k < 9999 * 12 - 1 && name == cal.nameOf(k) && parts[name] == (cal.firstDay(k), cal.firstDay(k + 1))
      {
        var k: nat :| IsMonth(cal, parts, name, k);
        assert name == cal.nameOf(k) && parts[name] == (cal.firstDay(k), cal.firstDay(k + 1));
      }
    }
    forall name, k: nat | name in parts && k < LAST_MONTH && name == cal.nameOf(k) && parts[name] == (cal.firstDay(k), cal.firstDay(k + 1))
      ensures IsMonth(cal, parts, name, k) {}
  }

  lemma {:induction false} EnsuredAddsOnly(cal: Calendar, parts: Partitions, k: nat, n: nat, name: string)
    requires name in Ensured(cal, parts, k, n)
    ensures (name in parts && Ensured(cal, parts, k, n)[name] == parts[name]) ||
            exists j: nat :: k <= j < k + n && name == cal.nameOf(j) &&
                             Ensured(cal, parts, k, n)[name] == (cal.firstDay(j), cal.firstDay(j + 1))
    decreases n
  {
    if n > 0 {
      var before := Ensured(cal, parts, k, n - 1);
      if name in before {
        EnsuredAddsOnly(cal, parts, k, n - 1, name);
      } else {
        var j := k + (n - 1);
        assert name == cal.nameOf(j) && Ensured(cal, parts, k, n)[name] == (cal.firstDay(j), cal.firstDay(j + 1));
      }
    }
  }

  /** After the maintenance in month `k`, from partitions that are whole months, each day of the `n`
      months from then on lies in exactly one partition, and every partition was there before or is
      one of those months under its name. */
  lemma {:induction false} EnsureInPlainTerms(cal: Calendar, parts: Partitions, k: nat, n: nat, day: int, name: string)
    returns (mine: string)
    requires Agree(cal) && Monthly(cal, parts) && k + n <= LAST_MONTH
    requires cal.firstDay(k) <= day < cal.firstDay(k + n)
    ensures var after := Ensured(cal, parts, k, n);
            && mine in after && after[mine].0 <= day < after[mine].1
            && (name in after && after[name].0 <= day < after[name].1 ==> name == mine)
            && (name in after ==>
                  (name in parts && after[name] == parts[name]) ||
                  exists j: nat :: k <= j < k + n && name == cal.nameOf(j) && after[name] == (cal.firstDay(j), cal.firstDay(j + 1)))
  {
    EnsureCoversAhead(cal, parts, k, n, day);
    var after := Ensured(cal, parts, k, n);
    mine :| mine in after && Holds(after[mine], day) && HeldOnlyBy(after, day, mine);
    if name in after { EnsuredAddsOnly(cal, parts, k, n, name); }
  }

  /** A partition survives exactly while some day of it is not before the cutoff, and unchanged. */
  lemma {:induction false} PruneInPlainTerms(cal: Calendar, parts: Partitions, cutoff: int, name: string)
    requires Agree(cal) && Monthly(cal, parts) && name in parts
    ensures name in Pruned(cal, parts, cutoff) <==> parts[name].0 < parts[name].1 && cutoff < parts[name].1
    ensures name in Pruned(cal, parts, cutoff) ==> Pruned(cal, parts, cutoff)[name] == parts[name]
  {
    var k: nat :| IsMonth(cal, parts, name, k);
    assert Follows(cal, k) && ParsesBack(cal, k);
  }

  /** The days a run keeps, spelled out: a day some partition holds is held by some partition until it
      is 90 days old. */
  lemma {:induction false} RecentInPlainTerms(s: State, acts: seq<Action>, day: int, name: string) returns (holder: string)
    requires Agree(s.cal) && Monthly(s.cal, s.parts) && name in s.parts && s.parts[name].0 <= day < s.parts[name].1
    ensures var s' := Run(Step, s, acts);
            day >= s'.clock - 90 ==> holder in s'.parts && s'.parts[holder].0 <= day < s'.parts[holder].1
  {
    assert Holds(s.parts[name], day);
    RecentDaysStayCovered(s, acts, day);
    var s' := Run(Step, s, acts);
    holder := "";
    if day >= s'.clock - 90 {
      assert Covered(s'.parts, day);
      holder :| holder in s'.parts && Holds(s'.parts[holder], day);
    }
  }

  /** After any run, creating ahead in the month it then is leaves each day of that month and the ones
      ahead in exactly one partition, as the job on its own does. */
  lemma {:induction false} EnsureAfterAnyRun(s: State, acts: seq<Action>, elapsed: nat, k: nat, day: int, other: string) returns (mine: string)
    requires Agree(s.cal) && Monthly(s.cal, s.parts)
    requires var t := Run(Step, s, acts);
             && t.cal.firstDay(k) <= t.clock + elapsed < t.cal.firstDay(k + 1) && k + t.months <= LAST_MONTH
             && t.cal.firstDay(k) <= day < t.cal.firstDay(k + t.months)
    ensures var after := Step(Run(Step, s, acts), Ensure(elapsed, k)).parts;
            && mine in after && after[mine].0 <= day < after[mine].1
            && (other in after && after[other].0 <= day < after[other].1 ==> other == mine)
  {
    RunKeepsMonthly(s, acts);
    var t := Run(Step, s, acts);
    mine := EnsureInPlainTerms(t.cal, t.parts, k, t.months, day, other);
    EnsureStep(t, elapsed, k);
  }

  lemma {:induction false} EnsureStep(s: State, elapsed: nat, k: nat)
    requires s.cal.firstDay(k) <= s.clock + elapsed < s.cal.firstDay(k + 1) && k + s.months <= LAST_MONTH
    ensures Step(s, Ensure(elapsed, k)) == s.(clock := s.clock + elapsed, parts := Ensured(s.cal, s.parts, k, s.months))
  {
  }

  /** A run's pruning is the job's. */
  lemma {:induction false} PruneStep(s: State, elapsed: nat)
    ensures Step(s, Prune(elapsed)) ==
            s.(clock := s.clock + elapsed, parts := Pruned(s.cal, s.parts, s.clock + elapsed - 90))
  {
  }
}
