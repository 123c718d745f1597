/** The transactional outbox relay. `OutboxSession` is one tick inside its transaction; the state
    machine is every interleaving of producers and overlapping ticks, each of which claims
    unlocked due rows, handles them one by one, and commits or rolls back as a whole. Instants
    are in seconds. */
module Outbox {
  import opened Arith
  import opened Lex
  import opened Runs

  const MAX_ATTEMPTS := 8
  const BACKOFF_BASE := 30
  const BACKOFF_MAX := 3600
  const BATCH_SIZE := 100

  datatype Status = Pending | Delivered | Failed

  datatype Event = Event(kind: int, status: Status, attempts: nat, dueAt: int)

  /** The delay after the `attempts`-th failure. */
  function Backoff(attempts: nat): (r: nat)
    ensures BACKOFF_BASE <= r <= BACKOFF_MAX
  {
    Min(BACKOFF_BASE * Pow2(Max(attempts - 1, 0)), BACKOFF_MAX)
  }

  /** Half a minute after the first failure, twice as long after each further one, at most an hour. */
  lemma BackoffDoubles(attempts: nat)
    requires attempts >= 1
    ensures Backoff(1) == 30
    ensures Backoff(attempts + 1) == if 2 * Backoff(attempts) <= 3600 then 2 * Backoff(attempts) else 3600
  {
    assert Pow2(attempts) == 2 * Pow2(attempts - 1);
  }

  // ---- handlers and their database effects ----

  /** `registry[kind]` handlers consume an event of that kind; the effect of handler `h` on
      event `id` is the pair `(id, h)`. */
  type Registry = map<int, nat>
  type Effects = multiset<Pair>

  function Handlers(registry: Registry, kind: int): nat {
    if kind in registry then registry[kind] else 0
  }

  function EffectsOf(id: int, n: nat): (r: Effects)
    ensures forall x :: r[x] == if x.0 == id && 0 <= x.1 < n then 1 else 0
  {
    if n == 0 then multiset{} else EffectsOf(id, n - 1) + multiset{(id, n - 1)}
  }

  ghost predicate AllSucceed(ok: (int, int) -> bool, id: int, n: nat) {
    forall h :: 0 <= h < n ==> ok(id, h)
  }

  /** The row after its event was handled at `now`: `n` handlers, all successful or not. */
  function Handled(e: Event, n: nat, good: bool, now: int): (r: Event) {
    var attempt := e.attempts + 1;
    if n == 0 then e.(attempts := attempt, status := Failed)
    else if good then e.(attempts := attempt, status := Delivered)
    else if attempt >= MAX_ATTEMPTS then e.(attempts := attempt, status := Failed)
    else e.(attempts := attempt, dueAt := now + Backoff(attempt))
  }

  /** What an attempt makes of a pending event. Delivered when every registered handler succeeds;
      given up at once when there is none, and on the eighth failure; after an earlier failure, tried
      again after 30, 60, 120, 240, 480, 960 or 1920 seconds. */
  lemma AttemptInPlainTerms(registry: Registry, e: Event, id: int, now: int, ok: (int, int) -> bool)
    requires e.status == Pending && e.attempts < 8
    ensures var n := if e.kind in registry then registry[e.kind] else 0;
            var good := forall h :: 0 <= h < n ==> ok(id, h);
            var r := Handled(e, Handlers(registry, e.kind), AllSucceed(ok, id, Handlers(registry, e.kind)), now);
            r == Event(e.kind,
                       if n == 0 then Failed else if good then Delivered else if e.attempts == 7 then Failed else Pending,
                       e.attempts + 1,
                       if n > 0 && !good && e.attempts < 7 then now + [30, 60, 120, 240, 480, 960, 1920][e.attempts] else e.dueAt)
  {
    FirstBackoffs();
    var delays := [30, 60, 120, 240, 480, 960, 1920];
    assert forall i :: 0 <= i < 7 ==> delays[i] == Backoff(i + 1);
  }

  lemma FirstBackoffs()
    ensures Backoff(1) == 30 && Backoff(2) == 60 && Backoff(3) == 120 && Backoff(4) == 240
    ensures Backoff(5) == 480 && Backoff(6) == 960 && Backoff(7) == 1920
  {
    BackoffDoubles(1);
    BackoffDoubles(2);
    BackoffDoubles(3);
    BackoffDoubles(4);
    BackoffDoubles(5);
    BackoffDoubles(6);
  }

  // ---- the claim ----

  predicate Due(e: Event, now: int) { e.status == Pending && e.dueAt <= now }

  function DueRows(rows: map<int, Event>, locked: set<int>, now: int): set<Pair> {
    set id | id in rows && id !in locked && Due(rows[id], now) :: (rows[id].dueAt, id)
  }

  /** ORDER BY due time and id, LIMIT 100, FOR UPDATE SKIP LOCKED. */
  function Claim(rows: map<int, Event>, locked: set<int>, now: int): seq<Pair> {
    var due := List(DueRows(rows, locked, now));
    if |due| <= BATCH_SIZE then due else due[..BATCH_SIZE]
  }

  ghost predicate InBatch(batch: seq<Pair>, id: int) {
    exists i :: 0 <= i < |batch| && batch[i].1 == id
  }

  /** A batch is in queue order, without repetition, and every entry is a due unlocked row. */
  lemma ClaimIsSound(rows: map<int, Event>, locked: set<int>, now: int)
    ensures var batch := Claim(rows, locked, now);
            && Ascending(batch) && |batch| <= 100
            && (forall i :: 0 <= i < |batch| ==>
                  var id := batch[i].1;
                  && id in rows && id !in locked && rows[id].status == Pending && rows[id].dueAt <= now
                  && batch[i].0 == rows[id].dueAt)
            && (forall i, j :: 0 <= i < j < |batch| ==> batch[i].1 != batch[j].1)
  {
    var due := DueRows(rows, locked, now);
    ListAscends(due);
    var batch := Claim(rows, locked, now);
    forall i | 0 <= i < |batch| ensures batch[i] in due {
      assert batch[i] == List(due)[i] && List(due)[i] in List(due);
    }
  }

  /** A due unlocked row is passed over only when a full batch of rows goes before it. */
  lemma ClaimIsFair(rows: map<int, Event>, locked: set<int>, now: int, id: int)
    requires id in rows && id !in locked && rows[id].status == Pending && rows[id].dueAt <= now
    ensures var batch := Claim(rows, locked, now);
            InBatch(batch, id) ||
            (|batch| == 100 && forall i :: 0 <= i < |batch| ==> Less(batch[i], (rows[id].dueAt, id)))
  {
    var due := DueRows(rows, locked, now);
    var all, p := List(due), (rows[id].dueAt, id);
    ListAscends(due);
    assert p in all;
    var k :| 0 <= k < |all| && all[k] == p;
    var batch := Claim(rows, locked, now);
    if k < |batch| {
      assert batch[k] == p;
    } else {
      forall i | 0 <= i < |batch| ensures Less(batch[i], p) {
        assert batch[i] == all[i];
      }
    }
  }

  // ---- one tick ----

  /** How many rows of the batch have the status. */
  function Tally(rows: map<int, Event>, batch: seq<Pair>, st: Status): nat {
    if batch == [] then 0 else
      var id := batch[|batch| - 1].1;
      Tally(rows, batch[..|batch| - 1], st) + (if id in rows && rows[id].status == st then 1 else 0)
  }

  lemma {:induction false} TallyFrame(rows: map<int, Event>, rows': map<int, Event>, batch: seq<Pair>, st: Status)
    requires forall i :: 0 <= i < |batch| ==> (batch[i].1 in rows <==> batch[i].1 in rows')
    requires forall i :: 0 <= i < |batch| && batch[i].1 in rows ==> rows[batch[i].1] == rows'[batch[i].1]
    ensures Tally(rows, batch, st) == Tally(rows', batch, st)
  {
    if batch != [] {
      TallyFrame(rows, rows', batch[..|batch| - 1], st);
    }
  }

  /** The table after a tick handled this batch. */
  ghost function DrainedRows(registry: Registry, rows: map<int, Event>, batch: seq<Pair>, now: int, ok: (int, int) -> bool)
    : map<int, Event>
  {
    map id | id in rows ::
      if InBatch(batch, id)
      then var n := Handlers(registry, rows[id].kind); Handled(rows[id], n, AllSucceed(ok, id, n), now)
      else rows[id]
  }

  /** Exactly once if delivered, not at all otherwise. */
  ghost predicate ExactlyOnce(registry: Registry, rows: map<int, Event>, effects: Effects) {
    forall x :: effects[x] == EffectCount(registry, rows, x)
  }

  function EffectCount(registry: Registry, rows: map<int, Event>, x: Pair): nat {
    if x.0 in rows && rows[x.0].status == Delivered && rows[x.0].kind in registry && 0 <= x.1 < registry[rows[x.0].kind]
    then 1 else 0
  }

  class OutboxSession {
    const registry: Registry
    var rows: map<int, Event>
    var effects: Effects

    constructor (registry: Registry)
      ensures this.registry == registry && rows == map[] && effects == multiset{}
    {
      this.registry := registry;
      rows, effects := map[], multiset{};
    }

    method EmitEvent(id: int, kind: int, now: int)
      requires id !in rows
      modifies this
      ensures rows == old(rows)[id := Event(kind, Pending, 0, now)] && effects == old(effects)
    {
      rows := rows[id := Event(kind, Pending, 0, now)];
    }

    /** Runs the handlers of one event in a savepoint: all their effects, or none. */
    method RunHandlers(id: int, n: nat, ok: (int, int) -> bool) returns (good: bool)
      modifies this`effects
      ensures good == AllSucceed(ok, id, n)
      ensures effects == if good then old(effects) + EffectsOf(id, n) else old(effects)
    {
      var savepoint := effects;
      var h: nat := 0;
      while h < n
        invariant h <= n && AllSucceed(ok, id, h)
        invariant effects == savepoint + EffectsOf(id, h)
      {
        effects := effects + multiset{(id, h)};
        if !ok(id, h) {
          effects := savepoint;
          return false;
        }
        h := h + 1;
      }
      good := true;
    }

    /** Handles one claimed event and records the attempt on its row. */
    method HandleEvent(id: int, now: int, ok: (int, int) -> bool) returns (status: Status)
      requires id in rows && rows[id].status == Pending
      modifies this
      ensures var n := Handlers(registry, old(rows)[id].kind);
              rows == old(rows)[id := Handled(old(rows)[id], n, AllSucceed(ok, id, n), now)]
      ensures status == rows[id].status
      ensures ExactlyOnce(registry, old(rows), old(effects)) ==> ExactlyOnce(registry, rows, effects)
    {
      var e := rows[id];
      var n := Handlers(registry, e.kind);
      var good := false;
      if n > 0 { good := RunHandlers(id, n, ok); }
      var e' := Handled(e, n, good, now);
      OneMoreEffect(registry, rows, old(effects), id, e', n, good);
      rows := rows[id := e'];
      status := e'.status;
    }

    /** The loop over the claimed rows. */
    method DrainBatch(batch: seq<Pair>, now: int, ok: (int, int) -> bool) returns (delivered: nat, failed: nat)
      requires ClaimedFrom(rows, batch)
      modifies this
      ensures rows == DrainedRows(registry, old(rows), batch, now, ok)
      ensures ExactlyOnce(registry, old(rows), old(effects)) ==> ExactlyOnce(registry, rows, effects)
      ensures delivered == Tally(rows, batch, Delivered)
      ensures failed == Tally(rows, batch, Failed)
    {
      ghost var before := rows;
      delivered, failed := 0, 0;
      assert batch[..0] == [];
      for i := 0 to |batch|
        invariant rows == DrainedRows(registry, before, batch[..i], now, ok)
        invariant ExactlyOnce(registry, before, old(effects)) ==> ExactlyOnce(registry, rows, effects)
        invariant delivered == Tally(rows, batch[..i], Delivered)
        invariant failed == Tally(rows, batch[..i], Failed)
      {
        ghost var rows0 := rows;
        NotYetDrained(registry, before, batch, i, now, ok);
        var status := HandleEvent(batch[i].1, now, ok);
        if status == Delivered { delivered := delivered + 1; }
        if status == Failed { failed := failed + 1; }
        OneMoreRow(registry, before, batch, i, now, ok, rows0);
        OneMoreCount(rows0, rows, batch, i, Delivered);
        OneMoreCount(rows0, rows, batch, i, Failed);
      }
      assert batch[..|batch|] == batch;
    }

    method DrainOutbox(now: int, ok: (int, int) -> bool) returns (delivered: nat, failed: nat)
      modifies this
      ensures rows == DrainedRows(registry, old(rows), Claim(old(rows), {}, now), now, ok)
      ensures ExactlyOnce(registry, old(rows), old(effects)) ==>
                && ExactlyOnce(registry, rows, effects)
                && forall id, h ::
                     effects[(id, h)] ==
                     if id in rows && rows[id].status == Delivered && rows[id].kind in registry && 0 <= h < registry[rows[id].kind]
                     then 1 else 0
      ensures delivered == Tally(rows, Claim(old(rows), {}, now), Delivered)
      ensures failed == Tally(rows, Claim(old(rows), {}, now), Failed)
    {
      var batch := Claim(rows, {}, now);
      ClaimIsSound(rows, {}, now);
      delivered, failed := DrainBatch(batch, now, ok);
      assert forall id, h :: ExactlyOnce(registry, rows, effects) ==> effects[(id, h)] == EffectCount(registry, rows, (id, h));
    }
  }

  /** What `ClaimIsSound` gives of a batch: distinct pending rows. */
  ghost predicate ClaimedFrom(rows: map<int, Event>, batch: seq<Pair>) {
    && (forall i :: 0 <= i < |batch| ==> batch[i].1 in rows && rows[batch[i].1].status == Pending)
    && (forall i, j :: 0 <= i < j < |batch| ==> batch[i].1 != batch[j].1)
  }

  lemma NotYetDrained(registry: Registry, before: map<int, Event>, batch: seq<Pair>, i: nat, now: int, ok: (int, int) -> bool)
    requires ClaimedFrom(before, batch) && i < |batch|
    ensures var rows := DrainedRows(registry, before, batch[..i], now, ok);
            batch[i].1 in rows && rows[batch[i].1] == before[batch[i].1]
  {
    assert !InBatch(batch[..i], batch[i].1);
  }

  lemma OneMoreCount(rows: map<int, Event>, rows': map<int, Event>, batch: seq<Pair>, i: nat, st: Status)
    requires i < |batch|
    requires forall j, k :: 0 <= j < k < |batch| ==> batch[j].1 != batch[k].1
    requires batch[i].1 in rows' && rows' == rows[batch[i].1 := rows'[batch[i].1]]
    ensures Tally(rows', batch[..i + 1], st) ==
            Tally(rows, batch[..i], st) + (if rows'[batch[i].1].status == st then 1 else 0)
  {
    assert batch[..i + 1][..i] == batch[..i];
    assert forall j :: 0 <= j < i ==> batch[..i][j] == batch[j] && batch[j].1 != batch[i].1;
    TallyFrame(rows, rows', batch[..i], st);
  }

  lemma OneMoreRow(registry: Registry, before: map<int, Event>, batch: seq<Pair>, i: nat, now: int,
                   ok: (int, int) -> bool, rows: map<int, Event>)
    requires i < |batch| && batch[i].1 in before
    requires forall j, k :: 0 <= j < k < |batch| ==> batch[j].1 != batch[k].1
    requires rows == DrainedRows(registry, before, batch[..i], now, ok)
    ensures var id := batch[i].1;
            var n := Handlers(registry, before[id].kind);
            rows[id := Handled(before[id], n, AllSucceed(ok, id, n), now)] == DrainedRows(registry, before, batch[..i + 1], now, ok)
  {
    var id := batch[i].1;
    forall x ensures InBatch(batch[..i + 1], x) <==> InBatch(batch[..i], x) || x == id {
      if InBatch(batch[..i], x) {
        var j :| 0 <= j < i && batch[..i][j].1 == x;
        assert batch[..i + 1][j].1 == x;
      }
      assert batch[..i + 1][i].1 == id;
      if InBatch(batch[..i + 1], x) && x != id {
        var j :| 0 <= j < i + 1 && batch[..i + 1][j].1 == x;
        assert batch[..i][j].1 == x;
      }
    }
  }

  lemma OneMoreEffect(registry: Registry, rows: map<int, Event>, effects: Effects, id: int, e': Event, n: nat, good: bool)
    requires id in rows ==> rows[id].status != Delivered
    requires n == Handlers(registry, e'.kind) && (good <==> e'.status == Delivered)
    ensures var effects' := if good then effects + EffectsOf(id, n) else effects;
            ExactlyOnce(registry, rows, effects) ==> ExactlyOnce(registry, rows[id := e'], effects')
  {
  }

  // ---- every interleaving ----

  /** A tick in flight: its claim, how many events it has handled, and what it has staged. */
  datatype Tick = Tick(now: int, batch: seq<Pair>, done: nat, staged: map<int, Event>, added: Effects)

  datatype State = State(registry: Registry, rows: map<int, Event>, effects: Effects, ticks: map<int, Tick>)

  datatype Action =
    | Emit(id: int, kind: int, now: int)
    | ClaimRows(t: int, now: int)
    | Handle(t: int, ok: (int, int) -> bool)
    | Commit(t: int)
    | Rollback(t: int)

  function Init(registry: Registry): State { State(registry, map[], multiset{}, map[]) }

  ghost function Locked(s: State): set<int> {
    set id | id in s.rows && exists t :: t in s.ticks && InBatch(s.ticks[t].batch, id)
  }

  ghost function HandleNext(s: State, tick: Tick, ok: (int, int) -> bool): Tick
    requires tick.done < |tick.batch| && tick.batch[tick.done].1 in s.rows
  {
    var id := tick.batch[tick.done].1;
    var n := Handlers(s.registry, s.rows[id].kind);
    var good := n > 0 && AllSucceed(ok, id, n);
    tick.(done := tick.done + 1,
          staged := tick.staged[id := Handled(s.rows[id], n, good, tick.now)],
          added := if good then tick.added + EffectsOf(id, n) else tick.added)
  }

  ghost function Step(s: State, a: Action): State {
    match a
    case Emit(id, kind, now) =>
      if id in s.rows then s else s.(rows := s.rows[id := Event(kind, Pending, 0, now)])
    case ClaimRows(t, now) =>
      if t in s.ticks then s
      else s.(ticks := s.ticks[t := Tick(now, Claim(s.rows, Locked(s), now), 0, map[], multiset{})])
    case Handle(t, ok) =>
      if t in s.ticks && s.ticks[t].done < |s.ticks[t].batch| && s.ticks[t].batch[s.ticks[t].done].1 in s.rows
      then s.(ticks := s.ticks[t := HandleNext(s, s.ticks[t], ok)]) else s
    case Commit(t) =>
      if t in s.ticks && s.ticks[t].done == |s.ticks[t].batch|
      then s.(rows := s.rows + s.ticks[t].staged, effects := s.effects + s.ticks[t].added, ticks := s.ticks - {t})
      else s
    case Rollback(t) => s.(ticks := s.ticks - {t})
  }

  /** A tick only holds pending rows, only stages rows it holds, and stages their effects
      exactly when it stages their delivery. */
  ghost predicate TickOk(s: State, tick: Tick) {
    && tick.done <= |tick.batch|
    && (forall i, j :: 0 <= i < j < |tick.batch| ==> tick.batch[i].1 != tick.batch[j].1)
    && (forall i :: 0 <= i < |tick.batch| ==> tick.batch[i].1 in s.rows && s.rows[tick.batch[i].1].status == Pending)
    && (forall id :: id in tick.staged <==> InBatch(tick.batch[..tick.done], id))
    && (forall id :: id in tick.staged ==> Succeeds(s.registry, s.rows, id, tick.staged[id]))
    && ExactlyOnce(s.registry, tick.staged, tick.added)
  }

  /** One more attempt on a pending row; it stays pending only below the attempt limit, and fails
      only at it, or for want of a handler. */
  ghost predicate Succeeds(registry: Registry, rows: map<int, Event>, id: int, e': Event) {
    && id in rows && rows[id].status == Pending
    && e'.kind == rows[id].kind && e'.attempts == rows[id].attempts + 1
    && (e'.status == Pending ==> e'.attempts < MAX_ATTEMPTS)
    && (e'.status == Failed ==> e'.attempts >= MAX_ATTEMPTS || Handlers(registry, e'.kind) == 0)
    && (e'.status == Delivered ==> Handlers(registry, e'.kind) > 0)
  }

  ghost predicate Disjoint(a: Tick, b: Tick) {
    forall id :: !(InBatch(a.batch, id) && InBatch(b.batch, id))
  }

  ghost predicate Inv(s: State) {
    && ExactlyOnce(s.registry, s.rows, s.effects)
    && (forall id :: id in s.rows ==> AttemptsOk(s.registry, s.rows[id]))
    && (forall t :: t in s.ticks ==> TickOk(s, s.ticks[t]))
    && (forall t, u :: t in s.ticks && u in s.ticks && t != u ==> Disjoint(s.ticks[t], s.ticks[u]))
  }

  /** Attempts never exceed the limit; an event still pending has some left; one that failed has
      none, or has no handler. */
  predicate AttemptsOk(registry: Registry, e: Event) {
    && e.attempts <= MAX_ATTEMPTS
    && (e.status == Pending ==> e.attempts < MAX_ATTEMPTS)
    && (e.status == Failed ==> e.attempts == MAX_ATTEMPTS || Handlers(registry, e.kind) == 0)
    && (e.status == Delivered ==> e.attempts > 0 && Handlers(registry, e.kind) > 0)
  }

  lemma NewTickOk(s: State, now: int)
    requires Inv(s)
    ensures var tick := Tick(now, Claim(s.rows, Locked(s), now), 0, map[], multiset{});
            TickOk(s, tick) && forall t :: t in s.ticks ==> Disjoint(tick, s.ticks[t]) && Disjoint(s.ticks[t], tick)
  {
    var batch := Claim(s.rows, Locked(s), now);
    ClaimIsSound(s.rows, Locked(s), now);
    assert batch[..0] == [];
    forall t, id | t in s.ticks && InBatch(batch, id) ensures !InBatch(s.ticks[t].batch, id) {
      var i :| 0 <= i < |batch| && batch[i].1 == id;
      assert id !in Locked(s);
    }
  }

  lemma ClaimKeeps(s: State, t: int, now: int)
    requires Inv(s) && t !in s.ticks
    ensures Inv(Step(s, ClaimRows(t, now)))
  {
    var s' := Step(s, ClaimRows(t, now));
    NewTickOk(s, now);
    forall u | u in s'.ticks ensures TickOk(s', s'.ticks[u]) {
      assert TickOk(s, s'.ticks[u]);
      SameRowsSameTicks(s, s', s'.ticks[u]);
    }
  }

  lemma HandleTick(s: State, tick: Tick, ok: (int, int) -> bool)
    requires TickOk(s, tick) && tick.done < |tick.batch|
    requires AttemptsOk(s.registry, s.rows[tick.batch[tick.done].1])
    ensures TickOk(s, HandleNext(s, tick, ok))
  {
    var tick' := HandleNext(s, tick, ok);
    var i := tick.done;
    var id := tick.batch[i].1;
    NextInBatch(tick.batch, i);
    assert !InBatch(tick.batch[..i], id);
    var n := Handlers(s.registry, s.rows[id].kind);
    OneMoreEffect(s.registry, tick.staged, tick.added, id, tick'.staged[id], n, n > 0 && AllSucceed(ok, id, n));
    assert Succeeds(s.registry, s.rows, id, tick'.staged[id]);
    forall x | x in tick'.staged ensures Succeeds(s.registry, s.rows, x, tick'.staged[x]) {
      if x != id { assert x in tick.staged; }
    }
  }

  lemma HandleKeeps(s: State, t: int, ok: (int, int) -> bool)
    requires Inv(s) && t in s.ticks && s.ticks[t].done < |s.ticks[t].batch|
    ensures Inv(Step(s, Handle(t, ok)))
  {
    var s' := Step(s, Handle(t, ok));
    assert TickOk(s, s.ticks[t]);
    HandleTick(s, s.ticks[t], ok);
    assert s'.ticks[t].batch == s.ticks[t].batch;
    forall u | u in s'.ticks ensures TickOk(s', s'.ticks[u]) {
      assert TickOk(s, s'.ticks[u]);
      SameRowsSameTicks(s, s', s'.ticks[u]);
    }
    forall u, v | u in s'.ticks && v in s'.ticks && u != v ensures Disjoint(s'.ticks[u], s'.ticks[v]) {
      assert Disjoint(s.ticks[u], s.ticks[v]);
    }
  }

  lemma SameRowsSameTicks(s: State, s': State, tick: Tick)
    requires TickOk(s, tick) && s'.rows == s.rows && s'.registry == s.registry
    ensures TickOk(s', tick)
  {
  }

  lemma NextInBatch(batch: seq<Pair>, i: nat)
    requires i < |batch|
    ensures forall id :: InBatch(batch[..i + 1], id) <==> InBatch(batch[..i], id) || id == batch[i].1
  {
    forall id ensures InBatch(batch[..i + 1], id) <==> InBatch(batch[..i], id) || id == batch[i].1 {
      assert batch[..i + 1] == batch[..i] + [batch[i]];
      assert batch[..i + 1][i] == batch[i];
      if InBatch(batch[..i], id) {
        var j :| 0 <= j < i && batch[..i][j].1 == id;
        assert batch[..i + 1][j].1 == id;
      }
    }
  }

  lemma CommitKeeps(s: State, t: int)
    requires Inv(s) && t in s.ticks && s.ticks[t].done == |s.ticks[t].batch|
    ensures Inv(Step(s, Commit(t)))
  {
    var tick := s.ticks[t];
    var s' := Step(s, Commit(t));
    assert TickOk(s, tick);
    assert tick.batch[..tick.done] == tick.batch;
    forall x ensures s'.effects[x] == EffectCount(s'.registry, s'.rows, x) {
      assert s.effects[x] == EffectCount(s.registry, s.rows, x);
      assert tick.added[x] == EffectCount(s.registry, tick.staged, x);
      if x.0 in tick.staged { assert Succeeds(s.registry, s.rows, x.0, tick.staged[x.0]); }
    }
    forall id | id in s'.rows ensures AttemptsOk(s'.registry, s'.rows[id]) {
      if id in tick.staged { assert AttemptsOk(s.registry, s.rows[id]); }
    }
    forall u | u in s'.ticks ensures TickOk(s', s'.ticks[u]) {
      OtherTickKeeps(s, t, u);
    }
  }

  /** Committing one tick leaves every row another tick holds as it was. */
  lemma OtherTickKeeps(s: State, t: int, u: int)
    requires Inv(s) && t in s.ticks && u in s.ticks && t != u && s.ticks[t].done == |s.ticks[t].batch|
    ensures TickOk(Step(s, Commit(t)), s.ticks[u])
  {
    var tick, other := s.ticks[t], s.ticks[u];
    var s' := Step(s, Commit(t));
    assert TickOk(s, tick) && TickOk(s, other) && Disjoint(tick, other);
    assert tick.batch[..tick.done] == tick.batch;
    forall i | 0 <= i < |other.batch| ensures other.batch[i].1 in s'.rows && s'.rows[other.batch[i].1] == s.rows[other.batch[i].1] {
      assert InBatch(other.batch, other.batch[i].1);
      assert other.batch[i].1 !in tick.staged;
    }
    forall id | id in other.staged ensures Succeeds(s'.registry, s'.rows, id, other.staged[id]) {
      assert InBatch(other.batch[..other.done], id);
      var j :| 0 <= j < other.done && other.batch[..other.done][j].1 == id;
      assert other.batch[j].1 == id;
    }
  }

  lemma EmitKeeps(s: State, id: int, kind: int, now: int)
    requires Inv(s) && id !in s.rows
    ensures Inv(Step(s, Emit(id, kind, now)))
  {
    var s' := Step(s, Emit(id, kind, now));
    forall x ensures s'.effects[x] == EffectCount(s'.registry, s'.rows, x) {
      assert s.effects[x] == EffectCount(s.registry, s.rows, x);
    }
    forall t | t in s'.ticks ensures TickOk(s', s'.ticks[t]) { assert TickOk(s, s.ticks[t]); }
  }

  lemma RollbackKeeps(s: State, t: int)
    requires Inv(s)
    ensures Inv(Step(s, Rollback(t)))
  {
    var s' := Step(s, Rollback(t));
    forall u | u in s'.ticks ensures TickOk(s', s'.ticks[u]) { SameRowsSameTicks(s, s', s.ticks[u]); }
  }

  lemma StepKeeps(s: State, a: Action)
    requires Inv(s)
    ensures Inv(Step(s, a))
  {
    match a
    case Emit(id, kind, now) => if id !in s.rows { EmitKeeps(s, id, kind, now); }
    case ClaimRows(t, now) => if t !in s.ticks { ClaimKeeps(s, t, now); }
    case Handle(t, ok) => if t in s.ticks && s.ticks[t].done < |s.ticks[t].batch| { HandleKeeps(s, t, ok); }
    case Commit(t) => if t in s.ticks && s.ticks[t].done == |s.ticks[t].batch| { CommitKeeps(s, t); }
    case Rollback(t) => RollbackKeeps(s, t);
  }

  /** In every committed state of every run, each handler registered for a delivered event's kind
      has left its effect exactly once, and nothing else has left any; no event is tried more than
      eight times, and none is given up before that unless nothing consumes it. */
  lemma {:induction false} DeliveredExactlyOnce(registry: Registry, acts: seq<Action>)
    ensures var s := Run(Step, Init(registry), acts);
            && (forall id, h ::
                  s.effects[(id, h)] ==
                  if id in s.rows && s.rows[id].status == Delivered && s.rows[id].kind in registry && 0 <= h < registry[s.rows[id].kind]
                  then 1 else 0)
            && (forall id :: id in s.rows ==>
                  && s.rows[id].attempts <= 8
                  && (s.rows[id].status == Pending ==> s.rows[id].attempts < 8)
                  && (s.rows[id].status == Failed ==>
                        s.rows[id].attempts == 8 || s.rows[id].kind !in registry || registry[s.rows[id].kind] == 0)
                  && (s.rows[id].status == Delivered ==> s.rows[id].kind in registry && registry[s.rows[id].kind] > 0))
  {
    RunKeeps(Init(registry), acts);
    RegistryStays(Init(registry), acts);
    var s := Run(Step, Init(registry), acts);
    forall id, h ensures s.effects[(id, h)] == EffectCount(registry, s.rows, (id, h)) {}
    forall id | id in s.rows ensures AttemptsOk(registry, s.rows[id]) {}
  }

  lemma RegistryStays(s: State, acts: seq<Action>)
    ensures Run(Step, s, acts).registry == s.registry
  {
    var inv := (t: State) => t.registry == s.registry;
    Invariant(Step, inv, s, acts);
  }

  /** A producer's commit adds one pending row, and a rolled-back tick leaves no trace but frees the
      rows it held. */
  lemma EmitAndRollback(s: State, id: int, kind: int, now: int, t: int)
    ensures id !in s.rows ==> Step(s, Emit(id, kind, now)) == s.(rows := s.rows[id := Event(kind, Pending, 0, now)])
    ensures Step(s, Rollback(t)) == s.(ticks := s.ticks - {t})
  {
  }

  /** A new tick passes over exactly the rows other ticks hold: it takes a due row nobody holds
      unless a full batch goes before it, and never one that is held. */
  lemma NewTickSkipsHeldRows(s: State, t: int, now: int, id: int)
    requires t !in s.ticks && id in s.rows && s.rows[id].status == Pending && s.rows[id].dueAt <= now
    ensures var batch := Step(s, ClaimRows(t, now)).ticks[t].batch;
            if exists u :: u in s.ticks && InBatch(s.ticks[u].batch, id) then !InBatch(batch, id)
            else InBatch(batch, id) ||
                 (|batch| == 100 && forall i :: 0 <= i < |batch| ==> Less(batch[i], (s.rows[id].dueAt, id)))
  {
    ClaimIsSound(s.rows, Locked(s), now);
    if id !in Locked(s) { ClaimIsFair(s.rows, Locked(s), now, id); }
  }

  lemma RunKeeps(s: State, acts: seq<Action>)
    requires Inv(s)
    ensures Inv(Run(Step, s, acts))
  {
    forall t, a | Inv(t) ensures Inv(Step(t, a)) { StepKeeps(t, a); }
    Invariant(Step, Inv, s, acts);
  }

  /** A delivered or failed event is never touched again. */
  lemma {:induction false} TerminalRowsStay(s: State, acts: seq<Action>, id: int)
    requires Inv(s) && id in s.rows && s.rows[id].status != Pending
    ensures var s' := Run(Step, s, acts); id in s'.rows && s'.rows[id] == s.rows[id]
    decreases |acts|
  {
    if acts != [] {
      var s1 := Step(s, acts[0]);
      StepKeeps(s, acts[0]);
      assert id in s1.rows && s1.rows[id] == s.rows[id] by {
        if acts[0].Commit? && acts[0].t in s.ticks {
          assert TickOk(s, s.ticks[acts[0].t]);
        }
      }
      TerminalRowsStay(s1, acts[1..], id);
    }
  }

  // ---- a tick on its own ----

  /** The tick handles its next `n` events. */
  ghost function HandleMany(s: State, t: int, ok: (int, int) -> bool, n: nat): State {
    if n == 0 then s else Step(HandleMany(s, t, ok, n - 1), Handle(t, ok))
  }

  ghost function Outcome(s: State, ok: (int, int) -> bool, now: int, id: int): Event
    requires id in s.rows
  {
    var n := Handlers(s.registry, s.rows[id].kind);
    Handled(s.rows[id], n, AllSucceed(ok, id, n), now)
  }

  /** The tick has staged the outcome of each event it handled, and nothing else. */
  ghost predicate Faithful(s: State, tick: Tick, ok: (int, int) -> bool)
    requires tick.done <= |tick.batch|
  {
    && (forall id :: id in tick.staged <==> InBatch(tick.batch[..tick.done], id))
    && (forall id :: id in tick.staged ==> id in s.rows && tick.staged[id] == Outcome(s, ok, tick.now, id))
  }

  lemma HandleNextIsFaithful(s: State, tick: Tick, ok: (int, int) -> bool)
    requires tick.done < |tick.batch| && tick.batch[tick.done].1 in s.rows && Faithful(s, tick, ok)
    ensures Faithful(s, HandleNext(s, tick, ok), ok)
  {
    NextInBatch(tick.batch, tick.done);
  }

  lemma FaithfulTickDrains(s: State, tick: Tick, ok: (int, int) -> bool)
    requires tick.done == |tick.batch| && Faithful(s, tick, ok)
    ensures s.rows + tick.staged == DrainedRows(s.registry, s.rows, tick.batch, tick.now, ok)
  {
    assert tick.batch[..tick.done] == tick.batch;
    var drained := DrainedRows(s.registry, s.rows, tick.batch, tick.now, ok);
    forall id | id in tick.staged.Keys ensures id in s.rows.Keys { var e := tick.staged[id]; }
    assert (s.rows + tick.staged).Keys == s.rows.Keys + tick.staged.Keys == s.rows.Keys == drained.Keys;
    forall id | id in s.rows ensures (s.rows + tick.staged)[id] == drained[id] {
      if InBatch(tick.batch, id) { assert tick.staged[id] == Outcome(s, ok, tick.now, id); }
    }
  }

  lemma HandleOne(s: State, t: int, ok: (int, int) -> bool)
    requires t in s.ticks && s.ticks[t].done < |s.ticks[t].batch| && s.ticks[t].batch[s.ticks[t].done].1 in s.rows
    requires Faithful(s, s.ticks[t], ok)
    ensures var s' := Step(s, Handle(t, ok));
            && s' == s.(ticks := s.ticks[t := s'.ticks[t]])
            && s'.ticks[t].batch == s.ticks[t].batch && s'.ticks[t].done == s.ticks[t].done + 1 && s'.ticks[t].now == s.ticks[t].now
            && Faithful(s', s'.ticks[t], ok)
  {
    HandleNextIsFaithful(s, s.ticks[t], ok);
    FaithfulFrame(s, Step(s, Handle(t, ok)), HandleNext(s, s.ticks[t], ok), ok);
  }

  lemma {:induction false} HandledSoFar(s: State, t: int, ok: (int, int) -> bool, n: nat)
    requires t in s.ticks && ClaimedFrom(s.rows, s.ticks[t].batch)
    requires s.ticks[t].done == 0 && s.ticks[t].staged == map[] && n <= |s.ticks[t].batch|
    ensures var s' := HandleMany(s, t, ok, n);
            && t in s'.ticks && s'.ticks.Keys == s.ticks.Keys && s'.rows == s.rows && s'.registry == s.registry
            && s'.ticks[t].batch == s.ticks[t].batch && s'.ticks[t].done == n && s'.ticks[t].now == s.ticks[t].now
            && Faithful(s', s'.ticks[t], ok)
  {
    if n > 0 {
      HandledSoFar(s, t, ok, n - 1);
      HandleOne(HandleMany(s, t, ok, n - 1), t, ok);
    }
  }

  lemma FaithfulFrame(s: State, s': State, tick: Tick, ok: (int, int) -> bool)
    requires tick.done <= |tick.batch| && Faithful(s, tick, ok) && s'.rows == s.rows && s'.registry == s.registry
    ensures Faithful(s', tick, ok)
  {
  }

  /** What the table says was delivered is all there is to know about the effects. */
  lemma EffectsAreDetermined(registry: Registry, rows: map<int, Event>, a: Effects, b: Effects)
    requires ExactlyOnce(registry, rows, a) && ExactlyOnce(registry, rows, b)
    ensures a == b
  {
  }

  lemma {:induction false} HandleManyKeeps(s: State, t: int, ok: (int, int) -> bool, n: nat)
    requires Inv(s)
    ensures Inv(HandleMany(s, t, ok, n))
  {
    if n > 0 {
      HandleManyKeeps(s, t, ok, n - 1);
      StepKeeps(HandleMany(s, t, ok, n - 1), Handle(t, ok));
    }
  }

  ghost function AloneTick(s: State, t: int, now: int, ok: (int, int) -> bool): State {
    Step(HandleMany(Step(s, ClaimRows(t, now)), t, ok, |Claim(s.rows, {}, now)|), Commit(t))
  }

  lemma AloneTickRows(s: State, t: int, now: int, ok: (int, int) -> bool)
    requires s.ticks == map[]
    ensures var s' := AloneTick(s, t, now, ok);
            && s'.ticks == map[] && s'.registry == s.registry
            && s'.rows == DrainedRows(s.registry, s.rows, Claim(s.rows, {}, now), now, ok)
  {
    assert Locked(s) == {};
    var batch := Claim(s.rows, {}, now);
    ClaimIsSound(s.rows, {}, now);
    assert ClaimedFrom(s.rows, batch);
    var s1 := Step(s, ClaimRows(t, now));
    HandledSoFar(s1, t, ok, |batch|);
    var s2 := HandleMany(s1, t, ok, |batch|);
    FaithfulTickDrains(s2, s2.ticks[t], ok);
  }

  lemma AloneTickKeeps(s: State, t: int, now: int, ok: (int, int) -> bool)
    requires Inv(s)
    ensures Inv(AloneTick(s, t, now, ok))
  {
    var s1 := Step(s, ClaimRows(t, now));
    StepKeeps(s, ClaimRows(t, now));
    HandleManyKeeps(s1, t, ok, |Claim(s.rows, {}, now)|);
    StepKeeps(HandleMany(s1, t, ok, |Claim(s.rows, {}, now)|), Commit(t));
  }

  /** From any reachable state with no other tick in flight, a tick that runs alone and commits
      leaves exactly the table and the effects that `DrainOutbox` promises. */
  lemma TickIsADrain(s: State, t: int, now: int, ok: (int, int) -> bool, rows: map<int, Event>, effects: Effects)
    requires Inv(s) && s.ticks == map[]
    requires rows == DrainedRows(s.registry, s.rows, Claim(s.rows, {}, now), now, ok)
    requires ExactlyOnce(s.registry, rows, effects)
    ensures AloneTick(s, t, now, ok) == State(s.registry, rows, effects, map[])
  {
    AloneTickRows(s, t, now, ok);
    AloneTickKeeps(s, t, now, ok);
    EffectsAreDetermined(s.registry, rows, AloneTick(s, t, now, ok).effects, effects);
  }
}
