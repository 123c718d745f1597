/** Tour booking and the appointment lifecycle. `AppointmentsService` is one request at a time;
    the state machine below it is every interleaving of booking transactions (advisory lock,
    recomputation, insert, commit or abort) with lifecycle transactions (row lock, commit or
    abort), each statement reading the committed table. */
module Booking {
  import opened Lex
  import opened Slots
  import opened Runs

  // ---- the lifecycle ----

  predicate Allowed(from: Status, to: Status) {
    match from
    case Requested => to == Confirmed || to == Cancelled
    case Confirmed => to == Completed || to == Cancelled || to == NoShow
    case _ => false
  }

  /** Where any number of allowed moves can lead. */
  predicate Leads(from: Status, to: Status) {
    from == to || from == Requested || (from == Confirmed && to != Requested)
  }

  /** `Leads` is the reflexive and transitive closure of `Allowed`. */
  lemma LeadsIsClosure(from: Status, to: Status)
    ensures Leads(from, to) <==>
            from == to || Allowed(from, to) || exists mid :: Allowed(from, mid) && Allowed(mid, to)
    ensures forall end :: Leads(from, to) && Allowed(to, end) ==> Leads(from, end)
  {
    assert Allowed(Requested, Confirmed) && Allowed(Confirmed, Completed) && Allowed(Confirmed, NoShow);
  }

  // ---- separation ----

  function Slot(a: Appointment): Pair { (a.startAt, a.endAt) }

  predicate SameCalendar(a: Appointment, b: Appointment) {
    a.tenant == b.tenant && a.agent == b.agent
  }

  /** Both occupy time in the same calendar. */
  predicate Compete(a: Appointment, b: Appointment) {
    Live(a) && Live(b) && SameCalendar(a, b)
  }

  /** Any two live appointments of one agent are at least `gap` apart. */
  ghost predicate Separated(table: map<int, Appointment>, gap: int) {
    forall i, j :: i in table && j in table && i != j && Compete(table[i], table[j])
      ==> Clear(gap, Slot(table[i]), table[j])
  }

  ghost predicate ClearOfTable(table: map<int, Appointment>, gap: int, a: Appointment) {
    forall i :: i in table && Live(table[i]) && SameCalendar(a, table[i]) ==> Clear(gap, Slot(a), table[i])
  }

  lemma InsertKeepsSeparated(table: map<int, Appointment>, gap: int, id: int, a: Appointment)
    requires Separated(table, gap) && id !in table && ClearOfTable(table, gap, a)
    ensures Separated(table[id := a], gap)
  {
  }

  // ---- one request at a time ----

  const MAX_BOOKING_DAYS_AHEAD := 90

  datatype Outcome = Spam | Conflict | Booked(id: int)

  predicate DayAllowed(today: int, day: int) {
    today <= day <= today + MAX_BOOKING_DAYS_AHEAD
  }

  class AppointmentsService {
    var table: map<int, Appointment>

    constructor ()
      ensures table == map[]
    {
      table := map[];
    }

    /** The request's start must match a free slot exactly. `q.table` plays no part: the search
        reads this service's table. */
    method Book(honeypot: bool, q: Query, localDay: int -> int, startAt: int, id: int) returns (r: Outcome)
      requires id !in table
      modifies this
      ensures r == if honeypot then Spam
                   else if localDay(q.now) <= localDay(startAt) <= localDay(q.now) + 90 &&
                           IsFree(q.(day := localDay(startAt), table := old(table)), (startAt, startAt + q.Step()))
                   then Booked(id) else Conflict
      ensures table == if r == Booked(id)
                       then old(table)[id := Appointment(q.tenant, q.agent, startAt, startAt + q.Step(), Requested)]
                       else old(table)
      ensures forall gap :: gap <= q.Buffer() && Separated(old(table), gap) ==> Separated(table, gap)
    {
      if honeypot { return Spam; }
      var day := localDay(startAt);
      if !DayAllowed(localDay(q.now), day) { return Conflict; }
      var search := q.(day := day, table := table);
      var slots := FreeSlots(search);
      r := Conflict;
      var i := 0;
      while i < |slots| && slots[i].0 != startAt
        invariant 0 <= i <= |slots|
        invariant forall j :: 0 <= j < i ==> slots[j].0 != startAt
      {
        i := i + 1;
      }
      if i == |slots| {
        assert (startAt, startAt + q.Step()) !in slots;
        return;
      }
      assert slots[i] in slots;
      FreeLength(search, slots[i]);
      var a := Appointment(q.tenant, q.agent, slots[i].0, slots[i].1, Requested);
      FreeIsClear(search, a);
      table := table[id := a];
      r := Booked(id);
    }

    /** The status moves only along `Allowed`; times and agent never change. */
    method Transition(id: int, to: Status) returns (ok: bool)
      modifies this
      ensures ok <==> id in old(table) &&
                      (old(table)[id].status, to) in {(Requested, Confirmed), (Requested, Cancelled),
                                                      (Confirmed, Completed), (Confirmed, Cancelled), (Confirmed, NoShow)}
      ensures table == if ok then old(table)[id := old(table)[id].(status := to)] else old(table)
      ensures forall gap :: Separated(old(table), gap) ==> Separated(table, gap)
    {
      if id !in table || !Allowed(table[id].status, to) { return false; }
      table := table[id := table[id].(status := to)];
      ok := true;
    }
  }

  lemma FreeIsClear(q: Query, a: Appointment)
    requires IsFree(q, Slot(a)) && a.tenant == q.tenant && a.agent == q.agent
    ensures forall gap :: gap <= q.Buffer() ==> ClearOfTable(q.table, gap, a)
  {
  }

  // ---- every interleaving ----

  /** What a running transaction holds: a calendar lock, the lock and a staged row, or a row
      lock with a staged status. */
  datatype Txn =
    | Holding(tenant: int, agent: int)
    | Staged(id: int, row: Appointment)
    | Moving(id: int, to: Status)

  /** `lockKey` hashes (tenant, agent) to the advisory lock; it may collide. */
  datatype State = State(lockKey: (int, int) -> int, table: map<int, Appointment>, txns: map<int, Txn>)

  datatype Action =
    | LockCalendar(t: int, tenant: int, agent: int)
    | Reserve(t: int, id: int, q: Query, startAt: int)
    | LockRow(t: int, id: int, to: Status)
    | Commit(t: int)
    | Abort(t: int)

  function Init(lockKey: (int, int) -> int): State { State(lockKey, map[], map[]) }

  predicate Books(x: Txn) { x.Holding? || x.Staged? }

  function KeyOf(s: State, x: Txn): int
    requires Books(x)
  {
    if x.Holding? then s.lockKey(x.tenant, x.agent) else s.lockKey(x.row.tenant, x.row.agent)
  }

  predicate CalendarLocked(s: State, key: int) {
    exists t :: t in s.txns && Books(s.txns[t]) && KeyOf(s, s.txns[t]) == key
  }

  predicate RowLocked(s: State, id: int) {
    exists t :: t in s.txns && s.txns[t].Moving? && s.txns[t].id == id
  }

  function End(s: State, t: int): State { s.(txns := s.txns - {t}) }

  /** The search a transaction makes: its own calendar, the committed table. */
  function Search(s: State, tenant: int, agent: int, q: Query): Query {
    q.(tenant := tenant, agent := agent, table := s.table)
  }

  ghost function Step(s: State, a: Action): State {
    match a
    case LockCalendar(t, tenant, agent) =>
      if t in s.txns || CalendarLocked(s, s.lockKey(tenant, agent)) then s
      else s.(txns := s.txns[t := Holding(tenant, agent)])
    case Reserve(t, id, q, startAt) =>
      if t !in s.txns || !s.txns[t].Holding? then s else
        var search := Search(s, s.txns[t].tenant, s.txns[t].agent, q);
        var slot := (startAt, startAt + q.Step());
        if IsFree(search, slot)
        then s.(txns := s.txns[t := Staged(id, Appointment(search.tenant, search.agent, slot.0, slot.1, Requested))])
        else End(s, t)
    case LockRow(t, id, to) =>
      if t in s.txns || id !in s.table || RowLocked(s, id) || !Allowed(s.table[id].status, to) then s
      else s.(txns := s.txns[t := Moving(id, to)])
    case Commit(t) =>
      if t !in s.txns then s else
        var s' := End(s, t);
        (match s.txns[t]
         case Holding(_, _) => s'
         case Staged(id, row) =>
           // a primary key violation aborts
           if id in s.table then s' else s'.(table := s.table[id := row])
         case Moving(id, to) =>
           if id in s.table then s'.(table := s.table[id := s.table[id].(status := to)]) else s')
    case Abort(t) => End(s, t)
  }

  ghost predicate Inv(s: State, gap: int) {
    && Separated(s.table, gap)
    && (forall t :: t in s.txns && s.txns[t].Staged? ==> ClearOfTable(s.table, gap, s.txns[t].row))
    && (forall t, u :: t in s.txns && u in s.txns && t != u && Books(s.txns[t]) && Books(s.txns[u])
          ==> KeyOf(s, s.txns[t]) != KeyOf(s, s.txns[u]))
    && RowLocksHold(s)
  }

  ghost predicate RowLocksHold(s: State) {
    && (forall t :: t in s.txns && s.txns[t].Moving? ==>
          s.txns[t].id in s.table && Allowed(s.table[s.txns[t].id].status, s.txns[t].to))
    && (forall t, u :: t in s.txns && u in s.txns && t != u && s.txns[t].Moving? && s.txns[u].Moving?
          ==> s.txns[t].id != s.txns[u].id)
  }

  /** The buffer in force when a booking recomputes its slots is at least `gap`. */
  predicate BufferAtLeast(a: Action, gap: int) {
    a.Reserve? ==> a.q.Buffer() >= gap
  }

  lemma CommitBookingKeeps(s: State, t: int, gap: int)
    requires Inv(s, gap) && t in s.txns && s.txns[t].Staged?
    ensures Inv(Step(s, Commit(t)), gap)
  {
    var Staged(id, row) := s.txns[t];
    var s' := Step(s, Commit(t));
    if id !in s.table {
      InsertKeepsSeparated(s.table, gap, id, row);
      forall u | u in s'.txns && s'.txns[u].Staged? ensures ClearOfTable(s'.table, gap, s'.txns[u].row) {
        assert u in s.txns && u != t && ClearOfTable(s.table, gap, s.txns[u].row);
        assert KeyOf(s, s.txns[u]) != KeyOf(s, s.txns[t]);
      }
    }
  }

  /** The recomputed slot is clear of the table, so the row staged for it is. */
  lemma ReserveKeeps(s: State, t: int, id: int, q: Query, startAt: int, gap: int)
    requires Inv(s, gap) && gap <= q.Buffer() && t in s.txns && s.txns[t].Holding?
    ensures Inv(Step(s, Reserve(t, id, q, startAt)), gap)
  {
    var search := Search(s, s.txns[t].tenant, s.txns[t].agent, q);
    var row := Appointment(search.tenant, search.agent, startAt, startAt + q.Step(), Requested);
    if IsFree(search, (startAt, startAt + q.Step())) {
      FreeIsClear(search, row);
      StageKeeps(s, t, id, row, gap);
    } else {
      EndKeeps(s, t, gap);
    }
  }

  lemma StageKeeps(s: State, t: int, id: int, row: Appointment, gap: int)
    requires Inv(s, gap) && t in s.txns && s.txns[t].Holding? && ClearOfTable(s.table, gap, row)
    requires row.tenant == s.txns[t].tenant && row.agent == s.txns[t].agent
    ensures Inv(s.(txns := s.txns[t := Staged(id, row)]), gap)
  {
    var s' := s.(txns := s.txns[t := Staged(id, row)]);
    assert KeyOf(s', s'.txns[t]) == KeyOf(s, s.txns[t]);
    forall u | u in s'.txns && u != t && Books(s'.txns[u]) ensures KeyOf(s', s'.txns[u]) == KeyOf(s, s.txns[u]) {}
  }

  lemma EndKeeps(s: State, t: int, gap: int)
    requires Inv(s, gap)
    ensures Inv(End(s, t), gap)
  {
  }

  lemma CommitMoveKeeps(s: State, t: int, gap: int)
    requires Inv(s, gap) && t in s.txns && s.txns[t].Moving?
    ensures Inv(Step(s, Commit(t)), gap)
  {
  }

  lemma LockCalendarKeeps(s: State, t: int, tenant: int, agent: int, gap: int)
    requires Inv(s, gap)
    ensures Inv(Step(s, LockCalendar(t, tenant, agent)), gap)
  {
  }

  lemma LockRowKeeps(s: State, t: int, id: int, to: Status, gap: int)
    requires Inv(s, gap)
    ensures Inv(Step(s, LockRow(t, id, to)), gap)
  {
  }

  lemma StepKeeps(s: State, a: Action, gap: int)
    requires Inv(s, gap) && BufferAtLeast(a, gap)
    ensures Inv(Step(s, a), gap)
  {
    match a
    case LockCalendar(t, tenant, agent) => LockCalendarKeeps(s, t, tenant, agent, gap);
    case Reserve(t, id, q, startAt) =>
      if t in s.txns && s.txns[t].Holding? { ReserveKeeps(s, t, id, q, startAt, gap); }
    case LockRow(t, id, to) => LockRowKeeps(s, t, id, to, gap);
    case Commit(t) =>
      if t in s.txns {
        match s.txns[t]
        case Holding(_, _) => EndKeeps(s, t, gap);
        case Staged(_, _) => CommitBookingKeeps(s, t, gap);
        case Moving(_, _) => CommitMoveKeeps(s, t, gap);
      }
    case Abort(t) => EndKeeps(s, t, gap);
  }

  lemma RunKeeps(s: State, acts: seq<Action>, gap: int)
    requires Inv(s, gap)
    requires forall a :: a in acts ==> BufferAtLeast(a, gap)
    ensures Inv(Run(Step, s, acts), gap)
  {
    var inv, allowed := (t: State) => Inv(t, gap), (a: Action) => BufferAtLeast(a, gap);
    forall t, a | inv(t) && allowed(a) ensures inv(Step(t, a)) { StepKeeps(t, a, gap); }
    InvariantUnder(Step, inv, allowed, s, acts);
  }

  /** Whatever the interleaving, two committed live appointments of one agent are never closer
      than the least buffer any of the bookings ran under. */
  lemma BookingsKeepTheirDistance(lockKey: (int, int) -> int, acts: seq<Action>, gap: int)
    requires forall a :: a in acts && a.Reserve? ==> gap <= SettingsOf(a.q.slotMinutes, a.q.bufferMinutes).buffer
    ensures var table := Run(Step, Init(lockKey), acts).table;
            forall i, j :: i in table && j in table && i != j && LiveTogether(table[i], table[j]) ==>
              table[i].endAt + gap <= table[j].startAt || table[j].endAt + gap <= table[i].startAt
  {
    RunKeeps(Init(lockKey), acts, gap);
    var table := Run(Step, Init(lockKey), acts).table;
    forall i, j | i in table && j in table && i != j && LiveTogether(table[i], table[j])
      ensures table[i].endAt + gap <= table[j].startAt || table[j].endAt + gap <= table[i].startAt
    {
      assert Compete(table[i], table[j]) && Clear(gap, Slot(table[i]), table[j]);
    }
  }

  predicate LiveTogether(a: Appointment, b: Appointment) {
    a.tenant == b.tenant && a.agent == b.agent && a.status in {Requested, Confirmed} && b.status in {Requested, Confirmed}
  }

  /** With no condition on the settings, and even if they change between bookings, no two
      committed live appointments of one agent overlap. */
  lemma NoDoubleBooking(lockKey: (int, int) -> int, acts: seq<Action>, i: int, j: int)
    ensures var table := Run(Step, Init(lockKey), acts).table;
            i in table && j in table && i != j && table[i].tenant == table[j].tenant && table[i].agent == table[j].agent &&
            table[i].status in {Requested, Confirmed} && table[j].status in {Requested, Confirmed}
            ==> table[i].endAt <= table[j].startAt || table[j].endAt <= table[i].startAt
  {
    BookingsKeepTheirDistance(lockKey, acts, 0);
  }

  /** Over any run of these transactions a row keeps its calendar and its times, and its status only
      moves along the lifecycle, so a finished appointment stays as it is. */
  ghost predicate Evolves(before: Appointment, after: Appointment) {
    after == before.(status := after.status) && Leads(before.status, after.status)
  }

  lemma {:induction false} RowsOnlyAge(s: State, acts: seq<Action>, id: int)
    requires RowLocksHold(s) && id in s.table
    ensures var s' := Run(Step, s, acts);
            && id in s'.table && Evolves(s.table[id], s'.table[id])
            && s'.table[id].tenant == s.table[id].tenant && s'.table[id].agent == s.table[id].agent
            && s'.table[id].startAt == s.table[id].startAt && s'.table[id].endAt == s.table[id].endAt
            && (s'.table[id].status == s.table[id].status || s.table[id].status == Requested ||
                (s.table[id].status == Confirmed && s'.table[id].status in {Completed, Cancelled, NoShow}))
    decreases |acts|
  {
    if acts != [] {
      var s1 := Step(s, acts[0]);
      RowStep(s, acts[0], id);
      RowsOnlyAge(s1, acts[1..], id);
      var s' := Run(Step, s1, acts[1..]);
      assert Evolves(s1.table[id], s'.table[id]);
    }
  }

  lemma RowStep(s: State, a: Action, id: int)
    requires RowLocksHold(s) && id in s.table
    ensures RowLocksHold(Step(s, a))
    ensures id in Step(s, a).table && Evolves(s.table[id], Step(s, a).table[id])
  {
  }

  /** The request-at-a-time `Book` is the schedule lock, reserve, commit of this machine. */
  lemma BookIsASchedule(lockKey: (int, int) -> int, table: map<int, Appointment>, t: int, id: int, q: Query, startAt: int)
    requires id !in table
    ensures var s := State(lockKey, table, map[]);
            var s' := Run(Step, s, [LockCalendar(t, q.tenant, q.agent), Reserve(t, id, q, startAt), Commit(t)]);
            var slot := (startAt, startAt + q.Step());
            s'.txns == map[] &&
            s'.table == if IsFree(q.(table := table), slot)
                        then table[id := Appointment(q.tenant, q.agent, slot.0, slot.1, Requested)]
                        else table
  {
    var s := State(lockKey, table, map[]);
    var a0, a1, a2 := LockCalendar(t, q.tenant, q.agent), Reserve(t, id, q, startAt), Commit(t);
    var s1 := Step(s, a0);
    assert s1.txns == map[t := Holding(q.tenant, q.agent)];
    var s2 := Step(s1, a1);
    assert Search(s1, q.tenant, q.agent, q) == q.(table := table);
    RunThree(Step, s, a0, a1, a2);
  }

  /** So is `Transition`: lock the row, then commit. */
  lemma TransitionIsASchedule(lockKey: (int, int) -> int, table: map<int, Appointment>, t: int, id: int, to: Status)
    requires id in table
    ensures var s' := Run(Step, State(lockKey, table, map[]), [LockRow(t, id, to), Commit(t)]);
            s' == State(lockKey, if Allowed(table[id].status, to) then table[id := table[id].(status := to)] else table, map[])
  {
    var s := State(lockKey, table, map[]);
    RunTwo(Step, s, LockRow(t, id, to), Commit(t));
    if Allowed(table[id].status, to) {
      assert Step(s, LockRow(t, id, to)) == State(lockKey, table, map[t := Moving(id, to)]);
      assert map[t := Moving(id, to)] - {t} == map[];
    }
  }

  /** What each lock waits for, and nothing else: the calendar lock for a booking in flight with the
      same lock key, the row lock for a transition in flight of the same row. */
  lemma LocksWaitOnlyForTheirOwn(s: State, t: int, tenant: int, agent: int, id: int, to: Status)
    requires t !in s.txns
    ensures t in Step(s, LockCalendar(t, tenant, agent)).txns <==>
            forall u :: u in s.txns ==>
              && (s.txns[u].Holding? ==> s.lockKey(s.txns[u].tenant, s.txns[u].agent) != s.lockKey(tenant, agent))
              && (s.txns[u].Staged? ==> s.lockKey(s.txns[u].row.tenant, s.txns[u].row.agent) != s.lockKey(tenant, agent))
    ensures t in Step(s, LockRow(t, id, to)).txns <==>
            && id in s.table && Allowed(s.table[id].status, to)
            && forall u :: u in s.txns && s.txns[u].Moving? ==> s.txns[u].id != id
  {
  }

  /** A transaction that is aborted leaves the table alone and lets go of its locks. */
  lemma AbortLeavesNothing(s: State, t: int)
    ensures Step(s, Abort(t)).table == s.table && Step(s, Abort(t)).txns == s.txns - {t}
  {
  }
}
