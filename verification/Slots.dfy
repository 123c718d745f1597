/** The tour slot search: availability windows cut into a grid, minus blocks, minus live
    appointments widened by the buffer. Instants are integers (microseconds); the conversion
    of a local time of day to an instant is an arbitrary function, so a daylight-saving change
    may shift, repeat or invert a window. */
module Slots {
  import opened Options
  import opened Lex

  // ---- tenant settings ----

  const MINUTE := 60_000_000
  const DEFAULT_SLOT_MINUTES := 60
  const DEFAULT_BUFFER_MINUTES := 0

  /** A value of the free-form settings document. Python counts a boolean as an integer. */
  datatype Json = Missing | Int(n: int) | Bool(b: bool) | Other

  function IntIn(j: Json, lo: int, hi: int, default: int): (r: int)
    requires lo <= default <= hi
    ensures lo <= r <= hi
  {
    match j
    case Int(n) => if lo <= n <= hi then n else default
    case Bool(b) =>
      var n := if b then 1 else 0;
      if lo <= n <= hi then n else default
    case _ => default
  }

  datatype Settings = Settings(slotLen: int, buffer: int)

  /** A step of 5 to 480 minutes and a buffer of 0 to 240 are taken as configured, `true` counting
      as one minute; anything else is an hour and no buffer. */
  function SettingsOf(slotMinutes: Json, bufferMinutes: Json): (r: Settings)
    ensures 300_000_000 <= r.slotLen <= 28_800_000_000
    ensures 0 <= r.buffer <= 14_400_000_000
    ensures slotMinutes.Int? && 5 <= slotMinutes.n <= 480 ==> r.slotLen == slotMinutes.n * 60_000_000
    ensures !(slotMinutes.Int? && 5 <= slotMinutes.n <= 480) ==> r.slotLen == 60 * 60_000_000
    ensures bufferMinutes.Int? && 0 <= bufferMinutes.n <= 240 ==> r.buffer == bufferMinutes.n * 60_000_000
    ensures bufferMinutes == Bool(true) ==> r.buffer == 60_000_000
    ensures !(bufferMinutes.Int? && 0 <= bufferMinutes.n <= 240) && bufferMinutes != Bool(true) ==> r.buffer == 0
  {
    Settings(IntIn(slotMinutes, 5, 480, DEFAULT_SLOT_MINUTES) * MINUTE,
             IntIn(bufferMinutes, 0, 240, DEFAULT_BUFFER_MINUTES) * MINUTE)
  }

  // ---- tables ----

  datatype Status = Requested | Confirmed | Completed | Cancelled | NoShow

  datatype Appointment = Appointment(tenant: int, agent: int, startAt: int, endAt: int, status: Status)

  predicate Live(a: Appointment) {
    a.status.Requested? || a.status.Confirmed?
  }

  datatype Rule = Rule(tenant: int, agent: int, dayOfWeek: Option<int>, date: Option<int>,
                       startTime: int, endTime: int, isBlock: bool)

  /** One slot search: who, which day, when it is asked, and the tables it reads. */
  datatype Query = Query(tenant: int, agent: int, day: int, now: int, slotMinutes: Json, bufferMinutes: Json,
                         rules: seq<Rule>, table: map<int, Appointment>, toUtc: (int, int) -> int)
  {
    function Step(): int { SettingsOf(slotMinutes, bufferMinutes).slotLen }
    function Buffer(): int { SettingsOf(slotMinutes, bufferMinutes).buffer }
    function Window(r: Rule): Pair { (toUtc(day, r.startTime), toUtc(day, r.endTime)) }
  }

  // Monday is 0, as `date.weekday()`, for a proleptic Gregorian ordinal.
  function Weekday(day: int): int { (day + 6) % 7 }

  predicate ForDay(q: Query, r: Rule) {
    r.tenant == q.tenant && r.agent == q.agent &&
    (r.dayOfWeek == Some(Weekday(q.day)) || r.date == Some(q.day))
  }

  predicate Opens(q: Query, r: Rule) {
    ForDay(q, r) && (r.dayOfWeek.Some? || (r.date.Some? && !r.isBlock))
  }

  predicate Blocks(q: Query, r: Rule) {
    ForDay(q, r) && r.date.Some? && r.isBlock
  }

  predicate LiveFor(q: Query, a: Appointment) {
    a.tenant == q.tenant && a.agent == q.agent && Live(a)
  }

  // ---- what a free slot is ----

  predicate Overlap(s: Pair, w: Pair) {
    s.0 < w.1 && s.1 > w.0
  }

  /** The k-th cell of the grid that steps from the start of a window. */
  function Cell(w: Pair, step: int, k: nat): Pair {
    (w.0 + k * step, w.0 + k * step + step)
  }

  ghost predicate OnGrid(w: Pair, step: int, s: Pair) {
    exists k: nat :: s == Cell(w, step, k) && s.1 <= w.1
  }

  /** At least `gap` lies between the slot and the appointment. */
  predicate Clear(gap: int, s: Pair, a: Appointment) {
    s.1 + gap <= a.startAt || a.endAt + gap <= s.0
  }

  ghost predicate IsOpen(q: Query, s: Pair) {
    exists r :: r in q.rules && Opens(q, r) && OnGrid(q.Window(r), q.Step(), s)
  }

  ghost predicate IsFree(q: Query, s: Pair) {
    && IsOpen(q, s)
    && s.0 > q.now
    && (forall r :: r in q.rules && Blocks(q, r) ==> !Overlap(s, q.Window(r)))
    && (forall id :: id in q.table && LiveFor(q, q.table[id]) ==> Clear(q.Buffer(), s, q.table[id]))
  }

  // ---- the code's route to it ----

  function Windows(q: Query, rows: seq<Rule>, keep: (Query, Rule) -> bool): (ws: seq<Pair>)
    ensures forall w :: w in ws <==> exists r :: r in rows && keep(q, r) && w == q.Window(r)
  {
    if rows == [] then [] else
      var rest := Windows(q, rows[1..], keep);
      var ws := (if keep(q, rows[0]) then [q.Window(rows[0])] else []) + rest;
      assert forall w :: w in ws <==> exists r :: r in rows && keep(q, r) && w == q.Window(r) by {
        assert forall r :: r in rows <==> r == rows[0] || r in rows[1..];
      }
      ws
  }

  function MinStart(ws: seq<Pair>): (m: int)
    requires ws != []
    ensures forall w :: w in ws ==> m <= w.0
  {
    if |ws| == 1 then ws[0].0 else
      var m := MinStart(ws[1..]);
      assert forall w :: w in ws <==> w == ws[0] || w in ws[1..];
      if ws[0].0 < m then ws[0].0 else m
  }

  function MaxEnd(ws: seq<Pair>): (m: int)
    requires ws != []
    ensures forall w :: w in ws ==> w.1 <= m
  {
    if |ws| == 1 then ws[0].1 else
      var m := MaxEnd(ws[1..]);
      assert forall w :: w in ws <==> w == ws[0] || w in ws[1..];
      if ws[0].1 > m then ws[0].1 else m
  }

  /** The live appointments the bounded query fetches, each widened by the buffer. */
  function Busy(q: Query, lo: int, hi: int): set<Pair> {
    set id | id in q.table && LiveFor(q, q.table[id]) && q.table[id].startAt < hi && q.table[id].endAt > lo
      :: (q.table[id].startAt - q.Buffer(), q.table[id].endAt + q.Buffer())
  }

  function OpenWindows(q: Query): seq<Pair> { Windows(q, q.rules, Opens) }

  function BlockWindows(q: Query): set<Pair> {
    var blocked := Windows(q, q.rules, Blocks);
    set w | w in blocked
  }

  function BusyWindows(q: Query): set<Pair>
    requires OpenWindows(q) != []
  {
    Busy(q, MinStart(OpenWindows(q)) - q.Buffer(), MaxEnd(OpenWindows(q)) + q.Buffer())
  }

  predicate OverlapsAny(s: Pair, ws: set<Pair>) {
    exists w :: w in ws && Overlap(s, w)
  }

  /** The bounded fetch loses nothing: inside the span of the windows, missing the fetched
      appointments is clearing every live appointment of the agent by the buffer. */
  lemma BoundedFetchIsEnough(q: Query, lo: int, hi: int, s: Pair)
    requires lo <= s.0 && s.1 <= hi
    ensures !OverlapsAny(s, Busy(q, lo - q.Buffer(), hi + q.Buffer())) <==>
            forall id :: id in q.table && LiveFor(q, q.table[id]) ==> Clear(q.Buffer(), s, q.table[id])
  {
    var busy := Busy(q, lo - q.Buffer(), hi + q.Buffer());
    forall id | id in q.table && LiveFor(q, q.table[id]) && !Clear(q.Buffer(), s, q.table[id])
      ensures OverlapsAny(s, busy)
    {
      var a := q.table[id];
      assert (a.startAt - q.Buffer(), a.endAt + q.Buffer()) in busy;
    }
  }

  ghost predicate OnGridBelow(w: Pair, step: int, k: nat, s: Pair) {
    exists j: nat :: j < k && s == Cell(w, step, j) && s.1 <= w.1
  }

  lemma CellsAscend(w: Pair, step: int, i: nat, j: nat)
    requires step > 0 && i <= j
    ensures Cell(w, step, i).0 <= Cell(w, step, j).0
    ensures Cell(w, step, i).1 <= Cell(w, step, j).1
  {
    assert j * step == i * step + (j - i) * step;
    assert (j - i) * step >= 0;
  }

  /** Once a cell sticks out of the window, so do all later ones. */
  lemma GridEnds(w: Pair, step: int, k: nat)
    requires step > 0 && Cell(w, step, k).1 > w.1
    ensures forall s :: OnGrid(w, step, s) <==> OnGridBelow(w, step, k, s)
  {
    forall s | OnGrid(w, step, s) ensures OnGridBelow(w, step, k, s) {
      var j: nat :| s == Cell(w, step, j) && s.1 <= w.1;
      if k <= j { CellsAscend(w, step, k, j); }
    }
  }

  lemma NextCell(w: Pair, step: int, k: nat)
    ensures Cell(w, step, k + 1).0 == Cell(w, step, k).0 + step
    ensures forall s :: OnGridBelow(w, step, k + 1, s) <==>
              OnGridBelow(w, step, k, s) || (s == Cell(w, step, k) && s.1 <= w.1)
  {
    assert (k + 1) * step == k * step + step;
  }

  /** The filter of the inner loop, and what the accepted slots come from. */
  ghost predicate Passes(q: Query, s: Pair, blocks: set<Pair>, busy: set<Pair>) {
    s.0 > q.now && !OverlapsAny(s, blocks) && !OverlapsAny(s, busy)
  }

  ghost predicate FromWindows(ws: seq<Pair>, n: nat, step: int, s: Pair)
    requires n <= |ws|
  {
    exists i :: 0 <= i < n && OnGrid(ws[i], step, s)
  }

  /** Cuts one window, appending the free cells that are not listed yet. */
  method CutWindow(q: Query, w: Pair, blocks: set<Pair>, busy: set<Pair>, before: seq<Pair>)
    returns (slots: seq<Pair>)
    requires Distinct(before)
    ensures Distinct(slots)
    ensures forall s :: s in slots <==>
              s in before || (OnGrid(w, q.Step(), s) && Passes(q, s, blocks, busy))
  {
    slots := before;
    var cursor, step := w.0, q.Step();
    ghost var k: nat := 0;
    assert Cell(w, step, 0).0 == w.0;
    while cursor + step <= w.1
      invariant cursor == Cell(w, step, k).0
      invariant Distinct(slots)
      invariant forall s :: s in slots <==>
                  s in before || (OnGridBelow(w, step, k, s) && Passes(q, s, blocks, busy))
      decreases w.1 - cursor
    {
      var slot := (cursor, cursor + step);
      NextCell(w, step, k);
      if slot.0 > q.now && !OverlapsAny(slot, blocks) && !OverlapsAny(slot, busy) && slot !in slots {
        slots := slots + [slot];
      }
      cursor := cursor + step;
      k := k + 1;
    }
    GridEnds(w, step, k);
  }

  /** The windows of the day cover exactly what the open rules cover. */
  lemma CoveredIffOpen(q: Query, ws: seq<Pair>, s: Pair)
    requires forall w :: w in ws <==> w in OpenWindows(q)
    ensures FromWindows(ws, |ws|, q.Step(), s) <==> IsOpen(q, s)
  {
    if IsOpen(q, s) {
      var r :| r in q.rules && Opens(q, r) && OnGrid(q.Window(r), q.Step(), s);
      assert q.Window(r) in ws;
    }
    if FromWindows(ws, |ws|, q.Step(), s) {
      var i :| 0 <= i < |ws| && OnGrid(ws[i], q.Step(), s);
      assert ws[i] in ws;
    }
  }

  lemma BlockedIffBlockRule(q: Query, s: Pair)
    ensures OverlapsAny(s, BlockWindows(q)) <==>
            exists r :: r in q.rules && Blocks(q, r) && Overlap(s, q.Window(r))
  {
    if r :| r in q.rules && Blocks(q, r) && Overlap(s, q.Window(r)) {
      assert q.Window(r) in BlockWindows(q);
    }
  }

  lemma FreeLength(q: Query, s: Pair)
    requires IsFree(q, s)
    ensures s.1 == s.0 + q.Step()
  {
  }

  lemma OpenLiesInSpan(q: Query, s: Pair)
    requires OpenWindows(q) != [] && IsOpen(q, s)
    ensures MinStart(OpenWindows(q)) <= s.0 && s.1 <= MaxEnd(OpenWindows(q))
  {
    var r :| r in q.rules && Opens(q, r) && OnGrid(q.Window(r), q.Step(), s);
    var w := q.Window(r);
    assert w in OpenWindows(q);
    var k: nat :| s == Cell(w, q.Step(), k) && s.1 <= w.1;
    CellsAscend(w, q.Step(), 0, k);
  }

  lemma AcceptedIffFree(q: Query, s: Pair)
    requires OpenWindows(q) != []
    ensures IsOpen(q, s) && Passes(q, s, BlockWindows(q), BusyWindows(q)) <==> IsFree(q, s)
  {
    BlockedIffBlockRule(q, s);
    if IsOpen(q, s) {
      OpenLiesInSpan(q, s);
      BoundedFetchIsEnough(q, MinStart(OpenWindows(q)), MaxEnd(OpenWindows(q)), s);
    }
  }

  /** All slots have the same length, so distinct slots have distinct starts. */
  method SortedSlots(q: Query, slots: seq<Pair>) returns (r: seq<Pair>)
    requires Distinct(slots)
    requires forall s :: s in slots ==> s.1 == s.0 + q.Step()
    ensures forall s :: s in r <==> s in slots
    ensures forall i, j :: 0 <= i < j < |r| ==> r[i].0 < r[j].0
  {
    r := Sort(slots);
    SortMembers(slots);
    SortAscends(slots);
    forall i, j | 0 <= i < j < |r| ensures r[i].0 < r[j].0 {
      assert r[i] in slots && r[j] in slots;
    }
  }

  /** Cuts the windows one after the other. */
  method CutWindows(q: Query, ws: seq<Pair>, blocks: set<Pair>, busy: set<Pair>) returns (slots: seq<Pair>)
    ensures Distinct(slots)
    ensures forall s :: s in slots <==> FromWindows(ws, |ws|, q.Step(), s) && Passes(q, s, blocks, busy)
  {
    slots := [];
    for n := 0 to |ws|
      invariant Distinct(slots)
      invariant forall s :: s in slots <==> FromWindows(ws, n, q.Step(), s) && Passes(q, s, blocks, busy)
    {
      slots := CutWindow(q, ws[n], blocks, busy, slots);
    }
  }

  // ---- a free slot in plain terms ----

  /** Monday is 0, and so was 0001-01-01, day 1. */
  predicate FallsOn(dayOfWeek: int, day: int) { 0 <= dayOfWeek < 7 && (day - 1 - dayOfWeek) % 7 == 0 }

  /** The rule is the agent's own and opens the day: weekly on its weekday, or dated and not a
      block. A row carrying both a weekday and a date opens on either. */
  predicate PlainlyOpens(q: Query, r: Rule) {
    && r.tenant == q.tenant && r.agent == q.agent
    && ((r.dayOfWeek.Some? && (FallsOn(r.dayOfWeek.value, q.day) || r.date == Some(q.day))) ||
        (r.date == Some(q.day) && !r.isBlock))
  }

  /** A dated block, for this date; a row carrying a weekday as well also blocks on that weekday. */
  predicate PlainlyBlocks(q: Query, r: Rule) {
    && r.tenant == q.tenant && r.agent == q.agent && r.date.Some? && r.isBlock
    && (r.date == Some(q.day) || (r.dayOfWeek.Some? && FallsOn(r.dayOfWeek.value, q.day)))
  }

  ghost predicate PlainlyInside(q: Query, r: Rule, s: Pair, length: int) {
    exists k: nat :: KthSlot(q.toUtc(q.day, r.startTime), k, length) == s && s.1 <= q.toUtc(q.day, r.endTime)
  }

  function KthSlot(start: int, k: nat, length: int): Pair { (start + length * k, start + length * (k + 1)) }

  lemma PlainWeekday(r: Rule, day: int)
    ensures r.dayOfWeek == Some(Weekday(day)) <==> r.dayOfWeek.Some? && FallsOn(r.dayOfWeek.value, day)
  {
  }

  lemma PlainCell(w: Pair, step: int, k: nat)
    ensures Cell(w, step, k) == KthSlot(w.0, k, step)
  {
    assert step * (k + 1) == step * k + step;
  }

  lemma PlainGrid(q: Query, r: Rule, s: Pair)
    ensures OnGrid(q.Window(r), q.Step(), s) <==> PlainlyInside(q, r, s, q.Step())
  {
    var w := q.Window(r);
    if OnGrid(w, q.Step(), s) {
      var k: nat :| s == Cell(w, q.Step(), k) && s.1 <= w.1;
      PlainCell(w, q.Step(), k);
    }
    if PlainlyInside(q, r, s, q.Step()) {
      var k: nat :| KthSlot(w.0, k, q.Step()) == s && s.1 <= w.1;
      PlainCell(w, q.Step(), k);
    }
  }

  lemma PlainOpens(q: Query, r: Rule)
    ensures Opens(q, r) <==> PlainlyOpens(q, r)
    ensures Blocks(q, r) <==> PlainlyBlocks(q, r)
  {
    PlainWeekday(r, q.day);
  }

  /** With n minutes to a slot and m to the buffer, as configured or by default, a slot is free exactly when it is n minutes
      long, starts after now, is a whole number of slots into an opening rule's hours and ends within
      them, misses the hours of every block of that day, and leaves m minutes to every requested
      or confirmed appointment of the agent. */
  lemma FreeInPlainTerms(q: Query, s: Pair, n: int, m: int)
    requires n == if q.slotMinutes.Int? && 5 <= q.slotMinutes.n <= 480 then q.slotMinutes.n else 60
    requires m == if q.bufferMinutes.Int? && 0 <= q.bufferMinutes.n <= 240 then q.bufferMinutes.n
                  else if q.bufferMinutes == Bool(true) then 1 else 0
    ensures IsFree(q, s) <==>
      && s.0 > q.now
      && (exists r :: r in q.rules && PlainlyOpens(q, r) && PlainlyInside(q, r, s, n * 60_000_000))
      && (forall r :: r in q.rules && PlainlyBlocks(q, r) ==>
            s.1 <= q.toUtc(q.day, r.startTime) || q.toUtc(q.day, r.endTime) <= s.0)
      && (forall id :: id in q.table && q.table[id].tenant == q.tenant && q.table[id].agent == q.agent &&
                       q.table[id].status in {Requested, Confirmed} ==>
            s.1 + m * 60_000_000 <= q.table[id].startAt || q.table[id].endAt + m * 60_000_000 <= s.0)
    ensures IsFree(q, s) ==> s.1 == s.0 + n * 60_000_000
  {
    forall r ensures (Opens(q, r) <==> PlainlyOpens(q, r)) && (Blocks(q, r) <==> PlainlyBlocks(q, r)) { PlainOpens(q, r); }
    forall r ensures OnGrid(q.Window(r), q.Step(), s) <==> PlainlyInside(q, r, s, n * 60_000_000) { PlainGrid(q, r, s); }
    if IsFree(q, s) { FreeLength(q, s); }
  }

  /** Exactly the free slots, by strictly increasing start. */
  method FreeSlots(q: Query) returns (slots: seq<Pair>)
    ensures forall s :: s in slots <==> IsFree(q, s)
    ensures forall n :: q.slotMinutes == Int(n) && 5 <= n <= 480 ==> forall s :: s in slots ==> s.1 == s.0 + n * 60_000_000
    ensures forall i, j :: 0 <= i < j < |slots| ==> slots[i].0 < slots[j].0
  {
    var open := OpenWindows(q);
    if open == [] {
      forall s ensures !IsFree(q, s) {
        CoveredIffOpen(q, open, s);
      }
      return [];
    }
    var ws := Sort(open);
    SortMembers(open);
    var cut := CutWindows(q, ws, BlockWindows(q), BusyWindows(q));
    forall s ensures s in cut <==> IsFree(q, s) {
      CoveredIffOpen(q, ws, s);
      AcceptedIffFree(q, s);
    }
    forall s | s in cut ensures s.1 == s.0 + q.Step() {
      FreeLength(q, s);
    }
    slots := SortedSlots(q, cut);
  }
}
