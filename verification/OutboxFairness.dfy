/** No starvation in the outbox: one relay at a time and a clock that does not go back. A retried
    event always moves behind an event that was already due; a newly committed one may still sort
    ahead of it, because an event is stamped with the start of its producer's transaction. */
module OutboxFairness {
  import opened Lex
  import opened Runs
  import opened Outbox

  /** `clock` is the `now` of the latest drain. */
  datatype Queue = Queue(registry: Registry, rows: map<int, Event>, clock: int)

  /** A drain happens `elapsed` after the previous one; a committed event may carry any due time. */
  datatype Action =
    | Emit(id: int, kind: int, dueAt: int)
    | Drain(elapsed: nat, ok: (int, int) -> bool)

  function Batch(q: Queue, elapsed: nat): seq<Pair> {
    Claim(q.rows, {}, q.clock + elapsed)
  }

  ghost function Step(q: Queue, a: Action): Queue {
    match a
    case Emit(id, kind, dueAt) =>
      if id in q.rows then q else q.(rows := q.rows[id := Event(kind, Pending, 0, dueAt)])
    case Drain(elapsed, ok) =>
      var now := q.clock + elapsed;
      q.(rows := DrainedRows(q.registry, q.rows, Batch(q, elapsed), now, ok), clock := now)
  }

  function Drains(acts: seq<Action>): nat {
    if acts == [] then 0 else (if acts[0].Drain? then 1 else 0) + Drains(acts[1..])
  }

  /** The events of the run that sort ahead of `p` when they are committed. */
  function Late(acts: seq<Action>, p: Pair): nat {
    if acts == [] then 0 else (if SortsAhead(acts[0], p) then 1 else 0) + Late(acts[1..], p)
  }

  predicate SortsAhead(a: Action, p: Pair) { a.Emit? && Less((a.dueAt, a.id), p) }

  /** The i-th action is a drain whose batch holds the event. */
  ghost predicate ClaimedAt(q: Queue, acts: seq<Action>, i: int, id: int)
    requires 0 <= i < |acts|
  {
    acts[i].Drain? && InBatch(Batch(Run(Step, q, acts[..i]), acts[i].elapsed), id)
  }

  /** Some drain of the run claims the event. */
  ghost predicate Claimed(q: Queue, acts: seq<Action>, id: int) {
    exists i :: 0 <= i < |acts| && ClaimedAt(q, acts, i, id)
  }

  lemma ClaimedNow(q: Queue, acts: seq<Action>, id: int)
    requires acts != [] && acts[0].Drain? && InBatch(Batch(q, acts[0].elapsed), id)
    ensures Claimed(q, acts, id)
  {
    assert acts[..0] == [];
    assert ClaimedAt(q, acts, 0, id);
  }

  lemma ClaimedLater(q: Queue, acts: seq<Action>, id: int)
    requires acts != [] && Claimed(Step(q, acts[0]), acts[1..], id)
    ensures Claimed(q, acts, id)
  {
    var i :| 0 <= i < |acts[1..]| && ClaimedAt(Step(q, acts[0]), acts[1..], i, id);
    ClaimedShift(q, acts, i, id);
  }

  lemma ClaimedShift(q: Queue, acts: seq<Action>, i: int, id: int)
    requires 0 <= i < |acts| - 1 && ClaimedAt(Step(q, acts[0]), acts[1..], i, id)
    ensures ClaimedAt(q, acts, i + 1, id)
  {
    var tail := acts[1..];
    assert acts[..i + 1] == [acts[0]] + tail[..i] && tail[i] == acts[i + 1];
    Concat(Step, q, [acts[0]], tail[..i]);
    RunOne(Step, q, acts[0]);
  }

  ghost predicate Waiting(q: Queue, id: int) {
    id in q.rows && Due(q.rows[id], q.clock)
  }

  /** The pending events sorted ahead of `id`. */
  function Ahead(rows: map<int, Event>, id: int): set<Pair>
    requires id in rows
  {
    set j | j in rows && rows[j].status == Pending && Less((rows[j].dueAt, j), (rows[id].dueAt, id)) :: (rows[j].dueAt, j)
  }

  /** An event adds at most itself to what is ahead, and only if it sorts there. */
  lemma EmitAddsLate(q: Queue, a: Action, id: int)
    requires Waiting(q, id) && a.Emit?
    ensures Waiting(Step(q, a), id) && Step(q, a).rows[id] == q.rows[id]
    ensures |Ahead(Step(q, a).rows, id)| <= |Ahead(q.rows, id)| + (if SortsAhead(a, (q.rows[id].dueAt, id)) then 1 else 0)
  {
    var ahead, ahead' := Ahead(q.rows, id), Ahead(Step(q, a).rows, id);
    var late := if SortsAhead(a, (q.rows[id].dueAt, id)) then {(a.dueAt, a.id)} else {};
    forall p | p in ahead' ensures p in ahead + late {
      if p.1 in q.rows { assert Step(q, a).rows[p.1] == q.rows[p.1]; }
    }
    assert ahead' <= ahead + late;
    SubsetSize(ahead', ahead + late);
  }

  lemma SubsetSize(a: set<Pair>, b: set<Pair>)
    requires a <= b
    ensures |a| <= |b|
  {
    assert b == a + (b - a);
  }

  lemma BatchIsAhead(q: Queue, a: Action, id: int)
    requires Waiting(q, id) && a.Drain? && !InBatch(Batch(q, a.elapsed), id)
    ensures Elems(Batch(q, a.elapsed)) <= Ahead(q.rows, id)
  {
    var now := q.clock + a.elapsed;
    var batch := Batch(q, a.elapsed);
    ClaimIsSound(q.rows, {}, now);
    ClaimIsFair(q.rows, {}, now, id);
    forall p | p in batch ensures p in Ahead(q.rows, id) {
      var i :| 0 <= i < |batch| && batch[i] == p;
      assert q.rows[p.1].dueAt == p.0;
    }
  }

  /** A drain that passes an event over removes a full batch from ahead of it and puts nothing
      new there. */
  lemma DrainShrinksAhead(q: Queue, a: Action, id: int)
    requires Waiting(q, id) && a.Drain? && !InBatch(Batch(q, a.elapsed), id)
    ensures Waiting(Step(q, a), id) && Step(q, a).rows[id] == q.rows[id]
    ensures |Ahead(Step(q, a).rows, id)| == |Ahead(q.rows, id)| - BATCH_SIZE
  {
    var batch := Batch(q, a.elapsed);
    FullBatch(q, a, id);
    BatchIsAhead(q, a, id);
    forall p { AheadAfter(q, a, id, p); }
    assert Ahead(Step(q, a).rows, id) == Ahead(q.rows, id) - Elems(batch);
    Removed(Ahead(q.rows, id), Elems(batch));
  }

  lemma FullBatch(q: Queue, a: Action, id: int)
    requires Waiting(q, id) && a.Drain? && !InBatch(Batch(q, a.elapsed), id)
    ensures |Elems(Batch(q, a.elapsed))| == BATCH_SIZE
  {
    var now := q.clock + a.elapsed;
    ClaimIsSound(q.rows, {}, now);
    ClaimIsFair(q.rows, {}, now, id);
    AscendingCount(Batch(q, a.elapsed));
  }

  lemma Removed(a: set<Pair>, b: set<Pair>)
    requires b <= a
    ensures |a - b| == |a| - |b|
  {
    assert a == (a - b) + b;
  }

  /** A drain sends a claimed row into the future or retires it, and leaves the others alone. */
  lemma RowAfter(q: Queue, a: Action, j: int)
    requires a.Drain? && j in q.rows
    ensures j in Step(q, a).rows
    ensures if InBatch(Batch(q, a.elapsed), j)
            then Step(q, a).rows[j].status == Pending ==> Step(q, a).rows[j].dueAt > q.clock + a.elapsed
            else Step(q, a).rows[j] == q.rows[j]
  {
  }

  lemma InBatchIffListed(q: Queue, a: Action, j: int)
    requires a.Drain? && j in q.rows
    ensures InBatch(Batch(q, a.elapsed), j) <==> (q.rows[j].dueAt, j) in Batch(q, a.elapsed)
  {
    var batch := Batch(q, a.elapsed);
    ClaimIsSound(q.rows, {}, q.clock + a.elapsed);
    if InBatch(batch, j) {
      var i :| 0 <= i < |batch| && batch[i].1 == j;
      assert batch[i] == (q.rows[j].dueAt, j);
    }
  }

  lemma AheadAfter(q: Queue, a: Action, id: int, p: Pair)
    requires Waiting(q, id) && a.Drain? && !InBatch(Batch(q, a.elapsed), id)
    ensures Waiting(Step(q, a), id) && Step(q, a).rows[id] == q.rows[id]
    ensures p in Ahead(Step(q, a).rows, id) <==> p in Ahead(q.rows, id) && p !in Batch(q, a.elapsed)
  {
    RowAfter(q, a, id);
    if p.1 in q.rows {
      RowAfter(q, a, p.1);
      InBatchIffListed(q, a, p.1);
    }
  }

  /** A due event with k pending events ahead of it, and m more committed ahead of it meanwhile, is
      claimed within (k + m) / 100 + 1 drains, whatever the handlers do. */
  lemma {:induction false} ClaimedInTurn(q: Queue, acts: seq<Action>, id: int)
    requires Waiting(q, id)
    requires Drains(acts) > (|Ahead(q.rows, id)| + Late(acts, (q.rows[id].dueAt, id))) / 100
    ensures Claimed(q, acts, id)
    decreases |acts|
  {
    var a := acts[0];
    if !a.Drain? {
      EmitAddsLate(q, a, id);
      ClaimedInTurn(Step(q, a), acts[1..], id);
      ClaimedLater(q, acts, id);
    } else if InBatch(Batch(q, a.elapsed), id) {
      ClaimedNow(q, acts, id);
    } else {
      DrainShrinksAhead(q, a, id);
      ClaimedInTurn(Step(q, a), acts[1..], id);
      ClaimedLater(q, acts, id);
    }
  }

  lemma {:induction false} NothingLate(acts: seq<Action>, p: Pair)
    requires forall a :: a in acts ==> !SortsAhead(a, p)
    ensures Late(acts, p) == 0
  {
    if acts != [] { NothingLate(acts[1..], p); }
  }

  /** If no event is committed ahead of it, k / 100 + 1 drains are enough. */
  lemma NoStarvation(q: Queue, acts: seq<Action>, id: int)
    requires Waiting(q, id)
    requires forall a :: a in acts ==> !SortsAhead(a, (q.rows[id].dueAt, id))
    requires Drains(acts) > |Ahead(q.rows, id)| / 100
    ensures Claimed(q, acts, id)
  {
    NothingLate(acts, (q.rows[id].dueAt, id));
    ClaimedInTurn(q, acts, id);
  }

  /** A committed event is one more pending row with no attempts yet, unless its id is taken. */
  lemma EmitInPlainTerms(q: Queue, id: int, kind: int, dueAt: int)
    ensures Step(q, Action.Emit(id, kind, dueAt)) ==
            if id in q.rows then q else Queue(q.registry, q.rows[id := Event(kind, Pending, 0, dueAt)], q.clock)
  {
  }

  /** The bound once more, spelled out: some drain of the run, started in the state the actions before it
      leave, has the event in its claim. */
  lemma ClaimedInPlainTerms(q: Queue, acts: seq<Action>, id: int) returns (i: nat, j: nat)
    requires id in q.rows && q.rows[id].status == Pending && q.rows[id].dueAt <= q.clock
    requires Drains(acts) > (|Ahead(q.rows, id)| + Late(acts, (q.rows[id].dueAt, id))) / 100
    ensures i < |acts| && acts[i].Drain?
    ensures var t := Run(Step, q, acts[..i]);
            var batch := Claim(t.rows, {}, t.clock + acts[i].elapsed);
            j < |batch| && batch[j].1 == id
  {
    i := ClaimingDrain(q, acts, id);
    j := PlaceInBatch(q, acts, i, id);
  }

  lemma ClaimingDrain(q: Queue, acts: seq<Action>, id: int) returns (i: nat)
    requires Waiting(q, id)
    requires Drains(acts) > (|Ahead(q.rows, id)| + Late(acts, (q.rows[id].dueAt, id))) / 100
    ensures i < |acts| && ClaimedAt(q, acts, i, id)
  {
    ClaimedInTurn(q, acts, id);
    i :| i < |acts| && ClaimedAt(q, acts, i, id);
  }

  lemma PlaceInBatch(q: Queue, acts: seq<Action>, i: nat, id: int) returns (j: nat)
    requires i < |acts| && ClaimedAt(q, acts, i, id)
    ensures acts[i].Drain?
    ensures var t := Run(Step, q, acts[..i]);
            var batch := Claim(t.rows, {}, t.clock + acts[i].elapsed);
            j < |batch| && batch[j].1 == id
  {
    var batch := Batch(Run(Step, q, acts[..i]), acts[i].elapsed);
    j :| j < |batch| && batch[j].1 == id;
  }

  /** What is ahead: the pending events due earlier, or at the same instant with a smaller id. */
  lemma AheadInPlainTerms(rows: map<int, Event>, id: int, dueAt: int, other: int)
    requires id in rows
    ensures (dueAt, other) in Ahead(rows, id) <==>
      && other in rows && rows[other].status == Pending && rows[other].dueAt == dueAt
      && (dueAt < rows[id].dueAt || (dueAt == rows[id].dueAt && other < id))
  {
  }

  // ---- what is counted ----

  /** Drains and late events are counted one by one. */
  lemma {:induction false} CountsAdd(a: seq<Action>, b: seq<Action>, p: Pair)
    ensures Drains(a + b) == Drains(a) + Drains(b)
    ensures Late(a + b, p) == Late(a, p) + Late(b, p)
    decreases |a|
  {
    if a == [] {
      assert a + b == b;
    } else {
      assert (a + b)[1..] == a[1..] + b;
      CountsAdd(a[1..], b, p);
    }
  }

  lemma CountsOne(a: Action, p: Pair)
    ensures Drains([a]) == if a.Drain? then 1 else 0
    ensures Late([a], p) == if a.Emit? && (a.dueAt < p.0 || (a.dueAt == p.0 && a.id < p.1)) then 1 else 0
  {
    assert [a][1..] == [];
  }
}
