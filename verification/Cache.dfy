/** Versioned cache-aside. A reader takes separate steps (read the version, fetch the value, load
    from the database, store); a writer commits and only then increments the version. A value
    is represented by the writes it reflects, so "stale" means "misses a write". */
module Cache {
  import opened Options
  import opened Runs
  import opened Text

  /** Invalidation is per (tenant, entity). */
  datatype Scope = Scope(tenant: string, entity: string)

  datatype Key = Key(scope: Scope, ident: string, version: nat)

  type Value = set<int>

  const INITIAL_VERSION: nat := 0

  function Version(counters: map<Scope, nat>, scope: Scope): nat {
    if scope in counters then counters[scope] else INITIAL_VERSION
  }

  // ---- key names ----

  function KeyName(k: Key): string {
    "cache:" + k.scope.tenant + ":" + k.scope.entity + ":" + k.ident + ":v" + Decimal(k.version)
  }

  /** Two entries share a Redis key only if they are the same entry, whatever the ident holds. */
  lemma KeyNamesAreDistinct(k: Key, l: Key)
    requires ':' !in k.scope.tenant && ':' !in k.scope.entity
    requires ':' !in l.scope.tenant && ':' !in l.scope.entity
    requires KeyName(k) == KeyName(l)
    ensures k == l
  {
    var kt, lt := "v" + Decimal(k.version), "v" + Decimal(l.version);
    var kh := "cache:" + k.scope.tenant + ":" + k.scope.entity + ":" + k.ident;
    var lh := "cache:" + l.scope.tenant + ":" + l.scope.entity + ":" + l.ident;
    assert KeyName(k) == kh + [':'] + kt && KeyName(l) == lh + [':'] + lt;
    assert ':' !in kt && ':' !in lt;
    SplitLast(kh, kt, lh, lt, ':');
    assert kt[1..] == Decimal(k.version) && lt[1..] == Decimal(l.version);
    DecimalRoundTrip(k.version);
    DecimalRoundTrip(l.version);
    var ki, li := k.scope.entity + ":" + k.ident, l.scope.entity + ":" + l.ident;
    assert kh[6..] == k.scope.tenant + [':'] + ki && lh[6..] == l.scope.tenant + [':'] + li;
    SplitFirst(k.scope.tenant, ki, l.scope.tenant, li, ':');
    SplitFirst(k.scope.entity, k.ident, l.scope.entity, l.ident, ':');
  }

  // ---- one call at a time ----

  class RedisCache {
    var counters: map<Scope, nat>
    var values: map<Key, Value>

    constructor ()
      ensures counters == map[] && values == map[]
    {
      counters, values := map[], map[];
    }

    /** A Redis that does not answer leaves the write to be seen when the stored values expire. */
    method BumpVersion(scope: Scope, answers: bool)
      modifies this
      ensures counters == if answers then old(counters)[scope := (if scope in old(counters) then old(counters)[scope] else 0) + 1]
                          else old(counters)
      ensures values == old(values)
    {
      if answers { counters := counters[scope := Version(counters, scope) + 1]; }
    }

    /** `answers` and `stores` say whether Redis answers then, `readable` whether a stored blob still
        deserializes; `loaded` is what the loader returns. A second call right after a miss that
        was stored is a hit on the same value. */
    method CacheAside(enabled: bool, scope: Scope, ident: string, answers: bool, readable: bool, stores: bool, loaded: Value)
      returns (value: Value)
      modifies this
      ensures counters == old(counters)
      ensures var key := Key(scope, ident, if scope in old(counters) then old(counters)[scope] else 0);
              if !enabled || !answers then value == loaded && values == old(values)
              else if key in old(values) && readable then value == old(values)[key] && values == old(values)
              else value == loaded && values == if stores then old(values)[key := loaded] else old(values)
    {
      if !enabled || !answers { return loaded; }
      var version := Version(counters, scope);
      var key := Key(scope, ident, version);
      if key in values && readable { return values[key]; }
      value := loaded;
      if stores { values := values[key := value]; }
    }
  }

  // ---- every interleaving ----

  /** A write whose transaction has committed, and the version its increment produced. */
  datatype Write = Committed(scope: Scope) | Bumped(scope: Scope, version: nat)

  /** A call in flight. It holds no key when Redis failed it: it will load and not store. */
  datatype Call =
    | Looked(key: Key)
    | Missed(scope: Scope, slot: Option<Key>)
    | Loaded(key: Key, got: Value)
    | Done(scope: Scope, slot: Option<Key>, got: Value)

  datatype State = State(writes: map<int, Write>, counters: map<Scope, nat>, values: map<Key, Value>, calls: map<int, Call>)

  datatype Action =
    | CommitWrite(w: int, scope: Scope)
    | Bump(w: int)
    | Lookup(c: int, scope: Scope, ident: string)
    | LookupFails(c: int, scope: Scope)
    | Fetch(c: int, readable: bool)
    | FetchFails(c: int)
    | Load(c: int)
    | Store(c: int, works: bool)
    | Expire(key: Key)

  const INIT := State(map[], map[], map[], map[])

  /** What a load sees under READ COMMITTED: every committed write of the scope. */
  function Snapshot(s: State, scope: Scope): Value {
    set w | w in s.writes && s.writes[w].scope == scope
  }

  /** The next step of a call in flight. */
  function Advance(s: State, call: Call, a: Action): Call {
    match (a, call)
    case (Fetch(_, readable), Looked(key)) =>
      if key in s.values && readable then Done(key.scope, Some(key), s.values[key])
      else Missed(key.scope, Some(key))
    case (FetchFails(_), Looked(key)) => Missed(key.scope, None)
    case (Load(_), Missed(scope, None)) => Done(scope, None, Snapshot(s, scope))
    case (Load(_), Missed(scope, Some(key))) => Loaded(key, Snapshot(s, scope))
    case (Store(_, _), Loaded(key, got)) => Done(key.scope, Some(key), got)
    case _ => call
  }

  function Begin(s: State, c: int, call: Call): State {
    if c in s.calls then s else s.(calls := s.calls[c := call])
  }

  function Move(s: State, c: int, a: Action): State {
    if c in s.calls then s.(calls := s.calls[c := Advance(s, s.calls[c], a)]) else s
  }

  function Step(s: State, a: Action): State {
    match a
    case CommitWrite(w, scope) =>
      if w in s.writes then s else s.(writes := s.writes[w := Committed(scope)])
    case Bump(w) =>
      if w in s.writes && s.writes[w].Committed? then
        var scope := s.writes[w].scope;
        var v := Version(s.counters, scope) + 1;
        s.(counters := s.counters[scope := v], writes := s.writes[w := Bumped(scope, v)])
      else s
    case Lookup(c, scope, ident) => Begin(s, c, Looked(Key(scope, ident, Version(s.counters, scope))))
    case LookupFails(c, scope) => Begin(s, c, Missed(scope, None))
    case Fetch(c, _) => Move(s, c, a)
    case FetchFails(c) => Move(s, c, a)
    case Load(c) => Move(s, c, a)
    case Store(c, works) =>
      var s' := Move(s, c, a);
      if works && c in s.calls && s.calls[c].Loaded?
      then s'.(values := s.values[s.calls[c].key := s.calls[c].got]) else s'
    case Expire(key) => s.(values := s.values - {key})
  }

  // ---- freshness ----

  /** The value reflects every write whose increment produced this version or an earlier one. */
  ghost predicate Covers(s: State, key: Key, got: Value) {
    && key.version <= Version(s.counters, key.scope)
    && forall w :: w in s.writes && BumpedBy(s.writes[w], key) ==> w in got
  }

  predicate BumpedBy(write: Write, key: Key) {
    write.Bumped? && write.scope == key.scope && write.version <= key.version
  }

  ghost predicate CallOk(s: State, call: Call) {
    match call
    case Looked(key) => key.version <= Version(s.counters, key.scope)
    case Missed(scope, slot) => slot.Some? ==> slot.value.scope == scope && slot.value.version <= Version(s.counters, scope)
    case Loaded(key, got) => Covers(s, key, got)
    case Done(scope, slot, got) => slot.Some? ==> slot.value.scope == scope && Covers(s, slot.value, got)
  }

  ghost predicate Inv(s: State) {
    && (forall w :: w in s.writes && s.writes[w].Bumped? ==> s.writes[w].version <= Version(s.counters, s.writes[w].scope))
    && (forall key :: key in s.values ==> Covers(s, key, s.values[key]))
    && (forall c :: c in s.calls ==> CallOk(s, s.calls[c]))
  }

  /** An increment produces a version no held or stored key carries yet. */
  lemma BumpKeepsCovers(s: State, w: int, key: Key, got: Value)
    requires Covers(s, key, got)
    ensures Covers(Step(s, Bump(w)), key, got)
  {
  }

  lemma BumpKeeps(s: State, w: int)
    requires Inv(s)
    ensures Inv(Step(s, Bump(w)))
  {
    var s' := Step(s, Bump(w));
    forall key | key in s'.values ensures Covers(s', key, s'.values[key]) {
      BumpKeepsCovers(s, w, key, s.values[key]);
    }
    forall c | c in s'.calls ensures CallOk(s', s'.calls[c]) {
      assert CallOk(s, s.calls[c]);
      match s.calls[c]
      case Loaded(key, got) => BumpKeepsCovers(s, w, key, got);
      case Done(_, Some(key), got) => BumpKeepsCovers(s, w, key, got);
      case _ =>
    }
  }

  /** A load covers the version the call looked up, since a bumped write has committed. */
  lemma LoadCovers(s: State, key: Key)
    requires key.version <= Version(s.counters, key.scope)
    ensures Covers(s, key, Snapshot(s, key.scope))
  {
  }

  lemma AdvanceKeeps(s: State, call: Call, a: Action)
    requires Inv(s) && CallOk(s, call)
    ensures CallOk(s, Advance(s, call, a))
  {
    match (a, call)
    case (Load(_), Missed(scope, Some(key))) => LoadCovers(s, key);
    case _ =>
  }

  /** Only an increment touches the counters or the set of bumped writes. */
  lemma QuietKeepsCovers(s: State, a: Action, key: Key, got: Value)
    requires !a.Bump? && Covers(s, key, got)
    ensures Covers(Step(s, a), key, got)
  {
    var s' := Step(s, a);
    assert forall w :: w in s'.writes && s'.writes[w].Bumped? ==> w in s.writes && s.writes[w] == s'.writes[w];
  }

  lemma QuietKeepsCall(s: State, a: Action, call: Call)
    requires !a.Bump? && CallOk(s, call)
    ensures CallOk(Step(s, a), call)
  {
    assert Step(s, a).counters == s.counters;
    match call
    case Loaded(key, got) => QuietKeepsCovers(s, a, key, got);
    case Done(_, Some(key), got) => QuietKeepsCovers(s, a, key, got);
    case _ =>
  }

  lemma CallsAdvance(s: State, a: Action, c: int)
    requires c in s.calls
    ensures c in Step(s, a).calls && Step(s, a).calls[c] in {s.calls[c], Advance(s, s.calls[c], a)}
  {
  }

  lemma CallsBeginOk(s: State, a: Action, c: int)
    requires c !in s.calls && c in Step(s, a).calls
    ensures CallOk(s, Step(s, a).calls[c])
  {
  }

  lemma QuietKeepsCalls(s: State, a: Action, c: int)
    requires Inv(s) && !a.Bump? && c in Step(s, a).calls
    ensures CallOk(Step(s, a), Step(s, a).calls[c])
  {
    if c in s.calls {
      AdvanceKeeps(s, s.calls[c], a);
      CallsAdvance(s, a, c);
    } else {
      CallsBeginOk(s, a, c);
    }
    QuietKeepsCall(s, a, Step(s, a).calls[c]);
  }

  lemma QuietKeepsValues(s: State, a: Action, key: Key)
    requires Inv(s) && !a.Bump? && key in Step(s, a).values
    ensures Covers(Step(s, a), key, Step(s, a).values[key])
  {
    if a.Store? && a.c in s.calls { assert CallOk(s, s.calls[a.c]); }
    assert Covers(s, key, Step(s, a).values[key]);
    QuietKeepsCovers(s, a, key, Step(s, a).values[key]);
  }

  lemma StepKeeps(s: State, a: Action)
    requires Inv(s)
    ensures Inv(Step(s, a))
  {
    if a.Bump? {
      BumpKeeps(s, a.w);
    } else {
      var s' := Step(s, a);
      forall key | key in s'.values ensures Covers(s', key, s'.values[key]) { QuietKeepsValues(s, a, key); }
      forall c | c in s'.calls ensures CallOk(s', s'.calls[c]) { QuietKeepsCalls(s, a, c); }
      assert s'.counters == s.counters;
    }
  }

  lemma RunKeeps(s: State, acts: seq<Action>)
    requires Inv(s)
    ensures Inv(Run(Step, s, acts))
  {
    forall t, a | Inv(t) ensures Inv(Step(t, a)) { StepKeeps(t, a); }
    Invariant(Step, Inv, s, acts);
  }

  // ---- exactly when a later call can miss a write ----

  /** Nothing stored, and nothing about to be stored, under version `v` of the scope or a later one
      misses the write. */
  ghost predicate Clean(s: State, w: int, scope: Scope, v: nat) {
    && w in s.writes && s.writes[w].scope == scope && v <= Version(s.counters, scope)
    && (forall key :: key in s.values && key.scope == scope && v <= key.version ==> w in s.values[key])
    && (forall d :: d in s.calls ==> LoadSees(s.calls[d], w, scope, v))
  }

  predicate LoadSees(call: Call, w: int, scope: Scope, v: nat) {
    call.Loaded? && call.key.scope == scope && v <= call.key.version ==> w in call.got
  }

  /** What the call can still do: whichever version it reads is at least `v`. */
  predicate CallTracks(call: Call, w: int, scope: Scope, v: nat) {
    match call
    case Looked(key) => key.scope == scope ==> v <= key.version
    case Missed(sc, slot) => sc == scope && slot.Some? ==> slot.value.scope == scope && v <= slot.value.version
    case Loaded(key, got) => key.scope == scope ==> w in got
    case Done(sc, slot, got) => sc == scope ==> w in got
  }

  ghost predicate Tracks(s: State, w: int, scope: Scope, v: nat, c: int) {
    Clean(s, w, scope, v) && (c in s.calls ==> CallTracks(s.calls[c], w, scope, v))
  }

  lemma AdvanceSees(s: State, call: Call, a: Action, w: int, scope: Scope, v: nat)
    requires Clean(s, w, scope, v) && LoadSees(call, w, scope, v)
    requires call.Missed? && call.slot.Some? ==> call.slot.value.scope == call.scope
    ensures LoadSees(Advance(s, call, a), w, scope, v)
  {
  }

  lemma AdvanceTracks(s: State, call: Call, a: Action, w: int, scope: Scope, v: nat)
    requires Clean(s, w, scope, v) && CallTracks(call, w, scope, v)
    requires call.Missed? && call.slot.Some? ==> call.slot.value.scope == call.scope
    ensures CallTracks(Advance(s, call, a), w, scope, v)
  {
  }

  lemma StepValues(s: State, a: Action, key: Key)
    requires key in Step(s, a).values
    ensures (key in s.values && Step(s, a).values[key] == s.values[key]) ||
            (a.Store? && a.c in s.calls && s.calls[a.c] == Loaded(key, Step(s, a).values[key]))
  {
  }

  lemma StepWrites(s: State, a: Action, w: int, scope: Scope)
    requires w in s.writes
    ensures w in Step(s, a).writes && Step(s, a).writes[w].scope == s.writes[w].scope
    ensures Version(s.counters, scope) <= Version(Step(s, a).counters, scope)
  {
  }

  lemma StepClean(s: State, a: Action, w: int, scope: Scope, v: nat)
    requires Inv(s) && Clean(s, w, scope, v)
    ensures Clean(Step(s, a), w, scope, v)
  {
    var s' := Step(s, a);
    StepWrites(s, a, w, scope);
    forall key | key in s'.values && key.scope == scope && v <= key.version ensures w in s'.values[key] {
      StepValues(s, a, key);
      if a.Store? && a.c in s.calls { assert LoadSees(s.calls[a.c], w, scope, v); }
    }
    forall d | d in s'.calls ensures LoadSees(s'.calls[d], w, scope, v) {
      if d in s.calls {
        assert CallOk(s, s.calls[d]);
        AdvanceSees(s, s.calls[d], a, w, scope, v);
        CallsAdvance(s, a, d);
      } else {
        NewCalls(s, a, d);
      }
    }
  }

  /** A call begins by looking up the current version, or by failing to. */
  lemma NewCalls(s: State, a: Action, c: int)
    requires c !in s.calls && c in Step(s, a).calls
    ensures match Step(s, a).calls[c]
            case Looked(key) => key.version == Version(s.counters, key.scope)
            case Missed(_, slot) => slot.None?
            case _ => false
  {
  }

  lemma StepTracks(s: State, a: Action, w: int, scope: Scope, v: nat, c: int)
    requires Inv(s) && Tracks(s, w, scope, v, c)
    ensures Tracks(Step(s, a), w, scope, v, c)
  {
    StepClean(s, a, w, scope, v);
    if c in s.calls {
      assert CallOk(s, s.calls[c]);
      AdvanceTracks(s, s.calls[c], a, w, scope, v);
      CallsAdvance(s, a, c);
    } else if c in Step(s, a).calls {
      NewCalls(s, a, c);
    }
  }

  lemma RunTracks(s: State, acts: seq<Action>, w: int, scope: Scope, v: nat, c: int)
    requires Inv(s) && Tracks(s, w, scope, v, c)
    ensures Tracks(Run(Step, s, acts), w, scope, v, c)
  {
    var inv := (t: State) => Inv(t) && Tracks(t, w, scope, v, c);
    forall t, a | inv(t) ensures inv(Step(t, a)) {
      StepKeeps(t, a);
      StepTracks(t, a, w, scope, v, c);
    }
    Invariant(Step, inv, s, acts);
  }

  /** Some continuation ends the call with a value that misses the write. */
  ghost predicate CanMiss(s: State, w: int, c: int)
    requires w in s.writes
  {
    exists acts :: Misses(Run(Step, s, acts), w, s.writes[w].scope, c)
  }

  predicate Misses(s: State, w: int, scope: Scope, c: int) {
    c in s.calls && s.calls[c].Done? && s.calls[c].scope == scope && w !in s.calls[c].got
  }

  /** A value without the write is stored under the current version, or a call that loaded one
      under the current version has yet to store it. */
  ghost predicate Leftover(s: State, w: int)
    requires w in s.writes
  {
    || (exists key :: key in s.values && Current(s, key, s.writes[w].scope) && w !in s.values[key])
    || (exists d :: d in s.calls && s.calls[d].Loaded? && Current(s, s.calls[d].key, s.writes[w].scope) && w !in s.calls[d].got)
  }

  predicate Current(s: State, key: Key, scope: Scope) {
    key.scope == scope && key.version == Version(s.counters, scope)
  }

  /** A new call looks up the current version and hits. */
  lemma HitMisses(s: State, w: int, c: int, key: Key)
    requires w in s.writes && c !in s.calls && key in s.values && w !in s.values[key]
    requires Current(s, key, s.writes[w].scope)
    ensures Misses(Run(Step, s, [Lookup(c, key.scope, key.ident), Fetch(c, true)]), w, s.writes[w].scope, c)
  {
    var a, b := Lookup(c, key.scope, key.ident), Fetch(c, true);
    RunTwo(Step, s, a, b);
    assert Step(s, a).calls[c] == Looked(key);
  }

  lemma LateStoreMisses(s: State, w: int, c: int, d: int)
    requires w in s.writes && c !in s.calls && d in s.calls && s.calls[d].Loaded? && w !in s.calls[d].got
    requires Current(s, s.calls[d].key, s.writes[w].scope)
    ensures CanMiss(s, w, c)
  {
    var key := s.calls[d].key;
    var s1, rest := Step(s, Store(d, true)), [Lookup(c, key.scope, key.ident), Fetch(c, true)];
    HitMisses(s1, w, c, key);
    RunOne(Step, s, Store(d, true));
    Concat(Step, s, [Store(d, true)], rest);
    assert Misses(Run(Step, s, [Store(d, true)] + rest), w, s.writes[w].scope, c);
  }

  lemma NoLeftoverIsClean(s: State, w: int)
    requires Inv(s) && w in s.writes && !Leftover(s, w)
    ensures Clean(s, w, s.writes[w].scope, Version(s.counters, s.writes[w].scope))
  {
    var scope := s.writes[w].scope;
    var v := Version(s.counters, scope);
    forall key | key in s.values && key.scope == scope && v <= key.version ensures w in s.values[key] {
      assert Covers(s, key, s.values[key]);
    }
    forall d | d in s.calls ensures LoadSees(s.calls[d], w, scope, v) { assert CallOk(s, s.calls[d]); }
  }

  /** In a state any run reaches, a call yet to start can end without a committed write if and only
      if there is a leftover under the current version. */
  lemma MissIffLeftover(s: State, w: int, c: int)
    requires Inv(s) && w in s.writes && c !in s.calls
    ensures CanMiss(s, w, c) <==> Leftover(s, w)
  {
    var scope := s.writes[w].scope;
    if Leftover(s, w) {
      if key :| key in s.values && Current(s, key, scope) && w !in s.values[key] {
        HitMisses(s, w, c, key);
      } else {
        var d :| d in s.calls && s.calls[d].Loaded? && Current(s, s.calls[d].key, scope) && w !in s.calls[d].got;
        LateStoreMisses(s, w, c, d);
      }
    } else {
      NoLeftoverIsClean(s, w);
      forall acts ensures !Misses(Run(Step, s, acts), w, scope, c) {
        RunTracks(s, acts, w, scope, Version(s.counters, scope), c);
      }
    }
  }

  lemma StaleReadIffLeftover(before: seq<Action>, w: int, c: int)
    ensures var s := Run(Step, INIT, before);
            w in s.writes && c !in s.calls ==> (CanMiss(s, w, c) <==> Leftover(s, w))
  {
    var s := Run(Step, INIT, before);
    RunKeeps(INIT, before);
    if w in s.writes && c !in s.calls { MissIffLeftover(s, w, c); }
  }

  /** The increment leaves nothing behind. */
  lemma BumpedLeavesNothing(s: State, w: int)
    requires Inv(s) && w in s.writes && s.writes[w].Bumped?
    ensures !Leftover(s, w)
  {
    forall key | key in s.values && Current(s, key, s.writes[w].scope) ensures w in s.values[key] {
      assert Covers(s, key, s.values[key]) && BumpedBy(s.writes[w], key);
    }
    forall d | d in s.calls && s.calls[d].Loaded? && Current(s, s.calls[d].key, s.writes[w].scope) ensures w in s.calls[d].got {
      assert CallOk(s, s.calls[d]) && BumpedBy(s.writes[w], s.calls[d].key);
    }
  }

  /** A call that starts after a write's increment never returns a value that misses the write,
      however readers and writers interleave and however late a slow reader stores. */
  lemma NoStaleRead(before: seq<Action>, after: seq<Action>, w: int, c: int)
    ensures var s := Run(Step, INIT, before);
            var s' := Run(Step, s, after);
            w in s.writes && s.writes[w].Bumped? && c !in s.calls &&
            c in s'.calls && s'.calls[c].Done? && s'.calls[c].scope == s.writes[w].scope
            ==> w in s'.calls[c].got
  {
    var s := Run(Step, INIT, before);
    RunKeeps(INIT, before);
    if w in s.writes && s.writes[w].Bumped? && c !in s.calls {
      BumpedLeavesNothing(s, w);
      NoLeftoverIsClean(s, w);
      RunTracks(s, after, w, s.writes[w].scope, Version(s.counters, s.writes[w].scope), c);
    }
  }

  /** Between commit and increment a leftover can be there: a call that starts then returns the
      cached value of before. */
  lemma StaleBeforeBump(scope: Scope, ident: string, w: int)
    ensures var acts := [Lookup(0, scope, ident), Fetch(0, true), Load(0), Store(0, true),
                         CommitWrite(w, scope), Lookup(1, scope, ident), Fetch(1, true)];
            var s := Run(Step, INIT, acts);
            w in s.writes && 1 in s.calls && s.calls[1].Done? && s.calls[1].scope == scope && w !in s.calls[1].got
  {
    var acts := [Lookup(0, scope, ident), Fetch(0, true), Load(0), Store(0, true),
                 CommitWrite(w, scope), Lookup(1, scope, ident), Fetch(1, true)];
    var key := Key(scope, ident, 0);
    var s4 := State(map[], map[], map[key := {}], map[0 := Done(scope, Some(key), {})]);
    RunFour(Step, INIT, acts[0], acts[1], acts[2], acts[3]);
    assert acts[..4] == [acts[0], acts[1], acts[2], acts[3]] && acts[4..] == [acts[4], acts[5], acts[6]];
    assert Step(Step(Step(INIT, acts[0]), acts[1]), acts[2]).calls[0] == Loaded(key, {});
    assert Run(Step, INIT, acts[..4]) == s4;
    RunThree(Step, s4, acts[4], acts[5], acts[6]);
    assert Step(s4, acts[4]).writes == map[w := Committed(scope)];
    Concat(Step, INIT, acts[..4], acts[4..]);
    assert acts == acts[..4] + acts[4..];
  }

  /** The call-at-a-time `CacheAside` is the schedule lookup, fetch, load, store, a failed lookup
      making it load and not store. */
  lemma CacheAsideIsASchedule(s: State, c: int, scope: Scope, ident: string, readable: bool, stores: bool)
    requires c !in s.calls
    ensures var s' := Run(Step, s, [Lookup(c, scope, ident), Fetch(c, readable), Load(c), Store(c, stores)]);
            var key := Key(scope, ident, Version(s.counters, scope));
            var loaded := Snapshot(s, scope);
            && s'.counters == s.counters && s'.writes == s.writes
            && (if key in s.values && readable
                then s'.values == s.values && s'.calls == s.calls[c := Done(scope, Some(key), s.values[key])]
                else s'.values == (if stores then s.values[key := loaded] else s.values) &&
                     s'.calls == s.calls[c := Done(scope, Some(key), loaded)])
  {
    RunFour(Step, s, Lookup(c, scope, ident), Fetch(c, readable), Load(c), Store(c, stores));
  }

  lemma UnansweredCallIsASchedule(s: State, c: int, scope: Scope, ident: string)
    requires c !in s.calls
    ensures var s' := s.(calls := s.calls[c := Done(scope, None, Snapshot(s, scope))]);
            && Run(Step, s, [LookupFails(c, scope), Load(c)]) == s'
            && Run(Step, s, [Lookup(c, scope, ident), FetchFails(c), Load(c)]) == s'
  {
    RunTwo(Step, s, LookupFails(c, scope), Load(c));
    RunThree(Step, s, Lookup(c, scope, ident), FetchFails(c), Load(c));
  }

  /** A write handled alone commits and then increments its scope's counter, as `BumpVersion` does; it
      stores nothing. A stored value may expire at any time. */
  lemma WriteIsASchedule(s: State, w: int, scope: Scope, key: Key)
    requires w !in s.writes
    ensures var s' := Run(Step, s, [CommitWrite(w, scope), Bump(w)]);
            var v := (if scope in s.counters then s.counters[scope] else 0) + 1;
            s' == s.(counters := s.counters[scope := v], writes := s.writes[w := Bumped(scope, v)])
    ensures Step(s, Expire(key)) == s.(values := s.values - {key})
  {
    RunTwo(Step, s, CommitWrite(w, scope), Bump(w));
    assert s.writes[w := Committed(scope)][w := Bumped(scope, Version(s.counters, scope) + 1)] ==
           s.writes[w := Bumped(scope, Version(s.counters, scope) + 1)];
  }
}
