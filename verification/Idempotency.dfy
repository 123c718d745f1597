/** The Idempotency-Key protocol over one Redis: SET NX claims the key with a marker, the holder
    runs the handler and then stores its response or frees the key, everyone else gets a
    conflict or the stored response. Instants are in seconds. */
module Idempotency {
  import opened Options
  import opened Runs
  import opened Text

  const LOCK_SECONDS := 30

  datatype Response = Response(statusCode: int, mediaType: string, body: string)

  datatype Entry = InProgress | Stored(response: Response)

  datatype Slot = Slot(entry: Entry, expiresAt: int)

  type Store = map<string, Slot>

  predicate Live(keys: Store, now: int, key: string) {
    key in keys && now < keys[key].expiresAt
  }

  // ---- key names ----

  datatype Caller = Caller(tenant: string, actor: string, route: string)

  function CacheKey(c: Caller, key: string): string {
    "idempotency:" + c.tenant + ":" + c.actor + ":" + c.route + ":" + key
  }

  /** Ids, digests and route paths hold no colon. */
  ghost predicate Plain(c: Caller) { ':' !in c.tenant && ':' !in c.actor && ':' !in c.route }

  lemma KeyTail(c: Caller, key: string)
    ensures CacheKey(c, key)[12..] == c.tenant + [':'] + (c.actor + ":" + (c.route + ":" + key))
  {
  }

  /** The same header value on another route, or by another caller, is another key. */
  lemma CacheKeysAreDistinct(c: Caller, key: string, d: Caller, other: string)
    requires Plain(c) && Plain(d) && CacheKey(c, key) == CacheKey(d, other)
    ensures c == d && key == other
  {
    var ck, dk := c.route + ":" + key, d.route + ":" + other;
    var ca, da := c.actor + ":" + ck, d.actor + ":" + dk;
    KeyTail(c, key);
    KeyTail(d, other);
    SplitFirst(c.tenant, ca, d.tenant, da, ':');
    SplitFirst(c.actor, ck, d.actor, dk, ':');
    SplitFirst(c.route, key, d.route, other, ':');
  }

  // ---- one request at a time ----

  datatype Outcome = Returns(response: Response) | Raises

  datatype Reply = Answer(response: Response) | Error | KeyConflict

  /** The key a request competes for; one without the header, or with an empty one, has none. */
  function SlotFor(c: Caller, header: Option<string>): Option<string> {
    if header.None? || header.value == "" then None else Some(CacheKey(c, header.value))
  }

  function ReplyOf(outcome: Outcome): Reply {
    if outcome.Returns? then Answer(outcome.response) else Error
  }

  function Replied(now: int, keys: Store, key: string, outcome: Outcome): Reply {
    if !Live(keys, now, key) then ReplyOf(outcome)
    else if keys[key].entry.Stored? then Answer(keys[key].entry.response)
    else KeyConflict
  }

  /** The keys after a request nobody else interleaves with. */
  function Handled(ttl: int, now: int, keys: Store, key: string, outcome: Outcome): Store {
    if Live(keys, now, key) then keys
    else if outcome.Returns? && outcome.response.statusCode < 500
    then keys[key := Slot(Stored(outcome.response), now + ttl)]
    else keys - {key}
  }

  class IdempotentRoute {
    const ttl: int
    var now: int
    var keys: Store

    constructor (ttl: int, now: int)
      ensures this.ttl == ttl && this.now == now && keys == map[]
    {
      this.ttl, this.now := ttl, now;
      keys := map[];
    }

    /** A request `wait` after the previous one. `outcome` is what the wrapped handler would do;
        `executed` says whether it ran. */
    method Handle(caller: Caller, header: Option<string>, outcome: Outcome, wait: nat) returns (reply: Reply, executed: bool)
      modifies this
      ensures var s, call := Server(ttl, old(now), old(keys)), Call(caller, header, outcome, wait);
              && Server(ttl, now, keys) == Serve(s, call)
              && (executed <==> Executes(s, call))
              && reply == ReplyTo(s, call)
    {
      now := now + wait;
      reply := ReplyOf(outcome);
      executed := true;
      if header.None? || header.value == "" { return; }
      var key := CacheKey(caller, header.value);
      if Live(keys, now, key) {
        executed := false;
        match keys[key].entry {
          case InProgress => reply := KeyConflict;
          case Stored(response) => reply := Answer(response);
        }
        return;
      }
      keys := keys[key := Slot(InProgress, now + LOCK_SECONDS)];
      if outcome.Returns? && outcome.response.statusCode < 500 {
        keys := keys[key := Slot(Stored(outcome.response), now + ttl)];
      } else {
        keys := keys - {key};
      }
    }
  }

  // ---- requests do not get into each other's way ----

  /** Only a request without the header, or with an empty one, has no slot; and two requests share a
      slot only if caller and header are the same. */
  lemma SlotsAreDistinct(c: Caller, h: Option<string>, d: Caller, g: Option<string>)
    requires ':' !in c.tenant && ':' !in c.actor && ':' !in c.route
    requires ':' !in d.tenant && ':' !in d.actor && ':' !in d.route
    ensures SlotFor(c, h).None? <==> h == None || h == Some("")
    ensures SlotFor(c, h).Some? && SlotFor(c, h) == SlotFor(d, g) ==> c == d && h == g
  {
    if SlotFor(c, h).Some? && SlotFor(c, h) == SlotFor(d, g) {
      CacheKeysAreDistinct(c, h.value, d, g.value);
    }
  }

  /** A request `wait` after the previous one, and what its handler would do. */
  datatype Call = Call(caller: Caller, header: Option<string>, outcome: Outcome, wait: nat)

  datatype Server = Server(ttl: int, now: int, keys: Store)

  predicate Executes(s: Server, call: Call) {
    var slot := SlotFor(call.caller, call.header);
    slot.None? || !Live(s.keys, s.now + call.wait, slot.value)
  }

  function ReplyTo(s: Server, call: Call): Reply {
    var slot := SlotFor(call.caller, call.header);
    if slot.None? then ReplyOf(call.outcome) else Replied(s.now + call.wait, s.keys, slot.value, call.outcome)
  }

  /** One call of `Handle`. */
  function Serve(s: Server, call: Call): Server {
    var slot, now := SlotFor(call.caller, call.header), s.now + call.wait;
    s.(now := now, keys := if slot.None? then s.keys else Handled(s.ttl, now, s.keys, slot.value, call.outcome))
  }

  /** The same requests at the same times, those of other callers and other keys without their header. */
  function Muted(calls: seq<Call>, c: Caller, h: Option<string>): seq<Call> {
    if calls == [] then [] else
      [if calls[0].caller == c && calls[0].header == h then calls[0] else calls[0].(header := None)] + Muted(calls[1..], c, h)
  }

  predicate SameSlot(s: Server, t: Server, key: string) {
    s.ttl == t.ttl && s.now == t.now && (key in s.keys <==> key in t.keys) && (key in s.keys ==> s.keys[key] == t.keys[key])
  }

  lemma ServeOwn(s: Server, t: Server, call: Call, key: string)
    requires SameSlot(s, t, key) && SlotFor(call.caller, call.header) == Some(key)
    ensures SameSlot(Serve(s, call), Serve(t, call), key)
    ensures Executes(s, call) == Executes(t, call) && ReplyTo(s, call) == ReplyTo(t, call)
  {
  }

  lemma ServeOther(s: Server, t: Server, call: Call, key: string)
    requires SameSlot(s, t, key) && SlotFor(call.caller, call.header) != Some(key)
    ensures SameSlot(Serve(s, call), Serve(t, call.(header := None)), key)
  {
  }

  lemma {:induction false} OthersLeaveTheSlot(s: Server, t: Server, calls: seq<Call>, c: Caller, h: Option<string>, key: string)
    requires SameSlot(s, t, key) && SlotFor(c, h) == Some(key)
    requires Plain(c) && forall call :: call in calls ==> Plain(call.caller)
    ensures SameSlot(Run(Serve, s, calls), Run(Serve, t, Muted(calls, c, h)), key)
    decreases |calls|
  {
    if calls != [] {
      var call, rest := calls[0], Muted(calls[1..], c, h);
      SlotsAreDistinct(c, h, call.caller, call.header);
      var same := if call.caller == c && call.header == h then call else call.(header := None);
      if call == same && call.header == h && call.caller == c { ServeOwn(s, t, call, key); } else { ServeOther(s, t, call, key); }
      assert Muted(calls, c, h)[0] == same && Muted(calls, c, h)[1..] == rest;
      OthersLeaveTheSlot(Serve(s, call), Serve(t, same), calls[1..], c, h, key);
    }
  }

  /** Whether a request executes, and what it is told, depends on the earlier requests of the same
      caller with the same header only: with everyone else's headers removed nothing changes for it. */
  lemma OnlyOwnRequestsMatter(s: Server, calls: seq<Call>, last: Call)
    requires forall call :: call in calls + [last] ==>
      ':' !in call.caller.tenant && ':' !in call.caller.actor && ':' !in call.caller.route
    ensures var full, own := Run(Serve, s, calls), Run(Serve, s, Muted(calls, last.caller, last.header));
            Executes(full, last) == Executes(own, last) && ReplyTo(full, last) == ReplyTo(own, last)
  {
    assert last in calls + [last] && forall call :: call in calls ==> call in calls + [last];
    var slot := SlotFor(last.caller, last.header);
    if slot.Some? {
      OthersLeaveTheSlot(s, s, calls, last.caller, last.header, slot.value);
      ServeOwn(Run(Serve, s, calls), Run(Serve, s, Muted(calls, last.caller, last.header)), last, slot.value);
    }
  }

  lemma {:induction false} NeverClaimed(s: Server, calls: seq<Call>, c: Caller, h: Option<string>, key: string)
    requires key !in s.keys && SlotFor(c, h) == Some(key) && Plain(c)
    requires forall call :: call in calls ==> Plain(call.caller) && (call.caller != c || call.header != h)
    ensures key !in Run(Serve, s, calls).keys
    decreases |calls|
  {
    if calls != [] {
      SlotsAreDistinct(c, h, calls[0].caller, calls[0].header);
      NeverClaimed(Serve(s, calls[0]), calls[1..], c, h, key);
    }
  }

  /** From an empty Redis, the first request of a caller with a header executes and gets its own
      handler's answer, whatever others sent before, be it the same header. */
  lemma FirstRequestExecutes(ttl: int, now: int, calls: seq<Call>, last: Call)
    requires forall call :: call in calls + [last] ==>
      ':' !in call.caller.tenant && ':' !in call.caller.actor && ':' !in call.caller.route
    requires forall call :: call in calls ==> call.caller != last.caller || call.header != last.header
    ensures var s := Run(Serve, Server(ttl, now, map[]), calls);
            Executes(s, last) && ReplyTo(s, last) == match last.outcome case Returns(response) => Answer(response) case Raises => Error
  {
    assert last in calls + [last] && forall call :: call in calls ==> call in calls + [last];
    var slot := SlotFor(last.caller, last.header);
    if slot.Some? { NeverClaimed(Server(ttl, now, map[]), calls, last.caller, last.header, slot.value); }
  }

  /** A retry within the TTL of an answer below 500 is told that answer and does not execute; after a
      server error or an exception it executes. */
  lemma RetryInPlainTerms(s: Server, first: Call, retry: Call)
    requires first.header.Some? && first.header.value != "" && retry.caller == first.caller && retry.header == first.header
    requires Executes(s, first)
    ensures var s1 := Serve(s, first);
            match first.outcome
            case Returns(response) =>
              if response.statusCode < 500 && retry.wait < s.ttl then !Executes(s1, retry) && ReplyTo(s1, retry) == Answer(response)
              else Executes(s1, retry)
            case Raises => Executes(s1, retry)
  {
  }

  // ---- every interleaving ----

  /** Where a request stands. It holds the key from its claim until it has stored or freed it; a
      crash leaves its marker behind to expire. Cancelling it while the handler runs stops neither
      the marker nor the loop that renews it, which goes on as an orphan. */
  datatype Phase =
    | Running(key: string)
    | Returned(key: string, response: Response)
    | Raised(key: string)
    | Orphaned(key: string)
    | Finished(key: string, response: Response)
    | Errored(key: string)
    | Lost(key: string)
    | Conflicted(key: string)
    | Replayed(key: string, response: Response)
    | Dead(key: string)

  datatype State = State(ttl: int, now: int, keys: Store, reqs: map<int, Phase>)

  datatype Action =
    | Arrive(r: int, key: string)
    | ReadBack(r: int)
    | Return(r: int, response: Response)
    | Raise(r: int)
    | Cancel(r: int)
    | Settle(r: int)
    | Renew(r: int)
    | Crash(r: int)
    | Pass(seconds: nat)

  function Init(ttl: int, now: int): State { State(ttl, now, map[], map[]) }

  predicate Holds(p: Phase) { p.Running? || p.Returned? || p.Raised? || p.Orphaned? }

  predicate Renews(p: Phase) { p.Running? || p.Orphaned? }

  /** Renewal keeps the marker of whoever holds the key: time does not run past it. */
  ghost predicate RenewalKeepsUp(s: State, now: int) {
    forall r :: r in s.reqs && Holds(s.reqs[r]) && s.reqs[r].key in s.keys ==> now < s.keys[s.reqs[r].key].expiresAt
  }

  function Goto(s: State, r: int, p: Phase): State { s.(reqs := s.reqs[r := p]) }

  function Answered(s: State, r: int, p: Phase): State {
    match p
    case Returned(key, response) =>
      if response.statusCode < 500
      then Goto(s, r, Finished(key, response)).(keys := s.keys[key := Slot(Stored(response), s.now + s.ttl)])
      else Goto(s, r, Finished(key, response)).(keys := s.keys - {key})
    case Raised(key) => Goto(s, r, Errored(key)).(keys := s.keys - {key})
    case _ => s
  }

  ghost function Step(s: State, a: Action): State {
    match a
    case Arrive(r, key) =>
      if r in s.reqs then s
      else if Live(s.keys, s.now, key) then Goto(s, r, Lost(key))
      else Goto(s, r, Running(key)).(keys := s.keys[key := Slot(InProgress, s.now + LOCK_SECONDS)])
    case ReadBack(r) =>
      if r !in s.reqs || !s.reqs[r].Lost? then s else
        var key := s.reqs[r].key;
        if Live(s.keys, s.now, key) && s.keys[key].entry.Stored?
        then Goto(s, r, Replayed(key, s.keys[key].entry.response)) else Goto(s, r, Conflicted(key))
    case Return(r, response) =>
      if r in s.reqs && s.reqs[r].Running? then Goto(s, r, Returned(s.reqs[r].key, response)) else s
    case Raise(r) =>
      if r in s.reqs && s.reqs[r].Running? then Goto(s, r, Raised(s.reqs[r].key)) else s
    case Cancel(r) =>
      if r in s.reqs && s.reqs[r].Running? then Goto(s, r, Orphaned(s.reqs[r].key)) else s
    case Settle(r) => if r in s.reqs then Answered(s, r, s.reqs[r]) else s
    case Renew(r) =>
      if r in s.reqs && Renews(s.reqs[r]) && Live(s.keys, s.now, s.reqs[r].key)
      then var key := s.reqs[r].key; s.(keys := s.keys[key := s.keys[key].(expiresAt := s.now + LOCK_SECONDS)])
      else s
    case Crash(r) =>
      if r in s.reqs && Holds(s.reqs[r]) then Goto(s, r, Dead(s.reqs[r].key)) else s
    case Pass(seconds) =>
      if RenewalKeepsUp(s, s.now + seconds) then s.(now := s.now + seconds) else s
  }

  // ---- a whole request is a schedule ----

  function Schedule(s: State, r: int, key: string, outcome: Outcome): seq<Action> {
    if Live(s.keys, s.now, key) then [Arrive(r, key), ReadBack(r)]
    else [Arrive(r, key), if outcome.Returns? then Return(r, outcome.response) else Raise(r), Settle(r)]
  }

  /** Where it then stands. */
  function Ending(s: State, key: string, outcome: Outcome): Phase {
    if Live(s.keys, s.now, key) then
      (match s.keys[key].entry
       case Stored(response) => Replayed(key, response)
       case InProgress => Conflicted(key))
    else
      match outcome
      case Returns(response) => Finished(key, response)
      case Raises => Errored(key)
  }

  lemma LosingIsASchedule(s: State, r: int, key: string, outcome: Outcome)
    requires r !in s.reqs && Live(s.keys, s.now, key)
    ensures var s' := Run(Step, s, Schedule(s, r, key, outcome));
            && s'.keys == s.keys && s'.now == s.now
            && s'.reqs.Keys == s.reqs.Keys + {r} && s'.reqs[r] == Ending(s, key, outcome)
  {
    var acts := Schedule(s, r, key, outcome);
    RunTwo(Step, s, acts[0], acts[1]);
  }

  lemma WinningIsASchedule(s: State, r: int, key: string, outcome: Outcome)
    requires r !in s.reqs && !Live(s.keys, s.now, key)
    ensures var s' := Run(Step, s, Schedule(s, r, key, outcome));
            && s'.keys == Handled(s.ttl, s.now, s.keys, key, outcome) && s'.now == s.now
            && s'.reqs.Keys == s.reqs.Keys + {r} && s'.reqs[r] == Ending(s, key, outcome)
  {
    var acts := Schedule(s, r, key, outcome);
    assert acts == [acts[0], acts[1], acts[2]];
    RunThree(Step, s, acts[0], acts[1], acts[2]);
  }

  /** A request's reply is what its ending tells: the response it replays or finished with, a conflict,
      or the handler's error. */
  lemma EndingTells(s: State, key: string, outcome: Outcome)
    ensures Replied(s.now, s.keys, key, outcome) ==
            match Ending(s, key, outcome)
            case Replayed(_, response) => Answer(response)
            case Finished(_, response) => Answer(response)
            case Conflicted(_) => KeyConflict
            case _ => Error
  {
  }

  /** `Handle` is one schedule of the machine, so what holds of every schedule holds of it. */
  lemma HandleIsASchedule(s: State, r: int, key: string, outcome: Outcome)
    requires r !in s.reqs
    ensures var s' := Run(Step, s, Schedule(s, r, key, outcome));
            && s'.keys == Handled(s.ttl, s.now, s.keys, key, outcome) && s'.now == s.now
            && s'.reqs.Keys == s.reqs.Keys + {r} && s'.reqs[r] == Ending(s, key, outcome)
  {
    if Live(s.keys, s.now, key) {
      LosingIsASchedule(s, r, key, outcome);
    } else {
      WinningIsASchedule(s, r, key, outcome);
    }
  }

  // ---- mutual exclusion and replay ----

  ghost predicate HolderOk(s: State, key: string) {
    Live(s.keys, s.now, key) && s.keys[key].entry.InProgress?
  }

  /** The response is the outcome of an execution under this key, and worth replaying. */
  ghost predicate Earned(s: State, key: string, response: Response) {
    response.statusCode < 500 && exists r :: r in s.reqs && s.reqs[r] == Finished(key, response)
  }

  ghost predicate Inv(s: State) {
    && (forall r :: r in s.reqs && Holds(s.reqs[r]) ==> HolderOk(s, s.reqs[r].key))
    && (forall r, q :: r in s.reqs && q in s.reqs && r != q && Holds(s.reqs[r]) && Holds(s.reqs[q])
          ==> s.reqs[r].key != s.reqs[q].key)
    && (forall key :: key in s.keys && s.keys[key].entry.Stored? ==> Earned(s, key, s.keys[key].entry.response))
    && (forall r :: r in s.reqs && s.reqs[r].Replayed? ==> Earned(s, s.reqs[r].key, s.reqs[r].response))
  }

  /** A finished request stays finished, so an earned response stays earned. */
  lemma EarnedStays(s: State, a: Action, key: string, response: Response)
    requires Earned(s, key, response)
    ensures Earned(Step(s, a), key, response)
  {
    var r :| r in s.reqs && s.reqs[r] == Finished(key, response);
    assert r in Step(s, a).reqs && Step(s, a).reqs[r] == Finished(key, response);
  }

  lemma StoredIsEarned(s: State, a: Action, key: string)
    requires Inv(s) && key in Step(s, a).keys && Step(s, a).keys[key].entry.Stored?
    ensures Earned(Step(s, a), key, Step(s, a).keys[key].entry.response)
  {
    var s' := Step(s, a);
    if key in s.keys && s.keys[key].entry == s'.keys[key].entry {
      EarnedStays(s, a, key, s.keys[key].entry.response);
    } else {
      assert s'.reqs[a.r] == Finished(key, s'.keys[key].entry.response);
    }
  }

  lemma ReplayIsEarned(s: State, a: Action, r: int)
    requires Inv(s) && r in Step(s, a).reqs && Step(s, a).reqs[r].Replayed?
    ensures Earned(Step(s, a), Step(s, a).reqs[r].key, Step(s, a).reqs[r].response)
  {
    EarnedStays(s, a, Step(s, a).reqs[r].key, Step(s, a).reqs[r].response);
  }

  /** A request that holds a key after a step held it before, or has just claimed it. */
  lemma HolderBefore(s: State, a: Action, r: int)
    requires r in Step(s, a).reqs && Holds(Step(s, a).reqs[r])
    ensures || (r in s.reqs && Holds(s.reqs[r]) && s.reqs[r].key == Step(s, a).reqs[r].key)
            || (a == Arrive(r, Step(s, a).reqs[r].key) && !Live(s.keys, s.now, a.key) && Step(s, a).keys == s.keys[a.key := Slot(InProgress, s.now + LOCK_SECONDS)])
  {
  }

  /** Nobody but its holder takes a marker away, and time does not run past it. */
  lemma MarkerStays(s: State, a: Action, r: int)
    requires Inv(s) && r in s.reqs && Holds(s.reqs[r]) && HolderOk(s, s.reqs[r].key)
    requires r in Step(s, a).reqs && Holds(Step(s, a).reqs[r])
    ensures HolderOk(Step(s, a), s.reqs[r].key)
  {
  }

  lemma HoldersStay(s: State, a: Action, r: int)
    requires Inv(s) && r in Step(s, a).reqs && Holds(Step(s, a).reqs[r])
    ensures HolderOk(Step(s, a), Step(s, a).reqs[r].key)
  {
    HolderBefore(s, a, r);
    if r in s.reqs && Holds(s.reqs[r]) { MarkerStays(s, a, r); }
  }

  lemma HoldersStayApart(s: State, a: Action, r: int, q: int)
    requires Inv(s) && r in Step(s, a).reqs && q in Step(s, a).reqs && r != q
    requires Holds(Step(s, a).reqs[r]) && Holds(Step(s, a).reqs[q])
    ensures Step(s, a).reqs[r].key != Step(s, a).reqs[q].key
  {
    HolderBefore(s, a, r);
    HolderBefore(s, a, q);
    if r in s.reqs && Holds(s.reqs[r]) { assert HolderOk(s, s.reqs[r].key); }
    if q in s.reqs && Holds(s.reqs[q]) { assert HolderOk(s, s.reqs[q].key); }
  }

  lemma StepKeeps(s: State, a: Action)
    requires Inv(s)
    ensures Inv(Step(s, a))
  {
    var s' := Step(s, a);
    forall r | r in s'.reqs && Holds(s'.reqs[r]) ensures HolderOk(s', s'.reqs[r].key) { HoldersStay(s, a, r); }
    forall r, q | r in s'.reqs && q in s'.reqs && r != q && Holds(s'.reqs[r]) && Holds(s'.reqs[q])
      ensures s'.reqs[r].key != s'.reqs[q].key { HoldersStayApart(s, a, r, q); }
    forall key | key in s'.keys && s'.keys[key].entry.Stored?
      ensures Earned(s', key, s'.keys[key].entry.response) { StoredIsEarned(s, a, key); }
    forall r | r in s'.reqs && s'.reqs[r].Replayed?
      ensures Earned(s', s'.reqs[r].key, s'.reqs[r].response) { ReplayIsEarned(s, a, r); }
  }

  lemma RunKeeps(s: State, acts: seq<Action>)
    requires Inv(s)
    ensures Inv(Run(Step, s, acts))
  {
    forall t, a | Inv(t) ensures Inv(Step(t, a)) { StepKeeps(t, a); }
    Invariant(Step, Inv, s, acts);
  }

  /** At most one handler runs per key, and every replay repeats the response of an execution
      under that key that was not a server error. */
  lemma OneAtATime(ttl: int, now: int, acts: seq<Action>)
    ensures var s := Run(Step, Init(ttl, now), acts);
            && (forall r, q :: r in s.reqs && q in s.reqs && r != q && s.reqs[r].Running? && s.reqs[q].Running?
                  ==> s.reqs[r].key != s.reqs[q].key)
            && (forall r :: r in s.reqs && s.reqs[r].Replayed? ==>
                  s.reqs[r].response.statusCode < 500 &&
                  exists q :: q in s.reqs && s.reqs[q] == Finished(s.reqs[r].key, s.reqs[r].response))
  {
    RunKeeps(Init(ttl, now), acts);
    var s := Run(Step, Init(ttl, now), acts);
    forall r | r in s.reqs && s.reqs[r].Replayed? ensures Earned(s, s.reqs[r].key, s.reqs[r].response) {}
  }

  ghost predicate Abandoned(s: State, r: int, key: string) {
    r in s.reqs && (s.reqs[r] == Orphaned(key) || s.reqs[r] == Dead(key))
  }

  lemma AbandonedStays(s: State, a: Action, r: int, key: string)
    requires Abandoned(s, r, key)
    ensures Abandoned(Step(s, a), r, key)
  {
  }

  lemma RunAbandoned(s: State, acts: seq<Action>, r: int, key: string)
    requires Abandoned(s, r, key)
    ensures Abandoned(Run(Step, s, acts), r, key)
  {
    var inv := (t: State) => Abandoned(t, r, key);
    forall t, a | inv(t) ensures inv(Step(t, a)) { AbandonedStays(t, a, r, key); }
    Invariant(Step, inv, s, acts);
  }

  ghost predicate Taken(s: State, key: string, q: int) {
    q in s.reqs && s.reqs[q].key == key ==>
      !s.reqs[q].Running? && (s.reqs[q].Lost? ==> Step(s, ReadBack(q)).reqs[q] == Conflicted(key))
  }

  lemma OrphanTakes(s: State, r: int, key: string, q: int)
    requires Inv(s) && r in s.reqs && s.reqs[r] == Orphaned(key) && q != r
    ensures Taken(s, key, q)
  {
    assert HolderOk(s, key);
  }

  /** The key of a request cancelled in its handler is taken for as long as its process lives:
      nobody executes under it, and whoever lost the claim is told of a conflict. */
  lemma CancelledKeyStaysTaken(s: State, r: int, key: string, after: seq<Action>, q: int)
    requires Inv(s) && r in s.reqs && s.reqs[r] == Orphaned(key) && q != r
    ensures var s' := Run(Step, s, after);
            && Abandoned(s', r, key)
            && (s'.reqs[r].Orphaned? && q in s'.reqs && s'.reqs[q].key == key ==> !s'.reqs[q].Running?)
            && (s'.reqs[r].Orphaned? && q in s'.reqs && s'.reqs[q] == Lost(key) ==> Step(s', ReadBack(q)).reqs[q] == Conflicted(key))
  {
    RunAbandoned(s, after, r, key);
    RunKeeps(s, after);
    var s' := Run(Step, s, after);
    if s'.reqs[r].Orphaned? { OrphanTakes(s', r, key, q); }
  }

  /** What holds of a key since its response was stored, until it expires. */
  ghost predicate StillStored(s: State, s': State, key: string)
    requires key in s.keys
  {
    && s.now <= s'.now
    && (s'.now < s.keys[key].expiresAt ==>
          && key in s'.keys && s'.keys[key] == s.keys[key]
          && (forall r :: r in s'.reqs && Holds(s'.reqs[r]) ==> s'.reqs[r].key != key))
    && (forall r :: r in s'.reqs && s'.reqs[r].Replayed? && s'.reqs[r].key == key && s'.now < s.keys[key].expiresAt ==>
          (r in s.reqs && s.reqs[r] == s'.reqs[r]) || s.keys[key].entry == Stored(s'.reqs[r].response))
  }

  lemma StepStaysStored(s0: State, s: State, a: Action, key: string)
    requires Inv(s) && key in s0.keys && s0.keys[key].entry.Stored? && StillStored(s0, s, key)
    ensures StillStored(s0, Step(s, a), key)
  {
  }

  lemma RunStaysStored(s0: State, s: State, acts: seq<Action>, key: string)
    requires Inv(s) && key in s0.keys && s0.keys[key].entry.Stored? && StillStored(s0, s, key)
    ensures StillStored(s0, Run(Step, s, acts), key)
  {
    var inv := (t: State) => Inv(t) && StillStored(s0, t, key);
    forall t, a | inv(t) ensures inv(Step(t, a)) {
      StepKeeps(t, a);
      StepStaysStored(s0, t, a, key);
    }
    Invariant(Step, inv, s, acts);
  }

  lemma SettledIsStored(s: State, r: int, key: string, response: Response)
    requires Inv(s) && r in s.reqs && s.reqs[r] == Returned(key, response) && response.statusCode < 500 && s.ttl > 0
    ensures var s1 := Step(s, Settle(r));
            && Live(s1.keys, s1.now, key) && s1.keys[key] == Slot(Stored(response), s.now + s.ttl)
            && StillStored(s1, s1, key)
  {
    var s1 := Step(s, Settle(r));
    StepKeeps(s, Settle(r));
    forall q | q in s1.reqs && Holds(s1.reqs[q]) ensures s1.reqs[q].key != key {
      assert HolderOk(s1, s1.reqs[q].key);
    }
  }

  /** A retry of a request that was answered below 500, anywhere within the TTL, loses the claim
      and gets that very answer. */
  lemma RetryIsReplayed(s: State, r: int, key: string, response: Response, after: seq<Action>, q: int)
    requires Inv(s) && r in s.reqs && s.reqs[r] == Returned(key, response) && response.statusCode < 500 && s.ttl > 0
    ensures var s' := Run(Step, Step(s, Settle(r)), after);
            s'.now < s.now + s.ttl ==>
              && (q !in s'.reqs ==> Step(s', Arrive(q, key)).reqs[q] == Lost(key))
              && (q in s'.reqs && s'.reqs[q] == Lost(key) ==> Step(s', ReadBack(q)).reqs[q] == Replayed(key, response))
  {
    var s1 := Step(s, Settle(r));
    StepKeeps(s, Settle(r));
    SettledIsStored(s, r, key, response);
    RunStaysStored(s1, s1, after, key);
  }

  /** After a server error, or an exception, the key is free and the next retry executes. */
  lemma RetryAfterErrorExecutes(s: State, r: int, q: int)
    requires r in s.reqs && q !in s.reqs
    requires s.reqs[r].Raised? || (s.reqs[r].Returned? && s.reqs[r].response.statusCode >= 500)
    ensures var s1 := Step(s, Settle(r));
            s.reqs[r].key !in s1.keys && Step(s1, Arrive(q, s.reqs[r].key)).reqs[q] == Running(s.reqs[r].key)
  {
  }

  /** A crash's marker, nobody renewing it, keeps others out for exactly 30 seconds; a renewal by a
      living holder gives it another 30. */
  lemma MarkerLasts(s: State, r: int, key: string, q: int, later: nat)
    requires r !in s.reqs && q !in s.reqs && q != r && !Live(s.keys, s.now, key)
    requires forall p :: p in s.reqs ==> !Holds(s.reqs[p])
    ensures var s1 := Run(Step, s, [Arrive(r, key), Crash(r), Pass(later), Arrive(q, key)]);
            q in s1.reqs && s1.reqs[q] == if later < 30 then Lost(key) else Running(key)
  {
    RunFour(Step, s, Arrive(r, key), Crash(r), Pass(later), Arrive(q, key));
  }

  lemma RenewalExtends(s: State, r: int)
    requires r in s.reqs && (s.reqs[r].Running? || s.reqs[r].Orphaned?) && Live(s.keys, s.now, s.reqs[r].key)
    ensures var s' := Step(s, Renew(r));
            s' == s.(keys := s.keys[s.reqs[r].key := Slot(s.keys[s.reqs[r].key].entry, s.now + 30)])
    ensures s.reqs[r].Running? ==> Step(s, Cancel(r)) == s.(reqs := s.reqs[r := Orphaned(s.reqs[r].key)])
    ensures Step(s, Crash(r)) == s.(reqs := s.reqs[r := Dead(s.reqs[r].key)])
  {
  }

  /** Once a response is stored, until its TTL ends nobody executes under the key again, and
      every replay from then on is exactly that response. */
  lemma StoredResponseRules(ttl: int, start: int, before: seq<Action>, after: seq<Action>, key: string)
    ensures var s := Run(Step, Init(ttl, start), before);
            Live(s.keys, s.now, key) && s.keys[key].entry.Stored? ==> StillStored(s, Run(Step, s, after), key)
  {
    var s := Run(Step, Init(ttl, start), before);
    RunKeeps(Init(ttl, start), before);
    if Live(s.keys, s.now, key) && s.keys[key].entry.Stored? {
      RunStaysStored(s, s, after, key);
    }
  }
}
