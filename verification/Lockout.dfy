/** Login lockout with exponential backoff. Failures are counted per account and per source
    address, each counter and each lock with its own time to live. Logins are handled one at a
    time; a lock check and the recording of its outcome are two instants. Instants are in
    seconds. */
module Lockout {
  import opened Arith
  import opened Runs

  datatype Settings = Settings(accountThreshold: int, ipThreshold: int, base: int, max: int, window: int)

  datatype Key = Account(id: int) | Ip(address: int)

  datatype Counter = Counter(count: nat, expiresAt: int)

  type Counters = map<Key, Counter>
  type Locks = map<Key, int>

  function Threshold(st: Settings, k: Key): int {
    if k.Account? then st.accountThreshold else st.ipThreshold
  }

  /** The base delay at the threshold, doubled by each further failure, capped. */
  function Backoff(failures: int, threshold: int, st: Settings): int {
    Min(st.base * Pow2(Max(0, failures - threshold)), st.max)
  }

  predicate LockedAt(locks: Locks, k: Key, now: int) {
    k in locks && now < locks[k]
  }

  /** The counter's value, an expired counter being zero. */
  function LiveCount(counters: Counters, k: Key, now: int): nat {
    if k in counters && now < counters[k].expiresAt then counters[k].count else 0
  }

  function DelayAfter(st: Settings, counters: Counters, k: Key, now: int): int {
    Backoff(LiveCount(counters, k, now) + 1, Threshold(st, k), st)
  }

  function Counted(st: Settings, counters: Counters, k: Key, now: int): Counters {
    counters[k := Counter(LiveCount(counters, k, now) + 1, now + st.window)]
  }

  /** A key is locked once its live count reaches its threshold. Redis refuses a lock whose time
      to live is not positive. */
  predicate LocksNow(st: Settings, counters: Counters, k: Key, now: int) {
    LiveCount(counters, k, now) + 1 >= Threshold(st, k) && DelayAfter(st, counters, k, now) > 0
  }

  function LockedOut(st: Settings, counters: Counters, locks: Locks, k: Key, now: int): Locks {
    if LocksNow(st, counters, k, now) then locks[k := now + DelayAfter(st, counters, k, now)] else locks
  }

  // ---- one login at a time ----

  datatype State = State(settings: Settings, clock: int, counters: Counters, locks: Locks)

  /** A login `wait` after the previous one, whose credential check takes `work`. */
  datatype Login = Login(account: int, ip: int, wait: nat, work: nat, good: bool)

  function CheckTime(s: State, a: Login): int { s.clock + a.wait }

  function RecordTime(s: State, a: Login): int { s.clock + a.wait + a.work }

  /** The login gets as far as the credential check. */
  predicate Checked(s: State, a: Login) {
    !LockedAt(s.locks, Account(a.account), CheckTime(s, a)) && !LockedAt(s.locks, Ip(a.ip), CheckTime(s, a))
  }

  function Step(s: State, a: Login): State {
    var account, ip, now := Account(a.account), Ip(a.ip), RecordTime(s, a);
    if !Checked(s, a) then s.(clock := CheckTime(s, a))
    else if a.good then s.(clock := now, counters := s.counters - {account, ip}, locks := s.locks - {account, ip})
    else
      var st := s.settings;
      s.(clock := now,
         counters := Counted(st, Counted(st, s.counters, account, now), ip, now),
         locks := LockedOut(st, s.counters, LockedOut(st, s.counters, s.locks, account, now), ip, now))
  }

  class LoginLockout {
    const settings: Settings
    var counters: Counters
    var locks: Locks

    constructor (settings: Settings)
      ensures this.settings == settings && counters == map[] && locks == map[]
    {
      this.settings := settings;
      counters, locks := map[], map[];
    }

    method IsLocked(account: int, ip: int, now: int) returns (locked: bool)
      ensures locked <==> LockedAt(locks, Account(account), now) || LockedAt(locks, Ip(ip), now)
    {
      locked := LockedAt(locks, Account(account), now) || LockedAt(locks, Ip(ip), now);
    }

    method RecordFailure(account: int, ip: int, now: int)
      modifies this
      ensures counters == Counted(settings, Counted(settings, old(counters), Account(account), now), Ip(ip), now)
      ensures locks == LockedOut(settings, old(counters),
                                 LockedOut(settings, old(counters), old(locks), Account(account), now), Ip(ip), now)
    {
      var keys := [Account(account), Ip(ip)];
      var counts := [];
      for i := 0 to 2
        invariant |counts| == i
        invariant forall j :: 0 <= j < i ==> counts[j] == LiveCount(old(counters), keys[j], now) + 1
        invariant counters == if i == 0 then old(counters) else if i == 1
                              then Counted(settings, old(counters), keys[0], now)
                              else Counted(settings, Counted(settings, old(counters), keys[0], now), keys[1], now)
        invariant locks == old(locks)
      {
        counts := counts + [LiveCount(counters, keys[i], now) + 1];
        counters := counters[keys[i] := Counter(counts[i], now + settings.window)];
      }
      for i := 0 to 2
        invariant counters == Counted(settings, Counted(settings, old(counters), keys[0], now), keys[1], now)
        invariant locks == if i == 0 then old(locks) else if i == 1
                           then LockedOut(settings, old(counters), old(locks), keys[0], now)
                           else LockedOut(settings, old(counters),
                                          LockedOut(settings, old(counters), old(locks), keys[0], now), keys[1], now)
      {
        var threshold := Threshold(settings, keys[i]);
        if counts[i] >= threshold {
          var delay := Backoff(counts[i], threshold, settings);
          if delay > 0 { locks := locks[keys[i] := now + delay]; }
        }
      }
    }

    method Reset(account: int, ip: int)
      modifies this
      ensures counters == old(counters) - {Account(account), Ip(ip)}
      ensures locks == old(locks) - {Account(account), Ip(ip)}
    {
      counters := counters - {Account(account), Ip(ip)};
      locks := locks - {Account(account), Ip(ip)};
    }

    /** The password step of a login, `clock` being the end of the previous one. */
    method Login(clock: int, a: Login) returns (ok: bool, end: int)
      modifies this
      ensures State(settings, end, counters, locks) == Step(State(settings, clock, old(counters), old(locks)), a)
      ensures ok <==> a.good && Checked(State(settings, clock, old(counters), old(locks)), a)
    {
      end := clock + a.wait;
      var locked := IsLocked(a.account, a.ip, end);
      if locked { return false, end; }
      end := end + a.work;
      if !a.good {
        RecordFailure(a.account, a.ip, end);
        return false, end;
      }
      Reset(a.account, a.ip);
      ok := true;
    }
  }

  // ---- whole runs ----

  /** No lock is deleted or moved before it expires: a success only resets locks that have
      already run out, and a failure is only recorded when nothing is locked. */
  lemma {:induction false} LocksRunTheirCourse(s: State, acts: seq<Login>, k: Key)
    requires k in s.locks
    ensures var s' := Run(Step, s, acts);
            s.clock <= s'.clock && (s'.clock < s.locks[k] ==> k in s'.locks && s'.locks[k] == s.locks[k])
    decreases |acts|
  {
    if acts != [] {
      var s1 := Step(s, acts[0]);
      if s1.clock < s.locks[k] {
        LocksRunTheirCourse(s1, acts[1..], k);
      } else {
        ClockRuns(s1, acts[1..]);
      }
    }
  }

  lemma {:induction false} ClockRuns(s: State, acts: seq<Login>)
    ensures s.clock <= Run(Step, s, acts).clock
    decreases |acts|
  {
    if acts != [] { ClockRuns(Step(s, acts[0]), acts[1..]); }
  }

  predicate Touches(a: Login, k: Key) { k == Account(a.account) || k == Ip(a.ip) }

  /** After a failure that brings a key's live count c to its threshold or beyond, the next
      credential check for that account, or from that address, comes at least
      min(base * 2^(c - threshold), max) seconds later. */
  lemma BackoffIsServed(s: State, failure: Login, between: seq<Login>, next: Login, k: Key)
    requires Checked(s, failure) && !failure.good
    requires k in {Account(failure.account), Ip(failure.ip)} && k in {Account(next.account), Ip(next.ip)}
    requires LiveCount(s.counters, k, RecordTime(s, failure)) + 1 >=
             if k.Account? then s.settings.accountThreshold else s.settings.ipThreshold
    ensures var s' := Run(Step, Step(s, failure), between);
            var c := LiveCount(s.counters, k, RecordTime(s, failure)) + 1;
            var t := if k.Account? then s.settings.accountThreshold else s.settings.ipThreshold;
            Checked(s', next) ==>
              s'.clock + next.wait >= s.clock + failure.wait + failure.work + Min(s.settings.base * Pow2(c - t), s.settings.max)
  {
    var s1 := Step(s, failure);
    var now := RecordTime(s, failure);
    ClockRuns(s1, between);
    if DelayAfter(s.settings, s.counters, k, now) > 0 {
      assert k in s1.locks && s1.locks[k] == now + DelayAfter(s.settings, s.counters, k, now);
      LocksRunTheirCourse(s1, between, k);
    }
  }

  /** A failure below the threshold locks nothing; at or beyond it the lock lasts exactly the
      backoff. */
  lemma LockedForExactlyTheBackoff(s: State, failure: Login, k: Key, later: int)
    requires Checked(s, failure) && !failure.good && k in {Account(failure.account), Ip(failure.ip)}
    requires later >= s.clock + failure.wait + failure.work
    ensures var now := s.clock + failure.wait + failure.work;
            var t := if k.Account? then s.settings.accountThreshold else s.settings.ipThreshold;
            var c := LiveCount(s.counters, k, now) + 1;
            (k in Step(s, failure).locks && later < Step(s, failure).locks[k]) <==>
              c >= t && later < now + Min(s.settings.base * Pow2(c - t), s.settings.max)
  {
    assert !LockedAt(s.locks, k, CheckTime(s, failure));
  }

  /** The live count after a recorded failure: one more, until its window runs out. */
  lemma FailureCounts(s: State, failure: Login, k: Key, later: int)
    requires Checked(s, failure) && !failure.good && Touches(failure, k)
    ensures var now := RecordTime(s, failure);
            LiveCount(Step(s, failure).counters, k, later) ==
            if later < now + s.settings.window then LiveCount(s.counters, k, now) + 1 else 0
  {
  }

  /** A login gets to the credential check exactly when neither its account nor its address is inside
      a lock; then a success clears both, and a failure leaves other keys alone. */
  lemma LoginInPlainTerms(s: State, a: Login, k: Key)
    ensures Checked(s, a) <==>
            && (Account(a.account) in s.locks ==> s.locks[Account(a.account)] <= s.clock + a.wait)
            && (Ip(a.ip) in s.locks ==> s.locks[Ip(a.ip)] <= s.clock + a.wait)
    ensures !Checked(s, a) ==> Step(s, a) == s.(clock := s.clock + a.wait)
    ensures Checked(s, a) ==> Step(s, a).clock == s.clock + a.wait + a.work
    ensures Checked(s, a) && a.good && k in {Account(a.account), Ip(a.ip)} ==> k !in Step(s, a).locks && k !in Step(s, a).counters
    ensures k !in {Account(a.account), Ip(a.ip)} ==>
              && (k in Step(s, a).locks <==> k in s.locks) && (k in s.locks ==> Step(s, a).locks[k] == s.locks[k])
              && (k in Step(s, a).counters <==> k in s.counters) && (k in s.counters ==> Step(s, a).counters[k] == s.counters[k])
  {
  }

  // ---- what the counter counts ----

  /** What happened to a key, and when. */
  datatype Outcome = Failed(at: int) | Succeeded

  /** The logins that got as far as a credential check for the key, in order. */
  function History(s: State, acts: seq<Login>, k: Key): seq<Outcome>
    decreases |acts|
  {
    if acts == [] then [] else Recorded(s, acts[0], k) + History(Step(s, acts[0]), acts[1..], k)
  }

  function Recorded(s: State, a: Login, k: Key): seq<Outcome> {
    if !Checked(s, a) || !Touches(a, k) then []
    else if a.good then [Succeeded]
    else [Failed(RecordTime(s, a))]
  }

  /** How many failures stand in a row at the end of a history: none of them undone by a success,
      each less than the window after the one before, the last less than the window before `later`. */
  function InARow(history: seq<Outcome>, window: int, later: int): nat {
    if history == [] then 0 else
      var last := history[|history| - 1];
      if last.Succeeded? || later >= last.at + window then 0
      else InARow(history[..|history| - 1], window, last.at) + 1
  }

  /** The counter of the key stands for the history. */
  ghost predicate CountsFor(s: State, k: Key, history: seq<Outcome>) {
    forall later :: LiveCount(s.counters, k, later) == InARow(history, s.settings.window, later)
  }

  lemma StepCounts(s: State, a: Login, k: Key, history: seq<Outcome>)
    requires CountsFor(s, k, history)
    ensures CountsFor(Step(s, a), k, history + Recorded(s, a, k))
  {
    var s', history' := Step(s, a), history + Recorded(s, a, k);
    if Checked(s, a) && Touches(a, k) {
      assert history'[..|history|] == history;
      forall later ensures LiveCount(s'.counters, k, later) == InARow(history', s.settings.window, later) {
        if !a.good { FailureCounts(s, a, k, later); }
      }
    } else {
      assert history' == history;
      forall later ensures LiveCount(s'.counters, k, later) == LiveCount(s.counters, k, later) {}
    }
  }

  lemma {:induction false} RunCounts(s: State, acts: seq<Login>, k: Key, history: seq<Outcome>)
    requires CountsFor(s, k, history)
    ensures CountsFor(Run(Step, s, acts), k, history + History(s, acts, k))
    decreases |acts|
  {
    if acts == [] {
      assert history + [] == history;
    } else {
      var s1, recorded := Step(s, acts[0]), Recorded(s, acts[0], k);
      StepCounts(s, acts[0], k, history);
      RunCounts(s1, acts[1..], k, history + recorded);
      assert history + recorded + History(s1, acts[1..], k) == history + (recorded + History(s1, acts[1..], k));
    }
  }

  /** Over any run of logins from a clean start, a key's live count at any later instant is the
      number of its failures in a row. */
  lemma CounterIsFailuresInARow(settings: Settings, clock: int, acts: seq<Login>, k: Key, later: int)
    ensures var s := State(settings, clock, map[], map[]);
            LiveCount(Run(Step, s, acts).counters, k, later) == InARow(History(s, acts, k), settings.window, later)
  {
    var s := State(settings, clock, map[], map[]);
    RunCounts(s, acts, k, []);
    SettingsStay(s, acts);
    assert [] + History(s, acts, k) == History(s, acts, k);
  }

  lemma {:induction false} SettingsStay(s: State, acts: seq<Login>)
    ensures Run(Step, s, acts).settings == s.settings
    decreases |acts|
  {
    if acts != [] { SettingsStay(Step(s, acts[0]), acts[1..]); }
  }
}
