/** The sliding-window log. Every hit is recorded, admitted or not; the log is trimmed on each
    hit and its key expires. The specification is the full history of hits, never trimmed. */
module RateLimit {

  // ---- one key of the log ----

  class SlidingWindow {
    const limit: int
    const window: real
    var hits: seq<real>
    var expiresAt: real

    constructor (limit: int, window: real)
      ensures this.limit == limit && this.window == window && hits == [] && expiresAt == 0.0
    {
      this.limit, this.window := limit, window;
      hits, expiresAt := [], 0.0;
    }

    ghost predicate Valid()
      reads this
    {
      forall x :: x in hits ==> 0.0 <= x
    }

    /** Trim, add, count, set the expiry; a refusal says when the oldest hit leaves the window, to the
        second. */
    method Consume(now: real) returns (ok: bool, retryAfter: int, ghost oldest: real)
      requires Valid() && 0.0 <= now && window > 0.0
      modifies this
      ensures Valid()
      ensures Log(hits, expiresAt) == After(window, Log(old(hits), old(expiresAt)), now)
      ensures ok <==> |hits| <= limit
      ensures ok ==> retryAfter == 0
      ensures !ok ==> oldest in hits && forall x :: x in hits ==> oldest <= x
      ensures !ok ==> retryAfter >= 1 && now + (retryAfter - 1) as real <= oldest + window < now + retryAfter as real
    {
      var live := LiveHits(Log(hits, expiresAt), now);
      var kept := Trim(live, now - window);
      RecentIsRecent(live, now - window);
      hits := kept + [now];
      expiresAt := now + window;
      assert Log(hits, expiresAt) == After(window, Log(old(hits), old(expiresAt)), now);
      ok := |hits| <= limit;
      retryAfter, oldest := 0, now;
      if !ok {
        retryAfter, oldest := WaitFor(live, window, now, hits);
      }
    }
  }

  /** How long until the oldest hit of a log just trimmed and added to leaves the window. */
  method WaitFor(live: seq<real>, window: real, now: real, hits: seq<real>) returns (retryAfter: int, ghost least: real)
    requires window > 0.0 && forall x :: x in live ==> 0.0 <= x
    requires hits == Recent(live, now - window) + [now]
    ensures least in hits && forall x :: x in hits ==> least <= x
    ensures retryAfter >= 1 && now + (retryAfter - 1) as real <= least + window < now + retryAfter as real
  {
    var oldest := First(hits);
    StillInWindow(live, window, now, oldest);
    retryAfter, least := RetryAfter(window, now, oldest), oldest;
  }

  method Trim(hits: seq<real>, cut: real) returns (kept: seq<real>)
    ensures kept == Recent(hits, cut)
  {
    kept := [];
    for i := 0 to |hits|
      invariant kept == Recent(hits[..i], cut)
    {
      assert hits[..i + 1][..i] == hits[..i];
      if !(0.0 <= hits[i] <= cut) { kept := kept + [hits[i]]; }
    }
    assert hits[..|hits|] == hits;
  }

  /** ZRANGE 0 0: the lowest score. */
  method First(hits: seq<real>) returns (oldest: real)
    requires hits != []
    ensures oldest in hits && forall x :: x in hits ==> oldest <= x
  {
    oldest := hits[0];
    for i := 1 to |hits|
      invariant oldest in hits && forall j :: 0 <= j < i ==> oldest <= hits[j]
    {
      if hits[i] < oldest { oldest := hits[i]; }
    }
  }

  /** Python's int() on a float: towards zero. */
  function Truncated(x: real): int {
    if x >= 0.0 then x.Floor else -((-x).Floor)
  }

  function RetryAfter(window: real, now: real, oldest: real): (r: int)
    ensures now < oldest + window ==> now + (r - 1) as real <= oldest + window < now + r as real
    ensures now >= oldest + window ==> r == 1
    ensures r >= 1
  {
    var r := Truncated(window - (now - oldest)) + 1;
    if r < 1 then 1 else r
  }

  datatype Log = Log(hits: seq<real>, expiresAt: real)

  /** ZREMRANGEBYSCORE 0 .. cut. */
  function Recent(hits: seq<real>, cut: real): seq<real> {
    if hits == [] then [] else
      var last := hits[|hits| - 1];
      Recent(hits[..|hits| - 1], cut) + (if 0.0 <= last <= cut then [] else [last])
  }

  lemma {:induction false} RecentIsRecent(hits: seq<real>, cut: real)
    requires forall x :: x in hits ==> 0.0 <= x
    ensures forall x :: x in Recent(hits, cut) ==> 0.0 <= x && cut < x
  {
    if hits != [] {
      var init := hits[..|hits| - 1];
      assert forall x :: x in init ==> x in hits;
      assert hits[|hits| - 1] in hits;
      RecentIsRecent(init, cut);
    }
  }

  lemma StillInWindow(hits: seq<real>, window: real, now: real, hit: real)
    requires window > 0.0 && forall x :: x in hits ==> 0.0 <= x
    requires hit in Recent(hits, now - window) + [now]
    ensures now < hit + window
  {
    RecentIsRecent(hits, now - window);
  }

  /** An expired key reads as empty. */
  function LiveHits(log: Log, now: real): seq<real> {
    if now >= log.expiresAt then [] else log.hits
  }

  function After(window: real, log: Log, now: real): Log {
    Log(Recent(LiveHits(log, now), now - window) + [now], now + window)
  }

  // ---- a whole history ----

  /** Hits arrive in time order. */
  ghost predicate Timeline(hist: seq<real>) {
    && (forall i :: 0 <= i < |hist| ==> 0.0 <= hist[i])
    && (forall i, j :: 0 <= i < j < |hist| ==> hist[i] <= hist[j])
  }

  /** The log the code holds after a history of hits. */
  function LogOf(window: real, hist: seq<real>): Log {
    if hist == [] then Log([], 0.0)
    else After(window, LogOf(window, hist[..|hist| - 1]), hist[|hist| - 1])
  }

  /** What the code answers to the last hit of a history. */
  predicate Admits(limit: int, window: real, hist: seq<real>) {
    |LogOf(window, hist).hits| <= limit
  }

  /** Hits of the full history in (from, to]. */
  function HitsIn(hist: seq<real>, from: real, to: real): nat {
    if hist == [] then 0 else
      HitsIn(hist[..|hist| - 1], from, to) + (if from < hist[|hist| - 1] <= to then 1 else 0)
  }

  lemma {:induction false} RecentOfRecent(hits: seq<real>, cut: real, later: real)
    requires cut <= later
    requires forall i :: 0 <= i < |hits| ==> 0.0 <= hits[i]
    ensures Recent(Recent(hits, cut), later) == Recent(hits, later)
    ensures forall x :: x in Recent(hits, cut) ==> x in hits
  {
    if hits != [] {
      var init, last := hits[..|hits| - 1], hits[|hits| - 1];
      RecentOfRecent(init, cut, later);
      if !(0.0 <= last <= cut) {
        assert (Recent(init, cut) + [last])[..|Recent(init, cut)|] == Recent(init, cut);
      } else {
        assert Recent(hits, cut) == Recent(init, cut);
      }
    }
  }

  lemma {:induction false} RecentOfOld(hits: seq<real>, cut: real)
    requires forall i :: 0 <= i < |hits| ==> 0.0 <= hits[i] <= cut
    ensures Recent(hits, cut) == []
  {
    if hits != [] { RecentOfOld(hits[..|hits| - 1], cut); }
  }

  lemma RecentAppend(hits: seq<real>, x: real, cut: real)
    requires 0.0 <= x
    ensures Recent(hits + [x], cut) == Recent(hits, cut) + (if x <= cut then [] else [x])
  {
    assert (hits + [x])[..|hits|] == hits;
  }

  /** The hits of the full history in the window that ends with its last hit. */
  function WindowOf(window: real, hist: seq<real>): Log
    requires hist != []
  {
    var now := hist[|hist| - 1];
    Log(Recent(hist, now - window), now + window)
  }

  lemma LogOfAppend(window: real, init: seq<real>, now: real)
    ensures LogOf(window, init + [now]) == After(window, LogOf(window, init), now)
  {
    assert (init + [now])[..|init|] == init;
  }

  lemma FirstHit(window: real, now: real)
    requires window > 0.0 && 0.0 <= now
    ensures LogOf(window, [now]) == WindowOf(window, [now])
  {
    LogOfAppend(window, [], now);
    RecentAppend([], now, now - window);
    assert [] + [now] == [now];
  }

  /** One more hit on a log that is the window of the history so far. */
  lemma NextHit(window: real, init: seq<real>, now: real)
    requires window > 0.0 && init != [] && Timeline(init + [now])
    ensures After(window, WindowOf(window, init), now) == WindowOf(window, init + [now])
  {
    var prev, cut := init[|init| - 1], now - window;
    var hist := init + [now];
    assert forall i :: 0 <= i < |init| ==> hist[i] == init[i];
    assert hist[|init|] == now && prev <= now;
    assert WindowOf(window, hist) == Log(Recent(hist, cut), now + window);
    RecentAppend(init, now, cut);
    if now >= prev + window {
      RecentOfOld(init, cut);
    } else {
      RecentOfRecent(init, prev - window, cut);
    }
  }

  /** Neither trimming nor expiry loses a hit that still matters: the log is exactly the hits of
      the full history in the current window. */
  lemma {:induction false} LogIsTheWindow(window: real, hist: seq<real>)
    requires window > 0.0 && Timeline(hist) && hist != []
    ensures LogOf(window, hist) == WindowOf(window, hist)
  {
    var init, now := hist[..|hist| - 1], hist[|hist| - 1];
    assert init + [now] == hist;
    if init == [] {
      assert hist == [now];
      FirstHit(window, now);
    } else {
      LogIsTheWindow(window, init);
      LogOfAppend(window, init, now);
      NextHit(window, init, now);
    }
  }

  lemma {:induction false} RecentCounts(hist: seq<real>, from: real, to: real)
    requires forall i :: 0 <= i < |hist| ==> 0.0 <= hist[i] <= to
    ensures |Recent(hist, from)| == HitsIn(hist, from, to)
  {
    if hist != [] { RecentCounts(hist[..|hist| - 1], from, to); }
  }

  /** A hit is admitted exactly when the full history holds at most `limit` hits in
      (now - window, now], refused ones included. */
  lemma AdmittedIffWithinBudget(limit: int, window: real, hist: seq<real>)
    requires window > 0.0 && Timeline(hist) && hist != []
    ensures var now := hist[|hist| - 1];
            Admits(limit, window, hist) <==> HitsIn(hist, now - window, now) <= limit
  {
    LogIsTheWindow(window, hist);
    RecentCounts(hist, hist[|hist| - 1] - window, hist[|hist| - 1]);
  }

  lemma {:induction false} HitsSplit(hist: seq<real>, from: real, now: real, to: real)
    requires now <= to && forall i :: 0 <= i < |hist| ==> hist[i] <= now
    ensures HitsIn(hist, from, to) == HitsIn(hist, from, now)
  {
    if hist != [] { HitsSplit(hist[..|hist| - 1], from, now, to); }
  }

  /** The next hit, at whatever instant it comes, is admitted exactly when fewer than `limit` hits
      up to the last one, refused ones included, are less than a window old by then. */
  lemma NextAdmittedIff(limit: int, window: real, hist: seq<real>, next: real)
    requires window > 0.0 && hist != [] && Timeline(hist + [next])
    ensures Admits(limit, window, hist + [next]) <==> HitsIn(hist, next - window, hist[|hist| - 1]) < limit
  {
    var all, last := hist + [next], hist[|hist| - 1];
    AdmittedIffWithinBudget(limit, window, all);
    assert all[..|hist|] == hist && all[|hist|] == next;
    assert forall i :: 0 <= i < |hist| ==> all[i] == hist[i];
    assert forall i :: 0 <= i < |hist| ==> hist[i] <= last;
    assert last <= next;
    HitsSplit(hist, next - window, last, next);
  }

  lemma {:induction false} WaitIsShort(window: real, now: real, oldest: real)
    requires oldest <= now < oldest + window
    ensures now <= now + RetryAfter(window, now, oldest) as real <= oldest + window + 1.0
  {
    var r := RetryAfter(window, now, oldest);
    assert now + (r - 1) as real <= oldest + window;
  }

  lemma {:induction false} HitCounts(hist: seq<real>, x: real, from: real, to: real)
    requires x in hist && from < x <= to
    ensures HitsIn(hist, from, to) >= 1
  {
    if x != hist[|hist| - 1] { HitCounts(hist[..|hist| - 1], x, from, to); }
  }

  lemma {:induction false} TwoHitsCount(hist: seq<real>, x: real, from: real)
    requires x in hist && hist[|hist| - 1] != x && from < x <= hist[|hist| - 1]
    ensures HitsIn(hist, from, hist[|hist| - 1]) >= 2
  {
    assert x in hist[..|hist| - 1];
    HitCounts(hist[..|hist| - 1], x, from, hist[|hist| - 1]);
  }

  lemma {:induction false} RefusedBehind(window: real, hist: seq<real>, oldest: real)
    requires window > 0.0 && oldest in hist && Timeline(hist)
    requires oldest < hist[|hist| - 1] < oldest + window
    ensures !Admits(1, window, hist)
  {
    AdmittedIffWithinBudget(1, window, hist);
    TwoHitsCount(hist, oldest, hist[|hist| - 1] - window);
  }

  lemma {:induction false} RefusedAfter(window: real, hist: seq<real>, next: real)
    requires window > 0.0 && hist != [] && Timeline(hist + [next]) && next < hist[|hist| - 1] + window
    ensures !Admits(1, window, hist + [next])
  {
    NextAdmittedIff(1, window, hist, next);
    HitCounts(hist, hist[|hist| - 1], next - window, hist[|hist| - 1]);
  }

  /** Waiting out the answer is not always enough: with a budget of one, a hit more than a second
      after the oldest in its window is refused, and so is the one that then waits as told, because
      the refused hit counts. */
  lemma {:induction false} WaitingMayNotSuffice(window: real, hist: seq<real>, oldest: real, next: real)
    requires window > 0.0 && oldest in hist && Timeline(hist) && Timeline(hist + [next])
    requires var now := hist[|hist| - 1];
             oldest + 1.0 < now < oldest + window && next == now + RetryAfter(window, now, oldest) as real
    ensures !Admits(1, window, hist) && !Admits(1, window, hist + [next])
  {
    WaitIsShort(window, hist[|hist| - 1], oldest);
    RefusedBehind(window, hist, oldest);
    RefusedAfter(window, hist, next);
  }

  /** Admitted hits of the full history in (from, to]. */
  function AdmittedIn(limit: int, window: real, hist: seq<real>, from: real, to: real): nat {
    if hist == [] then 0 else
      AdmittedIn(limit, window, hist[..|hist| - 1], from, to) +
      (if from < hist[|hist| - 1] <= to && Admits(limit, window, hist) then 1 else 0)
  }

  lemma {:induction false} AdmittedAreHits(limit: int, window: real, hist: seq<real>, from: real, to: real)
    ensures AdmittedIn(limit, window, hist, from, to) <= HitsIn(hist, from, to)
  {
    if hist != [] { AdmittedAreHits(limit, window, hist[..|hist| - 1], from, to); }
  }

  lemma {:induction false} NarrowerHoldsFewer(hist: seq<real>, from: real, to: real, from': real, to': real)
    requires from' <= from
    requires forall i :: 0 <= i < |hist| ==> hist[i] <= to'
    ensures HitsIn(hist, from, to) <= HitsIn(hist, from', to')
  {
    if hist != [] { NarrowerHoldsFewer(hist[..|hist| - 1], from, to, from', to'); }
  }

  /** No window of the configured length, wherever it lies, ever holds more than `limit`
      admitted hits. */
  lemma {:induction false} NoWindowOverBudget(limit: nat, window: real, hist: seq<real>, to: real)
    requires window > 0.0 && Timeline(hist)
    ensures AdmittedIn(limit, window, hist, to - window, to) <= limit
  {
    if hist != [] {
      var init, now := hist[..|hist| - 1], hist[|hist| - 1];
      var from := to - window;
      if from < now <= to && Admits(limit, window, hist) {
        AdmittedIffWithinBudget(limit, window, hist);
        AdmittedAreHits(limit, window, hist, from, to);
        NarrowerHoldsFewer(hist, from, to, now - window, now);
      } else {
        NoWindowOverBudget(limit, window, init, to);
      }
    }
  }

  // ---- counts in plain terms ----

  /** The hits in (from, to] whose history up to and with them is picked. */
  function CountWhere(pick: seq<real> -> bool, hist: seq<real>, from: real, to: real): nat {
    if hist == [] then 0 else
      CountWhere(pick, hist[..|hist| - 1], from, to) + (if from < hist[|hist| - 1] <= to && pick(hist) then 1 else 0)
  }

  predicate Picked(pick: seq<real> -> bool, hist: seq<real>, from: real, to: real, i: int)
    requires 0 <= i < |hist|
  {
    from < hist[i] <= to && pick(hist[..i + 1])
  }

  lemma PickedBefore(pick: seq<real> -> bool, hist: seq<real>, from: real, to: real, i: int)
    requires 0 <= i < |hist| - 1
    ensures Picked(pick, hist[..|hist| - 1], from, to, i) <==> Picked(pick, hist, from, to, i)
  {
    assert hist[..|hist| - 1][..i + 1] == hist[..i + 1];
  }

  lemma OneMore(all: set<int>, before: set<int>, last: int, hit: bool)
    requires last !in before && before <= all <= before + {last} && (last in all <==> hit)
    ensures |all| == |before| + (if hit then 1 else 0)
  {
    if hit {
      assert all == before + {last};
    } else {
      assert all == before;
    }
  }

  /** They are counted one by one. */
  lemma {:induction false} CountedOneByOne(pick: seq<real> -> bool, hist: seq<real>, from: real, to: real) returns (hits: set<int>)
    ensures hits == set i | 0 <= i < |hist| && Picked(pick, hist, from, to, i)
    ensures |hits| == CountWhere(pick, hist, from, to)
  {
    hits := set i | 0 <= i < |hist| && Picked(pick, hist, from, to, i);
    if hist != [] {
      var init, last := hist[..|hist| - 1], |hist| - 1;
      var before := CountedOneByOne(pick, init, from, to);
      forall i | 0 <= i < last ensures Picked(pick, init, from, to, i) <==> Picked(pick, hist, from, to, i) {
        PickedBefore(pick, hist, from, to, i);
      }
      assert hist[..last + 1] == hist;
      OneMore(hits, before, last, Picked(pick, hist, from, to, last));
    }
  }

  function Admitting(limit: int, window: real): seq<real> -> bool { hist => Admits(limit, window, hist) }

  lemma {:induction false} AdmittedAreCounted(limit: int, window: real, hist: seq<real>, from: real, to: real)
    ensures AdmittedIn(limit, window, hist, from, to) == CountWhere(Admitting(limit, window), hist, from, to)
  {
    if hist != [] { AdmittedAreCounted(limit, window, hist[..|hist| - 1], from, to); }
  }

  lemma {:induction false} HitsAreCounted(hist: seq<real>, from: real, to: real)
    ensures HitsIn(hist, from, to) == CountWhere(_ => true, hist, from, to)
  {
    if hist != [] { HitsAreCounted(hist[..|hist| - 1], from, to); }
  }

  /** Of the hits of any window, at most `limit` were admitted when they came. */
  lemma {:induction false} BudgetInPlainTerms(limit: nat, window: real, hist: seq<real>, to: real) returns (hits: set<int>)
    requires window > 0.0 && (forall i :: 0 <= i < |hist| ==> hist[i] >= 0.0)
    requires forall i, j :: 0 <= i < j < |hist| ==> hist[i] <= hist[j]
    ensures forall i :: i in hits <==> 0 <= i < |hist| && to - window < hist[i] <= to && Admits(limit, window, hist[..i + 1])
    ensures |hits| <= limit
  {
    NoWindowOverBudget(limit, window, hist, to);
    AdmittedAreCounted(limit, window, hist, to - window, to);
    hits := CountedOneByOne(Admitting(limit, window), hist, to - window, to);
  }

  /** A hit was admitted exactly when at most `limit` hits up to it, refused ones and itself included,
      were less than a window old. */
  lemma {:induction false} AdmissionInPlainTerms(limit: int, window: real, hist: seq<real>) returns (hits: set<int>)
    requires window > 0.0 && hist != [] && (forall i :: 0 <= i < |hist| ==> hist[i] >= 0.0)
    requires forall i, j :: 0 <= i < j < |hist| ==> hist[i] <= hist[j]
    ensures forall i :: i in hits <==> 0 <= i < |hist| && hist[|hist| - 1] - window < hist[i]
    ensures Admits(limit, window, hist) <==> |hits| <= limit
  {
    var now := hist[|hist| - 1];
    AdmittedIffWithinBudget(limit, window, hist);
    HitsAreCounted(hist, now - window, now);
    hits := CountedOneByOne(_ => true, hist, now - window, now);
  }
}
