/** The per-asset retry state of the announce sweep: exponential backoff with
    jitter for failures and fixed waits for rejections. Durations and instants
    are nanoseconds; the int64 steps of the delay computation are explicit. */
module Backoff {
  import opened Wrappers
  import opened Int64
  import Timestamps

  // ---------------------------------------------------------------- errors

  /** The sentinel errors of the catalog client. */
  datatype Sentinel = ErrNotFound | ErrUnauthorized | ErrConflict | ErrBadRequest | ErrServer | ErrUnexpected

  /** What a catalog call returns: nil, or an error known by the sentinels it wraps. */
  type Reply = Option<set<Sentinel>>

  datatype ErrorClass = OK | Rejected | Unauthorized | Transient | Permanent

  function ClassifyError(err: Reply): ErrorClass {
    if err.None? then OK
    else if ErrNotFound in err.value then Rejected
    else if ErrUnauthorized in err.value then Unauthorized
    else if ErrBadRequest in err.value || ErrConflict in err.value then Permanent
    else Transient
  }

  /** Which sentinel decides when an error wraps several. */
  lemma ClassPrecedence(wrapped: set<Sentinel>)
    ensures ClassifyError(None) == OK && ClassifyError(Some({})) == Transient
    ensures ClassifyError(Some(wrapped + {ErrNotFound})) == Rejected
    ensures ErrNotFound !in wrapped ==> ClassifyError(Some(wrapped + {ErrUnauthorized})) == Unauthorized
    ensures wrapped !! {ErrNotFound, ErrUnauthorized} ==>
              && ClassifyError(Some(wrapped + {ErrBadRequest})) == Permanent
              && ClassifyError(Some(wrapped + {ErrConflict})) == Permanent
    ensures wrapped <= {ErrServer, ErrUnexpected} ==> ClassifyError(Some(wrapped)) == Transient
  {
  }

  /** The error of a catalog answer with this HTTP status, none for success. */
  function StatusError(status: int): Reply {
    if 200 <= status < 300 then None
    else if status == 400 then Some({ErrBadRequest})
    else if status == 401 || status == 403 then Some({ErrUnauthorized})
    else if status == 404 then Some({ErrNotFound})
    else if status == 409 then Some({ErrConflict})
    else if status >= 500 then Some({ErrServer})
    else Some({ErrUnexpected})
  }

  /** What the catalog sent: nothing, or a status and a body that decodes or not. An empty
      body counts as decoded. */
  datatype Answer = NoAnswer | Answer(status: int, decodes: bool)

  /** Client.Announce: a failed call and an undecodable success are errors without a sentinel. */
  function AnnounceReply(answer: Answer): Reply {
    match answer
    case NoAnswer => Some({})
    case Answer(status, decodes) =>
      if 200 <= status < 300 && !decodes then Some({}) else StatusError(status)
  }

  /** From the catalog's answer to the retry class: only these five client errors are not
      retried with growing delays. */
  lemma StatusClasses(answer: Answer)
    ensures var result := ClassifyError(AnnounceReply(answer));
            && (result == OK <==> answer.Answer? && 200 <= answer.status < 300 && answer.decodes)
            && (result == Rejected <==> answer.Answer? && answer.status == 404)
            && (result == Unauthorized <==> answer.Answer? && answer.status in {401, 403})
            && (result == Permanent <==> answer.Answer? && answer.status in {400, 409})
  {
  }

  // ---------------------------------------------------------------- configuration

  const SECOND: int := Timestamps.NS

  datatype Config = Config(base: int, max: int, rejectedRetry: int, unauthorizedRetry: int)

  /** The defaults that NewBackoffState puts in place of non-positive durations. */
  function Normalize(c: Config): Config {
    Config(
      if c.base <= 0 then 2 * SECOND else c.base,
      if c.max <= 0 then 600 * SECOND else c.max,
      if c.rejectedRetry <= 0 then 86_400 * SECOND else c.rejectedRetry,
      if c.unauthorizedRetry <= 0 then 3_600 * SECOND else c.unauthorizedRetry)
  }

  /** Durations as they stand after normalization: positive int64 values. */
  predicate Usable(c: Config) {
    0 < c.base < TWO63 && 0 < c.max < TWO63 && 0 < c.rejectedRetry && 0 < c.unauthorizedRetry
  }

  /** A source of random numbers: Int63n(n) lies in [0, n). */
  type Jitter = f: int -> int | forall n: int :: 0 < n ==> 0 <= f(n) < n witness (n: int) => 0

  // ---------------------------------------------------------------- delay

  function Pow2(n: nat): (p: int)
    ensures p >= n + 1
  {
    if n == 0 then 1 else 2 * Pow2(n - 1)
  }

  function Min(a: int, b: int): int {
    if a < b then a else b
  }

  function Max(a: int, b: int): int {
    if a < b then b else a
  }

  /** The doubling loop from iteration `i`, in int64 arithmetic. */
  function Doubled(delay: int, i: int, n: int, max: int): int
    decreases n - i
  {
    if i >= n then delay
    else if delay >= max then max
    else
      var d := Wrap64(delay * 2);
      if d > max then max else Doubled(d, i + 1, n, max)
  }

  /** The number of iterations that loop makes. */
  function Rounds(delay: int, i: int, n: int, max: int): nat
    decreases n - i
  {
    if i >= n then 0
    else if delay >= max then 1
    else
      var d := Wrap64(delay * 2);
      if d > max then 1 else 1 + Rounds(d, i + 1, n, max)
  }

  /** Jitter of up to a quarter, then the clamp. Go's division truncates. */
  function Jittered(delay: int, max: int, jitter: Jitter): int {
    var d := if delay >= 4 then Wrap64(delay + jitter(delay / 4 + 1)) else delay;
    if d > max then max else d
  }

  /** What NextAttempt adds to `now`. */
  function Delay(c: Config, failCount: int, jitter: Jitter): int {
    Jittered(Doubled(c.base, 1, Max(failCount, 1), c.max), c.max, jitter)
  }

  /** The delay the k-th straight failure is meant to have before jitter. */
  function Nominal(c: Config, k: int): int
    requires k >= 1
  {
    Min(c.max, c.base * Pow2(k - 1))
  }

  /** The last value the loop doubles. */
  function LargestBelow(base: int, max: int): (r: int)
    requires 0 < base < max
    ensures base <= r < max <= 2 * r
    decreases max - base
  {
    if 2 * base < max then LargestBelow(2 * base, max) else base
  }

  /** Exactly the configurations on which no int64 step can overflow. */
  predicate Safe(c: Config)
    requires Usable(c)
  {
    && Max(c.base, c.max) + Max(c.base, c.max) / 4 < TWO63
    && (c.base < c.max ==> 2 * LargestBelow(c.base, c.max) < TWO63)
  }

  lemma SafeUpTo62Bits(c: Config)
    requires Usable(c) && c.base <= TWO62 && c.max <= TWO62
    ensures Safe(c)
  {
  }

  lemma {:induction false} DoubledClosedForm(delay: int, i: int, n: int, max: int)
    requires 0 < delay && 0 < max < TWO63 && i <= n
    requires delay < max ==> 2 * LargestBelow(delay, max) < TWO63
    ensures i < n ==> Doubled(delay, i, n, max) == Min(max, delay * Pow2(n - i))
    decreases n - i
  {
    if i < n {
      var p := Pow2(n - i - 1);
      assert delay * Pow2(n - i) == 2 * delay * p;
      if delay >= max {
        assert delay * Pow2(n - i) >= delay by { MulAtLeast(delay, Pow2(n - i)); }
      } else if 2 * delay > max {
        MulAtLeast(2 * delay, p);
      } else if i + 1 < n {
        DoubledClosedForm(2 * delay, i + 1, n, max);
      }
    }
  }

  lemma {:induction false} MulAtLeast(x: int, y: int)
    requires 0 < x && 1 <= y
    ensures x * y >= x
  {
    assert x * y == x + x * (y - 1);
  }

  /** On a safe configuration the delay of the k-th failure lies between the nominal
      delay and a quarter more, never above Max, whatever the jitter. */
  lemma {:induction false} DelayBounds(c: Config, failCount: int, jitter: Jitter)
    requires Usable(c) && Safe(c)
    ensures Nominal(c, Max(failCount, 1)) <= Delay(c, failCount, jitter)
    ensures Delay(c, failCount, jitter) <= Min(c.max, Nominal(c, Max(failCount, 1)) + Nominal(c, Max(failCount, 1)) / 4)
    ensures 0 < Delay(c, failCount, jitter)
  {
    hide Doubled, Jittered, Pow2;
    var n := Max(failCount, 1);
    LoopResult(c, n);
    NominalIsPositive(c, n);
    JitterBounds(Doubled(c.base, 1, n, c.max), c.max, jitter);
  }

  /** The delay to the nanosecond on a safe configuration: the nominal delay of the k-th failure
      and a draw of up to a quarter of it, together at most Max. */
  lemma {:induction false} DelayExact(c: Config, failCount: int, jitter: Jitter)
    requires Usable(c) && Safe(c)
    ensures var e := Nominal(c, if failCount < 1 then 1 else failCount);
            var drawn := e + (if e / 4 > 0 then jitter(e / 4 + 1) else 0);
            Delay(c, failCount, jitter) == if drawn > c.max then c.max else drawn
  {
    hide Doubled, Nominal;
    var n := Max(failCount, 1);
    LoopResult(c, n);
    var d := Doubled(c.base, 1, n, c.max);
    assert d >= 4 ==> 0 <= jitter(d / 4 + 1) <= d / 4;
    assert c.max >= 4 ==> 0 <= jitter(c.max / 4 + 1);
  }

  /** The nominal delays: Base at first, then twice the one before, none above Max. */
  lemma {:induction false} NominalDoubles(c: Config, k: int)
    requires Usable(c) && k >= 1
    ensures Nominal(c, 1) == if c.base > c.max then c.max else c.base
    ensures Nominal(c, k + 1) == if 2 * Nominal(c, k) > c.max then c.max else 2 * Nominal(c, k)
  {
    assert Pow2(0) == 1;
    var p := Pow2(k - 1);
    assert Pow2(k) == 2 * p;
    assert c.base * Pow2(k) == 2 * (c.base * p);
    MulAtLeast(c.base, p);
  }

  /** The loop leaves the nominal delay, or a first delay that is above Max by itself. */
  lemma {:induction false} LoopResult(c: Config, n: int)
    requires Usable(c) && Safe(c) && n >= 1
    ensures var d := Doubled(c.base, 1, n, c.max);
            Nominal(c, n) == Min(c.max, d) && 0 < d <= Max(c.base, c.max)
  {
    DoubledClosedForm(c.base, 1, n, c.max);
    NominalIsPositive(c, n);
    if n == 1 {
      assert Pow2(0) == 1;
    }
  }

  lemma {:induction false} JitterBounds(delay: int, max: int, jitter: Jitter)
    requires 0 < delay && delay + delay / 4 < TWO63 && 0 < max
    ensures Min(max, delay) <= Jittered(delay, max, jitter) <= Min(max, delay + delay / 4)
  {
    assert delay >= 4 ==> 0 <= jitter(delay / 4 + 1) <= delay / 4;
  }

  /** On any other configuration a failure count of at most 64 and some jitter give a delay
      before `now`: the retry is due at once instead of after the wait. */
  lemma {:induction false} UnsafeDelayIsNegative(c: Config) returns (failCount: int, jitter: Jitter)
    requires Usable(c) && !Safe(c)
    ensures 1 <= failCount <= 64 && Delay(c, failCount, jitter) < 0 < Nominal(c, failCount)
  {
    jitter := LargestDraw;
    if c.base < c.max && 2 * LargestBelow(c.base, c.max) >= TWO63 {
      failCount := DoublingWraps(c.base, 1, c.max);
    } else if c.base > c.max {
      failCount := 1;
      JitterWraps(c.base, c.max);
    } else {
      failCount := 64;
      ManyFailuresReachMax(c);
      JitterWraps(c.max, c.max);
    }
    NominalIsPositive(c, failCount);
  }

  lemma {:induction false} NominalIsPositive(c: Config, k: int)
    requires Usable(c) && k >= 1
    ensures 0 < Nominal(c, k)
  {
    MulAtLeast(c.base, Pow2(k - 1));
  }

  function LargestDraw(n: int): int {
    if 0 < n then n - 1 else 0
  }

  lemma {:induction false} JitterWraps(delay: int, max: int)
    requires 0 < max <= delay < TWO63 <= delay + delay / 4
    ensures Jittered(delay, max, LargestDraw) < 0
  {
    assert Wrap64(delay + delay / 4) == delay + delay / 4 - TWO64;
  }

  lemma {:induction false} ManyFailuresReachMax(c: Config)
    requires Usable(c) && c.base <= c.max
    requires c.base < c.max ==> 2 * LargestBelow(c.base, c.max) < TWO63
    ensures Doubled(c.base, 1, 64, c.max) == c.max
  {
    hide Pow2, Doubled;
    DoubledClosedForm(c.base, 1, 64, c.max);
    Pow2Of63();
    MulAtLeast(Pow2(63), c.base);
  }

  lemma {:induction false} Pow2Of63()
    ensures Pow2(63) == TWO63
  {
    assert Pow2(8) == 0x100;
    assert Pow2(16) == 0x1_0000;
    assert Pow2(24) == 0x100_0000;
    assert Pow2(32) == 0x1_0000_0000;
    assert Pow2(40) == 0x100_0000_0000;
    assert Pow2(48) == 0x1_0000_0000_0000;
    assert Pow2(56) == 0x100_0000_0000_0000;
  }

  lemma {:induction false} Pow2Grows(m: nat, n: nat)
    requires m <= n
    ensures Pow2(m) <= Pow2(n)
  {
    if m < n {
      Pow2Grows(m, n - 1);
    }
  }

  lemma {:induction false} DoublingWraps(delay: int, i: int, max: int) returns (n: int)
    requires 0 < delay < max < TWO63 && 2 * LargestBelow(delay, max) >= TWO63
    requires 1 <= i && Pow2(i - 1) <= delay
    ensures i < n <= 64 && Doubled(delay, i, n, max) < 0
    decreases max - delay
  {
    if 2 * delay < max {
      n := DoublingWraps(2 * delay, i + 1, max);
    } else {
      n := i + 1;
      assert Wrap64(2 * delay) == 2 * delay - TWO64;
      Pow2Of63();
      if i >= 64 {
        Pow2Grows(63, i - 1);
      }
    }
  }

  /** How often `base` can be doubled without passing `max`. */
  function DoublingsUnder(base: int, max: int): nat
    requires 0 < base
    decreases max - base
  {
    if 2 * base <= max then 1 + DoublingsUnder(2 * base, max) else 0
  }

  /** However many failures there were, the loop stops one round after the doublings
      that fit under Max. */
  lemma {:induction false} RoundsBound(delay: int, i: int, n: int, max: int)
    requires 0 < delay && 0 < max < TWO63
    requires delay < max ==> 2 * LargestBelow(delay, max) < TWO63
    ensures Rounds(delay, i, n, max) <= DoublingsUnder(delay, max) + 1
    decreases n - i
  {
    if i < n && delay < max && 2 * delay <= max {
      RoundsBound(2 * delay, i + 1, n, max);
    }
  }

  // ---------------------------------------------------------------- entries

  datatype Entry = Entry(failCount: nat, nextAttemptAt: int)

  type Entries = map<string, Entry>

  predicate MayAttempt(entries: Entries, asset: string, now: int) {
    asset in entries ==> entries[asset].nextAttemptAt <= now
  }

  /** The wait that Record starts after an outcome other than OK. */
  function WaitAfter(c: Config, outcome: ErrorClass, failCount: int, jitter: Jitter): int {
    match outcome
    case Rejected => c.rejectedRetry
    case Unauthorized => c.unauthorizedRetry
    case Permanent => c.max
    case _ => Delay(c, failCount, jitter)
  }

  predicate CountsAsFailure(outcome: ErrorClass) {
    outcome == Transient || outcome == Permanent
  }

  function Recorded(c: Config, entries: Entries, asset: string, outcome: ErrorClass, now: int,
                    jitter: Jitter): Entries {
    if outcome == OK then entries - {asset}
    else
      var before := if asset in entries then entries[asset].failCount else 0;
      var failCount := if CountsAsFailure(outcome) then before + 1 else 0;
      entries[asset := Entry(failCount, now + WaitAfter(c, outcome, failCount, jitter))]
  }

  lemma {:induction false} WaitIsPositive(c: Config, outcome: ErrorClass, failCount: int, jitter: Jitter)
    requires Usable(c) && Safe(c)
    ensures 0 < WaitAfter(c, outcome, failCount, jitter)
  {
    DelayBounds(c, failCount, jitter);
  }

  // ---------------------------------------------------------------- history

  /** One call of Record. */
  datatype Event = Event(asset: string, outcome: ErrorClass, now: int, jitter: Jitter)

  function EntriesAfter(c: Config, events: seq<Event>): Entries {
    if events == [] then map[]
    else
      var e := events[|events| - 1];
      Recorded(c, EntriesAfter(c, events[..|events| - 1]), e.asset, e.outcome, e.now, e.jitter)
  }

  /** The events of one asset, in order. */
  function Own(events: seq<Event>, asset: string): seq<Event> {
    if events == [] then []
    else
      var front := Own(events[..|events| - 1], asset);
      if events[|events| - 1].asset == asset then front + [events[|events| - 1]] else front
  }

  /** The length of the longest suffix of transient or permanent outcomes. */
  function FailStreak(events: seq<Event>): (k: nat)
    ensures k <= |events|
    ensures forall i :: |events| - k <= i < |events| ==> events[i].outcome == Transient || events[i].outcome == Permanent
    ensures k < |events| ==> var o := events[|events| - k - 1].outcome; o != Transient && o != Permanent
  {
    if events != [] && CountsAsFailure(events[|events| - 1].outcome)
    then 1 + FailStreak(events[..|events| - 1])
    else 0
  }

  /** What the map says of an asset, read off the asset's own events: it holds the asset
      exactly when the last outcome was not OK; the entry counts the failures at the end
      of the history and is due after the wait of the last event. */
  ghost predicate Remembers(c: Config, entries: Entries, own: seq<Event>, asset: string) {
    && (asset in entries <==> own != [] && own[|own| - 1].outcome != OK)
    && (asset in entries ==> IsEntryOf(c, entries[asset], own[|own| - 1], FailStreak(own)))
  }

  predicate IsEntryOf(c: Config, entry: Entry, last: Event, streak: nat) {
    && entry.failCount == streak
    && entry.nextAttemptAt - last.now == match last.outcome
                                          case OK => 0
                                          case Rejected => c.rejectedRetry
                                          case Unauthorized => c.unauthorizedRetry
                                          case Permanent => c.max
                                          case Transient => Delay(c, streak, last.jitter)
  }

  lemma {:induction false} RememberStep(c: Config, entries: Entries, own: seq<Event>, e: Event)
    requires Remembers(c, entries, own, e.asset)
    ensures Remembers(c, Recorded(c, entries, e.asset, e.outcome, e.now, e.jitter), own + [e], e.asset)
  {
    assert (own + [e])[..|own|] == own;
    var before := if e.asset in entries then entries[e.asset].failCount else 0;
    assert before == FailStreak(own);
  }

  lemma {:induction false} EntryIsHistory(c: Config, events: seq<Event>, asset: string)
    ensures Remembers(c, EntriesAfter(c, events), Own(events, asset), asset)
  {
    if events != [] {
      var front, e := events[..|events| - 1], events[|events| - 1];
      EntryIsHistory(c, front, asset);
      if e.asset == asset {
        RememberStep(c, EntriesAfter(c, front), Own(front, asset), e);
      }
    }
  }

  lemma {:induction false} EntriesAfterAppend(c: Config, events: seq<Event>, e: Event)
    ensures EntriesAfter(c, events + [e]) == Recorded(c, EntriesAfter(c, events), e.asset, e.outcome, e.now, e.jitter)
  {
    assert (events + [e])[..|events|] == events;
  }

  lemma {:induction false} OwnIsOwn(events: seq<Event>, asset: string)
    ensures forall i :: 0 <= i < |Own(events, asset)| ==> Own(events, asset)[i].asset == asset
    ensures Own(Own(events, asset), asset) == Own(events, asset)
  {
    if events != [] {
      OwnIsOwn(events[..|events| - 1], asset);
      var own := Own(events, asset);
      if events[|events| - 1].asset == asset {
        assert own[..|own| - 1] == Own(events[..|events| - 1], asset);
      }
    }
  }

  /** Other assets have no influence: the entry, and with it every CanAttempt answer,
      is the one the asset's own events alone would have left. */
  lemma {:induction false} OthersDoNotMatter(c: Config, events: seq<Event>, asset: string, now: int)
    ensures asset in EntriesAfter(c, events) <==> asset in EntriesAfter(c, Own(events, asset))
    ensures asset in EntriesAfter(c, events) ==>
              EntriesAfter(c, events)[asset] == EntriesAfter(c, Own(events, asset))[asset]
    ensures MayAttempt(EntriesAfter(c, events), asset, now)
       <==> MayAttempt(EntriesAfter(c, Own(events, asset)), asset, now)
  {
    hide EntriesAfter, Own, FailStreak, WaitAfter;
    OwnIsOwn(events, asset);
    EntryIsHistory(c, events, asset);
    EntryIsHistory(c, Own(events, asset), asset);
  }

  // ---------------------------------------------------------------- pacing

  /** A log in which every attempt was made when CanAttempt allowed it. */
  ghost predicate Guarded(c: Config, log: seq<Event>) {
    forall j :: 0 <= j < |log| ==> MayAttempt(EntriesAfter(c, log[..j]), log[j].asset, log[j].now)
  }

  /** The least time between a failed attempt and the next one on the same asset. */
  function LeastGap(c: Config, outcome: ErrorClass, streak: int): int
    requires outcome == Transient ==> streak >= 1
  {
    match outcome
    case OK => 0
    case Rejected => c.rejectedRetry
    case Unauthorized => c.unauthorizedRetry
    case Permanent => c.max
    case Transient => Nominal(c, streak)
  }

  lemma {:induction false} OwnUnchangedBy(log: seq<Event>, i: int, j: int, asset: string)
    requires 0 <= i <= j <= |log|
    requires forall k :: i <= k < j ==> log[k].asset != asset
    ensures Own(log[..j], asset) == Own(log[..i], asset)
    decreases j
  {
    if i < j {
      OwnUnchangedBy(log, i, j - 1, asset);
      assert log[..j][..j - 1] == log[..j - 1];
    }
  }

  lemma {:induction false} OwnEndsWith(log: seq<Event>, i: int)
    requires 0 <= i < |log|
    ensures var own := Own(log[..i + 1], log[i].asset); own != [] && own[|own| - 1] == log[i]
  {
    assert log[..i + 1][..i] == log[..i];
  }

  /** In a guarded log, consecutive attempts i and j on one asset are at least the gap
      of attempt i's outcome apart; a backwards clock only delays attempt j. */
  lemma {:induction false} GuardedIsPaced(c: Config, log: seq<Event>, i: int, j: int)
    requires Usable(c) && Safe(c) && Guarded(c, log)
    requires 0 <= i < j < |log| && log[i].asset == log[j].asset && log[i].outcome != OK
    requires forall k :: i < k < j ==> log[k].asset != log[i].asset
    ensures log[i].outcome == Transient ==> FailStreak(Own(log[..i + 1], log[i].asset)) >= 1
    ensures log[j].now - log[i].now >= LeastGap(c, log[i].outcome, FailStreak(Own(log[..i + 1], log[i].asset)))
  {
    hide Delay, Nominal, Own, EntriesAfter, FailStreak, Safe;
    var a := log[i].asset;
    OwnEndsWith(log, i);
    OwnUnchangedBy(log, i + 1, j, a);
    EntryIsHistory(c, log[..j], a);
    assert MayAttempt(EntriesAfter(c, log[..j]), a, log[j].now);
    DelayBounds(c, FailStreak(Own(log[..i + 1], a)), log[i].jitter);
  }

  /** The k-th of a series of transient failures of one asset, each attempted as soon as
      the backoff allows it. */
  function AttemptTime(c: Config, jitter: Jitter, k: nat): int {
    if k == 0 then 0 else AttemptTime(c, jitter, k - 1) + Max(0, Delay(c, k, jitter))
  }

  function FailureSeries(c: Config, jitter: Jitter, n: nat): (log: seq<Event>)
    ensures |log| == n
    ensures forall k :: 0 <= k < n ==> log[k] == Event("asset", Transient, AttemptTime(c, jitter, k), jitter)
  {
    if n == 0 then []
    else FailureSeries(c, jitter, n - 1) + [Event("asset", Transient, AttemptTime(c, jitter, n - 1), jitter)]
  }

  lemma {:induction false} SeriesIsItsOwnHistory(c: Config, jitter: Jitter, n: nat)
    ensures var log := FailureSeries(c, jitter, n); Own(log, "asset") == log && FailStreak(log) == n
  {
    hide AttemptTime;
    if n > 0 {
      SeriesIsItsOwnHistory(c, jitter, n - 1);
      var log := FailureSeries(c, jitter, n);
      assert log[..n - 1] == FailureSeries(c, jitter, n - 1);
    }
  }

  lemma {:induction false} SeriesIsGuarded(c: Config, jitter: Jitter, n: nat)
    ensures Guarded(c, FailureSeries(c, jitter, n))
  {
    hide Delay, Own, FailStreak, EntriesAfter;
    var log := FailureSeries(c, jitter, n);
    forall j | 0 <= j < n
      ensures MayAttempt(EntriesAfter(c, log[..j]), log[j].asset, log[j].now)
    {
      assert log[..j] == FailureSeries(c, jitter, j);
      SeriesIsItsOwnHistory(c, jitter, j);
      EntryIsHistory(c, log[..j], "asset");
    }
  }

  /** On every unsafe configuration an allowed run of at most 65 attempts breaks the pacing: the
      attempt after failure number i + 1 comes at once. */
  lemma {:induction false} UnsafeIsNotPaced(c: Config) returns (log: seq<Event>, i: nat)
    requires Usable(c) && !Safe(c)
    ensures Guarded(c, log) && i + 1 < |log| <= 65
    ensures log[i].asset == log[i + 1].asset && log[i].outcome == Transient
    ensures FailStreak(Own(log[..i + 1], log[i].asset)) == i + 1
    ensures log[i + 1].now - log[i].now < LeastGap(c, Transient, i + 1)
  {
    hide Delay, Nominal, Own, FailStreak, EntriesAfter, Guarded, Safe, LargestBelow;
    var n, jitter := UnsafeDelayIsNegative(c);
    log, i := FailureSeries(c, jitter, n + 1), n - 1;
    SeriesIsGuarded(c, jitter, n + 1);
    SeriesIsItsOwnHistory(c, jitter, n);
    assert log[..i + 1] == FailureSeries(c, jitter, n);
    assert AttemptTime(c, jitter, n) == AttemptTime(c, jitter, n - 1);
  }

  // ---------------------------------------------------------------- state

  class BackoffState {
    const cfg: Config
    var entries: Entries
    ghost var events: seq<Event>

    ghost predicate Valid()
      reads this
    {
      Usable(cfg) && entries == EntriesAfter(cfg, events)
    }

    constructor (c: Config)
      requires c.base < TWO63 && c.max < TWO63
      ensures Valid() && events == []
      ensures cfg.base == if c.base > 0 then c.base else 2_000_000_000
      ensures cfg.max == if c.max > 0 then c.max else 600_000_000_000
      ensures cfg.rejectedRetry == if c.rejectedRetry > 0 then c.rejectedRetry else 86_400_000_000_000
      ensures cfg.unauthorizedRetry == if c.unauthorizedRetry > 0 then c.unauthorizedRetry else 3_600_000_000_000
    {
      cfg := Normalize(c);
      entries := map[];
      events := [];
    }

    method CanAttempt(asset: string, now: int) returns (can: bool)
      requires Valid()
      ensures can <==> asset !in entries || entries[asset].nextAttemptAt <= now
    {
      if asset !in entries {
        return true;
      }
      return !(entries[asset].nextAttemptAt > now);
    }

    method CountDeferred(now: int) returns (count: nat)
      requires Valid()
      ensures count == |set a | a in entries && entries[a].nextAttemptAt > now|
    {
      count := 0;
      var left := entries.Keys;
      ghost var held := {};
      while left != {}
        invariant left <= entries.Keys
        invariant held == set a | a in entries && a !in left && entries[a].nextAttemptAt > now
        invariant count == |held|
        decreases left
      {
        var a :| a in left;
        left := left - {a};
        if entries[a].nextAttemptAt > now {
          count := count + 1;
          held := held + {a};
        }
      }
      assert held == set a | a in entries && entries[a].nextAttemptAt > now;
    }

    method NextAttempt(now: int, failCount: int, jitter: Jitter) returns (at: int, ghost rounds: nat)
      requires Valid()
      ensures at == now + Delay(cfg, failCount, jitter)
      ensures rounds == Rounds(cfg.base, 1, Max(failCount, 1), cfg.max)
    {
      hide Wrap64;
      var n := failCount;
      if n < 1 {
        n := 1;
      }
      var delay := cfg.base;
      rounds := 0;
      var i := 1;
      while i < n
        invariant 1 <= i <= n
        invariant Doubled(cfg.base, 1, n, cfg.max) == Doubled(delay, i, n, cfg.max)
        invariant Rounds(cfg.base, 1, n, cfg.max) == rounds + Rounds(delay, i, n, cfg.max)
      {
        rounds := rounds + 1;
        if delay >= cfg.max {
          delay := cfg.max;
          break;
        }
        delay := Wrap64(delay * 2);
        if delay > cfg.max {
          delay := cfg.max;
          break;
        }
        i := i + 1;
      }
      assert delay == Doubled(cfg.base, 1, n, cfg.max);
      var window := if delay >= 0 then delay / 4 else -((-delay) / 4);
      if window > 0 {
        delay := Wrap64(delay + jitter(window + 1));
      }
      if delay > cfg.max {
        delay := cfg.max;
      }
      at := now + delay;
    }

    method Record(asset: string, outcome: ErrorClass, now: int, jitter: Jitter)
      requires Valid()
      modifies this
      ensures Valid()
      ensures events == old(events) + [Event(asset, outcome, now, jitter)]
      ensures entries == Recorded(cfg, old(entries), asset, outcome, now, jitter)
    {
      var entry := if asset in entries then entries[asset] else Entry(0, 0);
      match outcome {
        case OK =>
          entries := entries - {asset};
        case Rejected =>
          entries := entries[asset := Entry(0, now + cfg.rejectedRetry)];
        case Unauthorized =>
          entries := entries[asset := Entry(0, now + cfg.unauthorizedRetry)];
        case Permanent =>
          entries := entries[asset := Entry(entry.failCount + 1, now + cfg.max)];
        case Transient =>
          var at, _ := NextAttempt(now, entry.failCount + 1, jitter);
          entries := entries[asset := Entry(entry.failCount + 1, at)];
      }
      assert entries == Recorded(cfg, old(entries), asset, outcome, now, jitter);
      EntriesAfterAppend(cfg, events, Event(asset, outcome, now, jitter));
      events := events + [Event(asset, outcome, now, jitter)];
    }
  }
}
