/** The per-client token bucket. Readings of the clock are nanoseconds; tokens are
    exact real numbers. A window rule over the whole call history, without any
    bucket in it, is what the bucket is proved to decide. */
module RateLimiter {

  /** Tokens gained over a span of nanoseconds. */
  function Refill(rps: real, span: int): real {
    (span as real / 1_000_000_000.0) * rps
  }

  lemma {:induction false} RefillAdds(rps: real, a: int, b: int)
    ensures Refill(rps, a) + Refill(rps, b) == Refill(rps, a + b)
  {
    assert (a + b) as real == a as real + b as real;
    assert (a + b) as real / 1_000_000_000.0 == a as real / 1_000_000_000.0 + b as real / 1_000_000_000.0;
  }

  /** A second refills `rps` tokens, and every span in proportion. */
  lemma {:induction false} RefillPerSecond(rps: real, span: int)
    ensures Refill(rps, 1_000_000_000) == rps
    ensures 1_000_000_000.0 * Refill(rps, span) == rps * span as real
  {
    var seconds := span as real / 1_000_000_000.0;
    assert 1_000_000_000.0 * seconds == span as real;
    assert 1_000_000_000.0 * (seconds * rps) == (1_000_000_000.0 * seconds) * rps;
  }

  lemma RefillIsMonotone(rps: real, span: int)
    requires rps >= 1.0
    ensures span >= 0 ==> Refill(rps, span) >= 0.0
    ensures span == 0 ==> Refill(rps, span) == 0.0
  {
  }

  // ---------------------------------------------------------------- the window rule

  /** One call from a client: the clock reading and the decision. */
  datatype Call = Call(at: int, admitted: bool)

  /** The latest reading up to and including call k, so that a clock that runs backwards
      counts as standing still. */
  function Latest(calls: seq<Call>, k: nat): int
    requires k < |calls|
  {
    if k == 0 || calls[k].at > Latest(calls, k - 1) then calls[k].at else Latest(calls, k - 1)
  }

  /** Calls admitted among i, ..., j - 1. */
  function Admitted(calls: seq<Call>, i: nat, j: nat): (n: nat)
    requires i <= j <= |calls|
    ensures n <= j - i
  {
    if i == j then 0 else Admitted(calls, i, j - 1) + (if calls[j - 1].admitted then 1 else 0)
  }

  /** What the window from call i to call k has to spare. */
  function Room(burst: real, rps: real, calls: seq<Call>, i: nat, k: nat): real
    requires i <= k < |calls|
  {
    burst + Refill(rps, Latest(calls, k) - Latest(calls, i)) - Admitted(calls, i, k) as real
  }

  /** With call k, the calls admitted from call i on stay within the burst and `rps` calls for
      each second since then; both sides count in 10^-9 calls. */
  predicate FitsWindow(burst: real, rps: real, calls: seq<Call>, i: nat, k: nat)
    requires i <= k < |calls|
  {
    1_000_000_000.0 * (Admitted(calls, i, k) + 1) as real
    <= 1_000_000_000.0 * burst + rps * (Latest(calls, k) - Latest(calls, i)) as real
  }

  /** Call k fits into every window that ends with it. */
  ghost predicate FitsAllWindows(burst: real, rps: real, calls: seq<Call>, k: nat)
    requires k < |calls|
  {
    forall i: nat :: i <= k ==> FitsWindow(burst, rps, calls, i, k)
  }

  /** A window fits a call exactly when it has room for a token. */
  lemma {:induction false} RoomForOne(burst: real, rps: real, calls: seq<Call>, i: nat, k: nat)
    requires i <= k < |calls|
    ensures FitsWindow(burst, rps, calls, i, k) <==> 1.0 <= Room(burst, rps, calls, i, k)
  {
    hide Latest, Refill, Admitted;
    var span := Latest(calls, k) - Latest(calls, i);
    RefillPerSecond(rps, span);
    var refill := Refill(rps, span);
    assert 1_000_000_000.0 * (burst + refill) == 1_000_000_000.0 * burst + rps * span as real;
  }

  lemma {:induction false} RoomForAll(burst: real, rps: real, calls: seq<Call>, k: nat)
    requires k < |calls|
    ensures FitsAllWindows(burst, rps, calls, k) <==> forall i: nat :: i <= k ==> 1.0 <= Room(burst, rps, calls, i, k)
  {
    hide Room, FitsWindow;
    forall i: nat | i <= k
      ensures FitsWindow(burst, rps, calls, i, k) <==> 1.0 <= Room(burst, rps, calls, i, k)
    {
      RoomForOne(burst, rps, calls, i, k);
    }
  }

  /** Admitted counts the admitted calls. */
  lemma {:induction false} AdmittedIsACount(calls: seq<Call>, i: nat, j: nat)
    requires i <= j <= |calls|
    ensures Admitted(calls, i, j) == |set x | i <= x < j && calls[x].admitted|
  {
    var counted := set x | i <= x < j && calls[x].admitted;
    if i < j {
      AdmittedIsACount(calls, i, j - 1);
      var before := set x | i <= x < j - 1 && calls[x].admitted;
      assert counted == before + (if calls[j - 1].admitted then {j - 1} else {});
    } else {
      assert counted == {};
    }
  }

  /** Every call so far was admitted exactly when it fitted. */
  ghost predicate Exact(burst: real, rps: real, calls: seq<Call>) {
    forall k: nat :: k < |calls| ==> (calls[k].admitted <==> FitsAllWindows(burst, rps, calls, k))
  }

  /** Latest is the greatest of the readings. */
  lemma {:induction false} LatestIsGreatest(calls: seq<Call>, k: nat)
    requires k < |calls|
    ensures forall j: nat :: j <= k ==> calls[j].at <= Latest(calls, k)
    ensures exists j: nat :: j <= k && calls[j].at == Latest(calls, k)
  {
    if k > 0 {
      LatestIsGreatest(calls, k - 1);
    }
    assert calls[k].at <= Latest(calls, k);
  }

  lemma {:induction false} LatestIsMonotone(calls: seq<Call>, i: nat, k: nat)
    requires i <= k < |calls|
    ensures Latest(calls, i) <= Latest(calls, k)
  {
    if i < k {
      LatestIsMonotone(calls, i, k - 1);
    }
  }

  /** Latest and Admitted look only at the calls up to k. */
  lemma {:induction false} OnlyEarlierCallsCount(calls: seq<Call>, last: Call, i: nat, k: nat)
    requires i <= k <= |calls|
    ensures Admitted(calls + [last], i, k) == Admitted(calls, i, k)
    ensures i < |calls| ==> Latest(calls + [last], i) == Latest(calls, i)
    decreases k, i
  {
    if i < k {
      OnlyEarlierCallsCount(calls, last, i, k - 1);
    }
    if 0 < i < |calls| {
      OnlyEarlierCallsCount(calls, last, i - 1, k);
    }
  }

  lemma {:induction false} AdmittedHadRoom(burst: real, rps: real, calls: seq<Call>, i: nat, j: nat)
    requires Exact(burst, rps, calls) && i <= j < |calls| && calls[j].admitted
    ensures 1.0 <= Room(burst, rps, calls, i, j)
  {
    hide Room, FitsWindow;
    RoomForAll(burst, rps, calls, j);
    assert FitsAllWindows(burst, rps, calls, j);
  }

  lemma {:induction false} StretchInTokens(burst: real, rps: real, calls: seq<Call>, i: nat, j: nat)
    requires Exact(burst, rps, calls) && rps >= 1.0 && burst >= 1.0 && i <= j < |calls|
    ensures Admitted(calls, i, j + 1) as real <= burst + Refill(rps, Latest(calls, j) - Latest(calls, i))
    decreases j
  {
    hide Refill, Latest, Exact;
    LatestIsMonotone(calls, i, j);
    RefillIsMonotone(rps, Latest(calls, j) - Latest(calls, i));
    if calls[j].admitted {
      AdmittedHadRoom(burst, rps, calls, i, j);
    } else if i < j {
      StretchInTokens(burst, rps, calls, i, j - 1);
      LatestIsMonotone(calls, j - 1, j);
      RefillIsMonotone(rps, Latest(calls, j) - Latest(calls, j - 1));
      RefillAdds(rps, Latest(calls, j) - Latest(calls, j - 1), Latest(calls, j - 1) - Latest(calls, i));
    }
  }

  /** Whatever the clock did, a stretch of calls admits no more than the burst and `rps` calls
      for each second it took. */
  lemma {:induction false} StretchBound(burst: real, rps: real, calls: seq<Call>, i: nat, j: nat)
    requires Exact(burst, rps, calls) && rps >= 1.0 && burst >= 1.0 && i <= j < |calls|
    ensures 1_000_000_000.0 * Admitted(calls, i, j + 1) as real
         <= 1_000_000_000.0 * burst + rps * (Latest(calls, j) - Latest(calls, i)) as real
  {
    hide Refill, Latest, Admitted, Exact;
    StretchInTokens(burst, rps, calls, i, j);
    RefillPerSecond(rps, Latest(calls, j) - Latest(calls, i));
  }

  // ---------------------------------------------------------------- the bucket

  function Least(a: real, b: real): (r: real)
    ensures r <= a && r <= b && (r == a || r == b)
  {
    if a < b then a else b
  }

  /** The tokens of a bucket after these calls are the least room over all windows, less
      what the last call took. */
  ghost predicate TokensAreRoom(burst: real, rps: real, calls: seq<Call>, tokens: real)
    requires calls != []
  {
    var k := |calls| - 1;
    var taken := if calls[k].admitted then 1.0 else 0.0;
    && (forall i: nat :: i <= k ==> tokens + taken <= Room(burst, rps, calls, i, k))
    && (exists i: nat :: i <= k && tokens + taken == Room(burst, rps, calls, i, k))
  }

  /** Room one call later: the elapsed refill in, the last decision out. */
  lemma {:induction false} RoomGrows(burst: real, rps: real, calls: seq<Call>, next: Call, i: nat)
    requires i < |calls|
    ensures var k := |calls| - 1;
            Room(burst, rps, calls + [next], i, k + 1)
            == Room(burst, rps, calls, i, k) - (if calls[k].admitted then 1.0 else 0.0)
               + Refill(rps, Latest(calls + [next], k + 1) - Latest(calls, k))
  {
    hide Refill, Latest;
    var k := |calls| - 1;
    OnlyEarlierCallsCount(calls, next, i, k + 1);
    OnlyEarlierCallsCount(calls, next, i, k);
    OnlyEarlierCallsCount(calls, next, k, k);
    RefillAdds(rps, Latest(calls + [next], k + 1) - Latest(calls, k), Latest(calls, k) - Latest(calls, i));
  }

  lemma OwnWindow(burst: real, rps: real, calls: seq<Call>)
    requires calls != []
    ensures Room(burst, rps, calls, |calls| - 1, |calls| - 1) == burst
  {
  }

  /** The refilled bucket holds the least room of the new call: it admits exactly when
      the window rule does. */
  lemma {:induction false} BucketStep(burst: real, rps: real, calls: seq<Call>, tokens: real, next: Call,
                                      refilled: real)
    requires calls != [] && rps >= 1.0 && burst >= 1.0
    requires TokensAreRoom(burst, rps, calls, tokens)
    requires refilled == Least(burst, tokens + Refill(rps, Latest(calls + [next], |calls|) - Latest(calls, |calls| - 1)))
    requires next.admitted <==> refilled >= 1.0
    ensures next.admitted <==> FitsAllWindows(burst, rps, calls + [next], |calls|)
    ensures TokensAreRoom(burst, rps, calls + [next], if next.admitted then refilled - 1.0 else refilled)
  {
    hide Room, Latest, FitsAllWindows;
    var k := |calls|;
    var longer := calls + [next];
    OwnWindow(burst, rps, longer);
    forall i: nat | i <= k
      ensures refilled <= Room(burst, rps, longer, i, k)
    {
      if i < k {
        RoomGrows(burst, rps, calls, next, i);
      }
    }
    var taken := if calls[k - 1].admitted then 1.0 else 0.0;
    var i: nat :| i <= k - 1 && tokens + taken == Room(burst, rps, calls, i, k - 1);
    RoomGrows(burst, rps, calls, next, i);
    var tight: nat := if refilled == burst then k else i;
    assert refilled == Room(burst, rps, longer, tight, k);
    RoomForAll(burst, rps, longer, k);
  }

  lemma {:induction false} ExactGrows(burst: real, rps: real, calls: seq<Call>, next: Call)
    requires Exact(burst, rps, calls)
    requires next.admitted <==> FitsAllWindows(burst, rps, calls + [next], |calls|)
    ensures Exact(burst, rps, calls + [next])
  {
    hide FitsAllWindows;
    var longer := calls + [next];
    forall k: nat | k < |longer|
      ensures longer[k].admitted <==> FitsAllWindows(burst, rps, longer, k)
    {
      if k < |calls| {
        WindowsUnchanged(burst, rps, calls, next, k);
      }
    }
  }

  lemma {:induction false} WindowsUnchanged(burst: real, rps: real, calls: seq<Call>, next: Call, k: nat)
    requires k < |calls|
    ensures FitsAllWindows(burst, rps, calls + [next], k) <==> FitsAllWindows(burst, rps, calls, k)
  {
    hide Room, FitsAllWindows;
    RoomForAll(burst, rps, calls, k);
    RoomForAll(burst, rps, calls + [next], k);
    forall i: nat | i <= k
      ensures Room(burst, rps, calls + [next], i, k) == Room(burst, rps, calls, i, k)
    {
      RoomUnchanged(burst, rps, calls, next, i, k);
    }
  }

  lemma {:induction false} RoomUnchanged(burst: real, rps: real, calls: seq<Call>, next: Call, i: nat, k: nat)
    requires i <= k < |calls|
    ensures Room(burst, rps, calls + [next], i, k) == Room(burst, rps, calls, i, k)
  {
    hide Latest, Admitted;
    OnlyEarlierCallsCount(calls, next, i, k);
    OnlyEarlierCallsCount(calls, next, k, k);
  }

  /** The window rule leaves no freedom: the readings alone determine every decision. */
  lemma {:induction false} ReadingsDetermineDecisions(burst: real, rps: real, a: seq<Call>, b: seq<Call>)
    requires Exact(burst, rps, a) && Exact(burst, rps, b)
    requires |a| == |b| && forall k :: 0 <= k < |a| ==> a[k].at == b[k].at
    ensures a == b
  {
    hide FitsAllWindows;
    if a != [] {
      var n := |a| - 1;
      var front := a[..n];
      assert a == front + [a[n]] && b == b[..n] + [b[n]];
      ExactShrinks(burst, rps, a);
      ExactShrinks(burst, rps, b);
      ReadingsDetermineDecisions(burst, rps, front, b[..n]);
      DecisionIsNotConsulted(burst, rps, front, a[n], b[n]);
    }
  }

  lemma {:induction false} ExactShrinks(burst: real, rps: real, calls: seq<Call>)
    requires calls != [] && Exact(burst, rps, calls)
    ensures Exact(burst, rps, calls[..|calls| - 1])
  {
    hide FitsAllWindows;
    var front, last := calls[..|calls| - 1], calls[|calls| - 1];
    assert calls == front + [last];
    forall k: nat | k < |front|
      ensures front[k].admitted <==> FitsAllWindows(burst, rps, front, k)
    {
      WindowsUnchanged(burst, rps, front, last, k);
    }
  }

  lemma {:induction false} DecisionIsNotConsulted(burst: real, rps: real, calls: seq<Call>, x: Call, y: Call)
    requires x.at == y.at
    ensures FitsAllWindows(burst, rps, calls + [x], |calls|) <==> FitsAllWindows(burst, rps, calls + [y], |calls|)
  {
    hide Refill, Latest, FitsAllWindows;
    RoomForAll(burst, rps, calls + [x], |calls|);
    RoomForAll(burst, rps, calls + [y], |calls|);
    forall i: nat | i <= |calls|
      ensures Room(burst, rps, calls + [x], i, |calls|) == Room(burst, rps, calls + [y], i, |calls|)
    {
      OnlyEarlierCallsCount(calls, x, i, |calls|);
      OnlyEarlierCallsCount(calls, y, i, |calls|);
      LatestAtEnd(calls, x, y);
    }
  }

  lemma {:induction false} LatestAtEnd(calls: seq<Call>, x: Call, y: Call)
    requires x.at == y.at
    ensures Latest(calls + [x], |calls|) == Latest(calls + [y], |calls|)
  {
    if calls != [] {
      LatestStep(calls, x);
      LatestStep(calls, y);
    }
  }

  // ---------------------------------------------------------------- the limiter

  class Bucket {
    var tokens: real
    var last: int

    constructor (tokens: real, last: int)
      ensures this.tokens == tokens && this.last == last
    {
      this.tokens, this.last := tokens, last;
    }

    /** Refill for the time since the last reading, then take a token if there is one. */
    method Take(now: int, burst: real, rps: real) returns (allowed: bool, ghost refilled: real)
      modifies this
      ensures refilled == if now > old(last) then Least(burst, old(tokens) + Refill(rps, now - old(last))) else old(tokens)
      ensures last == if now > old(last) then now else old(last)
      ensures allowed <==> refilled >= 1.0
      ensures tokens == if allowed then refilled - 1.0 else refilled
    {
      if now > last {
        tokens := Least(burst, tokens + Refill(rps, now - last));
        last := now;
      }
      refilled := tokens;
      if tokens < 1.0 {
        return false, refilled;
      }
      tokens := tokens - 1.0;
      return true, refilled;
    }
  }

  /** A bucket agrees with its client's history. */
  ghost predicate BucketOk(burst: real, rps: real, calls: seq<Call>, tokens: real, last: int) {
    && calls != []
    && last == Latest(calls, |calls| - 1)
    && TokensAreRoom(burst, rps, calls, tokens)
    && Exact(burst, rps, calls)
  }

  lemma {:induction false} FirstCall(burst: real, rps: real, now: int)
    requires burst >= 1.0 && rps >= 1.0
    ensures BucketOk(burst, rps, [Call(now, true)], burst - 1.0, now)
  {
    OwnWindow(burst, rps, [Call(now, true)]);
    RoomForOne(burst, rps, [Call(now, true)], 0, 0);
  }

  lemma {:induction false} NextCall(burst: real, rps: real, calls: seq<Call>, tokens: real, last: int, next: Call,
                                    refilled: real)
    requires burst >= 1.0 && rps >= 1.0 && BucketOk(burst, rps, calls, tokens, last)
    requires tokens <= burst
    requires refilled == if next.at > last then Least(burst, tokens + Refill(rps, next.at - last)) else tokens
    requires next.admitted <==> refilled >= 1.0
    ensures BucketOk(burst, rps, calls + [next], if next.admitted then refilled - 1.0 else refilled,
                     if next.at > last then next.at else last)
  {
    hide Exact, TokensAreRoom, Latest, Refill;
    LatestStep(calls, next);
    RefillIsMonotone(rps, 0);
    BucketStep(burst, rps, calls, tokens, next, refilled);
    ExactGrows(burst, rps, calls, next);
  }

  lemma {:induction false} LatestStep(calls: seq<Call>, next: Call)
    requires calls != []
    ensures var before := Latest(calls, |calls| - 1);
            Latest(calls + [next], |calls|) == if next.at > before then next.at else before
  {
    OnlyEarlierCallsCount(calls, next, |calls| - 1, |calls| - 1);
  }

  class IpRateLimiter {
    var buckets: map<string, Bucket>
    const rps: real
    const burst: real
    /** Every call made so far, by client. */
    ghost var history: map<string, seq<Call>>

    ghost predicate Valid()
      reads this, buckets.Values
    {
      && rps >= 1.0 && burst >= 1.0
      && buckets.Keys == history.Keys
      && (forall a, b :: a in buckets && b in buckets && a != b ==> buckets[a] != buckets[b])
      && (forall ip :: ip in buckets ==> buckets[ip].tokens <= burst)
      && (forall ip :: ip in buckets ==> BucketOk(burst, rps, history[ip], buckets[ip].tokens, buckets[ip].last))
    }

    /** The history of one client. */
    ghost function CallsOf(ip: string): seq<Call>
      reads this
    {
      if ip in history then history[ip] else []
    }

    constructor (configuredRps: int, configuredBurst: int)
      ensures Valid() && history == map[] && fresh(buckets.Values)
      ensures rps == (if configuredRps > 1 then configuredRps else 1) as real
      ensures burst == (if configuredBurst > 1 then configuredBurst else 1) as real
    {
      buckets := map[];
      rps := (if configuredRps > 1 then configuredRps else 1) as real;
      burst := (if configuredBurst > 1 then configuredBurst else 1) as real;
      history := map[];
    }

    /** The decision is the window rule's on the client's own calls; other clients are
        neither consulted nor changed. */
    method Allow(ip: string, now: int) returns (allowed: bool)
      requires Valid()
      modifies this, buckets.Values
      ensures Valid() && fresh(buckets.Values - old(buckets.Values))
      ensures CallsOf(ip) == old(CallsOf(ip)) + [Call(now, allowed)]
      ensures forall other :: other != ip ==> CallsOf(other) == old(CallsOf(other))
      ensures allowed <==> FitsAllWindows(burst, rps, CallsOf(ip), |CallsOf(ip)| - 1)
      ensures Exact(burst, rps, CallsOf(ip))
    {
      hide BucketOk, Exact, FitsAllWindows, Admitted, Latest;
      if ip !in buckets {
        AdmitNewClient(ip, now);
        allowed := true;
      } else {
        allowed := ChargeKnownClient(ip, now);
      }
      BucketOkMeans(burst, rps, history[ip], buckets[ip].tokens, buckets[ip].last);
    }

    method AdmitNewClient(ip: string, now: int)
      requires Valid() && ip !in buckets
      modifies this
      ensures Valid() && fresh(buckets.Values - old(buckets.Values))
      ensures history == old(history)[ip := [Call(now, true)]]
    {
      hide BucketOk;
      var b := new Bucket(burst - 1.0, now);
      buckets := buckets[ip := b];
      history := history[ip := [Call(now, true)]];
      FirstCall(burst, rps, now);
    }

    method ChargeKnownClient(ip: string, now: int) returns (allowed: bool)
      requires Valid() && ip in buckets
      modifies this`history, buckets[ip]
      ensures Valid()
      ensures history == old(history)[ip := old(history)[ip] + [Call(now, allowed)]]
    {
      hide BucketOk, Refill, Least;
      var b := buckets[ip];
      ghost var calls, tokens, last := history[ip], b.tokens, b.last;
      ghost var refilled;
      allowed, refilled := b.Take(now, burst, rps);
      history := history[ip := calls + [Call(now, allowed)]];
      NextCall(burst, rps, calls, tokens, last, Call(now, allowed), refilled);
    }
  }

  lemma BucketOkMeans(burst: real, rps: real, calls: seq<Call>, tokens: real, last: int)
    requires BucketOk(burst, rps, calls, tokens, last)
    ensures calls != [] && Exact(burst, rps, calls)
    ensures calls[|calls| - 1].admitted <==> FitsAllWindows(burst, rps, calls, |calls| - 1)
  {
  }
}
