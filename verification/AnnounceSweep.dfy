/** The announce sweep: walk the active assets, announce the stale ones that the
    backoff lets through, and keep a row and a backoff entry for each outcome.
    The catalog, the database faults and the random source are an arbitrary
    environment, one per asset visited. */
module AnnounceSweep {
  import opened Wrappers
  import opened Timestamps
  import opened Announcements
  import opened Backoff

  datatype Settings = Settings(backoff: Config, expirySeconds: int, thresholdSeconds: int)

  datatype Env = Env(readFails: bool, buildFails: bool, reply: Reply, writeFails: bool, jitter: Jitter)

  /** The two shared stores that a sweep changes. */
  datatype World = World(rows: Rows, entries: Entries)

  /** What becomes of one listed asset. */
  datatype Outcome = ReadFailed | Fresh | Deferred | BuildFailed | Answered(answer: ErrorClass)

  predicate InYears0To9999(t: int) {
    0 <= t < SECONDS_TO_YEAR_10000 * NS
  }

  /** The expiry of an announcement built at `now`, through its Unix seconds. */
  function Expiry(st: Settings, now: int): int {
    FromUnix(ToUnix(now + st.expirySeconds * NS))
  }

  /** The clock and the expiries it leads to have four-digit years from year 1 on. */
  predicate ClockOk(st: Settings, now: int) {
    GO_ZERO < now && InYears0To9999(now) && GO_ZERO < Expiry(st, now) && InYears0To9999(Expiry(st, now))
  }

  function Threshold(st: Settings, now: int): int {
    now + st.thresholdSeconds * NS
  }

  predicate NeedsReannounce(row: Option<Announcement>, threshold: int) {
    row.None? || row.value.status != "ok" || row.value.expiresAt == GO_ZERO || row.value.expiresAt < threshold
  }

  /** The status column for an answer of the catalog. */
  function StatusText(answer: ErrorClass): string {
    match answer
    case OK => "ok"
    case Rejected => "rejected"
    case _ => "failed"
  }

  // ---------------------------------------------------------------- one asset

  function VisitOutcome(st: Settings, w: World, id: string, now: int, env: Env): Outcome {
    if env.readFails || Read(w.rows, id).Failure? then ReadFailed
    else if !NeedsReannounce(Read(w.rows, id).value, Threshold(st, now)) then Fresh
    else if !MayAttempt(w.entries, id, now) then Deferred
    else if env.buildFails then BuildFailed
    else Answered(ClassifyError(env.reply))
  }

  /** The class that an attempt records. */
  function RecordedClass(o: Outcome): ErrorClass
    requires IsAttempted(o)
  {
    if o.BuildFailed? then Permanent else o.answer
  }

  function WrittenRows(st: Settings, rows: Rows, id: string, now: Instant, o: Outcome): Rows
    requires ClockOk(st, now) && IsAttempted(o)
  {
    if o.BuildFailed? then Upserted(rows, id, GO_ZERO, GO_ZERO, "failed", now)
    else Upserted(rows, id, now, Expiry(st, now), StatusText(o.answer), now)
  }

  function Visited(st: Settings, w: World, id: string, now: Instant, env: Env): World
    requires ClockOk(st, now)
  {
    var o := VisitOutcome(st, w, id, now, env);
    if !IsAttempted(o) then w
    else World(if env.writeFails then w.rows else WrittenRows(st, w.rows, id, now, o),
               Recorded(st.backoff, w.entries, id, RecordedClass(o), now, env.jitter))
  }

  /** A time column that holds a text other than a time. */
  predicate Broken(text: string) {
    text != "" && Parse(text).None?
  }

  /** What the visit finds, by the columns of the asset's row and the backoff entry: a row is
      fresh when it is ok and its expiry, a real time, is not before now plus the threshold. */
  lemma {:induction false} VisitByRow(st: Settings, w: World, id: string, now: int, env: Env)
    ensures var o := VisitOutcome(st, w, id, now, env);
            var unread := || env.readFails
                          || (id in w.rows && (Broken(w.rows[id].lastAnnounced) || Broken(w.rows[id].expires)));
            var current := && id in w.rows && w.rows[id].status == "ok"
                         && Parse(w.rows[id].expires) !in {None, Some(366 * 86_400)}
                         && Parse(w.rows[id].expires).value * 1_000_000_000 >= now + st.thresholdSeconds * 1_000_000_000;
            var held := id in w.entries && w.entries[id].nextAttemptAt > now;
            && (o == ReadFailed <==> unread)
            && (o == Fresh <==> !unread && current)
            && (o == Deferred <==> !unread && !current && held)
            && (o == BuildFailed <==> !unread && !current && !held && env.buildFails)
            && (o.Answered? <==> !unread && !current && !held && !env.buildFails)
            && (o.Answered? ==> o.answer == ClassifyError(env.reply))
  {
    hide Parse, ClassifyError;
    EmptyIsNoTime();
  }

  lemma EmptyIsNoTime()
    ensures Parse("") == None
  {
  }

  /** What the visit leaves: nothing for an asset it did not attempt; otherwise the row and the
      backoff entry that the outcome calls for, and never anything of another asset. */
  lemma {:induction false} VisitLeaves(st: Settings, w: World, id: string, now: Instant, env: Env)
    requires ClockOk(st, now)
    ensures var o, after := VisitOutcome(st, w, id, now, env), Visited(st, w, id, now, env);
            && (!IsAttempted(o) ==> after == w)
            && (IsAttempted(o) && env.writeFails ==> after.rows == w.rows)
            && (IsAttempted(o) && !env.writeFails ==> id in after.rows && RowAfter(st, w, now, o, id, after.rows[id]))
            && (IsAttempted(o) ==> EntryAfter(st, w, now, o, id, env.jitter, after.entries))
            && forall other :: other != id ==> SameAt(after, w, other)
  {
    hide Read, NeedsReannounce, ClassifyError, Stamp, Delay;
  }

  predicate RowAfter(st: Settings, w: World, now: Instant, o: Outcome, id: string, row: Row)
    requires ClockOk(st, now)
  {
    && row.updatedAt == Stamp(now) && row.createdAt == (if id in w.rows then w.rows[id].createdAt else Stamp(now))
    && (o == BuildFailed ==> row.lastAnnounced == "" && row.expires == "" && row.status == "failed")
    && (o.Answered? ==>
          && row.lastAnnounced == Stamp(now)
          && row.expires == Stamp((now / 1_000_000_000 + st.expirySeconds) * 1_000_000_000)
          && row.status == match o.answer
                           case OK => "ok"
                           case Rejected => "rejected"
                           case _ => "failed")
  }

  /** An ok answer clears the entry; the others set it, a failed build as a permanent failure. */
  predicate EntryAfter(st: Settings, w: World, now: int, o: Outcome, id: string, jitter: Jitter, entries: Entries) {
    var failures := 1 + (if id in w.entries then w.entries[id].failCount else 0);
    if o == Answered(OK) then id !in entries
    else
      && id in entries
      && entries[id] == (if o == Answered(Rejected) then Entry(0, now + st.backoff.rejectedRetry)
                         else if o == Answered(Unauthorized) then Entry(0, now + st.backoff.unauthorizedRetry)
                         else if o == Answered(Transient) then Entry(failures, now + Delay(st.backoff, failures, jitter))
                         else Entry(failures, now + st.backoff.max))
  }

  // ---------------------------------------------------------------- a whole sweep

  function Swept(st: Settings, w: World, ids: seq<string>, now: Instant, envs: seq<Env>): World
    requires ClockOk(st, now) && |ids| == |envs|
  {
    if ids == [] then w
    else
      var n := |ids| - 1;
      Visited(st, Swept(st, w, ids[..n], now, envs[..n]), ids[n], now, envs[n])
  }

  function Outcomes(st: Settings, w: World, ids: seq<string>, now: Instant, envs: seq<Env>): (os: seq<Outcome>)
    requires ClockOk(st, now) && |ids| == |envs|
    ensures |os| == |ids|
  {
    if ids == [] then []
    else
      var n := |ids| - 1;
      Outcomes(st, w, ids[..n], now, envs[..n])
      + [VisitOutcome(st, Swept(st, w, ids[..n], now, envs[..n]), ids[n], now, envs[n])]
  }

  predicate Distinct(ids: seq<string>) {
    forall i, j :: 0 <= i < j < |ids| ==> ids[i] != ids[j]
  }

  /** Two worlds hold the same row and the same entry for `id`. */
  predicate SameAt(v: World, w: World, id: string) {
    && (id in v.rows <==> id in w.rows) && (id in v.rows ==> v.rows[id] == w.rows[id])
    && (id in v.entries <==> id in w.entries) && (id in v.entries ==> v.entries[id] == w.entries[id])
  }

  lemma {:induction false} ReadIsLocal(v: World, w: World, id: string)
    requires SameAt(v, w, id)
    ensures Read(v.rows, id) == Read(w.rows, id)
  {
    hide Parse;
  }

  lemma {:induction false} VisitIsLocal(st: Settings, v: World, w: World, id: string, now: Instant, env: Env)
    requires ClockOk(st, now) && SameAt(v, w, id)
    ensures VisitOutcome(st, v, id, now, env) == VisitOutcome(st, w, id, now, env)
    ensures SameAt(Visited(st, v, id, now, env), Visited(st, w, id, now, env), id)
  {
    hide Read, WaitAfter, Column, Stamp, NeedsReannounce, ClassifyError;
    ReadIsLocal(v, w, id);
  }

  lemma VisitLeavesOthers(st: Settings, w: World, id: string, now: Instant, env: Env, other: string)
    requires ClockOk(st, now) && other != id
    ensures SameAt(Visited(st, w, id, now, env), w, other)
  {
  }

  lemma {:induction false} SweepLeavesOthers(st: Settings, w: World, ids: seq<string>, now: Instant, envs: seq<Env>,
                                             other: string)
    requires ClockOk(st, now) && |ids| == |envs| && other !in ids
    ensures SameAt(Swept(st, w, ids, now, envs), w, other)
  {
    hide Visited;
    if ids != [] {
      var n := |ids| - 1;
      SweepLeavesOthers(st, w, ids[..n], now, envs[..n], other);
      VisitLeavesOthers(st, Swept(st, w, ids[..n], now, envs[..n]), ids[n], now, envs[n], other);
    }
  }

  /** In a sweep over distinct assets, each is treated as if it were the only one. */
  lemma {:induction false} EachAssetAlone(st: Settings, w: World, ids: seq<string>, now: Instant, envs: seq<Env>,
                                          i: int)
    requires ClockOk(st, now) && |ids| == |envs| && Distinct(ids) && 0 <= i < |ids|
    ensures Outcomes(st, w, ids, now, envs)[i] == VisitOutcome(st, w, ids[i], now, envs[i])
    ensures SameAt(Swept(st, w, ids, now, envs), Visited(st, w, ids[i], now, envs[i]), ids[i])
  {
    hide Visited, VisitOutcome;
    var n := |ids| - 1;
    var before := Swept(st, w, ids[..n], now, envs[..n]);
    if i == n {
      SweepLeavesOthers(st, w, ids[..n], now, envs[..n], ids[n]);
      VisitIsLocal(st, before, w, ids[n], now, envs[n]);
    } else {
      EachAssetAlone(st, w, ids[..n], now, envs[..n], i);
      VisitLeavesOthers(st, before, ids[n], now, envs[n], ids[i]);
    }
  }

  // ---------------------------------------------------------------- nothing is forgotten

  /** No read failed, no row failed to parse and every write took effect. */
  predicate ErrorFree(outcomes: seq<Outcome>, envs: seq<Env>) {
    && (forall i :: 0 <= i < |outcomes| ==> outcomes[i] != ReadFailed)
    && (forall i :: 0 <= i < |envs| ==> !envs[i].writeFails)
  }

  /** The asset's announcement is ok with expiry `at`. */
  predicate OkUntil(w: World, id: string, at: int) {
    var r := Read(w.rows, id);
    r.Success? && r.value.Some? && r.value.value.status == "ok" && r.value.value.expiresAt == at
  }

  predicate HeldBack(w: World, id: string, now: int) {
    id in w.entries && w.entries[id].nextAttemptAt > now
  }

  ghost predicate NotForgotten(st: Settings, w: World, id: string, now: int) {
    || (exists at :: OkUntil(w, id, at) && Threshold(st, now) <= at)
    || OkUntil(w, id, Expiry(st, now))
    || HeldBack(w, id, now)
  }

  /** How an asset stands after its visit, by outcome. */
  ghost predicate Settled(st: Settings, w: World, id: string, now: int, o: Outcome) {
    match o
    case ReadFailed => false
    case Fresh => exists at :: OkUntil(w, id, at) && Threshold(st, now) <= at && at != GO_ZERO
    case Answered(OK) => OkUntil(w, id, Expiry(st, now)) && MayAttempt(w.entries, id, now)
    case _ => HeldBack(w, id, now)
  }

  lemma {:induction false} HeldAfterVisit(st: Settings, w: World, id: string, now: Instant, env: Env)
    requires ClockOk(st, now) && Usable(st.backoff) && Safe(st.backoff)
    requires IsHeld(VisitOutcome(st, w, id, now, env))
    ensures HeldBack(Visited(st, w, id, now, env), id, now)
  {
    hide Read, WaitAfter, Upserted, NeedsReannounce, ClassifyError, ClockOk;
    var o := VisitOutcome(st, w, id, now, env);
    if IsAttempted(o) {
      var streak := if id in w.entries then w.entries[id].failCount + 1 else 1;
      WaitIsPositive(st.backoff, RecordedClass(o), streak, env.jitter);
      WaitIsPositive(st.backoff, RecordedClass(o), 0, env.jitter);
    }
  }

  lemma {:induction false} OkAfterVisit(st: Settings, w: World, id: string, now: Instant, env: Env)
    requires ClockOk(st, now) && !env.writeFails
    requires VisitOutcome(st, w, id, now, env) == Answered(OK)
    ensures OkUntil(Visited(st, w, id, now, env), id, Expiry(st, now))
    ensures MayAttempt(Visited(st, w, id, now, env).entries, id, now)
  {
    hide Parse, Stamp, Format, Delay;
    var after := Visited(st, w, id, now, env);
    assert after.rows == Upserted(w.rows, id, now, Expiry(st, now), "ok", now);
    OkRowReadsBack(st, w.rows, id, now);
    assert id !in after.entries;
  }

  lemma {:induction false} OkRowReadsBack(st: Settings, rows: Rows, id: string, now: Instant)
    requires ClockOk(st, now)
    ensures OkUntil(World(Upserted(rows, id, now, Expiry(st, now), "ok", now), map[]), id, Expiry(st, now))
  {
    hide Parse, Stamp, Format;
    ReadAfterUpsert(rows, id, now, Expiry(st, now), "ok", now);
    assert Expiry(st, now) / NS * NS == Expiry(st, now);
  }

  lemma {:induction false} VisitSettles(st: Settings, w: World, id: string, now: Instant, env: Env)
    requires ClockOk(st, now) && Usable(st.backoff) && Safe(st.backoff)
    requires VisitOutcome(st, w, id, now, env) != ReadFailed && !env.writeFails
    ensures Settled(st, Visited(st, w, id, now, env), id, now, VisitOutcome(st, w, id, now, env))
  {
    var o := VisitOutcome(st, w, id, now, env);
    if o == Fresh {
      assert OkUntil(w, id, Read(w.rows, id).value.value.expiresAt);
    } else if o == Answered(OK) {
      OkAfterVisit(st, w, id, now, env);
    } else {
      HeldAfterVisit(st, w, id, now, env);
    }
  }

  lemma {:induction false} SettledIsLocal(st: Settings, v: World, w: World, id: string, now: int, o: Outcome)
    requires SameAt(v, w, id) && Settled(st, v, id, now, o)
    ensures Settled(st, w, id, now, o)
  {
    hide Parse;
    if o == Fresh {
      var at :| OkUntil(v, id, at) && Threshold(st, now) <= at && at != GO_ZERO;
      assert OkUntil(w, id, at);
    }
  }

  /** After an error-free sweep every listed asset is ok with an expiry not before the
      threshold, ok with the expiry of an announcement made now, or held back by a
      backoff entry strictly after now. */
  lemma {:induction false} NoStaleAssetForgotten(st: Settings, w: World, ids: seq<string>, now: Instant,
                                                 envs: seq<Env>, i: int)
    requires ClockOk(st, now) && Usable(st.backoff) && Safe(st.backoff)
    requires |ids| == |envs| && Distinct(ids) && 0 <= i < |ids|
    requires ErrorFree(Outcomes(st, w, ids, now, envs), envs)
    ensures Settled(st, Swept(st, w, ids, now, envs), ids[i], now, Outcomes(st, w, ids, now, envs)[i])
    ensures NotForgotten(st, Swept(st, w, ids, now, envs), ids[i], now)
  {
    EachAssetAlone(st, w, ids, now, envs, i);
    VisitSettles(st, w, ids[i], now, envs[i]);
    SettledIsLocal(st, Visited(st, w, ids[i], now, envs[i]), Swept(st, w, ids, now, envs), ids[i], now,
                   Outcomes(st, w, ids, now, envs)[i]);
  }

  /** Announcements made at `now` are not stale at `now` already. */
  predicate ExpiryOutlastsThreshold(st: Settings, now: int) {
    st.thresholdSeconds * NS + now % NS <= st.expirySeconds * NS
  }

  /** A second sweep at the same instant attempts exactly the assets that the first one
      announced successfully, and those only if their new expiry is already too near. */
  lemma {:induction false} SecondSweepAttempts(st: Settings, w: World, ids: seq<string>, now: Instant, envs: seq<Env>,
                                               again: seq<Env>, i: int)
    requires ClockOk(st, now) && Usable(st.backoff) && Safe(st.backoff)
    requires |ids| == |envs| == |again| && Distinct(ids) && 0 <= i < |ids|
    requires ErrorFree(Outcomes(st, w, ids, now, envs), envs) && !again[i].readFails
    ensures IsAttempted(Outcomes(st, Swept(st, w, ids, now, envs), ids, now, again)[i])
       <==> Outcomes(st, w, ids, now, envs)[i] == Answered(OK) && !ExpiryOutlastsThreshold(st, now)
  {
    var after := Swept(st, w, ids, now, envs);
    NoStaleAssetForgotten(st, w, ids, now, envs, i);
    EachAssetAlone(st, after, ids, now, again, i);
    Revisit(st, after, ids[i], now, Outcomes(st, w, ids, now, envs)[i], again[i]);
  }

  lemma {:induction false} Revisit(st: Settings, w: World, id: string, now: Instant, o: Outcome, env: Env)
    requires ClockOk(st, now) && Settled(st, w, id, now, o) && !env.readFails
    ensures IsAttempted(VisitOutcome(st, w, id, now, env))
       <==> o == Answered(OK) && !ExpiryOutlastsThreshold(st, now)
  {
    hide Read;
    assert Expiry(st, now) == (now / NS + st.expirySeconds) * NS;
  }

  /** Two sweeps at the same instant, the first free of errors and the second of read errors. */
  predicate Repeated(st: Settings, w: World, ids: seq<string>, now: Instant, envs: seq<Env>, again: seq<Env>)
    requires ClockOk(st, now)
  {
    && |ids| == |envs| == |again| && Distinct(ids)
    && ErrorFree(Outcomes(st, w, ids, now, envs), envs) && (forall i :: 0 <= i < |again| ==> !again[i].readFails)
  }

  function SecondSweep(st: Settings, w: World, ids: seq<string>, now: Instant, envs: seq<Env>,
                       again: seq<Env>): seq<Outcome>
    requires ClockOk(st, now) && |ids| == |envs| == |again|
  {
    Outcomes(st, Swept(st, w, ids, now, envs), ids, now, again)
  }

  lemma {:induction false} OutlastingIsQuiet(st: Settings, w: World, ids: seq<string>, now: Instant, envs: seq<Env>,
                                             again: seq<Env>)
    requires ClockOk(st, now) && Usable(st.backoff) && Safe(st.backoff) && Repeated(st, w, ids, now, envs, again)
    requires ExpiryOutlastsThreshold(st, now)
    ensures Tally(SecondSweep(st, w, ids, now, envs, again)).attempted == 0
  {
    var os := SecondSweep(st, w, ids, now, envs, again);
    forall i | 0 <= i < |os|
      ensures !IsAttempted(os[i])
    {
      SecondSweepAttempts(st, w, ids, now, envs, again, i);
    }
    CountNone(os, IsAttempted);
  }

  /** With an expiry at least a second longer than the threshold, it attempts nothing. */
  lemma {:induction false} SecondSweepIsQuiet(st: Settings, w: World, ids: seq<string>, now: Instant, envs: seq<Env>,
                                              again: seq<Env>)
    requires ClockOk(st, now) && Usable(st.backoff) && Safe(st.backoff) && Repeated(st, w, ids, now, envs, again)
    requires st.expirySeconds >= st.thresholdSeconds + 1
    ensures Tally(SecondSweep(st, w, ids, now, envs, again)).attempted == 0
  {
    OutlastingIsQuiet(st, w, ids, now, envs, again);
  }

  /** A new asset that the catalog accepts. */
  lemma {:induction false} FirstAnnouncement(st: Settings, now: Instant, jitter: Jitter)
    requires ClockOk(st, now)
    ensures var w, env := World(map[], map[]), Env(false, false, None, false, jitter);
            && Repeated(st, w, ["asset"], now, [env], [env])
            && Outcomes(st, w, ["asset"], now, [env])[0] == Answered(OK)
  {
    var env := Env(false, false, None, false, jitter);
    assert ["asset"][..0] == [] && [env][..0] == [];
  }

  lemma {:induction false} AnnouncedAgain(st: Settings, now: Instant, jitter: Jitter)
    requires ClockOk(st, now) && Usable(st.backoff) && Safe(st.backoff) && !ExpiryOutlastsThreshold(st, now)
    ensures var w, envs := World(map[], map[]), [Env(false, false, None, false, jitter)];
            && Repeated(st, w, ["asset"], now, envs, envs)
            && Tally(SecondSweep(st, w, ["asset"], now, envs, envs)).attempted == 1
  {
    hide Outcomes, Swept, ClockOk, Usable, Safe, ErrorFree, Distinct;
    var w, envs := World(map[], map[]), [Env(false, false, None, false, jitter)];
    FirstAnnouncement(st, now, jitter);
    SecondSweepAttempts(st, w, ["asset"], now, envs, envs, 0);
    var os := SecondSweep(st, w, ["asset"], now, envs, envs);
    assert os == [os[0]];
    CountOne(os[0], IsAttempted);
  }

  lemma {:induction false} CountOne(o: Outcome, p: Outcome -> bool)
    ensures Count([o], p) == if p(o) then 1 else 0
  {
    assert [o][..0] == [];
  }

  /** Exactly when a second sweep at the same instant is quiet in every world and for every
      answer of the catalog. */
  lemma {:induction false} QuietExactly(st: Settings, now: Instant)
    requires ClockOk(st, now) && Usable(st.backoff) && Safe(st.backoff)
    ensures (forall w, ids, envs, again :: Repeated(st, w, ids, now, envs, again) ==>
               Tally(SecondSweep(st, w, ids, now, envs, again)).attempted == 0)
       <==> ExpiryOutlastsThreshold(st, now)
  {
    hide SecondSweep, Tally, ClockOk, ErrorFree, Outcomes, Distinct;
    if ExpiryOutlastsThreshold(st, now) {
      forall w, ids, envs, again | Repeated(st, w, ids, now, envs, again)
        ensures Tally(SecondSweep(st, w, ids, now, envs, again)).attempted == 0
      {
        OutlastingIsQuiet(st, w, ids, now, envs, again);
      }
    } else {
      AnnouncedAgain(st, now, n => 0);
    }
  }

  // ---------------------------------------------------------------- accounting

  predicate IsOK(o: Outcome) { o == Answered(OK) }
  predicate IsRejected(o: Outcome) { o == Answered(Rejected) }
  predicate IsFailed(o: Outcome) {
    o.ReadFailed? || o.BuildFailed? || (o.Answered? && o.answer != OK && o.answer != Rejected)
  }
  predicate IsDeferred(o: Outcome) { o.Deferred? }
  predicate IsFresh(o: Outcome) { o.Fresh? }
  predicate IsReadFailed(o: Outcome) { o.ReadFailed? }
  predicate IsAttempted(o: Outcome) { o.BuildFailed? || o.Answered? }
  predicate IsHeld(o: Outcome) { o.Deferred? || (IsAttempted(o) && o != Answered(OK)) }

  datatype SweepResult = SweepResult(attempted: nat, ok: nat, rejected: nat, failed: nat, deferred: nat)

  function Tally(os: seq<Outcome>): SweepResult {
    SweepResult(Count(os, IsAttempted), Count(os, IsOK), Count(os, IsRejected), Count(os, IsFailed), Count(os, IsDeferred))
  }

  /** Each counter is the number of listed assets with the outcomes it stands for. */
  lemma {:induction false} TallyCounts(os: seq<Outcome>)
    ensures var r := Tally(os);
            && r.attempted == |set i | 0 <= i < |os| && os[i] !in {ReadFailed, Fresh, Deferred}|
            && r.ok == |set i | 0 <= i < |os| && os[i] == Answered(OK)|
            && r.rejected == |set i | 0 <= i < |os| && os[i] == Answered(Rejected)|
            && r.failed == |set i | 0 <= i < |os| && os[i] !in {Fresh, Deferred, Answered(OK), Answered(Rejected)}|
            && r.deferred == |set i | 0 <= i < |os| && os[i] == Deferred|
  {
    hide Count;
    CountIsCardinality(os, IsAttempted, set i | 0 <= i < |os| && os[i] !in {ReadFailed, Fresh, Deferred});
    CountIsCardinality(os, IsOK, set i | 0 <= i < |os| && os[i] == Answered(OK));
    CountIsCardinality(os, IsRejected, set i | 0 <= i < |os| && os[i] == Answered(Rejected));
    CountIsCardinality(os, IsFailed,
                       set i | 0 <= i < |os| && os[i] !in {Fresh, Deferred, Answered(OK), Answered(Rejected)});
    CountIsCardinality(os, IsDeferred, set i | 0 <= i < |os| && os[i] == Deferred);
  }

  lemma {:induction false} CountNone(os: seq<Outcome>, p: Outcome -> bool)
    requires forall i :: 0 <= i < |os| ==> !p(os[i])
    ensures Count(os, p) == 0
  {
    if os != [] {
      CountNone(os[..|os| - 1], p);
    }
  }

  /** Every listed asset is in exactly one column, and the attempts are the answers and
      failures that were not failures to read a row. */
  lemma {:induction false} Accounting(os: seq<Outcome>)
    ensures var r := Tally(os);
            && r.ok + r.rejected + r.failed + r.deferred + Count(os, IsFresh) == |os|
            && r.attempted == r.ok + r.rejected + r.failed - Count(os, IsReadFailed)
            && Count(os, IsHeld) == r.deferred + r.attempted - r.ok
  {
    if os != [] {
      Accounting(os[..|os| - 1]);
    }
  }

  function HeldIds(ids: seq<string>, os: seq<Outcome>): (held: set<string>)
    requires |ids| == |os|
    ensures forall a :: a in held ==> exists i :: 0 <= i < |ids| && ids[i] == a && IsHeld(os[i])
  {
    if ids == [] then {}
    else
      var n := |ids| - 1;
      HeldIds(ids[..n], os[..n]) + (if IsHeld(os[n]) then {ids[n]} else {})
  }

  lemma {:induction false} HeldIdsCount(ids: seq<string>, os: seq<Outcome>)
    requires |ids| == |os| && Distinct(ids)
    ensures |HeldIds(ids, os)| == Count(os, IsHeld)
  {
    if ids != [] {
      var n := |ids| - 1;
      HeldIdsCount(ids[..n], os[..n]);
      assert ids[n] !in HeldIds(ids[..n], os[..n]);
    }
  }

  lemma {:induction false} SubsetIsSmaller(a: set<string>, b: set<string>)
    requires a <= b
    ensures |a| <= |b|
  {
    assert b == a + (b - a);
  }

  /** At the sweep's own instant the backoff then defers at least the assets that were
      deferred or attempted without success. */
  lemma {:induction false} DeferredAfterSweep(st: Settings, w: World, ids: seq<string>, now: Instant, envs: seq<Env>)
    requires ClockOk(st, now) && Usable(st.backoff) && Safe(st.backoff)
    requires |ids| == |envs| && Distinct(ids)
    ensures var after, r := Swept(st, w, ids, now, envs), Tally(Outcomes(st, w, ids, now, envs));
            |set a | a in after.entries && after.entries[a].nextAttemptAt > now| >= r.deferred + r.attempted - r.ok
  {
    var after, os := Swept(st, w, ids, now, envs), Outcomes(st, w, ids, now, envs);
    var deferred := set a | a in after.entries && after.entries[a].nextAttemptAt > now;
    Accounting(os);
    HeldIdsCount(ids, os);
    forall a | a in HeldIds(ids, os)
      ensures a in deferred
    {
      var i :| 0 <= i < |ids| && ids[i] == a && IsHeld(os[i]);
      EachAssetAlone(st, w, ids, now, envs, i);
      HeldAfterVisit(st, w, a, now, envs[i]);
    }
    SubsetIsSmaller(HeldIds(ids, os), deferred);
  }

  // ---------------------------------------------------------------- the job

  /** RunAnnounceSweep. A missing announcer gives an empty result and a failed listing an
      error, both without any change. */
  method RunAnnounceSweep(st: Settings, repo: AnnouncementsRepo, backoff: BackoffState, hasAnnouncer: bool,
                          listing: Result<seq<string>, string>, now: Instant, envs: seq<Env>)
    returns (result: Result<SweepResult, string>)
    requires backoff.Valid() && backoff.cfg == st.backoff && ClockOk(st, now)
    requires listing.Success? ==> |envs| == |listing.value|
    modifies repo, backoff
    ensures backoff.Valid()
    ensures !hasAnnouncer ==> result == Success(SweepResult(0, 0, 0, 0, 0))
    ensures hasAnnouncer && listing.Failure? ==> result == Failure(listing.error)
    ensures !hasAnnouncer || listing.Failure? ==> repo.rows == old(repo.rows) && backoff.entries == old(backoff.entries)
    ensures hasAnnouncer && listing.Success? ==>
              var w := World(old(repo.rows), old(backoff.entries));
              && World(repo.rows, backoff.entries) == Swept(st, w, listing.value, now, envs)
              && result == Success(Tally(Outcomes(st, w, listing.value, now, envs)))
  {
    if !hasAnnouncer {
      return Success(SweepResult(0, 0, 0, 0, 0));
    }
    if listing.Failure? {
      return Failure(listing.error);
    }
    var tally := SweepAll(st, repo, backoff, listing.value, now, envs);
    return Success(tally);
  }

  /** The loop over the listed assets. */
  method SweepAll(st: Settings, repo: AnnouncementsRepo, backoff: BackoffState, ids: seq<string>, now: Instant,
                  envs: seq<Env>)
    returns (tally: SweepResult)
    requires backoff.Valid() && backoff.cfg == st.backoff && ClockOk(st, now) && |envs| == |ids|
    modifies repo, backoff
    ensures backoff.Valid()
    ensures var w := World(old(repo.rows), old(backoff.entries));
            && World(repo.rows, backoff.entries) == Swept(st, w, ids, now, envs)
            && tally == Tally(Outcomes(st, w, ids, now, envs))
  {
    hide Visited, VisitOutcome, Swept, Outcomes, Tally;
    tally := SweepResult(0, 0, 0, 0, 0);
    SweepNone(st, World(repo.rows, backoff.entries), now);
    ghost var w := World(repo.rows, backoff.entries);
    for i := 0 to |ids|
      invariant backoff.Valid()
      invariant World(repo.rows, backoff.entries) == Swept(st, w, ids[..i], now, envs[..i])
      invariant tally == Tally(Outcomes(st, w, ids[..i], now, envs[..i]))
    {
      SweepStep(st, w, ids, now, envs, i);
      var o := VisitAsset(st, repo, backoff, ids[i], now, envs[i]);
      if IsAttempted(o) {
        tally := tally.(attempted := tally.attempted + 1);
      }
      if IsOK(o) {
        tally := tally.(ok := tally.ok + 1);
      } else if IsRejected(o) {
        tally := tally.(rejected := tally.rejected + 1);
      } else if IsFailed(o) {
        tally := tally.(failed := tally.failed + 1);
      } else if IsDeferred(o) {
        tally := tally.(deferred := tally.deferred + 1);
      }
    }
    assert ids[..|ids|] == ids && envs[..|ids|] == envs;
  }

  function Counted(r: SweepResult, o: Outcome): SweepResult {
    SweepResult(r.attempted + (if IsAttempted(o) then 1 else 0), r.ok + (if IsOK(o) then 1 else 0),
                r.rejected + (if IsRejected(o) then 1 else 0), r.failed + (if IsFailed(o) then 1 else 0),
                r.deferred + (if IsDeferred(o) then 1 else 0))
  }

  lemma SweepNone(st: Settings, w: World, now: Instant)
    requires ClockOk(st, now)
    ensures Swept(st, w, [], now, []) == w
    ensures Tally(Outcomes(st, w, [], now, [])) == SweepResult(0, 0, 0, 0, 0)
  {
  }

  lemma {:induction false} SweepStep(st: Settings, w: World, ids: seq<string>, now: Instant, envs: seq<Env>, i: int)
    requires ClockOk(st, now) && |ids| == |envs| && 0 <= i < |ids|
    ensures var before := Swept(st, w, ids[..i], now, envs[..i]);
            && Swept(st, w, ids[..i + 1], now, envs[..i + 1]) == Visited(st, before, ids[i], now, envs[i])
            && Tally(Outcomes(st, w, ids[..i + 1], now, envs[..i + 1]))
               == Counted(Tally(Outcomes(st, w, ids[..i], now, envs[..i])), VisitOutcome(st, before, ids[i], now, envs[i]))
  {
    hide Visited, VisitOutcome;
    assert ids[..i + 1][..i] == ids[..i] && envs[..i + 1][..i] == envs[..i];
    var os, os' := Outcomes(st, w, ids[..i], now, envs[..i]), Outcomes(st, w, ids[..i + 1], now, envs[..i + 1]);
    assert os'[..|os'| - 1] == os;
  }

  /** The loop body for one asset. */
  method VisitAsset(st: Settings, repo: AnnouncementsRepo, backoff: BackoffState, id: string, now: Instant, env: Env)
    returns (o: Outcome)
    requires backoff.Valid() && backoff.cfg == st.backoff && ClockOk(st, now)
    modifies repo, backoff
    ensures backoff.Valid()
    ensures o == VisitOutcome(st, World(old(repo.rows), old(backoff.entries)), id, now, env)
    ensures World(repo.rows, backoff.entries) == Visited(st, World(old(repo.rows), old(backoff.entries)), id, now, env)
  {
    hide Read, Recorded, Upserted, NeedsReannounce;
    var row := Read(repo.rows, id);
    if env.readFails || row.Failure? {
      return ReadFailed;
    }
    if !NeedsReannounce(row.value, Threshold(st, now)) {
      return Fresh;
    }
    var can := backoff.CanAttempt(id, now);
    if !can {
      return Deferred;
    }
    if env.buildFails {
      backoff.Record(id, Permanent, now, env.jitter);
      var _ := repo.UpsertAnnouncementStatus(id, GO_ZERO, GO_ZERO, "failed", now, env.writeFails);
      return BuildFailed;
    }
    var answer := ClassifyError(env.reply);
    var expiresAt := Expiry(st, now);
    match answer {
      case OK =>
        var _ := repo.UpsertAnnouncementStatus(id, now, expiresAt, "ok", now, env.writeFails);
      case Rejected =>
        var _ := repo.UpsertAnnouncementStatus(id, now, expiresAt, "rejected", now, env.writeFails);
      case Unauthorized =>
        var _ := repo.UpsertAnnouncementStatus(id, now, expiresAt, "failed", now, env.writeFails);
      case _ =>
        var _ := repo.UpsertAnnouncementStatus(id, now, expiresAt, "failed", now, env.writeFails);
    }
    backoff.Record(id, answer, now, env.jitter);
    return Answered(answer);
  }
}
