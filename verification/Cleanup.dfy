/** The cleanup job: rows whose announcement ran out more than a grace period ago
    become 'expired'. It runs beside the sweep, which must not notice. */
module Cleanup {
  import opened Wrappers
  import opened Text
  import opened Timestamps
  import opened Announcements
  import opened AnnounceSweep
  import opened Scheduler

  /** The second before which rows have lapsed for a cleanup at `now`. */
  function Cutoff(graceSeconds: int, now: int): int {
    ToUnix(now - graceSeconds * NS) + UNIX_EPOCH
  }

  predicate CutoffOk(graceSeconds: int, now: int) {
    0 <= Cutoff(graceSeconds, now) < SECONDS_TO_YEAR_10000
  }

  method RunCleanupJob(repo: AnnouncementsRepo, graceSeconds: int, now: int, stamp: string, fails: bool)
    returns (affected: Option<nat>)
    requires CutoffOk(graceSeconds, now)
    modifies repo
    ensures fails ==> affected == None && repo.rows == old(repo.rows)
    ensures !fails ==>
              && repo.rows == MarkedExpired(old(repo.rows), Cutoff(graceSeconds, now), stamp)
              && affected == Some(|set id | id in repo.rows && repo.rows[id].status != old(repo.rows)[id].status|)
  {
    hide MarkedExpired;
    var cutoff := ToUnix(now - graceSeconds * NS);
    affected := repo.MarkExpiredBefore(cutoff, stamp, fails);
  }

  /** What a sweep with this threshold makes of an asset's row: an error, or whether it
      needs a new announcement. */
  function Judgement(rows: Rows, id: string, threshold: int): Option<bool> {
    match Read(rows, id)
    case Failure(_) => None
    case Success(row) => Some(NeedsReannounce(row, threshold))
  }

  /** Exactly when a sweep at `ts` cannot tell that a cleanup ran at `tc`: all that lapsed was
      already due. The sweep keeps the instant of its start, so `tc` may be the later one. */
  predicate Invisible(graceSeconds: int, thresholdSeconds: int, tc: int, ts: int) {
    (Cutoff(graceSeconds, tc) - 1) * NS < ts + thresholdSeconds * NS
  }

  /** The plain condition: a sweep that is not the earlier one, and seconds of grace and
      threshold that are not negative together. */
  lemma {:induction false} PlainlyInvisible(graceSeconds: int, thresholdSeconds: int, tc: int, ts: int)
    requires graceSeconds + thresholdSeconds >= 0 && tc <= ts
    ensures Invisible(graceSeconds, thresholdSeconds, tc, ts)
  {
    CutoffValue(graceSeconds, tc);
  }

  /** A row that lapsed was due already. */
  lemma {:induction false} LapsedRowIsStale(row: Row, cutoff: Second, threshold: int)
    requires Lapsed(row, cutoff) && TimeOf(row.expires).Some? && (cutoff - 1) * NS < threshold
    ensures TimeOf(row.expires).value < threshold
  {
    hide Format, Parse;
    var s := Parse(row.expires).value;
    RoundTrip(s, row.expires);
    TextOrderIsTimeOrder(s, cutoff);
  }

  /** For any table, an invisible cleanup changes nothing that the sweep sees. */
  lemma {:induction false} CleanupIsInvisible(rows: Rows, id: string, graceSeconds: int, thresholdSeconds: int,
                                              tc: int, ts: int, stamp: string)
    requires CutoffOk(graceSeconds, tc) && Invisible(graceSeconds, thresholdSeconds, tc, ts)
    ensures Judgement(MarkedExpired(rows, Cutoff(graceSeconds, tc), stamp), id, ts + thresholdSeconds * NS)
         == Judgement(rows, id, ts + thresholdSeconds * NS)
  {
    hide Less, Format, Parse;
    var cutoff := Cutoff(graceSeconds, tc);
    var marked := MarkedExpired(rows, cutoff, stamp);
    if id in rows && Lapsed(rows[id], cutoff) && TimeOf(rows[id].expires).Some? {
      LapsedRowIsStale(rows[id], cutoff, ts + thresholdSeconds * NS);
    }
  }

  lemma CutoffValue(graceSeconds: int, now: int)
    ensures Cutoff(graceSeconds, now) == now / 1_000_000_000 - graceSeconds
  {
  }

  /** What a cleanup does to a row, by its columns: a row whose expiry is a time more than the
      grace period ago becomes expired, with a new update time; no other column and no other
      such row changes. */
  lemma {:induction false} CleanupOnRow(rows: Rows, id: string, graceSeconds: int, tc: int, stamp: string)
    requires CutoffOk(graceSeconds, tc) && id in rows && Parse(rows[id].expires).Some?
    ensures var row, after := rows[id], MarkedExpired(rows, Cutoff(graceSeconds, tc), stamp)[id];
            after == if row.status != "expired" && Parse(row.expires).value < tc / 1_000_000_000 - graceSeconds
                     then Row(row.lastAnnounced, row.expires, "expired", row.createdAt, stamp)
                     else row
  {
    hide Parse, Format, Less;
    CutoffValue(graceSeconds, tc);
    LapsedByTime(rows[id], Cutoff(graceSeconds, tc));
  }

  /** Rows without an expiry stay. */
  lemma CleanupSkipsTimeless(rows: Rows, id: string, cutoff: Second, stamp: string)
    requires id in rows && rows[id].expires == ""
    ensures MarkedExpired(rows, cutoff, stamp)[id] == rows[id]
  {
  }

  /** A cleanup job is a run of one step: the table changes as the job changes it, and nothing
      else does. */
  lemma {:induction false} CleanupIsARun(st: Settings, s: State, graceSeconds: int, tc: int, stamp: string)
    requires PcClockOk(st, s.pc) && CutoffOk(graceSeconds, tc)
    ensures var steps := [CleanUp(Cutoff(graceSeconds, tc), stamp)];
            && Possible(st, s, steps)
            && Reached(st, s, steps) == s.(rows := MarkedExpired(s.rows, Cutoff(graceSeconds, tc), stamp))
  {
    hide ClockOk, Possible, Reached, MarkedExpired, Cutoff;
    var step := CleanUp(Cutoff(graceSeconds, tc), stamp);
    StepsInARow(st, s, [step], [s, Next(st, s, step)]);
  }

  /** The instant of the announcement that runs out one second before the cutoff. */
  function LastLapsed(st: Settings, graceSeconds: int, tc: int): int {
    (Cutoff(graceSeconds, tc) - 1 - st.expirySeconds) * NS
  }

  /** Otherwise a row that an announcement wrote was fresh before the cleanup and is stale
      after it. */
  lemma {:induction false} CleanupIsVisible(st: Settings, graceSeconds: int, tc: int, ts: int, id: string, stamp: string)
    returns (rows: Rows)
    requires CutoffOk(graceSeconds, tc) && ClockOk(st, LastLapsed(st, graceSeconds, tc))
    requires !Invisible(graceSeconds, st.thresholdSeconds, tc, ts)
    ensures var at := LastLapsed(st, graceSeconds, tc);
            rows == Announcements.Upserted(map[], id, at, Expiry(st, at), "ok", at)
    ensures RowsOk(st, rows)
    ensures Judgement(rows, id, Threshold(st, ts)) == Some(false)
    ensures Judgement(MarkedExpired(rows, Cutoff(graceSeconds, tc), stamp), id, Threshold(st, ts)) == Some(true)
  {
    hide Format, Parse, Less, Stamp, RowOk;
    var cutoff, at := Cutoff(graceSeconds, tc), LastLapsed(st, graceSeconds, tc);
    rows := Announcements.Upserted(map[], id, at, Expiry(st, at), "ok", at);
    WriteKeepsRowsOk(st, map[], id, at, "ok");
    LastExpiry(st, graceSeconds, tc);
    ReadAfterUpsert(map[], id, at, Expiry(st, at), "ok", at);
    ColumnParses(Expiry(st, at));
    LapsedByTime(rows[id], cutoff);
  }

  lemma LastExpiry(st: Settings, graceSeconds: int, tc: int)
    ensures Expiry(st, LastLapsed(st, graceSeconds, tc)) == (Cutoff(graceSeconds, tc) - 1) * NS
  {
  }

  /** The sweep's judgement of every asset is the same before and after the cleanup. */
  ghost predicate Unnoticed(st: Settings, rows: Rows, cutoff: Second, stamp: string, ts: int) {
    forall id ::
      Judgement(MarkedExpired(rows, cutoff, stamp), id, Threshold(st, ts)) == Judgement(rows, id, Threshold(st, ts))
  }

  /** Both together, for the tables that the jobs can leave. */
  lemma {:induction false} CleanupGoesUnnoticed(st: Settings, graceSeconds: int, tc: int, ts: int, stamp: string)
    requires CutoffOk(graceSeconds, tc) && ClockOk(st, LastLapsed(st, graceSeconds, tc))
    ensures (forall rows :: RowsOk(st, rows) ==> Unnoticed(st, rows, Cutoff(graceSeconds, tc), stamp, ts))
       <==> Invisible(graceSeconds, st.thresholdSeconds, tc, ts)
  {
    hide Judgement, MarkedExpired, RowsOk, Cutoff, ClockOk, Invisible, Announcements.Upserted;
    if Invisible(graceSeconds, st.thresholdSeconds, tc, ts) {
      forall rows: Rows, id: string
        ensures Judgement(MarkedExpired(rows, Cutoff(graceSeconds, tc), stamp), id, Threshold(st, ts))
             == Judgement(rows, id, Threshold(st, ts))
      {
        CleanupIsInvisible(rows, id, graceSeconds, st.thresholdSeconds, tc, ts, stamp);
      }
    } else {
      var rows := CleanupIsVisible(st, graceSeconds, tc, ts, "asset", stamp);
      assert !Unnoticed(st, rows, Cutoff(graceSeconds, tc), stamp, ts);
    }
  }

  /** A whole sweep over the cleaned table visits every asset with the same outcome. */
  lemma {:induction false} SweepIgnoresCleanup(st: Settings, w: World, ids: seq<string>, graceSeconds: int, tc: int,
                                               ts: Instant, envs: seq<Env>, stamp: string, i: int)
    requires ClockOk(st, ts) && |ids| == |envs| && Distinct(ids) && 0 <= i < |ids|
    requires CutoffOk(graceSeconds, tc) && Invisible(graceSeconds, st.thresholdSeconds, tc, ts)
    ensures var cleaned := World(MarkedExpired(w.rows, Cutoff(graceSeconds, tc), stamp), w.entries);
            Outcomes(st, cleaned, ids, ts, envs)[i] == Outcomes(st, w, ids, ts, envs)[i]
  {
    hide Swept, Outcomes, Visited, Read, MarkedExpired;
    var cleaned := World(MarkedExpired(w.rows, Cutoff(graceSeconds, tc), stamp), w.entries);
    CleanupIsInvisible(w.rows, ids[i], graceSeconds, st.thresholdSeconds, tc, ts, stamp);
    EachAssetAlone(st, w, ids, ts, envs, i);
    EachAssetAlone(st, cleaned, ids, ts, envs, i);
  }

  // ---------------------------------------------------------------- cleanups within runs

  /** The same row, or one that ran out before the cutoff and is marked on the cleaned side. */
  predicate RowAlike(row: Row, cleaned: Row, cutoff: Second) {
    || cleaned == row
    || (&& cleaned == row.(status := "expired", updatedAt := cleaned.updatedAt)
        && row.expires != "" && Less(row.expires, Format(cutoff)))
  }

  predicate RowsAlike(rows: Rows, cleaned: Rows, cutoff: Second) {
    cleaned.Keys == rows.Keys && forall id :: id in rows ==> RowAlike(rows[id], cleaned[id], cutoff)
  }

  /** Everything but the rows is the same. */
  ghost predicate SameBesideRows(s: State, r: State) {
    r.entries == s.entries && r.assets == s.assets && r.pc == s.pc && r.log == s.log
  }

  ghost predicate Alike(s: State, cleaned: State, cutoff: Second) {
    SameBesideRows(s, cleaned) && RowsAlike(s.rows, cleaned.rows, cutoff)
  }

  /** Rows before the cutoff are already due for a sweep that started at `now`. */
  predicate BlindAt(st: Settings, cutoff: Second, now: int) {
    (cutoff - 1) * NS < Threshold(st, now)
  }

  /** The sweep in flight, if any, cannot tell. */
  predicate Blind(st: Settings, cutoff: Second, pc: Pc) {
    match pc
    case Idle => true
    case Walking(now, _) => BlindAt(st, cutoff, now)
    case Judged(now, _, _) => BlindAt(st, cutoff, now)
    case SavingAnswer(e, _) => BlindAt(st, cutoff, e.now)
    case NotingAnswer(e, _) => BlindAt(st, cutoff, e.now)
    case NotingBuildFailure(e, _) => BlindAt(st, cutoff, e.now)
    case SavingBuildFailure(e, _) => BlindAt(st, cutoff, e.now)
  }

  /** Nor can any sweep that starts. */
  predicate StartsBlind(st: Settings, cutoff: Second, steps: seq<Step>) {
    forall k :: 0 <= k < |steps| && steps[k].StartSweep? ==> BlindAt(st, cutoff, steps[k].now)
  }

  /** Rows that are alike are judged alike. */
  lemma {:induction false} AlikeIsJudgedAlike(rows: Rows, cleaned: Rows, cutoff: Second, id: string, threshold: int)
    requires RowsAlike(rows, cleaned, cutoff) && (cutoff - 1) * NS < threshold
    ensures Judgement(cleaned, id, threshold) == Judgement(rows, id, threshold)
  {
    hide Less, Format, Parse;
    if id in rows && cleaned[id] != rows[id] && TimeOf(rows[id].expires).Some? {
      var lapsed := rows[id].(status := "ok");
      LapsedRowIsStale(lapsed, cutoff, threshold);
    }
  }

  lemma {:induction false} WritesStayAlike(rows: Rows, cleaned: Rows, cutoff: Second, id: string, last: Instant,
                                           expires: Instant, status: string, now: Instant)
    requires RowsAlike(rows, cleaned, cutoff)
    ensures RowsAlike(Announcements.Upserted(rows, id, last, expires, status, now),
                      Announcements.Upserted(cleaned, id, last, expires, status, now), cutoff)
  {
    hide Less, Format, Stamp, Column;
  }

  lemma {:induction false} CleanUpsStayAlike(rows: Rows, cleaned: Rows, cutoff: Second, later: Second, stamp: string)
    requires RowsAlike(rows, cleaned, cutoff)
    ensures RowsAlike(MarkedExpired(rows, later, stamp), MarkedExpired(cleaned, later, stamp), cutoff)
  {
    hide Less, Format;
  }

  lemma {:induction false} CleanUpIsAlike(rows: Rows, cutoff: Second, stamp: string)
    ensures RowsAlike(rows, MarkedExpired(rows, cutoff, stamp), cutoff)
  {
    hide Less, Format;
  }

  lemma {:induction false} NextStaysAlike(st: Settings, s: State, r: State, step: Step, cutoff: Second)
    requires PcClockOk(st, s.pc) && Alike(s, r, cutoff) && Blind(st, cutoff, s.pc) && Enabled(st, s, step)
    requires step.StartSweep? ==> BlindAt(st, cutoff, step.now)
    ensures Enabled(st, r, step)
    ensures Alike(Next(st, s, step), Next(st, r, step), cutoff) && Blind(st, cutoff, Next(st, s, step).pc)
  {
    hide Announcements.Upserted, MarkedExpired, Read, NeedsReannounce, Noted, Backoff.MayAttempt, Lists,
         Backoff.ClassifyError, RowsAlike, AssetIndex.Upserted, AssetIndex.MarkedMissing, Expiry;
    match step
    case ReadRow(_) => ReadsAlike(st, s.rows, r.rows, cutoff, s.pc.todo[0], s.pc.now);
    case SaveAnswer(_) =>
      var e := s.pc.attempt;
      WritesStayAlike(s.rows, r.rows, cutoff, e.asset, e.now, Expiry(st, e.now), StatusText(e.outcome), e.now);
    case SaveBuildFailure(_) =>
      WritesStayAlike(s.rows, r.rows, cutoff, s.pc.attempt.asset, GO_ZERO, GO_ZERO, "failed", s.pc.attempt.now);
    case HandlerWrite(id, at, built, answer) =>
      WritesStayAlike(s.rows, r.rows, cutoff, id, at, Expiry(st, at), HandlerStatus(answer), at);
      WritesStayAlike(s.rows, r.rows, cutoff, id, GO_ZERO, GO_ZERO, "failed", at);
    case CleanUp(later, stamp) => CleanUpsStayAlike(s.rows, r.rows, cutoff, later, stamp);
    case _ =>
  }

  lemma {:induction false} ReadsAlike(st: Settings, rows: Rows, cleaned: Rows, cutoff: Second, id: string, now: int)
    requires RowsAlike(rows, cleaned, cutoff) && BlindAt(st, cutoff, now)
    ensures Read(cleaned, id).Failure? <==> Read(rows, id).Failure?
    ensures Read(rows, id).Success? ==>
              (NeedsReannounce(Read(cleaned, id).value, Threshold(st, now))
               <==> NeedsReannounce(Read(rows, id).value, Threshold(st, now)))
  {
    hide Read, NeedsReannounce, RowsAlike;
    AlikeIsJudgedAlike(rows, cleaned, cutoff, id, Threshold(st, now));
  }

  /** Runs from states that are alike stay alike. */
  lemma {:induction false} RunsStayAlike(st: Settings, s: State, r: State, steps: seq<Step>, cutoff: Second)
    requires Alike(s, r, cutoff) && Blind(st, cutoff, s.pc) && StartsBlind(st, cutoff, steps)
    requires Possible(st, s, steps)
    ensures Possible(st, r, steps)
    ensures Alike(Reached(st, s, steps), Reached(st, r, steps), cutoff)
    ensures Blind(st, cutoff, Reached(st, s, steps).pc)
  {
    hide Next, Enabled, ClockOk, Reached, RowsAlike, BlindAt;
    if steps == [] {
      Nothing(st, s);
      Nothing(st, r);
    } else {
      var n := |steps| - 1;
      LastStep(st, s, steps);
      RunsStayAlike(st, s, r, steps[..n], cutoff);
      NextStaysAlike(st, Reached(st, s, steps[..n]), Reached(st, r, steps[..n]), steps[n], cutoff);
      OneMore(st, r, steps[..n], steps[n]);
      assert steps == steps[..n] + [steps[n]];
    }
  }

  /** A cleanup anywhere in any run, which neither the sweep in flight nor a later one can tell:
      the same run goes through without it, and ends with the same attempts, backoff entries
      and assets and the sweep at the same place. */
  lemma {:induction false} CleanupChangesNoRun(st: Settings, s: State, before: seq<Step>, after: seq<Step>,
                                               cutoff: Second, stamp: string)
    requires Possible(st, s, before + after) && Possible(st, s, before)
    requires Blind(st, cutoff, Reached(st, s, before).pc) && StartsBlind(st, cutoff, after)
    ensures Possible(st, s, before + [CleanUp(cutoff, stamp)] + after)
    ensures SameBesideRows(Reached(st, s, before + after), Reached(st, s, before + [CleanUp(cutoff, stamp)] + after))
  {
    hide ClockOk, Possible, Reached, RowsAlike, Blind, StartsBlind, PcClockOk;
    var mid := Reached(st, s, before);
    RunsDivide(st, s, before, after);
    OneMore(st, s, before, CleanUp(cutoff, stamp));
    CleanUpIsAlike(mid.rows, cutoff, stamp);
    var cleaned := Next(st, mid, CleanUp(cutoff, stamp));
    RunsStayAlike(st, mid, cleaned, after, cutoff);
    RunsCompose(st, s, before + [CleanUp(cutoff, stamp)], after);
  }
}
