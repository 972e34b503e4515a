/** The jobs beside each other: one announce sweep at a time, any number of rescans,
    cleanups and internal announce requests, interleaved at single statements. Every
    outcome of the environment is part of the step that meets it. */
module Scheduler {
  import opened Wrappers
  import opened Text
  import opened Timestamps
  import opened Announcements
  import opened Backoff
  import opened AnnounceSweep
  import AssetIndex

  /** Where the sweep goroutine stands. */
  datatype Pc =
    | Idle
    | Walking(now: Instant, todo: seq<string>)
    | Judged(now: Instant, id: string, todo: seq<string>)
    | SavingAnswer(attempt: Event, todo: seq<string>)
    | NotingAnswer(attempt: Event, todo: seq<string>)
    | NotingBuildFailure(attempt: Event, todo: seq<string>)
    | SavingBuildFailure(attempt: Event, todo: seq<string>)

  /** `log` is the history of sweep attempts, in order. */
  datatype State = State(rows: Rows, entries: Entries, assets: AssetIndex.Table, pc: Pc, log: seq<Event>)

  datatype Step =
    | StartSweep(now: int, ids: seq<string>)
    | EndSweep
    | ReadRow(readFails: bool)
    | Gate(buildFails: bool, reply: Reply, jitter: Jitter)
    | SaveAnswer(answerFails: bool)
    | NoteAnswer
    | NoteBuildFailure
    | SaveBuildFailure(failureFails: bool)
    | HandlerWrite(id: string, at: int, built: bool, answer: Reply)
    | CleanUp(cutoff: Second, stamp: string)
    | RescanUpsert(upserted: AssetIndex.Scan)
    | RescanMark(marked: AssetIndex.Scan)

  predicate Lists(ids: seq<string>, assets: AssetIndex.Table) {
    Distinct(ids) && (set id | id in ids) == AssetIndex.Active(assets)
  }

  predicate Enabled(st: Settings, s: State, step: Step) {
    match step
    case StartSweep(now, ids) => s.pc.Idle? && ClockOk(st, now) && Lists(ids, s.assets)
    case EndSweep => s.pc.Walking? && s.pc.todo == []
    case ReadRow(_) => s.pc.Walking? && s.pc.todo != []
    case Gate(_, _, _) => s.pc.Judged?
    case SaveAnswer(_) => s.pc.SavingAnswer?
    case NoteAnswer => s.pc.NotingAnswer?
    case NoteBuildFailure => s.pc.NotingBuildFailure?
    case SaveBuildFailure(_) => s.pc.SavingBuildFailure?
    case HandlerWrite(_, at, _, _) => ClockOk(st, at)
    case CleanUp(_, _) => true
    case RescanUpsert(_) => true
    case RescanMark(_) => true
  }

  /** The status that the internal announce handler stores. */
  function HandlerStatus(answer: Reply): string {
    if answer.None? then "ok" else if ErrNotFound in answer.value then "rejected" else "failed"
  }

  /** Sweep and handler store the same status for the same answer. */
  lemma WritersAgree(answer: Reply)
    ensures HandlerStatus(answer) == StatusText(ClassifyError(answer))
  {
  }

  function HandlerRows(st: Settings, rows: Rows, id: string, at: Instant, built: bool, answer: Reply): Rows
    requires ClockOk(st, at)
  {
    if built then Announcements.Upserted(rows, id, at, Expiry(st, at), HandlerStatus(answer), at)
    else Announcements.Upserted(rows, id, GO_ZERO, GO_ZERO, "failed", at)
  }

  /** The handler writes the row that a sweep would leave for the same outcome, and no other. */
  lemma {:induction false} HandlerWrites(st: Settings, rows: Rows, id: string, at: Instant, built: bool, answer: Reply)
    requires ClockOk(st, at)
    ensures var after, o := HandlerRows(st, rows, id, at, built, answer),
                            if built then Answered(ClassifyError(answer)) else BuildFailed;
            && id in after && RowAfter(st, World(rows, map[]), at, o, id, after[id])
            && forall other :: other != id ==>
                 (other in after <==> other in rows) && (other in after ==> after[other] == rows[other])
  {
    hide Stamp;
  }

  predicate PcClockOk(st: Settings, pc: Pc) {
    match pc
    case Idle => true
    case Walking(now, _) => ClockOk(st, now)
    case Judged(now, _, _) => ClockOk(st, now)
    case SavingAnswer(e, _) => ClockOk(st, e.now)
    case NotingAnswer(e, _) => ClockOk(st, e.now)
    case NotingBuildFailure(e, _) => ClockOk(st, e.now)
    case SavingBuildFailure(e, _) => ClockOk(st, e.now)
  }

  function Noted(st: Settings, entries: Entries, e: Event): Entries {
    Recorded(st.backoff, entries, e.asset, e.outcome, e.now, e.jitter)
  }

  function Next(st: Settings, s: State, step: Step): State
    requires PcClockOk(st, s.pc) && Enabled(st, s, step)
  {
    match step
    case StartSweep(now, ids) => s.(pc := Walking(now, ids))
    case EndSweep => s.(pc := Idle)
    case ReadRow(fails) =>
      var id, rest := s.pc.todo[0], s.pc.todo[1..];
      if fails || Read(s.rows, id).Failure? || !NeedsReannounce(Read(s.rows, id).value, Threshold(st, s.pc.now))
      then s.(pc := Walking(s.pc.now, rest))
      else s.(pc := Judged(s.pc.now, id, rest))
    case Gate(buildFails, reply, jitter) =>
      if !MayAttempt(s.entries, s.pc.id, s.pc.now) then s.(pc := Walking(s.pc.now, s.pc.todo))
      else
        var e := Event(s.pc.id, if buildFails then Permanent else ClassifyError(reply), s.pc.now, jitter);
        s.(log := s.log + [e],
           pc := if buildFails then NotingBuildFailure(e, s.pc.todo) else SavingAnswer(e, s.pc.todo))
    case SaveAnswer(fails) =>
      var e := s.pc.attempt;
      s.(rows := if fails then s.rows
                 else Announcements.Upserted(s.rows, e.asset, e.now, Expiry(st, e.now), StatusText(e.outcome), e.now),
         pc := NotingAnswer(e, s.pc.todo))
    case NoteAnswer =>
      s.(entries := Noted(st, s.entries, s.pc.attempt), pc := Walking(s.pc.attempt.now, s.pc.todo))
    case NoteBuildFailure =>
      s.(entries := Noted(st, s.entries, s.pc.attempt), pc := SavingBuildFailure(s.pc.attempt, s.pc.todo))
    case SaveBuildFailure(fails) =>
      var e := s.pc.attempt;
      s.(rows := if fails then s.rows else Announcements.Upserted(s.rows, e.asset, GO_ZERO, GO_ZERO, "failed", e.now),
         pc := Walking(e.now, s.pc.todo))
    case HandlerWrite(id, at, built, answer) => s.(rows := HandlerRows(st, s.rows, id, at, built, answer))
    case CleanUp(cutoff, stamp) => s.(rows := MarkedExpired(s.rows, cutoff, stamp))
    case RescanUpsert(scan) => s.(assets := AssetIndex.Upserted(s.assets, scan.records, scan.now))
    case RescanMark(scan) => s.(assets := AssetIndex.MarkedMissing(s.assets, AssetIndex.Seen(scan), scan.now))
  }

  lemma {:induction false} NextPcClockOk(st: Settings, s: State, step: Step)
    requires PcClockOk(st, s.pc) && Enabled(st, s, step)
    ensures PcClockOk(st, Next(st, s, step).pc)
  {
    hide ClockOk, Read, NeedsReannounce, MayAttempt, Noted, Announcements.Upserted, MarkedExpired, HandlerRows,
         ClassifyError, Lists;
  }

  // ---------------------------------------------------------------- runs

  /** The steps can be taken one after the other from `s`. */
  predicate Possible(st: Settings, s: State, steps: seq<Step>)
    decreases |steps|, 0
  {
    && PcClockOk(st, s.pc)
    && (steps != [] ==>
          && Possible(st, s, steps[..|steps| - 1])
          && Enabled(st, Reached(st, s, steps[..|steps| - 1]), steps[|steps| - 1]))
  }

  function Reached(st: Settings, s: State, steps: seq<Step>): (r: State)
    requires Possible(st, s, steps)
    ensures PcClockOk(st, r.pc)
    decreases |steps|, 1
  {
    if steps == [] then s
    else
      var before := Reached(st, s, steps[..|steps| - 1]);
      NextPcClockOk(st, before, steps[|steps| - 1]);
      Next(st, before, steps[|steps| - 1])
  }

  // ---------------------------------------------------------------- announcement rows

  predicate RowOk(st: Settings, row: Row) {
    && row.status in {"ok", "rejected", "failed", "expired"}
    && (row.status == "ok" ==>
          && Parse(row.lastAnnounced).Some? && Parse(row.expires).Some?
          && Parse(row.expires).value - Parse(row.lastAnnounced).value == st.expirySeconds)
    && (row.status == "expired" ==> row.expires != "")
  }

  predicate RowsOk(st: Settings, rows: Rows) {
    forall id :: id in rows ==> RowOk(st, rows[id])
  }

  /** A row written for an answer spans exactly the configured expiry. */
  lemma {:induction false} AnswerRowOk(st: Settings, now: Instant, status: string, created: string, updated: string)
    requires ClockOk(st, now) && status in {"ok", "rejected", "failed"}
    ensures RowOk(st, Row(Column(now), Column(Expiry(st, now)), status, created, updated))
  {
    hide Parse, Format, Expiry;
    ExpiryInSeconds(st, now);
    ColumnParses(now);
    ColumnParses(Expiry(st, now));
  }

  lemma ExpiryInSeconds(st: Settings, now: int)
    ensures Expiry(st, now) / NS - now / NS == st.expirySeconds
  {
  }

  lemma {:induction false} ColumnParses(t: Instant)
    requires t != GO_ZERO
    ensures Parse(Column(t)) == Some(t / NS)
  {
    hide Parse, Format;
    RoundTrip(t / NS, Stamp(t));
  }

  lemma {:induction false} WriteKeepsRowsOk(st: Settings, rows: Rows, id: string, now: Instant, status: string)
    requires RowsOk(st, rows) && ClockOk(st, now) && status in {"ok", "rejected", "failed"}
    ensures RowsOk(st, Announcements.Upserted(rows, id, now, Expiry(st, now), status, now))
  {
    hide RowOk, Column, Stamp;
    AnswerRowOk(st, now, status, if id in rows then rows[id].createdAt else Stamp(now), Stamp(now));
  }

  lemma {:induction false} FailureKeepsRowsOk(st: Settings, rows: Rows, id: string, now: Instant)
    requires RowsOk(st, rows)
    ensures RowsOk(st, Announcements.Upserted(rows, id, GO_ZERO, GO_ZERO, "failed", now))
  {
    hide Parse, Stamp;
  }

  lemma {:induction false} CleanUpKeepsRowsOk(st: Settings, rows: Rows, cutoff: Second, stamp: string)
    requires RowsOk(st, rows)
    ensures RowsOk(st, MarkedExpired(rows, cutoff, stamp))
  {
    hide Parse, Less, Format;
  }

  lemma {:induction false} NextKeepsRowsOk(st: Settings, s: State, step: Step)
    requires PcClockOk(st, s.pc) && Enabled(st, s, step) && RowsOk(st, s.rows)
    ensures RowsOk(st, Next(st, s, step).rows)
  {
    hide RowsOk, Announcements.Upserted, MarkedExpired, Read, Noted;
    match step
    case SaveAnswer(_) =>
      WriteKeepsRowsOk(st, s.rows, s.pc.attempt.asset, s.pc.attempt.now, StatusText(s.pc.attempt.outcome));
    case SaveBuildFailure(_) => FailureKeepsRowsOk(st, s.rows, s.pc.attempt.asset, s.pc.attempt.now);
    case HandlerWrite(id, at, built, answer) =>
      WriteKeepsRowsOk(st, s.rows, id, at, HandlerStatus(answer));
      FailureKeepsRowsOk(st, s.rows, id, at);
    case CleanUp(cutoff, stamp) => CleanUpKeepsRowsOk(st, s.rows, cutoff, stamp);
    case _ =>
  }

  /** In every interleaving of sweep, handler and cleanup writes the rows stay sound: one
      of four statuses, ok rows spanning exactly the expiry, expired rows with an expiry. */
  lemma {:induction false} RowsUnderInterference(st: Settings, s: State, steps: seq<Step>)
    requires Possible(st, s, steps) && RowsOk(st, s.rows)
    ensures RowsOk(st, Reached(st, s, steps).rows)
  {
    hide RowsOk, Next, Enabled, ClockOk;
    if steps != [] {
      RowsUnderInterference(st, s, steps[..|steps| - 1]);
      NextKeepsRowsOk(st, Reached(st, s, steps[..|steps| - 1]), steps[|steps| - 1]);
    }
  }

  predicate SameCreation(before: Rows, after: Rows, id: string) {
    id in before ==> id in after && after[id].createdAt == before[id].createdAt
  }

  lemma {:induction false} NextKeepsCreation(st: Settings, s: State, step: Step, id: string)
    requires PcClockOk(st, s.pc) && Enabled(st, s, step)
    ensures SameCreation(s.rows, Next(st, s, step).rows, id)
  {
    hide Stamp, Less, Read, Noted, Format;
  }

  /** A row is never removed and its creation time never changes, whoever writes it. */
  lemma {:induction false} CreationNeverChanges(st: Settings, s: State, steps: seq<Step>, id: string)
    requires Possible(st, s, steps)
    ensures SameCreation(s.rows, Reached(st, s, steps).rows, id)
  {
    hide Next, Enabled, ClockOk;
    if steps != [] {
      CreationNeverChanges(st, s, steps[..|steps| - 1], id);
      NextKeepsCreation(st, Reached(st, s, steps[..|steps| - 1]), steps[|steps| - 1], id);
    }
  }

  // ---------------------------------------------------------------- pacing

  /** The attempt that the sweep has made but not yet put into the backoff map. */
  predicate Pending(pc: Pc) {
    pc.SavingAnswer? || pc.NotingAnswer? || pc.NotingBuildFailure?
  }

  /** The backoff map is the history of the attempts, and every attempt was allowed. */
  ghost predicate Disciplined(st: Settings, s: State) {
    && Guarded(st.backoff, s.log)
    && (!Pending(s.pc) ==> s.entries == EntriesAfter(st.backoff, s.log))
    && (Pending(s.pc) ==>
          && s.log != [] && s.log[|s.log| - 1] == s.pc.attempt
          && s.entries == EntriesAfter(st.backoff, s.log[..|s.log| - 1]))
  }

  lemma {:induction false} GuardedAppend(c: Config, log: seq<Event>, e: Event)
    requires Guarded(c, log) && MayAttempt(EntriesAfter(c, log), e.asset, e.now)
    ensures Guarded(c, log + [e])
  {
    hide EntriesAfter;
    var longer := log + [e];
    forall j | 0 <= j < |longer|
      ensures MayAttempt(EntriesAfter(c, longer[..j]), longer[j].asset, longer[j].now)
    {
      assert longer[..j] == log[..j];
      assert log[..|log|] == log;
    }
  }

  lemma NotingCompletes(st: Settings, s: State)
    requires Disciplined(st, s) && Pending(s.pc)
    ensures Noted(st, s.entries, s.pc.attempt) == EntriesAfter(st.backoff, s.log)
  {
  }

  /** Steps that neither make nor record an attempt. */
  predicate Quiet(s: State, step: Step) {
    && !step.NoteAnswer? && !step.NoteBuildFailure?
    && (step.Gate? && s.pc.Judged? ==> !MayAttempt(s.entries, s.pc.id, s.pc.now))
  }

  lemma {:induction false} QuietStep(st: Settings, s: State, step: Step)
    requires PcClockOk(st, s.pc) && Enabled(st, s, step) && Quiet(s, step)
    ensures var r := Next(st, s, step);
            && r.entries == s.entries && r.log == s.log
            && (Pending(r.pc) <==> Pending(s.pc)) && (Pending(r.pc) ==> r.pc.attempt == s.pc.attempt)
  {
    hide Read, NeedsReannounce, Announcements.Upserted, MarkedExpired, HandlerRows, Noted, ClassifyError,
         MayAttempt, Lists, ClockOk;
  }

  lemma {:induction false} GateKeepsDiscipline(st: Settings, s: State, step: Step)
    requires PcClockOk(st, s.pc) && step.Gate? && s.pc.Judged? && Disciplined(st, s)
    requires MayAttempt(s.entries, s.pc.id, s.pc.now)
    ensures Disciplined(st, Next(st, s, step))
  {
    hide EntriesAfter, Guarded, ClassifyError, MayAttempt, ClockOk;
    var r := Next(st, s, step);
    var e := r.log[|r.log| - 1];
    GuardedAppend(st.backoff, s.log, e);
    assert (s.log + [e])[..|s.log|] == s.log;
  }

  lemma {:induction false} NextKeepsDiscipline(st: Settings, s: State, step: Step)
    requires PcClockOk(st, s.pc) && Enabled(st, s, step) && Disciplined(st, s)
    ensures Disciplined(st, Next(st, s, step))
  {
    hide EntriesAfter, Guarded, Noted, MayAttempt, ClockOk;
    if Quiet(s, step) {
      hide Next, Enabled, ClockOk;
      QuietStep(st, s, step);
    } else if step.Gate? {
      hide Next;
      GateKeepsDiscipline(st, s, step);
    } else {
      NotingCompletes(st, s);
    }
  }

  lemma {:induction false} RunsAreDisciplined(st: Settings, s: State, steps: seq<Step>)
    requires Possible(st, s, steps) && Disciplined(st, s)
    ensures Disciplined(st, Reached(st, s, steps))
  {
    hide Disciplined, Next, Enabled, ClockOk;
    if steps != [] {
      RunsAreDisciplined(st, s, steps[..|steps| - 1]);
      NextKeepsDiscipline(st, Reached(st, s, steps[..|steps| - 1]), steps[|steps| - 1]);
    }
  }

  /** A process that has just started: an empty backoff map and no attempts. */
  predicate Started(s: State) {
    s.pc.Idle? && s.entries == map[] && s.log == []
  }

  /** Within one process, whatever the catalog answers, the clock reads and the other jobs
      do, two consecutive sweep attempts on an asset, the first without success, are at
      least the first outcome's gap apart. */
  lemma {:induction false} PacingOverRuns(st: Settings, s: State, steps: seq<Step>, i: int, j: int)
    requires Usable(st.backoff) && Safe(st.backoff) && Started(s) && Possible(st, s, steps)
    requires var log := Reached(st, s, steps).log;
             && 0 <= i < j < |log| && log[i].asset == log[j].asset && log[i].outcome != OK
             && forall k :: i < k < j ==> log[k].asset != log[i].asset
    ensures var log := Reached(st, s, steps).log;
            var streak := FailStreak(Own(log[..i + 1], log[i].asset));
            && (log[i].outcome == Transient ==> streak >= 1)
            && log[j].now - log[i].now >= LeastGap(st.backoff, log[i].outcome, streak)
  {
    RunsAreDisciplined(st, s, steps);
    GuardedIsPaced(st.backoff, Reached(st, s, steps).log, i, j);
  }

  // ---------------------------------------------------------------- the sweep alone

  /** The environment's choices as the steps of one visit without interference. */
  function VisitSteps(st: Settings, w: World, id: string, now: int, env: Env): seq<Step> {
    match VisitOutcome(st, w, id, now, env)
    case ReadFailed => [ReadRow(env.readFails)]
    case Fresh => [ReadRow(false)]
    case Deferred => [ReadRow(false), Gate(env.buildFails, env.reply, env.jitter)]
    case BuildFailed =>
      [ReadRow(false), Gate(env.buildFails, env.reply, env.jitter), NoteBuildFailure, SaveBuildFailure(env.writeFails)]
    case Answered(_) =>
      [ReadRow(false), Gate(env.buildFails, env.reply, env.jitter), SaveAnswer(env.writeFails), NoteAnswer]
  }

  lemma {:induction false} OneMore(st: Settings, s: State, steps: seq<Step>, step: Step)
    requires Possible(st, s, steps) && Enabled(st, Reached(st, s, steps), step)
    ensures Possible(st, s, steps + [step])
    ensures Reached(st, s, steps + [step]) == Next(st, Reached(st, s, steps), step)
  {
    hide Next, Enabled, ClockOk;
    assert (steps + [step])[..|steps|] == steps;
  }

  predicate CanDo(st: Settings, s: State, step: Step) {
    PcClockOk(st, s.pc) && Enabled(st, s, step)
  }

  lemma {:induction false} StepsInARow(st: Settings, s: State, steps: seq<Step>, states: seq<State>)
    requires |states| == |steps| + 1 && states[0] == s && PcClockOk(st, s.pc)
    requires forall k :: 0 <= k < |steps| ==>
               CanDo(st, states[k], steps[k]) && states[k + 1] == Next(st, states[k], steps[k])
    ensures Possible(st, s, steps) && Reached(st, s, steps) == states[|steps|]
  {
    hide Next, Enabled, ClockOk;
    if steps != [] {
      var n := |steps| - 1;
      StepsInARow(st, s, steps[..n], states[..n + 1]);
      OneMore(st, s, steps[..n], steps[n]);
      assert steps == steps[..n] + [steps[n]];
    }
  }

  /** The sweep has moved past the asset and left the given world. */
  predicate Past(st: Settings, s: State, w: World, r: State) {
    && World(r.rows, r.entries) == w
    && s.pc.Walking? && s.pc.todo != [] && r.pc == Walking(s.pc.now, s.pc.todo[1..])
  }

  lemma {:induction false} UndisturbedSkip(st: Settings, s: State, env: Env)
    requires s.pc.Walking? && s.pc.todo != [] && PcClockOk(st, s.pc)
    requires !IsAttempted(VisitOutcome(st, World(s.rows, s.entries), s.pc.todo[0], s.pc.now, env))
    ensures var steps := VisitSteps(st, World(s.rows, s.entries), s.pc.todo[0], s.pc.now, env);
            Possible(st, s, steps) && Past(st, s, World(s.rows, s.entries), Reached(st, s, steps))
  {
    hide Read, NeedsReannounce, ClassifyError, Reached, Possible, ClockOk;
    var steps := VisitSteps(st, World(s.rows, s.entries), s.pc.todo[0], s.pc.now, env);
    var s1 := Next(st, s, steps[0]);
    if |steps| == 1 {
      StepsInARow(st, s, steps, [s, s1]);
    } else {
      StepsInARow(st, s, steps, [s, s1, Next(st, s1, steps[1])]);
    }
  }

  lemma {:induction false} UndisturbedAttempt(st: Settings, s: State, env: Env)
    requires s.pc.Walking? && s.pc.todo != [] && PcClockOk(st, s.pc)
    requires IsAttempted(VisitOutcome(st, World(s.rows, s.entries), s.pc.todo[0], s.pc.now, env))
    ensures var w := World(s.rows, s.entries);
            var steps := VisitSteps(st, w, s.pc.todo[0], s.pc.now, env);
            && Possible(st, s, steps)
            && Past(st, s, Visited(st, w, s.pc.todo[0], s.pc.now, env), Reached(st, s, steps))
  {
    hide Read, Recorded, Announcements.Upserted, NeedsReannounce, ClassifyError, Reached, Possible, ClockOk;
    var steps := VisitSteps(st, World(s.rows, s.entries), s.pc.todo[0], s.pc.now, env);
    var s1 := Next(st, s, steps[0]);
    assert s1 == s.(pc := Judged(s.pc.now, s.pc.todo[0], s.pc.todo[1..]));
    var s2 := Next(st, s1, steps[1]);
    var s3 := Next(st, s2, steps[2]);
    var s4 := Next(st, s3, steps[3]);
    StepsInARow(st, s, steps, [s, s1, s2, s3, s4]);
  }

  /** Left alone, the interleaved visit of an asset does what the sequential sweep does. */
  lemma {:induction false} UndisturbedVisit(st: Settings, s: State, env: Env)
    requires s.pc.Walking? && s.pc.todo != [] && PcClockOk(st, s.pc)
    ensures var w := World(s.rows, s.entries);
            var steps := VisitSteps(st, w, s.pc.todo[0], s.pc.now, env);
            && Possible(st, s, steps)
            && Past(st, s, Visited(st, w, s.pc.todo[0], s.pc.now, env), Reached(st, s, steps))
  {
    hide Reached, Possible, VisitOutcome, VisitSteps;
    if IsAttempted(VisitOutcome(st, World(s.rows, s.entries), s.pc.todo[0], s.pc.now, env)) {
      UndisturbedAttempt(st, s, env);
    } else {
      UndisturbedSkip(st, s, env);
    }
  }

  lemma Nothing(st: Settings, s: State)
    requires PcClockOk(st, s.pc)
    ensures Possible(st, s, []) && Reached(st, s, []) == s
  {
  }

  lemma {:induction false} LastStep(st: Settings, s: State, steps: seq<Step>)
    requires Possible(st, s, steps) && steps != []
    ensures var n := |steps| - 1;
            && Possible(st, s, steps[..n])
            && Enabled(st, Reached(st, s, steps[..n]), steps[n])
            && Reached(st, s, steps) == Next(st, Reached(st, s, steps[..n]), steps[n])
  {
    hide Next, Enabled, ClockOk;
  }

  lemma {:induction false} RunsCompose(st: Settings, s: State, first: seq<Step>, second: seq<Step>)
    requires Possible(st, s, first) && Possible(st, Reached(st, s, first), second)
    ensures Possible(st, s, first + second)
    ensures Reached(st, s, first + second) == Reached(st, Reached(st, s, first), second)
  {
    hide Next, Enabled, ClockOk, PcClockOk, Possible, Reached;
    if second == [] {
      assert first + second == first;
      Nothing(st, Reached(st, s, first));
    } else {
      var n := |second| - 1;
      LastStep(st, Reached(st, s, first), second);
      RunsCompose(st, s, first, second[..n]);
      OneMore(st, s, first + second[..n], second[n]);
      assert first + second == (first + second[..n]) + [second[n]];
    }
  }

  /** And the other way round: a run can be taken in two. */
  lemma {:induction false} RunsDivide(st: Settings, s: State, first: seq<Step>, second: seq<Step>)
    requires Possible(st, s, first + second)
    ensures Possible(st, s, first) && Possible(st, Reached(st, s, first), second)
    ensures Reached(st, s, first + second) == Reached(st, Reached(st, s, first), second)
  {
    hide Next, Enabled, ClockOk, PcClockOk, Possible, Reached;
    if second == [] {
      assert first + second == first;
      Nothing(st, Reached(st, s, first));
    } else {
      var n := |second| - 1;
      assert (first + second)[..|first| + n] == first + second[..n] && (first + second)[|first| + n] == second[n];
      LastStep(st, s, first + second);
      RunsDivide(st, s, first, second[..n]);
      OneMore(st, Reached(st, s, first), second[..n], second[n]);
      assert second == second[..n] + [second[n]];
    }
  }

  /** A rescan is a run of two steps, and one that stops after its upsert a run of the first:
      the assets change as the job changes them, and nothing else does. */
  lemma {:induction false} RescanIsARun(st: Settings, s: State, scan: AssetIndex.Scan)
    requires PcClockOk(st, s.pc)
    ensures Possible(st, s, [RescanUpsert(scan), RescanMark(scan)]) && Possible(st, s, [RescanUpsert(scan)])
    ensures Reached(st, s, [RescanUpsert(scan), RescanMark(scan)])
         == s.(assets := AssetIndex.Rescanned(s.assets, scan))
    ensures Reached(st, s, [RescanUpsert(scan)])
         == s.(assets := AssetIndex.Upserted(s.assets, scan.records, scan.now))
  {
    hide ClockOk, Possible, Reached, AssetIndex.Upserted, AssetIndex.MarkedMissing, AssetIndex.Seen;
    var first := Next(st, s, RescanUpsert(scan));
    StepsInARow(st, s, [RescanUpsert(scan)], [s, first]);
    StepsInARow(st, s, [RescanUpsert(scan), RescanMark(scan)], [s, first, Next(st, first, RescanMark(scan))]);
  }

  lemma {:induction false} SweptFromTheFront(st: Settings, w: World, ids: seq<string>, now: Instant, envs: seq<Env>)
    requires ClockOk(st, now) && |ids| == |envs| && ids != []
    ensures Swept(st, w, ids, now, envs) == Swept(st, Visited(st, w, ids[0], now, envs[0]), ids[1..], now, envs[1..])
  {
    hide Visited, ClockOk;
    var n := |ids| - 1;
    if n > 0 {
      SweptFromTheFront(st, w, ids[..n], now, envs[..n]);
      assert ids[..n][1..] == ids[1..][..n - 1] && envs[..n][1..] == envs[1..][..n - 1];
    }
  }

  /** A sweep that nothing disturbs, step by step, ends in the world of the sequential
      sweep over the assets still to visit. */
  lemma {:induction false} UndisturbedSweep(st: Settings, s: State, envs: seq<Env>) returns (steps: seq<Step>)
    requires s.pc.Walking? && PcClockOk(st, s.pc) && |envs| == |s.pc.todo|
    ensures Possible(st, s, steps)
    ensures var r := Reached(st, s, steps);
            && World(r.rows, r.entries) == Swept(st, World(s.rows, s.entries), s.pc.todo, s.pc.now, envs)
            && r.pc == Walking(s.pc.now, [])
    decreases |envs|
  {
    hide Visited, VisitSteps, Next, Enabled, ClockOk;
    if envs == [] {
      steps := [];
      assert s.pc == Walking(s.pc.now, []);
    } else {
      var first := VisitSteps(st, World(s.rows, s.entries), s.pc.todo[0], s.pc.now, envs[0]);
      UndisturbedVisit(st, s, envs[0]);
      var mid := Reached(st, s, first);
      var second := UndisturbedSweep(st, mid, envs[1..]);
      RunsCompose(st, s, first, second);
      SweptFromTheFront(st, World(s.rows, s.entries), s.pc.todo, s.pc.now, envs);
      steps := first + second;
    }
  }
}
