/** The internal announce request: it announces one asset, or all active ones, at
    once, without asking the backoff, and writes the same rows as the sweep. */
module AnnounceHandler {
  import opened Wrappers
  import opened Timestamps
  import opened Announcements
  import opened Backoff
  import opened AnnounceSweep
  import opened Scheduler
  import SignedText

  datatype Summary = Summary(attempted: nat, ok: nat, rejected: nat, failed: nat)

  /** What befalls one asset of the request. */
  datatype Fate = Fate(built: bool, reply: Reply, writeFails: bool)

  function Handled(st: Settings, rows: Rows, ids: seq<string>, now: Instant, fates: seq<Fate>): Rows
    requires ClockOk(st, now) && |ids| == |fates|
  {
    if ids == [] then rows
    else
      var n := |ids| - 1;
      var before := Handled(st, rows, ids[..n], now, fates[..n]);
      if fates[n].writeFails then before else HandlerRows(st, before, ids[n], now, fates[n].built, fates[n].reply)
  }

  lemma {:induction false} HandledLeavesOthers(st: Settings, rows: Rows, ids: seq<string>, now: Instant,
                                               fates: seq<Fate>, other: string)
    requires ClockOk(st, now) && |ids| == |fates| && other !in ids
    ensures var after := Handled(st, rows, ids, now, fates);
            (other in after <==> other in rows) && (other in after ==> after[other] == rows[other])
  {
    hide HandlerRows, ClockOk;
    if ids != [] {
      var n := |ids| - 1;
      HandledLeavesOthers(st, rows, ids[..n], now, fates[..n], other);
      HandlerWrites(st, Handled(st, rows, ids[..n], now, fates[..n]), ids[n], now, fates[n].built, fates[n].reply);
    }
  }

  /** Of distinct assets each gets the row that its own fate calls for, as from a sweep, or keeps
      its row when the write failed. */
  lemma {:induction false} HandledEach(st: Settings, rows: Rows, ids: seq<string>, now: Instant, fates: seq<Fate>, i: int)
    requires ClockOk(st, now) && |ids| == |fates| && Distinct(ids) && 0 <= i < |ids|
    ensures var after, id := Handled(st, rows, ids, now, fates), ids[i];
            if fates[i].writeFails then (id in after <==> id in rows) && (id in after ==> after[id] == rows[id])
            else
              && id in after
              && RowAfter(st, World(rows, map[]), now,
                          if fates[i].built then Answered(ClassifyError(fates[i].reply)) else BuildFailed, id, after[id])
  {
    hide HandlerRows, ClockOk, RowAfter;
    var n := |ids| - 1;
    var before := Handled(st, rows, ids[..n], now, fates[..n]);
    HandlerWrites(st, before, ids[n], now, fates[n].built, fates[n].reply);
    if i < n {
      HandledEach(st, rows, ids[..n], now, fates[..n], i);
    } else {
      HandledLeavesOthers(st, rows, ids[..n], now, fates[..n], ids[n]);
      RowAfterIsLocal(st, before, rows, now, ids[n]);
    }
  }

  lemma {:induction false} RowAfterIsLocal(st: Settings, v: Rows, w: Rows, now: Instant, id: string)
    requires ClockOk(st, now) && (id in v <==> id in w) && (id in v ==> v[id] == w[id])
    ensures forall o, row ::
              RowAfter(st, World(v, map[]), now, o, id, row) <==> RowAfter(st, World(w, map[]), now, o, id, row)
  {
    hide Stamp;
  }

  /** The steps of the scheduler that a request amounts to when nothing comes between. */
  function HandlerSteps(ids: seq<string>, now: int, fates: seq<Fate>): seq<Step>
    requires |ids| == |fates|
  {
    if ids == [] then []
    else
      var n := |ids| - 1;
      HandlerSteps(ids[..n], now, fates[..n])
      + (if fates[n].writeFails then [] else [HandlerWrite(ids[n], now, fates[n].built, fates[n].reply)])
  }

  /** A request is a run of handler writes, so all that holds of every run holds of it;
      the sweep, the backoff map and the attempt log are not touched. */
  lemma {:induction false} RequestIsARun(st: Settings, s: State, ids: seq<string>, now: Instant, fates: seq<Fate>)
    requires PcClockOk(st, s.pc) && ClockOk(st, now) && |ids| == |fates|
    ensures Possible(st, s, HandlerSteps(ids, now, fates))
    ensures Reached(st, s, HandlerSteps(ids, now, fates)) == s.(rows := Handled(st, s.rows, ids, now, fates))
  {
    hide Possible, Reached, ClockOk, HandlerRows;
    if ids == [] {
      Nothing(st, s);
    } else {
      var n := |ids| - 1;
      var before := HandlerSteps(ids[..n], now, fates[..n]);
      RequestIsARun(st, s, ids[..n], now, fates[..n]);
      if fates[n].writeFails {
        assert before + [] == before;
      } else {
        OneMore(st, s, before, HandlerWrite(ids[n], now, fates[n].built, fates[n].reply));
      }
    }
  }

  /** The expiry that an announcement signs is the one its row stores, and its base URL is
      the public one without trailing slashes, then the asset's path. */
  lemma {:induction false} SignedExpiryIsStored(st: Settings, publicBaseUrl: string, transport: string, providerId: string,
                                                assetId: string, now: int, nonce: seq<Text.Byte>)
    requires !SignedText.Blank(publicBaseUrl) && !SignedText.Blank(assetId)
    ensures var built := SignedText.BuildAnnouncement(publicBaseUrl, transport, st.expirySeconds, providerId, assetId,
                                                      now, Some(nonce));
            && built.Some? && FromUnix(built.value.expiresAt) == Expiry(st, now)
            && exists t: string, n: nat ::
                 && built.value.baseUrl == t + "/assets/" + assetId
                 && publicBaseUrl == t + Slashes(n) && (t == "" || t[|t| - 1] != '/')
  {
    var t := SignedText.TrimRight(publicBaseUrl, '/');
    var n := |publicBaseUrl| - |t|;
    SlashesAre(n, publicBaseUrl[|t|..]);
    assert publicBaseUrl == t + Slashes(n);
  }

  function Slashes(n: nat): string {
    if n == 0 then "" else ['/'] + Slashes(n - 1)
  }

  lemma {:induction false} SlashesAre(n: nat, s: string)
    requires |s| == n && forall i :: 0 <= i < n ==> s[i] == '/'
    ensures s == Slashes(n)
  {
    if n > 0 {
      SlashesAre(n - 1, s[1..]);
    }
  }

  predicate Accepted(f: Fate) {
    f.built && ClassifyError(f.reply) == OK
  }

  predicate TurnedDown(f: Fate) {
    f.built && ClassifyError(f.reply) == Rejected
  }

  datatype Refusal = MethodNotAllowed | BlankBaseUrl | NoCatalog | InvalidJson | ListingFailed

  /** The assets to announce: the one that the body names, else the active ones. */
  function Targets(named: string, listing: Option<seq<string>>): Option<seq<string>> {
    if !SignedText.Blank(named) then Some([SignedText.TrimSpace(named)]) else listing
  }

  /** NewAnnounceHandler. `body` is the asset id in the decoded body, empty when there is none,
      and nothing when the body does not decode; `listing` are the active assets. */
  method Announce(st: Settings, repo: AnnouncementsRepo, verb: string, publicBaseUrl: string, hasCatalog: bool,
                  body: Option<string>, listing: Option<seq<string>>, now: Instant, fates: seq<Fate>)
    returns (r: Result<Summary, Refusal>)
    requires ClockOk(st, now)
    requires body.Some? && Targets(body.value, listing).Some? ==> |fates| == |Targets(body.value, listing).value|
    modifies repo
    ensures r == Failure(MethodNotAllowed) <==> verb != "POST"
    ensures r == Failure(BlankBaseUrl) <==> verb == "POST" && SignedText.Blank(publicBaseUrl)
    ensures var ready := verb == "POST" && !SignedText.Blank(publicBaseUrl);
            && (r == Failure(NoCatalog) <==> ready && !hasCatalog)
            && (r == Failure(InvalidJson) <==> ready && hasCatalog && body.None?)
            && (r == Failure(ListingFailed)
                <==> ready && hasCatalog && body.Some? && SignedText.Blank(body.value) && listing.None?)
    ensures r.Failure? ==> repo.rows == old(repo.rows)
    ensures r.Success? ==>
              var ids := if SignedText.Blank(body.value) then listing.value else [SignedText.TrimSpace(body.value)];
              && repo.rows == Handled(st, old(repo.rows), ids, now, fates)
              && r.value.attempted == |ids| && r.value.ok == Count(fates, Accepted)
              && r.value.rejected == Count(fates, TurnedDown)
              && r.value.ok + r.value.rejected + r.value.failed == r.value.attempted
  {
    hide ClockOk, Handled, SignedText.Blank;
    if verb != "POST" {
      return Failure(MethodNotAllowed);
    }
    if SignedText.Blank(publicBaseUrl) {
      return Failure(BlankBaseUrl);
    }
    if !hasCatalog {
      return Failure(NoCatalog);
    }
    if body.None? {
      return Failure(InvalidJson);
    }
    var ids;
    if !SignedText.Blank(body.value) {
      ids := [SignedText.TrimSpace(body.value)];
    } else if listing.None? {
      return Failure(ListingFailed);
    } else {
      ids := listing.value;
    }
    var summary := AnnounceEach(st, repo, ids, now, fates);
    return Success(summary);
  }

  method AnnounceEach(st: Settings, repo: AnnouncementsRepo, ids: seq<string>, now: Instant, fates: seq<Fate>)
    returns (summary: Summary)
    requires ClockOk(st, now) && |ids| == |fates|
    modifies repo
    ensures repo.rows == Handled(st, old(repo.rows), ids, now, fates)
    ensures summary.attempted == |ids| && summary.ok == Count(fates, Accepted)
    ensures summary.rejected == Count(fates, TurnedDown)
    ensures summary.ok + summary.rejected + summary.failed == summary.attempted
  {
    hide Upserted, Expiry;
    summary := Summary(|ids|, 0, 0, 0);
    for i := 0 to |ids|
      invariant repo.rows == Handled(st, old(repo.rows), ids[..i], now, fates[..i])
      invariant summary.attempted == |ids|
      invariant summary.ok == Count(fates[..i], Accepted) && summary.rejected == Count(fates[..i], TurnedDown)
      invariant summary.ok + summary.rejected + summary.failed == i
    {
      assert ids[..i + 1][..i] == ids[..i] && fates[..i + 1][..i] == fates[..i];
      var f := fates[i];
      if !f.built {
        summary := summary.(failed := summary.failed + 1);
        var _ := repo.UpsertAnnouncementStatus(ids[i], GO_ZERO, GO_ZERO, "failed", now, f.writeFails);
      } else if f.reply.None? {
        summary := summary.(ok := summary.ok + 1);
        var _ := repo.UpsertAnnouncementStatus(ids[i], now, Expiry(st, now), "ok", now, f.writeFails);
      } else if ErrNotFound in f.reply.value {
        summary := summary.(rejected := summary.rejected + 1);
        var _ := repo.UpsertAnnouncementStatus(ids[i], now, Expiry(st, now), "rejected", now, f.writeFails);
      } else {
        summary := summary.(failed := summary.failed + 1);
        var _ := repo.UpsertAnnouncementStatus(ids[i], now, Expiry(st, now), "failed", now, f.writeFails);
      }
    }
    assert ids[..|ids|] == ids && fates[..|ids|] == fates;
  }
}
