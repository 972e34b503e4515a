/** The assets table: rescans upsert what they saw and mark the rest missing. The
    table is never shortened, so it also records the history of every absence. A
    time column is text; here it is the second it spells, which determines it. */
module AssetIndex {
  import opened Wrappers
  import opened Timestamps

  datatype AssetRecord = AssetRecord(assetId: string, playlist: string, hash: string,
                                     fileCount: int, totalSize: int, lastScannedAt: Instant)

  datatype AssetRow = AssetRow(status: string, playlist: string, hash: string, fileCount: int, totalSize: int,
                               lastScanned: Second, createdAt: Second, updatedAt: Second, missingAt: Option<Second>)

  type Table = map<string, AssetRow>

  /** The schema's CHECK on the status column. */
  predicate WellFormed(t: Table) {
    forall id :: id in t ==> t[id].status == "active" || t[id].status == "missing"
  }

  function Active(t: Table): set<string> {
    set id | id in t && t[id].status == "active"
  }

  // ---------------------------------------------------------------- statements

  /** The second that an instant's stored text spells. */
  function ToSecond(t: Instant): Second {
    t / NS
  }

  function FreshRow(r: AssetRecord, created: Second, now: Instant): AssetRow {
    AssetRow("active", r.playlist, r.hash, r.fileCount, r.totalSize, ToSecond(r.lastScannedAt),
             created, ToSecond(now), None)
  }

  function UpsertedOne(t: Table, r: AssetRecord, now: Instant): Table {
    t[r.assetId := FreshRow(r, if r.assetId in t then t[r.assetId].createdAt else ToSecond(now), now)]
  }

  /** The whole upsert transaction. */
  function Upserted(t: Table, records: seq<AssetRecord>, now: Instant): Table {
    if records == [] then t
    else UpsertedOne(Upserted(t, records[..|records| - 1], now), records[|records| - 1], now)
  }

  function MissingRow(row: AssetRow, now: Instant): AssetRow {
    row.(status := "missing", missingAt := Some(ToSecond(now)), updatedAt := ToSecond(now))
  }

  /** UPDATE ... WHERE status != 'missing' AND asset_id NOT IN (seen). */
  function MarkedMissing(t: Table, seen: set<string>, now: Instant): (r: Table)
    ensures r.Keys == t.Keys
  {
    map id | id in t :: if t[id].status != "missing" && id !in seen then MissingRow(t[id], now) else t[id]
  }

  /** UPDATE ... WHERE status != 'missing', the statement for an empty list. */
  function MarkedAllMissing(t: Table, now: Instant): (r: Table)
    ensures r.Keys == t.Keys
  {
    map id | id in t :: if t[id].status != "missing" then MissingRow(t[id], now) else t[id]
  }

  /** The statement for an empty list does what the general one would. */
  lemma EmptyListMarksAll(t: Table, now: Instant)
    ensures MarkedAllMissing(t, now) == MarkedMissing(t, {}, now)
  {
  }

  function Ids(records: seq<AssetRecord>): set<string> {
    set r | r in records :: r.assetId
  }

  lemma {:induction false} IdsAppend(records: seq<AssetRecord>)
    requires records != []
    ensures Ids(records) == Ids(records[..|records| - 1]) + {records[|records| - 1].assetId}
  {
    assert records == records[..|records| - 1] + [records[|records| - 1]];
  }

  /** The record that an upsert leaves for an asset: the last one listed. */
  function RecordOf(records: seq<AssetRecord>, id: string): (r: AssetRecord)
    requires id in Ids(records)
    ensures r.assetId == id
    ensures exists k :: && 0 <= k < |records| && records[k] == r
                        && forall j :: k < j < |records| ==> records[j].assetId != id
  {
    IdsAppend(records);
    if records[|records| - 1].assetId == id then records[|records| - 1]
    else RecordOf(records[..|records| - 1], id)
  }

  lemma {:induction false} UpsertedRow(t: Table, records: seq<AssetRecord>, now: Instant, id: string)
    ensures Upserted(t, records, now).Keys == t.Keys + Ids(records)
    ensures id in Ids(records) ==>
              Upserted(t, records, now)[id]
              == FreshRow(RecordOf(records, id), if id in t then t[id].createdAt else ToSecond(now), now)
    ensures id in t && id !in Ids(records) ==> Upserted(t, records, now)[id] == t[id]
  {
    hide FreshRow;
    if records != [] {
      var n := |records| - 1;
      UpsertedRow(t, records[..n], now, id);
      IdsAppend(records);
      if records[n].assetId == id && id in Ids(records[..n]) {
        FreshRowKeepsCreation(RecordOf(records[..n], id), if id in t then t[id].createdAt else ToSecond(now), now);
      }
    }
  }

  lemma FreshRowKeepsCreation(r: AssetRecord, created: Second, now: Instant)
    ensures FreshRow(r, created, now).createdAt == created
  {
  }

  // ---------------------------------------------------------------- one rescan

  /** What one scan of the assets directory found, and the clock reading after it. */
  datatype Scan = Scan(records: seq<AssetRecord>, now: Instant)

  function Seen(scan: Scan): set<string> {
    Ids(scan.records)
  }

  function Rescanned(t: Table, scan: Scan): Table {
    MarkedMissing(Upserted(t, scan.records, scan.now), Seen(scan), scan.now)
  }

  /** One complete rescan leaves exactly its own assets active, from any table. */
  lemma {:induction false} RescanRestores(t: Table, scan: Scan)
    requires WellFormed(t)
    ensures WellFormed(Rescanned(t, scan))
    ensures Active(Rescanned(t, scan)) == Seen(scan)
    ensures Rescanned(t, scan).Keys == t.Keys + Seen(scan)
  {
    forall id {
      UpsertedRow(t, scan.records, scan.now, id);
    }
  }

  /** The row of an asset after one rescan. */
  lemma {:induction false} RescannedRow(t: Table, scan: Scan, id: string)
    ensures id in Rescanned(t, scan) <==> id in t || id in Seen(scan)
    ensures id in Seen(scan) ==>
              Rescanned(t, scan)[id]
              == FreshRow(RecordOf(scan.records, id), if id in t then t[id].createdAt else ToSecond(scan.now), scan.now)
    ensures id in t && id !in Seen(scan) ==>
              Rescanned(t, scan)[id] == if t[id].status != "missing" then MissingRow(t[id], scan.now) else t[id]
  {
    UpsertedRow(t, scan.records, scan.now, id);
  }

  /** The rows that mark-missing changes are the active assets the scan did not see. */
  lemma {:induction false} NewlyMissing(t: Table, scan: Scan)
    requires WellFormed(t)
    ensures var upserted := Upserted(t, scan.records, scan.now);
            (set id | id in upserted && upserted[id].status != "missing" && id !in Seen(scan)) == Active(t) - Seen(scan)
  {
    forall id {
      UpsertedRow(t, scan.records, scan.now, id);
    }
  }

  // ---------------------------------------------------------------- the table as history

  function TableAfter(scans: seq<Scan>): Table {
    if scans == [] then map[] else Rescanned(TableAfter(scans[..|scans| - 1]), scans[|scans| - 1])
  }

  predicate SeenEver(scans: seq<Scan>, id: string) {
    exists i :: 0 <= i < |scans| && id in Seen(scans[i])
  }

  function FirstSeen(scans: seq<Scan>, id: string): (i: nat)
    requires SeenEver(scans, id)
    ensures i < |scans| && id in Seen(scans[i])
    ensures forall j :: 0 <= j < i ==> id !in Seen(scans[j])
  {
    if SeenEver(scans[..|scans| - 1], id) then FirstSeen(scans[..|scans| - 1], id) else |scans| - 1
  }

  function LastSeen(scans: seq<Scan>, id: string): (i: nat)
    requires SeenEver(scans, id)
    ensures i < |scans| && id in Seen(scans[i])
    ensures forall j :: i < j < |scans| ==> id !in Seen(scans[j])
  {
    if id in Seen(scans[|scans| - 1]) then |scans| - 1 else LastSeen(scans[..|scans| - 1], id)
  }

  /** The row that the scans so far call for: contents of the last sighting, creation at
      the first one, and for an absent asset the time of the first scan without it. */
  function RowByHistory(scans: seq<Scan>, id: string): AssetRow
    requires SeenEver(scans, id)
  {
    var first, last := FirstSeen(scans, id), LastSeen(scans, id);
    var sighting := RecordOf(scans[last].records, id);
    var present := last == |scans| - 1;
    AssetRow(
      if present then "active" else "missing",
      sighting.playlist, sighting.hash, sighting.fileCount, sighting.totalSize,
      sighting.lastScannedAt / 1_000_000_000,
      scans[first].now / 1_000_000_000,
      scans[if present then last else last + 1].now / 1_000_000_000,
      if present then None else Some(scans[last + 1].now / 1_000_000_000))
  }

  lemma {:induction false} HistoryGrows(scans: seq<Scan>, id: string)
    requires scans != []
    ensures var front, scan := scans[..|scans| - 1], scans[|scans| - 1];
            && (SeenEver(scans, id) <==> SeenEver(front, id) || id in Seen(scan))
            && (SeenEver(front, id) ==> FirstSeen(scans, id) == FirstSeen(front, id))
            && (id in Seen(scan) && !SeenEver(front, id) ==> FirstSeen(scans, id) == |scans| - 1)
            && (id in Seen(scan) ==> LastSeen(scans, id) == |scans| - 1)
            && (id !in Seen(scan) && SeenEver(front, id) ==> LastSeen(scans, id) == LastSeen(front, id))
  {
    var front := scans[..|scans| - 1];
    assert forall i :: 0 <= i < |front| ==> scans[i] == front[i];
    if SeenEver(scans, id) && id !in Seen(scans[|scans| - 1]) {
      var i :| 0 <= i < |scans| && id in Seen(scans[i]);
      assert id in Seen(front[i]);
    }
    if SeenEver(front, id) {
      var i :| 0 <= i < |front| && id in Seen(front[i]);
      assert id in Seen(scans[i]);
    }
  }

  /** After any run of rescans that do not overlap, every row is the one that the history
      of sightings calls for, and there are no others. */
  lemma {:induction false} TableIsHistory(scans: seq<Scan>, id: string)
    ensures id in TableAfter(scans) <==> SeenEver(scans, id)
    ensures id in TableAfter(scans) ==> TableAfter(scans)[id] == RowByHistory(scans, id)
  {
    hide RecordOf, Seen, Rescanned, FirstSeen, LastSeen;
    if scans != [] {
      var front, scan := scans[..|scans| - 1], scans[|scans| - 1];
      TableIsHistory(front, id);
      HistoryGrows(scans, id);
      RescannedRow(TableAfter(front), scan, id);
      if SeenEver(front, id) && id !in Seen(scan) {
        var last := LastSeen(front, id);
        assert scans[last] == front[last];
        assert last + 1 < |front| ==> scans[last + 1] == front[last + 1];
      }
    }
  }

  lemma {:induction false} TableAfterWellFormed(scans: seq<Scan>)
    ensures WellFormed(TableAfter(scans))
  {
    if scans != [] {
      TableAfterWellFormed(scans[..|scans| - 1]);
      RescanRestores(TableAfter(scans[..|scans| - 1]), scans[|scans| - 1]);
    }
  }

  /** Active rows are the last scan, and what it newly marked missing are the assets of
      the scan before it that it did not see. */
  lemma {:induction false} LastScanIsActive(scans: seq<Scan>)
    requires scans != []
    ensures Active(TableAfter(scans)) == Seen(scans[|scans| - 1])
    ensures |scans| >= 2 ==>
              Active(TableAfter(scans[..|scans| - 1])) - Seen(scans[|scans| - 1])
              == Seen(scans[|scans| - 2]) - Seen(scans[|scans| - 1])
  {
    hide Rescanned, Seen;
    var front := scans[..|scans| - 1];
    TableAfterWellFormed(front);
    RescanRestores(TableAfter(front), scans[|scans| - 1]);
    if |scans| >= 2 {
      TableAfterWellFormed(front[..|front| - 1]);
      RescanRestores(TableAfter(front[..|front| - 1]), front[|front| - 1]);
    }
  }

  // ---------------------------------------------------------------- overlapping rescans

  /** One statement of one rescan: its upsert, or its mark-missing. */
  datatype Move = Move(pid: nat, marks: bool)

  type Rescans = map<nat, Scan>

  function Moved(t: Table, rescans: Rescans, m: Move): Table
    requires m.pid in rescans
  {
    var scan := rescans[m.pid];
    if m.marks then MarkedMissing(t, Seen(scan), scan.now) else Upserted(t, scan.records, scan.now)
  }

  predicate MovesOf(trace: seq<Move>, rescans: Rescans) {
    forall k :: 0 <= k < |trace| ==> trace[k].pid in rescans
  }

  function Interleaved(t: Table, rescans: Rescans, trace: seq<Move>): Table
    requires MovesOf(trace, rescans)
  {
    if trace == [] then t
    else Moved(Interleaved(t, rescans, trace[..|trace| - 1]), rescans, trace[|trace| - 1])
  }

  /** A rescan marks only after it has upserted; it may stop anywhere. */
  predicate InOrder(trace: seq<Move>) {
    forall k :: 0 <= k < |trace| && trace[k].marks ==> exists j :: 0 <= j < k && trace[j] == Move(trace[k].pid, false)
  }

  predicate SomeoneFinished(trace: seq<Move>) {
    exists j :: 0 <= j < |trace| && trace[j].marks
  }

  lemma {:induction false} MovedActive(t: Table, rescans: Rescans, m: Move)
    requires WellFormed(t) && m.pid in rescans
    ensures WellFormed(Moved(t, rescans, m))
    ensures Active(Moved(t, rescans, m))
         == if m.marks then Active(t) * Seen(rescans[m.pid]) else Active(t) + Seen(rescans[m.pid])
  {
    hide Ids, Upserted, MarkedMissing, Active, WellFormed;
    if m.marks {
      MarkActive(t, rescans[m.pid]);
    } else {
      UpsertActive(t, rescans[m.pid]);
    }
  }

  lemma {:induction false} MarkActive(t: Table, scan: Scan)
    requires WellFormed(t)
    ensures WellFormed(MarkedMissing(t, Seen(scan), scan.now))
    ensures Active(MarkedMissing(t, Seen(scan), scan.now)) == Active(t) * Seen(scan)
  {
    hide Ids;
  }

  lemma {:induction false} UpsertActive(t: Table, scan: Scan)
    requires WellFormed(t)
    ensures WellFormed(Upserted(t, scan.records, scan.now))
    ensures Active(Upserted(t, scan.records, scan.now)) == Active(t) + Seen(scan)
  {
    hide Ids, Upserted;
    forall id {
      UpsertedRow(t, scan.records, scan.now, id);
    }
  }

  /** The scan behind a move. */
  function ScanOf(rescans: Rescans, trace: seq<Move>, k: int): Scan
    requires MovesOf(trace, rescans) && 0 <= k < |trace|
  {
    rescans[trace[k].pid]
  }

  /** Every mark from `from` on saw the asset. */
  predicate KeptFrom(rescans: Rescans, trace: seq<Move>, from: int, id: string)
    requires MovesOf(trace, rescans) && 0 <= from
  {
    forall k :: from <= k < |trace| && trace[k].marks ==> id in Seen(ScanOf(rescans, trace, k))
  }

  /** Upsert number `k` saw the asset and so did every later mark. */
  predicate KeptByUpsert(rescans: Rescans, trace: seq<Move>, k: int, id: string)
    requires MovesOf(trace, rescans) && 0 <= k < |trace|
  {
    !trace[k].marks && id in Seen(ScanOf(rescans, trace, k)) && KeptFrom(rescans, trace, k + 1, id)
  }

  lemma {:induction false} KeptGrows(rescans: Rescans, trace: seq<Move>, id: string)
    requires trace != [] && MovesOf(trace, rescans)
    ensures var front, n := trace[..|trace| - 1], |trace| - 1;
            var last := trace[n].marks ==> id in Seen(ScanOf(rescans, trace, n));
            && (forall from :: 0 <= from <= n ==>
                 (KeptFrom(rescans, trace, from, id) <==> KeptFrom(rescans, front, from, id) && last))
            && (forall k :: 0 <= k < n ==>
                 (KeptByUpsert(rescans, trace, k, id) <==> KeptByUpsert(rescans, front, k, id) && last))
            && (KeptByUpsert(rescans, trace, n, id) <==> !trace[n].marks && id in Seen(ScanOf(rescans, trace, n)))
  {
    hide Seen;
    var front, n := trace[..|trace| - 1], |trace| - 1;
    assert forall k :: 0 <= k < n ==> ScanOf(rescans, trace, k) == ScanOf(rescans, front, k) && trace[k] == front[k];
  }

  /** What any interleaving of any number of rescans leaves active, from any table and with
      any of them stopping: what was active and seen by every mark, or was seen by some
      upsert and every mark after it. */
  lemma {:induction false} ActiveAfter(t: Table, rescans: Rescans, trace: seq<Move>, id: string)
    requires WellFormed(t) && MovesOf(trace, rescans)
    ensures WellFormed(Interleaved(t, rescans, trace))
    ensures id in Active(Interleaved(t, rescans, trace))
       <==> || (id in Active(t) && KeptFrom(rescans, trace, 0, id))
            || exists k :: 0 <= k < |trace| && KeptByUpsert(rescans, trace, k, id)
  {
    hide Moved, Active, Seen, KeptFrom, KeptByUpsert;
    if trace == [] {
      assert KeptFrom(rescans, trace, 0, id) by { KeptByNobody(rescans, id); }
    } else {
      var front, n := trace[..|trace| - 1], |trace| - 1;
      ActiveAfter(t, rescans, front, id);
      MovedActive(Interleaved(t, rescans, front), rescans, trace[n]);
      KeptGrows(rescans, trace, id);
      if k :| 0 <= k < n && KeptByUpsert(rescans, front, k, id) {
        assert KeptByUpsert(rescans, trace, k, id) || (trace[n].marks && id !in Seen(ScanOf(rescans, trace, n)));
      }
      if k :| 0 <= k <= n && KeptByUpsert(rescans, trace, k, id) {
        assert k == n || KeptByUpsert(rescans, front, k, id);
      }
    }
  }

  lemma KeptByNobody(rescans: Rescans, id: string)
    ensures KeptFrom(rescans, [], 0, id)
  {
  }

  /** Rescans that all saw the same assets: in every interleaving, from any table, the
      active set is that one from the moment any of them has finished, whatever the
      others still do or leave undone. */
  lemma {:induction false} AgreeingRescans(t: Table, rescans: Rescans, trace: seq<Move>, s: set<string>)
    requires WellFormed(t) && MovesOf(trace, rescans) && InOrder(trace) && SomeoneFinished(trace)
    requires forall pid :: pid in rescans ==> Seen(rescans[pid]) == s
    ensures Active(Interleaved(t, rescans, trace)) == s
  {
    hide Interleaved, Active, Seen;
    var j :| 0 <= j < |trace| && trace[j].marks;
    var k :| 0 <= k < j && trace[k] == Move(trace[j].pid, false);
    assert forall i :: 0 <= i < |trace| ==> Seen(ScanOf(rescans, trace, i)) == s;
    forall id
      ensures id in Active(Interleaved(t, rescans, trace)) <==> id in s
    {
      ActiveAfter(t, rescans, trace, id);
      assert id in s ==> KeptByUpsert(rescans, trace, k, id);
      assert id !in s ==> !KeptFrom(rescans, trace, 0, id);
    }
  }

  /** No rescan upserts or marks twice. */
  predicate OnceEach(trace: seq<Move>) {
    forall i, j :: 0 <= i < j < |trace| ==> trace[i] != trace[j]
  }

  /** Every rescan upserts and marks. */
  ghost predicate Complete(trace: seq<Move>, rescans: Rescans) {
    && MovesOf(trace, rescans) && InOrder(trace) && OnceEach(trace)
    && (forall pid :: pid in rescans ==> Move(pid, true) in trace)
  }

  lemma {:induction false} Places(trace: seq<Move>, rescans: Rescans, pid: nat) returns (u: int, m: int)
    requires Complete(trace, rescans) && pid in rescans
    ensures 0 <= u < m < |trace| && trace[u] == Move(pid, false) && trace[m] == Move(pid, true)
  {
    m :| 0 <= m < |trace| && trace[m] == Move(pid, true);
    u :| 0 <= u < m && trace[u] == Move(pid, false);
  }

  lemma {:induction false} OnlyMoves(trace: seq<Move>, rescans: Rescans, x: nat, y: nat,
                                     ux: int, mx: int, uy: int, my: int)
    requires rescans.Keys == {x, y} && Complete(trace, rescans)
    requires 0 <= ux < |trace| && 0 <= mx < |trace| && trace[ux] == Move(x, false) && trace[mx] == Move(x, true)
    requires 0 <= uy < |trace| && 0 <= my < |trace| && trace[uy] == Move(y, false) && trace[my] == Move(y, true)
    ensures forall k :: 0 <= k < |trace| ==> if trace[k].marks then k == mx || k == my else k == ux || k == uy
  {
    hide InOrder;
    forall k | 0 <= k < |trace|
      ensures if trace[k].marks then k == mx || k == my else k == ux || k == uy
    {
      assert trace[k].pid in rescans.Keys;
      var m := trace[k];
      assert m == Move(x, true) || m == Move(y, true) || m == Move(x, false) || m == Move(y, false);
    }
  }

  /** Two complete rescans, x marking last: x's scan when x upserted after y had marked,
      and otherwise what both saw. */
  lemma {:induction false} LaterMarkDecides(t: Table, rescans: Rescans, trace: seq<Move>, x: nat, y: nat,
                                            ux: int, mx: int, uy: int, my: int)
    requires WellFormed(t) && rescans.Keys == {x, y} && Complete(trace, rescans)
    requires 0 <= ux < mx < |trace| && trace[ux] == Move(x, false) && trace[mx] == Move(x, true)
    requires 0 <= uy < my < mx && trace[uy] == Move(y, false) && trace[my] == Move(y, true)
    ensures Active(Interleaved(t, rescans, trace))
         == if my < ux then Seen(rescans[x]) else Seen(rescans[x]) * Seen(rescans[y])
  {
    hide Interleaved, Active, Seen, InOrder;
    OnlyMoves(trace, rescans, x, y, ux, mx, uy, my);
    var both := Seen(rescans[x]) * Seen(rescans[y]);
    forall id
      ensures id in Active(Interleaved(t, rescans, trace))
         <==> id in Seen(rescans[x]) && (my < ux || id in Seen(rescans[y]))
    {
      ActiveAfter(t, rescans, trace, id);
      assert KeptByUpsert(rescans, trace, ux, id)
        <==> id in Seen(rescans[x]) && (my < ux || id in Seen(rescans[y]));
      assert KeptByUpsert(rescans, trace, uy, id) ==> id in both;
      assert KeptFrom(rescans, trace, 0, id) ==> id in both;
    }
  }

  lemma {:induction false} TwoRescansLeave(t: Table, a: Scan, b: Scan, trace: seq<Move>)
    requires WellFormed(t) && Complete(trace, map[0 := a, 1 := b])
    ensures var after := Active(Interleaved(t, map[0 := a, 1 := b], trace));
            after == Seen(a) || after == Seen(b) || after == Seen(a) * Seen(b)
  {
    hide Interleaved, Active, Seen, InOrder;
    var rescans := map[0 := a, 1 := b];
    var u0, m0 := Places(trace, rescans, 0);
    var u1, m1 := Places(trace, rescans, 1);
    if m1 < m0 {
      LaterMarkDecides(t, rescans, trace, 0, 1, u0, m0, u1, m1);
    } else {
      LaterMarkDecides(t, rescans, trace, 1, 0, u1, m1, u0, m0);
    }
  }

  /** The set is what one of the scans saw. */
  ghost predicate IsScan(rescans: Rescans, s: set<string>) {
    exists pid :: pid in rescans && Seen(rescans[pid]) == s
  }

  ghost predicate Combine(rescans: Rescans, p: nat, q: nat)
    requires p in rescans && q in rescans
  {
    && IsScan(rescans, Seen(rescans[p]) + Seen(rescans[q]))
    && IsScan(rescans, Seen(rescans[p]) * Seen(rescans[q]))
  }

  /** What two of the scans saw together, and what both saw, is what some scan saw. */
  ghost predicate Closed(rescans: Rescans) {
    forall p, q {:trigger Combine(rescans, p, q)} :: p in rescans && q in rescans ==> Combine(rescans, p, q)
  }

  predicate Covers(rescans: Rescans, trace: seq<Move>, s: set<string>)
    requires MovesOf(trace, rescans)
  {
    forall k :: 0 <= k < |trace| ==> Seen(ScanOf(rescans, trace, k)) <= s
  }

  /** Nobody has marked yet: the active set has grown by one scan that covers all upserts. */
  ghost predicate GatheredTo(t: Table, rescans: Rescans, trace: seq<Move>, active: set<string>, s: set<string>)
    requires MovesOf(trace, rescans)
  {
    IsScan(rescans, s) && Covers(rescans, trace, s) && active == Active(t) + s
  }

  ghost predicate Gathering(t: Table, rescans: Rescans, trace: seq<Move>, active: set<string>)
    requires MovesOf(trace, rescans)
  {
    if trace == [] then active == Active(t) else exists s :: GatheredTo(t, rescans, trace, active, s)
  }

  lemma {:induction false} ScansCombine(rescans: Rescans, s: set<string>, p: nat)
    requires Closed(rescans) && IsScan(rescans, s) && p in rescans
    ensures IsScan(rescans, s + Seen(rescans[p])) && IsScan(rescans, s * Seen(rescans[p]))
  {
    hide Seen, IsScan;
    var q := Witness(rescans, s);
    assert Combine(rescans, q, p);
  }

  lemma {:induction false} Witness(rescans: Rescans, s: set<string>) returns (pid: nat)
    requires IsScan(rescans, s)
    ensures pid in rescans && Seen(rescans[pid]) == s
  {
    hide Seen;
    pid :| pid in rescans && Seen(rescans[pid]) == s;
  }

  lemma {:induction false} CoversMore(rescans: Rescans, trace: seq<Move>, s: set<string>)
    requires trace != [] && MovesOf(trace, rescans) && Covers(rescans, trace[..|trace| - 1], s)
    ensures Covers(rescans, trace, s + Seen(ScanOf(rescans, trace, |trace| - 1)))
  {
    hide Seen;
    var front, own := trace[..|trace| - 1], Seen(ScanOf(rescans, trace, |trace| - 1));
    forall k | 0 <= k < |trace|
      ensures Seen(ScanOf(rescans, trace, k)) <= s + own
    {
      if k < |front| {
        assert ScanOf(rescans, trace, k) == ScanOf(rescans, front, k);
      }
    }
  }

  lemma {:induction false} GatherMore(t: Table, rescans: Rescans, trace: seq<Move>, before: set<string>)
    requires trace != [] && MovesOf(trace, rescans) && Closed(rescans)
    requires Gathering(t, rescans, trace[..|trace| - 1], before)
    ensures Gathering(t, rescans, trace, before + Seen(ScanOf(rescans, trace, |trace| - 1)))
  {
    hide Seen, Active, Closed, IsScan, Covers, GatheredTo;
    if |trace| == 1 {
      GatherFirst(t, rescans, trace);
    } else {
      var s :| GatheredTo(t, rescans, trace[..|trace| - 1], before, s);
      GatherNext(t, rescans, trace, before, s);
    }
  }

  lemma {:induction false} GatherFirst(t: Table, rescans: Rescans, trace: seq<Move>)
    requires |trace| == 1 && MovesOf(trace, rescans)
    ensures var own := Seen(ScanOf(rescans, trace, 0)); GatheredTo(t, rescans, trace, Active(t) + own, own)
  {
    hide Seen, Active, IsScan;
    OwnIsScan(rescans, trace, 0);
  }

  lemma {:induction false} GatherNext(t: Table, rescans: Rescans, trace: seq<Move>, before: set<string>, s: set<string>)
    requires trace != [] && MovesOf(trace, rescans) && Closed(rescans)
    requires GatheredTo(t, rescans, trace[..|trace| - 1], before, s)
    ensures var own := Seen(ScanOf(rescans, trace, |trace| - 1));
            GatheredTo(t, rescans, trace, before + own, s + own)
  {
    hide Seen, Active, Closed, IsScan, Covers;
    var own := Seen(ScanOf(rescans, trace, |trace| - 1));
    ScansCombine(rescans, s, trace[|trace| - 1].pid);
    CoversMore(rescans, trace, s);
    assert (Active(t) + s) + own == Active(t) + (s + own);
  }

  lemma {:induction false} OwnIsScan(rescans: Rescans, trace: seq<Move>, k: int)
    requires MovesOf(trace, rescans) && 0 <= k < |trace|
    ensures IsScan(rescans, Seen(ScanOf(rescans, trace, k)))
  {
    hide Seen;
    assert trace[k].pid in rescans;
  }

  /** The first mark leaves its own scan. */
  lemma {:induction false} FirstMark(t: Table, rescans: Rescans, trace: seq<Move>, n: int, before: set<string>)
    requires MovesOf(trace, rescans) && InOrder(trace) && n == |trace| - 1 >= 0 && trace[n].marks
    requires Gathering(t, rescans, trace[..n], before)
    ensures before * Seen(ScanOf(rescans, trace, n)) == Seen(ScanOf(rescans, trace, n))
  {
    hide Seen, Active, IsScan;
    var j :| 0 <= j < n && trace[j] == Move(trace[n].pid, false);
    assert ScanOf(rescans, trace[..n], j) == ScanOf(rescans, trace, n);
  }

  lemma {:induction false} ClosedRescansStep(t: Table, rescans: Rescans, trace: seq<Move>)
    requires WellFormed(t) && MovesOf(trace, rescans) && InOrder(trace) && Closed(rescans)
    ensures WellFormed(Interleaved(t, rescans, trace))
    ensures SomeoneFinished(trace) ==> IsScan(rescans, Active(Interleaved(t, rescans, trace)))
    ensures !SomeoneFinished(trace) ==> Gathering(t, rescans, trace, Active(Interleaved(t, rescans, trace)))
  {
    hide Moved, Active, Seen, Gathering, IsScan, Closed, InOrder;
    if trace == [] {
      GatherNothing(t, rescans);
    } else {
      var n := |trace| - 1;
      var front := trace[..n];
      PrefixInOrder(trace, n);
      ClosedRescansStep(t, rescans, front);
      var before := Active(Interleaved(t, rescans, front));
      MovedActive(Interleaved(t, rescans, front), rescans, trace[n]);
      FinishedGrows(trace);
      if SomeoneFinished(front) {
        ScansCombine(rescans, before, trace[n].pid);
      } else if trace[n].marks {
        FirstMark(t, rescans, trace, n, before);
        OwnIsScan(rescans, trace, n);
      } else {
        GatherMore(t, rescans, trace, before);
      }
    }
  }

  lemma GatherNothing(t: Table, rescans: Rescans)
    ensures Gathering(t, rescans, [], Active(t))
  {
  }

  lemma {:induction false} FinishedGrows(trace: seq<Move>)
    requires trace != []
    ensures SomeoneFinished(trace) <==> SomeoneFinished(trace[..|trace| - 1]) || trace[|trace| - 1].marks
  {
    var front := trace[..|trace| - 1];
    assert forall k :: 0 <= k < |front| ==> front[k] == trace[k];
  }

  lemma {:induction false} PrefixInOrder(trace: seq<Move>, n: int)
    requires 0 <= n <= |trace| && InOrder(trace)
    ensures InOrder(trace[..n])
  {
    forall k | 0 <= k < n && trace[k].marks
      ensures exists j :: 0 <= j < k && trace[..n][j] == Move(trace[k].pid, false)
    {
      var j :| 0 <= j < k && trace[j] == Move(trace[k].pid, false);
      assert trace[..n][j] == trace[j];
    }
  }

  /** A rescan that stops before its mark leaves the union of the two. */
  lemma {:induction false} StoppedLeavesUnion(t: Table, rescans: Rescans, p: nat, q: nat) returns (trace: seq<Move>)
    requires WellFormed(t) && p in rescans && q in rescans && p != q
    ensures MovesOf(trace, rescans) && InOrder(trace) && OnceEach(trace) && SomeoneFinished(trace)
    ensures Active(Interleaved(t, rescans, trace)) == Seen(rescans[p]) + Seen(rescans[q])
  {
    hide Interleaved, Active, Seen;
    trace := [Move(q, false), Move(q, true), Move(p, false)];
    assert trace[0] == Move(q, false) && trace[1] == Move(q, true) && trace[2] == Move(p, false);
    forall id
      ensures id in Active(Interleaved(t, rescans, trace)) <==> id in Seen(rescans[p]) || id in Seen(rescans[q])
    {
      ActiveAfter(t, rescans, trace, id);
      assert KeptByUpsert(rescans, trace, 0, id) <==> id in Seen(rescans[q]);
      assert KeptByUpsert(rescans, trace, 2, id) <==> id in Seen(rescans[p]);
      assert KeptFrom(rescans, trace, 0, id) <==> id in Seen(rescans[q]);
    }
  }

  lemma {:induction false} OverlapLeavesIntersection(t: Table, rescans: Rescans, p: nat, q: nat)
    returns (trace: seq<Move>)
    requires WellFormed(t) && p in rescans && q in rescans && p != q
    ensures MovesOf(trace, rescans) && InOrder(trace) && OnceEach(trace) && SomeoneFinished(trace)
    ensures rescans.Keys == {p, q} ==> Complete(trace, rescans)
    ensures Active(Interleaved(t, rescans, trace)) == Seen(rescans[p]) * Seen(rescans[q])
  {
    hide Interleaved, Active, Seen;
    trace := [Move(p, false), Move(q, false), Move(p, true), Move(q, true)];
    assert trace[0] == Move(p, false) && trace[1] == Move(q, false);
    assert trace[2] == Move(p, true) && trace[3] == Move(q, true);
    forall id
      ensures id in Active(Interleaved(t, rescans, trace)) <==> id in Seen(rescans[p]) && id in Seen(rescans[q])
    {
      ActiveAfter(t, rescans, trace, id);
      assert KeptByUpsert(rescans, trace, 0, id) <==> id in Seen(rescans[p]) && id in Seen(rescans[q]);
      assert KeptByUpsert(rescans, trace, 1, id) <==> id in Seen(rescans[p]) && id in Seen(rescans[q]);
      assert KeptFrom(rescans, trace, 0, id) <==> id in Seen(rescans[p]) && id in Seen(rescans[q]);
    }
  }

  /** In every interleaving of these rescans, the active set is the result of one of them
      from the moment any has finished. */
  ghost predicate AlwaysOneScan(t: Table, rescans: Rescans) {
    forall trace :: MovesOf(trace, rescans) && InOrder(trace) && OnceEach(trace) && SomeoneFinished(trace) ==>
                      IsScan(rescans, Active(Interleaved(t, rescans, trace)))
  }

  lemma {:induction false} SameScanTwice(rescans: Rescans, p: nat)
    requires p in rescans
    ensures Combine(rescans, p, p)
  {
    hide Seen;
    var s := Seen(rescans[p]);
    assert s + s == s && s * s == s;
  }

  /** Any number of rescans, with stops: that is so exactly when what they saw is closed
      under union and intersection. */
  lemma {:induction false} OverlappingRescans(t: Table, rescans: Rescans)
    requires WellFormed(t)
    ensures AlwaysOneScan(t, rescans) <==> Closed(rescans)
  {
    hide Interleaved, Active, Seen, IsScan;
    if Closed(rescans) {
      forall trace | MovesOf(trace, rescans) && InOrder(trace) && SomeoneFinished(trace)
        ensures IsScan(rescans, Active(Interleaved(t, rescans, trace)))
      {
        ClosedRescansStep(t, rescans, trace);
      }
    }
    if AlwaysOneScan(t, rescans) {
      forall p, q | p in rescans && q in rescans
        ensures Combine(rescans, p, q)
      {
        if p != q {
          var _ := StoppedLeavesUnion(t, rescans, p, q);
          var _ := OverlapLeavesIntersection(t, rescans, p, q);
        } else {
          SameScanTwice(rescans, p);
        }
      }
    }
  }

  /** Two rescans leave the result of one of them in every interleaving exactly when one
      scan contains the other, whether or not the rescans may stop halfway. */
  lemma {:induction false} DisagreeingRescans(t: Table, a: Scan, b: Scan)
    requires WellFormed(t)
    ensures var rescans := map[0 := a, 1 := b];
            && (AlwaysOneScan(t, rescans) <==> Seen(a) <= Seen(b) || Seen(b) <= Seen(a))
            && ((forall trace :: Complete(trace, rescans) ==>
                   Active(Interleaved(t, rescans, trace)) in {Seen(a), Seen(b)})
                <==> Seen(a) <= Seen(b) || Seen(b) <= Seen(a))
  {
    hide Interleaved, Active, Seen, AlwaysOneScan;
    var rescans := map[0 := a, 1 := b];
    OverlappingRescans(t, rescans);
    TwoScansClosed(a, b);
    if Seen(a) <= Seen(b) || Seen(b) <= Seen(a) {
      assert Seen(a) * Seen(b) == Seen(a) || Seen(a) * Seen(b) == Seen(b);
      forall trace | Complete(trace, rescans)
        ensures Active(Interleaved(t, rescans, trace)) in {Seen(a), Seen(b)}
      {
        TwoRescansLeave(t, a, b, trace);
      }
    } else {
      var trace := OverlapLeavesIntersection(t, rescans, 0, 1);
    }
  }

  lemma {:induction false} TwoScansClosed(a: Scan, b: Scan)
    ensures Closed(map[0 := a, 1 := b]) <==> Seen(a) <= Seen(b) || Seen(b) <= Seen(a)
  {
    hide Seen;
    var rescans := map[0 := a, 1 := b];
    if Seen(a) <= Seen(b) || Seen(b) <= Seen(a) {
      assert IsScan(rescans, Seen(a)) by { assert rescans[0] == a; }
      assert IsScan(rescans, Seen(b)) by { assert rescans[1] == b; }
      forall p, q | p in rescans && q in rescans
        ensures Combine(rescans, p, q)
      {
        var s, s' := Seen(rescans[p]), Seen(rescans[q]);
        assert s <= s' || s' <= s;
        assert (s + s' == s && s * s' == s') || (s + s' == s' && s * s' == s);
      }
    }
    if Closed(rescans) {
      assert Combine(rescans, 0, 1);
      var pid := Witness(rescans, Seen(a) + Seen(b));
      assert Seen(rescans[pid]) == Seen(a) || Seen(rescans[pid]) == Seen(b);
    }
  }

  /** Nothing is upserted after move `u`. */
  predicate LastUpsert(trace: seq<Move>, u: int) {
    0 <= u < |trace| && !trace[u].marks && forall k :: u < k < |trace| ==> trace[k].marks
  }

  /** Any number of complete rescans: what they leave active is what every mark after the last
      upsert saw, whatever came before. */
  lemma {:induction false} CompleteRescansLeave(t: Table, rescans: Rescans, trace: seq<Move>, u: int, id: string)
    requires WellFormed(t) && Complete(trace, rescans) && LastUpsert(trace, u)
    ensures id in Active(Interleaved(t, rescans, trace)) <==> KeptFrom(rescans, trace, u + 1, id)
  {
    hide Interleaved, Active, Seen, InOrder;
    ActiveAfter(t, rescans, trace, id);
    if KeptFrom(rescans, trace, u + 1, id) {
      var _, m := Places(trace, rescans, trace[u].pid);
      assert id in Seen(ScanOf(rescans, trace, m)) && ScanOf(rescans, trace, m) == ScanOf(rescans, trace, u);
      assert KeptByUpsert(rescans, trace, u, id);
    }
  }

  lemma {:induction false} SomeUpsertIsLast(trace: seq<Move>) returns (u: int)
    requires trace != [] && InOrder(trace)
    ensures LastUpsert(trace, u)
  {
    u := |trace| - 1;
    while trace[u].marks
      invariant 0 <= u < |trace| && forall k :: u < k < |trace| ==> trace[k].marks
      decreases u
    {
      assert exists j :: 0 <= j < u && trace[j] == Move(trace[u].pid, false);
      u := u - 1;
    }
  }

  /** What two scans both saw is what some scan saw. */
  ghost predicate Meet(rescans: Rescans, p: nat, q: nat)
    requires p in rescans && q in rescans
  {
    IsScan(rescans, Seen(rescans[p]) * Seen(rescans[q]))
  }

  ghost predicate ClosedUnderMeet(rescans: Rescans) {
    forall p, q {:trigger Meet(rescans, p, q)} :: p in rescans && q in rescans ==> Meet(rescans, p, q)
  }

  /** What a scan and the marks between `u` and `n` all saw is what some scan saw. */
  lemma {:induction false} MarksMeet(rescans: Rescans, trace: seq<Move>, u: int, n: int, p: nat) returns (s: set<string>)
    requires MovesOf(trace, rescans) && ClosedUnderMeet(rescans) && p in rescans && 0 <= u < n <= |trace|
    ensures IsScan(rescans, s)
    ensures forall id :: id in s <==>
              id in Seen(rescans[p]) && forall k :: u < k < n ==> id in Seen(ScanOf(rescans, trace, k))
    decreases n
  {
    hide Seen, IsScan;
    if n == u + 1 {
      s := Seen(rescans[p]);
      PidIsScan(rescans, p);
    } else {
      s := MarksMeet(rescans, trace, u, n - 1, p);
      var q := Witness(rescans, s);
      assert Meet(rescans, q, trace[n - 1].pid);
      s := s * Seen(ScanOf(rescans, trace, n - 1));
    }
  }

  lemma PidIsScan(rescans: Rescans, p: nat)
    requires p in rescans
    ensures IsScan(rescans, Seen(rescans[p]))
  {
  }

  /** Each rescan of `pids` from upsert to mark, one after the other. */
  lemma {:induction false} OneByOne(pids: set<nat>) returns (trace: seq<Move>)
    ensures InOrder(trace) && OnceEach(trace)
    ensures forall k :: 0 <= k < |trace| ==> trace[k].pid in pids
    ensures forall pid :: pid in pids ==> Move(pid, true) in trace
  {
    trace := [];
    var left := pids;
    while left != {}
      invariant left <= pids
      invariant InOrder(trace) && OnceEach(trace)
      invariant forall k :: 0 <= k < |trace| ==> trace[k].pid in pids - left
      invariant forall pid :: pid in pids - left ==> Move(pid, true) in trace
      decreases left
    {
      var p :| p in left;
      var longer := trace + [Move(p, false), Move(p, true)];
      OneRescanMore(trace, p);
      assert forall pid :: Move(pid, true) in trace ==> Move(pid, true) in longer;
      assert longer[|trace| + 1] == Move(p, true);
      trace, left := longer, left - {p};
    }
  }

  lemma {:induction false} OneRescanMore(trace: seq<Move>, p: nat)
    requires InOrder(trace) && OnceEach(trace) && forall k :: 0 <= k < |trace| ==> trace[k].pid != p
    ensures InOrder(trace + [Move(p, false), Move(p, true)]) && OnceEach(trace + [Move(p, false), Move(p, true)])
  {
    var last := [Move(p, false), Move(p, true)];
    assert last[0] == Move(p, false);
    AppendInOrder(trace, last);
  }

  lemma {:induction false} AppendInOrder(a: seq<Move>, b: seq<Move>)
    requires InOrder(a) && InOrder(b)
    ensures InOrder(a + b)
  {
    var trace := a + b;
    forall k | 0 <= k < |trace| && trace[k].marks
      ensures exists j :: 0 <= j < k && trace[j] == Move(trace[k].pid, false)
    {
      if k < |a| {
        var j :| 0 <= j < k && a[j] == Move(a[k].pid, false);
        assert trace[j] == a[j];
      } else {
        var j :| 0 <= j < k - |a| && b[j] == Move(b[k - |a|].pid, false);
        assert trace[|a| + j] == b[j];
      }
    }
  }

  /** All others finish, then `p` and `q` both upsert before either marks. */
  lemma {:induction false} CompleteOverlap(t: Table, rescans: Rescans, p: nat, q: nat) returns (trace: seq<Move>)
    requires WellFormed(t) && p in rescans && q in rescans && p != q
    ensures Complete(trace, rescans)
    ensures Active(Interleaved(t, rescans, trace)) == Seen(rescans[p]) * Seen(rescans[q])
  {
    hide Interleaved, Active, Seen, InOrder, OnceEach, KeptFrom;
    var others := OneByOne(rescans.Keys - {p, q});
    trace := others + [Move(p, false), Move(q, false), Move(p, true), Move(q, true)];
    OverlapIsComplete(rescans, p, q, others);
    var n := |others|;
    assert trace[n + 1] == Move(q, false) && trace[n + 2] == Move(p, true) && trace[n + 3] == Move(q, true);
    forall id
      ensures id in Active(Interleaved(t, rescans, trace)) <==> id in Seen(rescans[p]) && id in Seen(rescans[q])
    {
      CompleteRescansLeave(t, rescans, trace, n + 1, id);
      TwoMarksLeft(rescans, trace, p, q, id);
    }
  }

  lemma {:induction false} TwoMarksLeft(rescans: Rescans, trace: seq<Move>, p: nat, q: nat, id: string)
    requires MovesOf(trace, rescans) && |trace| >= 2
    requires trace[|trace| - 2] == Move(p, true) && trace[|trace| - 1] == Move(q, true)
    ensures KeptFrom(rescans, trace, |trace| - 2, id) <==> id in Seen(rescans[p]) && id in Seen(rescans[q])
  {
    hide Seen;
    var n := |trace| - 2;
    assert ScanOf(rescans, trace, n) == rescans[p] && ScanOf(rescans, trace, n + 1) == rescans[q];
  }

  lemma {:induction false} AppendOnce(a: seq<Move>, b: seq<Move>)
    requires OnceEach(a) && OnceEach(b) && forall i, j :: 0 <= i < |a| && 0 <= j < |b| ==> a[i].pid != b[j].pid
    ensures OnceEach(a + b)
  {
    var trace := a + b;
    forall i, j | 0 <= i < j < |trace|
      ensures trace[i] != trace[j]
    {
      if i < |a| <= j {
        assert a[i].pid != b[j - |a|].pid;
      }
    }
  }

  lemma {:induction false} OverlapIsComplete(rescans: Rescans, p: nat, q: nat, others: seq<Move>)
    requires p in rescans && q in rescans && p != q && InOrder(others) && OnceEach(others)
    requires forall k :: 0 <= k < |others| ==> others[k].pid in rescans.Keys - {p, q}
    requires forall pid :: pid in rescans.Keys - {p, q} ==> Move(pid, true) in others
    ensures Complete(others + [Move(p, false), Move(q, false), Move(p, true), Move(q, true)], rescans)
  {
    var last := [Move(p, false), Move(q, false), Move(p, true), Move(q, true)];
    var trace := others + last;
    assert InOrder(last) by { assert last[0] == Move(p, false) && last[1] == Move(q, false); }
    AppendInOrder(others, last);
    AppendOnce(others, last);
    hide InOrder, OnceEach;
    assert forall pid :: Move(pid, true) in others ==> Move(pid, true) in trace;
    assert trace[|others| + 2] == Move(p, true) && trace[|others| + 3] == Move(q, true);
  }

  /** Rescans that all finish: in every interleaving they leave the result of one of them,
      exactly when what they saw is closed under intersection. */
  lemma {:induction false} FinishingRescans(t: Table, rescans: Rescans)
    requires WellFormed(t) && rescans != map[]
    ensures (forall trace :: Complete(trace, rescans) ==> IsScan(rescans, Active(Interleaved(t, rescans, trace))))
       <==> ClosedUnderMeet(rescans)
  {
    hide Interleaved, Active, Seen, IsScan, InOrder;
    if ClosedUnderMeet(rescans) {
      forall trace | Complete(trace, rescans)
        ensures IsScan(rescans, Active(Interleaved(t, rescans, trace)))
      {
        CompleteLeavesScan(t, rescans, trace);
      }
    } else {
      var p, q :| p in rescans && q in rescans && !Meet(rescans, p, q);
      if p == q {
        SameScanTwice(rescans, p);
      }
      var trace := CompleteOverlap(t, rescans, p, q);
    }
  }

  lemma {:induction false} CompleteLeavesScan(t: Table, rescans: Rescans, trace: seq<Move>)
    requires WellFormed(t) && rescans != map[] && ClosedUnderMeet(rescans) && Complete(trace, rescans)
    ensures IsScan(rescans, Active(Interleaved(t, rescans, trace)))
  {
    hide Interleaved, Active, Seen, IsScan, InOrder, ClosedUnderMeet;
    var pid :| pid in rescans;
    assert Move(pid, true) in trace;
    var u := SomeUpsertIsLast(trace);
    var p := trace[u].pid;
    var s := MarksMeet(rescans, trace, u, |trace|, p);
    var _, m := Places(trace, rescans, p);
    assert u < m && ScanOf(rescans, trace, m) == rescans[p];
    forall id
      ensures id in Active(Interleaved(t, rescans, trace)) <==> id in s
    {
      CompleteRescansLeave(t, rescans, trace, u, id);
    }
    assert Active(Interleaved(t, rescans, trace)) == s;
  }

  // ---------------------------------------------------------------- the repository

  class AssetsRepo {
    var rows: Table

    constructor ()
      ensures rows == map[]
    {
      rows := map[];
    }

    /** One transaction; `failsAt` is the statement (or, at the end, the commit) that fails. */
    method UpsertAssets(records: seq<AssetRecord>, now: Instant, failsAt: Option<nat>) returns (ok: bool)
      modifies this
      ensures ok <==> failsAt.None? || failsAt.value > |records|
      ensures rows == if ok then Upserted(old(rows), records, now) else old(rows)
    {
      hide UpsertedOne;
      var tx := rows;
      for i := 0 to |records|
        invariant tx == Upserted(rows, records[..i], now)
        invariant failsAt.Some? ==> failsAt.value >= i
        invariant rows == old(rows)
      {
        if failsAt == Some(i) {
          return false;
        }
        tx := UpsertedOne(tx, records[i], now);
        assert records[..i + 1][..i] == records[..i];
      }
      assert records[..|records|] == records;
      if failsAt == Some(|records|) {
        return false;
      }
      rows := tx;
      return true;
    }

    method MarkMissing(seenIds: seq<string>, now: Instant, fails: bool) returns (affected: Option<nat>)
      modifies this
      ensures fails <==> affected.None?
      ensures fails ==> rows == old(rows)
      ensures !fails ==>
                && rows == MarkedMissing(old(rows), (set id | id in seenIds), now)
                && affected == Some(|set id | id in old(rows) && old(rows)[id].status != "missing" && id !in seenIds|)
    {
      if fails {
        return None;
      }
      ghost var seen := set id | id in seenIds;
      if |seenIds| == 0 {
        var hit := set id | id in rows && rows[id].status != "missing";
        assert hit == set id | id in rows && rows[id].status != "missing" && id !in seenIds;
        assert MarkedAllMissing(rows, now) == MarkedMissing(rows, seen, now);
        rows := MarkedAllMissing(rows, now);
        return Some(|hit|);
      }
      var hit := set id | id in rows && rows[id].status != "missing" && id !in seenIds;
      rows := MarkedMissing(rows, (set id | id in seenIds), now);
      return Some(|hit|);
    }

    method CountActive() returns (count: nat)
      ensures count == |Active(rows)|
    {
      count := |set id | id in rows && rows[id].status == "active"|;
    }
  }

  datatype RescanResult = RescanResult(scannedAssets: nat, activeAssets: nat, missingAssets: nat)

  datatype Faults = Faults(upsert: Option<nat>, mark: bool, count: bool)

  /** RunRescanJob and RunRescan: scan, upsert, mark, count. When a step fails the earlier
      ones stay in effect. */
  method RunRescan(repo: AssetsRepo, found: Option<seq<AssetRecord>>, now: Instant, faults: Faults)
    returns (result: Option<RescanResult>)
    requires WellFormed(repo.rows)
    modifies repo
    ensures result.Some? ==>
              && found.Some?
              && repo.rows == Rescanned(old(repo.rows), Scan(found.value, now))
              && result.value.scannedAssets == |found.value|
              && result.value.activeAssets == |Ids(found.value)|
              && result.value.missingAssets == |Active(old(repo.rows)) - Ids(found.value)|
    ensures result.None? ==>
              || repo.rows == old(repo.rows)
              || (found.Some? && repo.rows == Upserted(old(repo.rows), found.value, now))
              || (found.Some? && repo.rows == Rescanned(old(repo.rows), Scan(found.value, now)))
    ensures WellFormed(repo.rows)
  {
    hide Upserted, MarkedMissing, Rescanned, Active, Ids, WellFormed;
    if found.None? {
      return None;
    }
    var records, seen := [], [];
    for i := 0 to |found.value|
      invariant records == found.value[..i]
      invariant |seen| == i && forall k :: 0 <= k < i ==> seen[k] == found.value[k].assetId
    {
      records := records + [found.value[i]];
      seen := seen + [found.value[i].assetId];
    }
    assert records == found.value;
    RescanSteps(repo.rows, found.value, seen, now);
    var ok := repo.UpsertAssets(records, now, faults.upsert);
    if !ok {
      return None;
    }
    var missing := repo.MarkMissing(seen, now, faults.mark);
    if missing.None? {
      return None;
    }
    if faults.count {
      return None;
    }
    var active := repo.CountActive();
    return Some(RescanResult(|found.value|, active, missing.value));
  }

  /** The two statements of a rescan, with the counts they report. */
  lemma {:induction false} RescanSteps(t: Table, records: seq<AssetRecord>, seen: seq<string>, now: Instant)
    requires WellFormed(t)
    requires |seen| == |records| && forall k :: 0 <= k < |records| ==> seen[k] == records[k].assetId
    ensures var upserted, done := Upserted(t, records, now), Rescanned(t, Scan(records, now));
            && WellFormed(upserted) && WellFormed(done)
            && done == MarkedMissing(upserted, (set id | id in seen), now)
            && Active(done) == Ids(records)
            && (set id | id in upserted && upserted[id].status != "missing" && id !in seen) == Active(t) - Ids(records)
  {
    hide Upserted, MarkedMissing, Active, WellFormed, Ids;
    var scan := Scan(records, now);
    SeenListIsIds(records, seen);
    RescanRestores(t, scan);
    NewlyMissing(t, scan);
    MovedActive(t, map[0 := scan], Move(0, false));
  }

  lemma {:induction false} SeenListIsIds(records: seq<AssetRecord>, seen: seq<string>)
    requires |seen| == |records| && forall k :: 0 <= k < |records| ==> seen[k] == records[k].assetId
    ensures (set id | id in seen) == Ids(records)
    ensures forall id :: id in seen <==> id in Ids(records)
  {
    forall id | id in Ids(records)
      ensures id in seen
    {
      var r :| r in records && r.assetId == id;
      var k :| 0 <= k < |records| && records[k] == r;
      assert seen[k] == id;
    }
  }
}
