/** The announcements table: one row per asset, with every time kept as text.
    A statement is one atomic change of the table, or no change when it fails. */
module Announcements {
  import opened Wrappers
  import opened Text
  import opened Timestamps

  /** A stored row. Absent times are the empty text. */
  datatype Row = Row(lastAnnounced: string, expires: string, status: string,
                     createdAt: string, updatedAt: string)

  type Rows = map<string, Row>

  /** A row as GetAnnouncement returns it. */
  datatype Announcement = Announcement(assetId: string, lastAnnouncedAt: Instant, expiresAt: Instant,
                                       status: string, createdAt: Instant, updatedAt: Instant)

  datatype ReadError = BadLastAnnounced | BadExpires

  // ---------------------------------------------------------------- writes

  /** The column text of a time: empty for Go's zero time. */
  function Column(t: Instant): string {
    if t == GO_ZERO then "" else Stamp(t)
  }

  /** INSERT ... ON CONFLICT DO UPDATE, which leaves created_at of an existing row alone. */
  function Upserted(rows: Rows, id: string, last: Instant, expires: Instant, status: string, now: Instant): Rows {
    var created := if id in rows then rows[id].createdAt else Stamp(now);
    rows[id := Row(Column(last), Column(expires), status, created, Stamp(now))]
  }

  predicate Lapsed(row: Row, cutoff: Second) {
    row.status != "expired" && row.expires != "" && Less(row.expires, Format(cutoff))
  }

  /** UPDATE ... SET status = 'expired' on the rows that expired before the cutoff. */
  function MarkedExpired(rows: Rows, cutoff: Second, stamp: string): (r: Rows)
    ensures r.Keys == rows.Keys
  {
    map id | id in rows ::
      if Lapsed(rows[id], cutoff) then rows[id].(status := "expired", updatedAt := stamp) else rows[id]
  }

  /** The rows that change are exactly those that lapsed. */
  lemma {:induction false} AffectedRows(rows: Rows, cutoff: Second, stamp: string)
    ensures var marked := MarkedExpired(rows, cutoff, stamp);
            (set id | id in marked && marked[id].status != rows[id].status)
            == (set id | id in rows && Lapsed(rows[id], cutoff))
  {
    hide Format;
  }

  /** Marking twice with one cutoff changes nothing the second time, and a later cutoff
      subsumes an earlier one. */
  lemma {:induction false} MarkingIsIdempotent(rows: Rows, cutoff: Second, later: Second, stamp: string, again: string)
    requires cutoff <= later
    ensures MarkedExpired(MarkedExpired(rows, cutoff, stamp), cutoff, again) == MarkedExpired(rows, cutoff, stamp)
    ensures forall id :: id in rows ==>
              MarkedExpired(MarkedExpired(rows, cutoff, stamp), later, again)[id].status
              == MarkedExpired(rows, later, again)[id].status
  {
    forall id | id in rows && Lapsed(rows[id], cutoff)
      ensures Lapsed(rows[id], later)
    {
      TextOrderIsTimeOrder(cutoff, later);
      if cutoff < later {
        LessTransitive(rows[id].expires, Format(cutoff), Format(later));
      }
    }
  }

  // ---------------------------------------------------------------- reads

  function TimeOf(text: string): Option<Instant> {
    if text == "" then Some(GO_ZERO)
    else match Parse(text)
      case Some(s) => Some(s * NS)
      case None => None
  }

  function TimeOrZero(text: string): Instant {
    match TimeOf(text)
    case Some(t) => t
    case None => GO_ZERO
  }

  /** GetAnnouncement: no row, a row, or an error when one of the two times that the
      jobs use does not parse. The two bookkeeping times never fail. */
  function Read(rows: Rows, id: string): Result<Option<Announcement>, ReadError> {
    if id !in rows then Success(None)
    else
      var row := rows[id];
      match TimeOf(row.lastAnnounced)
      case None => Failure(BadLastAnnounced)
      case Some(last) =>
        match TimeOf(row.expires)
        case None => Failure(BadExpires)
        case Some(expires) =>
          Success(Some(Announcement(id, last, expires, row.status,
                                    TimeOrZero(row.createdAt), TimeOrZero(row.updatedAt))))
  }

  /** Reading a row back gives the times that were written, cut to whole seconds, and
      the creation time of the row's first write. */
  lemma {:induction false} ReadAfterUpsert(rows: Rows, id: string, last: Instant, expires: Instant, status: string,
                                           now: Instant)
    ensures Read(Upserted(rows, id, last, expires, status, now), id)
         == Success(Some(Announcement(id, last / NS * NS, expires / NS * NS, status,
                                      if id in rows then TimeOrZero(rows[id].createdAt) else now / NS * NS,
                                      now / NS * NS)))
    ensures forall other :: other != id ==>
              Read(Upserted(rows, id, last, expires, status, now), other) == Read(rows, other)
  {
    hide Parse, Stamp, Format;
    TimeOfColumn(last);
    TimeOfColumn(expires);
    TimeOfStamp(now);
  }

  lemma {:induction false} TimeOfStamp(t: Instant)
    ensures TimeOf(Stamp(t)) == Some(t / NS * NS)
  {
    hide Parse, Format;
    RoundTrip(t / NS, Stamp(t));
  }

  lemma {:induction false} TimeOfColumn(t: Instant)
    ensures TimeOf(Column(t)) == Some(t / NS * NS)
  {
    hide Parse, Stamp;
    TimeOfStamp(t);
  }

  /** On a row whose expiry parses, the text comparison of the statement is the comparison
      of the instants. */
  lemma {:induction false} LapsedByTime(row: Row, cutoff: Second)
    requires Parse(row.expires).Some?
    ensures Lapsed(row, cutoff) <==> row.status != "expired" && Parse(row.expires).value < cutoff
  {
    hide Format, Parse;
    RoundTrip(Parse(row.expires).value, row.expires);
    TextOrderIsTimeOrder(Parse(row.expires).value, cutoff);
  }

  // ---------------------------------------------------------------- the table

  class AnnouncementsRepo {
    var rows: Rows

    constructor ()
      ensures rows == map[]
    {
      rows := map[];
    }

    method UpsertAnnouncementStatus(id: string, last: Instant, expires: Instant, status: string,
                                    now: Instant, fails: bool) returns (ok: bool)
      modifies this
      ensures ok == !fails
      ensures rows == if ok then Upserted(old(rows), id, last, expires, status, now) else old(rows)
    {
      hide Format;
      var lastText := "";
      if last != GO_ZERO {
        lastText := Stamp(last);
      }
      var expiresText := "";
      if expires != GO_ZERO {
        expiresText := Stamp(expires);
      }
      var nowText := Stamp(now);
      if fails {
        return false;
      }
      if id in rows {
        rows := rows[id := rows[id].(lastAnnounced := lastText, expires := expiresText,
                                     status := status, updatedAt := nowText)];
      } else {
        rows := rows[id := Row(lastText, expiresText, status, nowText, nowText)];
      }
      return true;
    }

    /** The rows affected are exactly those that lapsed; `stamp` is the wall clock's text. */
    method MarkExpiredBefore(cutoffUnix: int, stamp: string, fails: bool) returns (affected: Option<nat>)
      requires 0 <= cutoffUnix + UNIX_EPOCH < SECONDS_TO_YEAR_10000
      modifies this
      ensures affected.None? <==> fails
      ensures fails ==> rows == old(rows)
      ensures !fails ==>
                && rows == MarkedExpired(old(rows), cutoffUnix + UNIX_EPOCH, stamp)
                && affected == Some(|set id | id in rows && rows[id].status != old(rows)[id].status|)
    {
      hide Format, MarkedExpired;
      if fails {
        return None;
      }
      var cutoff: Second := FromUnix(cutoffUnix) / NS;
      var hit := set id | id in rows && Lapsed(rows[id], cutoff);
      AffectedRows(rows, cutoff, stamp);
      rows := MarkedExpired(rows, cutoff, stamp);
      return Some(|hit|);
    }
  }
}
