/**
 * Refreshcron.py: outside market hours it stops before touching the sheet;
 * otherwise it writes the header row, fetches the option chain and inserts
 * the ATM row as row 2, directly under the header.
 */
module Refreshcron {
  import opened Wrappers
  import opened Sheets
  import opened Clock
  import opened Atm

  const MarketOpen: TimeOfDay := At(9, 15, 0, 0)
  const MarketClose: TimeOfDay := At(15, 30, 0, 0)

  /** `start_time <= now <= end_time` on the same day: 09:15:00.000000 to 15:30:00.000000 inclusive. */
  function InMarketHours(t: TimeOfDay): (inside: bool)
    ensures inside <==> 33_300_000_000 <= t <= 55_800_000_000
  {
    InWindow(t, MarketOpen, MarketClose)
  }

  /** The header written over `A1:M1`. */
  const Headers: Row := [
    Str("Timestamp"), Str("Expiry Date"), Str("Strike Price"),
    Str("CE LTP"), Str("CE IV"), Str("CE Vol"), Str("CE OI"), Str("CE \U{0394}OI"),
    Str("PE LTP"), Str("PE IV"), Str("PE Vol"), Str("PE OI"), Str("PE \U{0394}OI")]

  /** The exception the `try` block reports: from the fetch, or from the selection. */
  datatype RunError = FetchFailed(message: string) | SelectionFailed(reason: AtmError)

  datatype Outcome = OutsideMarketHours | Logged(row: Row) | Failed(error: RunError)

  /**
   * What a run inside market hours ends with, given the fetched document
   * or the fetch error: a row is logged exactly when the fetch and the
   * selection both succeed, and a fetch error is reported with its text.
   */
  function InHoursOutcome(timestamp: string, fetched: Result<Snapshot, string>): (o: Outcome)
    ensures o.Logged? <==> fetched.Success? && SelectAtm(fetched.value).Success?
    ensures o.Logged? ==> |o.row| == |Headers| && o.row[0] == Str(timestamp)
    ensures fetched.Failure? ==> o == Failed(FetchFailed(fetched.error))
    ensures fetched.Success? && !o.Logged? ==> o == Failed(SelectionFailed(SelectAtm(fetched.value).error))
  {
    match fetched
    case Failure(m) => Failed(FetchFailed(m))
    case Success(snap) =>
      match AtmRow(snap, timestamp)
      case Failure(e) => Failed(SelectionFailed(e))
      case Success(row) => Logged(row)
  }

  /** Both ends of the window are included, at microsecond precision. */
  lemma MarketHoursBounds()
    ensures !InMarketHours(At(9, 14, 59, 0)) && InMarketHours(At(9, 15, 0, 0))
    ensures InMarketHours(At(15, 30, 0, 0)) && !InMarketHours(At(15, 30, 0, 1))
  {
  }

  /**
   * After the header is written and a row inserted at 2, row 1 starts with
   * the header, the new row is second, and all earlier rows from row 2 on
   * follow it unchanged.
   */
  lemma {:induction false} LoggedRowUnderHeader(rows: seq<Row>, row: Row)
    ensures var r := Inserted(FirstRowWritten(rows, Headers), row, 2);
      |r| == Max(|rows|, 1) + 1 && r[0][..|Headers|] == Headers && r[1] == row &&
      (|rows| > 0 ==> r[2..] == rows[1..])
  {
    var w := FirstRowWritten(rows, Headers);
    InsertUnderHeader(w, row);
    if |rows| > 0 {
      assert w[1..] == rows[1..];
    }
  }

  /** The body of `append_atm_to_sheet`: build the row and insert it as row 2. */
  method AppendAtmToSheet(sheet: Sheet, snap: Snapshot, timestamp: string) returns (r: Result<Row, AtmError>)
    modifies sheet
    ensures r == AtmRow(snap, timestamp)
    ensures sheet.rows == if r.Success? then Inserted(old(sheet.rows), r.value, 2) else old(sheet.rows)
  {
    r := AtmRow(snap, timestamp);
    if r.Success? {
      sheet.InsertRow(r.value, 2);
    }
  }

  /**
   * One run of the script. The clock reading, the timestamp text and the
   * outcome of the fetch are inputs.
   */
  method Run(sheet: Sheet, now: TimeOfDay, timestamp: string, fetched: Result<Snapshot, string>) returns (outcome: Outcome)
    modifies sheet
    ensures !InMarketHours(now) ==> outcome == OutsideMarketHours && sheet.rows == old(sheet.rows)
    ensures InMarketHours(now) ==> outcome == InHoursOutcome(timestamp, fetched)
    ensures InMarketHours(now) && outcome.Logged? ==>
      sheet.rows == Inserted(FirstRowWritten(old(sheet.rows), Headers), outcome.row, 2)
    ensures InMarketHours(now) && !outcome.Logged? ==> sheet.rows == FirstRowWritten(old(sheet.rows), Headers)
  {
    if !InMarketHours(now) {
      return OutsideMarketHours;
    }
    sheet.UpdateFirstRow(Headers);
    match fetched
    case Failure(m) =>
      outcome := Failed(FetchFailed(m));
    case Success(snap) =>
      var r := AppendAtmToSheet(sheet, snap, timestamp);
      outcome := if r.Success? then Logged(r.value) else Failed(SelectionFailed(r.error));
  }
}
