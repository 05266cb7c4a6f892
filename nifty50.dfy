/**
 * nifty50.py: repairs the header row, then appends exactly one row: the
 * spot price inside trading hours, a skip marker outside them, or the
 * error text when the fetch or the append raises.
 */
module Nifty50 {
  import opened Wrappers
  import opened Sheets
  import opened Clock

  const Headers: Row := [Str("Timestamp"), Str("Price"), Str("Status")]

  const WindowOpen: TimeOfDay := At(9, 12, 0, 0)
  const WindowClose: TimeOfDay := At(15, 45, 0, 0)

  /** `09:12 <= now.time() <= 15:45`: 09:12:00.000000 to 15:45:00.000000 inclusive. */
  function InTradingHours(t: TimeOfDay): (inside: bool)
    ensures inside <==> 33_120_000_000 <= t <= 56_700_000_000
  {
    InWindow(t, WindowOpen, WindowClose)
  }

  const SkipText: string := "Skipped (Outside Trading Hours)"
  const ErrorPrefix: string := "Error: "

  /** Which of the three rows a run writes. */
  datatype Status = Ok(price: real) | Skipped | Error(message: string)

  /** The row written for a status: timestamp, price or "-", status text. */
  function StatusRow(timestamp: string, status: Status): (row: Row)
    ensures |row| == |Headers|
    ensures row[0] == Str(timestamp)
    ensures row[1] == (if status.Ok? then Num(status.price) else Str("-"))
    ensures row[2] == Str(if status.Ok? then "OK" else if status.Skipped? then SkipText else ErrorPrefix + status.message)
  {
    match status
    case Ok(p) => [Str(timestamp), Num(p), Str("OK")]
    case Skipped => [Str(timestamp), Str("-"), Str(SkipText)]
    case Error(m) => [Str(timestamp), Str("-"), Str(ErrorPrefix + m)]
  }

  /**
   * The status of a run at time of day `t`, given the outcome of the fetch
   * (the spot price or the exception text) and whether the first append
   * raised (with its exception text).
   */
  function Classify(t: TimeOfDay, fetch: Result<real, string>, appendFault: Option<string>): (st: Status)
    ensures st.Ok? <==> InTradingHours(t) && fetch.Success? && appendFault.None?
    ensures st.Ok? ==> st.price == fetch.value
    ensures st.Skipped? <==> !InTradingHours(t) && appendFault.None?
    ensures st.Error? ==> if InTradingHours(t) && fetch.Failure? then st.message == fetch.error else appendFault == Some(st.message)
  {
    if InTradingHours(t) then
      match fetch
      case Failure(m) => Error(m)
      case Success(p) => if appendFault.Some? then Error(appendFault.value) else Ok(p)
    else if appendFault.Some? then Error(appendFault.value)
    else Skipped
  }

  /** Both ends of the window are included; 15:45 plus any microseconds is outside. */
  lemma TradingHoursBounds()
    ensures InTradingHours(At(9, 12, 0, 0)) && !InTradingHours(At(9, 11, 59, 999_999))
    ensures InTradingHours(At(15, 45, 0, 0))
    ensures forall us: nat :: 0 < us < MicrosPerSecond ==> !InTradingHours(At(15, 45, 0, us))
  {
  }

  /** No error text reads as the skip marker. */
  lemma ErrorTextIsNotSkipText(m: string)
    ensures ErrorPrefix + m != SkipText
  {
    assert (ErrorPrefix + m)[0] == 'E';
  }

  /** Each of the three rows is told apart by its cells: the row determines the status. */
  lemma StatusRowInjective(timestamp: string, s1: Status, s2: Status)
    requires StatusRow(timestamp, s1) == StatusRow(timestamp, s2)
    ensures s1 == s2
  {
    if s1.Error? && s2.Error? {
      assert (ErrorPrefix + s1.message)[|ErrorPrefix|..] == s1.message;
      assert (ErrorPrefix + s2.message)[|ErrorPrefix|..] == s2.message;
    } else if s1.Error? {
      ErrorTextIsNotSkipText(s1.message);
    } else if s2.Error? {
      ErrorTextIsNotSkipText(s2.message);
    }
  }

  /** Outside trading hours the fetch is not performed: its outcome has no effect. */
  lemma SkipIgnoresFetch(t: TimeOfDay, f1: Result<real, string>, f2: Result<real, string>, appendFault: Option<string>)
    requires !InTradingHours(t)
    ensures Classify(t, f1, appendFault) == Classify(t, f2, appendFault)
  {
  }

  /** The sheet after header repair: row 1 is the header, later rows are kept. */
  function HeaderRepaired(rows: seq<Row>): (r: seq<Row>)
    ensures |r| == Max(|rows|, 1)
    ensures r[0] == Headers
    ensures forall i :: 1 <= i < |rows| ==> r[i] == rows[i]
    ensures |rows| > 0 && rows[0] == Headers ==> r == rows
  {
    [Headers] + (if |rows| == 0 then [] else rows[1..])
  }

  /** If row 1 differs from the header, delete it and insert the header as row 1. */
  method RepairHeaders(sheet: Sheet)
    modifies sheet
    ensures sheet.rows == HeaderRepaired(old(sheet.rows))
    ensures sheet.RowValues(1) == Headers
    ensures old(sheet.RowValues(1)) == Headers ==> sheet.rows == old(sheet.rows)
  {
    var first := sheet.RowValues(1);
    if first != Headers {
      ReplaceFirstRow(sheet.rows, Headers);
      sheet.DeleteRow(1);
      sheet.InsertRow(Headers, 1);
    }
  }

  /**
   * The main `try` block and its handler. `appendFault` is the exception
   * text if the first append raises; `errorAppendFails` says whether the
   * append of the error row raises too, which is only printed.
   */
  method LogOutcome(sheet: Sheet, timestamp: string, now: TimeOfDay, fetch: Result<real, string>,
                    appendFault: Option<string>, errorAppendFails: bool)
    returns (status: Status, written: bool)
    modifies sheet
    ensures status == Classify(now, fetch, appendFault)
    ensures written <==> !(status.Error? && errorAppendFails)
    ensures sheet.rows == if written then old(sheet.rows) + [StatusRow(timestamp, status)] else old(sheet.rows)
  {
    var raised: Option<string> := None;
    if InTradingHours(now) {
      match fetch
      case Failure(m) =>
        raised := Some(m);
      case Success(price) =>
        status := Ok(price);
        if appendFault.None? {
          sheet.AppendRow(StatusRow(timestamp, status));
        } else {
          raised := appendFault;
        }
    } else {
      status := Skipped;
      if appendFault.None? {
        sheet.AppendRow(StatusRow(timestamp, status));
      } else {
        raised := appendFault;
      }
    }
    written := true;
    if raised.Some? {
      status := Error(raised.value);
      if errorAppendFails {
        written := false;
      } else {
        sheet.AppendRow(StatusRow(timestamp, status));
      }
    }
  }

  /** One run of the script after the sheet is opened: header repair, then one row. */
  method Run(sheet: Sheet, timestamp: string, now: TimeOfDay, fetch: Result<real, string>,
             appendFault: Option<string>, errorAppendFails: bool)
    returns (status: Status, written: bool)
    modifies sheet
    ensures status == Classify(now, fetch, appendFault)
    ensures written <==> !(status.Error? && errorAppendFails)
    ensures sheet.rows == HeaderRepaired(old(sheet.rows)) + (if written then [StatusRow(timestamp, status)] else [])
  {
    RepairHeaders(sheet);
    status, written := LogOutcome(sheet, timestamp, now, fetch, appendFault, errorAppendFails);
  }
}
