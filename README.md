# refreshcron, modelled in Dafny

Two cron scripts read the NIFTY option chain and log rows to a Google
spreadsheet:

- `Refreshcron.py` runs only within market hours, 09:15:00 to 15:30:00
  inclusive. It writes the 13-column header over `A1:M1` and picks the
  at-the-money (ATM) strike. That strike is the call-carrying strike of the
  first listed expiry (`expiryDates[0]`) that lies closest to the
  underlying value. The script
  builds a 13-cell row for it and inserts the row as row 2, so the newest
  row always sits directly under the header.
- `nifty50.py` first makes row 1 equal `["Timestamp", "Price", "Status"]`.
  It then appends at most one row: `[timestamp, price, "OK"]` within
  09:12 to 15:45 inclusive, `[timestamp, "-", "Skipped (Outside Trading
  Hours)"]` outside that window, or `[timestamp, "-", "Error: " + message]`
  when the fetch or the append raises. If appending that error row raises
  too, the exception is only printed and no row is appended.

The project has six modules:

- `Wrappers` (`wrappers.dfy`) holds `Option` and `Result`.
- `Sheets` (`sheet.dfy`) holds cells, the row-sequence effect of each
  spreadsheet call, and the class `Sheet`, whose `rows` field those calls
  reassign.
- `Clock` (`clock.dfy`) models time of day as microseconds since midnight,
  with an inclusive window test.
- `Atm` (`atm.dfy`) holds the ATM selection and the row built from it, as
  pure functions with lemmas.
- `Refreshcron` (`refreshcron.dfy`) and `Nifty50` (`nifty50.dfy`) model
  the two scripts' main blocks. Each is a method that
  updates a `Sheet`, checked against pure functions.

Prices are exact `real`s. A JSON object key that may be missing is an
`Option`. A missing `CE`/`PE` leg reads as the empty object, and a missing
field as `""`. Several things are inputs to the model:

- the time of day;
- the timestamp text;
- the fetched document, or the fetch's error text;
- for `nifty50.py`, whether each sheet append raises.

Only nifty50.py converts the clock to India Standard Time
(nifty50.py:13-17). `Refreshcron.py:16` reads the host's local clock with
`datetime.now()`, even though its market hours are IST hours. The model
follows the code: both scripts take the time of day as an input.

## Model

| member | source | states |
|---|---|---|
| `Sheets.Inserted` | Refreshcron.py:69 | the new row becomes row `index`; rows above it are kept (blank past the end), rows from `index` on move down by one |
| `Sheets.Deleted` | nifty50.py:60 | row `index` is removed and later rows move up by one; deleting past the end changes nothing |
| `Sheets.Overwritten` | Refreshcron.py:77-81 | the cells of the written range take the new values; cells to the right of the range keep theirs |
| `Sheets.FirstRowWritten` | Refreshcron.py:77-81 | writing `A1:M1` changes only row 1 (creating it on an empty sheet) and keeps every other row |
| `Sheets.InsertUnderHeader` | Refreshcron.py:69 | inserting at row 2 keeps row 1, puts the new row second and shifts every earlier row from row 2 on down by one |
| `Sheets.ReplaceFirstRow` | nifty50.py:60-61 | deleting row 1 and inserting at row 1 replaces row 1 and keeps all other rows |
| `Sheets.Sheet.RowValues` | nifty50.py:58 | row 1's values, or the empty row when the sheet has none |
| `Sheets.Sheet.AppendRow` | nifty50.py:89 | the row is added after the last row; earlier rows are unchanged |
| `Sheets.Sheet.InsertRow` | Refreshcron.py:69 | the rows become `Inserted(old rows, row, index)` |
| `Sheets.Sheet.DeleteRow` | nifty50.py:60 | the rows become `Deleted(old rows, index)` |
| `Sheets.Sheet.UpdateFirstRow` | Refreshcron.py:77-81 | the rows become `FirstRowWritten(old rows, values)` |
| `Clock.At` | Refreshcron.py:17-18 | hh:mm:ss.uuuuuu as microseconds since midnight; the hour, minute, second and microsecond read back out of it unchanged |
| `Clock.InWindow` | Refreshcron.py:20 | the chained `open <= t <= close`: inside exactly when `t` is neither before `open` nor after `close`, both bounds included |
| `Clock.AtIncreasing` | Refreshcron.py:17-20 | a later hh:mm:ss.uuuuuu reading is a larger time of day, so comparing datetimes of one day means comparing times of day |
| `Atm.Filtered` | Refreshcron.py:44 | holds exactly the records whose `expiryDate` equals the chosen expiry; a record without one is never kept |
| `Atm.CallStrikes` | Refreshcron.py:45 | holds exactly the strikes of the records that carry `CE`; fails precisely when such a record has no `strikePrice` (the `KeyError`) |
| `Atm.SortedAscending` | Refreshcron.py:45 | the result is ascending and a permutation of the input |
| `Atm.Distance` | Refreshcron.py:47 | `abs(x - u)`: non-negative and equal to `x - u` or `u - x` |
| `Atm.FirstClosest` | Refreshcron.py:47 | `min` with a key: an index whose element is no farther from `u` than any other, and strictly closer than every element before it |
| `Atm.FirstClosestIsLowestTie` | Refreshcron.py:45-47 | on an ascending list the first minimum is the lowest of all equally close elements |
| `Atm.Expiry` | Refreshcron.py:42 | the expiry is `expiryDates[0]`, or `"N/A"` when the list is empty |
| `Atm.CallStrikesOfExpiry` | Refreshcron.py:44-45 | the call strikes of the filtered records are exactly the strikes of records with the chosen expiry and a `CE` leg; listing fails exactly when such a record lacks a strike |
| `Atm.Candidates` | Refreshcron.py:44-45 | the candidates are ascending and are exactly the strikes of records with the chosen expiry and a `CE` leg; `KeyError` exactly when such a record lacks a strike |
| `Atm.FirstWithStrike` | Refreshcron.py:48 | `next(...)`: the first record with that strike, or the end when none has it (the `{}` default) |
| `Atm.LegOrEmpty` | Refreshcron.py:50-51 | `get("CE", {})`: the leg when present, the empty object when absent |
| `Atm.FieldOrBlank` | Refreshcron.py:57-66 | `get(key, "")`: the field's value when present, `""` when absent |
| `Atm.LegCells` | Refreshcron.py:57-66 | the five leg fields in column order, with the key spelled `changeinOpenInterest`; each absent field is `""`, so an absent leg gives five `""` cells |
| `Atm.SelectAtm` | Refreshcron.py:42-51 | raises `KeyError` exactly when a chosen-expiry CE record lacks a strike, and the empty-`min` error exactly when there is otherwise no candidate; on success the strike is a candidate, no candidate is strictly closer to the underlying value, it is the lowest of equally close candidates, and the legs are those of the first record with that expiry and strike |
| `Atm.BuildRow` | Refreshcron.py:53-67 | 13 cells: timestamp, expiry, strike, five CE fields, five PE fields |
| `Atm.AtmRow` | Refreshcron.py:40-67 | the row exists exactly when the selection succeeds, fails with the selection's error otherwise, and carries the timestamp, expiry, strike and the ten leg fields in header order |
| `Atm.SelectsBestCandidate` | Refreshcron.py:47 | a candidate strictly closer than all others, or as close and lower, is the one selected |
| `Atm.FilteredLookup` | Refreshcron.py:48 | looking a strike up in the filtered list finds the first record of the whole list with both the expiry and the strike, or shows that none exists |
| `Atm.ExactMatch` | Refreshcron.py:47 | underlying 100 with strikes 90, 95, 100, 105 selects 100 |
| `Atm.NearestBelow` | Refreshcron.py:47 | underlying 101 with strikes 95, 100, 105 selects 100 |
| `Atm.TieGoesToLowerStrike` | Refreshcron.py:45-47 | underlying 97.5 with strikes 100 and 95 (a tie) selects 95, whatever order the records came in |
| `Atm.NoExpiryNoCandidates` | Refreshcron.py:42-47 | with no listed expiry and no record of expiry "N/A", the selection raises instead of writing |
| `Atm.DuplicateStrikeTakesFirstRecord` | Refreshcron.py:48-51 | a strike listed first with only a put leg and then with a call leg yields the first record's legs, so the five CE cells of the row are `""` and the PE price is filled in |
| `Refreshcron.InMarketHours` | Refreshcron.py:17-20 | in market hours exactly from 09:15:00.000000 to 15:30:00.000000 inclusive, at microsecond precision |
| `Refreshcron.MarketHoursBounds` | Refreshcron.py:17-20 | 09:14:59 and 15:30:00.000001 are outside; 09:15:00 and 15:30:00 are inside |
| `Refreshcron.InHoursOutcome` | Refreshcron.py:83-87 | within market hours a row is logged exactly when the fetch and the selection succeed; otherwise the fetch error with its text, or the selection's error, is reported |
| `Refreshcron.LoggedRowUnderHeader` | Refreshcron.py:69-81 | after the header write and the insert, row 1 starts with the 13 headers, the new row is row 2, and the old rows from row 2 on follow unchanged |
| `Refreshcron.AppendAtmToSheet` | Refreshcron.py:40-69 | inserts the ATM row as row 2 when the selection succeeds; otherwise raises and leaves the sheet unchanged |
| `Refreshcron.Run` | Refreshcron.py:16-87 | outside market hours nothing is written; inside them the header is written, then the ATM row is inserted at row 2 when fetch and selection succeed |
| `Nifty50.StatusRow` | nifty50.py:87-100 | every outcome row has 3 cells, like the header: the timestamp, then the price or "-", then "OK", "Skipped (Outside Trading Hours)" or "Error: " followed by the message |
| `Nifty50.InTradingHours` | nifty50.py:84 | in the window exactly from 09:12:00.000000 to 15:45:00.000000 inclusive |
| `Nifty50.TradingHoursBounds` | nifty50.py:84 | 09:12:00 and 15:45:00 are inside, 09:11:59.999999 is outside, and 15:45 plus any microseconds is outside |
| `Nifty50.Classify` | nifty50.py:83-100 | OK with the fetched price exactly when in the window with a price and a successful append; Skipped exactly when outside with a successful append; otherwise Error with the message of the fetch, or else of the append |
| `Nifty50.StatusRowInjective` | nifty50.py:87-100 | the three kinds of row, and error rows with different messages, are all distinct |
| `Nifty50.SkipIgnoresFetch` | nifty50.py:91-95 | outside the window the outcome does not depend on the fetch, which is not performed |
| `Nifty50.HeaderRepaired` | nifty50.py:57-61 | after repair row 1 equals the header and all later rows are kept; a sheet whose row 1 already equals the header is unchanged |
| `Nifty50.RepairHeaders` | nifty50.py:57-64 | delete row 1 and insert the header only when row 1 differs; the sheet then equals `HeaderRepaired` of the old sheet |
| `Nifty50.LogOutcome` | nifty50.py:83-105 | appends the row for `Classify`'s status at the end; an error row that fails to append leaves the sheet unchanged |
| `Nifty50.Run` | nifty50.py:57-105 | the sheet ends as the repaired sheet plus the one outcome row, unless writing the error row failed |

## Left out

- Credential handling is not modelled. That covers the environment
  variable, base64 decoding, writing `credentials.json` and the `exit(1)`
  paths (nifty50.py:22-34, Refreshcron.py:11-13). All of it is OS and file I/O.
- Authorising gspread and opening the spreadsheet (nifty50.py:37-52,
  Refreshcron.py:25-28) are foreign calls, so they are not modelled.
- `SHEET.format` (Refreshcron.py:70-72) only sets a background colour, so
  it is not modelled. If it raised, the row would already be inserted.
- The HTTP fetches, their timeouts and the random sleep (Refreshcron.py:33-38,
  nifty50.py:69-77) are network I/O. The parsed document or the error text
  is an input instead. In Refreshcron.py a missing top-level key
  (`records`, `underlyingValue`, `expiryDates`, `data`) raises in the same
  `try` block. Its effect, no row written, is that of a failed fetch.
- Reading the clock, converting to IST with pytz and `strftime` formatting
  are library code. The time of day and the timestamp text are inputs.
- `print` diagnostics and process exit codes are not modelled.
- Python float semantics are not modelled. Prices are exact `real`s, and
  only subtraction, `abs` and comparison act on them.
- JSON values of unexpected types are not modelled. Examples are a `null`
  leg, a non-object record, or an expiry list holding non-strings.
- Sheet-side behaviour is abstracted:
  - the grid's size limit;
  - `USER_ENTERED` type coercion;
  - `row_values` dropping trailing blank cells.
  
  The sheet is its sequence of rows, and rows past the end are blank.
- These failures of sheet calls are not modelled:
  - a failing header write at Refreshcron.py:77, which the script does not
    catch;
  - a failing `insert_row` at Refreshcron.py:69, which is caught at
    Refreshcron.py:86-87 after the header has already been written.
    `AppendAtmToSheet` assumes the insert succeeds;
  - a failing `row_values`, delete or insert during header repair
    (nifty50.py:58-61), which nifty50.py:63-64 catches and prints.
