/**
 * At-the-money strike selection and the 13-cell row built from it
 * (`append_atm_to_sheet` in Refreshcron.py).
 */
module Atm {
  import opened Wrappers
  import opened Sheets

  /** The fields of one option leg (the `CE` or `PE` object of a record), by key. */
  type Leg = map<string, Cell>

  /**
   * One element of `records.data`. Each key of the JSON object may be
   * missing; `ce`/`pe` are present exactly when the object has that key.
   */
  datatype Record = Record(strikePrice: Option<real>, expiryDate: Option<string>, ce: Option<Leg>, pe: Option<Leg>)

  /** The parts of the fetched option-chain document that the selection reads. */
  datatype Snapshot = Snapshot(underlyingValue: real, expiryDates: seq<string>, records: seq<Record>)

  /**
   * Why the selection raises: `min` of no candidates, or `d["strikePrice"]`
   * on a record with a call leg but no strike price.
   */
  datatype AtmError = NoCandidates | MissingStrikePrice

  /** The chosen expiry, the ATM strike and the legs of the record found for it. */
  datatype Selection = Selection(expiry: string, strike: real, ce: Leg, pe: Leg)

  /** The expiry used when the document lists none. */
  const NoExpiry: string := "N/A"

  /** The leg fields copied into the row, in column order. */
  const LegKeys: seq<string> := ["lastPrice", "impliedVolatility", "totalTradedVolume", "openInterest", "changeinOpenInterest"]

  /** The number of cells in an ATM row. */
  const RowWidth: nat := 3 + 2 * |LegKeys|

  /** The records whose expiry is `expiry`, in their original order. */
  function Filtered(recs: seq<Record>, expiry: string): (f: seq<Record>)
    ensures |f| <= |recs|
    ensures forall r :: r in f <==> r in recs && r.expiryDate == Some(expiry)
  {
    if |recs| == 0 then []
    else if recs[0].expiryDate == Some(expiry) then [recs[0]] + Filtered(recs[1..], expiry)
    else Filtered(recs[1..], expiry)
  }

  /** A record that carries a call leg. */
  predicate HasCall(r: Record) { r.ce.Some? }

  /**
   * The strike prices of the records that carry a call leg, or
   * MissingStrikePrice when one of those records has no strike price.
   */
  function CallStrikes(recs: seq<Record>): (c: Result<seq<real>, AtmError>)
    ensures c.Success? <==> forall r :: r in recs && HasCall(r) ==> r.strikePrice.Some?
    ensures c.Failure? ==> c.error == MissingStrikePrice
    ensures c.Success? ==> forall x :: x in c.value <==> exists r :: r in recs && HasCall(r) && r.strikePrice == Some(x)
  {
    if |recs| == 0 then Success([])
    else
      var rest := CallStrikes(recs[1..]);
      assert forall r :: r in recs <==> r == recs[0] || r in recs[1..];
      if !HasCall(recs[0]) then rest
      else if recs[0].strikePrice.None? then Failure(MissingStrikePrice)
      else if rest.Failure? then rest
      else Success([recs[0].strikePrice.value] + rest.value)
  }

  predicate Ascending(s: seq<real>)
  {
    forall i, j :: 0 <= i < j < |s| ==> s[i] <= s[j]
  }

  /** Prepending an element no greater than any element keeps a sequence ascending. */
  lemma AscendingCons(a: real, t: seq<real>)
    requires Ascending(t)
    requires forall y :: y in t ==> a <= y
    ensures Ascending([a] + t)
  {
    forall i, j | 0 <= i < j < |[a] + t| ensures ([a] + t)[i] <= ([a] + t)[j] {
      if i > 0 { assert ([a] + t)[i] == t[i - 1]; }
      assert ([a] + t)[j] == t[j - 1] && t[j - 1] in t;
    }
  }

  function InsertAscending(x: real, s: seq<real>): (r: seq<real>)
    requires Ascending(s)
    ensures Ascending(r)
    ensures forall y :: y in r ==> y == x || y in s
    ensures multiset(r) == multiset(s) + multiset{x}
  {
    if |s| == 0 then [x]
    else if x <= s[0] then
      AscendingCons(x, s);
      [x] + s
    else
      var t := InsertAscending(x, s[1..]);
      assert s == [s[0]] + s[1..];
      assert forall y :: y in s[1..] ==> s[0] <= y;
      AscendingCons(s[0], t);
      [s[0]] + t
  }

  /** The elements of `s` in ascending order (Python's `sorted`). */
  function SortedAscending(s: seq<real>): (r: seq<real>)
    ensures Ascending(r)
    ensures multiset(r) == multiset(s)
  {
    if |s| == 0 then []
    else
      assert s == [s[0]] + s[1..];
      InsertAscending(s[0], SortedAscending(s[1..]))
  }

  /** `abs(x - u)`. */
  function Distance(x: real, u: real): (d: real)
    ensures d >= 0.0 && (d == x - u || d == u - x)
  {
    if x >= u then x - u else u - x
  }

  /**
   * The index of the element `min(s, key=lambda x: abs(x - u))` returns:
   * an element at least as close to `u` as every other, and strictly
   * closer than every element before it (the first minimum is kept).
   */
  function FirstClosest(s: seq<real>, u: real): (k: nat)
    requires |s| > 0
    ensures k < |s|
    ensures forall j :: 0 <= j < |s| ==> Distance(s[k], u) <= Distance(s[j], u)
    ensures forall j :: 0 <= j < k ==> Distance(s[k], u) < Distance(s[j], u)
  {
    if |s| == 1 then 0
    else
      var k := FirstClosest(s[1..], u) + 1;
      if Distance(s[0], u) <= Distance(s[k], u) then 0 else k
  }

  /** On an ascending sequence the first minimum is the lowest of the tied elements. */
  lemma FirstClosestIsLowestTie(s: seq<real>, u: real)
    requires |s| > 0 && Ascending(s)
    ensures forall j :: 0 <= j < |s| && Distance(s[j], u) == Distance(s[FirstClosest(s, u)], u) ==> s[FirstClosest(s, u)] <= s[j]
  {
  }

  /** The index of the first record with strike price `strike`, or |recs| when there is none. */
  function FirstWithStrike(recs: seq<Record>, strike: real): (k: nat)
    ensures k <= |recs|
    ensures k < |recs| ==> recs[k].strikePrice == Some(strike)
    ensures forall j :: 0 <= j < k ==> recs[j].strikePrice != Some(strike)
  {
    if |recs| == 0 then 0
    else if recs[0].strikePrice == Some(strike) then 0
    else 1 + FirstWithStrike(recs[1..], strike)
  }

  /** `d.get("CE", {})`: a leg that is missing reads as the empty object. */
  function LegOrEmpty(leg: Option<Leg>): (r: Leg)
    ensures leg.Some? ==> r == leg.value
    ensures leg.None? ==> r == map[]
  {
    if leg.Some? then leg.value else map[]
  }

  /** `leg.get(key, "")`. */
  function FieldOrBlank(leg: Leg, key: string): (c: Cell)
    ensures key in leg ==> c == leg[key]
    ensures key !in leg ==> c == Str("")
  {
    if key in leg then leg[key] else Str("")
  }

  /** The cells of one leg, in the order of LegKeys; an absent field is blank. */
  function LegCells(leg: Leg): (r: Row)
    ensures |r| == |LegKeys|
    ensures forall i :: 0 <= i < |LegKeys| ==> r[i] == (if LegKeys[i] in leg then leg[LegKeys[i]] else Str(""))
    ensures leg == map[] ==> forall i :: 0 <= i < |LegKeys| ==> r[i] == Str("")
  {
    seq(|LegKeys|, i requires 0 <= i < |LegKeys| => FieldOrBlank(leg, LegKeys[i]))
  }

  /** The expiry the selection works on: the first listed one, or "N/A". */
  function Expiry(snap: Snapshot): (e: string)
    ensures |snap.expiryDates| > 0 ==> e == snap.expiryDates[0]
    ensures |snap.expiryDates| == 0 ==> e == "N/A"
  {
    if |snap.expiryDates| > 0 then snap.expiryDates[0] else NoExpiry
  }

  /** A record of expiry `e` with strike price `s`. */
  predicate Matches(r: Record, e: string, s: real)
  {
    r.expiryDate == Some(e) && r.strikePrice == Some(s)
  }

  /** `x` is the strike of some record of the chosen expiry that carries a call leg. */
  ghost predicate IsCandidate(snap: Snapshot, x: real)
  {
    exists r :: r in snap.records && r.expiryDate == Some(Expiry(snap)) && HasCall(r) && r.strikePrice == Some(x)
  }

  /** Some record of the chosen expiry carries a call leg but no strike price. */
  ghost predicate StrikeMissing(snap: Snapshot)
  {
    exists r :: r in snap.records && r.expiryDate == Some(Expiry(snap)) && HasCall(r) && r.strikePrice.None?
  }

  /** Sorting keeps exactly the elements it was given. */
  lemma SortedSameElements(s: seq<real>)
    ensures forall x :: x in SortedAscending(s) <==> x in s
  {
    var c := SortedAscending(s);
    forall x ensures x in c <==> x in s {
      assert x in c <==> x in multiset(c);
      assert x in s <==> x in multiset(s);
    }
  }

  /**
   * The call strikes of the filtered records are exactly the candidate
   * strikes, and listing them fails exactly when a strike is missing.
   */
  lemma CallStrikesOfExpiry(snap: Snapshot)
    ensures CallStrikes(Filtered(snap.records, Expiry(snap))).Success? <==> !StrikeMissing(snap)
    ensures CallStrikes(Filtered(snap.records, Expiry(snap))).Success? ==>
      forall x :: x in CallStrikes(Filtered(snap.records, Expiry(snap))).value <==> IsCandidate(snap, x)
  {
    var f := Filtered(snap.records, Expiry(snap));
    var calls := CallStrikes(f);
    if calls.Success? {
      forall x ensures x in calls.value <==> IsCandidate(snap, x) {
        if x in calls.value {
          var r :| r in f && HasCall(r) && r.strikePrice == Some(x);
          assert r in snap.records && r.expiryDate == Some(Expiry(snap));
        }
        if IsCandidate(snap, x) {
          var r :| r in snap.records && r.expiryDate == Some(Expiry(snap)) && HasCall(r) && r.strikePrice == Some(x);
          assert r in f;
        }
      }
    } else {
      var r :| r in f && HasCall(r) && r.strikePrice.None?;
      assert r in snap.records && r.expiryDate == Some(Expiry(snap));
    }
  }

  /** The candidates for the ATM strike: call strikes of the chosen expiry, sorted. */
  function Candidates(snap: Snapshot): (c: Result<seq<real>, AtmError>)
    ensures c.Success? <==> !StrikeMissing(snap)
    ensures c.Failure? ==> c.error == MissingStrikePrice
    ensures c.Success? ==> Ascending(c.value)
    ensures c.Success? ==> forall x :: x in c.value <==> IsCandidate(snap, x)
  {
    CallStrikesOfExpiry(snap);
    var calls :- CallStrikes(Filtered(snap.records, Expiry(snap)));
    SortedSameElements(calls);
    Success(SortedAscending(calls))
  }

  /** Of the elements of an ascending sequence, the first closest is no farther than any and lowest of ties. */
  lemma FirstClosestOfElements(s: seq<real>, u: real)
    requires |s| > 0 && Ascending(s)
    ensures forall x :: x in s ==> Distance(s[FirstClosest(s, u)], u) <= Distance(x, u)
    ensures forall x :: x in s && Distance(x, u) == Distance(s[FirstClosest(s, u)], u) ==> s[FirstClosest(s, u)] <= x
  {
    FirstClosestIsLowestTie(s, u);
  }

  /**
   * Looking a strike up in the filtered records finds the first record of
   * the whole list that has both the expiry and the strike, if any does.
   */
  lemma {:induction false} FilteredLookup(recs: seq<Record>, e: string, s: real)
    ensures FirstWithStrike(Filtered(recs, e), s) < |Filtered(recs, e)| ==>
      exists j :: 0 <= j < |recs| && recs[j] == Filtered(recs, e)[FirstWithStrike(Filtered(recs, e), s)] &&
        Matches(recs[j], e, s) && forall i :: 0 <= i < j ==> !Matches(recs[i], e, s)
    ensures FirstWithStrike(Filtered(recs, e), s) == |Filtered(recs, e)| ==>
      forall j :: 0 <= j < |recs| ==> !Matches(recs[j], e, s)
  {
    if |recs| > 0 {
      var f := Filtered(recs, e);
      var f' := Filtered(recs[1..], e);
      FilteredLookup(recs[1..], e, s);
      var k' := FirstWithStrike(f', s);
      if recs[0].expiryDate == Some(e) {
        assert f == [recs[0]] + f' && f[1..] == f';
        if recs[0].strikePrice == Some(s) {
          assert FirstWithStrike(f, s) == 0 && recs[0] == f[0];
        } else {
          assert FirstWithStrike(f, s) == 1 + k';
          if k' < |f'| {
            var j' :| 0 <= j' < |recs[1..]| && recs[1..][j'] == f'[k'] &&
              Matches(recs[1..][j'], e, s) && forall i :: 0 <= i < j' ==> !Matches(recs[1..][i], e, s);
            assert recs[j' + 1] == f[1 + k'];
            assert forall i :: 0 <= i < j' + 1 ==> !Matches(recs[i], e, s) by {
              forall i | 0 < i < j' + 1 ensures !Matches(recs[i], e, s) {
                assert recs[i] == recs[1..][i - 1];
              }
            }
          } else {
            forall j | 0 < j < |recs| ensures !Matches(recs[j], e, s) {
              assert recs[j] == recs[1..][j - 1];
            }
          }
        }
      } else {
        assert f == f';
        if k' < |f'| {
          var j' :| 0 <= j' < |recs[1..]| && recs[1..][j'] == f'[k'] &&
            Matches(recs[1..][j'], e, s) && forall i :: 0 <= i < j' ==> !Matches(recs[1..][i], e, s);
          assert recs[j' + 1] == f[k'];
          assert forall i :: 0 <= i < j' + 1 ==> !Matches(recs[i], e, s) by {
            forall i | 0 < i < j' + 1 ensures !Matches(recs[i], e, s) {
              assert recs[i] == recs[1..][i - 1];
            }
          }
        } else {
          forall j | 0 < j < |recs| ensures !Matches(recs[j], e, s) {
            assert recs[j] == recs[1..][j - 1];
          }
        }
      }
    }
  }

  /**
   * The ATM selection. It fails with MissingStrikePrice exactly when a call
   * record of the chosen expiry lacks a strike, and with NoCandidates
   * exactly when none is missing but there is no candidate. Otherwise the
   * strike is a candidate, no candidate is strictly closer to the
   * underlying value, and of equally close candidates it is the lowest.
   * The lookup then always finds a record: the legs are those of the first
   * record with the chosen expiry and that strike, which need not be the
   * record whose call leg made the strike a candidate.
   */
  function SelectAtm(snap: Snapshot): (r: Result<Selection, AtmError>)
    ensures r == Failure(MissingStrikePrice) <==> StrikeMissing(snap)
    ensures r == Failure(NoCandidates) <==> !StrikeMissing(snap) && forall x :: !IsCandidate(snap, x)
    ensures r.Success? ==> r.value.expiry == Expiry(snap) && IsCandidate(snap, r.value.strike)
    ensures r.Success? ==> forall x :: IsCandidate(snap, x) ==>
      Distance(r.value.strike, snap.underlyingValue) <= Distance(x, snap.underlyingValue)
    ensures r.Success? ==> forall x ::
      (IsCandidate(snap, x) && Distance(x, snap.underlyingValue) == Distance(r.value.strike, snap.underlyingValue)) ==>
      r.value.strike <= x
    ensures r.Success? ==> exists j ::
      && 0 <= j < |snap.records|
      && Matches(snap.records[j], r.value.expiry, r.value.strike)
      && r.value.ce == LegOrEmpty(snap.records[j].ce) && r.value.pe == LegOrEmpty(snap.records[j].pe)
      && forall i :: 0 <= i < j ==> !Matches(snap.records[i], r.value.expiry, r.value.strike)
  {
    match Candidates(snap)
    case Failure(e) => Failure(e)
    case Success(cands) =>
      if |cands| == 0 then Failure(NoCandidates)
      else
        assert cands[0] in cands;
        var expiry := Expiry(snap);
        var strike := cands[FirstClosest(cands, snap.underlyingValue)];
        FirstClosestOfElements(cands, snap.underlyingValue);
        assert strike in cands;
        var filtered := Filtered(snap.records, expiry);
        var k := FirstWithStrike(filtered, strike);
        FilteredLookup(snap.records, expiry, strike);
        var rec := if k < |filtered| then filtered[k] else Record(None, None, None, None);
        Success(Selection(expiry, strike, LegOrEmpty(rec.ce), LegOrEmpty(rec.pe)))
  }

  /** The row: timestamp, expiry, strike, the five call fields, the five put fields. */
  function BuildRow(timestamp: string, sel: Selection): (r: Row)
    ensures |r| == RowWidth
    ensures r[0] == Str(timestamp) && r[1] == Str(sel.expiry) && r[2] == Num(sel.strike)
    ensures forall i :: 0 <= i < |LegKeys| ==> r[3 + i] == FieldOrBlank(sel.ce, LegKeys[i])
    ensures forall i :: 0 <= i < |LegKeys| ==> r[3 + |LegKeys| + i] == FieldOrBlank(sel.pe, LegKeys[i])
  {
    [Str(timestamp), Str(sel.expiry), Num(sel.strike)] + LegCells(sel.ce) + LegCells(sel.pe)
  }

  /**
   * The row `append_atm_to_sheet` inserts, or the error it raises first:
   * a row exists exactly when the selection succeeds, is as wide as the
   * header and carries the selection in header order.
   */
  function AtmRow(snap: Snapshot, timestamp: string): (r: Result<Row, AtmError>)
    ensures r.Success? <==> SelectAtm(snap).Success?
    ensures r.Failure? ==> r.error == SelectAtm(snap).error
    ensures r.Success? ==>
      var sel := SelectAtm(snap).value;
      |r.value| == 13 && r.value[0] == Str(timestamp) && r.value[1] == Str(Expiry(snap)) && r.value[2] == Num(sel.strike) &&
      (forall i :: 0 <= i < 5 ==> r.value[3 + i] == FieldOrBlank(sel.ce, LegKeys[i]) && r.value[8 + i] == FieldOrBlank(sel.pe, LegKeys[i]))
  {
    var sel :- SelectAtm(snap);
    Success(BuildRow(timestamp, sel))
  }

  // ---------------------------------------------------------------------
  // Worked cases.

  /** A record of expiry `e` at `strike` with a call leg only. */
  function CallRecord(e: string, strike: real): Record
  {
    Record(Some(strike), Some(e), Some(map["lastPrice" := Num(1.0)]), None)
  }

  /**
   * The ATM strike is determined by the candidates alone: a candidate that
   * is strictly closer than every other candidate, or as close and lower,
   * is the one selected.
   */
  lemma SelectsBestCandidate(snap: Snapshot, s: real)
    requires !StrikeMissing(snap) && IsCandidate(snap, s)
    requires forall x :: IsCandidate(snap, x) && x != s ==>
      Distance(s, snap.underlyingValue) < Distance(x, snap.underlyingValue) ||
      (Distance(s, snap.underlyingValue) == Distance(x, snap.underlyingValue) && s < x)
    ensures SelectAtm(snap).Success? && SelectAtm(snap).value.strike == s
  {
  }

  /** Underlying 100 with strikes 90, 95, 100, 105: the ATM strike is 100. */
  lemma ExactMatch()
    ensures var snap := Snapshot(100.0, ["E"], [CallRecord("E", 90.0), CallRecord("E", 95.0), CallRecord("E", 100.0), CallRecord("E", 105.0)]);
      SelectAtm(snap).Success? && SelectAtm(snap).value.strike == 100.0
  {
    var snap := Snapshot(100.0, ["E"], [CallRecord("E", 90.0), CallRecord("E", 95.0), CallRecord("E", 100.0), CallRecord("E", 105.0)]);
    assert IsCandidate(snap, 100.0) by { assert snap.records[2] in snap.records; }
    SelectsBestCandidate(snap, 100.0);
  }

  /** Underlying 101 with strikes 95, 100, 105 (distances 6, 1, 4): the ATM strike is 100. */
  lemma NearestBelow()
    ensures var snap := Snapshot(101.0, ["E"], [CallRecord("E", 95.0), CallRecord("E", 100.0), CallRecord("E", 105.0)]);
      SelectAtm(snap).Success? && SelectAtm(snap).value.strike == 100.0
  {
    var snap := Snapshot(101.0, ["E"], [CallRecord("E", 95.0), CallRecord("E", 100.0), CallRecord("E", 105.0)]);
    assert IsCandidate(snap, 100.0) by { assert snap.records[1] in snap.records; }
    SelectsBestCandidate(snap, 100.0);
  }

  /** Underlying 97.5 with strikes 100 and 95 listed in that order: the tie goes to 95. */
  lemma TieGoesToLowerStrike()
    ensures var snap := Snapshot(97.5, ["E"], [CallRecord("E", 100.0), CallRecord("E", 95.0)]);
      SelectAtm(snap).Success? && SelectAtm(snap).value.strike == 95.0
  {
    var snap := Snapshot(97.5, ["E"], [CallRecord("E", 100.0), CallRecord("E", 95.0)]);
    assert IsCandidate(snap, 95.0) by { assert snap.records[1] in snap.records; }
    SelectsBestCandidate(snap, 95.0);
  }

  /** With no listed expiry and no record of expiry "N/A", `min` has nothing to choose from. */
  lemma NoExpiryNoCandidates(u: real, recs: seq<Record>)
    requires forall r :: r in recs ==> r.expiryDate != Some("N/A")
    ensures SelectAtm(Snapshot(u, [], recs)) == Failure(NoCandidates)
  {
  }

  /**
   * With the strike listed twice for the expiry, put leg first and call
   * leg second, the row takes the legs of the first record: the five call
   * cells are blank and the put's last price is filled in.
   */
  lemma DuplicateStrikeTakesFirstRecord()
    ensures var pe := map["lastPrice" := Num(2.0)];
      var snap := Snapshot(100.0, ["E"], [Record(Some(100.0), Some("E"), None, Some(pe)), CallRecord("E", 100.0)]);
      SelectAtm(snap) == Success(Selection("E", 100.0, map[], pe)) &&
      AtmRow(snap, "t").Success? && AtmRow(snap, "t").value[8] == Num(2.0) &&
      forall i :: 3 <= i < 8 ==> AtmRow(snap, "t").value[i] == Str("")
  {
    var pe := map["lastPrice" := Num(2.0)];
    var snap := Snapshot(100.0, ["E"], [Record(Some(100.0), Some("E"), None, Some(pe)), CallRecord("E", 100.0)]);
    assert IsCandidate(snap, 100.0) by { assert snap.records[1] in snap.records; }
    SelectsBestCandidate(snap, 100.0);
    var sel := SelectAtm(snap).value;
    assert sel.expiry == "E" && sel.strike == 100.0;
    var j :| 0 <= j < |snap.records| && Matches(snap.records[j], sel.expiry, sel.strike) &&
      sel.ce == LegOrEmpty(snap.records[j].ce) && sel.pe == LegOrEmpty(snap.records[j].pe) &&
      forall i :: 0 <= i < j ==> !Matches(snap.records[i], sel.expiry, sel.strike);
    assert j == 0;
    assert sel.ce == map[] && sel.pe == pe;
    var row := AtmRow(snap, "t").value;
    assert row[8] == FieldOrBlank(pe, LegKeys[0]);
    forall i | 3 <= i < 8 ensures row[i] == Str("") {
      assert row[3 + (i - 3)] == FieldOrBlank(sel.ce, LegKeys[i - 3]);
    }
  }
}
