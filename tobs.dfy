/**
 * The `/api/v1.0/tobs` route: the temperature observations of the most
 * active station over the year that ends at the latest date in the data.
 */
module TobsRoute {
  import opened Wrappers
  import opened Climate
  import opened Calendar
  import opened IsoDate

  /** `count(measurement.station)` in the group of station s. */
  function RowCount(ms: seq<Measurement>, s: string): (c: nat)
    ensures c <= |ms|
    ensures (exists i :: 0 <= i < |ms| && ms[i].station == s) ==> c > 0
  {
    if ms == [] then 0
    else RowCount(ms[..|ms| - 1], s) + (if ms[|ms| - 1].station == s then 1 else 0)
  }

  /** A station with no row has a count of zero, so it forms no group. */
  lemma {:induction false} RowCountOfAbsent(ms: seq<Measurement>, s: string)
    requires forall i :: 0 <= i < |ms| ==> ms[i].station != s
    ensures RowCount(ms, s) == 0
  {
    if ms != [] {
      RowCountOfAbsent(ms[..|ms| - 1], s);
    }
  }

  /** Among the stations of ms[..k], one whose group in ms is largest. */
  function BusiestAmong(ms: seq<Measurement>, k: int): (s: string)
    requires 0 < k <= |ms|
    ensures exists i :: 0 <= i < k && ms[i].station == s
    ensures forall i :: 0 <= i < k ==> RowCount(ms, ms[i].station) <= RowCount(ms, s)
  {
    if k == 1 then ms[0].station
    else
      var best := BusiestAmong(ms, k - 1);
      if RowCount(ms, ms[k - 1].station) > RowCount(ms, best) then ms[k - 1].station else best
  }

  /**
   * The first row of the station groups ordered by descending count.  Ties
   * are left to the database, so only some station with the largest count
   * is promised.
   */
  function MostActiveStation(ms: seq<Measurement>): (r: Result<string, Error>)
    ensures r.Failure? <==> ms == []
    ensures r.Failure? ==> r.error == EmptyDataset
  {
    if ms == [] then Failure(EmptyDataset) else Success(BusiestAmong(ms, |ms|))
  }

  /** The most active station reports in the data, and no station reports more often. */
  lemma MostActiveIsMaximal(ms: seq<Measurement>, s: string)
    requires MostActiveStation(ms).Success?
    ensures exists i :: 0 <= i < |ms| && ms[i].station == MostActiveStation(ms).value
    ensures RowCount(ms, s) <= RowCount(ms, MostActiveStation(ms).value)
  {
    if forall i :: 0 <= i < |ms| ==> ms[i].station != s {
      RowCountOfAbsent(ms, s);
    }
  }

  /** Every date of ms is at most b when every date of ms is at most a and a is at most b. */
  lemma DatesBelow(ms: seq<Measurement>, a: string, b: string)
    requires forall i :: 0 <= i < |ms| ==> TextLe(ms[i].date, a)
    requires TextLe(a, b)
    ensures forall i :: 0 <= i < |ms| ==> TextLe(ms[i].date, b)
  {
    forall i | 0 <= i < |ms| ensures TextLe(ms[i].date, b) {
      TextLeTransitive(ms[i].date, a, b);
    }
  }

  /** `session.query(measurement.date).order_by(measurement.date.desc()).first()[0]`. */
  function LatestDate(ms: seq<Measurement>): (r: string)
    requires ms != []
    ensures exists i :: 0 <= i < |ms| && ms[i].date == r
    ensures forall i :: 0 <= i < |ms| ==> TextLe(ms[i].date, r)
  {
    var last := ms[|ms| - 1].date;
    TextLeReflexive(last);
    if |ms| == 1 then last
    else
      var init := ms[..|ms| - 1];
      var prev := LatestDate(init);
      assert forall i :: 0 <= i < |init| ==> init[i] == ms[i];
      if TextLe(last, prev) then prev
      else
        TextLeTotal(last, prev);
        DatesBelow(init, prev, last);
        last
  }

  /**
   * `(strptime(last, '%Y-%m-%d') - timedelta(days=365)).strftime('%Y-%m-%d')`:
   * the date exactly 365 calendar days before `last`.
   */
  function YearBefore(last: string): (r: Result<string, Error>)
    ensures r.Failure? <==> Parse(last).None? || Ordinal(Parse(last).value) <= 365
    ensures Parse(last).None? ==> r == Failure(MalformedDate(last))
    ensures Parse(last).Some? && r.Failure? ==> r.error == DateOutOfRange
    ensures r.Success? ==> Parse(r.value).Some?
                           && Ordinal(Parse(r.value).value) + 365 == Ordinal(Parse(last).value)
    ensures r.Success? ==> TextLe(r.value, last) && r.value != last
  {
    match Parse(last)
    case None => Failure(MalformedDate(last))
    case Some(d) =>
      match MinusDays(d, 365)
      case None => Failure(DateOutOfRange)
      case Some(e) =>
        ParseFormat(e);
        TextOrderIsChronological(Format(e), last);
        Success(Format(e))
  }

  /** The inclusive date range [start, end] the observations are drawn from. */
  datatype Window = Window(start: string, end: string)

  /** `lastDate` and `query_date`. */
  function LastYearWindow(ms: seq<Measurement>): (r: Result<Window, Error>)
    ensures ms == [] ==> r == Failure(EmptyDataset)
    ensures ms != [] ==> (r.Failure? <==> Parse(LatestDate(ms)).None? || Ordinal(Parse(LatestDate(ms)).value) <= 365)
    ensures ms != [] && r.Failure? ==> r.error == YearBefore(LatestDate(ms)).error
    ensures r.Success? ==> ms != [] && (exists i :: 0 <= i < |ms| && ms[i].date == r.value.end)
    ensures r.Success? ==> forall i :: 0 <= i < |ms| ==> TextLe(ms[i].date, r.value.end)
    ensures r.Success? ==> Parse(r.value.start).Some? && Parse(r.value.end).Some?
                           && Ordinal(Parse(r.value.start).value) + 365 == Ordinal(Parse(r.value.end).value)
  {
    if ms == [] then Failure(EmptyDataset)
    else
      var last := LatestDate(ms);
      match YearBefore(last)
      case Failure(e) => Failure(e)
      case Success(start) => Success(Window(start, last))
  }

  /** One row of the tobs query result. */
  datatype Observation = Observation(date: string, tobs: Option<real>)

  /** The filter of the tobs query: station `s`, date within the window, both ends included. */
  predicate Selected(m: Measurement, s: string, w: Window) {
    m.station == s && TextLe(w.start, m.date) && TextLe(m.date, w.end)
  }

  /** How many measurements the filter keeps whose (date, tobs) row is `o`. */
  function MatchCount(ms: seq<Measurement>, s: string, w: Window, o: Observation): nat
  {
    if ms == [] then 0
    else
      var m := ms[|ms| - 1];
      MatchCount(ms[..|ms| - 1], s, w, o) + (if Selected(m, s, w) && Observation(m.date, m.tobs) == o then 1 else 0)
  }

  /** `session.query(measurement.date, measurement.tobs).filter(...).all()`: one row per kept measurement. */
  function StationObservations(ms: seq<Measurement>, s: string, w: Window): (r: seq<Observation>)
    ensures |r| <= |ms|
    ensures forall o :: multiset(r)[o] == MatchCount(ms, s, w, o)
    ensures forall o :: o in r ==> exists i :: 0 <= i < |ms| && Selected(ms[i], s, w) && o == Observation(ms[i].date, ms[i].tobs)
    ensures forall i :: 0 <= i < |ms| && Selected(ms[i], s, w) ==> Observation(ms[i].date, ms[i].tobs) in r
  {
    if ms == [] then []
    else
      var m := ms[|ms| - 1];
      var init := ms[..|ms| - 1];
      assert forall i :: 0 <= i < |init| ==> init[i] == ms[i];
      StationObservations(init, s, w) + (if Selected(m, s, w) then [Observation(m.date, m.tobs)] else [])
  }

  /** The route: the observations of the most active station within the last year of data. */
  function Tobs(ms: seq<Measurement>): (r: Result<seq<Observation>, Error>)
    ensures ms == [] ==> r == Failure(EmptyDataset)
    ensures r.Success? <==> LastYearWindow(ms).Success?
    ensures r.Failure? && ms != [] ==> r.error == LastYearWindow(ms).error
  {
    match MostActiveStation(ms)
    case Failure(e) => Failure(e)
    case Success(s) =>
      match LastYearWindow(ms)
      case Failure(e) => Failure(e)
      case Success(w) => Success(StationObservations(ms, s, w))
  }

  /**
   * What the route answers: every observation belongs to a most active
   * station and lies between the latest date and the date 365 days before
   * it, both included; and every such measurement is answered.
   */
  lemma TobsSoundAndComplete(ms: seq<Measurement>, o: Observation, i: int)
    requires Tobs(ms).Success?
    requires 0 <= i < |ms|
    ensures var s := MostActiveStation(ms).value;
            var w := LastYearWindow(ms).value;
            && (forall t :: RowCount(ms, t) <= RowCount(ms, s))
            && (o in Tobs(ms).value ==> exists j :: 0 <= j < |ms| && Selected(ms[j], s, w) && o == Observation(ms[j].date, ms[j].tobs))
            && (Selected(ms[i], s, w) ==> Observation(ms[i].date, ms[i].tobs) in Tobs(ms).value)
            && multiset(Tobs(ms).value)[o] == MatchCount(ms, s, w, o)
            && (forall j :: 0 <= j < |ms| ==> TextLe(ms[j].date, w.end))
            && Ordinal(Parse(w.start).value) + 365 == Ordinal(Parse(w.end).value)
  {
    var s := MostActiveStation(ms).value;
    forall t ensures RowCount(ms, t) <= RowCount(ms, s) {
      MostActiveIsMaximal(ms, t);
    }
  }

  /** An example latest date, 2017-08-23, opens its window on the same day a year before. */
  lemma YearBeforeExample()
    ensures YearBefore("2017-08-23") == Success("2016-08-23")
  {
    var d, e := Date(2017, 8, 23), Date(2016, 8, 23);
    FormatExamples();
    ParseFormat(d);
    MinusYearOfDays(d);
    assert MinusDays(d, 365) == Some(e);
  }

  lemma FormatExamples()
    ensures Format(Date(2017, 8, 23)) == "2017-08-23"
    ensures Format(Date(2016, 8, 23)) == "2016-08-23"
  {
    YearNumerals();
    DayNumerals();
    assert "2017" + ("-" + ("08" + ("-" + "23"))) == "2017-08-23";
    assert "2016" + ("-" + ("08" + ("-" + "23"))) == "2016-08-23";
  }

  lemma YearNumerals()
    ensures Digits(2017, 4) == "2017" && Digits(2016, 4) == "2016"
  {
    assert Digits(2, 1) == "2";
    assert Digits(20, 2) == "20";
    assert Digits(201, 3) == "201";
  }

  lemma DayNumerals()
    ensures Digits(8, 2) == "08" && Digits(23, 2) == "23"
  {
    assert Digits(0, 1) == "0" && Digits(2, 1) == "2";
  }
}
