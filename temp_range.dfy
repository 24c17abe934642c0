/**
 * The `/api/v1.0/<start>/<end>` route: per-date minimum, average and
 * maximum of the temperature observations between two dates.
 */
module TempRangeRoute {
  import opened Wrappers
  import opened Climate
  import opened IsoDate

  /** `measurement.date >= start` and `measurement.date <= end`, compared as text. */
  predicate InRange(m: Measurement, start: string, end: string) {
    TextLe(start, m.date) && TextLe(m.date, end)
  }

  /** The rows the two filters keep, in table order. */
  function RangeRows(ms: seq<Measurement>, start: string, end: string): (r: seq<Measurement>)
    ensures forall m :: m in r ==> m in ms && InRange(m, start, end)
    ensures forall i :: 0 <= i < |ms| && InRange(ms[i], start, end) ==> ms[i] in r
    ensures forall m :: multiset(r)[m] == if InRange(m, start, end) then multiset(ms)[m] else 0
  {
    if ms == [] then []
    else
      var m := ms[|ms| - 1];
      var init := ms[..|ms| - 1];
      assert ms == init + [m];
      RangeRows(init, start, end) + (if InRange(m, start, end) then [m] else [])
  }

  /** The `group_by(measurement.date)` keys: each date of the rows, once. */
  function DistinctDates(rows: seq<Measurement>): (ds: seq<string>)
    ensures forall k, l :: 0 <= k < l < |ds| ==> ds[k] != ds[l]
    ensures forall i :: 0 <= i < |rows| ==> rows[i].date in ds
    ensures forall d :: d in ds ==> exists i :: 0 <= i < |rows| && rows[i].date == d
  {
    if rows == [] then []
    else
      var init := rows[..|rows| - 1];
      var date := rows[|rows| - 1].date;
      var ds := DistinctDates(init);
      assert forall i :: 0 <= i < |init| ==> init[i] == rows[i];
      if date in ds then ds else ds + [date]
  }

  /** How many rows on `date` carry the reading v. */
  function ReadingCount(rows: seq<Measurement>, date: string, v: real): nat
  {
    if rows == [] then 0
    else
      var m := rows[|rows| - 1];
      ReadingCount(rows[..|rows| - 1], date, v) + (if m.date == date && m.tobs == Some(v) then 1 else 0)
  }

  /** The non-NULL `tobs` values of the rows on `date`, one per row (SQL aggregates skip NULL). */
  function Readings(rows: seq<Measurement>, date: string): (vs: seq<real>)
    ensures forall v :: v in vs ==> exists i :: 0 <= i < |rows| && rows[i].date == date && rows[i].tobs == Some(v)
    ensures forall i :: 0 <= i < |rows| && rows[i].date == date && rows[i].tobs.Some? ==> rows[i].tobs.value in vs
    ensures forall v :: multiset(vs)[v] == ReadingCount(rows, date, v)
  {
    if rows == [] then []
    else
      var m := rows[|rows| - 1];
      var init := rows[..|rows| - 1];
      assert forall i :: 0 <= i < |init| ==> init[i] == rows[i];
      Readings(init, date) + (if m.date == date && m.tobs.Some? then [m.tobs.value] else [])
  }

  /** `func.min`. */
  function Minimum(vs: seq<real>): (r: real)
    requires vs != []
    ensures r in vs && forall v :: v in vs ==> r <= v
  {
    if |vs| == 1 then vs[0]
    else
      var rest := Minimum(vs[1..]);
      assert forall v :: v in vs ==> v == vs[0] || v in vs[1..];
      if vs[0] <= rest then vs[0] else rest
  }

  /** `func.max`. */
  function Maximum(vs: seq<real>): (r: real)
    requires vs != []
    ensures r in vs && forall v :: v in vs ==> v <= r
  {
    if |vs| == 1 then vs[0]
    else
      var rest := Maximum(vs[1..]);
      assert forall v :: v in vs ==> v == vs[0] || v in vs[1..];
      if vs[0] >= rest then vs[0] else rest
  }

  function Total(vs: seq<real>): real
  {
    if vs == [] then 0.0 else vs[0] + Total(vs[1..])
  }

  /** `func.avg`, as an exact mean. */
  function Mean(vs: seq<real>): (r: real)
    requires vs != []
    ensures r * (|vs| as real) == Total(vs)
  {
    Total(vs) / (|vs| as real)
  }

  /** One more copy of x adds x. */
  lemma AddCopy(n: real, x: real)
    ensures (n + 1.0) * x == n * x + x
  {
  }

  /** A lower bound on every value bounds the total from below by the count times the bound. */
  lemma {:induction false} TotalAtLeast(vs: seq<real>, lo: real)
    requires forall v :: v in vs ==> lo <= v
    ensures (|vs| as real) * lo <= Total(vs)
  {
    if vs != [] {
      var rest := vs[1..];
      assert forall v :: v in rest ==> v in vs;
      assert vs[0] in vs;
      TotalAtLeast(rest, lo);
      AddCopy(|rest| as real, lo);
    }
  }

  /** An upper bound on every value bounds the total from above by the count times the bound. */
  lemma {:induction false} TotalAtMost(vs: seq<real>, hi: real)
    requires forall v :: v in vs ==> v <= hi
    ensures Total(vs) <= (|vs| as real) * hi
  {
    if vs != [] {
      var rest := vs[1..];
      assert forall v :: v in rest ==> v in vs;
      assert vs[0] in vs;
      TotalAtMost(rest, hi);
      AddCopy(|rest| as real, hi);
    }
  }

  /** Dividing a total that n copies of a bound stay below (above) keeps the bound. */
  lemma QuotientBounds(t: real, n: real, lo: real, hi: real)
    requires n > 0.0
    requires n * lo <= t <= n * hi
    ensures lo <= t / n <= hi
  {
  }

  /** The average lies between the minimum and the maximum. */
  lemma MeanBetween(vs: seq<real>)
    requires vs != []
    ensures Minimum(vs) <= Mean(vs) <= Maximum(vs)
  {
    TotalAtLeast(vs, Minimum(vs));
    TotalAtMost(vs, Maximum(vs));
    QuotientBounds(Total(vs), |vs| as real, Minimum(vs), Maximum(vs));
  }

  /** One row of the grouped query: a date and its `min`, `avg` and `max` of tobs (NULL when it has none). */
  datatype DaySummary = DaySummary(date: string, tmin: Option<real>, tavg: Option<real>, tmax: Option<real>)

  /** The aggregates of the group of rows on `date`. */
  function Summarize(rows: seq<Measurement>, date: string): (g: DaySummary)
    ensures g.date == date
    ensures g.tmin.Some? == g.tavg.Some? == g.tmax.Some? == (Readings(rows, date) != [])
    ensures g.tmin.Some? ==> g.tmin.value in Readings(rows, date) && g.tmax.value in Readings(rows, date)
    ensures g.tmin.Some? ==> forall v :: v in Readings(rows, date) ==> g.tmin.value <= v <= g.tmax.value
    ensures g.tmin.Some? ==> g.tmin.value <= g.tavg.value <= g.tmax.value
    ensures g.tavg.Some? ==> g.tavg.value == Mean(Readings(rows, date))
  {
    var vs := Readings(rows, date);
    if vs == [] then DaySummary(date, None, None, None)
    else
      MeanBetween(vs);
      DaySummary(date, Some(Minimum(vs)), Some(Mean(vs)), Some(Maximum(vs)))
  }

  /** The query at the start of the route: filter, group by date, aggregate. */
  function Aggregate(ms: seq<Measurement>, start: string, end: string): (r: seq<DaySummary>)
    ensures |r| == |DistinctDates(RangeRows(ms, start, end))|
  {
    var rows := RangeRows(ms, start, end);
    var ds := DistinctDates(rows);
    seq(|ds|, k requires 0 <= k < |ds| => Summarize(rows, ds[k]))
  }

  /** Row k of the grouped query is the group of the k-th distinct date. */
  lemma AggregateAt(ms: seq<Measurement>, start: string, end: string, k: int)
    requires 0 <= k < |Aggregate(ms, start, end)|
    ensures Aggregate(ms, start, end)[k].date == DistinctDates(RangeRows(ms, start, end))[k]
  {
  }

  /** Every grouped row has a date between `start` and `end`, both included. */
  lemma AggregateWithinRange(ms: seq<Measurement>, start: string, end: string, k: int)
    requires 0 <= k < |Aggregate(ms, start, end)|
    ensures exists i :: 0 <= i < |ms| && InRange(ms[i], start, end) && ms[i].date == Aggregate(ms, start, end)[k].date
    ensures TextLe(start, Aggregate(ms, start, end)[k].date) && TextLe(Aggregate(ms, start, end)[k].date, end)
  {
    var rows := RangeRows(ms, start, end);
    var ds := DistinctDates(rows);
    AggregateAt(ms, start, end, k);
    assert ds[k] in ds;
    var j :| 0 <= j < |rows| && rows[j].date == ds[k];
    assert rows[j] in rows;
    var i :| 0 <= i < |ms| && ms[i] == rows[j];
  }

  /** No two grouped rows share a date. */
  lemma AggregateDistinct(ms: seq<Measurement>, start: string, end: string, k: int, l: int)
    requires 0 <= k < l < |Aggregate(ms, start, end)|
    ensures Aggregate(ms, start, end)[k].date != Aggregate(ms, start, end)[l].date
  {
    AggregateAt(ms, start, end, k);
    AggregateAt(ms, start, end, l);
  }

  /** Every measurement between `start` and `end` has the grouped row of its date. */
  lemma AggregateCovers(ms: seq<Measurement>, start: string, end: string, i: int)
    requires 0 <= i < |ms| && InRange(ms[i], start, end)
    ensures exists k :: 0 <= k < |Aggregate(ms, start, end)| && Aggregate(ms, start, end)[k].date == ms[i].date
  {
    var rows := RangeRows(ms, start, end);
    var ds := DistinctDates(rows);
    var j :| 0 <= j < |rows| && rows[j] == ms[i];
    var k :| 0 <= k < |ds| && ds[k] == rows[j].date;
    AggregateAt(ms, start, end, k);
  }

  /** Each grouped row carries the aggregates of the rows on its date. */
  lemma AggregateGroup(ms: seq<Measurement>, start: string, end: string, k: int)
    requires 0 <= k < |Aggregate(ms, start, end)|
    ensures Aggregate(ms, start, end)[k] == Summarize(RangeRows(ms, start, end), Aggregate(ms, start, end)[k].date)
  {
  }

  /** A range whose start lies after its end selects nothing and yields an empty result, not an error. */
  lemma AggregateOfReversedRange(ms: seq<Measurement>, start: string, end: string)
    requires !TextLe(start, end)
    ensures Aggregate(ms, start, end) == []
  {
    var r := Aggregate(ms, start, end);
    if r != [] {
      AggregateWithinRange(ms, start, end, 0);
      TextLeTransitive(start, r[0].date, end);
    }
  }

  /** The dictionary the route returns for one group, keyed `Date`, `TMaX`, `TMIN`, `TAVG`. */
  datatype TempRecord = TempRecord(Date: string, TMaX: Option<real>, TMIN: Option<real>, TAVG: Option<real>)

  /** The dictionary built from one grouped row. */
  function AsRecord(g: DaySummary): TempRecord
  {
    TempRecord(g.date, g.tmax, g.tmin, g.tavg)
  }

  /** Records built one per grouped row carry the grouped rows' guarantees. */
  lemma RecordsOfAggregate(ms: seq<Measurement>, start: string, end: string, records: seq<TempRecord>)
    requires |records| == |Aggregate(ms, start, end)|
    requires forall k :: 0 <= k < |records| ==> records[k] == AsRecord(Aggregate(ms, start, end)[k])
    ensures forall k :: 0 <= k < |records| ==> TextLe(start, records[k].Date) && TextLe(records[k].Date, end)
    ensures forall k, l :: 0 <= k < l < |records| ==> records[k].Date != records[l].Date
    ensures forall i :: 0 <= i < |ms| && InRange(ms[i], start, end) ==>
              exists k :: 0 <= k < |records| && records[k].Date == ms[i].date
    ensures forall k :: 0 <= k < |records| ==>
              (records[k].TMIN.Some? == records[k].TAVG.Some? == records[k].TMaX.Some?)
              && (records[k].TMIN.Some? ==> records[k].TMIN.value <= records[k].TAVG.value <= records[k].TMaX.value)
    ensures !TextLe(start, end) ==> records == []
  {
    forall k | 0 <= k < |records|
      ensures TextLe(start, records[k].Date) && TextLe(records[k].Date, end)
      ensures records[k].TMIN.Some? == records[k].TAVG.Some? == records[k].TMaX.Some?
      ensures records[k].TMIN.Some? ==> records[k].TMIN.value <= records[k].TAVG.value <= records[k].TMaX.value
    {
      AggregateWithinRange(ms, start, end, k);
      AggregateGroup(ms, start, end, k);
    }
    forall k, l | 0 <= k < l < |records| ensures records[k].Date != records[l].Date {
      AggregateDistinct(ms, start, end, k, l);
    }
    forall i | 0 <= i < |ms| && InRange(ms[i], start, end)
      ensures exists k :: 0 <= k < |records| && records[k].Date == ms[i].date
    {
      AggregateCovers(ms, start, end, i);
      var k :| 0 <= k < |Aggregate(ms, start, end)| && Aggregate(ms, start, end)[k].date == ms[i].date;
      assert records[k].Date == ms[i].date;
    }
    if !TextLe(start, end) {
      AggregateOfReversedRange(ms, start, end);
    }
  }

  /**
   * The route: one record per distinct date between `start` and `end`
   * (both included, compared as text), each carrying its group's minimum,
   * average and maximum.  The records go to a fresh list.
   */
  method TempRange(ms: seq<Measurement>, start: string, end: string) returns (records: seq<TempRecord>)
    ensures |records| == |Aggregate(ms, start, end)|
    ensures forall k :: 0 <= k < |records| ==> records[k] == AsRecord(Aggregate(ms, start, end)[k])
    ensures forall k :: 0 <= k < |records| ==> TextLe(start, records[k].Date) && TextLe(records[k].Date, end)
    ensures forall k, l :: 0 <= k < l < |records| ==> records[k].Date != records[l].Date
    ensures forall i :: 0 <= i < |ms| && InRange(ms[i], start, end) ==>
              exists k :: 0 <= k < |records| && records[k].Date == ms[i].date
    ensures forall k :: 0 <= k < |records| ==>
              (records[k].TMIN.Some? == records[k].TAVG.Some? == records[k].TMaX.Some?)
              && (records[k].TMIN.Some? ==> records[k].TMIN.value <= records[k].TAVG.value <= records[k].TMaX.value)
    ensures !TextLe(start, end) ==> records == []
  {
    records := RecordsOf(Aggregate(ms, start, end));
    RecordsOfAggregate(ms, start, end, records);
  }

  /** The loop of the route: one dictionary per grouped row, appended in the rows' order. */
  method RecordsOf(rows: seq<DaySummary>) returns (records: seq<TempRecord>)
    ensures |records| == |rows|
    ensures forall k :: 0 <= k < |rows| ==> records[k] == AsRecord(rows[k])
  {
    records := [];
    for i := 0 to |rows|
      invariant |records| == i
      invariant forall k :: 0 <= k < i ==> records[k] == AsRecord(rows[k])
    {
      var row := rows[i];
      var record := TempRecord(row.date, row.tmax, row.tmin, row.tavg);
      records := records + [record];
    }
  }
}
