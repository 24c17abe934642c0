/** The `/api/v1.0/precipitation` route: a date -> prcp dictionary. */
module PrecipitationRoute {
  import opened Wrappers
  import opened Climate
  import opened LastWins

  /** `session.query(measurement.date, measurement.prcp).all()`. */
  function DatePrcpRows(ms: seq<Measurement>): seq<(string, Option<real>)>
  {
    seq(|ms|, i requires 0 <= i < |ms| => (ms[i].date, ms[i].prcp))
  }

  /**
   * The dictionary loop: one key per distinct date among the rows, holding
   * the precipitation of the last row on that date (rows of other stations
   * on the same date are overwritten).
   */
  method Precipitation(ms: seq<Measurement>) returns (prcpByDate: map<string, Option<real>>)
    ensures prcpByDate.Keys == set i | 0 <= i < |ms| :: ms[i].date
    ensures forall i :: 0 <= i < |ms| && IsLastOfKey(DatePrcpRows(ms), i) ==> prcpByDate[ms[i].date] == ms[i].prcp
  {
    var rows := DatePrcpRows(ms);
    prcpByDate := map[];
    for i := 0 to |rows|
      invariant prcpByDate == FromPairs(rows[..i])
    {
      var (date, prcp) := rows[i];
      prcpByDate := prcpByDate[date := prcp];
      assert rows[..i + 1][..i] == rows[..i];
    }
    assert rows[..|rows|] == rows;
    FromPairsKeys(rows);
    ghost var keys := set i | 0 <= i < |ms| :: ms[i].date;
    forall k | k in keys
      ensures k in set i | 0 <= i < |rows| :: rows[i].0
    {
      var i :| 0 <= i < |ms| && ms[i].date == k;
      assert rows[i].0 == k;
    }
    forall i | 0 <= i < |ms| && IsLastOfKey(DatePrcpRows(ms), i)
      ensures ms[i].date in prcpByDate && prcpByDate[ms[i].date] == ms[i].prcp
    {
      FromPairsLastWins(rows, i);
    }
  }
}
