/** The `/api/v1.0/stations` route: a station id -> name dictionary. */
module StationsRoute {
  import opened Climate
  import opened LastWins

  /** The (station, name) rows of the `station` table. */
  function IdNameRows(stations: seq<Station>): seq<(string, string)>
  {
    seq(|stations|, i requires 0 <= i < |stations| => (stations[i].id, stations[i].name))
  }

  /**
   * The dictionary loop: a key for every station row, each holding the
   * name of the last row with that id.
   */
  method StationNames(stations: seq<Station>) returns (names: map<string, string>)
    ensures names.Keys == set i | 0 <= i < |stations| :: stations[i].id
    ensures forall i :: 0 <= i < |stations| && IsLastOfKey(IdNameRows(stations), i) ==> names[stations[i].id] == stations[i].name
  {
    var rows := IdNameRows(stations);
    names := map[];
    for i := 0 to |rows|
      invariant names == FromPairs(rows[..i])
    {
      var (id, name) := rows[i];
      names := names[id := name];
      assert rows[..i + 1][..i] == rows[..i];
    }
    assert rows[..|rows|] == rows;
    FromPairsKeys(rows);
    ghost var keys := set i | 0 <= i < |stations| :: stations[i].id;
    forall k | k in keys
      ensures k in set i | 0 <= i < |rows| :: rows[i].0
    {
      var i :| 0 <= i < |stations| && stations[i].id == k;
      assert rows[i].0 == k;
    }
    forall i | 0 <= i < |stations| && IsLastOfKey(IdNameRows(stations), i)
      ensures stations[i].id in names && names[stations[i].id] == stations[i].name
    {
      FromPairsLastWins(rows, i);
    }
  }
}
