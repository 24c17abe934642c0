/**
 * The dictionary a loop `for k, v in rows: d[k] = v` leaves behind,
 * starting from an empty dictionary: one key per distinct key among the
 * rows, each holding the value of the last row with that key.
 */
module LastWins {

  /** The dictionary after assigning the rows in order. */
  function FromPairs<K(==), V>(rows: seq<(K, V)>): map<K, V>
  {
    if rows == [] then map[]
    else FromPairs(rows[..|rows| - 1])[rows[|rows| - 1].0 := rows[|rows| - 1].1]
  }

  /** Row i is the last row carrying its key. */
  predicate IsLastOfKey<K(==), V>(rows: seq<(K, V)>, i: int)
    requires 0 <= i < |rows|
  {
    forall j :: i < j < |rows| ==> rows[j].0 != rows[i].0
  }

  /** The keys are exactly the keys of the rows. */
  lemma {:induction false} FromPairsKeys<K, V>(rows: seq<(K, V)>)
    ensures FromPairs(rows).Keys == set i | 0 <= i < |rows| :: rows[i].0
  {
    if rows != [] {
      var init := rows[..|rows| - 1];
      FromPairsKeys(init);
      var s := set i | 0 <= i < |rows| :: rows[i].0;
      var s' := set i | 0 <= i < |init| :: init[i].0;
      assert s == s' + {rows[|rows| - 1].0} by {
        forall k | k in s ensures k in s' + {rows[|rows| - 1].0} {
          var i :| 0 <= i < |rows| && rows[i].0 == k;
          if i < |init| {
            assert init[i].0 == k;
          }
        }
        forall k | k in s' ensures k in s {
          var i :| 0 <= i < |init| && init[i].0 == k;
          assert rows[i].0 == k;
        }
      }
    }
  }

  /** Each key holds the value of the last row with that key. */
  lemma {:induction false} FromPairsLastWins<K, V>(rows: seq<(K, V)>, i: int)
    requires 0 <= i < |rows| && IsLastOfKey(rows, i)
    ensures rows[i].0 in FromPairs(rows) && FromPairs(rows)[rows[i].0] == rows[i].1
  {
    var init := rows[..|rows| - 1];
    if i < |rows| - 1 {
      assert IsLastOfKey(init, i) by {
        forall j | i < j < |init| ensures init[j].0 != init[i].0 {
          assert init[j] == rows[j];
        }
      }
      FromPairsLastWins(init, i);
    }
  }

  /** Every key of the dictionary has a last row, and its value is that row's. */
  lemma FromPairsValues<K, V>(rows: seq<(K, V)>, k: K)
    requires k in FromPairs(rows)
    ensures exists i :: 0 <= i < |rows| && rows[i].0 == k && IsLastOfKey(rows, i) && FromPairs(rows)[k] == rows[i].1
  {
    FromPairsKeys(rows);
    var i :| 0 <= i < |rows| && rows[i].0 == k;
    while !IsLastOfKey(rows, i)
      invariant 0 <= i < |rows| && rows[i].0 == k
      decreases |rows| - i
    {
      var j :| i < j < |rows| && rows[j].0 == k;
      i := j;
    }
    FromPairsLastWins(rows, i);
  }
}
