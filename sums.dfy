/** Sums over the values of a finite map, independent of any iteration order. */
module Sums {

  /** Some element of a non-empty set. */
  ghost function Pick<K>(s: set<K>): K
    requires s != {}
  {
    var k :| k in s; k
  }

  /** The sum of the values of m. */
  ghost function SumValues<K>(m: map<K, real>): real
    decreases |m|
  {
    if m == map[] then 0.0
    else
      var k := Pick(m.Keys);
      assert (m - {k}).Keys == m.Keys - {k};
      m[k] + SumValues(m - {k})
  }

  /** Any one entry can be split off the sum, whichever entry the definition picks. */
  lemma {:induction false} SumValuesRemove<K>(m: map<K, real>, k: K)
    requires k in m
    ensures SumValues(m) == m[k] + SumValues(m - {k})
    decreases |m|
  {
    var j := Pick(m.Keys);
    assert (m - {j}).Keys == m.Keys - {j};
    if j != k {
      SumValuesRemove(m - {j}, k);
      SumValuesRemove(m - {k}, j);
      assert m - {j} - {k} == m - {k} - {j};
    }
  }

  /** A map whose values are all zero sums to zero. */
  lemma {:induction false} SumValuesOfZeros<K>(m: map<K, real>)
    requires forall k :: k in m ==> m[k] == 0.0
    ensures SumValues(m) == 0.0
    decreases |m|
  {
    if m != map[] {
      var k := Pick(m.Keys);
      assert (m - {k}).Keys == m.Keys - {k};
      SumValuesOfZeros(m - {k});
    }
  }
}
