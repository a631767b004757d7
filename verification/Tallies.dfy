/**
 Counters and their finite sums.

 A `Tally` is the quadruple that the statistics service reports: live
 connections, connections ever, bytes in, bytes out. Every accounting result of
 the project adds tallies over the values of a finite map.
 */
module Tallies {
  datatype Tally = Tally(active: int, conns: int, bytesIn: int, bytesOut: int) {
    function Plus(t: Tally): Tally {
      Tally(active + t.active, conns + t.conns, bytesIn + t.bytesIn, bytesOut + t.bytesOut)
    }
  }

  const ZERO := Tally(0, 0, 0, 0)

  function Bytes(bytesIn: int, bytesOut: int): Tally {
    Tally(0, 0, bytesIn, bytesOut)
  }

  lemma Regroup(a: Tally, b: Tally, c: Tally)
    ensures a.Plus(b.Plus(c)) == a.Plus(b).Plus(c) == a.Plus(c).Plus(b)
  {
  }

  /** The sum of a map's values; the order of summation is left open. */
  ghost function Sum<K>(m: map<K, Tally>): Tally
    decreases |m|
  {
    if m == map[] then ZERO else
      var k :| k in m;
      m[k].Plus(Sum(m - {k}))
  }

  /** Any key may be taken out of the sum first. */
  lemma {:induction false} SumRemove<K>(m: map<K, Tally>, k: K)
    requires k in m
    ensures Sum(m) == m[k].Plus(Sum(m - {k}))
    decreases |m|
  {
    var first :| first in m && Sum(m) == m[first].Plus(Sum(m - {first}));
    if first != k {
      var rest := m - {first} - {k};
      assert m - {k} - {first} == rest;
      SumRemove(m - {first}, k);
      SumRemove(m - {k}, first);
      assert Sum(m - {first}) == m[k].Plus(Sum(rest));
      assert Sum(m - {k}) == m[first].Plus(Sum(rest));
      assert m[first].Plus(m[k].Plus(Sum(rest))) == m[k].Plus(m[first].Plus(Sum(rest)));
      assert Sum(m) == m[first].Plus(Sum(m - {first}));
    }
  }

  /** Adds to one entry, which starts from nothing when it is missing. */
  function Bump<K>(m: map<K, Tally>, k: K, d: Tally): map<K, Tally> {
    m[k := if k in m then m[k].Plus(d) else d]
  }

  lemma SumBump<K>(m: map<K, Tally>, k: K, d: Tally)
    ensures Sum(Bump(m, k, d)) == Sum(m).Plus(d)
  {
    SumRemove(Bump(m, k, d), k);
    assert Bump(m, k, d) - {k} == m - {k};
    if k in m {
      SumRemove(m, k);
    } else {
      assert m - {k} == m;
    }
  }

  lemma SumInsert<K>(m: map<K, Tally>, k: K, v: Tally)
    requires k !in m
    ensures Sum(m[k := v]) == Sum(m).Plus(v)
  {
    SumRemove(m[k := v], k);
    assert m[k := v] - {k} == m;
  }
}
