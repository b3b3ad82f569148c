/** Sums of real numbers: over the values of a map (what `values().sum()`
    computes, in whatever order the map yields them) and over a sequence. */
module Sums {

  /** The sum of the values of `m`. */
  ghost function SumValues<K>(m: map<K, real>): real
    decreases |m|
  {
    if m == map[] then 0.0
    else
      var k :| k in m;
      m[k] + SumValues(m - {k})
  }

  /** The sum does not depend on which key is taken first. */
  lemma {:induction false} SumValuesRemove<K>(m: map<K, real>, k: K)
    requires k in m
    ensures SumValues(m) == m[k] + SumValues(m - {k})
    decreases |m|
  {
    var k' :| k' in m && SumValues(m) == m[k'] + SumValues(m - {k'});
    if k' != k {
      var m' := m - {k'};
      assert |m'| < |m| by {
        assert m'.Keys == m.Keys - {k'};
      }
      SumValuesRemove(m', k);
      var m'' := m - {k};
      assert |m''| < |m| by {
        assert m''.Keys == m.Keys - {k};
      }
      SumValuesRemove(m'', k');
      assert m' - {k} == m'' - {k'};
    }
  }

  lemma SumValuesAdd<K>(m: map<K, real>, k: K, v: real)
    requires k !in m
    ensures SumValues(m[k := v]) == v + SumValues(m)
  {
    SumValuesRemove(m[k := v], k);
    assert m[k := v] - {k} == m;
  }

  /** Dividing every value by `c` divides the sum by `c`. */
  lemma {:induction false} SumValuesScale<K>(m: map<K, real>, c: real)
    requires c != 0.0
    ensures SumValues(map k | k in m :: m[k] / c) == SumValues(m) / c
    decreases |m|
  {
    var scaled := map k | k in m :: m[k] / c;
    if m != map[] {
      var k :| k in m;
      var rest := m - {k};
      assert |rest| < |m| by {
        assert rest.Keys == m.Keys - {k};
      }
      SumValuesScale(rest, c);
      SumValuesRemove(m, k);
      SumValuesRemove(scaled, k);
      assert scaled - {k} == map j | j in rest :: rest[j] / c;
      DivAdd(m[k], SumValues(rest), c);
    } else {
      assert scaled == map[];
    }
  }

  lemma DivAdd(a: real, b: real, c: real)
    requires c != 0.0
    ensures (a + b) / c == a / c + b / c
  {
  }

  /** A sum of positive values is positive once there is one. */
  lemma {:induction false} SumValuesPositive<K>(m: map<K, real>)
    requires m != map[]
    requires forall k :: k in m ==> m[k] > 0.0
    ensures SumValues(m) > 0.0
    decreases |m|
  {
    var k :| k in m && SumValues(m) == m[k] + SumValues(m - {k});
    var rest := m - {k};
    assert |rest| < |m| by {
      assert rest.Keys == m.Keys - {k};
    }
    if rest != map[] {
      SumValuesPositive(rest);
    }
  }

  /** No element occurs twice. */
  predicate Distinct<T(==)>(s: seq<T>) {
    forall i, j :: 0 <= i < j < |s| ==> s[i] != s[j]
  }

  lemma DistinctConcat<T>(a: seq<T>, b: seq<T>)
    requires Distinct(a) && Distinct(b)
    requires forall x :: x in a ==> x !in b
    ensures Distinct(a + b)
  {
    forall i, j | 0 <= i < j < |a + b| ensures (a + b)[i] != (a + b)[j] {
      if i < |a| && j >= |a| {
        assert (a + b)[i] in a && (a + b)[j] in b;
      }
    }
  }

  /** The sum of a sequence, added from the front. */
  function SumSeq(s: seq<real>): real
  {
    if |s| == 0 then 0.0 else SumSeq(s[..|s| - 1]) + s[|s| - 1]
  }

  lemma {:induction false} SumSeqConcat(a: seq<real>, b: seq<real>)
    ensures SumSeq(a + b) == SumSeq(a) + SumSeq(b)
  {
    if |b| > 0 {
      assert (a + b)[..|a + b| - 1] == a + b[..|b| - 1];
      SumSeqConcat(a, b[..|b| - 1]);
    } else {
      assert a + b == a;
    }
  }

  lemma {:induction false} SumSeqZero(s: seq<real>)
    requires forall i :: 0 <= i < |s| ==> s[i] == 0.0
    ensures SumSeq(s) == 0.0
  {
    if |s| > 0 {
      SumSeqZero(s[..|s| - 1]);
    }
  }

  /** Multiplying every element by `c` multiplies the sum by `c`. */
  lemma {:induction false} SumSeqScale(s: seq<real>, t: seq<real>, c: real)
    requires |t| == |s|
    requires forall i :: 0 <= i < |s| ==> t[i] == s[i] * c
    ensures SumSeq(t) == SumSeq(s) * c
  {
    if |s| > 0 {
      SumSeqScale(s[..|s| - 1], t[..|t| - 1], c);
    }
  }

  /** The sum of elementwise differences is the difference of the sums. */
  lemma {:induction false} SumSeqSub(a: seq<real>, b: seq<real>, d: seq<real>)
    requires |a| == |b| == |d|
    requires forall i :: 0 <= i < |d| ==> d[i] == a[i] - b[i]
    ensures SumSeq(d) == SumSeq(a) - SumSeq(b)
  {
    if |d| > 0 {
      SumSeqSub(a[..|a| - 1], b[..|b| - 1], d[..|d| - 1]);
    }
  }

  /** The values of `m` read along `keys`. */
  function Along<K>(m: map<K, real>, keys: seq<K>): (r: seq<real>)
    requires forall i :: 0 <= i < |keys| ==> keys[i] in m
    ensures |r| == |keys|
    ensures forall i :: 0 <= i < |keys| ==> r[i] == m[keys[i]]
  {
    seq(|keys|, i requires 0 <= i < |keys| => m[keys[i]])
  }

  /** Dropping the last of the distinct keys of a map leaves the distinct
      keys of the rest of the map. */
  lemma KeysDropLast<K>(m: map<K, real>, keys: seq<K>)
    requires |keys| > 0 && Distinct(keys)
    requires forall k :: k in m <==> k in keys
    ensures Distinct(keys[..|keys| - 1])
    ensures forall k :: k in m && k != keys[|keys| - 1] <==> k in keys[..|keys| - 1]
  {
    var n := |keys| - 1;
    var front := keys[..n];
    forall k ensures k in m && k != keys[n] <==> k in front {
      if k in front {
        var i :| 0 <= i < n && front[i] == k;
        assert keys[i] != keys[n];
      }
      if k in m && k != keys[n] {
        var i :| 0 <= i < |keys| && keys[i] == k;
        assert i != n;
        assert front[i] == k;
      }
    }
  }

  /** Reading each key of a map exactly once, in any order, adds up to the
      sum of its values. */
  lemma {:induction false} SumAlong<K>(m: map<K, real>, keys: seq<K>)
    requires Distinct(keys)
    requires forall k :: k in m <==> k in keys
    ensures SumSeq(Along(m, keys)) == SumValues(m)
  {
    if |keys| == 0 {
      assert m == map[];
    } else {
      var n := |keys| - 1;
      var last := keys[n];
      var rest := m - {last};
      var front := keys[..n];
      KeysDropLast(m, keys);
      SumAlong(rest, front);
      assert Along(m, keys)[..n] == Along(rest, front);
      SumValuesRemove(m, last);
    }
  }
}
