/** `Ladder`: the ordered target list and the weights and portions derived
    from it. Position 0 is the lowest target; the weight of position i is
    1.618^i, keyed by the target's upper-cased text. */
module Ladders {
  import opened Text
  import opened AssetTags
  import Ramps
  import opened Sums

  datatype Ladder = Ladder(targets: seq<AssetTag>)

  /** `Ladder::target_symbols_ascending`: each target's text upper-cased, in
      target order. */
  function Ascending(l: Ladder): (r: seq<string>)
    ensures |r| == |l.targets|
    ensures forall i :: 0 <= i < |r| ==> r[i] == Upper(AsStr(l.targets[i]))
  {
    seq(|l.targets|, i requires 0 <= i < |l.targets| => Upper(AsStr(l.targets[i])))
  }

  /** `Ladder::target_symbols_descending`: the ascending list reversed, the
      highest target first. */
  function Descending(l: Ladder): (r: seq<string>)
    ensures |r| == |l.targets|
    ensures forall i :: 0 <= i < |r| ==> r[i] == Ascending(l)[|r| - 1 - i]
  {
    var asc := Ascending(l);
    seq(|asc|, i requires 0 <= i < |asc| => asc[|asc| - 1 - i])
  }

  /** Parsing a target's symbol gives the target back, for every target
      parsing can produce: upper-casing loses nothing. */
  lemma AscendingParsesBack(l: Ladder, i: nat)
    requires i < |l.targets| && WellFormed(l.targets[i])
    ensures FromStr(Ascending(l)[i]) == l.targets[i]
  {
    var t := l.targets[i];
    var u := Ascending(l)[i];
    match t
    case Equity(symbol) =>
      assert u == symbol;
    case Usd =>
      assert u == "USD";
    case Pot(name) =>
      var rest := name[1..];
      assert u[1..] == Upper(rest);
      forall k | 0 <= k < |rest| ensures LowerChar(UpperChar(rest[k])) == rest[k] {
        assert LowerChar(rest[k]) == Lower(rest)[k];
      }
      assert Lower(u[1..]) == rest;
      assert [':'] + rest == name;
  }

  /** Reversing keeps the members. */
  lemma ReverseMembers(a: seq<string>, d: seq<string>)
    requires |d| == |a| && forall i :: 0 <= i < |d| ==> d[i] == a[|a| - 1 - i]
    ensures forall s :: s in a <==> s in d
  {
    forall s ensures s in a <==> s in d {
      if s in a {
        var i :| 0 <= i < |a| && a[i] == s;
        assert d[|a| - 1 - i] == s;
      }
      if s in d {
        var i :| 0 <= i < |d| && d[i] == s;
        assert a[|a| - 1 - i] == s;
      }
    }
  }

  /** `Ladder::target_symbols`: the symbols as a set. */
  function TargetSymbols(l: Ladder): (r: set<string>)
    ensures forall s :: s in r <==> s in Ascending(l)
    ensures forall s :: s in r <==> s in Descending(l)
  {
    var asc := Ascending(l);
    ReverseMembers(asc, Descending(l));
    set s | s in asc
  }

  /** The weight of position i. */
  function Weight(i: nat): (w: real)
    ensures w > 0.0
  {
    Ramps.PowPositive(Ramps.GoldenBase, i);
    Ramps.Pow(Ramps.GoldenBase, i)
  }

  /** No later position repeats the symbol at position i. */
  predicate LastOccurrence(syms: seq<string>, i: nat)
    requires i < |syms|
  {
    forall j :: i < j < |syms| ==> syms[j] != syms[i]
  }

  /** Collecting (symbol, weight) pairs into a map, in position order: a
      later position overwrites an earlier one with the same symbol. */
  function Weights(syms: seq<string>): (w: map<string, real>)
    ensures forall s :: s in w <==> s in syms
    ensures forall s :: s in w ==> w[s] > 0.0
  {
    if |syms| == 0 then map[]
    else
      var n := |syms| - 1;
      var prev := Weights(syms[..n]);
      assert syms == syms[..n] + [syms[n]];
      prev[syms[n] := Weight(n)]
  }

  /** A symbol keeps the weight of its last position. */
  lemma {:induction false} WeightOfLastOccurrence(syms: seq<string>, i: nat)
    requires i < |syms| && LastOccurrence(syms, i)
    ensures Weights(syms)[syms[i]] == Weight(i)
  {
    var n := |syms| - 1;
    if i < n {
      assert syms[i] != syms[n];
      assert syms[..n][i] == syms[i];
      assert LastOccurrence(syms[..n], i);
      WeightOfLastOccurrence(syms[..n], i);
    }
  }

  /** Each weight divided by the sum of all weights. */
  ghost function Portions(syms: seq<string>): (p: map<string, real>)
    ensures p.Keys == Weights(syms).Keys
    ensures p != map[] ==> SumValues(Weights(syms)) > 0.0
    ensures forall s :: s in p ==> p[s] == Weights(syms)[s] / SumValues(Weights(syms))
  {
    var w := Weights(syms);
    if w == map[] then map[]
    else
      SumValuesPositive(w);
      var full := SumValues(w);
      map s | s in w :: w[s] / full
  }

  /** The sum of the weights of positions 0 .. n-1. */
  function GeometricSum(n: nat): (r: real)
    ensures n > 0 ==> r >= Weight(n - 1) > 0.0
  {
    if n == 0 then 0.0 else GeometricSum(n - 1) + Weight(n - 1)
  }

  lemma {:induction false} GeometricSumPositive(n: nat)
    requires n > 0
    ensures GeometricSum(n) >= Weight(n - 1) > 0.0
  {
    Ramps.PowPositive(Ramps.GoldenBase, n - 1);
    if n > 1 {
      GeometricSumPositive(n - 1);
    }
  }

  /** Without repeated symbols the weights add up to the geometric sum. */
  lemma {:induction false} WeightsSum(syms: seq<string>)
    requires Distinct(syms)
    ensures SumValues(Weights(syms)) == GeometricSum(|syms|)
  {
    if |syms| > 0 {
      var n := |syms| - 1;
      WeightsSum(syms[..n]);
      assert syms[n] !in syms[..n];
      SumValuesAdd(Weights(syms[..n]), syms[n], Weight(n));
    }
  }

  /** Without repeated symbols, position i gets weight 1.618^i. */
  lemma WeightAt(syms: seq<string>, i: nat)
    requires Distinct(syms) && i < |syms|
    ensures Weights(syms)[syms[i]] == Weight(i)
  {
    assert LastOccurrence(syms, i);
    WeightOfLastOccurrence(syms, i);
  }

  /** Without repeated symbols, position i gets the share 1.618^i of the
      geometric sum. */
  lemma PortionAt(syms: seq<string>, i: nat)
    requires Distinct(syms) && i < |syms|
    ensures Portions(syms)[syms[i]] == Weight(i) / GeometricSum(|syms|)
  {
    WeightAt(syms, i);
    WeightsSum(syms);
  }

  /** Without repeated symbols, the portion at every position lies in (0, 1]. */
  lemma PortionBounds(syms: seq<string>, i: nat)
    requires Distinct(syms) && i < |syms|
    ensures 0.0 < Portions(syms)[syms[i]] <= 1.0
  {
    PortionAt(syms, i);
    GeometricSumBound(|syms|, i);
    DivAtMostOne(Weight(i), GeometricSum(|syms|));
  }

  /** Without repeated symbols, a higher position gets a strictly larger
      portion, and every portion lies in (0, 1]. */
  lemma PortionsOrdered(syms: seq<string>, i: nat, j: nat)
    requires Distinct(syms) && i < j < |syms|
    ensures 0.0 < Portions(syms)[syms[i]] < Portions(syms)[syms[j]] <= 1.0
  {
    PortionAt(syms, i);
    PortionAt(syms, j);
    Ramps.PowPositive(Ramps.GoldenBase, i);
    Ramps.PowStrictlyIncreasing(Ramps.GoldenBase, i, j);
    GeometricSumPositive(|syms|);
    GeometricSumBound(|syms|, j);
    DivMonotone(Weight(i), Weight(j), GeometricSum(|syms|));
  }

  lemma {:induction false} GeometricSumBound(n: nat, j: nat)
    requires j < n
    ensures Weight(j) <= GeometricSum(n)
  {
    Ramps.PowPositive(Ramps.GoldenBase, n - 1);
    if j < n - 1 {
      GeometricSumBound(n - 1, j);
      GeometricSumPositive(n - 1);
    } else if n > 1 {
      GeometricSumPositive(n - 1);
    }
  }

  lemma DivSelf(x: real)
    requires x != 0.0
    ensures x / x == 1.0
  {
  }

  lemma DivAtMostOne(a: real, c: real)
    requires 0.0 < a <= c
    ensures 0.0 < a / c <= 1.0
  {
  }

  lemma DivMonotone(a: real, b: real, c: real)
    requires 0.0 < a < b <= c
    ensures 0.0 < a / c < b / c <= 1.0
  {
  }

  /** With at least one target the portions add up to one. */
  lemma PortionsSumToOne(syms: seq<string>)
    requires |syms| > 0
    ensures SumValues(Portions(syms)) == 1.0
  {
    var w := Weights(syms);
    assert syms[0] in w;
    SumValuesPositive(w);
    var full := SumValues(w);
    var scaled := map k | k in w :: w[k] / full;
    SumValuesScale(w, full);
    DivSelf(full);
    assert Portions(syms) == scaled;
  }

  /** `Ladder::target_weights`. */
  function TargetWeights(l: Ladder): map<string, real>
  {
    Weights(Ascending(l))
  }

  /** `Ladder::target_portions`. */
  ghost function TargetPortions(l: Ladder): map<string, real>
  {
    Portions(Ascending(l))
  }

  /** Tags parsing can produce keep apart once upper-cased. */
  lemma UpperTextInjective(a: AssetTag, b: AssetTag)
    requires WellFormed(a) && WellFormed(b)
    requires Upper(AsStr(a)) == Upper(AsStr(b))
    ensures a == b
  {
    var x, y := AsStr(a), AsStr(b);
    assert |x| == |y|;
    if a.Pot? && b.Pot? {
      forall i | 1 <= i < |x| ensures x[i] == y[i] {
        assert x[1..][i - 1] == Lower(x[1..])[i - 1];
        assert y[1..][i - 1] == Lower(y[1..])[i - 1];
        assert UpperChar(x[i]) == UpperChar(y[i]);
      }
      assert x == y;
    } else if a.Equity? && b.Equity? {
      assert x == Upper(x) == Upper(y) == y;
    }
  }

  /** Targets without repeats, all produced by parsing, give symbols
      without repeats. */
  lemma AscendingDistinct(l: Ladder)
    requires Distinct(l.targets)
    requires forall i :: 0 <= i < |l.targets| ==> WellFormed(l.targets[i])
    ensures Distinct(Ascending(l))
  {
    forall i, j | 0 <= i < j < |l.targets|
      ensures Ascending(l)[i] != Ascending(l)[j]
    {
      if Ascending(l)[i] == Ascending(l)[j] {
        UpperTextInjective(l.targets[i], l.targets[j]);
      }
    }
  }

  lemma DescendingDistinct(l: Ladder)
    requires Distinct(l.targets)
    requires forall i :: 0 <= i < |l.targets| ==> WellFormed(l.targets[i])
    ensures Distinct(Descending(l))
  {
    AscendingDistinct(l);
    var n := |l.targets|;
    forall i, j | 0 <= i < j < n
      ensures Descending(l)[i] != Descending(l)[j]
    {
      assert Ascending(l)[n - 1 - j] != Ascending(l)[n - 1 - i];
    }
  }

  /** For a ladder of distinct parsed targets, the target at position i
      weighs 1.618^i and has that weight over the geometric sum as its
      portion, which lies in (0, 1]. */
  lemma LadderPortionAt(l: Ladder, i: nat)
    requires Distinct(l.targets)
    requires forall k :: 0 <= k < |l.targets| ==> WellFormed(l.targets[k])
    requires i < |l.targets|
    ensures TargetWeights(l)[Ascending(l)[i]] == Weight(i)
    ensures TargetPortions(l)[Ascending(l)[i]] == Weight(i) / GeometricSum(|l.targets|)
    ensures 0.0 < TargetPortions(l)[Ascending(l)[i]] <= 1.0
  {
    AscendingDistinct(l);
    WeightAt(Ascending(l), i);
    PortionAt(Ascending(l), i);
    PortionBounds(Ascending(l), i);
  }

  /** For a ladder of distinct parsed targets, a higher target gets a
      strictly larger portion. */
  lemma LadderPortionsRise(l: Ladder, i: nat, j: nat)
    requires Distinct(l.targets)
    requires forall k :: 0 <= k < |l.targets| ==> WellFormed(l.targets[k])
    requires i < j < |l.targets|
    ensures TargetPortions(l)[Ascending(l)[i]] < TargetPortions(l)[Ascending(l)[j]]
  {
    AscendingDistinct(l);
    PortionsOrdered(Ascending(l), i, j);
  }

  /** Any ladder with a target shares out exactly one whole. */
  lemma LadderPortionsSumToOne(l: Ladder)
    requires |l.targets| > 0
    ensures SumValues(TargetPortions(l)) == 1.0
  {
    PortionsSumToOne(Ascending(l));
  }

  /** A ladder of one target gives it the whole portfolio. */
  lemma LoneTargetPortion(t: AssetTag)
    ensures TargetPortions(Ladder([t]))[Upper(AsStr(t))] == 1.0
  {
    var l := Ladder([t]);
    assert Ascending(l) == [Upper(AsStr(t))];
    PortionAt(Ascending(l), 0);
    assert Weight(0) == 1.0;
    assert GeometricSum(1) == Weight(0);
  }
}
