/** The older generation of the ladder and the lot record, from the time an
    asset tag was a plain symbol string (`main.rs`). The weighting is the one
    `Ladders` defines; only the input differs. */
module Legacy {
  import opened Text
  import Lots
  import Ladders
  import opened Sums

  /** The older `Ladder`: an ordered list of symbols, lowest first. */
  datatype Ladder = Ladder(assets: seq<string>)

  /** The older `Lot`, whose tag is the symbol text itself. */
  datatype Lot = Lot(custodian: string, symbol: string, shareCount: real, uid: Lots.Uid)

  /** `Ladder::ordered_symbols`: each symbol upper-cased, in order. */
  function OrderedSymbols(l: Ladder): (r: seq<string>)
    ensures |r| == |l.assets|
    ensures forall i :: 0 <= i < |r| ==> r[i] == Upper(l.assets[i])
  {
    seq(|l.assets|, i requires 0 <= i < |l.assets| => Upper(l.assets[i]))
  }

  /** `Ladder::weights`. */
  function Weights(l: Ladder): map<string, real>
  {
    Ladders.Weights(OrderedSymbols(l))
  }

  /** `Ladder::portions`. */
  ghost function Portions(l: Ladder): map<string, real>
  {
    Ladders.Portions(OrderedSymbols(l))
  }

  /** When no two assets upper-case alike, the asset at position i weighs
      1.618^i and has that weight over the sum of all weights as its
      portion, which lies in (0, 1]. */
  lemma LegacyPortionAt(l: Ladder, i: nat)
    requires Distinct(OrderedSymbols(l))
    requires i < |l.assets|
    ensures Weights(l)[Upper(l.assets[i])] == Ladders.Weight(i)
    ensures Portions(l)[Upper(l.assets[i])] == Ladders.Weight(i) / Ladders.GeometricSum(|l.assets|)
    ensures 0.0 < Portions(l)[Upper(l.assets[i])] <= 1.0
  {
    var syms := OrderedSymbols(l);
    Ladders.WeightAt(syms, i);
    Ladders.PortionAt(syms, i);
    Ladders.PortionBounds(syms, i);
  }

  /** When no two assets upper-case alike, a later asset gets a strictly
      larger portion. */
  lemma LegacyPortionsRise(l: Ladder, i: nat, j: nat)
    requires Distinct(OrderedSymbols(l))
    requires i < j < |l.assets|
    ensures Portions(l)[Upper(l.assets[i])] < Portions(l)[Upper(l.assets[j])]
  {
    Ladders.PortionsOrdered(OrderedSymbols(l), i, j);
  }

  /** Any ladder with an asset shares out exactly one whole. */
  lemma LegacyPortionsSumToOne(l: Ladder)
    requires |l.assets| > 0
    ensures SumValues(Portions(l)) == 1.0
  {
    Ladders.PortionsSumToOne(OrderedSymbols(l));
  }

  /** A ladder of one asset gives it the whole portfolio. */
  lemma LegacyLonePortion(symbol: string)
    ensures Portions(Ladder([symbol]))[Upper(symbol)] == 1.0
  {
    var l := Ladder([symbol]);
    assert OrderedSymbols(l) == [Upper(symbol)];
    Ladders.PortionAt(OrderedSymbols(l), 0);
    assert Ladders.Weight(0) == 1.0;
    assert Ladders.GeometricSum(1) == Ladders.Weight(0);
  }
}
