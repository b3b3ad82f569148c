/** `Portfolio`: a pot's lots and free cash, viewed as per-tag share counts
    and market values. */
module Portfolios {
  import opened Wrappers
  import opened AssetTags
  import opened Lots

  datatype Portfolio = Portfolio(lots: seq<Lot>, freeCash: real)

  /** The tags of the lots. */
  function Tags(lots: seq<Lot>): (r: set<AssetTag>)
    ensures forall t :: t in r <==> exists i :: 0 <= i < |lots| && lots[i].assetTag == t
  {
    set i | 0 <= i < |lots| :: lots[i].assetTag
  }

  /** The total share count of the lots tagged `t` (zero when there are
      none). */
  function TagSum(lots: seq<Lot>, t: AssetTag): (r: real)
    ensures (forall i :: 0 <= i < |lots| ==> lots[i].assetTag != t) ==> r == 0.0
  {
    if |lots| == 0 then 0.0
    else
      var last := lots[|lots| - 1];
      TagSum(lots[..|lots| - 1], t) + (if last.assetTag == t then last.shareCount else 0.0)
  }

  /** With no negative counts, a tag's total is positive exactly when one
      of its lots holds a positive count. */
  lemma {:induction false} TagSumPositive(lots: seq<Lot>, t: AssetTag)
    requires forall i :: 0 <= i < |lots| ==> lots[i].shareCount >= 0.0
    ensures TagSum(lots, t) > 0.0 <==> exists i :: 0 <= i < |lots| && lots[i].assetTag == t && lots[i].shareCount > 0.0
    ensures TagSum(lots, t) >= 0.0
  {
    if |lots| > 0 {
      var n := |lots| - 1;
      TagSumPositive(lots[..n], t);
      if exists i :: 0 <= i < n && lots[..n][i].assetTag == t && lots[..n][i].shareCount > 0.0 {
        var i :| 0 <= i < n && lots[..n][i].assetTag == t && lots[..n][i].shareCount > 0.0;
        assert lots[i] == lots[..n][i];
      }
      if exists i :: 0 <= i < |lots| && lots[i].assetTag == t && lots[i].shareCount > 0.0 {
        var i :| 0 <= i < |lots| && lots[i].assetTag == t && lots[i].shareCount > 0.0;
        if i < n {
          assert lots[..n][i] == lots[i];
        }
      }
    }
  }

  lemma {:induction false} TagSumConcat(a: seq<Lot>, b: seq<Lot>, t: AssetTag)
    ensures TagSum(a + b, t) == TagSum(a, t) + TagSum(b, t)
  {
    if |b| == 0 {
      assert a + b == a;
    } else {
      assert (a + b)[..|a + b| - 1] == a + b[..|b| - 1];
      TagSumConcat(a, b[..|b| - 1], t);
    }
  }

  lemma TagSumSingle(x: Lot, t: AssetTag)
    ensures TagSum([x], t) == if x.assetTag == t then x.shareCount else 0.0
  {
    assert [x][..0] == [];
  }

  /** Taking one lot out of the list takes its count out of its tag's
      total. */
  lemma TagSumRemoveAt(b: seq<Lot>, i: nat, t: AssetTag)
    requires i < |b|
    ensures TagSum(b, t) == TagSum(b[..i] + b[i + 1..], t) + TagSum([b[i]], t)
  {
    assert b == (b[..i] + [b[i]]) + b[i + 1..];
    TagSumConcat(b[..i] + [b[i]], b[i + 1..], t);
    TagSumConcat(b[..i], [b[i]], t);
    TagSumConcat(b[..i], b[i + 1..], t);
  }

  /** Where the last lot of `a` sits in a permutation `b` of it: removing
      it from both leaves permutations of each other. */
  lemma PermutationPick(a: seq<Lot>, b: seq<Lot>) returns (i: nat)
    requires |a| > 0 && multiset(a) == multiset(b)
    ensures |b| == |a| && i < |b| && b[i] == a[|a| - 1]
    ensures multiset(a[..|a| - 1]) == multiset(b[..i] + b[i + 1..])
  {
    var x := a[|a| - 1];
    assert |a| == |multiset(a)| == |multiset(b)| == |b|;
    assert a == a[..|a| - 1] + [x];
    assert x in multiset(b);
    i :| 0 <= i < |b| && b[i] == x;
    assert b == b[..i] + [x] + b[i + 1..];
    assert multiset(b) == multiset(b[..i] + b[i + 1..]) + multiset{x};
    assert multiset(a) == multiset(a[..|a| - 1]) + multiset{x};
    assert multiset(b[..i] + b[i + 1..]) == multiset(b) - multiset{x};
    assert multiset(a[..|a| - 1]) == multiset(a) - multiset{x};
  }

  /** Totals do not depend on the order the lots are stored in. */
  lemma {:induction false} TagSumPermutation(a: seq<Lot>, b: seq<Lot>, t: AssetTag)
    requires multiset(a) == multiset(b)
    ensures TagSum(a, t) == TagSum(b, t)
    decreases |a|
  {
    if |a| > 0 {
      var i := PermutationPick(a, b);
      var rest := b[..i] + b[i + 1..];
      TagSumPermutation(a[..|a| - 1], rest, t);
      TagSumRemoveAt(b, i, t);
      TagSumSingle(b[i], t);
    } else {
      assert |b| == |multiset(b)| == 0;
    }
  }

  /** One more lot adds its tag to the tags. */
  lemma TagsSnoc(lots: seq<Lot>)
    requires |lots| > 0
    ensures Tags(lots) == Tags(lots[..|lots| - 1]) + {lots[|lots| - 1].assetTag}
  {
    var n := |lots| - 1;
    forall u ensures u in Tags(lots) <==> u in Tags(lots[..n]) || u == lots[n].assetTag {
      if u in Tags(lots[..n]) {
        var i :| 0 <= i < n && lots[..n][i].assetTag == u;
        assert lots[i] == lots[..n][i];
      }
      if u in Tags(lots) {
        var i :| 0 <= i < |lots| && lots[i].assetTag == u;
        if i < n {
          assert lots[..n][i] == lots[i];
        }
      }
    }
  }

  /** The loop of `share_counts` over the lots: each lot adds its count to
      the running total of its tag. */
  function Tally(lots: seq<Lot>): (m: map<AssetTag, real>)
    ensures m.Keys == Tags(lots)
    ensures forall t :: t in m ==> m[t] == TagSum(lots, t)
  {
    if |lots| == 0 then map[]
    else
      var prev := Tally(lots[..|lots| - 1]);
      var lot := lots[|lots| - 1];
      var previous := if lot.assetTag in prev then prev[lot.assetTag] else 0.0;
      var m := prev[lot.assetTag := previous + lot.shareCount];
      TagsSnoc(lots);
      forall t | t in m ensures m[t] == TagSum(lots, t) {
        assert TagSum(lots, t) == TagSum(lots[..|lots| - 1], t) + if lot.assetTag == t then lot.shareCount else 0.0;
      }
      m
  }

  /** `Portfolio::share_counts`: every lot tag with its total count, and the
      dollar tag with the free cash, whatever any dollar lots hold. */
  function ShareCounts(p: Portfolio): (m: map<AssetTag, real>)
    ensures m.Keys == Tags(p.lots) + {Usd}
    ensures m[Usd] == p.freeCash
    ensures forall t :: t in m && t != Usd ==> m[t] == TagSum(p.lots, t)
  {
    Tally(p.lots)[Usd := p.freeCash]
  }

  /** `Portfolio::symbols`: the lot tags and the dollar tag. */
  function Symbols(p: Portfolio): (r: set<AssetTag>)
    ensures Usd in r
    ensures forall t :: t in r <==> t == Usd || exists i :: 0 <= i < |p.lots| && p.lots[i].assetTag == t
  {
    Tags(p.lots) + {Usd}
  }

  /** Every symbol has a share count, and nothing else does. */
  lemma SymbolsAreCounted(p: Portfolio)
    ensures Symbols(p) == ShareCounts(p).Keys
  {
  }

  /** `Portfolio::funded_symbols`: the tags whose total count is positive;
      the dollar tag when the free cash is. */
  function FundedSymbols(p: Portfolio): (r: set<AssetTag>)
    ensures forall t :: t in r <==> if t == Usd then p.freeCash > 0.0 else TagSum(p.lots, t) > 0.0
  {
    var counts := ShareCounts(p);
    set t | t in counts && counts[t] > 0.0
  }

  /** The market value of `count` shares at `price` each. */
  function Worth(price: real, count: real): real {
    price * count
  }

  /** Every funded tag has a price. */
  predicate Priced(p: Portfolio, prices: map<AssetTag, real>) {
    forall t :: t in FundedSymbols(p) ==> t in prices
  }

  /** The values of a fully priced portfolio: every symbol's count priced, a
      non-positive count at zero, and the dollar tag at the free cash. */
  function Valued(p: Portfolio, prices: map<AssetTag, real>): (v: map<AssetTag, real>)
    requires Priced(p, prices)
    ensures v.Keys == Symbols(p) && v[Usd] == p.freeCash
    ensures forall t :: t in v && t != Usd ==>
      && (TagSum(p.lots, t) > 0.0 ==> t in prices && v[t] == Worth(prices[t], TagSum(p.lots, t)))
      && (TagSum(p.lots, t) <= 0.0 ==> v[t] == 0.0)
  {
    var counts := ShareCounts(p);
    var values := map t | t in counts :: if counts[t] > 0.0 then Worth(prices[t], counts[t]) else 0.0;
    values[Usd := p.freeCash]
  }

  /** `Portfolio::market_values`: price times count for a positive count, zero
      for any other count. Every tag with a positive count needs a price, the
      dollar tag included when the free cash is positive, although the dollar
      entry of the result is the free cash itself. */
  function MarketValues(p: Portfolio, prices: map<AssetTag, real>): (r: Result<map<AssetTag, real>>)
    ensures r.Failure? <==> exists t :: t in FundedSymbols(p) && t !in prices
    ensures r.Failure? ==> r.error == MissingPrice
    ensures r.Success? ==> r.value.Keys == Symbols(p) && r.value[Usd] == p.freeCash
    ensures r.Success? ==> forall t :: t in r.value && t != Usd ==>
      && (TagSum(p.lots, t) > 0.0 ==> t in prices && r.value[t] == Worth(prices[t], TagSum(p.lots, t)))
      && (TagSum(p.lots, t) <= 0.0 ==> r.value[t] == 0.0)
  {
    if Priced(p, prices) then Success(Valued(p, prices)) else Failure(MissingPrice)
  }

  /** Positive free cash with no dollar price makes valuation fail. */
  lemma CashNeedsAPrice(p: Portfolio, prices: map<AssetTag, real>)
    requires p.freeCash > 0.0 && Usd !in prices
    ensures MarketValues(p, prices).Failure?
  {
    assert Usd in FundedSymbols(p);
  }

  /** Reordering the lots changes neither the counts nor the values. */
  lemma ValuationIgnoresLotOrder(p: Portfolio, q: Portfolio, prices: map<AssetTag, real>)
    requires multiset(p.lots) == multiset(q.lots) && p.freeCash == q.freeCash
    ensures ShareCounts(p) == ShareCounts(q)
    ensures FundedSymbols(p) == FundedSymbols(q)
    ensures MarketValues(p, prices) == MarketValues(q, prices)
  {
    forall t
      ensures TagSum(p.lots, t) == TagSum(q.lots, t)
    {
      TagSumPermutation(p.lots, q.lots, t);
    }
    TagsPermutation(p.lots, q.lots);
    assert ShareCounts(p) == ShareCounts(q);
    assert FundedSymbols(p) == FundedSymbols(q);
    if Priced(p, prices) {
      assert Valued(p, prices) == Valued(q, prices);
    }
  }

  lemma TagsPermutation(a: seq<Lot>, b: seq<Lot>)
    requires multiset(a) == multiset(b)
    ensures Tags(a) == Tags(b)
  {
    forall t | t in Tags(a) ensures t in Tags(b) {
      var i :| 0 <= i < |a| && a[i].assetTag == t;
      assert a[i] in multiset(b);
    }
    forall t | t in Tags(b) ensures t in Tags(a) {
      var i :| 0 <= i < |b| && b[i].assetTag == t;
      assert b[i] in multiset(a);
    }
  }
}
