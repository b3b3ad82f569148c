/** The command-line operations that are logic rather than I/O: the
    duplicate-uid decision of `add_lot` and the assembly of the drift report
    printed by `status`. Reading and writing lots, the price lookup, the
    random uid and the printing are supplied as values or left out. */
module Cli {
  import opened Wrappers
  import opened Text
  import opened Ordering
  import opened Sums
  import AssetTags
  import Lots
  import Legacy
  import Ladders

  // ---------------------------------------------------------------- add_lot

  /** What `add_lot` reported: the uid it skipped or the uid it added. */
  datatype AddOutcome = Skipped(uid: Lots.Uid) | Added(uid: Lots.Uid)

  predicate HasUid(lots: seq<Legacy.Lot>, uid: Lots.Uid) {
    exists i :: 0 <= i < |lots| && lots[i].uid == uid
  }

  predicate UniqueUids(lots: seq<Legacy.Lot>) {
    forall i, j :: 0 <= i < j < |lots| ==> lots[i].uid != lots[j].uid
  }

  /** `add_lot`: `freshUid` stands for the random uid drawn when none is
      given. A uid already present leaves the lots as they are; otherwise
      one lot with the upper-cased symbol is appended. */
  function AddLot(lots: seq<Legacy.Lot>, custody: string, symbol: string, shareCount: real,
                  uid: Option<Lots.Uid>, freshUid: Lots.Uid): (r: (seq<Legacy.Lot>, AddOutcome))
    ensures r.1.uid == uid.GetOr(freshUid)
    ensures r.1.Skipped? <==> HasUid(lots, r.1.uid)
    ensures r.1.Skipped? ==> r.0 == lots
    ensures r.1.Added? ==> |r.0| == |lots| + 1 && r.0[..|lots|] == lots
    ensures r.1.Added? ==> r.0[|lots|] == Legacy.Lot(custody, Upper(symbol), shareCount, r.1.uid)
  {
    var id := uid.GetOr(freshUid);
    if HasUid(lots, id) then
      (lots, Skipped(id))
    else
      (lots + [Legacy.Lot(custody, Upper(symbol), shareCount, id)], Added(id))
  }

  /** Adding never introduces a second lot with the same uid, and afterwards
      a lot with the reported uid is present. */
  lemma AddLotKeepsUidsUnique(lots: seq<Legacy.Lot>, custody: string, symbol: string, shareCount: real,
                              uid: Option<Lots.Uid>, freshUid: Lots.Uid)
    requires UniqueUids(lots)
    ensures UniqueUids(AddLot(lots, custody, symbol, shareCount, uid, freshUid).0)
    ensures HasUid(AddLot(lots, custody, symbol, shareCount, uid, freshUid).0,
                   AddLot(lots, custody, symbol, shareCount, uid, freshUid).1.uid)
  {
    var r := AddLot(lots, custody, symbol, shareCount, uid, freshUid);
    if r.1.Added? {
      assert r.0[|lots|].uid == r.1.uid;
      forall i, j | 0 <= i < j < |r.0| ensures r.0[i].uid != r.0[j].uid {
        if j == |lots| {
          assert r.0[i] == lots[i];
        } else {
          assert r.0[i] == lots[i] && r.0[j] == lots[j];
        }
      }
    }
  }

  /** Repeating `add_lot` with the same explicit uid is skipped the second
      time, so adding is idempotent. */
  lemma AddLotIdempotent(lots: seq<Legacy.Lot>, custody: string, symbol: string, shareCount: real,
                         uid: Lots.Uid, freshUid: Lots.Uid, freshUid2: Lots.Uid)
    ensures var once := AddLot(lots, custody, symbol, shareCount, Some(uid), freshUid).0;
            AddLot(once, custody, symbol, shareCount, Some(uid), freshUid2) == (once, Skipped(uid))
  {
    var once := AddLot(lots, custody, symbol, shareCount, Some(uid), freshUid).0;
    if !HasUid(lots, uid) {
      assert once[|lots|].uid == uid;
    }
    assert HasUid(once, uid);
  }

  // ----------------------------------------------------------------- status

  /** A share of the full value. Dividing by a full value of zero gives a
      floating-point NaN or infinity in the source; that is `Undefined`. */
  datatype Share = Share(value: real) | Undefined

  /** One line of the drift report. */
  datatype Row = Row(symbol: string, count: real, market: real, marketPortion: Share,
                     target: real, targetPortion: real, drift: real, driftPortion: Share)

  /** Portfolio symbols that the ladder does not target. */
  function OffTarget(ladder: Ladders.Ladder, symbols: set<string>): (r: set<string>)
    ensures forall s :: s in r <==> s in symbols && s !in Ladders.Ascending(ladder)
  {
    symbols - Ladders.TargetSymbols(ladder)
  }

  /** The ladder's portions, with portion 0 for every off-target symbol. */
  ghost function PortionTargets(ladder: Ladders.Ladder, symbols: set<string>): (r: map<string, real>)
    ensures forall s :: s in r <==> s in Ladders.Ascending(ladder) || s in OffTarget(ladder, symbols)
    ensures forall s :: s in OffTarget(ladder, symbols) ==> r[s] == 0.0
    ensures forall s :: s in Ladders.Ascending(ladder) ==> r[s] == Ladders.TargetPortions(ladder)[s]
  {
    Ladders.TargetPortions(ladder) + map s | s in OffTarget(ladder, symbols) :: 0.0
  }

  /** The market values, with value 0 for every target symbol the
      portfolio does not hold. */
  function ActualValues(ladder: Ladders.Ladder, values: map<string, real>): (r: map<string, real>)
    ensures forall s :: s in r <==> s in values || s in Ladders.Ascending(ladder)
    ensures forall s :: s in values ==> r[s] == values[s]
    ensures forall s :: s in r && s !in values ==> r[s] == 0.0
  {
    values + map s | s in Ladders.TargetSymbols(ladder) && s !in values :: 0.0
  }

  /** The total of the actual values. */
  ghost function FullValue(ladder: Ladders.Ladder, values: map<string, real>): real
  {
    SumValues(ActualValues(ladder, values))
  }

  /** Report order: targets from the highest down, then the off-target
      symbols in ascending order. */
  ghost function ReportOrder(ladder: Ladders.Ladder, symbols: set<string>): seq<string>
  {
    Ladders.Descending(ladder) + SortedStrings(OffTarget(ladder, symbols))
  }

  /** `lot_counts.get(symbol).unwrap_or(0.0)`. */
  function CountOf(counts: map<string, real>, symbol: string): real {
    if symbol in counts then counts[symbol] else 0.0
  }

  function MakeRow(symbol: string, count: real, market: real, targetPortion: real, full: real): Row
  {
    var marketPortion := if full == 0.0 then Undefined else Share(market / full);
    var target := targetPortion * full;
    var driftPortion := if full == 0.0 then Undefined else Share(market / full - targetPortion);
    Row(symbol, count, market, marketPortion, target, targetPortion, market - target, driftPortion)
  }

  /** The arithmetic of a report line: the target value is the target
      portion of the full value, the drift is market minus target, and the
      two portions of the full value are undefined when it is zero. */
  predicate RowArithmetic(full: real, row: Row)
  {
    && row.target == row.targetPortion * full
    && row.drift == row.market - row.target
    && (full == 0.0 ==> row.marketPortion == Undefined && row.driftPortion == Undefined)
    && (full != 0.0 ==> row.marketPortion == Share(row.market / full)
                        && row.driftPortion == Share(row.market / full - row.targetPortion))
  }

  /** What each report line holds: the share count (0 when there are no
      lots), the market value (0 for an unheld target), the target portion
      (0 off target), and the arithmetic above. */
  ghost predicate RowAgrees(ladder: Ladders.Ladder, counts: map<string, real>, values: map<string, real>,
                            full: real, row: Row)
  {
    && row.count == CountOf(counts, row.symbol)
    && row.market == (if row.symbol in values then values[row.symbol] else 0.0)
    && row.targetPortion == (if row.symbol in Ladders.TargetSymbols(ladder)
                             then Ladders.TargetPortions(ladder)[row.symbol] else 0.0)
    && RowArithmetic(full, row)
  }

  lemma MakeRowFields(symbol: string, count: real, market: real, targetPortion: real, full: real)
    ensures var row := MakeRow(symbol, count, market, targetPortion, full);
      && row.symbol == symbol && row.count == count && row.market == market
      && row.targetPortion == targetPortion
      && RowArithmetic(full, row)
  {
  }

  function RowSymbols(rows: seq<Row>): (r: seq<string>)
    ensures |r| == |rows|
    ensures forall i :: 0 <= i < |rows| ==> r[i] == rows[i].symbol
  {
    seq(|rows|, i requires 0 <= i < |rows| => rows[i].symbol)
  }

  /** `status` without pricing and printing. `symbols`, `counts` and
      `values` are the portfolio's symbols, share counts and market values.
      An off-target symbol without a market value is the `expect("value")`
      panic. */
  ghost function Status(ladder: Ladders.Ladder, symbols: set<string>, counts: map<string, real>,
                        values: map<string, real>): (r: Result<seq<Row>>)
    ensures r.Failure? <==> exists s :: s in OffTarget(ladder, symbols) && s !in values
    ensures r.Failure? ==> r.error == MissingValue
    ensures r.Success? ==> |r.value| == |ladder.targets| + |OffTarget(ladder, symbols)|
    ensures r.Success? ==> RowSymbols(r.value)[..|ladder.targets|] == Ladders.Descending(ladder)
    ensures r.Success? ==> forall s :: s in RowSymbols(r.value)[|ladder.targets|..] <==> s in OffTarget(ladder, symbols)
    ensures r.Success? ==> StrictlyAscending(RowSymbols(r.value)[|ladder.targets|..])
    ensures r.Success? ==> forall i :: 0 <= i < |r.value| ==>
              RowAgrees(ladder, counts, values, FullValue(ladder, values), r.value[i])
  {
    if exists s :: s in OffTarget(ladder, symbols) && s !in values then
      Failure(MissingValue)
    else
      var rows := Rows(ladder, symbols, counts, values);
      ReportOrderShape(ladder, symbols);
      Success(rows)
  }

  /** The report lines, in report order. */
  ghost function Rows(ladder: Ladders.Ladder, symbols: set<string>, counts: map<string, real>,
                      values: map<string, real>): (rows: seq<Row>)
    requires forall s :: s in OffTarget(ladder, symbols) ==> s in values
    ensures RowSymbols(rows) == ReportOrder(ladder, symbols)
    ensures forall i :: 0 <= i < |rows| ==>
              RowAgrees(ladder, counts, values, FullValue(ladder, values), rows[i])
  {
    var order := ReportOrder(ladder, symbols);
    var portions := PortionTargets(ladder, symbols);
    var actual := ActualValues(ladder, values);
    var full := FullValue(ladder, values);
    var rows := seq(|order|, i requires 0 <= i < |order| =>
      MakeRow(order[i], CountOf(counts, order[i]), actual[order[i]], portions[order[i]], full));
    assert RowSymbols(rows) == order;
    RowsAgree(ladder, symbols, counts, values, order, rows);
    rows
  }

  lemma ReportOrderShape(ladder: Ladders.Ladder, symbols: set<string>)
    ensures |ReportOrder(ladder, symbols)| == |ladder.targets| + |OffTarget(ladder, symbols)|
    ensures ReportOrder(ladder, symbols)[..|ladder.targets|] == Ladders.Descending(ladder)
    ensures ReportOrder(ladder, symbols)[|ladder.targets|..] == SortedStrings(OffTarget(ladder, symbols))
  {
  }

  lemma MakeRowAgrees(ladder: Ladders.Ladder, symbols: set<string>, counts: map<string, real>,
                      values: map<string, real>, s: string, full: real)
    requires s in Ladders.Ascending(ladder) || s in OffTarget(ladder, symbols)
    requires s in OffTarget(ladder, symbols) ==> s in values
    ensures RowAgrees(ladder, counts, values, full,
                      MakeRow(s, CountOf(counts, s), ActualValues(ladder, values)[s],
                              PortionTargets(ladder, symbols)[s], full))
  {
    var market := ActualValues(ladder, values)[s];
    var portion := PortionTargets(ladder, symbols)[s];
    MakeRowFields(s, CountOf(counts, s), market, portion, full);
    if s in Ladders.TargetSymbols(ladder) {
      assert portion == Ladders.TargetPortions(ladder)[s];
    } else {
      assert portion == 0.0;
    }
  }

  lemma RowsAgree(ladder: Ladders.Ladder, symbols: set<string>, counts: map<string, real>,
                  values: map<string, real>, order: seq<string>, rows: seq<Row>)
    requires order == ReportOrder(ladder, symbols)
    requires forall s :: s in OffTarget(ladder, symbols) ==> s in values
    requires |rows| == |order|
    requires forall i :: 0 <= i < |order| ==>
               rows[i] == MakeRow(order[i], CountOf(counts, order[i]),
                                  ActualValues(ladder, values)[order[i]],
                                  PortionTargets(ladder, symbols)[order[i]], FullValue(ladder, values))
    ensures forall i :: 0 <= i < |rows| ==>
              RowAgrees(ladder, counts, values, FullValue(ladder, values), rows[i])
  {
    forall i | 0 <= i < |rows|
      ensures RowAgrees(ladder, counts, values, FullValue(ladder, values), rows[i])
    {
      MakeRowAgrees(ladder, symbols, counts, values, order[i], FullValue(ladder, values));
    }
  }

  // ------------------------------------------------------- column totals

  function TargetColumn(rows: seq<Row>): (r: seq<real>)
    ensures |r| == |rows| && forall i :: 0 <= i < |rows| ==> r[i] == rows[i].target
  {
    seq(|rows|, i requires 0 <= i < |rows| => rows[i].target)
  }

  function MarketColumn(rows: seq<Row>): (r: seq<real>)
    ensures |r| == |rows| && forall i :: 0 <= i < |rows| ==> r[i] == rows[i].market
  {
    seq(|rows|, i requires 0 <= i < |rows| => rows[i].market)
  }

  function DriftColumn(rows: seq<Row>): (r: seq<real>)
    ensures |r| == |rows| && forall i :: 0 <= i < |rows| ==> r[i] == rows[i].drift
  {
    seq(|rows|, i requires 0 <= i < |rows| => rows[i].drift)
  }

  /** A ladder whose targets are distinct tags as parsing produces them. */
  predicate ValidLadder(ladder: Ladders.Ladder) {
    && Distinct(ladder.targets)
    && forall k :: 0 <= k < |ladder.targets| ==> AssetTags.WellFormed(ladder.targets[k])
  }

  /** For a ladder of distinct parsed targets, no symbol is listed twice in
      the report. A repeated target is listed once per occurrence. */
  lemma ReportOrderDistinct(ladder: Ladders.Ladder, symbols: set<string>)
    requires ValidLadder(ladder)
    ensures Distinct(ReportOrder(ladder, symbols))
  {
    var off := SortedStrings(OffTarget(ladder, symbols));
    Ladders.DescendingDistinct(ladder);
    StrictlyAscendingDistinct(off);
    DistinctConcat(Ladders.Descending(ladder), off);
  }

  /** The report line at `i < n` is the target at descending position `i`,
      with that target's portion. */
  lemma RowOnTarget(ladder: Ladders.Ladder, symbols: set<string>, counts: map<string, real>,
                    values: map<string, real>, i: nat)
    requires forall s :: s in OffTarget(ladder, symbols) ==> s in values
    requires i < |ladder.targets|
    ensures Ladders.Descending(ladder)[i] in Ladders.TargetPortions(ladder)
    ensures Rows(ladder, symbols, counts, values)[i].symbol == Ladders.Descending(ladder)[i]
    ensures Rows(ladder, symbols, counts, values)[i].targetPortion
            == Ladders.TargetPortions(ladder)[Ladders.Descending(ladder)[i]]
  {
    var rows := Rows(ladder, symbols, counts, values);
    var order := ReportOrder(ladder, symbols);
    assert rows[i].symbol == order[i] == Ladders.Descending(ladder)[i];
    assert RowAgrees(ladder, counts, values, FullValue(ladder, values), rows[i]);
    assert order[i] in Ladders.TargetSymbols(ladder);
  }

  /** Every report line after the targets has portion zero. */
  lemma RowOffTarget(ladder: Ladders.Ladder, symbols: set<string>, counts: map<string, real>,
                     values: map<string, real>, i: nat)
    requires forall s :: s in OffTarget(ladder, symbols) ==> s in values
    requires |ladder.targets| <= i < |Rows(ladder, symbols, counts, values)|
    ensures Rows(ladder, symbols, counts, values)[i].symbol in OffTarget(ladder, symbols)
    ensures Rows(ladder, symbols, counts, values)[i].targetPortion == 0.0
  {
    var rows := Rows(ladder, symbols, counts, values);
    var order := ReportOrder(ladder, symbols);
    var n := |ladder.targets|;
    var s := SortedStrings(OffTarget(ladder, symbols))[i - n];
    ReportOrderShape(ladder, symbols);
    assert order[n..][i - n] == s;
    assert rows[i].symbol == order[i];
    assert s in OffTarget(ladder, symbols);
    assert s !in Ladders.TargetSymbols(ladder);
    assert RowAgrees(ladder, counts, values, FullValue(ladder, values), rows[i]);
  }

  lemma RowsArithmetic(ladder: Ladders.Ladder, symbols: set<string>, counts: map<string, real>,
                       values: map<string, real>)
    requires forall s :: s in OffTarget(ladder, symbols) ==> s in values
    ensures forall i :: 0 <= i < |Rows(ladder, symbols, counts, values)| ==>
              RowArithmetic(FullValue(ladder, values), Rows(ladder, symbols, counts, values)[i])
  {
    var rows := Rows(ladder, symbols, counts, values);
    forall i | 0 <= i < |rows| ensures RowArithmetic(FullValue(ladder, values), rows[i]) {
      assert RowAgrees(ladder, counts, values, FullValue(ladder, values), rows[i]);
    }
  }

  /** The market value on the report line at `i`, zero-filled. */
  lemma RowMarket(ladder: Ladders.Ladder, symbols: set<string>, counts: map<string, real>,
                  values: map<string, real>, i: nat)
    requires forall s :: s in OffTarget(ladder, symbols) ==> s in values
    requires i < |Rows(ladder, symbols, counts, values)|
    ensures ReportOrder(ladder, symbols)[i] in ActualValues(ladder, values)
    ensures Rows(ladder, symbols, counts, values)[i].market
            == ActualValues(ladder, values)[ReportOrder(ladder, symbols)[i]]
  {
    var rows := Rows(ladder, symbols, counts, values);
    assert rows[i].symbol == ReportOrder(ladder, symbols)[i];
    assert RowAgrees(ladder, counts, values, FullValue(ladder, values), rows[i]);
  }

  /** With the report's arithmetic, the drift column is the market column
      minus the target column. */
  lemma DriftColumnSplit(rows: seq<Row>, full: real)
    requires forall i :: 0 <= i < |rows| ==> RowArithmetic(full, rows[i])
    ensures SumSeq(DriftColumn(rows)) == SumSeq(MarketColumn(rows)) - SumSeq(TargetColumn(rows))
  {
    SumSeqSub(MarketColumn(rows), TargetColumn(rows), DriftColumn(rows));
  }

  /** With the report's arithmetic, the target column is the portion column
      times the full value. */
  lemma TargetColumnScaled(rows: seq<Row>, full: real)
    requires forall i :: 0 <= i < |rows| ==> RowArithmetic(full, rows[i])
    ensures SumSeq(TargetColumn(rows)) == SumSeq(PortionColumn(rows)) * full
  {
    SumSeqScale(PortionColumn(rows), TargetColumn(rows), full);
  }

  function PortionColumn(rows: seq<Row>): (r: seq<real>)
    ensures |r| == |rows| && forall i :: 0 <= i < |rows| ==> r[i] == rows[i].targetPortion
  {
    seq(|rows|, i requires 0 <= i < |rows| => rows[i].targetPortion)
  }

  /** Lines whose first portions are read from a map, key by key, and
      whose remaining portions are zero have portions adding up to the sum
      of the map. */
  lemma PortionColumnTotal(rows: seq<Row>, portions: map<string, real>, keys: seq<string>)
    requires |keys| <= |rows|
    requires forall i :: 0 <= i < |keys| ==> keys[i] in portions && rows[i].targetPortion == portions[keys[i]]
    requires forall i :: |keys| <= i < |rows| ==> rows[i].targetPortion == 0.0
    requires Distinct(keys)
    requires forall k :: k in portions <==> k in keys
    ensures SumSeq(PortionColumn(rows)) == SumValues(portions)
  {
    var column := PortionColumn(rows);
    var n := |keys|;
    var front, back := column[..n], column[n..];
    assert column == front + back;
    SumSeqConcat(front, back);
    assert forall i :: 0 <= i < |back| ==> back[i] == 0.0 by {
      forall i | 0 <= i < |back| ensures back[i] == 0.0 {
        assert back[i] == rows[n + i].targetPortion;
      }
    }
    SumSeqZero(back);
    assert front == Along(portions, keys) by {
      forall i | 0 <= i < n ensures front[i] == Along(portions, keys)[i] {
        assert front[i] == rows[i].targetPortion;
      }
    }
    SumAlong(portions, keys);
  }

  /** For a ladder of at least one distinct parsed target, the target column
      adds up to the full value: the ladder shares out all of it, and
      off-target symbols get none. */
  lemma TargetsAddUpToFullValue(ladder: Ladders.Ladder, symbols: set<string>, counts: map<string, real>,
                                values: map<string, real>)
    requires ValidLadder(ladder) && |ladder.targets| > 0
    requires OffTarget(ladder, symbols) <= values.Keys
    ensures Status(ladder, symbols, counts, values).Success?
    ensures SumSeq(TargetColumn(Status(ladder, symbols, counts, values).value)) == FullValue(ladder, values)
  {
    StatusRows(ladder, symbols, counts, values);
    RowsArithmetic(ladder, symbols, counts, values);
    TargetColumnScaled(Rows(ladder, symbols, counts, values), FullValue(ladder, values));
    PortionColumnOfRows(ladder, symbols, counts, values);
  }

  /** With a market value for every off-target symbol the report succeeds,
      and its lines are the rows. */
  lemma StatusRows(ladder: Ladders.Ladder, symbols: set<string>, counts: map<string, real>,
                   values: map<string, real>)
    requires OffTarget(ladder, symbols) <= values.Keys
    ensures forall s :: s in OffTarget(ladder, symbols) ==> s in values
    ensures Status(ladder, symbols, counts, values) == Success(Rows(ladder, symbols, counts, values))
  {
  }

  /** The report's target portions add up to one whenever the ladder has a target. */
  lemma PortionColumnOfRows(ladder: Ladders.Ladder, symbols: set<string>, counts: map<string, real>,
                            values: map<string, real>)
    requires ValidLadder(ladder) && |ladder.targets| > 0
    requires forall s :: s in OffTarget(ladder, symbols) ==> s in values
    ensures SumSeq(PortionColumn(Rows(ladder, symbols, counts, values))) == 1.0
  {
    var rows := Rows(ladder, symbols, counts, values);
    var desc := Ladders.Descending(ladder);
    RowPortions(ladder, symbols, counts, values);
    Ladders.DescendingDistinct(ladder);
    PortionKeys(ladder);
    PortionColumnTotal(rows, Ladders.TargetPortions(ladder), desc);
    Ladders.PortionsSumToOne(Ladders.Ascending(ladder));
  }

  /** Each target row carries its symbol's portion; every other row carries none. */
  lemma RowPortions(ladder: Ladders.Ladder, symbols: set<string>, counts: map<string, real>,
                    values: map<string, real>)
    requires forall s :: s in OffTarget(ladder, symbols) ==> s in values
    ensures |ladder.targets| <= |Rows(ladder, symbols, counts, values)|
    ensures forall i :: 0 <= i < |ladder.targets| ==>
              Ladders.Descending(ladder)[i] in Ladders.TargetPortions(ladder) &&
              Rows(ladder, symbols, counts, values)[i].targetPortion
              == Ladders.TargetPortions(ladder)[Ladders.Descending(ladder)[i]]
    ensures forall i :: |ladder.targets| <= i < |Rows(ladder, symbols, counts, values)| ==>
              Rows(ladder, symbols, counts, values)[i].targetPortion == 0.0
  {
    var rows := Rows(ladder, symbols, counts, values);
    var n := |ladder.targets|;
    var desc := Ladders.Descending(ladder);
    forall i | 0 <= i < n
      ensures desc[i] in Ladders.TargetPortions(ladder)
      ensures rows[i].targetPortion == Ladders.TargetPortions(ladder)[desc[i]]
    {
      RowOnTarget(ladder, symbols, counts, values, i);
    }
    forall i | n <= i < |rows| ensures rows[i].targetPortion == 0.0 {
      RowOffTarget(ladder, symbols, counts, values, i);
    }
  }

  /** The ladder's portions are keyed by exactly its descending symbols. */
  lemma PortionKeys(ladder: Ladders.Ladder)
    ensures forall k :: k in Ladders.TargetPortions(ladder) <==> k in Ladders.Descending(ladder)
  {
    Ladders.ReverseMembers(Ladders.Ascending(ladder), Ladders.Descending(ladder));
  }

  /** The report lists exactly the targets and the off-target symbols. */
  lemma ReportOrderCovers(ladder: Ladders.Ladder, symbols: set<string>)
    ensures forall s :: s in ReportOrder(ladder, symbols) <==>
              s in Ladders.Ascending(ladder) || s in OffTarget(ladder, symbols)
  {
    var desc := Ladders.Descending(ladder);
    var off := SortedStrings(OffTarget(ladder, symbols));
    forall s ensures s in desc + off <==> s in desc || s in off {
    }
  }

  lemma ActualValuesReported(ladder: Ladders.Ladder, symbols: set<string>, values: map<string, real>)
    requires values.Keys <= symbols
    requires forall s :: s in OffTarget(ladder, symbols) ==> s in values
    ensures forall s :: s in ActualValues(ladder, values) <==> s in ReportOrder(ladder, symbols)
  {
    ReportOrderCovers(ladder, symbols);
    forall s ensures s in ActualValues(ladder, values) <==> s in ReportOrder(ladder, symbols) {
      if s in values {
        assert s in symbols;
      }
    }
  }

  /** Lines whose market values are read from a map, each key once, have
      market values adding up to the sum of the map. */
  lemma MarketColumnTotal(rows: seq<Row>, actual: map<string, real>, order: seq<string>)
    requires |rows| == |order|
    requires forall i :: 0 <= i < |order| ==> order[i] in actual && rows[i].market == actual[order[i]]
    requires Distinct(order)
    requires forall s :: s in actual <==> s in order
    ensures SumSeq(MarketColumn(rows)) == SumValues(actual)
  {
    assert MarketColumn(rows) == Along(actual, order);
    SumAlong(actual, order);
  }

  /** For a ladder of distinct parsed targets, when the market values are
      keyed by the portfolio's symbols, as `market_values` produces them, the
      market column adds up to the full value: every valued symbol is
      reported exactly once. */
  lemma MarketsAddUpToFullValue(ladder: Ladders.Ladder, symbols: set<string>, counts: map<string, real>,
                                values: map<string, real>)
    requires ValidLadder(ladder)
    requires values.Keys <= symbols
    requires OffTarget(ladder, symbols) <= values.Keys
    ensures Status(ladder, symbols, counts, values).Success?
    ensures SumSeq(MarketColumn(Status(ladder, symbols, counts, values).value)) == FullValue(ladder, values)
  {
    StatusRows(ladder, symbols, counts, values);
    MarketColumnOfRows(ladder, symbols, counts, values);
  }

  /** The report's market column adds up to the full value. */
  lemma MarketColumnOfRows(ladder: Ladders.Ladder, symbols: set<string>, counts: map<string, real>,
                           values: map<string, real>)
    requires ValidLadder(ladder)
    requires values.Keys <= symbols
    requires forall s :: s in OffTarget(ladder, symbols) ==> s in values
    ensures SumSeq(MarketColumn(Rows(ladder, symbols, counts, values))) == FullValue(ladder, values)
  {
    var rows := Rows(ladder, symbols, counts, values);
    var order := ReportOrder(ladder, symbols);
    var actual := ActualValues(ladder, values);
    ActualValuesReported(ladder, symbols, values);
    assert |rows| == |order| by {
      assert RowSymbols(rows) == order;
    }
    forall i | 0 <= i < |order| ensures order[i] in actual && rows[i].market == actual[order[i]] {
      RowMarket(ladder, symbols, counts, values, i);
    }
    ReportOrderDistinct(ladder, symbols);
    MarketColumnTotal(rows, actual, order);
  }

  /** Under the same conditions as the two totals above, the drifts cancel
      out: the report's drift column adds up to zero. */
  lemma DriftsAddUpToZero(ladder: Ladders.Ladder, symbols: set<string>, counts: map<string, real>,
                          values: map<string, real>)
    requires ValidLadder(ladder) && |ladder.targets| > 0
    requires values.Keys <= symbols
    requires OffTarget(ladder, symbols) <= values.Keys
    ensures Status(ladder, symbols, counts, values).Success?
    ensures SumSeq(DriftColumn(Status(ladder, symbols, counts, values).value)) == 0.0
  {
    var rows := Status(ladder, symbols, counts, values).value;
    MarketsAddUpToFullValue(ladder, symbols, counts, values);
    TargetsAddUpToFullValue(ladder, symbols, counts, values);
    assert rows == Rows(ladder, symbols, counts, values);
    RowsArithmetic(ladder, symbols, counts, values);
    DriftsCancel(rows, FullValue(ladder, values));
  }

  /** When both the market and the target column add up to the same value,
      the drift column adds up to zero. */
  lemma DriftsCancel(rows: seq<Row>, full: real)
    requires forall i :: 0 <= i < |rows| ==> RowArithmetic(full, rows[i])
    requires SumSeq(MarketColumn(rows)) == full && SumSeq(TargetColumn(rows)) == full
    ensures SumSeq(DriftColumn(rows)) == 0.0
  {
    DriftColumnSplit(rows, full);
  }
}
