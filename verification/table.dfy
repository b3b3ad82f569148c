/** Plain-text tables: columns of left-aligned text printed side by side
    with a fixed gap. Only the plain column kind and boxing are modelled;
    the percentage and dollar columns format floating-point numbers. */
module Tables {
  import opened Text

  /** A column: plain rows padded to the widest one, or a boxed column
      (`Box<dyn Column>`) that forwards to the column inside. */
  datatype Column =
    | Plain(rows: seq<string>, maxRowWidth: nat)
    | Boxed(inner: Column)

  /** The greatest length among `rows`, 0 when there are none. */
  function MaxLength(rows: seq<string>): (r: nat)
    ensures forall i :: 0 <= i < |rows| ==> |rows[i]| <= r
    ensures |rows| == 0 ==> r == 0
    ensures |rows| > 0 ==> exists i :: 0 <= i < |rows| && |rows[i]| == r
  {
    if |rows| == 0 then 0
    else
      var rest := MaxLength(rows[1..]);
      assert forall i :: 1 <= i < |rows| ==> rows[i] == rows[1..][i - 1];
      if |rows[0]| >= rest then |rows[0]| else rest
  }

  /** `PlainColumn::from`. */
  function PlainColumn(rows: seq<string>): (c: Column)
    ensures c.Plain? && c.rows == rows
  {
    Plain(rows, MaxLength(rows))
  }

  /** `Column::rows`. */
  function Rows(c: Column): nat
  {
    match c
    case Plain(rows, _) => |rows|
    case Boxed(inner) => Rows(inner)
  }

  /** `Column::printout`: the row, or nothing past the last row, padded
      with spaces to the column width. */
  function Printout(c: Column, row: nat): string
  {
    match c
    case Plain(rows, width) => PadRight(if row < |rows| then rows[row] else "", width)
    case Boxed(inner) => Printout(inner, row)
  }

  /** The width a column pads to. */
  function Width(c: Column): nat
  {
    match c
    case Plain(_, width) => width
    case Boxed(inner) => Width(inner)
  }

  /** Built by `PlainColumn::from`, possibly boxed any number of times. */
  predicate Made(c: Column)
  {
    match c
    case Plain(rows, width) => width == MaxLength(rows)
    case Boxed(inner) => Made(inner)
  }

  /** Every printout of a plain column is exactly as wide as its widest
      row: a row followed by spaces, or only spaces past the last row. */
  lemma PlainPrintout(rows: seq<string>, row: nat)
    ensures |Printout(PlainColumn(rows), row)| == MaxLength(rows)
    ensures row < |rows| ==> Printout(PlainColumn(rows), row) == rows[row] + Spaces(MaxLength(rows) - |rows[row]|)
    ensures row >= |rows| ==> Printout(PlainColumn(rows), row) == Spaces(MaxLength(rows))
  {
    var text := if row < |rows| then rows[row] else "";
    PadRightSpaces(text, MaxLength(rows));
    if row >= |rows| {
      assert text + Spaces(MaxLength(rows)) == Spaces(MaxLength(rows));
    }
  }

  /** A column boxed `n` times. */
  function Box(c: Column, n: nat): (r: Column)
    ensures n > 0 ==> r.Boxed?
  {
    if n == 0 then c else Boxed(Box(c, n - 1))
  }

  /** However deep the boxing, the row count, the width and every printout
      are those of the column inside. */
  lemma {:induction false} BoxDelegates(c: Column, n: nat, row: nat)
    ensures Rows(Box(c, n)) == Rows(c)
    ensures Width(Box(c, n)) == Width(c)
    ensures Printout(Box(c, n), row) == Printout(c, row)
    ensures Made(Box(c, n)) == Made(c)
  {
    if n > 0 {
      BoxDelegates(c, n - 1, row);
    }
  }

  /** A made column prints every row at its width. */
  lemma {:induction false} MadePrintoutWidth(c: Column, row: nat)
    requires Made(c)
    ensures |Printout(c, row)| == Width(c)
  {
    match c
    case Plain(rows, width) =>
      PlainPrintout(rows, row);
    case Boxed(inner) =>
      MadePrintoutWidth(inner, row);
  }

  // ----------------------------------------------------------------- table

  const ColumnGap: string := "    "

  datatype Table = Table(cols: seq<Column>, maxColHeight: nat)

  /** The greatest row count among `cols`, 0 when there are none. */
  function MaxRows(cols: seq<Column>): (r: nat)
    ensures forall i :: 0 <= i < |cols| ==> Rows(cols[i]) <= r
    ensures |cols| == 0 ==> r == 0
    ensures |cols| > 0 ==> exists i :: 0 <= i < |cols| && Rows(cols[i]) == r
  {
    if |cols| == 0 then 0
    else
      var rest := MaxRows(cols[1..]);
      assert forall i :: 1 <= i < |cols| ==> cols[i] == cols[1..][i - 1];
      if Rows(cols[0]) >= rest then Rows(cols[0]) else rest
  }

  /** `Table::lines`: the height of the tallest column. */
  function Lines(t: Table): nat
  {
    t.maxColHeight
  }

  /** `Table::new`: a table as tall as its tallest column — no column
      is taller, and with at least one column one of them is that tall. */
  function NewTable(cols: seq<Column>): (t: Table)
    ensures t.cols == cols
    ensures forall i :: 0 <= i < |cols| ==> Rows(cols[i]) <= Lines(t)
    ensures |cols| == 0 ==> Lines(t) == 0
    ensures |cols| > 0 ==> exists i :: 0 <= i < |cols| && Rows(cols[i]) == Lines(t)
  {
    Table(cols, MaxRows(cols))
  }

  function Printouts(cols: seq<Column>, row: nat): (r: seq<string>)
    ensures |r| == |cols| && forall i :: 0 <= i < |cols| ==> r[i] == Printout(cols[i], row)
  {
    seq(|cols|, i requires 0 <= i < |cols| => Printout(cols[i], row))
  }

  /** `Table::printout`: the columns' printouts joined with the gap. */
  function TablePrintout(t: Table, row: nat): string
  {
    Join(Printouts(t.cols, row), ColumnGap)
  }

  function SumWidths(cols: seq<Column>): nat
  {
    if |cols| == 0 then 0 else Width(cols[0]) + SumWidths(cols[1..])
  }

  lemma {:induction false} PrintoutsLength(cols: seq<Column>, row: nat)
    requires forall i :: 0 <= i < |cols| ==> Made(cols[i])
    ensures SumLengths(Printouts(cols, row)) == SumWidths(cols)
  {
    if |cols| > 0 {
      MadePrintoutWidth(cols[0], row);
      PrintoutsLength(cols[1..], row);
      assert Printouts(cols, row)[1..] == Printouts(cols[1..], row);
    }
  }

  /** With made columns, every line of the table, past the last row too,
      is as wide as the columns together plus one gap of four spaces
      between each neighbouring pair. */
  lemma TableLineWidth(t: Table, row: nat)
    requires |t.cols| > 0
    requires forall i :: 0 <= i < |t.cols| ==> Made(t.cols[i])
    ensures |TablePrintout(t, row)| == SumWidths(t.cols) + 4 * (|t.cols| - 1)
  {
    JoinLength(Printouts(t.cols, row), ColumnGap);
    PrintoutsLength(t.cols, row);
  }

  /** The line of a table begins with the first column's printout and ends
      with the last one's. */
  lemma TableLineEnds(t: Table, row: nat)
    requires |t.cols| > 0
    ensures var line := TablePrintout(t, row);
      var first := Printout(t.cols[0], row);
      var last := Printout(t.cols[|t.cols| - 1], row);
      |line| >= |first| && line[..|first|] == first && |line| >= |last| && line[|line| - |last|..] == last
  {
    JoinEnds(Printouts(t.cols, row), ColumnGap);
  }
}
