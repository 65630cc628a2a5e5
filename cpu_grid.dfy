/**
 * The per-core CPU block. Cores are taken four at a time in the order the
 * readings come; each group becomes a data row of exactly four cells
 * (`Core <k>: <gauge>  ` for a core that exists, the empty text for a missing
 * one), and every data row is followed by an empty spacer row.
 *
 * The table object the rows are added to is represented by the sequence of its
 * rows: a row is the sequence of its cells' texts, a spacer row is `[]`.
 */
module CpuGrid {

  import opened Wrappers
  import opened Text
  import Gauge

  /**
   * Cells per data row. Where the row width multiplies or divides an index,
   * the lemmas write it as the literal 4, which keeps that arithmetic linear
   * for the verifier; it is the same quantity.
   */
  const RowWidth: nat := 4

  type Row = seq<string>

  /** The text of the cell for core `k` with reading `pct`. */
  function CoreCell(k: nat, pct: Gauge.Tenths): string {
    "Core " + NatToString(k) + ": " + Gauge.Render(pct) + "  "
  }

  /** The cells of every core, in reading order. */
  function CoreCells(pcts: seq<Gauge.Tenths>): seq<string> {
    seq(|pcts|, k requires 0 <= k < |pcts| => CoreCell(k, pcts[k]))
  }

  /**
   * The data row for the group of cells starting at index `i`: four cells,
   * blank where the cells have run out.
   */
  function DataRow(cells: seq<string>, i: nat): Row {
    seq(RowWidth, j requires 0 <= j < RowWidth => if i + j < |cells| then cells[i + j] else "")
  }

  /** The rows produced for the groups starting at `i`, `i + 4`, ... while the index is in range. */
  function GridFrom(cells: seq<string>, i: nat): seq<Row>
    decreases |cells| - i
  {
    if i >= |cells| then [] else [DataRow(cells, i), []] + GridFrom(cells, i + RowWidth)
  }

  /** The whole CPU block for the readings `pcts`, one per core. */
  function Grid(pcts: seq<Gauge.Tenths>): seq<Row> {
    GridFrom(CoreCells(pcts), 0)
  }

  /** The number of data rows: the number of groups of four, the last possibly partial. */
  function DataRows(n: nat): nat {
    (n + 3) / 4
  }

  /**
   * Builds the block with two nested loops, appending cell by cell and row by
   * row; the inner loop is BuildRow.
   */
  method BuildCpuTable(pcts: seq<Gauge.Tenths>) returns (table: seq<Row>)
    ensures table == Grid(pcts)
  {
    ghost var cells := CoreCells(pcts);
    table := [];
    var i := 0;
    while i < |pcts|
      invariant table + GridFrom(cells, i) == Grid(pcts)
    {
      var row := BuildRow(pcts, i);
      AppendRowAndSpacer(table, row, GridFrom(cells, i + RowWidth));
      table := table + [row];
      table := table + [[]];
      i := i + RowWidth;
    }
  }

  /** The inner loop: the four cells of the group starting at core `i`, blank past the last core. */
  method BuildRow(pcts: seq<Gauge.Tenths>, i: nat) returns (row: Row)
    ensures row == DataRow(CoreCells(pcts), i)
  {
    ghost var want := DataRow(CoreCells(pcts), i);
    row := [];
    for j := 0 to RowWidth
      invariant row == want[..j]
    {
      var cell := "";
      if i + j < |pcts| {
        cell := CoreCell(i + j, pcts[i + j]);
      }
      DataRowAt(pcts, i, j);
      PrefixGrows(want, j);
      row := row + [cell];
    }
    assert want[..RowWidth] == want;
  }

  lemma DataRowAt(pcts: seq<Gauge.Tenths>, i: nat, j: nat)
    requires j < RowWidth
    ensures DataRow(CoreCells(pcts), i)[j] == if i + j < |pcts| then CoreCell(i + j, pcts[i + j]) else ""
  {
    DataRowCell(CoreCells(pcts), i, j);
    if i + j < |pcts| {
      CoreCellsAt(pcts, i + j);
    }
  }

  lemma DataRowCell(cells: seq<string>, i: nat, j: nat)
    requires j < RowWidth
    ensures DataRow(cells, i)[j] == if i + j < |cells| then cells[i + j] else ""
  {
  }

  lemma PrefixGrows<T>(s: seq<T>, j: nat)
    requires j < |s|
    ensures s[..j + 1] == s[..j] + [s[j]]
  {
  }

  lemma AppendRowAndSpacer(table: seq<Row>, row: Row, rest: seq<Row>)
    ensures table + [row] + [[]] + rest == table + ([row, []] + rest)
  {
  }

  /** From group `i` on there are two rows, a data row and its spacer, per remaining group of four. */
  lemma {:induction false} GridFromLength(cells: seq<string>, i: nat)
    ensures |GridFrom(cells, i)| == 2 * (if i < |cells| then DataRows(|cells| - i) else 0)
    decreases |cells| - i
  {
    if i < |cells| {
      GridFromLength(cells, i + RowWidth);
      assert DataRows(|cells| - i) == 1 + (if i + 4 < |cells| then DataRows(|cells| - i - 4) else 0);
    }
  }

  /** Group g from group `i` on: rows 2g and 2g + 1 are the data row of group i + 4g and its spacer. */
  lemma {:induction false} GridFromGroup(cells: seq<string>, i: nat, g: nat)
    requires 2 * g + 1 < |GridFrom(cells, i)|
    ensures GridFrom(cells, i)[2 * g] == DataRow(cells, i + 4 * g)
    ensures GridFrom(cells, i)[2 * g + 1] == []
    decreases g
  {
    var rest := GridFrom(cells, i + RowWidth);
    assert GridFrom(cells, i) == [DataRow(cells, i), []] + rest;
    if g > 0 {
      GridFromGroup(cells, i + RowWidth, g - 1);
      assert i + 4 * g == (i + RowWidth) + 4 * (g - 1);
    }
  }

  /**
   * The rows of the block for N cells: 2 * ceil(N / 4) of them, alternating the
   * data row of each group of four with an empty spacer row (a spacer follows
   * the last data row too).
   */
  lemma GridRows(cells: seq<string>)
    ensures |GridFrom(cells, 0)| == 2 * DataRows(|cells|)
    ensures forall r :: 0 <= r < |GridFrom(cells, 0)| ==>
              GridFrom(cells, 0)[r] == if r % 2 == 0 then DataRow(cells, 4 * (r / 2)) else []
  {
    GridFromLength(cells, 0);
    forall r | 0 <= r < |GridFrom(cells, 0)|
      ensures GridFrom(cells, 0)[r] == if r % 2 == 0 then DataRow(cells, 4 * (r / 2)) else []
    {
      assert r == 2 * (r / 2) + r % 2;
      GridFromGroup(cells, 0, r / 2);
    }
  }

  /**
   * The shape of the block for N cores: 2 * ceil(N / 4) rows; even rows have
   * four cells and odd rows none; cell c of data row r is core 4r + c when that
   * core exists and blank otherwise.
   */
  lemma GridShape(pcts: seq<Gauge.Tenths>)
    ensures |Grid(pcts)| == 2 * DataRows(|pcts|)
    ensures forall r :: 0 <= r < |Grid(pcts)| && r % 2 == 1 ==> Grid(pcts)[r] == []
    ensures forall r :: 0 <= r < |Grid(pcts)| && r % 2 == 0 ==> |Grid(pcts)[r]| == RowWidth
    ensures forall r, c :: 0 <= r < |Grid(pcts)| && r % 2 == 0 && 0 <= c < |Grid(pcts)[r]| ==>
              Grid(pcts)[r][c] == if 4 * (r / 2) + c < |pcts|
                                  then CoreCell(4 * (r / 2) + c, pcts[4 * (r / 2) + c])
                                  else ""
  {
    assert |CoreCells(pcts)| == |pcts|;
    GridRows(CoreCells(pcts));
    forall r, c | 0 <= r < |Grid(pcts)| && r % 2 == 0 && 0 <= c < |Grid(pcts)[r]|
      ensures Grid(pcts)[r][c] == if 4 * (r / 2) + c < |pcts|
                                  then CoreCell(4 * (r / 2) + c, pcts[4 * (r / 2) + c])
                                  else ""
    {
      DataRowAt(pcts, 4 * (r / 2), c);
    }
  }

  /** Core k sits in data row k / 4 (grid row 2 * (k / 4)), column k % 4. */
  lemma CorePlacement(pcts: seq<Gauge.Tenths>, k: nat)
    requires k < |pcts|
    ensures 2 * (k / 4) < |Grid(pcts)|
    ensures |Grid(pcts)[2 * (k / 4)]| == RowWidth
    ensures Grid(pcts)[2 * (k / 4)][k % 4] == CoreCell(k, pcts[k])
  {
    GridShape(pcts);
    var r := 2 * (k / 4);
    assert r / 2 == k / 4 && r % 2 == 0;
  }

  /** Four cores fill exactly one data row, followed by its spacer. */
  lemma OneFullRow(a: Gauge.Tenths, b: Gauge.Tenths, c: Gauge.Tenths, d: Gauge.Tenths)
    ensures Grid([a, b, c, d]) == [[CoreCell(0, a), CoreCell(1, b), CoreCell(2, c), CoreCell(3, d)], []]
  {
    var pcts := [a, b, c, d];
    var cells := CoreCells(pcts);
    CoreCellsAt(pcts, 0);
    CoreCellsAt(pcts, 1);
    CoreCellsAt(pcts, 2);
    CoreCellsAt(pcts, 3);
    FourElements(cells);
    FourCellsOneRow(cells);
  }

  /** In a row of four cores, each cell's gauge reads back as its core's reading. */
  lemma OneFullRowShows(pcts: seq<Gauge.Tenths>)
    requires |pcts| == 4
    ensures |Grid(pcts)| == 2 && |Grid(pcts)[0]| == 4
    ensures forall c :: 0 <= c < 4 ==>
              && CellGauge(Grid(pcts)[0][c]).Some?
              && Gauge.ParseRender(CellGauge(Grid(pcts)[0][c]).value) == Some(pcts[c])
              && Gauge.LeadingFull(CellGauge(Grid(pcts)[0][c]).value) == Gauge.Filled(pcts[c])
  {
    GridShape(pcts);
    forall c | 0 <= c < 4
      ensures CellGauge(Grid(pcts)[0][c]).Some?
      ensures Gauge.ParseRender(CellGauge(Grid(pcts)[0][c]).value) == Some(pcts[c])
      ensures Gauge.LeadingFull(CellGauge(Grid(pcts)[0][c]).value) == Gauge.Filled(pcts[c])
    {
      CellShowsReading(Grid(pcts)[0][c], c, pcts[c]);
    }
  }

  lemma CoreCellsAt(pcts: seq<Gauge.Tenths>, k: nat)
    requires k < |pcts|
    ensures |CoreCells(pcts)| == |pcts| && CoreCells(pcts)[k] == CoreCell(k, pcts[k])
  {
  }

  lemma FourElements<T>(s: seq<T>)
    requires |s| == 4
    ensures s == [s[0], s[1], s[2], s[3]]
  {
  }

  lemma FourCellsOneRow(cells: seq<string>)
    requires |cells| == 4
    ensures GridFrom(cells, 0) == [cells, []]
  {
    assert GridFrom(cells, 4) == [];
    assert DataRow(cells, 0) == cells;
  }

  /** The core index written in a cell: the digits between `Core ` and the first `:`. */
  function CellCore(cell: string): Option<nat> {
    if StartsWith(cell, "Core ") then ParseNat(TakeUntil(cell[5..], ':')) else None
  }

  lemma CellCoreOfCoreCell(k: nat, pct: Gauge.Tenths)
    ensures CellCore(CoreCell(k, pct)) == Some(k)
  {
    var digits := NatToString(k);
    var gauge := Gauge.Render(pct);
    CellRegroup(digits, gauge);
    CellCoreOfDigits(digits, " " + gauge + "  ");
    NatToStringParses(k);
  }

  lemma CellRegroup(digits: string, gauge: string)
    ensures "Core " + digits + ": " + gauge + "  " == "Core " + (digits + [':'] + (" " + gauge + "  "))
  {
  }

  /** A cell that starts with `Core `, digits and `:` names the core those digits denote. */
  lemma CellCoreOfDigits(digits: string, rest: string)
    requires AllDigits(digits)
    ensures CellCore("Core " + (digits + [':'] + rest)) == ParseNat(digits)
  {
    var cell := "Core " + (digits + [':'] + rest);
    assert cell[..5] == "Core " && cell[5..] == digits + [':'] + rest;
    assert ':' !in digits;
    TakeUntilField(digits, ':', rest);
  }

  /**
   * The gauge written in a cell: the text after the first `:` and the space
   * that follows it, without the two trailing spaces.
   */
  function CellGauge(cell: string): Option<string> {
    match SplitAt(cell, ':')
    case None => None
    case Some((_, rest)) =>
      if |rest| >= 3 && rest[0] == ' ' && rest[|rest| - 2..] == "  " then Some(rest[1..|rest| - 2]) else None
  }

  /** A core's cell shows the gauge of that core's reading. */
  lemma CellGaugeOfCoreCell(k: nat, pct: Gauge.Tenths)
    ensures CellGauge(CoreCell(k, pct)) == Some(Gauge.Render(pct))
  {
    var digits := NatToString(k);
    var gauge := Gauge.Render(pct);
    GaugeRegroup(digits, gauge);
    assert ':' !in digits;
    CellGaugeOfParts("Core " + digits, gauge);
  }

  /** The gauge a core's cell shows reads back as the reading and fills Filled(pct) segments. */
  lemma CellShowsReading(cell: string, k: nat, pct: Gauge.Tenths)
    requires cell == CoreCell(k, pct)
    ensures CellGauge(cell).Some?
    ensures Gauge.ParseRender(CellGauge(cell).value) == Some(pct)
    ensures Gauge.LeadingFull(CellGauge(cell).value) == Gauge.Filled(pct)
  {
    CellGaugeOfCoreCell(k, pct);
    Gauge.RenderRoundTrip(pct);
    Gauge.RenderShowsFilled(pct);
  }

  lemma GaugeRegroup(digits: string, gauge: string)
    ensures "Core " + digits + ": " + gauge + "  " == ("Core " + digits) + [':'] + (" " + gauge + "  ")
  {
  }

  /** Whatever precedes the first `:`, the gauge between `: ` and the two trailing spaces reads back. */
  lemma CellGaugeOfParts(head: string, gauge: string)
    requires ':' !in head
    ensures CellGauge(head + [':'] + (" " + gauge + "  ")) == Some(gauge)
  {
    var rest := " " + gauge + "  ";
    SplitAtField(head, ':', rest);
    assert rest[|rest| - 2..] == "  " && rest[1..|rest| - 2] == gauge;
  }

  /**
   * Every core appears exactly once, in reading order: a non-blank cell sits
   * in a data row, names the core whose position it occupies and shows the
   * gauge of that core's reading, and a cell is blank exactly when that
   * position is past the last core.
   */
  lemma EachCoreOnce(pcts: seq<Gauge.Tenths>, r: nat, c: nat)
    requires r < |Grid(pcts)| && c < |Grid(pcts)[r]|
    ensures r % 2 == 0
    ensures Grid(pcts)[r][c] == "" <==> 4 * (r / 2) + c >= |pcts|
    ensures Grid(pcts)[r][c] != "" ==> CellCore(Grid(pcts)[r][c]) == Some(4 * (r / 2) + c)
    ensures 4 * (r / 2) + c < |pcts| ==> CellGauge(Grid(pcts)[r][c]) == Some(Gauge.Render(pcts[4 * (r / 2) + c]))
  {
    GridShape(pcts);
    var k := 4 * (r / 2) + c;
    if k < |pcts| {
      CellCoreOfCoreCell(k, pcts[k]);
      CellGaugeOfCoreCell(k, pcts[k]);
    }
  }
}
