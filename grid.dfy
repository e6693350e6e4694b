/**
 * The unit-by-month grid of the risk matrix: one row per unit, twelve month
 * cells per row, each cell laid out from the acronyms of the rows that fall in
 * it, and the acronym map that the same nested loops fill on the way.
 */
module MatrixGrid {
  import opened Options
  import opened Text
  import opened Sorting
  import opened RiskRecords

  function Id(s: string): string { s }

  ghost predicate HasUnit(rs: seq<Record>, u: string)
  {
    exists i :: 0 <= i < |rs| && rs[i].unit == Some(u)
  }

  /** The `Unidade` column without its missing values, in row order (`dropna`). */
  function UnitColumn(rs: seq<Record>): (us: seq<string>)
    ensures forall u :: u in us <==> HasUnit(rs, u)
  {
    if rs == [] then []
    else
      var prev := UnitColumn(rs[..|rs| - 1]);
      var last := rs[|rs| - 1];
      assert forall u :: HasUnit(rs, u) <==> HasUnit(rs[..|rs| - 1], u) || last.unit == Some(u) by {
        forall u | HasUnit(rs, u) ensures HasUnit(rs[..|rs| - 1], u) || last.unit == Some(u) {
          var i :| 0 <= i < |rs| && rs[i].unit == Some(u);
          if i < |rs| - 1 {
            assert rs[..|rs| - 1][i] == rs[i];
          }
        }
        forall u | HasUnit(rs[..|rs| - 1], u) ensures HasUnit(rs, u) {
          var i :| 0 <= i < |rs| - 1 && rs[..|rs| - 1][i].unit == Some(u);
          assert rs[i] == rs[..|rs| - 1][i];
        }
      }
      match last.unit
      case Some(u) => prev + [u]
      case None => prev
  }

  /**
   * The units heading the grid rows: every unit some row carries, each once,
   * in ascending order (`sorted(df['Unidade'].dropna().unique())`).
   */
  function Units(rs: seq<Record>): (us: seq<string>)
    ensures StrictlyAscending(us)
    ensures forall u :: u in us <==> HasUnit(rs, u)
  {
    var present := Unique(UnitColumn(rs));
    var us := Sort(present, Id);
    DistinctPermutation(present, us);
    assert forall u :: u in us <==> u in multiset(present);
    us
  }

  /** A row falls in cell (u, m) when its unit is u and its month coerces to m. */
  predicate Matches(r: Record, u: string, m: Month)
  {
    r.unit == Some(u) && r.month == Some(m)
  }

  function EntryOf(r: Record, u: string, m: Month): Entry
  {
    Entry(SiglaOf(r), Info(RelatorioOf(r), StatusOf(r), u, m))
  }

  /** The writes made while filling cell (u, m): one per matching row, in row order. */
  function CellEntries(rs: seq<Record>, u: string, m: Month): seq<Entry>
  {
    if rs == [] then []
    else
      CellEntries(rs[..|rs| - 1], u, m)
      + (if Matches(rs[|rs| - 1], u, m) then [EntryOf(rs[|rs| - 1], u, m)] else [])
  }

  function Siglas(es: seq<Entry>): seq<string>
  {
    seq(|es|, i requires 0 <= i < |es| => es[i].sigla)
  }

  /** The acronyms listed in cell (u, m) (`siglas_no_mes`). */
  function CellSiglas(rs: seq<Record>, u: string, m: Month): seq<string>
  {
    Siglas(CellEntries(rs, u, m))
  }

  /**
   * The positions of the rows that fall in cell (u, m): exactly the matching
   * rows, ascending. A row without a unit or without a numeric month in 1..12
   * is in no cell.
   */
  function MatchingRows(rs: seq<Record>, u: string, m: Month): (idx: seq<nat>)
    ensures forall k :: 0 <= k < |idx| ==> idx[k] < |rs| && Matches(rs[idx[k]], u, m)
    ensures forall i :: 0 <= i < |rs| && Matches(rs[i], u, m) ==> i in idx
    ensures forall k, l :: 0 <= k < l < |idx| ==> idx[k] < idx[l]
  {
    if rs == [] then []
    else
      var prev := MatchingRows(rs[..|rs| - 1], u, m);
      var idx := if Matches(rs[|rs| - 1], u, m) then prev + [|rs| - 1] else prev;
      MatchingRowsExtend(rs, u, m, prev, idx);
      idx
  }

  /** The indices matching in all rows but the last, extended by the last row when it matches. */
  lemma MatchingRowsExtend(rs: seq<Record>, u: string, m: Month, prev: seq<nat>, idx: seq<nat>)
    requires rs != []
    requires forall k :: 0 <= k < |prev| ==> prev[k] < |rs| - 1 && Matches(rs[..|rs| - 1][prev[k]], u, m)
    requires forall i :: 0 <= i < |rs| - 1 && Matches(rs[..|rs| - 1][i], u, m) ==> i in prev
    requires forall k, l :: 0 <= k < l < |prev| ==> prev[k] < prev[l]
    requires idx == if Matches(rs[|rs| - 1], u, m) then prev + [|rs| - 1] else prev
    ensures forall k :: 0 <= k < |idx| ==> idx[k] < |rs| && Matches(rs[idx[k]], u, m)
    ensures forall i :: 0 <= i < |rs| && Matches(rs[i], u, m) ==> i in idx
    ensures forall k, l :: 0 <= k < l < |idx| ==> idx[k] < idx[l]
  {
  }

  /** Cell (u, m) lists the acronyms of its matching rows, in row order. */
  lemma {:induction false} CellFollowsRows(rs: seq<Record>, u: string, m: Month)
    ensures |CellSiglas(rs, u, m)| == |MatchingRows(rs, u, m)|
    ensures forall k :: 0 <= k < |MatchingRows(rs, u, m)| ==>
      CellSiglas(rs, u, m)[k] == SiglaOf(rs[MatchingRows(rs, u, m)[k]])
  {
    if rs != [] {
      var init := rs[..|rs| - 1];
      CellFollowsRows(init, u, m);
      var idx, prev := MatchingRows(rs, u, m), MatchingRows(init, u, m);
      forall k | 0 <= k < |prev| ensures CellSiglas(rs, u, m)[k] == SiglaOf(rs[idx[k]]) {
        assert idx[k] == prev[k];
        assert rs[prev[k]] == init[prev[k]];
      }
    }
  }

  /** How a cell shows its acronyms. */
  datatype Cell =
    | Placeholder                                 // "-": no row in this unit and month
    | Stacked(siglas: seq<string>)                // one or two, one above the other
    | TwoByTwo(siglas: seq<string>)               // three or four, in a two-column grid
    | Overflow(first: seq<string>, badge: string) // the first four in the grid, then "+k"

  /** The acronyms a cell puts on screen. */
  function Shown(c: Cell): seq<string>
  {
    match c
    case Placeholder => []
    case Stacked(s) => s
    case TwoByTwo(s) => s
    case Overflow(s, _) => s
  }

  /** The number of acronyms a cell reports as not shown, read back from its badge. */
  function Hidden(c: Cell): nat
  {
    if c.Overflow? && |c.badge| >= 1 && c.badge[0] == '+'
       && forall i :: 1 <= i < |c.badge| ==> IsDigit(c.badge[i])
    then ParseDecimal(c.badge[1..])
    else 0
  }

  /** The layout rule for a cell holding `siglas`, in row order. */
  function Layout(siglas: seq<string>): Cell
  {
    if |siglas| == 0 then Placeholder
    else if |siglas| > 4 then Overflow(siglas[..4], "+" + Decimal(|siglas| - 4))
    else if |siglas| <= 2 then Stacked(siglas)
    else TwoByTwo(siglas)
  }

  /**
   * No acronym gives the "-" placeholder; one or two are stacked; three or
   * four go in a two-column grid; more than four show the first four and a
   * badge from which the number left out reads back.
   */
  lemma LayoutShows(siglas: seq<string>)
    ensures Layout(siglas) == Placeholder <==> siglas == []
    ensures Layout(siglas).Stacked? <==> 1 <= |siglas| <= 2
    ensures Layout(siglas).TwoByTwo? <==> 3 <= |siglas| <= 4
    ensures Layout(siglas).Overflow? <==> |siglas| > 4
    ensures Shown(Layout(siglas)) == siglas[..if |siglas| <= 4 then |siglas| else 4]
    ensures |Shown(Layout(siglas))| + Hidden(Layout(siglas)) == |siglas|
  {
    if |siglas| > 4 {
      var badge := "+" + Decimal(|siglas| - 4);
      assert badge[1..] == Decimal(|siglas| - 4);
      DecimalRoundTrip(|siglas| - 4);
    }
  }

  /** One grid row (`linha`): the unit and the cells keyed by month number. */
  datatype Row = Row(unit: string, cells: map<int, Cell>)

  /** Cell (u, m) as the grid shows it. */
  function CellAt(rs: seq<Record>, u: string, m: Month): Cell
  {
    Layout(CellSiglas(rs, u, m))
  }

  function RowOf(rs: seq<Record>, u: string): Row
  {
    Row(u, map m: int | 1 <= m <= 12 :: CellAt(rs, u, m))
  }

  /** The rows for the units `us`, in order. */
  function GridRows(rs: seq<Record>, us: seq<string>): seq<Row>
  {
    if us == [] then [] else GridRows(rs, us[..|us| - 1]) + [RowOf(rs, us[|us| - 1])]
  }

  /** The grid (`matriz_data`). */
  function Grid(rs: seq<Record>): seq<Row>
  {
    GridRows(rs, Units(rs))
  }

  lemma {:induction false} GridRowsAt(rs: seq<Record>, us: seq<string>)
    ensures |GridRows(rs, us)| == |us|
    ensures forall i :: 0 <= i < |us| ==> GridRows(rs, us)[i] == RowOf(rs, us[i])
  {
    if us != [] {
      var init := us[..|us| - 1];
      GridRowsAt(rs, init);
      assert forall i :: 0 <= i < |init| ==> init[i] == us[i];
    }
  }

  /**
   * The grid has one row per unit, in ascending unit order, and every row has
   * exactly the month keys 1..12, the cell under month m being laid out from
   * the acronyms of the unit's rows for m.
   */
  lemma GridShape(rs: seq<Record>)
    ensures |Grid(rs)| == |Units(rs)|
    ensures forall i :: 0 <= i < |Grid(rs)| ==>
      Grid(rs)[i].unit == Units(rs)[i] && forall m :: m in Grid(rs)[i].cells <==> 1 <= m <= 12
    ensures forall i, m :: 0 <= i < |Grid(rs)| && 1 <= m <= 12 ==>
      Grid(rs)[i].cells[m] == Layout(CellSiglas(rs, Units(rs)[i], m))
  {
    GridRowsAt(rs, Units(rs));
  }

  /**
   * Row `i` falls in cell (u, m) exactly when its unit is u and its month is
   * m; a row whose month is missing or outside 1..12 falls in no cell.
   */
  lemma RowPlacement(rs: seq<Record>, i: nat)
    requires i < |rs|
    ensures forall u, m: Month :: i in MatchingRows(rs, u, m) <==> rs[i].unit == Some(u) && rs[i].month == Some(m)
    ensures rs[i].unit.Some? ==> rs[i].unit.value in Units(rs)
  {
  }

  /** The writes of cells (u, 1) .. (u, k), in month order. */
  function RowEntries(rs: seq<Record>, u: string, k: nat): seq<Entry>
    requires k <= 12
  {
    if k == 0 then [] else RowEntries(rs, u, k - 1) + CellEntries(rs, u, k)
  }

  /** The writes of the rows for `us`, in order. */
  function GridEntries(rs: seq<Record>, us: seq<string>): seq<Entry>
  {
    if us == [] then []
    else GridEntries(rs, us[..|us| - 1]) + RowEntries(rs, us[|us| - 1], 12)
  }

  /** Every write into the acronym map, in the order the grid loops make them. */
  function Writes(rs: seq<Record>): seq<Entry>
  {
    GridEntries(rs, Units(rs))
  }

  /** The acronym map after the writes `es`, each overwriting the previous one. */
  function SiglaMap(es: seq<Entry>): map<string, Info>
  {
    if es == [] then map[]
    else SiglaMap(es[..|es| - 1])[es[|es| - 1].sigla := es[|es| - 1].info]
  }

  /** The map's keys are exactly the acronyms written. */
  lemma {:induction false} SiglaMapKeys(es: seq<Entry>)
    ensures forall k :: k in SiglaMap(es) <==> exists i :: 0 <= i < |es| && es[i].sigla == k
  {
    if es != [] {
      var init := es[..|es| - 1];
      SiglaMapKeys(init);
      assert forall i :: 0 <= i < |init| ==> init[i] == es[i];
    }
  }

  /** Last write wins: an acronym maps to the information of its latest write. */
  lemma {:induction false} LastWriteWins(es: seq<Entry>, k: string)
    requires k in SiglaMap(es)
    ensures exists i :: (0 <= i < |es| && es[i].sigla == k && SiglaMap(es)[k] == es[i].info &&
                         (forall j :: i < j < |es| ==> es[j].sigla != k))
  {
    assert es != [];
    var n := |es| - 1;
    var init := es[..n];
    assert SiglaMap(es) == SiglaMap(init)[es[n].sigla := es[n].info];
    if es[n].sigla != k {
      LastWriteWins(init, k);
      var i :| 0 <= i < |init| && init[i].sigla == k && SiglaMap(init)[k] == init[i].info
        && forall j :: i < j < |init| ==> init[j].sigla != k;
      forall j | i < j < |es| ensures es[j].sigla != k {
        if j < n {
          assert es[j] == init[j];
        }
      }
      assert es[i] == init[i];
    }
  }

  /** The acronyms in the order they first entered the map (a dict's key order). */
  function KeyOrder(es: seq<Entry>): seq<string>
  {
    if es == [] then []
    else
      var prev := KeyOrder(es[..|es| - 1]);
      if es[|es| - 1].sigla in prev then prev else prev + [es[|es| - 1].sigla]
  }

  /** The key order lists every key of the map exactly once. */
  lemma {:induction false} KeyOrderIsKeys(es: seq<Entry>)
    ensures Distinct(KeyOrder(es))
    ensures forall k :: k in KeyOrder(es) <==> k in SiglaMap(es)
  {
    if es != [] {
      KeyOrderIsKeys(es[..|es| - 1]);
    }
  }

  /** The map has exactly as many keys as the key order has entries. */
  lemma KeyCount(es: seq<Entry>)
    ensures |SiglaMap(es).Keys| == |KeyOrder(es)|
  {
    var ks := KeyOrder(es);
    KeyOrderIsKeys(es);
    DistinctCardinality(ks);
    assert (set x | x in ks) == SiglaMap(es).Keys;
  }

  /**
   * The innermost loop: scan the rows, and for each row in cell (u, m) append
   * its acronym to the cell and record the row under its acronym in the map,
   * whose writes so far are `done`.
   */
  method FillCell(rs: seq<Record>, u: string, m: Month, ghost done: seq<Entry>,
                  siglaMap0: map<string, Info>, order0: seq<string>)
    returns (siglas: seq<string>, siglaMap: map<string, Info>, order: seq<string>)
    requires siglaMap0 == SiglaMap(done) && order0 == KeyOrder(done)
    ensures siglas == CellSiglas(rs, u, m)
    ensures siglaMap == SiglaMap(done + CellEntries(rs, u, m))
    ensures order == KeyOrder(done + CellEntries(rs, u, m))
  {
    siglas, siglaMap, order := [], siglaMap0, order0;
    ghost var cell: seq<Entry> := [];
    ghost var es := done;
    assert rs[..0] == [] && done + [] == done;
    for j := 0 to |rs|
      invariant cell == CellEntries(rs[..j], u, m)
      invariant es == done + cell
      invariant siglas == Siglas(cell)
      invariant siglaMap == SiglaMap(es) && order == KeyOrder(es)
    {
      CellEntriesStep(rs, u, m, j);
      if Matches(rs[j], u, m) {
        var e := EntryOf(rs[j], u, m);
        FillCellStep(done, cell, es, e);
        if e.sigla !in siglaMap {
          order := order + [e.sigla];
        }
        siglaMap := siglaMap[e.sigla := e.info];
        siglas := siglas + [e.sigla];
        cell, es := cell + [e], es + [e];
      }
    }
    assert rs[..|rs|] == rs;
  }

  lemma CellEntriesStep(rs: seq<Record>, u: string, m: Month, j: nat)
    requires j < |rs|
    ensures CellEntries(rs[..j + 1], u, m)
      == CellEntries(rs[..j], u, m) + if Matches(rs[j], u, m) then [EntryOf(rs[j], u, m)] else []
  {
    assert rs[..j + 1][..j] == rs[..j];
  }

  /** One matching row in `FillCell`: its write extends the cell's writes and the writes so far. */
  lemma FillCellStep(done: seq<Entry>, cell: seq<Entry>, es: seq<Entry>, e: Entry)
    requires es == done + cell
    ensures es + [e] == done + (cell + [e])
    ensures Siglas(cell + [e]) == Siglas(cell) + [e.sigla]
    ensures SiglaMap(es + [e]) == SiglaMap(es)[e.sigla := e.info]
    ensures KeyOrder(es + [e]) == if e.sigla in SiglaMap(es) then KeyOrder(es) else KeyOrder(es) + [e.sigla]
  {
    WriteStep(es, e);
  }

  /** One more write updates the map at its acronym and adds the acronym to the key order if new. */
  lemma WriteStep(es: seq<Entry>, e: Entry)
    ensures SiglaMap(es + [e]) == SiglaMap(es)[e.sigla := e.info]
    ensures KeyOrder(es + [e]) == if e.sigla in SiglaMap(es) then KeyOrder(es) else KeyOrder(es) + [e.sigla]
  {
  }

  lemma RowEntriesStep(rs: seq<Record>, u: string, m: Month, done: seq<Entry>)
    ensures done + RowEntries(rs, u, m - 1) + CellEntries(rs, u, m) == done + RowEntries(rs, u, m)
  {
  }

  /** The cells of months 1..k of unit `u`, as the month loop has them after month k. */
  function CellsUpTo(rs: seq<Record>, u: string, k: nat): map<int, Cell>
    requires k <= 12
  {
    if k == 0 then map[] else CellsUpTo(rs, u, k - 1)[k := CellAt(rs, u, k)]
  }

  lemma {:induction false} CellsUpToAt(rs: seq<Record>, u: string, k: nat)
    requires k <= 12
    ensures forall j :: j in CellsUpTo(rs, u, k) <==> 1 <= j <= k
    ensures forall j :: 1 <= j <= k ==> CellsUpTo(rs, u, k)[j] == CellAt(rs, u, j)
  {
    if k > 0 {
      CellsUpToAt(rs, u, k - 1);
    }
  }

  lemma CellsMakeRow(rs: seq<Record>, u: string)
    ensures CellsUpTo(rs, u, 12) == RowOf(rs, u).cells
  {
    CellsUpToAt(rs, u, 12);
  }

  /** The month loop for unit `u`: fill cells 1..12 and lay each one out. */
  method FillRow(rs: seq<Record>, u: string, ghost done: seq<Entry>,
                 siglaMap0: map<string, Info>, order0: seq<string>)
    returns (row: Row, siglaMap: map<string, Info>, order: seq<string>)
    requires siglaMap0 == SiglaMap(done) && order0 == KeyOrder(done)
    ensures row == RowOf(rs, u)
    ensures siglaMap == SiglaMap(done + RowEntries(rs, u, 12))
    ensures order == KeyOrder(done + RowEntries(rs, u, 12))
  {
    var cells: map<int, Cell> := map[];
    siglaMap, order := siglaMap0, order0;
    ghost var es := done;
    assert done + RowEntries(rs, u, 0) == done;
    for m := 1 to 13
      invariant cells == CellsUpTo(rs, u, m - 1)
      invariant es == done + RowEntries(rs, u, m - 1)
      invariant siglaMap == SiglaMap(es) && order == KeyOrder(es)
    {
      var siglas;
      siglas, siglaMap, order := FillCell(rs, u, m, es, siglaMap, order);
      RowEntriesStep(rs, u, m, done);
      es := es + CellEntries(rs, u, m);
      cells := cells[m := Layout(siglas)];
    }
    row := Row(u, cells);
    CellsMakeRow(rs, u);
  }

  lemma GridEntriesStep(rs: seq<Record>, us: seq<string>, i: nat)
    requires i < |us|
    ensures GridEntries(rs, us[..i + 1]) == GridEntries(rs, us[..i]) + RowEntries(rs, us[i], 12)
    ensures GridRows(rs, us[..i + 1]) == GridRows(rs, us[..i]) + [RowOf(rs, us[i])]
  {
    assert us[..i + 1][..i] == us[..i];
  }

  /**
   * The unit loop of the source: one row per unit of `Units`, in order, with
   * the acronym map and its key order built on the way.
   */
  method BuildMatrix(rs: seq<Record>) returns (grid: seq<Row>, siglaMap: map<string, Info>, order: seq<string>)
    ensures grid == Grid(rs)
    ensures siglaMap == SiglaMap(Writes(rs))
    ensures order == KeyOrder(Writes(rs))
  {
    var units := Units(rs);
    grid, siglaMap, order := [], map[], [];
    for i := 0 to |units|
      invariant grid == GridRows(rs, units[..i])
      invariant siglaMap == SiglaMap(GridEntries(rs, units[..i]))
      invariant order == KeyOrder(GridEntries(rs, units[..i]))
    {
      var row;
      row, siglaMap, order := FillRow(rs, units[i], GridEntries(rs, units[..i]), siglaMap, order);
      GridEntriesStep(rs, units, i);
      grid := grid + [row];
    }
    assert units[..|units|] == units;
  }
}
