/**
 * Where the acronym map's entries come from: each write the grid loops make
 * is the visit of one row in one cell, and the visits come in loop order
 * (unit ascending, then month, then row). This ties the map, its keys and
 * the title's acronym count back to the rows themselves.
 */
module SiglaProvenance {
  import opened Options
  import opened Text
  import opened Sorting
  import opened RiskRecords
  import opened MatrixGrid

  /** The grid loops finding row `row` in cell (unit, month). */
  datatype Visit = Visit(unit: string, month: Month, row: nat)

  /** Loop order: `a` is visited before `b`. */
  predicate VisitedBefore(a: Visit, b: Visit)
  {
    if a.unit != b.unit then Below(a.unit, b.unit)
    else if a.month != b.month then a.month < b.month
    else a.row < b.row
  }

  lemma VisitedBeforeAsymmetric(a: Visit, b: Visit)
    requires VisitedBefore(a, b)
    ensures !VisitedBefore(b, a) && a != b
  {
    if a.unit != b.unit && Below(b.unit, a.unit) {
      BelowAntisymmetric(a.unit, b.unit);
    }
  }

  /** The writes `es` are those of the visits `vs`, one for one. */
  ghost predicate Tracks(rs: seq<Record>, es: seq<Entry>, vs: seq<Visit>)
  {
    && |es| == |vs|
    && forall p :: 0 <= p < |vs| ==> vs[p].row < |rs| && es[p] == EntryOf(rs[vs[p].row], vs[p].unit, vs[p].month)
  }

  ghost predicate InVisitOrder(vs: seq<Visit>)
  {
    forall p, q :: 0 <= p < q < |vs| ==> VisitedBefore(vs[p], vs[q])
  }

  /** The visits of cell (u, m): its matching rows, ascending. */
  function CellVisits(rs: seq<Record>, u: string, m: Month): seq<Visit>
  {
    var idx := MatchingRows(rs, u, m);
    seq(|idx|, k requires 0 <= k < |idx| => Visit(u, m, idx[k]))
  }

  /** The visits of cells (u, 1) .. (u, k). */
  function RowVisits(rs: seq<Record>, u: string, k: nat): seq<Visit>
    requires k <= 12
  {
    if k == 0 then [] else RowVisits(rs, u, k - 1) + CellVisits(rs, u, k)
  }

  /** The visits of the rows for units `us`, in order. */
  function GridVisits(rs: seq<Record>, us: seq<string>): seq<Visit>
  {
    if us == [] then [] else GridVisits(rs, us[..|us| - 1]) + RowVisits(rs, us[|us| - 1], 12)
  }

  /** Every visit the grid loops make, in loop order. */
  function Visits(rs: seq<Record>): seq<Visit>
  {
    GridVisits(rs, Units(rs))
  }

  // ---- Writes are the visits' entries ----

  lemma TracksAppend(rs: seq<Record>, e1: seq<Entry>, v1: seq<Visit>, e2: seq<Entry>, v2: seq<Visit>)
    requires Tracks(rs, e1, v1) && Tracks(rs, e2, v2)
    ensures Tracks(rs, e1 + e2, v1 + v2)
  {
    forall p | 0 <= p < |v1 + v2|
      ensures (v1 + v2)[p].row < |rs|
      ensures (e1 + e2)[p] == EntryOf(rs[(v1 + v2)[p].row], (v1 + v2)[p].unit, (v1 + v2)[p].month)
    {
      if p >= |v1| {
        assert (v1 + v2)[p] == v2[p - |v1|] && (e1 + e2)[p] == e2[p - |e1|];
      }
    }
  }

  lemma {:induction false} CellTracks(rs: seq<Record>, u: string, m: Month)
    ensures Tracks(rs, CellEntries(rs, u, m), CellVisits(rs, u, m))
  {
    if rs != [] {
      var n := |rs| - 1;
      var init := rs[..n];
      CellTracks(init, u, m);
      var vi, v := CellVisits(init, u, m), CellVisits(rs, u, m);
      var ei, e := CellEntries(init, u, m), CellEntries(rs, u, m);
      assert |MatchingRows(rs, u, m)| == |vi| + if Matches(rs[n], u, m) then 1 else 0;
      forall p | 0 <= p < |v|
        ensures v[p].row < |rs| && e[p] == EntryOf(rs[v[p].row], v[p].unit, v[p].month)
      {
        if p < |vi| {
          assert v[p] == vi[p] && e[p] == ei[p];
          assert rs[vi[p].row] == init[vi[p].row];
        } else {
          assert v[p] == Visit(u, m, n);
        }
      }
    }
  }

  lemma {:induction false} RowTracks(rs: seq<Record>, u: string, k: nat)
    requires k <= 12
    ensures Tracks(rs, RowEntries(rs, u, k), RowVisits(rs, u, k))
  {
    if k > 0 {
      RowTracks(rs, u, k - 1);
      CellTracks(rs, u, k);
      TracksAppend(rs, RowEntries(rs, u, k - 1), RowVisits(rs, u, k - 1), CellEntries(rs, u, k), CellVisits(rs, u, k));
    }
  }

  lemma {:induction false} GridTracks(rs: seq<Record>, us: seq<string>)
    ensures Tracks(rs, GridEntries(rs, us), GridVisits(rs, us))
  {
    if us != [] {
      var init, u := us[..|us| - 1], us[|us| - 1];
      GridTracks(rs, init);
      RowTracks(rs, u, 12);
      TracksAppend(rs, GridEntries(rs, init), GridVisits(rs, init), RowEntries(rs, u, 12), RowVisits(rs, u, 12));
    }
  }

  /** The map's writes are, one for one, the entries of the rows the loops visit. */
  lemma WritesTrackVisits(rs: seq<Record>)
    ensures Tracks(rs, Writes(rs), Visits(rs))
  {
    GridTracks(rs, Units(rs));
  }

  // ---- The visits are exactly the rows placed in cells ----

  lemma CellVisitsSound(rs: seq<Record>, u: string, m: Month)
    ensures forall v :: v in CellVisits(rs, u, m) ==>
      v.unit == u && v.month == m && v.row < |rs| && Matches(rs[v.row], u, m)
  {
  }

  lemma {:induction false} RowVisitsSound(rs: seq<Record>, u: string, k: nat)
    requires k <= 12
    ensures forall v :: v in RowVisits(rs, u, k) ==>
      v.unit == u && v.month <= k && v.row < |rs| && Matches(rs[v.row], u, v.month)
  {
    if k > 0 {
      RowVisitsSound(rs, u, k - 1);
      CellVisitsSound(rs, u, k);
    }
  }

  lemma {:induction false} GridVisitsSound(rs: seq<Record>, us: seq<string>)
    ensures forall v :: v in GridVisits(rs, us) ==>
      v.unit in us && v.row < |rs| && Matches(rs[v.row], v.unit, v.month)
  {
    if us != [] {
      var init := us[..|us| - 1];
      GridVisitsSound(rs, init);
      RowVisitsSound(rs, us[|us| - 1], 12);
      assert forall u :: u in init ==> u in us;
    }
  }

  lemma CellVisitsComplete(rs: seq<Record>, u: string, m: Month, i: nat)
    requires i < |rs| && Matches(rs[i], u, m)
    ensures Visit(u, m, i) in CellVisits(rs, u, m)
  {
    var idx := MatchingRows(rs, u, m);
    var k :| 0 <= k < |idx| && idx[k] == i;
    assert CellVisits(rs, u, m)[k] == Visit(u, m, i);
  }

  lemma {:induction false} RowVisitsComplete(rs: seq<Record>, u: string, k: nat, m: Month, i: nat)
    requires k <= 12 && m <= k && i < |rs| && Matches(rs[i], u, m)
    ensures Visit(u, m, i) in RowVisits(rs, u, k)
  {
    if m == k {
      CellVisitsComplete(rs, u, m, i);
    } else {
      RowVisitsComplete(rs, u, k - 1, m, i);
    }
  }

  lemma {:induction false} GridVisitsComplete(rs: seq<Record>, us: seq<string>, u: string, m: Month, i: nat)
    requires u in us && i < |rs| && Matches(rs[i], u, m)
    ensures Visit(u, m, i) in GridVisits(rs, us)
  {
    var n := |us| - 1;
    if us[n] == u {
      RowVisitsComplete(rs, u, 12, m, i);
    } else {
      assert u in us[..n];
      GridVisitsComplete(rs, us[..n], u, m, i);
    }
  }

  /** The loops visit a row in cell (u, m) exactly when the row's unit is u and its month is m. */
  lemma VisitsAreRows(rs: seq<Record>)
    ensures forall v :: v in Visits(rs) ==> v.row < |rs| && Matches(rs[v.row], v.unit, v.month)
    ensures forall i, u, m: Month :: 0 <= i < |rs| && Matches(rs[i], u, m) ==> Visit(u, m, i) in Visits(rs)
  {
    GridVisitsSound(rs, Units(rs));
    forall i, u, m: Month | 0 <= i < |rs| && Matches(rs[i], u, m) ensures Visit(u, m, i) in Visits(rs) {
      RowPlacement(rs, i);
      GridVisitsComplete(rs, Units(rs), u, m, i);
    }
  }

  // ---- The visits come in loop order ----

  lemma OrderAppend(a: seq<Visit>, b: seq<Visit>)
    requires InVisitOrder(a) && InVisitOrder(b)
    requires forall x, y :: x in a && y in b ==> VisitedBefore(x, y)
    ensures InVisitOrder(a + b)
  {
    forall p, q | 0 <= p < q < |a + b| ensures VisitedBefore((a + b)[p], (a + b)[q]) {
      if q < |a| {
        assert (a + b)[p] == a[p] && (a + b)[q] == a[q];
      } else if p >= |a| {
        assert (a + b)[p] == b[p - |a|] && (a + b)[q] == b[q - |a|];
      } else {
        assert (a + b)[p] in a && (a + b)[q] in b;
      }
    }
  }

  lemma CellVisitsOrdered(rs: seq<Record>, u: string, m: Month)
    ensures InVisitOrder(CellVisits(rs, u, m))
  {
    var c, idx := CellVisits(rs, u, m), MatchingRows(rs, u, m);
    forall p, q | 0 <= p < q < |c| ensures VisitedBefore(c[p], c[q]) {
      assert c[p] == Visit(u, m, idx[p]) && c[q] == Visit(u, m, idx[q]);
    }
  }

  lemma {:induction false} RowVisitsOrdered(rs: seq<Record>, u: string, k: nat)
    requires k <= 12
    ensures InVisitOrder(RowVisits(rs, u, k))
  {
    if k > 0 {
      RowVisitsOrdered(rs, u, k - 1);
      RowVisitsSound(rs, u, k - 1);
      CellVisitsSound(rs, u, k);
      CellVisitsOrdered(rs, u, k);
      OrderAppend(RowVisits(rs, u, k - 1), CellVisits(rs, u, k));
    }
  }

  lemma {:induction false} GridVisitsOrdered(rs: seq<Record>, us: seq<string>)
    requires StrictlyAscending(us)
    ensures InVisitOrder(GridVisits(rs, us))
  {
    if us != [] {
      var n := |us| - 1;
      var init := us[..n];
      assert StrictlyAscending(init);
      GridVisitsOrdered(rs, init);
      GridVisitsSound(rs, init);
      RowVisitsOrdered(rs, us[n], 12);
      RowVisitsSound(rs, us[n], 12);
      forall x, y | x in GridVisits(rs, init) && y in RowVisits(rs, us[n], 12) ensures VisitedBefore(x, y) {
        var i :| 0 <= i < n && init[i] == x.unit;
        assert us[i] == x.unit;
      }
      OrderAppend(GridVisits(rs, init), RowVisits(rs, us[n], 12));
    }
  }

  /** The grid loops visit units in ascending order, then months, then rows. */
  lemma VisitsInLoopOrder(rs: seq<Record>)
    ensures InVisitOrder(Visits(rs))
  {
    GridVisitsOrdered(rs, Units(rs));
  }

  // ---- The same facts, one visit at a time ----

  /** The `p`-th write is the entry of the `p`-th visit, whose row lies in the visited cell. */
  lemma WriteAt(rs: seq<Record>, p: nat)
    requires p < |Writes(rs)|
    ensures p < |Visits(rs)| && Visits(rs)[p].row < |rs|
    ensures Matches(rs[Visits(rs)[p].row], Visits(rs)[p].unit, Visits(rs)[p].month)
    ensures Writes(rs)[p] == EntryOf(rs[Visits(rs)[p].row], Visits(rs)[p].unit, Visits(rs)[p].month)
  {
    WritesTrackVisits(rs);
    VisitsAreRows(rs);
    assert Visits(rs)[p] in Visits(rs);
  }

  /** A placed row is visited: the position of its visit. */
  lemma VisitPosition(rs: seq<Record>, i: nat) returns (q: nat)
    requires i < |rs| && Placed(rs[i])
    ensures q < |Visits(rs)| && q < |Writes(rs)| && Visits(rs)[q] == VisitOf(rs, i)
    ensures Writes(rs)[q].sigla == SiglaOf(rs[i])
  {
    WritesTrackVisits(rs);
    VisitsAreRows(rs);
    var w := VisitOf(rs, i);
    assert Matches(rs[i], w.unit, w.month);
    q :| 0 <= q < |Visits(rs)| && Visits(rs)[q] == w;
  }

  lemma VisitedInOrder(rs: seq<Record>, p: nat, q: nat)
    requires p < q < |Visits(rs)|
    ensures VisitedBefore(Visits(rs)[p], Visits(rs)[q])
  {
    VisitsInLoopOrder(rs);
  }

  // ---- The acronym map in terms of the rows ----

  /** A row lies in some cell: it has a unit and a month in 1..12. */
  predicate Placed(r: Record)
  {
    r.unit.Some? && r.month.Some? && 1 <= r.month.value <= 12
  }

  /** The visit of placed row `i`. */
  function VisitOf(rs: seq<Record>, i: nat): Visit
    requires i < |rs| && Placed(rs[i])
  {
    Visit(rs[i].unit.value, rs[i].month.value, i)
  }

  /** The acronyms of the rows that lie in some cell. */
  ghost function PlacedSiglas(rs: seq<Record>): set<string>
  {
    set i | 0 <= i < |rs| && Placed(rs[i]) :: SiglaOf(rs[i])
  }

  /** An acronym is a key of the map exactly when some row placed in a cell carries it. */
  lemma SiglaMapFromRows(rs: seq<Record>, k: string)
    ensures k in SiglaMap(Writes(rs)) <==> exists i :: 0 <= i < |rs| && Placed(rs[i]) && SiglaOf(rs[i]) == k
  {
    var es := Writes(rs);
    SiglaMapKeys(es);
    if k in SiglaMap(es) {
      var p :| 0 <= p < |es| && es[p].sigla == k;
      WriteAt(rs, p);
      assert Placed(rs[Visits(rs)[p].row]);
    }
    if i :| 0 <= i < |rs| && Placed(rs[i]) && SiglaOf(rs[i]) == k {
      var q := VisitPosition(rs, i);
    }
  }

  /** The map's keys are the acronyms of the placed rows; the title counts these. */
  lemma MapKeysArePlacedSiglas(rs: seq<Record>)
    ensures SiglaMap(Writes(rs)).Keys == PlacedSiglas(rs)
  {
    forall k ensures k in SiglaMap(Writes(rs)) <==> k in PlacedSiglas(rs) {
      SiglaMapFromRows(rs, k);
    }
  }

  /** Row `i` is placed, carries `k`, and no placed row carrying `k` is visited after it. */
  ghost predicate LastCarrier(rs: seq<Record>, k: string, i: nat)
  {
    && i < |rs| && Placed(rs[i]) && SiglaOf(rs[i]) == k
    && forall j :: 0 <= j < |rs| && Placed(rs[j]) && SiglaOf(rs[j]) == k ==>
         !VisitedBefore(VisitOf(rs, i), VisitOf(rs, j))
  }

  /** The visit behind the last write of `k` is of the last row carrying `k`. */
  lemma LastWriteIsLastCarrier(rs: seq<Record>, k: string, p: nat)
    requires p < |Writes(rs)| && Writes(rs)[p].sigla == k
    requires forall q :: p < q < |Writes(rs)| ==> Writes(rs)[q].sigla != k
    ensures p < |Visits(rs)| && Visits(rs)[p].row < |rs|
    ensures LastCarrier(rs, k, Visits(rs)[p].row)
    ensures Visits(rs)[p] == VisitOf(rs, Visits(rs)[p].row)
    ensures Writes(rs)[p] == EntryOf(rs[Visits(rs)[p].row], Visits(rs)[p].unit, Visits(rs)[p].month)
  {
    WriteAt(rs, p);
    var v := Visits(rs)[p];
    var i := v.row;
    assert Placed(rs[i]) && v == VisitOf(rs, i);
    forall j | 0 <= j < |rs| && Placed(rs[j]) && SiglaOf(rs[j]) == k
      ensures !VisitedBefore(v, VisitOf(rs, j))
    {
      var q := VisitPosition(rs, j);
      if q < p {
        VisitedInOrder(rs, q, p);
        VisitedBeforeAsymmetric(VisitOf(rs, j), v);
      }
    }
  }

  /**
   * The map holds, under each acronym, the report, status, unit and month of
   * the last placed row carrying it in loop order.
   */
  lemma LastRowWins(rs: seq<Record>, k: string)
    requires k in SiglaMap(Writes(rs))
    ensures exists i: nat :: (LastCarrier(rs, k, i) &&
      SiglaMap(Writes(rs))[k] == Info(RelatorioOf(rs[i]), StatusOf(rs[i]), rs[i].unit.value, rs[i].month.value))
  {
    var es := Writes(rs);
    LastWriteWins(es, k);
    var p :| 0 <= p < |es| && es[p].sigla == k && SiglaMap(es)[k] == es[p].info
      && forall j :: p < j < |es| ==> es[j].sigla != k;
    LastWriteIsLastCarrier(rs, k, p);
    var i := Visits(rs)[p].row;
    assert LastCarrier(rs, k, i) && es[p].info == Info(RelatorioOf(rs[i]), StatusOf(rs[i]), rs[i].unit.value, rs[i].month.value);
  }
}
