/**
 * The data-selection and maintenance-alert pipeline of the CMAPSS
 * Remaining-Useful-Life dashboard (app.py), with the user interface taken
 * away: the schema check on the table header, the enumeration of engine
 * units, the selection of one unit's rows ordered by cycle, the table handed
 * to the line chart and the alert raised on the minimum predicted RUL.
 *
 * The table arrives already parsed: a header (the column names) and a
 * sequence of rows carrying the three columns the dashboard reads.
 */
module Dashboard {

  datatype Option<T> = None | Some(value: T)

  /** One row of the predictions table: `unit_number`, `time_in_cycles`, `predicted_RUL`. */
  datatype Row = Row(unit: int, cycle: int, rul: real)

  /** The three columns the dashboard needs, in the order it checks them. */
  const REQUIRED_COLUMNS: seq<string> := ["unit_number", "time_in_cycles", "predicted_RUL"]

  /** The two flat lines of the chart, which are also the alert thresholds. */
  const WARNING_LEVEL: int := 30
  const CRITICAL_LEVEL: int := 20

  // ---------------------------------------------------------------------
  // Schema check
  // ---------------------------------------------------------------------

  /** `a` can be obtained from `b` by deleting elements (order is kept). */
  predicate IsSubsequence<T(==)>(a: seq<T>, b: seq<T>)
    decreases |b|
  {
    a == [] ||
    (b != [] &&
     ((a[0] == b[0] && IsSubsequence(a[1..], b[1..])) || IsSubsequence(a, b[1..])))
  }

  /** The names of `cols` that are not in `header`, in the order of `cols`. */
  function MissingFrom(cols: seq<string>, header: seq<string>): (missing: seq<string>)
    ensures forall c :: c in missing <==> c in cols && c !in header
    ensures IsSubsequence(missing, cols)
  {
    if cols == [] then []
    else if cols[0] in header then MissingFrom(cols[1..], header)
    else [cols[0]] + MissingFrom(cols[1..], header)
  }

  /**
   * The required columns absent from the header, in the order of
   * REQUIRED_COLUMNS; empty exactly when all three are present.
   */
  function MissingColumns(header: seq<string>): (missing: seq<string>)
    ensures forall c :: c in missing <==> c in REQUIRED_COLUMNS && c !in header
    ensures IsSubsequence(missing, REQUIRED_COLUMNS)
    ensures missing == [] <==> forall c :: c in REQUIRED_COLUMNS ==> c in header
    ensures |missing| <= |REQUIRED_COLUMNS|
  {
    var missing := MissingFrom(REQUIRED_COLUMNS, header);
    SubsequenceNoLonger(missing, REQUIRED_COLUMNS);
    assert missing != [] ==> missing[0] in missing;
    missing
  }

  lemma {:induction false} SubsequenceNoLonger<T>(a: seq<T>, b: seq<T>)
    requires IsSubsequence(a, b)
    ensures |a| <= |b|
    decreases |b|
  {
    if a != [] {
      if a[0] == b[0] && IsSubsequence(a[1..], b[1..]) {
        SubsequenceNoLonger(a[1..], b[1..]);
      } else {
        SubsequenceNoLonger(a, b[1..]);
      }
    }
  }

  // ---------------------------------------------------------------------
  // Unit enumeration
  // ---------------------------------------------------------------------

  /** Some row of the table belongs to unit `u`. */
  predicate HasUnit(rows: seq<Row>, u: int)
  {
    exists k :: 0 <= k < |rows| && rows[k].unit == u
  }

  /**
   * The distinct unit ids of the table in order of first appearance
   * (pandas `unique`): every unit of the table exactly once and nothing else.
   */
  function Units(rows: seq<Row>): (ids: seq<int>)
    ensures forall u :: u in ids <==> HasUnit(rows, u)
    ensures forall i, j :: 0 <= i < j < |ids| ==> ids[i] != ids[j]
  {
    if rows == [] then []
    else
      var init := rows[..|rows| - 1];
      var seen := Units(init);
      var u := rows[|rows| - 1].unit;
      assert forall v :: HasUnit(rows, v) <==> HasUnit(init, v) || v == u by {
        forall v | HasUnit(rows, v) ensures HasUnit(init, v) || v == u {
          var k :| 0 <= k < |rows| && rows[k].unit == v;
          if k < |rows| - 1 {
            assert init[k].unit == v;
          }
        }
        forall v | HasUnit(init, v) ensures HasUnit(rows, v) {
          var k :| 0 <= k < |init| && init[k].unit == v;
          assert rows[k].unit == v;
        }
      }
      if u in seen then seen else seen + [u]
  }

  /**
   * Units are listed in order of first appearance: whenever unit `ids[j]`
   * occurs at row `k`, the earlier-listed unit `ids[i]` occurs before `k`.
   */
  lemma {:induction false} UnitsInFirstAppearanceOrder(rows: seq<Row>, i: nat, j: nat, k: nat)
    requires i < j < |Units(rows)|
    requires k < |rows| && rows[k].unit == Units(rows)[j]
    ensures exists l :: 0 <= l < k && rows[l].unit == Units(rows)[i]
  {
    var ids := Units(rows);
    var init := rows[..|rows| - 1];
    var seen := Units(init);
    var u := rows[|rows| - 1].unit;
    assert forall l :: 0 <= l < |init| ==> init[l] == rows[l];
    if j < |seen| {
      assert ids[i] == seen[i] && ids[j] == seen[j];
      // Unit ids[j] occurs in the prefix; take an occurrence there.
      assert HasUnit(init, seen[j]);
      var k' :| 0 <= k' < |init| && init[k'].unit == seen[j];
      if k < |rows| - 1 {
        UnitsInFirstAppearanceOrder(init, i, j, k);
      } else {
        UnitsInFirstAppearanceOrder(init, i, j, k');
      }
      var l :| 0 <= l < (if k < |rows| - 1 then k else k') && init[l].unit == seen[i];
      assert rows[l].unit == ids[i];
    } else {
      // ids[j] is the newly appended last unit, absent from the prefix.
      assert u !in seen && ids == seen + [u] && j == |seen|;
      assert ids[i] == seen[i];
      assert HasUnit(init, seen[i]);
      var l :| 0 <= l < |init| && init[l].unit == seen[i];
      assert rows[l].unit == ids[i];
    }
  }

  // ---------------------------------------------------------------------
  // Unit selection: boolean-mask filter, then sort by cycle
  // ---------------------------------------------------------------------

  /** The rows of unit `u`, in table order (the boolean-mask filter). */
  function RowsOf(rows: seq<Row>, u: int): (kept: seq<Row>)
    ensures forall i :: 0 <= i < |kept| ==> kept[i].unit == u
    ensures forall x :: multiset(kept)[x] == if x.unit == u then multiset(rows)[x] else 0
  {
    if rows == [] then []
    else
      assert rows == [rows[0]] + rows[1..];
      if rows[0].unit == u then [rows[0]] + RowsOf(rows[1..], u)
      else RowsOf(rows[1..], u)
  }

  /** Non-decreasing in `time_in_cycles`; equal cycles may come in any order. */
  predicate SortedByCycle(s: seq<Row>)
  {
    forall i, j :: 0 <= i < j < |s| ==> s[i].cycle <= s[j].cycle
  }

  /** Inserts `x` into a cycle-ordered series; the result starts with `x` or with the old head. */
  function InsertByCycle(x: Row, s: seq<Row>): (r: seq<Row>)
    requires SortedByCycle(s)
    ensures SortedByCycle(r)
    ensures multiset(r) == multiset(s) + multiset{x}
    ensures |r| == |s| + 1 && (r[0] == x || (s != [] && r[0] == s[0]))
  {
    if s == [] || x.cycle <= s[0].cycle then
      ConsSorted(x, s);
      [x] + s
    else
      var rest := InsertByCycle(x, s[1..]);
      assert multiset(s) == multiset{s[0]} + multiset(s[1..]) by {
        assert s == [s[0]] + s[1..];
      }
      ConsSorted(s[0], rest);
      [s[0]] + rest
  }

  lemma ConsSorted(h: Row, s: seq<Row>)
    requires SortedByCycle(s) && (s == [] || h.cycle <= s[0].cycle)
    ensures SortedByCycle([h] + s)
  {
  }

  /** A sort on cycle: the result is ordered and is a permutation of `s`. */
  function SortByCycle(s: seq<Row>): (r: seq<Row>)
    ensures SortedByCycle(r)
    ensures multiset(r) == multiset(s)
  {
    if s == [] then []
    else
      assert s == [s[0]] + s[1..];
      InsertByCycle(s[0], SortByCycle(s[1..]))
  }

  /**
   * The selected unit's rows ordered by cycle: only rows of unit `u`, every
   * such row of the table with its multiplicity, nothing added, and
   * non-empty whenever the unit occurs in the table.
   */
  function Select(rows: seq<Row>, u: int): (sel: seq<Row>)
    ensures SortedByCycle(sel)
    ensures forall i :: 0 <= i < |sel| ==> sel[i].unit == u
    ensures forall x :: multiset(sel)[x] == if x.unit == u then multiset(rows)[x] else 0
    ensures forall x :: x in sel <==> x in rows && x.unit == u
    ensures |sel| == |RowsOf(rows, u)|
    ensures HasUnit(rows, u) ==> |sel| > 0
  {
    var kept := RowsOf(rows, u);
    var sel := SortByCycle(kept);
    assert |sel| == |kept| by {
      assert |multiset(sel)| == |multiset(kept)|;
    }
    assert forall i :: 0 <= i < |sel| ==> sel[i].unit == u by {
      forall i | 0 <= i < |sel| ensures sel[i].unit == u {
        assert sel[i] in multiset(kept);
      }
    }
    assert forall x :: x in sel <==> x in rows && x.unit == u by {
      forall x ensures x in sel <==> x in rows && x.unit == u {
        assert x in sel <==> x in multiset(sel);
        assert x in rows <==> x in multiset(rows);
      }
    }
    assert HasUnit(rows, u) ==> |sel| > 0 by {
      if HasUnit(rows, u) {
        var k :| 0 <= k < |rows| && rows[k].unit == u;
        assert rows[k] in multiset(rows);
        assert rows[k] in multiset(sel);
      }
    }
    sel
  }

  // ---------------------------------------------------------------------
  // Plot table
  // ---------------------------------------------------------------------

  /** A row of the chart table: cycle, predicted RUL and the two flat lines. */
  datatype PlotRow = PlotRow(cycle: int, predictedRul: real, warningLine: int, criticalLine: int)

  /**
   * The table given to the line chart: one row per selected row, in the
   * same order, with that row's cycle and RUL and the constant threshold
   * columns 30 and 20.
   */
  function PlotTable(s: seq<Row>): (plot: seq<PlotRow>)
    ensures |plot| == |s|
    ensures forall i :: 0 <= i < |s| ==>
      plot[i].cycle == s[i].cycle && plot[i].predictedRul == s[i].rul &&
      plot[i].warningLine == WARNING_LEVEL && plot[i].criticalLine == CRITICAL_LEVEL
  {
    if s == [] then []
    else [PlotRow(s[0].cycle, s[0].rul, WARNING_LEVEL, CRITICAL_LEVEL)] + PlotTable(s[1..])
  }

  // ---------------------------------------------------------------------
  // Maintenance alert
  // ---------------------------------------------------------------------

  datatype Alert = NoAlert | Warning | Critical

  /** The smallest predicted RUL of a non-empty series. */
  function MinRul(s: seq<Row>): (m: real)
    requires |s| > 0
    ensures exists i :: 0 <= i < |s| && s[i].rul == m
    ensures forall i :: 0 <= i < |s| ==> m <= s[i].rul
  {
    if |s| == 1 then s[0].rul
    else
      var rest := MinRul(s[1..]);
      assert forall i :: 1 <= i < |s| ==> s[i] == s[1..][i - 1];
      if s[0].rul <= rest then s[0].rul else rest
  }

  /** The if/elif on the minimum: strictly below 20, else strictly below 30. */
  function Classify(m: real): Alert
  {
    if m < CRITICAL_LEVEL as real then Critical
    else if m < WARNING_LEVEL as real then Warning
    else NoAlert
  }

  /** Some reading of the series lies strictly below `level`. */
  predicate AnyBelow(s: seq<Row>, level: real)
  {
    exists i :: 0 <= i < |s| && s[i].rul < level
  }

  /**
   * The alert for a selected series. On an empty series the minimum is
   * NaN, both comparisons are false and no alert is raised. Otherwise the
   * alert is Critical exactly when some reading is below 20, Warning when
   * none is below 20 but some is below 30, and none when all are at least 30.
   */
  function AlertFor(s: seq<Row>): (a: Alert)
    ensures a == Critical <==> AnyBelow(s, CRITICAL_LEVEL as real)
    ensures a == Warning <==> !AnyBelow(s, CRITICAL_LEVEL as real) && AnyBelow(s, WARNING_LEVEL as real)
    ensures a == NoAlert <==> !AnyBelow(s, WARNING_LEVEL as real)
  {
    if s == [] then NoAlert else Classify(MinRul(s))
  }

  /** Strict comparisons: exactly 20 warns against 30, exactly 30 raises nothing. */
  lemma ClassifyBoundaries()
    ensures Classify(19.5) == Critical
    ensures Classify(20.0) == Warning
    ensures Classify(29.5) == Warning
    ensures Classify(30.0) == NoAlert
  {
  }

  function Severity(a: Alert): nat
  {
    match a
    case NoAlert => 0
    case Warning => 1
    case Critical => 2
  }

  /** A lower minimum never gives a milder alert. */
  lemma ClassifyAntitone(m1: real, m2: real)
    requires m1 <= m2
    ensures Severity(Classify(m2)) <= Severity(Classify(m1))
  {
  }

  // ---------------------------------------------------------------------
  // The whole pipeline
  // ---------------------------------------------------------------------

  /**
   * What one render produces: either the error banner listing the missing
   * columns, after which the script stops, or the unit list, the chart
   * table and the alert.
   */
  datatype Outcome =
    | Halted(missing: seq<string>)
    | Rendered(engineIds: seq<int>, plot: seq<PlotRow>, alert: Alert)

  /**
   * What the unit dropdown can hand back: one of the listed ids, or nothing
   * when the list is empty.
   */
  predicate Selectable(rows: seq<Row>, choice: Option<int>)
  {
    match choice
    case None => Units(rows) == []
    case Some(u) => u in Units(rows)
  }

  /** Some row of unit `u` has predicted RUL strictly below `level`. */
  predicate UnitBelow(rows: seq<Row>, u: int, level: real)
  {
    exists k :: 0 <= k < |rows| && rows[k].unit == u && rows[k].rul < level
  }

  /** The selected series; with nothing selected the mask keeps no row. */
  function Selected(rows: seq<Row>, choice: Option<int>): seq<Row>
  {
    match choice
    case None => []
    case Some(u) => Select(rows, u)
  }

  /** One render of the dashboard for the given header, rows and dropdown choice. */
  function Run(header: seq<string>, rows: seq<Row>, choice: Option<int>): (out: Outcome)
    requires MissingColumns(header) == [] ==> Selectable(rows, choice)
    ensures out.Halted? <==> exists c :: c in REQUIRED_COLUMNS && c !in header
    ensures out.Halted? ==>
      out.missing != [] && forall c :: c in out.missing <==> c in REQUIRED_COLUMNS && c !in header
    ensures out.Rendered? ==> forall u :: u in out.engineIds <==> HasUnit(rows, u)
    ensures out.Rendered? ==> (choice.Some? <==> |out.plot| > 0)
  {
    var missing := MissingColumns(header);
    if missing != [] then Halted(missing)
    else
      var ids := Units(rows);
      var series := Selected(rows, choice);
      Rendered(ids, PlotTable(series), AlertFor(series))
  }

  /**
   * Counting the chart rows of a series of one unit: a point occurs as often
   * as the row it projects, and only points with the two constant threshold
   * columns occur at all.
   */
  lemma {:induction false} PlotTableCounts(s: seq<Row>, u: int, p: PlotRow)
    requires forall i :: 0 <= i < |s| ==> s[i].unit == u
    ensures multiset(PlotTable(s))[p] ==
      if p.warningLine == WARNING_LEVEL && p.criticalLine == CRITICAL_LEVEL
      then multiset(s)[Row(u, p.cycle, p.predictedRul)] else 0
  {
    if s != [] {
      var x := Row(u, p.cycle, p.predictedRul);
      var head := PlotRow(s[0].cycle, s[0].rul, WARNING_LEVEL, CRITICAL_LEVEL);
      var tail := s[1..];
      assert forall i :: 0 <= i < |tail| ==> tail[i].unit == u;
      PlotTableCounts(tail, u, p);
      assert PlotTable(s) == [head] + PlotTable(tail);
      CountCons(head, PlotTable(tail), p);
      CountHead(s, x);
      assert head == p <==>
        p.warningLine == WARNING_LEVEL && p.criticalLine == CRITICAL_LEVEL && s[0] == x by {
        assert s[0].unit == u;
      }
    }
  }

  lemma CountCons<T>(h: T, t: seq<T>, y: T)
    ensures multiset([h] + t)[y] == (if h == y then 1 else 0) + multiset(t)[y]
  {
    assert multiset([h] + t) == multiset{h} + multiset(t);
  }

  lemma CountHead<T>(s: seq<T>, y: T)
    requires s != []
    ensures multiset(s)[y] == (if s[0] == y then 1 else 0) + multiset(s[1..])[y]
  {
    assert s == [s[0]] + s[1..];
    CountCons(s[0], s[1..], y);
  }

  /** The chart of unit `u` holds each of its rows as often as the table does, and nothing else. */
  lemma SelectionPlotCounts(rows: seq<Row>, u: int, p: PlotRow)
    ensures multiset(PlotTable(Select(rows, u)))[p] ==
      if p.warningLine == WARNING_LEVEL && p.criticalLine == CRITICAL_LEVEL
      then multiset(rows)[Row(u, p.cycle, p.predictedRul)] else 0
  {
    var sel := Select(rows, u);
    PlotTableCounts(sel, u, p);
    var x := Row(u, p.cycle, p.predictedRul);
    assert multiset(sel)[x] == multiset(rows)[x];
  }

  /**
   * The chart of a rendered page with unit `u` chosen: ordered by cycle,
   * with the two threshold columns constant at 30 and 20, and holding each
   * row of that unit exactly as many times as the table does, and nothing else.
   */
  lemma {:induction false} RunPlot(header: seq<string>, rows: seq<Row>, u: int)
    requires MissingColumns(header) == [] && u in Units(rows)
    ensures var plot := Run(header, rows, Some(u)).plot;
      && |plot| == |RowsOf(rows, u)| > 0
      && (forall i, j :: 0 <= i < j < |plot| ==> plot[i].cycle <= plot[j].cycle)
      && (forall i :: 0 <= i < |plot| ==>
            plot[i].warningLine == WARNING_LEVEL && plot[i].criticalLine == CRITICAL_LEVEL)
      && (forall p: PlotRow :: multiset(plot)[p] ==
            if p.warningLine == WARNING_LEVEL && p.criticalLine == CRITICAL_LEVEL
            then multiset(rows)[Row(u, p.cycle, p.predictedRul)] else 0)
  {
    var plot := PlotTable(Select(rows, u));
    assert Run(header, rows, Some(u)).plot == plot;
    forall p: PlotRow
      ensures multiset(plot)[p] ==
        if p.warningLine == WARNING_LEVEL && p.criticalLine == CRITICAL_LEVEL
        then multiset(rows)[Row(u, p.cycle, p.predictedRul)] else 0
    {
      SelectionPlotCounts(rows, u, p);
    }
  }

  /**
   * The alert of a rendered page, stated against the raw table: Critical
   * exactly when some row of the chosen unit is below 20, Warning when none
   * is below 20 but one is below 30, no alert otherwise.
   */
  lemma {:induction false} RunAlert(header: seq<string>, rows: seq<Row>, u: int)
    requires MissingColumns(header) == [] && u in Units(rows)
    ensures var a := Run(header, rows, Some(u)).alert;
      && (a == Critical <==> UnitBelow(rows, u, CRITICAL_LEVEL as real))
      && (a == Warning <==>
            !UnitBelow(rows, u, CRITICAL_LEVEL as real) && UnitBelow(rows, u, WARNING_LEVEL as real))
      && (a == NoAlert <==> !UnitBelow(rows, u, WARNING_LEVEL as real))
  {
    var sel := Select(rows, u);
    forall level: real ensures AnyBelow(sel, level) <==> UnitBelow(rows, u, level) {
      SelectBelow(rows, u, level);
    }
  }

  lemma SelectBelow(rows: seq<Row>, u: int, level: real)
    ensures AnyBelow(Select(rows, u), level) <==> UnitBelow(rows, u, level)
  {
    var sel := Select(rows, u);
    assert AnyBelow(sel, level) ==> UnitBelow(rows, u, level) by {
      if AnyBelow(sel, level) {
        var i :| 0 <= i < |sel| && sel[i].rul < level;
        assert sel[i] in sel;
        var k := IndexOf(rows, sel[i]);
      }
    }
    assert UnitBelow(rows, u, level) ==> AnyBelow(sel, level) by {
      if UnitBelow(rows, u, level) {
        var k :| 0 <= k < |rows| && rows[k].unit == u && rows[k].rul < level;
        assert rows[k] in rows;
        var i := IndexOf(sel, rows[k]);
      }
    }
  }

  /** A position where `x` occurs in `s`. */
  function IndexOf<T(==)>(s: seq<T>, x: T): (k: nat)
    requires x in s
    ensures k < |s| && s[k] == x
  {
    if s[0] == x then 0 else 1 + IndexOf(s[1..], x)
  }

  /** Two units, three cycles each, as used by the scenario lemmas below. */
  function ScenarioRows(): seq<Row>
  {
    [Row(1, 1, 40.0), Row(1, 2, 25.0), Row(1, 3, 15.0),
     Row(2, 1, 90.0), Row(2, 2, 85.0), Row(2, 3, 82.0)]
  }

  /** Unit 1 (RUL 40, 25, 15) is listed and raises the below-20 alert. */
  lemma ScenarioCritical()
    ensures 1 in Units(ScenarioRows())
    ensures Run(REQUIRED_COLUMNS, ScenarioRows(), Some(1)).alert == Critical
  {
    var rows := ScenarioRows();
    assert rows[0].unit == 1;
    RunAlert(REQUIRED_COLUMNS, rows, 1);
    assert rows[2].unit == 1 && rows[2].rul < CRITICAL_LEVEL as real;
  }

  /** Unit 2 (RUL 90, 85, 82) is listed and raises no alert. */
  lemma ScenarioStable()
    ensures 2 in Units(ScenarioRows())
    ensures Run(REQUIRED_COLUMNS, ScenarioRows(), Some(2)).alert == NoAlert
  {
    var rows := ScenarioRows();
    assert rows[3].unit == 2;
    assert !UnitBelow(rows, 2, WARNING_LEVEL as real) by {
      forall k | 0 <= k < |rows| && rows[k].unit == 2 ensures rows[k].rul >= 30.0 {
        assert k in {3, 4, 5};
      }
    }
    RunAlert(REQUIRED_COLUMNS, rows, 2);
  }

  /** A header without `predicted_RUL` halts the page naming that column alone. */
  lemma ScenarioMissingRul()
    ensures Run(["unit_number", "time_in_cycles"], ScenarioRows(), Some(1)) == Halted(["predicted_RUL"])
  {
    var header := ["unit_number", "time_in_cycles"];
    var cols := REQUIRED_COLUMNS;
    assert |cols[2]| != |header[0]| && |cols[2]| != |header[1]|;
    assert cols[2] !in header;
    assert MissingFrom(cols[3..], header) == [];
    assert MissingFrom(cols[2..], header) == [cols[2]];
    assert cols[1] == header[1] && MissingFrom(cols[1..], header) == [cols[2]];
    assert cols[0] == header[0] && MissingFrom(cols, header) == [cols[2]];
  }
}
