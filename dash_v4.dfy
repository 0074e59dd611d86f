/** The multi-indicator dashboard (dash_v4.py): dimensions narrow the
    indicator list, up to four indicators are chosen, and each gets a line
    chart with its own marker symbol in which Saudi Arabia's line is drawn
    thick and green. */
module DashV4 {
  import opened Frames
  import opened Records

  /** The sidebar's current values. `variables` is what the indicator
      multiselect holds; it is shown only while a dimension is chosen. */
  datatype Selection = Selection(
    countries: seq<string>,
    yearFrom: int,
    yearTo: int,
    activity: string,
    dimensions: seq<string>,
    variables: seq<string>)

  /** `df_selection`: the result of the query, or the `pd.DataFrame()` built
      when nothing is chosen, which has no rows and no columns at all. */
  datatype Frame = NoColumns | Table(rows: seq<Record>)

  function RowsOf(f: Frame): seq<Record>
  {
    match f
    case NoColumns => []
    case Table(rows) => rows
  }

  /** The indicators in force: none while no dimension is chosen. */
  function ChosenVariables(sel: Selection): seq<string>
  {
    if sel.dimensions == [] then [] else sel.variables
  }

  /** The indicator multiselect's options: `df[df["Dimension"].isin(dimension)]
      ["variableName"].unique()`, computed only when a dimension is chosen. */
  function VariableOptions(df: seq<Record>, dimensions: seq<string>): (vs: seq<string>)
    ensures NoDuplicates(vs)
    ensures forall v :: v in vs <==>
      exists i :: 0 <= i < |df| && df[i].dimension in dimensions && df[i].variableName == v
    ensures dimensions == [] ==> vs == []
  {
    if dimensions == [] then []
    else DistinctValues(df, (r: Record) => r.dimension in dimensions, (r: Record) => r.variableName)
  }

  /** Each sector's preferred indicators (`sector_indicators`). */
  const SectorIndicators: map<string, seq<string>> := map[
    "Manufacturing" := [
      "Manufacturing value added (MVA) per capita",
      "MVA annual growth rate",
      "Manufactured exports per employee",
      "Total investment as a percentage of GDP"],
    "Mining" := [
      "Total investment as a percentage of GDP",
      "Index of industrial production"]]

  /** `sector_indicators.get(sector, [])`. */
  function SectorDefaults(sector: string): seq<string>
  {
    if sector in SectorIndicators then SectorIndicators[sector] else []
  }

  /** The `max_selections` of both the dimension and the indicator
      multiselects. */
  const MaxSelections := 4

  /** `[ind for ind in default_indicators if ind in variable_options]`: the
      indicators preselected in the multiselect. */
  function DefaultIndicators(sector: string, options: seq<string>): (ds: seq<string>)
    ensures forall d :: d in ds <==> d in SectorDefaults(sector) && d in options
    ensures IsSubsequence(ds, SectorDefaults(sector))
    ensures |ds| <= MaxSelections
    ensures sector !in SectorIndicators ==> ds == []
  {
    var keep := (d: string) => d in options;
    WhereCharacterized(SectorDefaults(sector), keep);
    WhereSubsequence(SectorDefaults(sector), keep);
    WhereLength(SectorDefaults(sector), keep);
    Where(SectorDefaults(sector), keep)
  }

  predicate Admits(sel: Selection, r: Record)
  {
    && r.country in sel.countries
    && sel.yearFrom <= r.year <= sel.yearTo
    && r.activityName == sel.activity
    && r.variableName in sel.variables
  }

  function Keep(sel: Selection): Record -> bool
  {
    (r: Record) => Admits(sel, r)
  }

  /** The `if dimension and variable` branch: the query when a dimension
      and an indicator are chosen, the column-less empty frame otherwise. */
  function Query(df: seq<Record>, sel: Selection): (f: Frame)
    ensures f.NoColumns? <==> sel.dimensions == [] || ChosenVariables(sel) == []
    ensures forall r :: r in RowsOf(f) <==> f.Table? && r in df && Admits(sel, r)
    ensures f.Table? ==> forall r :: multiset(f.rows)[r] == if Admits(sel, r) then multiset(df)[r] else 0
    ensures f.Table? ==> IsSubsequence(f.rows, df)
  {
    if sel.dimensions != [] && ChosenVariables(sel) != [] then
      WhereCharacterized(df, Keep(sel));
      WhereSubsequence(df, Keep(sel));
      forall r ensures multiset(Where(df, Keep(sel)))[r] == if Admits(sel, r) then multiset(df)[r] else 0 {
        WhereCounts(df, Keep(sel), r);
      }
      Table(Where(df, Keep(sel)))
    else
      NoColumns
  }

  /** Querying the selection again with the same choices changes nothing:
      the column-less frame has no rows, which the query leaves column-less,
      and a table is already filtered. */
  lemma QueryIdempotent(df: seq<Record>, sel: Selection)
    ensures Query(RowsOf(Query(df, sel)), sel) == Query(df, sel)
  {
    if Query(df, sel).Table? {
      WhereIdempotent(df, Keep(sel));
    }
  }

  /** `groupby("variableName")["unidadMedida"].first().to_dict()`: built
      from the last row back, so that each variable ends up with the unit of
      its first row. */
  function UnitMapping(rows: seq<Record>): map<string, string>
  {
    if rows == [] then map[]
    else UnitMapping(rows[1..])[rows[0].variableName := rows[0].unit]
  }

  /** The mapping has an entry exactly for the variables of the rows. */
  lemma {:induction false} UnitMappingKeys(rows: seq<Record>)
    ensures UnitMapping(rows).Keys == set i | 0 <= i < |rows| :: rows[i].variableName
  {
    if rows != [] {
      UnitMappingKeys(rows[1..]);
      var tail := set i | 0 <= i < |rows[1..]| :: rows[1..][i].variableName;
      var all := set i | 0 <= i < |rows| :: rows[i].variableName;
      assert all == tail + {rows[0].variableName} by {
        forall v | v in all ensures v in tail + {rows[0].variableName} {
          var i :| 0 <= i < |rows| && rows[i].variableName == v;
          if i > 0 { assert rows[1..][i - 1].variableName == v; }
        }
        forall v | v in tail ensures v in all {
          var i :| 0 <= i < |rows[1..]| && rows[1..][i].variableName == v;
          assert rows[i + 1].variableName == v;
        }
      }
    }
  }

  /** A variable's entry is the unit of the first row that has it. */
  lemma {:induction false} UnitMappingFirst(rows: seq<Record>, i: nat)
    requires i < |rows|
    requires forall j :: 0 <= j < i ==> rows[j].variableName != rows[i].variableName
    ensures rows[i].variableName in UnitMapping(rows)
    ensures UnitMapping(rows)[rows[i].variableName] == rows[i].unit
  {
    if i > 0 {
      assert rows[i] == rows[1..][i - 1];
      forall j | 0 <= j < i - 1 ensures rows[1..][j].variableName != rows[i].variableName {
        assert rows[1..][j] == rows[j + 1];
      }
      UnitMappingFirst(rows[1..], i - 1);
    }
  }

  /** `unit_mapping.get(variable_name, "Unknown")`: the y-axis title. */
  function UnitLabel(units: map<string, string>, variable: string): string
  {
    if variable in units then units[variable] else "Unknown"
  }

  /** The y-axis title of a chart is the unit of the selection's first row
      of that variable, and "Unknown" when the selection has none. */
  lemma UnitLabelOfSelection(rows: seq<Record>, variable: string)
    ensures (forall i :: 0 <= i < |rows| ==> rows[i].variableName != variable) ==>
      UnitLabel(UnitMapping(rows), variable) == "Unknown"
    ensures forall i ::
      (0 <= i < |rows| && rows[i].variableName == variable && forall j :: 0 <= j < i ==> rows[j].variableName != variable) ==>
      UnitLabel(UnitMapping(rows), variable) == rows[i].unit
  {
    UnitMappingKeys(rows);
    forall i | 0 <= i < |rows| && rows[i].variableName == variable &&
               forall j :: 0 <= j < i ==> rows[j].variableName != variable
      ensures UnitLabel(UnitMapping(rows), variable) == rows[i].unit
    {
      UnitMappingFirst(rows, i);
    }
  }

  /** `variable_rename_map`: display titles for some raw variable names. */
  const RenameMap: map<string, string> := map[
    "MVA (Manufacturing Value Added), constant 2015 USD" := "Manufacturing value added(MVA), constant 2015 USD",
    "MVA Growth Rate" := "MVA annual growth rate (%)",
    "Manufactured Exports per Employee" := "Exports per employee",
    "Total investment as a percentage of output" := "Total investment as a percentage of output"]

  /** `variable_rename_map.get(variable_name, variable_name)`. */
  function ChartTitle(variable: string): string
  {
    if variable in RenameMap then RenameMap[variable] else variable
  }

  /** A chart's title differs from the raw variable name exactly for the
      three entries of the rename map that change something. */
  lemma ChartTitleRenames(variable: string)
    ensures ChartTitle(variable) != variable <==>
      variable in RenameMap && variable != "Total investment as a percentage of output"
  {
  }

  /** None of the sectors' preferred indicators is a key of the rename map,
      so their charts carry the raw variable name as title. */
  lemma DefaultIndicatorTitlesUnchanged(sector: string)
    ensures forall d :: d in SectorDefaults(sector) ==> ChartTitle(d) == d
  {
  }

  /** `marker_styles`: the marker symbol of chart slot i. */
  const MarkerStyles: seq<string> := ["circle", "square", "triangle-up", "cross"]

  /** What one call of `plot_line_graph` puts in its column: a warning, or a
      line chart of the variable's rows with one line per country. */
  datatype Slot =
    | Notice(variable: string)
    | Chart(
        variable: string,
        title: string,
        yAxisLabel: string,
        marker: string,
        series: seq<string>,
        rows: seq<Record>)

  function IsVariable(variable: string): Record -> bool
  {
    (r: Record) => r.variableName == variable
  }

  /** `plot_line_graph(variable_name, col, marker_style)` up to the figure:
      a variable without rows yields the warning; otherwise the chart of its
      rows, with `px.line`'s traces named after the countries in order of
      first appearance. */
  function PlotLineGraph(rows: seq<Record>, units: map<string, string>, variable: string, marker: string): (s: Slot)
    ensures s.variable == variable
    ensures s.Notice? <==> forall i :: 0 <= i < |rows| ==> rows[i].variableName != variable
    ensures s.Chart? ==> s.rows != [] && forall r :: r in s.rows <==> r in rows && r.variableName == variable
    ensures s.Chart? ==> forall r :: multiset(s.rows)[r] == if r.variableName == variable then multiset(rows)[r] else 0
    ensures s.Chart? ==> s.title == ChartTitle(variable) && s.yAxisLabel == UnitLabel(units, variable) && s.marker == marker
    ensures s.Chart? ==> NoDuplicates(s.series)
    ensures s.Chart? ==> forall c :: c in s.series <==> exists i :: 0 <= i < |s.rows| && s.rows[i].country == c
  {
    var subset := Where(rows, IsVariable(variable));
    WhereCharacterized(rows, IsVariable(variable));
    if subset == [] then
      assert forall i :: 0 <= i < |rows| ==> rows[i].variableName != variable by {
        forall i | 0 <= i < |rows| ensures rows[i].variableName != variable {
          assert rows[i] in rows;
        }
      }
      Notice(variable)
    else
      assert subset[0] in rows;
      forall r ensures multiset(subset)[r] == if r.variableName == variable then multiset(rows)[r] else 0 {
        WhereCounts(rows, IsVariable(variable), r);
      }
      var series := DistinctValues(subset, (r: Record) => true, (r: Record) => r.country);
      Chart(variable, ChartTitle(variable), UnitLabel(units, variable), marker, series, subset)
  }

  /** The four `if len(variable) > i` calls: slot i charts the i-th chosen indicator with the i-th
      marker symbol; at most four slots, each decided on its own, so an
      indicator without data leaves a warning and the others are drawn. */
  function PlanSlots(rows: seq<Record>, units: map<string, string>, variables: seq<string>): (slots: seq<Slot>)
    ensures |slots| == if |variables| < |MarkerStyles| then |variables| else |MarkerStyles|
    ensures forall i :: 0 <= i < |slots| ==> slots[i] == PlotLineGraph(rows, units, variables[i], MarkerStyles[i])
  {
    var n := if |variables| < |MarkerStyles| then |variables| else |MarkerStyles|;
    seq(n, i requires 0 <= i < n => PlotLineGraph(rows, units, variables[i], MarkerStyles[i]))
  }

  /** Why the script stops. */
  datatype Failure = KeyError(column: string)

  datatype Result<T> = Ok(value: T) | Err(failure: Failure)

  /** The page below the sidebar as the script is written: the unit mapping
      groups `df_selection` by "variableName" before anything is drawn, and
      the column-less frame has no such column. */
  function DashboardAsWritten(df: seq<Record>, sel: Selection): Result<seq<Slot>>
  {
    match Query(df, sel)
    case NoColumns => Err(KeyError("variableName"))
    case Table(rows) => Ok(PlanSlots(rows, UnitMapping(rows), ChosenVariables(sel)))
  }

  /** The page as the empty-frame branch intends it: a frame with nothing
      chosen has no rows, so no variable has a unit. */
  function Dashboard(df: seq<Record>, sel: Selection): seq<Slot>
  {
    var rows := RowsOf(Query(df, sel));
    PlanSlots(rows, UnitMapping(rows), ChosenVariables(sel))
  }

  /** With no dimension, or no indicator, chosen, the script as written
      stops with a KeyError at the unit mapping. */
  lemma NothingChosenFailsAsWritten(df: seq<Record>, sel: Selection)
    requires sel.dimensions == [] || sel.variables == []
    ensures DashboardAsWritten(df, sel) == Err(KeyError("variableName"))
  {
  }

  /** With no dimension, or no indicator, chosen, the intended page draws no
      chart and no warning. */
  lemma NothingChosenDrawsNothing(df: seq<Record>, sel: Selection)
    requires sel.dimensions == [] || sel.variables == []
    ensures Dashboard(df, sel) == []
  {
  }

  /** Whenever something is chosen the script as written draws the intended
      page. */
  lemma AsWrittenAgreesWhenChosen(df: seq<Record>, sel: Selection)
    requires sel.dimensions != [] && sel.variables != []
    ensures DashboardAsWritten(df, sel) == Ok(Dashboard(df, sel))
  {
  }

  /** The intended page: one slot per chosen indicator up to four; a chart
      exactly when some sheet row passes every filter for that indicator, and
      then the chart's rows are exactly those sheet rows. */
  lemma DashboardSlots(df: seq<Record>, sel: Selection)
    ensures |Dashboard(df, sel)| == if |ChosenVariables(sel)| < 4 then |ChosenVariables(sel)| else 4
    ensures forall k :: 0 <= k < |Dashboard(df, sel)| ==>
      && Dashboard(df, sel)[k].variable == sel.variables[k]
      && (Dashboard(df, sel)[k].Chart? <==>
            exists i :: 0 <= i < |df| && Admits(sel, df[i]) && df[i].variableName == sel.variables[k])
      && (Dashboard(df, sel)[k].Chart? ==> Dashboard(df, sel)[k].marker == MarkerStyles[k])
      && (Dashboard(df, sel)[k].Chart? ==>
            forall r :: r in Dashboard(df, sel)[k].rows <==> r in df && Admits(sel, r) && r.variableName == sel.variables[k])
  {
    var f := Query(df, sel);
    var rows := RowsOf(f);
    var slots := Dashboard(df, sel);
    forall k | 0 <= k < |slots|
      ensures slots[k].Chart? <==> exists i :: 0 <= i < |df| && Admits(sel, df[i]) && df[i].variableName == sel.variables[k]
    {
      var v := sel.variables[k];
      if slots[k].Chart? {
        var j :| 0 <= j < |rows| && rows[j].variableName == v;
        assert rows[j] in rows;
        var i :| 0 <= i < |df| && df[i] == rows[j];
      }
      if i :| 0 <= i < |df| && Admits(sel, df[i]) && df[i].variableName == v {
        assert df[i] in df;
        assert f.Table?;
        assert df[i] in rows;
      }
    }
  }

  /** A chart plots each sheet row that passes every filter for its
      indicator as often as the sheet holds it, and no other row. (Slot k
      exists exactly while a dimension is chosen and k is below both the
      number of indicators and four.) */
  lemma DashboardChartRows(df: seq<Record>, sel: Selection, k: nat)
    requires sel.dimensions != [] && k < |sel.variables| && k < |MarkerStyles|
    ensures Dashboard(df, sel)[k].Chart? ==>
      forall r :: multiset(Dashboard(df, sel)[k].rows)[r] ==
        if Admits(sel, r) && r.variableName == sel.variables[k] then multiset(df)[r] else 0
  {
    var f := Query(df, sel);
    var rows := RowsOf(f);
    var v := sel.variables[k];
    var slot := PlotLineGraph(rows, UnitMapping(rows), v, MarkerStyles[k]);
    assert Dashboard(df, sel)[k] == slot;
    assert f.Table?;
    if slot.Chart? {
      forall r ensures multiset(slot.rows)[r] == if Admits(sel, r) && r.variableName == v then multiset(df)[r] else 0 {
        assert multiset(slot.rows)[r] == if r.variableName == v then multiset(rows)[r] else 0;
        assert multiset(rows)[r] == if Admits(sel, r) then multiset(df)[r] else 0;
      }
    }
  }

  /** A chart's y-axis title is the unit of the first sheet row that passes
      every filter for its indicator. */
  lemma DashboardYAxisLabel(df: seq<Record>, sel: Selection, k: nat, i: nat)
    requires sel.dimensions != [] && k < |sel.variables| && k < |MarkerStyles|
    requires i < |df| && Admits(sel, df[i]) && df[i].variableName == sel.variables[k]
    requires forall j :: 0 <= j < i ==> !(Admits(sel, df[j]) && df[j].variableName == sel.variables[k])
    ensures Dashboard(df, sel)[k].Chart?
    ensures Dashboard(df, sel)[k].yAxisLabel == df[i].unit
  {
    var f := Query(df, sel);
    var rows := RowsOf(f);
    var v := sel.variables[k];
    var slot := PlotLineGraph(rows, UnitMapping(rows), v, MarkerStyles[k]);
    assert Dashboard(df, sel)[k] == slot;
    assert f.Table? && rows == Where(df, Keep(sel));
    assert Keep(sel)(df[i]) && IsVariable(v)(df[i]);
    assert forall j :: 0 <= j < i ==> !(Keep(sel)(df[j]) && IsVariable(v)(df[j]));
    var m := FirstOfSelection(df, Keep(sel), IsVariable(v), i);
    assert forall j :: 0 <= j < m ==> rows[j].variableName != v;
    assert rows[m].variableName == v;
    UnitLabelOfSelection(rows, v);
    assert UnitLabel(UnitMapping(rows), v) == rows[m].unit;
  }

  /** Saudi Arabia's trace is the highlighted one. */
  const Highlight := "Saudi Arabia"
  const HighlightColor := "green"

  /** Line widths in tenths of a pixel: 4 for the highlighted trace, 1.5 for
      every other. */
  const HighlightWidth: nat := 40
  const NormalWidth: nat := 15

  /** The style attributes the loop sets on a trace; `None` leaves the value
      to the charting library (its default width, the colour `px.line`
      assigned). */
  datatype TraceStyle = TraceStyle(width: Option<nat>, color: Option<string>, symbol: Option<string>)

  const Unstyled := TraceStyle(None, None, None)

  /** One pass of the body of the `for trace in fig.data` loop. */
  function Restyle(name: string, before: TraceStyle, marker: string): (after: TraceStyle)
    ensures after.symbol == Some(marker)
    ensures after.width == Some(HighlightWidth) <==> name == Highlight
    ensures after.width == Some(NormalWidth) <==> name != Highlight
    ensures name == Highlight ==> after.color == Some(HighlightColor)
    ensures name != Highlight ==> after.color == before.color
  {
    if name == Highlight then TraceStyle(Some(HighlightWidth), Some(HighlightColor), Some(marker))
    else TraceStyle(Some(NormalWidth), before.color, Some(marker))
  }

  /** Styling a trace twice is styling it once. */
  lemma RestyleIdempotent(name: string, before: TraceStyle, marker: string)
    ensures Restyle(name, Restyle(name, before, marker), marker) == Restyle(name, before, marker)
  {
  }

  /** A trace of a Plotly figure (`fig.data[i]`), whose line and marker the
      chart code updates in place. */
  class Trace {
    const name: string
    var lineWidth: Option<nat>
    var lineColor: Option<string>
    var markerSymbol: Option<string>

    constructor (name: string)
      ensures this.name == name && Style() == Unstyled
    {
      this.name := name;
      lineWidth, lineColor, markerSymbol := None, None, None;
    }

    function Style(): TraceStyle
      reads this
    {
      TraceStyle(lineWidth, lineColor, markerSymbol)
    }
  }

  /** The `for trace in fig.data` loop: every trace of the figure is restyled in place; the
      figure's other objects are untouched. */
  method StyleTraces(traces: seq<Trace>, marker: string)
    modifies set t | t in traces
    ensures forall t :: t in traces ==> t.Style() == Restyle(t.name, old(t.Style()), marker)
  {
    for i := 0 to |traces|
      invariant forall t :: t in traces[..i] ==> t.Style() == Restyle(t.name, old(t.Style()), marker)
      invariant forall t :: t in traces[i..] && t !in traces[..i] ==> t.Style() == old(t.Style())
    {
      var t := traces[i];
      if t.name == Highlight {
        t.lineWidth := Some(HighlightWidth);
        t.lineColor := Some(HighlightColor);
      } else {
        t.lineWidth := Some(NormalWidth);
      }
      t.markerSymbol := Some(marker);
      assert traces[..i + 1] == traces[..i] + [t];
    }
  }

  /** The figure of a chart slot: one new trace per series, styled by the
      loop. */
  method DrawChart(slot: Slot) returns (traces: seq<Trace>)
    requires slot.Chart?
    ensures |traces| == |slot.series|
    ensures forall k :: 0 <= k < |traces| ==> fresh(traces[k]) && traces[k].name == slot.series[k]
    ensures forall k :: 0 <= k < |traces| ==> traces[k].Style() == Restyle(slot.series[k], Unstyled, slot.marker)
  {
    traces := [];
    for k := 0 to |slot.series|
      invariant |traces| == k
      invariant forall j :: 0 <= j < k ==> fresh(traces[j]) && traces[j].name == slot.series[j]
      invariant forall j :: 0 <= j < k ==> traces[j].Style() == Unstyled
    {
      var t := new Trace(slot.series[k]);
      traces := traces + [t];
    }
    StyleTraces(traces, slot.marker);
  }
}
