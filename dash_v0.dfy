/** The single-indicator dashboard (dash_v0.py): one activity and one
    variable are chosen; the selection is drawn as a time series and as a
    bar chart of each country's latest year, or a warning is shown when it
    is empty. */
module DashV0 {
  import opened Frames
  import opened Text
  import opened Records

  /** The sidebar's current values. The query's `activityName in @activity`
      with a string on the right is rewritten by pandas into membership in a
      one-element list, so both the activity and the variable clauses are
      equalities. */
  datatype Selection = Selection(
    countries: seq<string>,
    yearFrom: int,
    yearTo: int,
    activity: string,
    variable: string)

  predicate Admits(sel: Selection, r: Record)
  {
    && r.country in sel.countries
    && sel.yearFrom <= r.year <= sel.yearTo
    && r.activityName == sel.activity
    && r.variableName == sel.variable
  }

  function Keep(sel: Selection): Record -> bool
  {
    (r: Record) => Admits(sel, r)
  }

  /** `df.query(...)`: the rows the selection admits, in sheet order, each
      as often as in the sheet. */
  function Query(df: seq<Record>, sel: Selection): (rows: seq<Record>)
    ensures forall r :: r in rows <==> r in df && Admits(sel, r)
    ensures forall r :: multiset(rows)[r] == if Admits(sel, r) then multiset(df)[r] else 0
    ensures IsSubsequence(rows, df)
  {
    WhereCharacterized(df, Keep(sel));
    WhereSubsequence(df, Keep(sel));
    forall r ensures multiset(Where(df, Keep(sel)))[r] == if Admits(sel, r) then multiset(df)[r] else 0 {
      WhereCounts(df, Keep(sel), r);
    }
    Where(df, Keep(sel))
  }

  /** Running the query on its own result changes nothing. */
  lemma QueryIdempotent(df: seq<Record>, sel: Selection)
    ensures Query(Query(df, sel), sel) == Query(df, sel)
  {
    WhereIdempotent(df, Keep(sel));
  }

  /** The sidebar as the page first shows it: every country of the sheet and
      the slider spanning the sheet's years. */
  function DefaultSelection(df: seq<Record>, activity: string, variable: string): Selection
    requires df != []
  {
    Selection(Countries(df), YearBounds(df).value.0, YearBounds(df).value.1, activity, variable)
  }

  /** With the sidebar at its defaults the country and year clauses admit
      every row, so only the activity and the variable filter the sheet. */
  lemma DefaultSelectionQuery(df: seq<Record>, activity: string, variable: string)
    requires df != []
    ensures Query(df, DefaultSelection(df, activity, variable))
         == Where(df, (r: Record) => r.activityName == activity && r.variableName == variable)
  {
    DefaultsAdmitEveryRow(df);
    WhereCongruent(df, Keep(DefaultSelection(df, activity, variable)),
                   (r: Record) => r.activityName == activity && r.variableName == variable);
  }

  /** `df["variableName"].unique()`: the variable selectbox's options. */
  function VariableOptions(df: seq<Record>): (vs: seq<string>)
    ensures NoDuplicates(vs)
    ensures forall v :: v in vs <==> exists i :: 0 <= i < |df| && df[i].variableName == v
  {
    DistinctValues(df, (r: Record) => true, (r: Record) => r.variableName)
  }

  /** The y-axis title of both charts: the first selected row's unit, or
      "Value" when nothing is selected. */
  function YAxisLabel(rows: seq<Record>): string
  {
    if rows == [] then "Value" else rows[0].unit
  }

  /** The y-axis title is the unit of the first sheet row the selection
      admits, and "Value" exactly when it admits none. */
  lemma YAxisLabelOfQuery(df: seq<Record>, sel: Selection)
    ensures (forall i :: 0 <= i < |df| ==> !Admits(sel, df[i])) ==> YAxisLabel(Query(df, sel)) == "Value"
    ensures forall i ::
      (0 <= i < |df| && Admits(sel, df[i]) && forall j :: 0 <= j < i ==> !Admits(sel, df[j])) ==>
      YAxisLabel(Query(df, sel)) == df[i].unit
  {
    var rows := Query(df, sel);
    if rows != [] {
      assert rows[0] in df && Admits(sel, rows[0]);
      var i :| 0 <= i < |df| && df[i] == rows[0];
    }
    forall i | 0 <= i < |df| && Admits(sel, df[i]) && (forall j :: 0 <= j < i ==> !Admits(sel, df[j]))
      ensures YAxisLabel(rows) == df[i].unit
    {
      var m := FirstOfSelection(df, Keep(sel), (r: Record) => true, i);
      assert m == 0;
    }
  }

  /** Row `i` is the one `groupby("country")["year"].idxmax()` picks for
      `country`: a row of that country with the largest year, the first such
      row when several share it. */
  ghost predicate IsLatest(rows: seq<Record>, country: string, i: nat)
  {
    && i < |rows|
    && rows[i].country == country
    && (forall j :: 0 <= j < |rows| && rows[j].country == country ==> rows[j].year <= rows[i].year)
    && (forall j :: 0 <= j < i && rows[j].country == country ==> rows[j].year < rows[i].year)
  }

  /** The position of `country`'s latest row, scanning the rows in order and
      replacing the best so far only by a strictly later year. */
  function LatestIndex(rows: seq<Record>, country: string): (r: Option<nat>)
    ensures r.None? <==> forall j :: 0 <= j < |rows| ==> rows[j].country != country
    ensures r.Some? ==> IsLatest(rows, country, r.value)
  {
    if rows == [] then None
    else
      var n := |rows| - 1;
      var init := rows[..n];
      var best := LatestIndex(init, country);
      assert forall j :: 0 <= j < n ==> rows[j] == init[j];
      if rows[n].country != country then best
      else if best.None? then Some(n)
      else if rows[n].year > rows[best.value].year then Some(n)
      else best
  }

  /** `f"{row['country']} ({row['year']})"`: the bar chart's category label. */
  function CountryLabel(country: string, year: int): string
  {
    country + " (" + IntToString(year) + ")"
  }

  /** Reads a bar label back into its country and year: the year is the text
      between the last "(" and the closing ")". */
  function SplitLabel(caption: string): Option<(string, int)>
  {
    if |caption| < 4 || caption[|caption| - 1] != ')' then None
    else
      var body := caption[..|caption| - 1];
      match LastIndexOf(body, '(')
      case None => None
      case Some(paren) =>
        if paren < 1 || body[paren - 1] != ' ' then None
        else
          match ParseInt(body[paren + 1..])
          case None => None
          case Some(year) => Some((body[..paren - 1], year))
  }

  /** A bar label determines its country and year, so different countries
      always get different bars, whatever characters their names hold. */
  lemma LabelRoundTrip(country: string, year: int)
    ensures SplitLabel(CountryLabel(country, year)) == Some((country, year))
  {
    var digits := IntToString(year);
    var caption := CountryLabel(country, year);
    var body := caption[..|caption| - 1];
    IntToStringCharacters(year);
    assert '(' !in digits;
    assert body == (country + " ") + ['('] + digits;
    LastIndexOfAppend(country + " ", '(', digits);
    assert body[|country| + 2..] == digits;
    assert body[..|country|] == country;
    IntToStringRoundTrip(year);
  }

  /** One row of `df_latest`: its position in the selection, the row, and
      the `country_label` column added to it. */
  datatype LatestRow = LatestRow(position: nat, row: Record, caption: string)

  /** The countries that have rows in `rows`. */
  ghost function CountriesOf(rows: seq<Record>): set<string>
  {
    set i | 0 <= i < |rows| :: rows[i].country
  }

  /** The `df_latest` row of one country that has rows in the selection. */
  function LatestRowOf(rows: seq<Record>, country: string): (latest: LatestRow)
    requires country in CountriesOf(rows)
    ensures IsLatest(rows, country, latest.position)
    ensures latest.row == rows[latest.position]
    ensures latest.caption == CountryLabel(country, latest.row.year)
  {
    var i := LatestIndex(rows, country).value;
    LatestRow(i, rows[i], CountryLabel(rows[i].country, rows[i].year))
  }

  /** The group keys of `groupby('country')`. */
  function CountryKeys(rows: seq<Record>): (keys: seq<string>)
    ensures StrictlySorted(keys)
    ensures forall c :: c in keys <==> c in CountriesOf(rows)
  {
    var col := Column(rows, (r: Record) => r.country);
    assert forall c :: c in col <==> c in CountriesOf(rows) by {
      forall c ensures c in col <==> c in CountriesOf(rows) {
        if c in col {
          var i :| 0 <= i < |col| && col[i] == c;
        }
        if c in CountriesOf(rows) {
          var i :| 0 <= i < |rows| && rows[i].country == c;
          assert col[i] == c;
        }
      }
    }
    SortedKeys(col)
  }

  /** `df_selection.loc[df_selection.groupby('country')['year'].idxmax()]`
      with the label column: one row per country, countries in ascending
      order (the group order of `groupby`). */
  function LatestPerCountry(rows: seq<Record>): (latest: seq<LatestRow>)
    ensures forall k :: 0 <= k < |latest| ==>
      && IsLatest(rows, latest[k].row.country, latest[k].position)
      && latest[k].row == rows[latest[k].position]
      && latest[k].caption == CountryLabel(latest[k].row.country, latest[k].row.year)
    ensures forall k, l :: 0 <= k < l < |latest| ==> Below(latest[k].row.country, latest[l].row.country)
    ensures forall c :: c in CountriesOf(rows) <==> exists k :: 0 <= k < |latest| && latest[k].row.country == c
  {
    var keys := CountryKeys(rows);
    var latest := seq(|keys|, k requires 0 <= k < |keys| => LatestRowOf(rows, keys[k]));
    LatestOfKeys(rows, keys, latest);
    latest
  }

  /** The latest rows of sorted group keys are sorted by country and cover
      exactly the keys. */
  lemma LatestOfKeys(rows: seq<Record>, keys: seq<string>, latest: seq<LatestRow>)
    requires StrictlySorted(keys)
    requires forall c :: c in keys <==> c in CountriesOf(rows)
    requires |latest| == |keys|
    requires forall k :: 0 <= k < |keys| ==> keys[k] in CountriesOf(rows) && latest[k] == LatestRowOf(rows, keys[k])
    ensures forall k :: 0 <= k < |latest| ==>
      && IsLatest(rows, latest[k].row.country, latest[k].position)
      && latest[k].row == rows[latest[k].position]
      && latest[k].caption == CountryLabel(latest[k].row.country, latest[k].row.year)
    ensures forall k, l :: 0 <= k < l < |latest| ==> Below(latest[k].row.country, latest[l].row.country)
    ensures forall c :: c in CountriesOf(rows) <==> exists k :: 0 <= k < |latest| && latest[k].row.country == c
  {
    assert forall k :: 0 <= k < |keys| ==> latest[k].row.country == keys[k];
    forall c | c in CountriesOf(rows) ensures exists k :: 0 <= k < |latest| && latest[k].row.country == c {
      var k :| 0 <= k < |keys| && keys[k] == c;
    }
  }

  /** Each bar has its own label. */
  lemma LatestLabelsDistinct(rows: seq<Record>)
    ensures forall k, l :: 0 <= k < l < |LatestPerCountry(rows)| ==>
      LatestPerCountry(rows)[k].caption != LatestPerCountry(rows)[l].caption
  {
    var latest := LatestPerCountry(rows);
    forall k, l | 0 <= k < l < |latest| ensures latest[k].caption != latest[l].caption {
      var a, b := latest[k].row, latest[l].row;
      BelowAsymmetric(a.country, b.country);
      LabelRoundTrip(a.country, a.year);
      LabelRoundTrip(b.country, b.year);
    }
  }

  /** One bar of the latest-year chart: its label, colour group and height. */
  datatype Bar = Bar(caption: string, country: string, valueUSD: real)

  /** What the page shows below the data expander. */
  datatype View =
    | NoDataWarning
    | Charts(
        yAxisLabel: string,
        lineTitle: string,
        lines: seq<(string, string)>,
        barTitle: string,
        bars: seq<Bar>)

  /** The time series draws one line per distinct (country, activity) pair
      (`color="country", line_group="activityName"`). The order here is that
      of each pair's first row; `px.line` orders by country first, then by
      activity, and the two agree once the query has fixed the activity. */
  function Lines(rows: seq<Record>): seq<(string, string)>
  {
    Unique(Column(rows, (r: Record) => (r.country, r.activityName)))
  }

  function Bars(latest: seq<LatestRow>): (bars: seq<Bar>)
    ensures |bars| == |latest|
  {
    seq(|latest|, k requires 0 <= k < |latest| =>
      Bar(latest[k].caption, latest[k].row.country, latest[k].row.valueUSD))
  }

  /** The charts for a selection, or the single warning when it is empty. */
  function Render(rows: seq<Record>, variable: string): View
  {
    if rows == [] then NoDataWarning
    else
      Charts(
        YAxisLabel(rows),
        variable + " Over Time by Activity and Country",
        Lines(rows),
        "Latest " + variable + " Data by Country",
        Bars(LatestPerCountry(rows)))
  }

  /** The whole page below the sidebar: query, then render. */
  function Dashboard(df: seq<Record>, sel: Selection): View
  {
    Render(Query(df, sel), sel.variable)
  }

  /** The warning is shown exactly when no sheet row passes the filters;
      otherwise both charts are drawn. */
  lemma NoDataExactlyWhenNothingAdmitted(df: seq<Record>, sel: Selection)
    ensures Dashboard(df, sel).NoDataWarning? <==> forall i :: 0 <= i < |df| ==> !Admits(sel, df[i])
  {
    var rows := Query(df, sel);
    if rows != [] {
      assert Admits(sel, rows[0]) && rows[0] in df;
    } else {
      forall i | 0 <= i < |df| ensures !Admits(sel, df[i]) {
        assert df[i] in df;
      }
    }
  }

  /** One bar per country of the rows, none twice. */
  lemma BarCountries(rows: seq<Record>)
    ensures forall k, l :: 0 <= k < l < |Bars(LatestPerCountry(rows))| ==>
      Bars(LatestPerCountry(rows))[k].country != Bars(LatestPerCountry(rows))[l].country
    ensures (set k | 0 <= k < |Bars(LatestPerCountry(rows))| :: Bars(LatestPerCountry(rows))[k].country)
         == CountriesOf(rows)
  {
    var latest := LatestPerCountry(rows);
    var bars := Bars(latest);
    forall k, l | 0 <= k < l < |bars| ensures bars[k].country != bars[l].country {
      BelowAsymmetric(latest[k].row.country, latest[l].row.country);
    }
    var shown := set k | 0 <= k < |bars| :: bars[k].country;
    forall c ensures c in shown <==> c in CountriesOf(rows) {
      if c in CountriesOf(rows) {
        var k :| 0 <= k < |latest| && latest[k].row.country == c;
        assert bars[k].country == c;
      }
    }
  }

  /** The countries of the selection are those of the admitted sheet rows. */
  lemma QueryCountries(df: seq<Record>, sel: Selection)
    ensures CountriesOf(Query(df, sel)) == set i | 0 <= i < |df| && Admits(sel, df[i]) :: df[i].country
  {
    var rows := Query(df, sel);
    var admitted := set i | 0 <= i < |df| && Admits(sel, df[i]) :: df[i].country;
    forall c ensures c in CountriesOf(rows) <==> c in admitted {
      if c in CountriesOf(rows) {
        var j :| 0 <= j < |rows| && rows[j].country == c;
        assert rows[j] in rows;
        var i :| 0 <= i < |df| && df[i] == rows[j];
      }
      if c in admitted {
        var i :| 0 <= i < |df| && Admits(sel, df[i]) && df[i].country == c;
        assert df[i] in df;
        var j :| 0 <= j < |rows| && rows[j] == df[i];
      }
    }
  }

  /** The bar chart has exactly one bar for each country that has a row
      passing the filters, and no other bar. */
  lemma BarsCoverSelectedCountries(df: seq<Record>, sel: Selection)
    requires Dashboard(df, sel).Charts?
    ensures forall k, l :: 0 <= k < l < |Dashboard(df, sel).bars| ==>
      Dashboard(df, sel).bars[k].country != Dashboard(df, sel).bars[l].country
    ensures (set k | 0 <= k < |Dashboard(df, sel).bars| :: Dashboard(df, sel).bars[k].country)
         == (set i | 0 <= i < |df| && Admits(sel, df[i]) :: df[i].country)
  {
    var rows := Query(df, sel);
    assert Dashboard(df, sel).bars == Bars(LatestPerCountry(rows));
    BarCountries(rows);
    QueryCountries(df, sel);
  }

  /** Rows of a single activity draw only lines of that activity. */
  lemma LinesActivity(rows: seq<Record>, activity: string)
    requires forall i :: 0 <= i < |rows| ==> rows[i].activityName == activity
    ensures forall k :: 0 <= k < |Lines(rows)| ==> Lines(rows)[k].1 == activity
  {
    var col := Column(rows, (r: Record) => (r.country, r.activityName));
    var lines := Lines(rows);
    assert lines == Unique(col);
    forall k | 0 <= k < |lines| ensures lines[k].1 == activity {
      var j :| 0 <= j < |col| && col[j] == lines[k];
    }
  }

  /** Rows of a single activity draw no country's line twice. */
  lemma LinesCountriesDistinct(rows: seq<Record>, activity: string)
    requires forall i :: 0 <= i < |rows| ==> rows[i].activityName == activity
    ensures forall k, l :: 0 <= k < l < |Lines(rows)| ==> Lines(rows)[k].0 != Lines(rows)[l].0
  {
    var lines := Lines(rows);
    LinesActivity(rows, activity);
    forall k, l | 0 <= k < l < |lines| ensures lines[k].0 != lines[l].0 {
      assert lines[k] != lines[l];
    }
  }

  /** Every country of the rows has a line, and no other country. */
  lemma LinesCountries(rows: seq<Record>)
    ensures (set k | 0 <= k < |Lines(rows)| :: Lines(rows)[k].0) == CountriesOf(rows)
  {
    var col := Column(rows, (r: Record) => (r.country, r.activityName));
    var lines := Unique(col);
    assert Lines(rows) == lines;
    forall k | 0 <= k < |lines| ensures lines[k].0 in CountriesOf(rows) {
      var j :| 0 <= j < |col| && col[j] == lines[k];
      assert rows[j].country == lines[k].0;
    }
    forall c | c in CountriesOf(rows) ensures exists k :: 0 <= k < |lines| && lines[k].0 == c {
      var j :| 0 <= j < |rows| && rows[j].country == c;
      assert col[j] in lines;
    }
  }

  /** After the query every line carries the chosen activity, so the
      `line_group` split adds no line: one line per selected country, and
      none twice. */
  lemma LinesOfQuery(df: seq<Record>, sel: Selection)
    ensures forall k :: 0 <= k < |Lines(Query(df, sel))| ==> Lines(Query(df, sel))[k].1 == sel.activity
    ensures forall k, l :: 0 <= k < l < |Lines(Query(df, sel))| ==>
      Lines(Query(df, sel))[k].0 != Lines(Query(df, sel))[l].0
    ensures (set k | 0 <= k < |Lines(Query(df, sel))| :: Lines(Query(df, sel))[k].0) == CountriesOf(Query(df, sel))
  {
    var rows := Query(df, sel);
    forall i | 0 <= i < |rows| ensures rows[i].activityName == sel.activity {
      assert rows[i] in rows;
    }
    LinesActivity(rows, sel.activity);
    LinesCountriesDistinct(rows, sel.activity);
    LinesCountries(rows);
  }

  /** A worked case: Chile in 2019 and 2020 and Peru in 2020, all of one
      activity and one variable, with both countries and both years chosen.
      All three rows are selected and the bar chart has "Chile (2020)" at
      120 and "Peru (2020)" at 80. */
  function ExampleSheet(): seq<Record>
  {
    [Record("Chile", 2019, "Mining", "X", "D", "A", 0.0, 100.0, "USD"),
     Record("Chile", 2020, "Mining", "X", "D", "A", 0.0, 120.0, "USD"),
     Record("Peru", 2020, "Mining", "X", "D", "A", 0.0, 80.0, "USD")]
  }

  function ExampleSelection(): Selection
  {
    Selection(["Chile", "Peru"], 2019, 2020, "X", "A")
  }

  lemma ExampleQuery()
    ensures Query(ExampleSheet(), ExampleSelection()) == ExampleSheet()
  {
    var rows := ExampleSheet();
    var keep := Keep(ExampleSelection());
    assert keep(rows[0]) && keep(rows[1]) && keep(rows[2]);
    var t2 := rows[1..][1..];
    assert t2 == [rows[2]] && t2[1..] == [];
    assert Where(t2, keep) == t2;
    assert Where(rows[1..], keep) == rows[1..];
    assert Where(rows, keep) == rows;
  }

  lemma ExampleYear()
    ensures IntToString(2020) == "2020"
  {
    assert NatDigits(2) == "2";
    assert NatDigits(20) == "20";
    assert NatDigits(202) == "202";
  }

  lemma ExampleKeys()
    ensures CountryKeys(ExampleSheet()) == ["Chile", "Peru"]
  {
    var rows := ExampleSheet();
    var keys := CountryKeys(rows);
    assert Below("Chile", "Peru");
    assert "Chile" in keys && "Peru" in keys;
    StrictlySortedDistinct(keys);
    forall c | c in keys ensures c == "Chile" || c == "Peru" {
      assert c in CountriesOf(rows);
    }
  }

  lemma ExampleLatest()
    ensures LatestIndex(ExampleSheet(), "Chile") == Some(1)
    ensures LatestIndex(ExampleSheet(), "Peru") == Some(2)
  {
    var rows := ExampleSheet();
    assert rows[..2][..1] == rows[..1];
    assert rows[..1][..0] == [];
    assert rows[..2] == rows[..3][..2];
  }

  lemma ExampleCaptions()
    ensures CountryLabel("Chile", 2020) == "Chile (2020)"
    ensures CountryLabel("Peru", 2020) == "Peru (2020)"
  {
    ExampleYear();
  }

  lemma ExampleLatestOfEach()
    ensures "Chile" in CountriesOf(ExampleSheet()) && "Peru" in CountriesOf(ExampleSheet())
    ensures LatestRowOf(ExampleSheet(), "Chile") == LatestRow(1, ExampleSheet()[1], "Chile (2020)")
    ensures LatestRowOf(ExampleSheet(), "Peru") == LatestRow(2, ExampleSheet()[2], "Peru (2020)")
  {
    var rows := ExampleSheet();
    ExampleLatest();
    ExampleCaptions();
    assert rows[0].country == "Chile" && rows[2].country == "Peru";
  }

  lemma ExampleLatestRows()
    ensures LatestPerCountry(ExampleSheet())
         == [LatestRow(1, ExampleSheet()[1], "Chile (2020)"), LatestRow(2, ExampleSheet()[2], "Peru (2020)")]
  {
    var rows := ExampleSheet();
    ExampleKeys();
    ExampleLatestOfEach();
    var latest := LatestPerCountry(rows);
    assert |latest| == 2;
    assert latest[0] == LatestRowOf(rows, "Chile");
    assert latest[1] == LatestRowOf(rows, "Peru");
  }

  lemma ExampleRender()
    ensures Render(ExampleSheet(), "A").Charts?
    ensures Render(ExampleSheet(), "A").bars
         == [Bar("Chile (2020)", "Chile", 120.0), Bar("Peru (2020)", "Peru", 80.0)]
  {
    ExampleLatestRows();
  }

  lemma ExampleBars()
    ensures Dashboard(ExampleSheet(), ExampleSelection()).Charts?
    ensures Dashboard(ExampleSheet(), ExampleSelection()).bars
         == [Bar("Chile (2020)", "Chile", 120.0), Bar("Peru (2020)", "Peru", 80.0)]
  {
    ExampleQuery();
    ExampleRender();
  }
}
