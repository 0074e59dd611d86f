/** The dataset both dashboards load from "Sheet1" of the spreadsheet, and
    the sidebar choices whose options come from it in the same way in both
    scripts: the country list, the year slider's bounds and the activities of
    a sector. */
module Records {
  import opened Frames

  /** One row of the sheet. `unit` is the `unidadMedida` column; `value` and
      `valueUSD` are only passed through to the charts. */
  datatype Record = Record(
    country: string,
    year: int,
    sector: string,
    activityName: string,
    dimension: string,
    variableName: string,
    value: real,
    valueUSD: real,
    unit: string)

  /** A column of the frame, row by row. */
  function Column<U>(df: seq<Record>, field: Record -> U): (c: seq<U>)
    ensures |c| == |df| && forall i :: 0 <= i < |df| ==> c[i] == field(df[i])
  {
    seq(|df|, i requires 0 <= i < |df| => field(df[i]))
  }

  /** `df["country"].unique()`: the options, and the default, of the country
      multiselect. */
  function Countries(df: seq<Record>): (cs: seq<string>)
    ensures NoDuplicates(cs)
    ensures forall c :: c in cs <==> exists i :: 0 <= i < |df| && df[i].country == c
  {
    var col := Column(df, (r: Record) => r.country);
    var cs := Unique(col);
    assert forall c :: c in cs ==> exists i :: 0 <= i < |df| && df[i].country == c by {
      forall c | c in cs ensures exists i :: 0 <= i < |df| && df[i].country == c {
        var k :| 0 <= k < |col| && col[k] == c;
      }
    }
    cs
  }

  /** `(int(df["year"].min()), int(df["year"].max()))`: the bounds and the
      default value of the year slider. On an empty sheet the minimum is NaN
      and `int()` fails, so there are no bounds. */
  function YearBounds(df: seq<Record>): (b: Option<(int, int)>)
    ensures b.None? <==> df == []
    ensures b.Some? ==> exists i :: 0 <= i < |df| && df[i].year == b.value.0
    ensures b.Some? ==> exists i :: 0 <= i < |df| && df[i].year == b.value.1
    ensures b.Some? ==> forall i :: 0 <= i < |df| ==> b.value.0 <= df[i].year <= b.value.1
  {
    if df == [] then None
    else
      match YearBounds(df[1..])
      case None => Some((df[0].year, df[0].year))
      case Some((lo, hi)) =>
        var y := df[0].year;
        assert exists i :: 0 <= i < |df| && df[i].year == lo by {
          var i :| 0 <= i < |df[1..]| && df[1..][i].year == lo;
          assert df[i + 1].year == lo;
        }
        assert exists i :: 0 <= i < |df| && df[i].year == hi by {
          var i :| 0 <= i < |df[1..]| && df[1..][i].year == hi;
          assert df[i + 1].year == hi;
        }
        assert forall i :: 1 <= i < |df| ==> lo <= df[i].year <= hi by {
          forall i | 1 <= i < |df| ensures lo <= df[i].year <= hi {
            assert df[i] == df[1..][i - 1];
          }
        }
        Some((if y < lo then y else lo, if y > hi then y else hi))
  }

  /** With the sidebar left at its defaults (every country of the sheet, the
      slider spanning the sheet's first to last year), the country and year
      clauses of the query admit every row. */
  lemma DefaultsAdmitEveryRow(df: seq<Record>)
    requires df != []
    ensures forall i :: 0 <= i < |df| ==>
      df[i].country in Countries(df) &&
      YearBounds(df).value.0 <= df[i].year <= YearBounds(df).value.1
  {
  }

  /** `df[keep][field].unique()`: the distinct values a column takes on the
      rows a mask admits, each once, in order of first appearance. */
  function DistinctValues<U(==)>(df: seq<Record>, keep: Record -> bool, field: Record -> U): (vs: seq<U>)
    ensures NoDuplicates(vs)
    ensures forall j :: 0 <= j < |vs| ==>
      exists i :: 0 <= i < |df| && keep(df[i]) && field(df[i]) == vs[j]
    ensures forall i :: 0 <= i < |df| && keep(df[i]) ==> field(df[i]) in vs
  {
    var rows := Where(df, keep);
    var col := Column(rows, field);
    var vs := Unique(col);
    assert forall j :: 0 <= j < |vs| ==>
      exists i :: 0 <= i < |df| && keep(df[i]) && field(df[i]) == vs[j] by {
      forall j | 0 <= j < |vs|
        ensures exists i :: 0 <= i < |df| && keep(df[i]) && field(df[i]) == vs[j]
      {
        var k :| 0 <= k < |col| && col[k] == vs[j];
        WhereMembership(df, keep, rows[k]);
        var i :| 0 <= i < |df| && df[i] == rows[k];
      }
    }
    assert forall i :: 0 <= i < |df| && keep(df[i]) ==> field(df[i]) in vs by {
      forall i | 0 <= i < |df| && keep(df[i]) ensures field(df[i]) in vs {
        WhereMembership(df, keep, df[i]);
        var k :| 0 <= k < |rows| && rows[k] == df[i];
        assert col[k] == field(df[i]);
      }
    }
    vs
  }

  function InSector(sector: string): Record -> bool
  {
    (r: Record) => r.sector == sector
  }

  /** `df[df["Sector"] == sector]["activityName"].unique()`: the activities
      offered once a sector is chosen, each once, in order of first
      appearance. */
  function ActivityOptions(df: seq<Record>, sector: string): (acts: seq<string>)
    ensures NoDuplicates(acts)
    ensures forall a :: a in acts <==>
      exists i :: 0 <= i < |df| && df[i].sector == sector && df[i].activityName == a
  {
    DistinctValues(df, InSector(sector), (r: Record) => r.activityName)
  }
}
