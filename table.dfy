/** The sunshine table loaded at startup: one row per (city, month) with the
    hours of sunshine, the fixed month-name dictionary, and the two pandas
    selections plus `.max()` that the update rule uses to find the brightest
    row of the selected month among the selected cities. */
module Table {

  datatype Option<T> = None | Some(value: T)

  /** One record of the table. Longitude and latitude only place the marker
      on the map and are not part of this model. */
  datatype Row = Row(city: string, month: string, sunshine: int)

  /** The month dictionary: abbreviation to display name. */
  const MonthNames: map<string, string> :=
    map["Jan" := "January", "Feb" := "February", "Mar" := "March", "Apr" := "April",
        "May" := "May", "Jun" := "June", "Jul" := "July", "Aug" := "August",
        "Sep" := "September", "Oct" := "October", "Nov" := "November", "Dec" := "December"]

  /** A table the dashboard can start with: building the month selector looks
      every month of the table up in the dictionary, so a month outside it
      stops the program before any update runs. */
  predicate WellFormed(rows: seq<Row>)
  {
    forall r :: r in rows ==> r.month in MonthNames
  }

  /** Row r is in the current selection: its month is the selected one and its
      city is among the selected cities. */
  predicate Matches(r: Row, month: string, cities: set<string>)
  {
    r.month == month && r.city in cities
  }

  /** `df[df['city'].isin(city_list)]`: the rows whose city is selected, in table
      order. Which rows it keeps is stated by the lemma `CityFilterSelects`, kept
      apart so that callers do not carry that quantifier. */
  function CityFilter(rows: seq<Row>, cities: set<string>): (r: seq<Row>)
    ensures |r| <= |rows|
  {
    if rows == [] then []
    else if rows[0].city in cities then [rows[0]] + CityFilter(rows[1..], cities)
    else CityFilter(rows[1..], cities)
  }

  /** `d[d['month'] == month]`: the rows of the given month, in table order.
      Which rows it keeps is stated by the lemma `MonthFilterSelects`. */
  function MonthFilter(rows: seq<Row>, month: string): (r: seq<Row>)
    ensures |r| <= |rows|
  {
    if rows == [] then []
    else if rows[0].month == month then [rows[0]] + MonthFilter(rows[1..], month)
    else MonthFilter(rows[1..], month)
  }

  /** The city selection holds exactly the table rows of a selected city. */
  lemma {:induction false} CityFilterSelects(rows: seq<Row>, cities: set<string>)
    ensures forall x :: x in CityFilter(rows, cities) <==> x in rows && x.city in cities
  {
    if rows != [] {
      CityFilterSelects(rows[1..], cities);
      assert rows == [rows[0]] + rows[1..];
    }
  }

  /** The month selection holds exactly the rows of the given month. */
  lemma {:induction false} MonthFilterSelects(rows: seq<Row>, month: string)
    ensures forall x :: x in MonthFilter(rows, month) <==> x in rows && x.month == month
  {
    if rows != [] {
      MonthFilterSelects(rows[1..], month);
      assert rows == [rows[0]] + rows[1..];
    }
  }

  /** The sunshine column of a selection. */
  function Sunshines(rows: seq<Row>): seq<int>
  {
    seq(|rows|, k requires 0 <= k < |rows| => rows[k].sunshine)
  }

  /** `Series.max()`: the largest value of a column, `None` for an empty column
      (pandas gives NaN there, which compares equal to nothing). */
  function ColumnMax(xs: seq<int>): (m: Option<int>)
    ensures m.None? <==> xs == []
    ensures m.Some? ==> m.value in xs && forall k :: 0 <= k < |xs| ==> xs[k] <= m.value
  {
    if xs == [] then None
    else match ColumnMax(xs[1..])
      case None => Some(xs[0])
      case Some(v) => Some(if xs[0] < v then v else xs[0])
  }

  /** `max_temp_month`: the maximum sunshine over the rows of the selected
      cities in the selected month, computed the way the source does it. */
  function MonthMax(rows: seq<Row>, month: string, cities: set<string>): Option<int>
  {
    ColumnMax(Sunshines(MonthFilter(CityFilter(rows, cities), month)))
  }

  /** Row i is selected and no selected row has more sunshine. */
  predicate IsMaxRow(rows: seq<Row>, i: int, month: string, cities: set<string>)
    requires 0 <= i < |rows|
  {
    Matches(rows[i], month, cities) &&
    forall j :: 0 <= j < |rows| && Matches(rows[j], month, cities) ==> rows[j].sunshine <= rows[i].sunshine
  }

  /** The filtered maximum is the maximum over the selected rows of the whole
      table, and there is none exactly when nothing is selected. */
  lemma MonthMaxIsSelectionMax(rows: seq<Row>, month: string, cities: set<string>)
    ensures MonthMax(rows, month, cities).None? <==>
              forall i :: 0 <= i < |rows| ==> !Matches(rows[i], month, cities)
    ensures MonthMax(rows, month, cities).Some? ==>
              (forall i :: 0 <= i < |rows| && Matches(rows[i], month, cities) ==>
                 rows[i].sunshine <= MonthMax(rows, month, cities).value) &&
              (exists i :: 0 <= i < |rows| && Matches(rows[i], month, cities) &&
                 rows[i].sunshine == MonthMax(rows, month, cities).value)
  {
    CityFilterSelects(rows, cities);
    MonthFilterSelects(CityFilter(rows, cities), month);
    var sel := MonthFilter(CityFilter(rows, cities), month);
    var xs := Sunshines(sel);
    var m := ColumnMax(xs);
    assert forall x :: x in sel <==> x in rows && Matches(x, month, cities);
    forall i | 0 <= i < |rows| && Matches(rows[i], month, cities)
      ensures m.Some? && rows[i].sunshine <= m.value
    {
      assert rows[i] in sel;
      var k :| 0 <= k < |sel| && sel[k] == rows[i];
      assert xs[k] == rows[i].sunshine;
    }
    if m.Some? {
      var k :| 0 <= k < |xs| && xs[k] == m.value;
      assert sel[k] in rows && Matches(sel[k], month, cities);
      var i :| 0 <= i < |rows| && rows[i] == sel[k];
      assert Matches(rows[i], month, cities) && rows[i].sunshine == m.value;
    }
  }

  /** For a selected row, comparing its sunshine with the filtered maximum (as
      the source does) decides exactly whether it is a maximal selected row. */
  lemma MaxRowIffMonthMax(rows: seq<Row>, i: nat, month: string, cities: set<string>)
    requires i < |rows| && Matches(rows[i], month, cities)
    ensures IsMaxRow(rows, i, month, cities) <==> MonthMax(rows, month, cities) == Some(rows[i].sunshine)
  {
    MonthMaxIsSelectionMax(rows, month, cities);
  }

  /** `MaxRowIffMonthMax` for every selected row at once. */
  lemma MaxRowsIffMonthMax(rows: seq<Row>, month: string, cities: set<string>)
    ensures forall i :: 0 <= i < |rows| && Matches(rows[i], month, cities) ==>
              (IsMaxRow(rows, i, month, cities) <==> MonthMax(rows, month, cities) == Some(rows[i].sunshine))
  {
    forall i | 0 <= i < |rows| && Matches(rows[i], month, cities)
      ensures IsMaxRow(rows, i, month, cities) <==> MonthMax(rows, month, cities) == Some(rows[i].sunshine)
    {
      MaxRowIffMonthMax(rows, i, month, cities);
    }
  }
}
