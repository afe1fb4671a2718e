/** The map figure: one trace per table row, built once at startup, and the
    update rule that runs whenever the selected month or the selected cities
    change. The rule shows the selected rows, hides the others, paints the
    brightest selected rows in the highlight colour and names the last of them
    in the figure's title. */
module Dashboard {
  import opened Table

  /** A trace's `visible` attribute: `False`, `True` or `'legendonly'`. */
  datatype Visibility = Hidden | Shown | LegendOnly

  /** The two marker colours: Default is #EDE8BA, Highlight is #FCE570. */
  datatype Color = Default | Highlight

  /** The parts of a trace the update rule reads or writes. */
  datatype Trace = Trace(visible: Visibility, showlegend: bool, color: Color)

  /** The title text `sunshine_state`: empty, or "Sunshine state of <month name>
      is <city> with <hours> hours of sunshine." for the table row `row`. */
  datatype Caption = Empty | SunshineState(monthName: string, row: nat)

  /** The trace every row starts with: hidden, listed in the legend, default colour. */
  const InitialTrace := Trace(Hidden, true, Default)

  /** The update rule for one trace, given the filtered maximum `max` of the
      current selection. */
  function Repaint(r: Row, t: Trace, month: string, cities: set<string>, max: Option<int>): Trace
  {
    if Matches(r, month, cities) then
      t.(visible := Shown, showlegend := false,
         color := if max == Some(r.sunshine) then Highlight else Default)
    else
      t.(visible := LegendOnly, showlegend := false)
  }

  /** `Repaint` restated through `MaxRowIffMonthMax`: the same rule for trace
      i, with the comparison against the filtered column replaced by "no
      selected row has more sunshine". It is not a second behaviour. */
  ghost function Painted(rows: seq<Row>, i: nat, t: Trace, month: string, cities: set<string>): Trace
    requires i < |rows|
  {
    if Matches(rows[i], month, cities) then
      Trace(Shown, false, if IsMaxRow(rows, i, month, cities) then Highlight else Default)
    else
      t.(visible := LegendOnly, showlegend := false)
  }

  /** The trace states after one update from states `ts`. */
  function Refresh(rows: seq<Row>, ts: seq<Trace>, month: string, cities: set<string>): (r: seq<Trace>)
    requires |ts| == |rows|
    ensures |r| == |ts|
    ensures forall i :: 0 <= i < |r| ==>
              r[i].visible == (if Matches(rows[i], month, cities) then Shown else LegendOnly)
    ensures forall i :: 0 <= i < |r| ==> !r[i].showlegend
    ensures forall i :: 0 <= i < |r| && Matches(rows[i], month, cities) ==>
              (r[i].color == Highlight <==> IsMaxRow(rows, i, month, cities))
    ensures forall i :: 0 <= i < |r| && !Matches(rows[i], month, cities) ==> r[i].color == ts[i].color
  {
    MaxRowsIffMonthMax(rows, month, cities);
    var max := MonthMax(rows, month, cities);
    seq(|rows|, i requires 0 <= i < |rows| => Repaint(rows[i], ts[i], month, cities, max))
  }

  /** The last row before index n that is a maximal selected row. */
  function LastMaxRow(rows: seq<Row>, n: nat, month: string, cities: set<string>): (w: Option<nat>)
    requires n <= |rows|
    ensures w.Some? ==> w.value < n && IsMaxRow(rows, w.value, month, cities) &&
                        forall j :: w.value < j < n ==> !IsMaxRow(rows, j, month, cities)
    ensures w.None? <==> forall j :: 0 <= j < n ==> !IsMaxRow(rows, j, month, cities)
  {
    if n == 0 then None
    else if IsMaxRow(rows, n - 1, month, cities) then Some(n - 1)
    else LastMaxRow(rows, n - 1, month, cities)
  }

  /** The title once rows 0 .. n-1 have been processed. */
  function CaptionAfter(rows: seq<Row>, n: nat, month: string, cities: set<string>): Caption
    requires WellFormed(rows) && n <= |rows|
  {
    match LastMaxRow(rows, n, month, cities)
    case None => Empty
    case Some(k) => SunshineState(MonthNames[rows[k].month], k)
  }

  /** The title after row n: row n takes it over exactly when it is a
      maximal selected row. */
  lemma CaptionStep(rows: seq<Row>, n: nat, month: string, cities: set<string>)
    requires WellFormed(rows) && n < |rows|
    ensures CaptionAfter(rows, n + 1, month, cities) ==
            if IsMaxRow(rows, n, month, cities) then SunshineState(MonthNames[month], n)
            else CaptionAfter(rows, n, month, cities)
  {
  }

  /** The figure: the loaded table, its traces (one per row, never added or
      removed after startup) and the title text. */
  class Figure {
    const rows: seq<Row>
    const traces: array<Trace>
    var title: Caption

    ghost predicate Valid()
      reads this
    {
      WellFormed(rows) && traces.Length == |rows|
    }

    /** Builds one trace per row, in table order. */
    constructor (data: seq<Row>)
      requires WellFormed(data)
      ensures Valid() && rows == data && fresh(traces)
      ensures forall i :: 0 <= i < traces.Length ==> traces[i] == InitialTrace
      ensures title == Empty
    {
      var ts := new Trace[|data|];
      var i := 0;
      while i < |data|
        invariant 0 <= i <= |data|
        invariant forall j :: 0 <= j < i ==> ts[j] == InitialTrace
      {
        ts[i] := InitialTrace;
        i := i + 1;
      }
      rows := data;
      traces := ts;
      title := Empty;
    }

    /** One pass of the update loop: repaints trace i and returns the title
        as it stands after row i. */
    method PaintRow(i: nat, month: string, cities: set<string>, state: Caption) returns (next: Caption)
      requires Valid() && i < traces.Length
      modifies traces
      ensures traces[i] == Painted(rows, i, old(traces[i]), month, cities)
      ensures forall j :: 0 <= j < traces.Length && j != i ==> traces[j] == old(traces[j])
      ensures next == if IsMaxRow(rows, i, month, cities) then SunshineState(MonthNames[month], i) else state
    {
      next := state;
      if rows[i].month == month && rows[i].city in cities {
        traces[i] := traces[i].(visible := Shown, showlegend := false);
        var maxMonth := MonthMax(rows, month, cities);
        MaxRowIffMonthMax(rows, i, month, cities);
        if maxMonth == Some(rows[i].sunshine) {
          traces[i] := traces[i].(color := Highlight);
          next := SunshineState(MonthNames[month], i);
        } else {
          traces[i] := traces[i].(color := Default);
        }
      } else {
        traces[i] := traces[i].(visible := LegendOnly, showlegend := false);
      }
    }

    /** Applies the selection (`month` may be "" for no month) to every trace
        in table order and sets the title. */
    method UpdateGraph(month: string, cities: set<string>)
      requires Valid()
      modifies this, traces
      ensures Valid()
      ensures traces[..] == Refresh(rows, old(traces[..]), month, cities)
      ensures title == CaptionAfter(rows, |rows|, month, cities)
    {
      ghost var before := traces[..];
      var state := Empty;
      var i := 0;
      while i < traces.Length
        invariant 0 <= i <= traces.Length
        invariant forall j :: 0 <= j < i ==> traces[j] == Painted(rows, j, before[j], month, cities)
        invariant forall j :: i <= j < traces.Length ==> traces[j] == before[j]
        invariant state == CaptionAfter(rows, i, month, cities)
      {
        state := PaintRow(i, month, cities, state);
        CaptionStep(rows, i, month, cities);
        i := i + 1;
      }
      assert traces[..] == Refresh(rows, before, month, cities);
      title := state;
    }
  }

  /** The title after a full update: empty exactly when no row is selected;
      otherwise it names the selected month (so the month-name lookup only
      happens for a month the table contains) and the last row, in table
      order, whose sunshine is the maximum of the selection. */
  lemma CaptionNamesLastMaximum(rows: seq<Row>, month: string, cities: set<string>)
    requires WellFormed(rows)
    ensures CaptionAfter(rows, |rows|, month, cities) == Empty <==>
              forall i :: 0 <= i < |rows| ==> !Matches(rows[i], month, cities)
    ensures match CaptionAfter(rows, |rows|, month, cities)
            case Empty => true
            case SunshineState(name, k) =>
              k < |rows| && rows[k].month == month && month in MonthNames && name == MonthNames[month] &&
              Matches(rows[k], month, cities) &&
              (forall i :: 0 <= i < |rows| && Matches(rows[i], month, cities) ==>
                 rows[i].sunshine <= rows[k].sunshine) &&
              (forall j :: k < j < |rows| && Matches(rows[j], month, cities) ==>
                 rows[j].sunshine < rows[k].sunshine)
  {
    MonthMaxIsSelectionMax(rows, month, cities);
    var w := LastMaxRow(rows, |rows|, month, cities);
    if exists i :: 0 <= i < |rows| && Matches(rows[i], month, cities) {
      var m := MonthMax(rows, month, cities).value;
      var i :| 0 <= i < |rows| && Matches(rows[i], month, cities) && rows[i].sunshine == m;
      assert IsMaxRow(rows, i, month, cities);
    }
    if w.Some? {
      var k := w.value;
      forall j | k < j < |rows| && Matches(rows[j], month, cities)
        ensures rows[j].sunshine < rows[k].sunshine
      {
        assert !IsMaxRow(rows, j, month, cities);
        var b :| 0 <= b < |rows| && Matches(rows[b], month, cities) && rows[b].sunshine > rows[j].sunshine;
        assert rows[b].sunshine <= rows[k].sunshine;
      }
    }
  }

  /** When some row is selected, at least one shown trace is highlighted. */
  lemma SomeMatchIsHighlighted(rows: seq<Row>, ts: seq<Trace>, month: string, cities: set<string>)
    requires |ts| == |rows|
    requires exists i :: 0 <= i < |rows| && Matches(rows[i], month, cities)
    ensures exists k :: 0 <= k < |rows| && Refresh(rows, ts, month, cities)[k] == Trace(Shown, false, Highlight)
  {
    MonthMaxIsSelectionMax(rows, month, cities);
    var r := Refresh(rows, ts, month, cities);
    var k :| 0 <= k < |rows| && Matches(rows[k], month, cities) &&
             rows[k].sunshine == MonthMax(rows, month, cities).value;
    assert IsMaxRow(rows, k, month, cities);
    assert r[k] == Trace(Shown, false, Highlight);
  }

  /** A highlighted shown trace has at least the sunshine of every shown trace. */
  lemma HighlightedIsBrightest(rows: seq<Row>, ts: seq<Trace>, month: string, cities: set<string>, k: nat, i: nat)
    requires |ts| == |rows| && k < |rows| && i < |rows|
    requires Refresh(rows, ts, month, cities)[k] == Trace(Shown, false, Highlight)
    requires Refresh(rows, ts, month, cities)[i].visible == Shown
    ensures rows[i].sunshine <= rows[k].sunshine
  {
  }

  /** With nothing selected (no month chosen, no city chosen, or a month the
      table lacks) every trace is legend-only, no colour changes and the title
      is empty. */
  lemma NoMatchChangesNoColour(rows: seq<Row>, ts: seq<Trace>, month: string, cities: set<string>)
    requires WellFormed(rows) && |ts| == |rows|
    requires month == "" || cities == {} || forall i :: 0 <= i < |rows| ==> rows[i].month != month
    ensures forall i :: 0 <= i < |rows| ==>
              Refresh(rows, ts, month, cities)[i] == ts[i].(visible := LegendOnly, showlegend := false)
    ensures CaptionAfter(rows, |rows|, month, cities) == Empty
  {
  }

  /** Updating twice with the same selection leaves the traces as one update does. */
  lemma RefreshIdempotent(rows: seq<Row>, ts: seq<Trace>, month: string, cities: set<string>)
    requires |ts| == |rows|
    ensures Refresh(rows, Refresh(rows, ts, month, cities), month, cities) == Refresh(rows, ts, month, cities)
  {
  }

  /** The number of traces shown on the map body. */
  function CountShown(ts: seq<Trace>): nat
  {
    if ts == [] then 0 else (if ts[0].visible == Shown then 1 else 0) + CountShown(ts[1..])
  }

  lemma {:induction false} ShownCount(rows: seq<Row>, ts: seq<Trace>, month: string, cities: set<string>)
    requires |ts| == |rows|
    requires forall i :: 0 <= i < |rows| ==> (ts[i].visible == Shown <==> Matches(rows[i], month, cities))
    ensures CountShown(ts) == |MonthFilter(CityFilter(rows, cities), month)|
  {
    if rows != [] {
      ShownCount(rows[1..], ts[1..], month, cities);
      var rest := CityFilter(rows[1..], cities);
      if rows[0].city in cities {
        var s := [rows[0]] + rest;
        assert s[0] == rows[0] && s[1..] == rest;
      }
    }
  }

  /** After an update, the number of shown traces is the number of rows in the
      selection the maximum is taken over. */
  lemma ShownTracesAreSelection(rows: seq<Row>, ts: seq<Trace>, month: string, cities: set<string>)
    requires |ts| == |rows|
    ensures CountShown(Refresh(rows, ts, month, cities)) == |MonthFilter(CityFilter(rows, cities), month)|
  {
    ShownCount(rows, Refresh(rows, ts, month, cities), month, cities);
  }

  /** A three-row sample table: two January rows and one February row. */
  const Sample := [Row("CityA", "Jan", 10), Row("CityB", "Jan", 20), Row("CityA", "Feb", 5)]

  /** With both cities selected, the brighter January city is highlighted and
      names the title, the other January row is shown in the default colour
      and the February row is legend-only. */
  lemma JanuaryScenario(ts: seq<Trace>)
    requires |ts| == |Sample|
    ensures CaptionAfter(Sample, |Sample|, "Jan", {"CityA", "CityB"}) == SunshineState("January", 1)
    ensures Refresh(Sample, ts, "Jan", {"CityA", "CityB"})[1] == Trace(Shown, false, Highlight)
    ensures Refresh(Sample, ts, "Jan", {"CityA", "CityB"})[0] == Trace(Shown, false, Default)
    ensures Refresh(Sample, ts, "Jan", {"CityA", "CityB"})[2].visible == LegendOnly
  {
    CaptionNamesLastMaximum(Sample, "Jan", {"CityA", "CityB"});
    assert Matches(Sample[1], "Jan", {"CityA", "CityB"});
    assert !IsMaxRow(Sample, 0, "Jan", {"CityA", "CityB"});
  }

  /** With only CityA selected, the maximum is taken over CityA's rows alone. */
  lemma SingleCityScenario()
    ensures CaptionAfter(Sample, |Sample|, "Jan", {"CityA"}) == SunshineState("January", 0)
  {
    CaptionNamesLastMaximum(Sample, "Jan", {"CityA"});
    assert Matches(Sample[0], "Jan", {"CityA"});
  }

  /** A month without rows leaves the title empty. */
  lemma MissingMonthScenario()
    ensures CaptionAfter(Sample, |Sample|, "Mar", {"CityA", "CityB"}) == Empty
  {
  }
}
