/** The findings chart (assets/js/plotly-findings.js): the rows of the
    findings CSV are grouped by year and working group into trace
    containers; the first year's containers are copied into the baseline
    traces; every year becomes an animation frame holding one container per
    baseline working group; every year becomes a slider step. The script
    calls its second grouping key `affiliation`, but what it passes as that
    key is the row's working group. */
module Findings {
  import opened Seqs
  import opened JsObject
  import opened Rows
  import opened Animation

  /** Transition and frame durations of a slider step, in milliseconds. */
  const StepTransitionMs: nat := 300
  const StepFrameMs: nat := 300

  /** The contents of a trace container's five parallel arrays. */
  datatype Series = Series(
    x: seq<string>,
    y: seq<string>,
    id: seq<string>,
    text: seq<string>,
    markerSize: seq<string>)

  const EmptySeries := Series([], [], [], [], [])

  /** What the row loop appends to a container for one row. */
  function Append(s: Series, r: Row): Series {
    Series(
      s.x + [r.affiliation],
      s.y + [r.nbContributions],
      s.id + [r.wg],
      s.text + [r.wg],
      s.markerSize + [r.nbContributions])
  }

  /** The contents of a container after the row loop appended `rows` to an
      empty one. */
  function SeriesOf(rows: seq<Row>): Series {
    if rows == [] then EmptySeries
    else Append(SeriesOf(rows[..|rows| - 1]), rows[|rows| - 1])
  }

  /** The five arrays stay parallel: each holds one element per row, and
      element k of each comes from row k. */
  lemma {:induction false} SeriesOfElements(rows: seq<Row>)
    ensures var s := SeriesOf(rows);
      && |s.x| == |rows| && |s.y| == |rows| && |s.id| == |rows|
      && |s.text| == |rows| && |s.markerSize| == |rows|
      && forall k :: 0 <= k < |rows| ==>
        && s.x[k] == rows[k].affiliation && s.y[k] == rows[k].nbContributions
        && s.id[k] == rows[k].wg && s.text[k] == rows[k].wg
        && s.markerSize[k] == rows[k].nbContributions
  {
    if rows != [] {
      SeriesOfElements(rows[..|rows| - 1]);
    }
  }

  /** After the row loop, the entry of (`year`, `wg`) has one element per
      row of that pair, element k coming from the k-th such row in input
      order; the entry is empty exactly when no row has that pair. */
  lemma EntryContents(rows: seq<Row>, year: string, wg: string)
    ensures var s := SeriesOf(Matching(rows, ByWg, year, wg));
      && |s.x| == |set i | 0 <= i < |rows| && InGroup(rows[i], ByWg, year, wg)|
      && |s.y| == |s.x| && |s.id| == |s.x| && |s.text| == |s.x| && |s.markerSize| == |s.x|
      && var ix := FilterIndices(rows, GroupTest(ByWg, year, wg));
      && |ix| == |s.x|
      && (forall k :: 0 <= k < |ix| ==>
            && ix[k] < |rows|
            && var r := rows[ix[k]];
               && s.x[k] == r.affiliation && s.y[k] == r.nbContributions && s.id[k] == r.wg
               && s.text[k] == r.wg && s.markerSize[k] == r.nbContributions)
      && (s == EmptySeries <==> forall r :: r in rows ==> !InGroup(r, ByWg, year, wg))
  {
    var m := Matching(rows, ByWg, year, wg);
    MatchingCount(rows, ByWg, year, wg);
    MatchingEmpty(rows, ByWg, year, wg);
    FilterOrder(rows, GroupTest(ByWg, year, wg));
    SeriesOfElements(m);
  }

  /** A trace container of `lookup`, `{x, y, id, text, marker: {size}}`,
      with the marker's array flattened into it. Each array is a field the
      pushes reassign. `year` and `wg` record, for the proof only, which
      entry of `lookup` the container was created for. */
  class Trace {
    ghost const year: string
    ghost const wg: string
    var x: seq<string>
    var y: seq<string>
    var id: seq<string>
    var text: seq<string>
    var markerSize: seq<string>

    function Data(): Series
      reads this
    {
      Series(x, y, id, text, markerSize)
    }

    /** The empty container `getData` creates. */
    constructor (ghost year: string, ghost wg: string)
      ensures this.year == year && this.wg == wg
      ensures Data() == EmptySeries
    {
      this.year := year;
      this.wg := wg;
      x, y, id, text, markerSize := [], [], [], [], [];
    }

    /** The five pushes of the row loop for one row. */
    method Push(datum: Row)
      modifies this
      ensures Data() == Append(old(Data()), datum)
    {
      text := text + [datum.wg];
      id := id + [datum.wg];
      x := x + [datum.affiliation];
      y := y + [datum.nbContributions];
      markerSize := markerSize + [datum.nbContributions];
    }
  }

  /** The baseline trace for one working group: `{name, x, y, id, text,
      mode, marker: {size}}`. Its arrays are `slice()` copies, values that
      later pushes to the container cannot reach. */
  datatype BaselineTrace = BaselineTrace(
    name: string,
    x: seq<string>,
    y: seq<string>,
    id: seq<string>,
    text: seq<string>,
    mode: string,
    markerSize: seq<string>)
  {
    function Data(): Series {
      Series(x, y, id, text, markerSize)
    }
  }

  /** The `lookup` table. `lookup[year][wg]` is `entries[(year, wg)]`;
      `years` lists the keys of `lookup`, and `wgs[year]` the keys of
      `lookup[year]`, in creation order. */
  class Lookup {
    var years: seq<string>
    var wgs: map<string, seq<string>>
    var entries: map<(string, string), Trace>
    /** The containers. */
    ghost var Repr: set<object>

    ghost predicate Valid()
      reads this
    {
      && (forall y :: y in years <==> y in wgs)
      && (forall y, w :: (y, w) in entries <==> y in wgs && w in wgs[y])
      && (forall y, w :: (y, w) in entries ==>
           && entries[(y, w)].year == y && entries[(y, w)].wg == w
           && entries[(y, w)] in Repr)
    }

    /** The contents of the container of a pair, empty when there is none. */
    ghost function SeriesAt(year: string, wg: string): Series
      reads this, entries.Values
    {
      if (year, wg) in entries then entries[(year, wg)].Data() else EmptySeries
    }

    /** Every entry of `e0` is still an entry, with the same container. */
    ghost predicate Keeps(e0: map<(string, string), Trace>)
      reads this
    {
      forall y, w :: (y, w) in e0 ==> (y, w) in entries && entries[(y, w)] == e0[(y, w)]
    }

    /** Every pair, with or without a container, holds what the row loop
        appended for the rows of that pair. */
    ghost predicate Holds(rows: seq<Row>)
      reads this, entries.Values
    {
      forall y, w :: SeriesAt(y, w) == SeriesOf(Matching(rows, ByWg, y, w))
    }

    /** The empty table the script starts from: no year key, no
        working-group key and no container. */
    constructor ()
      ensures Valid() && years == [] && wgs == map[] && entries == map[] && Repr == {}
    {
      years, wgs, entries := [], map[], map[];
      Repr := {};
    }

    /** `getData(year, wg)`: the container of the pair, created empty when
        there is none yet. An existing container is returned and every
        container keeps its contents; the pair's keys are created as a
        JavaScript object creates them. */
    method GetData(year: string, wg: string) returns (trace: Trace)
      requires Valid()
      modifies this
      ensures Valid() && fresh(Repr - old(Repr))
      ensures (year, wg) in entries && trace == entries[(year, wg)]
      ensures Keeps(old(entries))
      ensures entries.Keys == old(entries.Keys) + {(year, wg)}
      ensures years == AddKey(old(years), year)
      ensures wgs == old(wgs)[year := AddKey(old(CatsOf(wgs, year)), wg)]
      ensures forall y, w :: SeriesAt(y, w) == old(SeriesAt(y, w))
    {
      YearTable(year);
      trace := Container(year, wg);
    }

    /** The first half of `getData`: the table of `year` is created, empty,
        when there is none yet, and its key is then the newest year key;
        nothing else changes. */
    method YearTable(year: string)
      requires Valid()
      modifies this
      ensures Valid() && year in wgs
      ensures years == AddKey(old(years), year)
      ensures wgs == old(wgs)[year := old(CatsOf(wgs, year))]
      ensures entries == old(entries) && Repr == old(Repr)
      ensures forall y, w :: SeriesAt(y, w) == old(SeriesAt(y, w))
    {
      if year !in wgs {
        years := years + [year];
        wgs := wgs[year := []];
      } else {
        assert wgs[year := wgs[year]] == wgs;
      }
    }

    /** The second half of `getData`: the container of the pair is looked
        up in the table of `year` and created empty, under a new newest
        key of that table, when there is none yet. */
    method Container(year: string, wg: string) returns (trace: Trace)
      requires Valid() && year in wgs
      modifies this
      ensures Valid() && fresh(Repr - old(Repr))
      ensures (year, wg) in entries && trace == entries[(year, wg)]
      ensures Keeps(old(entries))
      ensures entries.Keys == old(entries.Keys) + {(year, wg)}
      ensures years == old(years)
      ensures wgs == old(wgs)[year := AddKey(old(wgs[year]), wg)]
      ensures forall y, w :: SeriesAt(y, w) == old(SeriesAt(y, w))
    {
      var key := (year, wg);
      if key in entries {
        trace := entries[key];
        assert wgs[year := wgs[year]] == wgs;
      } else {
        trace := new Trace(year, wg);
        wgs := wgs[year := wgs[year] + [wg]];
        entries := entries[key := trace];
        Repr := Repr + {trace};
      }
    }

    /** The body of the row loop for one row: `getData` for its pair, then
        the five pushes. The keys are created as `getData` creates them,
        the pair's container gets the row appended and every other
        container keeps its contents. */
    method Record(datum: Row)
      requires Valid()
      modifies this, Repr
      ensures Valid() && fresh(Repr - old(Repr))
      ensures entries.Keys == old(entries.Keys) + {(datum.year, datum.wg)}
      ensures years == AddKey(old(years), datum.year)
      ensures wgs == old(wgs)[datum.year := AddKey(old(CatsOf(wgs, datum.year)), datum.wg)]
      ensures SeriesAt(datum.year, datum.wg) == Append(old(SeriesAt(datum.year, datum.wg)), datum)
      ensures forall y, w :: (y != datum.year || w != datum.wg) ==> SeriesAt(y, w) == old(SeriesAt(y, w))
    {
      var trace := GetData(datum.year, datum.wg);
      trace.Push(datum);
    }

    /** The per-frame map over the baseline working groups, which the
        script keeps in a list named after affiliations: the containers of
        `year` for the given working groups, in their order, creating an
        empty one for each pair without one. Exactly the missing pairs are
        added; the year key is created when it is new and there is a
        working group, and the working groups are assigned, in order, to
        that year's keys. No container's contents change. */
    method MapGetData(year: string, groups: seq<string>) returns (data: seq<Trace>)
      requires Valid()
      modifies this
      ensures Valid() && fresh(Repr - old(Repr))
      ensures |data| == |groups|
      ensures forall j :: 0 <= j < |groups| ==> (year, groups[j]) in entries && data[j] == entries[(year, groups[j])]
      ensures Keeps(old(entries))
      ensures entries.Keys == old(entries.Keys) + Pairs(year, groups)
      ensures years == MapYears(old(years), year, groups)
      ensures wgs == MapCats(old(wgs), year, groups)
      ensures forall y, w :: SeriesAt(y, w) == old(SeriesAt(y, w))
    {
      data := [];
      for j := 0 to |groups|
        invariant Valid() && fresh(Repr - old(Repr))
        invariant |data| == j
        invariant forall l :: 0 <= l < j ==> (year, groups[l]) in entries && data[l] == entries[(year, groups[l])]
        invariant Keeps(old(entries))
        invariant entries.Keys == old(entries.Keys) + Pairs(year, groups[..j])
        invariant years == MapYears(old(years), year, groups[..j])
        invariant wgs == MapCats(old(wgs), year, groups[..j])
        invariant forall y, w :: SeriesAt(y, w) == old(SeriesAt(y, w))
      {
        data := MapNext(year, groups, j, data);
        PairsStep(old(entries.Keys), year, groups, j);
        MapYearsStep(old(years), year, groups, j);
        MapCatsStep(old(wgs), year, groups, j);
      }
      assert groups[..|groups|] == groups;
    }

    /** One step of the per-frame map, for `groups[j]`: `getData` for the
        pair, whose container is appended to `data`. */
    method MapNext(year: string, groups: seq<string>, j: nat, data: seq<Trace>) returns (data': seq<Trace>)
      requires Valid() && j < |groups| && |data| == j
      requires forall l :: 0 <= l < j ==> (year, groups[l]) in entries && data[l] == entries[(year, groups[l])]
      modifies this
      ensures Valid() && fresh(Repr - old(Repr))
      ensures |data'| == j + 1
      ensures forall l :: 0 <= l <= j ==> (year, groups[l]) in entries && data'[l] == entries[(year, groups[l])]
      ensures Keeps(old(entries))
      ensures entries.Keys == old(entries.Keys) + {(year, groups[j])}
      ensures years == AddKey(old(years), year)
      ensures wgs == old(wgs)[year := AddKey(old(CatsOf(wgs, year)), groups[j])]
      ensures forall y, w :: SeriesAt(y, w) == old(SeriesAt(y, w))
    {
      var trace := GetData(year, groups[j]);
      data' := data + [trace];
      forall l | 0 <= l < j
        ensures (year, groups[l]) in entries && data'[l] == entries[(year, groups[l])]
      {
        assert (year, groups[l]) in old(entries) && data'[l] == data[l];
      }
      assert data'[j] == trace;
    }
  }

  /** Appending one more row to the rows of a pair appends its fields to the series. */
  lemma SeriesOfSnoc(m: seq<Row>, r: Row)
    ensures SeriesOf(m + [r]) == Append(SeriesOf(m), r)
  {
    assert (m + [r])[..|m|] == m;
  }

  /** Appending row `i` appends it to the series of its own pair and
      leaves the series of every other pair as it was. */
  lemma PairSnoc(rows: seq<Row>, i: nat, y: string, w: string)
    requires i < |rows|
    ensures var datum := rows[i];
      SeriesOf(Matching(rows[..i + 1], ByWg, y, w)) ==
      if y == datum.year && w == datum.wg
      then Append(SeriesOf(Matching(rows[..i], ByWg, y, w)), datum)
      else SeriesOf(Matching(rows[..i], ByWg, y, w))
  {
    var m := Matching(rows[..i], ByWg, y, w);
    GroupingsSnoc(rows, i);
    if y == rows[i].year && w == rows[i].wg {
      SeriesOfSnoc(m, rows[i]);
    } else {
      assert m + [] == m;
    }
  }

  /** The row loop: every row's fields are pushed onto the container of its
      (year, working group) pair. Afterwards every pair of the rows has a
      container, every pair's contents are exactly the rows of that pair in
      input order (nothing for a pair without rows), and both levels of
      keys were created in first-occurrence order. */
  method GroupRows(rows: seq<Row>) returns (lookup: Lookup)
    ensures fresh(lookup) && fresh(lookup.Repr) && lookup.Valid()
    ensures lookup.Holds(rows)
    ensures Covered(rows, ByWg, lookup.entries.Keys)
    ensures KeyOrder(rows, ByWg, lookup.years, lookup.wgs)
  {
    lookup := new Lookup();
    for i := 0 to |rows|
      invariant fresh(lookup) && fresh(lookup.Repr) && lookup.Valid()
      invariant lookup.Holds(rows[..i])
      invariant Covered(rows[..i], ByWg, lookup.entries.Keys)
      invariant KeyOrder(rows[..i], ByWg, lookup.years, lookup.wgs)
    {
      GroupRow(lookup, rows, i);
    }
    assert rows[..|rows|] == rows;
  }

  /** One pass of the row loop, for row `i`. */
  method GroupRow(lookup: Lookup, rows: seq<Row>, i: nat)
    requires i < |rows| && lookup.Valid()
    requires lookup.Holds(rows[..i])
    requires Covered(rows[..i], ByWg, lookup.entries.Keys)
    requires KeyOrder(rows[..i], ByWg, lookup.years, lookup.wgs)
    modifies lookup, lookup.Repr
    ensures lookup.Valid() && fresh(lookup.Repr - old(lookup.Repr))
    ensures lookup.Holds(rows[..i + 1])
    ensures Covered(rows[..i + 1], ByWg, lookup.entries.Keys)
    ensures KeyOrder(rows[..i + 1], ByWg, lookup.years, lookup.wgs)
  {
    var datum := rows[i];
    CoveredSnoc(rows, i, ByWg, lookup.entries.Keys);
    KeyOrderSnoc(rows, i, ByWg, lookup.years, lookup.wgs);
    lookup.Record(datum);
    forall y, w
      ensures lookup.SeriesAt(y, w) == SeriesOf(Matching(rows[..i + 1], ByWg, y, w))
    {
      PairSnoc(rows, i, y, w);
    }
  }

  /** The baseline-trace loop: one trace per working group of the first
      year, named after it, drawn as markers, holding `slice()` copies of
      the arrays of that working group's container. */
  method BaselineTraces(lookup: Lookup, firstYear: string, groups: seq<string>) returns (traces: seq<BaselineTrace>)
    requires forall w :: w in groups ==> (firstYear, w) in lookup.entries
    ensures |traces| == |groups|
    ensures forall j :: 0 <= j < |groups| ==>
      && traces[j].name == groups[j] && traces[j].mode == "markers"
      && traces[j].Data() == lookup.SeriesAt(firstYear, groups[j])
  {
    traces := [];
    for j := 0 to |groups|
      invariant |traces| == j
      invariant forall l :: 0 <= l < j ==>
        && traces[l].name == groups[l] && traces[l].mode == "markers"
        && traces[l].Data() == lookup.SeriesAt(firstYear, groups[l])
    {
      var data := lookup.entries[(firstYear, groups[j])];
      traces := traces + [BaselineTrace(groups[j], data.x, data.y, data.id, data.text, "markers", data.markerSize)];
    }
  }

  /** The frame loop: one frame per year, named after it, whose data are
      the containers of that year for the working groups of the baseline
      traces, in their order; pairs without rows get a new empty container. */
  method Frames(lookup: Lookup, years: seq<string>, groups: seq<string>) returns (frames: seq<Frame<Trace>>)
    requires lookup.Valid()
    modifies lookup
    ensures lookup.Valid() && fresh(lookup.Repr - old(lookup.Repr))
    ensures forall y, w :: lookup.SeriesAt(y, w) == old(lookup.SeriesAt(y, w))
    ensures lookup.Keeps(old(lookup.entries))
    ensures lookup.entries.Keys == old(lookup.entries.Keys) + Grid(years, groups)
    ensures lookup.years == FrameYears(old(lookup.years), years, groups)
    ensures lookup.wgs == FrameCats(old(lookup.wgs), years, groups)
    ensures |frames| == |years|
    ensures forall i :: 0 <= i < |years| ==> frames[i].name == years[i] && |frames[i].data| == |groups|
    ensures forall i, j :: 0 <= i < |years| && 0 <= j < |groups| ==>
      (years[i], groups[j]) in lookup.entries && frames[i].data[j] == lookup.entries[(years[i], groups[j])]
  {
    frames := [];
    for i := 0 to |years|
      invariant lookup.Valid() && fresh(lookup.Repr - old(lookup.Repr))
      invariant forall y, w :: lookup.SeriesAt(y, w) == old(lookup.SeriesAt(y, w))
      invariant lookup.Keeps(old(lookup.entries))
      invariant lookup.entries.Keys == old(lookup.entries.Keys) + Grid(years[..i], groups)
      invariant lookup.years == FrameYears(old(lookup.years), years[..i], groups)
      invariant lookup.wgs == FrameCats(old(lookup.wgs), years[..i], groups)
      invariant |frames| == i
      invariant forall l :: 0 <= l < i ==> frames[l].name == years[l] && |frames[l].data| == |groups|
      invariant forall l, j :: 0 <= l < i && 0 <= j < |groups| ==>
        (years[l], groups[j]) in lookup.entries && frames[l].data[j] == lookup.entries[(years[l], groups[j])]
    {
      ghost var e0 := lookup.entries;
      var data := lookup.MapGetData(years[i], groups);
      FramesExtend(e0, lookup.entries, frames, years, groups, i, data);
      GridStep(old(lookup.entries.Keys), years, groups, i);
      FrameYearsStep(old(lookup.years), years, groups, i);
      FrameCatsStep(old(lookup.wgs), years, groups, i);
      frames := frames + [Frame(years[i], data)];
    }
    assert years[..|years|] == years;
  }

  /** What the callback hands to `Plotly.newPlot`: the baseline traces,
      the frames and the slider steps. */
  datatype Chart = Chart(data: seq<BaselineTrace>, frames: seq<Frame<Trace>>, sliderSteps: seq<SliderStep>)

  /** The exception `Object.keys(undefined)` throws. */
  const KeysOfUndefined := "TypeError: Cannot convert undefined or null to object"

  /** The whole callback, from the parsed rows to the chart. Without rows
      there is no first year and the callback throws. Otherwise there is
      one baseline trace per working group of the first listed year,
      holding that pair's rows; one frame per year, holding for each of
      those working groups the rows of that year and working group (none
      when the pair has no rows); and one slider step per year, animating
      to the frame of that year. */
  method Plot(rows: seq<Row>) returns (outcome: Outcome<Chart>)
    ensures outcome.Threw? <==> rows == []
    ensures outcome.Threw? ==> outcome.error == KeysOfUndefined
    ensures outcome.Plotted? ==>
      var chart := outcome.chart;
      var years := YearKeys(rows);
      var groups := CategoryKeys(rows, ByWg);
      && |years| > 0
      && |chart.data| == |groups|
      && (forall j :: 0 <= j < |groups| ==>
           && chart.data[j].name == groups[j] && chart.data[j].mode == "markers"
           && chart.data[j].Data() == SeriesOf(Matching(rows, ByWg, years[0], groups[j])))
      && |chart.frames| == |years|
      && (forall i :: 0 <= i < |years| ==> chart.frames[i].name == years[i] && |chart.frames[i].data| == |groups|)
      && (forall i, j :: 0 <= i < |years| && 0 <= j < |groups| ==>
           chart.frames[i].data[j].Data() == SeriesOf(Matching(rows, ByWg, years[i], groups[j])))
      && |chart.sliderSteps| == |years|
      && (forall i :: 0 <= i < |years| ==> chart.sliderSteps[i] == StepTo(years[i], StepTransitionMs, StepFrameMs))
  {
    var lookup := GroupRows(rows);
    var years := ObjectKeys(lookup.years);
    GroupedKeys(rows, ByWg, lookup.years, lookup.wgs);
    if |years| == 0 {
      return Threw(KeysOfUndefined);
    }
    var groups := ObjectKeys(lookup.wgs[years[0]]);
    var chart := Animate(lookup, rows, years, groups);
    outcome := Plotted(chart);
  }

  /** Everything after the key listing: the baseline traces for the first
      year, the frames and the slider steps. Every container keeps its
      contents, so the chart shows the series of every pair. */
  method Animate(lookup: Lookup, ghost rows: seq<Row>, years: seq<string>, groups: seq<string>) returns (chart: Chart)
    requires lookup.Valid() && lookup.Holds(rows)
    requires |years| > 0 && forall w :: w in groups ==> (years[0], w) in lookup.entries
    modifies lookup
    ensures |chart.data| == |groups|
    ensures forall j :: 0 <= j < |groups| ==>
      && chart.data[j].name == groups[j] && chart.data[j].mode == "markers"
      && chart.data[j].Data() == SeriesOf(Matching(rows, ByWg, years[0], groups[j]))
    ensures |chart.frames| == |years|
    ensures forall i :: 0 <= i < |years| ==> chart.frames[i].name == years[i] && |chart.frames[i].data| == |groups|
    ensures forall i, j :: 0 <= i < |years| && 0 <= j < |groups| ==>
      chart.frames[i].data[j].Data() == SeriesOf(Matching(rows, ByWg, years[i], groups[j]))
    ensures |chart.sliderSteps| == |years|
    ensures forall i :: 0 <= i < |years| ==> chart.sliderSteps[i] == StepTo(years[i], StepTransitionMs, StepFrameMs)
  {
    var traces := BaselineTraces(lookup, years[0], groups);
    var frames := Frames(lookup, years, groups);
    forall i, j | 0 <= i < |years| && 0 <= j < |groups|
      ensures frames[i].data[j].Data() == SeriesOf(Matching(rows, ByWg, years[i], groups[j]))
    {
      assert frames[i].data[j].Data() == lookup.SeriesAt(years[i], groups[j]);
    }
    var steps := SliderSteps(years, StepTransitionMs, StepFrameMs);
    chart := Chart(traces, frames, steps);
  }
}
