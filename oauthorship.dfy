/** The authorship overview chart (assets/js/plotly-OAuthorship.js): the
    rows of one working group's authorship CSV are grouped by year and
    affiliation into trace containers; the first year's containers are
    copied into the baseline traces; every year becomes an animation frame
    holding one container per baseline affiliation; every year becomes a
    slider step. */
module OAuthorship {
  import opened Seqs
  import opened JsObject
  import opened Rows
  import opened Animation

  /** Transition and frame durations of a slider step, in milliseconds. */
  const StepTransitionMs: nat := 100
  const StepFrameMs: nat := 300

  /** The contents of a trace container's six parallel arrays. */
  datatype Series = Series(
    x: seq<string>,
    y: seq<string>,
    id: seq<string>,
    text: seq<string>,
    markerSize: seq<string>,
    markerColor: seq<string>)

  const EmptySeries := Series([], [], [], [], [], [])

  /** What the row loop appends to a container for one row. */
  function Append(s: Series, r: Row, hexcolor: string): Series {
    Series(
      s.x + [r.affiliation],
      s.y + [r.wg],
      s.id + [r.affiliation],
      s.text + [r.nbContributions],
      s.markerSize + [r.nbContributions],
      s.markerColor + [hexcolor])
  }

  /** The contents of a container after the row loop appended `rows` to an
      empty one, `colorOf` standing for `getColorCode`. */
  function SeriesOf(rows: seq<Row>, colorOf: string -> string): Series {
    if rows == [] then EmptySeries
    else
      var last := rows[|rows| - 1];
      Append(SeriesOf(rows[..|rows| - 1], colorOf), last, colorOf(last.affiliation))
  }

  /** The six arrays stay parallel: each holds one element per row, and
      element k of each comes from row k. */
  lemma {:induction false} SeriesOfElements(rows: seq<Row>, colorOf: string -> string)
    ensures var s := SeriesOf(rows, colorOf);
      && |s.x| == |rows| && |s.y| == |rows| && |s.id| == |rows|
      && |s.text| == |rows| && |s.markerSize| == |rows| && |s.markerColor| == |rows|
      && forall k :: 0 <= k < |rows| ==>
        && s.x[k] == rows[k].affiliation && s.y[k] == rows[k].wg
        && s.id[k] == rows[k].affiliation && s.text[k] == rows[k].nbContributions
        && s.markerSize[k] == rows[k].nbContributions && s.markerColor[k] == colorOf(rows[k].affiliation)
  {
    if rows != [] {
      SeriesOfElements(rows[..|rows| - 1], colorOf);
    }
  }

  /** After the row loop, the entry of (`year`, `affiliation`) has one
      element per row of that pair, element k coming from the k-th such row
      in input order; the entry is empty exactly when no row has that pair. */
  lemma EntryContents(rows: seq<Row>, colorOf: string -> string, year: string, affiliation: string)
    ensures var m := Matching(rows, ByAffiliation, year, affiliation);
      var s := SeriesOf(m, colorOf);
      && |s.x| == |set i | 0 <= i < |rows| && InGroup(rows[i], ByAffiliation, year, affiliation)|
      && |s.y| == |s.x| && |s.id| == |s.x| && |s.text| == |s.x| && |s.markerSize| == |s.x| && |s.markerColor| == |s.x|
      && var ix := FilterIndices(rows, GroupTest(ByAffiliation, year, affiliation));
      && |ix| == |s.x|
      && (forall k :: 0 <= k < |ix| ==>
            && ix[k] < |rows|
            && var r := rows[ix[k]];
               && s.x[k] == r.affiliation && s.y[k] == r.wg && s.id[k] == r.affiliation
               && s.text[k] == r.nbContributions && s.markerSize[k] == r.nbContributions
               && s.markerColor[k] == colorOf(r.affiliation))
      && (s == EmptySeries <==> forall r :: r in rows ==> !InGroup(r, ByAffiliation, year, affiliation))
  {
    var m := Matching(rows, ByAffiliation, year, affiliation);
    MatchingCount(rows, ByAffiliation, year, affiliation);
    MatchingEmpty(rows, ByAffiliation, year, affiliation);
    FilterOrder(rows, GroupTest(ByAffiliation, year, affiliation));
    SeriesOfElements(m, colorOf);
  }

  /** A trace container of `lookup`, `{x, y, id, text, marker: {size,
      color}}`, with the marker's two arrays flattened into it. Each array
      is a field the pushes reassign. `year` and `affiliation` record, for
      the proof only, which entry of `lookup` the container was created for. */
  class Trace {
    ghost const year: string
    ghost const affiliation: string
    var x: seq<string>
    var y: seq<string>
    var id: seq<string>
    var text: seq<string>
    var markerSize: seq<string>
    var markerColor: seq<string>

    function Data(): Series
      reads this
    {
      Series(x, y, id, text, markerSize, markerColor)
    }

    /** The empty container `getData` creates. */
    constructor (ghost year: string, ghost affiliation: string)
      ensures this.year == year && this.affiliation == affiliation
      ensures Data() == EmptySeries
    {
      this.year := year;
      this.affiliation := affiliation;
      x, y, id, text, markerSize, markerColor := [], [], [], [], [], [];
    }

    /** The six pushes of the row loop for one row. */
    method Push(datum: Row, hexcolor: string)
      modifies this
      ensures Data() == Append(old(Data()), datum, hexcolor)
    {
      text := text + [datum.nbContributions];
      id := id + [datum.affiliation];
      x := x + [datum.affiliation];
      y := y + [datum.wg];
      markerSize := markerSize + [datum.nbContributions];
      markerColor := markerColor + [hexcolor];
    }
  }

  /** The baseline trace for one affiliation: `{name, x, y, id, text, mode,
      marker: {size, color}}`. Its arrays are `slice()` copies, values that
      later pushes to the container cannot reach. */
  datatype BaselineTrace = BaselineTrace(
    name: string,
    x: seq<string>,
    y: seq<string>,
    id: seq<string>,
    text: seq<string>,
    mode: string,
    markerSize: seq<string>,
    markerColor: seq<string>)
  {
    function Data(): Series {
      Series(x, y, id, text, markerSize, markerColor)
    }
  }

  /** The `lookup` table. `lookup[year][affiliation]` is `entries[(year,
      affiliation)]`; `years` lists the keys of `lookup`, and
      `affiliations[year]` the keys of `lookup[year]`, in creation order. */
  class Lookup {
    var years: seq<string>
    var affiliations: map<string, seq<string>>
    var entries: map<(string, string), Trace>
    /** The containers. */
    ghost var Repr: set<object>

    ghost predicate Valid()
      reads this
    {
      && (forall y :: y in years <==> y in affiliations)
      && (forall y, a :: (y, a) in entries <==> y in affiliations && a in affiliations[y])
      && (forall y, a :: (y, a) in entries ==>
           && entries[(y, a)].year == y && entries[(y, a)].affiliation == a
           && entries[(y, a)] in Repr)
    }

    /** The contents of the container of pair `k`, empty when there is none. */
    ghost function SeriesAt(year: string, affiliation: string): Series
      reads this, entries.Values
    {
      if (year, affiliation) in entries then entries[(year, affiliation)].Data() else EmptySeries
    }

    /** Every entry of `e0` is still an entry, with the same container. */
    ghost predicate Keeps(e0: map<(string, string), Trace>)
      reads this
    {
      forall y, a :: (y, a) in e0 ==> (y, a) in entries && entries[(y, a)] == e0[(y, a)]
    }

    /** Every pair, with or without a container, holds what the row loop
        appended for the rows of that pair. */
    ghost predicate Holds(rows: seq<Row>, colorOf: string -> string)
      reads this, entries.Values
    {
      forall y, a :: SeriesAt(y, a) == SeriesOf(Matching(rows, ByAffiliation, y, a), colorOf)
    }

    /** The empty table the script starts from: no year key, no
        affiliation key and no container. */
    constructor ()
      ensures Valid() && years == [] && affiliations == map[] && entries == map[] && Repr == {}
    {
      years, affiliations, entries := [], map[], map[];
      Repr := {};
    }

    /** `getData(year, affiliation)`: the container of the pair, created
        empty when there is none yet. An existing container is returned
        and every container keeps its contents; the pair's keys are created
        as a JavaScript object creates them. */
    method GetData(year: string, affiliation: string) returns (trace: Trace)
      requires Valid()
      modifies this
      ensures Valid() && fresh(Repr - old(Repr))
      ensures (year, affiliation) in entries && trace == entries[(year, affiliation)]
      ensures Keeps(old(entries))
      ensures entries.Keys == old(entries.Keys) + {(year, affiliation)}
      ensures years == AddKey(old(years), year)
      ensures affiliations == old(affiliations)[year := AddKey(old(CatsOf(affiliations, year)), affiliation)]
      ensures forall y, a :: SeriesAt(y, a) == old(SeriesAt(y, a))
    {
      YearTable(year);
      trace := Container(year, affiliation);
    }

    /** The first half of `getData`: the table of `year` is created, empty,
        when there is none yet, and its key is then the newest year key;
        nothing else changes. */
    method YearTable(year: string)
      requires Valid()
      modifies this
      ensures Valid() && year in affiliations
      ensures years == AddKey(old(years), year)
      ensures affiliations == old(affiliations)[year := old(CatsOf(affiliations, year))]
      ensures entries == old(entries) && Repr == old(Repr)
      ensures forall y, a :: SeriesAt(y, a) == old(SeriesAt(y, a))
    {
      if year !in affiliations {
        years := years + [year];
        affiliations := affiliations[year := []];
      } else {
        assert affiliations[year := affiliations[year]] == affiliations;
      }
    }

    /** The second half of `getData`: the container of the pair is looked
        up in the table of `year` and created empty, under a new newest
        key of that table, when there is none yet. */
    method Container(year: string, affiliation: string) returns (trace: Trace)
      requires Valid() && year in affiliations
      modifies this
      ensures Valid() && fresh(Repr - old(Repr))
      ensures (year, affiliation) in entries && trace == entries[(year, affiliation)]
      ensures Keeps(old(entries))
      ensures entries.Keys == old(entries.Keys) + {(year, affiliation)}
      ensures years == old(years)
      ensures affiliations == old(affiliations)[year := AddKey(old(affiliations[year]), affiliation)]
      ensures forall y, a :: SeriesAt(y, a) == old(SeriesAt(y, a))
    {
      var key := (year, affiliation);
      if key in entries {
        trace := entries[key];
        assert affiliations[year := affiliations[year]] == affiliations;
      } else {
        trace := new Trace(year, affiliation);
        affiliations := affiliations[year := affiliations[year] + [affiliation]];
        entries := entries[key := trace];
        Repr := Repr + {trace};
      }
    }

    /** The body of the row loop for one row: `getData` for its pair, then
        the six pushes. The keys are created as `getData` creates them, the
        pair's container gets the row appended and every other container
        keeps its contents. */
    method Record(datum: Row, hexcolor: string)
      requires Valid()
      modifies this, Repr
      ensures Valid() && fresh(Repr - old(Repr))
      ensures entries.Keys == old(entries.Keys) + {(datum.year, datum.affiliation)}
      ensures years == AddKey(old(years), datum.year)
      ensures affiliations == old(affiliations)[datum.year := AddKey(old(CatsOf(affiliations, datum.year)), datum.affiliation)]
      ensures SeriesAt(datum.year, datum.affiliation) ==
        Append(old(SeriesAt(datum.year, datum.affiliation)), datum, hexcolor)
      ensures forall y, a :: (y != datum.year || a != datum.affiliation) ==> SeriesAt(y, a) == old(SeriesAt(y, a))
    {
      var trace := GetData(datum.year, datum.affiliation);
      trace.Push(datum, hexcolor);
    }

    /** The per-frame map over the baseline affiliations: the containers
        of `year` for the given affiliations, in their order, creating an
        empty one for each pair without one. Exactly the missing pairs are
        added; the year key is created when it is new and there is an
        affiliation, and the affiliations are assigned, in order, to that
        year's keys. No container's contents change. */
    method MapGetData(year: string, affs: seq<string>) returns (data: seq<Trace>)
      requires Valid()
      modifies this
      ensures Valid() && fresh(Repr - old(Repr))
      ensures |data| == |affs|
      ensures forall j :: 0 <= j < |affs| ==> (year, affs[j]) in entries && data[j] == entries[(year, affs[j])]
      ensures Keeps(old(entries))
      ensures entries.Keys == old(entries.Keys) + Pairs(year, affs)
      ensures years == MapYears(old(years), year, affs)
      ensures affiliations == MapCats(old(affiliations), year, affs)
      ensures forall y, a :: SeriesAt(y, a) == old(SeriesAt(y, a))
    {
      data := [];
      for j := 0 to |affs|
        invariant Valid() && fresh(Repr - old(Repr))
        invariant |data| == j
        invariant forall l :: 0 <= l < j ==> (year, affs[l]) in entries && data[l] == entries[(year, affs[l])]
        invariant Keeps(old(entries))
        invariant entries.Keys == old(entries.Keys) + Pairs(year, affs[..j])
        invariant years == MapYears(old(years), year, affs[..j])
        invariant affiliations == MapCats(old(affiliations), year, affs[..j])
        invariant forall y, a :: SeriesAt(y, a) == old(SeriesAt(y, a))
      {
        data := MapNext(year, affs, j, data);
        PairsStep(old(entries.Keys), year, affs, j);
        MapYearsStep(old(years), year, affs, j);
        MapCatsStep(old(affiliations), year, affs, j);
      }
      assert affs[..|affs|] == affs;
    }

    /** One step of the per-frame map, for `affs[j]`: `getData` for the
        pair, whose container is appended to `data`. */
    method MapNext(year: string, affs: seq<string>, j: nat, data: seq<Trace>) returns (data': seq<Trace>)
      requires Valid() && j < |affs| && |data| == j
      requires forall l :: 0 <= l < j ==> (year, affs[l]) in entries && data[l] == entries[(year, affs[l])]
      modifies this
      ensures Valid() && fresh(Repr - old(Repr))
      ensures |data'| == j + 1
      ensures forall l :: 0 <= l <= j ==> (year, affs[l]) in entries && data'[l] == entries[(year, affs[l])]
      ensures Keeps(old(entries))
      ensures entries.Keys == old(entries.Keys) + {(year, affs[j])}
      ensures years == AddKey(old(years), year)
      ensures affiliations == old(affiliations)[year := AddKey(old(CatsOf(affiliations, year)), affs[j])]
      ensures forall y, a :: SeriesAt(y, a) == old(SeriesAt(y, a))
    {
      var trace := GetData(year, affs[j]);
      data' := data + [trace];
      forall l | 0 <= l < j
        ensures (year, affs[l]) in entries && data'[l] == entries[(year, affs[l])]
      {
        assert (year, affs[l]) in old(entries) && data'[l] == data[l];
      }
      assert data'[j] == trace;
    }
  }

  /** Appending one more row to the rows of a pair appends its fields to the series. */
  lemma SeriesOfSnoc(m: seq<Row>, r: Row, colorOf: string -> string)
    ensures SeriesOf(m + [r], colorOf) == Append(SeriesOf(m, colorOf), r, colorOf(r.affiliation))
  {
    assert (m + [r])[..|m|] == m;
  }

  /** Appending row `i` appends it to the series of its own pair and
      leaves the series of every other pair as it was. */
  lemma PairSnoc(rows: seq<Row>, i: nat, y: string, a: string, colorOf: string -> string)
    requires i < |rows|
    ensures var datum := rows[i];
      SeriesOf(Matching(rows[..i + 1], ByAffiliation, y, a), colorOf) ==
      if y == datum.year && a == datum.affiliation
      then Append(SeriesOf(Matching(rows[..i], ByAffiliation, y, a), colorOf), datum, colorOf(datum.affiliation))
      else SeriesOf(Matching(rows[..i], ByAffiliation, y, a), colorOf)
  {
    var m := Matching(rows[..i], ByAffiliation, y, a);
    GroupingsSnoc(rows, i);
    if y == rows[i].year && a == rows[i].affiliation {
      SeriesOfSnoc(m, rows[i], colorOf);
    } else {
      assert m + [] == m;
    }
  }

  /** The row loop: every row's fields are pushed onto the container of its
      (year, affiliation) pair. Afterwards every pair of the rows has a
      container, every pair's contents are exactly the rows of that pair in
      input order (nothing for a pair without rows), and both levels of
      keys were created in first-occurrence order. */
  method GroupRows(rows: seq<Row>, colorOf: string -> string) returns (lookup: Lookup)
    ensures fresh(lookup) && fresh(lookup.Repr) && lookup.Valid()
    ensures lookup.Holds(rows, colorOf)
    ensures Covered(rows, ByAffiliation, lookup.entries.Keys)
    ensures KeyOrder(rows, ByAffiliation, lookup.years, lookup.affiliations)
  {
    lookup := new Lookup();
    for i := 0 to |rows|
      invariant fresh(lookup) && fresh(lookup.Repr) && lookup.Valid()
      invariant lookup.Holds(rows[..i], colorOf)
      invariant Covered(rows[..i], ByAffiliation, lookup.entries.Keys)
      invariant KeyOrder(rows[..i], ByAffiliation, lookup.years, lookup.affiliations)
    {
      GroupRow(lookup, rows, i, colorOf);
    }
    assert rows[..|rows|] == rows;
  }

  /** One pass of the row loop, for row `i`. */
  method GroupRow(lookup: Lookup, rows: seq<Row>, i: nat, colorOf: string -> string)
    requires i < |rows| && lookup.Valid()
    requires lookup.Holds(rows[..i], colorOf)
    requires Covered(rows[..i], ByAffiliation, lookup.entries.Keys)
    requires KeyOrder(rows[..i], ByAffiliation, lookup.years, lookup.affiliations)
    modifies lookup, lookup.Repr
    ensures lookup.Valid() && fresh(lookup.Repr - old(lookup.Repr))
    ensures lookup.Holds(rows[..i + 1], colorOf)
    ensures Covered(rows[..i + 1], ByAffiliation, lookup.entries.Keys)
    ensures KeyOrder(rows[..i + 1], ByAffiliation, lookup.years, lookup.affiliations)
  {
    var datum := rows[i];
    CoveredSnoc(rows, i, ByAffiliation, lookup.entries.Keys);
    KeyOrderSnoc(rows, i, ByAffiliation, lookup.years, lookup.affiliations);
    lookup.Record(datum, colorOf(datum.affiliation));
    forall y, a
      ensures lookup.SeriesAt(y, a) == SeriesOf(Matching(rows[..i + 1], ByAffiliation, y, a), colorOf)
    {
      PairSnoc(rows, i, y, a, colorOf);
    }
  }

  /** The baseline-trace loop: one trace per affiliation of the first year,
      named after it, drawn as markers, holding `slice()` copies of the
      arrays of that affiliation's container. */
  method BaselineTraces(lookup: Lookup, firstYear: string, affs: seq<string>) returns (traces: seq<BaselineTrace>)
    requires forall a :: a in affs ==> (firstYear, a) in lookup.entries
    ensures |traces| == |affs|
    ensures forall j :: 0 <= j < |affs| ==>
      && traces[j].name == affs[j] && traces[j].mode == "markers"
      && traces[j].Data() == lookup.SeriesAt(firstYear, affs[j])
  {
    traces := [];
    for j := 0 to |affs|
      invariant |traces| == j
      invariant forall l :: 0 <= l < j ==>
        && traces[l].name == affs[l] && traces[l].mode == "markers"
        && traces[l].Data() == lookup.SeriesAt(firstYear, affs[l])
    {
      var data := lookup.entries[(firstYear, affs[j])];
      traces := traces + [BaselineTrace(affs[j], data.x, data.y, data.id, data.text, "markers", data.markerSize, data.markerColor)];
    }
  }

  /** The frame loop: one frame per year, named after it, whose data are
      the containers of that year for the affiliations of the baseline
      traces, in their order; pairs without rows get a new empty container. */
  method Frames(lookup: Lookup, years: seq<string>, affs: seq<string>) returns (frames: seq<Frame<Trace>>)
    requires lookup.Valid()
    modifies lookup
    ensures lookup.Valid() && fresh(lookup.Repr - old(lookup.Repr))
    ensures forall y, a :: lookup.SeriesAt(y, a) == old(lookup.SeriesAt(y, a))
    ensures lookup.Keeps(old(lookup.entries))
    ensures lookup.entries.Keys == old(lookup.entries.Keys) + Grid(years, affs)
    ensures lookup.years == FrameYears(old(lookup.years), years, affs)
    ensures lookup.affiliations == FrameCats(old(lookup.affiliations), years, affs)
    ensures |frames| == |years|
    ensures forall i :: 0 <= i < |years| ==> frames[i].name == years[i] && |frames[i].data| == |affs|
    ensures forall i, j :: 0 <= i < |years| && 0 <= j < |affs| ==>
      (years[i], affs[j]) in lookup.entries && frames[i].data[j] == lookup.entries[(years[i], affs[j])]
  {
    frames := [];
    for i := 0 to |years|
      invariant lookup.Valid() && fresh(lookup.Repr - old(lookup.Repr))
      invariant forall y, a :: lookup.SeriesAt(y, a) == old(lookup.SeriesAt(y, a))
      invariant lookup.Keeps(old(lookup.entries))
      invariant lookup.entries.Keys == old(lookup.entries.Keys) + Grid(years[..i], affs)
      invariant lookup.years == FrameYears(old(lookup.years), years[..i], affs)
      invariant lookup.affiliations == FrameCats(old(lookup.affiliations), years[..i], affs)
      invariant |frames| == i
      invariant forall l :: 0 <= l < i ==> frames[l].name == years[l] && |frames[l].data| == |affs|
      invariant forall l, j :: 0 <= l < i && 0 <= j < |affs| ==>
        (years[l], affs[j]) in lookup.entries && frames[l].data[j] == lookup.entries[(years[l], affs[j])]
    {
      ghost var e0 := lookup.entries;
      var data := lookup.MapGetData(years[i], affs);
      FramesExtend(e0, lookup.entries, frames, years, affs, i, data);
      GridStep(old(lookup.entries.Keys), years, affs, i);
      FrameYearsStep(old(lookup.years), years, affs, i);
      FrameCatsStep(old(lookup.affiliations), years, affs, i);
      frames := frames + [Frame(years[i], data)];
    }
    assert years[..|years|] == years;
  }

  /** What the callback hands to `Plotly.newPlot`: the baseline traces,
      the frames and the slider steps. */
  datatype Chart = Chart(data: seq<BaselineTrace>, frames: seq<Frame<Trace>>, sliderSteps: seq<SliderStep>)

  /** The exception `Object.keys(undefined)` throws. */
  const KeysOfUndefined := "TypeError: Cannot convert undefined or null to object"

  /** The whole callback, from the parsed rows to the chart. Without rows
      there is no first year and the callback throws. Otherwise there is
      one baseline trace per affiliation of the first listed year, holding
      that pair's rows; one frame per year, holding for each of those
      affiliations the rows of that year and affiliation (none when the
      pair has no rows); and one slider step per year, animating to the
      frame of that year. */
  method Plot(rows: seq<Row>, colorOf: string -> string) returns (outcome: Outcome<Chart>)
    ensures outcome.Threw? <==> rows == []
    ensures outcome.Threw? ==> outcome.error == KeysOfUndefined
    ensures outcome.Plotted? ==>
      var chart := outcome.chart;
      var years := YearKeys(rows);
      var affs := CategoryKeys(rows, ByAffiliation);
      && |years| > 0
      && |chart.data| == |affs|
      && (forall j :: 0 <= j < |affs| ==>
           && chart.data[j].name == affs[j] && chart.data[j].mode == "markers"
           && chart.data[j].Data() == SeriesOf(Matching(rows, ByAffiliation, years[0], affs[j]), colorOf))
      && |chart.frames| == |years|
      && (forall i :: 0 <= i < |years| ==> chart.frames[i].name == years[i] && |chart.frames[i].data| == |affs|)
      && (forall i, j :: 0 <= i < |years| && 0 <= j < |affs| ==>
           chart.frames[i].data[j].Data() == SeriesOf(Matching(rows, ByAffiliation, years[i], affs[j]), colorOf))
      && |chart.sliderSteps| == |years|
      && (forall i :: 0 <= i < |years| ==> chart.sliderSteps[i] == StepTo(years[i], StepTransitionMs, StepFrameMs))
  {
    var lookup := GroupRows(rows, colorOf);
    var years := ObjectKeys(lookup.years);
    GroupedKeys(rows, ByAffiliation, lookup.years, lookup.affiliations);
    if |years| == 0 {
      return Threw(KeysOfUndefined);
    }
    var affs := ObjectKeys(lookup.affiliations[years[0]]);
    var chart := Animate(lookup, rows, colorOf, years, affs);
    outcome := Plotted(chart);
  }

  /** Everything after the key listing: the baseline traces for the first
      year, the frames and the slider steps. Every container keeps its
      contents, so the chart shows the series of every pair. */
  method Animate(lookup: Lookup, ghost rows: seq<Row>, ghost colorOf: string -> string, years: seq<string>, affs: seq<string>)
    returns (chart: Chart)
    requires lookup.Valid() && lookup.Holds(rows, colorOf)
    requires |years| > 0 && forall a :: a in affs ==> (years[0], a) in lookup.entries
    modifies lookup
    ensures |chart.data| == |affs|
    ensures forall j :: 0 <= j < |affs| ==>
      && chart.data[j].name == affs[j] && chart.data[j].mode == "markers"
      && chart.data[j].Data() == SeriesOf(Matching(rows, ByAffiliation, years[0], affs[j]), colorOf)
    ensures |chart.frames| == |years|
    ensures forall i :: 0 <= i < |years| ==> chart.frames[i].name == years[i] && |chart.frames[i].data| == |affs|
    ensures forall i, j :: 0 <= i < |years| && 0 <= j < |affs| ==>
      chart.frames[i].data[j].Data() == SeriesOf(Matching(rows, ByAffiliation, years[i], affs[j]), colorOf)
    ensures |chart.sliderSteps| == |years|
    ensures forall i :: 0 <= i < |years| ==> chart.sliderSteps[i] == StepTo(years[i], StepTransitionMs, StepFrameMs)
  {
    var traces := BaselineTraces(lookup, years[0], affs);
    var frames := Frames(lookup, years, affs);
    forall i, j | 0 <= i < |years| && 0 <= j < |affs|
      ensures frames[i].data[j].Data() == SeriesOf(Matching(rows, ByAffiliation, years[i], affs[j]), colorOf)
    {
      assert frames[i].data[j].Data() == lookup.SeriesAt(years[i], affs[j]);
    }
    var steps := SliderSteps(years, StepTransitionMs, StepFrameMs);
    chart := Chart(traces, frames, steps);
  }
}
