/** The rows the scripts read from their CSV files, and the groupings of
    rows by year and by a second column that the animated charts are built
    from. */
module Rows {
  import opened Seqs
  import opened JsObject

  /** One CSV record. The CSV reader yields every field as a string. */
  datatype Row = Row(
    year: string,
    affiliation: string,
    wg: string,
    nbContributions: string,
    datetimeMin: string,
    datetimeMax: string,
    name: string)

  /** The column a chart groups by after the year: the authorship chart
      groups by affiliation, the findings chart by working group. */
  datatype Dimension = ByAffiliation | ByWg

  function Category(r: Row, d: Dimension): string {
    match d
    case ByAffiliation => r.affiliation
    case ByWg => r.wg
  }

  /** The `year` column, in row order. */
  function Years(rows: seq<Row>): seq<string> {
    if rows == [] then [] else Years(rows[..|rows| - 1]) + [rows[|rows| - 1].year]
  }

  /** The categories of the rows of year `y`, in row order. */
  function CategoriesIn(rows: seq<Row>, d: Dimension, y: string): seq<string> {
    if rows == [] then []
    else
      var last := rows[|rows| - 1];
      CategoriesIn(rows[..|rows| - 1], d, y) + (if last.year == y then [Category(last, d)] else [])
  }

  predicate InGroup(r: Row, d: Dimension, y: string, c: string) {
    r.year == y && Category(r, d) == c
  }

  /** Membership in the pair (`y`, `c`), as a test on rows. */
  function GroupTest(d: Dimension, y: string, c: string): Row -> bool {
    r => InGroup(r, d, y, c)
  }

  /** The rows of the pair (`y`, `c`), in row order. */
  function Matching(rows: seq<Row>, d: Dimension, y: string, c: string): seq<Row> {
    Filter(rows, GroupTest(d, y, c))
  }

  /** The year keys as `Object.keys` lists them once every row is grouped. */
  function YearKeys(rows: seq<Row>): seq<string> {
    ObjectKeys(FirstOccurrences(Years(rows)))
  }

  /** The categories of the first listed year, as `Object.keys` lists them:
      the categories of every baseline trace and of every frame. */
  function CategoryKeys(rows: seq<Row>, d: Dimension): seq<string> {
    if YearKeys(rows) == [] then []
    else ObjectKeys(FirstOccurrences(CategoriesIn(rows, d, YearKeys(rows)[0])))
  }

  /** Adding one row extends each grouping by at most that row. */
  lemma GroupingsSnoc(rows: seq<Row>, i: nat)
    requires i < |rows|
    ensures Years(rows[..i + 1]) == Years(rows[..i]) + [rows[i].year]
    ensures forall d, y ::
      CategoriesIn(rows[..i + 1], d, y) ==
      CategoriesIn(rows[..i], d, y) + (if rows[i].year == y then [Category(rows[i], d)] else [])
    ensures forall d, y, c ::
      Matching(rows[..i + 1], d, y, c) ==
      Matching(rows[..i], d, y, c) + (if InGroup(rows[i], d, y, c) then [rows[i]] else [])
  {
    assert rows[..i + 1][..i] == rows[..i];
  }

  lemma {:induction false} YearsSpec(rows: seq<Row>)
    ensures |Years(rows)| == |rows|
    ensures forall k :: 0 <= k < |rows| ==> Years(rows)[k] == rows[k].year
  {
    if rows != [] {
      YearsSpec(rows[..|rows| - 1]);
    }
  }

  lemma {:induction false} CategoriesInSpec(rows: seq<Row>, d: Dimension, y: string)
    ensures forall c :: c in CategoriesIn(rows, d, y) <==> exists r :: r in rows && InGroup(r, d, y, c)
  {
    if rows != [] {
      var init, last := rows[..|rows| - 1], rows[|rows| - 1];
      CategoriesInSpec(init, d, y);
      assert rows == init + [last];
      forall c
        ensures c in CategoriesIn(rows, d, y) <==> exists r :: r in rows && InGroup(r, d, y, c)
      {
        if c in CategoriesIn(init, d, y) {
          var r :| r in init && InGroup(r, d, y, c);
          assert r in rows;
        }
        if InGroup(last, d, y, c) {
          assert last in rows;
        }
        if r :| r in rows && InGroup(r, d, y, c) {
          if r != last {
            assert r in init;
          }
        }
      }
    }
  }

  lemma {:induction false} YearsMembers(rows: seq<Row>)
    ensures forall y :: y in Years(rows) <==> exists r :: r in rows && r.year == y
  {
    if rows != [] {
      var init, last := rows[..|rows| - 1], rows[|rows| - 1];
      YearsMembers(init);
      assert rows == init + [last];
      forall y
        ensures y in Years(rows) <==> exists r :: r in rows && r.year == y
      {
        if y in Years(init) {
          var r :| r in init && r.year == y;
          assert r in rows;
        }
        if r :| r in rows && r.year == y {
          if r != last {
            assert r in init;
          }
        }
      }
    }
  }

  /** The entry of a pair holds one element per row of that pair. */
  lemma MatchingCount(rows: seq<Row>, d: Dimension, y: string, c: string)
    ensures |Matching(rows, d, y, c)| == |set i | 0 <= i < |rows| && InGroup(rows[i], d, y, c)|
  {
    var p := GroupTest(d, y, c);
    FilterCount(rows, p);
    var a := Passing(rows, p);
    var b := set i | 0 <= i < |rows| && InGroup(rows[i], d, y, c);
    forall i
      ensures i in a <==> i in b
    {
    }
    assert a == b;
  }

  /** A pair has no rows exactly when no row has both its year and its category. */
  lemma MatchingEmpty(rows: seq<Row>, d: Dimension, y: string, c: string)
    ensures Matching(rows, d, y, c) == [] <==> forall r :: r in rows ==> !InGroup(r, d, y, c)
  {
    var p := GroupTest(d, y, c);
    if forall r :: r in rows ==> !InGroup(r, d, y, c) {
      FilterNone(rows, p);
    } else {
      var r :| r in rows && InGroup(r, d, y, c);
      FilterOrder(rows, p);
      var i :| 0 <= i < |rows| && rows[i] == r;
      assert p(rows[i]);
      assert i in FilterIndices(rows, p);
    }
  }

  /** The distinct years among the rows, as a set. */
  lemma YearSet(rows: seq<Row>)
    ensures (set y | y in FirstOccurrences(Years(rows))) == (set r | r in rows :: r.year)
  {
    FirstOccurrencesSpec(Years(rows));
    YearsMembers(rows);
  }

  /** The year keys are the years of the rows, each once. */
  lemma YearKeysMembers(rows: seq<Row>)
    ensures Distinct(YearKeys(rows))
    ensures forall y :: y in YearKeys(rows) <==> exists r :: r in rows && r.year == y
  {
    var first := FirstOccurrences(Years(rows));
    FirstOccurrencesSpec(Years(rows));
    YearsMembers(rows);
    ObjectKeysPermutation(first);
  }

  /** There are as many year keys, hence as many frames and slider steps,
      as distinct years among the rows; none when there is no row. */
  lemma YearKeysCount(rows: seq<Row>)
    ensures |YearKeys(rows)| == |set r | r in rows :: r.year|
    ensures YearKeys(rows) == [] <==> rows == []
  {
    var first := FirstOccurrences(Years(rows));
    FirstOccurrencesSpec(Years(rows));
    YearSet(rows);
    ObjectKeysPermutation(first);
    DistinctCardinality(first);
    YearKeysMembers(rows);
    if rows != [] {
      assert rows[0] in rows;
      assert rows[0].year in YearKeys(rows);
    }
  }

  /** Year keys that are array indices (all of them, for four-digit years)
      come before any other year key and strictly ascend. */
  lemma YearKeysOrder(rows: seq<Row>)
    ensures forall i, j :: 0 <= i < j < |YearKeys(rows)| && IsArrayIndex(YearKeys(rows)[j]) ==>
      IsArrayIndex(YearKeys(rows)[i]) && IndexValue(YearKeys(rows)[i]) < IndexValue(YearKeys(rows)[j])
  {
    FirstOccurrencesSpec(Years(rows));
    ObjectKeysOrder(FirstOccurrences(Years(rows)));
  }

  /** The category keys are exactly the categories that occur in the
      first listed year, each once; there is at least one when there is a row. */
  lemma CategoryKeysSpec(rows: seq<Row>, d: Dimension)
    ensures Distinct(CategoryKeys(rows, d))
    ensures rows != [] ==> forall c :: c in CategoryKeys(rows, d) <==>
      exists r :: r in rows && InGroup(r, d, YearKeys(rows)[0], c)
    ensures rows != [] <==> CategoryKeys(rows, d) != []
  {
    YearKeysCount(rows);
    if rows != [] {
      var y := YearKeys(rows)[0];
      var cats := CategoriesIn(rows, d, y);
      var keys := ObjectKeys(FirstOccurrences(cats));
      assert CategoryKeys(rows, d) == keys;
      FirstOccurrencesSpec(cats);
      ObjectKeysPermutation(FirstOccurrences(cats));
      CategoriesInSpec(rows, d, y);
      assert forall c :: c in keys <==> c in cats;
      YearKeysMembers(rows);
      assert y in YearKeys(rows);
      var r :| r in rows && r.year == y;
      assert InGroup(r, d, y, Category(r, d));
      assert Category(r, d) in keys;
    }
  }

  /** The keys of the inner table of year `y`, none when there is none. */
  function CatsOf(cats: map<string, seq<string>>, y: string): seq<string> {
    if y in cats then cats[y] else []
  }

  /** The keys of a two-level table filled from `rows` were created in
      first-occurrence order: `years` for the outer table, `cats[y]` for
      the inner table of year `y`, which exists exactly for listed years. */
  ghost predicate KeyOrder(rows: seq<Row>, d: Dimension, years: seq<string>, cats: map<string, seq<string>>) {
    && years == FirstOccurrences(Years(rows))
    && (forall y :: y in years <==> y in cats)
    && forall y :: y in cats ==> cats[y] == FirstOccurrences(CategoriesIn(rows, d, y))
  }

  /** Every pair that occurs in `rows` is among `keys`. */
  ghost predicate Covered(rows: seq<Row>, d: Dimension, keys: set<(string, string)>) {
    forall r :: r in rows ==> (r.year, Category(r, d)) in keys
  }

  /** A year no row has has no categories. */
  lemma {:induction false} CategoriesInAbsent(rows: seq<Row>, d: Dimension, y: string)
    requires y !in Years(rows)
    ensures CategoriesIn(rows, d, y) == []
  {
    if rows != [] {
      var init := rows[..|rows| - 1];
      assert Years(rows) == Years(init) + [rows[|rows| - 1].year];
      CategoriesInAbsent(init, d, y);
    }
  }

  /** Grouping row `i` creates its year key and then its category key,
      each only if it is new. */
  lemma KeyOrderSnoc(rows: seq<Row>, i: nat, d: Dimension, years: seq<string>, cats: map<string, seq<string>>)
    requires i < |rows| && KeyOrder(rows[..i], d, years, cats)
    ensures var y := rows[i].year;
      KeyOrder(rows[..i + 1], d, AddKey(years, y), cats[y := AddKey(CatsOf(cats, y), Category(rows[i], d))])
  {
    var y, c := rows[i].year, Category(rows[i], d);
    var years', cats' := AddKey(years, y), cats[y := AddKey(CatsOf(cats, y), c)];
    GroupingsSnoc(rows, i);
    FirstOccurrencesSnoc(Years(rows[..i]), y);
    assert years' == FirstOccurrences(Years(rows[..i + 1]));
    assert forall y' :: y' in years' <==> y' in cats';
    forall y' | y' in cats'
      ensures cats'[y'] == FirstOccurrences(CategoriesIn(rows[..i + 1], d, y'))
    {
      if y' == y {
        assert CategoriesIn(rows[..i + 1], d, y) == CategoriesIn(rows[..i], d, y) + [c];
        FirstOccurrencesSnoc(CategoriesIn(rows[..i], d, y), c);
        assert cats'[y] == AddKey(CatsOf(cats, y), c);
        if y in cats {
          assert CatsOf(cats, y) == FirstOccurrences(CategoriesIn(rows[..i], d, y));
        } else {
          FirstOccurrencesSpec(Years(rows[..i]));
          CategoriesInAbsent(rows[..i], d, y);
          assert FirstOccurrences(CategoriesIn(rows[..i], d, y)) == [];
          assert CatsOf(cats, y) == [];
        }
      } else {
        assert cats'[y'] == cats[y'];
        assert y' in cats;
        assert CategoriesIn(rows[..i + 1], d, y') == CategoriesIn(rows[..i], d, y');
      }
    }
  }

  /** Grouping row `i` adds its pair to the covered keys. */
  lemma CoveredSnoc(rows: seq<Row>, i: nat, d: Dimension, keys: set<(string, string)>)
    requires i < |rows| && Covered(rows[..i], d, keys)
    ensures Covered(rows[..i + 1], d, keys + {(rows[i].year, Category(rows[i], d))})
  {
    forall r | r in rows[..i + 1]
      ensures (r.year, Category(r, d)) in keys + {(rows[i].year, Category(rows[i], d))}
    {
      if r != rows[i] {
        assert r in rows[..i];
      }
    }
  }

  /** The year keys and the first year's category keys, as a script reads
      them off a lookup table grouped from `rows`; the first year's table
      has a key for each of its category keys. */
  lemma GroupedKeys(rows: seq<Row>, d: Dimension, years: seq<string>, cats: map<string, seq<string>>)
    requires KeyOrder(rows, d, years, cats)
    ensures ObjectKeys(years) == YearKeys(rows)
    ensures YearKeys(rows) == [] <==> rows == []
    ensures rows != [] ==>
      && YearKeys(rows)[0] in cats
      && ObjectKeys(cats[YearKeys(rows)[0]]) == CategoryKeys(rows, d)
      && forall c :: c in CategoryKeys(rows, d) ==> c in cats[YearKeys(rows)[0]]
  {
    YearKeysCount(rows);
    if rows != [] {
      var first := YearKeys(rows)[0];
      ObjectKeysPermutation(years);
      assert first in years;
      ObjectKeysPermutation(cats[first]);
    }
  }

  /** The pairs of `year` with each of `ks`. */
  function Pairs(year: string, ks: seq<string>): set<(string, string)> {
    if ks == [] then {} else Pairs(year, ks[..|ks| - 1]) + {(year, ks[|ks| - 1])}
  }

  /** The pairs of each of `yrs` with each of `ks`. */
  function Grid(yrs: seq<string>, ks: seq<string>): set<(string, string)> {
    if yrs == [] then {} else Grid(yrs[..|yrs| - 1], ks) + Pairs(yrs[|yrs| - 1], ks)
  }

  lemma {:induction false} PairsMembers(year: string, ks: seq<string>)
    ensures forall y, k :: (y, k) in Pairs(year, ks) <==> y == year && k in ks
  {
    if ks != [] {
      var init := ks[..|ks| - 1];
      PairsMembers(year, init);
      assert ks == init + [ks[|ks| - 1]];
    }
  }

  lemma {:induction false} GridMembers(yrs: seq<string>, ks: seq<string>)
    ensures forall y, k :: (y, k) in Grid(yrs, ks) <==> y in yrs && k in ks
  {
    if yrs != [] {
      var init := yrs[..|yrs| - 1];
      GridMembers(init, ks);
      PairsMembers(yrs[|yrs| - 1], ks);
      assert yrs == init + [yrs[|yrs| - 1]];
    }
  }

  /** The year keys after `getData(year, k)` for each `k` of `ks`, in order. */
  function MapYears(years: seq<string>, year: string, ks: seq<string>): seq<string> {
    if ks == [] then years else AddKey(MapYears(years, year, ks[..|ks| - 1]), year)
  }

  /** The inner keys after `getData(year, k)` for each `k` of `ks`, in order. */
  function MapCats(cats: map<string, seq<string>>, year: string, ks: seq<string>): map<string, seq<string>> {
    if ks == [] then cats
    else
      var c := MapCats(cats, year, ks[..|ks| - 1]);
      c[year := AddKey(CatsOf(c, year), ks[|ks| - 1])]
  }

  /** One more `getData(year, ks[j])` call adds its pair to the pairs of
      the calls for `ks[..j]`. */
  lemma PairsStep(keys0: set<(string, string)>, year: string, ks: seq<string>, j: nat)
    requires j < |ks|
    ensures keys0 + Pairs(year, ks[..j]) + {(year, ks[j])} == keys0 + Pairs(year, ks[..j + 1])
  {
    assert ks[..j + 1][..j] == ks[..j];
    assert Pairs(year, ks[..j + 1]) == Pairs(year, ks[..j]) + {(year, ks[j])};
  }

  /** One more `getData(year, ks[j])` call extends the year keys after the
      calls for `ks[..j]` to those after the calls for `ks[..j + 1]`. */
  lemma MapYearsStep(years0: seq<string>, year: string, ks: seq<string>, j: nat)
    requires j < |ks|
    ensures AddKey(MapYears(years0, year, ks[..j]), year) == MapYears(years0, year, ks[..j + 1])
  {
    assert ks[..j + 1][..j] == ks[..j];
  }

  /** One more `getData(year, ks[j])` call extends the inner keys after the
      calls for `ks[..j]` to those after the calls for `ks[..j + 1]`. */
  lemma MapCatsStep(cats0: map<string, seq<string>>, year: string, ks: seq<string>, j: nat)
    requires j < |ks|
    ensures var cats := MapCats(cats0, year, ks[..j]);
      cats[year := AddKey(CatsOf(cats, year), ks[j])] == MapCats(cats0, year, ks[..j + 1])
  {
    assert ks[..j + 1][..j] == ks[..j];
  }

  /** The year keys after the calls of `MapYears` for each year of `yrs`, in order. */
  function FrameYears(years: seq<string>, yrs: seq<string>, ks: seq<string>): seq<string> {
    if yrs == [] then years else MapYears(FrameYears(years, yrs[..|yrs| - 1], ks), yrs[|yrs| - 1], ks)
  }

  /** The inner keys after the calls of `MapCats` for each year of `yrs`, in order. */
  function FrameCats(cats: map<string, seq<string>>, yrs: seq<string>, ks: seq<string>): map<string, seq<string>> {
    if yrs == [] then cats else MapCats(FrameCats(cats, yrs[..|yrs| - 1], ks), yrs[|yrs| - 1], ks)
  }

  /** One more frame, for `yrs[i]`, adds its pairs to the pairs of the
      frames for `yrs[..i]`. */
  lemma GridStep(keys0: set<(string, string)>, yrs: seq<string>, ks: seq<string>, i: nat)
    requires i < |yrs|
    ensures keys0 + Grid(yrs[..i], ks) + Pairs(yrs[i], ks) == keys0 + Grid(yrs[..i + 1], ks)
  {
    assert yrs[..i + 1][..i] == yrs[..i];
    assert Grid(yrs[..i + 1], ks) == Grid(yrs[..i], ks) + Pairs(yrs[i], ks);
  }

  /** One more frame, for `yrs[i]`, extends the year keys after the frames
      for `yrs[..i]` to those after the frames for `yrs[..i + 1]`. */
  lemma FrameYearsStep(years0: seq<string>, yrs: seq<string>, ks: seq<string>, i: nat)
    requires i < |yrs|
    ensures MapYears(FrameYears(years0, yrs[..i], ks), yrs[i], ks) == FrameYears(years0, yrs[..i + 1], ks)
  {
    assert yrs[..i + 1][..i] == yrs[..i];
  }

  /** One more frame, for `yrs[i]`, extends the inner keys after the frames
      for `yrs[..i]` to those after the frames for `yrs[..i + 1]`. */
  lemma FrameCatsStep(cats0: map<string, seq<string>>, yrs: seq<string>, ks: seq<string>, i: nat)
    requires i < |yrs|
    ensures MapCats(FrameCats(cats0, yrs[..i], ks), yrs[i], ks) == FrameCats(cats0, yrs[..i + 1], ks)
  {
    assert yrs[..i + 1][..i] == yrs[..i];
  }

  /** Calling `getData(year, k)` for each `k` of a non-empty `ks` creates
      the year key when it is new; with no `k`, it creates none. */
  lemma {:induction false} MapYearsSpec(years: seq<string>, year: string, ks: seq<string>)
    ensures MapYears(years, year, ks) == if ks == [] then years else AddKey(years, year)
  {
    if ks != [] {
      var init := ks[..|ks| - 1];
      MapYearsSpec(years, year, init);
    }
  }

  /** Calling `getData(year, k)` for each `k` of `ks` creates the table of
      `year` when it is new and `ks` is not empty, and no other table. */
  lemma {:induction false} MapCatsDomain(cats: map<string, seq<string>>, year: string, ks: seq<string>)
    ensures forall y :: y in MapCats(cats, year, ks) <==> y in cats || (ks != [] && y == year)
  {
    if ks != [] {
      MapCatsDomain(cats, year, ks[..|ks| - 1]);
    }
  }

  /** Calling `getData(year, k)` for each `k` of `ks` assigns `ks`, in
      order, to the keys of `year`. */
  lemma {:induction false} MapCatsOwn(cats: map<string, seq<string>>, year: string, ks: seq<string>)
    ensures CatsOf(MapCats(cats, year, ks), year) == AddKeys(CatsOf(cats, year), ks)
  {
    if ks != [] {
      MapCatsOwn(cats, year, ks[..|ks| - 1]);
    }
  }

  /** Calling `getData(year, k)` for each `k` of `ks` leaves the keys of
      every other year as they were. */
  lemma {:induction false} MapCatsOthers(cats: map<string, seq<string>>, year: string, ks: seq<string>)
    ensures forall y :: y != year ==> CatsOf(MapCats(cats, year, ks), y) == CatsOf(cats, y)
  {
    if ks != [] {
      MapCatsOthers(cats, year, ks[..|ks| - 1]);
    }
  }

  /** After the frame calls, the year keys are `yrs` assigned in order to
      the year keys, when `ks` is not empty. */
  lemma {:induction false} FrameYearsSpec(years: seq<string>, yrs: seq<string>, ks: seq<string>)
    ensures FrameYears(years, yrs, ks) == if ks == [] then years else AddKeys(years, yrs)
  {
    if yrs != [] {
      var init := yrs[..|yrs| - 1];
      FrameYearsSpec(years, init, ks);
      MapYearsSpec(FrameYears(years, init, ks), yrs[|yrs| - 1], ks);
    }
  }

  /** The frame calls add exactly the years of `yrs` to the table, when
      `ks` is not empty. */
  lemma {:induction false} FrameCatsDomain(cats: map<string, seq<string>>, yrs: seq<string>, ks: seq<string>)
    ensures forall y :: y in FrameCats(cats, yrs, ks) <==> y in cats || (ks != [] && y in yrs)
  {
    if yrs != [] {
      var init := yrs[..|yrs| - 1];
      FrameCatsDomain(cats, init, ks);
      MapCatsDomain(FrameCats(cats, init, ks), yrs[|yrs| - 1], ks);
      assert yrs == init + [yrs[|yrs| - 1]];
    }
  }

  /** After the frame calls, each year of `yrs` has `ks` assigned in order
      to its keys, and every other year keeps its keys. */
  lemma {:induction false} FrameCatsKeys(cats: map<string, seq<string>>, yrs: seq<string>, ks: seq<string>)
    ensures forall y :: CatsOf(FrameCats(cats, yrs, ks), y) == if y in yrs then AddKeys(CatsOf(cats, y), ks) else CatsOf(cats, y)
  {
    if yrs != [] {
      var init, year := yrs[..|yrs| - 1], yrs[|yrs| - 1];
      FrameCatsKeys(cats, init, ks);
      var c := FrameCats(cats, init, ks);
      MapCatsOwn(c, year, ks);
      MapCatsOthers(c, year, ks);
      assert yrs == init + [year];
      if year in init {
        AddKeysIdempotent(CatsOf(cats, year), ks);
      }
    }
  }

  /** Frames for years that are all keys already create no year key. */
  lemma FramesKeepYears(years: seq<string>, yrs: seq<string>, ks: seq<string>)
    requires forall y :: y in yrs ==> y in years
    ensures FrameYears(years, yrs, ks) == years
  {
    FrameYearsSpec(years, yrs, ks);
    AddKeysPresent(years, yrs);
  }

  /** The frame loop over the year keys as `Object.keys` lists them, the
      loop the scripts run, creates no year key. */
  lemma FramesKeepListedYears(years: seq<string>, ks: seq<string>)
    ensures FrameYears(years, ObjectKeys(years), ks) == years
  {
    ObjectKeysPermutation(years);
    FramesKeepYears(years, ObjectKeys(years), ks);
  }
}
