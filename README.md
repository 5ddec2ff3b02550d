# Almanac charts: row reshaping for the animated and leadership charts

This project models the data reshaping done by three plotting scripts of the
almanac site:

- **Authorship chart** (`assets/js/plotly-OAuthorship.js`). The rows of an
  authorship CSV are grouped into a two-level lookup table, year, then
  affiliation, then a trace container of parallel arrays. The lazy helper
  `getData` fills the table. Baseline traces are `slice()` copies of the first
  year's containers. There is one animation frame per year, holding that
  year's container for every baseline affiliation, and one slider step per
  year.
- **Findings chart** (`assets/js/plotly-findings.js`). The same pipeline is
  keyed by year and working group, and it has marker sizes but no colours.
- **Leadership chart** (`assets/js/plotly-leadership.js`). Every chairing
  period becomes a two-point line trace. Periods whose start and end strings
  are equal are dropped.

Modules:

- `Seqs`: an order-preserving filter, first-occurrence key order and
  distinctness.
- `JsObject`: the order of `Object.keys`, as in section 10.1.11.1 of ECMA-262
  (OrdinaryOwnPropertyKeys). Array-index keys come first, in ascending
  numeric order, then every other key in creation order.
- `Rows`: the CSV row, and the groupings of rows by year and by a second
  column.
- `Animation`: frames, slider steps, and the outcome of the CSV callback.
- `OAuthorship`, `Findings` and `Leadership`: one module per script.

How the animated scripts are modelled:

- The lookup table is a class. Its fields are the container map and the
  order in which the year keys and the inner keys were created.
- A trace container is a class whose array fields the row loop extends.
- The frames refer to the table's own containers, so they alias it. The
  baseline traces are value copies.
- Every result is stated against specification functions of the input
  rows:
  - `SeriesOf(Matching(rows, …))`: the rows of a (year, category) pair, in
    input order;
  - `YearKeys`: the year keys as `Object.keys` lists them;
  - `CategoryKeys`: the first year's category keys.
- The helper `getColorCode` is not shown. It is modelled as a parameter
  `colorOf`, a deterministic function from an affiliation to a colour.

## Model

| member | source | states |
|---|---|---|
| OAuthorship.Lookup.GetData | assets/js/plotly-OAuthorship.js:25-46 | returns the container of (year, affiliation); an existing container is returned as it is, otherwise exactly one empty container is added; the year key and the affiliation key are each created only if new; no container's contents change |
| OAuthorship.Lookup.YearTable | assets/js/plotly-OAuthorship.js:28-30 | creates the year's inner table only when the year has none, appending the year to the key order; containers untouched |
| OAuthorship.Lookup.Container | assets/js/plotly-OAuthorship.js:33-45 | returns the existing container of the pair, or creates one empty container under it and appends the affiliation to the year's key order; every other entry is kept |
| OAuthorship.Trace.constructor | assets/js/plotly-OAuthorship.js:34-43 | a new container has all six arrays empty |
| OAuthorship.Trace.Push | assets/js/plotly-OAuthorship.js:53-58 | the six pushes append nb_contributions to text and marker.size, the affiliation to id and x, the wg to y and the colour to marker.color |
| OAuthorship.Lookup.Record | assets/js/plotly-OAuthorship.js:50-58 | one pass of the row loop: the row's pair gets the row appended, every other pair keeps its contents, keys are created as getData creates them |
| OAuthorship.GroupRows | assets/js/plotly-OAuthorship.js:49-59 | after the row loop every (year, affiliation) pair holds exactly its rows in input order (nothing for a pair without rows), every pair of the rows has a container, and both levels of keys are in first-occurrence order |
| OAuthorship.GroupRow | assets/js/plotly-OAuthorship.js:50-58 | one pass of the row loop preserves the loop invariant, extended by row i |
| OAuthorship.PairSnoc | assets/js/plotly-OAuthorship.js:52-58 | appending row i changes the series of its own pair only, and by appending that row |
| OAuthorship.EntryContents | assets/js/plotly-OAuthorship.js:49-59 | the six arrays of an entry have equal length, equal to the number of rows of the pair; element k comes from the k-th such row (text and size = nb_contributions, id and x = affiliation, y = wg, colour = colour of the affiliation); the entry is empty exactly when no row has the pair |
| OAuthorship.SeriesOfElements | assets/js/plotly-OAuthorship.js:53-58 | the arrays built from a list of rows are parallel and element k of each comes from row k |
| OAuthorship.Lookup.constructor | assets/js/plotly-OAuthorship.js:24 | the new table is consistent and has no year key, no affiliation key and no container |
| OAuthorship.Lookup.MapGetData | assets/js/plotly-OAuthorship.js:103-105 | one container per given affiliation, in the given order, each the table's own container for (year, affiliation); existing entries kept, no contents change; the pairs of the year with the given affiliations are added to the entries and nothing else; the year keys and inner keys become MapYears and MapCats of the old ones (see Rows.MapYearsSpec and Rows.MapCatsOwn) |
| OAuthorship.Lookup.MapNext | assets/js/plotly-OAuthorship.js:103-105 | one call of the map callback: getData for the pair, whose container is appended to the containers so far |
| OAuthorship.BaselineTraces | assets/js/plotly-OAuthorship.js:72-92 | one trace per affiliation, in order, named after it, mode "markers", holding copies of the arrays of its first-year container |
| OAuthorship.Frames | assets/js/plotly-OAuthorship.js:99-107 | one frame per year, named after it, holding exactly one container per affiliation, the table's container for that pair (created empty when missing); no container's contents change; the entries gain exactly the pairs of the years with the affiliations; the year keys and inner keys become FrameYears and FrameCats of the old ones (see Rows.FrameYearsSpec, Rows.FrameCatsDomain and Rows.FrameCatsKeys) |
| OAuthorship.Animate | assets/js/plotly-OAuthorship.js:72-125 | the baseline traces, frames and slider steps hold, pair by pair, the rows of that pair; building the frames does not change what the baseline traces hold |
| OAuthorship.Plot | assets/js/plotly-OAuthorship.js:49-125 | the callback throws exactly when there are no rows (Object.keys of undefined); otherwise one baseline trace per first-year affiliation key with that pair's rows, one frame per year key holding for every such affiliation the rows of that pair (empty when none), one slider step per year key with transition 100 and frame 300 |
| Findings.Lookup.GetData | assets/js/plotly-findings.js:12-29 | returns the container of (year, wg); an existing one is returned unchanged, otherwise exactly one empty container is added; keys created only if new; no container's contents change |
| Findings.Lookup.YearTable | assets/js/plotly-findings.js:14-16 | creates the year's inner table only when the year has none; containers untouched |
| Findings.Lookup.Container | assets/js/plotly-findings.js:19-28 | returns the existing container of the pair or creates one empty container; every other entry is kept |
| Findings.Trace.constructor | assets/js/plotly-findings.js:20-26 | a new container has all five arrays empty |
| Findings.Trace.Push | assets/js/plotly-findings.js:35-39 | the five pushes append the wg to text and id, the affiliation to x and nb_contributions to y and marker.size |
| Findings.Lookup.Record | assets/js/plotly-findings.js:33-39 | one pass of the row loop: the row's (year, wg) pair gets the row appended, every other pair keeps its contents |
| Findings.GroupRows | assets/js/plotly-findings.js:32-40 | after the row loop every (year, wg) pair holds exactly its rows in input order, every pair of the rows has a container, and keys are in first-occurrence order |
| Findings.GroupRow | assets/js/plotly-findings.js:33-39 | one pass of the row loop preserves the loop invariant, extended by row i |
| Findings.PairSnoc | assets/js/plotly-findings.js:34-39 | appending row i changes the series of its own pair only, and by appending that row |
| Findings.EntryContents | assets/js/plotly-findings.js:32-40 | the five arrays of an entry have equal length, equal to the number of rows of the pair; element k comes from the k-th such row (text and id = wg, x = affiliation, y and size = nb_contributions); empty exactly when no row has the pair |
| Findings.SeriesOfElements | assets/js/plotly-findings.js:35-39 | the arrays built from a list of rows are parallel and element k of each comes from row k |
| Findings.Lookup.constructor | assets/js/plotly-findings.js:11 | the new table is consistent and has no year key, no working-group key and no container |
| Findings.Lookup.MapGetData | assets/js/plotly-findings.js:80-82 | one container per given working group, in order, each the table's own container for the pair; no contents change; the pairs of the year with the given working groups are added to the entries and nothing else; the year keys and inner keys become MapYears and MapCats of the old ones |
| Findings.Lookup.MapNext | assets/js/plotly-findings.js:80-82 | one call of the map callback: getData for the pair, whose container is appended to the containers so far |
| Findings.BaselineTraces | assets/js/plotly-findings.js:51-70 | one trace per working group, in order, named after it, mode "markers", holding copies of its first-year container's arrays |
| Findings.Frames | assets/js/plotly-findings.js:76-84 | one frame per year, named after it, with exactly one container per working group, the table's container for that pair (created empty when missing); the entries gain exactly the pairs of the years with the working groups; the year keys and inner keys become FrameYears and FrameCats of the old ones |
| Findings.Animate | assets/js/plotly-findings.js:51-101 | baseline traces, frames and slider steps hold, pair by pair, the rows of that pair |
| Findings.Plot | assets/js/plotly-findings.js:32-101 | throws exactly when there are no rows; otherwise one baseline trace per first-year working-group key, one frame per year key with every such working group's rows of that year, one slider step per year key with transition 300 and frame 300 |
| Animation.SliderSteps | assets/js/plotly-OAuthorship.js:114-125 | one step per year, in order, labelled with the year and animating immediately to the frame of that name, without redraw |
| Rows.GroupedKeys | assets/js/plotly-OAuthorship.js:62-67 | the keys read off the grouped table are YearKeys and CategoryKeys of the rows; there is no first year exactly when there are no rows; every first-year category key has an inner-table entry |
| Rows.KeyOrderSnoc | assets/js/plotly-OAuthorship.js:28-34 | grouping one more row creates its year key and then its category key, each only when new, keeping both levels in first-occurrence order |
| Rows.CoveredSnoc | assets/js/plotly-OAuthorship.js:52 | grouping one more row gives its pair a container |
| Rows.PairsMembers | assets/js/plotly-OAuthorship.js:103-105 | the pairs one per-frame map reaches are exactly the year with each given category |
| Rows.GridMembers | assets/js/plotly-OAuthorship.js:99-107 | the pairs the frame loop reaches are exactly each listed year with each given category |
| Rows.MapYearsSpec | assets/js/plotly-OAuthorship.js:28-30 | a per-frame map creates the year key when it is new and there is a category, and no other year key |
| Rows.MapCatsDomain | assets/js/plotly-OAuthorship.js:28-30 | a per-frame map creates the year's inner table when it is new and there is a category, and no other inner table |
| Rows.MapCatsOwn | assets/js/plotly-OAuthorship.js:33-44 | a per-frame map assigns the given categories, in order, to the keys of the year's inner table |
| Rows.MapCatsOthers | assets/js/plotly-OAuthorship.js:103-105 | a per-frame map leaves the keys of every other year's table as they were |
| Rows.FrameYearsSpec | assets/js/plotly-OAuthorship.js:99-107 | after the frame loop, the listed years have been assigned, in order, to the year keys (when there is a category) |
| Rows.FrameCatsDomain | assets/js/plotly-OAuthorship.js:99-107 | the frame loop adds an inner table for exactly the listed years (when there is a category) |
| Rows.FrameCatsKeys | assets/js/plotly-OAuthorship.js:99-107 | after the frame loop each listed year has had the categories assigned, in order, to its keys; every other year keeps its keys |
| Rows.FramesKeepYears | assets/js/plotly-OAuthorship.js:99-107 | a frame loop over years that are all keys already creates no year key |
| Rows.FramesKeepListedYears | assets/js/plotly-OAuthorship.js:62-107 | the frame loop over `Object.keys(lookup)`, the sorted year list the scripts loop over, creates no year key |
| Rows.YearKeysCount | assets/js/plotly-OAuthorship.js:62 | there are as many year keys (frames, slider steps) as distinct years; none exactly when there are no rows |
| Rows.YearKeysMembers | assets/js/plotly-OAuthorship.js:62 | the year keys are the rows' years, each once |
| Rows.YearKeysOrder | assets/js/plotly-OAuthorship.js:62 | numeric year keys come first and strictly ascend |
| Rows.CategoryKeysSpec | assets/js/plotly-OAuthorship.js:66-67 | the category keys are exactly the categories of the first listed year, each once, and non-empty when there is a row |
| Rows.MatchingCount | assets/js/plotly-OAuthorship.js:49-59 | the rows of a pair are as many as the row positions with that pair |
| Rows.MatchingEmpty | assets/js/plotly-OAuthorship.js:33-44 | a pair has no rows exactly when no row has both its year and its category |
| Rows.GroupingsSnoc | assets/js/plotly-OAuthorship.js:49-52 | one more row extends the years, each year's categories and each pair's rows by at most that row |
| Rows.YearSet | assets/js/plotly-OAuthorship.js:62 | the distinct years in first-occurrence order are exactly the set of years of the rows |
| Rows.YearsSpec | assets/js/plotly-OAuthorship.js:50-52 | the year column has one entry per row, in row order |
| Rows.YearsMembers | assets/js/plotly-OAuthorship.js:50-52 | a year is in the year column exactly when some row has it |
| Rows.CategoriesInSpec | assets/js/plotly-OAuthorship.js:50-52 | a category is listed for a year exactly when some row has that year and category |
| Rows.CategoriesInAbsent | assets/js/plotly-OAuthorship.js:28-30 | a year no row has has no categories |
| JsObject.ObjectKeysPermutation | assets/js/plotly-OAuthorship.js:62 | Object.keys lists every key once: same keys, same count, distinct when the keys are |
| JsObject.ObjectKeysOrder | assets/js/plotly-OAuthorship.js:62 | array-index keys come before every other key and strictly ascend; other keys keep their creation order |
| JsObject.ObjectKeysInsertionOrder | assets/js/plotly-OAuthorship.js:67 | keys that are not array indices (affiliation and working-group names) are listed in creation order |
| JsObject.SortByIndex | assets/js/plotly-OAuthorship.js:62 | the array-index keys are rearranged into ascending numeric order |
| JsObject.InsertByIndex | assets/js/plotly-OAuthorship.js:62 | inserting one index key adds exactly that key |
| JsObject.InsertByIndexAscending | assets/js/plotly-OAuthorship.js:62 | insertion keeps the index keys ascending |
| JsObject.AscendingPairwise | assets/js/plotly-OAuthorship.js:62 | an ascending run is ordered between any two positions |
| JsObject.CanonicalInjective | assets/js/plotly-OAuthorship.js:62 | two canonical numerals of equal value are the same key |
| Seqs.FirstOccurrencesSpec | assets/js/plotly-OAuthorship.js:28-34 | the created keys are the distinct assigned keys, in order of first assignment |
| Seqs.FirstOccurrencesSnoc | assets/js/plotly-OAuthorship.js:28-34 | one more assignment creates its key at the end only if it is new |
| Seqs.AddKey | assets/js/plotly-OAuthorship.js:29 | assigning a key keeps the existing keys, adds that key and nothing else, and keeps keys distinct |
| Seqs.AddKeys | assets/js/plotly-OAuthorship.js:33-44 | assigning a run of keys keeps the existing keys, adds the run's keys and nothing else |
| Seqs.AddKeysPresent | assets/js/plotly-OAuthorship.js:33-44 | assigning only existing keys creates none |
| Seqs.AddKeysIdempotent | assets/js/plotly-OAuthorship.js:99-107 | repeating the same run of assignments creates no further key |
| Seqs.FilterOrder | assets/js/plotly-leadership.js:18-40 | the filter keeps exactly the passing elements, in their order |
| Seqs.FilterCount | assets/js/plotly-OAuthorship.js:49-59 | the filter keeps one element per passing position |
| Leadership.BuildTraces | assets/js/plotly-leadership.js:15-40 | the row loop yields exactly the traces of the kept rows in row order |
| Leadership.LineTracesOrder | assets/js/plotly-leadership.js:18-40 | a row yields a trace exactly when its start and end differ; trace k is that of the k-th kept row, so traces follow row order and there are at most as many traces as rows |
| Leadership.LineTracesShape | assets/js/plotly-leadership.js:26-38 | every trace is a scatter line of width 25 in the colour of its affiliation, named after it, with two different x values and y = [affiliation, affiliation] |
| Leadership.LineTracesExtremes | assets/js/plotly-leadership.js:26 | every row is drawn when every row's start and end are different strings; none is drawn when every row's start and end are the same string |

## Left out

- Fetching the CSV with `d3.csv`, and throwing its loading error. This is network I/O. The model starts from the parsed rows.
- `Plotly.newPlot`, the `layout` objects and the plotting configuration. These are rendering calls and presentation constants.
- `console.log`, and the global `WG` that forms the file paths.
- `getColorCode` and the other helpers. They live in helper modules that are not part of this model. `colorOf` stands for `getColorCode`; in the leadership loop it is called for every row, kept or not.
- `assets/js/init.js` and `assets/js/viz.js`: DOM, URL and page handling.
- Keys that name members of `Object.prototype` (`constructor`, `__proto__`, …). `getData` tests entries for truthiness, so such a year or category would find an inherited value instead of creating an entry. The model treats every key as absent until it is assigned.
- `marker` is a nested object in the scripts. The model flattens its arrays into the container and the baseline trace.
- `lookup[year][category]` is modelled as one map keyed by the pair. The creation order of each level's keys is kept alongside it.
- JavaScript arrays are modelled as sequence fields that a push reassigns. Within the scripts no array is shared between two containers, and `slice()` makes a copy, so values keep every sharing the scripts rely on.
- The reuse of the name `data` for a first-year container in the baseline loops. `var data` there re-declares the callback's own parameter `data`, so each assignment overwrites the CSV rows; this happens only after the row loop has read them, so nothing changes.
- Datetimes are compared as the strings the CSV reader yields. Two spellings of the same moment count as different, as they do in the script.
