# Weather app core, modelled in Dafny

A desktop weather app built on the Japan Meteorological Agency's JSON service.
Its first version (`task2/app.py`) shows a sidebar of offices grouped under
their regional centers and, for a selected office, one card per sub-area.
Its second version (`task3/app_opt.py`) adds a local SQLite store:

- the `areas` table is seeded once from the area taxonomy;
- every forecast fetch is cached in `forecasts` (insert-or-replace on the
  pair `area_code`, `forecast_date`);
- areas carry a favourite flag that the user toggles;
- the sidebar is either a search over `areas` grouped by center, or the
  favourites list.

This project models that logic as pure functions and small methods over
immutable values, and proves what the code promises about it.

- The store is a record of two maps keyed on the natural keys: `areas` by
  area code, `forecasts` by (area code, date). Exactly one row per forecast
  key therefore holds by construction.
- JSON objects are lists of (key, value) entries with distinct keys. This
  keeps the iteration order of Python dicts, which decides the sidebar order
  of the first version.
- Every place the source raises becomes an `Err`. When the raise happens
  before `conn.commit()`, the returned store is the old one, because the open
  transaction is discarded.
- HTTP responses are parameters. `None` stands for a request or decoding
  failure.
- `ORDER BY` leaves the order of rows with equal keys unspecified. The query
  method therefore picks keys nondeterministically. Its contract states
  sortedness and a permutation of the selected rows, not one particular order.
- String order is code-point order. This is the order SQLite's BINARY
  collation gives UTF-8 text.
- The `LIKE '%q%'` filter is plain substring containment.

Modules, one per file: `Results` (Option, Result, the failures), `Text`
(slicing, containment, string order), `Ordering` (sorted insertion),
`Payload` (JSON shapes), `Icons` (the icon rule both versions share),
`Store`, `Sync`, `Retrieval`, `Sidebar` (all `task3/app_opt.py`),
`TaxonomySidebar`, `AreaCards` (`task2/app.py`).

The model follows the code, including where its behaviour is easy to misread:

- Seeding is not wrapped in `try` in the code. A failed taxonomy fetch or a
  malformed office entry therefore aborts start-up. It does not give an
  empty sidebar.
- The search view orders by `is_favorite DESC, center_name ASC` only. It
  does not also order by name.
- `is_favorite` is an INTEGER. The toggle maps 0 to 1 and every other value
  to 0. The favourites view selects `is_favorite = 1` exactly.
- Caching a forecast does not give "one row per returned day" in general.
  Two time stamps with the same calendar date share a row, and the later
  one wins. Rows for other dates of the same area are kept.
- A forecast for an area with no `areas` row still commits its rows, then
  fails on the favourite read.

## Model

| member | source | states |
|---|---|---|
| Text.Prefix | task3/app_opt.py:76 | `s[:n]` keeps the whole string when shorter than n, else its first n characters; the result is always a prefix of `s` |
| Text.ContainsMeansOccurs | task3/app_opt.py:140 | the executable name filter accepts a name exactly when the query occurs in it at some position (both directions) |
| Payload.Lookup | task3/app_opt.py:33 | `dict.get`: absent exactly when no entry has the key, otherwise the value stored under it |
| Payload.FirstSeries | task2/app.py:26-27 | `res[0]["timeSeries"][0]` succeeds exactly when both lists are non-empty, and then yields the first series of the first report |
| Icons.IconCodesFor | task3/app_opt.py:107-109 | fails exactly on an empty code; the main code is the code's prefix of length min(3, len); the backup is its first character followed by "00" |
| Icons.IconUrlsFor | task2/app.py:39-46 | the main address is the base plus the first three characters plus ".png", the fallback the base plus first character plus "00.png"; fails exactly on an empty code |
| Icons.IconForThreeOneFour | task3/app_opt.py:107-109 | code "314" is looked up as 314.png with fallback 300.png, and a longer code "31415" gives the same pair |
| Icons.BackupIsCategory | task2/app.py:42-46 | two codes with the same first character share their fallback icon |
| Store.InsertArea | task3/app_opt.py:34-35 | an insert fails exactly when the code is already a key; otherwise it adds that code with favourite 0 and leaves every other row unchanged |
| Store.UpsertLastWriteWins | task3/app_opt.py:77-79 | insert-or-replace keeps one row for the key holding the new values and leaves all other rows as they were |
| Store.UpsertTwice | task3/app_opt.py:19-21 | two writes to the same (area, date) leave exactly the state of the second write alone |
| Store.UpsertAllLastWriteWins | task3/app_opt.py:75-79 | after a batch, the row of each (area, date) the batch mentions holds the batch's latest item for that date; no row is removed and all other rows are untouched |
| Store.ToggleFavorite | task3/app_opt.py:126-129 | the new status is 1 exactly when the shown status is 0; only that area's flag changes; an absent code leaves the store as it was; forecasts untouched |
| Store.ToggleTwiceRestores | task3/app_opt.py:127-129 | toggling twice, starting from the flag the store holds, restores the original store |
| Store.TogglePreservesBinary | task3/app_opt.py:127 | every favourite flag stays 0 or 1 across a toggle |
| Sync.CenterNameFor | task3/app_opt.py:33 | the parent center's name when the parent is a center with a name, "その他" otherwise |
| Sync.InsertOffices | task3/app_opt.py:32-35 | the insert loop succeeds exactly when every office has name and parent and all codes are new and distinct; it then adds one row per office, with the office's name, its center name and favourite 0, and keeps the old rows |
| Sync.SyncAreas | task3/app_opt.py:25-37 | a non-empty table is returned unchanged; an empty one succeeds exactly when the fetch succeeded and every office has name and parent, and then holds exactly one row per office code with the derived center name; forecasts untouched |
| Sync.SyncPreservesBinary | task3/app_opt.py:34-35 | seeding leaves every favourite flag 0 or 1 |
| Sync.SyncRunsOnce | task3/app_opt.py:28-29 | once a sync has stored at least one area, any later sync returns the store unchanged, whatever taxonomy it is given |
| Sync.SyncScenario | task3/app_opt.py:32-35 | center C1 "Region1" with office O1 "CityA" under it and office O2 under an unknown parent seed exactly O1 = (CityA, Region1, 0) and O2 = (TownB, その他, 0) |
| Retrieval.ColumnsOf | task3/app_opt.py:66-70 | the dates, weathers and codes are read from the first area of the first series of the first report; fails exactly when one of those lists is empty |
| Retrieval.GetWeather | task3/app_opt.py:58-89 | areas never change; a failed fetch, a missing list element or dates/codes shorter than the weathers leave the store unchanged with an error; otherwise forecasts are the batch upserted in order, and the favourite read succeeds exactly when the area has a row, returning one item per weather (date cut to 10 characters, text, code) and the stored flag |
| Retrieval.OrphanForecastRows | task3/app_opt.py:81-83 | a non-empty batch for an area without a row still leaves a forecast row whose area code is not an area |
| Retrieval.TwoDayScenario | task3/app_opt.py:74-80 | two days with time stamps 2024-01-01T…, 2024-01-02T… give exactly the rows (O1, 2024-01-01) = Sunny/100 and (O1, 2024-01-02) = Rainy/300 |
| Retrieval.CardsFor | task3/app_opt.py:106-109 | cards are built exactly when every code is non-empty; then one card per day, in order, with that day's date, text and icon addresses |
| Retrieval.SelectArea | task3/app_opt.py:58-89 | a failed fetch, a missing list element or short dates/codes leave the store unchanged; otherwise the fetched days are upserted, and the panel is shown exactly when the area has a row and every day's code is non-empty; a shown panel carries the stored flag, the given name and one card per fetched day; the store's areas never change |
| Retrieval.FavoriteClicked | task3/app_opt.py:126-131 | the redrawn panel keeps name and cards and shows the flipped flag; the store's row for that area changes in its flag alone, to the shown value; every other row and the forecasts are untouched; an absent code leaves the store as it was |
| Retrieval.TwoClicksRestore | task3/app_opt.py:126-130 | from a panel that agrees with the store, two clicks restore both store and panel |
| Sidebar.Select | task3/app_opt.py:140-153 | a query returns the selected stored rows as a permutation (multiset equality) sorted by the given order |
| Sidebar.SearchOrderIsPreorder | task3/app_opt.py:140 | `is_favorite DESC, center_name ASC` is total and transitive |
| Sidebar.NameOrderIsPreorder | task3/app_opt.py:153 | `area_name ASC` is total and transitive |
| Sidebar.SearchRows | task3/app_opt.py:140-141 | the search returns exactly the stored areas whose name contains the query, each once, favourites first and then by center name |
| Sidebar.FavoriteRows | task3/app_opt.py:153-154 | the favourites view returns exactly the stored areas with flag 1, each once, sorted by name |
| Sidebar.GroupByCenter | task3/app_opt.py:142-150 | grouping fails exactly when the first row's center is ""; otherwise the tiles concatenate back to the rows, each tile is non-empty with rows of its own center, and neighbouring tiles differ in center |
| Sidebar.EntryTitle | task3/app_opt.py:149-150 | an entry's title ends with the area name and carries a prefix exactly when the flag is non-zero |
| Sidebar.BuildSidebar | task3/app_opt.py:134-162 | navigation index 0 gives the grouped search view, and fails exactly when a hit with the highest favourite flag among the hits has an empty center; any other index gives the favourites sorted by name, or the placeholder exactly when no area has flag 1 |
| Sidebar.FirstRowBlank | task3/app_opt.py:140-147 | the first row of the search result has an empty center exactly when some hit with the highest flag among the hits has one, since "" sorts before every center |
| Sidebar.OneTilePerCenter | task3/app_opt.py:140-148 | when all rows share one favourite flag, no two tiles of the grouped view have the same center |
| TaxonomySidebar.ChildrenOf | task2/app.py:80-88 | succeeds exactly when every office has a parent and every child has a name; lists exactly the offices whose parent is the center, in the order of `offices` |
| TaxonomySidebar.Tiles | task2/app.py:79-97 | without a failure, one tile per center in the order of `centers`, titled with its name and holding its children; on a failure, the tiles of the readable centers before the first unreadable one, followed by the notice |
| TaxonomySidebar.SidebarFor | task2/app.py:73-97 | a failed fetch shows only the failure notice |
| TaxonomySidebar.ReadableGivesTilePerCenter | task2/app.py:79-95 | a readable taxonomy gives exactly one tile per center, including centers without children |
| TaxonomySidebar.EachOfficeListedOnce | task2/app.py:81-82 | an office appears in at most one tile and at most once in it |
| TaxonomySidebar.OrphanListedNowhere | task2/app.py:81-82 | an office whose parent is not a center key appears in no tile |
| AreaCards.CardsFor | task2/app.py:34-64 | cards are built exactly when every sub-area has a first weather and a non-empty first code; then one card per sub-area, in order, with its name, first text and icons |
| AreaCards.Display | task2/app.py:17-69 | the panel is either the headline followed by one card per sub-area, or, after any failure, nothing but the error line; which one is decided exactly by the readability of the response |
| AreaCards.CardIconScenario | task2/app.py:39-46 | a sub-area whose first code is "314" gets icon 314.png with fallback 300.png |

## Left out

- HTTP requests (`requests.get` in both files) are not modelled. Their parsed result is a parameter, and `None` stands for any request or decoding failure.
- SQLite connection handling, `commit`/`close` and `init_db`'s `CREATE TABLE IF NOT EXISTS` are not modelled. Neither is the AUTOINCREMENT `id` of `forecasts`. The store is two maps on the natural keys.
- SQL `LIKE` case folding and the `%`/`_` wildcards inside the user's query are not modelled; the filter is plain substring containment.
- Flet widgets are left out: page updates, the navigation and search event wiring, the progress bar, and the loading of the fallback image. Only the icon addresses and the panel and sidebar contents are modelled.
- The `strptime`/`strftime` display date (`task3/app_opt.py:110`) is not modelled. A card keeps the 10-character date. A malformed date, which would also land in the error branch, is not modelled.
- JSON values of the wrong type, and missing keys in the forecast document, are not modelled. Forecast keys are assumed present, so only empty lists raise. Taxonomy entries may lack `name` or `parent`.
- Weather codes are strings, so `str(code)` is the identity.
- The mutable UI `state` dict is not modelled. The navigation index and search text are parameters of `Sidebar.BuildSidebar`.
- The third version's error branch appends the error text to whatever the panel already holds. The model only reports the `Err`.
- The star icon's truthiness test in `show_forecast_ui` is not modelled.
- A click on the star of a panel whose card loop failed is not modelled.
- Retrieval.GetWeather: the forecast rows are stated through `Store.UpsertAll`. Their per-key meaning is the separate lemma `Store.UpsertAllLastWriteWins`, not repeated in the method's contract.
