# dotlog dashboard: a Dafny model

dotlog lets a signed-in person rate each calendar day from 1 to 5, with an optional note. The dashboard shows the history as a year-long heatmap and lists the latest entries. This project models the logic of the dashboard page, `frontend/app/dashboard/page.tsx`:

- **Record Store.** The entries table is keyed on (user, date). The entry form's upsert writes it, and the dashboard's query reads it back newest date first. This is the class `Store.EntryStore`. Its table is a `map` from `Key(owner, date)` to a row (id, level, note). `Upsert` is the form's save. `ListEntries` is the `select ... order('date', descending)` query.
- **Day index** (`generateHeatmapData`). The entry list is folded into a dictionary from date to level, in list order, so a later entry for a date overwrites an earlier one. `DayIndex.BuildDayIndex` is the loop and `DayIndex.Index` is the fold it computes.
- **Calendar grid** (`generateCalendarGrid`). This is 52 weeks of 7 cells, oldest week first, ending on "today". A cell holds the indexed level of its date, or 0 when there is none. `Calendar.BuildCalendarGrid` runs the two nested loops, and `Calendar.Grid` is the grid as a value.
- **Recent entries** (`entries.slice(0, 10)`). This is `Recent.RecentEntries`.
- **Dashboard.** `Dashboard.Render` puts one render together: fetch, index, lay out and slice. Its lemmas connect the grid and the recent list back to the store's rows.

Model conventions:

- Dates are integers counting days since an epoch.
- "Today" is a parameter.
- The source's `null` note is `None`.
- Levels are unbounded integers. Entry identifiers are natural numbers that the store issues from a counter.

Notes on the code:

- The code does not check the level before saving. Only the form's five buttons (and the initial value 3) limit it to 1..5. So `Upsert` has `requires IsRating(level)`, and there is no "invalid input" error path.
- The code's query has no per-user filter. It relies on the store showing a user only their own rows. `ListEntries(user)` returns the rows whose key has that owner.
- The recent list's limit is the constant 10, not a parameter.
- In the colour table, level 0 (`bg-gray-100`) and level 1 (`bg-green-200`) have different colours (`Entries.RatingColor`).

## Model

Four definitions carry the model and have no contract of their own. Their properties are the rows below:

- `DayIndex.Index` (frontend/app/dashboard/page.tsx:74-80) is the dictionary after the `forEach`, as a left fold over the entries.
- `Calendar.LevelOf` (frontend/app/dashboard/page.tsx:97) is `heatmapData[dateStr] || 0` over integer levels.
- `Calendar.CellAt` (frontend/app/dashboard/page.tsx:92-98) is the cell built for week offset `w` and weekday `d`.
- `Calendar.Grid` (frontend/app/dashboard/page.tsx:85-103) is the whole grid as a value: week `i` is week offset `51 - i`.

| member | source | states |
|---|---|---|
| Store.EntryStore.Upsert | frontend/app/dashboard/page.tsx:39-56 | With no user, nothing changes. Otherwise the (user, date) row holds the new level, and its note is `None` when the given note is empty. Its id is kept if the row existed, and is a fresh one otherwise. No other row changes, and ids stay unique. |
| Store.NoteOrNull | frontend/app/dashboard/page.tsx:49 | The stored note is absent exactly when the typed note is empty; otherwise it is the typed note. |
| Store.SaveTwice | frontend/app/dashboard/page.tsx:43-50 | After two saves for the same day, there is one row for that key, holding the second level and note. Every other row is as before. |
| Store.EntryStore.ListEntries | frontend/app/dashboard/page.tsx:27-37 | The result is strictly descending by date. Each element is the user's stored row for its date. Every date the user has a row for appears. All levels are ratings 1..5. |
| Store.ListingStep | frontend/app/dashboard/page.tsx:28-31 | Moving the latest remaining date to the end of the partial list keeps it newest-first, complete and faithful to the rows. |
| DayIndex.BuildDayIndex | frontend/app/dashboard/page.tsx:74-80 | The dictionary's keys are exactly the entry dates. Each date maps to the level of the last entry with that date. The result equals the fold `Index`. |
| DayIndex.IndexKeys | frontend/app/dashboard/page.tsx:75-79 | The keys of the fold are exactly the set of entry dates. |
| DayIndex.IndexLastWins | frontend/app/dashboard/page.tsx:76-78 | For every entry that is the last one for its date, the fold maps that date to that entry's level. |
| DayIndex.IndexValuesFromEntries | frontend/app/dashboard/page.tsx:77 | Every indexed level is the level of some entry with that date. |
| DayIndex.IndexRated | frontend/app/dashboard/page.tsx:77 | If every entry's level is 1..5, every indexed level is 1..5. |
| DayIndex.IndexAppend | frontend/app/dashboard/page.tsx:76-78 | Folding `a + b` gives the index of `a` overridden by the index of `b`. |
| DayIndex.IndexReplayIdempotent | frontend/app/dashboard/page.tsx:74-80 | Folding the same entries a second time leaves the index unchanged. |
| DayIndex.IndexDistinctDates | frontend/app/dashboard/page.tsx:74-80 | For a list with no date twice (the store's order), each entry's own level is indexed under its date. |
| DayIndex.TieBreakExample | frontend/app/dashboard/page.tsx:76-78 | Two entries for date D with levels 2 then 5 give the index {D: 5}. |
| Calendar.BuildCalendarGrid | frontend/app/dashboard/page.tsx:85-103 | The grid has exactly 52 weeks of 7 cells. Cell (i, d) is day `today - 363 + 7i + d`. Its level is the indexed level, or 0. The result equals `Grid`. |
| Calendar.GridCellDate | frontend/app/dashboard/page.tsx:89-94 | The grid is 52 × 7. Cell (i, d) lies `(51 - i) * 7 + (6 - d)` days before today, which is day `7i + d` of the span. |
| Calendar.GridEnds | frontend/app/dashboard/page.tsx:89-93 | The last cell of the last week is today. The first cell of the first week is today − 363. |
| Calendar.FlattenAt | frontend/app/dashboard/page.tsx:89-101 | Read week by week, full weeks place cell (i, d) at position 7i + d. |
| Calendar.GridConsecutive | frontend/app/dashboard/page.tsx:89-101 | In emission order, the 364 cells are the consecutive days today − 363 … today. |
| Calendar.GridAscending | frontend/app/dashboard/page.tsx:89-101 | In emission order, the cell dates are strictly ascending. |
| Calendar.GridLevels | frontend/app/dashboard/page.tsx:97 | A cell's level is the indexed level when its date is indexed, and 0 otherwise. |
| Calendar.CellOfEntries | frontend/app/dashboard/page.tsx:97 | One cell built from entries has level 0 if no entry has its date. Otherwise it has the level of the last entry with its date. |
| Calendar.GridOfEntries | frontend/app/dashboard/page.tsx:97 | The same holds for every cell of the grid. |
| Calendar.GridColorsInBounds | frontend/app/dashboard/page.tsx:186 | If all entries are rated 1..5, every cell level is a valid index (0..5) into the 6-entry colour table. |
| Calendar.TwoEntriesExample | frontend/app/dashboard/page.tsx:85-103 | Take today rated 4 and yesterday rated 1. The last two cells show them, and the other 362 cells have level 0. |
| Recent.RecentEntries | frontend/app/dashboard/page.tsx:212 | The result is the prefix of length min(10, n). On a newest-first list, it stays newest-first and is newer than every entry it leaves out. Rated entries index the colour table in bounds. |
| Entries.RatingColor | frontend/app/dashboard/page.tsx:106 | A rating 1..5 indexes the colour table, and its colour differs from the empty-day colour. |
| Dashboard.ListedEntriesView | frontend/app/dashboard/page.tsx:82-105 | Take a newest-first, rated list. Each cell shows the level of the entry with its date, or 0, and that level indexes the colour table in bounds. |
| Dashboard.StoredGridView | frontend/app/dashboard/page.tsx:82-105 | For a list the query returned, each cell shows the user's stored level for its date, or 0 when the user has no row for it. |
| Dashboard.StoredRecentView | frontend/app/dashboard/page.tsx:212 | The recent list holds at most 10 of the user's rows, newest first. A stored date is left out only when the list is full and all its dates are later. |
| Dashboard.Render | frontend/app/dashboard/page.tsx:27-105 | One render (fetch, index, grid, slice) gives a 52 × 7 grid of consecutive days ending today. Each cell shows the user's stored level for its date, or 0, within colour bounds. It also gives the recent list as in `StoredRecentView`. |

## Left out

- The Supabase client, the network, `await`, and the error results of the query and the upsert. A failed query leaves the shown entries as they were, and a failed save changes nothing. The model has only successful calls.
- React state and effects (`useState`, `useEffect`, re-rendering), the sign-out redirect, and all markup and styling.
- JavaScript `Date`: `new Date()`, `setDate` and `toISOString().split('T')[0]`. Dates are integer day numbers and "today" is a parameter. The source steps back from the local clock time with `setDate`, which keeps the local time of day, and then names each day by its UTC date. Whenever the local and UTC dates differ (the first or last hours of the local day, by the size of the UTC offset), every cell's date string is one day off. Near that boundary, a daylight-saving change inside the 364 days can also make the source emit one date twice, or skip one, and lose today. `Calendar.GridConsecutive`, `Calendar.GridAscending` and `Calendar.GridEnds` therefore hold for the day-number model only, not for the source's date strings.
- Entry identifiers: the source's ids are strings generated by the database. The model issues natural numbers from a counter.
- Each user seeing only their own rows is the store's row-level security, which is outside the source. `ListEntries` takes the user explicitly.
- The entry form's local state (the selected date, the level, and clearing the note after a successful save).
- The login page, the landing page's random preview heatmap, and the session provider: these hold authentication and glue, not logic.
