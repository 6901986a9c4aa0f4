/**
 * What one render of the dashboard computes from the store: the user's
 * entries, newest first, turned into the heatmap grid and the recent list.
 */
module Dashboard {
  import opened Entries
  import opened DayIndex
  import opened Calendar
  import opened Recent
  import opened Store

  /** An entry list as the store's query returns it: newest first, real ratings only. */
  lemma ListedEntriesView(entries: seq<Entry>, today: Day)
    requires StrictlyDescending(entries) && AllRated(entries)
    ensures forall i, d | 0 <= i < WeekCount && 0 <= d < DaysPerWeek ::
              var c := Grid(Index(entries), today)[i][d];
              && (c.date !in DatesOf(entries) ==> c.level == 0)
              && (forall k | 0 <= k < |entries| && entries[k].date == c.date :: c.level == entries[k].level)
              && 0 <= c.level < |LevelColors|
  {
    IndexDistinctDates(entries);
    GridColorsInBounds(entries, today);
    var index := Index(entries);
    forall i, d | 0 <= i < WeekCount && 0 <= d < DaysPerWeek
      ensures var c := Grid(index, today)[i][d];
              && (c.date !in DatesOf(entries) ==> c.level == 0)
              && (forall k | 0 <= k < |entries| && entries[k].date == c.date :: c.level == entries[k].level)
    {
      GridAt(index, today, i, d);
    }
  }

  /** The facts the store's query establishes about its result. */
  ghost predicate ListsUser(rows: map<Key, Row>, user: UserId, entries: seq<Entry>)
  {
    && StrictlyDescending(entries)
    && AllRated(entries)
    && (forall k :: 0 <= k < |entries| ==> IsRowIn(rows, user, entries[k]))
    && (forall d :: Key(user, d) in rows ==> d in DatesOf(entries))
  }

  /** The grid of a listed user shows, per date, the stored level or 0. */
  lemma StoredGridView(rows: map<Key, Row>, user: UserId, entries: seq<Entry>, today: Day)
    requires ListsUser(rows, user, entries)
    ensures forall i, d | 0 <= i < WeekCount && 0 <= d < DaysPerWeek ::
              var c := Grid(Index(entries), today)[i][d];
              && (Key(user, c.date) in rows ==> c.level == rows[Key(user, c.date)].level)
              && (Key(user, c.date) !in rows ==> c.level == 0)
              && 0 <= c.level < |LevelColors|
  {
    ListedEntriesView(entries, today);
    forall i, d | 0 <= i < WeekCount && 0 <= d < DaysPerWeek
      ensures var c := Grid(Index(entries), today)[i][d];
              && (Key(user, c.date) in rows ==> c.level == rows[Key(user, c.date)].level)
              && (Key(user, c.date) !in rows ==> c.level == 0)
    {
      var c := Grid(Index(entries), today)[i][d];
      if Key(user, c.date) in rows {
        var k :| 0 <= k < |entries| && entries[k].date == c.date;
        assert IsRowIn(rows, user, entries[k]);
      } else {
        forall k | 0 <= k < |entries| ensures entries[k].date != c.date {
          assert IsRowIn(rows, user, entries[k]);
        }
      }
    }
  }

  /** The recent list of a listed user holds the user's newest rows, at most ten of them. */
  lemma StoredRecentView(rows: map<Key, Row>, user: UserId, entries: seq<Entry>)
    requires ListsUser(rows, user, entries)
    ensures var recent := RecentEntries(entries);
            && |recent| <= RecentLimit
            && StrictlyDescending(recent)
            && (forall k :: 0 <= k < |recent| ==> IsRowIn(rows, user, recent[k]))
            && (forall d :: Key(user, d) in rows && d !in DatesOf(recent) ==>
                  |recent| == RecentLimit && forall k :: 0 <= k < |recent| ==> recent[k].date > d)
  {
    var recent := RecentEntries(entries);
    forall d | Key(user, d) in rows && d !in DatesOf(recent)
      ensures |recent| == RecentLimit && forall k :: 0 <= k < |recent| ==> recent[k].date > d
    {
      var j :| 0 <= j < |entries| && entries[j].date == d;
      if j < |recent| {
        assert false;
      }
    }
  }

  /**
   * Fetch, index, lay out and slice: each cell of the grid shows the user's
   * stored level for its date, or 0 when the user has no row for it, and
   * the recent list holds the user's newest rows.
   */
  method Render(store: EntryStore, user: UserId, today: Day)
    returns (grid: seq<seq<Cell>>, recent: seq<Entry>)
    requires store.Valid()
    ensures |grid| == WeekCount
    ensures forall i :: 0 <= i < |grid| ==> |grid[i]| == DaysPerWeek
    ensures forall i, d | 0 <= i < WeekCount && 0 <= d < DaysPerWeek ::
              grid[i][d].date == today - (CellCount - 1) + (i * DaysPerWeek + d)
    ensures forall i, d | 0 <= i < WeekCount && 0 <= d < DaysPerWeek ::
              var key := Key(user, grid[i][d].date);
              && (key in store.rows ==> grid[i][d].level == store.rows[key].level)
              && (key !in store.rows ==> grid[i][d].level == 0)
              && 0 <= grid[i][d].level < |LevelColors|
    ensures |recent| <= RecentLimit && StrictlyDescending(recent)
    ensures forall k :: 0 <= k < |recent| ==> IsRowIn(store.rows, user, recent[k])
    ensures forall d :: Key(user, d) in store.rows && d !in DatesOf(recent) ==>
              |recent| == RecentLimit && forall k :: 0 <= k < |recent| ==> recent[k].date > d
  {
    var entries := store.ListEntries(user);
    var index := BuildDayIndex(entries);
    grid := BuildCalendarGrid(index, today);
    recent := RecentEntries(entries);
    StoredGridView(store.rows, user, entries, today);
    StoredRecentView(store.rows, user, entries);
  }
}
