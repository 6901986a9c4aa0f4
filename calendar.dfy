/**
 * The calendar grid of the dashboard (`generateCalendarGrid`): 52 weeks of
 * 7 cells, oldest week first, ending on the caller's "today"; each cell
 * carries the indexed level of its date, or 0 when nothing was recorded.
 */
module Calendar {
  import opened Entries
  import opened DayIndex

  const WeekCount := 52
  const DaysPerWeek := 7
  /** The number of cells in a grid, and of days it spans. */
  const CellCount := WeekCount * DaysPerWeek

  datatype Cell = Cell(date: Day, level: int)

  /** The level shown for a date: `heatmapData[date] || 0` over integer levels. */
  function LevelOf(index: map<Day, int>, date: Day): (level: int)
  {
    if date in index then index[date] else 0
  }

  /** The cell the source builds for week offset `w` (weeks before this one) and weekday `d`. */
  function CellAt(index: map<Day, int>, today: Day, w: int, d: int): (c: Cell)
  {
    var date := today - (w * DaysPerWeek + (DaysPerWeek - 1 - d));
    Cell(date, LevelOf(index, date))
  }

  /** The grid as a value: week `i` of the result is week offset `51 - i`. */
  function Grid(index: map<Day, int>, today: Day): (weeks: seq<seq<Cell>>)
  {
    seq(WeekCount, i => seq(DaysPerWeek, d => CellAt(index, today, WeekCount - 1 - i, d)))
  }

  /** Cell `(i, d)` of the grid value is the one the source builds for week offset `51 - i`. */
  lemma GridAt(index: map<Day, int>, today: Day, i: int, d: int)
    requires 0 <= i < WeekCount && 0 <= d < DaysPerWeek
    ensures Grid(index, today)[i][d] == CellAt(index, today, WeekCount - 1 - i, d)
  {
  }

  /** The two nested loops of the source, pushing cells into `week` and weeks into `weeks`. */
  method BuildCalendarGrid(index: map<Day, int>, today: Day) returns (weeks: seq<seq<Cell>>)
    ensures |weeks| == WeekCount
    ensures forall i :: 0 <= i < |weeks| ==> |weeks[i]| == DaysPerWeek
    ensures forall i, d | 0 <= i < WeekCount && 0 <= d < DaysPerWeek ::
              weeks[i][d].date == today - (CellCount - 1) + (i * DaysPerWeek + d)
    ensures forall i, d | 0 <= i < WeekCount && 0 <= d < DaysPerWeek ::
              weeks[i][d].level == LevelOf(index, weeks[i][d].date)
    ensures weeks == Grid(index, today)
  {
    weeks := [];
    var w := WeekCount - 1;
    while w >= 0
      invariant -1 <= w < WeekCount
      invariant |weeks| == WeekCount - 1 - w
      invariant forall i :: 0 <= i < |weeks| ==> weeks[i] == Grid(index, today)[i]
    {
      var week := [];
      var d := 0;
      while d < DaysPerWeek
        invariant 0 <= d <= DaysPerWeek
        invariant |week| == d
        invariant forall j :: 0 <= j < d ==> week[j] == CellAt(index, today, w, j)
      {
        var date := today - (w * DaysPerWeek + (DaysPerWeek - 1 - d));
        week := week + [Cell(date, if date in index then index[date] else 0)];
        d := d + 1;
      }
      weeks := weeks + [week];
      w := w - 1;
    }
    GridCellDate(index, today);
    forall i, d | 0 <= i < WeekCount && 0 <= d < DaysPerWeek
      ensures weeks[i][d].level == LevelOf(index, weeks[i][d].date)
    {
      GridAt(index, today, i, d);
    }
  }

  /** Cell `(i, d)` is `(51 - i) * 7 + (6 - d)` days before today, i.e. day `7i + d` of the span. */
  lemma GridCellDate(index: map<Day, int>, today: Day)
    ensures |Grid(index, today)| == WeekCount
    ensures forall i :: 0 <= i < WeekCount ==> |Grid(index, today)[i]| == DaysPerWeek
    ensures forall i, d | 0 <= i < WeekCount && 0 <= d < DaysPerWeek ::
              Grid(index, today)[i][d].date == today - ((WeekCount - 1 - i) * DaysPerWeek + (DaysPerWeek - 1 - d))
              && Grid(index, today)[i][d].date == today - (CellCount - 1) + (i * DaysPerWeek + d)
  {
    forall i, d | 0 <= i < WeekCount && 0 <= d < DaysPerWeek
      ensures Grid(index, today)[i][d].date == today - ((WeekCount - 1 - i) * DaysPerWeek + (DaysPerWeek - 1 - d))
    {
      GridAt(index, today, i, d);
    }
  }

  /** The last cell of the last week is today; the first cell of the first week is 363 days earlier. */
  lemma GridEnds(index: map<Day, int>, today: Day)
    ensures Grid(index, today)[WeekCount - 1][DaysPerWeek - 1].date == today
    ensures Grid(index, today)[0][0].date == today - 363
  {
    GridAt(index, today, WeekCount - 1, DaysPerWeek - 1);
    GridAt(index, today, 0, 0);
  }

  /** The cells read week by week, in the order the source emits them. */
  function Flatten(weeks: seq<seq<Cell>>): (cells: seq<Cell>)
  {
    if weeks == [] then [] else weeks[0] + Flatten(weeks[1..])
  }

  /** In a list of full weeks, cell `(i, d)` sits at position `7i + d` of the flattened list. */
  lemma {:induction false} FlattenAt(weeks: seq<seq<Cell>>, i: int, d: int)
    requires forall j :: 0 <= j < |weeks| ==> |weeks[j]| == DaysPerWeek
    requires 0 <= i < |weeks| && 0 <= d < DaysPerWeek
    ensures |Flatten(weeks)| == DaysPerWeek * |weeks|
    ensures Flatten(weeks)[DaysPerWeek * i + d] == weeks[i][d]
  {
    FlattenLength(weeks[1..]);
    if i > 0 {
      FlattenAt(weeks[1..], i - 1, d);
    }
  }

  lemma {:induction false} FlattenLength(weeks: seq<seq<Cell>>)
    requires forall j :: 0 <= j < |weeks| ==> |weeks[j]| == DaysPerWeek
    ensures |Flatten(weeks)| == DaysPerWeek * |weeks|
  {
    if weeks != [] {
      FlattenLength(weeks[1..]);
    }
  }

  /** The 364 cells, in emission order, are 364 consecutive days ending today. */
  lemma GridConsecutive(index: map<Day, int>, today: Day)
    ensures |Flatten(Grid(index, today))| == CellCount
    ensures forall k :: 0 <= k < CellCount ==>
              Flatten(Grid(index, today))[k].date == today - (CellCount - 1) + k
  {
    var g := Grid(index, today);
    GridCellDate(index, today);
    FlattenLength(g);
    forall k | 0 <= k < CellCount
      ensures Flatten(g)[k].date == today - (CellCount - 1) + k
    {
      var i, d := k / DaysPerWeek, k % DaysPerWeek;
      FlattenAt(g, i, d);
      assert DaysPerWeek * i + d == k;
    }
  }

  /** The grid's dates are strictly ascending in emission order, so no date appears twice. */
  lemma GridAscending(index: map<Day, int>, today: Day)
    ensures forall a, b :: 0 <= a < b < |Flatten(Grid(index, today))| ==>
              Flatten(Grid(index, today))[a].date < Flatten(Grid(index, today))[b].date
  {
    GridConsecutive(index, today);
  }

  /** A date in the grid's span shows its indexed level when present, and 0 when absent. */
  lemma GridLevels(index: map<Day, int>, today: Day)
    ensures forall i, d | 0 <= i < WeekCount && 0 <= d < DaysPerWeek ::
              var c := Grid(index, today)[i][d];
              (c.date in index ==> c.level == index[c.date]) && (c.date !in index ==> c.level == 0)
  {
    forall i, d | 0 <= i < WeekCount && 0 <= d < DaysPerWeek
      ensures var c := Grid(index, today)[i][d];
              (c.date in index ==> c.level == index[c.date]) && (c.date !in index ==> c.level == 0)
    {
      GridAt(index, today, i, d);
    }
  }

  /** One cell of the grid of some entries: the last entry's level for its date, else 0. */
  lemma CellOfEntries(entries: seq<Entry>, today: Day, i: int, d: int)
    requires 0 <= i < WeekCount && 0 <= d < DaysPerWeek
    ensures var c := Grid(Index(entries), today)[i][d];
            && (c.date !in DatesOf(entries) ==> c.level == 0)
            && (forall k | 0 <= k < |entries| && entries[k].date == c.date && IsLastForDate(entries, k) ::
                  c.level == entries[k].level)
  {
    var index := Index(entries);
    GridAt(index, today, i, d);
    var c := Grid(index, today)[i][d];
    assert c.level == LevelOf(index, c.date);
    if c.date !in DatesOf(entries) {
      IndexKeys(entries);
    } else {
      IndexLastWins(entries);
    }
  }

  /** The grid's levels for the day index of some entries: the last entry's level for the date, else 0. */
  lemma GridOfEntries(entries: seq<Entry>, today: Day)
    ensures forall i, d | 0 <= i < WeekCount && 0 <= d < DaysPerWeek ::
              var c := Grid(Index(entries), today)[i][d];
              (c.date !in DatesOf(entries) ==> c.level == 0)
              && (forall k | 0 <= k < |entries| && entries[k].date == c.date && IsLastForDate(entries, k) ::
                    c.level == entries[k].level)
  {
    forall i, d | 0 <= i < WeekCount && 0 <= d < DaysPerWeek
      ensures var c := Grid(Index(entries), today)[i][d];
              (c.date !in DatesOf(entries) ==> c.level == 0)
              && (forall k | 0 <= k < |entries| && entries[k].date == c.date && IsLastForDate(entries, k) ::
                    c.level == entries[k].level)
    {
      CellOfEntries(entries, today, i, d);
    }
  }

  /** When all entries are real ratings, every cell indexes the colour table within bounds. */
  lemma GridColorsInBounds(entries: seq<Entry>, today: Day)
    requires AllRated(entries)
    ensures forall i, d | 0 <= i < WeekCount && 0 <= d < DaysPerWeek ::
              0 <= Grid(Index(entries), today)[i][d].level < |LevelColors|
  {
    var index := Index(entries);
    IndexRated(entries);
    forall i, d | 0 <= i < WeekCount && 0 <= d < DaysPerWeek
      ensures 0 <= Grid(index, today)[i][d].level < |LevelColors|
    {
      GridAt(index, today, i, d);
    }
  }

  /**
   * Two entries, today rated 4 and yesterday rated 1: the last two cells show
   * them, and the other 362 cells are empty.
   */
  lemma TwoEntriesExample(today: Day, e1: Entry, e2: Entry)
    requires e1.date == today && e1.level == 4
    requires e2.date == today - 1 && e2.level == 1
    ensures Grid(Index([e1, e2]), today)[51][6] == Cell(today, 4)
    ensures Grid(Index([e1, e2]), today)[51][5] == Cell(today - 1, 1)
    ensures forall i, d | 0 <= i < WeekCount && 0 <= d < DaysPerWeek && (i, d) != (51, 6) && (i, d) != (51, 5) ::
              Grid(Index([e1, e2]), today)[i][d].level == 0
  {
    assert [e1, e2][..1] == [e1];
    assert [e1][..0] == [];
    assert Index([e1]) == map[today := 4];
    var index := Index([e1, e2]);
    assert index == map[today := 4][today - 1 := 1];
    GridCellDate(index, today);
    GridAt(index, today, 51, 6);
    GridAt(index, today, 51, 5);
    forall i, d | 0 <= i < WeekCount && 0 <= d < DaysPerWeek && (i, d) != (51, 6) && (i, d) != (51, 5)
      ensures Grid(index, today)[i][d].level == 0
    {
      GridAt(index, today, i, d);
      assert Grid(index, today)[i][d].date < today - 1;
    }
  }
}
