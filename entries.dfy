/**
 * The data model of the dotlog dashboard: a rated day (`Entry`), the colour
 * table the heatmap indexes by level, and the ordering the Record Store
 * returns entries in.
 */
module Entries {
  import opened Wrappers

  /** A calendar date, as a number of days since a fixed epoch. */
  type Day = int

  /** The identifier the Record Store assigns to an entry when it creates it. */
  type EntryId = nat

  /** One persisted rating of one day. */
  datatype Entry = Entry(id: EntryId, date: Day, level: int, note: Option<string>)

  /** A real rating: one of the five buttons of the entry form. */
  predicate IsRating(level: int) {
    1 <= level <= 5
  }

  /** The heatmap colours; index 0 is "no entry", 1..5 are the ratings. */
  const LevelColors: seq<string> :=
    ["bg-gray-100", "bg-green-200", "bg-green-300", "bg-green-400", "bg-green-500", "bg-green-600"]

  /** Every entry carries a real rating. */
  predicate AllRated(entries: seq<Entry>) {
    forall k :: 0 <= k < |entries| ==> IsRating(entries[k].level)
  }

  /** The order of the entry list: newest date first, no date twice. */
  predicate StrictlyDescending(entries: seq<Entry>) {
    forall i, j :: 0 <= i < j < |entries| ==> entries[i].date > entries[j].date
  }

  /** The dates that occur in a list of entries. */
  function DatesOf(entries: seq<Entry>): (ds: set<Day>)
    ensures forall k :: 0 <= k < |entries| ==> entries[k].date in ds
    ensures forall d :: d in ds ==> exists k :: 0 <= k < |entries| && entries[k].date == d
  {
    set k | 0 <= k < |entries| :: entries[k].date
  }

  lemma DatesOfAppend(entries: seq<Entry>, e: Entry)
    ensures DatesOf(entries + [e]) == DatesOf(entries) + {e.date}
  {
    var both := entries + [e];
    assert both[|entries|] == e;
    forall d | d in DatesOf(entries) ensures d in DatesOf(both) {
      var k :| 0 <= k < |entries| && entries[k].date == d;
      assert both[k] == entries[k];
    }
  }

  /** Appending an entry older than all others keeps the list newest-first. */
  lemma DescendingAppend(entries: seq<Entry>, e: Entry)
    requires StrictlyDescending(entries)
    requires forall k :: 0 <= k < |entries| ==> entries[k].date > e.date
    ensures StrictlyDescending(entries + [e])
  {
  }

  /** A rating indexes the colour table and never gets the colour of an empty day. */
  lemma RatingColor(level: int)
    requires IsRating(level)
    ensures 0 < level < |LevelColors|
    ensures LevelColors[level] != LevelColors[0]
  {
  }
}
