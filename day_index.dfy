/**
 * The day index of the dashboard (`generateHeatmapData`): the entry list
 * folded into a dictionary from date to level, in list order, so that a
 * later entry for a date overwrites an earlier one.
 */
module DayIndex {
  import opened Entries

  /** Entry `k` is the last one in the list for its date. */
  predicate IsLastForDate(entries: seq<Entry>, k: int)
    requires 0 <= k < |entries|
  {
    forall j :: k < j < |entries| ==> entries[j].date != entries[k].date
  }

  /** The dictionary after the `forEach` has stored every entry in turn. */
  function Index(entries: seq<Entry>): (data: map<Day, int>)
  {
    if entries == [] then map[]
    else
      var last := entries[|entries| - 1];
      Index(entries[..|entries| - 1])[last.date := last.level]
  }

  /** The loop of the source: one assignment `data[entry.date] = entry.level` per entry. */
  method BuildDayIndex(entries: seq<Entry>) returns (data: map<Day, int>)
    ensures data.Keys == DatesOf(entries)
    ensures forall k | 0 <= k < |entries| && IsLastForDate(entries, k) ::
              data[entries[k].date] == entries[k].level
    ensures data == Index(entries)
  {
    data := map[];
    for i := 0 to |entries|
      invariant data == Index(entries[..i])
    {
      assert entries[..i + 1][..i] == entries[..i];
      data := data[entries[i].date := entries[i].level];
    }
    assert entries[..|entries|] == entries;
    IndexKeys(entries);
    IndexLastWins(entries);
  }

  lemma {:induction false} IndexKeys(entries: seq<Entry>)
    ensures Index(entries).Keys == DatesOf(entries)
  {
    if entries != [] {
      var init := entries[..|entries| - 1];
      IndexKeys(init);
      assert entries == init + [entries[|entries| - 1]];
      assert DatesOf(entries) == DatesOf(init) + {entries[|entries| - 1].date} by {
        forall d | d in DatesOf(entries) ensures d in DatesOf(init) + {entries[|entries| - 1].date} {
          var k :| 0 <= k < |entries| && entries[k].date == d;
          if k < |init| { assert init[k] == entries[k]; }
        }
        forall d | d in DatesOf(init) ensures d in DatesOf(entries) {
          var k :| 0 <= k < |init| && init[k].date == d;
          assert entries[k] == init[k];
        }
      }
    }
  }

  /** Last wins: the indexed level of a date is that of its last entry. */
  lemma {:induction false} IndexLastWins(entries: seq<Entry>)
    ensures forall k | 0 <= k < |entries| && IsLastForDate(entries, k) ::
              entries[k].date in Index(entries) && Index(entries)[entries[k].date] == entries[k].level
  {
    if entries != [] {
      var n := |entries| - 1;
      var init := entries[..n];
      IndexLastWins(init);
      forall k | 0 <= k < |entries| && IsLastForDate(entries, k)
        ensures entries[k].date in Index(entries) && Index(entries)[entries[k].date] == entries[k].level
      {
        if k < n {
          assert init[k] == entries[k];
          assert IsLastForDate(init, k) by {
            forall j | k < j < |init| ensures init[j].date != init[k].date {
              assert init[j] == entries[j];
            }
          }
          assert entries[n].date != entries[k].date;
        }
      }
    }
  }

  /** Every indexed level is the level of some entry for that date. */
  lemma {:induction false} IndexValuesFromEntries(entries: seq<Entry>, d: Day)
    requires d in Index(entries)
    ensures exists k :: 0 <= k < |entries| && entries[k].date == d && entries[k].level == Index(entries)[d]
  {
    var n := |entries| - 1;
    if entries[n].date != d {
      IndexValuesFromEntries(entries[..n], d);
      var k :| 0 <= k < n && entries[..n][k].date == d && entries[..n][k].level == Index(entries[..n])[d];
      assert entries[k] == entries[..n][k];
    }
  }

  /** When every entry is a real rating, so is every indexed level. */
  lemma IndexRated(entries: seq<Entry>)
    requires AllRated(entries)
    ensures forall d :: d in Index(entries) ==> IsRating(Index(entries)[d])
  {
    forall d | d in Index(entries) ensures IsRating(Index(entries)[d]) {
      IndexValuesFromEntries(entries, d);
    }
  }

  /** Folding a concatenation: the second part's dates override the first's. */
  lemma {:induction false} IndexAppend(a: seq<Entry>, b: seq<Entry>)
    ensures Index(a + b) == Index(a) + Index(b)
  {
    if b == [] {
      assert a + b == a;
    } else {
      var n := |b| - 1;
      assert (a + b)[..|a + b| - 1] == a + b[..n];
      IndexAppend(a, b[..n]);
    }
  }

  /** Replaying the same entries a second time does not change the index. */
  lemma IndexReplayIdempotent(entries: seq<Entry>)
    ensures Index(entries + entries) == Index(entries)
  {
    IndexAppend(entries, entries);
  }

  /** With no date twice, each entry's own level is the one indexed. */
  lemma IndexDistinctDates(entries: seq<Entry>)
    requires StrictlyDescending(entries)
    ensures Index(entries).Keys == DatesOf(entries)
    ensures forall k :: 0 <= k < |entries| ==> Index(entries)[entries[k].date] == entries[k].level
  {
    IndexKeys(entries);
    IndexLastWins(entries);
  }

  /** Two entries for one date, in that order: the later level, 5, wins. */
  lemma TieBreakExample(d: Day, e1: Entry, e2: Entry)
    requires e1.date == d && e1.level == 2
    requires e2.date == d && e2.level == 5
    ensures Index([e1, e2]) == map[d := 5]
  {
    assert [e1, e2][..1] == [e1];
    assert [e1][..0] == [];
    assert Index([e1]) == map[d := 2];
  }
}
