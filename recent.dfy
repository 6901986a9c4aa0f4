/** The "Recent Entries" panel of the dashboard: the head of the fetched list. */
module Recent {
  import opened Entries

  /** How many entries the panel shows at most. */
  const RecentLimit := 10

  /** `entries.slice(0, 10)`: the newest ten entries of a newest-first list, in the same order. */
  function RecentEntries(entries: seq<Entry>): (r: seq<Entry>)
    ensures |r| == if |entries| < RecentLimit then |entries| else RecentLimit
    ensures r == entries[..|r|]
    ensures StrictlyDescending(entries) ==> StrictlyDescending(r)
    ensures StrictlyDescending(entries) ==>
              forall i, j :: 0 <= i < |r| <= j < |entries| ==> r[i].date > entries[j].date
    ensures AllRated(entries) ==> forall k :: 0 <= k < |r| ==> 0 < r[k].level < |LevelColors|
  {
    if |entries| <= RecentLimit then entries else entries[..RecentLimit]
  }
}
