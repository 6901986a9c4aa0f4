/**
 * The Record Store as the dashboard uses it: a table of entries keyed on
 * (user, date), written by the upsert of the entry form and read back
 * newest date first.
 */
module Store {
  import opened Wrappers
  import opened Entries

  type UserId = string

  /** The conflict key of the table. */
  datatype Key = Key(owner: UserId, date: Day)

  /** What the table holds for one key. */
  datatype Row = Row(id: EntryId, level: int, note: Option<string>)

  /** `note || null`: an empty note is stored as no note. */
  function NoteOrNull(note: string): (r: Option<string>)
    ensures r.None? <==> note == ""
    ensures r.Some? ==> r.value == note
  {
    if note == "" then None else Some(note)
  }

  /** A finite non-empty set of days has a latest one. */
  lemma {:induction false} LatestExists(s: set<Day>)
    requires s != {}
    ensures exists m :: m in s && forall x :: x in s ==> x <= m
  {
    if forall x :: x !in s {
      assert false;
    }
    var y :| y in s;
    var rest := s - {y};
    if forall x :: x !in rest {
      forall x | x in s ensures x <= y {
        assert x !in rest;
      }
    } else {
      LatestExists(rest);
      var m :| m in rest && forall x :: x in rest ==> x <= m;
      var top := if y > m then y else m;
      forall x | x in s ensures x <= top {
        if x != y { assert x in rest; }
      }
      assert top in s;
    }
  }

  /** `e` is the user's row for `e.date` in `rows`, read back as an entry. */
  ghost predicate IsRowIn(rows: map<Key, Row>, user: UserId, e: Entry)
  {
    && Key(user, e.date) in rows
    && var row := rows[Key(user, e.date)];
       e == Entry(row.id, e.date, row.level, row.note)
  }

  /**
   * Part way through the listing: `listed` holds rows of the user newest
   * first, and `remaining` the user's other dates, all older than those listed.
   */
  ghost predicate Listing(rows: map<Key, Row>, user: UserId, listed: seq<Entry>, remaining: set<Day>)
  {
    && (forall d :: d in remaining ==> Key(user, d) in rows)
    && (forall d :: Key(user, d) in rows ==> d in remaining || d in DatesOf(listed))
    && StrictlyDescending(listed)
    && (forall k, d :: 0 <= k < |listed| && d in remaining ==> listed[k].date > d)
    && (forall k :: 0 <= k < |listed| ==> IsRowIn(rows, user, listed[k]))
  }

  /** Moving the latest remaining date to the end of the list keeps the listing consistent. */
  lemma ListingStep(rows: map<Key, Row>, user: UserId, listed: seq<Entry>, remaining: set<Day>, m: Day)
    requires Listing(rows, user, listed, remaining)
    requires m in remaining && forall x :: x in remaining ==> x <= m
    ensures Key(user, m) in rows
    ensures var row := rows[Key(user, m)];
            Listing(rows, user, listed + [Entry(row.id, m, row.level, row.note)], remaining - {m})
  {
    var row := rows[Key(user, m)];
    var e := Entry(row.id, m, row.level, row.note);
    assert IsRowIn(rows, user, e);
    DatesOfAppend(listed, e);
    DescendingAppend(listed, e);
  }

  class EntryStore {
    /** The table, one row per (user, date). */
    var rows: map<Key, Row>
    /** The identifier the next created row receives. */
    var nextId: EntryId

    /** Every row has a real rating and an identifier of its own, issued before `nextId`. */
    ghost predicate Valid()
      reads this
    {
      && (forall k :: k in rows ==> rows[k].id < nextId && IsRating(rows[k].level))
      && (forall k1, k2 :: k1 in rows && k2 in rows && k1 != k2 ==> rows[k1].id != rows[k2].id)
    }

    constructor ()
      ensures Valid() && rows == map[] && nextId == 0
    {
      rows := map[];
      nextId := 0;
    }

    /**
     * Saving the entry form: nothing happens without a signed-in user;
     * otherwise the row for (user, date) is created with a fresh identifier,
     * or its level and note are overwritten and its identifier kept.
     */
    method Upsert(user: Option<UserId>, date: Day, level: int, note: string)
      requires Valid()
      requires IsRating(level)
      modifies this
      ensures Valid()
      ensures user.None? ==> rows == old(rows) && nextId == old(nextId)
      ensures user.Some? ==>
                var key := Key(user.value, date);
                && key in rows
                && rows[key].level == level
                && rows[key].note == NoteOrNull(note)
                && rows[key].id == (if key in old(rows) then old(rows)[key].id else old(nextId))
                && rows.Keys == old(rows).Keys + {key}
                && (forall k :: k in old(rows) && k != key ==> rows[k] == old(rows)[k])
    {
      if user.None? {
        return;
      }
      var key := Key(user.value, date);
      var id;
      if key in rows {
        id := rows[key].id;
      } else {
        id := nextId;
        nextId := nextId + 1;
      }
      rows := rows[key := Row(id, level, NoteOrNull(note))];
    }

    /**
     * The query of the dashboard: the user's entries, latest date first,
     * each date of the user's rows exactly once.
     */
    method ListEntries(user: UserId) returns (entries: seq<Entry>)
      requires Valid()
      ensures StrictlyDescending(entries)
      ensures forall k :: 0 <= k < |entries| ==> IsRowIn(rows, user, entries[k])
      ensures forall d :: Key(user, d) in rows ==> d in DatesOf(entries)
      ensures AllRated(entries)
    {
      var remaining := set k | k in rows.Keys && k.owner == user :: k.date;
      entries := [];
      while remaining != {}
        invariant Listing(rows, user, entries, remaining)
        decreases remaining
      {
        LatestExists(remaining);
        var m :| m in remaining && forall x :: x in remaining ==> x <= m;
        var row := rows[Key(user, m)];
        ListingStep(rows, user, entries, remaining, m);
        entries := entries + [Entry(row.id, m, row.level, row.note)];
        remaining := remaining - {m};
      }
    }
  }

  /** Saving the same day twice leaves one row for it, holding the second save. */
  method SaveTwice(store: EntryStore, user: UserId, date: Day, level1: int, note1: string, level2: int, note2: string)
    requires store.Valid()
    requires IsRating(level1) && IsRating(level2)
    modifies store
    ensures store.Valid()
    ensures var key := Key(user, date);
            && key in store.rows
            && store.rows[key].level == level2
            && store.rows[key].note == NoteOrNull(note2)
            && store.rows.Keys == old(store.rows).Keys + {key}
            && (forall k :: k in old(store.rows) && k != key ==> store.rows[k] == old(store.rows)[k])
  {
    store.Upsert(Some(user), date, level1, note1);
    store.Upsert(Some(user), date, level2, note2);
  }
}
