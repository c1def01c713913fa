/** The search-history tracker: an append-only log of past queries, read
    back newest first, and the suggestions built from it by re-running the
    exact search for every past query. */
module History {
  import opened Common
  import opened Text
  import opened Catalog

  /** One `search_history` document. `time` is the insertion timestamp,
      kept abstract as an integer. */
  datatype HistoryEntry = HistoryEntry(user: UserId, content: string, time: int)

  /** Newest first: timestamps never increase along the sequence. */
  predicate SortedByTimeDesc(entries: seq<HistoryEntry>) {
    forall i, j :: 0 <= i < j < |entries| ==> entries[i].time >= entries[j].time
  }

  /** `add_search_history`: appends one entry stamped with `now`; nothing
      already logged changes. */
  function AddSearchHistory(history: seq<HistoryEntry>, user: UserId, content: string, now: int): (r: seq<HistoryEntry>)
    ensures |r| == |history| + 1
    ensures r[..|history|] == history
    ensures r[|history|].user == user && r[|history|].content == content && r[|history|].time == now
  {
    history + [HistoryEntry(user, content, now)]
  }

  /** The entries of one user, in log order (the `find` filter). */
  function EntriesOf(history: seq<HistoryEntry>, user: UserId): (r: seq<HistoryEntry>)
    ensures forall e :: e in r <==> e in history && e.user == user
  {
    if history == [] then []
    else (if history[0].user == user then [history[0]] else []) + EntriesOf(history[1..], user)
  }

  /** Places `e` into a newest-first sequence, after every entry at least as
      recent. */
  function InsertByTime(e: HistoryEntry, sorted: seq<HistoryEntry>): (r: seq<HistoryEntry>)
    requires SortedByTimeDesc(sorted)
    ensures SortedByTimeDesc(r)
    ensures multiset(r) == multiset(sorted) + multiset{e}
  {
    if sorted == [] then [e]
    else if sorted[0].time <= e.time then [e] + sorted
    else
      var rest := InsertByTime(e, sorted[1..]);
      assert sorted == [sorted[0]] + sorted[1..];
      assert forall x :: x in rest ==> x.time <= sorted[0].time by {
        forall x | x in rest
          ensures x.time <= sorted[0].time
        {
          assert x in multiset(rest);
          if x != e {
            assert x in multiset(sorted[1..]);
            var k :| 0 <= k < |sorted[1..]| && sorted[1..][k] == x;
            assert sorted[k + 1] == x;
          }
        }
      }
      ConsSorted(sorted[0], rest);
      [sorted[0]] + rest
  }

  /** An entry at least as recent as everything in a newest-first sequence
      can go in front of it. */
  lemma ConsSorted(x: HistoryEntry, s: seq<HistoryEntry>)
    requires SortedByTimeDesc(s)
    requires forall y :: y in s ==> y.time <= x.time
    ensures SortedByTimeDesc([x] + s)
  {
    var r := [x] + s;
    assert forall k :: 0 < k < |r| ==> r[k] == s[k - 1] && s[k - 1] in s;
  }

  /** `.sort("time", -1)`: the same entries, newest first. */
  function SortByTimeDesc(entries: seq<HistoryEntry>): (r: seq<HistoryEntry>)
    ensures SortedByTimeDesc(r)
    ensures multiset(r) == multiset(entries)
  {
    if entries == [] then []
    else
      assert entries == [entries[0]] + entries[1..];
      InsertByTime(entries[0], SortByTimeDesc(entries[1..]))
  }

  /** `get_search_history`: exactly the user's entries, newest first. */
  function GetSearchHistory(history: seq<HistoryEntry>, user: UserId): (r: seq<HistoryEntry>)
    ensures SortedByTimeDesc(r)
    ensures multiset(r) == multiset(EntriesOf(history, user))
    ensures forall e :: e in r <==> e in history && e.user == user
  {
    var r := SortByTimeDesc(EntriesOf(history, user));
    assert forall e :: e in r <==> e in multiset(r);
    assert forall e :: e in EntriesOf(history, user) <==> e in multiset(EntriesOf(history, user));
    r
  }

  /** The exact-search results for each entry in turn, concatenated
      (`extend` in a loop). */
  function MatchAll(catalog: seq<Exercise>, entries: seq<HistoryEntry>): (r: seq<Exercise>)
    ensures forall e :: e in r <==>
              e in catalog && exists h :: h in entries && CatalogKey(e.workoutName) == Normalize(h.content)
  {
    if entries == [] then []
    else
      var rest := MatchAll(catalog, entries[1..]);
      assert forall h :: h in entries[1..] ==> h in entries;
      assert forall h :: h in entries ==> h == entries[0] || h in entries[1..];
      SearchRigid(catalog, entries[0].content) + rest
  }

  /** `get_matching_exercises_from_history`: every catalog exercise whose
      key equals some past query of the user, once per matching query,
      newest query first. */
  function GetMatchingExercisesFromHistory(catalog: seq<Exercise>, history: seq<HistoryEntry>, user: UserId): (r: seq<Exercise>)
    ensures forall e :: e in r <==>
              e in catalog && exists h :: h in history && h.user == user && CatalogKey(e.workoutName) == Normalize(h.content)
  {
    MatchAll(catalog, GetSearchHistory(history, user))
  }

  // ----- Lemmas -----

  /** The suggestions keep history order and duplicates: the matches for a
      history made of two parts are the matches of the first part followed
      by those of the second. */
  lemma {:induction false} MatchAllConcat(catalog: seq<Exercise>, a: seq<HistoryEntry>, b: seq<HistoryEntry>)
    ensures MatchAll(catalog, a + b) == MatchAll(catalog, a) + MatchAll(catalog, b)
  {
    if a == [] {
      assert a + b == b;
    } else {
      var head := SearchRigid(catalog, a[0].content);
      assert (a + b)[1..] == a[1..] + b;
      calc {
        MatchAll(catalog, a + b);
        head + MatchAll(catalog, a[1..] + b);
        { MatchAllConcat(catalog, a[1..], b); }
        head + (MatchAll(catalog, a[1..]) + MatchAll(catalog, b));
        MatchAll(catalog, a) + MatchAll(catalog, b);
      }
    }
  }

  /** Recording a search never disturbs another user's history. */
  lemma OtherUsersUnaffected(history: seq<HistoryEntry>, user: UserId, other: UserId, content: string, now: int)
    requires other != user
    ensures EntriesOf(AddSearchHistory(history, user, content, now), other) == EntriesOf(history, other)
  {
    EntriesOfConcat(history, [HistoryEntry(user, content, now)], other);
    assert [HistoryEntry(user, content, now)][1..] == [];
  }

  lemma {:induction false} EntriesOfConcat(a: seq<HistoryEntry>, b: seq<HistoryEntry>, user: UserId)
    ensures EntriesOf(a + b, user) == EntriesOf(a, user) + EntriesOf(b, user)
  {
    if a == [] {
      assert a + b == b;
    } else {
      var head := if a[0].user == user then [a[0]] else [];
      assert (a + b)[1..] == a[1..] + b;
      calc {
        EntriesOf(a + b, user);
        head + EntriesOf(a[1..] + b, user);
        { EntriesOfConcat(a[1..], b, user); }
        head + (EntriesOf(a[1..], user) + EntriesOf(b, user));
        EntriesOf(a, user) + EntriesOf(b, user);
      }
    }
  }
}
