/** Per-user mood history with bounded retention (app.py:116-134, 223-248).

    The `mood_records` collection is a sequence of records in insertion order; a record's
    index stands for its document id. Timestamps (`datetime.now()`) are a parameter of the
    record, as seconds. */
module History {
  import opened Wrappers
  import opened Sorting

  /** Records kept per user, and the most a history read returns. */
  const Limit: nat := 40

  datatype Record = Record(
    userId: string,
    userInput: string,
    moodTag: string,
    valence: real,
    energy: real,
    songName: string,
    artist: string,
    imageUrl: string,
    spotifyUrl: string,
    timestamp: real)

  /** The records of user `u`, in insertion order (`find({"user_id": u})`). */
  function OfUser(s: seq<Record>, u: string): (r: seq<Record>)
    ensures |r| <= |s|
    ensures forall k :: 0 <= k < |r| ==> r[k].userId == u
  {
    if s == [] then []
    else OfUser(s[..|s| - 1], u) + (if s[|s| - 1].userId == u then [s[|s| - 1]] else [])
  }

  /** The number of records of `s` stamped strictly later than `t`. */
  function CountNewer(s: seq<Record>, t: real): (n: nat)
    ensures n <= |s|
  {
    if s == [] then 0
    else CountNewer(s[..|s| - 1], t) + (if s[|s| - 1].timestamp > t then 1 else 0)
  }

  /** The sort key of a record: its timestamp for an oldest-first sort, its negation for a
      newest-first sort. */
  function Key(r: Record, newestFirst: bool): real
  {
    if newestFirst then -r.timestamp else r.timestamp
  }

  /** The records of `u` ready for sorting: each with its sort key and its index in `s`. */
  function Entries(s: seq<Record>, u: string, newestFirst: bool): (e: seq<Ranked<Record>>)
    ensures |e| == |OfUser(s, u)|
    ensures forall k :: 0 <= k < |e| ==> e[k].pos < |s|
    ensures PositionsIncrease(e)
  {
    if s == [] then []
    else
      var last := s[|s| - 1];
      Entries(s[..|s| - 1], u, newestFirst)
      + (if last.userId == u then [Ranked(Key(last, newestFirst), |s| - 1, last)] else [])
  }

  /** An entry is the record at its index, belongs to `u`, carries that record's key, and is
      the record of `u` at the same rank in insertion order. */
  lemma {:induction false} EntryAt(s: seq<Record>, u: string, newestFirst: bool, k: nat)
    requires k < |Entries(s, u, newestFirst)|
    ensures var e := Entries(s, u, newestFirst)[k];
      && s[e.pos] == e.item == OfUser(s, u)[k]
      && e.item.userId == u
      && e.weight == Key(e.item, newestFirst)
  {
    var init := s[..|s| - 1];
    if k < |Entries(init, u, newestFirst)| {
      EntryAt(init, u, newestFirst, k);
      assert OfUser(s, u)[k] == OfUser(init, u)[k];
    }
  }

  /** Every record of `u` has an entry. */
  lemma {:induction false} EntryFor(s: seq<Record>, u: string, newestFirst: bool, j: nat)
    requires j < |s| && s[j].userId == u
    ensures exists k :: 0 <= k < |Entries(s, u, newestFirst)| && Entries(s, u, newestFirst)[k].pos == j
  {
    var init := s[..|s| - 1];
    var e := Entries(s, u, newestFirst);
    if j == |s| - 1 {
      assert e[|Entries(init, u, newestFirst)|].pos == j;
    } else {
      EntryFor(init, u, newestFirst, j);
      var k :| 0 <= k < |Entries(init, u, newestFirst)| && Entries(init, u, newestFirst)[k].pos == j;
      assert e[k] == Entries(init, u, newestFirst)[k];
    }
  }

  /** Counting entries lighter than -t in the newest-first order counts the records of `u`
      newer than t. */
  lemma {:induction false} NewerAreLighter(s: seq<Record>, u: string, t: real)
    ensures CountLighter(Entries(s, u, true), -t) == CountNewer(OfUser(s, u), t)
  {
    if s != [] {
      var init := s[..|s| - 1];
      var last := s[|s| - 1];
      NewerAreLighter(init, u, t);
      if last.userId == u {
        var x := Ranked(Key(last, true), |s| - 1, last);
        assert Entries(s, u, true) == Entries(init, u, true) + [x];
        CountLighterAppend(Entries(init, u, true), [x], -t);
        assert [x][1..] == [];
        assert CountLighter([x], -t) == if last.timestamp > t then 1 else 0;
        var o := OfUser(s, u);
        assert o == OfUser(init, u) + [last];
        assert o[..|o| - 1] == OfUser(init, u);
        assert CountNewer(o, t) == CountNewer(OfUser(init, u), t) + (if last.timestamp > t then 1 else 0);
      } else {
        assert Entries(s, u, true) == Entries(init, u, true);
        assert OfUser(s, u) == OfUser(init, u);
      }
    }
  }

  /** The collection after `delete_many`: the records whose indexes are in `gone` removed. */
  function Without(s: seq<Record>, gone: set<nat>): (r: seq<Record>)
    ensures |r| <= |s|
  {
    if s == [] then []
    else Without(s[..|s| - 1], gone) + (if |s| - 1 in gone then [] else [s[|s| - 1]])
  }

  /** Deleting records of `u` leaves every other user's records as they were, and removes
      exactly as many records of `u` as were deleted. */
  lemma WithoutUserRecords(s: seq<Record>, u: string, gone: set<nat>)
    requires forall d :: d in gone ==> d < |s| && s[d].userId == u
    ensures |OfUser(Without(s, gone), u)| == |OfUser(s, u)| - |gone|
    ensures forall v :: v != u ==> OfUser(Without(s, gone), v) == OfUser(s, v)
  {
    WithoutOwnCount(s, u, gone);
    forall v | v != u
      ensures OfUser(Without(s, gone), v) == OfUser(s, v)
    {
      WithoutOthersKept(s, u, gone, v);
    }
  }

  /** Deleting the last record's index or not: the collection before it, then the last record
      when it is kept. */
  lemma WithoutLast(s: seq<Record>, gone: set<nat>)
    requires s != []
    ensures var n := |s| - 1;
      Without(s, gone) == Without(s[..n], gone - {n}) + (if n in gone then [] else [s[n]])
  {
    var n := |s| - 1;
    WithoutIgnoresLater(s[..n], gone, gone - {n});
  }

  lemma {:induction false} WithoutOwnCount(s: seq<Record>, u: string, gone: set<nat>)
    requires forall d :: d in gone ==> d < |s| && s[d].userId == u
    ensures |OfUser(Without(s, gone), u)| == |OfUser(s, u)| - |gone|
  {
    if s != [] {
      var n := |s| - 1;
      var init := s[..n];
      var gone' := gone - {n};
      forall d | d in gone' ensures d < |init| && init[d].userId == u { }
      WithoutOwnCount(init, u, gone');
      WithoutLast(s, gone);
      var w := Without(s, gone);
      if n in gone {
        assert |gone'| == |gone| - 1;
        assert w == Without(init, gone');
      } else {
        assert gone' == gone;
        assert w[..|w| - 1] == Without(init, gone');
      }
    } else {
      assert gone == {};
    }
  }

  lemma {:induction false} WithoutOthersKept(s: seq<Record>, u: string, gone: set<nat>, v: string)
    requires forall d :: d in gone ==> d < |s| && s[d].userId == u
    requires v != u
    ensures OfUser(Without(s, gone), v) == OfUser(s, v)
  {
    if s != [] {
      var n := |s| - 1;
      var init := s[..n];
      var gone' := gone - {n};
      forall d | d in gone' ensures d < |init| && init[d].userId == u { }
      WithoutOthersKept(init, u, gone', v);
      WithoutLast(s, gone);
      var w := Without(s, gone);
      if n in gone {
        assert w == Without(init, gone');
      } else {
        assert w[..|w| - 1] == Without(init, gone');
      }
    } else {
      assert gone == {};
    }
  }

  /** Deleting by index only looks at indexes inside the collection. */
  lemma {:induction false} WithoutIgnoresLater(s: seq<Record>, a: set<nat>, b: set<nat>)
    requires forall d :: d < |s| ==> (d in a <==> d in b)
    ensures Without(s, a) == Without(s, b)
  {
    if s != [] {
      WithoutIgnoresLater(s[..|s| - 1], a, b);
    }
  }

  /** Record `d` of the collection was stored before record `j` in the oldest-first order of
      a MongoDB sort on the timestamp: an earlier timestamp, or the same one and an earlier
      insertion. */
  predicate StoredBefore(s: seq<Record>, d: nat, j: nat)
    requires d < |s| && j < |s|
  {
    s[d].timestamp < s[j].timestamp || (s[d].timestamp == s[j].timestamp && d < j)
  }

  /** `after` is `before` with the oldest records of `user` deleted until at most `Limit` of
      theirs remain (`find(...).sort("timestamp", 1).limit(count - Limit)`, then
      `delete_many`): the deleted indexes are that many records of `user`, each stored before
      every record of `user` that is kept. */
  ghost predicate Retained(before: seq<Record>, after: seq<Record>, user: string)
  {
    exists gone: set<nat> :: RetainedBy(before, after, user, gone)
  }

  /** `after` is `before` with exactly the records at the indexes in `gone` deleted, and those
      are the oldest records of `user` beyond `Limit`. */
  predicate RetainedBy(before: seq<Record>, after: seq<Record>, user: string, gone: set<nat>)
  {
    && after == Without(before, gone)
    && |gone| == |OfUser(before, user)| - Min(|OfUser(before, user)|, Limit)
    && (forall d :: d in gone ==> d < |before| && before[d].userId == user)
    && (forall d, j :: d in gone && 0 <= j < |before| && j !in gone && before[j].userId == user
          ==> StoredBefore(before, d, j))
  }

  /** A record inserted last, stamped no earlier than any other record of its user, survives
      the retention step and stays last. */
  lemma NewestKept(s: seq<Record>, r: Record, after: seq<Record>)
    requires Retained(s + [r], after, r.userId)
    requires forall j :: 0 <= j < |s| && s[j].userId == r.userId ==> s[j].timestamp <= r.timestamp
    ensures after != [] && after[|after| - 1] == r
  {
    var b := s + [r];
    var gone: set<nat> :| RetainedBy(b, after, r.userId, gone);
    forall j | 0 <= j < |b| - 1 && b[j].userId == r.userId ensures b[j].timestamp <= r.timestamp {
      assert b[j] == s[j];
    }
    LastKept(b, r.userId, gone);
    WithoutLast(b, gone);
  }

  /** The retention step never deletes the last record when it belongs to the trimmed user and
      none of that user's records is newer. */
  lemma LastKept(b: seq<Record>, u: string, gone: set<nat>)
    requires b != [] && b[|b| - 1].userId == u
    requires forall j :: 0 <= j < |b| - 1 && b[j].userId == u ==> b[j].timestamp <= b[|b| - 1].timestamp
    requires RetainedBy(b, Without(b, gone), u, gone)
    ensures |b| - 1 !in gone
  {
    var n := |b| - 1;
    if n in gone {
      var count := |OfUser(b, u)|;
      assert |gone| >= 1;
      assert |gone| < count;
      WithoutOwnCount(b, u, gone);
      var k := KeptIndex(b, gone, u);
      assert false;
    }
  }

  /** A record of `u` that survives a deletion comes from an index that was not deleted. */
  lemma KeptIndex(s: seq<Record>, gone: set<nat>, u: string) returns (j: nat)
    requires |OfUser(Without(s, gone), u)| > 0
    ensures j < |s| && j !in gone && s[j].userId == u
  {
    var n := |s| - 1;
    WithoutLast(s, gone);
    if n !in gone && s[n].userId == u {
      j := n;
    } else {
      var w := Without(s, gone);
      var init := Without(s[..n], gone - {n});
      if n !in gone {
        assert w == init + [s[n]] && w[..|w| - 1] == init;
        assert OfUser(w, u) == OfUser(init, u);
      } else {
        assert w == init;
      }
      j := KeptIndex(s[..n], gone - {n}, u);
    }
  }

  /** The `mood_records` collection. */
  class RecordStore {
    var records: seq<Record>

    constructor ()
      ensures records == []
    {
      records := [];
    }

    /** `insert_one`. */
    method Insert(r: Record)
      modifies this
      ensures records == old(records) + [r]
    {
      records := records + [r];
    }

    /** The retention step after an insert for `user`: when the user has more than `Limit`
        records, the oldest of them are deleted until `Limit` remain. Other users' records
        are untouched, and every deleted record is older than every kept record of the user. */
    method Trim(user: string)
      modifies this
      ensures forall v :: v != user ==> OfUser(records, v) == OfUser(old(records), v)
      ensures |OfUser(records, user)| == Min(|OfUser(old(records), user)|, Limit)
      ensures Retained(old(records), records, user)
    {
      var count := |OfUser(records, user)|;
      if count > Limit {
        var idsToDelete := OldestOf(records, user, count - Limit);
        WithoutUserRecords(records, user, idsToDelete);
        assert RetainedBy(records, Without(records, idsToDelete), user, idsToDelete);
        if idsToDelete != {} {
          records := Without(records, idsToDelete);
        }
      } else {
        WithoutNothing(records);
        assert RetainedBy(records, records, user, {});
      }
    }

    /** A successful recommendation's history write: insert the record, then trim its
        user's history to their `Limit` newest records. Other users' records are untouched. */
    method InsertAndTrim(r: Record)
      modifies this
      ensures forall v :: v != r.userId ==> OfUser(records, v) == OfUser(old(records), v)
      ensures |OfUser(records, r.userId)| == Min(|OfUser(old(records), r.userId)| + 1, Limit)
      ensures Retained(old(records) + [r], records, r.userId)
    {
      ghost var before := records;
      Insert(r);
      assert records[..|records| - 1] == before;
      Trim(r.userId);
    }

    /** `get_history`: at most `Limit` of the user's records, newest first. Fewer than
        `Limit` of the user's records are newer than any record returned, and the records
        returned are distinct records of the collection. */
    method Recent(user: string) returns (page: seq<Record>)
      ensures |page| == Min(Limit, |OfUser(records, user)|)
      ensures forall k :: 0 <= k < |page| ==> page[k].userId == user
      ensures forall i, j :: 0 <= i < j < |page| ==> page[i].timestamp >= page[j].timestamp
      ensures forall k :: 0 <= k < |page| ==> CountNewer(OfUser(records, user), page[k].timestamp) < Limit
      ensures exists ids: seq<nat> ::
        && |ids| == |page|
        && (forall k :: 0 <= k < |ids| ==> ids[k] < |records| && records[ids[k]] == page[k])
        && (forall i, j :: 0 <= i < j < |ids| ==> ids[i] != ids[j])
    {
      var mine := Entries(records, user, true);
      var newestFirst := StableSort(mine);
      assert |newestFirst| == |multiset(newestFirst)| == |multiset(mine)| == |OfUser(records, user)|;
      var m := Min(Limit, |newestFirst|);
      page := [];
      ghost var ids: seq<nat> := [];
      var i := 0;
      while i < m
        invariant 0 <= i <= m
        invariant |page| == |ids| == i
        invariant forall k :: 0 <= k < i ==> page[k] == newestFirst[k].item && ids[k] == newestFirst[k].pos
      {
        page := page + [newestFirst[i].item];
        ids := ids + [newestFirst[i].pos];
        i := i + 1;
      }
      forall k | 0 <= k < m
        ensures ids[k] < |records| && records[ids[k]] == page[k] && page[k].userId == user
        ensures page[k].timestamp == -newestFirst[k].weight
        ensures CountNewer(OfUser(records, user), page[k].timestamp) < Limit
      {
        NewestEntry(records, user, newestFirst, k);
      }
      forall i, j | 0 <= i < j < m ensures ids[i] != ids[j] {
        DistinctPositionsKept(mine, newestFirst, i, j);
      }
    }
  }

  /** The record at rank `k < Limit` of `u`'s records sorted newest first is a record of `u`
      at its index, and fewer than `Limit` of `u`'s records are newer than it. */
  lemma NewestEntry(s: seq<Record>, u: string, sorted: seq<Ranked<Record>>, k: nat)
    requires Ascending(sorted) && multiset(sorted) == multiset(Entries(s, u, true))
    requires k < Limit && k < |sorted|
    ensures sorted[k].pos < |s| && s[sorted[k].pos] == sorted[k].item && sorted[k].item.userId == u
    ensures sorted[k].item.timestamp == -sorted[k].weight
    ensures CountNewer(OfUser(s, u), sorted[k].item.timestamp) < Limit
  {
    var t := sorted[k].item.timestamp;
    InEntries(s, u, true, sorted, k);
    TopPick(Entries(s, u, true), sorted, Limit, k);
    FewNewer(s, u, sorted[k].weight, t, Limit);
  }

  lemma FewNewer(s: seq<Record>, u: string, w: real, t: real, n: nat)
    requires w == -t && CountLighter(Entries(s, u, true), w) < n
    ensures CountNewer(OfUser(s, u), t) < n
  {
    NewerAreLighter(s, u, t);
  }

  /** The indexes of the `n` oldest records of `user`
      (`find({"user_id": user}).sort("timestamp", 1).limit(n)`): every one of them was stored
      before every record of `user` left out. */
  method OldestOf(records: seq<Record>, user: string, n: nat) returns (gone: set<nat>)
    requires n <= |OfUser(records, user)|
    ensures |gone| == n
    ensures forall d :: d in gone ==> d < |records| && records[d].userId == user
    ensures forall d, j :: d in gone && 0 <= j < |records| && j !in gone && records[j].userId == user
              ==> StoredBefore(records, d, j)
  {
    var mine := Entries(records, user, false);
    var oldestFirst := StableSort(mine);
    assert |oldestFirst| == |multiset(oldestFirst)| == |multiset(mine)| == |OfUser(records, user)|;
    gone := {};
    var i := 0;
    while i < n
      invariant 0 <= i <= n
      invariant gone == set k | 0 <= k < i :: oldestFirst[k].pos
      invariant |gone| == i
    {
      forall k | 0 <= k < i ensures oldestFirst[k].pos != oldestFirst[i].pos {
        DistinctPositionsKept(mine, oldestFirst, k, i);
      }
      gone := gone + {oldestFirst[i].pos};
      i := i + 1;
    }
    OldestAreUsers(records, user, oldestFirst, n, gone);
    OldestStoredBefore(records, user, oldestFirst, n, gone);
  }

  /** The positions of the first `n` of `u`'s entries sorted are indexes of records of `u`. */
  lemma OldestAreUsers(s: seq<Record>, u: string, sorted: seq<Ranked<Record>>, n: nat, gone: set<nat>)
    requires multiset(sorted) == multiset(Entries(s, u, false)) && n <= |sorted|
    requires gone == set k | 0 <= k < n :: sorted[k].pos
    ensures forall d :: d in gone ==> d < |s| && s[d].userId == u
  {
    forall d | d in gone ensures d < |s| && s[d].userId == u {
      var k :| 0 <= k < n && sorted[k].pos == d;
      InEntries(s, u, false, sorted, k);
    }
  }

  /** The positions of the first `n` of `u`'s entries sorted oldest first are indexes of
      records stored before every other record of `u`. */
  lemma OldestStoredBefore(s: seq<Record>, u: string, sorted: seq<Ranked<Record>>, n: nat, gone: set<nat>)
    requires multiset(sorted) == multiset(Entries(s, u, false)) && Ascending(sorted) && n <= |sorted|
    requires gone == set k | 0 <= k < n :: sorted[k].pos
    requires forall d :: d in gone ==> d < |s|
    ensures forall d, j :: d in gone && 0 <= j < |s| && j !in gone && s[j].userId == u ==> StoredBefore(s, d, j)
  {
    forall d, j | d in gone && 0 <= j < |s| && j !in gone && s[j].userId == u
      ensures StoredBefore(s, d, j)
    {
      var k :| 0 <= k < n && sorted[k].pos == d;
      forall m | 0 <= m < n ensures sorted[m].pos != j {
        assert sorted[m].pos in gone;
      }
      OlderDeleted(s, u, sorted, n, k, j);
    }
  }

  lemma {:induction false} WithoutNothing(s: seq<Record>)
    ensures Without(s, {}) == s
  {
    if s != [] {
      WithoutNothing(s[..|s| - 1]);
    }
  }

  /** An entry of a sorted permutation of `u`'s entries is a record of `u` at its index,
      carrying that record's key. */
  lemma InEntries(s: seq<Record>, u: string, newestFirst: bool, sorted: seq<Ranked<Record>>, k: nat)
    requires multiset(sorted) == multiset(Entries(s, u, newestFirst)) && k < |sorted|
    ensures sorted[k].pos < |s| && s[sorted[k].pos] == sorted[k].item && sorted[k].item.userId == u
    ensures sorted[k].weight == Key(sorted[k].item, newestFirst)
  {
    var e := Entries(s, u, newestFirst);
    assert sorted[k] in multiset(e);
    var p :| 0 <= p < |e| && e[p] == sorted[k];
    EntryAt(s, u, newestFirst, p);
  }

  /** Among `u`'s records sorted oldest first, one taken from the first `n` was stored before
      any record of `u` whose index is not among the first `n`. */
  lemma OlderDeleted(s: seq<Record>, u: string, sorted: seq<Ranked<Record>>, n: nat, k: nat, j: nat)
    requires multiset(sorted) == multiset(Entries(s, u, false)) && Ascending(sorted)
    requires k < n <= |sorted|
    requires j < |s| && s[j].userId == u
    requires forall m :: 0 <= m < n ==> sorted[m].pos != j
    ensures sorted[k].pos < |s| && StoredBefore(s, sorted[k].pos, j)
  {
    var e := Entries(s, u, false);
    EntryFor(s, u, false, j);
    var p :| 0 <= p < |e| && e[p].pos == j;
    assert e[p] in multiset(sorted);
    var m :| 0 <= m < |sorted| && sorted[m] == e[p];
    InEntries(s, u, false, sorted, k);
    InEntries(s, u, false, sorted, m);
    assert m >= n;
    DistinctPositionsKept(e, sorted, k, m);
  }
}
