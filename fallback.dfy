/** The search fallback ladder of the recommend handler (app.py:167-189): the primary search,
    then up to three retries, stopping at the first search that returns tracks. */
module Fallback {
  import opened Catalog
  import opened Query

  /** What one catalog search call yields: a 200 reply with its items (empty when the reply
      lacks them), a reply with another status, or an exception from the HTTP call or from
      decoding the reply. */
  datatype SearchReply = Status200(items: seq<Track>) | OtherStatus | Raised

  /** The tracks the handler takes from a reply that did not raise. */
  function Items(reply: SearchReply): (ts: seq<Track>)
    requires !reply.Raised?
    ensures ts != [] ==> reply.Status200?
  {
    if reply.Status200? then reply.items else []
  }

  /** A reply that neither raised nor carried tracks: the ladder goes on to its next step. */
  predicate Empty(reply: SearchReply)
  {
    reply.OtherStatus? || (reply.Status200? && reply.items == [])
  }

  /** The end of the ladder: the tracks of the first search that found any, "no tracks
      found" (404) when every search came back empty, or a server error (500) when a search
      raised before any found tracks. */
  datatype SearchOutcome = Found(tracks: seq<Track>) | NotFound | SearchFailed

  /** The searches the ladder makes, in order, with the guards of its optional steps applied:
      the primary search; the same query from offset 0, when the primary offset was not 0; the
      bare genre filter from `genreOffset`, when the genre is known; and "Pop" from offset 0. */
  function Attempts(plan: SearchPlan, genreUi: string, genreOffset: int): (a: seq<SearchPlan>)
    ensures 2 <= |a| <= 4
    ensures a[0] == plan && a[|a| - 1] == SearchPlan("Pop", 0)
    ensures plan.offset > 0 ==> a[1] == SearchPlan(plan.query, 0)
    ensures genreUi in GenreMapping ==> SearchPlan("genre:" + GenreMapping[genreUi], genreOffset) in a
    ensures plan.offset <= 0 && genreUi !in GenreMapping ==> |a| == 2
  {
    [plan]
    + (if plan.offset > 0 then [SearchPlan(plan.query, 0)] else [])
    + (match GenreTag(genreUi)
       case Some(tag) => [SearchPlan("genre:" + tag, genreOffset)]
       case None => [])
    + [SearchPlan("Pop", 0)]
  }

  /** The reference semantics of the ladder: walk the searches in order and stop at the first
      that raised or found tracks. */
  function FirstFound(search: (string, int) -> SearchReply, attempts: seq<SearchPlan>): (o: SearchOutcome)
    ensures o.Found? ==> o.tracks != []
    ensures o.NotFound? ==> forall k :: 0 <= k < |attempts| ==> Empty(search(attempts[k].query, attempts[k].offset))
  {
    if attempts == [] then NotFound
    else
      var reply := search(attempts[0].query, attempts[0].offset);
      if reply.Raised? then SearchFailed
      else if Items(reply) != [] then Found(Items(reply))
      else FirstFound(search, attempts[1..])
  }

  /** Search `k` of the ladder returned `tracks`, which are not empty, and every earlier search
      came back empty. */
  predicate FoundAt(search: (string, int) -> SearchReply, attempts: seq<SearchPlan>, k: nat, tracks: seq<Track>)
  {
    && k < |attempts|
    && search(attempts[k].query, attempts[k].offset) == Status200(tracks) && tracks != []
    && forall m :: 0 <= m < k ==> Empty(search(attempts[m].query, attempts[m].offset))
  }

  /** Found tracks are those of some search, and every earlier search came back empty;
      and conversely. */
  lemma FoundIsFirstNonEmpty(search: (string, int) -> SearchReply, attempts: seq<SearchPlan>, tracks: seq<Track>)
    ensures FirstFound(search, attempts) == Found(tracks) <==> exists k :: FoundAt(search, attempts, k, tracks)
  {
    if FirstFound(search, attempts) == Found(tracks) {
      var k := FoundWitness(search, attempts, tracks);
    }
    if exists k :: FoundAt(search, attempts, k, tracks) {
      var k :| FoundAt(search, attempts, k, tracks);
      FoundFromWitness(search, attempts, k, tracks);
    }
  }

  /** The search whose tracks the ladder reports. */
  lemma {:induction false} FoundWitness(search: (string, int) -> SearchReply, attempts: seq<SearchPlan>, tracks: seq<Track>)
    returns (k: nat)
    requires FirstFound(search, attempts) == Found(tracks)
    ensures FoundAt(search, attempts, k, tracks)
  {
    var reply := search(attempts[0].query, attempts[0].offset);
    if reply.Status200? && reply.items != [] {
      k := 0;
    } else {
      var k' := FoundWitness(search, attempts[1..], tracks);
      k := k' + 1;
      forall m | 0 <= m < k ensures Empty(search(attempts[m].query, attempts[m].offset)) {
        if m > 0 {
          assert attempts[m] == attempts[1..][m - 1];
        }
      }
      assert attempts[k] == attempts[1..][k'];
    }
  }

  /** A search that found tracks after only empty ones is the one the ladder reports. */
  lemma {:induction false} FoundFromWitness(search: (string, int) -> SearchReply, attempts: seq<SearchPlan>, k: nat, tracks: seq<Track>)
    requires FoundAt(search, attempts, k, tracks)
    ensures FirstFound(search, attempts) == Found(tracks)
  {
    if k > 0 {
      assert Empty(search(attempts[0].query, attempts[0].offset));
      forall m | 0 <= m < k - 1
        ensures Empty(search(attempts[1..][m].query, attempts[1..][m].offset))
      {
        assert attempts[1..][m] == attempts[m + 1];
      }
      assert attempts[1..][k - 1] == attempts[k];
      FoundFromWitness(search, attempts[1..], k - 1, tracks);
    }
  }

  /** "No tracks found" is reported exactly when every search of the ladder came back empty. */
  lemma {:induction false} NotFoundIffAllEmpty(search: (string, int) -> SearchReply, attempts: seq<SearchPlan>)
    ensures FirstFound(search, attempts) == NotFound <==>
      forall k :: 0 <= k < |attempts| ==> Empty(search(attempts[k].query, attempts[k].offset))
  {
    if attempts != [] {
      NotFoundIffAllEmpty(search, attempts[1..]);
      assert forall k :: 1 <= k < |attempts| ==> attempts[k] == attempts[1..][k - 1];
    }
  }

  /** Before "no tracks found" is reported, the generic "Pop" search has been made: if the
      primary search (and its offset-0 retry, when there is one) came back empty and the genre
      is not a known one, the outcome is that of the "Pop" search alone. */
  lemma PopIsLastResort(search: (string, int) -> SearchReply, plan: SearchPlan, genreUi: string, genreOffset: int)
    requires genreUi !in GenreMapping
    requires Empty(search(plan.query, plan.offset))
    requires plan.offset > 0 ==> Empty(search(plan.query, 0))
    ensures FirstFound(search, Attempts(plan, genreUi, genreOffset)) == FirstFound(search, [SearchPlan("Pop", 0)])
  {
    var a := Attempts(plan, genreUi, genreOffset);
    if plan.offset > 0 {
      assert a == [plan, SearchPlan(plan.query, 0), SearchPlan("Pop", 0)];
      assert a[1..][1..] == [SearchPlan("Pop", 0)];
    } else {
      assert a == [plan, SearchPlan("Pop", 0)];
      assert a[1..] == [SearchPlan("Pop", 0)];
    }
  }

  /** The ladder as the handler runs it: each step searches again only while no tracks have
      been found and its own guard holds. `genreOffset` is the value the genre step's
      `random.randint(0, 50)` produced. */
  method SearchWithFallback(search: (string, int) -> SearchReply, plan: SearchPlan, genreUi: string, genreOffset: int)
    returns (o: SearchOutcome)
    requires 0 <= genreOffset <= 50
    ensures o == FirstFound(search, Attempts(plan, genreUi, genreOffset))
  {
    ghost var all := Attempts(plan, genreUi, genreOffset);
    ghost var pending := all;
    var query, offset := plan.query, plan.offset;
    var reply := search(query, offset);
    if reply.Raised? { return SearchFailed; }
    var tracks := Items(reply);
    pending := pending[1..];
    assert tracks != [] ==> FirstFound(search, all) == Found(tracks);
    assert tracks == [] ==> FirstFound(search, all) == FirstFound(search, pending);

    if tracks == [] && plan.offset > 0 {
      offset := 0;
      assert pending[0] == SearchPlan(query, offset);
      reply := search(query, offset);
      if reply.Raised? { return SearchFailed; }
      tracks := Items(reply);
      pending := pending[1..];
      assert tracks != [] ==> FirstFound(search, all) == Found(tracks);
      assert tracks == [] ==> FirstFound(search, all) == FirstFound(search, pending);
    }

    if tracks == [] && genreUi != "All" && genreUi in GenreMapping {
      query, offset := "genre:" + GenreMapping[genreUi], genreOffset;
      assert pending[0] == SearchPlan(query, offset);
      reply := search(query, offset);
      if reply.Raised? { return SearchFailed; }
      tracks := Items(reply);
      pending := pending[1..];
      assert tracks != [] ==> FirstFound(search, all) == Found(tracks);
      assert tracks == [] ==> FirstFound(search, all) == FirstFound(search, pending);
    }

    if tracks == [] {
      query, offset := "Pop", 0;
      assert pending == [SearchPlan(query, offset)];
      reply := search(query, offset);
      if reply.Raised? { return SearchFailed; }
      tracks := Items(reply);
      assert pending[1..] == [];
      assert tracks == [] ==> FirstFound(search, all) == FirstFound(search, pending[1..]);
    }

    if tracks == [] { return NotFound; }
    return Found(tracks);
  }
}
