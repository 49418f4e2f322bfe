/** The recommend handler (app.py:136-260) put together from the pieces: token, search
    plan, fallback ladder, selection, history write and the response's status.

    Everything the handler gets from outside is a parameter: the clock, the token exchange's
    outcome, the catalog's search and audio-features replies, the two `random.randint(0, 50)`
    draws, `random.choice` (a chooser) and the record's timestamp. */
module Recommend {
  import opened Wrappers
  import opened Catalog
  import opened Query
  import opened Fallback
  import opened Scoring
  import opened TokenCache
  import opened History

  /** The JSON body; a field that is absent is `None`. */
  datatype RecommendRequest = RecommendRequest(
    userId: Option<string>,
    valence: Option<real>,
    arousal: Option<real>,
    genre: Option<string>,
    text: Option<string>)

  /** The handler's answer: a track (200), "No tracks found" (404) or a server error (500). */
  datatype Response = Recommended(pick: Pick) | NoTracks | ServerError

  /** A token the handler accepts: present and not empty (`if not token`). */
  predicate UsableToken(t: Option<string>)
  {
    t.Some? && t.value != ""
  }

  /** The mood valence, defaulting to 0.5. */
  function TargetValence(req: RecommendRequest): real
  {
    req.valence.GetOr(0.5)
  }

  /** The mood arousal (the target energy), defaulting to 0.5. */
  function TargetEnergy(req: RecommendRequest): real
  {
    req.arousal.GetOr(0.5)
  }

  function GenreOf(req: RecommendRequest): string
  {
    req.genre.GetOr("All")
  }

  function TextOf(req: RecommendRequest): string
  {
    Strip(req.text.GetOr(""))
  }

  /** The history record of a recommendation, when one can be built: the handler indexes the
      first artist and the first album image, and a missing one raises inside the history
      write's `try`, so nothing is written. */
  function HistoryRecord(user: string, req: RecommendRequest, t: Track, timestamp: real): (r: Option<Record>)
    ensures r.Some? <==> t.artists != [] && t.albumImages != []
    ensures r.Some? ==>
              && r.value.userId == user && r.value.songName == t.name
              && r.value.artist == t.artists[0] && r.value.imageUrl == t.albumImages[0]
              && r.value.moodTag == (if GenreOf(req) != "All" then GenreOf(req) else "General")
              && r.value.userInput == (if TextOf(req) != "" then TextOf(req) else "Slider Mode")
  {
    if t.artists == [] || t.albumImages == [] then None
    else
      Some(Record(
        user,
        if TextOf(req) != "" then TextOf(req) else "Slider Mode",
        if GenreOf(req) != "All" then GenreOf(req) else "General",
        TargetValence(req), TargetEnergy(req),
        t.name, t.artists[0], t.albumImages[0], t.spotifyUrl, timestamp))
  }

  /** A pick the handler may make from the found tracks: free-text mode's pick, or a pick slider
      mode's selection allows when the audio-features call answered. */
  ghost predicate Chosen(req: RecommendRequest, tracks: seq<Track>, featureReply: Option<FeatureMap>,
                         choose: nat -> nat, p: Pick)
  {
    && tracks != [] && ValidChooser(choose)
    && if TextOf(req) != "" then p == PickForText(tracks, featureReply, choose)
       else featureReply.Some? && MoodPick(tracks, featureReply.value, TargetValence(req), TargetEnergy(req), p)
  }

  /** The history after recommending `t`: for a request with a user id and a track that has
      an artist and an album image, the record is inserted and the user's history trimmed to
      its newest `Limit` records; otherwise the history is unchanged. */
  ghost predicate HistoryWritten(before: seq<Record>, after: seq<Record>, req: RecommendRequest, t: Track,
                                 timestamp: real)
  {
    var rec := if req.userId.Some? && req.userId.value != "" then HistoryRecord(req.userId.value, req, t, timestamp)
               else None;
    if rec.Some? then Retained(before + [rec.value], after, rec.value.userId) else after == before
  }

  /** `spotify_recommend`. `now` and `later` are the token getter's two clock readings;
      `featureReply` is the audio-features reply as a map from track id (`None` when that call
      raised). */
  method SpotifyRecommend(
    cache: SpotifyTokenCache, store: RecordStore, req: RecommendRequest,
    now: real, later: real, tokenFetch: TokenFetch,
    search: (string, int) -> SearchReply, featureReply: Option<FeatureMap>,
    drawnOffset: int, genreOffset: int, choose: nat -> nat, timestamp: real)
    returns (resp: Response)
    requires 0 <= drawnOffset <= 50 && 0 <= genreOffset <= 50 && ValidChooser(choose)
    modifies cache, store
    ensures cache.Entry() == Refresh(old(cache.Entry()), now, later, tokenFetch).entry
    ensures !UsableToken(Refresh(old(cache.Entry()), now, later, tokenFetch).token) ==>
              resp == ServerError && store.records == old(store.records)
    ensures var plan := PlanSearch(TextOf(req), GenreOf(req), TargetValence(req), TargetEnergy(req), drawnOffset);
      var found := FirstFound(search, Attempts(plan, GenreOf(req), genreOffset));
      UsableToken(Refresh(old(cache.Entry()), now, later, tokenFetch).token) ==>
        && (found.NotFound? ==> resp == NoTracks && store.records == old(store.records))
        && (found.SearchFailed? ==> resp == ServerError && store.records == old(store.records))
        && (found.Found? && TextOf(req) == "" && featureReply.None? ==>
              resp == ServerError && store.records == old(store.records))
        && (resp.Recommended? ==>
              found.Found? && resp.pick.track in found.tracks && resp.pick.track.albumImages != [])
        && (found.Found? && (TextOf(req) != "" || featureReply.Some?) ==>
              exists p: Pick ::
                && Chosen(req, found.tracks, featureReply, choose, p)
                && resp == (if p.track.albumImages != [] then Recommended(p) else ServerError)
                && HistoryWritten(old(store.records), store.records, req, p.track, timestamp))
    ensures forall v :: (req.userId.None? || v != req.userId.value) ==>
              OfUser(store.records, v) == OfUser(old(store.records), v)
  {
    var token := cache.GetToken(now, later, tokenFetch);
    if !UsableToken(token) {
      return ServerError;
    }

    var targetValence := TargetValence(req);
    var targetEnergy := TargetEnergy(req);
    var genreUi := GenreOf(req);
    var customText := TextOf(req);
    var plan := PlanSearch(customText, genreUi, targetValence, targetEnergy, drawnOffset);

    var found := SearchWithFallback(search, plan, genreUi, genreOffset);
    if found.SearchFailed? {
      return ServerError;
    }
    if found.NotFound? {
      return NoTracks;
    }

    resp := RespondWith(store, req, found.tracks, featureReply, choose, timestamp);
  }

  /** The part of `spotify_recommend` after the search found tracks: the pick, the history
      write for a request with a user id, and the response, which needs the pick's first album
      image. In slider mode a raised audio-features call ends in a server error. */
  method RespondWith(
    store: RecordStore, req: RecommendRequest, tracks: seq<Track>, featureReply: Option<FeatureMap>,
    choose: nat -> nat, timestamp: real)
    returns (resp: Response)
    requires tracks != [] && ValidChooser(choose)
    modifies store
    ensures TextOf(req) == "" && featureReply.None? ==> resp == ServerError && store.records == old(store.records)
    ensures resp.Recommended? ==> resp.pick.track in tracks && resp.pick.track.albumImages != []
    ensures TextOf(req) != "" || featureReply.Some? ==>
              exists p: Pick ::
                && Chosen(req, tracks, featureReply, choose, p)
                && resp == (if p.track.albumImages != [] then Recommended(p) else ServerError)
                && HistoryWritten(old(store.records), store.records, req, p.track, timestamp)
    ensures forall v :: (req.userId.None? || v != req.userId.value) ==>
              OfUser(store.records, v) == OfUser(old(store.records), v)
  {
    var best: Pick;
    if TextOf(req) != "" {
      best := PickForText(tracks, featureReply, choose);
    } else {
      if featureReply.None? {
        return ServerError;
      }
      best := SelectByMood(tracks, featureReply.value, TargetValence(req), TargetEnergy(req), choose);
    }

    assert Chosen(req, tracks, featureReply, choose, best);
    if req.userId.Some? && req.userId.value != "" {
      var record := HistoryRecord(req.userId.value, req, best.track, timestamp);
      if record.Some? {
        store.InsertAndTrim(record.value);
      }
    }
    assert HistoryWritten(old(store.records), store.records, req, best.track, timestamp);

    if best.track.albumImages == [] {
      return ServerError;
    }
    return Recommended(best);
  }
}
