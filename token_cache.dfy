/** The process-wide access-token cache of the catalog client (app.py:55-74).

    The clock (`time.time()`) is read twice by a call that goes out to the endpoint: `now` for
    the expiry test and `later`, after the exchange, for the new expiry; both are in seconds.
    The token exchange is an abstract outcome: a 200 reply carrying a token and possibly its
    lifetime, a 200 reply whose lifetime cannot be added to the clock, a reply with another
    status, or an exception. */
module TokenCache {
  import opened Wrappers

  /** Lifetime assumed when the reply declares none, in seconds. */
  const DefaultLifetime: int := 3600

  /** Seconds taken off the declared lifetime, so a token is renewed before it runs out. */
  const SafetyMargin: real := 60.0

  /** The two fields of the cache. */
  datatype CacheEntry = CacheEntry(accessToken: Option<string>, expiresAt: real)

  /** The cache when the process starts: no token, expired since time 0. */
  const InitialEntry := CacheEntry(None, 0.0)

  /** The outcome of one token exchange. `LifetimeRaised` is a 200 reply carrying a token whose
      `expires_in` is not a number (a JSON `null`, say): the token is stored, then computing the
      expiry raises. `Raised` covers every exception before the token is stored (the request,
      the JSON decoding, a missing `access_token`). */
  datatype TokenFetch =
    | Granted(token: string, expiresIn: Option<int>)
    | LifetimeRaised(token: string)
    | Non200
    | Raised

  /** One call of the token getter: the cache afterwards, the token returned (none on
      failure), and whether the call went out to the token endpoint. */
  datatype Lookup = Lookup(entry: CacheEntry, token: Option<string>, fetched: bool)

  /** The token getter with the exchange posted to the token endpoint. A live entry (by the
      reading `now`) answers without a request. Otherwise one request is made: a granted token
      is cached until the reading `later` plus its lifetime less the safety margin; a token
      whose lifetime raises is stored with the old expiry and nothing is returned; any other
      outcome returns nothing and leaves the cache as it was. */
  function Refresh(c: CacheEntry, now: real, later: real, fetch: TokenFetch): (r: Lookup)
    ensures now < c.expiresAt ==> r == Lookup(c, c.accessToken, false)
    ensures now >= c.expiresAt ==> r.fetched
    ensures now >= c.expiresAt && fetch.Granted? ==>
              && r.token == Some(fetch.token)
              && r.entry.accessToken == r.token
              && r.entry.expiresAt == later + fetch.expiresIn.GetOr(DefaultLifetime) as real - SafetyMargin
    ensures now >= c.expiresAt && fetch.LifetimeRaised? ==>
              r.entry == CacheEntry(Some(fetch.token), c.expiresAt) && r.token == None
    ensures now >= c.expiresAt && (fetch.Non200? || fetch.Raised?) ==> r.entry == c && r.token == None
  {
    if now < c.expiresAt then Lookup(c, c.accessToken, false)
    else
      match fetch
      case Granted(token, expiresIn) =>
        var expiresAt := later + expiresIn.GetOr(DefaultLifetime) as real - SafetyMargin;
        Lookup(CacheEntry(Some(token), expiresAt), Some(token), true)
      case LifetimeRaised(token) => Lookup(CacheEntry(Some(token), c.expiresAt), None, true)
      case Non200 => Lookup(c, None, true)
      case Raised => Lookup(c, None, true)
  }

  /** The token getter as written: the exchange posts to `url`, a name that is not defined
      (the endpoint is bound to `TOKEN_URL`), so evaluating the call raises `NameError` before
      any request is sent. The handler catches it and returns nothing, leaving the cache as
      it was. */
  function RefreshAsWritten(c: CacheEntry, now: real): (r: Lookup)
    ensures !r.fetched && r.entry == c
    ensures r.token == (if now < c.expiresAt then c.accessToken else None)
  {
    if now < c.expiresAt then Lookup(c, c.accessToken, false)
    else Lookup(c, None, false)
  }

  /** A cache that holds no token is expired from time 0 on. */
  predicate Consistent(c: CacheEntry)
  {
    c.accessToken == None ==> c.expiresAt <= 0.0
  }

  /** Every call keeps the cache consistent. */
  lemma RefreshKeepsConsistent(c: CacheEntry, now: real, later: real, fetch: TokenFetch)
    requires Consistent(c) && now >= 0.0
    ensures Consistent(Refresh(c, now, later, fetch).entry)
  {
  }

  /** With a consistent cache and a clock past time 0, a call returns no token exactly when it
      went out to the endpoint and the exchange failed. */
  lemma NoTokenOnlyOnFailedFetch(c: CacheEntry, now: real, later: real, fetch: TokenFetch)
    requires Consistent(c) && now >= 0.0
    ensures var r := Refresh(c, now, later, fetch);
      r.token == None <==> r.fetched && !fetch.Granted?
  {
  }

  /** After a token is granted by a call that read the clock as `t0` and then `t0'`, every
      later call before the cached expiry gets that token without a request, whatever the
      endpoint would have answered; the first call at or after it makes exactly one. */
  lemma GrantedTokenIsReused(
    c: CacheEntry, t0: real, t0': real, token: string, lifetime: int, t1: real, t1': real, next: TokenFetch)
    requires t0 >= c.expiresAt
    ensures var first := Refresh(c, t0, t0', Granted(token, Some(lifetime)));
      var second := Refresh(first.entry, t1, t1', next);
      && first.fetched
      && (t1 < t0' + lifetime as real - SafetyMargin ==> second == Lookup(first.entry, Some(token), false))
      && (t1 >= t0' + lifetime as real - SafetyMargin ==> second.fetched)
  {
  }

  /** The tokens a sequence of calls to the as-written getter returns, one per clock reading. */
  function TokensAsWritten(c: CacheEntry, times: seq<real>): (ts: seq<Option<string>>)
    ensures |ts| == |times|
  {
    if times == [] then []
    else
      var r := RefreshAsWritten(c, times[0]);
      [r.token] + TokensAsWritten(r.entry, times[1..])
  }

  /** As written, the cache starts expired and can never be filled: every call, at any time
      from 0 on, returns no token, so every recommendation fails with a token error. */
  lemma {:induction false} AsWrittenNeverYieldsToken(times: seq<real>)
    requires forall k :: 0 <= k < |times| ==> times[k] >= 0.0
    ensures forall k :: 0 <= k < |times| ==> TokensAsWritten(InitialEntry, times)[k] == None
  {
    if times != [] {
      AsWrittenNeverYieldsToken(times[1..]);
      assert RefreshAsWritten(InitialEntry, times[0]).entry == InitialEntry;
      var ts := TokensAsWritten(InitialEntry, times);
      forall k | 0 <= k < |times| ensures ts[k] == None {
        if k > 0 {
          assert ts[k] == TokensAsWritten(InitialEntry, times[1..])[k - 1];
        }
      }
    }
  }

  /** With the exchange posted to the token endpoint, the first call of the process gets the
      granted token. */
  lemma FirstCallObtainsToken(now: real, later: real, token: string, expiresIn: Option<int>)
    requires now >= 0.0
    ensures Refresh(InitialEntry, now, later, Granted(token, expiresIn)).token == Some(token)
  {
  }

  /** The cache object shared by all requests. */
  class SpotifyTokenCache {
    var accessToken: Option<string>
    var expiresAt: real

    function Entry(): CacheEntry
      reads this
    {
      CacheEntry(accessToken, expiresAt)
    }

    constructor ()
      ensures Entry() == InitialEntry
    {
      accessToken := None;
      expiresAt := 0.0;
    }

    /** `get_spotify_token` with the request sent to the token endpoint. */
    method GetToken(now: real, later: real, fetch: TokenFetch) returns (token: Option<string>)
      modifies this
      ensures var r := Refresh(old(Entry()), now, later, fetch);
        Entry() == r.entry && token == r.token
    {
      if now < expiresAt {
        return accessToken;
      }
      match fetch
      case Non200 =>
        return None;
      case Raised =>
        return None;
      case LifetimeRaised(t) =>
        accessToken := Some(t);
        return None;
      case Granted(t, expiresIn) =>
        accessToken := Some(t);
        expiresAt := later + expiresIn.GetOr(DefaultLifetime) as real - SafetyMargin;
        return Some(t);
    }

    /** `get_spotify_token` as written: past the cached expiry the request raises before it
      is sent, and the exception handler returns nothing. */
    method GetTokenAsWritten(now: real) returns (token: Option<string>)
      ensures var r := RefreshAsWritten(Entry(), now);
        token == r.token
    {
      if now < expiresAt {
        return accessToken;
      }
      return None;
    }
  }
}
