# Moodify backend: recommendation core in Dafny

The Moodify backend turns a mood into one music track. A mood is a point (valence, arousal) in [0,1]², optionally with free text or a genre. The backend gets the track from the Spotify catalog and keeps a bounded per-user history of recommendations. This project models the logic inside `app.py` and proves properties of it:

- **Token cache** (`token_cache.dfy`): the process-wide `spotify_token_cache`, with its two fields `access_token` and `expires_at`. It is a class whose getter is proved against a pure transition function `Refresh`. The token exchange at line 64 posts to an undefined name. That path is modelled as written (`RefreshAsWritten`) and as intended (`Refresh`); see Findings.
- **Query builder** (`query.dfy`): Python's `str.strip`, the mood keyword ladder (0.4/0.6 thresholds), `GENRE_MAPPING`, and the primary query and offset.
- **Fallback ladder** (`fallback.dfy`): the sequence of searches that ends at the first search returning tracks. It is proved equal to a reference walk over an explicit list of attempts.
- **Scorer and selector** (`scoring.dfy`, `sorting.dfy`): the scoring loop, the stable sort by distance, and a random pick among the five closest, with the fallbacks to the first five search results.
- **History** (`history.dfy`): the `mood_records` collection as a class holding a sequence. Insert, trim to the 40 newest records per user, and the newest-first read of up to 40.
- **Handler** (`recommend.dfy`): `spotify_recommend` put together from these pieces, with its 200/404/500 outcomes.

Everything external is a parameter:

- the clock (`time.time()`, `datetime.now()`);
- the outcome of the token exchange;
- the catalog's search replies, as a function from (query, offset) to a reply;
- the catalog's audio-features reply, as a map from track id to features;
- the two `random.randint(0, 50)` draws, as integers in [0, 50];
- `random.choice`, as a chooser `choose: nat -> nat` that returns an index below any positive count it is given.

Every proved property therefore holds for every outcome of the random draws.

The query builder follows `app.py` as it stands. It appends ` genre:<tag>` to the free text or mood keyword, and draws its offsets from [0,50] (app.py:154-160, 179). Another revision of this query builder searched a genre as `genre:<tag> year:2020-2025` with an offset in [0,10]; that form is not modelled.

## Model

| member | source | states |
|---|---|---|
| `Query.Strip` | app.py:146 | the stripped text is the slice of the input between two all-whitespace margins, neither starts nor ends with whitespace, and is empty exactly when the input is all whitespace (Python's `isspace` set) |
| `Query.MoodKeyword` | app.py:76-79 | "sad" iff valence<0.4 and arousal<0.4; "angry" iff valence<0.4 and arousal≥0.4; "chill" iff valence>0.6 and arousal<0.4; "party" iff valence>0.6 and arousal≥0.4; "pop" iff 0.4≤valence≤0.6 (boundaries included) |
| `Query.GenreTag` | app.py:81-85 | a catalog tag exists exactly for the keys of the genre table (the extra `!= "All"` test is redundant), and it is the table's value |
| `Query.PlanSearch` | app.py:146-160 | free text gives offset 0; otherwise the offset is the drawn value in [0,50]; the query is the text or mood keyword, followed by ` genre:<tag>` exactly when the genre is a key of the table |
| `Fallback.Items` | app.py:169 | tracks are only taken from a 200 reply; any other status gives none |
| `Fallback.Attempts` | app.py:167-187 | the searches in order: first the primary; then the same query at offset 0 only when the primary offset is positive; then `genre:<tag>` at the drawn offset for a known genre; "Pop" at offset 0 is always last |
| `Fallback.FirstFound` | app.py:167-189 | found tracks are never empty; "not found" only when every search came back empty |
| `Fallback.FoundIsFirstNonEmpty` | app.py:167-189 | the found tracks are those of some search whose earlier searches all came back empty, and conversely |
| `Fallback.FoundWitness` | app.py:167-189 | tracks the ladder reports are those of one of its searches, after only empty ones |
| `Fallback.FoundFromWitness` | app.py:167-189 | a search that found tracks after only empty ones decides the ladder's outcome |
| `Fallback.NotFoundIffAllEmpty` | app.py:189 | the 404 outcome happens exactly when every search of the ladder came back empty |
| `Fallback.PopIsLastResort` | app.py:183-189 | with no known genre, once the primary search and its offset-0 retry are empty, the outcome is that of the "Pop" search |
| `Fallback.SearchWithFallback` | app.py:167-189 | the handler's step-by-step ladder, where each retry runs only while no tracks have been found, has the outcome of the reference walk over `Attempts` |
| `Scoring.ScoreAll` | app.py:207-214 | the scored list is no longer than the tracks, and its entries carry strictly increasing search positions |
| `Scoring.ScoredEntry` | app.py:209-214 | every scored entry is a track that has features, with exactly those features and their squared distance to the target |
| `Scoring.ScoredComplete` | app.py:208-210 | every track that has features is scored |
| `Scoring.ScoreTracks` | app.py:207-214 | the scoring loop builds exactly the scored list |
| `Sorting.StableSort` | app.py:217 | the result is a permutation of its input in ascending distance, and entries of equal distance keep their search order |
| `Sorting.TopPick` | app.py:218-219 | an entry taken from the first n of the sorted list has fewer than n entries ranked before it and fewer than n entries strictly closer |
| `Sorting.CountBeforePermutation` | app.py:217 | an entry's rank is the same in the list before and after sorting |
| `Scoring.SelectByMood` | app.py:202-221 | the pick is one of the tracks, and features reported with it are the catalog's entry for it; it satisfies `MoodPick`: if a track has features, the pick is a scored track with its features, and fewer than 5 scored tracks are ranked before it or strictly closer; otherwise the pick is one of the first 5 tracks and has no features |
| `Scoring.PickForText` | app.py:192-200 | the pick is one of the first 5 tracks; its features are the catalog's entry for it, or 0.5/0.5 when there is none or the call failed |
| `TokenCache.Refresh` | app.py:57-74 | a live entry (by the first clock reading) answers from the cache without a request; otherwise exactly one request; a granted token is returned and cached until the second clock reading + lifetime (default 3600) − 60; a token whose lifetime is not a number is stored with the old expiry and nothing is returned; any other failure returns nothing and leaves the cache unchanged |
| `TokenCache.RefreshAsWritten` | app.py:57-74 | as written, no request is ever sent and the cache never changes; past the expiry the answer is nothing |
| `TokenCache.RefreshKeepsConsistent` | app.py:55-71 | a cache holding no token stays expired from time 0, whatever the call |
| `TokenCache.NoTokenOnlyOnFailedFetch` | app.py:58-74 | with a consistent cache, a call returns nothing exactly when it made a request and the exchange failed |
| `TokenCache.GrantedTokenIsReused` | app.py:58-70 | after a grant, with any lifetime, calls before the cached expiry return the same token with no request, whatever the endpoint would answer; a call after it makes a request |
| `TokenCache.TokensAsWritten` | app.py:57-74 | one answer per call in a sequence of calls |
| `TokenCache.AsWrittenNeverYieldsToken` | app.py:55-74 | as written, starting from the initial cache, every call at any time from 0 on returns no token |
| `TokenCache.FirstCallObtainsToken` | app.py:61-71 | with the request sent to the token endpoint, the first call of the process returns the granted token |
| `TokenCache.SpotifyTokenCache.constructor` | app.py:55 | the cache starts with no token and `expires_at` 0 |
| `TokenCache.SpotifyTokenCache.GetToken` | app.py:57-74 | the fields and the returned token are those of `Refresh` |
| `TokenCache.SpotifyTokenCache.GetTokenAsWritten` | app.py:57-74 | the returned token is that of `RefreshAsWritten` |
| `History.OfUser` | app.py:239 | a user's records, all belonging to that user |
| `History.Entries` | app.py:242 | one sort entry per record of the user, at an index inside the collection, with increasing indexes |
| `History.EntryAt` | app.py:242 | each entry is the record at its index, belongs to the user, and carries its timestamp key |
| `History.EntryFor` | app.py:242 | every record of the user has an entry |
| `History.NewerAreLighter` | app.py:120 | in the newest-first sort, the entries ahead of a time t count the user's records newer than t |
| `History.NewestEntry` | app.py:120 | a record at one of the first 40 places of the user's newest-first order is a record of the user with fewer than 40 of the user's records newer than it |
| `History.Without` | app.py:245 | deleting by index never lengthens the collection |
| `History.WithoutOwnCount` | app.py:244-245 | deleting some of one user's records removes exactly that many of theirs |
| `History.WithoutOthersKept` | app.py:244-245 | deleting some of one user's records leaves every other user's records unchanged |
| `History.WithoutUserRecords` | app.py:244-245 | deleting some of one user's records removes exactly that many of theirs and leaves every other user's records unchanged |
| `History.OldestOf` | app.py:240-243 | exactly n indexes of the user's records, each stored before every one of the user's records left out (earlier timestamp, or same timestamp and earlier insertion) |
| `History.OldestAreUsers` | app.py:242-243 | the first n positions of the user's records sorted oldest first are indexes of the user's records |
| `History.OldestStoredBefore` | app.py:242-243 | the first n positions of the user's records sorted oldest first were stored before every other record of the user |
| `History.KeptIndex` | app.py:244-245 | a record of the user left after a deletion comes from an index that was not deleted |
| `History.LastKept` | app.py:238-245 | the retention step never deletes the last-inserted record when no record of its user is newer |
| `History.NewestKept` | app.py:225-245 | after an insert and the retention step, a record no older than its user's other records is kept, as the last record |
| `History.RecordStore.constructor` | app.py:46 | the collection starts empty |
| `History.RecordStore.Insert` | app.py:225-236 | the record is appended |
| `History.RecordStore.Trim` | app.py:238-245 | other users unchanged; the user keeps min(count, 40) records; the new collection is the old one with exactly count − 40 of the user's records deleted, each older than every kept one (`Retained`) |
| `History.RecordStore.InsertAndTrim` | app.py:225-245 | after a write, other users are unchanged, the user holds min(count + 1, 40) records, and the collection is the old one plus the record with the user's oldest records beyond 40 deleted (`Retained`) |
| `History.RecordStore.Recent` | app.py:116-132 | at most 40 distinct records of the user (all 40 when there are that many), newest first, each with fewer than 40 of the user's records newer than it |
| `Recommend.HistoryRecord` | app.py:225-236 | a record is built exactly when the track has an artist and an album image, and it carries the user, the first artist, the first image, the genre or "General", and the text or "Slider Mode" |
| `Recommend.RespondWith` | app.py:191-257 | free text: the pick is `PickForText`'s; slider mode: a raised features call gives 500 with the history untouched, and otherwise the pick is one `MoodPick` allows; the response is 200 with the pick when it has an album image and 500 otherwise; for a request with a user id and a pick that has an artist and an album image, the record is inserted and the user's history trimmed to the newest 40 (`Retained`), otherwise the history is unchanged; no other user's history changes |
| `Recommend.SpotifyRecommend` | app.py:136-260 | the cache is updated as `Refresh` says; an unusable token gives 500 with the history untouched; an all-empty ladder gives 404, and a raised search or a raised audio-features call in slider mode gives 500, all with the history untouched; when the ladder found tracks, the pick, the 200/500 response and the history write are those of `RespondWith`; no other user's history changes |

## Findings

| source | as written | input that shows it | evidently intended | confidence | as-written member | corrected member |
|---|---|---|---|---|---|---|
| app.py:64 | the token exchange posts to `url`, a name defined nowhere, so it raises `NameError`; the handler at lines 72-74 catches it and returns `None`, and the cache is never filled | any request, since the cache starts with `expires_at` 0 and the clock is past 0 | post to `TOKEN_URL`, bound on line 61 | high, not executed | `TokenCache.AsWrittenNeverYieldsToken` (on `TokenCache.RefreshAsWritten`) | `TokenCache.FirstCallObtainsToken` (on `TokenCache.Refresh`, the getter the handler model uses) |

## Left out

- Flask plumbing is not modelled: routing, JSON parsing, CORS, `JSON_AS_ASCII`, the `/` and `/login` handlers (app.py:90-114), and the shaping of response bodies. The shaping includes the `", ".join` of artist names and the `strftime` of history dates. `float()` of a non-numeric valence is not modelled.
- Environment loading and the MongoDB connection setup are not modelled (app.py:14-46).
- MongoDB is modelled as an in-memory sequence that never fails. The swallowed errors of a failed history write (app.py:247-248) and the 500 of a failed history read (app.py:133-134) are therefore not modelled.
- Ties in MongoDB's timestamp sort are broken by insertion order. MongoDB leaves the order of equal timestamps unspecified.
- Search request details are not modelled: `type`, `limit` 20 and `market` "TW". A search is an oracle from (query, offset) to a reply.
- The audio-features call of slider mode sends the ids of `tracks[:20]`. The model takes all tracks, because a search returns at most 20 items.
- Free-text mode reads the first entry of the features reply. The model reads the entry for the chosen track's id instead.
- The scorer ranks by squared distance over reals. `math.sqrt` is monotone, so the ranking is the same, but IEEE floating point is not modelled.
- The scorer writes `features` and `distance` into each track dict. These writes are modelled as separate candidate entries.
- Timsort is modelled by an insertion sort with the same contract: stable and ascending.
- Concurrent access to the token cache is not modelled.
- `Scoring.SquaredDistance` carries no contract. Its non-negativity is not needed by any proof here.
