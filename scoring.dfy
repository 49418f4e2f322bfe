/** Choosing the track to recommend from a non-empty search result (app.py:191-221).

    `random.choice(xs)` is modelled by a chooser: a function that, given how many candidates
    there are, returns the index of the one taken. Any chooser that stays in range is allowed,
    so what is proved holds for every outcome of the random draw. */
module Scoring {
  import opened Wrappers
  import opened Catalog
  import opened Sorting

  /** Selection is among the first this many candidates. */
  const TopN: nat := 5

  /** Features the free-text mode reports when the catalog gave none. */
  const NeutralFeatures := Features(0.5, 0.5)

  /** A chooser that, for every non-empty list of candidates, picks one of them. */
  ghost predicate ValidChooser(choose: nat -> nat)
  {
    forall n: nat :: n > 0 ==> choose(n) < n
  }

  /** The recommended track and the features reported with it (`match_info`); none when the
      slider mode fell back to a track without features. */
  datatype Pick = Pick(track: Track, features: Option<Features>)

  /** A track that has features, with them. */
  datatype Candidate = Candidate(track: Track, features: Features)

  /** The squared Euclidean distance between a track's features and the target point. The
      source ranks by its square root; the square root is monotone, so both rank alike. */
  function SquaredDistance(f: Features, targetValence: real, targetEnergy: real): real
  {
    (f.valence - targetValence) * (f.valence - targetValence)
    + (f.energy - targetEnergy) * (f.energy - targetEnergy)
  }

  /** The scored list after the loop has looked at the first `n` tracks: one entry per track
      that has features, in search order, carrying the track's index, its features and its
      distance to the target (see ScoredEntry and ScoredComplete). */
  function ScoreAll(tracks: seq<Track>, fm: FeatureMap, targetValence: real, targetEnergy: real, n: nat)
    : (w: seq<Ranked<Candidate>>)
    requires n <= |tracks|
    ensures |w| <= n
    ensures forall k :: 0 <= k < |w| ==> w[k].pos < n
    ensures PositionsIncrease(w)
  {
    if n == 0 then []
    else
      var w := ScoreAll(tracks, fm, targetValence, targetEnergy, n - 1);
      var t := tracks[n - 1];
      if t.id in fm then
        w + [Ranked(SquaredDistance(fm[t.id], targetValence, targetEnergy), n - 1, Candidate(t, fm[t.id]))]
      else w
  }

  /** Every scored entry is a track that has features, with those features and its distance. */
  lemma {:induction false} ScoredEntry(tracks: seq<Track>, fm: FeatureMap, targetValence: real, targetEnergy: real, n: nat, k: nat)
    requires n <= |tracks|
    requires k < |ScoreAll(tracks, fm, targetValence, targetEnergy, n)|
    ensures var e := ScoreAll(tracks, fm, targetValence, targetEnergy, n)[k];
      && tracks[e.pos].id in fm
      && e.item == Candidate(tracks[e.pos], fm[tracks[e.pos].id])
      && e.weight == SquaredDistance(e.item.features, targetValence, targetEnergy)
  {
    var w := ScoreAll(tracks, fm, targetValence, targetEnergy, n - 1);
    if k < |w| {
      ScoredEntry(tracks, fm, targetValence, targetEnergy, n - 1, k);
    }
  }

  /** Every track that has features is scored. */
  lemma {:induction false} ScoredComplete(tracks: seq<Track>, fm: FeatureMap, targetValence: real, targetEnergy: real, n: nat, i: nat)
    requires i < n <= |tracks| && tracks[i].id in fm
    ensures exists k ::
              && 0 <= k < |ScoreAll(tracks, fm, targetValence, targetEnergy, n)|
              && ScoreAll(tracks, fm, targetValence, targetEnergy, n)[k].pos == i
  {
    var w := ScoreAll(tracks, fm, targetValence, targetEnergy, n - 1);
    var w' := ScoreAll(tracks, fm, targetValence, targetEnergy, n);
    if i == n - 1 {
      assert w'[|w|].pos == i;
    } else {
      ScoredComplete(tracks, fm, targetValence, targetEnergy, n - 1, i);
      var k :| 0 <= k < |w| && w[k].pos == i;
      assert w'[k] == w[k];
    }
  }

  /** The scoring loop: every track with features is scored and appended, in search order. */
  method ScoreTracks(tracks: seq<Track>, fm: FeatureMap, targetValence: real, targetEnergy: real)
    returns (weighted: seq<Ranked<Candidate>>)
    ensures weighted == ScoreAll(tracks, fm, targetValence, targetEnergy, |tracks|)
  {
    weighted := [];
    var i := 0;
    while i < |tracks|
      invariant 0 <= i <= |tracks|
      invariant weighted == ScoreAll(tracks, fm, targetValence, targetEnergy, i)
    {
      var t := tracks[i];
      if t.id in fm {
        var f := fm[t.id];
        var dist := SquaredDistance(f, targetValence, targetEnergy);
        weighted := weighted + [Ranked(dist, i, Candidate(t, f))];
      }
      i := i + 1;
    }
  }

  /** What slider mode may pick: if some track has features, a scored track with its features
      that has fewer than five scored tracks ranked before it, and so fewer than five strictly
      closer to the target; otherwise one of the first five tracks, without features. */
  ghost predicate MoodPick(tracks: seq<Track>, fm: FeatureMap, targetValence: real, targetEnergy: real, pick: Pick)
  {
    var w := ScoreAll(tracks, fm, targetValence, targetEnergy, |tracks|);
    if w != [] then
      exists e :: e in w && pick == Pick(e.item.track, Some(e.item.features))
        && CountBefore(w, e) < TopN && CountLighter(w, e.weight) < TopN
    else
      pick.features == None && exists i :: 0 <= i < Min(TopN, |tracks|) && pick.track == tracks[i]
  }

  /** Slider mode. The tracks that have features are sorted by distance (stably) and one of
      the first five is chosen; if no track has features, one of the first five tracks is
      chosen. A chosen scored track has fewer than five scored tracks ranked before it, so
      fewer than five scored tracks are strictly closer to the target than it is. */
  method SelectByMood(tracks: seq<Track>, fm: FeatureMap, targetValence: real, targetEnergy: real, choose: nat -> nat)
    returns (pick: Pick)
    requires tracks != [] && ValidChooser(choose)
    ensures MoodPick(tracks, fm, targetValence, targetEnergy, pick)
    ensures pick.track in tracks
    ensures pick.features.Some? ==> pick.track.id in fm && pick.features.value == fm[pick.track.id]
  {
    var weighted := ScoreTracks(tracks, fm, targetValence, targetEnergy);
    if weighted != [] {
      var sorted := StableSort(weighted);
      var top := sorted[..Min(TopN, |sorted|)];
      var j := choose(|top|);
      var best := top[j];
      TopPick(weighted, sorted, TopN, j);
      var k :| 0 <= k < |weighted| && weighted[k] == best;
      ScoredEntry(tracks, fm, targetValence, targetEnergy, |tracks|, k);
      pick := Pick(best.item.track, Some(best.item.features));
    } else {
      var top := tracks[..Min(TopN, |tracks|)];
      var j := choose(|top|);
      pick := Pick(top[j], None);
      assert pick.track == tracks[j];
    }
  }

  /** Free-text mode. One of the first five tracks is chosen, and its features are those the
      catalog reports for it, or 0.5/0.5 when the catalog reports none or the features call
      failed (`reply == None`). */
  function PickForText(tracks: seq<Track>, reply: Option<FeatureMap>, choose: nat -> nat): (p: Pick)
    requires tracks != [] && ValidChooser(choose)
    ensures exists i :: 0 <= i < Min(TopN, |tracks|) && p.track == tracks[i]
    ensures reply.Some? && p.track.id in reply.value ==> p.features == Some(reply.value[p.track.id])
    ensures !(reply.Some? && p.track.id in reply.value) ==> p.features == Some(NeutralFeatures)
  {
    var candidates := tracks[..Min(TopN, |tracks|)];
    var best := candidates[choose(|candidates|)];
    assert best == tracks[choose(|candidates|)];
    var f := if reply.Some? && best.id in reply.value then reply.value[best.id] else NeutralFeatures;
    Pick(best, Some(f))
  }
}
