/** Building the catalog search from a request: trimming the free text, mapping the mood
    coordinates to a keyword, and appending the genre filter (app.py:76-85, 143-160). */
module Query {
  import opened Wrappers

  /** The characters Python's `str.isspace` accepts, which `str.strip()` removes. */
  predicate IsSpace(c: char)
  {
    c in {' ', '\t', '\n', '\r', '\U{000B}', '\U{000C}', '\U{001C}', '\U{001D}', '\U{001E}',
          '\U{001F}', '\U{0085}', '\U{00A0}', '\U{1680}', '\U{2028}', '\U{2029}', '\U{202F}',
          '\U{205F}', '\U{3000}'}
    || ('\U{2000}' <= c <= '\U{200A}')
  }

  /** The length of the run of whitespace that starts `s`. */
  function LeadingSpace(s: string): (n: nat)
    ensures n <= |s|
    ensures forall k :: 0 <= k < n ==> IsSpace(s[k])
    ensures n < |s| ==> !IsSpace(s[n])
  {
    if s != [] && IsSpace(s[0]) then 1 + LeadingSpace(s[1..]) else 0
  }

  /** The length of the run of whitespace that ends `s`. */
  function TrailingSpace(s: string): (n: nat)
    ensures n <= |s|
    ensures forall k :: |s| - n <= k < |s| ==> IsSpace(s[k])
    ensures n < |s| ==> !IsSpace(s[|s| - n - 1])
  {
    if s != [] && IsSpace(s[|s| - 1]) then 1 + TrailingSpace(s[..|s| - 1]) else 0
  }

  /** Python's `str.strip()`: `s` without its leading and trailing whitespace. The result is
      the slice of `s` between two all-whitespace margins; it neither starts nor ends with
      whitespace, and it is empty exactly when `s` is all whitespace. */
  function Strip(s: string): (r: string)
    ensures exists i, j ::
              && 0 <= i <= j <= |s| && r == s[i..j]
              && (forall k :: 0 <= k < i ==> IsSpace(s[k]))
              && (forall k :: j <= k < |s| ==> IsSpace(s[k]))
    ensures r != [] ==> !IsSpace(r[0]) && !IsSpace(r[|r| - 1])
    ensures r == [] <==> forall k :: 0 <= k < |s| ==> IsSpace(s[k])
  {
    var i := LeadingSpace(s);
    var j := |s| - TrailingSpace(s[i..]);
    assert forall k :: j <= k < |s| ==> s[k] == s[i..][k - i];
    s[i..j]
  }

  /** The mood keyword for a point of the valence/arousal plane: two quadrants on each side of
      the middle band 0.4 <= valence <= 0.6, which (boundaries included) is "pop". */
  function MoodKeyword(valence: real, arousal: real): (k: string)
    ensures k == "sad" <==> valence < 0.4 && arousal < 0.4
    ensures k == "angry" <==> valence < 0.4 && arousal >= 0.4
    ensures k == "chill" <==> valence > 0.6 && arousal < 0.4
    ensures k == "party" <==> valence > 0.6 && arousal >= 0.4
    ensures k == "pop" <==> 0.4 <= valence <= 0.6
  {
    if valence < 0.4 then (if arousal < 0.4 then "sad" else "angry")
    else if valence > 0.6 then (if arousal < 0.4 then "chill" else "party")
    else "pop"
  }

  /** The genre names the user interface offers, with the catalog's genre tag for each. */
  const GenreMapping: map<string, string> := map[
    "Mandopop" := "mandopop", "K-Pop" := "k-pop", "J-Pop" := "j-pop",
    "Jazz" := "jazz", "Lofi" := "lo-fi", "R&B" := "r-n-b",
    "Classical" := "classical", "Electronic" := "electronic"]

  /** The catalog tag for a selected genre, when the backend knows one. The source also tests
      for "All", which is not a key of the table, so a tag exists exactly for the table's keys. */
  function GenreTag(genreUi: string): (t: Option<string>)
    ensures t.Some? <==> genreUi in GenreMapping
    ensures t.Some? ==> genreUi != "All" && t.value == GenreMapping[genreUi]
  {
    if genreUi != "All" && genreUi in GenreMapping then Some(GenreMapping[genreUi]) else None
  }

  /** A catalog search: the query string and the index of the first result asked for. */
  datatype SearchPlan = SearchPlan(query: string, offset: int)

  /** The primary search for a request. `text` is the trimmed free text ("" when there is
      none); `drawnOffset` is the value `random.randint(0, 50)` produced, used only when there
      is no free text.
      Free text is searched as typed, from the first result; otherwise the mood keyword is
      searched from the drawn offset. A known genre appends " genre:<tag>"; any other genre
      leaves the query as it is. */
  function PlanSearch(text: string, genreUi: string, valence: real, arousal: real, drawnOffset: int): (p: SearchPlan)
    requires 0 <= drawnOffset <= 50
    ensures text != "" ==> p.offset == 0
    ensures text == "" ==> p.offset == drawnOffset && 0 <= p.offset <= 50
    ensures var base := if text != "" then text else MoodKeyword(valence, arousal);
      && (genreUi in GenreMapping ==> p.query == base + " genre:" + GenreMapping[genreUi])
      && (genreUi !in GenreMapping ==> p.query == base)
  {
    var base := if text != "" then text else MoodKeyword(valence, arousal);
    var offset := if text != "" then 0 else drawnOffset;
    match GenreTag(genreUi)
    case Some(tag) => SearchPlan(base + " genre:" + tag, offset)
    case None => SearchPlan(base, offset)
  }
}
