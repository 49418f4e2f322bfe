/** The catalog's values as the backend sees them: a track from a search reply and the audio
    features the catalog reports for a track. */
module Catalog {
  import opened Wrappers

  /** A search result item: its id, its name, its artists' names in order, its album's image
      URLs in order, its preview URL (absent when the catalog has none) and its external link. */
  datatype Track = Track(
    id: string,
    name: string,
    artists: seq<string>,
    albumImages: seq<string>,
    previewUrl: Option<string>,
    spotifyUrl: string)

  /** The two audio features the backend uses, both on the catalog's scale. */
  datatype Features = Features(valence: real, energy: real)

  /** The features reported by one audio-features call, keyed by track id (the entries the
      catalog returned as null are absent). */
  type FeatureMap = map<string, Features>
}
