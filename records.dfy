/** The records the episode extractor produces and the analytics engine consumes. */
module Records {
  import opened Wrappers
  import opened Json

  /** One episode: `episode_num`, `title` and `rating` of the source's dictionaries. The
      title is a Python value: the JSON-LD tier stores the entry's `name` as it is. */
  datatype Episode = Episode(number: int, title: Json, rating: Option<real>)

  /** One enumerated season with the episodes extracted for it. */
  datatype Season = Season(number: int, episodes: seq<Episode>)
}
