/** The plain data the synchroniser works on: the decoded series metadata and
    the per-episode media listing (src/main.rs, structs Metadata, Episode,
    EpisodeMetadata and Presentation). */
module Types {

  datatype Option<+T> = None | Some(value: T)

  /** One episode of the series, as listed in the series metadata. */
  datatype Episode = Episode(createdAt: string, id: string)

  /** One encoded variant of an episode's media. The source's `usize` fields
      become `nat` here. */
  datatype Presentation = Presentation(width: nat, height: nat, url: string, mimeType: string)

  /** An episode together with the presentations listed in its own metadata
      document (the second request the loop issues for each episode). */
  datatype EpisodeMedia = EpisodeMedia(episode: Episode, presentations: seq<Presentation>)
}
