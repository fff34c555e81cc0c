/** The records every link-graph store exchanges with its callers, and the errors it reports. */
module Graph {
  import opened Uuids

  /** Seconds since the Unix epoch, a signed 64-bit integer. The store only compares
      timestamps, so no arithmetic on them needs modelling. */
  type Timestamp = t: int | -0x8000_0000_0000_0000 <= t < 0x8000_0000_0000_0000

  /** A crawled page: its surrogate identifier, its URL (the natural key) and when it
      was last retrieved. */
  datatype Link = Link(id: Uuid, url: string, retrievedAt: Timestamp)

  /** A hyperlink from the page `src` to the page `dst`, last confirmed at `updatedAt`. */
  datatype Edge = Edge(id: Uuid, src: Uuid, dst: Uuid, updatedAt: Timestamp)

  /** The two error sentinels callers can tell apart. */
  datatype GraphError = NotFound | UnknownEdgeLinks

  datatype Result<T> = Ok(value: T) | Err(error: GraphError)

  datatype Option<T> = None | Some(value: T)
}
