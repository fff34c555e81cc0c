/** The four indices of the in-memory link graph as one value, the invariant that ties them
    together, and what each store operation does to them. */
module MemoryIndices {
  import opened Uuids
  import opened Graph

  /** links by ID, edges by ID, links by URL, and per source link the IDs of its outgoing
      edges in insertion order. In the store `links[id]` and `linkURLIndex[url]` are one
      shared record; here they are two equal values that every operation updates together. */
  datatype Indices = Indices(
    links: map<Uuid, Link>,
    edges: map<Uuid, Edge>,
    linkURLIndex: map<string, Link>,
    linkEdgeMap: map<Uuid, seq<Uuid>>)

  /** A freshly created store. */
  const Empty: Indices := Indices(map[], map[], map[], map[])

  /** The adjacency list of `src`; a source without an entry has the empty list. */
  function EdgeList(s: Indices, src: Uuid): seq<Uuid>
  {
    if src in s.linkEdgeMap then s.linkEdgeMap[src] else []
  }

  predicate Distinct<T(==)>(xs: seq<T>)
  {
    forall i, j :: 0 <= i < j < |xs| ==> xs[i] != xs[j]
  }

  /** Every ID of `list` names a stored edge. */
  predicate AllIn(list: seq<Uuid>, edges: map<Uuid, Edge>)
  {
    forall j :: 0 <= j < |list| ==> list[j] in edges
  }

  /** `e` goes from `src` to `dst`. */
  predicate Joins(e: Edge, src: Uuid, dst: Uuid)
  {
    e.src == src && e.dst == dst
  }

  // ---------------------------------------------------------------------------
  // The invariant
  // ---------------------------------------------------------------------------

  ghost predicate LinksKeyedById(s: Indices)
  {
    forall id :: id in s.links ==> s.links[id].id == id
  }

  /** The URL index holds exactly the records of the ID index, each under its own URL. */
  ghost predicate UrlIndexAgrees(s: Indices)
  {
    && (forall id :: id in s.links ==>
          s.links[id].url in s.linkURLIndex && s.linkURLIndex[s.links[id].url] == s.links[id])
    && (forall url :: url in s.linkURLIndex ==>
          s.linkURLIndex[url].url == url && s.linkURLIndex[url].id in s.links
          && s.links[s.linkURLIndex[url].id] == s.linkURLIndex[url])
  }

  ghost predicate EdgesKeyedById(s: Indices)
  {
    forall eid :: eid in s.edges ==> s.edges[eid].id == eid
  }

  /** Both ends of every edge are stored links. */
  ghost predicate EndpointsKnown(s: Indices)
  {
    forall eid :: eid in s.edges ==> s.edges[eid].src in s.links && s.edges[eid].dst in s.links
  }

  /** Every ID in an adjacency list names a stored edge leaving that list's source. */
  ghost predicate AdjacencySound(s: Indices)
  {
    forall src, i :: src in s.linkEdgeMap && 0 <= i < |s.linkEdgeMap[src]| ==>
      s.linkEdgeMap[src][i] in s.edges && s.edges[s.linkEdgeMap[src][i]].src == src
  }

  /** Every stored edge is listed under its source. */
  ghost predicate AdjacencyComplete(s: Indices)
  {
    forall eid :: eid in s.edges ==> eid in EdgeList(s, s.edges[eid].src)
  }

  ghost predicate AdjacencyDistinct(s: Indices)
  {
    forall src :: src in s.linkEdgeMap ==> Distinct(s.linkEdgeMap[src])
  }

  /** At most one edge per ordered pair (src, dst). */
  ghost predicate OneEdgePerPair(s: Indices)
  {
    forall e1, e2 {:trigger Joins(s.edges[e1], s.edges[e2].src, s.edges[e2].dst)} ::
      e1 in s.edges && e2 in s.edges && Joins(s.edges[e1], s.edges[e2].src, s.edges[e2].dst) ==> e1 == e2
  }

  ghost predicate Consistent(s: Indices)
  {
    && LinksKeyedById(s)
    && UrlIndexAgrees(s)
    && EdgesKeyedById(s)
    && EndpointsKnown(s)
    && AdjacencySound(s)
    && AdjacencyComplete(s)
    && AdjacencyDistinct(s)
    && OneEdgePerPair(s)
  }

  /** Some stored edge goes from `src` to `dst`. */
  ghost predicate PairStored(s: Indices, src: Uuid, dst: Uuid)
  {
    exists eid :: eid in s.edges && Joins(s.edges[eid], src, dst)
  }

  // ---------------------------------------------------------------------------
  // UpsertLink
  // ---------------------------------------------------------------------------

  /** The stored retrieval time after an upsert: the later of the prior and submitted ones. */
  function LaterOf(prior: Timestamp, submitted: Timestamp): (t: Timestamp)
    ensures t >= prior && t >= submitted
    ensures t == prior || t == submitted
  {
    if prior > submitted then prior else submitted
  }

  /** The indices, and the caller's record, after `UpsertLink(link)`; `freshId` is the
      identifier the generator yields when the URL is new. */
  function AfterUpsertLink(s: Indices, link: Link, freshId: Uuid): (Indices, Link)
  {
    if link.url in s.linkURLIndex then
      var prior := s.linkURLIndex[link.url];
      var stored := Link(prior.id, link.url, LaterOf(prior.retrievedAt, link.retrievedAt));
      (s.(links := s.links[prior.id := stored], linkURLIndex := s.linkURLIndex[link.url := stored]),
       link.(id := prior.id))
    else
      var stored := link.(id := freshId);
      (s.(links := s.links[freshId := stored], linkURLIndex := s.linkURLIndex[link.url := stored]),
       stored)
  }

  // ---------------------------------------------------------------------------
  // UpsertEdge
  // ---------------------------------------------------------------------------

  /** The first position of `list` whose edge goes from `src` to `dst`. */
  function FindEdge(list: seq<Uuid>, edges: map<Uuid, Edge>, src: Uuid, dst: Uuid): (r: Option<nat>)
    requires AllIn(list, edges)
    ensures r.Some? ==> r.value < |list| && Joins(edges[list[r.value]], src, dst)
    ensures forall j :: 0 <= j < |list| && (r.None? || j < r.value) ==> !Joins(edges[list[j]], src, dst)
  {
    if list == [] then None
    else if Joins(edges[list[0]], src, dst) then Some(0)
    else match FindEdge(list[1..], edges, src, dst)
      case None => None
      case Some(k) => Some(k + 1)
  }

  /** The indices, and the caller's record or the error, after `UpsertEdge(edge)` at time
      `now`; `freshId` is the identifier the generator yields when the pair is new. */
  function AfterUpsertEdge(s: Indices, edge: Edge, now: Timestamp, freshId: Uuid): (Indices, Result<Edge>)
    requires AdjacencySound(s)
  {
    if edge.src !in s.links || edge.dst !in s.links then (s, Err(UnknownEdgeLinks))
    else
      var list := EdgeList(s, edge.src);
      match FindEdge(list, s.edges, edge.src, edge.dst)
      case Some(k) =>
        var refreshed := s.edges[list[k]].(updatedAt := now);
        (s.(edges := s.edges[list[k] := refreshed]), Ok(refreshed))
      case None =>
        var created := edge.(id := freshId, updatedAt := now);
        (s.(edges := s.edges[freshId := created], linkEdgeMap := s.linkEdgeMap[edge.src := list + [freshId]]),
         Ok(created))
  }

  // ---------------------------------------------------------------------------
  // RemoveStaleEdges
  // ---------------------------------------------------------------------------

  /** The IDs of `list` whose edges were updated at or after `before`, in list order. */
  function Kept(list: seq<Uuid>, edges: map<Uuid, Edge>, before: Timestamp): seq<Uuid>
    requires AllIn(list, edges)
  {
    if list == [] then []
    else (if edges[list[0]].updatedAt < before then [] else [list[0]]) + Kept(list[1..], edges, before)
  }

  /** The IDs of `list` whose edges were updated before `before`. */
  function Stale(list: seq<Uuid>, edges: map<Uuid, Edge>, before: Timestamp): set<Uuid>
    requires AllIn(list, edges)
  {
    set j | 0 <= j < |list| && edges[list[j]].updatedAt < before :: list[j]
  }

  /** The indices after `RemoveStaleEdges(src, before)`. */
  function AfterRemoveStaleEdges(s: Indices, src: Uuid, before: Timestamp): Indices
    requires AdjacencySound(s)
  {
    var list := EdgeList(s, src);
    s.(edges := s.edges - Stale(list, s.edges, before),
       linkEdgeMap := s.linkEdgeMap[src := Kept(list, s.edges, before)])
  }

  // ---------------------------------------------------------------------------
  // Range scans
  // ---------------------------------------------------------------------------

  /** What `Links(from, to, before)` yields: the links with an ID in [from, to) retrieved
      before `before`. */
  ghost function LinksInRange(s: Indices, from: Uuid, to: Uuid, before: Timestamp): set<Link>
  {
    set id | id in s.links && InRange(id, from, to) && s.links[id].retrievedAt < before :: s.links[id]
  }

  /** What `Edges(from, to, before)` yields: the edges whose source is a stored link with an
      ID in [from, to), updated before `before`. */
  ghost function EdgesInRange(s: Indices, from: Uuid, to: Uuid, before: Timestamp): set<Edge>
  {
    set eid | eid in s.edges && s.edges[eid].src in s.links && InRange(s.edges[eid].src, from, to)
                && s.edges[eid].updatedAt < before :: s.edges[eid]
  }
}
