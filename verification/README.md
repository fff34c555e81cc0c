# In-memory link graph

This project models the in-memory link-graph store of a web crawler and proves its
properties in Dafny. The store keeps the crawled pages (links) and the hyperlinks between
them (edges). `InMemoryGraph` holds four indices:

- links by ID;
- edges by ID;
- links by URL (the URL is the natural key, the ID a surrogate assigned on first sight);
- per source link, the IDs of its outgoing edges in insertion order.

Its operations:

- `UpsertLink` creates a link or turns a repeated URL into an update. The update keeps
  the link's ID and the later of the two retrieval times.
- `FindLink` looks a link up by ID.
- `UpsertEdge` refuses an edge with an unknown end. Otherwise it refreshes the stored
  edge for the same (source, destination) pair, or creates one.
- `RemoveStaleEdges` drops the edges of one source that were updated before a threshold.
- `Links` and `Edges` are range scans over the half-open ID range `[from, to)`, with a time
  threshold. The range test compares the canonical text forms of the IDs.

The model has five modules:

- `Uuids` (`uuids.dfy`): 128-bit identifiers as sixteen bytes, and their canonical
  8-4-4-4-12 lower-case hexadecimal text. The range test is made on that text, as the
  store does. Proved: string order on that text is numeric order on the bytes, so ranges
  behave as numeric intervals and consecutive ranges tile.
- `Graph` (`graph.dfy`): the `Link` and `Edge` records, 64-bit timestamps, and the two
  error sentinels `NotFound` and `UnknownEdgeLinks`.
- `MemoryIndices` (`memory_indices.dfy`): the four indices as one value, `Indices`. It
  also defines:
  - the invariant `Consistent`, eight parts: every link and every edge is stored under
    its own ID (`LinksKeyedById`, `EdgesKeyedById`); the URL index agrees with the ID
    index (`UrlIndexAgrees`); both ends of every edge are stored links
    (`EndpointsKnown`); every listed edge ID names a stored edge leaving that source
    (`AdjacencySound`); every stored edge is listed under its source
    (`AdjacencyComplete`); lists hold no repeats (`AdjacencyDistinct`); and there is at
    most one edge per ordered pair (`OneEdgePerPair`);
  - what each mutating operation does to the indices (`AfterUpsertLink`,
    `AfterUpsertEdge`, `AfterRemoveStaleEdges`);
  - what each scan must yield (`LinksInRange`, `EdgesInRange`).
- `MemoryProperties` (`memory_properties.dfy`): the lemmas about those functions.
- `Memory` (`memory.dfy`): the store itself.
  - The class `InMemoryGraph` has the four map fields. Its methods update the fields in
    place and run the same loops as the store.
  - Each mutating method ensures that the new `State()` equals the transition function
    applied to the old one, and that `Valid()` is kept.
  - Each scan ensures that its result holds, each once, exactly the records of the
    range.

Two sources of nondeterminism in the store become parameters:

- The random identifier generator is a sequence `draws` of candidate identifiers.
- The wall clock is the parameter `now`.

## Model

| member | source | states |
|---|---|---|
| `Uuids.CanonicalLength` | Project/crawler/linkgraph/store/memory/base.go:74 | the canonical text of every identifier has the fixed length 36 |
| `Uuids.CanonicalOrder` | Project/crawler/linkgraph/store/memory/base.go:74-79 | one identifier's canonical text sorts before another's exactly when its 128-bit value is smaller |
| `Uuids.ValueInjective` | Project/crawler/linkgraph/store/memory/base.go:74 | two identifiers with the same value are the same identifier, so the text order is a total order on identifiers |
| `Uuids.InRangeByValue` | Project/crawler/linkgraph/store/memory/base.go:79 | the textual test `from <= id < to` holds exactly when `from`'s value <= `id`'s value < `to`'s value |
| `Uuids.AllOnesInNoRange` | Project/crawler/linkgraph/store/memory/base.go:79 | the all-ones identifier lies in no range, because the upper bound is exclusive |
| `Uuids.WidestRange` | Project/crawler/linkgraph/store/memory/base.go:79 | the range from the nil identifier to the all-ones one holds every identifier except the all-ones one |
| `Uuids.PartitionCovers` | Project/crawler/linkgraph/store/memory/base.go:137 | for ascending bounds b0..bn, an identifier is in [b0, bn) exactly when it is in some [bk, bk+1) |
| `Uuids.PartitionDisjoint` | Project/crawler/linkgraph/store/memory/base.go:137 | no identifier lies in two different ranges of such a partition |
| `MemoryIndices.LaterOf` | Project/crawler/linkgraph/store/memory/base.go:33-37 | the stored retrieval time after an upsert is at least the prior and the submitted one, and is one of the two |
| `MemoryIndices.FindEdge` | Project/crawler/linkgraph/store/memory/base.go:100-107 | the scan of an adjacency list answers the first position whose edge joins the pair, and None only when no position does |
| `MemoryProperties.EmptyIsConsistent` | Project/crawler/linkgraph/store/memory/base.go:15-21 | a new store satisfies the invariant, and no link or edge scan over any range yields anything |
| `MemoryProperties.UpsertLinkKeepsConsistent` | Project/crawler/linkgraph/store/memory/base.go:25-54 | upserting a link keeps both link indices in agreement and the whole invariant, given an unused identifier for a new URL |
| `MemoryProperties.UpsertLinkExistingUrl` | Project/crawler/linkgraph/store/memory/base.go:31-38 | a stored URL keeps its ID, which is written back to the caller; the ID and URL sets are unchanged; the stored time is the maximum of the prior and submitted ones; other links and all edges are untouched |
| `MemoryProperties.UpsertLinkNewUrl` | Project/crawler/linkgraph/store/memory/base.go:42-53 | a new URL gets the fresh ID, and the same record goes into both indices and back to the caller; each index gains one key and nothing else changes |
| `MemoryProperties.UpsertLinkNeverRegresses` | Project/crawler/linkgraph/store/memory/base.go:31-38 | after any upsert, every stored URL keeps its ID and its retrieval time never decreases |
| `MemoryProperties.DistinctUrlsDistinctIds` | Project/crawler/linkgraph/store/memory/base.go:42-52 | in a consistent store, distinct URLs are stored under distinct IDs |
| `MemoryProperties.FindAfterUpsertLink` | Project/crawler/linkgraph/store/memory/base.go:31-53 | after an upsert, the ID written back to the caller names a stored link with the submitted URL, retrieved no earlier than submitted, and the URL index holds that same record |
| `MemoryProperties.FindEdgeIffStored` | Project/crawler/linkgraph/store/memory/base.go:100-107 | scanning the source's adjacency list finds a match exactly when an edge for the pair is stored, and then it finds the only such edge |
| `MemoryProperties.UpsertEdgeChecksEndpoints` | Project/crawler/linkgraph/store/memory/base.go:93-97 | the upsert fails with UnknownEdgeLinks exactly when the source or the destination is not a stored link, and the failure changes nothing |
| `MemoryProperties.UpsertEdgeStoredPair` | Project/crawler/linkgraph/store/memory/base.go:100-106 | re-upserting a stored pair keeps that edge's ID, sets its time to `now` and returns it; no edge and no adjacency entry is added |
| `MemoryProperties.UpsertEdgeNewPair` | Project/crawler/linkgraph/store/memory/base.go:110-125 | a new pair is stored under the fresh ID with the time `now`; its ID is appended to the end of its source's list, every other list is unchanged and the links are untouched |
| `MemoryProperties.UpsertEdgeKeepsConsistent` | Project/crawler/linkgraph/store/memory/base.go:89-126 | the edge upsert keeps the invariant, including at most one edge per (source, destination) pair |
| `MemoryProperties.UpsertEdgeTwiceSameId` | Project/crawler/linkgraph/store/memory/base.go:100-125 | upserting the same pair twice returns the same edge ID both times, the second time with the second time stamp, and the second upsert adds no key to either edge index |
| `MemoryProperties.KeptAppend` | Project/crawler/linkgraph/store/memory/base.go:158-167 | filtering a list filters its parts separately and joins them, so the kept IDs stay in their original order |
| `MemoryProperties.KeptAgain` | Project/crawler/linkgraph/store/memory/base.go:158-167 | filtering an already filtered list changes nothing |
| `MemoryProperties.RemoveStaleEdgesEffect` | Project/crawler/linkgraph/store/memory/base.go:158-171 | afterwards the source's list holds exactly its edges updated at or after the threshold, in their old order; exactly its stale IDs leave the edge index; the links and every other list are untouched |
| `MemoryProperties.RemoveStaleEdgesKeepsConsistent` | Project/crawler/linkgraph/store/memory/base.go:154-172 | removing stale edges keeps the invariant |
| `MemoryProperties.RemoveStaleEdgesIdempotent` | Project/crawler/linkgraph/store/memory/base.go:158-171 | a second removal with the same arguments changes nothing |
| `MemoryProperties.SplitRange` | Project/crawler/linkgraph/store/memory/base.go:79 | splitting [a, c) at a point b between them: an identifier is in [a, c) exactly when it is in [a, b) or in [b, c) |
| `MemoryProperties.LinksTiling` | Project/crawler/linkgraph/store/memory/base.go:78-82 | joining the link scans of consecutive ranges gives what one scan over their span gives |
| `MemoryProperties.EdgesTiling` | Project/crawler/linkgraph/store/memory/base.go:136-145 | joining the edge scans of consecutive ranges gives what one scan over their span gives |
| `MemoryProperties.LinksPartsDisjoint` | Project/crawler/linkgraph/store/memory/base.go:79 | no link is yielded by two different ranges of a partition |
| `MemoryProperties.EdgesPartsDisjoint` | Project/crawler/linkgraph/store/memory/base.go:137 | no edge is yielded by two different ranges of a partition |
| `MemoryProperties.SessionLinks` | Project/crawler/linkgraph/store/memory/base.go:31-53 | on a new store: "a" at time 100 gets ID x; "a" again at time 50 keeps x and time 100; "b" at time 90 gets ID y |
| `MemoryProperties.SessionEdges` | Project/crawler/linkgraph/store/memory/base.go:93-171 | the edge x to y is created as e1; upserting it again keeps e1 with the new time; removing x's edges older than a moment later leaves no edge, and no scan yields one |
| `Memory.NewId` | Project/crawler/linkgraph/store/memory/base.go:42-47 | the retry loop returns the first draw that is not an ID in use |
| `Memory.InMemoryGraph.constructor` | Project/crawler/linkgraph/store/memory/base.go:15-21 | all four indices start empty, and the invariant holds |
| `Memory.InMemoryGraph.UpsertLink` | Project/crawler/linkgraph/store/memory/base.go:25-54 | the new state and the record written back are those of `AfterUpsertLink`, with an unused draw as the ID of a new URL; the invariant is kept |
| `Memory.InMemoryGraph.FindLink` | Project/crawler/linkgraph/store/memory/base.go:57-69 | NotFound exactly when the ID is not stored; otherwise the stored record, whose ID is the one asked for; nothing changes |
| `Memory.InMemoryGraph.Links` | Project/crawler/linkgraph/store/memory/base.go:73-86 | the result holds, each once, exactly the stored links with an ID in [from, to) retrieved before the threshold |
| `Memory.InMemoryGraph.UpsertEdge` | Project/crawler/linkgraph/store/memory/base.go:89-126 | the new state and the result are those of `AfterUpsertEdge`, with an unused draw as the ID of a new pair; the invariant is kept |
| `Memory.InMemoryGraph.FindInList` | Project/crawler/linkgraph/store/memory/base.go:100-107 | the loop over the adjacency list finds the position `FindEdge` specifies |
| `Memory.InMemoryGraph.Edges` | Project/crawler/linkgraph/store/memory/base.go:131-150 | the result holds, each once, exactly the stored edges whose source is a link with an ID in [from, to), updated before the threshold |
| `Memory.InMemoryGraph.AppendOlderEdges` | Project/crawler/linkgraph/store/memory/base.go:141-145 | the inner loop appends, after what was collected, the edges of the source's list updated before the threshold, in list order (`OlderEdges`); the result has no repeats and holds exactly those edges and the earlier ones |
| `Memory.OlderEdgesMembers` | Project/crawler/linkgraph/store/memory/base.go:141-145 | an edge is among those the inner loop yields for a list exactly when it is stored under an ID of the list and was updated before the threshold |
| `Memory.OlderEdgesDistinct` | Project/crawler/linkgraph/store/memory/base.go:141-145 | the edges the inner loop yields for a repeat-free list of edges of one source all leave that source and are pairwise distinct |
| `Memory.InMemoryGraph.RemoveStaleEdges` | Project/crawler/linkgraph/store/memory/base.go:154-172 | the new state is that of `AfterRemoveStaleEdges`, and the invariant is kept |
| `Memory.InMemoryGraph.DeleteStale` | Project/crawler/linkgraph/store/memory/base.go:158-167 | the loop deletes exactly the stale IDs of the list from the edge index, and returns the other IDs in order |

## Left out

- Locking: the reader-writer lock (Project/crawler/linkgraph/store/memory/dto.go:16) is not
  modelled. Each operation is one atomic step.
- Randomness: `uuid.New()` is the sequence `draws`. `NewId`, `UpsertLink` and
  `UpsertEdge` require that some draw is not an ID in use. Without such a draw the
  store's retry loop would never end.
- Clock: `time.Now().Unix()` is the parameter `now` of `UpsertEdge`.
- Shared records: in the store, `links[id]` and `linkURLIndex[url]` point to one record,
  and `UpsertLink` overwrites it through the URL index. Here they are two equal values that
  every operation writes together. The invariant `UrlIndexAgrees` states that they stay
  equal.
- Caller's record: the store writes the resolved fields into the record the caller passed
  in. Here `UpsertLink` and `UpsertEdge` return that record instead.
- Memory.InMemoryGraph.UpsertLink: the store writes back only the resolved ID into the
  caller's record, not the stored retrieval time. The model does the same: when a repeat
  upsert carries an older time, the returned record keeps the submitted time while the
  store keeps the later one. The PostgreSQL-backed store, by contrast, writes back both
  the ID and the later of the two times (Project/linkgraph/store/db/base.go:14-18,59).
- Scan aliasing: `Links` and `Edges` collect pointers to the stored records. A later
  update, such as an edge refresh, would show through those pointers. The model's scan
  results are values taken when the scan runs.
- Iterators: the iterator types that wrap a scan result are not part of this model. A scan
  result is a sequence.
- Scan order: Go visits a map in an unspecified order. The scans pick the next pending ID
  arbitrarily. Their contracts give the set of records and that none repeats, but no order.
- Errors: the operations that cannot fail return no error value. The context text the
  store wraps around the two error sentinels is not modelled.
- Missing adjacency list: `RemoveStaleEdges` on a source without a list stores an empty
  list for it, as the Go assignment of a nil slice does. No scan or lookup can observe the
  difference.
- All-ones identifier: the all-ones identifier lies in no range, so no scan returns it.
  Random version-4 identifiers never take that value.
- Other components: the PostgreSQL-backed graph, the Elasticsearch and bleve text
  indexers, and the interface and record declarations have no logic of their own to
  model.
