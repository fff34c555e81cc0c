/** The in-memory link graph: a store object whose operations update its four indices in
    place. Each operation runs as one atomic step (the reader-writer lock is not modelled). */
module Memory {
  import opened Uuids
  import opened Graph
  import opened MemoryIndices
  import opened MemoryProperties

  /** The identifier-generation retry loop: take the generator's draws in order until one
      is not yet taken. `draws` stands for the random generator's output. */
  method NewId(taken: set<Uuid>, draws: seq<Uuid>) returns (id: Uuid)
    requires exists k :: 0 <= k < |draws| && draws[k] !in taken
    ensures id !in taken
    ensures exists k :: 0 <= k < |draws| && draws[k] == id && forall j :: 0 <= j < k ==> draws[j] in taken
  {
    var i := 0;
    while draws[i] in taken
      invariant 0 <= i < |draws|
      invariant forall j :: 0 <= j < i ==> draws[j] in taken
      invariant exists k :: i <= k < |draws| && draws[k] !in taken
      decreases |draws| - i
    {
      i := i + 1;
    }
    id := draws[i];
  }

  // ---------------------------------------------------------------------------
  // Bookkeeping of the link scan
  // ---------------------------------------------------------------------------

  /** What the link scan holds once every ID outside `pending` is visited: `list` holds,
      each once, exactly the links outside `pending` that the scan must yield. */
  ghost predicate LinkScanSoFar(s: Indices, list: seq<Link>, pending: set<Uuid>, fromId: Uuid, toId: Uuid, before: Timestamp)
  {
    && pending <= s.links.Keys
    && Distinct(list)
    && (forall k :: 0 <= k < |list| ==>
          list[k].id in s.links && s.links[list[k].id] == list[k] && list[k].id !in pending
          && InRange(list[k].id, fromId, toId) && list[k].retrievedAt < before)
    && (forall id ::
          (id in s.links && id !in pending && InRange(id, fromId, toId) && s.links[id].retrievedAt < before)
          ==> s.links[id] in list)
  }

  /** Visiting one pending ID, and appending its link when it is in range and older than
      `before`, keeps the scan's invariant. */
  lemma LinkScanStep(s: Indices, list: seq<Link>, pending: set<Uuid>, linkId: Uuid, fromId: Uuid, toId: Uuid, before: Timestamp)
    requires LinksKeyedById(s)
    requires LinkScanSoFar(s, list, pending, fromId, toId, before)
    requires linkId in pending
    ensures
      var link := s.links[linkId];
      var out := if InRange(linkId, fromId, toId) && link.retrievedAt < before then list + [link] else list;
      LinkScanSoFar(s, out, pending - {linkId}, fromId, toId, before)
  {
  }

  /** Once no ID is pending, the scan has yielded exactly the links in range. */
  lemma LinkScanDone(s: Indices, list: seq<Link>, fromId: Uuid, toId: Uuid, before: Timestamp)
    requires LinkScanSoFar(s, list, {}, fromId, toId, before)
    ensures forall l :: l in list <==> l in LinksInRange(s, fromId, toId, before)
  {
  }

  // ---------------------------------------------------------------------------
  // Bookkeeping of the edge scan
  // ---------------------------------------------------------------------------

  /** `adjacent` lists distinct stored edges, each keyed by its ID and leaving `src`. */
  ghost predicate Adjacent(s: Indices, src: Uuid, adjacent: seq<Uuid>)
  {
    && Distinct(adjacent)
    && forall j :: 0 <= j < |adjacent| ==>
         adjacent[j] in s.edges && s.edges[adjacent[j]].id == adjacent[j] && s.edges[adjacent[j]].src == src
  }

  /** In a consistent store every adjacency list is such a list. */
  lemma AdjacentList(s: Indices, src: Uuid)
    requires Consistent(s)
    ensures Adjacent(s, src, EdgeList(s, src))
  {
  }

  /** The edges named by `adjacent` that were updated before `before`, in list order. */
  function OlderEdges(adjacent: seq<Uuid>, edges: map<Uuid, Edge>, before: Timestamp): seq<Edge>
    requires AllIn(adjacent, edges)
  {
    if adjacent == [] then []
    else
      var last := edges[adjacent[|adjacent| - 1]];
      OlderEdges(adjacent[..|adjacent| - 1], edges, before) + (if last.updatedAt < before then [last] else [])
  }

  /** One more ID of the list adds at most its edge, at the end. */
  lemma OlderEdgesStep(adjacent: seq<Uuid>, edges: map<Uuid, Edge>, before: Timestamp, i: nat)
    requires AllIn(adjacent, edges) && i < |adjacent|
    ensures OlderEdges(adjacent[..i + 1], edges, before)
      == OlderEdges(adjacent[..i], edges, before)
         + (if edges[adjacent[i]].updatedAt < before then [edges[adjacent[i]]] else [])
  {
    assert adjacent[..i + 1][..i] == adjacent[..i];
  }

  /** The edges of an adjacency list's prefix, for the induction below. */
  lemma AdjacentPrefix(s: Indices, src: Uuid, adjacent: seq<Uuid>, n: nat)
    requires Adjacent(s, src, adjacent) && n <= |adjacent|
    ensures Adjacent(s, src, adjacent[..n])
  {
  }

  /** An edge is yielded for an adjacency list exactly when it is stored under an ID of
      the list and is older than `before`. */
  lemma {:induction false} OlderEdgesMembers(s: Indices, src: Uuid, adjacent: seq<Uuid>, before: Timestamp)
    requires Adjacent(s, src, adjacent)
    ensures forall e :: e in OlderEdges(adjacent, s.edges, before) <==>
      (e.id in adjacent && e.id in s.edges && s.edges[e.id] == e && e.updatedAt < before)
    decreases |adjacent|
  {
    if adjacent != [] {
      var n := |adjacent| - 1;
      AdjacentPrefix(s, src, adjacent, n);
      OlderEdgesMembers(s, src, adjacent[..n], before);
      assert adjacent == adjacent[..n] + [adjacent[n]];
    }
  }

  /** The edges yielded for an adjacency list all leave `src` and are pairwise distinct. */
  lemma {:induction false} OlderEdgesDistinct(s: Indices, src: Uuid, adjacent: seq<Uuid>, before: Timestamp)
    requires Adjacent(s, src, adjacent)
    ensures forall k :: 0 <= k < |OlderEdges(adjacent, s.edges, before)| ==>
      OlderEdges(adjacent, s.edges, before)[k].src == src
    ensures Distinct(OlderEdges(adjacent, s.edges, before))
    decreases |adjacent|
  {
    if adjacent != [] {
      var n := |adjacent| - 1;
      AdjacentPrefix(s, src, adjacent, n);
      OlderEdgesDistinct(s, src, adjacent[..n], before);
      OlderEdgesMembers(s, src, adjacent[..n], before);
      assert adjacent[n] !in adjacent[..n];
    }
  }

  /** Joining two repeat-free lists whose elements differ in source keeps it repeat-free. */
  lemma AppendDistinct(acc: seq<Edge>, more: seq<Edge>, src: Uuid)
    requires Distinct(acc) && Distinct(more)
    requires forall k :: 0 <= k < |acc| ==> acc[k].src != src
    requires forall k :: 0 <= k < |more| ==> more[k].src == src
    ensures Distinct(acc + more)
  {
  }

  /** `e` is stored under its ID, leaves a stored link outside `pending` with an ID in
      [fromId, toId), and is older than `before`. */
  ghost predicate Yielded(s: Indices, e: Edge, pending: set<Uuid>, fromId: Uuid, toId: Uuid, before: Timestamp)
  {
    e.id in s.edges && s.edges[e.id] == e && e.src in s.links && e.src !in pending
    && InRange(e.src, fromId, toId) && e.updatedAt < before
  }

  /** What the edge scan holds once every source outside `pending` is visited: `list`
      holds, each once, exactly the edges the scan must yield from those sources. */
  ghost predicate ScanSoFar(s: Indices, list: seq<Edge>, pending: set<Uuid>, fromId: Uuid, toId: Uuid, before: Timestamp)
  {
    && pending <= s.links.Keys
    && Distinct(list)
    && (forall k :: 0 <= k < |list| ==> Yielded(s, list[k], pending, fromId, toId, before))
    && (forall eid ::
          (eid in s.edges && s.edges[eid].src in s.links && s.edges[eid].src !in pending
           && InRange(s.edges[eid].src, fromId, toId) && s.edges[eid].updatedAt < before)
          ==> s.edges[eid] in list)
  }

  /** Passing over a source outside the range keeps the scan's invariant. */
  lemma ScanSkip(s: Indices, list: seq<Edge>, pending: set<Uuid>, linkId: Uuid, fromId: Uuid, toId: Uuid, before: Timestamp)
    requires ScanSoFar(s, list, pending, fromId, toId, before)
    requires linkId in pending && !InRange(linkId, fromId, toId)
    ensures ScanSoFar(s, list, pending - {linkId}, fromId, toId, before)
  {
  }

  /** Appending the older edges of a source in the range keeps the scan's invariant. */
  lemma ScanSource(s: Indices, list: seq<Edge>, out: seq<Edge>, pending: set<Uuid>, linkId: Uuid,
                   fromId: Uuid, toId: Uuid, before: Timestamp)
    requires EdgesKeyedById(s) && AdjacencySound(s) && AdjacencyComplete(s)
    requires ScanSoFar(s, list, pending, fromId, toId, before)
    requires linkId in pending && InRange(linkId, fromId, toId)
    requires Distinct(out)
    requires forall e :: e in out <==>
      e in list || (e.id in EdgeList(s, linkId) && e.id in s.edges && s.edges[e.id] == e && e.updatedAt < before)
    ensures ScanSoFar(s, out, pending - {linkId}, fromId, toId, before)
  {
  }

  /** Once no source is pending, the scan has yielded exactly the edges in range. */
  lemma ScanDone(s: Indices, list: seq<Edge>, fromId: Uuid, toId: Uuid, before: Timestamp)
    requires EdgesKeyedById(s)
    requires ScanSoFar(s, list, {}, fromId, toId, before)
    ensures forall e :: e in list <==> e in EdgesInRange(s, fromId, toId, before)
  {
  }

  class InMemoryGraph {
    var links: map<Uuid, Link>
    var edges: map<Uuid, Edge>
    var linkURLIndex: map<string, Link>
    var linkEdgeMap: map<Uuid, seq<Uuid>>

    /** The four indices as one value. */
    function State(): Indices
      reads this
    {
      Indices(links, edges, linkURLIndex, linkEdgeMap)
    }

    ghost predicate Valid()
      reads this
    {
      Consistent(State())
    }

    /** A new store with all four indices empty. */
    constructor ()
      ensures links == map[] && edges == map[] && linkURLIndex == map[] && linkEdgeMap == map[]
      ensures State() == Empty && Valid()
    {
      links := map[];
      edges := map[];
      linkURLIndex := map[];
      linkEdgeMap := map[];
    }

    /** Creates the link, or updates the stored link with the same URL; returns the
        caller's record as the store leaves it (with the resolved ID). */
    method UpsertLink(link: Link, draws: seq<Uuid>) returns (written: Link)
      requires Valid()
      requires exists k :: 0 <= k < |draws| && draws[k] !in links
      modifies this
      ensures Valid()
      ensures link.url !in old(linkURLIndex) ==> written.id !in old(links) && written.id in draws
      ensures (State(), written) == AfterUpsertLink(old(State()), link, written.id)
    {
      ghost var s0 := State();
      if link.url in linkURLIndex {
        var existing := linkURLIndex[link.url];
        written := link.(id := existing.id);
        var origTs := existing.retrievedAt;
        var stored := written;
        if origTs > stored.retrievedAt {
          stored := stored.(retrievedAt := origTs);
        }
        links := links[stored.id := stored];
        linkURLIndex := linkURLIndex[stored.url := stored];
      } else {
        var id := NewId(links.Keys, draws);
        written := link.(id := id);
        var copy := written;
        linkURLIndex := linkURLIndex[copy.url := copy];
        links := links[copy.id := copy];
      }
      UpsertLinkKeepsConsistent(s0, link, written.id);
    }

    /** Looks a link up by ID and returns a copy of it. */
    method FindLink(id: Uuid) returns (r: Result<Link>)
      requires Valid()
      ensures r.Err? <==> id !in links
      ensures r.Err? ==> r.error == NotFound
      ensures r.Ok? ==> r.value == links[id] && r.value.id == id
    {
      if id !in links {
        return Err(NotFound);
      }
      var copy := links[id];
      r := Ok(copy);
    }

    /** The links with an ID in [fromId, toId) retrieved before `retrievedBefore`, each
        once, in the (unspecified) order of a walk over the ID index. */
    method Links(fromId: Uuid, toId: Uuid, retrievedBefore: Timestamp) returns (list: seq<Link>)
      requires Valid()
      ensures forall l :: l in list <==> l in LinksInRange(State(), fromId, toId, retrievedBefore)
      ensures Distinct(list)
    {
      var from, to := Canonical(fromId), Canonical(toId);
      list := [];
      var pending := links.Keys;
      while pending != {}
        invariant LinkScanSoFar(State(), list, pending, fromId, toId, retrievedBefore)
        decreases pending
      {
        var linkId :| linkId in pending;
        var link := links[linkId];
        var text := Canonical(linkId);
        ghost var before := list;
        if !StrLess(text, from) && StrLess(text, to) && link.retrievedAt < retrievedBefore {
          list := list + [link];
        }
        LinkScanStep(State(), before, pending, linkId, fromId, toId, retrievedBefore);
        pending := pending - {linkId};
      }
      LinkScanDone(State(), list, fromId, toId, retrievedBefore);
    }

    /** Creates the edge, or refreshes the stored edge with the same source and
        destination, at time `now`; returns the caller's record as the store leaves it, or
        UnknownEdgeLinks when an end is not a stored link. */
    method UpsertEdge(edge: Edge, now: Timestamp, draws: seq<Uuid>) returns (r: Result<Edge>)
      requires Valid()
      requires exists k :: 0 <= k < |draws| && draws[k] !in edges
      modifies this
      ensures Valid()
      ensures r.Ok? && !PairStored(old(State()), edge.src, edge.dst) ==> r.value.id !in old(edges) && r.value.id in draws
      ensures (State(), r) == AfterUpsertEdge(old(State()), edge, now, if r.Ok? then r.value.id else edge.id)
    {
      ghost var s0 := State();
      if edge.src !in links || edge.dst !in links {
        return Err(UnknownEdgeLinks);
      }
      var list := EdgeList(State(), edge.src);
      var found := FindInList(list, edge.src, edge.dst);
      if found.Some? {
        ghost var eid := list[found.value];
        assert eid in s0.edges && s0.edges[eid].id == eid && Joins(s0.edges[eid], edge.src, edge.dst);
        UpsertEdgeStoredPair(s0, edge, now, eid, eid);
        RefreshKeepsConsistent(s0, edge, now, eid, eid);
        var existing := edges[list[found.value]];
        existing := existing.(updatedAt := now);
        edges := edges[list[found.value] := existing];
        r := Ok(existing);
        assert State() == AfterUpsertEdge(s0, edge, now, eid).0;
        return;
      }
      FindEdgeIffStored(s0, edge.src, edge.dst);
      var id := NewId(edges.Keys, draws);
      InsertKeepsConsistent(s0, edge, now, id);
      var created := edge.(id := id, updatedAt := now);
      edges := edges[created.id := created];
      linkEdgeMap := linkEdgeMap[edge.src := list + [created.id]];
      r := Ok(created);
      assert State() == AfterUpsertEdge(s0, edge, now, id).0;
    }

    /** The scan of an adjacency list for an edge from `src` to `dst`: the position of the
        first one, or None. */
    method FindInList(list: seq<Uuid>, src: Uuid, dst: Uuid) returns (found: Option<nat>)
      requires AllIn(list, edges)
      ensures found == FindEdge(list, edges, src, dst)
    {
      for i := 0 to |list|
        invariant forall j :: 0 <= j < i ==> !Joins(edges[list[j]], src, dst)
      {
        var existing := edges[list[i]];
        if existing.src == src && existing.dst == dst {
          FindEdgeFirst(list, edges, src, dst, i);
          return Some(i);
        }
      }
      FindEdgeFirst(list, edges, src, dst, |list|);
      return None;
    }

    /** The edges whose source is a link with an ID in [fromId, toId), updated before
        `updatedBefore`, each once. */
    method Edges(fromId: Uuid, toId: Uuid, updatedBefore: Timestamp) returns (list: seq<Edge>)
      requires Valid()
      ensures forall e :: e in list <==> e in EdgesInRange(State(), fromId, toId, updatedBefore)
      ensures Distinct(list)
    {
      var from, to := Canonical(fromId), Canonical(toId);
      list := [];
      var pending := links.Keys;
      while pending != {}
        invariant ScanSoFar(State(), list, pending, fromId, toId, updatedBefore)
        decreases pending
      {
        var linkId :| linkId in pending;
        var text := Canonical(linkId);
        if !StrLess(text, from) && StrLess(text, to) {
          var adjacent := EdgeList(State(), linkId);
          ghost var before := list;
          AdjacentList(State(), linkId);
          list := AppendOlderEdges(list, linkId, adjacent, updatedBefore);
          ScanSource(State(), before, list, pending, linkId, fromId, toId, updatedBefore);
        } else {
          ScanSkip(State(), list, pending, linkId, fromId, toId, updatedBefore);
        }
        pending := pending - {linkId};
      }
      ScanDone(State(), list, fromId, toId, updatedBefore);
    }

    /** The inner loop of the edge scan: append, in list order, the edges of `src`'s
        adjacency list `adjacent` that were updated before `before`. */
    method AppendOlderEdges(acc: seq<Edge>, src: Uuid, adjacent: seq<Uuid>, before: Timestamp) returns (out: seq<Edge>)
      requires Adjacent(State(), src, adjacent)
      requires Distinct(acc)
      requires forall k :: 0 <= k < |acc| ==> acc[k].src != src
      ensures Distinct(out)
      ensures |out| >= |acc| && out[..|acc|] == acc
      ensures out == acc + OlderEdges(adjacent, edges, before)
      ensures forall e :: e in out <==>
        e in acc || (e.id in adjacent && e.id in edges && edges[e.id] == e && e.updatedAt < before)
    {
      out := acc;
      for i := 0 to |adjacent|
        invariant out == acc + OlderEdges(adjacent[..i], edges, before)
      {
        OlderEdgesStep(adjacent, edges, before, i);
        var edge := edges[adjacent[i]];
        if edge.updatedAt < before {
          out := out + [edge];
        }
      }
      assert adjacent[..|adjacent|] == adjacent;
      OlderEdgesMembers(State(), src, adjacent, before);
      OlderEdgesDistinct(State(), src, adjacent, before);
      AppendDistinct(acc, OlderEdges(adjacent, edges, before), src);
      assert out[..|acc|] == acc;
    }

    /** Deletes every edge leaving `fromId` that was updated before `updatedBefore`, and
        keeps the rest of `fromId`'s list in order. */
    method RemoveStaleEdges(fromId: Uuid, updatedBefore: Timestamp)
      requires Valid()
      modifies this
      ensures Valid()
      ensures State() == AfterRemoveStaleEdges(old(State()), fromId, updatedBefore)
    {
      ghost var s0 := State();
      var list := EdgeList(State(), fromId);
      var newEdgeList := DeleteStale(list, updatedBefore);
      linkEdgeMap := linkEdgeMap[fromId := newEdgeList];
      RemoveStaleEdgesKeepsConsistent(s0, fromId, updatedBefore);
    }

    /** The loop of RemoveStaleEdges: delete each stale edge of `list` from the edge index
        and return the others in order. */
    method DeleteStale(list: seq<Uuid>, updatedBefore: Timestamp) returns (newEdgeList: seq<Uuid>)
      requires AllIn(list, edges) && Distinct(list)
      modifies this`edges
      ensures edges == old(edges) - Stale(list, old(edges), updatedBefore)
      ensures newEdgeList == Kept(list, old(edges), updatedBefore)
    {
      ghost var e0 := edges;
      newEdgeList := [];
      for i := 0 to |list|
        invariant edges == e0 - Stale(list[..i], e0, updatedBefore)
        invariant newEdgeList == Kept(list[..i], e0, updatedBefore)
      {
        FilterStep(list, i, e0, updatedBefore);
        var edge := edges[list[i]];
        if edge.updatedAt < updatedBefore {
          edges := edges - {list[i]};
          continue;
        }
        newEdgeList := newEdgeList + [list[i]];
      }
      assert list[..|list|] == list;
    }
  }
}
