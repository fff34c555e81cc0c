/** What the in-memory store promises, stated and proved over the value-level indices. */
module MemoryProperties {
  import opened Uuids
  import opened Graph
  import opened MemoryIndices

  /** A new store satisfies the invariant, and no scan over any range yields anything. */
  lemma EmptyIsConsistent()
    ensures Consistent(Empty)
    ensures forall fromId, toId, before :: LinksInRange(Empty, fromId, toId, before) == {}
    ensures forall fromId, toId, before :: EdgesInRange(Empty, fromId, toId, before) == {}
  {
  }

  // ---------------------------------------------------------------------------
  // UpsertLink
  // ---------------------------------------------------------------------------

  lemma UpsertLinkKeepsConsistent(s: Indices, link: Link, freshId: Uuid)
    requires Consistent(s)
    requires link.url !in s.linkURLIndex ==> freshId !in s.links
    ensures Consistent(AfterUpsertLink(s, link, freshId).0)
  {
    var s' := AfterUpsertLink(s, link, freshId).0;
    if link.url !in s.linkURLIndex {
      forall url | url in s'.linkURLIndex
        ensures s'.linkURLIndex[url].id in s'.links && s'.links[s'.linkURLIndex[url].id] == s'.linkURLIndex[url]
      {
        if url != link.url {
          assert s'.linkURLIndex[url] == s.linkURLIndex[url];
          assert s.linkURLIndex[url].id != freshId;
        }
      }
    }
  }

  /** Upserting a stored URL turns into an update of that link: its ID is written back to
      the caller, the set of IDs stays the same, and the stored retrieval time becomes the
      later of the prior and the submitted one. */
  lemma UpsertLinkExistingUrl(s: Indices, link: Link, freshId: Uuid)
    requires Consistent(s) && link.url in s.linkURLIndex
    ensures
      var (s', written) := AfterUpsertLink(s, link, freshId);
      var prior := s.linkURLIndex[link.url];
      && written == link.(id := prior.id)
      && s'.links.Keys == s.links.Keys
      && s'.linkURLIndex.Keys == s.linkURLIndex.Keys
      && s'.links[prior.id] == s'.linkURLIndex[link.url]
      && s'.links[prior.id].id == prior.id && s'.links[prior.id].url == link.url
      && s'.links[prior.id].retrievedAt >= prior.retrievedAt
      && s'.links[prior.id].retrievedAt >= link.retrievedAt
      && (s'.links[prior.id].retrievedAt == prior.retrievedAt || s'.links[prior.id].retrievedAt == link.retrievedAt)
      && (forall id :: id in s.links && id != prior.id ==> s'.links[id] == s.links[id])
      && s'.edges == s.edges && s'.linkEdgeMap == s.linkEdgeMap
  {
  }

  /** Upserting a new URL stores one new record, under an ID no link had before, in both
      the ID index and the URL index, and hands that record back to the caller. */
  lemma UpsertLinkNewUrl(s: Indices, link: Link, freshId: Uuid)
    requires Consistent(s) && link.url !in s.linkURLIndex && freshId !in s.links
    ensures
      var (s', written) := AfterUpsertLink(s, link, freshId);
      && written == Link(freshId, link.url, link.retrievedAt)
      && s'.links.Keys == s.links.Keys + {freshId}
      && s'.linkURLIndex.Keys == s.linkURLIndex.Keys + {link.url}
      && s'.links[freshId] == written && s'.linkURLIndex[link.url] == written
      && (forall id :: id in s.links ==> s'.links[id] == s.links[id])
      && s'.edges == s.edges && s'.linkEdgeMap == s.linkEdgeMap
  {
  }

  /** For every URL already stored, any upsert keeps its ID and never moves its retrieval
      time backwards. */
  lemma {:induction false} UpsertLinkNeverRegresses(s: Indices, link: Link, freshId: Uuid, url: string)
    requires Consistent(s) && url in s.linkURLIndex
    requires link.url !in s.linkURLIndex ==> freshId !in s.links
    ensures
      var s' := AfterUpsertLink(s, link, freshId).0;
      && url in s'.linkURLIndex
      && s'.linkURLIndex[url].id == s.linkURLIndex[url].id
      && s'.linkURLIndex[url].retrievedAt >= s.linkURLIndex[url].retrievedAt
  {
  }

  /** Distinct URLs are stored under distinct IDs. */
  lemma DistinctUrlsDistinctIds(s: Indices, u1: string, u2: string)
    requires Consistent(s) && u1 in s.linkURLIndex && u2 in s.linkURLIndex && u1 != u2
    ensures s.linkURLIndex[u1].id != s.linkURLIndex[u2].id
  {
  }

  /** After an upsert, looking up the ID written back to the caller finds the link with
      the submitted URL, retrieved no earlier than submitted. */
  lemma FindAfterUpsertLink(s: Indices, link: Link, freshId: Uuid)
    requires Consistent(s)
    requires link.url !in s.linkURLIndex ==> freshId !in s.links
    ensures
      var (s', written) := AfterUpsertLink(s, link, freshId);
      && written.id in s'.links
      && s'.links[written.id].url == link.url
      && s'.links[written.id].retrievedAt >= link.retrievedAt
      && s'.linkURLIndex[link.url] == s'.links[written.id]
  {
  }

  // ---------------------------------------------------------------------------
  // UpsertEdge
  // ---------------------------------------------------------------------------

  /** FindEdge is the first match: when no position before `i` matches, it answers `i` if
      that position matches, and None if `i` is the end of the list. */
  lemma {:induction false} FindEdgeFirst(list: seq<Uuid>, edges: map<Uuid, Edge>, src: Uuid, dst: Uuid, i: nat)
    requires AllIn(list, edges) && i <= |list|
    requires forall j :: 0 <= j < i ==> !Joins(edges[list[j]], src, dst)
    ensures i < |list| && Joins(edges[list[i]], src, dst) ==> FindEdge(list, edges, src, dst) == Some(i)
    ensures i == |list| ==> FindEdge(list, edges, src, dst) == None
  {
  }

  /** The scan of the source's adjacency list finds the pair exactly when it is stored. */
  lemma FindEdgeIffStored(s: Indices, src: Uuid, dst: Uuid)
    requires Consistent(s)
    ensures
      var list := EdgeList(s, src);
      var r := FindEdge(list, s.edges, src, dst);
      && (r.Some? <==> PairStored(s, src, dst))
      && (r.Some? ==> forall eid :: eid in s.edges && Joins(s.edges[eid], src, dst) ==> eid == list[r.value])
  {
  }

  /** An edge with an unknown end is refused and nothing is stored; an edge with two known
      ends is accepted. */
  lemma UpsertEdgeChecksEndpoints(s: Indices, edge: Edge, now: Timestamp, freshId: Uuid)
    requires Consistent(s)
    ensures
      var (s', r) := AfterUpsertEdge(s, edge, now, freshId);
      && (r.Err? <==> edge.src !in s.links || edge.dst !in s.links)
      && (r.Err? ==> r.error == UnknownEdgeLinks && s' == s)
  {
  }

  /** Re-upserting a stored pair keeps that edge's ID, refreshes its time to `now`, hands
      it back, and adds no edge and no adjacency entry. */
  lemma UpsertEdgeStoredPair(s: Indices, edge: Edge, now: Timestamp, freshId: Uuid, eid: Uuid)
    requires Consistent(s)
    requires edge.src in s.links && edge.dst in s.links
    requires eid in s.edges && Joins(s.edges[eid], edge.src, edge.dst)
    ensures
      var (s', r) := AfterUpsertEdge(s, edge, now, freshId);
      && r == Ok(Edge(eid, edge.src, edge.dst, now))
      && s'.edges == s.edges[eid := Edge(eid, edge.src, edge.dst, now)]
      && s'.linkEdgeMap == s.linkEdgeMap
      && s'.links == s.links && s'.linkURLIndex == s.linkURLIndex
  {
  }

  /** A new pair gets an ID no edge had before and the time `now`, and its ID is appended
      to the end of its source's adjacency list; every other list stays as it was. */
  lemma UpsertEdgeNewPair(s: Indices, edge: Edge, now: Timestamp, freshId: Uuid)
    requires Consistent(s)
    requires edge.src in s.links && edge.dst in s.links
    requires !PairStored(s, edge.src, edge.dst) && freshId !in s.edges
    ensures
      var (s', r) := AfterUpsertEdge(s, edge, now, freshId);
      && r == Ok(Edge(freshId, edge.src, edge.dst, now))
      && s'.edges == s.edges[freshId := r.value]
      && EdgeList(s', edge.src) == EdgeList(s, edge.src) + [freshId]
      && (forall src :: src != edge.src ==> EdgeList(s', src) == EdgeList(s, src))
      && s'.links == s.links && s'.linkURLIndex == s.linkURLIndex
  {
  }

  lemma UpsertEdgeKeepsConsistent(s: Indices, edge: Edge, now: Timestamp, freshId: Uuid)
    requires Consistent(s)
    requires !PairStored(s, edge.src, edge.dst) ==> freshId !in s.edges
    ensures Consistent(AfterUpsertEdge(s, edge, now, freshId).0)
  {
    if edge.src in s.links && edge.dst in s.links {
      if PairStored(s, edge.src, edge.dst) {
        var eid :| eid in s.edges && Joins(s.edges[eid], edge.src, edge.dst);
        RefreshKeepsConsistent(s, edge, now, freshId, eid);
      } else {
        InsertKeepsConsistent(s, edge, now, freshId);
      }
    }
  }

  lemma RefreshKeepsConsistent(s: Indices, edge: Edge, now: Timestamp, freshId: Uuid, eid: Uuid)
    requires Consistent(s) && edge.src in s.links && edge.dst in s.links
    requires eid in s.edges && Joins(s.edges[eid], edge.src, edge.dst)
    ensures Consistent(AfterUpsertEdge(s, edge, now, freshId).0)
  {
    UpsertEdgeStoredPair(s, edge, now, freshId, eid);
    RetimeKeepsConsistent(s, eid, now);
  }

  /** `s` with the time of edge `eid` set to `t`: the refresh branch of `AfterUpsertEdge`
      (see UpsertEdgeStoredPair). */
  function Retimed(s: Indices, eid: Uuid, t: Timestamp): Indices
    requires eid in s.edges
  {
    s.(edges := s.edges[eid := s.edges[eid].(updatedAt := t)])
  }

  /** Changing the time of a stored edge keeps the invariant: no identifier, endpoint or
      list changes. */
  lemma RetimeKeepsConsistent(s: Indices, eid: Uuid, t: Timestamp)
    requires Consistent(s) && eid in s.edges
    ensures Consistent(Retimed(s, eid, t))
  {
    var s' := Retimed(s, eid, t);
    assert s'.edges.Keys == s.edges.Keys;
    RetimeSound(s, eid, t);
    RetimeComplete(s, eid, t);
    RetimeOnePerPair(s, eid, t);
  }

  lemma RetimeSound(s: Indices, eid: Uuid, t: Timestamp)
    requires AdjacencySound(s) && eid in s.edges
    ensures AdjacencySound(Retimed(s, eid, t))
  {
  }

  lemma RetimeComplete(s: Indices, eid: Uuid, t: Timestamp)
    requires AdjacencyComplete(s) && eid in s.edges
    ensures AdjacencyComplete(Retimed(s, eid, t))
  {
  }

  lemma RetimeOnePerPair(s: Indices, eid: Uuid, t: Timestamp)
    requires OneEdgePerPair(s) && eid in s.edges
    ensures OneEdgePerPair(Retimed(s, eid, t))
  {
    var s' := Retimed(s, eid, t);
    forall e1, e2 | e1 in s'.edges && e2 in s'.edges && Joins(s'.edges[e1], s'.edges[e2].src, s'.edges[e2].dst)
      ensures e1 == e2
    {
      assert Joins(s.edges[e1], s.edges[e2].src, s.edges[e2].dst);
    }
  }

  lemma InsertKeepsConsistent(s: Indices, edge: Edge, now: Timestamp, freshId: Uuid)
    requires Consistent(s) && edge.src in s.links && edge.dst in s.links
    requires !PairStored(s, edge.src, edge.dst) && freshId !in s.edges
    ensures Consistent(AfterUpsertEdge(s, edge, now, freshId).0)
  {
    UpsertEdgeNewPair(s, edge, now, freshId);
    var created := Edge(freshId, edge.src, edge.dst, now);
    var s' := AfterUpsertEdge(s, edge, now, freshId).0;
    assert s' == WithNewEdge(s, created);
    AppendEdgeKeepsConsistent(s, created);
  }

  /** The indices with `created` stored and its ID appended to its source's list: the
      insert branch of `AfterUpsertEdge` (see InsertKeepsConsistent). */
  function WithNewEdge(s: Indices, created: Edge): Indices
  {
    s.(edges := s.edges[created.id := created],
       linkEdgeMap := s.linkEdgeMap[created.src := EdgeList(s, created.src) + [created.id]])
  }

  /** Storing a new edge for a new pair between stored links, and appending its ID to its
      source's list, keeps the invariant. */
  lemma AppendEdgeKeepsConsistent(s: Indices, created: Edge)
    requires Consistent(s) && created.src in s.links && created.dst in s.links
    requires !PairStored(s, created.src, created.dst) && created.id !in s.edges
    ensures Consistent(WithNewEdge(s, created))
  {
    AppendEdgeSound(s, created);
    AppendEdgeComplete(s, created);
    AppendEdgeDistinct(s, created);
    AppendEdgeOnePerPair(s, created);
  }

  lemma AppendEdgeSound(s: Indices, created: Edge)
    requires AdjacencySound(s) && created.id !in s.edges
    ensures AdjacencySound(WithNewEdge(s, created))
  {
  }

  lemma AppendEdgeComplete(s: Indices, created: Edge)
    requires AdjacencyComplete(s)
    ensures AdjacencyComplete(WithNewEdge(s, created))
  {
  }

  lemma AppendEdgeDistinct(s: Indices, created: Edge)
    requires AdjacencySound(s) && AdjacencyDistinct(s) && created.id !in s.edges
    ensures AdjacencyDistinct(WithNewEdge(s, created))
  {
  }

  lemma AppendEdgeOnePerPair(s: Indices, created: Edge)
    requires OneEdgePerPair(s) && !PairStored(s, created.src, created.dst) && created.id !in s.edges
    ensures OneEdgePerPair(WithNewEdge(s, created))
  {
  }

  /** After an accepted upsert the returned edge is stored and joins the submitted pair. */
  lemma UpsertEdgeStoresPair(s: Indices, edge: Edge, now: Timestamp, freshId: Uuid)
    requires Consistent(s)
    requires !PairStored(s, edge.src, edge.dst) ==> freshId !in s.edges
    ensures Consistent(AfterUpsertEdge(s, edge, now, freshId).0)
    ensures
      var (s', r) := AfterUpsertEdge(s, edge, now, freshId);
      r.Ok? ==> edge.src in s'.links && edge.dst in s'.links
                && r.value.id in s'.edges && Joins(s'.edges[r.value.id], edge.src, edge.dst)
  {
    UpsertEdgeKeepsConsistent(s, edge, now, freshId);
    if edge.src in s.links && edge.dst in s.links {
      if PairStored(s, edge.src, edge.dst) {
        var eid :| eid in s.edges && Joins(s.edges[eid], edge.src, edge.dst);
        UpsertEdgeStoredPair(s, edge, now, freshId, eid);
      } else {
        UpsertEdgeNewPair(s, edge, now, freshId);
      }
    }
  }

  /** Upserting the same pair twice yields the same edge ID both times, the second time
      with the second call's time, and stores nothing new. */
  lemma UpsertEdgeTwiceSameId(s: Indices, edge: Edge, now1: Timestamp, id1: Uuid, now2: Timestamp, id2: Uuid)
    requires Consistent(s) && edge.src in s.links && edge.dst in s.links
    requires !PairStored(s, edge.src, edge.dst) ==> id1 !in s.edges
    ensures AdjacencySound(AfterUpsertEdge(s, edge, now1, id1).0)
    ensures
      var first := AfterUpsertEdge(s, edge, now1, id1);
      var second := AfterUpsertEdge(first.0, edge, now2, id2);
      && first.1.Ok?
      && second.1 == Ok(first.1.value.(updatedAt := now2))
      && second.0.edges == first.0.edges[first.1.value.id := second.1.value]
      && second.0.linkEdgeMap == first.0.linkEdgeMap
  {
    UpsertEdgeStoresPair(s, edge, now1, id1);
    var first := AfterUpsertEdge(s, edge, now1, id1);
    UpsertEdgeStoredPair(first.0, edge, now2, id2, first.1.value.id);
  }

  // ---------------------------------------------------------------------------
  // RemoveStaleEdges
  // ---------------------------------------------------------------------------

  /** Filtering distributes over concatenation: kept IDs stay in their original order. */
  lemma {:induction false} KeptAppend(a: seq<Uuid>, b: seq<Uuid>, edges: map<Uuid, Edge>, before: Timestamp)
    requires AllIn(a, edges) && AllIn(b, edges)
    ensures AllIn(a + b, edges)
    ensures Kept(a + b, edges, before) == Kept(a, edges, before) + Kept(b, edges, before)
  {
    if a != [] {
      assert (a + b)[0] == a[0] && (a + b)[1..] == a[1..] + b;
      KeptAppend(a[1..], b, edges, before);
    } else {
      assert a + b == b;
    }
  }

  /** An ID is kept exactly when it is in the list and its edge is not stale. */
  lemma {:induction false} KeptMembers(list: seq<Uuid>, edges: map<Uuid, Edge>, before: Timestamp)
    requires AllIn(list, edges)
    ensures forall eid :: eid in Kept(list, edges, before) <==> eid in list && edges[eid].updatedAt >= before
  {
    if list != [] {
      KeptMembers(list[1..], edges, before);
      assert forall eid :: eid in list <==> eid == list[0] || eid in list[1..];
    }
  }

  lemma {:induction false} KeptDistinct(list: seq<Uuid>, edges: map<Uuid, Edge>, before: Timestamp)
    requires AllIn(list, edges) && Distinct(list)
    ensures Distinct(Kept(list, edges, before))
  {
    if list != [] {
      KeptDistinct(list[1..], edges, before);
      KeptMembers(list[1..], edges, before);
    }
  }

  /** Filtering again with a map that agrees on the kept IDs keeps them all. */
  lemma {:induction false} KeptAgain(list: seq<Uuid>, edges: map<Uuid, Edge>, edges': map<Uuid, Edge>, before: Timestamp)
    requires AllIn(list, edges)
    requires forall eid :: eid in list && edges[eid].updatedAt >= before ==> eid in edges' && edges'[eid] == edges[eid]
    ensures AllIn(Kept(list, edges, before), edges')
    ensures Kept(Kept(list, edges, before), edges', before) == Kept(list, edges, before)
  {
    if list != [] {
      KeptAgain(list[1..], edges, edges', before);
      var rest := Kept(list[1..], edges, before);
      if edges[list[0]].updatedAt >= before {
        assert Kept(list, edges, before) == [list[0]] + rest;
        assert ([list[0]] + rest)[0] == list[0] && ([list[0]] + rest)[1..] == rest;
        assert AllIn([list[0]] + rest, edges');
        assert Kept([list[0]] + rest, edges', before) == [list[0]] + Kept(rest, edges', before);
      } else {
        assert Kept(list, edges, before) == [] + rest == rest;
      }
    }
  }

  /** One step of the removal loop: the prefix grows by one ID, which is stale or kept. */
  lemma FilterStep(list: seq<Uuid>, i: nat, edges: map<Uuid, Edge>, before: Timestamp)
    requires i < |list| && AllIn(list, edges) && Distinct(list)
    ensures AllIn(list[..i], edges) && AllIn(list[..i + 1], edges)
    ensures list[i] !in Stale(list[..i], edges, before)
    ensures Stale(list[..i + 1], edges, before)
         == Stale(list[..i], edges, before) + (if edges[list[i]].updatedAt < before then {list[i]} else {})
    ensures Kept(list[..i + 1], edges, before)
         == Kept(list[..i], edges, before) + (if edges[list[i]].updatedAt < before then [] else [list[i]])
  {
    assert list[..i + 1] == list[..i] + [list[i]];
    KeptAppend(list[..i], [list[i]], edges, before);
    assert [list[i]][1..] == [];
    StaleMembers(list[..i], edges, before);
    StaleMembers(list[..i + 1], edges, before);
  }

  lemma StaleMembers(list: seq<Uuid>, edges: map<Uuid, Edge>, before: Timestamp)
    requires AllIn(list, edges)
    ensures forall eid :: eid in Stale(list, edges, before) <==> eid in list && edges[eid].updatedAt < before
  {
  }

  /** After `RemoveStaleEdges(src, before)`: every edge left from `src` was updated at or
      after `before` and `src`'s list keeps exactly those IDs in their old order; exactly
      the stale IDs of `src`'s list leave the edge index; the links and every other
      source's list are untouched. */
  lemma RemoveStaleEdgesEffect(s: Indices, src: Uuid, before: Timestamp)
    requires Consistent(s)
    ensures
      var s' := AfterRemoveStaleEdges(s, src, before);
      var list := EdgeList(s, src);
      && (forall eid :: eid in s'.edges && s'.edges[eid].src == src ==> s'.edges[eid].updatedAt >= before)
      && (forall eid :: eid in EdgeList(s', src) <==> eid in list && s.edges[eid].updatedAt >= before)
      && EdgeList(s', src) == Kept(list, s.edges, before)
      && s'.edges.Keys == s.edges.Keys - (set eid | eid in list && s.edges[eid].updatedAt < before)
      && (forall eid :: eid in s'.edges ==> s'.edges[eid] == s.edges[eid])
      && s'.links == s.links && s'.linkURLIndex == s.linkURLIndex
      && (forall other :: other != src ==> EdgeList(s', other) == EdgeList(s, other))
  {
    var s' := AfterRemoveStaleEdges(s, src, before);
    var list := EdgeList(s, src);
    KeptMembers(list, s.edges, before);
    StaleMembers(list, s.edges, before);
    forall eid | eid in s'.edges && s'.edges[eid].src == src ensures s'.edges[eid].updatedAt >= before {
      assert eid in list;
    }
  }

  lemma RemoveStaleEdgesKeepsConsistent(s: Indices, src: Uuid, before: Timestamp)
    requires Consistent(s)
    ensures Consistent(AfterRemoveStaleEdges(s, src, before))
  {
    var s' := AfterRemoveStaleEdges(s, src, before);
    assert s'.edges.Keys <= s.edges.Keys;
    RemoveStaleSound(s, src, before);
    RemoveStaleComplete(s, src, before);
    RemoveStaleDistinct(s, src, before);
  }

  lemma RemoveStaleSound(s: Indices, src: Uuid, before: Timestamp)
    requires AdjacencySound(s)
    ensures AdjacencySound(AfterRemoveStaleEdges(s, src, before))
  {
    var s' := AfterRemoveStaleEdges(s, src, before);
    var list := EdgeList(s, src);
    KeptMembers(list, s.edges, before);
    StaleMembers(list, s.edges, before);
    forall other, i | other in s'.linkEdgeMap && 0 <= i < |s'.linkEdgeMap[other]|
      ensures s'.linkEdgeMap[other][i] in s'.edges && s'.edges[s'.linkEdgeMap[other][i]].src == other
    {
      var eid := s'.linkEdgeMap[other][i];
      if other == src {
        assert eid in Kept(list, s.edges, before);
      } else {
        assert eid in s.edges && s.edges[eid].src == other;
      }
    }
  }

  lemma RemoveStaleComplete(s: Indices, src: Uuid, before: Timestamp)
    requires AdjacencySound(s) && AdjacencyComplete(s)
    ensures AdjacencyComplete(AfterRemoveStaleEdges(s, src, before))
  {
    var s' := AfterRemoveStaleEdges(s, src, before);
    var list := EdgeList(s, src);
    KeptMembers(list, s.edges, before);
    StaleMembers(list, s.edges, before);
    forall eid | eid in s'.edges ensures eid in EdgeList(s', s'.edges[eid].src) {
      assert eid in EdgeList(s, s.edges[eid].src);
    }
  }

  lemma RemoveStaleDistinct(s: Indices, src: Uuid, before: Timestamp)
    requires AdjacencySound(s) && AdjacencyDistinct(s)
    ensures AdjacencyDistinct(AfterRemoveStaleEdges(s, src, before))
  {
    var list := EdgeList(s, src);
    if src in s.linkEdgeMap {
      KeptDistinct(list, s.edges, before);
    }
  }

  /** A second removal with the same arguments changes nothing. */
  lemma RemoveStaleEdgesIdempotent(s: Indices, src: Uuid, before: Timestamp)
    requires Consistent(s)
    ensures
      var once := AfterRemoveStaleEdges(s, src, before);
      AdjacencySound(once) && AfterRemoveStaleEdges(once, src, before) == once
  {
    var once := AfterRemoveStaleEdges(s, src, before);
    RemoveStaleEdgesKeepsConsistent(s, src, before);
    var list := EdgeList(s, src);
    var kept := Kept(list, s.edges, before);
    KeptMembers(list, s.edges, before);
    StaleMembers(list, s.edges, before);
    KeptAgain(list, s.edges, once.edges, before);
    assert EdgeList(once, src) == kept;
    StaleMembers(kept, once.edges, before);
    KeptMembers(kept, once.edges, before);
    assert Stale(kept, once.edges, before) == {};
    assert once.edges - {} == once.edges;
    assert once.linkEdgeMap[src := kept] == once.linkEdgeMap;
  }

  // ---------------------------------------------------------------------------
  // Range scans and partitions
  // ---------------------------------------------------------------------------

  /** The union of what the scans over [b0, b1), [b1, b2), ... yield. */
  ghost function LinksOverPartition(s: Indices, bounds: seq<Uuid>, before: Timestamp): set<Link>
    decreases |bounds|
  {
    if |bounds| < 2 then {}
    else LinksInRange(s, bounds[0], bounds[1], before) + LinksOverPartition(s, bounds[1..], before)
  }

  ghost function EdgesOverPartition(s: Indices, bounds: seq<Uuid>, before: Timestamp): set<Edge>
    decreases |bounds|
  {
    if |bounds| < 2 then {}
    else EdgesInRange(s, bounds[0], bounds[1], before) + EdgesOverPartition(s, bounds[1..], before)
  }

  /** Splitting [a, c) at b. */
  lemma SplitRange(id: Uuid, a: Uuid, b: Uuid, c: Uuid)
    requires Value(a) <= Value(b) <= Value(c)
    ensures InRange(id, a, c) <==> InRange(id, a, b) || InRange(id, b, c)
  {
    InRangeByValue(id, a, c);
    InRangeByValue(id, a, b);
    InRangeByValue(id, b, c);
  }

  /** Scanning consecutive ranges and joining the results yields what one scan over the
      whole span yields. */
  lemma {:induction false} LinksTiling(s: Indices, bounds: seq<Uuid>, before: Timestamp)
    requires |bounds| >= 2 && Ascending(bounds)
    ensures LinksOverPartition(s, bounds, before) == LinksInRange(s, bounds[0], bounds[|bounds| - 1], before)
  {
    var n := |bounds|;
    if n > 2 {
      var rest := bounds[1..];
      assert Ascending(rest);
      LinksTiling(s, rest, before);
      AscendingSpan(bounds, 1, n - 1);
      forall id | id in s.links {
        SplitRange(id, bounds[0], bounds[1], bounds[n - 1]);
      }
    }
  }

  lemma {:induction false} EdgesTiling(s: Indices, bounds: seq<Uuid>, before: Timestamp)
    requires |bounds| >= 2 && Ascending(bounds)
    ensures EdgesOverPartition(s, bounds, before) == EdgesInRange(s, bounds[0], bounds[|bounds| - 1], before)
  {
    var n := |bounds|;
    if n > 2 {
      var rest := bounds[1..];
      assert Ascending(rest);
      EdgesTiling(s, rest, before);
      AscendingSpan(bounds, 1, n - 1);
      forall id: Uuid {
        SplitRange(id, bounds[0], bounds[1], bounds[n - 1]);
      }
    }
  }

  /** No link is yielded by two different ranges of a partition. */
  lemma LinksPartsDisjoint(s: Indices, bounds: seq<Uuid>, before: Timestamp, j: nat, k: nat)
    requires LinksKeyedById(s) && Ascending(bounds) && j < k < |bounds| - 1
    ensures LinksInRange(s, bounds[j], bounds[j + 1], before) !! LinksInRange(s, bounds[k], bounds[k + 1], before)
  {
    forall id: Uuid {
      PartitionDisjoint(bounds, id, j, k);
    }
  }

  /** No edge is yielded by two different ranges of a partition. */
  lemma EdgesPartsDisjoint(s: Indices, bounds: seq<Uuid>, before: Timestamp, j: nat, k: nat)
    requires EdgesKeyedById(s) && Ascending(bounds) && j < k < |bounds| - 1
    ensures EdgesInRange(s, bounds[j], bounds[j + 1], before) !! EdgesInRange(s, bounds[k], bounds[k + 1], before)
  {
    forall id: Uuid {
      PartitionDisjoint(bounds, id, j, k);
    }
  }
  // ---------------------------------------------------------------------------
  // A whole session
  // ---------------------------------------------------------------------------

  /** The store after the links of the session below: "a" under `x` at time 100 and "b"
      under `y` at time 90. */
  function TwoLinks(x: Uuid, y: Uuid): Indices
  {
    Indices(map[x := Link(x, "a", 100), y := Link(y, "b", 90)], map[],
            map["a" := Link(x, "a", 100), "b" := Link(y, "b", 90)], map[])
  }

  /** The link half of a crawl session on a new store: upserting URL "a" at time 100
      creates link `x`; upserting "a" again at time 50 keeps `x` and time 100; upserting
      "b" at time 90 creates link `y`. `x` and `y` are the generator's draws for the two
      new URLs; the draw offered on the repeat goes unused. */
  lemma SessionLinks(submitted: Uuid, x: Uuid, unused: Uuid, y: Uuid)
    requires x != y
    ensures
      var (s1, a1) := AfterUpsertLink(Empty, Link(submitted, "a", 100), x);
      var (s2, a2) := AfterUpsertLink(s1, Link(submitted, "a", 50), unused);
      var (s3, b) := AfterUpsertLink(s2, Link(submitted, "b", 90), y);
      && a1.id == x && a2 == Link(x, "a", 50) && s2.links[x] == Link(x, "a", 100)
      && b == Link(y, "b", 90) && s3 == TwoLinks(x, y)
  {
  }

  /** The edge half of the session: the edge from `x` to `y` is created as `e1` at `now1`;
      upserting it again at `now2` keeps `e1` and takes the new time; removing the edges
      of `x` older than a moment after `now2` leaves no edge at all, so no scan over any
      range yields one. `e1` is the generator's draw for the new edge; the draw offered on
      the repeat goes unused. */
  lemma SessionEdges(x: Uuid, y: Uuid, submitted: Uuid, e1: Uuid, unused: Uuid, now1: Timestamp, now2: Timestamp)
    requires x != y
    requires now2 < 0x7fff_ffff_ffff_ffff
    ensures AdjacencySound(AfterUpsertEdge(TwoLinks(x, y), Edge(submitted, x, y, 0), now1, e1).0)
    ensures
      var (s4, r4) := AfterUpsertEdge(TwoLinks(x, y), Edge(submitted, x, y, 0), now1, e1);
      var (s5, r5) := AfterUpsertEdge(s4, Edge(submitted, x, y, 0), now2, unused);
      var s6 := AfterRemoveStaleEdges(s5, x, now2 + 1);
      && r4 == Ok(Edge(e1, x, y, now1))
      && r5 == Ok(Edge(e1, x, y, now2))
      && s6.edges == map[] && EdgeList(s6, x) == [] && s6.links == TwoLinks(x, y).links
      && forall fromId, toId, before :: EdgesInRange(s6, fromId, toId, before) == {}
  {
    var s3 := TwoLinks(x, y);
    assert EdgeList(s3, x) == [] && FindEdge([], s3.edges, x, y) == None;
    assert [] + [e1] == [e1];
    var (s4, r4) := AfterUpsertEdge(s3, Edge(submitted, x, y, 0), now1, e1);
    assert s4 == s3.(edges := map[e1 := Edge(e1, x, y, now1)], linkEdgeMap := map[x := [e1]]);
    var (s5, r5) := AfterUpsertEdge(s4, Edge(submitted, x, y, 0), now2, unused);
    assert FindEdge([e1], s4.edges, x, y) == Some(0);
    assert s5 == s3.(edges := map[e1 := Edge(e1, x, y, now2)], linkEdgeMap := map[x := [e1]]);
    assert Kept([e1], s5.edges, now2 + 1) == [];
    assert Stale([e1], s5.edges, now2 + 1) == {e1} by {
      assert s5.edges[[e1][0]].updatedAt < now2 + 1;
    }
  }
}
