/** The two persisted lineage tables and the reconstruction of the graph from them. */
module DagPersistence {
  import opened Wrappers
  import opened Paths
  import opened DirectedGraph
  import opened LineageGraph
  import opened EdgeOrdering

  type EdgeKey = (Uuid, Uuid)

  ghost function KeyAt(g: DiGraph, k: nat): EdgeKey
    requires g.Wf() && k < |g.edges|
  {
    (g.nodes[g.edges[k].src], g.nodes[g.edges[k].dst])
  }

  ghost predicate EdgeStored(g: DiGraph, table: map<EdgeKey, EdgeMeta>, k: nat)
    requires g.Wf() && k < |g.edges|
  {
    KeyAt(g, k) in table && table[KeyAt(g, k)] == g.edges[k].meta
  }

  /** Every edge of the graph carries the metadata its row has. */
  ghost predicate MetaMatches(g: DiGraph, table: map<EdgeKey, EdgeMeta>)
    requires g.Wf()
  {
    forall k: nat {:trigger EdgeStored(g, table, k)} :: k < |g.edges| ==> EdgeStored(g, table, k)
  }

  /** The same branches, the same parent links and the same metadata on each link. */
  ghost predicate SameLineage(g: DiGraph, h: DiGraph)
    requires g.Wf() && h.Wf()
  {
    && g.Ids() == h.Ids() && g.Rel() == h.Rel()
    && exists table :: MetaMatches(g, table) && MetaMatches(h, table)
  }

  class DagSerializer {
    var nodes: map<Uuid, Uuid>
    var edges: map<EdgeKey, EdgeMeta>

    constructor ()
      ensures nodes == map[] && edges == map[]
    {
      nodes, edges := map[], map[];
    }

    /** Inserts a node row; an existing row is left alone. */
    method SaveNode(branchId: Uuid, workspaceId: Uuid)
      modifies `nodes
      ensures nodes == if branchId in old(nodes) then old(nodes) else old(nodes)[branchId := workspaceId]
    {
      if branchId !in nodes {
        nodes := nodes[branchId := workspaceId];
      }
    }

    /** Inserts an edge row without a merge cursor; an existing row is left alone, and a row whose
        endpoints are not stored is refused by the foreign keys. */
    method SaveEdge(parentId: Uuid, childId: Uuid, forkedAt: int) returns (stored: bool)
      modifies `edges
      ensures stored <==> (parentId, childId) in old(edges) || (parentId in nodes && childId in nodes)
      ensures edges == if stored && (parentId, childId) !in old(edges)
                       then old(edges)[(parentId, childId) := EdgeMeta(forkedAt, None)] else old(edges)
    {
      if (parentId, childId) in edges {
        return true;
      }
      if parentId !in nodes || childId !in nodes {
        return false;
      }
      edges := edges[(parentId, childId) := EdgeMeta(forkedAt, None)];
      return true;
    }

    /** The node rows of a workspace, and the edge rows with both ends in it. */
    ghost function NodeRows(workspaceId: Uuid): set<Uuid>
      reads this
    {
      RowsFor(nodes, workspaceId)
    }

    ghost function EdgeRows(workspaceId: Uuid): set<EdgeKey>
      reads this
    {
      EdgesOf(nodes, edges, workspaceId)
    }

    /** Rebuilds the graph: all nodes, then the edges in parent-before-child order. */
    method LoadGraph(workspaceId: Uuid) returns (r: Result<DagGraph, DagError>)
      ensures r.Ok? <==> Acyclic(EdgeRows(workspaceId))
      ensures r.Ok? ==> fresh(r.value) && r.value.Valid()
      ensures r.Ok? ==> r.value.graph.Ids() == NodeRows(workspaceId)
      ensures r.Ok? ==> r.value.graph.Rel() == EdgeRows(workspaceId)
      ensures r.Ok? ==> MetaMatches(r.value.graph, edges)
      ensures r.Err? ==> r.error.DagCycle? && (r.error.from, r.error.to) in EdgeRows(workspaceId)
    {
      var nodeRows := ListIds(set b | b in nodes && nodes[b] == workspaceId);
      var joined := set k | k in edges && k.0 in nodes && nodes[k.0] == workspaceId
                              && k.1 in nodes && nodes[k.1] == workspaceId;
      var records := ListEdges(joined, edges);
      var graph := new DagGraph();
      AddNodes(graph, nodeRows);
      assert graph.graph.Ids() == NodeRows(workspaceId);
      assert Pairs(records) == EdgeRows(workspaceId);
      var order, _ := KahnOrder(records);
      var failed := AddEdges(graph, records, order, edges);
      if failed.Some? {
        return Err(failed.value);
      }
      return Ok(graph);
    }

    /** Every edge row has stored ends, as the foreign keys demand. */
    ghost predicate EndsStored()
      reads this
    {
      forall k :: k in edges ==> k.0 in nodes && k.1 in nodes
    }

    /** Stores a whole graph row by row, beside whatever is stored already. Afterwards the rows of the workspace are
        exactly this graph if and only if it continues what the workspace had. */
    method SaveGraph(g: DiGraph, workspaceId: Uuid)
      requires GraphOk(g) && EndsStored()
      modifies this
      ensures EndsStored()
      ensures RowsWith(old(nodes), nodes, g.Ids(), workspaceId) && EdgesSaved(g, old(edges), edges)
      ensures NodeRows(workspaceId) == g.Ids() && EdgeRows(workspaceId) == g.Rel()
          <==> old(Continues(g, nodes, edges, workspaceId))
      ensures old(Continues(g, nodes, edges, workspaceId)) ==> forall other :: other != workspaceId ==>
                NodeRows(other) == old(NodeRows(other)) && EdgeRows(other) == old(EdgeRows(other))
    {
      assert (set b | b in g.nodes) == g.Ids();
      SaveNodes(g.nodes, workspaceId, g.Ids());
      SaveEdges(g, old(edges));
      RelInIds(g);
      RowsAdded(old(nodes), old(edges), nodes, edges, g, workspaceId);
    }

    method SaveNodes(rows: seq<Uuid>, workspaceId: Uuid, ghost ids: set<Uuid>)
      requires ids == (set b | b in rows)
      modifies `nodes
      ensures RowsWith(old(nodes), nodes, ids, workspaceId)
    {
      var i := 0;
      ghost var done: set<Uuid> := {};
      while i < |rows|
        invariant i <= |rows| && done == (set b | b in rows[..i])
        invariant RowsWith(old(nodes), nodes, done, workspaceId)
      {
        RowsPut(old(nodes), nodes, done, workspaceId, rows[i]);
        SaveNode(rows[i], workspaceId);
        done := done + {rows[i]};
        i := i + 1;
      }
      assert rows[..i] == rows;
    }

    method SaveEdges(g: DiGraph, ghost before: map<EdgeKey, EdgeMeta>)
      requires GraphOk(g) && edges == before && g.Ids() <= nodes.Keys
      modifies `edges
      ensures EdgesSaved(g, before, edges)
    {
      var k := 0;
      while k < |g.edges|
        invariant k <= |g.edges| && SavedUpTo(g, before, edges, k)
      {
        var e := g.edges[k];
        var parent, child := g.nodes[e.src], g.nodes[e.dst];
        NotSavedYet(g, before, edges, k);
        ghost var table := edges;
        var stored := SaveEdge(parent, child, e.meta.forkedAt);
        SaveStep(g, before, table, k, (parent, child), edges);
        k := k + 1;
      }
      SavedAll(g, before, edges);
    }

    /** Saving a graph and loading its workspace gives the graph back if and only if it continues what the workspace
        had and its metadata is what the rows keep. */
    method SaveThenLoad(g: DiGraph, workspaceId: Uuid) returns (r: Result<DagGraph, DagError>)
      requires GraphOk(g) && EndsStored()
      modifies this
      ensures r.Ok? ==> r.value.Valid()
      ensures r.Ok? && r.value.graph.Ids() == g.Ids() && r.value.graph.Rel() == g.Rel()
          <==> old(Continues(g, nodes, edges, workspaceId))
      ensures r.Ok? && SameLineage(g, r.value.graph)
          <==> old(Continues(g, nodes, edges, workspaceId)) && KeepsMeta(g, old(edges))
      ensures old(Continues(g, nodes, edges, workspaceId)) ==> forall other :: other != workspaceId ==>
                NodeRows(other) == old(NodeRows(other)) && EdgeRows(other) == old(EdgeRows(other))
    {
      SaveGraph(g, workspaceId);
      r := LoadGraph(workspaceId);
      SavedMeta(g, old(edges), edges);
      if r.Ok? && r.value.graph.Rel() == g.Rel() {
        SharedMeta(g, r.value.graph, edges);
      }
    }
  }

  // ── Row listing, in arbitrary order ──

  method ListIds(s: set<Uuid>) returns (rows: seq<Uuid>)
    ensures (set x | x in rows) == s
  {
    rows := [];
    var rest := s;
    while rest != {}
      invariant rest <= s && (set x | x in rows) == s - rest
      decreases rest
    {
      ghost var _ := SomeMember(rest);
      var x :| x in rest;
      assert (set y | y in rows + [x]) == (set y | y in rows) + {x};
      rows := rows + [x];
      rest := rest - {x};
    }
  }

  function Record(key: EdgeKey, meta: EdgeMeta): EdgeRecord {
    EdgeRecord(key.0, key.1, meta)
  }

  ghost predicate RecordsOf(table: map<EdgeKey, EdgeMeta>, records: seq<EdgeRecord>) {
    forall i :: 0 <= i < |records| ==>
      (records[i].parentId, records[i].childId) in table
      && table[(records[i].parentId, records[i].childId)] == records[i].meta
  }

  method ListEdges(s: set<EdgeKey>, table: map<EdgeKey, EdgeMeta>) returns (records: seq<EdgeRecord>)
    requires s <= table.Keys
    ensures Pairs(records) == s && RecordsOf(table, records)
    ensures forall i, j :: 0 <= i < j < |records| ==>
      records[i].parentId != records[j].parentId || records[i].childId != records[j].childId
  {
    records := [];
    var rest := s;
    while rest != {}
      invariant rest <= s && Pairs(records) == s - rest && RecordsOf(table, records)
      invariant forall i, j :: 0 <= i < j < |records| ==>
        records[i].parentId != records[j].parentId || records[i].childId != records[j].childId
      decreases rest
    {
      ghost var _ := SomeMember(rest);
      var key :| key in rest;
      ghost var before := records;
      records := records + [Record(key, table[key])];
      PairsPush(before, Record(key, table[key]));
      assert forall i :: 0 <= i < |before| ==> (before[i].parentId, before[i].childId) in Pairs(before);
      rest := rest - {key};
    }
  }

  lemma PairsPush(records: seq<EdgeRecord>, e: EdgeRecord)
    ensures Pairs(records + [e]) == Pairs(records) + {(e.parentId, e.childId)}
  {
    var longer := records + [e];
    assert longer[|records|] == e;
    forall p | p in Pairs(records) + {(e.parentId, e.childId)} ensures p in Pairs(longer) {
      if p in Pairs(records) {
        var k :| 0 <= k < |records| && p == (records[k].parentId, records[k].childId);
        assert longer[k] == records[k];
      }
    }
  }

  // ── Filling the graph ──

  method AddNodes(dag: DagGraph, rows: seq<Uuid>)
    requires dag.Valid() && dag.graph == DiGraph([], [])
    modifies dag
    ensures dag.Valid() && dag.graph.edges == [] && dag.graph.Rel() == {}
    ensures dag.graph.Ids() == set x | x in rows
  {
    var i := 0;
    while i < |rows|
      invariant i <= |rows|
      invariant dag.Valid() && dag.graph.edges == [] && dag.graph.Rel() == {}
      invariant dag.graph.Ids() == set x | x in rows[..i]
    {
      assert rows[..i + 1] == rows[..i] + [rows[i]];
      var _ := dag.AddNode(rows[i]);
      i := i + 1;
    }
    assert rows[..|rows|] == rows;
  }

  /** The pairs of the listed edges. */
  ghost function PairsListed(edges: seq<EdgeRecord>, order: seq<nat>): set<EdgeKey>
    requires forall i :: 0 <= i < |order| ==> order[i] < |edges|
  {
    set i | 0 <= i < |order| :: (edges[order[i]].parentId, edges[order[i]].childId)
  }

  /** Inserts the edges in the given order and stops at the first refusal. */
  method AddEdges(dag: DagGraph, records: seq<EdgeRecord>, order: seq<nat>, ghost table: map<EdgeKey, EdgeMeta>)
    returns (failed: Option<DagError>)
    requires dag.Valid() && dag.graph.edges == [] && dag.graph.Rel() == {}
    requires IsEdgePermutation(records, order) && RecordsOf(table, records)
    requires forall p :: p in Pairs(records) ==> p.0 in dag.graph.Ids() && p.1 in dag.graph.Ids()
    modifies dag
    ensures failed.None? <==> Acyclic(Pairs(records))
    ensures failed.None? ==> dag.Valid() && dag.graph.Ids() == old(dag.graph.Ids())
    ensures failed.None? ==> dag.graph.Rel() == Pairs(records) && MetaMatches(dag.graph, table)
    ensures failed.Some? ==> failed.value.DagCycle? && (failed.value.from, failed.value.to) in Pairs(records)
  {
    OrderInRange(records, order);
    var k := 0;
    while k < |order|
      invariant k <= |order|
      invariant dag.Valid() && dag.graph.Ids() == old(dag.graph.Ids())
      invariant dag.graph.Rel() == PairsListed(records, order[..k]) && MetaMatches(dag.graph, table)
    {
      var e := records[order[k]];
      PairsListedStep(records, order, k);
      ghost var before := dag.graph;
      var added := dag.AddEdgeMeta(e.parentId, e.childId, e.meta);
      if added.Err? {
        BackPathIsCyclic(before.Rel(), Pairs(records), e.parentId, e.childId);
        return Some(added.error);
      }
      MetaAfterAdd(before, dag.graph, table, e);
      k := k + 1;
    }
    assert order[..|order|] == order;
    ListedAllPairs(records, order);
    return None;
  }

  lemma OrderInRange(records: seq<EdgeRecord>, order: seq<nat>)
    requires IsEdgePermutation(records, order)
    ensures forall i :: 0 <= i < |order| ==> order[i] < |records|
  {
    forall i | 0 <= i < |order| ensures order[i] < |records| {
      assert order[i] in order;
    }
  }

  lemma PairsListedStep(records: seq<EdgeRecord>, order: seq<nat>, k: nat)
    requires k < |order| && forall i :: 0 <= i < |order| ==> order[i] < |records|
    ensures PairsListed(records, order[..k + 1])
      == PairsListed(records, order[..k]) + {(records[order[k]].parentId, records[order[k]].childId)}
    ensures PairsListed(records, order[..k]) <= Pairs(records)
    ensures (records[order[k]].parentId, records[order[k]].childId) in Pairs(records)
  {
    var longer, shorter := order[..k + 1], order[..k];
    assert longer[k] == order[k] && forall i :: 0 <= i < k ==> longer[i] == shorter[i];
    forall p | p in PairsListed(records, shorter) ensures p in PairsListed(records, longer) {
      var i :| 0 <= i < k && p == (records[shorter[i]].parentId, records[shorter[i]].childId);
      assert p == (records[longer[i]].parentId, records[longer[i]].childId);
    }
    assert (records[longer[k]].parentId, records[longer[k]].childId) in PairsListed(records, longer);
  }

  lemma ListedAllPairs(records: seq<EdgeRecord>, order: seq<nat>)
    requires IsEdgePermutation(records, order) && forall i :: 0 <= i < |order| ==> order[i] < |records|
    ensures PairsListed(records, order) == Pairs(records)
  {
    forall p | p in Pairs(records) ensures p in PairsListed(records, order) {
      var k: nat :| k < |records| && p == (records[k].parentId, records[k].childId);
      assert k in order;
      var i :| 0 <= i < |order| && order[i] == k;
      assert p == (records[order[i]].parentId, records[order[i]].childId);
    }
  }

  lemma BackPathIsCyclic(inner: set<EdgeKey>, e: set<EdgeKey>, u: Uuid, v: Uuid)
    requires inner <= e && (u, v) in e && (u == v || Reach(inner, v, u))
    ensures !Acyclic(e)
  {
    if u == v {
      ReachRefl(e, u);
    } else {
      ReachMono(inner, e, v, u);
    }
    if Acyclic(e) {
      NoBackPath(e, u, v);
    }
  }

  lemma MetaAfterAdd(g: DiGraph, h: DiGraph, table: map<EdgeKey, EdgeMeta>, e: EdgeRecord)
    requires g.Wf() && h.Wf() && MetaMatches(g, table)
    requires (e.parentId, e.childId) in table && table[(e.parentId, e.childId)] == e.meta
    requires h.nodes == g.nodes
    requires h.edges == g.edges || exists a: nat, b: nat ::
        a < |g.nodes| && b < |g.nodes| && g.nodes[a] == e.parentId && g.nodes[b] == e.childId
        && h.edges == g.edges + [Edge(a, b, e.meta)]
    ensures MetaMatches(h, table)
  {
    forall k: nat | k < |h.edges| ensures EdgeStored(h, table, k) {
      if k < |g.edges| {
        assert EdgeStored(g, table, k);
      }
    }
  }

  // ── Saving ──

  /** The rows of ids were added for workspace v unless there was a row already. */
  ghost predicate RowsWith<K, V>(m: map<K, V>, m': map<K, V>, ids: set<K>, v: V) {
    m'.Keys == m.Keys + ids && forall k :: k in m' ==> m'[k] == if k in m then m[k] else v
  }

  lemma RowsPut<K, V>(m: map<K, V>, m': map<K, V>, ids: set<K>, v: V, k: K)
    requires RowsWith(m, m', ids, v)
    ensures RowsWith(m, if k in m' then m' else m'[k := v], ids + {k}, v)
  {
    if k in m' {
      assert ids + {k} <= m'.Keys;
    }
  }

  /** The graph has every row of the workspace, and no branch that another workspace has stored. */
  ghost predicate Continues(g: DiGraph, nodes: map<Uuid, Uuid>, edges: map<EdgeKey, EdgeMeta>, workspaceId: Uuid)
    requires g.Wf()
  {
    && RowsFor(nodes, workspaceId) <= g.Ids() && EdgesOf(nodes, edges, workspaceId) <= g.Rel()
    && OwnRows(nodes, g.Ids(), workspaceId)
  }

  ghost predicate OwnRows<K, V>(m: map<K, V>, ids: set<K>, v: V) {
    forall k :: k in ids && k in m ==> m[k] == v
  }

  lemma NodesAdded<K, V>(m: map<K, V>, m': map<K, V>, ids: set<K>, v: V)
    requires RowsWith(m, m', ids, v)
    ensures RowsFor(m', v) == ids <==> RowsFor(m, v) <= ids && OwnRows(m, ids, v)
    ensures forall w :: w != v ==> RowsFor(m', w) == RowsFor(m, w)
  {
    if RowsFor(m', v) == ids {
      forall k | k in ids && k in m ensures m[k] == v {
        assert k in RowsFor(m', v);
      }
      assert RowsFor(m, v) <= RowsFor(m', v);
    }
  }

  /** What the tables hold for each workspace after the rows of a graph were added. */
  lemma RowsAdded(nodes: map<Uuid, Uuid>, edges: map<EdgeKey, EdgeMeta>, nodes': map<Uuid, Uuid>,
                  edges': map<EdgeKey, EdgeMeta>, g: DiGraph, v: Uuid)
    requires g.Wf() && RowsWith(nodes, nodes', g.Ids(), v) && edges'.Keys == edges.Keys + g.Rel()
    requires forall k :: k in edges ==> k.0 in nodes && k.1 in nodes
    requires forall k :: k in g.Rel() ==> k.0 in g.Ids() && k.1 in g.Ids()
    ensures RowsFor(nodes', v) == g.Ids() && EdgesOf(nodes', edges', v) == g.Rel()
        <==> Continues(g, nodes, edges, v)
    ensures Continues(g, nodes, edges, v) ==> forall w :: w != v ==>
        RowsFor(nodes', w) == RowsFor(nodes, w) && EdgesOf(nodes', edges', w) == EdgesOf(nodes, edges, w)
    ensures forall k :: k in edges' ==> k.0 in nodes' && k.1 in nodes'
  {
    NodesAdded(nodes, nodes', g.Ids(), v);
    assert EdgesOf(nodes, edges, v) <= EdgesOf(nodes', edges', v);
    if Continues(g, nodes, edges, v) {
      assert EdgesOf(nodes', edges', v) == g.Rel();
      forall w | w != v ensures EdgesOf(nodes', edges', w) == EdgesOf(nodes, edges, w) {
        assert RowsFor(nodes', w) !! g.Ids();
      }
    }
  }

  /** The row of edge k: as it was, or new and without merge cursor. */
  ghost predicate EdgeSaved(g: DiGraph, before: map<EdgeKey, EdgeMeta>, table: map<EdgeKey, EdgeMeta>, k: nat)
    requires g.Wf() && k < |g.edges|
  {
    var key := KeyAt(g, k);
    key in table && table[key] == if key in before then before[key] else EdgeMeta(g.edges[k].meta.forkedAt, None)
  }

  ghost predicate EdgesSaved(g: DiGraph, before: map<EdgeKey, EdgeMeta>, table: map<EdgeKey, EdgeMeta>)
    requires g.Wf()
  {
    && table.Keys == before.Keys + g.Rel() && (forall key :: key in before ==> table[key] == before[key])
    && forall k: nat {:trigger EdgeSaved(g, before, table, k)} :: k < |g.edges| ==> EdgeSaved(g, before, table, k)
  }

  ghost predicate MetaKept(g: DiGraph, before: map<EdgeKey, EdgeMeta>, k: nat)
    requires g.Wf() && k < |g.edges|
  {
    var key := KeyAt(g, k);
    if key in before then before[key] == g.edges[k].meta else g.edges[k].meta.mergeCursor == None
  }

  /** Edges stored before have the metadata of their rows, the others no merge cursor. */
  ghost predicate KeepsMeta(g: DiGraph, before: map<EdgeKey, EdgeMeta>)
    requires g.Wf()
  {
    forall k: nat {:trigger MetaKept(g, before, k)} :: k < |g.edges| ==> MetaKept(g, before, k)
  }

  lemma SavedMeta(g: DiGraph, before: map<EdgeKey, EdgeMeta>, table: map<EdgeKey, EdgeMeta>)
    requires g.Wf() && EdgesSaved(g, before, table)
    ensures MetaMatches(g, table) <==> KeepsMeta(g, before)
  {
    forall k: nat | k < |g.edges| ensures EdgeStored(g, table, k) <==> MetaKept(g, before, k) {
      assert EdgeSaved(g, before, table, k);
    }
  }

  /** A graph that carries the metadata of the table has the same lineage as another of the same shape exactly if
      that one carries it too. */
  lemma SharedMeta(g: DiGraph, h: DiGraph, table: map<EdgeKey, EdgeMeta>)
    requires g.Wf() && h.Wf() && MetaMatches(h, table) && h.Rel() == g.Rel()
    ensures SameLineage(g, h) <==> g.Ids() == h.Ids() && MetaMatches(g, table)
  {
    if SameLineage(g, h) {
      var shared :| MetaMatches(g, shared) && MetaMatches(h, shared);
      forall k: nat | k < |g.edges| ensures EdgeStored(g, table, k) {
        var j := EdgeWithEnds(g, h, k);
        assert EdgeStored(g, shared, k) && EdgeStored(h, shared, j) && EdgeStored(h, table, j);
      }
    }
  }

  lemma KeyInRel(g: DiGraph, k: nat)
    requires g.Wf() && k < |g.edges|
    ensures KeyAt(g, k) in g.Rel()
  {
  }

  lemma RelKey(g: DiGraph, key: EdgeKey) returns (k: nat)
    requires g.Wf() && key in g.Rel()
    ensures k < |g.edges| && key == KeyAt(g, k)
  {
    k :| k < |g.edges| && key == (g.nodes[g.edges[k].src], g.nodes[g.edges[k].dst]);
  }

  lemma KeysDiffer(g: DiGraph, j: nat, k: nat)
    requires GraphOk(g) && j < k < |g.edges|
    ensures KeyAt(g, j) != KeyAt(g, k)
  {
    assert g.edges[j].src != g.edges[k].src || g.edges[j].dst != g.edges[k].dst;
  }

  lemma EdgeWithEnds(g: DiGraph, h: DiGraph, k: nat) returns (j: nat)
    requires g.Wf() && h.Wf() && g.Rel() == h.Rel() && k < |g.edges|
    ensures j < |h.edges|
    ensures KeyAt(h, j) == KeyAt(g, k)
  {
    KeyInRel(g, k);
    j := RelKey(h, KeyAt(g, k));
  }

  ghost predicate SavedEdge(g: DiGraph, key: EdgeKey, k: nat)
    requires g.Wf()
  {
    exists j: nat :: j < k && j < |g.edges| && key == KeyAt(g, j)
  }

  /** The first k edges have rows, nothing else was added, and the rows before are as they were. */
  ghost predicate SavedUpTo(g: DiGraph, before: map<EdgeKey, EdgeMeta>, table: map<EdgeKey, EdgeMeta>, k: nat)
    requires g.Wf()
  {
    && (forall j: nat {:trigger EdgeSaved(g, before, table, j)} :: j < k && j < |g.edges| ==>
        EdgeSaved(g, before, table, j))
    && (forall key :: key in table ==> key in before || SavedEdge(g, key, k))
    && (forall key :: key in before ==> key in table && table[key] == before[key])
  }

  /** No edge before the k-th has its ends, so a row with them was there from the start. */
  lemma NotSavedYet(g: DiGraph, before: map<EdgeKey, EdgeMeta>, table: map<EdgeKey, EdgeMeta>, k: nat)
    requires GraphOk(g) && k < |g.edges| && SavedUpTo(g, before, table, k)
    ensures KeyAt(g, k) in table <==> KeyAt(g, k) in before
    ensures KeyAt(g, k).0 in g.Ids() && KeyAt(g, k).1 in g.Ids()
  {
    forall j: nat | j < k ensures KeyAt(g, j) != KeyAt(g, k) { KeysDiffer(g, j, k); }
    assert !SavedEdge(g, KeyAt(g, k), k);
    KeyInRel(g, k);
    RelInIds(g);
  }

  lemma SaveStep(g: DiGraph, before: map<EdgeKey, EdgeMeta>, table: map<EdgeKey, EdgeMeta>, k: nat, key: EdgeKey,
                 table': map<EdgeKey, EdgeMeta>)
    requires g.Wf() && k < |g.edges| && SavedUpTo(g, before, table, k)
    requires key == KeyAt(g, k) && (key in table <==> key in before)
    requires table' == if key in table then table else table[key := EdgeMeta(g.edges[k].meta.forkedAt, None)]
    ensures SavedUpTo(g, before, table', k + 1)
  {
    forall j: nat | j < k + 1 && j < |g.edges| ensures EdgeSaved(g, before, table', j) {
      if j < k { assert EdgeSaved(g, before, table, j); }
    }
    forall other | other in table' ensures other in before || SavedEdge(g, other, k + 1) {
      if other != key && other !in before { assert SavedEdge(g, other, k); }
    }
  }

  lemma SavedAll(g: DiGraph, before: map<EdgeKey, EdgeMeta>, table: map<EdgeKey, EdgeMeta>)
    requires g.Wf() && SavedUpTo(g, before, table, |g.edges|)
    ensures EdgesSaved(g, before, table)
  {
    forall key | key in g.Rel() ensures key in table {
      var k := RelKey(g, key);
      assert EdgeSaved(g, before, table, k);
    }
    forall key | key in table && key !in before ensures key in g.Rel() {
      assert SavedEdge(g, key, |g.edges|);
      var k: nat :| k < |g.edges| && key == KeyAt(g, k);
      KeyInRel(g, k);
    }
  }

  ghost function RowsFor<K, V>(m: map<K, V>, v: V): set<K> {
    set k | k in m && m[k] == v
  }

  ghost function EdgesOf(nodes: map<Uuid, Uuid>, edges: map<EdgeKey, EdgeMeta>, workspaceId: Uuid): set<EdgeKey> {
    set k | k in edges && k.0 in RowsFor(nodes, workspaceId) && k.1 in RowsFor(nodes, workspaceId)
  }
}
