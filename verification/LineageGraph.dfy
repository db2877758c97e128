/** The in-memory lineage graph: a directed graph plus an index from identifiers to nodes. */
module LineageGraph {
  import opened Wrappers
  import opened Paths
  import opened DirectedGraph
  import opened GraphSearch

  datatype DagError =
    | DagNodeNotFound(id: Uuid)
    | DagCycle(from: Uuid, to: Uuid)
    | HasChildren(id: Uuid, count: nat)

  /** The index is the exact inverse of the node array. */
  ghost predicate IndexExact(g: DiGraph, index: map<Uuid, nat>) {
    && (forall id :: id in index ==> index[id] < |g.nodes| && g.nodes[index[id]] == id)
    && (forall i: nat :: i < |g.nodes| ==> g.nodes[i] in index && index[g.nodes[i]] == i)
  }

  /** What every insertion keeps: real endpoints, no parallel edges, no cycle. */
  ghost predicate GraphOk(g: DiGraph) {
    g.Wf() && g.Simple() && Acyclic(g.Rel())
  }

  function WithNode(nodes: seq<Uuid>, id: Uuid): seq<Uuid> {
    if id in nodes then nodes else nodes + [id]
  }

  lemma IndexedIffRegistered(g: DiGraph, index: map<Uuid, nat>)
    requires IndexExact(g, index)
    ensures forall id :: id in index <==> id in g.Ids()
  {
    forall id | id in g.Ids() ensures id in index {
      var i := IndexOf(g, id);
    }
  }

  /** A cycle check by walking up from every node: some node is its own strict ancestor. */
  method IsCyclicDirected(g: DiGraph) returns (cyclic: bool)
    requires g.Wf()
    ensures cyclic <==> !Acyclic(g.Rel())
  {
    var n := 0;
    while n < |g.nodes|
      invariant n <= |g.nodes|
      invariant forall i :: 0 <= i < n ==> !StrictReach(g.Rel(), g.nodes[i], g.nodes[i])
    {
      var seen, _ := WalkUp(g, n);
      if n in seen {
        SelfReachCyclic(g.Rel(), g.nodes[n]);
        return true;
      }
      n := n + 1;
    }
    NoSelfReachAcyclic(g);
    return false;
  }

  lemma SelfReachCyclic(e: set<(Uuid, Uuid)>, x: Uuid)
    requires StrictReach(e, x, x)
    ensures !Acyclic(e)
  {
    AcyclicNoSelf(e);
  }

  lemma NoSelfReachAcyclic(g: DiGraph)
    requires g.Wf()
    requires forall i :: 0 <= i < |g.nodes| ==> !StrictReach(g.Rel(), g.nodes[i], g.nodes[i])
    ensures Acyclic(g.Rel())
  {
    var e := g.Rel();
    RelInIds(g);
    forall x: Uuid ensures !StrictReach(e, x, x) {
      if StrictReach(e, x, x) {
        var v := StrictStep(e, x, x);
        var i := IndexOf(g, x);
        assert false;
      }
    }
    AcyclicNoSelf(e);
  }

  /** Walks up from a node with a stack and lists every node met, each once. */
  method WalkUp(g: DiGraph, start: nat) returns (seen: set<nat>, output: seq<Uuid>)
    requires g.Wf() && start < |g.nodes|
    ensures forall i: nat :: i in seen <==> i < |g.nodes| && StrictReach(g.Rel(), g.nodes[i], g.nodes[start])
    ensures Listed(g, seen, output)
    ensures ChainInv(ForestOk(g), g, g.nodes[start], output, [])
  {
    var stack := [start];
    seen, output := {}, [];
    ChainStart(ForestOk(g), g, start);
    while stack != []
      invariant UpInv(g, start, seen, stack, {})
      invariant Listed(g, seen, output)
      invariant ChainInv(ForestOk(g), g, g.nodes[start], output, stack)
      decreases Indices(g) - seen, |stack|
    {
      UpPop(g, start, seen, stack);
      ghost var seen0 := seen;
      var node := stack[|stack| - 1];
      stack := stack[..|stack| - 1];
      seen, stack, output := VisitParents(g, start, node, seen, stack, output);
      assert seen != seen0 ==> Indices(g) - seen < Indices(g) - seen0;
    }
    SeenIsStrictReach(g, start, seen);
  }

  /** Records, lists and stacks the parents of a node that were not met before. */
  method VisitParents(g: DiGraph, start: nat, node: nat, seen0: set<nat>, stack0: seq<nat>, output0: seq<Uuid>)
    returns (seen: set<nat>, stack: seq<nat>, output: seq<Uuid>)
    requires g.Wf() && start < |g.nodes| && node < |g.nodes|
    requires UpInv(g, start, seen0, stack0, {node}) && Listed(g, seen0, output0)
    requires ChainMid(ForestOk(g), g, g.nodes[start], output0, stack0, node, 0)
    ensures UpInv(g, start, seen, stack, {}) && Listed(g, seen, output)
    ensures ChainInv(ForestOk(g), g, g.nodes[start], output, stack)
    ensures seen0 <= seen && (seen == seen0 ==> stack == stack0)
  {
    seen, stack, output := seen0, stack0, output0;
    var parents := g.Incoming(node);
    var k := 0;
    while k < |parents|
      invariant UpInv(g, start, seen, stack, {node})
      invariant SeenUpTo(parents, k, seen)
      invariant Listed(g, seen, output)
      invariant seen0 <= seen && (seen == seen0 ==> stack == stack0)
      invariant ChainMid(ForestOk(g), g, g.nodes[start], output, stack, node, k)
    {
      var parent := parents[k];
      ChainStep(ForestOk(g), g, g.nodes[start], seen, output, stack, node, k);
      SeenStep(parents, k, seen);
      if parent !in seen {
        UpPush(g, start, seen, stack, node, parent);
        ListPush(g, seen, output, parent);
        seen := seen + {parent};
        output := output + [g.nodes[parent]];
        stack := stack + [parent];
      }
      k := k + 1;
    }
    AllSeen(g, node, seen);
    UpNext(g, start, seen, stack, node);
    ChainNext(ForestOk(g), g, g.nodes[start], output, stack, node);
  }

  ghost predicate ForestOk(g: DiGraph) {
    GraphOk(g) && Forest(g.Rel())
  }

  lemma SeenIsStrictReach(g: DiGraph, start: nat, seen: set<nat>)
    requires g.Wf() && start < |g.nodes| && UpInv(g, start, seen, [], {})
    ensures forall i: nat :: i in seen <==> i < |g.nodes| && StrictReach(g.Rel(), g.nodes[i], g.nodes[start])
  {
    UpDone(g, start, seen);
    forall i: nat ensures i in seen <==> i < |g.nodes| && StrictReach(g.Rel(), g.nodes[i], g.nodes[start]) {
      if i < |g.nodes| {
        LabelOfIndex(g, seen, i);
        assert g.nodes[i] in Labels(g, seen) <==> StrictReach(g.Rel(), g.nodes[i], g.nodes[start]);
      }
    }
  }

  lemma LabelOfIndex(g: DiGraph, seen: set<nat>, i: nat)
    requires g.Wf() && i < |g.nodes|
    ensures g.nodes[i] in Labels(g, seen) <==> i in seen
  {
    if g.nodes[i] in Labels(g, seen) {
      var j :| j in seen && j < |g.nodes| && g.nodes[j] == g.nodes[i];
    }
  }

  class DagGraph {
    var graph: DiGraph
    var nodeIndex: map<Uuid, nat>

    ghost predicate Valid()
      reads this
    {
      GraphOk(graph) && IndexExact(graph, nodeIndex)
    }

    constructor ()
      ensures Valid() && graph == DiGraph([], []) && nodeIndex == map[]
    {
      graph, nodeIndex := DiGraph([], []), map[];
      new;
      assert graph.Rel() == {};
    }

    /** Ensures a node exists and returns its index; registered nodes are left alone. */
    method EnsureOrInsert(id: Uuid) returns (idx: nat)
      requires Valid()
      modifies this
      ensures Valid()
      ensures graph.nodes == WithNode(old(graph.nodes), id) && graph.edges == old(graph.edges)
      ensures graph.Rel() == old(graph.Rel()) && graph.Ids() == old(graph.Ids()) + {id}
      ensures idx < |graph.nodes| && graph.nodes[idx] == id && nodeIndex[id] == idx
      ensures id in old(graph.Ids()) ==> graph == old(graph) && nodeIndex == old(nodeIndex)
    {
      IndexedIffRegistered(graph, nodeIndex);
      if id in nodeIndex {
        idx := nodeIndex[id];
        assert graph.nodes[idx] in graph.nodes;
      } else {
        AddNodeRel(graph, id);
        idx := |graph.nodes|;
        graph := graph.AddNode(id);
        nodeIndex := nodeIndex[id := idx];
      }
    }

    method AddNode(branchId: Uuid) returns (idx: nat)
      requires Valid()
      modifies this
      ensures Valid()
      ensures graph.nodes == WithNode(old(graph.nodes), branchId) && graph.edges == old(graph.edges)
      ensures graph.Rel() == old(graph.Rel()) && graph.Ids() == old(graph.Ids()) + {branchId}
      ensures idx < |graph.nodes| && graph.nodes[idx] == branchId
    {
      idx := EnsureOrInsert(branchId);
    }

    /** Inserts parent → child, checks for a cycle and undoes the insertion if there is one. */
    method AddEdgeMeta(parentId: Uuid, childId: Uuid, meta: EdgeMeta) returns (r: Result<(), DagError>)
      requires Valid()
      modifies this
      ensures Valid()
      ensures r.Err? <==> parentId == childId || Reach(old(graph.Rel()), childId, parentId)
      ensures r.Err? ==> r.error == DagCycle(parentId, childId)
      ensures r.Err? ==> graph == old(graph) && nodeIndex == old(nodeIndex)
      ensures r.Ok? ==> graph.nodes == WithNode(WithNode(old(graph.nodes), parentId), childId)
      ensures r.Ok? ==> graph.Ids() == old(graph.Ids()) + {parentId, childId}
      ensures r.Ok? ==> graph.Rel() == old(graph.Rel()) + {(parentId, childId)}
      ensures r.Ok? ==> parentId in nodeIndex && childId in nodeIndex
      ensures r.Ok? ==> graph.edges ==
                        if (parentId, childId) in old(graph.Rel()) then old(graph.edges)
                        else old(graph.edges) + [Edge(nodeIndex[parentId], nodeIndex[childId], meta)]
    {
      if parentId == childId {
        return Err(DagCycle(parentId, childId));
      }
      var parentIdx := EnsureOrInsert(parentId);
      var childIdx := EnsureOrInsert(childId);
      assert graph.nodes[parentIdx] == parentId;
      var ok := Connect(parentIdx, childIdx, meta);
      if !ok {
        ReachRegistered(old(graph), childId, parentId);
        return Err(DagCycle(parentId, childId));
      }
      return Ok(());
    }

    /** Joins two registered nodes: an existing edge is kept as it is, a closing one is refused. */
    method Connect(parentIdx: nat, childIdx: nat, meta: EdgeMeta) returns (ok: bool)
      requires Valid() && parentIdx < |graph.nodes| && childIdx < |graph.nodes|
      modifies `graph
      ensures Valid()
      ensures graph.nodes == old(graph.nodes) && graph.Ids() == old(graph.Ids())
      ensures ok <==> !Reach(old(graph.Rel()), graph.nodes[childIdx], graph.nodes[parentIdx])
      ensures !ok ==> graph == old(graph)
      ensures ok ==> graph.Rel() == old(graph.Rel()) + {(graph.nodes[parentIdx], graph.nodes[childIdx])}
      ensures ok ==> graph.edges ==
                     if (graph.nodes[parentIdx], graph.nodes[childIdx]) in old(graph.Rel()) then old(graph.edges)
                     else old(graph.edges) + [Edge(parentIdx, childIdx, meta)]
    {
      FindEdgeSpec(graph, parentIdx, childIdx);
      if graph.FindEdge(parentIdx, childIdx).Some? {
        NoBackPath(graph.Rel(), graph.nodes[parentIdx], graph.nodes[childIdx]);
        assert graph.Rel() == graph.Rel() + {(graph.nodes[parentIdx], graph.nodes[childIdx])};
        return true;
      }
      ok := InsertUnlessCyclic(parentIdx, childIdx, meta);
    }

    /** Inserts a new edge between registered nodes, or leaves everything as it was. */
    method InsertUnlessCyclic(parentIdx: nat, childIdx: nat, meta: EdgeMeta) returns (ok: bool)
      requires Valid() && parentIdx < |graph.nodes| && childIdx < |graph.nodes|
      requires graph.FindEdge(parentIdx, childIdx).None?
      modifies `graph
      ensures Valid()
      ensures graph.nodes == old(graph.nodes)
      ensures ok <==> !Reach(old(graph.Rel()), graph.nodes[childIdx], graph.nodes[parentIdx])
      ensures !ok ==> graph == old(graph)
      ensures ok ==> graph == old(graph).AddEdge(parentIdx, childIdx, meta)
      ensures ok ==> graph.Rel() == old(graph.Rel()) + {(graph.nodes[parentIdx], graph.nodes[childIdx])}
    {
      ghost var before := graph;
      AddEdgeRel(graph, parentIdx, childIdx, meta);
      AddEdgeAcyclic(graph.Rel(), graph.nodes[parentIdx], graph.nodes[childIdx]);
      graph := graph.AddEdge(parentIdx, childIdx, meta);
      var cyclic := IsCyclicDirected(graph);
      if cyclic {
        RemoveLastEdge(before, parentIdx, childIdx, meta);
        var e := graph.FindEdge(parentIdx, childIdx);
        if e.Some? {
          graph := graph.RemoveEdge(e.value);
        }
      }
      return !cyclic;
    }

    /** Removes a childless node. The graph stays sound; the index stays exact only when the
        removed node was the last one, because the last node moves into the hole. */
    method RemoveNode(branchId: Uuid) returns (r: Result<(), DagError>)
      requires Valid()
      modifies this
      ensures GraphOk(graph)
      ensures r.Err? <==> branchId !in old(graph.Ids()) || exists c: Uuid :: (branchId, c) in old(graph.Rel())
      ensures branchId !in old(graph.Ids()) ==> r == Err(DagNodeNotFound(branchId))
      ensures r.Err? && branchId in old(graph.Ids()) ==>
          r.error == HasChildren(branchId, |ChildrenOf(old(graph.Rel()), branchId)|)
      ensures r.Err? ==> graph == old(graph) && nodeIndex == old(nodeIndex)
      ensures r.Ok? ==> graph.Ids() == old(graph.Ids()) - {branchId}
      ensures r.Ok? ==> graph.Rel() == set e | e in old(graph.Rel()) && e.1 != branchId
      ensures r.Ok? ==> forall u, v, meta :: HasEdge(graph, u, v, meta) <==>
                old(HasEdge(graph, u, v, meta)) && v != branchId
      ensures r.Ok? ==> nodeIndex == old(nodeIndex) - {branchId}
      ensures r.Ok? ==> branchId in old(nodeIndex)
      ensures r.Ok? ==> (IndexExact(graph, nodeIndex) <==> old(nodeIndex)[branchId] == |graph.nodes|)
    {
      IndexedIffRegistered(graph, nodeIndex);
      if branchId !in nodeIndex {
        return Err(DagNodeNotFound(branchId));
      }
      var idx := nodeIndex[branchId];
      var childCount := |graph.Outgoing(idx)|;
      ChildlessSpec(graph, idx);
      ChildCount(graph, idx);
      if childCount > 0 {
        return Err(HasChildren(branchId, childCount));
      }
      RemoveNodeRel(graph, idx);
      forall u, v, meta
        ensures HasEdge(graph.RemoveNode(idx), u, v, meta) <==> HasEdge(graph, u, v, meta) && v != branchId
      {
        RemoveNodeMeta(graph, idx, u, v, meta);
        ChildlessEdge(graph, idx, u, v, meta);
      }
      graph := graph.RemoveNode(idx);
      nodeIndex := nodeIndex - {branchId};
      AcyclicSubset(graph.Rel(), old(graph.Rel()));
      RemovedIndex(old(graph), old(nodeIndex), idx);
      assert graph.Rel() == set e | e in old(graph.Rel()) && e.1 != branchId;
      return Ok(());
    }

    /** All strict ancestors, each once; in a forest, the parent chain from the closest up. */
    method AncestorsOf(branchId: Uuid) returns (r: Result<seq<Uuid>, DagError>)
      requires Valid()
      ensures r.Err? <==> branchId !in graph.Ids()
      ensures r.Err? ==> r.error == DagNodeNotFound(branchId)
      ensures r.Ok? ==> Distinct(r.value)
      ensures r.Ok? ==> forall x :: x in r.value <==> x != branchId && Reach(graph.Rel(), x, branchId)
      ensures r.Ok? && Forest(graph.Rel()) ==> RootPath(graph.Rel(), Reversed(r.value) + [branchId], branchId)
    {
      IndexedIffRegistered(graph, nodeIndex);
      if branchId !in nodeIndex {
        return Err(DagNodeNotFound(branchId));
      }
      var start := nodeIndex[branchId];
      var seen, output := WalkUp(graph, start);
      ListedAncestors(graph, start, seen, output);
      return Ok(output);
    }

    method IsAncestor(ancestorId: Uuid, descendantId: Uuid) returns (r: Result<bool, DagError>)
      requires Valid()
      ensures r.Err? <==> ancestorId != descendantId && descendantId !in graph.Ids()
      ensures r.Ok? ==> (r.value <==> Reach(graph.Rel(), ancestorId, descendantId))
    {
      ReachRefl(graph.Rel(), ancestorId);
      if ancestorId == descendantId {
        return Ok(true);
      }
      var ancestors := AncestorsOf(descendantId);
      if ancestors.Err? {
        return Err(ancestors.error);
      }
      return Ok(ancestorId in ancestors.value);
    }

    /** Scans b's ancestors for the first one that is also above a. */
    method FindMergeBase(a: Uuid, b: Uuid) returns (r: Result<Option<Uuid>, DagError>)
      requires Valid()
      ensures a == b ==> r == Ok(Some(a))
      ensures r.Err? <==> a != b && (a !in graph.Ids() || b !in graph.Ids())
      ensures r.Err? ==> r.error == DagNodeNotFound(if a !in graph.Ids() then a else b)
      ensures r.Ok? && r.value.Some? ==> Reach(graph.Rel(), r.value.value, a) && Reach(graph.Rel(), r.value.value, b)
      ensures r.Ok? && r.value.None? ==> forall x :: !(Reach(graph.Rel(), x, a) && Reach(graph.Rel(), x, b))
      ensures r.Ok? && r.value.Some? && Forest(graph.Rel()) ==> LowestCommon(graph.Rel(), a, b, r.value.value)
    {
      ReachRefl(graph.Rel(), a);
      ReachRefl(graph.Rel(), b);
      if a == b {
        return Ok(Some(a));
      }
      var aAncestors := AncestorsOf(a);
      if aAncestors.Err? {
        return Err(aAncestors.error);
      }
      var aSet := (set x | x in aAncestors.value) + {a};
      assert forall x :: x in aSet <==> Reach(graph.Rel(), x, a);
      ReachRegistered(graph, b, a);
      if b in aSet {
        return Ok(Some(b));
      }
      var bAncestors := AncestorsOf(b);
      if bAncestors.Err? {
        return Err(bAncestors.error);
      }
      var k := 0;
      while k < |bAncestors.value|
        invariant k <= |bAncestors.value|
        invariant forall j :: 0 <= j < k ==> bAncestors.value[j] !in aSet
      {
        var anc := bAncestors.value[k];
        if anc in aSet {
          if Forest(graph.Rel()) {
            FirstSharedIsLowest(graph.Rel(), a, b, bAncestors.value, k);
          }
          return Ok(Some(anc));
        }
        k := k + 1;
      }
      forall x: Uuid ensures !(Reach(graph.Rel(), x, a) && Reach(graph.Rel(), x, b)) {
        if Reach(graph.Rel(), x, b) && x != b {
          assert x in bAncestors.value;
        }
      }
      return Ok(None);
    }

    /** Breadth-first search from every parentless node. */
    method DepthOf(branchId: Uuid) returns (r: Result<nat, DagError>)
      requires Valid()
      ensures r.Err? <==> branchId !in graph.Ids()
      ensures r.Err? ==> r.error == DagNodeNotFound(branchId)
      ensures r.Ok? ==> IsDepth(graph.Rel(), branchId, r.value)
    {
      IndexedIffRegistered(graph, nodeIndex);
      if branchId !in nodeIndex {
        return Err(DagNodeNotFound(branchId));
      }
      var target := nodeIndex[branchId];
      var depthMap, queue := RootQueue(graph);
      ghost var level := 0;
      while queue != []
        invariant DownInv(graph, depthMap, queue, {}, level)
        decreases Indices(graph) - depthMap.Keys, |queue|
      {
        DownPop(graph, depthMap, queue, level);
        ghost var depth0 := depthMap;
        var node := queue[0];
        level := depthMap[node];
        queue := queue[1..];
        depthMap, queue := VisitChildren(graph, node, depthMap, queue);
        assert depthMap != depth0 ==> Indices(graph) - depthMap.Keys < Indices(graph) - depth0.Keys;
      }
      RootPathExists(graph, target);
      DownDone(graph, depthMap, level, target);
      return Ok(depthMap[target]);
    }
  }

  lemma ChildlessEdge(g: DiGraph, idx: nat, u: Uuid, v: Uuid, meta: EdgeMeta)
    requires g.Wf() && idx < |g.nodes| && g.Outgoing(idx) == []
    ensures HasEdge(g, u, v, meta) ==> u != g.nodes[idx]
  {
    if HasEdge(g, u, v, meta) {
      var k :| 0 <= k < |g.edges| && EdgeIs(g, k, u, v, meta);
      assert g.edges[k].dst !in g.Outgoing(idx);
    }
  }

  /** After two insertions and the removal of the first node, the index points past the remaining node. */
  method StaleIndex() returns (dag: DagGraph, r: Result<(), DagError>)
    ensures r.Ok? && dag.graph.Ids() == {2} && |dag.graph.nodes| == 1
    ensures 2 in dag.nodeIndex && dag.nodeIndex[2] == 1 && !dag.Valid()
  {
    dag := new DagGraph();
    var first := dag.AddNode(1);
    var second := dag.AddNode(2);
    assert dag.graph.nodes[0] == 1 && dag.graph.nodes[1] == 2;
    r := dag.RemoveNode(1);
    DistinctSize(dag.graph.nodes);
    assert (set x | x in dag.graph.nodes) == dag.graph.Ids();
  }

  /** All parentless nodes at depth zero, queued in index order. */
  method RootQueue(g: DiGraph) returns (depth: map<nat, nat>, queue: seq<nat>)
    requires g.Wf()
    ensures DownInv(g, depth, queue, {}, 0)
  {
    depth, queue := map[], [];
    var n := 0;
    while n < |g.nodes|
      invariant n <= |g.nodes|
      invariant RootsBelow(g, depth, queue, n)
    {
      RootStep(g, depth, queue, n);
      if |g.Incoming(n)| == 0 {
        depth := depth[n := 0];
        queue := queue + [n];
      }
      n := n + 1;
    }
    RootsDone(g, depth, queue);
  }

  /** Records the children of `node` that were not met before, one level deeper. */
  method VisitChildren(g: DiGraph, node: nat, depth0: map<nat, nat>, queue0: seq<nat>)
    returns (depth: map<nat, nat>, queue: seq<nat>)
    requires g.Wf() && node in depth0 && node < |g.nodes| && DownInv(g, depth0, queue0, {node}, depth0[node])
    ensures DownInv(g, depth, queue, {}, depth0[node])
    ensures depth0.Keys <= depth.Keys && depth.Keys <= Indices(g)
    ensures depth != depth0 ==> depth0.Keys < depth.Keys
    ensures depth == depth0 ==> queue == queue0
  {
    depth, queue := depth0, queue0;
    var d := depth[node];
    var children := g.Outgoing(node);
    var k := 0;
    while k < |children|
      invariant k <= |children|
      invariant node in depth && depth[node] == d
      invariant DownInv(g, depth, queue, {node}, d)
      invariant depth0.Keys <= depth.Keys
      invariant depth != depth0 ==> depth0.Keys < depth.Keys
      invariant depth == depth0 ==> queue == queue0
      invariant RecordedUpTo(children, k, depth)
    {
      var child := children[k];
      RecordedStep(children, k, depth, d + 1);
      if child !in depth {
        DownPush(g, depth, queue, node, child);
        depth := depth[child := d + 1];
        queue := queue + [child];
      }
      k := k + 1;
    }
    AllRecorded(g, depth, node);
    DownNext(g, depth, queue, node, d);
  }

  // ── Supporting facts ──

  /** Every registered node of an acyclic graph hangs below a parentless node. */
  lemma RootPathExists(g: DiGraph, i: nat)
    requires GraphOk(g) && i < |g.nodes|
    ensures exists p :: RootPath(g.Rel(), p, g.nodes[i])
  {
    RelInIds(g);
    var p := RootPathAbove(g.Rel(), g.Ids(), [g.nodes[i]]);
  }

  ghost predicate RootsBelow(g: DiGraph, depth: map<nat, nat>, queue: seq<nat>, n: nat)
    requires g.Wf()
  {
    && (forall i :: i in depth ==> i < n && i < |g.nodes| && depth[i] == 0 && !HasParent(g.Rel(), g.nodes[i]))
    && (forall i: nat :: i < n && i < |g.nodes| && !HasParent(g.Rel(), g.nodes[i]) ==> i in depth)
    && (forall i :: i in depth <==> i in queue)
  }

  lemma RootStep(g: DiGraph, depth: map<nat, nat>, queue: seq<nat>, n: nat)
    requires g.Wf() && n < |g.nodes| && RootsBelow(g, depth, queue, n)
    ensures |g.Incoming(n)| == 0 ==> RootsBelow(g, depth[n := 0], queue + [n], n + 1)
    ensures |g.Incoming(n)| != 0 ==> RootsBelow(g, depth, queue, n + 1)
  {
    HasParentSpec(g, n);
  }

  lemma RootsDone(g: DiGraph, depth: map<nat, nat>, queue: seq<nat>)
    requires g.Wf() && RootsBelow(g, depth, queue, |g.nodes|)
    ensures DownInv(g, depth, queue, {}, 0)
  {
    forall i | i in depth ensures DepthWitness(g, i, 0) {
      assert RootPath(g.Rel(), [g.nodes[i]], g.nodes[i]);
    }
  }

  lemma ReachRegistered(g: DiGraph, a: Uuid, b: Uuid)
    requires g.Wf() && a != b
    ensures Reach(g.Rel(), a, b) ==> a in g.Ids() && b in g.Ids()
  {
    if Reach(g.Rel(), a, b) {
      RelInIds(g);
      var p := PathOf(g.Rel(), a, b);
      assert (p[0], p[1]) in g.Rel() && (p[|p| - 2], p[|p| - 1]) in g.Rel();
    }
  }

  lemma NoBackPath(e: set<(Uuid, Uuid)>, u: Uuid, v: Uuid)
    requires Acyclic(e) && (u, v) in e
    ensures !Reach(e, v, u)
  {
  }

  lemma FindEdgeSpec(g: DiGraph, a: nat, b: nat)
    requires g.Wf() && a < |g.nodes| && b < |g.nodes|
    ensures g.FindEdge(a, b).Some? <==> (g.nodes[a], g.nodes[b]) in g.Rel()
  {
    RelHas(g, a, b);
  }

  lemma ChildlessSpec(g: DiGraph, n: nat)
    requires g.Wf() && n < |g.nodes|
    ensures g.Outgoing(n) == [] <==> forall c :: (g.nodes[n], c) !in g.Rel()
  {
    OutgoingSpec(g, n);
    if g.Outgoing(n) != [] {
      var o := g.Outgoing(n)[0];
      assert o in g.Outgoing(n);
      var c := g.nodes[o];
      assert (g.nodes[n], c) in g.Rel();
    }
    forall c | (g.nodes[n], c) in g.Rel() ensures g.Outgoing(n) != [] {
      RelInIds(g);
      var i := IndexOf(g, c);
      assert i in g.Outgoing(n);
    }
  }

  ghost function ChildrenOf(e: set<(Uuid, Uuid)>, x: Uuid): set<Uuid> {
    set p | p in e && p.0 == x :: p.1
  }

  /** Without parallel edges the outgoing neighbours are as many as the children. */
  lemma ChildCount(g: DiGraph, n: nat)
    requires g.Wf() && g.Simple() && n < |g.nodes|
    ensures |g.Outgoing(n)| == |ChildrenOf(g.Rel(), g.nodes[n])|
  {
    OutgoingSpec(g, n);
    TargetsDistinct(g.edges, n);
    var out := g.Outgoing(n);
    forall i | 0 <= i < |out| ensures out[i] < |g.nodes| {
      assert out[i] in out;
    }
    var labels := seq(|out|, i requires 0 <= i < |out| => g.nodes[out[i]]);
    DistinctSize(labels);
    assert (set x | x in labels) == ChildrenOf(g.Rel(), g.nodes[n]) by {
      ChildLabels(g, n, labels);
    }
  }

  lemma ChildLabels(g: DiGraph, n: nat, labels: seq<Uuid>)
    requires g.Wf() && n < |g.nodes| && |labels| == |g.Outgoing(n)|
    requires forall i :: 0 <= i < |labels| ==> g.Outgoing(n)[i] < |g.nodes| && labels[i] == g.nodes[g.Outgoing(n)[i]]
    ensures (set x | x in labels) == ChildrenOf(g.Rel(), g.nodes[n])
  {
    OutgoingSpec(g, n);
    var x, children := g.nodes[n], ChildrenOf(g.Rel(), g.nodes[n]);
    forall i | 0 <= i < |labels| ensures labels[i] in children {
      assert g.Outgoing(n)[i] in g.Outgoing(n);
      assert (x, labels[i]) in g.Rel();
    }
    RelInIds(g);
    forall p | p in g.Rel() && p.0 == x ensures p.1 in labels {
      var j := IndexOf(g, p.1);
      assert p == (x, g.nodes[j]);
      assert j in g.Outgoing(n);
      var i :| 0 <= i < |labels| && g.Outgoing(n)[i] == j;
      assert labels[i] == p.1;
    }
  }

  lemma RemovedIndex(g: DiGraph, index: map<Uuid, nat>, a: nat)
    requires IndexExact(g, index) && a < |g.nodes|
    ensures IndexExact(g.RemoveNode(a), index - {g.nodes[a]}) <==> a == |g.nodes| - 1
  {
    var last := |g.nodes| - 1;
    var h := g.RemoveNode(a);
    if a != last {
      assert h.nodes[a] == g.nodes[last];
    }
  }

  lemma ParentRegistered(g: DiGraph, n: nat, p: nat)
    requires g.Wf() && n < |g.nodes| && p in g.Incoming(n)
    ensures p < |g.nodes| && (g.nodes[p], g.nodes[n]) in g.Rel()
  {
    IncomingSpec(g, n);
  }

  /** The output lists the labels of the seen nodes, each once. */
  ghost predicate Listed(g: DiGraph, seen: set<nat>, output: seq<Uuid>) {
    Distinct(output) && forall x :: x in output <==> x in Labels(g, seen)
  }

  lemma UnlistedUnseen(g: DiGraph, seen: set<nat>, output: seq<Uuid>, p: nat)
    requires g.Wf() && p < |g.nodes| && Listed(g, seen, output)
    ensures g.nodes[p] in output <==> p in seen
  {
    LabelOfIndex(g, seen, p);
    var x := g.nodes[p];
    assert x in output <==> x in Labels(g, seen);
  }

  lemma ListPush(g: DiGraph, seen: set<nat>, output: seq<Uuid>, p: nat)
    requires g.Wf() && p < |g.nodes| && p !in seen && Listed(g, seen, output)
    ensures Listed(g, seen + {p}, output + [g.nodes[p]])
  {
    UnlistedUnseen(g, seen, output, p);
    assert Labels(g, seen + {p}) == Labels(g, seen) + {g.nodes[p]};
  }

  lemma ListedAncestors(g: DiGraph, start: nat, seen: set<nat>, output: seq<Uuid>)
    requires GraphOk(g) && start < |g.nodes| && Listed(g, seen, output)
    requires forall i: nat :: i in seen <==> i < |g.nodes| && StrictReach(g.Rel(), g.nodes[i], g.nodes[start])
    ensures forall x :: x in output <==> x != g.nodes[start] && Reach(g.Rel(), x, g.nodes[start])
  {
    RelInIds(g);
    forall x: Uuid ensures x in output <==> x != g.nodes[start] && Reach(g.Rel(), x, g.nodes[start]) {
      StrictReachAcyclic(g.Rel(), x, g.nodes[start]);
      if x in Labels(g, seen) {
        var i: nat :| i in seen && i < |g.nodes| && g.nodes[i] == x;
      }
      if StrictReach(g.Rel(), x, g.nodes[start]) {
        var v := StrictStep(g.Rel(), x, g.nodes[start]);
        var i := IndexOf(g, x);
        assert i in seen;
      }
    }
  }

  /** The collected ancestors, turned round, form a path from `head` down to branchId. */
  ghost predicate ChainHead(g: DiGraph, branchId: Uuid, output: seq<Uuid>, head: nat)
    requires g.Wf()
  {
    head < |g.nodes| && PathFromTo(g.Rel(), Reversed(output) + [branchId], g.nodes[head], branchId)
  }

  /** In a forest, between two rounds: the chain is complete, or its head waits on the stack. */
  ghost predicate ChainInv(forest: bool, g: DiGraph, branchId: Uuid, output: seq<Uuid>, stack: seq<nat>)
    requires g.Wf()
  {
    forest ==>
      if stack == [] then RootPath(g.Rel(), Reversed(output) + [branchId], branchId)
      else |stack| == 1 && ChainHead(g, branchId, output, stack[0])
  }

  /** In a forest, after k parents of `node` have been looked at. */
  ghost predicate ChainMid(forest: bool, g: DiGraph, branchId: Uuid, output: seq<Uuid>, stack: seq<nat>, node: nat,
                           k: nat)
    requires g.Wf()
  {
    forest ==>
      if k == 0 then stack == [] && ChainHead(g, branchId, output, node)
      else |stack| == 1 && ChainHead(g, branchId, output, stack[0])
  }

  lemma ChainStart(forest: bool, g: DiGraph, start: nat)
    requires g.Wf() && start < |g.nodes|
    ensures ChainInv(forest, g, g.nodes[start], [], [start])
  {
    assert Reversed([]) + [g.nodes[start]] == [g.nodes[start]];
  }

  /** In a forest, the only parent of the chain's head is new and extends the chain. */
  lemma ChainStep(forest: bool, g: DiGraph, branchId: Uuid, seen: set<nat>, output: seq<Uuid>, stack: seq<nat>,
                  node: nat, k: nat)
    requires g.Wf() && Listed(g, seen, output) && (forest ==> ForestOk(g))
    requires node < |g.nodes| && ChainMid(forest, g, branchId, output, stack, node, k)
    requires k < |g.Incoming(node)|
    ensures g.Incoming(node)[k] < |g.nodes|
    ensures forest ==> g.Incoming(node)[k] !in seen
    ensures var p := g.Incoming(node)[k]; ChainMid(forest, g, branchId, output + [g.nodes[p]], stack + [p], node, k + 1)
  {
    var parent := g.Incoming(node)[k];
    ParentRegistered(g, node, parent);
    if forest {
      ForestIncoming(g, node);
      ChainExtend(g, branchId, output, node, parent);
      UnlistedUnseen(g, seen, output, parent);
    }
  }

  lemma ChainExtend(g: DiGraph, branchId: Uuid, output: seq<Uuid>, node: nat, parent: nat)
    requires g.Wf() && Acyclic(g.Rel()) && ChainHead(g, branchId, output, node) && parent < |g.nodes|
    requires (g.nodes[parent], g.nodes[node]) in g.Rel()
    ensures g.nodes[parent] !in output
    ensures ChainHead(g, branchId, output + [g.nodes[parent]], parent)
  {
    var e, x := g.Rel(), g.nodes[parent];
    var p := Reversed(output) + [branchId];
    if x in output {
      var i :| 0 <= i < |output| && output[i] == x;
      assert p[|output| - 1 - i] == x;
      SubPath(e, p, 0, |output| - 1 - i);
      assert false;
    }
    var q := Reversed(output + [x]) + [branchId];
    assert q == [x] + p;
    assert IsPath(e, [x, g.nodes[node]]);
    JoinPaths(e, [x, g.nodes[node]], p);
    assert [x, g.nodes[node]] + p[1..] == q;
  }

  lemma ChainNext(forest: bool, g: DiGraph, branchId: Uuid, output: seq<Uuid>, stack: seq<nat>, node: nat)
    requires g.Wf() && node < |g.nodes|
    requires ChainMid(forest, g, branchId, output, stack, node, |g.Incoming(node)|)
    ensures ChainInv(forest, g, branchId, output, stack)
  {
    HasParentSpec(g, node);
  }
}
