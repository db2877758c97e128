/** Read-only traversals over the lineage graph: depths by identifier, the merge base by depth, and the
    divergence depth. */
module Traversal {
  import opened Wrappers
  import opened Paths
  import opened DirectedGraph
  import opened GraphSearch
  import opened LineageGraph

  // ── Depths keyed by identifier ──

  ghost predicate DepthAgrees(g: DiGraph, byId: map<Uuid, nat>, depth: map<nat, nat>, i: nat)
    requires i < |g.nodes|
  {
    (i in depth <==> g.nodes[i] in byId) && (i in depth ==> byId[g.nodes[i]] == depth[i])
  }

  /** The identifier-keyed map records the same depths as the index-keyed one. */
  ghost predicate SameDepths(g: DiGraph, byId: map<Uuid, nat>, depth: map<nat, nat>) {
    byId.Keys <= g.Ids() && forall i: nat {:trigger DepthAgrees(g, byId, depth, i)} :: i < |g.nodes| ==>
        DepthAgrees(g, byId, depth, i)
  }

  lemma SameDepthsAt(g: DiGraph, byId: map<Uuid, nat>, depth: map<nat, nat>, i: nat)
    requires SameDepths(g, byId, depth) && i < |g.nodes|
    ensures g.nodes[i] in byId <==> i in depth
    ensures i in depth ==> byId[g.nodes[i]] == depth[i]
  {
    assert DepthAgrees(g, byId, depth, i);
  }

  lemma SameDepthsPut(g: DiGraph, byId: map<Uuid, nat>, depth: map<nat, nat>, i: nat, d: nat)
    requires g.Wf() && SameDepths(g, byId, depth) && i < |g.nodes|
    ensures SameDepths(g, byId[g.nodes[i] := d], depth[i := d])
  {
    var byId', depth' := byId[g.nodes[i] := d], depth[i := d];
    forall j: nat | j < |g.nodes| ensures DepthAgrees(g, byId', depth', j) {
      SameDepthsAt(g, byId, depth, j);
    }
  }

  /** Breadth-first depths of all nodes, keyed by identifier. */
  method BfsDepthMap(g: DiGraph) returns (byId: map<Uuid, nat>)
    requires GraphOk(g)
    ensures byId.Keys == g.Ids()
    ensures forall x :: x in byId ==> IsDepth(g.Rel(), x, byId[x])
  {
    ghost var depth;
    var queue;
    byId, queue, depth := RootMap(g);
    ghost var level := 0;
    while queue != []
      invariant DownInv(g, depth, queue, {}, level) && SameDepths(g, byId, depth)
      decreases Indices(g) - depth.Keys, |queue|
    {
      DownPop(g, depth, queue, level);
      ghost var depth0 := depth;
      var node := queue[0];
      level := depth[node];
      queue := queue[1..];
      byId, queue, depth := MapChildren(g, node, byId, queue, depth);
      assert depth != depth0 ==> Indices(g) - depth.Keys < Indices(g) - depth0.Keys;
    }
    MapDone(g, byId, depth, level);
  }

  method RootMap(g: DiGraph) returns (byId: map<Uuid, nat>, queue: seq<nat>, ghost depth: map<nat, nat>)
    requires g.Wf()
    ensures DownInv(g, depth, queue, {}, 0) && SameDepths(g, byId, depth)
  {
    byId, queue, depth := map[], [], map[];
    var n := 0;
    while n < |g.nodes|
      invariant n <= |g.nodes|
      invariant RootsBelow(g, depth, queue, n) && SameDepths(g, byId, depth)
    {
      RootStep(g, depth, queue, n);
      if |g.Incoming(n)| == 0 {
        SameDepthsPut(g, byId, depth, n, 0);
        byId := byId[g.nodes[n] := 0];
        queue := queue + [n];
        depth := depth[n := 0];
      }
      n := n + 1;
    }
    RootsDone(g, depth, queue);
  }

  /** The first k children are recorded, and the search has moved from (queue0, depth0) to (queue, depth). */
  ghost predicate Mapped(g: DiGraph, node: nat, k: nat, byId: map<Uuid, nat>, queue: seq<nat>, depth: map<nat, nat>,
                         queue0: seq<nat>, depth0: map<nat, nat>)
    requires g.Wf() && node in depth0 && node < |g.nodes|
  {
    && k <= |g.Outgoing(node)| && RecordedUpTo(g.Outgoing(node), k, depth)
    && node in depth && depth[node] == depth0[node]
    && DownInv(g, depth, queue, {node}, depth0[node]) && SameDepths(g, byId, depth)
    && depth0.Keys <= depth.Keys
    && (depth != depth0 ==> depth0.Keys < depth.Keys)
    && (depth == depth0 ==> queue == queue0)
  }

  lemma MapStep(g: DiGraph, node: nat, k: nat, byId: map<Uuid, nat>, queue: seq<nat>, depth: map<nat, nat>,
                queue0: seq<nat>, depth0: map<nat, nat>, child: nat, d: nat)
    requires g.Wf() && node in depth0 && node < |g.nodes|
    requires Mapped(g, node, k, byId, queue, depth, queue0, depth0)
    requires k < |g.Outgoing(node)| && child == g.Outgoing(node)[k] && d == depth0[node] + 1
    ensures child < |g.nodes|
    ensures g.nodes[child] in byId ==> Mapped(g, node, k + 1, byId, queue, depth, queue0, depth0)
    ensures g.nodes[child] !in byId ==>
              Mapped(g, node, k + 1, byId[g.nodes[child] := d], queue + [child], depth[child := d], queue0, depth0)
  {
    RecordedStep(g.Outgoing(node), k, depth, d);
    OutgoingEdge(g, node, child);
    SameDepthsAt(g, byId, depth, child);
    if g.nodes[child] !in byId {
      DownPush(g, depth, queue, node, child);
      SameDepthsPut(g, byId, depth, child, d);
    }
  }

  method MapChildren(g: DiGraph, node: nat, byId0: map<Uuid, nat>, queue0: seq<nat>, ghost depth0: map<nat, nat>)
    returns (byId: map<Uuid, nat>, queue: seq<nat>, ghost depth: map<nat, nat>)
    requires g.Wf() && node in depth0 && node < |g.nodes| && SameDepths(g, byId0, depth0)
    requires DownInv(g, depth0, queue0, {node}, depth0[node])
    ensures DownInv(g, depth, queue, {}, depth0[node]) && SameDepths(g, byId, depth)
    ensures depth0.Keys <= depth.Keys && depth.Keys <= Indices(g)
    ensures depth != depth0 ==> depth0.Keys < depth.Keys
    ensures depth == depth0 ==> queue == queue0
  {
    byId, queue, depth := byId0, queue0, depth0;
    SameDepthsAt(g, byId, depth, node);
    var d := byId[g.nodes[node]] + 1;
    var children := g.Outgoing(node);
    var k := 0;
    while k < |children|
      invariant Mapped(g, node, k, byId, queue, depth, queue0, depth0)
    {
      var child := children[k];
      MapStep(g, node, k, byId, queue, depth, queue0, depth0, child, d);
      if g.nodes[child] !in byId {
        byId := byId[g.nodes[child] := d];
        queue := queue + [child];
        depth := depth[child := d];
      }
      k := k + 1;
    }
    AllRecorded(g, depth, node);
    DownNext(g, depth, queue, node, d - 1);
  }

  lemma MapDone(g: DiGraph, byId: map<Uuid, nat>, depth: map<nat, nat>, level: nat)
    requires GraphOk(g) && DownInv(g, depth, [], {}, level) && SameDepths(g, byId, depth)
    ensures byId.Keys == g.Ids()
    ensures forall x :: x in byId ==> IsDepth(g.Rel(), x, byId[x])
  {
    forall x | x in g.Ids() ensures x in byId && IsDepth(g.Rel(), x, byId[x]) {
      MapDoneAt(g, byId, depth, level, x);
    }
  }

  lemma MapDoneAt(g: DiGraph, byId: map<Uuid, nat>, depth: map<nat, nat>, level: nat, x: Uuid)
    requires GraphOk(g) && DownInv(g, depth, [], {}, level) && SameDepths(g, byId, depth) && x in g.Ids()
    ensures x in byId && IsDepth(g.Rel(), x, byId[x])
  {
    var i := IndexOf(g, x);
    RootPathExists(g, i);
    DownDone(g, depth, level, i);
    SameDepthsAt(g, byId, depth, i);
  }

  // ── Merge base by depth ──

  /** Strict ancestors of a node as a set of identifiers. */
  method DfsAncestorSet(g: DiGraph, index: map<Uuid, nat>, id: Uuid) returns (r: Result<set<Uuid>, DagError>)
    requires GraphOk(g) && IndexExact(g, index)
    ensures r.Err? <==> id !in g.Ids()
    ensures r.Err? ==> r.error == DagNodeNotFound(id)
    ensures r.Ok? ==> forall x :: x in r.value <==> x != id && Reach(g.Rel(), x, id)
  {
    IndexedIffRegistered(g, index);
    if id !in index {
      return Err(DagNodeNotFound(id));
    }
    var start := index[id];
    var visited: set<Uuid> := {};
    ghost var seen: set<nat> := {};
    var stack := [start];
    while stack != []
      invariant UpInv(g, start, seen, stack, {}) && visited == Labels(g, seen)
      decreases Indices(g) - seen, |stack|
    {
      UpPop(g, start, seen, stack);
      ghost var seen0 := seen;
      var node := stack[|stack| - 1];
      stack := stack[..|stack| - 1];
      visited, stack, seen := VisitParentIds(g, start, node, visited, stack, seen);
      assert seen != seen0 ==> Indices(g) - seen < Indices(g) - seen0;
    }
    UpDone(g, start, seen);
    forall x ensures x in visited <==> x != id && Reach(g.Rel(), x, id) {
      StrictReachAcyclic(g.Rel(), x, id);
    }
    return Ok(visited);
  }

  method VisitParentIds(g: DiGraph, ghost start: nat, node: nat, visited0: set<Uuid>, stack0: seq<nat>,
                        ghost seen0: set<nat>)
    returns (visited: set<Uuid>, stack: seq<nat>, ghost seen: set<nat>)
    requires g.Wf() && start < |g.nodes| && node < |g.nodes|
    requires UpInv(g, start, seen0, stack0, {node}) && visited0 == Labels(g, seen0)
    ensures UpInv(g, start, seen, stack, {}) && visited == Labels(g, seen)
    ensures seen0 <= seen && (seen == seen0 ==> stack == stack0)
  {
    visited, stack, seen := visited0, stack0, seen0;
    var parents := g.Incoming(node);
    var k := 0;
    while k < |parents|
      invariant UpInv(g, start, seen, stack, {node}) && visited == Labels(g, seen)
      invariant SeenUpTo(parents, k, seen)
      invariant seen0 <= seen && (seen == seen0 ==> stack == stack0)
    {
      var parent := parents[k];
      SeenStep(parents, k, seen);
      ParentRegistered(g, node, parent);
      LabelOfIndex(g, seen, parent);
      if g.nodes[parent] !in visited {
        UpPush(g, start, seen, stack, node, parent);
        LabelPush(g, seen, parent);
        visited := visited + {g.nodes[parent]};
        stack := stack + [parent];
        seen := seen + {parent};
      }
      k := k + 1;
    }
    AllSeen(g, node, seen);
    UpNext(g, start, seen, stack, node);
  }

  lemma LabelPush(g: DiGraph, seen: set<nat>, p: nat)
    requires g.Wf() && p < |g.nodes|
    ensures Labels(g, seen + {p}) == Labels(g, seen) + {g.nodes[p]}
  {
  }

  /** What a merge base query answers on a forest, errors included. */
  ghost predicate IsMergeBase(e: set<(Uuid, Uuid)>, ids: set<Uuid>, a: Uuid, b: Uuid,
                              r: Result<Option<Uuid>, DagError>)
  {
    if a == b then r == Ok(Some(a))
    else if a !in ids then r == Err(DagNodeNotFound(a))
    else if b !in ids then r == Err(DagNodeNotFound(b))
    else match r
      case Ok(Some(x)) => LowestCommon(e, a, b, x)
      case Ok(None) => forall x :: !(Reach(e, x, a) && Reach(e, x, b))
      case Err(_) => false
  }

  lemma MergeBaseUnique(e: set<(Uuid, Uuid)>, ids: set<Uuid>, a: Uuid, b: Uuid,
                        r: Result<Option<Uuid>, DagError>, s: Result<Option<Uuid>, DagError>)
    requires Acyclic(e) && IsMergeBase(e, ids, a, b, r) && IsMergeBase(e, ids, a, b, s)
    ensures r == s
  {
    if r.Ok? && s.Ok? && r.value.Some? && s.value.Some? && a != b {
      LowestCommonUnique(e, a, b, r.value.value, s.value.value);
    }
  }

  /** x beats y: deeper, or equally deep with the smaller identifier. */
  predicate Beats(depth: map<Uuid, nat>, x: Uuid, y: Uuid)
    requires x in depth && y in depth
  {
    depth[x] > depth[y] || (depth[x] == depth[y] && x <= y)
  }

  /** The deepest shared ancestor, smaller identifier first among equals. */
  method LowestCommonAncestor(dag: DagGraph, a: Uuid, b: Uuid) returns (r: Result<Option<Uuid>, DagError>)
    requires dag.Valid()
    ensures a == b ==> r == Ok(Some(a))
    ensures r.Err? <==> a != b && (a !in dag.graph.Ids() || b !in dag.graph.Ids())
    ensures r.Err? ==> r.error == DagNodeNotFound(if a !in dag.graph.Ids() then a else b)
    ensures r.Ok? && r.value.None? ==> forall x :: !(Reach(dag.graph.Rel(), x, a) && Reach(dag.graph.Rel(), x, b))
    ensures r.Ok? && r.value.Some? && a != b ==> DeepestShared(dag.graph.Rel(), a, b, r.value.value)
    ensures Forest(dag.graph.Rel()) ==> IsMergeBase(dag.graph.Rel(), dag.graph.Ids(), a, b, r)
  {
    if a == b {
      return Ok(Some(a));
    }
    var depth := BfsDepthMap(dag.graph);
    var aAncestors := DfsAncestorSet(dag.graph, dag.nodeIndex, a);
    if aAncestors.Err? {
      return Err(aAncestors.error);
    }
    var bAncestors := DfsAncestorSet(dag.graph, dag.nodeIndex, b);
    if bAncestors.Err? {
      return Err(bAncestors.error);
    }
    var common := (aAncestors.value + {a}) * (bAncestors.value + {b});
    CommonSpec(dag.graph, a, b, aAncestors.value, bAncestors.value, common);
    if common == {} {
      return Ok(None);
    }
    var best := MaxByDepth(depth, common);
    BestIsDeepest(dag.graph.Rel(), a, b, depth, common, best);
    if Forest(dag.graph.Rel()) {
      ForestDeepest(dag.graph, a, b, best);
    }
    return Ok(Some(best));
  }

  /** The maximum of a non-empty set under depth, then under the reversed identifier order. */
  method MaxByDepth(depth: map<Uuid, nat>, common: set<Uuid>) returns (best: Uuid)
    requires common != {} && common <= depth.Keys
    ensures best in common && forall y :: y in common ==> Beats(depth, best, y)
  {
    ghost var _ := SomeMember(common);
    best :| best in common;
    var rest := common - {best};
    while rest != {}
      invariant rest <= common && best in common
      invariant forall y :: y in common - rest ==> Beats(depth, best, y)
      decreases rest
    {
      ghost var _ := SomeMember(rest);
      var y :| y in rest;
      assert forall z :: z in common - (rest - {y}) ==> z == y || z in common - rest;
      if Beats(depth, y, best) {
        best := y;
      }
      rest := rest - {y};
    }
  }

  /** x is shared, no shared ancestor is deeper, and none equally deep has a smaller identifier. */
  ghost predicate DeepestShared(e: set<(Uuid, Uuid)>, a: Uuid, b: Uuid, x: Uuid) {
    && Reach(e, x, a) && Reach(e, x, b)
    && exists dx: nat :: IsDepth(e, x, dx) && NoneDeeper(e, a, b, x, dx)
  }

  ghost predicate NoneDeeper(e: set<(Uuid, Uuid)>, a: Uuid, b: Uuid, x: Uuid, dx: nat) {
    forall y: Uuid, dy: nat :: Reach(e, y, a) && Reach(e, y, b) && IsDepth(e, y, dy) ==> dy < dx || (dy == dx && x <= y)
  }

  lemma CommonSpec(g: DiGraph, a: Uuid, b: Uuid, up: set<Uuid>, vp: set<Uuid>, common: set<Uuid>)
    requires g.Wf() && a in g.Ids() && b in g.Ids()
    requires forall x :: x in up <==> x != a && Reach(g.Rel(), x, a)
    requires forall x :: x in vp <==> x != b && Reach(g.Rel(), x, b)
    requires common == (up + {a}) * (vp + {b})
    ensures forall x :: x in common <==> Reach(g.Rel(), x, a) && Reach(g.Rel(), x, b)
    ensures common <= g.Ids()
  {
    ReachRefl(g.Rel(), a);
    ReachRefl(g.Rel(), b);
    forall x | x in common ensures x in g.Ids() {
      if x != a { ReachRegistered(g, x, a); }
    }
  }

  lemma BestIsDeepest(e: set<(Uuid, Uuid)>, a: Uuid, b: Uuid, depth: map<Uuid, nat>, common: set<Uuid>, best: Uuid)
    requires forall x :: x in depth ==> IsDepth(e, x, depth[x])
    requires forall x :: x in common <==> Reach(e, x, a) && Reach(e, x, b)
    requires common <= depth.Keys && best in common && forall y :: y in common ==> Beats(depth, best, y)
    ensures DeepestShared(e, a, b, best)
  {
    forall y: Uuid, dy: nat | Reach(e, y, a) && Reach(e, y, b) && IsDepth(e, y, dy)
      ensures dy < depth[best] || (dy == depth[best] && best <= y)
    {
      assert y in common;
      DepthUnique(e, y, dy, depth[y]);
    }
    assert IsDepth(e, best, depth[best]) && NoneDeeper(e, a, b, best, depth[best]);
  }

  lemma ForestDeepest(g: DiGraph, a: Uuid, b: Uuid, x: Uuid)
    requires GraphOk(g) && Forest(g.Rel()) && b in g.Ids() && DeepestShared(g.Rel(), a, b, x)
    ensures LowestCommon(g.Rel(), a, b, x)
  {
    var i := IndexOf(g, b);
    RootPathExists(g, i);
    var p := SomeRootPath(g.Rel(), b);
    var dx: nat :| IsDepth(g.Rel(), x, dx) && NoneDeeper(g.Rel(), a, b, x, dx);
    forall y: Uuid, d: nat | Reach(g.Rel(), y, a) && Reach(g.Rel(), y, b) && IsDepth(g.Rel(), y, d) ensures d <= dx {
      assert d < dx || (d == dx && x <= y);
    }
    DeepestByDepthIsLowest(g.Rel(), p, a, b, x, dx);
  }

  lemma SomeRootPath(e: set<(Uuid, Uuid)>, b: Uuid) returns (p: seq<Uuid>)
    requires exists p :: RootPath(e, p, b)
    ensures RootPath(e, p, b)
  {
    p :| RootPath(e, p, b);
  }

  /** The tie-break on identifiers is never used in a forest. */
  lemma ForestTieBreakUnused(g: DiGraph, a: Uuid, b: Uuid, x: Uuid, y: Uuid, dx: nat, dy: nat)
    requires GraphOk(g) && Forest(g.Rel()) && b in g.Ids()
    requires Reach(g.Rel(), x, a) && Reach(g.Rel(), x, b) && Reach(g.Rel(), y, a) && Reach(g.Rel(), y, b)
    requires IsDepth(g.Rel(), x, dx) && IsDepth(g.Rel(), y, dy) && x != y
    ensures dx != dy
  {
    var i := IndexOf(g, b);
    RootPathExists(g, i);
    var p := SomeRootPath(g.Rel(), b);
    AncestorDepthsDiffer(g.Rel(), p, b, x, y, dx, dy);
  }

  /** Both merge-base algorithms give the same answer on every forest. */
  method BothMergeBases(dag: DagGraph, a: Uuid, b: Uuid)
    returns (byScan: Result<Option<Uuid>, DagError>, byDepth: Result<Option<Uuid>, DagError>)
    requires dag.Valid()
    ensures Forest(dag.graph.Rel()) ==> byScan == byDepth
  {
    byScan := dag.FindMergeBase(a, b);
    byDepth := LowestCommonAncestor(dag, a, b);
    if Forest(dag.graph.Rel()) {
      MergeBaseUnique(dag.graph.Rel(), dag.graph.Ids(), a, b, byScan, byDepth);
    }
  }

  // ── Divergence depth ──

  /** How much deeper a is than the deepest node it shares with b, and 0 if it is not; 0 for equal branches. */
  ghost predicate DepthGap(e: set<(Uuid, Uuid)>, a: Uuid, b: Uuid, n: nat) {
    if a == b then n == 0
    else exists x, dx: nat, da: nat ::
      DeepestShared(e, a, b, x) && IsDepth(e, x, dx) && IsDepth(e, a, da) && n == if da >= dx then da - dx else 0
  }

  /** Hops from the lowest common ancestor down to branchA. */
  method DivergenceDepth(dag: DagGraph, branchA: Uuid, branchB: Uuid) returns (r: Result<nat, DagError>)
    requires dag.Valid()
    ensures r.Ok? ==>
        && branchA in dag.graph.Ids()
        && exists x :: Reach(dag.graph.Rel(), x, branchA) && Reach(dag.graph.Rel(), x, branchB)
    ensures r.Ok? && Forest(dag.graph.Rel()) ==>
              exists x :: LowestCommon(dag.graph.Rel(), branchA, branchB, x) &&
                  HopsDown(dag.graph.Rel(), x, branchA, r.value)
    ensures r.Ok? ==> DepthGap(dag.graph.Rel(), branchA, branchB, r.value)
    ensures branchA in dag.graph.Ids() && branchB in dag.graph.Ids() ==>
              (r.Ok? <==> exists x :: Reach(dag.graph.Rel(), x, branchA) && Reach(dag.graph.Rel(), x, branchB))
  {
    var lca := LowestCommonAncestor(dag, branchA, branchB);
    if lca.Err? {
      return Err(lca.error);
    }
    if lca.value.None? {
      return Err(DagNodeNotFound(branchA));
    }
    var x := lca.value.value;
    ReachRefl(dag.graph.Rel(), branchA);
    var depthA := dag.DepthOf(branchA);
    if depthA.Err? {
      return Err(depthA.error);
    }
    if x != branchA { ReachRegistered(dag.graph, x, branchA); }
    var depthLca := dag.DepthOf(x);
    if depthLca.Err? {
      assert false;
    }
    if branchA == branchB {
      DepthUnique(dag.graph.Rel(), x, depthA.value, depthLca.value);
    } else {
      assert DeepestShared(dag.graph.Rel(), branchA, branchB, x);
    }
    if Forest(dag.graph.Rel()) {
      ForestHops(dag.graph.Rel(), x, branchA, depthLca.value, depthA.value);
    }
    return Ok(if depthA.value >= depthLca.value then depthA.value - depthLca.value else 0);
  }

  /** In a forest a branch is as deep as it has ancestors, whichever search computed the depth. */
  lemma DepthIsAncestorCount(g: DiGraph, b: Uuid, ancestors: seq<Uuid>, d: nat)
    requires ForestOk(g) && RootPath(g.Rel(), Reversed(ancestors) + [b], b) && IsDepth(g.Rel(), b, d)
    ensures d == |ancestors|
  {
    ForestDepth(g.Rel(), Reversed(ancestors) + [b], b);
    DepthUnique(g.Rel(), b, d, |ancestors|);
  }

  /** Every path from x down to a has exactly n edges, and there is one. */
  ghost predicate HopsDown(e: set<(Uuid, Uuid)>, x: Uuid, a: Uuid, n: nat) {
    Reach(e, x, a) && forall q :: PathFromTo(e, q, x, a) ==> |q| == n + 1
  }

  /** In a forest the subtraction of depths never saturates. */
  lemma ForestHops(e: set<(Uuid, Uuid)>, x: Uuid, a: Uuid, dx: nat, da: nat)
    requires Forest(e) && Reach(e, x, a) && IsDepth(e, x, dx) && IsDepth(e, a, da)
    ensures dx <= da && HopsDown(e, x, a, da - dx)
  {
    var p := PathOf(e, x, a);
    ForestPathLength(e, x, a, p, dx, da);
    forall q | PathFromTo(e, q, x, a) ensures |q| == da - dx + 1 {
      ForestPathLength(e, x, a, q, dx, da);
    }
  }
}
