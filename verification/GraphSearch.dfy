/** Invariants of the two graph searches the engine uses: the stack walk towards the
    ancestors of a node, and the breadth-first walk down from all parentless nodes. */
module GraphSearch {
  import opened Paths
  import opened DirectedGraph

  ghost function Indices(g: DiGraph): set<nat> {
    Below(|g.nodes|)
  }

  ghost function Below(n: nat): (s: set<nat>)
    ensures |s| == n && forall i: nat :: i in s <==> i < n
  {
    if n == 0 then {} else Below(n - 1) + {n - 1}
  }

  ghost function Labels(g: DiGraph, s: set<nat>): set<Uuid> {
    set i | i in s && i < |g.nodes| :: g.nodes[i]
  }

  lemma SubsetSameSize<T>(a: set<T>, b: set<T>)
    requires a <= b && |a| >= |b|
    ensures a == b
  {
    assert |b - a| == |b| - |a|;
    assert b == a + (b - a);
  }

  // ── Walking up with a stack ──

  ghost predicate ParentsSeen(g: DiGraph, seen: set<nat>, x: nat) {
    forall p :: p in g.Incoming(x) ==> p in seen
  }

  /** Everything seen is a strict ancestor of start; every node met so far and neither waiting
      on the stack nor equal to the node in hand has had its parents recorded. */
  ghost predicate UpInv(g: DiGraph, start: nat, seen: set<nat>, stack: seq<nat>, inHand: set<nat>)
    requires g.Wf() && start < |g.nodes|
  {
    && (forall i :: i in seen ==> i < |g.nodes| && StrictReach(g.Rel(), g.nodes[i], g.nodes[start]))
    && (forall i :: i in stack || i in inHand ==> i == start || i in seen)
    && (forall x :: (x == start || x in seen) && x !in stack && x !in inHand ==> ParentsSeen(g, seen, x))
  }

  lemma UpPop(g: DiGraph, start: nat, seen: set<nat>, stack: seq<nat>)
    requires g.Wf() && start < |g.nodes| && stack != [] && UpInv(g, start, seen, stack, {})
    ensures UpInv(g, start, seen, stack[..|stack| - 1], {stack[|stack| - 1]})
    ensures stack[|stack| - 1] < |g.nodes|
  {
    var top := stack[|stack| - 1];
    assert top in stack;
    assert stack == stack[..|stack| - 1] + [top];
  }

  lemma UpPush(g: DiGraph, start: nat, seen: set<nat>, stack: seq<nat>, node: nat, p: nat)
    requires g.Wf() && start < |g.nodes| && UpInv(g, start, seen, stack, {node})
    requires p in g.Incoming(node)
    ensures p < |g.nodes|
    ensures UpInv(g, start, seen + {p}, stack + [p], {node})
  {
    var e := g.Rel();
    IncomingSpec(g, node);
    assert node in {node};
    if node == start {
      ReachRefl(e, g.nodes[node]);
    } else {
      StrictIsReach(e, g.nodes[node], g.nodes[start]);
    }
    assert StrictReach(e, g.nodes[p], g.nodes[start]);
  }

  lemma StrictIsReach(e: set<(Uuid, Uuid)>, a: Uuid, b: Uuid)
    requires StrictReach(e, a, b)
    ensures Reach(e, a, b)
  {
    var v := StrictStep(e, a, b);
    ReachEdge(e, a, v);
    ReachTrans(e, a, v, b);
  }

  lemma UpNext(g: DiGraph, start: nat, seen: set<nat>, stack: seq<nat>, node: nat)
    requires g.Wf() && start < |g.nodes| && UpInv(g, start, seen, stack, {node})
    requires ParentsSeen(g, seen, node)
    ensures UpInv(g, start, seen, stack, {})
  {
  }

  /** When the stack is empty the walk has met exactly the strict ancestors. */
  lemma UpDone(g: DiGraph, start: nat, seen: set<nat>)
    requires g.Wf() && start < |g.nodes| && UpInv(g, start, seen, [], {})
    ensures forall x :: x in Labels(g, seen) <==> StrictReach(g.Rel(), x, g.nodes[start])
  {
    var e := g.Rel();
    var met := Labels(g, seen + {start});
    assert g.nodes[start] in met;
    RelInIds(g);
    forall u, v | (u, v) in e && v in met ensures u in Labels(g, seen) {
      UpClosed(g, start, seen, u, v);
    }
    forall x | StrictReach(e, x, g.nodes[start]) ensures x in Labels(g, seen) {
      var v := StrictStep(e, x, g.nodes[start]);
      var p := PathOf(e, v, g.nodes[start]);
      ClosedBackward(e, met, p);
    }
  }

  lemma UpClosed(g: DiGraph, start: nat, seen: set<nat>, u: Uuid, v: Uuid)
    requires g.Wf() && start < |g.nodes| && UpInv(g, start, seen, [], {})
    requires (u, v) in g.Rel() && v in Labels(g, seen + {start})
    ensures u in Labels(g, seen)
  {
    RelInIds(g);
    var j :| j in seen + {start} && j < |g.nodes| && g.nodes[j] == v;
    var i := IndexOf(g, u);
    IncomingSpec(g, j);
    assert i in g.Incoming(j);
    assert ParentsSeen(g, seen, j);
  }

  /** The first k listed nodes have been seen. */
  ghost predicate SeenUpTo(listed: seq<nat>, k: nat, seen: set<nat>) {
    k <= |listed| && forall p :: p in listed[..k] ==> p in seen
  }

  lemma SeenStep(listed: seq<nat>, k: nat, seen: set<nat>)
    requires SeenUpTo(listed, k, seen) && k < |listed|
    ensures SeenUpTo(listed, k + 1, seen + {listed[k]})
    ensures listed[k] in seen ==> seen + {listed[k]} == seen
  {
    assert listed[..k + 1] == listed[..k] + [listed[k]];
  }

  lemma AllSeen(g: DiGraph, node: nat, seen: set<nat>)
    requires SeenUpTo(g.Incoming(node), |g.Incoming(node)|, seen)
    ensures ParentsSeen(g, seen, node)
  {
    assert g.Incoming(node)[..|g.Incoming(node)|] == g.Incoming(node);
  }

  // ── Walking down level by level ──

  ghost predicate DepthWitness(g: DiGraph, i: nat, d: nat)
    requires g.Wf() && i < |g.nodes|
  {
    exists p :: RootPath(g.Rel(), p, g.nodes[i]) && |p| == d + 1
  }

  /** The children of u are recorded, at most one level deeper. */
  ghost predicate ChildrenRecorded(g: DiGraph, depth: map<nat, nat>, u: nat)
    requires u in depth
  {
    forall c :: c in g.Outgoing(u) ==> c in depth && depth[c] <= depth[u] + 1
  }

  /** Recorded depths belong to real root paths and none exceeds `level` by more than one. */
  ghost predicate Recorded(g: DiGraph, depth: map<nat, nat>, level: nat)
    requires g.Wf()
  {
    forall i :: i in depth ==> i < |g.nodes| && DepthWitness(g, i, depth[i]) && depth[i] <= level + 1
  }

  ghost predicate RootsRecorded(g: DiGraph, depth: map<nat, nat>)
    requires g.Wf()
  {
    forall i: nat :: i < |g.nodes| && !HasParent(g.Rel(), g.nodes[i]) ==> i in depth && depth[i] == 0
  }

  /** The queue is sorted by depth and starts at `level` or below it. */
  ghost predicate SortedFrom(depth: map<nat, nat>, queue: seq<nat>, level: nat) {
    && (forall k :: 0 <= k < |queue| ==> queue[k] in depth && level <= depth[queue[k]])
    && (forall j, k :: 0 <= j < k < |queue| ==> depth[queue[j]] <= depth[queue[k]])
  }

  /** Every node that is neither waiting nor in hand has its children recorded. */
  ghost predicate Finished(g: DiGraph, depth: map<nat, nat>, queue: seq<nat>, inHand: set<nat>) {
    forall u :: u in depth && u !in queue && u !in inHand ==> ChildrenRecorded(g, depth, u)
  }

  ghost predicate DownInv(g: DiGraph, depth: map<nat, nat>, queue: seq<nat>, inHand: set<nat>, level: nat)
    requires g.Wf()
  {
    && Recorded(g, depth, level)
    && RootsRecorded(g, depth)
    && SortedFrom(depth, queue, level)
    && Finished(g, depth, queue, inHand)
  }

  lemma DownPop(g: DiGraph, depth: map<nat, nat>, queue: seq<nat>, level: nat)
    requires g.Wf() && queue != [] && DownInv(g, depth, queue, {}, level)
    ensures queue[0] in depth && queue[0] < |g.nodes|
    ensures DownInv(g, depth, queue[1..], {queue[0]}, depth[queue[0]])
  {
    PopSorted(depth, queue, level);
    PopFinished(g, depth, queue);
    RaiseLevel(g, depth, level, depth[queue[0]]);
  }

  lemma PopFinished(g: DiGraph, depth: map<nat, nat>, queue: seq<nat>)
    requires queue != [] && Finished(g, depth, queue, {})
    ensures Finished(g, depth, queue[1..], {queue[0]})
  {
    assert queue == [queue[0]] + queue[1..];
  }

  lemma RaiseLevel(g: DiGraph, depth: map<nat, nat>, low: nat, high: nat)
    requires g.Wf() && Recorded(g, depth, low) && low <= high
    ensures Recorded(g, depth, high)
  {
  }

  lemma PopSorted(depth: map<nat, nat>, queue: seq<nat>, level: nat)
    requires queue != [] && SortedFrom(depth, queue, level)
    ensures SortedFrom(depth, queue[1..], depth[queue[0]])
  {
    var rest := queue[1..];
    assert forall k :: 0 <= k < |rest| ==> rest[k] == queue[k + 1];
  }

  lemma PushSorted(depth: map<nat, nat>, queue: seq<nat>, level: nat, c: nat)
    requires SortedFrom(depth, queue, level) && c !in depth
    requires forall i :: i in depth ==> depth[i] <= level + 1
    ensures SortedFrom(depth[c := level + 1], queue + [c], level)
  {
  }

  lemma ExtendWitness(g: DiGraph, u: nat, c: nat, d: nat)
    requires g.Wf() && u < |g.nodes| && c < |g.nodes| && DepthWitness(g, u, d)
    requires (g.nodes[u], g.nodes[c]) in g.Rel()
    ensures DepthWitness(g, c, d + 1)
  {
    var e := g.Rel();
    var p := DepthPath(g, u, d);
    ReachEdge(e, g.nodes[u], g.nodes[c]);
    assert IsPath(e, [g.nodes[u], g.nodes[c]]);
    JoinPaths(e, p, [g.nodes[u], g.nodes[c]]);
    var q := p + [g.nodes[u], g.nodes[c]][1..];
    assert RootPath(e, q, g.nodes[c]) && |q| == d + 1 + 1;
  }

  lemma OutgoingEdge(g: DiGraph, u: nat, c: nat)
    requires g.Wf() && u < |g.nodes| && c in g.Outgoing(u)
    ensures c < |g.nodes| && (g.nodes[u], g.nodes[c]) in g.Rel()
  {
    OutgoingSpec(g, u);
  }

  lemma PushRecorded(g: DiGraph, depth: map<nat, nat>, level: nat, c: nat)
    requires g.Wf() && Recorded(g, depth, level) && c < |g.nodes| && DepthWitness(g, c, level + 1)
    ensures Recorded(g, depth[c := level + 1], level)
  {
  }

  lemma PushRoots(g: DiGraph, depth: map<nat, nat>, d: nat, c: nat)
    requires g.Wf() && RootsRecorded(g, depth) && c !in depth
    ensures RootsRecorded(g, depth[c := d])
  {
  }

  lemma PushFinished(g: DiGraph, depth: map<nat, nat>, queue: seq<nat>, inHand: set<nat>, d: nat, c: nat)
    requires Finished(g, depth, queue, inHand) && c !in depth
    ensures Finished(g, depth[c := d], queue + [c], inHand)
  {
    var depth' := depth[c := d];
    forall x | x in depth' && x !in queue + [c] && x !in inHand ensures ChildrenRecorded(g, depth', x) {
      assert ChildrenRecorded(g, depth, x);
    }
  }

  lemma DownPush(g: DiGraph, depth: map<nat, nat>, queue: seq<nat>, u: nat, c: nat)
    requires g.Wf() && u in depth && u < |g.nodes| && DownInv(g, depth, queue, {u}, depth[u])
    requires c in g.Outgoing(u) && c !in depth
    ensures c < |g.nodes| && DownInv(g, depth[c := depth[u] + 1], queue + [c], {u}, depth[u])
  {
    OutgoingEdge(g, u, c);
    ExtendWitness(g, u, c, depth[u]);
    PushSorted(depth, queue, depth[u], c);
    PushRecorded(g, depth, depth[u], c);
    PushRoots(g, depth, depth[u] + 1, c);
    PushFinished(g, depth, queue, {u}, depth[u] + 1, c);
  }

  /** The first k listed children are recorded. */
  ghost predicate RecordedUpTo(listed: seq<nat>, k: nat, depth: map<nat, nat>) {
    k <= |listed| && forall c :: c in listed[..k] ==> c in depth
  }

  lemma RecordedStep(listed: seq<nat>, k: nat, depth: map<nat, nat>, d: nat)
    requires RecordedUpTo(listed, k, depth) && k < |listed|
    ensures RecordedUpTo(listed, k + 1, depth[listed[k] := d])
    ensures listed[k] in depth ==> RecordedUpTo(listed, k + 1, depth)
  {
    assert listed[..k + 1] == listed[..k] + [listed[k]];
  }

  lemma AllRecorded(g: DiGraph, depth: map<nat, nat>, node: nat)
    requires g.Wf() && node in depth && Recorded(g, depth, depth[node])
    requires RecordedUpTo(g.Outgoing(node), |g.Outgoing(node)|, depth)
    ensures ChildrenRecorded(g, depth, node)
    ensures depth.Keys <= Indices(g)
  {
    assert g.Outgoing(node)[..|g.Outgoing(node)|] == g.Outgoing(node);
  }

  lemma DepthPath(g: DiGraph, i: nat, d: nat) returns (p: seq<Uuid>)
    requires g.Wf() && i < |g.nodes| && DepthWitness(g, i, d)
    ensures RootPath(g.Rel(), p, g.nodes[i]) && |p| == d + 1
  {
    p :| RootPath(g.Rel(), p, g.nodes[i]) && |p| == d + 1;
  }

  lemma DownNext(g: DiGraph, depth: map<nat, nat>, queue: seq<nat>, u: nat, level: nat)
    requires g.Wf() && u in depth && DownInv(g, depth, queue, {u}, level)
    requires ChildrenRecorded(g, depth, u)
    ensures DownInv(g, depth, queue, {}, level)
  {
  }

  /** When the queue is empty the recorded depths are the shortest distances. */
  lemma DownDone(g: DiGraph, depth: map<nat, nat>, level: nat, i: nat)
    requires g.Wf() && DownInv(g, depth, [], {}, level) && i < |g.nodes|
    ensures i in depth ==> IsDepth(g.Rel(), g.nodes[i], depth[i])
    ensures i in depth <==> exists p :: RootPath(g.Rel(), p, g.nodes[i])
  {
    var e := g.Rel();
    forall p | RootPath(e, p, g.nodes[i]) ensures i in depth && depth[i] + 1 <= |p| {
      DownReaches(g, depth, level, p, i);
    }
    if i in depth {
      var p := DepthPath(g, i, depth[i]);
    }
  }

  lemma {:induction false} DownReaches(g: DiGraph, depth: map<nat, nat>, level: nat, p: seq<Uuid>, i: nat)
    requires g.Wf() && DownInv(g, depth, [], {}, level) && i < |g.nodes|
    requires RootPath(g.Rel(), p, g.nodes[i])
    ensures i in depth && depth[i] + 1 <= |p|
    decreases |p|
  {
    if |p| > 1 {
      var u := PathStep(g, p);
      DownReaches(g, depth, level, p[..|p| - 1], u);
      ChildRecorded(g, depth, u, i);
    }
  }

  lemma PathStep(g: DiGraph, p: seq<Uuid>) returns (u: nat)
    requires g.Wf() && IsPath(g.Rel(), p) && |p| > 1
    ensures u < |g.nodes| && g.nodes[u] == p[|p| - 2] && (g.nodes[u], p[|p| - 1]) in g.Rel()
    ensures IsPath(g.Rel(), p[..|p| - 1])
  {
    SubPath(g.Rel(), p, 0, |p| - 2);
    assert p[0..|p| - 2 + 1] == p[..|p| - 1];
    assert (p[|p| - 2], p[|p| - 2 + 1]) in g.Rel();
    RelInIds(g);
    u := IndexOf(g, p[|p| - 2]);
  }

  lemma ChildRecorded(g: DiGraph, depth: map<nat, nat>, u: nat, i: nat)
    requires g.Wf() && u in depth && u < |g.nodes| && i < |g.nodes| && Finished(g, depth, [], {})
    requires (g.nodes[u], g.nodes[i]) in g.Rel()
    ensures i in depth && depth[i] <= depth[u] + 1
  {
    OutgoingSpec(g, u);
    assert ChildrenRecorded(g, depth, u);
  }

  // ── Witnesses, at the identifier type ──

  lemma StrictStep(e: set<(Uuid, Uuid)>, a: Uuid, b: Uuid) returns (v: Uuid)
    requires StrictReach(e, a, b)
    ensures (a, v) in e && Reach(e, v, b)
  {
    v :| (a, v) in e && Reach(e, v, b);
  }

  lemma PathOf(e: set<(Uuid, Uuid)>, a: Uuid, b: Uuid) returns (p: seq<Uuid>)
    requires Reach(e, a, b)
    ensures PathFromTo(e, p, a, b)
  {
    p :| PathFromTo(e, p, a, b);
  }
}
