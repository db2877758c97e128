/** Ordering of persisted edges so that every edge into a branch precedes every edge out of it. */
module EdgeOrdering {
  import opened Paths
  import opened DirectedGraph
  import opened GraphSearch

  datatype EdgeRecord = EdgeRecord(parentId: Uuid, childId: Uuid, meta: EdgeMeta)

  ghost function Pairs(edges: seq<EdgeRecord>): set<(Uuid, Uuid)> {
    set k | 0 <= k < |edges| :: (edges[k].parentId, edges[k].childId)
  }

  ghost predicate IsEndpoint(edges: seq<EdgeRecord>, v: Uuid) {
    exists k :: 0 <= k < |edges| && (edges[k].parentId == v || edges[k].childId == v)
  }

  /** The edges into v that are not among the processed ones. */
  ghost function Pending(edges: seq<EdgeRecord>, processed: set<nat>, v: Uuid): set<nat> {
    set k: nat | k < |edges| && edges[k].childId == v && k !in processed
  }

  ghost function Elements(s: seq<nat>): set<nat> {
    set x | x in s
  }

  /** Indices of the edges out of v among the first n, in row order. */
  function EdgesOut(edges: seq<EdgeRecord>, n: nat, v: Uuid): (r: seq<nat>)
    requires n <= |edges|
    ensures forall k :: k in r <==> 0 <= k < n && edges[k].parentId == v
    ensures forall i, j :: 0 <= i < j < |r| ==> r[i] < r[j]
  {
    if n == 0 then [] else
      var rest := EdgesOut(edges, n - 1, v);
      assert forall i :: 0 <= i < |rest| ==> rest[i] in rest;
      if edges[n - 1].parentId == v then rest + [n - 1] else rest
  }

  /** Every edge index exactly once. */
  ghost predicate IsEdgePermutation(edges: seq<EdgeRecord>, order: seq<nat>) {
    Distinct(order) && forall k: nat :: k in order <==> k < |edges|
  }

  /** The edges into the parent of the j-th listed edge all come earlier. */
  ghost predicate FirstAt(edges: seq<EdgeRecord>, order: seq<nat>, j: nat)
    requires j < |order|
  {
    && order[j] < |edges|
    && forall k: nat :: k < |edges| && edges[k].childId == edges[order[j]].parentId ==> k in order[..j]
  }

  /** Before any edge out of p, all edges into p have been listed. */
  ghost predicate ParentsFirst(edges: seq<EdgeRecord>, order: seq<nat>) {
    forall j: nat {:trigger FirstAt(edges, order, j)} :: j < |order| ==> FirstAt(edges, order, j)
  }

  // ── The two tables built from the rows ──

  ghost predicate OutAt(edges: seq<EdgeRecord>, n: nat, gone: set<Uuid>, outEdges: map<Uuid, seq<nat>>, v: Uuid)
    requires n <= |edges|
  {
    if v in outEdges then v !in gone && outEdges[v] == EdgesOut(edges, n, v)
    else v in gone || EdgesOut(edges, n, v) == []
  }

  ghost predicate OutTable(edges: seq<EdgeRecord>, n: nat, gone: set<Uuid>, outEdges: map<Uuid, seq<nat>>)
    requires n <= |edges|
  {
    forall v {:trigger OutAt(edges, n, gone, outEdges, v)} :: OutAt(edges, n, gone, outEdges, v)
  }

  ghost predicate DegreeAt(edges: seq<EdgeRecord>, processed: set<nat>, inDegree: map<Uuid, nat>, v: Uuid) {
    && (v in inDegree <==> IsEndpoint(edges, v))
    && (v in inDegree ==> inDegree[v] == |Pending(edges, processed, v)|)
  }

  ghost predicate DegreeTable(edges: seq<EdgeRecord>, processed: set<nat>, inDegree: map<Uuid, nat>) {
    forall v {:trigger DegreeAt(edges, processed, inDegree, v)} :: DegreeAt(edges, processed, inDegree, v)
  }

  function PutOut(outEdges: map<Uuid, seq<nat>>, v: Uuid, n: nat): map<Uuid, seq<nat>> {
    outEdges[v := (if v in outEdges then outEdges[v] else []) + [n]]
  }

  lemma BuildOut(edges: seq<EdgeRecord>, n: nat, outEdges: map<Uuid, seq<nat>>)
    requires n < |edges| && OutTable(edges, n, {}, outEdges)
    ensures OutTable(edges, n + 1, {}, PutOut(outEdges, edges[n].parentId, n))
  {
    var outEdges' := PutOut(outEdges, edges[n].parentId, n);
    var n' := n + 1;
    forall v ensures OutAt(edges, n', {}, outEdges', v) {
      assert OutAt(edges, n, {}, outEdges, v);
    }
  }

  lemma PendingPrefix(edges: seq<EdgeRecord>, n: nat, v: Uuid)
    requires n < |edges|
    ensures |Pending(edges[..n + 1], {}, v)| == |Pending(edges[..n], {}, v)| + if edges[n].childId == v then 1 else 0
  {
    var big, small := Pending(edges[..n + 1], {}, v), Pending(edges[..n], {}, v);
    assert n !in small;
    assert big == if edges[n].childId == v then small + {n} else small;
  }

  function PutDegree(inDegree: map<Uuid, nat>, e: EdgeRecord): map<Uuid, nat> {
    var counted := inDegree[e.childId := if e.childId in inDegree then inDegree[e.childId] + 1 else 1];
    if e.parentId in counted then counted else counted[e.parentId := 0]
  }

  lemma BuildDegree(edges: seq<EdgeRecord>, n: nat, inDegree: map<Uuid, nat>)
    requires n < |edges| && DegreeTable(edges[..n], {}, inDegree)
    ensures DegreeTable(edges[..n + 1], {}, PutDegree(inDegree, edges[n]))
  {
    var inDegree', longer := PutDegree(inDegree, edges[n]), edges[..n + 1];
    forall v ensures DegreeAt(longer, {}, inDegree', v) {
      EndpointPrefix(edges, n, v);
      PendingPrefix(edges, n, v);
      assert DegreeAt(edges[..n], {}, inDegree, v);
      if !IsEndpoint(edges[..n], v) { NoPending(edges[..n], v); }
    }
  }

  lemma NoPending(edges: seq<EdgeRecord>, v: Uuid)
    requires !IsEndpoint(edges, v)
    ensures Pending(edges, {}, v) == {}
  {
  }

  lemma EndpointPrefix(edges: seq<EdgeRecord>, n: nat, v: Uuid)
    requires n < |edges|
    ensures IsEndpoint(edges[..n + 1], v)
      <==> IsEndpoint(edges[..n], v) || v == edges[n].parentId || v == edges[n].childId
  {
    var big, small := edges[..n + 1], edges[..n];
    assert big[n] == edges[n];
    if IsEndpoint(small, v) {
      var k :| 0 <= k < |small| && (small[k].parentId == v || small[k].childId == v);
      assert big[k] == small[k];
    }
    if IsEndpoint(big, v) {
      var k :| 0 <= k < |big| && (big[k].parentId == v || big[k].childId == v);
      if k < n { assert small[k] == big[k]; }
    }
  }

  method BuildTables(edges: seq<EdgeRecord>) returns (outEdges: map<Uuid, seq<nat>>, inDegree: map<Uuid, nat>)
    ensures OutTable(edges, |edges|, {}, outEdges)
    ensures DegreeTable(edges, {}, inDegree)
  {
    outEdges, inDegree := map[], map[];
    var i := 0;
    while i < |edges|
      invariant i <= |edges|
      invariant OutTable(edges, i, {}, outEdges)
      invariant DegreeTable(edges[..i], {}, inDegree)
    {
      var e := edges[i];
      BuildOut(edges, i, outEdges);
      BuildDegree(edges, i, inDegree);
      outEdges := PutOut(outEdges, e.parentId, i);
      inDegree := PutDegree(inDegree, e);
      i := i + 1;
    }
    assert edges[..|edges|] == edges;
  }

  // ── The main loop ──

  /** A branch is waiting or finished exactly when nothing into it is pending. */
  ghost predicate Frontier(inDegree: map<Uuid, nat>, queue: seq<Uuid>, popped: set<Uuid>) {
    && Distinct(queue)
    && (forall v :: v in queue ==> v !in popped)
    && (forall v :: v in queue || v in popped <==> v in inDegree && inDegree[v] == 0)
  }

  /** The listed edges are those out of finished branches, plus `extra`. */
  ghost predicate ListedEdges(edges: seq<EdgeRecord>, order: seq<nat>, popped: set<Uuid>, extra: set<nat>) {
    && Distinct(order) && ParentsFirst(edges, order)
    && (forall k: nat :: k in order <==> k < |edges| && (edges[k].parentId in popped || k in extra))
  }

  /** All branches with no edge into them, in arbitrary order. */
  method InitialQueue(inDegree: map<Uuid, nat>) returns (queue: seq<Uuid>)
    ensures Frontier(inDegree, queue, {})
  {
    queue := [];
    var rest := inDegree.Keys;
    while rest != {}
      invariant rest <= inDegree.Keys
      invariant Distinct(queue)
      invariant forall v :: v in queue <==> v in inDegree && v !in rest && inDegree[v] == 0
      decreases rest
    {
      ghost var _ := SomeMember(rest);
      var v :| v in rest;
      if inDegree[v] == 0 {
        queue := queue + [v];
      }
      rest := rest - {v};
    }
  }

  lemma PopQueue(inDegree: map<Uuid, nat>, queue: seq<Uuid>, popped: set<Uuid>)
    requires queue != [] && Frontier(inDegree, queue, popped)
    ensures queue[0] !in popped && queue[0] in inDegree && inDegree[queue[0]] == 0
    ensures Frontier(inDegree, queue[1..], popped + {queue[0]})
  {
    var v := queue[0];
    assert v in queue;
    assert queue == [v] + queue[1..];
    forall w | w in queue[1..] ensures w != v {
      var i :| 0 <= i < |queue[1..]| && queue[1..][i] == w;
      assert queue[i + 1] == w;
    }
  }

  /** Nothing into a branch with degree zero is pending. */
  lemma ZeroDegree(edges: seq<EdgeRecord>, processed: set<nat>, inDegree: map<Uuid, nat>, v: Uuid)
    requires DegreeTable(edges, processed, inDegree) && v in inDegree
    ensures inDegree[v] == 0 <==> Pending(edges, processed, v) == {}
  {
    assert DegreeAt(edges, processed, inDegree, v);
  }

  lemma TakeEdge(edges: seq<EdgeRecord>, processed: set<nat>, inDegree: map<Uuid, nat>, k: nat)
    requires k < |edges| && k !in processed && DegreeTable(edges, processed, inDegree)
    ensures edges[k].childId in inDegree && inDegree[edges[k].childId] > 0
    ensures DegreeTable(edges, processed + {k}, inDegree[edges[k].childId := inDegree[edges[k].childId] - 1])
    ensures inDegree[edges[k].childId := inDegree[edges[k].childId] - 1].Keys == inDegree.Keys
  {
    var c := edges[k].childId;
    assert IsEndpoint(edges, c);
    assert DegreeAt(edges, processed, inDegree, c);
    assert k in Pending(edges, processed, c);
    var inDegree', processed' := inDegree[c := inDegree[c] - 1], processed + {k};
    forall v ensures DegreeAt(edges, processed', inDegree', v) {
      assert DegreeAt(edges, processed, inDegree, v);
      assert Pending(edges, processed', v) == Pending(edges, processed, v) - {k};
      if v != c { assert k !in Pending(edges, processed, v); }
    }
  }

  lemma LowerDegree(inDegree: map<Uuid, nat>, queue: seq<Uuid>, popped: set<Uuid>, c: Uuid, d: nat)
    requires Frontier(inDegree, queue, popped) && c in inDegree && inDegree[c] == d + 1
    ensures d == 0 ==> Frontier(inDegree[c := d], queue + [c], popped)
    ensures d != 0 ==> Frontier(inDegree[c := d], queue, popped)
  {
  }

  lemma ParentsFirstPush(edges: seq<EdgeRecord>, order: seq<nat>, idx: nat)
    requires ParentsFirst(edges, order) && idx < |edges|
    requires Pending(edges, Elements(order), edges[idx].parentId) == {}
    ensures ParentsFirst(edges, order + [idx])
  {
    var order' := order + [idx];
    forall j: nat | j < |order'| ensures FirstAt(edges, order', j) {
      if j < |order| {
        assert FirstAt(edges, order, j);
        assert order'[..j] == order[..j];
      } else {
        assert order'[..j] == order;
        forall k: nat | k < |edges| && edges[k].childId == edges[idx].parentId ensures k in order {
          assert k !in Pending(edges, Elements(order), edges[idx].parentId);
        }
      }
    }
  }

  lemma ListEdge(edges: seq<EdgeRecord>, order: seq<nat>, popped: set<Uuid>, parent: Uuid, out: seq<nat>, k: nat)
    requires out == EdgesOut(edges, |edges|, parent) && k < |out| && parent !in popped
    requires ListedEdges(edges, order, popped, Elements(out[..k]))
    requires Pending(edges, Elements(order), parent) == {}
    ensures out[k] !in order && out[k] < |edges| && edges[out[k]].parentId == parent
    ensures ListedEdges(edges, order + [out[k]], popped, Elements(out[..k + 1]))
    ensures Elements(order + [out[k]]) == Elements(order) + {out[k]}
    ensures Pending(edges, Elements(order + [out[k]]), parent) == {}
  {
    var idx := out[k];
    assert idx in out;
    assert out[..k + 1] == out[..k] + [idx];
    assert idx !in out[..k];
    var order' := order + [idx];
    ParentsFirstPush(edges, order, idx);
    assert Pending(edges, Elements(order'), parent) <= Pending(edges, Elements(order), parent);
  }

  /** Lists the edges out of a finished branch and queues the children this completes. */
  method ReleaseChildren(edges: seq<EdgeRecord>, ghost parent: Uuid, childIndices: seq<nat>, inDegree0: map<Uuid, nat>,
                         queue0: seq<Uuid>, order0: seq<nat>, ghost popped: set<Uuid>)
    returns (inDegree: map<Uuid, nat>, queue: seq<Uuid>, order: seq<nat>)
    requires childIndices == EdgesOut(edges, |edges|, parent) && parent !in popped
    requires parent in inDegree0 && inDegree0[parent] == 0
    requires DegreeTable(edges, Elements(order0), inDegree0)
    requires Frontier(inDegree0, queue0, popped + {parent})
    requires ListedEdges(edges, order0, popped, {})
    ensures DegreeTable(edges, Elements(order), inDegree) && inDegree.Keys == inDegree0.Keys
    ensures Frontier(inDegree, queue, popped + {parent})
    ensures ListedEdges(edges, order, popped + {parent}, {})
  {
    inDegree, queue, order := inDegree0, queue0, order0;
    ZeroDegree(edges, Elements(order), inDegree, parent);
    assert Elements(childIndices[..0]) == {};
    var k := 0;
    while k < |childIndices|
      invariant k <= |childIndices|
      invariant DegreeTable(edges, Elements(order), inDegree) && inDegree.Keys == inDegree0.Keys
      invariant Frontier(inDegree, queue, popped + {parent})
      invariant ListedEdges(edges, order, popped, Elements(childIndices[..k]))
      invariant Pending(edges, Elements(order), parent) == {}
    {
      var idx := childIndices[k];
      ListEdge(edges, order, popped, parent, childIndices, k);
      TakeEdge(edges, Elements(order), inDegree, idx);
      var child := edges[idx].childId;
      order := order + [idx];
      var d := if child in inDegree then inDegree[child] else 1;
      d := if d >= 1 then d - 1 else 0;
      LowerDegree(inDegree, queue, popped + {parent}, child, d);
      inDegree := inDegree[child := d];
      if d == 0 {
        queue := queue + [child];
      }
      k := k + 1;
    }
    FinishParent(edges, order, popped, parent, childIndices);
  }

  lemma FinishParent(edges: seq<EdgeRecord>, order: seq<nat>, popped: set<Uuid>, parent: Uuid, out: seq<nat>)
    requires out == EdgesOut(edges, |edges|, parent)
    requires ListedEdges(edges, order, popped, Elements(out[..|out|]))
    ensures ListedEdges(edges, order, popped + {parent}, {})
  {
    assert out[..|out|] == out;
  }

  lemma DropOut(edges: seq<EdgeRecord>, gone: set<Uuid>, outEdges: map<Uuid, seq<nat>>, parent: Uuid)
    requires OutTable(edges, |edges|, gone, outEdges)
    ensures OutTable(edges, |edges|, gone + {parent}, outEdges - {parent})
    ensures parent in outEdges ==> parent !in gone && outEdges[parent] == EdgesOut(edges, |edges|, parent)
    ensures parent !in outEdges && parent !in gone ==> EdgesOut(edges, |edges|, parent) == []
  {
    assert OutAt(edges, |edges|, gone, outEdges, parent);
    var gone', outEdges' := gone + {parent}, outEdges - {parent};
    forall v ensures OutAt(edges, |edges|, gone', outEdges', v) {
      assert OutAt(edges, |edges|, gone, outEdges, v);
    }
  }

  /** Lists all edges so that, whenever the rows are acyclic, parents come first.
      `reached` counts the edges listed before the fallback for cyclic rows. */
  method KahnOrder(edges: seq<EdgeRecord>) returns (order: seq<nat>, reached: nat)
    ensures IsEdgePermutation(edges, order)
    ensures reached <= |order| && ParentsFirst(edges, order[..reached])
    ensures Acyclic(Pairs(edges)) <==> reached == |edges|
  {
    var outEdges, inDegree := BuildTables(edges);
    var queue := InitialQueue(inDegree);
    order := [];
    ghost var popped: set<Uuid> := {};
    assert Elements([]) == {};
    while queue != []
      invariant OutTable(edges, |edges|, popped, outEdges)
      invariant DegreeTable(edges, Elements(order), inDegree)
      invariant Frontier(inDegree, queue, popped)
      invariant ListedEdges(edges, order, popped, {})
      decreases inDegree.Keys - popped
    {
      var parent := queue[0];
      PopQueue(inDegree, queue, popped);
      queue := queue[1..];
      DropOut(edges, popped, outEdges, parent);
      if parent in outEdges {
        var childIndices := outEdges[parent];
        outEdges := outEdges - {parent};
        inDegree, queue, order := ReleaseChildren(edges, parent, childIndices, inDegree, queue, order, popped);
      } else {
        assert outEdges - {parent} == outEdges;
        FinishParent(edges, order, popped, parent, []);
      }
      popped := popped + {parent};
    }
    reached := |order|;
    assert order[..reached] == order;
    ReachedAll(edges, order, inDegree, popped);
    order := AppendMissing(edges, order);
  }

  /** The loop lists every edge exactly when the rows are acyclic. */
  lemma ReachedAll(edges: seq<EdgeRecord>, order: seq<nat>, inDegree: map<Uuid, nat>, popped: set<Uuid>)
    requires DegreeTable(edges, Elements(order), inDegree) && Frontier(inDegree, [], popped)
    requires ListedEdges(edges, order, popped, {})
    ensures Acyclic(Pairs(edges)) <==> |order| == |edges|
  {
    if Acyclic(Pairs(edges)) {
      forall k: nat | k < |edges| ensures k in order {
        if k !in order {
          UnlistedIsCyclic(edges, order, inDegree, popped, k);
          assert false;
        }
      }
      AllListedCount(edges, order);
    }
    if |order| == |edges| {
      AllListedCount(edges, order);
      ParentsFirstIsAcyclic(edges, order);
    }
  }

  lemma UnlistedIsCyclic(edges: seq<EdgeRecord>, order: seq<nat>, inDegree: map<Uuid, nat>, popped: set<Uuid>, k: nat)
    requires DegreeTable(edges, Elements(order), inDegree) && Frontier(inDegree, [], popped)
    requires ListedEdges(edges, order, popped, {}) && k < |edges| && k !in order
    ensures !Acyclic(Pairs(edges))
  {
    var left := set j: nat | j < |edges| && j !in order :: edges[j].parentId;
    var e := Pairs(edges);
    forall v | v in left ensures HasParentWithin(e, left, v) {
      var j: nat :| j < |edges| && j !in order && edges[j].parentId == v;
      assert IsEndpoint(edges, v);
      assert DegreeAt(edges, Elements(order), inDegree, v);
      ZeroDegree(edges, Elements(order), inDegree, v);
      var i := SomeMember(Pending(edges, Elements(order), v));
      var u := edges[i].parentId;
      assert u in left && (u, v) in e;
    }
    var x := edges[k].parentId;
    assert x in left;
    NoSourceIsCyclic(e, left, x);
  }

  lemma AllListedCount(edges: seq<EdgeRecord>, order: seq<nat>)
    requires Distinct(order) && forall k: nat :: k in order ==> k < |edges|
    ensures |order| == |edges| <==> forall k: nat :: k < |edges| ==> k in order
  {
    DistinctSize(order);
    var all := Below(|edges|);
    assert Elements(order) <= all;
    if |order| == |edges| {
      SubsetSameSize(Elements(order), all);
      forall k: nat | k < |edges| ensures k in order {
        assert k in Elements(order);
      }
    }
    if forall k: nat :: k < |edges| ==> k in order {
      assert Elements(order) == all;
    }
  }

  lemma ParentsFirstIsAcyclic(edges: seq<EdgeRecord>, order: seq<nat>)
    requires ParentsFirst(edges, order) && Distinct(order) && forall k: nat :: k < |edges| ==> k in order
    ensures Acyclic(Pairs(edges))
  {
    var e := Pairs(edges);
    forall u: Uuid, v: Uuid | (u, v) in e ensures !Reach(e, v, u) {
      if Reach(e, v, u) {
        var a: nat :| a < |edges| && (edges[a].parentId, edges[a].childId) == (u, v);
        assert a in order;
        var i :| 0 <= i < |order| && order[i] == a;
        var p := PathOf(e, v, u);
        EdgesAdvance(edges, order, p, i, i);
        assert false;
      }
    }
  }

  /** Along a path the positions of the edges increase: the edge into its start is listed before
      the edge out of its end. */
  lemma {:induction false} EdgesAdvance(edges: seq<EdgeRecord>, order: seq<nat>, p: seq<Uuid>, i: nat, j: nat)
    requires ParentsFirst(edges, order) && Distinct(order) && forall k: nat :: k < |edges| ==> k in order
    requires IsPath(Pairs(edges), p) && i < |order| && j < |order| && order[i] < |edges| && order[j] < |edges|
    requires edges[order[i]].childId == p[0] && edges[order[j]].parentId == p[|p| - 1]
    ensures i < j
    decreases |p|
  {
    if |p| == 1 {
      ListedBefore(edges, order, i, j);
    } else {
      var c := EdgeOf(edges, p);
      assert c in order;
      var m: nat :| m < |order| && order[m] == c;
      ListedBefore(edges, order, i, m);
      SubPath(Pairs(edges), p, 1, |p| - 1);
      assert p[1..|p| - 1 + 1] == p[1..];
      EdgesAdvance(edges, order, p[1..], m, j);
    }
  }

  lemma EdgeOf(edges: seq<EdgeRecord>, p: seq<Uuid>) returns (c: nat)
    requires IsPath(Pairs(edges), p) && |p| > 1
    ensures c < |edges| && edges[c].parentId == p[0] && edges[c].childId == p[1]
  {
    assert (p[0], p[0 + 1]) in Pairs(edges);
    c :| 0 <= c < |edges| && (edges[c].parentId, edges[c].childId) == (p[0], p[1]);
  }

  lemma ListedBefore(edges: seq<EdgeRecord>, order: seq<nat>, i: nat, j: nat)
    requires ParentsFirst(edges, order) && Distinct(order) && i < |order| && j < |order|
    requires order[i] < |edges| && order[j] < |edges|
    requires edges[order[i]].childId == edges[order[j]].parentId
    ensures i < j
  {
    assert FirstAt(edges, order, j);
    assert order[i] in order[..j];
    var k :| 0 <= k < j && order[k] == order[i];
  }

  method AppendMissing(edges: seq<EdgeRecord>, order0: seq<nat>) returns (order: seq<nat>)
    requires Distinct(order0) && forall k: nat :: k in order0 ==> k < |edges|
    ensures IsEdgePermutation(edges, order)
    ensures |order| >= |order0| && order[..|order0|] == order0
  {
    order := order0;
    var i := 0;
    while i < |edges|
      invariant i <= |edges|
      invariant Distinct(order) && forall k: nat :: k in order ==> k < |edges|
      invariant forall k: nat :: k < i ==> k in order
      invariant |order| >= |order0| && order[..|order0|] == order0
    {
      if i !in order {
        order := order + [i];
      }
      i := i + 1;
    }
  }
}
