/** Topological order of the lineage graph and of a chosen subset of branches. */
module MergeOrdering {
  import opened Wrappers
  import opened Paths
  import opened DirectedGraph
  import opened GraphSearch
  import opened LineageGraph

  /** Repeatedly takes a node all of whose parents are already placed; when none is left to take, reports a
      node that lies on a cycle. */
  method TopologicalSort(g: DiGraph) returns (order: Result<seq<Uuid>, DagError>)
    requires g.Wf()
    ensures order.Ok? <==> Acyclic(g.Rel())
    ensures order.Ok? ==> IsTopological(g.Rel(), g.Ids(), order.value)
    ensures order.Err? ==> order.error.DagCycle? && order.error.from == order.error.to
    ensures order.Err? ==> StrictReach(g.Rel(), order.error.from, order.error.from)
  {
    var placed: set<nat> := {};
    var out: seq<Uuid> := [];
    while |out| < |g.nodes|
      invariant placed <= Indices(g) && Placed(g, placed, out)
      decreases Indices(g) - placed
    {
      var next := NextPlaceable(g, placed);
      if next.None? {
        StuckIsCyclic(g, placed, out);
        var x := CycleNode(g);
        return Err(DagCycle(x, x));
      }
      PlaceNext(g, placed, out, next.value);
      out := out + [g.nodes[next.value]];
      placed := placed + {next.value};
    }
    AllPlaced(g, placed, out);
    return Ok(out);
  }

  /** Looks for a node that is its own strict ancestor. */
  method CycleNode(g: DiGraph) returns (x: Uuid)
    requires g.Wf() && !Acyclic(g.Rel())
    ensures StrictReach(g.Rel(), x, x)
  {
    var n := 0;
    while n < |g.nodes|
      invariant n <= |g.nodes|
      invariant forall i :: 0 <= i < n ==> !StrictReach(g.Rel(), g.nodes[i], g.nodes[i])
    {
      var seen, _ := WalkUp(g, n);
      if n in seen {
        return g.nodes[n];
      }
      n := n + 1;
    }
    NoSelfReachAcyclic(g);
    assert false;
    x := 0;
  }

  /** The placed nodes, each once, none with an edge to itself or to an earlier one. */
  ghost predicate Placed(g: DiGraph, placed: set<nat>, out: seq<Uuid>)
    requires g.Wf()
  {
    && |out| == |placed|
    && Listed(g, placed, out)
    && (forall i, j :: 0 <= i <= j < |out| ==> (out[j], out[i]) !in g.Rel())
    && (forall u, v :: (u, v) in g.Rel() && v in out ==> u in out)
  }

  ghost predicate Placeable(g: DiGraph, placed: set<nat>, n: nat) {
    n < |g.nodes| && n !in placed && ParentsSeen(g, placed, n)
  }

  method NextPlaceable(g: DiGraph, placed: set<nat>) returns (r: Option<nat>)
    ensures r.Some? ==> Placeable(g, placed, r.value)
    ensures r.None? ==> forall n: nat :: !Placeable(g, placed, n)
  {
    var n := 0;
    while n < |g.nodes|
      invariant n <= |g.nodes|
      invariant forall m: nat :: m < n ==> !Placeable(g, placed, m)
    {
      var parents := set p | p in g.Incoming(n);
      if n !in placed && parents <= placed {
        assert ParentsSeen(g, placed, n);
        return Some(n);
      }
      assert !Placeable(g, placed, n) by {
        if ParentsSeen(g, placed, n) { assert parents <= placed; }
      }
      n := n + 1;
    }
    return None;
  }

  lemma PlaceNext(g: DiGraph, placed: set<nat>, out: seq<Uuid>, n: nat)
    requires g.Wf() && Placed(g, placed, out) && Placeable(g, placed, n)
    ensures Placed(g, placed + {n}, out + [g.nodes[n]])
    ensures n in Indices(g) && Indices(g) - (placed + {n}) < Indices(g) - placed
  {
    var x := g.nodes[n];
    var out' := out + [x];
    ListPush(g, placed, out, n);
    UnlistedUnseen(g, placed, out, n);
    forall u | (u, x) in g.Rel() ensures u in out {
      ParentPlaced(g, placed, out, n, u);
    }
    forall i, j | 0 <= i <= j < |out'| ensures (out'[j], out'[i]) !in g.Rel() {
      if j == |out| {
        assert out'[j] == x && x !in out;
        if i < |out| {
          var v := out[i];
          assert v in out && out'[i] == v;
          assert (x, v) !in g.Rel();
        } else {
          assert (x, x) !in g.Rel();
        }
      } else {
        assert out'[i] == out[i] && out'[j] == out[j];
      }
    }
    assert n in Indices(g);
  }

  lemma ParentPlaced(g: DiGraph, placed: set<nat>, out: seq<Uuid>, n: nat, u: Uuid)
    requires g.Wf() && Placed(g, placed, out) && Placeable(g, placed, n) && (u, g.nodes[n]) in g.Rel()
    ensures u in out
  {
    RelInIds(g);
    var i := IndexOf(g, u);
    IncomingSpec(g, n);
    assert i in g.Incoming(n);
    UnlistedUnseen(g, placed, out, i);
  }

  lemma StuckIsCyclic(g: DiGraph, placed: set<nat>, out: seq<Uuid>)
    requires g.Wf() && placed <= Indices(g) && Placed(g, placed, out) && |out| < |g.nodes|
    requires forall n: nat :: !Placeable(g, placed, n)
    ensures !Acyclic(g.Rel())
  {
    IndicesCount(|g.nodes|);
    var left := Indices(g) - placed;
    LargerLeavesSome(Indices(g), placed);
    var n := SomeMember(left);
    var stuck := Labels(g, left);
    forall v | v in stuck ensures HasParentWithin(g.Rel(), stuck, v) {
      var m: nat :| m in left && m < |g.nodes| && g.nodes[m] == v;
      assert !Placeable(g, placed, m);
      var p: nat :| p in g.Incoming(m) && p !in placed;
      ParentRegistered(g, m, p);
      var u := g.nodes[p];
      assert p in left && u in stuck && (u, v) in g.Rel();
    }
    var x := g.nodes[n];
    assert x in stuck;
    NoSourceIsCyclic(g.Rel(), stuck, x);
  }

  lemma IndicesCount(n: nat)
    ensures |Below(n)| == n
  {
  }

  lemma AllPlaced(g: DiGraph, placed: set<nat>, out: seq<Uuid>)
    requires g.Wf() && placed <= Indices(g) && Placed(g, placed, out) && |out| >= |g.nodes|
    ensures IsTopological(g.Rel(), g.Ids(), out)
    ensures Acyclic(g.Rel())
  {
    IndicesCount(|g.nodes|);
    SubsetSameSize(placed, Indices(g));
    forall x ensures x in out <==> x in g.Ids() {
      if x in g.Ids() {
        var i := IndexOf(g, x);
        UnlistedUnseen(g, placed, out, i);
      }
    }
    TopologicalIsAcyclic(g, out);
  }

  lemma LargerLeavesSome<T>(a: set<T>, b: set<T>)
    requires |a| > |b|
    ensures a - b != {}
  {
    assert |a| == |a * b| + |a - b| && |b| == |a * b| + |b - a|;
  }

  lemma TopologicalIsAcyclic(g: DiGraph, order: seq<Uuid>)
    requires g.Wf() && IsTopological(g.Rel(), g.Ids(), order)
    ensures Acyclic(g.Rel())
  {
    RelInIds(g);
    forall u: Uuid, v: Uuid | (u, v) in g.Rel() ensures !Reach(g.Rel(), v, u) {
      var i :| 0 <= i < |order| && order[i] == u;
      var j :| 0 <= j < |order| && order[j] == v;
      assert i < j;
      TopologicalReach(g.Rel(), g.Ids(), order, i, j);
    }
  }

  /** The wanted branches in topological order; unknown ones are dropped, repeats collapse. */
  method MergeOrder(dag: DagGraph, branches: seq<Uuid>) returns (r: Result<seq<Uuid>, DagError>)
    requires dag.Valid()
    ensures r.Ok? && Distinct(r.value)
    ensures forall x :: x in r.value <==> x in branches && x in dag.graph.Ids()
    ensures NoneReachesBack(dag.graph.Rel(), r.value)
  {
    var full := TopologicalSort(dag.graph);
    var order := full.value;
    var want := set x | x in branches;
    RelInIds(dag.graph);
    TopologicalNoneBack(dag.graph.Rel(), dag.graph.Ids(), order);
    var out := Kept(order, want);
    KeptOrdered(dag.graph.Rel(), order, want);
    return Ok(out);
  }

  function Kept(order: seq<Uuid>, want: set<Uuid>): (r: seq<Uuid>)
    ensures forall x :: x in r <==> x in order && x in want
  {
    if order == [] then [] else (if order[0] in want then [order[0]] else []) + Kept(order[1..], want)
  }

  lemma {:induction false} KeptOrdered(e: set<(Uuid, Uuid)>, order: seq<Uuid>, want: set<Uuid>)
    requires Distinct(order) && NoneReachesBack(e, order)
    ensures Distinct(Kept(order, want)) && NoneReachesBack(e, Kept(order, want))
  {
    if order != [] {
      var rest := order[1..];
      forall i, j | 0 <= i < j < |rest| ensures !Reach(e, rest[j], rest[i]) {
        assert rest[i] == order[i + 1] && rest[j] == order[j + 1];
      }
      KeptOrdered(e, rest, want);
      var r := Kept(order, want);
      if order[0] in want {
        forall j | 0 < j < |r| ensures r[j] != order[0] && !Reach(e, r[j], order[0]) {
          assert r[j] in Kept(rest, want);
          var k :| 0 <= k < |rest| && rest[k] == r[j];
          assert order[k + 1] == r[j];
        }
      }
    }
  }
}
