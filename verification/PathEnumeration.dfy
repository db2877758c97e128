/** Enumeration of all simple directed paths between two branches by backtracking. */
module PathEnumeration {
  import opened Wrappers
  import opened Paths
  import opened DirectedGraph
  import opened GraphSearch
  import opened LineageGraph

  /** The identifiers along a sequence of node indices. */
  function LabelsAlong(g: DiGraph, p: seq<nat>): (q: seq<Uuid>)
    requires forall i :: 0 <= i < |p| ==> p[i] < |g.nodes|
    ensures |q| == |p| && forall i :: 0 <= i < |p| ==> q[i] == g.nodes[p[i]]
  {
    seq(|p|, i requires 0 <= i < |p| => g.nodes[p[i]])
  }

  ghost predicate InRange(g: DiGraph, p: seq<nat>) {
    forall i :: 0 <= i < |p| ==> p[i] < |g.nodes|
  }

  ghost predicate Linked(g: DiGraph, u: nat, v: nat) {
    v in g.Outgoing(u)
  }

  /** A path over node indices. */
  ghost predicate IndexPath(g: DiGraph, p: seq<nat>) {
    && |p| > 0 && InRange(g, p)
    && forall i, j :: 0 <= i && j == i + 1 && j < |p| ==> Linked(g, p[i], p[j])
  }

  /** r is a simple path that continues `path` and ends at target. */
  ghost predicate Completes(g: DiGraph, path: seq<nat>, target: nat, r: seq<nat>) {
    IndexPath(g, r) && Distinct(r) && path <= r && r[|r| - 1] == target
  }

  ghost predicate Trail(g: DiGraph, path: seq<nat>, visited: set<nat>, current: nat) {
    && IndexPath(g, path) && Distinct(path) && path[|path| - 1] == current
    && visited == (set x | x in path)
  }

  /** r completes the path through one of the first k listed neighbours. */
  ghost predicate CompletesVia(g: DiGraph, path: seq<nat>, target: nat, next: seq<nat>, k: nat, r: seq<nat>)
    requires k <= |next|
  {
    Completes(g, path, target, r) && |path| < |r| && r[|path|] in next[..k]
  }

  ghost predicate CompletionAt(g: DiGraph, path: seq<nat>, target: nat, found: seq<seq<nat>>, r: seq<nat>) {
    r in found <==> Completes(g, path, target, r)
  }

  /** The list holds every completion of the path once, and nothing else. */
  ghost predicate Completions(g: DiGraph, path: seq<nat>, target: nat, found: seq<seq<nat>>) {
    && Distinct(found)
    && forall r {:trigger CompletionAt(g, path, target, found, r)} :: CompletionAt(g, path, target, found, r)
  }

  ghost predicate ViaAt(g: DiGraph, path: seq<nat>, target: nat, next: seq<nat>, k: nat, found: seq<seq<nat>>,
                        r: seq<nat>)
    requires k <= |next|
  {
    r in found <==> CompletesVia(g, path, target, next, k, r)
  }

  /** The list holds every completion through the first k neighbours once, and nothing else. */
  ghost predicate CompletionsVia(g: DiGraph, path: seq<nat>, target: nat, next: seq<nat>, k: nat, found: seq<seq<nat>>)
  {
    && k <= |next| && Distinct(found)
    && forall r {:trigger ViaAt(g, path, target, next, k, found, r)} :: ViaAt(g, path, target, next, k, found, r)
  }

  /** Behind the earlier results there are exactly the completions through the first k neighbours. */
  ghost predicate SearchedTo(g: DiGraph, path: seq<nat>, target: nat, next: seq<nat>, k: nat,
                             results0: seq<seq<nat>>, results: seq<seq<nat>>)
  {
    && |results| >= |results0| && results[..|results0|] == results0
    && CompletionsVia(g, path, target, next, k, results[|results0|..])
  }

  lemma SearchStart(g: DiGraph, path: seq<nat>, target: nat, next: seq<nat>, results0: seq<seq<nat>>)
    ensures SearchedTo(g, path, target, next, 0, results0, results0)
  {
    forall r ensures ViaAt(g, path, target, next, 0, [], r) { }
    assert results0[|results0|..] == [];
  }

  lemma SearchStep(g: DiGraph, path: seq<nat>, target: nat, next: seq<nat>, k: nat, neighbor: nat,
                   results0: seq<seq<nat>>, before: seq<seq<nat>>, results: seq<seq<nat>>)
    requires k < |next| && Distinct(next) && neighbor == next[k]
    requires SearchedTo(g, path, target, next, k, results0, before)
    requires |results| >= |before| && results[..|before|] == before
    requires Completions(g, path + [neighbor], target, results[|before|..])
    ensures SearchedTo(g, path, target, next, k + 1, results0, results)
  {
    ViaNext(g, path, target, next, k, before[|results0|..], results[|before|..]);
    assert results[|results0|..] == before[|results0|..] + results[|before|..];
    assert results[..|results0|] == before[..|results0|];
  }

  /** Backtracking search: appends every completion of `path0` once, and hands back
      the visited set and the path as they were. */
  method DfsPaths(g: DiGraph, current: nat, target: nat, visited0: set<nat>, path0: seq<nat>, results0: seq<seq<nat>>)
    returns (visited: set<nat>, path: seq<nat>, results: seq<seq<nat>>)
    requires g.Wf() && g.Simple() && Trail(g, path0, visited0, current)
    ensures visited == visited0 && path == path0
    ensures |results| >= |results0| && results[..|results0|] == results0
    ensures Completions(g, path0, target, results[|results0|..])
    decreases Indices(g) - visited0
  {
    visited, path, results := visited0, path0, results0;
    if current == target {
      OnlyItself(g, path, target);
      AppendTail(results, [path]);
      results := results + [path];
      return;
    }
    var next := g.Outgoing(current);
    TargetsDistinct(g.edges, current);
    SearchStart(g, path, target, next, results);
    var k := 0;
    while k < |next|
      invariant k <= |next|
      invariant visited == visited0 && path == path0
      invariant SearchedTo(g, path0, target, next, k, results0, results)
    {
      var neighbor := next[k];
      if neighbor !in visited {
        ExtendTrail(g, path, visited, current, neighbor);
        ghost var before := results;
        visited := visited + {neighbor};
        path := path + [neighbor];
        visited, path, results := DfsPaths(g, neighbor, target, visited, path, results);
        path := path[..|path| - 1];
        visited := visited - {neighbor};
        SearchStep(g, path0, target, next, k, neighbor, results0, before, results);
      } else {
        NoneThroughVisited(g, path0, visited0, current, target, next, k, results[|results0|..]);
      }
      k := k + 1;
    }
    ViaSome(g, path0, current, target, results[|results0|..]);
  }

  lemma AppendTail<T>(a: seq<T>, b: seq<T>)
    ensures (a + b)[..|a|] == a && (a + b)[|a|..] == b
  {
  }

  /** When the path already ends at the target, it is its own only completion. */
  lemma OnlyItself(g: DiGraph, path: seq<nat>, target: nat)
    requires IndexPath(g, path) && Distinct(path) && path[|path| - 1] == target
    ensures Completions(g, path, target, [path])
  {
    forall r | Completes(g, path, target, r) ensures r == path {
      assert r[|path| - 1] == path[|path| - 1];
    }
    forall r ensures CompletionAt(g, path, target, [path], r) {
      assert r in [path] <==> r == path;
    }
  }

  lemma ExtendTrail(g: DiGraph, path: seq<nat>, visited: set<nat>, current: nat, n: nat)
    requires g.Wf() && Trail(g, path, visited, current) && n in g.Outgoing(current) && n !in visited
    ensures Trail(g, path + [n], visited + {n}, n)
    ensures visited + {n} - {n} == visited && (path + [n])[..|path|] == path
    ensures Indices(g) - (visited + {n}) < Indices(g) - visited
  {
    OutgoingEdge(g, current, n);
    assert n in Indices(g);
    var q := path + [n];
    forall i, j | 0 <= i && j == i + 1 && j < |q| ensures Linked(g, q[i], q[j]) {
      if j < |path| { assert Linked(g, path[i], path[j]); }
    }
    forall i | 0 <= i < |path| ensures path[i] != n { assert path[i] in path; }
  }

  lemma ViaNext(g: DiGraph, path: seq<nat>, target: nat, next: seq<nat>, k: nat,
                found: seq<seq<nat>>, more: seq<seq<nat>>)
    requires k < |next| && Distinct(next)
    requires CompletionsVia(g, path, target, next, k, found) && Completions(g, path + [next[k]], target, more)
    ensures CompletionsVia(g, path, target, next, k + 1, found + more)
  {
    assert next[..k + 1] == next[..k] + [next[k]];
    forall r
      ensures ViaAt(g, path, target, next, k + 1, found + more, r)
      ensures r in more ==> r !in found
    {
      StepPrefix(path, next[k], r);
      assert CompletionAt(g, path + [next[k]], target, more, r);
      assert ViaAt(g, path, target, next, k, found, r);
      assert next[k] !in next[..k];
    }
    DistinctJoin(found, more);
  }

  lemma DistinctJoin<T(!new)>(a: seq<T>, b: seq<T>)
    requires Distinct(a) && Distinct(b) && forall x :: x in b ==> x !in a
    ensures Distinct(a + b)
  {
    forall i, j | 0 <= i < j < |a + b| ensures (a + b)[i] != (a + b)[j] {
      if i < |a| <= j {
        assert (a + b)[j] in b;
      }
    }
  }

  lemma StepPrefix(path: seq<nat>, n: nat, r: seq<nat>)
    ensures path + [n] <= r <==> path <= r && |path| < |r| && r[|path|] == n
  {
    if path <= r && |path| < |r| && r[|path|] == n {
      assert r[..|path| + 1] == path + [n];
    }
  }

  lemma NoneThroughVisited(g: DiGraph, path: seq<nat>, visited: set<nat>, current: nat, target: nat, next: seq<nat>,
                           k: nat, found: seq<seq<nat>>)
    requires Trail(g, path, visited, current) && k < |next| && next[k] in visited
    requires CompletionsVia(g, path, target, next, k, found)
    ensures CompletionsVia(g, path, target, next, k + 1, found)
  {
    var k' := k + 1;
    assert next[..k'] == next[..k] + [next[k]];
    var i :| 0 <= i < |path| && path[i] == next[k];
    forall r ensures ViaAt(g, path, target, next, k', found, r) {
      assert ViaAt(g, path, target, next, k, found, r);
      assert CompletesVia(g, path, target, next, k', r) ==> r[i] == path[i] && r[i] != r[|path|];
    }
  }

  lemma ViaSome(g: DiGraph, path: seq<nat>, current: nat, target: nat, found: seq<seq<nat>>)
    requires IndexPath(g, path) && path[|path| - 1] == current && current != target
    requires CompletionsVia(g, path, target, g.Outgoing(current), |g.Outgoing(current)|, found)
    ensures Completions(g, path, target, found)
  {
    var next := g.Outgoing(current);
    assert next[..|next|] == next;
    forall r ensures CompletionAt(g, path, target, found, r) {
      assert ViaAt(g, path, target, next, |next|, found, r);
      if Completes(g, path, target, r) {
        assert r[|path| - 1] == current;
        assert |r| > |path|;
        assert Linked(g, r[|path| - 1], r[|path|]);
      }
    }
  }

  // ── Index paths and identifier paths ──

  lemma LabelledPath(g: DiGraph, p: seq<nat>)
    requires g.Wf() && |p| > 0 && InRange(g, p)
    ensures IndexPath(g, p) <==> IsPath(g.Rel(), LabelsAlong(g, p))
    ensures Distinct(p) <==> Distinct(LabelsAlong(g, p))
  {
    var q := LabelsAlong(g, p);
    forall i, j | 0 <= i && j == i + 1 && j < |p| ensures Linked(g, p[i], p[j]) <==> (q[i], q[j]) in g.Rel() {
      OutgoingSpec(g, p[i]);
    }
    if IsPath(g.Rel(), q) {
      forall i, j | 0 <= i && j == i + 1 && j < |p| ensures Linked(g, p[i], p[j]) {
        assert (q[i], q[i + 1]) in g.Rel();
      }
    }
    if Distinct(q) {
      forall i, j | 0 <= i < j < |p| ensures p[i] != p[j] { assert q[i] != q[j]; }
    }
  }

  /** Every path over identifiers is labelled by a path over indices. */
  lemma IndicesAlong(g: DiGraph, q: seq<Uuid>) returns (p: seq<nat>)
    requires forall i :: 0 <= i < |q| ==> q[i] in g.Ids()
    ensures InRange(g, p) && LabelsAlong(g, p) == q
  {
    if q == [] {
      p := [];
    } else {
      var rest := IndicesAlong(g, q[1..]);
      var i := IndexOf(g, q[0]);
      p := [i] + rest;
      assert LabelsAlong(g, p) == [q[0]] + LabelsAlong(g, rest);
    }
  }

  lemma PathRegistered(g: DiGraph, q: seq<Uuid>)
    requires g.Wf() && IsPath(g.Rel(), q) && q[0] in g.Ids()
    ensures forall i :: 0 <= i < |q| ==> q[i] in g.Ids()
  {
    RelInIds(g);
    ClosedForward(g.Rel(), g.Ids(), q);
  }

  lemma SameLabels(g: DiGraph, p: seq<nat>, r: seq<nat>)
    requires g.Wf() && InRange(g, p) && InRange(g, r) && LabelsAlong(g, p) == LabelsAlong(g, r)
    ensures p == r
  {
    forall i | 0 <= i < |p| ensures p[i] == r[i] {
      assert LabelsAlong(g, p)[i] == LabelsAlong(g, r)[i];
    }
    assert |p| == |LabelsAlong(g, p)| == |r|;
  }

  ghost predicate AllInRange(g: DiGraph, rs: seq<seq<nat>>) {
    forall i :: 0 <= i < |rs| ==> InRange(g, rs[i])
  }

  function LabelAll(g: DiGraph, rs: seq<seq<nat>>): (qs: seq<seq<Uuid>>)
    requires forall i :: 0 <= i < |rs| ==> forall j :: 0 <= j < |rs[i]| ==> rs[i][j] < |g.nodes|
    ensures |qs| == |rs| && forall i :: 0 <= i < |rs| ==> qs[i] == LabelsAlong(g, rs[i])
  {
    seq(|rs|, i requires 0 <= i < |rs| => LabelsAlong(g, rs[i]))
  }

  /** The answers are exactly the simple paths between the two branches, each once. */
  lemma LabelledAnswers(g: DiGraph, rs: seq<seq<nat>>, a: nat, b: nat)
    requires g.Wf() && a < |g.nodes| && b < |g.nodes| && AllInRange(g, rs) && Distinct(rs)
    requires forall r :: r in rs <==> Completes(g, [a], b, r)
    ensures Distinct(LabelAll(g, rs))
    ensures forall q :: q in LabelAll(g, rs) <==> PathFromTo(g.Rel(), q, g.nodes[a], g.nodes[b]) && Distinct(q)
  {
    var qs := LabelAll(g, rs);
    forall i, j | 0 <= i < j < |qs| ensures qs[i] != qs[j] {
      if qs[i] == qs[j] { SameLabels(g, rs[i], rs[j]); }
    }
    forall q ensures q in qs <==> PathFromTo(g.Rel(), q, g.nodes[a], g.nodes[b]) && Distinct(q) {
      LabelledAnswer(g, rs, a, b, q);
    }
  }

  lemma LabelledAnswer(g: DiGraph, rs: seq<seq<nat>>, a: nat, b: nat, q: seq<Uuid>)
    requires g.Wf() && a < |g.nodes| && b < |g.nodes| && AllInRange(g, rs)
    requires forall r :: r in rs <==> Completes(g, [a], b, r)
    ensures q in LabelAll(g, rs) <==> PathFromTo(g.Rel(), q, g.nodes[a], g.nodes[b]) && Distinct(q)
  {
    var qs := LabelAll(g, rs);
    if q in qs {
      var i :| 0 <= i < |qs| && qs[i] == q;
      assert rs[i] in rs;
      LabelledCompletion(g, rs[i], a, b);
    }
    if PathFromTo(g.Rel(), q, g.nodes[a], g.nodes[b]) && Distinct(q) {
      assert g.nodes[a] in g.Ids();
      PathRegistered(g, q);
      var r := IndicesAlong(g, q);
      LabelledCompletion(g, r, a, b);
      assert r in rs;
      var i :| 0 <= i < |rs| && rs[i] == r;
      assert qs[i] == q;
    }
  }

  /** Completing the start is being labelled by a simple path between the two branches. */
  lemma LabelledCompletion(g: DiGraph, r: seq<nat>, a: nat, b: nat)
    requires g.Wf() && a < |g.nodes| && b < |g.nodes| && InRange(g, r)
    ensures Completes(g, [a], b, r)
       <==> PathFromTo(g.Rel(), LabelsAlong(g, r), g.nodes[a], g.nodes[b]) && Distinct(LabelsAlong(g, r))
  {
    if |r| > 0 {
      LabelledPath(g, r);
      var q := LabelsAlong(g, r);
      assert q[0] == g.nodes[r[0]] && q[|q| - 1] == g.nodes[r[|r| - 1]];
      assert [a] <= r <==> r[0] == a;
    }
  }

  /** Every simple directed path from one branch to another, each exactly once. */
  method AllPaths(dag: DagGraph, from: Uuid, to: Uuid) returns (r: Result<seq<seq<Uuid>>, DagError>)
    requires dag.Valid()
    ensures r.Err? <==> from !in dag.graph.Ids() || to !in dag.graph.Ids()
    ensures r.Err? ==> r.error == DagNodeNotFound(if from !in dag.graph.Ids() then from else to)
    ensures r.Ok? ==> Distinct(r.value)
    ensures r.Ok? ==> forall q :: q in r.value <==> PathFromTo(dag.graph.Rel(), q, from, to) && Distinct(q)
  {
    IndexedIffRegistered(dag.graph, dag.nodeIndex);
    if from !in dag.nodeIndex {
      return Err(DagNodeNotFound(from));
    }
    var fromN := dag.nodeIndex[from];
    if to !in dag.nodeIndex {
      return Err(DagNodeNotFound(to));
    }
    var toN := dag.nodeIndex[to];
    var visited, path, results := DfsPaths(dag.graph, fromN, toN, {fromN}, [fromN], []);
    assert results[0..] == results;
    forall r ensures r in results <==> Completes(dag.graph, [fromN], toN, r) {
      assert CompletionAt(dag.graph, [fromN], toN, results, r);
    }
    forall i | 0 <= i < |results| ensures InRange(dag.graph, results[i]) {
      assert results[i] in results;
    }
    LabelledAnswers(dag.graph, results, fromN, toN);
    return Ok(LabelAll(dag.graph, results));
  }

  /** In a sound graph every path is simple, so the enumeration misses no path at all. */
  lemma AllPathsAreSimple(g: DiGraph, q: seq<Uuid>, a: Uuid, b: Uuid)
    requires GraphOk(g)
    ensures PathFromTo(g.Rel(), q, a, b) <==> PathFromTo(g.Rel(), q, a, b) && Distinct(q)
  {
    if PathFromTo(g.Rel(), q, a, b) {
      AcyclicPathDistinct(g.Rel(), q);
    }
  }
}
