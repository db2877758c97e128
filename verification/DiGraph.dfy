/** The directed graph the lineage is stored in: a node array and an edge list,
    with nodes addressed by index. Neighbour lists run from the newest edge to the oldest. */
module DirectedGraph {
  import opened Wrappers
  import opened Paths

  // A branch identifier; its order is the order of 128-bit UUIDs.
  type Uuid = int

  datatype EdgeMeta = EdgeMeta(forkedAt: int, mergeCursor: Option<string>)

  datatype Edge = Edge(src: nat, dst: nat, meta: EdgeMeta)

  datatype DiGraph = DiGraph(nodes: seq<Uuid>, edges: seq<Edge>) {

    /** Edges join existing nodes and no identifier labels two nodes. */
    ghost predicate Wf() {
      && (forall k :: 0 <= k < |edges| ==> edges[k].src < |nodes| && edges[k].dst < |nodes|)
      && Distinct(nodes)
    }

    /** No two edges join the same pair of nodes in the same direction. */
    ghost predicate Simple() {
      SimpleEdges(edges)
    }

    ghost function Ids(): set<Uuid> {
      set i | 0 <= i < |nodes| :: nodes[i]
    }

    /** The parent → child relation on identifiers. */
    ghost function Rel(): set<(Uuid, Uuid)>
      requires Wf()
    {
      set k | 0 <= k < |edges| :: (nodes[edges[k].src], nodes[edges[k].dst])
    }

    function Incoming(n: nat): seq<nat> {
      Sources(edges, n)
    }

    function Outgoing(n: nat): seq<nat> {
      Targets(edges, n)
    }

    function FindEdge(a: nat, b: nat): Option<nat> {
      LastEdge(edges, a, b)
    }

    function AddNode(id: Uuid): DiGraph {
      this.(nodes := nodes + [id])
    }

    function AddEdge(a: nat, b: nat, meta: EdgeMeta): DiGraph {
      this.(edges := edges + [Edge(a, b, meta)])
    }

    function RemoveEdge(k: nat): DiGraph
      requires k < |edges|
    {
      this.(edges := edges[..k] + edges[k + 1..])
    }

    /** Drops the edges at node a, then moves the last node into the hole. */
    function RemoveNode(a: nat): DiGraph
      requires a < |nodes|
    {
      var last := |nodes| - 1;
      DiGraph(nodes[a := nodes[last]][..last], Renumbered(edges, a, last))
    }
  }

  function Sources(edges: seq<Edge>, n: nat): (r: seq<nat>)
    ensures forall p :: p in r <==> exists k :: 0 <= k < |edges| && edges[k].dst == n && edges[k].src == p
  {
    if edges == [] then [] else
      var e := edges[|edges| - 1];
      var rest := Sources(edges[..|edges| - 1], n);
      if e.dst == n then [e.src] + rest else rest
  }

  function Targets(edges: seq<Edge>, n: nat): (r: seq<nat>)
    ensures forall p :: p in r <==> exists k :: 0 <= k < |edges| && edges[k].src == n && edges[k].dst == p
  {
    if edges == [] then [] else
      var e := edges[|edges| - 1];
      var rest := Targets(edges[..|edges| - 1], n);
      if e.src == n then [e.dst] + rest else rest
  }

  function LastEdge(edges: seq<Edge>, a: nat, b: nat): (r: Option<nat>)
    ensures r.Some? ==> r.value < |edges| && edges[r.value].src == a && edges[r.value].dst == b
    ensures r.Some? ==> forall k :: r.value < k < |edges| ==> edges[k].src != a || edges[k].dst != b
    ensures r.None? ==> forall k :: 0 <= k < |edges| ==> edges[k].src != a || edges[k].dst != b
  {
    if edges == [] then None else
      var last := |edges| - 1;
      if edges[last].src == a && edges[last].dst == b then Some(last)
      else LastEdge(edges[..last], a, b)
  }

  function Moved(x: nat, hole: nat, last: nat): nat {
    if x == last then hole else x
  }

  function Renumbered(edges: seq<Edge>, a: nat, last: nat): seq<Edge> {
    if edges == [] then [] else
      var e := edges[|edges| - 1];
      var rest := Renumbered(edges[..|edges| - 1], a, last);
      if e.src == a || e.dst == a then rest
      else rest + [Edge(Moved(e.src, a, last), Moved(e.dst, a, last), e.meta)]
  }

  // ── The index-level neighbour lists and the identifier-level relation ──

  lemma RelHas(g: DiGraph, p: nat, n: nat)
    requires g.Wf() && p < |g.nodes| && n < |g.nodes|
    ensures (g.nodes[p], g.nodes[n]) in g.Rel()
      <==> exists k :: 0 <= k < |g.edges| && g.edges[k].src == p && g.edges[k].dst == n
  {
    if (g.nodes[p], g.nodes[n]) in g.Rel() {
      var k :| 0 <= k < |g.edges| && g.nodes[g.edges[k].src] == g.nodes[p] && g.nodes[g.edges[k].dst] == g.nodes[n];
      assert g.edges[k].src == p && g.edges[k].dst == n;
    }
  }

  lemma RelInIds(g: DiGraph)
    requires g.Wf()
    ensures forall u, v :: (u, v) in g.Rel() ==> u in g.Ids() && v in g.Ids()
  {
  }

  /** The position of a registered identifier. */
  lemma IndexOf(g: DiGraph, id: Uuid) returns (i: nat)
    requires id in g.Ids()
    ensures i < |g.nodes| && g.nodes[i] == id
  {
    i :| 0 <= i < |g.nodes| && g.nodes[i] == id;
  }

  lemma IncomingSpec(g: DiGraph, n: nat)
    requires g.Wf() && n < |g.nodes|
    ensures forall p: nat :: p in g.Incoming(n) <==> p < |g.nodes| && (g.nodes[p], g.nodes[n]) in g.Rel()
  {
    forall p: nat ensures p in g.Incoming(n) <==> p < |g.nodes| && (g.nodes[p], g.nodes[n]) in g.Rel() {
      if p < |g.nodes| { RelHas(g, p, n); }
    }
  }

  lemma OutgoingSpec(g: DiGraph, n: nat)
    requires g.Wf() && n < |g.nodes|
    ensures forall c: nat :: c in g.Outgoing(n) <==> c < |g.nodes| && (g.nodes[n], g.nodes[c]) in g.Rel()
  {
    forall c: nat ensures c in g.Outgoing(n) <==> c < |g.nodes| && (g.nodes[n], g.nodes[c]) in g.Rel() {
      if c < |g.nodes| { RelHas(g, n, c); }
    }
  }

  lemma HasParentSpec(g: DiGraph, n: nat)
    requires g.Wf() && n < |g.nodes|
    ensures HasParent(g.Rel(), g.nodes[n]) <==> |g.Incoming(n)| != 0
  {
    IncomingSpec(g, n);
    if HasParent(g.Rel(), g.nodes[n]) {
      var u := SomeParent(g.Rel(), g.nodes[n]);
      RelInIds(g);
      var i := IndexOf(g, u);
      assert i in g.Incoming(n);
    }
    if g.Incoming(n) != [] {
      var i := g.Incoming(n)[0];
      assert i in g.Incoming(n);
      assert (g.nodes[i], g.nodes[n]) in g.Rel();
    }
  }

  lemma {:induction false} SourcesDistinct(edges: seq<Edge>, n: nat)
    requires SimpleEdges(edges)
    ensures Distinct(Sources(edges, n))
  {
    if edges != [] {
      var last := |edges| - 1;
      SourcesDistinct(edges[..last], n);
      if edges[last].dst == n {
        var rest := Sources(edges[..last], n);
        assert edges[last].src !in rest;
      }
    }
  }

  lemma {:induction false} TargetsDistinct(edges: seq<Edge>, n: nat)
    requires SimpleEdges(edges)
    ensures Distinct(Targets(edges, n))
  {
    if edges != [] {
      var last := |edges| - 1;
      TargetsDistinct(edges[..last], n);
      if edges[last].src == n {
        var rest := Targets(edges[..last], n);
        assert edges[last].dst !in rest;
      }
    }
  }

  /** In a forest a node has at most one incoming neighbour. */
  lemma ForestIncoming(g: DiGraph, n: nat)
    requires g.Wf() && g.Simple() && n < |g.nodes| && Forest(g.Rel())
    ensures |g.Incoming(n)| <= 1
  {
    var r := g.Incoming(n);
    SourcesDistinct(g.edges, n);
    IncomingSpec(g, n);
    assert forall p, q :: p in r && q in r ==> g.nodes[p] == g.nodes[q];
    if r != [] {
      var second := r[if |r| > 1 then 1 else 0];
      assert r[0] in r && second in r;
      assert g.nodes[r[0]] == g.nodes[second];
    }
  }

  // ── Graph updates seen on the relation ──

  lemma AddNodeRel(g: DiGraph, id: Uuid)
    requires g.Wf() && id !in g.Ids()
    ensures g.AddNode(id).Wf() && g.AddNode(id).Rel() == g.Rel()
    ensures g.AddNode(id).Ids() == g.Ids() + {id}
    ensures g.Simple() ==> g.AddNode(id).Simple()
  {
    var h := g.AddNode(id);
    assert h.Wf();
    assert forall k :: 0 <= k < |g.edges| ==>
        (h.nodes[h.edges[k].src], h.nodes[h.edges[k].dst]) == (g.nodes[g.edges[k].src], g.nodes[g.edges[k].dst]);
    assert h.nodes[|g.nodes|] == id;
    assert forall i :: 0 <= i < |g.nodes| ==> h.nodes[i] == g.nodes[i];
  }

  lemma AddEdgeRel(g: DiGraph, a: nat, b: nat, meta: EdgeMeta)
    requires g.Wf() && a < |g.nodes| && b < |g.nodes|
    ensures g.AddEdge(a, b, meta).Wf()
    ensures g.AddEdge(a, b, meta).Rel() == g.Rel() + {(g.nodes[a], g.nodes[b])}
    ensures g.Simple() && g.FindEdge(a, b).None? ==> g.AddEdge(a, b, meta).Simple()
  {
    var h := g.AddEdge(a, b, meta);
    assert h.edges[|g.edges|] == Edge(a, b, meta);
    assert forall k :: 0 <= k < |g.edges| ==> h.edges[k] == g.edges[k];
    forall e | e in g.Rel() + {(g.nodes[a], g.nodes[b])} ensures e in h.Rel() {
      if e in g.Rel() {
        var k :| 0 <= k < |g.edges| && e == (g.nodes[g.edges[k].src], g.nodes[g.edges[k].dst]);
        assert h.edges[k] == g.edges[k];
      }
    }
  }

  lemma RemoveLastEdge(g: DiGraph, a: nat, b: nat, meta: EdgeMeta)
    ensures g.AddEdge(a, b, meta).FindEdge(a, b) == Some(|g.edges|)
    ensures g.AddEdge(a, b, meta).RemoveEdge(|g.edges|) == g
  {
    var h := g.AddEdge(a, b, meta);
    assert h.edges[|g.edges|] == Edge(a, b, meta);
    assert h.RemoveEdge(|g.edges|).edges == g.edges;
  }

  /** What survives renumbering: exactly the edges that do not touch a, in order. */
  lemma {:induction false} RenumberedSpec(edges: seq<Edge>, a: nat, last: nat)
    ensures forall e :: e in Renumbered(edges, a, last) <==>
      exists k :: 0 <= k < |edges| && edges[k].src != a && edges[k].dst != a
               && e == Edge(Moved(edges[k].src, a, last), Moved(edges[k].dst, a, last), edges[k].meta)
  {
    if edges != [] {
      var n := |edges| - 1;
      RenumberedSpec(edges[..n], a, last);
      forall e ensures e in Renumbered(edges, a, last) <==>
        exists k :: 0 <= k < |edges| && edges[k].src != a && edges[k].dst != a
                 && e == Edge(Moved(edges[k].src, a, last), Moved(edges[k].dst, a, last), edges[k].meta)
      {
        if e in Renumbered(edges[..n], a, last) {
          var k :| 0 <= k < n && edges[..n][k].src != a && edges[..n][k].dst != a
               && e == Edge(Moved(edges[..n][k].src, a, last), Moved(edges[..n][k].dst, a, last), edges[..n][k].meta);
          assert edges[k] == edges[..n][k];
        }
        if k :| 0 <= k < |edges| && edges[k].src != a && edges[k].dst != a
               && e == Edge(Moved(edges[k].src, a, last), Moved(edges[k].dst, a, last), edges[k].meta) {
          if k < n { assert edges[k] == edges[..n][k]; }
        }
      }
    }
  }

  ghost predicate SimpleEdges(edges: seq<Edge>) {
    forall j, k :: 0 <= j < k < |edges| ==> edges[j].src != edges[k].src || edges[j].dst != edges[k].dst
  }

  lemma {:induction false} RenumberedSimple(edges: seq<Edge>, a: nat, last: nat)
    requires SimpleEdges(edges)
    ensures SimpleEdges(Renumbered(edges, a, last))
  {
    if edges != [] {
      var n := |edges| - 1;
      var e := edges[n];
      RenumberedSimple(edges[..n], a, last);
      RenumberedSpec(edges[..n], a, last);
      var rest := Renumbered(edges[..n], a, last);
      if e.src != a && e.dst != a {
        forall j | 0 <= j < |rest|
          ensures rest[j].src != Moved(e.src, a, last) || rest[j].dst != Moved(e.dst, a, last)
        {
          assert rest[j] in rest;
          var i :| 0 <= i < n && edges[..n][i].src != a && edges[..n][i].dst != a
            && rest[j] ==
                Edge(Moved(edges[..n][i].src, a, last), Moved(edges[..n][i].dst, a, last), edges[..n][i].meta);
          assert edges[i] == edges[..n][i];
        }
      }
    }
  }

  /** There is an edge between the two identifiers, with this metadata. */
  ghost predicate HasEdge(g: DiGraph, u: Uuid, v: Uuid, meta: EdgeMeta)
    requires g.Wf()
  {
    exists k :: 0 <= k < |g.edges| && EdgeIs(g, k, u, v, meta)
  }

  ghost predicate EdgeIs(g: DiGraph, k: int, u: Uuid, v: Uuid, meta: EdgeMeta)
    requires g.Wf() && 0 <= k < |g.edges|
  {
    g.nodes[g.edges[k].src] == u && g.nodes[g.edges[k].dst] == v && g.edges[k].meta == meta
  }

  lemma KeptEdgeWasThere(g: DiGraph, a: nat, j: nat, u: Uuid, v: Uuid, meta: EdgeMeta)
    requires g.Wf() && a < |g.nodes| && g.RemoveNode(a).Wf() && j < |g.RemoveNode(a).edges|
    requires EdgeIs(g.RemoveNode(a), j, u, v, meta)
    ensures HasEdge(g, u, v, meta) && u != g.nodes[a] && v != g.nodes[a]
  {
    var last, e := |g.nodes| - 1, g.RemoveNode(a).edges[j];
    RenumberedSpec(g.edges, a, last);
    assert e in Renumbered(g.edges, a, last);
    var k :| 0 <= k < |g.edges| && g.edges[k].src != a && g.edges[k].dst != a
      && e == Edge(Moved(g.edges[k].src, a, last), Moved(g.edges[k].dst, a, last), g.edges[k].meta);
    MovedLabel(g, a, g.edges[k].src);
    MovedLabel(g, a, g.edges[k].dst);
    assert EdgeIs(g, k, u, v, meta);
  }

  lemma OtherEdgeStays(g: DiGraph, a: nat, k: nat, u: Uuid, v: Uuid, meta: EdgeMeta)
    requires g.Wf() && a < |g.nodes| && g.RemoveNode(a).Wf() && k < |g.edges|
    requires EdgeIs(g, k, u, v, meta) && u != g.nodes[a] && v != g.nodes[a]
    ensures HasEdge(g.RemoveNode(a), u, v, meta)
  {
    var last, h := |g.nodes| - 1, g.RemoveNode(a);
    RenumberedSpec(g.edges, a, last);
    var e := Edge(Moved(g.edges[k].src, a, last), Moved(g.edges[k].dst, a, last), g.edges[k].meta);
    assert e in h.edges;
    var j :| 0 <= j < |h.edges| && h.edges[j] == e;
    MovedLabel(g, a, g.edges[k].src);
    MovedLabel(g, a, g.edges[k].dst);
    assert EdgeIs(h, j, u, v, meta);
  }

  /** The edges a removal leaves behind keep their metadata. */
  lemma RemoveNodeMeta(g: DiGraph, a: nat, u: Uuid, v: Uuid, meta: EdgeMeta)
    requires g.Wf() && a < |g.nodes| && g.RemoveNode(a).Wf()
    ensures HasEdge(g.RemoveNode(a), u, v, meta) <==> HasEdge(g, u, v, meta) && u != g.nodes[a] && v != g.nodes[a]
  {
    if HasEdge(g.RemoveNode(a), u, v, meta) {
      var j :| 0 <= j < |g.RemoveNode(a).edges| && EdgeIs(g.RemoveNode(a), j, u, v, meta);
      KeptEdgeWasThere(g, a, j, u, v, meta);
    }
    if HasEdge(g, u, v, meta) && u != g.nodes[a] && v != g.nodes[a] {
      var k :| 0 <= k < |g.edges| && EdgeIs(g, k, u, v, meta);
      OtherEdgeStays(g, a, k, u, v, meta);
    }
  }

  /** Removing a node removes its identifier and exactly the pairs that mention it. */
  lemma RemoveNodeRel(g: DiGraph, a: nat)
    requires g.Wf() && g.Simple() && a < |g.nodes|
    ensures g.RemoveNode(a).Wf() && g.RemoveNode(a).Simple()
    ensures g.RemoveNode(a).Ids() == g.Ids() - {g.nodes[a]}
    ensures g.RemoveNode(a).Rel() == set e | e in g.Rel() && e.0 != g.nodes[a] && e.1 != g.nodes[a]
  {
    RenumberedSimple(g.edges, a, |g.nodes| - 1);
    RemoveNodeWf(g, a);
    RemoveNodeIds(g, a);
    RemoveNodePairs(g, a);
  }

  lemma RemoveNodeWf(g: DiGraph, a: nat)
    requires g.Wf() && a < |g.nodes|
    ensures g.RemoveNode(a).Wf()
  {
    var last := |g.nodes| - 1;
    var h := g.RemoveNode(a);
    RenumberedSpec(g.edges, a, last);
    forall k | 0 <= k < |h.edges| ensures h.edges[k].src < |h.nodes| && h.edges[k].dst < |h.nodes| {
      assert h.edges[k] in h.edges;
    }
    assert forall i :: 0 <= i < last ==> h.nodes[i] == if i == a then g.nodes[last] else g.nodes[i];
  }

  lemma RemoveNodeIds(g: DiGraph, a: nat)
    requires g.Wf() && a < |g.nodes|
    ensures g.RemoveNode(a).Ids() == g.Ids() - {g.nodes[a]}
  {
    var last := |g.nodes| - 1;
    var h := g.RemoveNode(a);
    forall x | x in g.Ids() - {g.nodes[a]} ensures x in h.Ids() {
      var i := IndexOf(g, x);
      assert h.nodes[Moved(i, a, last)] == x;
    }
  }

  lemma RemoveNodePairs(g: DiGraph, a: nat)
    requires g.Wf() && a < |g.nodes| && g.RemoveNode(a).Wf()
    ensures g.RemoveNode(a).Rel() == set e | e in g.Rel() && e.0 != g.nodes[a] && e.1 != g.nodes[a]
  {
    forall u, v ensures (u, v) in g.RemoveNode(a).Rel() <==> (u, v) in g.Rel() && u != g.nodes[a] && v != g.nodes[a] {
      RemoveNodePair(g, a, u, v);
    }
  }

  lemma RemoveNodePair(g: DiGraph, a: nat, u: Uuid, v: Uuid)
    requires g.Wf() && a < |g.nodes| && g.RemoveNode(a).Wf()
    ensures (u, v) in g.RemoveNode(a).Rel() <==> (u, v) in g.Rel() && u != g.nodes[a] && v != g.nodes[a]
  {
    if (u, v) in g.RemoveNode(a).Rel() {
      RemovedPairWasThere(g, a, u, v);
    }
    if (u, v) in g.Rel() && u != g.nodes[a] && v != g.nodes[a] {
      KeptPairStays(g, a, u, v);
    }
  }

  lemma MovedLabel(g: DiGraph, a: nat, x: nat)
    requires g.Wf() && a < |g.nodes| && x < |g.nodes| && x != a
    ensures Moved(x, a, |g.nodes| - 1) < |g.RemoveNode(a).nodes|
    ensures g.RemoveNode(a).nodes[Moved(x, a, |g.nodes| - 1)] == g.nodes[x]
    ensures g.nodes[x] != g.nodes[a]
  {
  }

  lemma RemovedPairWasThere(g: DiGraph, a: nat, u: Uuid, v: Uuid)
    requires g.Wf() && a < |g.nodes| && g.RemoveNode(a).Wf()
    requires (u, v) in g.RemoveNode(a).Rel()
    ensures (u, v) in g.Rel() && u != g.nodes[a] && v != g.nodes[a]
  {
    var h := g.RemoveNode(a);
    RenumberedSpec(g.edges, a, |g.nodes| - 1);
    var k :| 0 <= k < |h.edges| && (u, v) == (h.nodes[h.edges[k].src], h.nodes[h.edges[k].dst]);
    var e := h.edges[k];
    assert e in h.edges;
    var j :| 0 <= j < |g.edges| && g.edges[j].src != a && g.edges[j].dst != a
      && e == Edge(Moved(g.edges[j].src, a, |g.nodes| - 1), Moved(g.edges[j].dst, a, |g.nodes| - 1), g.edges[j].meta);
    MovedLabel(g, a, g.edges[j].src);
    MovedLabel(g, a, g.edges[j].dst);
  }

  lemma KeptPairStays(g: DiGraph, a: nat, u: Uuid, v: Uuid)
    requires g.Wf() && a < |g.nodes| && g.RemoveNode(a).Wf()
    requires (u, v) in g.Rel() && u != g.nodes[a] && v != g.nodes[a]
    ensures (u, v) in g.RemoveNode(a).Rel()
  {
    var h := g.RemoveNode(a);
    RenumberedSpec(g.edges, a, |g.nodes| - 1);
    var j :| 0 <= j < |g.edges| && (u, v) == (g.nodes[g.edges[j].src], g.nodes[g.edges[j].dst]);
    MovedLabel(g, a, g.edges[j].src);
    MovedLabel(g, a, g.edges[j].dst);
    var moved := Edge(Moved(g.edges[j].src, a, |g.nodes| - 1), Moved(g.edges[j].dst, a, |g.nodes| - 1),
        g.edges[j].meta);
    assert moved in h.edges;
    var k :| 0 <= k < |h.edges| && h.edges[k] == moved;
    assert (u, v) == (h.nodes[h.edges[k].src], h.nodes[h.edges[k].dst]);
  }
}
