/** What holds in every run of the lifecycle operations from a fresh workspace. */
module LifecycleRuns {
  import opened Wrappers
  import opened Paths
  import opened DirectedGraph
  import opened LineageGraph
  import opened BranchStates
  import opened BranchLifecycle
  import Naming

  datatype Event = Event(op: Op, outcome: Outcome)

  ghost predicate StepAt(c: Config, worlds: seq<World>, events: seq<Event>, i: nat)
    requires i < |events| && |worlds| == |events| + 1
  {
    Step(c, worlds[i], events[i].op, events[i].outcome, worlds[i + 1])
  }

  ghost predicate IsRun(c: Config, worlds: seq<World>, events: seq<Event>) {
    && |worlds| == |events| + 1
    && worlds[0] == World(map[], {}, DiGraph([], []), worlds[0].clock)
    && forall i: nat {:trigger StepAt(c, worlds, events, i)} :: i < |events| ==> StepAt(c, worlds, events, i)
  }

  lemma RunPrefix(c: Config, worlds: seq<World>, events: seq<Event>)
    requires IsRun(c, worlds, events) && events != []
    ensures IsRun(c, worlds[..|events|], events[..|events| - 1])
    ensures Step(c, worlds[|events| - 1], events[|events| - 1].op, events[|events| - 1].outcome, worlds[|events|])
  {
    var n := |events| - 1;
    var ws, es := worlds[..|events|], events[..n];
    forall i: nat | i < |es| ensures StepAt(c, ws, es, i) {
      assert StepAt(c, worlds, events, i);
    }
    assert StepAt(c, worlds, events, n);
  }

  // ── The lineage is the tree of parent links ──

  ghost predicate ParentsKnown(branches: Registry) {
    forall id :: id in branches && branches[id].parent.Some? ==> branches[id].parent.value in branches
  }

  ghost predicate DistinctSlugs(branches: Registry) {
    forall a, b :: a in branches && b in branches && branches[a].slug == branches[b].slug ==> a == b
  }

  ghost predicate IsRoot(branches: Registry, id: Uuid) {
    id in branches && branches[id].parent.None?
  }

  /** Only the trunk has no parent, and there is a trunk as soon as there is a branch. */
  ghost predicate Rooted(c: Config, branches: Registry) {
    && (forall id :: IsRoot(branches, id) ==> branches[id].slug == c.trunkName)
    && (branches != map[] ==> exists id :: IsRoot(branches, id))
  }

  ghost predicate TreeOk(c: Config, w: World) {
    && LineageIs(w.lineage, w.branches.Keys, ParentLinks(w.branches))
    && ParentsKnown(w.branches) && DistinctSlugs(w.branches) && Rooted(c, w.branches)
  }

  /** Same branches, with the same names and parents. */
  ghost predicate SameShape(a: Registry, b: Registry) {
    a.Keys == b.Keys && forall id :: id in a ==>
        b[id].parent == a[id].parent && b[id].slug == a[id].slug && b[id].name == a[id].name
  }

  lemma SameShapeTree(c: Config, w: World, w': World)
    requires TreeOk(c, w) && w'.lineage == w.lineage && SameShape(w.branches, w'.branches)
    ensures TreeOk(c, w')
  {
    assert ParentLinks(w'.branches) == ParentLinks(w.branches);
    forall id ensures IsRoot(w'.branches, id) <==> IsRoot(w.branches, id) { }
    assert w'.branches != map[] ==> w.branches != map[];
  }

  lemma TreeStart(c: Config, clock: int)
    ensures TreeOk(c, World(map[], {}, DiGraph([], []), clock))
  {
    var g := DiGraph([], []);
    assert g.Rel() == {} && g.Ids() == {};
    assert ParentLinks(map[]) == {};
  }

  lemma TrunkKeepsTree(c: Config, w: World, id: Uuid, r: Outcome, w': World)
    requires TreeOk(c, w) && Step(c, w, CreateTrunk(id), r, w')
    ensures TreeOk(c, w')
    ensures r.Ok? <==> w.branches == map[]
  {
    if c.trunkName in Slugs(w.branches) {
      assert SameShape(w.branches, w'.branches);
      SameShapeTree(c, w, w');
      var other :| other in w.branches && w.branches[other].slug == c.trunkName;
    } else {
      NoTrunkYet(c, w.branches);
      var b := Branch(c.trunkName, c.trunkName, None, Active, w.clock);
      assert w'.branches == map[id := b];
      assert ParentLinks(w'.branches) == {} && ParentLinks(w.branches) == {};
      assert IsRoot(w'.branches, id);
    }
  }

  lemma SlugsListed(branches: Registry)
    ensures forall id :: id in branches ==> branches[id].slug in Slugs(branches)
  {
  }

  lemma NoTrunkYet(c: Config, branches: Registry)
    requires Rooted(c, branches) && c.trunkName !in Slugs(branches)
    ensures branches == map[]
  {
    SlugsListed(branches);
  }

  /** In a tree a fork is refused only by its checks, never by the lineage. */
  lemma ForkKeepsTree(c: Config, w: World, parent: Uuid, name: string, id: Uuid, r: Outcome, w': World)
    requires TreeOk(c, w) && Step(c, w, Fork(parent, name, id), r, w')
    ensures TreeOk(c, w')
    ensures match ForkError(c, w, parent, name)
            case Some(e) => r == Err(e) && w' == w
            case None => r == Ok(())
  {
    if ForkError(c, w, parent, name).None? {
      ReachRegistered(w.lineage, id, parent);
      var b := w'.branches[id];
      ForkLinks(w.branches, id, b);
      assert w.branches.Keys + {parent, id} == w'.branches.Keys;
      ForkShape(c, w.branches, id, b);
    }
  }

  lemma ForkLinks(branches: Registry, id: Uuid, b: Branch)
    requires id !in branches && b.parent.Some?
    ensures ParentLinks(branches[id := b]) == ParentLinks(branches) + {(b.parent.value, id)}
  {
    var more := branches[id := b];
    forall x | x in ParentLinks(branches) ensures x in ParentLinks(more) {
      var i :| i in branches && branches[i].parent.Some? && x == (branches[i].parent.value, i);
      assert i in more && more[i] == branches[i];
    }
    assert id in more && more[id] == b;
  }

  lemma ForkShape(c: Config, branches: Registry, id: Uuid, b: Branch)
    requires ParentsKnown(branches) && DistinctSlugs(branches) && Rooted(c, branches)
    requires id !in branches && b.parent.Some? && b.parent.value in branches && b.slug !in Slugs(branches)
    ensures ParentsKnown(branches[id := b]) && DistinctSlugs(branches[id := b]) && Rooted(c, branches[id := b])
  {
    var more := branches[id := b];
    forall x | x in branches ensures branches[x].slug != b.slug {
      assert branches[x].slug in Slugs(branches);
    }
    var root :| IsRoot(branches, root);
    assert IsRoot(more, root);
    forall i | IsRoot(more, i) ensures more[i].slug == c.trunkName {
      assert IsRoot(branches, i);
    }
  }

  lemma ChangeShape(w: World, id: Uuid, change: StatusChange, r: Outcome, w': World)
    requires ChangeStep(w, id, change, r, w')
    ensures SameShape(w.branches, w'.branches) && w'.lineage == w.lineage && w'.directories == w.directories
  {
  }

  /** Every step keeps the lineage equal to the tree of the registry's parent links. */
  lemma StepKeepsTree(c: Config, w: World, op: Op, r: Outcome, w': World)
    requires TreeOk(c, w) && Step(c, w, op, r, w')
    ensures TreeOk(c, w')
  {
    match op
    case CreateTrunk(id) => TrunkKeepsTree(c, w, id, r, w');
    case Fork(parent, name, id) => ForkKeepsTree(c, w, parent, name, id, r, w');
    case Change(id, change) =>
      ChangeShape(w, id, change, r, w');
      SameShapeTree(c, w, w');
    case Collect => SameShapeTree(c, w, w');
    case Tick(_) => SameShapeTree(c, w, w');
  }

  lemma {:induction false} RunKeepsTree(c: Config, worlds: seq<World>, events: seq<Event>)
    requires IsRun(c, worlds, events)
    ensures TreeOk(c, worlds[|events|])
  {
    if events == [] {
      TreeStart(c, worlds[0].clock);
    } else {
      RunPrefix(c, worlds, events);
      var n := |events| - 1;
      RunKeepsTree(c, worlds[..n + 1], events[..n]);
      StepKeepsTree(c, worlds[n], events[n].op, events[n].outcome, worlds[n + 1]);
    }
  }

  /** In no run does a fork close a cycle: it fails exactly by its own checks. */
  lemma ForkNeverCycles(c: Config, worlds: seq<World>, events: seq<Event>)
    requires IsRun(c, worlds, events) && events != [] && events[|events| - 1].op.Fork?
    ensures var e, w := events[|events| - 1], worlds[|events| - 1];
      match ForkError(c, w, e.op.parent, e.op.name)
      case Some(error) => e.outcome == Err(error) && worlds[|events|] == w
      case None => e.outcome == Ok(())
  {
    var n := |events| - 1;
    RunPrefix(c, worlds, events);
    RunKeepsTree(c, worlds[..n + 1], events[..n]);
    var op := events[n].op;
    ForkKeepsTree(c, worlds[n], op.parent, op.name, op.id, events[n].outcome, worlds[n + 1]);
  }

  /** The chain follows the parent links from the trunk down to the branch. */
  ghost predicate IsParentChain(branches: Registry, chain: seq<Uuid>, id: Uuid) {
    && chain != [] && chain[|chain| - 1] == id && IsRoot(branches, chain[0])
    && forall i :: 0 < i < |chain| ==> chain[i] in branches && branches[chain[i]].parent == Some(chain[i - 1])
  }

  lemma ChainIsRootPath(c: Config, w: World, chain: seq<Uuid>, id: Uuid)
    requires TreeOk(c, w) && id in w.branches
    ensures IsParentChain(w.branches, chain, id) <==> RootPath(w.lineage.Rel(), chain, id)
  {
    var e := w.lineage.Rel();
    if IsParentChain(w.branches, chain, id) {
      forall i | 0 <= i < |chain| - 1 ensures (chain[i], chain[i + 1]) in e {
        var j := i + 1;
        assert chain[j] in w.branches && w.branches[chain[j]].parent == Some(chain[j - 1]);
        LinkOf(w.branches, chain[j]);
      }
      LinkOf(w.branches, chain[0]);
      assert !HasParent(e, chain[0]);
    }
    if RootPath(e, chain, id) {
      forall i | 0 < i < |chain| ensures chain[i] in w.branches && w.branches[chain[i]].parent == Some(chain[i - 1]) {
        var j := i - 1;
        assert (chain[j], chain[j + 1]) in e;
      }
      RootHasNoParent(w, chain, id);
    }
  }

  lemma LinkOf(branches: Registry, id: Uuid)
    requires id in branches
    ensures forall p :: (p, id) in ParentLinks(branches) <==> branches[id].parent == Some(p)
    ensures branches[id].parent.Some? <==> HasParent(ParentLinks(branches), id)
  {
    if branches[id].parent.Some? {
      var p := branches[id].parent.value;
      assert (p, id) in ParentLinks(branches);
    }
  }

  lemma RootHasNoParent(w: World, chain: seq<Uuid>, id: Uuid)
    requires LineageIs(w.lineage, w.branches.Keys, ParentLinks(w.branches)) && ParentsKnown(w.branches)
    requires id in w.branches && RootPath(w.lineage.Rel(), chain, id)
    ensures IsRoot(w.branches, chain[0])
  {
    var e := w.lineage.Rel();
    var first := chain[0];
    if |chain| > 1 {
      assert (chain[0], chain[1]) in e;
    }
    assert first in w.branches;
    LinkOf(w.branches, first);
  }

  lemma TreeIsForest(c: Config, w: World)
    requires TreeOk(c, w)
    ensures Forest(w.lineage.Rel())
  {
  }

  /** The lineage of a branch is the one repeat-free parent chain from the trunk to it. */
  lemma LineageIsParentChain(c: Config, w: World, id: Uuid, chain: seq<Uuid>)
    requires TreeOk(c, w) && id in w.branches && RootPath(w.lineage.Rel(), chain, id)
    ensures IsParentChain(w.branches, chain, id) && Distinct(chain)
    ensures w.branches[chain[0]].slug == c.trunkName
    ensures forall other :: IsParentChain(w.branches, other, id) ==> other == chain
  {
    var e := w.lineage.Rel();
    ChainIsRootPath(c, w, chain, id);
    AcyclicPathDistinct(e, chain);
    TreeIsForest(c, w);
    forall other | IsParentChain(w.branches, other, id) ensures other == chain {
      ChainIsRootPath(c, w, other, id);
      ForestRootPathUnique(e, chain, other, id);
    }
  }

  /** Every branch of every run hangs below the trunk. */
  lemma EveryBranchBelowTrunk(c: Config, worlds: seq<World>, events: seq<Event>, id: Uuid) returns (chain: seq<Uuid>)
    requires IsRun(c, worlds, events) && id in worlds[|events|].branches
    ensures TreeOk(c, worlds[|events|])
    ensures IsParentChain(worlds[|events|].branches, chain, id) && Distinct(chain)
    ensures worlds[|events|].branches[chain[0]].slug == c.trunkName
    ensures RootPath(worlds[|events|].lineage.Rel(), chain, id)
  {
    RunKeepsTree(c, worlds, events);
    var w := worlds[|events|];
    RelInIds(w.lineage);
    chain := RootPathAbove(w.lineage.Rel(), w.lineage.Ids(), [id]);
    LineageIsParentChain(c, w, id, chain);
  }

  // ── Status safety ──

  /** What becomes of a branch: it keeps its name and place, a discarded one stays so or is purged, a purged
      one is final. */
  ghost predicate Later(a: Branch, b: Branch) {
    && b.name == a.name && b.slug == a.slug && b.parent == a.parent
    && (a.status.Discarded? ==> b.status == a.status || b.status.Purged?)
    && (a.status.Purged? ==> b == a)
  }

  ghost predicate AllLater(a: Registry, b: Registry) {
    forall id :: id in a ==> id in b && Later(a[id], b[id])
  }

  lemma StepLater(c: Config, w: World, op: Op, r: Outcome, w': World)
    requires Step(c, w, op, r, w')
    ensures AllLater(w.branches, w'.branches)
  {
  }

  /** From any point of a run on: no branch disappears, a discarded branch is never live again, purged is final. */
  lemma {:induction false} DiscardedStaysDead(c: Config, worlds: seq<World>, events: seq<Event>, i: nat)
    requires IsRun(c, worlds, events) && i <= |events|
    ensures AllLater(worlds[i].branches, worlds[|events|].branches)
  {
    if i < |events| {
      RunPrefix(c, worlds, events);
      var n := |events| - 1;
      DiscardedStaysDead(c, worlds[..n + 1], events[..n], i);
      StepLater(c, worlds[n], events[n].op, events[n].outcome, worlds[n + 1]);
    }
  }

  /** A live branch, the trunk as any other, becomes discarded exactly by a discard of it. */
  lemma DiscardsExactly(c: Config, w: World, op: Op, r: Outcome, w': World, id: Uuid)
    requires Step(c, w, op, r, w') && id in w.branches && w.branches[id].status.IsLive()
    ensures id in w'.branches && (w'.branches[id].status.Discarded? <==> op == Change(id, Discard))
  {
  }

  /** Event n discards the branch while it is live. */
  ghost predicate DiscardedAt(worlds: seq<World>, events: seq<Event>, id: Uuid, n: nat)
    requires |worlds| == |events| + 1 && n < |events|
  {
    events[n].op == Change(id, Discard) && id in worlds[n].branches && worlds[n].branches[id].status.IsLive()
  }

  lemma GoneByStep(c: Config, worlds: seq<World>, events: seq<Event>, id: Uuid)
    requires |worlds| == |events| + 1 && events != []
    requires var n := |events| - 1; Step(c, worlds[n], events[n].op, events[n].outcome, worlds[n + 1])
    requires var n := |events| - 1; id in worlds[n].branches && KnownState(worlds[n].branches[id].status)
    ensures id in worlds[|events|].branches
    ensures var n := |events| - 1;
      Gone(worlds[n + 1].branches[id]) <==> Gone(worlds[n].branches[id]) || DiscardedAt(worlds, events, id, n)
  {
  }

  ghost predicate Gone(b: Branch) {
    b.status.Discarded? || b.status.Purged?
  }

  /** In every run a branch is discarded or purged exactly when some event discarded it while it was live. */
  lemma {:induction false} GoneIffDiscarded(c: Config, worlds: seq<World>, events: seq<Event>, id: Uuid)
    requires IsRun(c, worlds, events) && id in worlds[|events|].branches
    ensures Gone(worlds[|events|].branches[id]) <==> exists n: nat :: n < |events| && DiscardedAt(worlds, events, id, n)
  {
    if events != [] {
      RunPrefix(c, worlds, events);
      var last := |events| - 1;
      var ws, es := worlds[..last + 1], events[..last];
      RunKnown(c, ws, es);
      forall n: nat | n < last ensures DiscardedAt(ws, es, id, n) <==> DiscardedAt(worlds, events, id, n) { }
      if id in ws[last].branches {
        GoneIffDiscarded(c, ws, es, id);
        GoneByStep(c, worlds, events, id);
      } else {
        forall n: nat | n < |events| ensures !DiscardedAt(worlds, events, id, n) {
          DiscardedStaysDead(c, ws, es, n);
        }
      }
    }
  }

  // ── The limit on live branches ──

  ghost predicate Restored(op: Op, r: Outcome) {
    op.Change? && op.change.Restore? && r.Ok?
  }

  /** Successful restores among the events. */
  ghost function Restores(events: seq<Event>): nat {
    if events == [] then 0
    else
      var last := events[|events| - 1];
      Restores(events[..|events| - 1]) + if Restored(last.op, last.outcome) then 1 else 0
  }

  lemma LiveChange(branches: Registry, id: Uuid, b: Branch)
    ensures Live(branches[id := b]) == if b.status.IsLive() then Live(branches) + {id} else Live(branches) - {id}
  {
  }

  lemma StepLive(c: Config, w: World, op: Op, r: Outcome, w': World, limit: nat)
    requires TreeOk(c, w) && Step(c, w, op, r, w') && 1 <= c.maxBranches <= limit && |Live(w.branches)| <= limit
    ensures |Live(w'.branches)| <= limit + if Restored(op, r) then 1 else 0
  {
    match op
    case CreateTrunk(id) => TrunkLive(c, w, id, r, w');
    case Fork(parent, name, id) => ForkLive(c, w, parent, name, id, r, w');
    case Change(id, change) => ChangeLive(w, id, change, r, w');
    case Collect => CollectLive(c, w, r, w');
    case Tick(_) =>
  }

  lemma TrunkLive(c: Config, w: World, id: Uuid, r: Outcome, w': World)
    requires TreeOk(c, w) && Step(c, w, CreateTrunk(id), r, w')
    ensures |Live(w'.branches)| <= if w.branches == map[] then 1 else |Live(w.branches)|
  {
    TrunkKeepsTree(c, w, id, r, w');
    if r.Ok? {
      SubsetSize(Live(w'.branches), {id});
    }
  }

  lemma ForkLive(c: Config, w: World, parent: Uuid, name: string, id: Uuid, r: Outcome, w': World)
    requires Step(c, w, Fork(parent, name, id), r, w')
    ensures |Live(w'.branches)| <= if |Live(w.branches)| < c.maxBranches then c.maxBranches else |Live(w.branches)|
  {
    if ForkError(c, w, parent, name).None? {
      LiveChange(w.branches, id, w'.branches[id]);
    }
  }

  lemma ChangeLive(w: World, id: Uuid, change: StatusChange, r: Outcome, w': World)
    requires ChangeStep(w, id, change, r, w')
    ensures |Live(w'.branches)| <= |Live(w.branches)| + if change.Restore? && r.Ok? then 1 else 0
  {
    if w' != w {
      LiveChange(w.branches, id, w'.branches[id]);
      if w'.branches[id].status.IsLive() && !change.Restore? {
        assert id in Live(w.branches);
        assert Live(w.branches) + {id} == Live(w.branches);
      } else if !w'.branches[id].status.IsLive() {
        SubsetSize(Live(w'.branches), Live(w.branches));
      }
    }
  }

  lemma CollectLive(c: Config, w: World, r: Outcome, w': World)
    requires CollectStep(c, w, r, w')
    ensures Live(w'.branches) == Live(w.branches)
  {
    assert w'.branches.Keys == w.branches.Keys;
    assert forall id :: id in w.branches ==> (w'.branches[id].status.IsLive() <==> w.branches[id].status.IsLive());
  }

  /** The live count exceeds the maximum by at most one for each restored branch; without restores it never does. */
  lemma {:induction false} LiveBound(c: Config, worlds: seq<World>, events: seq<Event>)
    requires IsRun(c, worlds, events) && c.maxBranches >= 1
    ensures |Live(worlds[|events|].branches)| <= c.maxBranches + Restores(events)
  {
    if events == [] {
      assert Live(worlds[0].branches) == {};
    } else {
      RunPrefix(c, worlds, events);
      var n := |events| - 1;
      LiveBound(c, worlds[..n + 1], events[..n]);
      RunKeepsTree(c, worlds[..n + 1], events[..n]);
      StepLive(c, worlds[n], events[n].op, events[n].outcome, worlds[n + 1], c.maxBranches + Restores(events[..n]));
    }
  }

  /** Restoring does not look at the limit. */
  lemma RestoreIgnoresLimit(w: World, id: Uuid) returns (w': World)
    requires id in w.branches && w.branches[id].status == Archived
    ensures ChangeStep(w, id, Restore(true), Ok(()), w')
    ensures |Live(w'.branches)| == |Live(w.branches)| + 1
  {
    w' := w.(branches := w.branches[id := w.branches[id].(status := Active, updatedAt := w.clock)]);
    LiveChange(w.branches, id, w'.branches[id]);
    assert id !in Live(w.branches);
  }

  /** A successful restore while the limit is already reached. */
  ghost predicate RestoresAtLimit(c: Config, worlds: seq<World>, events: seq<Event>, n: nat)
    requires n < |events| && |worlds| == |events| + 1
  {
    Restored(events[n].op, events[n].outcome) && |Live(worlds[n].branches)| >= c.maxBranches
  }

  lemma RestoreLive(w: World, id: Uuid, change: StatusChange, w': World)
    requires ChangeStep(w, id, change, Ok(()), w') && change.Restore?
    ensures |Live(w'.branches)| == |Live(w.branches)| + 1
  {
    LiveChange(w.branches, id, w'.branches[id]);
    assert id !in Live(w.branches);
  }

  /** One step from within the limit leaves it exactly by a restore at the limit. */
  lemma StepWithinLimit(c: Config, worlds: seq<World>, events: seq<Event>, n: nat)
    requires n < |events| && |worlds| == |events| + 1 && TreeOk(c, worlds[n]) && c.maxBranches >= 1
    requires StepAt(c, worlds, events, n) && |Live(worlds[n].branches)| <= c.maxBranches
    ensures |Live(worlds[n + 1].branches)| <= c.maxBranches <==> !RestoresAtLimit(c, worlds, events, n)
  {
    var w, e, w' := worlds[n], events[n], worlds[n + 1];
    if Restored(e.op, e.outcome) {
      RestoreLive(w, e.op.id, e.op.change, w');
    } else {
      StepLive(c, w, e.op, e.outcome, w', c.maxBranches);
    }
  }

  /** All worlds of a run keep the limit exactly when no restore succeeds with the limit reached. */
  lemma {:induction false} LimitKeptIff(c: Config, worlds: seq<World>, events: seq<Event>)
    requires IsRun(c, worlds, events) && c.maxBranches >= 1
    ensures (forall n :: 0 <= n <= |events| ==> |Live(worlds[n].branches)| <= c.maxBranches)
       <==> forall n: nat :: n < |events| ==> !RestoresAtLimit(c, worlds, events, n)
  {
    if events == [] {
      assert Live(worlds[0].branches) == {};
    } else {
      RunPrefix(c, worlds, events);
      var last := |events| - 1;
      var ws, es := worlds[..last + 1], events[..last];
      LimitKeptIff(c, ws, es);
      RunKeepsTree(c, ws, es);
      assert StepAt(c, worlds, events, last);
      forall n: nat | n < last ensures RestoresAtLimit(c, ws, es, n) <==> RestoresAtLimit(c, worlds, events, n) { }
      forall n | 0 <= n <= last ensures ws[n] == worlds[n] { }
      if |Live(worlds[last].branches)| <= c.maxBranches {
        StepWithinLimit(c, worlds, events, last);
      }
    }
  }

  // ── Snapshot directories ──

  ghost function Unpurged(branches: Registry): set<Uuid> {
    set id | id in branches && !branches[id].status.Purged?
  }

  ghost predicate HasTrunk(events: seq<Event>) {
    exists i: nat :: i < |events| && events[i].op.CreateTrunk?
  }

  ghost predicate AtMostOneTrunk(events: seq<Event>) {
    forall i, j :: 0 <= i < j < |events| ==> !(events[i].op.CreateTrunk? && events[j].op.CreateTrunk?)
  }

  /** The identifiers of all trunk creations but the first. */
  ghost function Strays(events: seq<Event>): set<Uuid> {
    if events == [] then {}
    else
      var n := |events| - 1;
      Strays(events[..n]) + if events[n].op.CreateTrunk? && HasTrunk(events[..n]) then {events[n].op.id} else {}
  }

  lemma {:induction false} NoStrays(events: seq<Event>)
    ensures Strays(events) == {} <==> AtMostOneTrunk(events)
  {
    if events != [] {
      var n := |events| - 1;
      NoStrays(events[..n]);
      assert forall i :: 0 <= i < n ==> events[..n][i] == events[i];
    }
  }

  /** There are branches exactly if a trunk was ever asked for. */
  lemma {:induction false} BranchesNeedTrunk(c: Config, worlds: seq<World>, events: seq<Event>)
    requires IsRun(c, worlds, events)
    ensures worlds[|events|].branches == map[] <==> !HasTrunk(events)
  {
    if events != [] {
      RunPrefix(c, worlds, events);
      var n := |events| - 1;
      var e := events[n];
      BranchesNeedTrunk(c, worlds[..n + 1], events[..n]);
      StepLater(c, worlds[n], e.op, e.outcome, worlds[n + 1]);
      if e.op.CreateTrunk? {
        RunKeepsTree(c, worlds[..n + 1], events[..n]);
        TrunkKeepsTree(c, worlds[n], e.op.id, e.outcome, worlds[n + 1]);
      }
      assert forall i :: 0 <= i < n ==> events[..n][i] == events[i];
    }
  }

  ghost predicate DirectoriesOk(w: World, strays: set<Uuid>) {
    w.directories == Unpurged(w.branches) + strays && strays !! w.branches.Keys
  }

  lemma UnpurgedPut(branches: Registry, id: Uuid, b: Branch)
    requires !b.status.Purged?
    ensures Unpurged(branches[id := b]) == Unpurged(branches) + {id}
  {
  }

  lemma StepDirectories(c: Config, w: World, op: Op, r: Outcome, w': World, strays: set<Uuid>)
    requires Step(c, w, op, r, w') && DirectoriesOk(w, strays)
    ensures DirectoriesOk(w', strays + if op.CreateTrunk? && r.Err? then {op.id} else {})
  {
    match op
    case CreateTrunk(id) => TrunkDirectories(c, w, id, r, w', strays);
    case Fork(parent, name, id) => ForkDirectories(c, w, parent, name, id, r, w', strays);
    case Change(id, change) => ChangeDirectories(w, id, change, r, w');
    case Collect => CollectDirectories(c, w, r, w', strays);
    case Tick(_) =>
  }

  lemma TrunkDirectories(c: Config, w: World, id: Uuid, r: Outcome, w': World, strays: set<Uuid>)
    requires Step(c, w, CreateTrunk(id), r, w') && DirectoriesOk(w, strays)
    ensures DirectoriesOk(w', strays + if r.Err? then {id} else {})
  {
    if r.Ok? {
      UnpurgedPut(w.branches, id, w'.branches[id]);
    }
  }

  lemma ForkDirectories(c: Config, w: World, parent: Uuid, name: string, id: Uuid, r: Outcome, w': World,
                        strays: set<Uuid>)
    requires Step(c, w, Fork(parent, name, id), r, w') && DirectoriesOk(w, strays)
    ensures DirectoriesOk(w', strays)
  {
    if ForkError(c, w, parent, name).None? {
      UnpurgedPut(w.branches, id, w'.branches[id]);
      assert w'.branches.Keys == w.branches.Keys + {id};
    }
  }

  lemma ChangeDirectories(w: World, id: Uuid, change: StatusChange, r: Outcome, w': World)
    requires ChangeStep(w, id, change, r, w')
    ensures Unpurged(w'.branches) == Unpurged(w.branches) && w'.branches.Keys == w.branches.Keys
  {
    if w' != w {
      UnpurgedPut(w.branches, id, w'.branches[id]);
      assert id in Unpurged(w.branches);
    }
  }

  lemma CollectDirectories(c: Config, w: World, r: Outcome, w': World, strays: set<Uuid>)
    requires CollectStep(c, w, r, w') && DirectoriesOk(w, strays)
    ensures DirectoriesOk(w', strays)
  {
    var expired := ExpiredIds(w.branches, w.clock - c.gcThreshold);
    assert w'.branches.Keys == w.branches.Keys;
    assert forall id :: id in w.branches ==>
        (w'.branches[id].status.Purged? <==> w.branches[id].status.Purged? || id in expired);
    assert Unpurged(w'.branches) == Unpurged(w.branches) - expired;
  }

  /** A snapshot directory exists exactly for the branches not purged and for every trunk asked for after the first. */
  lemma {:induction false} DirectoriesMatch(c: Config, worlds: seq<World>, events: seq<Event>)
    requires IsRun(c, worlds, events)
    ensures DirectoriesOk(worlds[|events|], Strays(events))
  {
    if events != [] {
      RunPrefix(c, worlds, events);
      var n := |events| - 1;
      DirectoriesMatch(c, worlds[..n + 1], events[..n]);
      StepDirectories(c, worlds[n], events[n].op, events[n].outcome, worlds[n + 1], Strays(events[..n]));
      if events[n].op.CreateTrunk? {
        TrunkOnlyOnce(c, worlds, events);
      }
    }
  }

  /** The orphaned directories are those of every trunk asked for after the first: there are none exactly if a trunk
      is asked for once at most. */
  lemma OrphansAreStrays(c: Config, worlds: seq<World>, events: seq<Event>)
    requires IsRun(c, worlds, events)
    ensures worlds[|events|].directories - worlds[|events|].branches.Keys == Strays(events)
    ensures worlds[|events|].directories <= worlds[|events|].branches.Keys <==> AtMostOneTrunk(events)
  {
    NoStrays(events);
    DirectoriesMatch(c, worlds, events);
    var w := worlds[|events|];
    assert Unpurged(w.branches) <= w.branches.Keys;
  }

  /** A trunk is accepted exactly when there is no branch yet, which is when none was asked for before. */
  lemma TrunkOnlyOnce(c: Config, worlds: seq<World>, events: seq<Event>)
    requires IsRun(c, worlds, events) && events != [] && events[|events| - 1].op.CreateTrunk?
    ensures events[|events| - 1].outcome.Ok? <==> worlds[|events| - 1].branches == map[]
    ensures events[|events| - 1].outcome.Ok? <==> !HasTrunk(events[..|events| - 1])
  {
    RunPrefix(c, worlds, events);
    var n := |events| - 1;
    RunKeepsTree(c, worlds[..n + 1], events[..n]);
    TrunkKeepsTree(c, worlds[n], events[n].op.id, events[n].outcome, worlds[n + 1]);
    BranchesNeedTrunk(c, worlds[..n + 1], events[..n]);
  }

  /** Collecting again before the clock moves purges nothing. */
  lemma CollectTwice(c: Config, w: World, once: World, twice: World, r: Outcome, r': Outcome)
    requires CollectStep(c, w, r, once) && CollectStep(c, once, r', twice)
    ensures twice == once
  {
    var cutoff := w.clock - c.gcThreshold;
    forall id | id in once.branches ensures !Expired(once.branches[id], cutoff) { }
    assert ExpiredIds(once.branches, cutoff) == {};
    assert AfterPurge(once.branches, {}, once.clock) == once.branches;
  }

  // ── Only five states occur ──

  ghost predicate KnownState(status: BranchStatus) {
    !status.Orphan? && !status.MergedInto?
  }

  lemma StepKnown(c: Config, w: World, op: Op, r: Outcome, w': World)
    requires Step(c, w, op, r, w') && forall id :: id in w.branches ==> KnownState(w.branches[id].status)
    ensures forall id :: id in w'.branches ==> KnownState(w'.branches[id].status)
  {
  }

  /** No operation makes a branch merged or orphaned, so collection purges exactly the long discarded. */
  lemma {:induction false} RunKnown(c: Config, worlds: seq<World>, events: seq<Event>)
    requires IsRun(c, worlds, events)
    ensures forall id :: id in worlds[|events|].branches ==> KnownState(worlds[|events|].branches[id].status)
  {
    if events != [] {
      RunPrefix(c, worlds, events);
      var n := |events| - 1;
      RunKnown(c, worlds[..n + 1], events[..n]);
      StepKnown(c, worlds[n], events[n].op, events[n].outcome, worlds[n + 1]);
    }
  }

  /** Before event n the branch was discarded longer ago than the threshold, and event n collects. */
  ghost predicate CollectedAt(c: Config, worlds: seq<World>, events: seq<Event>, id: Uuid, n: nat)
    requires |worlds| == |events| + 1 && n < |events|
  {
    && events[n].op.Collect? && id in worlds[n].branches
    && worlds[n].branches[id].status.Discarded?
    && worlds[n].branches[id].status.discardedAt < worlds[n].clock - c.gcThreshold
  }

  /** A branch is purged exactly when some collection found it discarded for longer than the threshold. */
  lemma {:induction false} PurgedIffCollected(c: Config, worlds: seq<World>, events: seq<Event>, id: Uuid)
    requires IsRun(c, worlds, events) && id in worlds[|events|].branches
    ensures worlds[|events|].branches[id].status.Purged? <==>
        exists n: nat :: n < |events| && CollectedAt(c, worlds, events, id, n)
  {
    if events != [] {
      RunPrefix(c, worlds, events);
      var last := |events| - 1;
      var ws, es := worlds[..last + 1], events[..last];
      RunKnown(c, ws, es);
      forall n: nat | n < last ensures CollectedAt(c, ws, es, id, n) <==> CollectedAt(c, worlds, events, id, n) { }
      if id in ws[last].branches {
        PurgedIffCollected(c, ws, es, id);
        PurgedByStep(c, worlds, events, id);
      } else {
        forall n: nat | n < |events| ensures !CollectedAt(c, worlds, events, id, n) {
          DiscardedStaysDead(c, ws, es, n);
        }
      }
    }
  }

  lemma PurgedByStep(c: Config, worlds: seq<World>, events: seq<Event>, id: Uuid)
    requires |worlds| == |events| + 1 && events != []
    requires var n := |events| - 1; Step(c, worlds[n], events[n].op, events[n].outcome, worlds[n + 1])
    requires var n := |events| - 1; id in worlds[n].branches && KnownState(worlds[n].branches[id].status)
    ensures id in worlds[|events|].branches
    ensures var n := |events| - 1;
      worlds[n + 1].branches[id].status.Purged? <==>
          worlds[n].branches[id].status.Purged? || CollectedAt(c, worlds, events, id, n)
  {
  }

  /** In every run the lineage is a forest, so the two merge-base searches agree on it. */
  lemma RunsAreForests(c: Config, worlds: seq<World>, events: seq<Event>)
    requires IsRun(c, worlds, events)
    ensures GraphOk(worlds[|events|].lineage) && Forest(worlds[|events|].lineage.Rel())
  {
    RunKeepsTree(c, worlds, events);
    TreeIsForest(c, worlds[|events|]);
  }
}
