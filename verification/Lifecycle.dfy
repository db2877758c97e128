/** The branch registry, the snapshot directories and the lineage, as one machine. */
module BranchLifecycle {
  import opened Wrappers
  import opened Paths
  import opened DirectedGraph
  import opened LineageGraph
  import opened BranchStates
  import Naming

  datatype Branch = Branch(name: string, slug: string, parent: Option<Uuid>, status: BranchStatus, updatedAt: int)

  type Registry = map<Uuid, Branch>

  /** lower and isSpace stand for the Unicode tables slug generation uses. */
  datatype Config = Config(trunkName: string, maxBranches: nat, gcThreshold: nat, lower: char -> string,
                           isSpace: char -> bool)

  datatype LifecycleError =
    | NamingError
    | BranchNotFound(id: Uuid)
    | BranchNotActive(id: Uuid)
    | BranchLimitExceeded
    | BranchAlreadyExists(name: string)
    | SnapshotInvalid(id: Uuid)
    | Dag(error: DagError)

  type Outcome = Result<(), LifecycleError>

  datatype World = World(branches: Registry, directories: set<Uuid>, lineage: DiGraph, clock: int)

  datatype StatusChange = Activate | Deactivate | Discard | Archive | Restore(snapshotOk: bool)

  datatype Op =
    | CreateTrunk(id: Uuid)
    | Fork(parent: Uuid, name: string, id: Uuid)
    | Change(id: Uuid, change: StatusChange)
    | Collect
    | Tick(now: int)

  // ── What the steps do ──

  ghost function Slugs(branches: Registry): set<string> {
    set id | id in branches :: branches[id].slug
  }

  ghost function Live(branches: Registry): set<Uuid> {
    set id | id in branches && branches[id].status.IsLive()
  }

  /** The parent → child links of the registry. */
  ghost function ParentLinks(branches: Registry): set<(Uuid, Uuid)> {
    set id | id in branches && branches[id].parent.Some? :: (branches[id].parent.value, id)
  }

  /** The lineage is sound and has these nodes and edges. */
  ghost predicate LineageIs(g: DiGraph, ids: set<Uuid>, rel: set<(Uuid, Uuid)>) {
    GraphOk(g) && g.Ids() == ids && g.Rel() == rel
  }

  /** The lineage got this edge behind the others. */
  ghost predicate OneMoreEdge(g: DiGraph, h: DiGraph, u: Uuid, v: Uuid, meta: EdgeMeta) {
    && h.Wf() && g.nodes <= h.nodes && |h.edges| == |g.edges| + 1 && h.edges[..|g.edges|] == g.edges
    && EdgeIs(h, |g.edges|, u, v, meta)
  }

  /** The snapshot is copied before the registry row is inserted, so a refused row leaves its directory behind. */
  ghost predicate TrunkStep(c: Config, w: World, id: Uuid, r: Outcome, w': World) {
    && GraphOk(w.lineage) && w'.clock == w.clock && w'.directories == w.directories + {id}
    && if c.trunkName in Slugs(w.branches) then
         r == Err(BranchAlreadyExists(c.trunkName)) && w'.branches == w.branches && w'.lineage == w.lineage
       else
         && r == Ok(()) && w'.branches == w.branches[id := Branch(c.trunkName, c.trunkName, None, Active, w.clock)]
         && LineageIs(w'.lineage, w.lineage.Ids() + {id}, w.lineage.Rel()) && w'.lineage.edges == w.lineage.edges
         && w.lineage.nodes <= w'.lineage.nodes
  }

  ghost function ForkError(c: Config, w: World, parent: Uuid, name: string): Option<LifecycleError> {
    if !Naming.Validate(name) then Some(NamingError)
    else if parent !in w.branches then Some(BranchNotFound(parent))
    else if !w.branches[parent].status.IsLive() then Some(BranchNotActive(parent))
    else if |Live(w.branches)| >= c.maxBranches then Some(BranchLimitExceeded)
    else None
  }

  ghost predicate ForkStep(c: Config, w: World, parent: Uuid, name: string, id: Uuid, r: Outcome, w': World) {
    && GraphOk(w.lineage)
    && match ForkError(c, w, parent, name)
       case Some(e) => r == Err(e) && w' == w
       case None =>
         && w'.clock == w.clock && w'.directories == w.directories + {id}
         && id in w'.branches && w'.branches == w.branches[id := w'.branches[id]]
         && w'.branches[id] == Branch(name, w'.branches[id].slug, Some(parent), Active, w.clock)
         && Naming.IsUniqueSlug(Naming.SlugOf(Naming.Lowered(name, c.lower), c.isSpace), Slugs(w.branches),
             w'.branches[id].slug)
         && if parent == id || Reach(w.lineage.Rel(), id, parent) then
              r == Err(Dag(DagCycle(parent, id))) && LineageIs(w'.lineage, w.lineage.Ids() + {parent}, w.lineage.Rel())
            else
              && r == Ok(()) && LineageIs(w'.lineage, w.lineage.Ids() + {parent, id}, w.lineage.Rel() + {(parent, id)})
              && ((parent, id) !in w.lineage.Rel() ==>
                   OneMoreEdge(w.lineage, w'.lineage, parent, id, EdgeMeta(w.clock, None)))
  }

  /** The state a status change leads to, from the states that allow it. */
  function NextStatus(change: StatusChange, status: BranchStatus, now: int): Option<BranchStatus> {
    match change
    case Activate => if status.IsLive() then Some(Active) else None
    case Deactivate => if status.Active? then Some(Dormant) else None
    case Discard => if status.IsLive() then Some(Discarded(now)) else None
    case Archive => if status.IsLive() then Some(Archived) else None
    case Restore(_) => if status.Archived? then Some(Active) else None
  }

  ghost predicate ChangeStep(w: World, id: Uuid, change: StatusChange, r: Outcome, w': World) {
    if id !in w.branches then r == Err(BranchNotFound(id)) && w' == w
    else
      var b := w.branches[id];
      match NextStatus(change, b.status, w.clock)
      case None => r == Err(BranchNotActive(id)) && w' == w
      case Some(status) =>
        if change == Restore(false) then r == Err(SnapshotInvalid(id)) && w' == w
        else
          && r == Ok(())
          && w' == if status == b.status then w
                   else w.(branches := w.branches[id := b.(status := status, updatedAt := w.clock)])
  }

  function Expired(b: Branch, cutoff: int): bool {
    match b.status
    case Discarded(at) => at < cutoff
    case Orphan => b.updatedAt < cutoff
    case _ => false
  }

  ghost function ExpiredIds(branches: Registry, cutoff: int): set<Uuid> {
    set id | id in branches && Expired(branches[id], cutoff)
  }

  function Purge(b: Branch, now: int): Branch {
    b.(status := Purged, updatedAt := now)
  }

  ghost function AfterPurge(branches: Registry, expired: set<Uuid>, now: int): Registry {
    map id | id in branches :: if id in expired then Purge(branches[id], now) else branches[id]
  }

  ghost predicate CollectStep(c: Config, w: World, r: Outcome, w': World) {
    var expired := ExpiredIds(w.branches, w.clock - c.gcThreshold);
    r == Ok(()) &&
        w' == w.(branches := AfterPurge(w.branches, expired, w.clock), directories := w.directories - expired)
  }

  /** New identifiers are fresh. */
  ghost predicate Fresh(w: World, op: Op) {
    (op.CreateTrunk? || op.Fork?) ==> op.id !in w.branches && op.id !in w.directories && op.id !in w.lineage.Ids()
  }

  ghost predicate Step(c: Config, w: World, op: Op, r: Outcome, w': World) {
    && Fresh(w, op)
    && match op
       case CreateTrunk(id) => TrunkStep(c, w, id, r, w')
       case Fork(parent, name, id) => ForkStep(c, w, parent, name, id, r, w')
       case Change(id, change) => ChangeStep(w, id, change, r, w')
       case Collect => CollectStep(c, w, r, w')
       case Tick(now) => r == Ok(()) && w' == w.(clock := now)
  }

  /** Reversing and appending keep the elements. */
  lemma ChainMembers(up: seq<Uuid>, id: Uuid)
    requires Distinct(up) && id !in up
    ensures Distinct(Reversed(up) + [id])
    ensures forall x :: x in Reversed(up) + [id] <==> x in up || x == id
  {
    var chain := Reversed(up) + [id];
    forall x | x in up ensures x in chain {
      var i :| 0 <= i < |up| && up[i] == x;
      assert chain[|up| - 1 - i] == x;
    }
    forall i, j | 0 <= i < j < |chain| ensures chain[i] != chain[j] {
      assert chain[i] == up[|up| - 1 - i];
    }
  }

  // ── The engine ──

  class Workspace {
    const config: Config
    const dag: DagGraph
    var branches: Registry
    var directories: set<Uuid>
    var clock: int

    ghost function Now(): World
      reads this, dag
    {
      World(branches, directories, dag.graph, clock)
    }

    constructor (config: Config, clock: int)
      ensures this.config == config && fresh(dag) && dag.Valid()
      ensures Now() == World(map[], {}, DiGraph([], []), clock)
    {
      this.config, this.clock := config, clock;
      branches, directories := map[], {};
      dag := new DagGraph();
    }

    /** Inserts a registry row unless its slug is taken. */
    method InsertBranch(id: Uuid, b: Branch) returns (ok: bool)
      modifies `branches
      ensures ok <==> b.slug !in Slugs(old(branches))
      ensures branches == if ok then old(branches)[id := b] else old(branches)
    {
      var taken := SlugList();
      ok := b.slug !in taken;
      if ok {
        branches := branches[id := b];
      }
    }

    /** The slugs of all branches. */
    method SlugList() returns (slugs: seq<string>)
      ensures Naming.Members(slugs) == Slugs(branches)
    {
      slugs := [];
      var rest := branches.Keys;
      while rest != {}
        invariant rest <= branches.Keys
        invariant forall s :: s in slugs <==> exists id :: id in branches.Keys - rest && branches[id].slug == s
        decreases rest
      {
        ghost var _ := SomeMember(rest);
        var id :| id in rest;
        ghost var before := slugs;
        slugs := slugs + [branches[id].slug];
        forall s ensures s in slugs <==> exists i :: i in branches.Keys - (rest - {id}) && branches[i].slug == s {
          if s in before {
            var i :| i in branches.Keys - rest && branches[i].slug == s;
            assert i in branches.Keys - (rest - {id});
          }
        }
        rest := rest - {id};
      }
    }

    /** A slug for the name that no branch has, so a duplicate-slug check after it never fails. */
    method UniqueSlug(name: string) returns (slug: string)
      ensures Naming.IsUniqueSlug(Naming.SlugOf(Naming.Lowered(name, config.lower), config.isSpace), Slugs(branches),
          slug)
    {
      var taken := SlugList();
      var base := Naming.Slugify(name, config.lower, config.isSpace);
      slug := Naming.MakeUnique(base, taken);
    }

    /** How many branches are active or dormant. */
    method CountActive() returns (n: nat)
      ensures n == |Live(branches)|
    {
      var live := set id | id in branches && branches[id].status.IsLive();
      n := |live|;
    }

    method CreateTrunk(id: Uuid) returns (r: Outcome)
      requires dag.Valid() && Fresh(Now(), Op.CreateTrunk(id))
      modifies `branches, `directories, dag
      ensures dag.Valid() && Step(config, old(Now()), Op.CreateTrunk(id), r, Now())
    {
      directories := directories + {id};
      var inserted := InsertBranch(id, Branch(config.trunkName, config.trunkName, None, Active, clock));
      if !inserted {
        return Err(BranchAlreadyExists(config.trunkName));
      }
      var _ := dag.AddNode(id);
      return Ok(());
    }

    method Fork(parentId: Uuid, name: string, id: Uuid) returns (r: Outcome)
      requires dag.Valid() && Fresh(Now(), Op.Fork(parentId, name, id))
      modifies `branches, `directories, dag
      ensures dag.Valid() && Step(config, old(Now()), Op.Fork(parentId, name, id), r, Now())
    {
      if !Naming.Validate(name) {
        return Err(NamingError);
      }
      if parentId !in branches {
        return Err(BranchNotFound(parentId));
      }
      if !branches[parentId].status.IsLive() {
        return Err(BranchNotActive(parentId));
      }
      var live := CountActive();
      if live >= config.maxBranches {
        return Err(BranchLimitExceeded);
      }
      var slug := UniqueSlug(name);
      directories := directories + {id};
      var inserted := InsertBranch(id, Branch(name, slug, Some(parentId), Active, clock));
      assert inserted;
      r := Link(parentId, id);
    }

    /** Records parent → child in the lineage. */
    method Link(parentId: Uuid, id: Uuid) returns (r: Outcome)
      requires dag.Valid()
      modifies dag
      ensures dag.Valid()
      ensures if parentId == id || Reach(old(dag.graph.Rel()), id, parentId) then
                && r == Err(Dag(DagCycle(parentId, id)))
                && LineageIs(dag.graph, old(dag.graph.Ids()) + {parentId}, old(dag.graph.Rel()))
              else
                && r == Ok(())
                && LineageIs(dag.graph, old(dag.graph.Ids()) + {parentId, id}, old(dag.graph.Rel()) + {(parentId, id)})
                && ((parentId, id) !in old(dag.graph.Rel()) ==>
                     OneMoreEdge(old(dag.graph), dag.graph, parentId, id, EdgeMeta(clock, None)))
    {
      var _ := dag.AddNode(parentId);
      var linked := dag.AddEdgeMeta(parentId, id, EdgeMeta(clock, None));
      if linked.Err? {
        return Err(Dag(linked.error));
      }
      return Ok(());
    }

    method UpdateStatus(id: Uuid, status: BranchStatus)
      requires id in branches
      modifies `branches
      ensures branches == old(branches)[id := old(branches)[id].(status := status, updatedAt := clock)]
    {
      branches := branches[id := branches[id].(status := status, updatedAt := clock)];
    }

    method Activate(id: Uuid) returns (r: Outcome)
      modifies `branches
      ensures Step(config, old(Now()), Change(id, StatusChange.Activate), r, Now())
    {
      if id !in branches {
        return Err(BranchNotFound(id));
      }
      match branches[id].status {
        case Dormant =>
          UpdateStatus(id, Active);
          return Ok(());
        case Active =>
          return Ok(());
        case _ =>
          return Err(BranchNotActive(id));
      }
    }

    method Deactivate(id: Uuid) returns (r: Outcome)
      modifies `branches
      ensures Step(config, old(Now()), Change(id, StatusChange.Deactivate), r, Now())
    {
      if id !in branches {
        return Err(BranchNotFound(id));
      }
      match branches[id].status {
        case Active =>
          UpdateStatus(id, Dormant);
          return Ok(());
        case _ =>
          return Err(BranchNotActive(id));
      }
    }

    method Discard(id: Uuid) returns (r: Outcome)
      modifies `branches
      ensures Step(config, old(Now()), Change(id, StatusChange.Discard), r, Now())
    {
      if id !in branches {
        return Err(BranchNotFound(id));
      }
      if !branches[id].status.IsLive() {
        return Err(BranchNotActive(id));
      }
      UpdateStatus(id, Discarded(clock));
      return Ok(());
    }

    method Archive(id: Uuid) returns (r: Outcome)
      modifies `branches
      ensures Step(config, old(Now()), Change(id, StatusChange.Archive), r, Now())
    {
      if id !in branches {
        return Err(BranchNotFound(id));
      }
      if !branches[id].status.IsLive() {
        return Err(BranchNotActive(id));
      }
      UpdateStatus(id, Archived);
      return Ok(());
    }

    /** snapshotOk is the verdict of the snapshot verification. */
    method RestoreArchived(id: Uuid, snapshotOk: bool) returns (r: Outcome)
      modifies `branches
      ensures Step(config, old(Now()), Change(id, Restore(snapshotOk)), r, Now())
    {
      if id !in branches {
        return Err(BranchNotFound(id));
      }
      match branches[id].status {
        case Archived =>
          if !snapshotOk {
            return Err(SnapshotInvalid(id));
          }
          UpdateStatus(id, Active);
          return Ok(());
        case _ =>
          return Err(BranchNotActive(id));
      }
    }

    /** Purges every expired branch, one after the other, and reports how many. */
    method CollectGarbage() returns (purged: nat)
      modifies `branches, `directories
      ensures Step(config, old(Now()), Collect, Ok(()), Now())
      ensures purged == |ExpiredIds(old(branches), clock - config.gcThreshold)|
    {
      var listed := branches;
      var cutoff := clock - config.gcThreshold;
      purged := 0;
      ghost var gone: set<Uuid> := {};
      var rest := listed.Keys;
      while rest != {}
        invariant rest <= listed.Keys
        invariant gone == set id | id in ExpiredIds(listed, cutoff) && id !in rest
        invariant branches == AfterPurge(listed, gone, clock) && directories == old(directories) - gone
        invariant purged == |gone|
        decreases rest
      {
        ghost var _ := SomeMember(rest);
        var id :| id in rest;
        if Expired(listed[id], cutoff) {
          directories := directories - {id};
          UpdateStatus(id, Purged);
          gone := gone + {id};
          purged := purged + 1;
        }
        rest := rest - {id};
      }
      assert gone == ExpiredIds(listed, cutoff);
    }

    /** The snapshot directories no registered branch owns. */
    method CollectOrphans() returns (orphans: seq<Uuid>)
      ensures Distinct(orphans) && forall id :: id in orphans <==> id in directories - branches.Keys
    {
      orphans := [];
      var rest := directories;
      while rest != {}
        invariant rest <= directories
        invariant Distinct(orphans) && forall id :: id in orphans <==> id in directories - branches.Keys - rest
        decreases rest
      {
        ghost var _ := SomeMember(rest);
        var id :| id in rest;
        if id !in branches {
          assert id !in orphans;
          orphans := orphans + [id];
        }
        rest := rest - {id};
      }
    }

    /** The chain from the root down to the branch. */
    method Lineage(id: Uuid) returns (r: Result<seq<Uuid>, DagError>)
      requires dag.Valid()
      ensures r.Err? <==> id !in dag.graph.Ids()
      ensures r.Err? ==> r.error == DagNodeNotFound(id)
      ensures r.Ok? ==> r.value != [] && r.value[|r.value| - 1] == id && Distinct(r.value)
      ensures r.Ok? ==> forall x :: x in r.value <==> Reach(dag.graph.Rel(), x, id)
      ensures r.Ok? && Forest(dag.graph.Rel()) ==> RootPath(dag.graph.Rel(), r.value, id)
    {
      var ancestors := dag.AncestorsOf(id);
      if ancestors.Err? {
        return Err(ancestors.error);
      }
      var chain := Reversed(ancestors.value) + [id];
      ChainMembers(ancestors.value, id);
      ReachRefl(dag.graph.Rel(), id);
      return Ok(chain);
    }
  }
}
