/** Three runs: one past the limit on live branches, one that discards the trunk, one that leaves an orphaned
    directory. */
module LifecycleExamples {
  import opened Wrappers
  import opened Paths
  import opened DirectedGraph
  import opened LineageGraph
  import opened BranchStates
  import opened BranchLifecycle
  import opened LifecycleRuns
  import Naming

  // ── Building runs ──

  lemma Extend(c: Config, worlds: seq<World>, events: seq<Event>, op: Op, r: Outcome, w': World)
    requires IsRun(c, worlds, events) && Step(c, worlds[|events|], op, r, w')
    ensures IsRun(c, worlds + [w'], events + [Event(op, r)])
  {
    var ws, es := worlds + [w'], events + [Event(op, r)];
    forall i: nat | i < |es| ensures StepAt(c, ws, es, i) {
      if i < |events| { assert StepAt(c, worlds, events, i); }
    }
  }

  /** A sound graph takes a new child below a registered node. */
  lemma GrowGraph(g: DiGraph, parent: Uuid, id: Uuid, clock: int) returns (h: DiGraph)
    requires GraphOk(g) && parent in g.Ids() && id !in g.Ids()
    ensures LineageIs(h, g.Ids() + {parent, id}, g.Rel() + {(parent, id)})
    ensures !Reach(g.Rel(), id, parent) && OneMoreEdge(g, h, parent, id, EdgeMeta(clock, None))
  {
    var wide := g.AddNode(id);
    AddNodeRel(g, id);
    var p := IndexOf(wide, parent);
    var n := IndexOf(wide, id);
    RelInIds(g);
    RelHas(wide, p, n);
    h := wide.AddEdge(p, n, EdgeMeta(clock, None));
    AddEdgeRel(wide, p, n, EdgeMeta(clock, None));
    ReachRegistered(g, id, parent);
    AddEdgeAcyclic(g.Rel(), parent, id);
    assert h.Ids() == wide.Ids();
    assert g.Ids() + {parent, id} == g.Ids() + {id};
  }

  lemma FirstTrunk(c: Config, w: World, id: Uuid) returns (w': World)
    requires TreeOk(c, w) && w.branches == map[] && Fresh(w, CreateTrunk(id))
    ensures Step(c, w, CreateTrunk(id), Ok(()), w')
    ensures w'.branches == map[id := Branch(c.trunkName, c.trunkName, None, Active, w.clock)] &&
        w'.directories == w.directories + {id}
  {
    AddNodeRel(w.lineage, id);
    assert Slugs(w.branches) == {};
    var b := Branch(c.trunkName, c.trunkName, None, Active, w.clock);
    w' := World(map[id := b], w.directories + {id}, w.lineage.AddNode(id), w.clock);
  }

  /** A fork that passes the checks can be carried out with any slug that is unique. */
  lemma NextFork(c: Config, w: World, parent: Uuid, name: string, id: Uuid, slug: string) returns (w': World)
    requires TreeOk(c, w) && Fresh(w, Fork(parent, name, id)) && ForkError(c, w, parent, name) == None
    requires Naming.IsUniqueSlug(Naming.SlugOf(Naming.Lowered(name, c.lower), c.isSpace), Slugs(w.branches), slug)
    ensures Step(c, w, Fork(parent, name, id), Ok(()), w')
    ensures w'.branches == w.branches[id := Branch(name, slug, Some(parent), Active, w.clock)]
    ensures w'.directories == w.directories + {id} && w'.clock == w.clock
  {
    var h := GrowGraph(w.lineage, parent, id, w.clock);
    w' := World(w.branches[id := Branch(name, slug, Some(parent), Active, w.clock)], w.directories + {id}, h, w.clock);
  }

  /** With room left, a live branch can be forked under a letter that is no slug yet. */
  lemma LetterFork(c: Config, w: World, parent: Uuid, ch: char, id: Uuid) returns (w': World)
    requires TreeOk(c, w) && Fresh(w, Fork(parent, [ch], id)) && 'a' <= ch <= 'z' && c.lower(ch) == [ch]
    requires parent in w.branches && w.branches[parent].status.IsLive() && |Live(w.branches)| < c.maxBranches
    requires [ch] !in Slugs(w.branches)
    ensures Step(c, w, Fork(parent, [ch], id), Ok(()), w')
    ensures w'.branches == w.branches[id := Branch([ch], [ch], Some(parent), Active, w.clock)]
    ensures w'.directories == w.directories + {id} && w'.clock == w.clock
  {
    LetterSlug(ch, c.lower, c.isSpace);
    w' := NextFork(c, w, parent, [ch], id, [ch]);
  }

  /** A lower-case letter is a valid name and its own slug. */
  lemma LetterSlug(ch: char, lower: char -> string, isSpace: char -> bool)
    requires 'a' <= ch <= 'z' && lower(ch) == [ch]
    ensures Naming.Validate([ch]) && Naming.SlugOf(Naming.Lowered([ch], lower), isSpace) == [ch]
  {
    var s := [ch];
    Naming.LoweredFixed(s, lower);
    Naming.NoSlashOneSegment(s);
    Naming.NoSlashValid(s);
    Naming.ReservedIsShort(s);
    assert Naming.Clean(s) && Naming.Trimmed(s);
    Naming.CleanSlugFixed(s, isSpace);
  }

  /** Room for two live branches; lower-casing leaves the two names used here alone. */
  ghost predicate Small(c: Config) {
    c.trunkName == "trunk" && c.maxBranches == 2 && c.lower('b') == "b" && c.lower('c') == "c"
  }

  const TRUNK := Branch("trunk", "trunk", None, Active, 0)
  const FORK_B := Branch("b", "b", Some(1), Active, 0)
  const FORK_C := Branch("c", "c", Some(1), Active, 0)

  lemma TrunkRun(c: Config) returns (worlds: seq<World>, events: seq<Event>)
    requires Small(c)
    ensures IsRun(c, worlds, events) && events == [Event(CreateTrunk(1), Ok(()))]
    ensures worlds[1].branches == map[1 := TRUNK] && worlds[1].directories == {1} && worlds[1].clock == 0
  {
    var w0 := World(map[], {}, DiGraph([], []), 0);
    TreeStart(c, 0);
    var w1 := FirstTrunk(c, w0, 1);
    worlds, events := [w0], [];
    Extend(c, worlds, events, CreateTrunk(1), Ok(()), w1);
    worlds, events := worlds + [w1], events + [Event(CreateTrunk(1), Ok(()))];
  }

  /** The world after a status change that succeeds. */
  ghost function Changed(w: World, id: Uuid, status: BranchStatus): World
    requires id in w.branches
  {
    w.(branches := w.branches[id := w.branches[id].(status := status, updatedAt := w.clock)])
  }

  // ── Past the limit ──

  lemma OnlyTrunkLives(branches: Registry)
    requires forall id :: id in branches ==>
        if id == 1 then branches[id] == TRUNK else branches[id] == FORK_B.(status := Archived)
    ensures |Live(branches)| <= 1 && "c" !in Slugs(branches) && (branches.Keys == {1} ==> "b" !in Slugs(branches))
  {
    assert Live(branches) <= {1};
    SubsetSize(Live(branches), {1});
  }

  /** With room for two, the trunk is forked into b. */
  lemma ForkRun(c: Config) returns (worlds: seq<World>, events: seq<Event>)
    requires Small(c)
    ensures IsRun(c, worlds, events) && |events| == 2
    ensures worlds[2].branches == map[1 := TRUNK, 2 := FORK_B] && worlds[2].directories == {1, 2} &&
        worlds[2].clock == 0
  {
    worlds, events := TrunkRun(c);
    RunKeepsTree(c, worlds, events);
    OnlyTrunkLives(worlds[1].branches);
    var w := LetterFork(c, worlds[1], 1, 'b', 2);
    Extend(c, worlds, events, Fork(1, "b", 2), Ok(()), w);
    worlds, events := worlds + [w], events + [Event(Fork(1, "b", 2), Ok(()))];
  }

  /** Archiving b makes room again. */
  lemma ArchiveRun(c: Config) returns (worlds: seq<World>, events: seq<Event>)
    requires Small(c)
    ensures IsRun(c, worlds, events) && |events| == 3
    ensures worlds[3].branches == map[1 := TRUNK, 2 := FORK_B.(status := Archived)]
    ensures worlds[3].directories == {1, 2} && worlds[3].clock == 0
  {
    worlds, events := ForkRun(c);
    var w := Changed(worlds[2], 2, Archived);
    Extend(c, worlds, events, Change(2, Archive), Ok(()), w);
    worlds, events := worlds + [w], events + [Event(Change(2, Archive), Ok(()))];
  }

  /** The room is taken by c. */
  lemma SecondForkRun(c: Config) returns (worlds: seq<World>, events: seq<Event>)
    requires Small(c)
    ensures IsRun(c, worlds, events) && |events| == 4
    ensures worlds[4].branches == map[1 := TRUNK, 2 := FORK_B.(status := Archived), 3 := FORK_C]
  {
    worlds, events := ArchiveRun(c);
    RunKeepsTree(c, worlds, events);
    OnlyTrunkLives(worlds[3].branches);
    var w := LetterFork(c, worlds[3], 1, 'c', 3);
    Extend(c, worlds, events, Fork(1, "c", 3), Ok(()), w);
    worlds, events := worlds + [w], events + [Event(Fork(1, "c", 3), Ok(()))];
  }

  /** Restoring b then makes three live branches where two are allowed. */
  lemma RestorePastLimit() returns (c: Config, worlds: seq<World>, events: seq<Event>)
    ensures IsRun(c, worlds, events) && |events| == 5 && c.maxBranches == 2
    ensures events[4] == Event(Change(2, Restore(true)), Ok(())) && |Live(worlds[5].branches)| == 3
  {
    c := Config("trunk", 2, 0, ch => [ch], ch => ch == ' ');
    worlds, events := SecondForkRun(c);
    var w5 := Changed(worlds[4], 2, Active);
    Extend(c, worlds, events, Change(2, Restore(true)), Ok(()), w5);
    worlds, events := worlds + [w5], events + [Event(Change(2, Restore(true)), Ok(()))];
    assert Live(w5.branches) == {1, 2, 3};
  }

  // ── Without a trunk ──

  /** Nothing protects the trunk from being discarded. */
  lemma TrunkDiscarded() returns (c: Config, worlds: seq<World>, events: seq<Event>)
    ensures IsRun(c, worlds, events) && |events| == 2 && events[1] == Event(Change(1, Discard), Ok(()))
    ensures IsRoot(worlds[2].branches, 1) && worlds[2].branches[1].slug == c.trunkName
    ensures worlds[2].branches[1].status.Discarded?
  {
    c := Config("trunk", 2, 0, ch => [ch], ch => ch == ' ');
    worlds, events := TrunkRun(c);
    var w2 := Changed(worlds[1], 1, Discarded(worlds[1].clock));
    Extend(c, worlds, events, Change(1, Discard), Ok(()), w2);
    worlds, events := worlds + [w2], events + [Event(Change(1, Discard), Ok(()))];
  }

  // ── A second trunk ──

  /** A second trunk is refused, and its directory stays behind. */
  lemma SecondTrunk() returns (c: Config, worlds: seq<World>, events: seq<Event>)
    ensures IsRun(c, worlds, events) && |events| == 2
    ensures events[0].op == CreateTrunk(1) && events[1] == Event(CreateTrunk(2), Err(BranchAlreadyExists("trunk")))
    ensures worlds[2].branches.Keys == {1} && worlds[2].directories - worlds[2].branches.Keys == {2}
  {
    c := Config("trunk", 2, 0, ch => [ch], ch => ch == ' ');
    worlds, events := TrunkRun(c);
    RunKeepsTree(c, worlds, events);
    assert 1 in worlds[1].branches && "trunk" in Slugs(worlds[1].branches);
    var w2 := worlds[1].(directories := {1, 2});
    Extend(c, worlds, events, CreateTrunk(2), Err(BranchAlreadyExists("trunk")), w2);
    worlds, events := worlds + [w2], events + [Event(CreateTrunk(2), Err(BranchAlreadyExists("trunk")))];
  }
}
