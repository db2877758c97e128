/** What a run says about each branch: its state, name and parent follow from the operations that were carried out. */
module LifecycleHistory {
  import opened Wrappers
  import opened Paths
  import opened DirectedGraph
  import opened LineageGraph
  import opened BranchStates
  import opened BranchLifecycle
  import opened LifecycleRuns
  import Naming

  // ── The transition table ──

  /** The row of the branch got this status, at this clock; nothing else changed. */
  ghost predicate StatusSet(w: World, id: Uuid, status: BranchStatus, w': World) {
    && id in w.branches && id in w'.branches && w'.branches.Keys == w.branches.Keys
    && w'.branches[id].status == status && w'.branches[id].updatedAt == w.clock
    && w'.branches[id].name == w.branches[id].name && w'.branches[id].slug == w.branches[id].slug
    && w'.branches[id].parent == w.branches[id].parent
    && (forall j :: j in w.branches && j != id ==> w'.branches[j] == w.branches[j])
    && w'.directories == w.directories && w'.lineage == w.lineage && w'.clock == w.clock
  }

  /** What each operation on a branch does from each state. */
  lemma TransitionTable(w: World, id: Uuid, change: StatusChange, r: Outcome, w': World)
    requires ChangeStep(w, id, change, r, w')
    ensures r.Err? ==> w' == w
    ensures id !in w.branches ==> r == Err(BranchNotFound(id))
    ensures id in w.branches ==>
              match (change, w.branches[id].status)
              case (Activate, Active) => r == Ok(()) && w' == w
              case (Activate, Dormant) => r == Ok(()) && StatusSet(w, id, Active, w')
              case (Deactivate, Active) => r == Ok(()) && StatusSet(w, id, Dormant, w')
              case (Discard, Active) => r == Ok(()) && StatusSet(w, id, Discarded(w.clock), w')
              case (Discard, Dormant) => r == Ok(()) && StatusSet(w, id, Discarded(w.clock), w')
              case (Archive, Active) => r == Ok(()) && StatusSet(w, id, Archived, w')
              case (Archive, Dormant) => r == Ok(()) && StatusSet(w, id, Archived, w')
              case (Restore(true), Archived) => r == Ok(()) && StatusSet(w, id, Active, w')
              case (Restore(false), Archived) => r == Err(SnapshotInvalid(id))
              case _ => r == Err(BranchNotActive(id))
  {
  }

  // ── The state of a branch ──

  /** Event n is an operation on the branch that was carried out. */
  ghost predicate Accepted(events: seq<Event>, id: Uuid, n: nat) {
    n < |events| && events[n].op.Change? && events[n].op.id == id && events[n].outcome == Ok(())
  }

  ghost predicate LastAccepted(events: seq<Event>, id: Uuid, n: nat) {
    Accepted(events, id, n) && forall j: nat :: n < j ==> !Accepted(events, id, j)
  }

  /** The state an operation leaves the branch in. */
  ghost function StatusAfter(change: StatusChange, clock: int): BranchStatus {
    match change
    case Activate => Active
    case Deactivate => Dormant
    case Discard => Discarded(clock)
    case Archive => Archived
    case Restore(_) => Active
  }

  lemma {:induction false} LastOrNone(events: seq<Event>, id: Uuid) returns (n: nat)
    ensures (exists j: nat :: Accepted(events, id, j)) ==> LastAccepted(events, id, n)
  {
    n := 0;
    if events != [] {
      var last := |events| - 1;
      if Accepted(events, id, last) {
        n := last;
      } else {
        n := LastOrNone(events[..last], id);
        forall j: nat ensures Accepted(events, id, j) <==> Accepted(events[..last], id, j) { }
      }
    }
  }

  lemma RunTake(c: Config, worlds: seq<World>, events: seq<Event>, m: nat)
    requires IsRun(c, worlds, events) && m <= |events|
    ensures IsRun(c, worlds[..m + 1], events[..m])
    ensures m < |events| ==> Step(c, worlds[m], events[m].op, events[m].outcome, worlds[m + 1])
  {
    var ws, es := worlds[..m + 1], events[..m];
    forall i: nat | i < |es| ensures StepAt(c, ws, es, i) {
      assert StepAt(c, worlds, events, i);
    }
    assert m < |events| ==> StepAt(c, worlds, events, m);
  }

  /** Between two points of a run every branch stays, and what is discarded or purged stays so. */
  lemma LaterInRun(c: Config, worlds: seq<World>, events: seq<Event>, i: nat, j: nat)
    requires IsRun(c, worlds, events) && i <= j <= |events|
    ensures AllLater(worlds[i].branches, worlds[j].branches)
  {
    RunTake(c, worlds, events, j);
    DiscardedStaysDead(c, worlds[..j + 1], events[..j], i);
  }

  /** Only a registered branch can be operated on. */
  lemma AcceptedIsRegistered(c: Config, worlds: seq<World>, events: seq<Event>, id: Uuid, n: nat)
    requires IsRun(c, worlds, events) && Accepted(events, id, n)
    ensures id in worlds[n].branches
    ensures ChangeStep(worlds[n], id, events[n].op.change, Ok(()), worlds[n + 1])
  {
    RunTake(c, worlds, events, n);
  }

  /** A step leaves the state of a branch alone unless it creates it, operates on it or purges it. */
  lemma StepStatus(c: Config, w: World, op: Op, r: Outcome, w': World, id: Uuid)
    requires Step(c, w, op, r, w') && id in w'.branches && !w'.branches[id].status.Purged?
    ensures id !in w.branches ==> w'.branches[id].status == Active && !op.Change?
    ensures id in w.branches ==> !w.branches[id].status.Purged?
    ensures id in w.branches && !(op.Change? && op.id == id && r == Ok(())) ==>
              w'.branches[id].status == w.branches[id].status
    ensures id in w.branches && op.Change? && op.id == id && r == Ok(()) ==>
              w'.branches[id].status == StatusAfter(op.change, w.clock)
  {
    if op.Change? {
      TransitionTable(w, op.id, op.change, r, w');
    }
  }

  /** The status is that of the last operation that was carried out, and Active if there is none. */
  ghost predicate Follows(status: BranchStatus, worlds: seq<World>, events: seq<Event>, id: Uuid)
    requires |worlds| > |events|
  {
    && ((forall n: nat :: !Accepted(events, id, n)) ==> status == Active)
    && forall n: nat :: LastAccepted(events, id, n) ==> status == StatusAfter(events[n].op.change, worlds[n].clock)
  }

  lemma NewBranch(c: Config, worlds: seq<World>, events: seq<Event>, id: Uuid)
    requires IsRun(c, worlds, events) && id !in worlds[|events|].branches
    ensures forall n: nat :: !Accepted(events, id, n)
  {
    forall n: nat ensures !Accepted(events, id, n) {
      if Accepted(events, id, n) {
        AcceptedIsRegistered(c, worlds, events, id, n);
        LaterInRun(c, worlds, events, n, |events|);
      }
    }
  }

  /** The last event is the last operation on the branch, or it is none and the earlier last one stays last. */
  lemma LastPush(events: seq<Event>, id: Uuid, e: Event)
    ensures var (all, n) := (events + [e], |events|);
      && (Accepted(all, id, n) <==> e.op.Change? && e.op.id == id && e.outcome == Ok(()))
      && (Accepted(all, id, n) ==> forall j: nat :: LastAccepted(all, id, j) ==> j == n)
      && (!Accepted(all, id, n) ==> forall j: nat :: LastAccepted(all, id, j) ==> j < n && LastAccepted(events, id, j))
      && ((forall j: nat :: !Accepted(all, id, j)) ==> forall j: nat :: !Accepted(events, id, j))
  {
    var all := events + [e];
    forall j: nat | j < |events| ensures Accepted(all, id, j) <==> Accepted(events, id, j) { }
  }

  /** The state of a branch that is not purged follows from the operations on it. */
  lemma {:induction false} StatusFromHistory(c: Config, worlds: seq<World>, events: seq<Event>, id: Uuid)
    requires IsRun(c, worlds, events) && id in worlds[|events|].branches
    requires !worlds[|events|].branches[id].status.Purged?
    ensures Follows(worlds[|events|].branches[id].status, worlds, events, id)
  {
    if events != [] {
      RunPrefix(c, worlds, events);
      var last := |events| - 1;
      var ws, es := worlds[..last + 1], events[..last];
      assert events == es + [events[last]];
      StepStatus(c, worlds[last], events[last].op, events[last].outcome, worlds[last + 1], id);
      LastPush(es, id, events[last]);
      if id in ws[last].branches {
        StatusFromHistory(c, ws, es, id);
      } else {
        NewBranch(c, ws, es, id);
      }
    }
  }

  // ── Discarding and purging, by the clock ──

  /** Event n discards the branch, which is active or dormant then. */
  ghost predicate DiscardsAt(worlds: seq<World>, events: seq<Event>, id: Uuid, n: nat) {
    && n < |events| && n < |worlds| && events[n].op == Change(id, Discard) && id in worlds[n].branches
    && (worlds[n].branches[id].status == Active || worlds[n].branches[id].status == Dormant)
  }

  /** A discarded branch carries the clock of the event that discarded it. */
  lemma DiscardTime(c: Config, worlds: seq<World>, events: seq<Event>, id: Uuid) returns (n: nat)
    requires IsRun(c, worlds, events) && id in worlds[|events|].branches
    requires worlds[|events|].branches[id].status.Discarded?
    ensures DiscardsAt(worlds, events, id, n)
    ensures worlds[|events|].branches[id].status == Discarded(worlds[n].clock)
  {
    StatusFromHistory(c, worlds, events, id);
    n := LastOrNone(events, id);
    assert LastAccepted(events, id, n);
    AcceptedIsRegistered(c, worlds, events, id, n);
    TransitionTable(worlds[n], id, events[n].op.change, Ok(()), worlds[n + 1]);
  }

  /** From its discard on a branch carries that clock, until it is purged. */
  lemma DiscardSticks(c: Config, worlds: seq<World>, events: seq<Event>, id: Uuid, n: nat, m: nat)
    requires IsRun(c, worlds, events) && DiscardsAt(worlds, events, id, n) && n < m <= |events|
    ensures id in worlds[m].branches
    ensures worlds[m].branches[id].status in {Discarded(worlds[n].clock), Purged}
  {
    RunTake(c, worlds, events, n);
    TransitionTable(worlds[n], id, Discard, events[n].outcome, worlds[n + 1]);
    LaterInRun(c, worlds, events, n + 1, m);
  }

  /** Event n discards the branch, and event m, later, collects with the clock past the threshold. */
  ghost predicate DiscardedThenCollected(c: Config, worlds: seq<World>, events: seq<Event>, id: Uuid, n: nat, m: nat) {
    && DiscardsAt(worlds, events, id, n) && n < m < |events| && m < |worlds| && events[m].op == Collect
    && worlds[m].clock - worlds[n].clock > c.gcThreshold
  }

  /** A branch is purged exactly if some collection ran when the clock was past its discard by more than the
      threshold. */
  lemma PurgedExactly(c: Config, worlds: seq<World>, events: seq<Event>, id: Uuid)
    requires IsRun(c, worlds, events) && id in worlds[|events|].branches
    ensures worlds[|events|].branches[id].status == Purged <==>
              exists n: nat, m: nat :: DiscardedThenCollected(c, worlds, events, id, n, m)
  {
    PurgedIffCollected(c, worlds, events, id);
    if worlds[|events|].branches[id].status == Purged {
      var m: nat :| m < |events| && CollectedAt(c, worlds, events, id, m);
      RunTake(c, worlds, events, m);
      var n := DiscardTime(c, worlds[..m + 1], events[..m], id);
      assert DiscardedThenCollected(c, worlds, events, id, n, m);
    }
    if exists n: nat, m: nat :: DiscardedThenCollected(c, worlds, events, id, n, m) {
      var n: nat, m: nat :| DiscardedThenCollected(c, worlds, events, id, n, m);
      DiscardSticks(c, worlds, events, id, n, m);
      if worlds[m].branches[id].status == Purged {
        LaterInRun(c, worlds, events, m, |events|);
      } else {
        assert CollectedAt(c, worlds, events, id, m);
      }
    }
  }

  // ── Where branches come from ──

  /** Event n created the branch under this name, below this parent. */
  ghost predicate CreatedBy(c: Config, worlds: seq<World>, events: seq<Event>, id: Uuid, b: Branch, n: nat) {
    && n < |events| && n < |worlds| && events[n].outcome == Ok(()) && id !in worlds[n].branches
    && match events[n].op
       case CreateTrunk(i) => i == id && b.name == c.trunkName && b.slug == c.trunkName && b.parent == None
       case Fork(parent, name, i) =>
         && i == id && b.name == name && b.parent == Some(parent)
         && Naming.IsUniqueSlug(Naming.SlugOf(Naming.Lowered(name, c.lower), c.isSpace), Slugs(worlds[n].branches),
                                b.slug)
       case _ => false
  }

  /** Every branch of a run has name, slug and parent from the trunk creation or the fork that made it. */
  lemma {:induction false} Origin(c: Config, worlds: seq<World>, events: seq<Event>, id: Uuid)
    requires IsRun(c, worlds, events) && id in worlds[|events|].branches
    ensures exists n: nat :: CreatedBy(c, worlds, events, id, worlds[|events|].branches[id], n)
  {
    RunPrefix(c, worlds, events);
    var last := |events| - 1;
    var ws, es := worlds[..last + 1], events[..last];
    if id in ws[last].branches {
      Origin(c, ws, es, id);
      LaterInRun(c, worlds, events, last, |events|);
      var n: nat :| CreatedBy(c, ws, es, id, ws[last].branches[id], n);
      assert CreatedBy(c, worlds, events, id, worlds[|events|].branches[id], n);
    } else {
      RunKeepsTree(c, ws, es);
      CreatedNow(c, worlds[last], events[last].op, events[last].outcome, worlds[last + 1], id);
      assert CreatedBy(c, worlds, events, id, worlds[|events|].branches[id], last);
    }
  }

  lemma CreatedNow(c: Config, w: World, op: Op, r: Outcome, w': World, id: Uuid)
    requires TreeOk(c, w) && Step(c, w, op, r, w') && id !in w.branches && id in w'.branches
    ensures r == Ok(()) && (op == CreateTrunk(id) || (op.Fork? && op.id == id))
    ensures op.CreateTrunk? ==> w'.branches[id] == Branch(c.trunkName, c.trunkName, None, Active, w.clock)
    ensures op.Fork? ==>
              && w'.branches[id].name == op.name && w'.branches[id].parent == Some(op.parent)
              && Naming.IsUniqueSlug(Naming.SlugOf(Naming.Lowered(op.name, c.lower), c.isSpace), Slugs(w.branches),
                                     w'.branches[id].slug)
  {
    if op.Fork? {
      ForkKeepsTree(c, w, op.parent, op.name, op.id, r, w');
    }
  }

  /** Event n forked v off u, at the clock the metadata has. */
  ghost predicate ForkedAt(worlds: seq<World>, events: seq<Event>, u: Uuid, v: Uuid, meta: EdgeMeta, n: nat) {
    && n < |events| && n < |worlds| && events[n].op.Fork? && events[n].outcome == Ok(())
    && events[n].op.parent == u && events[n].op.id == v && meta == EdgeMeta(worlds[n].clock, None)
  }

  lemma NewEdge(c: Config, w: World, op: Op, r: Outcome, w': World, u: Uuid, v: Uuid, meta: EdgeMeta)
    requires TreeOk(c, w) && Step(c, w, op, r, w') && w'.lineage.Wf() && HasEdge(w'.lineage, u, v, meta)
    ensures HasEdge(w.lineage, u, v, meta)
         || (op.Fork? && r == Ok(()) && op.parent == u && op.id == v && meta == EdgeMeta(w.clock, None))
  {
    var k :| 0 <= k < |w'.lineage.edges| && EdgeIs(w'.lineage, k, u, v, meta);
    if op.Fork? && ForkError(c, w, op.parent, op.name).None? {
      ForkKeepsTree(c, w, op.parent, op.name, op.id, r, w');
      RelInIds(w.lineage);
      EdgeOrLast(w.lineage, w'.lineage, op.parent, op.id, EdgeMeta(w.clock, None), k, u, v, meta);
    } else {
      assert EdgeIs(w.lineage, k, u, v, meta);
    }
  }

  lemma EdgeOrLast(g: DiGraph, h: DiGraph, parent: Uuid, id: Uuid, last: EdgeMeta, k: nat, u: Uuid, v: Uuid,
                   meta: EdgeMeta)
    requires g.Wf() && OneMoreEdge(g, h, parent, id, last) && k < |h.edges| && EdgeIs(h, k, u, v, meta)
    ensures HasEdge(g, u, v, meta) || (u == parent && v == id && meta == last)
  {
    if k < |g.edges| { assert EdgeIs(g, k, u, v, meta); }
  }

  /** Every edge of the lineage comes from a fork and carries its clock; no operation sets a merge cursor. */
  lemma {:induction false} EdgesFromForks(c: Config, worlds: seq<World>, events: seq<Event>, u: Uuid, v: Uuid,
                                          meta: EdgeMeta)
    requires IsRun(c, worlds, events) && GraphOk(worlds[|events|].lineage)
    requires HasEdge(worlds[|events|].lineage, u, v, meta)
    ensures exists n: nat :: ForkedAt(worlds, events, u, v, meta, n)
  {
    if events != [] {
      RunPrefix(c, worlds, events);
      var last := |events| - 1;
      var ws, es := worlds[..last + 1], events[..last];
      RunKeepsTree(c, ws, es);
      NewEdge(c, worlds[last], events[last].op, events[last].outcome, worlds[last + 1], u, v, meta);
      if HasEdge(worlds[last].lineage, u, v, meta) {
        EdgesFromForks(c, ws, es, u, v, meta);
        var n: nat :| ForkedAt(ws, es, u, v, meta, n);
        assert ForkedAt(worlds, events, u, v, meta, n);
      } else {
        assert ForkedAt(worlds, events, u, v, meta, last);
      }
    }
  }

  /** The branch is there and active or dormant. */
  ghost predicate LiveIn(w: World, id: Uuid) {
    id in w.branches && (w.branches[id].status == Active || w.branches[id].status == Dormant)
  }

  /** A fork is carried out exactly if the name is valid, the parent is there and active or dormant, and fewer
      branches than the maximum are; what fails first is reported. */
  lemma ForkAccepted(c: Config, worlds: seq<World>, events: seq<Event>, n: nat, live: set<Uuid>)
    requires IsRun(c, worlds, events) && n < |events| && events[n].op.Fork?
    requires forall i: Uuid :: i in live <==> LiveIn(worlds[n], i)
    ensures var (w, op, r) := (worlds[n], events[n].op, events[n].outcome);
      && (r.Ok? <==> Naming.Validate(op.name) && op.parent in live && |live| < c.maxBranches)
      && (!Naming.Validate(op.name) ==> r == Err(NamingError))
      && (Naming.Validate(op.name) && op.parent !in w.branches ==> r == Err(BranchNotFound(op.parent)))
      && (Naming.Validate(op.name) && op.parent in w.branches && op.parent !in live ==>
            r == Err(BranchNotActive(op.parent)))
      && (Naming.Validate(op.name) && op.parent in live && |live| >= c.maxBranches ==> r == Err(BranchLimitExceeded))
      && (r.Ok? ==> op.id in worlds[n + 1].branches)
  {
    RunTake(c, worlds, events, n);
    RunKeepsTree(c, worlds[..n + 1], events[..n]);
    var op := events[n].op;
    ForkKeepsTree(c, worlds[n], op.parent, op.name, op.id, events[n].outcome, worlds[n + 1]);
    forall i: Uuid ensures i in live <==> i in Live(worlds[n].branches) { }
    assert live == Live(worlds[n].branches);
  }
}
