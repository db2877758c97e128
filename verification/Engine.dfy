/** How the engine chooses the three databases of a merge. */
module BranchEngine {
  import opened Wrappers
  import opened Paths
  import opened DirectedGraph
  import opened BranchData
  import opened BranchDiff
  import opened BranchLifecycle
  import opened ConflictResolution
  import opened MergeApplication
  import opened ThreeWayMerge
  import opened MergeReadings
  import BranchMerge

  datatype EngineError = NoSuchBranch(id: Uuid) | DatabaseMissing | ApplyFailed(error: ApplyError)

  function ResultOf(r: Result<MergeResult, ApplyError>): Result<MergeResult, EngineError> {
    match r
    case Ok(result) => Ok(result)
    case Err(e) => Err(ApplyFailed(e))
  }

  /** What the merge of two branches returns and leaves in the database of the source. */
  ghost predicate EngineOutcome(m: Inputs, strategy: MergeStrategy, r: Result<MergeResult, EngineError>,
                                after: Database)
  {
    match r
    case Ok(result) => BranchMerge.MergeOutcome(m, strategy, Ok(result), after)
    case Err(e) => e.ApplyFailed? && BranchMerge.MergeOutcome(m, strategy, Err(e.error), after)
  }

  /** With the target as its own base there is nothing to merge. */
  lemma NothingIncoming(m: Inputs, strategy: MergeStrategy, r: Result<MergeResult, EngineError>, after: Database)
    requires m.base == m.theirs && EngineOutcome(m, strategy, r, after)
    ensures r == Ok(MergeResult(0, [], true)) && after == m.ours
  {
    forall k ensures k !in Incoming(m) {
      if k in m.base.rows {
        assert SameRow(m.base.rows[k], m.theirs.rows[k]);
      }
    }
    assert Incoming(m) == {};
    assert Clashes(m, {}) == {} && TheirsOnly(m, {}) == {};
    assert Unresolved(strategy, {}) == {} && CountedClashes(strategy, {}) == {};
    assert CanWrite(m, strategy);
    UnchangedDatabase(m, strategy, after);
  }

  lemma UnchangedDatabase(m: Inputs, strategy: MergeStrategy, after: Database)
    requires Incoming(m) == {} && IsMerged(m, strategy, after)
    ensures after == m.ours
  {
    forall k ensures after.RowAt(k) == m.ours.RowAt(k) {
      assert MergedRow(m, strategy, after, k);
    }
    forall k ensures k in after.rows <==> k in m.ours.rows {
      assert after.RowAt(k) == m.ours.RowAt(k);
    }
    forall k | k in after.rows ensures after.rows[k] == m.ours.rows[k] {
      assert after.RowAt(k) == m.ours.RowAt(k);
    }
    assert after.rows == m.ours.rows;
  }

  /** What clashes in a field left to manual is not merged: it is reported, and nothing is written. */
  lemma ClashIsRefused(m: Inputs, strategy: MergeStrategy, r: Result<MergeResult, EngineError>, after: Database)
    requires Distinct(m.types) && EngineOutcome(m, strategy, r, after) && ManualClash(m, strategy)
    ensures r.Ok? && !r.value.success && after == m.ours
    ensures forall k, o, f :: FieldClash(m, k, o, f) && EndOf(strategy, f) == Manual ==>
              IsReported(m, r.value.conflicts, k, o, f)
  {
    if r.Ok? {
      RefusedReads(m, strategy, Ok(r.value), after);
    } else {
      RefusedReads(m, strategy, Err(r.error.error), after);
    }
  }

  /** A merge with base p goes through if the three databases are there. */
  ghost predicate MergedWith(before: map<Uuid, Database>, p: Uuid, source: Uuid, target: Uuid, strategy: MergeStrategy,
                             r: Result<MergeResult, EngineError>, after: map<Uuid, Database>)
    requires after.Keys == before.Keys
  {
    if p in before && source in before && target in before then
      EngineOutcome(Inputs(before[p], before[source], before[target], [MemoryRecord, Session, ToolOutput]), strategy, r,
                    after[source])
    else r == Err(DatabaseMissing)
  }

  /** Two forks of one branch that gave the title of a session different values are not merged under Manual: the
      report has both values, and the source stays as it was. */
  lemma SiblingsRefused(before: map<Uuid, Database>, p: Uuid, source: Uuid, target: Uuid,
                        r: Result<MergeResult, EngineError>, after: map<Uuid, Database>, k: Key)
    requires {p, source, target} <= before.Keys == after.Keys
    requires MergedWith(before, p, source, target, Manual, r, after)
    requires k.kind == Session && k in before[p].rows && k in before[source].rows && k in before[target].rows
    requires Value(before[source], k, "title") != Value(before[p], k, "title")
    requires Value(before[target], k, "title") != Value(before[p], k, "title")
    requires Value(before[source], k, "title") != Value(before[target], k, "title")
    requires !Changed(before[p], before[source], Key(ToolOutput, k.id))
    ensures r.Ok? && !r.value.success && after[source] == before[source]
    ensures exists c :: c in r.value.conflicts && c.key == k && c.fields == ["title"]
              && c.oursValue == Value(before[source], k, "title") && c.theirsValue == Value(before[target], k, "title")
  {
    AllTypesDistinct();
    var m := Inputs(before[p], before[source], before[target], [MemoryRecord, Session, ToolOutput]);
    assert m.types[1] == Session && m.types[2] == ToolOutput;
    assert Counterpart(m, k.id, k);
    assert FieldClash(m, k, k, "title") && EndOf(Manual, "title") == Manual;
    ClashIsRefused(m, Manual, r, after[source]);
    assert IsReported(m, r.value.conflicts, k, k, "title");
  }

  ghost function Contents(databases: map<Uuid, BranchDatabase>): (contents: map<Uuid, Database>)
    reads databases.Values
    ensures contents.Keys == databases.Keys
  {
    map id | id in databases :: databases[id].data
  }

  /** The base is the source's parent, and the target itself when there is none. The database that is written is the
      source's. Merging a branch into its parent, or the trunk into anything, changes no row. */
  method Merge(branches: Registry, databases: map<Uuid, BranchDatabase>, source: Uuid, target: Uuid,
               strategy: MergeStrategy)
    returns (r: Result<MergeResult, EngineError>)
    requires forall id :: id in databases ==> databases[id].data.Wf()
    modifies if source in databases then {databases[source]} else {}
    ensures source !in branches ==> r == Err(NoSuchBranch(source))
    ensures source in branches && target !in branches ==> r == Err(NoSuchBranch(target))
    ensures source in branches && target in branches ==>
              match branches[source].parent
              case None =>
                MergedWith(old(Contents(databases)), target, source, target, strategy, r, Contents(databases))
              case Some(p) =>
                if p !in branches then r == Err(NoSuchBranch(p))
                else MergedWith(old(Contents(databases)), p, source, target, strategy, r, Contents(databases))
    ensures source in branches && target in branches && source in databases && target in databases
            && branches[source].parent in {None, Some(target)} ==>
              r == Ok(MergeResult(0, [], true)) && databases[source].data == old(databases[source].data)
  {
    if source !in branches {
      return Err(NoSuchBranch(source));
    }
    if target !in branches {
      return Err(NoSuchBranch(target));
    }
    var base := branches[source].parent.GetOr(target);
    if base !in branches {
      return Err(NoSuchBranch(base));
    }
    if base !in databases || source !in databases || target !in databases {
      return Err(DatabaseMissing);
    }
    assert databases[source].data.Wf() && databases[target].data.Wf() && databases[base].data.Wf();
    AllTypesDistinct();
    ghost var m := Inputs(databases[base].data, databases[source].data, databases[target].data, ALL_TYPES);
    var merged := BranchMerge.Merge(databases[base].data, databases[source], databases[target].data, strategy,
        ALL_TYPES);
    r := ResultOf(merged);
    assert EngineOutcome(m, strategy, r, databases[source].data);
    if base == target {
      NothingIncoming(m, strategy, r, databases[source].data);
    }
  }
}
