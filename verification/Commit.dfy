/** Selective commit: promoting chosen entities, or chosen fields of them, into another branch. */
module SelectiveCommit {
  import opened Wrappers
  import opened BranchData
  import opened BranchDiff
  import opened BranchStates
  import opened MergeApplication

  /** No identifiers means every entity of the table, no field list means every field. */
  datatype Selection = Selection(kind: EntityType, ids: seq<string>, fields: Option<seq<string>>)

  datatype Violation = SourceNotLive | TargetNotActive | EntityMissing(key: Key)

  datatype CommitError = ValidationFailed(violations: seq<Violation>) | DatabaseError

  // ── What a selection asks for ──

  ghost predicate Touches(source: Database, sel: Selection, k: Key) {
    k.kind == sel.kind && k in source.rows && (sel.ids == [] || k.id in sel.ids)
  }

  /** The source fields named by the list. */
  function Chosen(fields: seq<string>, row: Row): Row {
    map f | f in row && f in fields :: row[f]
  }

  /** The source row, or the row of the target before the commit with the chosen fields laid over it. */
  function Candidate(source: Database, target: Database, sel: Selection, k: Key): Row
    requires k in source.rows
  {
    match sel.fields
    case None => source.rows[k]
    case Some(fields) => Overlay(target.RowAt(k).GetOr(map[]), Chosen(fields, source.rows[k]))
  }

  /** The last selection that touches the row. */
  ghost function LastTouch(source: Database, sels: seq<Selection>, k: Key): Option<Selection> {
    if sels == [] then None
    else if Touches(source, sels[|sels| - 1], k) then Some(sels[|sels| - 1])
    else LastTouch(source, sels[..|sels| - 1], k)
  }

  predicate Writable(source: Database, target: Database, sel: Selection, k: Key)
    requires k in source.rows
  {
    Fits(target.schema, k, Put(Candidate(source, target, sel, k)))
  }

  ghost predicate CommittedRow(source: Database, target: Database, sels: seq<Selection>, after: Database, k: Key) {
    match LastTouch(source, sels, k)
    case None => after.RowAt(k) == target.RowAt(k)
    case Some(sel) =>
      && k in source.rows && Writable(source, target, sel, k)
      && after.RowAt(k) == Some(FullRow(target.schema[k.kind], k.id, Candidate(source, target, sel, k)))
  }

  ghost predicate IsCommitted(source: Database, target: Database, sels: seq<Selection>, after: Database) {
    && after.schema == target.schema
    && forall k {:trigger CommittedRow(source, target, sels, after, k)} :: CommittedRow(source, target, sels, after, k)
  }

  /** Every row a selection touches fits the tables of the target. */
  ghost predicate AllWritable(source: Database, target: Database, sels: seq<Selection>) {
    forall i, k {:trigger Touches(source, sels[i], k)} :: 0 <= i < |sels| && Touches(source, sels[i], k) ==>
      Writable(source, target, sels[i], k)
  }

  // ── Validation ──

  ghost predicate AsksForMissing(source: Database, sel: Selection, k: Key) {
    sel.kind in source.schema && k.kind == sel.kind && k.id in sel.ids && k !in source.rows
  }

  ghost predicate MissingFrom(source: Database, sels: seq<Selection>, k: Key) {
    exists i :: 0 <= i < |sels| && AsksForMissing(source, sels[i], k)
  }

  /** The violations found are exactly those there are. */
  ghost predicate IsReport(source: Database, sels: seq<Selection>, sourceStatus: BranchStatus,
                           targetStatus: BranchStatus, violations: seq<Violation>)
  {
    && (SourceNotLive in violations <==> !sourceStatus.IsLive())
    && (TargetNotActive in violations <==> targetStatus != Active)
    && forall k {:trigger MissingFrom(source, sels, k)} :: EntityMissing(k) in violations <==>
        MissingFrom(source, sels, k)
  }

  /** Collects every violation; nothing is checked about a table the source lacks. */
  method Validate(source: Database, sels: seq<Selection>, sourceStatus: BranchStatus, targetStatus: BranchStatus)
    returns (violations: seq<Violation>)
    ensures IsReport(source, sels, sourceStatus, targetStatus, violations)
  {
    violations := [];
    if !sourceStatus.IsLive() {
      violations := violations + [SourceNotLive];
    }
    if targetStatus != Active {
      violations := violations + [TargetNotActive];
    }
    var n := 0;
    while n < |sels|
      invariant n <= |sels|
      invariant IsReport(source, sels[..n], sourceStatus, targetStatus, violations)
    {
      var missing := ValidateSelection(source, sels[n]);
      forall k ensures EntityMissing(k) in violations + missing <==> MissingFrom(source, sels[..n + 1], k) {
        MissingStep(source, sels, n, k);
        assert MissingFrom(source, sels[..n], k) <==> EntityMissing(k) in violations;
      }
      violations := violations + missing;
      n := n + 1;
    }
    assert sels[..n] == sels;
  }

  lemma MissingStep(source: Database, sels: seq<Selection>, n: nat, k: Key)
    requires n < |sels|
    ensures MissingFrom(source, sels[..n + 1], k) <==>
        MissingFrom(source, sels[..n], k) || AsksForMissing(source, sels[n], k)
  {
    var front, more := sels[..n], sels[..n + 1];
    if MissingFrom(source, front, k) {
      var i :| 0 <= i < |front| && AsksForMissing(source, front[i], k);
      assert more[i] == front[i];
    }
    assert more[n] == sels[n];
  }

  method ValidateSelection(source: Database, sel: Selection) returns (missing: seq<Violation>)
    ensures forall v :: v in missing ==> v.EntityMissing?
    ensures forall k :: EntityMissing(k) in missing <==> AsksForMissing(source, sel, k)
  {
    missing := [];
    if sel.kind !in source.schema {
      return;
    }
    var n := 0;
    while n < |sel.ids|
      invariant n <= |sel.ids|
      invariant forall v :: v in missing ==> v.EntityMissing?
      invariant forall k :: EntityMissing(k) in missing <==>
          k.kind == sel.kind && k.id in sel.ids[..n] && k !in source.rows
    {
      var k := Key(sel.kind, sel.ids[n]);
      if k !in source.rows {
        missing := missing + [EntityMissing(k)];
      }
      n := n + 1;
    }
    assert sel.ids[..n] == sel.ids;
  }

  // ── Writing ──

  ghost function TableRows(source: Database, kind: EntityType): set<Key> {
    set k | k in source.rows && k.kind == kind
  }

  /** How many of the identifiers, counted with repetition, the source holds. */
  ghost function Present(source: Database, kind: EntityType, ids: seq<string>): nat {
    if ids == [] then 0
    else Present(source, kind, ids[..|ids| - 1]) + if Key(kind, ids[|ids| - 1]) in source.rows then 1 else 0
  }

  ghost function EntityCount(source: Database, sel: Selection): nat {
    if sel.ids == [] then |TableRows(source, sel.kind)| else Present(source, sel.kind, sel.ids)
  }

  ghost function TotalCount(source: Database, sels: seq<Selection>): nat {
    if sels == [] then 0
    else TotalCount(source, sels[..|sels| - 1]) + EntityCount(source, sels[|sels| - 1])
  }

  ghost predicate GoesThrough(source: Database, sel: Selection, ids: seq<string>, k: Key) {
    Touches(source, sel, k) <==> k.kind == sel.kind && k in source.rows && k.id in ids
  }

  /** The identifiers a selection goes through: its own list, or those of the table in arbitrary order. */
  method IdsOf(source: Database, sel: Selection) returns (ids: seq<string>)
    ensures forall k {:trigger GoesThrough(source, sel, ids, k)} :: GoesThrough(source, sel, ids, k)
    ensures Present(source, sel.kind, ids) == EntityCount(source, sel)
  {
    if sel.ids != [] {
      return sel.ids;
    }
    ids := [];
    var rest := set k | k in source.rows && k.kind == sel.kind;
    while rest != {}
      invariant rest <= TableRows(source, sel.kind)
      invariant forall k :: k in TableRows(source, sel.kind) ==> (k.id in ids <==> k !in rest)
      invariant Present(source, sel.kind, ids) + |rest| == |TableRows(source, sel.kind)|
      decreases rest
    {
      var k :| k in rest;
      assert k == Key(sel.kind, k.id);
      assert (ids + [k.id])[..|ids|] == ids;
      ids := ids + [k.id];
      rest := rest - {k};
    }
  }

  /** Row k after the identifiers done were written over the transaction's earlier state. */
  ghost predicate SelectionRow(source: Database, target: Database, sel: Selection, before: Database, ids: seq<string>,
                               tx: Database, k: Key)
  {
    if k.kind == sel.kind && k in source.rows && k.id in ids then
      Writable(source, target, sel, k)
      && tx.RowAt(k) == Some(FullRow(target.schema[k.kind], k.id, Candidate(source, target, sel, k)))
    else tx.RowAt(k) == before.RowAt(k)
  }

  ghost predicate AfterIds(source: Database, target: Database, sel: Selection, before: Database, ids: seq<string>,
                           tx: Database)
  {
    && tx.schema == target.schema
    && forall k {:trigger SelectionRow(source, target, sel, before, ids, tx, k)} ::
        SelectionRow(source, target, sel, before, ids, tx, k)
  }

  lemma WriteStep(source: Database, target: Database, sel: Selection, before: Database, ids: seq<string>,
                  tx: Database, id: string)
    requires AfterIds(source, target, sel, before, ids, tx)
    ensures var k := Key(sel.kind, id);
      if k in source.rows then
        var next := tx.Upsert(k, Candidate(source, target, sel, k));
        && (next.Some? <==> Writable(source, target, sel, k))
        && (next.Some? ==> AfterIds(source, target, sel, before, ids + [id], next.value))
      else AfterIds(source, target, sel, before, ids + [id], tx)
  {
    var k := Key(sel.kind, id);
    if k in source.rows {
      var next := tx.Upsert(k, Candidate(source, target, sel, k));
      if next.Some? {
        forall j ensures SelectionRow(source, target, sel, before, ids + [id], next.value, j) {
          assert SelectionRow(source, target, sel, before, ids, tx, j);
        }
      }
    } else {
      forall j ensures SelectionRow(source, target, sel, before, ids + [id], tx, j) {
        assert SelectionRow(source, target, sel, before, ids, tx, j);
      }
    }
  }

  ghost predicate SelectionWritable(source: Database, target: Database, sel: Selection) {
    forall k {:trigger Touches(source, sel, k)} :: Touches(source, sel, k) ==> Writable(source, target, sel, k)
  }

  /** Writes the entities of one selection into the transaction. */
  method CommitSelection(source: Database, target: Database, sel: Selection, before: Database, ids: seq<string>)
    returns (tx: Option<Database>, count: nat)
    requires before.schema == target.schema
    requires forall k {:trigger GoesThrough(source, sel, ids, k)} :: GoesThrough(source, sel, ids, k)
    ensures tx.Some? <==> SelectionWritable(source, target, sel)
    ensures tx.Some? ==> AfterIds(source, target, sel, before, ids, tx.value) && count == Present(source, sel.kind, ids)
  {
    tx, count := Some(before), 0;
    var n := 0;
    while n < |ids|
      invariant n <= |ids|
      invariant tx.Some? && AfterIds(source, target, sel, before, ids[..n], tx.value)
      invariant count == Present(source, sel.kind, ids[..n])
    {
      assert ids[..n + 1] == ids[..n] + [ids[n]];
      assert ids[..n + 1][..n] == ids[..n];
      WriteStep(source, target, sel, before, ids[..n], tx.value, ids[n]);
      var k := Key(sel.kind, ids[n]);
      if k in source.rows {
        var next := tx.value.Upsert(k, Candidate(source, target, sel, k));
        if next.None? {
          assert GoesThrough(source, sel, ids, k);
          assert Touches(source, sel, k);
          return None, count;
        }
        tx, count := next, count + 1;
      }
      n := n + 1;
    }
    assert ids[..n] == ids;
    forall k | Touches(source, sel, k) ensures Writable(source, target, sel, k) {
      assert GoesThrough(source, sel, ids, k);
      assert SelectionRow(source, target, sel, before, ids, tx.value, k);
    }
  }

  /** One more selection: the rows it touches are now decided by it. */
  lemma CommittedStep(source: Database, target: Database, sels: seq<Selection>, n: nat, before: Database,
                      ids: seq<string>, tx: Database)
    requires n < |sels| && IsCommitted(source, target, sels[..n], before)
    requires forall k {:trigger GoesThrough(source, sels[n], ids, k)} :: GoesThrough(source, sels[n], ids, k)
    requires AfterIds(source, target, sels[n], before, ids, tx)
    ensures IsCommitted(source, target, sels[..n + 1], tx)
  {
    var more := sels[..n + 1];
    assert more[..n] == sels[..n];
    forall k ensures CommittedRow(source, target, more, tx, k) {
      assert CommittedRow(source, target, sels[..n], before, k);
      assert GoesThrough(source, sels[n], ids, k);
      assert SelectionRow(source, target, sels[n], before, ids, tx, k);
    }
  }

  /** What a commit returns and leaves in the target. */
  ghost predicate CommitOutcome(source: Database, target: Database, sels: seq<Selection>, sourceStatus: BranchStatus,
                                targetStatus: BranchStatus, r: Result<nat, CommitError>, after: Database) {
    if !sourceStatus.IsLive() || targetStatus != Active || exists k :: MissingFrom(source, sels, k) then
      r.Err? && r.error.ValidationFailed? && after == target
      && IsReport(source, sels, sourceStatus, targetStatus, r.error.violations)
    else if !AllWritable(source, target, sels) then r == Err(DatabaseError) && after == target
    else r == Ok(TotalCount(source, sels)) && IsCommitted(source, target, sels, after)
  }

  /** Runs the selections one after the other; all or nothing. */
  method WriteSelections(source: Database, target: Database, sels: seq<Selection>) returns (r: Option<(Database, nat)>)
    ensures r.Some? <==> AllWritable(source, target, sels)
    ensures r.Some? ==> IsCommitted(source, target, sels, r.value.0) && r.value.1 == TotalCount(source, sels)
  {
    var tx, total := target, 0;
    forall k ensures CommittedRow(source, target, [], target, k) { }
    var n := 0;
    while n < |sels|
      invariant n <= |sels|
      invariant IsCommitted(source, target, sels[..n], tx) && total == TotalCount(source, sels[..n])
      invariant forall i :: 0 <= i < n ==> SelectionWritable(source, target, sels[i])
    {
      var ids := IdsOf(source, sels[n]);
      var next, count := CommitSelection(source, target, sels[n], tx, ids);
      if next.None? {
        return None;
      }
      CommittedStep(source, target, sels, n, tx, ids, next.value);
      assert sels[..n + 1][..n] == sels[..n];
      tx, total := next.value, total + count;
      n := n + 1;
    }
    assert sels[..n] == sels;
    r := Some((tx, total));
  }

  /** Validates the selections, then writes them in one transaction. */
  method Commit(source: Database, target: BranchDatabase, sels: seq<Selection>, sourceStatus: BranchStatus,
                targetStatus: BranchStatus) returns (r: Result<nat, CommitError>)
    modifies target
    ensures CommitOutcome(source, old(target.data), sels, sourceStatus, targetStatus, r, target.data)
  {
    var violations := Validate(source, sels, sourceStatus, targetStatus);
    if violations != [] {
      var v := violations[0];
      assert v in violations;
      assert v.EntityMissing? ==> MissingFrom(source, sels, v.key);
      return Err(ValidationFailed(violations));
    }
    assert forall k :: EntityMissing(k) !in violations;
    var written := WriteSelections(source, target.data, sels);
    if written.None? {
      return Err(DatabaseError);
    }
    target.data := written.value.0;
    r := Ok(written.value.1);
  }

  const EVERYTHING: seq<Selection> :=
    [Selection(MemoryRecord, [], None), Selection(Session, [], None), Selection(ToolOutput, [], None)]

  /** Promotes every entity of every table. */
  method CommitAll(source: Database, target: BranchDatabase, sourceStatus: BranchStatus, targetStatus: BranchStatus)
    returns (r: Result<nat, CommitError>)
    modifies target
    ensures CommitOutcome(source, old(target.data), EVERYTHING, sourceStatus, targetStatus, r, target.data)
  {
    r := Commit(source, target, EVERYTHING, sourceStatus, targetStatus);
  }

  // ── What a commit guarantees ──

  lemma {:induction false} LastTouchIndex(source: Database, sels: seq<Selection>, k: Key) returns (i: nat)
    ensures LastTouch(source, sels, k).Some? ==>
        i < |sels| && LastTouch(source, sels, k) == Some(sels[i]) && Touches(source, sels[i], k)
    ensures LastTouch(source, sels, k).Some? ==> forall j :: i < j < |sels| ==> !Touches(source, sels[j], k)
    ensures LastTouch(source, sels, k).None? ==> forall j :: 0 <= j < |sels| ==> !Touches(source, sels[j], k)
  {
    if sels == [] {
      i := 0;
    } else {
      i := LastTouchIndex(source, sels[..|sels| - 1], k);
      if Touches(source, sels[|sels| - 1], k) {
        i := |sels| - 1;
      }
    }
  }

  ghost predicate TakenFromSource(source: Database, sel: Selection, k: Key, f: string)
    requires k in source.rows
  {
    match sel.fields
    case None => true
    case Some(fields) => f in fields && f in source.rows[k]
  }

  /** Field by field: a touched row takes from the source what the last selection touching it chose, and keeps
      the rest. */
  lemma CommittedCell(source: Database, target: Database, sels: seq<Selection>, after: Database, k: Key, f: string)
    requires source.Wf() && target.Wf() && IsCommitted(source, target, sels, after)
    ensures LastTouch(source, sels, k).None? ==> after.RowAt(k) == target.RowAt(k)
    ensures LastTouch(source, sels, k).Some? ==> k in source.rows && k in after.rows
    ensures LastTouch(source, sels, k).Some? && f != ID_COLUMN ==>
              Cell(after.rows[k], f) ==
                if TakenFromSource(source, LastTouch(source, sels, k).value, k, f) then Cell(source.rows[k], f)
                else Cell(target.RowAt(k).GetOr(map[]), f)
    ensures LastTouch(source, sels, k).Some? ==> Cell(after.rows[k], ID_COLUMN) == Cell(source.rows[k], ID_COLUMN)
  {
    assert CommittedRow(source, target, sels, after, k);
    if k in source.rows { assert RowOk(k, source.rows[k], source.schema[k.kind]); }
    if k.kind in target.schema { assert ID_COLUMN in target.schema[k.kind]; }
    if k in target.rows { assert RowOk(k, target.rows[k], target.schema[k.kind]); }
  }

  /** A commit leaves full rows. */
  lemma CommitKeepsWf(source: Database, target: Database, sels: seq<Selection>, after: Database)
    requires source.Wf() && target.Wf() && IsCommitted(source, target, sels, after)
    ensures after.Wf()
  {
    forall k | k in after.rows ensures k.kind in after.schema && RowOk(k, after.rows[k], after.schema[k.kind]) {
      assert CommittedRow(source, target, sels, after, k);
      if LastTouch(source, sels, k).Some? {
        CandidateCells(source, target, LastTouch(source, sels, k).value, k);
        FullRowOk(target.schema[k.kind], k, Candidate(source, target, LastTouch(source, sels, k).value, k));
      }
    }
  }

  lemma CandidateCells(source: Database, target: Database, sel: Selection, k: Key)
    requires source.Wf() && target.Wf() && k in source.rows
    ensures forall f :: f in Candidate(source, target, sel, k) ==> IsCell(Candidate(source, target, sel, k)[f])
  {
    assert RowOk(k, source.rows[k], source.schema[k.kind]);
    if k in target.rows { assert RowOk(k, target.rows[k], target.schema[k.kind]); }
  }

  /** Committing the same selections again changes nothing. */
  lemma CommitTwice(source: Database, target: Database, sels: seq<Selection>, ss: BranchStatus, ts: BranchStatus,
                    r1: Result<nat, CommitError>, once: Database, r2: Result<nat, CommitError>, twice: Database)
    requires source.Wf() && target.Wf()
    requires CommitOutcome(source, target, sels, ss, ts, r1, once) && r1.Ok?
    requires CommitOutcome(source, once, sels, ss, ts, r2, twice)
    ensures r2 == r1 && twice == once
  {
    forall i, k | 0 <= i < |sels| && Touches(source, sels[i], k) ensures Writable(source, once, sels[i], k) {
      CommitFitsAgain(source, target, sels, once, i, k);
    }
    forall k ensures twice.RowAt(k) == once.RowAt(k) {
      CommitRowAgain(source, target, sels, once, twice, k);
    }
    assert forall k :: k in twice.rows <==> twice.RowAt(k).Some?;
    assert forall k :: k in once.rows <==> once.RowAt(k).Some?;
    assert twice.rows == once.rows;
  }

  lemma CommitFitsAgain(source: Database, target: Database, sels: seq<Selection>, once: Database, i: nat, k: Key)
    requires target.Wf() && IsCommitted(source, target, sels, once) && AllWritable(source, target, sels)
    requires i < |sels| && Touches(source, sels[i], k)
    ensures Writable(source, once, sels[i], k)
  {
    assert Writable(source, target, sels[i], k);
    assert CommittedRow(source, target, sels, once, k);
  }

  lemma CommitRowAgain(source: Database, target: Database, sels: seq<Selection>, once: Database, twice: Database,
                       k: Key)
    requires source.Wf() && target.Wf()
    requires IsCommitted(source, target, sels, once) && IsCommitted(source, once, sels, twice)
    ensures twice.RowAt(k) == once.RowAt(k)
  {
    CommitKeepsWf(source, target, sels, once);
    assert CommittedRow(source, target, sels, once, k) && CommittedRow(source, once, sels, twice, k);
    if LastTouch(source, sels, k).Some? {
      forall f ensures Cell(twice.rows[k], f) == Cell(once.rows[k], f) {
        CommittedCell(source, target, sels, once, k, f);
        CommittedCell(source, once, sels, twice, k, f);
      }
      SameCellsSameRow(twice.rows[k], once.rows[k]);
    }
  }

  lemma SameCellsSameRow(a: Row, b: Row)
    requires a.Keys == b.Keys && forall f :: Cell(a, f) == Cell(b, f)
    ensures a == b
  {
    forall f | f in a ensures a[f] == b[f] {
      assert Cell(a, f) == Cell(b, f);
    }
  }

  /** After everything was committed, a diff from the source finds nothing removed and nothing modified. */
  lemma CommitAllThenDiff(source: Database, target: Database, after: Database)
    requires source.Wf() && target.Wf() && IsCommitted(source, target, EVERYTHING, after)
    ensures StatsOf(source, after, ALL_TYPES).removed == 0 && StatsOf(source, after, ALL_TYPES).modified == 0
    ensures forall k :: k in source.rows ==> k in after.rows && SameRow(source.rows[k], after.rows[k])
  {
    forall k | k in source.rows ensures k in after.rows && SameRow(source.rows[k], after.rows[k]) {
      EverythingTouches(source, k);
      CommittedCell(source, target, EVERYTHING, after, k, ID_COLUMN);
      forall f ensures !Differs(source.rows[k], after.rows[k], f) {
        CommittedCell(source, target, EVERYTHING, after, k, f);
      }
    }
    assert OfKind(source, after, ALL_TYPES, Removed) == {};
    assert OfKind(source, after, ALL_TYPES, Modified) == {};
  }

  lemma EverythingTouches(source: Database, k: Key)
    requires k in source.rows
    ensures LastTouch(source, EVERYTHING, k).Some? && LastTouch(source, EVERYTHING, k).value.fields == None
  {
    var i := LastTouchIndex(source, EVERYTHING, k);
    assert Touches(source, EVERYTHING[match k.kind case MemoryRecord => 0 case Session => 1 case ToolOutput => 2], k);
  }
}
