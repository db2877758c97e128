/** When a commit succeeds and what it writes, said of the values in the two databases. */
module CommitReadings {
  import opened Wrappers
  import opened JsonValues
  import opened BranchData
  import opened BranchStates
  import opened MergeReadings
  import opened SelectiveCommit

  // ── The vocabulary ──

  /** The i-th selection asks for row k, and the source has it. */
  ghost predicate AsksFor(source: Database, sels: seq<Selection>, i: nat, k: Key) {
    && i < |sels| && k.kind == sels[i].kind && k in source.rows
    && (sels[i].ids == [] || exists p :: 0 <= p < |sels[i].ids| && sels[i].ids[p] == k.id)
  }

  /** Column f of row k is among those the selection takes from the source: all, or the named ones. */
  ghost predicate Takes(source: Database, sel: Selection, k: Key, f: string) {
    && k in source.rows && f in source.rows[k]
    && match sel.fields
       case None => true
       case Some(fields) => exists p :: 0 <= p < |fields| && fields[p] == f
  }

  /** The target lacks the table of row k, or a column the selection takes. */
  ghost predicate LacksPlace(source: Database, target: Database, sel: Selection, k: Key) {
    k.kind !in target.schema || exists f :: Takes(source, sel, k, f) && f !in target.schema[k.kind]
  }

  ghost predicate Asked(source: Database, sels: seq<Selection>, k: Key) {
    exists i: nat :: AsksFor(source, sels, i, k)
  }

  /** A row that is asked for by identifier, in a table the source has, and is not there. */
  ghost predicate AsksInVain(source: Database, sels: seq<Selection>, k: Key) {
    exists i, p :: 0 <= i < |sels| && 0 <= p < |sels[i].ids| && sels[i].kind in source.schema &&
      k == Key(sels[i].kind, sels[i].ids[p]) && k !in source.rows
  }

  // ── Validation ──

  lemma MissingReads(source: Database, sels: seq<Selection>, k: Key)
    ensures MissingFrom(source, sels, k) <==> AsksInVain(source, sels, k)
  {
    if MissingFrom(source, sels, k) {
      var i :| 0 <= i < |sels| && AsksForMissing(source, sels[i], k);
      var p :| 0 <= p < |sels[i].ids| && sels[i].ids[p] == k.id;
      assert k == Key(sels[i].kind, sels[i].ids[p]);
    }
    if AsksInVain(source, sels, k) {
      var i, p :| 0 <= i < |sels| && 0 <= p < |sels[i].ids| && sels[i].kind in source.schema &&
        k == Key(sels[i].kind, sels[i].ids[p]) && k !in source.rows;
      assert AsksForMissing(source, sels[i], k);
    }
  }

  ghost predicate Valid(source: Database, sels: seq<Selection>, sourceStatus: BranchStatus,
                        targetStatus: BranchStatus)
  {
    (sourceStatus.Active? || sourceStatus.Dormant?) && targetStatus.Active? && forall k :: !AsksInVain(source, sels, k)
  }

  /** Validation fails exactly if the source is not live, the target not active, or a requested row is missing; the
      violations say which, and the target stays as it was. */
  lemma ValidationReads(source: Database, target: Database, sels: seq<Selection>, sourceStatus: BranchStatus,
                        targetStatus: BranchStatus, r: Result<nat, CommitError>, after: Database)
    requires CommitOutcome(source, target, sels, sourceStatus, targetStatus, r, after)
    ensures (r.Err? && r.error.ValidationFailed?) <==> !Valid(source, sels, sourceStatus, targetStatus)
    ensures r.Err? ==> after == target
    ensures r.Err? && r.error.ValidationFailed? ==>
              var v := r.error.violations;
              && (SourceNotLive in v <==> !(sourceStatus.Active? || sourceStatus.Dormant?))
              && (TargetNotActive in v <==> !targetStatus.Active?)
              && forall k :: EntityMissing(k) in v <==> AsksInVain(source, sels, k)
  {
    forall k ensures MissingFrom(source, sels, k) <==> AsksInVain(source, sels, k) {
      MissingReads(source, sels, k);
    }
  }

  // ── Success ──

  lemma AsksReads(source: Database, sels: seq<Selection>, i: nat, k: Key)
    requires i < |sels|
    ensures Touches(source, sels[i], k) <==> AsksFor(source, sels, i, k)
  {
  }

  lemma PlaceReads(source: Database, target: Database, sel: Selection, k: Key)
    requires source.Wf() && target.Wf() && k in source.rows
    ensures Writable(source, target, sel, k) <==> !LacksPlace(source, target, sel, k)
  {
    forall f
      ensures f in Candidate(source, target, sel, k) <==>
                Takes(source, sel, k, f) || (sel.fields.Some? && k in target.rows && f in target.rows[k])
    {
      if sel.fields.Some? {
        assert f in sel.fields.value <==> exists p :: 0 <= p < |sel.fields.value| && sel.fields.value[p] == f;
      }
    }
    if k in target.rows { assert RowOk(k, target.rows[k], target.schema[k.kind]); }
  }

  ghost predicate SomethingLacksPlace(source: Database, target: Database, sels: seq<Selection>) {
    exists i: nat, k :: AsksFor(source, sels, i, k) && LacksPlace(source, target, sels[i], k)
  }

  /** After a passed validation a commit fails exactly if a requested row has no table in the target, or a column it
      is to get from the source is missing there. */
  lemma FailsExactly(source: Database, target: Database, sels: seq<Selection>, sourceStatus: BranchStatus,
                     targetStatus: BranchStatus, r: Result<nat, CommitError>, after: Database)
    requires source.Wf() && target.Wf()
    requires CommitOutcome(source, target, sels, sourceStatus, targetStatus, r, after)
    requires Valid(source, sels, sourceStatus, targetStatus)
    ensures r == Err(DatabaseError) <==> SomethingLacksPlace(source, target, sels)
    ensures r.Ok? <==> !SomethingLacksPlace(source, target, sels)
  {
    ValidationReads(source, target, sels, sourceStatus, targetStatus, r, after);
    forall i: nat, k | i < |sels| && Touches(source, sels[i], k)
      ensures Writable(source, target, sels[i], k) <==> !LacksPlace(source, target, sels[i], k)
      ensures AsksFor(source, sels, i, k)
    {
      PlaceReads(source, target, sels[i], k);
      AsksReads(source, sels, i, k);
    }
    if SomethingLacksPlace(source, target, sels) {
      var i: nat, k :| AsksFor(source, sels, i, k) && LacksPlace(source, target, sels[i], k);
      AsksReads(source, sels, i, k);
      assert !Writable(source, target, sels[i], k);
    }
  }

  /** Between branches with the same tables a validated commit never fails. */
  lemma SameTablesNeverFail(source: Database, target: Database, sels: seq<Selection>, sourceStatus: BranchStatus,
                            targetStatus: BranchStatus, r: Result<nat, CommitError>, after: Database)
    requires source.Wf() && target.Wf() && source.schema == target.schema
    requires CommitOutcome(source, target, sels, sourceStatus, targetStatus, r, after)
    requires Valid(source, sels, sourceStatus, targetStatus)
    ensures r.Ok?
  {
    forall i: nat, k | AsksFor(source, sels, i, k) ensures !LacksPlace(source, target, sels[i], k) {
      assert RowOk(k, source.rows[k], source.schema[k.kind]);
    }
    FailsExactly(source, target, sels, sourceStatus, targetStatus, r, after);
  }

  // ── Rows ──

  /** Row k as selection sel leaves it: the columns it takes are those of the source, the others as before. */
  ghost predicate Overlaid(source: Database, target: Database, sel: Selection, after: Database, k: Key) {
    && k in after.rows && k.kind in target.schema && after.rows[k].Keys == target.schema[k.kind]
    && Value(after, k, "id") == Str(k.id)
    && forall f {:trigger Value(after, k, f)} :: f != "id" ==>
         Value(after, k, f) == if Takes(source, sel, k, f) then Value(source, k, f)
                               else if sel.fields.Some? then Value(target, k, f) else Null
  }

  /** A commit that succeeds leaves each row to the last selection that asks for it, and all other rows alone. */
  lemma RowsExactly(source: Database, target: Database, sels: seq<Selection>, sourceStatus: BranchStatus,
                    targetStatus: BranchStatus, r: Result<nat, CommitError>, after: Database, k: Key)
    requires source.Wf() && target.Wf()
    requires CommitOutcome(source, target, sels, sourceStatus, targetStatus, r, after) && r.Ok?
    ensures after.schema == target.schema
    ensures !Asked(source, sels, k) ==> after.RowAt(k) == target.RowAt(k)
    ensures Asked(source, sels, k) ==> exists i: nat :: AsksLast(source, sels, i, k)
    ensures forall i: nat :: AsksLast(source, sels, i, k) ==> Overlaid(source, target, sels[i], after, k)
  {
    assert CommittedRow(source, target, sels, after, k);
    var n := LastTouchIndex(source, sels, k);
    forall i: nat | i < |sels| ensures Touches(source, sels[i], k) <==> AsksFor(source, sels, i, k) {
      AsksReads(source, sels, i, k);
    }
    if LastTouch(source, sels, k).Some? {
      assert AsksLast(source, sels, n, k);
      OverlayReads(source, target, sels[n], after, k);
      forall i: nat | AsksLast(source, sels, i, k) ensures i == n { }
    }
  }

  /** The i-th selection is the last one that asks for the row. */
  ghost predicate AsksLast(source: Database, sels: seq<Selection>, i: nat, k: Key) {
    AsksFor(source, sels, i, k) && forall j: nat :: i < j ==> !AsksFor(source, sels, j, k)
  }

  lemma OverlayReads(source: Database, target: Database, sel: Selection, after: Database, k: Key)
    requires source.Wf() && target.Wf() && k in source.rows && Writable(source, target, sel, k)
    requires after.RowAt(k) == Some(FullRow(target.schema[k.kind], k.id, Candidate(source, target, sel, k)))
    ensures Overlaid(source, target, sel, after, k)
  {
    assert RowOk(k, source.rows[k], source.schema[k.kind]);
    if k in target.rows { assert RowOk(k, target.rows[k], target.schema[k.kind]); }
    forall f | f != "id"
      ensures Value(after, k, f) == if Takes(source, sel, k, f) then Value(source, k, f)
                                    else if sel.fields.Some? then Value(target, k, f) else Null
    {
      if sel.fields.Some? {
        assert f in sel.fields.value <==> exists p :: 0 <= p < |sel.fields.value| && sel.fields.value[p] == f;
      }
      assert f in Candidate(source, target, sel, k) ==> f in target.schema[k.kind];
    }
  }

  // ── The count ──

  lemma {:induction false} PresentReads(source: Database, kind: EntityType, ids: seq<string>, present: set<nat>)
    requires forall p: nat :: p in present <==> p < |ids| && Key(kind, ids[p]) in source.rows
    ensures Present(source, kind, ids) == |present|
  {
    if ids == [] {
      assert present == {};
    } else {
      var n := |ids| - 1;
      PresentReads(source, kind, ids[..n], present - {n});
      if n in present { assert present == (present - {n}) + {n}; }
    }
  }

  lemma {:induction false} CountAdds(source: Database, a: seq<Selection>, b: seq<Selection>)
    ensures TotalCount(source, a + b) == TotalCount(source, a) + TotalCount(source, b)
  {
    if b == [] {
      assert a + b == a;
    } else {
      var n := |b| - 1;
      assert (a + b)[..|a + b| - 1] == a + b[..n];
      CountAdds(source, a, b[..n]);
    }
  }

  /** A commit of one selection returns how many rows it wrote: those listed that the source has, counted as often
      as they are listed, or all rows of the table. */
  lemma CountOfOne(source: Database, target: Database, sel: Selection, sourceStatus: BranchStatus,
                   targetStatus: BranchStatus, r: Result<nat, CommitError>, after: Database, listed: set<nat>,
                   rows: set<Key>)
    requires CommitOutcome(source, target, [sel], sourceStatus, targetStatus, r, after) && r.Ok?
    requires forall p: nat :: p in listed <==> p < |sel.ids| && Key(sel.kind, sel.ids[p]) in source.rows
    requires forall k :: k in rows <==> k in source.rows && k.kind == sel.kind
    ensures r.value == if sel.ids == [] then |rows| else |listed|
  {
    PresentReads(source, sel.kind, sel.ids, listed);
    assert rows == TableRows(source, sel.kind);
    assert [sel][..0] == [];
    assert TotalCount(source, [sel]) == TotalCount(source, []) + EntityCount(source, sel);
  }
}
