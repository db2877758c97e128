/** What a merge reports and writes, said of the values in the three databases. */
module MergeReadings {
  import opened Wrappers
  import opened Paths
  import opened JsonValues
  import opened BranchData
  import opened BranchDiff
  import opened ConflictResolution
  import opened MergeApplication
  import opened ThreeWayMerge
  import opened BranchMerge

  // ── The vocabulary ──

  /** The value of a column; null where the row or the column is missing. */
  ghost function Value(db: Database, k: Key, f: string): Json {
    if k in db.rows && f in db.rows[k] then db.rows[k][f] else Null
  }

  /** The row came, went, or has another value in some column. */
  ghost predicate Changed(base: Database, side: Database, k: Key) {
    if k in base.rows && k in side.rows then
      exists f {:trigger Value(base, k, f)} :: Value(base, k, f) != Value(side, k, f)
    else k in base.rows || k in side.rows
  }

  /** A row both have, with another value in column f. */
  ghost predicate FieldChanged(base: Database, side: Database, k: Key, f: string) {
    k in base.rows && k in side.rows && Value(base, k, f) != Value(side, k, f)
  }

  /** The row of ours in the last table, in the order of the list, where ours changed the identifier. */
  ghost predicate Counterpart(m: Inputs, id: string, o: Key) {
    o.id == id && exists p ::
      && 0 <= p < |m.types| && m.types[p] == o.kind && Changed(m.base, m.ours, o)
      && forall q :: p < q < |m.types| ==> !Changed(m.base, m.ours, Key(m.types[q], id))
  }

  ghost predicate HasCounterpart(m: Inputs, id: string) {
    exists o :: Counterpart(m, id, o)
  }

  /** Theirs changed column f of row k, and ours changed it in the counterpart o to something else. */
  ghost predicate FieldClash(m: Inputs, k: Key, o: Key, f: string) {
    && k.kind in m.types && Counterpart(m, k.id, o)
    && FieldChanged(m.base, m.theirs, k, f) && FieldChanged(m.base, m.ours, o, f)
    && Value(m.ours, o, f) != Value(m.theirs, k, f)
  }

  /** Where per-field maps lead for f: a field without entry is merged by union. */
  ghost function EndOf(strategy: MergeStrategy, f: string): MergeStrategy
    decreases strategy
  {
    if !strategy.FieldLevel? then strategy
    else if f in strategy.fields then EndOf(strategy.fields[f], f)
    else Union
  }

  // ── The plan in this vocabulary ──

  lemma ChangedReads(m: Inputs, side: Database, k: Key)
    ensures ChangedIn(m, side, k) <==> k.kind in m.types && Changed(m.base, side, k)
  {
    if k in m.base.rows && k in side.rows {
      var x, y := m.base.rows[k], side.rows[k];
      forall f ensures Differs(x, y, f) <==> Value(m.base, k, f) != Value(side, k, f) { }
      if SameRow(x, y) {
        forall f ensures Value(m.base, k, f) == Value(side, k, f) { assert !Differs(x, y, f); }
      }
    }
  }

  lemma CounterpartReads(m: Inputs, id: string)
    requires Distinct(m.types)
    ensures OursKey(m, id).Some? ==> Counterpart(m, id, OursKey(m, id).value)
    ensures forall o :: Counterpart(m, id, o) ==> OursKey(m, id) == Some(o)
  {
    var p := LatestChangeIndex(m, id, |m.types|);
    forall q | 0 <= q < |m.types|
      ensures ChangedIn(m, m.ours, Key(m.types[q], id)) <==> Changed(m.base, m.ours, Key(m.types[q], id))
    {
      ChangedReads(m, m.ours, Key(m.types[q], id));
    }
    forall o | Counterpart(m, id, o) ensures OursKey(m, id) == Some(o) {
      var q :| 0 <= q < |m.types| && m.types[q] == o.kind && Changed(m.base, m.ours, o)
        && forall j :: q < j < |m.types| ==> !Changed(m.base, m.ours, Key(m.types[j], id));
      assert o == Key(m.types[q], id);
    }
  }

  lemma FieldReads(a: Database, b: Database, k: Key, f: string)
    ensures f in ChangedFields(a, b, k) <==> FieldChanged(a, b, k, f)
    ensures f in ChangedFields(a, b, k) ==> ChangedFields(a, b, k)[f] == Value(b, k, f)
  {
  }

  lemma FieldChangeIsChange(m: Inputs, k: Key, f: string)
    requires k.kind in m.types && FieldChanged(m.base, m.theirs, k, f)
    ensures k in Incoming(m)
  {
    ChangedReads(m, m.theirs, k);
  }

  /** Field f of row k clashes exactly if it does in this vocabulary. */
  lemma ClashReads(m: Inputs, k: Key, f: string)
    requires Distinct(m.types)
    ensures k in Incoming(m) && f in ClashesOf(m, k) <==> exists o :: FieldClash(m, k, o, f)
    ensures f in ClashesOf(m, k) && k in Incoming(m) ==>
              OursKey(m, k.id).Some? && FieldClash(m, k, OursKey(m, k.id).value, f)
  {
    CounterpartReads(m, k.id);
    FieldReads(m.base, m.theirs, k, f);
    if OursKey(m, k.id).Some? {
      FieldReads(m.base, m.ours, OursKey(m, k.id).value, f);
    }
    ChangedReads(m, m.theirs, k);
    if exists o :: FieldClash(m, k, o, f) {
      FieldChangeIsChange(m, k, f);
    } else if f in ClashesOf(m, k) && k in Incoming(m) {
      assert FieldClash(m, k, OursKey(m, k.id).value, f);
    }
  }

  // ── Reported conflicts ──

  /** The conflict names the field, the entity of ours, and what each side holds there; no base value is passed on. */
  ghost predicate Reports(m: Inputs, c: MergeConflict, k: Key, o: Key, f: string) {
    && c.fields == [f] && c.key == o
    && c.oursValue == Value(m.ours, o, f) && c.theirsValue == Value(m.theirs, k, f) && c.baseValue == Null
  }

  ghost predicate ReportsSome(m: Inputs, c: MergeConflict) {
    exists k, o, f :: FieldClash(m, k, o, f) && Reports(m, c, k, o, f)
  }

  ghost predicate IsReported(m: Inputs, conflicts: seq<MergeConflict>, k: Key, o: Key, f: string) {
    exists i :: 0 <= i < |conflicts| && Reports(m, conflicts[i], k, o, f)
  }

  lemma ConflictReads(m: Inputs, x: Clash, o: Key)
    requires Distinct(m.types) && FieldClash(m, x.key, o, x.field)
    ensures Reports(m, ConflictFor(m, x), x.key, o, x.field)
  {
    CounterpartReads(m, x.key.id);
    FieldReads(m.base, m.theirs, x.key, x.field);
    FieldReads(m.base, m.ours, o, x.field);
  }

  /** A list of the conflicts of some clashes reports these clashes and no others. */
  lemma ListReads(m: Inputs, conflicts: seq<MergeConflict>, clashes: set<Clash>)
    requires Distinct(m.types) && Lists(m, conflicts, clashes) && clashes <= Clashes(m, Incoming(m))
    ensures forall c :: c in conflicts ==> ReportsSome(m, c)
    ensures forall k, o, f :: Clash(k, f) in clashes && FieldClash(m, k, o, f) ==> IsReported(m, conflicts, k, o, f)
  {
    forall c | c in conflicts ensures ReportsSome(m, c) {
      var x := ListedReads(m, conflicts, clashes, c);
    }
    forall k, o, f | Clash(k, f) in clashes && FieldClash(m, k, o, f) ensures IsReported(m, conflicts, k, o, f) {
      var x := Clash(k, f);
      var c := ConflictFor(m, x);
      ConflictReads(m, x, o);
      assert ListsAt(m, conflicts, clashes, c) && x in Yielding(m, clashes, c);
      assert c in multiset(conflicts);
      var i :| 0 <= i < |conflicts| && conflicts[i] == c;
    }
  }

  lemma ListedReads(m: Inputs, conflicts: seq<MergeConflict>, clashes: set<Clash>, c: MergeConflict)
    returns (x: Clash)
    requires Distinct(m.types) && Lists(m, conflicts, clashes) && clashes <= Clashes(m, Incoming(m)) && c in conflicts
    ensures x in clashes && c.fields == [x.field] && ReportsSome(m, c)
  {
    assert ListsAt(m, conflicts, clashes, c) && c in multiset(conflicts);
    assert Yielding(m, clashes, c) != {};
    x :| x in Yielding(m, clashes, c);
    assert x in Clashes(m, Incoming(m));
    ClashReads(m, x.key, x.field);
    var o := OursKey(m, x.key.id).value;
    ConflictReads(m, x, o);
    assert FieldClash(m, x.key, o, x.field) && Reports(m, c, x.key, o, x.field);
  }

  /** Preview reports every clash, and nothing else. */
  lemma PreviewReads(m: Inputs, p: MergePreview)
    requires Distinct(m.types) && Previewed(m, Incoming(m), p.autoResolved, p.conflicts)
    ensures forall c :: c in p.conflicts ==> ReportsSome(m, c)
    ensures forall k, o, f :: FieldClash(m, k, o, f) ==> IsReported(m, p.conflicts, k, o, f)
  {
    ListReads(m, p.conflicts, Clashes(m, Incoming(m)));
    forall k, o, f | FieldClash(m, k, o, f) ensures IsReported(m, p.conflicts, k, o, f) {
      ClashReads(m, k, f);
      assert Clash(k, f) in Clashes(m, Incoming(m));
    }
  }

  lemma {:induction false} EndReads(strategy: MergeStrategy, f: string)
    ensures Effective(strategy, Some(f)) == EndOf(strategy, f)
    decreases strategy
  {
    if strategy.FieldLevel? && f in strategy.fields {
      EndReads(strategy.fields[f], f);
    }
  }

  ghost predicate ManualClash(m: Inputs, strategy: MergeStrategy) {
    exists k, o, f :: FieldClash(m, k, o, f) && EndOf(strategy, f) == Manual
  }

  lemma OpenClashReads(m: Inputs, strategy: MergeStrategy, k: Key, f: string)
    requires Distinct(m.types)
    ensures Clash(k, f) in Unresolved(strategy, Clashes(m, Incoming(m))) <==>
              EndOf(strategy, f) == Manual && exists o :: FieldClash(m, k, o, f)
  {
    ClashReads(m, k, f);
    EndReads(strategy, f);
  }

  lemma RefusalReads(m: Inputs, strategy: MergeStrategy)
    requires Distinct(m.types)
    ensures Unresolved(strategy, Clashes(m, Incoming(m))) != {} <==> ManualClash(m, strategy)
  {
    var open := Unresolved(strategy, Clashes(m, Incoming(m)));
    if open != {} {
      var x :| x in open;
      OpenClashReads(m, strategy, x.key, x.field);
    }
    if ManualClash(m, strategy) {
      var k, o, f :| FieldClash(m, k, o, f) && EndOf(strategy, f) == Manual;
      OpenClashReads(m, strategy, k, f);
    }
  }

  lemma OpenReads(m: Inputs, strategy: MergeStrategy, conflicts: seq<MergeConflict>)
    requires Distinct(m.types) && Lists(m, conflicts, Unresolved(strategy, Clashes(m, Incoming(m))))
    ensures forall c :: c in conflicts ==>
              ReportsSome(m, c) && |c.fields| == 1 && EndOf(strategy, c.fields[0]) == Manual
    ensures forall k, o, f :: FieldClash(m, k, o, f) && EndOf(strategy, f) == Manual ==>
              IsReported(m, conflicts, k, o, f)
  {
    var open := Unresolved(strategy, Clashes(m, Incoming(m)));
    ListReads(m, conflicts, open);
    forall c | c in conflicts ensures |c.fields| == 1 && EndOf(strategy, c.fields[0]) == Manual {
      var x := ListedReads(m, conflicts, open, c);
      EndReads(strategy, x.field);
    }
    forall k, o, f | FieldClash(m, k, o, f) && EndOf(strategy, f) == Manual ensures IsReported(m, conflicts, k, o, f) {
      ClashReads(m, k, f);
      EndReads(strategy, f);
      assert Clash(k, f) in open;
    }
  }

  /** A merge is refused exactly if some clash leads to manual; it then reports those clashes, nothing else, and
      writes nothing. */
  lemma RefusedReads(m: Inputs, strategy: MergeStrategy, r: Result<MergeResult, ApplyError>, after: Database)
    requires Distinct(m.types) && MergeOutcome(m, strategy, r, after)
    ensures (r.Ok? && !r.value.success) <==> ManualClash(m, strategy)
    ensures r.Ok? && !r.value.success ==> after == m.ours && r.value.applied == 0
    ensures r.Ok? && !r.value.success ==> forall c :: c in r.value.conflicts ==>
              ReportsSome(m, c) && |c.fields| == 1 && EndOf(strategy, c.fields[0]) == Manual
    ensures r.Ok? && !r.value.success ==> forall k, o, f :: FieldClash(m, k, o, f) && EndOf(strategy, f) == Manual ==>
              IsReported(m, r.value.conflicts, k, o, f)
  {
    RefusalReads(m, strategy);
    if r.Ok? && !r.value.success {
      OpenReads(m, strategy, r.value.conflicts);
    }
  }

  // ── Written rows ──

  /** Theirs changed the row, and ours did not change the identifier anywhere or lost a clash on it. */
  ghost predicate Taken(m: Inputs, strategy: MergeStrategy, k: Key) {
    && k.kind in m.types && Changed(m.base, m.theirs, k)
    && (HasCounterpart(m, k.id) ==> exists o, f :: FieldClash(m, k, o, f) && EndOf(strategy, f) == Theirs)
  }

  /** Erased with theirs, or the identifier and the columns theirs changed, and null elsewhere. */
  ghost predicate WrittenFromTheirs(m: Inputs, after: Database, k: Key) {
    if k !in m.theirs.rows then k !in after.rows
    else
      && k in after.rows && k.kind in m.ours.schema && after.rows[k].Keys == m.ours.schema[k.kind]
      && Value(after, k, "id") == Str(k.id)
      && forall f {:trigger Value(after, k, f)} :: f != "id" ==>
           Value(after, k, f) == if FieldChanged(m.base, m.theirs, k, f) then Value(m.theirs, k, f) else Null
  }

  /** The table of the row is missing from ours, or lacks a column theirs changed. */
  ghost predicate DoesNotFit(m: Inputs, k: Key) {
    k.kind !in m.ours.schema
    || exists f :: FieldChanged(m.base, m.theirs, k, f) && f !in m.ours.schema[k.kind]
  }

  lemma TakenReads(m: Inputs, strategy: MergeStrategy, k: Key)
    requires Distinct(m.types)
    ensures Taken(m, strategy, k) <==> Plan(m, strategy, k) != Nothing
    ensures Taken(m, strategy, k) ==>
              Plan(m, strategy, k) == if k in m.theirs.rows then Put(IncomingRow(m, k)) else Erase
  {
    ChangedReads(m, m.theirs, k);
    CounterpartReads(m, k.id);
    if k in Incoming(m) && TakesTheirs(m, strategy, k) {
      var f :| f in ClashesOf(m, k) && Decision(strategy, Clash(k, f)) == Theirs;
      ClashReads(m, k, f);
      EndReads(strategy, f);
      assert f in ChangedFields(m.base, m.theirs, k);
    }
    if exists o, f :: FieldClash(m, k, o, f) && EndOf(strategy, f) == Theirs {
      var o, f :| FieldClash(m, k, o, f) && EndOf(strategy, f) == Theirs;
      ClashReads(m, k, f);
      EndReads(strategy, f);
    }
  }

  lemma FitReads(m: Inputs, strategy: MergeStrategy, k: Key)
    requires InputsOk(m) && Taken(m, strategy, k)
    ensures Fits(m.ours.schema, k, Plan(m, strategy, k)) <==> !DoesNotFit(m, k)
  {
    TakenReads(m, strategy, k);
    if k in m.theirs.rows {
      forall f ensures f in IncomingRow(m, k) <==> f == "id" || FieldChanged(m.base, m.theirs, k, f) {
        FieldReads(m.base, m.theirs, k, f);
      }
    }
  }

  lemma WrittenReads(m: Inputs, strategy: MergeStrategy, after: Database, k: Key)
    requires InputsOk(m) && IsMerged(m, strategy, after) && CanWrite(m, strategy)
    ensures if Taken(m, strategy, k) then WrittenFromTheirs(m, after, k) else after.RowAt(k) == m.ours.RowAt(k)
  {
    TakenReads(m, strategy, k);
    assert MergedRow(m, strategy, after, k);
    if Taken(m, strategy, k) && k in m.theirs.rows {
      assert Fits(m.ours.schema, k, Plan(m, strategy, k));
      forall f | f != "id"
        ensures Value(after, k, f) == if FieldChanged(m.base, m.theirs, k, f) then Value(m.theirs, k, f) else Null
      {
        FieldReads(m.base, m.theirs, k, f);
      }
    }
  }

  /** A merge that is not refused fails exactly if a row to be written does not fit ours, and then writes nothing;
      otherwise every row is as it was or as written from theirs. */
  lemma MergedReads(m: Inputs, strategy: MergeStrategy, r: Result<MergeResult, ApplyError>, after: Database)
    requires InputsOk(m) && MergeOutcome(m, strategy, r, after) && !ManualClash(m, strategy)
    ensures r.Err? <==> exists k :: Taken(m, strategy, k) && DoesNotFit(m, k)
    ensures r.Err? ==> r == Err(SqlError) && after == m.ours
    ensures r.Ok? ==> r.value.success && r.value.conflicts == [] && after.schema == m.ours.schema
    ensures r.Ok? ==> forall k :: if Taken(m, strategy, k) then WrittenFromTheirs(m, after, k)
                                  else after.RowAt(k) == m.ours.RowAt(k)
  {
    RefusalReads(m, strategy);
    forall k ensures Taken(m, strategy, k) ==> k in Incoming(m) && (Fits(m.ours.schema, k, Plan(m, strategy, k)) <==>
                     !DoesNotFit(m, k))
    {
      TakenReads(m, strategy, k);
      if Taken(m, strategy, k) { FitReads(m, strategy, k); }
    }
    forall k | k in Incoming(m) ensures Plan(m, strategy, k) != Nothing ==> Taken(m, strategy, k) {
      TakenReads(m, strategy, k);
    }
    if r.Ok? {
      forall k ensures if Taken(m, strategy, k) then WrittenFromTheirs(m, after, k)
                       else after.RowAt(k) == m.ours.RowAt(k)
      {
        WrittenReads(m, strategy, after, k);
      }
    }
  }

  // ── Counts ──

  /** k is a row theirs changed that ours has no counterpart for. */
  ghost predicate OnlyTheirs(m: Inputs, k: Key) {
    k.kind in m.types && Changed(m.base, m.theirs, k) && !HasCounterpart(m, k.id)
  }

  ghost predicate ClashOf(m: Inputs, x: (Key, string)) {
    exists o :: FieldClash(m, x.0, o, x.1)
  }

  lemma ClashPairs(m: Inputs, pairs: set<(Key, string)>, clashes: set<Clash>)
    requires forall k, f :: (k, f) in pairs <==> Clash(k, f) in clashes
    ensures |pairs| == |clashes|
    decreases |pairs|
  {
    if pairs == {} {
      forall x: Clash ensures x !in clashes {
        assert (x.key, x.field) in pairs <==> Clash(x.key, x.field) in clashes;
      }
    } else {
      var p :| p in pairs;
      assert Clash(p.0, p.1) in clashes;
      ClashPairs(m, pairs - {p}, clashes - {Clash(p.0, p.1)});
    }
  }

  /** A merge that goes through counts the rows only theirs changed and the clashes given to theirs or the union. */
  lemma AppliedReads(m: Inputs, strategy: MergeStrategy, r: Result<MergeResult, ApplyError>, after: Database,
                     alone: set<Key>, given: set<(Key, string)>)
    requires Distinct(m.types) && MergeOutcome(m, strategy, r, after) && r.Ok? && r.value.success
    requires forall k :: k in alone <==> OnlyTheirs(m, k)
    requires forall k, f :: (k, f) in given <==> ClashOf(m, (k, f)) && EndOf(strategy, f) in {Theirs, Union}
    ensures r.value.applied == |alone| + |given|
  {
    forall k ensures k in TheirsOnly(m, Incoming(m)) <==> k in alone {
      ChangedReads(m, m.theirs, k);
      CounterpartReads(m, k.id);
    }
    assert TheirsOnly(m, Incoming(m)) == alone;
    var counted := CountedClashes(strategy, Clashes(m, Incoming(m)));
    forall k, f ensures (k, f) in given <==> Clash(k, f) in counted {
      ClashReads(m, k, f);
      EndReads(strategy, f);
    }
    ClashPairs(m, given, counted);
  }

  /** Preview counts the rows theirs changed without a clash, and two milliseconds for each of these and each clash. */
  lemma PreviewCounts(m: Inputs, p: MergePreview, free: set<Key>, clashing: set<(Key, string)>)
    requires Distinct(m.types) && Previewed(m, Incoming(m), p.autoResolved, p.conflicts)
    requires forall k :: k in free <==>
               k.kind in m.types && Changed(m.base, m.theirs, k) && !exists o, f :: FieldClash(m, k, o, f)
    requires forall k, f :: (k, f) in clashing <==> ClashOf(m, (k, f))
    ensures p.autoResolved == |free| && |p.conflicts| == |clashing|
  {
    var clashes := Clashes(m, Incoming(m));
    forall k ensures k in free <==> k in ClashFree(m, Incoming(m)) {
      ChangedReads(m, m.theirs, k);
      if k in Incoming(m) && ClashesOf(m, k) != {} {
        var f :| f in ClashesOf(m, k);
        ClashReads(m, k, f);
      }
      if exists o, f :: FieldClash(m, k, o, f) {
        var o, f :| FieldClash(m, k, o, f);
        ClashReads(m, k, f);
      }
    }
    assert free == ClashFree(m, Incoming(m));
    forall k, f ensures (k, f) in clashing <==> Clash(k, f) in clashes {
      ClashReads(m, k, f);
    }
    ClashPairs(m, clashing, clashes);
    ListsLength(m, p.conflicts, clashes);
  }
}
