/** Merging the same branches a second time. */
module RepeatedMerge {
  import opened Wrappers
  import opened Paths
  import opened JsonValues
  import opened BranchData
  import opened BranchDiff
  import opened ConflictResolution
  import opened MergeApplication
  import opened ThreeWayMerge
  import opened BranchMerge

  /** The same merge with the result of the first one as ours. */
  ghost function Again(m: Inputs, after: Database): Inputs {
    m.(ours := after)
  }

  ghost predicate Succeeded(r: Result<MergeResult, ApplyError>) {
    r.Ok? && r.value.success
  }

  /** Row k was left to ours the first time; the second time a clash gives it to theirs, and that changes it. */
  ghost predicate Retaken(m: Inputs, strategy: MergeStrategy, after: Database, k: Key) {
    && k in Incoming(m) && Plan(m, strategy, k) == Nothing && TakesTheirs(Again(m, after), strategy, k)
    && (k.kind in m.ours.schema ==>
        m.ours.RowAt(k) != Some(FullRow(m.ours.schema[k.kind], k.id, IncomingRow(m, k))))
  }

  lemma SucceededMerge(m: Inputs, strategy: MergeStrategy, r: Result<MergeResult, ApplyError>, after: Database)
    requires MergeOutcome(m, strategy, r, after) && Succeeded(r)
    ensures IsMerged(m, strategy, after) && CanWrite(m, strategy)
    ensures forall k, f :: k in Incoming(m) && f in ClashesOf(m, k) ==> Decision(strategy, Clash(k, f)) != Manual
  {
    forall k, f | k in Incoming(m) && f in ClashesOf(m, k) ensures Decision(strategy, Clash(k, f)) != Manual {
      assert Clash(k, f) in Clashes(m, Incoming(m));
      assert Clash(k, f) !in Unresolved(strategy, Clashes(m, Incoming(m)));
    }
  }

  lemma KeptRow(m: Inputs, strategy: MergeStrategy, after: Database, k: Key)
    requires IsMerged(m, strategy, after) && Plan(m, strategy, k) == Nothing
    ensures after.RowAt(k) == m.ours.RowAt(k)
  {
    assert MergedRow(m, strategy, after, k);
  }

  /** The clash that gave a row to theirs is about a column of a row both sides have. */
  lemma TakenRow(m: Inputs, strategy: MergeStrategy, k: Key)
    requires TakesTheirs(m, strategy, k)
    ensures k in m.base.rows && k in m.theirs.rows
  {
    var f :| f in ClashesOf(m, k) && Decision(strategy, Clash(k, f)) == Theirs;
    assert f in ChangedFields(m.base, m.theirs, k);
  }

  /** After the merge every changed field of a row written from theirs has the value of theirs. */
  lemma WrittenField(m: Inputs, strategy: MergeStrategy, after: Database, k: Key, f: string)
    requires InputsOk(m) && IsMerged(m, strategy, after) && CanWrite(m, strategy) && Plan(m, strategy, k) != Nothing
    requires f in ChangedFields(m.base, m.theirs, k)
    ensures k in after.rows && Cell(after.rows[k], f) == Cell(m.theirs.rows[k], f) != Cell(m.base.rows[k], f)
  {
    WrittenRow(m, strategy, after, k);
    assert RowOk(k, m.base.rows[k], m.base.schema[k.kind]) && RowOk(k, m.theirs.rows[k], m.theirs.schema[k.kind]);
    assert f in IncomingRow(m, k);
  }

  lemma DifferingField(m: Inputs, k: Key) returns (f: string)
    requires k in Incoming(m) && k in m.base.rows && k in m.theirs.rows
    ensures f in ChangedFields(m.base, m.theirs, k)
  {
    f :| Differs(m.base.rows[k], m.theirs.rows[k], f);
  }

  lemma DifferenceIsChange(m: Inputs, side: Database, k: Key, f: string)
    requires k.kind in m.types && k in m.base.rows && k in side.rows && Differs(m.base.rows[k], side.rows[k], f)
    ensures ChangedIn(m, side, k)
  {
  }

  /** A row the merge wrote differs from base. */
  lemma WrittenIsChanged(m: Inputs, strategy: MergeStrategy, after: Database, k: Key)
    requires InputsOk(m) && IsMerged(m, strategy, after) && CanWrite(m, strategy) && Plan(m, strategy, k) != Nothing
    ensures ChangedIn(Again(m, after), after, k)
  {
    if k in m.base.rows && k in m.theirs.rows {
      var f := DifferingField(m, k);
      WrittenField(m, strategy, after, k, f);
      DifferenceIsChange(Again(m, after), after, k, f);
    } else {
      WrittenRow(m, strategy, after, k);
    }
  }

  /** The entity an identifier is matched with has changed on our side; there is one as soon as any has. */
  lemma MatchedKey(m: Inputs, k: Key)
    ensures OursKey(m, k.id).Some? ==> OursKey(m, k.id).value.id == k.id && ChangedIn(m, m.ours, OursKey(m, k.id).value)
    ensures ChangedIn(m, m.ours, k) ==> OursKey(m, k.id).Some?
  {
    var p := LatestChangeIndex(m, k.id, |m.types|);
    if ChangedIn(m, m.ours, k) {
      var q :| 0 <= q < |m.types| && m.types[q] == k.kind;
      assert k == Key(m.types[q], k.id);
    }
  }

  /** The second time every entity theirs changed is matched with one of ours. */
  lemma MatchedAgain(m: Inputs, strategy: MergeStrategy, after: Database, k: Key)
    requires InputsOk(m) && IsMerged(m, strategy, after) && CanWrite(m, strategy) && k in Incoming(m)
    ensures OursKey(Again(m, after), k.id).Some?
  {
    var again := Again(m, after);
    if Plan(m, strategy, k) != Nothing {
      WrittenIsChanged(m, strategy, after, k);
      MatchedKey(again, k);
    } else {
      MatchedKey(m, k);
      var o := OursKey(m, k.id).value;
      if Plan(m, strategy, o) != Nothing {
        WrittenIsChanged(m, strategy, after, o);
      } else {
        KeptRow(m, strategy, after, o);
      }
      MatchedKey(again, o);
    }
  }

  /** The second merge writes nothing but rows that a clash gives to theirs, and what it writes is what the first one
      would have written. */
  lemma PlanAgain(m: Inputs, strategy: MergeStrategy, after: Database, k: Key)
    requires InputsOk(m) && IsMerged(m, strategy, after) && CanWrite(m, strategy)
    ensures var again := Again(m, after);
      && Plan(again, strategy, k) ==
         (if k in Incoming(m) && TakesTheirs(again, strategy, k) then Put(IncomingRow(m, k)) else Nothing)
      && (Plan(m, strategy, k) != Nothing ==> Plan(again, strategy, k) in {Nothing, Plan(m, strategy, k)})
  {
    var again := Again(m, after);
    assert Incoming(again) == Incoming(m);
    if k in Incoming(m) {
      MatchedAgain(m, strategy, after, k);
      if TakesTheirs(again, strategy, k) { TakenRow(again, strategy, k); }
      if TakesTheirs(m, strategy, k) { TakenRow(m, strategy, k); }
    }
  }

  /** After the second merge a row is as before it, or was taken again and is now what theirs writes. */
  lemma RowAgain(m: Inputs, strategy: MergeStrategy, after: Database, twice: Database, k: Key)
    requires InputsOk(m) && IsMerged(m, strategy, after) && CanWrite(m, strategy)
    requires IsMerged(Again(m, after), strategy, twice) && CanWrite(Again(m, after), strategy)
    ensures twice.RowAt(k) == after.RowAt(k) <==> !Retaken(m, strategy, after, k)
  {
    var again := Again(m, after);
    PlanAgain(m, strategy, after, k);
    assert Incoming(again) == Incoming(m);
    assert MergedRow(m, strategy, after, k) && MergedRow(again, strategy, twice, k);
    assert k in Incoming(m) ==> Fits(after.schema, k, Plan(again, strategy, k));
    assert k in Incoming(m) ==> Fits(m.ours.schema, k, Plan(m, strategy, k));
  }

  lemma SameRowsSameDatabase(a: Database, b: Database)
    requires a.schema == b.schema && forall k :: a.RowAt(k) == b.RowAt(k)
    ensures a == b
  {
    forall k ensures k in a.rows <==> k in b.rows {
      assert a.RowAt(k) == b.RowAt(k);
    }
    forall k | k in a.rows ensures a.rows[k] == b.rows[k] {
      assert a.RowAt(k) == b.RowAt(k);
    }
    assert a.rows == b.rows;
  }

  /** Merging again after a merge that went through leaves the database alone exactly when the second merge stops
      before writing, or retakes no row: gives none to theirs that the first one had left to ours and that differs. */
  lemma MergeAgain(m: Inputs, strategy: MergeStrategy, r: Result<MergeResult, ApplyError>, after: Database,
                   r': Result<MergeResult, ApplyError>, twice: Database)
    requires InputsOk(m) && MergeOutcome(m, strategy, r, after) && Succeeded(r)
    requires MergeOutcome(Again(m, after), strategy, r', twice)
    ensures twice == after <==> !Succeeded(r') || forall k :: !Retaken(m, strategy, after, k)
  {
    SucceededMerge(m, strategy, r, after);
    if Succeeded(r') {
      SucceededMerge(Again(m, after), strategy, r', twice);
      forall k ensures twice.RowAt(k) == after.RowAt(k) <==> !Retaken(m, strategy, after, k) {
        RowAgain(m, strategy, after, twice, k);
      }
      if forall k :: !Retaken(m, strategy, after, k) {
        SameRowsSameDatabase(twice, after);
      }
    }
  }

  // ── One table for each identifier ──

  /** Neither side changes an identifier in two tables. */
  ghost predicate OneTable(m: Inputs) {
    forall a, b :: Touches(m, a) && Touches(m, b) && a.id == b.id ==> a == b
  }

  ghost predicate Touches(m: Inputs, k: Key) {
    ChangedIn(m, m.ours, k) || k in Incoming(m)
  }

  /** Then every entity is matched with itself, the first time and the second time. */
  lemma MatchedWithItself(m: Inputs, strategy: MergeStrategy, after: Database, k: Key)
    requires InputsOk(m) && OneTable(m) && IsMerged(m, strategy, after) && CanWrite(m, strategy) && k in Incoming(m)
    ensures OursKey(m, k.id) in {None, Some(k)} && OursKey(Again(m, after), k.id) == Some(k)
  {
    MatchedKey(m, k);
    assert Touches(m, k);
    assert OursKey(m, k.id).Some? ==> Touches(m, OursKey(m, k.id).value);
    MatchedAgain(m, strategy, after, k);
    MatchedKey(Again(m, after), k);
    var o := OursKey(Again(m, after), k.id).value;
    if Plan(m, strategy, o) == Nothing {
      KeptRow(m, strategy, after, o);
      assert ChangedIn(m, m.ours, o);
    }
    assert Touches(m, o);
  }

  lemma ItsOwnClashes(m: Inputs, k: Key)
    requires OursKey(m, k.id) == Some(k)
    ensures ClashesOf(m, k) == ClashFields(ChangedFields(m.base, m.ours, k), ChangedFields(m.base, m.theirs, k))
  {
  }

  lemma SameChangedFields(a: Database, b: Database, c: Database, k: Key)
    requires b.RowAt(k) == c.RowAt(k)
    ensures ChangedFields(a, b, k) == ChangedFields(a, c, k)
  {
  }

  lemma WrittenNoClash(m: Inputs, strategy: MergeStrategy, after: Database, k: Key)
    requires InputsOk(m) && IsMerged(m, strategy, after) && CanWrite(m, strategy) && Plan(m, strategy, k) != Nothing
    ensures ClashFields(ChangedFields(m.base, after, k), ChangedFields(m.base, m.theirs, k)) == {}
  {
    var mine, incoming := ChangedFields(m.base, after, k), ChangedFields(m.base, m.theirs, k);
    forall f | f in mine && f in incoming ensures mine[f] == incoming[f] {
      WrittenField(m, strategy, after, k, f);
    }
  }

  /** So what clashed the first time clashes again, unless it was written. */
  lemma ClashesAgain(m: Inputs, strategy: MergeStrategy, after: Database, k: Key)
    requires InputsOk(m) && OneTable(m) && IsMerged(m, strategy, after) && CanWrite(m, strategy) && k in Incoming(m)
    ensures ClashesOf(Again(m, after), k) == if Plan(m, strategy, k) == Nothing then ClashesOf(m, k) else {}
  {
    MatchedWithItself(m, strategy, after, k);
    ItsOwnClashes(Again(m, after), k);
    if Plan(m, strategy, k) == Nothing {
      KeptRow(m, strategy, after, k);
      SameChangedFields(m.base, after, m.ours, k);
      ItsOwnClashes(m, k);
    } else {
      WrittenNoClash(m, strategy, after, k);
    }
  }

  lemma NothingAgain(m: Inputs, strategy: MergeStrategy, r: Result<MergeResult, ApplyError>, after: Database, k: Key)
    requires InputsOk(m) && OneTable(m) && MergeOutcome(m, strategy, r, after) && Succeeded(r) && k in Incoming(m)
    ensures !TakesTheirs(Again(m, after), strategy, k) && Plan(Again(m, after), strategy, k) == Nothing
    ensures forall f :: f in ClashesOf(Again(m, after), k) ==> Decision(strategy, Clash(k, f)) != Manual
  {
    SucceededMerge(m, strategy, r, after);
    ClashesAgain(m, strategy, after, k);
    PlanAgain(m, strategy, after, k);
    assert Plan(m, strategy, k) == Nothing ==> !TakesTheirs(m, strategy, k);
  }

  lemma SecondSucceeds(m: Inputs, strategy: MergeStrategy, r: Result<MergeResult, ApplyError>, after: Database)
    requires MergeOutcome(m, strategy, r, after)
    requires forall k :: k in Incoming(m) ==> Plan(m, strategy, k) == Nothing
    requires forall k, f :: k in Incoming(m) && f in ClashesOf(m, k) ==> Decision(strategy, Clash(k, f)) != Manual
    ensures Succeeded(r)
  {
    assert Unresolved(strategy, Clashes(m, Incoming(m))) == {};
  }

  /** When no identifier is changed in two tables, merging again succeeds and changes nothing. */
  lemma MergeAgainSettles(m: Inputs, strategy: MergeStrategy, r: Result<MergeResult, ApplyError>, after: Database,
                          r': Result<MergeResult, ApplyError>, twice: Database)
    requires InputsOk(m) && OneTable(m) && MergeOutcome(m, strategy, r, after) && Succeeded(r)
    requires MergeOutcome(Again(m, after), strategy, r', twice)
    ensures Succeeded(r') && twice == after
  {
    var again := Again(m, after);
    assert Incoming(again) == Incoming(m);
    forall k | k in Incoming(again)
      ensures Plan(again, strategy, k) == Nothing && !TakesTheirs(again, strategy, k)
      ensures forall f :: f in ClashesOf(again, k) ==> Decision(strategy, Clash(k, f)) != Manual
    {
      NothingAgain(m, strategy, r, after, k);
    }
    SecondSucceeds(again, strategy, r', twice);
    MergeAgain(m, strategy, r, after, r', twice);
  }

  // ── A row taken the second time ──

  const RECORD_X := Key(MemoryRecord, "x")
  const SESSION_X := Key(Session, "x")
  const COLUMNS: set<string> := {ID_COLUMN, "a", "c"}

  ghost predicate HoldsAt(row: Row, a: Json, c: Json, f: string) {
    && (f in row <==> f in COLUMNS)
    && (f in row ==> row[f] == if f == "a" then a else if f == "c" then c else Str("x"))
  }

  /** The row has the identifier x and the values a and c. */
  ghost predicate Holds(row: Row, a: Json, c: Json) {
    forall f {:trigger HoldsAt(row, a, c, f)} :: HoldsAt(row, a, c, f)
  }

  /** The database has just a record x and a session x. */
  ghost predicate TwoRows(db: Database, a: Json, c: Json, a': Json, c': Json) {
    && db.rows.Keys == {RECORD_X, SESSION_X} && db.schema == map[MemoryRecord := COLUMNS, Session := COLUMNS]
    && Holds(db.rows[RECORD_X], a, c) && Holds(db.rows[SESSION_X], a', c')
  }

  lemma HoldsDiffer(x: Database, y: Database, k: Key, a: Json, c: Json, a': Json, c': Json)
    requires k in x.rows && k in y.rows && Holds(x.rows[k], a, c) && Holds(y.rows[k], a', c')
    ensures SameRow(x.rows[k], y.rows[k]) <==> a == a' && c == c'
    ensures ChangedFields(x, y, k).Keys == (if a == a' then {} else {"a"}) + (if c == c' then {} else {"c"})
    ensures a != a' ==> ChangedFields(x, y, k)["a"] == a'
    ensures c != c' ==> ChangedFields(x, y, k)["c"] == c'
  {
    forall f
      ensures Differs(x.rows[k], y.rows[k], f) <==> (f == "a" && a != a') || (f == "c" && c != c')
      ensures f in ChangedFields(x, y, k) <==> Differs(x.rows[k], y.rows[k], f)
    {
      assert HoldsAt(x.rows[k], a, c, f) && HoldsAt(y.rows[k], a', c', f);
    }
    assert HoldsAt(y.rows[k], a', c', "a") && HoldsAt(y.rows[k], a', c', "c");
    assert Differs(x.rows[k], y.rows[k], "a") <==> a != a';
    assert Differs(x.rows[k], y.rows[k], "c") <==> c != c';
  }

  /** A merge under Theirs where one entity clashes in one field and the other in none writes that entity. */
  lemma OneTaken(m: Inputs, k: Key, other: Key, f: string, after: Database)
    requires Incoming(m) == {k, other} && k.id == other.id && OursKey(m, k.id).Some?
    requires ClashesOf(m, k) == {f} && ClashesOf(m, other) == {}
    requires k.kind in m.ours.schema && IncomingRow(m, k).Keys <= m.ours.schema[k.kind]
    requires after == m.ours.(rows := m.ours.rows[k := FullRow(m.ours.schema[k.kind], k.id, IncomingRow(m, k))])
    ensures MergeOutcome(m, Theirs, Ok(MergeResult(1, [], true)), after)
  {
    var x := Clash(k, f);
    assert Clashes(m, Incoming(m)) == {x};
    OneClash(x);
    assert TheirsOnly(m, Incoming(m)) == {};
    OnePlanned(m, k, other, f);
    OneWritten(m, k, after);
  }

  lemma OneWritten(m: Inputs, k: Key, after: Database)
    requires forall i :: Plan(m, Theirs, i) == if i == k then Put(IncomingRow(m, k)) else Nothing
    requires k.kind in m.ours.schema && IncomingRow(m, k).Keys <= m.ours.schema[k.kind]
    requires after == m.ours.(rows := m.ours.rows[k := FullRow(m.ours.schema[k.kind], k.id, IncomingRow(m, k))])
    ensures CanWrite(m, Theirs) && IsMerged(m, Theirs, after)
  {
    forall i ensures MergedRow(m, Theirs, after, i) {
      assert Plan(m, Theirs, i) == if i == k then Put(IncomingRow(m, k)) else Nothing;
    }
  }

  lemma OneClash(x: Clash)
    ensures Unresolved(Theirs, {x}) == {} && CountedClashes(Theirs, {x}) == {x} && Decision(Theirs, x) == Theirs
  {
  }

  lemma OnePlanned(m: Inputs, k: Key, other: Key, f: string)
    requires Incoming(m) == {k, other} && k.id == other.id && OursKey(m, k.id).Some?
    requires ClashesOf(m, k) == {f} && ClashesOf(m, other) == {}
    ensures forall i :: Plan(m, Theirs, i) == if i == k then Put(IncomingRow(m, k)) else Nothing
  {
    OneClash(Clash(k, f));
    assert f in ClashesOf(m, k) && TakesTheirs(m, Theirs, k);
  }

  /** Ours changes a of record x, and perhaps session x; theirs changes c of record x, and a and c of session x. */
  ghost predicate Crossing(m: Inputs, z: Json, a: Json, c: Json, a': Json, c': Json, again: bool) {
    && m.types == ALL_TYPES && TwoRows(m.base, z, z, z, z) && TwoRows(m.theirs, z, c, a', c')
    && (if again then TwoRows(m.ours, a, z, a', c') else TwoRows(m.ours, a, z, z, z))
    && a != z && c != z && a' != z && c' != z && a != a' && c != c'
  }

  lemma OursChanged(m: Inputs, z: Json, a: Json, c: Json, a': Json, c': Json, again: bool)
    requires Crossing(m, z, a, c, a', c', again)
    ensures ChangedIn(m, m.ours, RECORD_X) && (ChangedIn(m, m.ours, SESSION_X) <==> again)
    ensures !ChangedIn(m, m.ours, Key(ToolOutput, "x"))
  {
    HoldsDiffer(m.base, m.ours, RECORD_X, z, z, a, z);
    HoldsDiffer(m.base, m.ours, SESSION_X, z, z, if again then a' else z, if again then c' else z);
    assert ALL_TYPES[0] == MemoryRecord && ALL_TYPES[1] == Session;
  }

  /** The identifier x is matched with the record first, and with the session once that was written. */
  lemma CrossingMatch(m: Inputs, z: Json, a: Json, c: Json, a': Json, c': Json, again: bool)
    requires Crossing(m, z, a, c, a', c', again)
    ensures OursKey(m, "x") == Some(if again then SESSION_X else RECORD_X)
  {
    OursChanged(m, z, a, c, a', c', again);
    var p := LatestChangeIndex(m, "x", |ALL_TYPES|);
    assert ALL_TYPES == [MemoryRecord, Session, ToolOutput];
  }

  lemma CrossingIncoming(m: Inputs, z: Json, a: Json, c: Json, a': Json, c': Json, again: bool)
    requires Crossing(m, z, a, c, a', c', again)
    ensures Incoming(m) == {RECORD_X, SESSION_X}
  {
    HoldsDiffer(m.base, m.theirs, RECORD_X, z, z, z, c);
    HoldsDiffer(m.base, m.theirs, SESSION_X, z, z, a', c');
    assert ALL_TYPES[0] == MemoryRecord && ALL_TYPES[1] == Session;
    assert ChangedIn(m, m.theirs, RECORD_X) && ChangedIn(m, m.theirs, SESSION_X);
  }

  lemma CrossingClashes(m: Inputs, z: Json, a: Json, c: Json, a': Json, c': Json, again: bool)
    requires Crossing(m, z, a, c, a', c', again)
    ensures ClashesOf(m, RECORD_X) == if again then {"c"} else {}
    ensures ClashesOf(m, SESSION_X) == if again then {} else {"a"}
  {
    CrossingMatch(m, z, a, c, a', c', again);
    HoldsDiffer(m.base, m.theirs, RECORD_X, z, z, z, c);
    HoldsDiffer(m.base, m.theirs, SESSION_X, z, z, a', c');
    if again {
      HoldsDiffer(m.base, m.ours, SESSION_X, z, z, a', c');
    } else {
      HoldsDiffer(m.base, m.ours, RECORD_X, z, z, a, z);
    }
  }

  /** What the two writes store: record x loses its a. */
  lemma CrossingRows(m: Inputs, z: Json, a: Json, c: Json, a': Json, c': Json, again: bool)
    requires Crossing(m, z, a, c, a', c', again)
    ensures IncomingRow(m, RECORD_X).Keys <= COLUMNS && IncomingRow(m, SESSION_X).Keys <= COLUMNS
    ensures Holds(FullRow(COLUMNS, "x", IncomingRow(m, RECORD_X)), Null, c)
    ensures Holds(FullRow(COLUMNS, "x", IncomingRow(m, SESSION_X)), a', c')
  {
    HoldsDiffer(m.base, m.theirs, RECORD_X, z, z, z, c);
    HoldsDiffer(m.base, m.theirs, SESSION_X, z, z, a', c');
    forall f
      ensures HoldsAt(FullRow(COLUMNS, "x", IncomingRow(m, RECORD_X)), Null, c, f)
      ensures HoldsAt(FullRow(COLUMNS, "x", IncomingRow(m, SESSION_X)), a', c', f)
    {
      assert f in IncomingRow(m, RECORD_X) <==> f == ID_COLUMN || f == "c";
      assert f in IncomingRow(m, SESSION_X) <==> f == ID_COLUMN || f == "a" || f == "c";
    }
  }

  lemma CrossingFacts(m: Inputs, z: Json, a: Json, c: Json, a': Json, c': Json, again: bool, k: Key, other: Key,
                      f: string)
    requires Crossing(m, z, a, c, a', c', again)
    requires (k, other, f) == if again then (RECORD_X, SESSION_X, "c") else (SESSION_X, RECORD_X, "a")
    ensures Incoming(m) == {k, other} && k.id == other.id == "x" && OursKey(m, "x").Some?
    ensures ClashesOf(m, k) == {f} && ClashesOf(m, other) == {}
    ensures k.kind in m.ours.schema && m.ours.schema[k.kind] == COLUMNS && IncomingRow(m, k).Keys <= COLUMNS
  {
    CrossingMatch(m, z, a, c, a', c', again);
    CrossingIncoming(m, z, a, c, a', c', again);
    CrossingClashes(m, z, a, c, a', c', again);
    CrossingRows(m, z, a, c, a', c', again);
  }

  lemma CrossingAfter(m: Inputs, z: Json, a: Json, c: Json, a': Json, c': Json, again: bool, k: Key, after: Database)
    requires Crossing(m, z, a, c, a', c', again) && k == (if again then RECORD_X else SESSION_X)
    requires after == m.ours.(rows := m.ours.rows[k := FullRow(COLUMNS, "x", IncomingRow(m, k))])
    ensures if again then TwoRows(after, Null, c, a', c') else TwoRows(after, a, z, a', c')
  {
    CrossingRows(m, z, a, c, a', c', again);
  }

  /** The first merge takes the session, the second one the record. */
  lemma CrossingMerge(m: Inputs, z: Json, a: Json, c: Json, a': Json, c': Json, again: bool) returns (after: Database)
    requires Crossing(m, z, a, c, a', c', again)
    ensures MergeOutcome(m, Theirs, Ok(MergeResult(1, [], true)), after)
    ensures if again then TwoRows(after, Null, c, a', c') else TwoRows(after, a, z, a', c')
  {
    var (k, other, f) := if again then (RECORD_X, SESSION_X, "c") else (SESSION_X, RECORD_X, "a");
    after := m.ours.(rows := m.ours.rows[k := FullRow(COLUMNS, "x", IncomingRow(m, k))]);
    CrossingFacts(m, z, a, c, a', c', again, k, other, f);
    CrossingAfter(m, z, a, c, a', c', again, k, after);
    OneTaken(m, k, other, f, after);
  }

  lemma SomeRows(a: Json, c: Json, a': Json, c': Json) returns (db: Database)
    requires IsCell(a) && IsCell(c) && IsCell(a') && IsCell(c')
    ensures db.Wf() && TwoRows(db, a, c, a', c')
  {
    var record, session := map[ID_COLUMN := Str("x"), "a" := a, "c" := c],
        map[ID_COLUMN := Str("x"), "a" := a', "c" := c'];
    forall f ensures HoldsAt(record, a, c, f) && HoldsAt(session, a', c', f) { }
    db := Database(map[MemoryRecord := COLUMNS, Session := COLUMNS], map[RECORD_X := record, SESSION_X := session]);
  }

  lemma CrossingInputs(z: Json, a: Json, c: Json, a': Json, c': Json) returns (m: Inputs)
    requires IsCell(z) && IsCell(a) && IsCell(c) && IsCell(a') && IsCell(c')
    requires a != z && c != z && a' != z && c' != z && a != a' && c != c'
    ensures InputsOk(m) && Crossing(m, z, a, c, a', c', false)
  {
    AllTypesDistinct();
    var base := SomeRows(z, z, z, z);
    var ours := SomeRows(a, z, z, z);
    var theirs := SomeRows(z, c, a', c');
    m := Inputs(base, ours, theirs, ALL_TYPES);
  }

  /** A first merge leaves record x to ours and takes session x; a second one then takes record x too, and the value
      ours gave it is lost. */
  lemma TakenSecondTime() returns (m: Inputs, after: Database, twice: Database)
    ensures InputsOk(m)
    ensures MergeOutcome(m, Theirs, Ok(MergeResult(1, [], true)), after)
    ensures MergeOutcome(Again(m, after), Theirs, Ok(MergeResult(1, [], true)), twice)
    ensures TwoRows(after, Str("1"), Str("0"), Str("3"), Str("4")) && TwoRows(twice, Null, Str("2"), Str("3"), Str("4"))
  {
    var z, a, c, a', c' := Str("0"), Str("1"), Str("2"), Str("3"), Str("4");
    m := CrossingInputs(z, a, c, a', c');
    after := CrossingMerge(m, z, a, c, a', c', false);
    twice := CrossingMerge(Again(m, after), z, a, c, a', c', true);
  }
}