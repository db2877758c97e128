/** Writing a batch of resolved changes into a branch database, in one transaction. */
module MergeApplication {
  import opened Wrappers
  import opened JsonValues
  import opened BranchData
  import opened BranchDiff
  import opened ConflictResolution

  datatype Change = Change(diff: EntityDiff, resolved: Resolved)

  datatype ApplyError = MergeConflictUnresolved(id: string) | SqlError

  /** What one change asks of the row of its entity. */
  datatype Effect = Nothing | Put(obj: Row) | Erase

  function ValueEffect(diff: EntityDiff, value: Json): Effect {
    if diff.diffKind == Removed then Erase
    else if value.Obj? then Put(value.fields)
    else Nothing
  }

  function EffectOf(c: Change): Effect {
    match c.resolved
    case UseOurs => Nothing
    case Escalate => Nothing
    case UseTheirs => ValueEffect(c.diff, Obj(Reconstruct(c.diff)))
    case Merged(value) => ValueEffect(c.diff, value)
  }

  function Perform(db: Database, k: Key, e: Effect): Option<Database> {
    match e
    case Nothing => Some(db)
    case Put(obj) => db.Upsert(k, obj)
    case Erase => db.Delete(k)
  }

  predicate Fits(schema: map<EntityType, set<string>>, k: Key, e: Effect) {
    e.Nothing? || (k.kind in schema && (e.Put? ==> e.obj.Keys <= schema[k.kind]))
  }

  function Target(schema: map<EntityType, set<string>>, k: Key, e: Effect): Option<Row>
    requires Fits(schema, k, e) && !e.Nothing?
  {
    if e.Put? then Some(FullRow(schema[k.kind], k.id, e.obj)) else None
  }

  /** How many of the changes count as written rows. */
  function Counted(changes: seq<Change>): nat {
    if changes == [] then 0
    else Counted(changes[..|changes| - 1]) + if changes[|changes| - 1].resolved.UseOurs? then 0 else 1
  }

  lemma {:induction false} CountedAppend(a: seq<Change>, b: seq<Change>)
    ensures Counted(a + b) == Counted(a) + Counted(b)
  {
    if b == [] {
      assert a + b == a;
    } else {
      var n := |b| - 1;
      assert (a + b)[..|a + b| - 1] == a + b[..n];
      assert (a + b)[|a + b| - 1] == b[n];
      CountedAppend(a, b[..n]);
    }
  }

  // ── What a batch comes to ──

  /** Some change of the batch rewrites the row of k. */
  ghost predicate Touched(changes: seq<Change>, k: Key) {
    exists i :: 0 <= i < |changes| && changes[i].diff.key == k && EffectOf(changes[i]) != Nothing
  }

  /** Every effective change does to its row what the plan has for it. */
  ghost predicate Follows(changes: seq<Change>, plan: map<Key, Effect>) {
    forall i: nat {:trigger FollowsAt(changes, plan, i)} :: i < |changes| ==> FollowsAt(changes, plan, i)
  }

  ghost predicate FollowsAt(changes: seq<Change>, plan: map<Key, Effect>, i: nat)
    requires i < |changes|
  {
    var e, k := EffectOf(changes[i]), changes[i].diff.key;
    e == Nothing || (k in plan && plan[k] == e)
  }

  ghost predicate NoEscalation(changes: seq<Change>) {
    forall i :: 0 <= i < |changes| ==> !changes[i].resolved.Escalate?
  }

  /** The batch executed change by change on a working copy. */
  function Replay(db: Database, changes: seq<Change>): Result<Database, ApplyError> {
    if changes == [] then Ok(db)
    else
      var last := changes[|changes| - 1];
      match Replay(db, changes[..|changes| - 1])
      case Err(e) => Err(e)
      case Ok(mid) =>
        if last.resolved.Escalate? then Err(MergeConflictUnresolved(last.diff.key.id))
        else match Perform(mid, last.diff.key, EffectOf(last))
          case Some(after) => Ok(after)
          case None => Err(SqlError)
  }

  ghost predicate RowAsPlanned(db: Database, after: Database, changes: seq<Change>, plan: map<Key, Effect>, k: Key) {
    after.RowAt(k) ==
    if Touched(changes, k) && k in plan && Fits(db.schema, k, plan[k]) && plan[k] != Nothing
    then Target(db.schema, k, plan[k]) else db.RowAt(k)
  }

  ghost predicate AllFit(schema: map<EntityType, set<string>>, changes: seq<Change>) {
    forall i :: 0 <= i < |changes| ==> Fits(schema, changes[i].diff.key, EffectOf(changes[i]))
  }

  /** A batch that follows a plan fails exactly when some write does not fit; else each touched row is as planned. */
  lemma {:induction false} ReplayRows(db: Database, changes: seq<Change>, plan: map<Key, Effect>)
    requires Follows(changes, plan) && NoEscalation(changes)
    ensures Replay(db, changes).Ok? <==> AllFit(db.schema, changes)
    ensures Replay(db, changes).Err? ==> Replay(db, changes).error == SqlError
    ensures Replay(db, changes).Ok? ==> Replay(db, changes).value.schema == db.schema
    ensures Replay(db, changes).Ok? ==>
              forall k {:trigger RowAsPlanned(db, Replay(db, changes).value, changes, plan, k)} ::
                RowAsPlanned(db, Replay(db, changes).value, changes, plan, k)
  {
    if changes == [] {
      forall k ensures RowAsPlanned(db, db, changes, plan, k) { }
    } else {
      var front, last := changes[..|changes| - 1], changes[|changes| - 1];
      assert changes == front + [last];
      forall i: nat | i < |front| ensures FollowsAt(front, plan, i) { assert FollowsAt(changes, plan, i); }
      assert FollowsAt(changes, plan, |front|);
      ReplayRows(db, front, plan);
      FitPush(db.schema, front, last);
      if Replay(db, front).Ok? && Fits(db.schema, last.diff.key, EffectOf(last)) {
        var mid := Replay(db, front).value;
        var after := Perform(mid, last.diff.key, EffectOf(last)).value;
        forall k ensures RowAsPlanned(db, after, changes, plan, k) {
          assert RowAsPlanned(db, mid, front, plan, k);
          TouchedPush(front, last, k);
        }
      }
    }
  }

  lemma FitPush(schema: map<EntityType, set<string>>, front: seq<Change>, last: Change)
    ensures AllFit(schema, front + [last]) <==> AllFit(schema, front) && Fits(schema, last.diff.key, EffectOf(last))
  {
    var changes := front + [last];
    assert changes[|front|] == last;
    if AllFit(schema, changes) {
      forall i | 0 <= i < |front| ensures Fits(schema, front[i].diff.key, EffectOf(front[i])) {
        assert changes[i] == front[i];
      }
    }
  }

  lemma TouchedPush(front: seq<Change>, last: Change, k: Key)
    ensures Touched(front + [last], k) <==> Touched(front, k) || (last.diff.key == k && EffectOf(last) != Nothing)
  {
    var changes := front + [last];
    assert changes[|front|] == last;
    if Touched(front, k) {
      var i :| 0 <= i < |front| && front[i].diff.key == k && EffectOf(front[i]) != Nothing;
      assert changes[i] == front[i];
    }
  }

  /** The batch reports an unresolved conflict only if it was handed one. */
  lemma {:induction false} UnresolvedOnlyIfEscalated(db: Database, changes: seq<Change>)
    ensures Replay(db, changes).Err? && Replay(db, changes).error.MergeConflictUnresolved? ==> !NoEscalation(changes)
  {
    if changes != [] {
      UnresolvedOnlyIfEscalated(db, changes[..|changes| - 1]);
    }
  }

  // ── The branch database ──

  class BranchDatabase {
    var data: Database

    constructor (data: Database)
      ensures this.data == data
    {
      this.data := data;
    }

    /** All changes or none. */
    method ApplyBatch(changes: seq<Change>) returns (r: Result<nat, ApplyError>)
      modifies this
      ensures match Replay(old(data), changes)
              case Ok(after) => r == Ok(Counted(changes)) && data == after
              case Err(e) => r == Err(e) && data == old(data)
    {
      var tx := data;
      var count := 0;
      var n := 0;
      while n < |changes|
        invariant n <= |changes| && data == old(data)
        invariant Replay(data, changes[..n]) == Ok(tx) && count == Counted(changes[..n])
      {
        var c := changes[n];
        assert changes[..n + 1][..n] == changes[..n];
        match c.resolved {
          case UseOurs =>
          case Escalate =>
            ErrorPersists(data, changes, n + 1);
            return Err(MergeConflictUnresolved(c.diff.key.id));
          case UseTheirs =>
            var value := ReconstructFromFieldDiffs(c.diff);
            var after := ApplyValue(tx, c.diff, value);
            if after.None? {
              ErrorPersists(data, changes, n + 1);
              return Err(SqlError);
            }
            tx, count := after.value, count + 1;
          case Merged(value) =>
            var after := ApplyValue(tx, c.diff, value);
            if after.None? {
              ErrorPersists(data, changes, n + 1);
              return Err(SqlError);
            }
            tx, count := after.value, count + 1;
        }
        n := n + 1;
      }
      assert changes[..n] == changes;
      data := tx;
      r := Ok(count);
    }
  }

  function ApplyValue(tx: Database, diff: EntityDiff, value: Json): Option<Database> {
    match diff.diffKind
    case Removed => tx.Delete(diff.key)
    case Added => if value.Obj? then tx.Upsert(diff.key, value.fields) else Some(tx)
    case Modified => if value.Obj? then tx.Upsert(diff.key, value.fields) else Some(tx)
    case Unchanged => if value.Obj? then tx.Upsert(diff.key, value.fields) else Some(tx)
  }

  lemma {:induction false} ErrorPersists(db: Database, changes: seq<Change>, n: nat)
    requires n <= |changes| && Replay(db, changes[..n]).Err?
    ensures Replay(db, changes) == Replay(db, changes[..n])
    decreases |changes| - n
  {
    if n == |changes| {
      assert changes[..n] == changes;
    } else {
      assert changes[..n + 1][..n] == changes[..n];
      ErrorPersists(db, changes, n + 1);
    }
  }

  /** Collects the identifier and the new field values into one object. */
  method ReconstructFromFieldDiffs(diff: EntityDiff) returns (value: Json)
    ensures value == Obj(Reconstruct(diff))
  {
    var obj: Row := map[ID_COLUMN := Str(diff.key.id)];
    var i := 0;
    while i < |diff.fieldDiffs|
      invariant i <= |diff.fieldDiffs|
      invariant obj == WithFields(map[ID_COLUMN := Str(diff.key.id)], diff.fieldDiffs[..i])
    {
      assert diff.fieldDiffs[..i + 1][..i] == diff.fieldDiffs[..i];
      obj := obj[diff.fieldDiffs[i].field := diff.fieldDiffs[i].after];
      i := i + 1;
    }
    assert diff.fieldDiffs[..i] == diff.fieldDiffs;
    value := Obj(obj);
  }
}
