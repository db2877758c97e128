/** The three-way merge of two branches: which rows it writes and which conflicts it reports. */
module ThreeWayMerge {
  import opened Wrappers
  import opened Paths
  import opened JsonValues
  import opened BranchData
  import opened BranchDiff
  import opened ConflictResolution
  import opened MergeApplication
  import UnionMerge

  datatype Inputs = Inputs(base: Database, ours: Database, theirs: Database, types: seq<EntityType>)

  /** A field of the row of an entity that both sides changed, to different values. */
  datatype Clash = Clash(key: Key, field: string)

  datatype MergeResult = MergeResult(applied: nat, conflicts: seq<MergeConflict>, success: bool)

  datatype MergePreview = MergePreview(autoResolved: nat, conflicts: seq<MergeConflict>, estimatedMs: nat)

  const MS_PER_ENTITY := 2

  ghost predicate InputsOk(m: Inputs) {
    Distinct(m.types) && m.base.Wf() && m.ours.Wf() && m.theirs.Wf()
  }

  lemma AllTypesDistinct()
    ensures Distinct(ALL_TYPES)
  {
  }

  // ── What changed ──

  ghost predicate ChangedIn(m: Inputs, side: Database, k: Key) {
    k.kind in m.types && (k in m.base.rows || k in side.rows) && KindOf(m.base, side, k) != Unchanged
  }

  /** The keys theirs changed. */
  ghost function Incoming(m: Inputs): set<Key> {
    set k | k in m.base.rows.Keys + m.theirs.rows.Keys && ChangedIn(m, m.theirs, k)
  }

  /** Among the first n tables, the last one where ours changed the identifier. */
  ghost function LatestChange(m: Inputs, id: string, n: nat): Option<Key>
    requires n <= |m.types|
  {
    if n == 0 then None
    else if ChangedIn(m, m.ours, Key(m.types[n - 1], id)) then Some(Key(m.types[n - 1], id))
    else LatestChange(m, id, n - 1)
  }

  /** The entity of ours that an identifier is matched with: tables are not told apart, the last one wins. */
  ghost function OursKey(m: Inputs, id: string): Option<Key> {
    LatestChange(m, id, |m.types|)
  }

  /** The differing fields of a row present on both sides, with their values in b. */
  ghost function ChangedFields(a: Database, b: Database, k: Key): Row {
    if k in a.rows && k in b.rows then
      map f | f in a.rows[k].Keys + b.rows[k].Keys && Cell(a.rows[k], f) != Cell(b.rows[k], f) :: Cell(b.rows[k], f)
    else map[]
  }

  ghost function OursFields(m: Inputs, id: string): Row {
    match OursKey(m, id)
    case Some(o) => ChangedFields(m.base, m.ours, o)
    case None => map[]
  }

  ghost function ClashesOf(m: Inputs, k: Key): set<string> {
    ClashFields(OursFields(m, k.id), ChangedFields(m.base, m.theirs, k))
  }

  ghost function ClashSet(k: Key, fields: set<string>): set<Clash> {
    set f | f in fields :: Clash(k, f)
  }

  /** Every clash of the given keys. */
  ghost function Clashes(m: Inputs, keys: set<Key>): set<Clash> {
    set k, f | k in keys && f in ClashesOf(m, k) :: Clash(k, f)
  }

  ghost function ConflictFor(m: Inputs, x: Clash): MergeConflict {
    ConflictOn(OursKey(m, x.key.id).GetOr(x.key), map[], OursFields(m, x.key.id),
        ChangedFields(m.base, m.theirs, x.key), x.field)
  }

  // ── What a strategy makes of it ──

  ghost function Decision(strategy: MergeStrategy, x: Clash): MergeStrategy {
    Effective(strategy, Some(x.field))
  }

  ghost function Unresolved(strategy: MergeStrategy, clashes: set<Clash>): set<Clash> {
    set x | x in clashes && Decision(strategy, x) == Manual
  }

  /** The clashes whose resolution counts as a written row. */
  ghost function CountedClashes(strategy: MergeStrategy, clashes: set<Clash>): set<Clash> {
    set x | x in clashes && (Decision(strategy, x) == Theirs || Decision(strategy, x) == Union)
  }

  ghost function TheirsOnly(m: Inputs, keys: set<Key>): set<Key> {
    set k | k in keys && OursKey(m, k.id).None?
  }

  ghost predicate TakesTheirs(m: Inputs, strategy: MergeStrategy, k: Key) {
    exists f :: f in ClashesOf(m, k) && Decision(strategy, Clash(k, f)) == Theirs
  }

  /** The identifier and the fields theirs changed. */
  ghost function IncomingRow(m: Inputs, k: Key): Row {
    map[ID_COLUMN := Str(k.id)] + ChangedFields(m.base, m.theirs, k)
  }

  /** What the merge does to row k when nothing is left unresolved. */
  ghost function Plan(m: Inputs, strategy: MergeStrategy, k: Key): Effect {
    if k !in Incoming(m) then Nothing
    else if OursKey(m, k.id).None? then (if k in m.theirs.rows then Put(IncomingRow(m, k)) else Erase)
    else if TakesTheirs(m, strategy, k) then Put(IncomingRow(m, k))
    else Nothing
  }

  ghost predicate CanWrite(m: Inputs, strategy: MergeStrategy) {
    forall k :: k in Incoming(m) ==> Fits(m.ours.schema, k, Plan(m, strategy, k))
  }

  ghost predicate MergedRow(m: Inputs, strategy: MergeStrategy, after: Database, k: Key) {
    var e := Plan(m, strategy, k);
    after.RowAt(k) == if e != Nothing && Fits(m.ours.schema, k, e) then Target(m.ours.schema, k, e) else m.ours.RowAt(k)
  }

  ghost predicate IsMerged(m: Inputs, strategy: MergeStrategy, after: Database) {
    after.schema == m.ours.schema
    && forall k {:trigger MergedRow(m, strategy, after, k)} :: MergedRow(m, strategy, after, k)
  }

  // ── Lists of conflicts, whatever their order ──

  ghost function Yielding(m: Inputs, clashes: set<Clash>, c: MergeConflict): set<Clash> {
    set x | x in clashes && ConflictFor(m, x) == c
  }

  ghost predicate ListsAt(m: Inputs, conflicts: seq<MergeConflict>, clashes: set<Clash>, c: MergeConflict) {
    multiset(conflicts)[c] == |Yielding(m, clashes, c)|
  }

  /** The list holds one conflict for each clash of the set, and nothing else. */
  ghost predicate Lists(m: Inputs, conflicts: seq<MergeConflict>, clashes: set<Clash>) {
    forall c {:trigger ListsAt(m, conflicts, clashes, c)} :: ListsAt(m, conflicts, clashes, c)
  }

  lemma ListsNone(m: Inputs)
    ensures Lists(m, [], {})
  {
    forall c ensures ListsAt(m, [], {}, c) {
      assert Yielding(m, {}, c) == {};
    }
  }

  lemma ListsPush(m: Inputs, conflicts: seq<MergeConflict>, clashes: set<Clash>, x: Clash)
    requires Lists(m, conflicts, clashes) && x !in clashes
    ensures Lists(m, conflicts + [ConflictFor(m, x)], clashes + {x})
  {
    forall c ensures ListsAt(m, conflicts + [ConflictFor(m, x)], clashes + {x}, c) {
      assert ListsAt(m, conflicts, clashes, c);
      if c == ConflictFor(m, x) {
        assert Yielding(m, clashes + {x}, c) == Yielding(m, clashes, c) + {x};
      } else {
        assert Yielding(m, clashes + {x}, c) == Yielding(m, clashes, c);
      }
    }
  }

  lemma ListsJoin(m: Inputs, a: seq<MergeConflict>, s: set<Clash>, b: seq<MergeConflict>, t: set<Clash>)
    requires Lists(m, a, s) && Lists(m, b, t) && s !! t
    ensures Lists(m, a + b, s + t)
  {
    forall c ensures ListsAt(m, a + b, s + t, c) {
      assert ListsAt(m, a, s, c) && ListsAt(m, b, t, c);
      assert Yielding(m, s + t, c) == Yielding(m, s, c) + Yielding(m, t, c);
    }
  }

  lemma ListsEmpty(m: Inputs, conflicts: seq<MergeConflict>, clashes: set<Clash>)
    requires Lists(m, conflicts, clashes)
    ensures conflicts == [] <==> clashes == {}
  {
    assert forall x :: x in clashes ==> x in Yielding(m, clashes, ConflictFor(m, x));
    if conflicts == [] {
      forall c ensures Yielding(m, clashes, c) == {} {
        assert ListsAt(m, conflicts, clashes, c);
      }
    } else {
      var c := conflicts[0];
      assert ListsAt(m, conflicts, clashes, c) && multiset(conflicts)[c] > 0;
      assert Yielding(m, clashes, c) != {};
    }
  }

  lemma {:induction false} ListsLength(m: Inputs, conflicts: seq<MergeConflict>, clashes: set<Clash>)
    requires Lists(m, conflicts, clashes)
    ensures |conflicts| == |clashes|
  {
    if conflicts == [] {
      ListsEmpty(m, conflicts, clashes);
    } else {
      var front, c := conflicts[..|conflicts| - 1], conflicts[|conflicts| - 1];
      assert conflicts == front + [c];
      assert ListsAt(m, conflicts, clashes, c) && multiset(conflicts)[c] > 0;
      assert Yielding(m, clashes, c) != {};
      var x :| x in Yielding(m, clashes, c);
      ListsPop(m, front, clashes, x);
      ListsLength(m, front, clashes - {x});
    }
  }

  lemma ListsPop(m: Inputs, front: seq<MergeConflict>, clashes: set<Clash>, x: Clash)
    requires Lists(m, front + [ConflictFor(m, x)], clashes) && x in clashes
    ensures Lists(m, front, clashes - {x})
  {
    forall c ensures ListsAt(m, front, clashes - {x}, c) {
      assert ListsAt(m, front + [ConflictFor(m, x)], clashes, c);
      if c == ConflictFor(m, x) {
        assert Yielding(m, clashes, c) == Yielding(m, clashes - {x}, c) + {x};
      } else {
        assert Yielding(m, clashes, c) == Yielding(m, clashes - {x}, c);
      }
    }
  }

  /** Lists of the same clashes agree up to order; a smaller set gives a smaller list. */
  lemma ListsAgree(m: Inputs, a: seq<MergeConflict>, s: set<Clash>, b: seq<MergeConflict>, t: set<Clash>)
    requires Lists(m, a, s) && Lists(m, b, t) && s <= t
    ensures multiset(a) <= multiset(b)
    ensures s == t ==> multiset(a) == multiset(b)
  {
    forall c ensures multiset(a)[c] <= multiset(b)[c] && (s == t ==> multiset(a)[c] == multiset(b)[c]) {
      assert ListsAt(m, a, s, c) && ListsAt(m, b, t, c);
      SubsetSize(Yielding(m, s, c), Yielding(m, t, c));
    }
  }

  // ── Entries of a diff, and the index of ours ──

  /** What an entry records is what the two databases differ in. */
  lemma EntryChanges(ed: EntityDiff, a: Database, b: Database)
    requires IsEntityDiff(ed, a, b)
    ensures Changes(ed.fieldDiffs) == ChangedFields(a, b, ed.key)
    ensures Reconstruct(ed) == map[ID_COLUMN := Str(ed.key.id)] + ChangedFields(a, b, ed.key)
  {
    if ed.key in a.rows && ed.key in b.rows {
      var x, y := a.rows[ed.key], b.rows[ed.key];
      FieldsRecorded(map[], ed.fieldDiffs, x, y);
      FieldsRecorded(map[ID_COLUMN := Str(ed.key.id)], ed.fieldDiffs, x, y);
    }
  }

  lemma FieldsRecorded(base: Row, fds: seq<FieldDiff>, x: Row, y: Row)
    requires FieldDiffsOf(fds, x, y)
    ensures WithFields(base, fds) == base + (map f | f in x.Keys + y.Keys && Cell(x, f) != Cell(y, f) :: Cell(y, f))
  {
    var changed := map f | f in x.Keys + y.Keys && Cell(x, f) != Cell(y, f) :: Cell(y, f);
    forall f
      ensures f in WithFields(base, fds) <==> f in base || f in changed
      ensures f in WithFields(base, fds) ==> WithFields(base, fds)[f] == (base + changed)[f]
    {
      RecordedAt(base, fds, x, y, f);
    }
  }

  lemma RecordedAt(base: Row, fds: seq<FieldDiff>, x: Row, y: Row, f: string)
    requires FieldDiffsOf(fds, x, y)
    ensures f in WithFields(base, fds) <==> f in base || Differs(x, y, f)
    ensures Differs(x, y, f) ==> WithFields(base, fds)[f] == Cell(y, f)
    ensures f in base && !Differs(x, y, f) ==> WithFields(base, fds)[f] == base[f]
  {
    WithFieldsKey(base, fds, f);
    if Names(fds, f) {
      var i: nat :| i < |fds| && fds[i].field == f;
      assert FieldDiffAt(fds, x, y, i);
      WithFieldsValue(base, fds, i);
    }
  }

  predicate IsChange(ed: EntityDiff) {
    ed.diffKind != Unchanged
  }

  /** The last change of an identifier among the entries. */
  function LastChange(eds: seq<EntityDiff>, id: string): Option<EntityDiff> {
    if eds == [] then None
    else
      var last := eds[|eds| - 1];
      if IsChange(last) && last.key.id == id then Some(last) else LastChange(eds[..|eds| - 1], id)
  }

  ghost predicate IndexedAt(index: map<string, EntityDiff>, eds: seq<EntityDiff>, id: string) {
    LastChange(eds, id) == if id in index then Some(index[id]) else None
  }

  /** Collects the changed entries by identifier; a later one replaces an earlier one. */
  method IndexById(eds: seq<EntityDiff>) returns (index: map<string, EntityDiff>)
    ensures forall id {:trigger IndexedAt(index, eds, id)} :: IndexedAt(index, eds, id)
  {
    index := map[];
    var n := 0;
    while n < |eds|
      invariant n <= |eds|
      invariant forall id {:trigger IndexedAt(index, eds[..n], id)} :: IndexedAt(index, eds[..n], id)
    {
      var ed := eds[n];
      ghost var before, done, done' := index, eds[..n], eds[..n + 1];
      if IsChange(ed) {
        index := index[ed.key.id := ed];
      }
      forall id ensures IndexedAt(index, done', id) {
        assert IndexedAt(before, done, id);
        assert done'[..n] == done;
      }
      n := n + 1;
    }
    assert eds[..n] == eds;
  }

  lemma {:induction false} LastChangeIndex(eds: seq<EntityDiff>, id: string) returns (i: nat)
    ensures LastChange(eds, id).Some? ==>
        i < |eds| && LastChange(eds, id) == Some(eds[i]) && IsChange(eds[i]) && eds[i].key.id == id
    ensures LastChange(eds, id).Some? ==> forall j :: i < j < |eds| && IsChange(eds[j]) ==> eds[j].key.id != id
    ensures LastChange(eds, id).None? ==> forall j :: 0 <= j < |eds| && IsChange(eds[j]) ==> eds[j].key.id != id
  {
    if eds == [] {
      i := 0;
    } else {
      i := LastChangeIndex(eds[..|eds| - 1], id);
      var last := eds[|eds| - 1];
      if IsChange(last) && last.key.id == id {
        i := |eds| - 1;
      }
    }
  }

  lemma {:induction false} LatestChangeIndex(m: Inputs, id: string, n: nat) returns (p: nat)
    requires n <= |m.types|
    ensures LatestChange(m, id, n).Some? ==>
        p < n && LatestChange(m, id, n) == Some(Key(m.types[p], id)) && ChangedIn(m, m.ours, Key(m.types[p], id))
    ensures LatestChange(m, id, n).Some? ==> forall q :: p < q < n ==> !ChangedIn(m, m.ours, Key(m.types[q], id))
    ensures LatestChange(m, id, n).None? ==> forall q :: 0 <= q < n ==> !ChangedIn(m, m.ours, Key(m.types[q], id))
  {
    if n == 0 {
      p := 0;
    } else {
      p := LatestChangeIndex(m, id, n - 1);
      if ChangedIn(m, m.ours, Key(m.types[n - 1], id)) {
        p := n - 1;
      }
    }
  }

  lemma EntryOf(m: Inputs, side: Database, eds: seq<EntityDiff>, k: Key) returns (j: nat)
    requires IsDiff(eds, m.base, side, m.types) && ChangedIn(m, side, k)
    ensures j < |eds| && eds[j].key == k && IsChange(eds[j])
  {
    assert k in ListedKeys(eds);
    j :| 0 <= j < |eds| && eds[j].key == k;
    assert DiffAt(eds, m.base, side, j);
    KindOfDiff(eds[j], m.base, side);
  }

  lemma EntryIsChange(m: Inputs, side: Database, eds: seq<EntityDiff>, i: nat)
    requires IsDiff(eds, m.base, side, m.types) && i < |eds|
    ensures IsEntityDiff(eds[i], m.base, side) && eds[i].key in KeysIn(m.base, side, m.types)
    ensures IsChange(eds[i]) <==> ChangedIn(m, side, eds[i].key)
  {
    assert DiffAt(eds, m.base, side, i);
    KindOfDiff(eds[i], m.base, side);
    assert eds[i].key in ListedKeys(eds);
  }

  lemma EntriesFollowTables(eds: seq<EntityDiff>, types: seq<EntityType>, j: nat, i: nat, p: nat, q: nat)
    requires Distinct(types) && InTableOrder(eds, types) && j <= i < |eds| && p < |types| && q < |types|
    requires types[p] == eds[j].key.kind && types[q] == eds[i].key.kind
    ensures p <= q
  {
    if j < i {
      assert TableBefore(types, eds[j].key.kind, eds[i].key.kind);
    }
  }

  /** The index finds, for each identifier, the change of ours in the last table that has one. */
  lemma LastIsLatest(m: Inputs, eds: seq<EntityDiff>, id: string)
    requires Distinct(m.types) && IsDiff(eds, m.base, m.ours, m.types) && InTableOrder(eds, m.types)
    ensures LastChange(eds, id).None? ==> OursKey(m, id).None?
    ensures LastChange(eds, id).Some? ==> OursKey(m, id) == Some(LastChange(eds, id).value.key)
    ensures LastChange(eds, id).Some? ==> IsEntityDiff(LastChange(eds, id).value, m.base, m.ours)
  {
    var i := LastChangeIndex(eds, id);
    var p := LatestChangeIndex(m, id, |m.types|);
    if LastChange(eds, id).Some? {
      EntryIsChange(m, m.ours, eds, i);
      var q :| 0 <= q < |m.types| && m.types[q] == eds[i].key.kind;
      assert eds[i].key == Key(m.types[q], id);
      var k := Key(m.types[p], id);
      var j := EntryOf(m, m.ours, eds, k);
      assert j <= i && q <= p;
      EntriesFollowTables(eds, m.types, j, i, p, q);
    } else if OursKey(m, id).Some? {
      var j := EntryOf(m, m.ours, eds, Key(m.types[p], id));
      assert false;
    }
  }
}
