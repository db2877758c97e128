/** The decision loops of merge and preview, and what a merge guarantees. */
module BranchMerge {
  import opened Wrappers
  import opened Paths
  import opened JsonValues
  import opened BranchData
  import opened BranchDiff
  import opened ConflictResolution
  import opened MergeApplication
  import opened ThreeWayMerge
  import UnionMerge

  // ── Decisions for a set of entities ──

  ghost predicate DoesPlan(m: Inputs, strategy: MergeStrategy, c: Change) {
    EffectOf(c) == Nothing || EffectOf(c) == Plan(m, strategy, c.diff.key)
  }

  ghost predicate AllDoPlan(m: Inputs, strategy: MergeStrategy, changes: seq<Change>) {
    forall i :: 0 <= i < |changes| ==> DoesPlan(m, strategy, changes[i])
  }

  ghost predicate TouchesPlanned(m: Inputs, strategy: MergeStrategy, keys: set<Key>, changes: seq<Change>) {
    forall k {:trigger Touched(changes, k)} :: k in keys && Plan(m, strategy, k) != Nothing ==> Touched(changes, k)
  }

  /** The changes carry out the plan for the keys, the conflicts are their unresolved clashes. */
  ghost predicate Decided(m: Inputs, strategy: MergeStrategy, keys: set<Key>, changes: seq<Change>,
                          conflicts: seq<MergeConflict>)
  {
    && Lists(m, conflicts, Unresolved(strategy, Clashes(m, keys)))
    && NoEscalation(changes) && AllDoPlan(m, strategy, changes)
    && TouchesPlanned(m, strategy, keys, changes)
    && Counted(changes) == |TheirsOnly(m, keys)| + |CountedClashes(strategy, Clashes(m, keys))|
  }

  lemma DecidedNone(m: Inputs, strategy: MergeStrategy)
    ensures Decided(m, strategy, {}, [], [])
  {
    ListsNone(m);
    assert Clashes(m, {}) == {} && TheirsOnly(m, {}) == {};
    assert Unresolved(strategy, {}) == {} && CountedClashes(strategy, {}) == {};
  }

  lemma ClashesJoin(m: Inputs, strategy: MergeStrategy, a: set<Key>, b: set<Key>)
    requires a !! b
    ensures Clashes(m, a + b) == Clashes(m, a) + Clashes(m, b) && Clashes(m, a) !! Clashes(m, b)
    ensures Unresolved(strategy, Clashes(m, a + b)) ==
        Unresolved(strategy, Clashes(m, a)) + Unresolved(strategy, Clashes(m, b))
    ensures CountedClashes(strategy, Clashes(m, a + b)) ==
        CountedClashes(strategy, Clashes(m, a)) + CountedClashes(strategy, Clashes(m, b))
    ensures TheirsOnly(m, a + b) == TheirsOnly(m, a) + TheirsOnly(m, b)
  {
    assert Clashes(m, a + b) == Clashes(m, a) + Clashes(m, b);
    assert Unresolved(strategy, Clashes(m, a + b)) ==
        Unresolved(strategy, Clashes(m, a)) + Unresolved(strategy, Clashes(m, b));
    assert CountedClashes(strategy, Clashes(m, a + b))
        == CountedClashes(strategy, Clashes(m, a)) + CountedClashes(strategy, Clashes(m, b));
    assert TheirsOnly(m, a + b) == TheirsOnly(m, a) + TheirsOnly(m, b);
  }

  lemma TouchedJoin(a: seq<Change>, b: seq<Change>, k: Key)
    requires Touched(a, k) || Touched(b, k)
    ensures Touched(a + b, k)
  {
    if Touched(a, k) {
      var i :| 0 <= i < |a| && a[i].diff.key == k && EffectOf(a[i]) != Nothing;
      assert (a + b)[i] == a[i];
    } else {
      var i :| 0 <= i < |b| && b[i].diff.key == k && EffectOf(b[i]) != Nothing;
      assert (a + b)[|a| + i] == b[i];
    }
  }

  lemma DecidedJoin(m: Inputs, strategy: MergeStrategy, a: set<Key>, ca: seq<Change>, fa: seq<MergeConflict>,
                    b: set<Key>, cb: seq<Change>, fb: seq<MergeConflict>)
    requires Decided(m, strategy, a, ca, fa) && Decided(m, strategy, b, cb, fb) && a !! b
    ensures Decided(m, strategy, a + b, ca + cb, fa + fb)
  {
    ClashesJoin(m, strategy, a, b);
    ListsJoin(m, fa, Unresolved(strategy, Clashes(m, a)), fb, Unresolved(strategy, Clashes(m, b)));
    CountedAppend(ca, cb);
    forall k | k in a + b && Plan(m, strategy, k) != Nothing ensures Touched(ca + cb, k) {
      TouchedJoin(ca, cb, k);
    }
  }

  // ── One entity ──

  /** The resolution of an entity that only theirs changed. */
  method TheirsEntityToResolved(diff: EntityDiff) returns (r: Resolved)
    ensures r == if diff.diffKind == Removed then Merged(Null) else Merged(Obj(Reconstruct(diff)))
  {
    if diff.diffKind == Removed {
      r := Merged(Null);
    } else {
      var value := ReconstructFromFieldDiffs(diff);
      r := Merged(value);
    }
  }

  ghost predicate FieldChange(m: Inputs, k: Key, changes: seq<Change>, i: nat)
    requires i < |changes|
  {
    changes[i].diff.key == k && EffectOf(changes[i]) in {Nothing, Put(IncomingRow(m, k))}
  }

  /** The fields decided so far of an entity both sides changed. */
  ghost predicate FieldsDecided(m: Inputs, strategy: MergeStrategy, k: Key, done: set<string>, changes: seq<Change>,
                                conflicts: seq<MergeConflict>) {
    && Lists(m, conflicts, Unresolved(strategy, ClashSet(k, done)))
    && NoEscalation(changes)
    && (forall i: nat {:trigger FieldChange(m, k, changes, i)} :: i < |changes| ==> FieldChange(m, k, changes, i))
    && (Touched(changes, k) <==> exists f :: f in done && Decision(strategy, Clash(k, f)) == Theirs)
    && Counted(changes) == |CountedClashes(strategy, ClashSet(k, done))|
  }

  lemma UnionOfCells(x: Json, y: Json)
    requires IsCell(x) && IsCell(y)
    ensures IsCell(UnionMerge.Union(x, y, None, None))
  {
  }

  /** Clashing values are cells of the two rows, and they differ. */
  lemma ClashValues(m: Inputs, k: Key, f: string)
    requires InputsOk(m) && f in ClashesOf(m, k)
    ensures var c := ConflictFor(m, Clash(k, f));
      c.oursValue != c.theirsValue && IsCell(c.oursValue) && IsCell(c.theirsValue)
    ensures k in m.base.rows && k in m.theirs.rows && OursKey(m, k.id).Some?
  {
    ChangedCell(m.base, m.theirs, k, f);
    var o := OursKey(m, k.id).value;
    ChangedCell(m.base, m.ours, o, f);
  }

  lemma ChangedCell(a: Database, b: Database, k: Key, f: string)
    requires b.Wf() && f in ChangedFields(a, b, k)
    ensures k in a.rows && k in b.rows && IsCell(ChangedFields(a, b, k)[f])
  {
    assert RowOk(k, b.rows[k], b.schema[k.kind]);
  }

  /** What resolving one clash adds. */
  lemma FieldStep(m: Inputs, strategy: MergeStrategy, ed: EntityDiff, done: set<string>, f: string,
                  changes: seq<Change>, conflicts: seq<MergeConflict>)
    requires InputsOk(m) && IsEntityDiff(ed, m.base, m.theirs) && f in ClashesOf(m, ed.key) && f !in done
    requires FieldsDecided(m, strategy, ed.key, done, changes, conflicts)
    ensures var c := ConflictFor(m, Clash(ed.key, f)); var r := Resolve(c, strategy);
      if r.Escalate? then FieldsDecided(m, strategy, ed.key, done + {f}, changes, conflicts + [c])
      else FieldsDecided(m, strategy, ed.key, done + {f}, changes + [Change(ed, r)], conflicts)
  {
    var c := ConflictFor(m, Clash(ed.key, f));
    ClashValues(m, ed.key, f);
    ResolveByEffective(c, strategy);
    if Resolve(c, strategy).Escalate? {
      ConflictPush(m, strategy, ed.key, done, f, changes, conflicts);
    } else {
      ResolutionEffect(m, strategy, ed, f);
      ChangePush(m, strategy, ed.key, done, f, changes, conflicts, Change(ed, Resolve(c, strategy)));
    }
  }

  /** Only a clash decided for theirs writes anything: the union of two cells is no row. */
  lemma ResolutionEffect(m: Inputs, strategy: MergeStrategy, ed: EntityDiff, f: string)
    requires InputsOk(m) && IsEntityDiff(ed, m.base, m.theirs) && f in ClashesOf(m, ed.key)
    ensures var x := Clash(ed.key, f); var r := Resolve(ConflictFor(m, x), strategy); var d := Decision(strategy, x);
      && EffectOf(Change(ed, r)) == (if d == Theirs then Put(IncomingRow(m, ed.key)) else Nothing)
      && (r.UseOurs? <==> d == Ours) && (r.Escalate? <==> d == Manual)
  {
    var c := ConflictFor(m, Clash(ed.key, f));
    ClashValues(m, ed.key, f);
    ResolveByEffective(c, strategy);
    match Decision(strategy, Clash(ed.key, f))
    case Theirs => TheirsEffect(m, ed);
    case Union => ScalarEffect(ed, c.oursValue, c.theirsValue, m);
    case _ =>
  }

  lemma TheirsEffect(m: Inputs, ed: EntityDiff)
    requires IsEntityDiff(ed, m.base, m.theirs) && ed.key in m.base.rows && ed.key in m.theirs.rows
    ensures EffectOf(Change(ed, UseTheirs)) == Put(IncomingRow(m, ed.key))
  {
    EntryChanges(ed, m.base, m.theirs);
  }

  lemma ScalarEffect(ed: EntityDiff, x: Json, y: Json, m: Inputs)
    requires IsEntityDiff(ed, m.base, m.theirs) && ed.key in m.base.rows && ed.key in m.theirs.rows && IsCell(x) &&
        IsCell(y)
    ensures EffectOf(Change(ed, Merged(UnionMerge.Union(x, y, None, None)))) == Nothing
  {
    UnionOfCells(x, y);
  }

  lemma ConflictPush(m: Inputs, strategy: MergeStrategy, k: Key, done: set<string>, f: string, changes: seq<Change>,
                     conflicts: seq<MergeConflict>)
    requires f !in done && Decision(strategy, Clash(k, f)) == Manual &&
        FieldsDecided(m, strategy, k, done, changes, conflicts)
    ensures FieldsDecided(m, strategy, k, done + {f}, changes, conflicts + [ConflictFor(m, Clash(k, f))])
  {
    ClashStep(m, strategy, k, done, f, conflicts);
  }

  lemma ChangePush(m: Inputs, strategy: MergeStrategy, k: Key, done: set<string>, f: string, changes: seq<Change>,
                   conflicts: seq<MergeConflict>, change: Change)
    requires f !in done && FieldsDecided(m, strategy, k, done, changes, conflicts)
    requires change.diff.key == k && !change.resolved.Escalate? && Decision(strategy, Clash(k, f)) != Manual
    requires EffectOf(change) == if Decision(strategy, Clash(k, f)) == Theirs then Put(IncomingRow(m, k)) else Nothing
    requires change.resolved.UseOurs? <==> Decision(strategy, Clash(k, f)) == Ours
    ensures FieldsDecided(m, strategy, k, done + {f}, changes + [change], conflicts)
  {
    ClashStep(m, strategy, k, done, f, conflicts);
    TouchedPush(changes, change, k);
    CountedAppend(changes, [change]);
    assert Counted([change]) == if change.resolved.UseOurs? then 0 else 1;
    forall i: nat | i < |changes| + 1 ensures FieldChange(m, k, changes + [change], i) {
      if i < |changes| {
        assert FieldChange(m, k, changes, i);
      }
    }
  }

  lemma ClashStep(m: Inputs, strategy: MergeStrategy, k: Key, done: set<string>, f: string,
                  conflicts: seq<MergeConflict>)
    requires f !in done && Lists(m, conflicts, Unresolved(strategy, ClashSet(k, done)))
    ensures var x := Clash(k, f); var d := Decision(strategy, x);
      && Lists(m, if d == Manual then conflicts + [ConflictFor(m, x)] else conflicts,
               Unresolved(strategy, ClashSet(k, done + {f})))
      && |CountedClashes(strategy, ClashSet(k, done + {f}))|
         == |CountedClashes(strategy, ClashSet(k, done))| + if d == Theirs || d == Union then 1 else 0
  {
    var x := Clash(k, f);
    var s := ClashSet(k, done);
    assert ClashSet(k, done + {f}) == s + {x} && x !in s;
    UnresolvedPush(strategy, s, x);
    CountedPush(strategy, s, x);
    if Decision(strategy, x) == Manual {
      ListsPush(m, conflicts, Unresolved(strategy, s), x);
    }
  }

  lemma UnresolvedPush(strategy: MergeStrategy, s: set<Clash>, x: Clash)
    ensures Unresolved(strategy, s + {x})
         == if Decision(strategy, x) == Manual then Unresolved(strategy, s) + {x} else Unresolved(strategy, s)
  {
  }

  lemma CountedPush(strategy: MergeStrategy, s: set<Clash>, x: Clash)
    requires x !in s
    ensures var d := Decision(strategy, x);
      |CountedClashes(strategy, s + {x})| == |CountedClashes(strategy, s)| + if d == Theirs || d == Union then 1 else 0
  {
    var d := Decision(strategy, x);
    if d == Theirs || d == Union {
      assert CountedClashes(strategy, s + {x}) == CountedClashes(strategy, s) + {x};
    } else {
      assert CountedClashes(strategy, s + {x}) == CountedClashes(strategy, s);
    }
  }

  lemma FieldsNone(m: Inputs, strategy: MergeStrategy, k: Key)
    ensures FieldsDecided(m, strategy, k, {}, [], [])
  {
    ListsNone(m);
    assert ClashSet(k, {}) == {};
    assert Unresolved(strategy, {}) == {} && CountedClashes(strategy, {}) == {};
  }

  lemma FieldsAll(m: Inputs, strategy: MergeStrategy, k: Key, changes: seq<Change>, conflicts: seq<MergeConflict>)
    requires FieldsDecided(m, strategy, k, ClashesOf(m, k), changes, conflicts)
    requires k in Incoming(m) && OursKey(m, k.id).Some?
    ensures Decided(m, strategy, {k}, changes, conflicts)
  {
    assert Clashes(m, {k}) == ClashSet(k, ClashesOf(m, k));
    assert TheirsOnly(m, {k}) == {};
    assert TakesTheirs(m, strategy, k) <==> Touched(changes, k);
    forall i | 0 <= i < |changes| ensures DoesPlan(m, strategy, changes[i]) {
      assert FieldChange(m, k, changes, i);
    }
  }

  ghost predicate DistinctFields(found: seq<MergeConflict>) {
    && (forall i :: 0 <= i < |found| ==> |found[i].fields| == 1)
    && forall i, j :: 0 <= j < i < |found| ==> found[i].fields[0] != found[j].fields[0]
  }

  lemma NextField(found: seq<MergeConflict>, i: nat)
    requires DistinctFields(found) && i < |found|
    ensures found[i].fields[0] !in FieldsOf(found, i)
    ensures FieldsOf(found, i + 1) == FieldsOf(found, i) + {found[i].fields[0]}
  {
  }

  /** The fields the first n conflicts are about. */
  ghost function FieldsOf(found: seq<MergeConflict>, n: nat): set<string>
    requires n <= |found| && forall i :: 0 <= i < |found| ==> |found[i].fields| == 1
  {
    set i | 0 <= i < n :: found[i].fields[0]
  }

  /** The conflicts found between an entry of theirs and the entry of ours it is matched with. */
  ghost predicate FoundFor(m: Inputs, o: EntityDiff, ed: EntityDiff, found: seq<MergeConflict>) {
    && IsEntityDiff(o, m.base, m.ours) && IsEntityDiff(ed, m.base, m.theirs)
    && o.key.id == ed.key.id && OursKey(m, ed.key.id) == Some(o.key)
    && var oc, tc := Changes(o.fieldDiffs), Changes(ed.fieldDiffs);
       ListsClashes(found, o.key, map[], oc, tc, ClashFields(oc, tc))
  }

  ghost predicate ConflictAt(m: Inputs, k: Key, found: seq<MergeConflict>, i: nat)
    requires i < |found|
  {
    |found[i].fields| == 1
    && found[i].fields[0] in ClashesOf(m, k) && found[i] == ConflictFor(m, Clash(k, found[i].fields[0]))
  }

  /** The list holds the conflicts of the clashes of k. */
  ghost predicate ConflictsOf(m: Inputs, k: Key, found: seq<MergeConflict>) {
    && DistinctFields(found) && FieldsOf(found, |found|) == ClashesOf(m, k)
    && forall i: nat {:trigger ConflictAt(m, k, found, i)} :: i < |found| ==> ConflictAt(m, k, found, i)
  }

  lemma FoundFields(m: Inputs, o: EntityDiff, ed: EntityDiff, found: seq<MergeConflict>)
    requires FoundFor(m, o, ed, found)
    ensures ConflictsOf(m, ed.key, found)
  {
    EntryChanges(o, m.base, m.ours);
    EntryChanges(ed, m.base, m.theirs);
    var oc, tc := Changes(o.fieldDiffs), Changes(ed.fieldDiffs);
    assert ClashFields(oc, tc) == ClashesOf(m, ed.key);
    ListedFields(found, o.key, map[], oc, tc, ClashFields(oc, tc));
    forall i: nat | i < |found| ensures ConflictAt(m, ed.key, found, i) {
      assert ClashAt(found, o.key, map[], oc, tc, ClashFields(oc, tc), i);
    }
  }

  lemma ListedFields(found: seq<MergeConflict>, k: Key, base: Row, oc: Row, tc: Row, fields: set<string>)
    requires ListsClashes(found, k, base, oc, tc, fields)
    ensures DistinctFields(found) && FieldsOf(found, |found|) == fields
  {
    forall i: nat | i < |found| ensures |found[i].fields| == 1 && found[i].fields[0] in fields {
      assert ClashAt(found, k, base, oc, tc, fields, i);
    }
    forall i, j | 0 <= j < i < |found| ensures found[i].fields[0] != found[j].fields[0] {
      assert found[j].fields == [found[j].fields[0]] && found[i].fields == [found[i].fields[0]];
    }
    forall f | f in fields ensures f in FieldsOf(found, |found|) {
      assert Reported(found, f);
    }
  }

  /** What resolving the next conflict adds. */
  lemma BatchStep(m: Inputs, ed: EntityDiff, found: seq<MergeConflict>, strategy: MergeStrategy, n: nat,
                  changes: seq<Change>, conflicts: seq<MergeConflict>, c: MergeConflict, r: Resolved)
    requires InputsOk(m) && IsEntityDiff(ed, m.base, m.theirs) && ConflictsOf(m, ed.key, found) && n < |found|
    requires FieldsDecided(m, strategy, ed.key, FieldsOf(found, n), changes, conflicts)
    requires c == found[n] && r == Resolve(c, strategy)
    ensures r.Escalate? ==> FieldsDecided(m, strategy, ed.key, FieldsOf(found, n + 1), changes, conflicts + [c])
    ensures !r.Escalate? ==>
              FieldsDecided(m, strategy, ed.key, FieldsOf(found, n + 1), changes + [Change(ed, r)], conflicts)
  {
    assert ConflictAt(m, ed.key, found, n);
    NextField(found, n);
    FieldStep(m, strategy, ed, FieldsOf(found, n), found[n].fields[0], changes, conflicts);
  }

  /** Resolves the conflicts of one entity one by one. */
  method ResolveBatch(ghost m: Inputs, ed: EntityDiff, found: seq<MergeConflict>, strategy: MergeStrategy)
    returns (changes: seq<Change>, conflicts: seq<MergeConflict>)
    requires InputsOk(m) && IsEntityDiff(ed, m.base, m.theirs) && ConflictsOf(m, ed.key, found)
    ensures FieldsDecided(m, strategy, ed.key, ClashesOf(m, ed.key), changes, conflicts)
  {
    changes, conflicts := [], [];
    FieldsNone(m, strategy, ed.key);
    assert FieldsOf(found, 0) == {};
    var n := 0;
    while n < |found|
      invariant n <= |found|
      invariant FieldsDecided(m, strategy, ed.key, FieldsOf(found, n), changes, conflicts)
    {
      var conflict := found[n];
      var resolution := Resolve(conflict, strategy);
      BatchStep(m, ed, found, strategy, n, changes, conflicts, conflict, resolution);
      if resolution.Escalate? {
        conflicts := conflicts + [conflict];
      } else {
        changes := changes + [Change(ed, resolution)];
      }
      n := n + 1;
    }
  }

  /** The entry of ours that the index yields for an identifier. */
  ghost predicate Matches(m: Inputs, id: string, o: Option<EntityDiff>) {
    match o
    case None => OursKey(m, id).None?
    case Some(ed) => OursKey(m, id) == Some(ed.key) && IsEntityDiff(ed, m.base, m.ours)
  }

  lemma OursKeyId(m: Inputs, id: string)
    ensures OursKey(m, id).Some? ==> OursKey(m, id).value.id == id
  {
    var p := LatestChangeIndex(m, id, |m.types|);
  }

  lemma TheirsOnlyDecided(m: Inputs, strategy: MergeStrategy, ed: EntityDiff, r: Resolved)
    requires IsEntityDiff(ed, m.base, m.theirs) && ed.key in Incoming(m) && OursKey(m, ed.key.id).None?
    requires r == if ed.diffKind == Removed then Merged(Null) else Merged(Obj(Reconstruct(ed)))
    ensures Decided(m, strategy, {ed.key}, [Change(ed, r)], [])
  {
    var changes := [Change(ed, r)];
    EntryChanges(ed, m.base, m.theirs);
    assert EffectOf(changes[0]) == Plan(m, strategy, ed.key);
    assert ClashesOf(m, ed.key) == {};
    assert Clashes(m, {ed.key}) == {} && TheirsOnly(m, {ed.key}) == {ed.key};
    assert Unresolved(strategy, {}) == {} && CountedClashes(strategy, {}) == {};
    ListsNone(m);
    assert changes[..0] == [];
  }

  lemma DisjointDecided(m: Inputs, strategy: MergeStrategy, k: Key, merged: EntityDiff)
    requires k in Incoming(m) && OursKey(m, k.id).Some? && ClashesOf(m, k) == {}
    ensures Decided(m, strategy, {k}, [Change(merged, UseOurs)], [])
  {
    assert Clashes(m, {k}) == {} && TheirsOnly(m, {k}) == {};
    assert Unresolved(strategy, {}) == {} && CountedClashes(strategy, {}) == {};
    ListsNone(m);
    assert [Change(merged, UseOurs)][..0] == [];
  }

  /** Decides one entity that theirs changed. */
  method DecideEntity(ghost m: Inputs, o: Option<EntityDiff>, ed: EntityDiff, strategy: MergeStrategy)
    returns (changes: seq<Change>, conflicts: seq<MergeConflict>)
    requires InputsOk(m) && IsEntityDiff(ed, m.base, m.theirs) && ed.key in Incoming(m) && Matches(m, ed.key.id, o)
    ensures Decided(m, strategy, {ed.key}, changes, conflicts)
  {
    if o.Some? {
      OursKeyId(m, ed.key.id);
      var found := DetectConflicts(o.value, ed, map[]);
      FoundFields(m, o.value, ed, found);
      if found == [] {
        var merged := MergeFieldDiffs(o.value, ed);
        DisjointDecided(m, strategy, ed.key, merged);
        changes, conflicts := [Change(merged, UseOurs)], [];
      } else {
        changes, conflicts := ResolveBatch(m, ed, found, strategy);
        FieldsAll(m, strategy, ed.key, changes, conflicts);
      }
    } else {
      var resolved := TheirsEntityToResolved(ed);
      TheirsOnlyDecided(m, strategy, ed, resolved);
      changes, conflicts := [Change(ed, resolved)], [];
    }
  }

  // ── All entities ──

  /** The keys of the changes among the first n entries. */
  ghost function ChangedKeys(eds: seq<EntityDiff>, n: nat): set<Key>
    requires n <= |eds|
  {
    set i | 0 <= i < n && IsChange(eds[i]) :: eds[i].key
  }

  lemma ChangedKeysStep(eds: seq<EntityDiff>, n: nat)
    requires n < |eds| && DistinctKeys(eds)
    ensures ChangedKeys(eds, n + 1) == ChangedKeys(eds, n) + if IsChange(eds[n]) then {eds[n].key} else {}
    ensures eds[n].key !in ChangedKeys(eds, n)
  {
  }

  lemma ChangedKeysAll(m: Inputs, eds: seq<EntityDiff>)
    requires IsDiff(eds, m.base, m.theirs, m.types)
    ensures ChangedKeys(eds, |eds|) == Incoming(m)
  {
    forall i: nat | i < |eds| && IsChange(eds[i]) ensures eds[i].key in Incoming(m) {
      EntryIsChange(m, m.theirs, eds, i);
    }
    forall k | k in Incoming(m) ensures k in ChangedKeys(eds, |eds|) {
      var j := EntryOf(m, m.theirs, eds, k);
    }
  }

  ghost predicate IndexOf(m: Inputs, index: map<string, EntityDiff>) {
    forall id {:trigger Matches(m, id, Lookup(index, id))} :: Matches(m, id, Lookup(index, id))
  }

  function Lookup(index: map<string, EntityDiff>, id: string): Option<EntityDiff> {
    if id in index then Some(index[id]) else None
  }

  /** Indexes the changes of ours. */
  method IndexOurs(ghost m: Inputs, eds: seq<EntityDiff>) returns (index: map<string, EntityDiff>)
    requires Distinct(m.types) && IsDiff(eds, m.base, m.ours, m.types) && InTableOrder(eds, m.types)
    ensures IndexOf(m, index)
  {
    index := IndexById(eds);
    forall id ensures Matches(m, id, Lookup(index, id)) {
      assert IndexedAt(index, eds, id);
      LastIsLatest(m, eds, id);
    }
  }

  /** Decides every entity that theirs changed, in the order of the diff. */
  method Decide(ghost m: Inputs, index: map<string, EntityDiff>, theirs: seq<EntityDiff>, strategy: MergeStrategy)
    returns (changes: seq<Change>, conflicts: seq<MergeConflict>)
    requires InputsOk(m) && IsDiff(theirs, m.base, m.theirs, m.types) && IndexOf(m, index)
    ensures Decided(m, strategy, Incoming(m), changes, conflicts)
  {
    changes, conflicts := [], [];
    DecidedNone(m, strategy);
    assert ChangedKeys(theirs, 0) == {};
    var n := 0;
    while n < |theirs|
      invariant n <= |theirs|
      invariant Decided(m, strategy, ChangedKeys(theirs, n), changes, conflicts)
    {
      var ed := theirs[n];
      ChangedKeysStep(theirs, n);
      if IsChange(ed) {
        EntryIsChange(m, m.theirs, theirs, n);
        assert Matches(m, ed.key.id, Lookup(index, ed.key.id));
        var cs, fs := DecideEntity(m, Lookup(index, ed.key.id), ed, strategy);
        DecidedJoin(m, strategy, ChangedKeys(theirs, n), changes, conflicts, {ed.key}, cs, fs);
        changes, conflicts := changes + cs, conflicts + fs;
      }
      n := n + 1;
    }
    ChangedKeysAll(m, theirs);
  }

  /** Applying fully decided changes carries out the plan, or fails without it fitting the tables. */
  lemma ApplyDecided(m: Inputs, strategy: MergeStrategy, changes: seq<Change>)
    requires NoEscalation(changes) && AllDoPlan(m, strategy, changes) &&
        TouchesPlanned(m, strategy, Incoming(m), changes)
    ensures var r := Replay(m.ours, changes);
      if CanWrite(m, strategy) then r.Ok? && IsMerged(m, strategy, r.value) else r == Err(SqlError)
  {
    var plan := map k | k in Incoming(m) :: Plan(m, strategy, k);
    forall i: nat | i < |changes| ensures FollowsAt(changes, plan, i) {
      assert DoesPlan(m, strategy, changes[i]);
    }
    ReplayRows(m.ours, changes, plan);
    FitsPlan(m, strategy, changes);
    var r := Replay(m.ours, changes);
    if r.Ok? {
      forall k ensures MergedRow(m, strategy, r.value, k) {
        assert RowAsPlanned(m.ours, r.value, changes, plan, k);
        TouchedIffPlanned(m, strategy, changes, k);
      }
    }
  }

  lemma TouchedIffPlanned(m: Inputs, strategy: MergeStrategy, changes: seq<Change>, k: Key)
    requires AllDoPlan(m, strategy, changes) && TouchesPlanned(m, strategy, Incoming(m), changes)
    ensures Touched(changes, k) <==> Plan(m, strategy, k) != Nothing
  {
    if Touched(changes, k) {
      var i :| 0 <= i < |changes| && changes[i].diff.key == k && EffectOf(changes[i]) != Nothing;
      assert DoesPlan(m, strategy, changes[i]);
    }
  }

  lemma FitsPlan(m: Inputs, strategy: MergeStrategy, changes: seq<Change>)
    requires AllDoPlan(m, strategy, changes) && TouchesPlanned(m, strategy, Incoming(m), changes)
    ensures AllFit(m.ours.schema, changes) <==> CanWrite(m, strategy)
  {
    forall i | 0 <= i < |changes| && CanWrite(m, strategy)
      ensures Fits(m.ours.schema, changes[i].diff.key, EffectOf(changes[i]))
    {
      assert DoesPlan(m, strategy, changes[i]);
    }
    forall k | k in Incoming(m) && AllFit(m.ours.schema, changes)
      ensures Fits(m.ours.schema, k, Plan(m, strategy, k))
    {
      if Plan(m, strategy, k) != Nothing {
        assert Touched(changes, k);
        var i :| 0 <= i < |changes| && changes[i].diff.key == k && EffectOf(changes[i]) != Nothing;
        assert DoesPlan(m, strategy, changes[i]);
      }
    }
  }

  /** What a merge returns and leaves in the written database. */
  ghost predicate MergeOutcome(m: Inputs, strategy: MergeStrategy, r: Result<MergeResult, ApplyError>,
                               after: Database)
  {
    var clashes := Clashes(m, Incoming(m));
    if Unresolved(strategy, clashes) != {} then
      && r.Ok? && !r.value.success && r.value.applied == 0 && after == m.ours
      && Lists(m, r.value.conflicts, Unresolved(strategy, clashes))
    else if !CanWrite(m, strategy) then r == Err(SqlError) && after == m.ours
    else
      && r == Ok(MergeResult(|TheirsOnly(m, Incoming(m))| + |CountedClashes(strategy, clashes)|, [], true))
      && IsMerged(m, strategy, after)
  }

  lemma RefusedOutcome(m: Inputs, strategy: MergeStrategy, changes: seq<Change>, conflicts: seq<MergeConflict>)
    requires Decided(m, strategy, Incoming(m), changes, conflicts) && conflicts != []
    ensures MergeOutcome(m, strategy, Ok(MergeResult(0, conflicts, false)), m.ours)
  {
    ListsEmpty(m, conflicts, Unresolved(strategy, Clashes(m, Incoming(m))));
  }

  function ResultOf(applied: Result<nat, ApplyError>): Result<MergeResult, ApplyError> {
    match applied
    case Err(e) => Err(e)
    case Ok(count) => Ok(MergeResult(count, [], true))
  }

  /** What applying the batch left behind. */
  ghost predicate BatchOutcome(before: Database, changes: seq<Change>, applied: Result<nat, ApplyError>,
                               after: Database)
  {
    match Replay(before, changes)
    case Ok(db) => applied == Ok(Counted(changes)) && after == db
    case Err(e) => applied == Err(e) && after == before
  }

  lemma AppliedOutcome(m: Inputs, strategy: MergeStrategy, changes: seq<Change>, applied: Result<nat, ApplyError>,
                       after: Database)
    requires Decided(m, strategy, Incoming(m), changes, [])
    requires BatchOutcome(m.ours, changes, applied, after)
    ensures MergeOutcome(m, strategy, ResultOf(applied), after)
  {
    ListsEmpty(m, [], Unresolved(strategy, Clashes(m, Incoming(m))));
    ApplyDecided(m, strategy, changes);
  }

  /** Diffs both sides against base and indexes the changes of ours. */
  method CompareSides(ghost m: Inputs, base: Database, ours: Database, theirs: Database, types: seq<EntityType>)
    returns (index: map<string, EntityDiff>, theirsDiffs: seq<EntityDiff>)
    requires m == Inputs(base, ours, theirs, types) && Distinct(types)
    ensures IndexOf(m, index) && IsDiff(theirsDiffs, m.base, m.theirs, m.types)
  {
    var oursDiff := Diff(base, ours, types);
    var theirsDiff := Diff(base, theirs, types);
    index := IndexOurs(m, oursDiff.entityDiffs);
    theirsDiffs := theirsDiff.entityDiffs;
  }

  /** Merges theirs into ours relative to base. */
  method Merge(base: Database, ours: BranchDatabase, theirs: Database, strategy: MergeStrategy, types: seq<EntityType>)
    returns (r: Result<MergeResult, ApplyError>)
    requires InputsOk(Inputs(base, ours.data, theirs, types))
    modifies ours
    ensures MergeOutcome(Inputs(base, old(ours.data), theirs, types), strategy, r, ours.data)
  {
    ghost var m := Inputs(base, ours.data, theirs, types);
    var index, theirsDiffs := CompareSides(m, base, ours.data, theirs, types);
    var changes, conflicts := Decide(m, index, theirsDiffs, strategy);
    if conflicts != [] {
      RefusedOutcome(m, strategy, changes, conflicts);
      return Ok(MergeResult(0, conflicts, false));
    }
    var applied := ours.ApplyBatch(changes);
    assert BatchOutcome(m.ours, changes, applied, ours.data);
    AppliedOutcome(m, strategy, changes, applied, ours.data);
    r := ResultOf(applied);
  }

  // ── Preview ──

  /** The entities theirs changed that no field of ours clashes with. */
  ghost function ClashFree(m: Inputs, keys: set<Key>): set<Key> {
    set k | k in keys && ClashesOf(m, k) == {}
  }

  ghost predicate Previewed(m: Inputs, keys: set<Key>, autoResolved: nat, conflicts: seq<MergeConflict>) {
    Lists(m, conflicts, Clashes(m, keys)) && autoResolved == |ClashFree(m, keys)|
  }

  lemma PreviewStep(m: Inputs, keys: set<Key>, autoResolved: nat, conflicts: seq<MergeConflict>, k: Key,
                    found: seq<MergeConflict>)
    requires Previewed(m, keys, autoResolved, conflicts) && k !in keys && Lists(m, found, ClashSet(k, ClashesOf(m, k)))
    ensures Previewed(m, keys + {k}, if found == [] then autoResolved + 1 else autoResolved, conflicts + found)
  {
    var s := ClashSet(k, ClashesOf(m, k));
    ClashesStep(m, keys, k);
    ClashFreeStep(m, keys, k);
    ListsJoin(m, conflicts, Clashes(m, keys), found, s);
    ListsEmpty(m, found, s);
  }

  lemma ClashesStep(m: Inputs, keys: set<Key>, k: Key)
    requires k !in keys
    ensures Clashes(m, keys + {k}) == Clashes(m, keys) + ClashSet(k, ClashesOf(m, k))
    ensures Clashes(m, keys) !! ClashSet(k, ClashesOf(m, k))
  {
  }

  lemma ClashFreeStep(m: Inputs, keys: set<Key>, k: Key)
    requires k !in keys
    ensures |ClashFree(m, keys + {k})| == |ClashFree(m, keys)| + if ClashSet(k, ClashesOf(m, k)) == {} then 1 else 0
  {
    if ClashesOf(m, k) == {} {
      assert ClashFree(m, keys + {k}) == ClashFree(m, keys) + {k};
    } else {
      var f :| f in ClashesOf(m, k);
      assert Clash(k, f) in ClashSet(k, ClashesOf(m, k));
      assert ClashFree(m, keys + {k}) == ClashFree(m, keys);
    }
  }

  lemma {:induction false} ListsConflicts(m: Inputs, k: Key, found: seq<MergeConflict>, n: nat)
    requires ConflictsOf(m, k, found) && n <= |found|
    ensures Lists(m, found[..n], ClashSet(k, FieldsOf(found, n)))
  {
    if n == 0 {
      ListsNone(m);
      assert ClashSet(k, FieldsOf(found, 0)) == {};
    } else {
      ListsConflicts(m, k, found, n - 1);
      NextField(found, n - 1);
      assert ConflictAt(m, k, found, n - 1);
      var x := Clash(k, found[n - 1].fields[0]);
      ListsPush(m, found[..n - 1], ClashSet(k, FieldsOf(found, n - 1)), x);
      assert found[..n] == found[..n - 1] + [ConflictFor(m, x)];
      assert ClashSet(k, FieldsOf(found, n)) == ClashSet(k, FieldsOf(found, n - 1)) + {x};
    }
  }

  /** The conflicts of one entity, as preview sees them. */
  method PreviewEntity(ghost m: Inputs, o: Option<EntityDiff>, ed: EntityDiff) returns (found: seq<MergeConflict>)
    requires InputsOk(m) && IsEntityDiff(ed, m.base, m.theirs) && Matches(m, ed.key.id, o)
    ensures Lists(m, found, ClashSet(ed.key, ClashesOf(m, ed.key)))
  {
    if o.Some? {
      OursKeyId(m, ed.key.id);
      found := DetectConflicts(o.value, ed, map[]);
      FoundFields(m, o.value, ed, found);
      ListsConflicts(m, ed.key, found, |found|);
      assert found[..|found|] == found;
    } else {
      found := [];
      ListsNone(m);
      assert ClashSet(ed.key, ClashesOf(m, ed.key)) == {};
    }
  }

  lemma PreviewNone(m: Inputs)
    ensures Previewed(m, {}, 0, [])
  {
    ListsNone(m);
    assert Clashes(m, {}) == {} && ClashFree(m, {}) == {};
  }

  /** Reports every clash without writing. */
  method Preview(base: Database, ours: Database, theirs: Database, types: seq<EntityType>) returns (r: MergePreview)
    requires InputsOk(Inputs(base, ours, theirs, types))
    ensures var m := Inputs(base, ours, theirs, types);
      && Previewed(m, Incoming(m), r.autoResolved, r.conflicts)
      && r.estimatedMs == 2 * |ClashFree(m, Incoming(m))| + 2 * |Clashes(m, Incoming(m))|
  {
    ghost var m := Inputs(base, ours, theirs, types);
    var index, theirsDiffs := CompareSides(m, base, ours, theirs, types);
    r := PreviewAll(m, index, theirsDiffs);
  }

  /** Goes through the changes of theirs. */
  method PreviewAll(ghost m: Inputs, index: map<string, EntityDiff>, eds: seq<EntityDiff>) returns (r: MergePreview)
    requires InputsOk(m) && IsDiff(eds, m.base, m.theirs, m.types) && IndexOf(m, index)
    ensures Previewed(m, Incoming(m), r.autoResolved, r.conflicts)
    ensures r.estimatedMs == 2 * |ClashFree(m, Incoming(m))| + 2 * |Clashes(m, Incoming(m))|
  {
    var autoResolved, conflicts: seq<MergeConflict> := 0, [];
    PreviewNone(m);
    assert ChangedKeys(eds, 0) == {};
    var n := 0;
    while n < |eds|
      invariant n <= |eds|
      invariant Previewed(m, ChangedKeys(eds, n), autoResolved, conflicts)
    {
      var ed := eds[n];
      ChangedKeysStep(eds, n);
      if IsChange(ed) {
        EntryIsChange(m, m.theirs, eds, n);
        assert Matches(m, ed.key.id, Lookup(index, ed.key.id));
        var found := PreviewEntity(m, Lookup(index, ed.key.id), ed);
        PreviewStep(m, ChangedKeys(eds, n), autoResolved, conflicts, ed.key, found);
        if found == [] {
          autoResolved := autoResolved + 1;
        }
        conflicts := conflicts + found;
      }
      n := n + 1;
    }
    ChangedKeysAll(m, eds);
    ListsLength(m, conflicts, Clashes(m, Incoming(m)));
    r := MergePreview(autoResolved, conflicts, (autoResolved + |conflicts|) * MS_PER_ENTITY);
  }

  // ── What a merge guarantees ──

  /** A merge is refused exactly when some clash is left to Manual; every conflict it reports is one of preview's. */
  lemma RefusedIffManual(m: Inputs, strategy: MergeStrategy, r: Result<MergeResult, ApplyError>, after: Database,
                         p: MergePreview)
    requires MergeOutcome(m, strategy, r, after) && Previewed(m, Incoming(m), p.autoResolved, p.conflicts)
    ensures (r.Ok? && !r.value.success) <==> exists x :: x in Clashes(m, Incoming(m)) && Decision(strategy, x) == Manual
    ensures r.Ok? && !r.value.success ==> r.value.conflicts != [] && after == m.ours
    ensures r.Ok? ==> multiset(r.value.conflicts) <= multiset(p.conflicts)
    ensures strategy == Manual && r.Ok? ==> multiset(r.value.conflicts) == multiset(p.conflicts)
  {
    var clashes := Clashes(m, Incoming(m));
    var open := Unresolved(strategy, clashes);
    OpenIffManual(strategy, clashes);
    if open != {} {
      ListsEmpty(m, r.value.conflicts, open);
      ListsAgree(m, r.value.conflicts, open, p.conflicts, clashes);
    } else {
      ListsEmpty(m, p.conflicts, clashes);
    }
  }

  lemma OpenIffManual(strategy: MergeStrategy, clashes: set<Clash>)
    ensures Unresolved(strategy, clashes) != {} <==> exists x :: x in clashes && Decision(strategy, x) == Manual
    ensures strategy == Manual ==> Unresolved(strategy, clashes) == clashes
  {
    if Unresolved(strategy, clashes) != {} {
      var x :| x in Unresolved(strategy, clashes);
    }
    assert forall x :: x in clashes && Decision(strategy, x) == Manual ==> x in Unresolved(strategy, clashes);
  }

  /** Whatever happens, only rows theirs changed are written, and of those ours also changed only ones given
      to theirs. */
  lemma MergeFrame(m: Inputs, strategy: MergeStrategy, r: Result<MergeResult, ApplyError>, after: Database, k: Key)
    requires MergeOutcome(m, strategy, r, after)
    requires k !in Incoming(m) ||
        (OursKey(m, k.id).Some? && forall f :: f in ClashesOf(m, k) ==> Decision(strategy, Clash(k, f)) != Theirs)
    ensures after.RowAt(k) == m.ours.RowAt(k)
  {
    assert IsMerged(m, strategy, after) ==> MergedRow(m, strategy, after, k);
  }

  /** Under Ours, every row ours changed is untouched, although changes are matched by identifier alone. */
  lemma OursKeepsOurs(m: Inputs, r: Result<MergeResult, ApplyError>, after: Database, k: Key)
    requires MergeOutcome(m, Ours, r, after) && ChangedIn(m, m.ours, k)
    ensures after.RowAt(k) == m.ours.RowAt(k)
  {
    var p := LatestChangeIndex(m, k.id, |m.types|);
    assert OursKey(m, k.id).Some? by {
      var q :| 0 <= q < |m.types| && m.types[q] == k.kind;
      assert k == Key(m.types[q], k.id);
    }
    MergeFrame(m, Ours, r, after, k);
  }

  /** On branches with the same tables a merge never hits a database error. */
  lemma SameTablesNeverFail(m: Inputs, strategy: MergeStrategy)
    requires InputsOk(m) && m.base.schema == m.ours.schema == m.theirs.schema
    ensures CanWrite(m, strategy)
  {
    forall k | k in Incoming(m) ensures Fits(m.ours.schema, k, Plan(m, strategy, k)) {
      IncomingColumns(m, k);
    }
  }

  lemma IncomingColumns(m: Inputs, k: Key)
    requires InputsOk(m) && m.base.schema == m.theirs.schema && k in Incoming(m)
    ensures k.kind in m.theirs.schema && IncomingRow(m, k).Keys <= m.theirs.schema[k.kind]
  {
    var columns := m.theirs.schema[k.kind];
    if k in m.base.rows { assert RowOk(k, m.base.rows[k], columns); }
    if k in m.theirs.rows { assert RowOk(k, m.theirs.rows[k], columns); }
  }

  lemma WrittenRow(m: Inputs, strategy: MergeStrategy, after: Database, k: Key)
    requires InputsOk(m) && IsMerged(m, strategy, after) && CanWrite(m, strategy)
    requires k in Incoming(m) && (OursKey(m, k.id).None? || TakesTheirs(m, strategy, k))
    ensures k !in m.theirs.rows ==> k !in after.rows
    ensures k in m.theirs.rows ==>
              k.kind in m.ours.schema && IncomingRow(m, k).Keys <= m.ours.schema[k.kind]
              && after.RowAt(k) == Some(FullRow(m.ours.schema[k.kind], k.id, IncomingRow(m, k)))
  {
    assert MergedRow(m, strategy, after, k);
    assert Fits(m.ours.schema, k, Plan(m, strategy, k));
    if TakesTheirs(m, strategy, k) {
      var f :| f in ClashesOf(m, k) && Decision(strategy, Clash(k, f)) == Theirs;
      ClashValues(m, k, f);
    }
  }

  /** A row the merge writes comes out as theirs has it exactly when theirs left no other column filled. */
  lemma RowOfTheirsReproduced(m: Inputs, strategy: MergeStrategy, after: Database, k: Key)
    requires InputsOk(m) && IsMerged(m, strategy, after) && CanWrite(m, strategy)
    requires k in Incoming(m) && (OursKey(m, k.id).None? || TakesTheirs(m, strategy, k))
    ensures k !in m.theirs.rows ==> k !in after.rows
    ensures k in m.theirs.rows ==> k in after.rows
    ensures k in m.theirs.rows ==> (SameRow(after.rows[k], m.theirs.rows[k]) <==> OnlyChangedFilled(m, k))
  {
    WrittenRow(m, strategy, after, k);
    if k in m.theirs.rows {
      var row, mine := m.theirs.rows[k], after.rows[k];
      forall f ensures !Differs(mine, row, f) <==> FilledOnlyIfChanged(m, k, f) {
        WrittenCell(m, k, f);
      }
    }
  }

  /** Theirs adds a session with a title to databases that have no rows. */
  ghost predicate AddsSession(m: Inputs, k: Key, row: Row) {
    && k == Key(Session, "s1") && row == map[ID_COLUMN := Str("s1"), "title" := Str("plan")]
    && var schema := map[Session := {ID_COLUMN, "title"}];
    m == Inputs(Database(schema, map[]), Database(schema, map[]), Database(schema, map[k := row]), ALL_TYPES)
  }

  lemma OnlySessionIncoming(m: Inputs, k: Key, row: Row)
    requires AddsSession(m, k, row)
    ensures Incoming(m) == {k} && OursKey(m, "s1").None? && Clashes(m, {k}) == {} && TheirsOnly(m, {k}) == {k}
    ensures IncomingRow(m, k) == map[ID_COLUMN := Str("s1")]
  {
    var p := LatestChangeIndex(m, "s1", |ALL_TYPES|);
    assert ALL_TYPES[1] == Session && ChangedIn(m, m.theirs, k);
    assert ClashesOf(m, k) == {};
  }

  /** Under every strategy the merge goes through and the session arrives without its title. */
  lemma AddedRowArrivesEmpty(m: Inputs, k: Key, row: Row, strategy: MergeStrategy, r: Result<MergeResult, ApplyError>,
                             after: Database)
    requires AddsSession(m, k, row) && MergeOutcome(m, strategy, r, after)
    ensures r == Ok(MergeResult(1, [], true)) && after.RowAt(k) == Some(map[ID_COLUMN := Str("s1"), "title" := Null])
  {
    OnlySessionIncoming(m, k, row);
    assert Unresolved(strategy, {}) == {} && CountedClashes(strategy, {}) == {};
    assert Plan(m, strategy, k) == Put(IncomingRow(m, k)) && CanWrite(m, strategy);
    assert MergedRow(m, strategy, after, k);
    assert FullRow({ID_COLUMN, "title"}, "s1", IncomingRow(m, k)) == map[ID_COLUMN := Str("s1"), "title" := Null];
  }

  lemma WrittenCell(m: Inputs, k: Key, f: string)
    requires InputsOk(m) && k in m.theirs.rows && k.kind in m.ours.schema &&
        IncomingRow(m, k).Keys <= m.ours.schema[k.kind]
    ensures var mine := FullRow(m.ours.schema[k.kind], k.id, IncomingRow(m, k));
      Cell(mine, f) == Cell(m.theirs.rows[k], f) <==> FilledOnlyIfChanged(m, k, f)
  {
    var row := m.theirs.rows[k];
    assert RowOk(k, row, m.theirs.schema[k.kind]);
    if k in m.base.rows {
      assert RowOk(k, m.base.rows[k], m.base.schema[k.kind]);
    }
  }

  ghost predicate FilledOnlyIfChanged(m: Inputs, k: Key, f: string)
    requires k in m.theirs.rows
  {
    f == ID_COLUMN || Cell(m.theirs.rows[k], f) == Null ||
        (k in m.base.rows && Differs(m.base.rows[k], m.theirs.rows[k], f))
  }

  /** Besides the identifier, theirs fills only columns of a common row that it changed. */
  ghost predicate OnlyChangedFilled(m: Inputs, k: Key)
    requires k in m.theirs.rows
  {
    forall f :: FilledOnlyIfChanged(m, k, f)
  }

  /** A merge leaves full rows. */
  lemma MergeKeepsWf(m: Inputs, strategy: MergeStrategy, after: Database)
    requires InputsOk(m) && IsMerged(m, strategy, after)
    ensures after.Wf()
  {
    forall k | k in after.rows ensures k.kind in after.schema && RowOk(k, after.rows[k], after.schema[k.kind]) {
      assert MergedRow(m, strategy, after, k);
      var e := Plan(m, strategy, k);
      if e.Put? && Fits(m.ours.schema, k, e) {
        IncomingCells(m, k);
        FullRowOk(m.ours.schema[k.kind], k, e.obj);
      }
    }
  }

  lemma IncomingCells(m: Inputs, k: Key)
    requires InputsOk(m)
    ensures forall f :: f in IncomingRow(m, k) ==> IsCell(IncomingRow(m, k)[f])
  {
    if k in m.theirs.rows { assert RowOk(k, m.theirs.rows[k], m.theirs.schema[k.kind]); }
  }
}
