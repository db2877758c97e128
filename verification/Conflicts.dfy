/** Field conflicts between two changes of one entity, and how a strategy decides them. */
module ConflictResolution {
  import opened Wrappers
  import opened JsonValues
  import opened BranchData
  import opened BranchDiff
  import UnionMerge

  datatype MergeStrategy =
    | Ours
    | Theirs
    | Union
    | FieldLevel(fields: map<string, MergeStrategy>)
    | Manual

  datatype MergeConflict = MergeConflict(key: Key, baseValue: Json, oursValue: Json, theirsValue: Json,
                                         fields: seq<string>)

  datatype Resolved = UseOurs | UseTheirs | Merged(value: Json) | Escalate

  // ── Detection ──

  /** The changed fields with their new values; a repeated field keeps its last value. */
  function Changes(fds: seq<FieldDiff>): Row {
    WithFields(map[], fds)
  }

  /** The fields both sides changed, to different values. */
  function ClashFields(oc: Row, tc: Row): set<string> {
    set f | f in oc && f in tc && oc[f] != tc[f]
  }

  function ConflictOn(k: Key, base: Row, oc: Row, tc: Row, f: string): MergeConflict {
    MergeConflict(k, Cell(base, f), Cell(oc, f), Cell(tc, f), [f])
  }

  /** One conflict for each clashing field, in any order. */
  ghost predicate ListsClashes(conflicts: seq<MergeConflict>, k: Key, base: Row, oc: Row, tc: Row,
                               fields: set<string>)
  {
    && (forall i, j :: 0 <= i < j < |conflicts| ==> conflicts[i].fields != conflicts[j].fields)
    && (forall i: nat {:trigger ClashAt(conflicts, k, base, oc, tc, fields, i)} :: i < |conflicts| ==>
         ClashAt(conflicts, k, base, oc, tc, fields, i))
    && (forall f {:trigger Reported(conflicts, f)} :: f in fields ==> Reported(conflicts, f))
  }

  ghost predicate ClashAt(conflicts: seq<MergeConflict>, k: Key, base: Row, oc: Row, tc: Row, fields: set<string>,
                          i: nat)
    requires i < |conflicts|
  {
    var c := conflicts[i];
    |c.fields| == 1 && c.fields[0] in fields && c == ConflictOn(k, base, oc, tc, c.fields[0])
  }

  ghost predicate Reported(conflicts: seq<MergeConflict>, f: string) {
    exists i :: 0 <= i < |conflicts| && conflicts[i].fields == [f]
  }

  /** Scans the fields ours changed, in arbitrary order. */
  method DetectConflicts(ours: EntityDiff, theirs: EntityDiff, base: Row) returns (conflicts: seq<MergeConflict>)
    ensures ours.key.id != theirs.key.id ==> conflicts == []
    ensures ours.key.id == theirs.key.id ==>
              var oc, tc := Changes(ours.fieldDiffs), Changes(theirs.fieldDiffs);
              ListsClashes(conflicts, ours.key, base, oc, tc, ClashFields(oc, tc))
  {
    conflicts := [];
    if ours.key.id != theirs.key.id {
      return;
    }
    var oc, tc := Changes(ours.fieldDiffs), Changes(theirs.fieldDiffs);
    var rest := oc.Keys;
    while rest != {}
      invariant rest <= oc.Keys
      invariant ListsClashes(conflicts, ours.key, base, oc, tc, ClashFields(oc, tc) - rest)
      decreases rest
    {
      var f :| f in rest;
      var done := ClashFields(oc, tc) - rest;
      if f in tc && oc[f] != tc[f] {
        ClashPush(conflicts, ours.key, base, oc, tc, done, f);
        conflicts := conflicts + [ConflictOn(ours.key, base, oc, tc, f)];
        assert ClashFields(oc, tc) - (rest - {f}) == done + {f};
      } else {
        assert ClashFields(oc, tc) - (rest - {f}) == done;
      }
      rest := rest - {f};
    }
    assert ClashFields(oc, tc) - {} == ClashFields(oc, tc);
  }

  lemma ClashPush(conflicts: seq<MergeConflict>, k: Key, base: Row, oc: Row, tc: Row, fields: set<string>, f: string)
    requires ListsClashes(conflicts, k, base, oc, tc, fields) && f !in fields
    ensures ListsClashes(conflicts + [ConflictOn(k, base, oc, tc, f)], k, base, oc, tc, fields + {f})
  {
    var r := conflicts + [ConflictOn(k, base, oc, tc, f)];
    forall i: nat | i < |conflicts| ensures conflicts[i].fields != [f] {
      assert ClashAt(conflicts, k, base, oc, tc, fields, i);
    }
    forall i: nat | i < |r| ensures ClashAt(r, k, base, oc, tc, fields + {f}, i) {
      if i < |conflicts| { assert ClashAt(conflicts, k, base, oc, tc, fields, i); }
    }
    forall g | g in fields + {f} ensures Reported(r, g) {
      if g == f {
        assert r[|conflicts|].fields == [f];
      } else {
        assert Reported(conflicts, g);
        var i :| 0 <= i < |conflicts| && conflicts[i].fields == [g];
        assert r[i].fields == [g];
      }
    }
  }

  /** Combines two changes of one entity; where both change a field the entry of ours is kept. */
  method MergeFieldDiffs(ours: EntityDiff, theirs: EntityDiff) returns (r: EntityDiff)
    ensures r.key == ours.key && r.diffKind == Modified && ours.fieldDiffs <= r.fieldDiffs
    ensures forall f :: f in Changes(r.fieldDiffs) <==> f in Changes(ours.fieldDiffs) || f in Changes(theirs.fieldDiffs)
    ensures forall f :: f in Changes(ours.fieldDiffs) ==> Changes(r.fieldDiffs)[f] == Changes(ours.fieldDiffs)[f]
    ensures forall f :: f in Changes(theirs.fieldDiffs) && f !in Changes(ours.fieldDiffs) ==>
                        Changes(r.fieldDiffs)[f] == Changes(theirs.fieldDiffs)[f]
  {
    var combined := ours.fieldDiffs;
    ghost var oc := Changes(ours.fieldDiffs);
    var i := 0;
    while i < |theirs.fieldDiffs|
      invariant i <= |theirs.fieldDiffs| && ours.fieldDiffs <= combined
      invariant Changes(combined) == Changes(theirs.fieldDiffs[..i]) + oc
    {
      var fd := theirs.fieldDiffs[i];
      assert theirs.fieldDiffs[..i + 1] == theirs.fieldDiffs[..i] + [fd];
      ChangesPush(theirs.fieldDiffs[..i], fd);
      WithFieldsKey(map[], ours.fieldDiffs, fd.field);
      if !exists j :: 0 <= j < |ours.fieldDiffs| && ours.fieldDiffs[j].field == fd.field {
        ChangesPush(combined, fd);
        combined := combined + [fd];
      }
      i := i + 1;
    }
    assert theirs.fieldDiffs[..i] == theirs.fieldDiffs;
    r := EntityDiff(ours.key, Modified, combined);
  }

  lemma ChangesPush(fds: seq<FieldDiff>, fd: FieldDiff)
    ensures Changes(fds + [fd]) == Changes(fds)[fd.field := fd.after]
  {
    assert (fds + [fd])[..|fds|] == fds;
  }

  // ── Resolution ──

  function Resolve(c: MergeConflict, strategy: MergeStrategy): Resolved
    decreases strategy.FieldLevel?, strategy
  {
    if c.oursValue == c.theirsValue then Merged(c.oursValue)
    else match strategy
      case Ours => UseOurs
      case Theirs => UseTheirs
      case Union => Merged(UnionMerge.Union(c.oursValue, c.theirsValue, None, None))
      case FieldLevel(fields) =>
        if c.fields != [] && c.fields[0] in fields then Resolve(c, fields[c.fields[0]]) else Resolve(c, Union)
      case Manual => Escalate
  }

  /** The strategy a per-field map gives field f; Union where it has no entry. */
  function Next(fields: map<string, MergeStrategy>, f: Option<string>): MergeStrategy {
    if f.Some? && f.value in fields then fields[f.value] else Union
  }

  /** The strategy that field f ends up with, through n levels of per-field maps. */
  ghost predicate LeadsTo(strategy: MergeStrategy, f: Option<string>, n: nat, end: MergeStrategy)
    decreases n
  {
    if n == 0 then strategy == end && !end.FieldLevel?
    else strategy.FieldLevel? && LeadsTo(Next(strategy.fields, f), f, n - 1, end)
  }

  /** The innermost strategy for field f. */
  function Effective(strategy: MergeStrategy, f: Option<string>): (r: MergeStrategy)
    ensures !r.FieldLevel?
    decreases strategy
  {
    if !strategy.FieldLevel? then strategy
    else if f.Some? && f.value in strategy.fields then Effective(strategy.fields[f.value], f)
    else Union
  }

  lemma {:induction false} EffectiveIsEnd(strategy: MergeStrategy, f: Option<string>) returns (n: nat)
    ensures LeadsTo(strategy, f, n, Effective(strategy, f))
    decreases strategy
  {
    if !strategy.FieldLevel? {
      n := 0;
    } else if f.Some? && f.value in strategy.fields {
      var m := EffectiveIsEnd(strategy.fields[f.value], f);
      n := m + 1;
    } else {
      assert LeadsTo(Union, f, 0, Union);
      n := 1;
    }
  }

  lemma {:induction false} EndIsUnique(strategy: MergeStrategy, f: Option<string>, n: nat, end: MergeStrategy)
    requires LeadsTo(strategy, f, n, end)
    ensures end == Effective(strategy, f)
    decreases n
  {
    if n > 0 {
      EndIsUnique(Next(strategy.fields, f), f, n - 1, end);
    }
  }

  function FirstField(c: MergeConflict): Option<string> {
    if c.fields == [] then None else Some(c.fields[0])
  }

  function OutcomeOf(end: MergeStrategy, c: MergeConflict): Resolved
    requires !end.FieldLevel?
  {
    match end
    case Ours => UseOurs
    case Theirs => UseTheirs
    case Union => Merged(UnionMerge.Union(c.oursValue, c.theirsValue, None, None))
    case Manual => Escalate
  }

  /** A real conflict is decided by the strategy its field leads to; it escalates exactly when that is Manual. */
  lemma {:induction false} ResolveByEnd(c: MergeConflict, strategy: MergeStrategy, n: nat, end: MergeStrategy)
    requires !end.FieldLevel? && c.oursValue != c.theirsValue && LeadsTo(strategy, FirstField(c), n, end)
    ensures Resolve(c, strategy) == OutcomeOf(end, c)
    ensures Resolve(c, strategy) == Escalate <==> end == Manual
    decreases n
  {
    if n > 0 {
      ResolveByEnd(c, Next(strategy.fields, FirstField(c)), n - 1, end);
    }
  }

  lemma ResolveByEffective(c: MergeConflict, strategy: MergeStrategy)
    requires c.oursValue != c.theirsValue
    ensures Resolve(c, strategy) == OutcomeOf(Effective(strategy, FirstField(c)), c)
  {
    var n := EffectiveIsEnd(strategy, FirstField(c));
    ResolveByEnd(c, strategy, n, Effective(strategy, FirstField(c)));
  }
}
