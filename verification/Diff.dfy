/** Row-level and field-level comparison of two branch databases. */
module BranchDiff {
  import opened Paths
  import opened JsonValues
  import opened BranchData

  datatype DiffKind = Added | Removed | Modified | Unchanged

  datatype FieldDiff = FieldDiff(field: string, before: Json, after: Json)

  datatype EntityDiff = EntityDiff(key: Key, diffKind: DiffKind, fieldDiffs: seq<FieldDiff>)

  datatype DiffStats = DiffStats(added: nat, removed: nat, modified: nat, same: nat, total: nat)

  datatype DiffResult = DiffResult(entityDiffs: seq<EntityDiff>, stats: DiffStats, score: real)

  // ── What a diff says ──

  ghost predicate Differs(a: Row, b: Row, f: string) {
    Cell(a, f) != Cell(b, f)
  }

  ghost predicate SameRow(a: Row, b: Row) {
    forall f :: !Differs(a, b, f)
  }

  ghost predicate FieldDiffAt(fds: seq<FieldDiff>, a: Row, b: Row, i: nat)
    requires i < |fds|
  {
    Differs(a, b, fds[i].field) && fds[i].before == Cell(a, fds[i].field) && fds[i].after == Cell(b, fds[i].field)
  }

  ghost predicate Names(fds: seq<FieldDiff>, f: string) {
    exists i: nat :: i < |fds| && fds[i].field == f
  }

  /** Exactly the differing fields, each once, with the values on both sides. */
  ghost predicate FieldDiffsOf(fds: seq<FieldDiff>, a: Row, b: Row) {
    && (forall i, j :: 0 <= i < j < |fds| ==> fds[i].field != fds[j].field)
    && (forall i: nat {:trigger FieldDiffAt(fds, a, b, i)} :: i < |fds| ==> FieldDiffAt(fds, a, b, i))
    && (forall f {:trigger Differs(a, b, f)} :: Differs(a, b, f) ==> Names(fds, f))
  }

  /** The entry a diff from a to b must hold for a key of either side. */
  ghost predicate IsEntityDiff(ed: EntityDiff, a: Database, b: Database) {
    if ed.key in a.rows && ed.key in b.rows then
      FieldDiffsOf(ed.fieldDiffs, a.rows[ed.key], b.rows[ed.key])
      && ed.diffKind == (if ed.fieldDiffs == [] then Unchanged else Modified)
    else if ed.key in a.rows then ed.diffKind == Removed && ed.fieldDiffs == []
    else ed.key in b.rows && ed.diffKind == Added && ed.fieldDiffs == []
  }

  ghost function KeysIn(a: Database, b: Database, types: seq<EntityType>): set<Key> {
    set k | k in a.rows.Keys + b.rows.Keys && k.kind in types
  }

  /** The keys a diff lists up to position n. */
  ghost function ListedKeys(eds: seq<EntityDiff>): set<Key> {
    set i | 0 <= i < |eds| :: eds[i].key
  }

  ghost predicate DistinctKeys(eds: seq<EntityDiff>) {
    forall i, j :: 0 <= i < j < |eds| ==> eds[i].key != eds[j].key
  }

  ghost predicate DiffAt(eds: seq<EntityDiff>, a: Database, b: Database, i: nat)
    requires i < |eds|
  {
    IsEntityDiff(eds[i], a, b)
  }

  /** One correct entry for each key of the chosen tables. */
  ghost predicate IsDiff(eds: seq<EntityDiff>, a: Database, b: Database, types: seq<EntityType>) {
    && DistinctKeys(eds) && ListedKeys(eds) == KeysIn(a, b, types)
    && forall i: nat {:trigger DiffAt(eds, a, b, i)} :: i < |eds| ==> DiffAt(eds, a, b, i)
  }

  ghost predicate TableBefore(types: seq<EntityType>, x: EntityType, y: EntityType) {
    exists p, q :: 0 <= p <= q < |types| && types[p] == x && types[q] == y
  }

  /** Entries are listed table by table, in the order of the table list. */
  ghost predicate InTableOrder(eds: seq<EntityDiff>, types: seq<EntityType>) {
    forall i, j :: 0 <= i < j < |eds| ==> TableBefore(types, eds[i].key.kind, eds[j].key.kind)
  }

  ghost function OfKind(a: Database, b: Database, types: seq<EntityType>, kind: DiffKind): set<Key> {
    KindIn(a, b, KeysIn(a, b, types), kind)
  }

  ghost function KindIn(a: Database, b: Database, keys: set<Key>, kind: DiffKind): set<Key> {
    set k | k in keys && (k in a.rows || k in b.rows) && KindOf(a, b, k) == kind
  }

  ghost function KindOf(a: Database, b: Database, k: Key): DiffKind
    requires k in a.rows || k in b.rows
  {
    if k !in b.rows then Removed
    else if k !in a.rows then Added
    else if SameRow(a.rows[k], b.rows[k]) then Unchanged
    else Modified
  }

  /** How many keys fall in each class. */
  ghost function StatsOf(a: Database, b: Database, types: seq<EntityType>): DiffStats {
    Tally(a, b, KeysIn(a, b, types), |KeysIn(a, b, types)|)
  }

  ghost function Tally(a: Database, b: Database, keys: set<Key>, total: nat): DiffStats {
    DiffStats(|KindIn(a, b, keys, Added)|, |KindIn(a, b, keys, Removed)|, |KindIn(a, b, keys, Modified)|,
              |KindIn(a, b, keys, Unchanged)|, total)
  }

  function ScoreDivergence(stats: DiffStats): real {
    if stats.total == 0 then 0.0
    else (stats.added + stats.removed + stats.modified) as real / stats.total as real
  }

  lemma KindOfDiff(ed: EntityDiff, a: Database, b: Database)
    requires IsEntityDiff(ed, a, b)
    ensures ed.key in a.rows || ed.key in b.rows
    ensures ed.diffKind == KindOf(a, b, ed.key)
  {
    if ed.key in a.rows && ed.key in b.rows {
      var x, y := a.rows[ed.key], b.rows[ed.key];
      if ed.fieldDiffs == [] {
        forall f ensures !Differs(x, y, f) {
          assert Differs(x, y, f) ==> Names(ed.fieldDiffs, f);
        }
      } else {
        assert FieldDiffAt(ed.fieldDiffs, x, y, 0);
      }
    }
  }

  // ── Computing it ──

  /** Compares two rows field by field, in arbitrary field order. */
  method CompareEntityValues(k: Key, a: Row, b: Row) returns (ed: EntityDiff)
    ensures ed.key == k && FieldDiffsOf(ed.fieldDiffs, a, b)
    ensures ed.diffKind == if ed.fieldDiffs == [] then Unchanged else Modified
  {
    var fields := a.Keys + b.Keys;
    var fieldDiffs: seq<FieldDiff> := [];
    var rest := fields;
    while rest != {}
      invariant rest <= fields
      invariant forall i, j :: 0 <= i < j < |fieldDiffs| ==> fieldDiffs[i].field != fieldDiffs[j].field
      invariant forall i: nat :: i < |fieldDiffs| ==> FieldDiffAt(fieldDiffs, a, b, i) && fieldDiffs[i].field !in rest
      invariant forall f {:trigger Differs(a, b, f)} :: Differs(a, b, f) && f !in rest ==> Names(fieldDiffs, f)
      decreases rest
    {
      var field :| field in rest;
      var av, bv := Cell(a, field), Cell(b, field);
      ghost var before := fieldDiffs;
      if av != bv {
        fieldDiffs := fieldDiffs + [FieldDiff(field, av, bv)];
        assert fieldDiffs[|before|].field == field;
      }
      forall f | Differs(a, b, f) && f !in rest - {field} ensures Names(fieldDiffs, f) {
        if f != field {
          assert Names(before, f);
          var i: nat :| i < |before| && before[i].field == f;
          assert fieldDiffs[i].field == f;
        }
      }
      forall i: nat | i < |fieldDiffs| ensures FieldDiffAt(fieldDiffs, a, b, i) {
        if i < |before| { assert FieldDiffAt(before, a, b, i); }
      }
      rest := rest - {field};
    }
    ed := EntityDiff(k, if fieldDiffs == [] then Unchanged else Modified, fieldDiffs);
  }

  function Bump(stats: DiffStats, kind: DiffKind): DiffStats {
    match kind
    case Added => stats.(added := stats.added + 1)
    case Removed => stats.(removed := stats.removed + 1)
    case Modified => stats.(modified := stats.modified + 1)
    case Unchanged => stats.(same := stats.same + 1)
  }

  /** The entry for one key. */
  method DiffEntity(a: Database, b: Database, k: Key) returns (ed: EntityDiff)
    requires k in a.rows || k in b.rows
    ensures ed.key == k && IsEntityDiff(ed, a, b)
  {
    if k !in b.rows {
      ed := EntityDiff(k, Removed, []);
    } else if k !in a.rows {
      ed := EntityDiff(k, Added, []);
    } else {
      ed := CompareEntityValues(k, a.rows[k], b.rows[k]);
    }
  }

  /** Lists the rows of one table, in arbitrary order. */
  method DiffTable(a: Database, b: Database, types: seq<EntityType>, n: nat, entityDiffs: seq<EntityDiff>,
                   stats: DiffStats) returns (entityDiffs': seq<EntityDiff>, stats': DiffStats)
    requires n < |types| && Distinct(types) && Progress(entityDiffs, stats, a, b, KeysIn(a, b, types[..n]), {})
    requires InTableOrder(entityDiffs, types)
    ensures Progress(entityDiffs', stats', a, b, KeysIn(a, b, types[..n + 1]), {})
    ensures InTableOrder(entityDiffs', types)
  {
    var ids := set k | k in a.rows.Keys + b.rows.Keys && k.kind == types[n];
    ghost var done := KeysIn(a, b, types[..n]);
    NextTable(a, b, types, n);
    ProgressOpen(entityDiffs, stats, a, b, done, ids);
    entityDiffs', stats' := entityDiffs, stats.(total := stats.total + |ids|);
    var rest := ids;
    while rest != {}
      invariant rest <= ids
      invariant Progress(entityDiffs', stats', a, b, done + ids, rest)
      invariant InTableOrder(entityDiffs', types)
      decreases rest
    {
      var k :| k in rest;
      var ed := DiffEntity(a, b, k);
      TableOrderStep(entityDiffs', a, b, types, n, ed);
      ProgressStep(entityDiffs', stats', a, b, done + ids, rest, ed);
      stats' := Bump(stats', ed.diffKind);
      entityDiffs' := entityDiffs' + [ed];
      rest := rest - {k};
    }
  }

  /** Compares table by table. */
  method Diff(a: Database, b: Database, types: seq<EntityType>) returns (r: DiffResult)
    requires Distinct(types)
    ensures IsDiff(r.entityDiffs, a, b, types) && InTableOrder(r.entityDiffs, types)
    ensures r.stats == StatsOf(a, b, types) && r.score == ScoreDivergence(r.stats)
  {
    var entityDiffs: seq<EntityDiff> := [];
    var stats := DiffStats(0, 0, 0, 0, 0);
    ProgressStart(a, b);
    var n := 0;
    while n < |types|
      invariant n <= |types|
      invariant Progress(entityDiffs, stats, a, b, KeysIn(a, b, types[..n]), {}) && InTableOrder(entityDiffs, types)
    {
      entityDiffs, stats := DiffTable(a, b, types, n, entityDiffs, stats);
      n := n + 1;
    }
    assert types[..|types|] == types;
    ProgressDone(entityDiffs, stats, a, b, types);
    r := DiffResult(entityDiffs, stats, ScoreDivergence(stats));
  }

  ghost function TableKeys(a: Database, b: Database, kind: EntityType): set<Key> {
    set k | k in a.rows.Keys + b.rows.Keys && k.kind == kind
  }

  lemma NextTable(a: Database, b: Database, types: seq<EntityType>, n: nat)
    requires n < |types| && Distinct(types)
    ensures KeysIn(a, b, types[..n + 1]) == KeysIn(a, b, types[..n]) + TableKeys(a, b, types[n])
    ensures KeysIn(a, b, types[..n]) !! TableKeys(a, b, types[n])
  {
    assert types[..n + 1] == types[..n] + [types[n]];
    assert types[n] !in types[..n];
  }

  lemma TableOrderStep(eds: seq<EntityDiff>, a: Database, b: Database, types: seq<EntityType>, n: nat, ed: EntityDiff)
    requires n < |types| && ed.key.kind == types[n]
    requires InTableOrder(eds, types) && ListedKeys(eds) <= KeysIn(a, b, types[..n + 1])
    ensures InTableOrder(eds + [ed], types)
  {
    forall i | 0 <= i < |eds| ensures TableBefore(types, eds[i].key.kind, ed.key.kind) {
      assert eds[i].key in ListedKeys(eds);
      var p :| 0 <= p < n + 1 && types[p] == eds[i].key.kind;
    }
  }

  lemma ProgressStart(a: Database, b: Database)
    ensures Progress([], DiffStats(0, 0, 0, 0, 0), a, b, KeysIn(a, b, []), {})
  {
    assert KeysIn(a, b, []) == {};
    assert forall kind :: KindIn(a, b, {}, kind) == {};
  }

  lemma ProgressOpen(eds: seq<EntityDiff>, stats: DiffStats, a: Database, b: Database, done: set<Key>, ids: set<Key>)
    requires Progress(eds, stats, a, b, done, {}) && done !! ids
    ensures Progress(eds, stats.(total := stats.total + |ids|), a, b, done + ids, ids)
  {
    assert done - {} == done == (done + ids) - ids;
  }

  lemma ProgressDone(eds: seq<EntityDiff>, stats: DiffStats, a: Database, b: Database, types: seq<EntityType>)
    requires Progress(eds, stats, a, b, KeysIn(a, b, types), {})
    ensures IsDiff(eds, a, b, types) && stats == StatsOf(a, b, types)
  {
    assert KeysIn(a, b, types) - {} == KeysIn(a, b, types);
  }

  /** The keys minus the remaining ones are listed and counted; the total counts all of them. */
  ghost predicate Progress(eds: seq<EntityDiff>, stats: DiffStats, a: Database, b: Database, keys: set<Key>,
                           rest: set<Key>)
  {
    && DistinctKeys(eds) && ListedKeys(eds) == keys - rest
    && (forall i: nat {:trigger DiffAt(eds, a, b, i)} :: i < |eds| ==> DiffAt(eds, a, b, i))
    && stats == Tally(a, b, keys - rest, |keys|)
  }

  lemma ProgressStep(eds: seq<EntityDiff>, stats: DiffStats, a: Database, b: Database, keys: set<Key>, rest: set<Key>,
                     ed: EntityDiff)
    requires Progress(eds, stats, a, b, keys, rest) && ed.key in rest && rest <= keys && IsEntityDiff(ed, a, b)
    ensures Progress(eds + [ed], Bump(stats, ed.diffKind), a, b, keys, rest - {ed.key})
  {
    var eds' := eds + [ed];
    KindOfDiff(ed, a, b);
    assert ListedKeys(eds') == ListedKeys(eds) + {ed.key} by { ListedPush(eds, ed); }
    assert keys - (rest - {ed.key}) == (keys - rest) + {ed.key};
    forall i | 0 <= i < |eds| ensures eds[i].key != ed.key {
      assert eds[i].key in ListedKeys(eds);
    }
    forall i: nat | i < |eds'| ensures DiffAt(eds', a, b, i) {
      if i < |eds| { assert DiffAt(eds, a, b, i); }
    }
    TallyStep(a, b, keys - rest, |keys|, ed.key);
  }

  lemma ListedPush(eds: seq<EntityDiff>, ed: EntityDiff)
    ensures ListedKeys(eds + [ed]) == ListedKeys(eds) + {ed.key}
  {
    var eds' := eds + [ed];
    assert eds'[|eds|] == ed;
    forall k | k in ListedKeys(eds) ensures k in ListedKeys(eds') {
      var i :| 0 <= i < |eds| && eds[i].key == k;
      assert eds'[i].key == k;
    }
  }

  lemma TallyStep(a: Database, b: Database, keys: set<Key>, total: nat, k: Key)
    requires k !in keys && (k in a.rows || k in b.rows)
    ensures Tally(a, b, keys + {k}, total) == Bump(Tally(a, b, keys, total), KindOf(a, b, k))
  {
    CountStep(a, b, keys, k, Added);
    CountStep(a, b, keys, k, Removed);
    CountStep(a, b, keys, k, Modified);
    CountStep(a, b, keys, k, Unchanged);
  }

  lemma CountStep(a: Database, b: Database, keys: set<Key>, k: Key, kind: DiffKind)
    requires k !in keys && (k in a.rows || k in b.rows)
    ensures |KindIn(a, b, keys + {k}, kind)| == |KindIn(a, b, keys, kind)| + if KindOf(a, b, k) == kind then 1 else 0
  {
    if KindOf(a, b, k) == kind {
      assert KindIn(a, b, keys + {k}, kind) == KindIn(a, b, keys, kind) + {k};
    } else {
      assert KindIn(a, b, keys + {k}, kind) == KindIn(a, b, keys, kind);
    }
  }

  // ── Laws ──

  /** Every compared key falls into exactly one class, and there is one entry per key. */
  lemma Conservation(eds: seq<EntityDiff>, a: Database, b: Database, types: seq<EntityType>)
    requires IsDiff(eds, a, b, types)
    ensures var s := StatsOf(a, b, types); s.added + s.removed + s.modified + s.same == s.total == |eds|
  {
    PartitionSize(KeysIn(a, b, types), OfKind(a, b, types, Added), OfKind(a, b, types, Removed),
                  OfKind(a, b, types, Modified), OfKind(a, b, types, Unchanged));
    ListedCount(eds);
  }

  lemma PartitionSize(all: set<Key>, w: set<Key>, x: set<Key>, y: set<Key>, z: set<Key>)
    requires w <= all && x <= all && y <= all && z <= all
    requires forall k :: k in all ==> k in w || k in x || k in y || k in z
    requires w !! x && w !! y && w !! z && x !! y && x !! z && y !! z
    ensures |w| + |x| + |y| + |z| == |all|
  {
    assert all == w + x + y + z;
    assert |w + x| == |w| + |x|;
    assert |w + x + y| == |w + x| + |y|;
  }

  lemma {:induction false} ListedCount(eds: seq<EntityDiff>)
    requires DistinctKeys(eds)
    ensures |ListedKeys(eds)| == |eds|
  {
    if eds != [] {
      var front, last := eds[..|eds| - 1], eds[|eds| - 1];
      assert eds == front + [last];
      ListedCount(front);
      ListedPush(front, last);
      assert last.key !in ListedKeys(front);
    }
  }

  function SwapFields(fds: seq<FieldDiff>): (r: seq<FieldDiff>)
    ensures |r| == |fds|
    ensures forall i :: 0 <= i < |fds| ==> r[i] == FieldDiff(fds[i].field, fds[i].after, fds[i].before)
  {
    seq(|fds|, i requires 0 <= i < |fds| => FieldDiff(fds[i].field, fds[i].after, fds[i].before))
  }

  function SwapKind(kind: DiffKind): DiffKind {
    match kind
    case Added => Removed
    case Removed => Added
    case Modified => Modified
    case Unchanged => Unchanged
  }

  function SwapDiff(ed: EntityDiff): EntityDiff {
    EntityDiff(ed.key, SwapKind(ed.diffKind), SwapFields(ed.fieldDiffs))
  }

  /** Swapping the branches turns every entry round. */
  lemma SwapEntity(ed: EntityDiff, a: Database, b: Database)
    requires IsEntityDiff(ed, a, b)
    ensures IsEntityDiff(SwapDiff(ed), b, a)
  {
    if ed.key in a.rows && ed.key in b.rows {
      SwapRows(ed.fieldDiffs, a.rows[ed.key], b.rows[ed.key]);
    }
  }

  /** Turning every entry of a diff round gives a diff of the swapped branches. */
  lemma SwapWholeDiff(eds: seq<EntityDiff>, a: Database, b: Database, types: seq<EntityType>)
    requires IsDiff(eds, a, b, types)
    ensures IsDiff(seq(|eds|, i requires 0 <= i < |eds| => SwapDiff(eds[i])), b, a, types)
  {
    var r := seq(|eds|, i requires 0 <= i < |eds| => SwapDiff(eds[i]));
    forall i: nat | i < |r| ensures DiffAt(r, b, a, i) {
      assert DiffAt(eds, a, b, i);
      SwapEntity(eds[i], a, b);
    }
    forall k | k in ListedKeys(eds) ensures k in ListedKeys(r) {
      var i :| 0 <= i < |eds| && eds[i].key == k;
      assert r[i].key == k;
    }
    assert ListedKeys(r) == ListedKeys(eds);
    assert KeysIn(b, a, types) == KeysIn(a, b, types);
  }

  lemma SwapRows(fds: seq<FieldDiff>, a: Row, b: Row)
    requires FieldDiffsOf(fds, a, b)
    ensures FieldDiffsOf(SwapFields(fds), b, a)
  {
    var r := SwapFields(fds);
    forall i: nat | i < |r| ensures FieldDiffAt(r, b, a, i) {
      assert FieldDiffAt(fds, a, b, i);
    }
    forall f | Differs(b, a, f) ensures Names(r, f) {
      assert Differs(a, b, f);
      var i: nat :| i < |fds| && fds[i].field == f;
      assert r[i].field == f;
    }
  }

  /** Swapping the branches swaps added and removed and keeps the score. */
  lemma SwapStats(a: Database, b: Database, types: seq<EntityType>)
    ensures var s, t := StatsOf(a, b, types), StatsOf(b, a, types);
      t == DiffStats(s.removed, s.added, s.modified, s.same, s.total) && ScoreDivergence(t) == ScoreDivergence(s)
  {
    assert KeysIn(a, b, types) == KeysIn(b, a, types);
    forall k | k in KeysIn(a, b, types) ensures KindOf(b, a, k) == SwapKind(KindOf(a, b, k)) {
      if k in a.rows && k in b.rows { SameRowSym(a.rows[k], b.rows[k]); }
    }
    assert OfKind(b, a, types, Added) == OfKind(a, b, types, Removed);
    assert OfKind(b, a, types, Removed) == OfKind(a, b, types, Added);
    assert OfKind(b, a, types, Modified) == OfKind(a, b, types, Modified);
    assert OfKind(b, a, types, Unchanged) == OfKind(a, b, types, Unchanged);
  }

  lemma SameRowSym(a: Row, b: Row)
    ensures SameRow(a, b) <==> SameRow(b, a)
  {
    if SameRow(a, b) {
      forall f ensures !Differs(b, a, f) { assert !Differs(a, b, f); }
    }
    if SameRow(b, a) {
      forall f ensures !Differs(a, b, f) { assert !Differs(b, a, f); }
    }
  }

  /** The score lies between 0 and 1 and is 0 exactly when nothing changed. */
  lemma ScoreRange(eds: seq<EntityDiff>, a: Database, b: Database, types: seq<EntityType>)
    requires IsDiff(eds, a, b, types)
    ensures 0.0 <= ScoreDivergence(StatsOf(a, b, types)) <= 1.0
    ensures ScoreDivergence(StatsOf(a, b, types)) == 0.0 <==>
        forall i :: 0 <= i < |eds| ==> eds[i].diffKind == Unchanged
  {
    Conservation(eds, a, b, types);
    var s := StatsOf(a, b, types);
    if s.total > 0 {
      Quotient((s.added + s.removed + s.modified) as real, s.total as real);
    }
    assert s.added + s.removed + s.modified == 0 <==> s.same == s.total;
    if s.same == s.total {
      AllUnchanged(a, b, types);
    }
    forall i: nat | i < |eds| ensures eds[i].key in KeysIn(a, b, types) && eds[i].diffKind == KindOf(a, b, eds[i].key) {
      assert DiffAt(eds, a, b, i);
      KindOfDiff(eds[i], a, b);
      assert eds[i].key in ListedKeys(eds);
    }
    if forall i :: 0 <= i < |eds| ==> eds[i].diffKind == Unchanged {
      forall k | k in KeysIn(a, b, types) ensures KindOf(a, b, k) == Unchanged {
        assert k in ListedKeys(eds);
      }
      assert OfKind(a, b, types, Unchanged) == KeysIn(a, b, types);
    }
  }

  lemma AllUnchanged(a: Database, b: Database, types: seq<EntityType>)
    requires |OfKind(a, b, types, Unchanged)| == |KeysIn(a, b, types)|
    ensures forall k :: k in KeysIn(a, b, types) ==> KindOf(a, b, k) == Unchanged
  {
    var x, y := OfKind(a, b, types, Unchanged), KeysIn(a, b, types);
    assert x <= y;
    assert y == x + (y - x);
    assert |y - x| == 0;
  }

  lemma SignOfProduct(x: real, d: real)
    requires d > 0.0
    ensures (x * d > 0.0 <==> x > 0.0) && (x * d < 0.0 <==> x < 0.0)
  {
    if x > 0.0 {
      assert x * d > 0.0;
    } else if x < 0.0 {
      assert x * d < 0.0;
    }
  }

  /** A quotient by a positive number, compared with 0 and 1. */
  lemma Quotient(x: real, d: real)
    requires d > 0.0
    ensures (x / d > 0.0 <==> x > 0.0) && (x / d < 0.0 <==> x < 0.0)
    ensures (x / d < 1.0 <==> x < d) && (x / d > 1.0 <==> x > d)
  {
    var q := x / d;
    assert q * d == x;
    SignOfProduct(q, d);
    SignOfProduct(1.0 - q, d);
    assert (1.0 - q) * d == d - x;
  }

  /** What a branch would be told to write for one entry. */
  function Reconstruct(ed: EntityDiff): Row {
    WithFields(map[ID_COLUMN := Str(ed.key.id)], ed.fieldDiffs)
  }

  function WithFields(base: Row, fds: seq<FieldDiff>): Row {
    if fds == [] then base
    else WithFields(base, fds[..|fds| - 1])[fds[|fds| - 1].field := fds[|fds| - 1].after]
  }

  lemma {:induction false} WithFieldsKey(base: Row, fds: seq<FieldDiff>, f: string)
    ensures f in WithFields(base, fds) <==> f in base || Names(fds, f)
    ensures f in base && !Names(fds, f) ==> WithFields(base, fds)[f] == base[f]
  {
    if fds != [] {
      var front, last := fds[..|fds| - 1], fds[|fds| - 1];
      WithFieldsKey(base, front, f);
      NamesPush(front, last, f);
      assert fds == front + [last];
    }
  }

  lemma NamesPush(fds: seq<FieldDiff>, fd: FieldDiff, f: string)
    ensures Names(fds + [fd], f) <==> Names(fds, f) || fd.field == f
  {
    var fds' := fds + [fd];
    assert fds'[|fds|] == fd;
    if Names(fds, f) {
      var i: nat :| i < |fds| && fds[i].field == f;
      assert fds'[i].field == f;
    }
  }

  lemma {:induction false} WithFieldsValue(base: Row, fds: seq<FieldDiff>, i: nat)
    requires i < |fds| && forall i, j :: 0 <= i < j < |fds| ==> fds[i].field != fds[j].field
    ensures fds[i].field in WithFields(base, fds) && WithFields(base, fds)[fds[i].field] == fds[i].after
  {
    if i < |fds| - 1 {
      WithFieldsValue(base, fds[..|fds| - 1], i);
    }
  }

  /** For a modified row, laying the recorded changes over the old row gives the new row. */
  lemma ReconstructRow(ed: EntityDiff, a: Database, b: Database)
    requires a.Wf() && b.Wf() && IsEntityDiff(ed, a, b) && ed.diffKind == Modified
    ensures ed.key in a.rows && ed.key in b.rows
    ensures SameRow(Overlay(a.rows[ed.key], Reconstruct(ed)), b.rows[ed.key])
  {
    var x, y := a.rows[ed.key], b.rows[ed.key];
    var fds := ed.fieldDiffs;
    var base := map[ID_COLUMN := Str(ed.key.id)];
    forall f ensures !Differs(Overlay(x, Reconstruct(ed)), y, f) {
      WithFieldsKey(base, fds, f);
      if Names(fds, f) {
        var i: nat :| i < |fds| && fds[i].field == f;
        WithFieldsValue(base, fds, i);
        assert FieldDiffAt(fds, x, y, i);
      } else {
        assert !Differs(x, y, f);
      }
    }
  }
}
