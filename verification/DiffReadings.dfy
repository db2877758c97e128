/** What a diff records and how it is scored, said of the values in the two databases. */
module DiffReadings {
  import opened Paths
  import opened JsonValues
  import opened BranchData
  import opened BranchDiff
  import opened FieldSimilarity
  import opened MergeReadings

  // ── Entries ──

  /** The fields the entry lists are exactly those with different values, each with both values. */
  ghost predicate RecordsFields(ed: EntityDiff, a: Database, b: Database) {
    && (forall i, j :: 0 <= i < j < |ed.fieldDiffs| ==> ed.fieldDiffs[i].field != ed.fieldDiffs[j].field)
    && (forall i :: 0 <= i < |ed.fieldDiffs| ==>
         var fd := ed.fieldDiffs[i];
         fd.before == Value(a, ed.key, fd.field) && fd.after == Value(b, ed.key, fd.field) && fd.before != fd.after)
    && forall f {:trigger Value(a, ed.key, f)} :: Value(a, ed.key, f) != Value(b, ed.key, f) ==>
         exists i :: 0 <= i < |ed.fieldDiffs| && ed.fieldDiffs[i].field == f
  }

  /** An entry is added, removed, modified or unchanged as the two databases have it. */
  lemma EntryReads(ed: EntityDiff, a: Database, b: Database)
    requires IsEntityDiff(ed, a, b)
    ensures ed.diffKind == Added <==> ed.key !in a.rows && ed.key in b.rows
    ensures ed.diffKind == Removed <==> ed.key in a.rows && ed.key !in b.rows
    ensures ed.diffKind == Unchanged <==>
              ed.key in a.rows && ed.key in b.rows && forall f :: Value(a, ed.key, f) == Value(b, ed.key, f)
    ensures ed.key in a.rows && ed.key in b.rows ==> RecordsFields(ed, a, b)
    ensures !(ed.key in a.rows && ed.key in b.rows) ==> ed.fieldDiffs == []
  {
    KindOfDiff(ed, a, b);
    if ed.key in a.rows && ed.key in b.rows {
      var x, y := a.rows[ed.key], b.rows[ed.key];
      forall f ensures Differs(x, y, f) <==> Value(a, ed.key, f) != Value(b, ed.key, f) { }
      assert SameRow(x, y) <==> forall f :: Value(a, ed.key, f) == Value(b, ed.key, f) by {
        if SameRow(x, y) {
          forall f ensures Value(a, ed.key, f) == Value(b, ed.key, f) { assert !Differs(x, y, f); }
        }
      }
      forall i: nat | i < |ed.fieldDiffs|
        ensures ed.fieldDiffs[i].before == Value(a, ed.key, ed.fieldDiffs[i].field)
        ensures ed.fieldDiffs[i].after == Value(b, ed.key, ed.fieldDiffs[i].field)
        ensures ed.fieldDiffs[i].before != ed.fieldDiffs[i].after
      {
        assert FieldDiffAt(ed.fieldDiffs, x, y, i);
      }
      forall f | Value(a, ed.key, f) != Value(b, ed.key, f)
        ensures exists i :: 0 <= i < |ed.fieldDiffs| && ed.fieldDiffs[i].field == f
      {
        assert Differs(x, y, f) && Names(ed.fieldDiffs, f);
      }
    }
  }

  // ── Counters and score ──

  ghost function PlacesOf(eds: seq<EntityDiff>, kind: DiffKind, n: nat): set<nat>
    requires n <= |eds|
  {
    if n == 0 then {}
    else if eds[n - 1].diffKind == kind then PlacesOf(eds, kind, n - 1) + {n - 1}
    else PlacesOf(eds, kind, n - 1)
  }

  ghost function KeysOf(eds: seq<EntityDiff>, kind: DiffKind, n: nat): set<Key>
    requires n <= |eds|
  {
    if n == 0 then {}
    else if eds[n - 1].diffKind == kind then KeysOf(eds, kind, n - 1) + {eds[n - 1].key}
    else KeysOf(eds, kind, n - 1)
  }

  ghost predicate KeyListed(eds: seq<EntityDiff>, kind: DiffKind, n: nat, k: Key) {
    exists i: nat :: i < n && i < |eds| && eds[i].diffKind == kind && eds[i].key == k
  }

  lemma {:induction false} PlaceRead(eds: seq<EntityDiff>, kind: DiffKind, n: nat, i: nat)
    requires n <= |eds|
    ensures i in PlacesOf(eds, kind, n) <==> i < n && eds[i].diffKind == kind
  {
    if n > 0 { PlaceRead(eds, kind, n - 1, i); }
  }

  lemma {:induction false} KeyRead(eds: seq<EntityDiff>, kind: DiffKind, n: nat, k: Key)
    requires n <= |eds|
    ensures k in KeysOf(eds, kind, n) <==> KeyListed(eds, kind, n, k)
  {
    if n > 0 {
      KeyRead(eds, kind, n - 1, k);
      if KeyListed(eds, kind, n, k) {
        var i: nat :| i < n && i < |eds| && eds[i].diffKind == kind && eds[i].key == k;
        assert i < n - 1 ==> KeyListed(eds, kind, n - 1, k);
      }
    }
  }

  lemma {:induction false} AsManyPlaces(eds: seq<EntityDiff>, kind: DiffKind, n: nat)
    requires DistinctKeys(eds) && n <= |eds|
    ensures |PlacesOf(eds, kind, n)| == |KeysOf(eds, kind, n)|
  {
    if n > 0 {
      AsManyPlaces(eds, kind, n - 1);
      NextIsNew(eds, kind, n - 1);
    }
  }

  lemma NextIsNew(eds: seq<EntityDiff>, kind: DiffKind, n: nat)
    requires DistinctKeys(eds) && n < |eds|
    ensures n !in PlacesOf(eds, kind, n) && eds[n].key !in KeysOf(eds, kind, n)
  {
    PlaceRead(eds, kind, n, n);
    KeyRead(eds, kind, n, eds[n].key);
  }

  /** The entry under a key has the kind the two databases give it. */
  lemma KeyOfKind(eds: seq<EntityDiff>, a: Database, b: Database, types: seq<EntityType>, kind: DiffKind, k: Key)
    requires IsDiff(eds, a, b, types)
    ensures k in OfKind(a, b, types, kind) <==> KeyListed(eds, kind, |eds|, k)
  {
    if k in OfKind(a, b, types, kind) {
      assert k in ListedKeys(eds);
      var i: nat :| i < |eds| && eds[i].key == k;
      assert DiffAt(eds, a, b, i);
      KindOfDiff(eds[i], a, b);
    }
    if KeyListed(eds, kind, |eds|, k) {
      var i: nat :| i < |eds| && eds[i].diffKind == kind && eds[i].key == k;
      assert DiffAt(eds, a, b, i);
      KindOfDiff(eds[i], a, b);
      assert k in ListedKeys(eds);
    }
  }

  lemma CounterOf(eds: seq<EntityDiff>, a: Database, b: Database, types: seq<EntityType>, kind: DiffKind)
    requires IsDiff(eds, a, b, types)
    ensures |PlacesOf(eds, kind, |eds|)| == |OfKind(a, b, types, kind)|
  {
    AsManyPlaces(eds, kind, |eds|);
    forall k ensures k in OfKind(a, b, types, kind) <==> k in KeysOf(eds, kind, |eds|) {
      KeyOfKind(eds, a, b, types, kind, k);
      KeyRead(eds, kind, |eds|, k);
    }
    assert OfKind(a, b, types, kind) == KeysOf(eds, kind, |eds|);
  }

  /** Every counter is the number of entries of its kind, and the total that of all entries. */
  lemma CountersRead(eds: seq<EntityDiff>, a: Database, b: Database, types: seq<EntityType>, kind: DiffKind,
                     at: set<nat>)
    requires IsDiff(eds, a, b, types)
    requires forall i: nat :: i in at <==> i < |eds| && eds[i].diffKind == kind
    ensures var s := StatsOf(a, b, types);
      && s.total == |eds|
      && |at| == match kind
                 case Added => s.added
                 case Removed => s.removed
                 case Modified => s.modified
                 case Unchanged => s.same
  {
    Conservation(eds, a, b, types);
    CounterOf(eds, a, b, types, kind);
    SamePlaces(eds, kind, at);
  }

  lemma SamePlaces(eds: seq<EntityDiff>, kind: DiffKind, at: set<nat>)
    requires forall i: nat :: i in at <==> i < |eds| && eds[i].diffKind == kind
    ensures at == PlacesOf(eds, kind, |eds|)
  {
    forall i: nat ensures i in at <==> i in PlacesOf(eds, kind, |eds|) {
      PlaceRead(eds, kind, |eds|, i);
    }
  }

  lemma ChangedCount(eds: seq<EntityDiff>, a: Database, b: Database, types: seq<EntityType>, changed: set<nat>)
    requires IsDiff(eds, a, b, types)
    requires forall i: nat :: i in changed <==> i < |eds| && eds[i].diffKind != Unchanged
    ensures var s := StatsOf(a, b, types); s.added + s.removed + s.modified == |changed| && s.total == |eds|
  {
    CounterOf(eds, a, b, types, Unchanged);
    Conservation(eds, a, b, types);
    OtherPlaces(eds, PlacesOf(eds, Unchanged, |eds|), changed);
  }

  lemma OtherPlaces(eds: seq<EntityDiff>, same: set<nat>, changed: set<nat>)
    requires same == PlacesOf(eds, Unchanged, |eds|)
    requires forall i: nat :: i in changed <==> i < |eds| && eds[i].diffKind != Unchanged
    ensures |same| + |changed| == |eds|
  {
    forall i: nat ensures i in FirstPlaces(|eds|) <==> i in same || i in changed {
      PlaceRead(eds, Unchanged, |eds|, i);
    }
    forall i: nat | i in same ensures i !in changed { PlaceRead(eds, Unchanged, |eds|, i); }
    assert FirstPlaces(|eds|) == same + changed;
  }

  ghost function FirstPlaces(n: nat): (s: set<nat>)
    ensures |s| == n && forall i: nat :: i in s <==> i < n
  {
    if n == 0 then {} else FirstPlaces(n - 1) + {n - 1}
  }

  /** The score is the share of the entries that are not unchanged; without entries it is 0. */
  lemma ScoreReads(eds: seq<EntityDiff>, a: Database, b: Database, types: seq<EntityType>, changed: set<nat>)
    requires IsDiff(eds, a, b, types)
    requires forall i: nat :: i in changed <==> i < |eds| && eds[i].diffKind != Unchanged
    ensures ScoreDivergence(StatsOf(a, b, types)) == if eds == [] then 0.0 else |changed| as real / |eds| as real
  {
    ChangedCount(eds, a, b, types, changed);
  }

  lemma Undo(x: real, d: real)
    requires d != 0.0
    ensures x / d * d == x
  {
  }

  // ── Similarity ──

  /** Numbers: one minus the distance, relative to the larger absolute value and at least 1, but not below 0. */
  lemma NumbersRead(x: real, y: real, distance: real, larger: real)
    requires distance >= 0.0 && (distance == x - y || distance == y - x)
    requires larger in {1.0, x, y, -x, -y} && larger >= 1.0 && -larger <= x <= larger && -larger <= y <= larger
    ensures distance > larger ==> NumericSimilarity(x, y) == 0.0
    ensures distance <= larger ==> (1.0 - NumericSimilarity(x, y)) * larger == distance
  {
    Undo(distance, larger);
    Quotient(distance, larger);
  }

  /** Arrays: the share of common elements among all elements; two empty arrays are the same. */
  lemma ArraysRead(a: seq<Json>, b: seq<Json>, common: set<Json>, all: set<Json>)
    requires forall x :: x in common <==> x in a && x in b
    requires forall x :: x in all <==> x in a || x in b
    ensures ArrayJaccard(a, b) == if all == {} then 1.0 else |common| as real / |all| as real
  {
    assert common == Elements(a) * Elements(b) && all == Elements(a) + Elements(b);
  }

  ghost function OrNull(fields: map<string, Json>, k: string): Json {
    if k in fields then fields[k] else Null
  }

  /** Objects: the average over the fields of either side, a missing one being null. */
  lemma ObjectsRead(a: map<string, Json>, b: map<string, Json>, ratio: Ratio, scores: map<string, real>)
    requires a != b && scores.Keys == a.Keys + b.Keys
    requires forall k :: k in scores ==> scores[k] == Similarity(OrNull(a, k), OrNull(b, k), ratio)
    ensures Similarity(Obj(a), Obj(b), ratio) == Sum(scores) / (|a.Keys + b.Keys|) as real
  {
    var both := GetCommonScores(a, b, ratio);
    ObjectScore(a, b, ratio, both);
    SameScores(a, b, ratio, both, scores);
    assert |scores| == |scores.Keys|;
  }

  lemma SameScores(a: map<string, Json>, b: map<string, Json>, ratio: Ratio, both: map<string, real>,
                   scores: map<string, real>)
    requires CommonScores(a, b, ratio, both) && scores.Keys == a.Keys + b.Keys
    requires forall k :: k in scores ==> scores[k] == Similarity(OrNull(a, k), OrNull(b, k), ratio)
    ensures scores == FieldScores(a, b, both)
  {
    forall k | k in scores ensures scores[k] == FieldScores(a, b, both)[k] {
      OthersRead(OrNull(a, k), OrNull(b, k), ratio);
    }
  }

  /** A number as a real. */
  ghost function NumberValue(v: Json): real
    requires v.Num?
  {
    match v.num
    case PosInt(n) => n as real
    case NegInt(i) => i as real
    case Float(r) => r
  }

  /** Everything else: equal or not; two different texts that are not empty have the ratio of the library. */
  lemma OthersRead(v: Json, w: Json, ratio: Ratio)
    ensures v == w ==> Similarity(v, w, ratio) == 1.0
    ensures v != w && v.Str? && w.Str? ==>
              Similarity(v, w, ratio) == if v.s == "" || w.s == "" then 0.0 else ratio(v.s, w.s)
    ensures v != w && v.Num? && w.Num? ==>
              Similarity(v, w, ratio) == NumericSimilarity(NumberValue(v), NumberValue(w))
    ensures v != w && v.Arr? && w.Arr? ==> Similarity(v, w, ratio) == ArrayJaccard(v.items, w.items)
    ensures v != w && !(v.Str? && w.Str?) && !(v.Num? && w.Num?) && !(v.Arr? && w.Arr?) && !(v.Obj? && w.Obj?) ==>
              Similarity(v, w, ratio) == 0.0
  {
  }

  /** The weighted score: added and removed rows count one, modified ones a half, of the rows of the base, of which
      there is at least one; it does not go beyond 1. */
  lemma WeightedReads(stats: DiffStats, baseTotal: nat, rows: real, changes: real)
    requires rows == if baseTotal == 0 then 1.0 else baseTotal as real
    requires 2.0 * changes == (2 * stats.added + 2 * stats.removed + stats.modified) as real
    ensures changes > rows ==> Score(stats, baseTotal) == 1.0
    ensures changes <= rows ==> Score(stats, baseTotal) * rows == changes
  {
    assert changes == stats.added as real + stats.removed as real + stats.modified as real * 0.5;
    Undo(changes, rows);
    Quotient(changes, rows);
  }
}
