/** When merging the same value in a second time changes nothing. */
module UnionAbsorption {
  import opened Wrappers
  import opened JsonValues
  import opened UnionMerge
  import opened UnionLaws
  import opened UnionAlgebra

  // ── The condition ──

  /** The timestamp a merged object carries: that of the side whose `updated_at` is taken. */
  function MergedStamp(a: map<string, Json>, b: map<string, Json>, o: Option<int>, t: Option<int>): Option<int> {
    if UPDATED_AT !in b then ExtractTimestamp(a)
    else if UPDATED_AT !in a then ExtractTimestamp(b)
    else if a[UPDATED_AT].Null? then ExtractTimestamp(b)
    else if b[UPDATED_AT].Null? then ExtractTimestamp(a)
    else if TheirsWins(o, t) then ExtractTimestamp(b) else ExtractTimestamp(a)
  }

  /** Ours inherits o in the first merge and o2 in the second, theirs inherits t in both. Going down,
      the second merge of an object starts from the timestamp the first one left in it. At a contested
      position ours must not win the first time and lose the second. What is taken over from theirs meets itself
      the second time and must be well-formed, and no array of theirs may repeat an identity. */
  ghost predicate Absorbs(v: Json, w: Json, o: Option<int>, t: Option<int>, o2: Option<int>)
    decreases v
  {
    match (v, w)
    case (Obj(a), Obj(b)) =>
      var ours, theirs := ExtractTimestamp(a).Or(o), ExtractTimestamp(b).Or(t);
      var again := MergedStamp(a, b, ours, theirs).Or(o2);
      forall k :: k in b ==> if k in a then Absorbs(a[k], b[k], ours, theirs, again) else WellFormed(b[k])
    case (Arr(a), Arr(b)) =>
      && DistinctIds(b) && NewItemsWellFormed(a, b)
      && forall i :: 0 <= i < |a| ==>
           var y := At(b, Ident(a[i]));
           y.Some? ==> Absorbs(a[i], y.value, o, t, o2)
    case (Null, _) => WellFormed(w)
    case (_, Null) => true
    case _ => if TheirsWins(o, t) then WellFormed(w) else !TheirsWins(o2, t) || v == w
  }

  ghost predicate NewItemsWellFormed(a: seq<Json>, b: seq<Json>) {
    forall j :: 0 <= j < |b| && Ident(b[j]) !in Ids(a) ==> WellFormed(b[j])
  }

  ghost predicate SameAgain(v: Json, w: Json, o: Option<int>, t: Option<int>, o2: Option<int>) {
    Union(Union(v, w, o, t), w, o2, t) == Union(v, w, o, t)
  }

  // ── Objects ──

  lemma MergedStampOf(a: map<string, Json>, b: map<string, Json>, ot: Option<int>, tt: Option<int>)
    ensures Union(Obj(a), Obj(b), ot, tt).Obj?
    ensures ExtractTimestamp(Union(Obj(a), Obj(b), ot, tt).fields)
         == MergedStamp(a, b, ExtractTimestamp(a).Or(ot), ExtractTimestamp(b).Or(tt))
  {
    UnionField(a, b, ot, tt, UPDATED_AT);
  }

  ghost predicate FieldAgain(a: map<string, Json>, b: map<string, Json>, ours: Option<int>, theirs: Option<int>,
                             again: Option<int>, k: string) {
    k in b ==> if k in a then SameAgain(a[k], b[k], ours, theirs, again) else WellFormed(b[k])
  }

  lemma AgainGet(a: map<string, Json>, b: map<string, Json>, o: Option<int>, t: Option<int>, o2: Option<int>, k: string)
    ensures Union(Obj(a), Obj(b), o, t).Obj? && Union(Union(Obj(a), Obj(b), o, t), Obj(b), o2, t).Obj?
    ensures var ours, theirs := ExtractTimestamp(a).Or(o), ExtractTimestamp(b).Or(t);
      Get(Union(Union(Obj(a), Obj(b), o, t), Obj(b), o2, t).fields, k) == Get(Union(Obj(a), Obj(b), o, t).fields, k)
      <==> FieldAgain(a, b, ours, theirs, MergedStamp(a, b, ours, theirs).Or(o2), k)
  {
    MergedStampOf(a, b, o, t);
    UnionField(a, b, o, t, k);
    var m := Union(Obj(a), Obj(b), o, t).fields;
    UnionField(m, b, o2, t, k);
    if k in b {
      SelfMerge(b[k], ExtractTimestamp(m).Or(o2), ExtractTimestamp(b).Or(t));
    }
  }

  /** An object is absorbed exactly when each common field is and the others of theirs are well-formed. */
  lemma AbsorbFields(a: map<string, Json>, b: map<string, Json>, o: Option<int>, t: Option<int>, o2: Option<int>)
    ensures var ours, theirs := ExtractTimestamp(a).Or(o), ExtractTimestamp(b).Or(t);
      SameAgain(Obj(a), Obj(b), o, t, o2)
      <==> forall k :: FieldAgain(a, b, ours, theirs, MergedStamp(a, b, ours, theirs).Or(o2), k)
  {
    var ours, theirs := ExtractTimestamp(a).Or(o), ExtractTimestamp(b).Or(t);
    var again := MergedStamp(a, b, ours, theirs).Or(o2);
    AgainGet(a, b, o, t, o2, "");
    var m := Union(Obj(a), Obj(b), o, t).fields;
    var n := Union(Obj(m), Obj(b), o2, t).fields;
    forall k ensures Get(n, k) == Get(m, k) <==> FieldAgain(a, b, ours, theirs, again, k) {
      AgainGet(a, b, o, t, o2, k);
    }
    if forall k :: FieldAgain(a, b, ours, theirs, again, k) {
      forall k ensures Get(n, k) == Get(m, k) {
        assert FieldAgain(a, b, ours, theirs, again, k);
      }
      SameFields(n, m);
    }
  }

  // ── Arrays ──

  ghost predicate SameAgainItem(a: seq<Json>, b: seq<Json>, o: Option<int>, t: Option<int>, o2: Option<int>, i: nat)
    requires i < |a|
  {
    var y := At(b, Ident(a[i]));
    y.Some? ==> SameAgain(a[i], y.value, o, t, o2)
  }

  ghost predicate AbsorbsItem(a: seq<Json>, b: seq<Json>, o: Option<int>, t: Option<int>, o2: Option<int>, i: nat)
    requires i < |a|
  {
    var y := At(b, Ident(a[i]));
    y.Some? ==> Absorbs(a[i], y.value, o, t, o2)
  }

  ghost predicate FirmItems(b: seq<Json>) {
    forall j :: 0 <= j < |b| ==> Firm(Ident(b[j]))
  }

  /** The i-th item of a merge of a with b keeps its partner in b. */
  lemma MergedPartner(a: seq<Json>, b: seq<Json>, o: Option<int>, t: Option<int>, i: nat)
    requires DistinctIds(b) && FirmItems(b) && i < |a|
    ensures Ident(MergedItem(a, b, o, t, i)) == Ident(a[i])
    ensures MergedItem(a, b, o, t, i) ==
        var y := At(b, Ident(a[i])); if y.Some? then Union(a[i], y.value, o, t) else a[i]
  {
    FirstMatchSpec(a[i], b);
    var m := FirstMatch(a[i], b, 0);
    if m.Some? {
      SameIdentityIsEquality(a[i], b[m.value]);
      KeepsIdentity(a[i], b[m.value], o, t);
    }
  }

  /** The i-th item stays as it is when b is merged in. */
  ghost predicate Fixed(m: seq<Json>, b: seq<Json>, o2: Option<int>, t: Option<int>, i: nat)
    requires i < |m|
  {
    MergedItem(m, b, o2, t, i) == m[i]
  }

  /** Merging again leaves item i alone exactly when merging it with its partner again does. */
  lemma ItemAgain(a: seq<Json>, b: seq<Json>, o: Option<int>, t: Option<int>, o2: Option<int>, i: nat)
    requires DistinctIds(b) && FirmItems(b) && i < |a|
    ensures Fixed(UnionItems(a, b, o, t), b, o2, t, i) <==> SameAgainItem(a, b, o, t, o2, i)
  {
    MergedPartner(a, b, o, t, i);
    MergedPartner(UnionItems(a, b, o, t), b, o2, t, i);
  }

  lemma {:induction false} OriginOf(s: seq<Json>, used: set<nat>, n: nat, q: nat) returns (j: nat)
    requires n <= |s| && q < |Leftover(s, used, n)|
    ensures j < n && j !in used && Leftover(s, used, n)[q] == s[j]
  {
    j := n - 1;
    if n - 1 in used || q < |Leftover(s, used, n - 1)| {
      j := OriginOf(s, used, n - 1, q);
    }
  }

  /** A new item of theirs meets itself the second time. */
  lemma NewItemAgain(m: seq<Json>, b: seq<Json>, t: Option<int>, o2: Option<int>, j: nat, p: nat)
    requires DistinctIds(b) && j < |b| && p < |m| && m[p] == b[j]
    ensures Fixed(m, b, o2, t, p) <==> WellFormed(b[j])
  {
    FirstMatchUnique(b[j], b, j);
    SelfMerge(b[j], o2, t);
  }

  ghost predicate AllAgain(a: seq<Json>, b: seq<Json>, o: Option<int>, t: Option<int>, o2: Option<int>) {
    forall i: nat {:trigger SameAgainItem(a, b, o, t, o2, i)} :: i < |a| ==> SameAgainItem(a, b, o, t, o2, i)
  }

  ghost predicate AllFixed(m: seq<Json>, b: seq<Json>, o2: Option<int>, t: Option<int>) {
    forall i: nat {:trigger Fixed(m, b, o2, t, i)} :: i < |m| ==> Fixed(m, b, o2, t, i)
  }

  ghost predicate AllConsumedBy(m: seq<Json>, b: seq<Json>) {
    forall j: nat :: j < |b| ==> j in Consumed(m, b)
  }

  /** An array stays as it is exactly when its items do and each item of theirs is the first match of one. */
  lemma ArrayFixed(m: seq<Json>, b: seq<Json>, o2: Option<int>, t: Option<int>)
    ensures UnionItems(m, b, o2, t) == m ==> AllFixed(m, b, o2, t) && DistinctIds(b) && AllConsumedBy(m, b)
    ensures AllFixed(m, b, o2, t) && AllConsumedBy(m, b) ==> UnionItems(m, b, o2, t) == m
  {
    var n, mine := UnionItems(m, b, o2, t), OurItems(m, b, o2, t);
    if n == m {
      NothingLeft(m, b, o2, t);
      forall i: nat | i < |m| ensures Fixed(m, b, o2, t, i) {
        assert n[i] == mine[i];
      }
    }
    if AllFixed(m, b, o2, t) && AllConsumedBy(m, b) {
      AllConsumed(b, Consumed(m, b), |b|);
      forall i: nat | i < |m| ensures mine[i] == m[i] {
        assert Fixed(m, b, o2, t, i);
      }
      assert n == mine + [];
    }
  }

  lemma FixedFirm(m: seq<Json>, b: seq<Json>, o2: Option<int>, t: Option<int>)
    requires AllFixed(m, b, o2, t) && AllConsumedBy(m, b)
    ensures FirmItems(b)
  {
    forall j: nat | j < |b| ensures Firm(Ident(b[j])) {
      assert j in Consumed(m, b);
      var k: nat :| k < |m| && FirstMatch(m[k], b, 0) == Some(j);
      assert Fixed(m, b, o2, t, k);
      SameIdentityIsEquality(m[k], b[j]);
      KeepsIdentity(m[k], b[j], o2, t);
    }
  }

  /** Behind ours a merge has the items of theirs that matched nothing, and those alone. */
  lemma NewItemAt(a: seq<Json>, b: seq<Json>, o: Option<int>, t: Option<int>, p: nat) returns (j: nat)
    requires DistinctIds(b) && |a| <= p < |UnionItems(a, b, o, t)|
    ensures j < |b| && Ident(b[j]) !in Ids(a) && UnionItems(a, b, o, t)[p] == b[j]
  {
    j := OriginOf(b, Consumed(a, b), |b|, p - |a|);
    ConsumedSpec(a, b, j);
  }

  lemma PlaceOfNew(a: seq<Json>, b: seq<Json>, o: Option<int>, t: Option<int>, j: nat) returns (p: nat)
    requires DistinctIds(b) && j < |b| && Ident(b[j]) !in Ids(a)
    ensures |a| <= p < |UnionItems(a, b, o, t)| && UnionItems(a, b, o, t)[p] == b[j]
  {
    ConsumedSpec(a, b, j);
    LeftoverInMerge(a, b, o, t, j);
    p := |a| + Kept(Consumed(a, b), j);
  }

  lemma NewItemsFixed(a: seq<Json>, b: seq<Json>, o: Option<int>, t: Option<int>, o2: Option<int>, m: seq<Json>)
    requires DistinctIds(b) && m == UnionItems(a, b, o, t)
    ensures NewItemsWellFormed(a, b) <==>
        forall i: nat {:trigger Fixed(m, b, o2, t, i)} :: |a| <= i < |m| ==> Fixed(m, b, o2, t, i)
  {
    if NewItemsWellFormed(a, b) {
      forall i: nat | |a| <= i < |m| ensures Fixed(m, b, o2, t, i) {
        var j := NewItemAt(a, b, o, t, i);
        NewItemAgain(m, b, t, o2, j, i);
      }
    } else {
      var j: nat :| j < |b| && Ident(b[j]) !in Ids(a) && !WellFormed(b[j]);
      var p := PlaceOfNew(a, b, o, t, j);
      NewItemAgain(m, b, t, o2, j, p);
    }
  }

  lemma ItemsFixed(a: seq<Json>, b: seq<Json>, o: Option<int>, t: Option<int>, o2: Option<int>)
    requires DistinctIds(b) && FirmItems(b)
    ensures AllFixed(UnionItems(a, b, o, t), b, o2, t) <==> NewItemsWellFormed(a, b) && AllAgain(a, b, o, t, o2)
  {
    var m := UnionItems(a, b, o, t);
    NewItemsFixed(a, b, o, t, o2, m);
    forall i: nat | i < |a| ensures Fixed(m, b, o2, t, i) <==> SameAgainItem(a, b, o, t, o2, i) {
      ItemAgain(a, b, o, t, o2, i);
    }
    if NewItemsWellFormed(a, b) && AllAgain(a, b, o, t, o2) {
      forall i: nat | i < |m| ensures Fixed(m, b, o2, t, i) {
        assert i < |a| ==> SameAgainItem(a, b, o, t, o2, i);
      }
    }
    if AllFixed(m, b, o2, t) {
      forall i: nat | i < |a| ensures SameAgainItem(a, b, o, t, o2, i) {
        assert Fixed(m, b, o2, t, i);
      }
    }
  }

  /** Every item of theirs has a partner in the merge. */
  lemma MatchedAgain(a: seq<Json>, b: seq<Json>, o: Option<int>, t: Option<int>, j: nat)
    requires DistinctIds(b) && FirmItems(b) && j < |b|
    ensures j in Consumed(UnionItems(a, b, o, t), b)
  {
    var m := UnionItems(a, b, o, t);
    ConsumedSpec(a, b, j);
    if Ident(b[j]) in Ids(a) {
      var i: nat :| i < |a| && Ids(a)[i] == Ident(b[j]);
      MergedPartner(a, b, o, t, i);
      assert m[i] == MergedItem(a, b, o, t, i);
      FirstMatchUnique(m[i], b, j);
    } else {
      LeftoverInMerge(a, b, o, t, j);
      FirstMatchUnique(b[j], b, j);
    }
  }

  /** An array is absorbed exactly when theirs repeats no identity, its new items and all identities are well-formed,
      and each item with a partner is absorbed. */
  lemma AbsorbItems(a: seq<Json>, b: seq<Json>, o: Option<int>, t: Option<int>, o2: Option<int>)
    ensures SameAgain(Arr(a), Arr(b), o, t, o2)
        <==> DistinctIds(b) && FirmItems(b) && NewItemsWellFormed(a, b) && AllAgain(a, b, o, t, o2)
  {
    UnionArrays(a, b, o, t);
    var m := UnionItems(a, b, o, t);
    UnionArrays(m, b, o2, t);
    ArrayFixed(m, b, o2, t);
    if UnionItems(m, b, o2, t) == m {
      FixedFirm(m, b, o2, t);
    }
    if DistinctIds(b) && FirmItems(b) {
      ItemsFixed(a, b, o, t, o2);
      forall j: nat | j < |b| ensures j in Consumed(m, b) { MatchedAgain(a, b, o, t, j); }
    }
  }

  // ── Identities ──

  /** Only a well-formed value is absorbed by itself. */
  lemma {:induction false} AbsorbsItself(v: Json, o: Option<int>, t: Option<int>, o2: Option<int>)
    requires Absorbs(v, v, o, t, o2)
    ensures WellFormed(v)
    decreases v
  {
    match v
    case Obj(f) =>
      var ours, theirs := ExtractTimestamp(f).Or(o), ExtractTimestamp(f).Or(t);
      forall k | k in f ensures WellFormed(f[k]) {
        AbsorbsItself(f[k], ours, theirs, MergedStamp(f, f, ours, theirs).Or(o2));
      }
    case Arr(a) =>
      forall i: nat | i < |a| ensures WellFormed(a[i]) {
        AtIndex(a, i);
        AbsorbsItself(a[i], o, t, o2);
      }
    case _ =>
  }

  /** So absorbing an item with the same identity makes the identity well-formed. */
  lemma AbsorbsFirm(x: Json, y: Json, o: Option<int>, t: Option<int>, o2: Option<int>)
    requires Ident(x) == Ident(y) && Absorbs(x, y, o, t, o2)
    ensures Firm(Ident(x))
  {
    match Ident(x)
    case ById(d) =>
      var ours, theirs := ExtractTimestamp(x.fields).Or(o), ExtractTimestamp(y.fields).Or(t);
      AbsorbsItself(d, ours, theirs, MergedStamp(x.fields, y.fields, ours, theirs).Or(o2));
    case ByValue(_) =>
      AbsorbsItself(x, o, t, o2);
  }

  lemma AbsorbsFirmItems(a: seq<Json>, b: seq<Json>, o: Option<int>, t: Option<int>, o2: Option<int>)
    requires Absorbs(Arr(a), Arr(b), o, t, o2)
    ensures FirmItems(b)
  {
    forall j: nat | j < |b| ensures Firm(Ident(b[j])) {
      if Ident(b[j]) in Ids(a) {
        var i: nat :| i < |a| && Ids(a)[i] == Ident(b[j]);
        AtIndex(b, j);
        AbsorbsFirm(a[i], b[j], o, t, o2);
      } else {
        KeepsIdentity(b[j], b[j], o, t);
      }
    }
  }

  ghost predicate AllAbsorb(a: seq<Json>, b: seq<Json>, o: Option<int>, t: Option<int>, o2: Option<int>) {
    forall i: nat {:trigger AbsorbsItem(a, b, o, t, o2, i)} :: i < |a| ==> AbsorbsItem(a, b, o, t, o2, i)
  }

  lemma ItemsAbsorb(a: seq<Json>, b: seq<Json>, o: Option<int>, t: Option<int>, o2: Option<int>)
    ensures Absorbs(Arr(a), Arr(b), o, t, o2)
        <==> DistinctIds(b) && NewItemsWellFormed(a, b) && AllAbsorb(a, b, o, t, o2)
  {
    if AllAbsorb(a, b, o, t, o2) {
      forall i: nat | i < |a| && At(b, Ident(a[i])).Some? ensures Absorbs(a[i], At(b, Ident(a[i])).value, o, t, o2) {
        assert AbsorbsItem(a, b, o, t, o2, i);
      }
    }
  }

  lemma FieldsAbsorb(a: map<string, Json>, b: map<string, Json>, ours: Option<int>, theirs: Option<int>,
                     again: Option<int>)
    requires forall k :: k in a && k in b ==>
               (SameAgain(a[k], b[k], ours, theirs, again) <==> Absorbs(a[k], b[k], ours, theirs, again))
    ensures (forall k :: k in b ==> if k in a then Absorbs(a[k], b[k], ours, theirs, again) else WellFormed(b[k]))
       <==> forall k :: FieldAgain(a, b, ours, theirs, again, k)
  {
    if forall k :: FieldAgain(a, b, ours, theirs, again, k) {
      forall k | k in b ensures if k in a then Absorbs(a[k], b[k], ours, theirs, again) else WellFormed(b[k]) {
        assert FieldAgain(a, b, ours, theirs, again, k);
      }
    }
  }

  // ── The law ──

  /** Merging the same value in again changes nothing exactly on the pairs described by Absorbs. */
  lemma {:induction false} AbsorptionExact(v: Json, w: Json, o: Option<int>, t: Option<int>, o2: Option<int>)
    ensures SameAgain(v, w, o, t, o2) <==> Absorbs(v, w, o, t, o2)
    decreases v
  {
    match (v, w)
    case (Obj(a), Obj(b)) =>
      var ours, theirs := ExtractTimestamp(a).Or(o), ExtractTimestamp(b).Or(t);
      var again := MergedStamp(a, b, ours, theirs).Or(o2);
      forall k | k in a && k in b
        ensures SameAgain(a[k], b[k], ours, theirs, again) <==> Absorbs(a[k], b[k], ours, theirs, again)
      {
        AbsorptionExact(a[k], b[k], ours, theirs, again);
      }
      ObjectExact(a, b, o, t, o2);
    case (Arr(a), Arr(b)) =>
      forall i: nat | i < |a| ensures SameAgainItem(a, b, o, t, o2, i) <==> AbsorbsItem(a, b, o, t, o2, i) {
        if At(b, Ident(a[i])).Some? {
          AbsorptionExact(a[i], At(b, Ident(a[i])).value, o, t, o2);
        }
      }
      ArrayExact(a, b, o, t, o2);
    case _ => ScalarExact(v, w, o, t, o2);
  }

  lemma ScalarExact(v: Json, w: Json, o: Option<int>, t: Option<int>, o2: Option<int>)
    requires !(v.Obj? && w.Obj?) && !(v.Arr? && w.Arr?)
    ensures SameAgain(v, w, o, t, o2) <==> Absorbs(v, w, o, t, o2)
  {
    SelfMerge(w, o2, t);
  }

  lemma ObjectExact(a: map<string, Json>, b: map<string, Json>, o: Option<int>, t: Option<int>, o2: Option<int>)
    requires var ours, theirs := ExtractTimestamp(a).Or(o), ExtractTimestamp(b).Or(t);
      var again := MergedStamp(a, b, ours, theirs).Or(o2);
      forall k :: k in a && k in b ==>
        (SameAgain(a[k], b[k], ours, theirs, again) <==> Absorbs(a[k], b[k], ours, theirs, again))
    ensures SameAgain(Obj(a), Obj(b), o, t, o2) <==> Absorbs(Obj(a), Obj(b), o, t, o2)
  {
    var ours, theirs := ExtractTimestamp(a).Or(o), ExtractTimestamp(b).Or(t);
    AbsorbFields(a, b, o, t, o2);
    FieldsAbsorb(a, b, ours, theirs, MergedStamp(a, b, ours, theirs).Or(o2));
  }

  lemma ArrayExact(a: seq<Json>, b: seq<Json>, o: Option<int>, t: Option<int>, o2: Option<int>)
    requires forall i: nat {:trigger SameAgainItem(a, b, o, t, o2, i)} {:trigger AbsorbsItem(a, b, o, t, o2, i)} ::
               i < |a| ==> (SameAgainItem(a, b, o, t, o2, i) <==> AbsorbsItem(a, b, o, t, o2, i))
    ensures SameAgain(Arr(a), Arr(b), o, t, o2) <==> Absorbs(Arr(a), Arr(b), o, t, o2)
  {
    AbsorbItems(a, b, o, t, o2);
    ItemsAbsorb(a, b, o, t, o2);
    if Absorbs(Arr(a), Arr(b), o, t, o2) {
      AbsorbsFirmItems(a, b, o, t, o2);
    }
  }

  lemma {:induction false} UnstampedAbsorbs(v: Json, w: Json, o: Option<int>, t: Option<int>)
    requires WellFormed(w) && NoStamp(v) && NoStamp(w)
    ensures Absorbs(v, w, o, t, o)
    decreases v
  {
    match (v, w)
    case (Obj(a), Obj(b)) =>
      forall k | k in a && k in b ensures Absorbs(a[k], b[k], o, t, o) {
        UnstampedAbsorbs(a[k], b[k], o, t);
      }
    case (Arr(a), Arr(b)) =>
      forall i | 0 <= i < |a| && At(b, Ident(a[i])).Some? ensures Absorbs(a[i], At(b, Ident(a[i])).value, o, t, o) {
        var j :| 0 <= j < |b| && b[j] == At(b, Ident(a[i])).value;
        UnstampedAbsorbs(a[i], b[j], o, t);
      }
    case _ =>
  }

  /** Values without timestamps always absorb a well-formed one. */
  lemma Absorption(v: Json, w: Json, ot: Option<int>, tt: Option<int>)
    requires WellFormed(w) && NoStamp(v) && NoStamp(w)
    ensures Union(Union(v, w, ot, tt), w, ot, tt) == Union(v, w, ot, tt)
  {
    UnstampedAbsorbs(v, w, ot, tt);
    AbsorptionExact(v, w, ot, tt, ot);
  }

  /** With timestamps absorption can fail: a nested object that first loses to an inherited
      timestamp brings its own along and wins the second time. */
  lemma AbsorptionCounterexample()
    ensures var x, y := Obj(map["k" := Bool(false)]), Obj(map["k" := Bool(true), UPDATED_AT := Num(PosInt(3))]);
      var v, w := Obj(map[UPDATED_AT := Num(PosInt(5)), "x" := x]), Obj(map["x" := y]);
      WellFormed(v) && WellFormed(w) && Union(Union(v, w, None, None), w, None, None) != Union(v, w, None, None)
  {
    var x, y := Obj(map["k" := Bool(false)]), Obj(map["k" := Bool(true), UPDATED_AT := Num(PosInt(3))]);
    var v, w := Obj(map[UPDATED_AT := Num(PosInt(5)), "x" := x]), Obj(map["x" := y]);
    var once := Union(v, w, None, None);
    UnionField(v.fields, w.fields, None, None, "x");
    UnionField(v.fields, w.fields, None, None, UPDATED_AT);
    var x' := Union(x, y, Some(5), None);
    assert once.fields["x"] == x' && once.fields[UPDATED_AT] == Num(PosInt(5));
    UnionField(x.fields, y.fields, Some(5), None, "k");
    UnionField(x.fields, y.fields, Some(5), None, UPDATED_AT);
    assert x'.fields["k"] == Bool(false) && x'.fields[UPDATED_AT] == Num(PosInt(3));
    UnionField(once.fields, w.fields, None, None, "x");
    UnionField(x'.fields, y.fields, Some(5), None, "k");
    assert Union(once, w, None, None).fields["x"].fields["k"] == Bool(true);
  }
}
