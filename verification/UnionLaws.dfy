/** Algebraic laws of the union merge: identities, idempotence, closure. */
module UnionLaws {
  import opened Wrappers
  import opened JsonValues
  import opened UnionMerge

  // ── Item identities ──

  datatype Identity = ById(id: Json) | ByValue(value: Json)

  function Ident(v: Json): Identity {
    if v.Obj? && ID in v.fields then ById(v.fields[ID]) else ByValue(v)
  }

  /** Matching is equality of identities, hence an equivalence. */
  lemma SameIdentityIsEquality(l: Json, r: Json)
    ensures SameIdentity(l, r) <==> Ident(l) == Ident(r)
  {
  }

  function Ids(a: seq<Json>): (r: seq<Identity>)
    ensures |r| == |a| && forall i :: 0 <= i < |a| ==> r[i] == Ident(a[i])
  {
    seq(|a|, i requires 0 <= i < |a| => Ident(a[i]))
  }

  ghost predicate DistinctIds(a: seq<Json>) {
    forall i, j :: 0 <= i < j < |a| ==> Ident(a[i]) != Ident(a[j])
  }

  /** Every array, at every depth, holds pairwise distinct identities. */
  ghost predicate WellFormed(v: Json)
    decreases v
  {
    match v
    case Arr(items) => DistinctIds(items) && forall i :: 0 <= i < |items| ==> WellFormed(items[i])
    case Obj(fields) => forall k :: k in fields ==> WellFormed(fields[k])
    case _ => true
  }

  // ── Arrays seen as ordered maps from identity to item ──

  /** The first item with the given identity. */
  function At(a: seq<Json>, id: Identity): (r: Option<Json>)
    ensures r.Some? ==> r.value in a && Ident(r.value) == id
    ensures r.None? <==> id !in Ids(a)
  {
    if a == [] then None
    else if Ident(a[0]) == id then assert Ids(a)[0] == id; Some(a[0])
    else
      var r := At(a[1..], id);
      assert Ids(a) == [Ident(a[0])] + Ids(a[1..]);
      r
  }

  lemma {:induction false} AtIndex(a: seq<Json>, i: nat)
    requires DistinctIds(a) && i < |a|
    ensures At(a, Ident(a[i])) == Some(a[i])
  {
    if i > 0 {
      AtIndex(a[1..], i - 1);
    }
  }

  lemma {:induction false} AtConcat(a: seq<Json>, b: seq<Json>, id: Identity)
    ensures At(a + b, id) == At(a, id).Or(At(b, id))
  {
    if a == [] {
      assert a + b == b;
    } else {
      assert (a + b)[1..] == a[1..] + b;
      AtConcat(a[1..], b, id);
    }
  }

  /** Two arrays with the same identity sequence and the same item under each are equal. */
  lemma SameView(a: seq<Json>, b: seq<Json>)
    requires DistinctIds(a) && Ids(a) == Ids(b)
    requires forall id {:trigger At(a, id)} :: At(a, id) == At(b, id)
    ensures a == b
  {
    assert |a| == |Ids(a)| == |b|;
    forall i | 0 <= i < |a| ensures a[i] == b[i] {
      assert Ids(a)[i] == Ids(b)[i];
      DistinctByIds(a, b);
      AtIndex(a, i);
      AtIndex(b, i);
    }
  }

  lemma DistinctByIds(a: seq<Json>, b: seq<Json>)
    requires DistinctIds(a) && Ids(a) == Ids(b)
    ensures DistinctIds(b)
  {
    forall i, j | 0 <= i < j < |b| ensures Ident(b[i]) != Ident(b[j]) {
      assert Ids(a)[i] == Ids(b)[i] && Ids(a)[j] == Ids(b)[j];
    }
  }

  /** The members of s that are not in t, in order. */
  function Minus(s: seq<Identity>, t: seq<Identity>): (r: seq<Identity>)
    ensures forall x :: x in r <==> x in s && x !in t
  {
    if s == [] then []
    else
      var last := s[|s| - 1];
      assert s == s[..|s| - 1] + [last];
      if last in t then Minus(s[..|s| - 1], t) else Minus(s[..|s| - 1], t) + [last]
  }

  /** Merging two optional items: one side missing means the other is kept. */
  function UnionOpt(x: Option<Json>, y: Option<Json>, ot: Option<int>, tt: Option<int>): Option<Json> {
    if x.None? then y else if y.None? then x else Some(Union(x.value, y.value, ot, tt))
  }

  // ── Idempotence ──

  lemma FirstMatchUnique(x: Json, b: seq<Json>, j: nat)
    requires DistinctIds(b) && j < |b| && Ident(x) == Ident(b[j])
    ensures FirstMatch(x, b, 0) == Some(j)
  {
    SameIdentityIsEquality(x, b[j]);
    var m := FirstMatch(x, b, 0);
    if m.Some? && m.value != j {
      SameIdentityIsEquality(x, b[m.value]);
    }
  }

  lemma FirstMatchSpec(x: Json, b: seq<Json>)
    requires DistinctIds(b)
    ensures var m := FirstMatch(x, b, 0);
      At(b, Ident(x)) == if m.Some? then Some(b[m.value]) else None
  {
    var m := FirstMatch(x, b, 0);
    if m.Some? {
      SameIdentityIsEquality(x, b[m.value]);
      AtIndex(b, m.value);
    } else {
      forall j | 0 <= j < |b| ensures Ids(b)[j] != Ident(x) {
        SameIdentityIsEquality(x, b[j]);
      }
    }
  }

  /** Merging a well-formed value with itself changes nothing, whatever the timestamps. */
  lemma {:induction false} Idempotent(v: Json, ot: Option<int>, tt: Option<int>)
    requires WellFormed(v)
    ensures Union(v, v, ot, tt) == v
    decreases v
  {
    match v
    case Obj(f) =>
      var o, t := ExtractTimestamp(f).Or(ot), ExtractTimestamp(f).Or(tt);
      forall k | k in f ensures Union(f[k], f[k], o, t) == f[k] {
        Idempotent(f[k], o, t);
      }
    case Arr(a) =>
      forall i: nat | i < |a| ensures MergedItem(a, a, ot, tt, i) == a[i] && i in Consumed(a, a) {
        FirstMatchUnique(a[i], a, i);
        Idempotent(a[i], ot, tt);
      }
      AllConsumed(a, Consumed(a, a), |a|);
      UnionArrays(a, a, ot, tt);
      assert UnionItems(a, a, ot, tt) == a;
    case _ =>
  }

  lemma {:induction false} AllConsumed(s: seq<Json>, used: set<nat>, n: nat)
    requires n <= |s| && forall i: nat :: i < n ==> i in used
    ensures Leftover(s, used, n) == []
  {
    if n > 0 { AllConsumed(s, used, n - 1); }
  }

  /** Conversely a value that merges with itself to itself is well-formed: a repeated identity
      leaves its second item unmatched, and the array grows. */
  lemma {:induction false} OnlyWellFormedIdempotent(v: Json, ot: Option<int>, tt: Option<int>)
    requires Union(v, v, ot, tt) == v
    ensures WellFormed(v)
    decreases v
  {
    match v
    case Obj(f) =>
      var o, t := ExtractTimestamp(f).Or(ot), ExtractTimestamp(f).Or(tt);
      forall k | k in f ensures WellFormed(f[k]) {
        assert Union(v, v, ot, tt).fields[k] == f[k];
        OnlyWellFormedIdempotent(f[k], o, t);
      }
    case Arr(a) =>
      UnionArrays(a, a, ot, tt);
      NothingLeft(a, a, ot, tt);
      forall i: nat | i < |a| ensures WellFormed(a[i]) {
        FirstMatchUnique(a[i], a, i);
        assert OurItems(a, a, ot, tt)[i] == UnionItems(a, a, ot, tt)[i] == a[i];
        OnlyWellFormedIdempotent(a[i], ot, tt);
      }
    case _ =>
  }

  /** An array that does not grow in a merge has a first match for every item of theirs. */
  lemma NothingLeft(a: seq<Json>, b: seq<Json>, ot: Option<int>, tt: Option<int>)
    requires UnionItems(a, b, ot, tt) == a
    ensures DistinctIds(b) && forall j: nat :: j < |b| ==> j in Consumed(a, b)
  {
    assert |UnionItems(a, b, ot, tt)| == |a| + |Leftover(b, Consumed(a, b), |b|)|;
    forall j: nat | j < |b| ensures j in Consumed(a, b) {
      EmptyLeftover(b, Consumed(a, b), |b|, j);
    }
    forall i, j | 0 <= i < j < |b| ensures Ident(b[i]) != Ident(b[j]) {
      var k :| 0 <= k < |a| && FirstMatch(a[k], b, 0) == Some(j);
      SameIdentityIsEquality(a[k], b[i]);
      SameIdentityIsEquality(a[k], b[j]);
    }
  }

  lemma {:induction false} EmptyLeftover(s: seq<Json>, used: set<nat>, n: nat, j: nat)
    requires n <= |s| && Leftover(s, used, n) == [] && j < n
    ensures j in used
  {
    if j < n - 1 { EmptyLeftover(s, used, n - 1, j); }
  }

  /** The value an identity is made of is well-formed. */
  ghost predicate Firm(id: Identity) {
    match id
    case ById(v) => WellFormed(v)
    case ByValue(v) => WellFormed(v)
  }

  /** An item merged with its partner keeps the identity both share exactly when that identity is well-formed. */
  lemma KeepsIdentity(x: Json, y: Json, ot: Option<int>, tt: Option<int>)
    requires Ident(x) == Ident(y)
    ensures Ident(Union(x, y, ot, tt)) == Ident(x) <==> Firm(Ident(x))
    ensures WellFormed(x) ==> Firm(Ident(x))
  {
    match Ident(x)
    case ById(d) =>
      var o, t := ExtractTimestamp(x.fields).Or(ot), ExtractTimestamp(y.fields).Or(tt);
      assert Ident(Union(x, y, ot, tt)) == ById(Union(d, d, o, t));
      SelfMerge(d, o, t);
    case ByValue(_) =>
      assert x == y;
      SelfMerge(x, ot, tt);
      assert Union(x, x, ot, tt) == x || Ident(Union(x, x, ot, tt)) != Ident(x);
  }

  lemma SelfMerge(v: Json, ot: Option<int>, tt: Option<int>)
    ensures Union(v, v, ot, tt) == v <==> WellFormed(v)
  {
    if WellFormed(v) {
      Idempotent(v, ot, tt);
    }
    if Union(v, v, ot, tt) == v {
      OnlyWellFormedIdempotent(v, ot, tt);
    }
  }

  // ── The view of a merged array ──

  lemma ConsumedSpec(a: seq<Json>, b: seq<Json>, j: nat)
    requires DistinctIds(b) && j < |b|
    ensures j in Consumed(a, b) <==> Ident(b[j]) in Ids(a)
  {
    if j in Consumed(a, b) {
      var i :| 0 <= i < |a| && FirstMatch(a[i], b, 0) == Some(j);
      SameIdentityIsEquality(a[i], b[j]);
      assert Ids(a)[i] == Ident(b[j]);
    }
    if Ident(b[j]) in Ids(a) {
      var i :| 0 <= i < |a| && Ids(a)[i] == Ident(b[j]);
      FirstMatchUnique(a[i], b, j);
    }
  }

  lemma IdsPush(a: seq<Json>, x: Json)
    ensures Ids(a + [x]) == Ids(a) + [Ident(x)]
  {
  }

  ghost predicate UsedAt(b: seq<Json>, used: set<nat>, ids: seq<Identity>, j: nat)
    requires j < |b|
  {
    j in used <==> Ident(b[j]) in ids
  }

  /** The used positions are those whose identity is listed. */
  ghost predicate UsedBy(b: seq<Json>, used: set<nat>, ids: seq<Identity>) {
    forall j: nat {:trigger UsedAt(b, used, ids, j)} :: j < |b| ==> UsedAt(b, used, ids, j)
  }

  lemma ConsumedUsed(a: seq<Json>, b: seq<Json>)
    requires DistinctIds(b)
    ensures UsedBy(b, Consumed(a, b), Ids(a))
  {
    var used, ids := Consumed(a, b), Ids(a);
    forall j: nat | j < |b| ensures UsedAt(b, used, ids, j) {
      ConsumedSpec(a, b, j);
    }
  }

  lemma MinusPush(s: seq<Identity>, x: Identity, t: seq<Identity>)
    ensures Minus(s + [x], t) == Minus(s, t) + if x in t then [] else [x]
  {
    assert (s + [x])[..|s|] == s;
  }

  /** The last of n items is left over if no item of ours has its identity. */
  lemma LeftoverStep(b: seq<Json>, used: set<nat>, ids: seq<Identity>, n: nat, last: Json)
    requires UsedBy(b, used, ids) && 0 < n <= |b| && last == b[n - 1]
    ensures b[..n] == b[..n - 1] + [last]
    ensures Leftover(b, used, n) == Leftover(b, used, n - 1) + if Ident(last) in ids then [] else [last]
  {
    assert UsedAt(b, used, ids, n - 1);
  }

  lemma {:induction false} LeftoverIds(b: seq<Json>, used: set<nat>, ids: seq<Identity>, n: nat)
    requires UsedBy(b, used, ids) && n <= |b|
    ensures Ids(Leftover(b, used, n)) == Minus(Ids(b[..n]), ids)
  {
    if n > 0 {
      var last := b[n - 1];
      LeftoverIds(b, used, ids, n - 1);
      LeftoverStep(b, used, ids, n, last);
      IdsPush(b[..n - 1], last);
      MinusPush(Ids(b[..n - 1]), Ident(last), ids);
      IdsPush(Leftover(b, used, n - 1), last);
    }
  }

  lemma AtPush(a: seq<Json>, x: Json, id: Identity)
    ensures At(a + [x], id) == if At(a, id).Some? then At(a, id) else if Ident(x) == id then Some(x) else None
  {
    AtConcat(a, [x], id);
  }

  /** The kept items hold under the identity what the items hold, unless it is listed. */
  ghost predicate KeptView(kept: seq<Json>, items: seq<Json>, ids: seq<Identity>, id: Identity) {
    At(kept, id) == if id in ids then None else At(items, id)
  }

  lemma KeptPush(kept: seq<Json>, items: seq<Json>, x: Json, ids: seq<Identity>, id: Identity)
    requires KeptView(kept, items, ids, id)
    ensures KeptView(kept + if Ident(x) in ids then [] else [x], items + [x], ids, id)
  {
    AtPush(items, x, id);
    AtPush(kept, x, id);
    assert kept + [] == kept;
  }

  lemma {:induction false} LeftoverAt(b: seq<Json>, used: set<nat>, ids: seq<Identity>, n: nat, id: Identity)
    requires UsedBy(b, used, ids) && n <= |b|
    ensures KeptView(Leftover(b, used, n), b[..n], ids, id)
  {
    if n > 0 {
      var last := b[n - 1];
      LeftoverAt(b, used, ids, n - 1, id);
      KeptPush(Leftover(b, used, n - 1), b[..n - 1], last, ids, id);
      LeftoverStep(b, used, ids, n, last);
    }
  }

  lemma OurItemsView(a: seq<Json>, b: seq<Json>, ot: Option<int>, tt: Option<int>)
    requires WellFormed(Arr(a)) && WellFormed(Arr(b))
    ensures Ids(OurItems(a, b, ot, tt)) == Ids(a) && DistinctIds(OurItems(a, b, ot, tt))
  {
    var mine := OurItems(a, b, ot, tt);
    forall i: nat | i < |a| ensures Ident(mine[i]) == Ident(a[i]) {
      MergedItemView(a, b, ot, tt, i);
    }
    assert Ids(mine) == Ids(a);
    DistinctByIds(a, mine);
  }

  /** A merged array lists our identities in our order, then theirs that we lack, in their order. */
  lemma MergedIds(a: seq<Json>, b: seq<Json>, ot: Option<int>, tt: Option<int>)
    requires WellFormed(Arr(a)) && WellFormed(Arr(b))
    ensures Ids(UnionItems(a, b, ot, tt)) == Ids(a) + Minus(Ids(b), Ids(a))
    ensures DistinctIds(UnionItems(a, b, ot, tt))
  {
    ConsumedUsed(a, b);
    LeftoverIds(b, Consumed(a, b), Ids(a), |b|);
    assert b[..|b|] == b;
    OurItemsView(a, b, ot, tt);
    MinusDistinct(b, a);
    DistinctConcat(OurItems(a, b, ot, tt), Leftover(b, Consumed(a, b), |b|), Ids(a), Ids(b));
  }

  /** Under each identity a merged array holds the merge of what the two sides hold there. */
  lemma MergedAt(a: seq<Json>, b: seq<Json>, ot: Option<int>, tt: Option<int>, id: Identity)
    requires WellFormed(Arr(a)) && WellFormed(Arr(b))
    ensures At(UnionItems(a, b, ot, tt), id) == UnionOpt(At(a, id), At(b, id), ot, tt)
  {
    var mine := OurItems(a, b, ot, tt);
    assert b[..|b|] == b;
    ConsumedUsed(a, b);
    LeftoverAt(b, Consumed(a, b), Ids(a), |b|, id);
    OurItemsView(a, b, ot, tt);
    AtConcat(mine, Leftover(b, Consumed(a, b), |b|), id);
    if id in Ids(a) {
      var i: nat :| i < |a| && Ids(a)[i] == id;
      AtIndex(mine, i);
      AtIndex(a, i);
      MergedItemView(a, b, ot, tt, i);
    }
  }

  lemma MergedItemView(a: seq<Json>, b: seq<Json>, ot: Option<int>, tt: Option<int>, i: nat)
    requires WellFormed(Arr(a)) && WellFormed(Arr(b)) && i < |a|
    ensures Ident(MergedItem(a, b, ot, tt, i)) == Ident(a[i])
    ensures Some(MergedItem(a, b, ot, tt, i)) == UnionOpt(Some(a[i]), At(b, Ident(a[i])), ot, tt)
  {
    FirstMatchSpec(a[i], b);
    var m := FirstMatch(a[i], b, 0);
    if m.Some? {
      SameIdentityIsEquality(a[i], b[m.value]);
      KeepsIdentity(a[i], b[m.value], ot, tt);
    }
  }

  ghost predicate NoRepeats(s: seq<Identity>) {
    forall i, j :: 0 <= i < j < |s| ==> s[i] != s[j]
  }

  lemma {:induction false} MinusNoRepeats(s: seq<Identity>, t: seq<Identity>)
    requires NoRepeats(s)
    ensures NoRepeats(Minus(s, t))
  {
    if s != [] {
      MinusNoRepeats(s[..|s| - 1], t);
      var last := s[|s| - 1];
      assert last !in s[..|s| - 1];
    }
  }

  lemma MinusDistinct(b: seq<Json>, a: seq<Json>)
    requires DistinctIds(b)
    ensures NoRepeats(Minus(Ids(b), Ids(a)))
  {
    MinusNoRepeats(Ids(b), Ids(a));
  }

  lemma DistinctConcat(mine: seq<Json>, rest: seq<Json>, ida: seq<Identity>, idb: seq<Identity>)
    requires DistinctIds(mine) && Ids(mine) == ida && Ids(rest) == Minus(idb, ida) && NoRepeats(Minus(idb, ida))
    ensures DistinctIds(mine + rest) && Ids(mine + rest) == ida + Minus(idb, ida)
  {
    assert Ids(mine + rest) == Ids(mine) + Ids(rest);
    var all := mine + rest;
    forall i, j | 0 <= i < j < |all| ensures Ident(all[i]) != Ident(all[j]) {
      if j < |mine| {
      } else if i < |mine| {
        assert Ids(rest)[j - |mine|] in Minus(idb, ida);
        assert Ids(mine)[i] in ida;
      } else {
        assert Ids(rest)[i - |mine|] != Ids(rest)[j - |mine|];
      }
    }
  }

  // ── What a merge repeats ──

  lemma OurItemIds(a: seq<Json>, b: seq<Json>, ot: Option<int>, tt: Option<int>)
    requires (forall x :: x in a ==> WellFormed(x)) && (forall x :: x in b ==> WellFormed(x))
    ensures Ids(OurItems(a, b, ot, tt)) == Ids(a)
  {
    var mine := OurItems(a, b, ot, tt);
    forall i: nat | i < |a| ensures Ident(mine[i]) == Ident(a[i]) {
      var m := FirstMatch(a[i], b, 0);
      if m.Some? {
        SameIdentityIsEquality(a[i], b[m.value]);
        KeepsIdentity(a[i], b[m.value], ot, tt);
      }
    }
    assert Ids(mine) == Ids(a);
  }

  /** The position of a kept item among the leftover ones: the number of kept items before it. */
  ghost function Kept(used: set<nat>, n: nat): nat {
    if n == 0 then 0 else Kept(used, n - 1) + if n - 1 in used then 0 else 1
  }

  lemma {:induction false} LeftoverLength(s: seq<Json>, used: set<nat>, n: nat)
    requires n <= |s|
    ensures |Leftover(s, used, n)| == Kept(used, n)
  {
    if n > 0 { LeftoverLength(s, used, n - 1); }
  }

  lemma {:induction false} LeftoverKeeps(s: seq<Json>, used: set<nat>, n: nat, j: nat)
    requires n <= |s| && j < n && j !in used
    ensures Kept(used, j) < |Leftover(s, used, n)| && Leftover(s, used, n)[Kept(used, j)] == s[j]
  {
    LeftoverLength(s, used, n - 1);
    if j < n - 1 { LeftoverKeeps(s, used, n - 1, j); }
  }

  lemma {:induction false} KeptOrder(used: set<nat>, i: nat, j: nat)
    requires i < j && i !in used
    ensures Kept(used, i) < Kept(used, j)
  {
    if i < j - 1 { KeptOrder(used, i, j - 1); }
  }

  /** The second of two items with one identity is never a first match. */
  lemma RepeatedIsKept(a: seq<Json>, b: seq<Json>, i: nat, j: nat)
    requires i < j < |b| && Ident(b[i]) == Ident(b[j])
    ensures j !in Consumed(a, b)
  {
    forall k | 0 <= k < |a| ensures FirstMatch(a[k], b, 0) != Some(j) {
      SameIdentityIsEquality(a[k], b[i]);
      SameIdentityIsEquality(a[k], b[j]);
    }
  }

  /** The first of them is kept too, or one of our items has its identity. */
  lemma FirstKeptOrMatched(a: seq<Json>, b: seq<Json>, i: nat)
    requires i < |b|
    ensures i in Consumed(a, b) ==> Ident(b[i]) in Ids(a)
  {
    if i in Consumed(a, b) {
      var k :| 0 <= k < |a| && FirstMatch(a[k], b, 0) == Some(i);
      SameIdentityIsEquality(a[k], b[i]);
      assert Ids(a)[k] == Ident(b[i]);
    }
  }

  lemma LeftoverInMerge(a: seq<Json>, b: seq<Json>, ot: Option<int>, tt: Option<int>, j: nat)
    requires j < |b| && j !in Consumed(a, b)
    ensures var p := |a| + Kept(Consumed(a, b), j);
      p < |UnionItems(a, b, ot, tt)| && UnionItems(a, b, ot, tt)[p] == b[j]
  {
    LeftoverKeeps(b, Consumed(a, b), |b|, j);
  }

  lemma RepeatStays(a: seq<Json>, b: seq<Json>, ot: Option<int>, tt: Option<int>, i: nat, j: nat)
    requires (forall x :: x in a ==> WellFormed(x)) && (forall x :: x in b ==> WellFormed(x))
    requires i < j < |b| && Ident(b[i]) == Ident(b[j])
    ensures !DistinctIds(UnionItems(a, b, ot, tt))
  {
    RepeatedIsKept(a, b, i, j);
    LeftoverInMerge(a, b, ot, tt, j);
    if i in Consumed(a, b) {
      FirstKeptOrMatched(a, b, i);
      OurItemIds(a, b, ot, tt);
      var k: nat :| k < |a| && Ids(a)[k] == Ident(b[i]);
      assert Ident(UnionItems(a, b, ot, tt)[k]) == Ids(OurItems(a, b, ot, tt))[k];
    } else {
      LeftoverInMerge(a, b, ot, tt, i);
      KeptOrder(Consumed(a, b), i, j);
    }
  }

  /** A merged array is free of repeated identities exactly when both inputs are: repetitions
      within one side are neither removed nor merged. */
  lemma DistinctIffBothDistinct(a: seq<Json>, b: seq<Json>, ot: Option<int>, tt: Option<int>)
    requires (forall x :: x in a ==> WellFormed(x)) && (forall x :: x in b ==> WellFormed(x))
    ensures DistinctIds(UnionItems(a, b, ot, tt)) <==> DistinctIds(a) && DistinctIds(b)
  {
    var m := UnionItems(a, b, ot, tt);
    if DistinctIds(a) && DistinctIds(b) {
      MergedIds(a, b, ot, tt);
    } else if DistinctIds(a) {
      var i, j :| 0 <= i < j < |b| && Ident(b[i]) == Ident(b[j]);
      RepeatStays(a, b, ot, tt, i, j);
    } else {
      OurItemIds(a, b, ot, tt);
      var i, j :| 0 <= i < j < |a| && Ident(a[i]) == Ident(a[j]);
      assert Ident(m[i]) == Ids(OurItems(a, b, ot, tt))[i] && Ident(m[j]) == Ids(OurItems(a, b, ot, tt))[j];
    }
  }

  lemma PairMerged(x: Json, a: seq<Json>)
    requires x.Bool? && a == [x, x]
    ensures UnionItems(a, a, None, None) == [x, x, x]
  {
    assert FirstMatch(x, a, 0) == Some(0);
    assert Consumed(a, a) == {0};
    assert Leftover(a, {0}, 1) == [];
    assert OurItems(a, a, None, None) == a;
  }

  /** Two equal items of one side both come through. */
  lemma RepeatedItemStays()
    ensures var a := [Bool(true), Bool(true)];
      Union(Arr(a), Arr(a), None, None) == Arr([Bool(true), Bool(true), Bool(true)])
  {
    var x := Bool(true);
    PairMerged(x, [x, x]);
    UnionArrays([x, x], [x, x], None, None);
  }

  // ── Closure ──

  /** The merge of two well-formed values is well-formed, whatever the timestamps. */
  lemma {:induction false} UnionWellFormed(v: Json, w: Json, ot: Option<int>, tt: Option<int>)
    requires WellFormed(v) && WellFormed(w)
    ensures WellFormed(Union(v, w, ot, tt))
    decreases v
  {
    match (v, w)
    case (Obj(a), Obj(b)) =>
      var o, t := ExtractTimestamp(a).Or(ot), ExtractTimestamp(b).Or(tt);
      forall k | k in a && k in b ensures WellFormed(Union(a[k], b[k], o, t)) {
        UnionWellFormed(a[k], b[k], o, t);
      }
    case (Arr(a), Arr(b)) =>
      UnionArrays(a, b, ot, tt);
      MergedIds(a, b, ot, tt);
      forall i: nat | i < |a| ensures WellFormed(OurItems(a, b, ot, tt)[i]) {
        var j := FirstMatch(a[i], b, 0);
        if j.Some? { UnionWellFormed(a[i], b[j.value], ot, tt); }
      }
      ItemsWellFormed(a, b, ot, tt);
    case _ =>
  }

  lemma ItemsWellFormed(a: seq<Json>, b: seq<Json>, ot: Option<int>, tt: Option<int>)
    requires forall i :: 0 <= i < |b| ==> WellFormed(b[i])
    requires forall i: nat :: i < |a| ==> WellFormed(OurItems(a, b, ot, tt)[i])
    ensures forall i :: 0 <= i < |UnionItems(a, b, ot, tt)| ==> WellFormed(UnionItems(a, b, ot, tt)[i])
  {
    var mine, rest := OurItems(a, b, ot, tt), Leftover(b, Consumed(a, b), |b|);
    assert UnionItems(a, b, ot, tt) == mine + rest;
    LeftoverFrom(b, Consumed(a, b), |b|);
    forall i | 0 <= i < |rest| ensures WellFormed(rest[i]) {
      assert rest[i] in rest;
    }
  }

  lemma {:induction false} LeftoverFrom(s: seq<Json>, used: set<nat>, n: nat)
    requires n <= |s|
    ensures forall x :: x in Leftover(s, used, n) ==> x in s
  {
    if n > 0 { LeftoverFrom(s, used, n - 1); }
  }
}
