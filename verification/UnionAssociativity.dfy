/** When the bracketing of two union merges does not matter. */
module UnionAssociativity {
  import opened Wrappers
  import opened JsonValues
  import opened UnionMerge
  import opened UnionLaws
  import opened UnionAlgebra
  import opened UnionAbsorption

  // ── Views ──

  /** A merged object, field by field. */
  lemma UnionGet(a: map<string, Json>, b: map<string, Json>, o: Option<int>, t: Option<int>, k: string)
    ensures Union(Obj(a), Obj(b), o, t).Obj?
    ensures Get(Union(Obj(a), Obj(b), o, t).fields, k)
         == UnionOpt(Get(a, k), Get(b, k), ExtractTimestamp(a).Or(o), ExtractTimestamp(b).Or(t))
  {
    UnionField(a, b, o, t, k);
  }

  ghost predicate EqualGet(a: map<string, Json>, b: map<string, Json>, k: string) {
    Get(a, k) == Get(b, k)
  }

  lemma EqualObjects(a: map<string, Json>, b: map<string, Json>)
    ensures a == b <==> forall k {:trigger EqualGet(a, b, k)} :: EqualGet(a, b, k)
  {
    if forall k {:trigger EqualGet(a, b, k)} :: EqualGet(a, b, k) {
      forall k ensures Get(a, k) == Get(b, k) {
        assert EqualGet(a, b, k);
      }
      SameFields(a, b);
    }
  }

  ghost predicate EqualAt(a: seq<Json>, b: seq<Json>, id: Identity) {
    At(a, id) == At(b, id)
  }

  lemma EqualArrays(a: seq<Json>, b: seq<Json>)
    requires DistinctIds(a) && Ids(a) == Ids(b)
    ensures a == b <==> forall id {:trigger EqualAt(a, b, id)} :: EqualAt(a, b, id)
  {
    if forall id {:trigger EqualAt(a, b, id)} :: EqualAt(a, b, id) {
      forall id ensures At(a, id) == At(b, id) {
        assert EqualAt(a, b, id);
      }
      SameView(a, b);
    }
  }

  // ── One merge under two pairs of timestamps ──

  /** The timestamps two values inherit in one merge and in another. */
  datatype Twice = Twice(o: Option<int>, t: Option<int>, o2: Option<int>, t2: Option<int>)

  function TwiceBelow(s: Twice, a: map<string, Json>, b: map<string, Json>): Twice {
    var x, y := ExtractTimestamp(a), ExtractTimestamp(b);
    Twice(x.Or(s.o), y.Or(s.t), x.Or(s.o2), y.Or(s.t2))
  }

  ghost predicate SameMerge(x: Json, y: Json, s: Twice) {
    Union(x, y, s.o, s.t) == Union(x, y, s.o2, s.t2)
  }

  /** At every contested position the same side wins under both pairs of timestamps, or the values are equal. */
  ghost predicate Agree(x: Json, y: Json, s: Twice)
    decreases x
  {
    match (x, y)
    case (Obj(a), Obj(b)) => forall k :: k in a && k in b ==> Agree(a[k], b[k], TwiceBelow(s, a, b))
    case (Arr(a), Arr(b)) =>
      forall id :: At(a, id).Some? && At(b, id).Some? ==> Agree(At(a, id).value, At(b, id).value, s)
    case (Null, _) => true
    case (_, Null) => true
    case _ => x == y || TheirsWins(s.o, s.t) == TheirsWins(s.o2, s.t2)
  }

  ghost predicate BothAgree(x: Option<Json>, y: Option<Json>, s: Twice) {
    x.Some? && y.Some? ==> Agree(x.value, y.value, s)
  }

  ghost predicate BothSame(x: Option<Json>, y: Option<Json>, s: Twice) {
    UnionOpt(x, y, s.o, s.t) == UnionOpt(x, y, s.o2, s.t2)
  }

  ghost predicate FieldsAgree(a: map<string, Json>, b: map<string, Json>, s: Twice) {
    forall k {:trigger BothAgree(Get(a, k), Get(b, k), s)} :: BothAgree(Get(a, k), Get(b, k), s)
  }

  ghost predicate ItemsAgree(a: seq<Json>, b: seq<Json>, s: Twice) {
    forall id {:trigger BothAgree(At(a, id), At(b, id), s)} :: BothAgree(At(a, id), At(b, id), s)
  }

  lemma AgreeObjects(a: map<string, Json>, b: map<string, Json>, s: Twice)
    ensures Agree(Obj(a), Obj(b), s) <==> FieldsAgree(a, b, TwiceBelow(s, a, b))
  {
    var below := TwiceBelow(s, a, b);
    if FieldsAgree(a, b, below) {
      forall k | k in a && k in b ensures Agree(a[k], b[k], below) {
        assert BothAgree(Get(a, k), Get(b, k), below);
      }
    }
  }

  lemma AgreeArrays(a: seq<Json>, b: seq<Json>, s: Twice)
    ensures Agree(Arr(a), Arr(b), s) <==> ItemsAgree(a, b, s)
  {
    if ItemsAgree(a, b, s) {
      forall id | At(a, id).Some? && At(b, id).Some? ensures Agree(At(a, id).value, At(b, id).value, s) {
        assert BothAgree(At(a, id), At(b, id), s);
      }
    }
  }

  lemma SameObjects(a: map<string, Json>, b: map<string, Json>, s: Twice)
    requires var below := TwiceBelow(s, a, b);
      forall k {:trigger BothAgree(Get(a, k), Get(b, k), below)} ::
        BothSame(Get(a, k), Get(b, k), below) <==> BothAgree(Get(a, k), Get(b, k), below)
    ensures SameMerge(Obj(a), Obj(b), s) <==> FieldsAgree(a, b, TwiceBelow(s, a, b))
  {
    var below := TwiceBelow(s, a, b);
    UnionGet(a, b, s.o, s.t, "");
    UnionGet(a, b, s.o2, s.t2, "");
    var l, r := Union(Obj(a), Obj(b), s.o, s.t).fields, Union(Obj(a), Obj(b), s.o2, s.t2).fields;
    EqualObjects(l, r);
    forall k ensures EqualGet(l, r, k) <==> BothAgree(Get(a, k), Get(b, k), below) {
      UnionGet(a, b, s.o, s.t, k);
      UnionGet(a, b, s.o2, s.t2, k);
    }
  }

  lemma SameArrays(a: seq<Json>, b: seq<Json>, s: Twice)
    requires WellFormed(Arr(a)) && WellFormed(Arr(b))
    requires forall id {:trigger BothAgree(At(a, id), At(b, id), s)} ::
        BothSame(At(a, id), At(b, id), s) <==> BothAgree(At(a, id), At(b, id), s)
    ensures SameMerge(Arr(a), Arr(b), s) <==> ItemsAgree(a, b, s)
  {
    var l, r := UnionItems(a, b, s.o, s.t), UnionItems(a, b, s.o2, s.t2);
    UnionArrays(a, b, s.o, s.t);
    UnionArrays(a, b, s.o2, s.t2);
    MergedIds(a, b, s.o, s.t);
    MergedIds(a, b, s.o2, s.t2);
    EqualArrays(l, r);
    forall id ensures EqualAt(l, r, id) <==> BothAgree(At(a, id), At(b, id), s) {
      MergedAt(a, b, s.o, s.t, id);
      MergedAt(a, b, s.o2, s.t2, id);
    }
  }

  /** Two pairs of timestamps give the same merge exactly when they agree at every contested position. */
  lemma {:induction false} AgreeExact(x: Json, y: Json, s: Twice)
    requires WellFormed(x) && WellFormed(y)
    ensures SameMerge(x, y, s) <==> Agree(x, y, s)
    decreases x
  {
    match (x, y)
    case (Obj(a), Obj(b)) =>
      var below := TwiceBelow(s, a, b);
      forall k ensures BothSame(Get(a, k), Get(b, k), below) <==> BothAgree(Get(a, k), Get(b, k), below) {
        if k in a && k in b { AgreeExact(a[k], b[k], below); }
      }
      SameObjects(a, b, s);
      AgreeObjects(a, b, s);
    case (Arr(a), Arr(b)) =>
      forall id ensures BothSame(At(a, id), At(b, id), s) <==> BothAgree(At(a, id), At(b, id), s) {
        if At(a, id).Some? && At(b, id).Some? {
          ItemOf(a, id);
          ItemOf(b, id);
          AgreeExact(At(a, id).value, At(b, id).value, s);
        }
      }
      SameArrays(a, b, s);
      AgreeArrays(a, b, s);
    case _ =>
  }

  // ── Merges that return one side ──

  ghost predicate IsSide(x: Json, y: Json, o: Option<int>, t: Option<int>, theirs: bool) {
    Union(x, y, o, t) == if theirs then y else x
  }

  ghost predicate SameIds(a: seq<Json>, b: seq<Json>, theirs: bool) {
    Ids(a) + Minus(Ids(b), Ids(a)) == Ids(if theirs then b else a)
  }

  /** The other side adds no key and no item, changes no order, wins no contested position and is nowhere the only
      side that is not null. */
  ghost predicate PicksSide(x: Json, y: Json, o: Option<int>, t: Option<int>, theirs: bool)
    decreases x
  {
    match (x, y)
    case (Obj(a), Obj(b)) =>
      && (if theirs then a.Keys <= b.Keys else b.Keys <= a.Keys)
      && forall k :: k in a && k in b ==>
           PicksSide(a[k], b[k], ExtractTimestamp(a).Or(o), ExtractTimestamp(b).Or(t), theirs)
    case (Arr(a), Arr(b)) =>
      && SameIds(a, b, theirs)
      && forall id :: At(a, id).Some? && At(b, id).Some? ==> PicksSide(At(a, id).value, At(b, id).value, o, t, theirs)
    case (Null, _) => theirs || y.Null?
    case (_, Null) => !theirs
    case _ => x == y || TheirsWins(o, t) == theirs
  }

  ghost predicate OptIsSide(x: Option<Json>, y: Option<Json>, o: Option<int>, t: Option<int>, theirs: bool) {
    UnionOpt(x, y, o, t) == if theirs then y else x
  }

  ghost predicate OptPicks(x: Option<Json>, y: Option<Json>, o: Option<int>, t: Option<int>, theirs: bool) {
    if x.Some? && y.Some? then PicksSide(x.value, y.value, o, t, theirs)
    else if theirs then x.None? else y.None?
  }

  ghost predicate FieldsPick(a: map<string, Json>, b: map<string, Json>, o: Option<int>, t: Option<int>, theirs: bool) {
    forall k {:trigger OptPicks(Get(a, k), Get(b, k), o, t, theirs)} :: OptPicks(Get(a, k), Get(b, k), o, t, theirs)
  }

  ghost predicate ItemsPick(a: seq<Json>, b: seq<Json>, o: Option<int>, t: Option<int>, theirs: bool) {
    forall id {:trigger OptPicks(At(a, id), At(b, id), o, t, theirs)} :: OptPicks(At(a, id), At(b, id), o, t, theirs)
  }

  lemma PickObjects(a: map<string, Json>, b: map<string, Json>, o: Option<int>, t: Option<int>, theirs: bool)
    ensures PicksSide(Obj(a), Obj(b), o, t, theirs)
       <==> FieldsPick(a, b, ExtractTimestamp(a).Or(o), ExtractTimestamp(b).Or(t), theirs)
  {
    var x, y := ExtractTimestamp(a).Or(o), ExtractTimestamp(b).Or(t);
    if FieldsPick(a, b, x, y, theirs) {
      forall k
        ensures k in a && k in b ==> PicksSide(a[k], b[k], x, y, theirs)
        ensures if theirs then k in a ==> k in b else k in b ==> k in a
      {
        assert OptPicks(Get(a, k), Get(b, k), x, y, theirs);
      }
    }
  }

  lemma SideObjects(a: map<string, Json>, b: map<string, Json>, o: Option<int>, t: Option<int>, theirs: bool)
    requires var x, y := ExtractTimestamp(a).Or(o), ExtractTimestamp(b).Or(t);
      forall k {:trigger OptPicks(Get(a, k), Get(b, k), x, y, theirs)} ::
        OptIsSide(Get(a, k), Get(b, k), x, y, theirs) <==> OptPicks(Get(a, k), Get(b, k), x, y, theirs)
    ensures IsSide(Obj(a), Obj(b), o, t, theirs)
       <==> FieldsPick(a, b, ExtractTimestamp(a).Or(o), ExtractTimestamp(b).Or(t), theirs)
  {
    var x, y := ExtractTimestamp(a).Or(o), ExtractTimestamp(b).Or(t);
    UnionGet(a, b, o, t, "");
    var m, side := Union(Obj(a), Obj(b), o, t).fields, if theirs then b else a;
    EqualObjects(m, side);
    forall k ensures EqualGet(m, side, k) <==> OptPicks(Get(a, k), Get(b, k), x, y, theirs) {
      UnionGet(a, b, o, t, k);
    }
  }

  /** With the identities of one side, the merge has an item wherever that side has. */
  lemma SideHasAll(a: seq<Json>, b: seq<Json>, theirs: bool, id: Identity)
    requires SameIds(a, b, theirs)
    ensures At(if theirs then b else a, id).Some? <==> At(a, id).Some? || At(b, id).Some?
  {
    assert id in Ids(a) + Minus(Ids(b), Ids(a)) <==> id in Ids(a) || id in Ids(b);
  }

  lemma PickArrays(a: seq<Json>, b: seq<Json>, o: Option<int>, t: Option<int>, theirs: bool)
    ensures PicksSide(Arr(a), Arr(b), o, t, theirs) <==> SameIds(a, b, theirs) && ItemsPick(a, b, o, t, theirs)
  {
    if SameIds(a, b, theirs) && ItemsPick(a, b, o, t, theirs) {
      forall id | At(a, id).Some? && At(b, id).Some? ensures PicksSide(At(a, id).value, At(b, id).value, o, t, theirs) {
        assert OptPicks(At(a, id), At(b, id), o, t, theirs);
      }
    }
    if PicksSide(Arr(a), Arr(b), o, t, theirs) {
      forall id ensures OptPicks(At(a, id), At(b, id), o, t, theirs) {
        SideHasAll(a, b, theirs, id);
      }
    }
  }

  lemma SideArrays(a: seq<Json>, b: seq<Json>, o: Option<int>, t: Option<int>, theirs: bool)
    requires WellFormed(Arr(a)) && WellFormed(Arr(b))
    requires forall id {:trigger OptPicks(At(a, id), At(b, id), o, t, theirs)} ::
        OptIsSide(At(a, id), At(b, id), o, t, theirs) <==> OptPicks(At(a, id), At(b, id), o, t, theirs)
    ensures IsSide(Arr(a), Arr(b), o, t, theirs) <==> SameIds(a, b, theirs) && ItemsPick(a, b, o, t, theirs)
  {
    var m, side := UnionItems(a, b, o, t), if theirs then b else a;
    UnionArrays(a, b, o, t);
    MergedIds(a, b, o, t);
    if SameIds(a, b, theirs) {
      EqualArrays(m, side);
    }
    forall id ensures EqualAt(m, side, id) <==> OptPicks(At(a, id), At(b, id), o, t, theirs) {
      MergedAt(a, b, o, t, id);
    }
  }

  /** A merge is one of its sides exactly when the other adds nothing. */
  lemma {:induction false} PicksSideExact(x: Json, y: Json, o: Option<int>, t: Option<int>, theirs: bool)
    requires WellFormed(x) && WellFormed(y)
    ensures Union(x, y, o, t) == (if theirs then y else x) <==> PicksSide(x, y, o, t, theirs)
    decreases x
  {
    match (x, y)
    case (Obj(a), Obj(b)) =>
      var p, q := ExtractTimestamp(a).Or(o), ExtractTimestamp(b).Or(t);
      forall k ensures OptIsSide(Get(a, k), Get(b, k), p, q, theirs) <==> OptPicks(Get(a, k), Get(b, k), p, q, theirs) {
        if k in a && k in b { PicksSideExact(a[k], b[k], p, q, theirs); }
      }
      SideObjects(a, b, o, t, theirs);
      PickObjects(a, b, o, t, theirs);
    case (Arr(a), Arr(b)) =>
      forall id
        ensures OptIsSide(At(a, id), At(b, id), o, t, theirs) <==> OptPicks(At(a, id), At(b, id), o, t, theirs)
      {
        if At(a, id).Some? && At(b, id).Some? {
          ItemOf(a, id);
          ItemOf(b, id);
          PicksSideExact(At(a, id).value, At(b, id).value, o, t, theirs);
        }
      }
      SideArrays(a, b, o, t, theirs);
      PickArrays(a, b, o, t, theirs);
    case _ =>
  }

  // ── The condition ──

  /** What the values inherit: u and w in both bracketings, v as theirs of u and as ours of w, and the two inner
      merges uv and vw in the outer ones. */
  datatype Stamps = Stamps(u: Option<int>, vLeft: Option<int>, vRight: Option<int>, w: Option<int>, uv: Option<int>,
                           vw: Option<int>)

  function StampsBelow(s: Stamps, a: map<string, Json>, b: map<string, Json>, c: map<string, Json>): Stamps {
    var x, y, z := ExtractTimestamp(a), ExtractTimestamp(b), ExtractTimestamp(c);
    Stamps(x.Or(s.u), y.Or(s.vLeft), y.Or(s.vRight), z.Or(s.w),
           MergedStamp(a, b, x.Or(s.u), y.Or(s.vLeft)).Or(s.uv), MergedStamp(b, c, y.Or(s.vRight), z.Or(s.w)).Or(s.vw))
  }

  function LeftFirst(u: Json, v: Json, w: Json, s: Stamps): Json {
    Union(Union(u, v, s.u, s.vLeft), w, s.uv, s.w)
  }

  function RightFirst(u: Json, v: Json, w: Json, s: Stamps): Json {
    Union(u, Union(v, w, s.vRight, s.w), s.u, s.vw)
  }

  ghost predicate SameEitherWay(u: Json, v: Json, w: Json, s: Stamps) {
    LeftFirst(u, v, w, s) == RightFirst(u, v, w, s)
  }

  /** With v missing or null the ends are merged under the stamps of the outer merges, and likewise for u and w. */
  function WithoutU(s: Stamps): Twice { Twice(s.uv, s.w, s.vRight, s.w) }

  function WithoutV(s: Stamps): Twice { Twice(s.uv, s.w, s.u, s.vw) }

  function WithoutW(s: Stamps): Twice { Twice(s.u, s.vLeft, s.u, s.vw) }

  /** Where one of the three is missing the other two are merged once on each side. */
  ghost predicate PairAgrees(x: Option<Json>, y: Option<Json>, z: Option<Json>, s: Stamps) {
    if x.None? then BothAgree(y, z, WithoutU(s))
    else if y.None? then BothAgree(x, z, WithoutV(s))
    else BothAgree(x, y, WithoutW(s))
  }

  predicate Mergeable(x: Json, y: Json) {
    (x.Obj? && y.Obj?) || (x.Arr? && y.Arr?)
  }

  /** Three values that are not null and not all of one container kind. */
  ghost predicate MixedAssociate(u: Json, v: Json, w: Json, s: Stamps) {
    var first, last := TheirsWins(s.u, s.vLeft), TheirsWins(s.vRight, s.w);
    var left, right := TheirsWins(s.uv, s.w), TheirsWins(s.u, s.vw);
    if Mergeable(u, v) then
      if left then last && right
      else if last then !right && PicksSide(u, v, s.u, s.vLeft, false)
      else Agree(u, v, WithoutW(s))
    else if Mergeable(v, w) then
      if !right then !first && !left
      else if first then Agree(v, w, WithoutU(s))
      else left && PicksSide(v, w, s.vRight, s.w, true)
    else if Mergeable(u, w) then
      if first && last then left && PicksSide(u, w, s.u, s.vw, true)
      else if first then if left then !right && u == w else right
      else if last then Agree(u, w, WithoutV(s))
      else !right && PicksSide(u, w, s.uv, s.w, false)
    else (if left then w else if first then v else u) == if !right then u else if last then w else v
  }

  /** When bracketing does not matter. */
  ghost predicate Associates(u: Json, v: Json, w: Json, s: Stamps)
    decreases u
  {
    if u.Null? then Agree(v, w, WithoutU(s))
    else if v.Null? then Agree(u, w, WithoutV(s))
    else if w.Null? then Agree(u, v, WithoutW(s))
    else if u.Obj? && v.Obj? && w.Obj? then
      var a, b, c := u.fields, v.fields, w.fields;
      forall k ::
        if k in a && k in b && k in c then Associates(a[k], b[k], c[k], StampsBelow(s, a, b, c))
        else PairAgrees(Get(a, k), Get(b, k), Get(c, k), StampsBelow(s, a, b, c))
    else if u.Arr? && v.Arr? && w.Arr? then
      var a, b, c := u.items, v.items, w.items;
      forall id ::
        if At(a, id).Some? && At(b, id).Some? && At(c, id).Some? then
          Associates(At(a, id).value, At(b, id).value, At(c, id).value, s)
        else PairAgrees(At(a, id), At(b, id), At(c, id), s)
    else MixedAssociate(u, v, w, s)
  }

  // ── Position by position ──

  ghost predicate OptSame(x: Option<Json>, y: Option<Json>, z: Option<Json>, s: Stamps) {
    UnionOpt(UnionOpt(x, y, s.u, s.vLeft), z, s.uv, s.w) == UnionOpt(x, UnionOpt(y, z, s.vRight, s.w), s.u, s.vw)
  }

  ghost predicate OptAssociates(x: Option<Json>, y: Option<Json>, z: Option<Json>, s: Stamps) {
    if x.Some? && y.Some? && z.Some? then Associates(x.value, y.value, z.value, s) else PairAgrees(x, y, z, s)
  }

  ghost predicate OptWellFormed(x: Option<Json>) {
    x.Some? ==> WellFormed(x.value)
  }

  lemma PairExact(x: Option<Json>, y: Option<Json>, z: Option<Json>, s: Stamps)
    requires OptWellFormed(x) && OptWellFormed(y) && OptWellFormed(z) && (x.None? || y.None? || z.None?)
    ensures OptSame(x, y, z, s) <==> PairAgrees(x, y, z, s)
  {
    if y.Some? && z.Some? { AgreeExact(y.value, z.value, WithoutU(s)); }
    if x.Some? && z.Some? { AgreeExact(x.value, z.value, WithoutV(s)); }
    if x.Some? && y.Some? { AgreeExact(x.value, y.value, WithoutW(s)); }
  }

  lemma NullExact(u: Json, v: Json, w: Json, s: Stamps)
    requires WellFormed(u) && WellFormed(v) && WellFormed(w) && (u.Null? || v.Null? || w.Null?)
    ensures SameEitherWay(u, v, w, s) <==> Associates(u, v, w, s)
  {
    AgreeExact(v, w, WithoutU(s));
    AgreeExact(u, w, WithoutV(s));
    AgreeExact(u, v, WithoutW(s));
  }

  ghost predicate Mixed(u: Json, v: Json, w: Json) {
    && WellFormed(u) && WellFormed(v) && WellFormed(w) && !u.Null? && !v.Null? && !w.Null?
    && !(u.Obj? && v.Obj? && w.Obj?) && !(u.Arr? && v.Arr? && w.Arr?)
  }

  lemma LeftPair(u: Json, v: Json, w: Json, s: Stamps)
    requires Mixed(u, v, w) && Mergeable(u, v)
    ensures SameEitherWay(u, v, w, s) <==> MixedAssociate(u, v, w, s)
  {
    KindOfUnion(u, v, s.u, s.vLeft);
    KindOfUnion(Union(u, v, s.u, s.vLeft), w, s.uv, s.w);
    if TheirsWins(s.vRight, s.w) {
      PicksSideExact(u, v, s.u, s.vLeft, false);
    } else {
      AgreeExact(u, v, WithoutW(s));
    }
  }

  lemma RightPair(u: Json, v: Json, w: Json, s: Stamps)
    requires Mixed(u, v, w) && Mergeable(v, w)
    ensures SameEitherWay(u, v, w, s) <==> MixedAssociate(u, v, w, s)
  {
    KindOfUnion(v, w, s.vRight, s.w);
    KindOfUnion(u, Union(v, w, s.vRight, s.w), s.u, s.vw);
    if TheirsWins(s.u, s.vLeft) {
      AgreeExact(v, w, WithoutU(s));
    } else {
      PicksSideExact(v, w, s.vRight, s.w, true);
    }
  }

  /** With v of another kind each inner merge is one of its sides. */
  lemma EndValues(u: Json, v: Json, w: Json, s: Stamps)
    requires Mixed(u, v, w) && Mergeable(u, w)
    ensures LeftFirst(u, v, w, s) ==
        if !TheirsWins(s.u, s.vLeft) then Union(u, w, s.uv, s.w) else if TheirsWins(s.uv, s.w) then w else v
    ensures RightFirst(u, v, w, s) ==
        if TheirsWins(s.vRight, s.w) then Union(u, w, s.u, s.vw) else if TheirsWins(s.u, s.vw) then v else u
    ensures v != u && v != w && v != Union(u, w, s.uv, s.w) && v != Union(u, w, s.u, s.vw)
  {
    KindOfUnion(u, w, s.u, s.vw);
    KindOfUnion(u, w, s.uv, s.w);
  }

  lemma EndPair(u: Json, v: Json, w: Json, s: Stamps)
    requires Mixed(u, v, w) && Mergeable(u, w)
    ensures SameEitherWay(u, v, w, s) <==> MixedAssociate(u, v, w, s)
  {
    EndValues(u, v, w, s);
    if TheirsWins(s.vRight, s.w) {
      if TheirsWins(s.u, s.vLeft) {
        PicksSideExact(u, w, s.u, s.vw, true);
      } else {
        AgreeExact(u, w, WithoutV(s));
      }
    } else if !TheirsWins(s.u, s.vLeft) {
      PicksSideExact(u, w, s.uv, s.w, false);
    }
  }

  lemma MixedExact(u: Json, v: Json, w: Json, s: Stamps)
    requires Mixed(u, v, w)
    ensures SameEitherWay(u, v, w, s) <==> MixedAssociate(u, v, w, s)
  {
    if Mergeable(u, v) {
      LeftPair(u, v, w, s);
    } else if Mergeable(v, w) {
      RightPair(u, v, w, s);
    } else if Mergeable(u, w) {
      EndPair(u, v, w, s);
    }
  }

  ghost predicate FieldsAssociate(a: map<string, Json>, b: map<string, Json>, c: map<string, Json>, s: Stamps) {
    forall k {:trigger OptAssociates(Get(a, k), Get(b, k), Get(c, k), s)} ::
      OptAssociates(Get(a, k), Get(b, k), Get(c, k), s)
  }

  ghost predicate ItemsAssociate(a: seq<Json>, b: seq<Json>, c: seq<Json>, s: Stamps) {
    forall id {:trigger OptAssociates(At(a, id), At(b, id), At(c, id), s)} ::
      OptAssociates(At(a, id), At(b, id), At(c, id), s)
  }

  lemma ObjectsAssociate(a: map<string, Json>, b: map<string, Json>, c: map<string, Json>, s: Stamps)
    ensures Associates(Obj(a), Obj(b), Obj(c), s) <==> FieldsAssociate(a, b, c, StampsBelow(s, a, b, c))
  {
    var below := StampsBelow(s, a, b, c);
    if FieldsAssociate(a, b, c, below) {
      forall k
        ensures if k in a && k in b && k in c then Associates(a[k], b[k], c[k], below)
                else PairAgrees(Get(a, k), Get(b, k), Get(c, k), below)
      {
        assert OptAssociates(Get(a, k), Get(b, k), Get(c, k), below);
      }
    }
  }

  lemma ArraysAssociate(a: seq<Json>, b: seq<Json>, c: seq<Json>, s: Stamps)
    ensures Associates(Arr(a), Arr(b), Arr(c), s) <==> ItemsAssociate(a, b, c, s)
  {
    if ItemsAssociate(a, b, c, s) {
      forall id
        ensures if At(a, id).Some? && At(b, id).Some? && At(c, id).Some?
                then Associates(At(a, id).value, At(b, id).value, At(c, id).value, s)
                else PairAgrees(At(a, id), At(b, id), At(c, id), s)
      {
        assert OptAssociates(At(a, id), At(b, id), At(c, id), s);
      }
    }
  }

  lemma BracketedObject(a: map<string, Json>, b: map<string, Json>, c: map<string, Json>, s: Stamps, k: string)
    ensures LeftFirst(Obj(a), Obj(b), Obj(c), s).Obj? && RightFirst(Obj(a), Obj(b), Obj(c), s).Obj?
    ensures EqualGet(LeftFirst(Obj(a), Obj(b), Obj(c), s).fields, RightFirst(Obj(a), Obj(b), Obj(c), s).fields, k)
       <==> OptSame(Get(a, k), Get(b, k), Get(c, k), StampsBelow(s, a, b, c))
  {
    MergedStampOf(a, b, s.u, s.vLeft);
    MergedStampOf(b, c, s.vRight, s.w);
    UnionGet(a, b, s.u, s.vLeft, k);
    UnionGet(b, c, s.vRight, s.w, k);
    UnionGet(Union(Obj(a), Obj(b), s.u, s.vLeft).fields, c, s.uv, s.w, k);
    UnionGet(a, Union(Obj(b), Obj(c), s.vRight, s.w).fields, s.u, s.vw, k);
  }

  lemma BracketedObjects(a: map<string, Json>, b: map<string, Json>, c: map<string, Json>, s: Stamps)
    requires var below := StampsBelow(s, a, b, c);
      forall k {:trigger OptAssociates(Get(a, k), Get(b, k), Get(c, k), below)} ::
        OptSame(Get(a, k), Get(b, k), Get(c, k), below) <==> OptAssociates(Get(a, k), Get(b, k), Get(c, k), below)
    ensures SameEitherWay(Obj(a), Obj(b), Obj(c), s) <==> FieldsAssociate(a, b, c, StampsBelow(s, a, b, c))
  {
    BracketedObject(a, b, c, s, "");
    var l, r := LeftFirst(Obj(a), Obj(b), Obj(c), s).fields, RightFirst(Obj(a), Obj(b), Obj(c), s).fields;
    EqualObjects(l, r);
    forall k ensures EqualGet(l, r, k) <==> OptAssociates(Get(a, k), Get(b, k), Get(c, k), StampsBelow(s, a, b, c)) {
      BracketedObject(a, b, c, s, k);
    }
  }

  // ── Arrays ──

  /** Appending what is missing is associative. */
  lemma OrderedUnionAssociates(x: seq<Identity>, y: seq<Identity>, z: seq<Identity>)
    ensures (x + Minus(y, x)) + Minus(z, x + Minus(y, x)) == x + Minus(y + Minus(z, y), x)
  {
    MinusConcat(y, Minus(z, y), x);
    MinusTwice(z, y, x);
    ConcatAssociates(x, Minus(y, x), Minus(z, x + Minus(y, x)));
  }

  lemma ConcatAssociates(x: seq<Identity>, p: seq<Identity>, q: seq<Identity>)
    ensures (x + p) + q == x + (p + q)
  {
  }

  lemma {:induction false} MinusConcat(s: seq<Identity>, u: seq<Identity>, t: seq<Identity>)
    ensures Minus(s + u, t) == Minus(s, t) + Minus(u, t)
  {
    if u == [] {
      assert s + u == s;
    } else {
      var last := u[|u| - 1];
      assert (s + u)[..|s + u| - 1] == s + u[..|u| - 1];
      MinusConcat(s, u[..|u| - 1], t);
    }
  }

  lemma {:induction false} MinusTwice(z: seq<Identity>, y: seq<Identity>, x: seq<Identity>)
    ensures Minus(Minus(z, y), x) == Minus(z, x + Minus(y, x))
  {
    if z != [] {
      var last, front := z[|z| - 1], z[..|z| - 1];
      MinusTwice(front, y, x);
      if last !in y {
        MinusConcat(Minus(front, y), [last], x);
        assert Minus([last], x) == if last in x then [] else [last] by {
          assert [last][..0] == [];
        }
      }
    }
  }

  ghost function ItemsLeft(a: seq<Json>, b: seq<Json>, c: seq<Json>, s: Stamps): seq<Json> {
    UnionItems(UnionItems(a, b, s.u, s.vLeft), c, s.uv, s.w)
  }

  ghost function ItemsRight(a: seq<Json>, b: seq<Json>, c: seq<Json>, s: Stamps): seq<Json> {
    UnionItems(a, UnionItems(b, c, s.vRight, s.w), s.u, s.vw)
  }

  /** Both bracketings of an array merge list the same identities in the same order. */
  lemma BracketedIds(a: seq<Json>, b: seq<Json>, c: seq<Json>, s: Stamps)
    requires WellFormed(Arr(a)) && WellFormed(Arr(b)) && WellFormed(Arr(c))
    ensures Ids(ItemsLeft(a, b, c, s)) == Ids(ItemsRight(a, b, c, s)) && DistinctIds(ItemsLeft(a, b, c, s))
  {
    InnerWellFormed(a, b, c, s);
    MergedIds(a, b, s.u, s.vLeft);
    MergedIds(b, c, s.vRight, s.w);
    MergedIds(UnionItems(a, b, s.u, s.vLeft), c, s.uv, s.w);
    MergedIds(a, UnionItems(b, c, s.vRight, s.w), s.u, s.vw);
    OrderedUnionAssociates(Ids(a), Ids(b), Ids(c));
  }

  lemma InnerWellFormed(a: seq<Json>, b: seq<Json>, c: seq<Json>, s: Stamps)
    requires WellFormed(Arr(a)) && WellFormed(Arr(b)) && WellFormed(Arr(c))
    ensures WellFormed(Arr(UnionItems(a, b, s.u, s.vLeft))) && WellFormed(Arr(UnionItems(b, c, s.vRight, s.w)))
  {
    UnionArrays(a, b, s.u, s.vLeft);
    UnionArrays(b, c, s.vRight, s.w);
    UnionWellFormed(Arr(a), Arr(b), s.u, s.vLeft);
    UnionWellFormed(Arr(b), Arr(c), s.vRight, s.w);
  }

  lemma BracketedAt(a: seq<Json>, b: seq<Json>, c: seq<Json>, s: Stamps, id: Identity)
    requires WellFormed(Arr(a)) && WellFormed(Arr(b)) && WellFormed(Arr(c))
    ensures EqualAt(ItemsLeft(a, b, c, s), ItemsRight(a, b, c, s), id) <==> OptSame(At(a, id), At(b, id), At(c, id), s)
  {
    InnerWellFormed(a, b, c, s);
    MergedAt(a, b, s.u, s.vLeft, id);
    MergedAt(b, c, s.vRight, s.w, id);
    MergedAt(UnionItems(a, b, s.u, s.vLeft), c, s.uv, s.w, id);
    MergedAt(a, UnionItems(b, c, s.vRight, s.w), s.u, s.vw, id);
  }

  lemma BracketedArrays(a: seq<Json>, b: seq<Json>, c: seq<Json>, s: Stamps)
    requires WellFormed(Arr(a)) && WellFormed(Arr(b)) && WellFormed(Arr(c))
    requires forall id {:trigger OptAssociates(At(a, id), At(b, id), At(c, id), s)} ::
        OptSame(At(a, id), At(b, id), At(c, id), s) <==> OptAssociates(At(a, id), At(b, id), At(c, id), s)
    ensures SameEitherWay(Arr(a), Arr(b), Arr(c), s) <==> ItemsAssociate(a, b, c, s)
  {
    var l, r := ItemsLeft(a, b, c, s), ItemsRight(a, b, c, s);
    UnionArrays(a, b, s.u, s.vLeft);
    UnionArrays(b, c, s.vRight, s.w);
    UnionArrays(UnionItems(a, b, s.u, s.vLeft), c, s.uv, s.w);
    UnionArrays(a, UnionItems(b, c, s.vRight, s.w), s.u, s.vw);
    BracketedIds(a, b, c, s);
    EqualArrays(l, r);
    forall id ensures EqualAt(l, r, id) <==> OptAssociates(At(a, id), At(b, id), At(c, id), s) {
      BracketedAt(a, b, c, s, id);
    }
  }

  // ── The law ──

  /** Two union merges give the same result in either bracketing exactly on the triples described by Associates. */
  lemma {:induction false} Associativity(u: Json, v: Json, w: Json, s: Stamps)
    requires WellFormed(u) && WellFormed(v) && WellFormed(w)
    ensures SameEitherWay(u, v, w, s) <==> Associates(u, v, w, s)
    decreases u
  {
    if u.Null? || v.Null? || w.Null? {
      NullExact(u, v, w, s);
    } else if u.Obj? && v.Obj? && w.Obj? {
      var a, b, c := u.fields, v.fields, w.fields;
      var below := StampsBelow(s, a, b, c);
      forall k
        ensures OptSame(Get(a, k), Get(b, k), Get(c, k), below)
           <==> OptAssociates(Get(a, k), Get(b, k), Get(c, k), below)
      {
        if k in a && k in b && k in c {
          Associativity(a[k], b[k], c[k], below);
        } else {
          PairExact(Get(a, k), Get(b, k), Get(c, k), below);
        }
      }
      BracketedObjects(a, b, c, s);
      ObjectsAssociate(a, b, c, s);
    } else if u.Arr? && v.Arr? && w.Arr? {
      var a, b, c := u.items, v.items, w.items;
      forall id
        ensures OptSame(At(a, id), At(b, id), At(c, id), s) <==> OptAssociates(At(a, id), At(b, id), At(c, id), s)
      {
        ItemOf(a, id);
        ItemOf(b, id);
        ItemOf(c, id);
        if At(a, id).Some? && At(b, id).Some? && At(c, id).Some? {
          Associativity(At(a, id).value, At(b, id).value, At(c, id).value, s);
        } else {
          PairExact(At(a, id), At(b, id), At(c, id), s);
        }
      }
      BracketedArrays(a, b, c, s);
      ArraysAssociate(a, b, c, s);
    } else {
      MixedExact(u, v, w, s);
    }
  }

  // ── Without timestamps ──

  /** The stamps of three values without timestamps: o on the side of ours, t on the side of theirs. */
  function Plain(o: Option<int>, t: Option<int>): Stamps {
    Stamps(o, t, o, t, o, t)
  }

  /** At every position all three share, the kinds agree, or the middle value differs in kind from both ends and
      merging the ends just picks the winner. */
  ghost predicate PlainAssociates(u: Json, v: Json, w: Json, o: Option<int>, t: Option<int>)
    decreases u
  {
    if u.Null? || v.Null? || w.Null? then true
    else if u.Obj? && v.Obj? && w.Obj? then
      forall k :: k in u.fields && k in v.fields && k in w.fields ==>
        PlainAssociates(u.fields[k], v.fields[k], w.fields[k], o, t)
    else if u.Arr? && v.Arr? && w.Arr? then
      forall id :: At(u.items, id).Some? && At(v.items, id).Some? && At(w.items, id).Some? ==>
        PlainAssociates(At(u.items, id).value, At(v.items, id).value, At(w.items, id).value, o, t)
    else Mergeable(u, w) ==> PicksSide(u, w, o, t, TheirsWins(o, t))
  }

  lemma AgreeWithItself(x: Json, y: Json, o: Option<int>, t: Option<int>)
    requires WellFormed(x) && WellFormed(y)
    ensures Agree(x, y, Twice(o, t, o, t))
  {
    AgreeExact(x, y, Twice(o, t, o, t));
  }

  lemma PlainPair(x: Option<Json>, y: Option<Json>, z: Option<Json>, o: Option<int>, t: Option<int>)
    requires OptWellFormed(x) && OptWellFormed(y) && OptWellFormed(z)
    ensures PairAgrees(x, y, z, Plain(o, t))
  {
    if x.Some? && y.Some? { AgreeWithItself(x.value, y.value, o, t); }
    if x.Some? && z.Some? { AgreeWithItself(x.value, z.value, o, t); }
    if y.Some? && z.Some? { AgreeWithItself(y.value, z.value, o, t); }
  }

  lemma PlainMissing(x: Option<Json>, y: Option<Json>, z: Option<Json>, o: Option<int>, t: Option<int>)
    requires OptWellFormed(x) && OptWellFormed(y) && OptWellFormed(z) && (x.None? || y.None? || z.None?)
    ensures PlainStep(x, y, z, o, t)
  {
    PlainPair(x, y, z, o, t);
  }

  lemma PlainMixed(u: Json, v: Json, w: Json, o: Option<int>, t: Option<int>)
    requires WellFormed(u) && WellFormed(v) && WellFormed(w)
    ensures MixedAssociate(u, v, w, Plain(o, t)) <==>
        (!Mergeable(u, v) && !Mergeable(v, w) && Mergeable(u, w) ==> PicksSide(u, w, o, t, TheirsWins(o, t)))
  {
    AgreeWithItself(u, v, o, t);
    AgreeWithItself(v, w, o, t);
    AgreeWithItself(u, w, o, t);
  }

  ghost predicate OptPlain(x: Option<Json>, y: Option<Json>, z: Option<Json>, o: Option<int>, t: Option<int>) {
    x.Some? && y.Some? && z.Some? ==> PlainAssociates(x.value, y.value, z.value, o, t)
  }

  ghost predicate PlainFields(a: map<string, Json>, b: map<string, Json>, c: map<string, Json>, o: Option<int>,
                              t: Option<int>) {
    forall k {:trigger OptPlain(Get(a, k), Get(b, k), Get(c, k), o, t)} ::
      OptPlain(Get(a, k), Get(b, k), Get(c, k), o, t)
  }

  ghost predicate PlainItems(a: seq<Json>, b: seq<Json>, c: seq<Json>, o: Option<int>, t: Option<int>) {
    forall id {:trigger OptPlain(At(a, id), At(b, id), At(c, id), o, t)} ::
      OptPlain(At(a, id), At(b, id), At(c, id), o, t)
  }

  lemma ObjectsPlain(a: map<string, Json>, b: map<string, Json>, c: map<string, Json>, o: Option<int>, t: Option<int>)
    ensures PlainAssociates(Obj(a), Obj(b), Obj(c), o, t) <==> PlainFields(a, b, c, o, t)
  {
    if PlainFields(a, b, c, o, t) {
      forall k | k in a && k in b && k in c ensures PlainAssociates(a[k], b[k], c[k], o, t) {
        assert OptPlain(Get(a, k), Get(b, k), Get(c, k), o, t);
      }
    }
  }

  lemma ArraysPlain(a: seq<Json>, b: seq<Json>, c: seq<Json>, o: Option<int>, t: Option<int>)
    ensures PlainAssociates(Arr(a), Arr(b), Arr(c), o, t) <==> PlainItems(a, b, c, o, t)
  {
    if PlainItems(a, b, c, o, t) {
      forall id | At(a, id).Some? && At(b, id).Some? && At(c, id).Some?
        ensures PlainAssociates(At(a, id).value, At(b, id).value, At(c, id).value, o, t)
      {
        assert OptPlain(At(a, id), At(b, id), At(c, id), o, t);
      }
    }
  }

  ghost predicate PlainStep(x: Option<Json>, y: Option<Json>, z: Option<Json>, o: Option<int>, t: Option<int>) {
    OptAssociates(x, y, z, Plain(o, t)) <==> OptPlain(x, y, z, o, t)
  }

  lemma PlainObjects(a: map<string, Json>, b: map<string, Json>, c: map<string, Json>, o: Option<int>, t: Option<int>)
    requires ExtractTimestamp(a).None? && ExtractTimestamp(b).None? && ExtractTimestamp(c).None?
    requires forall k {:trigger PlainStep(Get(a, k), Get(b, k), Get(c, k), o, t)} ::
        PlainStep(Get(a, k), Get(b, k), Get(c, k), o, t)
    ensures Associates(Obj(a), Obj(b), Obj(c), Plain(o, t)) <==> PlainAssociates(Obj(a), Obj(b), Obj(c), o, t)
  {
    assert StampsBelow(Plain(o, t), a, b, c) == Plain(o, t);
    ObjectsAssociate(a, b, c, Plain(o, t));
    ObjectsPlain(a, b, c, o, t);
    forall k
      ensures OptAssociates(Get(a, k), Get(b, k), Get(c, k), Plain(o, t))
         <==> OptPlain(Get(a, k), Get(b, k), Get(c, k), o, t)
    {
      assert PlainStep(Get(a, k), Get(b, k), Get(c, k), o, t);
    }
  }

  lemma PlainArrays(a: seq<Json>, b: seq<Json>, c: seq<Json>, o: Option<int>, t: Option<int>)
    requires forall id {:trigger PlainStep(At(a, id), At(b, id), At(c, id), o, t)} ::
        PlainStep(At(a, id), At(b, id), At(c, id), o, t)
    ensures Associates(Arr(a), Arr(b), Arr(c), Plain(o, t)) <==> PlainAssociates(Arr(a), Arr(b), Arr(c), o, t)
  {
    ArraysAssociate(a, b, c, Plain(o, t));
    ArraysPlain(a, b, c, o, t);
    forall id
      ensures OptAssociates(At(a, id), At(b, id), At(c, id), Plain(o, t))
         <==> OptPlain(At(a, id), At(b, id), At(c, id), o, t)
    {
      assert PlainStep(At(a, id), At(b, id), At(c, id), o, t);
    }
  }

  lemma PlainNull(u: Json, v: Json, w: Json, o: Option<int>, t: Option<int>)
    requires WellFormed(u) && WellFormed(v) && WellFormed(w) && (u.Null? || v.Null? || w.Null?)
    ensures Associates(u, v, w, Plain(o, t))
  {
    AgreeWithItself(u, v, o, t);
    AgreeWithItself(v, w, o, t);
    AgreeWithItself(u, w, o, t);
  }

  lemma {:induction false} PlainExact(u: Json, v: Json, w: Json, o: Option<int>, t: Option<int>)
    requires WellFormed(u) && WellFormed(v) && WellFormed(w) && NoStamp(u) && NoStamp(v) && NoStamp(w)
    ensures Associates(u, v, w, Plain(o, t)) <==> PlainAssociates(u, v, w, o, t)
    decreases u
  {
    if u.Null? || v.Null? || w.Null? {
      PlainNull(u, v, w, o, t);
    } else if u.Obj? && v.Obj? && w.Obj? {
      var a, b, c := u.fields, v.fields, w.fields;
      forall k ensures PlainStep(Get(a, k), Get(b, k), Get(c, k), o, t) {
        if k in a && k in b && k in c {
          PlainExact(a[k], b[k], c[k], o, t);
        } else {
          PlainMissing(Get(a, k), Get(b, k), Get(c, k), o, t);
        }
      }
      PlainObjects(a, b, c, o, t);
    } else if u.Arr? && v.Arr? && w.Arr? {
      var a, b, c := u.items, v.items, w.items;
      forall id ensures PlainStep(At(a, id), At(b, id), At(c, id), o, t) {
        ItemOf(a, id);
        ItemOf(b, id);
        ItemOf(c, id);
        if At(a, id).Some? && At(b, id).Some? && At(c, id).Some? {
          PlainExact(At(a, id).value, At(b, id).value, At(c, id).value, o, t);
        } else {
          PlainMissing(At(a, id), At(b, id), At(c, id), o, t);
        }
      }
      PlainArrays(a, b, c, o, t);
    } else {
      PlainMixed(u, v, w, o, t);
    }
  }

  /** Without timestamps union merge is associative exactly on the triples described by PlainAssociates. */
  lemma PlainAssociativity(u: Json, v: Json, w: Json, o: Option<int>, t: Option<int>)
    requires WellFormed(u) && WellFormed(v) && WellFormed(w) && NoStamp(u) && NoStamp(v) && NoStamp(w)
    ensures Union(Union(u, v, o, t), w, o, t) == Union(u, Union(v, w, o, t), o, t)
        <==> PlainAssociates(u, v, w, o, t)
  {
    Associativity(u, v, w, Plain(o, t));
    PlainExact(u, v, w, o, t);
  }

  /** Even without timestamps it fails when an object meets a scalar between two objects. */
  lemma AssociativityCounterexample()
    ensures var u, v, w := Obj(map["k" := Bool(true)]), Bool(true), Obj(map[]);
      WellFormed(u) && WellFormed(v) && WellFormed(w) && NoStamp(u) && NoStamp(v) && NoStamp(w)
      && Union(Union(u, v, None, None), w, None, None) != Union(u, Union(v, w, None, None), None, None)
  {
    var u, v, w := Obj(map["k" := Bool(true)]), Bool(true), Obj(map[]);
    UnionGet(u.fields, w.fields, None, None, "k");
    assert Union(v, w, None, None) == w && Union(u, v, None, None) == v;
  }

  /** With timestamps it fails on three objects: the middle one lends its timestamp to the side it is merged with. */
  lemma StampedCounterexample()
    ensures var u, w := Obj(map["k" := Bool(true)]), Obj(map["k" := Bool(false)]);
      var v := Obj(map[UPDATED_AT := Num(PosInt(5))]);
      WellFormed(u) && WellFormed(v) && WellFormed(w)
      && Union(Union(u, v, None, None), w, None, None) != Union(u, Union(v, w, None, None), None, None)
  {
    var u, w := Obj(map["k" := Bool(true)]), Obj(map["k" := Bool(false)]);
    var v := Obj(map[UPDATED_AT := Num(PosInt(5))]);
    var uv, vw := Union(u, v, None, None), Union(v, w, None, None);
    MergedStampOf(u.fields, v.fields, None, None);
    MergedStampOf(v.fields, w.fields, None, None);
    UnionGet(u.fields, v.fields, None, None, "k");
    UnionGet(v.fields, w.fields, None, None, "k");
    UnionGet(uv.fields, w.fields, None, None, "k");
    UnionGet(u.fields, vw.fields, None, None, "k");
    assert Get(Union(uv, w, None, None).fields, "k") == Some(Bool(true));
  }
}
