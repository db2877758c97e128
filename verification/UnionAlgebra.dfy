/** The newest-wins rule of the union merge, and what becomes of key paths. */
module UnionAlgebra {
  import opened Wrappers
  import opened JsonValues
  import opened UnionMerge
  import opened UnionLaws

  /** No object, at any depth, carries a usable timestamp. */
  ghost predicate NoStamp(v: Json)
    decreases v
  {
    match v
    case Arr(items) => forall i :: 0 <= i < |items| ==> NoStamp(items[i])
    case Obj(fields) => ExtractTimestamp(fields).None? && forall k :: k in fields ==> NoStamp(fields[k])
    case _ => true
  }

  function Get(fields: map<string, Json>, k: string): Option<Json> {
    if k in fields then Some(fields[k]) else None
  }

  /** A merged object field by field, when neither object carries a timestamp. */
  lemma UnionPlainField(a: map<string, Json>, b: map<string, Json>, ot: Option<int>, tt: Option<int>)
    requires ExtractTimestamp(a).None? && ExtractTimestamp(b).None?
    ensures Union(Obj(a), Obj(b), ot, tt).Obj?
    ensures Union(Obj(a), Obj(b), ot, tt).fields.Keys == a.Keys + b.Keys
    ensures forall k :: k in a || k in b ==> Union(Obj(a), Obj(b), ot, tt).fields[k] == MergedField(a, b, ot, tt, k)
  {
  }

  lemma SameFields(a: map<string, Json>, b: map<string, Json>)
    requires forall k {:trigger Get(a, k)} :: Get(a, k) == Get(b, k)
    ensures a == b
  {
    forall k ensures k in a <==> k in b { assert Get(a, k) == Get(b, k); }
    forall k | k in a ensures a[k] == b[k] { assert Get(a, k) == Get(b, k); }
  }

  lemma StampOfUnion(x: Json, y: Json, ot: Option<int>, tt: Option<int>)
    requires StampOf(x).None? && StampOf(y).None?
    ensures StampOf(Union(x, y, ot, tt)).None?
  {
  }

  lemma {:induction false} UnionNoStamp(v: Json, w: Json, ot: Option<int>, tt: Option<int>)
    requires NoStamp(v) && NoStamp(w)
    ensures NoStamp(Union(v, w, ot, tt))
    decreases v
  {
    match (v, w)
    case (Obj(a), Obj(b)) =>
      UnionPlainField(a, b, ot, tt);
      forall k | k in a && k in b ensures NoStamp(Union(a[k], b[k], ot, tt)) {
        UnionNoStamp(a[k], b[k], ot, tt);
      }
      if UPDATED_AT in a && UPDATED_AT in b {
        StampOfUnion(a[UPDATED_AT], b[UPDATED_AT], ot, tt);
      }
    case (Arr(a), Arr(b)) =>
      UnionArrays(a, b, ot, tt);
      forall i: nat | i < |a| ensures NoStamp(OurItems(a, b, ot, tt)[i]) {
        var j := FirstMatch(a[i], b, 0);
        if j.Some? { UnionNoStamp(a[i], b[j.value], ot, tt); }
      }
      ItemsNoStamp(a, b, ot, tt);
    case _ =>
  }

  lemma ItemsNoStamp(a: seq<Json>, b: seq<Json>, ot: Option<int>, tt: Option<int>)
    requires forall i :: 0 <= i < |b| ==> NoStamp(b[i])
    requires forall i: nat :: i < |a| ==> NoStamp(OurItems(a, b, ot, tt)[i])
    ensures NoStamp(Arr(UnionItems(a, b, ot, tt)))
  {
    var rest := Leftover(b, Consumed(a, b), |b|);
    LeftoverFrom(b, Consumed(a, b), |b|);
    forall i | 0 <= i < |rest| ensures NoStamp(rest[i]) {
      assert rest[i] in rest;
    }
  }

  lemma ItemOf(a: seq<Json>, id: Identity)
    requires WellFormed(Arr(a))
    ensures At(a, id).Some? ==> At(a, id).value < Arr(a) && WellFormed(At(a, id).value)
    ensures At(a, id).Some? && NoStamp(Arr(a)) ==> NoStamp(At(a, id).value)
  {
    if At(a, id).Some? {
      var i :| 0 <= i < |a| && a[i] == At(a, id).value;
    }
  }

  lemma KindOfUnion(u: Json, v: Json, ot: Option<int>, tt: Option<int>)
    requires !u.Null? && !v.Null?
    ensures u.Obj? && v.Obj? ==> Union(u, v, ot, tt).Obj?
    ensures u.Arr? && v.Arr? ==> Union(u, v, ot, tt).Arr?
    ensures !(u.Obj? && v.Obj?) && !(u.Arr? && v.Arr?) ==> Union(u, v, ot, tt) == if TheirsWins(ot, tt) then v else u
  {
  }

  // ── Newest wins, path by path ──

  /** The value at an object-key path. */
  function Lookup(v: Json, path: seq<string>): Option<Json>
    decreases |path|
  {
    if path == [] then Some(v)
    else if v.Obj? && path[0] in v.fields then Lookup(v.fields[path[0]], path[1..])
    else None
  }

  /** The timestamp of the nearest object above the end of the path that carries one. */
  function NearestStamp(v: Json, path: seq<string>, inherited: Option<int>): Option<int>
    decreases |path|
  {
    if path == [] || !v.Obj? || path[0] !in v.fields then inherited
    else if "updated_at" in v.fields && StampOf(v.fields["updated_at"]).Some? then
      NearestStamp(v.fields[path[0]], path[1..], StampOf(v.fields["updated_at"]))
    else NearestStamp(v.fields[path[0]], path[1..], inherited)
  }

  /** Theirs is at least as new as ours; a missing timestamp is older than any positive one. */
  predicate AtLeastAsNew(theirs: Option<int>, ours: Option<int>) {
    match (theirs, ours)
    case (Some(t), Some(o)) => o <= t
    case (Some(t), None) => 0 <= t
    case (None, Some(o)) => o <= 0
    case (None, None) => true
  }

  /** Two values neither of which can be merged into the other. */
  predicate Contested(x: Json, y: Json) {
    !x.Null? && !y.Null? && !(x.Obj? && y.Obj?) && !(x.Arr? && y.Arr?)
  }

  /** Where both sides hold contested values at the end of a key path, the side whose nearest
      timestamp is newer wins, theirs on a tie. */
  lemma {:induction false} NewestWins(v: Json, w: Json, path: seq<string>, ot: Option<int>, tt: Option<int>)
    requires Lookup(v, path).Some? && Lookup(w, path).Some?
    requires Contested(Lookup(v, path).value, Lookup(w, path).value)
    ensures Lookup(Union(v, w, ot, tt), path)
         == if AtLeastAsNew(NearestStamp(w, path, tt), NearestStamp(v, path, ot)) then Lookup(w, path)
            else Lookup(v, path)
    decreases |path|
  {
    if path == [] {
      KindOfUnion(v, w, ot, tt);
    } else {
      var k := path[0];
      var o, t := ExtractTimestamp(v.fields).Or(ot), ExtractTimestamp(w.fields).Or(tt);
      NewestWins(v.fields[k], w.fields[k], path[1..], o, t);
      UnionField(v.fields, w.fields, ot, tt, k);
    }
  }

  lemma UnionField(a: map<string, Json>, b: map<string, Json>, ot: Option<int>, tt: Option<int>, k: string)
    ensures var u := Union(Obj(a), Obj(b), ot, tt);
      u.Obj? && (k in u.fields <==> k in a || k in b)
      && (k in u.fields ==> u.fields[k] == MergedField(a, b, ExtractTimestamp(a).Or(ot), ExtractTimestamp(b).Or(tt), k))
  {
  }

  /** Every key path of the merge comes from one of the inputs. */
  lemma {:induction false} PathsFromInputs(v: Json, w: Json, path: seq<string>, ot: Option<int>, tt: Option<int>)
    requires Lookup(Union(v, w, ot, tt), path).Some?
    ensures Lookup(v, path).Some? || Lookup(w, path).Some?
    decreases |path|
  {
    if path != [] && v.Obj? && w.Obj? {
      var k := path[0];
      UnionField(v.fields, w.fields, ot, tt, k);
      if k in v.fields && k in w.fields {
        var o, t := ExtractTimestamp(v.fields).Or(ot), ExtractTimestamp(w.fields).Or(tt);
        PathsFromInputs(v.fields[k], w.fields[k], path[1..], o, t);
      }
    } else if path != [] {
      OneSide(v, w, ot, tt);
    }
  }

  /** Unless both sides are objects, or both arrays, the merge is one of the two sides. */
  lemma OneSide(v: Json, w: Json, ot: Option<int>, tt: Option<int>)
    requires !(v.Obj? && w.Obj?)
    ensures var u := Union(v, w, ot, tt); u == v || u == w || u.Arr?
  {
  }

  /** A path of this side survives the merge with other: where other first has neither an object nor
      null on it, this side wins by the nearest timestamps. */
  predicate Survives(mine: Json, other: Json, path: seq<string>, m: Option<int>, o: Option<int>, onTie: bool)
    decreases |path|
  {
    if path == [] || !mine.Obj? || path[0] !in mine.fields || other.Null? then true
    else if other.Obj? then
      path[0] in other.fields ==>
        Survives(mine.fields[path[0]], other.fields[path[0]], path[1..],
                 ExtractTimestamp(mine.fields).Or(m), ExtractTimestamp(other.fields).Or(o), onTie)
    else m.GetOr(0) > o.GetOr(0) || (onTie && m.GetOr(0) == o.GetOr(0))
  }

  /** A key path of either side is in the merge exactly when it survives; theirs survives a tie. */
  lemma {:induction false} PathsKept(v: Json, w: Json, path: seq<string>, ot: Option<int>, tt: Option<int>)
    ensures Lookup(v, path).Some? ==> (Lookup(Union(v, w, ot, tt), path).Some? <==> Survives(v, w, path, ot, tt, false))
    ensures Lookup(w, path).Some? ==> (Lookup(Union(v, w, ot, tt), path).Some? <==> Survives(w, v, path, tt, ot, true))
    decreases |path|
  {
    if path != [] && v.Obj? && w.Obj? {
      var k := path[0];
      UnionField(v.fields, w.fields, ot, tt, k);
      if k in v.fields && k in w.fields {
        var o, t := ExtractTimestamp(v.fields).Or(ot), ExtractTimestamp(w.fields).Or(tt);
        PathsKept(v.fields[k], w.fields[k], path[1..], o, t);
      }
    } else if path != [] {
      NullYields(v, w, ot, tt);
    }
  }

  /** Along the path the other side never puts a non-object in the way. */
  predicate OpenAlong(v: Json, path: seq<string>)
    decreases |path|
  {
    path == [] || v.Null? || (v.Obj? && (path[0] in v.fields ==> OpenAlong(v.fields[path[0]], path[1..])))
  }

  lemma {:induction false} OpenSurvives(mine: Json, other: Json, path: seq<string>, m: Option<int>, o: Option<int>,
                                        onTie: bool)
    requires OpenAlong(other, path)
    ensures Survives(mine, other, path, m, o, onTie)
    decreases |path|
  {
    if path != [] && mine.Obj? && path[0] in mine.fields && other.Obj? && path[0] in other.fields {
      OpenSurvives(mine.fields[path[0]], other.fields[path[0]], path[1..],
                   ExtractTimestamp(mine.fields).Or(m), ExtractTimestamp(other.fields).Or(o), onTie);
    }
  }

  /** So no key of either side is lost as long as the other side does not block the path. */
  lemma NoPathLost(v: Json, w: Json, path: seq<string>, ot: Option<int>, tt: Option<int>)
    ensures Lookup(v, path).Some? && OpenAlong(w, path) ==> Lookup(Union(v, w, ot, tt), path).Some?
    ensures Lookup(w, path).Some? && OpenAlong(v, path) ==> Lookup(Union(v, w, ot, tt), path).Some?
  {
    PathsKept(v, w, path, ot, tt);
    if OpenAlong(w, path) { OpenSurvives(v, w, path, ot, tt, false); }
    if OpenAlong(v, path) { OpenSurvives(w, v, path, tt, ot, true); }
  }

  lemma NullYields(v: Json, w: Json, ot: Option<int>, tt: Option<int>)
    ensures v.Null? ==> Union(v, w, ot, tt) == w
    ensures w.Null? ==> Union(v, w, ot, tt) == v
  {
  }
}
