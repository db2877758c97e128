/** Union merge of two JSON values: objects key by key, arrays by item identity,
    scalars by the newest enclosing timestamp. */
module UnionMerge {
  import opened Wrappers
  import opened JsonValues

  const UPDATED_AT := "updated_at"
  const ID := "id"

  /** The timestamp an object carries, if it is a 64-bit integer or parses as one. */
  function ExtractTimestamp(fields: map<string, Json>): Option<int> {
    if UPDATED_AT in fields then StampOf(fields[UPDATED_AT]) else None
  }

  function StampOf(value: Json): Option<int> {
    match value
    case Num(n) => AsI64(n)
    case Str(s) => ParseI64(s)
    case _ => None
  }

  /** Two array items describe the same entity. */
  predicate SameIdentity(l: Json, r: Json) {
    if l.Obj? && r.Obj? && ID in l.fields && ID in r.fields then l.fields[ID] == r.fields[ID] else l == r
  }

  /** The first item of s[from..] with the identity of x. */
  function FirstMatch(x: Json, s: seq<Json>, from: nat): (r: Option<nat>)
    requires from <= |s|
    ensures r.Some? ==> from <= r.value < |s| && SameIdentity(x, s[r.value])
    ensures r.Some? ==> forall j :: from <= j < r.value ==> !SameIdentity(x, s[j])
    ensures r.None? ==> forall j :: from <= j < |s| ==> !SameIdentity(x, s[j])
    decreases |s| - from
  {
    if from == |s| then None
    else if SameIdentity(x, s[from]) then Some(from)
    else FirstMatch(x, s, from + 1)
  }

  /** Positions of s matched by some item of a. */
  function Consumed(a: seq<Json>, s: seq<Json>): (r: set<nat>)
    ensures forall j: nat :: j in r <==> exists i :: 0 <= i < |a| && FirstMatch(a[i], s, 0) == Some(j)
  {
    if a == [] then {}
    else
      var rest := Consumed(a[..|a| - 1], s);
      var m := FirstMatch(a[|a| - 1], s, 0);
      assert forall i :: 0 <= i < |a| - 1 ==> a[..|a| - 1][i] == a[i];
      if m.Some? then rest + {m.value} else rest
  }

  /** The items of the first n positions that are not in `used`, in order. */
  function Leftover(s: seq<Json>, used: set<nat>, n: nat): seq<Json>
    requires n <= |s|
  {
    if n == 0 then []
    else if n - 1 in used then Leftover(s, used, n - 1)
    else Leftover(s, used, n - 1) + [s[n - 1]]
  }

  predicate TheirsWins(ot: Option<int>, tt: Option<int>) {
    tt.GetOr(0) >= ot.GetOr(0)
  }

  /** The merged value; ot and tt are the timestamps inherited from the enclosing objects. */
  function Union(ours: Json, theirs: Json, ot: Option<int>, tt: Option<int>): Json
    decreases ours
  {
    match (ours, theirs)
    case (Obj(a), Obj(b)) =>
      var o, t := ExtractTimestamp(a).Or(ot), ExtractTimestamp(b).Or(tt);
      Obj(map k | k in a.Keys + b.Keys ::
            if k in a then if k in b then Union(a[k], b[k], o, t) else a[k] else b[k])
    case (Arr(a), Arr(b)) =>
      Arr(seq(|a|, i requires 0 <= i < |a| =>
            var m := FirstMatch(a[i], b, 0);
            if m.Some? then Union(a[i], b[m.value], ot, tt) else a[i])
          + Leftover(b, Consumed(a, b), |b|))
    case (Null, _) => theirs
    case (_, Null) => ours
    case _ => if TheirsWins(ot, tt) then theirs else ours
  }

  /** The item our i-th array item becomes. */
  function MergedItem(a: seq<Json>, b: seq<Json>, ot: Option<int>, tt: Option<int>, i: nat): Json
    requires i < |a|
  {
    var m := FirstMatch(a[i], b, 0);
    if m.Some? then Union(a[i], b[m.value], ot, tt) else a[i]
  }

  /** What the merged object holds under a key of either side. */
  function MergedField(a: map<string, Json>, b: map<string, Json>, o: Option<int>, t: Option<int>, k: string): Json
    requires k in a || k in b
  {
    if k in a then if k in b then Union(a[k], b[k], o, t) else a[k] else b[k]
  }

  ghost predicate FieldIs(merged: map<string, Json>, a: map<string, Json>, b: map<string, Json>,
                          o: Option<int>, t: Option<int>, k: string)
    requires k in merged && (k in a || k in b)
  {
    merged[k] == MergedField(a, b, o, t, k)
  }

  /** Our items in order, each merged with its partner if it has one. */
  function OurItems(a: seq<Json>, b: seq<Json>, ot: Option<int>, tt: Option<int>): (r: seq<Json>)
    ensures |r| == |a| && forall i: nat :: i < |a| ==> r[i] == MergedItem(a, b, ot, tt, i)
  {
    seq(|a|, i requires 0 <= i < |a| => MergedItem(a, b, ot, tt, i))
  }

  /** The merged array: our items, then theirs that matched nothing. */
  function UnionItems(a: seq<Json>, b: seq<Json>, ot: Option<int>, tt: Option<int>): seq<Json> {
    OurItems(a, b, ot, tt) + Leftover(b, Consumed(a, b), |b|)
  }

  lemma UnionArrays(a: seq<Json>, b: seq<Json>, ot: Option<int>, tt: Option<int>)
    ensures Union(Arr(a), Arr(b), ot, tt) == Arr(UnionItems(a, b, ot, tt))
  {
    var mine := seq(|a|, i requires 0 <= i < |a| =>
            var m := FirstMatch(a[i], b, 0);
            if m.Some? then Union(a[i], b[m.value], ot, tt) else a[i]);
    assert Union(Arr(a), Arr(b), ot, tt) == Arr(mine + Leftover(b, Consumed(a, b), |b|));
    forall i: nat | i < |a| ensures mine[i] == MergedItem(a, b, ot, tt, i) { }
    assert mine == OurItems(a, b, ot, tt);
  }

  /** A map with the keys of both sides and the merged value under each is the merged object. */
  lemma UnionObjects(a: map<string, Json>, b: map<string, Json>, ot: Option<int>, tt: Option<int>,
                     merged: map<string, Json>)
    requires merged.Keys == a.Keys + b.Keys
    requires forall k {:trigger FieldIs(merged, a, b, ExtractTimestamp(a).Or(ot), ExtractTimestamp(b).Or(tt), k)} ::
               k in merged ==> FieldIs(merged, a, b, ExtractTimestamp(a).Or(ot), ExtractTimestamp(b).Or(tt), k)
    ensures Union(Obj(a), Obj(b), ot, tt) == Obj(merged)
  {
    var o, t := ExtractTimestamp(a).Or(ot), ExtractTimestamp(b).Or(tt);
    var u := Union(Obj(a), Obj(b), ot, tt).fields;
    forall k | k in merged ensures u[k] == merged[k] {
      assert FieldIs(merged, a, b, o, t, k);
    }
  }

  method MergeJsonUnion(ours: Json, theirs: Json) returns (r: Json)
    ensures r == Union(ours, theirs, None, None)
  {
    r := MergeWithTimestampContext(ours, theirs, None, None);
  }

  method MergeWithTimestampContext(ours: Json, theirs: Json, ot: Option<int>, tt: Option<int>) returns (r: Json)
    ensures r == Union(ours, theirs, ot, tt)
    decreases ours, 2
  {
    match (ours, theirs)
    case (Obj(a), Obj(b)) => r := MergeObjects(ours, a, b, ot, tt);
    case (Arr(a), Arr(b)) => r := MergeArraysByIdentity(ours, a, b, ot, tt);
    case (Null, _) => r := theirs;
    case (_, Null) => r := ours;
    case _ => r := if TheirsWins(ot, tt) then theirs else ours;
  }

  /** Our keys first, merged with theirs where both have them; then the keys only theirs has. */
  method MergeObjects(ghost ours: Json, a: map<string, Json>, b: map<string, Json>, ot: Option<int>, tt: Option<int>)
    returns (r: Json)
    requires ours == Obj(a)
    ensures r == Union(Obj(a), Obj(b), ot, tt)
    decreases ours, 0
  {
    var o, t := ExtractTimestamp(a).Or(ot), ExtractTimestamp(b).Or(tt);
    var merged: map<string, Json> := map[];
    var rest := a.Keys;
    while rest != {}
      invariant rest <= a.Keys && merged.Keys == a.Keys - rest
      invariant forall k {:trigger FieldIs(merged, a, b, o, t, k)} :: k in merged ==> FieldIs(merged, a, b, o, t, k)
      decreases rest
    {
      var key :| key in rest;
      ghost var before := merged;
      if key in b {
        var value := MergeWithTimestampContext(a[key], b[key], o, t);
        merged := merged[key := value];
      } else {
        merged := merged[key := a[key]];
      }
      PutField(before, merged, a, b, o, t, key);
      rest := rest - {key};
    }
    rest := b.Keys;
    while rest != {}
      invariant rest <= b.Keys && merged.Keys == a.Keys + (b.Keys - rest)
      invariant forall k {:trigger FieldIs(merged, a, b, o, t, k)} :: k in merged ==> FieldIs(merged, a, b, o, t, k)
      decreases rest
    {
      var key :| key in rest;
      ghost var before := merged;
      if key !in merged {
        merged := merged[key := b[key]];
        PutField(before, merged, a, b, o, t, key);
      }
      rest := rest - {key};
    }
    UnionObjects(a, b, ot, tt, merged);
    r := Obj(merged);
  }

  lemma PutField(before: map<string, Json>, after: map<string, Json>, a: map<string, Json>, b: map<string, Json>,
                 o: Option<int>, t: Option<int>, key: string)
    requires before.Keys <= a.Keys + b.Keys && (key in a || key in b)
    requires forall k {:trigger FieldIs(before, a, b, o, t, k)} :: k in before ==> FieldIs(before, a, b, o, t, k)
    requires after == before[key := MergedField(a, b, o, t, key)]
    ensures forall k {:trigger FieldIs(after, a, b, o, t, k)} :: k in after ==> FieldIs(after, a, b, o, t, k)
  {
    forall k | k in after ensures FieldIs(after, a, b, o, t, k) {
      if k != key { assert FieldIs(before, a, b, o, t, k); }
    }
  }

  /** Merges two arrays item by item, marking the items of theirs that found a partner. */
  method MergeArraysByIdentity(ghost ours: Json, a: seq<Json>, b: seq<Json>, ot: Option<int>, tt: Option<int>)
    returns (r: Json)
    requires ours == Arr(a)
    ensures r == Union(Arr(a), Arr(b), ot, tt)
    decreases ours, 1
  {
    var merged, consumed := MergeOurItems(ours, a, b, ot, tt);
    merged := AppendLeftover(merged, b, consumed, Consumed(a, b));
    UnionArrays(a, b, ot, tt);
    r := Arr(merged);
  }

  /** The pass over our items: each is merged with its first match, which is then marked. */
  method MergeOurItems(ghost ours: Json, a: seq<Json>, b: seq<Json>, ot: Option<int>, tt: Option<int>)
    returns (merged: seq<Json>, consumed: seq<bool>)
    requires ours == Arr(a)
    ensures merged == OurItems(a, b, ot, tt)
    ensures |consumed| == |b| && Marked(consumed, Consumed(a, b))
    decreases ours, 0
  {
    merged, consumed := [], seq(|b|, _ => false);
    AllUnmarked(consumed);
    var i := 0;
    while i < |a|
      invariant i <= |a| && merged == OurItems(a, b, ot, tt)[..i]
      invariant |consumed| == |b| && Marked(consumed, Consumed(a[..i], b))
    {
      var m := FirstMatch(a[i], b, 0);
      ConsumeMark(a, b, i, consumed);
      OurItemsStep(a, b, ot, tt, i);
      if m.Some? {
        consumed := consumed[m.value := true];
        var value := MergeWithTimestampContext(a[i], b[m.value], ot, tt);
        merged := merged + [value];
      } else {
        merged := merged + [a[i]];
      }
      i := i + 1;
    }
    assert a[..|a|] == a;
  }

  ghost predicate MarkedAt(flags: seq<bool>, used: set<nat>, j: nat)
    requires j < |flags|
  {
    flags[j] <==> j in used
  }

  ghost predicate Marked(flags: seq<bool>, used: set<nat>) {
    forall j: nat {:trigger MarkedAt(flags, used, j)} :: j < |flags| ==> MarkedAt(flags, used, j)
  }

  lemma AllUnmarked(flags: seq<bool>)
    requires forall j: nat :: j < |flags| ==> !flags[j]
    ensures Marked(flags, {})
  {
  }

  lemma MarkStep(flags: seq<bool>, used: set<nat>, j: nat)
    requires j < |flags| && Marked(flags, used)
    ensures Marked(flags[j := true], used + {j})
  {
    var flags', used' := flags[j := true], used + {j};
    forall k: nat | k < |flags'| ensures MarkedAt(flags', used', k) {
      assert MarkedAt(flags, used, k);
    }
  }

  lemma OurItemsStep(a: seq<Json>, b: seq<Json>, ot: Option<int>, tt: Option<int>, i: nat)
    requires i < |a|
    ensures OurItems(a, b, ot, tt)[..i + 1] == OurItems(a, b, ot, tt)[..i] + [MergedItem(a, b, ot, tt, i)]
  {
  }

  lemma ConsumeStep(a: seq<Json>, b: seq<Json>, i: nat)
    requires i < |a|
    ensures FirstMatch(a[i], b, 0).Some? ==>
              Consumed(a[..i + 1], b) == Consumed(a[..i], b) + {FirstMatch(a[i], b, 0).value}
    ensures FirstMatch(a[i], b, 0).None? ==> Consumed(a[..i + 1], b) == Consumed(a[..i], b)
  {
    assert a[..i + 1][..i] == a[..i];
  }

  lemma ConsumeMark(a: seq<Json>, b: seq<Json>, i: nat, flags: seq<bool>)
    requires i < |a| && |flags| == |b| && Marked(flags, Consumed(a[..i], b))
    ensures FirstMatch(a[i], b, 0).Some? ==>
              Marked(flags[FirstMatch(a[i], b, 0).value := true], Consumed(a[..i + 1], b))
    ensures FirstMatch(a[i], b, 0).None? ==> Marked(flags, Consumed(a[..i + 1], b))
  {
    ConsumeStep(a, b, i);
    if FirstMatch(a[i], b, 0).Some? {
      MarkStep(flags, Consumed(a[..i], b), FirstMatch(a[i], b, 0).value);
    }
  }

  /** Appends the items of s that are not marked. */
  method AppendLeftover(merged0: seq<Json>, s: seq<Json>, flags: seq<bool>, ghost used: set<nat>)
    returns (merged: seq<Json>)
    requires |flags| == |s| && Marked(flags, used)
    ensures merged == merged0 + Leftover(s, used, |s|)
  {
    merged := merged0;
    var j := 0;
    while j < |s|
      invariant j <= |s|
      invariant merged == merged0 + Leftover(s, used, j)
    {
      assert MarkedAt(flags, used, j);
      if !flags[j] {
        merged := merged + [s[j]];
      }
      j := j + 1;
    }
  }
}
