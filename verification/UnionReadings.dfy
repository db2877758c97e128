/** What the union merge does, on values written out. */
module UnionReadings {
  import opened Wrappers
  import opened JsonValues
  import opened UnionMerge
  import opened UnionLaws
  import opened UnionAlgebra
  import opened TimestampText

  // ── Which items are paired ──

  /** Two items are the same entity if both are objects with an "id" and the two are equal, or if they lack such a
      pair and are equal themselves. */
  predicate SameEntity(x: Json, y: Json) {
    match (x, y)
    case (Obj(a), Obj(b)) => if "id" in a && "id" in b then a["id"] == b["id"] else a == b
    case _ => x == y
  }

  lemma IdentReads(x: Json, y: Json)
    ensures Ident(x) == Ident(y) <==> SameEntity(x, y)
  {
  }

  /** Merging two one-item arrays pairs the items exactly if they are the same entity. */
  lemma PairedExactly(x: Json, y: Json, o: Option<int>, t: Option<int>)
    ensures Union(Arr([x]), Arr([y]), o, t) == if SameEntity(x, y) then Arr([Union(x, y, o, t)]) else Arr([x, y])
  {
    var a, b := [x], [y];
    UnionArrays(a, b, o, t);
    SameIdentityIsEquality(x, y);
    IdentReads(x, y);
    assert FirstMatch(x, b, 0) == if SameEntity(x, y) then Some(0) else None;
    assert 0 in Consumed(a, b) <==> SameEntity(x, y);
    assert Leftover(b, Consumed(a, b), 0) == [];
    assert UnionItems(a, b, o, t) == if SameEntity(x, y) then [Union(x, y, o, t)] else [x, y];
  }

  // ── Which side wins ──

  /** Two objects with one contested field: the newer object wins, theirs on a tie. */
  lemma NewerObjectWins(a: map<string, Json>, b: map<string, Json>, k: string)
    requires k in a && k in b && Contested(a[k], b[k])
    ensures var u := Union(Obj(a), Obj(b), None, None);
      var theirsWin := AtLeastAsNew(NearestStamp(Obj(b), [k], None), NearestStamp(Obj(a), [k], None));
      u.Obj? && k in u.fields && u.fields[k] == if theirsWin then b[k] else a[k]
  {
    NewestWins(Obj(a), Obj(b), [k], None, None);
    UnionField(a, b, None, None, k);
    assert Lookup(Obj(a), [k]) == Lookup(a[k], []) && Lookup(Obj(b), [k]) == Lookup(b[k], []);
    assert Lookup(Union(Obj(a), Obj(b), None, None), [k]) == Lookup(Union(Obj(a), Obj(b), None, None).fields[k], []);
  }

  /** An object with a numeric score and, perhaps, an "updated_at". */
  ghost predicate Scored(v: Json, updatedAt: Option<Json>, score: nat) {
    && v.Obj? && "score" in v.fields && v.fields["score"] == Num(PosInt(score))
    && Get(v.fields, "updated_at") == updatedAt
  }

  lemma NearestOfScored(v: Json, updatedAt: Option<Json>, score: nat)
    requires Scored(v, updatedAt, score)
    ensures NearestStamp(v, ["score"], None) == if updatedAt.Some? then StampOf(updatedAt.value) else None
  {
    assert NearestStamp(v.fields["score"], ["score"][1..], None) == None;
  }

  /** A positive timestamp keeps the score of ours against one without, and loses it to the same one. */
  lemma StampDecides(v: Json, w: Json, ours: nat, theirs: nat, stamp: nat)
    requires 0 < stamp <= 9223372036854775807 && Scored(v, Some(Num(PosInt(stamp))), ours)
    ensures Scored(w, None, theirs) ==> Scored(Union(v, w, None, None), Some(Num(PosInt(stamp))), ours)
    ensures Scored(w, Some(Num(PosInt(stamp))), theirs) ==>
              Scored(Union(v, w, None, None), Some(Num(PosInt(stamp))), theirs)
  {
    NearestOfScored(v, Some(Num(PosInt(stamp))), ours);
    ValuesExactly(Num(PosInt(stamp)));
    if w.Obj? && "score" in w.fields && w.fields["score"] == Num(PosInt(theirs)) {
      UnionField(v.fields, w.fields, None, None, "updated_at");
      UnionField(v.fields, w.fields, None, None, "score");
      NearestOfScored(w, Get(w.fields, "updated_at"), theirs);
      NewerObjectWins(v.fields, w.fields, "score");
    }
  }

  /** A date is no timestamp: it does not keep the score of ours. */
  lemma DateIsNoStamp(v: Json, w: Json, ours: nat, theirs: nat)
    requires Scored(v, Some(Str("2024-01-01")), ours) && Scored(w, None, theirs)
    ensures Scored(Union(v, w, None, None), Some(Str("2024-01-01")), theirs)
  {
    OtherCharacters("2024-01-01", 4);
    NearestOfScored(v, Some(Str("2024-01-01")), ours);
    NearestOfScored(w, None, theirs);
    UnionField(v.fields, w.fields, None, None, "updated_at");
    NewerObjectWins(v.fields, w.fields, "score");
  }
}
