/** Similarity of two field values, in exact arithmetic. */
module FieldSimilarity {
  import opened Paths
  import opened JsonValues
  import opened BranchDiff

  /** The score of two non-empty strings comes from a diff library; this is what is used of it. */
  type Ratio = (string, string) -> real

  ghost predicate IsRatio(ratio: Ratio) {
    forall s, t :: 0.0 <= ratio(s, t) <= 1.0 && (ratio(s, t) == 1.0 <==> s == t)
  }

  ghost predicate IsSymmetric(ratio: Ratio) {
    forall s, t :: ratio(s, t) == ratio(t, s)
  }

  function AsReal(num: Number): real {
    match num
    case PosInt(n) => n as real
    case NegInt(i) => i as real
    case Float(r) => r
  }

  function Abs(x: real): real {
    if x < 0.0 then -x else x
  }

  function Max(x: real, y: real): real {
    if x < y then y else x
  }

  function Clamp(x: real): real {
    if x < 0.0 then 0.0 else if x > 1.0 then 1.0 else x
  }

  function NumericSimilarity(x: real, y: real): real {
    var max := Max(Max(Abs(x), Abs(y)), 1.0);
    Clamp(1.0 - Abs(x - y) / max)
  }

  function StringSimilarity(s: string, t: string, ratio: Ratio): real {
    if s == "" && t == "" then 1.0
    else if s == "" || t == "" then 0.0
    else ratio(s, t)
  }

  /** The elements of an array as they are compared: repetition and order do not matter. */
  function Elements(a: seq<Json>): set<Json> {
    set x | x in a
  }

  function ArrayJaccard(a: seq<Json>, b: seq<Json>): real {
    var union := Elements(a) + Elements(b);
    if |union| == 0 then 1.0 else |Elements(a) * Elements(b)| as real / |union| as real
  }

  /** The sum of the scores, in any order. */
  ghost function Sum(scores: map<string, real>): real
    decreases |scores|
  {
    if scores == map[] then 0.0
    else
      var k :| k in scores;
      scores[k] + Sum(scores - {k})
  }

  ghost function Average(scores: map<string, real>): real {
    if scores == map[] then 1.0 else Sum(scores) / |scores| as real
  }

  /** A field one side lacks counts as null there. */
  ghost function FieldScores(a: map<string, Json>, b: map<string, Json>, both: map<string, real>): map<string, real>
    requires both.Keys == a.Keys * b.Keys
  {
    map k | k in a.Keys + b.Keys ::
      if k in both then both[k] else if (k in a && a[k] == Null) || (k in b && b[k] == Null) then 1.0 else 0.0
  }

  ghost function Similarity(v: Json, w: Json, ratio: Ratio): real
    decreases v
  {
    if v == w then 1.0
    else match (v, w)
      case (Str(s), Str(t)) => StringSimilarity(s, t, ratio)
      case (Num(m), Num(n)) => NumericSimilarity(AsReal(m), AsReal(n))
      case (Obj(a), Obj(b)) =>
        Average(FieldScores(a, b, map k | k in a.Keys * b.Keys :: Similarity(a[k], b[k], ratio)))
      case (Arr(a), Arr(b)) => ArrayJaccard(a, b)
      case _ => 0.0
  }

  /** Equal up to what the score does not see: the form of a number, null fields, and the order and
      repetition of array items. */
  ghost predicate Alike(v: Json, w: Json)
    decreases v
  {
    v == w
    || match (v, w)
       case (Num(m), Num(n)) => AsReal(m) == AsReal(n)
       case (Obj(a), Obj(b)) =>
         && (forall k :: k in a && k in b ==> Alike(a[k], b[k]))
         && (forall k :: k in a && k !in b ==> a[k] == Null)
         && (forall k :: k in b && k !in a ==> b[k] == Null)
       case (Arr(a), Arr(b)) => Elements(a) == Elements(b)
       case _ => false
  }

  // ── Sums ──

  /** The sum does not depend on the order of summation. */
  lemma {:induction false} SumPut(scores: map<string, real>, k: string)
    requires k in scores
    ensures Sum(scores) == scores[k] + Sum(scores - {k})
    decreases |scores|
  {
    var j :| j in scores && Sum(scores) == scores[j] + Sum(scores - {j});
    if j != k {
      SumPut(scores - {j}, k);
      SumPut(scores - {k}, j);
      assert (scores - {j}) - {k} == (scores - {k}) - {j};
    }
  }

  ghost predicate InUnit(scores: map<string, real>) {
    forall k :: k in scores ==> 0.0 <= scores[k] <= 1.0
  }

  ghost predicate AllOne(scores: map<string, real>) {
    forall k :: k in scores ==> scores[k] == 1.0
  }

  lemma {:induction false} SumRange(scores: map<string, real>)
    requires InUnit(scores)
    ensures 0.0 <= Sum(scores) <= |scores| as real
    ensures Sum(scores) == |scores| as real <==> AllOne(scores)
    decreases |scores|
  {
    if scores != map[] {
      var k :| k in scores;
      SumPut(scores, k);
      var rest := scores - {k};
      SumRange(rest);
      assert scores.Keys == rest.Keys + {k};
      assert AllOne(scores) <==> AllOne(rest) && scores[k] == 1.0;
    }
  }

  lemma AverageRange(scores: map<string, real>)
    requires InUnit(scores)
    ensures 0.0 <= Average(scores) <= 1.0
    ensures Average(scores) == 1.0 <==> AllOne(scores)
  {
    SumRange(scores);
    if scores != map[] {
      Quotient(Sum(scores), |scores| as real);
    }
  }

  lemma FieldScoresRange(a: map<string, Json>, b: map<string, Json>, both: map<string, real>)
    requires both.Keys == a.Keys * b.Keys && InUnit(both)
    ensures InUnit(FieldScores(a, b, both))
    ensures AllOne(FieldScores(a, b, both)) <==>
            AllOne(both) && (forall k :: k in a && k !in b ==> a[k] == Null) &&
                (forall k :: k in b && k !in a ==> b[k] == Null)
  {
    var scores := FieldScores(a, b, both);
    assert forall k :: k in both ==> k in scores && scores[k] == both[k];
    assert forall k :: k in a && k !in b ==> k in scores && (scores[k] == 1.0 <==> a[k] == Null);
    assert forall k :: k in b && k !in a ==> k in scores && (scores[k] == 1.0 <==> b[k] == Null);
  }

  // ── Numbers and arrays ──

  lemma NumericRange(x: real, y: real)
    ensures 0.0 <= NumericSimilarity(x, y) <= 1.0
    ensures NumericSimilarity(x, y) == 1.0 <==> x == y
    ensures NumericSimilarity(x, y) == NumericSimilarity(y, x)
  {
    var max := Max(Max(Abs(x), Abs(y)), 1.0);
    Quotient(Abs(x - y), max);
  }

  lemma JaccardRange(a: seq<Json>, b: seq<Json>)
    ensures 0.0 <= ArrayJaccard(a, b) <= 1.0
    ensures ArrayJaccard(a, b) == 1.0 <==> Elements(a) == Elements(b)
    ensures ArrayJaccard(a, b) == ArrayJaccard(b, a)
  {
    var x, y := Elements(a), Elements(b);
    assert x + y == y + x && x * y == y * x;
    SubsetSize(x * y, x + y);
    if |x + y| > 0 {
      Quotient(|x * y| as real, |x + y| as real);
      if |x * y| == |x + y| {
        assert x + y == x * y + (x + y - x * y);
        assert x + y - x * y == {};
      }
      if x == y {
        assert x * y == x && x + y == x;
      }
    } else {
      assert x <= x + y && y <= x + y;
    }
  }

  // ── The score ──

  /** The scores of the common fields. */
  ghost predicate CommonScores(a: map<string, Json>, b: map<string, Json>, ratio: Ratio, both: map<string, real>) {
    both.Keys == a.Keys * b.Keys && forall k :: k in both ==> both[k] == Similarity(a[k], b[k], ratio)
  }

  lemma ObjectScore(a: map<string, Json>, b: map<string, Json>, ratio: Ratio, both: map<string, real>)
    requires CommonScores(a, b, ratio, both)
    ensures a != b ==> Similarity(Obj(a), Obj(b), ratio) == Average(FieldScores(a, b, both))
  {
    var scores := map k | k in a.Keys * b.Keys :: Similarity(a[k], b[k], ratio);
    assert scores == both;
  }

  lemma GetCommonScores(a: map<string, Json>, b: map<string, Json>, ratio: Ratio) returns (both: map<string, real>)
    ensures CommonScores(a, b, ratio, both)
  {
    both := map k | k in a.Keys * b.Keys :: Similarity(a[k], b[k], ratio);
  }

  ghost predicate RangeAt(v: Json, w: Json, ratio: Ratio) {
    0.0 <= Similarity(v, w, ratio) <= 1.0 && (Similarity(v, w, ratio) == 1.0 <==> Alike(v, w))
  }

  lemma ObjectRange(a: map<string, Json>, b: map<string, Json>, ratio: Ratio)
    requires a != b && forall k :: k in a && k in b ==> RangeAt(a[k], b[k], ratio)
    ensures RangeAt(Obj(a), Obj(b), ratio)
  {
    var both := GetCommonScores(a, b, ratio);
    ObjectScore(a, b, ratio, both);
    CommonAlike(a, b, ratio, both);
    FieldScoresRange(a, b, both);
    AverageRange(FieldScores(a, b, both));
  }

  lemma CommonAlike(a: map<string, Json>, b: map<string, Json>, ratio: Ratio, both: map<string, real>)
    requires CommonScores(a, b, ratio, both) && forall k :: k in a && k in b ==> RangeAt(a[k], b[k], ratio)
    ensures InUnit(both) && (AllOne(both) <==> forall k :: k in a && k in b ==> Alike(a[k], b[k]))
  {
    forall k | k in both ensures RangeAt(a[k], b[k], ratio) && both[k] == Similarity(a[k], b[k], ratio) { }
    assert forall k :: k in a && k in b ==> k in both;
  }

  /** The score lies between 0 and 1, and is 1 exactly on values that are alike. */
  lemma {:induction false} SimilarityRange(v: Json, w: Json, ratio: Ratio)
    requires IsRatio(ratio)
    ensures 0.0 <= Similarity(v, w, ratio) <= 1.0
    ensures Similarity(v, w, ratio) == 1.0 <==> Alike(v, w)
    decreases v
  {
    if v != w {
      match (v, w) {
        case (Num(m), Num(n)) => NumericRange(AsReal(m), AsReal(n));
        case (Arr(a), Arr(b)) => JaccardRange(a, b);
        case (Obj(a), Obj(b)) =>
          forall k | k in a && k in b
            ensures RangeAt(a[k], b[k], ratio)
          {
            SimilarityRange(a[k], b[k], ratio);
          }
          ObjectRange(a, b, ratio);
        case _ =>
      }
    }
  }

  lemma ObjectSymmetric(a: map<string, Json>, b: map<string, Json>, ratio: Ratio)
    requires forall k :: k in a && k in b ==> Similarity(a[k], b[k], ratio) == Similarity(b[k], a[k], ratio)
    ensures Similarity(Obj(a), Obj(b), ratio) == Similarity(Obj(b), Obj(a), ratio)
  {
    var both := GetCommonScores(a, b, ratio);
    ObjectScore(a, b, ratio, both);
    ObjectScore(b, a, ratio, both);
    FieldScoresSwap(a, b, both);
  }

  lemma FieldScoresSwap(a: map<string, Json>, b: map<string, Json>, both: map<string, real>)
    requires both.Keys == a.Keys * b.Keys
    ensures FieldScores(a, b, both) == FieldScores(b, a, both)
  {
  }

  /** The score does not depend on the side, as long as the string ratio does not. */
  lemma {:induction false} SimilaritySymmetric(v: Json, w: Json, ratio: Ratio)
    requires IsSymmetric(ratio)
    ensures Similarity(v, w, ratio) == Similarity(w, v, ratio)
    decreases v
  {
    match (v, w) {
      case (Num(m), Num(n)) => NumericRange(AsReal(m), AsReal(n));
      case (Arr(a), Arr(b)) => JaccardRange(a, b);
      case (Obj(a), Obj(b)) =>
        forall k | k in a && k in b ensures Similarity(a[k], b[k], ratio) == Similarity(b[k], a[k], ratio) {
          SimilaritySymmetric(a[k], b[k], ratio);
        }
        ObjectSymmetric(a, b, ratio);
      case _ =>
    }
  }

  // ── The divergence of two branches ──

  function Score(stats: DiffStats, baseTotal: nat): real {
    Clamp((stats.added as real + stats.removed as real + stats.modified as real * 0.5)
          / (if baseTotal < 1 then 1 else baseTotal) as real)
  }

  /** The weighted score lies between 0 and 1 and is 0 exactly when nothing changed. */
  lemma WeightedScoreRange(stats: DiffStats, baseTotal: nat)
    ensures 0.0 <= Score(stats, baseTotal) <= 1.0
    ensures Score(stats, baseTotal) == 0.0 <==> stats.added == 0 && stats.removed == 0 && stats.modified == 0
  {
    var x := stats.added as real + stats.removed as real + stats.modified as real * 0.5;
    var d := (if baseTotal < 1 then 1 else baseTotal) as real;
    Quotient(x, d);
  }
}
