/** Directed paths over a finite relation: reachability, acyclicity, forests and depths.
    Every statement about the lineage graph is made in these terms. */
module Paths {

  ghost predicate IsPath<T>(e: set<(T, T)>, p: seq<T>) {
    |p| > 0 && forall i :: 0 <= i < |p| - 1 ==> (p[i], p[i + 1]) in e
  }

  ghost predicate PathFromTo<T>(e: set<(T, T)>, p: seq<T>, a: T, b: T) {
    IsPath(e, p) && p[0] == a && p[|p| - 1] == b
  }

  /** b can be reached from a along zero or more edges. */
  ghost predicate Reach<T(!new)>(e: set<(T, T)>, a: T, b: T) {
    exists p :: PathFromTo(e, p, a, b)
  }

  /** b can be reached from a along one or more edges. */
  ghost predicate StrictReach<T(!new)>(e: set<(T, T)>, a: T, b: T) {
    exists v :: (a, v) in e && Reach(e, v, b)
  }

  /** No edge can be closed to a cycle. */
  ghost predicate Acyclic<T(!new)>(e: set<(T, T)>) {
    forall u, v :: (u, v) in e ==> !Reach(e, v, u)
  }

  /** Every node has at most one parent. */
  ghost predicate Forest<T(!new)>(e: set<(T, T)>) {
    forall u, v, w :: (u, w) in e && (v, w) in e ==> u == v
  }

  ghost predicate HasParent<T(!new)>(e: set<(T, T)>, x: T) {
    exists u :: (u, x) in e
  }

  lemma SomeParent<T(!new)>(e: set<(T, T)>, x: T) returns (u: T)
    requires HasParent(e, x)
    ensures (u, x) in e
  {
    u :| (u, x) in e;
  }

  ghost predicate Distinct<T(!new)>(s: seq<T>) {
    forall i, j :: 0 <= i < j < |s| ==> s[i] != s[j]
  }

  /** p starts at a parentless node and ends at v. */
  ghost predicate RootPath<T(!new)>(e: set<(T, T)>, p: seq<T>, v: T) {
    IsPath(e, p) && p[|p| - 1] == v && !HasParent(e, p[0])
  }

  /** d is the length of a shortest path from any parentless node to v. */
  ghost predicate IsDepth<T(!new)>(e: set<(T, T)>, v: T, d: nat) {
    && (exists p :: RootPath(e, p, v) && |p| == d + 1)
    && (forall p :: RootPath(e, p, v) ==> |p| >= d + 1)
  }

  /** x is an ancestor-or-self of both a and b, and every other one is an ancestor of x. */
  ghost predicate LowestCommon<T(!new)>(e: set<(T, T)>, a: T, b: T, x: T) {
    && Reach(e, x, a) && Reach(e, x, b)
    && (forall y :: Reach(e, y, a) && Reach(e, y, b) ==> Reach(e, y, x))
  }

  function Reversed<T>(s: seq<T>): (r: seq<T>)
    ensures |r| == |s| && forall i :: 0 <= i < |s| ==> r[i] == s[|s| - 1 - i]
  {
    seq(|s|, i requires 0 <= i < |s| => s[|s| - 1 - i])
  }

  // ── Reachability ──

  lemma ReachRefl<T(!new)>(e: set<(T, T)>, a: T)
    ensures Reach(e, a, a)
  {
    assert PathFromTo(e, [a], a, a);
  }

  lemma ReachEdge<T(!new)>(e: set<(T, T)>, a: T, b: T)
    requires (a, b) in e
    ensures Reach(e, a, b)
  {
    assert PathFromTo(e, [a, b], a, b);
  }

  lemma JoinPaths<T>(e: set<(T, T)>, p: seq<T>, q: seq<T>)
    requires IsPath(e, p) && IsPath(e, q) && p[|p| - 1] == q[0]
    ensures PathFromTo(e, p + q[1..], p[0], q[|q| - 1])
  {
    var r := p + q[1..];
    forall i | 0 <= i < |r| - 1 ensures (r[i], r[i + 1]) in e {
      if i >= |p| - 1 {
        assert r[i] == q[i - |p| + 1] && r[i + 1] == q[i + 1 - |p| + 1];
      }
    }
  }

  lemma ReachTrans<T(!new)>(e: set<(T, T)>, a: T, b: T, c: T)
    requires Reach(e, a, b) && Reach(e, b, c)
    ensures Reach(e, a, c)
  {
    var p :| PathFromTo(e, p, a, b);
    var q :| PathFromTo(e, q, b, c);
    JoinPaths(e, p, q);
  }

  lemma SubPath<T(!new)>(e: set<(T, T)>, p: seq<T>, i: nat, j: nat)
    requires IsPath(e, p) && i <= j < |p|
    ensures PathFromTo(e, p[i..j + 1], p[i], p[j])
    ensures Reach(e, p[i], p[j])
  {
    var q := p[i..j + 1];
    forall k | 0 <= k < |q| - 1 ensures (q[k], q[k + 1]) in e {
      assert q[k] == p[i + k] && q[k + 1] == p[i + k + 1];
    }
    assert PathFromTo(e, q, p[i], p[j]);
  }

  /** The last edge of a non-trivial reachability. */
  lemma ReachLastEdge<T(!new)>(e: set<(T, T)>, a: T, b: T) returns (u: T)
    requires Reach(e, a, b) && a != b
    ensures Reach(e, a, u) && (u, b) in e
  {
    var p :| PathFromTo(e, p, a, b);
    u := p[|p| - 2];
    SubPath(e, p, 0, |p| - 2);
  }

  lemma ReachMono<T(!new)>(e: set<(T, T)>, f: set<(T, T)>, a: T, b: T)
    requires e <= f && Reach(e, a, b)
    ensures Reach(f, a, b)
  {
    var p :| PathFromTo(e, p, a, b);
    assert PathFromTo(f, p, a, b);
  }

  /** A closed set: if s contains a and is closed under successors, it contains all a reaches. */
  lemma ClosedForward<T(!new)>(e: set<(T, T)>, s: set<T>, p: seq<T>)
    requires IsPath(e, p) && p[0] in s
    requires forall u, v :: (u, v) in e && u in s ==> v in s
    ensures forall i :: 0 <= i < |p| ==> p[i] in s
  {
    if |p| > 1 {
      assert (p[0], p[1]) in e;
      var q := p[1..];
      SubPath(e, p, 1, |p| - 1);
      assert q == p[1..|p| - 1 + 1];
      ClosedForward(e, s, q);
      forall i | 0 <= i < |p| ensures p[i] in s { if i > 0 { assert p[i] == q[i - 1]; } }
    }
  }

  lemma ClosedBackward<T(!new)>(e: set<(T, T)>, s: set<T>, p: seq<T>)
    requires IsPath(e, p) && p[|p| - 1] in s
    requires forall u, v :: (u, v) in e && v in s ==> u in s
    ensures forall i :: 0 <= i < |p| ==> p[i] in s
  {
    if |p| > 1 {
      var q := p[..|p| - 1];
      assert (p[|p| - 2], p[|p| - 2 + 1]) in e;
      assert IsPath(e, q) by { SubPath(e, p, 0, |p| - 2); }
      ClosedBackward(e, s, q);
      forall i | 0 <= i < |p| ensures p[i] in s { if i < |p| - 1 { assert p[i] == q[i]; } }
    }
  }

  // ── Adding one edge ──

  /** A path of the extended relation either avoids the new edge or crosses it. */
  lemma {:induction false} PathThroughNewEdge<T(!new)>(e: set<(T, T)>, a: T, b: T, p: seq<T>)
    requires IsPath(e + {(a, b)}, p)
    ensures Reach(e, p[0], p[|p| - 1]) || (Reach(e, p[0], a) && Reach(e, b, p[|p| - 1]))
  {
    if |p| == 1 {
      ReachRefl(e, p[0]);
    } else {
      var q := p[1..];
      assert IsPath(e + {(a, b)}, q) by { SubPath(e + {(a, b)}, p, 1, |p| - 1); assert q == p[1..|p| - 1 + 1]; }
      PathThroughNewEdge(e, a, b, q);
      assert (p[0], p[0 + 1]) in e + {(a, b)};
      assert q[0] == p[1] && q[|q| - 1] == p[|p| - 1];
      if (p[0], p[1]) in e {
        ReachEdge(e, p[0], p[1]);
        if Reach(e, p[1], p[|p| - 1]) {
          ReachTrans(e, p[0], p[1], p[|p| - 1]);
        } else {
          ReachTrans(e, p[0], p[1], a);
        }
      } else {
        ReachRefl(e, a);
      }
    }
  }

  /** Inserting a → b keeps an acyclic relation acyclic exactly when b did not already reach a. */
  lemma AddEdgeAcyclic<T(!new)>(e: set<(T, T)>, a: T, b: T)
    requires Acyclic(e)
    ensures Acyclic(e + {(a, b)}) <==> !Reach(e, b, a)
  {
    var f := e + {(a, b)};
    if Reach(e, b, a) {
      ReachMono(e, f, b, a);
      assert (a, b) in f;
    } else {
      forall u, v | (u, v) in f ensures !Reach(f, v, u) {
        if Reach(f, v, u) {
          var p :| PathFromTo(f, p, v, u);
          PathThroughNewEdge(e, a, b, p);
          if (u, v) in e {
            ReachEdge(e, u, v);
            if Reach(e, v, a) && Reach(e, b, u) {
              ReachTrans(e, b, u, v);
              ReachTrans(e, b, v, a);
            }
          }
          assert false;
        }
      }
    }
  }

  lemma AcyclicSubset<T(!new)>(e: set<(T, T)>, f: set<(T, T)>)
    requires e <= f && Acyclic(f)
    ensures Acyclic(e)
  {
    forall u, v | (u, v) in e ensures !Reach(e, v, u) {
      if Reach(e, v, u) { ReachMono(e, f, v, u); }
    }
  }

  lemma SubsetSize<T>(s: set<T>, t: set<T>)
    requires s <= t
    ensures |s| <= |t|
  {
    assert t == s + (t - s);
  }

  lemma SomeMember<T>(s: set<T>) returns (x: T)
    requires s != {}
    ensures x in s
  {
    x :| x in s;
  }

  // ── Acyclic relations ──

  lemma AcyclicAntisym<T(!new)>(e: set<(T, T)>, a: T, b: T)
    requires Acyclic(e) && Reach(e, a, b) && Reach(e, b, a)
    ensures a == b
  {
    if a != b {
      var u := ReachLastEdge(e, a, b);
      ReachTrans(e, b, a, u);
    }
  }

  lemma AcyclicPathDistinct<T(!new)>(e: set<(T, T)>, p: seq<T>)
    requires Acyclic(e) && IsPath(e, p)
    ensures Distinct(p)
  {
    forall i, j | 0 <= i < j < |p| ensures p[i] != p[j] {
      assert (p[i], p[i + 1]) in e;
      SubPath(e, p, i + 1, j);
    }
  }

  /** Pigeonhole: pairwise distinct members of a finite set are no more than its size. */
  lemma {:induction false} DistinctBound<T(!new)>(p: seq<T>, s: set<T>)
    requires Distinct(p) && forall i :: 0 <= i < |p| ==> p[i] in s
    ensures |p| <= |s|
  {
    if |p| > 0 {
      DistinctBound(p[1..], s - {p[0]});
    }
  }

  lemma {:induction false} DistinctSize<T(!new)>(p: seq<T>)
    requires Distinct(p)
    ensures |set x | x in p| == |p|
  {
    if p != [] {
      var rest := p[..|p| - 1];
      DistinctSize(rest);
      assert p == rest + [p[|p| - 1]];
      assert (set x | x in p) == (set x | x in rest) + {p[|p| - 1]};
    }
  }

  /** In a finite acyclic relation, every path can be extended upwards to a parentless node. */
  lemma RootPathAbove<T(!new)>(e: set<(T, T)>, nodes: set<T>, p: seq<T>) returns (r: seq<T>)
    requires Acyclic(e) && IsPath(e, p)
    requires forall u, v :: (u, v) in e ==> u in nodes && v in nodes
    requires forall i :: 0 <= i < |p| ==> p[i] in nodes
    ensures RootPath(e, r, p[|p| - 1])
    ensures |r| >= |p| && r[|r| - |p|..] == p
    ensures forall i :: 0 <= i < |r| ==> r[i] in nodes
    decreases |nodes| - |p|
  {
    if HasParent(e, p[0]) {
      var u :| (u, p[0]) in e;
      var q := [u] + p;
      assert IsPath(e, [u, p[0]]);
      JoinPaths(e, [u, p[0]], p);
      assert [u, p[0]] + p[1..] == q;
      AcyclicPathDistinct(e, q);
      DistinctBound(q, nodes);
      r := RootPathAbove(e, nodes, q);
      assert r[|r| - |p|..] == r[|r| - |q|..][1..] == p;
    } else {
      r := p;
    }
  }

  /** In an acyclic relation strict reachability is reachability between different nodes. */
  lemma StrictReachAcyclic<T(!new)>(e: set<(T, T)>, a: T, b: T)
    requires Acyclic(e)
    ensures StrictReach(e, a, b) <==> a != b && Reach(e, a, b)
  {
    if StrictReach(e, a, b) {
      var v :| (a, v) in e && Reach(e, v, b);
      ReachEdge(e, a, v);
      ReachTrans(e, a, v, b);
    }
    if a != b && Reach(e, a, b) {
      var p :| PathFromTo(e, p, a, b);
      assert (p[0], p[0 + 1]) in e;
      SubPath(e, p, 1, |p| - 1);
    }
  }

  /** A relation is acyclic exactly when no node strictly reaches itself. */
  lemma AcyclicNoSelf<T(!new)>(e: set<(T, T)>)
    ensures Acyclic(e) <==> forall x :: !StrictReach(e, x, x)
  {
    if forall x :: !StrictReach(e, x, x) {
      forall u, v | (u, v) in e ensures !Reach(e, v, u) {
        assert !StrictReach(e, u, u);
      }
    }
  }

  lemma LowestCommonUnique<T(!new)>(e: set<(T, T)>, a: T, b: T, x: T, y: T)
    requires Acyclic(e) && LowestCommon(e, a, b, x) && LowestCommon(e, a, b, y)
    ensures x == y
  {
    AcyclicAntisym(e, x, y);
  }

  /** Shortest distances are unique. */
  lemma DepthUnique<T(!new)>(e: set<(T, T)>, v: T, d1: nat, d2: nat)
    requires IsDepth(e, v, d1) && IsDepth(e, v, d2)
    ensures d1 == d2
  {
    var p :| RootPath(e, p, v) && |p| == d1 + 1;
    var q :| RootPath(e, q, v) && |q| == d2 + 1;
  }

  // ── Forests ──

  /** In a forest any path into b is a suffix of the path from b's root. */
  lemma {:induction false} ForestSuffix<T(!new)>(e: set<(T, T)>, r: seq<T>, q: seq<T>)
    requires Forest(e) && IsPath(e, r) && !HasParent(e, r[0])
    requires IsPath(e, q) && q[|q| - 1] == r[|r| - 1]
    ensures |q| <= |r| && q == r[|r| - |q|..]
    decreases |q|
  {
    if |q| > 1 {
      var b := q[|q| - 1];
      assert (q[|q| - 2], q[|q| - 2 + 1]) in e;
      assert HasParent(e, b);
      if |r| > 1 {
        assert (r[|r| - 2], r[|r| - 2 + 1]) in e;
        var q', r' := q[..|q| - 1], r[..|r| - 1];
        SubPath(e, q, 0, |q| - 2);
        SubPath(e, r, 0, |r| - 2);
        ForestSuffix(e, r', q');
        assert q == q' + [b] == r'[|r'| - |q'|..] + [b] == r[|r| - |q|..];
      }
    }
  }

  /** The members of the root path of b are exactly b's ancestors-or-self. */
  lemma ForestAncestors<T(!new)>(e: set<(T, T)>, r: seq<T>, b: T, x: T)
    requires Forest(e) && RootPath(e, r, b)
    ensures Reach(e, x, b) <==> x in r
  {
    if x in r {
      var i :| 0 <= i < |r| && r[i] == x;
      SubPath(e, r, i, |r| - 1);
    }
    if Reach(e, x, b) {
      var q :| PathFromTo(e, q, x, b);
      ForestSuffix(e, r, q);
      assert q[0] == r[|r| - |q|];
    }
  }

  lemma ForestRootPathUnique<T(!new)>(e: set<(T, T)>, r: seq<T>, q: seq<T>, b: T)
    requires Forest(e) && RootPath(e, r, b) && RootPath(e, q, b)
    ensures r == q
  {
    ForestSuffix(e, r, q);
    ForestSuffix(e, q, r);
  }

  /** In a forest the depth of a node is the length of its only root path. */
  lemma ForestDepth<T(!new)>(e: set<(T, T)>, r: seq<T>, b: T)
    requires Forest(e) && RootPath(e, r, b)
    ensures IsDepth(e, b, |r| - 1)
  {
    forall q | RootPath(e, q, b) ensures |q| >= |r| {
      ForestRootPathUnique(e, r, q, b);
    }
  }

  /** In a forest the root path of an ancestor is a prefix. */
  lemma ForestPrefix<T(!new)>(e: set<(T, T)>, r: seq<T>, i: nat)
    requires Forest(e) && IsPath(e, r) && !HasParent(e, r[0]) && i < |r|
    ensures RootPath(e, r[..i + 1], r[i])
    ensures IsDepth(e, r[i], i)
  {
    SubPath(e, r, 0, i);
    ForestDepth(e, r[..i + 1], r[i]);
  }

  /** In a forest, the last node on b's root path that also reaches a is the lowest common one. */
  lemma DeepestSharedIsLowest<T(!new)>(e: set<(T, T)>, p: seq<T>, a: T, b: T, m: nat)
    requires Forest(e) && RootPath(e, p, b) && m < |p| && Reach(e, p[m], a)
    requires forall i :: m < i < |p| ==> !Reach(e, p[i], a)
    ensures LowestCommon(e, a, b, p[m])
  {
    SubPath(e, p, m, |p| - 1);
    forall y | Reach(e, y, a) && Reach(e, y, b) ensures Reach(e, y, p[m]) {
      ForestAncestors(e, p, b, y);
      var i :| 0 <= i < |p| && p[i] == y;
      SubPath(e, p, i, m);
    }
  }

  /** The same, for the ancestors listed from the closest up. */
  lemma FirstSharedIsLowest<T(!new)>(e: set<(T, T)>, a: T, b: T, up: seq<T>, k: nat)
    requires Forest(e) && RootPath(e, Reversed(up) + [b], b) && k < |up|
    requires !Reach(e, b, a) && Reach(e, up[k], a)
    requires forall j :: 0 <= j < k ==> !Reach(e, up[j], a)
    ensures LowestCommon(e, a, b, up[k])
  {
    var p := Reversed(up) + [b];
    forall i | |up| - 1 - k < i < |p| ensures !Reach(e, p[i], a) {
      ChainAt(up, b, i);
      if i < |up| {
        var j := |up| - 1 - i;
        assert !Reach(e, up[j], a);
      }
    }
    ChainAt(up, b, |up| - 1 - k);
    DeepestSharedIsLowest(e, p, a, b, |up| - 1 - k);
  }

  lemma ChainAt<T>(up: seq<T>, b: T, i: nat)
    requires i <= |up|
    ensures (Reversed(up) + [b])[i] == if i == |up| then b else up[|up| - 1 - i]
  {
  }

  /** In a forest, a shared ancestor that no other shared ancestor exceeds in depth is the lowest. */
  lemma DeepestByDepthIsLowest<T(!new)>(e: set<(T, T)>, p: seq<T>, a: T, b: T, x: T, dx: nat)
    requires Forest(e) && RootPath(e, p, b) && Reach(e, x, a) && Reach(e, x, b) && IsDepth(e, x, dx)
    requires forall y: T, d: nat :: Reach(e, y, a) && Reach(e, y, b) && IsDepth(e, y, d) ==> d <= dx
    ensures LowestCommon(e, a, b, x)
  {
    ForestAncestors(e, p, b, x);
    var m :| 0 <= m < |p| && p[m] == x;
    ForestPrefix(e, p, m);
    DepthUnique(e, x, m, dx);
    forall i | m < i < |p| ensures !Reach(e, p[i], a) {
      SubPath(e, p, i, |p| - 1);
      ForestPrefix(e, p, i);
    }
    DeepestSharedIsLowest(e, p, a, b, m);
  }

  /** In a forest two different ancestors of one node never have the same depth. */
  lemma AncestorDepthsDiffer<T(!new)>(e: set<(T, T)>, p: seq<T>, b: T, x: T, y: T, dx: nat, dy: nat)
    requires Forest(e) && RootPath(e, p, b) && Reach(e, x, b) && Reach(e, y, b)
    requires IsDepth(e, x, dx) && IsDepth(e, y, dy)
    ensures dx == dy ==> x == y
    ensures Reach(e, x, y) <==> dx <= dy
  {
    ForestAncestors(e, p, b, x);
    ForestAncestors(e, p, b, y);
    var i :| 0 <= i < |p| && p[i] == x;
    var j :| 0 <= j < |p| && p[j] == y;
    ForestPrefix(e, p, i);
    ForestPrefix(e, p, j);
    DepthUnique(e, x, i, dx);
    DepthUnique(e, y, j, dy);
    if i <= j { SubPath(e, p, i, j); }
    if Reach(e, x, y) { ForestAncestors(e, p[..j + 1], y, x); ForestIndex(e, p, i, j); }
  }

  lemma ForestIndex<T(!new)>(e: set<(T, T)>, p: seq<T>, i: nat, j: nat)
    requires Forest(e) && IsPath(e, p) && !HasParent(e, p[0]) && i < |p| && j < |p|
    requires p[i] in p[..j + 1]
    ensures i <= j
  {
    var k :| 0 <= k <= j && p[k] == p[i];
    ForestPrefix(e, p, i);
    ForestPrefix(e, p, k);
    DepthUnique(e, p[i], i, k);
  }

  /** In a forest every path between two nodes has the same length: the difference of depths. */
  lemma ForestPathLength<T(!new)>(e: set<(T, T)>, x: T, a: T, q: seq<T>, dx: nat, da: nat)
    requires Forest(e) && PathFromTo(e, q, x, a) && IsDepth(e, x, dx) && IsDepth(e, a, da)
    ensures dx <= da && |q| == da - dx + 1
  {
    var r :| RootPath(e, r, x) && |r| == dx + 1;
    JoinPaths(e, r, q);
    var p := r + q[1..];
    assert RootPath(e, p, a);
    ForestDepth(e, p, a);
    DepthUnique(e, a, |p| - 1, da);
  }

  /** A non-empty set in which every member has a parent inside the set contains a cycle. */
  lemma NoSourceIsCyclic<T(!new)>(e: set<(T, T)>, s: set<T>, x: T)
    requires x in s && forall v :: v in s ==> HasParentWithin(e, s, v)
    ensures !Acyclic(e)
  {
    if Acyclic(e) {
      var v := SourceWithin(e, s, x);
      ParentWithin(e, s, v);
    }
  }

  /** In an acyclic relation every non-empty finite set has a member without a parent in it. */
  lemma SourceWithin<T(!new)>(e: set<(T, T)>, s: set<T>, x: T) returns (v: T)
    requires Acyclic(e) && x in s
    ensures v in s && !HasParent(Within(e, s), v)
  {
    AcyclicSubset(Within(e, s), e);
    assert IsPath(Within(e, s), [x]);
    var r := RootPathAbove(Within(e, s), s, [x]);
    v := r[0];
  }

  ghost predicate HasParentWithin<T(!new)>(e: set<(T, T)>, s: set<T>, v: T) {
    exists u :: u in s && (u, v) in e
  }

  ghost function Within<T(!new)>(e: set<(T, T)>, s: set<T>): (inner: set<(T, T)>)
    ensures inner <= e && forall u, v :: (u, v) in inner <==> (u, v) in e && u in s && v in s
  {
    set p | p in e && p.0 in s && p.1 in s
  }

  lemma ParentWithin<T(!new)>(e: set<(T, T)>, s: set<T>, v: T)
    requires v in s && HasParentWithin(e, s, v)
    ensures HasParent(Within(e, s), v)
  {
    var u :| u in s && (u, v) in e;
    assert (u, v) in Within(e, s);
  }

  // ── Topological orders ──

  /** Every node once, and no edge from a node to itself or to an earlier one. */
  ghost predicate IsTopological<T(!new)>(e: set<(T, T)>, nodes: set<T>, order: seq<T>) {
    && Distinct(order)
    && (forall x :: x in order <==> x in nodes)
    && (forall i, j :: 0 <= i <= j < |order| ==> (order[j], order[i]) !in e)
  }

  /** No member of the sequence reaches an earlier one. */
  ghost predicate NoneReachesBack<T(!new)>(e: set<(T, T)>, order: seq<T>) {
    forall i, j :: 0 <= i < j < |order| ==> !Reach(e, order[j], order[i])
  }

  /** In a topological order nothing reaches an earlier node. */
  lemma TopologicalNoneBack<T(!new)>(e: set<(T, T)>, nodes: set<T>, order: seq<T>)
    requires IsTopological(e, nodes, order)
    requires forall u, v :: (u, v) in e ==> u in nodes && v in nodes
    ensures NoneReachesBack(e, order)
  {
    forall i, j | 0 <= i < j < |order| ensures !Reach(e, order[j], order[i]) {
      TopologicalReach(e, nodes, order, i, j);
    }
  }

  lemma TopologicalReach<T(!new)>(e: set<(T, T)>, nodes: set<T>, order: seq<T>, i: nat, j: nat)
    requires IsTopological(e, nodes, order) && i < j < |order|
    requires forall u, v :: (u, v) in e ==> u in nodes && v in nodes
    ensures !Reach(e, order[j], order[i])
  {
    if Reach(e, order[j], order[i]) {
      var p :| PathFromTo(e, p, order[j], order[i]);
      var later := set k | j <= k < |order| :: order[k];
      forall u, v | (u, v) in e && u in later ensures v in later {
        var k :| j <= k < |order| && order[k] == u;
        var m :| 0 <= m < |order| && order[m] == v;
      }
      ClosedForward(e, later, p);
    }
  }
}
