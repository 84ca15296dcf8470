/**
 * What `remove` of the linear quadtree promises, proved on the functions of
 * `LinearQuadtreeSpec`: the sibling loops find the lone leaf sibling, the intended
 * compaction keeps the state's invariant and every surviving handle's value, and
 * the compaction as written breaks the invariant on two small trees.
 */
module LinearQuadtreeRemoval {
  import opened Wrappers
  import opened Quadrants
  import opened LinearQuadtreeSpec
  import opened LinearQuadtreeProofs

  // ----- the sibling loops -----

  /** The quadrants among the first `n` whose sibling of `k` is a leaf. */
  ghost function LeafSiblings<S>(sm: map<Key, Entry<S>>, k: Key, n: nat): set<Quadrant>
    requires 1 <= |k| && n <= 4
  {
    set q | q in QUADRANTS[..n] && q != k[|k| - 1] && IsLeaf(sm, Sibling(k, q))
  }

  /** Some sibling of `k` among the first `n` quadrants is a branch. */
  ghost predicate BranchSibling<S>(sm: map<Key, Entry<S>>, k: Key, n: nat)
    requires 1 <= |k| && n <= 4
  {
    exists q :: q in QUADRANTS[..n] && q != k[|k| - 1] && IsBranch(sm, Sibling(k, q))
  }

  /** The sibling keys of `k` the loops visit among the first `n` quadrants. */
  ghost function SiblingKeys(k: Key, n: nat): set<Key>
    requires 1 <= |k| && n <= 4
  {
    set q | q in QUADRANTS[..n] && q != k[|k| - 1] :: Sibling(k, q)
  }

  /** The census loop counts the leaf siblings and notices a branch sibling. */
  lemma {:induction false} CensusCounts<S>(sm: map<Key, Entry<S>>, k: Key, n: nat)
    requires 1 <= |k| && n <= 4
    ensures SiblingCensus(sm, k, n).leaves == |LeafSiblings(sm, k, n)|
    ensures SiblingCensus(sm, k, n).branch <==> BranchSibling(sm, k, n)
    decreases n
  {
    if n == 0 {
      assert LeafSiblings(sm, k, 0) == {};
    } else {
      CensusCounts(sm, k, n - 1);
      LeafSiblingsStep(sm, k, n);
      BranchSiblingStep(sm, k, n);
    }
  }

  /** One more quadrant finds a branch sibling exactly when its own sibling is one. */
  lemma BranchSiblingStep<S>(sm: map<Key, Entry<S>>, k: Key, n: nat)
    requires 1 <= |k| && 1 <= n <= 4
    ensures var q := QUADRANTS[n - 1];
      BranchSibling(sm, k, n) <==> BranchSibling(sm, k, n - 1) || (q != k[|k| - 1] && IsBranch(sm, Sibling(k, q)))
  {
    assert QUADRANTS[..n] == QUADRANTS[..n - 1] + [QUADRANTS[n - 1]];
  }

  /** The detach loop takes every visited sibling out of the map. */
  lemma {:induction false} DetachMap<S>(sm: map<Key, Entry<S>>, k: Key, n: nat)
    requires 1 <= |k| && n <= 4
    ensures Detach(sm, k, n).0 == sm - SiblingKeys(k, n)
    decreases n
  {
    if n == 0 {
      assert SiblingKeys(k, 0) == {};
    } else {
      DetachMap(sm, k, n - 1);
      SiblingKeysStep(k, n);
    }
  }

  /** One more quadrant adds its sibling key, unless it is the quadrant of `k` itself. */
  lemma SiblingKeysStep(k: Key, n: nat)
    requires 1 <= |k| && 1 <= n <= 4
    ensures var q := QUADRANTS[n - 1];
      && Sibling(k, q) !in SiblingKeys(k, n - 1)
      && SiblingKeys(k, n) == SiblingKeys(k, n - 1) + (if q == k[|k| - 1] then {} else {Sibling(k, q)})
  {
    var q := QUADRANTS[n - 1];
    QuadrantsEnumeration();
    assert QUADRANTS[..n] == QUADRANTS[..n - 1] + [q];
    assert q !in QUADRANTS[..n - 1];
  }

  /** One more quadrant adds itself to the leaf siblings exactly when its sibling is a leaf. */
  lemma LeafSiblingsStep<S>(sm: map<Key, Entry<S>>, k: Key, n: nat)
    requires 1 <= |k| && 1 <= n <= 4
    ensures var q := QUADRANTS[n - 1];
      && q !in LeafSiblings(sm, k, n - 1)
      && LeafSiblings(sm, k, n) == LeafSiblings(sm, k, n - 1)
        + (if q != k[|k| - 1] && IsLeaf(sm, Sibling(k, q)) then {q} else {})
  {
    var q := QUADRANTS[n - 1];
    QuadrantsEnumeration();
    assert QUADRANTS[..n] == QUADRANTS[..n - 1] + [q];
    assert q !in QUADRANTS[..n - 1];
  }

  /**
   * The detach loop reports a leaf sibling with its value exactly when there is one.
   */
  lemma {:induction false} DetachFound<S>(sm: map<Key, Entry<S>>, k: Key, n: nat)
    requires 1 <= |k| && n <= 4
    ensures Detach(sm, k, n).1.Some? <==> LeafSiblings(sm, k, n) != {}
    ensures Detach(sm, k, n).1.Some? ==>
      var (x, v) := Detach(sm, k, n).1.value;
      |x| == |k| && x == Sibling(k, x[|k| - 1]) && x[|k| - 1] in LeafSiblings(sm, k, n) && sm[x] == Leaf(v)
    decreases n
  {
    if n == 0 {
      assert LeafSiblings(sm, k, 0) == {};
    } else {
      DetachFound(sm, k, n - 1);
      DetachMap(sm, k, n - 1);
      SiblingKeysStep(k, n);
      LeafSiblingsStep(sm, k, n);
    }
  }

  // ----- keys around a removed leaf -----

  /** Removing a leaf keeps every stored prefix a stored branch. */
  lemma DropLeafPrefixClosed<S>(sm: map<Key, Entry<S>>, k: Key)
    requires PrefixClosed(sm) && IsLeaf(sm, k)
    ensures PrefixClosed(sm - {k})
  {
    forall x, i | x in sm - {k} && 1 <= i < |x|
      ensures IsBranch(sm - {k}, x[..i])
    {
      assert IsBranch(sm, x[..i]);
    }
  }

  /**
   * A stored key that shares `k`'s parent but is neither `k` nor below it passes
   * through a stored sibling of `k`, a branch unless it is that sibling.
   */
  lemma ThroughSibling<S>(sm: map<Key, Entry<S>>, k: Key, x: Key)
    requires PrefixClosed(sm) && 1 <= |k| && x in sm
    ensures |k| <= |x| && x[..|k| - 1] == k[..|k| - 1] && x[..|k|] != k ==>
      && x[|k| - 1] != k[|k| - 1] && x[..|k|] == Sibling(k, x[|k| - 1]) && x[..|k|] in sm
      && (|x| > |k| ==> IsBranch(sm, x[..|k|]))
  {
    if |k| <= |x| && x[..|k| - 1] == k[..|k| - 1] && x[..|k|] != k {
      assert x[..|k|] == x[..|k| - 1] + [x[|k| - 1]];
      assert k == k[..|k| - 1] + [k[|k| - 1]];
      if |x| == |k| {
        assert x[..|k|] == x;
      } else {
        assert IsBranch(sm, x[..|k|]);
      }
    }
  }

  /** Below a branch parent, a leaf `k` has another leaf or a branch among its siblings. */
  lemma SiblingExists<S>(sm: map<Key, Entry<S>>, k: Key)
    requires PrefixClosed(sm) && Dense(sm) && IsLeaf(sm, k) && 2 <= |k|
    ensures BranchSibling(sm - {k}, k, 4) || LeafSiblings(sm - {k}, k, 4) != {}
  {
    var p := k[..|k| - 1];
    assert IsBranch(sm, p);
    var under := LeavesUnder(sm, p);
    assert k in under;
    assert under == (under - {k}) + {k};
    var l :| l in under - {k};
    NothingBelowLeaf(sm, k);
    if |l| == |k| {
      assert l[..|k|] == l;
    }
    assert l[..|k| - 1] == p;
    ThroughSibling(sm, k, l);
    var q := l[|k| - 1];
    QuadrantsEnumeration();
    assert QUADRANTS[..4] == QUADRANTS;
    assert q in QUADRANTS[..4];
    if sm[Sibling(k, q)].Branch? {
      assert IsBranch(sm - {k}, Sibling(k, q));
    } else {
      assert q in LeafSiblings(sm - {k}, k, 4);
    }
  }

  // ----- the compaction loop -----

  /** Nothing is stored strictly below `p`. */
  ghost predicate NothingBelow<S>(sm: map<Key, Entry<S>>, p: Key) {
    forall x :: x in sm && |p| < |x| ==> x[..|p|] != p
  }

  /** Every branch off the path from the root to `p` separates two leaves. */
  ghost predicate DenseOffPath<S>(sm: map<Key, Entry<S>>, p: Key) {
    forall b :: b in sm && sm[b].Branch? && !(|b| <= |p| && p[..|b|] == b) ==> |LeavesUnder(sm, b)| >= 2
  }

  /**
   * Where the intended compaction loop stands: `p` is a branch with nothing stored
   * below it, and every branch off the path from the root to `p` separates two leaves.
   */
  ghost predicate Emptied<S>(sm: map<Key, Entry<S>>, p: Key) {
    Shaped(sm) && PrefixClosed(sm) && 1 <= |p| && IsBranch(sm, p) && NothingBelow(sm, p) && DenseOffPath(sm, p)
  }

  /** When the emptied branch's parent holds no leaf once the branch is gone, nothing is below the parent. */
  lemma ClimbStepBelow<S>(sm: map<Key, Entry<S>>, p: Key)
    requires 2 <= |p| && IsBranch(sm, p) && NothingBelow(sm, p) && DenseOffPath(sm, p)
    requires LeavesAtOrUnder(sm - {p}, p[..|p| - 1]) == {}
    ensures NothingBelow(sm - {p}, p[..|p| - 1])
  {
    var sm1 := sm - {p};
    var pp := p[..|p| - 1];
    assert p[..|p|] == p;
    forall x | x in sm1 && |pp| < |x|
      ensures x[..|pp|] != pp
    {
      if sm1[x].Leaf? {
        assert x !in LeavesAtOrUnder(sm1, pp);
      } else {
        assert !(|x| <= |p| && p[..|x|] == x);
        var under := LeavesUnder(sm, x);
        assert |under| >= 2;
        var l :| l in under;
        assert |x| < |l| && l[..|x|] == x;
        assert l !in LeavesAtOrUnder(sm1, pp);
        assert l[..|pp|] == l[..|x|][..|pp|];
      }
    }
  }

  /** Removing the emptied branch keeps every branch off its parent's path dense. */
  lemma ClimbStepDense<S>(sm: map<Key, Entry<S>>, p: Key)
    requires 2 <= |p| && IsBranch(sm, p) && DenseOffPath(sm, p)
    ensures DenseOffPath(sm - {p}, p[..|p| - 1])
  {
    var sm1 := sm - {p};
    var pp := p[..|p| - 1];
    forall b | b in sm1 && sm1[b].Branch? && !(|b| <= |pp| && pp[..|b|] == b)
      ensures |LeavesUnder(sm1, b)| >= 2
    {
      if |b| < |p| {
        assert pp[..|b|] == p[..|b|];
      }
      assert LeavesUnder(sm1, b) == LeavesUnder(sm, b);
    }
  }

  /** When the emptied branch's parent holds no leaf, the parent is emptied once the branch is gone. */
  lemma ClimbStep<S>(sm: map<Key, Entry<S>>, p: Key)
    requires Emptied(sm, p) && 2 <= |p| && NumChild(sm - {p}, p[..|p| - 1]) == 0
    ensures Emptied(sm - {p}, p[..|p| - 1])
  {
    DropBranchPrefixClosed(sm, p);
    NumChildCountsLeaves(sm - {p}, p[..|p| - 1]);
    ClimbStepBelow(sm, p);
    ClimbStepDense(sm, p);
  }

  /** Removing a branch with nothing below it keeps every stored prefix a stored branch. */
  lemma DropBranchPrefixClosed<S>(sm: map<Key, Entry<S>>, p: Key)
    requires PrefixClosed(sm) && 1 <= |p| && NothingBelow(sm, p)
    ensures PrefixClosed(sm - {p})
  {
    forall x, i | x in sm - {p} && 1 <= i < |x|
      ensures IsBranch(sm - {p}, x[..i])
    {
      assert IsBranch(sm, x[..i]);
      if i == |p| {
        assert x[..|p|] != p;
      }
    }
  }

  /** Turning the emptied branch into a leaf keeps every stored prefix a stored branch. */
  lemma PlacePrefixClosed<S>(sm: map<Key, Entry<S>>, p: Key, m: S)
    requires PrefixClosed(sm) && IsBranch(sm, p) && NothingBelow(sm, p)
    ensures PrefixClosed((sm - {p})[p := Leaf(m)])
  {
    var sm' := (sm - {p})[p := Leaf(m)];
    forall x, i | x in sm' && 1 <= i < |x|
      ensures IsBranch(sm', x[..i])
    {
      if x == p {
        assert IsBranch(sm, p[..i]);
      } else {
        assert IsBranch(sm, x[..i]);
        assert |p| < |x| ==> x[..|p|] != p;
      }
    }
  }

  /** A branch above the emptied branch `p` has `p` and a leaf below `p`'s parent under it once `p` is a leaf. */
  lemma PlaceDenseAbove<S>(sm: map<Key, Entry<S>>, p: Key, m: S, b: Key)
    requires 2 <= |p| && IsBranch(sm, p) && IsBranch(sm, p[..|p| - 1])
    requires LeavesAtOrUnder(sm - {p}, p[..|p| - 1]) != {}
    requires |b| < |p| && p[..|b|] == b
    ensures |LeavesUnder((sm - {p})[p := Leaf(m)], b)| >= 2
  {
    var sm1 := sm - {p};
    var sm' := sm1[p := Leaf(m)];
    var pp := p[..|p| - 1];
    var l :| l in LeavesAtOrUnder(sm1, pp);
    assert IsBranch(sm1, pp) && l[..|l|] == l;
    assert |pp| < |l|;
    assert l[..|b|] == l[..|pp|][..|b|];
    assert pp[..|b|] == b;
    assert l in LeavesUnder(sm', b);
    assert p in LeavesUnder(sm', b);
    assert {l, p} <= LeavesUnder(sm', b);
    SubsetCard({l, p}, LeavesUnder(sm', b));
  }

  /**
   * Turning the emptied branch into a leaf keeps every branch dense, when it is at
   * the first level or its parent still holds a leaf.
   */
  lemma PlaceDense<S>(sm: map<Key, Entry<S>>, p: Key, m: S)
    requires Emptied(sm, p) && (|p| == 1 || NumChild(sm - {p}, p[..|p| - 1]) > 0)
    ensures Dense((sm - {p})[p := Leaf(m)])
  {
    var sm1 := sm - {p};
    var sm' := sm1[p := Leaf(m)];
    assert p[..|p|] == p;
    if 2 <= |p| {
      DropBranchPrefixClosed(sm, p);
      NumChildCountsLeaves(sm1, p[..|p| - 1]);
    }
    forall b | b in sm' && sm'[b].Branch?
      ensures |LeavesUnder(sm', b)| >= 2
    {
      if |b| <= |p| && p[..|b|] == b {
        PlaceDenseAbove(sm, p, m, b);
      } else {
        SubsetCard(LeavesUnder(sm, b), LeavesUnder(sm', b));
      }
    }
  }

  /**
   * The intended compaction loop, from an emptied branch: the result is a valid
   * spatial map whose leaves are the old ones plus the moved value, stored at a
   * former branch on the path from the root to `p`.
   */
  lemma {:induction false} ClimbKeeps<S>(sm: map<Key, Entry<S>>, p: Key, m: S)
    requires Emptied(sm, p)
    ensures |p| <= RESOLUTION
    ensures var (sm', target) := Climb(sm, p, m);
      && Shaped(sm') && PrefixClosed(sm') && Dense(sm')
      && 1 <= |target| <= |p| && p[..|target|] == target && IsBranch(sm, target)
      && target in sm' && sm'[target] == Leaf(m)
      && (forall x :: x != target ==> (IsLeaf(sm', x) <==> IsLeaf(sm, x)))
      && (forall x :: x != target && IsLeaf(sm, x) ==> sm'[x] == sm[x])
    decreases |p|
  {
    assert p[..|p|] == p;
    var sm1 := sm - {p};
    if |p| == 1 {
      PlacePrefixClosed(sm, p, m);
      PlaceDense(sm, p, m);
    } else {
      var pp := p[..|p| - 1];
      if NumChild(sm1, pp) == 0 {
        ClimbStep(sm, p);
        ClimbKeeps(sm1, pp, m);
        var target := Climb(sm1, pp, m).1;
        assert p[..|target|] == pp[..|target|];
      } else {
        PlacePrefixClosed(sm, p, m);
        PlaceDense(sm, p, m);
      }
    }
  }

  // ----- remove without relocation -----

  /** Dropping keys that are not below `b` leaves the leaves below `b` as they were. */
  lemma LeavesUnderDrop<S>(sm: map<Key, Entry<S>>, d: set<Key>, b: Key)
    requires forall x :: x in d ==> !(|b| < |x| && x[..|b|] == b)
    ensures LeavesUnder(sm - d, b) == LeavesUnder(sm, b)
  {
  }

  /** A branch sibling's leaves lie under every branch above the removed leaf. */
  lemma BranchSiblingUnder<S>(sm: map<Key, Entry<S>>, k: Key, b: Key)
    requires Dense(sm) && IsLeaf(sm, k) && |b| < |k| && k[..|b|] == b
    requires BranchSibling(sm - {k}, k, 4)
    ensures |LeavesUnder(sm - {k}, b)| >= 2
  {
    var q :| q in QUADRANTS[..4] && q != k[|k| - 1] && IsBranch(sm - {k}, Sibling(k, q));
    var y := Sibling(k, q);
    assert y[..|b|] == y[..|k| - 1][..|b|] == k[..|k| - 1][..|b|] == b;
    forall l | l in LeavesUnder(sm, y)
      ensures l in LeavesUnder(sm - {k}, b)
    {
      assert l[..|b|] == l[..|y|][..|b|];
    }
    SubsetCard(LeavesUnder(sm, y), LeavesUnder(sm - {k}, b));
  }

  /** Two leaf siblings lie under every branch above the removed leaf. */
  lemma LeafSiblingsUnder<S>(sm: map<Key, Entry<S>>, k: Key, b: Key)
    requires IsLeaf(sm, k) && |b| < |k| && k[..|b|] == b
    requires |LeafSiblings(sm - {k}, k, 4)| >= 2
    ensures |LeavesUnder(sm - {k}, b)| >= 2
  {
    var qs := LeafSiblings(sm - {k}, k, 4);
    var q1 :| q1 in qs;
    assert qs == (qs - {q1}) + {q1};
    var q2 :| q2 in qs - {q1};
    var y1 := Sibling(k, q1);
    var y2 := Sibling(k, q2);
    assert y1[..|b|] == y1[..|k| - 1][..|b|] == k[..|k| - 1][..|b|] == b;
    assert y2[..|b|] == y2[..|k| - 1][..|b|] == k[..|k| - 1][..|b|] == b;
    assert y1[|k| - 1] != y2[|k| - 1];
    assert {y1, y2} <= LeavesUnder(sm - {k}, b);
    SubsetCard({y1, y2}, LeavesUnder(sm - {k}, b));
  }

  /**
   * When the removed leaf keeps its level-mates (a branch sibling, two or more leaf
   * siblings, or none because it is at the first level), every branch stays dense.
   */
  lemma NoRelocationDense<S>(sm: map<Key, Entry<S>>, k: Key)
    requires Shaped(sm) && PrefixClosed(sm) && Dense(sm) && IsLeaf(sm, k)
    requires var c := SiblingCensus(sm - {k}, k, 4); c.branch || c.leaves != 1 || |k| <= 1
    ensures Dense(sm - {k})
  {
    NoRelocationSiblings(sm, k);
    forall b | b in sm - {k} && (sm - {k})[b].Branch?
      ensures |LeavesUnder(sm - {k}, b)| >= 2
    {
      NoRelocationDenseAt(sm, k, b);
    }
  }

  /** The census outcomes that skip relocation, in terms of the siblings themselves. */
  lemma NoRelocationSiblings<S>(sm: map<Key, Entry<S>>, k: Key)
    requires PrefixClosed(sm) && Dense(sm) && IsLeaf(sm, k) && 1 <= |k|
    requires var c := SiblingCensus(sm - {k}, k, 4); c.branch || c.leaves != 1 || |k| <= 1
    ensures BranchSibling(sm - {k}, k, 4) || |LeafSiblings(sm - {k}, k, 4)| >= 2 || |k| <= 1
  {
    CensusCounts(sm - {k}, k, 4);
    if 2 <= |k| {
      SiblingExists(sm, k);
    }
  }

  /** One branch of `NoRelocationDense`. */
  lemma NoRelocationDenseAt<S>(sm: map<Key, Entry<S>>, k: Key, b: Key)
    requires Dense(sm) && IsLeaf(sm, k) && 1 <= |k| && 1 <= |b| && b in sm && sm[b].Branch?
    requires BranchSibling(sm - {k}, k, 4) || |LeafSiblings(sm - {k}, k, 4)| >= 2 || |k| <= 1
    ensures |LeavesUnder(sm - {k}, b)| >= 2
  {
    if |b| < |k| && k[..|b|] == b {
      if BranchSibling(sm - {k}, k, 4) {
        BranchSiblingUnder(sm, k, b);
      } else {
        LeafSiblingsUnder(sm, k, b);
      }
    } else {
      LeavesUnderDrop(sm, {k}, b);
    }
  }

  /** Dropping a live handle and its leaf keeps handles and leaves in step. */
  lemma DropConsistent<S>(t: Tree<S>, h: Handle)
    requires Consistent(t) && h in t.handles
    ensures Consistent(Tree(t.spatial - {t.handles[h]}, t.handles - {h}, t.next))
  {
    var sm0 := t.spatial - {t.handles[h]};
    var handles0 := t.handles - {h};
    forall x | IsLeaf(sm0, x)
      ensures x in handles0.Values
    {
      assert x in t.handles.Values;
      var g :| g in t.handles && t.handles[g] == x;
      assert handles0[g] == x;
    }
  }

  /** `remove` of a live handle whose leaf needs no relocation: the leaf and the handle go. */
  lemma RemoveNoRelocation<S>(t: Tree<S>, h: Handle)
    requires Inv(t) && h in t.handles
    requires var k := t.handles[h]; var c := SiblingCensus(t.spatial - {k}, k, 4);
      c.branch || c.leaves != 1 || |k| <= 1
    ensures var k := t.handles[h];
      && IsLeaf(t.spatial, k)
      && Remove(t, h) == (Tree(t.spatial - {k}, t.handles - {h}, t.next), Returned(Some(t.spatial[k].value)))
      && Inv(Tree(t.spatial - {k}, t.handles - {h}, t.next))
  {
    var k := t.handles[h];
    DropLeafPrefixClosed(t.spatial, k);
    NoRelocationDense(t.spatial, k);
    DropConsistent(t, h);
  }

  // ----- remove with relocation -----

  /**
   * Once the removed leaf and its lone leaf sibling `l` are gone, their parent is
   * an emptied branch from which the compaction loop starts.
   */
  lemma EmptiedAfterDetach<S>(sm: map<Key, Entry<S>>, k: Key, l: Key)
    requires Shaped(sm) && PrefixClosed(sm) && Dense(sm) && IsLeaf(sm, k) && IsLeaf(sm, l) && 2 <= |k| == |l|
    requires l == Sibling(k, l[|k| - 1]) && l[|k| - 1] != k[|k| - 1]
    requires forall q :: q != k[|k| - 1] && q != l[|k| - 1] ==> Sibling(k, q) !in sm
    ensures Emptied(sm - {k, l}, k[..|k| - 1])
  {
    DropLeafPrefixClosed(sm, k);
    DropLeafPrefixClosed(sm - {k}, l);
    assert sm - {k} - {l} == sm - {k, l};
    assert IsBranch(sm, k[..|k| - 1]);
    DetachedBelow(sm, k, l);
    DetachedDense(sm, k, l);
  }

  /** Nothing is left below the parent once the removed leaf and its lone leaf sibling are gone. */
  lemma DetachedBelow<S>(sm: map<Key, Entry<S>>, k: Key, l: Key)
    requires PrefixClosed(sm) && IsLeaf(sm, k) && IsLeaf(sm, l) && 2 <= |k| == |l|
    requires l == Sibling(k, l[|k| - 1]) && l[|k| - 1] != k[|k| - 1]
    requires forall q :: q != k[|k| - 1] && q != l[|k| - 1] ==> Sibling(k, q) !in sm
    ensures NothingBelow(sm - {k, l}, k[..|k| - 1])
  {
    var p := k[..|k| - 1];
    NothingBelowLeaf(sm, k);
    NothingBelowLeaf(sm, l);
    forall x | x in sm - {k, l} && |p| < |x|
      ensures x[..|p|] != p
    {
      assert |x| == |k| ==> x[..|k|] == x;
      ThroughSibling(sm, k, x);
      assert x[..|k| - 1] == x[..|p|];
    }
  }

  /** Branches off the parent's path keep their leaves once the two siblings are gone. */
  lemma DetachedDense<S>(sm: map<Key, Entry<S>>, k: Key, l: Key)
    requires Dense(sm) && 2 <= |k| == |l| && l[..|k| - 1] == k[..|k| - 1]
    ensures DenseOffPath(sm - {k, l}, k[..|k| - 1])
  {
    var p := k[..|k| - 1];
    forall b | b in sm - {k, l} && (sm - {k, l})[b].Branch? && !(|b| <= |p| && p[..|b|] == b)
      ensures |LeavesUnder(sm - {k, l}, b)| >= 2
    {
      assert |b| < |k| ==> p[..|b|] == k[..|b|] && p[..|b|] == l[..|b|];
      LeavesUnderDrop(sm, {k, l}, b);
    }
  }

  /**
   * With no branch sibling and exactly one leaf sibling, the detach loop finds that
   * sibling, every other sibling is absent, and the two leaves are all it takes out.
   */
  lemma LoneSibling<S>(sm: map<Key, Entry<S>>, k: Key, n: nat)
    requires 2 <= |k| && n == 4
    requires var c := SiblingCensus(sm - {k}, k, n); !c.branch && c.leaves == 1
    ensures var (sm2, found) := Detach(sm - {k}, k, n);
      && found.Some?
      && var l := found.value.0;
      && |l| == |k| && l == Sibling(k, l[|k| - 1]) && l[|k| - 1] != k[|k| - 1]
      && IsLeaf(sm, l) && sm[l] == Leaf(found.value.1)
      && (forall q :: q != k[|k| - 1] && q != l[|k| - 1] ==> Sibling(k, q) !in sm)
      && sm2 == sm - {k, l}
  {
    var sm0 := sm - {k};
    CensusCounts(sm0, k, n);
    DetachMap(sm0, k, n);
    DetachFound(sm0, k, n);
    var l := Detach(sm0, k, n).1.value.0;
    OnlySibling(sm0, k, l[|k| - 1]);
    DetachedMap(sm0, k, l);
    assert sm0 - {l} == sm - {k, l};
  }

  /** A single leaf sibling and no branch sibling: every other sibling is absent. */
  lemma OnlySibling<S>(sm: map<Key, Entry<S>>, k: Key, q0: Quadrant)
    requires 1 <= |k| && !BranchSibling(sm, k, 4) && |LeafSiblings(sm, k, 4)| == 1 && q0 in LeafSiblings(sm, k, 4)
    ensures forall q :: q != k[|k| - 1] && q != q0 ==> Sibling(k, q) !in sm
  {
    var qs := LeafSiblings(sm, k, 4);
    assert qs == (qs - {q0}) + {q0};
    QuadrantsEnumeration();
    assert QUADRANTS[..4] == QUADRANTS;
    forall q | q != k[|k| - 1] && q != q0
      ensures Sibling(k, q) !in sm
    {
      assert q in QUADRANTS[..4];
      assert q !in qs;
    }
  }

  /** When `l` is the only stored sibling, taking out all siblings takes out `l`. */
  lemma DetachedMap<S>(sm: map<Key, Entry<S>>, k: Key, l: Key)
    requires 1 <= |k| == |l| && l == Sibling(k, l[|k| - 1]) && l[|k| - 1] != k[|k| - 1]
    requires forall q :: q != k[|k| - 1] && q != l[|k| - 1] ==> Sibling(k, q) !in sm
    ensures sm - SiblingKeys(k, 4) == sm - {l}
  {
    QuadrantsEnumeration();
    assert QUADRANTS[..4] == QUADRANTS;
    assert l in SiblingKeys(k, 4);
    forall y | y in sm && y in SiblingKeys(k, 4)
      ensures y == l
    {
      var q :| q in QUADRANTS[..4] && q != k[|k| - 1] && y == Sibling(k, q);
    }
  }

  /**
   * `remove` up to the compaction loop, when the removed leaf has exactly one leaf
   * sibling and no branch sibling: both leaves leave the map, the removed handle
   * goes, and the sibling's value and handle are carried to the loop from the parent.
   */
  lemma RelocationStart<S>(t: Tree<S>, h: Handle)
    requires Shaped(t.spatial) && Consistent(t) && h in t.handles
    requires var k := t.handles[h]; var c := SiblingCensus(t.spatial - {k}, k, 4);
      !c.branch && c.leaves == 1 && 2 <= |k|
    ensures var k := t.handles[h];
      var r := BeginRemove(t, h);
      && IsLeaf(t.spatial, k) && r.Relocating?
      && r.parent == k[..|k| - 1] && r.removed == t.spatial[k].value
      && r.handle in t.handles && r.handle != h
      && var l := t.handles[r.handle];
      && |l| == |k| && l == Sibling(k, l[|k| - 1]) && l[|k| - 1] != k[|k| - 1]
      && IsLeaf(t.spatial, l) && t.spatial[l] == Leaf(r.moved)
      && (forall q :: q != k[|k| - 1] && q != l[|k| - 1] ==> Sibling(k, q) !in t.spatial)
      && r.tree == Tree(t.spatial - {k, l}, t.handles - {h}, t.next)
  {
    var k := t.handles[h];
    LoneSibling(t.spatial, k, 4);
    var l := Detach(t.spatial - {k}, k, 4).1.value.0;
    var handles0 := t.handles - {h};
    assert l in t.handles.Values;
    var g :| g in t.handles && t.handles[g] == l;
    assert handles0[g] == l;
    assert FindKey(handles0, l, 0, t.next).Some?;
  }

  /**
   * After the intended compaction, the moved handle points at the value's new key
   * and every other surviving handle at its old leaf; handles and leaves stay in step.
   */
  lemma RelocateConsistent<S>(t: Tree<S>, h: Handle, g: Handle, sm': map<Key, Entry<S>>, target: Key)
    requires Consistent(t) && h in t.handles && g in t.handles && h != g
    requires IsBranch(t.spatial, target) && IsLeaf(sm', target)
    requires forall x :: x != target ==>
      (IsLeaf(sm', x) <==> IsLeaf(t.spatial, x) && x != t.handles[h] && x != t.handles[g])
    ensures Consistent(Tree(sm', (t.handles - {h})[g := target], t.next))
  {
    var handles' := (t.handles - {h})[g := target];
    forall x | IsLeaf(sm', x)
      ensures x in handles'.Values
    {
      if x == target {
        assert handles'[g] == x;
      } else {
        assert x in t.handles.Values;
        var g' :| g' in t.handles && t.handles[g'] == x;
        assert handles'[g'] == x;
      }
    }
  }

  /** The removed leaf `k` and its lone leaf sibling `l`, as `remove` finds them before compacting. */
  ghost predicate LoneSiblings<S>(t: Tree<S>, h: Handle, g: Handle) {
    && h in t.handles && g in t.handles && h != g
    && var k := t.handles[h]; var l := t.handles[g];
    && 2 <= |k| == |l| && l == Sibling(k, l[|k| - 1]) && l[|k| - 1] != k[|k| - 1]
    && (forall q :: q != k[|k| - 1] && q != l[|k| - 1] ==> Sibling(k, q) !in t.spatial)
  }

  /** The state the intended compaction leaves, with `g` re-pointed to where the value went. */
  function Relocated<S>(t: Tree<S>, h: Handle, g: Handle): Tree<S>
    requires h in t.handles && g in t.handles && 2 <= |t.handles[h]| <= RESOLUTION
    requires IsLeaf(t.spatial, t.handles[g])
  {
    var k := t.handles[h];
    var l := t.handles[g];
    var (sm', target) := Climb(t.spatial - {k, l}, k[..|k| - 1], t.spatial[l].value);
    Tree(sm', (t.handles - {h})[g := target], t.next)
  }

  /** The intended compaction leaves a valid state. */
  lemma RelocatedInv<S>(t: Tree<S>, h: Handle, g: Handle)
    requires Consistent(t) && LoneSiblings(t, h, g)
    requires var k := t.handles[h]; Emptied(t.spatial - {k, t.handles[g]}, k[..|k| - 1])
    ensures Inv(Relocated(t, h, g))
  {
    var k := t.handles[h];
    var l := t.handles[g];
    var m := t.spatial[l].value;
    ClimbKeeps(t.spatial - {k, l}, k[..|k| - 1], m);
    var (sm', target) := Climb(t.spatial - {k, l}, k[..|k| - 1], m);
    RelocateConsistent(t, h, g, sm', target);
  }

  /**
   * After the intended compaction every surviving handle reaches its old value, and
   * `g` points at a shallower key on its old path.
   */
  lemma RelocatedValues<S>(t: Tree<S>, h: Handle, g: Handle)
    requires Consistent(t) && LoneSiblings(t, h, g)
    requires var k := t.handles[h]; Emptied(t.spatial - {k, t.handles[g]}, k[..|k| - 1])
    ensures var t' := Relocated(t, h, g);
      && t'.handles.Keys == t.handles.Keys - {h}
      && (forall g' :: g' in t'.handles ==> t'.handles[g'] in t'.spatial && t'.spatial[t'.handles[g']] == t.spatial[t.handles[g']])
      && g in t'.handles && |t'.handles[g]| < |t.handles[g]| && t.handles[g][..|t'.handles[g]|] == t'.handles[g]
  {
    var k := t.handles[h];
    var l := t.handles[g];
    var m := t.spatial[l].value;
    var sm2 := t.spatial - {k, l};
    var p := k[..|k| - 1];
    var r := Climb(sm2, p, m);
    ClimbMoves(sm2, p, m);
    assert l[..|k| - 1] == p;
    assert l[..|r.1|] == p[..|r.1|];
    RelocatedHandles(t, h, g, r.0, r.1);
    assert Relocated(t, h, g) == Tree(r.0, (t.handles - {h})[g := r.1], t.next);
  }

  /** Where the intended compaction puts the moved value, and that it keeps the other leaves. */
  lemma ClimbMoves<S>(sm: map<Key, Entry<S>>, p: Key, m: S)
    requires Emptied(sm, p)
    ensures |p| <= RESOLUTION
    ensures var (sm', target) := Climb(sm, p, m);
      && |target| <= |p| && p[..|target|] == target && IsBranch(sm, target)
      && target in sm' && sm'[target] == Leaf(m)
      && (forall x :: x != target && IsLeaf(sm, x) ==> x in sm' && sm'[x] == sm[x])
  {
    ClimbKeeps(sm, p, m);
  }

  /** Re-pointing `g` at the value's new key keeps every surviving handle on its value. */
  lemma RelocatedHandles<S>(t: Tree<S>, h: Handle, g: Handle, sm': map<Key, Entry<S>>, target: Key)
    requires Consistent(t) && LoneSiblings(t, h, g)
    requires !IsLeaf(t.spatial, target) && target in sm' && sm'[target] == Leaf(t.spatial[t.handles[g]].value)
    requires |target| < |t.handles[g]| && t.handles[g][..|target|] == target
    requires forall x :: x != target && IsLeaf(t.spatial - {t.handles[h], t.handles[g]}, x) ==> x in sm' && sm'[x] == t.spatial[x]
    ensures var handles' := (t.handles - {h})[g := target];
      && handles'.Keys == t.handles.Keys - {h}
      && (forall g' :: g' in handles' ==> handles'[g'] in sm' && sm'[handles'[g']] == t.spatial[t.handles[g']])
      && g in handles' && |handles'[g]| < |t.handles[g]| && t.handles[g][..|handles'[g]|] == handles'[g]
  {
    var handles' := (t.handles - {h})[g := target];
    forall g' | g' in handles'
      ensures handles'[g'] in sm' && sm'[handles'[g']] == t.spatial[t.handles[g']]
    {
      var x := t.handles[g'];
      if g' == g {
        assert IsLeaf(t.spatial, x) && handles'[g'] == target;
        assert sm'[target] == t.spatial[x];
      } else {
        assert handles'[g'] == x && x != t.handles[h] && x != t.handles[g];
        assert IsLeaf(t.spatial - {t.handles[h], t.handles[g]}, x);
        assert sm'[x] == t.spatial[x];
      }
    }
  }

  /**
   * `remove` of a live handle whose leaf has a lone leaf sibling: the value is
   * returned, the invariant holds afterwards, every surviving handle reaches its old
   * value, and the sibling's handle now points at a shallower key on its old path.
   */
  lemma RemoveRelocation<S>(t: Tree<S>, h: Handle)
    requires Inv(t) && h in t.handles
    requires var k := t.handles[h]; var c := SiblingCensus(t.spatial - {k}, k, 4);
      !c.branch && c.leaves == 1 && 2 <= |k|
    ensures var k := t.handles[h];
      var (t', r) := Remove(t, h);
      && IsLeaf(t.spatial, k) && r == Returned(Some(t.spatial[k].value)) && Inv(t')
      && t'.handles.Keys == t.handles.Keys - {h} && t'.next == t.next
      && (forall g' :: g' in t'.handles ==> t'.spatial[t'.handles[g']] == t.spatial[t.handles[g']])
      && BeginRemove(t, h).Relocating?
      && var g := BeginRemove(t, h).handle;
      && g in t.handles && g in t'.handles
      && |t'.handles[g]| < |t.handles[g]| && t.handles[g][..|t'.handles[g]|] == t'.handles[g]
  {
    RelocationStart(t, h);
    var k := t.handles[h];
    EmptiedAfterDetach(t.spatial, k, t.handles[BeginRemove(t, h).handle]);
    RelocatedInv(t, h, BeginRemove(t, h).handle);
    RelocatedValues(t, h, BeginRemove(t, h).handle);
  }

  // ----- remove keeps every leaf on its value's path -----

  /** The intended compaction puts the moved value at a prefix of a key on its path. */
  lemma {:induction false} ClimbPlaced<S>(sm: map<Key, Entry<S>>, p: Key, m: S, classify: (S, nat) -> Quadrant)
    requires 1 <= |p| <= RESOLUTION && Placed(sm, classify) && Follows(p, classify, m)
    ensures Placed(Climb(sm, p, m).0, classify)
    decreases |p|
  {
    var sm1 := sm - {p};
    PlacedWithout(sm, {p}, classify);
    if |p| == 1 || NumChild(sm1, p[..|p| - 1]) != 0 {
      var sm' := sm1[p := Leaf(m)];
      forall k | IsLeaf(sm', k)
        ensures Follows(k, classify, sm'[k].value)
      {
        if k != p {
          assert IsLeaf(sm1, k);
        }
      }
    } else {
      var pp := p[..|p| - 1];
      assert Follows(pp, classify, m) by {
        forall i | 0 <= i < |pp|
          ensures pp[i] == classify(m, i)
        {
          assert pp[i] == p[i];
        }
      }
      ClimbPlaced(sm1, pp, m, classify);
    }
  }

  /**
   * The intended `remove` keeps every leaf on its value's path: leaves only leave
   * the map, except the moved value, which climbs along its own path.
   */
  lemma RemoveKeepsPlaced<S>(t: Tree<S>, h: Handle, classify: (S, nat) -> Quadrant)
    requires Inv(t) && Placed(t.spatial, classify)
    ensures Placed(Remove(t, h).0.spatial, classify)
  {
    if h in t.handles {
      var k := t.handles[h];
      var c := SiblingCensus(t.spatial - {k}, k, 4);
      if c.branch || c.leaves != 1 || |k| <= 1 {
        RemoveNoRelocation(t, h);
        PlacedWithout(t.spatial, {k}, classify);
      } else {
        RelocationStart(t, h);
        var r := BeginRemove(t, h);
        var l := t.handles[r.handle];
        PlacedWithout(t.spatial, {k, l}, classify);
        assert Follows(l, classify, r.moved);
        assert Follows(r.parent, classify, r.moved) by {
          forall i | 0 <= i < |r.parent|
            ensures r.parent[i] == classify(r.moved, i)
          {
            assert r.parent[i] == l[..|k| - 1][i] == l[i];
          }
        }
        ClimbPlaced(r.tree.spatial, r.parent, r.moved, classify);
      }
    }
  }

  // ----- remove -----

  /** `remove` of a live handle, with the census over all `n` quadrants deciding the case. */
  lemma RemoveLive<S>(t: Tree<S>, h: Handle, n: nat)
    requires Inv(t) && h in t.handles && n == 4
    ensures var (t', r) := Remove(t, h);
      && r == Returned(Some(t.spatial[t.handles[h]].value)) && Inv(t')
      && t'.handles.Keys == t.handles.Keys - {h} && t'.next == t.next
      && (forall g :: g in t'.handles ==> t'.spatial[t'.handles[g]] == t.spatial[t.handles[g]])
  {
    var k := t.handles[h];
    var c := SiblingCensus(t.spatial - {k}, k, n);
    if c.branch || c.leaves != 1 || |k| <= 1 {
      RemoveNoRelocation(t, h);
    } else {
      RemoveRelocation(t, h);
    }
  }

  /**
   * `remove` on a valid state never panics. A stale handle changes nothing and
   * returns nothing; a live one returns its value and is the only handle to go,
   * every other handle still reaches its value, and the state stays valid.
   */
  lemma RemoveKeepsInv<S>(t: Tree<S>, h: Handle)
    requires Inv(t)
    ensures var (t', r) := Remove(t, h);
      && Inv(t') && t'.next == t.next
      && (h !in t.handles ==> t' == t && r == Returned(None))
      && (h in t.handles ==>
            && r == Returned(Some(t.spatial[t.handles[h]].value))
            && t'.handles.Keys == t.handles.Keys - {h}
            && forall g :: g in t'.handles ==> t'.spatial[t'.handles[g]] == t.spatial[t.handles[g]])
  {
    if h in t.handles {
      RemoveLive(t, h, 4);
    }
  }

  // ----- the compaction loop as written, on its first pass -----

  /**
   * A level-1 parent leaves the loop on its first pass, the same way in both
   * versions: the value takes the parent's place and the handle follows it.
   */
  lemma ClimbAgreesAtLevelOne<S>(sm: map<Key, Entry<S>>, p: Key, s: S)
    requires |p| == 1
    ensures ClimbAsWritten(sm, p, s) == Climb(sm, p, s)
    ensures Climb(sm, p, s) == ((sm - {p})[p := Leaf(s)], p)
  {
  }

  /** When the removed key is at level 1 or 2, `remove` as written is the corrected one. */
  lemma RemoveAsWrittenAgrees<S>(t: Tree<S>, h: Handle)
    requires Shaped(t.spatial) && (h in t.handles ==> |t.handles[h]| <= 2)
    ensures RemoveAsWritten(t, h) == Remove(t, h)
  {
    match BeginRemove(t, h)
    case Done(_, _) =>
    case Relocating(t1, p, moved, _, _) =>
      assert |p| == 1;
      ClimbAgreesAtLevelOne(t1.spatial, p, moved);
  }

  /** So `remove` as written keeps the invariant whenever the removed key is at level 1 or 2. */
  lemma RemoveAsWrittenKeepsInvShallow<S>(t: Tree<S>, h: Handle)
    requires Inv(t) && (h in t.handles ==> |t.handles[h]| <= 2)
    ensures var (t', r) := RemoveAsWritten(t, h);
      && Inv(t') && t'.next == t.next
      && (h !in t.handles ==> t' == t && r == Returned(None))
      && (h in t.handles ==>
            && r == Returned(Some(t.spatial[t.handles[h]].value))
            && t'.handles.Keys == t.handles.Keys - {h}
            && forall g :: g in t'.handles ==> t'.spatial[t'.handles[g]] == t.spatial[t.handles[g]])
  {
    RemoveAsWrittenAgrees(t, h);
    RemoveKeepsInv(t, h);
  }

  /**
   * Compaction from a level-2 leaf, as written: the lone leaf sibling replaces the
   * level-1 parent's branch and its handle is re-pointed at the parent.
   */
  lemma CompactionFromLevelTwo<S>(t: Tree<S>, h: Handle)
    requires Inv(t) && h in t.handles && |t.handles[h]| == 2
    requires var k := t.handles[h]; var c := SiblingCensus(t.spatial - {k}, k, 4);
      !c.branch && c.leaves == 1
    ensures var k := t.handles[h];
      var r := BeginRemove(t, h);
      var (t', res) := RemoveAsWritten(t, h);
      && IsBranch(t.spatial, k[..1])
      && r.Relocating? && r.handle in t.handles && r.handle != h
      && res == Returned(Some(t.spatial[k].value))
      && k[..1] in t'.spatial && t'.spatial[k[..1]] == t.spatial[t.handles[r.handle]]
      && r.handle in t'.handles && t'.handles[r.handle] == k[..1]
      && Inv(t')
  {
    var k := t.handles[h];
    assert IsLeaf(t.spatial, k);
    assert IsBranch(t.spatial, k[..1]);
    RelocationStart(t, h);
    RemoveAsWrittenAgrees(t, h);
    RemoveKeepsInv(t, h);
    var r := BeginRemove(t, h);
    ClimbAgreesAtLevelOne(r.tree.spatial, r.parent, r.moved);
  }
}
