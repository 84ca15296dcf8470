/**
 * What the linear quadtree's operations promise, proved on the functions of
 * `LinearQuadtreeSpec`: `num_child` counts leaves, insert and the intended remove
 * keep the state's invariant, and what each does to the two maps.
 */
module LinearQuadtreeProofs {
  import opened Wrappers
  import opened Quadrants
  import opened LinearQuadtreeSpec

  // ----- num_child -----

  /** The leaves strictly below `k` whose first step is among the first `n` quadrants. */
  ghost function ChildLeaves<S>(sm: map<Key, Entry<S>>, k: Key, n: nat): set<Key>
    requires n <= 4
  {
    set l | l in sm && sm[l].Leaf? && |k| < |l| && l[..|k|] == k && l[|k|] in QUADRANTS[..n]
  }

  /** `num_child` is the number of leaves at or below the key. */
  lemma {:induction false} NumChildCountsLeaves<S>(sm: map<Key, Entry<S>>, k: Key)
    requires Shaped(sm) && PrefixClosed(sm) && 1 <= |k| <= RESOLUTION
    ensures NumChild(sm, k) == |LeavesAtOrUnder(sm, k)|
    decreases RESOLUTION - |k|, 5
  {
    forall l | l in sm && |l| == |k|
      ensures l[..|k|] == k <==> l == k
    {
      assert l[..|k|] == l;
    }
    if k !in sm {
      forall l | l in sm && |k| < |l|
        ensures l[..|k|] != k
      {
        assert IsBranch(sm, l[..|k|]);
      }
      assert LeavesAtOrUnder(sm, k) == {};
    } else if sm[k].Leaf? {
      forall l | l in sm && |k| < |l|
        ensures l[..|k|] != k
      {
        assert IsBranch(sm, l[..|k|]);
      }
      assert LeavesAtOrUnder(sm, k) == {k};
    } else {
      QuadrantsEnumeration();
      ChildSumCountsLeaves(sm, k, 4);
      assert QUADRANTS[..4] == QUADRANTS;
      assert LeavesAtOrUnder(sm, k) == ChildLeaves(sm, k, 4);
    }
  }

  /** The partial sums of `num_child`'s loop count the leaves below the quadrants visited. */
  lemma {:induction false} ChildSumCountsLeaves<S>(sm: map<Key, Entry<S>>, k: Key, n: nat)
    requires Shaped(sm) && PrefixClosed(sm) && 1 <= |k| < RESOLUTION && n <= 4
    ensures ChildSum(sm, k, n) == |ChildLeaves(sm, k, n)|
    decreases RESOLUTION - |k|, n
  {
    if n == 0 {
      assert ChildLeaves(sm, k, 0) == {};
    } else {
      ChildSumCountsLeaves(sm, k, n - 1);
      NumChildCountsLeaves(sm, k + [QUADRANTS[n - 1]]);
      ChildLeavesStep(sm, k, n);
    }
  }

  /** The leaves below the first `n` quadrants split into those below the first `n - 1` and the n-th. */
  lemma ChildLeavesStep<S>(sm: map<Key, Entry<S>>, k: Key, n: nat)
    requires 1 <= n <= 4
    ensures ChildLeaves(sm, k, n) == ChildLeaves(sm, k, n - 1) + LeavesAtOrUnder(sm, k + [QUADRANTS[n - 1]])
    ensures ChildLeaves(sm, k, n - 1) * LeavesAtOrUnder(sm, k + [QUADRANTS[n - 1]]) == {}
  {
    var q := QUADRANTS[n - 1];
    var c := k + [q];
    QuadrantsEnumeration();
    assert QUADRANTS[..n] == QUADRANTS[..n - 1] + [q];
    assert q !in QUADRANTS[..n - 1];
    forall l | l in sm && |c| <= |l|
      ensures l[..|c|] == c <==> l[..|k|] == k && l[|k|] == q
    {
      assert l[..|c|][..|k|] == l[..|k|];
      assert l[..|c|][|k|] == l[|k|];
    }
  }

  // ----- handles and leaves -----

  /** A map that sends no two keys to one value has as many values as keys. */
  lemma {:induction false} InjectiveCard(m: map<Handle, Key>)
    requires forall h1, h2 :: h1 in m && h2 in m && m[h1] == m[h2] ==> h1 == h2
    ensures |m.Values| == |m|
    decreases |m|
  {
    if |m| == 0 {
      assert m.Values == {};
    } else {
      var h :| h in m;
      var rest := m - {h};
      forall v | v in m.Values - {m[h]}
        ensures v in rest.Values
      {
        var h' :| h' in m && m[h'] == v;
        assert rest[h'] == v;
      }
      forall v | v in rest.Values
        ensures v in m.Values - {m[h]}
      {
        var h' :| h' in rest && rest[h'] == v;
        assert m[h'] == v;
      }
      assert rest.Values == m.Values - {m[h]};
      InjectiveCard(rest);
    }
  }

  /** In a consistent state there are exactly as many live handles as leaves. */
  lemma HandlesMatchLeaves<S>(t: Tree<S>)
    requires Consistent(t)
    ensures |t.handles| == |LeafKeys(t.spatial)|
  {
    assert t.handles.Values == LeafKeys(t.spatial);
    InjectiveCard(t.handles);
  }

  /** `find_key_in_keymap` finds the handle of every leaf of a consistent state. */
  lemma FindKeyOfLeaf<S>(t: Tree<S>, k: Key)
    requires Consistent(t) && IsLeaf(t.spatial, k)
    ensures FindKey(t.handles, k, 0, t.next).Some?
  {
    var h :| h in t.handles && t.handles[h] == k;
  }

  // ----- values -----

  /** The live handles below `n`. */
  ghost function HandlesBelow<S>(t: Tree<S>, n: nat): set<Handle> {
    set h | h in t.handles && h < n
  }

  /** The first `n` slots of `values` hold one value per live handle below `n`. */
  lemma {:induction false} ValuesUpToCounts<S>(t: Tree<S>, n: nat)
    requires forall h :: h in t.handles ==> t.handles[h] in t.spatial && t.spatial[t.handles[h]].Leaf?
    ensures |ValuesUpTo(t, n)| == |HandlesBelow(t, n)|
    decreases n
  {
    if n == 0 {
      assert HandlesBelow(t, 0) == {};
    } else {
      var h := n - 1;
      ValuesUpToCounts(t, h);
      if h in t.handles {
        assert HandlesBelow(t, n) == HandlesBelow(t, h) + {h};
      } else {
        assert HandlesBelow(t, n) == HandlesBelow(t, h);
      }
    }
  }

  /** The value of every live handle below `n` is among the first `n` slots of `values`. */
  lemma {:induction false} ValuesUpToComplete<S>(t: Tree<S>, n: nat)
    requires forall h :: h in t.handles ==> t.handles[h] in t.spatial && t.spatial[t.handles[h]].Leaf?
    ensures forall h :: h in t.handles && h < n ==> t.spatial[t.handles[h]].value in ValuesUpTo(t, n)
    decreases n
  {
    if n > 0 {
      ValuesUpToComplete(t, n - 1);
    }
  }

  /** Every value among the first `n` slots of `values` is stored at a live handle below `n`. */
  lemma {:induction false} ValuesUpToSound<S>(t: Tree<S>, n: nat)
    requires forall h :: h in t.handles ==> t.handles[h] in t.spatial && t.spatial[t.handles[h]].Leaf?
    ensures forall v :: v in ValuesUpTo(t, n) ==>
      exists h :: h in t.handles && h < n && t.spatial[t.handles[h]].value == v
    decreases n
  {
    if n > 0 {
      ValuesUpToSound(t, n - 1);
    }
  }

  /**
   * `values` of a consistent state has one entry per live handle, hence one per
   * leaf, and holds exactly the values stored at the live handles.
   */
  lemma ValuesOfLiveHandles<S>(t: Tree<S>)
    requires Consistent(t)
    ensures |ValuesUpTo(t, t.next)| == |t.handles| == |LeafKeys(t.spatial)|
    ensures forall h :: h in t.handles ==> t.spatial[t.handles[h]].value in ValuesUpTo(t, t.next)
    ensures forall v :: v in ValuesUpTo(t, t.next) ==>
      exists h :: h in t.handles && t.spatial[t.handles[h]].value == v
  {
    ValuesUpToCounts(t, t.next);
    ValuesUpToComplete(t, t.next);
    ValuesUpToSound(t, t.next);
    assert HandlesBelow(t, t.next) == t.handles.Keys;
    HandlesMatchLeaves(t);
  }

  // ----- the collision loop -----

  /** `x` lies on the way from `c` down to `d`. */
  ghost predicate OnPath(x: Key, c: Key, d: Key) {
    |c| <= |x| <= |d| && x == d[..|x|]
  }

  /** The key where two points part: follow their common quadrants from `c`. */
  ghost function Parting<S>(classify: (S, nat) -> Quadrant, s1: S, s2: S, c: Key): (d: Key)
    requires |c| <= RESOLUTION
    ensures |c| <= |d| <= RESOLUTION && d[..|c|] == c
    ensures forall i :: |c| <= i < |d| ==> d[i] == classify(s1, i) == classify(s2, i)
    ensures |d| < RESOLUTION ==> classify(s1, |d|) != classify(s2, |d|)
    decreases RESOLUTION - |c|
  {
    if |c| == RESOLUTION || classify(s1, |c|) != classify(s2, |c|) then c
    else
      var d := Parting(classify, s1, s2, c + [classify(s1, |c|)]);
      assert d[..|c|] == d[..|c| + 1][..|c|];
      d
  }

  /**
   * The collision loop panics exactly when the points share every quadrant down
   * to the last level; otherwise it parts them into two siblings below the parting key.
   */
  lemma {:induction false} SubdivideOutcome<S>(sm: map<Key, Entry<S>>, classify: (S, nat) -> Quadrant, s1: S, s2: S, c: Key)
    requires 1 <= |c| <= RESOLUTION
    ensures var d := Parting(classify, s1, s2, c);
      && (Subdivide(sm, classify, s1, s2, c).1.Some? <==> |d| < RESOLUTION)
      && (|d| < RESOLUTION ==>
            Subdivide(sm, classify, s1, s2, c).1 == Some(Split(d + [classify(s1, |d|)], d + [classify(s2, |d|)])))
    decreases RESOLUTION - |c|
  {
    if |c| < RESOLUTION && classify(s1, |c|) == classify(s2, |c|) {
      SubdivideOutcome(sm[c := Branch], classify, s1, s2, c + [classify(s1, |c|)]);
    }
  }

  /**
   * What the collision loop writes: the keys from `c` down to the parting key
   * become branches, the two children get the two leaves, and nothing else changes.
   */
  lemma {:induction false} SubdivideMap<S>(sm: map<Key, Entry<S>>, classify: (S, nat) -> Quadrant, s1: S, s2: S, c: Key)
    requires 1 <= |c| <= RESOLUTION
    ensures var d := Parting(classify, s1, s2, c);
      var (sm', split) := Subdivide(sm, classify, s1, s2, c);
      && (forall x :: x in sm' <==> x in sm || OnPath(x, c, d) || (split.Some? && (x == split.value.first || x == split.value.second)))
      && (forall x :: x in sm' ==>
            sm'[x] == (if split.Some? && x == split.value.second then Leaf(s2)
                       else if split.Some? && x == split.value.first then Leaf(s1)
                       else if OnPath(x, c, d) then Branch
                       else sm[x]))
    decreases RESOLUTION - |c|
  {
    var d := Parting(classify, s1, s2, c);
    if |c| < RESOLUTION && classify(s1, |c|) == classify(s2, |c|) {
      var c' := c + [classify(s1, |c|)];
      var (sm', split) := Subdivide(sm, classify, s1, s2, c);
      SubdivideMap(sm[c := Branch], classify, s1, s2, c');
      SubdivideOutcome(sm[c := Branch], classify, s1, s2, c');
      assert d == Parting(classify, s1, s2, c');
      forall x
        ensures OnPath(x, c, d) <==> x == c || OnPath(x, c', d)
      {
        if OnPath(x, c, d) && |x| == |c| {
          assert x == c;
        }
      }
      forall x | x in sm'
        ensures sm'[x] == (if split.Some? && x == split.value.second then Leaf(s2)
                           else if split.Some? && x == split.value.first then Leaf(s1)
                           else if OnPath(x, c, d) then Branch
                           else sm[x])
      {
        SubdivideMapAt(sm, sm', split, c, c', d, s1, s2, x);
      }
    } else {
      assert d == c;
      forall x
        ensures OnPath(x, c, d) <==> x == c
      {
        if |x| == |c| {
          assert d[..|x|] == d;
        }
      }
    }
  }

  /**
   * One key of `SubdivideMap`'s step: the pass at `c` writes a branch at `c`, and the
   * rest of the loop, from `c'`, writes below it.
   */
  lemma SubdivideMapAt<S>(sm: map<Key, Entry<S>>, sm': map<Key, Entry<S>>, split: Option<Split>, c: Key, c': Key, d: Key, s1: S, s2: S, x: Key)
    requires |c'| == |c| + 1 && x in sm'
    requires split.Some? ==> |split.value.first| > |c'| && |split.value.second| > |c'|
    requires OnPath(x, c, d) <==> x == c || OnPath(x, c', d)
    requires x in sm || OnPath(x, c, d) || (split.Some? && (x == split.value.first || x == split.value.second))
    requires x in sm[c := Branch] || OnPath(x, c', d) || (split.Some? && (x == split.value.first || x == split.value.second))
    requires sm'[x] == (if split.Some? && x == split.value.second then Leaf(s2)
                        else if split.Some? && x == split.value.first then Leaf(s1)
                        else if OnPath(x, c', d) then Branch
                        else sm[c := Branch][x])
    ensures sm'[x] == (if split.Some? && x == split.value.second then Leaf(s2)
                       else if split.Some? && x == split.value.first then Leaf(s1)
                       else if OnPath(x, c, d) then Branch
                       else sm[x])
  {
    if x == c {
      assert !OnPath(x, c', d);
    }
  }

  // ----- insert keeps the invariant -----

  lemma SubsetCard<T>(a: set<T>, b: set<T>)
    requires a <= b
    ensures |a| <= |b|
  {
    assert b == a + (b - a);
  }

  /** Storing a leaf at an absent key whose ancestors are branches, under a fresh handle, keeps the invariant. */
  lemma AddLeafKeepsInv<S>(t: Tree<S>, c: Key, s: S)
    requires Inv(t) && c !in t.spatial && 1 <= |c| <= RESOLUTION
    requires forall i :: 1 <= i < |c| ==> IsBranch(t.spatial, c[..i])
    ensures Inv(Tree(t.spatial[c := Leaf(s)], t.handles[t.next := c], t.next + 1))
  {
    var sm := t.spatial;
    var sm' := sm[c := Leaf(s)];
    var t' := Tree(sm', t.handles[t.next := c], t.next + 1);
    forall k, i | k in sm' && 1 <= i < |k|
      ensures IsBranch(sm', k[..i])
    {
      if k != c {
        assert IsBranch(sm, k[..i]);
      }
    }
    forall b | b in sm' && sm'[b].Branch?
      ensures |LeavesUnder(sm', b)| >= 2
    {
      SubsetCard(LeavesUnder(sm, b), LeavesUnder(sm', b));
    }
    forall k | IsLeaf(sm', k)
      ensures k in t'.handles.Values
    {
      if k == c {
        assert t'.handles[t.next] == c;
      } else {
        assert IsLeaf(sm, k);
        assert k in t.handles.Values;
        var h :| h in t.handles && t.handles[h] == k;
        assert t'.handles[h] == k;
      }
    }
  }

  /** The collision loop's writes, for a loop that parted the points below `d`. */
  ghost predicate Parted<S>(sm: map<Key, Entry<S>>, sm': map<Key, Entry<S>>, c: Key, d: Key, c1: Key, c2: Key, s1: S, s2: S) {
    && 1 <= |c| <= |d| < RESOLUTION && d[..|c|] == c
    && |c1| == |c2| == |d| + 1 && c1[..|d|] == d && c2[..|d|] == d && c1 != c2
    && (forall x :: x in sm' <==> x in sm || OnPath(x, c, d) || x == c1 || x == c2)
    && (forall x :: x in sm' ==>
          sm'[x] == (if x == c2 then Leaf(s2) else if x == c1 then Leaf(s1) else if OnPath(x, c, d) then Branch else sm[x]))
  }

  /** Nothing is stored below a leaf. */
  lemma NothingBelowLeaf<S>(sm: map<Key, Entry<S>>, c: Key)
    requires PrefixClosed(sm) && IsLeaf(sm, c) && 1 <= |c|
    ensures forall x :: x in sm && |c| < |x| ==> x[..|c|] != c
  {
    forall x | x in sm && |c| < |x|
      ensures x[..|c|] != c
    {
      assert IsBranch(sm, x[..|c|]);
    }
  }

  lemma PartedNew<S>(sm: map<Key, Entry<S>>, sm': map<Key, Entry<S>>, c: Key, d: Key, c1: Key, c2: Key, s1: S, s2: S)
    requires Parted(sm, sm', c, d, c1, c2, s1, s2) && PrefixClosed(sm) && IsLeaf(sm, c)
    ensures c1 !in sm && c2 !in sm
    ensures forall x :: x in sm && OnPath(x, c, d) ==> x == c
  {
    NothingBelowLeaf(sm, c);
    assert c1[..|c|] == c1[..|d|][..|c|];
    assert c2[..|c|] == c2[..|d|][..|c|];
    forall x | OnPath(x, c, d)
      ensures x[..|c|] == c && (|x| == |c| ==> x == c)
    {
      assert x[..|c|] == d[..|x|][..|c|];
    }
  }

  lemma PartedPrefixClosed<S>(sm: map<Key, Entry<S>>, sm': map<Key, Entry<S>>, c: Key, d: Key, c1: Key, c2: Key, s1: S, s2: S)
    requires Parted(sm, sm', c, d, c1, c2, s1, s2) && PrefixClosed(sm) && IsLeaf(sm, c)
    ensures PrefixClosed(sm')
  {
    PartedNew(sm, sm', c, d, c1, c2, s1, s2);
    forall x, i | x in sm' && 1 <= i < |x|
      ensures IsBranch(sm', x[..i])
    {
      if x == c1 || x == c2 || OnPath(x, c, d) {
        assert x[..i] == d[..i];
        if i < |c| {
          assert x[..i] == c[..i];
          assert IsBranch(sm, c[..i]);
        } else {
          assert OnPath(x[..i], c, d);
        }
      } else {
        assert IsBranch(sm, x[..i]);
      }
    }
  }

  lemma PartedDense<S>(sm: map<Key, Entry<S>>, sm': map<Key, Entry<S>>, c: Key, d: Key, c1: Key, c2: Key, s1: S, s2: S)
    requires Parted(sm, sm', c, d, c1, c2, s1, s2) && PrefixClosed(sm) && Dense(sm) && IsLeaf(sm, c)
    ensures Dense(sm')
  {
    PartedNew(sm, sm', c, d, c1, c2, s1, s2);
    forall b | b in sm' && sm'[b].Branch?
      ensures |LeavesUnder(sm', b)| >= 2
    {
      if |b| <= |d| && b == d[..|b|] {
        PartedDenseOnPath(sm', d, c1, c2, b);
      } else {
        assert b in sm && sm[b].Branch?;
        assert !(|b| < |c| && c[..|b|] == b) by {
          if |b| < |c| {
            assert c[..|b|] == d[..|c|][..|b|];
          }
        }
        PartedDenseOff(sm, sm', c, b);
        SubsetCard(LeavesUnder(sm, b), LeavesUnder(sm', b));
      }
    }
  }

  /** A branch on the new path holds both new leaves. */
  lemma PartedDenseOnPath<S>(sm': map<Key, Entry<S>>, d: Key, c1: Key, c2: Key, b: Key)
    requires |c1| == |c2| == |d| + 1 && c1[..|d|] == d && c2[..|d|] == d && c1 != c2
    requires IsLeaf(sm', c1) && IsLeaf(sm', c2) && |b| <= |d| && b == d[..|b|]
    ensures |LeavesUnder(sm', b)| >= 2
  {
    assert c1[..|b|] == c1[..|d|][..|b|];
    assert c2[..|b|] == c2[..|d|][..|b|];
    assert {c1, c2} <= LeavesUnder(sm', b);
    SubsetCard({c1, c2}, LeavesUnder(sm', b));
  }

  /** A branch off the new path keeps its leaves, since the split leaf is not below it. */
  lemma PartedDenseOff<S>(sm: map<Key, Entry<S>>, sm': map<Key, Entry<S>>, c: Key, b: Key)
    requires forall x :: IsLeaf(sm, x) && x != c ==> IsLeaf(sm', x)
    requires !(|b| < |c| && c[..|b|] == b)
    ensures LeavesUnder(sm, b) <= LeavesUnder(sm', b)
  {
    forall x | x in LeavesUnder(sm, b)
      ensures x in LeavesUnder(sm', b)
    {
      assert IsLeaf(sm, x) && x != c;
    }
  }

  lemma PartedConsistent<S>(t: Tree<S>, sm': map<Key, Entry<S>>, c: Key, d: Key, c1: Key, c2: Key, s1: S, h: Handle)
    requires Inv(t) && IsLeaf(t.spatial, c) && Parted(t.spatial, sm', c, d, c1, c2, s1, t.spatial[c].value)
    requires h in t.handles && t.handles[h] == c
    ensures Consistent(Tree(sm', t.handles[h := c2][t.next := c1], t.next + 1))
  {
    PartedNew(t.spatial, sm', c, d, c1, c2, s1, t.spatial[c].value);
    var handles := t.handles[h := c2][t.next := c1];
    forall g | g in handles
      ensures g < t.next + 1 && IsLeaf(sm', handles[g])
    {
      if g != t.next && g != h {
        assert IsLeaf(t.spatial, t.handles[g]) && t.handles[g] != c;
      }
    }
    forall g1, g2 | g1 in handles && g2 in handles && handles[g1] == handles[g2]
      ensures g1 == g2
    {
      if g1 != t.next && g1 != h {
        assert IsLeaf(t.spatial, t.handles[g1]);
      }
      if g2 != t.next && g2 != h {
        assert IsLeaf(t.spatial, t.handles[g2]);
      }
    }
    forall k | IsLeaf(sm', k)
      ensures k in handles.Values
    {
      if k == c1 {
        assert handles[t.next] == k;
      } else if k == c2 {
        assert handles[h] == k;
      } else {
        assert IsLeaf(t.spatial, k);
        assert k in t.handles.Values;
        var g :| g in t.handles && t.handles[g] == k;
        assert handles[g] == k;
      }
    }
  }

  lemma PartedKeepsInv<S>(t: Tree<S>, sm': map<Key, Entry<S>>, c: Key, d: Key, c1: Key, c2: Key, s1: S, h: Handle)
    requires Inv(t) && IsLeaf(t.spatial, c) && Parted(t.spatial, sm', c, d, c1, c2, s1, t.spatial[c].value)
    requires h in t.handles && t.handles[h] == c
    ensures Inv(Tree(sm', t.handles[h := c2][t.next := c1], t.next + 1))
  {
    PartedNew(t.spatial, sm', c, d, c1, c2, s1, t.spatial[c].value);
    PartedPrefixClosed(t.spatial, sm', c, d, c1, c2, s1, t.spatial[c].value);
    PartedDense(t.spatial, sm', c, d, c1, c2, s1, t.spatial[c].value);
    PartedConsistent(t, sm', c, d, c1, c2, s1, h);
  }

  /** The collision loop's writes as a `Parted` fact, once it has parted the points. */
  lemma SubdivideParts<S>(sm: map<Key, Entry<S>>, classify: (S, nat) -> Quadrant, s1: S, s2: S, c: Key)
    requires 1 <= |c| <= RESOLUTION
    requires Subdivide(sm, classify, s1, s2, c).1.Some?
    ensures var (sm', split) := Subdivide(sm, classify, s1, s2, c);
      Parted(sm, sm', c, Parting(classify, s1, s2, c), split.value.first, split.value.second, s1, s2)
  {
    SubdivideOutcome(sm, classify, s1, s2, c);
    SubdivideMap(sm, classify, s1, s2, c);
    var d := Parting(classify, s1, s2, c);
    assert (d + [classify(s1, |d|)])[..|d|] == d;
    assert (d + [classify(s2, |d|)])[..|d|] == d;
  }

  /** Insert keeps the invariant whenever it does not panic. */
  lemma InsertKeepsInv<S>(t: Tree<S>, classify: (S, nat) -> Quadrant, s: S)
    requires Inv(t)
    ensures Insert(t, classify, s).1.Returned? ==> Inv(Insert(t, classify, s).0)
  {
    var c := Descend(t.spatial, classify, s, []);
    if c !in t.spatial {
      AddLeafKeepsInv(t, c, s);
    } else {
      FindKeyOfLeaf(t, c);
      var h := FindKey(t.handles, c, 0, t.next).value;
      var s2 := t.spatial[c].value;
      var (sm', split) := Subdivide(t.spatial, classify, s, s2, c);
      if split.Some? {
        SubdivideParts(t.spatial, classify, s, s2, c);
        PartedKeepsInv(t, sm', c, Parting(classify, s, s2, c), split.value.first, split.value.second, s, h);
      }
    }
  }

  /** Where a collision leaves the two values and everything the old handles reach. */
  lemma PartedStores<S>(t: Tree<S>, sm': map<Key, Entry<S>>, c: Key, d: Key, c1: Key, c2: Key, s1: S)
    requires Inv(t) && IsLeaf(t.spatial, c) && Parted(t.spatial, sm', c, d, c1, c2, s1, t.spatial[c].value)
    ensures c1 in sm' && sm'[c1] == Leaf(s1) && c2 in sm' && sm'[c2] == t.spatial[c]
    ensures forall g :: g in t.handles && t.handles[g] != c ==> t.handles[g] in sm' && sm'[t.handles[g]] == t.spatial[t.handles[g]]
  {
    PartedNew(t.spatial, sm', c, d, c1, c2, s1, t.spatial[c].value);
    forall g | g in t.handles && t.handles[g] != c
      ensures t.handles[g] in sm' && sm'[t.handles[g]] == t.spatial[t.handles[g]]
    {
      assert IsLeaf(t.spatial, t.handles[g]);
    }
  }

  /** Insert on a collision, spelled out with the collision loop's result. */
  lemma CollisionResult<S>(t: Tree<S>, classify: (S, nat) -> Quadrant, s: S)
    requires Inv(t) && Descend(t.spatial, classify, s, []) in t.spatial
    ensures var c := Descend(t.spatial, classify, s, []);
      var h := FindKey(t.handles, c, 0, t.next);
      var (sm', split) := Subdivide(t.spatial, classify, s, t.spatial[c].value, c);
      && IsLeaf(t.spatial, c) && h.Some? && h.value in t.handles && t.handles[h.value] == c
      && Insert(t, classify, s) ==
           if split.None? then (Tree(sm', t.handles, t.next), Panicked)
           else (Tree(sm', t.handles[h.value := split.value.second][t.next := split.value.first], t.next + 1), Returned(t.next))
  {
    FindKeyOfLeaf(t, Descend(t.spatial, classify, s, []));
  }

  /**
   * Re-pointing the displaced handle and issuing a fresh one: the fresh handle
   * reaches the new leaf, every old handle reaches its old value, one handle more.
   */
  lemma RepointStores<S>(handles: map<Handle, Key>, sm: map<Key, Entry<S>>, sm': map<Key, Entry<S>>, c: Key, c1: Key, c2: Key, s1: S, h: Handle, next: Handle)
    requires h in handles && handles[h] == c && next !in handles && c in sm
    requires c1 in sm' && sm'[c1] == Leaf(s1) && c2 in sm' && sm'[c2] == sm[c]
    requires forall g :: g in handles ==> handles[g] in sm && (g != h ==> handles[g] != c)
    requires forall g :: g in handles && handles[g] != c ==> handles[g] in sm' && sm'[handles[g]] == sm[handles[g]]
    ensures var handles' := handles[h := c2][next := c1];
      && next in handles' && handles'[next] in sm' && sm'[handles'[next]] == Leaf(s1)
      && (forall g :: g in handles ==> g in handles' && handles'[g] in sm' && sm'[handles'[g]] == sm[handles[g]])
      && |handles'| == |handles| + 1
  {
    var handles' := handles[h := c2][next := c1];
    assert handles'.Keys == handles.Keys + {next};
  }

  /** The vacancy case of `InsertStores`. */
  lemma InsertStoresVacant<S>(t: Tree<S>, classify: (S, nat) -> Quadrant, s: S)
    requires Inv(t) && Descend(t.spatial, classify, s, []) !in t.spatial
    ensures var (t', r) := Insert(t, classify, s);
      && r == Returned(t.next) && t.next !in t.handles && t.next in t'.handles
      && t'.handles[t.next] in t'.spatial && t'.spatial[t'.handles[t.next]] == Leaf(s)
      && (forall g :: g in t.handles ==>
            g in t'.handles && t'.handles[g] in t'.spatial && t'.spatial[t'.handles[g]] == t.spatial[t.handles[g]])
      && |t'.handles| == |t.handles| + 1
  {
    var c := Descend(t.spatial, classify, s, []);
    assert t.handles[t.next := c].Keys == t.handles.Keys + {t.next};
  }

  /** The collision case of `InsertStores`. */
  lemma InsertStoresCollision<S>(t: Tree<S>, classify: (S, nat) -> Quadrant, s: S)
    requires Inv(t) && Insert(t, classify, s).1.Returned?
    requires Descend(t.spatial, classify, s, []) in t.spatial
    ensures var (t', r) := Insert(t, classify, s);
      && r == Returned(t.next) && t.next !in t.handles && t.next in t'.handles
      && t'.handles[t.next] in t'.spatial && t'.spatial[t'.handles[t.next]] == Leaf(s)
      && (forall g :: g in t.handles ==>
            g in t'.handles && t'.handles[g] in t'.spatial && t'.spatial[t'.handles[g]] == t.spatial[t.handles[g]])
      && |t'.handles| == |t.handles| + 1
  {
    var c := Descend(t.spatial, classify, s, []);
    CollisionResult(t, classify, s);
    var h := FindKey(t.handles, c, 0, t.next).value;
    var s2 := t.spatial[c].value;
    var (sm', split) := Subdivide(t.spatial, classify, s, s2, c);
    SubdivideParts(t.spatial, classify, s, s2, c);
    PartedStores(t, sm', c, Parting(classify, s, s2, c), split.value.first, split.value.second, s);
    RepointStores(t.handles, t.spatial, sm', c, split.value.first, split.value.second, s, h, t.next);
  }

  /**
   * A successful insert returns a fresh handle that now reaches a leaf holding the
   * point; every handle live before stays live and still reaches the same value;
   * the handle count grows by one.
   */
  lemma InsertStores<S>(t: Tree<S>, classify: (S, nat) -> Quadrant, s: S)
    requires Inv(t) && Insert(t, classify, s).1.Returned?
    ensures var (t', r) := Insert(t, classify, s);
      && r.value == t.next && r.value !in t.handles && r.value in t'.handles
      && t'.handles[r.value] in t'.spatial && t'.spatial[t'.handles[r.value]] == Leaf(s)
      && (forall g :: g in t.handles ==>
            g in t'.handles && t'.handles[g] in t'.spatial && t'.spatial[t'.handles[g]] == t.spatial[t.handles[g]])
      && |t'.handles| == |t.handles| + 1
  {
    if Descend(t.spatial, classify, s, []) in t.spatial {
      InsertStoresCollision(t, classify, s);
    } else {
      InsertStoresVacant(t, classify, s);
    }
  }

  /** The key a successful insert stores the point at follows the point's quadrants from the root. */
  lemma InsertFollowsPoint<S>(t: Tree<S>, classify: (S, nat) -> Quadrant, s: S)
    requires Inv(t) && Insert(t, classify, s).1.Returned?
    ensures var (t', r) := Insert(t, classify, s);
      r.value in t'.handles && forall i :: 0 <= i < |t'.handles[r.value]| ==> t'.handles[r.value][i] == classify(s, i)
  {
    var c := Descend(t.spatial, classify, s, []);
    if c in t.spatial {
      CollisionResult(t, classify, s);
      SplitFollowsPoint(t.spatial, classify, s, t.spatial[c].value, c);
    }
  }

  /** The collision loop stores the first point at a key that extends `c` along that point's quadrants. */
  lemma SplitFollowsPoint<S>(sm: map<Key, Entry<S>>, classify: (S, nat) -> Quadrant, s1: S, s2: S, c: Key)
    requires 1 <= |c| <= RESOLUTION && Subdivide(sm, classify, s1, s2, c).1.Some?
    requires forall i :: 0 <= i < |c| ==> c[i] == classify(s1, i)
    ensures var c1 := Subdivide(sm, classify, s1, s2, c).1.value.first;
      forall i :: 0 <= i < |c1| ==> c1[i] == classify(s1, i)
  {
    SubdivideOutcome(sm, classify, s1, s2, c);
    var d := Parting(classify, s1, s2, c);
    var c1 := d + [classify(s1, |d|)];
    forall i | 0 <= i < |c1|
      ensures c1[i] == classify(s1, i)
    {
      if i < |c| {
        assert c1[i] == d[..|c|][i];
      }
    }
  }

  /**
   * On a collision with the leaf at `c`, insert panics exactly when the two points
   * share every quadrant from `c` down to the last level.
   */
  lemma InsertPanics<S>(t: Tree<S>, classify: (S, nat) -> Quadrant, s: S)
    requires Inv(t)
    ensures var c := Descend(t.spatial, classify, s, []);
      Insert(t, classify, s).1.Panicked? <==>
        c in t.spatial && forall i :: |c| <= i < RESOLUTION ==> classify(s, i) == classify(t.spatial[c].value, i)
  {
    var c := Descend(t.spatial, classify, s, []);
    if c in t.spatial {
      FindKeyOfLeaf(t, c);
      var s2 := t.spatial[c].value;
      SubdivideOutcome(t.spatial, classify, s, s2, c);
      var d := Parting(classify, s, s2, c);
      if |d| < RESOLUTION {
        assert classify(s, |d|) != classify(s2, |d|);
      }
    }
  }

  /**
   * Where the collision loop puts the two points once it parts them: two distinct
   * siblings below `c`, reached through branches only.
   */
  lemma SplitPath<S>(sm: map<Key, Entry<S>>, classify: (S, nat) -> Quadrant, s1: S, s2: S, c: Key)
    requires 1 <= |c| <= RESOLUTION && Subdivide(sm, classify, s1, s2, c).1.Some?
    ensures var (sm', split) := Subdivide(sm, classify, s1, s2, c);
      var c1 := split.value.first;
      var c2 := split.value.second;
      && c1 != c2 && |c1| == |c2| > |c| && c1[..|c1| - 1] == c2[..|c2| - 1] && c1[..|c|] == c
      && c1 in sm' && sm'[c1] == Leaf(s1) && c2 in sm' && sm'[c2] == Leaf(s2)
      && (forall i :: |c| <= i < |c1| ==> IsBranch(sm', c1[..i]))
  {
    SubdivideParts(sm, classify, s1, s2, c);
    var d := Parting(classify, s1, s2, c);
    var (sm', split) := Subdivide(sm, classify, s1, s2, c);
    var c1 := split.value.first;
    forall i | |c| <= i < |c1|
      ensures OnPath(c1[..i], c, d)
    {
      assert c1[..i] == c1[..|d|][..i];
    }
    assert c1[..|c|] == c1[..|d|][..|c|];
  }

  /**
   * A collision at `c` turns `c` and every key on the way down to where the points
   * part into branches, stores the two points at two distinct sibling children, and
   * re-points the displaced value's handle to its child rather than reissuing it.
   */
  lemma InsertCollision<S>(t: Tree<S>, classify: (S, nat) -> Quadrant, s: S)
    requires Inv(t) && Insert(t, classify, s).1.Returned?
    requires Descend(t.spatial, classify, s, []) in t.spatial
    ensures var c := Descend(t.spatial, classify, s, []);
      var (t', r) := Insert(t, classify, s);
      var h := FindKey(t.handles, c, 0, t.next).value;
      var c1 := t'.handles[r.value];
      && h in t.handles && t.handles[h] == c && h in t'.handles
      && var c2 := t'.handles[h];
      && c1 != c2 && |c1| == |c2| > |c| && c1[..|c1| - 1] == c2[..|c2| - 1] && c1[..|c|] == c
      && c1 in t'.spatial && t'.spatial[c1] == Leaf(s) && c2 in t'.spatial && t'.spatial[c2] == t.spatial[c]
      && (forall i :: |c| <= i < |c1| ==> IsBranch(t'.spatial, c1[..i]))
  {
    var c := Descend(t.spatial, classify, s, []);
    CollisionResult(t, classify, s);
    SplitPath(t.spatial, classify, s, t.spatial[c].value, c);
  }

  // ----- insert keeps every leaf on its value's path -----

  /** Taking entries out of a map keeps every remaining leaf where it was. */
  lemma PlacedWithout<S>(sm: map<Key, Entry<S>>, d: set<Key>, classify: (S, nat) -> Quadrant)
    requires Placed(sm, classify)
    ensures Placed(sm - d, classify)
  {
    forall k | IsLeaf(sm - d, k)
      ensures Follows(k, classify, (sm - d)[k].value)
    {
      assert IsLeaf(sm, k);
    }
  }

  /** One more step along a value's path. */
  lemma FollowsStep<S>(k: Key, classify: (S, nat) -> Quadrant, s: S)
    requires Follows(k, classify, s)
    ensures Follows(k + [classify(s, |k|)], classify, s)
  {
    forall i | 0 <= i < |k| + 1
      ensures (k + [classify(s, |k|)])[i] == classify(s, i)
    {
      if i < |k| {
        assert (k + [classify(s, |k|)])[i] == k[i];
      }
    }
  }

  /**
   * The collision loop stores each point on its own path: it starts from a key both
   * points follow, goes down while they share a quadrant and parts them by quadrant.
   */
  lemma {:induction false} SubdividePlaced<S>(sm: map<Key, Entry<S>>, classify: (S, nat) -> Quadrant, s1: S, s2: S, c: Key)
    requires 1 <= |c| <= RESOLUTION && Placed(sm, classify)
    requires Follows(c, classify, s1) && Follows(c, classify, s2)
    ensures Placed(Subdivide(sm, classify, s1, s2, c).0, classify)
    decreases RESOLUTION - |c|
  {
    var sm1 := sm[c := Branch];
    forall k | IsLeaf(sm1, k)
      ensures Follows(k, classify, sm1[k].value)
    {
      assert IsLeaf(sm, k);
    }
    if |c| < RESOLUTION {
      var q1 := classify(s1, |c|);
      var q2 := classify(s2, |c|);
      FollowsStep(c, classify, s1);
      FollowsStep(c, classify, s2);
      if q1 == q2 {
        SubdividePlaced(sm1, classify, s1, s2, c + [q1]);
      } else {
        var sm' := sm1[c + [q1] := Leaf(s1)][c + [q2] := Leaf(s2)];
        forall k | IsLeaf(sm', k)
          ensures Follows(k, classify, sm'[k].value)
        {
          if k != c + [q1] && k != c + [q2] {
            assert IsLeaf(sm1, k);
          }
        }
      }
    }
  }

  /**
   * `insert` keeps every leaf on its value's path, whatever it ends with: the new
   * point is stored along its own quadrants, and a displaced value moves down its own.
   */
  lemma InsertKeepsPlaced<S>(t: Tree<S>, classify: (S, nat) -> Quadrant, s: S)
    requires ShallowBranches(t.spatial) && Placed(t.spatial, classify)
    ensures Placed(Insert(t, classify, s).0.spatial, classify)
  {
    var c := Descend(t.spatial, classify, s, []);
    if c in t.spatial {
      assert IsLeaf(t.spatial, c);
      SubdividePlaced(t.spatial, classify, s, t.spatial[c].value, c);
    } else {
      var sm' := t.spatial[c := Leaf(s)];
      forall k | IsLeaf(sm', k)
        ensures Follows(k, classify, sm'[k].value)
      {
        if k != c {
          assert IsLeaf(t.spatial, k);
        }
      }
    }
  }

  /**
   * On a collision, the leaf found at `c` lies on the displaced value's own path, so
   * classifying that value at depth `|c|` is classifying it within `c`'s region; the
   * handle re-pointed to it ends on that path too.
   */
  lemma InsertCollisionFollowsDisplaced<S>(t: Tree<S>, classify: (S, nat) -> Quadrant, s: S)
    requires Inv(t) && Placed(t.spatial, classify) && Insert(t, classify, s).1.Returned?
    requires Descend(t.spatial, classify, s, []) in t.spatial
    ensures var c := Descend(t.spatial, classify, s, []);
      var t' := Insert(t, classify, s).0;
      var h := FindKey(t.handles, c, 0, t.next).value;
      && IsLeaf(t.spatial, c) && Follows(c, classify, t.spatial[c].value)
      && h in t'.handles && Follows(t'.handles[h], classify, t.spatial[c].value)
  {
    var c := Descend(t.spatial, classify, s, []);
    InsertCollision(t, classify, s);
    InsertKeepsPlaced(t, classify, s);
    var t' := Insert(t, classify, s).0;
    var h := FindKey(t.handles, c, 0, t.next).value;
    assert IsLeaf(t'.spatial, t'.handles[h]);
  }
}
