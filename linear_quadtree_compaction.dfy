/**
 * The compaction loop of `remove` as written, on two small trees that satisfy the
 * invariant: on the first it points the moved value's handle at a key that is no
 * longer stored, on the second it stores a leaf above a surviving entry. On both,
 * the intended compaction leaves a valid state.
 */
module LinearQuadtreeCompaction {
  import opened Wrappers
  import opened Quadrants
  import opened LinearQuadtreeSpec
  import opened LinearQuadtreeRemoval
  import LinearQuadtreeProofs

  /**
   * Two leaves that share every quadrant down to level 2: the branch at [BL] holds
   * only the branch at [BL, BL], which holds both leaves.
   */
  function DeepPair(): Tree<int> {
    Tree(map[[BL] := Branch, [BL, BL] := Branch, [BL, BL, BL] := Leaf(1), [BL, BL, BR] := Leaf(2)],
         map[0 := [BL, BL, BL], 1 := [BL, BL, BR]], 2)
  }

  /** `DeepPair` with a third leaf beside [BL, BL], so that [BL] still holds a leaf. */
  function DeepPairWithCousin(): Tree<int> {
    Tree(map[[BL] := Branch, [BL, BL] := Branch, [BL, BR] := Leaf(3), [BL, BL, BL] := Leaf(1), [BL, BL, BR] := Leaf(2)],
         map[0 := [BL, BL, BL], 1 := [BL, BL, BR], 2 := [BL, BR]], 3)
  }

  lemma DeepPairInv()
    ensures Inv(DeepPair())
  {
    DeepPairPrefixClosed();
    DeepPairDense();
    DeepPairConsistent();
  }

  lemma DeepPairPrefixClosed()
    ensures PrefixClosed(DeepPair().spatial)
  {
    var sm := DeepPair().spatial;
    forall k, i | k in sm && 1 <= i < |k|
      ensures IsBranch(sm, k[..i])
    {
      assert k[..i] == [BL] || k[..i] == [BL, BL];
    }
  }

  lemma DeepPairDense()
    ensures Dense(DeepPair().spatial)
  {
    var sm := DeepPair().spatial;
    forall b | b in sm && sm[b].Branch?
      ensures |LeavesUnder(sm, b)| >= 2
    {
      assert [BL, BL, BL][..|b|] == b && [BL, BL, BR][..|b|] == b;
      assert {[BL, BL, BL], [BL, BL, BR]} <= LeavesUnder(sm, b);
      LinearQuadtreeProofs.SubsetCard({[BL, BL, BL], [BL, BL, BR]}, LeavesUnder(sm, b));
    }
  }

  lemma DeepPairConsistent()
    ensures Consistent(DeepPair())
  {
    var sm := DeepPair().spatial;
    var handles := DeepPair().handles;
    forall k | IsLeaf(sm, k)
      ensures k in handles.Values
    {
      assert handles[if k == [BL, BL, BL] then 0 else 1] == k;
    }
  }

  lemma CousinInv()
    ensures Inv(DeepPairWithCousin())
  {
    CousinPrefixClosed();
    CousinDense();
    CousinConsistent();
  }

  lemma CousinPrefixClosed()
    ensures PrefixClosed(DeepPairWithCousin().spatial)
  {
    var sm := DeepPairWithCousin().spatial;
    forall k, i | k in sm && 1 <= i < |k|
      ensures IsBranch(sm, k[..i])
    {
      assert k[..i] == [BL] || k[..i] == [BL, BL];
    }
  }

  lemma CousinDense()
    ensures Dense(DeepPairWithCousin().spatial)
  {
    var sm := DeepPairWithCousin().spatial;
    forall b | b in sm && sm[b].Branch?
      ensures |LeavesUnder(sm, b)| >= 2
    {
      assert [BL, BL, BL][..|b|] == b && [BL, BL, BR][..|b|] == b;
      assert {[BL, BL, BL], [BL, BL, BR]} <= LeavesUnder(sm, b);
      LinearQuadtreeProofs.SubsetCard({[BL, BL, BL], [BL, BL, BR]}, LeavesUnder(sm, b));
    }
  }

  lemma CousinConsistent()
    ensures Consistent(DeepPairWithCousin())
  {
    var sm := DeepPairWithCousin().spatial;
    var handles := DeepPairWithCousin().handles;
    forall k | IsLeaf(sm, k)
      ensures k in handles.Values
    {
      assert handles[if k == [BL, BL, BL] then 0 else if k == [BL, BL, BR] then 1 else 2] == k;
    }
  }

  /** Around [BL, BL, BL] in `DeepPair`, the census finds the one leaf sibling [BL, BL, BR]. */
  lemma DeepPairCensus(sm: map<Key, Entry<int>>, k: Key)
    requires sm == DeepPair().spatial - {[BL, BL, BL]} && k == [BL, BL, BL]
    ensures SiblingCensus(sm, k, 4) == Census(1, false)
  {
    CensusCounts(sm, k, 4);
    assert Sibling(k, BR) == [BL, BL, BR];
    assert QUADRANTS[..4] == [BL, BR, TL, TR];
    assert Sibling(k, TL) !in sm && Sibling(k, TR) !in sm;
    assert LeafSiblings(sm, k, 4) == {BR};
  }

  /** Around [BL, BL, BL] in `DeepPairWithCousin`, the census also finds only [BL, BL, BR]. */
  lemma CousinCensus(sm: map<Key, Entry<int>>, k: Key)
    requires sm == DeepPairWithCousin().spatial - {[BL, BL, BL]} && k == [BL, BL, BL]
    ensures SiblingCensus(sm, k, 4) == Census(1, false)
  {
    CensusCounts(sm, k, 4);
    assert Sibling(k, BR) == [BL, BL, BR];
    assert QUADRANTS[..4] == [BL, BR, TL, TR];
    assert Sibling(k, TL) !in sm && Sibling(k, TR) !in sm;
    assert LeafSiblings(sm, k, 4) == {BR};
  }

  /**
   * Removing handle 0 from `DeepPair` detaches the sibling [BL, BL, BR], owned by
   * handle 1, and starts the compaction loop from [BL, BL] with its value 2.
   */
  lemma DeepPairStart(t: Tree<int>)
    requires t == DeepPair()
    ensures BeginRemove(t, 0)
      == Relocating(Tree(t.spatial - {[BL, BL, BL], [BL, BL, BR]}, t.handles - {0}, t.next), [BL, BL], 2, 1, 1)
  {
    var k := t.handles[0];
    DeepPairInv();
    DeepPairCensus(t.spatial - {k}, k);
    RelocationStart(t, 0);
    assert BeginRemove(t, 0).handle == 1;
  }

  /** Removing handle 0 from `DeepPairWithCousin` starts the same way. */
  lemma CousinStart(t: Tree<int>)
    requires t == DeepPairWithCousin()
    ensures BeginRemove(t, 0)
      == Relocating(Tree(t.spatial - {[BL, BL, BL], [BL, BL, BR]}, t.handles - {0}, t.next), [BL, BL], 2, 1, 1)
  {
    var k := t.handles[0];
    CousinInv();
    CousinCensus(t.spatial - {k}, k);
    RelocationStart(t, 0);
    assert BeginRemove(t, 0).handle == 1;
  }

  /** A branch with no stored children counts no leaves. */
  lemma {:induction false} ChildSumVacant<S>(sm: map<Key, Entry<S>>, k: Key, n: nat)
    requires |k| < RESOLUTION && n <= 4
    requires forall q :: k + [q] !in sm
    ensures ChildSum(sm, k, n) == 0
  {
    if n > 0 {
      ChildSumVacant(sm, k, n - 1);
      assert k + [QUADRANTS[n - 1]] !in sm;
    }
  }

  /** Once the pair and [BL, BL] are gone from `DeepPair`, [BL] holds nothing. */
  lemma DeepPairEmptied(sm: map<Key, Entry<int>>)
    requires sm == DeepPair().spatial - {[BL, BL, BL], [BL, BL, BR]} - {[BL, BL]}
    ensures NumChild(sm, [BL]) == 0
  {
    forall q
      ensures [BL] + [q] !in sm
    {
      assert |[BL] + [q]| == 2;
    }
    ChildSumVacant(sm, [BL], 4);
  }

  /** Once the pair and [BL, BL] are gone from `DeepPairWithCousin`, [BL] still holds [BL, BR]. */
  lemma CousinNotEmptied(sm: map<Key, Entry<int>>)
    requires sm == DeepPairWithCousin().spatial - {[BL, BL, BL], [BL, BL, BR]} - {[BL, BL]}
    ensures NumChild(sm, [BL]) == 1
  {
    assert [BL] + [BR] == [BL, BR] && [BL, BR] in sm && sm[[BL, BR]] == Leaf(3);
    assert [BL] + [BL] == [BL, BL] && [BL, BL] !in sm;
    assert [BL] + [TL] == [BL, TL] && [BL, TL] !in sm;
    assert [BL] + [TR] == [BL, TR] && [BL, TR] !in sm;
  }

  /** From [BL, BL] in `DeepPair`, the intended loop climbs to [BL] and places the value there. */
  lemma DeepPairClimb(sm: map<Key, Entry<int>>)
    requires sm == DeepPair().spatial - {[BL, BL, BL], [BL, BL, BR]}
    ensures var (sm', target) := Climb(sm, [BL, BL], 2);
      target == [BL] && [BL] in sm' && sm'[[BL]] == Leaf(2)
  {
    DeepPairEmptied(sm - {[BL, BL]});
    assert [BL, BL][..1] == [BL];
  }

  /** From [BL, BL] in `DeepPair`, the loop as written places the value at [BL] and answers [BL, BL]. */
  lemma DeepPairClimbAsWritten(sm: map<Key, Entry<int>>)
    requires sm == DeepPair().spatial - {[BL, BL, BL], [BL, BL, BR]}
    ensures var (sm', target) := ClimbAsWritten(sm, [BL, BL], 2);
      target == [BL, BL] && target !in sm' && [BL] in sm' && sm'[[BL]] == Leaf(2)
  {
    DeepPairEmptied(sm - {[BL, BL]});
    assert [BL, BL][..1] == [BL];
  }

  /** From [BL, BL] in `DeepPairWithCousin`, the intended loop stops at once. */
  lemma CousinClimb(sm: map<Key, Entry<int>>)
    requires sm == DeepPairWithCousin().spatial - {[BL, BL, BL], [BL, BL, BR]}
    ensures var (sm', target) := Climb(sm, [BL, BL], 2);
      && target == [BL, BL] && sm'[[BL, BL]] == Leaf(2)
      && [BL] in sm' && sm'[[BL]] == Branch
  {
    CousinNotEmptied(sm - {[BL, BL]});
    assert [BL, BL][..1] == [BL];
  }

  /**
   * From [BL, BL] in `DeepPairWithCousin`, the loop as written climbs to [BL] and
   * makes it a leaf, while [BL, BR] stays.
   */
  lemma CousinClimbAsWritten(sm: map<Key, Entry<int>>)
    requires sm == DeepPairWithCousin().spatial - {[BL, BL, BL], [BL, BL, BR]}
    ensures var (sm', target) := ClimbAsWritten(sm, [BL, BL], 2);
      && [BL] in sm' && sm'[[BL]] == Leaf(2)
      && [BL, BR] in sm' && sm'[[BL, BR]] == Leaf(3)
  {
    CousinNotEmptied(sm - {[BL, BL]});
    assert [BL, BL][..1] == [BL];
    assert [BL, BR] != [BL];
  }

  /**
   * As written, `remove` of handle 0 from `DeepPair` moves the value 2 to [BL] but
   * points its handle at [BL, BL], which the same loop deleted: the handle dangles.
   */
  lemma RemoveAsWrittenDangles(t: Tree<int>)
    requires t == DeepPair()
    ensures Inv(t)
    ensures var (t', r) := RemoveAsWritten(t, 0);
      && r == Returned(Some(1))
      && [BL] in t'.spatial && t'.spatial[[BL]] == Leaf(2)
      && 1 in t'.handles && t'.handles[1] == [BL, BL] && [BL, BL] !in t'.spatial
      && !Consistent(t')
  {
    DeepPairInv();
    DeepPairStart(t);
    DeepPairClimbAsWritten(t.spatial - {[BL, BL, BL], [BL, BL, BR]});
  }

  /** The intended compaction on `DeepPair` moves the value 2 and its handle to [BL]. */
  lemma RemoveFollowsMovedValue(t: Tree<int>)
    requires t == DeepPair()
    ensures var (t', r) := Remove(t, 0);
      && r == Returned(Some(1))
      && [BL] in t'.spatial && t'.spatial[[BL]] == Leaf(2)
      && 1 in t'.handles && t'.handles[1] == [BL]
      && Inv(t')
  {
    DeepPairInv();
    DeepPairStart(t);
    DeepPairClimb(t.spatial - {[BL, BL, BL], [BL, BL, BR]});
    RemoveKeepsInv(t, 0);
  }

  /**
   * As written, `remove` of handle 0 from `DeepPairWithCousin` climbs past [BL, BL]
   * because [BL] still holds a leaf, and stores the value 2 as a leaf at [BL], above
   * the surviving leaf [BL, BR]: the invariant is broken.
   */
  lemma RemoveAsWrittenBuriesLeaf(t: Tree<int>)
    requires t == DeepPairWithCousin()
    ensures Inv(t)
    ensures var (t', r) := RemoveAsWritten(t, 0);
      && r == Returned(Some(1))
      && [BL] in t'.spatial && t'.spatial[[BL]] == Leaf(2)
      && [BL, BR] in t'.spatial && t'.spatial[[BL, BR]] == Leaf(3)
      && !PrefixClosed(t'.spatial)
  {
    CousinInv();
    CousinStart(t);
    CousinClimbAsWritten(t.spatial - {[BL, BL, BL], [BL, BL, BR]});
    assert [BL, BR][..1] == [BL];
  }

  /** The intended compaction on `DeepPairWithCousin` stops at [BL, BL], where handle 1 follows. */
  lemma RemoveKeepsCousin(t: Tree<int>)
    requires t == DeepPairWithCousin()
    ensures var (t', r) := Remove(t, 0);
      && r == Returned(Some(1))
      && [BL] in t'.spatial && t'.spatial[[BL]] == Branch
      && [BL, BL] in t'.spatial && t'.spatial[[BL, BL]] == Leaf(2)
      && 1 in t'.handles && t'.handles[1] == [BL, BL]
      && Inv(t')
  {
    CousinInv();
    CousinStart(t);
    CousinClimb(t.spatial - {[BL, BL, BL], [BL, BL, BR]});
    RemoveKeepsInv(t, 0);
  }
}
