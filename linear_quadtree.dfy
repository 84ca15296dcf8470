/**
 * The linear quadtree (`linear_quadtree.rs`) as a class: the spatial map and the
 * key map are fields that `insert` and `remove` update in place, loop by loop.
 * Each method is proved to end in the state the functions of `LinearQuadtreeSpec`
 * describe, so the lemmas of `LinearQuadtreeProofs` and `LinearQuadtreeRemoval`
 * carry over: the invariant is kept and every handle keeps reaching its value.
 */
module LinearQuadtree {
  import opened Wrappers
  import opened Quadrants
  import opened LinearQuadtreeSpec
  import opened LinearQuadtreeProofs
  import opened LinearQuadtreeRemoval

  class LinearQuadtree<S> {
    /** `spatial_map`: key to branch or leaf. */
    var spatialMap: map<Key, Entry<S>>
    /** `key_map`: handle to key. */
    var keyMap: map<Handle, Key>
    /** The handle the key map issues next. */
    var nextHandle: Handle
    /** The quadrant of a point at a depth: the domain bounds and `find_quadrant`. */
    const classify: (S, nat) -> Quadrant

    function State(): Tree<S>
      reads this
    {
      Tree(spatialMap, keyMap, nextHandle)
    }

    /** The state's invariant, and every leaf on its value's path. */
    ghost predicate Valid()
      reads this
    {
      Inv(State()) && Placed(spatialMap, classify)
    }

    /** `new`: both maps empty. */
    constructor (classify: (S, nat) -> Quadrant)
      ensures State() == Tree(map[], map[], 0) && this.classify == classify
      ensures Valid()
    {
      spatialMap := map[];
      keyMap := map[];
      nextHandle := 0;
      this.classify := classify;
    }

    /** `SlotMap::insert`: issue the next handle for `k`. */
    method IssueHandle(k: Key) returns (h: Handle)
      modifies this
      ensures h == old(nextHandle) && keyMap == old(keyMap)[h := k] && nextHandle == h + 1
      ensures spatialMap == old(spatialMap)
    {
      h := nextHandle;
      keyMap := keyMap[h := k];
      nextHandle := nextHandle + 1;
    }

    /**
     * `insert`: descend through branches along the point's quadrants; store it at
     * the first vacant key, or split a collision with the leaf found there.
     */
    method Insert(s: S) returns (r: Outcome<Handle>)
      requires ShallowBranches(spatialMap)
      modifies this
      ensures (State(), r) == LinearQuadtreeSpec.Insert(old(State()), classify, s)
      ensures old(Valid()) && r.Returned? ==> Valid()
    {
      ghost var t := State();
      var child := DescendKey(s);
      if child !in spatialMap {
        spatialMap := spatialMap[child := Leaf(s)];
        var h := IssueHandle(child);
        r := Returned(h);
        assert State() == Tree(t.spatial[child := Leaf(s)], t.handles[t.next := child], t.next + 1);
      } else {
        var s2 := spatialMap[child].value;
        var invalid := FindKeyInKeymap(child);
        if invalid.None? {
          r := Panicked;
        } else {
          var split := SplitCollision(s, s2, child);
          ghost var sm := spatialMap;
          assert (sm, split) == Subdivide(t.spatial, classify, s, t.spatial[child].value, child);
          if split.None? {
            r := Panicked;
            assert State() == Tree(sm, t.handles, t.next);
          } else {
            keyMap := keyMap[invalid.value := split.value.second];
            var h := IssueHandle(split.value.first);
            r := Returned(h);
            assert State() == Tree(sm, t.handles[invalid.value := split.value.second][t.next := split.value.first], t.next + 1);
          }
        }
      }
      assert (State(), r) == LinearQuadtreeSpec.Insert(t, classify, s);
      if Inv(t) && Placed(t.spatial, classify) && r.Returned? {
        InsertKeepsInv(t, classify, s);
        InsertKeepsPlaced(t, classify, s);
      }
    }

    /** The descent of `insert`: step into the point's quadrant while the child is a branch. */
    method DescendKey(s: S) returns (child: Key)
      requires ShallowBranches(spatialMap)
      ensures child == Descend(spatialMap, classify, s, [])
    {
      var ret: Key := [];
      while IsBranch(spatialMap, ret + [classify(s, |ret|)])
        invariant |ret| < RESOLUTION
        invariant Descend(spatialMap, classify, s, ret) == Descend(spatialMap, classify, s, [])
        decreases RESOLUTION - |ret|
      {
        ret := ret + [classify(s, |ret|)];
      }
      child := ret + [classify(s, |ret|)];
    }

    /**
     * The collision loop of `insert`: turn `c` into a branch and go down while both
     * points share a quadrant; store each in its own child once they part.
     */
    method SplitCollision(s1: S, s2: S, c: Key) returns (split: Option<Split>)
      requires 1 <= |c| <= RESOLUTION
      modifies this
      ensures (spatialMap, split) == Subdivide(old(spatialMap), classify, s1, s2, c)
      ensures keyMap == old(keyMap) && nextHandle == old(nextHandle)
    {
      var child := c;
      while |child| < RESOLUTION && classify(s1, |child|) == classify(s2, |child|)
        invariant 1 <= |child| <= RESOLUTION
        invariant Subdivide(spatialMap, classify, s1, s2, child) == Subdivide(old(spatialMap), classify, s1, s2, c)
        invariant keyMap == old(keyMap) && nextHandle == old(nextHandle)
        decreases RESOLUTION - |child|
      {
        spatialMap := spatialMap[child := Branch];
        child := child + [classify(s1, |child|)];
      }
      spatialMap := spatialMap[child := Branch];
      if |child| == RESOLUTION {
        split := None;
      } else {
        var child1 := child + [classify(s1, |child|)];
        var child2 := child + [classify(s2, |child|)];
        spatialMap := spatialMap[child1 := Leaf(s1)][child2 := Leaf(s2)];
        split := Some(Split(child1, child2));
      }
    }

    /** `find_key_in_keymap`: the first live handle, in slot order, mapped to `k`. */
    method FindKeyInKeymap(k: Key) returns (r: Option<Handle>)
      ensures r == FindKey(keyMap, k, 0, nextHandle)
    {
      var i := 0;
      while i < nextHandle
        invariant i <= nextHandle
        invariant FindKey(keyMap, k, i, nextHandle) == FindKey(keyMap, k, 0, nextHandle)
      {
        if i in keyMap && keyMap[i] == k {
          return Some(i);
        }
        i := i + 1;
      }
      return None;
    }

    /** `num_child`: the leaves at or below `k`, counted recursively through branches. */
    method NumChildOf(k: Key) returns (n: nat)
      requires |k| <= RESOLUTION
      ensures n == NumChild(spatialMap, k)
      decreases RESOLUTION - |k|
    {
      if k !in spatialMap {
        return 0;
      } else if spatialMap[k].Leaf? {
        return 1;
      } else if |k| == RESOLUTION {
        return 0;
      }
      n := 0;
      for i := 0 to 4
        invariant n == ChildSum(spatialMap, k, i)
      {
        var c := NumChildOf(k + [QUADRANTS[i]]);
        n := n + c;
      }
    }

    /**
     * `remove`: drop the handle and its entry and return the value; when the entry
     * had exactly one leaf sibling and no branch sibling, detach the sibling and
     * move its value up to the highest emptied branch, re-pointing its handle.
     */
    method Remove(h: Handle) returns (r: Outcome<Option<S>>)
      requires Shaped(spatialMap)
      modifies this
      ensures (State(), r) == LinearQuadtreeSpec.Remove(old(State()), h)
      ensures old(Valid()) ==> Valid()
    {
      if Valid() {
        RemoveKeepsInv(State(), h);
        RemoveKeepsPlaced(State(), h, classify);
      }
      if h !in keyMap {
        return Returned(None);
      }
      var k := keyMap[h];
      keyMap := keyMap - {h};
      var entry := if k in spatialMap then Some(spatialMap[k]) else None;
      spatialMap := spatialMap - {k};
      if entry.None? || entry.value.Branch? {
        return Returned(None);
      }
      var s := entry.value.value;
      var census := CountSiblings(k);
      if census.branch || census.leaves != 1 || |k| <= 1 {
        return Returned(Some(s));
      }
      var found := DetachSiblings(k);
      if found.None? {
        return Panicked;
      }
      var invalid := FindKeyInKeymap(found.value.0);
      if invalid.None? {
        return Panicked;
      }
      var target := Compact(k[..|k| - 1], found.value.1);
      keyMap := keyMap[invalid.value := target];
      r := Returned(Some(s));
    }

    /** The first sibling loop of `remove`: count leaf siblings, notice a branch sibling. */
    method CountSiblings(k: Key) returns (census: Census)
      requires 1 <= |k|
      ensures census == SiblingCensus(spatialMap, k, |QUADRANTS|)
    {
      var childCount := 0;
      var relocate := true;
      for i := 0 to 4
        invariant Census(childCount, !relocate) == SiblingCensus(spatialMap, k, i)
      {
        var quadrant := QUADRANTS[i];
        if quadrant != k[|k| - 1] {
          var sibling := k[..|k| - 1] + [quadrant];
          if sibling in spatialMap {
            if spatialMap[sibling].Branch? {
              relocate := false;
            } else {
              childCount := childCount + 1;
            }
          }
        }
      }
      census := Census(childCount, !relocate);
    }

    /** The second sibling loop of `remove`: take every sibling out, keep the last leaf. */
    method DetachSiblings(k: Key) returns (found: Option<(Key, S)>)
      requires 1 <= |k|
      modifies this
      ensures (spatialMap, found) == Detach(old(spatialMap), k, |QUADRANTS|)
      ensures keyMap == old(keyMap) && nextHandle == old(nextHandle)
    {
      found := None;
      for i := 0 to 4
        invariant (spatialMap, found) == Detach(old(spatialMap), k, i)
        invariant keyMap == old(keyMap) && nextHandle == old(nextHandle)
      {
        var quadrant := QUADRANTS[i];
        if quadrant != k[|k| - 1] {
          var sibling := k[..|k| - 1] + [quadrant];
          if sibling in spatialMap && spatialMap[sibling].Leaf? {
            found := Some((sibling, spatialMap[sibling].value));
          }
          spatialMap := spatialMap - {sibling};
        }
      }
    }

    /**
     * The compaction loop of `remove`, as intended: drop the emptied branch; while
     * its parent holds nothing, climb; store the moved value at the last key dropped.
     */
    method Compact(parent: Key, moved: S) returns (target: Key)
      requires 1 <= |parent| <= RESOLUTION
      modifies this
      ensures (spatialMap, target) == Climb(old(spatialMap), parent, moved)
      ensures keyMap == old(keyMap) && nextHandle == old(nextHandle)
    {
      var p := parent;
      assert spatialMap - {p} - {p} == spatialMap - {p};
      spatialMap := spatialMap - {p};
      var climbing := false;
      if |p| > 1 {
        var n := NumChildOf(p[..|p| - 1]);
        climbing := n == 0;
      }
      while climbing
        invariant 1 <= |p| <= RESOLUTION && p !in spatialMap
        invariant climbing <==> |p| > 1 && NumChild(spatialMap, p[..|p| - 1]) == 0
        invariant Climb(spatialMap, p, moved) == Climb(old(spatialMap), parent, moved)
        invariant keyMap == old(keyMap) && nextHandle == old(nextHandle)
        decreases |p|
      {
        assert spatialMap - {p} == spatialMap;
        p := p[..|p| - 1];
        assert spatialMap - {p} - {p} == spatialMap - {p};
        spatialMap := spatialMap - {p};
        climbing := false;
        if |p| > 1 {
          var n := NumChildOf(p[..|p| - 1]);
          climbing := n == 0;
        }
      }
      assert spatialMap - {p} == spatialMap;
      spatialMap := spatialMap[p := Leaf(moved)];
      target := p;
    }

    /** `values`: the value of every live handle, in slot order. */
    method Values() returns (ret: seq<S>)
      requires Valid()
      ensures ret == ValuesUpTo(State(), nextHandle)
    {
      ret := [];
      var i := 0;
      while i < nextHandle
        invariant i <= nextHandle && ret == ValuesUpTo(State(), i)
      {
        if i in keyMap && spatialMap[keyMap[i]].Leaf? {
          ret := ret + [spatialMap[keyMap[i]].value];
        }
        i := i + 1;
      }
    }

    /** `bounds`: one entry per stored key, branches included, in no particular order. */
    method BoundsKeys() returns (ret: seq<Key>)
      ensures |ret| == |spatialMap|
      ensures forall k :: k in ret <==> k in spatialMap
    {
      ret := [];
      var remaining := spatialMap.Keys;
      while remaining != {}
        invariant remaining <= spatialMap.Keys
        invariant |ret| + |remaining| == |spatialMap|
        invariant forall k :: k in ret <==> k in spatialMap && k !in remaining
        decreases |remaining|
      {
        var k :| k in remaining;
        ret := ret + [k];
        remaining := remaining - {k};
      }
    }

    /** `bounds_no_branch`: the key of every live handle, in slot order. */
    method BoundsNoBranchKeys() returns (ret: seq<Key>)
      ensures ret == KeysUpTo(State(), nextHandle)
      ensures |ret| == |HandlesBelow(State(), nextHandle)|
      ensures forall k :: k in ret <==> exists h :: h in keyMap && h < nextHandle && keyMap[h] == k
    {
      ret := [];
      var i := 0;
      while i < nextHandle
        invariant i <= nextHandle && ret == KeysUpTo(State(), i)
        invariant |ret| == |HandlesBelow(State(), i)|
        invariant forall k :: k in ret <==> exists h :: h in keyMap && h < i && keyMap[h] == k
      {
        if i in keyMap {
          assert HandlesBelow(State(), i + 1) == HandlesBelow(State(), i) + {i};
          ret := ret + [keyMap[i]];
        } else {
          assert HandlesBelow(State(), i + 1) == HandlesBelow(State(), i);
        }
        i := i + 1;
      }
    }
  }
}
