/**
 * The linear quadtree (`linear_quadtree.rs`) as functions on its state.
 *
 * A key is a path of quadrants from the root (its level is its length, at most
 * RESOLUTION); the spatial map sends keys to `Branch` or `Leaf(s)`, and the key
 * map sends stable handles to keys. The floating-point `find_quadrant` of a point
 * at a given depth is a parameter `classify`.
 *
 * Each loop of the source is a recursive function here, written so that one call
 * is one iteration; the class in `linear_quadtree.dfy` runs the loops and is
 * proved equal to these functions.
 */
module LinearQuadtreeSpec {
  import opened Wrappers
  import opened Quadrants

  /** The deepest level a key can have. */
  const RESOLUTION: nat := 12

  type Key = seq<Quadrant>
  type Handle = nat

  datatype Entry<S> = Branch | Leaf(value: S)

  /** Both maps and the next unused handle; handles are never reissued. */
  datatype Tree<S> = Tree(spatial: map<Key, Entry<S>>, handles: map<Handle, Key>, next: Handle)

  /** What an operation ends with: a value, or a panic. */
  datatype Outcome<T> = Returned(value: T) | Panicked

  /** The two sibling keys a collision ends at. */
  datatype Split = Split(first: Key, second: Key)

  /** Sibling classification: how many siblings are leaves, and whether one is a branch. */
  datatype Census = Census(leaves: nat, branch: bool)

  /** Where `remove` stands once the removed entry is gone. */
  datatype Removal<S> =
    | Done(tree: Tree<S>, result: Outcome<Option<S>>)
    | Relocating(tree: Tree<S>, parent: Key, moved: S, handle: Handle, removed: S)

  // ----- the state's invariant -----

  predicate IsLeaf<S>(sm: map<Key, Entry<S>>, k: Key) {
    k in sm && sm[k].Leaf?
  }

  predicate IsBranch<S>(sm: map<Key, Entry<S>>, k: Key) {
    k in sm && sm[k].Branch?
  }

  /** Every stored key has a level in 1..RESOLUTION, and branches sit above the last level. */
  predicate Shaped<S>(sm: map<Key, Entry<S>>) {
    forall k :: k in sm ==> 1 <= |k| <= RESOLUTION && (sm[k].Branch? ==> |k| < RESOLUTION)
  }

  /** Every proper non-root prefix of a stored key is a stored branch. */
  predicate PrefixClosed<S>(sm: map<Key, Entry<S>>) {
    forall k, i :: k in sm && 1 <= i < |k| ==> IsBranch(sm, k[..i])
  }

  /** The leaf keys strictly below `b`. */
  ghost function LeavesUnder<S>(sm: map<Key, Entry<S>>, b: Key): set<Key> {
    set k | k in sm && sm[k].Leaf? && |b| < |k| && k[..|b|] == b
  }

  /** The leaf keys at or below `b`: what `num_child` counts. */
  ghost function LeavesAtOrUnder<S>(sm: map<Key, Entry<S>>, b: Key): set<Key> {
    set k | k in sm && sm[k].Leaf? && |b| <= |k| && k[..|b|] == b
  }

  /** Every branch separates at least two leaves. */
  ghost predicate Dense<S>(sm: map<Key, Entry<S>>) {
    forall b :: b in sm && sm[b].Branch? ==> |LeavesUnder(sm, b)| >= 2
  }

  ghost function LeafKeys<S>(sm: map<Key, Entry<S>>): set<Key> {
    set k | k in sm && sm[k].Leaf?
  }

  /** Live handles are below `next`, point at leaves, one handle per leaf. */
  ghost predicate Consistent<S>(t: Tree<S>) {
    && (forall h :: h in t.handles ==> h < t.next && IsLeaf(t.spatial, t.handles[h]))
    && (forall h1, h2 :: h1 in t.handles && h2 in t.handles && t.handles[h1] == t.handles[h2] ==> h1 == h2)
    && (forall k :: IsLeaf(t.spatial, k) ==> k in t.handles.Values)
  }

  ghost predicate Inv<S>(t: Tree<S>) {
    Shaped(t.spatial) && PrefixClosed(t.spatial) && Dense(t.spatial) && Consistent(t)
  }

  /** `k` is the path of `s`'s quadrants from the root, down to `k`'s level. */
  ghost predicate Follows<S>(k: Key, classify: (S, nat) -> Quadrant, s: S) {
    forall i :: 0 <= i < |k| ==> k[i] == classify(s, i)
  }

  /**
   * Every leaf sits on its own value's quadrant path (and so, with `Consistent`,
   * does the key of every live handle). This is what lets `insert` classify the
   * displaced value of a collision with the bounds the new point's descent reached.
   */
  ghost predicate Placed<S>(sm: map<Key, Entry<S>>, classify: (S, nat) -> Quadrant) {
    forall k :: IsLeaf(sm, k) ==> Follows(k, classify, sm[k].value)
  }

  predicate ShallowBranches<S>(sm: map<Key, Entry<S>>) {
    forall b :: b in sm && sm[b].Branch? ==> |b| < RESOLUTION
  }

  // ----- num_child -----

  /**
   * `num_child`: 0 for an absent key, 1 for a leaf, and for a branch the sum over
   * the children `child` can produce.
   */
  function NumChild<S>(sm: map<Key, Entry<S>>, k: Key): nat
    requires |k| <= RESOLUTION
    decreases RESOLUTION - |k|, 5
  {
    if k !in sm then 0
    else if sm[k].Leaf? then 1
    else if |k| < RESOLUTION then ChildSum(sm, k, |QUADRANTS|)
    else 0
  }

  /** The loop of `num_child` after its first `n` quadrants. */
  function ChildSum<S>(sm: map<Key, Entry<S>>, k: Key, n: nat): nat
    requires |k| < RESOLUTION && n <= 4
    decreases RESOLUTION - |k|, n
  {
    if n == 0 then 0 else ChildSum(sm, k, n - 1) + NumChild(sm, k + [QUADRANTS[n - 1]])
  }

  // ----- find_key_in_keymap -----

  /** The first handle in `from..to` that maps to `k`. */
  function FindKey(handles: map<Handle, Key>, k: Key, from: nat, to: nat): (r: Option<Handle>)
    ensures r.Some? ==> from <= r.value < to && r.value in handles && handles[r.value] == k
    ensures r.Some? ==> (forall h :: from <= h < r.value ==> !(h in handles && handles[h] == k))
    ensures r.None? ==> (forall h :: from <= h < to ==> !(h in handles && handles[h] == k))
    decreases if from <= to then to - from else 0
  {
    if from >= to then None
    else if from in handles && handles[from] == k then Some(from)
    else FindKey(handles, k, from + 1, to)
  }

  // ----- insert -----

  /**
   * The descent of `insert`: from `k`, step into the point's quadrant while the
   * child is a branch; stop at the first child that is absent or a leaf.
   */
  function Descend<S>(sm: map<Key, Entry<S>>, classify: (S, nat) -> Quadrant, s: S, k: Key): (c: Key)
    requires |k| < RESOLUTION && ShallowBranches(sm)
    ensures |k| < |c| <= RESOLUTION && c[..|k|] == k
    ensures !IsBranch(sm, c)
    ensures forall i :: |k| <= i < |c| ==> c[i] == classify(s, i)
    ensures forall i :: |k| < i < |c| ==> IsBranch(sm, c[..i])
    decreases RESOLUTION - |k|
  {
    var child := k + [classify(s, |k|)];
    if IsBranch(sm, child) then
      var c := Descend(sm, classify, s, child);
      assert c[..|k|] == c[..|child|][..|k|];
      c
    else child
  }

  /**
   * The collision loop of `insert`: mark `c` a branch; while both points fall into
   * the same quadrant go one level down; once they part, store each in its own
   * child. At the last level `child` fails and the loop panics.
   */
  function Subdivide<S>(sm: map<Key, Entry<S>>, classify: (S, nat) -> Quadrant, s1: S, s2: S, c: Key)
    : (r: (map<Key, Entry<S>>, Option<Split>))
    requires 1 <= |c| <= RESOLUTION
    decreases RESOLUTION - |c|
  {
    var sm1 := sm[c := Branch];
    var q1 := classify(s1, |c|);
    var q2 := classify(s2, |c|);
    if |c| == RESOLUTION then (sm1, None)
    else if q1 == q2 then Subdivide(sm1, classify, s1, s2, c + [q1])
    else (sm1[c + [q1] := Leaf(s1)][c + [q2] := Leaf(s2)], Some(Split(c + [q1], c + [q2])))
  }

  /**
   * `insert`: the new tree, and the fresh handle or a panic. A collision re-points
   * the displaced value's handle to its new key and issues one handle for `s`.
   */
  function Insert<S>(t: Tree<S>, classify: (S, nat) -> Quadrant, s: S): (r: (Tree<S>, Outcome<Handle>))
    requires ShallowBranches(t.spatial)
  {
    var c := Descend(t.spatial, classify, s, []);
    if c !in t.spatial then
      (Tree(t.spatial[c := Leaf(s)], t.handles[t.next := c], t.next + 1), Returned(t.next))
    else
      var invalid := FindKey(t.handles, c, 0, t.next);
      if invalid.None? then (t, Panicked)
      else
        var (sm, split) := Subdivide(t.spatial, classify, s, t.spatial[c].value, c);
        if split.None? then (Tree(sm, t.handles, t.next), Panicked)
        else
          var handles := t.handles[invalid.value := split.value.second][t.next := split.value.first];
          (Tree(sm, handles, t.next + 1), Returned(t.next))
  }

  // ----- remove -----

  /** The key with the same parent as `k` and last quadrant `q`: `parent.child(q)`. */
  function Sibling(k: Key, q: Quadrant): (r: Key)
    requires 1 <= |k|
    ensures |r| == |k| && r[..|k| - 1] == k[..|k| - 1] && r[|k| - 1] == q
  {
    k[..|k| - 1] + [q]
  }

  /** The sibling loop of `remove` over the first `n` entries of QUADRANTS. */
  function SiblingCensus<S>(sm: map<Key, Entry<S>>, k: Key, n: nat): Census
    requires 1 <= |k| && n <= 4
    decreases n
  {
    if n == 0 then Census(0, false)
    else
      var c := SiblingCensus(sm, k, n - 1);
      var q := QUADRANTS[n - 1];
      var sibling := Sibling(k, q);
      if q == k[|k| - 1] || sibling !in sm then c
      else if sm[sibling].Branch? then Census(c.leaves, true)
      else Census(c.leaves + 1, c.branch)
  }

  /**
   * The second sibling loop of `remove`: every sibling entry in the first `n`
   * quadrants is taken out, and the last leaf among them is remembered.
   */
  function Detach<S>(sm: map<Key, Entry<S>>, k: Key, n: nat): (r: (map<Key, Entry<S>>, Option<(Key, S)>))
    requires 1 <= |k| && n <= 4
    decreases n
  {
    if n == 0 then (sm, None)
    else
      var (sm0, found) := Detach(sm, k, n - 1);
      var q := QUADRANTS[n - 1];
      var sibling := Sibling(k, q);
      if q == k[|k| - 1] then (sm0, found)
      else if IsLeaf(sm0, sibling) then (sm0 - {sibling}, Some((sibling, sm0[sibling].value)))
      else (sm0 - {sibling}, found)
  }

  /**
   * `remove` up to the compaction loop. A stale handle changes nothing; otherwise
   * the handle and its entry go, and the value is returned unless the entry was a
   * branch. The lone leaf sibling of a key below level 1 is detached for relocation.
   */
  function BeginRemove<S>(t: Tree<S>, h: Handle): Removal<S>
    requires Shaped(t.spatial)
  {
    if h !in t.handles then Done(t, Returned(None))
    else
      var k := t.handles[h];
      var handles := t.handles - {h};
      var sm := t.spatial - {k};
      if !IsLeaf(t.spatial, k) then Done(Tree(sm, handles, t.next), Returned(None))
      else
        var s := t.spatial[k].value;
        var census := SiblingCensus(sm, k, |QUADRANTS|);
        if census.branch || census.leaves != 1 || |k| <= 1 then
          Done(Tree(sm, handles, t.next), Returned(Some(s)))
        else
          var (sm2, found) := Detach(sm, k, |QUADRANTS|);
          if found.None? then Done(Tree(sm2, handles, t.next), Panicked)
          else
            var invalid := FindKey(handles, found.value.0, 0, t.next);
            if invalid.None? then Done(Tree(sm2, handles, t.next), Panicked)
            else Relocating(Tree(sm2, handles, t.next), k[..|k| - 1], found.value.1, invalid.value, s)
  }

  /**
   * The compaction loop as intended: drop the emptied branch `p`; while its parent
   * holds nothing else, climb; place the moved value at the highest emptied key.
   * Returns the new map and the key the value now sits at.
   */
  function Climb<S>(sm: map<Key, Entry<S>>, p: Key, s: S): (r: (map<Key, Entry<S>>, Key))
    requires 1 <= |p| <= RESOLUTION
    decreases |p|
  {
    var sm1 := sm - {p};
    if |p| == 1 then (sm1[p := Leaf(s)], p)
    else
      var pp := p[..|p| - 1];
      if NumChild(sm1, pp) == 0 then Climb(sm1, pp, s) else (sm1[p := Leaf(s)], p)
  }

  /**
   * The compaction loop as written: when the grandparent is empty the value goes
   * to the grandparent but the handle to `p`; otherwise the loop climbs and deletes
   * the grandparent next. Returns the new map and the key the handle is pointed at.
   */
  function ClimbAsWritten<S>(sm: map<Key, Entry<S>>, p: Key, s: S): (r: (map<Key, Entry<S>>, Key))
    requires 1 <= |p| <= RESOLUTION
    decreases |p|
  {
    var sm1 := sm - {p};
    if |p| == 1 then (sm1[p := Leaf(s)], p)
    else
      var pp := p[..|p| - 1];
      if NumChild(sm1, pp) == 0 then (sm1[pp := Leaf(s)], p) else ClimbAsWritten(sm1, pp, s)
  }

  /** `remove` with the intended compaction: the handle follows the moved value. */
  function Remove<S>(t: Tree<S>, h: Handle): (Tree<S>, Outcome<Option<S>>)
    requires Shaped(t.spatial)
  {
    match BeginRemove(t, h)
    case Done(t1, r) => (t1, r)
    case Relocating(t1, p, moved, mh, s) =>
      var (sm, target) := Climb(t1.spatial, p, moved);
      (Tree(sm, t1.handles[mh := target], t1.next), Returned(Some(s)))
  }

  /** `remove` with the compaction loop as written. */
  function RemoveAsWritten<S>(t: Tree<S>, h: Handle): (Tree<S>, Outcome<Option<S>>)
    requires Shaped(t.spatial)
  {
    match BeginRemove(t, h)
    case Done(t1, r) => (t1, r)
    case Relocating(t1, p, moved, mh, s) =>
      var (sm, target) := ClimbAsWritten(t1.spatial, p, moved);
      (Tree(sm, t1.handles[mh := target], t1.next), Returned(Some(s)))
  }

  // ----- bounds_no_branch -----

  /** The keys of the live handles below `n`, in handle order. */
  function KeysUpTo<S>(t: Tree<S>, n: nat): seq<Key>
    decreases n
  {
    if n == 0 then []
    else
      var h := n - 1;
      KeysUpTo(t, h) + if h in t.handles then [t.handles[h]] else []
  }

  // ----- values -----

  /** `values`: the leaf values of the live handles below `n`, in handle order. */
  function ValuesUpTo<S>(t: Tree<S>, n: nat): seq<S>
    requires forall h :: h in t.handles ==> t.handles[h] in t.spatial
    decreases n
  {
    if n == 0 then []
    else
      var h := n - 1;
      ValuesUpTo(t, h) + if h in t.handles && t.spatial[t.handles[h]].Leaf? then [t.spatial[t.handles[h]].value] else []
  }
}
