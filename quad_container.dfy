/**
 * The `Quadtree` of `quad.rs`: a slot-map container of points beside the root
 * node of `Quad`, kept in step by `try_insert`, `remove` and `rebuild_tree`.
 */
module QuadContainer {
  import opened Quadrants
  import opened Quad

  /** The shape a root keeps between operations: depth, bucket sizes, keys and placement. */
  ghost predicate Consistent<P>(n: Node, c: map<SlotKey, P>, locate: (P, Region) -> Quadrant)
  {
    Bounded(n, 0) && Saturation(n, 0) && KeysIn(n, c) && Placed(n, c, locate, [])
  }

  /** A container entry under a fresh key leaves the root consistent. */
  lemma AddKeepsConsistent<P>(n: Node, c: map<SlotKey, P>, locate: (P, Region) -> Quadrant, key: SlotKey, data: P)
    requires Consistent(n, c, locate) && key !in c
    ensures Consistent(n, c[key := data], locate)
  {
    KeysInWiden(n, c, c[key := data]);
    PlacedTransfer(n, c, c[key := data], locate, []);
  }

  /** Inserting a container key into a consistent root keeps it consistent. */
  lemma InsertKeepsConsistent<P>(n: Node, key: SlotKey, c: map<SlotKey, P>, locate: (P, Region) -> Quadrant)
    requires Consistent(n, c, locate) && key in c
    ensures Consistent(Insert(n, key, c, locate, []), c, locate)
  {
    InsertKeepsPlaced(n, key, c, locate, []);
    InsertKeepsSaturation(n, key, c, locate, []);
  }

  /** Inserting a key not yet stored into a root holding a set of keys gives a root holding that set and the key. */
  lemma InsertAddsKey<P>(n: Node, key: SlotKey, c: map<SlotKey, P>, locate: (P, Region) -> Quadrant, done: set<SlotKey>)
    requires Consistent(n, c, locate) && key in c && Stored(n) == multiset(done) && key !in done
    ensures Stored(Insert(n, key, c, locate, [])) == multiset(done + {key})
  {
    InsertStored(n, key, c, locate, []);
    assert multiset(done + {key}) == multiset(done) + multiset{key};
  }

  /** One copy of the same element taken from two equal multisets leaves equal multisets. */
  lemma Cancel(a: multiset<SlotKey>, b: multiset<SlotKey>, x: SlotKey)
    requires a + multiset{x} == b + multiset{x}
    ensures a == b
  {
    forall y
      ensures a[y] == b[y]
    {
      assert (a + multiset{x})[y] == (b + multiset{x})[y];
    }
  }

  /**
   * Removing a point from a root that holds exactly the container's keys
   * returns a key exactly when the point is in the container, and the root
   * left holds exactly the keys that remain once that key is dropped.
   */
  lemma RemoveKeepsStored<P>(n: Node, p: P, c: map<SlotKey, P>, locate: (P, Region) -> Quadrant)
    requires Consistent(n, c, locate) && Stored(n) == multiset(c.Keys)
    ensures var (r, key) := Quad.Remove(n, p, c, locate, []);
      && (key.Some? <==> exists k :: k in c && c[k] == p)
      && (key.Some? ==> key.value in c && Stored(r) == multiset((c - {key.value}).Keys))
  {
    var (r, key) := Quad.Remove(n, p, c, locate, []);
    RemoveFindsContained(n, p, c, locate, []);
    ContainsIffStored(n, p, c, locate, []);
    RemoveStored(n, p, c, locate, []);
    if key.Some? {
      var gone := key.value;
      assert multiset(c.Keys) == multiset((c - {gone}).Keys) + multiset{gone};
      Cancel(Stored(r), multiset((c - {gone}).Keys), gone);
    }
  }

  /** What removal leaves is consistent with the container less the returned key. */
  lemma RemoveKeepsConsistent<P>(n: Node, p: P, c: map<SlotKey, P>, locate: (P, Region) -> Quadrant)
    requires Consistent(n, c, locate) && Stored(n) == multiset(c.Keys)
    ensures var (r, key) := Quad.Remove(n, p, c, locate, []);
      Consistent(r, if key.Some? then c - {key.value} else c, locate)
  {
    var (r, key) := Quad.Remove(n, p, c, locate, []);
    RemoveKeepsShape(n, p, c, locate, []);
    RemoveKeepsKeysIn(n, p, c, locate, []);
    RemoveKeepsPlaced(n, p, c, locate, []);
    if key.Some? {
      RemoveKeepsStored(n, p, c, locate);
      KeysInOfMembers(r, c - {key.value});
      PlacedTransfer(r, c, c - {key.value}, locate, []);
    }
  }

  /** Moving one key from the pending part of a split set to its done part keeps the split. */
  lemma MoveKey(pending: set<SlotKey>, done: set<SlotKey>, all: set<SlotKey>, key: SlotKey)
    requires pending + done == all && pending !! done && key in pending
    ensures (pending - {key}) + (done + {key}) == all && (pending - {key}) !! (done + {key})
    ensures key in all && key !in done && |pending - {key}| < |pending|
  {
  }

  /**
   * The loop of `rebuild_tree`: starting from an empty node, insert every key
   * of the container, in whatever order the container yields them.
   */
  method Rebuild<P>(c: map<SlotKey, P>, locate: (P, Region) -> Quadrant) returns (n: Node)
    ensures Consistent(n, c, locate) && Stored(n) == multiset(c.Keys)
  {
    n := Empty;
    var pending := c.Keys;
    ghost var done: set<SlotKey> := {};
    while pending != {}
      invariant pending + done == c.Keys && pending !! done
      invariant Stored(n) == multiset(done)
      invariant Consistent(n, c, locate)
      decreases |pending|
    {
      var key :| key in pending;
      MoveKey(pending, done, c.Keys, key);
      InsertKeepsConsistent(n, key, c, locate);
      InsertAddsKey(n, key, c, locate, done);
      n := Insert(n, key, c, locate, []);
      pending := pending - {key};
      done := done + {key};
    }
    assert done == c.Keys;
  }

  /**
   * The invariant of a `Quadtree`, on its values: the root is consistent with
   * the container, holds each of its keys once, every key was issued before
   * `nextKey`, and every point lies within the root bounds.
   */
  ghost predicate Tracks<P>(root: Node, container: map<SlotKey, P>, nextKey: SlotKey, within: P -> bool,
                            locate: (P, Region) -> Quadrant)
  {
    && Consistent(root, container, locate)
    && Stored(root) == multiset(container.Keys)
    && (forall k :: k in container ==> k < nextKey && within(container[k]))
  }

  /** A point within the bounds under the next fresh key keeps every key issued and within. */
  lemma FreshKeyIssued<P>(container: map<SlotKey, P>, nextKey: SlotKey, within: P -> bool, data: P, c: map<SlotKey, P>)
    requires forall k :: k in container ==> k < nextKey && within(container[k])
    requires within(data) && c == container[nextKey := data]
    ensures forall k :: k in c ==> k < nextKey + 1 && within(c[k])
  {
  }

  /** The step of `try_insert` for a point within the bounds keeps the invariant. */
  lemma InsertKeepsTracks<P>(root: Node, container: map<SlotKey, P>, nextKey: SlotKey, within: P -> bool,
                             locate: (P, Region) -> Quadrant, data: P)
    requires Tracks(root, container, nextKey, within, locate) && within(data)
    ensures KeysIn(root, container[nextKey := data])
    ensures Tracks(Insert(root, nextKey, container[nextKey := data], locate, []), container[nextKey := data], nextKey + 1,
                   within, locate)
  {
    var c := container[nextKey := data];
    assert nextKey !in container;
    AddKeepsConsistent(root, container, locate, nextKey, data);
    InsertKeepsConsistent(root, nextKey, c, locate);
    assert c.Keys == container.Keys + {nextKey};
    InsertAddsKey(root, nextKey, c, locate, container.Keys);
    FreshKeyIssued(container, nextKey, within, data, c);
  }

  /**
   * `Quadtree`: the slot-map container of points, the root node and the root
   * bounds. `within` is `is_point_within` on the root bounds; `locate` is
   * `find_quadrant` on the rectangle of a region.
   */
  class Quadtree<P(==)> {
    var container: map<SlotKey, P>
    var root: Node
    /** The key the container issues next; keys are never reused. */
    var nextKey: SlotKey
    const within: P -> bool
    const locate: (P, Region) -> Quadrant

    /** The tree holds every container key once, each where its point falls. */
    ghost predicate Valid()
      reads this
    {
      Tracks(root, container, nextKey, within, locate)
    }

    /** `new`: an empty container and an empty root. */
    constructor (within: P -> bool, locate: (P, Region) -> Quadrant)
      ensures container == map[] && root == Empty && nextKey == 0
      ensures this.within == within && this.locate == locate
      ensures Valid()
    {
      container := map[];
      root := Empty;
      nextKey := 0;
      this.within := within;
      this.locate := locate;
    }

    /**
     * `try_insert` (and `insert`, which calls it): a point outside the root
     * bounds is ignored; otherwise it gets a fresh key and the root takes it.
     */
    method TryInsert(data: P)
      requires Valid()
      modifies this
      ensures Valid()
      ensures !within(data) ==> container == old(container) && root == old(root) && nextKey == old(nextKey)
      ensures within(data) ==>
        && container == old(container)[old(nextKey) := data] && nextKey == old(nextKey) + 1
        && KeysIn(old(root), container) && root == Insert(old(root), old(nextKey), container, locate, [])
    {
      if !within(data) {
        return;
      }
      InsertKeepsTracks(root, container, nextKey, within, locate, data);
      var c := container[nextKey := data];
      root := Insert(root, nextKey, c, locate, []);
      container, nextKey := c, nextKey + 1;
    }

    /** `contains`: false outside the root bounds, otherwise the root's answer. */
    method Contains(p: P) returns (b: bool)
      requires Valid()
      ensures b <==> exists k :: k in container && container[k] == p
    {
      ContainsIffStored(root, p, container, locate, []);
      if !within(p) {
        b := false;
      } else {
        b := Quad.Contains(root, p, container, locate, []);
      }
    }

    /** `remove`: remove the point from the tree and, if a key came back, from the container. */
    method Remove(p: P)
      requires Valid()
      modifies this
      ensures Valid()
      ensures var (r, key) := Quad.Remove(old(root), p, old(container), locate, []);
        && root == r && nextKey == old(nextKey)
        && (key.Some? ==> container == old(container) - {key.value})
        && (key.None? ==> container == old(container))
      ensures (exists k :: k in old(container) && old(container)[k] == p) <==> |container| == |old(container)| - 1
    {
      RemoveKeepsStored(root, p, container, locate);
      RemoveKeepsConsistent(root, p, container, locate);
      var r, key := RemoveFrom(root, p, container, locate, []);
      root := r;
      if key.Some? {
        container := container - {key.value};
      }
    }

    /** `rebuild_tree`: empty the root and insert every key of the container again. */
    method RebuildTree()
      requires Valid()
      modifies this
      ensures Valid()
      ensures container == old(container) && nextKey == old(nextKey)
    {
      root := Rebuild(container, locate);
    }

    /** `bounds`: the rectangles of the root's non-empty nodes. */
    method Bounds() returns (ret: seq<Region>)
      ensures ret == Quad.Bounds(root, []) && |ret| == Occupied(root)
    {
      ret := Quad.Bounds(root, []);
      BoundsCount(root, []);
    }

    /** `bounds_with_type`: the same rectangles, tagged with their node kinds. */
    method BoundsWithType() returns (ret: seq<(Region, BoundType)>)
      ensures ret == Quad.BoundsWithType(root, [])
      ensures Regions(ret) == Quad.Bounds(root, []) && |ret| == Occupied(root)
    {
      ret := Quad.BoundsWithType(root, []);
      BoundsWithTypeAgrees(root, []);
      BoundsCount(root, []);
    }
  }
}
