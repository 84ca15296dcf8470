/**
 * The pointer quadtree of `quad.rs`: a tree of `Empty`, `Leaf`, `Branch` and
 * `Saturated` nodes holding keys of a slot-map container of points.
 *
 * A node's rectangle is named by its region, the path of quadrants from the
 * root; `locate(p, region)` is the quadrant of that rectangle a point falls in
 * (`find_quadrant` on the sub-bounds of the region). Recursion depth `r_lvl`
 * always equals the length of the region, so it is read off the region.
 */
module Quad {
  import opened Wrappers
  import opened Quadrants

  /** `MAX_RECURCION`: the depth at which a collision saturates instead of splitting. */
  const MAX_RECURSION: nat := 8

  /** A key of the point container. */
  type SlotKey = nat

  /** A rectangle of the tree, as the quadrants taken from the root bounds. */
  type Region = seq<Quadrant>

  datatype Node =
    | Saturated(keys: seq<SlotKey>)
    | Branch(tl: Node, tr: Node, bl: Node, br: Node)
    | Leaf(key: SlotKey)
    | Empty

  /** `BoundType`: the kind of node a rectangle of `bounds_with_type` came from. */
  datatype BoundType = LeafBound | SaturatedBound | BranchBound

  // ----- structure -----

  function Size(n: Node): (s: nat)
    ensures s >= 1
  {
    match n
    case Branch(tl, tr, bl, br) => 1 + Size(tl) + Size(tr) + Size(bl) + Size(br)
    case _ => 1
  }

  /** The child of a branch in quadrant `q`. */
  function Child(n: Node, q: Quadrant): (r: Node)
    requires n.Branch?
    ensures Size(r) < Size(n)
  {
    match q
    case TL => n.tl
    case TR => n.tr
    case BL => n.bl
    case BR => n.br
  }

  /** The branch `n` with its child in quadrant `q` replaced by `m`. */
  function WithChild(n: Node, q: Quadrant, m: Node): (r: Node)
    requires n.Branch?
    ensures r.Branch? && Child(r, q) == m
    ensures q != TL ==> r.tl == n.tl
    ensures q != TR ==> r.tr == n.tr
    ensures q != BL ==> r.bl == n.bl
    ensures q != BR ==> r.br == n.br
  {
    match q
    case TL => n.(tl := m)
    case TR => n.(tr := m)
    case BL => n.(bl := m)
    case BR => n.(br := m)
  }

  /** The keys a subtree holds, with multiplicity. */
  function Stored(n: Node): multiset<SlotKey>
  {
    match n
    case Saturated(v) => multiset(v)
    case Branch(tl, tr, bl, br) => Stored(tl) + Stored(tr) + Stored(bl) + Stored(br)
    case Leaf(k) => multiset{k}
    case Empty => multiset{}
  }

  /** Every key the subtree holds is a key of the container. */
  ghost predicate KeysIn<P>(n: Node, c: map<SlotKey, P>)
  {
    match n
    case Saturated(v) => forall i :: 0 <= i < |v| ==> v[i] in c
    case Branch(tl, tr, bl, br) => KeysIn(tl, c) && KeysIn(tr, c) && KeysIn(bl, c) && KeysIn(br, c)
    case Leaf(k) => k in c
    case Empty => true
  }

  /** Every key under `m` belongs to a point that falls in quadrant `q` of `region`. */
  ghost predicate Under<P>(m: Node, c: map<SlotKey, P>, locate: (P, Region) -> Quadrant, region: Region, q: Quadrant)
  {
    match m
    case Saturated(v) => forall i :: 0 <= i < |v| ==> v[i] in c && locate(c[v[i]], region) == q
    case Branch(tl, tr, bl, br) =>
      Under(tl, c, locate, region, q) && Under(tr, c, locate, region, q)
      && Under(bl, c, locate, region, q) && Under(br, c, locate, region, q)
    case Leaf(k) => k in c && locate(c[k], region) == q
    case Empty => true
  }

  /** Branches only above MAX_RECURSION: a subtree at depth `d` reaches no deeper than it. */
  ghost predicate Bounded(n: Node, d: nat)
  {
    d <= MAX_RECURSION &&
    match n
    case Branch(tl, tr, bl, br) =>
      d < MAX_RECURSION && Bounded(tl, d + 1) && Bounded(tr, d + 1) && Bounded(bl, d + 1) && Bounded(br, d + 1)
    case _ => true
  }

  /** A saturated bucket sits at MAX_RECURSION and holds at least two keys. */
  ghost predicate Saturation(n: Node, d: nat)
  {
    match n
    case Saturated(v) => d == MAX_RECURSION && |v| >= 2
    case Branch(tl, tr, bl, br) =>
      Saturation(tl, d + 1) && Saturation(tr, d + 1) && Saturation(bl, d + 1) && Saturation(br, d + 1)
    case _ => true
  }

  /** Every key sits in the child its point falls in, at every branch. */
  ghost predicate Placed<P>(n: Node, c: map<SlotKey, P>, locate: (P, Region) -> Quadrant, region: Region)
  {
    match n
    case Branch(tl, tr, bl, br) =>
      && Under(tl, c, locate, region, TL) && Placed(tl, c, locate, region + [TL])
      && Under(tr, c, locate, region, TR) && Placed(tr, c, locate, region + [TR])
      && Under(bl, c, locate, region, BL) && Placed(bl, c, locate, region + [BL])
      && Under(br, c, locate, region, BR) && Placed(br, c, locate, region + [BR])
    case _ => true
  }

  // ----- one quadrant at a time -----

  lemma KeysInBranch<P>(n: Node, c: map<SlotKey, P>)
    requires n.Branch?
    ensures KeysIn(n, c) <==> forall q :: KeysIn(Child(n, q), c)
  {
    if KeysIn(n, c) {
      forall q ensures KeysIn(Child(n, q), c) {
        match q
        case TL =>
        case TR =>
        case BL =>
        case BR =>
      }
    }
    if forall q :: KeysIn(Child(n, q), c) {
      assert KeysIn(Child(n, TL), c) && KeysIn(Child(n, TR), c);
      assert KeysIn(Child(n, BL), c) && KeysIn(Child(n, BR), c);
    }
  }

  lemma UnderBranch<P>(n: Node, c: map<SlotKey, P>, locate: (P, Region) -> Quadrant, region: Region, q: Quadrant)
    requires n.Branch?
    ensures Under(n, c, locate, region, q) <==> forall q' :: Under(Child(n, q'), c, locate, region, q)
  {
    if Under(n, c, locate, region, q) {
      forall q' ensures Under(Child(n, q'), c, locate, region, q) {
        match q'
        case TL =>
        case TR =>
        case BL =>
        case BR =>
      }
    }
    if forall q' :: Under(Child(n, q'), c, locate, region, q) {
      assert Under(Child(n, TL), c, locate, region, q) && Under(Child(n, TR), c, locate, region, q);
      assert Under(Child(n, BL), c, locate, region, q) && Under(Child(n, BR), c, locate, region, q);
    }
  }

  lemma BoundedBranch(n: Node, d: nat)
    requires n.Branch?
    ensures Bounded(n, d) <==> d < MAX_RECURSION && forall q :: Bounded(Child(n, q), d + 1)
  {
    if Bounded(n, d) {
      forall q ensures Bounded(Child(n, q), d + 1) {
        match q
        case TL =>
        case TR =>
        case BL =>
        case BR =>
      }
    }
    if d < MAX_RECURSION && forall q :: Bounded(Child(n, q), d + 1) {
      assert Bounded(Child(n, TL), d + 1) && Bounded(Child(n, TR), d + 1);
      assert Bounded(Child(n, BL), d + 1) && Bounded(Child(n, BR), d + 1);
    }
  }

  lemma SaturationBranch(n: Node, d: nat)
    requires n.Branch?
    ensures Saturation(n, d) <==> forall q :: Saturation(Child(n, q), d + 1)
  {
    if Saturation(n, d) {
      forall q ensures Saturation(Child(n, q), d + 1) {
        match q
        case TL =>
        case TR =>
        case BL =>
        case BR =>
      }
    }
    if forall q :: Saturation(Child(n, q), d + 1) {
      assert Saturation(Child(n, TL), d + 1) && Saturation(Child(n, TR), d + 1);
      assert Saturation(Child(n, BL), d + 1) && Saturation(Child(n, BR), d + 1);
    }
  }

  lemma PlacedBranch<P>(n: Node, c: map<SlotKey, P>, locate: (P, Region) -> Quadrant, region: Region)
    requires n.Branch?
    ensures Placed(n, c, locate, region) <==>
      forall q :: Under(Child(n, q), c, locate, region, q) && Placed(Child(n, q), c, locate, region + [q])
  {
    if Placed(n, c, locate, region) {
      forall q ensures Under(Child(n, q), c, locate, region, q) && Placed(Child(n, q), c, locate, region + [q]) {
        match q
        case TL =>
        case TR =>
        case BL =>
        case BR =>
      }
    }
    if forall q :: Under(Child(n, q), c, locate, region, q) && Placed(Child(n, q), c, locate, region + [q]) {
      assert Under(Child(n, TL), c, locate, region, TL) && Placed(Child(n, TL), c, locate, region + [TL]);
      assert Under(Child(n, TR), c, locate, region, TR) && Placed(Child(n, TR), c, locate, region + [TR]);
      assert Under(Child(n, BL), c, locate, region, BL) && Placed(Child(n, BL), c, locate, region + [BL]);
      assert Under(Child(n, BR), c, locate, region, BR) && Placed(Child(n, BR), c, locate, region + [BR]);
    }
  }

  // The same facts for the one child a step goes down into, and for the branch
  // rebuilt around a new child.

  lemma KeysInChild<P>(n: Node, q: Quadrant, c: map<SlotKey, P>)
    requires n.Branch? && KeysIn(n, c)
    ensures KeysIn(Child(n, q), c)
  {
    match q
    case TL =>
    case TR =>
    case BL =>
    case BR =>
  }

  lemma KeysInWithChild<P>(n: Node, q: Quadrant, m: Node, c: map<SlotKey, P>)
    requires n.Branch? && KeysIn(n, c) && KeysIn(m, c)
    ensures KeysIn(WithChild(n, q, m), c)
  {
    match q
    case TL =>
    case TR =>
    case BL =>
    case BR =>
  }

  lemma BoundedChild(n: Node, q: Quadrant, d: nat)
    requires n.Branch? && Bounded(n, d)
    ensures d < MAX_RECURSION && Bounded(Child(n, q), d + 1)
  {
    match q
    case TL =>
    case TR =>
    case BL =>
    case BR =>
  }

  lemma BoundedWithChild(n: Node, q: Quadrant, m: Node, d: nat)
    requires n.Branch? && Bounded(n, d) && Bounded(m, d + 1)
    ensures Bounded(WithChild(n, q, m), d)
  {
    match q
    case TL =>
    case TR =>
    case BL =>
    case BR =>
  }

  lemma SaturationChild(n: Node, q: Quadrant, d: nat)
    requires n.Branch? && Saturation(n, d)
    ensures Saturation(Child(n, q), d + 1)
  {
    match q
    case TL =>
    case TR =>
    case BL =>
    case BR =>
  }

  lemma SaturationWithChild(n: Node, q: Quadrant, m: Node, d: nat)
    requires n.Branch? && Saturation(n, d) && Saturation(m, d + 1)
    ensures Saturation(WithChild(n, q, m), d)
  {
    match q
    case TL =>
    case TR =>
    case BL =>
    case BR =>
  }

  lemma UnderChild<P>(n: Node, q': Quadrant, c: map<SlotKey, P>, locate: (P, Region) -> Quadrant, region: Region, q: Quadrant)
    requires n.Branch? && Under(n, c, locate, region, q)
    ensures Under(Child(n, q'), c, locate, region, q)
  {
    match q'
    case TL =>
    case TR =>
    case BL =>
    case BR =>
  }

  lemma UnderWithChild<P>(n: Node, q': Quadrant, m: Node, c: map<SlotKey, P>, locate: (P, Region) -> Quadrant, region: Region, q: Quadrant)
    requires n.Branch? && Under(n, c, locate, region, q) && Under(m, c, locate, region, q)
    ensures Under(WithChild(n, q', m), c, locate, region, q)
  {
    match q'
    case TL =>
    case TR =>
    case BL =>
    case BR =>
  }

  lemma PlacedChild<P>(n: Node, q: Quadrant, c: map<SlotKey, P>, locate: (P, Region) -> Quadrant, region: Region)
    requires n.Branch? && Placed(n, c, locate, region)
    ensures Under(Child(n, q), c, locate, region, q) && Placed(Child(n, q), c, locate, region + [q])
  {
    match q
    case TL =>
    case TR =>
    case BL =>
    case BR =>
  }

  lemma PlacedWithChild<P>(n: Node, q: Quadrant, m: Node, c: map<SlotKey, P>, locate: (P, Region) -> Quadrant, region: Region)
    requires n.Branch? && Placed(n, c, locate, region)
    requires Under(m, c, locate, region, q) && Placed(m, c, locate, region + [q])
    ensures Placed(WithChild(n, q, m), c, locate, region)
  {
    match q
    case TL =>
    case TR =>
    case BL =>
    case BR =>
  }

  /** Replacing one child changes the stored keys by that child's difference. */
  lemma StoredWithChild(n: Node, q: Quadrant, m: Node)
    requires n.Branch?
    ensures Stored(WithChild(n, q, m)) + Stored(Child(n, q)) == Stored(n) + Stored(m)
  {
    match q
    case TL => assert WithChild(n, q, m) == Branch(m, n.tr, n.bl, n.br);
    case TR => assert WithChild(n, q, m) == Branch(n.tl, m, n.bl, n.br);
    case BL => assert WithChild(n, q, m) == Branch(n.tl, n.tr, m, n.br);
    case BR => assert WithChild(n, q, m) == Branch(n.tl, n.tr, n.bl, m);
  }

  /** A child that gains keys makes its branch gain the same keys. */
  lemma StoredGrows(n: Node, q: Quadrant, m: Node, extra: multiset<SlotKey>)
    requires n.Branch? && Stored(m) == Stored(Child(n, q)) + extra
    ensures Stored(WithChild(n, q, m)) == Stored(n) + extra
  {
    match q
    case TL => assert WithChild(n, q, m) == Branch(m, n.tr, n.bl, n.br);
    case TR => assert WithChild(n, q, m) == Branch(n.tl, m, n.bl, n.br);
    case BL => assert WithChild(n, q, m) == Branch(n.tl, n.tr, m, n.br);
    case BR => assert WithChild(n, q, m) == Branch(n.tl, n.tr, n.bl, m);
  }

  /** A key stored in a branch is stored in one of its children. */
  lemma StoredInChild(n: Node, k: SlotKey) returns (q: Quadrant)
    requires n.Branch? && k in Stored(n)
    ensures k in Stored(Child(n, q))
  {
    if k in Stored(n.tl) {
      q := TL;
    } else if k in Stored(n.tr) {
      q := TR;
    } else if k in Stored(n.bl) {
      q := BL;
    } else {
      q := BR;
    }
  }

  /** `KeysIn` says of the stored keys what its name says. */
  lemma {:induction false} KeysInMember<P>(n: Node, c: map<SlotKey, P>, k: SlotKey)
    requires KeysIn(n, c) && k in Stored(n)
    ensures k in c
    decreases Size(n)
  {
    match n
    case Branch(_, _, _, _) =>
      var q := StoredInChild(n, k);
      KeysInBranch(n, c);
      KeysInMember(Child(n, q), c, k);
    case _ =>
  }

  /** `Under` says of the stored keys what its name says. */
  lemma {:induction false} UnderMember<P>(m: Node, c: map<SlotKey, P>, locate: (P, Region) -> Quadrant, region: Region, q: Quadrant, k: SlotKey)
    requires Under(m, c, locate, region, q) && k in Stored(m)
    ensures k in c && locate(c[k], region) == q
    decreases Size(m)
  {
    match m
    case Branch(_, _, _, _) =>
      var q' := StoredInChild(m, k);
      UnderBranch(m, c, locate, region, q);
      UnderMember(Child(m, q'), c, locate, region, q, k);
    case _ =>
  }

  /** Conversely, a subtree whose stored keys are all in the container has `KeysIn`. */
  lemma {:induction false} KeysInOfMembers<P>(n: Node, c: map<SlotKey, P>)
    requires forall k :: k in Stored(n) ==> k in c
    ensures KeysIn(n, c)
    decreases Size(n)
  {
    match n
    case Saturated(v) =>
      forall i | 0 <= i < |v| ensures v[i] in c {
        assert v[i] in multiset(v);
      }
    case Branch(_, _, _, _) =>
      forall q ensures KeysIn(Child(n, q), c) {
        forall k | k in Stored(Child(n, q)) ensures k in c {
          StoredWithChild(n, q, Empty);
        }
        KeysInOfMembers(Child(n, q), c);
      }
      KeysInBranch(n, c);
    case _ =>
  }

  // ----- insert -----

  /** `new_branch`: a branch of four empty children. */
  function NewBranch(): (r: Node)
    ensures r.Branch? && forall q :: Child(r, q) == Empty
    ensures Stored(r) == multiset{}
  {
    Branch(Empty, Empty, Empty, Empty)
  }

  /**
   * `insert`: an empty node takes the key, a saturated one appends it, a branch
   * passes it to the child its point falls in. A leaf at MAX_RECURSION saturates
   * into `[key, other]`; above it the leaf becomes a fresh branch and both keys
   * are inserted one level down by their quadrants.
   */
  function Insert<P>(n: Node, k: SlotKey, c: map<SlotKey, P>, locate: (P, Region) -> Quadrant, region: Region): (r: Node)
    requires k in c && KeysIn(n, c) && Bounded(n, |region|)
    ensures Bounded(r, |region|) && KeysIn(r, c)
    decreases MAX_RECURSION - |region|, 1
  {
    match n
    case Saturated(v) =>
      assert forall i :: 0 <= i < |v| ==> (v + [k])[i] == v[i];
      Saturated(v + [k])
    case Branch(_, _, _, _) =>
      var q := locate(c[k], region);
      InsertInBranch(n, k, q, c, locate, region)
    case Leaf(other) =>
      if |region| == MAX_RECURSION then
        Saturated([k, other])
      else
        var q1 := locate(c[k], region);
        var q2 := locate(c[other], region);
        KeysInBranch(NewBranch(), c);
        BoundedBranch(NewBranch(), |region|);
        var b := InsertInBranch(NewBranch(), k, q1, c, locate, region);
        if q1 == q2 then InsertInBranch(b, other, q1, c, locate, region)
        else InsertInBranch(b, other, q2, c, locate, region)
    case Empty => Leaf(k)
  }

  /**
   * `insert_in_branch`: insert the key into the child in quadrant `q`, one level
   * down; a node that is not a branch is left as it is.
   */
  function InsertInBranch<P>(n: Node, k: SlotKey, q: Quadrant, c: map<SlotKey, P>, locate: (P, Region) -> Quadrant, region: Region)
    : (r: Node)
    requires k in c && KeysIn(n, c) && Bounded(n, |region|)
    ensures Bounded(r, |region|) && KeysIn(r, c) && r.Branch? == n.Branch?
    ensures !n.Branch? ==> r == n
    decreases MAX_RECURSION - |region|, 0
  {
    if n.Branch? then
      KeysInChild(n, q, c);
      BoundedChild(n, q, |region|);
      var m := Insert(Child(n, q), k, c, locate, region + [q]);
      KeysInWithChild(n, q, m, c);
      BoundedWithChild(n, q, m, |region|);
      WithChild(n, q, m)
    else n
  }

  /** Insert adds the key once and keeps every key the node held. */
  lemma {:induction false} InsertStored<P>(n: Node, k: SlotKey, c: map<SlotKey, P>, locate: (P, Region) -> Quadrant, region: Region)
    requires k in c && KeysIn(n, c) && Bounded(n, |region|)
    ensures Stored(Insert(n, k, c, locate, region)) == Stored(n) + multiset{k}
    decreases MAX_RECURSION - |region|, 1
  {
    match n
    case Saturated(v) =>
      assert multiset(v + [k]) == multiset(v) + multiset{k};
    case Branch(_, _, _, _) =>
      InsertInBranchStored(n, k, locate(c[k], region), c, locate, region);
    case Leaf(other) =>
      if |region| < MAX_RECURSION {
        var q1 := locate(c[k], region);
        var q2 := locate(c[other], region);
        KeysInBranch(NewBranch(), c);
        BoundedBranch(NewBranch(), |region|);
        var b := InsertInBranch(NewBranch(), k, q1, c, locate, region);
        InsertInBranchStored(NewBranch(), k, q1, c, locate, region);
        InsertInBranchStored(b, other, q2, c, locate, region);
      }
    case Empty =>
  }

  lemma {:induction false} InsertInBranchStored<P>(n: Node, k: SlotKey, q: Quadrant, c: map<SlotKey, P>, locate: (P, Region) -> Quadrant, region: Region)
    requires k in c && KeysIn(n, c) && Bounded(n, |region|) && n.Branch?
    ensures Stored(InsertInBranch(n, k, q, c, locate, region)) == Stored(n) + multiset{k}
    decreases MAX_RECURSION - |region|, 0
  {
    KeysInChild(n, q, c);
    BoundedChild(n, q, |region|);
    InsertStored(Child(n, q), k, c, locate, region + [q]);
    StoredGrows(n, q, Insert(Child(n, q), k, c, locate, region + [q]), multiset{k});
  }

  /** Insert puts every key into the child its point falls in. */
  lemma {:induction false} InsertKeepsPlaced<P>(n: Node, k: SlotKey, c: map<SlotKey, P>, locate: (P, Region) -> Quadrant, region: Region)
    requires k in c && KeysIn(n, c) && Bounded(n, |region|) && Placed(n, c, locate, region)
    ensures Placed(Insert(n, k, c, locate, region), c, locate, region)
    decreases MAX_RECURSION - |region|, 1
  {
    match n
    case Branch(_, _, _, _) =>
      InsertInBranchKeepsPlaced(n, k, locate(c[k], region), c, locate, region);
    case Leaf(other) =>
      if |region| < MAX_RECURSION {
        var q1 := locate(c[k], region);
        var q2 := locate(c[other], region);
        KeysInBranch(NewBranch(), c);
        BoundedBranch(NewBranch(), |region|);
        PlacedBranch(NewBranch(), c, locate, region);
        var b := InsertInBranch(NewBranch(), k, q1, c, locate, region);
        InsertInBranchKeepsPlaced(NewBranch(), k, q1, c, locate, region);
        InsertInBranchKeepsPlaced(b, other, q2, c, locate, region);
      }
    case _ =>
  }

  lemma {:induction false} InsertInBranchKeepsPlaced<P>(n: Node, k: SlotKey, q: Quadrant, c: map<SlotKey, P>, locate: (P, Region) -> Quadrant, region: Region)
    requires k in c && KeysIn(n, c) && Bounded(n, |region|) && n.Branch?
    requires Placed(n, c, locate, region) && locate(c[k], region) == q
    ensures Placed(InsertInBranch(n, k, q, c, locate, region), c, locate, region)
    decreases MAX_RECURSION - |region|, 0
  {
    KeysInChild(n, q, c);
    BoundedChild(n, q, |region|);
    PlacedChild(n, q, c, locate, region);
    var m := Child(n, q);
    InsertKeepsPlaced(m, k, c, locate, region + [q]);
    InsertKeepsUnder(m, k, c, locate, region + [q], region, q);
    PlacedWithChild(n, q, Insert(m, k, c, locate, region + [q]), c, locate, region);
  }

  /** Insert keeps a subtree inside a quadrant when the new key's point falls in it too. */
  lemma {:induction false} InsertKeepsUnder<P>(m: Node, k: SlotKey, c: map<SlotKey, P>, locate: (P, Region) -> Quadrant, region: Region,
                                               above: Region, q: Quadrant)
    requires k in c && KeysIn(m, c) && Bounded(m, |region|)
    requires Under(m, c, locate, above, q) && locate(c[k], above) == q
    ensures Under(Insert(m, k, c, locate, region), c, locate, above, q)
    decreases MAX_RECURSION - |region|, 1
  {
    match m
    case Saturated(v) =>
      assert forall i :: 0 <= i < |v| ==> (v + [k])[i] == v[i];
    case Branch(_, _, _, _) =>
      InsertInBranchKeepsUnder(m, k, locate(c[k], region), c, locate, region, above, q);
    case Leaf(other) =>
      if |region| < MAX_RECURSION {
        var q1 := locate(c[k], region);
        var q2 := locate(c[other], region);
        KeysInBranch(NewBranch(), c);
        BoundedBranch(NewBranch(), |region|);
        UnderBranch(NewBranch(), c, locate, above, q);
        var b := InsertInBranch(NewBranch(), k, q1, c, locate, region);
        InsertInBranchKeepsUnder(NewBranch(), k, q1, c, locate, region, above, q);
        InsertInBranchKeepsUnder(b, other, q2, c, locate, region, above, q);
      }
    case Empty =>
  }

  lemma {:induction false} InsertInBranchKeepsUnder<P>(n: Node, k: SlotKey, q': Quadrant, c: map<SlotKey, P>, locate: (P, Region) -> Quadrant,
                                                       region: Region, above: Region, q: Quadrant)
    requires k in c && KeysIn(n, c) && Bounded(n, |region|) && n.Branch?
    requires Under(n, c, locate, above, q) && locate(c[k], above) == q
    ensures Under(InsertInBranch(n, k, q', c, locate, region), c, locate, above, q)
    decreases MAX_RECURSION - |region|, 0
  {
    KeysInChild(n, q', c);
    BoundedChild(n, q', |region|);
    UnderChild(n, q', c, locate, above, q);
    var m := Child(n, q');
    InsertKeepsUnder(m, k, c, locate, region + [q'], above, q);
    UnderWithChild(n, q', Insert(m, k, c, locate, region + [q']), c, locate, above, q);
  }

  /** Insert keeps every bucket at MAX_RECURSION with at least two keys. */
  lemma {:induction false} InsertKeepsSaturation<P>(n: Node, k: SlotKey, c: map<SlotKey, P>, locate: (P, Region) -> Quadrant, region: Region)
    requires k in c && KeysIn(n, c) && Bounded(n, |region|) && Saturation(n, |region|)
    ensures Saturation(Insert(n, k, c, locate, region), |region|)
    decreases MAX_RECURSION - |region|, 1
  {
    match n
    case Branch(_, _, _, _) =>
      InsertInBranchKeepsSaturation(n, k, locate(c[k], region), c, locate, region);
    case Leaf(other) =>
      if |region| < MAX_RECURSION {
        var q1 := locate(c[k], region);
        var q2 := locate(c[other], region);
        KeysInBranch(NewBranch(), c);
        BoundedBranch(NewBranch(), |region|);
        SaturationBranch(NewBranch(), |region|);
        var b := InsertInBranch(NewBranch(), k, q1, c, locate, region);
        InsertInBranchKeepsSaturation(NewBranch(), k, q1, c, locate, region);
        InsertInBranchKeepsSaturation(b, other, q2, c, locate, region);
      }
    case _ =>
  }

  lemma {:induction false} InsertInBranchKeepsSaturation<P>(n: Node, k: SlotKey, q: Quadrant, c: map<SlotKey, P>, locate: (P, Region) -> Quadrant, region: Region)
    requires k in c && KeysIn(n, c) && Bounded(n, |region|) && n.Branch? && Saturation(n, |region|)
    ensures Saturation(InsertInBranch(n, k, q, c, locate, region), |region|)
    decreases MAX_RECURSION - |region|, 0
  {
    KeysInChild(n, q, c);
    BoundedChild(n, q, |region|);
    SaturationChild(n, q, |region|);
    var m := Child(n, q);
    InsertKeepsSaturation(m, k, c, locate, region + [q]);
    SaturationWithChild(n, q, Insert(m, k, c, locate, region + [q]), |region|);
  }

  // ----- contains -----

  /**
   * `contains`: follow the point's quadrants down to a leaf or bucket and compare
   * the stored points with it.
   */
  function Contains<P(==)>(n: Node, p: P, c: map<SlotKey, P>, locate: (P, Region) -> Quadrant, region: Region): bool
    requires KeysIn(n, c)
    decreases Size(n)
  {
    match n
    case Saturated(v) => exists i :: 0 <= i < |v| && c[v[i]] == p
    case Branch(_, _, _, _) =>
      var q := locate(p, region);
      KeysInBranch(n, c);
      Contains(Child(n, q), p, c, locate, region + [q])
    case Leaf(k) => c[k] == p
    case Empty => false
  }

  /** What `contains` finds is stored. */
  lemma {:induction false} ContainsStored<P>(n: Node, p: P, c: map<SlotKey, P>, locate: (P, Region) -> Quadrant, region: Region)
    requires KeysIn(n, c) && Contains(n, p, c, locate, region)
    ensures exists k :: k in Stored(n) && k in c && c[k] == p
    decreases Size(n)
  {
    match n
    case Saturated(v) =>
      var i :| 0 <= i < |v| && c[v[i]] == p;
      assert v[i] in multiset(v);
    case Branch(_, _, _, _) =>
      var q := locate(p, region);
      KeysInBranch(n, c);
      ContainsStored(Child(n, q), p, c, locate, region + [q]);
      var k :| k in Stored(Child(n, q)) && k in c && c[k] == p;
      StoredWithChild(n, q, Empty);
    case Leaf(k) =>
      assert k in Stored(n);
    case Empty =>
  }

  /** What is stored where its point falls, `contains` finds. */
  lemma {:induction false} StoredContained<P>(n: Node, p: P, c: map<SlotKey, P>, locate: (P, Region) -> Quadrant, region: Region, k: SlotKey)
    requires KeysIn(n, c) && Placed(n, c, locate, region) && k in Stored(n) && k in c && c[k] == p
    ensures Contains(n, p, c, locate, region)
    decreases Size(n)
  {
    match n
    case Saturated(v) =>
      assert k in multiset(v);
      var i :| 0 <= i < |v| && v[i] == k;
    case Branch(_, _, _, _) =>
      KeysInBranch(n, c);
      PlacedBranch(n, c, locate, region);
      var q := StoredInChild(n, k);
      UnderMember(Child(n, q), c, locate, region, q, k);
      StoredContained(Child(n, q), p, c, locate, region + [q], k);
    case Leaf(_) =>
    case Empty =>
  }

  /** A placed tree contains exactly the points of the keys it stores. */
  lemma ContainsIffStored<P>(n: Node, p: P, c: map<SlotKey, P>, locate: (P, Region) -> Quadrant, region: Region)
    requires KeysIn(n, c) && Placed(n, c, locate, region)
    ensures Contains(n, p, c, locate, region) <==> exists k :: k in Stored(n) && k in c && c[k] == p
  {
    if Contains(n, p, c, locate, region) {
      ContainsStored(n, p, c, locate, region);
    }
    if exists k :: k in Stored(n) && k in c && c[k] == p {
      var k :| k in Stored(n) && k in c && c[k] == p;
      StoredContained(n, p, c, locate, region, k);
    }
  }

  // ----- remove -----

  /** The first index from `i` on whose point equals `p`: the search of `remove` in a bucket. */
  function FirstMatch<P(==)>(v: seq<SlotKey>, c: map<SlotKey, P>, p: P, i: nat): (r: Option<nat>)
    requires forall j :: 0 <= j < |v| ==> v[j] in c
    ensures r.Some? ==> i <= r.value < |v| && c[v[r.value]] == p
    ensures r.Some? ==> forall j :: i <= j < r.value ==> c[v[j]] != p
    ensures r.None? ==> forall j :: i <= j < |v| ==> c[v[j]] != p
    decreases |v| - i
  {
    if i >= |v| then None
    else if c[v[i]] == p then Some(i)
    else FirstMatch(v, c, p, i + 1)
  }

  /**
   * `remove`: a leaf holding the point empties; a bucket drops its first key with
   * that point and falls back to a leaf when one key is left; a branch passes the
   * request to the child the point falls in. The removed key, if any, is returned.
   */
  function Remove<P(==)>(n: Node, p: P, c: map<SlotKey, P>, locate: (P, Region) -> Quadrant, region: Region)
    : (r: (Node, Option<SlotKey>))
    requires KeysIn(n, c)
    ensures r.1.None? ==> r.0 == n
    ensures r.1.Some? ==> r.1.value in c && c[r.1.value] == p
    decreases Size(n)
  {
    match n
    case Saturated(v) =>
      var i := FirstMatch(v, c, p, 0);
      if i.None? then (n, None)
      else
        var rest := v[..i.value] + v[i.value + 1..];
        if |rest| == 1 then
          assert rest == [rest[0]];
          (Leaf(rest[0]), Some(v[i.value]))
        else (Saturated(rest), Some(v[i.value]))
    case Branch(_, _, _, _) =>
      var q := locate(p, region);
      KeysInChild(n, q, c);
      var (m, key) := Remove(Child(n, q), p, c, locate, region + [q]);
      (WithChild(n, q, m), key)
    case Leaf(k) => if c[k] == p then (Empty, Some(k)) else (n, None)
    case Empty => (n, None)
  }

  /** `remove` finds a key exactly when `contains` holds. */
  lemma {:induction false} RemoveFindsContained<P>(n: Node, p: P, c: map<SlotKey, P>, locate: (P, Region) -> Quadrant, region: Region)
    requires KeysIn(n, c)
    ensures Remove(n, p, c, locate, region).1.Some? <==> Contains(n, p, c, locate, region)
    decreases Size(n)
  {
    match n
    case Saturated(v) =>
      if Contains(n, p, c, locate, region) {
        var i :| 0 <= i < |v| && c[v[i]] == p;
        assert FirstMatch(v, c, p, 0).Some?;
      }
    case Branch(_, _, _, _) =>
      KeysInBranch(n, c);
      RemoveFindsContained(Child(n, locate(p, region)), p, c, locate, region + [locate(p, region)]);
    case Leaf(_) =>
    case Empty =>
  }

  /** A bucket that drops one key holds the others. */
  lemma BucketStored(v: seq<SlotKey>, i: nat)
    requires i < |v|
    ensures multiset(v[..i] + v[i + 1..]) + multiset{v[i]} == multiset(v)
  {
    assert v == v[..i] + [v[i]] + v[i + 1..];
  }

  /** The keys left in a bucket after `remove` are keys it held. */
  lemma RestOfBucket(v: seq<SlotKey>, i: nat, j: nat)
    requires i < |v| && j < |v| - 1
    ensures |v[..i] + v[i + 1..]| == |v| - 1
    ensures (v[..i] + v[i + 1..])[j] == v[if j < i then j else j + 1]
  {
  }

  /** A bucket that drops one key keeps the rest in the container and in the quadrant. */
  lemma BucketRemove<P>(v: seq<SlotKey>, i: nat, c: map<SlotKey, P>, locate: (P, Region) -> Quadrant, above: Region, q: Quadrant)
    requires i < |v| && forall j :: 0 <= j < |v| ==> v[j] in c
    ensures var rest := v[..i] + v[i + 1..];
      && |rest| == |v| - 1
      && (forall j :: 0 <= j < |rest| ==> rest[j] in c)
      && ((forall j :: 0 <= j < |v| ==> locate(c[v[j]], above) == q) ==>
            forall j :: 0 <= j < |rest| ==> locate(c[rest[j]], above) == q)
  {
    var rest := v[..i] + v[i + 1..];
    forall j | 0 <= j < |rest| ensures rest[j] == v[if j < i then j else j + 1] {
      RestOfBucket(v, i, j);
    }
  }

  /** `remove` on a branch works on the child the point falls in. */
  lemma RemoveBranch<P>(n: Node, p: P, c: map<SlotKey, P>, locate: (P, Region) -> Quadrant, region: Region)
    requires n.Branch? && KeysIn(n, c)
    ensures KeysIn(Child(n, locate(p, region)), c)
    ensures var q := locate(p, region);
      Remove(n, p, c, locate, region).0 == WithChild(n, q, Remove(Child(n, q), p, c, locate, region + [q]).0)
    ensures var q := locate(p, region);
      Remove(n, p, c, locate, region).1 == Remove(Child(n, q), p, c, locate, region + [q]).1
  {
    KeysInChild(n, locate(p, region), c);
  }

  /** The key `remove` returns is one the node held, and only that key leaves it. */
  lemma {:induction false} RemoveStored<P>(n: Node, p: P, c: map<SlotKey, P>, locate: (P, Region) -> Quadrant, region: Region)
    requires KeysIn(n, c)
    ensures var (r, key) := Remove(n, p, c, locate, region);
      key.Some? ==> Stored(r) + multiset{key.value} == Stored(n)
    decreases Size(n)
  {
    match n
    case Saturated(v) =>
      var i := FirstMatch(v, c, p, 0);
      if i.Some? {
        BucketStored(v, i.value);
        var rest := v[..i.value] + v[i.value + 1..];
        if |rest| == 1 {
          assert rest == [rest[0]];
        }
      }
    case Branch(_, _, _, _) =>
      var q := locate(p, region);
      RemoveBranch(n, p, c, locate, region);
      RemoveStored(Child(n, q), p, c, locate, region + [q]);
      var (m, key) := Remove(Child(n, q), p, c, locate, region + [q]);
      if key.Some? {
        StoredGrows(WithChild(n, q, m), q, Child(n, q), multiset{key.value});
        assert WithChild(WithChild(n, q, m), q, Child(n, q)) == n by {
          match q
          case TL =>
          case TR =>
          case BL =>
          case BR =>
        }
      }
    case _ =>
  }

  /** `remove` keeps every stored key in the container. */
  lemma {:induction false} RemoveKeepsKeysIn<P>(n: Node, p: P, c: map<SlotKey, P>, locate: (P, Region) -> Quadrant, region: Region)
    requires KeysIn(n, c)
    ensures KeysIn(Remove(n, p, c, locate, region).0, c)
    decreases Size(n)
  {
    match n
    case Saturated(v) =>
      var i := FirstMatch(v, c, p, 0);
      if i.Some? {
        BucketRemove(v, i.value, c, locate, region, TL);
      }
    case Branch(_, _, _, _) =>
      var q := locate(p, region);
      RemoveBranch(n, p, c, locate, region);
      RemoveKeepsKeysIn(Child(n, q), p, c, locate, region + [q]);
      KeysInWithChild(n, q, Remove(Child(n, q), p, c, locate, region + [q]).0, c);
    case _ =>
  }

  /** `remove` keeps the depth bound and every bucket at two keys or more. */
  lemma {:induction false} RemoveKeepsShape<P>(n: Node, p: P, c: map<SlotKey, P>, locate: (P, Region) -> Quadrant, region: Region)
    requires KeysIn(n, c) && Bounded(n, |region|) && Saturation(n, |region|)
    ensures Bounded(Remove(n, p, c, locate, region).0, |region|)
    ensures Saturation(Remove(n, p, c, locate, region).0, |region|)
    decreases Size(n)
  {
    match n
    case Saturated(v) =>
      var i := FirstMatch(v, c, p, 0);
      if i.Some? {
        BucketRemove(v, i.value, c, locate, region, TL);
      }
    case Branch(_, _, _, _) =>
      var q := locate(p, region);
      RemoveBranch(n, p, c, locate, region);
      BoundedChild(n, q, |region|);
      SaturationChild(n, q, |region|);
      RemoveKeepsShape(Child(n, q), p, c, locate, region + [q]);
      var m := Remove(Child(n, q), p, c, locate, region + [q]).0;
      BoundedWithChild(n, q, m, |region|);
      SaturationWithChild(n, q, m, |region|);
    case _ =>
  }

  /** `remove` keeps a subtree inside its quadrant. */
  lemma {:induction false} RemoveKeepsUnder<P>(m: Node, p: P, c: map<SlotKey, P>, locate: (P, Region) -> Quadrant, region: Region,
                                               above: Region, q: Quadrant)
    requires KeysIn(m, c) && Under(m, c, locate, above, q)
    ensures Under(Remove(m, p, c, locate, region).0, c, locate, above, q)
    decreases Size(m)
  {
    match m
    case Saturated(v) =>
      var i := FirstMatch(v, c, p, 0);
      if i.Some? {
        BucketRemove(v, i.value, c, locate, above, q);
      }
    case Branch(_, _, _, _) =>
      var q' := locate(p, region);
      RemoveBranch(m, p, c, locate, region);
      UnderChild(m, q', c, locate, above, q);
      RemoveKeepsUnder(Child(m, q'), p, c, locate, region + [q'], above, q);
      UnderWithChild(m, q', Remove(Child(m, q'), p, c, locate, region + [q']).0, c, locate, above, q);
    case Leaf(_) =>
    case Empty =>
  }

  /** `remove` keeps every key in the child its point falls in. */
  lemma {:induction false} RemoveKeepsPlaced<P>(n: Node, p: P, c: map<SlotKey, P>, locate: (P, Region) -> Quadrant, region: Region)
    requires KeysIn(n, c) && Placed(n, c, locate, region)
    ensures Placed(Remove(n, p, c, locate, region).0, c, locate, region)
    decreases Size(n)
  {
    match n
    case Branch(_, _, _, _) =>
      var q := locate(p, region);
      RemoveBranch(n, p, c, locate, region);
      PlacedChild(n, q, c, locate, region);
      RemoveKeepsPlaced(Child(n, q), p, c, locate, region + [q]);
      RemoveKeepsUnder(Child(n, q), p, c, locate, region + [q], region, q);
      PlacedWithChild(n, q, Remove(Child(n, q), p, c, locate, region + [q]).0, c, locate, region);
    case _ =>
  }

  /**
   * The node `remove` as the source writes it: the bucket search is a loop over
   * the keys that stops at the first match.
   */
  method RemoveFrom<P(==)>(n: Node, p: P, c: map<SlotKey, P>, locate: (P, Region) -> Quadrant, region: Region)
    returns (n': Node, key: Option<SlotKey>)
    requires KeysIn(n, c)
    ensures (n', key) == Remove(n, p, c, locate, region)
    decreases Size(n)
  {
    match n
    case Saturated(v) =>
      var i := 0;
      while i < |v|
        invariant i <= |v|
        invariant FirstMatch(v, c, p, i) == FirstMatch(v, c, p, 0)
      {
        if c[v[i]] == p {
          var rest := v[..i] + v[i + 1..];
          if |rest| == 1 {
            return Leaf(rest[0]), Some(v[i]);
          }
          return Saturated(rest), Some(v[i]);
        }
        i := i + 1;
      }
      return n, None;
    case Branch(_, _, _, _) =>
      var q := locate(p, region);
      KeysInBranch(n, c);
      var m;
      m, key := RemoveFrom(Child(n, q), p, c, locate, region + [q]);
      return WithChild(n, q, m), key;
    case Leaf(k) =>
      if c[k] == p {
        return Empty, Some(k);
      }
      return n, None;
    case Empty =>
      return n, None;
  }

  // ----- bounds -----

  /** `bounds`: the rectangle of every non-empty node, a branch before its TL, TR, BL, BR children. */
  function Bounds(n: Node, region: Region): seq<Region>
  {
    match n
    case Saturated(_) => [region]
    case Branch(tl, tr, bl, br) =>
      [region] + (Bounds(tl, region + [TL]) + Bounds(tr, region + [TR]) + Bounds(bl, region + [BL]) + Bounds(br, region + [BR]))
    case Leaf(_) => [region]
    case Empty => []
  }

  /** `bounds_with_type`: the same walk, each rectangle tagged with its node's kind. */
  function BoundsWithType(n: Node, region: Region): seq<(Region, BoundType)>
  {
    match n
    case Saturated(_) => [(region, SaturatedBound)]
    case Branch(tl, tr, bl, br) =>
      [(region, BranchBound)]
        + (BoundsWithType(tl, region + [TL]) + BoundsWithType(tr, region + [TR])
           + BoundsWithType(bl, region + [BL]) + BoundsWithType(br, region + [BR]))
    case Leaf(_) => [(region, LeafBound)]
    case Empty => []
  }

  /** The subtree at `path` below `n`, if the path stays within branches. */
  function At(n: Node, path: Region): Option<Node>
    decreases |path|
  {
    if path == [] then Some(n)
    else if n.Branch? then At(Child(n, path[0]), path[1..])
    else None
  }

  /** The tag `bounds_with_type` gives a non-empty node. */
  function KindOf(n: Node): BoundType
    requires !n.Empty?
  {
    match n
    case Saturated(_) => SaturatedBound
    case Branch(_, _, _, _) => BranchBound
    case Leaf(_) => LeafBound
  }

  /** The number of non-empty nodes. */
  function Occupied(n: Node): nat
  {
    match n
    case Branch(tl, tr, bl, br) => 1 + Occupied(tl) + Occupied(tr) + Occupied(bl) + Occupied(br)
    case Empty => 0
    case _ => 1
  }

  /** `bounds` emits one rectangle per non-empty node. */
  lemma {:induction false} BoundsCount(n: Node, region: Region)
    ensures |Bounds(n, region)| == Occupied(n)
  {
    match n
    case Branch(tl, tr, bl, br) =>
      BoundsCount(tl, region + [TL]);
      BoundsCount(tr, region + [TR]);
      BoundsCount(bl, region + [BL]);
      BoundsCount(br, region + [BR]);
    case _ =>
  }

  /** The rectangles of a tagged list, tags dropped. */
  function Regions(s: seq<(Region, BoundType)>): (r: seq<Region>)
    ensures |r| == |s|
  {
    if s == [] then [] else [s[0].0] + Regions(s[1..])
  }

  lemma {:induction false} RegionsConcat(a: seq<(Region, BoundType)>, b: seq<(Region, BoundType)>)
    ensures Regions(a + b) == Regions(a) + Regions(b)
    decreases |a|
  {
    if a != [] {
      assert (a + b)[1..] == a[1..] + b;
      RegionsConcat(a[1..], b);
    } else {
      assert a + b == b;
    }
  }

  /** `bounds_with_type` lists the rectangles of `bounds`, in the same order. */
  lemma {:induction false} BoundsWithTypeAgrees(n: Node, region: Region)
    ensures Regions(BoundsWithType(n, region)) == Bounds(n, region)
  {
    match n
    case Branch(tl, tr, bl, br) =>
      var a, b, c, d := BoundsWithType(tl, region + [TL]), BoundsWithType(tr, region + [TR]),
                        BoundsWithType(bl, region + [BL]), BoundsWithType(br, region + [BR]);
      BoundsWithTypeAgrees(tl, region + [TL]);
      BoundsWithTypeAgrees(tr, region + [TR]);
      BoundsWithTypeAgrees(bl, region + [BL]);
      BoundsWithTypeAgrees(br, region + [BR]);
      RegionsConcat([(region, BranchBound)], a + b + c + d);
      RegionsConcat(a + b + c, d);
      RegionsConcat(a + b, c);
      RegionsConcat(a, b);
    case _ =>
  }

  /** Each entry of `bounds_with_type` is the region of a non-empty node below `region`, tagged with its kind. */
  lemma {:induction false} BoundsWithTypeTags(n: Node, region: Region, x: (Region, BoundType))
    requires x in BoundsWithType(n, region)
    ensures exists path :: x.0 == region + path && At(n, path).Some? && !At(n, path).value.Empty?
                           && KindOf(At(n, path).value) == x.1
  {
    match n
    case Branch(tl, tr, bl, br) =>
      if x == (region, BranchBound) {
        TagAtRoot(n, region, x);
      } else {
        var q: Quadrant;
        if x in BoundsWithType(tl, region + [TL]) {
          q := TL;
        } else if x in BoundsWithType(tr, region + [TR]) {
          q := TR;
        } else if x in BoundsWithType(bl, region + [BL]) {
          q := BL;
        } else {
          q := BR;
        }
        BoundsWithTypeTags(Child(n, q), region + [q], x);
        var path' :| x.0 == region + [q] + path' && At(Child(n, q), path').Some? && !At(Child(n, q), path').value.Empty?
                     && KindOf(At(Child(n, q), path').value) == x.1;
        TagBelow(n, region, q, path', x);
      }
    case _ =>
      TagAtRoot(n, region, x);
  }

  lemma TagAtRoot(n: Node, region: Region, x: (Region, BoundType))
    requires !n.Empty? && x == (region, KindOf(n))
    ensures exists path :: x.0 == region + path && At(n, path).Some? && !At(n, path).value.Empty?
                           && KindOf(At(n, path).value) == x.1
  {
    assert x.0 == region + [] && At(n, []) == Some(n);
  }

  lemma TagBelow(n: Node, region: Region, q: Quadrant, path': Region, x: (Region, BoundType))
    requires n.Branch?
    requires x.0 == region + [q] + path' && At(Child(n, q), path').Some? && !At(Child(n, q), path').value.Empty?
             && KindOf(At(Child(n, q), path').value) == x.1
    ensures exists path :: x.0 == region + path && At(n, path).Some? && !At(n, path).value.Empty?
                           && KindOf(At(n, path).value) == x.1
  {
    var path := [q] + path';
    assert path[0] == q && path[1..] == path';
    assert region + [q] + path' == region + path;
    assert At(n, path) == At(Child(n, q), path');
  }

  // ----- changing the container -----

  /** A larger container still holds every stored key. */
  lemma {:induction false} KeysInWiden<P>(n: Node, c: map<SlotKey, P>, c': map<SlotKey, P>)
    requires KeysIn(n, c) && c.Keys <= c'.Keys
    ensures KeysIn(n, c')
  {
    match n
    case Branch(tl, tr, bl, br) =>
      KeysInWiden(tl, c, c');
      KeysInWiden(tr, c, c');
      KeysInWiden(bl, c, c');
      KeysInWiden(br, c, c');
    case _ =>
  }

  /** A subtree stays in its quadrant under a container that agrees on its keys. */
  lemma {:induction false} UnderTransfer<P>(m: Node, c: map<SlotKey, P>, c': map<SlotKey, P>, locate: (P, Region) -> Quadrant,
                                            region: Region, q: Quadrant)
    requires Under(m, c, locate, region, q) && KeysIn(m, c')
    requires forall k :: k in c && k in c' ==> c[k] == c'[k]
    ensures Under(m, c', locate, region, q)
  {
    match m
    case Branch(tl, tr, bl, br) =>
      UnderTransfer(tl, c, c', locate, region, q);
      UnderTransfer(tr, c, c', locate, region, q);
      UnderTransfer(bl, c, c', locate, region, q);
      UnderTransfer(br, c, c', locate, region, q);
    case _ =>
  }

  /** A tree stays placed under a container that agrees on its keys. */
  lemma {:induction false} PlacedTransfer<P>(n: Node, c: map<SlotKey, P>, c': map<SlotKey, P>, locate: (P, Region) -> Quadrant, region: Region)
    requires Placed(n, c, locate, region) && KeysIn(n, c')
    requires forall k :: k in c && k in c' ==> c[k] == c'[k]
    ensures Placed(n, c', locate, region)
  {
    match n
    case Branch(tl, tr, bl, br) =>
      UnderTransfer(tl, c, c', locate, region, TL);
      UnderTransfer(tr, c, c', locate, region, TR);
      UnderTransfer(bl, c, c', locate, region, BL);
      UnderTransfer(br, c, c', locate, region, BR);
      PlacedTransfer(tl, c, c', locate, region + [TL]);
      PlacedTransfer(tr, c, c', locate, region + [TR]);
      PlacedTransfer(bl, c, c', locate, region + [BL]);
      PlacedTransfer(br, c, c', locate, region + [BR]);
    case _ =>
  }
}
