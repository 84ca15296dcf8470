/**
 * The 32-bit key of the linear quadtree (`LinearQuadTreeNode`).
 *
 * A location word holds an overflow counter in bits [31:28], the level in bits
 * [27:24] and the quadrant codes of levels 1..12 in bits [23:0] (see KeyLayout).
 * The word functions below read and rebuild location words; the class holds one
 * word and updates it in place as the key's `&mut self` methods do.
 *
 * Three mutators and `coordinate_in_quadrants` do not do what their comments and
 * tests say. Each is modelled twice: `...AsWritten`, with a lemma exhibiting the
 * discrepancy, and a corrected word function that the class methods use.
 */
module LinearQuadtreeKey {
  import opened Wrappers
  import opened Quadrants
  import opened KeyLayout

  /** `level()`: bits [27:24]. */
  function Level(location: bv32): (l: bv32)
    ensures l < 16
  {
    (location >> 24) & 0xF
  }

  /** `overflow()`: bits [31:28], or None when they are all zero. */
  function Overflow(location: bv32): (o: Option<bv32>)
    ensures o.None? <==> location >> 28 == 0
    ensures o.Some? ==> 1 <= o.value <= 15 && o.value << 28 == location & 0xF000_0000
  {
    var ret := location >> 28;
    if ret == 0 then None else Some(ret)
  }

  /**
   * A well-formed key: a level of at most RESOLUTION and no code written below it.
   * Keys built from the root by `child` have this shape.
   */
  predicate Canonical(location: bv32) {
    Level(location) <= RESOLUTION && location & FinerMask(Level(location)) == 0
  }

  /** Canonical, with the level given separately. */
  lemma CanonicalAt(w: bv32, level: bv32)
    requires level <= RESOLUTION && Level(w) == level && w & FinerMask(level) == 0
    ensures Canonical(w)
  {
  }

  /** `new(coordinate, level)` does not wrap for a 24-bit coordinate and a 4-bit level. */
  lemma NewFits(coordinate: bv32, level: bv32)
    requires coordinate <= COORDINATE_MASK && level < 16
    ensures NoCarry(level << 24, coordinate)
  {
  }

  /** `new(coordinate, level)` reads back the coordinate it was given. */
  lemma NewCoordinate(coordinate: bv32, level: bv32)
    requires coordinate <= COORDINATE_MASK && level < 16
    ensures Coordinate((level << 24) + coordinate) == coordinate
  {
  }

  /** `new(coordinate, level)` reads back the level it was given. */
  lemma NewLevel(coordinate: bv32, level: bv32)
    requires coordinate <= COORDINATE_MASK && level < 16
    ensures Level((level << 24) + coordinate) == level
  {
  }

  /** A key made by `new` has no overflow. */
  lemma NewNoOverflow(coordinate: bv32, level: bv32)
    requires coordinate <= COORDINATE_MASK && level < 16
    ensures (level << 24) + coordinate >> 28 == 0
  {
  }

  /** `new(coordinate, level)` reads back the coordinate and level it was given. */
  lemma NewRoundTrip(coordinate: bv32, level: bv32)
    requires coordinate <= COORDINATE_MASK && level < 16
    ensures NoCarry(level << 24, coordinate)
    ensures Coordinate(NewLocation(coordinate, level)) == coordinate
    ensures Level(NewLocation(coordinate, level)) == level
    ensures Overflow(NewLocation(coordinate, level)) == None
  {
    NewFits(coordinate, level);
    NewCoordinate(coordinate, level);
    NewLevel(coordinate, level);
    NewNoOverflow(coordinate, level);
  }

  /** The `test_location_level` vector. */
  lemma LocationLevelVector()
    ensures NewLocation(0x39 << 18, 7) == 0x07E4_0000
    ensures QuadrantAtLevel(0x07E4_0000, 1) == TR && QuadrantAtLevel(0x07E4_0000, 2) == TL
    ensures QuadrantAtLevel(0x07E4_0000, 3) == BR && QuadrantAtLevel(0x07E4_0000, 4) == BL
    ensures Level(0x07E4_0000) == 7
  {
  }

  // ----- compute_neighbors -----

  /**
   * The key the neighbour loop produces for one direction: `new(mi, level)` with the
   * masked sum `mi`. The overflow field is not carried over.
   */
  function NeighborLocation(location: bv32, dir: nat): (r: bv32)
    requires Level(location) <= RESOLUTION && dir < 8
    ensures Level(r) == Level(location) && Overflow(r) == None
    ensures Coordinate(r) == NeighborCoordinate(Coordinate(location), Level(location), dir)
  {
    NewRoundTrip(NeighborCoordinate(Coordinate(location), Level(location), dir), Level(location));
    NewLocation(NeighborCoordinate(Coordinate(location), Level(location), dir), Level(location))
  }

  /**
   * For a key without overflow, the west neighbour of the east neighbour is the key
   * itself, and likewise for west/east, north/south and south/north.
   */
  lemma NeighborSymmetry(location: bv32, dir: nat)
    requires Level(location) <= RESOLUTION && Overflow(location) == None
    requires dir in {EAST, WEST, NORTH, SOUTH}
    ensures NeighborLocation(NeighborLocation(location, dir), Opposite(dir)) == location
  {
    var level := Level(location);
    var ni := Coordinate(location);
    NeighborOpposite(ni, level, dir);
    var back := NeighborLocation(NeighborLocation(location, dir), Opposite(dir));
    assert Coordinate(back) == ni && Level(back) == level && Overflow(back) == None;
    FieldsDetermineLocation(back, location);
  }

  /** Equal coordinate, level and overflow fields make equal words. */
  lemma FieldsDetermineLocation(a: bv32, b: bv32)
    requires Coordinate(a) == Coordinate(b) && Level(a) == Level(b)
    requires Overflow(a) == Overflow(b)
    ensures a == b
  {
  }

  /** East and west neighbours keep the y bits; north and south keep the x bits. */
  lemma NeighborKeepsOtherAxis(location: bv32, dir: nat)
    requires Level(location) <= RESOLUTION
    requires dir in {EAST, WEST, NORTH, SOUTH}
    ensures dir in {EAST, WEST} ==> YBits(Coordinate(NeighborLocation(location, dir))) == YBits(Coordinate(location))
    ensures dir in {NORTH, SOUTH} ==> XBits(Coordinate(NeighborLocation(location, dir))) == XBits(Coordinate(location))
  {
    NeighborAxisIndependence(Coordinate(location), Level(location), dir);
  }

  // ----- write_level -----

  /**
   * `write_level` as written. The code is shifted right by 2 * level where it should
   * go into the slot of the new level, and the level is then checked with
   * `assert!((level + 1) << 24 <= 12)`, which compares the shifted field and so can
   * never hold: the result is None (a panic) for every word.
   */
  function WriteLevelAsWritten(location: bv32, q: Quadrant): (r: Option<bv32>)
  {
    var bits := Code(q) >> (Level(location) * 2);
    var written := (location & !(0x3 << (Level(location) * 2))) | bits;
    var levelBits := (Level(written) + 1) << 24;
    var result := (written & !(0xF << 24)) | levelBits;
    if levelBits <= 12 then Some(result) else None
  }

  /** `write_level` panics on every key, so `test_write_level` cannot pass. */
  lemma WriteLevelAlwaysPanics(location: bv32, q: Quadrant)
    ensures WriteLevelAsWritten(location, q) == None
  {
  }

  /** `w` with its level field, bits [27:24], set to `level`. */
  function WithLevelField(w: bv32, level: bv32): bv32
    requires level < 16
  {
    (w & !(0xF << 24)) | (level << 24)
  }

  /** `w`, taken to be at `level`, with code c written one level deeper. */
  function SetDeeper(w: bv32, level: bv32, c: bv32): bv32
    requires level < RESOLUTION && c < 4
  {
    WithLevelField(ReplaceSlot(w, RESOLUTION - (level + 1), c), level + 1)
  }

  // The facts below about SetDeeper and ClearDeepest keep `level` a variable of its
  // own; the lemmas about keys instantiate them with the key's level field.

  lemma LevelOfSetDeeper(w: bv32, level: bv32, c: bv32)
    requires level < RESOLUTION && c < 4
    ensures Level(SetDeeper(w, level, c)) == level + 1
  {
  }

  lemma TopOfSetDeeper(w: bv32, level: bv32, c: bv32)
    requires level < RESOLUTION && c < 4
    ensures SetDeeper(w, level, c) >> 28 == w >> 28
  {
  }

  lemma SlotOfSetDeeper(w: bv32, level: bv32, c: bv32, i: bv32)
    requires level < RESOLUTION && c < 4 && i < RESOLUTION
    ensures Slot(SetDeeper(w, level, c), i) == if i == RESOLUTION - (level + 1) then c else Slot(w, i)
  {
    SlotOfReplaceSlot(w, i, RESOLUTION - (level + 1), c);
  }

  lemma FinerMaskOfSetDeeper(w: bv32, level: bv32, c: bv32)
    requires level < RESOLUTION && c < 4 && w & FinerMask(level) == 0
    ensures SetDeeper(w, level, c) & FinerMask(level + 1) == 0
  {
    ReplaceSlotFinerMask(w, level, c);
  }

  /** `w`, taken to be at `level`, with the code of that level cleared and the level one less. */
  function ClearDeepest(w: bv32, level: bv32): bv32
    requires 1 <= level <= RESOLUTION
  {
    WithLevelField(ReplaceSlot(w, RESOLUTION - level, 0), level - 1)
  }

  lemma LevelOfClearDeepest(w: bv32, level: bv32)
    requires 1 <= level <= RESOLUTION
    ensures Level(ClearDeepest(w, level)) == level - 1
  {
  }

  lemma TopOfClearDeepest(w: bv32, level: bv32)
    requires 1 <= level <= RESOLUTION
    ensures ClearDeepest(w, level) >> 28 == w >> 28
  {
  }

  lemma SlotOfClearDeepest(w: bv32, level: bv32, i: bv32)
    requires 1 <= level <= RESOLUTION && i < RESOLUTION
    ensures Slot(ClearDeepest(w, level), i) == if i == RESOLUTION - level then 0 else Slot(w, i)
  {
    SlotOfReplaceSlot(w, i, RESOLUTION - level, 0);
  }

  lemma FinerMaskOfClearDeepest(w: bv32, level: bv32)
    requires 1 <= level <= RESOLUTION && w & FinerMask(level) == 0
    ensures ClearDeepest(w, level) & FinerMask(level - 1) == 0
  {
    ClearSlotFinerMask(w, level);
  }

  lemma CanonicalSetDeeper(w: bv32, level: bv32, c: bv32)
    requires level < RESOLUTION && c < 4 && Level(w) == level && w & FinerMask(level) == 0
    ensures Canonical(SetDeeper(w, level, c))
  {
    LevelOfSetDeeper(w, level, c);
    FinerMaskOfSetDeeper(w, level, c);
    CanonicalAt(SetDeeper(w, level, c), level + 1);
  }

  /** Clearing what SetDeeper wrote gives back a word whose level field is `level` and whose slot was empty. */
  lemma ClearDeepestOfSetDeeper(w: bv32, level: bv32, c: bv32)
    requires level < RESOLUTION && c < 4
    requires Level(w) == level && Slot(w, RESOLUTION - (level + 1)) == 0
    ensures ClearDeepest(SetDeeper(w, level, c), level + 1) == w
  {
  }

  /**
   * `write_level` as documented: the key moves one level down into quadrant `q`. The
   * code goes into the slot of the new level and the level field is incremented.
   */
  function WithLevelWritten(location: bv32, q: Quadrant): (r: bv32)
    requires Level(location) < RESOLUTION
    ensures Level(r) == Level(location) + 1
    ensures r >> 28 == location >> 28
  {
    LevelOfSetDeeper(location, Level(location), Code(q));
    TopOfSetDeeper(location, Level(location), Code(q));
    SetDeeper(location, Level(location), Code(q))
  }

  /** Writing a level leaves the path down to the old level alone. */
  lemma WriteLevelKeepsPath(location: bv32, q: Quadrant, k: bv32)
    requires Level(location) < RESOLUTION && k <= Level(location)
    ensures PathOf(WithLevelWritten(location, q), k) == PathOf(location, k)
  {
    forall i: bv32 | RESOLUTION - k <= i < RESOLUTION
      ensures Slot(WithLevelWritten(location, q), i) == Slot(location, i)
    {
      SlotOfSetDeeper(location, Level(location), Code(q), i);
    }
    PathOfSlots(WithLevelWritten(location, q), location, k);
  }

  /** Writing a level appends `q` to the key's path. */
  lemma WriteLevelAppends(location: bv32, q: Quadrant)
    requires Level(location) < RESOLUTION
    ensures PathOf(WithLevelWritten(location, q), Level(location) + 1)
         == PathOf(location, Level(location)) + [q]
  {
    WriteLevelKeepsPath(location, q, Level(location));
    SlotOfSetDeeper(location, Level(location), Code(q), RESOLUTION - (Level(location) + 1));
    CodeRoundTrip(q);
  }

  /**
   * The quadrant read back at the new level is the one written, also when the new
   * level is RESOLUTION, where `quadrant_at_level` as written refuses to read.
   */
  lemma WriteLevelReadsBack(location: bv32, q: Quadrant)
    requires Level(location) < RESOLUTION
    ensures Level(WithLevelWritten(location, q)) == Level(location) + 1
    ensures QuadrantOfLevel(WithLevelWritten(location, q), Level(location) + 1) == q
  {
    var w := WithLevelWritten(location, q);
    WriteLevelAppends(location, q);
    var written := PathOf(w, Level(location) + 1);
    assert written == PathOf(w, Level(location)) + [QuadrantOfLevel(w, Level(location) + 1)];
    assert written[|written| - 1] == q;
  }

  /** Writing a level below a canonical key gives a canonical key. */
  lemma WriteLevelKeepsCanonical(location: bv32, q: Quadrant)
    requires Canonical(location) && Level(location) < RESOLUTION
    ensures Canonical(WithLevelWritten(location, q))
  {
    CanonicalSetDeeper(location, Level(location), Code(q));
  }

  /** `test_write_level`, with the documented `write_level`. */
  lemma WriteLevelVector()
    ensures Level(WithLevelWritten(0, BL)) == 1
    ensures Level(WithLevelWritten(WithLevelWritten(0, BL), BR)) == 2
    ensures PathOf(WithLevelWritten(WithLevelWritten(0, BL), BR), 2) == [BL, BR]
  {
    WriteLevelAppends(0, BL);
    WriteLevelAppends(WithLevelWritten(0, BL), BR);
  }

  // ----- remove_level -----

  /**
   * `remove_level` as written: clears the pair at bit 2 * level (the slot of level
   * 12 - level, not of the deepest level), then decrements the level field, saturating
   * at zero. The level is read again after the first mask.
   */
  function RemoveLevelAsWritten(location: bv32): (r: bv32)
  {
    var cleared := location & !(0x3 << (Level(location) * 2));
    var level := if Level(cleared) == 0 then 0 else Level(cleared) - 1;
    (cleared & !(0xF << 24)) | (level << 24)
  }

  /** On a key of level at most RESOLUTION the level drops by one and the overflow stays. */
  lemma RemoveLevelDecrements(location: bv32)
    requires Level(location) <= RESOLUTION
    ensures Level(RemoveLevelAsWritten(location)) == if Level(location) == 0 then 0 else Level(location) - 1
    ensures RemoveLevelAsWritten(location) >> 28 == location >> 28
  {
  }

  /**
   * The key [BR, TL] (0x0260_0000) loses the wrong pair: its parent comes out as
   * 0x0160_0000, which is not the key [BR] (0x0140_0000) it was made from.
   */
  lemma RemoveLevelLeavesCode()
    ensures WithLevelWritten(0x0140_0000, TL) == 0x0260_0000
    ensures RemoveLevelAsWritten(0x0260_0000) == 0x0160_0000
    ensures RemoveLevelAsWritten(WithLevelWritten(0x0140_0000, TL)) != 0x0140_0000
  {
  }

  /**
   * `remove_level` as documented: the key moves one level up, clearing the code of
   * its deepest level; the root stays the root.
   */
  function WithLevelRemoved(location: bv32): (r: bv32)
    requires Level(location) <= RESOLUTION
    ensures Level(r) == if Level(location) == 0 then 0 else Level(location) - 1
    ensures r >> 28 == location >> 28
  {
    if Level(location) == 0 then location
    else
      LevelOfClearDeepest(location, Level(location));
      TopOfClearDeepest(location, Level(location));
      ClearDeepest(location, Level(location))
  }

  /** Removing a level leaves the path down to the new level alone. */
  lemma RemoveLevelKeepsPath(location: bv32, k: bv32)
    requires 1 <= Level(location) <= RESOLUTION && k < Level(location)
    ensures PathOf(WithLevelRemoved(location), k) == PathOf(location, k)
  {
    forall i: bv32 | RESOLUTION - k <= i < RESOLUTION
      ensures Slot(WithLevelRemoved(location), i) == Slot(location, i)
    {
      SlotOfClearDeepest(location, Level(location), i);
    }
    PathOfSlots(WithLevelRemoved(location), location, k);
  }

  /** Removing a level drops the last quadrant of the key's path. */
  lemma RemoveLevelDropsLast(location: bv32)
    requires 1 <= Level(location) <= RESOLUTION
    ensures PathOf(WithLevelRemoved(location), Level(location) - 1) + [QuadrantOfLevel(location, Level(location))]
         == PathOf(location, Level(location))
  {
    RemoveLevelKeepsPath(location, Level(location) - 1);
  }

  /** Removing a level from a canonical key gives a canonical key. */
  lemma RemoveLevelKeepsCanonical(location: bv32)
    requires Canonical(location)
    ensures Canonical(WithLevelRemoved(location))
  {
    if Level(location) != 0 {
      FinerMaskOfClearDeepest(location, Level(location));
    }
  }

  /** Removing the level just written restores a canonical key exactly. */
  lemma RemoveUndoesWrite(location: bv32, q: Quadrant)
    requires Canonical(location) && Level(location) < RESOLUTION
    ensures WithLevelRemoved(WithLevelWritten(location, q)) == location
  {
    FinerMaskSlot(location, Level(location), RESOLUTION - (Level(location) + 1));
    ClearDeepestOfSetDeeper(location, Level(location), Code(q));
  }

  // ----- increment_overflow -----

  /**
   * `increment_overflow` as written: the new count is OR-ed into bits [3:0] while
   * bits [31:28] are cleared. The `assert_ne!(overflow, 16)` is the requires.
   */
  function IncrementOverflowAsWritten(location: bv32): (r: bv32)
    requires Overflow(location).UnwrapOr(0) != 15
  {
    var overflow := Overflow(location).UnwrapOr(0) + 1;
    (location & !(0xF << 28)) | overflow
  }

  /** After `increment_overflow` as written, `overflow()` is None for every key. */
  lemma IncrementOverflowLosesCount(location: bv32)
    requires Overflow(location).UnwrapOr(0) != 15
    ensures Overflow(IncrementOverflowAsWritten(location)) == None
  {
  }

  /** `increment_overflow` as documented: bits [31:28] count one more. */
  function WithOverflowIncremented(location: bv32): (r: bv32)
    requires Overflow(location).UnwrapOr(0) != 15
    ensures Overflow(r) == Some(Overflow(location).UnwrapOr(0) + 1)
    ensures r & 0x0FFF_FFFF == location & 0x0FFF_FFFF
  {
    var overflow := Overflow(location).UnwrapOr(0) + 1;
    (location & !(0xF << 28)) | (overflow << 28)
  }

  /** The level lives in the low 28 bits. */
  lemma LowBitsKeepLevel(a: bv32, b: bv32)
    requires a & 0x0FFF_FFFF == b & 0x0FFF_FFFF
    ensures Level(a) == Level(b)
  {
  }

  /** The coordinate lives in the low 28 bits. */
  lemma LowBitsKeepCoordinate(a: bv32, b: bv32)
    requires a & 0x0FFF_FFFF == b & 0x0FFF_FFFF
    ensures Coordinate(a) == Coordinate(b)
  {
  }

  // ----- child and parent -----

  /**
   * `child` as written: a key that already overflows, or sits at RESOLUTION, has its
   * overflow incremented; any other key goes through `write_level`. None is a panic.
   */
  function ChildAsWritten(location: bv32, q: Quadrant): (r: Option<bv32>)
  {
    if Overflow(location).Some? || Level(location) == RESOLUTION then
      if Overflow(location).UnwrapOr(0) == 15 then None
      else Some(IncrementOverflowAsWritten(location))
    else WriteLevelAsWritten(location, q)
  }

  /**
   * `child` of the level-12 key [BL, ..., BL] should report overflow 1 but reports
   * none, and turns the code of level 12 into BR; the child of the root panics.
   */
  lemma ChildAsWrittenVector()
    ensures ChildAsWritten(0x0C00_0000, BL) == Some(0x0C00_0001)
    ensures Overflow(0x0C00_0001) == None
    ensures QuadrantOfLevel(0x0C00_0001, 12) == BR
    ensures ChildAsWritten(0, BL) == None
  {
  }

  /** The documented `child`, built from the corrected mutators. */
  function ChildKey(location: bv32, q: Quadrant): (r: bv32)
    requires Level(location) <= RESOLUTION
    requires Overflow(location).Some? || Level(location) == RESOLUTION ==> Overflow(location).UnwrapOr(0) != 15
  {
    if Overflow(location).Some? || Level(location) == RESOLUTION then WithOverflowIncremented(location)
    else WithLevelWritten(location, q)
  }

  /** A child of a key below the resolution limit is one level deeper and extends the path by the quadrant. */
  lemma ChildDescends(location: bv32, q: Quadrant)
    requires Overflow(location) == None && Level(location) < RESOLUTION
    ensures Level(ChildKey(location, q)) == Level(location) + 1 && Overflow(ChildKey(location, q)) == None
    ensures PathOf(ChildKey(location, q), Level(location) + 1) == PathOf(location, Level(location)) + [q]
  {
    WriteLevelAppends(location, q);
  }

  /** A child of a key at the limit, or already overflowing, keeps level and coordinate and overflows once more. */
  lemma ChildOverflows(location: bv32, q: Quadrant)
    requires Level(location) <= RESOLUTION
    requires Overflow(location).Some? || Level(location) == RESOLUTION
    requires Overflow(location).UnwrapOr(0) != 15
    ensures Overflow(ChildKey(location, q)) == Some(Overflow(location).UnwrapOr(0) + 1)
    ensures Level(ChildKey(location, q)) == Level(location)
    ensures Coordinate(ChildKey(location, q)) == Coordinate(location)
  {
    var r := WithOverflowIncremented(location);
    assert ChildKey(location, q) == r;
    LowBitsKeepLevel(r, location);
    LowBitsKeepCoordinate(r, location);
  }

  /** The parent of a child is the key itself, for canonical keys below the limit. */
  lemma ParentOfChild(location: bv32, q: Quadrant)
    requires Canonical(location) && Level(location) < RESOLUTION && Overflow(location) == None
    ensures WithLevelRemoved(ChildKey(location, q)) == location
  {
    RemoveUndoesWrite(location, q);
  }

  // ----- coordinate_in_quadrants -----

  /**
   * The loop of `coordinate_in_quadrants` as written, run for i below n: it pushes
   * `quadrant_at_level(i + 1)`, whose assert rejects i + 1 >= RESOLUTION (None).
   */
  function QuadrantsAsWritten(location: bv32, n: bv32): (r: Option<seq<Quadrant>>)
    decreases n
  {
    if n == 0 then Some([])
    else match QuadrantsAsWritten(location, n - 1)
      case None => None
      case Some(prefix) =>
        if n < RESOLUTION then Some(prefix + [QuadrantAtLevel(location, n)]) else None
  }

  /** `coordinate_in_quadrants` as written. */
  function CoordinateInQuadrantsAsWritten(location: bv32): Option<seq<Quadrant>> {
    QuadrantsAsWritten(location, Level(location))
  }

  /** Below RESOLUTION the loop lists the path; from RESOLUTION on it panics. */
  lemma {:induction false} QuadrantsAsWrittenResult(location: bv32, n: bv32)
    ensures n < RESOLUTION ==> QuadrantsAsWritten(location, n) == Some(PathOf(location, n))
    ensures n >= RESOLUTION ==> QuadrantsAsWritten(location, n) == None
    decreases n
  {
    if n != 0 {
      QuadrantsAsWrittenResult(location, n - 1);
    }
  }

  /**
   * Keys of level 1..11 list their path; a key of the deepest level (12), which
   * `child` does produce, panics.
   */
  lemma CoordinateInQuadrantsAsWrittenResult(location: bv32)
    ensures Level(location) < RESOLUTION ==>
      CoordinateInQuadrantsAsWritten(location) == Some(PathOf(location, Level(location)))
    ensures Level(location) == RESOLUTION ==> CoordinateInQuadrantsAsWritten(location) == None
  {
    QuadrantsAsWrittenResult(location, Level(location));
  }

  /** The key [BR, TL] of `test_quadtree_neighbors`: level 2, codes 01 and 10. */
  const NEIGHBOR_TEST_KEY: bv32 := 0x0260_0000

  /** The paths `test_quadtree_neighbors` expects, east first and counter-clockwise. */
  const NEIGHBOR_TEST_PATHS: seq<seq<Quadrant>> :=
    [[BR, TR], [TR, BR], [TR, BL], [TL, BR], [BL, TR], [BL, BR], [BR, BL], [BR, BR]]

  /** The test key is `new(0b011 << 21, 2)` and its path is [BR, TL]. */
  lemma NeighborTestKey()
    ensures NewLocation(0x60_0000, 2) == NEIGHBOR_TEST_KEY
    ensures PathOf(NEIGHBOR_TEST_KEY, 2) == [BR, TL]
  {
  }

  /** The neighbour words of the test key, in direction order. */
  const NEIGHBOR_TEST_LOCATIONS: seq<bv32> :=
    [0x0270_0000, 0x02D0_0000, 0x02C0_0000, 0x0290_0000, 0x0230_0000, 0x0210_0000, 0x0240_0000, 0x0250_0000]

  lemma NeighborLocationsOfTestKey(dir: nat)
    requires dir < 8
    ensures NeighborLocation(NEIGHBOR_TEST_KEY, dir) == NEIGHBOR_TEST_LOCATIONS[dir]
  {
    assert Coordinate(NEIGHBOR_TEST_KEY) == 0x60_0000 && Level(NEIGHBOR_TEST_KEY) == 2;
  }

  lemma PathsOfTestLocations(dir: nat)
    requires dir < 8
    ensures PathOf(NEIGHBOR_TEST_LOCATIONS[dir], 2) == NEIGHBOR_TEST_PATHS[dir]
  {
  }

  /** Each neighbour of the test key has the path the test expects. */
  lemma NeighborVector(dir: nat)
    requires dir < 8
    ensures PathOf(NeighborLocation(NEIGHBOR_TEST_KEY, dir), 2) == NEIGHBOR_TEST_PATHS[dir]
  {
    NeighborLocationsOfTestKey(dir);
    PathsOfTestLocations(dir);
  }

  /** A key; the methods update `location` in place as the `&mut self` methods do. */
  class LinearQuadTreeNode {
    var location: bv32

    /** `Default::default()`: the root key. */
    constructor Default()
      ensures location == 0
    {
      location := 0;
    }

    constructor FromLocation(location: bv32)
      ensures this.location == location
    {
      this.location := location;
    }

    constructor New(coordinate: bv32, level: bv32)
      requires NoCarry(level << 24, coordinate)
      ensures location == NewLocation(coordinate, level)
    {
      location := NewLocation(coordinate, level);
    }

    /**
     * The eight equal-level neighbours, as location words. The requires is the u32
     * subtraction `RESOLUTION - level` not underflowing.
     */
    method ComputeNeighbors() returns (ret: array<Option<bv32>>)
      requires Level(location) <= RESOLUTION
      ensures fresh(ret) && ret.Length == 8
      ensures forall i :: 0 <= i < 8 ==> ret[i] == Some(NeighborLocation(location, i))
    {
      ret := new Option<bv32>[8](_ => None);
      var ni := Coordinate(location);
      var level := Level(location);
      for i := 0 to 8
        invariant forall j :: 0 <= j < i ==> ret[j] == Some(NeighborLocation(location, j))
      {
        var mi := NeighborCoordinate(ni, level, i);
        ret[i] := Some(NewLocation(mi, level));
      }
    }

    /** The quadrants of levels 1..level, read with the corrected level bound. */
    method CoordinateInQuadrants() returns (ret: seq<Quadrant>)
      requires Level(location) <= RESOLUTION
      ensures ret == PathOf(location, Level(location))
    {
      ret := [];
      var level := Level(location);
      var i: bv32 := 0;
      while i < level
        invariant i <= level
        invariant ret == PathOf(location, i)
      {
        ret := ret + [QuadrantOfLevel(location, i + 1)];
        i := i + 1;
      }
    }

    method WriteLevel(q: Quadrant)
      requires Level(location) < RESOLUTION
      modifies this
      ensures location == WithLevelWritten(old(location), q)
    {
      location := WithLevelWritten(location, q);
    }

    method RemoveLevel()
      requires Level(location) <= RESOLUTION
      modifies this
      ensures location == WithLevelRemoved(old(location))
    {
      location := WithLevelRemoved(location);
    }

    /** The requires is `assert_ne!(overflow, 16)`. */
    method IncrementOverflow()
      requires Overflow(location).UnwrapOr(0) != 15
      modifies this
      ensures location == WithOverflowIncremented(old(location))
    {
      location := WithOverflowIncremented(location);
    }

    method Child(q: Quadrant) returns (ret: LinearQuadTreeNode)
      requires Level(location) <= RESOLUTION
      requires Overflow(location).Some? || Level(location) == RESOLUTION ==> Overflow(location).UnwrapOr(0) != 15
      ensures fresh(ret) && ret.location == ChildKey(location, q)
    {
      ret := new LinearQuadTreeNode.FromLocation(location);
      if Overflow(ret.location).Some? || Level(ret.location) == RESOLUTION {
        ret.IncrementOverflow();
      } else {
        ret.WriteLevel(q);
      }
    }

    method Parent() returns (ret: LinearQuadTreeNode)
      requires Level(location) <= RESOLUTION
      ensures fresh(ret) && ret.location == WithLevelRemoved(location)
    {
      ret := new LinearQuadTreeNode.FromLocation(location);
      ret.RemoveLevel();
    }
  }
}
