/**
 * The bit layout shared by both linear quadtree key types, and the constant-time
 * equal-size neighbour computation of G. Schrack, "Finding Neighbors of Equal Size
 * in Linear Quadtrees and Octrees in Constant Time" (1991).
 *
 * Bits [23:0] of a key's location word hold 12 two-bit quadrant codes, the code of
 * level 1 in bits [23:22] and the code of level k in bits [25-2k:24-2k]. Within each
 * pair the low bit belongs to x and the high bit to y, so masking the coordinate with
 * T_X (or T_Y) gives the x (or y) position as a "dilated" integer.
 */
module KeyLayout {
  import opened Quadrants

  /** Maximum depth of a key. */
  const RESOLUTION: bv32 := 12
  /** The x bits of the coordinate field (even bit positions). */
  const T_X: bv32 := 0x555555
  /** The y bits of the coordinate field (odd bit positions). */
  const T_Y: bv32 := 0xAAAAAA
  /** The coordinate field, bits [23:0]. */
  const COORDINATE_MASK: bv32 := 0xFFFFFF

  /**
   * Per-direction steps, in dilated form, for a key of level RESOLUTION:
   * east, north-east, north, north-west, west, south-west, south, south-east.
   * A step of -1 on an axis is that axis' mask (all ones in the dilated field).
   */
  const DIRECTION_INCREMENTS: seq<bv32> :=
    [0x000001, 0x000003, 0x000002, 0x555557, 0x555555, 0xFFFFFF, 0xAAAAAA, 0xAAAAAB]

  const EAST: nat := 0
  const NORTH_EAST: nat := 1
  const NORTH: nat := 2
  const NORTH_WEST: nat := 3
  const WEST: nat := 4
  const SOUTH_WEST: nat := 5
  const SOUTH: nat := 6
  const SOUTH_EAST: nat := 7

  /** The direction pointing the other way. */
  function Opposite(dir: nat): nat
    requires dir < 8
  {
    (dir + 4) % 8
  }

  /** The coordinate field of a location word. */
  function Coordinate(location: bv32): bv32 {
    location & COORDINATE_MASK
  }

  /** The unsigned 32-bit sum a + b does not wrap (a panic in debug builds). */
  predicate NoCarry(a: bv32, b: bv32) {
    a + b >= a
  }

  /**
   * `new(coordinate, level)`: the level shifted into the top byte plus the
   * coordinate. The requires is the unsigned addition not overflowing (a panic in
   * debug builds).
   */
  function NewLocation(coordinate: bv32, level: bv32): bv32
    requires NoCarry(level << 24, coordinate)
  {
    (level << 24) + coordinate
  }

  /**
   * `quadrant_at_level` as written: decodes the pair at bit 2 * (12 - level) and
   * asserts `level < RESOLUTION`.
   */
  function QuadrantAtLevel(location: bv32, level: bv32): Quadrant
    requires level < RESOLUTION
  {
    FromCode((location >> ((12 - level) * 2)) & 0x3)
  }

  /**
   * The quadrant stored for level k, for every level 1..RESOLUTION (the bound
   * `quadrant_at_level` evidently intends: level RESOLUTION is the deepest one).
   */
  function QuadrantOfLevel(location: bv32, k: bv32): (q: Quadrant)
    requires 1 <= k <= RESOLUTION
    ensures k < RESOLUTION ==> q == QuadrantAtLevel(location, k)
  {
    FromCode(Slot(location, RESOLUTION - k))
  }

  /** The 2-bit field at bits [2i+1:2i]; slot i holds the code of level 12 - i. */
  function Slot(w: bv32, i: bv32): (c: bv32)
    requires i < RESOLUTION
    ensures c < 4
  {
    (w >> (2 * i)) & 0x3
  }

  /** `w` with slot i replaced by the code c. */
  function ReplaceSlot(w: bv32, i: bv32, c: bv32): bv32
    requires i < RESOLUTION && c < 4
  {
    (w & !(0x3 << (2 * i))) | (c << (2 * i))
  }

  /** Reading a slot after replacing one: the new code there, the old one elsewhere. */
  lemma SlotOfReplaceSlot(w: bv32, i: bv32, j: bv32, c: bv32)
    requires i < RESOLUTION && j < RESOLUTION && c < 4
    ensures Slot(ReplaceSlot(w, j, c), i) == if i == j then c else Slot(w, i)
  {
  }

  /** Replacing a slot leaves bits [31:24] alone. */
  lemma ReplaceSlotKeepsTop(w: bv32, j: bv32, c: bv32)
    requires j < RESOLUTION && c < 4
    ensures ReplaceSlot(w, j, c) >> 24 == w >> 24
  {
  }

  /** A second replacement of the same slot overrides the first. */
  lemma ReplaceSlotTwice(w: bv32, j: bv32, c: bv32, d: bv32)
    requires j < RESOLUTION && c < 4 && d < 4
    ensures ReplaceSlot(ReplaceSlot(w, j, c), j, d) == ReplaceSlot(w, j, d)
  {
  }

  /** Writing back the code a slot already holds changes nothing. */
  lemma ReplaceSlotSame(w: bv32, j: bv32)
    requires j < RESOLUTION
    ensures ReplaceSlot(w, j, Slot(w, j)) == w
  {
  }

  /**
   * The quadrants a key of `level` descends through, from level 1 down; this is what
   * `coordinate_in_quadrants` is meant to list.
   */
  function PathOf(location: bv32, level: bv32): (p: seq<Quadrant>)
    requires level <= RESOLUTION
    decreases level
  {
    if level == 0 then [] else PathOf(location, level - 1) + [QuadrantOfLevel(location, level)]
  }

  /** Two words that agree on the slots of levels 1..level have the same path to that level. */
  lemma {:induction false} PathOfSlots(a: bv32, b: bv32, level: bv32)
    requires level <= RESOLUTION
    requires forall i: bv32 :: RESOLUTION - level <= i < RESOLUTION ==> Slot(a, i) == Slot(b, i)
    ensures PathOf(a, level) == PathOf(b, level)
    decreases level
  {
    if level != 0 {
      PathOfSlots(a, b, level - 1);
      assert Slot(a, RESOLUTION - level) == Slot(b, RESOLUTION - level);
    }
  }

  /** Bits of the coordinate that lie deeper than `level`. */
  function FinerMask(level: bv32): bv32
    requires level <= RESOLUTION
  {
    (1 << ((RESOLUTION - level) * 2)) - 1
  }

  /** A word clear under FinerMask(level) holds zero in every slot below that level. */
  lemma FinerMaskSlot(w: bv32, level: bv32, i: bv32)
    requires level <= RESOLUTION && i < RESOLUTION - level && w & FinerMask(level) == 0
    ensures Slot(w, i) == 0
  {
  }

  /** Writing the slot of level + 1 keeps a word clear below level + 1. */
  lemma ReplaceSlotFinerMask(w: bv32, level: bv32, c: bv32)
    requires level < RESOLUTION && c < 4 && w & FinerMask(level) == 0
    ensures ReplaceSlot(w, RESOLUTION - (level + 1), c) & FinerMask(level + 1) == 0
  {
  }

  /** Clearing the slot of `level` makes a word clear below level - 1. */
  lemma ClearSlotFinerMask(w: bv32, level: bv32)
    requires 1 <= level <= RESOLUTION && w & FinerMask(level) == 0
    ensures ReplaceSlot(w, RESOLUTION - level, 0) & FinerMask(level - 1) == 0
  {
  }

  /** The direction step aligned to `level` (line 75 of either key file). */
  function Increment(dir: nat, level: bv32): bv32
    requires dir < 8 && level <= RESOLUTION
  {
    DIRECTION_INCREMENTS[dir] << (2 * (RESOLUTION - level))
  }

  /**
   * Masked dilated addition: the x and y parts of the step are added to the x and y
   * parts of the coordinate separately; OR-ing in the other axis' mask first makes a
   * carry run through the other axis' bits instead of stopping there.
   */
  function NeighborCoordinate(ni: bv32, level: bv32, dir: nat): (mi: bv32)
    requires ni <= COORDINATE_MASK && dir < 8 && level <= RESOLUTION
    ensures mi <= COORDINATE_MASK
  {
    MaskedAdd(ni, Increment(dir, level))
  }

  /** The x part of a coordinate, as a dilated integer. */
  function XBits(w: bv32): bv32 {
    w & T_X
  }

  /** The y part of a coordinate, as a dilated integer. */
  function YBits(w: bv32): bv32 {
    w & T_Y
  }

  /** The masked addition of one dilated step to a coordinate. */
  function MaskedAdd(ni: bv32, delta: bv32): bv32 {
    (((ni | T_Y) + (delta & T_X)) & T_X) | (((ni | T_X) + (delta & T_Y)) & T_Y)
  }

  /** T_X and T_Y split the coordinate field; west, south and south-west are -1 steps. */
  lemma MasksAndIncrements()
    ensures T_X & T_Y == 0 && T_X | T_Y == COORDINATE_MASK
    ensures DIRECTION_INCREMENTS[WEST] == T_X
    ensures DIRECTION_INCREMENTS[SOUTH] == T_Y
    ensures DIRECTION_INCREMENTS[SOUTH_WEST] == T_X | T_Y
    ensures DIRECTION_INCREMENTS[NORTH_WEST] & T_X == T_X && DIRECTION_INCREMENTS[NORTH_WEST] & T_Y == 2
    ensures DIRECTION_INCREMENTS[SOUTH_EAST] & T_Y == T_Y && DIRECTION_INCREMENTS[SOUTH_EAST] & T_X == 1
  {
  }

  // Each helper below fixes the step constants, which keeps the bit-vector
  // problems small enough for the solver.

  lemma EastKeepsY(ni: bv32, level: bv32)
    requires ni <= COORDINATE_MASK && level <= RESOLUTION
    ensures YBits(MaskedAdd(ni, 1 << (2 * (RESOLUTION - level)))) == YBits(ni)
  {
  }

  lemma WestKeepsY(ni: bv32, level: bv32)
    requires ni <= COORDINATE_MASK && level <= RESOLUTION
    ensures YBits(MaskedAdd(ni, 0x555555 << (2 * (RESOLUTION - level)))) == YBits(ni)
  {
  }

  lemma NorthKeepsX(ni: bv32, level: bv32)
    requires ni <= COORDINATE_MASK && level <= RESOLUTION
    ensures XBits(MaskedAdd(ni, 2 << (2 * (RESOLUTION - level)))) == XBits(ni)
  {
  }

  lemma SouthKeepsX(ni: bv32, level: bv32)
    requires ni <= COORDINATE_MASK && level <= RESOLUTION
    ensures XBits(MaskedAdd(ni, 0xAAAAAA << (2 * (RESOLUTION - level)))) == XBits(ni)
  {
  }

  lemma EastThenWest(ni: bv32, level: bv32)
    requires ni <= COORDINATE_MASK && level <= RESOLUTION
    ensures MaskedAdd(MaskedAdd(ni, 1 << (2 * (RESOLUTION - level))), 0x555555 << (2 * (RESOLUTION - level))) == ni
  {
  }

  lemma WestThenEast(ni: bv32, level: bv32)
    requires ni <= COORDINATE_MASK && level <= RESOLUTION
    ensures MaskedAdd(MaskedAdd(ni, 0x555555 << (2 * (RESOLUTION - level))), 1 << (2 * (RESOLUTION - level))) == ni
  {
  }

  lemma NorthThenSouth(ni: bv32, level: bv32)
    requires ni <= COORDINATE_MASK && level <= RESOLUTION
    ensures MaskedAdd(MaskedAdd(ni, 2 << (2 * (RESOLUTION - level))), 0xAAAAAA << (2 * (RESOLUTION - level))) == ni
  {
  }

  lemma SouthThenNorth(ni: bv32, level: bv32)
    requires ni <= COORDINATE_MASK && level <= RESOLUTION
    ensures MaskedAdd(MaskedAdd(ni, 0xAAAAAA << (2 * (RESOLUTION - level))), 2 << (2 * (RESOLUTION - level))) == ni
  {
  }

  /** An east or west step keeps the y bits; a north or south step keeps the x bits. */
  lemma NeighborAxisIndependence(ni: bv32, level: bv32, dir: nat)
    requires ni <= COORDINATE_MASK && level <= RESOLUTION
    requires dir in {EAST, WEST, NORTH, SOUTH}
    ensures dir in {EAST, WEST} ==> YBits(NeighborCoordinate(ni, level, dir)) == YBits(ni)
    ensures dir in {NORTH, SOUTH} ==> XBits(NeighborCoordinate(ni, level, dir)) == XBits(ni)
  {
    assert DIRECTION_INCREMENTS[EAST] == 1 && DIRECTION_INCREMENTS[WEST] == 0x555555;
    assert DIRECTION_INCREMENTS[NORTH] == 2 && DIRECTION_INCREMENTS[SOUTH] == 0xAAAAAA;
    if dir == EAST {
      EastKeepsY(ni, level);
    } else if dir == WEST {
      WestKeepsY(ni, level);
    } else if dir == NORTH {
      NorthKeepsX(ni, level);
    } else {
      SouthKeepsX(ni, level);
    }
  }

  /** A neighbour keeps every coordinate bit deeper than the key's level. */
  lemma NeighborKeepsFinerBits(ni: bv32, level: bv32, dir: nat)
    requires ni <= COORDINATE_MASK && level <= RESOLUTION && dir < 8
    ensures NeighborCoordinate(ni, level, dir) & FinerMask(level) == ni & FinerMask(level)
  {
  }

  /**
   * East and west, and north and south, undo each other: stepping one way and then
   * the other returns the starting coordinate, wrapping around the field edges.
   */
  lemma NeighborOpposite(ni: bv32, level: bv32, dir: nat)
    requires ni <= COORDINATE_MASK && level <= RESOLUTION
    requires dir in {EAST, WEST, NORTH, SOUTH}
    ensures NeighborCoordinate(NeighborCoordinate(ni, level, dir), level, Opposite(dir)) == ni
  {
    assert DIRECTION_INCREMENTS[EAST] == 1 && DIRECTION_INCREMENTS[WEST] == 0x555555;
    assert DIRECTION_INCREMENTS[NORTH] == 2 && DIRECTION_INCREMENTS[SOUTH] == 0xAAAAAA;
    if dir == EAST {
      EastThenWest(ni, level);
    } else if dir == WEST {
      WestThenEast(ni, level);
    } else if dir == NORTH {
      NorthThenSouth(ni, level);
    } else {
      SouthThenNorth(ni, level);
    }
  }
}
