/**
 * The earlier draft of the linear quadtree key (`linear_quadtree_node.rs`).
 *
 * The draft has no overflow field: its level is the whole top byte of the word,
 * and it has no mutators, so a key is a value. Its neighbour computation is the
 * same masked addition as the later key's, and on every word both can read it
 * agrees with the later key.
 */
module LinearQuadtreeNodeDraft {
  import opened Wrappers
  import opened Quadrants
  import opened KeyLayout
  import Key = LinearQuadtreeKey

  datatype DraftNode = DraftNode(location: bv32) {

    /** `level()`: the top byte, `location >> 24`, with no mask. */
    function Level(): (l: bv32)
      ensures l < 256
    {
      location >> 24
    }

    /**
     * The eight equal-level neighbours. The requires is the u32 subtraction
     * `RESOLUTION - level` not underflowing.
     */
    method ComputeNeighbors() returns (ret: array<Option<DraftNode>>)
      requires Level() <= RESOLUTION
      ensures fresh(ret) && ret.Length == 8
      ensures forall i :: 0 <= i < 8 ==> ret[i] == Some(Neighbor(this, i))
    {
      ret := new Option<DraftNode>[8](_ => None);
      var ni := Coordinate(location);
      var level := Level();
      for i := 0 to 8
        invariant forall j :: 0 <= j < i ==> ret[j] == Some(Neighbor(this, j))
      {
        var mi := NeighborCoordinate(ni, level, i);
        ret[i] := Some(New(mi, level));
      }
    }

    /**
     * `coordinate_in_quadrants`: pushes `quadrant_at_level(i + 1)` for i below the
     * level; the assert in `quadrant_at_level` panics (None) once i + 1 reaches
     * RESOLUTION.
     */
    method CoordinateInQuadrants() returns (ret: Option<seq<Quadrant>>)
      ensures ret.None? <==> Level() >= RESOLUTION
      ensures ret.Some? ==> ret.value == PathOf(location, Level())
    {
      var level := Level();
      var path: seq<Quadrant> := [];
      var i: bv32 := 0;
      while i < level
        invariant i <= level && i < RESOLUTION
        invariant path == PathOf(location, i)
      {
        if i + 1 >= RESOLUTION {
          return None;
        }
        path := path + [QuadrantAtLevel(location, i + 1)];
        i := i + 1;
      }
      return Some(path);
    }
  }

  /** `new(coordinate, level)`: the level in the top byte plus the coordinate. */
  function New(coordinate: bv32, level: bv32): DraftNode
    requires NoCarry(level << 24, coordinate)
  {
    DraftNode(NewLocation(coordinate, level))
  }

  /** The neighbour the loop produces for one direction. */
  function Neighbor(n: DraftNode, dir: nat): (r: DraftNode)
    requires n.Level() <= RESOLUTION && dir < 8
    ensures r.Level() == n.Level()
    ensures Coordinate(r.location) == NeighborCoordinate(Coordinate(n.location), n.Level(), dir)
  {
    NewRoundTrip(NeighborCoordinate(Coordinate(n.location), n.Level(), dir), n.Level());
    New(NeighborCoordinate(Coordinate(n.location), n.Level(), dir), n.Level())
  }

  lemma NewFits(coordinate: bv32, level: bv32)
    requires coordinate <= COORDINATE_MASK && level < 256
    ensures NoCarry(level << 24, coordinate)
  {
  }

  lemma NewLevel(coordinate: bv32, level: bv32)
    requires coordinate <= COORDINATE_MASK && level < 256
    ensures ((level << 24) + coordinate) >> 24 == level
  {
  }

  lemma NewCoordinate(coordinate: bv32, level: bv32)
    requires coordinate <= COORDINATE_MASK && level < 256
    ensures Coordinate((level << 24) + coordinate) == coordinate
  {
  }

  /** `new(c, level)` reads back c and level for a 24-bit c and any 8-bit level. */
  lemma NewRoundTrip(coordinate: bv32, level: bv32)
    requires coordinate <= COORDINATE_MASK && level < 256
    ensures NoCarry(level << 24, coordinate)
    ensures Coordinate(New(coordinate, level).location) == coordinate
    ensures New(coordinate, level).Level() == level
  {
    NewFits(coordinate, level);
    NewLevel(coordinate, level);
    NewCoordinate(coordinate, level);
  }

  /** On words whose top nibble is clear the draft and the later key read the same level. */
  lemma LevelAgrees(n: DraftNode)
    requires n.Level() <= RESOLUTION
    ensures Key.Level(n.location) == n.Level()
  {
  }

  /** On keys the draft can hold, its neighbours are the later key's neighbours. */
  lemma NeighborAgrees(n: DraftNode, dir: nat)
    requires n.Level() <= RESOLUTION && dir < 8
    ensures Key.Level(n.location) <= RESOLUTION
    ensures Neighbor(n, dir).location == Key.NeighborLocation(n.location, dir)
  {
    LevelAgrees(n);
  }

  /**
   * `test_location_level` (whose asserts name an undefined `node`; read as `node1`):
   * `new` and `from_location` give the same key, with quadrants TR, TL, BR, BL and
   * level 7.
   */
  lemma LocationLevelVector()
    ensures New(0x39 << 18, 7) == DraftNode(0x07E4_0000)
    ensures DraftNode(0x07E4_0000).Level() == 7
    ensures PathOf(0x07E4_0000, 4) == [TR, TL, BR, BL]
  {
  }

  /** `test_quadtree_neighbors`: the draft gives the same neighbour paths as the key. */
  lemma NeighborVector(dir: nat)
    requires dir < 8
    ensures New(0x60_0000, 2).Level() == 2
    ensures PathOf(Neighbor(New(0x60_0000, 2), dir).location, 2) == Key.NEIGHBOR_TEST_PATHS[dir]
  {
    Key.NeighborTestKey();
    NeighborAgrees(New(0x60_0000, 2), dir);
    Key.NeighborVector(dir);
  }
}
