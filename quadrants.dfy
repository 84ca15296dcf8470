/**
 * The four quadrants of a rectangle and their 2-bit codes.
 *
 * A code packs one bit per axis: the low bit is the x half (0 left, 1 right) and
 * the high bit the y half (0 bottom, 1 top), so BL = 00, BR = 01, TL = 10, TR = 11.
 */
module Quadrants {

  datatype Quadrant = TL | TR | BL | BR

  /** The iteration order used by the sibling loops of the linear quadtree. */
  const QUADRANTS: seq<Quadrant> := [BL, BR, TL, TR]

  /** The 2-bit code a key stores for a quadrant. */
  function Code(q: Quadrant): (c: bv32)
    ensures c < 4
  {
    match q
    case BL => 0
    case BR => 1
    case TL => 2
    case TR => 3
  }

  /** Decodes a 2-bit code; the inverse of `Code`. */
  function FromCode(c: bv32): (q: Quadrant)
    requires c < 4
    ensures Code(q) == c
  {
    if c == 0 then BL
    else if c == 1 then BR
    else if c == 2 then TL
    else TR
  }

  lemma CodeRoundTrip(q: Quadrant)
    ensures FromCode(Code(q)) == q
  {
  }

  /** QUADRANTS lists every quadrant exactly once. */
  lemma QuadrantsEnumeration()
    ensures |QUADRANTS| == 4
    ensures forall q: Quadrant :: q in QUADRANTS
    ensures forall i, j :: 0 <= i < j < |QUADRANTS| ==> QUADRANTS[i] != QUADRANTS[j]
  {
    forall q: Quadrant ensures q in QUADRANTS {
      match q
      case BL => assert QUADRANTS[0] == q;
      case BR => assert QUADRANTS[1] == q;
      case TL => assert QUADRANTS[2] == q;
      case TR => assert QUADRANTS[3] == q;
    }
  }
}
