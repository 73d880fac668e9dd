/**
 Points and axis-aligned regions of the explorer, and the closed rectangle test
 `is_within_region` of minos/tools/pygame_client.py. Coordinates are reals: the
 source compares them, subtracts, adds and scales by 2 and by 1/3, all exact on reals.
 */
module Geometry {

  /** An agent position `[x, y, z]`; y is the height and plays no part in any test. */
  datatype Position = Position(x: real, y: real, z: real)

  /** `[0, 0, 0]`, which the explorer reads as "position not known yet". */
  const Origin := Position(0.0, 0.0, 0.0)

  /** A bounds record: the dictionary with keys start_x .. end_z. */
  datatype Region = Region(startX: real, startY: real, startZ: real, endX: real, endY: real, endZ: real)

  /** Python's two-argument `min` and `max` on numbers. */
  function Min(a: real, b: real): real { if b < a then b else a }
  function Max(a: real, b: real): real { if b > a then b else a }

  /** v lies on the closed segment between a and b, whichever of the two is larger. */
  predicate Between(v: real, a: real, b: real) {
    (a <= v && v <= b) || (b <= v && v <= a)
  }

  /** The same region with its start and end corners exchanged. */
  function Swapped(r: Region): Region {
    Region(r.endX, r.endY, r.endZ, r.startX, r.startY, r.startZ)
  }

  /** A region whose corners are two given positions. */
  function Spanned(start: Position, end: Position): Region {
    Region(start.x, start.y, start.z, end.x, end.y, end.z)
  }

  /**
   `is_within_region`: the point lies in the closed x/z rectangle spanned by the
   two corners, in whatever order the corners are given.
   */
  function IsWithinRegion(p: Position, r: Region): (b: bool)
    ensures b <==> Between(p.x, r.startX, r.endX) && Between(p.z, r.startZ, r.endZ)
  {
    p.x >= Min(r.startX, r.endX) && p.z >= Min(r.startZ, r.endZ)
    && p.x <= Max(r.startX, r.endX) && p.z <= Max(r.startZ, r.endZ)
  }

  /** Exchanging a region's corners never changes the test. */
  lemma WithinSymmetric(p: Position, r: Region)
    ensures IsWithinRegion(p, Swapped(r)) == IsWithinRegion(p, r)
  {
  }

  /** The test reads only coordinates x and z: neither the point's nor the region's y matters. */
  lemma WithinIgnoresY(p: Position, r: Region, py: real, sy: real, ey: real)
    ensures IsWithinRegion(p.(y := py), r.(startY := sy, endY := ey)) == IsWithinRegion(p, r)
  {
  }

  /** Both corners of a region lie inside it. */
  lemma CornersWithin(r: Region, y: real)
    ensures IsWithinRegion(Position(r.startX, y, r.startZ), r)
    ensures IsWithinRegion(Position(r.endX, y, r.endZ), r)
  {
  }
}
