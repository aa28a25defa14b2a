/**
 The spatial index over grid cells. Its columns are 32-bit integers: the upper bounds are computed in 64 bits
 and cut off, and a row whose minimum then exceeds its maximum is not stored.
 */
module SpatialIndex {
  import opened Aabb
  import opened Chunk
  import opened Options
  import opened Powers
  import opened StreamTables

  // The low 32 bits as a signed integer.
  function Wrap32(v: int): (r: int)
    ensures Int32(r)
  {
    ToSigned(v % TWO_32)
  }

  // The upper bound of a cell on one axis.
  function UpperBound(tile: int, level: nat): (r: int)
  {
    Wrap32(tile + Side(level))
  }

  // The row of a cell; None when it is rejected.
  function RegionOf(c: Chunk): (r: Option<Corners>)
  {
    var row := Corners(c.x, UpperBound(c.x, c.level), c.y, UpperBound(c.y, c.level), c.z, UpperBound(c.z, c.level));
    if row.minX <= row.maxX && row.minY <= row.maxY && row.minZ <= row.maxZ then Some(row) else None
  }

  predicate Overlap(r: Corners, q: Corners)
  {
    && r.minX <= q.maxX && q.minX <= r.maxX
    && r.minY <= q.maxY && q.minY <= r.maxY
    && r.minZ <= q.maxZ && q.minZ <= r.maxZ
  }

  // Whether a query with these corners meets the cell.
  predicate RegionMeets(c: Chunk, q: Corners)
  {
    RegionOf(c).Some? && Overlap(RegionOf(c).value, q)
  }

  predicate PointWithin(x: int, y: int, z: int, q: Corners)
  {
    q.minX <= x <= q.maxX && q.minY <= y <= q.maxY && q.minZ <= z <= q.maxZ
  }

  predicate CornerWithin(b: Box, q: Corners)
  {
    PointWithin(Trunc(b.position.x), Trunc(b.position.y), Trunc(b.position.z), q)
  }

  lemma SideFits(level: nat)
    ensures level <= 15 ==> Side(level) <= 0x4000_0000
    ensures level >= 16 ==> Side(level) % TWO_32 == 0
  {
    if level <= 15 {
      Pow2Grows(2 * level, 30);
      assert Pow2(31) == 2 * Pow2(30);
      Pow2Of32();
    } else {
      Pow2Sum(32, 2 * level - 32);
      Pow2Of32();
      MultipleOf(TWO_32, Pow2(2 * level - 32));
    }
  }

  lemma MultipleOf(n: nat, k: nat)
    requires n > 0
    ensures (n * k) % n == 0
  {
    var q, r := DivMod(n * k, n);
    QuotientUnique(n, k, 0, q, r);
  }

  lemma WrapExact(tile: int, side: nat)
    requires Int32(tile)
    ensures side <= 0x4000_0000 && tile + side < 0x8000_0000 ==> Wrap32(tile + side) == tile + side
    ensures side <= 0x4000_0000 && tile + side >= 0x8000_0000 ==> Wrap32(tile + side) == tile + side - TWO_32
    ensures side % TWO_32 == 0 ==> Wrap32(tile + side) == tile
  {
  }

  // Up to level 15 the bound is the end of the cell, or too small by 2^32 when the cell ends beyond the range;
  // from level 16 on nothing of the edge length is left.
  lemma UpperBoundExact(tile: int, level: nat)
    requires Int32(tile)
    ensures level <= 15 && tile + Side(level) < 0x8000_0000 ==> UpperBound(tile, level) == tile + Side(level)
    ensures level <= 15 && tile + Side(level) >= 0x8000_0000 ==> UpperBound(tile, level) < tile
    ensures level >= 16 ==> UpperBound(tile, level) == tile
  {
    hide Side;
    SideFits(level);
    WrapExact(tile, Side(level));
  }

  // The end of the cell is a 32-bit integer on every axis.
  predicate EndsInRange(c: Chunk)
  {
    c.x + Side(c.level) < 0x8000_0000 && c.y + Side(c.level) < 0x8000_0000 && c.z + Side(c.level) < 0x8000_0000
  }

  // What a query meets: up to level 15 the closed cell, if its ends are in range, and nothing at all if they
  // are not; from level 16 on the single point of the tile.
  lemma RegionExact(c: Chunk, q: Corners)
    ensures RegionMeets(c, q) <==>
              if c.level <= 15
              then EndsInRange(c) && Overlap(Corners(c.x, c.x + Side(c.level), c.y, c.y + Side(c.level),
                                                     c.z, c.z + Side(c.level)), q)
              else PointWithin(c.x, c.y, c.z, q)
  {
    hide UpperBound;
    UpperBoundExact(c.x, c.level);
    UpperBoundExact(c.y, c.level);
    UpperBoundExact(c.z, c.level);
  }

  // The points of a stored region: up to level 15 those of the closed cell, from level 16 on the tile alone.
  predicate InRegion(c: Chunk, x: int, y: int, z: int)
  {
    if c.level <= 15 then
      && c.x <= x <= c.x + Side(c.level) < 0x8000_0000
      && c.y <= y <= c.y + Side(c.level) < 0x8000_0000
      && c.z <= z <= c.z + Side(c.level) < 0x8000_0000
    else x == c.x && y == c.y && z == c.z
  }

  // A cell and a query box with its corners cut to integers share an integer point.
  ghost predicate SharePoint(c: Chunk, query: Box)
  {
    exists x, y, z {:trigger InRegion(c, x, y, z)} ::
      && InRegion(c, x, y, z)
      && Trunc(query.position.x) <= x <= Trunc(query.End().x)
      && Trunc(query.position.y) <= y <= Trunc(query.End().y)
      && Trunc(query.position.z) <= z <= Trunc(query.End().z)
  }

  // Some point of the region is not beyond the query's end on any axis, and some point is not before its start.
  ghost predicate ReachBothEnds(c: Chunk, query: Box)
  {
    && (exists x, y, z {:trigger InRegion(c, x, y, z)} ::
          InRegion(c, x, y, z)
          && x <= Trunc(query.End().x) && y <= Trunc(query.End().y) && z <= Trunc(query.End().z))
    && exists x, y, z {:trigger InRegion(c, x, y, z)} ::
         InRegion(c, x, y, z)
         && Trunc(query.position.x) <= x && Trunc(query.position.y) <= y && Trunc(query.position.z) <= z
  }

  function Further(a: int, b: int): (m: int)
    ensures m >= a && m >= b && (m == a || m == b)
  {
    if a > b then a else b
  }

  // A query meets exactly the cells it shares a point with. A box of negative size holds no point; what the
  // comparisons mean for it is the first clause, which holds for every box.
  lemma MeetsIffSharesPoint(c: Chunk, query: Box)
    ensures RegionMeets(c, CornersOf(query)) <==> ReachBothEnds(c, query)
    ensures query.NonNegative() ==> (RegionMeets(c, CornersOf(query)) <==> SharePoint(c, query))
  {
    hide RegionMeets, Side;
    RegionExact(c, CornersOf(query));
    if RegionMeets(c, CornersOf(query)) {
      var side := if c.level <= 15 then Side(c.level) else 0;
      assert InRegion(c, c.x, c.y, c.z) && InRegion(c, c.x + side, c.y + side, c.z + side);
      var start := query.position;
      assert query.NonNegative() ==>
          InRegion(c, Further(c.x, Trunc(start.x)), Further(c.y, Trunc(start.y)), Further(c.z, Trunc(start.z)));
    }
  }

  // The guard under which a box is found by whatever query holds its truncated corner.
  predicate Findable(b: Box, c: Chunk)
  {
    if c.level <= 15 then EndsInRange(c) else CornerWithin(b, Corners(0, 0, 0, 0, 0, 0))
  }

  lemma CellOfBox(b: Box, estimate: nat)
    requires InGrid(b)
    ensures var c := ComputeChunk(b, estimate);
            c.level >= 16 ==> c.x == 0 && c.y == 0 && c.z == 0
  {
    var c := ComputeChunk(b, estimate);
    if c.level >= 16 {
      HighLevelTile(Trunc(b.position.x), c.level);
      HighLevelTile(Trunc(b.position.y), c.level);
      HighLevelTile(Trunc(b.position.z), c.level);
    }
  }

  // The box that is just the truncated corner.
  function CornerBox(b: Box): (r: Box)
  {
    var x, y, z := Trunc(b.position.x), Trunc(b.position.y), Trunc(b.position.z);
    BoxOf(Corners(x, x, y, y, z, z))
  }

  // Every query box that holds the truncated corner meets the box's cell exactly under that guard.
  lemma FoundIff(b: Box, estimate: nat)
    requires InGrid(b)
    ensures (forall query: Box :: CornerWithin(b, CornersOf(query)) ==>
               RegionMeets(ComputeChunk(b, estimate), CornersOf(query)))
            <==> Findable(b, ComputeChunk(b, estimate))
  {
    hide ComputeChunk, RegionMeets, CornersOf, Side;
    var c := ComputeChunk(b, estimate);
    CellOfBox(b, estimate);
    ChunkHoldsCorner(b, estimate);
    if Findable(b, c) {
      forall query: Box | CornerWithin(b, CornersOf(query))
        ensures RegionMeets(c, CornersOf(query))
      {
        RegionExact(c, CornersOf(query));
      }
    } else {
      var query := CornerBox(b);
      LoadedIsIntegral(Corners(Trunc(b.position.x), Trunc(b.position.x), Trunc(b.position.y), Trunc(b.position.y),
                               Trunc(b.position.z), Trunc(b.position.z)));
      RegionExact(c, CornersOf(query));
      assert CornerWithin(b, CornersOf(query)) && !RegionMeets(c, CornersOf(query));
    }
  }

  // A box of edge 2^30 at 2^30 on one axis is filed under a cell that no query ever meets.
  lemma TopCellIsNeverMet(q: Corners)
    ensures var b := Box(Vector3(1073741824.0, 0.0, 0.0), Vector3(1073741824.0, 0.0, 0.0));
            InGrid(b) && ComputeChunk(b, 15).level == 15 && !RegionMeets(ComputeChunk(b, 15), q)
  {
    hide MaskCoord, RegionMeets;
    var b := Box(Vector3(1073741824.0, 0.0, 0.0), Vector3(1073741824.0, 0.0, 0.0));
    Pow2Of32();
    assert Pow2(31) == 2 * Pow2(30);
    assert Side(15) == 0x4000_0000;
    var c := ComputeChunk(b, 15);
    assert c.level == 15;
    MaskedTile(0x4000_0000, 15);
    CellOfBox(b, 15);
    RegionExact(c, q);
  }
}
