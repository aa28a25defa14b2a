/**
 The power-of-four grid: which cell a box is filed under. Floating-point numbers are exact reals; the
 logarithm that picks the level is a parameter, as its rounding is not part of this model.
 */
module Chunk {
  import opened Aabb
  import opened Powers

  const TWO_32: int := 0x1_0000_0000

  predicate Int32(v: int)
  {
    -0x8000_0000 <= v < 0x8000_0000
  }

  type Tile = v: int | Int32(v)

  datatype Chunk = Chunk(x: Tile, y: Tile, z: Tile, level: nat)

  // The edge length of a cell: 4^level.
  function Side(level: nat): (r: nat)
    ensures r > 0
  {
    Pow2(2 * level)
  }

  // Conversion to an integer, towards zero.
  function Trunc(r: real): (v: int)
  {
    if r >= 0.0 then r.Floor else -(-r).Floor
  }

  // The whole part, with the sign of the number.
  lemma TruncTowardsZero(r: real)
    ensures r >= 0.0 ==> 0 <= Trunc(r) && Trunc(r) as real <= r < Trunc(r) as real + 1.0
    ensures r <= 0.0 ==> Trunc(r) <= 0 && Trunc(r) as real - 1.0 < r <= Trunc(r) as real
  {
  }

  // ---- masking a 32-bit word ----

  function BitAnd(a: nat, b: nat, width: nat): (r: nat)
  {
    if width == 0 then 0 else (a % 2) * (b % 2) + 2 * BitAnd(a / 2, b / 2, width - 1)
  }

  function ToUnsigned(v: int): (u: nat)
    requires Int32(v)
  {
    if v >= 0 then v else v + TWO_32
  }

  function ToSigned(u: nat): (v: int)
  {
    if u < 0x8000_0000 then u else u - TWO_32
  }

  // ~((1 << 2 * level) - 1), or no bit at all when the shift would leave the word.
  function Mask(level: nat): (m: int)
  {
    if 2 * level < 32 then TWO_32 - 1 - (Side(level) - 1) else 0
  }

  lemma Pow2Of32()
    ensures Pow2(31) == 0x8000_0000 && Pow2(32) == TWO_32
  {
    assert Pow2(8) == 256;
    Pow2Sum(8, 8);
    Pow2Sum(16, 16);
  }

  lemma MaskIsWord(level: nat)
    ensures 0 <= Mask(level) < TWO_32
  {
    if 2 * level < 32 {
      Pow2Of32();
      Pow2Grows(2 * level, 32);
    }
  }

  lemma {:induction false} BitAndFits(a: nat, b: nat, width: nat)
    ensures BitAnd(a, b, width) < Pow2(width)
  {
    if width > 0 {
      BitAndFits(a / 2, b / 2, width - 1);
      assert (a % 2) * (b % 2) <= 1;
    }
  }

  function MaskCoord(v: int, level: nat): (r: Tile)
    requires Int32(v)
  {
    MaskIsWord(level);
    BitAndFits(ToUnsigned(v), Mask(level), 32);
    Pow2Of32();
    ToSigned(BitAnd(ToUnsigned(v), Mask(level), 32))
  }

  lemma {:induction false} MulGap(n: nat, a: int, b: int)
    requires a < b
    ensures n * a + n <= n * b
  {
    Distribute(n, a + 1, b - a - 1);
    Distribute(n, a, 1);
    MulNonNegative(n, b - a - 1);
  }

  lemma Distribute(n: int, a: int, b: int)
    ensures n * (a + b) == n * a + n * b
  {
  }

  lemma MulNonNegative(n: nat, d: nat)
    ensures n * d >= 0
  {
  }

  lemma QuotientUnique(n: nat, q: int, r: nat, q': int, r': nat)
    requires n * q + r == n * q' + r' && r < n && r' < n
    ensures q == q' && r == r'
  {
    if q < q' {
      MulGap(n, q, q');
    } else if q' < q {
      MulGap(n, q', q);
    }
  }

  lemma DivMod(u: nat, n: nat) returns (q: nat, r: nat)
    requires n > 0
    ensures q == u / n && r == u % n && r < n && u == n * q + r
  {
    q, r := u / n, u % n;
  }

  // u mod 2p in terms of u / 2 mod p.
  lemma ModHalf(u: nat, p: nat)
    requires p > 0
    ensures u % (2 * p) == 2 * (u / 2 % p) + u % 2
  {
    var q, r := DivMod(u / 2, p);
    var q', r' := DivMod(u, 2 * p);
    Regroup(p, q);
    QuotientUnique(2 * p, q, 2 * r + u % 2, q', r');
  }

  lemma Regroup(p: nat, q: nat)
    ensures 2 * (p * q) == (2 * p) * q
  {
  }

  // A mask of ones only keeps the word.
  lemma {:induction false} AllOnes(u: nat, w: nat)
    requires u < Pow2(w)
    ensures BitAnd(u, Pow2(w) - 1, w) == u
  {
    if w > 0 {
      AllOnes(u / 2, w - 1);
      OddMask(u, Pow2(w - 1) - 1, w);
    }
  }

  lemma OddMask(u: nat, half: nat, w: nat)
    requires w > 0
    ensures BitAnd(u, 2 * half + 1, w) == u % 2 + 2 * BitAnd(u / 2, half, w - 1)
  {
    assert (2 * half + 1) % 2 == 1 && (2 * half + 1) / 2 == half;
  }

  lemma EvenMask(u: nat, half: nat, w: nat)
    requires w > 0
    ensures BitAnd(u, 2 * half, w) == 2 * BitAnd(u / 2, half, w - 1)
  {
    assert 2 * half % 2 == 0 && 2 * half / 2 == half;
  }

  // Masking off the low k bits of a word rounds it down to a multiple of 2^k.
  lemma {:induction false} MaskRoundsDown(u: nat, k: nat, w: nat)
    requires k <= w && u < Pow2(w)
    ensures Pow2(k) <= Pow2(w)
    ensures BitAnd(u, Pow2(w) - Pow2(k), w) == u - u % Pow2(k)
  {
    hide BitAnd;
    Pow2Grows(k, w);
    if k == 0 {
      AllOnes(u, w);
    } else {
      MaskRoundsDown(u / 2, k - 1, w - 1);
      EvenMask(u, Pow2(w - 1) - Pow2(k - 1), w);
      ModHalf(u, Pow2(k - 1));
    }
  }

  lemma {:induction false} NoBits(u: nat, w: nat)
    ensures BitAnd(u, 0, w) == 0
  {
    if w > 0 {
      NoBits(u / 2, w - 1);
    }
  }

  ghost predicate Aligned(t: int, n: nat)
    requires n > 0
  {
    exists q :: t == n * q
  }

  // Below level 16 the coordinate is rounded down to the grid, negative coordinates included.
  lemma MaskedTile(v: int, level: nat)
    requires Int32(v) && level <= 15
    ensures var t := MaskCoord(v, level);
            Aligned(t, Side(level)) && t <= v < t + Side(level) && Int32(t)
  {
    hide Pow2, BitAnd;
    var n, k := Side(level), 2 * level;
    var u := ToUnsigned(v);
    Pow2Of32();
    MaskRoundsDown(u, k, 32);
    var half := Pow2(31 - k);
    Pow2Sum(k, 31 - k);
    var q, r := DivMod(u, n);
    assert MaskCoord(v, level) == ToSigned(n * q);
    if v < 0 {
      NegativeTile(n, half, q, r, u);
    } else {
      MulNonNegative(n, q);
    }
  }

  // Two's complement: subtracting 2^32 from a tile in the upper half keeps it on the grid.
  lemma NegativeTile(n: nat, half: nat, q: nat, r: nat, u: nat)
    requires n * half == 0x8000_0000 && u == n * q + r && r < n && 0x8000_0000 <= u
    ensures n * q >= 0x8000_0000
    ensures n * q - TWO_32 == n * (q - 2 * half)
  {
    if q < half {
      MulGap(n, q, half);
    } else if half < q {
      MulGap(n, half, q);
    }
    Distribute(n, q, -2 * half);
    Double(n, half);
  }

  lemma Double(n: nat, half: nat)
    ensures n * (-2 * half) == -2 * (n * half)
  {
  }

  // From level 16 on the mask is empty and every tile is 0.
  lemma HighLevelTile(v: int, level: nat)
    requires Int32(v) && level >= 16
    ensures MaskCoord(v, level) == 0
  {
    NoBits(ToUnsigned(v), 32);
  }

  // The cell holds the coordinate exactly when the level is below 16 or the coordinate is not negative.
  lemma TileHoldsCoordinate(v: int, level: nat)
    requires Int32(v)
    ensures MaskCoord(v, level) <= v < MaskCoord(v, level) + Side(level) <==> level <= 15 || v >= 0
  {
    if level <= 15 {
      MaskedTile(v, level);
    } else {
      HighLevelTile(v, level);
      Pow2Of32();
      Pow2Grows(32, 2 * level);
    }
  }

  // ---- the level ----

  function LongestSide(b: Box): (m: real)
    ensures m >= 0.0 && m >= b.size.x && m >= b.size.y && m >= b.size.z
  {
    Max(Max(Max(b.size.x, b.size.y), b.size.z), 0.0)
  }

  // `estimate` is what rounding up half the binary logarithm of the longest side gave.
  function ChooseLevel(m: real, estimate: nat): (level: nat)
    requires m >= 0.0
    ensures level <= 31
  {
    var l := if m <= 1.0 then 0
             else if estimate < 32 && Side(estimate) < m.Floor then estimate + 1
             else estimate;
    if l > 31 then 0 else l
  }

  // A cell of the chosen level is at least as long as the whole part of the longest side, even when the
  // estimate came out one too low; and an estimate that was enough is not changed.
  lemma LevelLongEnough(m: real, estimate: nat)
    requires m >= 0.0 && estimate <= 30 && m <= Side(estimate + 1) as real
    ensures Side(ChooseLevel(m, estimate)) >= m.Floor
    ensures m > 1.0 && m <= Side(estimate) as real ==> ChooseLevel(m, estimate) == estimate
  {
  }

  // Every side fits a cell of this level.
  predicate SidesFit(size: Vector3, level: nat)
  {
    size.x <= Side(level) as real && size.y <= Side(level) as real && size.z <= Side(level) as real
  }

  // The same for the whole parts of the sides.
  predicate WholeSidesFit(size: Vector3, level: nat)
  {
    size.x.Floor <= Side(level) && size.y.Floor <= Side(level) && size.z.Floor <= Side(level)
  }

  // The sides fit this level, and no level below it.
  predicate LeastFitting(size: Vector3, level: nat)
  {
    SidesFit(size, level) && (level == 0 || !SidesFit(size, level - 1))
  }

  // There is such a level for every size.
  lemma LeastFittingExists(size: Vector3) returns (level: nat)
    ensures LeastFitting(size, level)
  {
    hide Side;
    var m: nat := Larger(size.x.Floor, Larger(size.y.Floor, size.z.Floor)) + 1;
    SideAtLeast(m);
    level := DownToLeast(size, m);
  }

  function Larger(a: int, b: int): (m: nat)
    ensures m >= a && m >= b
  {
    if a > b && a > 0 then a else if b > 0 then b else 0
  }

  lemma {:induction false} SideAtLeast(n: nat)
    ensures Side(n) >= n
  {
    if n > 0 {
      SideAtLeast(n - 1);
      Pow2Sum(2, 2 * (n - 1));
      assert Pow2(2) == 4;
    }
  }

  lemma {:induction false} DownToLeast(size: Vector3, top: nat) returns (level: nat)
    requires SidesFit(size, top)
    ensures LeastFitting(size, level)
  {
    if top == 0 || !SidesFit(size, top - 1) {
      level := top;
    } else {
      level := DownToLeast(size, top - 1);
    }
  }

  // The level for a box of this size: 0 if no side is longer than 1. Otherwise, if the estimate is the least level
  // the sides fit, that one; if it is one too low, the estimate is kept exactly when the whole parts of the sides
  // fit it. A level above 31 is replaced by 0.
  ghost predicate RightLevel(level: nat, size: Vector3, estimate: nat)
  {
    && (SidesFit(size, 0) ==> level == 0)
    && forall l: nat :: l > 0 && LeastFitting(size, l) ==>
         && (estimate == l ==> level == if l <= 31 then l else 0)
         && (estimate + 1 == l && WholeSidesFit(size, estimate) ==> level == if l <= 32 then l - 1 else 0)
         && (estimate + 1 == l && !WholeSidesFit(size, estimate) ==> level == if l <= 31 then l else 0)
  }

  lemma LevelOfBox(b: Box, estimate: nat)
    requires InGrid(b)
    ensures RightLevel(ComputeChunk(b, estimate).level, b.size, estimate)
  {
    hide MaskCoord, InGrid;
    assert Side(0) == 1;
    var m, level := LongestSide(b), ComputeChunk(b, estimate).level;
    forall l: nat
      ensures SidesFit(b.size, l) <==> m <= Side(l) as real
      ensures WholeSidesFit(b.size, l) <==> m.Floor <= Side(l)
    {
    }
    forall l: nat | l > 0 && LeastFitting(b.size, l)
      ensures estimate == l ==> level == if l <= 31 then l else 0
      ensures estimate + 1 == l && WholeSidesFit(b.size, estimate) ==> level == if l <= 32 then l - 1 else 0
      ensures estimate + 1 == l && !WholeSidesFit(b.size, estimate) ==> level == if l <= 31 then l else 0
    {
      LongerThanOne(b.size, l);
    }
  }

  // A box that does not fit level l - 1 has a side longer than 1.
  lemma LongerThanOne(size: Vector3, l: nat)
    requires l > 0 && LeastFitting(size, l)
    ensures size.x > 1.0 || size.y > 1.0 || size.z > 1.0
  {
    assert Side(l - 1) >= 1;
  }

  // The number the logarithm is taken of; there is exactly one.
  predicate IsLongest(m: real, size: Vector3)
  {
    && m >= size.x && m >= size.y && m >= size.z && m >= 0.0
    && (m == size.x || m == size.y || m == size.z || m == 0.0)
  }

  lemma OneLongest(b: Box, m: real)
    ensures IsLongest(m, b.size) <==> m == LongestSide(b)
  {
  }

  // ---- the cell of a box ----

  predicate InGrid(b: Box)
  {
    Int32(Trunc(b.position.x)) && Int32(Trunc(b.position.y)) && Int32(Trunc(b.position.z))
  }

  function ComputeChunk(b: Box, estimate: nat): (c: Chunk)
    requires InGrid(b)
    ensures c.level <= 31
  {
    var level := ChooseLevel(LongestSide(b), estimate);
    Chunk(MaskCoord(Trunc(b.position.x), level), MaskCoord(Trunc(b.position.y), level),
          MaskCoord(Trunc(b.position.z), level), level)
  }

  predicate CellHolds(c: Chunk, x: int, y: int, z: int)
  {
    c.x <= x < c.x + Side(c.level) && c.y <= y < c.y + Side(c.level) && c.z <= z < c.z + Side(c.level)
  }

  ghost predicate OnGrid(c: Chunk)
  {
    Aligned(c.x, Side(c.level)) && Aligned(c.y, Side(c.level)) && Aligned(c.z, Side(c.level))
  }

  // The box's truncated corner is in its cell, and the cell is on the grid, exactly when it should be.
  lemma ChunkHoldsCorner(b: Box, estimate: nat)
    requires InGrid(b)
    ensures var c := ComputeChunk(b, estimate);
            var x, y, z := Trunc(b.position.x), Trunc(b.position.y), Trunc(b.position.z);
            && OnGrid(c)
            && (CellHolds(c, x, y, z) <==> c.level <= 15 || (x >= 0 && y >= 0 && z >= 0))
  {
    hide MaskCoord, Side, ChooseLevel;
    var c := ComputeChunk(b, estimate);
    CoordOnGrid(Trunc(b.position.x), c.level);
    CoordOnGrid(Trunc(b.position.y), c.level);
    CoordOnGrid(Trunc(b.position.z), c.level);
  }

  lemma CoordOnGrid(v: int, level: nat)
    requires Int32(v)
    ensures Aligned(MaskCoord(v, level), Side(level))
    ensures MaskCoord(v, level) <= v < MaskCoord(v, level) + Side(level) <==> level <= 15 || v >= 0
  {
    TileHoldsCoordinate(v, level);
    if level <= 15 {
      MaskedTile(v, level);
    } else {
      HighLevelTile(v, level);
      assert 0 == Side(level) * 0;
    }
  }

  // Two cells of one level are the same cell or share no point.
  lemma CellsEqualOrDisjoint(c: Chunk, d: Chunk, x: int, y: int, z: int)
    requires OnGrid(c) && OnGrid(d) && c.level == d.level
    requires CellHolds(c, x, y, z) && CellHolds(d, x, y, z)
    ensures c == d
  {
    TilesMeet(c.x, d.x, Side(c.level), x);
    TilesMeet(c.y, d.y, Side(c.level), y);
    TilesMeet(c.z, d.z, Side(c.level), z);
  }

  lemma TilesMeet(s: int, t: int, n: nat, v: int)
    requires n > 0 && Aligned(s, n) && Aligned(t, n)
    requires s <= v < s + n && t <= v < t + n
    ensures s == t
  {
    var p :| s == n * p;
    var q :| t == n * q;
    if p < q {
      MulGap(n, p, q);
    } else if q < p {
      MulGap(n, q, p);
    }
  }
}
