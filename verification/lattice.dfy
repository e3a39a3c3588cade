/** The quarter-resolution lattice of one sampled column: a range of sections,
    each 4 x 4 x 4 cells, the two orders the hasher enumerates it in, and the
    absolute quarter coordinates of a cell. */
module Lattice {

  /** `BiomeKey(sectionY, x, y, z)`: a cell, by section and local offsets. */
  datatype BiomeKey = BiomeKey(sectionY: int, x: int, y: int, z: int)

  /** An absolute quarter-grid position. */
  datatype QuartPos = QuartPos(x: int, y: int, z: int)

  predicate InSection(k: BiomeKey)
  {
    0 <= k.x < 4 && 0 <= k.y < 4 && 0 <= k.z < 4
  }

  /** A cell of the lattice spanning sections `minS..maxS` (both inclusive). */
  predicate InLattice(k: BiomeKey, minS: int, maxS: int)
  {
    minS <= k.sectionY <= maxS && InSection(k)
  }

  /** How many sections `minS..maxS` holds (none when the range is empty). */
  function SectionCount(minS: int, maxS: int): nat
  {
    if minS <= maxS then maxS - minS + 1 else 0
  }

  /** The position of a cell within its section in generation order
      (x outer, y middle, z inner). */
  function GenerationIndex(k: BiomeKey): int
  {
    k.x * 16 + k.y * 4 + k.z
  }

  /** The position of a cell within its section in hashing order
      (y outer, z middle, x inner). */
  function HashIndex(k: BiomeKey): int
  {
    k.y * 16 + k.z * 4 + k.x
  }

  /** The i-th cell the generation pass visits in section `s`. */
  function GenerationCell(s: int, i: int): (k: BiomeKey)
    requires 0 <= i < 64
    ensures k.sectionY == s && InSection(k)
    ensures GenerationIndex(k) == i
  {
    BiomeKey(s, i / 16, i / 4 % 4, i % 4)
  }

  /** The i-th cell the hashing pass visits in section `s`. */
  function HashCell(s: int, i: int): (k: BiomeKey)
    requires 0 <= i < 64
    ensures k.sectionY == s && InSection(k)
    ensures HashIndex(k) == i
  {
    BiomeKey(s, i % 4, i / 16, i / 4 % 4)
  }

  /** Euclidean division by a constant, from quotient and remainder. */
  lemma DivMod(a: int, d: int, q: int, r: int)
    requires d == 4 || d == 16 || d == 64 || d == 65
    requires 0 <= r < d && a == q * d + r
    ensures a / d == q && a % d == r
  {
  }

  /** Every cell of a section has exactly one position in each order:
      the index functions invert the cell functions. */
  lemma CellOfIndex(k: BiomeKey)
    requires InSection(k)
    ensures 0 <= GenerationIndex(k) < 64 && GenerationCell(k.sectionY, GenerationIndex(k)) == k
    ensures 0 <= HashIndex(k) < 64 && HashCell(k.sectionY, HashIndex(k)) == k
  {
    var g := GenerationIndex(k);
    DivMod(g, 16, k.x, k.y * 4 + k.z);
    DivMod(g, 4, k.x * 4 + k.y, k.z);
    DivMod(k.x * 4 + k.y, 4, k.x, k.y);
    var h := HashIndex(k);
    DivMod(h, 16, k.y, k.z * 4 + k.x);
    DivMod(h, 4, k.y * 4 + k.z, k.x);
    DivMod(k.y * 4 + k.z, 4, k.y, k.z);
  }

  /** Moving one block of `d` positions along a stream moves one section. */
  lemma ShiftBlock(p: int, d: int)
    requires d == 64 || d == 65
    requires p >= d
    ensures p / d == 1 + (p - d) / d && p % d == (p - d) % d
  {
    DivMod(p, d, 1 + (p - d) / d, (p - d) % d);
  }

  /** The generation pass's visiting order over sections `minS..maxS`:
      `for (sectionY in minS..maxS) for (x) for (y) for (z)`. */
  function GenerationOrder(minS: int, maxS: int): (cells: seq<BiomeKey>)
    ensures |cells| == 64 * SectionCount(minS, maxS)
    ensures forall p :: 0 <= p < |cells| ==> cells[p] == GenerationCell(minS + p / 64, p % 64)
    decreases maxS - minS
  {
    if minS > maxS then []
    else
      var head := seq(64, i requires 0 <= i < 64 => GenerationCell(minS, i));
      var rest := GenerationOrder(minS + 1, maxS);
      assert forall p :: 64 <= p < 64 + |rest| ==> (head + rest)[p] == rest[p - 64];
      assert forall p :: 64 <= p < 64 + |rest| ==> minS + p / 64 == minS + 1 + (p - 64) / 64 && p % 64 == (p - 64) % 64 by {
        forall p | 64 <= p < 64 + |rest|
          ensures p / 64 == 1 + (p - 64) / 64 && p % 64 == (p - 64) % 64
        {
          ShiftBlock(p, 64);
        }
      }
      head + rest
  }

  /** The generation pass visits every lattice cell, nothing else, and each
      cell exactly once. */
  lemma GenerationOrderCoversLatticeOnce(minS: int, maxS: int)
    ensures forall k :: k in GenerationOrder(minS, maxS) <==> InLattice(k, minS, maxS)
    ensures forall p, q :: 0 <= p < q < |GenerationOrder(minS, maxS)| ==>
              GenerationOrder(minS, maxS)[p] != GenerationOrder(minS, maxS)[q]
  {
    var cells := GenerationOrder(minS, maxS);
    forall k | InLattice(k, minS, maxS)
      ensures k in cells
    {
      CellOfIndex(k);
      var p := (k.sectionY - minS) * 64 + GenerationIndex(k);
      assert p / 64 == k.sectionY - minS && p % 64 == GenerationIndex(k);
      assert cells[p] == k;
    }
    forall p, q | 0 <= p < q < |cells|
      ensures cells[p] != cells[q]
    {
      if p / 64 == q / 64 {
        assert p % 64 != q % 64;
      }
    }
  }

  /** The absolute quarter position of a cell of column (chunkX, chunkZ):
      `chunkX * 4 + x`, `sectionY * 4 + y`, `chunkZ * 4 + z`. */
  function QuartOf(chunkX: int, chunkZ: int, k: BiomeKey): (q: QuartPos)
    ensures InSection(k) ==>
              && q.x / 4 == chunkX && q.x % 4 == k.x
              && q.y / 4 == k.sectionY && q.y % 4 == k.y
              && q.z / 4 == chunkZ && q.z % 4 == k.z
  {
    QuartPos(chunkX * 4 + k.x, k.sectionY * 4 + k.y, chunkZ * 4 + k.z)
  }

  /** Distinct cells of one column are classified at distinct positions. */
  lemma QuartOfInjective(chunkX: int, chunkZ: int, k1: BiomeKey, k2: BiomeKey)
    requires InSection(k1) && InSection(k2)
    requires QuartOf(chunkX, chunkZ, k1) == QuartOf(chunkX, chunkZ, k2)
    ensures k1 == k2
  {
  }
}
