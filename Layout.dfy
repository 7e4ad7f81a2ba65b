/** Where the counters live in `Module.HEAPU32`, a flat array of 32-bit words.

    The petal table is single-stride (one word per petal and rarity). The mob table starts a
    fixed number of bytes after the last petal word and is double-stride (every counter is
    followed by one word the program does not read). */
module Layout {

  /** Word index of the count of petal `p` at rarity `r`: `base + p * rarityCount + r`. */
  function PetalCell(base: int, rarityCount: nat, p: nat, r: nat): int
  {
    base + p * rarityCount + r
  }

  lemma {:induction false} RowsApart(a: nat, b: nat, c: nat)
    requires a < b
    ensures a * c + c <= b * c
  {
    assert b * c == (b - 1) * c + c;
    if a < b - 1 {
      RowsApart(a, b - 1, c);
    }
  }

  /** Distinct petal cells never share a word. */
  lemma PetalCellInjective(base: int, rarityCount: nat, p1: nat, r1: nat, p2: nat, r2: nat)
    requires r1 < rarityCount && r2 < rarityCount
    requires PetalCell(base, rarityCount, p1, r1) == PetalCell(base, rarityCount, p2, r2)
    ensures p1 == p2 && r1 == r2
  {
    if p1 < p2 {
      RowsApart(p1, p2, rarityCount);
    } else if p2 < p1 {
      RowsApart(p2, p1, rarityCount);
    }
  }

  /** The base of the table that follows a `rows` by `cols` table at `base`:
      `end = base + rows * cols - 1; endAddress = end * 4 + gap; endAddress / 4`. The
      division is exact for the gaps the program uses, which are multiples of 4. */
  function DerivedBase(base: int, rows: nat, cols: nat, gap: int): (r: int)
    requires gap % 4 == 0
    ensures 4 * r == (base + rows * cols - 1) * 4 + gap
    ensures gap > 0 ==> r > base + rows * cols - 1
  {
    ((base + rows * cols - 1) * 4 + gap) / 4
  }

  /** The byte gap between the last petal word and the mob table in getMobCount.js. */
  const LoggerGap: int := 176
  /** The byte gap between the last petal word and the mob table in script/KilledThisRun.js. */
  const TrackerGap: int := 164

  /** The mob table of getMobCount.js begins 44 words after the last petal word, the one of
      script/KilledThisRun.js 41 words after it. */
  lemma MobBaseOffsets(base: int, petalCount: nat, rarityCount: nat)
    ensures DerivedBase(base, petalCount, rarityCount, LoggerGap) == base + petalCount * rarityCount - 1 + 44
    ensures DerivedBase(base, petalCount, rarityCount, TrackerGap) == base + petalCount * rarityCount - 1 + 41
  {
  }

  /** The eight mob rarities, Common to Super. */
  const MobRarityCount: nat := 8

  /** Word index of the kill count of table row `i` at rarity `r`:
      `mobBase + i * rarityCount * 2 + r * 2`. */
  function MobCell(mobBase: int, i: nat, r: nat): int
  {
    mobBase + i * MobRarityCount * 2 + r * 2
  }

  /** Mob cells sit at even offsets from the table base, and distinct cells never share a
      word. */
  lemma MobCellLayout(mobBase: int, i1: nat, r1: nat, i2: nat, r2: nat)
    requires r1 < MobRarityCount && r2 < MobRarityCount
    ensures (MobCell(mobBase, i1, r1) - mobBase) % 2 == 0
    ensures MobCell(mobBase, i1, r1) == MobCell(mobBase, i2, r2) ==> i1 == i2 && r1 == r2
  {
    assert MobCell(mobBase, i1, r1) - mobBase == 2 * (8 * i1 + r1);
    assert MobCell(mobBase, i2, r2) - mobBase == 2 * (8 * i2 + r2);
  }

  /** The worked offsets: petal 3, rarity 5 of an 8-rarity table at 100, in both layouts. */
  lemma LayoutExample()
    ensures PetalCell(100, 8, 3, 5) == 129
    ensures MobCell(100, 3, 5) == 158
  {
  }
}
