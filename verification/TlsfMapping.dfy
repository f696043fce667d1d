/**
 Size classes of the two-level segregated-fit heap: the arithmetic that turns a byte count into a
 first- and second-level list index, and a request into the least class whose every block fits it.
 */
module TlsfMapping {

  const ALIGN_SIZE: nat := 8
  const SL_INDEX_COUNT_LOG2: nat := 5
  const SL_INDEX_COUNT: nat := 32
  const FL_INDEX_SHIFT: nat := 8
  const FL_INDEX_COUNT: nat := 25
  const SMALL_BLOCK_SIZE: nat := 256
  const BLOCK_SIZE_MIN: nat := 24
  const BLOCK_SIZE_MAX: nat := 0x1_0000_0000
  const BLOCK_HEADER_SIZE: nat := 32
  const WORD_LIMIT: nat := 0x1_0000_0000_0000_0000

  /** Number of size classes: the flattened first- and second-level index is below it. */
  const CLASSES: nat := 800

  /** `1 << n` */
  function Pow2(n: nat): (p: nat)
    ensures p >= 1
  {
    if n == 0 then 1 else 2 * Pow2(n - 1)
  }

  /** `x >> n` */
  function Shr(x: nat, n: nat): nat
    decreases n
  {
    if n == 0 then x else Shr(x / 2, n - 1)
  }

  /** `tlsf_fls` on a 32-bit word: index of the highest set bit, -1 for zero. */
  function Fls(word: nat): (r: int)
    ensures r >= -1 && (r == -1 <==> word == 0)
    decreases word
  {
    if word == 0 then -1 else if word == 1 then 0 else 1 + Fls(word / 2)
  }

  lemma {:induction false} FlsBounds(x: nat)
    requires x > 0
    ensures Pow2(Fls(x)) <= x < Pow2(Fls(x) + 1)
    decreases x
  {
    if x > 1 {
      FlsBounds(x / 2);
    }
  }

  lemma {:induction false} Pow2Monotone(m: nat, n: nat)
    requires m <= n
    ensures Pow2(m) <= Pow2(n)
    decreases n
  {
    if m < n {
      Pow2Monotone(m, n - 1);
    }
  }

  lemma {:induction false} Pow2Shr(m: nat, n: nat)
    ensures Shr(Pow2(m + n), n) == Pow2(m)
    decreases n
  {
    if n > 0 {
      Pow2Shr(m, n - 1);
    }
  }

  /** Thirty-two doublings, without computing the power itself. */
  lemma {:induction false} Pow2Plus32(n: nat)
    ensures Pow2(n + 32) == 0x1_0000_0000 * Pow2(n)
  {
    if n > 0 {
      Pow2Plus32(n - 1);
    } else {
      assert Pow2(8) == 256 && Pow2(16) == 0x1_0000 && Pow2(24) == 0x100_0000;
    }
  }

  lemma {:induction false} ShrMonotone(a: nat, b: nat, n: nat)
    requires a <= b
    ensures Shr(a, n) <= Shr(b, n)
    decreases n
  {
    if n > 0 {
      ShrMonotone(a / 2, b / 2, n - 1);
    }
  }

  /** Adding one unit of the shifted scale adds one after the shift. */
  lemma {:induction false} ShrStep(x: nat, n: nat)
    ensures Shr(x + Pow2(n), n) == Shr(x, n) + 1
    decreases n
  {
    if n > 0 {
      assert (x + Pow2(n)) / 2 == x / 2 + Pow2(n - 1);
      ShrStep(x / 2, n - 1);
    }
  }

  lemma {:induction false} FlsUnique(x: nat, r: nat)
    requires Pow2(r) <= x < Pow2(r + 1)
    ensures Fls(x) == r
  {
    var f := Fls(x);
    FlsBounds(x);
    if f < r {
      Pow2Monotone(f + 1, r);
    } else if f > r {
      Pow2Monotone(r + 1, f);
    }
  }

  lemma {:induction false} FlsShr(x: nat, n: nat)
    requires n <= Fls(x)
    ensures Fls(Shr(x, n)) == Fls(x) - n
    decreases n
  {
    if n > 0 {
      FlsShr(x / 2, n - 1);
    }
  }

  /** The highest set bit of a 64-bit word lies in its high half unless that half is zero. */
  lemma FlsHalves(size: nat)
    requires size < WORD_LIMIT
    ensures Fls(size) < 64
    ensures var high := size / 0x1_0000_0000;
            Fls(size) == if high != 0 then 32 + Fls(high) else Fls(size % 0x1_0000_0000)
  {
    var high := size / 0x1_0000_0000;
    var f := Fls(high);
    if high != 0 {
      FlsBounds(high);
      Pow2Plus32(f);
      Pow2Plus32(f + 1);
      FlsUnique(size, f + 32);
      FlsBelow32(high);
    } else {
      FlsBelow32(size);
    }
  }

  /** The highest set bit of `x` is below position `n` exactly when `x` is below 2^n. */
  lemma FlsBelow(x: nat, n: nat)
    ensures Fls(x) < n <==> x < Pow2(n)
  {
    if x > 0 {
      var f := Fls(x);
      FlsBounds(x);
      if f < n {
        Pow2Monotone(f + 1, n);
      } else {
        Pow2Monotone(n, f);
      }
    }
  }

  lemma FlsBelow32(x: nat)
    ensures Fls(x) < 32 <==> x < 0x1_0000_0000
  {
    FlsBelow(x, 32);
    Pow2Plus32(0);
  }

  /** `tlsf_fls_sizet`: the 64-bit version looks at the high half first. */
  function FlsSizeT(size: nat): (r: int)
    requires size < WORD_LIMIT
    ensures r == Fls(size) < 64
  {
    FlsHalves(size);
    var high := size / 0x1_0000_0000;
    if high != 0 then 32 + Fls(high) else Fls(size % 0x1_0000_0000)
  }

  lemma AtLeast256(size: nat)
    requires size >= SMALL_BLOCK_SIZE
    ensures Fls(size) >= 8
  {
    if Fls(size) < 8 {
      FlsBounds(size);
      assert Pow2(8) == 256;
      Pow2Monotone(Fls(size) + 1, 8);
    }
  }

  /** The exponent of a size that is past the small blocks. */
  lemma LargeExponent(size: nat)
    requires SMALL_BLOCK_SIZE <= size < WORD_LIMIT
    ensures Fls(size) >= 8
    ensures size < BLOCK_SIZE_MAX <==> Fls(size) <= 31
  {
    AtLeast256(size);
    FlsBelow32(size);
  }

  /** `x ^ (1 << 5)` */
  function Xor32(x: nat): nat {
    if x / 32 % 2 == 1 then x - 32 else x + 32
  }

  datatype Index = Index(fl: int, sl: int)

  /** `mapping_insert`: the list a free block of `size` bytes belongs to. */
  function MappingInsert(size: nat): Index
    requires size < WORD_LIMIT
  {
    if size < SMALL_BLOCK_SIZE then
      Index(0, size / (SMALL_BLOCK_SIZE / SL_INDEX_COUNT))
    else
      LargeExponent(size);
      var fl := FlsSizeT(size);
      Index(fl - (FL_INDEX_SHIFT - 1), Xor32(Shr(size, fl - SL_INDEX_COUNT_LOG2)))
  }

  /** The rounding step of `mapping_search`, for sizes past the small blocks. */
  function RoundUp(size: nat): (r: nat)
    requires SMALL_BLOCK_SIZE <= size < BLOCK_SIZE_MAX
    ensures size <= r < WORD_LIMIT
  {
    LargeExponent(size);
    FlsBounds(size);
    var shift := FlsSizeT(size) - SL_INDEX_COUNT_LOG2;
    Pow2Monotone(shift, shift + 5);
    size + (Pow2(shift) - 1)
  }

  /** `mapping_search`: as `mapping_insert` after rounding the request up to the next class boundary. */
  function MappingSearch(size: nat): Index
    requires size < BLOCK_SIZE_MAX
  {
    MappingInsert(if size >= SMALL_BLOCK_SIZE then RoundUp(size) else size)
  }

  /** Position of a class when the two levels are laid out as one row. */
  function Flat(i: Index): int {
    i.fl * SL_INDEX_COUNT + i.sl
  }

  /** Class of a block size. */
  function Class(size: nat): int
    requires size < WORD_LIMIT
  {
    Flat(MappingInsert(size))
  }

  /**
   The class without the detour through two levels and an exclusive-or: sizes from 256 on are cut
   into 32 equal slices per power of two, and the slices of all powers are numbered in one row.
   */
  function Band(size: nat): int {
    if size < SMALL_BLOCK_SIZE then size / 8
    else if Fls(size) < 5 then 0
    else 32 * (Fls(size) - 8) + Shr(size, Fls(size) - 5)
  }

  lemma SliceBounds(size: nat, f: nat)
    requires f == Fls(size) >= 8
    ensures 32 <= Shr(size, f - 5) < 64
  {
    FlsShr(size, f - 5);
    FlsBounds(Shr(size, f - 5));
    assert Pow2(5) == 32 && Pow2(6) == 64;
  }

  lemma MappingOfLarge(size: nat, f: nat, s: nat)
    requires SMALL_BLOCK_SIZE <= size < WORD_LIMIT
    requires f == Fls(size) >= 8 && s == Shr(size, f - 5) && Xor32(s) == s - 32
    ensures MappingInsert(size) == Index(f - 7, s - 32)
  {}

  /** Where a size is filed, in closed form. */
  lemma Mapping(size: nat)
    requires size < WORD_LIMIT
    ensures Class(size) == Band(size)
    ensures 0 <= MappingInsert(size).fl && 0 <= MappingInsert(size).sl < SL_INDEX_COUNT
    ensures size >= SMALL_BLOCK_SIZE ==> MappingInsert(size).fl == Fls(size) - 7
  {
    hide Fls;
    hide Shr;
    if size >= SMALL_BLOCK_SIZE {
      LargeExponent(size);
      var f := Fls(size);
      SliceBounds(size, f);
      MappingOfLarge(size, f, Shr(size, f - 5));
    }
  }

  /**
   Every size below the maximum has a first-level index inside the table, a size from the maximum
   on does not; the second-level index always is.
   */
  lemma MappingInRange(size: nat)
    requires size < WORD_LIMIT
    ensures MappingInsert(size).fl < FL_INDEX_COUNT <==> size < BLOCK_SIZE_MAX
    ensures 0 <= MappingInsert(size).fl && 0 <= MappingInsert(size).sl < SL_INDEX_COUNT
    ensures size < BLOCK_SIZE_MAX ==> 0 <= Class(size) < CLASSES
  {
    Mapping(size);
    if size >= SMALL_BLOCK_SIZE {
      LargeExponent(size);
    }
  }

  /** A pool of exactly the advertised maximum is filed one row past the end of the table. */
  lemma MaximumBlockFallsOffTheTable()
    ensures MappingInsert(BLOCK_SIZE_MAX) == Index(FL_INDEX_COUNT, 0)
  {
    Pow2Plus32(0);
    Pow2Plus32(1);
    FlsUnique(BLOCK_SIZE_MAX, 32);
    Pow2Shr(5, 27);
    MappingOfLarge(BLOCK_SIZE_MAX, 32, 32);
  }

  lemma BandMonotone(a: nat, b: nat)
    requires a <= b
    ensures Band(a) <= Band(b)
  {
    hide Fls;
    hide Shr;
    if b >= SMALL_BLOCK_SIZE {
      var f, g := Fls(a), Fls(b);
      AtLeast256(b);
      SliceBounds(b, g);
      if a >= SMALL_BLOCK_SIZE {
        AtLeast256(a);
        SliceBounds(a, f);
        FlsMonotone(a, b);
        if f == g {
          ShrMonotone(a, b, f - 5);
        }
      }
    }
  }

  /** Bigger blocks never live in lower classes. */
  lemma ClassMonotone(a: nat, b: nat)
    requires a <= b < WORD_LIMIT
    ensures Class(a) <= Class(b)
  {
    Mapping(a);
    Mapping(b);
    BandMonotone(a, b);
  }

  /** One slice up is at least one class up. */
  lemma OneSliceUp(size: nat, f: nat, r: nat)
    requires SMALL_BLOCK_SIZE <= size && f == Fls(size) >= 8 && r == size + Pow2(f - 5)
    ensures Band(size) < Band(r)
  {
    hide Fls;
    hide Shr;
    var g := Fls(r);
    SliceBounds(size, f);
    FlsMonotone(size, r);
    SliceBounds(r, g);
    ShrStep(size, f - 5);
  }

  lemma FlsMonotone(a: nat, b: nat)
    requires 0 < a <= b
    ensures Fls(a) <= Fls(b)
  {
    FlsBounds(a);
    FlsBounds(b);
    if Fls(b) < Fls(a) {
      Pow2Monotone(Fls(b) + 1, Fls(a));
    }
  }

  lemma BeforePower(size: nat, f: nat)
    requires 1 < size == Pow2(f)
    ensures Fls(size - 1) < f
  {
    var g := Fls(size - 1);
    if g >= f {
      FlsBounds(size - 1);
      Pow2Monotone(f, g);
    }
  }

  /** The first size of a power-of-two row is filed above everything smaller. */
  lemma NewRow(size: nat, f: nat)
    requires SMALL_BLOCK_SIZE < size && size == Pow2(f) && f == Fls(size)
    ensures Band(size - 1) < Band(size)
  {
    hide Fls;
    hide Shr;
    hide Pow2;
    AtLeast256(size - 1);
    AtLeast256(size);
    BeforePower(size, f);
    SliceBounds(size - 1, Fls(size - 1));
    SliceBounds(size, f);
  }

  /**
   The least class searched for a request starts above the class of the largest size too small
   for it, so no block filed there or later can be too small.
   */
  lemma TooSmallIsFiledLower(size: nat)
    requires 0 < size < BLOCK_SIZE_MAX && size % ALIGN_SIZE == 0
    ensures Band(size - 1) < Band(if size >= SMALL_BLOCK_SIZE then RoundUp(size) else size)
  {
    if size >= SMALL_BLOCK_SIZE {
      TooSmallInSlices(size);
    }
  }

  lemma TooSmallInSlices(size: nat)
    requires SMALL_BLOCK_SIZE <= size < BLOCK_SIZE_MAX && size % ALIGN_SIZE == 0
    ensures Band(size - 1) < Band(RoundUp(size))
  {
    var f := Fls(size);
    AtLeast256(size);
    if size == Pow2(f) {
      if size > SMALL_BLOCK_SIZE {
        NewRow(size, f);
      }
      BandMonotone(size, RoundUp(size));
      SliceBounds(size, f);
    } else {
      FlsBounds(size);
      FlsUnique(size - 1, f);
      if f == 8 {
        assert Pow2(8) == 256;
      }
      OneSliceUp(size - 1, f, RoundUp(size));
    }
  }

  /** Any block filed at or above the searched class is big enough for the request. */
  lemma SearchedClassFits(size: nat, block: nat)
    requires 0 < size < BLOCK_SIZE_MAX && size % ALIGN_SIZE == 0
    requires block < WORD_LIMIT && Flat(MappingSearch(size)) <= Class(block)
    ensures size <= block
  {
    var r := if size >= SMALL_BLOCK_SIZE then RoundUp(size) else size;
    assert Flat(MappingSearch(size)) == Class(r);
    hide *;
    TooSmallIsFiledLower(size);
    Mapping(block);
    Mapping(r);
    if block < size {
      BandMonotone(block, size - 1);
    }
  }

  /** A block filed below the searched class is smaller than the rounded request: the price of good fit. */
  lemma SkippedClassBound(size: nat, block: nat)
    requires 0 < size < BLOCK_SIZE_MAX && block < BLOCK_SIZE_MAX
    requires Class(block) < Flat(MappingSearch(size))
    ensures block < if size >= SMALL_BLOCK_SIZE then RoundUp(size) else size
  {
    var r := if size >= SMALL_BLOCK_SIZE then RoundUp(size) else size;
    if r <= block {
      ClassMonotone(r, block);
    }
  }

  /** Rounding a request up to a class boundary adds less than one part in 32. */
  lemma RoundUpWaste(size: nat, f: nat)
    requires SMALL_BLOCK_SIZE <= size < BLOCK_SIZE_MAX && f == Fls(size) >= 8
    ensures RoundUp(size) == size + Pow2(f - 5) - 1
    ensures 32 * (RoundUp(size) - size) < size
  {
    assert 32 * (Pow2(f - 5) - 1) < size by {
      FlsBounds(size);
      ThirtySecond(f);
    }
  }

  lemma ThirtySecond(f: nat)
    requires f >= 5
    ensures Pow2(f) == 32 * Pow2(f - 5)
  {
    assert Pow2(f - 4) == 2 * Pow2(f - 5) && Pow2(f - 2) == 4 * Pow2(f - 4);
  }
}
