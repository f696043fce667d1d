/**
 Request arithmetic of the allocator: rounding sizes and addresses to an alignment in 64-bit words,
 and the gap an aligned allocation leaves in front of the block it returns.
 */
module TlsfRequest {
  import opened TlsfMapping

  /** `(x + (align - 1)) & ~(align - 1)` in 64-bit arithmetic, for a power of two. */
  function AlignUp(x: nat, align: nat): nat
    requires align > 0
  {
    var t := (x + (align - 1)) % WORD_LIMIT;
    t - t % align
  }

  /** `adjust_request_size` */
  function AdjustRequest(size: nat, align: nat): nat
    requires align > 0
  {
    if size == 0 then 0
    else
      var aligned := AlignUp(size, align);
      if aligned < BLOCK_SIZE_MAX then
        if aligned < BLOCK_SIZE_MIN then BLOCK_SIZE_MIN else aligned
      else
        0
  }

  ghost predicate PowerOfTwo(align: nat) {
    exists k: nat {:trigger Pow2(k)} :: align == Pow2(k)
  }

  /** Sizes rounded for the allocator are word multiples in the range of the size classes. */
  lemma AdjustRange(size: nat)
    requires size < WORD_LIMIT
    ensures var a := AdjustRequest(size, ALIGN_SIZE);
            a % 8 == 0 && a < BLOCK_SIZE_MAX && (a == 0 || a >= BLOCK_SIZE_MIN)
  {}

  /**
   A rounded size covers the request, or is zero to refuse it, exactly when adding 7 to the request
   does not wrap; a request in the last 7 values of the word is rounded to the minimum block.
   */
  lemma AdjustCovers(size: nat)
    requires 0 < size < WORD_LIMIT
    ensures var a := AdjustRequest(size, ALIGN_SIZE);
            (a == 0 || a >= size) <==> size <= WORD_LIMIT - 8
    ensures AdjustRequest(size, ALIGN_SIZE) == 0 <==> BLOCK_SIZE_MAX - 8 < size <= WORD_LIMIT - 8
    ensures size <= BLOCK_SIZE_MAX - 8 ==>
              var a := AdjustRequest(size, ALIGN_SIZE); a < size + 8 || a == BLOCK_SIZE_MIN
  {}

  predicate AlignedTo(x: nat, align: nat)
    requires align > 0
  {
    x % align == 0
  }

  lemma MultipleMod(q: nat, a: nat)
    requires a > 0
    ensures AlignedTo(q * a, a)
  {
    var n := q * a;
    var d := n / a - q;
    assert n == n / a * a + n % a;
    assert d * a == 0 - n % a;
    assert d <= -1 ==> d * a <= 0 - a;
    assert d >= 1 ==> d * a >= a;
  }

  lemma MultipleOf8(q: nat, a: nat)
    requires a % 8 == 0
    ensures (q * a) % 8 == 0
  {
    assert q * a == (q * (a / 8)) * 8;
  }

  /** `t` with its remainder cut off is the largest multiple not above it. */
  lemma CutRemainder(t: nat, align: nat)
    requires align > 0
    ensures AlignedTo(t - t % align, align)
    ensures align % 8 == 0 ==> (t - t % align) % 8 == 0
  {
    var q := t / align;
    assert t - t % align == q * align;
    MultipleMod(q, align);
    if align % 8 == 0 {
      MultipleOf8(q, align);
    }
  }

  /** Without wrap-around, rounding up gives the least multiple that is not smaller. */
  lemma AlignUpLaw(x: nat, align: nat)
    requires align > 0 && x + align <= WORD_LIMIT
    ensures x <= AlignUp(x, align) < x + align
    ensures AlignedTo(AlignUp(x, align), align)
    ensures align % 8 == 0 ==> AlignUp(x, align) % 8 == 0
    ensures AlignedTo(x, align) ==> AlignUp(x, align) == x
  {
    hide *;
    AlignUpIs(x, align);
    if AlignedTo(x, align) {
      MultiplesApart(x, AlignUp(x, align), align);
    }
  }

  lemma AlignUpIs(x: nat, align: nat)
    requires align > 0 && x + align <= WORD_LIMIT
    ensures x <= AlignUp(x, align) < x + align && AlignedTo(AlignUp(x, align), align)
    ensures align % 8 == 0 ==> AlignUp(x, align) % 8 == 0
  {
    NoWrap(x + (align - 1));
    CutRemainder(x + (align - 1), align);
    hide AlignedTo;
  }

  lemma MultiplesApart(x: nat, y: nat, align: nat)
    requires align > 0 && AlignedTo(x, align) && AlignedTo(y, align) && x <= y < x + align
    ensures x == y
  {
    var d := y / align - x / align;
    assert x == x / align * align && y == y / align * align;
    assert d * align == y - x;
    assert d >= 1 ==> d * align >= align;
    assert d <= -1 ==> d * align <= 0 - align;
  }

  lemma NextMultiple(x: nat, align: nat)
    requires align > 0 && AlignedTo(x, align)
    ensures AlignedTo(x + align, align)
  {
    assert x == x / align * align;
    assert x + align == (x / align + 1) * align;
    MultipleMod(x / align + 1, align);
  }

  /**
   The bytes `tlsf_memalign` skips, in 64-bit arithmetic, so that what follows is aligned and what is
   skipped can be a block.
   */
  function LeadingGap(ptr: nat, align: nat): (g: nat)
    requires align > 0
  {
    var aligned := AlignUp(ptr, align);
    var gap := (aligned - ptr) % WORD_LIMIT;
    if gap != 0 && gap < BLOCK_HEADER_SIZE then
      var remain := BLOCK_HEADER_SIZE - gap;
      var offset := if remain > align then remain else align;
      (AlignUp(aligned + offset, align) - ptr) % WORD_LIMIT
    else
      gap
  }

  lemma SmallGap(ptr: nat, align: nat)
    requires align == 1 || align == 2 || align == 4 || align == 8
    requires ptr % 8 == 0 && ptr + 8 <= WORD_LIMIT
    ensures AlignedTo(ptr, align) && LeadingGap(ptr, align) == 0
  {
    hide *;
    MultipleOfSmall(ptr, align);
    AlignUpLaw(ptr, align);
    AlreadyAligned(ptr, align);
  }

  lemma MultipleOfSmall(ptr: nat, align: nat)
    requires (align == 1 || align == 2 || align == 4 || align == 8) && ptr % 8 == 0 && ptr + 8 <= WORD_LIMIT
    ensures AlignedTo(ptr, align) && ptr + align <= WORD_LIMIT
  {
    hide *;
    EightTimes(ptr, ptr / 8, align);
  }

  lemma EightTimes(ptr: nat, q: nat, align: nat)
    requires (align == 1 || align == 2 || align == 4 || align == 8) && ptr == 8 * q && ptr + 8 <= WORD_LIMIT
    ensures AlignedTo(ptr, align) && ptr + align <= WORD_LIMIT
  {
    MultipleMod(8 * q, 1);
    MultipleMod(4 * q, 2);
    MultipleMod(2 * q, 4);
    MultipleMod(q, 8);
    hide AlignedTo;
  }

  lemma AlreadyAligned(ptr: nat, align: nat)
    requires align > 0 && AlignUp(ptr, align) == ptr
    ensures LeadingGap(ptr, align) == 0
  {
    hide AlignUp;
  }

  lemma Align16(x: nat, q: nat)
    requires x + 16 <= WORD_LIMIT && (x == 16 * q || x == 16 * q + 8)
    ensures AlignUp(x, 16) == if x == 16 * q then 16 * q else 16 * q + 16
  {
    assert (x + 15) % WORD_LIMIT == x + 15;
  }

  lemma Gap16(ptr: nat, q: nat)
    requires ptr + 112 <= WORD_LIMIT && (ptr == 16 * q || ptr == 16 * q + 8)
    ensures LeadingGap(ptr, 16) == (if ptr == 16 * q then 0 else 40)
    ensures AlignedTo(ptr + LeadingGap(ptr, 16), 16)
  {
    hide AlignUp;
    Align16(ptr, q);
    if ptr != 16 * q {
      Align16(16 * q + 40, q + 2);
    }
  }

  lemma LargeGap(ptr: nat, align: nat, aligned: nat)
    requires 32 <= align && align % 8 == 0 && ptr % 8 == 0 && ptr + 3 * align <= WORD_LIMIT
    requires aligned == AlignUp(ptr, align)
    ensures ptr <= aligned < ptr + align && aligned % 8 == 0
    ensures AlignedTo(aligned, align) && AlignedTo(aligned + align, align)
    ensures LeadingGap(ptr, align) == if 0 < aligned - ptr < BLOCK_HEADER_SIZE then aligned + align - ptr else aligned - ptr
  {
    hide AlignUp;
    hide AlignedTo;
    AlignUpLaw(ptr, align);
    NextMultiple(aligned, align);
    AlignUpLaw(aligned + align, align);
    NoWrap(aligned - ptr);
    NoWrap(aligned + align - ptr);
  }

  lemma NoWrap(x: nat)
    requires x < WORD_LIMIT
    ensures x % WORD_LIMIT == x
  {}

  /**
   The gap is nothing or at least a free block with its header, it leads to an aligned address, it is
   the least such number, and it never exceeds the alignment by more than a minimum block.
   */
  lemma LeadingGapLaw(ptr: nat, align: nat)
    requires PowerOfTwo(align) && ptr % 8 == 0 && ptr + 3 * align + 64 <= WORD_LIMIT
    ensures var g := LeadingGap(ptr, align);
            && g % 8 == 0 && (g == 0 || BLOCK_HEADER_SIZE <= g)
            && AlignedTo(ptr + g, align)
            && (align <= 8 ==> g == 0)
            && (g != 0 ==> g <= align + BLOCK_SIZE_MIN)
    ensures forall a: nat :: AlignedTo(a, align) && (a == ptr || ptr + BLOCK_HEADER_SIZE <= a) ==> ptr + LeadingGap(ptr, align) <= a
  {
    hide LeadingGap;
    hide AlignUp;
    hide AlignedTo;
    hide PowerOfTwo;
    SmallOrMultipleOf8(align);
    if align <= 8 {
      SmallGap(ptr, align);
    } else if align == 16 {
      EvenOrOdd(ptr);
      Gap16(ptr, ptr / 16);
      Least16(ptr, ptr / 16);
    } else {
      LargeGap(ptr, align, AlignUp(ptr, align));
      GapRoom(ptr, AlignUp(ptr, align), align, LeadingGap(ptr, align));
      LeastGap(ptr, AlignUp(ptr, align), align, LeadingGap(ptr, align));
    }
  }

  lemma Least16(ptr: nat, q: nat)
    requires ptr == 16 * q || ptr == 16 * q + 8
    ensures forall a: nat :: AlignedTo(a, 16) && (a == ptr || ptr + BLOCK_HEADER_SIZE <= a) ==>
              ptr + (if ptr == 16 * q then 0 else 40) <= a
  {}

  lemma LeastGap(ptr: nat, aligned: nat, align: nat, g: nat)
    requires 32 <= align && ptr <= aligned < ptr + align && AlignedTo(aligned, align)
    requires g == if 0 < aligned - ptr < BLOCK_HEADER_SIZE then aligned + align - ptr else aligned - ptr
    ensures forall a: nat :: AlignedTo(a, align) && (a == ptr || ptr + BLOCK_HEADER_SIZE <= a) ==> ptr + g <= a
  {
    hide AlignedTo;
    forall a: nat | AlignedTo(a, align) && (a == ptr || ptr + BLOCK_HEADER_SIZE <= a) ensures ptr + g <= a {
      if a <= aligned {
        MultiplesApart(a, aligned, align);
      } else if a < aligned + align {
        MultiplesApart(aligned, a, align);
      }
    }
  }

  lemma EvenOrOdd(ptr: nat)
    requires ptr % 8 == 0
    ensures ptr == 16 * (ptr / 16) || ptr == 16 * (ptr / 16) + 8
  {}

  lemma GapRoom(ptr: nat, aligned: nat, align: nat, g: nat)
    requires 32 <= align && align % 8 == 0 && ptr % 8 == 0 && ptr <= aligned < ptr + align && aligned % 8 == 0
    requires AlignedTo(aligned, align) && AlignedTo(aligned + align, align)
    requires g == if 0 < aligned - ptr < BLOCK_HEADER_SIZE then aligned + align - ptr else aligned - ptr
    ensures g % 8 == 0 && AlignedTo(ptr + g, align)
    ensures (g == 0 || BLOCK_HEADER_SIZE <= g) && g <= align + BLOCK_SIZE_MIN
  {
    hide AlignedTo;
    assert ptr + g == aligned || ptr + g == aligned + align;
  }

  lemma SmallOrMultipleOf8(align: nat)
    requires PowerOfTwo(align)
    ensures align == 1 || align == 2 || align == 4 || align == 8 || align == 16 || (align >= 32 && align % 8 == 0)
  {
    var k: nat {:trigger Pow2(k)} :| align == Pow2(k);
    if k >= 5 {
      var j := Pow2(k - 5);
      assert Pow2(k - 4) == 2 * j;
      assert Pow2(k - 3) == 4 * j;
      assert Pow2(k - 2) == 8 * j;
      assert Pow2(k - 1) == 16 * j;
      assert Pow2(k) == 32 * j;
    }
  }

  /** The middle of the address space, 2^63. */
  const MIDDLE: nat := 0x8000_0000_0000_0000

  /** Behind 2^62 there is one more power of two in a word. */
  lemma LargestAlignment(align: nat)
    requires PowerOfTwo(align) && WORD_LIMIT / 4 < align < WORD_LIMIT
    ensures align == MIDDLE
  {
    var k: nat {:trigger Pow2(k)} :| align == Pow2(k);
    Pow2Plus32(0);
    assert Pow2(32) == 2 * Pow2(31) && Pow2(31) == 2 * Pow2(30);
    if k < 32 {
      Pow2Monotone(k, 32);
    } else {
      var j := k - 32;
      Pow2Plus32(j);
      if j <= 30 {
        Pow2Monotone(j, 30);
      } else if j >= 32 {
        Pow2Monotone(32, j);
      }
    }
  }

  /** The gap to an address that is a multiple of 2^63: to the middle of the address space, or round its end. */
  lemma MiddleGap(ptr: nat)
    requires 0 < ptr && ptr % 8 == 0 && ptr + BLOCK_SIZE_MAX <= WORD_LIMIT
    ensures var g := LeadingGap(ptr, MIDDLE);
            && g % 8 == 0 && (g == 0 || BLOCK_HEADER_SIZE <= g)
            && (g == 0 <==> ptr == MIDDLE)
            && ptr + g == if ptr == MIDDLE || ptr + BLOCK_HEADER_SIZE <= MIDDLE then MIDDLE else WORD_LIMIT
  {
    hide AlignUp;
    MiddleUp(ptr);
    MiddleUp(WORD_LIMIT);
    if ptr <= MIDDLE {
      NoWrap(MIDDLE - ptr);
    }
    NoWrap(WORD_LIMIT - ptr);
    assert (0 - ptr) % WORD_LIMIT == (WORD_LIMIT - ptr) % WORD_LIMIT;
  }

  lemma MiddleMultiple(x: nat)
    requires 0 < x < WORD_LIMIT
    ensures AlignedTo(x, MIDDLE) <==> x == MIDDLE
  {}

  lemma MiddleUp(x: nat)
    requires 0 < x <= WORD_LIMIT
    ensures AlignUp(x, MIDDLE) == if x <= MIDDLE then MIDDLE else 0
  {}

  /**
   The padded request of an aligned allocation is refused or leaves room for the longest gap,
   unless rounding it wraps.
   */
  lemma PaddedRequest(adjust: nat, align: nat)
    requires PowerOfTwo(align) && 8 < align
    requires BLOCK_SIZE_MIN <= adjust < BLOCK_SIZE_MAX && adjust % 8 == 0
    requires adjust + 2 * align + BLOCK_HEADER_SIZE <= WORD_LIMIT
    ensures var w := AdjustRequest(adjust + align + BLOCK_HEADER_SIZE, align);
            w % 8 == 0 && w < BLOCK_SIZE_MAX && (w == 0 || w >= adjust + align + BLOCK_HEADER_SIZE)
  {
    hide AlignUp;
    hide AlignedTo;
    hide PowerOfTwo;
    SmallOrMultipleOf8(align);
    AlignUpLaw(adjust + align + BLOCK_HEADER_SIZE, align);
  }

  /** The one power of two of a 64-bit word whose padded request wraps: it is rounded to a minimum block. */
  lemma PaddedRequestWraps(adjust: nat)
    requires BLOCK_SIZE_MIN <= adjust < BLOCK_SIZE_MAX
    ensures AdjustRequest(adjust + 0x8000_0000_0000_0000 + BLOCK_HEADER_SIZE, 0x8000_0000_0000_0000) == BLOCK_SIZE_MIN
  {}

  /**
   The block found for a padded request can always be split behind the gap, and what remains behind
   it still covers the request.
   */
  lemma GapFits(ptr: nat, adjust: nat, align: nat, block: nat)
    requires PowerOfTwo(align) && 8 < align && ptr % 8 == 0 && ptr + 3 * align + 64 <= WORD_LIMIT
    requires BLOCK_SIZE_MIN <= adjust && adjust + align + BLOCK_HEADER_SIZE <= block
    ensures var g := LeadingGap(ptr, align);
            g != 0 ==> block >= BLOCK_HEADER_SIZE + g && block - g >= adjust + 8
  {
    LeadingGapLaw(ptr, align);
  }
}
