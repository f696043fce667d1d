/** What the consistency checks of the allocator look for, as statements about words. */
module TlsfChecks {
  import opened Digits
  import opened TlsfMapping
  import opened TlsfHeap
  import opened TlsfRep

  /** The block behind `b`, as the size word of `b` has it. */
  function NextOf(m: seq<nat>, b: nat): nat
    requires b + 1 < |m|
  {
    b + 1 + SizeOf(m[b + 1]) / 8
  }

  /** The header of `b` and that of the block behind it lie in memory. */
  predicate Readable(m: seq<nat>, b: nat) {
    && b + 2 < |m| && SizeOf(m[b + 1]) % 8 == 0 && SizeOf(m[b + 1]) < WORD_LIMIT
    && NextOf(m, b) + 1 < |m|
  }

  /** From `first` on the links lead through `list` to the null block. */
  ghost predicate Walks(m: seq<nat>, first: nat, nul: nat, list: seq<nat>) {
    && first == At(list, 0, nul)
    && forall k: nat :: k < |list| ==> Readable(m, list[k]) && list[k] != nul && m[list[k] + 2] == At(list, k + 1, nul)
  }

  /** A block in list (`i`, `j`): free behind a used block, in front of a used block that knows it, and of the right size. */
  predicate BlockSound(m: seq<nat>, b: nat, i: nat, j: nat)
    requires Readable(m, b)
  {
    var word, next := m[b + 1], m[NextOf(m, b) + 1];
    && word % 4 == 1 && next % 4 == 2 && SizeOf(word) >= 24
    && MappingInsert(SizeOf(word)) == Index(i, j)
  }

  /** Bit (`i`, `j`) is set exactly when the list has blocks, and only below a set first-level bit; the blocks are sound. */
  ghost predicate CellSound(m: seq<nat>, fl: nat, sl: nat, list: seq<nat>, i: nat, j: nat) {
    && (Bit(sl, j) <==> list != []) && (Bit(sl, j) ==> Bit(fl, i))
    && BlocksSound(m, list, i, j, |list|)
  }

  ghost predicate BlocksSound(m: seq<nat>, list: seq<nat>, i: nat, j: nat, n: nat)
    requires n <= |list|
  {
    forall k: nat :: k < n ==> Readable(m, list[k]) && BlockSound(m, list[k], i, j)
  }

  lemma NoBlocks(m: seq<nat>, list: seq<nat>, i: nat, j: nat)
    ensures BlocksSound(m, list, i, j, 0)
  {}

  lemma OneBlockMore(m: seq<nat>, list: seq<nat>, i: nat, j: nat, k: nat)
    requires k < |list| && Readable(m, list[k])
    ensures BlocksSound(m, list, i, j, k + 1) <==> BlocksSound(m, list, i, j, k) && BlockSound(m, list[k], i, j)
  {
    hide BlockSound;
    hide Readable;
  }

  lemma CellIs(m: seq<nat>, fl: nat, sl: nat, list: seq<nat>, i: nat, j: nat)
    ensures CellSound(m, fl, sl, list, i, j) <==>
            (Bit(sl, j) <==> list != []) && (Bit(sl, j) ==> Bit(fl, i)) && BlocksSound(m, list, i, j, |list|)
  {}

  /** A sound block by the bits that are tested. */
  lemma SoundBits(m: seq<nat>, b: nat, i: nat, j: nat)
    requires Readable(m, b)
    ensures b + 2 < |m| && NextOf(m, b) == b + 1 + SizeOf(m[b + 1]) / 8 && NextOf(m, b) + 1 < |m| && SizeOf(m[b + 1]) < WORD_LIMIT
    ensures var next := m[NextOf(m, b) + 1];
            BlockSound(m, b, i, j) <==>
            && Bit(m[b + 1], FREE_BIT) && !Bit(m[b + 1], PREV_FREE_BIT) && !Bit(next, FREE_BIT) && Bit(next, PREV_FREE_BIT)
            && SizeOf(m[b + 1]) >= BLOCK_SIZE_MIN
            && MappingInsert(SizeOf(m[b + 1])).fl == i && MappingInsert(SizeOf(m[b + 1])).sl == j
  {
    LowBits(m[b + 1]);
    LowBits(m[NextOf(m, b) + 1]);
    hide SizeOf;
    hide Bit;
    hide MappingInsert;
  }

  lemma LowBits(word: nat)
    ensures word % 4 == 1 <==> Bit(word, FREE_BIT) && !Bit(word, PREV_FREE_BIT)
    ensures word % 4 == 2 <==> !Bit(word, FREE_BIT) && Bit(word, PREV_FREE_BIT)
  {
    TwoBits(word);
    hide Bit;
  }

  /** The first `n` lists with their bits, row by row. */
  ghost predicate CellsSound(m: seq<nat>, fl: nat, sl: seq<nat>, lists: seq<seq<nat>>, n: nat)
    requires n <= |lists| && n <= 32 * |sl|
  {
    forall c: nat :: c < n ==> CellSound(m, fl, sl[c / 32], lists[c], c / 32, c % 32)
  }

  lemma NoCells(m: seq<nat>, fl: nat, sl: seq<nat>, lists: seq<seq<nat>>)
    ensures CellsSound(m, fl, sl, lists, 0)
  {}

  lemma CellIndex(c: nat)
    requires c < 800
    ensures c / 32 < 25 && c % 32 < 32 && c / 32 * 32 + c % 32 == c
  {}

  lemma OneCellMore(m: seq<nat>, fl: nat, sl: seq<nat>, lists: seq<seq<nat>>, i: nat, j: nat)
    requires j < 32 && i < |sl| && i * 32 + j < |lists|
    ensures CellsSound(m, fl, sl, lists, i * 32 + j + 1)
            <==> CellsSound(m, fl, sl, lists, i * 32 + j) && CellSound(m, fl, sl[i], lists[i * 32 + j], i, j)
  {
    hide CellSound;
    var n := i * 32 + j;
    assert n / 32 == i && n % 32 == j;
  }

  lemma CellsFrom(m: seq<nat>, fl: nat, sl: seq<nat>, lists: seq<seq<nat>>)
    requires |lists| <= 32 * |sl| && forall c: nat :: c < |lists| ==> CellSound(m, fl, sl[c / 32], lists[c], c / 32, c % 32)
    ensures CellsSound(m, fl, sl, lists, |lists|)
  {}

  lemma NoBitsInZero(x: nat, j: nat)
    ensures Bit(x, j) ==> x != 0
  {
    ZeroIffNoBits(x);
  }

  lemma NextLink(m: seq<nat>, first: nat, list: seq<nat>, nul: nat, k: nat)
    requires Walks(m, first, nul, list) && k <= |list|
    ensures first == At(list, 0, nul) && (At(list, k, nul) != nul <==> k < |list|)
    ensures k < |list| ==> Readable(m, list[k]) && At(list, k, nul) == list[k] && list[k] + 2 < |m| && m[list[k] + 2] == At(list, k + 1, nul)
  {
    hide SizeOf;
  }

  lemma WalksFrom(m: seq<nat>, first: nat, nul: nat, list: seq<nat>)
    requires first == At(list, 0, nul)
    requires forall k: nat :: k < |list| ==> Readable(m, list[k]) && list[k] != nul && list[k] + 2 < |m| && m[list[k] + 2] == At(list, k + 1, nul)
    ensures Walks(m, first, nul, list)
  {}

  lemma CellFrom(m: seq<nat>, fl: nat, sl: nat, list: seq<nat>, i: nat, j: nat)
    requires (Bit(sl, j) <==> list != []) && (Bit(sl, j) ==> Bit(fl, i))
    requires forall k: nat :: k < |list| ==> Readable(m, list[k]) && BlockSound(m, list[k], i, j)
    ensures CellSound(m, fl, sl, list, i, j)
  {}

  /** The size words of a free block and of the used one behind it are sound. */
  lemma SoundFrom(m: seq<nat>, b: nat, len: nat, next: nat, i: nat, j: nat)
    requires b + 2 < |m| && m[b + 1] == Tag(len, true, false) && 3 <= len && 8 * len < WORD_LIMIT
    requires b + 2 + len < |m| && m[b + 2 + len] == Tag(next, false, true)
    requires MappingInsert(8 * len) == Index(i, j)
    ensures Readable(m, b) && BlockSound(m, b, i, j)
  {
    hide *;
    FreeWord(len);
    UsedWord(next);
    ReadableFrom(m, b, len);
    SoundIs(m, b, i, j);
  }

  lemma FreeWord(len: nat)
    ensures Tag(len, true, false) % 4 == 1 && SizeOf(Tag(len, true, false)) == 8 * len
  {
    TagFields(len, true, false);
    hide SizeOf;
    assert Tag(len, true, false) == 2 * len * 4 + 1;
    DivModUnique(4, 2 * len, 1);
  }

  lemma UsedWord(len: nat)
    ensures Tag(len, false, true) % 4 == 2
  {
    assert Tag(len, false, true) == 2 * len * 4 + 2;
    DivModUnique(4, 2 * len, 2);
  }

  lemma ReadableFrom(m: seq<nat>, b: nat, len: nat)
    requires b + 2 < |m| && SizeOf(m[b + 1]) == 8 * len && 8 * len < WORD_LIMIT && b + 2 + len < |m|
    ensures Readable(m, b) && NextOf(m, b) == b + 1 + len
  {
    hide SizeOf;
  }

  lemma SoundIs(m: seq<nat>, b: nat, i: nat, j: nat)
    requires Readable(m, b) && NextOf(m, b) + 1 < |m| && b + 1 < |m|
    requires m[b + 1] % 4 == 1 && m[NextOf(m, b) + 1] % 4 == 2 && 24 <= SizeOf(m[b + 1]) < WORD_LIMIT
    requires MappingInsert(SizeOf(m[b + 1])) == Index(i, j)
    ensures BlockSound(m, b, i, j)
  {
    hide SizeOf;
    hide MappingInsert;
  }

  // ----- The blocks of a pool

  /** The sizes lead through `bs` to a block of size 0. */
  ghost predicate Strung(m: seq<nat>, bs: seq<nat>) {
    && bs != []
    && forall k: nat :: k < |bs| ==> StrungAt(m, bs, k)
  }

  ghost predicate StrungAt(m: seq<nat>, bs: seq<nat>, k: nat)
    requires k < |bs|
  {
    && 0 < bs[k] && bs[k] + 1 < |m| && SizeOf(m[bs[k] + 1]) % 8 == 0
    && (SizeOf(m[bs[k] + 1]) == 0 <==> k + 1 == |bs|)
    && (k + 1 < |bs| ==> bs[k + 1] == NextOf(m, bs[k]))
  }

  lemma StrungHere(m: seq<nat>, bs: seq<nat>, k: nat)
    requires Strung(m, bs) && k < |bs|
    ensures 0 < bs[k] && bs[k] + 1 < |m| && SizeOf(m[bs[k] + 1]) % 8 == 0
    ensures SizeOf(m[bs[k] + 1]) == 0 <==> k + 1 == |bs|
    ensures k + 1 < |bs| ==> bs[k + 1] == bs[k] + 1 + SizeOf(m[bs[k] + 1]) / 8 && bs[k + 1] + 1 < |m|
  {
    hide SizeOf;
    assert StrungAt(m, bs, k);
    if k + 1 < |bs| {
      assert StrungAt(m, bs, k + 1);
    }
  }

  /** Block `k` says that the block before it is free exactly when that says so itself; nothing is free before the first. */
  ghost predicate FlagSound(m: seq<nat>, bs: seq<nat>, k: nat)
    requires Strung(m, bs) && k < |bs|
  {
    assert StrungAt(m, bs, k);
    assert k > 0 ==> StrungAt(m, bs, k - 1);
    m[bs[k] + 1] / 2 % 2 == 1 <==> k > 0 && m[bs[k - 1] + 1] % 2 == 1
  }

  /** The first `n` blocks agree with the blocks before them. */
  ghost predicate FlagsSound(m: seq<nat>, bs: seq<nat>, n: nat)
    requires Strung(m, bs) && n <= |bs|
  {
    forall k: nat :: k < n ==> FlagSound(m, bs, k)
  }

  lemma NoFlags(m: seq<nat>, bs: seq<nat>)
    requires Strung(m, bs)
    ensures FlagsSound(m, bs, 0)
  {}

  lemma AllFlags(m: seq<nat>, bs: seq<nat>)
    requires Strung(m, bs) && |bs| > 0 && forall k: nat :: k + 1 < |bs| ==> FlagSound(m, bs, k)
    ensures FlagsSound(m, bs, |bs| - 1)
  {}

  /** What the walker remembers of the block before block `k`. */
  predicate BeforeIsFree(m: seq<nat>, bs: seq<nat>, k: nat) {
    0 < k <= |bs| && bs[k - 1] + 1 < |m| && Bit(m[bs[k - 1] + 1], FREE_BIT)
  }

  lemma NothingBefore(m: seq<nat>, bs: seq<nat>)
    ensures !BeforeIsFree(m, bs, 0)
  {}

  lemma OneFlagMore(m: seq<nat>, bs: seq<nat>, k: nat)
    requires Strung(m, bs) && k < |bs|
    ensures bs[k] + 1 < |m| && BeforeIsFree(m, bs, k + 1) == Bit(m[bs[k] + 1], FREE_BIT)
    ensures FlagsSound(m, bs, k + 1)
            <==> FlagsSound(m, bs, k) && BeforeIsFree(m, bs, k) == Bit(m[bs[k] + 1], PREV_FREE_BIT)
  {
    FlagIs(m, bs, k);
    StrungHere(m, bs, k);
    hide Bit;
    hide FlagSound;
    hide Strung;
  }

  lemma FlagIs(m: seq<nat>, bs: seq<nat>, k: nat)
    requires Strung(m, bs) && k < |bs|
    ensures bs[k] + 1 < |m|
    ensures FlagSound(m, bs, k) <==> BeforeIsFree(m, bs, k) == Bit(m[bs[k] + 1], PREV_FREE_BIT)
  {
    StrungHere(m, bs, k);
    TwoBits(m[bs[k] + 1]);
    if k > 0 {
      StrungHere(m, bs, k - 1);
      TwoBits(m[bs[k - 1] + 1]);
    }
    hide Bit;
    hide SizeOf;
    hide Strung;
  }

  lemma StrungFrom(m: seq<nat>, bs: seq<nat>, k: nat, len: nat, free: bool, prevFree: bool)
    requires k < |bs| && 0 < bs[k] && bs[k] + 1 < |m| && m[bs[k] + 1] == Tag(len, free, prevFree)
    requires (len == 0 <==> k + 1 == |bs|) && (k + 1 < |bs| ==> bs[k + 1] == bs[k] + 1 + len)
    ensures StrungAt(m, bs, k)
  {
    TagFields(len, free, prevFree);
    hide SizeOf;
    hide Tag;
  }

  lemma IsStrung(m: seq<nat>, bs: seq<nat>)
    requires |bs| > 0 && forall k: nat :: k < |bs| ==> StrungAt(m, bs, k)
    ensures Strung(m, bs)
  {}

  lemma TagFlags(len: nat, free: bool, prevFree: bool)
    ensures var w := Tag(len, free, prevFree); (w % 2 == 1 <==> free) && (w / 2 % 2 == 1 <==> prevFree)
  {
    var f, pf := if free then 1 else 0, if prevFree then 1 else 0;
    assert Tag(len, free, prevFree) == (4 * len + pf) * 2 + f;
    DivModUnique(2, 4 * len + pf, f);
    assert 4 * len + pf == 2 * len * 2 + pf;
    DivModUnique(2, 2 * len, pf);
  }

  lemma FlagFrom(m: seq<nat>, bs: seq<nat>, k: nat, len: nat, free: bool, prevFree: bool, len': nat, free': bool, prevFree': bool)
    requires Strung(m, bs) && 0 < k < |bs| && bs[k] + 1 < |m| && bs[k - 1] + 1 < |m|
    requires m[bs[k] + 1] == Tag(len, free, prevFree) && m[bs[k - 1] + 1] == Tag(len', free', prevFree')
    requires prevFree == free'
    ensures FlagSound(m, bs, k)
  {
    TagFlags(len, free, prevFree);
    TagFlags(len', free', prevFree');
    hide Tag;
    hide Strung;
    hide SizeOf;
  }

  lemma FirstFlag(m: seq<nat>, bs: seq<nat>, len: nat, free: bool)
    requires Strung(m, bs) && bs[0] + 1 < |m| && m[bs[0] + 1] == Tag(len, free, false)
    ensures FlagSound(m, bs, 0)
  {
    TagFlags(len, free, false);
    hide Tag;
    hide Strung;
    hide SizeOf;
  }
}
