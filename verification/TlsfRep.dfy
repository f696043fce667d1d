/**
 How words represent the abstract heap. Memory is a row of 8-byte words and a pointer is the number
 of the word it points at. A header at `b` spans the words `b` (link to the previous block), `b + 1`
 (size and flags), `b + 2` and `b + 3` (next and previous block of a free list); the first of them
 is the last payload word of the block before.
 */
module TlsfRep {
  import opened Sequences
  import opened Digits
  import opened TlsfMapping
  import opened TlsfHeap
  import opened TlsfOps

  const FREE_BIT: nat := 0
  const PREV_FREE_BIT: nat := 1

  /** The words of memory, the list heads, and the two bitmap levels. */
  datatype State = State(mem: seq<nat>, heads: seq<nat>, sl: seq<nat>, fl: nat)

  // ----- Size words

  /** A size in bytes with the two flags packed into its low bits. */
  function Tag(len: nat, free: bool, prevFree: bool): nat {
    8 * len + (if free then 1 else 0) + (if prevFree then 2 else 0)
  }

  /** `block_size`: the size word without its flags. */
  function SizeOf(word: nat): nat {
    DropLow(2, word, 2)
  }

  /** `block_set_size`: a new size under the old flags. */
  function WithSize(word: nat, size: nat): nat {
    size + word % 4
  }

  lemma TagFields(len: nat, free: bool, prevFree: bool)
    ensures var w := Tag(len, free, prevFree);
            && SizeOf(w) == 8 * len && Bit(w, FREE_BIT) == free && Bit(w, PREV_FREE_BIT) == prevFree
            && forall n: nat :: WithSize(w, 8 * n) == Tag(n, free, prevFree)
  {
    var w := Tag(len, free, prevFree);
    TwoBits(w);
    assert w % 4 == (if free then 1 else 0) + (if prevFree then 2 else 0);
  }

  /** The two low bits of a word, and the word without them. */
  lemma TwoBits(w: nat)
    ensures Bit(w, 0) == (w % 2 == 1) && Bit(w, 1) == (w / 2 % 2 == 1)
    ensures SizeOf(w) == w - w % 4
    ensures SetBit(w, 0) == w - w % 2 + 1 && ClearBit(w, 0) == w - w % 2
    ensures SetBit(w, 1) == w - 2 * (w / 2 % 2) + 2 && ClearBit(w, 1) == w - 2 * (w / 2 % 2)
  {
    assert DropLow(2, w / 2 / 2, 0) == w / 2 / 2;
    assert DropLow(2, w / 2, 1) == w / 2 / 2 * 2;
    assert Digit(2, w / 2, 0) == w / 2 % 2;
    assert WithDigit(2, w / 2, 0, 1) == w / 2 / 2 * 2 + 1 && WithDigit(2, w / 2, 0, 0) == w / 2 / 2 * 2;
  }

  lemma TagUpdates(len: nat, free: bool, prevFree: bool)
    ensures var w := Tag(len, free, prevFree);
            && SetBit(w, FREE_BIT) == Tag(len, true, prevFree)
            && ClearBit(w, FREE_BIT) == Tag(len, false, prevFree)
            && SetBit(w, PREV_FREE_BIT) == Tag(len, free, true)
            && ClearBit(w, PREV_FREE_BIT) == Tag(len, free, false)
  {
    hide *;
    TwoBits(Tag(len, free, prevFree));
    TagParts(len, free, prevFree);
    TagParts(len, true, prevFree);
    TagParts(len, false, prevFree);
    TagParts(len, free, true);
    TagParts(len, free, false);
  }

  lemma TagParts(len: nat, free: bool, prevFree: bool)
    ensures FREE_BIT == 0 && PREV_FREE_BIT == 1
    ensures var w := Tag(len, free, prevFree);
            && w % 2 == (if free then 1 else 0) && w / 2 % 2 == (if prevFree then 1 else 0)
            && w == 8 * len + (if free then 1 else 0) + (if prevFree then 2 else 0)
  {
    var f, pf := if free then 1 else 0, if prevFree then 1 else 0;
    DivModUnique(2, 4 * len + pf, f);
    DivModUnique(2, 2 * len, pf);
    assert Tag(len, free, prevFree) == (4 * len + pf) * 2 + f && 4 * len + pf == 2 * len * 2 + pf;
  }

  /** Whatever a payload word held, giving it a size leaves it a size word with some flags. */
  lemma StaleTag(word: nat, len: nat)
    ensures WithSize(word, 8 * len) == Tag(len, Bit(word, FREE_BIT), Bit(word, PREV_FREE_BIT))
  {}

  ghost function TagOf(h: Heap, b: nat): nat
    requires b in h.len
  {
    Tag(h.len[b], b in h.free, b in h.prevFree)
  }

  // ----- The representation

  /** All blocks lie inside memory and clear of the null block at `nul`. */
  ghost predicate Placed(size: nat, t: Tiles, nul: nat) {
    && 0 < nul && nul + 4 <= size
    && (forall b {:trigger End(t, b)} :: b in t ==> End(t, b) < size && (End(t, b) < nul || nul + 3 <= b))
  }

  /** Every block's size word. */
  ghost predicate Tags(m: seq<nat>, h: Heap) {
    forall b {:trigger b in h.len} :: b in h.len ==> b + 1 < |m| && m[b + 1] == TagOf(h, b)
  }

  /** Every free block outside `ys` is linked from the block after it. */
  ghost predicate Links(m: seq<nat>, h: Heap, ys: set<nat>) {
    forall b {:trigger b in h.free} :: b in h.free && b !in ys && b in h.len ==> End(h.len, b) < |m| && m[End(h.len, b)] == b
  }

  /** Element `i` of a list, the null block off either end. */
  ghost function At(s: seq<nat>, i: int, nul: nat): nat {
    if 0 <= i < |s| then s[i] else nul
  }

  /** The `next_free` word of a header. */
  ghost function NextFree(m: seq<nat>, x: nat): nat {
    if x + 2 < |m| then m[x + 2] else 0
  }

  /** The `prev_free` word of a header. */
  ghost function PrevFree(m: seq<nat>, x: nat): nat {
    if x + 3 < |m| then m[x + 3] else 0
  }

  /** The words of one doubly linked list. */
  ghost predicate Chained(m: seq<nat>, s: seq<nat>, nul: nat) {
    && (forall i :: 0 <= i < |s| ==> s[i] + 3 < |m|)
    && forall i {:trigger NextFree(m, s[i])} {:trigger PrevFree(m, s[i])} :: 0 <= i < |s| ==>
      NextFree(m, s[i]) == At(s, i + 1, nul) && PrevFree(m, s[i]) == At(s, i - 1, nul)
  }

  ghost predicate ListsRep(m: seq<nat>, heads: seq<nat>, lists: seq<seq<nat>>, nul: nat) {
    && |heads| == |lists| == CLASSES
    && (forall c :: 0 <= c < CLASSES ==> heads[c] == At(lists[c], 0, nul))
    && (forall c :: 0 <= c < CLASSES ==> Chained(m, lists[c], nul))
  }

  /** The list of first-level index `f` and second-level index `s`. */
  ghost function Cell(lists: seq<seq<nat>>, f: nat, s: nat): seq<nat>
    requires |lists| == CLASSES && f < FL_INDEX_COUNT && s < SL_INDEX_COUNT
  {
    lists[f * 32 + s]
  }

  /** A second-level bit is set exactly for a non-empty list, a first-level bit exactly for a non-zero row. */
  ghost predicate Bitmaps(fl: nat, sl: seq<nat>, lists: seq<seq<nat>>) {
    && |sl| == FL_INDEX_COUNT && |lists| == CLASSES
    && (forall f: nat, s: nat {:trigger Bit(sl[f], s)} :: f < FL_INDEX_COUNT ==>
          (Bit(sl[f], s) <==> s < SL_INDEX_COUNT && Cell(lists, f, s) != []))
    && (forall f: nat {:trigger Bit(fl, f)} :: Bit(fl, f) <==> f < FL_INDEX_COUNT && sl[f] != 0)
  }

  ghost predicate Rep(st: State, h: Heap, nul: nat, ys: set<nat>) {
    && Placed(|st.mem|, h.len, nul)
    && Tags(st.mem, h)
    && Links(st.mem, h, ys)
    && ListsRep(st.mem, st.heads, h.lists, nul)
    && Bitmaps(st.fl, st.sl, h.lists)
  }

  lemma RepSizes(st: State, h: Heap, nul: nat, ys: set<nat>)
    requires Rep(st, h, nul, ys)
    ensures |st.heads| == |h.lists| == CLASSES && |st.sl| == FL_INDEX_COUNT && 0 < nul && nul + 4 <= |st.mem|
    ensures forall b {:trigger b in h.len} :: b in h.len ==> b + 1 < |st.mem| && st.mem[b + 1] == TagOf(h, b)
  {
    hide Links;
  }

  /** A block lies inside memory, its link word included. */
  lemma RepRoom(st: State, h: Heap, nul: nat, ys: set<nat>, b: nat)
    requires Rep(st, h, nul, ys) && b in h.len
    ensures End(h.len, b) < |st.mem| && b + 1 < |st.mem|
  {}

  // ----- What the heap says about the words

  /** The size words, the links of the free blocks and their list links are the same. */
  ghost predicate SameHeaders(m: seq<nat>, m': seq<nat>, h: Heap) {
    && (forall b {:trigger b in h.len} :: b in h.len ==> b + 1 < |m| && b + 1 < |m'| && m'[b + 1] == m[b + 1])
    && (forall b {:trigger b in h.free} :: b in h.free && b in h.len ==>
          && End(h.len, b) < |m| && End(h.len, b) < |m'| && m'[End(h.len, b)] == m[End(h.len, b)]
          && NextFree(m', b) == NextFree(m, b) && PrevFree(m', b) == PrevFree(m, b))
  }

  lemma SameBitmaps(fl: nat, sl: seq<nat>, fl': nat, sl': seq<nat>, lists: seq<seq<nat>>)
    requires Bitmaps(fl, sl, lists) && Bitmaps(fl', sl', lists)
    ensures fl == fl' && sl == sl'
  {
    forall f: nat | f < FL_INDEX_COUNT ensures sl[f] == sl'[f] {
      SameBits(sl[f], sl'[f]);
    }
    SameBits(fl, fl');
  }

  lemma SameChains(m: seq<nat>, m': seq<nat>, h: Heap, heads: seq<nat>, heads': seq<nat>, nul: nat, b: nat)
    requires ListsRep(m, heads, h.lists, nul) && ListsRep(m', heads', h.lists, nul)
    requires Listed(h.len, h.free, h.lists, {}) && b in h.free && b in h.len
    ensures NextFree(m', b) == NextFree(m, b) && PrevFree(m', b) == PrevFree(m, b)
  {
    hide ClassOf;
    hide At;
    hide NextFree;
    hide PrevFree;
    var c := ClassOf(h.len[b]);
    var i :| 0 <= i < |h.lists[c]| && h.lists[c][i] == b;
    assert Chained(m, h.lists[c], nul) && Chained(m', h.lists[c], nul);
  }

  /**
   Every word that is the allocator's own follows from the heap: two states that represent the same
   heap have the same list heads, bitmaps, size words and links.
   */
  lemma SameRep(st: State, st': State, h: Heap, nul: nat)
    requires Rep(st, h, nul, {}) && Rep(st', h, nul, {}) && Valid(h)
    ensures st.heads == st'.heads && st.sl == st'.sl && st.fl == st'.fl && SameHeaders(st.mem, st'.mem, h)
  {
    SameBitmaps(st.fl, st.sl, st'.fl, st'.sl, h.lists);
    forall b | b in h.free && b in h.len
      ensures NextFree(st'.mem, b) == NextFree(st.mem, b) && PrevFree(st'.mem, b) == PrevFree(st.mem, b)
    {
      SameChains(st.mem, st'.mem, h, st.heads, st'.heads, nul, b);
    }
    hide NextFree;
    hide PrevFree;
    hide Bitmaps;
    hide Listed;
    hide Chained;
    hide Tag;
  }

  // ----- What the words of the clients see

  /** The payloads of the live blocks in `lives` hold the same words. */
  ghost predicate PayloadsKept(m: seq<nat>, m': seq<nat>, lives: map<nat, nat>) {
    && |m| == |m'|
    && (forall k, w :: k in lives && k + 2 <= w <= k + 1 + lives[k] && w < |m| ==> m'[w] == m[w])
  }

  ghost predicate PoolWord(pools: map<nat, nat>, w: nat) {
    exists p :: p in pools && p < w <= pools[p] + 1
  }

  /** Outside the pools nothing changes but the scratch links of the null block. */
  ghost predicate OutsideKept(m: seq<nat>, m': seq<nat>, pools: map<nat, nat>, nul: nat) {
    && |m| == |m'|
    && (forall w {:trigger m'[w]} :: 0 <= w < |m| && m'[w] != m[w] ==> w == nul + 2 || w == nul + 3 || PoolWord(pools, w))
  }

  /** A changed word is scratch of the null block, a size word, or payload of a block not in `lives`. */
  ghost predicate Harmless(t: Tiles, lives: map<nat, nat>, nul: nat, w: nat) {
    || w == nul + 2 || w == nul + 3
    || exists x {:trigger End(t, x)} :: x in t && x < w <= End(t, x) && (w == x + 1 || x !in lives || w > x + 1 + lives[x])
  }

  lemma OwnerUnique(t: Tiles, a: nat, b: nat, w: nat)
    requires Tiled(t) && a in t && b in t && a < w <= End(t, a) && b < w <= End(t, b)
    ensures a == b
  {}

  lemma OwnerInPool(t: Tiles, pools: map<nat, nat>, x: nat, w: nat)
    requires Tiled(t) && Pooled(t, pools) && x in t && x < w <= End(t, x)
    ensures PoolWord(pools, w)
  {
    assert InPool(pools, x);
    var p :| p in pools && p <= x <= pools[p];
    assert End(t, pools[p]) == pools[p] + 1;
    if x < pools[p] {
      assert End(t, x) <= pools[p];
    }
  }

  /** A word a client owns is nobody else's and no size word, so changing it would not be harmless. */
  lemma OwnedIsNotHarmless(size: nat, t: Tiles, lives: map<nat, nat>, nul: nat, k: nat, w: nat)
    requires Tiled(t) && Placed(size, t, nul) && k in t && k in lives && lives[k] <= t[k] && k + 2 <= w <= k + 1 + lives[k]
    ensures !Harmless(t, lives, nul, w)
  {
    assert End(t, k) >= w;
    forall x {:trigger End(t, x)} | x in t && x < w <= End(t, x) ensures x == k {
      OwnerUnique(t, x, k, w);
    }
  }

  lemma HarmlessOutside(h: Heap, lives: map<nat, nat>, nul: nat, w: nat)
    requires Tiled(h.len) && Pooled(h.len, h.pools) && Harmless(h.len, lives, nul, w)
    ensures w == nul + 2 || w == nul + 3 || PoolWord(h.pools, w)
  {
    if w != nul + 2 && w != nul + 3 {
      var x {:trigger End(h.len, x)} :| x in h.len && x < w <= End(h.len, x);
      OwnerInPool(h.len, h.pools, x, w);
    }
  }

  /** Harmless changes are invisible to clients and to the world outside the pools. */
  lemma HarmlessChanges(m: seq<nat>, m': seq<nat>, h: Heap, lives: map<nat, nat>, nul: nat)
    requires |m| == |m'| && Tiled(h.len) && Pooled(h.len, h.pools) && Placed(|m|, h.len, nul)
    requires forall k {:trigger k in lives} :: k in lives ==> k in h.len && lives[k] <= h.len[k]
    requires forall w {:trigger m'[w]} :: 0 <= w < |m| && m'[w] != m[w] ==> Harmless(h.len, lives, nul, w)
    ensures PayloadsKept(m, m', lives) && OutsideKept(m, m', h.pools, nul)
  {
    hide Harmless;
    hide Tiled;
    hide Pooled;
    hide Placed;
    hide PoolWord;
    forall w | 0 <= w < |m| && m'[w] != m[w] ensures w == nul + 2 || w == nul + 3 || PoolWord(h.pools, w) {
      HarmlessOutside(h, lives, nul, w);
    }
    forall k, w | k in lives && k + 2 <= w <= k + 1 + lives[k] && w < |m| ensures m'[w] == m[w] {
      OwnedIsNotHarmless(|m|, h.len, lives, nul, k, w);
    }
  }

  // ----- Writing list links

  /** A block whose list links may be written: a free block or the null block. */
  ghost predicate Node(h: Heap, nul: nat, x: nat) {
    x == nul || x in h.free
  }

  lemma NodesApart(size: nat, h: Heap, nul: nat, x: nat, y: nat)
    requires Tiled(h.len) && FlagsOfBlocks(h.len, h.free, h.prevFree) && Placed(size, h.len, nul)
    requires Node(h, nul, x) && Node(h, nul, y)
    ensures x + 3 < size && Sep(x, y)
  {
    assert x in h.free ==> End(h.len, x) >= x + 4;
    assert y in h.free ==> End(h.len, y) >= y + 4;
  }

  /** A write to a list link changes no size word and no link to a previous block. */
  lemma LinkWrite(m: seq<nat>, h: Heap, nul: nat, ys: set<nat>, w: nat, x: nat, v: nat)
    requires Tiled(h.len) && FlagsOfBlocks(h.len, h.free, h.prevFree) && Placed(|m|, h.len, nul)
    requires Tags(m, h) && Links(m, h, ys)
    requires Node(h, nul, x) && (w == x + 2 || w == x + 3)
    ensures w < |m| && Tags(m[w := v], h) && Links(m[w := v], h, ys)
  {
    NodesApart(|m|, h, nul, x, nul);
    assert x in h.free ==> End(h.len, x) >= x + 4;
    forall b | b in h.len ensures b + 1 != w {
      assert End(h.len, b) >= b + 1;
    }
    forall b | b in h.free ensures b in h.len && End(h.len, b) != w {
      assert End(h.len, b) in h.len;
      assert End(h.len, End(h.len, b)) > End(h.len, b);
    }
  }

  lemma ChainFrame(m: seq<nat>, m': seq<nat>, s: seq<nat>, nul: nat)
    requires Chained(m, s, nul) && |m'| == |m|
    requires forall i {:trigger NextFree(m', s[i])} {:trigger PrevFree(m', s[i])} :: 0 <= i < |s| ==>
               NextFree(m', s[i]) == NextFree(m, s[i]) && PrevFree(m', s[i]) == PrevFree(m, s[i])
    ensures Chained(m', s, nul)
  {}

  /** Two headers that are the same or whose link words do not meet. */
  ghost predicate Sep(x: nat, y: nat) {
    x == y || x + 3 <= y || y + 3 <= x
  }

  /** The link words of `x` after `next->prev_free = prev; prev->next_free = next`. */
  lemma Unlinked(m: seq<nat>, m': seq<nat>, prev: nat, next: nat, x: nat)
    requires prev + 3 < |m| && next + 3 < |m| && x + 3 < |m|
    requires Sep(x, prev) && Sep(x, next) && Sep(prev, next)
    requires m' == m[next + 3 := prev][prev + 2 := next]
    ensures NextFree(m', x) == if x == prev then next else NextFree(m, x)
    ensures PrevFree(m', x) == if x == next then prev else PrevFree(m, x)
  {}

  ghost predicate AllSep(s: seq<nat>, x: nat) {
    forall i :: 0 <= i < |s| ==> Sep(s[i], x)
  }

  lemma AtRemoved(s: seq<nat>, k: nat, i: int, nul: nat)
    requires k < |s| && -1 <= i <= |s| - 1
    ensures At(s[..k] + s[k + 1..], i, nul) == At(s, if i < k then i else i + 1, nul)
  {}

  /** Element `k` of the list is unlinked from memory. */
  ghost predicate UnlinkedAt(m: seq<nat>, m': seq<nat>, s: seq<nat>, k: nat, nul: nat) {
    k < |s| && NoDuplicates(s) && nul !in s &&
    var prev, next := At(s, k - 1, nul), At(s, k + 1, nul);
    && AllSep(s, prev) && AllSep(s, next) && Sep(prev, next)
    && prev + 3 < |m| && next + 3 < |m|
    && m' == m[next + 3 := prev][prev + 2 := next]
  }

  lemma ChainRemoveAt(m: seq<nat>, m': seq<nat>, s: seq<nat>, k: nat, nul: nat, j: nat)
    requires Chained(m, s, nul) && UnlinkedAt(m, m', s, k, nul) && j < |s| && j != k
    ensures s[j] + 3 < |m'|
    ensures NextFree(m', s[j]) == if j == k - 1 then At(s, k + 1, nul) else At(s, j + 1, nul)
    ensures PrevFree(m', s[j]) == if j == k + 1 then At(s, k - 1, nul) else At(s, j - 1, nul)
  {
    var prev, next := At(s, k - 1, nul), At(s, k + 1, nul);
    assert NextFree(m, s[j]) == At(s, j + 1, nul);
    Unlinked(m, m', prev, next, s[j]);
    assert s[j] == prev <==> j == k - 1;
    assert s[j] == next <==> j == k + 1;
  }

  /** A doubly linked list after unlinking its element `k`. */
  lemma ChainRemove(m: seq<nat>, m': seq<nat>, s: seq<nat>, k: nat, nul: nat, t: seq<nat>)
    requires k < |s| && Chained(m, s, nul) && UnlinkedAt(m, m', s, k, nul) && t == s[..k] + s[k + 1..]
    ensures |m'| == |m| && Chained(m', t, nul)
  {
    forall i | 0 <= i < |t|
      ensures t[i] + 3 < |m'| && NextFree(m', t[i]) == At(t, i + 1, nul) && PrevFree(m', t[i]) == At(t, i - 1, nul)
    {
      var j := if i < k then i else i + 1;
      assert t[i] == s[j];
      ChainRemoveAt(m, m', s, k, nul, j);
      AtRemoved(s, k, i + 1, nul);
      AtRemoved(s, k, i - 1, nul);
    }
  }

  lemma {:induction false} RemoveAt(s: seq<nat>, k: nat)
    requires k < |s| && NoDuplicates(s)
    ensures Remove(s, s[k]) == s[..k] + s[k + 1..]
  {
    if k > 0 {
      RemoveAt(s[1..], k - 1);
      assert s[1..][..k - 1] == s[1..k] && s[1..][k..] == s[k + 1..];
      assert [s[0]] + s[1..k] == s[..k];
    }
  }

  // ----- The two bitmap levels

  lemma RowIsZero(fl: nat, sl: seq<nat>, lists: seq<seq<nat>>, f: nat)
    requires Bitmaps(fl, sl, lists) && f < FL_INDEX_COUNT
    ensures sl[f] == 0 <==> forall s: nat :: s < SL_INDEX_COUNT ==> Cell(lists, f, s) == []
  {
    ZeroIffNoBits(sl[f]);
    assert forall s: nat :: s < SL_INDEX_COUNT ==> (Bit(sl[f], s) <==> Cell(lists, f, s) != []);
  }

  /** Replacing one list by another that is empty only if it was changes no bit. */
  lemma BitmapsSame(fl: nat, sl: seq<nat>, lists: seq<seq<nat>>, lists': seq<seq<nat>>)
    requires Bitmaps(fl, sl, lists) && |lists'| == |lists|
    requires forall c :: 0 <= c < |lists| ==> (lists'[c] == [] <==> lists[c] == [])
    ensures Bitmaps(fl, sl, lists')
  {
    assert forall f: nat, s: nat :: f < FL_INDEX_COUNT && s < SL_INDEX_COUNT ==>
        (Cell(lists', f, s) == [] <==> Cell(lists, f, s) == []);
  }

  /** `fl_bitmap |= 1 << f; sl_bitmap[f] |= 1 << s` records a list that is no longer empty. */
  lemma BitmapsInsert(fl: nat, sl: seq<nat>, lists: seq<seq<nat>>, f: nat, s: nat, list: seq<nat>)
    requires Bitmaps(fl, sl, lists) && f < FL_INDEX_COUNT && s < SL_INDEX_COUNT && list != []
    ensures Bitmaps(SetBit(fl, f), sl[f := SetBit(sl[f], s)], lists[f * 32 + s := list])
  {
    SetBitAt(fl, f);
    SetBitAt(sl[f], s);
    ZeroIffNoBits(SetBit(sl[f], s));
    assert Bit(SetBit(sl[f], s), s);
    CellUpdate(lists, f, s, list, lists[f * 32 + s := list]);
  }

  lemma CellUpdate(lists: seq<seq<nat>>, f: nat, s: nat, list: seq<nat>, lists': seq<seq<nat>>)
    requires |lists| == CLASSES && f < FL_INDEX_COUNT && s < SL_INDEX_COUNT && lists' == lists[f * 32 + s := list]
    ensures Cell(lists', f, s) == list
    ensures forall g: nat, t: nat {:trigger Cell(lists', g, t)} :: g < FL_INDEX_COUNT && t < SL_INDEX_COUNT ==>
              (g == f && t == s) || Cell(lists', g, t) == Cell(lists, g, t)
  {
    forall g: nat, t: nat | g < FL_INDEX_COUNT && t < SL_INDEX_COUNT && !(g == f && t == s)
      ensures Cell(lists', g, t) == Cell(lists, g, t)
    {
      assert g * 32 + t != f * 32 + s;
    }
  }

  /** `sl_bitmap[f] &= ~(1 << s)`, then the same for the first level if the row became zero. */
  lemma BitmapsRemove(fl: nat, sl: seq<nat>, lists: seq<seq<nat>>, f: nat, s: nat, fl': nat, sl': seq<nat>)
    requires Bitmaps(fl, sl, lists) && f < FL_INDEX_COUNT && s < SL_INDEX_COUNT
    requires sl' == sl[f := ClearBit(sl[f], s)] && fl' == if sl'[f] == 0 then ClearBit(fl, f) else fl
    ensures Bitmaps(fl', sl', lists[f * 32 + s := []])
  {
    ClearBitAt(fl, f);
    ClearBitAt(sl[f], s);
    ZeroIffNoBits(sl[f]);
    ZeroIffNoBits(sl'[f]);
    CellUpdate(lists, f, s, [], lists[f * 32 + s := []]);
  }

  // ----- Unlisting and listing a block

  /** List elements and the null block never overlap. */
  lemma ListNodes(size: nat, h: Heap, nul: nat, xs: set<nat>, ys: set<nat>, c: nat)
    requires Inv(h, xs, ys) && Placed(size, h.len, nul) && c < CLASSES
    ensures nul !in h.lists[c] && NoDuplicates(h.lists[c])
    ensures forall i :: 0 <= i < |h.lists[c]| ==> Node(h, nul, h.lists[c][i]) && h.lists[c][i] in h.len
  {
    hide ClassOf;
    forall x | x in h.lists[c] ensures x in h.free && x != nul {
      assert End(h.len, x) >= x + 4;
    }
  }

  lemma AllSepFrom(size: nat, h: Heap, nul: nat, s: seq<nat>, x: nat)
    requires Tiled(h.len) && FlagsOfBlocks(h.len, h.free, h.prevFree) && Placed(size, h.len, nul)
    requires Node(h, nul, x) && forall i :: 0 <= i < |s| ==> Node(h, nul, s[i])
    ensures AllSep(s, x) && forall i :: 0 <= i < |s| ==> s[i] + 3 < size
  {
    forall i | 0 <= i < |s| ensures Sep(s[i], x) && s[i] + 3 < size {
      NodesApart(size, h, nul, s[i], x);
    }
  }

  lemma UnlinkOne(m: seq<nat>, m': seq<nat>, h: Heap, nul: nat, xs: set<nat>, ys: set<nat>, c: nat, k: nat)
    requires Inv(h, xs, ys) && Placed(|m|, h.len, nul) && c < CLASSES && k < |h.lists[c]|
    requires var prev, next := At(h.lists[c], k - 1, nul), At(h.lists[c], k + 1, nul);
             prev + 3 < |m| && next + 3 < |m| && m' == m[next + 3 := prev][prev + 2 := next]
    ensures UnlinkedAt(m, m', h.lists[c], k, nul)
  {
    ListNodes(|m|, h, nul, xs, ys, c);
    var s := h.lists[c];
    var prev, next := At(s, k - 1, nul), At(s, k + 1, nul);
    AllSepFrom(|m|, h, nul, s, prev);
    AllSepFrom(|m|, h, nul, s, next);
    NodesApart(|m|, h, nul, prev, next);
  }

  /** Unlinking a block of one list leaves the chains of the others. */
  lemma UnlinkOthers(m: seq<nat>, m': seq<nat>, h: Heap, nul: nat, xs: set<nat>, ys: set<nat>, c: nat, k: nat, d: nat)
    requires Inv(h, xs, ys) && Placed(|m|, h.len, nul) && c < CLASSES && k < |h.lists[c]| && d < CLASSES && d != c
    requires UnlinkedAt(m, m', h.lists[c], k, nul) && Chained(m, h.lists[d], nul)
    ensures Chained(m', h.lists[d], nul)
  {
    ListNodes(|m|, h, nul, xs, ys, c);
    ListNodes(|m|, h, nul, xs, ys, d);
    var s := h.lists[c];
    var prev, next := At(s, k - 1, nul), At(s, k + 1, nul);
    assert prev != nul ==> prev in s;
    assert next != nul ==> next in s;
    forall i | 0 <= i < |h.lists[d]|
      ensures NextFree(m', h.lists[d][i]) == NextFree(m, h.lists[d][i])
      ensures PrevFree(m', h.lists[d][i]) == PrevFree(m, h.lists[d][i])
    {
      var x := h.lists[d][i];
      assert x in h.lists[d];
      NodesApart(|m|, h, nul, x, prev);
      NodesApart(|m|, h, nul, x, next);
      hide Inv;
      Unlinked(m, m', prev, next, x);
    }
    ChainFrame(m, m', h.lists[d], nul);
  }

  /** The list words and heads after a block has been unlinked. */
  lemma UnlinkedUnique(m: seq<nat>, m': seq<nat>, s: seq<nat>, k: nat, nul: nat)
    requires UnlinkedAt(m, m', s, k, nul)
    ensures NoDuplicates(s) && nul !in s && k < |s| && (s[0] == s[k] <==> k == 0)
  {}

  lemma UnlistLists(m: seq<nat>, m': seq<nat>, heads: seq<nat>, heads': seq<nat>, h: Heap, nul: nat,
                    xs: set<nat>, ys: set<nat>, c: nat, k: nat, b: nat)
    requires Inv(h, xs, ys) && Placed(|m|, h.len, nul) && c < CLASSES && k < |h.lists[c]|
    requires b == h.lists[c][k] && b in h.len && ClassOf(h.len[b]) == c
    requires UnlinkedAt(m, m', h.lists[c], k, nul) && ListsRep(m, heads, h.lists, nul)
    requires heads' == if heads[c] == b then heads[c := At(h.lists[c], k + 1, nul)] else heads
    ensures ListsRep(m', heads', Unlist(h, b).lists, nul)
    ensures heads[c] == b <==> k == 0
  {
    hide ClassOf;
    hide Inv;
    hide Chained;
    hide UnlinkedAt;
    var s := h.lists[c];
    UnlinkedUnique(m, m', s, k, nul);
    RemoveAt(s, k);
    ChainRemove(m, m', s, k, nul, Remove(s, b));
    forall d | 0 <= d < CLASSES && d != c ensures Chained(m', h.lists[d], nul) {
      UnlinkOthers(m, m', h, nul, xs, ys, c, k, d);
    }
    AtRemoved(s, k, 0, nul);
  }

  lemma ChainInsert(m: seq<nat>, m': seq<nat>, s: seq<nat>, b: nat, nul: nat)
    requires Chained(m, s, nul) && nul + 3 < |m| && b + 3 < |m| && b != nul && b !in s && nul !in s && NoDuplicates(s)
    requires var cur := At(s, 0, nul);
             && AllSep(s, b) && AllSep(s, cur) && Sep(b, cur) && cur + 3 < |m|
             && m' == m[b + 2 := cur][b + 3 := nul][cur + 3 := b]
    ensures Chained(m', [b] + s, nul)
  {
    var t := [b] + s;
    var cur := At(s, 0, nul);
    assert NextFree(m', b) == cur && PrevFree(m', b) == nul;
    forall i | 0 <= i < |s|
      ensures s[i] + 3 < |m| && NextFree(m', s[i]) == At(s, i + 1, nul)
      ensures PrevFree(m', s[i]) == if i == 0 then b else At(s, i - 1, nul)
    {
      assert NextFree(m, s[i]) == At(s, i + 1, nul);
      assert Sep(s[i], b) && Sep(s[i], cur);
    }
  }

  /** `block->next_free = cur; block->prev_free = null; cur->prev_free = block` */
  ghost predicate LinkedFirst(m: seq<nat>, m': seq<nat>, b: nat, cur: nat, nul: nat) {
    && nul + 3 < |m| && b + 3 < |m| && cur + 3 < |m| && Sep(b, cur) && b != cur && b != nul
    && m' == m[b + 2 := cur][b + 3 := nul][cur + 3 := b]
  }

  lemma InsertOthers(m: seq<nat>, m': seq<nat>, h: Heap, nul: nat, xs: set<nat>, b: nat, c: nat, d: nat)
    requires Inv(h, xs, {}) && Placed(|m|, h.len, nul) && b in h.free && b in xs && c < CLASSES && d < CLASSES && d != c
    requires LinkedFirst(m, m', b, At(h.lists[c], 0, nul), nul) && Chained(m, h.lists[d], nul)
    ensures Chained(m', h.lists[d], nul)
  {
    ListNodes(|m|, h, nul, xs, {}, c);
    ListNodes(|m|, h, nul, xs, {}, d);
    var cur := At(h.lists[c], 0, nul);
    assert cur != nul ==> cur in h.lists[c];
    forall i | 0 <= i < |h.lists[d]|
      ensures NextFree(m', h.lists[d][i]) == NextFree(m, h.lists[d][i])
      ensures PrevFree(m', h.lists[d][i]) == PrevFree(m, h.lists[d][i])
    {
      var x := h.lists[d][i];
      assert x in h.lists[d];
      NodesApart(|m|, h, nul, x, cur);
      NodesApart(|m|, h, nul, x, b);
      hide Inv;
    }
    ChainFrame(m, m', h.lists[d], nul);
  }

  lemma InsertFirst(m: seq<nat>, m': seq<nat>, h: Heap, nul: nat, xs: set<nat>, b: nat, c: nat)
    requires Inv(h, xs, {}) && Placed(|m|, h.len, nul) && b in h.free && b in xs && c < CLASSES
    requires LinkedFirst(m, m', b, At(h.lists[c], 0, nul), nul) && Chained(m, h.lists[c], nul)
    ensures Chained(m', [b] + h.lists[c], nul)
  {
    ListNodes(|m|, h, nul, xs, {}, c);
    var s := h.lists[c];
    AllSepFrom(|m|, h, nul, s, b);
    AllSepFrom(|m|, h, nul, s, At(s, 0, nul));
    assert b !in s;
    hide Inv;
    ChainInsert(m, m', s, b, nul);
  }

  /** The list words and heads after the block in hand `b` has been put first in its list. */
  lemma InsertLists(m: seq<nat>, m': seq<nat>, heads: seq<nat>, h: Heap, nul: nat, xs: set<nat>, b: nat, c: nat)
    requires Inv(h, xs, {}) && Placed(|m|, h.len, nul) && b in h.free && b in xs && b in h.len && ClassOf(h.len[b]) == c
    requires ListsRep(m, heads, h.lists, nul) && LinkedFirst(m, m', b, heads[c], nul)
    ensures |heads| == CLASSES && ListsRep(m', heads[c := b], Insert(h, b).lists, nul)
  {
    hide ClassOf;
    InsertFirst(m, m', h, nul, xs, b, c);
    forall d | 0 <= d < CLASSES && d != c ensures Chained(m', h.lists[d], nul) {
      InsertOthers(m, m', h, nul, xs, b, c, d);
    }
    hide Inv;
    hide Chained;
    hide LinkedFirst;
  }

  // ----- Writing size words and links to previous blocks

  /** No block is linked from another block's size word. */
  lemma SizeWordIsNoLink(t: Tiles, b: nat, k: nat)
    requires Tiled(t) && b in t && k in t && t[k] > 0
    ensures End(t, k) != b + 1
  {}

  lemma TagWriteTags(m: seq<nat>, h: Heap, u: Heap, b: nat)
    requires Tags(m, h) && b in h.len && u.len == h.len
    requires u.free - {b} == h.free - {b} && u.prevFree - {b} == h.prevFree - {b}
    ensures b + 1 < |m| && Tags(m[b + 1 := TagOf(u, b)], u)
  {
    hide Tag;
    var m' := m[b + 1 := TagOf(u, b)];
    forall k | k in u.len ensures m'[k + 1] == TagOf(u, k) {
      assert k != b ==> (k in u.free - {b} <==> k in h.free - {b}) && (k in u.prevFree - {b} <==> k in h.prevFree - {b});
    }
  }

  lemma TagWriteLinks(m: seq<nat>, h: Heap, u: Heap, ys: set<nat>, b: nat)
    requires Tiled(h.len) && FlagsOfBlocks(h.len, h.free, h.prevFree) && Links(m, h, ys) && b in h.len && u.len == h.len
    requires u.free - {b} == h.free - {b} && (b in u.free ==> h.len[b] > 0) && b + 1 < |m|
    requires b in u.free ==> b in h.free || b in ys || (End(h.len, b) < |m| && m[End(h.len, b)] == b)
    ensures Links(m[b + 1 := TagOf(u, b)], u, ys)
  {
    hide Tag;
    var m' := m[b + 1 := TagOf(u, b)];
    forall k | k in u.free && k !in ys && k in u.len ensures End(u.len, k) < |m| && m'[End(u.len, k)] == k {
      assert k != b ==> k in u.free - {b};
      SizeWordIsNoLink(h.len, b, k);
    }
    hide Tiled;
  }

  /** A new size word for `b` that records new flags of `b` alone. */
  lemma TagWrite(m: seq<nat>, h: Heap, u: Heap, ys: set<nat>, b: nat)
    requires Tiled(h.len) && FlagsOfBlocks(h.len, h.free, h.prevFree) && Tags(m, h) && Links(m, h, ys)
    requires b in h.len && u.len == h.len
    requires u.free - {b} == h.free - {b} && u.prevFree - {b} == h.prevFree - {b} && (b in u.free ==> h.len[b] > 0)
    requires b in u.free ==> b in h.free || b in ys || (End(h.len, b) < |m| && m[End(h.len, b)] == b)
    ensures b + 1 < |m| && Tags(m[b + 1 := TagOf(u, b)], u) && Links(m[b + 1 := TagOf(u, b)], u, ys)
  {
    hide *;
    TagWriteTags(m, h, u, b);
    TagWriteLinks(m, h, u, ys, b);
  }

  lemma LinkPrevTags(m: seq<nat>, h: Heap, b: nat)
    requires Tiled(h.len) && Tags(m, h) && b in h.len && h.len[b] > 0 && End(h.len, b) < |m|
    ensures Tags(m[End(h.len, b) := b], h)
  {
    hide Tag;
    var e := End(h.len, b);
    forall k | k in h.len ensures k + 1 != e {
      SizeWordIsNoLink(h.len, k, b);
    }
    hide Tiled;
  }

  lemma LinkPrevLinks(m: seq<nat>, h: Heap, ys: set<nat>, b: nat)
    requires Tiled(h.len) && FlagsOfBlocks(h.len, h.free, h.prevFree) && Links(m, h, ys)
    requires b in h.len && h.len[b] > 0 && End(h.len, b) < |m|
    ensures Links(m[End(h.len, b) := b], h, ys - {b})
  {
    var e := End(h.len, b);
    forall k | k in h.free && k != b ensures k in h.len && End(h.len, k) != e {
      EndsApart(h.len, k, b);
    }
    hide Tiled;
  }

  /** `block_link_next` */
  lemma LinkPrevWrite(m: seq<nat>, h: Heap, ys: set<nat>, b: nat)
    requires Tiled(h.len) && FlagsOfBlocks(h.len, h.free, h.prevFree) && Tags(m, h) && Links(m, h, ys)
    requires b in h.len && h.len[b] > 0 && End(h.len, b) < |m|
    ensures Tags(m[End(h.len, b) := b], h) && Links(m[End(h.len, b) := b], h, ys - {b})
  {
    hide *;
    LinkPrevTags(m, h, b);
    LinkPrevLinks(m, h, ys, b);
  }

  /** The two new size words of a cut block; the second still carries whatever flags its word held. */
  ghost function CutStale(h: Heap, b: nat, s: nat, free: bool, prevFree: bool): Heap
    requires b in h.len && s < h.len[b]
  {
    var r := b + 1 + s;
    h.(len := Cut(h.len, b, s),
       free := h.free + if free then {r} else {},
       prevFree := h.prevFree + if prevFree then {r} else {})
  }

  /** The words of `m'` differ from those of `m` at most at `v` and `w`. */
  ghost predicate SameBut(m: seq<nat>, m': seq<nat>, v: nat, w: nat) {
    |m'| == |m| && forall i {:trigger m'[i]} :: 0 <= i < |m| && i != v && i != w ==> m'[i] == m[i]
  }

  lemma CutTags(m: seq<nat>, m': seq<nat>, h: Heap, b: nat, s: nat, u: Heap, f: bool, pf: bool)
    requires Tags(m, h) && b in h.len && s < h.len[b] && b + s + 2 < |m| && u == CutStale(h, b, s, f, pf)
    requires SameBut(m, m', b + 1, b + s + 2)
    requires m'[b + 1] == Tag(s, b in h.free, b in h.prevFree) && m'[b + s + 2] == Tag(h.len[b] - s - 1, f, pf)
    requires b + 1 + s !in h.free && b + 1 + s !in h.prevFree && b + 1 + s !in h.len
    ensures Tags(m', u)
  {
    hide Tag;
    hide Cut;
    forall k | k in u.len ensures k + 1 < |m'| && m'[k + 1] == TagOf(u, k) {
      assert k != b + 1 + s ==> k in h.len;
    }
  }

  lemma CutLinks(m: seq<nat>, m': seq<nat>, h: Heap, b: nat, s: nat, u: Heap, f: bool, pf: bool)
    requires Tiled(h.len) && FlagsOfBlocks(h.len, h.free, h.prevFree) && Links(m, h, {b})
    requires b in h.len && MIN_LEN <= s && s + HEADER_LEN <= h.len[b] && u == CutStale(h, b, s, f, pf)
    requires SameBut(m, m', b + 1, b + s + 2)
    ensures Links(m', u, {b, b + 1 + s})
  {
    hide Cut;
    InsideIsNoBlock(h.len, b, b + 1 + s);
    InsideIsNoBlock(h.len, b, b + s + 2);
    CutEnds(h.len, u.len, b, s);
    forall k | k in h.free && k != b ensures k in h.len && End(h.len, k) != b + 1 && End(h.len, k) != b + s + 2 {
      SizeWordIsNoLink(h.len, b, k);
      assert End(h.len, k) in h.len;
    }
    hide Tiled;
  }

  lemma CutFresh(h: Heap, b: nat, s: nat)
    requires Tiled(h.len) && FlagsOfBlocks(h.len, h.free, h.prevFree) && b in h.len && MIN_LEN <= s && s + HEADER_LEN <= h.len[b]
    ensures s < h.len[b] && b + 1 + s !in h.free && b + 1 + s !in h.prevFree && b + 1 + s !in h.len
  {
    InsideIsNoBlock(h.len, b, b + 1 + s);
  }

  /** The two size words of a cut, the second over whatever the payload word held. */
  lemma CutWords(m: seq<nat>, m': seq<nat>, h: Heap, b: nat, s: nat)
    requires Tags(m, h) && b in h.len && s < h.len[b] && b + s + 2 < |m|
    requires m' == m[b + s + 2 := WithSize(m[b + s + 2], 8 * (h.len[b] - s - 1))][b + 1 := WithSize(m[b + 1], 8 * s)]
    ensures SameBut(m, m', b + 1, b + s + 2) && m'[b + 1] == Tag(s, b in h.free, b in h.prevFree)
    ensures var w := m[b + s + 2]; m'[b + s + 2] == Tag(h.len[b] - s - 1, Bit(w, FREE_BIT), Bit(w, PREV_FREE_BIT))
  {
    StaleTag(m[b + s + 2], h.len[b] - s - 1);
    assert m[b + 1] == TagOf(h, b);
    TagFields(h.len[b], b in h.free, b in h.prevFree);
    assert WithSize(m[b + 1], 8 * s) == Tag(s, b in h.free, b in h.prevFree);
    hide Tags;
    hide Tag;
    hide WithSize;
    hide Bit;
  }

  /** Cutting a block in two, as written by `block_set_size` on both parts. */
  lemma CutWrite(m: seq<nat>, m': seq<nat>, h: Heap, b: nat, s: nat, u: Heap)
    requires Tiled(h.len) && FlagsOfBlocks(h.len, h.free, h.prevFree) && Tags(m, h) && Links(m, h, {b})
    requires b in h.len && MIN_LEN <= s && s + HEADER_LEN <= h.len[b] && b + s + 2 < |m|
    requires var r := b + 1 + s;
             && u == CutStale(h, b, s, Bit(m[r + 1], FREE_BIT), Bit(m[r + 1], PREV_FREE_BIT))
             && m' == m[r + 1 := WithSize(m[r + 1], 8 * (h.len[b] - s - 1))][b + 1 := WithSize(m[b + 1], 8 * s)]
    ensures Tags(m', u) && Links(m', u, {b, b + 1 + s})
  {
    hide *;
    CutFresh(h, b, s);
    CutWords(m, m', h, b, s);
    var f, pf := Bit(m[b + s + 2], FREE_BIT), Bit(m[b + s + 2], PREV_FREE_BIT);
    CutTags(m, m', h, b, s, u, f, pf);
    CutLinks(m, m', h, b, s, u, f, pf);
  }

  lemma JoinTags(m: seq<nat>, m': seq<nat>, h: Heap, p: nat, n: nat, u: Heap)
    requires Joins(h.len, u.len, p, n) && Tags(m, h) && u == Absorb(h, p, n)
    requires p + 1 < |m| && m' == m[p + 1 := m[p + 1] + 8 * h.len[n] + 8]
    ensures Tags(m', u)
  {
    hide Join;
    hide Tiled;
    forall k | k in u.len ensures k + 1 < |m'| && m'[k + 1] == TagOf(u, k) {
      assert k in h.len && k + 1 < |m| && m[k + 1] == TagOf(h, k);
    }
  }

  lemma JoinLinks(m: seq<nat>, m': seq<nat>, h: Heap, p: nat, n: nat, u: Heap)
    requires Joins(h.len, u.len, p, n) && FlagsOfBlocks(h.len, h.free, h.prevFree) && Links(m, h, {}) && u == Absorb(h, p, n)
    requires p + 1 < |m| && m' == m[p + 1 := m[p + 1] + 8 * h.len[n] + 8]
    ensures Links(m', u, {p})
  {
    hide Join;
    JoinEnds(h.len, u.len, p, n);
    forall k | k in u.free && k != p ensures k in h.len && End(h.len, k) != p + 1 && k in u.len && End(u.len, k) == End(h.len, k) {
      SizeWordIsNoLink(h.len, p, k);
    }
    hide Tiled;
  }

  /** Merging `n` into `p`, as written by `block_absorb` before it links the block after. */
  lemma JoinWrite(m: seq<nat>, m': seq<nat>, h: Heap, p: nat, n: nat, u: Heap)
    requires Joins(h.len, u.len, p, n) && FlagsOfBlocks(h.len, h.free, h.prevFree) && Tags(m, h) && Links(m, h, {})
    requires u == Absorb(h, p, n)
    requires p + 1 < |m| && m' == m[p + 1 := m[p + 1] + 8 * h.len[n] + 8]
    ensures Tags(m', u) && Links(m', u, {p})
  {
    hide *;
    JoinTags(m, m', h, p, n, u);
    JoinLinks(m, m', h, p, n, u);
  }
}
