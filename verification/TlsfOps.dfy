/**
 The operations of the heap on its abstract state, and what each keeps and promises on a valid heap.
 The functions follow the steps of the allocator; the word-level allocator is proved to compute
 exactly these functions.
 */
module TlsfOps {
  import opened TlsfMapping
  import opened TlsfHeap
  import opened TlsfRequest

  /** A heap and a block of it: the result of a step, with block 0 for null. */
  datatype Outcome = Outcome(heap: Heap, block: nat)

  // ----- The steps

  /** The block that ends where `b` starts, 0 if there is none. */
  ghost function PrevOf(t: Tiles, b: nat): nat {
    if Follows(t, b) then
      var p {:trigger End(t, p)} :| p in t && t[p] > 0 && End(t, p) == b;
      p
    else 0
  }

  /** `block_merge_prev`: merge `b` into a free block before it. */
  ghost function MergePrev(h: Heap, b: nat): Outcome {
    if b in h.prevFree then
      var p := PrevOf(h.len, b);
      Outcome(Absorb(Unlist(h, p), p, b), p)
    else
      Outcome(h, b)
  }

  /** `block_merge_next`: merge a free block after `b` into it. */
  ghost function MergeNext(h: Heap, b: nat): Heap {
    if b in h.len && End(h.len, b) in h.free then
      Absorb(Unlist(h, End(h.len, b)), b, End(h.len, b))
    else h
  }

  /** `block_can_split` */
  ghost predicate CanSplit(h: Heap, b: nat, s: nat) {
    b in h.len && h.len[b] >= HEADER_LEN + s
  }

  /** Cut `b` after `s` words and list the rest. */
  ghost function ListTail(h: Heap, b: nat, s: nat): Heap {
    Insert(Split(h, b, s), b + 1 + s)
  }

  /** Cut `b` after `s` words and list the first part. */
  ghost function ListHead(h: Heap, b: nat, s: nat): Heap {
    Insert(Split(h, b, s), b)
  }

  /** `block_trim_free`: give back what the request does not need. */
  ghost function TrimFree(h: Heap, b: nat, s: nat): Heap {
    if CanSplit(h, b, s) then ListTail(h, b, s) else h
  }

  /** `block_trim_used`: give back the end of a live block, coalesced with a free block after it. */
  ghost function TrimUsed(h: Heap, b: nat, s: nat): Heap {
    if CanSplit(h, b, s) then Insert(MergeNext(Split(h, b, s), b + 1 + s), b + 1 + s) else h
  }

  /**
   Trim the block in hand to `s` words that start `g` words in: first give back the gap, if any, as
   a block of its own (`block_trim_free_leading`), then the tail.
   */
  ghost function Carve(h: Heap, b: nat, g: nat, s: nat): Heap {
    TrimFree(if g == 0 then h else ListHead(h, b, g - 1), b + g, s)
  }

  /** Cut `s` words out of the listed free block `b`, `g` words in, and hand them out. */
  ghost function AllocateAt(h: Heap, b: nat, g: nat, s: nat): Heap {
    MarkUsed(Carve(Unlist(h, b), b, g, s), b + g)
  }

  /** Index of the first non-empty list from `c` on, `CLASSES` or more if there is none. */
  ghost function FirstNonEmpty(lists: seq<seq<nat>>, c: nat): (r: nat)
    requires |lists| == CLASSES
    ensures c <= r && (r < CLASSES ==> lists[r] != [])
    ensures forall k :: c <= k < r && k < CLASSES ==> lists[k] == []
    ensures c < CLASSES ==> r <= CLASSES
    decreases CLASSES - c
  {
    if c >= CLASSES || lists[c] != [] then c else FirstNonEmpty(lists, c + 1)
  }

  /** The class searched for a request of `size` bytes. */
  ghost function SearchClass(size: nat): (c: nat)
    requires size < BLOCK_SIZE_MAX
  {
    MappingInRange(if size >= SMALL_BLOCK_SIZE then RoundUp(size) else size);
    Flat(MappingSearch(size))
  }

  /** The block a request of `size` bytes is served from, 0 if none. */
  ghost function Locate(h: Heap, size: nat): nat {
    if |h.lists| != CLASSES || size == 0 || size >= BLOCK_SIZE_MAX then 0 else
    var c := FirstNonEmpty(h.lists, SearchClass(size));
    if c < CLASSES then h.lists[c][0] else 0
  }

  /** `tlsf_malloc` */
  ghost function Malloc(h: Heap, size: nat): Outcome {
    var adjust := AdjustRequest(size, ALIGN_SIZE);
    var b := Locate(h, adjust);
    if b == 0 then Outcome(h, 0) else Outcome(AllocateAt(h, b, 0, adjust / 8), b)
  }

  /** The padded request `tlsf_memalign` searches for. */
  function AlignedRequest(size: nat, align: nat): nat
    requires align > 0
  {
    var adjust := AdjustRequest(size, ALIGN_SIZE);
    if adjust != 0 && align > ALIGN_SIZE then AdjustRequest(adjust + align + BLOCK_HEADER_SIZE, align) else adjust
  }

  /** Words skipped in front of an aligned payload in the block at `b`. */
  ghost function GapWords(b: nat, align: nat): nat
    requires align > 0
  {
    LeadingGap(8 * (b + 2), align) / 8
  }

  /** Words given back in front of the payload: the gap, unless the block is too small to be split behind it. */
  ghost function Skipped(h: Heap, b: nat, align: nat): nat
    requires align > 0
  {
    var g := GapWords(b, align);
    if CanSplit(h, b, g) then g else 0
  }

  /** `tlsf_memalign`: the block address is that of the aligned block. */
  ghost function Memalign(h: Heap, align: nat, size: nat): Outcome
    requires align > 0
  {
    var b := Locate(h, AlignedRequest(size, align));
    if b == 0 then Outcome(h, 0)
    else
      var g := Skipped(h, b, align);
      Outcome(AllocateAt(h, b, g, AdjustRequest(size, ALIGN_SIZE) / 8), b + g)
  }

  /** `tlsf_free` */
  ghost function FreeBlock(h: Heap, b: nat): Heap {
    var m := MergePrev(MarkFree(h, b), b);
    Insert(MergeNext(m.heap, m.block), m.block)
  }

  /** The branch `tlsf_realloc` takes for a live block: is there no room where it stands? */
  ghost predicate MustMove(h: Heap, b: nat, s: nat) {
    b in h.len && s > h.len[b] &&
    var n := End(h.len, b);
    n !in h.free || n !in h.len || s > h.len[b] + h.len[n] + 1
  }

  /** `tlsf_realloc` of a live block, for a non-zero size the allocator does not refuse. */
  ghost function Realloc(h: Heap, b: nat, size: nat): Outcome {
    var s := AdjustRequest(size, ALIGN_SIZE) / 8;
    if MustMove(h, b, s) then
      var m := Malloc(h, size);
      if m.block == 0 then Outcome(h, 0) else Outcome(FreeBlock(m.heap, b), m.block)
    else
      var g := if b in h.len && s > h.len[b] then MarkUsed(MergeNext(h, b), b) else h;
      Outcome(TrimUsed(g, b, s), b)
  }

  // ----- Live and free blocks

  /** A block handed out to a client. */
  ghost predicate Live(h: Heap, b: nat) {
    b in h.len && h.len[b] > 0 && b !in h.free
  }

  /** The live blocks and the payload words each client owns. */
  ghost function Lives(h: Heap): map<nat, nat> {
    map k | k in h.len && Live(h, k) :: if k in h.len && Live(h, k) then h.len[k] else 0
  }

  /** A single block `b` is in hand: free, out of the lists. */
  ghost predicate InHand(h: Heap, b: nat) {
    Inv(h, {b}, {}) && b in h.free
  }

  lemma InHandFacts(h: Heap, b: nat)
    requires InHand(h, b)
    ensures b in h.len && h.len[b] >= MIN_LEN && End(h.len, b) in h.len && |h.lists| == CLASSES && b > 0
    ensures End(h.len, b) in h.prevFree
  {
    hide ClassOf;
  }

  lemma LiveFacts(h: Heap, b: nat)
    requires Valid(h) && Live(h, b)
    ensures b > 0 && h.len[b] >= MIN_LEN && End(h.len, b) in h.len && |h.lists| == CLASSES
  {
    hide ClassOf;
  }

  lemma PrevOfIs(t: Tiles, p: nat)
    requires Tiled(t) && p in t && t[p] > 0
    ensures Follows(t, End(t, p)) && PrevOf(t, End(t, p)) == p
  {
    assert Follows(t, End(t, p));
    var q := PrevOf(t, End(t, p));
    if q != p {
      EndsApart(t, q, p);
    }
  }

  lemma FreeBefore(h: Heap, b: nat, xs: set<nat>)
    requires Inv(h, xs, {}) && b in h.prevFree
    ensures var p := PrevOf(h.len, b); p in h.len && h.len[p] > 0 && End(h.len, p) == b && p in h.free && p < b
  {
    hide ClassOf;
    hide Listed;
    assert Follows(h.len, b);
  }

  /** A free block that is not next to the one in hand has used neighbours. */
  lemma NeighboursUsed(h: Heap, b: nat, xs: set<nat>)
    requires Inv(h, xs, {}) && b in h.free && b !in xs
    ensures b in h.len && h.len[b] >= MIN_LEN && End(h.len, b) in h.len && |h.lists| == CLASSES
    ensures End(h.len, b) in xs || End(h.len, b) !in h.free
    ensures b in h.prevFree ==> PrevOf(h.len, b) in xs
  {
    hide ClassOf;
    if b in h.prevFree {
      FreeBefore(h, b, xs);
    }
  }

  /** What a free block before the one in hand looks like. */
  lemma Predecessor(h: Heap, b: nat)
    requires Inv(h, {b}, {}) && b in h.prevFree
    ensures |h.lists| == CLASSES
    ensures var p := PrevOf(h.len, b);
            p in h.len && h.len[p] > 0 && End(h.len, p) == b && p in h.free && 0 < p < b && p !in h.prevFree
  {
    FreeBefore(h, b, {b});
    var p := PrevOf(h.len, b);
    NeighboursUsed(h, p, {b});
    hide ClassOf;
    hide Listed;
    hide PrevOf;
  }

  // ----- Which steps clients can see

  lemma AbsorbLives(h: Heap, p: nat, n: nat)
    requires p in h.len && n in h.len && p != n && h.len[p] > 0 && n in h.free
    ensures Lives(Absorb(h, p, n)) == if p in h.free then Lives(h) else Lives(h)[p := h.len[p] + 1 + h.len[n]]
  {
    hide Join;
  }

  lemma SplitLives(h: Heap, b: nat, s: nat)
    requires b in h.len && 0 < s < h.len[b] && b + 1 + s !in h.len
    ensures Lives(Split(h, b, s)) == if b in h.free then Lives(h) else Lives(h)[b := s]
  {
    hide Cut;
  }

  // ----- No step touches the pools

  lemma MergePools(h: Heap, b: nat)
    ensures MergePrev(h, b).heap.pools == h.pools && MergeNext(h, b).pools == h.pools
  {
    hide ClassOf;
    hide Join;
    hide PrevOf;
  }

  lemma ListHeadPools(h: Heap, b: nat, s: nat)
    ensures ListHead(h, b, s).pools == h.pools && ListTail(h, b, s).pools == h.pools
  {
    hide ClassOf;
    hide Cut;
  }

  lemma AllocatePools(h: Heap, b: nat, g: nat, s: nat)
    ensures AllocateAt(h, b, g, s).pools == h.pools
  {
    hide ClassOf;
    hide ListHead;
    hide ListTail;
    var u := Unlist(h, b);
    if g != 0 {
      ListHeadPools(u, b, g - 1);
    }
    ListHeadPools(if g == 0 then u else ListHead(u, b, g - 1), b + g, s);
  }

  lemma FreePools(h: Heap, b: nat)
    ensures FreeBlock(h, b).pools == h.pools
  {
    hide ClassOf;
    hide MergePrev;
    hide MergeNext;
    var f := MarkFree(h, b);
    MergePools(f, b);
    var m := MergePrev(f, b);
    MergePools(m.heap, m.block);
  }

  lemma TrimUsedPools(h: Heap, b: nat, s: nat)
    ensures TrimUsed(h, b, s).pools == h.pools
  {
    hide ClassOf;
    hide Cut;
    hide MergeNext;
    MergePools(Split(h, b, s), b + 1 + s);
  }

  // ----- Coalescing

  lemma UnlistLives(h: Heap, b: nat)
    ensures Lives(Unlist(h, b)) == Lives(h) && Unlist(h, b) == h.(lists := Unlist(h, b).lists)
  {
    hide ClassOf;
  }

  /** A free or used block `p` after it has taken over the free block `n`. */
  lemma AbsorbFacts(h: Heap, p: nat, n: nat)
    requires p in h.len && n in h.len && p != n && h.len[p] > 0 && n in h.free
    ensures var u := Absorb(h, p, n);
            && p in u.len && u.len[p] == h.len[p] + 1 + h.len[n] && u.free == h.free - {n} && u.prevFree == h.prevFree - {n}
            && End(u.len, p) == End(h.len, p) + 1 + h.len[n]
            && Lives(u) == if p in h.free then Lives(h) else Lives(h)[p := h.len[p] + 1 + h.len[n]]
  {
    AbsorbLives(h, p, n);
    hide Lives;
    hide Join;
  }

  lemma MergePrevKeeps(h: Heap, b: nat)
    requires InHand(h, b)
    ensures var r := MergePrev(h, b);
            InHand(r.heap, r.block) && r.block !in r.heap.prevFree && Lives(r.heap) == Lives(h)
  {
    hide Inv;
    hide Lives;
    hide Absorb;
    hide Unlist;
    hide PrevOf;
    InHandFacts(h, b);
    if b in h.prevFree {
      Predecessor(h, b);
      var p := PrevOf(h.len, b);
      UnlistKeeps(h, p, {b}, {});
      UnlistLives(h, p);
      assert {b} + {p} == {b, p} && {b, p} - {b} == {p};
      AbsorbKeeps(Unlist(h, p), p, b, {b, p});
      AbsorbFacts(Unlist(h, p), p, b);
    }
  }

  lemma MergeNextKeeps(h: Heap, b: nat)
    requires InHand(h, b)
    ensures var r := MergeNext(h, b);
            && InHand(r, b) && b in r.len && End(r.len, b) !in r.free
            && (b in r.prevFree <==> b in h.prevFree) && Lives(r) == Lives(h)
  {
    hide Inv;
    hide Lives;
    hide Absorb;
    hide Unlist;
    InHandFacts(h, b);
    var n := End(h.len, b);
    if n in h.free {
      NeighboursUsed(h, n, {b});
      UnlistKeeps(h, n, {b}, {});
      UnlistLives(h, n);
      assert {b} + {n} == {b, n} && {b, n} - {n} == {b};
      AbsorbKeeps(Unlist(h, n), b, n, {b, n});
      AbsorbFacts(Unlist(h, n), b, n);
    }
  }

  /** A block in hand with used neighbours may be listed. */
  lemma InsertAlone(h: Heap, b: nat)
    requires InHand(h, b) && b !in h.prevFree && b in h.len && End(h.len, b) !in h.free
    ensures Valid(Insert(h, b)) && Lives(Insert(h, b)) == Lives(h)
  {
    hide ClassOf;
    assert Coalesced(h.len, h.free, {b} - {b});
    InsertKeeps(h, b, {b});
    assert {b} - {b} == {};
    hide Inv;
  }

  lemma ReleaseKeeps(h: Heap, b: nat)
    requires Valid(h) && Live(h, b)
    ensures InHand(MarkFree(h, b), b) && Lives(MarkFree(h, b)) == Lives(h) - {b}
  {
    MarkFreeKeeps(h, b, {});
    hide Inv;
    assert {} + {b} == {b};
  }

  /** Freeing a live block keeps the invariant and takes exactly that block from the live ones. */
  lemma FreeLaw(h: Heap, b: nat)
    requires Valid(h) && Live(h, b)
    ensures Valid(FreeBlock(h, b)) && Lives(FreeBlock(h, b)) == Lives(h) - {b} && FreeBlock(h, b).pools == h.pools
  {
    FreePools(h, b);
    hide Inv;
    hide Lives;
    hide MergePrev;
    hide MergeNext;
    hide MarkFree;
    hide Insert;
    ReleaseKeeps(h, b);
    var m := MergePrev(MarkFree(h, b), b);
    MergePrevKeeps(MarkFree(h, b), b);
    MergeNextKeeps(m.heap, m.block);
    InsertAlone(MergeNext(m.heap, m.block), m.block);
  }

  // ----- Allocation

  /** The two parts of a split block. */
  lemma SplitFacts(h: Heap, b: nat, s: nat)
    requires b in h.len && 0 < s < h.len[b] && b + 1 + s !in h.len && b in h.free
    ensures var r := b + 1 + s;
            var u := Split(h, b, s);
            && b in u.len && u.len[b] == s && r in u.len && u.len[r] == h.len[b] - s - 1
            && End(u.len, r) == End(h.len, b) && u.free == h.free + {r} && r in u.prevFree
            && u.lists == h.lists && u.pools == h.pools && Lives(u) == Lives(h)
  {
    SplitLives(h, b, s);
    hide Cut;
    hide Lives;
  }

  lemma InsertFacts(h: Heap, b: nat)
    ensures Insert(h, b) == h.(lists := Insert(h, b).lists) && Lives(Insert(h, b)) == Lives(h)
  {
    hide ClassOf;
  }

  lemma ListTailKeeps(h: Heap, b: nat, s: nat)
    requires InHand(h, b) && MIN_LEN <= s && CanSplit(h, b, s) && End(h.len, b) !in h.free
    ensures var u := ListTail(h, b, s);
            InHand(u, b) && b in u.len && u.len[b] == s && Lives(u) == Lives(h)
  {
    hide Inv;
    hide Lives;
    hide Split;
    hide Insert;
    var r := b + 1 + s;
    var u := Split(h, b, s);
    InHandInside(h, b, r);
    SplitFacts(h, b, s);
    SplitKeeps(h, b, s, {b});
    TailApart(h, b, s, u);
    assert {b} + {r} == {b, r} && {b, r} - {r} == {b};
    InsertKeeps(u, r, {b, r});
    InsertFacts(u, r);
  }

  lemma InHandInside(h: Heap, b: nat, r: nat)
    requires InHand(h, b) && b in h.len && b < r < End(h.len, b)
    ensures r !in h.len && Inv(h, {b}, {})
  {
    InsideIsNoBlock(h.len, b, r);
  }

  lemma TailApart(h: Heap, b: nat, s: nat, u: Heap)
    requires InHand(h, b) && MIN_LEN <= s && CanSplit(h, b, s) && End(h.len, b) !in h.free && u == Split(h, b, s)
    ensures Coalesced(u.len, u.free, {b, b + 1 + s} - {b + 1 + s})
  {
    hide ClassOf;
    hide Cut;
    hide Listed;
    hide Pooled;
    hide Linked;
    InsideIsNoBlock(h.len, b, b + 1 + s);
    CutEnds(h.len, u.len, b, s);
    hide Tiled;
    hide Flagged;
  }

  /** `u` has the rest of block `b` of `h` behind its first `g` words, after a free and before a used block. */
  ghost predicate HeadCut(h: Heap, u: Heap, b: nat, g: nat) {
    var r := b + 1 + g;
    b in h.len && r in u.len && u.len[r] == h.len[b] - g - 1 && End(u.len, r) !in u.free && r in u.prevFree
  }

  lemma ListHeadKeeps(h: Heap, b: nat, g: nat)
    requires b in h.len && MIN_LEN <= g && b !in h.prevFree && End(h.len, b) !in h.free
    requires CanSplit(h, b, g) && InHand(h, b)
    ensures var u := ListHead(h, b, g); InHand(u, b + 1 + g) && HeadCut(h, u, b, g) && Lives(u) == Lives(h)
  {
    hide Inv;
    hide Lives;
    hide Split;
    hide Insert;
    var r := b + 1 + g;
    var u := Split(h, b, g);
    InHandInside(h, b, r);
    SplitFacts(h, b, g);
    SplitKeeps(h, b, g, {b});
    HeadApart(h, b, g, u);
    assert {b} + {r} == {b, r} && {b, r} - {b} == {r};
    InsertKeeps(u, b, {b, r});
    InsertFacts(u, b);
  }

  lemma HeadApart(h: Heap, b: nat, g: nat, u: Heap)
    requires InHand(h, b) && MIN_LEN <= g && CanSplit(h, b, g) && u == Split(h, b, g)
    requires b !in h.prevFree && End(h.len, b) !in h.free
    ensures Coalesced(u.len, u.free, {b, b + 1 + g} - {b})
    ensures b + 1 + g in u.len && End(u.len, b + 1 + g) == End(h.len, b) != b + 1 + g
  {
    hide ClassOf;
    hide Cut;
    hide Listed;
    hide Pooled;
    hide Linked;
    InsideIsNoBlock(h.len, b, b + 1 + g);
    CutEnds(h.len, u.len, b, g);
    assert b !in u.prevFree;
    hide Tiled;
  }

  lemma TrimFreeKeeps(h: Heap, b: nat, s: nat)
    requires InHand(h, b) && b in h.len && MIN_LEN <= s && End(h.len, b) !in h.free
    ensures var u := TrimFree(h, b, s);
            InHand(u, b) && b in u.len && Lives(u) == Lives(h) && u.len[b] == if CanSplit(h, b, s) then s else h.len[b]
  {
    hide Inv;
    hide Lives;
    hide ListTail;
    if CanSplit(h, b, s) {
      ListTailKeeps(h, b, s);
    }
  }

  lemma CarveKeeps(h: Heap, b: nat, g: nat, s: nat)
    requires InHand(h, b) && b in h.len && MIN_LEN <= s && (g == 0 || (HEADER_LEN <= g && g + MIN_LEN <= h.len[b]))
    requires b !in h.prevFree && End(h.len, b) !in h.free
    ensures var u := Carve(h, b, g, s);
            && InHand(u, b + g) && b + g in u.len && u.len[b + g] < s + HEADER_LEN && Lives(u) == Lives(h)
            && (g + s <= h.len[b] ==> s <= u.len[b + g]) && g + u.len[b + g] <= h.len[b]
  {
    hide Inv;
    hide Lives;
    hide ListHead;
    hide TrimFree;
    if g > 0 {
      ListHeadKeeps(h, b, g - 1);
      TrimFreeKeeps(ListHead(h, b, g - 1), b + g, s);
    } else {
      TrimFreeKeeps(h, b, s);
    }
  }

  /** Take a listed free block in hand. */
  lemma TakeKeeps(h: Heap, b: nat)
    requires Valid(h) && b in h.free
    ensures var u := Unlist(h, b);
            && InHand(u, b) && u == h.(lists := u.lists) && Lives(u) == Lives(h)
            && b in h.len && End(h.len, b) !in h.free && b !in h.prevFree && |h.lists| == CLASSES
  {
    hide ClassOf;
    NeighboursUsed(h, b, {});
    UnlistKeeps(h, b, {}, {});
    hide Inv;
    assert {} + {b} == {b};
  }

  /** Hand the block in hand to a client. */
  lemma ClaimKeeps(h: Heap, b: nat)
    requires InHand(h, b) && b in h.len
    ensures var u := MarkUsed(h, b);
            Valid(u) && Live(u, b) && u.len == h.len && Lives(u) == Lives(h)[b := h.len[b]]
  {
    hide ClassOf;
    assert Flagged(h.len, h.free, h.prevFree, {b});
    InHandFacts(h, b);
    MarkUsedKeeps(h, b, {b});
    hide Inv;
    assert {b} - {b} == {};
  }

  /**
   What handing out a block for `adjust` bytes keeps: null leaves the heap alone; otherwise exactly one
   new live block appears, less than a header bigger than asked for, and no other live block changes.
   */
  ghost predicate HandedOut(h: Heap, r: Outcome, adjust: nat) {
    && Valid(r.heap) && r.heap.pools == h.pools
    && (r.block == 0 ==> r.heap == h)
    && (r.block != 0 ==>
          && Live(r.heap, r.block) && !Live(h, r.block)
          && Lives(r.heap) == Lives(h)[r.block := r.heap.len[r.block]]
          && 8 * r.heap.len[r.block] < adjust + BLOCK_HEADER_SIZE)
  }

  /** What an allocation of at least `adjust` bytes promises: that, and a block big enough. */
  ghost predicate AllocatedFrom(h: Heap, r: Outcome, adjust: nat) {
    HandedOut(h, r, adjust) && (r.block != 0 ==> adjust <= 8 * r.heap.len[r.block])
  }

  lemma AllocateAtKeeps(h: Heap, b: nat, g: nat, s: nat)
    requires Valid(h) && b in h.free && b in h.len && MIN_LEN <= s && (g == 0 || (HEADER_LEN <= g && g + MIN_LEN <= h.len[b]))
    ensures var r := Outcome(AllocateAt(h, b, g, s), b + g);
            && b > 0 && HandedOut(h, r, 8 * s) && (g + s <= h.len[b] ==> AllocatedFrom(h, r, 8 * s))
            && b + g in r.heap.len && g + r.heap.len[b + g] <= h.len[b]
  {
    hide Inv;
    hide Unlist;
    hide Carve;
    hide MarkUsed;
    AllocatePools(h, b, g, s);
    TakeKeeps(h, b);
    var t := Unlist(h, b);
    InHandFacts(t, b);
    CarveKeeps(t, b, g, s);
    var c := Carve(t, b, g, s);
    assert b + g !in Lives(c);
    ClaimKeeps(c, b + g);
  }

  /** The block a request is served from is a listed free block big enough for it. */
  lemma LocateFits(h: Heap, size: nat)
    requires Valid(h) && size % ALIGN_SIZE == 0
    ensures var b := Locate(h, size);
            b != 0 ==> b in h.free && b in h.len && 0 < size <= 8 * h.len[b] && size < BLOCK_SIZE_MAX
  {
    if 0 < size < BLOCK_SIZE_MAX {
      var c := FirstNonEmpty(h.lists, SearchClass(size));
      if c < CLASSES {
        var b := h.lists[c][0];
        assert b in h.lists[c];
        SearchedClassFits(size, 8 * h.len[b]);
      }
    }
  }

  /** `tlsf_malloc` allocates at least the rounded request or leaves the heap alone. */
  lemma MallocLaw(h: Heap, size: nat)
    requires Valid(h) && size < WORD_LIMIT
    ensures AllocatedFrom(h, Malloc(h, size), AdjustRequest(size, ALIGN_SIZE))
  {
    hide Inv;
    hide Locate;
    hide AllocateAt;
    hide AllocatedFrom;
    hide ClassOf;
    AdjustRange(size);
    hide AdjustRequest;
    var adjust := AdjustRequest(size, ALIGN_SIZE);
    LocateFits(h, adjust);
    var b := Locate(h, adjust);
    if b != 0 {
      AllocateAtKeeps(h, b, 0, adjust / 8);
    } else {
      NullAllocation(h, adjust);
    }
  }

  lemma NullAllocation(h: Heap, adjust: nat)
    requires Valid(h)
    ensures AllocatedFrom(h, Outcome(h, 0), adjust)
  {}

  /** Block addresses leave room for the alignment arithmetic in a 64-bit word. */
  ghost predicate Addressable(h: Heap) {
    forall b :: b in h.len ==> 8 * (b + 2) + 4 * BLOCK_SIZE_MAX <= WORD_LIMIT
  }

  lemma AlignedRequestLaw(size: nat, align: nat)
    requires size < WORD_LIMIT && PowerOfTwo(align) && align <= WORD_LIMIT / 4
    ensures var w := AlignedRequest(size, align);
            var adjust := AdjustRequest(size, ALIGN_SIZE);
            && w < BLOCK_SIZE_MAX && w % ALIGN_SIZE == 0
            && (w != 0 ==> adjust != 0)
            && (w != 0 && align > ALIGN_SIZE ==> w >= adjust + align + BLOCK_HEADER_SIZE)
            && (w != 0 && align <= ALIGN_SIZE ==> w == adjust)
  {
    AdjustRange(size);
    var adjust := AdjustRequest(size, ALIGN_SIZE);
    if adjust != 0 && align > ALIGN_SIZE {
      PaddedRequest(adjust, align);
    }
    hide AdjustRequest;
  }

  /** The gap in front of the aligned block, in words, and the room behind it. */
  lemma AlignedGap(b: nat, size: nat, align: nat, len: nat)
    requires size < WORD_LIMIT && PowerOfTwo(align) && align <= WORD_LIMIT / 4
    requires 8 * (b + 2) + 4 * BLOCK_SIZE_MAX <= WORD_LIMIT
    requires 0 < AlignedRequest(size, align) <= 8 * len
    ensures var g := GapWords(b, align);
            var adjust := AdjustRequest(size, ALIGN_SIZE);
            && (g == 0 || (HEADER_LEN <= g && HEADER_LEN + g <= len)) && 8 * g == LeadingGap(8 * (b + 2), align)
            && adjust % 8 == 0 && MIN_LEN <= adjust / 8 && g + adjust / 8 <= len
            && AlignedTo(8 * (b + g + 2), align)
  {
    hide AdjustRequest;
    hide AlignedRequest;
    hide AlignedTo;
    hide LeadingGap;
    AlignedRequestLaw(size, align);
    AdjustRange(size);
    var adjust := AdjustRequest(size, ALIGN_SIZE);
    LeadingGapLaw(8 * (b + 2), align);
    if align > ALIGN_SIZE {
      GapFits(8 * (b + 2), adjust, align, 8 * len);
    }
    var g := LeadingGap(8 * (b + 2), align);
    assert 8 * (b + 2) + g == 8 * (b + GapWords(b, align) + 2);
  }

  /** The request an aligned allocation searches for is refused or at least a minimum block. */
  lemma AlignedRequestRange(size: nat, align: nat)
    requires size < WORD_LIMIT && PowerOfTwo(align) && align < WORD_LIMIT
    ensures var w := AlignedRequest(size, align);
            w < BLOCK_SIZE_MAX && w % ALIGN_SIZE == 0 && (w != 0 ==> AdjustRequest(size, ALIGN_SIZE) != 0 && BLOCK_SIZE_MIN <= w)
  {
    AdjustRange(size);
    if align <= WORD_LIMIT / 4 {
      AlignedRequestLaw(size, align);
    } else {
      LargestAlignment(align);
      if AdjustRequest(size, ALIGN_SIZE) != 0 {
        PaddedRequestWraps(AdjustRequest(size, ALIGN_SIZE));
      }
    }
    hide AdjustRequest;
  }

  /** Whatever the alignment, what is skipped in front of the block found is nothing or a block of its own. */
  lemma SkippedFits(h: Heap, align: nat, size: nat)
    requires Valid(h) && Addressable(h) && size < WORD_LIMIT && PowerOfTwo(align) && align < WORD_LIMIT
    requires Locate(h, AlignedRequest(size, align)) != 0
    ensures var b := Locate(h, AlignedRequest(size, align));
            var g := Skipped(h, b, align);
            var gap := LeadingGap(8 * (b + 2), align);
            && b in h.len && b in h.free && (g == 0 || (HEADER_LEN <= g && HEADER_LEN + g <= h.len[b]))
            && gap % 8 == 0 && (gap == 0 || BLOCK_HEADER_SIZE <= gap)
  {
    hide Inv;
    hide Locate;
    hide LeadingGap;
    hide AlignedRequest;
    hide ClassOf;
    AlignedRequestRange(size, align);
    LocateFits(h, AlignedRequest(size, align));
    var b := Locate(h, AlignedRequest(size, align));
    if align <= WORD_LIMIT / 4 {
      AlignedGap(b, size, align, h.len[b]);
    } else {
      LargestAlignment(align);
      MiddleGap(8 * (b + 2));
    }
    hide AdjustRequest;
  }

  lemma LocatedNonZero(h: Heap, size: nat)
    requires Locate(h, size) != 0
    ensures size != 0
  {}

  /** `tlsf_memalign` hands out a block or leaves the heap alone, for every power of two that fits a word. */
  lemma MemalignKeeps(h: Heap, align: nat, size: nat)
    requires Valid(h) && Addressable(h) && size < WORD_LIMIT && PowerOfTwo(align) && align < WORD_LIMIT
    ensures HandedOut(h, Memalign(h, align, size), AdjustRequest(size, ALIGN_SIZE))
  {
    hide Inv;
    hide Locate;
    hide AllocateAt;
    hide AllocatedFrom;
    hide HandedOut;
    hide AlignedRequest;
    hide Skipped;
    AlignedRequestRange(size, align);
    AdjustRange(size);
    hide AdjustRequest;
    var adjust := AdjustRequest(size, ALIGN_SIZE);
    var b := Locate(h, AlignedRequest(size, align));
    if b != 0 {
      SkippedFits(h, align, size);
      LocatedNonZero(h, AlignedRequest(size, align));
      AllocateAtKeeps(h, b, Skipped(h, b, align), adjust / 8);
    } else {
      NullAllocation(h, adjust);
    }
  }

  /** Up to 2^62 it allocates as `tlsf_malloc` does, at an aligned address. */
  lemma MemalignLaw(h: Heap, align: nat, size: nat)
    requires Valid(h) && Addressable(h) && size < WORD_LIMIT
    requires PowerOfTwo(align) && align <= WORD_LIMIT / 4
    ensures var r := Memalign(h, align, size);
            AllocatedFrom(h, r, AdjustRequest(size, ALIGN_SIZE)) && (r.block != 0 ==> AlignedTo(8 * (r.block + 2), align))
  {
    hide Inv;
    hide Locate;
    hide AllocateAt;
    hide AllocatedFrom;
    hide HandedOut;
    hide AdjustRequest;
    hide AlignedRequest;
    hide AlignedTo;
    hide GapWords;
    AlignedRequestLaw(size, align);
    var adjust := AdjustRequest(size, ALIGN_SIZE);
    LocateFits(h, AlignedRequest(size, align));
    var b := Locate(h, AlignedRequest(size, align));
    if b != 0 {
      AlignedGap(b, size, align, h.len[b]);
      assert Skipped(h, b, align) == GapWords(b, align);
      AllocateAtKeeps(h, b, GapWords(b, align), adjust / 8);
    } else {
      NullAllocation(h, adjust);
    }
  }

  /** Up to the base alignment it is `tlsf_malloc`. */
  lemma PlainAlignment(h: Heap, align: nat, size: nat)
    requires Valid(h) && Addressable(h) && size < WORD_LIMIT && PowerOfTwo(align) && align <= ALIGN_SIZE
    ensures Memalign(h, align, size) == Malloc(h, size)
  {
    hide Inv;
    hide Locate;
    hide AllocateAt;
    hide LeadingGap;
    hide ClassOf;
    AdjustRange(size);
    hide AdjustRequest;
    var adjust := AdjustRequest(size, ALIGN_SIZE);
    SmallOrMultipleOf8(align);
    LocateFits(h, adjust);
    var b := Locate(h, adjust);
    if b != 0 {
      SmallGap(8 * (b + 2), align);
    }
  }

  /** The block of an outcome, if any, has an aligned payload with room for the rounded request. */
  ghost predicate ServesAligned(r: Outcome, align: nat, size: nat) {
    r.block != 0 ==> align > 0 && AlignedTo(8 * (r.block + 2), align) && r.block in r.heap.len
                     && AdjustRequest(size, ALIGN_SIZE) <= 8 * r.heap.len[r.block]
  }

  /** The payload of `b` has room for `adjust` bytes from address 2^63 on, and for a block of its own in front. */
  ghost predicate CoversMiddle(h: Heap, b: nat, adjust: nat) {
    b in h.len
    && var ptr, end := 8 * (b + 2), 8 * (b + 2 + h.len[b]);
       && MIDDLE + adjust <= end
       && (ptr == MIDDLE || (ptr + BLOCK_HEADER_SIZE <= MIDDLE && MIDDLE + BLOCK_HEADER_SIZE <= end))
  }

  /** At alignment 2^63 the gap can only lead to that address, and only if the block reaches over it. */
  lemma MiddleSkipped(h: Heap, b: nat, adjust: nat)
    requires Valid(h) && b in h.len && h.len[b] > 0 && 8 * (b + 2) + 4 * BLOCK_SIZE_MAX <= WORD_LIMIT && adjust % 8 == 0
    ensures var g := Skipped(h, b, MIDDLE);
            CoversMiddle(h, b, adjust) <==> AlignedTo(8 * (b + g + 2), MIDDLE) && g + adjust / 8 <= h.len[b]
  {
    var ptr := 8 * (b + 2);
    MiddleGap(ptr);
    assert h.len[b] < MAX_LEN;
    hide LeadingGap;
    hide Inv;
    hide AlignedTo;
    MiddleMultiple(ptr);
    var g := Skipped(h, b, MIDDLE);
    if g != 0 {
      assert ptr + 8 * g == MIDDLE;
      MiddleMultiple(ptr + 8 * g);
    }
  }

  /**
   `tlsf_memalign` returns null or an aligned payload with room for the rounded request, except for
   alignment 2^63: there the padded request wraps to a minimum block, and what is found serves only if
   it happens to lie across that address.
   */
  lemma MemalignServes(h: Heap, align: nat, size: nat)
    requires Valid(h) && Addressable(h) && size < WORD_LIMIT && PowerOfTwo(align) && align < WORD_LIMIT
    ensures var adjust, b := AdjustRequest(size, ALIGN_SIZE), Locate(h, BLOCK_SIZE_MIN);
            ServesAligned(Memalign(h, align, size), align, size) <==>
            align <= WORD_LIMIT / 4 || adjust == 0 || b == 0 || CoversMiddle(h, b, adjust)
  {
    hide Inv;
    hide Locate;
    hide AllocateAt;
    hide AlignedTo;
    hide Skipped;
    hide Lives;
    hide CoversMiddle;
    AdjustRange(size);
    if align <= WORD_LIMIT / 4 {
      hide AdjustRequest;
      MemalignLaw(h, align, size);
      hide Memalign;
    } else {
      LargestAlignment(align);
      if AdjustRequest(size, ALIGN_SIZE) != 0 {
        PaddedRequestWraps(AdjustRequest(size, ALIGN_SIZE));
        hide AdjustRequest;
        MiddleServes(h, size);
      } else {
        NothingAtZero(h);
      }
    }
  }

  lemma MiddleServes(h: Heap, size: nat)
    requires Valid(h) && Addressable(h) && AlignedRequest(size, MIDDLE) == BLOCK_SIZE_MIN && size < WORD_LIMIT
    requires var adjust := AdjustRequest(size, ALIGN_SIZE); adjust % 8 == 0 && BLOCK_SIZE_MIN <= adjust && PowerOfTwo(MIDDLE)
    ensures var adjust, b := AdjustRequest(size, ALIGN_SIZE), Locate(h, BLOCK_SIZE_MIN);
            ServesAligned(Memalign(h, MIDDLE, size), MIDDLE, size) <==> b == 0 || CoversMiddle(h, b, adjust)
  {
    hide Inv;
    hide Locate;
    hide AllocateAt;
    hide AlignedTo;
    hide Skipped;
    hide Lives;
    hide CoversMiddle;
    hide AdjustRequest;
    hide AlignedRequest;
    hide HandedOut;
    LocateFits(h, BLOCK_SIZE_MIN);
    var adjust, b := AdjustRequest(size, ALIGN_SIZE), Locate(h, BLOCK_SIZE_MIN);
    if b != 0 {
      SkippedFits(h, MIDDLE, size);
      MiddleSkipped(h, b, adjust);
      AllocateAtKeeps(h, b, Skipped(h, b, MIDDLE), adjust / 8);
    }
  }

  lemma NothingAtZero(h: Heap)
    ensures Locate(h, 0) == 0
  {}

  // ----- Resizing

  /** A live block takes over the free block after it; the flags after it are still to be corrected. */
  lemma ExtendKeeps(h: Heap, b: nat)
    requires Valid(h) && Live(h, b) && End(h.len, b) in h.free
    ensures var n := End(h.len, b);
            var u := MergeNext(h, b);
            && n in h.len && Inv(u, {}, {b}) && b in u.len && b !in u.free
            && u.len[b] == h.len[b] + 1 + h.len[n] && Lives(u) == Lives(h)[b := u.len[b]]
  {
    hide Inv;
    hide Lives;
    hide Absorb;
    hide Unlist;
    LiveFacts(h, b);
    var n := End(h.len, b);
    NeighboursUsed(h, n, {});
    UnlistKeeps(h, n, {}, {});
    UnlistLives(h, n);
    assert {} + {n} == {n} && {n} - {n} == {};
    AbsorbKeeps(Unlist(h, n), b, n, {n});
    AbsorbFacts(Unlist(h, n), b, n);
  }

  lemma GrowKeeps(h: Heap, b: nat)
    requires Valid(h) && Live(h, b) && End(h.len, b) in h.free
    ensures var n := End(h.len, b);
            var u := MarkUsed(MergeNext(h, b), b);
            && n in h.len && Valid(u) && Live(u, b) && u.len[b] == h.len[b] + 1 + h.len[n]
            && Lives(u) == Lives(h)[b := u.len[b]] && u.pools == h.pools
  {
    hide Inv;
    hide MergeNext;
    MergePools(h, b);
    ExtendKeeps(h, b);
    MarkUsedKeeps(MergeNext(h, b), b, {});
    assert {} - {b} == {};
  }

  lemma CutUsed(h: Heap, b: nat, s: nat)
    requires Valid(h) && Live(h, b) && MIN_LEN <= s && CanSplit(h, b, s)
    ensures var u := Split(h, b, s);
            InHand(u, b + 1 + s) && b + 1 + s !in u.prevFree && Lives(u) == Lives(h)[b := s]
  {
    hide ClassOf;
    hide Cut;
    InsideIsNoBlock(h.len, b, b + 1 + s);
    SplitKeeps(h, b, s, {});
    SplitLives(h, b, s);
    assert {} + {b + 1 + s} == {b + 1 + s};
  }

  lemma TrimUsedKeeps(h: Heap, b: nat, s: nat)
    requires Valid(h) && Live(h, b) && MIN_LEN <= s
    ensures var u := TrimUsed(h, b, s);
            && Valid(u) && Lives(u) == Lives(h)[b := if CanSplit(h, b, s) then s else h.len[b]]
            && u.pools == h.pools
  {
    TrimUsedPools(h, b, s);
    hide Inv;
    hide MergeNext;
    hide Insert;
    hide Split;
    if CanSplit(h, b, s) {
      CutUsed(h, b, s);
      var r := b + 1 + s;
      MergeNextKeeps(Split(h, b, s), r);
      InsertAlone(MergeNext(Split(h, b, s), r), r);
    }
  }

  /** What resizing the live block `b` to at least `adjust` bytes promises. */
  ghost predicate ResizedFrom(h: Heap, b: nat, r: Outcome, adjust: nat) {
    && Valid(r.heap) && r.heap.pools == h.pools
    && (r.block == 0 ==> r.heap == h)
    && (r.block != 0 ==>
          && Live(r.heap, r.block) && (r.block == b || !Live(h, r.block))
          && adjust <= 8 * r.heap.len[r.block] < adjust + BLOCK_HEADER_SIZE
          && Lives(r.heap) == (Lives(h) - {b})[r.block := r.heap.len[r.block]])
  }

  lemma MovedIsResized(h: Heap, b: nat, m: Outcome, adjust: nat)
    requires Valid(h) && Live(h, b) && AllocatedFrom(h, m, adjust) && m.block != 0
    ensures Live(m.heap, b) && ResizedFrom(h, b, Outcome(FreeBlock(m.heap, b), m.block), adjust)
  {
    hide Inv;
    hide FreeBlock;
    assert b in Lives(m.heap);
    FreeLaw(m.heap, b);
    var f := FreeBlock(m.heap, b);
    assert m.block in Lives(f);
    assert f.len[m.block] == Lives(f)[m.block] == Lives(m.heap)[m.block];
  }

  lemma TrimmedIsResized(h: Heap, g: Heap, b: nat, s: nat)
    requires Valid(h) && Live(h, b) && Valid(g) && Live(g, b) && MIN_LEN <= s <= g.len[b]
    requires Lives(g) == Lives(h)[b := g.len[b]] && g.pools == h.pools
    ensures ResizedFrom(h, b, Outcome(TrimUsed(g, b, s), b), 8 * s)
  {
    hide Inv;
    hide TrimUsed;
    LiveFacts(h, b);
    TrimUsedKeeps(g, b, s);
    var t := TrimUsed(g, b, s);
    assert b in Lives(t);
    assert t.len[b] == Lives(t)[b];
  }

  /**
   A null result leaves everything as it was. Otherwise the returned block is live and big enough
   for the rounded request, the old block is live only if it is the one returned, and every other
   live block is as before.
   */
  lemma ReallocLaw(h: Heap, b: nat, size: nat)
    requires Valid(h) && Live(h, b) && size < WORD_LIMIT && AdjustRequest(size, ALIGN_SIZE) != 0
    ensures ResizedFrom(h, b, Realloc(h, b, size), AdjustRequest(size, ALIGN_SIZE))
  {
    hide Inv;
    hide Malloc;
    hide Lives;
    hide TrimUsed;
    hide FreeBlock;
    hide MergeNext;
    hide MarkUsed;
    AdjustRange(size);
    hide AdjustRequest;
    var adjust := AdjustRequest(size, ALIGN_SIZE);
    var s := adjust / 8;
    if MustMove(h, b, s) {
      MallocLaw(h, size);
      var m := Malloc(h, size);
      if m.block != 0 {
        MovedIsResized(h, b, m, adjust);
      }
    } else if s > h.len[b] {
      GrowKeeps(h, b);
      TrimmedIsResized(h, MarkUsed(MergeNext(h, b), b), b, s);
    } else {
      SelfLives(h, b);
      TrimmedIsResized(h, h, b, s);
    }
  }

  lemma SelfLives(h: Heap, b: nat)
    requires Live(h, b)
    ensures Lives(h) == Lives(h)[b := h.len[b]]
  {}
}
