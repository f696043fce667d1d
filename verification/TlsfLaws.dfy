/**
 A free straight after an allocation undoes it: the two halves of the heap's operations are inverse
 to each other, down to the order of the free lists.
 */
module TlsfLaws {
  import opened TlsfMapping
  import opened TlsfHeap
  import opened TlsfRequest
  import opened TlsfOps
  import opened TlsfPools

  // ----- Free undoes an allocation

  /** Taking the head of a list and putting it back changes nothing. */
  lemma TakeInsert(h: Heap, b: nat, c: nat)
    requires Valid(h) && c < CLASSES && h.lists[c] != [] && b == h.lists[c][0]
    ensures b in h.free && b in h.len && Insert(Unlist(h, b), b) == h
  {
    hide ClassOf;
    assert b in h.lists[c];
    assert h.lists[c] == [b] + h.lists[c][1..];
    hide Inv;
    assert Insert(Unlist(h, b), b).lists == h.lists;
  }

  /** Handing out a block and taking it back changes nothing. */
  lemma ClaimRelease(h: Heap, b: nat)
    requires InHand(h, b)
    ensures MarkFree(MarkUsed(h, b), b) == h
  {
    InHandFacts(h, b);
    hide Inv;
    hide ClassOf;
  }

  lemma UnlistInsert(h: Heap, b: nat)
    requires |h.lists| == CLASSES && b in h.len
    ensures Unlist(Insert(h, b), b) == h
  {
    hide ClassOf;
    var c := ClassOf(h.len[b]);
    assert ([b] + h.lists[c])[1..] == h.lists[c];
    assert Unlist(Insert(h, b), b).lists == h.lists;
  }

  /** Joining what a cut separated restores the tiles. */
  lemma CutJoin(t: Tiles, b: nat, s: nat)
    requires b in t && s < t[b] && b + 1 + s !in t
    ensures Join(Cut(t, b, s), b, b + 1 + s) == t
  {
    hide Join;
    hide Cut;
  }

  /** Cutting twice and joining the first two pieces is one cut further on. */
  lemma CutCutJoin(t: Tiles, b: nat, g: nat, s: nat)
    requires b in t && g + 1 + s < t[b] && b + 1 + g !in t && b + g + s + 2 !in t
    ensures var r := b + 1 + g;
            var u := Cut(t, b, g);
            Join(Cut(u, r, s), b, r) == Cut(t, b, g + 1 + s)
  {
    hide Join;
    hide Cut;
    var r := b + 1 + g;
    var v := Cut(Cut(t, b, g), r, s);
    assert r + 1 + s == b + g + s + 2;
    assert Join(v, b, r).Keys == Cut(t, b, g + 1 + s).Keys;
  }

  /** A fresh piece `r` of block `b` is no block and carries no flag. */
  lemma PieceIsFresh(h: Heap, b: nat, r: nat)
    requires InHand(h, b) && b in h.len && b < r < End(h.len, b)
    ensures r !in h.len && r !in h.free && r !in h.prevFree && End(h.len, b) in h.prevFree
  {
    InsideIsNoBlock(h.len, b, r);
    hide ClassOf;
    hide Listed;
  }

  lemma SplitAbsorb(h: Heap, b: nat, s: nat)
    requires InHand(h, b) && b in h.len && s < h.len[b]
    ensures Absorb(Split(h, b, s), b, b + 1 + s) == h
  {
    hide Inv;
    hide Join;
    hide Cut;
    PieceIsFresh(h, b, b + 1 + s);
    CutJoin(h.len, b, s);
  }

  lemma FreshPieces(free: set<nat>, pf: set<nat>, e: nat, r: nat, r2: nat)
    requires r !in free && r !in pf && r != r2 && r != e
    ensures free + {r} + {r2} - {r} == free + {r2}
    ensures (pf + {e} + {r}) + {e} + {r2} - {r} == pf + {e} + {r2}
  {}

  lemma SplitSplitAbsorb(h: Heap, b: nat, g: nat, s: nat)
    requires InHand(h, b) && b in h.len && g + 1 + s < h.len[b]
    ensures var r := b + 1 + g;
            Absorb(Split(Split(h, b, g), r, s), b, r) == Split(h, b, g + 1 + s)
  {
    hide Inv;
    hide Join;
    hide Cut;
    var r := b + 1 + g;
    PieceIsFresh(h, b, r);
    PieceIsFresh(h, b, r + 1 + s);
    CutCutJoin(h.len, b, g, s);
    var u := Split(h, b, g);
    assert End(u.len, r) == End(h.len, b);
    FreshPieces(h.free, h.prevFree, End(h.len, b), r, r + 1 + s);
  }

  /** Merging the listed tail of a block back into it undoes the split. */
  lemma TailMerges(h: Heap, b: nat, s: nat)
    requires InHand(h, b) && b in h.len && s < h.len[b] && |h.lists| == CLASSES
    ensures MergeNext(ListTail(h, b, s), b) == h
  {
    hide Inv;
    hide ClassOf;
    hide Join;
    hide Cut;
    hide Absorb;
    var r := b + 1 + s;
    var u := Split(h, b, s);
    SplitAbsorb(h, b, s);
    UnlistInsert(u, r);
    hide Unlist;
    assert r in u.free && End(u.len, b) == r;
  }

  lemma MergePrevIs(h: Heap, p: nat, b: nat)
    requires InHand(h, b) && b in h.prevFree && p in h.len && h.len[p] > 0 && End(h.len, p) == b
    ensures MergePrev(h, b) == Outcome(Absorb(Unlist(h, p), p, b), p)
  {
    assert Tiled(h.len);
    hide Inv;
    hide PrevOf;
    hide Absorb;
    hide Unlist;
    PrevOfIs(h.len, p);
  }

  /** Merging the listed head of a block back into the rest undoes the split. */
  lemma HeadMerges(h: Heap, b: nat, g: nat, u: Heap)
    requires InHand(h, b) && b in h.len && 0 < g < h.len[b] && |h.lists| == CLASSES
    requires u == ListHead(h, b, g) && InHand(u, b + 1 + g) && b + 1 + g in u.prevFree
    ensures MergePrev(u, b + 1 + g) == Outcome(h, b)
  {
    hide Inv;
    hide ClassOf;
    hide Join;
    hide Cut;
    hide MergePrev;
    hide Absorb;
    var v := Split(h, b, g);
    SplitAbsorb(h, b, g);
    UnlistInsert(v, b);
    hide Unlist;
    MergePrevIs(u, b, b + 1 + g);
  }

  /** Removing the earlier of two fresh list heads leaves the later one. */
  lemma RemoveUnder(lists: seq<seq<nat>>, c: nat, b: nat, d: nat, r: nat)
    requires c < |lists| && d < |lists| && b != r
    ensures var one := lists[c := [b] + lists[c]];
            var two := one[d := [r] + one[d]];
            two[c := Remove(two[c], b)] == lists[d := [r] + lists[d]]
  {
    var one := lists[c := [b] + lists[c]];
    var two := one[d := [r] + one[d]];
    assert ([b] + lists[c])[1..] == lists[c];
    if c == d {
      assert two[c] == [r] + ([b] + lists[c]);
      assert two[c][1..] == [b] + lists[c];
      assert Remove(two[c], b) == [r] + lists[c];
    }
    assert two[c := Remove(two[c], b)] == lists[d := [r] + lists[d]];
  }

  /** Unlisting the head under a later tail. */
  lemma UnlistUnder(h: Heap, b: nat, g: nat, s: nat)
    requires b in h.len && 0 < g && g + 1 + s < h.len[b] && |h.lists| == CLASSES
    ensures var r := b + 1 + g;
            var w := Split(Split(h, b, g), r, s);
            Unlist(ListTail(ListHead(h, b, g), r, s), b) == Insert(w, r + 1 + s)
  {
    hide ClassOf;
    hide Cut;
    var r := b + 1 + g;
    var w := Split(Split(h, b, g), r, s);
    RemoveUnder(h.lists, ClassOf(g), b, ClassOf(w.len[r + 1 + s]), r + 1 + s);
  }

  /** Listing one block and joining two others are independent. */
  lemma AbsorbInsert(h: Heap, k: nat, p: nat, n: nat)
    requires k in h.len && k != p && k != n
    ensures Absorb(Insert(h, k), p, n) == Insert(Absorb(h, p, n), k)
  {
    hide ClassOf;
    hide Join;
  }

  lemma SplitTwiceShape(h: Heap, b: nat, g: nat, s: nat)
    requires b in h.len && 0 < g && g + 1 + s < h.len[b]
    ensures var r := b + 1 + g;
            var w := Split(Split(h, b, g), r, s);
            var v := ListTail(ListHead(h, b, g), r, s);
            && r + 1 + s in w.len && w.len == v.len
            && b in w.len && w.len[b] == g && End(w.len, b) == r
  {
    hide ClassOf;
    hide Cut;
  }

  /** With both a listed head and a listed tail, merging the head first leaves the block cut once. */
  lemma HeadMergesUnderTail(h: Heap, b: nat, g: nat, s: nat, v: Heap)
    requires InHand(h, b) && b in h.len && 0 < g && g + 1 + s < h.len[b] && |h.lists| == CLASSES
    requires v == ListTail(ListHead(h, b, g), b + 1 + g, s) && InHand(v, b + 1 + g) && b + 1 + g in v.prevFree
    ensures MergePrev(v, b + 1 + g) == Outcome(ListTail(h, b, g + 1 + s), b)
  {
    hide Inv;
    hide ClassOf;
    hide Absorb;
    hide Unlist;
    hide Split;
    hide MergePrev;
    hide Insert;
    hide ListHead;
    var r := b + 1 + g;
    SplitTwiceShape(h, b, g, s);
    SplitSplitAbsorb(h, b, g, s);
    UnlistUnder(h, b, g, s);
    AbsorbInsert(Split(Split(h, b, g), r, s), r + 1 + s, b, r);
    MergePrevIs(v, b, r);
  }

  /** Both merges find nothing to do around a block whose neighbours are used. */
  lemma NothingToMerge(t: Heap, b: nat)
    requires b in t.len && b !in t.prevFree && End(t.len, b) !in t.free
    ensures MergePrev(t, b) == Outcome(t, b) && MergeNext(t, b) == t
  {}

  lemma TailKeepsFlag(h: Heap, b: nat, s: nat)
    requires b in h.len && s < h.len[b] && b + 1 + s != b
    ensures b in ListTail(h, b, s).prevFree <==> b in h.prevFree
  {
    hide ClassOf;
    hide Cut;
  }

  /** Carving the block in hand is undone by merging it with its neighbours. */
  lemma UnwindCarve(t: Heap, b: nat, g: nat, s: nat)
    requires InHand(t, b) && b in t.len && MIN_LEN <= s && (g == 0 || (HEADER_LEN <= g && g + MIN_LEN <= t.len[b]))
    requires End(t.len, b) !in t.free && b !in t.prevFree
    ensures var p := MergePrev(Carve(t, b, g, s), b + g); p.block == b && MergeNext(p.heap, b) == t
  {
    hide Inv;
    hide MergeNext;
    hide MergePrev;
    hide ListTail;
    hide ListHead;
    InHandFacts(t, b);
    NothingToMerge(t, b);
    if g == 0 {
      if CanSplit(t, b, s) {
        TailKeepsFlag(t, b, s);
        TailMerges(t, b, s);
        NoHeadToMerge(ListTail(t, b, s), b);
      }
    } else {
      UnwindAligned(t, b, g, s);
    }
  }

  lemma NoHeadToMerge(t: Heap, b: nat)
    requires b !in t.prevFree
    ensures MergePrev(t, b) == Outcome(t, b)
  {}

  lemma UnwindAligned(t: Heap, b: nat, g: nat, s: nat)
    requires InHand(t, b) && b in t.len && MIN_LEN <= s && HEADER_LEN <= g && g + MIN_LEN <= t.len[b]
    requires End(t.len, b) !in t.free && b !in t.prevFree
    ensures var p := MergePrev(Carve(t, b, g, s), b + g); p.block == b && MergeNext(p.heap, b) == t
  {
    hide Inv;
    hide MergePrev;
    hide MergeNext;
    hide ListTail;
    hide ListHead;
    InHandFacts(t, b);
    ListHeadKeeps(t, b, g - 1);
    var u := ListHead(t, b, g - 1);
    if CanSplit(u, b + g, s) {
      ListTailKeeps(u, b + g, s);
      TailKeepsFlag(u, b + g, s);
      HeadMergesUnderTail(t, b, g - 1, s, ListTail(u, b + g, s));
      TailMerges(t, b, g + s);
    } else {
      HeadMerges(t, b, g - 1, u);
      NothingToMerge(t, b);
    }
  }

  /**
   Freeing straight after cutting an allocation out of the head of its list restores the heap: the
   tiles, both flags and every list in order.
   */
  lemma AllocateFree(h: Heap, b: nat, g: nat, s: nat, c: nat)
    requires Valid(h) && c < CLASSES && h.lists[c] != [] && b == h.lists[c][0]
    requires b in h.len && MIN_LEN <= s && (g == 0 || (HEADER_LEN <= g && g + MIN_LEN <= h.len[b]))
    ensures FreeBlock(AllocateAt(h, b, g, s), b + g) == h
  {
    hide Inv;
    hide MergePrev;
    hide MergeNext;
    hide Carve;
    hide MarkFree;
    hide MarkUsed;
    hide Insert;
    hide Unlist;
    TakeInsert(h, b, c);
    TakeKeeps(h, b);
    var t := Unlist(h, b);
    CarveKeeps(t, b, g, s);
    ClaimRelease(Carve(t, b, g, s), b + g);
    UnwindCarve(t, b, g, s);
  }

  lemma LocateIsHead(h: Heap, size: nat) returns (c: nat)
    requires Valid(h) && Locate(h, size) != 0
    ensures c < CLASSES && h.lists[c] != [] && Locate(h, size) == h.lists[c][0]
  {
    c := FirstNonEmpty(h.lists, SearchClass(size));
  }

  /** `free(malloc(size))` restores the heap exactly. */
  lemma MallocFree(h: Heap, size: nat)
    requires Valid(h) && size < WORD_LIMIT && Malloc(h, size).block != 0
    ensures FreeBlock(Malloc(h, size).heap, Malloc(h, size).block) == h
  {
    hide Inv;
    hide FreeBlock;
    hide AllocateAt;
    hide ClassOf;
    AdjustRange(size);
    hide AdjustRequest;
    var adjust := AdjustRequest(size, ALIGN_SIZE);
    LocateFits(h, adjust);
    var c := LocateIsHead(h, adjust);
    hide Locate;
    AllocateFree(h, Locate(h, adjust), 0, adjust / 8, c);
  }

  /** `free(memalign(align, size))` restores the heap exactly, gap and all, for every power of two in a word. */
  lemma MemalignFree(h: Heap, align: nat, size: nat)
    requires Valid(h) && Addressable(h) && size < WORD_LIMIT
    requires PowerOfTwo(align) && align < WORD_LIMIT && Memalign(h, align, size).block != 0
    ensures FreeBlock(Memalign(h, align, size).heap, Memalign(h, align, size).block) == h
  {
    hide Inv;
    hide FreeBlock;
    hide AllocateAt;
    hide AlignedRequest;
    hide Skipped;
    hide ClassOf;
    var w := AlignedRequest(size, align);
    AlignedRequestRange(size, align);
    AdjustRange(size);
    hide AdjustRequest;
    var b := Locate(h, w);
    if b != 0 {
      SkippedFits(h, align, size);
      LocatedNonZero(h, w);
      var c := LocateIsHead(h, w);
      hide Locate;
      AllocateFree(h, b, Skipped(h, b, align), AdjustRequest(size, ALIGN_SIZE) / 8, c);
    }
  }
}
