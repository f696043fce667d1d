/**
 The allocator on memory words. Every method follows the steps of the C function it is named after,
 and its contract ties the new words to a function of the abstract heap, which the ghost field
 `heap` carries. A pointer is a word number and null is 0.
 */
module TlsfAllocator {
  import opened Digits
  import opened TlsfMapping
  import opened TlsfRequest
  import opened TlsfHeap
  import opened TlsfLaws
  import opened TlsfOps
  import opened TlsfPools
  import opened TlsfRep
  import opened TlsfSteps
  import opened TlsfChecks

  /** `block_from_ptr` */
  function BlockOf(p: nat): (b: nat) {
    if p < 2 then 0 else p - 2
  }

  /** `block_to_ptr`, null for null. */
  function PtrOf(b: nat): (p: nat) {
    if b == 0 then 0 else b + 2
  }

  lemma PtrOfBlock(b: nat)
    ensures BlockOf(PtrOf(b)) == b && (PtrOf(b) == 0 <==> b == 0) && (b > 0 ==> PtrOf(b) == b + 2)
  {}

  /** An operation that leaves `h` and returns `p` has the outcome `r`. */
  ghost predicate Yields(h: Heap, p: nat, r: Outcome) {
    h == r.heap && p == PtrOf(r.block)
  }

  /** Freeing the result of an aligned allocation brings back the heap it was made on. */
  lemma FreeAfter(h: Heap, u: Heap, align: nat, size: nat, p: nat)
    requires Valid(h) && Addressable(h) && size < WORD_LIMIT && PowerOfTwo(align) && 0 < align < WORD_LIMIT
    requires Yields(u, p, Memalign(h, align, size)) && HandedOut(h, Memalign(h, align, size), AdjustRequest(size, ALIGN_SIZE))
    ensures if p == 0 then u == h
            else Live(u, BlockOf(p)) && FreeBlock(u, BlockOf(p)) == h && Lives(u) - {BlockOf(p)} == Lives(h) && u.pools == h.pools
  {
    hide Inv;
    hide FreeBlock;
    hide Memalign;
    hide Lives;
    hide AdjustRequest;
    var r := Memalign(h, align, size);
    PtrOfBlock(r.block);
    if r.block != 0 {
      MemalignFree(h, align, size);
      NotLive(h, r.block);
      assert Lives(h)[r.block := r.heap.len[r.block]] - {r.block} == Lives(h);
    }
  }

  lemma NotLive(h: Heap, b: nat)
    requires !Live(h, b)
    ensures b !in Lives(h)
  {}

  lemma AdjustForm(size: nat)
    requires size < WORD_LIMIT
    ensures ALIGN_SIZE == 8
    ensures var a := AdjustRequest(size, ALIGN_SIZE); a % 8 == 0 && a < BLOCK_SIZE_MAX && (a == 0 || BLOCK_SIZE_MIN <= a)
  {
    AdjustRange(size);
  }

  lemma AlignedForm(size: nat, align: nat)
    requires size < WORD_LIMIT && PowerOfTwo(align) && 0 < align < WORD_LIMIT
    ensures var a := AlignedRequest(size, align); a % 8 == 0 && a < BLOCK_SIZE_MAX && (a == 0 || BLOCK_SIZE_MIN <= a)
  {
    AlignedRequestRange(size, align);
    AdjustRange(size);
    hide AdjustRequest;
  }

  lemma NoBytes(m: seq<nat>, p: nat, q: nat)
    ensures SameBytes(m, p, m, q, 0)
  {}

  lemma RestKept(m0: seq<nat>, m1: seq<nat>, h: Heap, nul: nat, b: nat)
    requires Kept(m0, m1, Lives(h), h.pools, nul)
    ensures Kept(m0, m1, Lives(h) - {b}, h.pools, nul)
  {
    hide Kept;
    hide Lives;
    KeptFewer(m0, m1, Lives(h), Lives(h) - {b}, h.pools, nul);
  }

  /** The new block a moved payload is copied to. */
  lemma CopyReady(h: Heap, u: Heap, b: nat, p: nat, r: Outcome, adjust: nat)
    requires AllocatedFrom(h, r, adjust) && Yields(u, p, r) && p != 0 && Live(h, b)
    ensures p == BlockOf(p) + 2 && BlockOf(p) != b && Live(u, b) && Live(u, BlockOf(p)) && !Live(h, BlockOf(p))
    ensures b in u.len && b in h.len && u.len[b] == h.len[b] && BlockOf(p) in u.len && adjust <= 8 * u.len[BlockOf(p)]
    ensures BlockOf(p) !in Lives(h) && Lives(u) == Lives(h)[BlockOf(p) := u.len[BlockOf(p)]] && u.pools == h.pools
  {
    FreshIsOther(h, b, r, adjust);
    hide Valid;
  }

  /** A moved block: nothing happened, or the old block is free. */
  lemma MoveIs(h: Heap, b: nat, size: nat, u: Heap, v: Heap, p: nat)
    requires Valid(h) && Live(h, b) && 0 < size <= BLOCK_SIZE_MAX - 8
    requires MustMove(h, b, AdjustRequest(size, ALIGN_SIZE) / 8) && Yields(u, p, Malloc(h, size))
    requires v == if p == 0 then u else FreeBlock(u, b)
    ensures Yields(v, p, Realloc(h, b, size)) && ResizedFrom(h, b, Realloc(h, b, size), AdjustRequest(size, ALIGN_SIZE))
    ensures Valid(v)
  {
    hide Inv;
    hide Malloc;
    hide FreeBlock;
    hide MergeNext;
    hide MarkUsed;
    hide TrimUsed;
    hide Lives;
    AdjustCovers(size);
    hide AdjustRequest;
    hide MustMove;
    MallocLaw(h, size);
    ReallocLaw(h, b, size);
  }

  lemma InPlaceIs(h: Heap, b: nat, size: nat, g: Heap)
    requires Valid(h) && Live(h, b) && Roundable(size)
    requires !MustMove(h, b, AdjustRequest(size, ALIGN_SIZE) / 8) && b in h.len
    requires g == if AdjustRequest(size, ALIGN_SIZE) > 8 * h.len[b] then MarkUsed(MergeNext(h, b), b) else h
    ensures var r := Realloc(h, b, size);
            Yields(TrimUsed(g, b, AdjustRequest(size, ALIGN_SIZE) / 8), b + 2, r)
            && ResizedFrom(h, b, r, AdjustRequest(size, ALIGN_SIZE))
  {
    hide Inv;
    hide Malloc;
    hide FreeBlock;
    hide MergeNext;
    hide MarkUsed;
    hide TrimUsed;
    hide Lives;
    AdjustRange(size);
    hide AdjustRequest;
    hide MustMove;
    LiveFacts(h, b);
    ReallocLaw(h, b, size);
  }

  lemma SelfGrown(m: seq<nat>, h: Heap, nul: nat, b: nat)
    requires Live(h, b)
    ensures Lives(h) == Lives(h)[b := h.len[b]] && Kept(m, m, Lives(h), h.pools, nul)
  {
    SelfLives(h, b);
  }

  /** The bytes of a pool between its two size words, in 64-bit arithmetic. */
  function PoolBytes(bytes: nat): nat {
    var rest := (bytes + WORD_LIMIT - 16) % WORD_LIMIT;
    rest - rest % ALIGN_SIZE
  }

  predicate PoolAccepted(addr: nat, bytes: nat) {
    addr % ALIGN_SIZE == 0 && BLOCK_SIZE_MIN <= PoolBytes(bytes) <= BLOCK_SIZE_MAX
  }

  /** Memory is accepted when it is aligned and large enough, and all whole words of it but two are used. */
  lemma PoolSize(addr: nat, bytes: nat)
    requires bytes < WORD_LIMIT
    ensures PoolAccepted(addr, bytes) <==> addr % 8 == 0 && 40 <= bytes < 0x1_0000_0018
    ensures 16 <= bytes ==> PoolBytes(bytes) % 8 == 0 && PoolBytes(bytes) + 16 <= bytes < PoolBytes(bytes) + 24
  {
    if bytes < 16 {
      assert (bytes + WORD_LIMIT - 16) % WORD_LIMIT == bytes + WORD_LIMIT - 16;
    } else {
      assert bytes + WORD_LIMIT - 16 == WORD_LIMIT + (bytes - 16);
      assert (bytes + WORD_LIMIT - 16) % WORD_LIMIT == bytes - 16;
    }
  }

  /** The sentinel's size word, at `e + 1`, is the last whole word of the memory handed in. */
  lemma PoolEnd(h: Heap, addr: nat, bytes: nat)
    requires PoolAccepted(addr, bytes) && addr >= 8 && bytes < WORD_LIMIT
    ensures var h1 := AddPool(h, addr / 8 - 1, PoolBytes(bytes) / 8);
            addr / 8 - 1 in h1.pools && 8 * (h1.pools[addr / 8 - 1] + 2) <= addr + bytes < 8 * (h1.pools[addr / 8 - 1] + 2) + 8
  {
    hide PoolBytes;
    PoolSize(addr, bytes);
    hide PoolAccepted;
    hide ClassOf;
    assert AddPool(h, addr / 8 - 1, PoolBytes(bytes) / 8).pools[addr / 8 - 1] == addr / 8 + PoolBytes(bytes) / 8;
  }

  /** The flag updates that turn any word into the size word of a first block or a sentinel. */
  lemma FreshTag(word: nat, len: nat)
    ensures FREE_BIT == 0 && PREV_FREE_BIT == 1
    ensures ClearBit(SetBit(WithSize(word, 8 * len), FREE_BIT), PREV_FREE_BIT) == Tag(len, true, false)
    ensures SetBit(ClearBit(WithSize(word, 8 * len), FREE_BIT), PREV_FREE_BIT) == Tag(len, false, true)
  {
    var f, pf := Bit(word, FREE_BIT), Bit(word, PREV_FREE_BIT);
    StaleTag(word, len);
    TagUpdates(len, f, pf);
    TagUpdates(len, true, pf);
    TagUpdates(len, false, pf);
    hide SetBit;
    hide ClearBit;
    hide WithSize;
    hide Tag;
    hide Bit;
  }

  class Tlsf {
    /** All of memory: the null block, the pools and whatever else there is. */
    const mem: array<nat>
    /** `blocks[FL][SL]`, row by row. */
    const heads: array<nat>
    const slBitmap: array<nat>
    var flBitmap: nat
    /** Address of `block_null`. */
    const nul: nat
    ghost var heap: Heap

    ghost function St(): State
      reads this, mem, heads, slBitmap
    {
      State(mem[..], heads[..], slBitmap[..], flBitmap)
    }

    ghost predicate Apart() {
      && mem != heads && mem != slBitmap && heads != slBitmap
      && 8 * mem.Length + 8 * BLOCK_SIZE_MAX <= WORD_LIMIT
    }

    /** The words represent `heap`, except for the links behind the blocks in `ys`. */
    ghost predicate Good(ys: set<nat>)
      reads this, mem, heads, slBitmap
    {
      Apart() && Rep(St(), heap, nul, ys)
    }

    ghost predicate Ok()
      reads this, mem, heads, slBitmap
    {
      Good({}) && Valid(heap)
    }

    lemma OkIs()
      requires Ok()
      ensures Good({}) && Valid(heap) && Inv(heap, {}, {}) && Placed(|mem[..]|, heap.len, nul)
    {}

    lemma Addresses()
      requires Ok()
      ensures Addressable(heap)
    {
      forall b | b in heap.len ensures b + 1 < mem.Length {
        RepRoom(St(), heap, nul, {}, b);
      }
    }

    lemma Loosen(b: nat)
      requires Good({})
      ensures Good({b})
    {
      RepLoose(St(), heap, nul, {b});
    }

    lemma FreeDone(h0: Heap, b: nat)
      requires Good({}) && Valid(h0) && Live(h0, b)
      requires var m := MergePrev(MarkFree(h0, b), b); heap == Insert(MergeNext(m.heap, m.block), m.block)
      ensures Ok() && heap == FreeBlock(h0, b) && Lives(heap) == Lives(h0) - {b}
    {
      hide Inv;
      hide Good;
      hide MergePrev;
      hide MarkFree;
      hide MergeNext;
      hide Insert;
      hide Lives;
      FreeLaw(h0, b);
    }

    lemma InRange(to: nat, from: nat, i: nat, n: nat)
      requires Ok() && Live(heap, to) && Live(heap, from) && i < n <= 8 * heap.len[to] && n <= 8 * heap.len[from]
      ensures to + 2 + i / 8 <= End(heap.len, to) && to + 2 + i / 8 < mem.Length && from + 2 + i / 8 < mem.Length
    {
      Inside(to, i);
      Inside(from, i);
    }

    lemma StillThere(m0: seq<nat>, m: seq<nat>, from: nat, to: nat, i: nat)
      requires Kept(m0, m, Lives(heap) - {to}, heap.pools, nul) && Live(heap, from) && from != to && i < 8 * heap.len[from]
      requires from + 2 + i / 8 < |m|
      ensures |m0| == |m| && m[from + 2 + i / 8] == m0[from + 2 + i / 8]
    {
      var lives := Lives(heap) - {to};
      assert from in lives && lives[from] == heap.len[from];
      hide Lives;
    }

    lemma LivePtr(p: nat)
      requires Ok() && p != 0 && Live(heap, BlockOf(p))
      ensures p == BlockOf(p) + 2
    {
      LiveFacts(heap, BlockOf(p));
    }

    lemma GoodOk()
      requires Good({}) && Valid(heap)
      ensures Ok()
    {}

    /** A used block needs no link to it. */
    lemma Tighten(b: nat)
      requires Good({b}) && b !in heap.free
      ensures Good({})
    {
      RepTight(St(), heap, nul, b);
    }

    lemma AllocatedOk(h0: Heap, p: nat, b: nat, adjust: nat)
      requires Good({}) && AllocatedFrom(h0, Outcome(heap, b), adjust) && p == if b == 0 then 0 else b + 2
      ensures Ok() && Yields(heap, p, Outcome(heap, b))
    {}

    lemma GoodPlaced()
      requires Good({})
      ensures Placed(|mem[..]|, heap.len, nul)
    {}

    /** `remove_free_block` */
    method RemoveFreeBlock(b: nat, fl: nat, sl: nat, ghost xs: set<nat>, ghost ys: set<nat>)
      requires Good({}) && Inv(heap, xs, ys) && b in heap.free && b !in xs
      requires b in heap.len && 8 * heap.len[b] < WORD_LIMIT && MappingInsert(8 * heap.len[b]) == Index(fl, sl)
      modifies this, mem, heads, slBitmap
      ensures Good({}) && heap == Unlist(old(heap), b)
      ensures Kept(old(mem[..]), mem[..], Lives(old(heap)), old(heap).pools, nul)
    {
      hide *;
      ghost var s0, h0 := St(), heap;
      StIs();
      GoodApart();
      RepSizes(s0, heap, nul, {});
      ghost var k := ListedAt(heap, xs, ys, b, fl, sl);
      ListedWords(s0, heap, nul, xs, ys, fl * 32 + sl, k);
      var prev := mem[b + 3];
      var next := mem[b + 2];
      mem[next + 3] := prev;
      mem[prev + 2] := next;
      assert mem[..] == s0.mem[next + 3 := prev][prev + 2 := next];
      var c := fl * 32 + sl;
      if heads[c] == b {
        heads[c] := next;
        if next == nul {
          slBitmap[fl] := ClearBit(slBitmap[fl], sl);
          if slBitmap[fl] == 0 {
            flBitmap := ClearBit(flBitmap, fl);
          }
        }
      }
      heap := Unlist(heap, b);
      StIs();
      RemovedFrom(s0, St(), b, prev, next, nul, fl, sl);
      UnlistRep(s0, St(), h0, nul, xs, ys, b, fl, sl, k);
      GoodIfRep({});
    }

    /** `insert_free_block` */
    method InsertFreeBlock(b: nat, fl: nat, sl: nat, ghost xs: set<nat>)
      requires Good({}) && Inv(heap, xs, {}) && b in heap.free && b in xs
      requires b in heap.len && ClassOf(heap.len[b]) == fl * 32 + sl && fl < FL_INDEX_COUNT && sl < SL_INDEX_COUNT
      modifies this, mem, heads, slBitmap
      ensures Good({}) && heap == Insert(old(heap), b)
      ensures Kept(old(mem[..]), mem[..], Lives(old(heap)), old(heap).pools, nul)
    {
      hide ClassOf;
      hide Inv;
      hide Rep;
      hide At;
      hide SetBit;
      hide Kept;
      hide Lives;
      hide Node;
      hide Insert;
      ghost var s0, h0 := St(), heap;
      RepSizes(s0, heap, nul, {});
      HeadWords(s0, heap, nul, xs, b, fl * 32 + sl);
      var current := heads[fl * 32 + sl];
      mem[b + 2] := current;
      mem[b + 3] := nul;
      mem[current + 3] := b;
      assert mem[..] == s0.mem[b + 2 := current][b + 3 := nul][current + 3 := b];
      heads[fl * 32 + sl] := b;
      flBitmap := SetBit(flBitmap, fl);
      slBitmap[fl] := SetBit(slBitmap[fl], sl);
      heap := Insert(heap, b);
      assert Inserted(s0, St(), b, current, nul, fl, sl);
      InsertRep(s0, St(), h0, nul, xs, b, fl, sl);
    }

    /** `block_size` */
    method BlockSize(b: nat, ghost ys: set<nat>) returns (size: nat)
      requires Good(ys) && b in heap.len
      ensures size == 8 * heap.len[b]
    {
      RepSizes(St(), heap, nul, ys);
      TagFields(heap.len[b], b in heap.free, b in heap.prevFree);
      size := SizeOf(mem[b + 1]);
    }

    /** `block_is_free` */
    method BlockIsFree(b: nat, ghost ys: set<nat>) returns (r: bool)
      requires Good(ys) && b in heap.len
      ensures r == (b in heap.free)
    {
      RepSizes(St(), heap, nul, ys);
      TagFields(heap.len[b], b in heap.free, b in heap.prevFree);
      r := Bit(mem[b + 1], FREE_BIT);
    }

    /** `block_is_prev_free` */
    method BlockIsPrevFree(b: nat, ghost ys: set<nat>) returns (r: bool)
      requires Good(ys) && b in heap.len
      ensures r == (b in heap.prevFree)
    {
      RepSizes(St(), heap, nul, ys);
      TagFields(heap.len[b], b in heap.free, b in heap.prevFree);
      r := Bit(mem[b + 1], PREV_FREE_BIT);
    }

    /** `block_next` */
    method BlockNext(b: nat, ghost ys: set<nat>) returns (next: nat)
      requires Good(ys) && b in heap.len && heap.len[b] > 0
      ensures next == End(heap.len, b)
    {
      var size := BlockSize(b, ys);
      next := b + 2 + (size - 8) / 8;
    }

    /** `block_set_free`, for a block whose link to its successor is in place or excused. */
    method SetFree(b: nat, ghost ys: set<nat>)
      requires Good(ys) && Core(heap) && b in heap.len && heap.len[b] > 0 && End(heap.len, b) < mem.Length
      requires b in heap.free || b in ys || mem[End(heap.len, b)] == b
      modifies this, mem
      ensures Good(ys) && heap == old(heap).(free := old(heap).free + {b})
      ensures Changed(old(mem[..]), mem[..], {b + 1})
    {
      hide Rep;
      ghost var s0, h0 := St(), heap;
      RepSizes(s0, heap, nul, ys);
      TagUpdates(heap.len[b], b in heap.free, b in heap.prevFree);
      mem[b + 1] := SetBit(mem[b + 1], FREE_BIT);
      heap := heap.(free := heap.free + {b});
      FlagRep(s0, St(), h0, heap, nul, ys, b);
    }

    /** `block_set_used` */
    method SetUsed(b: nat, ghost ys: set<nat>)
      requires Good(ys) && Core(heap) && b in heap.len
      modifies this, mem
      ensures Good(ys) && heap == old(heap).(free := old(heap).free - {b})
      ensures Changed(old(mem[..]), mem[..], {b + 1})
    {
      hide Rep;
      ghost var s0, h0 := St(), heap;
      RepSizes(s0, heap, nul, ys);
      TagUpdates(heap.len[b], b in heap.free, b in heap.prevFree);
      mem[b + 1] := ClearBit(mem[b + 1], FREE_BIT);
      heap := heap.(free := heap.free - {b});
      FlagRep(s0, St(), h0, heap, nul, ys, b);
    }

    /** `block_set_prev_free` */
    method SetPrevFree(b: nat, ghost ys: set<nat>)
      requires Good(ys) && Core(heap) && b in heap.len
      modifies this, mem
      ensures Good(ys) && heap == old(heap).(prevFree := old(heap).prevFree + {b})
      ensures Changed(old(mem[..]), mem[..], {b + 1})
    {
      hide Rep;
      ghost var s0, h0 := St(), heap;
      RepSizes(s0, heap, nul, ys);
      TagUpdates(heap.len[b], b in heap.free, b in heap.prevFree);
      mem[b + 1] := SetBit(mem[b + 1], PREV_FREE_BIT);
      heap := heap.(prevFree := heap.prevFree + {b});
      FlagRep(s0, St(), h0, heap, nul, ys, b);
    }

    /** `block_set_prev_used` */
    method SetPrevUsed(b: nat, ghost ys: set<nat>)
      requires Good(ys) && Core(heap) && b in heap.len
      modifies this, mem
      ensures Good(ys) && heap == old(heap).(prevFree := old(heap).prevFree - {b})
      ensures Changed(old(mem[..]), mem[..], {b + 1})
    {
      hide Rep;
      ghost var s0, h0 := St(), heap;
      RepSizes(s0, heap, nul, ys);
      TagUpdates(heap.len[b], b in heap.free, b in heap.prevFree);
      mem[b + 1] := ClearBit(mem[b + 1], PREV_FREE_BIT);
      heap := heap.(prevFree := heap.prevFree - {b});
      FlagRep(s0, St(), h0, heap, nul, ys, b);
    }

    /** `block_link_next` */
    method LinkNext(b: nat, ghost ys: set<nat>) returns (next: nat)
      requires Good(ys) && Core(heap) && b in heap.len && heap.len[b] > 0 && Unlisted(heap, b)
      modifies this, mem
      ensures Good(ys - {b}) && heap == old(heap) && next == End(heap.len, b) && next in heap.len
      ensures next + 1 < mem.Length && mem[next] == b && Changed(old(mem[..]), mem[..], {next})
    {
      ghost var s0 := St();
      next := BlockNext(b, ys);
      assert next in heap.len && End(heap.len, next) < mem.Length;
      hide Rep;
      mem[next] := b;
      LinkNextRep(s0, St(), heap, nul, ys, b);
    }

    /** `block_mark_as_free` */
    method MarkAsFree(b: nat, ghost ys: set<nat>)
      requires b in heap.len && heap.len[b] > 0 && Unlisted(heap, b) && Core(heap) && Good(ys)
      modifies this, mem
      ensures Good(ys - {b}) && heap == MarkFree(old(heap), b) && Core(heap)
      ensures var e := End(old(heap).len, b); Changed(old(mem[..]), mem[..], {e, e + 1, b + 1})
    {
      hide Rep;
      ghost var h0 := heap;
      var next := LinkNext(b, ys);
      assert Core(heap);
      SetPrevFree(next, ys - {b});
      assert Core(heap);
      SetFree(b, ys - {b});
    }

    /** `block_mark_as_used` */
    method MarkAsUsed(b: nat, ghost ys: set<nat>)
      requires b in heap.len && heap.len[b] > 0 && Core(heap) && Good(ys)
      modifies this, mem
      ensures Good(ys) && heap == MarkUsed(old(heap), b) && (Unlisted(heap, b) ==> Core(heap))
      ensures Changed(old(mem[..]), mem[..], {End(old(heap).len, b) + 1, b + 1})
    {
      hide Rep;
      var next := BlockNext(b, ys);
      assert next in heap.len;
      SetPrevUsed(next, ys);
      assert Core(heap);
      SetUsed(b, ys);
    }

    /** What `block_split` starts from. */
    lemma SplitRoom(b: nat, s: nat)
      requires Good({}) && Core(heap) && Unlisted(heap, b) && CanSplit(heap, b, s) && BLOCK_SIZE_MIN <= 8 * s
      ensures s >= 3 && b in heap.len && heap.len[b] >= 4 + s && b + s + 2 < mem.Length && Apart()
      ensures mem != heads && mem != slBitmap && Rep(State(mem[..], heads[..], slBitmap[..], flBitmap), heap, nul, {})
    {
      RepRoom(St(), heap, nul, {}, b);
    }

    lemma StIs()
      ensures St() == State(mem[..], heads[..], slBitmap[..], flBitmap)
    {}

    lemma GoodIfRep(ys: set<nat>)
      requires Apart()
      ensures Rep(St(), heap, nul, ys) ==> Good(ys)
    {}

    /** Both size words of a cut block in place. */
    lemma GoodCut(m0: seq<nat>, h0: Heap, b: nat, s: nat)
      requires CutWritten(m0, mem[..], h0, heap, b, s) && Core(h0) && Unlisted(h0, b)
      requires Apart() && Rep(State(m0, heads[..], slBitmap[..], flBitmap), h0, nul, {})
      ensures Good({b, b + 1 + s}) && Core(heap)
    {
      hide *;
      var s0 := State(m0, heads[..], slBitmap[..], flBitmap);
      RepLoose(s0, h0, nul, {b});
      StIs();
      GoodIfRep({b, b + 1 + s});
      CutRep(s0, St(), h0, heap, nul, b, s);
    }

    /** `block_split`: `size` bytes stay with `b`. */
    method BlockSplit(b: nat, size: nat) returns (remaining: nat, ghost stale: bool)
      requires Good({}) && Core(heap) && Unlisted(heap, b)
      requires size % 8 == 0 && BLOCK_SIZE_MIN <= size && CanSplit(heap, b, size / 8)
      modifies this, mem
      ensures Good({b}) && heap == SplitStale(old(heap), b, size / 8, stale) && remaining == b + 1 + size / 8
      ensures Core(heap) && Unlisted(heap, remaining) && remaining !in old(heap).len && Unlisted(heap, b)
      ensures Changed(old(mem[..]), mem[..], SplitWords(old(heap).len, b, size / 8))
    {
      hide *;
      ghost var m0, h0, s := mem[..], heap, size / 8;
      SplitRoom(b, s);
      var blockSize := BlockSize(b, {});
      remaining := b + 2 + (size - 8) / 8;
      var remainSize := blockSize - (size + 8);
      ghost var free := Bit(mem[remaining + 1], FREE_BIT);
      stale := Bit(mem[remaining + 1], PREV_FREE_BIT);
      mem[remaining + 1] := WithSize(mem[remaining + 1], remainSize);
      mem[b + 1] := WithSize(mem[b + 1], size);
      heap := CutStale(heap, b, s, free, stale);
      CutWrittenFrom(m0, mem[..], h0, heap, b, s);
      CutPiece(m0, mem[..], h0, heap, b, s);
      GoodCut(m0, h0, b, s);
      ghost var m1 := mem[..];
      MarkStale(h0, b, s, free, stale);
      assert {b, remaining} - {remaining} == {b};
      MarkAsFree(remaining, {b, remaining});
      StaleShape(h0, b, s, stale);
      SameLists(h0, heap, b);
      SameLists(h0, heap, remaining);
      SplitWordsChanged(m0, m1, mem[..], h0, b, s, free, stale);
    }

    /** `block_remove` */
    method BlockRemove(b: nat, ghost xs: set<nat>, ghost ys: set<nat>)
      requires Good({}) && Inv(heap, xs, ys) && b in heap.free && b !in xs && b in heap.len
      modifies this, mem, heads, slBitmap
      ensures Good({}) && heap == Unlist(old(heap), b)
      ensures Kept(old(mem[..]), mem[..], Lives(old(heap)), old(heap).pools, nul)
    {
      hide Rep;
      hide MappingInsert;
      ClassIndex(heap, xs, ys, b);
      var size := BlockSize(b, {});
      var i := MappingInsert(size);
      RemoveFreeBlock(b, i.fl, i.sl, xs, ys);
    }

    /** `block_insert` */
    method BlockInsert(b: nat, ghost xs: set<nat>)
      requires Good({}) && Inv(heap, xs, {}) && b in heap.free && b in xs && b in heap.len
      modifies this, mem, heads, slBitmap
      ensures Good({}) && heap == Insert(old(heap), b)
      ensures Kept(old(mem[..]), mem[..], Lives(old(heap)), old(heap).pools, nul)
    {
      hide Rep;
      hide MappingInsert;
      ClassIndex(heap, xs, {}, b);
      var size := BlockSize(b, {});
      var i := MappingInsert(size);
      InsertFreeBlock(b, i.fl, i.sl, xs);
    }

    /** `block_absorb` */
    method BlockAbsorb(p: nat, n: nat)
      requires Good({}) && Core(heap) && p in heap.len && heap.len[p] > 0 && n == End(heap.len, p) && n in heap.len
      requires heap.len[n] > 0 && heap.len[p] + 1 + heap.len[n] < MAX_LEN && Unlisted(heap, p) && Unlisted(heap, n)
      modifies this, mem
      ensures Good({}) && heap == Absorb(old(heap), p, n) && Core(heap)
      ensures Changed(old(mem[..]), mem[..], {p + 1, End(old(heap).len, n)})
    {
      hide Rep;
      ghost var s0, h0 := St(), heap;
      RepRoom(s0, heap, nul, {}, p);
      var size := BlockSize(n, {});
      mem[p + 1] := mem[p + 1] + size + 8;
      heap := Absorb(heap, p, n);
      JoinRep(s0, St(), h0, nul, p, n);
      assert {p} - {p} == {};
      var _ := LinkNext(p, {p});
      assert End(Join(h0.len, p, n), p) == End(h0.len, n);
    }

    /** `block_merge_prev` */
    method MergePrevious(b: nat) returns (r: nat)
      requires Good({}) && InHand(heap, b)
      modifies this, mem, heads, slBitmap
      ensures Good({}) && Outcome(heap, r) == MergePrev(old(heap), b)
      ensures Kept(old(mem[..]), mem[..], Lives(old(heap)), old(heap).pools, nul)
    {
      hide Inv;
      hide Lives;
      hide Kept;
      hide PrevOf;
      hide Absorb;
      hide Core;
      hide Unlisted;
      InHandFacts(heap, b);
      ghost var m0, h0 := mem[..], heap;
      var prevFree := BlockIsPrevFree(b, {});
      r := b;
      if prevFree {
        PrevLink(St(), heap, nul, b, {b});
        Predecessor(heap, b);
        var prev := mem[b];
        UnlistKeeps(heap, prev, {b}, {});
        BlockRemove(prev, {b}, {});
        ghost var m1, h1 := mem[..], heap;
        UnlistLives(h0, prev);
        AbsorbReady(heap, prev, b, {b} + {prev});
        BlockAbsorb(prev, b);
        UnlistAbsorbKept(m0, m1, mem[..], h0, h1, nul, {b} + {prev}, prev, b);
        r := prev;
      } else {
        KeptSame(m0, Lives(h0), h0.pools, nul);
      }
    }

    /** `block_merge_next`, for the block in hand or for a live block that is about to grow. */
    method MergeFollowing(b: nat, ghost xs: set<nat>)
      requires Good({}) && Inv(heap, xs, {}) && b in heap.len && heap.len[b] > 0
      requires (xs == {b} && b in heap.free) || (xs == {} && b !in heap.free)
      modifies this, mem, heads, slBitmap
      ensures Good({}) && heap == MergeNext(old(heap), b)
      ensures Kept(old(mem[..]), mem[..], Lives(old(heap)), old(heap).pools, nul)
    {
      hide Inv;
      hide Lives;
      hide Kept;
      hide Absorb;
      hide Core;
      hide Unlisted;
      EndIn(heap, xs, {}, b);
      ghost var m0, h0 := mem[..], heap;
      var next := BlockNext(b, {});
      var nextFree := BlockIsFree(next, {});
      if nextFree {
        NeighboursUsed(heap, next, xs);
        UnlistKeeps(heap, next, xs, {});
        BlockRemove(next, xs, {});
        ghost var m1, h1 := mem[..], heap;
        UnlistLives(h0, next);
        AbsorbReady(heap, b, next, xs + {next});
        BlockAbsorb(b, next);
        UnlistAbsorbKept(m0, m1, mem[..], h0, h1, nul, xs + {next}, b, next);
      } else {
        KeptSame(m0, Lives(h0), h0.pools, nul);
      }
    }

    /** `search_suitable_block` */
    method SearchSuitableBlock(fl: nat, sl: nat) returns (b: nat, f: nat, s: nat)
      requires Good({}) && Valid(heap) && fl < FL_INDEX_COUNT && sl < SL_INDEX_COUNT
      ensures var c := FirstNonEmpty(heap.lists, fl * 32 + sl);
              if c == CLASSES then b == 0
              else c < CLASSES && b == heap.lists[c][0] && f < FL_INDEX_COUNT && s < SL_INDEX_COUNT && c == f * 32 + s
    {
      hide Ffs;
      hide Inv;
      hide BitsFrom;
      RepSizes(St(), heap, nul, {});
      SearchBitmaps(flBitmap, slBitmap[..], heap.lists, fl, sl);
      f, s := fl, sl;
      var slMap := BitsFrom(slBitmap[fl], sl);
      if slMap == 0 {
        var flMap := BitsFrom(flBitmap, fl + 1);
        if flMap == 0 {
          b := 0;
          return;
        }
        f := Ffs(flMap);
        slMap := slBitmap[f];
      }
      s := Ffs(slMap);
      b := heads[f * 32 + s];
    }

    /** `block_locate_free`: the returned block is in hand. */
    method BlockLocateFree(size: nat) returns (b: nat)
      requires Ok() && size < BLOCK_SIZE_MAX && size % 8 == 0
      modifies this, mem, heads, slBitmap
      ensures Good({}) && b == Locate(old(heap), size)
      ensures heap == if b == 0 then old(heap) else Unlist(old(heap), b)
      ensures Kept(old(mem[..]), mem[..], Lives(old(heap)), old(heap).pools, nul)
    {
      hide Kept;
      hide Lives;
      hide Rep;
      hide ClassOf;
      hide MappingInsert;
      b := 0;
      ghost var m0 := mem[..];
      KeptSame(m0, Lives(heap), heap.pools, nul);
      RepSizes(St(), heap, nul, {});
      if size != 0 {
        SearchInRange(size);
        var i := MappingSearch(size);
        if i.fl < FL_INDEX_COUNT {
          var f, s;
          b, f, s := SearchSuitableBlock(i.fl, i.sl);
          if b != 0 {
            LocatedHead(heap, size, f, s);
            RemoveFreeBlock(b, f, s, {}, {});
          }
        }
      }
    }

    /** `block_can_split` */
    method BlockCanSplit(b: nat, size: nat) returns (r: bool)
      requires Good({}) && b in heap.len && size % 8 == 0
      ensures r == CanSplit(heap, b, size / 8)
    {
      hide Good;
      var blockSize := BlockSize(b, {});
      r := blockSize >= BLOCK_HEADER_SIZE + size;
    }

    /** What splitting the free block in hand starts from. */
    lemma SplitReady(b: nat, s: nat)
      requires Good({}) && InHand(heap, b) && BLOCK_SIZE_MIN <= 8 * s
      ensures Core(heap) && Unlisted(heap, b) && b !in Lives(heap) && b in heap.len && b in heap.free
      ensures 0 < MIN_LEN <= s && Placed(|mem[..]|, heap.len, nul)
    {
      TrimReady(heap, b, {b});
      InHandFacts(heap, b);
    }

    /** `block_split`, `block_link_next` and `block_set_prev_free` of `block_trim_free`. */
    method SplitTail(b: nat, size: nat) returns (remaining: nat)
      requires Good({}) && InHand(heap, b) && size % 8 == 0 && BLOCK_SIZE_MIN <= size && CanSplit(heap, b, size / 8)
      modifies this, mem
      ensures Good({}) && heap == Split(old(heap), b, size / 8) && remaining == b + 1 + size / 8
      ensures Inv(heap, {b} + {remaining}, {}) && remaining in heap.free && remaining in heap.len
      ensures Kept(old(mem[..]), mem[..], Lives(old(heap)), old(heap).pools, nul)
      ensures Lives(heap) == Lives(old(heap)) && heap.pools == old(heap).pools
    {
      hide *;
      ghost var m0, h0, s := mem[..], heap, size / 8;
      SplitReady(b, s);
      ghost var stale;
      remaining, stale := BlockSplit(b, size);
      ghost var m1 := mem[..];
      StaleShape(h0, b, s, stale);
      var _ := LinkNext(b, {b});
      ghost var m2 := mem[..];
      assert {b} - {b} == {};
      SetPrevFree(remaining, {});
      StaleCorrected(h0, b, s, stale);
      ChangedMore(m1, m2, remaining, remaining + 1);
      ChangedMore(m2, mem[..], remaining + 1, remaining);
      assert {remaining, remaining + 1} == {remaining + 1, remaining};
      SplitFreeDone(m0, m1, m2, mem[..], h0, nul, b, s);
    }

    /** The same three steps in the order of `block_trim_free_leading`. */
    method SplitHead(b: nat, size: nat) returns (remaining: nat)
      requires Good({}) && InHand(heap, b) && size % 8 == 0 && BLOCK_SIZE_MIN <= size && CanSplit(heap, b, size / 8)
      modifies this, mem
      ensures Good({}) && heap == Split(old(heap), b, size / 8) && remaining == b + 1 + size / 8
      ensures Inv(heap, {b} + {remaining}, {}) && b in heap.free && b in heap.len
      ensures Kept(old(mem[..]), mem[..], Lives(old(heap)), old(heap).pools, nul)
      ensures Lives(heap) == Lives(old(heap)) && heap.pools == old(heap).pools
    {
      hide *;
      ghost var m0, h0, s := mem[..], heap, size / 8;
      SplitReady(b, s);
      ghost var stale;
      remaining, stale := BlockSplit(b, size);
      ghost var m1 := mem[..];
      StaleShape(h0, b, s, stale);
      SetPrevFree(remaining, {b});
      ghost var m2 := mem[..];
      StaleCorrected(h0, b, s, stale);
      SplitShape(h0, b, s);
      var _ := LinkNext(b, {b});
      assert {b} - {b} == {};
      ChangedMore(m1, m2, remaining + 1, remaining);
      ChangedMore(m2, mem[..], remaining, remaining + 1);
      assert {remaining, remaining + 1} == {remaining + 1, remaining};
      SplitFreeDone(m0, m1, m2, mem[..], h0, nul, b, s);
    }

    /** `block_trim_free` */
    method BlockTrimFree(b: nat, size: nat)
      requires Good({}) && InHand(heap, b) && b in heap.len && End(heap.len, b) !in heap.free
      requires size % 8 == 0 && BLOCK_SIZE_MIN <= size
      modifies this, mem, heads, slBitmap
      ensures Good({}) && heap == TrimFree(old(heap), b, size / 8)
      ensures Kept(old(mem[..]), mem[..], Lives(old(heap)), old(heap).pools, nul)
    {
      hide Good;
      hide Inv;
      hide Lives;
      hide Kept;
      hide Split;
      hide Insert;
      hide InHand;
      hide CanSplit;
      ghost var m0, h0 := mem[..], heap;
      KeptSame(m0, Lives(h0), h0.pools, nul);
      var canSplit := BlockCanSplit(b, size);
      if canSplit {
        var remaining := SplitTail(b, size);
        ghost var m1 := mem[..];
        BlockInsert(remaining, {b} + {remaining});
        KeptTrans(m0, m1, mem[..], Lives(h0), h0.pools, nul);
      }
    }

    /** `block_trim_free_leading`: gives back the gap, if the block can be split behind it. */
    method BlockTrimFreeLeading(b: nat, size: nat) returns (remaining: nat)
      requires Good({}) && InHand(heap, b) && b in heap.len && End(heap.len, b) !in heap.free && b !in heap.prevFree
      requires size % 8 == 0 && BLOCK_HEADER_SIZE <= size
      modifies this, mem, heads, slBitmap
      ensures Good({}) && heap == GapListed(old(heap), b, size) && remaining == b + GapTaken(old(heap), b, size)
      ensures Kept(old(mem[..]), mem[..], Lives(old(heap)), old(heap).pools, nul)
    {
      hide Good;
      hide Inv;
      hide Lives;
      hide Kept;
      hide Split;
      hide Insert;
      hide InHand;
      ghost var m0, h0 := mem[..], heap;
      KeptSame(m0, Lives(h0), h0.pools, nul);
      remaining := b;
      var canSplit := BlockCanSplit(b, size);
      if canSplit {
        remaining := SplitHead(b, size - 8);
        ghost var m1 := mem[..];
        BlockInsert(b, {b} + {remaining});
        KeptTrans(m0, m1, mem[..], Lives(h0), h0.pools, nul);
      }
    }

    /** `block_prepare_used` */
    method BlockPrepareUsed(b: nat, size: nat) returns (p: nat)
      requires Good({})
      requires b != 0 ==> InHand(heap, b) && b in heap.len && End(heap.len, b) !in heap.free
      requires b != 0 ==> size % 8 == 0 && BLOCK_SIZE_MIN <= size
      modifies this, mem, heads, slBitmap
      ensures Good({}) && heap == if b == 0 then old(heap) else MarkUsed(TrimFree(old(heap), b, size / 8), b)
      ensures p == if b == 0 then 0 else b + 2
      ensures Kept(old(mem[..]), mem[..], Lives(old(heap)), old(heap).pools, nul)
    {
      hide *;
      ghost var m0, h0 := mem[..], heap;
      KeptSame(m0, Lives(h0), h0.pools, nul);
      p := 0;
      if b != 0 {
        BlockTrimFree(b, size);
        ghost var m1, h1 := mem[..], heap;
        TrimmedReady(h0, h1, b, size / 8);
        GoodPlaced();
        MarkAsUsed(b, {});
        MarkedKept(m0, m1, mem[..], h0, h1, nul, b);
        p := b + 2;
      }
    }

    lemma TrimUsedDone(h0: Heap, b: nat, s: nat)
      requires Good({}) && Valid(h0) && Live(h0, b) && BLOCK_SIZE_MIN <= 8 * s
      requires heap == if CanSplit(h0, b, s) then Insert(MergeNext(Split(h0, b, s), b + 1 + s), b + 1 + s) else h0
      ensures Ok() && heap == TrimUsed(h0, b, s)
    {
      hide Inv;
      hide Good;
      hide Split;
      hide MergeNext;
      hide Insert;
      hide CanSplit;
      TrimUsedKeeps(h0, b, s);
    }

    /** `block_trim_used`: the client of `b` keeps its first `size` bytes. */
    method BlockTrimUsed(b: nat, size: nat)
      requires Ok() && Live(heap, b) && size % 8 == 0 && BLOCK_SIZE_MIN <= size
      modifies this, mem, heads, slBitmap
      ensures Ok() && heap == TrimUsed(old(heap), b, size / 8)
      ensures var lives := Lives(old(heap));
              Kept(old(mem[..]), mem[..], if CanSplit(old(heap), b, size / 8) then lives[b := size / 8] else lives, old(heap).pools, nul)
    {
      hide *;
      ghost var m0, h0, s := mem[..], heap, size / 8;
      OkIs();
      LiveReady(heap, b);
      KeptSame(m0, Lives(h0), h0.pools, nul);
      var canSplit := BlockCanSplit(b, size);
      if canSplit {
        ghost var stale;
        var remaining;
        remaining, stale := BlockSplit(b, size);
        ghost var m1 := mem[..];
        StaleShape(h0, b, s, stale);
        SetPrevUsed(remaining, {b});
        ghost var m2 := mem[..];
        StaleCorrected(h0, b, s, stale);
        SplitUsedDone(m0, m1, m2, h0, nul, b, s);
        Tighten(b);
        InHandIs(heap, remaining);
        MergeFollowing(remaining, {remaining});
        ghost var m3 := mem[..];
        TrimUsedReady(h0, b, s);
        InHandIs(heap, remaining);
        BlockInsert(remaining, {remaining});
        KeptTrans(m0, m2, m3, Lives(h0)[b := s], h0.pools, nul);
        KeptTrans(m0, m3, mem[..], Lives(h0)[b := s], h0.pools, nul);
      }
      TrimUsedDone(h0, b, s);
    }

    /** `tlsf_malloc`: null or the payload of a block that was not live before. */
    method TlsfMalloc(size: nat) returns (p: nat)
      requires Ok() && size < WORD_LIMIT
      modifies this, mem, heads, slBitmap
      ensures Ok() && Yields(heap, p, Malloc(old(heap), size))
      ensures AllocatedFrom(old(heap), Malloc(old(heap), size), AdjustRequest(size, ALIGN_SIZE))
      ensures Kept(old(mem[..]), mem[..], Lives(old(heap)), old(heap).pools, nul)
    {
      hide *;
      ghost var m0, h0 := mem[..], heap;
      OkIs();
      AdjustForm(size);
      var adjust := AdjustRequest(size, ALIGN_SIZE);
      var b := BlockLocateFree(adjust);
      ghost var m1 := mem[..];
      if b != 0 {
        ServedReady(h0, adjust);
      }
      p := BlockPrepareUsed(b, adjust);
      MallocIs(h0, size, heap);
      AllocatedOk(h0, p, b, AdjustRequest(size, ALIGN_SIZE));
      KeptTrans(m0, m1, mem[..], Lives(h0), h0.pools, nul);
    }

    /**
     `tlsf_memalign`: as `tlsf_malloc`, with the payload at a multiple of `align`, except for alignment
     2^63, where the block handed out may be unaligned or too small.
     */
    method TlsfMemalign(align: nat, size: nat) returns (p: nat)
      requires Ok() && size < WORD_LIMIT && PowerOfTwo(align) && 0 < align < WORD_LIMIT
      modifies this, mem, heads, slBitmap
      ensures Ok() && Yields(heap, p, Memalign(old(heap), align, size))
      ensures HandedOut(old(heap), Memalign(old(heap), align, size), AdjustRequest(size, ALIGN_SIZE))
      ensures align <= WORD_LIMIT / 4 ==>
                AllocatedFrom(old(heap), Memalign(old(heap), align, size), AdjustRequest(size, ALIGN_SIZE))
                && (p != 0 ==> AlignedTo(8 * p, align))
      ensures Kept(old(mem[..]), mem[..], Lives(old(heap)), old(heap).pools, nul)
    {
      hide *;
      ghost var m0, h0 := mem[..], heap;
      OkIs();
      Addresses();
      AdjustForm(size);
      AlignedForm(size, align);
      var adjust := AdjustRequest(size, ALIGN_SIZE);
      var alignedSize := AlignedRequest(size, align);
      var b := BlockLocateFree(alignedSize);
      ghost var m1 := mem[..];
      var r, gap := b, 0;
      if b != 0 {
        ServedReady(h0, alignedSize);
        GapReady(h0, size, align);
        gap := LeadingGap(8 * (b + 2), align);
        NoGap(heap, b);
        CarvedReady(heap, b, gap);
        if gap != 0 {
          r := BlockTrimFreeLeading(b, gap);
          KeptTrans(m0, m1, mem[..], Lives(h0), h0.pools, nul);
        }
      }
      ghost var m2 := mem[..];
      p := BlockPrepareUsed(r, adjust);
      MemalignIs(h0, align, size, gap, heap);
      HandedOutOk(h0, p, r, adjust);
      KeptTrans(m0, m2, mem[..], Lives(h0), h0.pools, nul);
    }

    lemma NoGap(h: Heap, b: nat)
      ensures GapTaken(h, b, 0) == 0 && GapListed(h, b, 0) == h
    {}

    lemma HandedOutOk(h0: Heap, p: nat, b: nat, adjust: nat)
      requires Good({}) && HandedOut(h0, Outcome(heap, b), adjust) && p == if b == 0 then 0 else b + 2
      ensures Ok() && Yields(heap, p, Outcome(heap, b))
    {}

    /** `tlsf_free` */
    method TlsfFree(p: nat)
      requires Ok() && (p == 0 || Live(heap, BlockOf(p)))
      modifies this, mem, heads, slBitmap
      ensures Ok() && heap == if p == 0 then old(heap) else FreeBlock(old(heap), BlockOf(p))
      ensures p != 0 ==> Lives(heap) == Lives(old(heap)) - {BlockOf(p)}
      ensures Kept(old(mem[..]), mem[..], Lives(old(heap)) - {BlockOf(p)}, old(heap).pools, nul)
    {
      hide *;
      ghost var m0, h0 := mem[..], heap;
      KeptSame(m0, Lives(h0) - {BlockOf(p)}, h0.pools, nul);
      if p != 0 {
        var b := BlockOf(p);
        OkIs();
        LiveReady(heap, b);
        Loosen(b);
        MarkAsFree(b, {b});
        assert {b} - {b} == {};
        ghost var m1 := mem[..];
        FreeReady(m0, m1, h0, nul, b);
        var r := MergePrevious(b);
        ghost var m2 := mem[..];
        FreeMerged(h0, b);
        InHandIs(heap, r);
        MergeFollowing(r, {r});
        ghost var m3 := mem[..];
        FreeMergedTwice(h0, b);
        InHandIs(heap, r);
        BlockInsert(r, {r});
        ghost var lives := Lives(h0) - {b};
        KeptTrans(m0, m1, m2, lives, h0.pools, nul);
        KeptTrans(m0, m2, m3, lives, h0.pools, nul);
        KeptTrans(m0, m3, mem[..], lives, h0.pools, nul);
        FreeDone(h0, b);
      }
    }

    lemma Restored(s0: State, h0: Heap)
      requires Ok() && heap == h0 && Rep(s0, h0, nul, {})
      ensures heads[..] == s0.heads && slBitmap[..] == s0.sl && flBitmap == s0.fl && SameHeaders(s0.mem, mem[..], h0)
    {
      SameRep(s0, St(), h0, nul);
      hide Rep;
      hide Inv;
    }

    lemma OkRep()
      requires Ok()
      ensures Rep(St(), heap, nul, {}) && St().mem == mem[..] && St().heads == heads[..]
      ensures St().sl == slBitmap[..] && St().fl == flBitmap
    {}

    /**
     An allocation freed straight away, aligned or not: every word of the allocator's own is as it was,
     in the lists, the bitmaps and the block headers, and so is every payload.
     */
    method AllocateAndFree(align: nat, size: nat)
      requires Ok() && size < WORD_LIMIT && PowerOfTwo(align) && 0 < align < WORD_LIMIT
      modifies this, mem, heads, slBitmap
      ensures Ok() && heap == old(heap)
      ensures heads[..] == old(heads[..]) && slBitmap[..] == old(slBitmap[..]) && flBitmap == old(flBitmap)
      ensures SameHeaders(old(mem[..]), mem[..], heap)
      ensures Kept(old(mem[..]), mem[..], Lives(heap), heap.pools, nul)
    {
      hide *;
      ghost var s0, m0, h0 := St(), mem[..], heap;
      OkIs();
      OkRep();
      Addresses();
      var p := TlsfMemalign(align, size);
      ghost var m1, h1 := mem[..], heap;
      FreeAfter(h0, h1, align, size, p);
      if p != 0 {
        TlsfFree(p);
        KeptTrans(m0, m1, mem[..], Lives(h0), h0.pools, nul);
      }
      Restored(s0, h0);
    }

    /** A client writes a word of its own payload. */
    method WritePayload(w: nat, v: nat, ghost b: nat)
      requires Ok() && Live(heap, b) && b + 2 <= w <= End(heap.len, b)
      modifies mem
      ensures Ok() && mem[..] == old(mem[..])[w := v]
      ensures Kept(old(mem[..]), mem[..], Lives(heap) - {b}, heap.pools, nul)
    {
      hide Rep;
      hide Kept;
      hide Inv;
      hide Lives;
      ghost var s0 := St();
      PayloadWrite(s0, heap, nul, b, w, v);
      mem[w] := v;
      assert mem[..] == s0.mem[w := v];
    }

    lemma Inside(b: nat, i: nat)
      requires Ok() && Live(heap, b) && i < 8 * heap.len[b]
      ensures b + 2 <= b + 2 + i / 8 <= End(heap.len, b) && b + 2 + i / 8 < mem.Length
    {
      RepRoom(St(), heap, nul, {}, b);
    }

    /** `rtlMemcpy` from one payload to another, byte by byte. */
    method CopyBytes(dst: nat, src: nat, n: nat, ghost to: nat, ghost from: nat)
      requires Ok() && Live(heap, to) && Live(heap, from) && to != from && dst == to + 2 && src == from + 2
      requires n <= 8 * heap.len[to] && n <= 8 * heap.len[from]
      modifies mem
      ensures Ok() && SameBytes(old(mem[..]), src, mem[..], dst, n)
      ensures Kept(old(mem[..]), mem[..], Lives(heap) - {to}, heap.pools, nul)
    {
      hide *;
      ghost var m0 := mem[..];
      KeptSame(m0, Lives(heap) - {to}, heap.pools, nul);
      NoBytes(m0, src, dst);
      var i := 0;
      while i < n
        invariant i <= n && Ok()
        invariant SameBytes(m0, src, mem[..], dst, i)
        invariant Kept(m0, mem[..], Lives(heap) - {to}, heap.pools, nul)
      {
        ghost var m := mem[..];
        InRange(to, from, i, n);
        StillThere(m0, m, from, to, i);
        var byte := Digit(256, mem[src + i / 8], i % 8);
        WritePayload(dst + i / 8, WithDigit(256, mem[dst + i / 8], i % 8, byte), to);
        ByteCopied(m0, src, m, mem[..], dst, i);
        KeptTrans(m0, m, mem[..], Lives(heap) - {to}, heap.pools, nul);
        i := i + 1;
      }
    }

    /** The branch of `tlsf_realloc` that allocates, copies and frees. */
    method ReallocMove(b: nat, size: nat) returns (p: nat)
      requires Ok() && Live(heap, b) && 0 < size <= BLOCK_SIZE_MAX - 8
      requires MustMove(heap, b, AdjustRequest(size, ALIGN_SIZE) / 8)
      modifies this, mem, heads, slBitmap
      ensures Ok() && Yields(heap, p, Realloc(old(heap), b, size))
      ensures ResizedFrom(old(heap), b, Realloc(old(heap), b, size), AdjustRequest(size, ALIGN_SIZE))
      ensures p == 0 ==> Kept(old(mem[..]), mem[..], Lives(old(heap)), old(heap).pools, nul)
      ensures p != 0 ==> SameBytes(old(mem[..]), b + 2, mem[..], p, Surviving(size, 8 * old(heap).len[b]))
      ensures Kept(old(mem[..]), mem[..], Lives(old(heap)) - {b}, old(heap).pools, nul)
    {
      hide *;
      ghost var m0, h0 := mem[..], heap;
      OkIs();
      RoundableIs(size);
      ReallocReady(heap, b, size);
      var curSize := BlockSize(b, {});
      p := TlsfMalloc(size);
      ghost var m1, h1 := mem[..], heap;
      RestKept(m0, m1, h0, nul, b);
      if p != 0 {
        var minSize := Min(curSize, size);
        PtrOfBlock(b);
        CopyReady(h0, h1, b, p, Malloc(h0, size), AdjustRequest(size, ALIGN_SIZE));
        MinLaw(curSize, size);
        SurvivingLaw(size, curSize);
        CopyBytes(p, b + 2, minSize, BlockOf(p), b);
        ghost var m2 := mem[..];
        TlsfFree(b + 2);
        MovedKept(m0, m1, m2, mem[..], h0, h1, nul, b, BlockOf(p), minSize);
      }
      MoveIs(h0, b, size, h1, heap, p);
    }

    /** The branch of `tlsf_realloc` that grows the block into the free block after it, if need be, and trims it. */
    method ReallocInPlace(b: nat, size: nat) returns (p: nat)
      requires Ok() && Live(heap, b) && Roundable(size)
      requires !MustMove(heap, b, AdjustRequest(size, ALIGN_SIZE) / 8)
      modifies this, mem, heads, slBitmap
      ensures Ok() && Yields(heap, p, Realloc(old(heap), b, size)) && p == b + 2
      ensures ResizedFrom(old(heap), b, Realloc(old(heap), b, size), AdjustRequest(size, ALIGN_SIZE))
      ensures SameBytes(old(mem[..]), b + 2, mem[..], p, Surviving(size, 8 * old(heap).len[b]))
      ensures Kept(old(mem[..]), mem[..], Lives(old(heap)) - {b}, old(heap).pools, nul)
    {
      hide *;
      ghost var m0, h0 := mem[..], heap;
      OkIs();
      ReallocReady(heap, b, size);
      SelfGrown(m0, heap, nul, b);
      var adjust := AdjustRequest(size, ALIGN_SIZE);
      var curSize := BlockSize(b, {});
      if adjust > curSize {
        GrownReady(heap, b);
        MergeFollowing(b, {});
        GoodPlaced();
        ghost var m1, h1 := mem[..], heap;
        MarkAsUsed(b, {});
        GrownKept(m0, m1, mem[..], h0, h1, nul, b);
        GoodOk();
      }
      ghost var m2, h2 := mem[..], heap;
      BlockTrimUsed(b, adjust);
      p := b + 2;
      InPlaceIs(h0, b, size, h2);
      SurvivingLaw(size, 8 * h0.len[b]);
      ResizedKept(m0, m2, mem[..], h0, h2, nul, b, adjust / 8, Surviving(size, 8 * h0.len[b]));
    }

    /**
     `tlsf_realloc`, for a live block or null and a size that can be rounded or is zero: the outcome is
     that of the abstract heap, the first bytes of the block are kept wherever it ends up, a refusal
     leaves it untouched, and no other client's payload changes.
     */
    method TlsfRealloc(ptr: nat, size: nat) returns (p: nat)
      requires Ok() && size < WORD_LIMIT
      requires ptr != 0 ==> Live(heap, BlockOf(ptr)) && (size == 0 || Roundable(size))
      modifies this, mem, heads, slBitmap
      ensures Ok()
      ensures ptr != 0 && size == 0 ==> p == 0 && heap == FreeBlock(old(heap), BlockOf(ptr))
      ensures ptr == 0 ==> Yields(heap, p, Malloc(old(heap), size))
      ensures ptr != 0 && size != 0 ==> Yields(heap, p, Realloc(old(heap), BlockOf(ptr), size))
      ensures ptr != 0 && size != 0 ==>
                ResizedFrom(old(heap), BlockOf(ptr), Realloc(old(heap), BlockOf(ptr), size), AdjustRequest(size, ALIGN_SIZE))
      ensures ptr != 0 && size != 0 && p == 0 ==> Kept(old(mem[..]), mem[..], Lives(old(heap)), old(heap).pools, nul)
      ensures ptr != 0 && size != 0 && p != 0 ==>
                SameBytes(old(mem[..]), ptr, mem[..], p, Surviving(size, 8 * old(heap).len[BlockOf(ptr)]))
      ensures Kept(old(mem[..]), mem[..], Lives(old(heap)) - {BlockOf(ptr)}, old(heap).pools, nul)
    {
      hide *;
      ghost var h0 := heap;
      if ptr != 0 && size == 0 {
        TlsfFree(ptr);
        p := 0;
      } else if ptr == 0 {
        ghost var m0 := mem[..];
        p := TlsfMalloc(size);
        KeptFewer(m0, mem[..], Lives(h0), Lives(h0) - {BlockOf(ptr)}, h0.pools, nul);
      } else {
        OkIs();
        var b := BlockOf(ptr);
        LivePtr(ptr);
        ReallocReady(heap, b, size);
        var next := BlockNext(b, {});
        var curSize := BlockSize(b, {});
        var nextSize := BlockSize(next, {});
        var combined := curSize + nextSize + 8;
        var adjust := AdjustRequest(size, ALIGN_SIZE);
        var nextFree := BlockIsFree(next, {});
        if adjust > curSize && (!nextFree || adjust > combined) {
          p := ReallocMove(b, size);
        } else {
          p := ReallocInPlace(b, size);
        }
      }
    }

    /** The loops of `control_construct`. */
    method ClearIndex()
      requires heads.Length == CLASSES && slBitmap.Length == FL_INDEX_COUNT && heads != slBitmap
      modifies heads, slBitmap
      ensures forall c :: 0 <= c < CLASSES ==> heads[c] == nul
      ensures forall f :: 0 <= f < FL_INDEX_COUNT ==> slBitmap[f] == 0
    {
      var i := 0;
      while i < FL_INDEX_COUNT
        invariant i <= FL_INDEX_COUNT
        invariant forall c :: 0 <= c < i * 32 ==> heads[c] == nul
        invariant forall f :: 0 <= f < i ==> slBitmap[f] == 0
      {
        slBitmap[i] := 0;
        var j := 0;
        while j < SL_INDEX_COUNT
          modifies heads
          invariant j <= SL_INDEX_COUNT
          invariant forall c :: 0 <= c < i * 32 + j ==> heads[c] == nul
        {
          heads[i * 32 + j] := nul;
          j := j + 1;
        }
        i := i + 1;
      }
    }

    lemma ConstructReady()
      requires Apart() && heads.Length == CLASSES && slBitmap.Length == FL_INDEX_COUNT && flBitmap == 0
      requires 0 < nul && nul + 4 <= mem.Length && heap == NoPools()
      requires forall c :: 0 <= c < CLASSES ==> heads[c] == nul
      requires forall f :: 0 <= f < FL_INDEX_COUNT ==> slBitmap[f] == 0
      ensures Ok()
    {
      hide Inv;
      NoPoolsValid();
      EmptyRep(St(), nul);
      hide NoPools;
      hide Rep;
    }

    /** `control_construct`: every list is the null block, both bitmap levels are zero. */
    constructor (memory: array<nat>, nullBlock: nat)
      requires 0 < nullBlock && nullBlock + 4 <= memory.Length && 8 * memory.Length + 8 * BLOCK_SIZE_MAX <= WORD_LIMIT
      modifies memory
      ensures mem == memory && nul == nullBlock && fresh(heads) && fresh(slBitmap)
      ensures Ok() && heap == NoPools()
      ensures Changed(old(memory[..]), memory[..], {nullBlock + 2, nullBlock + 3})
    {
      hide Rep;
      hide NoPools;
      hide Inv;
      mem := memory;
      nul := nullBlock;
      heads := new nat[CLASSES];
      slBitmap := new nat[FL_INDEX_COUNT];
      flBitmap := 0;
      heap := NoPools();
      new;
      mem[nul + 2] := nul;
      mem[nul + 3] := nul;
      ClearIndex();
      ConstructReady();
    }

    /** `block_set_size`, `block_set_free` and `block_set_prev_used` on whatever the word held. */
    method WriteFirst(b: nat, size: nat)
      requires size % 8 == 0 && b + 1 < mem.Length
      modifies mem
      ensures mem[..] == old(mem[..])[b + 1 := Tag(size / 8, true, false)]
    {
      hide *;
      FreshTag(mem[b + 1], size / 8);
      mem[b + 1] := WithSize(mem[b + 1], size);
      mem[b + 1] := SetBit(mem[b + 1], FREE_BIT);
      mem[b + 1] := ClearBit(mem[b + 1], PREV_FREE_BIT);
    }

    /** `block_set_size`, `block_set_used` and `block_set_prev_free` likewise. */
    method WriteSentinel(e: nat)
      requires e + 1 < mem.Length
      modifies mem
      ensures mem[..] == old(mem[..])[e + 1 := Tag(0, false, true)]
    {
      hide *;
      FreshTag(mem[e + 1], 0);
      mem[e + 1] := WithSize(mem[e + 1], 0);
      mem[e + 1] := ClearBit(mem[e + 1], FREE_BIT);
      mem[e + 1] := SetBit(mem[e + 1], PREV_FREE_BIT);
    }

    /** The words of a new pool: the size word, the link of `block_link_next` and the sentinel's size word. */
    method WritePool(b: nat, poolBytes: nat)
      requires poolBytes % 8 == 0 && 8 <= poolBytes && b + poolBytes / 8 + 2 < mem.Length
      modifies mem
      ensures mem[..] == PoolWords(old(mem[..]), b, poolBytes / 8)
    {
      hide Tag;
      WriteFirst(b, poolBytes);
      var next := b + 2 + (poolBytes - 8) / 8;
      mem[next] := b;
      WriteSentinel(next);
    }

    lemma PoolReady(b: nat, len: nat)
      requires Ok() && PoolFits(mem.Length, heap, nul, b, len)
      ensures b + len + 2 < mem.Length && 0 < len && Apart() && mem != heads && mem != slBitmap && St() == State(mem[..], heads[..], slBitmap[..], flBitmap)
      ensures var u := WithPool(heap, b, len);
              var m := PoolWords(mem[..], b, len);
              && Rep(State(m, heads[..], slBitmap[..], flBitmap), u, nul, {}) && InHand(u, b) && Lives(u) == Lives(heap)
              && Kept(mem[..], m, Lives(heap), u.pools, nul)
              && Insert(u, b) == AddPool(heap, b, len) && Valid(Insert(u, b)) && Insert(u, b).pools == u.pools
    {
      hide Rep;
      hide Inv;
      hide ClassOf;
      hide Kept;
      hide Lives;
      PoolRep(St(), heap, nul, b, len);
      WithPoolKeeps(heap, b, len);
      AddPoolKeeps(heap, b, len);
    }

    lemma GoodFrom()
      requires Apart() && Rep(State(mem[..], heads[..], slBitmap[..], flBitmap), heap, nul, {})
      ensures Good({})
    {}

    /** Lay out a pool and list its block. */
    method LayOutPool(b: nat, poolBytes: nat)
      requires Ok() && poolBytes % 8 == 0 && PoolFits(mem.Length, heap, nul, b, poolBytes / 8)
      modifies this, mem, heads, slBitmap
      ensures Ok() && heap == AddPool(old(heap), b, poolBytes / 8)
      ensures Kept(old(mem[..]), mem[..], Lives(old(heap)), heap.pools, nul)
    {
      hide *;
      ghost var m0, h0, len := mem[..], heap, poolBytes / 8;
      PoolReady(b, len);
      WritePool(b, poolBytes);
      heap := WithPool(heap, b, len);
      GoodFrom();
      ghost var m1 := mem[..];
      InHandIs(heap, b);
      BlockInsert(b, {b});
      GoodOk();
      KeptTrans(m0, m1, mem[..], Lives(h0), heap.pools, nul);
    }

    /** `tlsf_add_pool`, except that the sentinel is written before the first block is listed. */
    method TlsfAddPool(addr: nat, bytes: nat) returns (pool: nat)
      requires Ok() && bytes < WORD_LIMIT
      requires PoolAccepted(addr, bytes) ==> addr >= 8 && PoolFits(mem.Length, heap, nul, addr / 8 - 1, PoolBytes(bytes) / 8)
      modifies this, mem, heads, slBitmap
      ensures Ok() && pool == if PoolAccepted(addr, bytes) then addr else 0
      ensures heap == if PoolAccepted(addr, bytes) then AddPool(old(heap), addr / 8 - 1, PoolBytes(bytes) / 8) else old(heap)
      ensures pool != 0 <==> addr % 8 == 0 && 40 <= bytes < 0x1_0000_0018
      ensures pool != 0 ==> addr / 8 - 1 in heap.pools
      ensures pool != 0 ==> 8 * (heap.pools[addr / 8 - 1] + 2) <= addr + bytes < 8 * (heap.pools[addr / 8 - 1] + 2) + 8
      ensures Kept(old(mem[..]), mem[..], Lives(old(heap)), heap.pools, nul)
    {
      var poolBytes := PoolBytes(bytes);
      ghost var m0, h0 := mem[..], heap;
      PoolSize(addr, bytes);
      if addr % ALIGN_SIZE != 0 {
        KeptSame(m0, Lives(heap), heap.pools, nul);
        return 0;
      }
      if poolBytes < BLOCK_SIZE_MIN || poolBytes > BLOCK_SIZE_MAX {
        KeptSame(m0, Lives(heap), heap.pools, nul);
        return 0;
      }
      PoolEnd(heap, addr, bytes);
      LayOutPool(addr / 8 - 1, poolBytes);
      pool := addr;
    }

    lemma RemovalReady(p: nat)
      requires Idle(heap, p) && Ok()
      ensures p in heap.pools && p in heap.free && p in heap.len && heap.len[p] > 0 && End(heap.len, p) in heap.len
      ensures End(heap.len, p) !in heap.free && heap.len[End(heap.len, p)] == 0
      ensures End(heap.len, p) == heap.pools[p] && Valid(heap) && Inv(heap, {}, {}) && Good({})
      ensures Valid(RemovePool(heap, p)) && Lives(RemovePool(heap, p)) == Lives(heap)
    {
      hide Rep;
      hide Lives;
      EmptyPool(heap, p);
      RemovePoolKeeps(heap, p);
      hide ClassOf;
    }

    lemma RemovedOk(h0: Heap, p: nat)
      requires Valid(h0) && p in h0.pools && p in h0.free && p in h0.len && End(h0.len, p) == h0.pools[p]
      requires Apart() && Rep(State(mem[..], heads[..], slBitmap[..], flBitmap), Unlist(h0, p), nul, {})
      requires Valid(RemovePool(h0, p)) && heap == RemovePool(h0, p)
      ensures Ok()
    {
      RemovePoolRep(St(), h0, nul, p);
    }

    lemma GoodApart()
      requires Good({})
      ensures Apart() && Rep(State(mem[..], heads[..], slBitmap[..], flBitmap), heap, nul, {})
    {}

    /** `tlsf_remove_pool`, for a pool in which nothing is live: its three assertions hold. */
    method TlsfRemovePool(pool: nat)
      requires pool >= 8 && Idle(heap, pool / 8 - 1) && Ok()
      modifies this, mem, heads, slBitmap
      ensures Ok() && heap == RemovePool(old(heap), pool / 8 - 1) && Lives(heap) == Lives(old(heap))
      ensures Kept(old(mem[..]), mem[..], Lives(old(heap)), old(heap).pools, nul)
    {
      hide *;
      ghost var h0 := heap;
      var b := pool / 8 - 1;
      RemovalReady(b);
      var next := BlockNext(b, {});
      var isFree := BlockIsFree(b, {});
      var nextFree := BlockIsFree(next, {});
      var nextSize := BlockSize(next, {});
      assert isFree && !nextFree && nextSize == 0;
      BlockRemove(b, {}, {});
      GoodApart();
      heap := RemovePool(h0, b);
      RemovedOk(h0, b);
    }

    /** `tlsf_insist` */
    static function Insist(status: int, x: bool): (r: int)
      ensures r <= status && (r == status <==> x)
    {
      if x then status else status - 1
    }

    /** What `tlsf_check` reads of one list. */
    lemma CheckedCell(i: nat, j: nat)
      requires Ok() && i < FL_INDEX_COUNT && j < SL_INDEX_COUNT
      ensures heads.Length == |heap.lists| == CLASSES && slBitmap.Length == FL_INDEX_COUNT && nul + 3 < mem.Length
      ensures Bit(slBitmap[i], j) <==> heap.lists[i * 32 + j] != []
      ensures Bit(slBitmap[i], j) ==> Bit(flBitmap, i) && slBitmap[i] != 0
      ensures heads[i * 32 + j] == At(heap.lists[i * 32 + j], 0, nul)
    {
      hide Inv;
      hide ListsRep;
      hide Tags;
      hide Links;
      hide Placed;
      CheckedBits(flBitmap, slBitmap[..], heap.lists, i, j);
      assert ListsRep(mem[..], heads[..], heap.lists, nul);
      CheckedHead(mem[..], heads[..], heap.lists, nul, i * 32 + j);
      RepSizes(St(), heap, nul, {});
    }

    /** What `tlsf_check` reads of one listed block. */
    lemma CheckedBlock(i: nat, j: nat, k: nat)
      requires Ok() && i < FL_INDEX_COUNT && j < SL_INDEX_COUNT && |heap.lists| == CLASSES && k < |heap.lists[i * 32 + j]|
      ensures var b := heap.lists[i * 32 + j][k];
              && b in heap.free && b in heap.len && b !in heap.prevFree && b != nul && heap.len[b] >= MIN_LEN
              && End(heap.len, b) in heap.len && End(heap.len, b) !in heap.free && End(heap.len, b) in heap.prevFree
              && 8 * heap.len[b] < WORD_LIMIT && MappingInsert(8 * heap.len[b]) == Index(i, j)
              && b + 3 < mem.Length && mem[b + 2] == At(heap.lists[i * 32 + j], k + 1, nul)
    {
      hide *;
      OkIs();
      OkRep();
      ValidIs(heap);
      CellInRange(i, j);
      ListedBlock(heap, i, j, k);
      ListedWords(St(), heap, nul, {}, {}, i * 32 + j, k);
      ListNodes(|mem[..]|, heap, nul, {}, {}, i * 32 + j);
    }

    /** The checks `tlsf_check` makes of one listed block, on any words. */
    method CheckBlock(block: nat, i: nat, j: nat, before: int) returns (status: int)
      requires Readable(mem[..], block)
      ensures status <= before && (status == before <==> BlockSound(mem[..], block, i, j))
    {
      hide *;
      status := before;
      SoundBits(mem[..], block, i, j);
      var isFree := Bit(mem[block + 1], FREE_BIT);
      var isPrevFree := Bit(mem[block + 1], PREV_FREE_BIT);
      var size := SizeOf(mem[block + 1]);
      var next := block + 1 + size / 8;
      var nextFree := Bit(mem[next + 1], FREE_BIT);
      var nextPrevFree := Bit(mem[next + 1], PREV_FREE_BIT);
      var index := MappingInsert(size);
      status := Insist(status, isFree);
      status := Insist(status, !isPrevFree);
      status := Insist(status, !nextFree);
      status := Insist(status, nextPrevFree);
      status := Insist(status, size >= BLOCK_SIZE_MIN);
      status := Insist(status, index.fl == i && index.sl == j);
    }

    /** The body of the two loops of `tlsf_check`; `list` is where the links lead. */
    method CheckList(i: nat, j: nat, ghost list: seq<nat>, before: int) returns (status: int)
      requires i * 32 + j < heads.Length && i < slBitmap.Length && Walks(mem[..], heads[i * 32 + j], nul, list)
      ensures status <= before
      ensures status == before <==> CellSound(mem[..], flBitmap, slBitmap[i], list, i, j)
    {
      hide *;
      status := before;
      var flMap := Bit(flBitmap, i);
      var slList := slBitmap[i];
      var slMap := Bit(slList, j);
      var block := heads[i * 32 + j];
      CellIs(mem[..], flBitmap, slList, list, i, j);
      NoBitsInZero(slList, j);
      NextLink(mem[..], block, list, nul, 0);
      NoBlocks(mem[..], list, i, j);
      if !flMap {
        status := Insist(status, !slMap);
      }
      if !slMap {
        status := Insist(status, block == nul);
        return;
      }
      status := Insist(status, slList != 0);
      status := Insist(status, block != nul);
      ghost var first, k := status, 0;
      while block != nul
        invariant k <= |list| && block == At(list, k, nul) && status <= first
        invariant status == first <==> BlocksSound(mem[..], list, i, j, k)
        decreases |list| - k
      {
        NextLink(mem[..], heads[i * 32 + j], list, nul, k);
        OneBlockMore(mem[..], list, i, j, k);
        status := CheckBlock(block, i, j, status);
        block := mem[block + 2];
        k := k + 1;
      }
      NextLink(mem[..], heads[i * 32 + j], list, nul, k);
    }

    /** What lets `tlsf_check` run to its end: every list leads to the null block. */
    ghost predicate Checkable(lists: seq<seq<nat>>)
      reads this, mem, heads, slBitmap
    {
      && |lists| == heads.Length == CLASSES && slBitmap.Length == FL_INDEX_COUNT
      && forall c: nat :: c < CLASSES ==> Walks(mem[..], heads[c], nul, lists[c])
    }

    /**
     `tlsf_check` on any words whose lists end: it finds nothing wrong exactly when every bitmap bit says
     whether its list has blocks, none is set below a clear first-level bit, and every listed block is
     marked free, lies between used ones, is marked free behind it too, and is in the list of its size.
     */
    method TlsfCheck(ghost lists: seq<seq<nat>>) returns (status: int)
      requires Checkable(lists)
      ensures status <= 0 && (status == 0 <==> CellsSound(mem[..], flBitmap, slBitmap[..], lists, CLASSES))
    {
      hide *;
      CheckableIs(lists);
      status := 0;
      var i := 0;
      NoCells(mem[..], flBitmap, slBitmap[..], lists);
      while i < FL_INDEX_COUNT
        invariant i <= FL_INDEX_COUNT && status <= 0
        invariant status == 0 <==> CellsSound(mem[..], flBitmap, slBitmap[..], lists, i * 32)
      {
        var j := 0;
        while j < SL_INDEX_COUNT
          invariant j <= SL_INDEX_COUNT && status <= 0
          invariant status == 0 <==> CellsSound(mem[..], flBitmap, slBitmap[..], lists, i * 32 + j)
        {
          OneCellMore(mem[..], flBitmap, slBitmap[..], lists, i, j);
          status := CheckList(i, j, lists[i * 32 + j], status);
          j := j + 1;
        }
        i := i + 1;
      }
    }

    lemma CheckableIs(lists: seq<seq<nat>>)
      requires Checkable(lists)
      ensures FL_INDEX_COUNT == 25 && SL_INDEX_COUNT == 32 && CLASSES == 800
      ensures |lists| == heads.Length == CLASSES && slBitmap.Length == FL_INDEX_COUNT
      ensures forall c: nat :: c < CLASSES ==> Walks(mem[..], heads[c], nul, lists[c])
    {}

    /** In every represented state there is nothing for `tlsf_check` to find. */
    lemma CheckPasses()
      requires Ok()
      ensures Checkable(heap.lists) && CellsSound(mem[..], flBitmap, slBitmap[..], heap.lists, CLASSES)
    {
      hide *;
      CheckedShape();
      forall c: nat | c < CLASSES
        ensures Walks(mem[..], heads[c], nul, heap.lists[c])
        ensures CellSound(mem[..], flBitmap, slBitmap[..][c / 32], heap.lists[c], c / 32, c % 32)
      {
        CellIndex(c);
        CellWalks(c / 32, c % 32);
      }
      CheckableFrom(heap.lists);
      CellsFrom(mem[..], flBitmap, slBitmap[..], heap.lists);
    }

    lemma CheckedShape()
      requires Ok()
      ensures heads.Length == |heap.lists| == CLASSES == 800 && slBitmap.Length == FL_INDEX_COUNT == 25 && SL_INDEX_COUNT == 32
    {
      CheckedCell(0, 0);
    }

    lemma CheckableFrom(lists: seq<seq<nat>>)
      requires |lists| == heads.Length == CLASSES && slBitmap.Length == FL_INDEX_COUNT
      requires forall c: nat :: c < CLASSES ==> Walks(mem[..], heads[c], nul, lists[c])
      ensures Checkable(lists)
    {}

    lemma CellWalks(i: nat, j: nat)
      requires Ok() && i < 25 && j < 32
      ensures |heap.lists| == heads.Length == CLASSES == 800 && slBitmap.Length == 25
      ensures Walks(mem[..], heads[i * 32 + j], nul, heap.lists[i * 32 + j])
      ensures CellSound(mem[..], flBitmap, slBitmap[i], heap.lists[i * 32 + j], i, j)
    {
      hide *;
      CheckedShape();
      CheckedCell(i, j);
      ghost var list := heap.lists[i * 32 + j];
      forall k: nat | k < |list|
        ensures Readable(mem[..], list[k]) && list[k] != nul && list[k] + 2 < mem.Length && mem[..][list[k] + 2] == At(list, k + 1, nul)
        ensures BlockSound(mem[..], list[k], i, j)
      {
        BlockPasses(i, j, k);
      }
      WalksFrom(mem[..], heads[i * 32 + j], nul, list);
      CellFrom(mem[..], flBitmap, slBitmap[i], list, i, j);
    }

    lemma BlockPasses(i: nat, j: nat, k: nat)
      requires Ok() && i < FL_INDEX_COUNT && j < SL_INDEX_COUNT && |heap.lists| == CLASSES && i * 32 + j < CLASSES
      requires k < |heap.lists[i * 32 + j]|
      ensures var b := heap.lists[i * 32 + j][k];
              && b + 2 < mem.Length && Readable(mem[..], b) && b != nul && mem[..][b + 2] == At(heap.lists[i * 32 + j], k + 1, nul)
              && BlockSound(mem[..], b, i, j)
    {
      hide *;
      CheckedBlock(i, j, k);
      ghost var b := heap.lists[i * 32 + j][k];
      OkIs();
      SizeWord(b);
      SizeWord(End(heap.len, b));
      ListedSize(b);
      SoundFrom(mem[..], b, heap.len[b], heap.len[End(heap.len, b)], i, j);
    }

    lemma ListedSize(b: nat)
      requires b in heap.len && heap.len[b] >= MIN_LEN
      ensures heap.len[b] >= 3 && End(heap.len, b) == b + 1 + heap.len[b]
    {}

    lemma SizeWord(b: nat)
      requires Good({}) && b in heap.len
      ensures b + 1 < mem.Length && mem[b + 1] == Tag(heap.len[b], b in heap.free, b in heap.prevFree)
    {
      RepSizes(St(), heap, nul, {});
    }

    lemma FirstBlock(p: nat)
      requires Ok() && p in heap.pools
      ensures p in heap.len && p <= heap.pools[p] && p !in heap.prevFree && Good({})
    {
      hide Good;
      PoolStart(heap, p);
    }

    /** What the walk over a pool meets. */
    lemma WalkedBlock(p: nat, b: nat)
      requires Ok() && p in heap.pools && p <= b <= heap.pools[p] && b in heap.len
      ensures b > 0 && p !in heap.prevFree && p in heap.len
      ensures heap.len[b] == 0 <==> b == heap.pools[p]
      ensures heap.len[b] > 0 ==> b < End(heap.len, b) <= heap.pools[p] && End(heap.len, b) in heap.len
      ensures heap.len[b] > 0 ==> (End(heap.len, b) in heap.prevFree <==> b in heap.free)
    {
      hide Good;
      WalkStep(heap, p, b);
    }

    /**
     `tlsf_check_pool` on any words in which the sizes lead through `bs` to a block of size 0: it finds
     nothing wrong exactly when every block before that one says of the block before it whether it is
     free, and the first one says of nothing that it is.
     */
    method TlsfCheckPool(pool: nat, ghost bs: seq<nat>) returns (status: int)
      requires Strung(mem[..], bs) && |bs| > 0 && pool >= 8 && pool / 8 - 1 == bs[0]
      ensures status <= 0 && (status == 0 <==> FlagsSound(mem[..], bs, |bs| - 1))
    {
      hide *;
      var prevStatus := false;
      var block := pool / 8 - 1;
      ghost var k := 0;
      status := 0;
      StrungHere(mem[..], bs, 0);
      NothingBefore(mem[..], bs);
      NoFlags(mem[..], bs);
      var size := SizeOf(mem[block + 1]);
      while block != 0 && size != 0
        invariant k < |bs| && block == bs[k] && block + 1 < mem.Length && size == SizeOf(mem[block + 1]) && status <= 0
        invariant prevStatus == BeforeIsFree(mem[..], bs, k) && (size != 0 <==> k + 1 < |bs|) && block != 0
        invariant status == 0 <==> FlagsSound(mem[..], bs, k)
        decreases |bs| - k
      {
        StrungHere(mem[..], bs, k);
        StrungHere(mem[..], bs, k + 1);
        OneFlagMore(mem[..], bs, k);
        var thisPrevStatus := Bit(mem[block + 1], PREV_FREE_BIT);
        var thisStatus := Bit(mem[block + 1], FREE_BIT);
        var thisSize := SizeOf(mem[block + 1]);
        status := Insist(status, prevStatus == thisPrevStatus);
        status := Insist(status, size == thisSize);
        prevStatus := thisStatus;
        block := block + 2 + (size - 8) / 8;
        size := SizeOf(mem[block + 1]);
        k := k + 1;
      }
    }

    /** In every represented state the walk over a pool ends at its sentinel, and there is nothing to find. */
    lemma CheckPoolPasses(p: nat) returns (bs: seq<nat>)
      requires Ok() && p in heap.pools
      ensures Strung(mem[..], bs) && bs[0] == p && bs[|bs| - 1] == heap.pools[p]
      ensures FlagsSound(mem[..], bs, |bs| - 1)
    {
      hide *;
      FirstBlock(p);
      bs := PoolString(p, p);
      StringSound(bs, p);
    }

    /** The blocks of a pool from `b` on. */
    lemma PoolString(p: nat, b: nat) returns (bs: seq<nat>)
      requires Ok() && p in heap.pools && p <= b <= heap.pools[p] && b in heap.len
      ensures HeapString(bs) && |bs| > 0 && bs[0] == b && bs[|bs| - 1] == heap.pools[p]
      decreases heap.pools[p] - b
    {
      hide *;
      WalkedBlock(p, b);
      if heap.len[b] == 0 {
        bs := [b];
        OneBlockString(b);
      } else {
        var rest := PoolString(p, End(heap.len, b));
        bs := [b] + rest;
        MoreBlocksString(b, rest);
      }
    }

    /** The same blocks as the heap has them. */
    ghost predicate HeapString(bs: seq<nat>)
      reads this
    {
      && bs != []
      && forall k: nat :: k < |bs| ==>
           && bs[k] > 0 && bs[k] in heap.len && (heap.len[bs[k]] == 0 <==> k + 1 == |bs|)
           && (k + 1 < |bs| ==> bs[k + 1] == End(heap.len, bs[k]) && (bs[k + 1] in heap.prevFree <==> bs[k] in heap.free))
    }

    lemma OneBlockString(b: nat)
      requires b > 0 && b in heap.len && heap.len[b] == 0
      ensures HeapString([b])
    {}

    lemma MoreBlocksString(b: nat, rest: seq<nat>)
      requires b > 0 && b in heap.len && heap.len[b] > 0 && HeapString(rest) && rest[0] == End(heap.len, b)
      requires rest[0] in heap.prevFree <==> b in heap.free
      ensures HeapString([b] + rest)
    {
      ghost var bs := [b] + rest;
      forall k: nat | k < |bs|
        ensures bs[k] > 0 && bs[k] in heap.len && (heap.len[bs[k]] == 0 <==> k + 1 == |bs|)
        ensures k + 1 < |bs| ==> bs[k + 1] == End(heap.len, bs[k]) && (bs[k + 1] in heap.prevFree <==> bs[k] in heap.free)
      {
        if k > 0 {
          assert bs[k] == rest[k - 1];
          assert k + 1 < |bs| ==> bs[k + 1] == rest[k];
        }
      }
    }

    lemma StringBlock(bs: seq<nat>, k: nat)
      requires HeapString(bs) && k < |bs|
      ensures bs[k] > 0 && bs[k] in heap.len && (heap.len[bs[k]] == 0 <==> k + 1 == |bs|)
      ensures k + 1 < |bs| ==> bs[k + 1] == bs[k] + 1 + heap.len[bs[k]] && (bs[k + 1] in heap.prevFree <==> bs[k] in heap.free)
    {}

    lemma StringSound(bs: seq<nat>, p: nat)
      requires Ok() && HeapString(bs) && |bs| > 0 && p == bs[0] && p !in heap.prevFree
      ensures Strung(mem[..], bs) && FlagsSound(mem[..], bs, |bs| - 1)
    {
      hide *;
      OkIs();
      forall k: nat | k < |bs| ensures StrungAt(mem[..], bs, k) {
        StringBlock(bs, k);
        SizeWord(bs[k]);
        StrungFrom(mem[..], bs, k, heap.len[bs[k]], bs[k] in heap.free, bs[k] in heap.prevFree);
      }
      IsStrung(mem[..], bs);
      forall k: nat | k + 1 < |bs| ensures FlagSound(mem[..], bs, k) {
        StringBlock(bs, k);
        SizeWord(bs[k]);
        if k > 0 {
          StringBlock(bs, k - 1);
          SizeWord(bs[k - 1]);
          FlagFrom(mem[..], bs, k, heap.len[bs[k]], bs[k] in heap.free, bs[k] in heap.prevFree, heap.len[bs[k - 1]],
                   bs[k - 1] in heap.free, bs[k - 1] in heap.prevFree);
        } else {
          FirstFlag(mem[..], bs, heap.len[bs[0]], bs[0] in heap.free);
        }
      }
      AllFlags(mem[..], bs);
    }
  }
}
