/**
 What holds of the heap as a whole: the two-level search picks the best class there is, the sizes
 for which an allocation serves its caller, and the invariant in every state a run can reach.
 */
module TlsfRuns {
  import opened TlsfMapping
  import opened TlsfHeap
  import opened TlsfRequest
  import opened TlsfOps
  import opened TlsfPools

  // ----- Good fit

  /** A request after `mapping_search` has rounded it. */
  function Rounded(size: nat): (r: nat)
    requires size < BLOCK_SIZE_MAX
    ensures size <= r < WORD_LIMIT
  {
    if size >= SMALL_BLOCK_SIZE then RoundUp(size) else size
  }

  lemma SearchedOrSmaller(h: Heap, size: nat, f: nat)
    requires Valid(h) && 0 < size < BLOCK_SIZE_MAX && f in h.free && f in h.len
    ensures ClassOf(h.len[f]) < SearchClass(size) ==> 8 * h.len[f] < Rounded(size)
    ensures ClassOf(h.len[f]) >= SearchClass(size) && size % ALIGN_SIZE == 0 ==> size <= 8 * h.len[f]
  {
    assert h.len[f] < MAX_LEN;
    hide Inv;
    if ClassOf(h.len[f]) < SearchClass(size) {
      SkippedClassBound(size, 8 * h.len[f]);
    } else if size % ALIGN_SIZE == 0 {
      SearchedClassFits(size, 8 * h.len[f]);
    }
  }

  lemma ListOf(h: Heap, f: nat)
    requires Valid(h) && f in h.free
    ensures |h.lists| == CLASSES && f in h.len && f in h.lists[ClassOf(h.len[f])]
  {
    hide ClassOf;
  }

  /**
   The located block is the head of the first non-empty list from the searched class on: it fits, and
   no other free block that fits for certain is in a lower class. Null means that every free block is smaller than
   the request rounded up to a class boundary, which adds less than one part in 32 (`RoundUpWaste`).
   */
  lemma LocateIsBest(h: Heap, size: nat)
    requires Valid(h) && 0 < size < BLOCK_SIZE_MAX && size % ALIGN_SIZE == 0
    ensures var b := Locate(h, size);
            if b == 0 then
              && (forall c :: SearchClass(size) <= c < CLASSES ==> h.lists[c] == [])
              && forall f :: f in h.free && f in h.len ==> 8 * h.len[f] < Rounded(size)
            else
              && (forall c :: SearchClass(size) <= c < ClassOf(h.len[b]) ==> h.lists[c] == [])
              && SearchClass(size) <= ClassOf(h.len[b])
              && b in h.free && b in h.len && size <= 8 * h.len[b] && h.lists[ClassOf(h.len[b])][0] == b
              && forall f :: f in h.free && f in h.len && 8 * h.len[f] >= Rounded(size) ==>
                   ClassOf(h.len[b]) <= ClassOf(h.len[f])
  {
    hide ClassOf;
    hide SearchClass;
    hide Rounded;
    assert |h.lists| == CLASSES;
    var c := FirstNonEmpty(h.lists, SearchClass(size));
    forall f | f in h.free && f in h.len && 8 * h.len[f] >= Rounded(size)
      ensures c < CLASSES && c <= ClassOf(h.len[f])
    {
      SearchedOrSmaller(h, size, f);
      ListOf(h, f);
    }
    if c < CLASSES {
      var b := h.lists[c][0];
      assert b in h.lists[c];
      SearchedOrSmaller(h, size, b);
    }
  }

  // ----- When an allocation serves its caller

  /** The block of an outcome, if any, holds `size` bytes. */
  ghost predicate Serves(r: Outcome, size: nat) {
    r.block != 0 ==> r.block in r.heap.len && size <= 8 * r.heap.len[r.block]
  }

  /**
   `tlsf_malloc` returns null or a block that holds the request, except for the last seven sizes of a
   64-bit word: they are rounded to the minimum block, and fail to be served whenever one is found.
   */
  lemma MallocServes(h: Heap, size: nat)
    requires Valid(h) && size < WORD_LIMIT
    ensures Serves(Malloc(h, size), size) <==> size <= WORD_LIMIT - 8 || Locate(h, BLOCK_SIZE_MIN) == 0
  {
    hide Inv;
    hide Locate;
    hide AllocateAt;
    hide Lives;
    MallocLaw(h, size);
    var adjust := AdjustRequest(size, ALIGN_SIZE);
    if size > 0 {
      AdjustCovers(size);
    }
    if size > WORD_LIMIT - 8 {
      WrappedRequest(size);
    }
    NothingForNothing(h);
    hide AdjustRequest;
    assert Malloc(h, size).block == Locate(h, adjust);
  }

  lemma NothingForNothing(h: Heap)
    ensures AdjustRequest(0, ALIGN_SIZE) == 0 && Locate(h, 0) == 0
  {}

  lemma WrappedRequest(size: nat)
    requires WORD_LIMIT - 8 < size < WORD_LIMIT
    ensures AdjustRequest(size, ALIGN_SIZE) == BLOCK_SIZE_MIN
  {}

  // ----- When an allocation must succeed

  /** A block that a request of `size` bytes may pass over is smaller than the request and one part in 32. */
  lemma PassedOver(h: Heap, size: nat, f: nat)
    requires Valid(h) && 0 < size < BLOCK_SIZE_MAX && size % ALIGN_SIZE == 0 && Locate(h, size) == 0 && f in h.free
    ensures f in h.len && 32 * (8 * h.len[f]) < 33 * size
  {
    ListOf(h, f);
    LocateIsBest(h, size);
    hide Inv;
    hide Locate;
    RoundedWaste(size);
    hide Rounded;
  }

  lemma RoundedWaste(size: nat)
    requires 0 < size < BLOCK_SIZE_MAX
    ensures 32 * Rounded(size) < 33 * size
  {
    if size >= SMALL_BLOCK_SIZE {
      AtLeast256(size);
      RoundUpWaste(size, Fls(size));
    }
  }

  /** `tlsf_malloc` fails only if no free block is 33/32 of the request, or of the minimum block. */
  lemma MallocSucceeds(h: Heap, size: nat, f: nat)
    requires Valid(h) && 0 < size <= 0xFFFF_FFF8 && Malloc(h, size).block == 0 && f in h.free
    ensures f in h.len && 32 * (8 * h.len[f]) < 33 * if size <= 24 then 24 else size + 7
  {
    hide Inv;
    hide Locate;
    hide AllocateAt;
    AdjustRange(size);
    AdjustCovers(size);
    hide AdjustRequest;
    PassedOver(h, AdjustRequest(size, ALIGN_SIZE), f);
  }

  lemma PaddedBelow(adjust: nat, align: nat)
    requires PowerOfTwo(align) && 8 < align && 0 < adjust && adjust + 2 * align + 32 <= 0x1_0000_0000
    ensures var w := AdjustRequest(adjust + align + BLOCK_HEADER_SIZE, align); 0 < w < adjust + 2 * align + 32
  {
    hide AlignUp;
    hide AlignedTo;
    hide PowerOfTwo;
    AlignUpLaw(adjust + align + BLOCK_HEADER_SIZE, align);
  }

  /**
   `tlsf_memalign` fails only if no free block is 33/32 of the rounded request with twice the alignment
   and a header added.
   */
  lemma MemalignSucceeds(h: Heap, align: nat, size: nat, f: nat)
    requires Valid(h) && PowerOfTwo(align) && 8 < align <= 0x4000_0000_0000_0000 && size < WORD_LIMIT
    requires var adjust := AdjustRequest(size, ALIGN_SIZE); adjust != 0 && adjust + 2 * align + 32 <= 0x1_0000_0000
    requires Memalign(h, align, size).block == 0 && f in h.free
    ensures f in h.len && 32 * (8 * h.len[f]) < 33 * (AdjustRequest(size, ALIGN_SIZE) + 2 * align + 32)
  {
    hide Inv;
    hide Locate;
    hide AllocateAt;
    hide Skipped;
    hide PowerOfTwo;
    PaddedBelow(AdjustRequest(size, ALIGN_SIZE), align);
    AlignedRequestLaw(size, align);
    var w := AlignedRequest(size, align);
    hide AdjustRequest;
    assert Locate(h, w) == 0;
    PassedOver(h, w, f);
  }

  /** The block after `b` is free and together they hold `n` bytes. */
  ghost predicate RoomBehind(h: Heap, b: nat, n: nat) {
    b in h.len && End(h.len, b) in h.free && End(h.len, b) in h.len && n <= 8 * h.len[b] + 8 + 8 * h.len[End(h.len, b)]
  }

  lemma RoundedIs(size: nat)
    requires 0 < size <= 0xFFFF_FFF8
    ensures ALIGN_SIZE == 8 && BLOCK_SIZE_MAX == 0x1_0000_0000 && size < WORD_LIMIT
    ensures AdjustRequest(size, ALIGN_SIZE) == if size <= 24 then 24 else (size + 7) / 8 * 8
    ensures var n := AdjustRequest(size, ALIGN_SIZE); 0 < n < BLOCK_SIZE_MAX && n % ALIGN_SIZE == 0
  {}

  /** A resized block stays exactly if it need not move; a null result comes from a search that found nothing. */
  lemma ReallocBranches(h: Heap, b: nat, size: nat)
    requires Valid(h) && Live(h, b) && size < WORD_LIMIT && b > 0
    requires var n := AdjustRequest(size, ALIGN_SIZE); n != 0 && n % 8 == 0
    ensures var r := Realloc(h, b, size);
            var n := AdjustRequest(size, ALIGN_SIZE);
            && b in h.len && (r.block == b <==> n <= 8 * h.len[b] || RoomBehind(h, b, n))
            && (r.block == 0 ==> Locate(h, n) == 0)
  {
    MallocLaw(h, size);
    NextStays(h, b);
    hide Inv;
    hide Locate;
    hide AdjustRequest;
    hide AllocateAt;
    hide FreeBlock;
    hide TrimUsed;
    hide MergeNext;
    hide MarkUsed;
    hide Lives;
  }

  lemma NextStays(h: Heap, b: nat)
    requires Valid(h) && Live(h, b)
    ensures b in h.len && h.len[b] > 0 && (End(h.len, b) in h.free ==> End(h.len, b) in h.len)
  {
    hide ClassOf;
  }

  /**
   `tlsf_realloc` leaves the block where it is exactly when there is room, and fails only if there is
   none and no free block is 33/32 of the request, or of the minimum block.
   */
  lemma ReallocSucceeds(h: Heap, b: nat, size: nat)
    requires Valid(h) && Live(h, b) && 0 < size <= 0xFFFF_FFF8
    ensures var r := Realloc(h, b, size);
            var n := if size <= 24 then 24 else (size + 7) / 8 * 8;
            && b in h.len && (r.block == b <==> n <= 8 * h.len[b] || RoomBehind(h, b, n))
            && (r.block == 0 ==> forall f :: f in h.free && f in h.len ==> 32 * (8 * h.len[f]) < 33 * n)
  {
    hide *;
    RoundedIs(size);
    var s := AdjustRequest(size, ALIGN_SIZE);
    LiveIsSmall(h, b);
    ReallocLaw(h, b, size);
    ReallocBranches(h, b, size);
    if Realloc(h, b, size).block == 0 {
      forall f | f in h.free && f in h.len ensures 32 * (8 * h.len[f]) < 33 * s {
        PassedOver(h, s, f);
      }
    }
  }

  /** A size too large to be rounded is taken for zero: the block stays where it is and is cut down to nothing. */
  lemma OversizeRealloc(h: Heap, b: nat, size: nat)
    requires Valid(h) && Live(h, b) && BLOCK_SIZE_MAX - 8 < size <= WORD_LIMIT - 8
    ensures Realloc(h, b, size) == Outcome(TrimUsed(h, b, 0), b)
  {
    AdjustCovers(size);
    hide AdjustRequest;
    hide Inv;
    hide TrimUsed;
  }

  /** The block that is left at `b` is no bigger than it was. */
  lemma TrimmedLength(h: Heap, b: nat, s: nat)
    requires b in h.len && s <= h.len[b]
    ensures b in TrimUsed(h, b, s).len && TrimUsed(h, b, s).len[b] <= h.len[b]
  {
    hide ClassOf;
    hide Cut;
    hide Join;
  }

  lemma LiveIsSmall(h: Heap, b: nat)
    requires Valid(h) && Live(h, b)
    ensures b in h.len && MIN_LEN <= h.len[b] < MAX_LEN && 8 * MAX_LEN == BLOCK_SIZE_MAX && BLOCK_SIZE_MAX < WORD_LIMIT - 8 && b > 0 && ALIGN_SIZE > 0
  {
    hide ClassOf;
  }

  lemma ServesIs(r: Outcome, size: nat)
    requires r.block != 0 && r.block in r.heap.len
    ensures Serves(r, size) <==> size <= 8 * r.heap.len[r.block]
  {}

  lemma ResizedServes(h: Heap, b: nat, r: Outcome, adjust: nat, size: nat)
    requires ResizedFrom(h, b, r, adjust) && size <= adjust
    ensures Serves(r, size)
  {
    hide Inv;
    hide Lives;
  }

  /** A request rounded to the minimum block is cut down to it where it stands. */
  lemma WrappedRealloc(h: Heap, b: nat, size: nat)
    requires Valid(h) && Live(h, b) && AdjustRequest(size, ALIGN_SIZE) == BLOCK_SIZE_MIN && size > WORD_LIMIT - 8
    ensures !Serves(Realloc(h, b, size), size)
  {
    LiveIsSmall(h, b);
    TrimmedLength(h, b, 3);
    hide Inv;
    hide TrimUsed;
    hide AdjustRequest;
  }

  /** `tlsf_realloc` of a live block serves its caller exactly for the sizes it can round. */
  lemma ReallocServes(h: Heap, b: nat, size: nat)
    requires Valid(h) && Live(h, b) && 0 < size < WORD_LIMIT
    ensures Serves(Realloc(h, b, size), size) <==> size <= BLOCK_SIZE_MAX - 8
  {
    hide *;
    LiveIsSmall(h, b);
    AdjustCovers(size);
    if size > WORD_LIMIT - 8 {
      WrappedRequest(size);
      WrappedRealloc(h, b, size);
    } else if size > BLOCK_SIZE_MAX - 8 {
      OversizeRealloc(h, b, size);
      TrimmedLength(h, b, 0);
      ServesIs(Realloc(h, b, size), size);
    } else {
      ReallocLaw(h, b, size);
      ResizedServes(h, b, Realloc(h, b, size), AdjustRequest(size, ALIGN_SIZE), size);
    }
  }

  /** A block of more than the minimum size does not survive such a call: its tile has length zero inside the pool. */
  lemma OversizeReallocBreaks(h: Heap, b: nat, size: nat)
    requires Valid(h) && Live(h, b) && BLOCK_SIZE_MAX - 8 < size <= WORD_LIMIT - 8
    ensures Valid(Realloc(h, b, size).heap) <==> h.len[b] < HEADER_LEN
  {
    OversizeRealloc(h, b, size);
    var r := TrimUsed(h, b, 0);
    if h.len[b] >= HEADER_LEN {
      TrimUsedPools(h, b, 0);
      CutToNothing(h, b);
      ZeroTileInPool(h, b, r);
    }
    hide TrimUsed;
    hide Inv;
    hide Realloc;
  }

  lemma CutToNothing(h: Heap, b: nat)
    requires b in h.len && HEADER_LEN <= h.len[b]
    ensures b in TrimUsed(h, b, 0).len && TrimUsed(h, b, 0).len[b] == 0
  {
    hide ClassOf;
    hide Cut;
    hide Join;
  }

  lemma ZeroTileInPool(h: Heap, b: nat, r: Heap)
    requires Valid(h) && Live(h, b) && r.pools == h.pools && b in r.len && r.len[b] == 0
    ensures !Valid(r)
  {
    var p := EndInPool(h.len, h.pools, b);
    hide ClassOf;
    hide Listed;
  }

  // ----- Runs

  datatype Call =
    | AddPoolCall(start: nat, len: nat)
    | RemovePoolCall(pool: nat)
    | MallocCall(bytes: nat)
    | MemalignCall(align: nat, bytes: nat)
    | FreeCall(block: nat)
    | ReallocCall(block: nat, bytes: nat)

  /** What the allocator asks of its callers. */
  ghost predicate Allowed(h: Heap, c: Call) {
    match c
    case AddPoolCall(p, len) =>
      && p > 0 && MIN_LEN <= len < MAX_LEN && Unclaimed(h.pools, p, p + 1 + len)
      && 8 * (p + len + 3) + 4 * BLOCK_SIZE_MAX <= WORD_LIMIT
    case RemovePoolCall(p) => Idle(h, p)
    case MallocCall(bytes) => bytes < WORD_LIMIT
    case MemalignCall(align, bytes) => PowerOfTwo(align) && 0 < align < WORD_LIMIT && bytes < WORD_LIMIT
    case FreeCall(b) => Live(h, b)
    case ReallocCall(b, bytes) => Live(h, b) && bytes < WORD_LIMIT && AdjustRequest(bytes, ALIGN_SIZE) != 0
  }

  ghost function Step(h: Heap, c: Call): Heap
    requires Allowed(h, c)
  {
    match c
    case AddPoolCall(p, len) => AddPool(h, p, len)
    case RemovePoolCall(p) => RemovePool(h, p)
    case MallocCall(bytes) => Malloc(h, bytes).heap
    case MemalignCall(align, bytes) => Memalign(h, align, bytes).heap
    case FreeCall(b) => FreeBlock(h, b)
    case ReallocCall(b, bytes) => Realloc(h, b, bytes).heap
  }

  /** The heaps a run goes through, from a freshly constructed one on. */
  ghost predicate IsRun(states: seq<Heap>, calls: seq<Call>) {
    && |states| == |calls| + 1 && states[0] == NoPools()
    && forall i :: 0 <= i < |calls| ==> Allowed(states[i], calls[i]) && states[i + 1] == Step(states[i], calls[i])
  }

  /** Pools end early enough for the alignment arithmetic. */
  ghost predicate PoolsAddressable(pools: map<nat, nat>) {
    forall p :: p in pools ==> 8 * (pools[p] + 2) + 4 * BLOCK_SIZE_MAX <= WORD_LIMIT
  }

  lemma PoolsBoundBlocks(h: Heap)
    requires Valid(h) && PoolsAddressable(h.pools)
    ensures Addressable(h)
  {
    hide ClassOf;
    hide Listed;
    hide Tiled;
    forall b | b in h.len ensures 8 * (b + 2) + 4 * BLOCK_SIZE_MAX <= WORD_LIMIT {
      assert InPool(h.pools, b);
    }
  }

  /** What one call does to the blocks clients hold, whatever the state it is made in. */
  ghost predicate LivesStep(h: Heap, c: Call, u: Heap) {
    match c
    case AddPoolCall(p, len) => Lives(u) == Lives(h) && u.pools == h.pools[p := p + 1 + len]
    case RemovePoolCall(p) => Lives(u) == Lives(h) && u.pools == h.pools - {p}
    case MallocCall(bytes) => AllocatedFrom(h, Malloc(h, bytes), AdjustRequest(bytes, ALIGN_SIZE)) && u == Malloc(h, bytes).heap
    case MemalignCall(align, bytes) =>
      && align > 0 && u == Memalign(h, align, bytes).heap
      && HandedOut(h, Memalign(h, align, bytes), AdjustRequest(bytes, ALIGN_SIZE))
      && (align <= WORD_LIMIT / 4 ==> AllocatedFrom(h, Memalign(h, align, bytes), AdjustRequest(bytes, ALIGN_SIZE)))
    case FreeCall(b) => Lives(u) == Lives(h) - {b} && u.pools == h.pools
    case ReallocCall(b, bytes) =>
      ResizedFrom(h, b, Realloc(h, b, bytes), AdjustRequest(bytes, ALIGN_SIZE)) && u == Realloc(h, b, bytes).heap
  }

  lemma StepKeeps(h: Heap, c: Call)
    requires Valid(h) && PoolsAddressable(h.pools) && Allowed(h, c)
    ensures var u := Step(h, c); Valid(u) && PoolsAddressable(u.pools) && LivesStep(h, c, u)
  {
    hide Inv;
    hide Lives;
    hide Live;
    hide AddPool;
    hide RemovePool;
    hide Malloc;
    hide Memalign;
    hide FreeBlock;
    hide Realloc;
    match c
    case AddPoolCall(p, len) => AddPoolKeeps(h, p, len);
    case RemovePoolCall(p) =>
      EmptyPool(h, p);
      RemovePoolKeeps(h, p);
      RemovePoolPools(h, p);
    case MallocCall(bytes) => MallocLaw(h, bytes);
    case MemalignCall(align, bytes) =>
      PoolsBoundBlocks(h);
      MemalignKeeps(h, align, bytes);
      if align <= WORD_LIMIT / 4 {
        MemalignLaw(h, align, bytes);
      }
    case FreeCall(b) => FreeLaw(h, b);
    case ReallocCall(b, bytes) => ReallocLaw(h, b, bytes);
  }

  lemma RemovePoolPools(h: Heap, p: nat)
    requires p in h.pools
    ensures RemovePool(h, p).pools == h.pools - {p}
  {
    hide ClassOf;
  }

  lemma {:induction false} RunsAreValid(states: seq<Heap>, calls: seq<Call>, i: nat)
    requires IsRun(states, calls) && i < |states|
    ensures Valid(states[i]) && PoolsAddressable(states[i].pools)
    decreases i
  {
    hide Inv;
    hide NoPools;
    hide Step;
    if i == 0 {
      NoPoolsValid();
      NoPoolsAddressable();
    } else {
      RunsAreValid(states, calls, i - 1);
      StepKeeps(states[i - 1], calls[i - 1]);
    }
  }

  lemma NoPoolsAddressable()
    ensures PoolsAddressable(NoPools().pools)
  {}

  /**
   In every state of every run the four views agree, each call changes clients' blocks as it
   promises and in no other way, every pool is tiled to its last word, and a pool none of whose
   blocks is live is a single free block of its full size.
   */
  lemma RunLaw(states: seq<Heap>, calls: seq<Call>, i: nat)
    requires IsRun(states, calls) && i < |states|
    ensures Valid(states[i])
    ensures i < |calls| ==> LivesStep(states[i], calls[i], states[i + 1])
    ensures forall p :: p in states[i].pools ==> Total(states[i].len, Walk(states[i].len, p, states[i].pools[p])) == states[i].pools[p] - p
    ensures forall p: nat :: p in states[i].pools && Idle(states[i], p) ==>
              p in states[i].free && p in states[i].len && End(states[i].len, p) == states[i].pools[p]
  {
    RunsAreValid(states, calls, i);
    var h := states[i];
    if i < |calls| {
      StepKeeps(h, calls[i]);
    }
    hide LivesStep;
    hide Step;
    hide Allowed;
    forall p | p in h.pools
      ensures Total(h.len, Walk(h.len, p, h.pools[p])) == h.pools[p] - p
    {
      PoolIsTiled(h, p);
    }
    forall p: nat | p in h.pools && Idle(h, p)
      ensures p in h.free && p in h.len && End(h.len, p) == h.pools[p]
    {
      EmptyPool(h, p);
    }
  }
}
