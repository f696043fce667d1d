/**
 What each step of the allocator does to the words: that the representation moves on with the
 abstract heap, and that no client's payload and nothing outside the pools changes.
 */
module TlsfSteps {
  import opened Sequences
  import opened Digits
  import opened TlsfMapping
  import opened TlsfHeap
  import opened TlsfRequest
  import opened TlsfOps
  import opened TlsfPools
  import opened TlsfRep

  // ----- Whole steps on the words

  /** The two promises every step makes about words that are not its own. */
  ghost predicate Kept(m: seq<nat>, m': seq<nat>, lives: map<nat, nat>, pools: map<nat, nat>, nul: nat) {
    PayloadsKept(m, m', lives) && OutsideKept(m, m', pools, nul)
  }

  lemma KeptTrans(m0: seq<nat>, m1: seq<nat>, m2: seq<nat>, lives: map<nat, nat>, pools: map<nat, nat>, nul: nat)
    requires Kept(m0, m1, lives, pools, nul) && Kept(m1, m2, lives, pools, nul)
    ensures Kept(m0, m2, lives, pools, nul)
  {}

  /** Whatever is kept for more lives is kept for fewer. */
  lemma KeptFewer(m: seq<nat>, m': seq<nat>, lives: map<nat, nat>, fewer: map<nat, nat>, pools: map<nat, nat>, nul: nat)
    requires Kept(m, m', lives, pools, nul) && forall k :: k in fewer ==> k in lives && fewer[k] <= lives[k]
    ensures Kept(m, m', fewer, pools, nul)
  {}

  /** The list of a listed block is the one its size maps to. */
  lemma ListedAt(h: Heap, xs: set<nat>, ys: set<nat>, b: nat, f: nat, s: nat) returns (k: nat)
    requires Inv(h, xs, ys) && b in h.free && b !in xs
    requires b in h.len && 8 * h.len[b] < WORD_LIMIT && MappingInsert(8 * h.len[b]) == Index(f, s)
    ensures f < FL_INDEX_COUNT && s < SL_INDEX_COUNT && ClassOf(h.len[b]) == f * 32 + s < CLASSES
    ensures |h.lists| == CLASSES && k < |h.lists[f * 32 + s]| && h.lists[f * 32 + s][k] == b
  {
    MappingInRange(8 * h.len[b]);
    var c := ClassOf(h.len[b]);
    hide MappingInsert;
    k :| 0 <= k < |h.lists[c]| && h.lists[c][k] == b;
  }

  /** What `remove_free_block` reads of a listed block. */
  lemma ListedWords(st: State, h: Heap, nul: nat, xs: set<nat>, ys: set<nat>, c: nat, k: nat)
    requires Rep(st, h, nul, {}) && Inv(h, xs, ys) && c < CLASSES && k < |h.lists[c]|
    ensures var b := h.lists[c][k];
            var prev, next := At(h.lists[c], k - 1, nul), At(h.lists[c], k + 1, nul);
            && b + 3 < |st.mem| && st.mem[b + 3] == prev && st.mem[b + 2] == next
            && prev + 3 < |st.mem| && next + 3 < |st.mem| && Node(h, nul, prev) && Node(h, nul, next)
  {
    hide ClassOf;
    var s := h.lists[c];
    assert Chained(st.mem, s, nul);
    assert NextFree(st.mem, s[k]) == At(s, k + 1, nul);
    ListNodes(|st.mem|, h, nul, xs, ys, c);
    hide Inv;
  }

  /** The state `remove_free_block` leaves. */
  ghost predicate Removed(st: State, st': State, b: nat, prev: nat, next: nat, nul: nat, f: nat, s: nat) {
    && next + 3 < |st.mem| && prev + 2 < |st.mem| && f * 32 + s < |st.heads| && f < |st.sl|
    && st'.mem == st.mem[next + 3 := prev][prev + 2 := next]
    && var c := f * 32 + s;
    && st'.heads == (if st.heads[c] == b then st.heads[c := next] else st.heads)
    && var emptied := st.heads[c] == b && next == nul;
    && st'.sl == (if emptied then st.sl[f := ClearBit(st.sl[f], s)] else st.sl)
    && st'.fl == if emptied && ClearBit(st.sl[f], s) == 0 then ClearBit(st.fl, f) else st.fl
  }

  lemma RemovedFrom(st: State, st': State, b: nat, prev: nat, next: nat, nul: nat, f: nat, s: nat)
    requires next + 3 < |st.mem| && prev + 2 < |st.mem| && f * 32 + s < |st.heads| && f < |st.sl|
    requires st'.mem == st.mem[next + 3 := prev][prev + 2 := next]
    requires st'.heads == if st.heads[f * 32 + s] == b then st.heads[f * 32 + s := next] else st.heads
    requires var emptied := st.heads[f * 32 + s] == b && next == nul;
             && st'.sl == (if emptied then st.sl[f := ClearBit(st.sl[f], s)] else st.sl)
             && st'.fl == if emptied && ClearBit(st.sl[f], s) == 0 then ClearBit(st.fl, f) else st.fl
    ensures Removed(st, st', b, prev, next, nul, f, s)
  {
    hide ClearBit;
  }

  lemma RemovedBitmaps(st: State, st': State, h: Heap, nul: nat, f: nat, s: nat, k: nat, prev: nat, next: nat, lists': seq<seq<nat>>)
    requires Bitmaps(st.fl, st.sl, h.lists) && f < FL_INDEX_COUNT && s < SL_INDEX_COUNT
    requires var c := f * 32 + s;
             && k < |h.lists[c]| && nul !in h.lists[c] && NoDuplicates(h.lists[c])
             && next == At(h.lists[c], k + 1, nul) && (c < |st.heads| && st.heads[c] == h.lists[c][k] <==> k == 0)
             && lists' == h.lists[c := Remove(h.lists[c], h.lists[c][k])]
             && Removed(st, st', h.lists[c][k], prev, next, nul, f, s)
    ensures Bitmaps(st'.fl, st'.sl, lists')
  {
    var c := f * 32 + s;
    var l := h.lists[c];
    RemoveAt(l, k);
    if |l| == 1 {
      BitmapsRemove(st.fl, st.sl, h.lists, f, s, st'.fl, st'.sl);
      assert lists' == h.lists[c := []];
    } else {
      assert k + 1 < |l| ==> l[k + 1] in l;
      BitmapsSame(st.fl, st.sl, h.lists, lists');
    }
  }

  /** A list link belongs to no client. */
  lemma LinkHarmless(h: Heap, nul: nat, w: nat, x: nat)
    requires Tiled(h.len) && FlagsOfBlocks(h.len, h.free, h.prevFree)
    requires Node(h, nul, x) && (w == x + 2 || w == x + 3)
    ensures Harmless(h.len, Lives(h), nul, w)
  {
    if x != nul {
      assert End(h.len, x) >= x + 4;
    }
  }

  lemma LinksHarmless(m: seq<nat>, m': seq<nat>, h: Heap, nul: nat, xs: set<nat>, ys: set<nat>, prev: nat, next: nat)
    requires Inv(h, xs, ys) && Placed(|m|, h.len, nul) && Node(h, nul, prev) && Node(h, nul, next)
    requires next + 3 < |m| && prev + 2 < |m| && m' == m[next + 3 := prev][prev + 2 := next]
    ensures Kept(m, m', Lives(h), h.pools, nul)
  {
    LinkHarmless(h, nul, next + 3, next);
    LinkHarmless(h, nul, prev + 2, prev);
    hide Harmless;
    hide Node;
    HarmlessChanges(m, m', h, Lives(h), nul);
    hide Inv;
  }

  lemma RemovedWords(m: seq<nat>, m': seq<nat>, h: Heap, nul: nat, xs: set<nat>, ys: set<nat>, prev: nat, next: nat)
    requires Inv(h, xs, ys) && Placed(|m|, h.len, nul)
    requires Tags(m, h) && Links(m, h, {}) && Node(h, nul, prev) && Node(h, nul, next)
    requires next + 3 < |m| && prev + 2 < |m| && m' == m[next + 3 := prev][prev + 2 := next]
    ensures Tags(m', h) && Links(m', h, {})
  {
    hide Tags;
    hide Links;
    hide Tiled;
    hide FlagsOfBlocks;
    hide Placed;
    hide Flagged;
    hide Coalesced;
    hide Linked;
    hide Pooled;
    hide Listed;
    LinkWrite(m, h, nul, {}, next + 3, next, prev);
    LinkWrite(m[next + 3 := prev], h, nul, {}, prev + 2, prev, next);
  }

  lemma UnlistRep(st: State, st': State, h: Heap, nul: nat, xs: set<nat>, ys: set<nat>, b: nat, f: nat, s: nat, k: nat)
    requires Rep(st, h, nul, {}) && Inv(h, xs, ys) && f < FL_INDEX_COUNT && s < SL_INDEX_COUNT
    requires var c := f * 32 + s;
             && |h.lists| == CLASSES && k < |h.lists[c]| && h.lists[c][k] == b && b in h.len && ClassOf(h.len[b]) == c
             && Removed(st, st', b, At(h.lists[c], k - 1, nul), At(h.lists[c], k + 1, nul), nul, f, s)
    ensures Rep(st', Unlist(h, b), nul, {}) && Kept(st.mem, st'.mem, Lives(h), h.pools, nul)
  {
    hide Inv;
    hide Kept;
    hide ClassOf;
    hide ListsRep;
    hide Bitmaps;
    hide Tags;
    hide Links;
    hide Lives;
    hide At;
    hide UnlinkedAt;
    hide Placed;
    var c := f * 32 + s;
    var prev, next := At(h.lists[c], k - 1, nul), At(h.lists[c], k + 1, nul);
    ListedWords(st, h, nul, xs, ys, c, k);
    ListNodes(|st.mem|, h, nul, xs, ys, c);
    UnlinkOne(st.mem, st'.mem, h, nul, xs, ys, c, k);
    UnlistLists(st.mem, st'.mem, st.heads, st'.heads, h, nul, xs, ys, c, k, b);
    RemovedBitmaps(st, st', h, nul, f, s, k, prev, next, Unlist(h, b).lists);
    RemovedWords(st.mem, st'.mem, h, nul, xs, ys, prev, next);
    LinksHarmless(st.mem, st'.mem, h, nul, xs, ys, prev, next);
    SameTiles(st'.mem, h, Unlist(h, b));
  }

  /** Size words and links do not depend on the lists. */
  lemma SameTiles(m: seq<nat>, h: Heap, u: Heap)
    requires u == h.(lists := u.lists)
    ensures Tags(m, h) == Tags(m, u) && Links(m, h, {}) == Links(m, u, {})
  {}

  /** The state `insert_free_block` leaves. */
  ghost predicate Inserted(st: State, st': State, b: nat, cur: nat, nul: nat, f: nat, s: nat) {
    && b + 3 < |st.mem| && cur + 3 < |st.mem| && f * 32 + s < |st.heads| && f < |st.sl|
    && st'.mem == st.mem[b + 2 := cur][b + 3 := nul][cur + 3 := b]
    && st'.heads == st.heads[f * 32 + s := b]
    && st'.sl == st.sl[f := SetBit(st.sl[f], s)]
    && st'.fl == SetBit(st.fl, f)
  }

  /** The block in hand and the head of its list. */
  lemma HeadWords(st: State, h: Heap, nul: nat, xs: set<nat>, b: nat, c: nat)
    requires Rep(st, h, nul, {}) && Inv(h, xs, {}) && b in h.free && b in xs && c < CLASSES
    ensures |st.heads| == |h.lists| == CLASSES && |st.sl| == FL_INDEX_COUNT && nul + 3 < |st.mem|
    ensures var cur := st.heads[c];
            && cur == At(h.lists[c], 0, nul) && Node(h, nul, cur) && Sep(b, cur) && b != cur && b != nul
            && b + 3 < |st.mem| && cur + 3 < |st.mem|
  {
    hide ClassOf;
    ListNodes(|st.mem|, h, nul, xs, {}, c);
    var cur := At(h.lists[c], 0, nul);
    assert cur != nul ==> cur in h.lists[c];
    NodesApart(|st.mem|, h, nul, b, cur);
    assert End(h.len, b) >= b + 4;
    hide Inv;
  }

  lemma InsertedWords(m: seq<nat>, m': seq<nat>, h: Heap, nul: nat, xs: set<nat>, b: nat, cur: nat)
    requires Inv(h, xs, {}) && Placed(|m|, h.len, nul)
    requires Tags(m, h) && Links(m, h, {}) && b in h.free && Node(h, nul, cur)
    requires b + 3 < |m| && cur + 3 < |m| && m' == m[b + 2 := cur][b + 3 := nul][cur + 3 := b]
    ensures Tags(m', h) && Links(m', h, {})
  {
    hide Tags;
    hide Links;
    hide Tiled;
    hide FlagsOfBlocks;
    hide Placed;
    hide Flagged;
    hide Coalesced;
    hide Linked;
    hide Pooled;
    hide Listed;
    LinkWrite(m, h, nul, {}, b + 2, b, cur);
    LinkWrite(m[b + 2 := cur], h, nul, {}, b + 3, b, nul);
    LinkWrite(m[b + 2 := cur][b + 3 := nul], h, nul, {}, cur + 3, cur, b);
  }

  lemma ListedIsNode(h: Heap, nul: nat, b: nat)
    requires b in h.free
    ensures Node(h, nul, b)
  {}

  lemma KeptFrom(m: seq<nat>, m': seq<nat>, lives: map<nat, nat>, pools: map<nat, nat>, nul: nat)
    requires PayloadsKept(m, m', lives) && OutsideKept(m, m', pools, nul)
    ensures Kept(m, m', lives, pools, nul)
  {}

  lemma InsertHarmless(m: seq<nat>, m': seq<nat>, h: Heap, nul: nat, xs: set<nat>, b: nat, cur: nat)
    requires Inv(h, xs, {}) && Placed(|m|, h.len, nul) && b in h.free && Node(h, nul, cur)
    requires b + 3 < |m| && cur + 3 < |m| && m' == m[b + 2 := cur][b + 3 := nul][cur + 3 := b]
    ensures Kept(m, m', Lives(h), h.pools, nul)
  {
    hide *;
    InvParts(h, xs, {});
    ListedIsNode(h, nul, b);
    LinkHarmless(h, nul, b + 2, b);
    LinkHarmless(h, nul, b + 3, b);
    LinkHarmless(h, nul, cur + 3, cur);
    LivesFit(h);
    HarmlessChanges(m, m', h, Lives(h), nul);
    KeptFrom(m, m', Lives(h), h.pools, nul);
  }

  lemma InsertRep(st: State, st': State, h: Heap, nul: nat, xs: set<nat>, b: nat, f: nat, s: nat)
    requires Rep(st, h, nul, {}) && Inv(h, xs, {}) && f < FL_INDEX_COUNT && s < SL_INDEX_COUNT
    requires b in h.free && b in xs && b in h.len && ClassOf(h.len[b]) == f * 32 + s
    requires f * 32 + s < |st.heads| && Inserted(st, st', b, st.heads[f * 32 + s], nul, f, s)
    ensures Rep(st', Insert(h, b), nul, {}) && Kept(st.mem, st'.mem, Lives(h), h.pools, nul)
  {
    hide Inv;
    hide Kept;
    hide ClassOf;
    hide ListsRep;
    hide Bitmaps;
    hide Tags;
    hide Links;
    hide Lives;
    hide At;
    hide Placed;
    var c := f * 32 + s;
    HeadWords(st, h, nul, xs, b, c);
    var cur := st.heads[c];
    InsertLists(st.mem, st'.mem, st.heads, h, nul, xs, b, c);
    BitmapsInsert(st.fl, st.sl, h.lists, f, s, [b] + h.lists[c]);
    InsertedWords(st.mem, st'.mem, h, nul, xs, b, cur);
    InsertHarmless(st.mem, st'.mem, h, nul, xs, b, cur);
    SameTiles(st'.mem, h, Insert(h, b));
  }

  // ----- Steps on size words and links, as states

  /** The part of the invariant that even half-done steps keep. */
  ghost predicate Core(h: Heap) {
    && Tiled(h.len) && FlagsOfBlocks(h.len, h.free, h.prevFree)
    && |h.lists| == CLASSES && (forall c, x :: 0 <= c < CLASSES && x in h.lists[c] ==> x in h.free)
  }

  lemma InvCore(h: Heap, xs: set<nat>, ys: set<nat>)
    requires Inv(h, xs, ys)
    ensures Core(h)
  {
    hide ClassOf;
  }

  ghost predicate Unlisted(h: Heap, b: nat) {
    |h.lists| == CLASSES && forall c :: 0 <= c < CLASSES ==> b !in h.lists[c]
  }

  /** Word `w` is no list link of a listed block. */
  ghost predicate NoListWord(h: Heap, w: nat)
    requires |h.lists| == CLASSES
  {
    forall c, x :: 0 <= c < CLASSES && x in h.lists[c] ==> w != x + 2 && w != x + 3
  }

  lemma SizeWordNoList(h: Heap, b: nat)
    requires Core(h) && b in h.len
    ensures NoListWord(h, b + 1)
  {
    forall c, x | 0 <= c < CLASSES && x in h.lists[c] ensures b + 1 != x + 2 && b + 1 != x + 3 {
      assert x in h.free;
      assert End(h.len, x) >= x + 4;
    }
  }

  /** A word inside a block that is in no list. */
  lemma InsideNoList(h: Heap, b: nat, w: nat)
    requires Core(h) && b in h.len && b < w <= End(h.len, b)
    requires Unlisted(h, b)
    ensures NoListWord(h, w)
  {
    forall c, x | 0 <= c < CLASSES && x in h.lists[c] ensures w != x + 2 && w != x + 3 {
      assert x in h.free;
      assert End(h.len, x) >= x + 4;
      assert x != b;
    }
  }

  lemma ListsFrame(m: seq<nat>, m': seq<nat>, heads: seq<nat>, h: Heap, nul: nat)
    requires |h.lists| == CLASSES && ListsRep(m, heads, h.lists, nul) && |m'| == |m|
    requires forall w {:trigger m'[w]} :: 0 <= w < |m| && m'[w] != m[w] ==> NoListWord(h, w)
    ensures ListsRep(m', heads, h.lists, nul)
  {
    forall c | 0 <= c < CLASSES ensures Chained(m', h.lists[c], nul) {
      var s := h.lists[c];
      assert Chained(m, s, nul);
      forall i | 0 <= i < |s|
        ensures NextFree(m', s[i]) == NextFree(m, s[i]) && PrevFree(m', s[i]) == PrevFree(m, s[i])
      {
        assert s[i] in h.lists[c];
        assert s[i] + 3 < |m|;
      }
      ChainFrame(m, m', s, nul);
    }
  }

  lemma RepParts(st: State, h: Heap, nul: nat, ys: set<nat>)
    requires Rep(st, h, nul, ys)
    ensures Placed(|st.mem|, h.len, nul) && Tags(st.mem, h) && Links(st.mem, h, ys)
    ensures ListsRep(st.mem, st.heads, h.lists, nul) && Bitmaps(st.fl, st.sl, h.lists)
  {}

  lemma RepFrom(st: State, h: Heap, nul: nat, ys: set<nat>)
    requires Placed(|st.mem|, h.len, nul) && Tags(st.mem, h) && Links(st.mem, h, ys)
    requires ListsRep(st.mem, st.heads, h.lists, nul) && Bitmaps(st.fl, st.sl, h.lists)
    ensures Rep(st, h, nul, ys)
  {}

  lemma CoreParts(h: Heap)
    requires Core(h)
    ensures Tiled(h.len) && FlagsOfBlocks(h.len, h.free, h.prevFree) && |h.lists| == CLASSES
  {}

  /** A heap with other blocks and flags but the same lists, whose elements are still free. */
  lemma CoreFrom(h: Heap, u: Heap)
    requires Core(h) && Tiled(u.len) && FlagsOfBlocks(u.len, u.free, u.prevFree) && u.lists == h.lists
    requires forall c, x :: 0 <= c < |h.lists| && x in h.lists[c] && x in h.free ==> x in u.free
    ensures Core(u)
  {}

  /** A block's size word after a change of its flags alone. */
  lemma FlagRep(st: State, st': State, h: Heap, u: Heap, nul: nat, ys: set<nat>, b: nat)
    requires Rep(st, h, nul, ys) && Core(h) && b in h.len && u == h.(free := u.free, prevFree := u.prevFree)
    requires u.free - {b} == h.free - {b} && u.prevFree - {b} == h.prevFree - {b} && (b in u.free ==> h.len[b] > 0)
    requires b in u.free ==> b in h.free || b in ys || (End(h.len, b) < |st.mem| && st.mem[End(h.len, b)] == b)
    requires b + 1 < |st.mem| && st' == st.(mem := st.mem[b + 1 := TagOf(u, b)])
    ensures Rep(st', u, nul, ys)
  {
    hide Tags;
    hide Links;
    hide Bitmaps;
    hide Placed;
    hide Tag;
    SizeWordNoList(h, b);
    TagWrite(st.mem, h, u, ys, b);
    hide Tiled;
    hide NoListWord;
    ListsFrame(st.mem, st'.mem, st.heads, h, nul);
    hide ListsRep;
  }

  /** `block_link_next`, as a state. */
  lemma LinkNextRep(st: State, st': State, h: Heap, nul: nat, ys: set<nat>, b: nat)
    requires Rep(st, h, nul, ys) && Core(h) && b in h.len && h.len[b] > 0
    requires Unlisted(h, b)
    requires End(h.len, b) < |st.mem| && st' == st.(mem := st.mem[End(h.len, b) := b])
    ensures Rep(st', h, nul, ys - {b})
  {
    hide Tags;
    hide Links;
    hide Bitmaps;
    hide Placed;
    hide Tag;
    InsideNoList(h, b, End(h.len, b));
    LinkPrevWrite(st.mem, h, ys, b);
    hide Tiled;
    hide NoListWord;
    ListsFrame(st.mem, st'.mem, st.heads, h, nul);
    hide ListsRep;
  }

  /** Both size words of a cut have been written, over whatever flags the second word held. */
  ghost predicate CutWritten(m0: seq<nat>, m: seq<nat>, h0: Heap, h: Heap, b: nat, s: nat) {
    && b in h0.len && MIN_LEN <= s && s + HEADER_LEN <= h0.len[b] && b + s + 2 < |m0|
    && var r := b + 1 + s;
       && h == CutStale(h0, b, s, Bit(m0[r + 1], FREE_BIT), Bit(m0[r + 1], PREV_FREE_BIT))
       && m == m0[r + 1 := WithSize(m0[r + 1], 8 * (h0.len[b] - s - 1))][b + 1 := WithSize(m0[b + 1], 8 * s)]
  }

  lemma CutParts(m0: seq<nat>, m: seq<nat>, h0: Heap, h: Heap, b: nat, s: nat)
    requires CutWritten(m0, m, h0, h, b, s)
    ensures b in h0.len && MIN_LEN <= s && s + HEADER_LEN <= h0.len[b] && s < h0.len[b] && b + s + 2 < |m0|
    ensures var r := b + 1 + s;
            && h == CutStale(h0, b, s, Bit(m0[r + 1], FREE_BIT), Bit(m0[r + 1], PREV_FREE_BIT))
            && m == m0[r + 1 := WithSize(m0[r + 1], 8 * (h0.len[b] - s - 1))][b + 1 := WithSize(m0[b + 1], 8 * s)]
  {
    hide WithSize;
    hide Bit;
    hide Cut;
  }

  lemma CutWrittenFrom(m0: seq<nat>, m: seq<nat>, h0: Heap, h: Heap, b: nat, s: nat)
    requires b in h0.len && CanSplit(h0, b, s) && BLOCK_SIZE_MIN <= 8 * s && s < h0.len[b] && b + s + 2 < |m0|
    requires var r := b + 1 + s;
             && h == CutStale(h0, b, s, Bit(m0[r + 1], FREE_BIT), Bit(m0[r + 1], PREV_FREE_BIT))
             && m == m0[r + 1 := WithSize(m0[r + 1], 8 * (h0.len[b] - s - 1))][b + 1 := WithSize(m0[b + 1], 8 * s)]
    ensures CutWritten(m0, m, h0, h, b, s)
  {
    hide WithSize;
    hide Bit;
    hide Cut;
  }

  /** The two size words of a cut, as a state. */
  lemma CutRep(st: State, st': State, h: Heap, u: Heap, nul: nat, b: nat, s: nat)
    requires CutWritten(st.mem, st'.mem, h, u, b, s) && st' == st.(mem := st'.mem)
    requires Core(h) && Unlisted(h, b) && Rep(st, h, nul, {b})
    ensures Rep(st', u, nul, {b, b + 1 + s}) && Core(u)
  {
    hide *;
    var r := b + 1 + s;
    CutParts(st.mem, st'.mem, h, u, b, s);
    RepParts(st, h, nul, {b});
    CoreParts(h);
    CutShape(h, b, s, Bit(st.mem[r + 1], FREE_BIT), Bit(st.mem[r + 1], PREV_FREE_BIT));
    InsideNoList(h, b, r + 1);
    InsideNoList(h, b, b + 1);
    CutWrite(st.mem, st'.mem, h, b, s, u);
    CutTiled(h.len, u.len, b, s);
    CutPlaced(|st.mem|, h.len, u.len, b, s, nul);
    ListsFrame(st.mem, st'.mem, st.heads, h, nul);
    RepFrom(st', u, nul, {b, r});
    CoreFrom(h, u);
  }

  /** What a cut makes of the block, whatever flags the new size word shows. */
  lemma CutShape(h: Heap, b: nat, s: nat, f: bool, pf: bool)
    requires Tiled(h.len) && FlagsOfBlocks(h.len, h.free, h.prevFree) && b in h.len && MIN_LEN <= s && s + HEADER_LEN <= h.len[b]
    ensures MIN_LEN > 0 && HEADER_LEN > 0 && b + 1 + s < End(h.len, b) && b + 2 + s <= End(h.len, b)
    ensures var u := CutStale(h, b, s, f, pf);
            && Cuts(h.len, u.len, b, s) && u.lists == h.lists && h.free <= u.free && FlagsOfBlocks(u.len, u.free, u.prevFree)
  {
    InsideIsNoBlock(h.len, b, b + 1 + s);
    hide Tiled;
  }

  lemma CutPlaced(size: nat, t: Tiles, u: Tiles, b: nat, s: nat, nul: nat)
    requires Cuts(t, u, b, s) && Placed(size, t, nul)
    ensures Placed(size, u, nul)
  {
    CutEnds(t, u, b, s);
    hide Tiled;
    forall k | k in u ensures End(u, k) < size && (End(u, k) < nul || nul + 3 <= k) {
      if k != b && k != b + 1 + s {
        assert End(t, k) == End(u, k);
      } else {
        assert End(t, b) >= End(u, k);
      }
    }
  }

  /** The size word of a merged block, as a state; the block after it is not linked yet. */
  lemma JoinRep(st: State, st': State, h: Heap, nul: nat, p: nat, n: nat)
    requires Rep(st, h, nul, {}) && Core(h) && p in h.len && h.len[p] > 0 && n == End(h.len, p) && n in h.len
    requires h.len[n] > 0 && h.len[p] + 1 + h.len[n] < MAX_LEN
    requires Unlisted(h, n)
    requires p + 1 < |st.mem| && st' == st.(mem := st.mem[p + 1 := st.mem[p + 1] + 8 * h.len[n] + 8])
    ensures Rep(st', Absorb(h, p, n), nul, {p}) && Core(Absorb(h, p, n))
  {
    hide *;
    var u := Absorb(h, p, n);
    RepParts(st, h, nul, {});
    CoreParts(h);
    AbsorbIs(h, p, n);
    SizeWordNoList(h, p);
    JoinWrite(st.mem, st'.mem, h, p, n, u);
    JoinTiled(h.len, u.len, p, n);
    JoinPlaced(|st.mem|, h.len, u.len, p, n, nul);
    ListsFrame(st.mem, st'.mem, st.heads, h, nul);
    RepFrom(st', u, nul, {p});
    NotInLists(h, n);
    CoreFrom(h, u);
  }

  lemma NotInLists(h: Heap, n: nat)
    requires Unlisted(h, n)
    ensures forall c, x :: 0 <= c < |h.lists| && x in h.lists[c] ==> x != n
  {}

  lemma JoinPlaced(size: nat, t: Tiles, u: Tiles, p: nat, n: nat, nul: nat)
    requires Joins(t, u, p, n) && Placed(size, t, nul)
    ensures Placed(size, u, nul)
  {
    JoinEnds(t, u, p, n);
    hide Tiled;
    forall k | k in u ensures End(u, k) < size && (End(u, k) < nul || nul + 3 <= k) {
      if k != p {
        assert End(t, k) == End(u, k);
      } else {
        assert End(t, p) == n && End(t, n) == End(u, p);
      }
    }
  }

  /** Only words in `ws` differ. */
  ghost predicate Changed(m: seq<nat>, m': seq<nat>, ws: set<nat>) {
    |m'| == |m| && forall w {:trigger m'[w]} :: 0 <= w < |m| && m'[w] != m[w] ==> w in ws
  }

  /** Words that are a size word, or lie in a block no client owns or beyond what the client keeps of it. */
  lemma ChangedKept(m: seq<nat>, m': seq<nat>, h: Heap, nul: nat, xs: set<nat>, ys: set<nat>, lives: map<nat, nat>, ws: set<nat>)
    requires Inv(h, xs, ys) && Placed(|m|, h.len, nul) && Changed(m, m', ws)
    requires forall k :: k in lives ==> k in h.len && lives[k] <= h.len[k]
    requires forall w :: w in ws ==> Harmless(h.len, lives, nul, w)
    ensures Kept(m, m', lives, h.pools, nul)
  {
    hide Harmless;
    hide Placed;
    hide Tiled;
    hide Pooled;
    HarmlessChanges(m, m', h, lives, nul);
    hide Inv;
  }

  lemma SizeWordHarmless(h: Heap, lives: map<nat, nat>, nul: nat, b: nat)
    requires b in h.len
    ensures Harmless(h.len, lives, nul, b + 1)
  {
    assert End(h.len, b) >= b + 1;
  }

  lemma OwnHarmless(h: Heap, lives: map<nat, nat>, nul: nat, b: nat, w: nat)
    requires b in h.len && b < w <= End(h.len, b) && (b !in lives || w > b + 1 + lives[b])
    ensures Harmless(h.len, lives, nul, w)
  {}

  lemma NextBlock(t: Tiles, b: nat)
    requires Tiled(t) && b in t && t[b] > 0
    ensures End(t, b) in t && b < End(t, b)
  {}

  /** The words `block_mark_as_free` and `block_mark_as_used` touch, when `b` is not a client's any more or not yet. */
  lemma MarkKept(m: seq<nat>, m': seq<nat>, h: Heap, nul: nat, xs: set<nat>, ys: set<nat>, lives: map<nat, nat>, b: nat)
    requires Inv(h, xs, ys) && Placed(|m|, h.len, nul) && b in h.len && h.len[b] > 0 && b !in lives
    requires forall k :: k in lives ==> k in h.len && lives[k] <= h.len[k]
    requires Changed(m, m', {End(h.len, b), End(h.len, b) + 1, b + 1})
    ensures Kept(m, m', lives, h.pools, nul)
  {
    hide *;
    InvParts(h, xs, ys);
    NextBlock(h.len, b);
    var e := End(h.len, b);
    SizeWordHarmless(h, lives, nul, b);
    SizeWordHarmless(h, lives, nul, e);
    OwnHarmless(h, lives, nul, b, e);
    ChangedKept(m, m', h, nul, xs, ys, lives, {e, e + 1, b + 1});
  }

  /** Flag words alone, around a block that stays a client's. */
  lemma FlagsKept(m: seq<nat>, m': seq<nat>, h: Heap, nul: nat, xs: set<nat>, ys: set<nat>, lives: map<nat, nat>, b: nat)
    requires Inv(h, xs, ys) && Placed(|m|, h.len, nul) && b in h.len && h.len[b] > 0
    requires forall k :: k in lives ==> k in h.len && lives[k] <= h.len[k]
    requires Changed(m, m', {End(h.len, b) + 1, b + 1})
    ensures Kept(m, m', lives, h.pools, nul)
  {
    var e := End(h.len, b);
    assert e in h.len;
    SizeWordHarmless(h, lives, nul, b);
    SizeWordHarmless(h, lives, nul, e);
    hide Inv;
    hide Harmless;
    hide Placed;
    ChangedKept(m, m', h, nul, xs, ys, lives, {e + 1, b + 1});
  }

  lemma EndIn(h: Heap, xs: set<nat>, ys: set<nat>, b: nat)
    requires Inv(h, xs, ys) && b in h.len && h.len[b] > 0
    ensures End(h.len, b) in h.len
  {
    hide ClassOf;
  }

  lemma SplitHarmless(h: Heap, nul: nat, lives: map<nat, nat>, b: nat, s: nat, w: nat)
    requires b in h.len && MIN_LEN <= s && s + HEADER_LEN <= h.len[b] && End(h.len, b) in h.len
    requires b !in lives || lives[b] <= s
    requires w in {b + s + 2, b + 1, End(h.len, b), End(h.len, b) + 1} + if b in lives then {} else {b + 1 + s}
    ensures Harmless(h.len, lives, nul, w)
  {
    var e := End(h.len, b);
    if w == b + 1 {
      SizeWordHarmless(h, lives, nul, b);
    } else if w == e + 1 {
      SizeWordHarmless(h, lives, nul, e);
    } else {
      OwnHarmless(h, lives, nul, b, w);
    }
  }

  /** The words a split touches; `lives` grants the client of `b`, if any, its first `s` words only. */
  lemma SplitKept(m: seq<nat>, m': seq<nat>, h: Heap, nul: nat, xs: set<nat>, lives: map<nat, nat>, b: nat, s: nat)
    requires Inv(h, xs, {}) && Placed(|m|, h.len, nul) && b in h.len && MIN_LEN <= s && s + HEADER_LEN <= h.len[b]
    requires forall k :: k in lives ==> k in h.len && lives[k] <= h.len[k]
    requires b !in lives || lives[b] <= s
    requires Changed(m, m', {b + s + 2, b + 1, End(h.len, b), End(h.len, b) + 1} + if b in lives then {} else {b + 1 + s})
    ensures Kept(m, m', lives, h.pools, nul)
  {
    hide Inv;
    hide Harmless;
    hide Placed;
    EndIn(h, xs, {}, b);
    var ws := {b + s + 2, b + 1, End(h.len, b), End(h.len, b) + 1} + if b in lives then {} else {b + 1 + s};
    forall w | w in ws ensures Harmless(h.len, lives, nul, w) {
      SplitHarmless(h, nul, lives, b, s, w);
    }
    hide Changed;
    ChangedKept(m, m', h, nul, xs, {}, lives, ws);
  }

  /** The words `block_absorb` touches. */
  lemma AbsorbKept(m: seq<nat>, m': seq<nat>, h: Heap, nul: nat, xs: set<nat>, lives: map<nat, nat>, p: nat, n: nat)
    requires Inv(h, xs, {}) && Placed(|m|, h.len, nul) && p in h.len && n in h.len && h.len[n] > 0 && n !in lives
    requires forall k :: k in lives ==> k in h.len && lives[k] <= h.len[k]
    requires Changed(m, m', {p + 1, End(h.len, n)})
    ensures Kept(m, m', lives, h.pools, nul)
  {
    SizeWordHarmless(h, lives, nul, p);
    OwnHarmless(h, lives, nul, n, End(h.len, n));
    hide Inv;
    hide Harmless;
    hide Placed;
    ChangedKept(m, m', h, nul, xs, {}, lives, {p + 1, End(h.len, n)});
  }

  /** The words a split writes: both size words, and the link and flag behind the second part. */
  ghost function SplitWords(t: Tiles, b: nat, s: nat): set<nat>
    requires b in t
  {
    {b + s + 2, b + 1, End(t, b), End(t, b) + 1}
  }

  /** The heap right after a split, with the stale flag the second size word may still carry. */
  ghost function SplitStale(h: Heap, b: nat, s: nat, stale: bool): Heap {
    var r := b + 1 + s;
    var u := Split(h, b, s);
    if b in h.len then
      u.(prevFree := h.prevFree + (if stale then {r} else {}) + {End(h.len, b)})
    else u
  }

  /** The rest of a block about to be split is nobody's yet. */
  lemma FreshPiece(h: Heap, b: nat, s: nat)
    requires Core(h) && CanSplit(h, b, s)
    ensures b + 1 + s !in h.len && b + 1 + s !in h.free && b + 1 + s !in h.prevFree && Unlisted(h, b + 1 + s)
    ensures End(h.len, b) in h.len && b + s + 2 < End(h.len, b)
  {
    InsideIsNoBlock(h.len, b, b + 1 + s);
  }

  /** The second part of a cut block is new and in no list. */
  lemma CutPiece(m0: seq<nat>, m: seq<nat>, h0: Heap, h: Heap, b: nat, s: nat)
    requires CutWritten(m0, m, h0, h, b, s) && Core(h0) && Unlisted(h0, b)
    ensures var r := b + 1 + s;
            && r in h.len && h.len[r] > 0 && Unlisted(h, r) && Unlisted(h, b) && r !in h0.len && Unlisted(h0, r)
  {
    FreshPiece(h0, b, s);
    hide Core;
    hide WithSize;
    hide Bit;
    hide Cut;
  }

  lemma RepLoose(st: State, h: Heap, nul: nat, ys: set<nat>)
    requires Rep(st, h, nul, {})
    ensures Rep(st, h, nul, ys)
  {}

  lemma MarkStale(h: Heap, b: nat, s: nat, free: bool, prevFree: bool)
    requires Core(h) && CanSplit(h, b, s)
    ensures MarkFree(CutStale(h, b, s, free, prevFree), b + 1 + s) == SplitStale(h, b, s, prevFree)
  {
    hide Cut;
    FreshPiece(h, b, s);
  }

  /** Correcting the stale flag completes the split. */
  lemma StaleCorrected(h: Heap, b: nat, s: nat, stale: bool)
    requires Core(h) && CanSplit(h, b, s)
    ensures var r := b + 1 + s;
            var u := SplitStale(h, b, s, stale);
            && (b in h.free ==> u.(prevFree := u.prevFree + {r}) == Split(h, b, s))
            && (b !in h.free ==> u.(prevFree := u.prevFree - {r}) == Split(h, b, s))
  {
    hide Cut;
    FreshPiece(h, b, s);
  }

  /** The class of a block, as `mapping_insert` computes it from the size word. */
  lemma ClassIndex(h: Heap, xs: set<nat>, ys: set<nat>, b: nat)
    requires Inv(h, xs, ys) && b in h.len
    ensures 8 * h.len[b] < BLOCK_SIZE_MAX
    ensures var i := MappingInsert(8 * h.len[b]);
            0 <= i.fl < FL_INDEX_COUNT && 0 <= i.sl < SL_INDEX_COUNT && ClassOf(h.len[b]) == i.fl * 32 + i.sl
  {
    assert h.len[b] < MAX_LEN;
    hide Inv;
    MappingInRange(8 * h.len[b]);
    hide MappingInsert;
  }

  lemma InHandUnlisted(h: Heap, xs: set<nat>, ys: set<nat>, b: nat)
    requires Inv(h, xs, ys) && (b in xs || b !in h.free)
    ensures Unlisted(h, b)
  {
    hide ClassOf;
  }

  /** The link a free block leaves in the block after it. */
  lemma PrevLink(st: State, h: Heap, nul: nat, b: nat, xs: set<nat>)
    requires Rep(st, h, nul, {}) && Inv(h, xs, {}) && b in h.prevFree
    ensures b < |st.mem| && st.mem[b] == PrevOf(h.len, b)
  {
    FreeBefore(h, b, xs);
    hide Inv;
    hide PrevOf;
  }

  lemma LivesFit(h: Heap)
    ensures forall k :: k in Lives(h) ==> k in h.len && Lives(h)[k] <= h.len[k]
  {}

  /** Two neighbours ready to be merged: the second is free and in hand, the first in hand or used. */
  lemma AbsorbReady(h: Heap, p: nat, n: nat, xs: set<nat>)
    requires Inv(h, xs, {}) && p in h.len && h.len[p] > 0 && n == End(h.len, p) && n in h.free && n in xs
    requires p in xs || p !in h.free
    ensures Core(h) && n in h.len && h.len[n] > 0 && h.len[p] + 1 + h.len[n] < MAX_LEN
    ensures Unlisted(h, p) && Unlisted(h, n) && n !in Lives(h)
  {
    InvCore(h, xs, {});
    InHandUnlisted(h, xs, {}, p);
    InHandUnlisted(h, xs, {}, n);
    JointLength(h.len, h.pools, p, n);
    hide ClassOf;
    hide Listed;
    hide Pooled;
  }

  /** Unlisting a block and then absorbing keeps what clients see. */
  lemma UnlistAbsorbKept(m0: seq<nat>, m1: seq<nat>, m2: seq<nat>, h: Heap, u: Heap, nul: nat, xs: set<nat>, p: nat, n: nat)
    requires Kept(m0, m1, Lives(h), h.pools, nul) && Inv(u, xs, {}) && Placed(|m1|, u.len, nul)
    requires u.pools == h.pools && Lives(u) == Lives(h) && p in u.len && n in u.len && u.len[n] > 0 && n !in Lives(u)
    requires Changed(m1, m2, {p + 1, End(u.len, n)})
    ensures Kept(m0, m2, Lives(h), h.pools, nul)
  {
    LivesFit(u);
    hide Inv;
    hide Placed;
    hide Lives;
    hide Changed;
    AbsorbKept(m1, m2, u, nul, xs, Lives(u), p, n);
    KeptTrans(m0, m1, m2, Lives(h), h.pools, nul);
  }

  lemma KeptSame(m: seq<nat>, lives: map<nat, nat>, pools: map<nat, nat>, nul: nat)
    ensures Kept(m, m, lives, pools, nul)
  {}

  // ----- Searching the bitmaps

  lemma RowColumn(lists: seq<seq<nat>>, r: nat)
    requires |lists| == CLASSES && r < CLASSES
    ensures r / 32 < FL_INDEX_COUNT && r % 32 < SL_INDEX_COUNT
    ensures r / 32 * 32 + r % 32 == r && Cell(lists, r / 32, r % 32) == lists[r]
  {}

  /** List `(f, s)` is the first non-empty one from `(f0, s0)` on. */
  lemma FoundIsFirst(lists: seq<seq<nat>>, f0: nat, s0: nat, f: nat, s: nat)
    requires |lists| == CLASSES && f0 < FL_INDEX_COUNT && s0 < SL_INDEX_COUNT && f < FL_INDEX_COUNT && s < SL_INDEX_COUNT
    requires Cell(lists, f, s) != []
    requires forall g: nat, t: nat ::
               (g < FL_INDEX_COUNT && t < SL_INDEX_COUNT && f0 * 32 + s0 <= g * 32 + t < f * 32 + s) ==> Cell(lists, g, t) == []
    requires f0 * 32 + s0 <= f * 32 + s
    ensures FirstNonEmpty(lists, f0 * 32 + s0) == f * 32 + s
  {
    var r := FirstNonEmpty(lists, f0 * 32 + s0);
    if r < f * 32 + s {
      RowColumn(lists, r);
    }
  }

  lemma NoneIsLast(lists: seq<seq<nat>>, f0: nat, s0: nat)
    requires |lists| == CLASSES && f0 < FL_INDEX_COUNT && s0 < SL_INDEX_COUNT
    requires forall g: nat, t: nat ::
               (g < FL_INDEX_COUNT && t < SL_INDEX_COUNT && f0 * 32 + s0 <= g * 32 + t) ==> Cell(lists, g, t) == []
    ensures FirstNonEmpty(lists, f0 * 32 + s0) == CLASSES
  {
    var r := FirstNonEmpty(lists, f0 * 32 + s0);
    if r < CLASSES {
      RowColumn(lists, r);
    }
  }

  /** The three ways `search_suitable_block` goes through the bitmaps. */
  lemma SearchBitmaps(fl: nat, sl: seq<nat>, lists: seq<seq<nat>>, f0: nat, s0: nat)
    requires Bitmaps(fl, sl, lists) && f0 < FL_INDEX_COUNT && s0 < SL_INDEX_COUNT
    ensures var row := BitsFrom(sl[f0], s0);
            var r := FirstNonEmpty(lists, f0 * 32 + s0);
            if row != 0 then
              0 <= Ffs(row) < SL_INDEX_COUNT && r == f0 * 32 + Ffs(row) < CLASSES
            else
              var rows := BitsFrom(fl, f0 + 1);
              if rows == 0 then r == CLASSES
              else
                && 0 <= Ffs(rows) < FL_INDEX_COUNT && 0 <= Ffs(sl[Ffs(rows)]) < SL_INDEX_COUNT
                && r == Ffs(rows) * 32 + Ffs(sl[Ffs(rows)]) < CLASSES
  {
    var row := BitsFrom(sl[f0], s0);
    FirstBitFrom(sl[f0], s0);
    hide BitsFrom;
    if row != 0 {
      SearchRow(fl, sl, lists, f0, s0, Ffs(row));
    } else {
      RowExhausted(fl, sl, lists, f0, s0);
      SearchRows(fl, sl, lists, f0, s0);
    }
  }

  lemma SearchRow(fl: nat, sl: seq<nat>, lists: seq<seq<nat>>, f0: nat, s0: nat, s: int)
    requires Bitmaps(fl, sl, lists) && f0 < FL_INDEX_COUNT && s0 < SL_INDEX_COUNT
    requires s0 <= s && Bit(sl[f0], s) && forall j: nat :: s0 <= j < s ==> !Bit(sl[f0], j)
    ensures s < SL_INDEX_COUNT && FirstNonEmpty(lists, f0 * 32 + s0) == f0 * 32 + s
  {
    forall g: nat, t: nat | g < FL_INDEX_COUNT && t < SL_INDEX_COUNT && f0 * 32 + s0 <= g * 32 + t < f0 * 32 + s
      ensures Cell(lists, g, t) == []
    {
      assert g == f0 && s0 <= t < s;
      assert !Bit(sl[f0], t);
    }
    FoundIsFirst(lists, f0, s0, f0, s);
  }

  lemma RowExhausted(fl: nat, sl: seq<nat>, lists: seq<seq<nat>>, f0: nat, s0: nat)
    requires Bitmaps(fl, sl, lists) && f0 < FL_INDEX_COUNT && s0 < SL_INDEX_COUNT
    requires forall j: nat :: s0 <= j ==> !Bit(sl[f0], j)
    ensures forall t: nat :: s0 <= t < SL_INDEX_COUNT ==> Cell(lists, f0, t) == []
  {
    forall t: nat | s0 <= t < SL_INDEX_COUNT ensures Cell(lists, f0, t) == [] {
      assert !Bit(sl[f0], t);
    }
  }

  lemma SearchRows(fl: nat, sl: seq<nat>, lists: seq<seq<nat>>, f0: nat, s0: nat)
    requires Bitmaps(fl, sl, lists) && f0 < FL_INDEX_COUNT && s0 < SL_INDEX_COUNT
    requires forall t: nat :: s0 <= t < SL_INDEX_COUNT ==> Cell(lists, f0, t) == []
    ensures var rows := BitsFrom(fl, f0 + 1);
            var r := FirstNonEmpty(lists, f0 * 32 + s0);
            if rows == 0 then r == CLASSES
            else
              && 0 <= Ffs(rows) < FL_INDEX_COUNT && 0 <= Ffs(sl[Ffs(rows)]) < SL_INDEX_COUNT
              && r == Ffs(rows) * 32 + Ffs(sl[Ffs(rows)]) < CLASSES
  {
    var rows := BitsFrom(fl, f0 + 1);
    FirstBitFrom(fl, f0 + 1);
    hide BitsFrom;
    var f := if rows == 0 then FL_INDEX_COUNT else Ffs(rows);
    forall g: nat, t: nat | g < FL_INDEX_COUNT && t < SL_INDEX_COUNT && f0 * 32 + s0 <= g * 32 + t && g < f
      ensures Cell(lists, g, t) == []
    {
      if g > f0 {
        assert !Bit(fl, g);
        RowIsZero(fl, sl, lists, g);
      }
    }
    if rows == 0 {
      NoneIsLast(lists, f0, s0);
    } else {
      FirstOfRow(fl, sl, lists, f);
      FoundIsFirst(lists, f0, s0, f, Ffs(sl[f]));
    }
  }

  lemma FirstOfRow(fl: nat, sl: seq<nat>, lists: seq<seq<nat>>, f: nat)
    requires Bitmaps(fl, sl, lists) && Bit(fl, f)
    ensures f < FL_INDEX_COUNT && 0 <= Ffs(sl[f]) < SL_INDEX_COUNT && Cell(lists, f, Ffs(sl[f])) != []
    ensures forall t: nat :: t < Ffs(sl[f]) ==> Cell(lists, f, t) == []
  {
    var s: nat := Ffs(sl[f]);
    assert Bit(sl[f], s);
    forall t: nat | t < s ensures Cell(lists, f, t) == [] {
      if Bit(sl[f], t) {
        FfsLeast(sl[f], t);
      }
    }
  }

  /** The searched index, which may lie past the last row. */
  lemma SearchInRange(size: nat)
    requires 0 < size < BLOCK_SIZE_MAX
    ensures var i := MappingSearch(size);
            0 <= i.fl && 0 <= i.sl < SL_INDEX_COUNT && SearchClass(size) == i.fl * 32 + i.sl
            && (i.fl < FL_INDEX_COUNT <==> SearchClass(size) < CLASSES)
  {
    MappingInRange(if size >= SMALL_BLOCK_SIZE then RoundUp(size) else size);
    hide MappingInsert;
    hide RoundUp;
  }

  /** The head of a non-empty list is a free block of that class. */
  lemma LocatedHead(h: Heap, size: nat, f: nat, s: nat)
    requires Valid(h) && f < FL_INDEX_COUNT && s < SL_INDEX_COUNT && h.lists[f * 32 + s] != []
    ensures var b := h.lists[f * 32 + s][0];
            b > 0 && b in h.free && b in h.len && 8 * h.len[b] < WORD_LIMIT && MappingInsert(8 * h.len[b]) == Index(f, s)
  {
    var b := h.lists[f * 32 + s][0];
    assert b in h.lists[f * 32 + s];
    ClassIndex(h, {}, {}, b);
    hide MappingInsert;
    hide Inv;
  }

  lemma ChangedTrans(m0: seq<nat>, m1: seq<nat>, m2: seq<nat>, ws1: set<nat>, ws2: set<nat>, ws: set<nat>)
    requires Changed(m0, m1, ws1) && Changed(m1, m2, ws2) && ws1 + ws2 <= ws
    ensures Changed(m0, m2, ws)
  {}

  /** A block cut in two after `block_split`, before the second part's prev-free flag is corrected. */
  lemma StaleShape(h: Heap, b: nat, s: nat, stale: bool)
    requires Core(h) && CanSplit(h, b, s)
    ensures var r := b + 1 + s;
            var u := SplitStale(h, b, s, stale);
            && b in u.len && u.len[b] == s && End(u.len, b) == r && r in u.len && r in u.free && u.lists == h.lists
            && (b in u.free <==> b in h.free)
  {
    hide Cut;
    FreshPiece(h, b, s);
  }

  lemma SameLists(h: Heap, u: Heap, b: nat)
    requires u.lists == h.lists && Unlisted(h, b)
    ensures Unlisted(u, b)
  {}

  /** The words both halves of `block_split` write. */
  lemma SplitWordsChanged(m0: seq<nat>, m1: seq<nat>, m2: seq<nat>, h: Heap, b: nat, s: nat, free: bool, prevFree: bool)
    requires b in h.len && s < h.len[b] && b + s + 2 < |m0| && |m1| == |m0|
    requires forall w {:trigger m1[w]} :: 0 <= w < |m0| && w != b + 1 && w != b + s + 2 ==> m1[w] == m0[w]
    requires var u := CutStale(h, b, s, free, prevFree);
             var r := b + 1 + s;
             r in u.len && Changed(m1, m2, {End(u.len, r), End(u.len, r) + 1, r + 1})
    ensures Changed(m0, m2, SplitWords(h.len, b, s))
  {
    hide Cut;
  }

  /** What trimming the block in hand starts from. */
  lemma TrimReady(h: Heap, b: nat, xs: set<nat>)
    requires Inv(h, xs, {}) && (b in xs || b !in h.free)
    ensures Core(h) && Unlisted(h, b) && (b in h.free ==> b !in Lives(h))
  {
    InvCore(h, xs, {});
    InHandUnlisted(h, xs, {}, b);
  }

  lemma SplitChanges(m0: seq<nat>, m1: seq<nat>, m2: seq<nat>, m3: seq<nat>, b: nat, s: nat, e: nat)
    requires Changed(m0, m1, {b + s + 2, b + 1, e, e + 1})
    requires Changed(m1, m2, {b + 1 + s, b + s + 2}) && Changed(m2, m3, {b + 1 + s, b + s + 2})
    ensures Changed(m0, m3, {b + s + 2, b + 1, e, e + 1} + {b + 1 + s})
  {
    var ws := {b + s + 2, b + 1, e, e + 1} + {b + 1 + s};
    ChangedTrans(m0, m1, m2, {b + s + 2, b + 1, e, e + 1}, {b + 1 + s, b + s + 2}, ws);
    hide Changed;
    ChangedTrans(m0, m2, m3, ws, {b + 1 + s, b + s + 2}, ws);
  }

  lemma ChangedMore(m: seq<nat>, m': seq<nat>, w: nat, v: nat)
    requires Changed(m, m', {w})
    ensures Changed(m, m', {v, w})
  {}

  lemma SplitFreeHeap(h: Heap, b: nat, s: nat)
    requires InHand(h, b) && MIN_LEN <= s && CanSplit(h, b, s)
    ensures var r := b + 1 + s;
            var u := Split(h, b, s);
            && Inv(u, {b} + {r}, {}) && r in u.free && r in u.len && b in u.free && b in u.len
            && u.pools == h.pools && Lives(u) == Lives(h)
  {
    hide Inv;
    hide Lives;
    hide Split;
    InHandInside(h, b, b + 1 + s);
    SplitFacts(h, b, s);
    SplitKeeps(h, b, s, {b});
  }

  /** A free block split in two, with the flag and the link between the parts in place. */
  lemma SplitFreeDone(m0: seq<nat>, m1: seq<nat>, m2: seq<nat>, m3: seq<nat>, h: Heap, nul: nat, b: nat, s: nat)
    requires InHand(h, b) && Placed(|m0|, h.len, nul) && MIN_LEN <= s && CanSplit(h, b, s)
    requires Changed(m0, m1, SplitWords(h.len, b, s))
    requires Changed(m1, m2, {b + 1 + s, b + s + 2}) && Changed(m2, m3, {b + 1 + s, b + s + 2})
    ensures var r := b + 1 + s;
            var u := Split(h, b, s);
            && Inv(u, {b} + {r}, {}) && r in u.free && r in u.len && b in u.free && b in u.len
            && u.pools == h.pools && Lives(u) == Lives(h)
    ensures Kept(m0, m3, Lives(h), h.pools, nul)
  {
    hide Placed;
    hide Inv;
    hide Split;
    hide Lives;
    hide Changed;
    hide Kept;
    InHandFacts(h, b);
    TrimReady(h, b, {b});
    SplitFreeHeap(h, b, s);
    LivesFit(h);
    SplitChanges(m0, m1, m2, m3, b, s, End(h.len, b));
    SplitKept(m0, m3, h, nul, {b}, Lives(h), b, s);
  }

  /** Both parts of a split block, and what stays as it was. */
  lemma SplitShape(h: Heap, b: nat, s: nat)
    requires InHand(h, b) && MIN_LEN <= s && CanSplit(h, b, s)
    ensures var u := Split(h, b, s);
            && Core(u) && b in u.len && u.len[b] == s > 0 && End(u.len, b) == b + 1 + s && Unlisted(u, b)
  {
    SplitKeeps(h, b, s, {b});
    InvCore(Split(h, b, s), {b} + {b + 1 + s}, {});
    InHandUnlisted(h, {b}, {}, b);
    hide Inv;
    hide Core;
  }

  /** The block in hand after trimming, ready to be marked. */
  lemma TrimmedReady(h: Heap, u: Heap, b: nat, s: nat)
    requires InHand(h, b) && b in h.len && BLOCK_SIZE_MIN <= 8 * s && End(h.len, b) !in h.free && u == TrimFree(h, b, s)
    ensures InHand(u, b) && Core(u) && b in u.len && u.len[b] > 0 && Lives(u) == Lives(h) && u.pools == h.pools
    ensures Unlisted(MarkUsed(u, b), b)
  {
    TrimFreeKeeps(h, b, s);
    TrimReady(u, b, {b});
    InHandFacts(u, b);
    hide Inv;
    hide Lives;
    hide ClassOf;
  }

  /** Marking the block in hand used changes flags alone. */
  lemma MarkedKept(m0: seq<nat>, m1: seq<nat>, m2: seq<nat>, h: Heap, u: Heap, nul: nat, b: nat)
    requires InHand(u, b) && Placed(|m1|, u.len, nul) && Lives(u) == Lives(h) && u.pools == h.pools && b in u.len
    requires Kept(m0, m1, Lives(h), h.pools, nul) && Changed(m1, m2, {End(u.len, b) + 1, b + 1})
    ensures Kept(m0, m2, Lives(h), h.pools, nul)
  {
    hide Placed;
    hide Changed;
    hide Kept;
    InHandFacts(u, b);
    LivesFit(u);
    hide Inv;
    hide Lives;
    FlagsKept(m1, m2, u, nul, {b}, {}, Lives(u), b);
    KeptTrans(m0, m1, m2, Lives(h), h.pools, nul);
  }

  /** A used block needs no link, so an excused one is as good as any. */
  lemma RepTight(st: State, h: Heap, nul: nat, b: nat)
    requires Rep(st, h, nul, {b}) && b !in h.free
    ensures Rep(st, h, nul, {})
  {}

  /** A live block cut in two; `lives` is what its clients keep. */
  lemma SplitUsedDone(m0: seq<nat>, m1: seq<nat>, m2: seq<nat>, h: Heap, nul: nat, b: nat, s: nat)
    requires Valid(h) && Live(h, b) && Placed(|m0|, h.len, nul) && BLOCK_SIZE_MIN <= 8 * s && CanSplit(h, b, s)
    requires Changed(m0, m1, SplitWords(h.len, b, s)) && Changed(m1, m2, {b + s + 2})
    ensures var u := Split(h, b, s);
            && InHand(u, b + 1 + s) && b + 1 + s !in u.prevFree && b + 1 + s in u.len && u.len[b + 1 + s] > 0
            && u.pools == h.pools && Lives(u) == Lives(h)[b := s] && b !in u.free
    ensures Kept(m0, m2, Lives(h)[b := s], h.pools, nul)
  {
    hide Inv;
    hide Lives;
    hide Kept;
    hide Placed;
    CutUsed(h, b, s);
    InHandFacts(Split(h, b, s), b + 1 + s);
    LivesFit(h);
    ChangedTrans(m0, m1, m2, {b + s + 2, b + 1, End(h.len, b), End(h.len, b) + 1}, {b + s + 2},
                 {b + s + 2, b + 1, End(h.len, b), End(h.len, b) + 1});
    hide Changed;
    SplitKept(m0, m2, h, nul, {}, Lives(h)[b := s], b, s);
  }

  /** Merging the rest of a trimmed block with what follows keeps what clients see. */
  lemma TrimUsedReady(h: Heap, b: nat, s: nat)
    requires Valid(h) && Live(h, b) && BLOCK_SIZE_MIN <= 8 * s && CanSplit(h, b, s)
    ensures var r := b + 1 + s;
            var u := MergeNext(Split(h, b, s), r);
            && InHand(u, r) && r in u.len && Lives(u) == Lives(h)[b := s] && u.pools == h.pools
            && TrimUsed(h, b, s) == Insert(u, r)
  {
    hide Inv;
    hide Lives;
    hide Insert;
    CutUsed(h, b, s);
    MergeNextKeeps(Split(h, b, s), b + 1 + s);
  }

  lemma LiveReady(h: Heap, b: nat)
    requires Valid(h) && Live(h, b)
    ensures Core(h) && Unlisted(h, b) && b in h.len && h.len[b] > 0 && b !in h.free && End(h.len, b) in h.len && b > 0
    ensures Unlisted(MarkFree(h, b), b)
  {
    InvCore(h, {}, {});
    InHandUnlisted(h, {}, {}, b);
    LiveFacts(h, b);
    hide Inv;
    hide Core;
  }

  lemma InHandIs(h: Heap, b: nat)
    requires InHand(h, b)
    ensures Inv(h, {b}, {}) && b in h.free && b in h.len && h.len[b] > 0
  {
    InHandFacts(h, b);
  }

  /** The block a request of `size` bytes was served from, once it is in hand. */
  lemma ServedReady(h: Heap, size: nat)
    requires Valid(h) && size % 8 == 0 && Locate(h, size) != 0 && (size == 0 || BLOCK_SIZE_MIN <= size)
    ensures var b := Locate(h, size);
            var u := Unlist(h, b);
            && InHand(u, b) && b in u.len && End(u.len, b) !in u.free && b !in u.prevFree
            && BLOCK_SIZE_MIN <= size <= 8 * u.len[b] && b > 0 && Lives(u) == Lives(h) && u.pools == h.pools && u.len == h.len
  {
    hide Inv;
    hide Lives;
    hide Locate;
    hide Unlist;
    LocateFits(h, size);
    TakeKeeps(h, Locate(h, size));
  }

  lemma MallocIs(h: Heap, size: nat, u: Heap)
    requires Valid(h) && size < WORD_LIMIT
    requires var adjust := AdjustRequest(size, ALIGN_SIZE);
             var b := Locate(h, adjust);
             u == if b == 0 then h else MarkUsed(TrimFree(Unlist(h, b), b, adjust / 8), b)
    ensures var b := Locate(h, AdjustRequest(size, ALIGN_SIZE));
            Outcome(u, b) == Malloc(h, size) && AllocatedFrom(h, Outcome(u, b), AdjustRequest(size, ALIGN_SIZE))
  {
    hide Inv;
    hide Locate;
    hide Unlist;
    hide TrimFree;
    hide MarkUsed;
    hide AllocatedFrom;
    hide AdjustRequest;
    MallocLaw(h, size);
  }

  /** The gap in front of an aligned block in hand, in bytes as the code computes it. */
  lemma GapReady(h: Heap, size: nat, align: nat)
    requires Valid(h) && Addressable(h) && size < WORD_LIMIT && PowerOfTwo(align) && align < WORD_LIMIT
    requires Locate(h, AlignedRequest(size, align)) != 0
    ensures align > 0
    ensures var b := Locate(h, AlignedRequest(size, align));
            var gap := LeadingGap(8 * (b + 2), align);
            var adjust := AdjustRequest(size, ALIGN_SIZE);
            && gap % 8 == 0 && (gap != 0 ==> BLOCK_HEADER_SIZE <= gap) && BLOCK_SIZE_MIN <= adjust && adjust % 8 == 0
            && Skipped(h, b, align) == GapTaken(Unlist(h, b), b, gap)
  {
    hide Inv;
    hide Locate;
    hide AdjustRequest;
    hide AlignedRequest;
    hide LeadingGap;
    hide ClassOf;
    SkippedFits(h, align, size);
    LocatedNonZero(h, AlignedRequest(size, align));
    AlignedRequestRange(size, align);
    AdjustRange(size);
  }

  /** The words `block_trim_free_leading` gives back for a gap of so many bytes. */
  ghost function GapTaken(h: Heap, b: nat, gap: nat): nat {
    if CanSplit(h, b, gap / 8) then gap / 8 else 0
  }

  /** The heap it leaves. */
  ghost function GapListed(h: Heap, b: nat, gap: nat): Heap {
    if gap >= 8 && CanSplit(h, b, gap / 8) then ListHead(h, b, gap / 8 - 1) else h
  }

  /** What is left to do once the gap, if there is one, has been given back. */
  lemma CarvedReady(h: Heap, b: nat, gap: nat)
    requires b in h.len && b !in h.prevFree && End(h.len, b) !in h.free && gap % 8 == 0
    requires (gap != 0 ==> BLOCK_HEADER_SIZE <= gap) && InHand(h, b)
    ensures var r, u := b + GapTaken(h, b, gap), GapListed(h, b, gap);
            InHand(u, r) && r in u.len && End(u.len, r) !in u.free && Lives(u) == Lives(h) && u.pools == h.pools
  {
    hide Inv;
    hide Lives;
    hide ListHead;
    if gap != 0 && CanSplit(h, b, gap / 8) {
      ListHeadKeeps(h, b, gap / 8 - 1);
      ListHeadPools(h, b, gap / 8 - 1);
    }
  }

  lemma MemalignIs(h: Heap, align: nat, size: nat, gap: nat, u: Heap)
    requires Valid(h) && Addressable(h) && size < WORD_LIMIT && PowerOfTwo(align) && 0 < align < WORD_LIMIT
    requires var adjust := AdjustRequest(size, ALIGN_SIZE);
             var b := Locate(h, AlignedRequest(size, align));
             if b == 0 then u == h
             else
               var t := Unlist(h, b);
               var r := b + GapTaken(t, b, gap);
               && Skipped(h, b, align) == GapTaken(t, b, gap) && gap % 8 == 0
               && u == MarkUsed(TrimFree(GapListed(t, b, gap), r, adjust / 8), r)
    ensures var b := Locate(h, AlignedRequest(size, align));
            var r := if b == 0 then 0 else b + GapTaken(Unlist(h, b), b, gap);
            && Outcome(u, r) == Memalign(h, align, size) && HandedOut(h, Outcome(u, r), AdjustRequest(size, ALIGN_SIZE))
            && (align <= WORD_LIMIT / 4 ==>
                  AllocatedFrom(h, Outcome(u, r), AdjustRequest(size, ALIGN_SIZE)) && (r != 0 ==> AlignedTo(8 * (r + 2), align)))
  {
    hide Inv;
    hide Locate;
    hide Unlist;
    hide TrimFree;
    hide ListHead;
    hide MarkUsed;
    hide AllocatedFrom;
    hide HandedOut;
    hide AdjustRequest;
    hide AlignedRequest;
    hide AlignedTo;
    hide Skipped;
    hide CanSplit;
    MemalignKeeps(h, align, size);
    if align <= WORD_LIMIT / 4 {
      MemalignLaw(h, align, size);
    }
  }

  /** A block just marked free, before it is coalesced. */
  lemma FreeReady(m0: seq<nat>, m1: seq<nat>, h: Heap, nul: nat, b: nat)
    requires Valid(h) && Live(h, b) && Placed(|m0|, h.len, nul)
    requires b in h.len && Changed(m0, m1, {End(h.len, b), End(h.len, b) + 1, b + 1})
    ensures InHand(MarkFree(h, b), b) && Lives(MarkFree(h, b)) == Lives(h) - {b} && MarkFree(h, b).pools == h.pools
    ensures Kept(m0, m1, Lives(h) - {b}, h.pools, nul)
  {
    hide Inv;
    hide Lives;
    hide Kept;
    hide Placed;
    hide Changed;
    ReleaseKeeps(h, b);
    LivesFit(h);
    MarkKept(m0, m1, h, nul, {}, {}, Lives(h) - {b}, b);
  }

  lemma FreeMerged(h: Heap, b: nat)
    requires Valid(h) && Live(h, b)
    ensures var m := MergePrev(MarkFree(h, b), b);
            InHand(m.heap, m.block) && Lives(m.heap) == Lives(h) - {b} && m.heap.pools == h.pools
  {
    hide Inv;
    hide Lives;
    hide MergePrev;
    ReleaseKeeps(h, b);
    MergePrevKeeps(MarkFree(h, b), b);
    MergePools(MarkFree(h, b), b);
  }

  lemma FreeMergedTwice(h: Heap, b: nat)
    requires Valid(h) && Live(h, b)
    ensures var m := MergePrev(MarkFree(h, b), b);
            var u := MergeNext(m.heap, m.block);
            InHand(u, m.block) && Lives(u) == Lives(h) - {b} && u.pools == h.pools
  {
    hide Inv;
    hide Lives;
    hide MergePrev;
    hide MergeNext;
    FreeMerged(h, b);
    var m := MergePrev(MarkFree(h, b), b);
    MergeNextKeeps(m.heap, m.block);
    MergePools(m.heap, m.block);
  }

  // ----- Payload bytes

  /** Byte `j` of the payload at word `p`. */
  ghost function Byte(m: seq<nat>, p: nat, j: nat): nat {
    if p + j / 8 < |m| then Digit(256, m[p + j / 8], j % 8) else 0
  }

  /** The first `n` bytes at `q` in `m'` are those at `p` in `m`. */
  ghost predicate SameBytes(m: seq<nat>, p: nat, m': seq<nat>, q: nat, n: nat) {
    forall j: nat {:trigger Byte(m', q, j)} :: j < n ==> Byte(m', q, j) == Byte(m, p, j)
  }

  /** A word of a payload in use is no size word, no list link and no link to a free block. */
  lemma PayloadWrite(st: State, h: Heap, nul: nat, b: nat, w: nat, v: nat)
    requires Rep(st, h, nul, {}) && Valid(h) && Live(h, b) && b + 2 <= w <= End(h.len, b)
    ensures w < |st.mem| && Rep(st.(mem := st.mem[w := v]), h, nul, {})
    ensures Kept(st.mem, st.mem[w := v], Lives(h) - {b}, h.pools, nul)
  {
    hide Bitmaps;
    hide Kept;
    InvCore(h, {}, {});
    InHandUnlisted(h, {}, {}, b);
    InsideNoList(h, b, w);
    var m' := st.mem[w := v];
    PayloadWords(st.mem, m', h, nul, b, w, v);
    PayloadKept(st.mem, m', h, nul, b, w, v);
    hide Inv;
    hide Tiled;
    hide NoListWord;
    ListsFrame(st.mem, m', st.heads, h, nul);
    hide ListsRep;
    hide Tags;
    hide Links;
  }

  lemma PayloadWords(m: seq<nat>, m': seq<nat>, h: Heap, nul: nat, b: nat, w: nat, v: nat)
    requires Core(h) && Placed(|m|, h.len, nul) && Tags(m, h) && Links(m, h, {})
    requires Live(h, b) && b + 2 <= w <= End(h.len, b) && w < |m| && m' == m[w := v]
    ensures Tags(m', h) && Links(m', h, {})
  {
    forall k | k in h.len ensures k + 1 != w {
      assert End(h.len, k) > k;
    }
    forall k | k in h.free ensures k in h.len && End(h.len, k) != w {
      assert End(h.len, k) in h.len;
      EndsApart(h.len, k, b);
    }
  }

  lemma PayloadKept(m: seq<nat>, m': seq<nat>, h: Heap, nul: nat, b: nat, w: nat, v: nat)
    requires Valid(h) && Placed(|m|, h.len, nul) && Live(h, b) && b + 2 <= w <= End(h.len, b) && w < |m| && m' == m[w := v]
    ensures Kept(m, m', Lives(h) - {b}, h.pools, nul)
  {
    OwnHarmless(h, Lives(h) - {b}, nul, b, w);
    LivesFit(h);
    hide Inv;
    hide Lives;
    hide Placed;
    hide Harmless;
    hide Kept;
    ChangedKept(m, m', h, nul, {}, {}, Lives(h) - {b}, {w});
  }

  /** One round of a byte-wise copy. */
  lemma ByteCopied(m0: seq<nat>, p: nat, m: seq<nat>, m': seq<nat>, q: nat, i: nat)
    requires SameBytes(m0, p, m, q, i) && q + i / 8 < |m| && p + i / 8 < |m0|
    requires m' == m[q + i / 8 := WithDigit(256, m[q + i / 8], i % 8, Digit(256, m0[p + i / 8], i % 8))]
    ensures SameBytes(m0, p, m', q, i + 1)
  {
    forall j: nat | j < i + 1 ensures Byte(m', q, j) == Byte(m0, p, j) {
      WithDigitAt(256, m[q + i / 8], i % 8, Digit(256, m0[p + i / 8], i % 8), j % 8);
      assert j < i ==> Byte(m, q, j) == Byte(m0, p, j);
    }
  }

  /** Whole words kept are bytes kept. */
  lemma WordsKeepBytes(m: seq<nat>, m': seq<nat>, lives: map<nat, nat>, pools: map<nat, nat>, nul: nat, b: nat, n: nat)
    requires Kept(m, m', lives, pools, nul) && b in lives && n <= 8 * lives[b]
    ensures SameBytes(m, b + 2, m', b + 2, n)
  {
    var p := b + 2;
    forall j: nat | j < n ensures Byte(m', p, j) == Byte(m, p, j) {
      if p + j / 8 < |m| {
        assert m'[p + j / 8] == m[p + j / 8];
      }
    }
  }

  lemma SameBytesTrans(m0: seq<nat>, p: nat, m1: seq<nat>, q: nat, m2: seq<nat>, r: nat, n: nat)
    requires SameBytes(m0, p, m1, q, n) && SameBytes(m1, q, m2, r, n)
    ensures SameBytes(m0, p, m2, r, n)
  {}

  // ----- Resizing

  function Min(a: nat, b: nat): nat {
    if a < b then a else b
  }

  lemma MinLaw(a: nat, b: nat)
    ensures Min(a, b) == Min(b, a) <= a && Min(a, b) <= b
  {}

  /** A size `tlsf_realloc` can round: it is refused neither for being zero nor for being too large. */
  predicate Roundable(size: nat) {
    size < WORD_LIMIT && AdjustRequest(size, ALIGN_SIZE) != 0
  }

  /** The bytes that survive a resize of `had` bytes: no more than the request, even if its rounding has wrapped. */
  function Surviving(size: nat, had: nat): (n: nat)
    ensures n <= had && (size <= BLOCK_SIZE_MAX - 8 ==> n == if size < had then size else had)
  {
    Min(Min(size, AdjustRequest(size, ALIGN_SIZE)), had)
  }

  lemma SurvivingLaw(size: nat, had: nat)
    ensures Surviving(size, had) <= had && Surviving(size, had) <= AdjustRequest(size, ALIGN_SIZE)
    ensures size <= BLOCK_SIZE_MAX - 8 ==> Surviving(size, had) == Min(had, size)
  {
    hide AdjustRequest;
  }

  lemma RoundableIs(size: nat)
    ensures Roundable(size) <==> 0 < size <= BLOCK_SIZE_MAX - 8 || WORD_LIMIT - 8 < size < WORD_LIMIT
  {
    if 0 < size < WORD_LIMIT {
      AdjustCovers(size);
    }
  }

  /** The sizes `tlsf_realloc` compares. */
  lemma ReallocReady(h: Heap, b: nat, size: nat)
    requires Valid(h) && Live(h, b) && Roundable(size)
    ensures ALIGN_SIZE == 8
    ensures var adjust := AdjustRequest(size, ALIGN_SIZE);
            var n := End(h.len, b);
            && BLOCK_SIZE_MIN <= adjust && adjust % 8 == 0 && 0 < size < WORD_LIMIT
            && (MustMove(h, b, adjust / 8) ==> size <= BLOCK_SIZE_MAX - 8) && (size <= BLOCK_SIZE_MAX - 8 ==> size <= adjust)
            && b in h.len && h.len[b] > 0 && n in h.len && b !in h.free && b > 0
            && (MustMove(h, b, adjust / 8) <==>
                  adjust > 8 * h.len[b] && (n !in h.free || adjust > 8 * h.len[b] + 8 * h.len[n] + 8))
            && (adjust / 8 > h.len[b] <==> adjust > 8 * h.len[b])
  {
    AdjustRange(size);
    AdjustCovers(size);
    RoundableIs(size);
    if size > WORD_LIMIT - 8 {
      WrappedToMinimum(size);
    }
    LiveReady(h, b);
    assert h.len[b] >= MIN_LEN;
    hide Inv;
    hide AdjustRequest;
    hide Roundable;
    hide Core;
    hide Unlisted;
  }

  lemma WrappedToMinimum(size: nat)
    requires WORD_LIMIT - 8 < size < WORD_LIMIT
    ensures AdjustRequest(size, ALIGN_SIZE) == BLOCK_SIZE_MIN
  {}

  lemma FreshIsOther(h: Heap, b: nat, r: Outcome, adjust: nat)
    requires AllocatedFrom(h, r, adjust) && r.block != 0 && Live(h, b)
    ensures r.block != b && Live(r.heap, b) && Live(r.heap, r.block)
    ensures r.block in r.heap.len && b in r.heap.len && b in h.len && r.heap.len[b] == h.len[b] && adjust <= 8 * r.heap.len[r.block]
  {
    hide Inv;
    assert b in Lives(r.heap) && Lives(r.heap)[b] == h.len[b];
  }

  /** What is kept in three steps, each for its own set of clients, is kept for those in all three. */
  lemma KeptThrice(m0: seq<nat>, m1: seq<nat>, m2: seq<nat>, m3: seq<nat>, l1: map<nat, nat>, l2: map<nat, nat>, l3: map<nat, nat>,
                   rest: map<nat, nat>, pools: map<nat, nat>, nul: nat)
    requires Kept(m0, m1, l1, pools, nul) && Kept(m1, m2, l2, pools, nul) && Kept(m2, m3, l3, pools, nul)
    requires forall k :: k in rest ==> k in l1 && k in l2 && k in l3 && rest[k] <= l1[k] && rest[k] <= l2[k] && rest[k] <= l3[k]
    ensures Kept(m0, m3, rest, pools, nul)
  {
    hide Kept;
    KeptFewer(m0, m1, l1, rest, pools, nul);
    KeptFewer(m1, m2, l2, rest, pools, nul);
    KeptFewer(m2, m3, l3, rest, pools, nul);
    KeptTrans(m0, m1, m2, rest, pools, nul);
    KeptTrans(m0, m2, m3, rest, pools, nul);
  }

  lemma LiveEntry(h: Heap, b: nat)
    ensures b in Lives(h) <==> Live(h, b)
    ensures Live(h, b) ==> Lives(h)[b] == h.len[b]
  {}

  /** The moved block: the words of `m3` after allocating, copying and freeing. */
  lemma MovedKept(m0: seq<nat>, m1: seq<nat>, m2: seq<nat>, m3: seq<nat>, h: Heap, u: Heap, nul: nat, b: nat, r: nat, n: nat)
    requires Kept(m0, m1, Lives(h), h.pools, nul) && Kept(m1, m2, Lives(u) - {r}, h.pools, nul)
    requires Kept(m2, m3, Lives(u) - {b}, h.pools, nul) && SameBytes(m1, b + 2, m2, r + 2, n)
    requires Live(h, b) && Live(u, r) && b != r && r !in Lives(h) && Lives(u) == Lives(h)[r := u.len[r]]
    requires n <= 8 * h.len[b] && n <= 8 * u.len[r]
    ensures Kept(m0, m3, Lives(h) - {b}, h.pools, nul) && SameBytes(m0, b + 2, m3, r + 2, n)
  {
    hide Lives;
    hide Kept;
    hide SameBytes;
    LiveEntry(h, b);
    LiveEntry(u, r);
    WordsKeepBytes(m0, m1, Lives(h), h.pools, nul, b, n);
    WordsKeepBytes(m2, m3, Lives(u) - {b}, h.pools, nul, r, n);
    SameBytesTrans(m0, b + 2, m1, b + 2, m2, r + 2, n);
    SameBytesTrans(m0, b + 2, m2, r + 2, m3, r + 2, n);
    KeptThrice(m0, m1, m2, m3, Lives(h), Lives(u) - {r}, Lives(u) - {b}, Lives(h) - {b}, h.pools, nul);
  }

  lemma MarkUsedShape(h: Heap, b: nat)
    ensures MarkUsed(h, b).len == h.len && MarkUsed(h, b).pools == h.pools
  {}

  /** A live block that has grown leaves room for what every client had. */
  lemma LivesGrown(h: Heap, u: Heap, b: nat)
    requires Live(h, b) && b in u.len && Lives(u) == Lives(h)[b := u.len[b]] && h.len[b] <= u.len[b]
    ensures forall k :: k in Lives(h) ==> k in u.len && Lives(h)[k] <= u.len[k]
  {
    LivesFit(u);
    assert Lives(h)[b] == h.len[b];
    forall k | k in Lives(h) ensures k in u.len && Lives(h)[k] <= u.len[k] {
      assert k in Lives(u) && (k != b ==> Lives(u)[k] == Lives(h)[k]);
    }
    hide Lives;
  }

  /** A live block that has taken over the free block after it. */
  lemma GrownReady(h: Heap, b: nat)
    requires Valid(h) && Live(h, b) && b in h.len && End(h.len, b) in h.free
    ensures var u := MergeNext(h, b);
            && Core(u) && Inv(u, {}, {b}) && b in u.len && u.len[b] > 0 && u.pools == h.pools
            && Valid(MarkUsed(u, b)) && Live(MarkUsed(u, b), b) && MarkUsed(u, b).pools == h.pools
            && (forall k :: k in Lives(h) ==> k in u.len && Lives(h)[k] <= u.len[k])
            && MarkUsed(u, b).len == u.len
            && Lives(MarkUsed(u, b)) == Lives(h)[b := u.len[b]] && u.len[b] >= h.len[b]
            && End(h.len, b) in h.len && u.len[b] == h.len[b] + 1 + h.len[End(h.len, b)]
  {
    hide *;
    ExtendKeeps(h, b);
    GrowKeeps(h, b);
    MergePools(h, b);
    var u := MergeNext(h, b);
    InvCore(u, {}, {b});
    MarkUsedShape(u, b);
    LivesGrown(h, u, b);
    LiveFacts(h, b);
  }

  lemma GrownKept(m0: seq<nat>, m1: seq<nat>, m2: seq<nat>, h: Heap, u: Heap, nul: nat, b: nat)
    requires Kept(m0, m1, Lives(h), h.pools, nul) && Inv(u, {}, {b}) && Placed(|m1|, u.len, nul)
    requires u.pools == h.pools && b in u.len && u.len[b] > 0
    requires forall k :: k in Lives(h) ==> k in u.len && Lives(h)[k] <= u.len[k]
    requires Changed(m1, m2, {End(u.len, b) + 1, b + 1})
    ensures Kept(m0, m2, Lives(h), h.pools, nul)
  {
    hide Inv;
    hide Placed;
    hide Lives;
    hide Changed;
    hide Kept;
    FlagsKept(m1, m2, u, nul, {}, {b}, Lives(h), b);
    KeptTrans(m0, m1, m2, Lives(h), h.pools, nul);
  }

  /** A block resized where it stands: the words of `m2` after growing, if need be, and trimming. */
  lemma ResizedKept(m0: seq<nat>, m1: seq<nat>, m2: seq<nat>, h: Heap, g: Heap, nul: nat, b: nat, s: nat, n: nat)
    requires Kept(m0, m1, Lives(h), h.pools, nul) && Live(h, b) && b in g.len
    requires Lives(g) == Lives(h)[b := g.len[b]] && h.len[b] <= g.len[b]
    requires Kept(m1, m2, if CanSplit(g, b, s) then Lives(g)[b := s] else Lives(g), h.pools, nul)
    requires n <= 8 * h.len[b] && n <= 8 * s
    ensures Kept(m0, m2, Lives(h) - {b}, h.pools, nul) && SameBytes(m0, b + 2, m2, b + 2, n)
  {
    var lives := if CanSplit(g, b, s) then Lives(g)[b := s] else Lives(g);
    assert b in Lives(h) && Lives(h)[b] == h.len[b];
    WordsKeepBytes(m0, m1, Lives(h), h.pools, nul, b, n);
    WordsKeepBytes(m1, m2, lives, h.pools, nul, b, n);
    SameBytesTrans(m0, b + 2, m1, b + 2, m2, b + 2, n);
    var rest := Lives(h) - {b};
    assert forall k :: k in rest ==> k in Lives(h) && k in lives && lives[k] == rest[k];
    hide Lives;
    hide Kept;
    KeptFewer(m0, m1, Lives(h), rest, h.pools, nul);
    KeptFewer(m1, m2, lives, rest, h.pools, nul);
    KeptTrans(m0, m1, m2, rest, h.pools, nul);
  }

  // ----- Setting up, adding and removing pools

  lemma EmptyRep(st: State, nul: nat)
    requires 0 < nul && nul + 4 <= |st.mem| && |st.heads| == CLASSES && |st.sl| == FL_INDEX_COUNT && st.fl == 0
    requires forall c :: 0 <= c < CLASSES ==> st.heads[c] == nul
    requires forall f :: 0 <= f < FL_INDEX_COUNT ==> st.sl[f] == 0
    ensures Rep(st, NoPools(), nul, {})
  {
    ZeroIffNoBits(0);
    assert forall f: nat, s: nat {:trigger Bit(st.sl[f], s)} :: f < FL_INDEX_COUNT ==> !Bit(st.sl[f], s);
  }

  /** The three words `tlsf_add_pool` writes to lay out a pool. */
  ghost function PoolWords(m: seq<nat>, b: nat, len: nat): seq<nat>
    requires b + len + 2 < |m|
  {
    m[b + 1 := Tag(len, true, false)][b + 1 + len := b][b + len + 2 := Tag(0, false, true)]
  }

  /** Room for a pool: inside memory, clear of the null block and of every other pool. */
  ghost predicate PoolFits(size: nat, h: Heap, nul: nat, b: nat, len: nat) {
    && b > 0 && MIN_LEN <= len < MAX_LEN && b + len + 2 < size
    && (b + len + 2 < nul || nul + 3 <= b) && Unclaimed(h.pools, b, b + 1 + len)
  }

  /** The blocks of a laid-out pool next to those of the others. */
  lemma PoolBlocks(h: Heap, b: nat, len: nat)
    requires Valid(h) && b > 0 && MIN_LEN <= len < MAX_LEN && Unclaimed(h.pools, b, b + 1 + len)
    ensures var u := WithPool(h, b, len);
            var e := b + 1 + len;
            && u.len.Keys == h.len.Keys + {b, e} && b in u.len && u.len[b] == len && e in u.len && u.len[e] == 0
            && b !in h.len && e !in h.len && b !in h.free && e !in h.free && b !in h.prevFree && e !in h.prevFree
    ensures forall k {:trigger End(WithPool(h, b, len).len, k)} {:trigger k in h.len} :: k in h.len ==>
              && k in WithPool(h, b, len).len && WithPool(h, b, len).len[k] == h.len[k]
              && End(WithPool(h, b, len).len, k) == End(h.len, k)
              && (if k < b then End(h.len, k) <= b else b + 1 + len < k)
              && (h.len[k] > 0 ==> End(h.len, k) != b && End(h.len, k) != b + 1 + len && End(h.len, k) in h.len)
  {
    NewBlocksAreClear(h, b, len);
    var u := WithPool(h, b, len);
    AddEnds(h.len, u.len, b, len);
    InvCore(h, {}, {});
    hide Inv;
    forall k | k in h.len
      ensures k in u.len && u.len[k] == h.len[k] && End(u.len, k) == End(h.len, k)
      ensures if k < b then End(h.len, k) <= b else b + 1 + len < k
      ensures h.len[k] > 0 ==> End(h.len, k) != b && End(h.len, k) != b + 1 + len && End(h.len, k) in h.len
    {
      assert End(h.len, k) >= 0;
    }
  }

  lemma PoolTags(m: seq<nat>, h: Heap, nul: nat, b: nat, len: nat)
    requires Valid(h) && PoolFits(|m|, h, nul, b, len) && Tags(m, h)
    ensures Tags(PoolWords(m, b, len), WithPool(h, b, len))
  {
    hide Inv;
    hide Unclaimed;
    hide Tag;
    PoolBlocks(h, b, len);
    var u := WithPool(h, b, len);
    var m' := PoolWords(m, b, len);
    forall k | k in u.len ensures k + 1 < |m'| && m'[k + 1] == TagOf(u, k) {
      if k != b && k != b + 1 + len {
        assert k in h.len;
      }
    }
  }

  lemma PoolLinks(m: seq<nat>, h: Heap, nul: nat, b: nat, len: nat)
    requires Valid(h) && PoolFits(|m|, h, nul, b, len) && Links(m, h, {}) && FlagsOfBlocks(h.len, h.free, h.prevFree)
    requires Placed(|m|, h.len, nul)
    ensures Links(PoolWords(m, b, len), WithPool(h, b, len), {}) && Placed(|m|, WithPool(h, b, len).len, nul)
  {
    hide Inv;
    hide Unclaimed;
    hide Tag;
    PoolBlocks(h, b, len);
    var u := WithPool(h, b, len);
    var m' := PoolWords(m, b, len);
    forall k | k in u.free && k in u.len ensures End(u.len, k) < |m'| && m'[End(u.len, k)] == k {
      if k != b {
        assert k in h.free && k in h.len;
        assert End(h.len, k) in h.len;
      }
    }
  }

  lemma PoolNoList(h: Heap, b: nat, len: nat, w: nat)
    requires Valid(h) && b > 0 && MIN_LEN <= len < MAX_LEN && Unclaimed(h.pools, b, b + 1 + len) && b < w <= b + len + 2
    ensures |h.lists| == CLASSES && NoListWord(h, w)
  {
    NewBlocksAreClear(h, b, len);
    InvCore(h, {}, {});
    hide Inv;
    forall c, x | 0 <= c < CLASSES && x in h.lists[c] ensures w != x + 2 && w != x + 3 {
      assert x in h.free;
      assert End(h.len, x) >= x + 4;
    }
  }

  lemma PoolPayloads(m: seq<nat>, h: Heap, nul: nat, b: nat, len: nat)
    requires Valid(h) && PoolFits(|m|, h, nul, b, len)
    ensures PayloadsKept(m, PoolWords(m, b, len), Lives(h))
  {
    PoolWordsAre(m, b, len);
    NewBlocksAreClear(h, b, len);
    LivesFit(h);
    hide Inv;
    hide Lives;
    hide PoolWords;
    var m' := PoolWords(m, b, len);
    forall k, w | k in Lives(h) && k + 2 <= w <= k + 1 + Lives(h)[k] && w < |m| ensures m'[w] == m[w] {
      assert End(h.len, k) >= w;
    }
  }

  lemma PoolOutside(m: seq<nat>, h: Heap, nul: nat, b: nat, len: nat)
    requires PoolFits(|m|, h, nul, b, len)
    ensures OutsideKept(m, PoolWords(m, b, len), WithPool(h, b, len).pools, nul)
  {
    PoolWordsAre(m, b, len);
    hide PoolWords;
    var m', pools := PoolWords(m, b, len), h.pools[b := b + 1 + len];
    forall w | 0 <= w < |m| && m'[w] != m[w] ensures PoolWord(pools, w) {
      assert b in pools && b < w <= pools[b] + 1;
    }
  }

  lemma PoolKept(m: seq<nat>, h: Heap, nul: nat, b: nat, len: nat)
    requires Valid(h) && PoolFits(|m|, h, nul, b, len)
    ensures Kept(m, PoolWords(m, b, len), Lives(h), WithPool(h, b, len).pools, nul)
  {
    hide *;
    PoolFitsIs(|m|, h, nul, b, len);
    PoolWordsAre(m, b, len);
    PoolPayloads(m, h, nul, b, len);
    PoolOutside(m, h, nul, b, len);
    KeptFrom(m, PoolWords(m, b, len), Lives(h), WithPool(h, b, len).pools, nul);
  }

  lemma PoolFitsIs(size: nat, h: Heap, nul: nat, b: nat, len: nat)
    requires PoolFits(size, h, nul, b, len)
    ensures b > 0 && 0 < MIN_LEN <= len < MAX_LEN && b + len + 2 < size && Unclaimed(h.pools, b, b + 1 + len)
    ensures WithPool(h, b, len).lists == h.lists
  {}

  lemma PoolWordsAre(m: seq<nat>, b: nat, len: nat)
    requires b + len + 2 < |m|
    ensures var m' := PoolWords(m, b, len);
            |m'| == |m| && forall w {:trigger m'[w]} :: 0 <= w < |m| && m'[w] != m[w] ==> w == b + 1 || w == b + 1 + len || w == b + len + 2
  {
    hide Tag;
  }

  /** A laid-out pool is one more free block, in hand, with its sentinel. */
  lemma PoolRep(st: State, h: Heap, nul: nat, b: nat, len: nat)
    requires Rep(st, h, nul, {}) && Valid(h) && PoolFits(|st.mem|, h, nul, b, len)
    ensures Rep(st.(mem := PoolWords(st.mem, b, len)), WithPool(h, b, len), nul, {})
    ensures Kept(st.mem, PoolWords(st.mem, b, len), Lives(h), WithPool(h, b, len).pools, nul)
  {
    hide *;
    RepParts(st, h, nul, {});
    ValidIs(h);
    InvParts(h, {}, {});
    PoolFitsIs(|st.mem|, h, nul, b, len);
    PoolTags(st.mem, h, nul, b, len);
    PoolLinks(st.mem, h, nul, b, len);
    PoolKept(st.mem, h, nul, b, len);
    PoolNoList(h, b, len, b + 1);
    PoolNoList(h, b, len, b + 1 + len);
    PoolNoList(h, b, len, b + len + 2);
    PoolWordsAre(st.mem, b, len);
    ListsFrame(st.mem, PoolWords(st.mem, b, len), st.heads, h, nul);
    RepFrom(st.(mem := PoolWords(st.mem, b, len)), WithPool(h, b, len), nul, {});
  }

  /** A pool taken out of the heap leaves its words behind. */
  lemma RemovePoolRep(st: State, h: Heap, nul: nat, p: nat)
    requires Rep(st, Unlist(h, p), nul, {}) && Valid(h) && p in h.pools && p in h.free && p in h.len && End(h.len, p) == h.pools[p]
    ensures Rep(st, RemovePool(h, p), nul, {})
  {
    UnlistLives(h, p);
    var u, r := Unlist(h, p), RemovePool(h, p);
    PoolDrops(h.len, h.pools, p);
    DropEnds(h.len, r.len, p, h.pools[p]);
    hide Unlist;
    hide ListsRep;
    hide Bitmaps;
    hide Tag;
    hide Inv;
    hide Tiled;
  }

  // ----- What the consistency check reads

  lemma CheckedBits(fl: nat, sl: seq<nat>, lists: seq<seq<nat>>, i: nat, j: nat)
    requires Bitmaps(fl, sl, lists) && i < FL_INDEX_COUNT && j < SL_INDEX_COUNT
    ensures Bit(sl[i], j) <==> lists[i * 32 + j] != []
    ensures Bit(sl[i], j) ==> Bit(fl, i) && sl[i] != 0
  {
    assert Cell(lists, i, j) == lists[i * 32 + j];
    ZeroIffNoBits(sl[i]);
  }

  lemma CheckedHead(m: seq<nat>, heads: seq<nat>, lists: seq<seq<nat>>, nul: nat, c: nat)
    requires ListsRep(m, heads, lists, nul) && c < CLASSES
    ensures heads[c] == At(lists[c], 0, nul)
  {}

  lemma CellInRange(i: nat, j: nat)
    requires i < FL_INDEX_COUNT && j < SL_INDEX_COUNT
    ensures i * 32 + j < CLASSES
  {}

  lemma ListedBlock(h: Heap, i: nat, j: nat, k: nat)
    requires Valid(h) && i < FL_INDEX_COUNT && j < SL_INDEX_COUNT && |h.lists| == CLASSES && k < |h.lists[i * 32 + j]|
    ensures var b := h.lists[i * 32 + j][k];
            && b in h.free && b in h.len && b !in h.prevFree && h.len[b] >= MIN_LEN
            && End(h.len, b) in h.len && End(h.len, b) !in h.free && End(h.len, b) in h.prevFree
            && 8 * h.len[b] < WORD_LIMIT && MappingInsert(8 * h.len[b]) == Index(i, j)
  {
    var b := h.lists[i * 32 + j][k];
    assert b in h.lists[i * 32 + j];
    ClassIndex(h, {}, {}, b);
    NeighboursUsed(h, b, {});
    hide ClassOf;
    hide MappingInsert;
    hide Listed;
  }
}
