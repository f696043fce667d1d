/**
 The abstract heap: the blocks that tile the pools, with their two flags, and one list of free
 blocks per size class. Addresses and lengths count 8-byte words. A block at `b` owns the words
 after `b` up to and including `End(b)`: its size word `b + 1` and its payload. The word `End(b)`
 doubles as the next block's link to its predecessor.
 */
module TlsfHeap {
  import opened Sequences
  import opened TlsfMapping

  /** Payload length of every block. */
  type Tiles = map<nat, nat>

  datatype Heap = Heap(len: Tiles, free: set<nat>, prevFree: set<nat>, lists: seq<seq<nat>>, pools: map<nat, nat>)

  /** Lengths stay below `BLOCK_SIZE_MAX` bytes. */
  const MAX_LEN: nat := 0x2000_0000
  const MIN_LEN: nat := 3
  const HEADER_LEN: nat := 4

  /** Class of a block of `len` words. */
  function ClassOf(len: nat): (c: nat)
    ensures c < CLASSES
  {
    if len < MAX_LEN then
      MappingInRange(8 * len);
      Class(8 * len)
    else
      0
  }

  ghost function End(t: Tiles, b: nat): nat
    requires b in t
  {
    b + 1 + t[b]
  }

  // ----- The invariant, one view of the memory at a time

  /** Blocks do not overlap and each ends where the next one starts; length zero marks a sentinel. */
  ghost predicate Tiled(t: Tiles) {
    && (forall b, c {:trigger End(t, b), c in t} :: b in t && c in t && b < c ==> End(t, b) <= c)
    && (forall b {:trigger End(t, b)} :: b in t && t[b] > 0 ==> End(t, b) in t)
    && (forall b {:trigger t[b]} :: b in t ==> b > 0 && (t[b] == 0 || MIN_LEN <= t[b] < MAX_LEN))
  }

  /** Flags belong to blocks, and only proper blocks are ever free. */
  ghost predicate FlagsOfBlocks(t: Tiles, free: set<nat>, prevFree: set<nat>) {
    && (forall b :: b in free ==> b in t && t[b] > 0)
    && (forall b :: b in prevFree ==> b in t)
  }

  /** Every prev-free flag agrees with the block before it, except after the blocks in `ys`. */
  ghost predicate Flagged(t: Tiles, free: set<nat>, prevFree: set<nat>, ys: set<nat>) {
    forall b {:trigger End(t, b)} :: b in t && t[b] > 0 && b !in ys ==> (End(t, b) in prevFree <==> b in free)
  }

  /** No two free blocks are adjacent, unless one of them is in hand (in `xs`). */
  ghost predicate Coalesced(t: Tiles, free: set<nat>, xs: set<nat>) {
    forall b {:trigger End(t, b)} :: b in t && b in free && End(t, b) in free ==> b in xs || End(t, b) in xs
  }

  /** Block `b` lies in some pool. */
  ghost predicate InPool(pools: map<nat, nat>, b: nat) {
    exists p :: p in pools && p <= b <= pools[p]
  }

  /** Each pool runs from a first block to a sentinel with no sentinel in between; pools are apart. */
  ghost predicate Pooled(t: Tiles, pools: map<nat, nat>) {
    && (forall p :: p in pools ==> p < pools[p] <= p + MAX_LEN && p in t && pools[p] in t && t[pools[p]] == 0)
    && (forall p, b :: p in pools && b in t && p <= b < pools[p] ==> t[b] > 0)
    && (forall p, q :: p in pools && q in pools && p < q ==> pools[p] < q)
    && (forall b {:trigger InPool(pools, b)} :: b in t ==> InPool(pools, b))
  }

  /** The lists hold exactly the free blocks that are not in hand, each once, in the list of its class. */
  ghost predicate Listed(t: Tiles, free: set<nat>, lists: seq<seq<nat>>, xs: set<nat>) {
    && |lists| == CLASSES
    && (forall c, b :: 0 <= c < CLASSES && b in lists[c] ==>
          b in free && b !in xs && b in t && ClassOf(t[b]) == c)
    && (forall c :: 0 <= c < CLASSES ==> NoDuplicates(lists[c]))
    && (forall b :: b in free && b !in xs && b in t ==> b in lists[ClassOf(t[b])])
  }

  /** Some block ends at `c`. */
  ghost predicate Follows(t: Tiles, c: nat) {
    exists p {:trigger End(t, p)} :: p in t && t[p] > 0 && End(t, p) == c
  }

  /** Only a block with a predecessor is marked prev-free. */
  ghost predicate Linked(t: Tiles, prevFree: set<nat>) {
    forall c {:trigger Follows(t, c)} :: c in prevFree ==> Follows(t, c)
  }

  ghost predicate Inv(h: Heap, xs: set<nat>, ys: set<nat>) {
    && Tiled(h.len)
    && FlagsOfBlocks(h.len, h.free, h.prevFree)
    && Flagged(h.len, h.free, h.prevFree, ys)
    && Coalesced(h.len, h.free, xs)
    && Pooled(h.len, h.pools)
    && Linked(h.len, h.prevFree)
    && Listed(h.len, h.free, h.lists, xs)
  }

  /** The invariant between calls: nothing in hand. */
  ghost predicate Valid(h: Heap) {
    Inv(h, {}, {})
  }

  lemma InvParts(h: Heap, xs: set<nat>, ys: set<nat>)
    requires Inv(h, xs, ys)
    ensures Tiled(h.len) && FlagsOfBlocks(h.len, h.free, h.prevFree) && Flagged(h.len, h.free, h.prevFree, ys)
    ensures Coalesced(h.len, h.free, xs) && Pooled(h.len, h.pools) && Linked(h.len, h.prevFree)
    ensures Listed(h.len, h.free, h.lists, xs) && |h.lists| == CLASSES
  {
    hide ClassOf;
    hide NoDuplicates;
  }

  lemma InvFrom(h: Heap, xs: set<nat>, ys: set<nat>)
    requires Tiled(h.len) && FlagsOfBlocks(h.len, h.free, h.prevFree) && Flagged(h.len, h.free, h.prevFree, ys)
    requires Coalesced(h.len, h.free, xs) && Pooled(h.len, h.pools) && Linked(h.len, h.prevFree)
    requires Listed(h.len, h.free, h.lists, xs)
    ensures Inv(h, xs, ys)
  {}

  lemma ValidIs(h: Heap)
    requires Valid(h)
    ensures Inv(h, {}, {})
  {}

  // ----- Primitive steps, total on all heaps and meaningful on those that satisfy the invariant

  ghost function MarkFree(h: Heap, b: nat): Heap {
    if b in h.len then
      h.(free := h.free + {b}, prevFree := h.prevFree + {End(h.len, b)})
    else h
  }

  ghost function MarkUsed(h: Heap, b: nat): Heap {
    if b in h.len then
      h.(free := h.free - {b}, prevFree := h.prevFree - {End(h.len, b)})
    else h
  }

  ghost function Join(t: Tiles, p: nat, n: nat): (u: Tiles)
    requires p in t && n in t && p != n
    ensures Joined(t, u, p, n)
  {
    (t - {n})[p := t[p] + 1 + t[n]]
  }

  ghost predicate Joined(t: Tiles, u: Tiles, p: nat, n: nat)
    requires p in t && n in t
  {
    && u.Keys == t.Keys - {n}
    && p in u && u[p] == t[p] + 1 + t[n]
    && (forall k {:trigger u[k]} :: k in u && k != p ==> u[k] == t[k])
  }

  ghost function Cut(t: Tiles, b: nat, s: nat): (u: Tiles)
    requires b in t && s < t[b]
    ensures IsCut(t, u, b, s)
  {
    t[b := s][b + 1 + s := t[b] - s - 1]
  }

  ghost predicate IsCut(t: Tiles, u: Tiles, b: nat, s: nat)
    requires b in t
  {
    var r := b + 1 + s;
    && u.Keys == t.Keys + {r}
    && b in u && u[b] == s && r in u && u[r] == t[b] - s - 1
    && (forall k {:trigger u[k]} :: k in t && k != b && k != r ==> u[k] == t[k])
  }

  /** `p` takes over the storage of its successor `n`. */
  ghost function Absorb(h: Heap, p: nat, n: nat): Heap {
    if p in h.len && n in h.len && p != n then
      h.(len := Join(h.len, p, n), free := h.free - {n}, prevFree := h.prevFree - {n})
    else h
  }

  /** Cut `b` after `s` payload words; the rest becomes a free block. */
  ghost function Split(h: Heap, b: nat, s: nat): Heap {
    if b in h.len && s < h.len[b] then
      var r := b + 1 + s;
      h.(len := Cut(h.len, b, s),
         free := h.free + {r},
         prevFree := h.prevFree + {End(h.len, b)} + if b in h.free then {r} else {})
    else h
  }

  function Remove(s: seq<nat>, b: nat): seq<nat> {
    if s == [] then [] else if s[0] == b then s[1..] else [s[0]] + Remove(s[1..], b)
  }

  ghost function Unlist(h: Heap, b: nat): Heap {
    if |h.lists| == CLASSES && b in h.len then
      var c := ClassOf(h.len[b]);
      h.(lists := h.lists[c := Remove(h.lists[c], b)])
    else h
  }

  ghost function Insert(h: Heap, b: nat): Heap {
    if |h.lists| == CLASSES && b in h.len then
      var c := ClassOf(h.len[b]);
      h.(lists := h.lists[c := [b] + h.lists[c]])
    else h
  }

  // ----- What the primitive steps keep

  /** A block and its successor, and no other pair, meet at `End(t, b)`. */
  lemma EndsApart(t: Tiles, a: nat, b: nat)
    requires Tiled(t) && a in t && b in t && a != b && t[b] > 0
    ensures End(t, a) != End(t, b)
  {}

  lemma MarkFreeFlags(t: Tiles, free: set<nat>, pf: set<nat>, b: nat)
    requires Tiled(t) && b in t && t[b] > 0 && Flagged(t, free, pf, {b})
    ensures Flagged(t, free + {b}, pf + {End(t, b)}, {})
  {
    forall k | k in t && k != b ensures End(t, k) != End(t, b) {
      EndsApart(t, k, b);
    }
  }

  lemma MarkUsedFlags(t: Tiles, free: set<nat>, pf: set<nat>, b: nat)
    requires Tiled(t) && b in t && t[b] > 0 && Flagged(t, free, pf, {b})
    ensures Flagged(t, free - {b}, pf - {End(t, b)}, {})
  {
    forall k | k in t && k != b ensures End(t, k) != End(t, b) {
      EndsApart(t, k, b);
    }
  }

  /** A proper block ends within its pool. */
  lemma EndInPool(t: Tiles, pools: map<nat, nat>, b: nat) returns (p: nat)
    requires Tiled(t) && Pooled(t, pools) && b in t && t[b] > 0
    ensures p in pools && p <= b < End(t, b) <= pools[p]
  {
    assert InPool(pools, b);
    p :| p in pools && p <= b <= pools[p];
  }

  /** The end of a proper block is never the start of a pool. */
  lemma EndIsNoStart(t: Tiles, pools: map<nat, nat>, b: nat)
    requires Tiled(t) && Pooled(t, pools) && b in t && t[b] > 0
    ensures End(t, b) !in pools
  {
    var p := EndInPool(t, pools, b);
  }

  lemma MarkFreeKeeps(h: Heap, b: nat, xs: set<nat>)
    requires Inv(h, xs, {}) && b in h.len && h.len[b] > 0 && b !in h.free
    ensures Inv(MarkFree(h, b), xs + {b}, {})
  {
    hide ClassOf;
    assert Flagged(h.len, h.free, h.prevFree, {b});
    assert Follows(h.len, End(h.len, b));
    MarkFreeFlags(h.len, h.free, h.prevFree, b);
    hide Tiled;
    hide Pooled;
    hide Flagged;
    hide Follows;
    hide NoDuplicates;
  }

  lemma MarkUsedKeeps(h: Heap, b: nat, xs: set<nat>)
    requires Inv(h, xs, {b}) && b in h.len && h.len[b] > 0 && (b in xs || b !in h.free)
    ensures Inv(MarkUsed(h, b), xs - {b}, {})
  {
    hide ClassOf;
    MarkUsedFlags(h.len, h.free, h.prevFree, b);
    hide Tiled;
    hide Pooled;
    hide Flagged;
    hide Follows;
    hide NoDuplicates;
  }

  /** `p` and its successor `n` become one block in `u`. */
  ghost predicate Joins(t: Tiles, u: Tiles, p: nat, n: nat) {
    && Tiled(t) && p in t && t[p] > 0 && n == End(t, p) && n in t && t[n] > 0
    && t[p] + 1 + t[n] < MAX_LEN
    && Joined(t, u, p, n)
  }

  lemma JoinEnds(t: Tiles, u: Tiles, p: nat, n: nat)
    requires Joins(t, u, p, n)
    ensures End(u, p) == End(t, n) && End(t, n) in u
    ensures forall k {:trigger End(u, k)} {:trigger End(t, k)} ::
              k in u && k != p ==> End(u, k) == End(t, k) && End(t, k) != n
  {
    forall k | k in u && k != p ensures End(u, k) == End(t, k) && End(t, k) != n {
      EndsApart(t, k, p);
    }
  }

  lemma JoinTiled(t: Tiles, u: Tiles, p: nat, n: nat)
    requires Joins(t, u, p, n)
    ensures Tiled(u)
  {
    JoinEnds(t, u, p, n);
    assert forall k {:trigger End(u, k)} :: k in u && u[k] > 0 ==> End(u, k) in t && End(u, k) in u;
  }

  lemma JoinFlags(t: Tiles, u: Tiles, p: nat, n: nat, free: set<nat>, pf: set<nat>)
    requires Joins(t, u, p, n) && Flagged(t, free, pf, {}) && n in free
    ensures Flagged(u, free - {n}, pf - {n}, if p in free then {} else {p})
  {
    JoinEnds(t, u, p, n);
  }

  lemma JoinLinked(t: Tiles, u: Tiles, p: nat, n: nat, pf: set<nat>)
    requires Joins(t, u, p, n) && Linked(t, pf)
    ensures Linked(u, pf - {n})
  {
    JoinEnds(t, u, p, n);
    forall c | c in pf - {n} ensures Follows(u, c) {
      assert Follows(t, c);
      var k :| k in t && t[k] > 0 && End(t, k) == c;
      assert End(u, if k == n then p else k) == c;
    }
  }

  lemma JoinCoalesced(t: Tiles, u: Tiles, p: nat, n: nat, free: set<nat>, xs: set<nat>)
    requires Joins(t, u, p, n) && Coalesced(t, free, xs) && (p in xs || p !in free)
    ensures Coalesced(u, free - {n}, xs - {n})
  {
    JoinEnds(t, u, p, n);
  }

  /** A pool runs from a block to the next sentinel. */
  ghost predicate OnePool(t: Tiles, q: nat, e: nat) {
    && q < e <= q + MAX_LEN && q in t && e in t && t[e] == 0
    && forall b: nat :: b in t && q <= b < e ==> t[b] > 0
  }

  lemma PooledFrom(t: Tiles, pools: map<nat, nat>)
    requires forall q {:trigger q in pools} :: q in pools ==> OnePool(t, q, pools[q])
    requires forall q, r :: q in pools && r in pools && q < r ==> pools[q] < r
    requires forall b {:trigger InPool(pools, b)} :: b in t ==> InPool(pools, b)
    ensures Pooled(t, pools)
  {
    hide InPool;
  }

  lemma PooledIs(t: Tiles, pools: map<nat, nat>, q: nat)
    requires Pooled(t, pools) && q in pools
    ensures OnePool(t, q, pools[q])
  {
    hide InPool;
  }

  lemma PoolsInOrder(t: Tiles, pools: map<nat, nat>)
    requires Pooled(t, pools)
    ensures forall q, r :: q in pools && r in pools && q < r ==> pools[q] < r
    ensures forall b {:trigger InPool(pools, b)} :: b in t ==> InPool(pools, b)
  {}

  lemma JoinKeys(t: Tiles, u: Tiles, p: nat, n: nat)
    requires Joins(t, u, p, n)
    ensures Tiled(t) && p in t && t[p] > 0 && n == End(t, p) && n in t && t[n] > 0
    ensures u.Keys == t.Keys - {n} && forall k {:trigger k in u} :: k in u ==> k in t && (t[k] > 0 ==> u[k] > 0)
    ensures forall k {:trigger k in u} :: k in u && t[k] == 0 ==> u[k] == 0
  {
    hide Tiled;
  }

  lemma JoinOnePool(t: Tiles, u: Tiles, p: nat, n: nat, q: nat, e: nat)
    requires Joins(t, u, p, n) && OnePool(t, q, e) && q != n
    ensures OnePool(u, q, e)
  {
    JoinKeys(t, u, p, n);
    hide Tiled;
  }

  lemma JoinPooled(t: Tiles, u: Tiles, p: nat, n: nat, pools: map<nat, nat>)
    requires Joins(t, u, p, n) && Pooled(t, pools)
    ensures Pooled(u, pools)
  {
    hide *;
    JoinEnds(t, u, p, n);
    JoinKeys(t, u, p, n);
    EndIsNoStart(t, pools, p);
    PoolsInOrder(t, pools);
    forall q {:trigger q in pools} | q in pools ensures OnePool(u, q, pools[q]) {
      PooledIs(t, pools, q);
      JoinOnePool(t, u, p, n, q, pools[q]);
    }
    forall b {:trigger InPool(pools, b)} | b in u ensures InPool(pools, b) {}
    PooledFrom(u, pools);
  }

  /** Two neighbours together still fit their pool, so the joint length is in range. */
  lemma JointLength(t: Tiles, pools: map<nat, nat>, p: nat, n: nat)
    requires Tiled(t) && Pooled(t, pools) && p in t && t[p] > 0 && n == End(t, p) && n in t && t[n] > 0
    ensures t[p] + 1 + t[n] < MAX_LEN
  {
    var q := EndInPool(t, pools, p);
    assert End(t, n) <= pools[q];
  }

  lemma FreeIsProper(h: Heap, n: nat)
    requires FlagsOfBlocks(h.len, h.free, h.prevFree) && n in h.free
    ensures n in h.len && h.len[n] > 0
  {}

  /** What absorbing does, part by part. */
  lemma AbsorbIs(h: Heap, p: nat, n: nat)
    requires Tiled(h.len) && FlagsOfBlocks(h.len, h.free, h.prevFree) && p in h.len && h.len[p] > 0
    requires n == End(h.len, p) && n in h.len && h.len[n] > 0 && h.len[p] + 1 + h.len[n] < MAX_LEN
    ensures var u := Absorb(h, p, n);
            && Joins(h.len, u.len, p, n) && u.free == h.free - {n} && u.prevFree == h.prevFree - {n}
            && u.lists == h.lists && u.pools == h.pools && FlagsOfBlocks(u.len, u.free, u.prevFree)
  {
    hide Tiled;
    hide Join;
  }

  lemma JoinLengths(t: Tiles, u: Tiles, p: nat, n: nat)
    requires Joins(t, u, p, n)
    ensures u.Keys == t.Keys - {n} && forall k {:trigger k in u} :: k in u && k != p ==> u[k] == t[k]
  {
    hide Tiled;
  }

  /** A block in hand is gone, and one that is in no list has another length. */
  lemma ListedShrinks(t: Tiles, u: Tiles, free: set<nat>, lists: seq<seq<nat>>, xs: set<nat>, p: nat, n: nat)
    requires Listed(t, free, lists, xs) && n in xs && (p in xs || p !in free)
    requires u.Keys == t.Keys - {n} && forall k {:trigger k in u} :: k in u && k != p ==> u[k] == t[k]
    ensures Listed(u, free - {n}, lists, xs - {n})
  {
    hide ClassOf;
    hide NoDuplicates;
    forall b | b in free && b !in xs && b in t ensures b in u && u[b] == t[b] && b in lists[ClassOf(u[b])] {
      assert b != n && b != p;
    }
    forall b | b in free - {n} && b !in xs - {n} && b in u ensures b !in xs && b in t {}
  }

  lemma JoinListed(h: Heap, p: nat, n: nat, xs: set<nat>)
    requires Tiled(h.len) && FlagsOfBlocks(h.len, h.free, h.prevFree) && Listed(h.len, h.free, h.lists, xs)
    requires p in h.len && h.len[p] > 0 && n == End(h.len, p) && n in h.len && h.len[n] > 0 && h.len[p] + 1 + h.len[n] < MAX_LEN
    requires n in xs && (p in xs || p !in h.free)
    ensures Listed(Absorb(h, p, n).len, Absorb(h, p, n).free, h.lists, xs - {n})
  {
    hide *;
    AbsorbIs(h, p, n);
    JoinLengths(h.len, Absorb(h, p, n).len, p, n);
    ListedShrinks(h.len, Absorb(h, p, n).len, h.free, h.lists, xs, p, n);
  }

  lemma AbsorbKeeps(h: Heap, p: nat, n: nat, xs: set<nat>)
    requires Inv(h, xs, {}) && p in h.len && h.len[p] > 0 && n == End(h.len, p) && n in xs && n in h.free
    requires n in h.len && (p in xs || p !in h.free)
    ensures Inv(Absorb(h, p, n), xs - {n}, if p in h.free then {} else {p})
  {
    hide *;
    InvParts(h, xs, {});
    FreeIsProper(h, n);
    JointLength(h.len, h.pools, p, n);
    var u := Absorb(h, p, n);
    AbsorbIs(h, p, n);
    JoinTiled(h.len, u.len, p, n);
    JoinFlags(h.len, u.len, p, n, h.free, h.prevFree);
    JoinLinked(h.len, u.len, p, n, h.prevFree);
    JoinCoalesced(h.len, u.len, p, n, h.free, xs);
    JoinPooled(h.len, u.len, p, n, h.pools);
    JoinListed(h, p, n, xs);
    InvFrom(u, xs - {n}, if p in h.free then {} else {p});
  }

  /** No block starts strictly inside another. */
  lemma InsideIsNoBlock(t: Tiles, b: nat, r: nat)
    requires Tiled(t) && b in t && b < r < End(t, b)
    ensures r !in t
  {}

  /** Block `b` of `t` becomes two in `u`, the first of `s` words. */
  ghost predicate Cuts(t: Tiles, u: Tiles, b: nat, s: nat) {
    && Tiled(t) && b in t && MIN_LEN <= s && s + HEADER_LEN <= t[b] && b + 1 + s !in t
    && IsCut(t, u, b, s)
  }

  lemma CutEnds(t: Tiles, u: Tiles, b: nat, s: nat)
    requires Cuts(t, u, b, s)
    ensures var r := b + 1 + s; End(u, b) == r && End(u, r) == End(t, b)
    ensures forall k {:trigger End(u, k)} {:trigger End(t, k)} ::
              k in t && k != b ==> End(u, k) == End(t, k) && End(t, k) != b + 1 + s && End(t, k) != End(t, b)
    ensures forall k {:trigger End(u, k)} {:trigger End(t, k)} ::
              k in t && k != b ==> if k < b then End(t, k) <= b else End(t, b) <= k
  {
    forall k | k in t && k != b
      ensures End(u, k) == End(t, k) && End(t, k) != b + 1 + s && End(t, k) != End(t, b)
      ensures if k < b then End(t, k) <= b else End(t, b) <= k
    {
      EndsApart(t, k, b);
    }
  }

  lemma CutTiled(t: Tiles, u: Tiles, b: nat, s: nat)
    requires Cuts(t, u, b, s)
    ensures Tiled(u)
  {
    CutEnds(t, u, b, s);
    assert forall k {:trigger End(u, k)} :: k in u && u[k] > 0 ==> End(u, k) in u;
  }

  lemma CutFlags(t: Tiles, u: Tiles, b: nat, s: nat, free: set<nat>, pf: set<nat>)
    requires Cuts(t, u, b, s) && Flagged(t, free, pf, {}) && b + 1 + s !in pf
    ensures var r := b + 1 + s;
            Flagged(u, free + {r}, pf + {End(t, b)} + if b in free then {r} else {}, {})
  {
    CutEnds(t, u, b, s);
  }

  lemma CutLinked(t: Tiles, u: Tiles, b: nat, s: nat, pf: set<nat>)
    requires Cuts(t, u, b, s) && Linked(t, pf)
    ensures Linked(u, pf + {End(t, b), b + 1 + s})
  {
    CutEnds(t, u, b, s);
    var r := b + 1 + s;
    assert Follows(u, r) && Follows(u, End(t, b)) by {
      assert End(u, b) == r && End(u, r) == End(t, b);
    }
    forall c | c in pf ensures Follows(u, c) {
      assert Follows(t, c);
      var k :| k in t && t[k] > 0 && End(t, k) == c;
      assert End(u, if k == b then r else k) == c;
    }
  }

  lemma LinkedSubset(t: Tiles, some: set<nat>, all: set<nat>)
    requires some <= all && Linked(t, all)
    ensures Linked(t, some)
  {
    hide Follows;
  }

  lemma CutCoalesced(t: Tiles, u: Tiles, b: nat, s: nat, free: set<nat>, xs: set<nat>)
    requires Cuts(t, u, b, s) && Coalesced(t, free, xs)
    ensures Coalesced(u, free + {b + 1 + s}, xs + {b + 1 + s})
  {
    CutEnds(t, u, b, s);
  }

  lemma CutKeys(t: Tiles, u: Tiles, b: nat, s: nat)
    requires Cuts(t, u, b, s)
    ensures Tiled(t) && u.Keys == t.Keys + {b + 1 + s} && b in t && t[b] > 0 && b < b + 1 + s < End(t, b)
  {
    hide Tiled;
  }

  /** Both parts of a cut block are proper blocks, so a pool is not ended by them. */
  lemma CutOnePool(t: Tiles, u: Tiles, b: nat, s: nat, q: nat, e: nat)
    requires Cuts(t, u, b, s) && OnePool(t, q, e)
    ensures OnePool(u, q, e)
  {
    hide Tiled;
  }

  lemma CutInPool(pools: map<nat, nat>, p: nat, b: nat, r: nat)
    requires p in pools && p <= b < r <= pools[p]
    ensures InPool(pools, r)
  {}

  lemma CutPooled(t: Tiles, u: Tiles, b: nat, s: nat, pools: map<nat, nat>)
    requires Cuts(t, u, b, s) && Pooled(t, pools)
    ensures Pooled(u, pools)
  {
    hide *;
    CutKeys(t, u, b, s);
    PoolsInOrder(t, pools);
    var p := EndInPool(t, pools, b);
    forall q {:trigger q in pools} | q in pools ensures OnePool(u, q, pools[q]) {
      PooledIs(t, pools, q);
      CutOnePool(t, u, b, s, q, pools[q]);
    }
    CutInPool(pools, p, b, b + 1 + s);
    PooledFrom(u, pools);
  }

  /** What splitting does, part by part. */
  lemma SplitIs(h: Heap, b: nat, s: nat)
    requires Tiled(h.len) && FlagsOfBlocks(h.len, h.free, h.prevFree) && b in h.len && MIN_LEN <= s && s + HEADER_LEN <= h.len[b]
    ensures s < h.len[b] && b + 1 + s !in h.len && b + 1 + s !in h.prevFree
    ensures var r := b + 1 + s;
            var u := Split(h, b, s);
            && Cuts(h.len, u.len, b, s) && u.lists == h.lists && u.pools == h.pools && u.free == h.free + {r}
            && u.prevFree == h.prevFree + {End(h.len, b)} + (if b in h.free then {r} else {})
            && u.prevFree <= h.prevFree + {End(h.len, b), r} && FlagsOfBlocks(u.len, u.free, u.prevFree)
  {
    InsideIsNoBlock(h.len, b, b + 1 + s);
    hide Cut;
    NextIsBlock(h.len, b);
    hide Tiled;
  }

  lemma NextIsBlock(t: Tiles, b: nat)
    requires Tiled(t) && b in t && t[b] > 0
    ensures End(t, b) in t
  {}

  lemma CutListed(h: Heap, b: nat, s: nat, xs: set<nat>)
    requires Tiled(h.len) && FlagsOfBlocks(h.len, h.free, h.prevFree) && Listed(h.len, h.free, h.lists, xs)
    requires b in h.len && MIN_LEN <= s && s + HEADER_LEN <= h.len[b] && (b in xs || b !in h.free)
    ensures Listed(Split(h, b, s).len, Split(h, b, s).free, h.lists, xs + {b + 1 + s})
  {
    SplitIs(h, b, s);
    hide Split;
    hide Tiled;
    hide ClassOf;
    hide NoDuplicates;
  }

  lemma SplitKeeps(h: Heap, b: nat, s: nat, xs: set<nat>)
    requires Inv(h, xs, {}) && b in h.len && MIN_LEN <= s && s + HEADER_LEN <= h.len[b]
    requires b in xs || b !in h.free
    ensures Inv(Split(h, b, s), xs + {b + 1 + s}, {})
  {
    hide *;
    var r := b + 1 + s;
    InvParts(h, xs, {});
    SplitIs(h, b, s);
    var u := Split(h, b, s);
    CutTiled(h.len, u.len, b, s);
    CutFlags(h.len, u.len, b, s, h.free, h.prevFree);
    CutLinked(h.len, u.len, b, s, h.prevFree);
    LinkedSubset(u.len, u.prevFree, h.prevFree + {End(h.len, b), r});
    CutCoalesced(h.len, u.len, b, s, h.free, xs);
    CutPooled(h.len, u.len, b, s, h.pools);
    CutListed(h, b, s, xs);
    InvFrom(u, xs + {r}, {});
  }

  lemma TailIsDistinct(s: seq<nat>)
    requires s != [] && NoDuplicates(s)
    ensures NoDuplicates(s[1..]) && s[0] !in s[1..]
  {}

  lemma ConsIsDistinct(x: nat, s: seq<nat>)
    requires NoDuplicates(s) && x !in s
    ensures NoDuplicates([x] + s)
  {}

  lemma {:induction false} RemoveFrom(s: seq<nat>, b: nat)
    requires NoDuplicates(s)
    ensures NoDuplicates(Remove(s, b))
    ensures forall x :: x in Remove(s, b) <==> x in s && x != b
  {
    hide NoDuplicates;
    if s != [] {
      var r := Remove(s[1..], b);
      TailIsDistinct(s);
      RemoveFrom(s[1..], b);
      if s[0] != b {
        ConsIsDistinct(s[0], r);
        assert forall x :: x in [s[0]] + r <==> x == s[0] || x in r;
      }
      assert forall x :: x in s <==> x == s[0] || x in s[1..];
    } else {
      assert Remove(s, b) == s;
    }
  }

  lemma UnlistKeeps(h: Heap, b: nat, xs: set<nat>, ys: set<nat>)
    requires Inv(h, xs, ys) && b in h.len && b in h.free
    ensures Inv(Unlist(h, b), xs + {b}, ys)
  {
    hide ClassOf;
    hide Tiled;
    hide Pooled;
    hide Flagged;
    var c := ClassOf(h.len[b]);
    RemoveFrom(h.lists[c], b);
    hide NoDuplicates;
  }

  lemma InsertKeeps(h: Heap, b: nat, xs: set<nat>)
    requires Inv(h, xs, {}) && b in h.len && b in h.free && b in xs
    requires Coalesced(h.len, h.free, xs - {b})
    ensures Inv(Insert(h, b), xs - {b}, {})
  {
    hide ClassOf;
    hide Tiled;
    hide Pooled;
    hide Flagged;
    hide Linked;
    hide Coalesced;
  }

}
