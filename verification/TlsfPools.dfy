/**
 Pools: adding and removing them, how their blocks tile them, and what they look like when nothing
 is allocated.
 */
module TlsfPools {
  import opened Sequences
  import opened TlsfMapping
  import opened TlsfHeap
  import opened TlsfOps

  /** The words after `p` up to and including `e + 1` belong to no pool yet. */
  ghost predicate Unclaimed(pools: map<nat, nat>, p: nat, e: nat) {
    forall q :: q in pools ==> pools[q] < p || e < q
  }

  /** The heap with one more pool: a first free block at `p`, not yet listed, and its sentinel. */
  ghost function WithPool(h: Heap, p: nat, len: nat): Heap {
    var e := p + 1 + len;
    h.(len := h.len[p := len][e := 0], free := h.free + {p}, prevFree := h.prevFree + {e}, pools := h.pools[p := e])
  }

  lemma UnclaimedIsClear(h: Heap, p: nat, e: nat, k: nat)
    requires Valid(h) && p < e && Unclaimed(h.pools, p, e) && k in h.len
    ensures k != p && k != e && (k < p ==> End(h.len, k) <= p) && (k > p ==> e < k)
    ensures h.len[k] > 0 ==> End(h.len, k) != p && End(h.len, k) != e
  {
    assert InPool(h.pools, k);
    var q :| q in h.pools && q <= k <= h.pools[q];
    if h.len[k] > 0 {
      var q' := EndInPool(h.len, h.pools, k);
      assert InPool(h.pools, k);
    }
    hide Listed;
  }

  /** `u` is `t` with a block of `len` words at `p` and a sentinel after it, clear of all others. */
  ghost predicate Adds(t: Tiles, u: Tiles, p: nat, len: nat) {
    var e := p + 1 + len;
    && Tiled(t) && p > 0 && MIN_LEN <= len < MAX_LEN
    && u == t[p := len][e := 0]
    && (forall k {:trigger End(t, k)} :: k in t ==>
          k != p && k != e && if k < p then End(t, k) <= p else e < k)
    && (forall k {:trigger End(t, k)} :: k in t && t[k] > 0 ==> End(t, k) != p && End(t, k) != e)
  }

  lemma AddEnds(t: Tiles, u: Tiles, p: nat, len: nat)
    requires Adds(t, u, p, len)
    ensures var e := p + 1 + len; End(u, p) == e && End(u, e) == e + 1
    ensures forall k {:trigger End(u, k)} {:trigger End(t, k)} :: k in t ==> k in u && u[k] == t[k] && End(u, k) == End(t, k)
    ensures u.Keys == t.Keys + {p, p + 1 + len}
    ensures forall k {:trigger k in t} :: k in t ==> k in u && u[k] == t[k] && (k < p || p + 1 + len < k)
  {
    forall k | k in t ensures u[k] == t[k] && (k < p || p + 1 + len < k) {
      assert End(t, k) >= 0;
    }
  }

  lemma AddTiled(t: Tiles, u: Tiles, p: nat, len: nat)
    requires Adds(t, u, p, len)
    ensures Tiled(u)
  {
    AddEnds(t, u, p, len);
  }

  lemma AddFlags(t: Tiles, u: Tiles, p: nat, len: nat, free: set<nat>, pf: set<nat>)
    requires Adds(t, u, p, len) && Flagged(t, free, pf, {}) && FlagsOfBlocks(t, free, pf)
    ensures Flagged(u, free + {p}, pf + {p + 1 + len}, {})
    ensures Coalesced(t, free, {}) ==> Coalesced(u, free + {p}, {p})
  {
    AddEnds(t, u, p, len);
  }

  lemma AddLinked(t: Tiles, u: Tiles, p: nat, len: nat, pf: set<nat>)
    requires Adds(t, u, p, len) && Linked(t, pf)
    ensures Linked(u, pf + {p + 1 + len})
  {
    AddEnds(t, u, p, len);
    assert Follows(u, p + 1 + len) by {
      assert End(u, p) == p + 1 + len;
    }
    forall c | c in pf ensures Follows(u, c) {
      assert Follows(t, c);
      var k {:trigger End(t, k)} :| k in t && t[k] > 0 && End(t, k) == c;
      assert End(u, k) == c;
    }
  }

  lemma AddInPool(u: Tiles, p: nat, e: nat, pools: map<nat, nat>)
    requires p !in pools && p < e && forall b {:trigger InPool(pools, b)} :: b in u && b != p && b != e ==> InPool(pools, b)
    ensures forall b {:trigger InPool(pools[p := e], b)} :: b in u ==> InPool(pools[p := e], b)
  {
    var qs := pools[p := e];
    forall b | b in u ensures InPool(qs, b) {
      if b != p && b != e {
        assert InPool(pools, b);
        var q :| q in pools && q <= b <= pools[q];
        assert q in qs && qs[q] == pools[q];
      } else {
        assert p in qs && qs[p] == e;
      }
    }
  }

  /** The new pool is apart from all others. */
  lemma AddApart(t: Tiles, pools: map<nat, nat>, p: nat, e: nat)
    requires Pooled(t, pools) && Unclaimed(pools, p, e) && p < e
    ensures p !in pools
    ensures var qs := pools[p := e]; forall q, r :: q in qs && r in qs && q < r ==> qs[q] < r
  {
    hide InPool;
    assert forall q :: q in pools ==> q < pools[q];
  }

  /** What an old pool is made of stays as it is. */
  lemma OldPool(t: Tiles, u: Tiles, pools: map<nat, nat>, p: nat, e: nat, q: nat)
    requires Pooled(t, pools) && Unclaimed(pools, p, e) && p < e && q in pools
    requires u.Keys == t.Keys + {p, e} && forall k {:trigger k in t} :: k in t ==> k in u && u[k] == t[k]
    ensures OnePool(u, q, pools[q])
  {
    hide InPool;
    forall b: nat | b in u && q <= b < pools[q] ensures u[b] > 0 {
      assert b in t;
    }
  }

  lemma NewPool(t: Tiles, u: Tiles, p: nat, len: nat)
    requires Adds(t, u, p, len)
    ensures p < p + 1 + len && OnePool(u, p, p + 1 + len)
  {
    AddEnds(t, u, p, len);
    hide Tiled;
  }

  lemma AddPooled(t: Tiles, u: Tiles, p: nat, len: nat, pools: map<nat, nat>)
    requires Adds(t, u, p, len) && Pooled(t, pools) && Unclaimed(pools, p, p + 1 + len)
    ensures Pooled(u, pools[p := p + 1 + len])
  {
    hide *;
    var e: nat := p + 1 + len;
    AddEnds(t, u, p, len);
    NewPool(t, u, p, len);
    AddApart(t, pools, p, e);
    PoolsInOrder(t, pools);
    AddInPool(u, p, e, pools);
    forall q {:trigger q in pools} | q in pools ensures OnePool(u, q, pools[q]) {
      OldPool(t, u, pools, p, e, q);
    }
    PooledFrom(u, pools[p := e]);
  }

  /** The parts of the invariant a new pool leaves as they were. */
  lemma WithPoolRest(h: Heap, p: nat, len: nat)
    requires Valid(h) && p > 0 && MIN_LEN <= len < MAX_LEN && Adds(h.len, WithPool(h, p, len).len, p, len)
    ensures var u := WithPool(h, p, len);
            && FlagsOfBlocks(u.len, u.free, u.prevFree) && Listed(u.len, u.free, u.lists, {p})
            && Lives(u) == Lives(h) && p in u.len && p !in u.prevFree && End(u.len, p) !in u.free
  {
    hide ClassOf;
    hide Tiled;
    hide Flagged;
    hide Coalesced;
    hide Pooled;
    hide Linked;
    hide NoDuplicates;
    var u := WithPool(h, p, len);
    AddEnds(h.len, u.len, p, len);
    assert forall k :: k in h.len ==> k in u.len && u.len[k] == h.len[k] by {
      forall k | k in h.len ensures k in u.len && u.len[k] == h.len[k] {
        assert End(h.len, k) >= 0;
      }
    }
  }

  lemma WithPoolKeeps(h: Heap, p: nat, len: nat)
    requires Valid(h) && p > 0 && MIN_LEN <= len < MAX_LEN && Unclaimed(h.pools, p, p + 1 + len)
    ensures var u := WithPool(h, p, len);
            InHand(u, p) && p in u.len && p !in u.prevFree && End(u.len, p) !in u.free && Lives(u) == Lives(h)
  {
    hide Tiled;
    hide FlagsOfBlocks;
    hide Flagged;
    hide Coalesced;
    hide Pooled;
    hide Linked;
    hide Listed;
    hide Lives;
    hide Adds;
    hide Unclaimed;
    var u := WithPool(h, p, len);
    NewBlocksAreClear(h, p, len);
    AddTiled(h.len, u.len, p, len);
    AddFlags(h.len, u.len, p, len, h.free, h.prevFree);
    AddLinked(h.len, u.len, p, len, h.prevFree);
    AddPooled(h.len, u.len, p, len, h.pools);
    WithPoolRest(h, p, len);
  }

  lemma NewBlocksAreClear(h: Heap, p: nat, len: nat)
    requires Valid(h) && p > 0 && MIN_LEN <= len < MAX_LEN && Unclaimed(h.pools, p, p + 1 + len)
    ensures Adds(h.len, WithPool(h, p, len).len, p, len)
  {
    forall k | k in h.len
      ensures k != p && k != p + 1 + len && if k < p then End(h.len, k) <= p else p + 1 + len < k
      ensures h.len[k] > 0 ==> End(h.len, k) != p && End(h.len, k) != p + 1 + len
    {
      UnclaimedIsClear(h, p, p + 1 + len, k);
    }
    hide ClassOf;
  }

  /** The heap `control_construct` sets up. */
  ghost function NoPools(): Heap {
    Heap(map[], {}, {}, seq(CLASSES, _ => []), map[])
  }

  lemma NoPoolsValid()
    ensures Valid(NoPools()) && Lives(NoPools()) == map[]
  {
    assert |NoPools().lists| == CLASSES;
  }

  /** `tlsf_add_pool`, for a pool that clears the size and alignment checks. */
  ghost function AddPool(h: Heap, p: nat, len: nat): Heap {
    Insert(WithPool(h, p, len), p)
  }

  lemma AddPoolKeeps(h: Heap, p: nat, len: nat)
    requires Valid(h) && p > 0 && MIN_LEN <= len < MAX_LEN && Unclaimed(h.pools, p, p + 1 + len)
    ensures var r := AddPool(h, p, len);
            Valid(r) && r.pools == h.pools[p := p + 1 + len] && Lives(r) == Lives(h)
  {
    hide Inv;
    hide ClassOf;
    hide Lives;
    WithPoolKeeps(h, p, len);
    InsertAlone(WithPool(h, p, len), p);
  }

  /** `u` is `t` without the block at `p` and the sentinel `e` it reaches. */
  ghost predicate Drops(t: Tiles, u: Tiles, p: nat, e: nat) {
    && Tiled(t) && p in t && t[p] > 0 && End(t, p) == e && e in t && t[e] == 0
    && u == t - {p, e}
    && (forall k {:trigger End(t, k)} :: k in t && t[k] > 0 ==> End(t, k) != p)
  }

  lemma DropEnds(t: Tiles, u: Tiles, p: nat, e: nat)
    requires Drops(t, u, p, e)
    ensures forall k {:trigger End(u, k)} {:trigger End(t, k)} ::
              k in u ==> End(u, k) == End(t, k) && End(t, k) != e && (t[k] > 0 ==> End(t, k) in u)
  {
    forall k | k in u ensures End(u, k) == End(t, k) && End(t, k) != e && (t[k] > 0 ==> End(t, k) in u) {
      EndsApart(t, k, p);
    }
  }

  lemma DropTiles(t: Tiles, u: Tiles, p: nat, e: nat, free: set<nat>, pf: set<nat>)
    requires Drops(t, u, p, e) && Flagged(t, free, pf, {}) && Coalesced(t, free, {p})
    ensures Tiled(u) && Flagged(u, free - {p}, pf - {e}, {}) && Coalesced(u, free - {p}, {})
  {
    DropEnds(t, u, p, e);
  }

  lemma DropLinked(t: Tiles, u: Tiles, p: nat, e: nat, pf: set<nat>)
    requires Drops(t, u, p, e) && Linked(t, pf)
    ensures Linked(u, pf - {e}) && p !in pf
  {
    DropEnds(t, u, p, e);
    forall c | c in pf ensures c != p && (c != e ==> Follows(u, c)) {
      assert Follows(t, c);
      var k {:trigger End(t, k)} :| k in t && t[k] > 0 && End(t, k) == c;
      if c != e {
        assert k in u && End(u, k) == c;
      }
    }
  }

  lemma DropInPool(u: Tiles, p: nat, pools: map<nat, nat>)
    requires p in pools && forall b {:trigger InPool(pools, b)} :: b in u ==> InPool(pools, b) && (b < p || pools[p] < b)
    ensures forall b {:trigger InPool(pools - {p}, b)} :: b in u ==> InPool(pools - {p}, b)
  {
    var qs := pools - {p};
    forall b | b in u ensures InPool(qs, b) {
      assert InPool(pools, b);
      var q :| q in pools && q <= b <= pools[q];
      assert q in qs && qs[q] == pools[q];
    }
  }

  lemma DropPooled(t: Tiles, u: Tiles, p: nat, pools: map<nat, nat>)
    requires p in pools && Drops(t, u, p, pools[p]) && Pooled(t, pools)
    ensures Pooled(u, pools - {p})
  {
    var e := pools[p];
    forall b | b in u ensures b < p || e < b {
      assert End(t, b) >= 0;
    }
    DropInPool(u, p, pools);
    hide Tiled;
    hide InPool;
    assert forall q :: q in pools && q != p ==> q in u && pools[q] in u;
  }

  /** `tlsf_remove_pool`, for a pool whose first block is free and reaches the sentinel. */
  ghost function RemovePool(h: Heap, p: nat): Heap
    requires p in h.pools
  {
    var u := Unlist(h, p);
    var e := h.pools[p];
    u.(len := u.len - {p, e}, free := u.free - {p}, prevFree := u.prevFree - {e}, pools := u.pools - {p})
  }

  lemma PoolDrops(t: Tiles, pools: map<nat, nat>, p: nat)
    requires Tiled(t) && Pooled(t, pools) && p in pools && End(t, p) == pools[p]
    ensures Drops(t, t - {p, pools[p]}, p, pools[p])
  {
    forall k | k in t && t[k] > 0 ensures End(t, k) != p {
      EndIsNoStart(t, pools, k);
    }
  }

  lemma RemovePoolRest(h: Heap, u: Heap, p: nat)
    requires InHand(u, p) && p in h.pools && u == Unlist(h, p) && Drops(u.len, RemovePool(h, p).len, p, h.pools[p])
    ensures var r := RemovePool(h, p);
            FlagsOfBlocks(r.len, r.free, r.prevFree - {p}) && Listed(r.len, r.free, r.lists, {}) && Lives(r) == Lives(u)
  {
    hide ClassOf;
    hide Unlist;
    hide Tiled;
    hide Flagged;
    hide Coalesced;
    hide Pooled;
    hide Linked;
    hide NoDuplicates;
  }

  lemma RemovePoolKeeps(h: Heap, p: nat)
    requires Valid(h) && p in h.pools && p in h.free && p in h.len && End(h.len, p) == h.pools[p]
    ensures Valid(RemovePool(h, p)) && Lives(RemovePool(h, p)) == Lives(h)
  {
    hide Unlist;
    hide Tiled;
    hide FlagsOfBlocks;
    hide Flagged;
    hide Coalesced;
    hide Pooled;
    hide Linked;
    hide Listed;
    hide Lives;
    hide Drops;
    TakeKeeps(h, p);
    var u := Unlist(h, p);
    var r := RemovePool(h, p);
    var e := h.pools[p];
    PoolDrops(u.len, u.pools, p);
    DropTiles(u.len, r.len, p, e, u.free, u.prevFree);
    DropLinked(u.len, r.len, p, e, u.prevFree);
    DropPooled(u.len, r.len, p, u.pools);
    RemovePoolRest(h, u, p);
    assert r.prevFree - {p} == r.prevFree;
  }

  // ----- What a pool looks like

  /** The blocks from `b` up to the sentinel `e`, in address order. */
  ghost function Walk(t: Tiles, b: nat, e: nat): seq<nat>
    requires Tiled(t)
    decreases e - b
  {
    if b in t && b < e && t[b] > 0 then [b] + Walk(t, End(t, b), e) else []
  }

  /** Words of headers and payloads of a row of blocks. */
  ghost function Total(t: Tiles, s: seq<nat>): nat {
    if s == [] then 0 else (if s[0] in t then t[s[0]] + 1 else 0) + Total(t, s[1..])
  }

  lemma {:induction false} WalkTiles(t: Tiles, p: nat, e: nat, b: nat)
    requires Tiled(t) && b in t && e in t && p <= b <= e
    requires forall k :: k in t && p <= k < e ==> t[k] > 0
    ensures Total(t, Walk(t, b, e)) == e - b
    ensures forall k :: k in Walk(t, b, e) <==> k in t && b <= k < e
    decreases e - b
  {
    if b < e {
      var n := End(t, b);
      assert n <= e;
      WalkTiles(t, p, e, n);
      assert forall k :: k in t && b < k ==> n <= k;
    }
  }

  /**
   The blocks of a pool, walked from its start, are all the blocks in its range, and their headers
   and payloads add up to its size: no word is lost or counted twice.
   */
  lemma PoolIsTiled(h: Heap, p: nat)
    requires Valid(h) && p in h.pools
    ensures var w := Walk(h.len, p, h.pools[p]);
            && Total(h.len, w) == h.pools[p] - p
            && (forall k :: k in w <==> k in h.len && p <= k < h.pools[p])
  {
    WalkTiles(h.len, p, h.pools[p], p);
  }

  /** The first block of a pool has no predecessor. */
  lemma PoolStart(h: Heap, p: nat)
    requires Valid(h) && p in h.pools
    ensures p in h.len && p < h.pools[p] && p !in h.prevFree
  {
    hide ClassOf;
    hide Listed;
    if p in h.prevFree {
      FreeBefore(h, p, {});
      EndIsNoStart(h.len, h.pools, PrevOf(h.len, p));
    }
  }

  /** From a block of a pool to the next one. */
  lemma WalkStep(h: Heap, p: nat, b: nat)
    requires Valid(h) && p in h.pools && p <= b <= h.pools[p] && b in h.len
    ensures b > 0 && p !in h.prevFree && p in h.len
    ensures h.len[b] == 0 <==> b == h.pools[p]
    ensures h.len[b] > 0 ==>
              && b < End(h.len, b) <= h.pools[p] && End(h.len, b) in h.len
              && (End(h.len, b) in h.prevFree <==> b in h.free)
  {
    PoolStart(h, p);
    hide ClassOf;
    hide Listed;
    hide Linked;
    hide Coalesced;
  }

  /** No block of the pool at `p` is live. */
  ghost predicate Idle(h: Heap, p: nat) {
    p in h.pools && forall b: nat {:trigger Live(h, b)} :: Live(h, b) ==> b < p || h.pools[p] < b
  }

  /** A pool in which nothing is live is one free block that reaches the sentinel. */
  lemma EmptyPool(h: Heap, p: nat)
    requires Valid(h) && Idle(h, p)
    ensures p in h.pools
    ensures p in h.free && p in h.len && End(h.len, p) == h.pools[p]
  {
    hide ClassOf;
    hide Listed;
    var e := h.pools[p];
    assert !Live(h, p);
    var n := End(h.len, p);
    assert n <= e;
    assert Live(h, n) || n in h.free || h.len[n] == 0;
  }

  /** Live payloads are disjoint and inside their pools, sentinel excluded. */
  lemma PayloadsApart(h: Heap, a: nat, b: nat)
    requires Valid(h) && Live(h, a) && Live(h, b) && a != b
    ensures End(h.len, a) < b + 2 || End(h.len, b) < a + 2
    ensures exists p {:trigger h.pools[p]} :: p in h.pools && p < a + 2 <= End(h.len, a) <= h.pools[p]
  {
    var p := EndInPool(h.len, h.pools, a);
    hide ClassOf;
    hide Listed;
    hide Pooled;
    assert End(h.len, a) <= b || End(h.len, b) <= a;
    assert h.pools[p] >= End(h.len, a);
  }
}
