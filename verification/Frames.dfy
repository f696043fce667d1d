/**
 The physical frame allocator: a bitmap with one bit per frame, searched first fit. Frames are
 handed out zeroed. Memory counts 8-byte words, 512 of them to a frame.
 */
module Frames {
  import opened Digits

  const PAGESIZE: nat := 4096

  // ----- The allocation rule

  /** The `k` frames from `s` on exist, of `n`, and are free. */
  ghost predicate FreeRun(used: set<nat>, n: nat, s: nat, k: nat) {
    s + k <= n && forall j: nat {:trigger j in used} :: s <= j < s + k ==> j !in used
  }

  /** Start of the first run of `k` free frames from `s` on, `n` if there is none. */
  ghost function FirstRun(used: set<nat>, n: nat, k: nat, s: nat): (r: nat)
    requires k > 0 && s <= n
    ensures s <= r <= n && (r < n <==> exists t :: s <= t && FreeRun(used, n, t, k))
    ensures r < n ==> FreeRun(used, n, r, k)
    ensures forall t :: s <= t < r ==> !FreeRun(used, n, t, k)
    decreases n - s
  {
    if s == n || FreeRun(used, n, s, k) then s else FirstRun(used, n, k, s + 1)
  }

  ghost function Range(s: nat, k: nat): (r: set<nat>)
    ensures forall j: nat :: j in r <==> s <= j < s + k
  {
    if k == 0 then {} else Range(s, k - 1) + {s + k - 1}
  }

  lemma FirstRunIs(used: set<nat>, n: nat, k: nat, r: nat)
    requires k > 0 && r <= n && (r < n ==> FreeRun(used, n, r, k))
    requires forall t: nat :: t < r ==> !FreeRun(used, n, t, k)
    ensures FirstRun(used, n, k, 0) == r
  {
    var f := FirstRun(used, n, k, 0);
    assert f < n ==> FreeRun(used, n, f, k);
  }

  /** No run starts in the last frames. */
  lemma NoneFits(used: set<nat>, n: nat, k: nat, last: nat)
    requires k > 0 && last <= n && n < last + k && forall t: nat :: t < last ==> !FreeRun(used, n, t, k)
    ensures forall t: nat :: t < n ==> !FreeRun(used, n, t, k)
  {}

  // ----- The bitmap

  ghost predicate InUse(bits: seq<nat>, i: nat) {
    i / 8 < |bits| && Bit(bits[i / 8], i % 8)
  }

  ghost function Used(bits: seq<nat>): set<nat> {
    set i: nat | i < 8 * |bits| && InUse(bits, i)
  }

  lemma SetBitUsed(bits: seq<nat>, i: nat)
    requires i / 8 < |bits|
    ensures Used(bits[i / 8 := SetBit(bits[i / 8], i % 8)]) == Used(bits) + {i}
  {
    SetBitAt(bits[i / 8], i % 8);
  }

  lemma ClearBitUsed(bits: seq<nat>, i: nat)
    requires i / 8 < |bits|
    ensures Used(bits[i / 8 := ClearBit(bits[i / 8], i % 8)]) == Used(bits) - {i}
  {
    ClearBitAt(bits[i / 8], i % 8);
  }

  // ----- Who owns which frames

  /** Frame `f` belongs to some live allocation. */
  ghost predicate Owned(live: map<nat, nat>, f: nat) {
    exists s :: s in live && s <= f < s + live[s]
  }

  /** Every allocation lies below `n` and no two overlap. */
  ghost predicate Disjoint(live: map<nat, nat>, n: nat) {
    && (forall s :: s in live ==> live[s] > 0 && s + live[s] <= n)
    && (forall s, t :: s in live && t in live && s < t ==> s + live[s] <= t)
  }

  /** The set bits are exactly the reserved frames and those of live allocations, and no frame is both. */
  ghost predicate Accounted(used: set<nat>, reserved: set<nat>, live: map<nat, nat>, n: nat) {
    && Disjoint(live, n) && 0 in reserved
    && (forall f: nat {:trigger f in used} {:trigger Owned(live, f)} :: f in used <==> f in reserved || Owned(live, f))
    && (forall f {:trigger f in reserved} :: f in reserved ==> !Owned(live, f))
  }

  lemma OwnedGrows(live: map<nat, nat>, s: nat, k: nat, f: nat)
    requires s !in live && k > 0
    ensures Owned(live[s := k], f) <==> Owned(live, f) || s <= f < s + k
  {
    var more := live[s := k];
    if Owned(live, f) {
      var t :| t in live && t <= f < t + live[t];
      assert t in more && t <= f < t + more[t];
    }
    if s <= f < s + k {
      assert s in more && s <= f < s + more[s];
    }
  }

  lemma OwnedShrinks(live: map<nat, nat>, n: nat, s: nat, f: nat)
    requires Disjoint(live, n) && s in live
    ensures Owned(live - {s}, f) <==> Owned(live, f) && !(s <= f < s + live[s])
  {
    var less := live - {s};
    if Owned(live, f) && !(s <= f < s + live[s]) {
      var t :| t in live && t <= f < t + live[t];
      assert t in less && t <= f < t + less[t];
    }
  }

  /** A run of frames that were free is disjoint from every live allocation. */
  lemma AllocAccounted(used: set<nat>, reserved: set<nat>, live: map<nat, nat>, n: nat, s: nat, k: nat)
    requires Accounted(used, reserved, live, n) && k > 0 && FreeRun(used, n, s, k)
    ensures s !in live && Accounted(used + Range(s, k), reserved, live[s := k], n)
  {
    forall t | t in live ensures t + live[t] <= s || s + k <= t {
      var f := if t < s then s else t;
      assert f < t + live[t] ==> Owned(live, f);
      assert f < s + k ==> f !in used;
    }
    assert s !in live by {
      assert s !in used;
      assert s in live ==> Owned(live, s);
    }
    forall f: nat ensures Owned(live[s := k], f) <==> Owned(live, f) || s <= f < s + k {
      OwnedGrows(live, s, k, f);
    }
  }

  lemma LiveIsUsed(used: set<nat>, reserved: set<nat>, live: map<nat, nat>, n: nat)
    requires Accounted(used, reserved, live, n)
    ensures forall s :: s in live ==> s in used
  {
    forall s | s in live ensures s in used {
      assert Owned(live, s);
    }
  }

  lemma FreeAccounted(used: set<nat>, reserved: set<nat>, live: map<nat, nat>, n: nat, s: nat)
    requires Accounted(used, reserved, live, n) && s in live
    ensures Accounted(used - Range(s, live[s]), reserved, live - {s}, n)
  {
    var less := live - {s};
    forall f: nat ensures Owned(less, f) <==> Owned(live, f) && !(s <= f < s + live[s]) {
      OwnedShrinks(live, n, s, f);
    }
    forall f: nat | s <= f < s + live[s] ensures Owned(live, f) && f !in reserved {
      assert Owned(live, f);
    }
  }

  /** Once everything is freed, in whatever order, exactly the reserved frames are left. */
  lemma AllFreed(used: set<nat>, reserved: set<nat>, live: map<nat, nat>, n: nat)
    requires Accounted(used, reserved, live, n) && live == map[]
    ensures used == reserved
  {
    forall f: nat ensures f in used <==> f in reserved {
      assert !Owned(live, f);
    }
  }

  /** The words of `k` frames from `s` on. */
  ghost predicate InFrames(s: nat, k: nat, w: int) {
    s * 512 <= w < (s + k) * 512
  }

  /** Frames `s` to `s + k` are zero and no other word differs. */
  ghost predicate Zeroed(m: seq<nat>, m': seq<nat>, s: nat, k: nat) {
    && |m'| == |m|
    && forall w {:trigger m'[w]} :: 0 <= w < |m| ==> m'[w] == if InFrames(s, k, w) then 0 else m[w]
  }

  class FrameAllocator {
    const bitmap: array<nat>
    const mem: array<nat>
    const highestFrameIdx: nat
    var lastIdx: nat
    ghost var reserved: set<nat>
    ghost var live: map<nat, nat>

    ghost predicate Shaped()
      reads this, bitmap
    {
      && bitmap != mem
      && highestFrameIdx <= 8 * bitmap.Length && highestFrameIdx * 512 <= mem.Length
      && 8 * bitmap.Length * PAGESIZE < 0x1_0000_0000_0000_0000
    }

    ghost predicate Valid()
      reads this, bitmap
    {
      Shaped() && Accounted(Used(bitmap[..]), reserved, live, highestFrameIdx)
    }

    /** The scan of `mmDoAllocFrames` for one free frame more than asked for; -1 if there is no such run. */
    method Scan(count: nat) returns (idx: int)
      requires Shaped()
      ensures var r := FirstRun(Used(bitmap[..]), highestFrameIdx, count + 1, 0);
              idx == if r < highestFrameIdx then r else -1
    {
      ghost var used, k := Used(bitmap[..]), count + 1;
      var nFrames := 0;
      idx := -1;
      var i := 0;
      while i < highestFrameIdx
        invariant i <= highestFrameIdx
        invariant idx < 0 ==> idx == -1 && nFrames == 0
        invariant idx >= 0 ==> idx + nFrames == i && 0 < nFrames <= count
        invariant idx >= 0 ==> forall j: nat {:trigger j in used} :: idx <= j < i ==> j !in used
        invariant forall t: nat :: t < (if idx < 0 then i else idx) ==> !FreeRun(used, highestFrameIdx, t, k)
      {
        assert i in used <==> Bit(bitmap[i / 8], i % 8);
        if !Bit(bitmap[i / 8], i % 8) {
          if idx < 0 {
            idx := i;
          }
          nFrames := nFrames + 1;
          if nFrames - 1 >= count {
            break;
          }
        } else {
          idx := -1;
          nFrames := 0;
        }
        i := i + 1;
      }
      if idx < 0 || nFrames - 1 < count {
        NoneFits(used, highestFrameIdx, k, if idx < 0 then highestFrameIdx else idx);
        FirstRunIs(used, highestFrameIdx, k, highestFrameIdx);
        idx := -1;
      } else {
        FirstRunIs(used, highestFrameIdx, k, idx);
      }
    }

    /** The loop that sets the bits of `count` frames. */
    method Mark(idx: nat, count: nat)
      requires Shaped() && idx + count <= highestFrameIdx
      modifies bitmap
      ensures Used(bitmap[..]) == old(Used(bitmap[..])) + Range(idx, count)
    {
      ghost var used := Used(bitmap[..]);
      var i := idx;
      while i < idx + count
        invariant idx <= i <= idx + count
        invariant Used(bitmap[..]) == used + Range(idx, i - idx)
      {
        ghost var bits := bitmap[..];
        SetBitUsed(bits, i);
        bitmap[i / 8] := SetBit(bitmap[i / 8], i % 8);
        assert bitmap[..] == bits[i / 8 := SetBit(bits[i / 8], i % 8)];
        assert Range(idx, i + 1 - idx) == Range(idx, i - idx) + {i};
        i := i + 1;
      }
    }

    /** `rtlMemset(…, 0, count * PAGESIZE)`, a word at a time. */
    method Clear(idx: nat, count: nat)
      requires (idx + count) * 512 <= mem.Length
      modifies mem
      ensures Zeroed(old(mem[..]), mem[..], idx, count)
    {
      var w := idx * 512;
      while w < (idx + count) * 512
        invariant idx * 512 <= w <= (idx + count) * 512
        invariant forall v {:trigger mem[v]} :: 0 <= v < mem.Length ==> mem[v] == if idx * 512 <= v < w then 0 else old(mem[v])
      {
        mem[w] := 0;
        w := w + 1;
      }
    }

    /** `mmDoAllocFrames` */
    method DoAllocFrames(count: nat) returns (ret: nat)
      requires Shaped()
      modifies this`lastIdx, bitmap, mem
      ensures var used := old(Used(bitmap[..]));
              var s := FirstRun(used, highestFrameIdx, count + 1, 0);
              if s < highestFrameIdx then
                && ret == s * PAGESIZE && Used(bitmap[..]) == used + Range(s, count)
                && Zeroed(old(mem[..]), mem[..], s, count)
              else
                ret == 0 && bitmap[..] == old(bitmap[..]) && mem[..] == old(mem[..])
    {
      var idx := Scan(count);
      if idx < 0 {
        return 0;
      }
      Mark(idx, count);
      ret := idx * PAGESIZE;
      lastIdx := idx;
      Clear(idx, count);
    }

    /**
     `mmAllocFrame`: the first run with a frame to spare, or nothing; trying a second time after a
     failure never helps, because the search does not depend on what is reset in between. Asking for no
     frames gives the address of a free frame that stays free.
     */
    method AllocFrame(count: nat) returns (ret: nat)
      requires Valid()
      modifies this, bitmap, mem
      ensures Valid() && reserved == old(reserved)
      ensures var used := old(Used(bitmap[..]));
              var s := FirstRun(used, highestFrameIdx, count + 1, 0);
              if s < highestFrameIdx then
                && 0 < s && s + count < highestFrameIdx && ret == s * PAGESIZE && Range(s, count) !! used
                && s !in old(live) && live == (if count == 0 then old(live) else old(live)[s := count])
                && Used(bitmap[..]) == used + Range(s, count) && Zeroed(old(mem[..]), mem[..], s, count)
              else
                && ret == 0 && live == old(live)
                && Used(bitmap[..]) == used && mem[..] == old(mem[..])
    {
      ghost var used := Used(bitmap[..]);
      ghost var s := FirstRun(used, highestFrameIdx, count + 1, 0);
      ret := DoAllocFrames(count);
      if s < highestFrameIdx {
        assert s !in used && 0 in used;
        if count > 0 {
          AllocAccounted(used, reserved, live, highestFrameIdx, s, count);
        } else {
          assert used + Range(s, 0) == used;
          LiveIsUsed(used, reserved, live, highestFrameIdx);
        }
      }
      if ret == 0 {
        lastIdx := 0;
        ret := DoAllocFrames(count);
      }
      if s < highestFrameIdx && count > 0 {
        live := live[s := count];
      }
    }

    /** `mmFreeFrame` of whatever frames: their bits are cleared and no others. */
    method FreeFrame(base: nat, count: nat)
      requires Shaped() && (base + PAGESIZE - 1) / PAGESIZE + count <= 8 * bitmap.Length
      modifies bitmap
      ensures Used(bitmap[..]) == old(Used(bitmap[..])) - Range((base + PAGESIZE - 1) / PAGESIZE, count)
    {
      ghost var used := Used(bitmap[..]);
      ghost var first := (base + PAGESIZE - 1) / PAGESIZE;
      var p := (base + PAGESIZE - 1) / PAGESIZE * PAGESIZE;
      var stopAt := p + count * PAGESIZE;
      ghost var i := 0;
      while p < stopAt
        invariant i <= count && p == (first + i) * PAGESIZE
        invariant Used(bitmap[..]) == used - Range(first, i)
      {
        ghost var bits := bitmap[..];
        var f := p / PAGESIZE;
        ClearBitUsed(bits, f);
        bitmap[f / 8] := ClearBit(bitmap[f / 8], f % 8);
        assert bitmap[..] == bits[f / 8 := ClearBit(bits[f / 8], f % 8)];
        assert Range(first, i + 1) == Range(first, i) + {f};
        p := p + PAGESIZE;
        i := i + 1;
      }
    }

    /** Giving back a live allocation takes exactly that allocation from the live ones. */
    method Release(base: nat, count: nat)
      requires Valid() && base % PAGESIZE == 0 && base / PAGESIZE in live && live[base / PAGESIZE] == count
      modifies this, bitmap
      ensures Valid() && reserved == old(reserved) && live == old(live) - {base / PAGESIZE}
      ensures Used(bitmap[..]) == old(Used(bitmap[..])) - Range(base / PAGESIZE, count)
    {
      FreeAccounted(Used(bitmap[..]), reserved, live, highestFrameIdx, base / PAGESIZE);
      assert (base + PAGESIZE - 1) / PAGESIZE == base / PAGESIZE;
      FreeFrame(base, count);
      live := live - {base / PAGESIZE};
    }
  }
}
