/**
 The mapping operations over page tables whose frames come from the frame allocator. A space is
 named by the physical address of its root table, and null stands for a missing handle.
 */
module Mmu {
  import opened PageTables
  import opened Frames

  datatype Handle = NoHandle | Vas(cr3: nat)

  datatype Status = Success | InvalidHandle | NotMapped | NoMemory

  const PAGE_READONLY: nat := 0
  const PAGE_READWRITE: nat := 1
  const PAGE_EXECUTE_READ: nat := 2
  const PAGE_USER_READONLY: nat := 3
  const PAGE_USER_READWRITE: nat := 4
  const PAGE_USER_EXEC_READ: nat := 5

  /** Addresses of frames that fit the address field of an entry. */
  const PHYS_LIMIT: nat := 0x10_0000_0000_0000

  /** The rights a protection constant asks for; unknown ones get the least. */
  function RightsOf(mapType: nat): Rights {
    Rights(mapType == PAGE_READWRITE || mapType == PAGE_USER_READWRITE,
           mapType == PAGE_USER_READONLY || mapType == PAGE_USER_READWRITE || mapType == PAGE_USER_EXEC_READ,
           mapType != PAGE_EXECUTE_READ && mapType != PAGE_USER_EXEC_READ)
  }

  /** `mmuGetTableFlags`, branch by branch: the flags are those of an entry with the rights asked for. */
  function TableFlags(mapType: nat): (flags: nat)
    ensures flags == MakeEntry(0, RightsOf(mapType).write, RightsOf(mapType).user, RightsOf(mapType).noExecute)
  {
    var pteFlags := PTE_P + PTE_NX;
    if mapType == PAGE_READONLY then pteFlags
    else if mapType == PAGE_READWRITE then pteFlags + PTE_RW
    else if mapType == PAGE_EXECUTE_READ then pteFlags - PTE_NX
    else if mapType == PAGE_USER_READONLY then pteFlags + PTE_US
    else if mapType == PAGE_USER_READWRITE then pteFlags + PTE_RW + PTE_US
    else if mapType == PAGE_USER_EXEC_READ then pteFlags - PTE_NX + PTE_US
    else pteFlags
  }

  // ----- What a translation allows (Intel SDM Vol. 3A, section 4.6, with CR0.WP set and without SMEP, SMAP and keys)

  datatype Access = Read | Write | Fetch

  predicate Allows(x: Translation, user: bool, access: Access) {
    && x.Mapped?
    && (user ==> x.rights.user)
    && (access.Write? ==> x.rights.write)
    && (access.Fetch? ==> !x.rights.noExecute)
  }

  /** What protection number `prot` is for. */
  predicate Protects(x: Translation, prot: nat) {
    && Allows(x, false, Read)
    && (Allows(x, false, Write) <==> prot == 1 || prot == 4)
    && (Allows(x, false, Fetch) <==> prot == 2 || prot == 5)
    && (Allows(x, true, Read) <==> prot == 3 || prot == 4 || prot == 5)
    && (Allows(x, true, Write) <==> prot == 4)
    && (Allows(x, true, Fetch) <==> prot == 5)
  }

  /** The rights a protection number stands for, and only those, do what the number is for. */
  lemma RightsProtect(x: Translation, prot: nat)
    requires x.Mapped?
    ensures Protects(x, prot) <==> x.rights == RightsOf(prot)
  {}

  lemma AsAskedFor(x: Translation, prot: nat)
    ensures x.Mapped? && x.rights == RightsOf(prot) ==> Protects(x, prot)
  {}

  /** No protection number allows writing and execution at once. */
  lemma WriteOrExecute(x: Translation, prot: nat, user: bool)
    requires Protects(x, prot)
    ensures !(Allows(x, user, Write) && Allows(x, user, Fetch))
    ensures !(Allows(x, false, Write) && Allows(x, user, Fetch))
  {}

  /** The user protections are the kernel ones with the same access for user code. */
  lemma UserProtection(x: Translation, y: Translation, prot: nat, access: Access)
    requires prot < 3 && Protects(x, prot) && Protects(y, prot + 3)
    ensures Allows(y, true, access) <==> Allows(x, false, access)
    ensures Allows(y, false, access) <==> Allows(x, false, access)
    ensures !Allows(x, true, access)
  {}

  /** The flags in numbers: bit 0 present, bit 1 write, bit 2 user, bit 63 no execution. */
  lemma FlagNumbers(mapType: nat)
    ensures TableFlags(mapType) ==
              match mapType
              case 1 => 0x8000_0000_0000_0003
              case 2 => 0x0000_0000_0000_0001
              case 3 => 0x8000_0000_0000_0005
              case 4 => 0x8000_0000_0000_0007
              case 5 => 0x0000_0000_0000_0005
              case _ => 0x8000_0000_0000_0001
  {}

  /** No two neighbouring frames are free, which is when the allocator refuses a single frame. */
  ghost predicate Exhausted(used: set<nat>, n: nat) {
    forall f: nat {:trigger f in used} :: f + 1 < n ==> f in used || f + 1 in used
  }

  lemma RefusedFrame(used: set<nat>, n: nat)
    ensures FirstRun(used, n, 2, 0) < n || Exhausted(used, n)
  {
    if FirstRun(used, n, 2, 0) == n {
      forall f: nat | f + 1 < n ensures f in used || f + 1 in used {
        assert !FreeRun(used, n, f, 2);
      }
    }
  }

  class Region {
    var pBase: nat
    var vBase: nat
    var byteCount: nat

    constructor (phys: nat, virt: nat, count: nat)
      ensures pBase == phys && vBase == virt && byteCount == count
    {
      pBase, vBase, byteCount := phys, virt, count;
    }
  }

  /** Page `i` of a range of addresses that starts with page number `v`. */
  function PageAt(v: nat, i: nat): (p: nat)
    ensures p < PAGES
  {
    (v + i) % PAGES
  }

  ghost function PageRange(v: nat, k: nat): set<nat> {
    if k == 0 then {} else PageRange(v, k - 1) + {PageAt(v, k - 1)}
  }

  lemma PagesApart(v: nat, i: nat, j: nat)
    requires i < j < i + PAGES
    ensures PageAt(v, i) != PageAt(v, j)
  {
    var x, y := v + i, v + j;
    assert y - x == (y / PAGES - x / PAGES) * PAGES + (y % PAGES - x % PAGES);
  }

  /** The first `k` pages of a range translate to the frames from `pf` on, with the rights asked for if nothing restricts them. */
  ghost predicate PrefixMapped(m: seq<nat>, root: nat, v: nat, pf: nat, k: nat, rights: Rights, open: bool) {
    forall i: nat {:trigger PageAt(v, i)} :: i < k ==>
      var x := Translate(m, root, PageAt(v, i));
      x.Mapped? && x.frame == pf + i && (open ==> x.rights == rights)
  }

  ghost predicate PrefixProtected(m: seq<nat>, root: nat, v: nat, k: nat, prot: nat) {
    forall i: nat {:trigger PageAt(v, i)} :: i < k ==> Protects(Translate(m, root, PageAt(v, i)), prot)
  }

  lemma NothingMapped(m: seq<nat>, roles: Roles, root: nat, v: nat, pf: nat, rights: Rights, open: bool)
    ensures PrefixMapped(m, root, v, pf, 0, rights, open) && Elsewhere(m, m, roles, root, PageRange(v, 0))
  {}

  lemma RegionBounds(pBase: nat, vBase: nat, byteCount: nat)
    requires pBase + byteCount + PAGESIZE <= PHYS_LIMIT && vBase + byteCount + PAGESIZE <= 0x1_0000_0000_0000_0000
    requires byteCount <= PAGES * PAGESIZE
    ensures PAGESIZE == 4096 && PHYS_LIMIT == 4096 * FRAME_LIMIT
    ensures var n := (byteCount + PAGESIZE - 1) / PAGESIZE;
            n <= PAGES && pBase / PAGESIZE + n <= FRAME_LIMIT && vBase / PAGESIZE + n <= 0x10_0000_0000_0000
  {}

  /** The addresses of one round of the loop. */
  lemma NextPage(v: nat, pf: nat, i: nat, n: nat, vBase: nat, pBase: nat, off: nat)
    requires PAGESIZE == 4096 && vBase == v * 4096 && pBase == pf * 4096 && off == i * 4096 && i < n
    requires pf + n <= FRAME_LIMIT && PHYS_LIMIT == 4096 * FRAME_LIMIT
    ensures pBase + off < PHYS_LIMIT && (pBase + off) / PAGESIZE == pf + i && PageOf(vBase + off) == PageAt(v, i)
    ensures (i + 1) * 4096 == off + 4096
  {
    assert vBase + off == (v + i) * 4096 && pBase + off == (pf + i) * 4096;
  }

  /** Every page of a mapped prefix allows what its protection number is for. */
  lemma PrefixProtects(m: seq<nat>, root: nat, v: nat, pf: nat, k: nat, prot: nat, open: bool)
    requires PrefixMapped(m, root, v, pf, k, RightsOf(prot), open)
    ensures open ==> PrefixProtected(m, root, v, k, prot)
  {
    hide Translate;
    hide RightsOf;
    hide Protects;
    forall i: nat | open && i < k ensures Protects(Translate(m, root, PageAt(v, i)), prot) {
      AsAskedFor(Translate(m, root, PageAt(v, i)), prot);
    }
  }

  lemma StoppedHere(m0: seq<nat>, m: seq<nat>, m': seq<nat>, roles0: Roles, roles1: Roles, root: nat,
                    v: nat, pf: nat, k: nat, n: nat, rights: Rights, open: bool)
    requires PrefixMapped(m, root, v, pf, k, rights, open) && Elsewhere(m0, m, roles0, root, PageRange(v, k))
    requires Elsewhere(m, m', roles1, root, {}) && (k > 0 ==> IsRoot(roles1, root)) && forall r :: IsRoot(roles0, r) ==> IsRoot(roles1, r)
    ensures PrefixMapped(m', root, v, pf, k, rights, open) && Elsewhere(m0, m', roles0, root, PageRange(v, k))
  {
    hide Translate;
    var none: set<nat> := {};
    assert PageRange(v, k) + none == PageRange(v, k);
    ElsewhereTrans(m0, m, m', roles0, roles1, root, PageRange(v, k), none);
    forall i: nat | i < k ensures Translate(m', root, PageAt(v, i)) == Translate(m, root, PageAt(v, i)) {}
  }

  lemma OnePageMore(m0: seq<nat>, m: seq<nat>, m': seq<nat>, roles0: Roles, roles1: Roles, root: nat,
                    v: nat, pf: nat, k: nat, n: nat, rights: Rights, open: bool)
    requires PrefixMapped(m, root, v, pf, k, rights, open) && Elsewhere(m0, m, roles0, root, PageRange(v, k))
    requires k < n <= PAGES && IsRoot(roles1, root) && forall r :: IsRoot(roles0, r) ==> IsRoot(roles1, r)
    requires Elsewhere(m, m', roles1, root, {PageAt(v, k)})
    requires var x := Translate(m', root, PageAt(v, k)); x.Mapped? && x.frame == pf + k && (open ==> x.rights == rights)
    ensures PrefixMapped(m', root, v, pf, k + 1, rights, open) && Elsewhere(m0, m', roles0, root, PageRange(v, k + 1))
  {
    hide Translate;
    ElsewhereTrans(m0, m, m', roles0, roles1, root, PageRange(v, k), {PageAt(v, k)});
    forall i: nat | i < k ensures Translate(m', root, PageAt(v, i)) == Translate(m, root, PageAt(v, i)) {
      PagesApart(v, i, k);
    }
  }

  /** All that one word write can do to the tables. */
  lemma OneWord(m: seq<nat>, roles: Roles, t: nat, i: nat, v: nat)
    requires (t + 1) * 512 <= |m| && i < 512
    ensures t * 512 + i < |m|
    ensures OneEntry(m, m[t * 512 + i := v], roles, t, i) && Entry(m[t * 512 + i := v], t, i) == v
  {
    var m' := m[t * 512 + i := v];
    forall u, j: nat | u in roles && j < 512 && !(u == t && j == i) ensures Entry(m', u, j) == Entry(m, u, j) {
      assert u * 512 + j != t * 512 + i;
    }
  }

  /** No table was lost and none changed its role. */
  ghost predicate Extends(a: Roles, b: Roles) {
    forall t {:trigger b[t]} {:trigger a[t]} :: t in a ==> t in b && b[t] == a[t]
  }

  lemma ExtendsBy(a: Roles, f: nat, r: Role)
    ensures Extends(a, a) && (f !in a ==> Extends(a, a[f := r]))
  {}

  lemma ExtendsTrans(a: Roles, b: Roles, c: Roles)
    requires Extends(a, b) && Extends(b, c)
    ensures Extends(a, c)
  {}

  lemma ExtendsRoots(a: Roles, b: Roles)
    requires Extends(a, b)
    ensures forall r :: IsRoot(a, r) ==> IsRoot(b, r)
  {}

  /** The root frame a handle names, 0 for none. */
  function RootOf(vas: Handle): nat {
    if vas.Vas? then vas.cr3 / PAGESIZE else 0
  }

  /** A handle names a space, or nothing. */
  ghost predicate IsSpace(roles: Roles, vas: Handle) {
    vas.Vas? ==> vas.cr3 % PAGESIZE == 0 && IsRoot(roles, vas.cr3 / PAGESIZE)
  }

  lemma StillSpace(a: Roles, b: Roles, vas: Handle)
    requires Extends(a, b) && IsSpace(a, vas)
    ensures IsSpace(b, vas) && (vas.Vas? ==> IsRoot(a, RootOf(vas)))
  {}

  lemma Unchanged(m: seq<nat>, roles: Roles, root: nat)
    ensures Extends(roles, roles) && Elsewhere(m, m, roles, root, {})
  {}

  lemma LevelOf(root: nat, page: nat, level: nat)
    ensures RoleAt(root, page, level).level == level && (level == 3 ==> RoleAt(root, page, level).owner == root)
  {}

  lemma EntryIs(m: seq<nat>, t: nat, i: nat)
    requires (t + 1) * 512 <= |m| && i < 512
    ensures t * 512 + i < |m| && Entry(m, t, i) == m[t * 512 + i]
  {}

  lemma ElsewhereTwice(m0: seq<nat>, m1: seq<nat>, m2: seq<nat>, roles0: Roles, roles1: Roles, root: nat)
    requires Elsewhere(m0, m1, roles0, root, {}) && Elsewhere(m1, m2, roles1, root, {})
    requires forall r :: IsRoot(roles0, r) ==> IsRoot(roles1, r)
    ensures Elsewhere(m0, m2, roles0, root, {})
  {
    var none: set<nat> := {};
    assert none + none == none;
    ElsewhereTrans(m0, m1, m2, roles0, roles1, root, none, none);
  }

  /** Aligning an address down stays on its page. */
  lemma AlignedPage(v: nat)
    ensures PAGESIZE == 4096 && PageOf(v / PAGESIZE * PAGESIZE) == PageOf(v)
  {}

  lemma LeafEntry(pBase: nat, mFlags: nat)
    requires pBase < PHYS_LIMIT
    ensures var e := pBase / PAGESIZE * PAGESIZE + TableFlags(mFlags);
            && e == MakeEntry(pBase / PAGESIZE, RightsOf(mFlags).write, RightsOf(mFlags).user, RightsOf(mFlags).noExecute)
            && Present(e) && FrameOf(e) == pBase / PAGESIZE && Restrict(ALL_RIGHTS, e) == RightsOf(mFlags)
  {
    hide RightsOf;
    var r := RightsOf(mFlags);
    EntryFields(pBase / PAGESIZE, r.write, r.user, r.noExecute);
    hide TableFlags;
    hide Present;
    hide FrameOf;
    hide Writable;
    hide User;
    hide NoExecute;
  }

  lemma FullRights(m: seq<nat>, roles: Roles, root: nat, page: nat, pBase: nat, mFlags: nat)
    requires Tree(m, roles) && IsRoot(roles, root) && page < PAGES && pBase < PHYS_LIMIT
    requires Reach(m, root, page, 0).At?
    ensures var e := pBase / PAGESIZE * PAGESIZE + TableFlags(mFlags);
            Open(m, roles) ==> Restrict(Reach(m, root, page, 0).rights, e) == RightsOf(mFlags)
  {
    LeafEntry(pBase, mFlags);
    if Open(m, roles) {
      OpenReach(m, roles, root, page, 0);
    }
    hide Tree;
    hide Open;
    hide Restrict;
    hide RightsOf;
    hide TableFlags;
  }

  lemma LeafElsewhereTwice(m0: seq<nat>, m1: seq<nat>, m2: seq<nat>, roles0: Roles, roles1: Roles, root: nat, page: nat)
    requires Elsewhere(m0, m1, roles0, root, {}) && Elsewhere(m1, m2, roles1, root, {page})
    requires forall r :: IsRoot(roles0, r) ==> IsRoot(roles1, r)
    ensures Elsewhere(m0, m2, roles0, root, {page})
  {
    var none: set<nat> := {};
    assert none + {page} == {page};
    ElsewhereTrans(m0, m1, m2, roles0, roles1, root, none, {page});
  }

  lemma MorePages(m: seq<nat>, m': seq<nat>, roles: Roles, root: nat, pages: set<nat>, more: set<nat>)
    requires Elsewhere(m, m', roles, root, pages) && pages <= more
    ensures Elsewhere(m, m', roles, root, more)
  {}

  lemma NoTableNoPage(m: seq<nat>, root: nat, page: nat)
    requires Reach(m, root, page, 0) == Absent
    ensures Translate(m, root, page) == Unmapped
  {}

  lemma RootIs(m: seq<nat>, roles: Roles, src: nat)
    requires Tree(m, roles) && IsRoot(roles, src)
    ensures src in roles && (src + 1) * 512 <= |m|
  {}

  /** The first `i` entries of the new root are in place and nothing else differs. */
  ghost predicate CopiedUpTo(m: seq<nat>, m': seq<nat>, f: nat, src: nat, i: nat) {
    && |m'| == |m| && (f + 1) * 512 <= |m| && (src + 1) * 512 <= |m| && f != src && i <= 512
    && (forall j: nat {:trigger Entry(m', f, j)} :: j < i ==> Entry(m', f, j) == if j < 256 then 0 else Entry(m, src, j))
    && (forall w {:trigger m'[w]} :: 0 <= w < |m| && !(f * 512 <= w < (f + 1) * 512) ==> m'[w] == m[w])
  }

  lemma CopyNone(m: seq<nat>, f: nat, src: nat)
    requires (f + 1) * 512 <= |m| && (src + 1) * 512 <= |m| && f != src
    ensures CopiedUpTo(m, m, f, src, 0)
  {}

  lemma CopyStep(m: seq<nat>, m': seq<nat>, f: nat, src: nat, i: nat)
    requires CopiedUpTo(m, m', f, src, i) && i < 512
    ensures f * 512 + i < |m'| && src * 512 + i < |m'|
    ensures CopiedUpTo(m, m'[f * 512 + i := if i < 256 then 0 else m'[src * 512 + i]], f, src, i + 1)
  {
    assert src < f ==> (src + 1) * 512 <= f * 512;
    assert f < src ==> (f + 1) * 512 <= src * 512;
    var next := m'[f * 512 + i := if i < 256 then 0 else m'[src * 512 + i]];
    assert m'[src * 512 + i] == m[src * 512 + i];
    forall j: nat | j < i + 1 ensures Entry(next, f, j) == if j < 256 then 0 else Entry(m, src, j) {
      assert j < i ==> Entry(m', f, j) == if j < 256 then 0 else Entry(m, src, j);
    }
  }

  lemma CopyDone(m0: seq<nat>, m1: seq<nat>, m2: seq<nat>, roles: Roles, f: nat, src: nat)
    requires CopiedUpTo(m1, m2, f, src, 512) && SameTables(m0, m1, roles) && src in roles && f !in roles
    ensures CopiedRoot(m0, m2, f, src) && SameTables(m0, m2, roles)
  {
    forall j: nat | j < 512 ensures Entry(m2, f, j) == if j < 256 then 0 else Entry(m0, src, j) {
      assert Entry(m1, src, j) == Entry(m0, src, j);
    }
    forall u, j: nat | u in roles && j < 512 ensures Entry(m2, u, j) == Entry(m0, u, j) {
      assert Entry(m1, u, j) == Entry(m0, u, j);
      assert u < f ==> (u + 1) * 512 <= f * 512;
      assert f < u ==> (f + 1) * 512 <= u * 512;
    }
  }

  lemma SameSelf(m: seq<nat>, roles: Roles)
    ensures SameTables(m, m, roles)
  {}

  lemma TableBounds(m: seq<nat>, roles: Roles, t: nat)
    requires Tree(m, roles) && t in roles
    ensures 0 < t < FRAME_LIMIT && (t + 1) * 512 <= |m| && roles[t].level <= 3
    ensures roles[t].level == 3 ==> roles[t].owner == t
  {}

  /** A frame handed out by the allocator is blank and no table. */
  lemma FreshFrame(m: seq<nat>, m': seq<nat>, roles: Roles, f: nat)
    requires Zeroed(m, m', f, 1) && (f + 1) * 512 <= |m| && f !in roles
    ensures Blank(m', f) && SameTables(m, m', roles)
  {
    forall j: nat | j < 512 ensures Entry(m', f, j) == 0 {
      assert InFrames(f, 1, f * 512 + j);
    }
    forall u, j: nat | u in roles && j < 512 ensures Entry(m', u, j) == Entry(m, u, j) {
      assert !InFrames(f, 1, u * 512 + j) by {
        if u < f {
          assert (u + 1) * 512 <= f * 512;
        } else {
          assert (f + 1) * 512 <= u * 512;
        }
      }
    }
  }

  lemma SameTree(m: seq<nat>, m': seq<nat>, roles: Roles, root: nat)
    requires Tree(m, roles) && SameTables(m, m', roles) && |m'| == |m|
    ensures Tree(m', roles) && Elsewhere(m, m', roles, root, {}) && (Open(m, roles) ==> Open(m', roles))
  {
    forall r, p: nat | IsRoot(roles, r) && p < PAGES ensures Translate(m', r, p) == Translate(m, r, p) {
      SameTranslate(m, m', roles, r, p);
    }
    hide Translate;
    hide Present;
    hide FrameOf;
  }

  /** A fresh frame linked as the table behind an entry that was not present. */
  lemma TableAdded(m0: seq<nat>, m1: seq<nat>, m2: seq<nat>, roles: Roles, root: nat, t: nat, i: nat, f: nat)
    requires Tree(m0, roles) && t in roles && 0 < roles[t].level && i < 512 && !Present(Entry(m0, t, i))
    requires roles[t].level == 3 ==> t == root
    requires Zeroed(m0, m1, f, 1) && 0 < f < FRAME_LIMIT && (f + 1) * 512 <= |m0| && f !in roles
    requires t * 512 + i < |m1| && m2 == m1[t * 512 + i := MakeEntry(f, true, true, false)]
    ensures var more := roles[f := Child(roles[t], t, i)];
            Tree(m2, more) && Elsewhere(m0, m2, roles, root, {}) && (Open(m0, roles) ==> Open(m2, more))
    ensures Present(Entry(m2, t, i)) && FrameOf(Entry(m2, t, i)) == f && OneEntry(m0, m2, roles, t, i)
  {
    FreshFrame(m0, m1, roles, f);
    SameTree(m0, m1, roles, root);
    assert Entry(m1, t, i) == Entry(m0, t, i);
    assert (t + 1) * 512 <= |m1|;
    hide Tree;
    hide Open;
    hide MakeEntry;
    hide Elsewhere;
    OneWord(m1, roles, t, i, MakeEntry(f, true, true, false));
    StillBlank(m1, t, i, MakeEntry(f, true, true, false), f);
    EntryFields(f, true, true, false);
    GrowTree(m1, m2, roles, t, i, f);
    GrowElsewhere(m1, m2, roles, root, t, i, f);
    var none: set<nat> := {};
    assert none + none == none;
    ElsewhereTrans(m0, m1, m2, roles, roles, root, none, none);
    SameThenOne(m0, m1, m2, roles, t, i);
  }

  lemma StillBlank(m: seq<nat>, t: nat, i: nat, v: nat, f: nat)
    requires Blank(m, f) && t != f && i < 512 && t * 512 + i < |m|
    ensures Blank(m[t * 512 + i := v], f)
  {
    var m' := m[t * 512 + i := v];
    forall j: nat | j < 512 ensures Entry(m', f, j) == 0 {
      assert f * 512 + j != t * 512 + i;
      assert Entry(m, f, j) == 0;
    }
  }

  lemma SameThenOne(m0: seq<nat>, m1: seq<nat>, m2: seq<nat>, roles: Roles, t: nat, i: nat)
    requires SameTables(m0, m1, roles) && OneEntry(m1, m2, roles, t, i)
    ensures OneEntry(m0, m2, roles, t, i)
  {
    hide Entry;
    forall u, j: nat | u in roles && j < 512 && !(u == t && j == i) ensures Entry(m2, u, j) == Entry(m0, u, j) {
      assert Entry(m2, u, j) == Entry(m1, u, j);
      assert Entry(m1, u, j) == Entry(m0, u, j);
    }
  }

  class Mmu {
    const phys: FrameAllocator
    ghost var roles: Roles

    /** The tables in memory have the roles recorded, and their frames are taken. */
    ghost predicate Ok()
      reads this, phys, phys.bitmap, phys.mem
    {
      && phys.Valid() && phys.highestFrameIdx <= FRAME_LIMIT
      && Tree(phys.mem[..], roles) && roles.Keys <= Used(phys.bitmap[..])
    }

    /** Take over the tables the boot loader left. */
    constructor (frames: FrameAllocator, ghost tables: Roles)
      requires frames.Valid() && frames.highestFrameIdx <= FRAME_LIMIT
      requires Tree(frames.mem[..], tables) && tables.Keys <= Used(frames.bitmap[..])
      ensures Ok() && phys == frames && roles == tables
    {
      phys := frames;
      roles := tables;
    }

    lemma OkIs()
      requires Ok()
      ensures phys.Valid() && phys.highestFrameIdx <= FRAME_LIMIT && phys.highestFrameIdx * 512 <= phys.mem.Length
      ensures Tree(phys.mem[..], roles) && roles.Keys <= Used(phys.bitmap[..]) && phys.bitmap != phys.mem
      ensures PAGESIZE == 4096 && 0 !in roles
    {}

    lemma SpaceIs(vas: Handle)
      requires IsSpace(roles, vas) && vas.Vas?
      ensures IsRoot(roles, RootOf(vas)) && RootOf(vas) == vas.cr3 / PAGESIZE && vas.cr3 == RootOf(vas) * PAGESIZE
      ensures forall page :: Reach(phys.mem[..], RootOf(vas), page, 3) == At(RootOf(vas), ALL_RIGHTS)
    {}

    lemma OkFrom()
      requires phys.Valid() && phys.highestFrameIdx <= FRAME_LIMIT
      requires Tree(phys.mem[..], roles) && roles.Keys <= Used(phys.bitmap[..])
      ensures Ok()
    {}

    /** `curTable[levelIdx] = tmpVal | (PTE_P | PTE_RW | PTE_US)` for a newly allocated table. */
    method NewTable(t: nat, i: nat, ghost root: nat) returns (f: nat)
      requires Ok() && t in roles && 0 < roles[t].level && i < 512 && !Present(Entry(phys.mem[..], t, i))
      requires roles[t].level == 3 ==> t == root
      modifies this, phys, phys.bitmap, phys.mem
      ensures Ok() && Extends(old(roles), roles) && Elsewhere(old(phys.mem[..]), phys.mem[..], old(roles), root, {})
      ensures f != 0 ==> f in roles && roles[f] == Child(old(roles)[t], t, i)
                         && Present(Entry(phys.mem[..], t, i)) && FrameOf(Entry(phys.mem[..], t, i)) == f
                         && OneEntry(old(phys.mem[..]), phys.mem[..], old(roles), t, i)
      ensures f == 0 ==> phys.mem[..] == old(phys.mem[..]) && roles == old(roles)
      ensures f == 0 ==> Exhausted(Used(phys.bitmap[..]), phys.highestFrameIdx)
      ensures Open(old(phys.mem[..]), old(roles)) ==> Open(phys.mem[..], roles)
    {
      hide *;
      ghost var m0 := phys.mem[..];
      OkIs();
      TableBounds(m0, roles, t);
      SameSelf(m0, roles);
      SameTree(m0, m0, roles, root);
      ExtendsBy(roles, 0, Child(roles[t], t, i));
      RefusedFrame(Used(phys.bitmap[..]), phys.highestFrameIdx);
      var address := phys.AllocFrame(1);
      ghost var m1 := phys.mem[..];
      f := address / PAGESIZE;
      if f != 0 {
        assert f in Range(f, 1) && f !in roles;
        phys.mem[t * 512 + i] := MakeEntry(f, true, true, false);
        TableAdded(m0, m1, phys.mem[..], roles, root, t, i, f);
        ExtendsBy(roles, f, Child(roles[t], t, i));
        roles := roles[f := Child(roles[t], t, i)];
      }
      OkFrom();
    }

    /**
     `mmuGetLevelPhys`: the physical address of the table of the given level on the way to an address,
     with missing tables added if asked for. Whatever happens, no page of any space translates differently.
     */
    method GetLevelPhys(vas: Handle, virtAddr: nat, level: nat, alloc: bool) returns (ret: nat)
      requires Ok() && IsSpace(roles, vas)
      modifies this, phys, phys.bitmap, phys.mem
      ensures Ok() && Extends(old(roles), roles) && (Open(old(phys.mem[..]), old(roles)) ==> Open(phys.mem[..], roles))
      ensures Elsewhere(old(phys.mem[..]), phys.mem[..], old(roles), RootOf(vas), {})
      ensures !alloc ==> phys.mem[..] == old(phys.mem[..]) && roles == old(roles)
      ensures vas.NoHandle? || level > 3 ==> ret == 0
      ensures vas.Vas? && level <= 3 ==>
                var s := Reach(phys.mem[..], RootOf(vas), PageOf(virtAddr), level);
                && (ret != 0 ==> s.At? && ret == s.table * PAGESIZE)
                && (ret == 0 ==> s == Absent)
      ensures vas.Vas? && level <= 3 && ret == 0 ==> Reach(old(phys.mem[..]), RootOf(vas), PageOf(virtAddr), level) == Absent
      ensures vas.Vas? && level <= 3 && ret == 0 && alloc ==> Exhausted(Used(phys.bitmap[..]), phys.highestFrameIdx)
    {
      hide *;
      ghost var m0, roles0, page, root := phys.mem[..], roles, PageOf(virtAddr), RootOf(vas);
      Unchanged(m0, roles, root);
      if vas.NoHandle? {
        return 0;
      }
      if level > 3 {
        return 0;
      }
      OkIs();
      SpaceIs(vas);
      var curTable := vas.cr3 / PAGESIZE;
      var curLevel := 3;
      while curLevel > level
        invariant level <= curLevel <= 3 && Ok() && IsRoot(roles, root) && page < PAGES
        invariant Reach(phys.mem[..], root, page, curLevel).At? && Reach(phys.mem[..], root, page, curLevel).table == curTable
        invariant Extends(roles0, roles) && Elsewhere(m0, phys.mem[..], roles0, root, {})
        invariant Open(m0, roles0) ==> Open(phys.mem[..], roles)
        invariant !alloc ==> phys.mem[..] == m0 && roles == roles0
        invariant phys.mem[..] == m0 || Reach(m0, root, page, level) == Absent
        decreases curLevel
      {
        ghost var m, roles1 := phys.mem[..], roles;
        OkIs();
        ReachRole(m, roles, root, page, curLevel);
        TableBounds(m, roles, curTable);
        LevelOf(root, page, curLevel);
        var levelIdx := LevelIdx(virtAddr, curLevel);
        EntryIs(m, curTable, levelIdx);
        ReachDown(m, root, page, curLevel, curTable);
        var tmpVal := phys.mem[curTable * 512 + levelIdx];
        if Present(tmpVal) {
          curTable := FrameOf(tmpVal);
          curLevel := curLevel - 1;
          continue;
        }
        if !alloc {
          AbsentBelow(m, root, page, curLevel - 1, level);
          return 0;
        }
        AbsentBelow(m, root, page, curLevel - 1, level);
        var f := NewTable(curTable, levelIdx, root);
        ExtendsTrans(roles0, roles1, roles);
        ExtendsRoots(roles0, roles1);
        ExtendsRoots(roles1, roles);
        ElsewhereTwice(m0, m, phys.mem[..], roles0, roles1, root);
        if f == 0 {
          return 0;
        }
        ReachNew(m, phys.mem[..], roles1, root, page, curLevel, curTable, f);
        curTable := f;
        curLevel := curLevel - 1;
      }
      OkIs();
      ReachRole(phys.mem[..], roles, root, page, curLevel);
      TableBounds(phys.mem[..], roles, curTable);
      ret := curTable * PAGESIZE;
    }

    /** Write entry `v` for `page` into the last-level table the walk has come to. */
    method WriteLeaf(t: nat, v: nat, ghost root: nat, page: nat)
      requires Ok() && IsRoot(roles, root) && page < PAGES
      requires Reach(phys.mem[..], root, page, 0).At? && Reach(phys.mem[..], root, page, 0).table == t
      modifies phys.mem
      ensures Ok() && Elsewhere(old(phys.mem[..]), phys.mem[..], roles, root, {page})
      ensures Open(old(phys.mem[..]), roles) ==> Open(phys.mem[..], roles)
      ensures Translate(phys.mem[..], root, page) ==
                if Present(v) then Mapped(FrameOf(v), Restrict(Reach(old(phys.mem[..]), root, page, 0).rights, v)) else Unmapped
    {
      hide *;
      ghost var m := phys.mem[..];
      OkIs();
      ReachRole(m, roles, root, page, 0);
      TableBounds(m, roles, t);
      LevelOf(root, page, 0);
      var pteIdx := Index(page, 0);
      OneWord(m, roles, t, pteIdx, v);
      phys.mem[t * 512 + pteIdx] := v;
      LeafMapped(m, phys.mem[..], roles, root, page, t);
      LeafElsewhere(m, phys.mem[..], roles, root, page, t);
      LeafTree(m, phys.mem[..], roles, t, pteIdx);
      OkFrom();
    }

    /**
     `mmuMapSingle`: on success the page of `vBase` translates to the frame of `pBase`, with exactly the
     rights asked for when no upper level restricts them; no other page changes. A failure changes no
     translation at all.
     */
    method MapSingle(vas: Handle, vBase: nat, pBase: nat, mFlags: nat) returns (status: Status)
      requires Ok() && IsSpace(roles, vas) && pBase < PHYS_LIMIT
      modifies this, phys, phys.bitmap, phys.mem
      ensures Ok() && Extends(old(roles), roles) && (Open(old(phys.mem[..]), old(roles)) ==> Open(phys.mem[..], roles))
      ensures vas.NoHandle? <==> status == InvalidHandle
      ensures status == Success || status == NotMapped || status == InvalidHandle
      ensures status == NotMapped ==>
                && Reach(old(phys.mem[..]), RootOf(vas), PageOf(vBase), 0) == Absent
                && Exhausted(Used(phys.bitmap[..]), phys.highestFrameIdx)
      ensures status == Success ==>
                var x := Translate(phys.mem[..], RootOf(vas), PageOf(vBase));
                && x.Mapped? && x.frame == pBase / PAGESIZE
                && (Open(old(phys.mem[..]), old(roles)) ==> x.rights == RightsOf(mFlags) && Protects(x, mFlags))
      ensures Elsewhere(old(phys.mem[..]), phys.mem[..], old(roles), RootOf(vas),
                        if status == Success then {PageOf(vBase)} else {})
    {
      hide *;
      ghost var m0, roles0, page, root := phys.mem[..], roles, PageOf(vBase), RootOf(vas);
      Unchanged(m0, roles, root);
      if vas.NoHandle? {
        return InvalidHandle;
      }
      AlignedPage(vBase);
      var v := vBase / PAGESIZE * PAGESIZE;
      var p := pBase / PAGESIZE * PAGESIZE;
      SpaceIs(vas);
      var ptePhys := GetLevelPhys(vas, v, 0, true);
      if ptePhys == 0 {
        return NotMapped;
      }
      ghost var m1 := phys.mem[..];
      OkIs();
      ExtendsRoots(roles0, roles);
      LeafEntry(pBase, mFlags);
      var entry := p + TableFlags(mFlags);
      WriteLeaf(ptePhys / PAGESIZE, entry, root, PageOf(v));
      FullRights(m1, roles, root, page, pBase, mFlags);
      LeafElsewhereTwice(m0, m1, phys.mem[..], roles0, roles, root, page);
      AsAskedFor(Translate(phys.mem[..], root, page), mFlags);
      status := Success;
    }

    /** `mmuUnmapSingle`: the page of `vBase` is not mapped any more, and every other page is as before. */
    method UnmapSingle(vas: Handle, vBase: nat) returns (status: Status)
      requires Ok() && IsSpace(roles, vas)
      modifies this, phys, phys.bitmap, phys.mem
      ensures Ok() && roles == old(roles) && (Open(old(phys.mem[..]), roles) ==> Open(phys.mem[..], roles))
      ensures status == if vas.NoHandle? then InvalidHandle else Success
      ensures status == Success ==> Translate(phys.mem[..], RootOf(vas), PageOf(vBase)) == Unmapped
      ensures Elsewhere(old(phys.mem[..]), phys.mem[..], roles, RootOf(vas), if status == Success then {PageOf(vBase)} else {})
    {
      hide *;
      ghost var m0, page, root := phys.mem[..], PageOf(vBase), RootOf(vas);
      Unchanged(m0, roles, root);
      if vas.NoHandle? {
        return InvalidHandle;
      }
      AlignedPage(vBase);
      var v := vBase / PAGESIZE * PAGESIZE;
      SpaceIs(vas);
      var ptePhys := GetLevelPhys(vas, v, 0, false);
      if ptePhys == 0 {
        NoTableNoPage(phys.mem[..], root, page);
        MorePages(m0, phys.mem[..], roles, root, {}, {page});
        return Success;
      }
      NotPresent();
      WriteLeaf(ptePhys / PAGESIZE, 0, root, PageOf(v));
      status := Success;
    }

    /**
     `mmuCreateVas`: a new space that maps nothing in its lower half and shares the upper half of the
     current one. No existing space changes.
     */
    method CreateVas(curCr3: nat) returns (status: Status, cr3: nat)
      requires Ok() && IsRoot(roles, FrameOf(curCr3))
      modifies this, phys, phys.bitmap, phys.mem
      ensures Ok() && (Open(old(phys.mem[..]), old(roles)) ==> Open(phys.mem[..], roles))
      ensures status == Success || status == NoMemory
      ensures status == NoMemory ==> phys.mem[..] == old(phys.mem[..]) && roles == old(roles)
      ensures status == NoMemory ==> Exhausted(Used(phys.bitmap[..]), phys.highestFrameIdx)
      ensures status == Success ==>
                var f := cr3 / PAGESIZE;
                && f !in old(roles) && IsSpace(roles, Vas(cr3)) && roles == old(roles)[f := Role(3, 0, f)]
                && CopiedRoot(old(phys.mem[..]), phys.mem[..], f, FrameOf(curCr3))
                && forall page: nat :: page < PAGES ==>
                     Translate(phys.mem[..], f, page) ==
                       if page < LOWER_PAGES then Unmapped else Translate(old(phys.mem[..]), FrameOf(curCr3), page)
      ensures Elsewhere(old(phys.mem[..]), phys.mem[..], old(roles), 0, {})
    {
      hide *;
      ghost var m0 := phys.mem[..];
      OkIs();
      Unchanged(m0, roles, 0);
      var src := FrameOf(curCr3);
      RootIs(m0, roles, src);
      RefusedFrame(Used(phys.bitmap[..]), phys.highestFrameIdx);
      var pBase := phys.AllocFrame(1);
      if pBase == 0 {
        OkFrom();
        return NoMemory, 0;
      }
      ghost var m1 := phys.mem[..];
      var f := pBase / PAGESIZE;
      assert f in Range(f, 1) && f !in roles;
      FreshFrame(m0, m1, roles, f);
      CopyNone(m1, f, src);
      ghost var bits := phys.bitmap[..];
      var i := 0;
      while i < 512
        modifies phys.mem
        invariant i <= 512 && CopiedUpTo(m1, phys.mem[..], f, src, i)
      {
        ghost var m := phys.mem[..];
        CopyStep(m1, m, f, src, i);
        phys.mem[f * 512 + i] := if i < 256 then 0 else phys.mem[src * 512 + i];
        i := i + 1;
      }
      assert phys.bitmap[..] == bits;
      CopyDone(m0, m1, phys.mem[..], roles, f, src);
      RootTree(m0, phys.mem[..], roles, f, src);
      SameTree(m0, phys.mem[..], roles, 0);
      forall page: nat | page < PAGES
        ensures Translate(phys.mem[..], f, page) == if page < LOWER_PAGES then Unmapped else Translate(m0, src, page)
      {
        NewSpace(m0, phys.mem[..], roles, f, src, page);
      }
      roles := roles[f := Role(3, 0, f)];
      OkFrom();
      NewRoot(f, pBase);
      return Success, pBase;
    }

    lemma NewRoot(f: nat, cr3: nat)
      requires f in roles && roles[f] == Role(3, 0, f) && cr3 == f * 4096 && PAGESIZE == 4096
      ensures IsSpace(roles, Vas(cr3))
    {}

    /**
     `mmMapPages`: a non-null result means that every page of the aligned region is mapped, frame by
     frame, and nothing else has changed; when it stops early, exactly the first `done` pages are.
     */
    method MapPages(vas: Handle, region: Region?, prot: nat) returns (ret: nat, ghost done: nat)
      requires Ok() && IsSpace(roles, vas)
      requires region != null ==>
                 && region.pBase + region.byteCount + PAGESIZE <= PHYS_LIMIT
                 && region.vBase + region.byteCount + PAGESIZE <= 0x1_0000_0000_0000_0000
                 && region.byteCount <= PAGES * PAGESIZE
      modifies this, phys, phys.bitmap, phys.mem, region
      ensures Ok() && Extends(old(roles), roles) && (Open(old(phys.mem[..]), old(roles)) ==> Open(phys.mem[..], roles))
      ensures region == null ==> ret == 0
      ensures region == null || vas.NoHandle? ==> done == 0
      ensures region != null ==>
                && region.pBase == old(region.pBase) / PAGESIZE * PAGESIZE
                && region.vBase == old(region.vBase) / PAGESIZE * PAGESIZE
                && region.byteCount == (old(region.byteCount) + PAGESIZE - 1) / PAGESIZE * PAGESIZE
                && done <= region.byteCount / PAGESIZE
                && (done < region.byteCount / PAGESIZE ==> vas.NoHandle? || Exhausted(Used(phys.bitmap[..]), phys.highestFrameIdx))
                && (ret == 0 || ret == region.vBase)
                && (region.vBase != 0 ==> (ret != 0 <==> done == region.byteCount / PAGESIZE))
                && PrefixMapped(phys.mem[..], RootOf(vas), region.vBase / PAGESIZE, region.pBase / PAGESIZE, done, RightsOf(prot),
                                Open(old(phys.mem[..]), old(roles)))
                && (Open(old(phys.mem[..]), old(roles)) ==>
                      PrefixProtected(phys.mem[..], RootOf(vas), region.vBase / PAGESIZE, done, prot))
                && Elsewhere(old(phys.mem[..]), phys.mem[..], old(roles), RootOf(vas), PageRange(region.vBase / PAGESIZE, done))
      ensures region == null ==> phys.mem[..] == old(phys.mem[..])
    {
      hide *;
      done := 0;
      if region == null {
        ExtendsBy(roles, 0, Role(0, 0, 0));
        return 0, 0;
      }
      ghost var m0, roles0, root, open := phys.mem[..], roles, RootOf(vas), Open(phys.mem[..], roles);
      RegionBounds(region.pBase, region.vBase, region.byteCount);
      region.byteCount := (region.byteCount + PAGESIZE - 1) / PAGESIZE * PAGESIZE;
      region.pBase := region.pBase / PAGESIZE * PAGESIZE;
      region.vBase := region.vBase / PAGESIZE * PAGESIZE;
      ghost var n, v, pf := region.byteCount / PAGESIZE, region.vBase / PAGESIZE, region.pBase / PAGESIZE;
      Unchanged(m0, roles, root);
      NothingMapped(m0, roles, root, v, pf, RightsOf(prot), open);
      var off := 0;
      while off < region.byteCount
        modifies this, phys, phys.bitmap, phys.mem
        invariant (vas.NoHandle? ==> done == 0) && done <= n && off == done * PAGESIZE && Ok() && IsSpace(roles, vas)
        invariant Extends(roles0, roles) && (open ==> Open(phys.mem[..], roles))
        invariant PrefixMapped(phys.mem[..], root, v, pf, done, RightsOf(prot), open)
        invariant Elsewhere(m0, phys.mem[..], roles0, root, PageRange(v, done))
        decreases n - done
      {
        ghost var m, roles1 := phys.mem[..], roles;
        NextPage(v, pf, done, n, region.vBase, region.pBase, off);
        var status := MapSingle(vas, region.vBase + off, region.pBase + off, prot);
        ExtendsTrans(roles0, roles1, roles);
        ExtendsRoots(roles0, roles1);
        StillSpace(roles1, roles, vas);
        if status != Success {
          StoppedHere(m0, m, phys.mem[..], roles0, roles1, root, v, pf, done, n, RightsOf(prot), open);
          PrefixProtects(phys.mem[..], root, v, pf, done, prot, open);
          return 0, done;
        }
        OnePageMore(m0, m, phys.mem[..], roles0, roles1, root, v, pf, done, n, RightsOf(prot), open);
        off := off + PAGESIZE;
        done := done + 1;
      }
      PrefixProtects(phys.mem[..], root, v, pf, done, prot, open);
      return region.vBase, done;
    }
  }
}
