/**
 Four-level page tables as a map from pages to frames with rights (Intel SDM Vol. 3A, sections 4.5
 and 4.6). A table is a frame of 512 entries; a page is a virtual address without its offset and
 without the sign-extension bits, a number below 2^36.
 */
module PageTables {
  import Digits

  const PAGES: nat := 0x10_0000_0000
  const LOWER_PAGES: nat := 0x8_0000_0000
  const FRAME_LIMIT: nat := 0x100_0000_0000
  const PTE_P: nat := 1
  const PTE_RW: nat := 2
  const PTE_US: nat := 4
  const PTE_NX: nat := 0x8000_0000_0000_0000

  // ----- Entries

  predicate Present(e: nat) {
    e % 2 == 1
  }

  predicate Writable(e: nat) {
    e / 2 % 2 == 1
  }

  predicate User(e: nat) {
    e / 4 % 2 == 1
  }

  predicate NoExecute(e: nat) {
    e / PTE_NX % 2 == 1
  }

  /** `(e & PTE_ADDR_MASK) / PAGESIZE` */
  function FrameOf(e: nat): (f: nat)
    ensures f < FRAME_LIMIT
  {
    e / 4096 % FRAME_LIMIT
  }

  /** An entry for frame `f` with the given rights. */
  function MakeEntry(f: nat, w: bool, u: bool, nx: bool): nat {
    4096 * f + PTE_P + (if w then PTE_RW else 0) + (if u then PTE_US else 0) + (if nx then PTE_NX else 0)
  }

  lemma ModShift(x: nat, k: nat, n: nat)
    requires n > 0
    ensures (x + k * n) % n == x % n
  {
    assert x + k * n == (x / n + k) * n + x % n;
    Digits.DivModUnique(n, x / n + k, x % n);
  }

  lemma DivShift(x: nat, k: nat, n: nat)
    requires n > 0
    ensures (x + k * n) / n == x / n + k
  {
    assert x + k * n == (x / n + k) * n + x % n;
    Digits.DivModUnique(n, x / n + k, x % n);
  }

  lemma LowFields(f: nat, low: nat)
    requires f < FRAME_LIMIT && low < 8
    ensures var e := 4096 * f + low;
            && Present(e) == (low % 2 == 1) && Writable(e) == (low / 2 % 2 == 1) && User(e) == (low / 4 % 2 == 1)
            && FrameOf(e) == f && !NoExecute(e) && e < PTE_NX
  {
    LowBits(f, low);
    DivShift(low, f, 4096);
    assert 4096 * f + low < PTE_NX;
  }

  lemma LowBits(f: nat, low: nat)
    ensures var e := 4096 * f + low;
            e % 2 == low % 2 && e / 2 % 2 == low / 2 % 2 && e / 4 % 2 == low / 4 % 2
  {
    ModShift(low, 2048 * f, 2);
    DivShift(low, 2048 * f, 2);
    ModShift(low / 2, 1024 * f, 2);
    DivShift(low, 1024 * f, 4);
    ModShift(low / 4, 512 * f, 2);
  }

  /** Bit 63 does not show in the other fields. */
  lemma HighBit(e: nat)
    requires e < PTE_NX
    ensures var x := e + PTE_NX;
            && Present(x) == Present(e) && Writable(x) == Writable(e) && User(x) == User(e) && NoExecute(x)
            && FrameOf(x) == FrameOf(e)
  {
    ModShift(e, 0x4000_0000_0000_0000, 2);
    DivShift(e, 0x4000_0000_0000_0000, 2);
    ModShift(e / 2, 0x2000_0000_0000_0000, 2);
    DivShift(e, 0x2000_0000_0000_0000, 4);
    ModShift(e / 4, 0x1000_0000_0000_0000, 2);
    DivShift(e, 0x8_0000_0000_0000, 4096);
    ModShift(e / 4096, 2048, FRAME_LIMIT);
  }

  lemma EntryFields(f: nat, w: bool, u: bool, nx: bool)
    requires f < FRAME_LIMIT
    ensures var e := MakeEntry(f, w, u, nx);
            Present(e) && FrameOf(e) == f && Writable(e) == w && User(e) == u && NoExecute(e) == nx
  {
    hide Present;
    hide Writable;
    hide User;
    hide NoExecute;
    hide FrameOf;
    var low := 1 + (if w then 2 else 0) + if u then 4 else 0;
    LowFields(f, low);
    HighBit(4096 * f + low);
  }

  /** The places of the fields in any entry: bits 0 to 2, bits 12 to 51 and bit 63. */
  lemma EntryLayout(p: nat, w: nat, u: nat, rest: nat, f: nat, free: nat, nx: nat)
    requires p < 2 && w < 2 && u < 2 && rest < 512 && f < FRAME_LIMIT && free < 2048 && nx < 2
    ensures var e := p + 2 * w + 4 * u + 8 * rest + 0x1000 * f + 0x10_0000_0000_0000 * free + 0x8000_0000_0000_0000 * nx;
            && (Present(e) <==> p == 1) && (Writable(e) <==> w == 1) && (User(e) <==> u == 1)
            && FrameOf(e) == f && (NoExecute(e) <==> nx == 1)
  {
    var flags := p + 2 * w + 4 * u + 8 * rest;
    var high := f + FRAME_LIMIT * (free + 2048 * nx);
    var e := p + 2 * w + 4 * u + 8 * rest + 0x1000 * f + 0x10_0000_0000_0000 * free + 0x8000_0000_0000_0000 * nx;
    assert e == high * 4096 + flags;
    Digits.DivModUnique(4096, high, flags);
    Digits.DivModUnique(FRAME_LIMIT, free + 2048 * nx, f);
    Digits.DivModUnique(2, w + 2 * u + 4 * rest + 2048 * high, p);
    Digits.DivModUnique(2, u + 2 * rest + 1024 * high, w);
    Digits.DivModUnique(4, u + 2 * rest + 1024 * high, p + 2 * w);
    Digits.DivModUnique(2, rest + 512 * high, u);
    Digits.DivModUnique(PTE_NX, nx, flags + 0x1000 * f + 0x10_0000_0000_0000 * free);
  }

  // ----- Indices

  /** The page without its `k` lowest table indices. */
  function Prefix(page: nat, k: nat): nat {
    if k == 0 then page else Prefix(page, k - 1) / 512
  }

  /** The index of `page` in a table of the given level. */
  function Index(page: nat, level: nat): (i: nat)
    ensures i < 512
  {
    Prefix(page, level) % 512
  }

  /** The page a virtual address lies in. */
  function PageOf(virtAddr: nat): (p: nat)
    ensures p < PAGES
  {
    virtAddr / 4096 % PAGES
  }

  /** `mmuGetLevelIdx`, for levels 0 (page table) to 3 (PML4). */
  function LevelIdx(virtAddr: nat, level: nat): (i: nat)
    requires level < 4
    ensures i == Index(PageOf(virtAddr), level)
  {
    LevelIdxLaw(virtAddr, level);
    (match level
     case 0 => virtAddr / 0x1000
     case 1 => virtAddr / 0x20_0000
     case 2 => virtAddr / 0x4000_0000
     case _ => virtAddr / 0x80_0000_0000) % 512
  }

  /** Dropping high digits does not change the digit in place `a`. */
  lemma DropHigh(q: nat, r: nat, c: nat, a: nat)
    requires a > 0
    ensures (q * (c * (512 * a)) + r) / a % 512 == r / a % 512
  {
    var y := r / a;
    assert q * (c * (512 * a)) + r == (q * c * 512 + y) * a + r % a;
    Digits.DivModUnique(a, q * c * 512 + y, r % a);
    assert q * c * 512 + y == (q * c + y / 512) * 512 + y % 512;
    Digits.DivModUnique(512, q * c + y / 512, y % 512);
  }

  lemma ModThenDiv(x: nat, a: nat)
    requires a == 1 || a == 512 || a == 0x4_0000 || a == 0x800_0000
    ensures x % PAGES / a % 512 == x / a % 512
  {
    var c := if a == 1 then 0x800_0000 else if a == 512 then 0x4_0000 else if a == 0x4_0000 then 512 else 1;
    assert c * (512 * a) == PAGES;
    DropHigh(x / PAGES, x % PAGES, c, a);
  }

  /** Shift and mask pick the index the page has at that level. */
  lemma LevelIdxLaw(virtAddr: nat, level: nat)
    requires level < 4
    ensures Index(PageOf(virtAddr), level) ==
            (match level
             case 0 => virtAddr / 0x1000
             case 1 => virtAddr / 0x20_0000
             case 2 => virtAddr / 0x4000_0000
             case _ => virtAddr / 0x80_0000_0000) % 512
  {
    var x := virtAddr / 4096;
    var p := x % PAGES;
    assert Prefix(p, 1) == p / 512 && Prefix(p, 2) == p / 512 / 512 && Prefix(p, 3) == p / 512 / 512 / 512;
    assert p / 512 / 512 == p / 0x4_0000 && p / 512 / 512 / 512 == p / 0x800_0000;
    assert x / 512 == virtAddr / 0x20_0000 && x / 0x4_0000 == virtAddr / 0x4000_0000 && x / 0x800_0000 == virtAddr / 0x80_0000_0000;
    ModThenDiv(x, if level == 0 then 1 else if level == 1 then 512 else if level == 2 then 0x4_0000 else 0x800_0000);
  }

  lemma PrefixBounds(page: nat)
    requires page < PAGES
    ensures Prefix(page, 3) < 512 && Prefix(page, 4) == 0 && (Prefix(page, 3) < 256 <==> page < LOWER_PAGES)
  {
    assert Prefix(page, 1) == page / 512 && Prefix(page, 2) == Prefix(page, 1) / 512;
  }

  // ----- The walk of the hardware

  datatype Rights = Rights(write: bool, user: bool, noExecute: bool)
  datatype Stage = Absent | At(table: nat, rights: Rights)
  datatype Translation = Unmapped | Mapped(frame: nat, rights: Rights)

  const ALL_RIGHTS: Rights := Rights(true, true, false)

  /** Entry `i` of the table in frame `t`. */
  ghost function Entry(m: seq<nat>, t: nat, i: nat): nat {
    if t * 512 + i < |m| then m[t * 512 + i] else 0
  }

  /** Write and user rights are those of all levels together, execution is barred by any of them. */
  function Restrict(a: Rights, e: nat): Rights {
    Rights(a.write && Writable(e), a.user && User(e), a.noExecute || NoExecute(e))
  }

  /** The table of the given level on the way to `page` in the space with root `root`. */
  ghost function Reach(m: seq<nat>, root: nat, page: nat, level: nat): Stage
    requires level <= 3
    decreases 3 - level
  {
    if level == 3 then At(root, ALL_RIGHTS)
    else
      match Reach(m, root, page, level + 1)
      case Absent => Absent
      case At(t, a) =>
        var e := Entry(m, t, Index(page, level + 1));
        if Present(e) then At(FrameOf(e), Restrict(a, e)) else Absent
  }

  /** What the hardware makes of `page` in the space with root `root`. */
  ghost function Translate(m: seq<nat>, root: nat, page: nat): Translation {
    match Reach(m, root, page, 0)
    case Absent => Unmapped
    case At(t, a) =>
      var e := Entry(m, t, Index(page, 0));
      if Present(e) then Mapped(FrameOf(e), Restrict(a, e)) else Unmapped
  }

  // ----- The tables of all spaces

  /**
   What a table frame is for: its level, the indices that lead to it, and the root of the space it
   belongs to, 0 for tables of the upper half, which spaces share.
   */
  datatype Role = Role(level: nat, prefix: nat, owner: nat)

  type Roles = map<nat, Role>

  /** The role of the table that entry `i` of table `t` leads to. */
  ghost function Child(r: Role, t: nat, i: nat): Role {
    Role(if r.level == 0 then 0 else r.level - 1, r.prefix * 512 + i,
         if r.level == 3 then (if i < 256 then t else 0) else r.owner)
  }

  /** The role of the table of the given level on the way to `page` in a space. */
  ghost function RoleAt(root: nat, page: nat, level: nat): Role {
    Role(level, Prefix(page, level + 1), if level == 3 || page < LOWER_PAGES then root else 0)
  }

  ghost predicate IsRoot(roles: Roles, t: nat) {
    t in roles && roles[t].level == 3
  }

  /** Tables have frames of their own, and every present entry leads to a table with the role that follows from its place. */
  ghost predicate Tree(m: seq<nat>, roles: Roles) {
    && (forall t {:trigger roles[t]} :: t in roles ==>
          && 0 < t < FRAME_LIMIT && (t + 1) * 512 <= |m| && roles[t].level <= 3
          && (roles[t].level == 3 ==> roles[t] == Role(3, 0, t)))
    && (forall t, i: nat {:trigger Entry(m, t, i)} :: t in roles && roles[t].level > 0 && i < 512 && Present(Entry(m, t, i)) ==>
          var c := FrameOf(Entry(m, t, i)); c in roles && roles[c] == Child(roles[t], t, i))
  }

  /** Above the last level every entry grants everything, as those this code makes do. */
  ghost predicate Open(m: seq<nat>, roles: Roles) {
    forall t, i: nat {:trigger Entry(m, t, i)} :: t in roles && roles[t].level > 0 && i < 512 && Present(Entry(m, t, i)) ==>
      Restrict(ALL_RIGHTS, Entry(m, t, i)) == ALL_RIGHTS
  }

  /** Going down one level extends the role as it should. */
  lemma RoleStep(root: nat, page: nat, level: nat)
    requires page < PAGES && 0 < level <= 3
    ensures Child(RoleAt(root, page, level), root, Index(page, level)) == RoleAt(root, page, level - 1)
    ensures level < 3 ==> forall t: nat ::
              Child(RoleAt(root, page, level), t, Index(page, level)) == RoleAt(root, page, level - 1)
  {
    PrefixBounds(page);
    assert Prefix(page, level) == Prefix(page, level) / 512 * 512 + Prefix(page, level) % 512;
  }

  /** Every table on the way to a page has the role of its place on that way. */
  lemma {:induction false} ReachRole(m: seq<nat>, roles: Roles, root: nat, page: nat, level: nat)
    requires Tree(m, roles) && IsRoot(roles, root) && page < PAGES && level <= 3
    ensures var s := Reach(m, root, page, level);
            s.At? ==> s.table in roles && roles[s.table] == RoleAt(root, page, level)
    decreases 3 - level
  {
    if level == 3 {
      PrefixBounds(page);
      assert roles[root] == Role(3, 0, root);
    } else {
      ReachRole(m, roles, root, page, level + 1);
      RoleStep(root, page, level + 1);
      var s := Reach(m, root, page, level + 1);
      if s.At? {
        assert Entry(m, s.table, Index(page, level + 1)) >= 0;
        assert level + 1 == 3 ==> s.table == root;
      }
    }
  }

  /** The tables two spaces use for their lower halves, roots included, are all different frames. */
  lemma LowerHalvesApart(m: seq<nat>, roles: Roles, r: nat, p: nat, k: nat, s: nat, q: nat, l: nat)
    requires Tree(m, roles) && IsRoot(roles, r) && IsRoot(roles, s) && r != s
    requires p < LOWER_PAGES && q < LOWER_PAGES && k <= 3 && l <= 3
    requires Reach(m, r, p, k).At? && Reach(m, s, q, l).At?
    ensures Reach(m, r, p, k).table != Reach(m, s, q, l).table
  {
    hide Reach;
    ReachRole(m, roles, r, p, k);
    ReachRole(m, roles, s, q, l);
  }

  /** Nothing but entry `(t, i)` differs in any table. */
  ghost predicate OneEntry(m: seq<nat>, m': seq<nat>, roles: Roles, t: nat, i: nat) {
    forall u, j: nat {:trigger Entry(m', u, j)} :: u in roles && j < 512 && !(u == t && j == i) ==> Entry(m', u, j) == Entry(m, u, j)
  }

  /** Entry `(t, i)` is on the way to `page` in the space. */
  ghost predicate OnPath(roles: Roles, root: nat, page: nat, t: nat, i: nat) {
    t in roles && roles[t].level <= 3 && roles[t] == RoleAt(root, page, roles[t].level) && i == Index(page, roles[t].level)
  }

  /** A changed entry matters only to the walks that go through it, and only below it. */
  lemma {:induction false} ReachSame(m: seq<nat>, m': seq<nat>, roles: Roles, root: nat, page: nat, level: nat, t: nat, i: nat)
    requires Tree(m, roles) && IsRoot(roles, root) && page < PAGES && level <= 3 && OneEntry(m, m', roles, t, i)
    requires OnPath(roles, root, page, t, i) ==> roles[t].level <= level
    ensures Reach(m', root, page, level) == Reach(m, root, page, level)
    decreases 3 - level
  {
    if level < 3 {
      ReachSame(m, m', roles, root, page, level + 1, t, i);
      ReachRole(m, roles, root, page, level + 1);
      var s := Reach(m, root, page, level + 1);
      if s.At? {
        assert Entry(m', s.table, Index(page, level + 1)) == Entry(m, s.table, Index(page, level + 1));
      }
    }
  }

  lemma OffPathSame(m: seq<nat>, m': seq<nat>, roles: Roles, root: nat, page: nat, t: nat, i: nat)
    requires Tree(m, roles) && IsRoot(roles, root) && page < PAGES && OneEntry(m, m', roles, t, i)
    requires !OnPath(roles, root, page, t, i)
    ensures Translate(m', root, page) == Translate(m, root, page)
  {
    ReachSame(m, m', roles, root, page, 0, t, i);
    ReachRole(m, roles, root, page, 0);
    hide Tree;
    hide Reach;
    var s := Reach(m, root, page, 0);
    if s.At? {
      assert Entry(m', s.table, Index(page, 0)) == Entry(m, s.table, Index(page, 0));
    }
  }

  /** Table `f` is new and empty. */
  ghost predicate Blank(m: seq<nat>, f: nat) {
    forall j: nat {:trigger Entry(m, f, j)} :: j < 512 ==> Entry(m, f, j) == 0
  }

  lemma {:induction false} AbsentBelow(m: seq<nat>, root: nat, page: nat, level: nat, k: nat)
    requires k <= level <= 3 && Reach(m, root, page, level) == Absent
    ensures Reach(m, root, page, k) == Absent
    decreases level - k
  {
    if k < level {
      AbsentBelow(m, root, page, level, k + 1);
    }
  }

  /** An entry that was not present now leads to a blank table: no walk changes. */
  lemma GrowSame(m: seq<nat>, m': seq<nat>, roles: Roles, root: nat, page: nat, t: nat, i: nat, f: nat)
    requires Tree(m, roles) && IsRoot(roles, root) && page < PAGES && OneEntry(m, m', roles, t, i)
    requires t in roles && 0 < roles[t].level <= 3 && i < 512 && !Present(Entry(m, t, i))
    requires FrameOf(Entry(m', t, i)) == f && Blank(m', f)
    ensures Translate(m', root, page) == Translate(m, root, page)
  {
    hide Tree;
    hide OneEntry;
    if OnPath(roles, root, page, t, i) {
      var level := roles[t].level;
      ReachSame(m, m', roles, root, page, level, t, i);
      var s := Reach(m, root, page, level);
      if s.At? && s.table == t {
        assert Reach(m, root, page, level - 1) == Absent;
        AbsentBelow(m, root, page, level - 1, 0);
        GrownIsBlank(m', root, page, level - 1, f);
      } else {
        OffThere(m, m', roles, root, page, level, t, i);
      }
    } else {
      OffPathSame(m, m', roles, root, page, t, i);
    }
  }

  /** A walk that comes to a blank table ends there. */
  lemma GrownIsBlank(m: seq<nat>, root: nat, page: nat, level: nat, f: nat)
    requires level < 3 && Blank(m, f)
    requires var s := Reach(m, root, page, level); s.At? ==> s.table == f
    ensures Translate(m, root, page) == Unmapped
  {
    var s := Reach(m, root, page, level);
    if s.At? {
      assert Entry(m, f, Index(page, level)) == 0;
      if level > 0 {
        assert Reach(m, root, page, level - 1) == Absent;
        AbsentBelow(m, root, page, level - 1, 0);
      }
    } else {
      AbsentBelow(m, root, page, level, 0);
    }
  }

  /** A walk that stays clear of table `t` from its level on is the same below. */
  lemma {:induction false} OffThereReach(m: seq<nat>, m': seq<nat>, roles: Roles, root: nat, page: nat, level: nat, t: nat, i: nat, k: nat)
    requires Tree(m, roles) && IsRoot(roles, root) && page < PAGES && OneEntry(m, m', roles, t, i)
    requires t in roles && roles[t].level == level <= 3 && k <= level
    requires Reach(m', root, page, level) == Reach(m, root, page, level)
    requires var s := Reach(m, root, page, level); s.At? ==> s.table != t
    ensures Reach(m', root, page, k) == Reach(m, root, page, k)
    decreases level - k
  {
    hide Tree;
    if k < level {
      OffThereReach(m, m', roles, root, page, level, t, i, k + 1);
      ReachRole(m, roles, root, page, k + 1);
      var s := Reach(m, root, page, k + 1);
      if s.At? {
        assert Entry(m', s.table, Index(page, k + 1)) == Entry(m, s.table, Index(page, k + 1));
      }
    }
  }

  lemma OffThere(m: seq<nat>, m': seq<nat>, roles: Roles, root: nat, page: nat, level: nat, t: nat, i: nat)
    requires Tree(m, roles) && IsRoot(roles, root) && page < PAGES && OneEntry(m, m', roles, t, i)
    requires t in roles && roles[t].level == level && 0 < level <= 3
    requires Reach(m', root, page, level) == Reach(m, root, page, level)
    requires var s := Reach(m, root, page, level); s.At? ==> s.table != t
    ensures Translate(m', root, page) == Translate(m, root, page)
  {
    OffThereReach(m, m', roles, root, page, level, t, i, 0);
    ReachRole(m, roles, root, page, 0);
    var s := Reach(m, root, page, 0);
    if s.At? {
      assert Entry(m', s.table, Index(page, 0)) == Entry(m, s.table, Index(page, 0));
    }
  }

  /** With every upper-level entry granting everything, only the last level restricts. */
  lemma {:induction false} OpenReach(m: seq<nat>, roles: Roles, root: nat, page: nat, level: nat)
    requires Tree(m, roles) && Open(m, roles) && IsRoot(roles, root) && page < PAGES && level <= 3
    ensures var s := Reach(m, root, page, level); s.At? ==> s.rights == ALL_RIGHTS
    decreases 3 - level
  {
    if level < 3 {
      OpenReach(m, roles, root, page, level + 1);
      ReachRole(m, roles, root, page, level + 1);
      var s := Reach(m, root, page, level + 1);
      if s.At? {
        assert Entry(m, s.table, Index(page, level + 1)) >= 0;
      }
    }
  }

  /** The next stage of a walk, as the loop of `mmuGetLevelPhys` takes it. */
  lemma ReachDown(m: seq<nat>, root: nat, page: nat, level: nat, t: nat)
    requires 0 < level <= 3 && Reach(m, root, page, level).At? && Reach(m, root, page, level).table == t
    ensures var e := Entry(m, t, Index(page, level));
            var s := Reach(m, root, page, level - 1);
            if Present(e) then s.At? && s.table == FrameOf(e) else s == Absent
  {}

  /** Adding a table below the stage reached moves the walk on to it. */
  lemma ReachNew(m: seq<nat>, m': seq<nat>, roles: Roles, root: nat, page: nat, level: nat, t: nat, f: nat)
    requires Tree(m, roles) && IsRoot(roles, root) && page < PAGES && 0 < level <= 3
    requires OneEntry(m, m', roles, t, Index(page, level))
    requires Reach(m, root, page, level).At? && Reach(m, root, page, level).table == t
    requires Present(Entry(m', t, Index(page, level))) && FrameOf(Entry(m', t, Index(page, level))) == f
    ensures Reach(m', root, page, level - 1).At? && Reach(m', root, page, level - 1).table == f
  {
    ReachRole(m, roles, root, page, level);
    ReachSame(m, m', roles, root, page, level, t, Index(page, level));
  }

  /** A last-level entry written at the end of the walk is what the page translates to. */
  lemma LeafMapped(m: seq<nat>, m': seq<nat>, roles: Roles, root: nat, page: nat, t: nat)
    requires Tree(m, roles) && IsRoot(roles, root) && page < PAGES && OneEntry(m, m', roles, t, Index(page, 0))
    requires Reach(m, root, page, 0).At? && Reach(m, root, page, 0).table == t
    ensures t in roles && roles[t] == RoleAt(root, page, 0)
    ensures var e := Entry(m', t, Index(page, 0));
            Translate(m', root, page) ==
              if Present(e) then Mapped(FrameOf(e), Restrict(Reach(m, root, page, 0).rights, e)) else Unmapped
  {
    ReachRole(m, roles, root, page, 0);
    ReachSame(m, m', roles, root, page, 0, t, Index(page, 0));
  }

  // ----- What the three kinds of writes keep

  /** `pte[i] = …` in a last-level table. */
  lemma LeafTree(m: seq<nat>, m': seq<nat>, roles: Roles, t: nat, i: nat)
    requires Tree(m, roles) && |m'| == |m| && OneEntry(m, m', roles, t, i) && t in roles && roles[t].level == 0
    ensures Tree(m', roles) && (Open(m, roles) ==> Open(m', roles))
  {
    forall u, j: nat | u in roles && roles[u].level > 0 && j < 512 ensures Entry(m', u, j) == Entry(m, u, j) {}
  }

  /** A blank frame becomes the table that entry `(t, i)` leads to. */
  lemma GrowTree(m: seq<nat>, m': seq<nat>, roles: Roles, t: nat, i: nat, f: nat)
    requires Tree(m, roles) && |m'| == |m| && OneEntry(m, m', roles, t, i) && t in roles && roles[t].level > 0 && i < 512
    requires f !in roles && 0 < f < FRAME_LIMIT && (f + 1) * 512 <= |m| && Blank(m', f)
    requires Entry(m', t, i) == MakeEntry(f, true, true, false)
    ensures var more := roles[f := Child(roles[t], t, i)];
            Tree(m', more) && (Open(m, roles) ==> Open(m', more))
  {
    EntryFields(f, true, true, false);
    hide Present;
    hide FrameOf;
    hide Writable;
    hide User;
    hide NoExecute;
    hide MakeEntry;
    NotPresent();
    var more := roles[f := Child(roles[t], t, i)];
    forall u, j: nat | u in more && more[u].level > 0 && j < 512 && Present(Entry(m', u, j))
      ensures var c := FrameOf(Entry(m', u, j)); c in more && more[c] == Child(more[u], u, j)
      ensures u in roles && ((u == t && j == i) || Entry(m', u, j) == Entry(m, u, j))
    {
      assert u == f ==> Entry(m', f, j) == 0;
      assert u in roles && !(u == t && j == i) ==> Entry(m', u, j) == Entry(m, u, j);
    }
  }

  lemma NotPresent()
    ensures !Present(0)
  {}

  /** The entries of a new root: an empty lower half, and the upper half of `cur`. */
  ghost predicate CopiedRoot(m: seq<nat>, m': seq<nat>, f: nat, cur: nat) {
    forall j: nat {:trigger Entry(m', f, j)} :: j < 512 ==> Entry(m', f, j) == if j < 256 then 0 else Entry(m, cur, j)
  }

  /** No table of `roles` differs. */
  ghost predicate SameTables(m: seq<nat>, m': seq<nat>, roles: Roles) {
    forall u, j: nat {:trigger Entry(m', u, j)} :: u in roles && j < 512 ==> Entry(m', u, j) == Entry(m, u, j)
  }

  lemma RootTree(m: seq<nat>, m': seq<nat>, roles: Roles, f: nat, cur: nat)
    requires Tree(m, roles) && |m'| == |m| && SameTables(m, m', roles) && IsRoot(roles, cur)
    requires f !in roles && 0 < f < FRAME_LIMIT && (f + 1) * 512 <= |m| && CopiedRoot(m, m', f, cur)
    ensures var more := roles[f := Role(3, 0, f)];
            Tree(m', more) && (Open(m, roles) ==> Open(m', more))
  {
    NotPresent();
    hide Present;
    hide FrameOf;
    hide Writable;
    hide User;
    hide NoExecute;
    var more := roles[f := Role(3, 0, f)];
    forall u, j: nat | u in more && more[u].level > 0 && j < 512 && Present(Entry(m', u, j))
      ensures var c := FrameOf(Entry(m', u, j)); c in more && more[c] == Child(more[u], u, j)
      ensures if u == f then j >= 256 && Entry(m', u, j) == Entry(m, cur, j) else u in roles && Entry(m', u, j) == Entry(m, u, j)
    {
      if u == f {
        assert Entry(m', f, j) == if j < 256 then 0 else Entry(m, cur, j);
        assert Child(more[f], f, j) == Child(roles[cur], cur, j);
      } else {
        assert Entry(m', u, j) == Entry(m, u, j);
      }
    }
  }

  lemma {:induction false} SameReach(m: seq<nat>, m': seq<nat>, roles: Roles, root: nat, page: nat, level: nat)
    requires Tree(m, roles) && IsRoot(roles, root) && page < PAGES && level <= 3 && SameTables(m, m', roles)
    ensures Reach(m', root, page, level) == Reach(m, root, page, level)
    decreases 3 - level
  {
    if level < 3 {
      SameReach(m, m', roles, root, page, level + 1);
      ReachRole(m, roles, root, page, level + 1);
      var s := Reach(m, root, page, level + 1);
      if s.At? {
        assert Entry(m', s.table, Index(page, level + 1)) == Entry(m, s.table, Index(page, level + 1));
      }
    }
  }

  /** What is written outside the tables changes no translation. */
  lemma SameTranslate(m: seq<nat>, m': seq<nat>, roles: Roles, root: nat, page: nat)
    requires Tree(m, roles) && IsRoot(roles, root) && page < PAGES && SameTables(m, m', roles)
    ensures Translate(m', root, page) == Translate(m, root, page)
  {
    SameReach(m, m', roles, root, page, 0);
    ReachRole(m, roles, root, page, 0);
    var s := Reach(m, root, page, 0);
    if s.At? {
      assert Entry(m', s.table, Index(page, 0)) == Entry(m, s.table, Index(page, 0));
    }
  }

  /** A new space maps no page of its lower half and every page of its upper half as `cur` does. */
  lemma NewSpace(m: seq<nat>, m': seq<nat>, roles: Roles, f: nat, cur: nat, page: nat)
    requires Tree(m, roles) && SameTables(m, m', roles) && IsRoot(roles, cur) && CopiedRoot(m, m', f, cur) && page < PAGES
    ensures Translate(m', f, page) == if page < LOWER_PAGES then Unmapped else Translate(m, cur, page)
  {
    PrefixBounds(page);
    NotPresent();
    assert Entry(m', f, Index(page, 3)) == if page < LOWER_PAGES then 0 else Entry(m, cur, Index(page, 3));
    if page < LOWER_PAGES {
      assert Reach(m', f, page, 2) == Absent;
      AbsentBelow(m', f, page, 2, 0);
    } else {
      SameTranslate(m, m', roles, cur, page);
      assert Entry(m', cur, Index(page, 3)) == Entry(m, cur, Index(page, 3));
      SameFrom(m', f, cur, page, 0);
    }
  }

  /** Two roots with the same entry for a page lead on to the same tables. */
  lemma {:induction false} SameFrom(m: seq<nat>, f: nat, cur: nat, page: nat, level: nat)
    requires level < 3 && Entry(m, f, Index(page, 3)) == Entry(m, cur, Index(page, 3))
    ensures Reach(m, f, page, level) == Reach(m, cur, page, level)
    decreases 3 - level
  {
    if level < 2 {
      SameFrom(m, f, cur, page, level + 1);
    } else {
      assert Reach(m, f, page, 3) == At(f, ALL_RIGHTS);
    }
  }

  // ----- Which translations an operation may change

  /**
   The root tables of all spaces but `root` are as they were, and no entry that was present in the
   table of `root` has changed.
   */
  ghost predicate RootsKept(m: seq<nat>, m': seq<nat>, roles: Roles, root: nat) {
    forall r, i: nat {:trigger Entry(m', r, i)} ::
      IsRoot(roles, r) && i < 512 && (r != root || Present(Entry(m, r, i))) ==> Entry(m', r, i) == Entry(m, r, i)
  }

  /**
   Every space translates every page as before, except the pages in `pages`: those may change in the
   space `root`, and in the upper half also in the spaces that share it. No entry of a root table
   changes but those that `root` lacked.
   */
  ghost predicate Elsewhere(m: seq<nat>, m': seq<nat>, roles: Roles, root: nat, pages: set<nat>) {
    && RootsKept(m, m', roles, root)
    && forall r, p: nat {:trigger Translate(m', r, p)} ::
         IsRoot(roles, r) && p < PAGES && (p !in pages || (r != root && p < LOWER_PAGES)) ==>
           Translate(m', r, p) == Translate(m, r, p)
  }

  lemma RootsKeptTrans(m0: seq<nat>, m1: seq<nat>, m2: seq<nat>, roles0: Roles, roles1: Roles, root: nat)
    requires RootsKept(m0, m1, roles0, root) && RootsKept(m1, m2, roles1, root)
    requires forall r :: IsRoot(roles0, r) ==> IsRoot(roles1, r)
    ensures RootsKept(m0, m2, roles0, root)
  {
    hide Entry;
    forall r, i: nat | IsRoot(roles0, r) && i < 512 && (r != root || Present(Entry(m0, r, i)))
      ensures Entry(m2, r, i) == Entry(m0, r, i)
    {
      assert Entry(m1, r, i) == Entry(m0, r, i);
    }
  }

  lemma ElsewhereTrans(m0: seq<nat>, m1: seq<nat>, m2: seq<nat>, roles0: Roles, roles1: Roles, root: nat, p1: set<nat>, p2: set<nat>)
    requires Elsewhere(m0, m1, roles0, root, p1) && Elsewhere(m1, m2, roles1, root, p2)
    requires forall r :: IsRoot(roles0, r) ==> IsRoot(roles1, r)
    ensures Elsewhere(m0, m2, roles0, root, p1 + p2)
  {
    RootsKeptTrans(m0, m1, m2, roles0, roles1, root);
    hide Translate;
    hide RootsKept;
    forall r, p: nat | IsRoot(roles0, r) && p < PAGES && (p !in p1 + p2 || (r != root && p < LOWER_PAGES))
      ensures Translate(m2, r, p) == Translate(m0, r, p)
    {
      assert Translate(m1, r, p) == Translate(m0, r, p);
    }
  }

  /** A write keeps the root tables unless it is to one, and then if it fills a gap in that of `root`. */
  lemma OneEntryRoots(m: seq<nat>, m': seq<nat>, roles: Roles, root: nat, t: nat, i: nat)
    requires OneEntry(m, m', roles, t, i) && t in roles
    requires roles[t].level == 3 ==> t == root && !Present(Entry(m, t, i))
    ensures RootsKept(m, m', roles, root)
  {
    hide Present;
    hide Entry;
  }

  /** A last-level write changes one page at most. */
  lemma LeafElsewhere(m: seq<nat>, m': seq<nat>, roles: Roles, root: nat, page: nat, t: nat)
    requires Tree(m, roles) && IsRoot(roles, root) && page < PAGES && OneEntry(m, m', roles, t, Index(page, 0))
    requires t in roles && roles[t] == RoleAt(root, page, 0)
    ensures Elsewhere(m, m', roles, root, {page})
  {
    OneEntryRoots(m, m', roles, root, t, Index(page, 0));
    hide Tree;
    hide OneEntry;
    hide Translate;
    hide RootsKept;
    forall r, p: nat | IsRoot(roles, r) && p < PAGES && (p != page || (r != root && p < LOWER_PAGES))
      ensures Translate(m', r, p) == Translate(m, r, p)
    {
      SamePlace(root, page, r, p);
      OffPathSame(m, m', roles, r, p, t, Index(page, 0));
    }
  }

  /** Two pages with the same last table and the same index in it are the same page of the same space, or shared. */
  lemma SamePlace(root: nat, page: nat, r: nat, p: nat)
    requires page < PAGES && p < PAGES && (p != page || (r != root && p < LOWER_PAGES))
    ensures !(RoleAt(r, p, 0) == RoleAt(root, page, 0) && Index(p, 0) == Index(page, 0))
  {
    assert Prefix(p, 1) == p / 512 && Prefix(page, 1) == page / 512;
    assert p == p / 512 * 512 + p % 512 && page == page / 512 * 512 + page % 512;
    assert Index(p, 0) == p % 512 && Index(page, 0) == page % 512;
  }

  lemma GrowElsewhere(m: seq<nat>, m': seq<nat>, roles: Roles, root: nat, t: nat, i: nat, f: nat)
    requires Tree(m, roles) && OneEntry(m, m', roles, t, i)
    requires t in roles && 0 < roles[t].level <= 3 && i < 512 && !Present(Entry(m, t, i))
    requires FrameOf(Entry(m', t, i)) == f && Blank(m', f) && (roles[t].level == 3 ==> t == root)
    ensures Elsewhere(m, m', roles, root, {})
  {
    OneEntryRoots(m, m', roles, root, t, i);
    hide Tree;
    hide OneEntry;
    hide Translate;
    hide Blank;
    hide RootsKept;
    forall r, p: nat | IsRoot(roles, r) && p < PAGES ensures Translate(m', r, p) == Translate(m, r, p) {
      GrowSame(m, m', roles, r, p, t, i, f);
    }
  }
}
