/**
 Whole runs of mapping operations over any number of address spaces. A client holds the spaces it has
 made, one of which is current; it maps, unmaps, makes and switches spaces in any order.
 */
module AddressSpaces {
  import opened PageTables
  import opened Frames
  import opened Mmu

  /** One call; `space` counts the spaces made so far, and a number beyond them stands for no handle. */
  datatype Call =
    | Map(space: nat, vBase: nat, pBase: nat, flags: nat)
    | Unmap(space: nat, vBase: nat)
    | MapRange(space: nat, vBase: nat, pBase: nat, byteCount: nat, prot: nat)
    | Create
    | Switch(space: nat)

  /** What the operations ask of the numbers they are given. */
  predicate Callable(c: Call) {
    match c
    case Map(_, _, pBase, _) => pBase < PHYS_LIMIT
    case MapRange(_, vBase, pBase, byteCount, _) =>
      && pBase + byteCount + PAGESIZE <= PHYS_LIMIT && vBase + byteCount + PAGESIZE <= 0x1_0000_0000_0000_0000
      && byteCount <= PAGES * PAGESIZE
    case _ => true
  }

  function Named(spaces: seq<nat>, k: nat): Handle {
    if k < |spaces| then Vas(spaces[k]) else NoHandle
  }

  lemma NoneNamed(spaces: seq<nat>, k: nat)
    ensures Named(spaces, k).NoHandle? <==> k >= |spaces|
  {}

  /** The root of the space a call maps or unmaps in, 0 for none. */
  function Target(c: Call, spaces: seq<nat>): nat {
    if c.Create? || c.Switch? then 0 else RootOf(Named(spaces, c.space))
  }

  function PageCount(byteCount: nat): nat {
    (byteCount + PAGESIZE - 1) / PAGESIZE
  }

  /** The pages a call is about. */
  ghost function Pages(c: Call): set<nat> {
    match c
    case Map(_, vBase, _, _) => {PageOf(vBase)}
    case Unmap(_, vBase) => {PageOf(vBase)}
    case MapRange(_, vBase, _, byteCount, _) => PageRange(vBase / PAGESIZE, PageCount(byteCount))
    case _ => {}
  }

  /** The pages a call may change in its target. */
  ghost function Changed(c: Call, spaces: seq<nat>): set<nat> {
    if Target(c, spaces) == 0 then {} else Pages(c)
  }

  /** The call may change what page `p` is in the space with root `r`. */
  ghost predicate Touches(c: Call, spaces: seq<nat>, r: nat, p: nat) {
    p in Changed(c, spaces) && (r == Target(c, spaces) || p >= LOWER_PAGES)
  }

  ghost predicate Untouched(calls: seq<Call>, spaces: seq<nat>, r: nat, p: nat) {
    forall i {:trigger calls[i]} :: 0 <= i < |calls| ==> !Touches(calls[i], spaces, r, p)
  }

  /** No call is about the space with root `r`. */
  ghost predicate Unnamed(calls: seq<Call>, spaces: seq<nat>, r: nat) {
    forall i {:trigger calls[i]} :: 0 <= i < |calls| ==> Target(calls[i], spaces) != r
  }

  /** Every translation no call touches is as it was, and so is every root entry that was present or is in no named space. */
  ghost predicate Isolated(m: seq<nat>, m': seq<nat>, roles: Roles, calls: seq<Call>, spaces: seq<nat>) {
    && (forall r, p: nat {:trigger Translate(m', r, p)} ::
          IsRoot(roles, r) && p < PAGES && Untouched(calls, spaces, r, p) ==> Translate(m', r, p) == Translate(m, r, p))
    && (forall r, i: nat {:trigger Entry(m', r, i)} ::
          IsRoot(roles, r) && i < 512 && (Present(Entry(m, r, i)) || Unnamed(calls, spaces, r)) ==>
            Entry(m', r, i) == Entry(m, r, i))
  }

  lemma NothingYet(m: seq<nat>, roles: Roles, spaces: seq<nat>)
    ensures Isolated(m, m, roles, [], spaces)
  {}

  /** With more spaces made, a call can only be about more. */
  lemma SoFar(calls: seq<Call>, i: nat, spaces: seq<nat>, more: seq<nat>, r: nat, p: nat)
    requires i < |calls| && spaces <= more && r != 0
    ensures Untouched(calls[..i + 1], more, r, p) ==> Untouched(calls[..i], spaces, r, p) && !Touches(calls[i], spaces, r, p)
    ensures Unnamed(calls[..i + 1], more, r) ==> Unnamed(calls[..i], spaces, r) && Target(calls[i], spaces) != r
  {
    hide Pages;
    forall j | 0 <= j <= i
      ensures Touches(calls[j], spaces, r, p) ==> Touches(calls[j], more, r, p)
      ensures Target(calls[j], spaces) == r ==> Target(calls[j], more) == r
      ensures calls[..i + 1][j] == calls[j]
    {}
    assert forall j :: 0 <= j < i ==> calls[..i][j] == calls[j];
  }

  /** One more call of a run. */
  lemma NextCall(m0: seq<nat>, m1: seq<nat>, m2: seq<nat>, roles0: Roles, roles1: Roles,
                 calls: seq<Call>, i: nat, spaces: seq<nat>, more: seq<nat>)
    requires i < |calls| && spaces <= more && Isolated(m0, m1, roles0, calls[..i], spaces)
    requires Elsewhere(m1, m2, roles1, Target(calls[i], spaces), Changed(calls[i], spaces))
    requires (forall r :: IsRoot(roles0, r) ==> IsRoot(roles1, r)) && 0 !in roles0
    ensures Isolated(m0, m2, roles0, calls[..i + 1], more)
  {
    hide Translate;
    hide Entry;
    hide Untouched;
    hide Unnamed;
    hide Target;
    hide Changed;
    forall r, p: nat | IsRoot(roles0, r) && p < PAGES && Untouched(calls[..i + 1], more, r, p)
      ensures Translate(m2, r, p) == Translate(m0, r, p)
    {
      SoFar(calls, i, spaces, more, r, p);
      assert Translate(m1, r, p) == Translate(m0, r, p);
    }
    forall r, j: nat | IsRoot(roles0, r) && j < 512 && (Present(Entry(m0, r, j)) || Unnamed(calls[..i + 1], more, r))
      ensures Entry(m2, r, j) == Entry(m0, r, j)
    {
      SoFar(calls, i, spaces, more, r, 0);
      assert Entry(m1, r, j) == Entry(m0, r, j);
    }
  }

  /** All calls are about pages of lower halves. */
  ghost predicate Below(calls: seq<Call>) {
    forall c, q {:trigger q in Pages(c)} :: c in calls && q in Pages(c) ==> q < LOWER_PAGES
  }

  /** A run below the upper halves changes no space it does not name, and no upper half at all. */
  lemma BelowIsolates(m: seq<nat>, m': seq<nat>, roles: Roles, calls: seq<Call>, spaces: seq<nat>, r: nat, p: nat)
    requires Isolated(m, m', roles, calls, spaces) && Below(calls) && IsRoot(roles, r) && p < PAGES
    requires Unnamed(calls, spaces, r) || p >= LOWER_PAGES
    ensures Translate(m', r, p) == Translate(m, r, p)
  {
    hide Pages;
    hide Target;
    hide Translate;
    hide Entry;
    assert Untouched(calls, spaces, r, p);
  }

  /** A slot that is missing in a space no call names stays missing, whatever other spaces put there. */
  lemma MissingStays(m: seq<nat>, m': seq<nat>, roles: Roles, calls: seq<Call>, spaces: seq<nat>, r: nat, page: nat)
    requires Isolated(m, m', roles, calls, spaces) && IsRoot(roles, r) && Unnamed(calls, spaces, r)
    requires !Present(Entry(m, r, Index(page, 3)))
    ensures Translate(m', r, page) == Unmapped
  {
    assert Entry(m', r, Index(page, 3)) == Entry(m, r, Index(page, 3));
    assert Reach(m', r, page, 2) == Absent;
    AbsentBelow(m', r, page, 2, 0);
    hide Isolated;
  }

  /** Two roots have the same present entry `slot`. */
  ghost predicate Shared(m: seq<nat>, r: nat, s: nat, slot: nat) {
    slot < 512 && Present(Entry(m, r, slot)) && Entry(m, r, slot) == Entry(m, s, slot)
  }

  /** Through a shared entry two spaces see the same pages. */
  lemma SharedSame(m: seq<nat>, r: nat, s: nat, page: nat)
    requires Shared(m, r, s, Index(page, 3))
    ensures Translate(m, r, page) == Translate(m, s, page)
  {
    SameFrom(m, r, s, page, 0);
    hide Reach;
  }

  /** The entries the root in frame `f` has from `src`: `(f, src, slot)` for every slot filled at the copy. */
  ghost function Copied(m: seq<nat>, f: nat, src: nat): set<(nat, nat, nat)> {
    set slot: nat | 256 <= slot < 512 && Present(Entry(m, src, slot)) :: (f, src, slot)
  }

  ghost predicate AllShared(m: seq<nat>, roles: Roles, copies: set<(nat, nat, nat)>) {
    forall r, s, slot {:trigger (r, s, slot) in copies} ::
      (r, s, slot) in copies ==> IsRoot(roles, r) && IsRoot(roles, s) && Shared(m, r, s, slot)
  }

  lemma StillShared(m: seq<nat>, m': seq<nat>, roles: Roles, roles': Roles, root: nat, pages: set<nat>,
                    copies: set<(nat, nat, nat)>)
    requires AllShared(m, roles, copies) && Elsewhere(m, m', roles, root, pages) && Extends(roles, roles')
    ensures AllShared(m', roles', copies)
  {
    hide Translate;
    hide Entry;
    forall r, s, slot | (r, s, slot) in copies
      ensures IsRoot(roles', r) && IsRoot(roles', s) && Shared(m', r, s, slot)
    {
      assert Entry(m', r, slot) == Entry(m, r, slot);
      assert Entry(m', s, slot) == Entry(m, s, slot);
    }
  }

  lemma CopyShared(m: seq<nat>, m': seq<nat>, roles: Roles, roles': Roles, f: nat, src: nat,
                   copies: set<(nat, nat, nat)>)
    requires AllShared(m, roles, copies) && Elsewhere(m, m', roles, 0, {}) && Extends(roles, roles') && 0 !in roles
    requires CopiedRoot(m, m', f, src) && IsRoot(roles, src) && IsRoot(roles', f)
    ensures AllShared(m', roles', copies + Copied(m, f, src))
  {
    StillShared(m, m', roles, roles', 0, {}, copies);
    hide Translate;
    hide Entry;
    forall r, s, slot | (r, s, slot) in Copied(m, f, src)
      ensures IsRoot(roles', r) && IsRoot(roles', s) && Shared(m', r, s, slot)
    {
      assert r == f && s == src && 256 <= slot < 512 && Present(Entry(m, src, slot));
      assert Entry(m', f, slot) == Entry(m, src, slot);
      assert Entry(m', src, slot) == Entry(m, src, slot);
    }
  }

  /** What a successful call has done. */
  ghost predicate Done(m: seq<nat>, m': seq<nat>, c: Call, spaces: seq<nat>, spaces': seq<nat>, cr3: nat, cr3': nat, open: bool) {
    match c
    case Map(_, vBase, pBase, flags) =>
      && Target(c, spaces) != 0 && spaces' == spaces && cr3' == cr3
      && Translate(m', Target(c, spaces), PageOf(vBase)).Mapped?
      && Translate(m', Target(c, spaces), PageOf(vBase)).frame == pBase / PAGESIZE
      && (open ==> Protects(Translate(m', Target(c, spaces), PageOf(vBase)), flags))
    case Unmap(_, vBase) =>
      && Target(c, spaces) != 0 && spaces' == spaces && cr3' == cr3
      && Translate(m', Target(c, spaces), PageOf(vBase)) == Unmapped
    case MapRange(_, vBase, pBase, byteCount, prot) =>
      && spaces' == spaces && cr3' == cr3
      && PrefixMapped(m', Target(c, spaces), vBase / PAGESIZE, pBase / PAGESIZE, PageCount(byteCount), RightsOf(prot), open)
      && (open ==> PrefixProtected(m', Target(c, spaces), vBase / PAGESIZE, PageCount(byteCount), prot))
    case Create =>
      && |spaces'| == |spaces| + 1 && spaces'[..|spaces|] == spaces && cr3' == cr3
      && CopiedRoot(m, m', RootOf(Vas(spaces'[|spaces|])), FrameOf(cr3))
    case Switch(k) =>
      && k < |spaces| && spaces' == spaces && cr3' == spaces[k] && m' == m
  }

  lemma RangePages(vBase: nat, byteCount: nat, done: nat)
    requires done <= PageCount(byteCount)
    ensures PageRange(vBase / PAGESIZE, done) <= PageRange(vBase / PAGESIZE, PageCount(byteCount))
  {
    MorePageRange(vBase / PAGESIZE, done, PageCount(byteCount));
  }

  lemma MorePageRange(v: nat, k: nat, n: nat)
    requires k <= n
    ensures PageRange(v, k) <= PageRange(v, n)
  {}

  /** What a client sees, the words of all memory and the frames in use included. */
  datatype View = View(words: seq<nat>, roles: Roles, spaces: seq<nat>, cr3: nat, copies: set<(nat, nat, nat)>,
                       used: set<nat>, frames: nat)

  /** Tables, spaces and copies stay, and spaces added have roots that were none before. */
  ghost predicate Grown(v: View, v': View) {
    && Extends(v.roles, v'.roles) && v.spaces <= v'.spaces && v.copies <= v'.copies
    && forall k :: |v.spaces| <= k < |v'.spaces| ==> RootOf(Vas(v'.spaces[k])) !in v.roles
  }

  lemma GrownTrans(a: View, b: View, c: View)
    requires Grown(a, b) && Grown(b, c)
    ensures Grown(a, c)
  {
    hide RootOf;
    assert b.spaces <= c.spaces;
    forall k | |a.spaces| <= k < |c.spaces| ensures RootOf(Vas(c.spaces[k])) !in a.roles {
      assert k < |b.spaces| ==> c.spaces[k] == b.spaces[k];
    }
  }

  /**
   When a call may fail: it names no space, or no frame is left; and a range that starts on page 0 is
   reported as failed even when it is mapped.
   */
  ghost predicate Refusable(c: Call, spaces: seq<nat>, used: set<nat>, frames: nat) {
    match c
    case Map(k, _, _, _) => k >= |spaces| || Exhausted(used, frames)
    case MapRange(k, vBase, _, _, _) => k >= |spaces| || Exhausted(used, frames) || vBase < PAGESIZE
    case Create => Exhausted(used, frames)
    case Unmap(k, _) => k >= |spaces|
    case Switch(k) => k >= |spaces|
  }

  /** All that a call does. */
  ghost predicate Performed(v: View, v': View, c: Call, status: Status) {
    && Grown(v, v') && (Open(v.words, v.roles) ==> Open(v'.words, v'.roles))
    && Elsewhere(v.words, v'.words, v.roles, Target(c, v.spaces), Changed(c, v.spaces))
    && (status == Success ==> Done(v.words, v'.words, c, v.spaces, v'.spaces, v.cr3, v'.cr3, Open(v.words, v.roles)))
    && (status != Success ==> Refusable(c, v.spaces, v'.used, v'.frames) && v'.spaces == v.spaces && v'.cr3 == v.cr3)
    && v'.copies == if status == Success && c.Create? && v'.spaces != []
                    then v.copies + Copied(v.words, RootOf(Vas(v'.spaces[|v'.spaces| - 1])), FrameOf(v.cr3)) else v.copies
  }

  lemma SameSpaces(v: View, v': View, c: Call, status: Status)
    requires Extends(v.roles, v'.roles) && v'.spaces == v.spaces && v'.copies == v.copies && !(c.Create? && status == Success)
    requires Elsewhere(v.words, v'.words, v.roles, Target(c, v.spaces), Changed(c, v.spaces))
    requires status == Success ==> Done(v.words, v'.words, c, v.spaces, v'.spaces, v.cr3, v'.cr3, Open(v.words, v.roles))
    requires status != Success ==> Refusable(c, v.spaces, v'.used, v'.frames) && v'.cr3 == v.cr3
    requires Open(v.words, v.roles) ==> Open(v'.words, v'.roles)
    ensures Performed(v, v', c, status)
  {
    hide Open;
    hide Elsewhere;
    hide Done;
    hide Refusable;
  }

  /** The calls lead from view to view, one call a view. */
  ghost predicate RunsThrough(views: seq<View>, calls: seq<Call>, statuses: seq<Status>) {
    && |views| == |calls| + 1 && |statuses| == |calls|
    && forall i: nat {:trigger calls[i]} :: i < |calls| ==> Performed(views[i], views[i + 1], calls[i], statuses[i])
  }

  lemma NoRun(v: View)
    ensures RunsThrough([v], [], [])
  {}

  lemma OneMoreRun(views: seq<View>, calls: seq<Call>, statuses: seq<Status>, v: View, i: nat, status: Status)
    requires i < |calls| && RunsThrough(views, calls[..i], statuses) && Performed(views[i], v, calls[i], status)
    ensures RunsThrough(views + [v], calls[..i + 1], statuses + [status])
    ensures (views + [v])[0] == views[0] && (views + [v])[i + 1] == v && |views| == i + 1
  {
    hide Performed;
    var more := calls[..i + 1];
    forall j: nat | j < |more| ensures Performed((views + [v])[j], (views + [v])[j + 1], more[j], (statuses + [status])[j]) {
      if j < i {
        assert calls[..i][j] == more[j];
      }
    }
  }

  lemma SpaceAdded(v: View, v': View, c: Call, root: nat)
    requires Extends(v.roles, v'.roles) && v'.spaces == v.spaces + [root] && c.Create? && RootOf(Vas(root)) !in v.roles
    requires v'.copies == v.copies + Copied(v.words, RootOf(Vas(root)), FrameOf(v.cr3))
    requires Elsewhere(v.words, v'.words, v.roles, Target(c, v.spaces), Changed(c, v.spaces))
    requires Done(v.words, v'.words, c, v.spaces, v'.spaces, v.cr3, v'.cr3, Open(v.words, v.roles))
    requires Open(v.words, v.roles) ==> Open(v'.words, v'.roles)
    ensures Performed(v, v', c, Success)
  {
    hide Open;
    hide Elsewhere;
    hide Done;
  }

  lemma PerformedIs(v: View, v': View, c: Call, status: Status)
    requires Performed(v, v', c, status)
    ensures Grown(v, v') && v.spaces <= v'.spaces && Extends(v.roles, v'.roles)
    ensures Open(v.words, v.roles) ==> Open(v'.words, v'.roles)
    ensures Elsewhere(v.words, v'.words, v.roles, Target(c, v.spaces), Changed(c, v.spaces))
  {}

  lemma GrownRoots(v: View, v': View)
    requires Grown(v, v')
    ensures forall r :: IsRoot(v.roles, r) ==> IsRoot(v'.roles, r)
  {}

  lemma GrownNot(v: View)
    ensures Grown(v, v)
  {}

  // ----- What each operation's contract says of the call

  lemma MapPerformed(m0: seq<nat>, m: seq<nat>, roles: Roles, c: Call, spaces: seq<nat>, cr3: nat, status: Status, open: bool)
    requires c.Map? && 0 !in roles && IsSpace(roles, Named(spaces, c.space))
    requires Named(spaces, c.space).NoHandle? <==> status == InvalidHandle
    requires status == Success ==>
               var x := Translate(m, RootOf(Named(spaces, c.space)), PageOf(c.vBase));
               x.Mapped? && x.frame == c.pBase / PAGESIZE && (open ==> Protects(x, c.flags))
    requires Elsewhere(m0, m, roles, RootOf(Named(spaces, c.space)), if status == Success then {PageOf(c.vBase)} else {})
    ensures Elsewhere(m0, m, roles, Target(c, spaces), Changed(c, spaces))
    ensures status == Success ==> Done(m0, m, c, spaces, spaces, cr3, cr3, open)
  {
    MorePages(m0, m, roles, Target(c, spaces), if status == Success then {PageOf(c.vBase)} else {}, Changed(c, spaces));
    hide Elsewhere;
    hide Translate;
  }

  lemma UnmapPerformed(m0: seq<nat>, m: seq<nat>, roles: Roles, c: Call, spaces: seq<nat>, cr3: nat, status: Status, open: bool)
    requires c.Unmap? && 0 !in roles && IsSpace(roles, Named(spaces, c.space))
    requires status == if Named(spaces, c.space).NoHandle? then InvalidHandle else Success
    requires status == Success ==> Translate(m, RootOf(Named(spaces, c.space)), PageOf(c.vBase)) == Unmapped
    requires Elsewhere(m0, m, roles, RootOf(Named(spaces, c.space)), if status == Success then {PageOf(c.vBase)} else {})
    ensures Elsewhere(m0, m, roles, Target(c, spaces), Changed(c, spaces))
    ensures status == Success ==> Done(m0, m, c, spaces, spaces, cr3, cr3, open)
  {
    hide Elsewhere;
    hide Translate;
  }

  lemma RangeDone(m0: seq<nat>, m: seq<nat>, roles: Roles, c: Call, spaces: seq<nat>, cr3: nat, done: nat, open: bool)
    requires c.MapRange? && 0 !in roles && IsSpace(roles, Named(spaces, c.space)) && done <= PageCount(c.byteCount)
    requires Named(spaces, c.space).NoHandle? ==> done == 0
    requires PrefixMapped(m, RootOf(Named(spaces, c.space)), c.vBase / PAGESIZE, c.pBase / PAGESIZE, done,
                          RightsOf(c.prot), open)
    requires open ==> PrefixProtected(m, RootOf(Named(spaces, c.space)), c.vBase / PAGESIZE, done, c.prot)
    requires Elsewhere(m0, m, roles, RootOf(Named(spaces, c.space)), PageRange(c.vBase / PAGESIZE, done))
    ensures Elsewhere(m0, m, roles, Target(c, spaces), Changed(c, spaces))
    ensures done == PageCount(c.byteCount) ==> Done(m0, m, c, spaces, spaces, cr3, cr3, open)
  {
    hide Elsewhere;
    hide Translate;
    hide RightsOf;
    RangePages(c.vBase, c.byteCount, done);
    MorePages(m0, m, roles, Target(c, spaces), PageRange(c.vBase / PAGESIZE, done), Changed(c, spaces));
  }

  lemma RangePerformed(m0: seq<nat>, m: seq<nat>, roles: Roles, c: Call, spaces: seq<nat>, cr3: nat, ret: nat,
                       done: nat, open: bool)
    requires c.MapRange? && 0 !in roles && IsSpace(roles, Named(spaces, c.space))
    requires Named(spaces, c.space).NoHandle? ==> done == 0
    requires var v := c.vBase / PAGESIZE * PAGESIZE;
             var n := (c.byteCount + PAGESIZE - 1) / PAGESIZE * PAGESIZE / PAGESIZE;
             && done <= n && (ret == 0 || ret == v) && (v != 0 ==> (ret != 0 <==> done == n))
             && PrefixMapped(m, RootOf(Named(spaces, c.space)), v / PAGESIZE, c.pBase / PAGESIZE * PAGESIZE / PAGESIZE, done,
                             RightsOf(c.prot), open)
             && (open ==> PrefixProtected(m, RootOf(Named(spaces, c.space)), v / PAGESIZE, done, c.prot))
             && Elsewhere(m0, m, roles, RootOf(Named(spaces, c.space)), PageRange(v / PAGESIZE, done))
    ensures Elsewhere(m0, m, roles, Target(c, spaces), Changed(c, spaces))
    ensures ret != 0 ==> Done(m0, m, c, spaces, spaces, cr3, cr3, open)
  {
    hide *;
    SameBase(c.vBase);
    SameBase(c.pBase);
    PageCountIs(c.byteCount);
    RangeDone(m0, m, roles, c, spaces, cr3, done, open);
  }

  lemma PageCountIs(byteCount: nat)
    ensures PAGESIZE > 0 && PageCount(byteCount) == (byteCount + PAGESIZE - 1) / PAGESIZE * PAGESIZE / PAGESIZE
  {
    SameBase(byteCount + PAGESIZE - 1);
  }

  lemma SameBase(x: nat)
    ensures PAGESIZE > 0 && x / PAGESIZE * PAGESIZE / PAGESIZE == x / PAGESIZE
  {}

  lemma CreatePerformed(m0: seq<nat>, m: seq<nat>, roles: Roles, c: Call, spaces: seq<nat>, cr3: nat, root: nat, open: bool)
    requires c.Create? && Elsewhere(m0, m, roles, 0, {})
    ensures Elsewhere(m0, m, roles, Target(c, spaces), Changed(c, spaces))
    ensures CopiedRoot(m0, m, RootOf(Vas(root)), FrameOf(cr3)) ==> Done(m0, m, c, spaces, spaces + [root], cr3, cr3, open)
  {
    hide Elsewhere;
    hide CopiedRoot;
  }

  lemma SwitchPerformed(m: seq<nat>, roles: Roles, c: Call, spaces: seq<nat>, cr3: nat, open: bool)
    requires c.Switch?
    ensures Elsewhere(m, m, roles, Target(c, spaces), Changed(c, spaces))
    ensures c.space < |spaces| ==> Done(m, m, c, spaces, spaces, cr3, spaces[c.space], open)
  {}

  lemma CallableIs(c: Call)
    requires Callable(c)
    ensures c.Map? ==> c.pBase < PHYS_LIMIT
    ensures c.MapRange? ==>
              && c.pBase + c.byteCount + PAGESIZE <= PHYS_LIMIT && c.vBase + c.byteCount + PAGESIZE <= 0x1_0000_0000_0000_0000
              && c.byteCount <= PAGES * PAGESIZE
  {}

  lemma CurrentRoot(roles: Roles, cr3: nat, m: seq<nat>)
    requires IsSpace(roles, Vas(cr3)) && Tree(m, roles)
    ensures FrameOf(cr3) == cr3 / PAGESIZE && IsRoot(roles, FrameOf(cr3))
  {}

  ghost predicate AllSpaces(roles: Roles, spaces: seq<nat>, cr3: nat) {
    && IsSpace(roles, Vas(cr3))
    && forall k {:trigger spaces[k]} :: 0 <= k < |spaces| ==> IsSpace(roles, Vas(spaces[k]))
  }

  lemma StillSpaces(roles: Roles, roles': Roles, spaces: seq<nat>, cr3: nat)
    requires AllSpaces(roles, spaces, cr3) && Extends(roles, roles')
    ensures AllSpaces(roles', spaces, cr3)
    ensures forall root :: IsSpace(roles', Vas(root)) ==> AllSpaces(roles', spaces + [root], cr3)
    ensures forall k: nat :: k < |spaces| ==> AllSpaces(roles', spaces, spaces[k])
  {}

  lemma RootIsFrame(root: nat)
    ensures PAGESIZE > 0 && RootOf(Vas(root)) == root / PAGESIZE
  {}

  lemma RootIn(roles: Roles, root: nat)
    requires IsSpace(roles, Vas(root))
    ensures IsRoot(roles, RootOf(Vas(root)))
  {}

  class Client {
    const mmu: Mmu
    /** The physical addresses of the roots of all spaces made so far. */
    var spaces: seq<nat>
    /** The register with the root of the current space. */
    var cr3: nat
    ghost var copies: set<(nat, nat, nat)>

    ghost function Words(): seq<nat>
      reads mmu.phys.mem
    {
      mmu.phys.mem[..]
    }

    ghost function Now(): View
      reads this, mmu, mmu.phys, mmu.phys.bitmap, mmu.phys.mem
    {
      View(mmu.phys.mem[..], mmu.roles, spaces, cr3, copies, Used(mmu.phys.bitmap[..]), mmu.phys.highestFrameIdx)
    }

    lemma NowIs()
      ensures Now() == View(Words(), mmu.roles, spaces, cr3, copies, Used(mmu.phys.bitmap[..]), mmu.phys.highestFrameIdx)
    {}

    /** The tables are in order, all spaces have roots, and the slots filled at a copy are still shared. */
    ghost predicate Valid()
      reads this, mmu, mmu.phys, mmu.phys.bitmap, mmu.phys.mem
    {
      && mmu.Ok() && AllSpaces(mmu.roles, spaces, cr3) && AllShared(Words(), mmu.roles, copies)
    }

    constructor (m: Mmu, current: nat)
      requires m.Ok() && IsSpace(m.roles, Vas(current))
      ensures Valid() && mmu == m && spaces == [current] && cr3 == current && copies == {}
    {
      mmu := m;
      spaces := [current];
      cr3 := current;
      copies := {};
    }

    lemma ValidIs(k: nat)
      requires Valid()
      ensures mmu.Ok() && AllSpaces(mmu.roles, spaces, cr3) && IsSpace(mmu.roles, Named(spaces, k))
      ensures AllShared(Words(), mmu.roles, copies) && 0 !in mmu.roles && Words() == mmu.phys.mem[..]
      ensures IsRoot(mmu.roles, FrameOf(cr3))
    {
      CurrentRoot(mmu.roles, cr3, Words());
    }

    lemma StillValid(roles0: Roles, m0: seq<nat>, root: nat, pages: set<nat>)
      requires mmu.Ok() && Extends(roles0, mmu.roles) && Elsewhere(m0, Words(), roles0, root, pages)
      requires AllSpaces(roles0, spaces, cr3) && AllShared(m0, roles0, copies)
      ensures Valid() && AllSpaces(mmu.roles, spaces, cr3) && Words() == mmu.phys.mem[..]
    {
      StillShared(m0, Words(), roles0, mmu.roles, root, pages, copies);
      StillSpaces(roles0, mmu.roles, spaces, cr3);
      hide AllShared;
      hide Elsewhere;
    }

    lemma ValidFrom()
      requires mmu.Ok() && AllSpaces(mmu.roles, spaces, cr3) && AllShared(Words(), mmu.roles, copies)
      ensures Valid()
    {}

    lemma WordsAre()
      ensures Words() == mmu.phys.mem[..]
    {}

    /** What the operations report of a failed call. */
    lemma Refused(c: Call, status: Status)
      requires status != Success ==>
                 || (!c.Create? && Named(spaces, c.space).NoHandle?)
                 || (!c.Unmap? && !c.Switch? && Exhausted(Used(mmu.phys.bitmap[..]), mmu.phys.highestFrameIdx))
                 || (c.MapRange? && c.vBase / PAGESIZE * PAGESIZE == 0)
      ensures status != Success ==> Refusable(c, spaces, Used(mmu.phys.bitmap[..]), mmu.phys.highestFrameIdx)
    {
      hide Exhausted;
      assert PAGESIZE > 0;
    }

    method MapPage(c: Call) returns (status: Status)
      requires Valid() && Callable(c) && c.Map?
      modifies mmu, mmu.phys, mmu.phys.bitmap, mmu.phys.mem
      ensures Valid() && Performed(old(Now()), Now(), c, status)
    {
      hide *;
      NowIs();
      ghost var v, m0, roles0 := Now(), Words(), mmu.roles;
      CallableIs(c);
      ValidIs(c.space);
      status := mmu.MapSingle(Named(spaces, c.space), c.vBase, c.pBase, c.flags);
      WordsAre();
      MapPerformed(m0, Words(), roles0, c, spaces, cr3, status, Open(m0, roles0));
      StillValid(roles0, m0, Target(c, spaces), Changed(c, spaces));
      NowIs();
      Refused(c, status);
      SameSpaces(v, Now(), c, status);
    }

    method UnmapPage(c: Call) returns (status: Status)
      requires Valid() && Callable(c) && c.Unmap?
      modifies mmu, mmu.phys, mmu.phys.bitmap, mmu.phys.mem
      ensures Valid() && Performed(old(Now()), Now(), c, status)
    {
      hide *;
      NowIs();
      ghost var v, m0, roles0 := Now(), Words(), mmu.roles;
      ValidIs(c.space);
      status := mmu.UnmapSingle(Named(spaces, c.space), c.vBase);
      WordsAre();
      ExtendsBy(roles0, 0, Role(0, 0, 0));
      UnmapPerformed(m0, Words(), roles0, c, spaces, cr3, status, Open(m0, roles0));
      StillValid(roles0, m0, Target(c, spaces), Changed(c, spaces));
      NowIs();
      Refused(c, status);
      SameSpaces(v, Now(), c, status);
    }

    method MapRegion(c: Call) returns (status: Status)
      requires Valid() && Callable(c) && c.MapRange?
      modifies mmu, mmu.phys, mmu.phys.bitmap, mmu.phys.mem
      ensures Valid() && Performed(old(Now()), Now(), c, status)
    {
      hide *;
      NowIs();
      ghost var v, m0, roles0 := Now(), Words(), mmu.roles;
      CallableIs(c);
      ValidIs(c.space);
      var region := new Region(c.pBase, c.vBase, c.byteCount);
      var ret, done := mmu.MapPages(Named(spaces, c.space), region, c.prot);
      status := if ret != 0 then Success else NotMapped;
      WordsAre();
      RangePerformed(m0, Words(), roles0, c, spaces, cr3, ret, done, Open(m0, roles0));
      StillValid(roles0, m0, Target(c, spaces), Changed(c, spaces));
      NowIs();
      Refused(c, status);
      SameSpaces(v, Now(), c, status);
    }

    method MakeSpace(c: Call) returns (status: Status)
      requires Valid() && c.Create?
      modifies this, mmu, mmu.phys, mmu.phys.bitmap, mmu.phys.mem
      ensures Valid() && Performed(old(Now()), Now(), c, status)
    {
      hide *;
      NowIs();
      ghost var v, m0, roles0, src := Now(), Words(), mmu.roles, FrameOf(cr3);
      ValidIs(0);
      var root;
      status, root := mmu.CreateVas(cr3);
      WordsAre();
      ghost var f := RootOf(Vas(root));
      CreatePerformed(m0, Words(), roles0, c, spaces, cr3, root, Open(m0, roles0));
      RootIsFrame(root);
      ExtendsBy(roles0, f, Role(3, 0, f));
      if status == Success {
        RootIn(mmu.roles, root);
        CopyShared(m0, Words(), roles0, mmu.roles, f, src, copies);
        StillSpaces(roles0, mmu.roles, spaces, cr3);
        copies := copies + Copied(m0, f, src);
        spaces := spaces + [root];
        ValidFrom();
        NowIs();
        SpaceAdded(v, Now(), c, root);
      } else {
        StillValid(roles0, m0, Target(c, spaces), Changed(c, spaces));
        NowIs();
        Refused(c, status);
        SameSpaces(v, Now(), c, status);
      }
    }

    method SwitchTo(c: Call) returns (status: Status)
      requires Valid() && c.Switch?
      modifies this
      ensures Valid() && Performed(old(Now()), Now(), c, status)
    {
      hide *;
      NowIs();
      ghost var v, roles0 := Now(), mmu.roles;
      ValidIs(0);
      WordsAre();
      ExtendsBy(roles0, 0, Role(0, 0, 0));
      SwitchPerformed(Words(), roles0, c, spaces, cr3, Open(Words(), roles0));
      if c.space < |spaces| {
        StillSpaces(roles0, roles0, spaces, cr3);
        cr3 := spaces[c.space];
        status := Success;
      } else {
        NoneNamed(spaces, c.space);
        status := InvalidHandle;
      }
      ValidFrom();
      NowIs();
      Refused(c, status);
      SameSpaces(v, Now(), c, status);
    }

    /** One call, made on the space it names. */
    method Perform(c: Call) returns (status: Status)
      requires Valid() && Callable(c)
      modifies this, mmu, mmu.phys, mmu.phys.bitmap, mmu.phys.mem
      ensures Valid() && Performed(old(Now()), Now(), c, status)
    {
      hide *;
      match c
      case Map(_, _, _, _) => status := MapPage(c);
      case Unmap(_, _) => status := UnmapPage(c);
      case MapRange(_, _, _, _, _) => status := MapRegion(c);
      case Create => status := MakeSpace(c);
      case Switch(_) => status := SwitchTo(c);
    }

    /**
     Any calls in any order, each performed. Only the pages a call names can change, in the space it names and, above
     the lower half, in others; spaces no call names keep their root tables word for word; and what two
     spaces shared when one was made they go on sharing.
     */
    method Run(calls: seq<Call>) returns (statuses: seq<Status>, ghost views: seq<View>)
      requires Valid() && forall c :: c in calls ==> Callable(c)
      modifies this, mmu, mmu.phys, mmu.phys.bitmap, mmu.phys.mem
      ensures Valid() && Grown(old(Now()), Now())
      ensures Open(old(Words()), old(mmu.roles)) ==> Open(Words(), mmu.roles)
      ensures RunsThrough(views, calls, statuses) && views[0] == old(Now()) && views[|calls|] == Now()
      ensures Isolated(old(Words()), Words(), old(mmu.roles), calls, spaces)
      ensures Below(calls) ==>
                forall r, p: nat :: IsRoot(old(mmu.roles), r) && p < PAGES && (Unnamed(calls, spaces, r) || p >= LOWER_PAGES) ==>
                  Translate(Words(), r, p) == Translate(old(Words()), r, p)
    {
      hide *;
      ghost var v, m0, roles0 := Now(), Words(), mmu.roles;
      GrownNot(v);
      NothingYet(m0, roles0, spaces);
      ValidIs(0);
      NowIs();
      var i := 0;
      assert calls[..0] == [];
      NoRun(v);
      statuses, views := [], [v];
      while i < |calls|
        invariant i <= |calls| && Valid() && Grown(v, Now()) && (Open(m0, roles0) ==> Open(Words(), mmu.roles))
        invariant RunsThrough(views, calls[..i], statuses) && |views| == i + 1 && views[0] == v && views[i] == Now()
        invariant Isolated(m0, Words(), roles0, calls[..i], spaces)
      {
        ghost var v1 := Now();
        NowIs();
        assert calls[i] in calls;
        var status := Perform(calls[i]);
        NowIs();
        PerformedIs(v1, Now(), calls[i], status);
        GrownRoots(v, v1);
        GrownTrans(v, v1, Now());
        NextCall(m0, v1.words, Words(), roles0, v1.roles, calls, i, v1.spaces, spaces);
        OneMoreRun(views, calls, statuses, Now(), i, status);
        statuses, views := statuses + [status], views + [Now()];
        i := i + 1;
      }
      assert calls[..i] == calls;
      if Below(calls) {
        forall r, p: nat | IsRoot(roles0, r) && p < PAGES && (Unnamed(calls, spaces, r) || p >= LOWER_PAGES)
          ensures Translate(Words(), r, p) == Translate(m0, r, p)
        {
          BelowIsolates(m0, Words(), roles0, calls, spaces, r, p);
        }
      }
    }

    /** A page whose slot was filled when one space was made from another is the same in both, in every later state. */
    lemma CopiesAgree(f: nat, src: nat, page: nat)
      requires Valid() && (f, src, Index(page, 3)) in copies
      ensures Translate(Words(), f, page) == Translate(Words(), src, page)
    {
      SharedSame(Words(), f, src, page);
    }
  }
}
