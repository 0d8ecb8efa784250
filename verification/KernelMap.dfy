/** What the kernel maps for itself below 2^39: the heap arena and the framebuffer. */
module KernelMap {
  import opened PageTables
  import opened Translations
  import opened Vmm
  import H = Heap

  const KERNEL_FLAGS: bv12 := PRESENT | WRITABLE

  // ---- the heap arena ------------------------------------------------------------------------------

  /** Page x of the arena: HEAP_BASE is 4 GiB, so the arena fills exactly one page table. */
  function ArenaPath(x: nat): (p: Path)
    ensures x < ENTRIES ==> FullPath(p) && p[3] == x
  {
    [0, 4, 0, x]
  }

  predicate InArena(q: Path) {
    FullPath(q) && q[..3] == [0, 4, 0]
  }

  lemma ArenaIndices(x: nat)
    requires x < ENTRIES
    ensures Indices(H.HEAP_BASE + x * PAGE_SIZE) == ArenaPath(x) && FullPath(ArenaPath(x)) && InArena(ArenaPath(x))
    ensures ArenaPath(x)[..3] == [0, 4, 0]
  {
    assert Address(0, 4, 0, x) == H.HEAP_BASE + x * PAGE_SIZE;
    IndicesOfAddress(0, 4, 0, x);
  }

  lemma ArenaPage(q: Path)
    requires InArena(q)
    ensures q == ArenaPath(q[3])
  {
    assert q == q[..3] + [q[3]];
  }

  /** Nothing is mapped in the arena yet, and no huge page lies on the way. */
  ghost predicate ArenaFree(s: VM) {
    forall q | InArena(q) :: Clear(s, q) && ClearLeaf(s, q) && Node(s.kroot, q) !in s.at
  }

  /** The first k pages of the arena are mapped in every space, for the kernel alone, each to a frame of its own. */
  ghost predicate ArenaTo(s: VM, t: VM, k: nat) {
    ArenaNodes(s, t, k) && ArenaWalks(s, t, k)
  }

  ghost predicate ArenaNodes(s: VM, t: VM, k: nat) {
    && t.kroot == s.kroot && (forall n | n in s.at :: n in t.at && t.at[n] == s.at[n])
    && (forall n | n in t.at && n !in s.at :: n.root == s.kroot)
    && (forall q | InArena(q) :: Clear(t, q) && ClearLeaf(t, q) && (Node(s.kroot, q) in t.at <==> q[3] < k))
    && (k > 0 ==> Missing(t.at, s.kroot, ArenaPath(0)) == 0)
  }

  ghost predicate ArenaWalks(s: VM, t: VM, k: nat) {
    forall r: nat, q | Node(r, []) in s.at && FullPath(q) ::
      Walk(t.mem, r, q) ==
        if InArena(q) && q[3] < k then Mapped(FrameOf(t, q), KERNEL_FLAGS, false, true, false) else Walk(s.mem, r, q)
  }

  /** The frame behind a page of the kernel's tables. */
  function FrameOf(s: VM, q: Path): nat {
    if Node(s.kroot, q) in s.at then s.at[Node(s.kroot, q)] else 0
  }

  lemma ArenaStart(s: VM)
    requires ArenaFree(s)
    ensures ArenaTo(s, s, 0)
  {
    hide Clear, ClearLeaf, Walk;
  }

  /** After boot the arena's place is free. */
  lemma BootArenaFree(s: VM)
    requires s.at.Keys == {Node(s.kroot, []), Node(s.kroot, [0]), Node(s.kroot, [0, 0])}
    requires forall n, x: nat :: Bare(s, n, x) ==> n == Node(s.kroot, [0, 0])
    ensures ArenaFree(s)
  {
    hide Bare;
    forall q | InArena(q) ensures Clear(s, q) && ClearLeaf(s, q) && Node(s.kroot, q) !in s.at {
      assert q[..1] == q[..3][..1] && q[..2] == q[..3][..2] && |q[..3]| == 3;
      assert q[..2] == [0, 4] && q[..1] == [0] && |q| == 4;
    }
  }

  /**
   * The loop of heap_init: a fresh frame behind every page of the arena. Afterwards every space finds
   * the arena's pages, writable and closed to user mode, and everything else where it was.
   */
  method MapArena(v: AddressSpaces)
    requires v.Valid() && ArenaFree(v.State())
    requires v.pmm.used + ENTRIES + Missing(v.at, v.kernelPml4, ArenaPath(0)) <= v.pmm.total
    modifies v`at, v`own, v`loose, v.pmm`used, v.pmm.bitmap, v.mem
    ensures v.Valid() && v.loose == old(v.loose) && ArenaTo(old(v.State()), v.State(), ENTRIES)
    ensures v.pmm.used == old(v.pmm.used) + ENTRIES + Missing(old(v.at), v.kernelPml4, ArenaPath(0))
  {
    hide AddressSpaces.Valid, ArenaTo, ArenaFree, Missing, ArenaPath;
    ghost var s, used, missing := v.State(), v.pmm.used, Missing(v.at, v.kernelPml4, ArenaPath(0));
    ArenaStart(s);
    var off, x := 0, 0;
    while off < H.HEAP_SIZE
      invariant off == x * PAGE_SIZE && x <= ENTRIES
      invariant v.Valid() && v.loose == old(v.loose) && ArenaTo(s, v.State(), x) && s.kroot == v.kernelPml4
      invariant v.pmm.used + Missing(v.at, v.kernelPml4, ArenaPath(0)) == used + missing + x
      decreases ENTRIES - x
    {
      MapArenaPage(v, s, x);
      off, x := off + PAGE_SIZE, x + 1;
    }
    ArenaEnd(s, v.State());
  }

  lemma ArenaEnd(s: VM, t: VM)
    requires ArenaTo(s, t, ENTRIES)
    ensures Missing(t.at, s.kroot, ArenaPath(0)) == 0
  {
    hide Clear, ClearLeaf, Walk;
  }

  /** One turn of the loop. */
  method MapArenaPage(v: AddressSpaces, ghost s: VM, x: nat)
    requires v.Valid() && x < ENTRIES && ArenaTo(s, v.State(), x) && s.kroot == v.kernelPml4
    requires v.pmm.used + 1 + Missing(v.at, v.kernelPml4, ArenaPath(0)) <= v.pmm.total
    modifies v`at, v`own, v`loose, v.pmm`used, v.pmm.bitmap, v.mem
    ensures v.Valid() && v.loose == old(v.loose) && ArenaTo(s, v.State(), x + 1)
    ensures v.pmm.used == old(v.pmm.used) + 1 + Missing(old(v.at), v.kernelPml4, ArenaPath(0))
    ensures Missing(v.at, v.kernelPml4, ArenaPath(0)) == 0
  {
    hide AddressSpaces.Valid, ArenaNodes, ArenaWalks, Missing, Grew, Clear, ClearLeaf, Inv, EntryAt, Walk, Indices, ContentOf, ArenaPath, InArena;
    ghost var a, q := v.State(), ArenaPath(x);
    ArenaIndices(x);
    SameTables(v.at, v.kernelPml4, x);
    v.ValidParts();
    var f := v.AllocPage();
    ghost var b := v.State();
    assert b.at == a.at && b.kroot == a.kroot;
    v.ValidParts();
    ArenaSameEntries(s, a, b, x);
    ArenaReady(s, b, x);
    KernelFlags();
    v.MapPageIn(v.kernelPml4, H.HEAP_BASE + x * PAGE_SIZE, f * PAGE_SIZE, KERNEL_FLAGS);
    v.ValidParts();
    ArenaNodesStep(s, b, v.State(), x);
    KeptAlways(b, v.State(), x);
    ArenaWalksStep(s, b, v.State(), x, f);
  }

  lemma KeptAlways(s: VM, t: VM, x: nat)
    requires Grew(s, t, s.kroot, ArenaPath(x)) && Node(s.kroot, ArenaPath(x)) !in s.at
    ensures forall n | n in s.at :: n in t.at && t.at[n] == s.at[n]
  {
    hide EntryOf, EntryAt, ContentOf, SameBare;
  }

  lemma KernelFlags()
    ensures KERNEL_FLAGS & USER == 0 && KERNEL_FLAGS & WRITABLE != 0 && KERNEL_FLAGS | PRESENT == KERNEL_FLAGS
  {
  }

  lemma SameTables(at: map<Node, nat>, r: nat, x: nat)
    requires x < ENTRIES
    ensures FullPath(ArenaPath(x)) && FullPath(ArenaPath(0)) && Missing(at, r, ArenaPath(x)) == Missing(at, r, ArenaPath(0))
  {
    assert ArenaPath(x)[..1] == ArenaPath(0)[..1] && ArenaPath(x)[..2] == ArenaPath(0)[..2] && ArenaPath(x)[..3] == ArenaPath(0)[..3];
  }

  lemma ArenaReady(s: VM, t: VM, x: nat)
    requires ArenaTo(s, t, x) && x < ENTRIES && Inv(t)
    ensures Clear(t, ArenaPath(x)) && ClearLeaf(t, ArenaPath(x)) && Node(t.kroot, ArenaPath(x)) !in t.at && Node(t.kroot, []) in t.at
  {
    hide Inv, Clear, ClearLeaf, Walk, Missing;
    ArenaIndices(x);
    KernelRootThere(t);
  }

  /** What a frame outside the trees holds does not matter. */
  lemma ArenaSameEntries(s: VM, a: VM, b: VM, x: nat)
    requires Inv(a) && Inv(b) && b.at == a.at && b.kroot == a.kroot && ArenaTo(s, a, x)
    requires forall n, y: nat :: EntryAt(b, n, y) == EntryAt(a, n, y)
    ensures ArenaTo(s, b, x)
  {
    hide Inv, EntryAt, Walk, Missing;
    forall r: nat, q | Node(r, []) in s.at && FullPath(q) ensures Walk(b.mem, r, q) == Walk(a.mem, r, q) {
      SameWalk(a, b, r, q);
    }
  }

  lemma ArenaNodesStep(s: VM, b: VM, t: VM, x: nat)
    requires ArenaNodes(s, b, x) && x < ENTRIES && Grew(b, t, b.kroot, ArenaPath(x)) && Node(b.kroot, ArenaPath(x)) !in b.at
    requires Inv(t) && Node(b.kroot, ArenaPath(x)) in t.at
    ensures ArenaNodes(s, t, x + 1) && Missing(t.at, b.kroot, ArenaPath(0)) == 0
  {
    hide Inv, Clear, ClearLeaf, Missing, Grew, ArenaPath;
    ArenaIndices(x);
    GrewRoots(b, t, b.kroot, ArenaPath(x));
    TablesThere(t, x);
    forall n | n in s.at ensures n in t.at && t.at[n] == s.at[n] {
      GrewNodes(b, t, b.kroot, ArenaPath(x), n);
    }
    forall n | n in t.at && n !in b.at ensures n.root == b.kroot && n.path <= ArenaPath(x) {
      GrewNew(b, t, b.kroot, ArenaPath(x), n);
    }
    forall q | InArena(q)
      ensures Clear(t, q) && ClearLeaf(t, q) && (Node(s.kroot, q) in t.at <==> q[3] < x + 1)
    {
      ClearKept(b, t, b.kroot, ArenaPath(x), q);
      ArenaPage(q);
      if Node(s.kroot, q) in b.at {
        GrewNodes(b, t, b.kroot, ArenaPath(x), Node(s.kroot, q));
      } else if Node(s.kroot, q) in t.at {
        assert q == ArenaPath(x);
      }
    }
  }

  lemma ArenaWalksStep(s: VM, b: VM, t: VM, x: nat, f: nat)
    requires ArenaWalks(s, b, x) && ArenaNodes(s, b, x) && ArenaNodes(s, t, x + 1) && x < ENTRIES
    requires t.at[Node(b.kroot, ArenaPath(x))] == f && (forall n | n in b.at :: n in t.at && t.at[n] == b.at[n])
    requires forall r: nat, q | Node(r, []) in b.at && FullPath(q) ::
      Walk(t.mem, r, q) == if q == ArenaPath(x) && (r == b.kroot || q[0] == 0) then Mapped(f, KERNEL_FLAGS, false, true, false) else Walk(b.mem, r, q)
    ensures ArenaWalks(s, t, x + 1)
  {
    hide Walk, Clear, ClearLeaf, Missing;
    ArenaIndices(x);
    forall r: nat, q | Node(r, []) in s.at && FullPath(q)
      ensures Walk(t.mem, r, q) ==
        if InArena(q) && q[3] < x + 1 then Mapped(FrameOf(t, q), KERNEL_FLAGS, false, true, false) else Walk(s.mem, r, q)
    {
      assert InArena(q) ==> q[0] == q[..3][0];
      if InArena(q) {
        ArenaPage(q);
      }
    }
  }

  lemma TablesThere(t: VM, x: nat)
    requires Inv(t) && x < ENTRIES && Node(t.kroot, ArenaPath(x)) in t.at
    ensures FullPath(ArenaPath(0)) && Missing(t.at, t.kroot, ArenaPath(0)) == 0
  {
    hide Inv;
    ArenaIndices(x);
    SameTables(t.at, t.kroot, x);
    PrefixThere(t, t.kroot, ArenaPath(x), 1);
    PrefixThere(t, t.kroot, ArenaPath(x), 2);
    PrefixThere(t, t.kroot, ArenaPath(x), 3);
  }

  // ---- the framebuffer -----------------------------------------------------------------------------

  /** The tables that mapping pages first, first + 1, ... needs. */
  ghost function TablePaths(first: nat, count: nat): set<Path> {
    set x: nat, k: nat | first <= x < first + count && 1 <= k <= 3 :: PathOf(x)[..k]
  }

  /** These pages lie below 2^39, clear of huge pages and of what the kernel has mapped. */
  ghost predicate DeviceFree(s: VM, first: nat, count: nat) {
    && first + count <= USER_FIRST_PAGE
    && forall x: nat | first <= x < first + count :: Clear(s, PathOf(x)) && Node(s.kroot, PathOf(x)) !in s.at
  }

  /** The first k of the pages are mapped one to one in every space, for the kernel alone, and only tables were added. */
  ghost predicate DeviceTo(s: VM, t: VM, first: nat, k: nat) {
    && t.kroot == s.kroot && (forall n | n in s.at :: n in t.at && t.at[n] == s.at[n])
    && (forall n | n in t.at && n !in s.at :: n.root == s.kroot && |n.path| <= 3)
    && (forall q :: Clear(s, q) ==> Clear(t, q))
    && (forall r: nat, q | Node(r, []) in s.at && FullPath(q) ::
          Walk(t.mem, r, q) ==
            if first <= PageNo(q) < first + k then Mapped(PageNo(q), KERNEL_FLAGS, false, true, false) else Walk(s.mem, r, q))
  }

  lemma DeviceStart(s: VM, first: nat)
    ensures DeviceTo(s, s, first, 0)
  {
    hide Walk, PageNo, Clear;
  }

  lemma DeviceStep(s: VM, a: VM, t: VM, first: nat, k: nat)
    requires DeviceTo(s, a, first, k) && first + k < USER_FIRST_PAGE && t.kroot == a.kroot
    requires TablesAdded(a.at, t.at, a.kroot, PathOf(first + k)) && (forall q :: Clear(a, q) ==> Clear(t, q))
    requires forall r: nat, q | Node(r, []) in a.at && FullPath(q) ::
      Walk(t.mem, r, q) == if q == PathOf(first + k) then Mapped(first + k, KERNEL_FLAGS, false, true, false) else Walk(a.mem, r, q)
    ensures DeviceTo(s, t, first, k + 1)
  {
    hide Walk, PageNo, Clear, Indices;
    PageNoOfPath(first + k);
    forall r: nat, q | Node(r, []) in s.at && FullPath(q)
      ensures Walk(t.mem, r, q) ==
        if first <= PageNo(q) < first + k + 1 then Mapped(PageNo(q), KERNEL_FLAGS, false, true, false) else Walk(s.mem, r, q)
    {
      PathOfPageNo(q);
    }
  }

  /** The loop of fb_init: the framebuffer's pages, which no allocator hands out, at their own addresses. */
  method MapFramebuffer(v: AddressSpaces, addr: nat, bytes: nat)
    requires v.Valid() && DeviceFree(v.State(), addr / PAGE_SIZE, (bytes + 0xFFF) / PAGE_SIZE)
    requires Budget(v.at, |v.reserved| + |v.loose|, v.pmm.total, v.kernelPml4,
                    PathsOf(v.at, v.kernelPml4) + TablePaths(addr / PAGE_SIZE, (bytes + 0xFFF) / PAGE_SIZE))
    modifies v`at, v`own, v`loose, v.pmm`used, v.pmm.bitmap, v.mem
    ensures v.Valid() && v.loose == old(v.loose)
    ensures DeviceTo(old(v.State()), v.State(), addr / PAGE_SIZE, (bytes + 0xFFF) / PAGE_SIZE)
    ensures forall r: nat, a: nat | Node(r, []) in old(v.at) && a < 0x1_0000_0000_0000 ::
      Walk(v.mem[..], r, Indices(a)) ==
        if addr / 4096 <= a / 4096 < addr / 4096 + (bytes + 4095) / 4096 then Mapped(a / 4096, 3, false, true, false)
        else Walk(old(v.mem[..]), r, Indices(a))
  {
    hide AddressSpaces.Valid, DeviceTo, DeviceFree, Budget, TablePaths;
    ghost var s, allowed := v.State(), PathsOf(v.at, v.kernelPml4) + TablePaths(addr / PAGE_SIZE, (bytes + 0xFFF) / PAGE_SIZE);
    var first, pages := addr / PAGE_SIZE, (bytes + 0xFFF) / PAGE_SIZE;
    DeviceStart(s, first);
    var i := 0;
    while i < pages
      invariant 0 <= i <= pages && v.Valid() && v.loose == old(v.loose) && s.kroot == v.kernelPml4
      invariant DeviceTo(s, v.State(), first, i)
      invariant Budget(v.at, |v.reserved| + |v.loose|, v.pmm.total, v.kernelPml4, allowed)
    {
      MapDevicePage(v, s, first, pages, i, allowed);
      i := i + 1;
    }
    DeviceSeen(s, v.State(), first, pages);
  }

  /** The same by address. */
  lemma DeviceSeen(s: VM, t: VM, first: nat, pages: nat)
    requires DeviceTo(s, t, first, pages)
    ensures forall r: nat, a: nat | Node(r, []) in s.at && a < 0x1_0000_0000_0000 ::
      Walk(t.mem, r, Indices(a)) ==
        if first <= a / 4096 < first + pages then Mapped(a / 4096, 3, false, true, false) else Walk(s.mem, r, Indices(a))
  {
    hide Walk, Indices, PageNo, Clear;
    forall a: nat | a < 0x1_0000_0000_0000 ensures PageNo(Indices(a)) == a / 4096 {
      PageOfAddress(a);
    }
  }

  /** One turn of the loop: page first + i to itself. */
  method MapDevicePage(v: AddressSpaces, ghost s: VM, first: nat, ghost pages: nat, i: nat, ghost allowed: set<Path>)
    requires v.Valid() && i < pages && s.kroot == v.kernelPml4 && DeviceFree(s, first, pages) && DeviceTo(s, v.State(), first, i)
    requires TablePaths(first, pages) <= allowed && Budget(v.at, |v.reserved| + |v.loose|, v.pmm.total, v.kernelPml4, allowed)
    modifies v`at, v`own, v`loose, v.pmm`used, v.pmm.bitmap, v.mem
    ensures v.Valid() && v.loose == old(v.loose) && DeviceTo(s, v.State(), first, i + 1)
    ensures Budget(v.at, |v.reserved| + |v.loose|, v.pmm.total, v.kernelPml4, allowed)
  {
    hide AddressSpaces.Valid, Budget, Inv, Walk, Indices, Missing, Clear, DeviceTo, TablesAdded;
    ghost var a, p := v.State(), PathOf(first + i);
    v.ValidParts();
    DeviceReady(s, a, first, pages, i);
    TablesAllowed(first, pages, first + i);
    v.RoomForTables(v.kernelPml4, allowed, p);
    KernelFlags();
    v.MapDevice((first + i) * PAGE_SIZE, (first + i) * PAGE_SIZE, KERNEL_FLAGS);
    DeviceStep(s, a, v.State(), first, i);
    BudgetKeptByTables(a.at, v.at, |v.reserved| + |v.loose|, v.pmm.total, v.kernelPml4, allowed, p);
  }

  lemma DeviceReady(s: VM, t: VM, first: nat, pages: nat, i: nat)
    requires Inv(t) && DeviceFree(s, first, pages) && DeviceTo(s, t, first, i) && i < pages
    ensures FullPath(PathOf(first + i)) && PathOf(first + i)[0] == 0 && Clear(t, PathOf(first + i))
    ensures Node(t.kroot, []) in t.at && Node(t.kroot, PathOf(first + i)) !in t.at
  {
    hide Inv, Walk, Clear, Indices, PageNo;
    PageNoOfPath(first + i);
    KernelRootThere(t);
    assert |PathOf(first + i)| == 4;
  }

  lemma TablesAllowed(first: nat, pages: nat, x: nat)
    requires first <= x < first + pages && FullPath(PathOf(x))
    ensures {PathOf(x)[..1], PathOf(x)[..2], PathOf(x)[..3]} <= TablePaths(first, pages)
  {
    hide Indices;
    assert forall k: nat | 1 <= k <= 3 :: PathOf(x)[..k] in TablePaths(first, pages);
  }

  lemma BudgetKeptByTables(at: map<Node, nat>, at2: map<Node, nat>, others: nat, total: nat, r: nat, allowed: set<Path>, p: Path)
    requires FullPath(p) && Budget(at, others, total, r, allowed) && TablesAdded(at, at2, r, p) && {p[..1], p[..2], p[..3]} <= allowed
    ensures Budget(at2, others, total, r, allowed)
  {
    hide Budget;
    BudgetKept(at, at2, others, total, r, allowed);
  }
}
