/** From a set-up frame allocator to the first task: the state every run starts in. */
module Boot {
  import opened PageTables
  import opened Translations
  import opened Vmm
  import H = Heap
  import K = KernelMap
  import S = Sched

  /** The frames taken on the way: three tables, the arena's pages, and two tables above those. */
  const BOOT_FRAMES := 3 + ENTRIES + 2

  /** The boot tables have one of the three tables that lead to the arena. */
  lemma ArenaTables(at: map<Node, nat>, r: nat)
    requires at.Keys == {Node(r, []), Node(r, [0]), Node(r, [0, 0])}
    ensures Missing(at, r, K.ArenaPath(0)) == 2
  {
    var p := K.ArenaPath(0);
    assert p[..1] == [0] && p[..2] == [0, 4] && p[..3] == [0, 4, 0];
  }

  /**
   * The kernel's view of memory after start-up, by address: the first GiB onto itself in 2 MiB pages, the
   * 2 MiB of heap from 4 GiB on in 4 KiB pages with a frame each, nothing else, and nothing for user mode.
   */
  ghost predicate Layout(mem: seq<Frame>, root: nat) {
    && (forall a: nat | a < 0x4000_0000 :: Walk(mem, root, Indices(a)) == Mapped(a / 0x20_0000 * 512, 0x83, false, true, true))
    && (forall a: nat | 0x1_0000_0000 <= a < 0x1_0020_0000 ::
          var w := Walk(mem, root, Indices(a)); w.Mapped? && !w.user && w.writable && !w.huge)
    && (forall a: nat, b: nat | 0x1_0000_0000 <= a < b < 0x1_0020_0000 && a / 4096 != b / 4096 ::
          var x, y := Walk(mem, root, Indices(a)), Walk(mem, root, Indices(b)); x.Mapped? && y.Mapped? && x.frame != y.frame)
    && (forall a: nat | 0x4000_0000 <= a < 0x1_0000_0000 || 0x1_0020_0000 <= a < 0x1_0000_0000_0000 ::
          Walk(mem, root, Indices(a)) == Unmapped)
  }

  /** The indices of low addresses, by range. */
  lemma LowIndices(a: nat)
    requires a < 0x1_0000_0000_0000
    ensures var q := Indices(a);
      && (a < 0x4000_0000 <==> q[0] == 0 && q[1] == 0) && (a < 0x4000_0000 ==> q[2] == a / 0x20_0000)
      && (0x1_0000_0000 <= a < 0x1_0020_0000 <==> K.InArena(q))
      && (K.InArena(q) ==> q[3] == a / 4096 - 0x10_0000)
  {
    var q := Indices(a);
    assert q[..3] == [q[0], q[1], q[2]];
  }

  lemma BootLayout(s: VM, t: VM)
    requires Inv(t) && K.ArenaTo(s, t, ENTRIES) && Node(s.kroot, []) in s.at
    requires FirstGiB(s.mem, s.kroot)
    ensures Layout(t.mem, s.kroot)
  {
    hide Walk, Inv, Indices, Clear, ClearLeaf, Missing, K.InArena;
    forall a: nat | a < 0x1_0000_0000_0000
      ensures Walk(t.mem, s.kroot, Indices(a)) ==
        if 0x1_0000_0000 <= a < 0x1_0020_0000 then Mapped(K.FrameOf(t, Indices(a)), K.KERNEL_FLAGS, false, true, false)
        else if a < 0x4000_0000 then Mapped(a / 0x20_0000 * 512, 0x83, false, true, true) else Unmapped
    {
      LowIndices(a);
    }
    forall a: nat, b: nat | 0x1_0000_0000 <= a < b < 0x1_0020_0000 && a / 4096 != b / 4096
      ensures K.FrameOf(t, Indices(a)) != K.FrameOf(t, Indices(b))
    {
      LowIndices(a);
      LowIndices(b);
      OwnFrames(t, Indices(a), Indices(b));
    }
  }

  lemma OwnFrames(t: VM, p: Path, q: Path)
    requires Inv(t) && p != q && Node(t.kroot, p) in t.at && Node(t.kroot, q) in t.at
    ensures K.FrameOf(t, p) != K.FrameOf(t, q)
  {
    assert Placed(t, Node(t.kroot, p)) && Placed(t, Node(t.kroot, q));
  }

  /** vmm_init, heap_init and sched_init, in kmain's order. */
  method BringUp(allocator: Pmm.FrameAllocator) returns (scheduler: S.Scheduler)
    requires allocator.Valid() && allocator.used + BOOT_FRAMES <= allocator.total
    modifies allocator`used, allocator.bitmap
    ensures scheduler.Valid() && scheduler.ring == [scheduler.boot] && scheduler.current == scheduler.boot
    ensures scheduler.v.pmm == allocator && allocator.used == old(allocator.used) + BOOT_FRAMES
    ensures forall q | K.InArena(q) ::
      Walk(scheduler.v.mem[..], scheduler.v.kernelPml4, q) ==
        Mapped(K.FrameOf(scheduler.v.State(), q), K.KERNEL_FLAGS, false, true, false)
    ensures Layout(scheduler.v.mem[..], scheduler.v.kernelPml4)
  {
    hide AddressSpaces.Valid, S.Scheduler.Valid, Bare, K.ArenaFree, Missing, Walk, H.KernelHeap.Valid, Layout, K.ArenaTo, FirstGiB;
    var v := new AddressSpaces(allocator);
    ghost var s := v.State();
    K.BootArenaFree(s);
    ArenaTables(v.at, v.kernelPml4);
    K.MapArena(v);
    ArenaMapped(s, v.State());
    v.ValidParts();
    BootLayout(s, v.State());
    var heap := new H.KernelHeap();
    scheduler := new S.Scheduler(v, heap);
  }

  /** What the arena's loop leaves behind, seen from the kernel's own root. */
  lemma ArenaMapped(s: VM, t: VM)
    requires K.ArenaTo(s, t, ENTRIES) && Node(s.kroot, []) in s.at && forall n :: n in s.at ==> n.root == s.kroot
    ensures forall n | n in t.at :: n.root == s.kroot
    ensures forall q | K.InArena(q) :: Walk(t.mem, s.kroot, q) == Mapped(K.FrameOf(t, q), K.KERNEL_FLAGS, false, true, false)
  {
    hide Clear, ClearLeaf, Walk, Missing;
  }
}
