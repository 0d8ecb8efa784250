/** Processes: the scheduler's ring over the address spaces and the heap. */
module Sched {
  import opened Bytes
  import opened PageTables
  import opened Translations
  import opened Vmm
  import opened VmmClone
  import opened SchedRing
  import E = Elf
  import A = ExecArgs
  import H = Heap

  const STACK_SIZE := 16384
  const TASK_SIZE := 320           // sizeof(task)

  /** What ramdisk_lookup returns. */
  datatype Lookup = Missing | Found(elf: seq<byte>)

  const RFLAGS := 0x202            // interrupts on
  const KERNEL_CS := 0x08
  const KERNEL_SS := 0x10
  const USER_CS := 0x1B
  const USER_SS := 0x23

  /** A fabricated frame: everything zero but where to go on, and on which stack. */
  function StartFrame(entry: nat, cs: nat, ss: nat, sp: nat): Registers {
    Registers(0, 0, 0, 0, 0, 0, 0, 0, 0, 0, 0, 0, 0, 0, 0, 0, 0, entry, cs, RFLAGS, sp, ss)
  }

  /** A frame that enters a program with its arguments: argc in rdi, argv in rsi, the stack aligned just below argv. */
  predicate Entered(f: Registers, entry: nat, argc: nat) {
    f == StartFrame(entry, USER_CS, USER_SS, f.rsp).(rdi := argc, rsi := f.rsi) && f.rsp % 16 == 0 && f.rsp <= f.rsi < f.rsp + 16
  }

  /** Both allocations of a new task succeed. */
  predicate RoomForTask(bs: seq<H.Block>) {
    H.Alloc(bs, TASK_SIZE).1 != 0 && H.Alloc(H.Alloc(bs, TASK_SIZE).0, STACK_SIZE).1 != 0
  }

  /** No segment reaches into the pages of the user stack. */
  ghost predicate ClearOfStack(elf: seq<byte>)
    requires E.TableInside(elf)
  {
    forall i, page: nat | 0 <= i < E.PhNum(elf) && E.StackPage(page) :: !E.Covers(E.SegmentAt(elf, i), page)
  }

  /** The root, tables and pages of a program: its image and its stack, shared tables once. */
  ghost function ProgramPaths(elf: seq<byte>): set<Path>
    requires E.TableInside(elf)
  {
    E.ImagePaths(elf, E.PhNum(elf)) + E.StackPaths()
  }

  /** What loading a program takes for granted. */
  ghost predicate CanLoad(v: AddressSpaces, elf: seq<byte>)
    reads v, v.pmm
  {
    && |elf| >= 64
    && (E.GoodMagic(elf) ==>
      && E.Loadable(elf) && ClearOfStack(elf)
      && v.pmm.used + |ProgramPaths(elf)| <= v.pmm.total)
  }

  /** The space holds the program's image and four writable stack pages, and no other user page. */
  ghost predicate ProgramReady(elf: seq<byte>, t: VM, space: nat)
    requires E.TableInside(elf)
  {
    && (forall q | FullPath(q) :: Node(space, q) in t.at <==> E.CoveredBy(elf, E.PhNum(elf), PageNo(q)) || E.StackPage(PageNo(q)))
    && (forall i, q | 0 <= i < E.PhNum(elf) && FullPath(q) && E.Covers(E.SegmentAt(elf, i), PageNo(q)) ::
          E.PageLoaded(elf, E.SegmentAt(elf, i), t, space, q))
    && (forall q | FullPath(q) && E.StackPage(PageNo(q)) :: EntryOf(t, Node(space, q)).flags == E.USER_FLAGS)
  }

  lemma NoStackYet(elf: seq<byte>, t: VM, space: nat)
    requires E.Loadable(elf) && ClearOfStack(elf) && E.Loaded(elf, E.PhNum(elf), t, space)
    ensures forall q | FullPath(q) && E.StackPage(PageNo(q)) :: Node(space, q) !in t.at
  {
    hide E.PageLoaded, E.SegmentAt, PageNo, E.StackPage, E.Covers;
    forall q | FullPath(q) && E.StackPage(PageNo(q)) ensures Node(space, q) !in t.at {
      assert !E.CoveredBy(elf, E.PhNum(elf), PageNo(q));
    }
  }

  lemma ReadyWithStack(elf: seq<byte>, s: VM, t: VM, space: nat)
    requires E.Loadable(elf) && E.Loaded(elf, E.PhNum(elf), s, space) && GrewUnder(s, t, space, [])
    requires forall q | FullPath(q) :: Node(space, q) in t.at <==> Node(space, q) in s.at || E.StackPage(PageNo(q))
    requires forall q | FullPath(q) && E.StackPage(PageNo(q)) :: EntryOf(t, Node(space, q)).flags == E.USER_FLAGS
    ensures ProgramReady(elf, t, space)
  {
    hide EntryOf, ContentOf, PageNo, E.SegmentAt, E.StackPage, E.Covers, E.PageImage, E.CoveredBy;
    forall i, q | 0 <= i < E.PhNum(elf) && FullPath(q) && E.Covers(E.SegmentAt(elf, i), PageNo(q))
      ensures E.PageLoaded(elf, E.SegmentAt(elf, i), t, space, q)
    {
      assert E.PageLoaded(elf, E.SegmentAt(elf, i), s, space, q);
    }
  }

  lemma OnlyNewGrew(s: VM, m: VM, t: VM, space: nat)
    requires E.OnlyNewSpace(s, m, space) && GrewUnder(m, t, space, [])
    ensures E.OnlyNewSpace(s, t, space)
  {
    hide EntryOf, ContentOf;
  }

  /** elf_load and the stack loop, as spawn and exec_current run them. */
  method LoadProgram(v: AddressSpaces, elf: seq<byte>) returns (space: nat, entry: nat)
    requires v.Valid() && CanLoad(v, elf)
    modifies v`at, v`own, v`loose, v.pmm`used, v.pmm.bitmap, v.mem
    ensures v.Valid() && v.loose == old(v.loose)
    ensures space != 0 <==> E.GoodMagic(elf)
    ensures space == 0 ==> v.State() == old(v.State())
    ensures space != 0 ==>
      && ProgramReady(elf, v.State(), space) && entry == E.Entry(elf)
      && E.OnlyNewSpace(old(v.State()), v.State(), space) && space != v.kernelPml4
  {
    hide AddressSpaces.Valid, E.Loaded, ClearOfStack, E.OnlyNewSpace, ProgramReady, GrewUnder, EntryOf, PageNo, E.StackPage, E.GoodMagic;
    hide E.ImagePaths, E.StackPaths, Budget;
    ghost var s := v.State();
    ghost var allowed := if E.GoodMagic(elf) then ProgramPaths(elf) else {};
    space, entry := E.ElfLoad(v, elf, allowed);
    if space == 0 {
      return;
    }
    ghost var m := v.State();
    NoStackYet(elf, m, space);
    RootOfNew(s, m, space);
    E.MapStack(v, space, allowed);
    ReadyWithStack(elf, m, v.State(), space);
    OnlyNewGrew(s, m, v.State(), space);
  }

  /** On every page that a loadable segment reaches into, the program finds the file's bytes, and zeros past them. */
  lemma ProgramSeen(elf: seq<byte>, t: VM, space: nat, page: nat, i: nat)
    requires Inv(t) && E.Loadable(elf) && ProgramReady(elf, t, space) && Node(space, []) in t.at && space != t.kroot
    requires i < E.PhNum(elf) && E.SegmentAt(elf, i).kind == 1
    requires E.SegmentAt(elf, i).vaddr < 4096 * page + 4096 && 4096 * page < E.SegmentAt(elf, i).vaddr + E.SegmentAt(elf, i).memsz
    ensures var w, g := Walk(t.mem, space, PathOf(page)), E.SegmentAt(elf, i);
      && w.Mapped? && w.user && w.writable && w.frame < |t.mem| && t.mem[w.frame].Page? && g.offset + g.filesz <= |elf|
      && forall off | 0 <= off < 4096 :: t.mem[w.frame].bytes[off] ==
           if g.vaddr <= page * 4096 + off < g.vaddr + g.filesz then elf[g.offset + (page * 4096 + off - g.vaddr)] else 0
  {
    hide Inv, EntryAt, EntryOf, E.SegmentAt, Indices, PageNo, E.PageLoaded, Walk;
    var g := E.SegmentAt(elf, i);
    E.CoversExactly(g, page);
    E.LoadableSegment(elf, i, page);
    PageNoOfPath(page);
    assert E.PageLoaded(elf, g, t, space, PathOf(page));
    E.LoadedSeen(elf, g, t, space, page);
  }

  /** Of the other user pages exactly the 16 KiB below 0x8000100000 are mapped, for the program to write. */
  lemma StackSeen(elf: seq<byte>, t: VM, space: nat, page: nat)
    requires Inv(t) && E.Loadable(elf) && ProgramReady(elf, t, space) && Node(space, []) in t.at && space != t.kroot
    requires USER_FIRST_PAGE <= page < USER_END_PAGE
    requires forall i | 0 <= i < E.PhNum(elf) && E.SegmentAt(elf, i).kind == 1 ::
      E.SegmentAt(elf, i).vaddr >= 4096 * page + 4096 || 4096 * page >= E.SegmentAt(elf, i).vaddr + E.SegmentAt(elf, i).memsz
    ensures var w := Walk(t.mem, space, PathOf(page));
      if 0x80_000F_C000 <= 4096 * page < 0x80_0010_0000 then w.Mapped? && w.user && w.writable else w == Unmapped
  {
    hide Inv, EntryAt, EntryOf, E.SegmentAt, Indices, PageNo, E.PageLoaded, Walk, E.Covers;
    PageNoOfPath(page);
    forall i | 0 <= i < E.PhNum(elf) ensures !E.Covers(E.SegmentAt(elf, i), page) {
      E.CoversExactly(E.SegmentAt(elf, i), page);
    }
    WalkFindsPages(t, space, PathOf(page));
    if E.StackPage(page) {
      E.UserFlagBits(EntryOf(t, Node(space, PathOf(page))));
    }
  }

  lemma RootOfNew(s: VM, t: VM, space: nat)
    requires E.OnlyNewSpace(s, t, space)
    ensures Node(space, []) in t.at && t.kroot == s.kroot
    ensures forall n | n in s.at :: n in t.at && t.at[n] == s.at[n] && n.root != space
    ensures forall n | n in t.at && n !in s.at :: n.root == space
  {
    hide EntryOf, ContentOf;
  }

  lemma WasLoadable(v: AddressSpaces, elf: seq<byte>)
    requires CanLoad(v, elf) && E.GoodMagic(elf)
    ensures E.Loadable(elf) && ClearOfStack(elf) && E.TableInside(elf)
  {
  }

  lemma HeadersInside(elf: seq<byte>)
    requires E.Loadable(elf)
    ensures E.TableInside(elf)
  {
  }

  /** A program stays ready when its arguments are written onto its stack. */
  lemma ReadyWithArguments(elf: seq<byte>, s: VM, t: VM, space: nat)
    requires E.TableInside(elf) && ClearOfStack(elf) && ProgramReady(elf, s, space) && A.OnlyPage(s, t, A.TopPage(space))
    ensures ProgramReady(elf, t, space)
  {
    hide PageNo, PathOf, E.SegmentAt, E.Covers, E.PageImage, E.CoveredBy, EntryOf, ContentOf;
    PageNoOfPath(E.STACK_FIRST + 3);
    forall i, q | 0 <= i < E.PhNum(elf) && FullPath(q) && E.Covers(E.SegmentAt(elf, i), PageNo(q))
      ensures E.PageLoaded(elf, E.SegmentAt(elf, i), t, space, q)
    {
      assert E.PageLoaded(elf, E.SegmentAt(elf, i), s, space, q);
      assert !E.StackPage(PageNo(q));
      assert Node(space, q) != A.TopPage(space);
    }
  }

  lemma TopPageThere(elf: seq<byte>, s: VM, space: nat)
    requires E.TableInside(elf) && ProgramReady(elf, s, space)
    ensures A.TopPage(space) in s.at
  {
    hide PageNo, PathOf, E.SegmentAt, E.Covers, E.PageImage, E.CoveredBy, E.PageLoaded;
    PageNoOfPath(E.STACK_FIRST + 3);
  }

  lemma StillOnlyNew(s: VM, m: VM, t: VM, space: nat)
    requires E.OnlyNewSpace(s, m, space) && A.OnlyPage(m, t, A.TopPage(space))
    ensures E.OnlyNewSpace(s, t, space)
  {
    hide EntryOf, ContentOf;
  }

  /** A program stays ready when other spaces go. */
  lemma ReadyKept(elf: seq<byte>, s: VM, t: VM, space: nat)
    requires E.TableInside(elf) && ProgramReady(elf, s, space) && t.mem == s.mem
    requires forall n | n in s.at && n.root == space :: n in t.at && t.at[n] == s.at[n]
    requires forall n | n in t.at :: n in s.at
    ensures ProgramReady(elf, t, space)
  {
    hide PageNo, E.SegmentAt, E.StackPage, E.Covers, E.PageImage, E.CoveredBy;
    forall q | FullPath(q)
      ensures EntryOf(t, Node(space, q)) == EntryOf(s, Node(space, q)) && ContentOf(t, Node(space, q)) == ContentOf(s, Node(space, q))
    {
      assert Parent(Node(space, q)).root == space;
    }
    forall i, q | 0 <= i < E.PhNum(elf) && FullPath(q) && E.Covers(E.SegmentAt(elf, i), PageNo(q))
      ensures E.PageLoaded(elf, E.SegmentAt(elf, i), t, space, q)
    {
      assert E.PageLoaded(elf, E.SegmentAt(elf, i), s, space, q);
    }
  }

  /** The current task has a child in the ring that is not dead. */
  ghost predicate LiveChild(s: Snapshot)
    requires s.ring != []
  {
    exists i | 1 <= i < |s.ring| :: ParentOf(s, s.ring[i]) == s.ring[0] && StateOf(s, s.ring[i]) != Dead
  }

  /** The spaces with these roots are in place, table for table and page for page. */
  ghost predicate SpacesKept(at0: map<Node, nat>, at: map<Node, nat>, roots: set<nat>) {
    forall n | n in at0 && n.root in roots :: n in at && at[n] == at0[n]
  }

  lemma KeptOnward(at0: map<Node, nat>, at1: map<Node, nat>, at2: map<Node, nat>, roots: set<nat>, left: set<nat>)
    requires SpacesKept(at0, at1, roots) && SpacesKept(at1, at2, left) && left <= roots
    ensures SpacesKept(at0, at2, left)
  {
  }

  class Scheduler {
    const v: AddressSpaces
    const heap: H.KernelHeap
    const boot: Task
    var current: Task
    var ticks: nat
    var nextPid: nat
    ghost var ring: seq<Task>            // the circle of next pointers, from current on
    ghost var tasks: set<Task>           // every task ever made
    ghost var spaces: map<nat, Task>     // whose address space a root is
    ghost var held: map<nat, Task>       // whose struct or kernel stack a heap pointer is
    ghost const kernelAt: map<Node, nat> // the kernel's own tables, fixed at start-up

    // ---- what is kept ---------------------------------------------------------------------------

    ghost function Snap(): Snapshot
      reads this`ring, this`tasks, tasks`state, tasks`wakeTick
    {
      Snapshot(ring, map t | t in tasks :: t.state, map t | t in tasks :: t.parent, map t | t in tasks :: t.wakeTick)
    }

    /** s records exactly the present state. */
    ghost predicate Records(s: Snapshot)
      reads this`ring, this`tasks, tasks`state, tasks`wakeTick
    {
      && s.ring == ring && s.st.Keys == tasks && s.parent.Keys == tasks && s.wake.Keys == tasks
      && forall t | t in tasks :: s.st[t] == t.state && s.parent[t] == t.parent && s.wake[t] == t.wakeTick
    }

    lemma SnapParts()
      ensures Records(Snap())
    {
    }

    lemma SnapIs(s: Snapshot)
      requires Records(s)
      ensures Snap() == s
    {
      var z := Snap();
      assert z.st == s.st;
      assert z.parent == s.parent;
      assert z.wake == s.wake;
    }

    ghost function Roots(): set<nat>
      reads this`spaces
    {
      spaces.Keys + {v.kernelPml4}
    }

    ghost function Members(): set<Task>
      reads this`ring
    {
      set t | t in ring
    }

    lemma RingStarts()
      requires Linked()
      ensures ring != [] && ring[0] == current
    {
    }

    /** The next pointers form one simple cycle through exactly the ring. */
    ghost predicate Linked()
      reads this`ring, this`current, ring`next
    {
      && ring != [] && ring[0] == current
      && (forall i, j | 0 <= i < |ring| && j == i + 1 && j < |ring| :: ring[i].next == ring[j])
      && ring[|ring| - 1].next == ring[0]
    }

    /** The address spaces are the kernel's, one private one for each other owner, and those in extra. */
    ghost predicate SpacesOk(owners: set<Task>, extra: set<nat>)
      reads this`spaces, v`at, owners`pml4
    {
      && (forall r | r in spaces :: spaces[r] in owners && spaces[r].pml4 == r && r != v.kernelPml4 && r != 0 && Node(r, []) in v.at)
      && (forall t | t in owners :: t.pml4 == v.kernelPml4 || (t.pml4 in spaces && spaces[t.pml4] == t))
      && (forall n | n in v.at :: n.root == v.kernelPml4 || n.root in spaces || n.root in extra)
      && spaces.Keys !! extra
    }

    /** The heap holds exactly the owners' structs and kernel stacks, each for one owner. */
    ghost predicate HeldOk(owners: set<Task>)
      reads this`held, heap`blocks
    {
      && H.Payloads(heap.blocks) == held.Keys
      && (forall p | p in held :: held[p] in owners && (p == held[p].addr || p == held[p].kstackBase))
      && (forall t | t in owners :: TaskHeld(t))
    }

    ghost predicate TaskHeld(t: Task)
      reads this`held, heap`blocks
    {
      && t.addr in held && held[t.addr] == t && t.addr != t.kstackBase && H.HoldsAt(heap.blocks, t.addr, TASK_SIZE)
      && (t.kstackBase != 0 ==> t.kstackBase in held && held[t.kstackBase] == t && H.HoldsAt(heap.blocks, t.kstackBase, STACK_SIZE))
    }

    ghost predicate KernelFixed()
      reads v`at
    {
      && (forall n | n in kernelAt :: n.root == v.kernelPml4 && n in v.at && v.at[n] == kernelAt[n])
      && (forall n | n in v.at && n.root == v.kernelPml4 :: n in kernelAt)
    }

    ghost predicate Machine()
      reads v, v.pmm, v.pmm.bitmap, v.mem, heap
    {
      v.Valid() && v.loose == {} && heap.Valid() && KernelFixed()
    }

    ghost predicate ValidBut(extra: set<nat>)
      reads this, ring, tasks, v, v.pmm, v.pmm.bitmap, v.mem, heap
    {
      && Linked() && RingInv(Snap(), boot) && Machine()
      && SpacesOk(Members(), extra) && HeldOk(Members())
    }

    ghost predicate Valid()
      reads this, ring, tasks, v, v.pmm, v.pmm.bitmap, v.mem, heap
    {
      ValidBut({})
    }

    // ---- creation ----------------------------------------------------------------------------------

    /** sched_init, on an empty heap and with no address space but the kernel's. */
    constructor (v: AddressSpaces, heap: H.KernelHeap)
      requires v.Valid() && v.loose == {} && (forall n | n in v.at :: n.root == v.kernelPml4)
      requires heap.Valid() && heap.blocks == H.Fresh()
      modifies heap
      ensures this.v == v && this.heap == heap && Valid() && ring == [boot] && current == boot
      ensures boot.pml4 == v.kernelPml4 && boot.kstackBase == 0 && boot.parent == null && ticks == 0 && nextPid == 1 && fresh(tasks)
      ensures boot.next == boot && boot.state == Runnable && forall k | 0 <= k < |boot.fds| :: !boot.fds[k].used
    {
      hide AddressSpaces.Valid, H.KernelHeap.Valid, H.HeapInv, H.Payloads, H.Alloc, H.HoldsAt, H.Fresh, Linked, Snap, RingInv, SpacesOk, HeldOk;
      EmptyHeap();
      H.AllocPayload(heap.blocks, TASK_SIZE);
      H.NullNotHeld(H.Alloc(heap.blocks, TASK_SIZE).0);
      var p := heap.Kmalloc(TASK_SIZE);
      var noFiles: seq<V.FileDesc> := seq(V.MAX_FDS, _ => V.FileDesc(false, 0, 0, 0));
      var frame: Registers := *;       // filled in when boot is first interrupted
      var t := new Task(p, 0, 0, v.kernelPml4, null, noFiles, frame);
      this.v, this.heap, this.boot := v, heap, t;
      current, ticks, nextPid := t, 0, 1;
      ring, tasks, spaces, held := [t], {t}, map[], map[p := t];
      kernelAt := v.at;
      new;
      OnlyBoot();
    }

    lemma OnlyBoot()
      requires ring == [boot] && current == boot && boot.next == boot && tasks == {boot} && boot.state == Runnable
      requires boot.parent == null && boot.pml4 == v.kernelPml4 && boot.kstackBase == 0 && spaces == map[] && held == map[boot.addr := boot]
      requires boot.addr != 0 && H.Payloads(heap.blocks) == {boot.addr} && H.HoldsAt(heap.blocks, boot.addr, TASK_SIZE)
      requires forall n | n in v.at :: n.root == v.kernelPml4
      ensures Linked() && RingInv(Snap(), boot) && SpacesOk(Members(), {}) && HeldOk(Members())
    {
      hide H.Payloads, H.HoldsAt;
      assert Members() == {boot};
    }

    // ---- new tasks -----------------------------------------------------------------------------------

    /** t->next = current->next; current->next = t */
    method LinkIn(t: Task)
      requires Linked() && Distinct(ring) && t !in ring
      modifies this`ring, current`next, t`next
      ensures Linked() && ring == [current, t] + old(ring)[1..] && current.next == t && t.next == old(current.next)
    {
      ghost var r := ring;
      t.next := current.next;
      current.next := t;
      ring := [current, t] + ring[1..];
      assert r == [current] + r[1..];
      assert forall k | 2 <= k < |ring| :: ring[k] == r[k - 1];
    }

    /** The same, recorded. */
    method Link(t: Task)
      requires Linked() && Distinct(ring) && t !in ring && t !in tasks && t.state == Runnable && t.wakeTick == 0
      modifies this`ring, this`tasks, current`next, t`next
      ensures Linked() && Members() == old(Members()) + {t} && tasks == old(tasks) + {t}
      ensures Snap() == Inserted(old(Snap()), t, t.parent) && current.next == t && t.next == old(current.next)
    {
      hide Linked;
      ghost var r, s := ring, Snap();
      RingStarts();
      LinkIn(t);
      tasks := tasks + {t};
      assert r == [current] + r[1..];
      SnapIs(Inserted(s, t, t.parent));
    }

    ghost method ClaimSpace(t: Task)
      requires SpacesOk(Members() - {t}, Unclaimed(t)) && t in Members()
      requires t.pml4 != v.kernelPml4 ==> t.pml4 != 0 && Node(t.pml4, []) in v.at
      modifies this`spaces
      ensures SpacesOk(Members(), {})
    {
      if t.pml4 != v.kernelPml4 {
        spaces := spaces[t.pml4 := t];
      }
    }

    /** Both allocations of a new task, and who holds them. */
    method AllocateTask() returns (p: nat, k: nat)
      requires Machine() && HeldOk(Members()) && RoomForTask(heap.blocks)
      modifies heap
      ensures Machine() && p != k && p != 0 && k != 0 && p !in held && k !in held
      ensures HeldBefore(Members(), {p, k})
      ensures H.HoldsAt(heap.blocks, p, TASK_SIZE) && H.HoldsAt(heap.blocks, k, STACK_SIZE)
    {
      hide AddressSpaces.Valid, H.KernelHeap.Valid, H.Alloc, H.HoldsAt, H.Payloads;
      ghost var bs := heap.blocks;
      HeapSound();
      H.AllocPayload(bs, TASK_SIZE);
      H.AllocPayload(H.Alloc(bs, TASK_SIZE).0, STACK_SIZE);
      p := heap.Kmalloc(TASK_SIZE);
      k := heap.Kmalloc(STACK_SIZE);
      H.NullNotHeld(heap.blocks);
      forall t | t in Members() ensures TaskHeld(t) {
        assert old(TaskHeld(t));
      }
    }

    ghost method ClaimHeap(t: Task)
      requires HeldBefore(Members() - {t}, {t.addr, t.kstackBase}) && t in Members()
      requires t.addr !in held && t.kstackBase !in held && t.addr != t.kstackBase
      requires H.HoldsAt(heap.blocks, t.addr, TASK_SIZE) && H.HoldsAt(heap.blocks, t.kstackBase, STACK_SIZE)
      modifies this`held
      ensures HeldOk(Members())
    {
      hide H.HoldsAt, H.Payloads;
      ghost var h := held;
      held := held[t.addr := t][t.kstackBase := t];
      forall u | u in Members() ensures TaskHeld(u) {
        assert u != t ==> old(TaskHeld(u));
      }
    }

    /** HeldOk but for the pointers in `extra`, which nobody claims yet. */
    ghost predicate HeldBefore(owners: set<Task>, extra: set<nat>)
      reads this`held, heap`blocks
    {
      && H.Payloads(heap.blocks) == held.Keys + extra
      && (forall p | p in held :: held[p] in owners && (p == held[p].addr || p == held[p].kstackBase))
      && (forall t | t in owners :: TaskHeld(t))
    }

    /** The common part of task_create, task_create_user and fork: struct, kernel stack, link. */
    method NewTask(pml4: nat, parent: Task?, fds: seq<V.FileDesc>, frame: Registers) returns (t: Task)
      requires ValidBut(if pml4 == v.kernelPml4 then {} else {pml4})
      requires pml4 != v.kernelPml4 ==> pml4 != 0 && Node(pml4, []) in v.at
      requires RoomForTask(heap.blocks) && parent != boot && (parent == null || parent in tasks)
      modifies this`ring, this`tasks, this`spaces, this`held, current`next, heap
      ensures Valid() && fresh(t) && tasks == old(tasks) + {t}
      ensures Snap() == Inserted(old(Snap()), t, parent)
      ensures current.next == t && t.next == old(current.next) && t.state == Runnable && t.wakeTick == 0
      ensures t.pml4 == pml4 && t.parent == parent && t.fds == fds && t.frame == frame && t.kstackTop % 16 == 0
      ensures t.kstackBase + STACK_SIZE - 16 < t.kstackTop <= t.kstackBase + STACK_SIZE
    {
      hide Machine, Linked, RingInv, SpacesOk, HeldOk, HeldBefore, H.HoldsAt, RoomForTask, Inserted, Snap;
      var p, k := AllocateTask();
      t := new Task(p, k, (k + STACK_SIZE) / 16 * 16, pml4, parent, fds, frame);
      SnapParts();
      RingParts(Snap(), boot);
      Enroll(t);
    }

    ghost function Unclaimed(t: Task): set<nat>
      reads t`pml4
    {
      if t.pml4 == v.kernelPml4 then {} else {t.pml4}
    }

    /** Link a finished task in and record what it owns. */
    method Enroll(t: Task)
      requires Linked() && RingInv(Snap(), boot) && Machine() && t !in tasks && t !in ring
      requires t.state == Runnable && t.wakeTick == 0 && t.parent != boot && (t.parent == null || t.parent in tasks)
      requires SpacesOk(Members(), Unclaimed(t)) && (t.pml4 != v.kernelPml4 ==> t.pml4 != 0 && Node(t.pml4, []) in v.at)
      requires HeldBefore(Members(), {t.addr, t.kstackBase}) && t.addr !in held && t.kstackBase !in held && t.addr != t.kstackBase
      requires H.HoldsAt(heap.blocks, t.addr, TASK_SIZE) && H.HoldsAt(heap.blocks, t.kstackBase, STACK_SIZE)
      modifies this`ring, this`tasks, this`spaces, this`held, current`next, t`next
      ensures Valid() && tasks == old(tasks) + {t} && Snap() == Inserted(old(Snap()), t, t.parent)
      ensures current.next == t && t.next == old(current.next)
    {
      hide Machine, Linked, RingInv, SpacesOk, HeldOk, HeldBefore, H.HoldsAt, Snap, Inserted;
      ghost var s, members := Snap(), Members();
      SnapParts();
      RingParts(s, boot);
      RingStarts();
      Link(t);
      assert Members() - {t} == members;
      ClaimSpace(t);
      ClaimHeap(t);
      InsertedKeeps(s, boot, t, t.parent);
    }

    lemma HeapSound()
      requires Machine()
      ensures heap.Valid() && H.HeapInv(heap.blocks)
    {
    }

    // ---- the reaper -------------------------------------------------------------------------------------

    /** prev->next = t->next for the task at position i. */
    method Unlink(prev: Task, dead: Task, ghost i: nat)
      requires Linked() && Distinct(ring) && 1 <= i < |ring| && prev == ring[i - 1] && dead == ring[i]
      modifies this`ring, prev`next
      ensures Linked() && Distinct(ring) && ring == old(ring)[..i] + old(ring)[i + 1..]
      ensures Members() == old(Members()) - {dead}
      ensures prev.next == old(dead.next)
    {
      ghost var r := ring;
      prev.next := dead.next;
      ring := ring[..i] + ring[i + 1..];
      forall k | 0 <= k < |ring| ensures ring[k] == (if k < i then r[k] else r[k + 1]) {
      }
      assert r == r[..i] + [dead] + r[i + 1..];
    }

    ghost method DropSpace(dead: Task)
      requires SpacesOk(Members() + {dead}, {}) && dead !in Members()
      modifies this`spaces
      ensures SpacesOk(Members(), Unclaimed(dead))
      ensures Roots() <= old(Roots()) && (dead.pml4 == v.kernelPml4 || dead.pml4 !in Roots())
    {
      if dead.pml4 != v.kernelPml4 {
        spaces := spaces - {dead.pml4};
      }
    }

    /** vmm_destroy_address_space on a root nobody claims any more. */
    method ReleaseSpace(root: nat)
      requires Machine() && SpacesOk(Members(), if root == v.kernelPml4 then {} else {root})
      requires root == v.kernelPml4 || (root != 0 && Node(root, []) in v.at)
      modifies v`at, v`own, v.pmm`used, v.pmm.bitmap
      ensures Machine() && SpacesOk(Members(), {})
      ensures forall n | n in old(v.at) && (n.root != root || root == v.kernelPml4) :: n in v.at && v.at[n] == old(v.at[n])
      ensures forall n | n in v.at :: n in old(v.at)
      ensures root != v.kernelPml4 ==> forall n | n in v.at :: n.root != root
    {
      hide AddressSpaces.Valid, H.KernelHeap.Valid;
      KernelThere();
      v.Destroy(root);
    }

    lemma KernelThere()
      requires v.Valid()
      ensures Node(v.kernelPml4, []) in v.at
    {
      hide Inv, AddressSpaces.AccountedBut;
      v.KernelFrame();
    }

    method FreePair(k: nat, p: nat)
      requires heap.Valid() && p in H.Payloads(heap.blocks) && (k != 0 ==> k in H.Payloads(heap.blocks) && k != p)
      modifies heap
      ensures heap.Valid() && H.Payloads(heap.blocks) == old(H.Payloads(heap.blocks)) - {k, p}
      ensures forall q, n :: q != k && q != p && H.HoldsAt(old(heap.blocks), q, n) ==> H.HoldsAt(heap.blocks, q, n)
    {
      hide H.KernelHeap.Valid, H.HoldsAt, H.Payloads;
      H.NullNotHeld(heap.blocks);
      if k != 0 {
        HeapSoundAt(k);
      }
      heap.Kfree(k);
      HeapSoundAt(p);
      heap.Kfree(p);
    }

    /** kfree of a dead task's kernel stack and struct. */
    method ReleaseMemory(dead: Task)
      requires Machine() && HeldOk(Members() + {dead}) && dead !in Members()
      modifies heap, this`held
      ensures Machine() && HeldOk(Members())
    {
      hide AddressSpaces.Valid, H.KernelHeap.Valid, H.HoldsAt, H.Payloads;
      H.NullNotHeld(heap.blocks);
      assert TaskHeld(dead);
      FreePair(dead.kstackBase, dead.addr);
      held := held - {dead.kstackBase, dead.addr};
      forall t | t in Members() ensures TaskHeld(t) {
        assert old(TaskHeld(t));
      }
    }

    lemma HeapSoundAt(p: nat)
      requires heap.Valid() && p in H.Payloads(heap.blocks)
      ensures exists b | b in H.Live(heap.blocks) :: b.Payload() == p
      ensures H.Payloads(H.Release(heap.blocks, p)) == H.Payloads(heap.blocks) - {p}
      ensures forall q, n :: q != p && H.HoldsAt(heap.blocks, q, n) ==> H.HoldsAt(H.Release(heap.blocks, p), q, n)
    {
      hide H.HeapInv, H.Payloads, H.HoldsAt, H.Release;
      H.ReleasePayload(heap.blocks, p);
    }

    /** Everything but the ring, which the reaper's loop tracks separately. */
    ghost predicate MemoryOk()
      reads this`ring, this`spaces, this`held, v, v.pmm, v.pmm.bitmap, v.mem, heap, ring`pml4
    {
      Machine() && SpacesOk(Members(), {}) && HeldOk(Members())
    }

    /** The reaper stands at position i of the ring. */
    ghost predicate StandsAt(prev: Task, dead: Task, i: nat)
      reads this`ring
    {
      Distinct(ring) && 1 <= i < |ring| && prev == ring[i - 1] && dead == ring[i]
    }

    /** One dead task at position i: unlink it, wake its parent, free what it owned. */
    method Reclaim(prev: Task, dead: Task, ghost i: nat)
      requires StandsAt(prev, dead, i) && (dead.parent == null || dead.parent in tasks)
      requires Linked() && MemoryOk()
      modifies this`ring, this`spaces, this`held, tasks`state, prev`next, heap, v`at, v`own, v.pmm`used, v.pmm.bitmap
      ensures Distinct(ring) && ring == old(ring)[..i] + old(ring)[i + 1..] && prev.next == old(dead.next)
      ensures forall t | t in old(tasks) :: t.state == if t == dead.parent && old(t.state) == Waiting then Runnable else old(t.state)
      ensures Linked() && MemoryOk()
      ensures Roots() <= old(Roots()) && SpacesKept(old(v.at), v.at, Roots())
    {
      hide Machine, Linked, SpacesOk, HeldOk;
      Unlink(prev, dead, i);
      if dead.parent != null && dead.parent.state == Waiting {
        dead.parent.state := Runnable;
      }
      assert Members() + {dead} == old(Members());
      DeadSpace(dead);
      DropSpace(dead);
      ReleaseSpace(dead.pml4);
      ReleaseMemory(dead);
    }

    lemma DeadSpace(dead: Task)
      requires SpacesOk(Members() + {dead}, {})
      ensures dead.pml4 == v.kernelPml4 || (dead.pml4 != 0 && Node(dead.pml4, []) in v.at)
    {
    }

    lemma NextIs(i: nat)
      requires Linked() && i < |ring|
      ensures ring[i].next == if i + 1 < |ring| then ring[i + 1] else ring[0]
    {
    }

    /** The reaper that set out on s has looked at k tasks and stands at position i of what is left. */
    ghost predicate Reaping(s: Snapshot, k: nat, i: nat)
      reads this`ring, this`tasks, tasks`state, tasks`wakeTick
    {
      && RingInv(s, boot) && 1 <= k <= |s.ring| && Distinct(ring) && Snap() == ReapTo(s, k)
      && i == 1 + |Kept(s.ring[1..k], s)| <= |ring| && |ring| - i == |s.ring| - k
    }

    /** The same, recorded: the reaper has passed one more task of the ring it started with. */
    method ReapOne(prev: Task, dead: Task, ghost i: nat, ghost s: Snapshot, ghost k: nat)
      requires Reaping(s, k, i) && k < |s.ring| && StateOf(s, s.ring[k]) == Dead
      requires StandsAt(prev, dead, i) && (dead.parent == null || dead.parent in tasks)
      requires Linked() && MemoryOk()
      modifies this`ring, this`spaces, this`held, tasks`state, prev`next, heap, v`at, v`own, v.pmm`used, v.pmm.bitmap
      ensures ring == old(ring)[..i] + old(ring)[i + 1..] && prev.next == old(dead.next)
      ensures Linked() && MemoryOk() && Reaping(s, k + 1, i)
      ensures Roots() <= old(Roots()) && SpacesKept(old(v.at), v.at, Roots())
    {
      hide Linked, MemoryOk, Snap, ReapTo, Kept, RingInv, SpacesKept, Roots, Reaping;
      ReapNext(s, k, i);
      Reclaim(prev, dead, i);
      SnapIs(ReapTo(s, k + 1));
      Passed(s, k, i);
    }

    /** What the snapshot will be once the dead task at position i is out. */
    lemma ReapNext(s: Snapshot, k: nat, i: nat)
      requires Reaping(s, k, i) && k < |s.ring| && StateOf(s, s.ring[k]) == Dead && i < |ring|
      ensures 1 <= k && i == 1 + |Kept(s.ring[1..k + 1], s)| && |ring| - i == |s.ring| - k && RingInv(s, boot)
      ensures var z := ReapTo(s, k + 1);
        && z.ring == ring[..i] + ring[i + 1..] && z.st.Keys == tasks && z.parent.Keys == tasks && z.wake.Keys == tasks
        && forall t | t in tasks ::
             && z.st[t] == (if t == ring[i].parent && t.state == Waiting then Runnable else t.state)
             && z.parent[t] == t.parent && z.wake[t] == t.wakeTick
    {
      hide ReapTo, Kept, RingInv, DeadChild;
      SnapParts();
      Standing(s, k, i);
      KeptSnoc(s, k);
      ReapStepRing(s, k);
      ReapStepStates(s, k);
      ReapToFrame(s, k);
      ReapToFrame(s, k + 1);
    }

    lemma Passed(s: Snapshot, k: nat, i: nat)
      requires RingInv(s, boot) && 1 <= k < |s.ring| && Distinct(ring) && Snap() == ReapTo(s, k + 1)
      requires i == 1 + |Kept(s.ring[1..k + 1], s)| <= |ring| && |ring| - i == |s.ring| - k - 1
      ensures Reaping(s, k + 1, i)
    {
      hide ReapTo, Kept, RingInv, Snap, Distinct;
    }

    lemma ReapStart()
      requires Linked() && RingInv(Snap(), boot)
      ensures Reaping(Snap(), 1, 1) && ring != [] && ring[0] == current
    {
      SnapParts();
      ReapStarts(Snap());
      assert Kept(ring[1..1], Snap()) == [];
    }

    lemma ReapEnd(s: Snapshot, i: nat)
      requires Reaping(s, |s.ring|, i)
      ensures s.ring != [] && RingInv(Snap(), boot) && Snap() == Reap(s)
    {
      hide ReapTo, Kept, RingInv;
      RingParts(s, boot);
      ReapKeeps(s, boot);
    }

    /** reap_dead */
    method ReapDead()
      requires Linked() && RingInv(Snap(), boot) && MemoryOk()
      modifies this`ring, this`spaces, this`held, tasks`next, tasks`state, heap, v`at, v`own, v.pmm`used, v.pmm.bitmap
      ensures Linked() && RingInv(Snap(), boot) && MemoryOk()
      ensures Snap() == Reap(old(Snap()))
      ensures forall t :: t in ring <==> t in old(ring) && (t == old(current) || old(t.state) != Dead)
      ensures forall t | t in old(ring) && old(t.state) != Waiting :: t.state == old(t.state)
      ensures forall t | t in old(ring) && old(t.state) == Waiting :: t.state == Waiting || t.state == Runnable
      ensures forall t | t in old(ring) && old(t.state) == Waiting ::
        t.state == Runnable <==> exists c | c in old(ring) && c != old(current) :: old(c.state) == Dead && c.parent == t
      ensures SpacesKept(old(v.at), v.at, Roots())
    {
      hide Linked, MemoryOk, RingInv, Snap, ReapTo, Kept, Reaping, SpacesKept, Roots;
      ghost var s, k, i := Snap(), 1, 1;
      SnapParts();
      RingParts(s, boot);
      ReapStart();
      NextIs(0);
      KeptAtFirst(Roots());
      var prev := current;
      var t := current.next;
      while t != current
        invariant Linked() && MemoryOk() && Reaping(s, k, i) && tasks == old(tasks)
        invariant 1 <= i <= |ring| && k <= |s.ring| && prev == ring[i - 1]
        invariant t == if i < |ring| then ring[i] else ring[0]
        invariant SpacesKept(old(v.at), v.at, Roots())
        decreases |s.ring| - k
      {
        RingStarts();
        NextIs(i);
        Standing(s, k, i);
        ghost var at, roots := v.at, Roots();
        if t.state == Dead {
          var dead := t;
          t := t.next;
          ReapOne(prev, dead, i, s, k);
          KeptOnward(old(v.at), at, v.at, roots, Roots());
        } else {
          SkipOne(s, k, i);
          prev := t;
          t := t.next;
          i := i + 1;
        }
        k := k + 1;
      }
      AllLooked(s, k, i);
      ReapEnd(s, i);
      ReapedStates(s);
    }

    lemma ReapedStates(s: Snapshot)
      requires RingInv(s, boot) && s.st.Keys == tasks && Snap() == Reap(s)
      ensures forall t :: t in ring <==> t in s.ring && (t == s.ring[0] || StateOf(s, t) != Dead)
      ensures forall t | t in s.ring && StateOf(s, t) != Waiting :: t.state == StateOf(s, t)
      ensures forall t | t in s.ring && StateOf(s, t) == Waiting :: t.state == Waiting || t.state == Runnable
      ensures forall t | t in s.ring && StateOf(s, t) == Waiting ::
        t.state == Runnable <==> exists c | c in s.ring && c != s.ring[0] :: StateOf(s, c) == Dead && ParentOf(s, c) == t
    {
      hide RingInv, Reap, Snap, DeadChild;
      SnapParts();
      RingParts(s, boot);
      ReapMembers(s);
      forall t | t in s.ring
        ensures t.state == if StateOf(s, t) == Waiting && DeadChild(s, |s.ring|, t) then Runnable else StateOf(s, t)
        ensures DeadChild(s, |s.ring|, t) <==> exists c | c in s.ring && c != s.ring[0] :: StateOf(s, c) == Dead && ParentOf(s, c) == t
      {
        ReapStateOf(s, t);
        DeadBehind(s, t);
      }
    }

    lemma KeptAtFirst(roots: set<nat>)
      ensures SpacesKept(v.at, v.at, roots)
    {
    }

    lemma AllLooked(s: Snapshot, k: nat, i: nat)
      requires Linked() && Reaping(s, k, i) && (if i < |ring| then ring[i] else ring[0]) == current
      ensures k == |s.ring|
    {
      hide Linked, ReapTo, Kept, RingInv;
      RingStarts();
    }

    /** A task that is not dead stays where it is. */
    lemma SkipOne(s: Snapshot, k: nat, i: nat)
      requires Reaping(s, k, i) && k < |s.ring| && StateOf(s, s.ring[k]) != Dead
      ensures Reaping(s, k + 1, i + 1)
    {
      hide ReapTo, Kept, RingInv;
      KeptSnoc(s, k);
      ReapSkip(s, k);
    }

    /** What the reaper finds at position i of the ring is the task that stood at k. */
    lemma Standing(s: Snapshot, k: nat, i: nat)
      requires Reaping(s, k, i) && i < |ring|
      ensures Distinct(ring) && k < |s.ring| && ring[i] == s.ring[k] && ring[i] in tasks && ring[i - 1] in tasks
      ensures ring[i].state == Dead <==> StateOf(s, s.ring[k]) == Dead
      ensures ring[i].parent == null || ring[i].parent in tasks
    {
      hide ReapTo, Kept, DeadChild;
      SnapParts();
      ReapStepRing(s, k);
      ReapStepStates(s, k);
      ReapToFrame(s, k);
      ReapToMembers(s, k);
      assert ring == ReapTo(s, k).ring;
      assert ring[i - 1] in ReapTo(s, k).ring;
    }

    // ---- schedule ------------------------------------------------------------------------------------------

    /** The do-while loop of schedule that wakes sleepers whose time has come. */
    method WakeSleepers()
      requires Linked() && RingInv(Snap(), boot)
      modifies tasks`state
      ensures Linked() && RingInv(Snap(), boot) && Snap() == Wake(old(Snap()), ticks)
      ensures forall t | t in ring :: t.state == if old(t.state) == Sleeping && t.wakeTick <= ticks then Runnable else old(t.state)
    {
      hide Linked, RingInv, Snap, WakeTo;
      ghost var s, k := Snap(), 0;
      SnapParts();
      WakeStart(s);
      RingStarts();
      var p := current;
      var again := true;
      while again
        invariant 0 <= k <= |s.ring| && s.ring == ring && RingInv(s, boot) && Linked() && Snap() == WakeTo(s, k, ticks)
        invariant again <==> k < |ring|
        invariant p == if k < |ring| then ring[k] else ring[0]
        invariant k > 0 || ring == s.ring
        decreases |s.ring| - k
      {
        Sleeper(s, k);
        WakeOne(p, s, k);
        NextIs(k);
        RingStarts();
        RingParts(s, boot);
        p := p.next;
        k := k + 1;
        again := p != current;
      }
      WakeKeeps(s, boot, ticks);
      WokenStates(s);
    }

    lemma WokenStates(s: Snapshot)
      requires RingInv(s, boot) && s.st.Keys == tasks && Snap() == WakeTo(s, |s.ring|, ticks)
      ensures ring == s.ring && forall t | t in ring ::
        t in tasks && t.state == if StateOf(s, t) == Sleeping && WakeOf(s, t) <= ticks then Runnable else StateOf(s, t)
    {
      SnapParts();
      assert s.ring[..|s.ring|] == s.ring;
    }

    lemma WakeStart(s: Snapshot)
      requires s == Snap()
      ensures WakeTo(s, 0, ticks) == s && s.ring == ring
    {
      assert WakeTo(s, 0, ticks).st == s.st;
    }

    lemma Sleeper(s: Snapshot, k: nat)
      requires RingInv(s, boot) && k < |s.ring| && Snap() == WakeTo(s, k, ticks)
      ensures s.ring[k] in tasks
    {
      SnapParts();
    }

    method WakeOne(p: Task, ghost s: Snapshot, ghost k: nat)
      requires RingInv(s, boot) && k < |s.ring| && p == s.ring[k] && Snap() == WakeTo(s, k, ticks)
      modifies p`state
      ensures Snap() == WakeTo(s, k + 1, ticks)
    {
      hide Snap, RingInv, WakeTo;
      SnapParts();
      RingParts(s, boot);
      WakeStep(s, k, ticks);
      if p.state == Sleeping && p.wakeTick <= ticks {
        p.state := Runnable;
      }
      SnapIs(WakeTo(s, k + 1, ticks));
    }

    /** The loop that looks for the next runnable task; it ends because boot is runnable. */
    method PickNext()
      requires Linked() && RingInv(Snap(), boot)
      modifies this`current, this`ring
      ensures Linked() && RingInv(Snap(), boot) && Snap() == Pick(old(Snap())) && current.state == Runnable
      ensures Members() == old(Members())
      ensures exists k | 1 <= k <= |old(ring)| :: ring == old(ring)[k..] + old(ring)[..k] && forall i | 1 <= i < k :: old(ring)[i].state != Runnable
    {
      hide Linked, RingInv, Snap, Pick, FirstRunnable;
      ghost var s := Snap();
      SnapParts();
      var n;
      ghost var k;
      n, k := FindNext(s);
      RotateLinks(n, k);
      SnapIs(Rotate(s, k));
      PickRuns(s, boot);
    }

    /** The search loop: the task found stands k places behind the current one. */
    method FindNext(ghost s: Snapshot) returns (n: Task, ghost k: nat)
      requires Linked() && Records(s) && RingInv(s, boot)
      ensures 1 <= k <= |ring| && n == (if k < |ring| then ring[k] else ring[0]) && n.state == Runnable
      ensures Pick(s) == Rotate(s, k) && forall i | 1 <= i < k :: ring[i].state != Runnable
    {
      hide Linked, RingInv, Rotate;
      k := 1;
      RingStarts();
      NextIs(0);
      n := current.next;
      while n.state != Runnable
        invariant 1 <= k <= |ring|
        invariant n == if k < |ring| then ring[k] else ring[0]
        invariant FirstRunnable(s, 1) == FirstRunnable(s, k)
        decreases |ring| - k
      {
        InRing(s, k);
        NextIs(k);
        n := n.next;
        k := k + 1;
      }
      InRing(s, k);
      PassedOver(s, k);
    }

    lemma PassedOver(s: Snapshot, k: nat)
      requires Records(s) && RingInv(s, boot) && 1 <= k <= |ring| && FirstRunnable(s, 1) == FirstRunnable(s, k)
      ensures forall i | 1 <= i < k :: ring[i].state != Runnable
    {
    }

    lemma InRing(s: Snapshot, k: nat)
      requires Records(s) && RingInv(s, boot) && k <= |ring|
      ensures k < |ring| ==> ring[k] in tasks && StateOf(s, ring[k]) == ring[k].state
      ensures ring[0] in tasks && StateOf(s, ring[0]) == ring[0].state
      ensures k == |ring| && FirstRunnable(s, 1) == FirstRunnable(s, k) ==> ring[0].state == Runnable
    {
      PickRuns(s, boot);
    }

    method RotateLinks(n: Task, ghost k: nat)
      requires Linked() && 1 <= k <= |ring| && n == if k < |ring| then ring[k] else ring[0]
      modifies this`current, this`ring
      ensures Linked() && ring == old(ring)[k..] + old(ring)[..k] && current == n
      ensures Members() == old(Members())
    {
      ghost var r := ring;
      assert r == r[..k] + r[k..];
      current := n;
      ring := ring[k..] + ring[..k];
      forall i, j | 0 <= i < |ring| && j == i + 1 && j < |ring| ensures ring[i].next == ring[j] {
        if i < |r| - k - 1 {
          assert ring[i] == r[i + k] && ring[j] == r[i + k + 1];
        } else if i == |r| - k - 1 {
          assert ring[i] == r[|r| - 1] && ring[j] == r[0];
        } else {
          assert ring[i] == r[i - (|r| - k)] && ring[j] == r[i - (|r| - k) + 1];
        }
      }
    }

    /** schedule: one step of the ring; the task left keeps the frame it was stopped with, the one chosen resumes with its own. */
    method Schedule(saved: Registers) returns (resume: Registers)
      requires Valid()
      modifies current`frame, this`current, this`ring, this`spaces, this`held, tasks`next, tasks`state, heap, v`at, v`own, v.pmm`used, v.pmm.bitmap
      ensures Valid() && Snap() == Step(old(Snap()), ticks) && current.state == Runnable
      ensures resume == current.frame && old(current).frame == saved
      ensures forall t, n | t in ring && n in old(v.at) && n.root == t.pml4 :: n in v.at && v.at[n] == old(v.at[n])
      ensures forall t :: t in ring <==> t in old(ring) && (t == old(current) || old(t.state) != Dead)
      ensures forall t | t in old(ring) && old(t.state) == Sleeping :: t.state == if t.wakeTick <= ticks then Runnable else Sleeping
      ensures forall t | t in ring && old(t.state) != Sleeping && old(t.state) != Waiting :: t.state == old(t.state)
      ensures forall t | t in old(ring) && old(t.state) == Waiting :: t.state == Waiting || t.state == Runnable
      ensures forall t | t in old(ring) && old(t.state) == Waiting ::
        t.state == Runnable <==> exists c | c in old(ring) && c != old(current) :: old(c.state) == Dead && c.parent == t
    {
      hide Linked, Machine, SpacesOk, HeldOk, RingInv, Snap, Step;
      ghost var s := Snap();
      SnapParts();
      RingStarts();
      RingParts(s, boot);
      current.frame := saved;
      Advance();
      resume := current.frame;
      StatesAfter(s);
    }

    /** The three loops of schedule. */
    method Advance()
      requires Valid()
      modifies this`current, this`ring, this`spaces, this`held, tasks`next, tasks`state, heap, v`at, v`own, v.pmm`used, v.pmm.bitmap
      ensures Valid() && Snap() == Step(old(Snap()), ticks) && current.state == Runnable
      ensures forall t, n | t in ring && n in old(v.at) && n.root == t.pml4 :: n in v.at && v.at[n] == old(v.at[n])
    {
      hide Linked, Machine, SpacesOk, HeldOk, RingInv, Snap, Reap, Wake, Pick, SpacesKept;
      ReapDead();
      WakeSleepers();
      PickNext();
      LivingKept(old(v.at));
    }

    lemma StatesAfter(s: Snapshot)
      requires RingInv(s, boot) && s.st.Keys == tasks && Snap() == Step(s, ticks)
      ensures forall t :: t in ring <==> t in s.ring && (t == s.ring[0] || StateOf(s, t) != Dead)
      ensures forall t | t in s.ring && StateOf(s, t) == Sleeping :: t.state == if t.wakeTick <= ticks then Runnable else Sleeping
      ensures forall t | t in ring && StateOf(s, t) != Sleeping && StateOf(s, t) != Waiting :: t.state == StateOf(s, t)
      ensures forall t | t in s.ring && StateOf(s, t) == Waiting :: t.state == Waiting || t.state == Runnable
      ensures forall t | t in s.ring && StateOf(s, t) == Waiting ::
        t.state == Runnable <==> exists c | c in s.ring && c != s.ring[0] :: StateOf(s, c) == Dead && ParentOf(s, c) == t
    {
      hide RingInv, Step, Snap;
      SnapParts();
      RingParts(s, boot);
      StepReaps(s, boot, ticks);
      forall t | t in ring
        ensures WakeOf(s, t) == t.wakeTick
        ensures StateOf(s, t) == Sleeping ==> t.state == if t.wakeTick <= ticks then Runnable else Sleeping
        ensures var reaped := exists c | c in s.ring && c != s.ring[0] :: StateOf(s, c) == Dead && ParentOf(s, c) == t;
          StateOf(s, t) == Waiting ==> t.state == if reaped then Runnable else Waiting
        ensures StateOf(s, t) == Runnable || StateOf(s, t) == Dead ==> t.state == StateOf(s, t)
      {
        StepWakes(s, boot, ticks, t);
      }
    }

    lemma LivingKept(at0: map<Node, nat>)
      requires SpacesOk(Members(), {}) && SpacesKept(at0, v.at, Roots())
      ensures forall t, n | t in ring && n in at0 && n.root == t.pml4 :: n in v.at && v.at[n] == at0[n]
    {
      assert forall t | t in ring :: t in Members() && t.pml4 in Roots();
    }

    // ---- what the current task does to itself -------------------------------------------------------------

    method Tick()
      requires Valid()
      modifies this`ticks
      ensures Valid() && ticks == old(ticks) + 1
    {
      hide Linked, Machine, SpacesOk, HeldOk, RingInv, Snap;
      ticks := ticks + 1;
    }

    /** The current task changes its state; the boot task never does. */
    method SetCurrent(state: TaskState, wake: nat)
      requires Valid() && current != boot && (state == Waiting ==> HasChild(Snap(), current))
      modifies current`state, current`wakeTick
      ensures Valid() && Snap() == WithCurrent(old(Snap()), state, wake) && current.state == state && current.wakeTick == wake
    {
      hide Linked, Machine, SpacesOk, HeldOk, RingInv, Snap, HasChild;
      ghost var s := Snap();
      SnapParts();
      RingStarts();
      RingParts(s, boot);
      WithCurrentKeeps(s, boot, state, wake);
      current.wakeTick := wake;
      current.state := state;
      SnapIs(WithCurrent(s, state, wake));
    }

    /** sched_kill_current */
    method Kill()
      requires Valid() && current != boot
      modifies current`state, current`wakeTick
      ensures Valid() && Snap() == WithCurrent(old(Snap()), Dead, old(current.wakeTick)) && current.state == Dead
    {
      SetCurrent(Dead, current.wakeTick);
    }

    /** task_exit: die and give up the processor. */
    method Exit(saved: Registers) returns (resume: Registers)
      requires Valid() && current != boot
      modifies current`frame, current`wakeTick, this`current, this`ring, this`spaces, this`held, tasks`next, tasks`state, heap, v`at, v`own, v.pmm`used, v.pmm.bitmap
      ensures Valid() && Snap() == Step(WithCurrent(old(Snap()), Dead, old(current.wakeTick)), ticks) && current.state == Runnable
      ensures resume == current.frame && old(current).state == Dead
    {
      hide Linked, Machine, SpacesOk, HeldOk, RingInv, Snap, WithCurrent, Step;
      CurrentKnown();
      SetCurrent(Dead, current.wakeTick);
      resume := Schedule(saved);
    }

    lemma CurrentKnown()
      requires Valid()
      ensures current in tasks && current in ring
    {
      hide Machine, SpacesOk, HeldOk;
      SnapParts();
    }

    /** task_sleep */
    method Sleep(n: nat, saved: Registers) returns (resume: Registers)
      requires Valid() && current != boot
      modifies current`frame, current`wakeTick, this`current, this`ring, this`spaces, this`held, tasks`next, tasks`state, heap, v`at, v`own, v.pmm`used, v.pmm.bitmap
      ensures Valid() && Snap() == Step(WithCurrent(old(Snap()), Sleeping, ticks + n), ticks) && current.state == Runnable
      ensures resume == current.frame && old(current).frame == saved
      ensures old(current).wakeTick == ticks + n && old(current).state == if n == 0 then Runnable else Sleeping
    {
      hide Linked, Machine, SpacesOk, HeldOk, RingInv, Snap, WithCurrent, Step;
      CurrentKnown();
      SetCurrent(Sleeping, ticks + n);
      resume := Schedule(saved);
    }

    /** The scan of wait_current. */
    method FindLiveChild() returns (live: bool)
      requires Linked() && RingInv(Snap(), boot)
      ensures live <==> LiveChild(Snap())
      ensures live <==> exists c | c in ring && c != current :: c.parent == current && c.state != Dead
    {
      hide Linked, RingInv, Snap;
      ghost var s, k := Snap(), 1;
      RingStarts();
      SnapParts();
      RingParts(s, boot);
      NextIs(0);
      live := false;
      var t := current.next;
      while t != current && !live
        invariant 1 <= k <= |ring| && t == (if k < |ring| then ring[k] else ring[0])
        invariant forall i | 1 <= i < k :: !(ParentOf(s, ring[i]) == current && StateOf(s, ring[i]) != Dead)
        invariant live ==> LiveChild(s)
        decreases |ring| - k, !live
      {
        if t.parent == current && t.state != Dead {
          live := true;
        } else {
          NextIs(k);
          t := t.next;
          k := k + 1;
        }
      }
      LiveMeans(s);
    }

    lemma LiveMeans(s: Snapshot)
      requires Records(s) && Distinct(ring) && ring != [] && ring[0] == current && forall t | t in ring :: t in tasks
      ensures LiveChild(s) <==> exists c | c in ring && c != current :: c.parent == current && c.state != Dead
    {
      if c :| c in ring && c != current && c.parent == current && c.state != Dead {
        var i :| 0 <= i < |ring| && ring[i] == c;
        assert ParentOf(s, s.ring[i]) == current;
      }
      if LiveChild(s) {
        var i :| 1 <= i < |ring| && ParentOf(s, ring[i]) == ring[0] && StateOf(s, ring[i]) != Dead;
        assert ring[i] in ring && ring[i] != current;
      }
    }

    /** wait_current: block until a child is reaped, unless no child is alive. */
    method Wait(saved: Registers) returns (blocked: bool, resume: Registers)
      requires Valid()
      modifies current`frame, current`wakeTick, this`current, this`ring, this`spaces, this`held, tasks`next, tasks`state, heap, v`at, v`own, v.pmm`used, v.pmm.bitmap
      ensures Valid() && (blocked <==> exists c | c in old(ring) && c != old(current) :: c.parent == old(current) && old(c.state) != Dead)
      ensures !blocked ==> Snap() == old(Snap()) && current == old(current)
      ensures resume == current.frame && old(current).frame == saved.(rax := 0)
      ensures blocked ==> Snap() == Step(WithCurrent(old(Snap()), Waiting, old(current.wakeTick)), ticks) && current.state == Runnable
    {
      hide Linked, Machine, SpacesOk, HeldOk, RingInv, Snap, WithCurrent, Step, LiveChild, HasChild;
      CurrentKnown();
      RingStarts();
      SnapParts();
      resume := saved.(rax := 0);
      current.frame := resume;
      blocked := FindLiveChild();
      if blocked {
        ParentNotBoot(Snap());
        SetCurrent(Waiting, current.wakeTick);
        resume := Schedule(resume);
      }
    }

    lemma ParentNotBoot(s: Snapshot)
      requires RingInv(s, boot) && s.ring != [] && LiveChild(s)
      ensures s.ring[0] != boot && HasChild(s, s.ring[0])
    {
    }

    // ---- spawn, fork, exec --------------------------------------------------------------------------------

    /** task_create: a task in the kernel's own space, its descriptors left as they are in memory. */
    method CreateKernelTask(entry: nat) returns (t: Task)
      requires Valid() && RoomForTask(heap.blocks)
      modifies this`ring, this`tasks, this`spaces, this`held, current`next, heap
      ensures Valid() && fresh(t) && Snap() == Inserted(old(Snap()), t, null) && t.pml4 == v.kernelPml4
      ensures current.next == t && t.next == old(current.next) && t.state == Runnable && t.parent == null
      ensures t.kstackTop >= 8 && t.frame == StartFrame(entry, KERNEL_CS, KERNEL_SS, t.kstackTop - 8)
      ensures t.frame.rip == entry && t.frame.cs == 0x08 && t.frame.ss == 0x10 && t.frame.rflags == 0x202 && t.frame.rsp == t.kstackTop - 8
    {
      hide ValidBut, Snap, RoomForTask, Inserted;
      var fds: seq<V.FileDesc> := *;
      t := NewTask(v.kernelPml4, null, fds, StartFrame(entry, KERNEL_CS, KERNEL_SS, 0));
      SetFrame(t, StartFrame(entry, KERNEL_CS, KERNEL_SS, t.kstackTop - 8));
    }

    /** No invariant looks at saved registers. */
    method SetFrame(t: Task, frame: Registers)
      requires Valid()
      modifies t`frame
      ensures Valid() && Snap() == old(Snap()) && t.frame == frame
    {
      hide Linked, Machine, SpacesOk, HeldOk, RingInv, Snap;
      t.frame := frame;
    }

    /** A new space beside the claimed ones keeps everything in order. */
    twostate lemma SpaceAppeared(space: nat)
      requires old(SpacesOk(Members(), {})) && old(KernelFixed()) && spaces == old(spaces) && ring == old(ring)
      requires space != v.kernelPml4 && (forall t | t in Members() :: t.pml4 == old(t.pml4))
      requires forall n | n in old(v.at) :: n in v.at && v.at[n] == old(v.at[n]) && n.root != space
      requires forall n | n in v.at && n !in old(v.at) :: n.root == space
      ensures SpacesOk(Members(), {space}) && KernelFixed()
    {
    }

    /** Load a program into a space that nobody claims yet. */
    method LoadSpace(elf: seq<byte>) returns (space: nat, entry: nat)
      requires Machine() && SpacesOk(Members(), {}) && CanLoad(v, elf)
      modifies v`at, v`own, v`loose, v.pmm`used, v.pmm.bitmap, v.mem
      ensures Machine() && SpacesOk(Members(), if space == 0 then {} else {space})
      ensures space != 0 <==> E.GoodMagic(elf)
      ensures space == 0 ==> v.State() == old(v.State())
      ensures space != 0 ==>
        && Node(space, []) in v.at && space != v.kernelPml4 && entry == E.Entry(elf)
        && ProgramReady(elf, v.State(), space) && E.OnlyNewSpace(old(v.State()), v.State(), space)
    {
      hide AddressSpaces.Valid, H.KernelHeap.Valid, SpacesOk, KernelFixed, E.Loadable, ClearOfStack, E.OnlyNewSpace, ProgramReady, E.GoodMagic;
      ghost var s := v.State();
      space, entry := LoadProgram(v, elf);
      if space != 0 {
        RootOfNew(s, v.State(), space);
        SpaceAppeared(space);
      }
    }

    /** spawn: queue a program from the ramdisk as a new task without a parent. */
    method Spawn(image: Lookup) returns (t: Task?)
      requires Valid() && (image.Found? ==> CanLoad(v, image.elf) && RoomForTask(heap.blocks))
      modifies this`ring, this`tasks, this`spaces, this`held, current`next, heap, v`at, v`own, v`loose, v.pmm`used, v.pmm.bitmap, v.mem
      ensures Valid() && (t != null <==> image.Found? && E.GoodMagic(image.elf))
      ensures t == null ==> Snap() == old(Snap()) && v.State() == old(v.State())
      ensures t != null ==>
        && fresh(t) && Snap() == Inserted(old(Snap()), t, null)
        && current.next == t && t.next == old(current.next) && t.state == Runnable && t.parent == null
        && |t.fds| == V.MAX_FDS && (forall k | 0 <= k < V.MAX_FDS :: !t.fds[k].used)
        && t.frame == StartFrame(E.Entry(image.elf), USER_CS, USER_SS, E.USER_STACK_TOP)
        && t.frame.rip == E.Entry(image.elf) && t.frame.cs == 0x1B && t.frame.ss == 0x23 && t.frame.rflags == 0x202 && t.frame.rsp == 0x80_0010_0000
        && ProgramReady(image.elf, v.State(), t.pml4) && E.OnlyNewSpace(old(v.State()), v.State(), t.pml4)
    {
      hide Linked, Machine, SpacesOk, HeldOk, RingInv, Snap, RoomForTask, Inserted, E.Loadable, ClearOfStack, E.OnlyNewSpace, ProgramReady, E.GoodMagic;
      t := null;
      if image.Missing? {
        return;
      }
      var space, entry := LoadSpace(image.elf);
      if space == 0 {
        return;
      }
      var noFiles: seq<V.FileDesc> := seq(V.MAX_FDS, _ => V.FileDesc(false, 0, 0, 0));
      t := NewTask(space, null, noFiles, StartFrame(entry, USER_CS, USER_SS, E.USER_STACK_TOP));
    }

    /** vmm_clone_address_space, the copy not yet claimed. */
    method CloneSpace(src: nat) returns (dst: nat)
      requires Machine() && SpacesOk(Members(), {}) && Node(src, []) in v.at
      requires v.pmm.used + |CopyPaths(v.at, src)| <= v.pmm.total
      modifies v`at, v`own, v`loose, v.pmm`used, v.pmm.bitmap, v.mem
      ensures Machine() && SpacesOk(Members(), {dst})
      ensures Node(dst, []) in v.at && dst != v.kernelPml4 && dst != 0 && dst != src && Node(dst, []) !in old(v.at)
      ensures Untouched(old(v.State()), v.State())
      ensures forall q | FullPath(q) :: if q[0] != 0 then SamePage(old(v.State()), v.State(), src, dst, q) else Node(dst, q) !in v.at
    {
      hide AddressSpaces.Valid, H.KernelHeap.Valid, SpacesOk, KernelFixed, Untouched, SamePage;
      dst := Clone(v, src);
      NotFrameZero(v, dst);
      SpaceAppeared(dst);
    }

    /** fork_current: a child with a copy of the caller's space, descriptors and registers, placed right after it. */
    method Fork(regs: Registers) returns (pid: nat, child: Task)
      requires Valid() && current != boot && RoomForTask(heap.blocks)
      requires v.pmm.used + |CopyPaths(v.at, current.pml4)| <= v.pmm.total
      modifies this`ring, this`tasks, this`spaces, this`held, this`nextPid, current`next, heap
      modifies v`at, v`own, v`loose, v.pmm`used, v.pmm.bitmap, v.mem
      ensures Valid() && pid == old(nextPid) && nextPid == pid + 1
      ensures fresh(child) && Snap() == Inserted(old(Snap()), child, current) && child.fds == current.fds
      ensures child.frame == regs.(rax := 0) && child.parent == current && child.state == Runnable
      ensures current.next == child && child.next == old(current.next)
      ensures child.pml4 != current.pml4 && Node(child.pml4, []) !in old(v.at) && Untouched(old(v.State()), v.State())
      ensures forall q | FullPath(q) :: if q[0] != 0 then SamePage(old(v.State()), v.State(), current.pml4, child.pml4, q) else Node(child.pml4, q) !in v.at
    {
      hide Linked, Machine, SpacesOk, HeldOk, RingInv, Snap, RoomForTask, Inserted, Untouched, SamePage;
      CurrentKnown();
      CurrentSpace();
      var childSpace := CloneSpace(current.pml4);
      child := NewTask(childSpace, current, current.fds, regs.(rax := 0));
      pid := nextPid;
      nextPid := nextPid + 1;
    }

    lemma CurrentSpace()
      requires Valid()
      ensures Node(current.pml4, []) in v.at
      ensures current.pml4 != v.kernelPml4 ==> current.pml4 != 0
    {
      hide AddressSpaces.Valid, H.KernelHeap.Valid, HeldOk, KernelFixed, RingInv, Snap;
      KernelThere();
    }

    /** The current task takes over `space`; its old space is nobody's now. */
    method SwapSpace(space: nat)
      requires current in Members() && SpacesOk(Members(), {space}) && space != 0 && space != v.kernelPml4 && Node(space, []) in v.at
      modifies current`pml4, this`spaces
      ensures current.pml4 == space
      ensures SpacesOk(Members(), if old(current.pml4) == v.kernelPml4 then {} else {old(current.pml4)})
    {
      ghost var root := current.pml4;
      current.pml4 := space;
      spaces := (if root == v.kernelPml4 then spaces else spaces - {root})[space := current];
    }

    /** The second half of exec_current: take the new space, destroy the old one. */
    method ReplaceSpace(space: nat, ghost elf: seq<byte>, ghost uargv: nat, ghost args: seq<seq<byte>>)
      requires current in Members() && Machine() && SpacesOk(Members(), {space}) && space != 0 && space != v.kernelPml4 && Node(space, []) in v.at
      requires current.pml4 == v.kernelPml4 || (current.pml4 != 0 && Node(current.pml4, []) in v.at && current.pml4 != space)
      requires E.TableInside(elf) && ProgramReady(elf, v.State(), space) && A.Delivered(v.State(), space, uargv, args)
      modifies this`spaces, current`pml4, v`at, v`own, v.pmm`used, v.pmm.bitmap
      ensures Machine() && SpacesOk(Members(), {}) && current.pml4 == space
      ensures ProgramReady(elf, v.State(), space) && A.Delivered(v.State(), space, uargv, args)
      ensures old(current.pml4) != v.kernelPml4 ==> forall n | n in v.at :: n.root != old(current.pml4)
      ensures forall n | n in old(v.at) && (n.root != old(current.pml4) || n.root == v.kernelPml4) :: n in v.at && v.at[n] == old(v.at[n])
    {
      hide Machine, SpacesOk, ProgramReady, A.Argv;
      ghost var m := v.State();
      var oldSpace := current.pml4;
      SwapSpace(space);
      ReleaseSpace(oldSpace);
      ReadyKept(elf, m, v.State(), space);
      TopPageThere(elf, m, space);
    }

    /** Every page and table of a space other than `root` is where it was, holding what it held. */
    ghost predicate OthersKept(s: VM, t: VM, root: nat) {
      forall n | n in s.at && (n.root != root || root == s.kroot) :: n in t.at && t.at[n] == s.at[n] && ContentOf(t, n) == ContentOf(s, n)
    }

    lemma KeptByExec(s: VM, m: VM, t: VM, space: nat, root: nat)
      requires E.OnlyNewSpace(s, m, space) && t.mem == m.mem
      requires forall n | n in m.at && (n.root != root || root == m.kroot) :: n in t.at && t.at[n] == m.at[n]
      ensures OthersKept(s, t, root) && forall n | n in s.at :: n.root != space
    {
      hide EntryOf;
    }

    /** The arguments go onto the stack of the space just loaded, which nobody claims yet. */
    method PassArguments(space: nat, ghost elf: seq<byte>, ghost s: VM, args: seq<seq<byte>>) returns (uargv: nat, sp: nat)
      requires Machine() && SpacesOk(Members(), {space}) && Node(space, []) in v.at && space != v.kernelPml4
      requires E.Loadable(elf) && ClearOfStack(elf) && ProgramReady(elf, v.State(), space) && E.OnlyNewSpace(s, v.State(), space)
      requires |args| <= A.MAX_ARGS && forall i | 0 <= i < |args| :: A.ShortString(args[i])
      modifies v.mem
      ensures Machine() && SpacesOk(Members(), {space}) && ProgramReady(elf, v.State(), space) && E.OnlyNewSpace(s, v.State(), space)
      ensures A.Delivered(v.State(), space, uargv, args) && sp <= uargv < sp + 16 && sp % 16 == 0
    {
      hide AddressSpaces.Valid, H.KernelHeap.Valid, SpacesOk, KernelFixed, ClearOfStack, E.OnlyNewSpace, ProgramReady, A.OnlyPage, A.Delivered, A.ShortString;
      ghost var m := v.State();
      HeadersInside(elf);
      TopPageThere(elf, m, space);
      uargv, sp := A.WriteArguments(v, space, args);
      ReadyWithArguments(elf, m, v.State(), space);
      StillOnlyNew(s, m, v.State(), space);
    }

    lemma KeptSame(s: VM)
      ensures forall root: nat :: OthersKept(s, s, root)
    {
    }

    /** The second half of exec_current: arguments, frame, change of spaces. */
    method Launch(space: nat, entry: nat, ghost elf: seq<byte>, ghost s: VM, args: seq<seq<byte>>)
      requires current in Members() && Machine() && SpacesOk(Members(), {space}) && space != 0 && space != v.kernelPml4 && Node(space, []) in v.at
      requires current.pml4 == v.kernelPml4 || (current.pml4 != 0 && Node(current.pml4, []) in v.at && current.pml4 != space)
      requires E.Loadable(elf) && ClearOfStack(elf) && ProgramReady(elf, v.State(), space) && E.OnlyNewSpace(s, v.State(), space)
      requires |args| <= A.MAX_ARGS && forall i | 0 <= i < |args| :: A.ShortString(args[i])
      modifies this`spaces, current`pml4, current`frame, v`at, v`own, v.pmm`used, v.pmm.bitmap, v.mem
      ensures Machine() && SpacesOk(Members(), {}) && current.pml4 == space
      ensures ProgramReady(elf, v.State(), space) && A.Delivered(v.State(), space, current.frame.rsi, args)
      ensures Entered(current.frame, entry, |args|)
      ensures old(current.pml4) != v.kernelPml4 ==> forall n | n in v.at :: n.root != old(current.pml4)
      ensures OthersKept(s, v.State(), old(current.pml4)) && forall n | n in s.at :: n.root != space
    {
      hide Machine, SpacesOk, E.Loadable, ClearOfStack, E.OnlyNewSpace, ProgramReady, OthersKept, A.Delivered, A.ShortString;
      HeadersInside(elf);
      var uargv, sp := PassArguments(space, elf, s, args);
      current.frame := StartFrame(entry, USER_CS, USER_SS, sp).(rdi := |args|, rsi := uargv);
      ghost var m, root := v.State(), current.pml4;
      ReplaceSpace(space, elf, uargv, args);
      KeptByExec(s, m, v.State(), space, root);
    }

    /**
     * exec_current: a fresh space with the program, its stack and its arguments takes the place of the
     * current task's; the frame it resumes with enters the program with argc and argv in rdi and rsi.
     * `image` is what the ramdisk holds under the first argument.
     */
    method Exec(image: Lookup, argv: seq<seq<byte>>, argc: int) returns (ok: bool)
      requires Valid() && A.ArgumentsOk(argv, argc) && (image.Found? ==> CanLoad(v, image.elf))
      modifies this`spaces, current`pml4, current`frame, v`at, v`own, v`loose, v.pmm`used, v.pmm.bitmap, v.mem
      ensures Valid() && Snap() == old(Snap()) && (ok <==> image.Found? && E.GoodMagic(image.elf))
      ensures !ok ==> v.State() == old(v.State()) && current.pml4 == old(current.pml4) && current.frame == old(current.frame)
      ensures ok ==> ProgramReady(image.elf, v.State(), current.pml4) && (forall n | n in old(v.at) :: n.root != current.pml4)
      ensures ok ==> A.Delivered(v.State(), current.pml4, current.frame.rsi, A.KeptArguments(argv, argc))
      ensures ok ==> Entered(current.frame, E.Entry(image.elf), A.Clamped(argc))
      ensures ok ==>
        && current.frame.rip == E.Entry(image.elf) && current.frame.cs == 0x1B && current.frame.ss == 0x23 && current.frame.rflags == 0x202
        && current.frame.rdi == (if argc < 0 then 0 else if argc > 16 then 16 else argc)
      ensures ok && old(current.pml4) != v.kernelPml4 ==> forall n | n in v.at :: n.root != old(current.pml4)
      ensures OthersKept(old(v.State()), v.State(), old(current.pml4))
    {
      hide Linked, Machine, SpacesOk, HeldOk, RingInv, Snap, E.Loadable, ClearOfStack, E.OnlyNewSpace, ProgramReady, E.GoodMagic;
      hide OthersKept, A.Delivered, A.ShortString, A.KeptArguments, CanLoad;
      ok := false;
      var args := A.CopyArguments(argv, argc);
      KeptSame(v.State());
      if image.Missing? {
        return;
      }
      CurrentKnown();
      CurrentSpace();
      ghost var s := v.State();
      if E.GoodMagic(image.elf) {
        WasLoadable(v, image.elf);
      }
      var space, entry := LoadSpace(image.elf);
      if space == 0 {
        return;
      }
      RootOfNew(s, v.State(), space);
      Launch(space, entry, image.elf, s, args);
      ok := true;
    }

    // ---- what holds in every reachable state -----------------------------------------------------------------

    /** Frame f belongs to t's private address space. */
    ghost predicate OwnsFrame(t: Task, f: nat)
      reads t`pml4, v`own
    {
      t.pml4 != v.kernelPml4 && f in v.own && v.own[f].root == t.pml4
    }

    ghost predicate KernelFrame(f: nat) {
      exists n | n in kernelAt :: kernelAt[n] == f
    }

    /**
     * No frame leaks and none is shared: the allocated frames are the disjoint union of those
     * reserved at boot, the kernel's tables and the spaces of the tasks in the ring.
     */
    lemma FramesAccounted(f: nat)
      requires Valid() && f < v.pmm.total
      ensures Marked(v.pmm.bitmap[..], f) <==> f in v.reserved || KernelFrame(f) || exists t | t in ring :: OwnsFrame(t, f)
      ensures f in v.reserved ==> !KernelFrame(f) && forall t | t in ring :: !OwnsFrame(t, f)
      ensures KernelFrame(f) ==> forall t | t in ring :: !OwnsFrame(t, f)
      ensures forall t, u | t in ring && u in ring && OwnsFrame(t, f) && OwnsFrame(u, f) :: t == u
    {
      hide Linked, RingInv, Snap, HeldOk, H.KernelHeap.Valid, Marked, Inv;
      OwnersAgree();
      if f in v.own && v.own[f].root != v.kernelPml4 {
        assert v.own[f] in v.at;
        assert spaces[v.own[f].root] in ring;
      }
    }

    lemma OwnersAgree()
      requires v.Valid()
      ensures forall f | f in v.own :: v.own[f] in v.at && v.at[v.own[f]] == f
      ensures forall n | n in v.at :: v.at[n] in v.own && v.own[v.at[n]] == n
    {
      assert Shape(v.State());
    }

    /** No heap block leaks and none is shared: the held pointers are the structs and kernel stacks of the ring. */
    lemma HeapAccounted(p: nat)
      requires Valid() && p != 0
      ensures p in H.Payloads(heap.blocks) <==> exists t | t in ring :: p == t.addr || p == t.kstackBase
      ensures forall t, u | t in ring && u in ring && t != u :: {t.addr, t.kstackBase} * {u.addr, u.kstackBase} <= {0}
      ensures forall t | t in ring :: H.HoldsAt(heap.blocks, t.addr, TASK_SIZE) && t.addr != t.kstackBase
      ensures forall t | t in ring && t.kstackBase != 0 :: H.HoldsAt(heap.blocks, t.kstackBase, STACK_SIZE)
    {
      hide Linked, RingInv, Snap, Machine, SpacesOk, H.Payloads, H.HoldsAt;
      assert forall t | t in ring :: t in Members() && TaskHeld(t);
      if p in held {
        assert held[p] in ring;
      }
    }

    /** When only the boot task is left, everything handed out since start-up has come back. */
    lemma AllReturned()
      requires Valid() && ring == [boot] && boot.pml4 == v.kernelPml4 && boot.kstackBase == 0
      ensures v.at == kernelAt && v.pmm.used == |v.reserved| + |kernelAt|
      ensures H.Payloads(heap.blocks) == {boot.addr}
    {
      hide Linked, RingInv, Snap, H.KernelHeap.Valid, H.Payloads, H.HoldsAt, Inv;
      assert Members() == {boot};
      assert forall p | p in held :: held[p] == boot;
      assert boot in Members() && TaskHeld(boot);
      assert held.Keys == {boot.addr} by { H.NullNotHeld(heap.blocks); }
      forall n | n in v.at ensures n in kernelAt {
        assert n.root !in spaces;
      }
      v.UsedIsKnown();
    }

  }

  lemma EmptyHeap()
    ensures H.HeapInv(H.Fresh()) && H.Payloads(H.Fresh()) == {} && H.Alloc(H.Fresh(), TASK_SIZE).1 != 0
  {
  }
}
