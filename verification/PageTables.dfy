/**
 * Four-level page tables as values: what the processor's walk finds in memory, the tree of
 * tables each address space owns, and the elementary changes the kernel makes to it.
 */
module PageTables {
  import opened Bytes

  const ENTRIES := 512
  const PAGE_SIZE := 4096
  const PRESENT: bv12 := 1
  const WRITABLE: bv12 := 2
  const USER: bv12 := 4
  const HUGE: bv12 := 0x80

  /** A 64-bit table entry: the frame number in bits 12 and up, and the low twelve flag bits. */
  datatype PTE = PTE(frame: nat, flags: bv12)

  type Entries = s: seq<PTE> | |s| == ENTRIES witness seq(ENTRIES, _ => PTE(0, 0))
  type PageBytes = s: seq<byte> | |s| == PAGE_SIZE witness seq(PAGE_SIZE, _ => 0)

  datatype Frame = Table(e: Entries) | Page(bytes: PageBytes)

  predicate Present(e: PTE) { e.flags & PRESENT != 0 }
  predicate Writable(e: PTE) { e.flags & WRITABLE != 0 }
  predicate User(e: PTE) { e.flags & USER != 0 }
  predicate Huge(e: PTE) { e.flags & HUGE != 0 }

  function NoEntries(): Entries {
    seq(ENTRIES, _ => PTE(0, 0))
  }

  // ---- virtual addresses ---------------------------------------------------------------------

  type Path = seq<nat>

  predicate GoodPath(p: Path) {
    |p| <= 4 && forall k | 0 <= k < |p| :: p[k] < ENTRIES
  }

  predicate FullPath(p: Path) {
    |p| == 4 && GoodPath(p)
  }

  const PML4_SPAN := 0x80_0000_0000      // 2^39
  const PDPT_SPAN := 0x4000_0000         // 2^30
  const PD_SPAN := 0x20_0000             // 2^21

  /** The four table indices of a virtual address. */
  function Indices(virt: nat): (p: Path)
    ensures FullPath(p)
  {
    [virt / PML4_SPAN % ENTRIES, virt / PDPT_SPAN % ENTRIES, virt / PD_SPAN % ENTRIES, virt / PAGE_SIZE % ENTRIES]
  }

  /** The address that vmm_clone_address_space rebuilds from four indices. */
  function Address(i: nat, j: nat, k: nat, l: nat): nat {
    i * PML4_SPAN + j * PDPT_SPAN + k * PD_SPAN + l * PAGE_SIZE
  }

  lemma IndicesOfAddress(i: nat, j: nat, k: nat, l: nat)
    requires i < ENTRIES && j < ENTRIES && k < ENTRIES && l < ENTRIES
    ensures Indices(Address(i, j, k, l)) == [i, j, k, l]
  {
    var b := j + ENTRIES * i;
    var c := k + ENTRIES * b;
    var d := l + ENTRIES * c;
    Digit(j, i);
    Digit(k, b);
    Digit(l, c);
    SpansOf(d);
    assert Address(i, j, k, l) == d * PAGE_SIZE;
  }

  /** The four indices are nine bits each: of 512 GiB, 1 GiB, 2 MiB and 4 KiB; the lowest twelve bits do not matter. */
  lemma IndicesExactly(i: nat, j: nat, k: nat, l: nat, offset: nat)
    requires i < 512 && j < 512 && k < 512 && l < 512 && offset < 4096
    ensures Indices(i * 0x80_0000_0000 + j * 0x4000_0000 + k * 0x20_0000 + l * 0x1000 + offset) == [i, j, k, l]
  {
    IndicesOfAddress(i, j, k, l);
    SameIndices(Address(i, j, k, l), offset);
  }

  lemma SameIndices(a: nat, offset: nat)
    requires a % PAGE_SIZE == 0 && offset < PAGE_SIZE
    ensures Indices(a + offset) == Indices(a)
  {
    var x := a / PAGE_SIZE;
    assert (a + offset) / PAGE_SIZE == x;
    Spans(a);
    Spans(a + offset);
  }

  lemma Spans(v: nat)
    ensures var x := v / PAGE_SIZE;
      v / PD_SPAN == x / ENTRIES && v / PDPT_SPAN == x / ENTRIES / ENTRIES && v / PML4_SPAN == x / ENTRIES / ENTRIES / ENTRIES
  {
  }

  lemma Digit(r: nat, q: nat)
    requires r < ENTRIES
    ensures (r + ENTRIES * q) % ENTRIES == r && (r + ENTRIES * q) / ENTRIES == q
  {
  }

  /** The table indices of an address are those of its page number, nine bits each. */
  lemma SpansOf(x: nat)
    ensures var v := x * PAGE_SIZE;
      && v / PAGE_SIZE == x && v / PD_SPAN == x / ENTRIES
      && v / PDPT_SPAN == x / ENTRIES / ENTRIES && v / PML4_SPAN == x / ENTRIES / ENTRIES / ENTRIES
  {
  }

  /** Different pages below 2^48 have different indices. */
  lemma IndicesInjective(a: nat, b: nat)
    requires a < PML4_SPAN * ENTRIES && b < PML4_SPAN * ENTRIES
    requires Indices(a) == Indices(b)
    ensures a / PAGE_SIZE == b / PAGE_SIZE
  {
    IndicesCompose(a);
    IndicesCompose(b);
    var p, q := Indices(a), Indices(b);
    assert p[0] == q[0] && p[1] == q[1] && p[2] == q[2] && p[3] == q[3];
  }

  lemma IndicesCompose(a: nat)
    requires a < PML4_SPAN * ENTRIES
    ensures var p := Indices(a); a / PAGE_SIZE == p[3] + ENTRIES * (p[2] + ENTRIES * (p[1] + ENTRIES * p[0]))
  {
    var x := a / PAGE_SIZE;
    assert a / PD_SPAN == x / ENTRIES;
    assert a / PDPT_SPAN == x / ENTRIES / ENTRIES;
    assert a / PML4_SPAN == x / ENTRIES / ENTRIES / ENTRIES;
  }

  const USER_FIRST_PAGE := 0x800_0000          // 2^39 / 4096
  const USER_END_PAGE := 0x10_0000_0000        // 2^48 / 4096

  // ---- pages and paths ---------------------------------------------------------------------------

  function PageNo(q: Path): nat
    requires FullPath(q)
  {
    q[3] + ENTRIES * (q[2] + ENTRIES * (q[1] + ENTRIES * q[0]))
  }

  function PathOf(page: nat): Path {
    Indices(page * PAGE_SIZE)
  }

  lemma PathOfPageNo(q: Path)
    requires FullPath(q)
    ensures PathOf(PageNo(q)) == q
    ensures q[0] != 0 <==> USER_FIRST_PAGE <= PageNo(q)
    ensures PageNo(q) < USER_END_PAGE
  {
    IndicesOfAddress(q[0], q[1], q[2], q[3]);
    assert Address(q[0], q[1], q[2], q[3]) == PageNo(q) * PAGE_SIZE;
    assert q == [q[0], q[1], q[2], q[3]];
  }

  lemma PageNoOfPath(page: nat)
    requires page < USER_END_PAGE
    ensures PageNo(PathOf(page)) == page
    ensures USER_FIRST_PAGE <= page <==> PathOf(page)[0] != 0
  {
    IndicesCompose(page * PAGE_SIZE);
    PathOfPageNo(PathOf(page));
  }

  /** The page of an address below 2^48. */
  lemma PageOfAddress(a: nat)
    requires a < 0x1_0000_0000_0000
    ensures PageNo(Indices(a)) == a / 4096 && Indices(a) == PathOf(a / 4096)
  {
    PageNoOfPath(a / 4096);
    SameIndices(a / 4096 * 4096, a % 4096);
  }

  // ---- the processor's walk -----------------------------------------------------------------------

  /** Where a page is mapped, the leaf's flags, and the rights left after all four levels. */
  datatype Translation = Unmapped | Mapped(frame: nat, flags: bv12, user: bool, writable: bool, huge: bool)

  /** The walk of Intel SDM Vol. 3A section 4.5, rights combined as in section 4.6. */
  function WalkFrom(mem: seq<Frame>, f: nat, p: Path, level: nat, user: bool, writable: bool): Translation
    requires FullPath(p) && level < 4
    decreases 4 - level
  {
    if f >= |mem| || !mem[f].Table? || !Present(mem[f].e[p[level]]) then Unmapped
    else if level == 3 || Huge(mem[f].e[p[level]]) then
      Mapped(mem[f].e[p[level]].frame, mem[f].e[p[level]].flags,
             user && User(mem[f].e[p[level]]), writable && Writable(mem[f].e[p[level]]), level < 3)
    else
      WalkFrom(mem, mem[f].e[p[level]].frame, p, level + 1,
               user && User(mem[f].e[p[level]]), writable && Writable(mem[f].e[p[level]]))
  }

  function Walk(mem: seq<Frame>, root: nat, p: Path): Translation
    requires FullPath(p)
  {
    WalkFrom(mem, root, p, 0, true, true)
  }

  /** Four present entries without a huge page lead to the page, with the rights that all four of them grant. */
  lemma FourLevels(mem: seq<Frame>, root: nat, p: Path)
    requires FullPath(p)
    requires var e0 := EntAt(mem, root, p[0]);
      var e1 := EntAt(mem, e0.frame, p[1]);
      var e2 := EntAt(mem, e1.frame, p[2]);
      var e3 := EntAt(mem, e2.frame, p[3]);
      Present(e0) && Present(e1) && Present(e2) && Present(e3) && !Huge(e0) && !Huge(e1) && !Huge(e2)
    ensures var e0 := EntAt(mem, root, p[0]);
      var e1 := EntAt(mem, e0.frame, p[1]);
      var e2 := EntAt(mem, e1.frame, p[2]);
      var e3 := EntAt(mem, e2.frame, p[3]);
      Walk(mem, root, p) == Mapped(e3.frame, e3.flags,
        User(e0) && User(e1) && User(e2) && User(e3), Writable(e0) && Writable(e1) && Writable(e2) && Writable(e3), false)
  {
    var e0 := EntAt(mem, root, p[0]);
    var e1 := EntAt(mem, e0.frame, p[1]);
    var e2 := EntAt(mem, e1.frame, p[2]);
    assert WalkFrom(mem, e2.frame, p, 3, User(e0) && User(e1) && User(e2), Writable(e0) && Writable(e1) && Writable(e2)) ==
      WalkFrom(mem, e1.frame, p, 2, User(e0) && User(e1), Writable(e0) && Writable(e1));
  }

  // ---- the tables each address space owns -------------------------------------------------------------

  /** A table or page of the space rooted at frame root, named by the indices that lead to it. */
  datatype Node = Node(root: nat, path: Path)

  function Child(n: Node, x: nat): Node {
    Node(n.root, n.path + [x])
  }

  function Parent(n: Node): Node
    requires n.path != []
  {
    Node(n.root, n.path[..|n.path| - 1])
  }

  function Last(n: Node): nat
    requires n.path != []
  {
    n.path[|n.path| - 1]
  }

  lemma ParentOfChild(n: Node, x: nat)
    ensures Parent(Child(n, x)) == n && Last(Child(n, x)) == x
  {
  }

  lemma ChildOfParent(n: Node)
    requires n.path != []
    ensures Child(Parent(n), Last(n)) == n
  {
  }

  /** Memory, and who owns which frame: `at` finds the frame of a node, `own` the node of a frame. */
  datatype VM = VM(mem: seq<Frame>, at: map<Node, nat>, own: map<nat, Node>, kroot: nat)

  /** Entry x of the table in frame f; no entry where there is no table. */
  function EntAt(mem: seq<Frame>, f: nat, x: nat): PTE {
    if f < |mem| && mem[f].Table? && x < ENTRIES then mem[f].e[x] else PTE(0, 0)
  }

  /** Entry x of node n's table. */
  function EntryAt(s: VM, n: Node, x: nat): PTE {
    if n in s.at then EntAt(s.mem, s.at[n], x) else PTE(0, 0)
  }

  /** The entry that leads to n. */
  function EntryOf(s: VM, n: Node): PTE {
    if n.path == [] then PTE(0, 0) else EntryAt(s, Parent(n), Last(n))
  }

  /** Node n has a frame of the right kind to itself, a root its own number. */
  ghost predicate Placed(s: VM, n: Node)
    requires n in s.at
  {
    && s.at[n] < |s.mem| && s.at[n] in s.own && s.own[s.at[n]] == n && GoodPath(n.path)
    && (s.mem[s.at[n]].Table? <==> |n.path| < 4)
    && (n.path == [] ==> s.at[n] == n.root)
  }

  /** `at` and `own` are inverse, and levels zero to three are tables and level four pages. */
  ghost predicate Shape(s: VM) {
    && (forall n :: n in s.at ==> Placed(s, n))
    && (forall f :: f in s.own ==> s.own[f] in s.at && s.at[s.own[f]] == f)
    && Node(s.kroot, []) in s.at
  }

  /**
   * The entry leading to n names n's frame; above the leaves it is writable and no huge page,
   * and it is open to user mode whenever something below it is.
   */
  ghost predicate EntryOk(s: VM, n: Node) {
    n in s.at && n.path != [] ==>
      && Parent(n) in s.at
      && Present(EntryOf(s, n)) && EntryOf(s, n).frame == s.at[n]
      && (|n.path| < 4 ==> Writable(EntryOf(s, n)) && !Huge(EntryOf(s, n)))
      && (|n.path| >= 2 && User(EntryOf(s, n)) ==> User(EntryOf(s, Parent(n))))
      && (n.path[0] == 0 <==> n.root == s.kroot)
  }

  ghost predicate Up(s: VM) {
    forall n :: n in s.at ==> EntryOk(s, n)
  }

  /** Entry x of node n is the kernel subtree shared by every space. */
  predicate SharedEntry(s: VM, n: Node, x: nat) {
    n.path == [] && x == 0 && n.root != s.kroot
  }

  ghost predicate DownAt(s: VM, n: Node, x: nat) {
    Present(EntryAt(s, n, x)) && |n.path| < 4 && !SharedEntry(s, n, x) ==>
      Child(n, x) in s.at || (n.root == s.kroot && 1 <= |n.path| && (|n.path| < 3 ==> Huge(EntryAt(s, n, x))))
  }

  /**
   * Every present entry leads to a node of the tree, except the kernel's huge pages and the pages it
   * maps of memory that the frame allocator does not hand out.
   */
  ghost predicate Down(s: VM) {
    forall n, x: nat :: n in s.at ==> DownAt(s, n, x)
  }

  /** Every space has the kernel's own entry for everything below 2^39, and user mode stops there. */
  ghost predicate KernelShared(s: VM) {
    && Node(s.kroot, [0]) in s.at && !User(EntryAt(s, Node(s.kroot, []), 0))
    && forall n :: n in s.at && n.path == [] ==> EntryAt(s, n, 0) == EntryAt(s, Node(s.kroot, []), 0)
  }

  /** A present entry that leads to no node: a huge page, or a page of memory nobody allocated. */
  ghost predicate Bare(s: VM, n: Node, x: nat) {
    n in s.at && |n.path| < 4 && Present(EntryAt(s, n, x)) && !SharedEntry(s, n, x) && Child(n, x) !in s.at
  }

  ghost predicate Inv(s: VM) {
    Shape(s) && Up(s) && Down(s) && KernelShared(s)
  }

  // ---- adding a table or a page -----------------------------------------------------------------------------

  /** mem with entry x of the table in frame t set to e. */
  function SetEntry(mem: seq<Frame>, t: nat, x: nat, e: PTE): seq<Frame> {
    if t < |mem| && mem[t].Table? && x < ENTRIES then mem[t := Table(mem[t].e[x := e])] else mem
  }

  function Put(mem: seq<Frame>, f: nat, content: Frame): seq<Frame> {
    if f < |mem| then mem[f := content] else mem
  }

  /** Frame f, holding content, becomes entry x of node n; a page that was there before is dropped. */
  function AddChild(s: VM, n: Node, x: nat, f: nat, flags: bv12, content: Frame): VM
    requires n in s.at
  {
    VM(SetEntry(Put(s.mem, f, content), s.at[n], x, PTE(f, flags)), s.at[Child(n, x) := f],
       Disowned(s, Child(n, x))[f := Child(n, x)], s.kroot)
  }

  /** The owners once a node's frame, if it has one, is dropped from the tree. */
  function Disowned(s: VM, c: Node): map<nat, Node> {
    if c in s.at then s.own - {s.at[c]} else s.own
  }

  ghost predicate CanAdd(s: VM, n: Node, x: nat, f: nat, flags: bv12, content: Frame) {
    && Inv(s) && n in s.at && |n.path| < 4 && x < ENTRIES
    && f < |s.mem| && f !in s.own && (Child(n, x) in s.at ==> |n.path| == 3)
    && (n.path == [] ==> x != 0 && n.root != s.kroot)
    && flags & PRESENT != 0
    && (|n.path| < 3 ==> content == Table(NoEntries()) && flags & WRITABLE != 0 && flags & HUGE == 0)
    && (|n.path| == 3 ==> content.Page?)
    && (n.path != [] && flags & USER != 0 ==> User(EntryOf(s, n)))
  }

  lemma AddChildShape(s: VM, n: Node, x: nat, f: nat, flags: bv12, content: Frame)
    requires CanAdd(s, n, x, f, flags, content)
    ensures Shape(AddChild(s, n, x, f, flags, content))
  {
    hide Inv, Up, Down, KernelShared, EntryOf;
    var t := AddChild(s, n, x, f, flags, content);
    InvShape(s);
    ChildPath(n, x);
    AddedKinds(s.mem, f, content, s.at[n], x, PTE(f, flags));
    forall m | m in t.at ensures Placed(t, m) {
      assert m in s.at ==> Placed(s, m);
    }
    AddChildOwners(s, n, x, f, flags, content);
  }

  lemma AddChildOwners(s: VM, n: Node, x: nat, f: nat, flags: bv12, content: Frame)
    requires n in s.at && Shape(s) && f !in s.own
    ensures var t := AddChild(s, n, x, f, flags, content);
      forall g :: g in t.own ==> t.own[g] in t.at && t.at[t.own[g]] == g
  {
    forall m | m in s.at ensures Placed(s, m) {
    }
  }

  lemma InvShape(s: VM)
    requires Inv(s)
    ensures Shape(s)
  {
  }

  lemma ChildPath(n: Node, x: nat)
    ensures Child(n, x).path != [] && |Child(n, x).path| == |n.path| + 1 && Child(n, x) != n
    ensures GoodPath(n.path) && |n.path| < 4 && x < ENTRIES ==> GoodPath(Child(n, x).path)
  {
  }

  /** Storing a frame and an entry changes the kind of no other frame. */
  lemma AddedKinds(mem: seq<Frame>, f: nat, content: Frame, t: nat, x: nat, e: PTE)
    requires f < |mem| && t < |mem| && t != f
    ensures var m := SetEntry(Put(mem, f, content), t, x, e);
      && |m| == |mem| && m[f] == content
      && forall g | 0 <= g < |mem| && g != f :: m[g].Table? <==> mem[g].Table?
  {
  }

  /** Exactly one entry changes, and a new table has no entries. */
  lemma AddChildEntry(s: VM, n: Node, x: nat, f: nat, flags: bv12, content: Frame, m: Node, y: nat)
    requires CanAdd(s, n, x, f, flags, content)
    ensures EntryAt(AddChild(s, n, x, f, flags, content), m, y) ==
      if m == n && y == x then PTE(f, flags) else EntryAt(s, m, y)
  {
    hide Up, Down, KernelShared, EntryOf;
    var c := Child(n, x);
    assert |c.path| == |n.path| + 1;
  }

  lemma AddChildEntryOf(s: VM, n: Node, x: nat, f: nat, flags: bv12, content: Frame, m: Node)
    requires CanAdd(s, n, x, f, flags, content)
    ensures EntryOf(AddChild(s, n, x, f, flags, content), m) ==
      if m == Child(n, x) then PTE(f, flags) else EntryOf(s, m)
  {
    hide CanAdd, AddChild, EntryAt;
    if m.path != [] {
      AddChildEntry(s, n, x, f, flags, content, Parent(m), Last(m));
      ChildOfParent(m);
      ParentOfChild(n, x);
    }
  }

  lemma AddChildUp(s: VM, n: Node, x: nat, f: nat, flags: bv12, content: Frame)
    requires CanAdd(s, n, x, f, flags, content)
    ensures Up(AddChild(s, n, x, f, flags, content))
  {
    hide Inv, EntryOf, EntryOk, Shape, Down, KernelShared;
    forall m | m in AddChild(s, n, x, f, flags, content).at ensures EntryOk(AddChild(s, n, x, f, flags, content), m) {
      if m == Child(n, x) {
        NewEntryOk(s, n, x, f, flags, content);
      } else {
        OldEntryOk(s, n, x, f, flags, content, m);
      }
    }
  }

  lemma NewEntryOk(s: VM, n: Node, x: nat, f: nat, flags: bv12, content: Frame)
    requires CanAdd(s, n, x, f, flags, content)
    ensures EntryOk(AddChild(s, n, x, f, flags, content), Child(n, x))
  {
    hide EntryOf, Shape, Down, KernelShared;
    ParentOfChild(n, x);
    AddChildEntryOf(s, n, x, f, flags, content, Child(n, x));
    AddChildEntryOf(s, n, x, f, flags, content, n);
    assert EntryOk(s, n);
  }

  lemma OldEntryOk(s: VM, n: Node, x: nat, f: nat, flags: bv12, content: Frame, m: Node)
    requires CanAdd(s, n, x, f, flags, content) && m in s.at && m != Child(n, x)
    ensures EntryOk(AddChild(s, n, x, f, flags, content), m)
  {
    hide EntryOf, Shape, Down, KernelShared, Present, Writable, User, Huge;
    AddChildEntryOf(s, n, x, f, flags, content, m);
    assert EntryOk(s, m);
    PathBound(s, m);
    if m.path != [] {
      AddChildEntryOf(s, n, x, f, flags, content, Parent(m));
      assert EntryOk(s, Parent(m));
    }
  }

  lemma PathBound(s: VM, m: Node)
    requires Shape(s) && m in s.at
    ensures |m.path| <= 4
  {
  }

  lemma AddChildDown(s: VM, n: Node, x: nat, f: nat, flags: bv12, content: Frame)
    requires CanAdd(s, n, x, f, flags, content)
    ensures Down(AddChild(s, n, x, f, flags, content)) && KernelShared(AddChild(s, n, x, f, flags, content))
  {
    hide EntryOf, EntryAt, Shape, Up;
    var t := AddChild(s, n, x, f, flags, content);
    var c := Child(n, x);
    forall m, y: nat | m in t.at ensures DownAt(t, m, y) {
      AddChildEntry(s, n, x, f, flags, content, m, y);
      if m != c {
        assert DownAt(s, m, y);
      } else if |n.path| < 3 {
        NoEntryAt(s, c, y);
      }
    }
    AddChildEntry(s, n, x, f, flags, content, Node(t.kroot, []), 0);
    forall m | m in t.at && m.path == [] ensures EntryAt(t, m, 0) == EntryAt(t, Node(t.kroot, []), 0) {
      AddChildEntry(s, n, x, f, flags, content, m, 0);
      assert m in s.at;
    }
  }

  lemma NoEntryAt(s: VM, m: Node, y: nat)
    requires m !in s.at
    ensures EntryAt(s, m, y) == PTE(0, 0) && !Present(EntryAt(s, m, y))
  {
  }

  /** Adding a fresh frame at an empty entry keeps the tables well formed. */
  lemma AddChildInv(s: VM, n: Node, x: nat, f: nat, flags: bv12, content: Frame)
    requires CanAdd(s, n, x, f, flags, content)
    ensures Inv(AddChild(s, n, x, f, flags, content))
  {
    hide CanAdd, AddChild, Shape, Up, Down, KernelShared;
    AddChildShape(s, n, x, f, flags, content);
    AddChildUp(s, n, x, f, flags, content);
    AddChildDown(s, n, x, f, flags, content);
  }

  // ---- opening a table to user mode ------------------------------------------------------------------------

  function WithUser(e: PTE): PTE {
    PTE(e.frame, e.flags | USER)
  }

  /** table[index] |= USER on the entry leading to n. */
  function OpenToUser(s: VM, n: Node): VM
    requires n.path != [] && Parent(n) in s.at
  {
    VM(SetEntry(s.mem, s.at[Parent(n)], Last(n), WithUser(EntryOf(s, n))), s.at, s.own, s.kroot)
  }

  ghost predicate CanOpen(s: VM, n: Node) {
    Inv(s) && n in s.at && n.path != [] && n.root != s.kroot && (|n.path| >= 2 ==> User(EntryOf(s, Parent(n))))
  }

  lemma FlagBits(flags: bv12)
    ensures (flags | USER) & USER != 0
    ensures (flags | USER) & PRESENT == flags & PRESENT
    ensures (flags | USER) & WRITABLE == flags & WRITABLE
    ensures (flags | USER) & HUGE == flags & HUGE
    ensures (flags | PRESENT) & PRESENT != 0
    ensures (flags | PRESENT) & USER == flags & USER
    ensures (flags | PRESENT) & WRITABLE == flags & WRITABLE
  {
  }

  lemma OpenShape(s: VM, n: Node)
    requires CanOpen(s, n)
    ensures Parent(n) in s.at && Shape(OpenToUser(s, n))
  {
    hide Up, Down, KernelShared, EntryOf, Inv, WithUser;
    CanOpenParent(s, n);
  }

  lemma OpenEntry(s: VM, n: Node, m: Node, y: nat)
    requires CanOpen(s, n)
    ensures Parent(n) in s.at
    ensures EntryAt(OpenToUser(s, n), m, y) ==
      if m == Parent(n) && y == Last(n) then WithUser(EntryAt(s, m, y)) else EntryAt(s, m, y)
  {
    hide Down, KernelShared, Inv;
    CanOpenParent(s, n);
  }

  lemma CanOpenParent(s: VM, n: Node)
    requires CanOpen(s, n)
    ensures Parent(n) in s.at && s.at[Parent(n)] < |s.mem| && s.mem[s.at[Parent(n)]].Table? && Last(n) < ENTRIES && Shape(s)
    ensures Present(EntryOf(s, n))
  {
    assert EntryOk(s, n);
  }

  lemma OpenEntryOf(s: VM, n: Node, m: Node)
    requires CanOpen(s, n)
    ensures Parent(n) in s.at
    ensures EntryOf(OpenToUser(s, n), m) == if m == n then WithUser(EntryOf(s, m)) else EntryOf(s, m)
  {
    hide CanOpen, OpenToUser, EntryAt;
    CanOpenParent(s, n);
    if m.path != [] {
      OpenEntry(s, n, Parent(m), Last(m));
      ChildOfParent(m);
      ChildOfParent(n);
    }
  }

  lemma OpenUp(s: VM, n: Node)
    requires CanOpen(s, n)
    ensures Parent(n) in s.at && Up(OpenToUser(s, n))
  {
    hide EntryOf, Shape, Down, KernelShared, Present, Writable, Huge;
    CanOpenParent(s, n);
    var t := OpenToUser(s, n);
    forall m | m in t.at ensures EntryOk(t, m) {
      assert EntryOk(s, m);
      OpenEntryOf(s, n, m);
      KeepsBits(EntryOf(s, m));
      if m.path != [] {
        OpenEntryOf(s, n, Parent(m));
      }
    }
  }

  lemma KeepsBits(e: PTE)
    ensures Present(WithUser(e)) == Present(e) && Writable(WithUser(e)) == Writable(e) && Huge(WithUser(e)) == Huge(e) && User(WithUser(e))
  {
    FlagBits(e.flags);
  }

  lemma OpenDown(s: VM, n: Node)
    requires CanOpen(s, n)
    ensures Parent(n) in s.at && Down(OpenToUser(s, n)) && KernelShared(OpenToUser(s, n))
  {
    hide EntryOf, EntryAt, Shape, Up, Present, Huge;
    CanOpenParent(s, n);
    var t := OpenToUser(s, n);
    forall m, y: nat | m in t.at ensures DownAt(t, m, y) {
      assert DownAt(s, m, y);
      OpenEntry(s, n, m, y);
      KeepsBits(EntryAt(s, m, y));
    }
    UserEntriesNotShared(s, n);
    OpenEntry(s, n, Node(t.kroot, []), 0);
    forall m | m in t.at && m.path == [] ensures EntryAt(t, m, 0) == EntryAt(t, Node(t.kroot, []), 0) {
      OpenEntry(s, n, m, 0);
    }
  }

  lemma UserEntriesNotShared(s: VM, n: Node)
    requires CanOpen(s, n)
    ensures |n.path| == 1 ==> Last(n) != 0
    ensures Parent(n) != Node(s.kroot, [])
  {
    assert EntryOk(s, n);
  }

  lemma OpenInv(s: VM, n: Node)
    requires CanOpen(s, n)
    ensures Parent(n) in s.at && Inv(OpenToUser(s, n))
  {
    hide CanOpen, OpenToUser, Shape, Up, Down, KernelShared;
    OpenShape(s, n);
    OpenUp(s, n);
    OpenDown(s, n);
  }

  // ---- creating and removing whole spaces --------------------------------------------------------------------

  /** A new root in frame f, sharing the kernel's first entry. */
  function AddRoot(s: VM, f: nat): VM {
    VM(Put(s.mem, f, Table(NoEntries()[0 := EntryAt(s, Node(s.kroot, []), 0)])), s.at[Node(f, []) := f], s.own[f := Node(f, [])], s.kroot)
  }

  /** A root of a known space is owned, so a frame nobody owns is no root of anything. */
  lemma FreshRoot(s: VM, f: nat, n: Node)
    requires Inv(s) && f !in s.own && n in s.at
    ensures n.root != f
    decreases |n.path|
  {
    assert EntryOk(s, n);
    if n.path != [] {
      FreshRoot(s, f, Parent(n));
    }
  }

  lemma AddRootInv(s: VM, f: nat)
    requires Inv(s) && f < |s.mem| && f !in s.own
    ensures Inv(AddRoot(s, f))
    ensures forall n :: n in s.at ==> n.root != f
    ensures forall n, y: nat :: n in s.at ==> EntryAt(AddRoot(s, f), n, y) == EntryAt(s, n, y)
  {
    hide Inv, Shape, Up, Down, KernelShared, EntryAt;
    forall n | n in s.at ensures n.root != f {
      FreshRoot(s, f, n);
    }
    AddRootShape(s, f);
    AddRootEntries(s, f);
    AddRootLinks(s, f);
    InvParts(AddRoot(s, f));
  }

  lemma InvParts(s: VM)
    requires Shape(s) && Up(s) && Down(s) && KernelShared(s)
    ensures Inv(s)
  {
  }

  lemma AddRootEntries(s: VM, f: nat)
    requires Inv(s) && f < |s.mem| && f !in s.own && forall n :: n in s.at ==> n.root != f
    ensures forall n, y: nat :: n in s.at ==> EntryAt(AddRoot(s, f), n, y) == EntryAt(s, n, y)
  {
    hide Up, Down, KernelShared;
    forall n, y: nat | n in s.at ensures EntryAt(AddRoot(s, f), n, y) == EntryAt(s, n, y) {
      assert s.at[n] != f;
    }
  }

  lemma AddRootShape(s: VM, f: nat)
    requires Inv(s) && f < |s.mem| && f !in s.own && Node(f, []) !in s.at
    ensures Shape(AddRoot(s, f))
  {
    hide Up, Down, KernelShared;
  }

  lemma AddRootLinks(s: VM, f: nat)
    requires Inv(s) && f < |s.mem| && f !in s.own && forall n :: n in s.at ==> n.root != f
    requires forall n, y: nat :: n in s.at ==> EntryAt(AddRoot(s, f), n, y) == EntryAt(s, n, y)
    ensures Up(AddRoot(s, f)) && Down(AddRoot(s, f)) && KernelShared(AddRoot(s, f))
  {
    hide EntryAt, Shape, Present, Huge, Writable, User;
    var t := AddRoot(s, f);
    var r := Node(f, []);
    NewRootEntries(s, f);
    KernelRootThere(s);
    forall n | n in t.at ensures EntryOk(t, n) {
      if n != r {
        assert EntryOk(s, n);
        if n.path != [] {
          assert EntryOk(s, Parent(n));
        }
      }
    }
    NotPresent();
    forall n, y: nat | n in t.at ensures DownAt(t, n, y) {
      if n != r {
        assert DownAt(s, n, y);
      }
    }
  }

  lemma NewRootEntries(s: VM, f: nat)
    requires f < |s.mem|
    ensures forall y: nat :: EntryAt(AddRoot(s, f), Node(f, []), y) == if y == 0 then EntryAt(s, Node(s.kroot, []), 0) else PTE(0, 0)
  {
  }

  lemma NotPresent()
    ensures !Present(PTE(0, 0))
  {
  }

  /** s without every node of the space rooted at r. */
  function RemoveSpace(s: VM, r: nat): VM {
    VM(s.mem, map n | n in s.at && n.root != r :: s.at[n], map f | f in s.own && s.own[f].root != r :: s.own[f], s.kroot)
  }

  lemma RemoveSpaceInv(s: VM, r: nat)
    requires Inv(s) && r != s.kroot
    ensures Inv(RemoveSpace(s, r))
    ensures forall n :: n in RemoveSpace(s, r).at <==> n in s.at && n.root != r
    ensures forall n, y: nat :: n in RemoveSpace(s, r).at ==> EntryAt(RemoveSpace(s, r), n, y) == EntryAt(s, n, y)
  {
    hide Inv, Shape, Up, Down, KernelShared;
    RemoveSpaceShape(s, r);
    RemoveSpaceLinks(s, r);
    InvParts(RemoveSpace(s, r));
  }

  lemma RemoveSpaceEntries(s: VM, r: nat)
    ensures forall n, y: nat :: n in RemoveSpace(s, r).at ==> EntryAt(RemoveSpace(s, r), n, y) == EntryAt(s, n, y)
  {
  }

  lemma RemoveSpaceLinks(s: VM, r: nat)
    requires Inv(s) && r != s.kroot
    ensures Up(RemoveSpace(s, r)) && Down(RemoveSpace(s, r)) && KernelShared(RemoveSpace(s, r))
    ensures forall n, y: nat :: n in RemoveSpace(s, r).at ==> EntryAt(RemoveSpace(s, r), n, y) == EntryAt(s, n, y)
  {
    hide EntryAt, Shape, Present, Huge, Writable, User;
    var t := RemoveSpace(s, r);
    RemoveSpaceEntries(s, r);
    KernelRootThere(s);
    forall n | n in t.at ensures EntryOk(t, n) {
      assert EntryOk(s, n);
      if n.path != [] {
        assert EntryOk(s, Parent(n));
      }
    }
    forall n, y: nat | n in t.at ensures DownAt(t, n, y) {
      assert DownAt(s, n, y);
    }
  }

  lemma KernelRootThere(s: VM)
    requires Inv(s)
    ensures Node(s.kroot, []) in s.at
  {
  }

  lemma RemoveSpaceShape(s: VM, r: nat)
    requires Inv(s) && r != s.kroot
    ensures Shape(RemoveSpace(s, r))
  {
    hide Up, Down, KernelShared;
  }

  // ---- the kernel's own tables ---------------------------------------------------------------------------------

  /** The page directory of the first GiB: 512 huge identity entries. */
  function IdentityEntries(): Entries {
    seq<PTE>(ENTRIES, i requires 0 <= i < ENTRIES => PTE(i * ENTRIES, PRESENT | WRITABLE | HUGE))
  }

  function LinkTo(f: nat): Frame {
    Table(NoEntries()[0 := PTE(f, PRESENT | WRITABLE)])
  }

  /** Memory once vmm_init has built the kernel's tables in frames k, p and d. */
  function BootVM(mem: seq<Frame>, k: nat, p: nat, d: nat): VM {
    VM(Put(Put(Put(mem, k, LinkTo(p)), p, LinkTo(d)), d, Table(IdentityEntries())),
       map[Node(k, []) := k, Node(k, [0]) := p, Node(k, [0, 0]) := d],
       map[k := Node(k, []), p := Node(k, [0]), d := Node(k, [0, 0])], k)
  }

  lemma BootFlags(f: nat)
    ensures var link := PTE(f, PRESENT | WRITABLE); Present(link) && Writable(link) && !Huge(link) && !User(link)
    ensures var big := PTE(f, PRESENT | WRITABLE | HUGE); Present(big) && Huge(big)
  {
  }

  lemma BootShape(mem: seq<Frame>, k: nat, p: nat, d: nat)
    requires k < |mem| && p < |mem| && d < |mem| && k != p && k != d && p != d
    ensures Shape(BootVM(mem, k, p, d))
  {
    hide IdentityEntries, LinkTo;
    BootMem(mem, k, p, d);
  }

  lemma BootMem(mem: seq<Frame>, k: nat, p: nat, d: nat)
    requires k < |mem| && p < |mem| && d < |mem| && k != p && k != d && p != d
    ensures var s := BootVM(mem, k, p, d);
      && |s.mem| == |mem| && s.mem[k] == LinkTo(p) && s.mem[p] == LinkTo(d) && s.mem[d] == Table(IdentityEntries())
      && LinkTo(p).Table? && LinkTo(d).Table?
  {
  }

  /** The entries of the boot tables. */
  lemma BootEntries(mem: seq<Frame>, k: nat, p: nat, d: nat, n: Node, x: nat)
    requires k < |mem| && p < |mem| && d < |mem| && k != p && k != d && p != d
    ensures var s := BootVM(mem, k, p, d);
      EntryAt(s, n, x) ==
        if n == Node(k, []) && x == 0 then PTE(p, PRESENT | WRITABLE)
        else if n == Node(k, [0]) && x == 0 then PTE(d, PRESENT | WRITABLE)
        else if n == Node(k, [0, 0]) && x < ENTRIES then PTE(x * ENTRIES, PRESENT | WRITABLE | HUGE)
        else PTE(0, 0)
  {
    BootMem(mem, k, p, d);
    assert Node(k, []) != Node(k, [0]) && Node(k, [0]) != Node(k, [0, 0]) by {
      assert |Node(k, [0]).path| == 1 && |Node(k, [0, 0]).path| == 2;
    }
  }

  lemma BootUp(mem: seq<Frame>, k: nat, p: nat, d: nat)
    requires k < |mem| && p < |mem| && d < |mem| && k != p && k != d && p != d
    ensures Up(BootVM(mem, k, p, d))
  {
    hide EntryAt, Shape, Present, Writable, Huge, User;
    var s := BootVM(mem, k, p, d);
    var nk, np, nd := Node(k, []), Node(k, [0]), Node(k, [0, 0]);
    BootFlags(p);
    BootFlags(d);
    assert Parent(np) == nk && Last(np) == 0 && Parent(nd) == np && Last(nd) == 0;
    BootEntries(mem, k, p, d, nk, 0);
    BootEntries(mem, k, p, d, np, 0);
    assert EntryOk(s, nk) && EntryOk(s, np) && EntryOk(s, nd);
  }

  lemma BootDown(mem: seq<Frame>, k: nat, p: nat, d: nat)
    requires k < |mem| && p < |mem| && d < |mem| && k != p && k != d && p != d
    ensures Down(BootVM(mem, k, p, d)) && KernelShared(BootVM(mem, k, p, d))
  {
    hide EntryAt, Shape, Present, Writable, Huge, User;
    var s := BootVM(mem, k, p, d);
    assert Child(Node(k, []), 0) == Node(k, [0]) && Child(Node(k, [0]), 0) == Node(k, [0, 0]);
    NotPresent();
    BootEntries(mem, k, p, d, Node(k, []), 0);
    BootFlags(p);
    forall n, x: nat | n in s.at ensures DownAt(s, n, x) {
      BootEntries(mem, k, p, d, n, x);
      BootFlags(x * ENTRIES);
    }
  }

  /** After boot only the identity-mapped directory has entries without a node. */
  lemma BootBare(mem: seq<Frame>, k: nat, p: nat, d: nat)
    requires k < |mem| && p < |mem| && d < |mem| && k != p && k != d && p != d
    ensures forall n, x: nat :: Bare(BootVM(mem, k, p, d), n, x) ==> n == Node(k, [0, 0])
  {
    hide EntryAt, Present;
    var s := BootVM(mem, k, p, d);
    assert Child(Node(k, []), 0) == Node(k, [0]) && Child(Node(k, [0]), 0) == Node(k, [0, 0]);
    NotPresent();
    forall n, x: nat | Bare(s, n, x) ensures n == Node(k, [0, 0]) {
      BootEntries(mem, k, p, d, n, x);
    }
  }

  /** The tables of root map the first GiB onto itself in 2 MiB pages, for the kernel alone, and nothing else. */
  ghost predicate FirstGiB(mem: seq<Frame>, root: nat) {
    forall q | FullPath(q) :: Walk(mem, root, q) == if q[0] == 0 && q[1] == 0 then Mapped(512 * q[2], 0x83, false, true, true) else Unmapped
  }

  /** The boot tables map the first GiB onto itself in 2 MiB pages, for the kernel alone, and nothing else. */
  lemma BootWalk(mem: seq<Frame>, k: nat, p: nat, d: nat, q: Path)
    requires k < |mem| && p < |mem| && d < |mem| && k != p && k != d && p != d && FullPath(q)
    ensures Walk(BootVM(mem, k, p, d).mem, k, q) ==
      if q[0] == 0 && q[1] == 0 then Mapped(512 * q[2], 0x83, false, true, true) else Unmapped
  {
    var m := BootVM(mem, k, p, d).mem;
    var link: bv12, leaf: bv12 := PRESENT | WRITABLE, PRESENT | WRITABLE | HUGE;
    assert m[k] == LinkTo(p) && m[p] == LinkTo(d) && m[d] == Table(IdentityEntries());
    NotPresent();
    if q[0] == 0 && q[1] == 0 {
      assert WalkFrom(m, p, q, 1, false, true) == WalkFrom(m, d, q, 2, false, true);
    }
  }

  // ---- the kernel's mappings of memory nobody allocated --------------------------------------------------------

  /** Entry x of the kernel page table of node n becomes e; no frame changes hands. */
  function SetBare(s: VM, n: Node, x: nat, e: PTE): VM
    requires n in s.at
  {
    VM(SetEntry(s.mem, s.at[n], x, e), s.at, s.own, s.kroot)
  }

  ghost predicate CanSetBare(s: VM, n: Node, x: nat, e: PTE) {
    && Inv(s) && n in s.at && n.root == s.kroot && |n.path| == 3 && x < ENTRIES && Child(n, x) !in s.at
    && Present(e) && !User(e)
  }

  lemma SetBareEntry(s: VM, n: Node, x: nat, e: PTE, m: Node, y: nat)
    requires CanSetBare(s, n, x, e)
    ensures EntryAt(SetBare(s, n, x, e), m, y) == if m == n && y == x then e else EntryAt(s, m, y)
  {
    hide Up, Down, KernelShared, Inv;
    InvShape(s);
    assert Placed(s, n);
    assert m in s.at ==> Placed(s, m);
  }

  lemma SetBareShape(s: VM, n: Node, x: nat, e: PTE)
    requires CanSetBare(s, n, x, e)
    ensures Shape(SetBare(s, n, x, e))
  {
    hide Up, Down, KernelShared, Inv;
    InvShape(s);
    var t := SetBare(s, n, x, e);
    forall m | m in t.at ensures Placed(t, m) {
      assert Placed(s, m);
    }
  }

  lemma SetBareInv(s: VM, n: Node, x: nat, e: PTE)
    requires CanSetBare(s, n, x, e)
    ensures Inv(SetBare(s, n, x, e))
    ensures forall m :: m in s.at ==> EntryOf(SetBare(s, n, x, e), m) == EntryOf(s, m)
  {
    hide Shape, EntryAt, Present, Writable, Huge, User;
    var t := SetBare(s, n, x, e);
    SetBareShape(s, n, x, e);
    forall m | m in s.at ensures EntryOf(t, m) == EntryOf(s, m) {
      if m.path != [] {
        SetBareEntry(s, n, x, e, Parent(m), Last(m));
        ChildOfParent(m);
      }
    }
    forall m | m in t.at ensures EntryOk(t, m) {
      assert EntryOk(s, m);
    }
    forall m, y: nat | m in t.at ensures DownAt(t, m, y) {
      assert DownAt(s, m, y);
      SetBareEntry(s, n, x, e, m, y);
    }
    forall m | m in t.at && m.path == [] ensures EntryAt(t, m, 0) == EntryAt(s, m, 0) {
      SetBareEntry(s, n, x, e, m, 0);
    }
    SetBareEntry(s, n, x, e, Node(s.kroot, []), 0);
    KernelRootThere(s);
    InvParts(t);
  }

  lemma BootInv(mem: seq<Frame>, k: nat, p: nat, d: nat)
    requires k < |mem| && p < |mem| && d < |mem| && k != p && k != d && p != d
    ensures Inv(BootVM(mem, k, p, d))
  {
    hide Shape, Up, Down, KernelShared, BootVM;
    BootShape(mem, k, p, d);
    BootUp(mem, k, p, d);
    BootDown(mem, k, p, d);
  }
}
