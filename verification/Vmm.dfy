/** Address spaces in physical memory: mapping, cloning and destroying four-level page tables. */
module Vmm {
  import opened Bytes
  import opened PageTables
  import opened Translations
  import Pmm

  ghost function NodesOf(at: map<Node, nat>, r: nat): set<Node> {
    set n | n in at && n.root == r
  }

  ghost function PathsOf(at: map<Node, nat>, r: nat): set<Path> {
    set n | n in at && n.root == r :: n.path
  }

  ghost function OtherNodes(at: map<Node, nat>, r: nat): set<Node> {
    set n | n in at && n.root != r
  }

  lemma {:induction false} PathsCount(a: set<Node>, r: nat)
    requires forall n | n in a :: n.root == r
    ensures |set n | n in a :: n.path| == |a|
    decreases |a|
  {
    if a == {} {
      assert (set n | n in a :: n.path) == {};
    } else {
      var m :| m in a;
      PathsCount(a - {m}, r);
      var b := set n | n in a - {m} :: n.path;
      assert (set n | n in a :: n.path) == b + {m.path};
      assert m.path !in b;
    }
  }

  lemma {:induction false} SubsetSize<T>(a: set<T>, b: set<T>)
    requires a <= b
    ensures |a| <= |b|
  {
    assert b == a + (b - a);
  }

  lemma NodesCount(at: map<Node, nat>, r: nat)
    ensures |at| == |OtherNodes(at, r)| + |PathsOf(at, r)|
  {
    PathsCount(NodesOf(at, r), r);
    assert (set n | n in NodesOf(at, r) :: n.path) == PathsOf(at, r);
    assert at.Keys == OtherNodes(at, r) + NodesOf(at, r);
  }

  /** The page table for p is in place in frame pt, and whether p itself is mapped has not changed. */
  ghost predicate PathBuilt(at0: map<Node, nat>, at: map<Node, nat>, r: nat, p: Path, pt: nat)
    requires FullPath(p)
  {
    && Node(r, p[..3]) in at && at[Node(r, p[..3])] == pt
    && (Node(r, p) in at <==> Node(r, p) in at0) && (forall n | n in at0 :: n in at && at[n] == at0[n])
  }

  /** The nodes that came to `at` since at0 have frames that were free in bits. */
  ghost predicate FreshFrames(bits: seq<byte>, total: nat, at0: map<Node, nat>, at: map<Node, nat>) {
    total <= 8 * |bits| && forall n | n in at && n !in at0 :: at[n] < total && !Marked(bits, at[n])
  }

  lemma FreshFramesTwice(b0: seq<byte>, b1: seq<byte>, total: nat, at0: map<Node, nat>, at1: map<Node, nat>, at2: map<Node, nat>)
    requires FreshFrames(b0, total, at0, at1) && FreshFrames(b1, total, at1, at2) && |b1| == |b0|
    requires forall f: nat | f < total && Marked(b0, f) :: Marked(b1, f)
    requires forall n | n in at1 && n in at2 && n !in at0 :: at2[n] == at1[n]
    ensures FreshFrames(b0, total, at0, at2)
  {
    hide Marked;
  }

  /** Nodes stay, and those that came are tables on the way to p in space r. */
  ghost predicate TablesAdded(at0: map<Node, nat>, at: map<Node, nat>, r: nat, p: Path)
    requires FullPath(p)
  {
    && (forall n | n in at0 :: n in at && at[n] == at0[n])
    && (forall n | n in at && n !in at0 :: n.root == r && n.path in {p[..1], p[..2], p[..3]})
  }

  /** How many tables are missing on the way to page p of space r. */
  ghost function Missing(at: map<Node, nat>, r: nat, p: Path): nat
    requires FullPath(p)
  {
    (if Node(r, p[..1]) in at then 0 else 1) + (if Node(r, p[..2]) in at then 0 else 1) + (if Node(r, p[..3]) in at then 0 else 1)
  }

  /** The paths that mapping page p of space r adds: p itself and the missing tables on the way. */
  ghost function AddedPaths(at: map<Node, nat>, r: nat, p: Path): set<Path>
    requires FullPath(p)
  {
    {p} + (if Node(r, p[..1]) in at then {} else {p[..1]}) + (if Node(r, p[..2]) in at then {} else {p[..2]})
      + (if Node(r, p[..3]) in at then {} else {p[..3]})
  }

  lemma AddedPathsCount(at: map<Node, nat>, r: nat, p: Path)
    requires FullPath(p)
    ensures |AddedPaths(at, r, p)| == 1 + Missing(at, r, p)
  {
    assert |p[..1]| == 1 && |p[..2]| == 2 && |p[..3]| == 3;
  }

  /**
   * Space r may grow until it has exactly the paths in `allowed`: they are no more frames than are
   * left beside everything else.
   */
  ghost predicate Budget(at: map<Node, nat>, others: nat, total: nat, r: nat, allowed: set<Path>) {
    PathsOf(at, r) <= allowed && others + |OtherNodes(at, r)| + |allowed| <= total
  }

  lemma BudgetKept(at: map<Node, nat>, at2: map<Node, nat>, others: nat, total: nat, r: nat, allowed: set<Path>)
    requires Budget(at, others, total, r, allowed)
    requires forall n | n in at :: n in at2
    requires forall n | n in at2 && n !in at :: n.root == r && n.path in allowed
    ensures Budget(at2, others, total, r, allowed)
  {
    assert OtherNodes(at2, r) == OtherNodes(at, r);
  }

  lemma BudgetStart(at: map<Node, nat>, others: nat, total: nat, r: nat, allowed: set<Path>)
    requires others + |at| + |allowed| <= total && [] in allowed && forall n | n in at :: n.root != r
    ensures Budget(at[Node(r, []) := r], others, total, r, allowed)
  {
    assert OtherNodes(at[Node(r, []) := r], r) == at.Keys;
  }

  /** The frames that `bits` has in use. */
  ghost function MarkedSet(bits: seq<byte>, n: nat): set<nat>
    requires Pmm.Holds(bits, n)
  {
    set f: nat | f < n && Marked(bits, f)
  }

  lemma {:induction false} CountIsSize(bits: seq<byte>, n: nat)
    requires Pmm.Holds(bits, n)
    ensures |MarkedSet(bits, n)| == Pmm.CountUsed(bits, n)
  {
    hide Marked;
    if n == 0 {
      assert MarkedSet(bits, 0) == {};
    } else {
      CountIsSize(bits, n - 1);
      MarkedSetStep(bits, n - 1);
    }
  }

  lemma MarkedSetStep(bits: seq<byte>, n: nat)
    requires Pmm.Holds(bits, n + 1)
    ensures MarkedSet(bits, n + 1) == MarkedSet(bits, n) + (if Marked(bits, n) then {n} else {})
    ensures |MarkedSet(bits, n + 1)| == |MarkedSet(bits, n)| + (if Marked(bits, n) then 1 else 0)
  {
    hide Marked;
    assert MarkedSet(bits, n + 1) == MarkedSet(bits, n) + (if Marked(bits, n) then {n} else {});
  }

  lemma {:induction false} SameSize(at: map<Node, nat>, own: map<nat, Node>)
    requires forall n :: n in at ==> at[n] in own && own[at[n]] == n
    requires forall f :: f in own ==> own[f] in at && at[own[f]] == f
    ensures |at| == |own|
    decreases |at|
  {
    if at == map[] {
      assert forall f :: f in own ==> own[f] in at;
      assert own == map[];
    } else {
      var n :| n in at;
      var at2, own2 := at - {n}, own - {at[n]};
      SameSize(at2, own2);
      assert |at2| == |at| - 1 by { assert at2.Keys == at.Keys - {n}; }
      assert |own2| == |own| - 1 by { assert own2.Keys == own.Keys - {at[n]}; }
    }
  }

  /** A loose frame can hold anything without disturbing the tables. */
  lemma LooseWriteInv(s: VM, f: nat, content: Frame)
    requires Inv(s) && f !in s.own
    ensures var t := VM(Put(s.mem, f, content), s.at, s.own, s.kroot);
      && Inv(t)
      && (forall n, y: nat :: EntryAt(t, n, y) == EntryAt(s, n, y))
      && (forall n :: n in s.at ==> ContentOf(t, n) == ContentOf(s, n))
      && (forall n :: EntryOf(t, n) == EntryOf(s, n))
  {
    hide Inv, Shape, Up, Down, KernelShared, EntryAt, EntryOf, ContentOf;
    var t := VM(Put(s.mem, f, content), s.at, s.own, s.kroot);
    forall n, y: nat ensures EntryAt(t, n, y) == EntryAt(s, n, y) {
      LooseWriteEntry(s, f, content, n, y);
    }
    forall n | n in s.at ensures ContentOf(t, n) == ContentOf(s, n) {
      LooseWriteEntry(s, f, content, n, 0);
    }
    LooseWriteShape(s, f, content);
    LooseWriteLinks(s, t);
    InvParts(t);
  }

  lemma LooseWriteEntry(s: VM, f: nat, content: Frame, n: Node, y: nat)
    requires Inv(s) && f !in s.own
    ensures var t := VM(Put(s.mem, f, content), s.at, s.own, s.kroot);
      EntryAt(t, n, y) == EntryAt(s, n, y) && (n in s.at ==> ContentOf(t, n) == ContentOf(s, n))
  {
    hide Up, Down, KernelShared;
  }

  lemma LooseWriteShape(s: VM, f: nat, content: Frame)
    requires Inv(s) && (f in s.own ==> |s.own[f].path| == 4 && content.Page?)
    ensures Shape(VM(Put(s.mem, f, content), s.at, s.own, s.kroot))
  {
    hide Up, Down, KernelShared;
  }

  /** A page of an address space can hold any bytes. */
  lemma PageWriteInv(s: VM, n: Node, bytes: PageBytes)
    requires Inv(s) && n in s.at && |n.path| == 4
    ensures var t := VM(Put(s.mem, s.at[n], Page(bytes)), s.at, s.own, s.kroot);
      && Inv(t) && ContentOf(t, n) == Page(bytes)
      && (forall m :: m in s.at && m != n ==> ContentOf(t, m) == ContentOf(s, m))
      && (forall m :: EntryOf(t, m) == EntryOf(s, m))
  {
    hide Inv, Shape, Up, Down, KernelShared, EntryAt, EntryOf, ContentOf;
    var t := VM(Put(s.mem, s.at[n], Page(bytes)), s.at, s.own, s.kroot);
    PageOwner(s, n);
    forall m, y: nat ensures EntryAt(t, m, y) == EntryAt(s, m, y) {
      PageWriteEntry(s, n, bytes, m, y);
    }
    forall m | m in s.at && m != n ensures ContentOf(t, m) == ContentOf(s, m) {
      PageWriteEntry(s, n, bytes, m, 0);
    }
    PageWriteEntry(s, n, bytes, n, 0);
    LooseWriteShape(s, s.at[n], Page(bytes));
    LooseWriteLinks(s, t);
    InvParts(t);
  }

  lemma PageOwner(s: VM, n: Node)
    requires Inv(s) && n in s.at
    ensures s.at[n] in s.own && s.own[s.at[n]] == n
  {
    hide Up, Down, KernelShared;
  }

  lemma PageWriteEntry(s: VM, n: Node, bytes: PageBytes, m: Node, y: nat)
    requires Inv(s) && n in s.at && |n.path| == 4
    ensures var t := VM(Put(s.mem, s.at[n], Page(bytes)), s.at, s.own, s.kroot);
      && EntryAt(t, m, y) == EntryAt(s, m, y)
      && (m in s.at ==> ContentOf(t, m) == if m == n then Page(bytes) else ContentOf(s, m))
  {
    hide Up, Down, KernelShared;
    assert Placed(s, n);
    assert m in s.at ==> Placed(s, m);
  }

  /** The links between tables depend on the entries alone. */
  lemma LooseWriteLinks(s: VM, t: VM)
    requires Inv(s) && t.at == s.at && t.own == s.own && t.kroot == s.kroot
    requires forall n, y: nat :: EntryAt(t, n, y) == EntryAt(s, n, y)
    ensures Up(t) && Down(t) && KernelShared(t)
    ensures forall n :: EntryOf(t, n) == EntryOf(s, n)
  {
    hide EntryAt, Shape, Present, Writable, User, Huge;
    forall n ensures EntryOf(t, n) == EntryOf(s, n) {
    }
    forall n | n in t.at ensures EntryOk(t, n) {
      assert EntryOk(s, n);
    }
    forall n, x: nat | n in t.at ensures DownAt(t, n, x) {
      assert DownAt(s, n, x);
    }
  }

  lemma DisjointSizes(a: set<nat>, b: set<nat>, c: set<nat>)
    requires a !! b && a !! c && b !! c
    ensures |a + b + c| == |a| + |b| + |c|
  {
  }

  /** Moving f from the loose frames into the tree, and dropped the other way, moves nothing else. */
  lemma Swap(own: set<nat>, loose: set<nat>, reserved: set<nat>, f: nat, dropped: set<nat>)
    requires own !! loose && own !! reserved && loose !! reserved && f in loose && dropped <= own
    ensures var own2, loose2 := own - dropped + {f}, loose - {f} + dropped;
      && own2 !! loose2 && own2 !! reserved && loose2 !! reserved
      && forall g :: g in reserved || g in own2 || g in loose2 <==> g in reserved || g in own || g in loose
  {
  }

  class AddressSpaces {
    const pmm: Pmm.FrameAllocator
    const mem: array<Frame>
    const kernelPml4: nat
    ghost var at: map<Node, nat>
    ghost var own: map<nat, Node>
    ghost var reserved: set<nat>   // in use since before the kernel's tables were built
    ghost var loose: set<nat>      // handed out, and part of no address space

    ghost function State(): VM
      reads this, mem
    {
      VM(mem[..], at, own, kernelPml4)
    }

    /** Frame f is accounted for: kernel, address space, or loose. */
    ghost predicate Known(f: nat)
      reads this
    {
      f in reserved || f in own || f in loose
    }

    ghost predicate Separate()
      reads this
    {
      && own.Keys !! reserved && own.Keys !! loose && loose !! reserved
      && (forall f :: f in loose || f in reserved ==> f < pmm.total)
      && (forall f: nat :: f < pmm.total && f < Pmm.LOW_MEMORY / Pmm.FRAME_SIZE ==> f in reserved)
    }

    /** Everything Valid says except which bits are set. */
    ghost predicate Wired()
      reads this, mem, pmm, pmm.bitmap
    {
      pmm.Valid() && mem.Length == pmm.total && Inv(State()) && Separate()
    }

    /** No leak and no double use: the set bits are exactly the frames accounted for, except those in gone. */
    ghost predicate AccountedBut(gone: set<Node>)
      requires pmm.Valid()
      reads this, pmm, pmm.bitmap
    {
      forall f: nat | f < pmm.total :: Marked(pmm.bitmap[..], f) <==> Known(f) && !(f in own && own[f] in gone)
    }

    ghost predicate Valid()
      reads this, mem, pmm, pmm.bitmap
    {
      Wired() && AccountedBut({})
    }

    /** Within its budget, a space has a frame left for page p and one for every table missing above it. */
    lemma RoomFor(r: nat, allowed: set<Path>, p: Path)
      requires Valid() && Budget(at, |reserved| + |loose|, pmm.total, r, allowed)
      requires FullPath(p) && {p[..1], p[..2], p[..3], p} <= allowed && Node(r, p) !in at
      ensures pmm.used + 1 + Missing(at, r, p) <= pmm.total
    {
      hide Valid;
      UsedIsKnown();
      NodesCount(at, r);
      AddedPathsCount(at, r, p);
      var more := AddedPaths(at, r, p);
      assert more !! PathsOf(at, r);
      SubsetSize(PathsOf(at, r) + more, allowed);
    }

    /** The same for a page that takes no frame itself. */
    lemma RoomForTables(r: nat, allowed: set<Path>, p: Path)
      requires Valid() && Budget(at, |reserved| + |loose|, pmm.total, r, allowed)
      requires FullPath(p) && {p[..1], p[..2], p[..3]} <= allowed
      ensures pmm.used + Missing(at, r, p) <= pmm.total
    {
      hide Valid;
      UsedIsKnown();
      NodesCount(at, r);
      AddedPathsCount(at, r, p);
      var more := AddedPaths(at, r, p) - {p};
      assert |p[..1]| == 1 && |p[..2]| == 2 && |p[..3]| == 3;
      assert more !! PathsOf(at, r) && p in AddedPaths(at, r, p);
      SubsetSize(PathsOf(at, r) + more, allowed);
    }

    lemma ValidParts()
      requires Valid()
      ensures Inv(State()) && pmm.Valid() && mem.Length == pmm.total
      ensures forall n :: n in at ==> at[n] < pmm.total
    {
      hide Inv;
      OwnersInRange();
    }

    /** The number of frames in use is exactly what is accounted for. */
    lemma UsedIsKnown()
      requires Valid()
      ensures pmm.used == |reserved| + |at| + |loose|
    {
      hide Inv, Marked;
      var bits := pmm.bitmap[..];
      CountIsSize(bits, pmm.total);
      OwnersInRange();
      SameOwners();
      SameSize(at, own);
      MarkedIsKnown(bits);
      DisjointSizes(reserved, own.Keys, loose);
    }

    lemma MarkedIsKnown(bits: seq<byte>)
      requires Valid() && bits == pmm.bitmap[..]
      ensures Pmm.Holds(bits, pmm.total) && MarkedSet(bits, pmm.total) == reserved + own.Keys + loose
    {
      hide Inv, Marked;
      OwnersInRange();
      assert forall f | f in reserved + own.Keys + loose :: f < pmm.total && Known(f);
    }

    lemma OwnersInRange()
      requires Wired()
      ensures forall f :: f in own ==> f < pmm.total
      ensures forall n :: n in at ==> at[n] < pmm.total
    {
      assert Shape(State());
    }

    lemma SameOwners()
      requires Wired()
      ensures forall n :: n in at ==> at[n] in own && own[at[n]] == n
      ensures forall f :: f in own ==> own[f] in at && at[own[f]] == f
    {
      assert Shape(State());
    }

    /** vmm_init: a kernel space that identity-maps the first GiB with huge pages. */
    constructor (allocator: Pmm.FrameAllocator)
      requires allocator.Valid() && allocator.used + 3 <= allocator.total
      modifies allocator`used, allocator.bitmap
      ensures Valid() && pmm == allocator && fresh(mem) && loose == {}
      ensures reserved == MarkedSet(old(allocator.bitmap[..]), allocator.total)
      ensures forall n :: n in at ==> n.root == kernelPml4
      ensures !Marked(old(allocator.bitmap[..]), kernelPml4)
      ensures allocator.used == old(allocator.used) + 3
      ensures at.Keys == {Node(kernelPml4, []), Node(kernelPml4, [0]), Node(kernelPml4, [0, 0])}
      ensures forall n, x: nat :: Bare(State(), n, x) ==> n == Node(kernelPml4, [0, 0])
      ensures FirstGiB(mem[..], kernelPml4)
    {
      hide Inv, Marked, Bare, FirstGiB;
      pmm := allocator;
      ghost var b0 := allocator.bitmap[..];
      var k, p, d := TakeThree(allocator);
      kernelPml4 := k;
      mem := new Frame[allocator.total](_ => Table(NoEntries()));
      reserved := MarkedSet(b0, allocator.total);
      loose := {};
      at := map[Node(k, []) := k, Node(k, [0]) := p, Node(k, [0, 0]) := d];
      own := map[k := Node(k, []), p := Node(k, [0]), d := Node(k, [0, 0])];
      new;
      BuildKernel(k, p, d);
      BootAccounts(b0, k, p, d);
    }

    /** After boot the set bits are the ones set before and the three tables. */
    lemma BootAccounts(b0: seq<byte>, k: nat, p: nat, d: nat)
      requires pmm.Valid() && Pmm.Holds(b0, pmm.total) && |b0| == |pmm.bitmap[..]|
      requires mem.Length == pmm.total && Inv(State())
      requires reserved == MarkedSet(b0, pmm.total) && loose == {} && own.Keys == {k, p, d}
      requires k < pmm.total && p < pmm.total && d < pmm.total
      requires !Marked(b0, k) && !Marked(b0, p) && !Marked(b0, d)
      requires forall f: nat | f < pmm.total :: Marked(pmm.bitmap[..], f) <==> Marked(b0, f) || f in {k, p, d}
      requires forall f: nat | f < pmm.total && f < Pmm.LOW_MEMORY / Pmm.FRAME_SIZE :: Marked(b0, f)
      ensures Valid()
    {
      hide Inv;
    }

    /** The stores of vmm_init: one link per level, and the identity entries. */
    method BuildKernel(k: nat, p: nat, d: nat)
      requires k < mem.Length && p < mem.Length && d < mem.Length && k != p && k != d && p != d
      requires kernelPml4 == k
      requires at == map[Node(k, []) := k, Node(k, [0]) := p, Node(k, [0, 0]) := d]
      requires own == map[k := Node(k, []), p := Node(k, [0]), d := Node(k, [0, 0])]
      modifies mem
      ensures Inv(State()) && forall n, x: nat :: Bare(State(), n, x) ==> n == Node(kernelPml4, [0, 0])
      ensures FirstGiB(mem[..], kernelPml4)
    {
      hide Inv, Bare, Walk;
      ghost var m0 := mem[..];
      mem[k] := LinkTo(p);
      mem[p] := LinkTo(d);
      FillIdentity(d);
      assert State() == BootVM(m0, k, p, d);
      BootInv(m0, k, p, d);
      BootBare(m0, k, p, d);
      forall q | FullPath(q)
        ensures Walk(mem[..], kernelPml4, q) == if q[0] == 0 && q[1] == 0 then Mapped(512 * q[2], 0x83, false, true, true) else Unmapped
      {
        BootWalk(m0, k, p, d, q);
      }
    }

    /** One frame straight from the allocator, at boot. */
    static method TakeFree(allocator: Pmm.FrameAllocator) returns (f: nat)
      requires allocator.Valid() && allocator.used < allocator.total
      modifies allocator`used, allocator.bitmap
      ensures allocator.Valid() && f < allocator.total && !Marked(old(allocator.bitmap[..]), f)
      ensures allocator.bitmap[..] == Mark(old(allocator.bitmap[..]), f) && allocator.used == old(allocator.used) + 1
    {
      ghost var bits := allocator.bitmap[..];
      var addr := allocator.AllocFrame();
      f := addr / Pmm.FRAME_SIZE;
      if Pmm.FirstFree(bits, allocator.total, 0) == allocator.total {
        Pmm.CountAll(bits, allocator.total);
        assert false;
      }
      Pmm.CountAfterChange(bits, allocator.bitmap[..], allocator.total, f);
    }

    static method TakeThree(allocator: Pmm.FrameAllocator) returns (k: nat, p: nat, d: nat)
      requires allocator.Valid() && allocator.used + 3 <= allocator.total
      modifies allocator`used, allocator.bitmap
      ensures allocator.Valid() && allocator.used == old(allocator.used) + 3
      ensures k < allocator.total && p < allocator.total && d < allocator.total && k != p && k != d && p != d
      ensures var b0 := old(allocator.bitmap[..]);
        && !Marked(b0, k) && !Marked(b0, p) && !Marked(b0, d)
        && forall f: nat | f < allocator.total :: Marked(allocator.bitmap[..], f) <==> Marked(b0, f) || f in {k, p, d}
    {
      ghost var b0 := allocator.bitmap[..];
      k := TakeFree(allocator);
      ghost var b1 := allocator.bitmap[..];
      p := TakeFree(allocator);
      ghost var b2 := allocator.bitmap[..];
      d := TakeFree(allocator);
      assert b1 == Mark(b0, k) && b2 == Mark(b1, p) && allocator.bitmap[..] == Mark(b2, d);
    }

    /** The loop of vmm_init over the page directory. */
    method FillIdentity(d: nat)
      requires d < mem.Length
      modifies mem
      ensures mem[..] == old(mem[..])[d := Table(IdentityEntries())]
    {
      var e := NoEntries();
      var i := 0;
      while i < ENTRIES
        invariant 0 <= i <= ENTRIES && |e| == ENTRIES
        invariant forall j | 0 <= j < i :: e[j] == PTE(j * ENTRIES, PRESENT | WRITABLE | HUGE)
      {
        e := e[i := PTE(i * ENTRIES, PRESENT | WRITABLE | HUGE)];
        i := i + 1;
      }
      assert e == IdentityEntries();
      mem[d] := Table(e);
    }

    // ---- frames and tables ------------------------------------------------------------------

    /** pmm_alloc_frame where a frame is known to be free: a frame nothing else uses. */
    method AllocFrame() returns (f: nat)
      requires Valid() && pmm.used < pmm.total
      modifies this`loose, pmm`used, pmm.bitmap
      ensures Valid() && f < pmm.total && !Marked(old(pmm.bitmap[..]), f)
      ensures f !in own && f !in old(loose) && f !in reserved && loose == old(loose) + {f}
      ensures pmm.bitmap[..] == Mark(old(pmm.bitmap[..]), f) && pmm.used == old(pmm.used) + 1
    {
      hide Inv, Marked;
      ghost var bits := pmm.bitmap[..];
      var addr := pmm.AllocFrame();
      f := addr / Pmm.FRAME_SIZE;
      if Pmm.FirstFree(bits, pmm.total, 0) == pmm.total {
        Pmm.CountAll(bits, pmm.total);
        assert false;
      }
      Pmm.CountAfterChange(bits, pmm.bitmap[..], pmm.total, f);
      loose := loose + {f};
    }

    /** A frame to be used as a page; what it holds is whatever it held. */
    method AllocPage() returns (f: nat)
      requires Valid() && pmm.used < pmm.total
      modifies this`loose, pmm`used, pmm.bitmap, mem
      ensures Valid() && f < pmm.total && !Marked(old(pmm.bitmap[..]), f)
      ensures f !in own && f !in old(loose) && loose == old(loose) + {f} && mem[f].Page?
      ensures forall g | 0 <= g < mem.Length && g != f :: mem[g] == old(mem[g])
      ensures forall n :: n in at ==> ContentOf(State(), n) == ContentOf(old(State()), n)
      ensures forall n, y: nat :: EntryAt(State(), n, y) == EntryAt(old(State()), n, y)
      ensures pmm.bitmap[..] == Mark(old(pmm.bitmap[..]), f) && pmm.used == old(pmm.used) + 1
    {
      hide Inv, EntryAt, EntryOf, ContentOf, Marked;
      f := AllocFrame();
      var bytes: PageBytes := *;
      ghost var s := State();
      mem[f] := Page(bytes);
      LooseWriteInv(s, f, Page(bytes));
      assert State() == VM(Put(s.mem, f, Page(bytes)), s.at, s.own, s.kroot);
    }

    /** alloc_table: a frame zeroed as 512 empty entries. */
    method AllocTable() returns (t: nat)
      requires Valid() && pmm.used < pmm.total
      modifies this`loose, pmm`used, pmm.bitmap, mem
      ensures Valid() && t < pmm.total && !Marked(old(pmm.bitmap[..]), t)
      ensures t !in own && t !in old(loose) && t !in reserved && loose == old(loose) + {t}
      ensures mem[..] == old(mem[..])[t := Table(NoEntries())]
      ensures pmm.bitmap[..] == Mark(old(pmm.bitmap[..]), t) && pmm.used == old(pmm.used) + 1
    {
      hide Inv;
      t := AllocFrame();
      var e := if mem[t].Table? then mem[t].e else NoEntries();
      var i := 0;
      while i < ENTRIES
        invariant 0 <= i <= ENTRIES && |e| == ENTRIES
        invariant forall k | 0 <= k < i :: e[k] == PTE(0, 0)
      {
        e := e[i := PTE(0, 0)];
        i := i + 1;
      }
      assert e == NoEntries();
      ghost var s := State();
      mem[t] := Table(e);
      LooseWriteInv(s, t, Table(NoEntries()));
      assert State() == VM(Put(s.mem, t, Table(NoEntries())), s.at, s.own, s.kroot);
    }
  
    // ---- mapping ------------------------------------------------------------------------------

    lemma ChildIfPresent(n: Node, x: nat)
      requires Inv(State()) && n in at && |n.path| < 4 && x < ENTRIES && !Bare(State(), n, x)
      requires n.path == [] ==> x != 0 && n.root != kernelPml4
      ensures at[n] < mem.Length && mem[at[n]].Table?
      ensures EntryAt(State(), n, x) == mem[at[n]].e[x] == EntryOf(State(), Child(n, x))
      ensures Present(mem[at[n]].e[x]) <==> Child(n, x) in at
      ensures Child(n, x) in at ==> mem[at[n]].e[x].frame == at[Child(n, x)] && (|n.path| < 3 ==> !Huge(mem[at[n]].e[x]))
    {
      hide Shape, KernelShared, Present, Huge, User, Writable, EntryAt;
      var s := State();
      TableEntries(s, n, x);
      ParentOfChild(n, x);
      assert DownAt(s, n, x);
      assert EntryOk(s, Child(n, x));
    }

    /** Outside the kernel's tables every present entry leads to a node. */
    lemma UserEntry(n: Node, x: nat)
      requires Inv(State()) && n in at && |n.path| < 4 && x < ENTRIES && n.root != kernelPml4 && (n.path == [] ==> x != 0)
      ensures at[n] < mem.Length && mem[at[n]].Table?
      ensures Present(mem[at[n]].e[x]) <==> Child(n, x) in at
      ensures Child(n, x) in at ==> mem[at[n]].e[x].frame == at[Child(n, x)] && (|n.path| < 3 ==> !Huge(mem[at[n]].e[x]))
    {
      hide Inv, Bare, Present, Huge, EntryAt, EntryOf;
      NoBareInUser(State(), n, x);
      ChildIfPresent(n, x);
    }

    /** The node that entry x of n leads to: entry 0 of every root leads into the kernel's tables. */
    ghost function Target(n: Node, x: nat): Node {
      if n.path == [] && x == 0 then Node(kernelPml4, [0]) else Child(n, x)
    }

    /** The space whose tables a walk from root to p runs through. */
    ghost function Home(root: nat, p: Path): nat {
      if FullPath(p) && p[0] == 0 then kernelPml4 else root
    }

    /** next_table may go down entry idx of n, whose frame is t: no huge page there, and a frame if a table is missing. */
    ghost predicate CanDescend(n: Node, t: nat, idx: nat, flags: bv12, p: Path)
      reads this, mem, pmm
    {
      && n in at && at[n] == t && |n.path| < 3 && idx < ENTRIES && FullPath(p) && n.path + [idx] <= p
      && (n.path == [] && n.root == kernelPml4 ==> idx == 0)
      && (Target(n, idx).root == kernelPml4 ==> flags & USER == 0)
      && !Bare(State(), n, idx)
      && (n.path != [] && flags & USER != 0 ==> User(EntryOf(State(), n)))
      && (Target(n, idx) !in at ==> pmm.used < pmm.total)
    }

    lemma LinkFlags(flags: bv12)
      ensures var l := PRESENT | WRITABLE | (flags & USER);
        l & PRESENT != 0 && l & WRITABLE != 0 && l & HUGE == 0 && (l & USER != 0 <==> flags & USER != 0)
    {
    }

    /** Frames only come into use, and loose pages keep their bytes. */
    twostate predicate OnlyTaken()
      requires old(pmm.Valid()) && pmm.Valid()
      reads this, pmm, pmm.bitmap, mem
    {
      && (forall f: nat | f < pmm.total && Marked(old(pmm.bitmap[..]), f) :: Marked(pmm.bitmap[..], f))
      && (forall f | f in loose && f in old(loose) && f < mem.Length :: mem[f] == old(mem[f]))
    }

    /** next_table: the table below entry idx of node n, made on demand and opened to user mode if asked. */
    method NextTable(ghost n: Node, t: nat, idx: nat, flags: bv12, ghost p: Path) returns (nt: nat)
      requires Valid() && CanDescend(n, t, idx, flags, p)
      modifies this`at, this`own, this`loose, pmm`used, pmm.bitmap, mem
      ensures Valid() && loose == old(loose) && OnlyTaken()
      ensures at == old(at)[Target(n, idx) := nt] && Grew(old(State()), State(), Target(n, idx).root, p)
      ensures flags & USER != 0 ==> User(EntryOf(State(), Target(n, idx)))
      ensures FreshFrames(old(pmm.bitmap[..]), pmm.total, old(at), at)
      ensures Target(n, idx) in old(at) ==> nt == old(at[Target(n, idx)])
      ensures pmm.used == old(pmm.used) + (if Target(n, idx) in old(at) then 0 else 1)
    {
      hide Inv, Grew, User, EntryOf, EntryAt, Marked, Bare;
      PresentEntry(n, idx);
      if !Present(mem[t].e[idx]) {
        nt := NewTable(n, t, idx, flags, p);
      } else {
        nt := mem[t].e[idx].frame;
        OpenTable(n, t, idx, flags, p);
      }
    }

    /** The entry next_table looks at is present exactly if it leads to a node, and then names its frame. */
    lemma PresentEntry(n: Node, x: nat)
      requires Inv(State()) && n in at && |n.path| < 4 && x < ENTRIES && !Bare(State(), n, x)
      requires n.path == [] && n.root == kernelPml4 ==> x == 0
      ensures at[n] < mem.Length && mem[at[n]].Table?
      ensures Present(mem[at[n]].e[x]) <==> Target(n, x) in at
      ensures Target(n, x) in at ==> mem[at[n]].e[x].frame == at[Target(n, x)]
    {
      hide Inv, EntryOf, Present, Bare, Huge;
      if n.path == [] && x == 0 {
        SharedEntryIs(n);
      } else {
        ChildIfPresent(n, x);
      }
    }

    lemma SharedEntryIs(n: Node)
      requires Inv(State()) && n in at && n.path == []
      ensures at[n] < mem.Length && mem[at[n]].Table? && Node(kernelPml4, [0]) in at
      ensures Present(mem[at[n]].e[0]) && mem[at[n]].e[0].frame == at[Node(kernelPml4, [0])]
    {
      hide Shape, Down, EntryAt, Present, User, Huge, Writable;
      var s, c := State(), Node(kernelPml4, [0]);
      TableEntries(s, n, 0);
      assert EntryOk(s, c);
      assert Parent(c) == Node(kernelPml4, []) && Last(c) == 0;
    }

    /** The first half of next_table: allocate the missing table and link it. */
    method NewTable(ghost n: Node, t: nat, idx: nat, flags: bv12, ghost p: Path) returns (nt: nat)
      requires Valid() && CanDescend(n, t, idx, flags, p) && Target(n, idx) !in at
      modifies this`at, this`own, this`loose, pmm`used, pmm.bitmap, mem
      ensures Valid() && loose == old(loose) && OnlyTaken()
      ensures at == old(at)[Target(n, idx) := nt] && Grew(old(State()), State(), Target(n, idx).root, p)
      ensures flags & USER != 0 ==> User(EntryOf(State(), Target(n, idx)))
      ensures nt < pmm.total && !Marked(old(pmm.bitmap[..]), nt)
      ensures pmm.used == old(pmm.used) + 1
    {
      hide Inv, Grew, User, EntryOf, EntryAt, AddChild, Bare, Marked, CanAdd;
      ghost var s := State();
      KernelEntryThere();
      nt := AllocTable();
      ghost var s1 := State();
      OwnersInRange();
      LooseGrew(s, nt, Table(NoEntries()), n.root, p);
      assert s1 == VM(Put(s.mem, nt, Table(NoEntries())), s.at, s.own, s.kroot);
      var link := PRESENT | WRITABLE | (flags & USER);
      LinkFlags(flags);
      CanAddTable(s1, n, idx, nt, link);
      TableThere(s1, n);
      GrewBare(s, s1, n.root, p, n, idx);
      Link(n, t, idx, nt, link, p);
      GrewTransitive(s, s1, State(), n.root, p);
      UserOfLink(nt, link);
    }

    lemma KernelEntryThere()
      requires Inv(State())
      ensures Node(kernelPml4, [0]) in at
    {
    }

    lemma LooseGrew(s: VM, f: nat, content: Frame, root: nat, p: Path)
      requires Inv(s) && f !in s.own
      ensures var t := VM(Put(s.mem, f, content), s.at, s.own, s.kroot);
        Inv(t) && Grew(s, t, root, p) && forall n :: EntryOf(t, n) == EntryOf(s, n)
    {
      hide Inv, EntryOf, EntryAt, ContentOf;
      LooseWriteInv(s, f, content);
    }

    /** Store PTE(f, flags) as entry idx of node n: the loose frame f joins the tree, a page it replaces becomes loose. */
    method Link(ghost n: Node, t: nat, idx: nat, f: nat, flags: bv12, ghost p: Path)
      requires Valid() && n in at && at[n] == t && t < mem.Length && mem[t].Table? && idx < ENTRIES
      requires f in loose && f < mem.Length && CanAdd(State(), n, idx, f, flags, mem[f])
      requires !Bare(State(), n, idx) && FullPath(p) && Child(n, idx).path <= p
      modifies this`at, this`own, this`loose, mem
      ensures Valid() && at == old(at)[Child(n, idx) := f]
      ensures loose == old(loose) - {f} + (if Child(n, idx) in old(at) then {old(at[Child(n, idx)])} else {})
      ensures Grew(old(State()), State(), n.root, p)
      ensures EntryOf(State(), Child(n, idx)) == PTE(f, flags)
      ensures forall g | 0 <= g < mem.Length && g !in old(own) :: mem[g] == old(mem[g])
    {
      hide Inv, Grew, CanAdd, EntryOf, Marked, Bare;
      ghost var s := State();
      ghost var c := Child(n, idx);
      SameOwners();
      OwnersInRange();
      assert f != t;
      mem[t] := Table(mem[t].e[idx := PTE(f, flags)]);
      ghost var dropped := if c in at then {at[c]} else {};
      Swap(own.Keys, loose, reserved, f, dropped);
      own := Disowned(s, c)[f := c];
      loose := loose - {f} + dropped;
      at := at[c := f];
      assert own.Keys == s.own.Keys - dropped + {f};
      assert State().mem == SetEntry(Put(s.mem, f, s.mem[f]), t, idx, PTE(f, flags));
      AddChildInv(s, n, idx, f, flags, s.mem[f]);
      AddChildGrew(s, n, idx, f, flags, s.mem[f], p);
    }

    lemma UserOfLink(f: nat, flags: bv12)
      ensures User(PTE(f, flags)) <==> flags & USER != 0
    {
    }

    lemma CanAddTable(s: VM, n: Node, idx: nat, f: nat, link: bv12)
      requires Inv(s) && n in s.at && |n.path| < 3 && idx < ENTRIES && (n.path == [] ==> idx != 0 && n.root != s.kroot)
      requires f < |s.mem| && f !in s.own && Child(n, idx) !in s.at
      requires link & PRESENT != 0 && link & WRITABLE != 0 && link & HUGE == 0
      requires n.path != [] && link & USER != 0 ==> User(EntryOf(s, n))
      ensures CanAdd(s, n, idx, f, link, Table(NoEntries()))
    {
      hide Inv;
    }

    /** The second half of next_table: table[index] |= flags & USER. */
    method OpenTable(ghost n: Node, t: nat, idx: nat, flags: bv12, ghost p: Path)
      requires Valid() && CanDescend(n, t, idx, flags, p) && Target(n, idx) in at
      modifies mem
      ensures Valid() && OnlyTaken() && Grew(old(State()), State(), Target(n, idx).root, p)
      ensures flags & USER != 0 ==> User(EntryOf(State(), Target(n, idx)))
    {
      hide Inv, Grew, User, EntryOf, EntryAt, Bare, Marked;
      PresentEntry(n, idx);
      OwnersInRange();
      SameOwners();
      if flags & USER == 0 {
        NoOpening(mem[t].e[idx].flags, flags);
        StoreSame(t, idx);
        GrewRefl(State(), Target(n, idx).root, p);
      } else {
        OpenToUserMode(n, t, idx, flags, p);
      }
    }

    /** Storing an entry that is already there changes nothing. */
    method StoreSame(t: nat, idx: nat)
      requires Valid() && t < mem.Length && mem[t].Table? && idx < ENTRIES
      modifies mem
      ensures Valid() && mem[..] == old(mem[..]) && State() == old(State())
    {
      hide Inv, Marked;
      ghost var m := mem[..];
      var e := mem[t].e[idx];
      mem[t] := Table(mem[t].e[idx := PTE(e.frame, e.flags)]);
      assert m[t].e[idx := e] == m[t].e;
      assert mem[..] == m;
    }

    method OpenToUserMode(ghost n: Node, t: nat, idx: nat, flags: bv12, ghost p: Path)
      requires Valid() && CanDescend(n, t, idx, flags, p) && Target(n, idx) in at && flags & USER != 0
      modifies mem
      ensures Valid() && OnlyTaken() && Grew(old(State()), State(), Target(n, idx).root, p)
      ensures User(EntryOf(State(), Target(n, idx)))
    {
      hide Inv, Grew, User, EntryOf, EntryAt, Bare, Marked;
      ghost var s := State();
      ghost var c := Child(n, idx);
      ChildIfPresent(n, idx);
      OwnersInRange();
      SameOwners();
      ParentOfChild(n, idx);
      var e := mem[t].e[idx];
      mem[t] := Table(mem[t].e[idx := PTE(e.frame, e.flags | (flags & USER))]);
      SomeOpening(flags);
      OpenIsStore(s, n, idx, e);
      assert State() == OpenToUser(s, c);
      OpenInv(s, c);
      OpenGrew(s, c, p);
      OpenEntryOf(s, c, c);
      UserOfLink(e.frame, e.flags | USER);
      FlagBits(e.flags);
    }

    lemma OpenIsStore(s: VM, n: Node, idx: nat, e: PTE)
      requires n in s.at && |n.path| < 3 && idx < ENTRIES && s.at[n] < |s.mem| && s.mem[s.at[n]].Table?
      requires e == s.mem[s.at[n]].e[idx]
      ensures Parent(Child(n, idx)) == n
      ensures OpenToUser(s, Child(n, idx)) ==
        VM(s.mem[s.at[n] := Table(s.mem[s.at[n]].e[idx := PTE(e.frame, e.flags | USER)])], s.at, s.own, s.kroot)
    {
      ParentOfChild(n, idx);
      assert EntryOf(s, Child(n, idx)) == e;
    }

    lemma NoOpening(a: bv12, flags: bv12)
      requires flags & USER == 0
      ensures a | (flags & USER) == a
    {
    }

    lemma SomeOpening(flags: bv12)
      requires flags & USER != 0
      ensures flags & USER == USER
    {
    }
  
    /** map_in has a way to p: no user page in the shared half, none of the kernel's above it, no huge page in between. */
    ghost predicate Mappable(root: nat, p: Path, flags: bv12)
      reads this, mem
    {
      && Node(root, []) in at && FullPath(p) && (root == kernelPml4 ==> p[0] == 0)
      && (p[0] == 0 ==> flags & USER == 0) && Clear(State(), p)
    }

    /** map_in: the loose page f mapped at virt; a page mapped there before becomes loose. */
    method MapIn(root: nat, virt: nat, f: nat, flags: bv12)
      requires Valid() && Mappable(root, Indices(virt), flags) && ClearLeaf(State(), Indices(virt))
      requires f in loose && mem[f].Page? && pmm.used + Missing(at, Home(root, Indices(virt)), Indices(virt)) <= pmm.total
      modifies this`at, this`own, this`loose, pmm`used, pmm.bitmap, mem
      ensures Valid() && pmm.used == old(pmm.used) + Missing(old(at), Home(root, Indices(virt)), Indices(virt))
      ensures var leaf := Node(Home(root, Indices(virt)), Indices(virt));
        && leaf in at && at[leaf] == f
        && EntryOf(State(), leaf) == PTE(f, flags | PRESENT)
        && ContentOf(State(), leaf) == old(mem[f])
        && loose == old(loose) - {f} + (if leaf in old(at) then {old(at[leaf])} else {})
      ensures Grew(old(State()), State(), Home(root, Indices(virt)), Indices(virt))
      ensures OnlyTaken()
      ensures FreshFrames(old(pmm.bitmap[..]), pmm.total, old(at), at - {Node(Home(root, Indices(virt)), Indices(virt))})
    {
      hide Inv, Grew, EntryOf, EntryAt, ContentOf, Marked, User, Indices, Clear, ClearLeaf, Missing;
      ghost var s0 := State();
      ghost var p := Indices(virt);
      ghost var home := Home(root, p);
      var i, j, k, l := virt / PML4_SPAN % ENTRIES, virt / PDPT_SPAN % ENTRIES, virt / PD_SPAN % ENTRIES, virt / PAGE_SIZE % ENTRIES;
      FourIndices(virt, i, j, k, l);
      var pt := BuildPath(root, i, j, k, flags, p);
      ghost var s3 := State();
      ClearKept(s0, s3, home, p, p);
      LeafNotBare(s3, root, p);
      MapLeaf(home, p, pt, l, f, flags);
      GrewTransitive(s0, s3, State(), home, p);
    }

    /** The three next_table calls of map_in. */
    method BuildPath(root: nat, i: nat, j: nat, k: nat, flags: bv12, ghost p: Path) returns (pt: nat)
      requires Valid() && Mappable(root, p, flags) && p[..3] == [i, j, k]
      requires pmm.used + Missing(at, Home(root, p), p) <= pmm.total
      modifies this`at, this`own, this`loose, pmm`used, pmm.bitmap, mem
      ensures Valid() && loose == old(loose) && pmm.used == old(pmm.used) + Missing(old(at), Home(root, p), p)
      ensures PathBuilt(old(at), at, Home(root, p), p, pt) && FreshFrames(old(pmm.bitmap[..]), pmm.total, old(at), at)
      ensures flags & USER != 0 ==> User(EntryOf(State(), Node(Home(root, p), p[..3])))
      ensures Grew(old(State()), State(), Home(root, p), p) && OnlyTaken()
    {
      hide Valid, Inv, Grew, EntryOf, EntryAt, Marked, User, Bare, Clear, Target, Missing, PathBuilt, FreshFrames, Home;
      ghost var s0, home := State(), Home(root, p);
      ghost var b0, used0 := pmm.bitmap[..], pmm.used;
      ValidParts();
      MissingParts(at, home, p);
      FirstStep(root, p, i, j, k);
      RootFrame(s0, root);
      NotBareOn(s0, root, p);
      var pdpt := NextTable(Node(root, []), root, i, flags, p);
      ghost var s1, b1 := State(), pmm.bitmap[..];
      ClearKept(s0, s1, home, p, p);
      MissingParts(at, home, p);
      pt := BuildLower(root, p, pdpt, j, k, flags);
      PathBuiltFrom(s0.at, s1.at, at, home, p, pt);
      FreshFramesTwice(b0, b1, pmm.total, s0.at, s1.at, at);
      GrewTransitive(s0, s1, State(), home, p);
    }

    /** The second and third next_table calls of map_in. */
    method BuildLower(ghost root: nat, ghost p: Path, pdpt: nat, j: nat, k: nat, flags: bv12) returns (pt: nat)
      requires Valid() && FullPath(p) && j == p[1] && k == p[2] && (root == kernelPml4 ==> p[0] == 0) && Clear(State(), p)
      requires Node(Home(root, p), p[..1]) in at && at[Node(Home(root, p), p[..1])] == pdpt && (p[0] == 0 ==> flags & USER == 0)
      requires flags & USER != 0 ==> User(EntryOf(State(), Node(Home(root, p), p[..1])))
      requires pmm.used + Missing(at, Home(root, p), p) <= pmm.total
      modifies this`at, this`own, this`loose, pmm`used, pmm.bitmap, mem
      ensures Valid() && loose == old(loose) && pmm.used == old(pmm.used) + Missing(old(at), Home(root, p), p)
      ensures PathBuilt(old(at), at, Home(root, p), p, pt) && FreshFrames(old(pmm.bitmap[..]), pmm.total, old(at), at)
      ensures flags & USER != 0 ==> User(EntryOf(State(), Node(Home(root, p), p[..3])))
      ensures Grew(old(State()), State(), Home(root, p), p) && OnlyTaken()
    {
      hide Valid, Inv, Grew, EntryOf, EntryAt, Marked, User, Bare, Clear, Target, Missing, PathBuilt, FreshFrames, Home;
      ghost var s1, home, b1 := State(), Home(root, p), pmm.bitmap[..];
      MissingParts(at, home, p);
      var pd := StepDown(root, p, 1, pdpt, j, flags);
      ghost var s2, b2 := State(), pmm.bitmap[..];
      pt := StepDown(root, p, 2, pd, k, flags);
      FreshFramesTwice(b1, b2, pmm.total, s1.at, s2.at, at);
      GrewTransitive(s1, s2, State(), home, p);
      TwoSteps(s1.at, pd, pt, home, p);
    }

    lemma TwoSteps(at0: map<Node, nat>, x2: nat, x3: nat, r: nat, p: Path)
      requires FullPath(p)
      requires var n2, n3 := Node(r, p[..2]), Node(r, p[..3]); (n2 in at0 ==> x2 == at0[n2]) && (n3 in at0 ==> x3 == at0[n3])
      ensures var n2, n3 := Node(r, p[..2]), Node(r, p[..3]); PathBuilt(at0, at0[n2 := x2][n3 := x3], r, p, x3)
    {
      assert |p[..2]| == 2 && |p[..3]| == 3;
    }

    lemma PathBuiltFrom(at0: map<Node, nat>, at1: map<Node, nat>, at2: map<Node, nat>, r: nat, p: Path, pt: nat)
      requires FullPath(p) && PathBuilt(at1, at2, r, p, pt)
      requires (Node(r, p) in at1 <==> Node(r, p) in at0) && (forall n | n in at0 :: n in at1 && at1[n] == at0[n])
      ensures PathBuilt(at0, at2, r, p, pt) && forall n | n in at1 :: n in at2 && at2[n] == at1[n]
    {
    }

    lemma MissingParts(at0: map<Node, nat>, r: nat, p: Path)
      requires FullPath(p)
      ensures var n1, n2, n3 := Node(r, p[..1]), Node(r, p[..2]), Node(r, p[..3]);
        && n1 != n2 && n1 != n3 && n2 != n3 && Node(r, p) !in {n1, n2, n3}
        && Missing(at0, r, p) == (if n1 in at0 then 0 else 1) + (if n2 in at0 then 0 else 1) + (if n3 in at0 then 0 else 1)
    {
      assert |p[..1]| == 1 && |p[..2]| == 2 && |p[..3]| == 3;
    }

    /** One next_table call below the first, on the way to p. */
    method StepDown(ghost root: nat, ghost p: Path, ghost m: nat, t: nat, idx: nat, flags: bv12) returns (nt: nat)
      requires Valid() && FullPath(p) && 1 <= m < 3 && idx == p[m] && (root == kernelPml4 ==> p[0] == 0) && Clear(State(), p)
      requires Node(Home(root, p), p[..m]) in at && at[Node(Home(root, p), p[..m])] == t && (p[0] == 0 ==> flags & USER == 0)
      requires flags & USER != 0 ==> User(EntryOf(State(), Node(Home(root, p), p[..m])))
      requires Node(Home(root, p), p[..m + 1]) !in at ==> pmm.used < pmm.total
      modifies this`at, this`own, this`loose, pmm`used, pmm.bitmap, mem
      ensures Valid() && loose == old(loose) && OnlyTaken() && Clear(State(), p)
      ensures at == old(at)[Node(Home(root, p), p[..m + 1]) := nt] && Grew(old(State()), State(), Home(root, p), p)
      ensures flags & USER != 0 ==> User(EntryOf(State(), Node(Home(root, p), p[..m + 1])))
      ensures var n := Node(Home(root, p), p[..m + 1]);
        && pmm.used == old(pmm.used) + (if n in old(at) then 0 else 1)
        && (n in old(at) ==> nt == old(at[n])) && FreshFrames(old(pmm.bitmap[..]), pmm.total, old(at), at)
    {
      hide Inv, Grew, EntryOf, EntryAt, ContentOf, Marked, User, Bare, Clear;
      ghost var s, home := State(), Home(root, p);
      assert p[..m] + [idx] == p[..m + 1] && |p[..m]| == m && p[..m + 1] <= p;
      NotBareOn(s, root, p);
      HomeOfUser(root, p);
      nt := NextTable(Node(home, p[..m]), t, idx, flags, p);
      ClearKept(s, State(), home, p, p);
    }

    lemma HomeOfUser(root: nat, p: Path)
      requires FullPath(p) && (root == kernelPml4 ==> p[0] == 0)
      ensures Home(root, p) == kernelPml4 <==> p[0] == 0
    {
    }

    lemma FirstStep(root: nat, p: Path, i: nat, j: nat, k: nat)
      requires FullPath(p) && p[..3] == [i, j, k] && (root == kernelPml4 ==> p[0] == 0)
      ensures i == p[0] && j == p[1] && k == p[2]
      ensures Target(Node(root, []), i) == Node(Home(root, p), p[..1]) && [] + [i] == p[..1] <= p
      ensures Target(Node(root, []), i).root == kernelPml4 ==> p[0] == 0
      ensures |p[..1]| == 1 && |p[..2]| == 2 && |p[..3]| == 3 && |p| == 4
    {
      assert p[..3][0] == p[0] && p[..3][1] == p[1] && p[..3][2] == p[2];
    }

    lemma NotBareOn(s: VM, root: nat, p: Path)
      requires Inv(s) && Clear(s, p) && FullPath(p) && s.kroot == kernelPml4 && (root == kernelPml4 ==> p[0] == 0)
      ensures !Bare(s, Node(root, []), p[0])
      ensures forall k | 1 <= k < 3 :: !Bare(s, Node(Home(root, p), p[..k]), p[k])
    {
      hide Inv, Bare;
      NoBareInUser(s, Node(root, []), p[0]);
      if p[0] != 0 && root != s.kroot {
        forall k | 1 <= k < 3 ensures !Bare(s, Node(root, p[..k]), p[k]) {
          NoBareInUser(s, Node(root, p[..k]), p[k]);
        }
      }
    }

    lemma LeafNotBare(s: VM, root: nat, p: Path)
      requires Inv(s) && ClearLeaf(s, p) && FullPath(p) && s.kroot == kernelPml4 && (root == kernelPml4 ==> p[0] == 0)
      ensures !Bare(s, Node(Home(root, p), p[..3]), p[3])
    {
      hide Inv, Bare;
      if p[0] != 0 {
        NoBareInUser(s, Node(root, p[..3]), p[3]);
      }
    }

    lemma FourIndices(virt: nat, i: nat, j: nat, k: nat, l: nat)
      requires i == virt / PML4_SPAN % ENTRIES && j == virt / PDPT_SPAN % ENTRIES && k == virt / PD_SPAN % ENTRIES && l == virt / PAGE_SIZE % ENTRIES
      ensures Indices(virt) == [i, j, k, l] && FullPath([i, j, k, l])
      ensures [i] <= [i, j, k, l] && [i, j] <= [i, j, k, l] && [i, j, k] <= [i, j, k, l]
    {
    }

    /** The last store of map_in, into the page table pt of node [i, j, k]. */
    method MapLeaf(ghost home: nat, ghost p: Path, pt: nat, l: nat, f: nat, flags: bv12)
      requires Valid() && FullPath(p) && p[3] == l && !Bare(State(), Node(home, p[..3]), l)
      requires Node(home, p[..3]) in at && at[Node(home, p[..3])] == pt
      requires f in loose && mem[f].Page? && (flags & USER != 0 ==> User(EntryOf(State(), Node(home, p[..3]))))
      modifies this`at, this`own, this`loose, mem
      ensures Valid() && at == old(at)[Node(home, p) := f]
      ensures EntryOf(State(), Node(home, p)) == PTE(f, flags | PRESENT)
      ensures ContentOf(State(), Node(home, p)) == old(mem[f])
      ensures loose == old(loose) - {f} + (if Node(home, p) in old(at) then {old(at[Node(home, p)])} else {})
      ensures Grew(old(State()), State(), home, p)
      ensures forall g | 0 <= g < mem.Length && g !in old(own) :: mem[g] == old(mem[g])
    {
      hide Inv, Grew, EntryOf, EntryAt, User, Bare, Marked;
      ghost var n3 := Node(home, p[..3]);
      assert Child(n3, l) == Node(home, p) by { assert p[..3] + [p[3]] == p; }
      TableThere(State(), n3);
      CanAddPage(State(), n3, l, f, flags | PRESENT, mem[f], flags);
      Link(n3, pt, l, f, flags | PRESENT, p);
    }

    lemma CanAddPage(s: VM, n: Node, l: nat, f: nat, leaf: bv12, content: Frame, flags: bv12)
      requires Inv(s) && n in s.at && |n.path| == 3 && l < ENTRIES
      requires f < |s.mem| && f !in s.own && content.Page? && leaf == flags | PRESENT
      requires flags & USER != 0 ==> User(EntryOf(s, n))
      ensures CanAdd(s, n, l, f, leaf, content)
    {
      hide Inv, EntryOf, User;
      FlagBits(flags);
    }
  
    /**
     * vmm_map_page_in, and vmm_map_page with the kernel's root: a one-point update of the flat page
     * map. The page then translates to the given frame with exactly the given rights, from 2^39 on in
     * this space alone, below it in every space; every other page of every space translates as before.
     */
    method MapPageIn(root: nat, virt: nat, phys: nat, flags: bv12)
      requires Valid() && Mappable(root, Indices(virt), flags) && ClearLeaf(State(), Indices(virt))
      requires phys / PAGE_SIZE in loose && mem[phys / PAGE_SIZE].Page?
      requires pmm.used + Missing(at, Home(root, Indices(virt)), Indices(virt)) <= pmm.total
      modifies this`at, this`own, this`loose, pmm`used, pmm.bitmap, mem
      ensures Valid() && pmm.used == old(pmm.used) + Missing(old(at), Home(root, Indices(virt)), Indices(virt))
      ensures Grew(old(State()), State(), Home(root, Indices(virt)), Indices(virt))
      ensures var leaf := Node(Home(root, Indices(virt)), Indices(virt)); leaf in at && at[leaf] == phys / PAGE_SIZE
      ensures forall r: nat, q | Node(r, []) in old(at) && FullPath(q) ::
        Walk(mem[..], r, q) ==
          if q == Indices(virt) && (r == root || q[0] == 0) then
            Mapped(phys / PAGE_SIZE, flags | PRESENT, flags & USER != 0, flags & WRITABLE != 0, false)
          else Walk(old(mem[..]), r, q)
      ensures loose == old(loose) - {phys / PAGE_SIZE}
        + (var leaf := Node(Home(root, Indices(virt)), Indices(virt)); if leaf in old(at) then {old(at[leaf])} else {})
    {
      hide Inv, Grew, EntryOf, EntryAt, ContentOf, Marked, Indices, Clear, ClearLeaf;
      ghost var s, home := State(), Home(root, Indices(virt));
      HomeRoot(root, Indices(virt));
      MapIn(root, virt, phys / PAGE_SIZE, flags);
      ghost var t := State();
      forall r: nat, q | Node(r, []) in s.at && FullPath(q)
        ensures Walk(t.mem, r, q) ==
          if q == Indices(virt) && (r == root || q[0] == 0) then
            Mapped(phys / PAGE_SIZE, flags | PRESENT, flags & USER != 0, flags & WRITABLE != 0, false)
          else Walk(s.mem, r, q)
      {
        MapIsPointUpdate(s, t, home, Indices(virt), r, q);
        FlagBits(flags);
      }
    }

    lemma HomeRoot(root: nat, p: Path)
      requires Inv(State()) && Node(root, []) in at && FullPath(p) && (root == kernelPml4 ==> p[0] == 0)
      ensures Node(Home(root, p), []) in at && (p[0] == 0 <==> Home(root, p) == kernelPml4)
    {
      hide Up, Down, KernelShared;
    }

    /**
     * vmm_map_page of memory the frame allocator does not hand out: the page below 2^39 translates to
     * that memory in every space, every other page of every space as before, and no frame changes hands
     * but those of missing tables.
     */
    method MapDevice(virt: nat, phys: nat, flags: bv12)
      requires Valid() && Mappable(kernelPml4, Indices(virt), flags) && Node(kernelPml4, Indices(virt)) !in at
      requires pmm.used + Missing(at, kernelPml4, Indices(virt)) <= pmm.total
      modifies this`at, this`own, this`loose, pmm`used, pmm.bitmap, mem
      ensures Valid() && loose == old(loose) && pmm.used == old(pmm.used) + Missing(old(at), kernelPml4, Indices(virt))
      ensures TablesAdded(old(at), at, kernelPml4, Indices(virt))
      ensures forall q :: Clear(old(State()), q) ==> Clear(State(), q)
      ensures forall r: nat, q | Node(r, []) in old(at) && FullPath(q) ::
        Walk(mem[..], r, q) ==
          if q == Indices(virt) then Mapped(phys / PAGE_SIZE, flags | PRESENT, false, flags & WRITABLE != 0, false)
          else Walk(old(mem[..]), r, q)
    {
      hide Inv, Grew, EntryOf, EntryAt, ContentOf, Marked, Indices, Clear, Bare, Missing, Walk;
      ghost var s, p := State(), Indices(virt);
      var i, j, k, l := virt / PML4_SPAN % ENTRIES, virt / PDPT_SPAN % ENTRIES, virt / PD_SPAN % ENTRIES, virt / PAGE_SIZE % ENTRIES;
      FourIndices(virt, i, j, k, l);
      var pt := BuildPath(kernelPml4, i, j, k, flags, p);
      ghost var m := State();
      StoreDevice(p, pt, l, phys / PAGE_SIZE, flags);
      TablesOnly(s, m, kernelPml4, p);
      forall q ensures Clear(s, q) ==> Clear(m, q) {
        ClearKept(s, m, kernelPml4, p, q);
      }
      forall r: nat, q | Node(r, []) in s.at && FullPath(q) && q != p ensures Node(r, []) in m.at && Walk(m.mem, r, q) == Walk(s.mem, r, q) {
        MapElsewhere(s, m, kernelPml4, p, r, q);
      }
    }

    lemma TablesOnly(s: VM, t: VM, r: nat, p: Path)
      requires Grew(s, t, r, p) && FullPath(p) && Node(r, p) !in s.at && Node(r, p) !in t.at
      ensures TablesAdded(s.at, t.at, r, p)
    {
      hide EntryOf, EntryAt, SameBare;
      forall n | n in t.at && n !in s.at ensures n.path in {p[..1], p[..2], p[..3]} {
        assert n.path == p[..|n.path|] && p[..4] == p;
      }
    }

    /** The last store of map_in when the page is no frame of the allocator's. */
    method StoreDevice(ghost p: Path, pt: nat, l: nat, f: nat, flags: bv12)
      requires Valid() && FullPath(p) && p[0] == 0 && l == p[3] && flags & USER == 0
      requires Node(kernelPml4, p[..3]) in at && at[Node(kernelPml4, p[..3])] == pt && Node(kernelPml4, p) !in at
      modifies mem
      ensures Valid() && (forall q :: Clear(old(State()), q) ==> Clear(State(), q))
      ensures forall r: nat, q | Node(r, []) in at && FullPath(q) ::
        Walk(mem[..], r, q) ==
          if q == p then Mapped(f, flags | PRESENT, false, flags & WRITABLE != 0, false) else Walk(old(mem[..]), r, q)
    {
      hide Inv, EntryOf, EntryAt, Marked, Walk, SetBare, CanSetBare, Clear;
      ghost var s, n, e := State(), Node(kernelPml4, p[..3]), PTE(f, flags | PRESENT);
      DeviceEntry(s, p, e, flags);
      TableThere(s, n);
      mem[pt] := Table(mem[pt].e[l := PTE(f, flags | PRESENT)]);
      BareIsStore(s, n, l, e);
      SetBareInv(s, n, l, e);
      forall q ensures Clear(s, q) ==> Clear(State(), q) {
        if Clear(s, q) {
          BareKeepsClear(s, n, l, e, q);
        }
      }
      forall r: nat, q | Node(r, []) in at && FullPath(q)
        ensures Walk(mem[..], r, q) == if q == p then Mapped(f, flags | PRESENT, false, flags & WRITABLE != 0, false) else Walk(s.mem, r, q)
      {
        BareIsPointUpdate(s, p, e, r, q);
        FlagBits(flags);
      }
    }

    lemma DeviceEntry(s: VM, p: Path, e: PTE, flags: bv12)
      requires Inv(s) && FullPath(p) && flags & USER == 0 && e.flags == flags | PRESENT
      requires Node(s.kroot, p[..3]) in s.at && Node(s.kroot, p) !in s.at
      ensures CanSetBare(s, Node(s.kroot, p[..3]), p[3], e)
    {
      hide Inv;
      FlagBits(flags);
      assert p[..3] + [p[3]] == p;
    }

    lemma BareIsStore(s: VM, n: Node, x: nat, e: PTE)
      requires n in s.at && x < ENTRIES && s.at[n] < |s.mem| && s.mem[s.at[n]].Table?
      ensures SetBare(s, n, x, e) == VM(s.mem[s.at[n] := Table(s.mem[s.at[n]].e[x := e])], s.at, s.own, s.kroot)
    {
    }

    lemma BareKeepsClear(s: VM, n: Node, x: nat, e: PTE, q: Path)
      requires CanSetBare(s, n, x, e) && n in s.at && Clear(s, q)
      ensures Clear(SetBare(s, n, x, e), q)
    {
      hide EntryAt, SetBare, Inv;
      if FullPath(q) && q[0] == 0 {
        assert |q[..1]| == 1 && |q[..2]| == 2;
        SetBareParts(s, n, x, e);
        SetBareEntry(s, n, x, e, Node(s.kroot, q[..1]), q[1]);
        SetBareEntry(s, n, x, e, Node(s.kroot, q[..2]), q[2]);
      }
    }

    // ---- creating and destroying spaces ---------------------------------------------------------

    /** vmm_create_address_space: an empty space that shares the kernel's first entry. */
    method CreateSpace() returns (root: nat)
      requires Valid() && pmm.used < pmm.total
      modifies this`at, this`own, this`loose, pmm`used, pmm.bitmap, mem
      ensures Valid() && loose == old(loose) && pmm.used == old(pmm.used) + 1
      ensures root < pmm.total && !Marked(old(pmm.bitmap[..]), root) && root != kernelPml4
      ensures at == old(at)[Node(root, []) := root] && forall n :: n in old(at) ==> n.root != root
      ensures forall n :: n in old(at) ==> ContentOf(State(), n) == ContentOf(old(State()), n)
      ensures forall n :: n in old(at) ==> EntryOf(State(), n) == EntryOf(old(State()), n)
      ensures forall g: nat | g < pmm.total && Marked(old(pmm.bitmap[..]), g) :: Marked(pmm.bitmap[..], g)
      ensures forall g | g in loose :: mem[g] == old(mem[g])
    {
      hide Inv, EntryOf, EntryAt, ContentOf, Marked;
      ghost var s := State();
      root := AllocTable();
      assert forall g | g in old(loose) :: mem[g] == old(mem[g]);
      AddRootLoose(s, root);
      StoreRoot(root);
      AddRootSame(s, root);
    }

    /** root[0] = kernel_pml4[0], and the loose frame becomes the root of a space. */
    method StoreRoot(root: nat)
      requires Valid() && root in loose && mem[root] == Table(NoEntries())
      modifies this`at, this`own, this`loose, mem
      ensures Valid() && loose == old(loose) - {root} && State() == AddRoot(old(State()), root)
      ensures forall g | 0 <= g < mem.Length && g != root :: mem[g] == old(mem[g])
      ensures root != kernelPml4 && forall n :: n in old(at) ==> n.root != root
    {
      hide Inv, Shape, EntryOf, EntryAt, Marked;
      ghost var s := State();
      OwnersInRange();
      SameOwners();
      KernelFrame();
      mem[root] := Table(mem[root].e[0 := mem[kernelPml4].e[0]]);
      Swap(own.Keys, loose, reserved, root, {});
      at := at[Node(root, []) := root];
      own := own[root := Node(root, [])];
      loose := loose - {root};
      InvShape(s);
      RootIsStore(s, root);
      AddRootInv(s, root);
    }

    lemma KernelFrame()
      requires Wired()
      ensures kernelPml4 < mem.Length && mem[kernelPml4].Table? && kernelPml4 in own && Node(kernelPml4, []) in at
      ensures mem[kernelPml4].e[0] == EntryAt(State(), Node(kernelPml4, []), 0)
    {
      hide Up, Down, KernelShared;
    }

    lemma RootIsStore(s: VM, f: nat)
      requires Shape(s) && f < |s.mem| && f !in s.own
      ensures s.kroot < |s.mem| && s.mem[s.kroot].Table?
      ensures AddRoot(s, f).mem == s.mem[f := Table(NoEntries()[0 := s.mem[s.kroot].e[0]])]
    {
      hide Up, Down, KernelShared;
    }

    lemma AddRootLoose(s: VM, f: nat)
      requires Inv(s) && f < |s.mem| && f !in s.own
      ensures AddRoot(VM(s.mem[f := Table(NoEntries())], s.at, s.own, s.kroot), f) == AddRoot(s, f)
    {
      hide Up, Down, KernelShared;
    }

    lemma AddRootSame(s: VM, f: nat)
      requires Inv(s) && f < |s.mem| && f !in s.own
      ensures forall n :: n in s.at ==> ContentOf(AddRoot(s, f), n) == ContentOf(s, n) && EntryOf(AddRoot(s, f), n) == EntryOf(s, n)
    {
      AddRootInv(s, f);
      forall n | n in s.at ensures ContentOf(AddRoot(s, f), n) == ContentOf(s, n) && EntryOf(AddRoot(s, f), n) == EntryOf(s, n) {
        RootContent(s, f, n);
        assert EntryOk(s, n);
      }
    }

    lemma RootContent(s: VM, f: nat, n: Node)
      requires Inv(s) && f < |s.mem| && f !in s.own && n in s.at
      ensures ContentOf(AddRoot(s, f), n) == ContentOf(s, n)
    {
      hide Up, Down, KernelShared;
      AddRootInv(s, f);
    }

    /** The nodes strictly below n. */
    ghost function Below(n: Node): set<Node>
      reads this
    {
      set m | m in at && m.root == n.root && |n.path| < |m.path| && n.path <= m.path
    }

    /** Those of them that lie below entries 0..x of n. */
    ghost function BelowTo(n: Node, x: nat): set<Node>
      reads this
    {
      set m | m in at && m.root == n.root && |n.path| < |m.path| && n.path <= m.path && m.path[|n.path|] < x
    }

    /** pmm_free_frame of the frame of a node not freed before. */
    method FreeNode(ghost n: Node, f: nat, ghost gone: set<Node>)
      requires Wired() && AccountedBut(gone) && n in at && at[n] == f && n !in gone
      modifies pmm`used, pmm.bitmap
      ensures Wired() && AccountedBut(gone + {n})
    {
      hide Inv;
      OwnersInRange();
      SameOwners();
      assert Known(f) && Marked(pmm.bitmap[..], f);
      assert f !in reserved;
      assert f >= Pmm.LOW_MEMORY / Pmm.FRAME_SIZE;
      pmm.FreeFrame(Pmm.FRAME_SIZE * f);
    }

    /** free_pt: every page of the page table of node n. */
    method FreePt(ghost n: Node, pt: nat, ghost gone: set<Node>)
      requires Wired() && AccountedBut(gone) && n in at && at[n] == pt && |n.path| == 3 && n.root != kernelPml4
      requires Below(n) !! gone
      modifies pmm`used, pmm.bitmap
      ensures Wired() && AccountedBut(gone + Below(n))
    {
      hide Inv, Marked;
      var i := 0;
      assert gone + BelowTo(n, 0) == gone;
      while i < ENTRIES
        invariant 0 <= i <= ENTRIES && Wired() && AccountedBut(gone + BelowTo(n, i))
      {
        ghost var c := Child(n, i);
        UserEntry(n, i);
        BelowStep(n, i);
        if Present(mem[pt].e[i]) {
          LeafHasNothingBelow(c);
          FreeNode(c, mem[pt].e[i].frame, gone + BelowTo(n, i));
          assert gone + BelowTo(n, i + 1) == gone + BelowTo(n, i) + {c};
        } else {
          assert gone + BelowTo(n, i + 1) == gone + BelowTo(n, i);
        }
        i := i + 1;
      }
      AllBelow(n);
    }

    lemma AllBelow(n: Node)
      requires Inv(State())
      ensures BelowTo(n, ENTRIES) == Below(n)
    {
      assert Shape(State());
    }

    /** What lies below entry i of n: the child, if there is one, and everything below it. */
    lemma BelowStep(n: Node, i: nat)
      requires Inv(State()) && n in at && |n.path| < 4
      ensures BelowTo(n, i + 1) == BelowTo(n, i) + (if Child(n, i) in at then Below(Child(n, i)) + {Child(n, i)} else {})
      ensures Child(n, i) in at ==> Child(n, i) in Below(n) && Child(n, i) !in BelowTo(n, i) && Below(Child(n, i)) !! BelowTo(n, i)
      ensures Child(n, i) in at ==> Below(Child(n, i)) <= Below(n) && Child(n, i) !in Below(Child(n, i))
    {
      hide Inv;
      var c := Child(n, i);
      forall m | m in at && m.root == n.root && n.path <= m.path && |n.path| < |m.path|
        ensures m.path[|n.path|] == i <==> c.path <= m.path
        ensures c.path <= m.path ==> c in at && (m == c || |m.path| > |c.path|)
      {
        if m.path[|n.path|] == i {
          assert m.path[..|n.path| + 1] == m.path[..|n.path|] + [i] == c.path;
          PrefixThere(State(), m.root, m.path, |n.path| + 1);
        }
        if c.path <= m.path {
          assert m.path[|n.path|] == c.path[|n.path|] == i;
          assert m.path[..|c.path|] == c.path;
          PrefixThere(State(), m.root, m.path, |c.path|);
          if |m.path| == |c.path| {
            assert m.path == c.path;
          }
        }
      }
    }

    lemma LeafHasNothingBelow(n: Node)
      requires Inv(State()) && |n.path| == 4
      ensures Below(n) == {}
    {
      hide Up, Down, KernelShared;
    }

    /** free_pd and free_pdpt: every table of node n's table, each after what lies below it. */
    method FreePd(ghost n: Node, pd: nat, ghost gone: set<Node>)
      requires Wired() && AccountedBut(gone) && n in at && at[n] == pd && |n.path| == 2 && n.root != kernelPml4
      requires Below(n) !! gone
      modifies pmm`used, pmm.bitmap
      ensures Wired() && AccountedBut(gone + Below(n))
    {
      hide Inv, Marked;
      var i := 0;
      assert gone + BelowTo(n, 0) == gone;
      while i < ENTRIES
        invariant 0 <= i <= ENTRIES && Wired() && AccountedBut(gone + BelowTo(n, i))
      {
        ghost var c := Child(n, i);
        ghost var sofar := gone + BelowTo(n, i);
        UserEntry(n, i);
        BelowStep(n, i);
        if Present(mem[pd].e[i]) && !Huge(mem[pd].e[i]) {
          FreePt(c, mem[pd].e[i].frame, sofar);
          FreeNode(c, mem[pd].e[i].frame, sofar + Below(c));
          assert gone + BelowTo(n, i + 1) == sofar + Below(c) + {c};
        } else {
          assert gone + BelowTo(n, i + 1) == sofar;
        }
        i := i + 1;
      }
      AllBelow(n);
    }

    method FreePdpt(ghost n: Node, pdpt: nat, ghost gone: set<Node>)
      requires Wired() && AccountedBut(gone) && n in at && at[n] == pdpt && |n.path| == 1 && n.root != kernelPml4
      requires Below(n) !! gone
      modifies pmm`used, pmm.bitmap
      ensures Wired() && AccountedBut(gone + Below(n))
    {
      hide Inv, Marked;
      var i := 0;
      assert gone + BelowTo(n, 0) == gone;
      while i < ENTRIES
        invariant 0 <= i <= ENTRIES && Wired() && AccountedBut(gone + BelowTo(n, i))
      {
        ghost var c := Child(n, i);
        ghost var sofar := gone + BelowTo(n, i);
        UserEntry(n, i);
        BelowStep(n, i);
        if Present(mem[pdpt].e[i]) && !Huge(mem[pdpt].e[i]) {
          FreePd(c, mem[pdpt].e[i].frame, sofar);
          FreeNode(c, mem[pdpt].e[i].frame, sofar + Below(c));
          assert gone + BelowTo(n, i + 1) == sofar + Below(c) + {c};
        } else {
          assert gone + BelowTo(n, i + 1) == sofar;
        }
        i := i + 1;
      }
      AllBelow(n);
    }

    /**
     * vmm_destroy_address_space: every frame of the space is free again, each freed once, and
     * nothing else changes. The kernel space and the null pointer are left alone.
     */
    method Destroy(root: nat)
      requires Valid() && (root != 0 ==> Node(root, []) in at)
      modifies this`at, this`own, pmm`used, pmm.bitmap
      ensures Valid()
      ensures root == 0 || root == kernelPml4 ==> at == old(at) && pmm.bitmap[..] == old(pmm.bitmap[..])
      ensures root != 0 && root != kernelPml4 ==>
        && (forall n :: n in at <==> n in old(at) && n.root != root)
        && (forall n :: n in at ==> at[n] == old(at[n]))
        && (forall f: nat | f < pmm.total ::
              Marked(pmm.bitmap[..], f) <==> Marked(old(pmm.bitmap[..]), f) && !(f in old(own) && old(own[f]).root == root))
        && (forall f :: f in own <==> f in old(own) && old(own[f]).root != root)
    {
      hide Inv, Marked;
      if root == 0 || root == kernelPml4 {
        return;
      }
      ghost var s := State();
      FreeSpace(root);
      SameOwners();
      RemoveSpaceInv(s, root);
      at := RemoveSpace(s, root).at;
      own := RemoveSpace(s, root).own;
    }

    /** The loop of vmm_destroy_address_space, and the root itself. */
    method FreeSpace(root: nat)
      requires Valid() && Node(root, []) in at && root != kernelPml4
      modifies pmm`used, pmm.bitmap
      ensures Wired() && AccountedBut(NodesOf(at, root))
    {
      hide Inv, Marked;
      ghost var n := Node(root, []);
      RootFrame(State(), root);
      var i := 1;
      NothingShared(n);
      while i < ENTRIES
        invariant 1 <= i <= ENTRIES && Wired() && AccountedBut(BelowTo(n, i))
      {
        ghost var c := Child(n, i);
        UserEntry(n, i);
        BelowStep(n, i);
        if Present(mem[root].e[i]) {
          FreePdpt(c, mem[root].e[i].frame, BelowTo(n, i));
          FreeNode(c, mem[root].e[i].frame, BelowTo(n, i) + Below(c));
          assert BelowTo(n, i + 1) == BelowTo(n, i) + Below(c) + {c};
        }
        i := i + 1;
      }
      AllBelow(n);
      FreeNode(n, root, Below(n));
      RootCovers(n);
    }

    /** A user space owns nothing below its first entry. */
    lemma NothingShared(n: Node)
      requires Inv(State()) && n.path == [] && n.root != kernelPml4
      ensures BelowTo(n, 1) == {}
    {
      forall m | m in at && m.root == n.root && m.path != [] ensures m.path[0] != 0 {
        assert EntryOk(State(), m);
      }
    }

    lemma RootCovers(n: Node)
      requires n in at && n.path == []
      ensures Below(n) + {n} == NodesOf(at, n.root)
    {
      forall m | m in at && m.root == n.root ensures m == n || m in Below(n) {
        if m.path == [] {
          assert m == n;
        }
      }
    }
  }
}
