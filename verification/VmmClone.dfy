/** vmm_clone_address_space: a deep copy of every user page into fresh frames. */
module VmmClone {
  import opened Bytes
  import opened PageTables
  import opened Translations
  import opened Vmm

  // ---- what has been copied so far --------------------------------------------------------------

  /** Page q of dst in t is page q of src in s: both unmapped, or the same flags and bytes. */
  ghost predicate SamePage(s: VM, t: VM, src: nat, dst: nat, q: Path) {
    && (Node(dst, q) in t.at <==> Node(src, q) in s.at)
    && (Node(dst, q) in t.at ==>
          && EntryOf(t, Node(dst, q)).flags == EntryOf(s, Node(src, q)).flags
          && ContentOf(t, Node(dst, q)) == ContentOf(s, Node(src, q)))
  }

  /** Every page whose indices extend pre is copied. */
  ghost predicate CopiedUnder(s: VM, t: VM, src: nat, dst: nat, pre: Path) {
    forall q | FullPath(q) && pre <= q :: SamePage(s, t, src, dst, q)
  }

  /** Below pre, the pages below entries 0..x are copied and the rest are still absent. */
  ghost predicate DoneTo(s: VM, t: VM, src: nat, dst: nat, pre: Path, x: nat) {
    |pre| < 4 && forall q | FullPath(q) && pre <= q ::
      if q[|pre|] < x then SamePage(s, t, src, dst, q) else Node(dst, q) !in t.at
  }

  ghost predicate NoneUnder(t: VM, dst: nat, pre: Path) {
    forall q | FullPath(q) && pre <= q :: Node(dst, q) !in t.at
  }

  /** t is s with more nodes of dst on the way to or below pre; nothing that was there changes. */
  ghost predicate GrewUnder(s: VM, t: VM, dst: nat, pre: Path) {
    && t.kroot == s.kroot && |t.mem| == |s.mem|
    && (forall n :: n in s.at ==> n in t.at && t.at[n] == s.at[n])
    && (forall n :: n in t.at && n !in s.at ==> n.root == dst && n.path != [] && (n.path <= pre || pre <= n.path))
    && (forall n :: n in s.at && |n.path| == 4 ==> EntryOf(t, n) == EntryOf(s, n) && ContentOf(t, n) == ContentOf(s, n))
    && (forall n :: n in s.at && n.root != dst ==> ContentOf(t, n) == ContentOf(s, n))
  }

  lemma GrewUnderRefl(s: VM, dst: nat, pre: Path)
    ensures GrewUnder(s, s, dst, pre)
  {
  }

  lemma GrewUnderTransitive(s: VM, t: VM, u: VM, dst: nat, pre: Path)
    requires GrewUnder(s, t, dst, pre) && GrewUnder(t, u, dst, pre)
    ensures GrewUnder(s, u, dst, pre)
  {
    hide EntryOf, ContentOf;
  }

  /** Growing below a longer prefix is growing below a shorter one. */
  lemma GrewUnderShorter(s: VM, t: VM, dst: nat, pre: Path, longer: Path)
    requires GrewUnder(s, t, dst, longer) && pre <= longer
    ensures GrewUnder(s, t, dst, pre)
  {
    hide EntryOf, ContentOf;
    forall n | n in t.at && n !in s.at ensures n.path <= pre || pre <= n.path {
      if n.path <= longer {
        PrefixesCompare(n.path, pre, longer);
      }
    }
  }

  lemma PrefixesCompare(a: Path, b: Path, c: Path)
    requires a <= c && b <= c
    ensures a <= b || b <= a
  {
    if |a| <= |b| {
      assert a == c[..|a|] && b == c[..|b|] && b[..|a|] == c[..|a|];
    } else {
      assert a == c[..|a|] && b == c[..|b|] && a[..|b|] == c[..|b|];
    }
  }

  lemma MappedGrewUnder(s: VM, t: VM, dst: nat, p: Path)
    requires Grew(s, t, dst, p) && FullPath(p) && Node(dst, p) !in s.at
    ensures GrewUnder(s, t, dst, p)
  {
    hide EntryOf, ContentOf, EntryAt;
  }

  /** Copying below entry x of pre extends what is done there by one entry. */
  lemma DoneStep(s: VM, a: VM, b: VM, src: nat, dst: nat, pre: Path, x: nat)
    requires DoneTo(s, a, src, dst, pre, x) && GrewUnder(a, b, dst, pre + [x]) && CopiedUnder(s, b, src, dst, pre + [x])
    ensures DoneTo(s, b, src, dst, pre, x + 1)
  {
    hide EntryOf, ContentOf;
    var longer := pre + [x];
    forall q | FullPath(q) && pre <= q
      ensures if q[|pre|] < x + 1 then SamePage(s, b, src, dst, q) else Node(dst, q) !in b.at
    {
      if q[|pre|] == x {
        assert q == q[..|pre|] + q[|pre|..] && q[..|pre|] == pre;
        assert longer <= q;
      } else {
        assert !(longer <= q) by { assert longer[|pre|] == x; }
        assert !(q <= longer) by { assert longer[|pre|] == x; }
        assert Node(dst, q) in b.at <==> Node(dst, q) in a.at;
      }
    }
  }

  lemma DoneStart(s: VM, t: VM, src: nat, dst: nat, pre: Path)
    requires NoneUnder(t, dst, pre) && |pre| < 4
    ensures DoneTo(s, t, src, dst, pre, 0)
  {
  }

  lemma DoneEnd(s: VM, t: VM, src: nat, dst: nat, pre: Path)
    requires DoneTo(s, t, src, dst, pre, ENTRIES)
    ensures CopiedUnder(s, t, src, dst, pre)
  {
  }

  /** Nothing is done yet below the next entry. */
  lemma NoneBelowNext(s: VM, t: VM, src: nat, dst: nat, pre: Path, x: nat)
    requires DoneTo(s, t, src, dst, pre, x)
    ensures NoneUnder(t, dst, pre + [x])
  {
    forall q | FullPath(q) && pre + [x] <= q ensures Node(dst, q) !in t.at {
      assert q[..|pre|] == (pre + [x])[..|pre|] == pre;
      assert q[|pre|] == (pre + [x])[|pre|] == x;
    }
  }

  /** An entry the source does not have is copied by doing nothing. */
  lemma AbsentIsCopied(s: VM, t: VM, src: nat, dst: nat, pre: Path, x: nat)
    requires Inv(s) && Node(src, pre + [x]) !in s.at && NoneUnder(t, dst, pre + [x])
    ensures CopiedUnder(s, t, src, dst, pre + [x])
  {
    hide Inv, EntryOf, ContentOf;
    forall q | FullPath(q) && pre + [x] <= q ensures SamePage(s, t, src, dst, q) {
      assert q[..|pre| + 1] == pre + [x];
      if Node(src, q) in s.at {
        PrefixThere(s, src, q, |pre| + 1);
      }
    }
  }

  // ---- enough frames --------------------------------------------------------------------------------

  /** The paths the clone will have: the root's, and those of the source from 2^39 on. */
  ghost function CopyPaths(at: map<Node, nat>, src: nat): set<Path> {
    set n | n in at && n.root == src && (n.path == [] || n.path[0] != 0) :: n.path
  }

  lemma PrefixesCopied(s: VM, src: nat, q: Path)
    requires Inv(s) && FullPath(q) && q[0] != 0 && Node(src, q) in s.at
    ensures {q[..1], q[..2], q[..3], q} <= CopyPaths(s.at, src)
  {
    hide Inv;
    forall k | 1 <= k <= 3 ensures q[..k] in CopyPaths(s.at, src) {
      PrefixThere(s, src, q, k);
      assert Node(src, q[..k]).path[0] == q[0];
    }
    assert Node(src, q).path == q;
  }

  // ---- the loops ---------------------------------------------------------------------------------------

  /** Where the clone starts from: the state and bitmap just after its root was created. */
  datatype Start = Start(s: VM, bits: seq<byte>, src: nat, dst: nat, loose: set<nat>, reserved: set<nat>)

  ghost predicate Cloning(v: AddressSpaces, z: Start)
    reads v, v.mem, v.pmm, v.pmm.bitmap
  {
    && v.Valid() && v.loose == z.loose && v.reserved == z.reserved && |z.bits| == |v.pmm.bitmap[..]|
    && v.kernelPml4 == z.s.kroot && z.dst != z.s.kroot && z.src != z.dst
    && Inv(z.s) && Node(z.src, []) in z.s.at && Node(z.dst, []) in z.s.at
    && GrewUnder(z.s, v.State(), z.dst, [])
    && Budget(v.at, |v.reserved| + |v.loose|, v.pmm.total, z.dst, CopyPaths(z.s.at, z.src))
    && (forall n :: n in v.at && n !in z.s.at ==> v.at[n] < v.pmm.total && !Marked(z.bits, v.at[n]))
    && (forall f: nat | f < v.pmm.total && Marked(z.bits, f) :: Marked(v.pmm.bitmap[..], f))
  }

  lemma RoomForPage(v: AddressSpaces, z: Start, q: Path)
    requires Cloning(v, z) && FullPath(q) && q[0] != 0 && Node(z.src, q) in z.s.at && Node(z.dst, q) !in v.at
    ensures v.pmm.used + 1 + Missing(v.at, z.dst, q) <= v.pmm.total
  {
    hide AddressSpaces.Valid, Inv, GrewUnder, Budget, Missing, CopyPaths;
    PrefixesCopied(z.s, z.src, q);
    v.RoomFor(z.dst, CopyPaths(z.s.at, z.src), q);
  }

  /** The source's tables are still as they were, entry by entry. */
  lemma SourceEntry(v: AddressSpaces, z: Start, pre: Path, x: nat)
    requires Cloning(v, z) && Node(z.src, pre) in z.s.at && |pre| < 4 && x < ENTRIES && (pre + [x])[0] != 0
    ensures var n := Node(z.src, pre);
      && n in v.at && v.at[n] == z.s.at[n] && v.at[n] < v.mem.Length && v.mem[v.at[n]].Table?
      && var e := v.mem[v.at[n]].e[x];
         var c := Node(z.src, pre + [x]);
         && (c in z.s.at ==> Present(e) && e.frame == z.s.at[c] && (|pre| < 3 ==> !Huge(e)) && EntryOf(z.s, c) == e)
         && (c !in z.s.at ==> !Present(e))
  {
    hide Budget;
    var n := Node(z.src, pre);
    var c := Child(n, x);
    TableThere(z.s, n);
    TableThere(v.State(), n);
    assert ContentOf(v.State(), n) == ContentOf(z.s, n);
    assert EntryAt(z.s, n, x) == v.mem[v.at[n]].e[x];
    ParentOfChild(n, x);
    hide GrewUnder, EntryAt, Shape, KernelShared;
    assert DownAt(z.s, n, x);
    assert EntryOk(z.s, c);
    assert pre != [] ==> EntryOk(z.s, n) && pre[0] == (pre + [x])[0];
  }

  /** The inner copy loop: all 4096 bytes of frame `from` into the loose frame `to`. */
  method CopyFrame(v: AddressSpaces, to: nat, from: nat)
    requires v.Valid() && to in v.loose && to < v.mem.Length && from < v.mem.Length && from != to && v.mem[from].Page?
    modifies v.mem
    ensures v.Valid() && v.mem[..] == old(v.mem[..])[to := old(v.mem[from])]
    ensures LooseOnly(old(v.State()), v.State())
  {
    hide Inv, EntryAt, EntryOf, ContentOf;
    var bytes: PageBytes := if v.mem[to].Page? then v.mem[to].bytes else seq(PAGE_SIZE, _ => 0);
    var b := 0;
    while b < PAGE_SIZE
      invariant 0 <= b <= PAGE_SIZE && v.mem[..] == old(v.mem[..])
      invariant bytes[..b] == v.mem[from].bytes[..b]
    {
      bytes := bytes[b := v.mem[from].bytes[b]];
      b := b + 1;
    }
    assert bytes == v.mem[from].bytes;
    ghost var s := v.State();
    v.mem[to] := Page(bytes);
    LooseWriteInv(s, to, Page(bytes));
    assert v.State() == VM(Put(s.mem, to, Page(bytes)), s.at, s.own, s.kroot);
  }

  /** Only frames outside the trees differ. */
  ghost predicate LooseOnly(s: VM, t: VM) {
    && t.at == s.at && t.own == s.own && t.kroot == s.kroot && |t.mem| == |s.mem|
    && (forall n :: n in s.at ==> ContentOf(t, n) == ContentOf(s, n))
    && (forall n :: EntryOf(t, n) == EntryOf(s, n))
  }

  lemma LooseOnlyGrew(s: VM, t: VM, u: VM, dst: nat, p: Path)
    requires LooseOnly(s, t) && GrewUnder(t, u, dst, p)
    ensures GrewUnder(s, u, dst, p)
  {
    hide EntryOf, ContentOf;
  }

  lemma KeepPresent(flags: bv12)
    requires flags & PRESENT != 0
    ensures flags | PRESENT == flags
  {
  }

  /** One turn of the innermost loop: copy the page into a fresh frame and map it with the same flags. */
  method ClonePage(v: AddressSpaces, ghost z: Start, dst: nat, i: nat, j: nat, k: nat, l: nat, e: PTE)
    requires Cloning(v, z) && dst == z.dst && FullPath([i, j, k, l]) && i != 0
    requires Node(z.src, [i, j, k, l]) in z.s.at && Node(z.dst, [i, j, k, l]) !in v.at
    requires e == EntryOf(z.s, Node(z.src, [i, j, k, l])) && Present(e) && e.frame == z.s.at[Node(z.src, [i, j, k, l])]
    modifies v`at, v`own, v`loose, v.pmm`used, v.pmm.bitmap, v.mem
    ensures Cloning(v, z)
    ensures GrewUnder(old(v.State()), v.State(), z.dst, [i, j, k, l])
    ensures SamePage(z.s, v.State(), z.src, z.dst, [i, j, k, l])
  {
    hide Inv, Grew, GrewUnder, Budget, EntryOf, EntryAt, ContentOf, Marked, Missing;
    ghost var p := [i, j, k, l];
    ghost var s0 := v.State();
    RoomForPage(v, z, p);
    SourcePage(v, z, p);
    RootsThere(v, z);
    CopyAndMap(v, dst, i, j, k, l, e);
    ClonedPage(v, z, s0, p);
  }

  /** Allocate a frame, copy the page e names into it, and map it into dst with e's flags. */
  method CopyAndMap(v: AddressSpaces, dst: nat, i: nat, j: nat, k: nat, l: nat, e: PTE)
    requires v.Valid() && FullPath([i, j, k, l]) && v.pmm.used + 1 + Missing(v.at, dst, [i, j, k, l]) <= v.pmm.total
    requires i != 0 && Node(dst, []) in v.at && dst != v.kernelPml4 && Node(dst, [i, j, k, l]) !in v.at
    requires Present(e) && e.frame < v.mem.Length && v.mem[e.frame].Page? && e.frame in v.own
    modifies v`at, v`own, v`loose, v.pmm`used, v.pmm.bitmap, v.mem
    ensures v.Valid() && v.loose == old(v.loose)
    ensures GrewUnder(old(v.State()), v.State(), dst, [i, j, k, l])
    ensures forall n | n in old(v.at) :: n in v.at && v.at[n] == old(v.at[n])
    ensures var n := Node(dst, [i, j, k, l]);
      n in v.at && EntryOf(v.State(), n).flags == e.flags && ContentOf(v.State(), n) == old(v.mem[e.frame])
    ensures forall n | n in v.at && n !in old(v.at) :: v.at[n] < v.pmm.total && !Marked(old(v.pmm.bitmap[..]), v.at[n])
    ensures forall f: nat | f < v.pmm.total && Marked(old(v.pmm.bitmap[..]), f) :: Marked(v.pmm.bitmap[..], f)
  {
    hide AddressSpaces.Valid, Inv, Grew, GrewUnder, EntryOf, EntryAt, ContentOf, Marked, Missing, LooseOnly;
    ghost var p := [i, j, k, l];
    ghost var s0 := v.State();
    v.ValidParts();
    assert p[0] < ENTRIES && p[1] < ENTRIES && p[2] < ENTRIES && p[3] < ENTRIES;
    IndicesOfAddress(i, j, k, l);
    var f := v.AllocFrame();
    CopyFrame(v, f, e.frame);
    ghost var s1 := v.State();
    v.MapIn(dst, Address(i, j, k, l), f, e.flags);
    KeepPresent(e.flags);
    MappedGrewUnder(s1, v.State(), dst, p);
    LooseOnlyGrew(s0, s1, v.State(), dst, p);
    NodesKept(s0, v.State(), dst, p);
    v.ValidParts();
  }

  lemma NodesKept(s: VM, t: VM, dst: nat, p: Path)
    requires GrewUnder(s, t, dst, p)
    ensures forall n | n in s.at :: n in t.at && t.at[n] == s.at[n]
  {
  }

  lemma SourcePage(v: AddressSpaces, z: Start, p: Path)
    requires Cloning(v, z) && FullPath(p) && Node(z.src, p) in z.s.at
    ensures var n := Node(z.src, p);
      && n in v.at && v.at[n] == z.s.at[n] < v.mem.Length && v.mem[v.at[n]].Page?
      && ContentOf(z.s, n) == v.mem[v.at[n]] && v.at[n] in v.own
  {
    hide Inv, Budget, EntryOf;
    var n := Node(z.src, p);
    PageThere(z.s, n);
    PageThere(v.State(), n);
  }

  lemma PageThere(s: VM, n: Node)
    requires Inv(s) && n in s.at && |n.path| == 4
    ensures s.at[n] < |s.mem| && s.mem[s.at[n]].Page? && s.at[n] in s.own
  {
    hide Up, Down, KernelShared;
  }

  lemma RootsThere(v: AddressSpaces, z: Start)
    requires Cloning(v, z)
    ensures Node(z.dst, []) in v.at && Node(z.src, []) in v.at
  {
    hide Inv, Budget, EntryOf, ContentOf;
  }

  lemma NodeBound(s: VM, n: Node)
    requires Inv(s) && n in s.at
    ensures |n.path| <= 4
  {
  }

  /** The loop state after one more page. */
  lemma ClonedPage(v: AddressSpaces, z: Start, s0: VM, p: Path)
    requires Inv(z.s) && Inv(v.State()) && FullPath(p) && p[0] != 0 && Node(z.src, p) in z.s.at
    requires GrewUnder(z.s, s0, z.dst, []) && GrewUnder(s0, v.State(), z.dst, p)
    requires Budget(s0.at, |v.reserved| + |v.loose|, v.pmm.total, z.dst, CopyPaths(z.s.at, z.src))
    ensures GrewUnder(z.s, v.State(), z.dst, [])
    ensures Budget(v.at, |v.reserved| + |v.loose|, v.pmm.total, z.dst, CopyPaths(z.s.at, z.src))
  {
    hide Inv, EntryOf, ContentOf, Budget, CopyPaths;
    GrewUnderShorter(s0, v.State(), z.dst, [], p);
    GrewUnderTransitive(z.s, s0, v.State(), z.dst, []);
    PrefixesCopied(z.s, z.src, p);
    forall n | n in v.at && n !in s0.at ensures n.root == z.dst && n.path in CopyPaths(z.s.at, z.src) {
      NodeBound(v.State(), n);
      PrefixOf(n.path, p);
    }
    BudgetKept(s0.at, v.at, |v.reserved| + |v.loose|, v.pmm.total, z.dst, CopyPaths(z.s.at, z.src));
  }

  lemma PrefixOf(a: Path, p: Path)
    requires FullPath(p) && a != [] && |a| <= 4 && (a <= p || p <= a)
    ensures a in {p[..1], p[..2], p[..3], p}
  {
    assert p[..4] == p;
    assert |a| == 4 ==> a == p;
    assert a == p[..|a|];
  }

  // One method per loop of the source, from the page table up.

  method ClonePt(v: AddressSpaces, ghost z: Start, dst: nat, i: nat, j: nat, k: nat, spt: nat)
    requires Cloning(v, z) && dst == z.dst && i != 0 && i < ENTRIES && j < ENTRIES && k < ENTRIES
    requires Node(z.src, [i, j, k]) in z.s.at && spt == z.s.at[Node(z.src, [i, j, k])] && NoneUnder(v.State(), dst, [i, j, k])
    modifies v`at, v`own, v`loose, v.pmm`used, v.pmm.bitmap, v.mem
    ensures Cloning(v, z)
    ensures GrewUnder(old(v.State()), v.State(), dst, [i, j, k]) && CopiedUnder(z.s, v.State(), z.src, dst, [i, j, k])
  {
    hide Inv, Cloning, GrewUnder, SamePage, EntryOf;
    ghost var pre := [i, j, k];
    ghost var s0 := v.State();
    SourceRoot(v, z);
    GrewUnderRefl(s0, dst, pre);
    DoneStart(z.s, s0, z.src, dst, pre);
    var l := 0;
    while l < ENTRIES
      invariant 0 <= l <= ENTRIES && Cloning(v, z)
      invariant GrewUnder(s0, v.State(), dst, pre) && DoneTo(z.s, v.State(), z.src, dst, pre, l)
    {
      ghost var a := v.State();
      SourceEntry(v, z, pre, l);
      NoneBelowNext(z.s, a, z.src, dst, pre, l);
      assert pre + [l] == [i, j, k, l];
      var e := v.mem[spt].e[l];
      if Present(e) {
        ClonePage(v, z, dst, i, j, k, l, e);
        OnePageIsAll(z.s, v.State(), z.src, dst, [i, j, k, l]);
      } else {
        AbsentIsCopied(z.s, a, z.src, dst, pre, l);
        GrewUnderRefl(a, dst, pre + [l]);
      }
      DoneStep(z.s, a, v.State(), z.src, dst, pre, l);
      GrewUnderShorter(a, v.State(), dst, pre, pre + [l]);
      GrewUnderTransitive(s0, a, v.State(), dst, pre);
      l := l + 1;
    }
    DoneEnd(z.s, v.State(), z.src, dst, pre);
  }

  lemma OnePageIsAll(s: VM, t: VM, src: nat, dst: nat, p: Path)
    requires FullPath(p) && SamePage(s, t, src, dst, p)
    ensures CopiedUnder(s, t, src, dst, p)
  {
    hide SamePage;
    forall q | FullPath(q) && p <= q ensures SamePage(s, t, src, dst, q) {
      assert q == p;
    }
  }

  method ClonePd(v: AddressSpaces, ghost z: Start, dst: nat, i: nat, j: nat, spd: nat)
    requires Cloning(v, z) && dst == z.dst && i != 0 && i < ENTRIES && j < ENTRIES
    requires Node(z.src, [i, j]) in z.s.at && spd == z.s.at[Node(z.src, [i, j])] && NoneUnder(v.State(), dst, [i, j])
    modifies v`at, v`own, v`loose, v.pmm`used, v.pmm.bitmap, v.mem
    ensures Cloning(v, z)
    ensures GrewUnder(old(v.State()), v.State(), dst, [i, j]) && CopiedUnder(z.s, v.State(), z.src, dst, [i, j])
  {
    hide Inv, Cloning, GrewUnder, SamePage, EntryOf;
    ghost var pre := [i, j];
    ghost var s0 := v.State();
    SourceRoot(v, z);
    GrewUnderRefl(s0, dst, pre);
    DoneStart(z.s, s0, z.src, dst, pre);
    var k := 0;
    while k < ENTRIES
      invariant 0 <= k <= ENTRIES && Cloning(v, z)
      invariant GrewUnder(s0, v.State(), dst, pre) && DoneTo(z.s, v.State(), z.src, dst, pre, k)
    {
      ghost var a := v.State();
      SourceEntry(v, z, pre, k);
      NoneBelowNext(z.s, a, z.src, dst, pre, k);
      assert pre + [k] == [i, j, k];
      var e := v.mem[spd].e[k];
      if Present(e) && !Huge(e) {
        ClonePt(v, z, dst, i, j, k, e.frame);
      } else {
        AbsentIsCopied(z.s, a, z.src, dst, pre, k);
        GrewUnderRefl(a, dst, pre + [k]);
      }
      DoneStep(z.s, a, v.State(), z.src, dst, pre, k);
      GrewUnderShorter(a, v.State(), dst, pre, pre + [k]);
      GrewUnderTransitive(s0, a, v.State(), dst, pre);
      k := k + 1;
    }
    DoneEnd(z.s, v.State(), z.src, dst, pre);
  }

  method ClonePdpt(v: AddressSpaces, ghost z: Start, dst: nat, i: nat, spdpt: nat)
    requires Cloning(v, z) && dst == z.dst && i != 0 && i < ENTRIES
    requires Node(z.src, [i]) in z.s.at && spdpt == z.s.at[Node(z.src, [i])] && NoneUnder(v.State(), dst, [i])
    modifies v`at, v`own, v`loose, v.pmm`used, v.pmm.bitmap, v.mem
    ensures Cloning(v, z)
    ensures GrewUnder(old(v.State()), v.State(), dst, [i]) && CopiedUnder(z.s, v.State(), z.src, dst, [i])
  {
    hide Inv, Cloning, GrewUnder, SamePage, EntryOf;
    ghost var pre := [i];
    ghost var s0 := v.State();
    SourceRoot(v, z);
    GrewUnderRefl(s0, dst, pre);
    DoneStart(z.s, s0, z.src, dst, pre);
    var j := 0;
    while j < ENTRIES
      invariant 0 <= j <= ENTRIES && Cloning(v, z)
      invariant GrewUnder(s0, v.State(), dst, pre) && DoneTo(z.s, v.State(), z.src, dst, pre, j)
    {
      ghost var a := v.State();
      SourceEntry(v, z, pre, j);
      NoneBelowNext(z.s, a, z.src, dst, pre, j);
      assert pre + [j] == [i, j];
      var e := v.mem[spdpt].e[j];
      if Present(e) && !Huge(e) {
        ClonePd(v, z, dst, i, j, e.frame);
      } else {
        AbsentIsCopied(z.s, a, z.src, dst, pre, j);
        GrewUnderRefl(a, dst, pre + [j]);
      }
      DoneStep(z.s, a, v.State(), z.src, dst, pre, j);
      GrewUnderShorter(a, v.State(), dst, pre, pre + [j]);
      GrewUnderTransitive(s0, a, v.State(), dst, pre);
      j := j + 1;
    }
    DoneEnd(z.s, v.State(), z.src, dst, pre);
  }

  /** The outermost loop: entries 1..512 of the root, entry 0 being the shared kernel. */
  method CloneRoot(v: AddressSpaces, ghost z: Start, dst: nat, src: nat)
    requires Cloning(v, z) && dst == z.dst && src == z.src && v.State() == z.s && NoneUnder(z.s, dst, [])
    modifies v`at, v`own, v`loose, v.pmm`used, v.pmm.bitmap, v.mem
    ensures Cloning(v, z)
    ensures forall q | FullPath(q) && q[0] != 0 :: SamePage(z.s, v.State(), src, dst, q)
    ensures forall q | FullPath(q) && q[0] == 0 :: Node(dst, q) !in v.at
  {
    hide Inv, Cloning, GrewUnder, SamePage, EntryOf;
    ghost var pre: Path := [];
    SourceRoot(v, z);
    UserDone(z.s, src, dst);
    var i := 1;
    while i < ENTRIES
      invariant 1 <= i <= ENTRIES && Cloning(v, z)
      invariant UserDoneTo(z.s, v.State(), src, dst, i)
    {
      ghost var a := v.State();
      SourceEntry(v, z, pre, i);
      assert pre + [i] == [i];
      NoneAtRoot(z.s, a, src, dst, i);
      var e := v.mem[src].e[i];
      if Present(e) {
        NoHugeAtRoot(v, z, i);
        ClonePdpt(v, z, dst, i, e.frame);
      } else {
        AbsentIsCopied(z.s, a, src, dst, pre, i);
        GrewUnderRefl(a, dst, [i]);
      }
      UserDoneStep(z.s, a, v.State(), src, dst, i);
      i := i + 1;
    }
  }

  /** As DoneTo at the root, where entry 0 stays out. */
  ghost predicate UserDoneTo(s: VM, t: VM, src: nat, dst: nat, x: nat) {
    forall q | FullPath(q) :: if 0 < q[0] < x then SamePage(s, t, src, dst, q) else Node(dst, q) !in t.at
  }

  lemma UserDone(s: VM, src: nat, dst: nat)
    requires NoneUnder(s, dst, [])
    ensures UserDoneTo(s, s, src, dst, 1)
  {
  }

  lemma NoneAtRoot(s: VM, t: VM, src: nat, dst: nat, x: nat)
    requires UserDoneTo(s, t, src, dst, x) && x > 0
    ensures NoneUnder(t, dst, [x])
  {
  }

  lemma UserDoneStep(s: VM, a: VM, b: VM, src: nat, dst: nat, x: nat)
    requires UserDoneTo(s, a, src, dst, x) && GrewUnder(a, b, dst, [x]) && CopiedUnder(s, b, src, dst, [x]) && x > 0
    ensures UserDoneTo(s, b, src, dst, x + 1)
  {
    hide EntryOf, ContentOf;
    forall q | FullPath(q)
      ensures if 0 < q[0] < x + 1 then SamePage(s, b, src, dst, q) else Node(dst, q) !in b.at
    {
      if q[0] == x {
        assert [x] <= q;
      } else {
        assert !([x] <= q) && !(q <= [x]);
        assert Node(dst, q) in b.at <==> Node(dst, q) in a.at;
      }
    }
  }

  lemma SourceRoot(v: AddressSpaces, z: Start)
    requires Cloning(v, z)
    ensures z.s.at[Node(z.src, [])] == z.src && Node(z.src, []) in z.s.at && Inv(z.s)
  {
    hide Inv, GrewUnder, Budget;
    RootFrame(z.s, z.src);
  }

  /** A present entry of the root at or above 1 is a table, whatever the space. */
  lemma NoHugeAtRoot(v: AddressSpaces, z: Start, x: nat)
    requires Cloning(v, z) && 0 < x < ENTRIES && z.src < v.mem.Length && v.mem[z.src].Table? && Present(v.mem[z.src].e[x])
    ensures Node(z.src, [x]) in z.s.at && v.mem[z.src].e[x].frame == z.s.at[Node(z.src, [x])]
  {
    hide Budget;
    RootFrame(z.s, z.src);
    var n := Node(z.src, []);
    TableThere(z.s, n);
    assert ContentOf(v.State(), n) == ContentOf(z.s, n);
    assert EntryAt(z.s, n, x) == v.mem[z.src].e[x];
    ParentOfChild(n, x);
    hide GrewUnder, EntryAt, Shape, KernelShared;
    assert DownAt(z.s, n, x);
    assert EntryOk(z.s, Child(n, x));
    assert Child(n, x) == Node(z.src, [x]);
  }

  // ---- the operation ----------------------------------------------------------------------------------------

  /** Nothing that existed in s differs in t, in place or content. */
  ghost predicate Untouched(s: VM, t: VM) {
    forall n :: n in s.at ==> n in t.at && t.at[n] == s.at[n] && (|n.path| == 4 ==> EntryOf(t, n) == EntryOf(s, n)) && ContentOf(t, n) == ContentOf(s, n)
  }

  /**
   * vmm_clone_address_space: for every page at or above 2^39 the clone agrees with the source on
   * being mapped, on the flag bits and on all bytes. Its frames were free before, and everything
   * that existed is untouched.
   */
  method Clone(v: AddressSpaces, src: nat) returns (dst: nat)
    requires v.Valid() && Node(src, []) in v.at
    requires v.pmm.used + |CopyPaths(v.at, src)| <= v.pmm.total
    modifies v`at, v`own, v`loose, v.pmm`used, v.pmm.bitmap, v.mem
    ensures v.Valid() && v.loose == old(v.loose)
    ensures Node(dst, []) in v.at && dst != src && dst != v.kernelPml4 && Node(dst, []) !in old(v.at)
    ensures Untouched(old(v.State()), v.State())
    ensures forall n | n in old(v.at) :: n in v.at && v.at[n] == old(v.at[n])
    ensures forall n | n in v.at && n !in old(v.at) :: n.root == dst && v.at[n] < v.pmm.total && !Marked(old(v.pmm.bitmap[..]), v.at[n])
    ensures forall n | n in old(v.at) :: n.root != dst
    ensures forall q | FullPath(q) && q[0] != 0 :: SamePage(old(v.State()), v.State(), src, dst, q)
    ensures forall q | FullPath(q) && q[0] == 0 :: Node(dst, q) !in v.at
  {
    hide Inv, Cloning, GrewUnder, SamePage, EntryOf, EntryAt, ContentOf, Marked, Untouched, CopyPaths;
    ghost var s0 := v.State();
    ghost var b0 := v.pmm.bitmap[..];
    v.UsedIsKnown();
    RootFrame(s0, src);
    RootCopied(s0.at, src);
    dst := v.CreateSpace();
    ghost var z := Start(v.State(), v.pmm.bitmap[..], src, dst, v.loose, v.reserved);
    StartCloning(v, z, s0);
    CloneRoot(v, z, dst, src);
    ClonedAll(v, z, s0, b0);
    forall q | FullPath(q) && q[0] != 0 ensures SamePage(s0, v.State(), src, dst, q) {
      SamePageFromBefore(s0, z.s, v.State(), src, dst, q);
    }
    CloningKeeps(v, z);
  }

  /**
   * Isolation as the processor sees it: where a space's tables and pages keep their frames and contents,
   * every page mapped in it keeps its frame, its flags, its rights and its bytes.
   */
  lemma KeptSeen(s: VM, t: VM, r: nat, q: Path)
    requires Inv(s) && Inv(t) && t.kroot == s.kroot != r && Node(r, []) in s.at && FullPath(q) && q[0] != 0 && Node(r, q) in s.at
    requires forall n | n in s.at && n.root == r :: n in t.at && t.at[n] == s.at[n] && ContentOf(t, n) == ContentOf(s, n)
    ensures var w := Walk(s.mem, r, q);
      && w.Mapped? && Walk(t.mem, r, q) == w
      && w.frame < |s.mem| && w.frame < |t.mem| && t.mem[w.frame] == s.mem[w.frame]
  {
    hide Inv, Walk, EntryAt;
    WalkFindsPages(s, r, q);
    WalkFindsPages(t, r, q);
    PageThere(s, Node(r, q));
    PageThere(t, Node(r, q));
    SameEntryOf(s, t, Node(r, q));
  }

  lemma SameEntryOf(s: VM, t: VM, n: Node)
    requires Inv(s) && Inv(t) && n in s.at && n.path != []
    requires forall m | m in s.at && m.root == n.root :: m in t.at && t.at[m] == s.at[m] && ContentOf(t, m) == ContentOf(s, m)
    ensures EntryOf(t, n) == EntryOf(s, n)
  {
    hide Down, KernelShared;
    assert EntryOk(s, n) && Placed(s, Parent(n)) && Placed(t, Parent(n));
  }

  /** What a new, empty space looks like next to the state before it. */
  ghost predicate SpaceAdded(s: VM, t: VM, dst: nat) {
    && t.at == s.at[Node(dst, []) := dst] && t.kroot == s.kroot
    && (forall n :: n in s.at ==> n.root != dst && ContentOf(t, n) == ContentOf(s, n) && EntryOf(t, n) == EntryOf(s, n))
  }

  lemma RootCopied(at: map<Node, nat>, src: nat)
    requires Node(src, []) in at
    ensures [] in CopyPaths(at, src) && |CopyPaths(at, src)| >= 1
  {
    assert Node(src, []).path == [];
    assert [] in CopyPaths(at, src);
  }

  lemma StartCloning(v: AddressSpaces, z: Start, s0: VM)
    requires v.Valid() && v.State() == z.s && v.pmm.bitmap[..] == z.bits && v.loose == z.loose && v.reserved == z.reserved
    requires SpaceAdded(s0, z.s, z.dst) && Node(z.src, []) in s0.at && z.dst != z.s.kroot
    requires |z.reserved| + |s0.at| + |z.loose| + |CopyPaths(s0.at, z.src)| <= v.pmm.total
    ensures Cloning(v, z) && NoneUnder(z.s, z.dst, [])
  {
    hide Inv, EntryOf, ContentOf, EntryAt, Budget;
    GrewUnderRefl(z.s, z.dst, []);
    assert Node(z.dst, []) !in s0.at;
    assert CopyPaths(z.s.at, z.src) == CopyPaths(s0.at, z.src);
    RootCopied(s0.at, z.src);
    BudgetStart(s0.at, |z.reserved| + |z.loose|, v.pmm.total, z.dst, CopyPaths(s0.at, z.src));
    assert forall n :: n in z.s.at && n.root == z.dst ==> n.path == [];
  }

  lemma ClonedAll(v: AddressSpaces, z: Start, s0: VM, b0: seq<byte>)
    requires Cloning(v, z) && SpaceAdded(s0, z.s, z.dst) && |b0| == |z.bits| && v.pmm.total <= 8 * |b0|
    requires forall f: nat | f < v.pmm.total && Marked(b0, f) :: Marked(z.bits, f)
    requires z.dst < v.pmm.total && !Marked(b0, z.dst)
    ensures Untouched(s0, v.State())
    ensures forall n | n in s0.at :: n in v.at && v.at[n] == s0.at[n]
    ensures forall n | n in v.at && n !in s0.at :: n.root == z.dst && v.at[n] < v.pmm.total && !Marked(b0, v.at[n])
  {
    hide Inv, EntryOf, ContentOf, EntryAt, Budget, Marked;
  }

  lemma CloningKeeps(v: AddressSpaces, z: Start)
    requires Cloning(v, z)
    ensures v.Valid() && v.loose == z.loose && Node(z.dst, []) in v.at
  {
    hide Inv, EntryOf, ContentOf, Budget;
  }

  lemma SamePageFromBefore(s: VM, z: VM, t: VM, src: nat, dst: nat, q: Path)
    requires SpaceAdded(s, z, dst) && SamePage(z, t, src, dst, q) && FullPath(q)
    ensures SamePage(s, t, src, dst, q)
  {
    hide EntryOf, ContentOf;
    assert q != [];
  }

  /**
   * What the clone means to the two processes: at every address from 2^39 on, the processor finds
   * a page in both spaces or in neither, with the same flags, the same rights and the same bytes,
   * but in different frames; below 2^39 both see the kernel.
   */
  lemma CloneTranslates(s: VM, t: VM, src: nat, dst: nat, q: Path)
    requires Inv(s) && Inv(t) && t.kroot == s.kroot && Untouched(s, t) && FullPath(q)
    requires Node(src, []) in s.at && Node(dst, []) in t.at && src != dst && src != s.kroot && dst != s.kroot
    requires q[0] != 0 ==> SamePage(s, t, src, dst, q)
    ensures var a, b := Walk(t.mem, src, q), Walk(t.mem, dst, q);
      && (q[0] == 0 ==> a == b)
      && (q[0] != 0 && Node(src, q) !in s.at && Node(src, q) !in t.at ==> a == Unmapped && b == Unmapped)
      && (q[0] != 0 && Node(src, q) in s.at ==>
            && a.Mapped? && b.Mapped? && a.flags == b.flags && a.user == b.user && a.writable == b.writable
            && a.frame != b.frame && a.frame < |t.mem| && b.frame < |t.mem| && t.mem[a.frame] == t.mem[b.frame])
  {
    hide Inv, EntryAt;
    if q[0] == 0 {
      KernelRegionAgrees(t, src, q);
      KernelRegionAgrees(t, dst, q);
    } else {
      WalkFindsPages(t, src, q);
      WalkFindsPages(t, dst, q);
      if Node(src, q) in s.at {
        PageThere(t, Node(src, q));
        PageThere(t, Node(dst, q));
        DistinctFrames(t, Node(src, q), Node(dst, q));
      }
    }
  }

  lemma DistinctFrames(t: VM, a: Node, b: Node)
    requires Inv(t) && a in t.at && b in t.at && a != b
    ensures t.at[a] != t.at[b]
  {
  }

  /** Cloning and then destroying the clone leaves the frame bitmap exactly as it was. */
  method CloneThenDestroy(v: AddressSpaces, src: nat)
    requires v.Valid() && Node(src, []) in v.at
    requires v.pmm.used + |CopyPaths(v.at, src)| <= v.pmm.total
    modifies v`at, v`own, v`loose, v.pmm`used, v.pmm.bitmap, v.mem
    ensures v.Valid() && v.at == old(v.at) && v.loose == old(v.loose)
    ensures forall f: nat | f < v.pmm.total :: Marked(v.pmm.bitmap[..], f) <==> Marked(old(v.pmm.bitmap[..]), f)
    ensures v.pmm.used == old(v.pmm.used)
  {
    hide Inv, SamePage, EntryOf, ContentOf, Marked, EntryAt, Untouched, Walk;
    v.UsedIsKnown();
    v.SameOwners();
    ghost var at0, own0 := v.at, v.own;
    var dst := Clone(v, src);
    NotFrameZero(v, dst);
    KeptExactly(at0, v.at, dst);
    v.Destroy(dst);
    assert v.at == at0;
    v.SameOwners();
    SameOwnedFrames(at0, own0, v.own);
    v.UsedIsKnown();
  }

  lemma KeptExactly(at0: map<Node, nat>, at: map<Node, nat>, dst: nat)
    requires forall n :: n in at0 ==> n.root != dst && n in at && at[n] == at0[n]
    requires forall n :: n in at && n !in at0 ==> n.root == dst
    ensures forall n :: n in at0 <==> n in at && n.root != dst
  {
  }

  /** The tree determines which frames are owned. */
  lemma SameOwnedFrames(at: map<Node, nat>, own: map<nat, Node>, own2: map<nat, Node>)
    requires forall n :: n in at ==> at[n] in own && at[n] in own2
    requires forall f :: f in own ==> own[f] in at && at[own[f]] == f
    requires forall f :: f in own2 ==> own2[f] in at && at[own2[f]] == f
    ensures own.Keys == own2.Keys
  {
    forall f | f in own ensures f in own2 {
      assert at[own[f]] in own2;
    }
    forall f | f in own2 ensures f in own {
      assert at[own2[f]] in own;
    }
  }

  lemma NotFrameZero(v: AddressSpaces, dst: nat)
    requires v.Valid() && Node(dst, []) in v.at
    ensures dst != 0
  {
    hide Inv;
    RootFrame(v.State(), dst);
    v.SameOwners();
    v.OwnersInRange();
  }
}
