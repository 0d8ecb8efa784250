/** What well-formed tables mean to the processor: translation, isolation, and access rights. */
module Translations {
  import opened PageTables

  // ---- the walk finds exactly the leaves of the tree -------------------------------------------

  /** The translation that the tree of space r gives page p. */
  function Expected(s: VM, r: nat, p: Path): Translation
    requires FullPath(p)
  {
    if Node(r, p) in s.at then
      Mapped(s.at[Node(r, p)], EntryOf(s, Node(r, p)).flags, User(EntryOf(s, Node(r, p))), Writable(EntryOf(s, Node(r, p))), false)
    else Unmapped
  }

  /** Rights gathered down to level k: user access exactly if the entry just passed grants it. */
  predicate RightsSoFar(s: VM, r: nat, p: Path, k: nat, user: bool)
    requires FullPath(p) && k <= 4
  {
    user == (k == 0 || User(EntryOf(s, Node(r, p[..k]))))
  }

  /** One level of the walk, seen in the tree. */
  lemma WalkStep(s: VM, r: nat, p: Path, k: nat)
    requires Inv(s) && FullPath(p) && k < 4 && Node(r, p[..k]) in s.at && (k == 0 ==> (p[0] == 0 <==> r == s.kroot))
    ensures var e := EntryAt(s, Node(r, p[..k]), p[k]);
      var c := Node(r, p[..k + 1]);
      && EntryOf(s, c) == e
      && (c in s.at ==>
            && Present(e) && e.frame == s.at[c] && (k < 3 ==> Writable(e) && !Huge(e))
            && (k > 0 && User(e) ==> User(EntryOf(s, Node(r, p[..k])))))
      && (c !in s.at ==> !Present(e) || (r == s.kroot && k >= 1 && (k < 3 ==> Huge(e))))
  {
    hide Shape, KernelShared, EntryAt, Present, Writable, Huge, User;
    var n := Node(r, p[..k]);
    var c := Node(r, p[..k + 1]);
    assert c.path == n.path + [p[k]] && c == Child(n, p[k]);
    ParentOfChild(n, p[k]);
    assert EntryOk(s, c) && DownAt(s, n, p[k]);
  }

  lemma TableThere(s: VM, n: Node)
    requires Inv(s) && n in s.at && |n.path| < 4
    ensures s.at[n] < |s.mem| && s.mem[s.at[n]].Table?
  {
  }

  /** Prefixes of a node are nodes. */
  lemma {:induction false} PrefixThere(s: VM, r: nat, p: Path, k: nat)
    requires Inv(s) && Node(r, p) in s.at && k <= |p|
    ensures Node(r, p[..k]) in s.at
    decreases |p| - k
  {
    hide Shape, Down, KernelShared, EntryOf;
    if k == |p| {
      assert p[..k] == p;
    } else {
      PrefixThere(s, r, p, k + 1);
      assert EntryOk(s, Node(r, p[..k + 1]));
      assert p[..k + 1][..k] == p[..k];
    }
  }

  lemma {:induction false} WalkFromNode(s: VM, r: nat, p: Path, k: nat, user: bool)
    requires Inv(s) && FullPath(p) && k < 4 && Node(r, p[..k]) in s.at && (k == 0 ==> (p[0] == 0 <==> r == s.kroot))
    requires RightsSoFar(s, r, p, k, user)
    ensures var w := WalkFrom(s.mem, s.at[Node(r, p[..k])], p, k, user, true);
      w == Expected(s, r, p) || (Node(r, p) !in s.at && r == s.kroot)
    decreases 4 - k
  {
    hide Inv, EntryOf;
    var n := Node(r, p[..k]);
    var c := Node(r, p[..k + 1]);
    assert p[..4] == p;
    WalkStep(s, r, p, k);
    TableThere(s, n);
    if c in s.at {
      if k < 3 {
        WalkFromNode(s, r, p, k + 1, user && User(EntryAt(s, n, p[k])));
      }
    } else if Node(r, p) in s.at {
      PrefixThere(s, r, p, k + 1);
    }
  }

  /**
   * The hardware walk of a space's own half of the address space finds exactly the pages of its
   * tree, and the rights left after four levels are the leaf's own user and writable bits. Only
   * the kernel has other mappings besides: huge pages and memory nobody allocated.
   */
  lemma WalkFindsPages(s: VM, r: nat, p: Path)
    requires Inv(s) && FullPath(p) && Node(r, []) in s.at && (p[0] == 0 <==> r == s.kroot)
    ensures r != s.kroot ==> Walk(s.mem, r, p) == Expected(s, r, p)
    ensures Node(r, p) in s.at ==> Walk(s.mem, r, p) == Expected(s, r, p)
  {
    assert p[..0] == [];
    RootFrame(s, r);
    WalkFromNode(s, r, p, 0, true);
  }

  lemma RootFrame(s: VM, r: nat)
    requires Inv(s) && Node(r, []) in s.at
    ensures s.at[Node(r, [])] == r
  {
  }

  /** Below 2^39 every space sees exactly what the kernel sees. */
  lemma KernelRegionAgrees(s: VM, r: nat, p: Path)
    requires Inv(s) && FullPath(p) && p[0] == 0 && Node(r, []) in s.at
    ensures Walk(s.mem, r, p) == Walk(s.mem, s.kroot, p)
  {
    hide Inv;
    KernelRootThere(s);
    RootFrame(s, r);
    RootFrame(s, s.kroot);
    TableThere(s, Node(r, []));
    TableThere(s, Node(s.kroot, []));
    SameFirstEntry(s, r);
    hide EntryAt;
    assert s.mem[r].e[0] == s.mem[s.kroot].e[0];
  }

  lemma SameFirstEntry(s: VM, r: nat)
    requires Inv(s) && Node(r, []) in s.at
    ensures EntryAt(s, Node(r, []), 0) == EntryAt(s, Node(s.kroot, []), 0)
  {
  }

  /** Below 2^39 no walk of any space grants user mode anything. */
  lemma KernelHalfClosed(s: VM, r: nat, p: Path)
    requires Inv(s) && FullPath(p) && p[0] == 0 && Node(r, []) in s.at
    ensures Walk(s.mem, r, p).Mapped? ==> !Walk(s.mem, r, p).user
  {
    RootFrame(s, r);
    TableThere(s, Node(r, []));
    assert !User(EntryAt(s, Node(r, []), 0));
    if Present(s.mem[r].e[0]) && !Huge(s.mem[r].e[0]) {
      NoUserFurther(s.mem, s.mem[r].e[0].frame, p, 1, Writable(s.mem[r].e[0]));
    }
  }

  /** Rights lost at one level stay lost. */
  lemma {:induction false} NoUserFurther(mem: seq<Frame>, f: nat, p: Path, level: nat, writable: bool)
    requires FullPath(p) && level < 4
    ensures var w := WalkFrom(mem, f, p, level, false, writable); w.Mapped? ==> !w.user
    decreases 4 - level
  {
    if f < |mem| && mem[f].Table? && level < 3 {
      NoUserFurther(mem, mem[f].e[p[level]].frame, p, level + 1, writable && Writable(mem[f].e[p[level]]));
    }
  }

  /** No entry in the kernel's own tables is open to user mode. */
  lemma {:induction false} NoKernelUser(s: VM, n: Node)
    requires Inv(s) && n in s.at && n.root == s.kroot && n.path != []
    ensures !User(EntryOf(s, n))
    decreases |n.path|
  {
    hide EntryAt, Shape, Down;
    assert EntryOk(s, n);
    if |n.path| == 1 {
      assert n.path == [0] && Parent(n) == Node(s.kroot, []) && Last(n) == 0;
    } else {
      NoKernelUser(s, Parent(n));
    }
  }

  // ---- what mapping in one space leaves alone -----------------------------------------------------------

  /** What the frame of node n holds. */
  function ContentOf(s: VM, n: Node): Frame {
    if n in s.at && s.at[n] < |s.mem| then s.mem[s.at[n]] else Table(NoEntries())
  }

  /**
   * t comes from s by mapping page p of space `root`: nodes keep their frames, new nodes lie on
   * the way to p, every other page keeps its entry and content, and no frame of another space
   * is written.
   */
  ghost predicate Grew(s: VM, t: VM, root: nat, p: Path) {
    && t.kroot == s.kroot && |t.mem| == |s.mem|
    && (forall n :: n in s.at && n != Node(root, p) ==> n in t.at && t.at[n] == s.at[n])
    && (forall n :: n in t.at && n !in s.at ==> n.root == root && n.path <= p && n.path != [])
    && (forall n :: n in s.at && |n.path| == 4 && n != Node(root, p) ==> EntryOf(t, n) == EntryOf(s, n) && ContentOf(t, n) == ContentOf(s, n))
    && (forall n :: n in s.at && n.root != root ==> ContentOf(t, n) == ContentOf(s, n))
    && (forall n :: n in s.at && n.path == [] ==> EntryAt(t, n, 0) == EntryAt(s, n, 0))
    && SameBare(s, t)
  }

  /** The same huge pages and the same mappings of memory nobody allocated. */
  ghost predicate SameBare(s: VM, t: VM) {
    forall n, x: nat :: (Bare(t, n, x) <==> Bare(s, n, x)) && (Bare(s, n, x) ==> EntryAt(t, n, x) == EntryAt(s, n, x))
  }

  /**
   * Mapping is a one-point update of the flat page map: of exactly one space from 2^39 on, of all
   * spaces at once when the page lies below it, in the tables they share with the kernel.
   */
  lemma MapIsPointUpdate(s: VM, t: VM, root: nat, p: Path, r: nat, q: Path)
    requires Inv(s) && Inv(t) && Grew(s, t, root, p)
    requires FullPath(p) && FullPath(q) && (p[0] == 0 <==> root == s.kroot)
    requires Node(root, []) in s.at && Node(r, []) in s.at && Node(root, p) in t.at
    ensures Node(r, []) in t.at
    ensures Walk(t.mem, r, q) ==
      if q == p && (r == root || p[0] == 0) then
        Mapped(t.at[Node(root, p)], EntryOf(t, Node(root, p)).flags, User(EntryOf(t, Node(root, p))), Writable(EntryOf(t, Node(root, p))), false)
      else Walk(s.mem, r, q)
  {
    hide Inv, EntryOf, EntryAt, SameBare;
    if q == p && (r == root || p[0] == 0) {
      RootKept(s, t, root, p, r);
      if p[0] == 0 {
        KernelRegionAgrees(t, r, q);
      }
      WalkFindsPages(t, root, p);
    } else {
      MapElsewhere(s, t, root, p, r, q);
    }
  }

  lemma RootKept(s: VM, t: VM, root: nat, p: Path, r: nat)
    requires Grew(s, t, root, p) && FullPath(p) && Node(r, []) in s.at
    ensures Node(r, []) in t.at && t.kroot == s.kroot
  {
    hide EntryOf, EntryAt, SameBare;
  }

  /** Every other page of every space translates as before. */
  lemma MapElsewhere(s: VM, t: VM, root: nat, p: Path, r: nat, q: Path)
    requires Inv(s) && Inv(t) && Grew(s, t, root, p)
    requires FullPath(p) && FullPath(q) && (p[0] == 0 <==> root == s.kroot)
    requires Node(r, []) in s.at && !(q == p && (r == root || p[0] == 0))
    ensures Node(r, []) in t.at && Walk(t.mem, r, q) == Walk(s.mem, r, q)
  {
    hide Inv, EntryOf, EntryAt, SameBare;
    if q[0] == 0 {
      KernelRegionAgrees(s, r, q);
      KernelRegionAgrees(t, r, q);
      KernelWalkSame(s, t, root, p, q);
    } else if r != s.kroot {
      WalkFindsPages(s, r, q);
      WalkFindsPages(t, r, q);
    } else {
      KernelHasNoUserHalf(s, q);
      KernelHasNoUserHalf(t, q);
    }
  }

  /** No huge page of the shared half lies on the way to p. */
  ghost predicate Clear(s: VM, p: Path) {
    FullPath(p) && p[0] == 0 ==> !Bare(s, Node(s.kroot, p[..1]), p[1]) && !Bare(s, Node(s.kroot, p[..2]), p[2])
  }

  /** Nor is p itself mapped to memory nobody allocated. */
  ghost predicate ClearLeaf(s: VM, p: Path) {
    FullPath(p) && p[0] == 0 ==> !Bare(s, Node(s.kroot, p[..3]), p[3])
  }

  lemma ClearKept(s: VM, t: VM, root: nat, p: Path, q: Path)
    requires Grew(s, t, root, p)
    ensures Clear(s, q) ==> Clear(t, q)
    ensures ClearLeaf(s, q) ==> ClearLeaf(t, q)
  {
    hide Bare, EntryOf, EntryAt;
  }

  lemma NoBareInUser(s: VM, n: Node, x: nat)
    requires Inv(s) && (n.root != s.kroot || n.path == [])
    ensures !Bare(s, n, x)
  {
    hide Shape, Up, KernelShared, EntryAt;
    if n in s.at {
      assert DownAt(s, n, x);
    }
  }

  /** The kernel root has nothing at or above 2^39. */
  lemma KernelHasNoUserHalf(s: VM, q: Path)
    requires Inv(s) && FullPath(q) && q[0] != 0
    ensures Walk(s.mem, s.kroot, q) == Unmapped
  {
    var n := Node(s.kroot, []);
    KernelRootThere(s);
    RootFrame(s, s.kroot);
    TableThere(s, n);
    assert DownAt(s, n, q[0]);
    assert Child(n, q[0]) !in s.at by { assert EntryOk(s, Child(n, q[0])); }
  }

  /** The kernel's walk of every page but the one mapped is what it was. */
  lemma KernelWalkSame(s: VM, t: VM, root: nat, p: Path, q: Path)
    requires Inv(s) && Inv(t) && Grew(s, t, root, p) && FullPath(p) && FullPath(q) && q[0] == 0 && q != p
    ensures Walk(t.mem, s.kroot, q) == Walk(s.mem, s.kroot, q)
  {
    hide Inv, SameBare;
    KernelRootThere(s);
    RootFrame(s, s.kroot);
    assert q[..0] == [];
    KernelWalkFrom(s, t, root, p, q, 0, true, true);
  }

  lemma {:induction false} KernelWalkFrom(s: VM, t: VM, root: nat, p: Path, q: Path, k: nat, user: bool, writable: bool)
    requires Inv(s) && Inv(t) && Grew(s, t, root, p) && FullPath(p) && FullPath(q) && q[0] == 0 && q != p && k < 4
    requires Node(s.kroot, q[..k]) in s.at
    ensures Node(s.kroot, q[..k]) in t.at && t.at[Node(s.kroot, q[..k])] == s.at[Node(s.kroot, q[..k])]
    ensures WalkFrom(t.mem, s.at[Node(s.kroot, q[..k])], q, k, user, writable) == WalkFrom(s.mem, s.at[Node(s.kroot, q[..k])], q, k, user, writable)
    decreases 4 - k
  {
    hide Inv, EntryOf, EntryAt, Grew, SameBare, Bare;
    var n, c := Node(s.kroot, q[..k]), Node(s.kroot, q[..k + 1]);
    assert c == Child(n, q[k]) && q[..4] == q;
    GrewNodes(s, t, root, p, n);
    TableEntries(s, n, q[k]);
    TableEntries(t, n, q[k]);
    KernelStep(s, q, k);
    KernelStep(t, q, k);
    if c in s.at {
      GrewNodes(s, t, root, p, c);
      if k < 3 {
        KernelWalkFrom(s, t, root, p, q, k + 1, false, writable);
      } else {
        GrewLeaf(s, t, root, p, c);
      }
    } else if Bare(s, n, q[k]) {
      GrewBare(s, t, root, p, n, q[k]);
    } else {
      GrewBare(s, t, root, p, n, q[k]);
      if c in t.at {
        NewTablesEmpty(s, t, root, p, q, k + 1, false, writable);
      }
    }
  }

  lemma GrewNodes(s: VM, t: VM, root: nat, p: Path, n: Node)
    requires Grew(s, t, root, p) && n in s.at && n != Node(root, p)
    ensures n in t.at && t.at[n] == s.at[n] && t.kroot == s.kroot
  {
    hide SameBare;
  }

  lemma GrewLeaf(s: VM, t: VM, root: nat, p: Path, n: Node)
    requires Grew(s, t, root, p) && n in s.at && n != Node(root, p) && |n.path| == 4
    ensures EntryOf(t, n) == EntryOf(s, n)
  {
    hide SameBare, EntryOf;
  }

  lemma GrewBare(s: VM, t: VM, root: nat, p: Path, n: Node, x: nat)
    requires Grew(s, t, root, p)
    ensures (Bare(t, n, x) <==> Bare(s, n, x)) && (Bare(s, n, x) ==> EntryAt(t, n, x) == EntryAt(s, n, x))
  {
    hide Bare, EntryOf, EntryAt;
  }

  lemma GrewNew(s: VM, t: VM, root: nat, p: Path, n: Node)
    requires Grew(s, t, root, p) && n in t.at && n !in s.at
    ensures n.root == root && n.path <= p && n.path != []
  {
    hide SameBare;
  }

  lemma TableEntries(s: VM, n: Node, x: nat)
    requires Inv(s) && n in s.at && |n.path| < 4 && x < ENTRIES
    ensures s.at[n] < |s.mem| && s.mem[s.at[n]].Table? && s.mem[s.at[n]].e[x] == EntryAt(s, n, x)
  {
    TableThere(s, n);
  }

  /** One level of a walk through the kernel's tables: on to a node, to a bare entry, or nowhere. */
  lemma KernelStep(s: VM, q: Path, k: nat)
    requires Inv(s) && FullPath(q) && q[0] == 0 && k < 4 && Node(s.kroot, q[..k]) in s.at
    ensures var n, c := Node(s.kroot, q[..k]), Node(s.kroot, q[..k + 1]);
      var e := EntryAt(s, n, q[k]);
      && EntryOf(s, c) == e
      && (c in s.at ==> Present(e) && !User(e) && e.frame == s.at[c] && (k < 3 ==> Writable(e) && !Huge(e)))
      && (c !in s.at && Present(e) ==> Bare(s, n, q[k]) && (k < 3 ==> Huge(e)))
      && (Bare(s, n, q[k]) ==> c !in s.at && Present(e))
  {
    hide Inv, EntryAt, EntryOf;
    var n, c := Node(s.kroot, q[..k]), Node(s.kroot, q[..k + 1]);
    assert c == Child(n, q[k]);
    WalkStep(s, s.kroot, q, k);
    if c in s.at {
      NoKernelUser(s, c);
    }
  }

  /** A walk that turns into tables made on the way to p and leaves that way finds nothing. */
  lemma {:induction false} NewTablesEmpty(s: VM, t: VM, root: nat, p: Path, q: Path, k: nat, user: bool, writable: bool)
    requires Inv(s) && Inv(t) && Grew(s, t, root, p) && FullPath(p) && FullPath(q) && q[0] == 0 && q != p && 1 <= k <= 4
    requires Node(s.kroot, q[..k]) in t.at && Node(s.kroot, q[..k]) !in s.at
    ensures k < 4 && WalkFrom(t.mem, t.at[Node(s.kroot, q[..k])], q, k, user, writable) == Unmapped
    decreases 4 - k
  {
    hide Inv, EntryOf, EntryAt, Grew, SameBare;
    var n := Node(s.kroot, q[..k]);
    GrewNew(s, t, root, p, n);
    assert q[..4] == q;
    if k < 4 {
      var c := Node(s.kroot, q[..k + 1]);
      assert c == Child(n, q[k]) && t.kroot == s.kroot by { GrewRoots(s, t, root, p); }
      TableEntries(t, n, q[k]);
      KernelStep(t, q, k);
      GrewBare(s, t, root, p, n, q[k]);
      if c in t.at {
        ParentFirst(s, c, n, q[k]);
        NewTablesEmpty(s, t, root, p, q, k + 1, user && User(EntryAt(t, n, q[k])), writable && Writable(EntryAt(t, n, q[k])));
      }
    }
  }

  lemma GrewRoots(s: VM, t: VM, root: nat, p: Path)
    requires Grew(s, t, root, p)
    ensures t.kroot == s.kroot
  {
  }

  lemma ParentFirst(s: VM, c: Node, n: Node, x: nat)
    requires Inv(s) && n !in s.at && c == Child(n, x)
    ensures c !in s.at
  {
    hide EntryOf;
    ParentOfChild(n, x);
    assert EntryOk(s, c);
  }

  // ---- walks depend on the entries alone ---------------------------------------------------------------

  /** The same tree and the same entries on the way to q: the same translation. */
  lemma {:induction false} WalkByEntries(s: VM, t: VM, r: nat, q: Path, k: nat, user: bool, writable: bool)
    requires Inv(s) && Inv(t) && t.at == s.at && t.kroot == s.kroot && FullPath(q) && k < 4
    requires Node(r, q[..k]) in s.at && (k == 0 ==> (q[0] == 0 <==> r == s.kroot))
    requires forall j | k <= j < 4 :: EntryAt(t, Node(r, q[..j]), q[j]) == EntryAt(s, Node(r, q[..j]), q[j])
    ensures var f := s.at[Node(r, q[..k])]; WalkFrom(t.mem, f, q, k, user, writable) == WalkFrom(s.mem, f, q, k, user, writable)
    decreases 4 - k
  {
    hide Inv, EntryAt, EntryOf;
    var n, c := Node(r, q[..k]), Node(r, q[..k + 1]);
    TableEntries(s, n, q[k]);
    TableEntries(t, n, q[k]);
    WalkStep(s, r, q, k);
    var e := EntryAt(s, n, q[k]);
    if k < 3 && c in s.at {
      WalkByEntries(s, t, r, q, k + 1, user && User(e), writable && Writable(e));
    }
  }

  ghost predicate EntriesAgree(s: VM, t: VM, r: nat, q: Path)
    requires FullPath(q)
  {
    forall j | 0 <= j < 4 :: EntryAt(t, Node(r, q[..j]), q[j]) == EntryAt(s, Node(r, q[..j]), q[j])
  }

  lemma SameWalk(s: VM, t: VM, r: nat, q: Path)
    requires Inv(s) && Inv(t) && t.at == s.at && t.kroot == s.kroot && FullPath(q) && Node(r, []) in s.at
    requires EntriesAgree(s, t, if q[0] == 0 then s.kroot else r, q)
    ensures Walk(t.mem, r, q) == Walk(s.mem, r, q)
  {
    hide Inv, EntryAt;
    KernelRootThere(s);
    RootFrame(s, r);
    RootFrame(s, s.kroot);
    assert q[..0] == [];
    if q[0] == 0 {
      KernelRegionAgrees(s, r, q);
      KernelRegionAgrees(t, r, q);
      WalkByEntries(s, t, s.kroot, q, 0, true, true);
    } else if r == s.kroot {
      KernelHasNoUserHalf(s, q);
      KernelHasNoUserHalf(t, q);
    } else {
      WalkByEntries(s, t, r, q, 0, true, true);
    }
  }

  /** Mapping memory nobody allocated changes the one page below 2^39, in every space, and nothing else. */
  lemma BareIsPointUpdate(s: VM, p: Path, e: PTE, r: nat, q: Path)
    requires FullPath(p) && p[0] == 0 && FullPath(q) && Node(r, []) in s.at && CanSetBare(s, Node(s.kroot, p[..3]), p[3], e)
    ensures var t := SetBare(s, Node(s.kroot, p[..3]), p[3], e);
      Walk(t.mem, r, q) == if q == p then Mapped(e.frame, e.flags, false, Writable(e), false) else Walk(s.mem, r, q)
  {
    hide Inv, CanSetBare, EntryAt, SetBare;
    var n := Node(s.kroot, p[..3]);
    SetBareParts(s, n, p[3], e);
    var t := SetBare(s, n, p[3], e);
    assert Child(n, p[3]) == Node(s.kroot, p) by { assert p[..3] + [p[3]] == p; }
    if q == p {
      KernelRegionAgrees(t, r, p);
      SetBareEntry(s, n, p[3], e, n, p[3]);
      BareWalk(t, p, e);
    } else {
      forall m: Node, y: nat | !(m == n && y == p[3]) ensures EntryAt(t, m, y) == EntryAt(s, m, y) {
        SetBareEntry(s, n, p[3], e, m, y);
      }
      forall j: nat | j < 4 ensures !(q[..j] == p[..3] && q[j] == p[3]) {
        if q[..j] == p[..3] && q[j] == p[3] {
          PathEnds(p, q, j);
        }
      }
      SameWalk(s, t, r, q);
    }
  }

  lemma PathEnds(p: Path, q: Path, j: nat)
    requires FullPath(p) && FullPath(q) && j < 4 && q[..j] == p[..3] && q[j] == p[3]
    ensures q == p
  {
    assert |q[..j]| == j;
    assert q == q[..3] + [q[3]] && p == p[..3] + [p[3]];
  }

  lemma SetBareParts(s: VM, n: Node, x: nat, e: PTE)
    requires CanSetBare(s, n, x, e)
    ensures n in s.at && Inv(s) && Present(e) && !User(e) && Child(n, x) !in s.at
    ensures var t := SetBare(s, n, x, e); Inv(t) && t.at == s.at && t.kroot == s.kroot
  {
    hide Inv;
    SetBareInv(s, n, x, e);
  }

  /** The kernel's walk down to a page that has an entry but no node. */
  lemma BareWalk(t: VM, p: Path, e: PTE)
    requires Inv(t) && FullPath(p) && p[0] == 0 && Node(t.kroot, p[..3]) in t.at && Node(t.kroot, p) !in t.at
    requires EntryAt(t, Node(t.kroot, p[..3]), p[3]) == e && Present(e)
    ensures Walk(t.mem, t.kroot, p) == Mapped(e.frame, e.flags, false, Writable(e), false)
  {
    hide Inv, EntryAt, EntryOf;
    assert p[..3][..0] == [] && p[..3][..1] == p[..1] && p[..3][..2] == p[..2] && p[..3][..3] == p[..3] && p[..0] == [] && p[..4] == p;
    PrefixThere(t, t.kroot, p[..3], 0);
    PrefixThere(t, t.kroot, p[..3], 1);
    PrefixThere(t, t.kroot, p[..3], 2);
    RootFrame(t, t.kroot);
    forall k: nat | k < 4 ensures var n := Node(t.kroot, p[..k]);
      t.at[n] < |t.mem| && t.mem[t.at[n]].Table? && t.mem[t.at[n]].e[p[k]] == EntryAt(t, n, p[k])
    {
      TableEntries(t, Node(t.kroot, p[..k]), p[k]);
    }
    KernelStep(t, p, 0);
    KernelStep(t, p, 1);
    KernelStep(t, p, 2);
    LastLevel(t.mem, t.at[Node(t.kroot, p[..3])], p, e);
    assert WalkFrom(t.mem, t.at[Node(t.kroot, p[..2])], p, 2, false, true) == Mapped(e.frame, e.flags, false, Writable(e), false);
    assert WalkFrom(t.mem, t.at[Node(t.kroot, p[..1])], p, 1, false, true) == Mapped(e.frame, e.flags, false, Writable(e), false);
  }

  lemma LastLevel(mem: seq<Frame>, f: nat, p: Path, e: PTE)
    requires f < |mem| && mem[f].Table? && FullPath(p) && mem[f].e[p[3]] == e && Present(e)
    ensures WalkFrom(mem, f, p, 3, false, true) == Mapped(e.frame, e.flags, false, Writable(e), false)
  {
  }

  // ---- the elementary changes grow the tree ----------------------------------------------------------------

  lemma GrewRefl(s: VM, root: nat, p: Path)
    requires Inv(s)
    ensures Grew(s, s, root, p)
  {
  }

  lemma GrewTransitive(s: VM, t: VM, u: VM, root: nat, p: Path)
    requires FullPath(p) && Grew(s, t, root, p) && Grew(t, u, root, p)
    ensures Grew(s, u, root, p)
  {
    hide EntryOf, EntryAt, ContentOf;
  }

  /** Only the table that gets the entry is rewritten. */
  lemma AddChildContent(s: VM, n: Node, x: nat, f: nat, flags: bv12, content: Frame, m: Node)
    requires CanAdd(s, n, x, f, flags, content) && m in s.at && m != n && m != Child(n, x)
    ensures var t := AddChild(s, n, x, f, flags, content);
      m in t.at && t.at[m] == s.at[m] && ContentOf(t, m) == ContentOf(s, m)
  {
    hide Up, Down, KernelShared, EntryOf, EntryAt;
  }

  lemma AddChildGrew(s: VM, n: Node, x: nat, f: nat, flags: bv12, content: Frame, p: Path)
    requires CanAdd(s, n, x, f, flags, content) && Child(n, x).path <= p && FullPath(p) && !Bare(s, n, x)
    ensures Grew(s, AddChild(s, n, x, f, flags, content), n.root, p)
    ensures EntryOf(AddChild(s, n, x, f, flags, content), Child(n, x)) == PTE(f, flags)
  {
    hide CanAdd, AddChild, EntryOf, EntryAt, ContentOf, SameBare, Bare;
    AddChildNodes(s, n, x, f, flags, content);
    AddChildBare(s, n, x, f, flags, content);
    var t := AddChild(s, n, x, f, flags, content);
    var c := Child(n, x);
    assert |c.path| == |n.path| + 1;
    AddChildEntryOf(s, n, x, f, flags, content, c);
    forall m | m in s.at ensures EntryOf(t, m) == if m == c then PTE(f, flags) else EntryOf(s, m) {
      AddChildEntryOf(s, n, x, f, flags, content, m);
    }
    forall m | m in s.at && m != n && m != c ensures m in t.at && t.at[m] == s.at[m] && ContentOf(t, m) == ContentOf(s, m) {
      AddChildContent(s, n, x, f, flags, content, m);
    }
    forall m | m in s.at && m.path == [] ensures EntryAt(t, m, 0) == EntryAt(s, m, 0) {
      AddChildEntry(s, n, x, f, flags, content, m, 0);
    }
  }

  lemma AddChildBare(s: VM, n: Node, x: nat, f: nat, flags: bv12, content: Frame)
    requires CanAdd(s, n, x, f, flags, content) && !Bare(s, n, x)
    ensures SameBare(s, AddChild(s, n, x, f, flags, content))
  {
    hide CanAdd, AddChild, EntryAt, Present;
    AddChildNodes(s, n, x, f, flags, content);
    var t := AddChild(s, n, x, f, flags, content);
    var c := Child(n, x);
    ChildPath(n, x);
    forall m, y: nat ensures (Bare(t, m, y) <==> Bare(s, m, y)) && (Bare(s, m, y) ==> EntryAt(t, m, y) == EntryAt(s, m, y)) {
      AddChildEntry(s, n, x, f, flags, content, m, y);
      ParentOfChild(m, y);
      ParentOfChild(n, x);
      if m == c && c !in s.at {
        NoEntryAt(s, c, y);
      }
    }
  }

  lemma AddChildNodes(s: VM, n: Node, x: nat, f: nat, flags: bv12, content: Frame)
    requires CanAdd(s, n, x, f, flags, content)
    ensures var t := AddChild(s, n, x, f, flags, content);
      && n in s.at && |n.path| < 4 && (Child(n, x) in s.at ==> |n.path| == 3) && (n.path == [] ==> x != 0)
      && t.at == s.at[Child(n, x) := f] && t.kroot == s.kroot && |t.mem| == |s.mem|
  {
    hide Inv, EntryOf, User;
  }

  lemma OpenGrew(s: VM, n: Node, p: Path)
    requires CanOpen(s, n) && |n.path| < 4
    ensures Parent(n) in s.at && Grew(s, OpenToUser(s, n), n.root, p)
  {
    hide Up, Down, KernelShared, EntryOf, EntryAt, SameBare;
    CanOpenParent(s, n);
    var t := OpenToUser(s, n);
    forall m | m in s.at && |m.path| == 4 ensures EntryOf(t, m) == EntryOf(s, m) {
      OpenEntryOf(s, n, m);
    }
    UserEntriesNotShared(s, n);
    forall m | m in s.at && m.path == [] ensures EntryAt(t, m, 0) == EntryAt(s, m, 0) {
      OpenEntry(s, n, m, 0);
    }
    OpenBare(s, n);
  }

  lemma OpenBare(s: VM, n: Node)
    requires CanOpen(s, n)
    ensures Parent(n) in s.at && SameBare(s, OpenToUser(s, n))
  {
    hide Inv, EntryOf, EntryAt, Present, Huge, User;
    CanOpenParent(s, n);
    ChildOfParent(n);
    var t := OpenToUser(s, n);
    forall m, y: nat ensures (Bare(t, m, y) <==> Bare(s, m, y)) && (Bare(s, m, y) ==> EntryAt(t, m, y) == EntryAt(s, m, y)) {
      OpenEntry(s, n, m, y);
      KeepsBits(EntryAt(s, m, y));
    }
  }
}
