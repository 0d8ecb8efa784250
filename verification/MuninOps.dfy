/** munin_create and munin_unlink on filesystem values, and the invariant every operation keeps. */
module MuninOps {
  import opened Bytes
  import opened MuninState
  import opened MuninBlocks
  import opened MuninReplace
  import opened MuninTree
  import opened MuninNames

  /** The bookkeeping that witnesses a well-formed filesystem. */
  datatype Book = Book(owner: map<int, Place>, path: map<int, Path>, home: map<int, Home>)

  ghost predicate Inv(fs: FS, k: Book) {
    && BlocksInv(fs, k.owner)
    && FilesInv(fs)
    && TreeInv(fs, k.path, k.home)
    && AllNamed(fs, k.path)
  }

  // ---- munin_init --------------------------------------------------------------------------------

  function WithKind(f: Inode, kind: byte): Inode {
    Inode(kind, f.size, f.blocks, f.indirect)
  }

  function NewInode(kind: byte): Inode {
    Inode(kind, 0, NoPointers(), NO_BLOCK)
  }

  ghost const FreshBook := Book(map[], map[ROOT := []], map[])

  /** A formatted filesystem: no block used, the root directory the only inode. */
  ghost predicate Formatted(fs: FS) {
    && (forall b | 0 <= b < NUM_BLOCKS :: !Marked(fs.bits, b))
    && fs.inodes[ROOT] == NewInode(DIR)
    && (forall i | 0 < i < MAX_INODES :: fs.inodes[i].kind == FREE)
  }

  lemma FormattedInv(fs: FS)
    requires Formatted(fs)
    ensures Inv(fs, FreshBook)
    ensures forall comps :: Resolve(fs, comps) == if comps == [] then ROOT else -1
  {
    forall p | 0 <= p < PLACES ensures Slot(fs, ROOT, p) == NO_BLOCK {
    }
    forall q | 0 <= q < SLOTS ensures Ent(fs, ROOT, q) == NO_ENTRY {
    }
    assert Occupied(fs, ROOT) == {};
    assert NamesOk(fs, ROOT);
    assert TreeInv(fs, FreshBook.path, FreshBook.home);
    forall comps ensures Resolve(fs, comps) == if comps == [] then ROOT else -1 {
      if Resolve(fs, comps) >= 0 {
        ResolveIsInverse(fs, FreshBook.path, FreshBook.home, comps, Resolve(fs, comps));
      } else {
        ResolveNegative(fs, ROOT, comps);
      }
    }
  }

  // ---- alloc_inode -------------------------------------------------------------------------------

  /** The lowest free inode at or above i, or -1. */
  function FreeInodeFrom(fs: FS, i: nat): (r: int)
    requires i <= MAX_INODES
    ensures r == -1 || i <= r < MAX_INODES
    ensures r == -1 ==> forall j | i <= j < MAX_INODES :: fs.inodes[j].kind != FREE
    ensures r != -1 ==> fs.inodes[r].kind == FREE && forall j | i <= j < r :: fs.inodes[j].kind != FREE
    decreases MAX_INODES - i
  {
    if i == MAX_INODES then -1 else if fs.inodes[i].kind == FREE then i else FreeInodeFrom(fs, i + 1)
  }

  function WithInode(fs: FS, c: int, f: Inode): FS
    requires 0 <= c < MAX_INODES
  {
    FS(fs.inodes[c := f], fs.bits, fs.blocks)
  }

  /** Taking a free inode (of any kind, FREE included) disturbs nothing that is in use. */
  lemma FreeInodeReplaced(fs: FS, k: Book, c: int, kind: byte)
    requires BlocksInv(fs, k.owner) && FilesInv(fs) && TreeInv(fs, k.path, k.home)
    requires 0 <= c < MAX_INODES && fs.inodes[c].kind == FREE && kind in {FREE, FILE, DIR}
    ensures var gs := WithInode(fs, c, NewInode(kind));
      && BlocksInv(gs, k.owner) && FilesInv(gs) && TreeInv(gs, k.path, k.home)
      && (forall j | Live(fs, j) :: SameView(fs, gs, j))
  {
    var gs := WithInode(fs, c, NewInode(kind));
    hide TreeInv, Ent, EntName, GetWord;
    forall j, p | IsPlace(j, p) && j != c ensures Slot(gs, j, p) == Slot(fs, j, p) {
    }
    forall p | 0 <= p < PLACES ensures Slot(gs, c, p) == NO_BLOCK {
    }
    FreeInodeKeepsBlocks(fs, k.owner, c, kind);
    FreeInodeKeepsTree(fs, k.path, k.home, c, kind);
    forall i | IsFile(gs, i)
      ensures gs.inodes[i].size <= CAPACITY && forall q | gs.inodes[i].size <= q < CAPACITY :: FileByte(gs, i, q) == 0
    {
      if i != c {
        SameViewSlots(fs, gs, i);
      }
    }
  }

  lemma FreeInodeKeepsBlocks(fs: FS, owner: map<int, Place>, c: int, kind: byte)
    requires BlocksInv(fs, owner) && 0 <= c < MAX_INODES && fs.inodes[c].kind == FREE
    ensures BlocksInv(WithInode(fs, c, NewInode(kind)), owner)
  {
    hide GetWord;
    var gs := WithInode(fs, c, NewInode(kind));
    forall j, p | IsPlace(j, p) && j != c ensures Slot(gs, j, p) == Slot(fs, j, p) {
    }
    forall p | 0 <= p < PLACES ensures Slot(gs, c, p) == NO_BLOCK {
    }
    forall b | b in owner
      ensures IsPlace(owner[b].ino, owner[b].at) && Live(gs, owner[b].ino) && Slot(gs, owner[b].ino, owner[b].at) == b
    {
      assert Slot(fs, owner[b].ino, owner[b].at) == b;
    }
    forall i, p | IsPlace(i, p) && Live(gs, i) && Slot(gs, i, p) != NO_BLOCK
      ensures Slot(gs, i, p) in owner && owner[Slot(gs, i, p)] == Place(i, p)
    {
      assert Slot(gs, i, p) == Slot(fs, i, p);
    }
  }

  lemma NewInodeHasNoEntries(fs: FS, c: int, kind: byte)
    requires 0 <= c < MAX_INODES
    ensures var gs := WithInode(fs, c, NewInode(kind));
      NamesOk(gs, c) && forall q | 0 <= q < SLOTS :: Ent(gs, c, q) == NO_ENTRY
  {
    var gs := WithInode(fs, c, NewInode(kind));
    forall q | 0 <= q < SLOTS ensures Ent(gs, c, q) == NO_ENTRY {
    }
    hide Ent, EntName;
    assert Occupied(gs, c) == {};
  }

  lemma OtherInodeSame(fs: FS, c: int, f: Inode, d: int)
    requires 0 <= c < MAX_INODES && 0 <= d < MAX_INODES && d != c
    ensures SameView(fs, WithInode(fs, c, f), d)
  {
  }

  lemma FreeInodeKeepsTree(fs: FS, path: map<int, Path>, home: map<int, Home>, c: int, kind: byte)
    requires TreeInv(fs, path, home)
    requires 0 <= c < MAX_INODES && fs.inodes[c].kind == FREE && kind in {FREE, FILE, DIR}
    ensures TreeInv(WithInode(fs, c, NewInode(kind)), path, home)
  {
    hide Ent, EntName, NamesOk, SameView;
    var gs := WithInode(fs, c, NewInode(kind));
    NewInodeHasNoEntries(fs, c, kind);
    forall i | Live(gs, i) ensures IsFile(gs, i) || IsDir(gs, i) {
      assert i != c ==> Live(fs, i);
    }
    forall x | x in path ensures Live(gs, x) {
      assert Live(fs, x);
    }
    forall d | 0 <= d < MAX_INODES && d != c ensures SameEntries(fs, gs, d) {
      OtherInodeSame(fs, c, NewInode(kind), d);
      SameViewEntries(fs, gs, d);
    }
    forall x | x in home ensures HomeOk(gs, path, x, home[x]) {
      assert HomeOk(fs, path, x, home[x]);
      assert SameEntries(fs, gs, home[x].dir);
    }
    forall d | IsDir(gs, d) ensures NamesOk(gs, d) {
      if d != c {
        SameEntriesNames(fs, gs, d);
      }
    }
    forall d, q | IsDir(gs, d) && 0 <= q < SLOTS && Ent(gs, d, q) != NO_ENTRY
      ensures Ent(gs, d, q) in home && home[Ent(gs, d, q)] == Home(d, q)
    {
      assert d != c && SameEntries(fs, gs, d) && Ent(gs, d, q) == Ent(fs, d, q);
    }
  }

  // ---- munin_create --------------------------------------------------------------------------------

  function Finished(r: (FS, bool), c: int): (FS, int)
    requires 0 <= c < MAX_INODES
  {
    if r.1 then (r.0, c) else (WithInode(r.0, c, WithKind(r.0.inodes[c], FREE)), -1)
  }

  /** munin_create: the new state and the new inode, or -1. */
  function Create(fs: FS, d: int, name: Name, kind: byte): (r: (FS, int)) {
    if !IsDir(fs, d) || name == [] || |name| >= MAX_NAME || Child(fs, d, name) >= 0 || FreeInodeFrom(fs, 0) < 0 then (fs, -1)
    else Finished(AddFrom(WithInode(fs, FreeInodeFrom(fs, 0), NewInode(kind)), d, name, FreeInodeFrom(fs, 0), 0), FreeInodeFrom(fs, 0))
  }

  /** Nothing in use can be told apart: every live inode and all it reaches is the same. */
  ghost predicate Unchanged(fs: FS, gs: FS) {
    && (forall j | 0 <= j < MAX_INODES :: gs.inodes[j].kind == fs.inodes[j].kind)
    && gs.bits == fs.bits
    && (forall j | Live(fs, j) :: SameView(fs, gs, j))
  }

  /** A failing create leaves every live inode, the bitmap and the tree as they were. */
  lemma CreateFails(fs: FS, k: Book, d: int, name: Name, kind: byte)
    requires Inv(fs, k) && NoNul(name) && kind in {FILE, DIR}
    requires Create(fs, d, name, kind).1 < 0
    ensures Inv(Create(fs, d, name, kind).0, k) && Unchanged(fs, Create(fs, d, name, kind).0)
    ensures var gs := Create(fs, d, name, kind).0;
      && (forall j | 0 <= j < MAX_INODES :: gs.inodes[j].kind == fs.inodes[j].kind) && gs.bits == fs.bits
      && (forall j | Live(fs, j) :: SameView(fs, gs, j))
    ensures forall comps :: Resolve(Create(fs, d, name, kind).0, comps) == Resolve(fs, comps)
  {
    hide BlocksInv, TreeInv, FilesInv, SameView, AddFrom;
    var gs := Create(fs, d, name, kind).0;
    if gs != fs {
      var c := FreeInodeFrom(fs, 0);
      var f1 := WithInode(fs, c, NewInode(kind));
      FreeInodeReplaced(fs, k, c, kind);
      var o2, q := AddFromEffect(f1, k.owner, d, name, c, 0);
      assert gs == WithInode(fs, c, NewInode(FREE));
      FreeInodeReplaced(fs, k, c, FREE);
    } else {
      forall j | Live(fs, j) ensures SameView(fs, gs, j) {
        SelfView(fs, j);
      }
    }
    SamePathsSameResolve(fs, gs, k.path, k.home, k.home);
  }

  lemma SelfView(fs: FS, j: int)
    requires 0 <= j < MAX_INODES
    ensures SameView(fs, fs, j)
  {
  }

  /** The book after naming c in slot q of d. */
  function Named(k: Book, o2: map<int, Place>, d: int, q: int, name: Name, c: int): Book
    requires d in k.path
  {
    Book(o2, k.path[c := k.path[d] + [name]], k.home[c := Home(d, q)])
  }

  lemma {:induction false} InsertedResolve(fs: FS, gs: FS, k: Book, k2: Book, d: int, name: Name, c: int)
    requires TreeInv(fs, k.path, k.home) && TreeInv(gs, k2.path, k2.home)
    requires d in k.path && 0 <= c && c !in k.path && k2.path == k.path[c := k.path[d] + [name]]
    ensures forall comps :: Resolve(gs, comps) == if comps == k.path[d] + [name] then c else Resolve(fs, comps)
    ensures Resolve(fs, k.path[d] + [name]) == -1
  {
    hide TreeInv, Resolve;
    var p := k.path[d] + [name];
    ResolveIsInverse(gs, k2.path, k2.home, p, c);
    if Resolve(fs, p) >= 0 {
      ResolveIsInverse(fs, k.path, k.home, p, Resolve(fs, p));
      ResolveIsInverse(gs, k2.path, k2.home, p, Resolve(fs, p));
    }
    ResolveMinusOne(fs, p);
    forall comps | comps != p ensures Resolve(gs, comps) == Resolve(fs, comps) {
      SameWhereBothAgree(fs, gs, k, k2, comps);
    }
  }

  lemma ResolveMinusOne(fs: FS, comps: Path)
    ensures Resolve(fs, comps) < 0 ==> Resolve(fs, comps) == -1
  {
    if Resolve(fs, comps) < 0 {
      ResolveNegative(fs, ROOT, comps);
    }
  }

  lemma SameWhereBothAgree(fs: FS, gs: FS, k: Book, k2: Book, comps: Path)
    requires TreeInv(fs, k.path, k.home) && TreeInv(gs, k2.path, k2.home)
    requires forall x | x >= 0 :: (x in k.path && k.path[x] == comps) <==> (x in k2.path && k2.path[x] == comps)
    ensures Resolve(gs, comps) == Resolve(fs, comps)
  {
    hide TreeInv, Resolve;
    ResolveMinusOne(fs, comps);
    ResolveMinusOne(gs, comps);
    if Resolve(fs, comps) >= 0 {
      ResolveIsInverse(fs, k.path, k.home, comps, Resolve(fs, comps));
      ResolveIsInverse(gs, k2.path, k2.home, comps, Resolve(fs, comps));
    } else if Resolve(gs, comps) >= 0 {
      ResolveIsInverse(fs, k.path, k.home, comps, Resolve(gs, comps));
      ResolveIsInverse(gs, k2.path, k2.home, comps, Resolve(gs, comps));
    }
  }

  /** Room for one more name: the lowest empty slot's block is there, or a block is free for it. */
  lemma RoomExactly(fs: FS, d: int)
    requires 0 <= d < MAX_INODES
    ensures HasRoom(fs, d, 0) <==> exists q | 0 <= q < 112 :: RoomFirst(fs, d, q)
  {
    hide Ent, HasRoom;
    if HasRoom(fs, d, 0) {
      var q := RoomThere(fs, d);
    }
    forall q | 0 <= q < SLOTS && RoomFirst(fs, d, q) ensures HasRoom(fs, d, 0) {
      FirstIsRoom(fs, d, q);
    }
  }

  /** Slot q is the lowest empty one, and there is a block for it. */
  ghost predicate RoomFirst(fs: FS, d: int, q: int)
    requires 0 <= d < MAX_INODES && 0 <= q < SLOTS
  {
    && Ent(fs, d, q) == NO_ENTRY && (forall r | 0 <= r < q :: Ent(fs, d, r) != NO_ENTRY)
    && (fs.inodes[d].blocks[q / 14] != NO_BLOCK || exists b | 0 <= b < 512 :: !Marked(fs.bits, b))
  }

  lemma RoomThere(fs: FS, d: int) returns (e: int)
    requires 0 <= d < MAX_INODES && HasRoom(fs, d, 0)
    ensures 0 <= e < SLOTS && RoomFirst(fs, d, e)
  {
    hide Ent;
    var q :| 0 <= q < SLOTS && RoomAt(fs, d, q) && FullBetween(fs, d, 0, q / DIRENTS_PER_BLOCK);
    e := LowestEmpty(fs, d, q);
    assert e / DIRENTS_PER_BLOCK == q / DIRENTS_PER_BLOCK;
  }

  lemma FirstIsRoom(fs: FS, d: int, q: int)
    requires 0 <= d < MAX_INODES && 0 <= q < SLOTS && RoomFirst(fs, d, q)
    ensures HasRoom(fs, d, 0)
  {
    hide Ent;
    assert RoomAt(fs, d, q) && FullBetween(fs, d, 0, q / DIRENTS_PER_BLOCK) && q / DIRENTS_PER_BLOCK >= 0;
  }

  lemma {:induction false} LowestEmpty(fs: FS, d: int, q: int) returns (e: int)
    requires 0 <= d < MAX_INODES && 0 <= q < SLOTS && Ent(fs, d, q) == NO_ENTRY
    ensures 0 <= e <= q && Ent(fs, d, e) == NO_ENTRY && forall r | 0 <= r < e :: Ent(fs, d, r) != NO_ENTRY
    decreases q
  {
    hide Ent;
    if r :| 0 <= r < q && Ent(fs, d, r) == NO_ENTRY {
      e := LowestEmpty(fs, d, r);
    } else {
      e := q;
    }
  }

  /** A successful create inserts exactly one name, for a new and empty inode. */
  lemma CreateInserts(fs: FS, k: Book, d: int, name: Name, kind: byte) returns (k2: Book)
    requires Inv(fs, k) && NoNul(name) && kind in {FILE, DIR}
    requires Create(fs, d, name, kind).1 >= 0
    ensures d in k.path
    ensures var (gs, c) := Create(fs, d, name, kind);
      && Inv(gs, k2)
      && (forall comps :: Resolve(gs, comps) == if comps == k.path[d] + [name] then c else Resolve(fs, comps))
      && Resolve(fs, k.path[d] + [name]) == -1
      && 0 <= c < MAX_INODES && !Live(fs, c) && gs.inodes[c] == NewInode(kind)
      && (forall j | 0 <= j < MAX_INODES && j != c :: gs.inodes[j].kind == fs.inodes[j].kind)
      && (forall j | Live(fs, j) && j != d :: SameView(fs, gs, j))
  {
    hide BlocksInv, TreeInv, FilesInv, SameView, AddFrom, EntryAdded, NamesOk;
    var (gs, c) := Create(fs, d, name, kind);
    var f1 := WithInode(fs, c, NewInode(kind));
    DirIsNamed(fs, k, d);
    FreeIsUnnamed(fs, k, c);
    FreeInodeReplaced(fs, k, c, kind);
    var o2, q := AddFromEffect(f1, k.owner, d, name, c, 0);
    k2 := Named(k, o2, d, q, name, c);
    assert f1.inodes[d] == fs.inodes[d];
    ChildSame(fs, f1, d, name);
    AddedKeepsTree(f1, gs, k.path, k.home, d, q, name, c);
    AddedKeepsFiles(f1, gs, d, q, name, c);
    AddedKeepsNamed(fs, f1, gs, k, d, q, name, c, kind);
    InsertedResolve(fs, gs, k, k2, d, name, c);
    AddedKeepsViews(fs, f1, gs, d, q, name, c);
  }

  /**
   * Where a created name goes and what it names: the lowest free inode, now of the given kind, empty
   * and without blocks, in the lowest empty slot of the directory; no other slot changes.
   */
  lemma CreateFillsSlot(fs: FS, k: Book, d: int, name: Name, kind: byte) returns (q: int)
    requires Inv(fs, k) && NoNul(name) && kind in {FILE, DIR} && Create(fs, d, name, kind).1 >= 0
    ensures var (gs, c) := Create(fs, d, name, kind);
      && IsDir(fs, d) && 0 <= q < SLOTS && Ent(fs, d, q) == NO_ENTRY && (forall r | 0 <= r < q :: Ent(fs, d, r) != NO_ENTRY)
      && Ent(gs, d, q) == c && EntName(gs, d, q) == name
      && (forall r | 0 <= r < SLOTS && r != q :: Ent(gs, d, r) == Ent(fs, d, r))
      && 0 <= c < MAX_INODES && fs.inodes[c].kind == FREE && (forall j | 0 <= j < c :: fs.inodes[j].kind != FREE)
      && gs.inodes[c].kind == kind && gs.inodes[c].size == 0
      && gs.inodes[c].indirect == NO_BLOCK && forall p | 0 <= p < DIRECT :: gs.inodes[c].blocks[p] == NO_BLOCK
  {
    hide BlocksInv, TreeInv, FilesInv, SameView, AddFrom, EntryAdded, Ent, EntName, NoneEmpty;
    var (gs, c) := Create(fs, d, name, kind);
    var f1 := WithInode(fs, c, NewInode(kind));
    FreeInodeReplaced(fs, k, c, kind);
    var o2;
    o2, q := AddFromEffect(f1, k.owner, d, name, c, 0);
    AddedSlot(f1, gs, d, q, name, c);
    SameDirEntries(fs, f1, d);
    NoneEmptySame(fs, f1, d, q);
  }

  lemma NoneEmptySame(fs: FS, gs: FS, d: int, q: int)
    requires 0 <= d < MAX_INODES && q <= SLOTS && NoneEmpty(gs, d, 0, q) && forall r | 0 <= r < SLOTS :: Ent(gs, d, r) == Ent(fs, d, r)
    ensures forall r | 0 <= r < q :: Ent(fs, d, r) != NO_ENTRY
  {
    hide Ent;
  }

  lemma AddedSlot(fs: FS, gs: FS, d: int, q: int, name: Name, c: u32)
    requires EntryAdded(fs, gs, d, q, name, c) && IsDir(fs, d)
    ensures 0 <= q < SLOTS && Ent(fs, d, q) == NO_ENTRY && Ent(gs, d, q) == c && EntName(gs, d, q) == name
    ensures forall r | 0 <= r < SLOTS && r != q :: Ent(gs, d, r) == Ent(fs, d, r)
    ensures forall j | Live(fs, j) && j != d :: gs.inodes[j] == fs.inodes[j]
  {
    hide Ent, EntName;
  }

  lemma SameDirEntries(fs: FS, gs: FS, d: int)
    requires IsDir(fs, d) && gs.inodes[d] == fs.inodes[d] && gs.blocks == fs.blocks
    ensures forall r | 0 <= r < SLOTS :: Ent(gs, d, r) == Ent(fs, d, r)
  {
  }

  lemma DirIsNamed(fs: FS, k: Book, d: int)
    requires AllNamed(fs, k.path) && IsDir(fs, d)
    ensures d in k.path
  {
    assert Live(fs, d);
  }

  lemma FreeIsUnnamed(fs: FS, k: Book, c: int)
    requires TreeInv(fs, k.path, k.home) && !Live(fs, c)
    ensures c !in k.path
  {
  }

  lemma ChildSame(fs: FS, gs: FS, d: int, name: Name)
    requires 0 <= d < MAX_INODES && SameView(fs, gs, d)
    ensures Child(gs, d, name) == Child(fs, d, name)
  {
    hide Ent, EntName;
    SameViewEntries(fs, gs, d);
    FindSame(fs, gs, d, name, 0);
  }

  lemma {:induction false} FindSame(fs: FS, gs: FS, d: int, name: Name, q: int)
    requires 0 <= d < MAX_INODES && 0 <= q <= SLOTS
    requires forall r | 0 <= r < SLOTS :: Ent(gs, d, r) == Ent(fs, d, r) && EntName(gs, d, r) == EntName(fs, d, r)
    ensures FindFrom(gs, d, name, q) == FindFrom(fs, d, name, q)
    decreases SLOTS - q
  {
    hide Ent, EntName;
    if q != SLOTS {
      FindSame(fs, gs, d, name, q + 1);
    }
  }

  lemma AddedKeepsFiles(fs: FS, gs: FS, d: int, q: int, name: Name, c: u32)
    requires FilesInv(fs) && IsDir(fs, d) && EntryAdded(fs, gs, d, q, name, c)
    ensures FilesInv(gs)
  {
    hide Ent, EntName;
    forall i | IsFile(gs, i)
      ensures gs.inodes[i].size <= CAPACITY && forall r | gs.inodes[i].size <= r < CAPACITY :: FileByte(gs, i, r) == 0
    {
      assert IsFile(fs, i) && SameView(fs, gs, i);
      SameViewSlots(fs, gs, i);
    }
  }

  lemma AddedKeepsNamed(fs: FS, f1: FS, gs: FS, k: Book, d: int, q: int, name: Name, c: int, kind: byte)
    requires AllNamed(fs, k.path) && 0 <= c < MAX_INODES && f1 == WithInode(fs, c, NewInode(kind)) && d in k.path && d != c
    requires 0 <= d < MAX_INODES && kind != FREE && EntryAdded(f1, gs, d, q, name, c)
    ensures AllNamed(gs, k.path[c := k.path[d] + [name]])
    ensures forall j | 0 <= j < MAX_INODES && j != c :: gs.inodes[j].kind == fs.inodes[j].kind
    ensures gs.inodes[c] == NewInode(kind)
  {
    hide Ent, EntName;
    assert SameView(f1, gs, c);
    forall i | Live(gs, i) ensures i in k.path[c := k.path[d] + [name]] {
      assert gs.inodes[i].kind == f1.inodes[i].kind;
      if i != c {
        assert Live(fs, i);
      }
    }
  }

  lemma AddedKeepsViews(fs: FS, f1: FS, gs: FS, d: int, q: int, name: Name, c: u32)
    requires forall j | Live(fs, j) :: SameView(fs, f1, j)
    requires EntryAdded(f1, gs, d, q, name, c)
    ensures forall j | Live(fs, j) && j != d :: SameView(fs, gs, j)
  {
    hide Ent, EntName;
    forall j | Live(fs, j) && j != d ensures SameView(fs, gs, j) {
      assert SameView(fs, f1, j);
      SameViewTransitive(fs, f1, gs, j);
    }
  }

  // ---- exactly when munin_create succeeds -----------------------------------------------------------

  /** Slot q is where an entry can go: it is empty, and its block exists or can be allocated. */
  ghost predicate RoomAt(fs: FS, d: int, q: int)
    requires 0 <= d < MAX_INODES && 0 <= q < SLOTS
  {
    Ent(fs, d, q) == NO_ENTRY && (Block0(fs, d, q) != NO_BLOCK || !Full(fs))
  }

  /** Some slot has room, and every block of d before that slot's is full. */
  ghost predicate HasRoom(fs: FS, d: int, b: int)
    requires 0 <= d < MAX_INODES
  {
    exists q | 0 <= q < SLOTS :: q / DIRENTS_PER_BLOCK >= b && RoomAt(fs, d, q) && FullBetween(fs, d, b, q / DIRENTS_PER_BLOCK)
  }

  ghost predicate FullBetween(fs: FS, d: int, b: int, e: int)
    requires 0 <= d < MAX_INODES
  {
    forall r | 0 <= r < SLOTS && b <= r / DIRENTS_PER_BLOCK < e :: Ent(fs, d, r) != NO_ENTRY
  }

  lemma {:induction false} AddFromSucceedsExactly(fs: FS, owner: map<int, Place>, d: int, name: Name, c: u32, b: int)
    requires BlocksInv(fs, owner) && IsDir(fs, d) && |name| < MAX_NAME && 0 <= b <= DIRECT
    ensures AddFrom(fs, d, name, c, b).1 <==> HasRoom(fs, d, b)
    decreases DIRECT - b
  {
    hide BlocksInv, EntryInode, EntryName, EntryPut, Cleared, PutEntry, GrowDir;
    if b < DIRECT {
      var s := fs.inodes[d].blocks[b];
      assert Slot(fs, d, b) == s;
      if s == NO_BLOCK {
        RoomInMissingBlock(fs, d, b);
      } else {
        SlotOwned(fs, owner, d, b);
        var e := EmptyFrom(fs.blocks[s], 0);
        if e < DIRENTS_PER_BLOCK {
          var q := b * DIRENTS_PER_BLOCK + e;
          assert q / DIRENTS_PER_BLOCK == b && q % DIRENTS_PER_BLOCK == e;
          assert RoomAt(fs, d, q) && FullBetween(fs, d, b, b);
        } else {
          AddFromSucceedsExactly(fs, owner, d, name, c, b + 1);
          RoomBeyondFullBlock(fs, d, b);
        }
      }
    }
  }

  lemma RoomInMissingBlock(fs: FS, d: int, b: int)
    requires 0 <= d < MAX_INODES && 0 <= b < DIRECT && fs.inodes[d].blocks[b] == NO_BLOCK
    ensures HasRoom(fs, d, b) <==> !Full(fs)
  {
    hide EntryInode, EntryName;
    var q := b * DIRENTS_PER_BLOCK;
    assert q / DIRENTS_PER_BLOCK == b && Ent(fs, d, q) == NO_ENTRY;
    if !Full(fs) {
      assert RoomAt(fs, d, q) && FullBetween(fs, d, b, b);
    }
    if HasRoom(fs, d, b) {
      var r :| 0 <= r < SLOTS && r / DIRENTS_PER_BLOCK >= b && RoomAt(fs, d, r) && FullBetween(fs, d, b, r / DIRENTS_PER_BLOCK);
      assert r / DIRENTS_PER_BLOCK == b;
    }
  }

  lemma RoomBeyondFullBlock(fs: FS, d: int, b: int)
    requires 0 <= d < MAX_INODES && 0 <= b < DIRECT && fs.inodes[d].blocks[b] < NUM_BLOCKS
    requires EmptyFrom(fs.blocks[fs.inodes[d].blocks[b]], 0) == DIRENTS_PER_BLOCK
    ensures HasRoom(fs, d, b) <==> HasRoom(fs, d, b + 1)
  {
    hide EntryInode, EntryName, Full;
    forall r | 0 <= r < SLOTS && r / DIRENTS_PER_BLOCK == b ensures Ent(fs, d, r) != NO_ENTRY {
    }
    hide Ent;
    if HasRoom(fs, d, b) {
      var r :| 0 <= r < SLOTS && r / DIRENTS_PER_BLOCK >= b && RoomAt(fs, d, r) && FullBetween(fs, d, b, r / DIRENTS_PER_BLOCK);
      assert FullBetween(fs, d, b + 1, r / DIRENTS_PER_BLOCK);
    }
    if HasRoom(fs, d, b + 1) {
      var r :| 0 <= r < SLOTS && r / DIRENTS_PER_BLOCK >= b + 1 && RoomAt(fs, d, r) && FullBetween(fs, d, b + 1, r / DIRENTS_PER_BLOCK);
      assert FullBetween(fs, d, b, r / DIRENTS_PER_BLOCK);
    }
  }

  lemma RoomSame(fs: FS, gs: FS, d: int)
    requires 0 <= d < MAX_INODES && SameView(fs, gs, d) && gs.bits == fs.bits
    ensures HasRoom(gs, d, 0) <==> HasRoom(fs, d, 0)
  {
    hide Ent, EntName, NamesOk, SameView;
    SameViewEntries(fs, gs, d);
    assert gs.inodes[d] == fs.inodes[d] by { ViewInode(fs, gs, d); }
    if HasRoom(fs, d, 0) {
      var r :| 0 <= r < SLOTS && RoomAt(fs, d, r) && FullBetween(fs, d, 0, r / DIRENTS_PER_BLOCK);
      assert RoomAt(gs, d, r) && FullBetween(gs, d, 0, r / DIRENTS_PER_BLOCK);
    }
    if HasRoom(gs, d, 0) {
      var r :| 0 <= r < SLOTS && RoomAt(gs, d, r) && FullBetween(gs, d, 0, r / DIRENTS_PER_BLOCK);
      assert RoomAt(fs, d, r) && FullBetween(fs, d, 0, r / DIRENTS_PER_BLOCK);
    }
  }

  lemma ViewInode(fs: FS, gs: FS, d: int)
    requires 0 <= d < MAX_INODES && SameView(fs, gs, d)
    ensures gs.inodes[d] == fs.inodes[d]
  {
  }

  /** munin_create succeeds exactly for a new, well-formed name when an inode and an entry are to be had. */
  lemma CreateSucceedsExactly(fs: FS, k: Book, d: int, name: Name, kind: byte)
    requires Inv(fs, k) && NoNul(name) && kind in {FILE, DIR} && d in k.path
    ensures Create(fs, d, name, kind).1 >= 0 <==>
      && IsDir(fs, d) && 0 < |name| < MAX_NAME
      && Resolve(fs, k.path[d] + [name]) < 0
      && (exists c :: 0 <= c < MAX_INODES && !Live(fs, c))
      && HasRoom(fs, d, 0)
  {
    hide BlocksInv, TreeInv, FilesInv, SameView, AddFrom, HasRoom, Resolve;
    if IsDir(fs, d) {
      ChildIsResolve(fs, k, d, name);
      var c := FreeInodeFrom(fs, 0);
      if c >= 0 {
        assert !Live(fs, c);
        FreeInodeReplaced(fs, k, c, kind);
        var f1 := WithInode(fs, c, NewInode(kind));
        if |name| < MAX_NAME {
          AddFromSucceedsExactly(f1, k.owner, d, name, c, 0);
        }
        RoomSame(fs, f1, d);
      }
    }
  }

  /** Looking a name up in a directory is resolving one component more. */
  lemma ChildIsResolve(fs: FS, k: Book, d: int, name: Name)
    requires TreeInv(fs, k.path, k.home) && d in k.path && IsDir(fs, d)
    ensures Child(fs, d, name) < 0 <==> Resolve(fs, k.path[d] + [name]) < 0
    ensures Child(fs, d, name) >= 0 ==> Resolve(fs, k.path[d] + [name]) == Child(fs, d, name)
  {
    hide Child, TreeInv;
    ResolveFindsPath(fs, k.path, k.home, d);
    ResolveAppend(fs, ROOT, k.path[d], [name]);
    assert Child(fs, d, name) >= 0 ==> ResolveFrom(fs, Child(fs, d, name), []) == Child(fs, d, name);
  }

  // ---- munin_unlink ---------------------------------------------------------------------------------

  /** free_inode_blocks(c) followed by c->type = FREE. */
  function Released(fs: FS, c: int): FS
    requires 0 <= c < MAX_INODES
  {
    WithInode(FreeInode(fs, c), c, WithKind(FreeInode(fs, c).inodes[c], FREE))
  }

  /** munin_unlink once the parent directory is known: the new state, and 0 or -1. */
  function Unlink(fs: FS, d: int, name: Name): (r: (FS, int)) {
    if !IsDir(fs, d) || |name| >= MAX_NAME || Child(fs, d, name) < 0 || Child(fs, d, name) >= MAX_INODES then (fs, -1)
    else if IsDir(fs, Child(fs, d, name)) && fs.inodes[Child(fs, d, name)].size != 0 then (fs, -1)
    else if Block0(fs, d, FindFrom(fs, d, name, 0)) >= NUM_BLOCKS then (fs, -1)
    else Removed(fs, d, FindFrom(fs, d, name, 0), Child(fs, d, name))
  }

  function Removed(fs: FS, d: int, q: int, c: int): (FS, int)
    requires 0 <= d < MAX_INODES && 0 <= q < SLOTS && 0 <= c < MAX_INODES
  {
    if c == d || Block0(fs, d, q) >= NUM_BLOCKS then (fs, -1) else (DropEntry(Released(fs, c), d, q), 0)
  }

  lemma ReleasedInv(fs: FS, owner: map<int, Place>, c: int)
    requires BlocksInv(fs, owner) && Live(fs, c)
    ensures var gs := Released(fs, c);
      && BlocksInv(gs, Disowned(owner, c))
      && gs.inodes[c].kind == FREE
      && (forall j | 0 <= j < MAX_INODES && j != c :: gs.inodes[j].kind == fs.inodes[j].kind)
      && (forall j | Live(fs, j) && j != c :: SameView(fs, gs, j))
  {
    hide Slot, FreedTo;
    var ms := FreeInode(fs, c);
    var gs := Released(fs, c);
    FreeInodeInv(fs, owner, c);
    DeadKeepsBlocks(ms, Disowned(owner, c), c);
    forall j | Live(fs, j) && j != c ensures SameView(fs, gs, j) {
      assert SameView(fs, ms, j);
      OtherInodeSame(ms, c, WithKind(ms.inodes[c], FREE), j);
      SameViewTransitive(fs, ms, gs, j);
    }
  }

  lemma ReleasedKeepsInode(fs: FS, c: int, d: int)
    requires 0 <= c < MAX_INODES && 0 <= d < MAX_INODES && d != c
    ensures Released(fs, c).inodes[d] == fs.inodes[d]
  {
  }

  lemma DeadKeepsBlocks(fs: FS, owner: map<int, Place>, c: int)
    requires BlocksInv(fs, owner) && 0 <= c < MAX_INODES
    requires forall p | 0 <= p < PLACES :: Slot(fs, c, p) == NO_BLOCK
    ensures BlocksInv(WithInode(fs, c, WithKind(fs.inodes[c], FREE)), owner)
  {
    hide GetWord;
    var gs := WithInode(fs, c, WithKind(fs.inodes[c], FREE));
    forall j, p | IsPlace(j, p) ensures Slot(gs, j, p) == Slot(fs, j, p) {
    }
    forall b | b in owner
      ensures IsPlace(owner[b].ino, owner[b].at) && Live(gs, owner[b].ino) && Slot(gs, owner[b].ino, owner[b].at) == b
    {
      assert Slot(fs, owner[b].ino, owner[b].at) == b;
    }
    forall i, p | IsPlace(i, p) && Live(gs, i) && Slot(gs, i, p) != NO_BLOCK
      ensures Slot(gs, i, p) in owner && owner[Slot(gs, i, p)] == Place(i, p)
    {
      assert Slot(gs, i, p) == Slot(fs, i, p);
    }
  }

  /** gs is fs without c and without the entry in slot q of d that named it. */
  ghost predicate LeafRemoved(fs: FS, gs: FS, d: int, q: int, c: int) {
    && 0 <= d < MAX_INODES && 0 <= q < SLOTS && 0 <= c < MAX_INODES && c != d
    && Ent(fs, d, q) == c && Ent(gs, d, q) == NO_ENTRY
    && (forall r | 0 <= r < SLOTS && r != q :: Ent(gs, d, r) == Ent(fs, d, r) && EntName(gs, d, r) == EntName(fs, d, r))
    && gs.inodes[d].size == (fs.inodes[d].size + 0xFFFF_FFFF) % 0x1_0000_0000
    && gs.inodes[c].kind == FREE
    && (forall j | 0 <= j < MAX_INODES && j != c :: gs.inodes[j].kind == fs.inodes[j].kind)
    && (forall j | Live(fs, j) && j != d && j != c :: SameView(fs, gs, j))
  }

  lemma RemovedEffect(fs: FS, owner: map<int, Place>, d: int, q: int, c: int)
    requires BlocksInv(fs, owner) && IsDir(fs, d) && Live(fs, c) && c != d && 0 <= q < SLOTS
    requires Ent(fs, d, q) == c && Block0(fs, d, q) < NUM_BLOCKS
    ensures var gs := Removed(fs, d, q, c).0;
      BlocksInv(gs, Disowned(owner, c)) && LeafRemoved(fs, gs, d, q, c)
  {
    hide BlocksInv, Ent, EntName, SameView, EntryDropped, FreeInode;
    var ms := Released(fs, c);
    ReleasedInv(fs, owner, c);
    SameViewEntries(fs, ms, d);
    assert ms.inodes[d] == fs.inodes[d] by { ViewInode(fs, ms, d); }
    DropEntrySets(ms, Disowned(owner, c), d, q);
    var gs := Removed(fs, d, q, c).0;
    forall j | Live(fs, j) && j != d && j != c ensures SameView(fs, gs, j) {
      assert Live(ms, j);
      SameViewTransitive(fs, ms, gs, j);
    }
  }

  lemma RemovedNames(fs: FS, gs: FS, d: int, q: int, c: int)
    requires LeafRemoved(fs, gs, d, q, c) && NamesOk(fs, d)
    ensures NamesOk(gs, d)
  {
    hide Ent, EntName, SameView;
    assert Occupied(gs, d) == Occupied(fs, d) - {q};
    assert q in Occupied(fs, d);
  }

  lemma NoChildren(fs: FS, path: map<int, Path>, home: map<int, Home>, c: int)
    requires TreeInv(fs, path, home) && c in path && (IsDir(fs, c) ==> fs.inodes[c].size == 0)
    ensures forall x | x in home :: home[x].dir != c
  {
    hide Ent, EntName;
    forall x | x in home ensures home[x].dir != c {
      assert HomeOk(fs, path, x, home[x]);
      assert NamesOk(fs, home[x].dir);
      assert home[x].slot in Occupied(fs, home[x].dir);
    }
  }

  lemma RemovedKeepsTree(fs: FS, gs: FS, path: map<int, Path>, home: map<int, Home>, d: int, q: int, c: int)
    requires TreeInv(fs, path, home) && IsDir(fs, d) && c in path && LeafRemoved(fs, gs, d, q, c)
    requires IsDir(fs, c) ==> fs.inodes[c].size == 0
    ensures c != ROOT && TreeInv(gs, path - {c}, home - {c})
  {
    hide Ent, EntName, NamesOk, SameView;
    NoChildren(fs, path, home, c);
    assert c in home && home[c] == Home(d, q);
    var path2, home2 := path - {c}, home - {c};
    forall x | x in home2 ensures HomeOk(gs, path2, x, home2[x]) {
      var h := home[x];
      assert HomeOk(fs, path, x, h) && h.dir != c;
      if h.dir != d {
        SameViewEntries(fs, gs, h.dir);
      }
    }
    forall e | IsDir(gs, e) ensures NamesOk(gs, e) {
      assert IsDir(fs, e) && NamesOk(fs, e);
      if e == d {
        RemovedNames(fs, gs, d, q, c);
      } else {
        SameViewEntries(fs, gs, e);
      }
    }
    forall e, r | IsDir(gs, e) && 0 <= r < SLOTS && Ent(gs, e, r) != NO_ENTRY
      ensures Ent(gs, e, r) in home2 && home2[Ent(gs, e, r)] == Home(e, r)
    {
      assert IsDir(fs, e);
      if e != d {
        SameViewEntries(fs, gs, e);
      }
      assert Ent(gs, e, r) == Ent(fs, e, r);
    }
    RemovedKinds(fs, gs, path, home, d, q, c);
  }

  lemma RemovedKinds(fs: FS, gs: FS, path: map<int, Path>, home: map<int, Home>, d: int, q: int, c: int)
    requires TreeInv(fs, path, home) && LeafRemoved(fs, gs, d, q, c) && c != ROOT
    ensures forall i | Live(gs, i) :: IsFile(gs, i) || IsDir(gs, i)
    ensures forall x | x in path - {c} :: Live(gs, x)
    ensures IsDir(gs, ROOT)
  {
    hide Ent, EntName, NamesOk, SameView;
    forall i | Live(gs, i) ensures IsFile(gs, i) || IsDir(gs, i) {
      assert i != c;
      assert Live(fs, i);
    }
    forall x | x in path - {c} ensures Live(gs, x) {
      assert Live(fs, x);
    }
  }

  lemma RemovedResolve(fs: FS, gs: FS, k: Book, k2: Book, c: int)
    requires TreeInv(fs, k.path, k.home) && TreeInv(gs, k2.path, k2.home)
    requires c in k.path && c >= 0 && k2.path == k.path - {c}
    ensures forall comps :: Resolve(gs, comps) == if comps == k.path[c] then -1 else Resolve(fs, comps)
  {
    hide TreeInv, Resolve;
    var p := k.path[c];
    ResolveIsInverse(fs, k.path, k.home, p, c);
    ResolveMinusOne(gs, p);
    if Resolve(gs, p) >= 0 {
      ResolveIsInverse(gs, k2.path, k2.home, p, Resolve(gs, p));
      ResolveIsInverse(fs, k.path, k.home, p, Resolve(gs, p));
    }
    forall comps | comps != p ensures Resolve(gs, comps) == Resolve(fs, comps) {
      SameWhereBothAgree(fs, gs, k, k2, comps);
    }
  }

  lemma RemovedKeepsFiles(fs: FS, gs: FS, d: int, q: int, c: int)
    requires FilesInv(fs) && IsDir(fs, d) && LeafRemoved(fs, gs, d, q, c)
    ensures FilesInv(gs)
  {
    hide Ent, EntName;
    forall i | IsFile(gs, i)
      ensures gs.inodes[i].size <= CAPACITY && forall r | gs.inodes[i].size <= r < CAPACITY :: FileByte(gs, i, r) == 0
    {
      assert IsFile(fs, i) && SameView(fs, gs, i);
      SameViewSlots(fs, gs, i);
    }
  }

  /** The facts about the slot that unlink finds. */
  lemma FoundSlot(fs: FS, k: Book, d: int, name: Name)
    requires Inv(fs, k) && IsDir(fs, d) && Child(fs, d, name) >= 0
    ensures var q, c := FindFrom(fs, d, name, 0), Child(fs, d, name);
      && 0 <= q < SLOTS && Ent(fs, d, q) == c && d in k.path && c in k.path && Live(fs, c) && c != d
      && k.path[c] == k.path[d] + [name] && Block0(fs, d, q) < NUM_BLOCKS
      && 0 < |name| < MAX_NAME
  {
    hide EntryInode, EntryName;
    var q, c := FindFrom(fs, d, name, 0), Child(fs, d, name);
    assert Names(fs, d, q, name);
    ChildIsHome(fs, k.path, k.home, d, q);
    assert NamesOk(fs, d);
  }

  /** A successful unlink deletes exactly one name: that of a file, or of a directory with nothing below it. */
  lemma UnlinkDeletes(fs: FS, k: Book, d: int, name: Name) returns (k2: Book)
    requires Inv(fs, k) && Unlink(fs, d, name).1 == 0
    ensures d in k.path
    ensures var gs := Unlink(fs, d, name).0;
      var p := k.path[d] + [name];
      var c := Resolve(fs, p);
      && Inv(gs, k2)
      && (forall comps :: Resolve(gs, comps) == if comps == p then -1 else Resolve(fs, comps))
      && Live(fs, c) && !Live(gs, c) && c != d
      && (forall j | 0 <= j < MAX_INODES && j != c :: gs.inodes[j].kind == fs.inodes[j].kind)
      && (forall j | Live(fs, j) && j != d && j != c :: SameView(fs, gs, j))
      && |FreeBlocks(gs)| == |FreeBlocks(fs)| + |OwnedBlocks(fs, c)|
  {
    hide BlocksInv, TreeInv, FilesInv, SameView, Removed, Ent, EntName, LeafRemoved, Child, Resolve, FindFrom, Block0;
    var q, c := FindFrom(fs, d, name, 0), Child(fs, d, name);
    FoundSlot(fs, k, d, name);
    var gs := Removed(fs, d, q, c).0;
    RemovedEffect(fs, k.owner, d, q, c);
    RemovedKeepsTree(fs, gs, k.path, k.home, d, q, c);
    RemovedKeepsFiles(fs, gs, d, q, c);
    ChildIsResolve(fs, k, d, name);
    k2 := Book(Disowned(k.owner, c), k.path - {c}, k.home - {c});
    RemovedResolve(fs, gs, k, k2, c);
    RemovedKeepsNamed(fs, gs, k, d, q, c);
    FreeCount(fs, k.owner);
    FreeCount(gs, k2.owner);
    FreeInodeInv(fs, k.owner, c);
  }

  /** An unlinked name leaves its slot empty, and every other slot of the directory as it was. */
  lemma UnlinkEmptiesSlot(fs: FS, k: Book, d: int, name: Name) returns (q: int)
    requires Inv(fs, k) && Unlink(fs, d, name).1 == 0
    ensures var gs := Unlink(fs, d, name).0;
      && IsDir(fs, d) && 0 <= q < SLOTS && Ent(fs, d, q) != NO_ENTRY && EntName(fs, d, q) == name && Ent(gs, d, q) == NO_ENTRY
      && forall r | 0 <= r < SLOTS && r != q :: Ent(gs, d, r) == Ent(fs, d, r) && EntName(gs, d, r) == EntName(fs, d, r)
  {
    hide BlocksInv, TreeInv, FilesInv, SameView, Removed, Ent, EntName, Child, Block0;
    q := FindFrom(fs, d, name, 0);
    FoundSlot(fs, k, d, name);
    RemovedEffect(fs, k.owner, d, q, Child(fs, d, name));
  }

  lemma RemovedKeepsNamed(fs: FS, gs: FS, k: Book, d: int, q: int, c: int)
    requires AllNamed(fs, k.path) && LeafRemoved(fs, gs, d, q, c)
    ensures AllNamed(gs, k.path - {c}) && !Live(gs, c)
    ensures forall j | 0 <= j < MAX_INODES && j != c :: gs.inodes[j].kind == fs.inodes[j].kind
    ensures forall j | Live(fs, j) && j != d && j != c :: SameView(fs, gs, j)
  {
    hide Ent, EntName, SameView;
    forall i | Live(gs, i) ensures i in k.path - {c} {
      assert Live(fs, i);
    }
  }

  /** unlink fails, changing nothing, exactly for a missing name or a directory that still has names in it. */
  lemma UnlinkSucceedsExactly(fs: FS, k: Book, d: int, name: Name)
    requires Inv(fs, k) && d in k.path
    ensures var p := k.path[d] + [name];
      Unlink(fs, d, name).1 == 0 <==>
        IsDir(fs, d) && Resolve(fs, p) >= 0 && forall n :: Resolve(fs, p + [n]) < 0
    ensures Unlink(fs, d, name).1 != 0 ==> Unlink(fs, d, name) == (fs, -1)
  {
    hide BlocksInv, FilesInv, SameView, Ent, EntName, Child, Resolve, TreeInv, NamesOk, FindFrom, Block0, FreeInode;
    if IsDir(fs, d) {
      ChildIsResolve(fs, k, d, name);
      if Child(fs, d, name) >= 0 {
        FoundSlot(fs, k, d, name);
        EmptyExactly(fs, k, Child(fs, d, name));
      }
    }
  }

  /** Nothing resolves below c exactly when c is a file or a directory of size 0. */
  lemma EmptyExactly(fs: FS, k: Book, c: int)
    requires Inv(fs, k) && c in k.path && Live(fs, c)
    ensures (IsDir(fs, c) && fs.inodes[c].size != 0) <==> exists n :: Resolve(fs, k.path[c] + [n]) >= 0
  {
    hide BlocksInv, FilesInv, SameView, Ent, EntName, Resolve, TreeInv;
    if IsDir(fs, c) {
      DirNamesOk(fs, k, c);
      if fs.inodes[c].size != 0 {
        assert Occupied(fs, c) != {};
        var q :| q in Occupied(fs, c);
        ChildIsHome(fs, k.path, k.home, c, q);
        ChildIsResolve(fs, k, c, EntName(fs, c, q));
      } else {
        assert Occupied(fs, c) == {};
        forall n ensures Resolve(fs, k.path[c] + [n]) < 0 {
          ChildIsResolve(fs, k, c, n);
          assert FindFrom(fs, c, n, 0) !in Occupied(fs, c);
        }
      }
    } else {
      forall n ensures Resolve(fs, k.path[c] + [n]) < 0 {
        NothingBelowFile(fs, k, c, n);
      }
    }
  }

  lemma DirNamesOk(fs: FS, k: Book, c: int)
    requires TreeInv(fs, k.path, k.home) && IsDir(fs, c)
    ensures NamesOk(fs, c)
  {
  }

  lemma NothingBelowFile(fs: FS, k: Book, c: int, n: Name)
    requires TreeInv(fs, k.path, k.home) && c in k.path && !IsDir(fs, c)
    ensures Resolve(fs, k.path[c] + [n]) < 0
  {
    hide TreeInv;
    ResolveFindsPath(fs, k.path, k.home, c);
    ResolveNonNegative(fs, k, c);
    ResolveAppend(fs, ROOT, k.path[c], [n]);
  }

  lemma ResolveNonNegative(fs: FS, k: Book, c: int)
    requires TreeInv(fs, k.path, k.home) && c in k.path
    ensures c >= 0
  {
  }
}
