/** Creating and removing names in the munin directory tree. */
module MuninNames {
  import opened Bytes
  import opened MuninState
  import opened MuninBlocks
  import opened MuninReplace
  import opened MuninTree

  // ---- editing one directory block -------------------------------------------------------------

  /** b with the first n entries marked empty. */
  function Cleared(b: Block, n: nat): Block
    requires n <= DIRENTS_PER_BLOCK
  {
    if n == 0 then b else PutWord(Cleared(b, n - 1), DIRENT_SIZE * (n - 1), NO_ENTRY)
  }

  lemma {:induction false} ClearedIsEmpty(b: Block, n: nat, k: nat)
    requires k < n <= DIRENTS_PER_BLOCK
    ensures EntryInode(Cleared(b, n), k) == NO_ENTRY
  {
    if k < n - 1 {
      ClearedIsEmpty(b, n - 1, k);
      PutWordElsewhere(Cleared(b, n - 1), DIRENT_SIZE * (n - 1), NO_ENTRY, DIRENT_SIZE * k);
    }
  }

  /** b with the bytes of name and a NUL stored at off. */
  function PutName(b: Block, off: nat, name: Name): Block
    requires off + |name| < BLOCK_SIZE
  {
    b[..off] + name + [0] + b[off + |name| + 1..]
  }

  function EntryPut(b: Block, k: int, name: Name, child: u32): Block
    requires 0 <= k < DIRENTS_PER_BLOCK && |name| < MAX_NAME
  {
    PutName(PutWord(b, DIRENT_SIZE * k, child), DIRENT_SIZE * k + 4, name)
  }

  function EntryDropped(b: Block, k: int): Block
    requires 0 <= k < DIRENTS_PER_BLOCK
  {
    PutWord(b, DIRENT_SIZE * k, NO_ENTRY)
  }

  predicate NoNul(name: Name) {
    forall k | 0 <= k < |name| :: name[k] != 0
  }

  lemma {:induction false} CStrOfName(name: Name, rest: seq<byte>)
    requires NoNul(name)
    ensures CStr(name + [0] + rest) == name
  {
    if name == [] {
      assert ([] + [0] + rest)[0] == 0;
    } else {
      assert (name + [0] + rest)[1..] == name[1..] + [0] + rest;
      CStrOfName(name[1..], rest);
    }
  }

  lemma EntryPutGet(b: Block, k: int, name: Name, child: u32)
    requires 0 <= k < DIRENTS_PER_BLOCK && |name| < MAX_NAME && NoNul(name)
    ensures EntryInode(EntryPut(b, k, name, child), k) == child
    ensures EntryName(EntryPut(b, k, name, child), k) == name
  {
    var r := EntryPut(b, k, name, child);
    var w := PutWord(b, DIRENT_SIZE * k, child);
    var off := DIRENT_SIZE * k + 4;
    assert forall m | 0 <= m < off :: r[m] == w[m];
    assert GetWord(r, DIRENT_SIZE * k) == GetWord(w, DIRENT_SIZE * k);
    var rest := r[off + |name| + 1..off + 32];
    assert r[off..off + 32] == name + [0] + rest;
    CStrOfName(name, rest);
  }

  /** Where an entry lies: 36 bytes each, the inode number first, then the name and its NUL. */
  lemma EntryLayout(b: Block, k: int, name: Name, child: u32)
    requires 0 <= k < DIRENTS_PER_BLOCK && |name| < MAX_NAME
    ensures var r := EntryPut(b, k, name, child);
      && GetWord(r, 36 * k) == child && r[36 * k + 4..36 * k + 4 + |name|] == name && r[36 * k + 4 + |name|] == 0
      && forall x | 0 <= x < 512 && !(36 * k <= x < 36 * k + 36) :: r[x] == b[x]
  {
    var r, w := EntryPut(b, k, name, child), PutWord(b, 36 * k, child);
    assert forall m | 0 <= m < 36 * k + 4 :: r[m] == w[m];
  }

  lemma EntryPutElsewhere(b: Block, k: int, name: Name, child: u32, m: int)
    requires 0 <= k < DIRENTS_PER_BLOCK && |name| < MAX_NAME && 0 <= m < DIRENTS_PER_BLOCK && m != k
    ensures EntryInode(EntryPut(b, k, name, child), m) == EntryInode(b, m)
    ensures EntryName(EntryPut(b, k, name, child), m) == EntryName(b, m)
  {
    var r := EntryPut(b, k, name, child);
    assert forall x | 0 <= x < BLOCK_SIZE && !(DIRENT_SIZE * k <= x < DIRENT_SIZE * k + 36) :: r[x] == b[x];
    var off := DIRENT_SIZE * m + 4;
    assert r[off..off + 32] == b[off..off + 32];
  }

  lemma EntryDroppedEffect(b: Block, k: int, m: int)
    requires 0 <= k < DIRENTS_PER_BLOCK && 0 <= m < DIRENTS_PER_BLOCK
    ensures EntryInode(EntryDropped(b, k), m) == if m == k then NO_ENTRY else EntryInode(b, m)
    ensures EntryName(EntryDropped(b, k), m) == EntryName(b, m)
  {
    var r := EntryDropped(b, k);
    var off := DIRENT_SIZE * m + 4;
    assert r[off..off + 32] == b[off..off + 32];
    if m != k {
      PutWordElsewhere(b, DIRENT_SIZE * k, NO_ENTRY, DIRENT_SIZE * m);
    }
  }

  // ---- editing one slot of a directory -------------------------------------------------------------

  function Block0(fs: FS, d: int, q: int): u32
    requires 0 <= d < MAX_INODES && 0 <= q < SLOTS
  {
    fs.inodes[d].blocks[q / DIRENTS_PER_BLOCK]
  }

  function Sized(f: Inode, n: u32): Inode {
    Inode(f.kind, n, f.blocks, f.indirect)
  }

  function WithBlock(fs: FS, d: int, size: u32, s: int, b: Block): FS
    requires 0 <= d < MAX_INODES && 0 <= s < NUM_BLOCKS
  {
    FS(fs.inodes[d := Sized(fs.inodes[d], size)], fs.bits, fs.blocks[s := b])
  }

  function PutEntry(fs: FS, d: int, q: int, name: Name, child: u32): FS
    requires 0 <= d < MAX_INODES && 0 <= q < SLOTS && Block0(fs, d, q) < NUM_BLOCKS && |name| < MAX_NAME
  {
    WithBlock(fs, d, (fs.inodes[d].size + 1) % 0x1_0000_0000, Block0(fs, d, q),
      EntryPut(fs.blocks[Block0(fs, d, q)], q % DIRENTS_PER_BLOCK, name, child))
  }

  function DropEntry(fs: FS, d: int, q: int): FS
    requires 0 <= d < MAX_INODES && 0 <= q < SLOTS && Block0(fs, d, q) < NUM_BLOCKS
  {
    WithBlock(fs, d, (fs.inodes[d].size + 0xFFFF_FFFF) % 0x1_0000_0000, Block0(fs, d, q),
      EntryDropped(fs.blocks[Block0(fs, d, q)], q % DIRENTS_PER_BLOCK))
  }

  /** Rewriting a directory's own block affects only that directory's entries. */
  lemma DirBlockFrame(fs: FS, owner: map<int, Place>, d: int, q: int, size: u32, b: Block)
    requires BlocksInv(fs, owner) && IsDir(fs, d) && 0 <= q < SLOTS && Block0(fs, d, q) < NUM_BLOCKS
    ensures var gs := WithBlock(fs, d, size, Block0(fs, d, q), b);
      BlocksInv(gs, owner) && (forall j | Live(fs, j) && j != d :: SameView(fs, gs, j))
  {
    var s := Block0(fs, d, q);
    var gs := WithBlock(fs, d, size, s, b);
    var p := q / DIRENTS_PER_BLOCK;
    assert Slot(fs, d, p) == s;
    SlotOwned(fs, owner, d, p);
    forall j | Live(fs, j) ensures forall r | 0 <= r < PLACES :: Slot(gs, j, r) == Slot(fs, j, r) {
      DirBlockSlots(fs, owner, d, q, size, b, j);
    }
    hide GetWord;
    forall j | Live(fs, j) && j != d ensures SameView(fs, gs, j) {
      forall r | 0 <= r < PLACES && Slot(fs, j, r) < NUM_BLOCKS
        ensures gs.blocks[Slot(fs, j, r)] == fs.blocks[Slot(fs, j, r)]
      {
        SlotOwned(fs, owner, j, r);
      }
    }
  }

  lemma DirBlockSlots(fs: FS, owner: map<int, Place>, d: int, q: int, size: u32, b: Block, j: int)
    requires BlocksInv(fs, owner) && IsDir(fs, d) && 0 <= q < SLOTS && Block0(fs, d, q) < NUM_BLOCKS && Live(fs, j)
    ensures var gs := WithBlock(fs, d, size, Block0(fs, d, q), b);
      forall r | 0 <= r < PLACES :: Slot(gs, j, r) == Slot(fs, j, r)
  {
    hide GetWord;
    assert Slot(fs, d, q / DIRENTS_PER_BLOCK) == Block0(fs, d, q);
    SlotOwned(fs, owner, d, q / DIRENTS_PER_BLOCK);
    assert Slot(fs, j, INDIRECT) == fs.inodes[j].indirect;
    if fs.inodes[j].indirect != NO_BLOCK {
      SlotOwned(fs, owner, j, INDIRECT);
    }
  }

  /** Slots in other blocks of the directory keep their entries. */
  lemma OtherBlocksOfDir(fs: FS, owner: map<int, Place>, d: int, q: int, size: u32, b: Block, r: int)
    requires BlocksInv(fs, owner) && IsDir(fs, d) && 0 <= q < SLOTS && Block0(fs, d, q) < NUM_BLOCKS
    requires 0 <= r < SLOTS && r / DIRENTS_PER_BLOCK != q / DIRENTS_PER_BLOCK
    ensures var gs := WithBlock(fs, d, size, Block0(fs, d, q), b);
      Ent(gs, d, r) == Ent(fs, d, r) && EntName(gs, d, r) == EntName(fs, d, r)
  {
    hide EntryInode, EntryName;
    assert Slot(fs, d, q / DIRENTS_PER_BLOCK) == Block0(fs, d, q);
    assert Slot(fs, d, r / DIRENTS_PER_BLOCK) == Block0(fs, d, r);
    SlotOwned(fs, owner, d, q / DIRENTS_PER_BLOCK);
    if Block0(fs, d, r) != NO_BLOCK {
      SlotOwned(fs, owner, d, r / DIRENTS_PER_BLOCK);
    }
  }

  /** gs is fs with slot q of directory d now holding child c under name (c == NO_ENTRY: empty). */
  ghost predicate SlotSet(fs: FS, gs: FS, d: int, q: int, c: u32) {
    && 0 <= d < MAX_INODES && 0 <= q < SLOTS
    && Ent(gs, d, q) == c
    && (forall r | 0 <= r < SLOTS && r != q :: Ent(gs, d, r) == Ent(fs, d, r) && EntName(gs, d, r) == EntName(fs, d, r))
    && (forall j | 0 <= j < MAX_INODES :: gs.inodes[j].kind == fs.inodes[j].kind)
    && (forall j | Live(fs, j) && j != d :: SameView(fs, gs, j))
  }

  lemma PutEntrySets(fs: FS, owner: map<int, Place>, d: int, q: int, name: Name, c: u32)
    requires BlocksInv(fs, owner) && IsDir(fs, d) && 0 <= q < SLOTS && Block0(fs, d, q) < NUM_BLOCKS
    requires |name| < MAX_NAME && NoNul(name)
    ensures var gs := PutEntry(fs, d, q, name, c);
      BlocksInv(gs, owner) && SlotSet(fs, gs, d, q, c) && EntName(gs, d, q) == name
  {
    hide BlocksInv, EntryInode, EntryName, EntryPut;
    var s := Block0(fs, d, q);
    var k := q % DIRENTS_PER_BLOCK;
    var b := EntryPut(fs.blocks[s], k, name, c);
    var size := (fs.inodes[d].size + 1) % 0x1_0000_0000;
    var gs := PutEntry(fs, d, q, name, c);
    DirBlockFrame(fs, owner, d, q, size, b);
    EntryPutGet(fs.blocks[s], k, name, c);
    forall r | 0 <= r < SLOTS && r != q
      ensures Ent(gs, d, r) == Ent(fs, d, r) && EntName(gs, d, r) == EntName(fs, d, r)
    {
      if r / DIRENTS_PER_BLOCK != q / DIRENTS_PER_BLOCK {
        OtherBlocksOfDir(fs, owner, d, q, size, b, r);
      } else {
        EntryPutElsewhere(fs.blocks[s], k, name, c, r % DIRENTS_PER_BLOCK);
      }
    }
  }

  lemma DropEntrySets(fs: FS, owner: map<int, Place>, d: int, q: int)
    requires BlocksInv(fs, owner) && IsDir(fs, d) && 0 <= q < SLOTS && Block0(fs, d, q) < NUM_BLOCKS
    ensures var gs := DropEntry(fs, d, q);
      BlocksInv(gs, owner) && SlotSet(fs, gs, d, q, NO_ENTRY)
  {
    hide BlocksInv, EntryInode, EntryName, EntryDropped;
    var s := Block0(fs, d, q);
    var k := q % DIRENTS_PER_BLOCK;
    var b := EntryDropped(fs.blocks[s], k);
    var size := (fs.inodes[d].size + 0xFFFF_FFFF) % 0x1_0000_0000;
    var gs := DropEntry(fs, d, q);
    DirBlockFrame(fs, owner, d, q, size, b);
    EntryDroppedEffect(fs.blocks[s], k, k);
    forall r | 0 <= r < SLOTS && r != q
      ensures Ent(gs, d, r) == Ent(fs, d, r) && EntName(gs, d, r) == EntName(fs, d, r)
    {
      if r / DIRENTS_PER_BLOCK != q / DIRENTS_PER_BLOCK {
        OtherBlocksOfDir(fs, owner, d, q, size, b, r);
      } else {
        EntryDroppedEffect(fs.blocks[s], k, r % DIRENTS_PER_BLOCK);
      }
    }
  }

  // ---- add_dirent -------------------------------------------------------------------------------------

  /** The first empty entry of b at or after k, or DIRENTS_PER_BLOCK. */
  function EmptyFrom(b: Block, k: int): (r: int)
    requires 0 <= k <= DIRENTS_PER_BLOCK
    ensures k <= r <= DIRENTS_PER_BLOCK
    ensures r < DIRENTS_PER_BLOCK ==> EntryInode(b, r) == NO_ENTRY
    ensures forall m | k <= m < r :: EntryInode(b, m) != NO_ENTRY
    decreases DIRENTS_PER_BLOCK - k
  {
    hide EntryInode;
    if k == DIRENTS_PER_BLOCK || EntryInode(b, k) == NO_ENTRY then k else EmptyFrom(b, k + 1)
  }

  /** A new, empty block for part b of directory d. */
  function GrowDir(fs: FS, d: int, b: int, k: int): FS
    requires 0 <= d < MAX_INODES && 0 <= b < DIRECT && 0 <= k < NUM_BLOCKS
  {
    AttachDirect(fs, d, b, k, Cleared(fs.blocks[k], DIRENTS_PER_BLOCK))
  }

  /** add_dirent from block b on: the new state and whether an entry was added. */
  function AddFrom(fs: FS, d: int, name: Name, child: u32, b: int): (r: (FS, bool))
    requires 0 <= d < MAX_INODES && 0 <= b <= DIRECT && |name| < MAX_NAME
    decreases DIRECT - b
  {
    if b == DIRECT then (fs, false)
    else if fs.inodes[d].blocks[b] == NO_BLOCK then
      if FreeFrom(fs.bits, 0) < 0 then (fs, false)
      else (PutEntry(GrowDir(fs, d, b, FreeFrom(fs.bits, 0)), d, b * DIRENTS_PER_BLOCK, name, child), true)
    else if fs.inodes[d].blocks[b] < NUM_BLOCKS && EmptyFrom(fs.blocks[fs.inodes[d].blocks[b]], 0) < DIRENTS_PER_BLOCK then
      (PutEntry(fs, d, b * DIRENTS_PER_BLOCK + EmptyFrom(fs.blocks[fs.inodes[d].blocks[b]], 0), name, child), true)
    else AddFrom(fs, d, name, child, b + 1)
  }

  lemma GrowDirSame(fs: FS, owner: map<int, Place>, d: int, b: int, k: int)
    requires BlocksInv(fs, owner) && IsDir(fs, d) && 0 <= b < DIRECT && fs.inodes[d].blocks[b] == NO_BLOCK
    requires 0 <= k < NUM_BLOCKS && !Marked(fs.bits, k)
    ensures var gs := GrowDir(fs, d, b, k);
      && BlocksInv(gs, owner[k := Place(d, b)])
      && (forall j | Live(fs, j) && j != d :: SameView(fs, gs, j))
      && (forall j | 0 <= j < MAX_INODES :: gs.inodes[j].kind == fs.inodes[j].kind)
      && SameEntriesOrEmpty(fs, gs, d)
  {
    hide EntryInode, EntryName, Cleared;
    var content := Cleared(fs.blocks[k], DIRENTS_PER_BLOCK);
    var gs := GrowDir(fs, d, b, k);
    assert Slot(fs, d, b) == NO_BLOCK;
    AttachDirectAttaches(fs, owner, d, b, k, content);
    AttachKeepsBlocksInv(fs, gs, owner, d, b, k);
    forall j | Live(fs, j) && j != d ensures SameView(fs, gs, j) {
      AttachSameView(fs, gs, owner, d, b, k, j);
    }
    GrowDirEntries(fs, owner, d, b, k);
  }

  /** Occupied slots are the same and keep their names. */
  ghost predicate SameEntriesOrEmpty(fs: FS, gs: FS, d: int)
    requires 0 <= d < MAX_INODES
  {
    && gs.inodes[d].size == fs.inodes[d].size
    && forall r | 0 <= r < SLOTS :: Ent(gs, d, r) == Ent(fs, d, r) && (Ent(fs, d, r) != NO_ENTRY ==> EntName(gs, d, r) == EntName(fs, d, r))
  }

  lemma GrowDirEntries(fs: FS, owner: map<int, Place>, d: int, b: int, k: int)
    requires BlocksInv(fs, owner) && IsDir(fs, d) && 0 <= b < DIRECT && fs.inodes[d].blocks[b] == NO_BLOCK
    requires 0 <= k < NUM_BLOCKS && !Marked(fs.bits, k)
    ensures SameEntriesOrEmpty(fs, GrowDir(fs, d, b, k), d)
  {
    hide BlocksInv, EntryInode, EntryName, Cleared;
    var gs := GrowDir(fs, d, b, k);
    forall r | 0 <= r < SLOTS
      ensures Ent(gs, d, r) == Ent(fs, d, r) && (Ent(fs, d, r) != NO_ENTRY ==> EntName(gs, d, r) == EntName(fs, d, r))
    {
      var p := r / DIRENTS_PER_BLOCK;
      if p == b {
        ClearedIsEmpty(fs.blocks[k], DIRENTS_PER_BLOCK, r % DIRENTS_PER_BLOCK);
      } else if fs.inodes[d].blocks[p] != NO_BLOCK {
        assert Slot(fs, d, p) == fs.inodes[d].blocks[p];
        SlotOwned(fs, owner, d, p);
      }
    }
  }

  /** gs is fs with one more entry, name for c, in the empty slot q of directory d. */
  ghost predicate EntryAdded(fs: FS, gs: FS, d: int, q: int, name: Name, c: u32) {
    && 0 <= d < MAX_INODES && 0 <= q < SLOTS
    && Ent(fs, d, q) == NO_ENTRY && Ent(gs, d, q) == c && EntName(gs, d, q) == name
    && (forall r | 0 <= r < SLOTS && r != q ::
          Ent(gs, d, r) == Ent(fs, d, r) && (Ent(fs, d, r) != NO_ENTRY ==> EntName(gs, d, r) == EntName(fs, d, r)))
    && gs.inodes[d].size == (fs.inodes[d].size + 1) % 0x1_0000_0000
    && (forall j | 0 <= j < MAX_INODES :: gs.inodes[j].kind == fs.inodes[j].kind)
    && (forall j | Live(fs, j) && j != d :: SameView(fs, gs, j))
  }

  lemma AddInNewBlock(fs: FS, owner: map<int, Place>, d: int, name: Name, c: u32, b: int, k: int)
    requires BlocksInv(fs, owner) && IsDir(fs, d) && |name| < MAX_NAME && NoNul(name)
    requires 0 <= b < DIRECT && fs.inodes[d].blocks[b] == NO_BLOCK && 0 <= k < NUM_BLOCKS && !Marked(fs.bits, k)
    ensures var gs := PutEntry(GrowDir(fs, d, b, k), d, b * DIRENTS_PER_BLOCK, name, c);
      BlocksInv(gs, owner[k := Place(d, b)]) && EntryAdded(fs, gs, d, b * DIRENTS_PER_BLOCK, name, c)
  {
    hide BlocksInv, EntryInode, EntryName, EntryPut, Cleared, SameView;
    var ms := GrowDir(fs, d, b, k);
    var q := b * DIRENTS_PER_BLOCK;
    var gs := PutEntry(ms, d, q, name, c);
    GrowDirSame(fs, owner, d, b, k);
    PutEntrySets(ms, owner[k := Place(d, b)], d, q, name, c);
    assert Ent(fs, d, q) == NO_ENTRY;
    forall j | Live(fs, j) && j != d ensures SameView(fs, gs, j) {
      SameViewTransitive(fs, ms, gs, j);
    }
    forall r | 0 <= r < SLOTS && r != q
      ensures Ent(gs, d, r) == Ent(fs, d, r) && (Ent(fs, d, r) != NO_ENTRY ==> EntName(gs, d, r) == EntName(fs, d, r))
    {
      assert Ent(gs, d, r) == Ent(ms, d, r) && EntName(gs, d, r) == EntName(ms, d, r);
    }
  }

  /** Every slot from lo up to hi is occupied. */
  ghost predicate NoneEmpty(fs: FS, d: int, lo: int, hi: int)
    requires 0 <= d < MAX_INODES && 0 <= lo && hi <= SLOTS
  {
    forall r | lo <= r < hi :: Ent(fs, d, r) != NO_ENTRY
  }

  lemma FullBlock(fs: FS, d: int, b: int)
    requires 0 <= d < MAX_INODES && 0 <= b < DIRECT && fs.inodes[d].blocks[b] < NUM_BLOCKS
    requires EmptyFrom(fs.blocks[fs.inodes[d].blocks[b]], 0) == DIRENTS_PER_BLOCK
    ensures forall r | b * DIRENTS_PER_BLOCK <= r < (b + 1) * DIRENTS_PER_BLOCK :: Ent(fs, d, r) != NO_ENTRY
  {
    hide EntryInode;
  }

  lemma FullUpTo(fs: FS, d: int, b: int, e: int)
    requires 0 <= d < MAX_INODES && 0 <= b < DIRECT && fs.inodes[d].blocks[b] < NUM_BLOCKS
    requires e == EmptyFrom(fs.blocks[fs.inodes[d].blocks[b]], 0) && e < DIRENTS_PER_BLOCK
    ensures forall r | b * DIRENTS_PER_BLOCK <= r < b * DIRENTS_PER_BLOCK + e :: Ent(fs, d, r) != NO_ENTRY
  {
    hide EntryInode;
  }

  /** add_dirent either adds exactly one entry, in the lowest empty slot from block b on, or changes nothing. */
  lemma {:induction false} AddFromEffect(fs: FS, owner: map<int, Place>, d: int, name: Name, c: u32, b: int)
    returns (o2: map<int, Place>, q: int)
    requires BlocksInv(fs, owner) && IsDir(fs, d) && |name| < MAX_NAME && NoNul(name) && 0 <= b <= DIRECT
    ensures var (gs, ok) := AddFrom(fs, d, name, c, b);
      && BlocksInv(gs, o2)
      && (ok ==> EntryAdded(fs, gs, d, q, name, c) && NoneEmpty(fs, d, b * DIRENTS_PER_BLOCK, q))
      && (!ok ==> gs == fs && o2 == owner)
    decreases DIRECT - b
  {
    hide Ent, BlocksInv, EntryInode, EntryName, EntryPut, Cleared, SameView, EntryAdded, PutEntry, GrowDir;
    o2, q := owner, 0;
    if b < DIRECT {
      var s := fs.inodes[d].blocks[b];
      var k := FreeFrom(fs.bits, 0);
      if s == NO_BLOCK {
        if k >= 0 {
          o2, q := owner[k := Place(d, b)], b * DIRENTS_PER_BLOCK;
          AddInNewBlock(fs, owner, d, name, c, b, k);
        }
      } else if s < NUM_BLOCKS && EmptyFrom(fs.blocks[s], 0) < DIRENTS_PER_BLOCK {
        q := b * DIRENTS_PER_BLOCK + EmptyFrom(fs.blocks[s], 0);
        AddInPlace(fs, owner, d, name, c, b, EmptyFrom(fs.blocks[s], 0));
        FullUpTo(fs, d, b, EmptyFrom(fs.blocks[s], 0));
      } else {
        assert Slot(fs, d, b) == s;
        SlotOwned(fs, owner, d, b);
        FullBlock(fs, d, b);
        o2, q := AddFromEffect(fs, owner, d, name, c, b + 1);
      }
    }
  }

  lemma AddInPlace(fs: FS, owner: map<int, Place>, d: int, name: Name, c: u32, b: int, e: int)
    requires BlocksInv(fs, owner) && IsDir(fs, d) && |name| < MAX_NAME && NoNul(name)
    requires 0 <= b < DIRECT && 0 <= e < DIRENTS_PER_BLOCK
    requires fs.inodes[d].blocks[b] < NUM_BLOCKS && EntryInode(fs.blocks[fs.inodes[d].blocks[b]], e) == NO_ENTRY
    ensures var q := b * DIRENTS_PER_BLOCK + e;
      && Block0(fs, d, q) == fs.inodes[d].blocks[b]
      && BlocksInv(PutEntry(fs, d, q, name, c), owner) && EntryAdded(fs, PutEntry(fs, d, q, name, c), d, q, name, c)
  {
    hide BlocksInv, EntryInode, EntName, EntryPut, SameView;
    var q := b * DIRENTS_PER_BLOCK + e;
    assert q / DIRENTS_PER_BLOCK == b && q % DIRENTS_PER_BLOCK == e;
    assert Ent(fs, d, q) == NO_ENTRY;
    hide Ent;
    PutEntrySets(fs, owner, d, q, name, c);
  }

  // ---- an added entry extends the tree by one leaf -------------------------------------------------------

  lemma AddedNames(fs: FS, gs: FS, d: int, q: int, name: Name, c: u32)
    requires 0 <= d < MAX_INODES && NamesOk(fs, d) && EntryAdded(fs, gs, d, q, name, c) && c != NO_ENTRY
    requires 0 < |name| < MAX_NAME && Child(fs, d, name) < 0
    ensures NamesOk(gs, d)
  {
    hide Ent, EntName;
    assert Occupied(gs, d) == Occupied(fs, d) + {q};
    SlotCount(fs, d);
    forall r | 0 <= r < SLOTS && Ent(fs, d, r) != NO_ENTRY ensures EntName(fs, d, r) != name {
      assert !Names(fs, d, r, name);
    }
  }

  /** A directory has at most SLOTS entries. */
  lemma SlotCount(fs: FS, d: int)
    requires 0 <= d < MAX_INODES
    ensures |Occupied(fs, d)| <= SLOTS
  {
    hide Ent;
    ComplementSize(SLOTS, Occupied(fs, d), set q | 0 <= q < SLOTS && q !in Occupied(fs, d));
  }

  lemma AddedKeepsTree(fs: FS, gs: FS, path: map<int, Path>, home: map<int, Home>, d: int, q: int, name: Name, c: int)
    requires TreeInv(fs, path, home) && IsDir(fs, d) && d in path && Live(fs, c) && c !in path
    requires 0 < |name| < MAX_NAME && Child(fs, d, name) < 0
    requires EntryAdded(fs, gs, d, q, name, c)
    ensures TreeInv(gs, path[c := path[d] + [name]], home[c := Home(d, q)])
  {
    hide Ent, EntName, NamesOk, Child, SameView;
    var path2 := path[c := path[d] + [name]];
    var home2 := home[c := Home(d, q)];
    forall x | x in home2 ensures HomeOk(gs, path2, x, home2[x]) {
      if x != c {
        var h := home[x];
        assert HomeOk(fs, path, x, h);
        if h.dir != d {
          SameViewEntries(fs, gs, h.dir);
        }
      }
    }
    forall e | IsDir(gs, e) ensures NamesOk(gs, e) {
      assert IsDir(fs, e) && NamesOk(fs, e);
      if e == d {
        AddedNames(fs, gs, d, q, name, c);
      } else {
        SameViewEntries(fs, gs, e);
      }
    }
    forall e, r | IsDir(gs, e) && 0 <= r < SLOTS && Ent(gs, e, r) != NO_ENTRY
      ensures Ent(gs, e, r) in home2 && home2[Ent(gs, e, r)] == Home(e, r)
    {
      assert IsDir(fs, e);
      if e != d {
        SameViewEntries(fs, gs, e);
      }
      if !(e == d && r == q) {
        assert Ent(gs, e, r) == Ent(fs, e, r);
      }
    }
    forall i | Live(gs, i) ensures IsFile(gs, i) || IsDir(gs, i) {
      assert gs.inodes[i].kind == fs.inodes[i].kind && Live(fs, i);
    }
  }
}
