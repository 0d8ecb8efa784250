/** Block allocation and file contents of munin, as functions on filesystem values. */
module MuninBlocks {
  import opened Bytes
  import opened MuninState

  // ---- the block pool -----------------------------------------------------------------------

  /** The lowest free block at or above b, or -1. */
  function FreeFrom(bits: Bits, b: nat): (r: int)
    requires b <= NUM_BLOCKS
    ensures r == -1 || b <= r < NUM_BLOCKS
    ensures r == -1 ==> forall c | b <= c < NUM_BLOCKS :: Marked(bits, c)
    ensures r != -1 ==> !Marked(bits, r) && forall c | b <= c < r :: Marked(bits, c)
    decreases NUM_BLOCKS - b
  {
    if b == NUM_BLOCKS then -1 else if !Marked(bits, b) then b else FreeFrom(bits, b + 1)
  }

  predicate Full(fs: FS) {
    FreeFrom(fs.bits, 0) == -1
  }

  // ---- giving a block to a place of an inode ------------------------------------------------

  function WithDirect(f: Inode, p: int, b: u32): Inode
    requires 0 <= p < DIRECT
  {
    Inode(f.kind, f.size, f.blocks[p := b], f.indirect)
  }

  function WithIndirect(f: Inode, b: u32): Inode {
    Inode(f.kind, f.size, f.blocks, b)
  }

  /** The block array with entry k of indirect block ib set to b. */
  function PutPointer(blocks: Blocks, ib: int, k: int, b: u32): Blocks
    requires 0 <= ib < NUM_BLOCKS && 0 <= k < PTRS_PER_BLOCK
  {
    blocks[ib := PutWord(blocks[ib], 4 * k, b)]
  }

  function AttachDirect(fs: FS, i: int, p: int, b: int, content: Block): FS
    requires 0 <= i < MAX_INODES && 0 <= p < DIRECT && 0 <= b < NUM_BLOCKS
  {
    FS(fs.inodes[i := WithDirect(fs.inodes[i], p, b)], Mark(fs.bits, b), fs.blocks[b := content])
  }

  function AttachIndirect(fs: FS, i: int, b: int): FS
    requires 0 <= i < MAX_INODES && 0 <= b < NUM_BLOCKS
  {
    FS(fs.inodes[i := WithIndirect(fs.inodes[i], b)], Mark(fs.bits, b), fs.blocks[b := AllOnes()])
  }

  function AttachEntry(fs: FS, i: int, k: int, b: int): FS
    requires 0 <= i < MAX_INODES && 0 <= k < PTRS_PER_BLOCK && 0 <= b < NUM_BLOCKS
    requires fs.inodes[i].indirect < NUM_BLOCKS
  {
    FS(fs.inodes, Mark(fs.bits, b), PutPointer(fs.blocks[b := Zeros()], fs.inodes[i].indirect, k, b))
  }

  /** gs differs from fs by giving the free block b to the empty place p of inode i. */
  ghost predicate Attached(fs: FS, gs: FS, i: int, p: int, b: int) {
    && IsPlace(i, p) && Live(fs, i) && Slot(fs, i, p) == NO_BLOCK
    && 0 <= b < NUM_BLOCKS && !Marked(fs.bits, b)
    && gs.bits == Mark(fs.bits, b)
    && (forall j | 0 <= j < MAX_INODES :: gs.inodes[j].kind == fs.inodes[j].kind && gs.inodes[j].size == fs.inodes[j].size)
    && (forall j, q | IsPlace(j, q) && Live(fs, j) ::
          Slot(gs, j, q) == if j == i && q == p then b else Slot(fs, j, q))
    && (forall j | 0 <= j < MAX_INODES && j != i :: gs.inodes[j] == fs.inodes[j])
    && (IsDir(fs, i) ==> gs.inodes[i].indirect == NO_BLOCK)
    // only the new block and i's own indirect block changed
    && (forall c | 0 <= c < NUM_BLOCKS && c != b && c != fs.inodes[i].indirect :: gs.blocks[c] == fs.blocks[c])
  }

  lemma AttachKeepsBlocksInv(fs: FS, gs: FS, owner: map<int, Place>, i: int, p: int, b: int)
    requires BlocksInv(fs, owner) && Attached(fs, gs, i, p, b)
    ensures BlocksInv(gs, owner[b := Place(i, p)])
  {
    var o2 := owner[b := Place(i, p)];
    forall c | c in o2
      ensures IsPlace(o2[c].ino, o2[c].at) && Live(gs, o2[c].ino) && Slot(gs, o2[c].ino, o2[c].at) == c
    {
      if c != b {
        var o := owner[c];
        assert Slot(fs, o.ino, o.at) == c;
      }
    }
    forall j, q | IsPlace(j, q) && Live(gs, j) && Slot(gs, j, q) != NO_BLOCK
      ensures Slot(gs, j, q) in o2 && o2[Slot(gs, j, q)] == Place(j, q)
    {
      if !(j == i && q == p) {
        assert Slot(fs, j, q) in owner;
      }
    }
  }

  /** The other inodes see nothing of an attachment. */
  lemma AttachSameView(fs: FS, gs: FS, owner: map<int, Place>, i: int, p: int, b: int, j: int)
    requires BlocksInv(fs, owner) && Attached(fs, gs, i, p, b)
    requires Live(fs, j) && j != i
    ensures SameView(fs, gs, j)
  {
    forall q | 0 <= q < PLACES && Slot(fs, j, q) < NUM_BLOCKS
      ensures gs.blocks[Slot(fs, j, q)] == fs.blocks[Slot(fs, j, q)]
    {
      assert owner[Slot(fs, j, q)] == Place(j, q);
      assert Slot(fs, i, INDIRECT) == fs.inodes[i].indirect;
    }
  }

  lemma AttachDirectAttaches(fs: FS, owner: map<int, Place>, i: int, p: int, b: int, content: Block)
    requires BlocksInv(fs, owner) && Live(fs, i) && 0 <= p < DIRECT && Slot(fs, i, p) == NO_BLOCK
    requires 0 <= b < NUM_BLOCKS && !Marked(fs.bits, b)
    ensures Attached(fs, AttachDirect(fs, i, p, b, content), i, p, b)
  {
    var gs := AttachDirect(fs, i, p, b, content);
    forall j, q | IsPlace(j, q) && Live(fs, j)
      ensures Slot(gs, j, q) == if j == i && q == p then b else Slot(fs, j, q)
    {
      assert Slot(fs, j, INDIRECT) == fs.inodes[j].indirect;
    }
  }

  lemma AllOnesIsEmpty(k: int)
    requires 0 <= k < PTRS_PER_BLOCK
    ensures GetWord(AllOnes(), 4 * k) == NO_BLOCK
  {
  }

  lemma AttachIndirectAttaches(fs: FS, owner: map<int, Place>, i: int, b: int)
    requires BlocksInv(fs, owner) && IsFile(fs, i) && fs.inodes[i].indirect == NO_BLOCK
    requires 0 <= b < NUM_BLOCKS && !Marked(fs.bits, b)
    ensures Attached(fs, AttachIndirect(fs, i, b), i, INDIRECT, b)
  {
    var gs := AttachIndirect(fs, i, b);
    assert Slot(fs, i, INDIRECT) == NO_BLOCK;
    forall j, q | IsPlace(j, q) && Live(fs, j)
      ensures Slot(gs, j, q) == if j == i && q == INDIRECT then b else Slot(fs, j, q)
    {
      assert Slot(fs, j, INDIRECT) == fs.inodes[j].indirect;
      if q > INDIRECT && j == i {
        AllOnesIsEmpty(q - 9);
      }
    }
  }

  lemma AttachEntryAttaches(fs: FS, owner: map<int, Place>, i: int, k: int, b: int)
    requires BlocksInv(fs, owner) && IsFile(fs, i) && 0 <= k < PTRS_PER_BLOCK
    requires fs.inodes[i].indirect < NUM_BLOCKS && Slot(fs, i, 9 + k) == NO_BLOCK
    requires 0 <= b < NUM_BLOCKS && !Marked(fs.bits, b)
    ensures Attached(fs, AttachEntry(fs, i, k, b), i, 9 + k, b)
  {
    var gs := AttachEntry(fs, i, k, b);
    var ib := fs.inodes[i].indirect;
    assert Slot(fs, i, INDIRECT) == ib && owner[ib] == Place(i, INDIRECT);
    forall j, q | IsPlace(j, q) && Live(fs, j)
      ensures Slot(gs, j, q) == if j == i && q == 9 + k then b else Slot(fs, j, q)
    {
      assert Slot(fs, j, INDIRECT) == fs.inodes[j].indirect;
      if j == i && q > INDIRECT && q != 9 + k {
        PutWordElsewhere(fs.blocks[ib], 4 * k, b, 4 * (q - 9));
      }
    }
  }

  // ---- block_for -------------------------------------------------------------------------------

  /** block_for(f, b, true): the block for logical block b, allocated on demand, or NO_BLOCK. */
  function BlockFor(fs: FS, i: int, b: int): (r: (FS, u32))
    requires 0 <= i < MAX_INODES
  {
    var f := fs.inodes[i];
    var k := FreeFrom(fs.bits, 0);
    if b < 0 || b >= MAX_BLOCKS then (fs, NO_BLOCK)
    else if b < DIRECT then
      if f.blocks[b] != NO_BLOCK then (fs, f.blocks[b])
      else if k < 0 then (fs, NO_BLOCK)
      else (AttachDirect(fs, i, b, k, Zeros()), k)
    else if f.indirect != NO_BLOCK then EntryFor(fs, i, b - DIRECT)
    else if k < 0 then (fs, NO_BLOCK)
    else EntryFor(AttachIndirect(fs, i, k), i, b - DIRECT)
  }

  /** The part of block_for that runs once the indirect block exists. */
  function EntryFor(fs: FS, i: int, e: int): (r: (FS, u32))
    requires 0 <= i < MAX_INODES && 0 <= e < PTRS_PER_BLOCK
  {
    var k := FreeFrom(fs.bits, 0);
    if Slot(fs, i, 9 + e) != NO_BLOCK then (fs, Slot(fs, i, 9 + e))
    else if k < 0 || fs.inodes[i].indirect >= NUM_BLOCKS then (fs, NO_BLOCK)
    else (AttachEntry(fs, i, e, k), k)
  }

  /** What allocating on behalf of inode i leaves alone. */
  ghost predicate Grown(fs: FS, gs: FS, i: int) {
    && 0 <= i < MAX_INODES
    && (forall j | 0 <= j < MAX_INODES :: gs.inodes[j].kind == fs.inodes[j].kind && gs.inodes[j].size == fs.inodes[j].size)
    && (forall j | Live(fs, j) && j != i :: SameView(fs, gs, j))
    && (forall p | 0 <= p < PLACES && Slot(fs, i, p) != NO_BLOCK :: Slot(gs, i, p) == Slot(fs, i, p))
  }

  lemma GrownTransitive(fs: FS, gs: FS, hs: FS, i: int)
    requires Grown(fs, gs, i) && Grown(gs, hs, i)
    ensures Grown(fs, hs, i)
  {
    forall j | Live(fs, j) && j != i ensures SameView(fs, hs, j) {
      SameViewTransitive(fs, gs, hs, j);
    }
    forall p | 0 <= p < PLACES && Slot(fs, i, p) != NO_BLOCK ensures Slot(hs, i, p) == Slot(fs, i, p) {
      assert Slot(gs, i, p) == Slot(fs, i, p);
    }
  }

  ghost predicate SameBytes(fs: FS, gs: FS, i: int)
    requires 0 <= i < MAX_INODES
  {
    forall pos | 0 <= pos < CAPACITY :: FileByte(gs, i, pos) == FileByte(fs, i, pos)
  }

  /** A zeroed block (or an indirect block) attached to a file does not change what it reads as. */
  lemma AttachZeros(fs: FS, gs: FS, owner: map<int, Place>, i: int, p: int, b: int)
    requires BlocksInv(fs, owner) && Attached(fs, gs, i, p, b)
    requires p != INDIRECT ==> gs.blocks[b] == Zeros()
    ensures Grown(fs, gs, i) && SameBytes(fs, gs, i)
  {
    forall j | Live(fs, j) && j != i ensures SameView(fs, gs, j) {
      AttachSameView(fs, gs, owner, i, p, b, j);
    }
    forall pos | 0 <= pos < CAPACITY ensures FileByte(gs, i, pos) == FileByte(fs, i, pos) {
      var q := DataPlace(pos / BLOCK_SIZE);
      var s := Slot(fs, i, q);
      assert Slot(gs, i, q) == if q == p then b else s;
      if q != p && s < NUM_BLOCKS {
        assert owner[s] == Place(i, q);
        assert Slot(fs, i, INDIRECT) == fs.inodes[i].indirect;
        assert gs.blocks[s] == fs.blocks[s];
      }
    }
  }

  /** gs is fs after some allocations on behalf of file i that do not change what any file reads as. */
  ghost predicate Allocated(fs: FS, owner: map<int, Place>, i: int, gs: FS, o2: map<int, Place>) {
    Grown(fs, gs, i) && BlocksInv(gs, o2) && SameBytes(fs, gs, i)
  }

  lemma AllocatedTransitive(fs: FS, owner: map<int, Place>, i: int, gs: FS, o2: map<int, Place>, hs: FS, o3: map<int, Place>)
    requires Allocated(fs, owner, i, gs, o2) && Allocated(gs, o2, i, hs, o3)
    ensures Allocated(fs, owner, i, hs, o3)
  {
    hide BlocksInv;
    GrownTransitive(fs, gs, hs, i);
    forall pos | 0 <= pos < CAPACITY ensures FileByte(hs, i, pos) == FileByte(fs, i, pos) {
      assert FileByte(hs, i, pos) == FileByte(gs, i, pos);
    }
  }

  /** What one call of block_for(f, b, true) achieves. */
  ghost predicate BlockForPost(fs: FS, owner: map<int, Place>, i: int, b: int, gs: FS, blk: u32, o2: map<int, Place>)
    requires 0 <= i < MAX_INODES
  {
    && Allocated(fs, owner, i, gs, o2)
    && (blk != NO_BLOCK ==> 0 <= b < MAX_BLOCKS && blk < NUM_BLOCKS && Slot(gs, i, DataPlace(b)) == blk)
    && (blk == NO_BLOCK && 0 <= b < MAX_BLOCKS ==> Full(gs))
    && |o2| == |owner|
       + (if 0 <= b < MAX_BLOCKS && blk != NO_BLOCK && Slot(fs, i, DataPlace(b)) == NO_BLOCK then 1 else 0)
       + (if gs.inodes[i].indirect != fs.inodes[i].indirect then 1 else 0)
    && (gs.inodes[i].indirect != fs.inodes[i].indirect ==> fs.inodes[i].indirect == NO_BLOCK && DIRECT <= b < MAX_BLOCKS)
    && (blk != NO_BLOCK && b >= DIRECT ==> gs.inodes[i].indirect != NO_BLOCK)
    && SlotsBut(fs, gs, i, DataPlace(b))
  }

  /** Apart from place p and the indirect pointer, i's places hold what they held. */
  ghost predicate SlotsBut(fs: FS, gs: FS, i: int, p: int)
    requires 0 <= i < MAX_INODES
  {
    forall q | 0 <= q < PLACES && q != p && q != INDIRECT :: Slot(gs, i, q) == Slot(fs, i, q)
  }

  lemma AllocateDirect(fs: FS, owner: map<int, Place>, i: int, b: int, k: int)
    requires BlocksInv(fs, owner) && IsFile(fs, i) && 0 <= b < DIRECT && Slot(fs, i, b) == NO_BLOCK
    requires 0 <= k < NUM_BLOCKS && !Marked(fs.bits, k)
    ensures Allocated(fs, owner, i, AttachDirect(fs, i, b, k, Zeros()), owner[k := Place(i, b)])
    ensures SlotsBut(fs, AttachDirect(fs, i, b, k, Zeros()), i, b)
  {
    var gs := AttachDirect(fs, i, b, k, Zeros());
    AttachDirectAttaches(fs, owner, i, b, k, Zeros());
    AttachKeepsBlocksInv(fs, gs, owner, i, b, k);
    AttachZeros(fs, gs, owner, i, b, k);
  }

  lemma AllocateIndirect(fs: FS, owner: map<int, Place>, i: int, k: int)
    requires BlocksInv(fs, owner) && IsFile(fs, i) && fs.inodes[i].indirect == NO_BLOCK
    requires 0 <= k < NUM_BLOCKS && !Marked(fs.bits, k)
    ensures Allocated(fs, owner, i, AttachIndirect(fs, i, k), owner[k := Place(i, INDIRECT)])
    ensures SlotsBut(fs, AttachIndirect(fs, i, k), i, INDIRECT)
  {
    var gs := AttachIndirect(fs, i, k);
    AttachIndirectAttaches(fs, owner, i, k);
    AttachKeepsBlocksInv(fs, gs, owner, i, INDIRECT, k);
    AttachZeros(fs, gs, owner, i, INDIRECT, k);
  }

  lemma AllocateEntry(fs: FS, owner: map<int, Place>, i: int, e: int, k: int)
    requires BlocksInv(fs, owner) && IsFile(fs, i) && 0 <= e < PTRS_PER_BLOCK
    requires fs.inodes[i].indirect < NUM_BLOCKS && Slot(fs, i, 9 + e) == NO_BLOCK
    requires 0 <= k < NUM_BLOCKS && !Marked(fs.bits, k)
    ensures Allocated(fs, owner, i, AttachEntry(fs, i, e, k), owner[k := Place(i, 9 + e)])
    ensures SlotsBut(fs, AttachEntry(fs, i, e, k), i, 9 + e)
    ensures Slot(AttachEntry(fs, i, e, k), i, 9 + e) == k
  {
    var gs := AttachEntry(fs, i, e, k);
    assert Slot(fs, i, INDIRECT) == fs.inodes[i].indirect;
    SlotOwned(fs, owner, i, INDIRECT);
    AttachEntryAttaches(fs, owner, i, e, k);
    AttachKeepsBlocksInv(fs, gs, owner, i, 9 + e, k);
    AttachZeros(fs, gs, owner, i, 9 + e, k);
  }

  lemma AllocatedKeepsInv(fs: FS, owner: map<int, Place>, i: int, gs: FS, o2: map<int, Place>)
    requires Allocated(fs, owner, i, gs, o2)
    ensures BlocksInv(gs, o2)
  {
  }

  lemma NothingAllocated(fs: FS, owner: map<int, Place>, i: int)
    requires BlocksInv(fs, owner) && 0 <= i < MAX_INODES
    ensures Allocated(fs, owner, i, fs, owner)
  {
  }

  /** In a well-formed state a pointer is either NO_BLOCK or an allocated block owned by that place. */
  lemma SlotOwned(fs: FS, owner: map<int, Place>, i: int, p: int)
    requires BlocksInv(fs, owner) && Live(fs, i) && IsPlace(i, p) && Slot(fs, i, p) != NO_BLOCK
    ensures Slot(fs, i, p) < NUM_BLOCKS && Slot(fs, i, p) in owner && owner[Slot(fs, i, p)] == Place(i, p)
    ensures Marked(fs.bits, Slot(fs, i, p))
  {
    assert Slot(fs, i, p) in owner;
  }

  lemma UnownedWhenFree(fs: FS, owner: map<int, Place>, k: int)
    requires BlocksInv(fs, owner) && 0 <= k < NUM_BLOCKS && !Marked(fs.bits, k)
    ensures k !in owner
  {
  }

  lemma EntryForPost(fs: FS, owner: map<int, Place>, i: int, e: int) returns (o2: map<int, Place>)
    requires BlocksInv(fs, owner) && IsFile(fs, i) && 0 <= e < PTRS_PER_BLOCK
    requires fs.inodes[i].indirect != NO_BLOCK
    ensures BlockForPost(fs, owner, i, DIRECT + e, EntryFor(fs, i, e).0, EntryFor(fs, i, e).1, o2)
    ensures EntryFor(fs, i, e).0.inodes == fs.inodes
  {
    hide BlocksInv, Allocated;
    assert Slot(fs, i, INDIRECT) == fs.inodes[i].indirect;
    SlotOwned(fs, owner, i, INDIRECT);
    var k := FreeFrom(fs.bits, 0);
    o2 := owner;
    NothingAllocated(fs, owner, i);
    if Slot(fs, i, 9 + e) != NO_BLOCK {
      SlotOwned(fs, owner, i, 9 + e);
    } else if k >= 0 {
      AllocateEntry(fs, owner, i, e, k);
      UnownedWhenFree(fs, owner, k);
      o2 := owner[k := Place(i, 9 + e)];
    }
  }

  lemma BlockForInv(fs: FS, owner: map<int, Place>, i: int, b: int) returns (o2: map<int, Place>)
    requires BlocksInv(fs, owner) && IsFile(fs, i)
    ensures BlockForPost(fs, owner, i, b, BlockFor(fs, i, b).0, BlockFor(fs, i, b).1, o2)
  {
    hide BlocksInv, Allocated, EntryFor, Slot;
    var k := FreeFrom(fs.bits, 0);
    o2 := owner;
    NothingAllocated(fs, owner, i);
    if 0 <= b < DIRECT {
      o2 := BlockForDirect(fs, owner, i, b);
    } else if DIRECT <= b < MAX_BLOCKS {
      if fs.inodes[i].indirect != NO_BLOCK {
        o2 := EntryForPost(fs, owner, i, b - DIRECT);
      } else if k >= 0 {
        o2 := BlockForNewIndirect(fs, owner, i, b, k);
      }
    }
  }

  lemma BlockForDirect(fs: FS, owner: map<int, Place>, i: int, b: int) returns (o2: map<int, Place>)
    requires BlocksInv(fs, owner) && IsFile(fs, i) && 0 <= b < DIRECT
    ensures BlockForPost(fs, owner, i, b, BlockFor(fs, i, b).0, BlockFor(fs, i, b).1, o2)
  {
    hide BlocksInv, Allocated, EntryFor;
    var k := FreeFrom(fs.bits, 0);
    o2 := owner;
    NothingAllocated(fs, owner, i);
    if Slot(fs, i, b) != NO_BLOCK {
      SlotOwned(fs, owner, i, b);
    } else if k >= 0 {
      AllocateDirect(fs, owner, i, b, k);
      UnownedWhenFree(fs, owner, k);
      o2 := owner[k := Place(i, b)];
    }
  }

  lemma BlockForNewIndirect(fs: FS, owner: map<int, Place>, i: int, b: int, k: int) returns (o2: map<int, Place>)
    requires BlocksInv(fs, owner) && IsFile(fs, i) && DIRECT <= b < MAX_BLOCKS
    requires fs.inodes[i].indirect == NO_BLOCK && 0 <= k < NUM_BLOCKS && !Marked(fs.bits, k)
    ensures var r := EntryFor(AttachIndirect(fs, i, k), i, b - DIRECT); BlockForPost(fs, owner, i, b, r.0, r.1, o2)
  {
    hide BlocksInv, Allocated;
    var ms := AttachIndirect(fs, i, k);
    var o1 := owner[k := Place(i, INDIRECT)];
    AllocateIndirect(fs, owner, i, k);
    UnownedWhenFree(fs, owner, k);
    AllocatedKeepsInv(fs, owner, i, ms, o1);
    o2 := EntryForPost(ms, o1, i, b - DIRECT);
    AllocatedTransitive(fs, owner, i, ms, o1, EntryFor(ms, i, b - DIRECT).0, o2);
    AllOnesIsEmpty(b - DIRECT);
  }

  /** A block given to a file for data was free, and no lower block is free any more. */
  lemma BlockForLowest(fs: FS, owner: map<int, Place>, i: int, b: int)
    requires BlocksInv(fs, owner) && IsFile(fs, i) && 0 <= b < MAX_BLOCKS && Slot(fs, i, DataPlace(b)) == NO_BLOCK
    ensures var (gs, blk) := BlockFor(fs, i, b);
      blk != NO_BLOCK ==> blk < NUM_BLOCKS && !Marked(fs.bits, blk) && forall c | 0 <= c <= blk :: Marked(gs.bits, c)
  {
    hide GetWord, Marked, BlocksInv, PutPointer;
    if b >= DIRECT && fs.inodes[i].indirect == NO_BLOCK && FreeFrom(fs.bits, 0) >= 0 {
      AllOnesIsEmpty(b - DIRECT);
    }
  }
}
