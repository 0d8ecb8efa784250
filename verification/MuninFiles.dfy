/** Writing, truncating and replacing file contents, as functions on filesystem values. */
module MuninFiles {
  import opened Bytes
  import opened MuninState
  import opened MuninBlocks

  // ---- writing bytes at an offset -----------------------------------------------------------

  function PutByte(fs: FS, blk: int, off: int, v: byte): FS
    requires 0 <= blk < NUM_BLOCKS && 0 <= off < BLOCK_SIZE
  {
    FS(fs.inodes, fs.bits, fs.blocks[blk := fs.blocks[blk][off := v]])
  }

  function SetSize(fs: FS, i: int, size: u32): FS
    requires 0 <= i < MAX_INODES
  {
    FS(fs.inodes[i := Inode(fs.inodes[i].kind, size, fs.inodes[i].blocks, fs.inodes[i].indirect)], fs.bits, fs.blocks)
  }

  /**
   * Store data at pos one byte at a time, allocating each byte's block on demand, until the
   * data, the file capacity or the block pool runs out. Returns the number of bytes stored.
   */
  function WriteAll(fs: FS, i: int, pos: nat, data: seq<byte>): (r: (FS, nat))
    requires 0 <= i < MAX_INODES
    ensures r.1 <= |data| && (r.1 == 0 || pos + r.1 <= CAPACITY)
    decreases |data|
  {
    if data == [] then (fs, 0)
    else if BlockFor(fs, i, pos / BLOCK_SIZE).1 >= NUM_BLOCKS then (BlockFor(fs, i, pos / BLOCK_SIZE).0, 0)
    else CountOne(WriteAll(StoreByte(fs, i, pos, data[0]), i, pos + 1, data[1..]))
  }

  function CountOne(r: (FS, nat)): (FS, nat) {
    (r.0, r.1 + 1)
  }

  /** One byte stored at pos, in the block that block_for provides. */
  function StoreByte(fs: FS, i: int, pos: nat, v: byte): FS
    requires 0 <= i < MAX_INODES && BlockFor(fs, i, pos / BLOCK_SIZE).1 < NUM_BLOCKS
  {
    PutByte(BlockFor(fs, i, pos / BLOCK_SIZE).0, BlockFor(fs, i, pos / BLOCK_SIZE).1, pos % BLOCK_SIZE, v)
  }

  /** n bytes of data have been stored at pos of file i, and nothing else can be told apart. */
  ghost predicate Wrote(fs: FS, gs: FS, i: int, pos: nat, data: seq<byte>, n: nat) {
    && Grown(fs, gs, i)
    && n <= |data| && (n == 0 || pos + n <= CAPACITY)
    && forall q | 0 <= q < CAPACITY ::
         FileByte(gs, i, q) == if pos <= q < pos + n then data[q - pos] else FileByte(fs, i, q)
  }

  lemma PutByteKeepsSlots(fs: FS, owner: map<int, Place>, i: int, p: int, off: int, v: byte, j: int, q: int)
    requires BlocksInv(fs, owner) && IsFile(fs, i) && IsPlace(i, p) && p != INDIRECT
    requires Slot(fs, i, p) < NUM_BLOCKS && 0 <= off < BLOCK_SIZE
    requires Live(fs, j) && IsPlace(j, q)
    ensures Slot(PutByte(fs, Slot(fs, i, p), off, v), j, q) == Slot(fs, j, q)
  {
    assert Slot(fs, j, INDIRECT) == fs.inodes[j].indirect;
    SlotOwned(fs, owner, i, p);
    if fs.inodes[j].indirect != NO_BLOCK {
      SlotOwned(fs, owner, j, INDIRECT);
    }
  }

  lemma PutByteEffect(fs: FS, owner: map<int, Place>, i: int, pos: nat, v: byte)
    requires BlocksInv(fs, owner) && IsFile(fs, i) && pos < CAPACITY
    requires Slot(fs, i, DataPlace(pos / BLOCK_SIZE)) < NUM_BLOCKS
    ensures var gs := PutByte(fs, Slot(fs, i, DataPlace(pos / BLOCK_SIZE)), pos % BLOCK_SIZE, v);
      BlocksInv(gs, owner) && Wrote(fs, gs, i, pos, [v], 1)
  {
    var p := DataPlace(pos / BLOCK_SIZE);
    var s := Slot(fs, i, p);
    var gs := PutByte(fs, s, pos % BLOCK_SIZE, v);
    forall j, q | Live(fs, j) && IsPlace(j, q) ensures Slot(gs, j, q) == Slot(fs, j, q) {
      PutByteKeepsSlots(fs, owner, i, p, pos % BLOCK_SIZE, v, j, q);
    }
    assert BlocksInv(gs, owner);
    forall j | Live(fs, j) && j != i ensures SameView(fs, gs, j) {
      forall q | 0 <= q < PLACES && Slot(fs, j, q) < NUM_BLOCKS
        ensures gs.blocks[Slot(fs, j, q)] == fs.blocks[Slot(fs, j, q)]
      {
        SlotOwned(fs, owner, i, p);
        SlotOwned(fs, owner, j, q);
      }
    }
    PutByteBytes(fs, gs, owner, i, pos, v);
  }

  lemma PutByteBytes(fs: FS, gs: FS, owner: map<int, Place>, i: int, pos: nat, v: byte)
    requires BlocksInv(fs, owner) && IsFile(fs, i) && pos < CAPACITY
    requires Slot(fs, i, DataPlace(pos / BLOCK_SIZE)) < NUM_BLOCKS
    requires gs == PutByte(fs, Slot(fs, i, DataPlace(pos / BLOCK_SIZE)), pos % BLOCK_SIZE, v)
    requires forall q | 0 <= q < PLACES :: Slot(gs, i, q) == Slot(fs, i, q)
    ensures forall q | 0 <= q < CAPACITY ::
      FileByte(gs, i, q) == if q == pos then v else FileByte(fs, i, q)
  {
    hide BlocksInv;
    var p := DataPlace(pos / BLOCK_SIZE);
    forall q | 0 <= q < CAPACITY
      ensures FileByte(gs, i, q) == if q == pos then v else FileByte(fs, i, q)
    {
      var p' := DataPlace(q / BLOCK_SIZE);
      if p' != p && Slot(fs, i, p') != NO_BLOCK {
        SlotOwned(fs, owner, i, p);
        SlotOwned(fs, owner, i, p');
      }
    }
  }

  lemma WroteAfterAllocation(fs: FS, owner: map<int, Place>, ms: FS, o2: map<int, Place>, gs: FS, i: int, pos: nat, data: seq<byte>, n: nat)
    requires Allocated(fs, owner, i, ms, o2) && Wrote(ms, gs, i, pos, data, n)
    ensures Wrote(fs, gs, i, pos, data, n)
  {
    hide BlocksInv;
    GrownTransitive(fs, ms, gs, i);
    forall q | 0 <= q < CAPACITY
      ensures FileByte(gs, i, q) == if pos <= q < pos + n then data[q - pos] else FileByte(fs, i, q)
    {
      assert FileByte(ms, i, q) == FileByte(fs, i, q);
    }
  }

  lemma WroteThenWrote(fs: FS, ms: FS, gs: FS, i: int, pos: nat, data: seq<byte>, n: nat)
    requires data != [] && Wrote(fs, ms, i, pos, [data[0]], 1)
    requires Wrote(ms, gs, i, pos + 1, data[1..], n)
    ensures Wrote(fs, gs, i, pos, data, n + 1)
  {
    GrownTransitive(fs, ms, gs, i);
    forall q | 0 <= q < CAPACITY
      ensures FileByte(gs, i, q) == if pos <= q < pos + n + 1 then data[q - pos] else FileByte(fs, i, q)
    {
      assert FileByte(ms, i, q) == if pos <= q < pos + 1 then [data[0]][q - pos] else FileByte(fs, i, q);
      if pos < q < pos + n + 1 {
        assert data[1..][q - (pos + 1)] == data[q - pos];
      }
    }
  }

  lemma StoreByteWrites(fs: FS, owner: map<int, Place>, i: int, pos: nat, v: byte) returns (o2: map<int, Place>)
    requires BlocksInv(fs, owner) && IsFile(fs, i)
    requires BlockFor(fs, i, pos / BLOCK_SIZE).1 < NUM_BLOCKS
    ensures BlocksInv(StoreByte(fs, i, pos, v), o2) && Wrote(fs, StoreByte(fs, i, pos, v), i, pos, [v], 1)
    ensures IsFile(StoreByte(fs, i, pos, v), i) && pos < CAPACITY
  {
    hide BlocksInv, Wrote;
    var ms := BlockFor(fs, i, pos / BLOCK_SIZE).0;
    o2 := BlockForInv(fs, owner, i, pos / BLOCK_SIZE);
    AllocatedKeepsInv(fs, owner, i, ms, o2);
    PutByteEffect(ms, o2, i, pos, v);
    WroteAfterAllocation(fs, owner, ms, o2, StoreByte(fs, i, pos, v), i, pos, [v], 1);
  }

  lemma WroteNothing(fs: FS, owner: map<int, Place>, gs: FS, o2: map<int, Place>, i: int, pos: nat, data: seq<byte>)
    requires Allocated(fs, owner, i, gs, o2)
    ensures Wrote(fs, gs, i, pos, data, 0)
  {
    hide BlocksInv;
  }

  /**
   * Storing data keeps block ownership, changes exactly the bytes it reports, and stops
   * short only at the capacity or when no block is free.
   */
  lemma {:induction false} WriteAllInv(fs: FS, owner: map<int, Place>, i: int, pos: nat, data: seq<byte>) returns (o2: map<int, Place>)
    requires BlocksInv(fs, owner) && IsFile(fs, i)
    ensures var (gs, n) := WriteAll(fs, i, pos, data);
      && BlocksInv(gs, o2) && Wrote(fs, gs, i, pos, data, n)
      && (n < |data| && pos + n < CAPACITY ==> Full(gs))
    decreases |data|
  {
    hide BlocksInv, Wrote, BlockFor;
    if data == [] {
      o2 := owner;
      NothingAllocated(fs, owner, i);
      WroteNothing(fs, owner, fs, owner, i, pos, data);
    } else if BlockFor(fs, i, pos / BLOCK_SIZE).1 >= NUM_BLOCKS {
      o2 := BlockForInv(fs, owner, i, pos / BLOCK_SIZE);
      AllocatedKeepsInv(fs, owner, i, BlockFor(fs, i, pos / BLOCK_SIZE).0, o2);
      WroteNothing(fs, owner, BlockFor(fs, i, pos / BLOCK_SIZE).0, o2, i, pos, data);
    } else {
      var ms := StoreByte(fs, i, pos, data[0]);
      var o1 := StoreByteWrites(fs, owner, i, pos, data[0]);
      o2 := WriteAllInv(ms, o1, i, pos + 1, data[1..]);
      WroteThenWrote(fs, ms, WriteAll(ms, i, pos + 1, data[1..]).0, i, pos, data, WriteAll(ms, i, pos + 1, data[1..]).1);
    }
  }

  // ---- whole chunks refine single bytes ---------------------------------------------------------

  /** The copy loop of one block: chunk stored at offset off of block blk. */
  function PutBytes(fs: FS, blk: int, off: int, chunk: seq<byte>): FS
    requires 0 <= blk < NUM_BLOCKS && 0 <= off && off + |chunk| <= BLOCK_SIZE
  {
    FS(fs.inodes, fs.bits, fs.blocks[blk := fs.blocks[blk][..off] + chunk + fs.blocks[blk][off + |chunk|..]])
  }

  lemma PutBytesFirst(fs: FS, blk: int, off: int, chunk: seq<byte>)
    requires 0 <= blk < NUM_BLOCKS && 0 <= off && off + |chunk| <= BLOCK_SIZE && chunk != []
    ensures PutBytes(fs, blk, off, chunk) == PutBytes(PutByte(fs, blk, off, chunk[0]), blk, off + 1, chunk[1..])
  {
    var b := fs.blocks[blk];
    var b' := b[off := chunk[0]];
    assert b[..off] + chunk + b[off + |chunk|..] == b'[..off + 1] + chunk[1..] + b'[off + |chunk|..];
    assert fs.blocks[blk := b'][blk := b[..off] + chunk + b[off + |chunk|..]]
        == fs.blocks[blk := b[..off] + chunk + b[off + |chunk|..]];
  }

  lemma PutBytesNothing(fs: FS, blk: int, off: int)
    requires 0 <= blk < NUM_BLOCKS && 0 <= off <= BLOCK_SIZE
    ensures PutBytes(fs, blk, off, []) == fs
  {
    assert fs.blocks[blk][..off] + [] + fs.blocks[blk][off..] == fs.blocks[blk];
    assert fs.blocks[blk := fs.blocks[blk]] == fs.blocks;
  }

  /** A byte stored in a block leaves the block where it is. */
  lemma ByteInBlock(fs: FS, owner: map<int, Place>, i: int, pos: nat, v: byte)
    requires BlocksInv(fs, owner) && IsFile(fs, i) && pos < CAPACITY
    requires Slot(fs, i, DataPlace(pos / BLOCK_SIZE)) < NUM_BLOCKS
    ensures var blk := Slot(fs, i, DataPlace(pos / BLOCK_SIZE));
      var gs := PutByte(fs, blk, pos % BLOCK_SIZE, v);
      BlocksInv(gs, owner) && IsFile(gs, i) && Slot(gs, i, DataPlace(pos / BLOCK_SIZE)) == blk
  {
    hide BlocksInv, Slot, FileByte;
    PutByteEffect(fs, owner, i, pos, v);
    PutByteKeepsSlots(fs, owner, i, DataPlace(pos / BLOCK_SIZE), pos % BLOCK_SIZE, v, i, DataPlace(pos / BLOCK_SIZE));
  }

  /** Where the block is there, a write begins by storing its first byte. */
  lemma WriteFirst(fs: FS, i: int, pos: nat, data: seq<byte>)
    requires 0 <= i < MAX_INODES && pos < CAPACITY && data != [] && Slot(fs, i, DataPlace(pos / BLOCK_SIZE)) < NUM_BLOCKS
    ensures var gs := PutByte(fs, Slot(fs, i, DataPlace(pos / BLOCK_SIZE)), pos % BLOCK_SIZE, data[0]);
      WriteAll(fs, i, pos, data) == CountOne(WriteAll(gs, i, pos + 1, data[1..]))
  {
    hide BlockFor, Slot, PutByte;
    BlockForPresent(fs, i, pos / BLOCK_SIZE);
  }

  /** Copying a chunk into the block of pos is c steps of the byte-at-a-time write. */
  lemma {:induction false} WriteChunk(fs: FS, owner: map<int, Place>, i: int, pos: nat, data: seq<byte>, c: nat)
    requires BlocksInv(fs, owner) && IsFile(fs, i) && pos < CAPACITY
    requires c <= |data| && pos % BLOCK_SIZE + c <= BLOCK_SIZE
    requires Slot(fs, i, DataPlace(pos / BLOCK_SIZE)) < NUM_BLOCKS
    ensures var blk := Slot(fs, i, DataPlace(pos / BLOCK_SIZE));
      var r := WriteAll(PutBytes(fs, blk, pos % BLOCK_SIZE, data[..c]), i, pos + c, data[c..]);
      WriteAll(fs, i, pos, data) == (r.0, r.1 + c)
    decreases c
  {
    hide BlocksInv, BlockFor, Wrote, PutBytes, Slot, WriteAll, PutByte;
    var blk := Slot(fs, i, DataPlace(pos / BLOCK_SIZE));
    if c == 0 {
      PutBytesNothing(fs, blk, pos % BLOCK_SIZE);
      assert data[..0] == [] && data[0..] == data;
    } else {
      var gs := PutByte(fs, blk, pos % BLOCK_SIZE, data[0]);
      WriteFirst(fs, i, pos, data);
      PutBytesFirst(fs, blk, pos % BLOCK_SIZE, data[..c]);
      assert data[..c][1..] == data[1..][..c - 1] && data[1..][c - 1..] == data[c..];
      if c == 1 {
        PutBytesNothing(gs, blk, pos % BLOCK_SIZE + 1);
        assert data[1..][..0] == [];
      } else {
        ByteInBlock(fs, owner, i, pos, data[0]);
        WriteChunk(gs, owner, i, pos + 1, data[1..], c - 1);
      }
    }
  }

  lemma BlockForPresent(fs: FS, i: int, b: int)
    requires 0 <= i < MAX_INODES && 0 <= b < MAX_BLOCKS && Slot(fs, i, DataPlace(b)) < NUM_BLOCKS
    ensures BlockFor(fs, i, b) == (fs, Slot(fs, i, DataPlace(b)))
  {
  }

  /** Asking for the same block twice is asking for it once, whether or not it could be provided. */
  lemma BlockForTwice(fs: FS, owner: map<int, Place>, i: int, b: int)
    requires BlocksInv(fs, owner) && IsFile(fs, i)
    ensures BlockFor(BlockFor(fs, i, b).0, i, b) == BlockFor(fs, i, b)
  {
    hide BlocksInv, Allocated;
    var r := BlockFor(fs, i, b);
    var o2 := BlockForInv(fs, owner, i, b);
    if r.1 != NO_BLOCK {
      hide BlockFor;
      BlockForPresent(r.0, i, b);
    }
  }

  lemma WriteAfterBlockFor(fs: FS, owner: map<int, Place>, i: int, pos: nat, data: seq<byte>)
    requires BlocksInv(fs, owner) && IsFile(fs, i) && data != []
    ensures WriteAll(BlockFor(fs, i, pos / BLOCK_SIZE).0, i, pos, data) == WriteAll(fs, i, pos, data)
  {
    hide BlocksInv, BlockFor;
    BlockForTwice(fs, owner, i, pos / BLOCK_SIZE);
  }

  // ---- two writes in a row ------------------------------------------------------------------------

  lemma {:induction false} WriteAllConcat(fs: FS, i: int, pos: nat, a: seq<byte>, b: seq<byte>)
    requires 0 <= i < MAX_INODES
    ensures var (gs, n) := WriteAll(fs, i, pos, a);
      WriteAll(fs, i, pos, a + b) ==
        if n == |a| then (WriteAll(gs, i, pos + n, b).0, n + WriteAll(gs, i, pos + n, b).1) else (gs, n)
    decreases |a|
  {
    hide BlockFor;
    if a == [] {
      assert a + b == b;
    } else {
      assert (a + b)[0] == a[0] && (a + b)[1..] == a[1..] + b;
      if BlockFor(fs, i, pos / BLOCK_SIZE).1 < NUM_BLOCKS {
        WriteAllConcat(StoreByte(fs, i, pos, a[0]), i, pos + 1, a[1..], b);
      }
    }
  }

  lemma BlockForSetSize(fs: FS, i: int, b: int, z: u32)
    requires 0 <= i < MAX_INODES
    ensures BlockFor(SetSize(fs, i, z), i, b) == (SetSize(BlockFor(fs, i, b).0, i, z), BlockFor(fs, i, b).1)
  {
    var gs := SetSize(fs, i, z);
    var k := FreeFrom(fs.bits, 0);
    if 0 <= b < DIRECT && k >= 0 {
      assert AttachDirect(gs, i, b, k, Zeros()) == SetSize(AttachDirect(fs, i, b, k, Zeros()), i, z);
    } else if DIRECT <= b < MAX_BLOCKS {
      if fs.inodes[i].indirect != NO_BLOCK {
        EntryForSetSize(fs, i, b - DIRECT, z);
      } else if k >= 0 {
        assert AttachIndirect(gs, i, k) == SetSize(AttachIndirect(fs, i, k), i, z);
        EntryForSetSize(AttachIndirect(fs, i, k), i, b - DIRECT, z);
      }
    }
  }

  lemma EntryForSetSize(fs: FS, i: int, e: int, z: u32)
    requires 0 <= i < MAX_INODES && 0 <= e < PTRS_PER_BLOCK
    ensures EntryFor(SetSize(fs, i, z), i, e) == (SetSize(EntryFor(fs, i, e).0, i, z), EntryFor(fs, i, e).1)
  {
  }

  /** The recorded size plays no part in where bytes go. */
  lemma {:induction false} WriteAllSetSize(fs: FS, i: int, pos: nat, data: seq<byte>, z: u32)
    requires 0 <= i < MAX_INODES
    ensures WriteAll(SetSize(fs, i, z), i, pos, data) == (SetSize(WriteAll(fs, i, pos, data).0, i, z), WriteAll(fs, i, pos, data).1)
    decreases |data|
  {
    hide BlockFor;
    if data != [] {
      BlockForSetSize(fs, i, pos / BLOCK_SIZE, z);
      if BlockFor(fs, i, pos / BLOCK_SIZE).1 < NUM_BLOCKS {
        assert StoreByte(SetSize(fs, i, z), i, pos, data[0]) == SetSize(StoreByte(fs, i, pos, data[0]), i, z);
        WriteAllSetSize(StoreByte(fs, i, pos, data[0]), i, pos + 1, data[1..], z);
      }
    }
  }

  // ---- munin_write_inode ----------------------------------------------------------------------------

  function Max(a: int, b: int): int {
    if a > b then a else b
  }

  /** munin_write_inode: the new state and the result. */
  function WriteInode(fs: FS, i: int, data: seq<byte>, offset: nat): (r: (FS, int)) {
    if !IsFile(fs, i) || offset >= CAPACITY then (fs, -1)
    else (Resized(WriteAll(fs, i, offset, data), i, offset), WriteAll(fs, i, offset, data).1 as int)
  }

  function Resized(r: (FS, nat), i: int, offset: nat): FS
    requires 0 <= i < MAX_INODES && offset + r.1 <= CAPACITY
  {
    if r.0.inodes[i].size < offset + r.1 then SetSize(r.0, i, offset + r.1) else r.0
  }

  /** SetSize touches no block, no pointer and no byte. */
  lemma SetSizeKeeps(fs: FS, owner: map<int, Place>, i: int, z: u32)
    requires BlocksInv(fs, owner) && 0 <= i < MAX_INODES
    ensures var gs := SetSize(fs, i, z);
      && BlocksInv(gs, owner)
      && (forall j, p | IsPlace(j, p) :: Slot(gs, j, p) == Slot(fs, j, p))
      && (forall j | 0 <= j < MAX_INODES && j != i :: SameView(fs, gs, j))
      && SameBytes(fs, gs, i)
  {
    var gs := SetSize(fs, i, z);
    forall j, p | IsPlace(j, p) ensures Slot(gs, j, p) == Slot(fs, j, p) {
    }
  }

  /** The bytes of a file, up to its size. */
  function Contents(fs: FS, i: int): (c: seq<byte>)
    requires 0 <= i < MAX_INODES && fs.inodes[i].size <= CAPACITY
    ensures |c| == fs.inodes[i].size
    ensures forall q | 0 <= q < |c| :: c[q] == FileByte(fs, i, q)
  {
    seq(fs.inodes[i].size, q requires 0 <= q < fs.inodes[i].size => FileByte(fs, i, q))
  }

  /** c overwritten by d from offset on; a gap between the old end and offset is filled with zeros. */
  function Spliced(c: seq<byte>, offset: nat, d: seq<byte>): (r: seq<byte>)
    ensures |r| == Max(|c|, offset + |d|)
  {
    seq(Max(|c|, offset + |d|), q requires 0 <= q => if offset <= q < offset + |d| then d[q - offset] else if q < |c| then c[q] else 0)
  }

  /** Everything about files other than i, and about directories, is as before. */
  ghost predicate OnlyFileChanged(fs: FS, gs: FS, i: int) {
    && 0 <= i < MAX_INODES
    && (forall j | 0 <= j < MAX_INODES :: gs.inodes[j].kind == fs.inodes[j].kind)
    && (forall j | Live(fs, j) && j != i :: SameView(fs, gs, j))
  }

  lemma OnlyFileChangedKeepsFilesInv(fs: FS, gs: FS, i: int)
    requires FilesInv(fs) && OnlyFileChanged(fs, gs, i)
    requires IsFile(fs, i) && gs.inodes[i].size <= CAPACITY
    requires forall q | gs.inodes[i].size <= q < CAPACITY :: FileByte(gs, i, q) == 0
    ensures FilesInv(gs)
  {
    forall j | IsFile(gs, j)
      ensures gs.inodes[j].size <= CAPACITY && forall q | gs.inodes[j].size <= q < CAPACITY :: FileByte(gs, j, q) == 0
    {
      if j != i {
        SameViewSlots(fs, gs, j);
      }
    }
  }

  /** After a write the file reads as before except for the n bytes stored at offset. */
  lemma WriteInodeBytes(fs: FS, owner: map<int, Place>, i: int, data: seq<byte>, offset: nat) returns (o2: map<int, Place>)
    requires BlocksInv(fs, owner) && IsFile(fs, i) && offset < CAPACITY
    ensures var (gs, n) := WriteInode(fs, i, data, offset);
      && BlocksInv(gs, o2) && OnlyFileChanged(fs, gs, i)
      && 0 <= n <= |data| && offset + n <= CAPACITY
      && gs.inodes[i].size == Max(fs.inodes[i].size, offset + n)
      && (forall q | 0 <= q < CAPACITY ::
            FileByte(gs, i, q) == if offset <= q < offset + n then data[q - offset] else FileByte(fs, i, q))
      && (n < |data| && offset + n < CAPACITY ==> Full(gs))
  {
    hide BlocksInv, WriteAll, FileByte, SameView;
    var ms := WriteAll(fs, i, offset, data).0;
    var n := WriteAll(fs, i, offset, data).1;
    o2 := WriteAllInv(fs, owner, i, offset, data);
    ResizeKeeps(fs, ms, o2, i, offset + n);
  }

  lemma ResizeKeeps(fs: FS, ms: FS, owner: map<int, Place>, i: int, z: u32)
    requires Grown(fs, ms, i) && BlocksInv(ms, owner)
    ensures OnlyFileChanged(fs, ms, i)
    ensures BlocksInv(SetSize(ms, i, z), owner) && OnlyFileChanged(fs, SetSize(ms, i, z), i)
    ensures forall q | 0 <= q < CAPACITY :: FileByte(SetSize(ms, i, z), i, q) == FileByte(ms, i, q)
  {
    hide BlocksInv, FileByte, SameView;
    SetSizeKeeps(ms, owner, i, z);
    forall j | Live(fs, j) && j != i ensures SameView(fs, SetSize(ms, i, z), j) {
      SameViewTransitive(fs, ms, SetSize(ms, i, z), j);
    }
  }

  /**
   * munin_write_inode: exactly the reported bytes change, in exactly this file, and the gap
   * beyond the old end reads as zeros. The write is short only at the capacity or when the
   * block pool is empty.
   */
  lemma WriteInodeEffect(fs: FS, owner: map<int, Place>, i: int, data: seq<byte>, offset: nat) returns (o2: map<int, Place>)
    requires BlocksInv(fs, owner) && FilesInv(fs) && IsFile(fs, i) && offset < CAPACITY
    ensures var (gs, n) := WriteInode(fs, i, data, offset);
      && BlocksInv(gs, o2) && FilesInv(gs) && OnlyFileChanged(fs, gs, i)
      && 0 <= n <= |data| && offset + n <= CAPACITY
      && Contents(gs, i) == Spliced(Contents(fs, i), offset, data[..n])
      && (n < |data| && offset + n < CAPACITY ==> Full(gs))
  {
    hide BlocksInv, WriteInode, FileByte, SameView;
    o2 := WriteInodeBytes(fs, owner, i, data, offset);
    var (gs, n) := WriteInode(fs, i, data, offset);
    OnlyFileChangedKeepsFilesInv(fs, gs, i);
    assert Contents(gs, i) == Spliced(Contents(fs, i), offset, data[..n]);
  }

  // ---- the cursor law -------------------------------------------------------------------------------

  /** A write that stopped short for want of blocks stays stuck: trying again changes nothing. */
  lemma {:induction false} ShortWriteStuck(fs: FS, owner: map<int, Place>, i: int, pos: nat, data: seq<byte>, more: seq<byte>)
    requires BlocksInv(fs, owner) && IsFile(fs, i)
    requires WriteAll(fs, i, pos, data).1 < |data|
    ensures var (gs, n) := WriteAll(fs, i, pos, data); WriteAll(gs, i, pos + n, more) == (gs, 0)
    decreases |data|
  {
    hide BlocksInv, BlockFor, Wrote;
    if BlockFor(fs, i, pos / BLOCK_SIZE).1 >= NUM_BLOCKS {
      BlockForTwice(fs, owner, i, pos / BLOCK_SIZE);
    } else {
      var o1 := StoreByteWrites(fs, owner, i, pos, data[0]);
      ShortWriteStuck(StoreByte(fs, i, pos, data[0]), o1, i, pos + 1, data[1..], more);
    }
  }

  lemma ResizedTwice(r: (FS, nat), s: (FS, nat), i: int, offset: nat)
    requires 0 <= i < MAX_INODES && offset + r.1 + s.1 <= CAPACITY
    requires s.0.inodes[i].size == r.0.inodes[i].size
    ensures Resized((SetSize(s.0, i, Resized(r, i, offset).inodes[i].size), s.1), i, offset + r.1) == Resized((s.0, r.1 + s.1), i, offset)
  {
    var z := Resized(r, i, offset).inodes[i].size;
    assert SetSize(s.0, i, s.0.inodes[i].size) == s.0;
    assert SetSize(SetSize(s.0, i, z), i, offset + r.1 + s.1) == SetSize(s.0, i, offset + r.1 + s.1);
  }

  /**
   * Two writes through one cursor are one write of the concatenation, also when the capacity
   * or the block pool cuts them short.
   */
  lemma CursorLaw(fs: FS, owner: map<int, Place>, i: int, a: seq<byte>, b: seq<byte>, offset: nat)
    requires BlocksInv(fs, owner) && IsFile(fs, i) && offset < CAPACITY
    ensures var (g1, n1) := WriteInode(fs, i, a, offset);
      && offset + n1 <= CAPACITY
      && var (g2, n2) := WriteInode(g1, i, b, offset + n1);
         WriteInode(fs, i, a + b, offset) == (g2, n1 + Max(n2, 0))
  {
    hide BlocksInv, WriteAll, Spliced, FileByte;
    var r := WriteAll(fs, i, offset, a);
    var o1 := WriteAllInv(fs, owner, i, offset, a);
    var g1 := Resized(r, i, offset);
    var z := g1.inodes[i].size;
    WriteAllConcat(fs, i, offset, a, b);
    assert g1 == SetSize(r.0, i, z);
    var pos := offset + r.1;
    if pos < CAPACITY {
      WriteAllSetSize(r.0, i, pos, b, z);
      var s := WriteAll(r.0, i, pos, b);
      var o2 := WriteAllInv(r.0, o1, i, pos, b);
      if r.1 < |a| {
        ShortWriteStuck(fs, owner, i, offset, a, b);
      }
      ResizedTwice(r, s, i, offset);
    } else {
      var s := WriteAll(r.0, i, pos, b);
      assert s == (r.0, 0) by { PastCapacity(r.0, i, pos, b); }
    }
  }

  lemma PastCapacity(fs: FS, i: int, pos: nat, data: seq<byte>)
    requires 0 <= i < MAX_INODES && pos >= CAPACITY
    ensures WriteAll(fs, i, pos, data) == (fs, 0)
  {
  }

  function Flatten(bufs: seq<seq<byte>>): seq<byte> {
    if bufs == [] then [] else bufs[0] + Flatten(bufs[1..])
  }

  function Advance(offset: nat, n: int): nat {
    offset + Max(n, 0)
  }

  /** Successive writes of bufs through one cursor, which each write moves by what it stored. */
  function WriteMany(fs: FS, i: int, bufs: seq<seq<byte>>, offset: nat): (r: (FS, nat))
    decreases |bufs|
  {
    if bufs == [] then (fs, offset)
    else WriteMany(WriteInode(fs, i, bufs[0], offset).0, i, bufs[1..], Advance(offset, WriteInode(fs, i, bufs[0], offset).1))
  }

  lemma WriteInodeKeepsKinds(fs: FS, owner: map<int, Place>, i: int, data: seq<byte>, offset: nat)
    requires BlocksInv(fs, owner) && IsFile(fs, i)
    ensures IsFile(WriteInode(fs, i, data, offset).0, i)
  {
    if offset < CAPACITY {
      var o2 := WriteInodeBytes(fs, owner, i, data, offset);
    }
  }

  /** Any sequence of writes through one cursor leaves the file that one write of everything leaves. */
  lemma {:induction false} CursorLawMany(fs: FS, owner: map<int, Place>, i: int, bufs: seq<seq<byte>>, offset: nat)
    requires BlocksInv(fs, owner) && IsFile(fs, i) && bufs != []
    ensures var w := WriteInode(fs, i, Flatten(bufs), offset);
      WriteMany(fs, i, bufs, offset) == (w.0, Advance(offset, w.1))
    decreases |bufs|
  {
    hide BlocksInv, WriteInode;
    var a := bufs[0];
    var rest := bufs[1..];
    if rest == [] {
      assert Flatten(bufs) == a + [] == a;
      assert WriteMany(fs, i, bufs, offset) == WriteMany(WriteInode(fs, i, a, offset).0, i, [], Advance(offset, WriteInode(fs, i, a, offset).1));
    } else {
      var (g1, n1) := WriteInode(fs, i, a, offset);
      WriteInodeKeepsKinds(fs, owner, i, a, offset);
      if offset < CAPACITY {
        var o1 := WriteInodeBytes(fs, owner, i, a, offset);
        CursorLawMany(g1, o1, i, rest, Advance(offset, n1));
        CursorLaw(fs, owner, i, a, Flatten(rest), offset);
      } else {
        PastCapacityFails(fs, i, a, offset);
        PastCapacityFails(fs, i, Flatten(rest), offset);
        PastCapacityFails(fs, i, Flatten(bufs), offset);
        CursorLawMany(fs, owner, i, rest, offset);
      }
    }
  }

  lemma PastCapacityFails(fs: FS, i: int, data: seq<byte>, offset: nat)
    requires offset >= CAPACITY
    ensures WriteInode(fs, i, data, offset) == (fs, -1)
  {
  }
}
