/** The on-disk image of a munin filesystem, and why mounting it gives the filesystem back. */
module MuninImage {
  import opened Bytes
  import opened MuninState
  import opened MuninTree
  import opened MuninOps

  const INODE_SIZE := 44          // 1 byte of type, 3 of padding, size, 8 direct pointers, indirect
  const TABLE_BYTES := 5632       // MAX_INODES * INODE_SIZE
  const INODE_SECTOR := 1
  const BITMAP_SECTOR := 12
  const DATA_SECTOR := 13
  const IMAGE_SECTORS := 525      // DATA_SECTOR + NUM_BLOCKS
  const MAGIC: u32 := 0x4D55_4E49
  const VERSION: u32 := 2

  type Sectors = s: seq<Block> | |s| >= IMAGE_SECTORS witness seq<Block>(IMAGE_SECTORS, _ => Zeros())

  // ---- one inode -------------------------------------------------------------------------------

  function PointerBytes(d: seq<u32>): (r: seq<byte>)
    ensures |r| == 4 * |d|
  {
    if d == [] then [] else WordBytes(d[0]) + PointerBytes(d[1..])
  }

  function EncodeInode(f: Inode): (r: seq<byte>)
    ensures |r| == INODE_SIZE
  {
    [f.kind, 0, 0, 0] + WordBytes(f.size) + PointerBytes(f.blocks) + WordBytes(f.indirect)
  }

  function DecodeInode(s: seq<byte>): Inode
    requires |s| == INODE_SIZE
  {
    Inode(s[0], GetWord(s, 4),
          [GetWord(s, 8), GetWord(s, 12), GetWord(s, 16), GetWord(s, 20), GetWord(s, 24), GetWord(s, 28), GetWord(s, 32), GetWord(s, 36)],
          GetWord(s, 40))
  }

  lemma {:induction false} PointerBytesAt(d: seq<u32>, k: nat)
    requires k < |d|
    ensures PointerBytes(d)[4 * k..4 * k + 4] == WordBytes(d[k])
  {
    if k != 0 {
      PointerBytesAt(d[1..], k - 1);
      assert PointerBytes(d)[4 * k..4 * k + 4] == PointerBytes(d[1..])[4 * (k - 1)..4 * (k - 1) + 4];
    }
  }

  lemma PointerAt(f: Inode, k: nat)
    requires k < DIRECT
    ensures GetWord(EncodeInode(f), 8 + 4 * k) == f.blocks[k]
  {
    var s := EncodeInode(f);
    PointerBytesAt(f.blocks, k);
    assert s[8..40] == PointerBytes(f.blocks);
    assert s[8 + 4 * k..8 + 4 * k + 4] == s[8..40][4 * k..4 * k + 4];
    WordAt(s, 8 + 4 * k, f.blocks[k]);
  }

  /** Decoding an encoded inode is the identity. */
  lemma DecodeEncode(f: Inode)
    ensures DecodeInode(EncodeInode(f)) == f
  {
    var s := EncodeInode(f);
    assert s[4..8] == WordBytes(f.size) && s[40..44] == WordBytes(f.indirect);
    WordAt(s, 4, f.size);
    WordAt(s, 40, f.indirect);
    hide EncodeInode, GetWord, WordBytes, PointerBytes;
    PointerAt(f, 0);
    PointerAt(f, 1);
    PointerAt(f, 2);
    PointerAt(f, 3);
    PointerAt(f, 4);
    PointerAt(f, 5);
    PointerAt(f, 6);
    PointerAt(f, 7);
    assert DecodeInode(s).blocks == f.blocks;
    KindByte(f);
  }

  lemma KindByte(f: Inode)
    ensures EncodeInode(f)[0] == f.kind
  {
  }

  // ---- the table and the sectors ------------------------------------------------------------------

  /** The bytes of the inode table, as they lie in memory. */
  function TableBytes(inodes: Inodes): (r: seq<byte>)
    ensures |r| == TABLE_BYTES
  {
    seq<byte>(TABLE_BYTES, k requires 0 <= k < TABLE_BYTES => EncodeInode(inodes[k / INODE_SIZE])[k % INODE_SIZE])
  }

  lemma TableSlice(inodes: Inodes, i: nat)
    requires i < MAX_INODES
    ensures TableBytes(inodes)[INODE_SIZE * i..INODE_SIZE * i + INODE_SIZE] == EncodeInode(inodes[i])
  {
    hide EncodeInode;
    var t := TableBytes(inodes)[INODE_SIZE * i..INODE_SIZE * i + INODE_SIZE];
    forall k | 0 <= k < INODE_SIZE ensures t[k] == EncodeInode(inodes[i])[k] {
      assert (INODE_SIZE * i + k) / INODE_SIZE == i && (INODE_SIZE * i + k) % INODE_SIZE == k;
    }
  }

  /** The n bytes that disk_read_bytes(start, n) delivers. */
  function BytesAt(disk: seq<Block>, start: nat, n: nat): (r: seq<byte>)
    requires start + (n + BLOCK_SIZE - 1) / BLOCK_SIZE <= |disk|
    ensures |r| == n
  {
    seq<byte>(n, k requires 0 <= k < n => disk[start + k / BLOCK_SIZE][k % BLOCK_SIZE])
  }

  ghost predicate GoodSuperblock(b: Block) {
    && GetWord(b, 0) == MAGIC && GetWord(b, 4) == VERSION
    && GetWord(b, 8) == MAX_INODES && GetWord(b, 12) == NUM_BLOCKS
  }

  /** disk holds the image of fs: superblock, inode table, bitmap, and every block in use. */
  ghost predicate OnDisk(fs: FS, disk: Sectors) {
    && GoodSuperblock(disk[0])
    && BytesAt(disk, INODE_SECTOR, TABLE_BYTES) == TableBytes(fs.inodes)
    && BytesAt(disk, BITMAP_SECTOR, NUM_BLOCKS / 8) == fs.bits
    && forall b | 0 <= b < NUM_BLOCKS && Marked(fs.bits, b) :: disk[DATA_SECTOR + b] == fs.blocks[b]
  }

  /** gs is what loading disk over the RAM contents ram gives. */
  ghost predicate Loaded(ram: FS, disk: Sectors, gs: FS) {
    && (forall i | 0 <= i < MAX_INODES ::
          gs.inodes[i] == DecodeInode(BytesAt(disk, INODE_SECTOR, TABLE_BYTES)[INODE_SIZE * i..INODE_SIZE * i + INODE_SIZE]))
    && gs.bits == BytesAt(disk, BITMAP_SECTOR, NUM_BLOCKS / 8)
    && forall b | 0 <= b < NUM_BLOCKS :: gs.blocks[b] == if Marked(gs.bits, b) then disk[DATA_SECTOR + b] else ram.blocks[b]
  }

  /**
   * Where everything lies on the disk: the superblock's four words in sector 0; inode i in 44 bytes from
   * byte 44 * i of sector 1 on, its type, size, eight pointers and indirect pointer at 0, 4, 8 and 40;
   * the bitmap in sector 12, bit b % 8 of byte b / 8 for block b; and block b in sector 13 + b.
   */
  lemma ImageLayout(fs: FS, disk: Sectors, i: nat)
    requires OnDisk(fs, disk) && i < MAX_INODES
    ensures GetWord(disk[0], 0) == 0x4D55_4E49 && GetWord(disk[0], 4) == 2 && GetWord(disk[0], 8) == 128 && GetWord(disk[0], 12) == 512
    ensures forall k | 0 <= k < 44 :: disk[1 + (44 * i + k) / 512][(44 * i + k) % 512] == EncodeInode(fs.inodes[i])[k]
    ensures EncodeInode(fs.inodes[i])[0] == fs.inodes[i].kind && GetWord(EncodeInode(fs.inodes[i]), 4) == fs.inodes[i].size
    ensures forall p | 0 <= p < DIRECT :: GetWord(EncodeInode(fs.inodes[i]), 8 + 4 * p) == fs.inodes[i].blocks[p]
    ensures GetWord(EncodeInode(fs.inodes[i]), 40) == fs.inodes[i].indirect
    ensures forall b | 0 <= b < NUM_BLOCKS ::
      && (Marked(fs.bits, b) <==> BitOf(disk[12][b / 8], b % 8))
      && (Marked(fs.bits, b) ==> disk[13 + b] == fs.blocks[b])
  {
    hide EncodeInode, GetWord, Marked;
    InodeFields(fs.inodes[i]);
    TableSlice(fs.inodes, i);
    var t := BytesAt(disk, INODE_SECTOR, TABLE_BYTES);
    forall k | 0 <= k < 44 ensures disk[1 + (44 * i + k) / 512][(44 * i + k) % 512] == EncodeInode(fs.inodes[i])[k] {
      assert t[44 * i + k] == TableBytes(fs.inodes)[44 * i..44 * i + 44][k];
    }
    forall b | 0 <= b < NUM_BLOCKS ensures Marked(fs.bits, b) <==> BitOf(disk[12][b / 8], b % 8) {
      BitOnDisk(fs, disk, b);
    }
  }

  lemma BitOnDisk(fs: FS, disk: Sectors, b: nat)
    requires BytesAt(disk, BITMAP_SECTOR, NUM_BLOCKS / 8) == fs.bits && b < NUM_BLOCKS
    ensures Marked(fs.bits, b) <==> BitOf(disk[12][b / 8], b % 8)
  {
    hide BitOf;
    assert fs.bits[b / 8] == disk[12][b / 8];
  }

  lemma InodeFields(f: Inode)
    ensures EncodeInode(f)[0] == f.kind && GetWord(EncodeInode(f), 4) == f.size && GetWord(EncodeInode(f), 40) == f.indirect
    ensures forall p | 0 <= p < DIRECT :: GetWord(EncodeInode(f), 8 + 4 * p) == f.blocks[p]
  {
    var s := EncodeInode(f);
    assert s[4..8] == WordBytes(f.size) && s[40..44] == WordBytes(f.indirect);
    WordAt(s, 4, f.size);
    WordAt(s, 40, f.indirect);
    forall p | 0 <= p < DIRECT ensures GetWord(s, 8 + 4 * p) == f.blocks[p] {
      PointerAt(f, p);
    }
  }

  /** Loading an image restores the inode table, the bitmap and every block in use. */
  lemma LoadRestores(fs: FS, disk: Sectors, ram: FS, gs: FS)
    requires OnDisk(fs, disk) && Loaded(ram, disk, gs)
    ensures gs.inodes == fs.inodes && gs.bits == fs.bits
    ensures forall b | 0 <= b < NUM_BLOCKS && Marked(fs.bits, b) :: gs.blocks[b] == fs.blocks[b]
  {
    hide BytesAt, TableBytes, DecodeInode, EncodeInode;
    forall i | 0 <= i < MAX_INODES ensures gs.inodes[i] == fs.inodes[i] {
      TableSlice(fs.inodes, i);
      DecodeEncode(fs.inodes[i]);
    }
  }

  /**
   * Persistence: an image of a well-formed filesystem, loaded over any RAM contents, is that
   * filesystem again. Every name resolves as before and everything readable is the same.
   */
  lemma PersistenceRoundTrip(fs: FS, k: Book, disk: Sectors, ram: FS, gs: FS)
    requires Inv(fs, k) && OnDisk(fs, disk) && Loaded(ram, disk, gs)
    ensures Inv(gs, k)
    ensures forall comps :: Resolve(gs, comps) == Resolve(fs, comps)
    ensures forall j | Live(fs, j) :: SameView(fs, gs, j)
    ensures forall j | 0 <= j < MAX_INODES :: gs.inodes[j] == fs.inodes[j]
  {
    hide OnDisk, Loaded, Resolve;
    LoadRestores(fs, disk, ram, gs);
    forall j | Live(fs, j) ensures SameView(fs, gs, j) {
      OwnedBlocksSame(fs, gs, k.owner, j);
    }
    AllViewsSame(fs, gs, k);
  }

  lemma OwnedBlocksSame(fs: FS, gs: FS, owner: map<int, Place>, j: int)
    requires BlocksInv(fs, owner) && Live(fs, j) && gs.inodes == fs.inodes
    requires forall b | 0 <= b < NUM_BLOCKS && Marked(fs.bits, b) :: gs.blocks[b] == fs.blocks[b]
    ensures SameView(fs, gs, j)
  {
    forall p | 0 <= p < PLACES && Slot(fs, j, p) < NUM_BLOCKS ensures gs.blocks[Slot(fs, j, p)] == fs.blocks[Slot(fs, j, p)] {
      assert Slot(fs, j, p) in owner;
    }
  }

  lemma AllViewsSame(fs: FS, gs: FS, k: Book)
    requires Inv(fs, k) && gs.inodes == fs.inodes && gs.bits == fs.bits
    requires forall j | Live(fs, j) :: SameView(fs, gs, j)
    ensures Inv(gs, k)
    ensures forall comps :: Resolve(gs, comps) == Resolve(fs, comps)
  {
    hide TreeInv, Resolve, SameView, Ent, EntName, GetWord;
    ViewsKeepBlocks(fs, gs, k.owner);
    forall d | IsDir(fs, d) ensures SameEntries(fs, gs, d) {
      SameViewEntries(fs, gs, d);
    }
    SameDirsKeepsTree(fs, gs, k.path, k.home);
    SamePathsSameResolve(fs, gs, k.path, k.home, k.home);
    forall i | IsFile(gs, i)
      ensures gs.inodes[i].size <= CAPACITY && forall q | gs.inodes[i].size <= q < CAPACITY :: FileByte(gs, i, q) == 0
    {
      SameViewSlots(fs, gs, i);
    }
  }

  lemma ViewsKeepBlocks(fs: FS, gs: FS, owner: map<int, Place>)
    requires BlocksInv(fs, owner) && gs.inodes == fs.inodes && gs.bits == fs.bits
    requires forall j | Live(fs, j) :: SameView(fs, gs, j)
    ensures BlocksInv(gs, owner)
  {
    hide SameView, GetWord, Slot;
    forall j, p | IsPlace(j, p) && Live(fs, j) ensures Slot(gs, j, p) == Slot(fs, j, p) {
      SameViewSlots(fs, gs, j);
    }
  }
}
