/** munin_flush and munin_mount over a disk of 512-byte sectors. */
module MuninDisk {
  import opened Bytes
  import opened MuninState
  import opened MuninImage
  import opened MuninTree
  import opened MuninOps
  import M = Munin

  /** disk_write_bytes: src across sectors from start on, the last one padded with zeros. */
  method WriteBytes(disk: array<Block>, start: nat, src: seq<byte>)
    requires start + (|src| + BLOCK_SIZE - 1) / BLOCK_SIZE <= disk.Length
    modifies disk
    ensures BytesAt(disk[..], start, |src|) == src
    ensures forall k | 0 <= k < |src| :: disk[start + k / 512][k % 512] == src[k]
    ensures |src| % BLOCK_SIZE != 0 ==> disk[start + |src| / BLOCK_SIZE][|src| % BLOCK_SIZE..] == Zeros()[|src| % BLOCK_SIZE..]
    ensures forall s | 0 <= s < disk.Length && !(start <= s < start + (|src| + BLOCK_SIZE - 1) / BLOCK_SIZE) :: disk[s] == old(disk[s])
  {
    var full := |src| / BLOCK_SIZE;
    var i := 0;
    while i < full
      invariant 0 <= i <= full
      invariant forall s | 0 <= s < disk.Length ::
        disk[s] == if start <= s < start + i then src[BLOCK_SIZE * (s - start)..BLOCK_SIZE * (s - start) + BLOCK_SIZE] else old(disk[s])
    {
      disk[start + i] := src[BLOCK_SIZE * i..BLOCK_SIZE * i + BLOCK_SIZE];
      i := i + 1;
    }
    var rem := |src| % BLOCK_SIZE;
    if rem != 0 {
      var scratch := Scratch(src[BLOCK_SIZE * full..]);
      disk[start + full] := scratch;
    }
    forall k | 0 <= k < |src| ensures disk[..][start + k / BLOCK_SIZE][k % BLOCK_SIZE] == src[k] {
      var s := k / BLOCK_SIZE;
      assert k == BLOCK_SIZE * s + k % BLOCK_SIZE;
      if s < full {
        assert disk[start + s] == src[BLOCK_SIZE * s..BLOCK_SIZE * s + BLOCK_SIZE];
      }
    }
    assert BytesAt(disk[..], start, |src|) == src;
  }

  /** A zeroed sector with tail copied to its front. */
  method Scratch(tail: seq<byte>) returns (b: Block)
    requires |tail| < BLOCK_SIZE
    ensures b[..|tail|] == tail && b[|tail|..] == Zeros()[|tail|..]
  {
    b := Zeros();
    var i := 0;
    while i < |tail|
      invariant 0 <= i <= |tail| && b[..i] == tail[..i] && b[i..] == Zeros()[i..]
    {
      b := b[i := tail[i]];
      i := i + 1;
    }
  }

  /** disk_read_bytes: n bytes from the sectors from start on. */
  method ReadBytes(disk: array<Block>, start: nat, n: nat) returns (dst: seq<byte>)
    requires start + (n + BLOCK_SIZE - 1) / BLOCK_SIZE <= disk.Length
    ensures dst == BytesAt(disk[..], start, n)
    ensures |dst| == n && forall k | 0 <= k < n :: dst[k] == disk[start + k / 512][k % 512]
  {
    var full := n / BLOCK_SIZE;
    dst := [];
    var i := 0;
    while i < full
      invariant 0 <= i <= full && |dst| == BLOCK_SIZE * i
      invariant forall k | 0 <= k < |dst| :: dst[k] == disk[start + k / BLOCK_SIZE][k % BLOCK_SIZE]
    {
      dst := dst + disk[start + i];
      i := i + 1;
    }
    var rem := n % BLOCK_SIZE;
    if rem != 0 {
      dst := dst + disk[start + full][..rem];
    }
  }

  /** The superblock: four words, the rest zero. */
  function Superblock(): (b: Block)
    ensures GoodSuperblock(b)
  {
    SuperblockWords();
    PutWord(PutWord(PutWord(PutWord(Zeros(), 0, MAGIC), 4, VERSION), 8, MAX_INODES), 12, NUM_BLOCKS)
  }

  lemma SuperblockWords()
    ensures GoodSuperblock(PutWord(PutWord(PutWord(PutWord(Zeros(), 0, MAGIC), 4, VERSION), 8, MAX_INODES), 12, NUM_BLOCKS))
  {
    hide GetWord, PutWord;
    var a := PutWord(Zeros(), 0, MAGIC);
    var b := PutWord(a, 4, VERSION);
    var c := PutWord(b, 8, MAX_INODES);
    PutWordElsewhere(a, 4, VERSION, 0);
    PutWordElsewhere(b, 8, MAX_INODES, 0);
    PutWordElsewhere(b, 8, MAX_INODES, 4);
    PutWordElsewhere(c, 12, NUM_BLOCKS, 0);
    PutWordElsewhere(c, 12, NUM_BLOCKS, 4);
    PutWordElsewhere(c, 12, NUM_BLOCKS, 8);
  }

  /** munin_flush: whatever the disk held, it then holds the image of the filesystem. */
  method Flush(m: M.Filesystem, disk: array<Block>)
    requires m.Shape() && disk.Length >= IMAGE_SECTORS && disk != m.blocks
    modifies disk
    ensures m.State() == old(m.State())
    ensures OnDisk(m.State(), disk[..])
    ensures forall s | IMAGE_SECTORS <= s < disk.Length :: disk[s] == old(disk[s])
    ensures forall b | 0 <= b < NUM_BLOCKS && !Marked(m.State().bits, b) :: disk[DATA_SECTOR + b] == old(disk[DATA_SECTOR + b])
  {
    hide GoodSuperblock, BytesAt, TableBytes;
    ghost var fs := m.State();
    disk[0] := Superblock();
    WriteBytes(disk, INODE_SECTOR, TableBytes(m.inodes[..]));
    ghost var table := disk[..];
    WriteBytes(disk, BITMAP_SECTOR, m.bits[..]);
    SectorsKeep(table, disk[..], INODE_SECTOR, TABLE_BYTES);
    ghost var meta := disk[..];
    FlushBlocks(m, disk);
    SectorsKeep(meta, disk[..], INODE_SECTOR, TABLE_BYTES);
    SectorsKeep(meta, disk[..], BITMAP_SECTOR, NUM_BLOCKS / 8);
  }

  /** The data loop of munin_flush: blocks in use, and only those. */
  method FlushBlocks(m: M.Filesystem, disk: array<Block>)
    requires m.Shape() && disk.Length >= IMAGE_SECTORS && disk != m.blocks
    modifies disk
    ensures m.State() == old(m.State())
    ensures forall s | 0 <= s < disk.Length && !(DATA_SECTOR <= s < IMAGE_SECTORS) :: disk[s] == old(disk[s])
    ensures forall c | 0 <= c < NUM_BLOCKS ::
      disk[DATA_SECTOR + c] == if Marked(m.State().bits, c) then m.State().blocks[c] else old(disk[DATA_SECTOR + c])
  {
    hide GoodSuperblock, BytesAt, TableBytes;
    ghost var fs := m.State();
    var b := 0;
    while b < NUM_BLOCKS
      invariant 0 <= b <= NUM_BLOCKS && m.State() == fs
      invariant forall s | 0 <= s < disk.Length && !(DATA_SECTOR <= s < DATA_SECTOR + b) :: disk[s] == old(disk[s])
      invariant forall c | 0 <= c < b :: disk[DATA_SECTOR + c] == if Marked(fs.bits, c) then fs.blocks[c] else old(disk[DATA_SECTOR + c])
    {
      if BitOf(m.bits[b / 8], b % 8) {
        assert Marked(fs.bits, b);
        disk[DATA_SECTOR + b] := m.blocks[b];
        assert m.blocks[b] == fs.blocks[b];
      } else {
        assert !Marked(fs.bits, b);
      }
      b := b + 1;
    }
  }

  /** What is read from unchanged sectors is unchanged. */
  lemma SectorsKeep(d1: seq<Block>, d2: seq<Block>, start: nat, n: nat)
    requires |d1| == |d2| && start + (n + BLOCK_SIZE - 1) / BLOCK_SIZE <= |d1|
    requires forall s | start <= s < start + (n + BLOCK_SIZE - 1) / BLOCK_SIZE :: d2[s] == d1[s]
    ensures BytesAt(d2, start, n) == BytesAt(d1, start, n)
  {
  }

  /** munin_mount: false on a disk without a munin superblock, otherwise RAM holds the image. */
  method Mount(m: M.Filesystem, disk: array<Block>) returns (ok: bool)
    requires m.Shape() && disk.Length >= IMAGE_SECTORS && disk != m.blocks
    modifies m.inodes, m.bits, m.blocks
    ensures ok <==> GoodSuperblock(disk[0])
    ensures ok <==> GetWord(disk[0], 0) == 0x4D55_4E49 && GetWord(disk[0], 4) == 2 && GetWord(disk[0], 8) == 128 && GetWord(disk[0], 12) == 512
    ensures !ok ==> m.State() == old(m.State())
    ensures ok ==> Loaded(old(m.State()), disk[..], m.State())
    ensures disk[..] == old(disk[..])
  {
    var sb := disk[0];
    if GetWord(sb, 0) != MAGIC || GetWord(sb, 4) != VERSION || GetWord(sb, 8) != MAX_INODES || GetWord(sb, 12) != NUM_BLOCKS {
      return false;
    }
    hide GetWord, BytesAt, DecodeInode;
    LoadTable(m, disk);
    LoadBitmap(m, disk);
    var b := 0;
    while b < NUM_BLOCKS
      invariant 0 <= b <= NUM_BLOCKS && disk[..] == old(disk[..])
      invariant m.bits[..] == BytesAt(disk[..], BITMAP_SECTOR, NUM_BLOCKS / 8)
      invariant TableLoaded(m.inodes[..], disk[..])
      invariant forall c | 0 <= c < NUM_BLOCKS ::
        m.blocks[c] == if c < b && Marked(m.bits[..], c) then disk[DATA_SECTOR + c] else old(m.blocks[c])
    {
      assert Marked(m.bits[..], b) == BitOf(m.bits[b / 8], b % 8);
      if BitOf(m.bits[b / 8], b % 8) {
        m.blocks[b] := disk[DATA_SECTOR + b];
      }
      b := b + 1;
    }
    return true;
  }

  ghost predicate TableLoaded(inodes: seq<Inode>, disk: seq<Block>)
    requires |inodes| == MAX_INODES && |disk| >= IMAGE_SECTORS
  {
    forall i | 0 <= i < MAX_INODES ::
      inodes[i] == DecodeInode(BytesAt(disk, INODE_SECTOR, TABLE_BYTES)[INODE_SIZE * i..INODE_SIZE * i + INODE_SIZE])
  }

  /** disk_read_bytes over the inode table: the bytes become inodes where they land. */
  method LoadTable(m: M.Filesystem, disk: array<Block>)
    requires m.Shape() && disk.Length >= IMAGE_SECTORS
    modifies m.inodes
    ensures TableLoaded(m.inodes[..], disk[..])
    ensures disk[..] == old(disk[..]) && m.bits[..] == old(m.bits[..]) && m.blocks[..] == old(m.blocks[..])
  {
    hide BytesAt, DecodeInode;
    var raw := ReadBytes(disk, INODE_SECTOR, TABLE_BYTES);
    var i := 0;
    while i < MAX_INODES
      invariant 0 <= i <= MAX_INODES && disk[..] == old(disk[..])
      invariant forall j | 0 <= j < i :: m.inodes[j] == DecodeInode(raw[INODE_SIZE * j..INODE_SIZE * j + INODE_SIZE])
    {
      m.inodes[i] := DecodeInode(raw[INODE_SIZE * i..INODE_SIZE * i + INODE_SIZE]);
      i := i + 1;
    }
  }

  method LoadBitmap(m: M.Filesystem, disk: array<Block>)
    requires m.Shape() && disk.Length >= IMAGE_SECTORS
    modifies m.bits
    ensures m.bits[..] == BytesAt(disk[..], BITMAP_SECTOR, NUM_BLOCKS / 8)
    ensures disk[..] == old(disk[..]) && m.inodes[..] == old(m.inodes[..]) && m.blocks[..] == old(m.blocks[..])
  {
    hide BytesAt;
    var raw := ReadBytes(disk, BITMAP_SECTOR, NUM_BLOCKS / 8);
    var i := 0;
    while i < NUM_BLOCKS / 8
      invariant 0 <= i <= NUM_BLOCKS / 8
      invariant m.bits[..i] == raw[..i]
    {
      m.bits[i] := raw[i];
      i := i + 1;
    }
  }

  /**
   * A filesystem flushed to disk and mounted into other RAM, whatever either held, is the same
   * filesystem there: well formed, every path resolving and every inode and file reading as before.
   */
  method FlushThenMount(m: M.Filesystem, disk: array<Block>, ram: M.Filesystem) returns (ok: bool)
    requires m.Valid() && ram.Shape() && disk.Length >= IMAGE_SECTORS
    requires Apart(m, disk, ram)
    modifies disk, ram`book, ram.inodes, ram.bits, ram.blocks
    ensures ok && m.Valid() && m.State() == old(m.State()) && ram.Valid()
    ensures forall comps :: Resolve(ram.State(), comps) == Resolve(m.State(), comps)
    ensures forall j | 0 <= j < MAX_INODES :: ram.State().inodes[j] == m.State().inodes[j]
    ensures forall j | Live(m.State(), j) :: SameView(m.State(), ram.State(), j)
  {
    hide Inv, OnDisk, Loaded, Resolve, SameView, GoodSuperblock;
    ghost var fs, k := m.State(), m.book;
    Flush(m, disk);
    HasSuperblock(fs, disk[..]);
    ghost var before := ram.State();
    ok := Mount(ram, disk);
    PersistenceRoundTrip(fs, k, disk[..], before, ram.State());
    ram.book := k;
  }

  /** Two filesystems' arrays and the disk are different objects. */
  ghost predicate Apart(m: M.Filesystem, disk: array<Block>, ram: M.Filesystem) {
    && m != ram && disk != m.blocks && disk != ram.blocks
    && ram.inodes != m.inodes && ram.bits != m.bits && ram.blocks != m.blocks
  }

  lemma HasSuperblock(fs: FS, disk: Sectors)
    requires OnDisk(fs, disk)
    ensures GoodSuperblock(disk[0])
  {
  }
}
