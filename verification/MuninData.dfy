/** Reading and writing file data keeps the whole filesystem well formed; what the copy loops compute. */
module MuninData {
  import opened Bytes
  import opened MuninState
  import opened MuninBlocks
  import opened MuninFiles
  import opened MuninReplace
  import opened MuninTree
  import opened MuninOps

  lemma BookOwns(fs: FS, k: Book)
    requires Inv(fs, k)
    ensures BlocksInv(fs, k.owner)
  {
  }

  // ---- one turn of the write loops ------------------------------------------------------------

  lemma PutBytesKeeps(fs: FS, owner: map<int, Place>, i: int, p: int, off: int, chunk: seq<byte>)
    requires BlocksInv(fs, owner) && IsFile(fs, i) && IsPlace(i, p) && p != INDIRECT
    requires Slot(fs, i, p) < NUM_BLOCKS && 0 <= off && off + |chunk| <= BLOCK_SIZE
    ensures var gs := PutBytes(fs, Slot(fs, i, p), off, chunk); BlocksInv(gs, owner) && IsFile(gs, i)
  {
    var gs := PutBytes(fs, Slot(fs, i, p), off, chunk);
    forall j, q | Live(fs, j) && IsPlace(j, q) ensures Slot(gs, j, q) == Slot(fs, j, q) {
      assert Slot(fs, j, INDIRECT) == fs.inodes[j].indirect;
      SlotOwned(fs, owner, i, p);
      if fs.inodes[j].indirect != NO_BLOCK {
        SlotOwned(fs, owner, j, INDIRECT);
      }
    }
  }

  /** No block for the next byte: the write ends here. */
  lemma WriteStops(fs: FS, owner: map<int, Place>, i: int, pos: nat, rest: seq<byte>)
    requires BlocksInv(fs, owner) && IsFile(fs, i) && rest != []
    requires BlockFor(fs, i, pos / BLOCK_SIZE).1 == NO_BLOCK
    ensures WriteAll(fs, i, pos, rest) == (BlockFor(fs, i, pos / BLOCK_SIZE).0, 0)
  {
  }

  lemma StoppedKeeps(fs: FS, owner: map<int, Place>, i: int, pos: nat, rest: seq<byte>) returns (o2: map<int, Place>)
    requires BlocksInv(fs, owner) && IsFile(fs, i)
    ensures BlocksInv(BlockFor(fs, i, pos / BLOCK_SIZE).0, o2) && IsFile(BlockFor(fs, i, pos / BLOCK_SIZE).0, i)
  {
    hide BlocksInv, BlockFor, Allocated;
    var ms := BlockFor(fs, i, pos / BLOCK_SIZE).0;
    o2 := BlockForInv(fs, owner, i, pos / BLOCK_SIZE);
    AllocatedKeepsInv(fs, owner, i, ms, o2);
    AllocatedKeepsKind(fs, owner, i, ms, o2);
  }

  /** A block for the next bytes: copying a chunk into it advances the write by the chunk. */
  lemma WriteAdvances(fs: FS, owner: map<int, Place>, i: int, pos: nat, rest: seq<byte>, c: nat) returns (o2: map<int, Place>)
    requires BlocksInv(fs, owner) && IsFile(fs, i)
    requires BlockFor(fs, i, pos / BLOCK_SIZE).1 != NO_BLOCK
    requires 0 < c <= |rest| && pos % BLOCK_SIZE + c <= BLOCK_SIZE
    ensures var (ms, blk) := BlockFor(fs, i, pos / BLOCK_SIZE);
      && blk < NUM_BLOCKS && pos + c <= CAPACITY
      && var gs := PutBytes(ms, blk, pos % BLOCK_SIZE, rest[..c]);
         && BlocksInv(gs, o2) && IsFile(gs, i)
         && WriteAll(fs, i, pos, rest) == (WriteAll(gs, i, pos + c, rest[c..]).0, WriteAll(gs, i, pos + c, rest[c..]).1 + c)
  {
    hide BlocksInv, BlockFor, Allocated, WriteAll;
    var ms := BlockFor(fs, i, pos / BLOCK_SIZE).0;
    o2 := BlockForInv(fs, owner, i, pos / BLOCK_SIZE);
    AllocatedKeepsInv(fs, owner, i, ms, o2);
    AllocatedKeepsKind(fs, owner, i, ms, o2);
    WriteAfterBlockFor(fs, owner, i, pos, rest);
    WriteChunk(ms, o2, i, pos, rest, c);
    PutBytesKeeps(ms, o2, i, DataPlace(pos / BLOCK_SIZE), pos % BLOCK_SIZE, rest[..c]);
  }

  /** Clamping a write at the capacity loses nothing that could have been written. */
  lemma ClampedWrite(fs: FS, i: int, data: seq<byte>, offset: nat, want: nat)
    requires 0 <= i < MAX_INODES && want <= |data| && (want < |data| ==> offset + want >= CAPACITY)
    ensures WriteAll(fs, i, offset, data) == WriteAll(fs, i, offset, data[..want])
  {
    hide WriteAll;
    WriteAllConcat(fs, i, offset, data[..want], data[want..]);
    assert data == data[..want] + data[want..];
    var w := WriteAll(fs, i, offset, data[..want]);
    if want < |data| {
      PastCapacity(w.0, i, offset + want, data[want..]);
    } else {
      assert data[want..] == [] && data[..want] == data;
    }
  }

  // ---- every data operation keeps the invariant ---------------------------------------------------

  /** A change confined to one file keeps every name resolving as before. */
  lemma FileChangeInv(fs: FS, gs: FS, k: Book, i: int, o2: map<int, Place>)
    requires Inv(fs, k) && IsFile(fs, i) && OnlyFileChanged(fs, gs, i)
    requires BlocksInv(gs, o2) && FilesInv(gs)
    ensures Inv(gs, Book(o2, k.path, k.home))
    ensures forall comps :: Resolve(gs, comps) == Resolve(fs, comps)
  {
    hide BlocksInv, FilesInv, SameView, Resolve;
    FileChangeKeepsTree(fs, gs, i, k.path, k.home);
    forall j | Live(gs, j) ensures j in k.path {
      assert Live(fs, j);
    }
  }

  /**
   * munin_write_inode: exactly the bytes [offset, offset + n) of exactly this file change,
   * every other inode and every name is untouched, and the filesystem stays well formed.
   */
  lemma WriteInodeLaw(fs: FS, k: Book, i: int, data: seq<byte>, offset: nat) returns (k2: Book)
    requires Inv(fs, k)
    ensures var (gs, n) := WriteInode(fs, i, data, offset);
      && Inv(gs, k2)
      && (forall comps :: Resolve(gs, comps) == Resolve(fs, comps))
      && (n < 0 <==> !IsFile(fs, i) || offset >= CAPACITY)
      && (n < 0 ==> gs == fs)
      && (n >= 0 ==>
            && n <= |data| && offset + n <= CAPACITY && OnlyFileChanged(fs, gs, i)
            && fs.inodes[i].size <= CAPACITY && gs.inodes[i].size <= CAPACITY
            && Contents(gs, i) == Spliced(Contents(fs, i), offset, data[..n])
            && (n < |data| && offset + n < CAPACITY ==> Full(gs)))
  {
    hide BlocksInv, FilesInv, TreeInv, Resolve, SameView, AllNamed;
    k2 := k;
    if IsFile(fs, i) && offset < CAPACITY {
      var gs := WriteInode(fs, i, data, offset).0;
      var o2 := WriteInodeEffect(fs, k.owner, i, data, offset);
      FileChangeInv(fs, gs, k, i, o2);
      k2 := Book(o2, k.path, k.home);
      SizeInCapacity(fs, i);
      SizeInCapacity(gs, i);
    }
  }

  lemma SizeInCapacity(fs: FS, i: int)
    requires FilesInv(fs) && IsFile(fs, i)
    ensures fs.inodes[i].size <= CAPACITY
  {
  }

  /** munin_write: all or nothing, exactly when the blocks suffice. */
  lemma WriteFileLaw(fs: FS, k: Book, i: int, data: seq<byte>) returns (k2: Book)
    requires Inv(fs, k)
    ensures var (gs, r) := WriteFile(fs, i, data);
      && Inv(gs, k2)
      && (forall comps :: Resolve(gs, comps) == Resolve(fs, comps))
      && (!IsFile(fs, i) || |data| > CAPACITY ==> r == -1 && gs == fs)
      && (IsFile(fs, i) && |data| <= CAPACITY ==>
            && OnlyFileChanged(fs, gs, i) && gs.inodes[i].size <= CAPACITY
            && (r == |data| || r == -1)
            && (r == |data| <==> |FreeBlocks(fs)| + |OwnedBlocks(fs, i)| >= Need(|data|))
            && (r == |data| ==> Contents(gs, i) == data && Dense(gs, i, |data|))
            && (r == -1 ==> Contents(gs, i) == [] && gs.bits == FreeInode(fs, i).bits))
  {
    hide BlocksInv, FilesInv, TreeInv, Resolve, SameView, AllNamed, Dense, Need, FreeInode, WriteFile;
    k2 := k;
    if IsFile(fs, i) && |data| <= CAPACITY {
      var gs := WriteFile(fs, i, data).0;
      var o2 := WriteFileSucceedsExactly(fs, k.owner, i, data);
      FileChangeInv(fs, gs, k, i, o2);
      k2 := Book(o2, k.path, k.home);
      SizeInCapacity(gs, i);
    } else {
      NotWritten(fs, i, data);
    }
  }

  lemma NotWritten(fs: FS, i: int, data: seq<byte>)
    requires !IsFile(fs, i) || |data| > CAPACITY
    ensures WriteFile(fs, i, data) == (fs, -1)
  {
  }

  /** munin_truncate: the new state and the result. */
  function Truncate(fs: FS, i: int): (r: (FS, int)) {
    if !IsFile(fs, i) then (fs, -1) else (FreeInode(fs, i), 0 as int)
  }

  lemma TruncateLaw(fs: FS, k: Book, i: int) returns (k2: Book)
    requires Inv(fs, k)
    ensures var (gs, r) := Truncate(fs, i);
      && Inv(gs, k2)
      && (forall comps :: Resolve(gs, comps) == Resolve(fs, comps))
      && (r == 0 <==> IsFile(fs, i)) && (r != 0 ==> r == -1 && gs == fs)
      && (r == 0 ==>
            && OnlyFileChanged(fs, gs, i) && gs.inodes[i].size == 0
            && |FreeBlocks(gs)| == |FreeBlocks(fs)| + |OwnedBlocks(fs, i)|)
  {
    hide BlocksInv, FilesInv, TreeInv, Resolve, SameView, AllNamed, FileByte;
    k2 := k;
    if IsFile(fs, i) {
      var gs := FreeInode(fs, i);
      FreeInodeInv(fs, k.owner, i);
      OnlyFileChangedKeepsFilesInv(fs, gs, i);
      FileChangeInv(fs, gs, k, i, Disowned(k.owner, i));
      k2 := Book(Disowned(k.owner, i), k.path, k.home);
      FreeCount(fs, k.owner);
      FreeCount(gs, k2.owner);
    }
  }

  // ---- reading ------------------------------------------------------------------------------------

  function Min(a: int, b: int): int {
    if a < b then a else b
  }

  /** How many bytes munin_read_inode delivers: up to the size, and never from the indirect range. */
  function ReadLen(fs: FS, i: int, len: nat, offset: nat): (n: nat)
    requires 0 <= i < MAX_INODES
    ensures n <= len && (n > 0 ==> offset + n <= Min(fs.inodes[i].size, DIRECT * BLOCK_SIZE))
  {
    Max(0, Min(offset + len, Min(fs.inodes[i].size, DIRECT * BLOCK_SIZE)) - offset)
  }

  /** The file's bytes from offset, clipped to the size and to the direct blocks. */
  function ReadBytes(fs: FS, i: int, len: nat, offset: nat): (r: seq<byte>)
    requires 0 <= i < MAX_INODES
    ensures |r| == ReadLen(fs, i, len, offset)
    ensures forall q | 0 <= q < |r| :: r[q] == FileByte(fs, i, offset + q)
  {
    seq<byte>(ReadLen(fs, i, len, offset), q requires 0 <= q < ReadLen(fs, i, len, offset) => FileByte(fs, i, offset + q))
  }

  /** Reads through one cursor: the concatenation of what successive reads of the given lengths deliver. */
  function ReadMany(fs: FS, i: int, lens: seq<nat>, offset: nat): seq<byte>
    requires 0 <= i < MAX_INODES
    decreases |lens|
  {
    if lens == [] then []
    else ReadBytes(fs, i, lens[0], offset) + ReadMany(fs, i, lens[1..], offset + ReadLen(fs, i, lens[0], offset))
  }

  function Total(lens: seq<nat>): nat {
    if lens == [] then 0 else lens[0] + Total(lens[1..])
  }

  /** Any sequence of reads through one cursor delivers what one read of the total length delivers. */
  lemma {:induction false} ReadCursorLaw(fs: FS, i: int, lens: seq<nat>, offset: nat)
    requires 0 <= i < MAX_INODES
    ensures ReadMany(fs, i, lens, offset) == ReadBytes(fs, i, Total(lens), offset)
    decreases |lens|
  {
    hide FileByte;
    if lens != [] {
      var n := ReadLen(fs, i, lens[0], offset);
      ReadCursorLaw(fs, i, lens[1..], offset + n);
      var a := ReadBytes(fs, i, lens[0], offset);
      var b := ReadBytes(fs, i, Total(lens[1..]), offset + n);
      var c := ReadBytes(fs, i, Total(lens), offset);
      assert |c| == |a| + |b|;
      forall q | 0 <= q < |c| ensures c[q] == (a + b)[q] {
      }
    }
  }

  /**
   * When a read delivers every byte the file has for it: exactly when nothing it asks for lies in
   * the range of the indirect block.
   */
  lemma ReadDeliversAllExactly(fs: FS, i: int, len: nat, offset: nat)
    requires 0 <= i < MAX_INODES
    ensures ReadLen(fs, i, len, offset) == Max(0, Min(offset + len, fs.inodes[i].size) - offset) <==>
      len == 0 || offset >= fs.inodes[i].size || Min(offset + len, fs.inodes[i].size) <= DIRECT * BLOCK_SIZE
  {
  }

  /** With two free blocks any byte below the capacity can be written, and only its own block is added. */
  lemma OneByteWritten(fs: FS, k: Book, i: int, x: byte, pos: nat)
    requires Inv(fs, k) && IsFile(fs, i) && pos < CAPACITY && |FreeBlocks(fs)| >= 2
    ensures var (gs, n) := WriteInode(fs, i, [x], pos);
      && n == 1 && gs.inodes[i].size == Max(fs.inodes[i].size, pos + 1) && FileByte(gs, i, pos) == x
      && forall c | 0 <= c < MAX_BLOCKS && c != pos / BLOCK_SIZE :: Slot(gs, i, DataPlace(c)) == Slot(fs, i, DataPlace(c))
  {
    hide BlocksInv, BlockFor, Allocated, FileByte, Slot, FilesInv, TreeInv, AllNamed;
    var b := pos / BLOCK_SIZE;
    var ms := BlockFor(fs, i, b).0;
    var o2 := BlockForInv(fs, k.owner, i, b);
    FreeCount(fs, k.owner);
    AllocatedKeepsInv(fs, k.owner, i, ms, o2);
    FreeCount(ms, o2);
    AllocatedKeepsKind(fs, k.owner, i, ms, o2);
    var o3 := WriteInodeBytes(fs, k.owner, i, [x], pos);
    var gs := StoreByte(fs, i, pos, x);
    assert WriteAll(fs, i, pos, [x]) == CountOne(WriteAll(gs, i, pos + 1, []));
    SetSizeKeepsSlots(gs, i, pos + 1);
    forall c | 0 <= c < MAX_BLOCKS && c != b ensures Slot(gs, i, DataPlace(c)) == Slot(fs, i, DataPlace(c)) {
      PutByteKeepsSlots(ms, o2, i, DataPlace(b), pos % BLOCK_SIZE, x, i, DataPlace(c));
    }
  }

  lemma SetSizeKeepsSlots(fs: FS, i: int, z: u32)
    requires 0 <= i < MAX_INODES
    ensures forall p | 0 <= p < PLACES :: Slot(SetSize(fs, i, z), i, p) == Slot(fs, i, p)
  {
  }

  /** A byte just written at offset 4096 is in the file, and reading it back delivers nothing. */
  lemma WrittenButNotRead(fs: FS, k: Book, i: int, x: byte)
    requires Inv(fs, k) && IsFile(fs, i) && |FreeBlocks(fs)| >= 2
    ensures var (gs, n) := WriteInode(fs, i, [x], 4096);
      n == 1 && gs.inodes[i].size > 4096 && FileByte(gs, i, 4096) == x && ReadBytes(gs, i, 1, 4096) == []
  {
    hide Inv, FileByte, WriteInode;
    OneByteWritten(fs, k, i, x, 4096);
  }

  // ---- munin_read: from the start, up to the first hole -----------------------------------------------

  /** The first logical block from b on that file i has no block for, or MAX_BLOCKS. */
  function FirstHole(fs: FS, i: int, b: nat): (r: nat)
    requires 0 <= i < MAX_INODES && b <= MAX_BLOCKS
    ensures b <= r <= MAX_BLOCKS
    ensures forall c | b <= c < r :: Slot(fs, i, DataPlace(c)) != NO_BLOCK
    ensures r < MAX_BLOCKS ==> Slot(fs, i, DataPlace(r)) == NO_BLOCK
    decreases MAX_BLOCKS - b
  {
    if b == MAX_BLOCKS || Slot(fs, i, DataPlace(b)) == NO_BLOCK then b else FirstHole(fs, i, b + 1)
  }

  /** How many bytes munin_read delivers. */
  function StartLen(fs: FS, i: int, len: nat): (n: nat)
    requires 0 <= i < MAX_INODES
    ensures n <= fs.inodes[i].size && n <= len && n <= CAPACITY
  {
    Min(Min(fs.inodes[i].size, len), FirstHole(fs, i, 0) * BLOCK_SIZE)
  }

  /** No block of the first n bytes is missing. */
  predicate NoHoleBelow(fs: FS, i: int, n: nat)
    requires 0 <= i < MAX_INODES
  {
    forall c | 0 <= c < MAX_BLOCKS && c * BLOCK_SIZE < n :: Slot(fs, i, DataPlace(c)) != NO_BLOCK
  }

  /** munin_read delivers all that was asked for and is there exactly when no block on the way is a hole. */
  lemma ReadDeliversStartExactly(fs: FS, i: int, len: nat)
    requires 0 <= i < MAX_INODES && fs.inodes[i].size <= CAPACITY
    ensures StartLen(fs, i, len) == Min(fs.inodes[i].size, len) <==> NoHoleBelow(fs, i, Min(fs.inodes[i].size, len))
  {
    hide Slot;
    var h := FirstHole(fs, i, 0);
    if h * BLOCK_SIZE < Min(fs.inodes[i].size, len) {
      assert Slot(fs, i, DataPlace(h)) == NO_BLOCK;
    }
  }

  /** The failing case: a byte written into the second block of an empty file makes it 513 bytes long, and munin_read delivers none of them. */
  lemma HoleStopsRead(fs: FS, k: Book, i: int, x: byte, len: nat)
    requires Inv(fs, k) && IsFile(fs, i) && Dense(fs, i, 0) && fs.inodes[i].size == 0 && |FreeBlocks(fs)| >= 2
    ensures var (gs, n) := WriteInode(fs, i, [x], 512);
      n == 1 && gs.inodes[i].size == 513 && FileByte(gs, i, 512) == x && StartLen(gs, i, len) == 0
  {
    hide Inv, FileByte, WriteInode, Slot;
    OneByteWritten(fs, k, i, x, 512);
    assert Slot(fs, i, DataPlace(0)) == NO_BLOCK;
  }

  /** A dense file is read from its start as far as it goes. */
  lemma DenseReads(fs: FS, i: int, len: nat)
    requires 0 <= i < MAX_INODES && Dense(fs, i, fs.inodes[i].size) && fs.inodes[i].size <= CAPACITY
    ensures StartLen(fs, i, len) == Min(fs.inodes[i].size, len)
  {
    hide Slot;
    ReadDeliversStartExactly(fs, i, len);
  }
}
