/** Truncating a file, and munin_write: replacing a file's whole contents. */
module MuninReplace {
  import opened Bytes
  import opened MuninState
  import opened MuninBlocks
  import opened MuninFiles

  function NoPointers(): Direct {
    [NO_BLOCK, NO_BLOCK, NO_BLOCK, NO_BLOCK, NO_BLOCK, NO_BLOCK, NO_BLOCK, NO_BLOCK]
  }

  function Emptied(f: Inode): Inode {
    Inode(f.kind, 0, NoPointers(), NO_BLOCK)
  }

  /** The bitmap once the blocks in places below n (the indirect block itself excepted) are freed. */
  function FreedTo(fs: FS, i: int, n: nat): Bits
    requires 0 <= i < MAX_INODES && n <= PLACES
  {
    if n == 0 then fs.bits
    else if n - 1 == INDIRECT || Slot(fs, i, n - 1) >= NUM_BLOCKS then FreedTo(fs, i, n - 1)
    else Unmark(FreedTo(fs, i, n - 1), Slot(fs, i, n - 1))
  }

  /** free_inode_blocks */
  function FreeInode(fs: FS, i: int): FS
    requires 0 <= i < MAX_INODES
  {
    FS(fs.inodes[i := Emptied(fs.inodes[i])],
       if fs.inodes[i].indirect < NUM_BLOCKS then Unmark(FreedTo(fs, i, PLACES), fs.inodes[i].indirect) else FreedTo(fs, i, PLACES),
       fs.blocks)
  }

  /** The blocks held by inode i: data blocks and its indirect block. */
  ghost function OwnedBlocks(fs: FS, i: int): set<int>
    requires 0 <= i < MAX_INODES
  {
    set p | 0 <= p < PLACES && Slot(fs, i, p) < NUM_BLOCKS :: Slot(fs, i, p)
  }

  ghost function FreeBlocks(fs: FS): set<int> {
    set b | 0 <= b < NUM_BLOCKS && !Marked(fs.bits, b)
  }

  lemma OwnedByOwner(fs: FS, owner: map<int, Place>, i: int)
    requires BlocksInv(fs, owner) && Live(fs, i)
    ensures OwnedBlocks(fs, i) == set b | b in owner && owner[b].ino == i
  {
    forall b | b in owner && owner[b].ino == i ensures b in OwnedBlocks(fs, i) {
      assert Slot(fs, i, owner[b].at) == b;
    }
    forall b | b in OwnedBlocks(fs, i) ensures b in owner && owner[b].ino == i {
      var p :| 0 <= p < PLACES && Slot(fs, i, p) < NUM_BLOCKS && Slot(fs, i, p) == b;
      SlotOwned(fs, owner, i, p);
    }
  }

  lemma {:induction false} FreedToBits(fs: FS, owner: map<int, Place>, i: int, n: nat)
    requires BlocksInv(fs, owner) && Live(fs, i) && n <= PLACES
    ensures forall b | 0 <= b < NUM_BLOCKS ::
      Marked(FreedTo(fs, i, n), b) <==> b in owner && !(owner[b].ino == i && owner[b].at < n && owner[b].at != INDIRECT)
    decreases n
  {
    if n != 0 {
      FreedToBits(fs, owner, i, n - 1);
      if Slot(fs, i, n - 1) != NO_BLOCK {
        SlotOwned(fs, owner, i, n - 1);
      }
    }
  }

  /** With no indirect block there is nothing to free beyond the direct pointers. */
  lemma {:induction false} FreedToDirect(fs: FS, i: int, n: nat)
    requires 0 <= i < MAX_INODES && fs.inodes[i].indirect >= NUM_BLOCKS && DIRECT <= n <= PLACES
    ensures FreedTo(fs, i, n) == FreedTo(fs, i, DIRECT)
    decreases n
  {
    if n > DIRECT {
      FreedToDirect(fs, i, n - 1);
    }
  }

  function Disowned(owner: map<int, Place>, i: int): map<int, Place> {
    map b | b in owner && owner[b].ino != i :: owner[b]
  }

  lemma FreeInodeBits(fs: FS, owner: map<int, Place>, i: int)
    requires BlocksInv(fs, owner) && Live(fs, i)
    ensures forall b | 0 <= b < NUM_BLOCKS :: Marked(FreeInode(fs, i).bits, b) <==> b in Disowned(owner, i)
  {
    FreedToBits(fs, owner, i, PLACES);
    assert Slot(fs, i, INDIRECT) == fs.inodes[i].indirect;
    forall b | b in owner && owner[b] == Place(i, INDIRECT) ensures b == fs.inodes[i].indirect {
      assert Slot(fs, owner[b].ino, owner[b].at) == b;
    }
    if fs.inodes[i].indirect != NO_BLOCK {
      SlotOwned(fs, owner, i, INDIRECT);
    }
  }

  /** Freeing keeps ownership exact, empties the inode, and leaves every other inode alone. */
  lemma FreeInodeInv(fs: FS, owner: map<int, Place>, i: int)
    requires BlocksInv(fs, owner) && Live(fs, i)
    ensures var gs := FreeInode(fs, i);
      && BlocksInv(gs, Disowned(owner, i)) && OnlyFileChanged(fs, gs, i)
      && gs.inodes[i] == Emptied(fs.inodes[i]) && gs.blocks == fs.blocks
      && (forall p | 0 <= p < PLACES :: Slot(gs, i, p) == NO_BLOCK)
      && (forall q | 0 <= q < CAPACITY :: FileByte(gs, i, q) == 0)
      && |Disowned(owner, i)| + |OwnedBlocks(fs, i)| == |owner|
  {
    hide BlocksInv;
    FreeInodeView(fs, owner, i);
    FreeInodeOwners(fs, owner, i);
    OwnedByOwner(fs, owner, i);
    DisownedSize(owner, i, OwnedBlocks(fs, i));
  }

  lemma FreeInodeView(fs: FS, owner: map<int, Place>, i: int)
    requires BlocksInv(fs, owner) && Live(fs, i)
    ensures var gs := FreeInode(fs, i);
      && OnlyFileChanged(fs, gs, i) && gs.inodes[i] == Emptied(fs.inodes[i]) && gs.blocks == fs.blocks
      && (forall p | 0 <= p < PLACES :: Slot(gs, i, p) == NO_BLOCK)
      && (forall q | 0 <= q < CAPACITY :: FileByte(gs, i, q) == 0)
      && (forall j, p | IsPlace(j, p) && j != i :: Slot(gs, j, p) == Slot(fs, j, p))
  {
    hide BlocksInv;
  }

  lemma FreeInodeOwners(fs: FS, owner: map<int, Place>, i: int)
    requires BlocksInv(fs, owner) && Live(fs, i)
    ensures BlocksInv(FreeInode(fs, i), Disowned(owner, i))
  {
    hide FileByte, OnlyFileChanged;
    var gs := FreeInode(fs, i);
    var o2 := Disowned(owner, i);
    FreeInodeView(fs, owner, i);
    FreeInodeBits(fs, owner, i);
    forall j, p | IsPlace(j, p) && Live(gs, j) && Slot(gs, j, p) != NO_BLOCK
      ensures Slot(gs, j, p) in o2 && o2[Slot(gs, j, p)] == Place(j, p)
    {
      SlotOwned(fs, owner, j, p);
    }
    forall b | b in o2
      ensures IsPlace(o2[b].ino, o2[b].at) && Live(gs, o2[b].ino) && Slot(gs, o2[b].ino, o2[b].at) == b
    {
      assert Slot(fs, owner[b].ino, owner[b].at) == b;
    }
  }

  lemma DisownedSize(owner: map<int, Place>, i: int, mine: set<int>)
    requires mine == set b | b in owner && owner[b].ino == i
    ensures |Disowned(owner, i)| + |mine| == |owner|
  {
    assert Disowned(owner, i).Keys == owner.Keys - mine;
  }

  // ---- counting blocks ----------------------------------------------------------------------------

  /** A subset of [0, n) and its complement have n elements between them. */
  lemma {:induction false} ComplementSize(n: nat, s: set<int>, t: set<int>)
    requires forall b :: b in s ==> 0 <= b < n
    requires forall b :: b in t <==> 0 <= b < n && b !in s
    ensures |s| + |t| == n
  {
    if n == 0 {
      assert forall b :: b !in s && b !in t;
      assert s == {} && t == {};
    } else if n - 1 in s {
      ComplementSize(n - 1, s - {n - 1}, t);
    } else {
      ComplementSize(n - 1, s, t - {n - 1});
    }
  }

  lemma FreeCount(fs: FS, owner: map<int, Place>)
    requires BlocksInv(fs, owner)
    ensures |FreeBlocks(fs)| == NUM_BLOCKS - |owner|
    ensures Full(fs) <==> |owner| == NUM_BLOCKS
  {
    ComplementSize(NUM_BLOCKS, owner.Keys, FreeBlocks(fs));
    var k := FreeFrom(fs.bits, 0);
    if k >= 0 {
      assert k in FreeBlocks(fs);
    } else {
      assert FreeBlocks(fs) == {};
    }
  }

  /** Blocks needed to hold len bytes: the data blocks, and an indirect block beyond eight. */
  function Need(len: nat): nat {
    var blocks := (len + BLOCK_SIZE - 1) / BLOCK_SIZE;
    blocks + (if blocks > DIRECT then 1 else 0)
  }

  /** Exactly the blocks holding bytes below pos are present. */
  ghost predicate Dense(fs: FS, i: int, pos: nat) {
    && 0 <= i < MAX_INODES
    && (forall b | 0 <= b < MAX_BLOCKS :: Slot(fs, i, DataPlace(b)) != NO_BLOCK <==> b * BLOCK_SIZE < pos)
    && (fs.inodes[i].indirect != NO_BLOCK <==> pos > DIRECT * BLOCK_SIZE)
  }

  lemma DenseStep(fs: FS, owner: map<int, Place>, i: int, pos: nat, v: byte) returns (o2: map<int, Place>)
    requires BlocksInv(fs, owner) && IsFile(fs, i) && Dense(fs, i, pos) && pos < CAPACITY
    requires BlockFor(fs, i, pos / BLOCK_SIZE).1 < NUM_BLOCKS
    ensures var gs := StoreByte(fs, i, pos, v);
      BlocksInv(gs, o2) && IsFile(gs, i) && Dense(gs, i, pos + 1) && |o2| == |owner| + Need(pos + 1) - Need(pos)
  {
    hide BlocksInv, BlockFor, Allocated;
    var b := pos / BLOCK_SIZE;
    var ms := BlockFor(fs, i, b).0;
    var blk := BlockFor(fs, i, b).1;
    var gs := StoreByte(fs, i, pos, v);
    o2 := BlockForInv(fs, owner, i, b);
    AllocatedKeepsInv(fs, owner, i, ms, o2);
    AllocatedKeepsKind(fs, owner, i, ms, o2);
    PutByteEffect(ms, o2, i, pos, v);
    forall c | 0 <= c < MAX_BLOCKS
      ensures Slot(gs, i, DataPlace(c)) != NO_BLOCK <==> c * BLOCK_SIZE < pos + 1
    {
      PutByteKeepsSlots(ms, o2, i, DataPlace(b), pos % BLOCK_SIZE, v, i, DataPlace(c));
      if c != b {
        assert Slot(ms, i, DataPlace(c)) == Slot(fs, i, DataPlace(c));
      }
    }
  }

  lemma AllocatedKeepsKind(fs: FS, owner: map<int, Place>, i: int, gs: FS, o2: map<int, Place>)
    requires Allocated(fs, owner, i, gs, o2) && IsFile(fs, i)
    ensures IsFile(gs, i)
  {
  }

  lemma DenseStuck(fs: FS, owner: map<int, Place>, i: int, pos: nat)
    requires BlocksInv(fs, owner) && IsFile(fs, i) && Dense(fs, i, pos) && pos < CAPACITY
    requires BlockFor(fs, i, pos / BLOCK_SIZE).1 >= NUM_BLOCKS
    ensures NUM_BLOCKS - |owner| < Need(pos + 1) - Need(pos)
  {
    hide BlocksInv, BlockFor, Allocated;
    var b := pos / BLOCK_SIZE;
    if Slot(fs, i, DataPlace(b)) != NO_BLOCK {
      SlotOwned(fs, owner, i, DataPlace(b));
      BlockForPresent(fs, i, b);
    }
    var ms := BlockFor(fs, i, b).0;
    var o2 := BlockForInv(fs, owner, i, b);
    AllocatedKeepsInv(fs, owner, i, ms, o2);
    FreeCount(ms, o2);
  }

  lemma NeedMonotone(a: nat, b: nat)
    requires a <= b
    ensures Need(a) <= Need(b)
  {
  }

  /** Appending to a dense file succeeds exactly when enough blocks are free. */
  lemma {:induction false} AppendSucceeds(fs: FS, owner: map<int, Place>, i: int, pos: nat, data: seq<byte>) returns (o2: map<int, Place>)
    requires BlocksInv(fs, owner) && IsFile(fs, i) && Dense(fs, i, pos) && pos + |data| <= CAPACITY
    ensures var (gs, n) := WriteAll(fs, i, pos, data);
      && (n == |data| <==> NUM_BLOCKS - |owner| >= Need(pos + |data|) - Need(pos))
      && (n == |data| ==> BlocksInv(gs, o2) && Dense(gs, i, pos + n) && |o2| == |owner| + Need(pos + n) - Need(pos))
    decreases |data|
  {
    hide BlocksInv, BlockFor, Dense, Need;
    FreeCount(fs, owner);
    o2 := owner;
    if data != [] {
      NeedMonotone(pos + 1, pos + |data|);
      if BlockFor(fs, i, pos / BLOCK_SIZE).1 >= NUM_BLOCKS {
        DenseStuck(fs, owner, i, pos);
      } else {
        var gs := StoreByte(fs, i, pos, data[0]);
        var o1 := DenseStep(fs, owner, i, pos, data[0]);
        o2 := AppendSucceeds(gs, o1, i, pos + 1, data[1..]);
      }
    }
  }

  // ---- munin_write --------------------------------------------------------------------------------

  /** munin_write on a resolved file: the new state and the result. */
  function WriteFile(fs: FS, i: int, data: seq<byte>): (r: (FS, int)) {
    if !IsFile(fs, i) || |data| > CAPACITY then (fs, -1)
    else Replaced(WriteAll(FreeInode(fs, i), i, 0, data), i, |data|)
  }

  function Replaced(r: (FS, nat), i: int, len: nat): (FS, int)
    requires 0 <= i < MAX_INODES && len <= CAPACITY
  {
    if r.1 < len then (FreeInode(r.0, i), -1) else (SetSize(r.0, i, len), len as int)
  }

  lemma FreshIsDense(fs: FS, i: int)
    requires 0 <= i < MAX_INODES && forall p | 0 <= p < PLACES :: Slot(fs, i, p) == NO_BLOCK
    ensures Dense(fs, i, 0)
  {
    assert Slot(fs, i, INDIRECT) == fs.inodes[i].indirect;
  }

  /** The result of munin_write when it succeeds. */
  ghost predicate WriteFileDone(fs: FS, owner: map<int, Place>, gs: FS, o2: map<int, Place>, i: int, data: seq<byte>) {
    && BlocksInv(gs, o2) && OnlyFileChanged(fs, gs, i)
    && gs.inodes[i].size == |data|
    && Dense(gs, i, |data|)
    && (forall q | 0 <= q < CAPACITY :: FileByte(gs, i, q) == if q < |data| then data[q] else 0)
    && NUM_BLOCKS - |o2| == NUM_BLOCKS - |owner| + |OwnedBlocks(fs, i)| - Need(|data|)
  }

  /** The result of munin_write when it runs out of blocks: an empty file, and all its blocks back. */
  ghost predicate WriteFileUndone(fs: FS, owner: map<int, Place>, gs: FS, o2: map<int, Place>, i: int) {
    && BlocksInv(gs, o2) && OnlyFileChanged(fs, gs, i)
    && gs.inodes[i].size == 0
    && (forall p | 0 <= p < PLACES :: Slot(gs, i, p) == NO_BLOCK)
    && (forall q | 0 <= q < CAPACITY :: FileByte(gs, i, q) == 0)
    && o2 == Disowned(owner, i)
  }

  lemma OnlyFileChangedTransitive(fs: FS, gs: FS, hs: FS, i: int)
    requires OnlyFileChanged(fs, gs, i) && OnlyFileChanged(gs, hs, i)
    ensures OnlyFileChanged(fs, hs, i)
  {
    hide SameView;
    forall j | Live(fs, j) && j != i ensures SameView(fs, hs, j) {
      SameViewTransitive(fs, gs, hs, j);
    }
  }

  lemma WriteFileFits(fs: FS, owner: map<int, Place>, i: int, data: seq<byte>) returns (o2: map<int, Place>)
    requires BlocksInv(fs, owner) && IsFile(fs, i) && |data| <= CAPACITY
    requires WriteAll(FreeInode(fs, i), i, 0, data).1 == |data|
    ensures WriteFileDone(fs, owner, WriteFile(fs, i, data).0, o2, i, data)
    ensures |FreeBlocks(fs)| + |OwnedBlocks(fs, i)| >= Need(|data|)
  {
    hide BlocksInv, SameView, FreeInode, WriteAll, Dense, FileByte, Need, Slot;
    var f0 := FreeInode(fs, i);
    var o0 := Disowned(owner, i);
    FreeInodeInv(fs, owner, i);
    FreshIsDense(f0, i);
    o2 := AppendSucceeds(f0, o0, i, 0, data);
    var o1 := WriteAllInv(f0, o0, i, 0, data);
    var f1 := WriteAll(f0, i, 0, data).0;
    ResizeKeeps(f0, f1, o2, i, |data|);
    OnlyFileChangedTransitive(fs, f0, SetSize(f1, i, |data|), i);
    SetSizeDense(f1, i, |data|);
    FreeCount(fs, owner);
    NeedNothing();
  }

  lemma NeedNothing()
    ensures Need(0) == 0
  {
  }

  lemma SetSizeDense(fs: FS, i: int, pos: nat)
    requires Dense(fs, i, pos) && pos < 0x1_0000_0000
    ensures Dense(SetSize(fs, i, pos), i, pos)
  {
    forall b | 0 <= b < MAX_BLOCKS
      ensures Slot(SetSize(fs, i, pos), i, DataPlace(b)) == Slot(fs, i, DataPlace(b))
    {
    }
  }

  lemma WroteOnlyFile(fs: FS, gs: FS, i: int, pos: nat, data: seq<byte>, n: nat)
    requires Wrote(fs, gs, i, pos, data, n) && IsFile(fs, i)
    ensures OnlyFileChanged(fs, gs, i) && IsFile(gs, i)
  {
    hide SameView, FileByte;
  }

  lemma WriteFileDoesNotFit(fs: FS, owner: map<int, Place>, i: int, data: seq<byte>) returns (o2: map<int, Place>)
    requires BlocksInv(fs, owner) && IsFile(fs, i) && |data| <= CAPACITY
    requires WriteAll(FreeInode(fs, i), i, 0, data).1 < |data|
    ensures WriteFileUndone(fs, owner, WriteFile(fs, i, data).0, o2, i)
    ensures |FreeBlocks(fs)| + |OwnedBlocks(fs, i)| < Need(|data|)
  {
    hide BlocksInv, SameView, FreeInode, WriteAll, Dense, FileByte, Need, Slot, OnlyFileChanged, FreeBlocks, OwnedBlocks, Wrote;
    var f0 := FreeInode(fs, i);
    FreeInodeInv(fs, owner, i);
    TooManyBlocks(fs, owner, i, data);
    var o1 := WriteAllInv(f0, Disowned(owner, i), i, 0, data);
    var f1 := WriteAll(f0, i, 0, data).0;
    WroteOnlyFile(f0, f1, i, 0, data, WriteAll(f0, i, 0, data).1);
    FreeInodeInv(f1, o1, i);
    o2 := Disowned(o1, i);
    OnlyFileChangedTransitive(fs, f0, f1, i);
    OnlyFileChangedTransitive(fs, f1, FreeInode(f1, i), i);
    OthersOwnTheSame(fs, owner, f1, o1, i);
  }

  lemma TooManyBlocks(fs: FS, owner: map<int, Place>, i: int, data: seq<byte>)
    requires BlocksInv(fs, owner) && IsFile(fs, i) && |data| <= CAPACITY
    requires WriteAll(FreeInode(fs, i), i, 0, data).1 < |data|
    ensures |FreeBlocks(fs)| + |OwnedBlocks(fs, i)| < Need(|data|)
  {
    hide BlocksInv, SameView, FreeInode, WriteAll, Dense, FileByte, Need, Slot, OnlyFileChanged, FreeBlocks, OwnedBlocks;
    FreeInodeInv(fs, owner, i);
    FreshIsDense(FreeInode(fs, i), i);
    var o3 := AppendSucceeds(FreeInode(fs, i), Disowned(owner, i), i, 0, data);
    FreeCount(fs, owner);
    NeedNothing();
  }

  /** An inode's blocks are the only thing in the owner map that a change to that inode can affect. */
  lemma OthersOwnTheSame(fs: FS, owner: map<int, Place>, gs: FS, o2: map<int, Place>, i: int)
    requires BlocksInv(fs, owner) && BlocksInv(gs, o2) && OnlyFileChanged(fs, gs, i)
    ensures Disowned(o2, i) == Disowned(owner, i)
  {
    forall b | b in owner && owner[b].ino != i ensures b in o2 && o2[b] == owner[b] {
      var o := owner[b];
      SameViewSlots(fs, gs, o.ino);
      assert Slot(gs, o.ino, o.at) == b;
    }
    forall b | b in o2 && o2[b].ino != i ensures b in owner && owner[b] == o2[b] {
      var o := o2[b];
      SameViewSlots(fs, gs, o.ino);
      assert Slot(fs, o.ino, o.at) == b;
    }
  }

  /**
   * munin_write succeeds exactly when the free blocks and the file's own cover the need; then
   * the file reads back as data and nothing more, and otherwise it is empty and the pool holds
   * exactly what truncating it gives.
   */
  lemma WriteFileSucceedsExactly(fs: FS, owner: map<int, Place>, i: int, data: seq<byte>) returns (o2: map<int, Place>)
    requires BlocksInv(fs, owner) && FilesInv(fs) && IsFile(fs, i) && |data| <= CAPACITY
    ensures var (gs, r) := WriteFile(fs, i, data);
      && (r == |data| <==> |FreeBlocks(fs)| + |OwnedBlocks(fs, i)| >= Need(|data|))
      && (r != |data| ==> r == -1)
      && BlocksInv(gs, o2) && FilesInv(gs) && OnlyFileChanged(fs, gs, i)
      && (r == |data| ==> Contents(gs, i) == data && Dense(gs, i, |data|))
      && (r != |data| ==> Contents(gs, i) == [] && gs.bits == FreeInode(fs, i).bits)
  {
    hide BlocksInv, SameView, Dense, FileByte, Need, Slot, WriteAll, FreeInode;
    var gs := WriteFile(fs, i, data).0;
    if WriteAll(FreeInode(fs, i), i, 0, data).1 == |data| {
      o2 := WriteFileFits(fs, owner, i, data);
      OnlyFileChangedKeepsFilesInv(fs, gs, i);
      assert Contents(gs, i) == data;
    } else {
      o2 := WriteFileDoesNotFit(fs, owner, i, data);
      OnlyFileChangedKeepsFilesInv(fs, gs, i);
      SameOwnersSameBits(fs, owner, gs, i);
    }
  }

  lemma SameOwnersSameBits(fs: FS, owner: map<int, Place>, gs: FS, i: int)
    requires BlocksInv(fs, owner) && Live(fs, i) && BlocksInv(gs, Disowned(owner, i))
    ensures gs.bits == FreeInode(fs, i).bits
  {
    FreeInodeInv(fs, owner, i);
    BitsDetermineMap(gs.bits, FreeInode(fs, i).bits);
  }
}
