/** The munin filesystem: fixed arrays updated in place, each operation refining its function on values. */
module Munin {
  import opened Bytes
  import opened MuninState
  import B = MuninBlocks
  import F = MuninFiles
  import R = MuninReplace
  import T = MuninTree
  import N = MuninNames
  import O = MuninOps
  import D = MuninData
  import P = MuninPaths

  class Filesystem {
    const inodes: array<Inode>
    const bits: array<byte>
    const blocks: array<Block>
    ghost var book: O.Book

    /** The three arrays have their fixed sizes and do not overlap. */
    ghost predicate Shape() {
      && inodes.Length == MAX_INODES && bits.Length == NUM_BLOCKS / 8 && blocks.Length == NUM_BLOCKS
      && (bits as object) != blocks && (bits as object) != inodes && (blocks as object) != inodes
    }

    ghost function State(): FS
      requires Shape()
      reads inodes, bits, blocks
    {
      FS(inodes[..], bits[..], blocks[..])
    }

    ghost predicate Valid()
      reads this, inodes, bits, blocks
    {
      Shape() && O.Inv(State(), book)
    }

    // ---- block and inode allocators ----------------------------------------------------------

    method AllocBlock() returns (r: int)
      requires Shape()
      modifies bits
      ensures r == B.FreeFrom(old(State()).bits, 0)
      ensures State() == if r < 0 then old(State()) else FS(old(State()).inodes, Mark(old(State()).bits, r), old(State()).blocks)
    {
      var i := 0;
      while i < NUM_BLOCKS
        invariant 0 <= i <= NUM_BLOCKS
        invariant State() == old(State())
        invariant B.FreeFrom(State().bits, 0) == B.FreeFrom(State().bits, i)
      {
        if !BitOf(bits[i / 8], i % 8) {
          assert !Marked(State().bits, i);
          bits[i / 8] := ByteWith(bits[i / 8], i % 8, true);
          assert bits[..] == Mark(old(bits[..]), i);
          return i;
        }
        assert Marked(State().bits, i);
        i := i + 1;
      }
      return -1;
    }

    method FreeBlock(b: int)
      requires Shape() && 0 <= b < NUM_BLOCKS
      modifies bits
      ensures State() == FS(old(State()).inodes, Unmark(old(State()).bits, b), old(State()).blocks)
    {
      bits[b / 8] := ByteWith(bits[b / 8], b % 8, false);
      assert bits[..] == Unmark(old(bits[..]), b);
    }

    method AllocInode(kind: byte) returns (r: int)
      requires Shape()
      modifies inodes
      ensures r == O.FreeInodeFrom(old(State()), 0)
      ensures State() == if r < 0 then old(State()) else O.WithInode(old(State()), r, O.NewInode(kind))
    {
      var i := 0;
      while i < MAX_INODES
        invariant 0 <= i <= MAX_INODES
        invariant State() == old(State())
        invariant O.FreeInodeFrom(State(), 0) == O.FreeInodeFrom(State(), i)
      {
        if inodes[i].kind == FREE {
          inodes[i] := Inode(kind, 0, inodes[i].blocks, inodes[i].indirect);
          ClearDirect(i);
          inodes[i] := Inode(kind, 0, inodes[i].blocks, NO_BLOCK);
          assert inodes[..] == old(inodes[..])[i := O.NewInode(kind)];
          return i;
        }
        i := i + 1;
      }
      return -1;
    }

    /** Every direct pointer of inode i set to NO_BLOCK, one after the other. */
    method ClearDirect(i: int)
      requires Shape() && 0 <= i < MAX_INODES
      modifies inodes
      ensures inodes[..] == old(inodes[..])[i := Inode(old(inodes[i]).kind, old(inodes[i]).size, R.NoPointers(), old(inodes[i]).indirect)]
    {
      var b := 0;
      while b < DIRECT
        invariant 0 <= b <= DIRECT
        invariant inodes[i].kind == old(inodes[i]).kind && inodes[i].size == old(inodes[i]).size && inodes[i].indirect == old(inodes[i]).indirect
        invariant forall c | 0 <= c < b :: inodes[i].blocks[c] == NO_BLOCK
        invariant forall j | 0 <= j < MAX_INODES && j != i :: inodes[j] == old(inodes[j])
      {
        inodes[i] := Inode(inodes[i].kind, inodes[i].size, inodes[i].blocks[b := NO_BLOCK], inodes[i].indirect);
        b := b + 1;
      }
      assert inodes[i].blocks == R.NoPointers();
    }

    /** z[i] = 0 for every byte of a block. */
    method ZeroBlock(b: int)
      requires Shape() && 0 <= b < NUM_BLOCKS
      modifies blocks
      ensures blocks[..] == old(blocks[..])[b := Zeros()]
    {
      var i := 0;
      while i < BLOCK_SIZE
        invariant 0 <= i <= BLOCK_SIZE
        invariant forall k | 0 <= k < i :: blocks[b][k] == 0
        invariant forall c | 0 <= c < NUM_BLOCKS && c != b :: blocks[c] == old(blocks[c])
      {
        blocks[b] := blocks[b][i := 0];
        i := i + 1;
      }
      assert blocks[b] == Zeros();
    }

    /** ip[i] = NO_BLOCK for every pointer of an indirect block. */
    method ClearPointers(b: int)
      requires Shape() && 0 <= b < NUM_BLOCKS
      modifies blocks
      ensures blocks[..] == old(blocks[..])[b := AllOnes()]
    {
      var i := 0;
      while i < PTRS_PER_BLOCK
        invariant 0 <= i <= PTRS_PER_BLOCK
        invariant forall k | 0 <= k < 4 * i :: blocks[b][k] == 0xFF
        invariant forall c | 0 <= c < NUM_BLOCKS && c != b :: blocks[c] == old(blocks[c])
      {
        ghost var before := blocks[b];
        blocks[b] := PutWord(blocks[b], 4 * i, NO_BLOCK);
        assert WordBytes(NO_BLOCK) == [0xFF, 0xFF, 0xFF, 0xFF];
        forall k | 0 <= k < 4 * (i + 1) ensures blocks[b][k] == 0xFF {
          assert blocks[b] == before[..4 * i] + WordBytes(NO_BLOCK) + before[4 * i + 4..];
        }
        i := i + 1;
      }
      assert blocks[b] == AllOnes();
    }

    // ---- block_for -----------------------------------------------------------------------------

    /** block_for(f, b, false) */
    method FindBlock(i: int, b: int, ghost owner: map<int, Place>) returns (blk: u32)
      requires Shape() && BlocksInv(State(), owner) && IsFile(State(), i)
      ensures blk == if 0 <= b < MAX_BLOCKS then Slot(State(), i, DataPlace(b)) else NO_BLOCK
      ensures 0 <= b < 8 ==> blk == inodes[i].blocks[b]
      ensures 8 <= b < 136 && inodes[i].indirect < NUM_BLOCKS ==> blk == GetWord(blocks[inodes[i].indirect], 4 * (b - 8))
      ensures (b < 0 || b >= 136) || (b >= 8 && inodes[i].indirect == NO_BLOCK) ==> blk == NO_BLOCK
    {
      if b < 0 || b >= MAX_BLOCKS {
        return NO_BLOCK;
      }
      if b < DIRECT {
        return inodes[i].blocks[b];
      }
      if inodes[i].indirect == NO_BLOCK {
        return NO_BLOCK;
      }
      assert Slot(State(), i, INDIRECT) == inodes[i].indirect;
      B.SlotOwned(State(), owner, i, INDIRECT);
      return GetWord(blocks[inodes[i].indirect], 4 * (b - DIRECT));
    }

    /** block_for(f, b, true) */
    method AllocateBlock(i: int, b: int, ghost owner: map<int, Place>) returns (blk: u32)
      requires Shape() && BlocksInv(State(), owner) && IsFile(State(), i)
      modifies inodes, bits, blocks
      ensures (State(), blk) == B.BlockFor(old(State()), i, b)
    {
      hide BlocksInv, B.EntryFor;
      if b < 0 || b >= MAX_BLOCKS {
        return NO_BLOCK;
      }
      if b < DIRECT {
        blk := AllocateDirect(i, b);
        return;
      }
      ghost var o1 := owner;
      if inodes[i].indirect == NO_BLOCK {
        var k := AllocateIndirect(i);
        if k < 0 {
          return NO_BLOCK;
        }
        o1 := owner[k := Place(i, INDIRECT)];
        B.AllocateIndirect(old(State()), owner, i, k);
        B.AllocatedKeepsInv(old(State()), owner, i, State(), o1);
      }
      blk := AllocateEntry(i, b - DIRECT, o1);
    }

    /** The direct part of block_for. */
    method AllocateDirect(i: int, b: int) returns (blk: u32)
      requires Shape() && 0 <= i < MAX_INODES && 0 <= b < DIRECT
      modifies inodes, bits, blocks
      ensures (State(), blk) == B.BlockFor(old(State()), i, b)
    {
      if inodes[i].blocks[b] == NO_BLOCK {
        var k := AllocBlock();
        if k < 0 {
          return NO_BLOCK;
        }
        ZeroBlock(k);
        inodes[i] := Inode(inodes[i].kind, inodes[i].size, inodes[i].blocks[b := k], inodes[i].indirect);
        assert State() == B.AttachDirect(old(State()), i, b, k, Zeros());
      }
      return inodes[i].blocks[b];
    }

    /** A fresh indirect block for inode i, or -1. */
    method AllocateIndirect(i: int) returns (k: int)
      requires Shape() && 0 <= i < MAX_INODES
      modifies inodes, bits, blocks
      ensures k == B.FreeFrom(old(State()).bits, 0)
      ensures State() == if k < 0 then old(State()) else B.AttachIndirect(old(State()), i, k)
    {
      k := AllocBlock();
      if k >= 0 {
        ClearPointers(k);
        inodes[i] := Inode(inodes[i].kind, inodes[i].size, inodes[i].blocks, k);
        assert State() == B.AttachIndirect(old(State()), i, k);
      }
    }

    /** The last part of block_for: entry e of the indirect block. */
    method AllocateEntry(i: int, e: int, ghost owner: map<int, Place>) returns (blk: u32)
      requires Shape() && BlocksInv(State(), owner) && IsFile(State(), i) && 0 <= e < PTRS_PER_BLOCK
      requires State().inodes[i].indirect != NO_BLOCK
      modifies bits, blocks
      ensures (State(), blk) == B.EntryFor(old(State()), i, e)
    {
      ghost var fs := State();
      assert Slot(fs, i, INDIRECT) == inodes[i].indirect;
      B.SlotOwned(fs, owner, i, INDIRECT);
      var ib := inodes[i].indirect;
      if GetWord(blocks[ib], 4 * e) == NO_BLOCK {
        var k := AllocBlock();
        if k < 0 {
          return NO_BLOCK;
        }
        ZeroBlock(k);
        blocks[ib] := PutWord(blocks[ib], 4 * e, k);
        assert State() == B.AttachEntry(fs, i, e, k);
        return k;
      }
      return GetWord(blocks[ib], 4 * e);
    }
  
    // ---- free_inode_blocks ----------------------------------------------------------------------

    method FreeInodeBlocks(i: int, ghost owner: map<int, Place>)
      requires Shape() && BlocksInv(State(), owner) && Live(State(), i)
      modifies inodes, bits
      ensures State() == R.FreeInode(old(State()), i)
    {
      hide BlocksInv, Slot;
      ghost var fs := State();
      FreeDirectBlocks(i, owner);
      assert inodes[i].indirect == fs.inodes[i].indirect;
      if inodes[i].indirect != NO_BLOCK {
        IndirectOwned(fs, owner, i);
        FreeEntries(i, fs, owner);
        FreeBlock(inodes[i].indirect);
        inodes[i] := Inode(inodes[i].kind, inodes[i].size, inodes[i].blocks, NO_BLOCK);
      } else {
        R.FreedToDirect(fs, i, PLACES);
      }
      inodes[i] := Inode(inodes[i].kind, 0, inodes[i].blocks, inodes[i].indirect);
      assert State().inodes == R.FreeInode(fs, i).inodes;
    }

    lemma IndirectOwned(fs: FS, owner: map<int, Place>, i: int)
      requires BlocksInv(fs, owner) && Live(fs, i) && fs.inodes[i].indirect != NO_BLOCK
      ensures fs.inodes[i].indirect < NUM_BLOCKS
    {
      assert Slot(fs, i, INDIRECT) == fs.inodes[i].indirect;
    }

    method FreeDirectBlocks(i: int, ghost owner: map<int, Place>)
      requires Shape() && BlocksInv(State(), owner) && Live(State(), i)
      modifies inodes, bits
      ensures var fs := old(State());
        State() == FS(fs.inodes[i := Inode(fs.inodes[i].kind, fs.inodes[i].size, R.NoPointers(), fs.inodes[i].indirect)],
                      R.FreedTo(fs, i, DIRECT), fs.blocks)
    {
      hide BlocksInv;
      ghost var fs := State();
      var b := 0;
      while b < DIRECT
        invariant 0 <= b <= DIRECT
        invariant bits[..] == R.FreedTo(fs, i, b)
        invariant inodes[i].kind == fs.inodes[i].kind && inodes[i].size == fs.inodes[i].size && inodes[i].indirect == fs.inodes[i].indirect
        invariant forall c | 0 <= c < b :: inodes[i].blocks[c] == NO_BLOCK
        invariant forall c | b <= c < DIRECT :: inodes[i].blocks[c] == fs.inodes[i].blocks[c]
        invariant forall j | 0 <= j < MAX_INODES && j != i :: inodes[j] == fs.inodes[j]
        invariant blocks[..] == fs.blocks
      {
        assert Slot(fs, i, b) == inodes[i].blocks[b];
        if inodes[i].blocks[b] != NO_BLOCK {
          B.SlotOwned(fs, owner, i, b);
          FreeBlock(inodes[i].blocks[b]);
          assert State().bits == bits[..];
          inodes[i] := Inode(inodes[i].kind, inodes[i].size, inodes[i].blocks[b := NO_BLOCK], inodes[i].indirect);
        }
        b := b + 1;
      }
      assert inodes[i].blocks == R.NoPointers();
    }

    /** Every block named in i's indirect block is freed; fs is the state before truncation began. */
    method FreeEntries(i: int, ghost fs: FS, ghost owner: map<int, Place>)
      requires Shape() && BlocksInv(fs, owner) && Live(fs, i)
      requires State().blocks == fs.blocks && State().bits == R.FreedTo(fs, i, DIRECT)
      requires State().inodes[i].indirect == fs.inodes[i].indirect < NUM_BLOCKS
      modifies bits
      ensures State() == FS(old(State()).inodes, R.FreedTo(fs, i, PLACES), old(State()).blocks)
    {
      hide BlocksInv;
      var ib := inodes[i].indirect;
      var e := 0;
      while e < PTRS_PER_BLOCK
        invariant 0 <= e <= PTRS_PER_BLOCK
        invariant bits[..] == R.FreedTo(fs, i, 9 + e)
      {
        assert blocks[ib] == State().blocks[ib];
        var s := GetWord(blocks[ib], 4 * e);
        assert Slot(fs, i, 9 + e) == s;
        if s != NO_BLOCK {
          B.SlotOwned(fs, owner, i, 9 + e);
          FreeBlock(s);
          assert State().bits == bits[..];
        }
        e := e + 1;
      }
    }

    // ---- copying bytes --------------------------------------------------------------------------

    /** dst[i] = src[from + i] for n bytes, into block blk from offset off on. */
    method CopyIn(blk: int, off: int, src: array<byte>, from: int, n: int)
      requires Shape() && 0 <= blk < NUM_BLOCKS && 0 <= off && 0 <= n && off + n <= BLOCK_SIZE
      requires 0 <= from && from + n <= src.Length && src != bits
      modifies blocks
      ensures State() == F.PutBytes(old(State()), blk, off, src[from..from + n])
    {
      ghost var b0 := blocks[blk];
      var i := 0;
      while i < n
        invariant 0 <= i <= n
        invariant forall k | 0 <= k < BLOCK_SIZE :: blocks[blk][k] == if off <= k < off + i then src[from + k - off] else b0[k]
        invariant forall c | 0 <= c < NUM_BLOCKS && c != blk :: blocks[c] == old(blocks[c])
      {
        blocks[blk] := blocks[blk][off + i := src[from + i]];
        i := i + 1;
      }
      assert blocks[blk] == b0[..off] + src[from..from + n] + b0[off + n..];
      assert blocks[..] == old(blocks[..])[blk := b0[..off] + src[from..from + n] + b0[off + n..]];
    }

    // ---- munin_write_inode ------------------------------------------------------------------------

    /** The loop of munin_write_inode: store buf[..want] at offset until the blocks run out. */
    method WriteLoop(i: int, buf: array<byte>, want: nat, offset: nat, ghost owner: map<int, Place>) returns (written: nat)
      requires Shape() && BlocksInv(State(), owner) && IsFile(State(), i)
      requires want <= buf.Length && buf != bits
      modifies inodes, bits, blocks
      ensures (State(), written) == F.WriteAll(old(State()), i, offset, buf[..want])
    {
      hide BlocksInv, B.BlockFor, F.WriteAll;
      ghost var fs := State();
      ghost var data := buf[..want];
      ghost var o := owner;
      written := 0;
      assert data[0..] == data;
      while written < want
        invariant 0 <= written <= want && buf[..want] == data
        invariant BlocksInv(State(), o) && IsFile(State(), i)
        invariant F.WriteAll(fs, i, offset, data) ==
          (F.WriteAll(State(), i, offset + written, data[written..]).0, written + F.WriteAll(State(), i, offset + written, data[written..]).1)
      {
        ghost var now := State();
        ghost var rest := data[written..];
        var pos := offset + written;
        var boff := pos % BLOCK_SIZE;
        var blk := AllocateBlock(i, pos / BLOCK_SIZE, o);
        if blk == NO_BLOCK {
          D.WriteStops(now, o, i, pos, rest);
          return;
        }
        var chunk := BLOCK_SIZE - boff;
        if chunk > want - written {
          chunk := want - written;
        }
        o := D.WriteAdvances(now, o, i, pos, rest, chunk);
        CopyIn(blk, boff, buf, written, chunk);
        assert rest[..chunk] == buf[written..written + chunk] && rest[chunk..] == data[written + chunk..];
        written := written + chunk;
      }
      WriteNothing(State(), i, offset + written, data[written..]);
    }

    lemma WriteNothing(fs: FS, i: int, pos: nat, rest: seq<byte>)
      requires 0 <= i < MAX_INODES && rest == []
      ensures F.WriteAll(fs, i, pos, rest) == (fs, 0)
    {
    }

    /**
     * Write len bytes of buf at offset. The sum offset + len is computed in 32 bits, so for very
     * large len it can wrap and leave len unclamped; block_for still stops at the capacity.
     */
    method WriteInode(i: int, buf: array<byte>, len: u32, offset: u32) returns (n: int)
      requires Valid() && len <= buf.Length && buf != bits
      modifies this`book, inodes, bits, blocks
      ensures Valid()
      ensures (State(), n) == F.WriteInode(old(State()), i, buf[..len], offset)
    {
      hide O.Inv, BlocksInv, F.WriteAll, B.Full, F.Contents, F.Spliced, T.Resolve, F.OnlyFileChanged;
      book := D.WriteInodeLaw(State(), book, i, buf[..len], offset);
      if i < 0 || i >= MAX_INODES || inodes[i].kind != FILE || offset >= CAPACITY {
        return -1;
      }
      ghost var fs := State();
      ghost var data := buf[..len];
      D.BookOwns(fs, old(book));
      var want := if (offset + len) % 0x1_0000_0000 > CAPACITY then CAPACITY - offset else len;
      n := WriteLoop(i, buf, want, offset, old(book).owner);
      D.ClampedWrite(fs, i, data, offset, want);
      assert data[..want] == buf[..want];
      if offset + n > inodes[i].size {
        inodes[i] := Inode(inodes[i].kind, offset + n, inodes[i].blocks, inodes[i].indirect);
      }
      assert State() == F.WriteInode(fs, i, data, offset).0;
    }

    // ---- munin_write ------------------------------------------------------------------------------

    /** The loop of munin_write: fill blocks 0, 1, ... from buf[..len]. */
    method FillLoop(i: int, buf: array<byte>, len: nat, ghost owner: map<int, Place>) returns (written: nat, ghost o: map<int, Place>)
      requires Shape() && BlocksInv(State(), owner) && IsFile(State(), i)
      requires len <= buf.Length && buf != bits
      modifies inodes, bits, blocks
      ensures (State(), written) == F.WriteAll(old(State()), i, 0, buf[..len])
      ensures BlocksInv(State(), o) && IsFile(State(), i)
    {
      hide BlocksInv, B.BlockFor, F.WriteAll;
      ghost var fs := State();
      ghost var data := buf[..len];
      o := owner;
      var remaining := len;
      var b := 0;
      written := 0;
      assert data[0..] == data;
      while remaining > 0
        invariant 0 <= remaining <= len && written == len - remaining && buf[..len] == data
        invariant written == b * BLOCK_SIZE || remaining == 0
        invariant BlocksInv(State(), o) && IsFile(State(), i)
        invariant F.WriteAll(fs, i, 0, data) ==
          (F.WriteAll(State(), i, written, data[written..]).0, written + F.WriteAll(State(), i, written, data[written..]).1)
        decreases remaining
      {
        ghost var now := State();
        ghost var rest := data[written..];
        var blk := AllocateBlock(i, b, o);
        if blk == NO_BLOCK {
          D.WriteStops(now, o, i, written, rest);
          o := D.StoppedKeeps(now, o, i, written, rest);
          return;
        }
        var chunk := if remaining < BLOCK_SIZE then remaining else BLOCK_SIZE;
        o := D.WriteAdvances(now, o, i, written, rest, chunk);
        CopyIn(blk, 0, buf, written, chunk);
        assert rest[..chunk] == buf[written..written + chunk] && rest[chunk..] == data[written + chunk..];
        written := written + chunk;
        remaining := remaining - chunk;
        b := b + 1;
      }
      WriteNothing(State(), i, written, data[written..]);
    }
  
    /** munin_write: replace the contents of the file at path by buf[..len]. */
    method Write(path: seq<byte>, buf: array<byte>, len: u32) returns (r: int)
      requires Valid() && N.NoNul(path) && len <= buf.Length && buf != bits
      modifies this`book, inodes, bits, blocks
      ensures Valid()
      ensures (State(), r) == R.WriteFile(old(State()), P.ResolvePath(old(State()), path), buf[..len])
    {
      hide O.Inv, BlocksInv, F.WriteAll, F.Contents, T.Resolve, F.OnlyFileChanged, R.Dense, R.Need, R.FreeInode;
      ghost var fs := State();
      ghost var data := buf[..len];
      var i := ResolveN(path, |path|);
      assert path[..|path|] == path;
      book := D.WriteFileLaw(fs, book, i, data);
      if i < 0 || i >= MAX_INODES || inodes[i].kind != FILE || len > MAX_BLOCKS * BLOCK_SIZE {
        return -1;
      }
      D.BookOwns(fs, old(book));
      FreeInodeBlocks(i, old(book).owner);
      ghost var f0 := State();
      ghost var o0 := R.Disowned(old(book).owner, i);
      FreedStillFile(fs, old(book).owner, i);
      var written, o1 := FillLoop(i, buf, len, o0);
      if written < len {
        FreeInodeBlocks(i, o1);
        return -1;
      }
      inodes[i] := Inode(inodes[i].kind, len, inodes[i].blocks, inodes[i].indirect);
      assert State() == F.SetSize(F.WriteAll(f0, i, 0, data).0, i, len);
      return len;
    }

    lemma FreedStillFile(fs: FS, owner: map<int, Place>, i: int)
      requires BlocksInv(fs, owner) && IsFile(fs, i)
      ensures BlocksInv(R.FreeInode(fs, i), R.Disowned(owner, i)) && IsFile(R.FreeInode(fs, i), i)
    {
      R.FreeInodeInv(fs, owner, i);
    }

    /** munin_truncate */
    method Truncate(i: int) returns (r: int)
      requires Valid()
      modifies this`book, inodes, bits, blocks
      ensures Valid()
      ensures (State(), r) == D.Truncate(old(State()), i)
    {
      hide O.Inv, BlocksInv, T.Resolve, F.OnlyFileChanged, R.FreeInode;
      ghost var fs := State();
      book := D.TruncateLaw(fs, book, i);
      if i < 0 || i >= MAX_INODES || inodes[i].kind != FILE {
        return -1;
      }
      D.BookOwns(fs, old(book));
      FreeInodeBlocks(i, old(book).owner);
      return 0;
    }

    /** munin_type */
    method Type(i: int) returns (r: int)
      requires Shape()
      ensures r == if 0 <= i < MAX_INODES then State().inodes[i].kind else -1
    {
      if i < 0 || i >= MAX_INODES {
        return -1;
      }
      return inodes[i].kind;
    }

    /** munin_size */
    method Size(i: int) returns (r: int)
      requires Shape()
      ensures r == if 0 <= i < MAX_INODES then State().inodes[i].size else -1
    {
      if i < 0 || i >= MAX_INODES {
        return -1;
      }
      return inodes[i].size;
    }

    // ---- reading -------------------------------------------------------------------------------------

    /** dst[to + i] = block[off + i] for n bytes. */
    method CopyOut(block: Block, off: int, dst: array<byte>, to: int, n: int)
      requires 0 <= off && 0 <= n && off + n <= BLOCK_SIZE && 0 <= to && to + n <= dst.Length
      modifies dst
      ensures dst[..] == old(dst[..to]) + block[off..off + n] + old(dst[to + n..])
    {
      var i := 0;
      while i < n
        invariant 0 <= i <= n
        invariant forall k | 0 <= k < dst.Length :: dst[k] == if to <= k < to + i then block[off + k - to] else old(dst[k])
      {
        dst[to + i] := block[off + i];
        i := i + 1;
      }
    }

    /** One turn of the read loop: the part of file i from pos on that lies in one direct block. */
    method ReadChunk(i: int, buf: array<byte>, got: nat, pos: nat, chunk: nat)
      requires Valid() && IsFile(State(), i) && buf != bits
      requires pos < DIRECT * BLOCK_SIZE && pos % BLOCK_SIZE + chunk <= BLOCK_SIZE && got + chunk <= buf.Length
      modifies buf
      ensures State() == old(State()) && pos + chunk <= DIRECT * BLOCK_SIZE
      ensures forall k | 0 <= k < buf.Length ::
        buf[k] == if got <= k < got + chunk then FileByte(State(), i, pos + (k - got)) else old(buf[k])
    {
      hide O.Inv, BlocksInv, GetWord, FileByte;
      ghost var fs := State();
      ghost var before := buf[..];
      var b := pos / BLOCK_SIZE;
      var boff := pos % BLOCK_SIZE;
      D.BookOwns(fs, book);
      assert Slot(fs, i, b) == inodes[i].blocks[b];
      ghost var bytes;
      if inodes[i].blocks[b] == NO_BLOCK {
        CopyOut(Zeros(), 0, buf, got, chunk);
        bytes := Zeros()[0..chunk];
      } else {
        B.SlotOwned(fs, book.owner, i, b);
        CopyOut(blocks[inodes[i].blocks[b]], boff, buf, got, chunk);
        bytes := fs.blocks[inodes[i].blocks[b]][boff..boff + chunk];
      }
      ChunkBytes(fs, i, pos, chunk, bytes);
      forall k | 0 <= k < buf.Length
        ensures buf[k] == if got <= k < got + chunk then FileByte(fs, i, pos + (k - got)) else before[k]
      {
        assert buf[..][k] == (before[..got] + bytes + before[got + chunk..])[k];
      }
    }

    /** munin_read_inode: up to len bytes of file i from offset on; holes read as zeros. */
    method ReadInode(i: int, buf: array<byte>, len: u32, offset: u32) returns (r: int)
      requires Valid() && len <= buf.Length && buf != bits
      modifies buf
      ensures r == if IsFile(State(), i) then D.ReadLen(State(), i, len, offset) else -1
      ensures r >= 0 ==> buf[..] == D.ReadBytes(State(), i, len, offset) + old(buf[r..])
      ensures r < 0 ==> buf[..] == old(buf[..])
      ensures State() == old(State())
    {
      hide O.Inv, FileByte;
      if i < 0 || i >= MAX_INODES || inodes[i].kind != FILE {
        return -1;
      }
      ghost var fs := State();
      if offset >= inodes[i].size {
        assert D.ReadBytes(fs, i, len, offset) == [];
        return 0;
      }
      var avail := inodes[i].size - offset;
      var want := if len > avail then avail else len;
      var got := 0;
      while got < want
        invariant 0 <= got <= want && (got > 0 ==> offset + got <= DIRECT * BLOCK_SIZE)
        invariant State() == fs
        invariant forall k | 0 <= k < buf.Length ::
          buf[k] == if k < got then FileByte(fs, i, offset + k) else old(buf[k])
        decreases want - got
      {
        var pos := offset + got;
        var b := pos / BLOCK_SIZE;
        if b >= DIRECT {
          break;
        }
        var chunk := BLOCK_SIZE - pos % BLOCK_SIZE;
        if chunk > want - got {
          chunk := want - got;
        }
        ReadChunk(i, buf, got, pos, chunk);
        got := got + chunk;
      }
      assert buf[..] == D.ReadBytes(fs, i, len, offset) + old(buf[got..]);
      return got;
    }

    /** The bytes of one block's worth of a file. */
    lemma ChunkBytes(fs: FS, i: int, pos: nat, n: nat, bytes: seq<byte>)
      requires 0 <= i < MAX_INODES && pos < DIRECT * BLOCK_SIZE && pos % BLOCK_SIZE + n <= BLOCK_SIZE && |bytes| == n
      requires var s := fs.inodes[i].blocks[pos / BLOCK_SIZE];
        if s < NUM_BLOCKS then bytes == fs.blocks[s][pos % BLOCK_SIZE..pos % BLOCK_SIZE + n] else forall k | 0 <= k < n :: bytes[k] == 0
      ensures pos + n <= DIRECT * BLOCK_SIZE
      ensures forall k | 0 <= k < n :: FileByte(fs, i, pos + k) == bytes[k]
    {
      forall k | 0 <= k < n ensures FileByte(fs, i, pos + k) == bytes[k] {
        assert (pos + k) / BLOCK_SIZE == pos / BLOCK_SIZE && (pos + k) % BLOCK_SIZE == pos % BLOCK_SIZE + k;
      }
    }

    /** The first chunk bytes of logical block b of file i, stored in block blk, copied to their place in buf. */
    method CopyFileBlock(i: int, b: int, blk: u32, buf: array<byte>, chunk: nat)
      requires Valid() && IsFile(State(), i) && buf != bits && 0 <= b < MAX_BLOCKS && chunk <= BLOCK_SIZE
      requires blk != NO_BLOCK && blk == Slot(State(), i, DataPlace(b)) && b * BLOCK_SIZE + chunk <= buf.Length
      modifies buf
      ensures State() == old(State())
      ensures forall k | 0 <= k < buf.Length ::
        buf[k] == if b * BLOCK_SIZE <= k < b * BLOCK_SIZE + chunk then FileByte(State(), i, k) else old(buf[k])
    {
      hide O.Inv, BlocksInv, GetWord;
      ghost var fs := State();
      D.BookOwns(fs, book);
      B.SlotOwned(fs, book.owner, i, DataPlace(b));
      ghost var before := buf[..];
      CopyOut(blocks[blk], 0, buf, b * BLOCK_SIZE, chunk);
      ghost var bytes := fs.blocks[blk][0..chunk];
      forall k | 0 <= k < buf.Length
        ensures buf[k] == if b * BLOCK_SIZE <= k < b * BLOCK_SIZE + chunk then FileByte(fs, i, k) else before[k]
      {
        assert buf[..][k] == (before[..b * BLOCK_SIZE] + bytes + before[b * BLOCK_SIZE + chunk..])[k];
        if b * BLOCK_SIZE <= k < b * BLOCK_SIZE + chunk {
          assert k / BLOCK_SIZE == b && k % BLOCK_SIZE == k - b * BLOCK_SIZE;
        }
      }
    }

    /** munin_read: the first bytes of the file at path, up to len, stopping at the first hole. */
    method Read(path: seq<byte>, buf: array<byte>, len: u32) returns (r: int)
      requires Valid() && N.NoNul(path) && len <= buf.Length && buf != bits
      modifies buf
      ensures State() == old(State())
      ensures var i := P.ResolvePath(State(), path);
        && (r < 0 <==> !IsFile(State(), i))
        && (r >= 0 ==>
              && r == D.StartLen(State(), i, len) && r <= D.Min(State().inodes[i].size, len)
              && (forall c | 0 <= c && c * 512 < r :: Slot(State(), i, DataPlace(c)) != NO_BLOCK)
              && (r < D.Min(State().inodes[i].size, len) ==> r % 512 == 0 && r < CAPACITY && Slot(State(), i, DataPlace(r / 512)) == NO_BLOCK)
              && (forall k | 0 <= k < r :: buf[k] == FileByte(State(), i, k))
              && (r == D.Min(State().inodes[i].size, len) <==> D.NoHoleBelow(State(), i, D.Min(State().inodes[i].size, len))))
      ensures forall k | F.Max(r, 0) <= k < buf.Length :: buf[k] == old(buf[k])
    {
      hide O.Inv, BlocksInv, Slot, FileByte, T.Resolve, D.NoHoleBelow, D.StartLen, D.FirstHole;
      ghost var fs := State();
      var i := ResolveN(path, |path|);
      assert path[..|path|] == path;
      if i < 0 || i >= MAX_INODES || inodes[i].kind != FILE {
        return -1;
      }
      D.BookOwns(fs, book);
      BookSizes(fs, book, i);
      var n := if inodes[i].size < len then inodes[i].size else len;
      var copied, b := 0, 0;
      while copied < n
        invariant 0 <= copied <= n && (copied == b * BLOCK_SIZE || copied == n) && 0 <= b
        invariant State() == fs && (copied == n ==> n <= b * BLOCK_SIZE) && b <= MAX_BLOCKS
        invariant D.FirstHole(fs, i, 0) == D.FirstHole(fs, i, b)
        invariant forall k | 0 <= k < copied :: buf[k] == FileByte(fs, i, k)
        invariant forall k | copied <= k < buf.Length :: buf[k] == old(buf[k])
        decreases n - copied
      {
        var blk := FindBlock(i, b, book.owner);
        if blk == NO_BLOCK {
          break;
        }
        var chunk := if n - copied < BLOCK_SIZE then n - copied else BLOCK_SIZE;
        NoHoleYet(fs, i, b);
        CopyFileBlock(i, b, blk, buf, chunk);
        copied := copied + chunk;
        b := b + 1;
      }
      ReadStops(fs, i, len, copied, b);
      StopsAtHole(fs, i, len);
      D.ReadDeliversStartExactly(fs, i, len);
      return copied;
    }

    lemma ReadStops(fs: FS, i: int, len: nat, copied: nat, b: nat)
      requires 0 <= i < MAX_INODES && b <= MAX_BLOCKS && D.FirstHole(fs, i, 0) == D.FirstHole(fs, i, b)
      requires var n := D.Min(fs.inodes[i].size, len);
        (copied == n <= b * BLOCK_SIZE) || (copied == b * BLOCK_SIZE < n && b < MAX_BLOCKS && Slot(fs, i, DataPlace(b)) == NO_BLOCK)
      ensures copied == D.StartLen(fs, i, len)
    {
      hide Slot;
    }

    /** A read from the start passes no hole, and is cut short only by one. */
    lemma StopsAtHole(fs: FS, i: int, len: nat)
      requires 0 <= i < MAX_INODES && fs.inodes[i].size <= CAPACITY
      ensures var r := D.StartLen(fs, i, len);
        && (forall c | 0 <= c && c * 512 < r :: Slot(fs, i, DataPlace(c)) != NO_BLOCK)
        && (r < D.Min(fs.inodes[i].size, len) ==> r % 512 == 0 && r < CAPACITY && Slot(fs, i, DataPlace(r / 512)) == NO_BLOCK)
    {
      hide Slot;
    }

    lemma NoHoleYet(fs: FS, i: int, b: nat)
      requires 0 <= i < MAX_INODES && b < MAX_BLOCKS && Slot(fs, i, DataPlace(b)) != NO_BLOCK
      ensures D.FirstHole(fs, i, b) == D.FirstHole(fs, i, b + 1)
    {
      hide Slot;
    }

    /** What munin_write stored, munin_read gives back. */
    method WriteThenRead(path: seq<byte>, buf: array<byte>, len: u32, dst: array<byte>, m: u32) returns (w: int, r: int)
      requires Valid() && N.NoNul(path) && len <= buf.Length && buf != bits
      requires m <= dst.Length && dst != bits && dst != buf
      modifies this`book, inodes, bits, blocks, dst
      ensures Valid()
      ensures w >= 0 ==> w == len && r == D.Min(len, m) && dst[..r] == buf[..r]
    {
      hide O.Inv, T.Resolve, F.Contents, FileByte, R.WriteFile, R.Dense, R.Need;
      ghost var fs := State();
      w := Write(path, buf, len);
      r := Read(path, dst, m);
      if w >= 0 {
        WrittenData(fs, State(), old(book), path, buf[..len], w, m);
      }
    }

    lemma WrittenData(fs: FS, gs: FS, k: O.Book, path: seq<byte>, data: seq<byte>, w: int, m: nat)
      requires O.Inv(fs, k) && N.NoNul(path)
      requires w >= 0 && (gs, w) == R.WriteFile(fs, P.ResolvePath(fs, path), data)
      ensures var i := P.ResolvePath(gs, path);
        && w == |data| && IsFile(gs, i) && D.StartLen(gs, i, m) == D.Min(|data|, m)
        && |data| <= CAPACITY && forall q | 0 <= q < |data| :: FileByte(gs, i, q) == data[q]
    {
      hide O.Inv, T.Resolve, FileByte, R.WriteFile, R.Dense, R.Need;
      var k2 := D.WriteFileLaw(fs, k, P.ResolvePath(fs, path), data);
      var i := P.ResolvePath(fs, path);
      assert P.ResolvePath(gs, path) == i;
      D.DenseReads(gs, i, m);
      assert forall q | 0 <= q < |data| :: F.Contents(gs, i)[q] == data[q];
    }

    lemma BookSizes(fs: FS, k: O.Book, i: int)
      requires O.Inv(fs, k) && IsFile(fs, i)
      ensures fs.inodes[i].size <= CAPACITY
    {
    }

    // ---- directories ------------------------------------------------------------------------------------

    /** Does entry k of block b carry exactly this name? Compares byte by byte up to the NUL. */
    method MatchName(b: Block, k: int, name: seq<byte>) returns (m: bool)
      requires 0 <= k < T.DIRENTS_PER_BLOCK && N.NoNul(name) && |T.EntryName(b, k)| < T.MAX_NAME
      ensures m <==> T.EntryName(b, k) == name
    {
      var off := T.DIRENT_SIZE * k + 4;
      ghost var stored := T.EntryName(b, k);
      ghost var raw := b[off..off + 32];
      assert stored == T.CStr(raw);
      var i := 0;
      while i < |name| && b[off + i] != 0 && b[off + i] == name[i]
        invariant 0 <= i <= |name| && i <= |stored|
        invariant forall j | 0 <= j < i :: stored[j] == name[j]
      {
        assert raw[i] == b[off + i];
        i := i + 1;
      }
      assert raw[i] == b[off + i];
      return i == |name| && b[off + i] == 0;
    }

    lemma EntNamed(fs: FS, k: O.Book, d: int, q: int)
      requires O.Inv(fs, k) && IsDir(fs, d) && 0 <= q < T.SLOTS && T.Ent(fs, d, q) != T.NO_ENTRY
      ensures 0 < |T.EntName(fs, d, q)| < T.MAX_NAME
    {
      assert T.NamesOk(fs, d);
    }

    /** Past a missing block there is nothing to find until the next block. */
    lemma {:induction false} SkipMissing(fs: FS, d: int, name: T.Name, q: int, e: int)
      requires 0 <= d < MAX_INODES && 0 <= q <= e <= T.SLOTS
      requires forall r | q <= r < e :: T.Ent(fs, d, r) == T.NO_ENTRY
      ensures T.FindFrom(fs, d, name, q) == T.FindFrom(fs, d, name, e)
      decreases e - q
    {
      if q < e {
        SkipMissing(fs, d, name, q + 1, e);
      }
    }
  
    /** The search loops of dir_lookup and munin_unlink: the slot of d that names name, or SLOTS. */
    method FindSlot(d: int, name: seq<byte>) returns (q: int)
      requires Valid() && IsDir(State(), d) && N.NoNul(name)
      ensures q == T.FindFrom(State(), d, name, 0)
    {
      hide O.Inv, BlocksInv, T.EntryInode, T.EntryName;
      ghost var fs := State();
      D.BookOwns(fs, book);
      var b := 0;
      while b < DIRECT
        invariant 0 <= b <= DIRECT
        invariant T.FindFrom(fs, d, name, 0) == T.FindFrom(fs, d, name, T.DIRENTS_PER_BLOCK * b)
      {
        assert Slot(fs, d, b) == inodes[d].blocks[b];
        if inodes[d].blocks[b] == NO_BLOCK {
          SkipMissing(fs, d, name, T.DIRENTS_PER_BLOCK * b, T.DIRENTS_PER_BLOCK * (b + 1));
        } else {
          B.SlotOwned(fs, book.owner, d, b);
          var k := FindInBlock(d, b, name);
          if k < T.DIRENTS_PER_BLOCK {
            return T.DIRENTS_PER_BLOCK * b + k;
          }
        }
        b := b + 1;
      }
      return T.SLOTS;
    }

    /** The inner search loop: the first entry of block b of d that names name. */
    method FindInBlock(d: int, b: int, name: seq<byte>) returns (k: int)
      requires Valid() && IsDir(State(), d) && N.NoNul(name)
      requires 0 <= b < DIRECT && State().inodes[d].blocks[b] < NUM_BLOCKS
      ensures 0 <= k <= T.DIRENTS_PER_BLOCK
      ensures k < T.DIRENTS_PER_BLOCK ==> T.FindFrom(State(), d, name, T.DIRENTS_PER_BLOCK * b) == T.DIRENTS_PER_BLOCK * b + k
      ensures k == T.DIRENTS_PER_BLOCK ==>
        T.FindFrom(State(), d, name, T.DIRENTS_PER_BLOCK * b) == T.FindFrom(State(), d, name, T.DIRENTS_PER_BLOCK * (b + 1))
    {
      hide O.Inv, T.EntryInode, T.EntryName;
      ghost var fs := State();
      var blk := inodes[d].blocks[b];
      k := 0;
      while k < T.DIRENTS_PER_BLOCK
        invariant 0 <= k <= T.DIRENTS_PER_BLOCK
        invariant T.FindFrom(fs, d, name, T.DIRENTS_PER_BLOCK * b) == T.FindFrom(fs, d, name, T.DIRENTS_PER_BLOCK * b + k)
      {
        ghost var q := T.DIRENTS_PER_BLOCK * b + k;
        EntOfBlock(fs, d, b, k);
        EntryInodeIs(blocks[blk], k);
        if GetWord(blocks[blk], T.DIRENT_SIZE * k) != T.NO_ENTRY {
          EntNamed(fs, book, d, q);
          var m := MatchName(blocks[blk], k, name);
          if m {
            return k;
          }
        }
        k := k + 1;
      }
    }

    /** dir_lookup: the child of directory d called name, or -1. */
    method DirLookup(d: int, name: seq<byte>) returns (r: int)
      requires Valid() && IsDir(State(), d) && N.NoNul(name)
      ensures r == T.Child(State(), d, name)
    {
      hide O.Inv;
      var q := FindSlot(d, name);
      if q == T.SLOTS {
        return -1;
      }
      return GetWord(blocks[inodes[d].blocks[q / T.DIRENTS_PER_BLOCK]], T.DIRENT_SIZE * (q % T.DIRENTS_PER_BLOCK));
    }

    lemma EntryInodeIs(b: Block, k: int)
      requires 0 <= k < T.DIRENTS_PER_BLOCK
      ensures T.EntryInode(b, k) == GetWord(b, T.DIRENT_SIZE * k)
    {
    }

    lemma EntOfBlock(fs: FS, d: int, b: int, k: int)
      requires 0 <= d < MAX_INODES && 0 <= b < DIRECT && 0 <= k < T.DIRENTS_PER_BLOCK && fs.inodes[d].blocks[b] < NUM_BLOCKS
      ensures var q := T.DIRENTS_PER_BLOCK * b + k;
        && T.Ent(fs, d, q) == T.EntryInode(fs.blocks[fs.inodes[d].blocks[b]], k)
        && T.EntName(fs, d, q) == T.EntryName(fs.blocks[fs.inodes[d].blocks[b]], k)
        && N.Block0(fs, d, q) == fs.inodes[d].blocks[b]
    {
      var q := T.DIRENTS_PER_BLOCK * b + k;
      assert q / T.DIRENTS_PER_BLOCK == b && q % T.DIRENTS_PER_BLOCK == k;
    }

    // ---- paths ------------------------------------------------------------------------------------------

    /** resolve_n: the inode that path[..len] leads to, or -1. */
    method ResolveN(path: seq<byte>, len: nat) returns (r: int)
      requires Valid() && N.NoNul(path) && len <= |path|
      ensures r == P.ResolvePath(State(), path[..len])
      ensures r == if len >= 1 && path[0] == 47 then T.Resolve(State(), P.Components(path[..len])) else -1
    {
      hide O.Inv;
      ghost var fs := State();
      if len < 1 || path[0] != P.SLASH {
        return -1;
      }
      var cur := ROOT;
      var i := 1;
      assert path[..len][1..] == path[1..len];
      while i < len
        invariant 1 <= i <= len && cur >= 0
        invariant T.ResolveFrom(fs, ROOT, P.Components(path[..len])) == T.ResolveFrom(fs, cur, P.Components(path[i..len]))
        decreases len - i
      {
        i := SkipSlashes(path, i, len);
        if i >= len {
          break;
        }
        var start := i;
        i := SkipName(path, start, len);
        NextComponent(path, start, i, len);
        if cur >= MAX_INODES || inodes[cur].kind != DIR {
          return -1;
        }
        P.SliceNoNul(path, start, i);
        var next := DirLookup(cur, path[start..i]);
        if next < 0 {
          return -1;
        }
        cur := next;
      }
      assert path[len..len] == [];
      return cur;
    }

    /** The loop over a run of slashes. */
    method SkipSlashes(path: seq<byte>, from: nat, len: nat) returns (i: nat)
      requires from <= len <= |path|
      ensures from <= i <= len && (i < len ==> path[i] != P.SLASH)
      ensures P.Components(path[from..len]) == P.Components(path[i..len])
    {
      i := from;
      while i < len && path[i] == P.SLASH
        invariant from <= i <= len
        invariant P.Components(path[from..len]) == P.Components(path[i..len])
        decreases len - i
      {
        assert path[i..len][0] == P.SLASH && path[i..len][1..] == path[i + 1..len];
        i := i + 1;
      }
    }

    /** The loop over one name. */
    method SkipName(path: seq<byte>, from: nat, len: nat) returns (i: nat)
      requires from < len <= |path| && path[from] != P.SLASH
      ensures from < i <= len && (i < len ==> path[i] == P.SLASH) && forall k | from <= k < i :: path[k] != P.SLASH
    {
      i := from;
      while i < len && path[i] != P.SLASH
        invariant from <= i <= len
        invariant forall k | from <= k < i :: path[k] != P.SLASH
        decreases len - i
      {
        i := i + 1;
      }
    }

    /** path[start..i] is a whole component of path[start..len]. */
    lemma NextComponent(path: seq<byte>, start: nat, i: nat, len: nat)
      requires start < i <= len <= |path| && (i < len ==> path[i] == P.SLASH)
      requires forall k | start <= k < i :: path[k] != P.SLASH
      ensures P.Components(path[start..len]) == [path[start..i]] + P.Components(path[i..len])
    {
      hide P.Components;
      var s := path[start..len];
      P.NextComponent(s, i - start);
      assert s[..i - start] == path[start..i] && s[i - start..] == path[i..len];
    }

    // ---- creating and removing names ---------------------------------------------------------------------

    /** Every entry of block blk marked empty. */
    method ClearEntries(blk: int)
      requires Shape() && 0 <= blk < NUM_BLOCKS
      modifies blocks
      ensures blocks[..] == old(blocks[..])[blk := N.Cleared(old(blocks[blk]), T.DIRENTS_PER_BLOCK)]
    {
      var k := 0;
      while k < T.DIRENTS_PER_BLOCK
        invariant 0 <= k <= T.DIRENTS_PER_BLOCK
        invariant blocks[..] == old(blocks[..])[blk := N.Cleared(old(blocks[blk]), k)]
      {
        blocks[blk] := PutWord(blocks[blk], T.DIRENT_SIZE * k, T.NO_ENTRY);
        k := k + 1;
      }
    }

    /** Fill entry k of block b of directory d: the child, then the name's bytes and a NUL. */
    method WriteEntry(d: int, b: int, k: int, name: seq<byte>, child: u32)
      requires Shape() && 0 <= d < MAX_INODES && 0 <= b < DIRECT && 0 <= k < T.DIRENTS_PER_BLOCK
      requires State().inodes[d].blocks[b] < NUM_BLOCKS && |name| < T.MAX_NAME
      requires N.Block0(State(), d, b * T.DIRENTS_PER_BLOCK + k) < NUM_BLOCKS
      modifies inodes, blocks
      ensures State() == N.PutEntry(old(State()), d, b * T.DIRENTS_PER_BLOCK + k, name, child)
    {
      hide GetWord, WordBytes;
      ghost var fs := State();
      ghost var q := b * T.DIRENTS_PER_BLOCK + k;
      assert q / T.DIRENTS_PER_BLOCK == b && q % T.DIRENTS_PER_BLOCK == k;
      var blk := inodes[d].blocks[b];
      blocks[blk] := PutWord(blocks[blk], T.DIRENT_SIZE * k, child);
      WriteName(blk, T.DIRENT_SIZE * k + 4, name);
      inodes[d] := Inode(inodes[d].kind, (inodes[d].size + 1) % 0x1_0000_0000, inodes[d].blocks, inodes[d].indirect);
      assert blocks[..] == fs.blocks[blk := N.EntryPut(fs.blocks[blk], k, name, child)];
    }

    /** The bytes of name and a NUL, copied to offset off of block blk. */
    method WriteName(blk: int, off: nat, name: seq<byte>)
      requires Shape() && 0 <= blk < NUM_BLOCKS && |name| < T.MAX_NAME && off + |name| < BLOCK_SIZE
      modifies blocks
      ensures blocks[..] == old(blocks[..])[blk := N.PutName(old(blocks[blk]), off, name)]
    {
      var i := 0;
      while i < T.MAX_NAME - 1 && i < |name|
        invariant 0 <= i <= |name|
        invariant forall j | 0 <= j < BLOCK_SIZE :: blocks[blk][j] == if off <= j < off + i then name[j - off] else old(blocks[blk])[j]
        invariant forall c | 0 <= c < NUM_BLOCKS && c != blk :: blocks[c] == old(blocks[c])
      {
        blocks[blk] := blocks[blk][off + i := name[i]];
        i := i + 1;
      }
      blocks[blk] := blocks[blk][off + i := 0];
      assert blocks[blk] == N.PutName(old(blocks[blk]), off, name);
    }

    /** A fresh block for part b of directory d, with every entry empty; false when no block is free. */
    method GrowDir(d: int, b: int) returns (ok: bool)
      requires Shape() && 0 <= d < MAX_INODES && 0 <= b < DIRECT
      modifies inodes, bits, blocks
      ensures ok <==> B.FreeFrom(old(State()).bits, 0) >= 0
      ensures State() == if ok then N.GrowDir(old(State()), d, b, B.FreeFrom(old(State()).bits, 0)) else old(State())
    {
      var k := AllocBlock();
      if k < 0 {
        return false;
      }
      inodes[d] := Inode(inodes[d].kind, inodes[d].size, inodes[d].blocks[b := k], inodes[d].indirect);
      ClearEntries(k);
      assert State() == N.GrowDir(old(State()), d, b, k);
      return true;
    }

    /** A block for slot b, and the entry in its first place. */
    method AddToNewBlock(d: int, b: int, name: seq<byte>, child: u32) returns (ok: bool)
      requires Shape() && 0 <= d < MAX_INODES && 0 <= b < DIRECT && |name| < T.MAX_NAME && inodes[d].blocks[b] == NO_BLOCK
      modifies inodes, bits, blocks
      ensures (State(), ok) == N.AddFrom(old(State()), d, name, child, b)
    {
      hide N.PutEntry, N.GrowDir, T.EntryInode;
      ghost var fs := State();
      ok := GrowDir(d, b);
      if ok {
        GrownBlock(fs, d, b, B.FreeFrom(fs.bits, 0));
        var k := FirstEmpty(inodes[d].blocks[b]);
        WriteEntry(d, b, k, name, child);
      }
    }

    /** add_dirent */
    method AddDirent(d: int, name: seq<byte>, child: u32, ghost owner: map<int, Place>) returns (ok: bool)
      requires Shape() && BlocksInv(State(), owner) && IsDir(State(), d) && |name| < T.MAX_NAME
      modifies inodes, bits, blocks
      ensures (State(), ok) == N.AddFrom(old(State()), d, name, child, 0)
    {
      hide BlocksInv, T.EntryInode, N.PutEntry, N.GrowDir;
      ghost var fs := State();
      var b := 0;
      while b < DIRECT
        invariant 0 <= b <= DIRECT
        invariant State() == fs
        invariant N.AddFrom(fs, d, name, child, 0) == N.AddFrom(fs, d, name, child, b)
      {
        if inodes[d].blocks[b] == NO_BLOCK {
          ok := AddToNewBlock(d, b, name, child);
          return;
        }
        assert Slot(fs, d, b) == inodes[d].blocks[b];
        B.SlotOwned(fs, owner, d, b);
        var k := FirstEmpty(inodes[d].blocks[b]);
        if k < T.DIRENTS_PER_BLOCK {
          EntOfBlock(fs, d, b, k);
          WriteEntry(d, b, k, name, child);
          return true;
        }
        b := b + 1;
      }
      return false;
    }

    /** In a newly grown block the first entry is the first empty one. */
    lemma GrownBlock(fs: FS, d: int, b: int, k: int)
      requires 0 <= d < MAX_INODES && 0 <= b < DIRECT && 0 <= k < NUM_BLOCKS
      ensures var gs := N.GrowDir(fs, d, b, k);
        && gs.inodes[d].blocks[b] == k && N.EmptyFrom(gs.blocks[k], 0) == 0
        && N.Block0(gs, d, b * T.DIRENTS_PER_BLOCK) == k
    {
      N.ClearedIsEmpty(fs.blocks[k], T.DIRENTS_PER_BLOCK, 0);
    }

    method FirstEmpty(blk: int) returns (k: int)
      requires Shape() && 0 <= blk < NUM_BLOCKS
      ensures k == N.EmptyFrom(State().blocks[blk], 0)
    {
      k := 0;
      while k < T.DIRENTS_PER_BLOCK
        invariant 0 <= k <= T.DIRENTS_PER_BLOCK
        invariant N.EmptyFrom(State().blocks[blk], 0) == N.EmptyFrom(State().blocks[blk], k)
      {
        if GetWord(blocks[blk], T.DIRENT_SIZE * k) == T.NO_ENTRY {
          return k;
        }
        k := k + 1;
      }
    }

    /** munin_create */
    method CreateIn(d: int, name: seq<byte>, kind: byte) returns (r: int)
      requires Valid() && N.NoNul(name) && kind in {FILE, DIR}
      modifies this`book, inodes, bits, blocks
      ensures Valid()
      ensures (State(), r) == O.Create(old(State()), d, name, kind)
    {
      hide O.Inv, O.Create, O.Unchanged, T.Resolve;
      ghost var fs, k2 := State(), book;
      if O.Create(fs, d, name, kind).1 >= 0 {
        k2 := O.CreateInserts(fs, book, d, name, kind);
      } else {
        O.CreateFails(fs, book, d, name, kind);
      }
      if d < 0 || d >= MAX_INODES || inodes[d].kind != DIR {
        NoCreateInFile(fs, d, name, kind);
        return -1;
      }
      r := CreateInDir(d, name, kind);
      book := k2;
    }

    /** munin_create past its directory check. */
    method CreateInDir(d: int, name: seq<byte>, kind: byte) returns (r: int)
      requires Valid() && IsDir(State(), d) && N.NoNul(name) && kind in {FILE, DIR}
      modifies inodes, bits, blocks
      ensures (State(), r) == O.Create(old(State()), d, name, kind)
    {
      hide O.Inv, BlocksInv, FilesInv, T.TreeInv, T.Child, N.AddFrom, SameView;
      ghost var fs := State();
      ghost var owner := book.owner;
      D.BookOwns(fs, book);
      if |name| == 0 || |name| >= T.MAX_NAME {
        return -1;
      }
      var c := DirLookup(d, name);
      if c >= 0 {
        return -1;
      }
      var i := AllocInode(kind);
      if i < 0 {
        return -1;
      }
      O.FreeInodeKeepsBlocks(fs, owner, i, kind);
      var ok := AddDirent(d, name, i, owner);
      if !ok {
        inodes[i] := Inode(FREE, inodes[i].size, inodes[i].blocks, inodes[i].indirect);
        return -1;
      }
      return i;
    }

    /** munin_create_path */
    method CreatePath(path: seq<byte>, kind: byte) returns (r: int)
      requires Valid() && N.NoNul(path) && kind in {FILE, DIR}
      modifies this`book, inodes, bits, blocks
      ensures Valid()
      ensures (State(), r) == P.CreatePath(old(State()), path, kind)
    {
      hide O.Inv, T.Resolve, O.Create, P.CanCreate, O.Unchanged, P.Components, P.Stripped, P.LastSlash;
      ghost var fs := State();
      ghost var k2 := P.CreatePathInserts(fs, book, path, kind);
      if path == [] || path[0] != P.SLASH {
        book := k2;
        return -1;
      }
      var len, slash := CutPath(path);
      if slash + 1 == len || len - (slash + 1) >= T.MAX_NAME || len <= slash {
        book := k2;
        return -1;
      }
      var parent := ROOT;
      if slash != 0 {
        parent := ResolveN(path, slash);
      }
      assert parent == P.ParentOf(fs, path);
      if parent < 0 || parent >= MAX_INODES || inodes[parent].kind != DIR {
        NoCreateInFile(fs, parent, path[slash + 1..len], kind);
        book := k2;
        return -1;
      }
      P.SliceNoNul(path, slash + 1, len);
      r := CreateIn(parent, path[slash + 1..len], kind);
    }

    lemma NoCreateInFile(fs: FS, d: int, name: T.Name, kind: byte)
      requires !IsDir(fs, d)
      ensures O.Create(fs, d, name, kind) == (fs, -1)
    {
    }

    /** Strip trailing slashes and find the last slash before what is left. */
    method CutPath(path: seq<byte>) returns (len: nat, slash: nat)
      requires P.Absolute(path)
      ensures len == P.Stripped(path, |path|) && slash == P.LastSlash(path, len)
      ensures slash < len <= |path| && P.LastName(path) == path[slash + 1..len] && P.ParentPart(path) == path[..slash]
    {
      len := |path|;
      while len > 1 && path[len - 1] == P.SLASH
        invariant 1 <= len <= |path|
        invariant P.Stripped(path, |path|) == P.Stripped(path, len)
      {
        len := len - 1;
      }
      slash := 0;
      var i := 0;
      while i < len
        invariant 0 <= i <= len
        invariant slash == P.LastSlash(path, i)
      {
        if path[i] == P.SLASH {
          slash := i;
        }
        i := i + 1;
      }
    }

    /** munin_unlink: 0, or -1 with nothing changed. */
    method Unlink(path: seq<byte>) returns (r: int)
      requires Valid() && N.NoNul(path)
      modifies this`book, inodes, bits, blocks
      ensures Valid()
      ensures (State(), r) == P.UnlinkPath(old(State()), path)
    {
      hide O.Inv, T.Resolve, O.Unlink, P.CanUnlink, P.Components, P.Stripped, P.LastSlash, R.OwnedBlocks, R.FreeBlocks;
      ghost var fs := State();
      ghost var k2 := P.UnlinkPathDeletes(fs, book, path);
      if path == [] || path[0] != P.SLASH {
        book := k2;
        return -1;
      }
      var len, slash := CutPath(path);
      if len <= 1 || len - (slash + 1) <= 0 || len - (slash + 1) >= T.MAX_NAME {
        P.PathParts(path);
        book := k2;
        return -1;
      }
      var parent := ROOT;
      if slash != 0 {
        parent := ResolveN(path, slash);
      }
      assert parent == P.ParentOf(fs, path);
      if parent < 0 || parent >= MAX_INODES || inodes[parent].kind != DIR {
        NoUnlinkInFile(fs, parent, path[slash + 1..len]);
        book := k2;
        return -1;
      }
      P.SliceNoNul(path, slash + 1, len);
      r := UnlinkIn(parent, path[slash + 1..len]);
      book := k2;
    }

    lemma NoUnlinkInFile(fs: FS, d: int, name: T.Name)
      requires !IsDir(fs, d)
      ensures O.Unlink(fs, d, name) == (fs, -1)
    {
    }

    /** The search and removal of munin_unlink in its parent directory; the caller keeps the book. */
    method UnlinkIn(d: int, name: seq<byte>) returns (r: int)
      requires Valid() && IsDir(State(), d) && N.NoNul(name) && |name| < T.MAX_NAME
      modifies inodes, bits, blocks
      ensures (State(), r) == O.Unlink(old(State()), d, name)
    {
      hide O.Inv, BlocksInv, FilesInv, T.TreeInv, R.FreeInode, N.EntryDropped;
      ghost var fs := State();
      D.BookOwns(fs, book);
      var q := FindSlot(d, name);
      if q == T.SLOTS {
        return -1;
      }
      O.FoundSlot(fs, book, d, name);
      var b := q / T.DIRENTS_PER_BLOCK;
      var k := q % T.DIRENTS_PER_BLOCK;
      var blk := inodes[d].blocks[b];
      var c := GetWord(blocks[blk], T.DIRENT_SIZE * k);
      assert c == T.Child(fs, d, name);
      if inodes[c].kind == DIR && inodes[c].size != 0 {
        return -1;
      }
      FreeInodeBlocks(c, book.owner);
      inodes[c] := Inode(FREE, inodes[c].size, inodes[c].blocks, inodes[c].indirect);
      assert State() == O.Released(fs, c);
      O.ReleasedKeepsInode(fs, c, d);
      DropDirent(d, q);
      return 0;
    }

    /** de[k].inode = -1; p->size-- */
    method DropDirent(d: int, q: int)
      requires Shape() && 0 <= d < MAX_INODES && 0 <= q < T.SLOTS && N.Block0(State(), d, q) < NUM_BLOCKS
      modifies inodes, blocks
      ensures State() == N.DropEntry(old(State()), d, q)
    {
      var blk := inodes[d].blocks[q / T.DIRENTS_PER_BLOCK];
      blocks[blk] := PutWord(blocks[blk], T.DIRENT_SIZE * (q % T.DIRENTS_PER_BLOCK), T.NO_ENTRY);
      inodes[d] := Inode(inodes[d].kind, (inodes[d].size + 0xFFFF_FFFF) % 0x1_0000_0000, inodes[d].blocks, inodes[d].indirect);
      assert State() == N.DropEntry(old(State()), d, q);
    }

    // ---- listing --------------------------------------------------------------------------------------------

    /** munin_dirent: name and kind of the index-th entry of directory d; 0 past the end. */
    method Dirent(d: int, index: int, nameOut: array<byte>, cap: u32) returns (r: int)
      requires Valid() && cap <= nameOut.Length && nameOut != bits
      modifies nameOut
      ensures State() == old(State())
      ensures !IsDir(State(), d) || cap == 0 ==> r == -1
      ensures IsDir(State(), d) && cap > 0 ==>
        var q := if index < 0 then T.SLOTS else T.NthFrom(State(), d, index, 0);
        if q == T.SLOTS then r == 0 && nameOut[..] == old(nameOut[..])
        else
          && Shown(State(), d, q, r, nameOut, cap) && r == State().inodes[T.Ent(State(), d, q)].kind
          && var name := T.EntName(State(), d, q);
             if |name| < cap then nameOut[..|name|] == name && nameOut[|name|] == 0
             else nameOut[..cap - 1] == name[..cap - 1] && nameOut[cap - 1] == 0
    {
      hide O.Inv, BlocksInv, T.Ent, T.EntName, T.NthFrom, ShowsName;
      if d < 0 || d >= MAX_INODES || inodes[d].kind != DIR || cap == 0 {
        return -1;
      }
      ghost var fs := State();
      D.BookOwns(fs, book);
      var seen := 0;
      var b := 0;
      while b < DIRECT
        invariant 0 <= b <= DIRECT && State() == fs && nameOut[..] == old(nameOut[..]) && seen >= 0
        invariant index < 0 || (seen <= index && T.NthFrom(fs, d, index, 0) == T.NthFrom(fs, d, index - seen, T.DIRENTS_PER_BLOCK * b))
      {
        assert Slot(fs, d, b) == inodes[d].blocks[b];
        if inodes[d].blocks[b] == NO_BLOCK {
          if index >= 0 {
            MissingIsEmpty(fs, d, b);
            SkipMissingNth(fs, d, index - seen, T.DIRENTS_PER_BLOCK * b, T.DIRENTS_PER_BLOCK * (b + 1));
          }
        } else {
          B.SlotOwned(fs, book.owner, d, b);
          var k;
          k, seen := CountInBlock(d, b, index, seen);
          if k < T.DIRENTS_PER_BLOCK {
            EntOfBlock(fs, d, b, k);
            r := ReadEntry(d, b, k, nameOut, cap);
            NameShown(nameOut, T.EntName(fs, d, T.DIRENTS_PER_BLOCK * b + k), cap);
            return;
          }
        }
        b := b + 1;
      }
      NthAtEnd(fs, d, index - seen);
      return 0;
    }

    lemma NthAtEnd(fs: FS, d: int, n: int)
      requires 0 <= d < MAX_INODES
      ensures n >= 0 ==> T.NthFrom(fs, d, n, T.SLOTS) == T.SLOTS
    {
    }

    /** The buffer holds the name, cut to cap - 1 bytes and terminated. */
    ghost predicate ShowsName(buf: array<byte>, name: seq<byte>, cap: u32)
      requires 0 < cap <= buf.Length
      reads buf
    {
      var shown := D.Min(|name|, cap - 1);
      buf[..shown] == name[..shown] && buf[shown] == 0
    }

    lemma NameShown(buf: array<byte>, name: seq<byte>, cap: u32)
      requires 0 < cap <= buf.Length && ShowsName(buf, name, cap)
      ensures if |name| < cap then buf[..|name|] == name && buf[|name|] == 0
        else buf[..cap - 1] == name[..cap - 1] && buf[cap - 1] == 0
    {
    }

    /** Entry q of directory d: the kind of its child is `kind`, and the buffer holds its name. */
    ghost predicate Shown(fs: FS, d: int, q: int, kind: int, buf: array<byte>, cap: u32)
      reads buf
    {
      && IsDir(fs, d) && 0 <= q < T.SLOTS && 0 < cap <= buf.Length
      && Live(fs, T.Ent(fs, d, q)) && kind == fs.inodes[T.Ent(fs, d, q)].kind
      && ShowsName(buf, T.EntName(fs, d, q), cap)
    }

    ghost predicate Occupied(fs: FS, d: int, b: int, k: int) {
      && IsDir(fs, d) && 0 <= b < DIRECT && 0 <= k < T.DIRENTS_PER_BLOCK
      && fs.inodes[d].blocks[b] < NUM_BLOCKS && T.Ent(fs, d, T.DIRENTS_PER_BLOCK * b + k) != T.NO_ENTRY
    }

    /** Copy out the name in entry k of block b of directory d and return the child's kind. */
    method ReadEntry(d: int, b: int, k: int, nameOut: array<byte>, cap: u32) returns (kind: int)
      requires Valid() && Occupied(State(), d, b, k) && 0 < cap <= nameOut.Length && nameOut != bits
      modifies nameOut
      ensures State() == old(State()) && Shown(State(), d, T.DIRENTS_PER_BLOCK * b + k, kind, nameOut, cap)
    {
      hide O.Inv, T.EntryInode, T.EntryName, T.Ent, T.EntName, GetWord, ShowsName;
      ghost var fs := State();
      ghost var q := T.DIRENTS_PER_BLOCK * b + k;
      EntOfBlock(fs, d, b, k);
      EntNamed(fs, book, d, q);
      ChildLive(fs, book, d, q);
      var block := blocks[inodes[d].blocks[b]];
      EntryInodeIs(block, k);
      kind := inodes[GetWord(block, T.DIRENT_SIZE * k)].kind;
      CopyName(block, k, nameOut, cap);
      assert State() == fs;
    }

    /** The inner loop of munin_dirent: count occupied entries of block b until the index-th is met. */
    method CountInBlock(d: int, b: int, index: int, seen0: nat) returns (k: int, seen: nat)
      requires Shape() && 0 <= d < MAX_INODES && 0 <= b < DIRECT && State().inodes[d].blocks[b] < NUM_BLOCKS
      requires index < 0 || seen0 <= index
      ensures 0 <= k <= T.DIRENTS_PER_BLOCK
      ensures k < T.DIRENTS_PER_BLOCK ==>
        && index >= 0
        && T.NthFrom(State(), d, index - seen0, T.DIRENTS_PER_BLOCK * b) == T.DIRENTS_PER_BLOCK * b + k
      ensures k == T.DIRENTS_PER_BLOCK && index >= 0 ==>
        && seen <= index
        && T.NthFrom(State(), d, index - seen0, T.DIRENTS_PER_BLOCK * b) == T.NthFrom(State(), d, index - seen, T.DIRENTS_PER_BLOCK * (b + 1))
    {
      hide T.EntryInode, T.EntryName;
      ghost var fs := State();
      var blk := inodes[d].blocks[b];
      seen, k := seen0, 0;
      while k < T.DIRENTS_PER_BLOCK
        invariant 0 <= k <= T.DIRENTS_PER_BLOCK
        invariant index < 0 || (seen <= index
          && T.NthFrom(fs, d, index - seen0, T.DIRENTS_PER_BLOCK * b) == T.NthFrom(fs, d, index - seen, T.DIRENTS_PER_BLOCK * b + k))
      {
        EntOfBlock(fs, d, b, k);
        EntryInodeIs(blocks[blk], k);
        if GetWord(blocks[blk], T.DIRENT_SIZE * k) != T.NO_ENTRY {
          if seen == index {
            return;
          }
          seen := seen + 1;
        }
        k := k + 1;
      }
    }

    lemma MissingIsEmpty(fs: FS, d: int, b: int)
      requires 0 <= d < MAX_INODES && 0 <= b < DIRECT && fs.inodes[d].blocks[b] == NO_BLOCK
      ensures forall r | T.DIRENTS_PER_BLOCK * b <= r < T.DIRENTS_PER_BLOCK * (b + 1) :: T.Ent(fs, d, r) == T.NO_ENTRY
    {
    }

    lemma {:induction false} SkipMissingNth(fs: FS, d: int, n: nat, q: int, e: int)
      requires 0 <= d < MAX_INODES && 0 <= q <= e <= T.SLOTS
      requires forall r | q <= r < e :: T.Ent(fs, d, r) == T.NO_ENTRY
      ensures T.NthFrom(fs, d, n, q) == T.NthFrom(fs, d, n, e)
      decreases e - q
    {
      if q < e {
        SkipMissingNth(fs, d, n, q + 1, e);
      }
    }

    lemma ChildLive(fs: FS, k: O.Book, d: int, q: int)
      requires O.Inv(fs, k) && IsDir(fs, d) && 0 <= q < T.SLOTS && T.Ent(fs, d, q) != T.NO_ENTRY
      ensures Live(fs, T.Ent(fs, d, q))
    {
      T.ChildIsHome(fs, k.path, k.home, d, q);
    }

    method CopyName(b: Block, k: int, nameOut: array<byte>, cap: u32)
      requires 0 <= k < T.DIRENTS_PER_BLOCK && 0 < cap <= nameOut.Length && |T.EntryName(b, k)| < T.MAX_NAME
      modifies nameOut
      ensures ShowsName(nameOut, T.EntryName(b, k), cap)
    {
      var off := T.DIRENT_SIZE * k + 4;
      ghost var raw := b[off..off + 32];
      ghost var name := T.EntryName(b, k);
      assert name == T.CStr(raw);
      hide T.EntryName;
      var i := 0;
      while i + 1 < cap && b[off + i] != 0
        invariant 0 <= i < cap && i <= |name| && forall j | 0 <= j < i :: nameOut[j] == name[j]
        decreases cap - i
      {
        assert raw[i] == b[off + i];
        nameOut[i] := b[off + i];
        i := i + 1;
      }
      assert raw[i] == b[off + i];
      nameOut[i] := 0;
    }

    // ---- formatting ---------------------------------------------------------------------------------------

    /** munin_init: an empty filesystem over whatever the arrays held. */
    method Init()
      requires Shape()
      modifies this`book, inodes, bits, blocks
      ensures Valid() && O.Formatted(State())
    {
      var i := 0;
      while i < MAX_INODES
        invariant 0 <= i <= MAX_INODES
        invariant forall j | 0 <= j < i :: inodes[j].kind == FREE
      {
        inodes[i] := Inode(FREE, inodes[i].size, inodes[i].blocks, inodes[i].indirect);
        i := i + 1;
      }
      i := 0;
      while i < NUM_BLOCKS / 8
        invariant 0 <= i <= NUM_BLOCKS / 8
        invariant forall j | 0 <= j < i :: bits[j] == 0
        invariant forall j | 0 <= j < MAX_INODES :: inodes[j].kind == FREE
      {
        bits[i] := 0;
        i := i + 1;
      }
      var r := AllocInode(DIR);
      forall b | 0 <= b < NUM_BLOCKS ensures !Marked(State().bits, b) {
        ZeroHasNoBits(b % 8);
      }
      O.FormattedInv(State());
      book := O.FreshBook;
    }

    lemma {:induction false} ZeroHasNoBits(k: nat)
      ensures !BitOf(0, k)
    {
      if k != 0 {
        ZeroHasNoBits(k - 1);
      }
    }

    /** The region in its initial state: allocated, zeroed, not yet formatted. */
    constructor ()
      ensures Shape() && fresh(inodes) && fresh(bits) && fresh(blocks)
    {
      inodes := new Inode[MAX_INODES](_ => Inode(FREE, 0, seq(DIRECT, _ => 0), 0));
      bits := new byte[NUM_BLOCKS / 8](_ => 0);
      blocks := new Block[NUM_BLOCKS](_ => Zeros());
      book := O.FreshBook;
    }
  }
}
