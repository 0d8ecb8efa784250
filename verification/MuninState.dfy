/** The fixed RAM region of the munin filesystem, and what it means to be well formed. */
module MuninState {
  import opened Bytes

  const MAX_INODES := 128
  const NUM_BLOCKS := 512
  const BLOCK_SIZE := 512
  const DIRECT := 8
  const PTRS_PER_BLOCK := 128
  const MAX_BLOCKS := 136        // DIRECT + PTRS_PER_BLOCK
  const CAPACITY := 69632        // MAX_BLOCKS * BLOCK_SIZE
  const NO_BLOCK: u32 := 0xFFFF_FFFF
  const ROOT := 0

  const FREE: byte := 0
  const FILE: byte := 1
  const DIR: byte := 2

  type Block = b: seq<byte> | |b| == BLOCK_SIZE witness seq(BLOCK_SIZE, _ => 0)
  type Direct = d: seq<u32> | |d| == DIRECT witness seq(DIRECT, _ => 0)

  datatype Inode = Inode(kind: byte, size: u32, blocks: Direct, indirect: u32)

  type Inodes = s: seq<Inode> | |s| == MAX_INODES witness seq(MAX_INODES, _ => NoInode)
  type Bits = s: seq<byte> | |s| == NUM_BLOCKS / 8 witness seq(NUM_BLOCKS / 8, _ => 0)
  type Blocks = s: seq<Block> | |s| == NUM_BLOCKS witness seq<Block>(NUM_BLOCKS, _ => Zeros())

  const NoInode := Inode(FREE, 0, seq(DIRECT, _ => NO_BLOCK), NO_BLOCK)
  function Zeros(): Block { seq(BLOCK_SIZE, _ => 0) }
  function AllOnes(): Block { seq(BLOCK_SIZE, _ => 0xFF) }

  datatype FS = FS(inodes: Inodes, bits: Bits, blocks: Blocks)

  // ---- block pointers -----------------------------------------------------------------

  predicate Live(fs: FS, i: int) {
    0 <= i < MAX_INODES && fs.inodes[i].kind != FREE
  }

  predicate IsFile(fs: FS, i: int) {
    0 <= i < MAX_INODES && fs.inodes[i].kind == FILE
  }

  predicate IsDir(fs: FS, i: int) {
    0 <= i < MAX_INODES && fs.inodes[i].kind == DIR
  }

  // The places of an inode that can hold a block number: 0..8 the direct pointers,
  // 8 the indirect pointer, 9.. the entries of the indirect block.
  const PLACES := 137
  const INDIRECT := 8

  predicate IsPlace(i: int, p: int) {
    0 <= i < MAX_INODES && 0 <= p < PLACES
  }

  /** The block number stored in place p of inode i. */
  function Slot(fs: FS, i: int, p: int): u32
    requires IsPlace(i, p)
  {
    var f := fs.inodes[i];
    if p < DIRECT then f.blocks[p]
    else if p == INDIRECT then f.indirect
    else if f.indirect < NUM_BLOCKS then GetWord(fs.blocks[f.indirect], 4 * (p - 9))
    else NO_BLOCK
  }

  /** The place that holds logical block b of a file. */
  function DataPlace(b: int): int {
    if b < DIRECT then b else b + 1
  }

  datatype Place = Place(ino: int, at: int)

  /**
   * Block ownership. `owner` names, for every block whose bitmap bit is set, the one
   * place among all live inodes that holds its number.
   */
  ghost predicate BlocksInv(fs: FS, owner: map<int, Place>) {
    && (forall b :: b in owner <==> 0 <= b < NUM_BLOCKS && Marked(fs.bits, b))
    && (forall b | b in owner ::
          var o := owner[b];
          IsPlace(o.ino, o.at) && Live(fs, o.ino) && Slot(fs, o.ino, o.at) == b)
    && (forall i, p | IsPlace(i, p) && Live(fs, i) && Slot(fs, i, p) != NO_BLOCK ::
          Slot(fs, i, p) in owner && owner[Slot(fs, i, p)] == Place(i, p))
    && (forall i | IsDir(fs, i) :: fs.inodes[i].indirect == NO_BLOCK)
  }

  // ---- file contents --------------------------------------------------------------------

  /** Byte `pos` of inode i; a hole reads as zero. */
  function FileByte(fs: FS, i: int, pos: int): byte
    requires 0 <= i < MAX_INODES && 0 <= pos < CAPACITY
  {
    var s := Slot(fs, i, DataPlace(pos / BLOCK_SIZE));
    if s < NUM_BLOCKS then fs.blocks[s][pos % BLOCK_SIZE] else 0
  }

  /** Sizes stay within capacity and every byte at or beyond a file's size is zero. */
  ghost predicate FilesInv(fs: FS) {
    forall i | IsFile(fs, i) ::
      && fs.inodes[i].size <= CAPACITY
      && forall pos | fs.inodes[i].size <= pos < CAPACITY :: FileByte(fs, i, pos) == 0
  }

  // ---- frames -----------------------------------------------------------------------------

  /** Inode j, every block it owns, and hence everything readable through it, is the same. */
  ghost predicate SameView(fs: FS, gs: FS, j: int)
    requires 0 <= j < MAX_INODES
  {
    && fs.inodes[j] == gs.inodes[j]
    && forall p | 0 <= p < PLACES && Slot(fs, j, p) < NUM_BLOCKS :: gs.blocks[Slot(fs, j, p)] == fs.blocks[Slot(fs, j, p)]
  }

  lemma SameViewSlots(fs: FS, gs: FS, j: int)
    requires 0 <= j < MAX_INODES && SameView(fs, gs, j)
    ensures forall p | 0 <= p < PLACES :: Slot(gs, j, p) == Slot(fs, j, p)
    ensures forall pos | 0 <= pos < CAPACITY :: FileByte(gs, j, pos) == FileByte(fs, j, pos)
  {
    assert Slot(fs, j, INDIRECT) == fs.inodes[j].indirect;
  }

  lemma SameViewTransitive(fs: FS, gs: FS, hs: FS, j: int)
    requires 0 <= j < MAX_INODES && SameView(fs, gs, j) && SameView(gs, hs, j)
    ensures SameView(fs, hs, j)
  {
    SameViewSlots(fs, gs, j);
  }
}
