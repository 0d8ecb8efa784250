/** The kernel heap: an address-ordered list of blocks that tiles one arena, first fit, full coalescing. */
module Heap {
  const HEAP_BASE := 0x1_0000_0000
  const HEAP_SIZE := 0x20_0000
  const HEAP_END := HEAP_BASE + HEAP_SIZE
  const HEADER := 24                        // sizeof(block_header)
  const MAX_REQUEST := 0xFFFF_FFFF_FFFF_FFF8  // above this, rounding up wraps to 0

  type u64 = x: int | 0 <= x < 0x1_0000_0000_0000_0000

  // ---- block lists ------------------------------------------------------------------------------

  datatype Block = Block(addr: nat, size: nat, free: bool) {
    function End(): nat { addr + HEADER + size }
    function Payload(): nat { addr + HEADER }
  }

  /** Each block starts where the one before it ends. */
  ghost predicate Chained(bs: seq<Block>) {
    forall i, j | 0 <= i < |bs| && j == i + 1 && j < |bs| :: bs[j].addr == bs[i].End()
  }

  /** The blocks fill [lo, hi) without a gap. */
  ghost predicate Tiles(bs: seq<Block>, lo: nat, hi: nat) {
    && (bs == [] ==> lo == hi)
    && (bs != [] ==> bs[0].addr == lo && bs[|bs| - 1].End() == hi)
    && Chained(bs)
  }

  /** No two neighbours are both free. */
  ghost predicate Settled(bs: seq<Block>) {
    forall i, j | 0 <= i < |bs| && j == i + 1 && j < |bs| :: !(bs[i].free && bs[j].free)
  }

  ghost predicate Aligned(bs: seq<Block>) {
    forall i | 0 <= i < |bs| :: bs[i].addr % 8 == 0 && bs[i].size % 8 == 0
  }

  /** What every operation keeps. */
  ghost predicate HeapInv(bs: seq<Block>) {
    Tiles(bs, HEAP_BASE, HEAP_END) && Settled(bs) && Aligned(bs)
  }

  /** The allocations a caller still holds. */
  ghost function Live(bs: seq<Block>): set<Block> {
    set b | b in bs && !b.free
  }

  lemma {:induction false} InOrder(bs: seq<Block>, i: nat, j: nat)
    requires Chained(bs) && i < j < |bs|
    ensures bs[i].End() <= bs[j].addr
    decreases j
  {
    assert bs[j].addr == bs[j - 1].End();
    if i < j - 1 {
      InOrder(bs, i, j - 1);
    }
  }

  lemma AddressesDiffer(bs: seq<Block>, i: nat, j: nat)
    requires Chained(bs) && i < |bs| && j < |bs| && bs[i].addr == bs[j].addr
    ensures i == j
  {
    if i < j {
      InOrder(bs, i, j);
    } else if j < i {
      InOrder(bs, j, i);
    }
  }

  lemma InBounds(bs: seq<Block>, lo: nat, hi: nat, i: nat)
    requires Tiles(bs, lo, hi) && i < |bs|
    ensures lo <= bs[i].addr && bs[i].End() <= hi
  {
    if 0 < i {
      InOrder(bs, 0, i);
    }
    if i < |bs| - 1 {
      InOrder(bs, i, |bs| - 1);
    }
  }

  lemma TilesTail(bs: seq<Block>, lo: nat, hi: nat)
    requires Tiles(bs, lo, hi) && bs != []
    ensures Tiles(bs[1..], bs[0].End(), hi)
    ensures Settled(bs) ==> Settled(bs[1..])
  {
    assert |bs| > 1 ==> bs[1].addr == bs[0].End();
  }

  lemma LiveTail(bs: seq<Block>, lo: nat, hi: nat)
    requires Tiles(bs, lo, hi) && bs != []
    ensures Live(bs[1..]) == Live(bs) - {bs[0]}
  {
    forall b | b in bs[1..] ensures b != bs[0] {
      var k :| 1 <= k < |bs| && bs[k] == b;
      InOrder(bs, 0, k);
    }
    assert bs == [bs[0]] + bs[1..];
  }

  // ---- the list is a function of the live allocations -------------------------------------------------

  /** A gap in `a` ends where a live block starts, so `b` cannot start with a longer gap. */
  lemma GapNotLonger(a: seq<Block>, b: seq<Block>, lo: nat, hi: nat)
    requires Tiles(a, lo, hi) && Tiles(b, lo, hi) && Settled(a) && Live(a) == Live(b)
    requires a != [] && b != [] && a[0].free && b[0].free
    ensures b[0].size <= a[0].size
  {
    if a[0].size < b[0].size {
      InBounds(b, lo, hi, 0);
      assert |a| > 1 && a[1].addr == a[0].End() && !a[1].free;
      assert a[1] in Live(b);
      var k :| 0 <= k < |b| && b[k] == a[1];
      InOrder(b, 0, k);
    }
  }

  lemma SameFirst(a: seq<Block>, b: seq<Block>, lo: nat, hi: nat)
    requires Tiles(a, lo, hi) && Tiles(b, lo, hi) && Settled(a) && Settled(b) && Live(a) == Live(b)
    requires a != [] && b != []
    ensures a[0] == b[0]
  {
    if !a[0].free {
      assert a[0] in Live(b);
      var k :| 0 <= k < |b| && b[k] == a[0];
      AddressesDiffer(b, 0, k);
    } else if !b[0].free {
      assert b[0] in Live(a);
      var k :| 0 <= k < |a| && a[k] == b[0];
      AddressesDiffer(a, 0, k);
    } else {
      GapNotLonger(a, b, lo, hi);
      GapNotLonger(b, a, lo, hi);
    }
  }

  /** Canonical form: two settled tilings of the same range with the same live blocks are equal. */
  lemma {:induction false} CanonicalForm(a: seq<Block>, b: seq<Block>, lo: nat, hi: nat)
    requires Tiles(a, lo, hi) && Tiles(b, lo, hi) && Settled(a) && Settled(b) && Live(a) == Live(b)
    ensures a == b
    decreases |a|
  {
    if a == [] || b == [] {
      if a != [] {
        InBounds(a, lo, hi, 0);
      } else if b != [] {
        InBounds(b, lo, hi, 0);
      }
    } else {
      SameFirst(a, b, lo, hi);
      TilesTail(a, lo, hi);
      TilesTail(b, lo, hi);
      LiveTail(a, lo, hi);
      LiveTail(b, lo, hi);
      CanonicalForm(a[1..], b[1..], a[0].End(), hi);
      assert a == [a[0]] + a[1..] && b == [b[0]] + b[1..];
    }
  }

  // ---- what the operations compute -----------------------------------------------------------------

  /** (n + 7) & ~7 in 64 bits. */
  function Round8(n: u64): (r: nat)
    ensures r % 8 == 0
    ensures if n <= MAX_REQUEST then n <= r < n + 8 else r == 0
  {
    (n + 7) % 0x1_0000_0000_0000_0000 / 8 * 8
  }

  predicate Fits(b: Block, n: nat) {
    b.free && b.size >= n
  }

  /** The index of the first block from i on that can hold n bytes, or |bs|. */
  function FirstFit(bs: seq<Block>, i: nat, n: nat): (r: nat)
    requires i <= |bs|
    ensures i <= r <= |bs|
    ensures forall k | i <= k < r :: !Fits(bs[k], n)
    ensures r < |bs| ==> Fits(bs[r], n)
    decreases |bs| - i
  {
    if i == |bs| || Fits(bs[i], n) then i else FirstFit(bs, i + 1, n)
  }

  /** Block i cut down to n bytes when the rest can hold a header and 16 bytes more, else taken whole. */
  function Carve(bs: seq<Block>, i: nat, n: nat): seq<Block>
    requires i < |bs|
  {
    if bs[i].size >= n + HEADER + 16 then
      bs[..i] + [Block(bs[i].addr, n, false), Block(bs[i].addr + HEADER + n, bs[i].size - n - HEADER, true)] + bs[i + 1..]
    else
      bs[i := Block(bs[i].addr, bs[i].size, false)]
  }

  /** The list and the pointer that kmalloc leaves; pointer 0 is failure. */
  function Alloc(bs: seq<Block>, size: u64): (seq<Block>, nat) {
    var i := FirstFit(bs, 0, Round8(size));
    if size == 0 || i == |bs| then (bs, 0) else (Carve(bs, i, Round8(size)), bs[i].Payload())
  }

  function Merge(bs: seq<Block>): seq<Block>
    decreases |bs|
  {
    if |bs| < 2 then bs
    else if bs[0].free && bs[1].free then
      Merge([Block(bs[0].addr, bs[0].size + HEADER + bs[1].size, true)] + bs[2..])
    else [bs[0]] + Merge(bs[1..])
  }

  /** The block whose payload starts at p marked free. */
  function Marked(bs: seq<Block>, p: nat): (r: seq<Block>)
    ensures |r| == |bs|
    ensures forall i | 0 <= i < |bs| :: r[i] == if bs[i].Payload() == p then Block(bs[i].addr, bs[i].size, true) else bs[i]
  {
    seq(|bs|, i requires 0 <= i < |bs| => if bs[i].Payload() == p then Block(bs[i].addr, bs[i].size, true) else bs[i])
  }

  function Release(bs: seq<Block>, p: nat): seq<Block> {
    Merge(Marked(bs, p))
  }

  // ---- allocation ------------------------------------------------------------------------------------

  /** Somewhere in the arena, n bytes and a header fit between the live allocations. */
  ghost predicate Room(bs: seq<Block>, n: nat) {
    exists x: nat :: GapAt(bs, n, x)
  }

  ghost predicate GapAt(bs: seq<Block>, n: nat, x: nat) {
    && HEAP_BASE <= x && x + HEADER + n <= HEAP_END
    && forall b | b in Live(bs) :: b.End() <= x || x + HEADER + n <= b.addr
  }

  lemma {:induction false} BlockAround(bs: seq<Block>, lo: nat, hi: nat, x: nat, i: nat) returns (k: nat)
    requires Tiles(bs, lo, hi) && i < |bs| && bs[i].addr <= x < hi
    ensures i <= k < |bs| && bs[k].addr <= x < bs[k].End()
    decreases |bs| - i
  {
    if x < bs[i].End() {
      k := i;
    } else {
      assert bs[i + 1].addr == bs[i].End();
      k := BlockAround(bs, lo, hi, x, i + 1);
    }
  }

  /** A gap between live allocations lies inside one free block. */
  lemma GapIsOneBlock(bs: seq<Block>, n: nat, x: nat) returns (k: nat)
    requires HeapInv(bs) && GapAt(bs, n, x)
    ensures k < |bs| && Fits(bs[k], n) && bs[k].addr <= x
  {
    k := BlockAround(bs, HEAP_BASE, HEAP_END, x, 0);
    var around := bs[k];
    assert !around.free ==> around in Live(bs);
    assert k + 1 < |bs| ==> bs[k + 1].addr == bs[k].End() && (!bs[k + 1].free ==> bs[k + 1] in Live(bs));
  }

  lemma BlockIsGap(bs: seq<Block>, n: nat, k: nat)
    requires HeapInv(bs) && k < |bs| && Fits(bs[k], n)
    ensures GapAt(bs, n, bs[k].addr)
  {
    InBounds(bs, HEAP_BASE, HEAP_END, k);
    forall b | b in Live(bs) ensures b.End() <= bs[k].addr || bs[k].End() <= b.addr {
      var j :| 0 <= j < |bs| && bs[j] == b;
      if j < k {
        InOrder(bs, j, k);
      } else {
        InOrder(bs, k, j);
      }
    }
  }

  /** kmalloc fails exactly when no gap between the live allocations is wide enough. */
  lemma AllocFailsExactly(bs: seq<Block>, size: u64)
    requires HeapInv(bs)
    ensures Alloc(bs, size).1 == 0 <==> size == 0 || !Room(bs, Round8(size))
  {
    hide HeapInv, GapAt;
    var n := Round8(size);
    var i := FirstFit(bs, 0, n);
    if i < |bs| {
      BlockIsGap(bs, n, i);
    }
    if Room(bs, n) {
      var x :| GapAt(bs, n, x);
      var k := GapIsOneBlock(bs, n, x);
    }
  }

  lemma CarveTiles(bs: seq<Block>, i: nat, n: nat)
    requires HeapInv(bs) && i < |bs| && Fits(bs[i], n) && n % 8 == 0
    ensures HeapInv(Carve(bs, i, n))
  {
    if bs[i].size >= n + HEADER + 16 {
      SplitTiles(bs, i, n);
    }
  }

  lemma SplitTiles(bs: seq<Block>, i: nat, n: nat)
    requires HeapInv(bs) && i < |bs| && bs[i].free && n % 8 == 0 && bs[i].size >= n + HEADER + 16
    ensures HeapInv(Carve(bs, i, n))
  {
    hide Carve;
    var cs := Carve(bs, i, n);
    CarvedAt(bs, i, n, 0);
    forall k, j | 0 <= k < |cs| && j == k + 1 && j < |cs| ensures cs[j].addr == cs[k].End() && !(cs[k].free && cs[j].free) {
      CarvedAt(bs, i, n, k);
      CarvedAt(bs, i, n, j);
    }
    forall k | 0 <= k < |cs| ensures cs[k].addr % 8 == 0 && cs[k].size % 8 == 0 {
      CarvedAt(bs, i, n, k);
    }
    CarvedAt(bs, i, n, |bs|);
  }

  lemma CarvedAt(bs: seq<Block>, i: nat, n: nat, k: nat)
    requires i < |bs| && bs[i].size >= n + HEADER + 16 && k <= |bs|
    ensures |Carve(bs, i, n)| == |bs| + 1
    ensures Carve(bs, i, n)[k] ==
      if k < i then bs[k]
      else if k == i then Block(bs[i].addr, n, false)
      else if k == i + 1 then Block(bs[i].addr + HEADER + n, bs[i].size - n - HEADER, true)
      else bs[k - 1]
  {
  }

  /** The block that a successful kmalloc of `size` bytes hands out. */
  function Taken(bs: seq<Block>, size: u64): Block
    requires Alloc(bs, size).1 != 0
  {
    var b := bs[FirstFit(bs, 0, Round8(size))];
    Block(b.addr, if b.size >= Round8(size) + HEADER + 16 then Round8(size) else b.size, false)
  }

  lemma CarveLive(bs: seq<Block>, i: nat, n: nat, b: Block)
    requires i < |bs| && Fits(bs[i], n)
    requires b == Block(bs[i].addr, if bs[i].size >= n + HEADER + 16 then n else bs[i].size, false)
    ensures Live(Carve(bs, i, n)) == Live(bs) + {b}
  {
    var cs := Carve(bs, i, n);
    assert bs == bs[..i] + [bs[i]] + bs[i + 1..];
    if bs[i].size < n + HEADER + 16 {
      assert cs == bs[..i] + [b] + bs[i + 1..];
    }
  }

  /**
   * What a successful kmalloc gives: an aligned block, disjoint from every live allocation and inside
   * the arena, added to the live set. It is as large as asked exactly when rounding did not wrap.
   */
  lemma AllocLaw(bs: seq<Block>, size: u64)
    requires HeapInv(bs)
    ensures HeapInv(Alloc(bs, size).0)
    ensures Alloc(bs, size).1 == 0 ==> Alloc(bs, size).0 == bs
    ensures Alloc(bs, size).1 != 0 ==>
      var (cs, p) := Alloc(bs, size);
      var b := Taken(bs, size);
      && b.Payload() == p && p % 8 == 0 && b.size < Round8(size) + HEADER + 16
      && (size <= b.size <==> size <= MAX_REQUEST)
      && HEAP_BASE <= b.addr && b.End() <= HEAP_END
      && Live(cs) == Live(bs) + {b}
      && (forall c | c in Live(bs) :: c.End() <= b.addr || b.End() <= c.addr)
  {
    var n := Round8(size);
    var i := FirstFit(bs, 0, n);
    if Alloc(bs, size).1 != 0 {
      var b := Taken(bs, size);
      assert b.addr == bs[i].addr && b.End() <= bs[i].End();
      TakenLaw(bs, i, b);
      CarveTiles(bs, i, n);
      CarveLive(bs, i, n, b);
    }
  }

  /** First fit: kmalloc hands out the lowest gap that is wide enough. */
  lemma LowestGap(bs: seq<Block>, size: u64, x: nat)
    requires HeapInv(bs) && size != 0 && GapAt(bs, Round8(size), x)
    ensures 0 != Alloc(bs, size).1 <= x + 24
  {
    hide GapAt;
    var k := GapIsOneBlock(bs, Round8(size), x);
    var i := FirstFit(bs, 0, Round8(size));
    if i < k {
      InOrder(bs, i, k);
    }
  }

  lemma GapIsSize(bs: seq<Block>, i: nat, m: nat)
    requires HeapInv(bs) && i < |bs| && bs[i].free
    ensures GapAt(bs, m, bs[i].addr) <==> m <= bs[i].size
  {
    if m <= bs[i].size {
      BlockIsGap(bs, m, i);
    } else if i + 1 < |bs| {
      assert bs[i + 1].addr == bs[i].End() && bs[i + 1] in Live(bs);
    }
  }

  /**
   * How much of the gap kmalloc takes: exactly the rounded size if a header and 16 bytes fit behind
   * that, and otherwise the whole gap.
   */
  lemma SplitExactly(bs: seq<Block>, size: u64)
    requires HeapInv(bs) && Alloc(bs, size).1 != 0
    ensures var b, n := Taken(bs, size), Round8(size);
      && b in Live(Alloc(bs, size).0) && b.addr + 24 == Alloc(bs, size).1 && GapAt(bs, b.size, b.addr)
      && (if GapAt(bs, n + 40, b.addr) then b.size == n else !GapAt(bs, b.size + 1, b.addr))
  {
    hide HeapInv, GapAt, Live, Alloc;
    var i := FirstFit(bs, 0, Round8(size));
    AllocLaw(bs, size);
    FoundBlock(bs, size);
    GapIsSize(bs, i, Taken(bs, size).size);
    GapIsSize(bs, i, Taken(bs, size).size + 1);
    GapIsSize(bs, i, Round8(size) + 40);
  }

  lemma FoundBlock(bs: seq<Block>, size: u64)
    requires Alloc(bs, size).1 != 0
    ensures FirstFit(bs, 0, Round8(size)) < |bs|
  {
  }

  /** A request that wraps: the largest size there is gets a block of no bytes. */
  lemma WrappedRequest()
    ensures Alloc(Fresh(), 0xFFFF_FFFF_FFFF_FFFF).1 == HEAP_BASE + HEADER && Taken(Fresh(), 0xFFFF_FFFF_FFFF_FFFF).size == 0
  {
    var size: u64 := 0xFFFF_FFFF_FFFF_FFFF;
    assert Round8(size) == 0 && FirstFit(Fresh(), 0, 0) == 0;
  }

  lemma TakenLaw(bs: seq<Block>, i: nat, b: Block)
    requires HeapInv(bs) && i < |bs| && bs[i].free && b.addr == bs[i].addr && b.End() <= bs[i].End()
    ensures HEAP_BASE <= b.addr && b.End() <= HEAP_END && b.Payload() % 8 == 0
    ensures forall c | c in Live(bs) :: c.End() <= b.addr || b.End() <= c.addr
  {
    InBounds(bs, HEAP_BASE, HEAP_END, i);
    BlockIsGap(bs, bs[i].size, i);
  }

  // ---- release ---------------------------------------------------------------------------------------

  /** Coalescing settles any tiling without touching the live blocks. */
  lemma {:induction false} MergeLaw(bs: seq<Block>, lo: nat, hi: nat)
    requires Tiles(bs, lo, hi)
    ensures Tiles(Merge(bs), lo, hi) && Settled(Merge(bs)) && Live(Merge(bs)) == Live(bs)
    ensures Aligned(bs) ==> Aligned(Merge(bs))
    ensures bs != [] ==> Merge(bs) != [] && Merge(bs)[0].free == bs[0].free
    decreases |bs|
  {
    hide Chained;
    if |bs| < 2 {
      Short(bs);
    } else {
      if bs[0].free && bs[1].free {
        MergeStep(bs, lo, hi, 0);
        assert Joined(bs, 0) == [Block(bs[0].addr, bs[0].size + HEADER + bs[1].size, true)] + bs[2..];
        MergeLaw(Joined(bs, 0), lo, hi);
      } else {
        TilesTail(bs, lo, hi);
        MergeLaw(bs[1..], bs[0].End(), hi);
        Prepend(bs[0], Merge(bs[1..]), hi);
        assert [bs[0]] + bs[1..] == bs;
      }
    }
  }

  lemma Short(bs: seq<Block>)
    requires |bs| < 2
    ensures Settled(bs)
  {
  }

  lemma Prepend(b: Block, bs: seq<Block>, hi: nat)
    requires Tiles(bs, b.End(), hi) && Settled(bs) && bs != [] && !(b.free && bs[0].free)
    ensures Tiles([b] + bs, b.addr, hi) && Settled([b] + bs)
    ensures Live([b] + bs) == Live(bs) + (if b.free then {} else {b})
  {
  }

  /** Blocks i and i + 1 joined into one free block. */
  function Joined(bs: seq<Block>, i: nat): seq<Block>
    requires i + 1 < |bs|
  {
    bs[..i] + [Block(bs[i].addr, bs[i].size + HEADER + bs[i + 1].size, true)] + bs[i + 2..]
  }

  lemma MergeStep(bs: seq<Block>, lo: nat, hi: nat, i: nat)
    requires Tiles(bs, lo, hi) && i + 1 < |bs| && bs[i].free && bs[i + 1].free
    ensures Tiles(Joined(bs, i), lo, hi) && Live(Joined(bs, i)) == Live(bs)
    ensures Aligned(bs) ==> Aligned(Joined(bs, i))
  {
    var cs := Joined(bs, i);
    assert forall k | 0 <= k < i :: cs[k] == bs[k];
    assert forall k | i + 1 <= k < |cs| :: cs[k] == bs[k + 1];
    assert bs == bs[..i] + [bs[i], bs[i + 1]] + bs[i + 2..];
    assert bs[i + 1].addr == bs[i].End();
  }

  /** Marking a live block changes that block and no other. */
  lemma MarkedAt(bs: seq<Block>, b: Block, k: nat)
    requires Chained(bs) && k < |bs| && bs[k] == b
    ensures Marked(bs, b.Payload()) == bs[k := Block(b.addr, b.size, true)]
  {
    var cs := Marked(bs, b.Payload());
    forall i | 0 <= i < |bs| ensures cs[i] == if i == k then Block(b.addr, b.size, true) else bs[i] {
      if bs[i].Payload() == b.Payload() {
        AddressesDiffer(bs, i, k);
      }
    }
  }

  lemma MarkedLaw(bs: seq<Block>, b: Block)
    requires HeapInv(bs) && b in Live(bs)
    ensures Tiles(Marked(bs, b.Payload()), HEAP_BASE, HEAP_END) && Aligned(Marked(bs, b.Payload()))
    ensures Live(Marked(bs, b.Payload())) == Live(bs) - {b}
  {
    var cs := Marked(bs, b.Payload());
    var k :| 0 <= k < |bs| && bs[k] == b;
    MarkedAt(bs, b, k);
    hide Marked;
    MarkedLive(bs, b, k);
  }

  lemma MarkedLive(bs: seq<Block>, b: Block, k: nat)
    requires Chained(bs) && k < |bs| && bs[k] == b && !b.free
    ensures Live(bs[k := Block(b.addr, b.size, true)]) == Live(bs) - {b}
  {
    var cs := bs[k := Block(b.addr, b.size, true)];
    forall i | 0 <= i < |bs| && bs[i] == b ensures i == k {
      AddressesDiffer(bs, i, k);
    }
    forall c | c in Live(bs) - {b} ensures c in Live(cs) {
      var j :| 0 <= j < |bs| && bs[j] == c;
      assert cs[j] == c;
    }
    forall c | c in Live(cs) ensures c in Live(bs) - {b} {
      var j :| 0 <= j < |cs| && cs[j] == c;
    }
  }

  /** What kfree promises: exactly that allocation leaves the live set. */
  lemma ReleaseLaw(bs: seq<Block>, b: Block)
    requires HeapInv(bs) && b in Live(bs)
    ensures HeapInv(Release(bs, b.Payload())) && Live(Release(bs, b.Payload())) == Live(bs) - {b}
  {
    MarkedLaw(bs, b);
    MergeLaw(Marked(bs, b.Payload()), HEAP_BASE, HEAP_END);
  }

  /** kfree undoes kmalloc: the block list is what it was, block for block. */
  lemma FreeUndoesAlloc(bs: seq<Block>, size: u64)
    requires HeapInv(bs) && Alloc(bs, size).1 != 0
    ensures Release(Alloc(bs, size).0, Alloc(bs, size).1) == bs
  {
    hide HeapInv, Live;
    var b := Taken(bs, size);
    AllocLaw(bs, size);
    NotLiveYet(bs, b);
    ReleaseLaw(Alloc(bs, size).0, b);
    Unique(Release(Alloc(bs, size).0, Alloc(bs, size).1), bs);
  }

  lemma NotLiveYet(bs: seq<Block>, b: Block)
    requires forall c | c in Live(bs) :: c.End() <= b.addr || b.End() <= c.addr
    ensures b !in Live(bs) && Live(bs) + {b} - {b} == Live(bs) && b in Live(bs) + {b}
  {
    hide Live;
  }

  lemma Unique(a: seq<Block>, b: seq<Block>)
    requires HeapInv(a) && HeapInv(b) && Live(a) == Live(b)
    ensures a == b
  {
    CanonicalForm(a, b, HEAP_BASE, HEAP_END);
  }

  // ---- what callers hold, by pointer ----------------------------------------------------------------------

  /** The pointers handed out and not yet freed. */
  ghost function Payloads(bs: seq<Block>): set<nat> {
    set b | b in Live(bs) :: b.Payload()
  }

  /** p is held, with at least n bytes behind it. */
  ghost predicate HoldsAt(bs: seq<Block>, p: nat, n: nat) {
    exists b | b in Live(bs) :: b.Payload() == p && b.size >= n
  }

  lemma AllocPayload(bs: seq<Block>, size: u64)
    requires HeapInv(bs) && Alloc(bs, size).1 != 0
    ensures var (cs, p) := Alloc(bs, size);
      && HeapInv(cs) && p !in Payloads(bs) && Payloads(cs) == Payloads(bs) + {p}
      && (size <= MAX_REQUEST ==> HoldsAt(cs, p, size)) && (forall q, n :: HoldsAt(bs, q, n) ==> HoldsAt(cs, q, n))
  {
    hide HeapInv, Live, Alloc;
    AllocLaw(bs, size);
    var b := Taken(bs, size);
    assert b in Live(Alloc(bs, size).0);
  }

  lemma ReleasePayload(bs: seq<Block>, p: nat)
    requires HeapInv(bs) && p in Payloads(bs)
    ensures exists b | b in Live(bs) :: b.Payload() == p
    ensures HeapInv(Release(bs, p)) && Payloads(Release(bs, p)) == Payloads(bs) - {p}
    ensures forall q, n :: q != p && HoldsAt(bs, q, n) ==> HoldsAt(Release(bs, p), q, n)
  {
    hide HeapInv, Live, Release;
    var b :| b in Live(bs) && b.Payload() == p;
    ReleaseLaw(bs, b);
    forall c | c in Live(bs) && c.Payload() == p ensures c == b {
      SamePayload(bs, b, c);
    }
  }

  lemma SamePayload(bs: seq<Block>, b: Block, c: Block)
    requires HeapInv(bs) && b in Live(bs) && c in Live(bs) && b.Payload() == c.Payload()
    ensures b == c
  {
    var i :| 0 <= i < |bs| && bs[i] == b;
    var j :| 0 <= j < |bs| && bs[j] == c;
    AddressesDiffer(bs, i, j);
  }

  lemma NullNotHeld(bs: seq<Block>)
    ensures 0 !in Payloads(bs)
  {
    hide Live;
  }

  // ---- freeing many ------------------------------------------------------------------------------------

  function ReleaseAll(bs: seq<Block>, ps: seq<Block>): seq<Block>
    decreases |ps|
  {
    if ps == [] then bs else ReleaseAll(Release(bs, ps[0].Payload()), ps[1..])
  }

  ghost predicate Distinct(ps: seq<Block>) {
    forall i, j | 0 <= i < j < |ps| :: ps[i] != ps[j]
  }

  lemma {:induction false} ReleaseAllLaw(bs: seq<Block>, ps: seq<Block>)
    requires HeapInv(bs) && Distinct(ps) && (forall b | b in ps :: b in Live(bs))
    ensures HeapInv(ReleaseAll(bs, ps)) && Live(ReleaseAll(bs, ps)) == Live(bs) - (set b | b in ps)
    decreases |ps|
  {
    hide HeapInv, Live, Release;
    if ps == [] {
    } else {
      ReleaseLaw(bs, ps[0]);
      ReleaseAllLaw(Release(bs, ps[0].Payload()), ps[1..]);
      assert ps == [ps[0]] + ps[1..];
    }
  }

  /** The order in which a set of allocations is freed does not matter. */
  lemma FreeOrderIrrelevant(bs: seq<Block>, ps: seq<Block>, qs: seq<Block>)
    requires HeapInv(bs) && Distinct(ps) && Distinct(qs) && (forall b :: b in ps <==> b in qs)
    requires forall b | b in ps :: b in Live(bs)
    ensures ReleaseAll(bs, ps) == ReleaseAll(bs, qs)
  {
    hide HeapInv, Live, ReleaseAll;
    ReleaseAllLaw(bs, ps);
    ReleaseAllLaw(bs, qs);
    Unique(ReleaseAll(bs, ps), ReleaseAll(bs, qs));
  }

  /** The list heap_init sets up. */
  function Fresh(): seq<Block> {
    [Block(HEAP_BASE, HEAP_SIZE - HEADER, true)]
  }

  /** Freeing everything leaves the one block the heap started with. */
  lemma FreeingEverything(bs: seq<Block>, ps: seq<Block>)
    requires HeapInv(bs) && Distinct(ps) && (forall b :: b in ps <==> b in Live(bs))
    ensures ReleaseAll(bs, ps) == Fresh()
  {
    ReleaseAllLaw(bs, ps);
    assert Live(ReleaseAll(bs, ps)) == {} == Live(Fresh());
    Unique(ReleaseAll(bs, ps), Fresh());
  }

  // ---- the list in memory -------------------------------------------------------------------------------

  /** A block header as it stands in the arena; next is an address, 0 for null. */
  datatype Header = Header(size: nat, next: nat, free: bool)

  function AddrAt(bs: seq<Block>, i: nat): nat {
    if i < |bs| then bs[i].addr else 0
  }

  ghost predicate HeaderIs(hdr: map<nat, Header>, bs: seq<Block>, i: nat)
    requires i < |bs|
  {
    bs[i].addr in hdr && hdr[bs[i].addr] == Header(bs[i].size, AddrAt(bs, i + 1), bs[i].free)
  }

  /** The linked list from `head` spells bs. */
  ghost predicate Represents(hdr: map<nat, Header>, head: nat, bs: seq<Block>) {
    head == AddrAt(bs, 0) && forall i | 0 <= i < |bs| :: HeaderIs(hdr, bs, i)
  }

  class KernelHeap {
    var hdr: map<nat, Header>      // the arena's headers by address; bytes that are no longer one are stale
    var head: nat
    ghost var blocks: seq<Block>

    ghost predicate Valid()
      reads this
    {
      Represents(hdr, head, blocks) && HeapInv(blocks)
    }

    constructor ()
      ensures Valid() && blocks == Fresh()
    {
      head := HEAP_BASE;
      hdr := map[HEAP_BASE := Header(HEAP_SIZE - HEADER, 0, true)];
      blocks := Fresh();
    }

    method Kmalloc(size: u64) returns (p: nat)
      requires Valid()
      modifies this
      ensures Valid()
      ensures (blocks, p) == Alloc(old(blocks), size)
    {
      hide HeapInv, Carve;
      p := 0;
      if size == 0 {
        return;
      }
      var n := (size + 7) % 0x1_0000_0000_0000_0000 / 8 * 8;
      var b := head;
      ghost var i := 0;
      while b != 0
        invariant i <= |blocks| && b == AddrAt(blocks, i) && Valid() && blocks == old(blocks)
        invariant FirstFit(blocks, 0, n) == FirstFit(blocks, i, n)
        decreases |blocks| - i
      {
        assert HeaderIs(hdr, blocks, i);
        if hdr[b].free && hdr[b].size >= n {
          AllocLaw(blocks, size);
          TakeBlock(b, i, n);
          p := b + HEADER;
          return;
        }
        b := hdr[b].next;
        i := i + 1;
      }
      NonzeroAddress(blocks, i);
    }

    /** An address in the list is never null. */
    lemma NonzeroAddress(bs: seq<Block>, i: nat)
      requires HeapInv(bs) && i <= |bs| && AddrAt(bs, i) == 0
      ensures i == |bs|
    {
      if i < |bs| {
        InBounds(bs, HEAP_BASE, HEAP_END, i);
      }
    }

    /** Split the block if that is worth it, and mark it taken. */
    method TakeBlock(b: nat, ghost i: nat, n: nat)
      requires Valid() && i < |blocks| && b == blocks[i].addr && Fits(blocks[i], n)
      modifies this
      ensures Represents(hdr, head, blocks) && blocks == Carve(old(blocks), i, n)
    {
      ghost var bs := blocks;
      assert HeaderIs(hdr, bs, i);
      if hdr[b].size >= n + HEADER + 16 {
        var split := b + HEADER + n;
        SplitIsNew(bs, i, split);
        hdr := hdr[split := Header(hdr[b].size - n - HEADER, hdr[b].next, true)];
        hdr := hdr[b := Header(n, split, hdr[b].free)];
      }
      hdr := hdr[b := Header(hdr[b].size, hdr[b].next, false)];
      blocks := Carve(bs, i, n);
      Carved(old(hdr), hdr, head, bs, i, n);
    }

    lemma SplitIsNew(bs: seq<Block>, i: nat, x: nat)
      requires HeapInv(bs) && i < |bs| && bs[i].addr < x < bs[i].End()
      ensures forall k | 0 <= k < |bs| :: bs[k].addr != x
    {
      forall k | 0 <= k < |bs| ensures bs[k].addr != x {
        if k < i {
          InOrder(bs, k, i);
        } else if i < k {
          InOrder(bs, i, k);
        }
      }
    }

    lemma OtherAddresses(bs: seq<Block>, i: nat)
      requires HeapInv(bs) && i < |bs|
      ensures forall k | 0 <= k < |bs| && k != i :: bs[k].addr != bs[i].addr
    {
      forall k | 0 <= k < |bs| && k != i ensures bs[k].addr != bs[i].addr {
        if bs[k].addr == bs[i].addr {
          AddressesDiffer(bs, k, i);
        }
      }
    }

    lemma Carved(h: map<nat, Header>, g: map<nat, Header>, first: nat, bs: seq<Block>, i: nat, n: nat)
      requires Represents(h, first, bs) && HeapInv(bs) && i < |bs| && Fits(bs[i], n)
      requires var b, x := bs[i].addr, bs[i].addr + HEADER + n;
        if bs[i].size >= n + HEADER + 16 then
          g == h[x := Header(bs[i].size - n - HEADER, AddrAt(bs, i + 1), true)][b := Header(n, x, false)]
        else g == h[b := Header(bs[i].size, AddrAt(bs, i + 1), false)]
      ensures Represents(g, first, Carve(bs, i, n))
    {
      hide Carve, HeapInv;
      var cs := Carve(bs, i, n);
      OtherAddresses(bs, i);
      if bs[i].size >= n + HEADER + 16 {
        SplitIsNew(bs, i, bs[i].addr + HEADER + n);
        CarvedAt(bs, i, n, 0);
        forall k | 0 <= k < |cs| ensures HeaderIs(g, cs, k) {
          CarvedAt(bs, i, n, k);
          if k < |bs| {
            CarvedAt(bs, i, n, k + 1);
          }
          assert k < i ==> HeaderIs(h, bs, k);
          assert i + 1 < k ==> HeaderIs(h, bs, k - 1);
        }
      } else {
        TakenWhole(bs, i, n);
        forall k | 0 <= k < |cs| ensures HeaderIs(g, cs, k) {
          assert k != i ==> HeaderIs(h, bs, k);
        }
      }
    }

    lemma TakenWhole(bs: seq<Block>, i: nat, n: nat)
      requires i < |bs| && bs[i].size < n + HEADER + 16
      ensures Carve(bs, i, n) == bs[i := Block(bs[i].addr, bs[i].size, false)]
      ensures forall k: nat | k <= |bs| :: AddrAt(Carve(bs, i, n), k) == AddrAt(bs, k)
    {
    }

    method Coalesce()
      requires Represents(hdr, head, blocks) && Tiles(blocks, HEAP_BASE, HEAP_END) && Aligned(blocks)
      modifies this
      ensures Valid() && blocks == Merge(old(blocks))
    {
      hide Represents, Tiles, Settled, Aligned, Live, Joined, Merge;
      ghost var bs := blocks;
      var b := head;
      ghost var i := 0;
      ListStarts();
      HeaderAt(0);
      while b != 0 && hdr[b].next != 0
        invariant Represents(hdr, head, blocks) && Tiles(blocks, HEAP_BASE, HEAP_END) && Aligned(blocks)
        invariant Live(blocks) == Live(bs)
        invariant i < |blocks| && b == blocks[i].addr && b in hdr && hdr[b].next == AddrAt(blocks, i + 1)
        invariant Settled(blocks[..i + 1])
        decreases |blocks| - i
      {
        HeaderAt(i);
        HeaderAt(i + 1);
        var next := hdr[b].next;
        if hdr[b].free && hdr[next].free {
          MergeStep(blocks, HEAP_BASE, HEAP_END, i);
          JoinHeaders(hdr, head, blocks, i);
          SettledByLast(blocks, i);
          JoinedLength(blocks, i);
          hdr := hdr[b := Header(hdr[b].size + HEADER + hdr[next].size, hdr[next].next, true)];
          blocks := Joined(blocks, i);
        } else {
          SettledByNext(blocks, i);
          b := next;
          i := i + 1;
        }
        HeaderAt(i);
      }
      HeaderAt(i);
      assert blocks[..i + 1] == blocks;
      MergeLaw(bs, HEAP_BASE, HEAP_END);
      CanonicalForm(blocks, Merge(bs), HEAP_BASE, HEAP_END);
    }

    lemma ListStarts()
      requires Represents(hdr, head, blocks) && Tiles(blocks, HEAP_BASE, HEAP_END)
      ensures blocks != [] && head == blocks[0].addr && Settled(blocks[..1])
    {
    }

    lemma HeaderAt(i: nat)
      requires Represents(hdr, head, blocks) && Tiles(blocks, HEAP_BASE, HEAP_END)
      ensures i < |blocks| ==> blocks[i].addr in hdr && hdr[blocks[i].addr] == Header(blocks[i].size, AddrAt(blocks, i + 1), blocks[i].free)
      ensures i < |blocks| ==> blocks[i].addr != 0 && (AddrAt(blocks, i + 1) == 0 <==> i + 1 == |blocks|)
    {
      if i < |blocks| {
        InBounds(blocks, HEAP_BASE, HEAP_END, i);
        assert HeaderIs(hdr, blocks, i);
        if i + 1 < |blocks| {
          InBounds(blocks, HEAP_BASE, HEAP_END, i + 1);
        }
      }
    }

    lemma JoinedLength(bs: seq<Block>, i: nat)
      requires i + 1 < |bs|
      ensures |Joined(bs, i)| == |bs| - 1 && Joined(bs, i)[i].addr == bs[i].addr
      ensures AddrAt(Joined(bs, i), i + 1) == AddrAt(bs, i + 2)
    {
    }

    lemma SettledByNext(bs: seq<Block>, i: nat)
      requires i + 1 < |bs| && Settled(bs[..i + 1]) && !(bs[i].free && bs[i + 1].free)
      ensures Settled(bs[..i + 2])
    {
      var c, d := bs[..i + 1], bs[..i + 2];
      assert forall k | 0 <= k < i + 1 :: d[k] == c[k];
    }

    lemma SettledByLast(bs: seq<Block>, i: nat)
      requires i + 1 < |bs| && Settled(bs[..i + 1]) && bs[i].free
      ensures Settled(Joined(bs, i)[..i + 1])
    {
      var c, d := bs[..i + 1], Joined(bs, i)[..i + 1];
      assert forall k | 0 <= k < i :: d[k] == c[k];
      assert d[i].free == c[i].free;
    }

    lemma JoinHeaders(h: map<nat, Header>, first: nat, bs: seq<Block>, i: nat)
      requires Represents(h, first, bs) && Tiles(bs, HEAP_BASE, HEAP_END) && i + 1 < |bs| && bs[i].free && bs[i + 1].free
      ensures Represents(h[bs[i].addr := Header(bs[i].size + HEADER + bs[i + 1].size, AddrAt(bs, i + 2), true)], first, Joined(bs, i))
    {
      var cs := Joined(bs, i);
      var g := h[bs[i].addr := Header(bs[i].size + HEADER + bs[i + 1].size, AddrAt(bs, i + 2), true)];
      forall k | 0 <= k < |cs| ensures HeaderIs(g, cs, k) {
        if k < i {
          assert HeaderIs(h, bs, k) && cs[k] == bs[k] && AddrAt(cs, k + 1) == AddrAt(bs, k + 1);
          InOrder(bs, k, i);
        } else if k > i {
          assert HeaderIs(h, bs, k + 1) && cs[k] == bs[k + 1] && AddrAt(cs, k + 1) == AddrAt(bs, k + 2);
          InOrder(bs, i, k + 1);
        } else {
          assert AddrAt(cs, i + 1) == AddrAt(bs, i + 2);
        }
      }
    }

    method Kfree(p: nat)
      requires Valid() && (p != 0 ==> exists b | b in Live(blocks) :: b.Payload() == p)
      modifies this
      ensures Valid()
      ensures blocks == if p == 0 then old(blocks) else Release(old(blocks), p)
    {
      hide Merge, HeapInv, Represents, Marked, Tiles, Aligned;
      if p == 0 {
        return;
      }
      ghost var i := LiveIndex(blocks, p);
      var b := p - HEADER;
      MarkedLaw(blocks, blocks[i]);
      MarkHeader(hdr, head, blocks, i);
      assert HeaderIs(hdr, blocks, i) by { Listed(i); }
      hdr := hdr[b := Header(hdr[b].size, hdr[b].next, true)];
      blocks := Marked(blocks, p);
      Coalesce();
    }

    lemma Listed(i: nat)
      requires Represents(hdr, head, blocks) && i < |blocks|
      ensures HeaderIs(hdr, blocks, i)
    {
    }

    lemma LiveIndex(bs: seq<Block>, p: nat) returns (i: nat)
      requires exists b | b in Live(bs) :: b.Payload() == p
      ensures i < |bs| && bs[i].Payload() == p && bs[i] in Live(bs)
    {
      var x :| x in Live(bs) && x.Payload() == p;
      i :| 0 <= i < |bs| && bs[i] == x;
    }

    lemma MarkHeader(h: map<nat, Header>, first: nat, bs: seq<Block>, i: nat)
      requires Represents(h, first, bs) && HeapInv(bs) && i < |bs|
      ensures Represents(h[bs[i].addr := Header(bs[i].size, AddrAt(bs, i + 1), true)], first, Marked(bs, bs[i].Payload()))
    {
      var cs := Marked(bs, bs[i].Payload());
      var g := h[bs[i].addr := Header(bs[i].size, AddrAt(bs, i + 1), true)];
      forall k | 0 <= k < |cs| ensures HeaderIs(g, cs, k) {
        assert HeaderIs(h, bs, k) && AddrAt(cs, k + 1) == AddrAt(bs, k + 1);
        if bs[k].addr == bs[i].addr {
          AddressesDiffer(bs, k, i);
        }
      }
    }
  }
}
