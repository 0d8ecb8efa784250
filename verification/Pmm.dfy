/** The physical frame allocator: a packed bitmap and a counter. */
module Pmm {
  import opened Bytes

  const FRAME_SIZE := 4096
  const LOW_MEMORY := 0x10_0000        // the low 1 MiB
  const KERNEL_BASE := 0x20_0000
  const MAX_ADDRESS := 0x1_0000_0000_0000_0000

  /** One entry of the Multiboot2 memory map; type 1 is available RAM. */
  datatype Region = Region(base: nat, length: nat, kind: nat)

  predicate Available(r: Region) {
    r.kind == 1
  }

  /** No sum over the region, rounding included, leaves 64 bits. */
  predicate NonWrapping(r: Region) {
    r.base + r.length + FRAME_SIZE <= MAX_ADDRESS
  }

  function CeilDiv(a: nat, b: nat): nat
    requires b > 0
  {
    (a + b - 1) / b
  }

  // ---- counting set bits ------------------------------------------------------------------------

  predicate Holds(bits: seq<byte>, n: nat) {
    n <= 8 * |bits|
  }

  /** How many of the first n frames are in use. */
  function CountUsed(bits: seq<byte>, n: nat): (c: nat)
    requires Holds(bits, n)
    ensures c <= n
  {
    if n == 0 then 0 else CountUsed(bits, n - 1) + (if Marked(bits, n - 1) then 1 else 0)
  }

  lemma {:induction false} CountAfterChange(a: seq<byte>, b: seq<byte>, n: nat, f: nat)
    requires Holds(a, n) && Holds(b, n) && f < 8 * |a| && f < 8 * |b|
    requires forall g: nat | g < n && g != f :: Marked(b, g) == Marked(a, g)
    ensures CountUsed(b, n) == CountUsed(a, n)
      + (if f < n && Marked(b, f) then 1 else 0) - (if f < n && Marked(a, f) then 1 else 0)
  {
    if n != 0 {
      CountAfterChange(a, b, n - 1, f);
    }
  }

  lemma {:induction false} CountAll(bits: seq<byte>, n: nat)
    requires Holds(bits, n) && forall g: nat | g < n :: Marked(bits, g)
    ensures CountUsed(bits, n) == n
  {
    if n != 0 {
      CountAll(bits, n - 1);
    }
  }

  lemma {:induction false} CountSome(bits: seq<byte>, n: nat, f: nat)
    requires Holds(bits, n) && f < n && !Marked(bits, f)
    ensures CountUsed(bits, n) < n
  {
    if f != n - 1 {
      CountSome(bits, n - 1, f);
    }
  }

  lemma {:induction false} AllOnesMarked(k: nat)
    requires k < 8
    ensures BitOf(0xFF, k)
  {
    assert 0xFF / 2 == 0x7F && 0x7F / 2 == 0x3F && 0x3F / 2 == 0x1F && 0x1F / 2 == 0xF && 0xF / 2 == 7 && 7 / 2 == 3 && 3 / 2 == 1;
    assert BitOf(1, 0) && BitOf(3, 0) && BitOf(7, 0) && BitOf(0xF, 0);
    assert BitOf(0xFF, 0) && BitOf(0x7F, 0) && BitOf(0x3F, 0) && BitOf(0x1F, 0);
    assert BitOf(3, 1) && BitOf(7, 2) && BitOf(0xF, 3) && BitOf(0x1F, 4) && BitOf(0x3F, 5) && BitOf(0x7F, 6) && BitOf(0xFF, 7);
    assert BitOf(0xFF, 1) && BitOf(0xFF, 2) && BitOf(0xFF, 3) && BitOf(0xFF, 4) && BitOf(0xFF, 5) && BitOf(0xFF, 6);
  }

  // ---- which frames boot leaves free ---------------------------------------------------------------

  /** Frame f lies wholly inside r. */
  predicate Inside(f: nat, r: Region) {
    r.base <= FRAME_SIZE * f && FRAME_SIZE * (f + 1) <= r.base + r.length
  }

  /** Frame f shares a byte with [addr, addr + len). */
  predicate Touches(f: nat, addr: nat, len: nat) {
    FRAME_SIZE * f < addr + len && addr < FRAME_SIZE * (f + 1)
  }

  /** The page-aligned place of the bitmap, just past the kernel image. */
  function BitmapBase(kernelEnd: nat): nat {
    CeilDiv(kernelEnd, FRAME_SIZE) * FRAME_SIZE
  }

  /** What pmm_init must hand out: usable RAM minus everything the kernel needs. */
  ghost predicate FreeAtBoot(regions: seq<Region>, kernelEnd: nat, total: nat, f: nat)
    requires KERNEL_BASE <= kernelEnd
  {
    && (exists k | 0 <= k < |regions| :: Available(regions[k]) && Inside(f, regions[k]))
    && !Touches(f, 0, LOW_MEMORY)
    && !Touches(f, KERNEL_BASE, kernelEnd - KERNEL_BASE)
    && !Touches(f, BitmapBase(kernelEnd), CeilDiv(total, 8))
  }

  /**
   * The frames left free at boot: those inside a region of type 1, from 1 MiB on, off the kernel image
   * [2 MiB, kernelEnd) and off the bitmap, which takes `size` bytes, one for eight frames, from the first
   * page boundary at or past the image on.
   */
  lemma FreeAtBootExactly(regions: seq<Region>, kernelEnd: nat, total: nat, f: nat, base: nat, size: nat)
    requires 0x20_0000 <= kernelEnd <= base < kernelEnd + 4096 && base % 4096 == 0 && total <= 8 * size < total + 8
    ensures FreeAtBoot(regions, kernelEnd, total, f) <==>
      && (exists k | 0 <= k < |regions| :: regions[k].kind == 1 && regions[k].base <= 4096 * f && 4096 * f + 4096 <= regions[k].base + regions[k].length)
      && 4096 * f >= 0x10_0000 && (4096 * f + 4096 <= 0x20_0000 || kernelEnd <= 4096 * f)
      && (4096 * f + 4096 <= base || base + size <= 4096 * f)
  {
    assert BitmapBase(kernelEnd) == base && CeilDiv(total, 8) == size;
  }

  /** One past the highest available byte. */
  function Highest(regions: seq<Region>): (h: nat)
    ensures forall k | 0 <= k < |regions| && Available(regions[k]) :: regions[k].base + regions[k].length <= h
    ensures h == 0 || exists k | 0 <= k < |regions| && Available(regions[k]) :: regions[k].base + regions[k].length == h
  {
    if regions == [] then 0
    else
      var n := |regions| - 1;
      var h := Highest(regions[..n]);
      assert forall k | 0 <= k < n && Available(regions[k]) :: regions[k].base + regions[k].length <= h by {
        forall k | 0 <= k < n && Available(regions[k]) ensures regions[k].base + regions[k].length <= h {
          assert regions[..n][k] == regions[k];
        }
      }
      if Available(regions[n]) && regions[n].base + regions[n].length > h then regions[n].base + regions[n].length else h
  }

  /** Frames covered by rounding a range outwards are the frames it touches (for aligned starts). */
  lemma RoundOut(addr: nat, len: nat, f: nat)
    requires addr % FRAME_SIZE == 0
    ensures (addr / FRAME_SIZE <= f < CeilDiv(addr + len, FRAME_SIZE)) <==> Touches(f, addr, len)
  {
  }

  /** Frames covered by rounding a range inwards are the frames inside it. */
  lemma RoundIn(r: Region, f: nat)
    ensures (CeilDiv(r.base, FRAME_SIZE) <= f < (r.base + r.length) / FRAME_SIZE) <==> Inside(f, r)
  {
  }

  /** The lowest free frame at or above f, or n. */
  function FirstFree(bits: seq<byte>, n: nat, f: nat): (r: nat)
    requires Holds(bits, n) && f <= n
    ensures f <= r <= n
    ensures r < n ==> !Marked(bits, r)
    ensures forall g: nat | f <= g < r :: Marked(bits, g)
    decreases n - f
  {
    if f == n || !Marked(bits, f) then f else FirstFree(bits, n, f + 1)
  }

  class FrameAllocator {
    const bitmap: array<byte>
    const total: nat
    var used: nat

    /** The counter counts the set bits. */
    ghost predicate Counted()
      reads this, bitmap
    {
      Holds(bitmap[..], total) && used == CountUsed(bitmap[..], total)
    }

    /** The counter is right, and no frame of the low megabyte is free. */
    ghost predicate Valid()
      reads this, bitmap
    {
      Counted() && forall f: nat | f < total && f < LOW_MEMORY / FRAME_SIZE :: Marked(bitmap[..], f)
    }

    method MarkUsed(addr: nat, len: nat)
      requires Counted()
      modifies this`used, bitmap
      ensures Counted()
      ensures forall f: nat | f < total ::
        Marked(bitmap[..], f) <==> Marked(old(bitmap[..]), f) || addr / FRAME_SIZE <= f < CeilDiv(addr + len, FRAME_SIZE)
      ensures forall f: nat | f < total :: Marked(bitmap[..], f) <==> Marked(old(bitmap[..]), f) || (4096 * f < addr + len && addr < 4096 * f + 4096)
    {
      var first := addr / FRAME_SIZE;
      var last := CeilDiv(addr + len, FRAME_SIZE);
      var f := first;
      while f < last && f < total
        invariant first <= f && (f <= last || f == first)
        invariant used == CountUsed(bitmap[..], total)
        invariant forall g: nat | g < total :: Marked(bitmap[..], g) <==> Marked(old(bitmap[..]), g) || first <= g < f
      {
        SetBit(f, true);
        f := f + 1;
      }
    }

    method MarkFree(addr: nat, len: nat)
      requires Counted()
      modifies this`used, bitmap
      ensures Counted()
      ensures forall f: nat | f < total ::
        Marked(bitmap[..], f) <==> Marked(old(bitmap[..]), f) && !(CeilDiv(addr, FRAME_SIZE) <= f < (addr + len) / FRAME_SIZE)
      ensures forall f: nat | f < total :: Marked(bitmap[..], f) <==> Marked(old(bitmap[..]), f) && !(addr <= 4096 * f && 4096 * f + 4096 <= addr + len)
    {
      var first := CeilDiv(addr, FRAME_SIZE);
      var last := (addr + len) / FRAME_SIZE;
      var f := first;
      while f < last && f < total
        invariant first <= f && (f <= last || f == first)
        invariant used == CountUsed(bitmap[..], total)
        invariant forall g: nat | g < total :: Marked(bitmap[..], g) <==> Marked(old(bitmap[..]), g) && !(first <= g < f)
      {
        SetBit(f, false);
        f := f + 1;
      }
    }

    /** Set or clear one bit, counting only a real change. */
    method SetBit(f: nat, v: bool)
      requires Counted() && f < total
      modifies this`used, bitmap
      ensures Counted()
      ensures forall g: nat | g < total :: Marked(bitmap[..], g) == if g == f then v else Marked(old(bitmap[..]), g)
    {
      ghost var before := bitmap[..];
      assert Marked(before, f) == BitOf(bitmap[f / 8], f % 8);
      if BitOf(bitmap[f / 8], f % 8) != v {
        bitmap[f / 8] := ByteWith(bitmap[f / 8], f % 8, v);
        ghost var after := if v then Mark(before, f) else Unmark(before, f);
        assert bitmap[..] == after;
        CountAfterChange(before, after, total, f);
        if !v {
          assert CountUsed(after, total) == CountUsed(before, total) - 1;
        }
        used := if v then used + 1 else used - 1;
      }
    }

    /** pmm_init over the available regions of the memory map. */
    constructor (regions: seq<Region>, kernelEnd: nat)
      requires forall k | 0 <= k < |regions| && Available(regions[k]) :: NonWrapping(regions[k])
      requires KERNEL_BASE <= kernelEnd
      ensures Valid() && fresh(bitmap)
      ensures total == Highest(regions) / FRAME_SIZE
      ensures forall f: nat | f < total :: !Marked(bitmap[..], f) <==> FreeAtBoot(regions, kernelEnd, total, f)
    {
      total := Highest(regions) / FRAME_SIZE;
      bitmap := new byte[CeilDiv(Highest(regions) / FRAME_SIZE, 8)](_ => 0xFF);
      used := Highest(regions) / FRAME_SIZE;
      new;
      forall g: nat | g < total ensures Marked(bitmap[..], g) {
        AllOnesMarked(g % 8);
      }
      CountAll(bitmap[..], total);
      FreeRegions(regions);
      ghost var b0 := bitmap[..];
      Reserve(kernelEnd);
      forall f: nat | f < total && f < LOW_MEMORY / FRAME_SIZE ensures Marked(bitmap[..], f) {
        assert Touches(f, 0, LOW_MEMORY);
      }
    }

    /** The end of pmm_init: take back what must never be handed out. */
    method Reserve(kernelEnd: nat)
      requires Counted() && KERNEL_BASE <= kernelEnd
      modifies this`used, bitmap
      ensures Counted()
      ensures forall f: nat | f < total ::
        Marked(bitmap[..], f) <==>
          || Marked(old(bitmap[..]), f) || Touches(f, 0, LOW_MEMORY)
          || Touches(f, KERNEL_BASE, kernelEnd - KERNEL_BASE) || Touches(f, BitmapBase(kernelEnd), CeilDiv(total, 8))
    {
      hide Touches;
      MarkUsed(0, LOW_MEMORY);
      ghost var b1 := bitmap[..];
      MarkUsed(KERNEL_BASE, kernelEnd - KERNEL_BASE);
      ghost var b2 := bitmap[..];
      MarkUsed(BitmapBase(kernelEnd), CeilDiv(total, 8));
      forall f: nat | f < total
        ensures Marked(bitmap[..], f) <==>
          || Marked(old(bitmap[..]), f) || Touches(f, 0, LOW_MEMORY)
          || Touches(f, KERNEL_BASE, kernelEnd - KERNEL_BASE) || Touches(f, BitmapBase(kernelEnd), CeilDiv(total, 8))
      {
        RoundOut(0, LOW_MEMORY, f);
        RoundOut(KERNEL_BASE, kernelEnd - KERNEL_BASE, f);
        RoundOut(BitmapBase(kernelEnd), CeilDiv(total, 8), f);
        assert Marked(b1, f) <==> Marked(old(bitmap[..]), f) || Touches(f, 0, LOW_MEMORY);
        assert Marked(b2, f) <==> Marked(b1, f) || Touches(f, KERNEL_BASE, kernelEnd - KERNEL_BASE);
      }
    }

    /** The pass of pmm_init that frees what the map reports as available. */
    method FreeRegions(regions: seq<Region>)
      requires Counted()
      requires forall g: nat | g < total :: Marked(bitmap[..], g)
      modifies this`used, bitmap
      ensures Counted()
      ensures forall f: nat | f < total ::
        !Marked(bitmap[..], f) <==> exists k | 0 <= k < |regions| :: Available(regions[k]) && Inside(f, regions[k])
    {
      var e := 0;
      while e < |regions|
        invariant 0 <= e <= |regions|
        invariant used == CountUsed(bitmap[..], total)
        invariant forall f: nat | f < total ::
          !Marked(bitmap[..], f) <==> exists k | 0 <= k < e :: Available(regions[k]) && Inside(f, regions[k])
      {
        if Available(regions[e]) {
          ghost var before := bitmap[..];
          MarkFree(regions[e].base, regions[e].length);
          forall f: nat | f < total ensures Marked(bitmap[..], f) <==> Marked(before, f) && !Inside(f, regions[e]) {
            RoundIn(regions[e], f);
          }
        }
        e := e + 1;
      }
    }

    /** pmm_alloc_frame: the address of the lowest free frame, or 0 when none is left. */
    method AllocFrame() returns (addr: nat)
      requires Counted()
      modifies this`used, bitmap
      ensures Counted() && (old(Valid()) ==> Valid())
      ensures var f := FirstFree(old(bitmap[..]), total, 0);
        if f == total then addr == 0 && bitmap[..] == old(bitmap[..])
        else addr == FRAME_SIZE * f && (old(Valid()) ==> addr != 0) && bitmap[..] == Mark(old(bitmap[..]), f)
    {
      var f := 0;
      while f < total
        invariant 0 <= f <= total && bitmap[..] == old(bitmap[..]) && used == old(used)
        invariant FirstFree(old(bitmap[..]), total, 0) == FirstFree(old(bitmap[..]), total, f)
      {
        assert Marked(old(bitmap[..]), f) == BitOf(bitmap[f / 8], f % 8);
        if !BitOf(bitmap[f / 8], f % 8) {
          bitmap[f / 8] := ByteWith(bitmap[f / 8], f % 8, true);
          assert bitmap[..] == Mark(old(bitmap[..]), f);
          CountAfterChange(old(bitmap[..]), bitmap[..], total, f);
          used := used + 1;
          return FRAME_SIZE * f;
        }
        f := f + 1;
      }
      return 0;
    }

    /**
     * pmm_free_frame: a frame in use becomes free; one that is free already, or out of range, is ignored.
     * Freeing a frame of the low megabyte is counted too, but frame 0 could then be handed out.
     */
    method FreeFrame(addr: nat)
      requires Counted()
      modifies this`used, bitmap
      ensures Counted() && (LOW_MEMORY <= addr && old(Valid()) ==> Valid())
      ensures var f := addr / FRAME_SIZE;
        bitmap[..] == if f < total && Marked(old(bitmap[..]), f) then Unmark(old(bitmap[..]), f) else old(bitmap[..])
    {
      var f := addr / FRAME_SIZE;
      if f < total && BitOf(bitmap[f / 8], f % 8) {
        bitmap[f / 8] := ByteWith(bitmap[f / 8], f % 8, false);
        assert bitmap[..] == Unmark(old(bitmap[..]), f);
        CountAfterChange(old(bitmap[..]), bitmap[..], total, f);
        used := used - 1;
      }
    }
  }
}
