/** elf_load: the memory image of a program, built page by page in a new address space. */
module Elf {
  import opened Bytes
  import opened PageTables
  import opened Translations
  import opened Vmm
  import opened VmmClone

  const PT_LOAD := 1
  const USER_FLAGS: bv12 := PRESENT | WRITABLE | USER
  const USER_STACK_TOP := 0x80_0010_0000
  const USER_STACK_SIZE := 0x4000

  // ---- the file ------------------------------------------------------------------------------

  function Quad(s: seq<byte>, off: nat): nat
    requires off + 8 <= |s|
  {
    GetWord(s, off) + 0x1_0000_0000 * GetWord(s, off + 4)
  }

  function Half(s: seq<byte>, off: nat): nat
    requires off + 2 <= |s|
  {
    var lo: int := s[off];
    var hi: int := s[off + 1];
    lo + 0x100 * hi
  }

  /** The fields of a program header that loading looks at. */
  datatype Segment = Segment(kind: nat, offset: nat, vaddr: nat, filesz: nat, memsz: nat)

  predicate GoodMagic(elf: seq<byte>) {
    |elf| >= 64 && elf[0] == 0x7F && elf[1] == 0x45 && elf[2] == 0x4C && elf[3] == 0x46 && elf[4] == 2
  }

  function PhOff(elf: seq<byte>): nat requires |elf| >= 64 { Quad(elf, 32) }
  function PhNum(elf: seq<byte>): nat requires |elf| >= 64 { Half(elf, 56) }
  function Entry(elf: seq<byte>): nat requires |elf| >= 64 { Quad(elf, 24) }

  /** The header table lies inside the file. */
  predicate TableInside(elf: seq<byte>) {
    |elf| >= 64 && PhOff(elf) + 56 * PhNum(elf) <= |elf|
  }

  function SegmentAt(elf: seq<byte>, i: nat): Segment
    requires TableInside(elf) && i < PhNum(elf)
  {
    var at := PhOff(elf) + 56 * i;
    Segment(GetWord(elf, at), Quad(elf, at + 8), Quad(elf, at + 16), Quad(elf, at + 32), Quad(elf, at + 40))
  }

  // ---- where the fields lie ------------------------------------------------------------------

  function HalfBytes(w: nat): (r: seq<byte>)
    requires w < 0x1_0000
    ensures |r| == 2
  {
    [w % 0x100, w / 0x100]
  }

  function QuadBytes(w: nat): (r: seq<byte>)
    requires w < 0x1_0000_0000_0000_0000
    ensures |r| == 8
  {
    WordBytes(w % 0x1_0000_0000) + WordBytes(w / 0x1_0000_0000)
  }

  lemma QuadAt(s: seq<byte>, off: nat, w: nat)
    requires off + 8 <= |s| && w < 0x1_0000_0000_0000_0000 && s[off..off + 8] == QuadBytes(w)
    ensures Quad(s, off) == w
  {
    assert s[off..off + 4] == QuadBytes(w)[..4] && s[off + 4..off + 8] == QuadBytes(w)[4..];
    WordAt(s, off, w % 0x1_0000_0000);
    WordAt(s, off + 4, w / 0x1_0000_0000);
  }

  /** The fields of the file header, in the order and with the widths of Elf64_Ehdr. */
  lemma FileHeader(ident: seq<byte>, kind: seq<byte>, machine: seq<byte>, version: seq<byte>, entry: nat, phoff: nat, shoff: seq<byte>,
                   flags: seq<byte>, ehsize: seq<byte>, phentsize: seq<byte>, phnum: nat, rest: seq<byte>)
    requires |ident| == 16 && |kind| == 2 && |machine| == 2 && |version| == 4 && |shoff| == 8 && |flags| == 4 && |ehsize| == 2 && |phentsize| == 2
    requires entry < 0x1_0000_0000_0000_0000 && phoff < 0x1_0000_0000_0000_0000 && phnum < 0x1_0000 && |rest| >= 6
    ensures var elf := ident + kind + machine + version + QuadBytes(entry) + QuadBytes(phoff) + shoff + flags + ehsize + phentsize + HalfBytes(phnum) + rest;
      |elf| >= 64 && Entry(elf) == entry && PhOff(elf) == phoff && PhNum(elf) == phnum
  {
    var elf := ident + kind + machine + version + QuadBytes(entry) + QuadBytes(phoff) + shoff + flags + ehsize + phentsize + HalfBytes(phnum) + rest;
    assert elf[24..32] == QuadBytes(entry) && elf[32..40] == QuadBytes(phoff) && elf[56..58] == HalfBytes(phnum);
    hide QuadBytes, Quad;
    QuadAt(elf, 24, entry);
    QuadAt(elf, 32, phoff);
    assert elf[56] == HalfBytes(phnum)[0] && elf[57] == HalfBytes(phnum)[1];
  }

  /** The fields of program header i, in the order and with the widths of Elf64_Phdr. */
  lemma ProgramHeader(elf: seq<byte>, i: nat, kind: u32, flags: seq<byte>, offset: nat, vaddr: nat, paddr: seq<byte>, filesz: nat, memsz: nat, align: seq<byte>)
    requires TableInside(elf) && i < PhNum(elf) && |flags| == 4 && |paddr| == 8 && |align| == 8
    requires offset < 0x1_0000_0000_0000_0000 && vaddr < 0x1_0000_0000_0000_0000
    requires filesz < 0x1_0000_0000_0000_0000 && memsz < 0x1_0000_0000_0000_0000
    requires elf[PhOff(elf) + 56 * i..PhOff(elf) + 56 * i + 56] ==
      WordBytes(kind) + flags + QuadBytes(offset) + QuadBytes(vaddr) + paddr + QuadBytes(filesz) + QuadBytes(memsz) + align
    ensures SegmentAt(elf, i) == Segment(kind, offset, vaddr, filesz, memsz)
  {
    hide QuadBytes, Quad, WordBytes, PhOff, PhNum;
    var at := PhOff(elf) + 56 * i;
    var h := elf[at..at + 56];
    assert h[0..4] == WordBytes(kind) && h[8..16] == QuadBytes(offset) && h[16..24] == QuadBytes(vaddr);
    assert h[32..40] == QuadBytes(filesz) && h[40..48] == QuadBytes(memsz);
    assert elf[at..at + 4] == h[0..4] && elf[at + 8..at + 16] == h[8..16] && elf[at + 16..at + 24] == h[16..24];
    assert elf[at + 32..at + 40] == h[32..40] && elf[at + 40..at + 48] == h[40..48];
    WordAt(elf, at, kind);
    QuadAt(elf, at + 8, offset);
    QuadAt(elf, at + 16, vaddr);
    QuadAt(elf, at + 32, filesz);
    QuadAt(elf, at + 40, memsz);
  }

  function FirstPage(g: Segment): nat { g.vaddr / PAGE_SIZE }
  function EndPage(g: Segment): nat { (g.vaddr + g.memsz + 0xFFF) / PAGE_SIZE }

  /** A loadable segment keeps to the user half and to the file. */
  predicate SegmentOk(elf: seq<byte>, g: Segment) {
    g.kind == PT_LOAD ==>
      && USER_FIRST_PAGE <= FirstPage(g) && EndPage(g) <= USER_END_PAGE
      && g.offset + g.filesz <= |elf|
  }

  predicate Covers(g: Segment, page: nat) {
    g.kind == PT_LOAD && FirstPage(g) <= page < EndPage(g)
  }

  /** What elf_load takes for granted: its headers are readable and its segments share no page. */
  ghost predicate Loadable(elf: seq<byte>) {
    && TableInside(elf)
    && (forall i | 0 <= i < PhNum(elf) :: SegmentOk(elf, SegmentAt(elf, i)))
    && (forall i, j, page: nat | 0 <= i < j < PhNum(elf) :: !(Covers(SegmentAt(elf, i), page) && Covers(SegmentAt(elf, j), page)))
  }

  /** The byte that segment g puts at address a: its file byte, or zero. */
  function ImageByte(elf: seq<byte>, g: Segment, a: nat): byte {
    if g.vaddr <= a < g.vaddr + g.filesz && g.offset + (a - g.vaddr) < |elf| then elf[g.offset + (a - g.vaddr)] else 0
  }

  function PageImage(elf: seq<byte>, g: Segment, page: nat): (r: seq<byte>)
    ensures |r| == PAGE_SIZE
    ensures forall off | 0 <= off < PAGE_SIZE :: r[off] == ImageByte(elf, g, page * PAGE_SIZE + off)
  {
    seq<byte>(PAGE_SIZE, off requires 0 <= off < PAGE_SIZE => ImageByte(elf, g, page * PAGE_SIZE + off))
  }

  /** The tables and pages that segment g needs. */
  ghost function SegmentPaths(g: Segment): set<Path> {
    set x: nat, k: nat | FirstPage(g) <= x < EndPage(g) && 1 <= k <= 4 && g.kind == PT_LOAD :: PathOf(x)[..k]
  }

  /** The root, tables and pages that the first n segments need; a table shared by pages counts once. */
  ghost function ImagePaths(elf: seq<byte>, n: nat): set<Path>
    requires TableInside(elf) && n <= PhNum(elf)
  {
    if n == 0 then {[]} else ImagePaths(elf, n - 1) + SegmentPaths(SegmentAt(elf, n - 1))
  }

  lemma PagePaths(g: Segment, x: nat)
    requires Covers(g, x) && FullPath(PathOf(x))
    ensures {PathOf(x)[..1], PathOf(x)[..2], PathOf(x)[..3], PathOf(x)} <= SegmentPaths(g)
  {
    hide Indices;
    assert forall k: nat | 1 <= k <= 4 :: PathOf(x)[..k] in SegmentPaths(g);
    assert PathOf(x)[..4] == PathOf(x);
  }

  lemma {:induction false} ImagePathsGrow(elf: seq<byte>, n: nat, m: nat)
    requires TableInside(elf) && n <= m <= PhNum(elf)
    ensures ImagePaths(elf, n) <= ImagePaths(elf, m)
    ensures n < m ==> SegmentPaths(SegmentAt(elf, n)) <= ImagePaths(elf, m)
    decreases m - n
  {
    hide SegmentAt, SegmentPaths;
    if n < m {
      ImagePathsGrow(elf, n + 1, m);
    }
  }

  // ---- the image under construction ------------------------------------------------------------------

  /** The first n segments cover page. */
  ghost predicate CoveredBy(elf: seq<byte>, n: nat, page: nat)
    requires TableInside(elf) && n <= PhNum(elf)
  {
    exists i | 0 <= i < n :: Covers(SegmentAt(elf, i), page)
  }

  /** Page q of the space is exactly what segment g puts there, open to user mode for writing. */
  ghost predicate PageLoaded(elf: seq<byte>, g: Segment, t: VM, space: nat, q: Path)
    requires FullPath(q)
  {
    && Node(space, q) in t.at
    && EntryOf(t, Node(space, q)).flags == USER_FLAGS
    && ContentOf(t, Node(space, q)) == Page(PageImage(elf, g, PageNo(q)))
  }

  /** The space holds the image of the first n segments and nothing else. */
  ghost predicate Loaded(elf: seq<byte>, n: nat, t: VM, space: nat)
    requires TableInside(elf) && n <= PhNum(elf)
  {
    && (forall q | FullPath(q) :: Node(space, q) in t.at <==> CoveredBy(elf, n, PageNo(q)))
    && (forall i, q | 0 <= i < n && FullPath(q) && Covers(SegmentAt(elf, i), PageNo(q)) :: PageLoaded(elf, SegmentAt(elf, i), t, space, q))
  }

  /** Between segments: pages of g from its first up to `page` have been added to what s held. */
  ghost predicate Loading(elf: seq<byte>, g: Segment, page: nat, s: VM, t: VM, space: nat) {
    && GrewUnder(s, t, space, [])
    && (forall q | FullPath(q) :: Node(space, q) in t.at <==> Node(space, q) in s.at || FirstPage(g) <= PageNo(q) < page)
    && (forall q | FullPath(q) && FirstPage(g) <= PageNo(q) < page :: PageLoaded(elf, g, t, space, q))
  }

  lemma LoadingStep(elf: seq<byte>, g: Segment, page: nat, s: VM, a: VM, b: VM, space: nat)
    requires Loading(elf, g, page, s, a, space) && GrewUnder(a, b, space, PathOf(page))
    requires FirstPage(g) <= page < USER_END_PAGE && PageLoaded(elf, g, b, space, PathOf(page))
    requires forall n :: n in b.at ==> |n.path| <= 4
    ensures Loading(elf, g, page + 1, s, b, space)
  {
    hide EntryOf, ContentOf, PageImage, Indices;
    var p := PathOf(page);
    PageNoOfPath(page);
    GrewUnderShorter(a, b, space, [], p);
    GrewUnderTransitive(s, a, b, space, []);
    forall q | FullPath(q)
      ensures Node(space, q) in b.at <==> Node(space, q) in a.at || PageNo(q) == page
    {
      PathOfPageNo(q);
      if Node(space, q) in b.at && Node(space, q) !in a.at {
        assert q == p;
      }
      if PageNo(q) == page {
        assert q == p;
      }
    }
    forall q | FullPath(q) && FirstPage(g) <= PageNo(q) < page + 1 ensures PageLoaded(elf, g, b, space, q) {
      PathOfPageNo(q);
      if PageNo(q) != page {
        assert PageLoaded(elf, g, a, space, q);
      }
    }
  }

  lemma LoadingStart(elf: seq<byte>, g: Segment, s: VM, space: nat)
    ensures Loading(elf, g, FirstPage(g), s, s, space)
  {
    hide EntryOf, ContentOf, PageImage;
  }

  lemma LoadedStep(elf: seq<byte>, n: nat, s: VM, t: VM, space: nat)
    requires Loadable(elf) && n < PhNum(elf) && Loaded(elf, n, s, space) && SegmentAt(elf, n).kind == PT_LOAD
    requires Loading(elf, SegmentAt(elf, n), EndPage(SegmentAt(elf, n)), s, t, space) || (EndPage(SegmentAt(elf, n)) <= FirstPage(SegmentAt(elf, n)) && t == s)
    ensures Loaded(elf, n + 1, t, space)
  {
    hide EntryOf, ContentOf, PageImage, PageNo, SegmentAt;
    var g := SegmentAt(elf, n);
    forall q | FullPath(q) ensures Node(space, q) in t.at <==> CoveredBy(elf, n + 1, PageNo(q)) {
      CoveredStep(elf, n, PageNo(q));
    }
    forall i, q | 0 <= i < n + 1 && FullPath(q) && Covers(SegmentAt(elf, i), PageNo(q))
      ensures PageLoaded(elf, SegmentAt(elf, i), t, space, q)
    {
      if i < n {
        assert PageLoaded(elf, SegmentAt(elf, i), s, space, q);
      }
    }
  }

  lemma CoveredStep(elf: seq<byte>, n: nat, page: nat)
    requires TableInside(elf) && n < PhNum(elf)
    ensures CoveredBy(elf, n + 1, page) <==> CoveredBy(elf, n, page) || Covers(SegmentAt(elf, n), page)
  {
    hide SegmentAt, Covers;
  }

  lemma LoadedSkip(elf: seq<byte>, n: nat, t: VM, space: nat)
    requires Loadable(elf) && n < PhNum(elf) && Loaded(elf, n, t, space) && SegmentAt(elf, n).kind != PT_LOAD
    ensures Loaded(elf, n + 1, t, space)
  {
    hide EntryOf, ContentOf, PageImage, PageNo, SegmentAt;
    forall q | FullPath(q) ensures CoveredBy(elf, n + 1, PageNo(q)) <==> CoveredBy(elf, n, PageNo(q)) {
      CoveredStep(elf, n, PageNo(q));
    }
  }

  // ---- loading --------------------------------------------------------------------------------------

  /** A page's frame, zeroed and filled with whatever file bytes fall on it, mapped at va. */
  method LoadPage(v: AddressSpaces, space: nat, elf: seq<byte>, g: Segment, va: nat)
    requires v.Valid() && Node(space, []) in v.at && space != v.kernelPml4
    requires va % PAGE_SIZE == 0 && USER_FIRST_PAGE <= va / PAGE_SIZE < USER_END_PAGE && Node(space, PathOf(va / PAGE_SIZE)) !in v.at
    requires v.pmm.used + 1 + Missing(v.at, space, PathOf(va / PAGE_SIZE)) <= v.pmm.total
    requires g.offset + g.filesz <= |elf|
    modifies v`at, v`own, v`loose, v.pmm`used, v.pmm.bitmap, v.mem
    ensures v.Valid() && v.loose == old(v.loose)
    ensures GrewUnder(old(v.State()), v.State(), space, PathOf(va / PAGE_SIZE))
    ensures PageLoaded(elf, g, v.State(), space, PathOf(va / PAGE_SIZE))
    ensures Fresh(old(v.pmm.bitmap[..]), v.pmm.bitmap[..], v.pmm.total, old(v.at), v.at)
  {
    hide AddressSpaces.Valid, Inv, Grew, GrewUnder, EntryOf, EntryAt, ContentOf, Marked, Indices, PageImage, LooseOnly, Missing;
    v.ValidParts();
    ghost var page := va / PAGE_SIZE;
    assert va == page * PAGE_SIZE;
    PageNoOfPath(page);
    ghost var s0 := v.State();
    var f := v.AllocFrame();
    FillPage(v, f, elf, g, va);
    ghost var s1 := v.State();
    v.MapIn(space, va, f, USER_FLAGS);
    KeepFlags();
    MappedGrewUnder(s1, v.State(), space, PathOf(page));
    LooseOnlyGrew(s0, s1, v.State(), space, PathOf(page));
    v.ValidParts();
  }

  lemma KeepFlags()
    ensures USER_FLAGS | PRESENT == USER_FLAGS
  {
  }

  /** New nodes took frames that were free before, and no frame in use was released. */
  ghost predicate Fresh(b0: seq<byte>, b1: seq<byte>, total: nat, at0: map<Node, nat>, at1: map<Node, nat>) {
    && |b0| == |b1|
    && (forall n | n in at1 && n !in at0 :: at1[n] < total && at1[n] / 8 < |b0| && !Marked(b0, at1[n]))
    && (forall f: nat | f < total && f / 8 < |b0| && Marked(b0, f) :: Marked(b1, f))
  }

  /** The two inner loops of elf_load: zero the frame, then copy the file bytes that fall on it. */
  method FillPage(v: AddressSpaces, f: nat, elf: seq<byte>, g: Segment, va: nat)
    requires v.Valid() && f in v.loose && f < v.mem.Length && va % PAGE_SIZE == 0 && g.offset + g.filesz <= |elf|
    modifies v.mem
    ensures v.Valid() && v.mem[..] == old(v.mem[..])[f := Page(PageImage(elf, g, va / PAGE_SIZE))]
    ensures v.mem[f].Page? && forall off | 0 <= off < PAGE_SIZE ::
      v.mem[f].bytes[off] == if g.vaddr <= va + off < g.vaddr + g.filesz then elf[g.offset + (va + off - g.vaddr)] else 0
    ensures LooseOnly(old(v.State()), v.State())
  {
    hide Inv, EntryAt, EntryOf, ContentOf;
    var bytes: seq<byte> := if v.mem[f].Page? then v.mem[f].bytes else seq(PAGE_SIZE, _ => 0);
    var b := 0;
    while b < PAGE_SIZE
      invariant 0 <= b <= PAGE_SIZE && |bytes| == PAGE_SIZE && v.mem[..] == old(v.mem[..])
      invariant forall k | 0 <= k < b :: bytes[k] == 0
    {
      bytes := bytes[b := 0];
      b := b + 1;
    }
    var off := 0;
    while off < PAGE_SIZE
      invariant 0 <= off <= PAGE_SIZE && |bytes| == PAGE_SIZE && v.mem[..] == old(v.mem[..])
      invariant forall k | 0 <= k < PAGE_SIZE :: bytes[k] == if k < off then ImageByte(elf, g, va + k) else 0
    {
      var a := va + off;
      if a >= g.vaddr && a < g.vaddr + g.filesz {
        bytes := bytes[off := elf[g.offset + (a - g.vaddr)]];
      }
      off := off + 1;
    }
    assert bytes == PageImage(elf, g, va / PAGE_SIZE) by { assert va == va / PAGE_SIZE * PAGE_SIZE; }
    ghost var s := v.State();
    v.mem[f] := Page(bytes);
    LooseWriteInv(s, f, Page(bytes));
    assert v.State() == VM(Put(s.mem, f, Page(bytes)), s.at, s.own, s.kroot);
  }

  lemma AllShort(s: VM)
    requires Inv(s)
    ensures forall n :: n in s.at ==> |n.path| <= 4
  {
  }

  /** The page loop of one PT_LOAD segment. */
  method LoadSegment(v: AddressSpaces, space: nat, elf: seq<byte>, g: Segment, ghost allowed: set<Path>)
    requires v.Valid() && Node(space, []) in v.at && space != v.kernelPml4
    requires g.kind == PT_LOAD && SegmentOk(elf, g)
    requires SegmentPaths(g) <= allowed && Budget(v.at, |v.reserved| + |v.loose|, v.pmm.total, space, allowed)
    requires forall q | FullPath(q) && FirstPage(g) <= PageNo(q) < EndPage(g) :: Node(space, q) !in v.at
    modifies v`at, v`own, v`loose, v.pmm`used, v.pmm.bitmap, v.mem
    ensures v.Valid() && v.loose == old(v.loose) && Budget(v.at, |v.reserved| + |v.loose|, v.pmm.total, space, allowed)
    ensures FirstPage(g) <= EndPage(g) ==> Loading(elf, g, EndPage(g), old(v.State()), v.State(), space)
    ensures EndPage(g) < FirstPage(g) ==> v.State() == old(v.State())
    ensures Fresh(old(v.pmm.bitmap[..]), v.pmm.bitmap[..], v.pmm.total, old(v.at), v.at)
  {
    hide AddressSpaces.Valid, Inv, GrewUnder, EntryOf, EntryAt, ContentOf, Marked, PageLoaded, Indices, PageNo, Budget, SegmentPaths, Missing, Fresh, Loading;
    ghost var s, b0 := v.State(), v.pmm.bitmap[..];
    NothingFresh(b0, v.pmm.total, v.at);
    var start := g.vaddr / PAGE_SIZE * PAGE_SIZE;
    var end := (g.vaddr + g.memsz + 0xFFF) / PAGE_SIZE * PAGE_SIZE;
    LoadingStart(elf, g, s, space);
    var va := start;
    while va < end
      invariant va % PAGE_SIZE == 0 && FirstPage(g) <= va / PAGE_SIZE && (va / PAGE_SIZE <= EndPage(g) || va == start)
      invariant v.Valid() && v.loose == old(v.loose) && Node(space, []) in v.at && v.kernelPml4 == s.kroot
      invariant Budget(v.at, |v.reserved| + |v.loose|, v.pmm.total, space, allowed)
      invariant Loading(elf, g, va / PAGE_SIZE, s, v.State(), space)
      invariant Fresh(b0, v.pmm.bitmap[..], v.pmm.total, s.at, v.at)
      invariant va == start ==> v.State() == s
      decreases end - va
    {
      ghost var page := va / PAGE_SIZE;
      ghost var a, b1 := v.State(), v.pmm.bitmap[..];
      NotYetLoaded(elf, g, page, s, a, space);
      PageNoOfPath(page);
      PagePaths(g, page);
      v.RoomFor(space, allowed, PathOf(page));
      LoadPage(v, space, elf, g, va);
      v.ValidParts();
      PageInBudget(v, a, space, PathOf(page), allowed);
      AllShort(v.State());
      LoadingStep(elf, g, page, s, a, v.State(), space);
      GrewKeeps(a, v.State(), space, PathOf(page));
      FreshTwice(b0, b1, v.pmm.bitmap[..], v.pmm.total, s.at, a.at, v.at);
      va := va + PAGE_SIZE;
    }
  }

  /** A page within the budget leaves the space within it. */
  lemma PageInBudget(v: AddressSpaces, a: VM, space: nat, p: Path, allowed: set<Path>)
    requires Inv(v.State()) && GrewUnder(a, v.State(), space, p) && FullPath(p) && {p[..1], p[..2], p[..3], p} <= allowed
    requires Budget(a.at, |v.reserved| + |v.loose|, v.pmm.total, space, allowed)
    ensures Budget(v.at, |v.reserved| + |v.loose|, v.pmm.total, space, allowed)
  {
    hide Inv, Budget, EntryOf, ContentOf;
    forall n | n in v.at && n !in a.at ensures n.root == space && n.path in allowed {
      NodeBound(v.State(), n);
      PrefixOf(n.path, p);
    }
    BudgetKept(a.at, v.at, |v.reserved| + |v.loose|, v.pmm.total, space, allowed);
  }

  lemma NotYetLoaded(elf: seq<byte>, g: Segment, page: nat, s: VM, t: VM, space: nat)
    requires Loading(elf, g, page, s, t, space) && FirstPage(g) <= page < USER_END_PAGE && page < EndPage(g)
    requires forall q | FullPath(q) && FirstPage(g) <= PageNo(q) < EndPage(g) :: Node(space, q) !in s.at
    ensures Node(space, PathOf(page)) !in t.at
  {
    hide GrewUnder, PageLoaded, Indices, PageNo;
    PageNoOfPath(page);
  }

  lemma GrewKeeps(s: VM, t: VM, space: nat, p: Path)
    requires GrewUnder(s, t, space, p)
    ensures forall n | n in s.at :: n in t.at && t.at[n] == s.at[n]
    ensures t.kroot == s.kroot
  {
  }

  lemma NothingFresh(b: seq<byte>, total: nat, at: map<Node, nat>)
    ensures Fresh(b, b, total, at, at)
  {
  }

  lemma FreshTwice(b0: seq<byte>, b1: seq<byte>, b2: seq<byte>, total: nat, at0: map<Node, nat>, at1: map<Node, nat>, at2: map<Node, nat>)
    requires Fresh(b0, b1, total, at0, at1) && Fresh(b1, b2, total, at1, at2) && forall n | n in at1 :: n in at2 && at2[n] == at1[n]
    ensures Fresh(b0, b2, total, at0, at2)
  {
    hide Marked;
  }

  /** Only the space `space` is new; everything older is in place with its content. */
  ghost predicate OnlyNewSpace(s: VM, t: VM, space: nat) {
    && Untouched(s, t) && t.kroot == s.kroot
    && (forall n :: n in s.at ==> n.root != space)
    && (forall n :: n in t.at && n !in s.at ==> n.root == space)
    && Node(space, []) in t.at
  }

  /** elf_load: null for a file that is no 64-bit ELF, otherwise a space holding exactly its image. */
  method ElfLoad(v: AddressSpaces, elf: seq<byte>, ghost allowed: set<Path>) returns (space: nat, entry: nat)
    requires v.Valid() && |elf| >= 64
    requires GoodMagic(elf) ==> Loadable(elf) && ImagePaths(elf, PhNum(elf)) <= allowed && v.pmm.used + |allowed| <= v.pmm.total
    modifies v`at, v`own, v`loose, v.pmm`used, v.pmm.bitmap, v.mem
    ensures v.Valid() && v.loose == old(v.loose)
    ensures space != 0 <==> GoodMagic(elf)
    ensures space != 0 <==> elf[0] == 0x7F && elf[1] == 0x45 && elf[2] == 0x4C && elf[3] == 0x46 && elf[4] == 2
    ensures space == 0 ==> v.State() == old(v.State()) && v.pmm.bitmap[..] == old(v.pmm.bitmap[..]) && v.pmm.used == old(v.pmm.used)
    ensures space != 0 ==>
      && Loaded(elf, PhNum(elf), v.State(), space) && entry == Entry(elf)
      && OnlyNewSpace(old(v.State()), v.State(), space) && space != v.kernelPml4
      && Budget(v.at, |v.reserved| + |v.loose|, v.pmm.total, space, allowed)
  {
    hide AddressSpaces.Valid, GrewUnder, EntryOf, EntryAt, ContentOf, Marked, Loaded, Loading, Untouched, OnlyNewSpace, SegmentAt;
    hide Budget, ImagePaths, SegmentPaths;
    space, entry := 0, 0;
    if elf[0] != 0x7F || elf[1] != 0x45 || elf[2] != 0x4C || elf[3] != 0x46 {
      return;
    }
    if elf[4] != 2 {
      return;
    }
    ghost var s0 := v.State();
    RootAllowed(elf, allowed);
    v.UsedIsKnown();
    space := v.CreateSpace();
    BudgetStart(s0.at, |v.reserved| + |v.loose|, v.pmm.total, space, allowed);
    NotFrameZero(v, space);
    ghost var s1 := v.State();
    NothingLoaded(elf, s0, s1, space);
    GrewUnderRefl(s1, space, []);
    var i := 0;
    while i < PhNum(elf)
      invariant 0 <= i <= PhNum(elf) && v.Valid() && v.loose == old(v.loose)
      invariant Loaded(elf, i, v.State(), space) && GrewUnder(s1, v.State(), space, []) && v.kernelPml4 == s1.kroot
      invariant Budget(v.at, |v.reserved| + |v.loose|, v.pmm.total, space, allowed)
    {
      ghost var a := v.State();
      var g := SegmentAt(elf, i);
      GrewKeeps(s1, a, space, []);
      ImagePathsGrow(elf, i, PhNum(elf));
      if g.kind == PT_LOAD {
        NextSegmentFree(elf, i, a, space);
        LoadSegment(v, space, elf, g, allowed);
        if FirstPage(g) <= EndPage(g) {
          LoadingGrew(elf, g, EndPage(g), a, v.State(), space);
        } else {
          GrewUnderRefl(a, space, []);
        }
        LoadedStep(elf, i, a, v.State(), space);
        GrewUnderTransitive(s1, a, v.State(), space, []);
      } else {
        LoadedSkip(elf, i, a, space);
      }
      i := i + 1;
    }
    entry := Entry(elf);
    NewSpaceOnly(s0, s1, v.State(), space);
  }

  lemma RootAllowed(elf: seq<byte>, allowed: set<Path>)
    requires TableInside(elf) && ImagePaths(elf, PhNum(elf)) <= allowed
    ensures [] in allowed && |allowed| >= 1
  {
    hide SegmentPaths;
    ImagePathsGrow(elf, 0, PhNum(elf));
  }

  lemma NothingLoaded(elf: seq<byte>, s: VM, t: VM, space: nat)
    requires TableInside(elf) && SpaceAdded(s, t, space)
    ensures Loaded(elf, 0, t, space)
  {
    hide EntryOf, ContentOf;
    forall q | FullPath(q) ensures Node(space, q) !in t.at {
      assert q != [];
    }
  }

  lemma LoadingGrew(elf: seq<byte>, g: Segment, page: nat, s: VM, t: VM, space: nat)
    requires Loading(elf, g, page, s, t, space)
    ensures GrewUnder(s, t, space, [])
  {
    hide GrewUnder, PageLoaded;
  }

  /** The next segment's pages are still free, since no earlier segment covers them. */
  lemma NextSegmentFree(elf: seq<byte>, n: nat, t: VM, space: nat)
    requires Loadable(elf) && n < PhNum(elf) && Loaded(elf, n, t, space)
    ensures var g := SegmentAt(elf, n);
      g.kind == PT_LOAD ==> forall q | FullPath(q) && FirstPage(g) <= PageNo(q) < EndPage(g) :: Node(space, q) !in t.at
  {
    hide EntryOf, ContentOf, PageNo, SegmentAt, PageImage;
  }

  lemma NewSpaceOnly(s: VM, s1: VM, t: VM, space: nat)
    requires SpaceAdded(s, s1, space) && GrewUnder(s1, t, space, [])
    ensures OnlyNewSpace(s, t, space)
  {
    hide EntryOf, ContentOf;
  }

  /** A segment's pages are those that share a byte with its memory, or hold its start inside them. */
  lemma CoversExactly(g: Segment, page: nat)
    ensures Covers(g, page) <==> g.kind == 1 && g.vaddr < 4096 * page + 4096 && 4096 * page < g.vaddr + g.memsz
  {
  }

  /**
   * The image as the program sees it: on every page that segment i reaches into, the processor finds a
   * user-writable page whose every byte is the file's byte inside the segment's file part and zero
   * elsewhere, up to the end of the page.
   */
  lemma ImageSeen(elf: seq<byte>, t: VM, space: nat, page: nat, i: nat)
    requires Inv(t) && Loadable(elf) && Loaded(elf, PhNum(elf), t, space) && Node(space, []) in t.at && space != t.kroot
    requires i < PhNum(elf) && SegmentAt(elf, i).kind == 1
    requires SegmentAt(elf, i).vaddr < 4096 * page + 4096 && 4096 * page < SegmentAt(elf, i).vaddr + SegmentAt(elf, i).memsz
    ensures var w, g := Walk(t.mem, space, PathOf(page)), SegmentAt(elf, i);
      && w.Mapped? && w.user && w.writable && w.frame < |t.mem| && t.mem[w.frame].Page? && g.offset + g.filesz <= |elf|
      && forall off | 0 <= off < 4096 :: t.mem[w.frame].bytes[off] ==
           if g.vaddr <= page * 4096 + off < g.vaddr + g.filesz then elf[g.offset + (page * 4096 + off - g.vaddr)] else 0
  {
    hide Inv, EntryAt, EntryOf, SegmentAt, Indices, PageNo, PageLoaded, Walk;
    var g := SegmentAt(elf, i);
    CoversExactly(g, page);
    LoadableSegment(elf, i, page);
    PageNoOfPath(page);
    assert PageLoaded(elf, g, t, space, PathOf(page));
    LoadedSeen(elf, g, t, space, page);
  }

  /** A user page that no loadable segment reaches into is not mapped. */
  lemma NothingElseSeen(elf: seq<byte>, t: VM, space: nat, page: nat)
    requires Inv(t) && Loadable(elf) && Loaded(elf, PhNum(elf), t, space) && Node(space, []) in t.at && space != t.kroot
    requires USER_FIRST_PAGE <= page < USER_END_PAGE
    requires forall i | 0 <= i < PhNum(elf) && SegmentAt(elf, i).kind == 1 ::
      SegmentAt(elf, i).vaddr >= 4096 * page + 4096 || 4096 * page >= SegmentAt(elf, i).vaddr + SegmentAt(elf, i).memsz
    ensures Walk(t.mem, space, PathOf(page)) == Unmapped
  {
    hide Inv, EntryAt, EntryOf, SegmentAt, Indices, PageNo, PageLoaded, Walk;
    PageNoOfPath(page);
    forall i | 0 <= i < PhNum(elf) ensures !Covers(SegmentAt(elf, i), page) {
      CoversExactly(SegmentAt(elf, i), page);
    }
    WalkFindsPages(t, space, PathOf(page));
  }

  /** A page loaded from segment g, as the processor finds it. */
  lemma LoadedSeen(elf: seq<byte>, g: Segment, t: VM, space: nat, page: nat)
    requires Inv(t) && Node(space, []) in t.at && space != t.kroot && USER_FIRST_PAGE <= page < USER_END_PAGE
    requires PageLoaded(elf, g, t, space, PathOf(page)) && g.offset + g.filesz <= |elf|
    ensures var w := Walk(t.mem, space, PathOf(page));
      && w.Mapped? && w.user && w.writable && w.frame < |t.mem| && t.mem[w.frame].Page?
      && forall off | 0 <= off < 4096 :: t.mem[w.frame].bytes[off] ==
           if g.vaddr <= page * 4096 + off < g.vaddr + g.filesz then elf[g.offset + (page * 4096 + off - g.vaddr)] else 0
  {
    hide Inv, EntryAt, EntryOf, Indices, PageNo, PageImage, Walk;
    PageNoOfPath(page);
    WalkFindsPages(t, space, PathOf(page));
    PageThere(t, Node(space, PathOf(page)));
    UserFlagBits(EntryOf(t, Node(space, PathOf(page))));
  }

  lemma LoadableSegment(elf: seq<byte>, i: nat, page: nat)
    requires Loadable(elf) && i < PhNum(elf) && Covers(SegmentAt(elf, i), page)
    ensures SegmentAt(elf, i).offset + SegmentAt(elf, i).filesz <= |elf| && USER_FIRST_PAGE <= page < USER_END_PAGE
  {
    hide SegmentAt;
  }

  lemma UserFlagBits(e: PTE)
    requires e.flags == USER_FLAGS
    ensures User(e) && Writable(e) && Present(e)
  {
  }

  // ---- the user stack ---------------------------------------------------------------------------------

  predicate StackPage(page: nat) {
    (USER_STACK_TOP - USER_STACK_SIZE) / PAGE_SIZE <= page < USER_STACK_TOP / PAGE_SIZE
  }

  /** The tables and pages of the user stack. */
  ghost function StackPaths(): set<Path> {
    set x: nat, k: nat | STACK_FIRST <= x < STACK_FIRST + 4 && 1 <= k <= 4 :: PathOf(x)[..k]
  }

  lemma StackPagePaths(x: nat)
    requires STACK_FIRST <= x < STACK_FIRST + 4 && FullPath(PathOf(x))
    ensures {PathOf(x)[..1], PathOf(x)[..2], PathOf(x)[..3], PathOf(x)} <= StackPaths()
  {
    hide Indices;
    assert forall k: nat | 1 <= k <= 4 :: PathOf(x)[..k] in StackPaths();
    assert PathOf(x)[..4] == PathOf(x);
  }

  /** The stack loop of spawn and exec: four pages below USER_STACK_TOP, their bytes whatever the frames held. */
  method MapStack(v: AddressSpaces, space: nat, ghost allowed: set<Path>)
    requires v.Valid() && Node(space, []) in v.at && space != v.kernelPml4
    requires StackPaths() <= allowed && Budget(v.at, |v.reserved| + |v.loose|, v.pmm.total, space, allowed)
    requires forall q | FullPath(q) && StackPage(PageNo(q)) :: Node(space, q) !in v.at
    modifies v`at, v`own, v`loose, v.pmm`used, v.pmm.bitmap, v.mem
    ensures v.Valid() && v.loose == old(v.loose)
    ensures GrewUnder(old(v.State()), v.State(), space, [])
    ensures forall q | FullPath(q) :: Node(space, q) in v.at <==> Node(space, q) in old(v.at) || StackPage(PageNo(q))
    ensures forall q | FullPath(q) && StackPage(PageNo(q)) :: EntryOf(v.State(), Node(space, q)).flags == USER_FLAGS
  {
    hide Inv, GrewUnder, EntryOf, EntryAt, ContentOf, Marked, Indices, PageNo, Budget, StackPaths, Missing;
    ghost var s := v.State();
    GrewUnderRefl(s, space, []);
    var off := 0;
    while off < USER_STACK_SIZE
      invariant off % PAGE_SIZE == 0 && 0 <= off <= USER_STACK_SIZE
      invariant v.Valid() && v.loose == old(v.loose) && Budget(v.at, |v.reserved| + |v.loose|, v.pmm.total, space, allowed)
      invariant GrewUnder(s, v.State(), space, []) && v.kernelPml4 == s.kroot
      invariant StackTo(s, v.State(), space, off / PAGE_SIZE)
      decreases USER_STACK_SIZE - off
    {
      ghost var a := v.State();
      GrewKeeps(s, a, space, []);
      ghost var x := STACK_FIRST + off / PAGE_SIZE;
      NextStackPage(s, a, space, off / PAGE_SIZE);
      PageNoOfPath(x);
      StackPagePaths(x);
      v.RoomFor(space, allowed, PathOf(x));
      MapAnyPage(v, space, USER_STACK_TOP - USER_STACK_SIZE + off);
      PageInBudget(v, a, space, PathOf(x), allowed);
      AllShort(v.State());
      StackStep(s, a, v.State(), space, off / PAGE_SIZE);
      off := off + PAGE_SIZE;
    }
  }

  const STACK_FIRST := 0x800_00FC      // (USER_STACK_TOP - USER_STACK_SIZE) / 4096

  ghost predicate StackTo(s: VM, t: VM, space: nat, k: nat) {
    && (forall q | FullPath(q) :: Node(space, q) in t.at <==> Node(space, q) in s.at || STACK_FIRST <= PageNo(q) < STACK_FIRST + k)
    && (forall q | FullPath(q) && STACK_FIRST <= PageNo(q) < STACK_FIRST + k && Node(space, q) !in s.at :: EntryOf(t, Node(space, q)).flags == USER_FLAGS)
  }

  lemma NextStackPage(s: VM, t: VM, space: nat, k: nat)
    requires StackTo(s, t, space, k) && k < 4
    requires forall q | FullPath(q) && StackPage(PageNo(q)) :: Node(space, q) !in s.at
    ensures Node(space, PathOf(STACK_FIRST + k)) !in t.at
  {
    hide EntryOf, Indices, PageNo;
    PageNoOfPath(STACK_FIRST + k);
  }

  lemma StackStep(s: VM, a: VM, b: VM, space: nat, k: nat)
    requires StackTo(s, a, space, k) && k < 4 && GrewUnder(s, a, space, []) && GrewUnder(a, b, space, PathOf(STACK_FIRST + k))
    requires Node(space, PathOf(STACK_FIRST + k)) in b.at && EntryOf(b, Node(space, PathOf(STACK_FIRST + k))).flags == USER_FLAGS
    requires forall n :: n in b.at ==> |n.path| <= 4
    ensures StackTo(s, b, space, k + 1) && GrewUnder(s, b, space, [])
  {
    hide EntryOf, ContentOf, Indices;
    var p := PathOf(STACK_FIRST + k);
    PageNoOfPath(STACK_FIRST + k);
    GrewUnderShorter(a, b, space, [], p);
    GrewUnderTransitive(s, a, b, space, []);
    forall q | FullPath(q)
      ensures Node(space, q) in b.at <==> Node(space, q) in a.at || PageNo(q) == STACK_FIRST + k
      ensures PageNo(q) == STACK_FIRST + k ==> q == p
    {
      PathOfPageNo(q);
      if Node(space, q) in b.at && Node(space, q) !in a.at {
        assert q == p;
      }
    }
  }

  /** A frame with unknown contents mapped at va for the user. */
  method MapAnyPage(v: AddressSpaces, space: nat, va: nat)
    requires v.Valid() && Node(space, []) in v.at && space != v.kernelPml4
    requires va % PAGE_SIZE == 0 && USER_FIRST_PAGE <= va / PAGE_SIZE < USER_END_PAGE && Node(space, PathOf(va / PAGE_SIZE)) !in v.at
    requires v.pmm.used + 1 + Missing(v.at, space, PathOf(va / PAGE_SIZE)) <= v.pmm.total
    modifies v`at, v`own, v`loose, v.pmm`used, v.pmm.bitmap, v.mem
    ensures v.Valid() && v.loose == old(v.loose)
    ensures GrewUnder(old(v.State()), v.State(), space, PathOf(va / PAGE_SIZE))
    ensures Node(space, PathOf(va / PAGE_SIZE)) in v.at
    ensures EntryOf(v.State(), Node(space, PathOf(va / PAGE_SIZE))).flags == USER_FLAGS
  {
    hide Inv, Grew, GrewUnder, EntryOf, EntryAt, ContentOf, Marked, Indices, LooseOnly, Missing;
    ghost var page := va / PAGE_SIZE;
    assert va == page * PAGE_SIZE;
    PageNoOfPath(page);
    ghost var s0 := v.State();
    var f := v.AllocPage();
    ghost var s1 := v.State();
    LooseOnlyPut(s0, s1);
    v.MapIn(space, va, f, USER_FLAGS);
    KeepFlags();
    MappedGrewUnder(s1, v.State(), space, PathOf(page));
    LooseOnlyGrew(s0, s1, v.State(), space, PathOf(page));
  }

  lemma LooseOnlyPut(s: VM, t: VM)
    requires t.at == s.at && t.own == s.own && t.kroot == s.kroot && |t.mem| == |s.mem|
    requires forall n :: n in s.at ==> ContentOf(t, n) == ContentOf(s, n)
    requires forall n, y: nat :: EntryAt(t, n, y) == EntryAt(s, n, y)
    ensures LooseOnly(s, t)
  {
    hide EntryAt, ContentOf;
  }
}
