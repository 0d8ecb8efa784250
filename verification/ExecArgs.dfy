/** The argument block that exec writes onto the new program's stack. */
module ExecArgs {
  import opened Bytes
  import opened PageTables
  import opened Translations
  import opened Vmm
  import opened VmmClone
  import E = Elf

  const MAX_ARGS := 16
  const MAX_ARG_LEN := 64
  const TOP: nat := E.USER_STACK_TOP
  const BASE: nat := TOP - PAGE_SIZE       // the topmost stack page; the whole block lies in it

  // ---- what exec keeps of its arguments -----------------------------------------------------------

  /** argc, cut to what argbuf holds. */
  function Clamped(argc: int): nat {
    if argc < 0 then 0 else if argc > MAX_ARGS then MAX_ARGS else argc
  }

  /** A C string of at most 63 characters. */
  predicate ShortString(s: seq<byte>) {
    |s| < MAX_ARG_LEN && forall k | 0 <= k < |s| :: s[k] != 0
  }

  /** argv[i] as argbuf holds it: its first 63 characters. */
  function Cut(s: seq<byte>): seq<byte> {
    if |s| < MAX_ARG_LEN then s else s[..MAX_ARG_LEN - 1]
  }

  /** At least argc C strings, given without their NULs. */
  predicate ArgumentsOk(argv: seq<seq<byte>>, argc: int) {
    Clamped(argc) <= |argv| && forall i | 0 <= i < |argv| :: 0 !in argv[i]
  }

  /** What argbuf holds afterwards. */
  function KeptArguments(argv: seq<seq<byte>>, argc: int): seq<seq<byte>>
    requires ArgumentsOk(argv, argc)
  {
    seq(Clamped(argc), i requires 0 <= i < Clamped(argc) => Cut(argv[i]))
  }

  /** The loop that copies argv out of user memory. */
  method CopyArguments(argv: seq<seq<byte>>, argc: int) returns (args: seq<seq<byte>>)
    requires ArgumentsOk(argv, argc)
    ensures args == KeptArguments(argv, argc) && |args| == Clamped(argc) <= MAX_ARGS
    ensures |args| == if argc < 0 then 0 else if argc > 16 then 16 else argc
    ensures forall i | 0 <= i < |args| :: ShortString(args[i]) && args[i] <= argv[i] && (|args[i]| == 63 || args[i] == argv[i])
  {
    args := [];
    var i := 0;
    while i < Clamped(argc)
      invariant 0 <= i <= Clamped(argc) && |args| == i
      invariant forall k | 0 <= k < i :: args[k] == Cut(argv[k]) && ShortString(args[k])
      invariant forall k | 0 <= k < i :: args[k] <= argv[k] && (|args[k]| == 63 || args[k] == argv[k])
    {
      var buf: seq<byte> := [];
      var j := 0;
      while j < |argv[i]| && j < MAX_ARG_LEN - 1
        invariant 0 <= j <= |argv[i]| && j < MAX_ARG_LEN && buf == argv[i][..j]
      {
        buf := buf + [argv[i][j]];
        j := j + 1;
      }
      assert buf == Cut(argv[i]);
      args := args + [buf];
      i := i + 1;
    }
  }

  // ---- what the new program finds -------------------------------------------------------------------

  /** Address a is that of a C string s in the page. */
  predicate PointsTo(page: seq<byte>, a: nat, s: seq<byte>) {
    && |page| == PAGE_SIZE && BASE <= a && a + |s| < TOP
    && page[a - BASE..a - BASE + |s|] == s && page[a - BASE + |s|] == 0
  }

  /** The 64-bit word at address a. */
  function PointerAt(page: seq<byte>, a: nat): nat
    requires |page| == PAGE_SIZE && BASE <= a && a + 8 <= TOP
  {
    E.Quad(page, a - BASE)
  }

  /** argv[0] to argv[argc - 1] point to the arguments, and argv[argc] is null. */
  predicate Argv(page: seq<byte>, argv: nat, args: seq<seq<byte>>) {
    && |page| == PAGE_SIZE && BASE <= argv && argv + 8 * (|args| + 1) <= TOP
    && (forall i | 0 <= i < |args| :: PointsTo(page, PointerAt(page, argv + 8 * i), args[i]))
    && PointerAt(page, argv + 8 * |args|) == 0
  }

  /** The string a program reads from address a on. */
  function ReadString(page: seq<byte>, off: nat): seq<byte>
    requires off <= |page|
    decreases |page| - off
  {
    if off == |page| || page[off] == 0 then [] else [page[off]] + ReadString(page, off + 1)
  }

  lemma {:induction false} ReadsBack(page: seq<byte>, off: nat, s: seq<byte>)
    requires off + |s| < |page| && page[off..off + |s|] == s && page[off + |s|] == 0
    requires forall k | 0 <= k < |s| :: s[k] != 0
    ensures ReadString(page, off) == s
    decreases |s|
  {
    if s != [] {
      assert page[off] == s[0] && page[off + 1..off + |s|] == s[1..];
      ReadsBack(page, off + 1, s[1..]);
    }
  }

  /** A program that follows its argv reads exactly the arguments exec kept. */
  lemma ArgvReads(page: seq<byte>, argv: nat, args: seq<seq<byte>>, i: nat)
    requires Argv(page, argv, args) && i < |args| && ShortString(args[i])
    ensures var a := PointerAt(page, argv + 8 * i);
      && BASE <= a && a + |args[i]| < TOP && ReadString(page, a - BASE) == args[i]
      && page[a - BASE..a - BASE + |args[i]|] == args[i] && page[a - BASE + |args[i]|] == 0
    ensures PointerAt(page, argv + 8 * |args|) == 0
  {
    assert PointsTo(page, PointerAt(page, argv + 8 * i), args[i]);
    ReadsBack(page, PointerAt(page, argv + 8 * i) - BASE, args[i]);
  }

  // ---- the layout ---------------------------------------------------------------------------------------

  /** The strings from i on are in place, each above sp. */
  predicate Strings(page: seq<byte>, args: seq<seq<byte>>, uarg: seq<nat>, i: nat, sp: nat) {
    && |uarg| == |args|
    && forall k | i <= k < |args| :: PointsTo(page, uarg[k], args[k]) && sp <= uarg[k]
  }

  lemma StringsBelow(a: seq<byte>, b: seq<byte>, args: seq<seq<byte>>, uarg: seq<nat>, i: nat, sp: nat)
    requires Strings(a, args, uarg, i, sp) && BASE <= sp <= TOP && |a| == |b| == PAGE_SIZE && a[sp - BASE..] == b[sp - BASE..]
    ensures Strings(b, args, uarg, i, sp)
  {
    forall k | i <= k < |args| ensures PointsTo(b, uarg[k], args[k]) {
      assert PointsTo(a, uarg[k], args[k]);
      assert forall y | uarg[k] - BASE <= y <= uarg[k] - BASE + |args[k]| :: b[y] == b[sp - BASE..][y - (sp - BASE)] && a[y] == a[sp - BASE..][y - (sp - BASE)];
    }
  }

  /** The inner loop: one string and its NUL at sp. */
  method CopyString(page: seq<byte>, sp: nat, s: seq<byte>) returns (r: seq<byte>)
    requires |page| == PAGE_SIZE && BASE <= sp && sp + |s| < TOP
    ensures |r| == PAGE_SIZE && PointsTo(r, sp, s)
    ensures r[..sp - BASE] == page[..sp - BASE] && r[sp - BASE + |s| + 1..] == page[sp - BASE + |s| + 1..]
  {
    r := page;
    var buf, b := s + [0], 0;
    while b < |buf|
      invariant 0 <= b <= |buf| && |r| == PAGE_SIZE
      invariant forall k | 0 <= k < PAGE_SIZE :: r[k] == if sp - BASE <= k < sp - BASE + b then buf[k - (sp - BASE)] else page[k]
    {
      r := r[sp - BASE + b := buf[b]];
      b := b + 1;
    }
  }

  /** The strings, last argument first, from the top of the stack down. */
  method LayStrings(page: seq<byte>, args: seq<seq<byte>>) returns (r: seq<byte>, uarg: seq<nat>, sp: nat)
    requires |page| == PAGE_SIZE && |args| <= MAX_ARGS && forall i | 0 <= i < |args| :: ShortString(args[i])
    ensures TOP - MAX_ARGS * MAX_ARG_LEN <= sp <= TOP && |r| == PAGE_SIZE && r[..sp - BASE] == page[..sp - BASE]
    ensures Strings(r, args, uarg, 0, sp)
  {
    r, uarg, sp := page, seq(|args|, _ => 0), TOP;
    var i := |args|;
    while i > 0
      invariant 0 <= i <= |args| && |uarg| == |args| && |r| == PAGE_SIZE
      invariant TOP - (|args| - i) * MAX_ARG_LEN <= sp <= TOP && r[..sp - BASE] == page[..sp - BASE]
      invariant Strings(r, args, uarg, i, sp)
    {
      i := i - 1;
      ghost var before, from := r, sp;
      sp := sp - (|args[i]| + 1);
      r := CopyString(r, sp, args[i]);
      StringsBelow(before, r, args, uarg, i + 1, from);
      uarg := uarg[i := sp];
      assert r[..sp - BASE] == before[..from - BASE][..sp - BASE] == page[..sp - BASE];
    }
  }

  /** A 64-bit store. */
  function PutPointer(page: seq<byte>, off: nat, w: nat): (r: seq<byte>)
    requires off + 8 <= |page| && w < 0x1_0000_0000_0000_0000
    ensures |r| == |page| && E.Quad(r, off) == w
    ensures forall k | 0 <= k < |page| && !(off <= k < off + 8) :: r[k] == page[k]
  {
    PutWordElsewhere(PutWord(page, off, w % 0x1_0000_0000), off + 4, w / 0x1_0000_0000, off);
    PutWord(PutWord(page, off, w % 0x1_0000_0000), off + 4, w / 0x1_0000_0000)
  }

  /** The pointer array at uargv, null at its end. */
  method LayPointers(page: seq<byte>, uarg: seq<nat>, uargv: nat) returns (r: seq<byte>)
    requires |page| == PAGE_SIZE && BASE <= uargv && uargv + 8 * (|uarg| + 1) <= TOP
    requires forall i | 0 <= i < |uarg| :: uarg[i] <= TOP
    ensures |r| == PAGE_SIZE && PointerAt(r, uargv + 8 * |uarg|) == 0
    ensures forall i | 0 <= i < |uarg| :: PointerAt(r, uargv + 8 * i) == uarg[i]
    ensures r[..uargv - BASE] == page[..uargv - BASE]
    ensures r[uargv - BASE + 8 * (|uarg| + 1)..] == page[uargv - BASE + 8 * (|uarg| + 1)..]
  {
    hide PutPointer, E.Quad;
    r := page;
    var i := 0;
    while i < |uarg|
      invariant 0 <= i <= |uarg| && |r| == PAGE_SIZE
      invariant forall k | 0 <= k < i :: PointerAt(r, uargv + 8 * k) == uarg[k]
      invariant forall k | 0 <= k < PAGE_SIZE && !(uargv - BASE <= k < uargv - BASE + 8 * i) :: r[k] == page[k]
    {
      ghost var before := r;
      r := PutPointer(r, uargv - BASE + 8 * i, uarg[i]);
      SamePointers(before, r, uargv, i);
      i := i + 1;
    }
    ghost var before := r;
    r := PutPointer(r, uargv - BASE + 8 * i, 0);
    SamePointers(before, r, uargv, i);
  }

  lemma SamePointers(a: seq<byte>, b: seq<byte>, uargv: nat, n: nat)
    requires |a| == |b| == PAGE_SIZE && BASE <= uargv && uargv + 8 * n <= TOP
    requires forall k | 0 <= k < uargv - BASE + 8 * n :: b[k] == a[k]
    ensures forall i | 0 <= i < n :: PointerAt(b, uargv + 8 * i) == PointerAt(a, uargv + 8 * i)
  {
    forall i | 0 <= i < n ensures PointerAt(b, uargv + 8 * i) == PointerAt(a, uargv + 8 * i) {
      var off := uargv + 8 * i - BASE;
      assert forall k | off <= k < off + 8 :: b[k] == a[k];
    }
  }

  /**
   * The argument block: strings from the top down, below them the pointer array, below that the
   * 16-aligned stack pointer the program starts with. What lies under the block is untouched.
   */
  method LayArguments(page: seq<byte>, args: seq<seq<byte>>) returns (r: seq<byte>, uargv: nat, sp: nat)
    requires |page| == PAGE_SIZE && |args| <= MAX_ARGS && forall i | 0 <= i < |args| :: ShortString(args[i])
    ensures |r| == PAGE_SIZE && Argv(r, uargv, args) && BASE < sp <= uargv < sp + 16 && sp % 16 == 0
    ensures r[..sp - BASE] == page[..sp - BASE]
  {
    hide Strings, PointsTo, PointerAt, E.Quad;
    var uarg;
    r, uarg, sp := LayStrings(page, args);
    ghost var strings, from := r, sp;
    sp := sp / 16 * 16;
    sp := sp - (|args| + 1) * 8;
    uargv := sp;
    UargBounds(r, args, uarg, from);
    r := LayPointers(r, uarg, uargv);
    sp := sp / 16 * 16;
    ghost var end := uargv - BASE + 8 * (|args| + 1);
    assert r[from - BASE..] == r[end..][from - BASE - end..] == strings[end..][from - BASE - end..] == strings[from - BASE..];
    StringsBelow(strings, r, args, uarg, 0, from);
    FromStrings(r, args, uarg, from, uargv);
    assert r[..sp - BASE] == r[..uargv - BASE][..sp - BASE] == strings[..uargv - BASE][..sp - BASE] == strings[..from - BASE][..sp - BASE];
    assert page[..from - BASE][..sp - BASE] == page[..sp - BASE];
  }

  lemma UargBounds(page: seq<byte>, args: seq<seq<byte>>, uarg: seq<nat>, sp: nat)
    requires Strings(page, args, uarg, 0, sp)
    ensures |uarg| == |args| && forall i | 0 <= i < |uarg| :: uarg[i] <= TOP
  {
    assert forall i | 0 <= i < |uarg| :: PointsTo(page, uarg[i], args[i]);
  }

  lemma FromStrings(page: seq<byte>, args: seq<seq<byte>>, uarg: seq<nat>, sp: nat, uargv: nat)
    requires Strings(page, args, uarg, 0, sp) && |page| == PAGE_SIZE && BASE <= uargv && uargv + 8 * (|args| + 1) <= TOP
    requires forall i | 0 <= i < |args| :: PointerAt(page, uargv + 8 * i) == uarg[i]
    requires PointerAt(page, uargv + 8 * |args|) == 0
    ensures Argv(page, uargv, args)
  {
    hide PointsTo, PointerAt;
  }

  // ---- on the stack of a space ----------------------------------------------------------------------------

  /** The topmost stack page of a space. */
  function TopPage(space: nat): (n: Node)
    ensures FullPath(n.path)
  {
    Node(space, PathOf(E.STACK_FIRST + 3))
  }

  /** The program in `space` finds these arguments at address argv. */
  ghost predicate Delivered(s: VM, space: nat, argv: nat, args: seq<seq<byte>>) {
    ContentOf(s, TopPage(space)).Page? && Argv(ContentOf(s, TopPage(space)).bytes, argv, args)
  }

  /** Only the page n holds something else. */
  ghost predicate OnlyPage(s: VM, t: VM, n: Node) {
    && t.at == s.at && t.own == s.own && t.kroot == s.kroot
    && (forall m :: m in s.at && m != n ==> ContentOf(t, m) == ContentOf(s, m))
    && (forall m :: EntryOf(t, m) == EntryOf(s, m))
  }

  /** exec writes the block through the new space's own translation of the stack top. */
  method WriteArguments(v: AddressSpaces, space: nat, args: seq<seq<byte>>) returns (uargv: nat, sp: nat)
    requires v.Valid() && Node(space, []) in v.at && space != v.kernelPml4 && TopPage(space) in v.at
    requires |args| <= MAX_ARGS && forall i | 0 <= i < |args| :: ShortString(args[i])
    modifies v.mem
    ensures v.Valid() && OnlyPage(old(v.State()), v.State(), TopPage(space))
    ensures Delivered(v.State(), space, uargv, args) && sp <= uargv < sp + 16 && sp % 16 == 0
  {
    hide Inv, EntryAt, EntryOf, Walk, Argv, ShortString, PathOf;
    ghost var s := v.State();
    PageNoOfPath(E.STACK_FIRST + 3);
    WalkFindsPages(s, space, PathOf(E.STACK_FIRST + 3));
    PageThere(s, TopPage(space));
    var f := Walk(v.mem[..], space, PathOf(E.STACK_FIRST + 3)).frame;
    var page;
    page, uargv, sp := LayArguments(v.mem[f].bytes, args);
    v.mem[f] := Page(page);
    PageWriteInv(s, TopPage(space), page);
    assert v.State() == VM(Put(s.mem, f, Page(page)), s.at, s.own, s.kroot);
  }

  // ---- what the program's loads return -----------------------------------------------------------------------

  /** The byte that a load from address a gives under the tables of `root`. */
  function ByteSeen(mem: seq<Frame>, root: nat, a: nat): byte {
    var w := Walk(mem, root, Indices(a));
    if w.Mapped? && w.frame < |mem| && mem[w.frame].Page? then mem[w.frame].bytes[a % 4096] else 0
  }

  lemma TopSeen(s: VM, space: nat, a: nat)
    requires Inv(s) && Node(space, []) in s.at && space != s.kroot && TopPage(space) in s.at && BASE <= a < TOP
    ensures ContentOf(s, TopPage(space)).Page? && ByteSeen(s.mem, space, a) == ContentOf(s, TopPage(space)).bytes[a - BASE]
  {
    hide Inv, EntryOf, Walk, Indices;
    PageOfAddress(a);
    assert a / 4096 == E.STACK_FIRST + 3;
    PageNoOfPath(E.STACK_FIRST + 3);
    WalkFindsPages(s, space, PathOf(E.STACK_FIRST + 3));
    PageThere(s, TopPage(space));
  }

  /** argv[i], loaded byte by byte, is the address of the i-th argument kept, NUL included. */
  lemma ArgumentSeen(s: VM, space: nat, argv: nat, args: seq<seq<byte>>, i: nat) returns (p: nat)
    requires Inv(s) && Node(space, []) in s.at && space != s.kroot && TopPage(space) in s.at
    requires Delivered(s, space, argv, args) && i < |args|
    ensures p == WordSeen(s.mem, space, argv + 8 * i)
    ensures forall j | 0 <= j < |args[i]| :: ByteSeen(s.mem, space, p + j) == args[i][j]
    ensures ByteSeen(s.mem, space, p + |args[i]|) == 0
  {
    hide Inv, ByteSeen, ContentOf, E.Quad;
    var page := ContentOf(s, TopPage(space)).bytes;
    p := PointerAt(page, argv + 8 * i);
    WordIs(s, space, argv + 8 * i);
    assert PointsTo(page, p, args[i]);
    forall j | 0 <= j < |args[i]| ensures ByteSeen(s.mem, space, p + j) == args[i][j] {
      TopSeen(s, space, p + j);
      assert page[p - BASE..p - BASE + |args[i]|][j] == args[i][j];
    }
    TopSeen(s, space, p + |args[i]|);
  }

  /** argv[argc] is null. */
  lemma NullSeen(s: VM, space: nat, argv: nat, args: seq<seq<byte>>)
    requires Inv(s) && Node(space, []) in s.at && space != s.kroot && TopPage(space) in s.at && Delivered(s, space, argv, args)
    ensures WordSeen(s.mem, space, argv + 8 * |args|) == 0
  {
    hide Inv, ByteSeen, ContentOf, E.Quad, PointsTo;
    WordIs(s, space, argv + 8 * |args|);
  }

  /** The little-endian 64-bit word that a load from address a gives. */
  function WordSeen(mem: seq<Frame>, root: nat, a: nat): nat {
    ByteSeen(mem, root, a) as nat + 0x100 * ByteSeen(mem, root, a + 1) as nat +
      0x1_0000 * ByteSeen(mem, root, a + 2) as nat + 0x100_0000 * ByteSeen(mem, root, a + 3) as nat +
      0x1_0000_0000 * (ByteSeen(mem, root, a + 4) as nat + 0x100 * ByteSeen(mem, root, a + 5) as nat +
        0x1_0000 * ByteSeen(mem, root, a + 6) as nat + 0x100_0000 * ByteSeen(mem, root, a + 7) as nat)
  }

  lemma WordIs(s: VM, space: nat, a: nat)
    requires Inv(s) && Node(space, []) in s.at && space != s.kroot && TopPage(space) in s.at && BASE <= a && a + 8 <= TOP
    ensures ContentOf(s, TopPage(space)).Page? && PointerAt(ContentOf(s, TopPage(space)).bytes, a) == WordSeen(s.mem, space, a)
  {
    hide Inv, ByteSeen, ContentOf;
    TopSeen(s, space, a);
    TopSeen(s, space, a + 1);
    TopSeen(s, space, a + 2);
    TopSeen(s, space, a + 3);
    TopSeen(s, space, a + 4);
    TopSeen(s, space, a + 5);
    TopSeen(s, space, a + 6);
    TopSeen(s, space, a + 7);
  }
}
