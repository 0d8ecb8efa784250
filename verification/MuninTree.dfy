/** Directories of munin: entries packed in blocks, and the tree they form. */
module MuninTree {
  import opened Bytes
  import opened MuninState
  import opened MuninFiles

  const DIRENT_SIZE := 36
  const DIRENTS_PER_BLOCK := 14
  const SLOTS := 112             // DIRECT * DIRENTS_PER_BLOCK
  const MAX_NAME := 32
  const NO_ENTRY: u32 := 0xFFFF_FFFF

  type Name = seq<byte>
  type Path = seq<Name>

  // ---- one directory entry ------------------------------------------------------------------

  /** The bytes of s before the first NUL. */
  function CStr(s: seq<byte>): (r: Name)
    ensures |r| <= |s| && r == s[..|r|]
    ensures |r| < |s| ==> s[|r|] == 0
    ensures forall k | 0 <= k < |r| :: r[k] != 0
  {
    if s == [] || s[0] == 0 then [] else [s[0]] + CStr(s[1..])
  }

  function EntryInode(b: Block, k: int): u32
    requires 0 <= k < DIRENTS_PER_BLOCK
  {
    GetWord(b, DIRENT_SIZE * k)
  }

  function EntryName(b: Block, k: int): Name
    requires 0 <= k < DIRENTS_PER_BLOCK
  {
    CStr(b[DIRENT_SIZE * k + 4..DIRENT_SIZE * k + 36])
  }

  /** The child in slot q of directory d, or NO_ENTRY. */
  function Ent(fs: FS, d: int, q: int): u32
    requires 0 <= d < MAX_INODES && 0 <= q < SLOTS
  {
    var s := fs.inodes[d].blocks[q / DIRENTS_PER_BLOCK];
    if s < NUM_BLOCKS then EntryInode(fs.blocks[s], q % DIRENTS_PER_BLOCK) else NO_ENTRY
  }

  function EntName(fs: FS, d: int, q: int): Name
    requires 0 <= d < MAX_INODES && 0 <= q < SLOTS
  {
    var s := fs.inodes[d].blocks[q / DIRENTS_PER_BLOCK];
    if s < NUM_BLOCKS then EntryName(fs.blocks[s], q % DIRENTS_PER_BLOCK) else []
  }

  ghost function Occupied(fs: FS, d: int): set<int>
    requires 0 <= d < MAX_INODES
  {
    set q | 0 <= q < SLOTS && Ent(fs, d, q) != NO_ENTRY
  }

  // ---- the tree ---------------------------------------------------------------------------------

  datatype Home = Home(dir: int, slot: int)

  /**
   * The directory graph is a tree rooted at inode 0. `path` gives every named inode its
   * component sequence, `home` the one slot that names it.
   */
  ghost predicate TreeInv(fs: FS, path: map<int, Path>, home: map<int, Home>) {
    && IsDir(fs, ROOT) && ROOT in path && path[ROOT] == []
    && home.Keys == path.Keys - {ROOT}
    && (forall c | c in path :: Live(fs, c))
    && (forall i | Live(fs, i) :: IsFile(fs, i) || IsDir(fs, i))
    && (forall c | c in home :: HomeOk(fs, path, c, home[c]))
    && (forall d, q | IsDir(fs, d) && 0 <= q < SLOTS && Ent(fs, d, q) != NO_ENTRY ::
          Ent(fs, d, q) in home && home[Ent(fs, d, q)] == Home(d, q))
    && (forall d | IsDir(fs, d) :: NamesOk(fs, d))
  }

  ghost predicate HomeOk(fs: FS, path: map<int, Path>, c: int, h: Home) {
    && IsDir(fs, h.dir) && 0 <= h.slot < SLOTS && h.dir in path && c in path
    && Ent(fs, h.dir, h.slot) == c
    && path[c] == path[h.dir] + [EntName(fs, h.dir, h.slot)]
  }

  /** Names in one directory are terminated, non-empty and distinct, and its size counts them. */
  ghost predicate NamesOk(fs: FS, d: int)
    requires 0 <= d < MAX_INODES
  {
    && (forall q | 0 <= q < SLOTS && Ent(fs, d, q) != NO_ENTRY :: 0 < |EntName(fs, d, q)| < MAX_NAME)
    && (forall q, r | 0 <= q < SLOTS && 0 <= r < SLOTS && Ent(fs, d, q) != NO_ENTRY && Ent(fs, d, r) != NO_ENTRY
          && EntName(fs, d, q) == EntName(fs, d, r) :: q == r)
    && fs.inodes[d].size == |Occupied(fs, d)|
  }

  /** Every inode in use has a name. */
  ghost predicate AllNamed(fs: FS, path: map<int, Path>) {
    forall i :: Live(fs, i) ==> i in path
  }

  // ---- resolution ----------------------------------------------------------------------------------

  /** Slot q of directory d names something, and names it name. */
  predicate Names(fs: FS, d: int, q: int, name: Name)
    requires 0 <= d < MAX_INODES && 0 <= q < SLOTS
  {
    Ent(fs, d, q) != NO_ENTRY && EntName(fs, d, q) == name
  }

  /** The first slot of d at or after q that names name, or SLOTS. */
  function FindFrom(fs: FS, d: int, name: Name, q: int): (r: int)
    requires 0 <= d < MAX_INODES && 0 <= q <= SLOTS
    ensures q <= r <= SLOTS
    ensures r < SLOTS ==> Names(fs, d, r, name)
    ensures forall s | q <= s < r :: !Names(fs, d, s, name)
    decreases SLOTS - q
  {
    hide Names;
    if q == SLOTS || Names(fs, d, q, name) then q else FindFrom(fs, d, name, q + 1)
  }

  /** dir_lookup: the child of d called name, or -1. */
  function Child(fs: FS, d: int, name: Name): int
    requires 0 <= d < MAX_INODES
  {
    if FindFrom(fs, d, name, 0) == SLOTS then -1 else Ent(fs, d, FindFrom(fs, d, name, 0))
  }

  /** The inode reached from cur by following comps, or -1. */
  function ResolveFrom(fs: FS, cur: int, comps: Path): int
    decreases |comps|
  {
    if comps == [] then cur
    else if !IsDir(fs, cur) then -1
    else if Child(fs, cur, comps[0]) < 0 then -1
    else ResolveFrom(fs, Child(fs, cur, comps[0]), comps[1..])
  }

  /** The finite map from component sequences to inodes; -1 where it is undefined. */
  function Resolve(fs: FS, comps: Path): int {
    ResolveFrom(fs, ROOT, comps)
  }

  lemma {:induction false} ResolveAppend(fs: FS, cur: int, a: Path, b: Path)
    requires cur >= 0
    ensures ResolveFrom(fs, cur, a + b) ==
      if ResolveFrom(fs, cur, a) < 0 then -1 else ResolveFrom(fs, ResolveFrom(fs, cur, a), b)
    decreases |a|
  {
    if a == [] {
      assert a + b == b;
    } else {
      assert (a + b)[0] == a[0] && (a + b)[1..] == a[1..] + b;
      if IsDir(fs, cur) && Child(fs, cur, a[0]) >= 0 {
        ResolveAppend(fs, Child(fs, cur, a[0]), a[1..], b);
      }
    }
  }

  lemma ChildOfSlot(fs: FS, d: int, q: int)
    requires 0 <= d < MAX_INODES && NamesOk(fs, d) && 0 <= q < SLOTS && Ent(fs, d, q) != NO_ENTRY
    ensures Child(fs, d, EntName(fs, d, q)) == Ent(fs, d, q)
  {
    hide Ent, EntName;
    assert Names(fs, d, q, EntName(fs, d, q));
  }

  lemma ChildIsHome(fs: FS, path: map<int, Path>, home: map<int, Home>, d: int, q: int)
    requires TreeInv(fs, path, home) && IsDir(fs, d) && 0 <= q < SLOTS && Ent(fs, d, q) != NO_ENTRY
    ensures Child(fs, d, EntName(fs, d, q)) == Ent(fs, d, q)
    ensures Ent(fs, d, q) in path && d in path && path[Ent(fs, d, q)] == path[d] + [EntName(fs, d, q)]
  {
    hide Ent, EntName, Child, NamesOk;
    assert HomeOk(fs, path, Ent(fs, d, q), home[Ent(fs, d, q)]);
    ChildOfSlot(fs, d, q);
  }

  /** Every named inode is found under its own path. */
  lemma {:induction false} ResolveFindsPath(fs: FS, path: map<int, Path>, home: map<int, Home>, c: int)
    requires TreeInv(fs, path, home) && c in path
    ensures Resolve(fs, path[c]) == c
    decreases |path[c]|
  {
    if c != ROOT {
      var h := home[c];
      assert HomeOk(fs, path, c, h);
      ResolveFindsPath(fs, path, home, h.dir);
      var n := EntName(fs, h.dir, h.slot);
      ResolveAppend(fs, ROOT, path[h.dir], [n]);
      ChildIsHome(fs, path, home, h.dir, h.slot);
      assert ResolveFrom(fs, h.dir, [n]) == ResolveFrom(fs, c, []);
    }
  }

  /** Whatever is found is named, under the path that found it. */
  lemma {:induction false} ResolveFindsNamed(fs: FS, path: map<int, Path>, home: map<int, Home>, cur: int, comps: Path)
    requires TreeInv(fs, path, home) && cur in path && ResolveFrom(fs, cur, comps) >= 0
    ensures ResolveFrom(fs, cur, comps) in path
    ensures path[ResolveFrom(fs, cur, comps)] == path[cur] + comps
    decreases |comps|
  {
    hide TreeInv, Ent, EntName;
    if comps == [] {
      assert path[cur] + [] == path[cur];
    } else {
      var q := FindFrom(fs, cur, comps[0], 0);
      ChildIsHome(fs, path, home, cur, q);
      var c := Child(fs, cur, comps[0]);
      ResolveFindsNamed(fs, path, home, c, comps[1..]);
      assert path[c] + comps[1..] == path[cur] + comps;
    }
  }

  /** Resolution is exactly the inverse of `path`: the paths of a tree are distinct. */
  lemma ResolveIsInverse(fs: FS, path: map<int, Path>, home: map<int, Home>, comps: Path, c: int)
    requires TreeInv(fs, path, home) && c >= 0
    ensures Resolve(fs, comps) == c <==> c in path && path[c] == comps
  {
    if Resolve(fs, comps) == c {
      ResolveFindsNamed(fs, path, home, ROOT, comps);
      assert [] + comps == comps;
    }
    if c in path && path[c] == comps {
      ResolveFindsPath(fs, path, home, c);
    }
  }

  lemma {:induction false} ResolveNegative(fs: FS, cur: int, comps: Path)
    requires cur >= 0 && ResolveFrom(fs, cur, comps) < 0
    ensures ResolveFrom(fs, cur, comps) == -1
    decreases |comps|
  {
    if comps != [] && IsDir(fs, cur) && Child(fs, cur, comps[0]) >= 0 {
      ResolveNegative(fs, Child(fs, cur, comps[0]), comps[1..]);
    }
  }

  // ---- frames ------------------------------------------------------------------------------------

  lemma SameViewEntries(fs: FS, gs: FS, d: int)
    requires 0 <= d < MAX_INODES && SameView(fs, gs, d)
    ensures forall q | 0 <= q < SLOTS :: Ent(gs, d, q) == Ent(fs, d, q) && EntName(gs, d, q) == EntName(fs, d, q)
    ensures Occupied(gs, d) == Occupied(fs, d)
    ensures NamesOk(fs, d) ==> NamesOk(gs, d)
  {
    forall q | 0 <= q < SLOTS ensures Ent(gs, d, q) == Ent(fs, d, q) && EntName(gs, d, q) == EntName(fs, d, q) {
      assert Slot(fs, d, q / DIRENTS_PER_BLOCK) == fs.inodes[d].blocks[q / DIRENTS_PER_BLOCK];
    }
  }

  /** gs has the same directories as fs, entry by entry. */
  ghost predicate SameDirs(fs: FS, gs: FS) {
    && (forall i | 0 <= i < MAX_INODES :: gs.inodes[i].kind == fs.inodes[i].kind)
    && (forall d | IsDir(fs, d) :: SameEntries(fs, gs, d))
  }

  ghost predicate SameEntries(fs: FS, gs: FS, d: int)
    requires 0 <= d < MAX_INODES
  {
    && gs.inodes[d].size == fs.inodes[d].size
    && forall q | 0 <= q < SLOTS :: Ent(gs, d, q) == Ent(fs, d, q) && EntName(gs, d, q) == EntName(fs, d, q)
  }

  lemma SameEntriesNames(fs: FS, gs: FS, d: int)
    requires 0 <= d < MAX_INODES && SameEntries(fs, gs, d) && NamesOk(fs, d)
    ensures NamesOk(gs, d)
  {
    hide Ent, EntName;
    assert Occupied(gs, d) == Occupied(fs, d);
  }

  lemma SameDirsKeepsTree(fs: FS, gs: FS, path: map<int, Path>, home: map<int, Home>)
    requires TreeInv(fs, path, home) && SameDirs(fs, gs)
    ensures TreeInv(gs, path, home)
  {
    hide Ent, EntName, NamesOk;
    forall c | c in home ensures HomeOk(gs, path, c, home[c]) {
      assert HomeOk(fs, path, c, home[c]);
    }
    forall i | Live(gs, i) ensures IsFile(gs, i) || IsDir(gs, i) {
      assert gs.inodes[i].kind == fs.inodes[i].kind && Live(fs, i);
    }
    forall d | IsDir(gs, d) ensures NamesOk(gs, d) {
      assert SameEntries(fs, gs, d) && NamesOk(fs, d);
      SameEntriesNames(fs, gs, d);
    }
    forall d, q | IsDir(gs, d) && 0 <= q < SLOTS && Ent(gs, d, q) != NO_ENTRY
      ensures Ent(gs, d, q) in home && home[Ent(gs, d, q)] == Home(d, q)
    {
      assert SameEntries(fs, gs, d);
      assert Ent(gs, d, q) == Ent(fs, d, q);
    }
  }

  /** Operations on a file's data do not disturb the tree. */
  lemma FileChangeKeepsTree(fs: FS, gs: FS, i: int, path: map<int, Path>, home: map<int, Home>)
    requires TreeInv(fs, path, home) && IsFile(fs, i) && OnlyFileChanged(fs, gs, i)
    ensures TreeInv(gs, path, home)
    ensures forall comps :: Resolve(gs, comps) == Resolve(fs, comps)
  {
    forall d | IsDir(fs, d) ensures SameEntries(fs, gs, d) {
      SameViewEntries(fs, gs, d);
    }
    SameDirsKeepsTree(fs, gs, path, home);
    SamePathsSameResolve(fs, gs, path, home, home);
  }

  lemma SamePathsSameResolve(fs: FS, gs: FS, path: map<int, Path>, home: map<int, Home>, home2: map<int, Home>)
    requires TreeInv(fs, path, home) && TreeInv(gs, path, home2)
    ensures forall comps :: Resolve(gs, comps) == Resolve(fs, comps)
  {
    forall comps ensures Resolve(gs, comps) == Resolve(fs, comps) {
      if Resolve(fs, comps) >= 0 {
        ResolveIsInverse(fs, path, home, comps, Resolve(fs, comps));
        ResolveIsInverse(gs, path, home2, comps, Resolve(fs, comps));
      } else {
        ResolveNegative(fs, ROOT, comps);
        if Resolve(gs, comps) >= 0 {
          ResolveIsInverse(gs, path, home2, comps, Resolve(gs, comps));
          ResolveIsInverse(fs, path, home, comps, Resolve(gs, comps));
        } else {
          ResolveNegative(gs, ROOT, comps);
        }
      }
    }
  }

  // ---- listing a directory ---------------------------------------------------------------------

  /** The slot of the n-th occupied entry at or after q, or SLOTS. */
  function NthFrom(fs: FS, d: int, n: nat, q: int): (r: int)
    requires 0 <= d < MAX_INODES && 0 <= q <= SLOTS
    ensures q <= r <= SLOTS
    ensures r < SLOTS ==> Ent(fs, d, r) != NO_ENTRY
    decreases SLOTS - q
  {
    hide Ent;
    if q == SLOTS then SLOTS
    else if Ent(fs, d, q) == NO_ENTRY then NthFrom(fs, d, n, q + 1)
    else if n == 0 then q
    else NthFrom(fs, d, n - 1, q + 1)
  }

  ghost function OccupiedFrom(fs: FS, d: int, q: int): set<int>
    requires 0 <= d < MAX_INODES && 0 <= q <= SLOTS
  {
    set r | q <= r < SLOTS && Ent(fs, d, r) != NO_ENTRY
  }

  lemma OccupiedStep(fs: FS, d: int, q: int)
    requires 0 <= d < MAX_INODES && 0 <= q < SLOTS
    ensures |OccupiedFrom(fs, d, q)| == |OccupiedFrom(fs, d, q + 1)| + (if Ent(fs, d, q) == NO_ENTRY then 0 else 1)
  {
    hide Ent;
    var a, b := OccupiedFrom(fs, d, q), OccupiedFrom(fs, d, q + 1);
    if Ent(fs, d, q) == NO_ENTRY {
      assert a == b;
    } else {
      assert a == b + {q};
    }
  }

  /** There is an n-th entry exactly for the first |OccupiedFrom| values of n. */
  lemma {:induction false} NthExists(fs: FS, d: int, n: nat, q: int)
    requires 0 <= d < MAX_INODES && 0 <= q <= SLOTS
    ensures NthFrom(fs, d, n, q) < SLOTS <==> n < |OccupiedFrom(fs, d, q)|
    decreases SLOTS - q
  {
    hide Ent;
    if q == SLOTS {
      assert OccupiedFrom(fs, d, q) == {};
    } else {
      OccupiedStep(fs, d, q);
      if Ent(fs, d, q) == NO_ENTRY {
        NthExists(fs, d, n, q + 1);
      } else if n > 0 {
        NthExists(fs, d, n - 1, q + 1);
      }
    }
  }

  /** Every occupied slot is the n-th entry for some n. */
  lemma {:induction false} NthCovers(fs: FS, d: int, q: int, r: int) returns (n: nat)
    requires 0 <= d < MAX_INODES && 0 <= q <= r < SLOTS && Ent(fs, d, r) != NO_ENTRY
    ensures NthFrom(fs, d, n, q) == r
    decreases SLOTS - q
  {
    hide Ent;
    if q == r {
      n := 0;
    } else {
      n := NthCovers(fs, d, q + 1, r);
      if Ent(fs, d, q) != NO_ENTRY {
        n := n + 1;
      }
    }
  }

  lemma {:induction false} NthIncreases(fs: FS, d: int, m: nat, n: nat, q: int)
    requires 0 <= d < MAX_INODES && 0 <= q <= SLOTS && m < n && NthFrom(fs, d, m, q) < SLOTS
    ensures NthFrom(fs, d, m, q) < NthFrom(fs, d, n, q)
    decreases SLOTS - q
  {
    hide Ent;
    if Ent(fs, d, q) == NO_ENTRY {
      NthIncreases(fs, d, m, n, q + 1);
    } else if m > 0 {
      NthIncreases(fs, d, m - 1, n - 1, q + 1);
    }
  }

  /** Reading a directory index by index ends exactly at the directory's recorded size, in slot order. */
  lemma ListingEnds(fs: FS, path: map<int, Path>, home: map<int, Home>, d: int, n: nat)
    requires TreeInv(fs, path, home) && IsDir(fs, d)
    ensures NthFrom(fs, d, n, 0) < SLOTS <==> n < fs.inodes[d].size
    ensures forall m: nat :: m < n < fs.inodes[d].size ==> NthFrom(fs, d, m, 0) < NthFrom(fs, d, n, 0)
  {
    hide Ent, EntName;
    assert NamesOk(fs, d) && OccupiedFrom(fs, d, 0) == Occupied(fs, d);
    NthExists(fs, d, n, 0);
    forall m: nat | m < n < fs.inodes[d].size ensures NthFrom(fs, d, m, 0) < NthFrom(fs, d, n, 0) {
      NthExists(fs, d, m, 0);
      NthIncreases(fs, d, m, n, 0);
    }
  }

  /** Each child of a directory is listed under some index below the directory's size, by its own name. */
  lemma ListingCovers(fs: FS, path: map<int, Path>, home: map<int, Home>, c: int) returns (n: nat)
    requires TreeInv(fs, path, home) && c in home
    ensures var d := home[c].dir;
      && IsDir(fs, d) && n < fs.inodes[d].size && NthFrom(fs, d, n, 0) == home[c].slot < SLOTS
      && Ent(fs, d, home[c].slot) == c && d in path && c in path
      && path[c] == path[d] + [EntName(fs, d, home[c].slot)]
  {
    hide Ent, EntName;
    var h := home[c];
    assert HomeOk(fs, path, c, h);
    n := NthCovers(fs, h.dir, 0, h.slot);
    ListingEnds(fs, path, home, h.dir, n);
  }
}
