/** Absolute paths as byte strings, and the path-level operations they drive. */
module MuninPaths {
  import opened Bytes
  import opened MuninState
  import opened MuninReplace
  import opened MuninTree
  import opened MuninNames
  import opened MuninOps

  const SLASH: byte := 47

  /** The number of leading bytes of s before the first slash. */
  function SpanLen(s: seq<byte>): (n: nat)
    ensures n <= |s|
    ensures forall k | 0 <= k < n :: s[k] != SLASH
    ensures n < |s| ==> s[n] == SLASH
  {
    if s == [] || s[0] == SLASH then 0 else 1 + SpanLen(s[1..])
  }

  /** The non-empty components of a path, in order. */
  function Components(s: seq<byte>): Path
    decreases |s|
  {
    if s == [] then []
    else if s[0] == SLASH then Components(s[1..])
    else [s[..SpanLen(s)]] + Components(s[SpanLen(s)..])
  }

  lemma {:induction false} SpanOfPrefix(s: seq<byte>, k: nat)
    requires k < |s| && s[k] == SLASH
    ensures SpanLen(s) == SpanLen(s[..k])
    decreases |s|
  {
    if k != 0 && s[0] != SLASH {
      assert s[..k][1..] == s[1..][..k - 1];
      SpanOfPrefix(s[1..], k - 1);
    }
  }

  lemma SpanStep(s: seq<byte>)
    requires s != [] && s[0] != SLASH
    ensures Components(s) == [s[..SpanLen(s)]] + Components(s[SpanLen(s)..])
  {
  }

  /** A run of non-slashes that ends at a slash or the end is the next component. */
  lemma NextComponent(s: seq<byte>, n: nat)
    requires 0 < n <= |s| && (n < |s| ==> s[n] == SLASH) && forall k | 0 <= k < n :: s[k] != SLASH
    ensures Components(s) == [s[..n]] + Components(s[n..])
  {
    assert SpanLen(s) == n;
    SpanStep(s);
  }

  /** Cutting a path at a slash cuts its component sequence. */
  lemma {:induction false} ComponentsSplit(s: seq<byte>, k: nat)
    requires k < |s| && s[k] == SLASH
    ensures Components(s) == Components(s[..k]) + Components(s[k + 1..])
    decreases |s|
  {
    if k == 0 {
      assert s[..0] == [];
    } else if s[0] == SLASH {
      ComponentsSplit(s[1..], k - 1);
      assert s[..k][1..] == s[1..][..k - 1] && s[1..][k..] == s[k + 1..];
    } else {
      SplitAfterSpan(s, k);
    }
  }

  lemma {:induction false} SplitAfterSpan(s: seq<byte>, k: nat)
    requires 0 < k < |s| && s[k] == SLASH && s[0] != SLASH
    ensures Components(s) == Components(s[..k]) + Components(s[k + 1..])
    decreases |s|, 0
  {
    hide Components;
    var n := SpanLen(s);
    SpanOfPrefix(s, k);
    ComponentsSplit(s[n..], k - n);
    SpanStep(s);
    SpanStep(s[..k]);
    assert s[..k][n..] == s[n..][..k - n];
    assert s[n..][k - n + 1..] == s[k + 1..];
    assert s[..k][..n] == s[..n];
  }

  lemma {:induction false} OneComponent(s: seq<byte>)
    requires s != [] && forall k | 0 <= k < |s| :: s[k] != SLASH
    ensures Components(s) == [s]
  {
    assert SpanLen(s) == |s| && s[..|s|] == s && s[|s|..] == [];
    assert Components(s) == [s] + Components([]);
  }

  /** The length of path without trailing slashes (but never below 1). */
  function Stripped(path: seq<byte>, len: nat): (n: nat)
    requires len <= |path|
    ensures n <= len && (len >= 1 ==> n >= 1)
    ensures n > 1 ==> path[n - 1] != SLASH
    ensures forall k | n <= k < len :: path[k] == SLASH
  {
    if len > 1 && path[len - 1] == SLASH then Stripped(path, len - 1) else len
  }

  /** The last position below len holding a slash, or 0. */
  function LastSlash(path: seq<byte>, len: nat): (n: nat)
    requires len <= |path|
    ensures n == 0 || n < len
    ensures n != 0 ==> path[n] == SLASH
    ensures forall k | n < k < len :: path[k] != SLASH
  {
    if len == 0 then 0 else if path[len - 1] == SLASH then len - 1 else LastSlash(path, len - 1)
  }

  lemma {:induction false} DropTrailing(path: seq<byte>, n: nat, len: nat)
    requires n <= len <= |path| && forall k | n <= k < len :: path[k] == SLASH
    ensures Components(path[..len]) == Components(path[..n])
    decreases len
  {
    if n < len {
      ComponentsSplit(path[..len], len - 1);
      assert path[..len][..len - 1] == path[..len - 1];
      assert path[..len][len..] == [];
      DropTrailing(path, n, len - 1);
    }
  }

  /** The last component of an absolute path, as munin_create_path and munin_unlink cut it out. */
  function LastName(path: seq<byte>): (name: Name)
    requires path != [] && path[0] == SLASH
  {
    path[LastSlash(path, Stripped(path, |path|)) + 1..Stripped(path, |path|)]
  }

  /** The part of the path that names the parent directory. */
  function ParentPart(path: seq<byte>): seq<byte>
    requires path != [] && path[0] == SLASH
  {
    path[..LastSlash(path, Stripped(path, |path|))]
  }

  /** Parent part and last name are exactly the path's components, split before the last. */
  lemma PathParts(path: seq<byte>)
    requires path != [] && path[0] == SLASH
    ensures LastName(path) == [] ==> Components(path) == []
    ensures LastName(path) != [] ==> Components(path) == Components(ParentPart(path)) + [LastName(path)]
    ensures LastName(path) == [] <==> Stripped(path, |path|) == 1
  {
    hide Components;
    var len := Stripped(path, |path|);
    var slash := LastSlash(path, len);
    if len == 1 {
      WholePath(path);
      DropTrailing(path, 1, |path|);
      RootHasNone(path);
    } else {
      PartsAt(path, len, slash);
    }
  }

  lemma PartsAt(path: seq<byte>, len: nat, slash: nat)
    requires slash + 1 < len <= |path| && path[slash] == SLASH
    requires forall k | slash < k < len :: path[k] != SLASH
    requires forall k | len <= k < |path| :: path[k] == SLASH
    ensures Components(path) == Components(path[..slash]) + [path[slash + 1..len]]
  {
    hide Components;
    DropTrailing(path, len, |path|);
    WholePath(path);
    CutAt(path, len, slash);
    LastPart(path, len, slash);
  }

  lemma WholePath(path: seq<byte>)
    ensures path[..|path|] == path
  {
  }

  lemma LastPart(path: seq<byte>, len: nat, slash: nat)
    requires slash + 1 < len <= |path| && forall k | slash < k < len :: path[k] != SLASH
    ensures Components(path[slash + 1..len]) == [path[slash + 1..len]]
  {
    hide Components;
    OneComponent(path[slash + 1..len]);
  }

  lemma CutAt(path: seq<byte>, len: nat, slash: nat)
    requires slash < len <= |path| && path[slash] == SLASH
    ensures Components(path[..len]) == Components(path[..slash]) + Components(path[slash + 1..len])
  {
    hide Components;
    ComponentsSplit(path[..len], slash);
    assert path[..len][..slash] == path[..slash] && path[..len][slash + 1..] == path[slash + 1..len];
  }

  lemma RootHasNone(path: seq<byte>)
    requires path != [] && path[0] == SLASH
    ensures Components(path[..1]) == []
  {
    assert path[..1][1..] == [];
  }

  // ---- path-level operations ------------------------------------------------------------------------

  predicate Absolute(path: seq<byte>) {
    path != [] && path[0] == SLASH
  }

  /** resolve_n: the inode a path leads to, or -1. */
  function ResolvePath(fs: FS, path: seq<byte>): int {
    if !Absolute(path) then -1 else Resolve(fs, Components(path))
  }

  /** The parent directory as munin_create_path and munin_unlink find it. */
  function ParentOf(fs: FS, path: seq<byte>): int
    requires Absolute(path)
  {
    if ParentPart(path) == [] then ROOT else ResolvePath(fs, ParentPart(path))
  }

  lemma ParentOfIsResolve(fs: FS, path: seq<byte>)
    requires Absolute(path)
    ensures ParentOf(fs, path) == Resolve(fs, Components(ParentPart(path)))
  {
    if ParentPart(path) != [] {
      assert ParentPart(path)[0] == path[0];
    }
  }

  /** munin_create_path */
  function CreatePath(fs: FS, path: seq<byte>, kind: byte): (FS, int) {
    if !Absolute(path) || LastName(path) == [] || |LastName(path)| >= MAX_NAME || ParentOf(fs, path) < 0 then (fs, -1)
    else Create(fs, ParentOf(fs, path), LastName(path), kind)
  }

  /** munin_unlink */
  function UnlinkPath(fs: FS, path: seq<byte>): (FS, int) {
    if !Absolute(path) || LastName(path) == [] || |LastName(path)| >= MAX_NAME || ParentOf(fs, path) < 0 then (fs, -1)
    else Unlink(fs, ParentOf(fs, path), LastName(path))
  }

  lemma ParentIsNamed(fs: FS, k: Book, path: seq<byte>)
    requires Inv(fs, k) && Absolute(path) && LastName(path) != [] && ParentOf(fs, path) >= 0
    ensures ParentOf(fs, path) in k.path
    ensures k.path[ParentOf(fs, path)] + [LastName(path)] == Components(path)
  {
    hide BlocksInv, FilesInv, TreeInv, Resolve;
    ParentOfIsResolve(fs, path);
    PathParts(path);
    ResolveIsInverse(fs, k.path, k.home, Components(ParentPart(path)), ParentOf(fs, path));
  }

  /** What a caller must check for munin_create_path to succeed. */
  ghost predicate CanCreate(fs: FS, path: seq<byte>) {
    && Absolute(path) && Components(path) != []
    && var comps := Components(path);
       var parent := Resolve(fs, comps[..|comps| - 1]);
       && |comps[|comps| - 1]| < MAX_NAME
       && IsDir(fs, parent)
       && Resolve(fs, comps) < 0
       && (exists c :: 0 <= c < MAX_INODES && !Live(fs, c))
       && HasRoom(fs, parent, 0)
  }

  ghost predicate CanUnlink(fs: FS, path: seq<byte>) {
    && Absolute(path) && Components(path) != []
    && Resolve(fs, Components(path)) >= 0
    && forall n :: Resolve(fs, Components(path) + [n]) < 0
  }

  lemma SliceNoNul(path: seq<byte>, i: nat, j: nat)
    requires NoNul(path) && i <= j <= |path|
    ensures NoNul(path[i..j])
  {
  }

  /** munin_create_path succeeds exactly when it can, and then inserts exactly one path. */
  lemma CreatePathInserts(fs: FS, k: Book, path: seq<byte>, kind: byte) returns (k2: Book)
    requires Inv(fs, k) && NoNul(path) && kind in {FILE, DIR}
    ensures var (gs, c) := CreatePath(fs, path, kind);
      && Inv(gs, k2)
      && (c >= 0 <==> CanCreate(fs, path))
      && (c >= 0 ==>
            && (forall comps :: Resolve(gs, comps) == if comps == Components(path) then c else Resolve(fs, comps))
            && !Live(fs, c) && c < MAX_INODES && gs.inodes[c] == NewInode(kind)
            && gs.inodes[c].kind == kind && gs.inodes[c].size == 0
            && (forall j | Live(fs, j) && j != ParentOf(fs, path) :: SameView(fs, gs, j)))
      && (c < 0 ==>
            && c == -1
            && (forall comps :: Resolve(gs, comps) == Resolve(fs, comps))
            && Unchanged(fs, gs))
  {
    hide BlocksInv, FilesInv, TreeInv, Resolve, SameView, HasRoom, Create, AllNamed, LastName, ParentPart, Components;
    k2 := k;
    if Absolute(path) {
      PathParts(path);
      ParentOfIsResolve(fs, path);
      LastNameNoNul(path);
      var name := LastName(path);
      var d := ParentOf(fs, path);
      if name != [] {
        var comps := Components(path);
        assert comps[..|comps| - 1] == Components(ParentPart(path));
        if d >= 0 && |name| < MAX_NAME {
          ParentIsNamed(fs, k, path);
          CreateSucceedsExactly(fs, k, d, name, kind);
          if Create(fs, d, name, kind).1 >= 0 {
            k2 := CreateInserts(fs, k, d, name, kind);
          } else {
            CreateFails(fs, k, d, name, kind);
            CreateMinusOne(fs, d, name, kind);
          }
        } else {
          SelfUnchanged(fs);
        }
      } else {
        SelfUnchanged(fs);
      }
    } else {
      SelfUnchanged(fs);
    }
  }

  lemma LastNameNoNul(path: seq<byte>)
    requires Absolute(path) && NoNul(path)
    ensures NoNul(LastName(path))
  {
  }

  lemma CreateMinusOne(fs: FS, d: int, name: Name, kind: byte)
    requires Create(fs, d, name, kind).1 < 0
    ensures Create(fs, d, name, kind).1 == -1
  {
  }

  lemma SelfUnchanged(fs: FS)
    ensures Unchanged(fs, fs)
  {
    forall j | Live(fs, j) ensures SameView(fs, fs, j) {
      SelfView(fs, j);
    }
  }

  lemma {:induction false} ComponentsNoNul(path: seq<byte>)
    requires NoNul(path)
    ensures forall n | n in Components(path) :: n != [] && NoNul(n)
    decreases |path|
  {
    if path != [] {
      if path[0] == SLASH {
        ComponentsNoNul(path[1..]);
      } else {
        ComponentsNoNul(path[SpanLen(path)..]);
      }
    }
  }

  /** munin_unlink succeeds exactly for a named file or childless directory, and deletes exactly its path. */
  lemma UnlinkPathDeletes(fs: FS, k: Book, path: seq<byte>) returns (k2: Book)
    requires Inv(fs, k)
    ensures var (gs, r) := UnlinkPath(fs, path);
      && Inv(gs, k2)
      && (r == 0 <==> CanUnlink(fs, path))
      && (r == 0 ==>
            && var c := Resolve(fs, Components(path));
            && (forall comps :: Resolve(gs, comps) == if comps == Components(path) then -1 else Resolve(fs, comps))
            && Live(fs, c) && !Live(gs, c)
            && (forall j | Live(fs, j) && j != ParentOf(fs, path) && j != c :: SameView(fs, gs, j))
            && |FreeBlocks(gs)| == |FreeBlocks(fs)| + |OwnedBlocks(fs, c)|)
      && (r != 0 ==> gs == fs && r == -1)
  {
    hide BlocksInv, FilesInv, TreeInv, Resolve, SameView, Unlink, AllNamed, LastName, ParentPart, Components, Live;
    k2 := k;
    if Absolute(path) {
      PathParts(path);
      ParentOfIsResolve(fs, path);
      var name := LastName(path);
      var d := ParentOf(fs, path);
      if name != [] {
        if d >= 0 {
          ParentIsNamed(fs, k, path);
          if |name| < MAX_NAME {
            UnlinkSucceedsExactly(fs, k, d, name);
            if Resolve(fs, Components(path)) >= 0 {
              PrefixIsDir(fs, k, d, name);
            }
            if Unlink(fs, d, name).1 == 0 {
              k2 := UnlinkDeletes(fs, k, d, name);
            }
          } else {
            LongNameAbsent(fs, k, d, name);
          }
        } else {
          PrefixAbsent(fs, Components(ParentPart(path)), name);
        }
      }
    }
  }

  lemma PrefixAbsent(fs: FS, p: Path, name: Name)
    requires Resolve(fs, p) < 0
    ensures Resolve(fs, p + [name]) < 0
  {
    ResolveAppend(fs, ROOT, p, [name]);
  }

  lemma PrefixIsDir(fs: FS, k: Book, d: int, name: Name)
    requires TreeInv(fs, k.path, k.home) && d in k.path && Resolve(fs, k.path[d] + [name]) >= 0
    ensures IsDir(fs, d)
  {
    if !IsDir(fs, d) {
      NothingBelowFile(fs, k, d, name);
    }
  }

  lemma LongNameAbsent(fs: FS, k: Book, d: int, name: Name)
    requires Inv(fs, k) && d in k.path && |name| >= MAX_NAME
    ensures Resolve(fs, k.path[d] + [name]) < 0
  {
    hide BlocksInv, FilesInv, TreeInv, Resolve;
    if IsDir(fs, d) {
      ChildIsResolve(fs, k, d, name);
      if Child(fs, d, name) >= 0 {
        FoundSlot(fs, k, d, name);
        assert false;
      }
    } else {
      NothingBelowFile(fs, k, d, name);
    }
  }

  /**
   * munin_create_path succeeds exactly for an absolute path with a last name of at most 31 bytes, whose
   * parent is a directory with room, and which does not exist, while an inode is free.
   */
  lemma CreatePathSucceedsExactly(fs: FS, k: Book, path: seq<byte>, kind: byte)
    requires Inv(fs, k) && NoNul(path) && kind in {FILE, DIR}
    ensures CreatePath(fs, path, kind).1 >= 0 <==>
      && path != [] && path[0] == 47 && Components(path) != []
      && var comps := Components(path);
         var d := Resolve(fs, comps[..|comps| - 1]);
         && |comps[|comps| - 1]| <= 31 && 0 <= d < 128 && fs.inodes[d].kind == DIR && Resolve(fs, comps) < 0
         && (exists c | 0 <= c < 128 :: fs.inodes[c].kind == FREE)
         && (exists q | 0 <= q < 112 :: RoomFirst(fs, d, q))
  {
    hide Components, Resolve, Ent, CreatePath, Inv, HasRoom;
    var k2 := CreatePathInserts(fs, k, path, kind);
    if Absolute(path) && Components(path) != [] {
      var comps := Components(path);
      var d := Resolve(fs, comps[..|comps| - 1]);
      if IsDir(fs, d) {
        RoomExactly(fs, d);
      }
      forall c | 0 <= c < 128 ensures Live(fs, c) <==> fs.inodes[c].kind != FREE {
      }
    }
  }

  /** munin_unlink succeeds exactly for an absolute path, not the root, that exists and has nothing below it. */
  lemma UnlinkPathSucceedsExactly(fs: FS, k: Book, path: seq<byte>)
    requires Inv(fs, k)
    ensures UnlinkPath(fs, path).1 == 0 <==>
      && path != [] && path[0] == 47 && Components(path) != [] && Resolve(fs, Components(path)) >= 0
      && forall n :: Resolve(fs, Components(path) + [n]) < 0
  {
    hide Components, Resolve, UnlinkPath, Inv;
    var k2 := UnlinkPathDeletes(fs, k, path);
  }
}
