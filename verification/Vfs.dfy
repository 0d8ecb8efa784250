/** The descriptor layer: a task's open-file table over munin. */
module Vfs {
  import opened Bytes
  import opened MuninState
  import F = MuninFiles
  import T = MuninTree
  import N = MuninNames
  import O = MuninOps
  import P = MuninPaths
  import D = MuninData
  import M = Munin

  const MAX_FDS := 16
  const O_CREAT: bv32 := 4
  const O_TRUNC: bv32 := 8
  const O_APPEND: bv32 := 16

  datatype FileDesc = FileDesc(used: bool, inode: int, offset: u32, kind: byte)

  // ---- what open does to the filesystem ------------------------------------------------------

  /** Resolve the path, creating a file there if asked to and it is missing. */
  function Located(fs: FS, path: seq<byte>, flags: bv32): (FS, int) {
    if P.ResolvePath(fs, path) >= 0 then (fs, P.ResolvePath(fs, path))
    else if flags & O_CREAT != 0 then P.CreatePath(fs, path, FILE)
    else (fs, -1)
  }

  function Cut(r: (FS, int), flags: bv32): FS {
    if flags & O_TRUNC != 0 && IsFile(r.0, r.1) then D.Truncate(r.0, r.1).0 else r.0
  }

  /** The filesystem after vfs_open, and the inode it found (-1: the open fails). */
  function Opened(fs: FS, path: seq<byte>, flags: bv32): (FS, int) {
    if Located(fs, path, flags).1 < 0 then Located(fs, path, flags)
    else (Cut(Located(fs, path, flags), flags), Located(fs, path, flags).1)
  }

  /** Where a new descriptor starts: at the end for O_APPEND on a file, else at 0. */
  function StartOf(fs: FS, i: int, flags: bv32): u32 {
    if flags & O_APPEND != 0 && IsFile(fs, i) then fs.inodes[i].size else 0
  }

  /**
   * What every open does to the filesystem. It finds an inode exactly if the path resolves, or may be
   * created and can be; then the path resolves to it, and it is an empty file if it was created, or was
   * a file and O_TRUNC is given. A directory is opened as it is. No other path changes its meaning.
   */
  lemma OpenedFile(fs: FS, k: O.Book, path: seq<byte>, flags: bv32) returns (k2: O.Book)
    requires O.Inv(fs, k) && N.NoNul(path)
    ensures var (gs, i) := Opened(fs, path, flags);
      && O.Inv(gs, k2)
      && (i >= 0 <==> P.ResolvePath(fs, path) >= 0 || (flags & O_CREAT != 0 && P.CanCreate(fs, path)))
      && (i >= 0 ==> P.ResolvePath(gs, path) == i && Live(gs, i))
      && (i >= 0 && P.ResolvePath(fs, path) < 0 ==> IsFile(gs, i) && gs.inodes[i].size == 0)
      && (i >= 0 && flags & O_TRUNC != 0 && IsFile(gs, i) ==> gs.inodes[i].size == 0)
      && (P.ResolvePath(fs, path) >= 0 && (flags & O_TRUNC == 0 || IsDir(fs, i)) ==> gs == fs)
      && (i < 0 ==> i == -1 && O.Unchanged(fs, gs))
      && (forall j | IsFile(fs, j) && j != i :: SameView(fs, gs, j))
      && (forall comps :: comps != P.Components(path) || i < 0 ==> T.Resolve(gs, comps) == T.Resolve(fs, comps))
  {
    hide O.Inv, T.Resolve, P.CreatePath, P.CanCreate, D.Truncate, F.OnlyFileChanged, P.Components, O.Unchanged;
    var ms, i := Located(fs, path, flags).0, Located(fs, path, flags).1;
    var k1 := k;
    if P.ResolvePath(fs, path) < 0 {
      if flags & O_CREAT != 0 {
        k1 := P.CreatePathInserts(fs, k, path, FILE);
        if i >= 0 {
          AbsoluteIfCreated(fs, path);
        }
      } else {
        NothingChanged(fs);
      }
    }
    k2 := k1;
    if i >= 0 {
      ResolvedIsLive(ms, k1, path);
      if flags & O_TRUNC != 0 && IsFile(ms, i) {
        k2 := D.TruncateLaw(ms, k1, i);
        TruncatedIsLive(ms, k1, i);
      }
    }
    forall j | IsFile(fs, j) && j != i ensures SameView(fs, Opened(fs, path, flags).0, j) {
      OtherFiles(fs, k, path, flags, j);
    }
  }

  /** Opening touches no file but the one opened. */
  lemma OtherFiles(fs: FS, k: O.Book, path: seq<byte>, flags: bv32, j: int)
    requires O.Inv(fs, k) && N.NoNul(path) && IsFile(fs, j) && j != Opened(fs, path, flags).1
    ensures SameView(fs, Opened(fs, path, flags).0, j)
  {
    hide O.Inv, T.Resolve, P.CreatePath, D.Truncate, P.Components, SameView, P.CanCreate;
    var ms, i := Located(fs, path, flags).0, Located(fs, path, flags).1;
    var k1 := k;
    O.SelfView(fs, j);
    if P.ResolvePath(fs, path) < 0 && flags & O_CREAT != 0 {
      k1 := P.CreatePathInserts(fs, k, path, FILE);
      if i >= 0 {
        ParentIsDir(fs, path);
      }
    }
    assert SameView(fs, ms, j);
    if i >= 0 && flags & O_TRUNC != 0 && IsFile(ms, i) {
      SameViewKind(fs, ms, j);
      var k2 := D.TruncateLaw(ms, k1, i);
      SameViewTransitive(fs, ms, D.Truncate(ms, i).0, j);
    }
  }

  lemma SameViewKind(fs: FS, gs: FS, j: int)
    requires 0 <= j < MAX_INODES && SameView(fs, gs, j)
    ensures gs.inodes[j] == fs.inodes[j]
  {
  }

  lemma ParentIsDir(fs: FS, path: seq<byte>)
    requires P.CreatePath(fs, path, FILE).1 >= 0
    ensures P.Absolute(path) && IsDir(fs, P.ParentOf(fs, path))
  {
    hide T.Resolve, P.Components, P.LastName, P.ParentOf;
  }

  lemma NothingChanged(fs: FS)
    ensures O.Unchanged(fs, fs)
  {
  }

  lemma AbsoluteIfCreated(fs: FS, path: seq<byte>)
    requires P.CanCreate(fs, path)
    ensures P.Absolute(path)
  {
  }

  lemma TruncatedIsLive(fs: FS, k: O.Book, i: int)
    requires O.Inv(fs, k) && IsFile(fs, i)
    ensures IsFile(D.Truncate(fs, i).0, i)
  {
  }

  lemma ResolvedIsLive(fs: FS, k: O.Book, path: seq<byte>)
    requires O.Inv(fs, k) && P.ResolvePath(fs, path) >= 0
    ensures Live(fs, P.ResolvePath(fs, path))
  {
    hide T.Resolve, BlocksInv, FilesInv;
    T.ResolveIsInverse(fs, k.path, k.home, P.Components(path), P.ResolvePath(fs, path));
  }

  /** Without O_CREAT and O_TRUNC an open changes nothing. */
  lemma PlainOpen(fs: FS, path: seq<byte>, flags: bv32)
    requires flags & (O_CREAT | O_TRUNC) == 0
    ensures Opened(fs, path, flags) == (fs, if P.ResolvePath(fs, path) >= 0 then P.ResolvePath(fs, path) else -1)
  {
  }

  // ---- the table ------------------------------------------------------------------------------------

  /** The lowest unused descriptor at or above fd, or MAX_FDS. */
  function FreeFd(fds: seq<FileDesc>, fd: nat): (r: nat)
    requires |fds| == MAX_FDS && fd <= MAX_FDS
    ensures fd <= r <= MAX_FDS
    ensures forall j | fd <= j < r :: fds[j].used
    ensures r < MAX_FDS ==> !fds[r].used
    decreases MAX_FDS - fd
  {
    if fd == MAX_FDS || !fds[fd].used then fd else FreeFd(fds, fd + 1)
  }

  class Descriptors {
    const fds: array<FileDesc>
    const munin: M.Filesystem

    ghost predicate Valid()
      reads this, fds, munin, munin.inodes, munin.bits, munin.blocks
    {
      && munin.Valid() && fds.Length == MAX_FDS
      && (fds as object) != munin.inodes && (fds as object) != munin.bits && (fds as object) != munin.blocks
      && forall j | 0 <= j < MAX_FDS :: fds[j].offset <= CAPACITY
    }

    ghost predicate IsOpenFile(fd: int)
      requires fds.Length == MAX_FDS
      reads fds
    {
      3 <= fd < MAX_FDS && fds[fd].used && fds[fd].kind == FILE
    }

    /** A table with every descriptor unused, over a formatted or mounted filesystem. */
    constructor (m: M.Filesystem)
      requires m.Valid()
      ensures Valid() && munin == m && fresh(fds)
      ensures forall j | 0 <= j < MAX_FDS :: !fds[j].used
    {
      munin := m;
      fds := new FileDesc[MAX_FDS](_ => FileDesc(false, 0, 0, FREE));
    }

    /** vfs_open. A full table is found only after the file has been created or cut. */
    method Open(path: seq<byte>, flags: bv32) returns (fd: int)
      requires Valid() && N.NoNul(path)
      modifies fds, munin`book, munin.inodes, munin.bits, munin.blocks
      ensures Valid()
      ensures munin.State() == Opened(old(munin.State()), path, flags).0
      ensures var i := Opened(old(munin.State()), path, flags).1;
        var free := FreeFd(old(fds[..]), 3);
        if i < 0 || free == MAX_FDS then fd == -1 && fds[..] == old(fds[..])
        else
          && fd == free && Live(munin.State(), i)
          && fds[..] == old(fds[..])[free := FileDesc(true, i, StartOf(munin.State(), i, flags), munin.State().inodes[i].kind)]
      ensures fd >= 0 ==>
        && 3 <= fd < MAX_FDS && !old(fds[fd].used) && fds[fd].used && (forall j | 3 <= j < fd :: old(fds[j].used))
        && Live(munin.State(), fds[fd].inode) && fds[fd].kind == munin.State().inodes[fds[fd].inode].kind
        && fds[fd].offset == if flags & 16 != 0 && fds[fd].kind == FILE then munin.State().inodes[fds[fd].inode].size else 0
    {
      hide O.Inv, Opened;
      var i := Locate(path, flags);
      if i < 0 {
        return -1;
      }
      var kind := munin.Type(i);
      var start := 0;
      LiveKind(munin.State(), munin.book, i);
      SizeBound(munin.State(), munin.book, i);
      if flags & O_APPEND != 0 && kind == FILE {
        var size := munin.Size(i);
        if size > 0 {
          start := size;
        }
      }
      fd := Install(FileDesc(true, i, start, kind));
    }

    /** The filesystem part of vfs_open. */
    method Locate(path: seq<byte>, flags: bv32) returns (i: int)
      requires Valid() && N.NoNul(path)
      modifies munin`book, munin.inodes, munin.bits, munin.blocks
      ensures Valid() && fds[..] == old(fds[..])
      ensures (munin.State(), i) == Opened(old(munin.State()), path, flags)
      ensures i >= 0 ==> Live(munin.State(), i)
    {
      hide O.Inv, T.Resolve, P.CreatePath, D.Truncate, P.Components;
      ghost var fs := munin.State();
      i := munin.ResolveN(path, |path|);
      assert path[..|path|] == path;
      if i < 0 {
        if flags & O_CREAT == 0 {
          return -1;
        }
        i := munin.CreatePath(path, FILE);
        if i < 0 {
          return;
        }
        CreatedIsLive(fs, old(munin.book), path);
      } else {
        ResolvedIsLive(fs, munin.book, path);
      }
      var kind := munin.Type(i);
      if flags & O_TRUNC != 0 && kind == FILE {
        ghost var ms, mk := munin.State(), munin.book;
        var r := munin.Truncate(i);
        TruncatedIsLive(ms, mk, i);
      }
    }

    /** The lowest unused descriptor from 3 on, filled in; -1 when the table is full. */
    method Install(f: FileDesc) returns (fd: int)
      requires Valid() && f.offset <= CAPACITY
      modifies fds
      ensures Valid() && munin.State() == old(munin.State())
      ensures var free := FreeFd(old(fds[..]), 3);
        if free == MAX_FDS then fd == -1 && fds[..] == old(fds[..]) else fd == free && fds[..] == old(fds[..])[free := f]
    {
      hide O.Inv;
      fd := 3;
      while fd < MAX_FDS
        invariant 3 <= fd <= MAX_FDS && fds[..] == old(fds[..])
        invariant FreeFd(old(fds[..]), 3) == FreeFd(old(fds[..]), fd)
        invariant Valid()
      {
        if !fds[fd].used {
          fds[fd] := f;
          return;
        }
        fd := fd + 1;
      }
      return -1;
    }

    lemma CreatedIsLive(fs: FS, k: O.Book, path: seq<byte>)
      requires O.Inv(fs, k) && N.NoNul(path) && P.CreatePath(fs, path, FILE).1 >= 0
      ensures Live(P.CreatePath(fs, path, FILE).0, P.CreatePath(fs, path, FILE).1)
    {
      hide O.Inv, T.Resolve, P.CreatePath, P.CanCreate;
      var k2 := P.CreatePathInserts(fs, k, path, FILE);
    }

    lemma LiveKind(fs: FS, k: O.Book, i: int)
      requires O.Inv(fs, k) && Live(fs, i)
      ensures IsFile(fs, i) || IsDir(fs, i)
    {
    }

    lemma SizeBound(fs: FS, k: O.Book, i: int)
      requires O.Inv(fs, k)
      ensures IsFile(fs, i) ==> fs.inodes[i].size <= CAPACITY
    {
    }

    /** vfs_close */
    method Close(fd: int) returns (r: int)
      requires Valid()
      modifies fds
      ensures Valid() && munin.State() == old(munin.State())
      ensures r == if 3 <= fd < MAX_FDS && old(fds[..])[fd].used then 0 else -1
      ensures fds[..] == if r == 0 then old(fds[..])[fd := old(fds[..])[fd].(used := false)] else old(fds[..])
    {
      if fd < 3 || fd >= MAX_FDS || !fds[fd].used {
        return -1;
      }
      fds[fd] := FileDesc(false, fds[fd].inode, fds[fd].offset, fds[fd].kind);
      return 0;
    }

    /** vfs_write: a write at the cursor, which moves by what was stored. */
    method Write(fd: int, buf: array<byte>, len: u32) returns (n: int)
      requires Valid() && len <= buf.Length && buf != munin.bits
      modifies fds, munin`book, munin.inodes, munin.bits, munin.blocks
      ensures Valid()
      ensures !old(IsOpenFile(fd)) ==> n == -1 && munin.State() == old(munin.State()) && fds[..] == old(fds[..])
      ensures old(IsOpenFile(fd)) ==>
        var f := old(fds[fd]);
        && (munin.State(), n) == F.WriteInode(old(munin.State()), f.inode, buf[..len], f.offset)
        && fds[fd] == f.(offset := F.Advance(f.offset, n)) && fds[fd].offset == f.offset + (if n > 0 then n else 0)
        && forall j | 0 <= j < MAX_FDS && j != fd :: fds[j] == old(fds[j])
    {
      hide O.Inv, F.WriteAll;
      if fd < 3 || fd >= MAX_FDS || !fds[fd].used || fds[fd].kind != FILE {
        return -1;
      }
      WriteWithin(munin.State(), fds[fd].inode, buf[..len], fds[fd].offset);
      n := munin.WriteInode(fds[fd].inode, buf, len, fds[fd].offset);
      if n > 0 {
        fds[fd] := FileDesc(fds[fd].used, fds[fd].inode, fds[fd].offset + n, fds[fd].kind);
      }
    }

    lemma WriteWithin(fs: FS, i: int, data: seq<byte>, offset: nat)
      ensures F.WriteInode(fs, i, data, offset).1 > 0 ==> offset + F.WriteInode(fs, i, data, offset).1 <= CAPACITY
    {
    }

    /** vfs_read: a read at the cursor, which moves by what was delivered. */
    method Read(fd: int, buf: array<byte>, len: u32) returns (n: int)
      requires Valid() && len <= buf.Length && buf != munin.bits
      modifies fds, buf
      ensures Valid() && munin.State() == old(munin.State())
      ensures !old(IsOpenFile(fd)) ==> n == -1 && fds[..] == old(fds[..]) && buf[..] == old(buf[..])
      ensures old(IsOpenFile(fd)) ==>
        var f := old(fds[fd]);
        && n == (if IsFile(munin.State(), f.inode) then D.ReadLen(munin.State(), f.inode, len, f.offset) else -1)
        && (n >= 0 ==> buf[..n] == D.ReadBytes(munin.State(), f.inode, len, f.offset))
        && buf[F.Max(n, 0)..] == old(buf[..])[F.Max(n, 0)..]
        && fds[fd] == f.(offset := F.Advance(f.offset, n)) && fds[fd].offset == f.offset + (if n > 0 then n else 0)
        && forall j | 0 <= j < MAX_FDS && j != fd :: fds[j] == old(fds[j])
    {
      hide O.Inv;
      if fd < 3 || fd >= MAX_FDS || !fds[fd].used || fds[fd].kind != FILE {
        return -1;
      }
      n := munin.ReadInode(fds[fd].inode, buf, len, fds[fd].offset);
      if n > 0 {
        fds[fd] := FileDesc(fds[fd].used, fds[fd].inode, fds[fd].offset + n, fds[fd].kind);
      }
    }

    /** vfs_readdir: the index-th name of an open directory, at most 31 characters; -1 for anything else. */
    method Readdir(fd: int, index: int, nameOut: array<byte>) returns (r: int)
      requires Valid() && T.MAX_NAME <= nameOut.Length && nameOut != munin.bits && nameOut as object != fds
      modifies nameOut
      ensures Valid() && munin.State() == old(munin.State()) && fds[..] == old(fds[..])
      ensures r < 0 <==> !(IsOpenDir(fd) && IsDir(munin.State(), fds[fd].inode))
      ensures r >= 0 ==>
        var fs, d := munin.State(), fds[fd].inode;
        var q := if index < 0 then T.SLOTS else T.NthFrom(fs, d, index, 0);
        if q == T.SLOTS then r == 0 && nameOut[..] == old(nameOut[..])
        else munin.Shown(fs, d, q, r, nameOut, T.MAX_NAME)
    {
      hide O.Inv, T.Ent, T.EntName, T.NthFrom;
      if fd < 3 || fd >= MAX_FDS || !fds[fd].used || fds[fd].kind != DIR {
        return -1;
      }
      r := munin.Dirent(fds[fd].inode, index, nameOut, T.MAX_NAME);
    }

    ghost predicate IsOpenDir(fd: int)
      requires fds.Length == MAX_FDS
      reads fds
    {
      3 <= fd < MAX_FDS && fds[fd].used && fds[fd].kind == DIR
    }

    /** A file opened to append and written through the new descriptor is its old contents followed by the data stored. */
    method OpenToAppend(path: seq<byte>, buf: array<byte>, len: u32) returns (fd: int, n: int)
      requires Valid() && N.NoNul(path) && len <= buf.Length && buf != munin.bits
      modifies fds, munin`book, munin.inodes, munin.bits, munin.blocks
      ensures Valid()
      ensures var fs, i := old(munin.State()), P.ResolvePath(old(munin.State()), path);
        fd >= 0 && IsFile(fs, i) && n >= 0 ==>
          && n <= len && fs.inodes[i].size <= CAPACITY && munin.State().inodes[i].size <= CAPACITY
          && P.ResolvePath(munin.State(), path) == i
          && F.Contents(munin.State(), i) == F.Contents(fs, i) + old(buf[..len])[..n]
    {
      hide O.Inv, F.WriteInode, F.Contents, T.Resolve, P.Components;
      ghost var fs := munin.State();
      PlainOpen(fs, path, 16);
      fd := Open(path, 16);
      n := -1;
      if fd >= 0 {
        ghost var k := munin.book;
        n := Write(fd, buf, len);
        if IsFile(fs, P.ResolvePath(fs, path)) {
          Appended(fs, k, P.ResolvePath(fs, path), buf[..len]);
        }
      }
    }

    lemma Appended(fs: FS, k: O.Book, i: int, data: seq<byte>)
      requires O.Inv(fs, k) && IsFile(fs, i)
      ensures var (gs, n) := F.WriteInode(fs, i, data, fs.inodes[i].size);
        && (forall comps :: T.Resolve(gs, comps) == T.Resolve(fs, comps))
        && (n >= 0 ==>
              && n <= |data| && fs.inodes[i].size <= CAPACITY && gs.inodes[i].size <= CAPACITY
              && F.Contents(gs, i) == F.Contents(fs, i) + data[..n])
    {
      hide O.Inv, F.WriteInode, F.OnlyFileChanged, T.Resolve, FileByte;
      var k2 := D.WriteInodeLaw(fs, k, i, data, fs.inodes[i].size);
    }
  }
}
