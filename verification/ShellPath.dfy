/** The shell's path normaliser and its current directory. */
module ShellPath {
  import opened Bytes
  import N = MuninNames
  import P = MuninPaths
  import T = MuninTree
  import opened MuninState
  import O = MuninOps
  import V = Vfs

  const SLASH := P.SLASH
  const DOT: byte := 46
  const BUFFER := 128

  type Text = seq<byte>

  // ---- paths as stacks of names ------------------------------------------------------------------

  predicate GoodName(c: Text) {
    c != [] && c != [DOT] && c != [DOT, DOT] && forall k | 0 <= k < |c| :: c[k] != SLASH && c[k] != 0
  }

  ghost predicate Clean(st: seq<Text>) {
    forall k | 0 <= k < |st| :: GoodName(st[k])
  }

  /** Every name with a slash before it. */
  function Slashed(st: seq<Text>): Text {
    if st == [] then [] else Slashed(st[..|st| - 1]) + [SLASH] + st[|st| - 1]
  }

  /** The canonical spelling of a stack: the root is one slash. */
  function Print(st: seq<Text>): Text {
    if st == [] then [SLASH] else Slashed(st)
  }

  function Push(st: seq<Text>, c: Text): seq<Text> {
    if c == [DOT] then st
    else if c == [DOT, DOT] then (if st == [] then [] else st[..|st| - 1])
    else st + [c]
  }

  function Fold(st: seq<Text>, cs: seq<Text>): seq<Text>
    decreases |cs|
  {
    if cs == [] then st else Fold(Push(st, cs[0]), cs[1..])
  }

  /** Where `text` leads from the directory `dir`. */
  function Target(dir: seq<Text>, text: Text): seq<Text> {
    Fold(if text != [] && text[0] == SLASH then [] else dir, P.Components(text))
  }

  // ---- laws of printing and parsing ------------------------------------------------------------------

  lemma {:induction false} ParseSlashed(st: seq<Text>)
    requires Clean(st)
    ensures P.Components(Slashed(st)) == st
    decreases |st|
  {
    if st != [] {
      var front, last := st[..|st| - 1], st[|st| - 1];
      ParseSlashed(front);
      var s := Slashed(st);
      P.ComponentsSplit(s, |Slashed(front)|);
      assert s[..|Slashed(front)|] == Slashed(front) && s[|Slashed(front)| + 1..] == last;
      P.OneComponent(last);
      assert st == front + [last];
    }
  }

  /** Reading back a printed stack gives the stack, so different stacks print differently. */
  lemma ParsePrint(st: seq<Text>)
    requires Clean(st)
    ensures P.Components(Print(st)) == st
  {
    if st == [] {
      assert [SLASH][1..] == [];
    } else {
      ParseSlashed(st);
    }
  }

  lemma {:induction false} SlashedShape(st: seq<Text>)
    requires Clean(st)
    ensures N.NoNul(Slashed(st)) && |Slashed(st)| >= 2 * |st|
    ensures st != [] ==> Slashed(st)[0] == SLASH && Slashed(st)[|Slashed(st)| - 1] != SLASH
    ensures forall k, l | 0 <= k && l == k + 1 && l < |Slashed(st)| :: !(Slashed(st)[k] == SLASH && Slashed(st)[l] == SLASH)
    decreases |st|
  {
    if st != [] {
      SlashedShape(st[..|st| - 1]);
      assert GoodName(st[|st| - 1]);
    }
  }

  /** The canonical spelling: starts with a slash, no empty component, no trailing slash but the root's. */
  lemma PrintShape(st: seq<Text>)
    requires Clean(st)
    ensures var s := Print(st);
      && s != [] && s[0] == SLASH && N.NoNul(s)
      && (s[|s| - 1] == SLASH <==> st == [])
      && (forall k, l | 0 <= k && l == k + 1 && l < |s| :: !(s[k] == SLASH && s[l] == SLASH))
  {
    SlashedShape(st);
  }

  lemma {:induction false} ComponentsPlain(s: Text)
    requires N.NoNul(s)
    ensures forall k | 0 <= k < |P.Components(s)| :: P.Components(s)[k] != [] && N.NoNul(P.Components(s)[k]) && SLASH !in P.Components(s)[k]
    decreases |s|
  {
    if s != [] {
      ComponentsPlain(if s[0] == SLASH then s[1..] else s[P.SpanLen(s)..]);
    }
  }

  lemma {:induction false} FoldClean(st: seq<Text>, cs: seq<Text>)
    requires Clean(st) && forall k | 0 <= k < |cs| :: cs[k] != [] && N.NoNul(cs[k]) && SLASH !in cs[k]
    ensures Clean(Fold(st, cs))
    decreases |cs|
  {
    if cs != [] {
      FoldClean(Push(st, cs[0]), cs[1..]);
    }
  }

  /** No component of the result is empty, "." or "..". */
  lemma TargetClean(dir: seq<Text>, text: Text)
    requires Clean(dir) && N.NoNul(text)
    ensures Clean(Target(dir, text))
  {
    ComponentsPlain(text);
    FoldClean(if text != [] && text[0] == SLASH then [] else dir, P.Components(text));
  }

  lemma {:induction false} FoldOfClean(st: seq<Text>, cs: seq<Text>)
    requires Clean(cs)
    ensures Fold(st, cs) == st + cs
    decreases |cs|
  {
    if cs != [] {
      assert GoodName(cs[0]);
      FoldOfClean(st + [cs[0]], cs[1..]);
      assert st + [cs[0]] + cs[1..] == st + cs;
    } else {
      assert st + cs == st;
    }
  }

  /** Normalising is idempotent, from whatever directory the second time. */
  lemma Idempotent(dir: seq<Text>, other: seq<Text>, text: Text)
    requires Clean(dir) && N.NoNul(text)
    ensures Target(other, Print(Target(dir, text))) == Target(dir, text)
  {
    var st := Target(dir, text);
    TargetClean(dir, text);
    PrintShape(st);
    ParsePrint(st);
    FoldOfClean([], st);
    assert [] + st == st;
  }

  lemma {:induction false} FoldConcat(st: seq<Text>, a: seq<Text>, b: seq<Text>)
    ensures Fold(st, a + b) == Fold(Fold(st, a), b)
    decreases |a|
  {
    if a == [] {
      assert a + b == b;
    } else {
      assert (a + b)[0] == a[0] && (a + b)[1..] == a[1..] + b;
      FoldConcat(Push(st, a[0]), a[1..], b);
    }
  }

  /** Two moves in a row are one move along both paths joined by a slash. */
  lemma TwoMoves(dir: seq<Text>, a: Text, b: Text)
    requires a != [] && (b == [] || b[0] != SLASH)
    ensures Target(Target(dir, a), b) == Target(dir, a + [SLASH] + b)
  {
    var whole := a + [SLASH] + b;
    P.ComponentsSplit(whole, |a|);
    assert whole[..|a|] == a && whole[|a| + 1..] == b;
    FoldConcat(if a[0] == SLASH then [] else dir, P.Components(a), P.Components(b));
  }

  /** One component: ".." goes up and stops at the root, "." stays, a name goes down. */
  lemma OneMove(dir: seq<Text>, c: Text)
    ensures Target(dir, [46, 46]) == if dir == [] then [] else dir[..|dir| - 1]
    ensures Target(dir, [46]) == dir && Target(dir, []) == dir
    ensures GoodName(c) ==> Target(dir, c) == dir + [c]
  {
    P.OneComponent([46, 46]);
    P.OneComponent([46]);
    SingleMove(dir, [46, 46]);
    SingleMove(dir, [46]);
    if GoodName(c) {
      P.OneComponent(c);
      SingleMove(dir, c);
    }
  }

  lemma SingleMove(dir: seq<Text>, c: Text)
    requires P.Components(c) == [c] && c != [] && c[0] != SLASH
    ensures Target(dir, c) == Push(dir, c)
  {
    hide P.Components;
    var cs := P.Components(c);
    assert cs[0] == c && cs[1..] == [];
    assert Fold(dir, cs) == Fold(Push(dir, c), []);
  }

  /** A leading slash starts at the root, and a slash after a slash means nothing. */
  lemma SlashMoves(dir: seq<Text>, a: Text, b: Text)
    requires a != []
    ensures Target(dir, [47] + b) == Target([], b)
    ensures Target(dir, a + [47, 47] + b) == Target(dir, a + [47] + b)
  {
    assert ([SLASH] + b)[1..] == b;
    var twice, once := a + [SLASH, SLASH] + b, a + [SLASH] + b;
    P.ComponentsSplit(twice, |a|);
    P.ComponentsSplit(once, |a|);
    assert twice[..|a|] == once[..|a|] == a && once[|a| + 1..] == b;
    assert twice[|a| + 1..] == [SLASH] + b;
  }

  /** The filesystem finds under a printed stack what the stack names. */
  lemma PrintResolves(fs: FS, st: seq<Text>)
    requires Clean(st)
    ensures P.ResolvePath(fs, Print(st)) == T.Resolve(fs, st)
  {
    ParsePrint(st);
    PrintShape(st);
  }

  // ---- the buffers -------------------------------------------------------------------------------------

  /** The buffer holds s as a C string. */
  ghost predicate Holds(buf: array<byte>, s: Text)
    reads buf
  {
    |s| < buf.Length && buf[..|s|] == s && buf[|s|] == 0
  }

  /** in[p], reading the terminating NUL past the end. */
  function CharAt(s: Text, p: nat): byte {
    if p < |s| then s[p] else 0
  }

  class Shell {
    const cwd: array<byte>
    ghost var dir: seq<Text>

    ghost predicate Valid()
      reads this, cwd
    {
      cwd.Length == BUFFER && Clean(dir) && Holds(cwd, Print(dir))
    }

    constructor ()
      ensures Valid() && dir == [] && fresh(cwd)
    {
      cwd := new byte[BUFFER](k => if k == 0 then SLASH else 0);
      dir := [];
    }

    /** The directory the result starts from: none for an absolute path, else a copy of cwd. */
    method StartAt(text: Text, out: array<byte>) returns (olen: nat, ghost st: seq<Text>)
      requires Valid() && out != cwd && out.Length == BUFFER
      modifies out
      ensures Clean(st) && Spells(out, olen, Print(st)) && 1 <= olen <= |Print(dir)|
      ensures st == if text != [] && text[0] == SLASH then [] else dir
    {
      PrintShape(dir);
      hide Print;
      if CharAt(text, 0) == SLASH {
        out[0] := SLASH;
        olen := 1;
        out[1] := 0;
        st := [];
        PrintRoot();
      } else {
        var i := 0;
        while cwd[i] != 0
          invariant 0 <= i <= |Print(dir)| && out[..i] == Print(dir)[..i]
          decreases |Print(dir)| - i
        {
          out[i] := cwd[i];
          i := i + 1;
        }
        olen := i;
        out[olen] := 0;
        st := dir;
      }
    }

    /** ".." cuts the last name and its slash off, and leaves the root alone. */
    method Pop(out: array<byte>, len: nat, ghost st: seq<Text>) returns (olen: nat)
      requires Clean(st) && Spells(out, len, Print(st))
      modifies out
      ensures 1 <= olen <= len
      ensures Spells(out, olen, Print(if st == [] then [] else st[..|st| - 1]))
    {
      PrintShape(st);
      olen := len;
      if olen > 1 {
        ghost var s, front := Print(st), Slashed(st[..|st| - 1]);
        assert s == front + [SLASH] + st[|st| - 1];
        assert GoodName(st[|st| - 1]);
        SlashedShape(st[..|st| - 1]);
        while olen > 1 && out[olen - 1] != SLASH
          invariant |front| + 1 <= olen <= len && out[..] == old(out[..])
        {
          assert out[olen - 1] == s[olen - 1];
          olen := olen - 1;
        }
        assert out[olen - 1] == s[olen - 1];
        assert olen == |front| + 1;
        if olen > 1 {
          olen := olen - 1;
        }
        out[olen] := 0;
        assert out[..olen] == s[..olen];
      }
    }

    /** Copies clen bytes of the input to position at, and a NUL behind them. */
    method CopyName(out: array<byte>, at: nat, text: Text, start: nat, clen: nat)
      requires start + clen <= |text| && at + clen < out.Length
      modifies out
      ensures out[..at + clen] == old(out[..at]) + text[start..start + clen] && out[at + clen] == 0
    {
      var k := 0;
      while k < clen
        invariant 0 <= k <= clen && out[..at] == old(out[..at])
        invariant out[at..at + k] == text[start..start + k]
      {
        ghost var was := out[at..at + k];
        out[at + k] := text[start + k];
        assert out[at..at + k] == was;
        k := k + 1;
        assert out[at..at + k] == was + [text[start + k - 1]];
      }
      assert out[..at + clen] == out[..at] + out[at..at + clen];
      ghost var done := out[..at + clen];
      out[at + clen] := 0;
      assert out[..at + clen] == done;
    }

    /** A name goes after a slash; the root already ends in one. */
    method Append(out: array<byte>, len: nat, text: Text, start: nat, clen: nat, ghost st: seq<Text>) returns (olen: nat)
      requires Clean(st) && Spells(out, len, Print(st)) && start + clen <= |text| && len + clen + 1 < out.Length
      modifies out
      ensures len <= olen <= len + clen + 1 && Spells(out, olen, Print(st + [text[start..start + clen]]))
    {
      hide Clean, Slashed;
      PrintShape(st);
      AppendPrint(st, text[start..start + clen]);
      olen := len;
      assert out[olen - 1] == Print(st)[olen - 1];
      if out[olen - 1] != SLASH {
        out[olen] := SLASH;
        olen := olen + 1;
      }
      SlashedRoot();
      assert out[..olen] == Slashed(st) + [SLASH];
      CopyName(out, olen, text, start, clen);
      olen := olen + clen;
    }

    lemma SlashedRoot()
      ensures Slashed([]) == []
    {
    }

    lemma AppendPrint(st: seq<Text>, c: Text)
      ensures Print(st + [c]) == Slashed(st) + [SLASH] + c
    {
      assert (st + [c])[..|st|] == st;
    }

    lemma PrintRoot()
      ensures Print([]) == [SLASH]
    {
    }

    /** A run of non-slashes that ends at a slash or the end is the next component. */
    lemma NextComponent(text: Text, start: nat, p: nat)
      requires start < p <= |text| && (p < |text| ==> text[p] == SLASH)
      requires forall k | start <= k < p :: text[k] != SLASH
      ensures P.Components(text[start..]) == [text[start..p]] + P.Components(text[p..])
    {
      hide P.Components;
      var s := text[start..];
      P.NextComponent(s, p - start);
      assert s[..p - start] == text[start..p] && s[p - start..] == text[p..];
    }

    lemma SkipSlash(text: Text, p: nat)
      requires p < |text| && text[p] == SLASH
      ensures P.Components(text[p..]) == P.Components(text[p + 1..])
    {
      assert text[p..][1..] == text[p + 1..];
    }

    /** One component of the input carried out on the buffer. */
    method Apply(out: array<byte>, len: nat, text: Text, start: nat, clen: nat, ghost st: seq<Text>) returns (olen: nat)
      requires Clean(st) && Spells(out, len, Print(st)) && N.NoNul(text)
      requires 1 <= clen && start + clen <= |text| && len + clen + 1 < out.Length
      requires forall k | start <= k < start + clen :: text[k] != SLASH
      modifies out
      ensures olen <= len + clen + 1
      ensures Clean(Push(st, text[start..start + clen])) && Spells(out, olen, Print(Push(st, text[start..start + clen])))
    {
      hide Print;
      ghost var c := text[start..start + clen];
      olen := len;
      if clen == 1 && text[start] == DOT {
        assert c == [DOT];
      } else if clen == 2 && text[start] == DOT && text[start + 1] == DOT {
        assert c == [DOT, DOT];
        olen := Pop(out, len, st);
      } else {
        assert c != [DOT] && c != [DOT, DOT] by {
          assert |c| == clen && c[0] == text[start] && (clen == 2 ==> c[1] == text[start + 1]);
        }
        olen := Append(out, len, text, start, clen, st);
      }
    }

    /** while (in[p] == '/') p++ */
    method SkipSlashes(text: Text, p: nat) returns (q: nat)
      requires p <= |text|
      ensures p <= q <= |text| && CharAt(text, q) != SLASH && (CharAt(text, p) == SLASH ==> p < q)
      ensures P.Components(text[q..]) == P.Components(text[p..])
    {
      hide P.Components;
      q := p;
      while CharAt(text, q) == SLASH
        invariant p <= q <= |text| && P.Components(text[q..]) == P.Components(text[p..])
        decreases |text| - q
      {
        SkipSlash(text, q);
        q := q + 1;
      }
    }

    /** while (in[p] && in[p] != '/') p++ */
    method SkipName(text: Text, p: nat) returns (q: nat)
      requires p < |text| && N.NoNul(text) && text[p] != SLASH
      ensures p < q <= |text| && (q == |text| || text[q] == SLASH) && forall k | p <= k < q :: text[k] != SLASH
      ensures P.Components(text[p..]) == [text[p..q]] + P.Components(text[q..])
    {
      hide P.Components;
      q := p;
      while CharAt(text, q) != 0 && CharAt(text, q) != SLASH
        invariant p <= q <= |text| && forall k | p <= k < q :: text[k] != SLASH
        decreases |text| - q
      {
        q := q + 1;
      }
      NextComponent(text, p, q);
    }

    /** resolve_path: the canonical spelling of where `text` leads, built and cut back in place. */
    method ResolvePath(text: Text, out: array<byte>)
      requires Valid() && N.NoNul(text) && out != cwd && out.Length == BUFFER
      requires |Print(dir)| + |text| + 2 <= BUFFER
      modifies out
      ensures Holds(out, Print(Target(dir, text)))
      ensures var s := Print(Target(dir, text)); |s| < out.Length && out[..|s|] == s && out[|s|] == 0
    {
      hide P.Components, Print, Clean, Push, GoodName, Fold;
      var olen: nat;
      ghost var st;
      olen, st := StartAt(text, out);
      ghost var room := |Print(dir)|;
      var p := 0;
      assert text[0..] == text;
      while CharAt(text, p) != 0
        invariant 0 <= p <= |text| && Clean(st) && Spells(out, olen, Print(st))
        invariant p == 0 || p == |text| || text[p] == SLASH
        invariant olen <= room + p + (if p > 0 then 1 else 0)
        invariant Fold(st, P.Components(text[p..])) == Target(dir, text)
        decreases |text| - p
      {
        var start := SkipSlashes(text, p);
        if CharAt(text, start) == 0 {
          p := start;
          break;
        }
        p := SkipName(text, start);
        ghost var c := text[start..p];
        FoldStep(st, c, P.Components(text[p..]));
        olen := Apply(out, olen, text, start, p - start, st);
        st := Push(st, c);
      }
      AtNul(text, p);
      NothingLeft(st);
    }

    lemma FoldStep(st: seq<Text>, c: Text, cs: seq<Text>)
      ensures Fold(st, [c] + cs) == Fold(Push(st, c), cs)
    {
      assert ([c] + cs)[0] == c && ([c] + cs)[1..] == cs;
    }

    lemma AtNul(text: Text, p: nat)
      requires N.NoNul(text) && p <= |text| && CharAt(text, p) == 0
      ensures text[p..] == []
    {
    }

    lemma NothingLeft(st: seq<Text>)
      ensures Fold(st, P.Components([])) == st
    {
    }

    /** open, readdir and close, as cd probes a path: does it open as a directory? */
    method OpensAsDirectory(files: V.Descriptors, path: Text) returns (ok: bool)
      requires files.Valid() && N.NoNul(path)
      modifies files.fds, files.munin`book, files.munin.inodes, files.munin.bits, files.munin.blocks
      ensures files.Valid() && files.munin.State() == old(files.munin.State())
      ensures ok <==> IsDir(files.munin.State(), P.ResolvePath(files.munin.State(), path)) && V.FreeFd(old(files.fds[..]), 3) < V.MAX_FDS
      ensures forall k | 0 <= k < V.MAX_FDS ::
        files.fds[k].used == old(files.fds[k].used) && (files.fds[k].used ==> files.fds[k] == old(files.fds[k]))
    {
      hide P.ResolvePath, T.NthFrom, T.Ent, T.EntName, O.Inv;
      V.PlainOpen(files.munin.State(), path, 0);
      ghost var before := files.fds[..];
      var fd := files.Open(path, 0);
      if fd < 0 {
        return false;
      }
      var nm := new byte[40];
      var r := files.Readdir(fd, 0, nm);
      var closed := files.Close(fd);
      return r >= 0;
    }

    /** Without an argument cd goes to the root. */
    lemma NoArgument(st: seq<Text>)
      ensures Target(st, ArgText(None)) == []
    {
      SlashMoves(st, [SLASH], []);
      OneMove([], []);
      assert [47] + [] == ArgText(None);
    }

    /** The shell's buffer is none of the filesystem's arrays. */
    ghost predicate Apart(files: V.Descriptors) {
      && (files.fds as object) != cwd && (files.munin.inodes as object) != cwd
      && (files.munin.bits as object) != cwd && (files.munin.blocks as object) != cwd
    }

    /** cmd_cd: go where `arg` leads, or to the root without one, if that opens as a directory. */
    method Cd(arg: Option, files: V.Descriptors) returns (ok: bool)
      requires Valid() && N.NoNul(ArgText(arg)) && |Print(dir)| + |ArgText(arg)| + 2 <= BUFFER
      requires files.Valid() && Apart(files)
      modifies this`dir, cwd, files.fds, files.munin`book, files.munin.inodes, files.munin.bits, files.munin.blocks
      ensures Valid() && files.Valid() && files.munin.State() == old(files.munin.State())
      ensures ok <==> IsDir(files.munin.State(), T.Resolve(files.munin.State(), Target(old(dir), ArgText(arg)))) && V.FreeFd(old(files.fds[..]), 3) < V.MAX_FDS
      ensures dir == if ok then Target(old(dir), ArgText(arg)) else old(dir)
      ensures arg.None? && ok ==> dir == []
    {
      hide O.Inv, T.Resolve, P.ResolvePath, V.FreeFd;
      var abspath := new byte[BUFFER];
      ResolvePath(ArgText(arg), abspath);
      ghost var st := Target(dir, ArgText(arg));
      TargetClean(dir, ArgText(arg));
      NoArgument(dir);
      PrintShape(st);
      PrintResolves(files.munin.State(), st);
      hide Print, Target, Clean;
      var path := ReadBack(abspath, Print(st));
      ok := OpensAsDirectory(files, path);
      if !ok {
        return;
      }
      Enter(abspath, st);
    }

    /** The copy loop at the end of cmd_cd. */
    method Enter(abspath: array<byte>, ghost st: seq<Text>)
      requires cwd.Length == BUFFER && abspath != cwd && Clean(st) && Holds(abspath, Print(st)) && N.NoNul(Print(st)) && abspath.Length == BUFFER
      modifies this`dir, cwd
      ensures Valid() && dir == st
    {
      hide Print, Clean;
      var i := 0;
      while abspath[i] != 0
        invariant 0 <= i <= |Print(st)| && Holds(abspath, Print(st)) && cwd[..i] == Print(st)[..i]
        decreases |Print(st)| - i
      {
        cwd[i] := abspath[i];
        i := i + 1;
      }
      cwd[i] := 0;
      dir := st;
    }

    /** The text a system call sees behind a pointer to a C string. */
    method ReadBack(buf: array<byte>, ghost s: Text) returns (r: Text)
      requires Holds(buf, s) && N.NoNul(s)
      ensures r == s
    {
      var i := 0;
      while buf[i] != 0
        invariant 0 <= i <= |s|
        decreases |s| - i
      {
        i := i + 1;
      }
      r := buf[..i];
    }
  }

  datatype Option = None | Some(text: Text)

  function ArgText(arg: Option): Text {
    match arg case None => [SLASH] case Some(t) => t
  }

  /** The first n bytes of the buffer are s, and a NUL follows. */
  ghost predicate Spells(buf: array<byte>, n: nat, s: Text)
    reads buf
  {
    n == |s| && Holds(buf, s)
  }
}
