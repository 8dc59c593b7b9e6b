/** Where the routine does something else than its user would expect, and exactly when. */
module Corners {
  import opened Text
  import opened PathText
  import opened FileTree
  import opened ClonePath
  import opened CloneLinks
  import opened MountPoint
  import opened Kernel
  import opened SizeLimit
  import opened Recyclix
  import opened NoLoss
  import opened Mounts
  import opened Deletion
  import opened Landing

  // ---------------------------------------------------------------- numbers

  /** Sizes from 2^31 to 2^32 - 1 bytes come out negative, so that no file is too small for them. */
  lemma {:induction false} TwoGigabytesRunOver(n: nat)
    requires 0x8000_0000 <= n < 0x1_0000_0000
    ensures SizeOf(Decimal(n), NUL) == n - 0x1_0000_0000 < 0
  {
    var d := Decimal(n);
    TenAndFifteen();
    DecimalShort(n, 10);
    ValueOfDecimal(n);
    assert d[..|d|] == d;
  }

  // ---------------------------------------------------------------- files at the root of the file system

  /** The bin takes the mount point's mode and owner when a file right in the mount point is recycled, only then. */
  lemma {:induction false} BinTakesMountMode(fs: Fs, proc: Process, env: Environment, dirfd: int, pathname: string,
                                             e: Path, removedir: bool, dir: string, bin: Path, m: Path)
    requires Subject(fs, proc, dirfd, pathname, e) && !IsDir(fs.tree, e) && MountedOnce(fs.tree)
    requires Usable(fs, proc, env, pathname, e) && Recycles(fs, proc, env, pathname, e, dir, bin, m)
    ensures var t, o := fs.tree, Unlinkat(fs, proc, env, dirfd, pathname, removedir);
            && bin in o.fs.tree && m in t
            && o.fs.tree[bin] ==
               if Up(e) == m then t[bin].(mode := t[m].mode, uid := t[m].uid, gid := t[m].gid) else t[bin]
  {
    RecycledExact(fs, proc, env, dirfd, pathname, e, removedir, dir, bin, m);
    OutcomeForBin(fs, proc, e, dir, bin, m, Unlinkat(fs, proc, env, dirfd, pathname, removedir));
  }

  lemma {:induction false} OutcomeForBin(fs: Fs, proc: Process, e: Path, dir: string, bin: Path, m: Path, o: Out)
    requires Valid(fs) && e in fs.tree && !IsDir(fs.tree, e) && |m| < |e| && m == e[..|m|] && Names(Place(bin, e, m))
    requires IsDir(fs.tree, bin) && RecycledOutcome(fs, proc, e, dir, bin, m, o) && IsDir(fs.tree, m)
    ensures bin in o.fs.tree
    ensures var t := fs.tree;
            o.fs.tree[bin] ==
            if Up(e) == m then t[bin].(mode := t[m].mode, uid := t[m].uid, gid := t[m].gid) else t[bin]
  {
    PlaceParts(bin, e, m);
    var p := Place(bin, e, m);
    assert bin[..|bin|] == bin && m[..|m|] == m;
    assert |Up(e)| == |m| ==> Up(e) == m && Up(p) == bin;
    if !Blocked(fs.tree, Up(p), |bin|, |Up(p)| - 1) {
      assert LinkCloned(fs, MidState(fs, proc, dir, bin, e, m), Up(p), |bin|, Up(e), proc.umask);
    }
  }

  // ---------------------------------------------------------------- directories

  /**
   * Removing an empty directory that is not in the bin succeeds exactly when no file blocks its way there and
   * it is not the bin itself: the bin is never empty any more once its own chain is cloned into it.
   */
  lemma {:induction false} RmdirSucceedsIff(fs: Fs, proc: Process, env: Environment, dirfd: int, pathname: string,
                                            e: Path, dir: string, bin: Path, m: Path)
    requires Subject(fs, proc, dirfd, pathname, e) && IsDir(fs.tree, e) && MountedOnce(fs.tree)
    requires !IsMountPoint(fs.tree, e) && !HasChildren(fs.tree, e)
    requires Usable(fs, proc, env, pathname, e) && Recycles(fs, proc, env, pathname, e, dir, bin, m)
    ensures |m| <= |e|
    ensures var p := Place(bin, e, m);
            Unlinkat(fs, proc, env, dirfd, pathname, true).ret.Ok? <==>
            !Blocked(fs.tree, p, |bin|, |p| - 1) && e != bin
  {
    TakenBin(fs, proc, env, pathname, e);
    DirectoryExact(fs, proc, env, dirfd, pathname, e, true, dir, bin, m);
    NotBelowBin(fs, e, bin, m);
    var p := Place(bin, e, m);
    if !Blocked(fs.tree, p, |bin|, |p| - 1) {
      var mid := CloneBelow(fs, proc, dir, p, bin, e).fs;
      assert p[..|bin|] == bin;
      assert m != e;
      ChildrenAfterClone(fs, mid, p, |bin|, e, proc.umask, e);
      NotMountAfter(fs, mid, p, |bin|, e, proc.umask, e);
    }
  }

  lemma {:induction false} NotMountAfter(fs: Fs, mid: Fs, p: Path, i: nat, d: Path, umask: Mode, e: Path)
    requires Valid(fs) && Valid(mid) && i <= |p| && Cloned(fs, mid, p, i, d, umask)
    requires e in fs.tree && !IsMountPoint(fs.tree, e)
    ensures !IsMountPoint(mid.tree, e)
  {
    if e in mid.tree && IsMountPoint(mid.tree, e) {
      MountWasThere(fs, mid, p, i, d, umask, e);
    }
  }

  /** A directory without children has some after a clone exactly when the chain starts in it. */
  lemma {:induction false} ChildrenAfterClone(fs: Fs, mid: Fs, p: Path, i: nat, d: Path, umask: Mode, e: Path)
    requires Valid(fs) && i < |p| && Cloned(fs, mid, p, i, d, umask) && IsDir(fs.tree, p[..i])
    requires IsDir(fs.tree, e) && !HasChildren(fs.tree, e) && !Above(p[..i], e)
    ensures HasChildren(mid.tree, e) <==> e == p[..i]
  {
    if e == p[..i] {
      assert LinkCloned(fs, mid, p, i + 1, d, umask);
      assert p[..i + 1] in mid.tree && p[..i + 1][..|e|] == e;
    }
    if HasChildren(mid.tree, e) {
      var q :| q in mid.tree && |q| == |e| + 1 && q[..|e|] == e;
      assert q !in fs.tree;
      assert OnChain(q, p, i);
      assert q == p[..|q|] && e == p[..|e|];
      assert |e| >= i ==> e[..i] == p[..i];
    }
  }

  // ---------------------------------------------------------------- links in the bin

  /** Cloning onto a name that leads to a directory changes that directory, wherever it is. */
  lemma {:induction false} CloneExisting(fs: Fs, at: Path, path: seq<string>, d: Path, umask: Mode)
    requires Valid(fs) && IsDir(fs.tree, at) && Clean(path) && ResolvesToDir(fs.tree, at, path) && IsDir(fs.tree, d)
    ensures var t, q := fs.tree, Stat(fs.tree, at, path).at;
            Clone(fs, at, path, d, umask) ==
            Out(fs.(tree := t[q := t[q].(mode := t[d].mode, uid := t[d].uid, gid := t[d].gid)]), Ok)
  {
    StatDonor(fs.tree, d);
    MkdirExisting(fs, at, path, fs.tree[d].mode, umask);
    ChmodKeeps(fs, at, path, fs.tree[d].mode);
    var fs1 := Chmod(fs, at, path, fs.tree[d].mode);
    WalkRoutes(fs.tree, fs1.tree, at, path, MAX_LINKS);
  }

  // ---------------------------------------------------------------- a bin that is a file

  /** The entry that a directory name ends in, when it leads to a file: the file, or a link to it. */
  function NamedEntry(t: Tree, at: Path, dir: string): Path
    requires Components(dir) != [] && Stat(t, at, Up(Components(dir))).Found?
  {
    Stat(t, at, Up(Components(dir))).at + [Last(Components(dir))]
  }

  lemma {:induction false} NamedEntryThere(t: Tree, at: Path, dir: string)
    requires Rooted(t) && IsDir(t, at) && Stat(t, at, Components(dir)).Found?
    requires var bin := Stat(t, at, Components(dir)).at; bin in t && !IsDir(t, bin)
    ensures Components(dir) != [] && Stat(t, at, Up(Components(dir))).Found?
    ensures var x, bin := NamedEntry(t, at, dir), Stat(t, at, Components(dir)).at;
            x in t && !IsDir(t, x) && (x == bin || t[x].kind.Symlink?)
  {
    var cs := Components(dir);
    BinIsFile(t, at, cs);
    assert cs == Up(cs) + [Last(cs)] && [Last(cs)][1..] == [];
    WalkConcat(t, at, Up(cs), [Last(cs)], MAX_LINKS);
  }

  /** The clone starts at the bin's own name, as far from its end as the subject is from the mount point. */
  lemma {:induction false} BinFileStops(t: Tree, at: Path, bin: seq<string>, below: seq<string>)
    requires Rooted(t) && IsDir(t, at) && Clean(bin) && Names(below) && Stat(t, at, bin).Found?
    requires Stat(t, at, bin).at in t && !IsDir(t, Stat(t, at, bin).at) && bin != [] && Stat(t, at, Up(bin)).Found?
    ensures var cs, x := bin + below, Stat(t, at, Up(bin)).at + [Last(bin)];
            x in t ==>
              WhyStopped(t, at, cs) == (if |below| > 1 then Some(ENOTDIR) else None) && x <= Goal(t, at, cs)
  {
    NamesBeyondFoot(t, at, bin, below);
    assert bin == Up(bin) + [Last(bin)];
    AfterLast(bin, below, Stat(t, at, Up(bin)).at);
  }

  /** Cutting a name before its bin's last component. */
  lemma {:induction false} AfterLast(bin: seq<string>, below: seq<string>, foot: Path)
    requires bin != []
    ensures var n := |bin| - 1;
            var q := foot + (bin + below)[n..];
            && |q| == |foot| + 1 + |below| && q[|foot|] == Last(bin) && q[..|foot| + 1] == foot + [Last(bin)]
            && (bin + below)[..n] == Up(bin)
  {
  }

  lemma {:induction false} EntryReplaced(fs: Fs, umask: Mode, e: Path, at: Path, cs: seq<string>, o: Out, x: Path)
    requires Valid(fs) && e in fs.tree && !IsDir(fs.tree, e) && e != [] && Clean(cs) && IsDir(fs.tree, at)
    requires Names(cs[Reach(fs.tree, at, cs)..]) && Lands(fs, umask, e, at, cs, o)
    requires WhyStopped(fs.tree, at, cs).None? && x in fs.tree && !IsDir(fs.tree, x) && x <= Goal(fs.tree, at, cs)
    ensures IsDir(o.fs.tree, x)
  {
    var q, mid := Goal(fs.tree, at, cs), Clone(fs, at, cs, Up(e), umask).fs;
    LostByClone(fs, mid, at, cs, e, umask, x);
    assert x != q + [Last(e)];
  }

  /**
   * A bin name that leads to a file: recycling a file at most one directory below the mount point replaces what the
   * name names by a directory, and with it the bin file unless the name ends in a link; any other fails untouched.
   */
  lemma {:induction false} BinFileDestroyed(fs: Fs, proc: Process, env: Environment, dirfd: int, pathname: string,
                                            e: Path, removedir: bool, dir: string, bin: Path, m: Path)
    requires Subject(fs, proc, dirfd, pathname, e) && !IsDir(fs.tree, e) && Anchored(proc, dir)
    requires Recycles(fs, proc, env, pathname, e, dir, bin, m) && !IsDir(fs.tree, bin)
    ensures Components(dir) != [] && Stat(fs.tree, Base(dir, proc.cwd), Up(Components(dir))).Found?
    ensures var x := NamedEntry(fs.tree, Base(dir, proc.cwd), dir);
            var o := Unlinkat(fs, proc, env, dirfd, pathname, removedir);
            && x in fs.tree && !IsDir(fs.tree, x) && (!fs.tree[x].kind.Symlink? ==> x == bin)
            && (Lost(fs.tree, o.fs.tree, x) <==> |e| - |m| <= 2)
            && if |e| - |m| <= 2 then IsDir(o.fs.tree, x) else o == Out(fs, Err(ENOTDIR))
  {
    var at := Base(dir, proc.cwd);
    RecyclingName(fs, proc, env, pathname, e, dir, bin, m);
    NamedEntryThere(fs.tree, at, dir);
    assert Names(Up(e)[|m|..]);
    BinFileStops(fs.tree, at, Components(dir), Up(e)[|m|..]);
    FileLands(fs, proc, env, dirfd, pathname, e, removedir, dir, bin, m);
    if |e| - |m| <= 2 {
      EntryReplaced(fs, proc.umask, e, at, Up(Destination(dir, e, m)),
                    Unlinkat(fs, proc, env, dirfd, pathname, removedir), NamedEntry(fs.tree, at, dir));
    }
  }
}
