/** Bins with relative names: their files are cloned in one place and moved to another. */
module RelativeBin {
  import opened PathText
  import opened FileTree
  import opened ClonePath
  import opened CloneLinks
  import opened MountPoint
  import opened Kernel
  import opened Recyclix
  import opened NoLoss
  import opened Landing

  /** The renaming when the new name is looked up from directory base. */
  ghost predicate RenamedFrom(mid: Fs, e: Path, base: Path, dest: seq<string>, o: Out)
    requires dest != [] && e in mid.tree
  {
    match Holder(mid.tree, base, dest)
    case Missing(x) => o == Out(mid, Err(x))
    case Found(h, _) => IsDir(mid.tree, h) && o == Moved(mid, mid.tree, e, h + [Last(dest)])
  }

  lemma {:induction false} RenameEntryFrom(mid: Fs, at: Path, name: seq<string>, e: Path, base: Path, dest: seq<string>)
    requires Rooted(mid.tree) && e in mid.tree && !IsDir(mid.tree, e) && e != [] && name != [] && dest != []
    requires Holder(mid.tree, at, name).Found? && Holder(mid.tree, at, name).at == Up(e) && Last(name) == Last(e)
    requires Name(Last(dest))
    ensures RenamedFrom(mid, e, base, dest, Rename(mid, at, name, base, dest))
  {
    assert e == Up(e) + [Last(e)];
    assert mid.tree[Up(e)].dev == mid.tree[e].dev;
    var h := Holder(mid.tree, base, dest);
    if h.Found? {
      assert Up(h.at + [Last(dest)]) == h.at;
      FileNotAbove(mid.tree, e, h.at + [Last(dest)]);
    }
  }

  /** The renaming itself: it needs descriptor 0. */
  lemma {:induction false} RenameFrom(fs: Fs, mid: Fs, proc: Process, dirfd: int, pathname: string, e: Path,
                                      dir: string, at: Path, cs: seq<string>)
    requires Subject(fs, proc, dirfd, pathname, e) && !IsDir(fs.tree, e) && !IsAbsolute(dir) && IsDir(fs.tree, at)
    requires CloneDone(fs, mid, at, cs, e, proc.umask)
    ensures var o := RenameInto(mid, proc, dirfd, pathname, dir, cs + [Last(e)]);
            && (0 !in proc.dirs ==> o == Out(mid, Err(EBADF)))
            && (0 in proc.dirs && !(e <= Goal(fs.tree, at, cs)) ==>
                  RenamedFrom(mid, e, proc.dirs[0], cs + [Last(e)], o))
  {
    assert e == Up(e) + [Last(e)];
    assert Name(Last(e));
    EntryAgain(fs.tree, mid.tree, proc, dirfd, pathname);
    if 0 in proc.dirs && !(e <= Goal(fs.tree, at, cs)) {
      RenameEntryFrom(mid, BaseAt(proc, dirfd, pathname).at, Components(pathname), e, proc.dirs[0], cs + [Last(e)]);
    }
  }

  lemma {:induction false} RenamedFate(t: Tree, mid: Fs, e: Path, base: Path, dest: seq<string>, o: Out)
    requires e in t && !IsDir(t, e) && Kept(t, mid.tree, e) && dest != [] && RenamedFrom(mid, e, base, dest, o)
    ensures var h := Holder(mid.tree, base, dest);
            o.ret.Ok? <==>
              h.Found? && mid.tree[h.at].dev == t[e].dev && !IsDir(mid.tree, h.at + [Last(dest)])
    ensures if o.ret.Err? then Kept(t, o.fs.tree, e)
            else
              && var p := Holder(mid.tree, base, dest).at + [Last(dest)];
                 if p in mid.tree && mid.tree[p].ino == t[e].ino then Kept(t, o.fs.tree, e)
                 else e !in o.fs.tree && p in o.fs.tree && o.fs.tree[p] == t[e]
  {
  }

  lemma {:induction false} RenamedOthers(mid: Fs, e: Path, base: Path, dest: seq<string>, o: Out, a: Path)
    requires e in mid.tree && dest != [] && RenamedFrom(mid, e, base, dest, o) && a in mid.tree && a != e
    ensures var h := Holder(mid.tree, base, dest);
            if IsDir(mid.tree, a) then IsDir(o.fs.tree, a)
            else Lost(mid.tree, o.fs.tree, a) <==>
                 h.Found? && a == h.at + [Last(dest)] && mid.tree[h.at].dev == mid.tree[e].dev &&
                 mid.tree[a].ino != mid.tree[e].ino
  {
    var h := Holder(mid.tree, base, dest);
    if h.Found? {
      assert Up(h.at + [Last(dest)]) == h.at;
    }
  }

  /**
   * With a relative name the parent is cloned below the working directory, but the file is to go below the
   * directory of descriptor 0: without one the call fails, and the file stays unless it was on the way itself; with
   * one the file goes where the recycled name leads from there, which is the clone if it is the working directory.
   */
  ghost predicate LandsRelative(fs: Fs, proc: Process, e: Path, cs: seq<string>, o: Out)
    requires Valid(fs) && IsDir(fs.tree, proc.cwd) && e in fs.tree && e != [] && Clean(cs)
  {
    match WhyStopped(fs.tree, proc.cwd, cs)
    case Some(x) => o == Out(fs, Err(x))
    case None =>
      var q, mid := Goal(fs.tree, proc.cwd, cs), Clone(fs, proc.cwd, cs, Up(e), proc.umask).fs;
      && CloneDone(fs, mid, proc.cwd, cs, e, proc.umask)
      && (0 !in proc.dirs ==> o == Out(mid, Err(EBADF)))
      && (0 in proc.dirs && !(e <= q) ==> RenamedFrom(mid, e, proc.dirs[0], cs + [Last(e)], o))
  }

  lemma {:induction false} MoveLandsRelative(fs: Fs, proc: Process, dirfd: int, pathname: string, e: Path, m: Path,
                                             dir: string, removedir: bool)
    requires Subject(fs, proc, dirfd, pathname, e) && !IsDir(fs.tree, e) && !IsAbsolute(dir) && |m| < |e|
    requires Stat(fs.tree, proc.cwd, Components(dir)).Found? && Stat(fs.tree, proc.cwd, Components(dir)).at in fs.tree
    ensures Clean(Up(Destination(dir, e, m)))
    ensures LandsRelative(fs, proc, e, Up(Destination(dir, e, m)),
                          MoveInto(fs, proc, dirfd, pathname, e, m, dir, removedir))
  {
    var cs := Up(Destination(dir, e, m));
    ParentName(fs.tree, proc.cwd, dir, e, m);
    CloneLands(fs, proc.cwd, cs, e, proc.umask);
    if WhyStopped(fs.tree, proc.cwd, cs).None? {
      RenameFrom(fs, Clone(fs, proc.cwd, cs, Up(e), proc.umask).fs, proc, dirfd, pathname, e, dir, proc.cwd, cs);
    }
  }

  lemma {:induction false} FileLandsRelative(fs: Fs, proc: Process, env: Environment, dirfd: int, pathname: string,
                                             e: Path, removedir: bool, dir: string, bin: Path, m: Path)
    requires Subject(fs, proc, dirfd, pathname, e) && !IsDir(fs.tree, e) && !IsAbsolute(dir)
    requires Recycles(fs, proc, env, pathname, e, dir, bin, m)
    ensures |m| < |e| && Clean(Up(Destination(dir, e, m)))
    ensures LandsRelative(fs, proc, e, Up(Destination(dir, e, m)),
                          Unlinkat(fs, proc, env, dirfd, pathname, removedir))
  {
    RecyclingName(fs, proc, env, pathname, e, dir, bin, m);
    MoveLandsRelative(fs, proc, dirfd, pathname, e, m, dir, removedir);
  }

  /** Without descriptor 0 a bin with a relative name never receives a file: the call fails. */
  lemma {:induction false} RelativeBinFails(fs: Fs, proc: Process, env: Environment, dirfd: int, pathname: string,
                                            e: Path, removedir: bool, dir: string, bin: Path, m: Path)
    requires Subject(fs, proc, dirfd, pathname, e) && !IsDir(fs.tree, e) && !IsAbsolute(dir) && 0 !in proc.dirs
    requires Recycles(fs, proc, env, pathname, e, dir, bin, m)
    ensures |m| < |e|
    ensures var t, cs, o := fs.tree, Up(Destination(dir, e, m)), Unlinkat(fs, proc, env, dirfd, pathname, removedir);
            && o.ret == Err(if WhyStopped(t, proc.cwd, cs).Some? then WhyStopped(t, proc.cwd, cs).value else EBADF)
            && (Kept(t, o.fs.tree, e) <==> WhyStopped(t, proc.cwd, cs).Some? || !(e <= Goal(t, proc.cwd, cs)))
    ensures MountedOnce(fs.tree) && IsDir(fs.tree, bin) &&
            Goal(fs.tree, proc.cwd, Up(Destination(dir, e, m))) == Up(Place(bin, e, m)) ==>
              Kept(fs.tree, Unlinkat(fs, proc, env, dirfd, pathname, removedir).fs.tree, e)
  {
    RecyclingName(fs, proc, env, pathname, e, dir, bin, m);
    FileLandsRelative(fs, proc, env, dirfd, pathname, e, removedir, dir, bin, m);
    PlaceParts(bin, e, m);
    var p := Place(bin, e, m);
    assert bin <= Up(p) by { assert Up(p)[..|bin|] == bin; }
    if MountedOnce(fs.tree) && IsDir(fs.tree, bin) && e <= Up(p) {
      NotBelowBin(fs, e, bin, m);
      OnWayToBin(fs.tree, bin, Up(p), e);
    }
  }

  /**
   * With a directory on descriptor 0 a file that is not on its own way moves to where the recycled name leads from
   * that directory, once the parent is cloned below the working directory: exactly when the name leads to a directory
   * there, on the file's device, that has no directory of the file's name.
   */
  lemma {:induction false} RelativeBinLands(fs: Fs, proc: Process, env: Environment, dirfd: int, pathname: string,
                                            e: Path, removedir: bool, dir: string, bin: Path, m: Path)
    requires Subject(fs, proc, dirfd, pathname, e) && !IsDir(fs.tree, e) && !IsAbsolute(dir) && 0 in proc.dirs
    requires Recycles(fs, proc, env, pathname, e, dir, bin, m)
    ensures |m| < |e| && Clean(Up(Destination(dir, e, m)))
    ensures var t, cs, o := fs.tree, Up(Destination(dir, e, m)), Unlinkat(fs, proc, env, dirfd, pathname, removedir);
            var q, mid := Goal(t, proc.cwd, cs), Clone(fs, proc.cwd, cs, Up(e), proc.umask).fs;
            WhyStopped(t, proc.cwd, cs).None? && !(e <= q) ==>
              var h := Holder(mid.tree, proc.dirs[0], Destination(dir, e, m));
              && (proc.dirs[0] == proc.cwd ==> h.Found? && h.at == q)
              && (h.Found? ==> h.at in mid.tree)
              && (o.ret.Ok? <==>
                    h.Found? && mid.tree[h.at].dev == t[e].dev && !IsDir(mid.tree, h.at + [Last(e)]))
              && if o.ret.Err? then Kept(t, o.fs.tree, e)
                 else
                   var p := h.at + [Last(e)];
                   if p in mid.tree && mid.tree[p].ino == t[e].ino then Kept(t, o.fs.tree, e)
                   else e !in o.fs.tree && p in o.fs.tree && o.fs.tree[p] == t[e]
  {
    RecyclingName(fs, proc, env, pathname, e, dir, bin, m);
    FileLandsRelative(fs, proc, env, dirfd, pathname, e, removedir, dir, bin, m);
    var cs, o := Up(Destination(dir, e, m)), Unlinkat(fs, proc, env, dirfd, pathname, removedir);
    if WhyStopped(fs.tree, proc.cwd, cs).None? && !(e <= Goal(fs.tree, proc.cwd, cs)) {
      var mid := Clone(fs, proc.cwd, cs, Up(e), proc.umask).fs;
      RenamedFate(fs.tree, mid, e, proc.dirs[0], cs + [Last(e)], o);
    }
  }

  /**
   * The files that a call with a relative bin destroys besides: the one in the way of the clone, and the one that the
   * file is renamed onto, on its device and not its inode.
   */
  lemma {:induction false} RelativeOthersLost(fs: Fs, proc: Process, env: Environment, dirfd: int, pathname: string,
                                              e: Path, removedir: bool, dir: string, bin: Path, m: Path, a: Path)
    requires Subject(fs, proc, dirfd, pathname, e) && !IsDir(fs.tree, e) && !IsAbsolute(dir)
    requires Recycles(fs, proc, env, pathname, e, dir, bin, m) && a in fs.tree && !IsDir(fs.tree, a) && a != e
    ensures |m| < |e| && Clean(Up(Destination(dir, e, m)))
    ensures var t, cs, o := fs.tree, Up(Destination(dir, e, m)), Unlinkat(fs, proc, env, dirfd, pathname, removedir);
            var q, mid := Goal(t, proc.cwd, cs), Clone(fs, proc.cwd, cs, Up(e), proc.umask).fs;
            0 !in proc.dirs || WhyStopped(t, proc.cwd, cs).Some? || !(e <= q) ==>
              (Lost(t, o.fs.tree, a) <==>
                 StandsInWay(t, proc.cwd, cs, a) ||
                 (WhyStopped(t, proc.cwd, cs).None? && 0 in proc.dirs &&
                  var h := Holder(mid.tree, proc.dirs[0], Destination(dir, e, m));
                  h.Found? && a == h.at + [Last(e)] && h.at in mid.tree && mid.tree[h.at].dev == t[e].dev &&
                  t[a].ino != t[e].ino))
  {
    RecyclingName(fs, proc, env, pathname, e, dir, bin, m);
    FileLandsRelative(fs, proc, env, dirfd, pathname, e, removedir, dir, bin, m);
    var cs, o := Up(Destination(dir, e, m)), Unlinkat(fs, proc, env, dirfd, pathname, removedir);
    LostRelative(fs, proc, e, cs, o, a);
  }

  lemma {:induction false} LostRelative(fs: Fs, proc: Process, e: Path, cs: seq<string>, o: Out, a: Path)
    requires Valid(fs) && IsDir(fs.tree, proc.cwd) && e in fs.tree && !IsDir(fs.tree, e) && e != [] && Clean(cs)
    requires Names(cs[Reach(fs.tree, proc.cwd, cs)..]) && LandsRelative(fs, proc, e, cs, o)
    requires a in fs.tree && !IsDir(fs.tree, a) && a != e
    ensures var t, q, mid := fs.tree, Goal(fs.tree, proc.cwd, cs), Clone(fs, proc.cwd, cs, Up(e), proc.umask).fs;
            0 !in proc.dirs || WhyStopped(t, proc.cwd, cs).Some? || !(e <= q) ==>
              (Lost(t, o.fs.tree, a) <==>
                 StandsInWay(t, proc.cwd, cs, a) ||
                 (WhyStopped(t, proc.cwd, cs).None? && 0 in proc.dirs &&
                  var h := Holder(mid.tree, proc.dirs[0], cs + [Last(e)]);
                  h.Found? && a == h.at + [Last(e)] && h.at in mid.tree && mid.tree[h.at].dev == t[e].dev &&
                  t[a].ino != t[e].ino))
  {
    var t, at := fs.tree, proc.cwd;
    if WhyStopped(t, at, cs).None? {
      var mid := Clone(fs, at, cs, Up(e), proc.umask).fs;
      LostByClone(fs, mid, at, cs, e, proc.umask, a);
      if 0 in proc.dirs && !(e <= Goal(t, at, cs)) {
        RenamedOthers(mid, e, proc.dirs[0], cs + [Last(e)], o, a);
      }
    }
  }
}
