/** The system as one process sees it: system calls that take path names. */
module Kernel {
  import opened Text
  import opened PathText
  import opened FileTree
  import opened ClonePath

  const AT_FDCWD: int := -100

  /** Working directory, directories behind descriptors, and file creation mask. */
  datatype Process = Process(cwd: Path, dirs: map<int, Path>, umask: Mode)

  /** The process's directories exist. */
  ghost predicate Live(t: Tree, proc: Process) {
    IsDir(t, proc.cwd) && forall fd :: fd in proc.dirs ==> IsDir(t, proc.dirs[fd])
  }

  /** Where the lookup of a path name begins. */
  function Base(s: string, cwd: Path): Path {
    if IsAbsolute(s) then [] else cwd
  }

  /** Where the lookup of a name relative to a descriptor begins, if it can. */
  function BaseAt(proc: Process, dirfd: int, s: string): Lookup {
    if IsAbsolute(s) then Found([], MAX_LINKS)
    else if dirfd == AT_FDCWD then Found(proc.cwd, MAX_LINKS)
    else if dirfd in proc.dirs then Found(proc.dirs[dirfd], MAX_LINKS)
    else Missing(EBADF)
  }

  function StatText(t: Tree, cwd: Path, s: string): Lookup {
    if s == "" then Missing(ENOENT) else Stat(t, Base(s, cwd), Components(s))
  }

  /** A pathname whose last component names a directory entry. */
  predicate NamesEntry(pathname: string) {
    Components(pathname) != [] && !IsDots(Last(Components(pathname)))
  }

  /** A pathname that ends in a slash does not stand for a file, nor for a link. */
  predicate SlashFits(t: Tree, proc: Process, dirfd: int, pathname: string)
    requires Components(pathname) != []
  {
    var e := Entry(t, proc, dirfd, pathname);
    pathname != "" && pathname[|pathname| - 1] == '/' && e.Found? && e.at in t ==> IsDir(t, e.at)
  }

  /** The directory entry that a pathname stands for; it need not exist. */
  function Entry(t: Tree, proc: Process, dirfd: int, pathname: string): Lookup
    requires Components(pathname) != []
  {
    match BaseAt(proc, dirfd, pathname)
    case Missing(e) => Missing(e)
    case Found(at, _) =>
      match Holder(t, at, Components(pathname))
      case Missing(e) => Missing(e)
      case Found(q, n) => Found(q + [Last(Components(pathname))], n)
  }

  /** An absolute name leads where it says, whatever the descriptor and the working directory are. */
  lemma {:induction false} AbsoluteName(t: Tree, proc: Process, dirfd: int, e: Path)
    requires Rooted(t) && Names(e) && e != [] && IsDir(t, Up(e))
    ensures Components(Render(e)) != [] && Entry(t, proc, dirfd, Render(e)) == Found(e, 40)
  {
    ComponentsRender(e);
    assert Walk(t, [], Up(e), MAX_LINKS) == Found(Up(e), MAX_LINKS) by {
      PlainLookup(t, Up(e), MAX_LINKS);
    }
    assert e == Up(e) + [Last(e)];
  }

  /** The directory that relative names start in: the working directory, or the one behind the descriptor. */
  ghost predicate StartsAt(proc: Process, dirfd: int, d: Path) {
    if dirfd == -100 then d == proc.cwd else dirfd in proc.dirs && d == proc.dirs[dirfd]
  }

  /** A relative name stands for what the text of its starting directory, a slash and the name stand for. */
  lemma {:induction false} RelativeName(t: Tree, proc: Process, dirfd: int, d: Path, name: string, other: int)
    requires Rooted(t) && Live(t, proc) && Components(name) != [] && name[0] != '/' && StartsAt(proc, dirfd, d)
    ensures Components(Render(d) + "/" + name) != []
    ensures Entry(t, proc, dirfd, name) == Entry(t, proc, other, Render(d) + "/" + name)
  {
    var full, cs := Render(d) + "/" + name, Components(name);
    ComponentsRender(d);
    ComponentsConcat(Render(d), name);
    assert full[0] == Render(d)[0];
    PlainLookup(t, d, MAX_LINKS);
    assert Up(d + cs) == d + Up(cs) && Last(d + cs) == Last(cs);
    WalkConcat(t, [], d, Up(cs), MAX_LINKS);
  }

  /** A single name is an entry of the starting directory. */
  lemma {:induction false} PlainName(t: Tree, proc: Process, dirfd: int, d: Path, c: string)
    requires Rooted(t) && Live(t, proc) && Name(c) && StartsAt(proc, dirfd, d)
    ensures Components(c) == [c] && Entry(t, proc, dirfd, c) == Found(d + [c], 40)
  {
    ComponentsOfName(c);
    assert Up([c]) == [];
  }

  /** Without a starting directory the lookup of a relative name answers EBADF. */
  lemma {:induction false} NoStart(t: Tree, proc: Process, dirfd: int, name: string)
    requires Components(name) != [] && name[0] != '/' && dirfd != -100 && dirfd !in proc.dirs
    ensures Entry(t, proc, dirfd, name) == Missing(EBADF)
  {
  }

  /** stat finds a directory by its text, and a relative name by the working directory's text, a slash and the name. */
  lemma {:induction false} RelativeStat(t: Tree, cwd: Path, name: string, cwd': Path)
    requires Rooted(t) && IsDir(t, cwd) && name != "" && name[0] != '/'
    ensures StatText(t, cwd', Render(cwd)) == Found(cwd, 40) && StatText(t, cwd', "") == Missing(ENOENT)
    ensures StatText(t, cwd, name) == StatText(t, cwd', Render(cwd) + "/" + name)
  {
    ComponentsRender(cwd);
    ComponentsConcat(Render(cwd), name);
    assert (Render(cwd) + "/" + name)[0] == Render(cwd)[0];
    PlainLookup(t, cwd, MAX_LINKS);
    WalkConcat(t, [], cwd, Components(name), MAX_LINKS);
  }

  /** unlinkat(2) of the C library. */
  function RealUnlinkat(fs: Fs, proc: Process, dirfd: int, pathname: string, removedir: bool): Out {
    match BaseAt(proc, dirfd, pathname)
    case Missing(e) => Out(fs, Err(e))
    case Found(at, _) =>
      if removedir then Rmdir(fs, at, Components(pathname)) else Unlink(fs, at, Components(pathname))
  }

  /** renameat(2): each name relative to its own descriptor. */
  function RenameAt(fs: Fs, proc: Process, dirfd: int, pathname: string, newfd: int, newname: string): Out
    requires Components(pathname) != []
  {
    match BaseAt(proc, dirfd, pathname)
    case Missing(e) => Out(fs, Err(e))
    case Found(at, _) =>
      match BaseAt(proc, newfd, newname)
      case Missing(e) => Out(fs, Err(e))
      case Found(at', _) => Rename(fs, at, Components(pathname), at', Components(newname))
  }

  /** What brings the retry loop nearer its end: an obstruction less, or the parent in place at last. */
  ghost predicate Progress(t: Tree, t': Tree, at: Path, path: seq<string>) {
    || NonDirs(t') < NonDirs(t)
    || (NonDirs(t') <= NonDirs(t) && ResolvesToDir(t', at, Up(path)) && !ResolvesToDir(t, at, Up(path)))
  }

  class System {
    var fs: Fs
    const proc: Process

    constructor (fs: Fs, proc: Process)
      ensures this.fs == fs && this.proc == proc
    {
      this.fs := fs;
      this.proc := proc;
    }

    method MkdirPath(s: string, mode: Mode) returns (r: Ret)
      modifies this
      ensures Out(fs, r) == Mkdir(old(fs), Base(s, proc.cwd), Components(s), mode, proc.umask)
    {
      var o := Mkdir(fs, Base(s, proc.cwd), Components(s), mode, proc.umask);
      fs, r := o.fs, o.ret;
    }

    method UnlinkPath(s: string) returns (r: Ret)
      modifies this
      ensures Out(fs, r) == Unlink(old(fs), Base(s, proc.cwd), Components(s))
    {
      var o := Unlink(fs, Base(s, proc.cwd), Components(s));
      fs, r := o.fs, o.ret;
    }

    method ChmodPath(s: string, mode: Mode)
      modifies this
      ensures fs == Chmod(old(fs), Base(s, proc.cwd), Components(s), mode)
    {
      fs := Chmod(fs, Base(s, proc.cwd), Components(s), mode);
    }

    method ChownPath(s: string, uid: nat, gid: nat)
      modifies this
      ensures fs == Chown(old(fs), Base(s, proc.cwd), Components(s), uid, gid)
    {
      fs := Chown(fs, Base(s, proc.cwd), Components(s), uid, gid);
    }

    method UnlinkEntry(dirfd: int, pathname: string, removedir: bool) returns (r: Ret)
      modifies this
      ensures Out(fs, r) == RealUnlinkat(old(fs), proc, dirfd, pathname, removedir)
    {
      var o := RealUnlinkat(fs, proc, dirfd, pathname, removedir);
      fs, r := o.fs, o.ret;
    }

    method RenameEntry(dirfd: int, pathname: string, newfd: int, newname: string) returns (r: Ret)
      requires Components(pathname) != []
      modifies this
      ensures Out(fs, r) == RenameAt(old(fs), proc, dirfd, pathname, newfd, newname)
    {
      var o := RenameAt(fs, proc, dirfd, pathname, newfd, newname);
      fs, r := o.fs, o.ret;
    }

    // -------------------------------------------------------------- recyclix_clonepath_recursive

    /** Makes the directory pPath, and its parents where they are missing, after the model of pDonor. */
    method ClonePathRecursive(pPath: string, pDonor: string) returns (ret: Ret)
      requires Valid(fs) && IsDir(fs.tree, proc.cwd)
      requires pPath != "" && IsAbsolute(pDonor) && |pPath| < PATH_BUFFER && |pDonor| < PATH_BUFFER
      modifies this
      ensures Valid(fs) && KeepsDirs(old(fs.tree), fs.tree)
      ensures Out(fs, ret) == Clone(old(fs), Base(pPath, proc.cwd), Components(pPath), Components(pDonor), proc.umask)
      decreases |Components(pPath)|, 1
    {
      ghost var at, path, donor := Base(pPath, proc.cwd), Components(pPath), Components(pDonor);
      var w := StatText(fs.tree, proc.cwd, pDonor);
      if w.Missing? {
        return Err(w.errno);
      }
      WalkStays(fs.tree, [], Components(pDonor), MAX_LINKS);
      var node := fs.tree[w.at];
      var again := true;
      ret := Ok;
      while again
        invariant Valid(fs) && KeepsDirs(old(fs.tree), fs.tree)
        invariant TryMkdir(old(fs), at, path, donor, node, proc.umask) ==
                  if again then TryMkdir(fs, at, path, donor, node, proc.umask) else Out(fs, ret)
        decreases again, NonDirs(fs.tree), if ResolvesToDir(fs.tree, at, Up(path)) then 0 else 1
      {
        again, ret := TryOnce(pPath, pDonor, node);
      }
      if ret.Ok? {
        ChownKeeps(fs, at, path, node.uid, node.gid);
        ChownPath(pPath, node.uid, node.gid);
      }
    }

    /** One mkdir and the handling of its failure; `again` is the jump back to try_mkdir. */
    method TryOnce(pPath: string, pDonor: string, node: Node) returns (again: bool, ret: Ret)
      requires Valid(fs) && IsDir(fs.tree, proc.cwd)
      requires pPath != "" && IsAbsolute(pDonor) && |pPath| < PATH_BUFFER && |pDonor| < PATH_BUFFER
      modifies this
      ensures Valid(fs) && KeepsDirs(old(fs.tree), fs.tree)
      ensures var at, path, donor := Base(pPath, proc.cwd), Components(pPath), Components(pDonor);
              TryMkdir(old(fs), at, path, donor, node, proc.umask) ==
              if again then TryMkdir(fs, at, path, donor, node, proc.umask) else Out(fs, ret)
      ensures again ==> Progress(old(fs.tree), fs.tree, Base(pPath, proc.cwd), Components(pPath))
      decreases |Components(pPath)|, 0, 1
    {
      ghost var at, path := Base(pPath, proc.cwd), Components(pPath);
      MkdirKeeps(fs, at, path, node.mode, proc.umask);
      ret := MkdirPath(pPath, node.mode);
      again := false;
      if ret.Err? {
        assert fs == old(fs);
        if ret.errno == ENOENT || ret.errno == ENOTDIR {
          ret := ClearParent(pPath, pDonor);
          again := ret.Ok?;
        } else if ret.errno == EEXIST {
          again, ret := SettleExisting(pPath, node);
        }
      }
    }

    /** The parent is not a directory: an obstruction is removed, a missing one cloned. */
    method ClearParent(pPath: string, pDonor: string) returns (ret: Ret)
      requires Valid(fs) && IsDir(fs.tree, proc.cwd)
      requires pPath != "" && IsAbsolute(pDonor) && |pPath| < PATH_BUFFER && |pDonor| < PATH_BUFFER
      requires Components(pPath) != [] && !ResolvesToDir(fs.tree, Base(pPath, proc.cwd), Up(Components(pPath)))
      modifies this
      ensures Valid(fs) && KeepsDirs(old(fs.tree), fs.tree)
      ensures var at, up := Base(pPath, proc.cwd), Up(Components(pPath));
              var u := Unlink(old(fs), at, up);
              Out(fs, ret) == if u.ret.Err? && u.ret.errno == ENOENT
                              then Clone(old(fs), at, up, Up(Components(pDonor)), proc.umask) else u
      ensures ret.Ok? ==> Progress(old(fs.tree), fs.tree, Base(pPath, proc.cwd), Components(pPath))
      decreases |Components(pPath)|, 0, 0
    {
      ghost var at, path := Base(pPath, proc.cwd), Components(pPath);
      assert |path| == 1 ==> Up(path) == [];
      var parent, dparent := ParentTexts(pPath, pDonor);
      UnlinkKeeps(fs, at, Up(path));
      ret := UnlinkPath(parent);
      if ret.Err? && ret.errno == ENOENT {
        assert fs == old(fs);
        ret := ClonePathRecursive(parent, dparent);
      }
    }

    /** The target exists: a directory takes the mode, anything else is removed for another try. */
    method SettleExisting(pPath: string, node: Node) returns (again: bool, ret: Ret)
      requires Valid(fs) && IsDir(fs.tree, proc.cwd) && pPath != ""
      modifies this
      ensures Valid(fs) && KeepsDirs(old(fs.tree), fs.tree)
      ensures var at, path := Base(pPath, proc.cwd), Components(pPath);
              match Stat(old(fs.tree), at, path)
              case Missing(e) => fs == old(fs) && !again && ret == Err(e)
              case Found(q, _) =>
                if IsDir(old(fs.tree), q) then
                  fs == Chmod(old(fs), at, path, node.mode) && !again && ret == Ok
                else
                  Out(fs, ret) == Unlink(old(fs), at, path) && again == ret.Ok?
      ensures again ==> Progress(old(fs.tree), fs.tree, Base(pPath, proc.cwd), Components(pPath))
    {
      ghost var at, path := Base(pPath, proc.cwd), Components(pPath);
      again := false;
      var s := StatText(fs.tree, proc.cwd, pPath);
      if s.Missing? {
        ret := Err(s.errno);
      } else if IsDir(fs.tree, s.at) {
        ChmodKeeps(fs, at, path, node.mode);
        ChmodPath(pPath, node.mode);
        ret := Ok;
      } else {
        UnlinkKeeps(fs, at, path);
        ret := UnlinkPath(pPath);
        again := ret.Ok?;
      }
    }

    /** The two dirname calls: path and donor are shortened in lockstep. */
    method ParentTexts(pPath: string, pDonor: string) returns (parent: string, dparent: string)
      requires pPath != "" && IsAbsolute(pDonor) && |pPath| < PATH_BUFFER && |pDonor| < PATH_BUFFER
      requires Components(pPath) != [] && (IsAbsolute(pPath) || |Components(pPath)| > 1)
      ensures parent != "" && IsAbsolute(dparent) && |parent| < PATH_BUFFER && |dparent| < PATH_BUFFER
      ensures IsAbsolute(parent) <==> IsAbsolute(pPath)
      ensures Components(parent) == Up(Components(pPath)) && Components(dparent) == Up(Components(pDonor))
    {
      parent, dparent := Dirname(pPath), Dirname(pDonor);
      DirnameDropsLast(pPath);
      DirnameShort(pPath);
      DirnameShort(pDonor);
      if Components(pDonor) == [] {
        DirnameOfRoot(pDonor);
      } else {
        DirnameDropsLast(pDonor);
      }
    }
  }
}
