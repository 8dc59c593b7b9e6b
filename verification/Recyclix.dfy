/** unlinkat of recyclix: choosing a recycle bin, and moving the file there. */
module Recyclix {
  import opened Text
  import opened PathText
  import opened FileTree
  import opened ClonePath
  import opened MountPoint
  import opened Kernel
  import opened SizeLimit
  import opened BinConfig

  /** What the routine reads from the environment. */
  datatype Environment = Environment(recycler: Option<string>, home: Option<string>, regex: Regex)

  // ---------------------------------------------------------------- which bin

  datatype Verdict = Pass | Take(dir: string, bin: Path) | Bad

  /** A file within the size limits, or without a size. */
  predicate WithinLimits(node: Node, o: Settings) {
    node.kind.Regular? ==> o.min <= |node.kind.content| && (o.max != 0 ==> |node.kind.content| <= o.max)
  }

  /** What one item of RECYCLER says about a subject; options come before everything else. */
  function Judge(t: Tree, cwd: Path, env: Environment, item: string, pathname: string, node: Node): Verdict {
    var text := Expand(item, env.home);
    if text == "" then Pass
    else match ItemSettings(text, env.regex, pathname)
      case None => Bad
      case Some(o) =>
        match StatText(t, cwd, BinDir(text))
        case Missing(_) => Pass
        case Found(b, _) =>
          if b in t && t[b].dev == node.dev && WithinLimits(node, o) && !o.excluded then Take(BinDir(text), b)
          else Pass
  }

  /** The sizes that an item's options let in: those of its last size option, or all but empty files. */
  ghost predicate SizeFits(options: seq<string>, size: nat) {
    match LastOf(options, IsLimit)
    case None => size > 0
    case Some(l) => LimitsOf(l).min <= size && (LimitsOf(l).max != 0 ==> size <= LimitsOf(l).max)
  }

  /** The item's last exclusion, if any, matches the name given. */
  ghost predicate ExcludedBy(options: seq<string>, regex: Regex, pathname: string) {
    var x := LastOf(options, IsExclusion);
    x.Some? && regex.matches(x.value[1..], pathname)
  }

  /**
   * What the options of an item come to: it is bad exactly when one of them is unacceptable, and it is taken
   * exactly when its directory is on the subject's device, the size fits and nothing excludes the name.
   */
  lemma {:induction false} JudgeExact(t: Tree, cwd: Path, env: Environment, item: string, pathname: string, node: Node)
    ensures var text := Expand(item, env.home);
            var options, v := OptionFields(text), Judge(t, cwd, env, item, pathname, node);
            && (v == Bad <==> text != "" && !AllAcceptable(options, env.regex))
            && (v.Take? <==>
                  && text != "" && AllAcceptable(options, env.regex)
                  && StatText(t, cwd, BinDir(text)).Found?
                  && StatText(t, cwd, BinDir(text)).at in t
                  && t[StatText(t, cwd, BinDir(text)).at].dev == node.dev
                  && (node.kind.Regular? ==> SizeFits(options, |node.kind.content|))
                  && !ExcludedBy(options, env.regex, pathname))
            && (v.Take? ==> v.dir == BinDir(text) && v.bin == StatText(t, cwd, BinDir(text)).at)
  {
    LastOptionWins(DEFAULTS, OptionFields(Expand(item, env.home)), env.regex, pathname);
  }

  /** The first item that does not pass. */
  function Choose(t: Tree, cwd: Path, env: Environment, items: seq<string>, pathname: string, node: Node): Verdict {
    if items == [] then Pass
    else
      var v := Judge(t, cwd, env, items[0], pathname, node);
      if v == Pass then Choose(t, cwd, env, items[1..], pathname, node) else v
  }

  /** Item i is the first that does not pass, and its verdict is v. */
  ghost predicate FirstAt(t: Tree, cwd: Path, env: Environment, items: seq<string>, pathname: string, node: Node,
                          i: nat, v: Verdict) {
    && i < |items| && v != Pass && Judge(t, cwd, env, items[i], pathname, node) == v
    && forall j :: 0 <= j < i ==> Judge(t, cwd, env, items[j], pathname, node) == Pass
  }

  lemma {:induction false} FirstAtTail(t: Tree, cwd: Path, env: Environment, items: seq<string>, pathname: string,
                                       node: Node, i: nat, v: Verdict)
    requires items != [] && Judge(t, cwd, env, items[0], pathname, node) == Pass
    ensures FirstAt(t, cwd, env, items[1..], pathname, node, i, v) <==>
            FirstAt(t, cwd, env, items, pathname, node, i + 1, v)
  {
    var rest := items[1..];
    assert forall j :: 0 <= j < |rest| ==> rest[j] == items[j + 1];
    assert forall j :: 1 <= j < |items| ==> items[j] == rest[j - 1];
  }

  /** The choice is the verdict on the first item that is not passed over. */
  lemma {:induction false} ChooseFirst(t: Tree, cwd: Path, env: Environment, items: seq<string>, pathname: string,
                                       node: Node)
    ensures var v := Choose(t, cwd, env, items, pathname, node);
            if v == Pass then forall i :: 0 <= i < |items| ==> Judge(t, cwd, env, items[i], pathname, node) == Pass
            else exists i :: FirstAt(t, cwd, env, items, pathname, node, i, v)
    decreases |items|
  {
    if items != [] {
      var v := Judge(t, cwd, env, items[0], pathname, node);
      if v != Pass {
        assert FirstAt(t, cwd, env, items, pathname, node, 0, v);
      } else {
        var rest := items[1..];
        ChooseFirst(t, cwd, env, rest, pathname, node);
        var w := Choose(t, cwd, env, rest, pathname, node);
        if w != Pass {
          var i :| FirstAt(t, cwd, env, rest, pathname, node, i, w);
          FirstAtTail(t, cwd, env, items, pathname, node, i, w);
        } else {
          assert forall j :: 1 <= j < |items| ==> items[j] == rest[j - 1];
        }
      }
    }
  }

  /** And the other way: whatever item comes first decides. */
  lemma {:induction false} FirstDecides(t: Tree, cwd: Path, env: Environment, items: seq<string>, pathname: string,
                                        node: Node, i: nat, v: Verdict)
    requires FirstAt(t, cwd, env, items, pathname, node, i, v)
    ensures Choose(t, cwd, env, items, pathname, node) == v
    decreases i
  {
    if i > 0 {
      assert Choose(t, cwd, env, items[1..], pathname, node) == v by {
        FirstAtTail(t, cwd, env, items, pathname, node, i - 1, v);
        FirstDecides(t, cwd, env, items[1..], pathname, node, i - 1, v);
      }
    }
  }

  // ---------------------------------------------------------------- where to

  /** The components of the recycled name: the bin's directory and the way from the mount point. */
  function Destination(dir: string, e: Path, m: Path): seq<string>
    requires |m| <= |e|
  {
    Components(dir) + e[|m|..]
  }

  /** Clones the directories and moves subject e into the bin; m is the mount point. */
  function MoveInto(fs: Fs, proc: Process, dirfd: int, pathname: string, e: Path, m: Path, dir: string,
                    removedir: bool): Out
    requires Valid(fs) && IsDir(fs.tree, proc.cwd) && Components(pathname) != []
    requires e in fs.tree && |m| <= |e|
  {
    var dest, start := Destination(dir, e, m), Base(dir, proc.cwd);
    if IsDir(fs.tree, e) then
      var c := Clone(fs, start, dest, e, proc.umask);
      if c.ret.Ok? then RealUnlinkat(c.fs, proc, dirfd, pathname, removedir) else c
    else
      var c := Clone(fs, start, Up(dest), Up(e), proc.umask);
      if c.ret.Ok? then RenameInto(c.fs, proc, dirfd, pathname, dir, dest) else c
  }

  /** The renameat call: the new name is relative to descriptor 0 unless it is absolute. */
  function RenameInto(fs: Fs, proc: Process, dirfd: int, pathname: string, dir: string, dest: seq<string>): Out
    requires Components(pathname) != []
  {
    match BaseAt(proc, dirfd, pathname)
    case Missing(x) => Out(fs, Err(x))
    case Found(at, _) =>
      match BaseAt(proc, 0, dir)
      case Missing(x) => Out(fs, Err(x))
      case Found(at', _) => Rename(fs, at, Components(pathname), at', dest)
  }

  /** Moves subject e into the bin, or removes it for good when it is there already. */
  function Recycle(fs: Fs, proc: Process, dirfd: int, pathname: string, e: Path, dir: string, bin: Path,
                   removedir: bool): Out
    requires Valid(fs) && IsDir(fs.tree, proc.cwd) && Components(pathname) != []
    requires e in fs.tree && e != [] && bin in fs.tree
  {
    ClimbExact(fs.tree, e, fs.tree[e].dev, fs.tree[bin].ino);
    match ClimbFrom(fs.tree, e, fs.tree[e].dev, fs.tree[bin].ino)
    case UnderBin => RealUnlinkat(fs, proc, dirfd, pathname, removedir)
    case Mount(m) => MoveInto(fs, proc, dirfd, pathname, e, m, dir, removedir)
  }

  /** unlinkat(2) as recyclix serves it. */
  function Unlinkat(fs: Fs, proc: Process, env: Environment, dirfd: int, pathname: string, removedir: bool): Out
    requires Valid(fs) && Live(fs.tree, proc) && Components(pathname) != []
  {
    if env.recycler.None? then RealUnlinkat(fs, proc, dirfd, pathname, removedir)
    else match Entry(fs.tree, proc, dirfd, pathname)
      case Missing(x) => Out(fs, Err(x))
      case Found(e, _) =>
        if e !in fs.tree then Out(fs, Err(ENOENT))
        else
          var items := Split(env.recycler.value, ':');
          match Choose(fs.tree, proc.cwd, env, items, pathname, fs.tree[e])
          case Pass => RealUnlinkat(fs, proc, dirfd, pathname, removedir)
          case Bad => Out(fs, Err(ECANCELED))
          case Take(dir, bin) =>
            TakenInTree(fs.tree, proc.cwd, env, items, pathname, fs.tree[e]);
            Recycle(fs, proc, dirfd, pathname, e, dir, bin, removedir)
  }

  /** A call without a subject answers what the lookup does, and changes nothing, whatever the environment says. */
  lemma {:induction false} NoSubject(fs: Fs, proc: Process, env: Environment, dirfd: int, pathname: string,
                                     removedir: bool)
    requires Valid(fs) && Live(fs.tree, proc) && NamesEntry(pathname)
    requires var w := Entry(fs.tree, proc, dirfd, pathname); w.Found? ==> w.at !in fs.tree
    ensures var w := Entry(fs.tree, proc, dirfd, pathname);
            Unlinkat(fs, proc, env, dirfd, pathname, removedir) ==
            Out(fs, Err(if w.Missing? then w.errno else ENOENT))
  {
  }

  /** A chosen bin is in the tree, on the subject's device, and its name leads to it. */
  lemma {:induction false} TakenInTree(t: Tree, cwd: Path, env: Environment, items: seq<string>, pathname: string,
                                       node: Node)
    ensures var v := Choose(t, cwd, env, items, pathname, node);
            v.Take? ==>
              && v.bin in t && t[v.bin].dev == node.dev && v.dir != ""
              && StatText(t, cwd, v.dir).Found? && StatText(t, cwd, v.dir).at == v.bin
    decreases |items|
  {
    if items != [] {
      TakenInTree(t, cwd, env, items[1..], pathname, node);
    }
  }

  // ---------------------------------------------------------------- the subject's own name

  /** A name written as the code does: the directory's text, a slash, and the name given. */
  function FullText(proc: Process, dirfd: int, pathname: string): string
    requires BaseAt(proc, dirfd, pathname).Found?
  {
    if IsAbsolute(pathname) then pathname
    else Render(BaseAt(proc, dirfd, pathname).at) + "/" + pathname
  }

  /** An absolute name as it is; any other behind the starting directory's text and a slash. */
  lemma {:induction false} FullTextIs(proc: Process, dirfd: int, d: Path, pathname: string)
    requires StartsAt(proc, dirfd, d)
    ensures BaseAt(proc, dirfd, pathname).Found?
    ensures FullText(proc, dirfd, pathname) ==
            if "/" <= pathname then pathname else Render(d) + "/" + pathname
  {
    assert "/" <= pathname <==> IsAbsolute(pathname);
  }

  lemma {:induction false} FullTextComponents(t: Tree, proc: Process, dirfd: int, pathname: string)
    requires Rooted(t) && Live(t, proc) && Components(pathname) != [] && BaseAt(proc, dirfd, pathname).Found?
    ensures var at, full := BaseAt(proc, dirfd, pathname).at, FullText(proc, dirfd, pathname);
            IsDir(t, at) && IsAbsolute(full) && Components(full) == at + Components(pathname)
  {
    var at := BaseAt(proc, dirfd, pathname).at;
    if IsAbsolute(pathname) {
      assert [] + Components(pathname) == Components(pathname);
    } else {
      ComponentsRender(at);
      ComponentsConcat(Render(at), pathname);
      assert Render(at)[0] == FullText(proc, dirfd, pathname)[0];
    }
  }

  /**
   * realpath of the dirname of the full text, and its basename, name the very entry that the kernel
   * resolves: dots, links and relative spellings in the directory part make no difference.
   */
  lemma {:induction false} CanonicalIsEntry(t: Tree, proc: Process, dirfd: int, pathname: string)
    requires Rooted(t) && Live(t, proc) && NamesEntry(pathname)
    requires Entry(t, proc, dirfd, pathname).Found?
    ensures var full := FullText(proc, dirfd, pathname);
            var e := Entry(t, proc, dirfd, pathname).at;
            && IsAbsolute(Dirname(full)) && Name(Last(e)) && Names(e)
            && StatText(t, proc.cwd, Dirname(full)).Found? && StatText(t, proc.cwd, Dirname(full)).at == Up(e)
            && Basename(full) == Last(e)
    ensures pathname[0] != '/' ==>
              exists d :: StartsAt(proc, dirfd, d) && FullText(proc, dirfd, pathname) == Render(d) + "/" + pathname
  {
    var full, cs := FullText(proc, dirfd, pathname), Components(pathname);
    var at := BaseAt(proc, dirfd, pathname).at;
    FullTextComponents(t, proc, dirfd, pathname);
    DirnameDropsLast(full);
    BasenameIsLast(full);
    assert Up(at + cs) == at + Up(cs);
    StatDonor(t, at);
    WalkConcat(t, [], at, Up(cs), MAX_LINKS);
    var e := Entry(t, proc, dirfd, pathname).at;
    assert Up(e) == Holder(t, at, cs).at;
    assert Names(Up(e));
    if pathname[0] != '/' {
      assert StartsAt(proc, dirfd, at);
    }
  }

  lemma {:induction false} PlainCanonical(t: Tree, proc: Process, dirfd: int, c: string)
    requires Rooted(t) && Live(t, proc) && NamesEntry(c) && Entry(t, proc, dirfd, c).Found?
    ensures Name(c) ==> exists d :: StartsAt(proc, dirfd, d) && Entry(t, proc, dirfd, c).at == d + [c]
  {
    if Name(c) {
      var d := BaseAt(proc, dirfd, c).at;
      assert StartsAt(proc, dirfd, d);
      PlainName(t, proc, dirfd, d, c);
    }
  }

  // ---------------------------------------------------------------- the routine

  /** The text of a path buffer: its NUL has to fit as well. */
  type PathText256 = s: string | |s| < PATH_BUFFER witness ""

  /** Lines 216 to 261: the resolved name of the subject. */
  method CanonicalText(sys: System, dirfd: int, pathname: PathText256) returns (fqpath: PathText256)
    requires Valid(sys.fs) && Live(sys.fs.tree, sys.proc) && NamesEntry(pathname)
    requires Entry(sys.fs.tree, sys.proc, dirfd, pathname).Found?
    requires |FullText(sys.proc, dirfd, pathname)| < PATH_BUFFER
    requires var e := Entry(sys.fs.tree, sys.proc, dirfd, pathname).at; |EntryText(Up(e), Last(e))| < PATH_BUFFER
    ensures var e := Entry(sys.fs.tree, sys.proc, dirfd, pathname).at; fqpath == EntryText(Up(e), Last(e))
    ensures Name(pathname) ==> exists d :: StartsAt(sys.proc, dirfd, d) && fqpath == EntryText(d, pathname)
  {
    if pathname[0] == '/' {
      fqpath := pathname;
    } else {
      // getcwd, or readlink of /proc/self/fd/N
      var atdir: PathText256 := Render(BaseAt(sys.proc, dirfd, pathname).at);
      fqpath := atdir + "/" + pathname;
    }
    CanonicalIsEntry(sys.fs.tree, sys.proc, dirfd, pathname);
    PlainCanonical(sys.fs.tree, sys.proc, dirfd, pathname);
    var tmp := Dirname(fqpath);
    var parent := StatText(sys.fs.tree, sys.proc.cwd, tmp);
    var ptr := Render(parent.at);
    fqpath := ptr + "/" + Basename(fqpath);
  }

  lemma {:induction false} RenderPlain(p: Path)
    requires Names(p)
    ensures Render(p) != "//" && (Render(p) == "/" <==> p == [])
  {
    ComponentsRender(p);
    RootTextComponents(1);
    RootTextComponents(2);
  }

  /** dirname of the walking name, "//" set right: the text of the location above. */
  method StepUp(mpPath: PathText256, ghost e: Path, ghost cur: Path) returns (tmp: PathText256)
    requires Names(e) && e != [] && |cur| <= |e| && cur == e[..|cur|]
    requires mpPath == if cur == e then EntryText(Up(e), Last(e)) else Render(cur)
    ensures tmp == Render(Up(cur))
    ensures mpPath == "/" && tmp == "/" <==> cur == []
  {
    DirnameEntry(Up(e), Last(e));
    EntryTextOf(e);
    RootTextComponents(1);
    RenderPlain(cur);
    RenderPlain(Up(cur));
    if cur != [] {
      DirnameRender(cur);
    }
    DirnameShort(mpPath);
    tmp := Dirname(mpPath);
    if tmp == "//" {
      tmp := "/";
    }
  }

  /** The text that the walk ends with. */
  function MountText(e: Path, m: Path): string
    requires e != []
  {
    if m == e then EntryText(Up(e), Last(e)) else Render(m)
  }

  /** Lines 263 to 301: up to the file system's root, unless the recycle bin is met first. */
  method FindMount(sys: System, fqpath: PathText256, dev: nat, recyclerInode: nat, ghost e: Path)
    returns (met: bool, mpPath: PathText256)
    requires Valid(sys.fs) && e in sys.fs.tree && e != [] && fqpath == EntryText(Up(e), Last(e))
    ensures match ClimbFrom(sys.fs.tree, e, dev, recyclerInode)
            case UnderBin => met
            case Mount(m) => !met && |m| <= |e| && mpPath == MountText(e, m) && mpPath <= fqpath &&
                             Components(fqpath[|mpPath|..]) == e[|m|..]
  {
    ghost var t := sys.fs.tree;
    ghost var cur := e;
    mpPath := fqpath;
    while true
      invariant |cur| <= |e| && cur == e[..|cur|] && cur in t
      invariant mpPath == if cur == e then fqpath else Render(cur)
      invariant ClimbFrom(t, e, dev, recyclerInode) == ClimbFrom(t, cur, dev, recyclerInode)
      decreases |cur|
    {
      var tmp := StepUp(mpPath, e, cur);
      ghost var up := Up(cur);
      assert cur != [] ==> up == cur[..|cur| - 1];
      ComponentsRender(up);
      StatDonor(t, up);
      var st2 := sys.fs.tree[StatText(sys.fs.tree, sys.proc.cwd, tmp).at];
      if st2.ino == recyclerInode {
        return true, mpPath;
      }
      if mpPath == "/" && tmp == "/" {
        break;
      }
      if dev != st2.dev {
        break;
      }
      assert up == e[..|up|];
      mpPath := tmp;
      cur := up;
    }
    EntryTextSuffix(e, |cur|);
    met := false;
  }

  /** What the routine writes for a subject and the bin that it takes fits: both names, and the recycled name. */
  ghost predicate TextsFit(t: Tree, proc: Process, dirfd: int, pathname: string, dir: string, bin: Path)
    requires Rooted(t) && bin in t && Components(pathname) != []
    requires Entry(t, proc, dirfd, pathname).Found? && Entry(t, proc, dirfd, pathname).at in t
  {
    var e := Entry(t, proc, dirfd, pathname).at;
    && |FullText(proc, dirfd, pathname)| < PATH_BUFFER
    && |EntryText(Up(e), Last(e))| < PATH_BUFFER
    && match ClimbFrom(t, e, t[e].dev, t[bin].ino)
       case UnderBin => true
       case Mount(m) => |dir| + 1 + |EntryText(Up(e), Last(e))| - |MountText(e, m)| < PATH_BUFFER
  }

  /** The names of the target and its donor: of the directory itself, or of the file's parent. */
  method CloneNames(recycled: PathText256, fqpath: PathText256, isDir: bool, ghost e: Path)
    returns (target: PathText256, donor: PathText256)
    requires Names(e) && e != [] && fqpath == EntryText(Up(e), Last(e)) && recycled != ""
    requires !isDir ==> Components(recycled) != [] && (IsAbsolute(recycled) || |Components(recycled)| > 1)
    ensures target != "" && IsAbsolute(donor) && (IsAbsolute(target) <==> IsAbsolute(recycled))
    ensures Components(target) == if isDir then Components(recycled) else Up(Components(recycled))
    ensures Components(donor) == if isDir then e else Up(e)
  {
    EntryTextOf(e);
    if isDir {
      target, donor := recycled, fqpath;
    } else {
      DirnameDropsLast(recycled);
      DirnameDropsLast(fqpath);
      DirnameShort(recycled);
      DirnameShort(fqpath);
      assert Components("") == [];
      target, donor := Dirname(recycled), Dirname(fqpath);
      DirnameNotEmpty(recycled);
    }
  }

  lemma {:induction false} DirnameNotEmpty(s: string)
    ensures Dirname(s) != ""
  {
  }

  /** A file that is not a directory lies on the device of its parent, so the walk leaves it behind. */
  lemma {:induction false} FileLeavesMount(t: Tree, e: Path, binIno: nat)
    requires Rooted(t) && e in t && e != [] && !IsDir(t, e)
    ensures var c := ClimbFrom(t, e, t[e].dev, binIno); c.Mount? ==> |c.at| < |e| && c.at == e[..|c.at|]
  {
    ClimbExact(t, e, t[e].dev, binIno);
    assert Up(e) == e[..|e| - 1];
    var c := ClimbFrom(t, e, t[e].dev, binIno);
  }

  lemma {:induction false} DestinationDeep(recycled: string, dir: string, e: Path, m: Path)
    requires |m| < |e| && dir != "" && recycled != "" && recycled[0] == dir[0]
    requires Components(recycled) == Destination(dir, e, m)
    ensures Components(recycled) != [] && (IsAbsolute(recycled) || |Components(recycled)| > 1)
  {
    assert !IsAbsolute(dir) ==> Components(dir) != [];
  }

  /** Lines 309 to 342: clone the directories, then rename the file or remove the directory. */
  method MoveIntoBin(sys: System, dirfd: int, pathname: PathText256, removedir: bool, isDir: bool,
                     recycler: PathText256, recycled: PathText256, fqpath: PathText256, ghost e: Path, ghost m: Path)
    returns (ret: Ret)
    requires Valid(sys.fs) && Live(sys.fs.tree, sys.proc) && NamesEntry(pathname)
    requires e in sys.fs.tree && e != [] && isDir == IsDir(sys.fs.tree, e) && fqpath == EntryText(Up(e), Last(e))
    requires |m| <= |e| && (!isDir ==> |m| < |e|)
    requires recycler != "" && recycled != "" && recycled[0] == recycler[0]
    requires Components(recycled) == Destination(recycler, e, m)
    modifies sys
    ensures Out(sys.fs, ret) == MoveInto(old(sys.fs), sys.proc, dirfd, pathname, e, m, recycler, removedir)
  {
    assert Names(e);
    if !isDir {
      DestinationDeep(recycled, recycler, e, m);
    }
    var target, donor := CloneNames(recycled, fqpath, isDir, e);
    ret := sys.ClonePathRecursive(target, donor);
    if ret.Ok? {
      if isDir {
        ret := sys.UnlinkEntry(dirfd, pathname, removedir);
      } else {
        assert BaseAt(sys.proc, 0, recycled) == BaseAt(sys.proc, 0, recycler);
        ret := sys.RenameEntry(dirfd, pathname, 0, recycled);
      }
    }
  }

  /** Line 303: the bin's name and what the subject's name has beyond the mount point. */
  method RecycledText(recycler: PathText256, fqpath: PathText256, mpPath: PathText256, ghost e: Path, ghost m: Path)
    returns (recycled: PathText256)
    requires recycler != "" && mpPath <= fqpath && |recycler| + 1 + |fqpath| - |mpPath| < PATH_BUFFER
    requires |m| <= |e| && Components(fqpath[|mpPath|..]) == e[|m|..]
    ensures recycled != "" && recycled[0] == recycler[0] && Components(recycled) == Destination(recycler, e, m)
  {
    recycled := recycler + "/" + fqpath[|mpPath|..];
    ComponentsConcat(recycler, fqpath[|mpPath|..]);
  }

  /** Lines 213 to 345: a bin is found. */
  method RecycleInto(sys: System, dirfd: int, pathname: PathText256, removedir: bool, st1: Node,
                     recycler: PathText256, recyclerInode: nat, ghost e: Path, ghost bin: Path) returns (ret: Ret)
    requires Valid(sys.fs) && Live(sys.fs.tree, sys.proc) && NamesEntry(pathname)
    requires Entry(sys.fs.tree, sys.proc, dirfd, pathname).Found?
    requires e == Entry(sys.fs.tree, sys.proc, dirfd, pathname).at
    requires e in sys.fs.tree && e != [] && st1 == sys.fs.tree[e]
    requires recycler != "" && bin in sys.fs.tree && recyclerInode == sys.fs.tree[bin].ino
    requires TextsFit(sys.fs.tree, sys.proc, dirfd, pathname, recycler, bin)
    modifies sys
    ensures Out(sys.fs, ret) == Recycle(old(sys.fs), sys.proc, dirfd, pathname, e, recycler, bin, removedir)
  {
    var fqpath := CanonicalText(sys, dirfd, pathname);
    var met, mpPath := FindMount(sys, fqpath, st1.dev, recyclerInode, e);
    if met {
      ret := sys.UnlinkEntry(dirfd, pathname, removedir);
    } else {
      ghost var m := ClimbFrom(sys.fs.tree, e, st1.dev, recyclerInode).at;
      var recycled := RecycledText(recycler, fqpath, mpPath, e, m);
      if !st1.kind.Directory? {
        FileLeavesMount(sys.fs.tree, e, recyclerInode);
      }
      ret := MoveIntoBin(sys, dirfd, pathname, removedir, st1.kind.Directory?, recycler, recycled, fqpath, e, m);
    }
  }

  /** Every item fits the buffer, before and after the home directory is put in. */
  ghost predicate ItemsFit(items: seq<string>, home: Option<string>) {
    forall k :: 0 <= k < |items| ==> |items[k]| < PATH_BUFFER && |Expand(items[k], home)| < PATH_BUFFER
  }

  /** An item fits with at most 255 characters, which it must not exceed with HOME in place of the tilde either. */
  lemma {:induction false} ItemFitsIff(item: string, home: Option<string>)
    ensures ItemsFit([item], home) <==>
            |item| <= 255 && ("~/" <= item && home.Some? ==> |home.value| + |item| - 1 <= 255)
  {
    assert [item][0] == item;
    assert "~/" <= item && home.Some? ==> |Expand(item, home)| == |home.value| + |item| - 1;
  }

  lemma {:induction false} ItemsStep(s: string, home: Option<string>)
    requires ItemsFit(Split(s, ':'), home)
    ensures var n := IndexOf(s, ':');
            && Split(s, ':')[0] == s[..n]
            && |s[..n]| < PATH_BUFFER && |Expand(s[..n], home)| < PATH_BUFFER
            && (n == |s| ==> Split(s, ':')[1..] == [])
            && (n < |s| ==> Split(s, ':')[1..] == Split(s[n + 1..], ':') &&
                            ItemsFit(Split(s[n + 1..], ':'), home))
  {
    var items := Split(s, ':');
    SplitStep(s, ':');
    assert |items[0]| < PATH_BUFFER && |Expand(items[0], home)| < PATH_BUFFER;
    assert forall k :: 0 <= k < |items[1..]| ==> items[1..][k] == items[k + 1];
  }

  /** Lines 62 to 211: one item, up to the decision to use it. */
  method JudgeItem(sys: System, env: Environment, recyclers: string, pos: nat, recycler: array<char>,
                   pathname: string, st1: Node)
    returns (ptr: nat, verdict: Verdict)
    requires pos <= |recyclers| && recycler.Length == PATH_BUFFER
    requires NUL !in recyclers && (env.home.Some? ==> NUL !in env.home.value)
    requires var n := IndexOf(recyclers[pos..], ':');
             n < PATH_BUFFER && |Expand(recyclers[pos..][..n], env.home)| < PATH_BUFFER
    modifies recycler
    ensures ptr == pos + IndexOf(recyclers[pos..], ':')
    ensures verdict == Judge(sys.fs.tree, sys.proc.cwd, env, recyclers[pos..][..ptr - pos], pathname, st1)
  {
    ptr := LoadItem(recyclers, pos, env.home, recycler);
    assert recyclers[pos..][..ptr - pos] == recyclers[pos..ptr];
    if CStr(recycler[..], 0) == "" {
      return ptr, Pass;
    }
    var settings := ReadOptions(recycler, env.regex, pathname);
    if settings.None? {
      return ptr, Bad;
    }
    var dir := CStr(recycler[..], 0);
    var st2 := StatText(sys.fs.tree, sys.proc.cwd, dir);
    if st2.Found? && st2.at in sys.fs.tree && sys.fs.tree[st2.at].dev == st1.dev &&
       WithinLimits(st1, settings.value) && !settings.value.excluded {
      return ptr, Take(dir, st2.at);
    }
    return ptr, Pass;
  }

  /** If a bin is taken for the subject, the names that this makes necessary fit. */
  ghost predicate ChosenFits(t: Tree, proc: Process, env: Environment, dirfd: int, pathname: string)
    requires Rooted(t) && env.recycler.Some? && Components(pathname) != []
  {
    Entry(t, proc, dirfd, pathname).Found? && Entry(t, proc, dirfd, pathname).at in t ==>
      var e := Entry(t, proc, dirfd, pathname).at;
      var v := Choose(t, proc.cwd, env, Split(env.recycler.value, ':'), pathname, t[e]);
      v.Take? && v.bin in t ==> TextsFit(t, proc, dirfd, pathname, v.dir, v.bin)
  }

  /** unlinkat: the loop over the items of RECYCLER. */
  method UnlinkatRecycling(sys: System, env: Environment, dirfd: int, pathname: string, removedir: bool)
    returns (ret: Ret)
    requires Valid(sys.fs) && Live(sys.fs.tree, sys.proc) && NamesEntry(pathname)
    requires SlashFits(sys.fs.tree, sys.proc, dirfd, pathname)
    requires env.recycler.Some? ==>
               && NUL !in env.recycler.value && ItemsFit(Split(env.recycler.value, ':'), env.home)
               && ChosenFits(sys.fs.tree, sys.proc, env, dirfd, pathname)
    requires env.home.Some? ==> NUL !in env.home.value
    modifies sys
    ensures Out(sys.fs, ret) == Unlinkat(old(sys.fs), sys.proc, env, dirfd, pathname, removedir)
  {
    if env.recycler.None? {
      ret := sys.UnlinkEntry(dirfd, pathname, removedir);
      return;
    }
    var found := Entry(sys.fs.tree, sys.proc, dirfd, pathname);
    if found.Missing? {
      return Err(found.errno);
    }
    if found.at !in sys.fs.tree {
      return Err(ENOENT);
    }
    var st1 := sys.fs.tree[found.at];
    var verdict := ChooseBin(sys, env, pathname, st1);
    TakenInTree(sys.fs.tree, sys.proc.cwd, env, Split(env.recycler.value, ':'), pathname, st1);
    match verdict {
      case Pass => ret := sys.UnlinkEntry(dirfd, pathname, removedir);
      case Bad => ret := Err(ECANCELED);
      case Take(dir, bin) =>
        TakenFits(sys.fs.tree, sys.proc.cwd, env, Split(env.recycler.value, ':'), pathname, st1);
        ret := RecycleInto(sys, dirfd, pathname, removedir, st1, dir, sys.fs.tree[bin].ino, found.at, bin);
    }
  }

  /** The chosen directory's name is no longer than its item. */
  lemma {:induction false} TakenFits(t: Tree, cwd: Path, env: Environment, items: seq<string>, pathname: string,
                                     node: Node)
    requires ItemsFit(items, env.home)
    ensures var v := Choose(t, cwd, env, items, pathname, node); v.Take? ==> |v.dir| < PATH_BUFFER
    decreases |items|
  {
    if items != [] {
      assert forall k :: 0 <= k < |items[1..]| ==> items[1..][k] == items[k + 1];
      TakenFits(t, cwd, env, items[1..], pathname, node);
      FieldsStep(Expand(items[0], env.home));
    }
  }

  lemma {:induction false} ChooseStep(t: Tree, cwd: Path, env: Environment, s: string, pathname: string, node: Node)
    ensures var n := IndexOf(s, ':');
            var v := Judge(t, cwd, env, s[..n], pathname, node);
            Choose(t, cwd, env, Split(s, ':'), pathname, node) ==
            if v != Pass || n == |s| then v else Choose(t, cwd, env, Split(s[n + 1..], ':'), pathname, node)
  {
    SplitStep(s, ':');
  }

  /** One turn of the loop: a decision, or the start of the next item. */
  method ChooseTurn(sys: System, env: Environment, recyclers: string, pos: nat, recycler: array<char>,
                    pathname: string, st1: Node)
    returns (done: bool, verdict: Verdict, next: nat)
    requires pos <= |recyclers| && recycler.Length == PATH_BUFFER
    requires NUL !in recyclers && (env.home.Some? ==> NUL !in env.home.value)
    requires ItemsFit(Split(recyclers[pos..], ':'), env.home)
    modifies recycler
    ensures pos <= |recyclers|
    ensures done ==> Choose(sys.fs.tree, sys.proc.cwd, env, Split(recyclers[pos..], ':'), pathname, st1) == verdict
    ensures !done ==>
              && pos < next <= |recyclers|
              && ItemsFit(Split(recyclers[next..], ':'), env.home)
              && Choose(sys.fs.tree, sys.proc.cwd, env, Split(recyclers[pos..], ':'), pathname, st1) ==
                 Choose(sys.fs.tree, sys.proc.cwd, env, Split(recyclers[next..], ':'), pathname, st1)
  {
    ItemsStep(recyclers[pos..], env.home);
    ChooseStep(sys.fs.tree, sys.proc.cwd, env, recyclers[pos..], pathname, st1);
    var ptr;
    ptr, verdict := JudgeItem(sys, env, recyclers, pos, recycler, pathname, st1);
    done := verdict != Pass || ptr == |recyclers|;
    next := ptr + 1;
    if !done {
      assert recyclers[pos..][ptr - pos + 1..] == recyclers[next..];
    }
  }

  /** The loop over the items. */
  method ChooseBin(sys: System, env: Environment, pathname: string, st1: Node)
    returns (verdict: Verdict)
    requires env.recycler.Some? && NUL !in env.recycler.value && (env.home.Some? ==> NUL !in env.home.value)
    requires ItemsFit(Split(env.recycler.value, ':'), env.home)
    ensures verdict == Choose(sys.fs.tree, sys.proc.cwd, env, Split(env.recycler.value, ':'), pathname, st1)
  {
    var recyclers := env.recycler.value;
    var recycler := new char[PATH_BUFFER];
    var pos, done := 0, false;
    verdict := Pass;
    assert recyclers[0..] == recyclers;
    while !done
      invariant pos <= |recyclers|
      invariant !done ==> ItemsFit(Split(recyclers[pos..], ':'), env.home)
      invariant Choose(sys.fs.tree, sys.proc.cwd, env, Split(recyclers, ':'), pathname, st1) ==
                if done then verdict
                else Choose(sys.fs.tree, sys.proc.cwd, env, Split(recyclers[pos..], ':'), pathname, st1)
      decreases !done, |recyclers| - pos
    {
      var next;
      done, verdict, next := ChooseTurn(sys, env, recyclers, pos, recycler, pathname, st1);
      if !done {
        pos := next;
      }
    }
  }
}
