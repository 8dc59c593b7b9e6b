/** What one call of recyclix's unlinkat does to the tree. */
module NoLoss {
  import opened Text
  import opened PathText
  import opened FileTree
  import opened ClonePath
  import opened MountPoint
  import opened Kernel
  import opened BinConfig
  import opened Recyclix

  /** A call whose subject exists at e. */
  ghost predicate Subject(fs: Fs, proc: Process, dirfd: int, pathname: string, e: Path) {
    && Valid(fs) && Live(fs.tree, proc) && NamesEntry(pathname)
    && Entry(fs.tree, proc, dirfd, pathname).Found? && Entry(fs.tree, proc, dirfd, pathname).at == e
    && e in fs.tree && SlashFits(fs.tree, proc, dirfd, pathname)
  }

  /** The directory name dir is absolute and leads to the directory bin. */
  ghost predicate Ready(t: Tree, dir: string, bin: Path) {
    && IsAbsolute(dir) && IsDir(t, bin)
    && Stat(t, [], Components(dir)).Found? && Stat(t, [], Components(dir)).at == bin
  }

  /** Where subject e goes in the bin: its place below the mount point, kept. */
  function Place(bin: Path, e: Path, m: Path): Path
    requires |m| <= |e|
  {
    bin + e[|m|..]
  }

  lemma {:induction false} PlaceParts(bin: Path, e: Path, m: Path)
    requires |m| < |e|
    ensures var p := Place(bin, e, m);
            && p != [] && |bin| < |p| && p[..|bin|] == bin && p[|bin|..] == e[|m|..]
            && Up(p) == bin + Up(e)[|m|..] && Last(p) == Last(e)
            && Up(p)[..|bin|] == bin && Up(p)[|bin|..] == Up(e)[|m|..]
  {
  }

  /** The place in the bin tells where the file was: the bin and the mount point give the name back. */
  lemma {:induction false} PlaceInvertible(bin: Path, e: Path, m: Path)
    requires |m| <= |e| && m == e[..|m|]
    ensures m + Place(bin, e, m)[|bin|..] == e
  {
    assert Place(bin, e, m)[|bin|..] == e[|m|..];
  }

  /** Distinct files of a file system have distinct places in a bin. */
  lemma {:induction false} PlaceInjective(bin: Path, e: Path, e': Path, m: Path)
    requires |m| <= |e| && m == e[..|m|] && |m| <= |e'| && m == e'[..|m|]
    requires Place(bin, e, m) == Place(bin, e', m)
    ensures e == e'
  {
    PlaceInvertible(bin, e, m);
    PlaceInvertible(bin, e', m);
  }

  /** The subject is found again in a tree with the same ways to directories. */
  lemma {:induction false} EntryAgain(t: Tree, t': Tree, proc: Process, dirfd: int, pathname: string)
    requires NamesEntry(pathname) && SameWays(t, t') && Entry(t, proc, dirfd, pathname).Found?
    ensures Entry(t', proc, dirfd, pathname).Found?
    ensures Entry(t', proc, dirfd, pathname).at == Entry(t, proc, dirfd, pathname).at
    ensures var at, cs := BaseAt(proc, dirfd, pathname).at, Components(pathname);
            Holder(t', at, cs).Found? && Holder(t', at, cs).at == Up(Entry(t, proc, dirfd, pathname).at)
    ensures Last(Entry(t, proc, dirfd, pathname).at) == Last(Components(pathname))
  {
    var at, cs := BaseAt(proc, dirfd, pathname).at, Components(pathname);
    var q := Holder(t, at, cs).at;
    WalkWays(t, t', at, Up(cs), MAX_LINKS);
    assert Up(q + [Last(cs)]) == q;
  }

  /** The C library's unlinkat on the entry e. */
  lemma {:induction false} RealRemoval(fs: Fs, proc: Process, dirfd: int, pathname: string, removedir: bool, e: Path)
    requires NamesEntry(pathname) && Entry(fs.tree, proc, dirfd, pathname).Found?
    requires Entry(fs.tree, proc, dirfd, pathname).at == e && e in fs.tree
    ensures RealUnlinkat(fs, proc, dirfd, pathname, removedir) ==
            if removedir then
              if !IsDir(fs.tree, e) then Out(fs, Err(ENOTDIR))
              else if IsMountPoint(fs.tree, e) then Out(fs, Err(EBUSY))
              else if HasChildren(fs.tree, e) then Out(fs, Err(ENOTEMPTY))
              else Out(fs.(tree := Drop(fs.tree, e)), Ok)
            else if IsDir(fs.tree, e) then Out(fs, Err(EISDIR))
            else Out(fs.(tree := Drop(fs.tree, e)), Ok)
  {
  }

  // ---------------------------------------------------------------- cloning below a bin

  /** The clone of q below the bin, for the name that the code builds. */
  function CloneBelow(fs: Fs, proc: Process, dir: string, q: Path, bin: Path, d: Path): Out
    requires Valid(fs) && |bin| <= |q| && Names(q)
  {
    Clone(fs, [], Components(dir) + q[|bin|..], d, proc.umask)
  }

  lemma {:induction false} CloneBelowExact(fs: Fs, proc: Process, dir: string, q: Path, bin: Path, d: Path)
    requires Valid(fs) && Ready(fs.tree, dir, bin) && Names(q) && |bin| <= |q| && q[..|bin|] == bin
    requires Plain(fs.tree, q, |bin|) && IsDir(fs.tree, d)
    ensures var c := CloneBelow(fs, proc, dir, q, bin, d);
            if Blocked(fs.tree, q, |bin|, |q| - 1) then c == Out(fs, Err(ENOTDIR))
            else
              && c.ret.Ok? && Valid(c.fs) && Cloned(fs, c.fs, q, |bin|, d, proc.umask)
              && SameRoutes(fs.tree, c.fs.tree) && IsDir(c.fs.tree, q)
              && Stat(c.fs.tree, [], Components(dir) + q[|bin|..]).Found?
              && Stat(c.fs.tree, [], Components(dir) + q[|bin|..]).at == q
  {
    CloneExact(fs, [], Components(dir), q, |bin|, d, proc.umask);
    if !Blocked(fs.tree, q, |bin|, |q| - 1) {
      var mid := CloneBelow(fs, proc, dir, q, bin, d).fs;
      RoutesAfterCloned(fs, mid, q, |bin|, d, proc.umask);
      RoutesAreWays(fs.tree, mid.tree);
      AimAfterClone(fs, mid, [], Components(dir), q, |bin|, d, proc.umask);
    }
  }

  /** Once a chain is cloned, its name leads to it. */
  lemma {:induction false} AimAfterClone(fs: Fs, fs': Fs, at: Path, bs: seq<string>, q: Path, i: nat, d: Path,
                                         umask: Mode)
    requires Leads(fs.tree, at, bs, q, i) && Rooted(fs'.tree)
    requires Cloned(fs, fs', q, i, d, umask) && SameWays(fs.tree, fs'.tree)
    ensures IsDir(fs'.tree, q)
    ensures Stat(fs'.tree, at, bs + q[i..]).Found? && Stat(fs'.tree, at, bs + q[i..]).at == q
  {
    assert IsWay(fs.tree, at);
    WalkWays(fs.tree, fs'.tree, at, bs, MAX_LINKS);
    assert q[..|q|] == q && LinkCloned(fs, fs', q, |q|, d, umask);
    forall k | i < k <= |q|
      ensures IsDir(fs'.tree, q[..k])
    {
      assert LinkCloned(fs, fs', q, k, d, umask);
    }
    StatPlain(fs'.tree, at, bs, q, i);
  }

  lemma {:induction false} OffTheChain(e: Path, q: Path, bin: Path)
    requires |bin| <= |q| && q[..|bin|] == bin && !Above(bin, e) && e != bin
    ensures !OnChain(e, q, |bin|)
  {
    assert |bin| < |e| <= |q| ==> q[..|e|][..|bin|] == bin;
    assert |q| == |bin| ==> q == bin;
  }

  // ---------------------------------------------------------------- a file that is not in the bin yet

  /** The state once the directories are cloned. */
  function MidState(fs: Fs, proc: Process, dir: string, bin: Path, e: Path, m: Path): Fs
    requires Valid(fs) && |m| < |e| && Names(Place(bin, e, m))
  {
    PlaceParts(bin, e, m);
    CloneBelow(fs, proc, dir, Up(Place(bin, e, m)), bin, Up(e)).fs
  }

  /** The renaming at the end, when the directories are there. */
  function Moved(mid: Fs, t: Tree, e: Path, p: Path): Out
    requires e in t && Up(p) in mid.tree
  {
    if mid.tree[Up(p)].dev != t[e].dev then Out(mid, Err(EXDEV))
    else if IsDir(t, p) then Out(mid, Err(EISDIR))
    else if p in t && t[p].ino == t[e].ino then Out(mid, Ok)
    else Out(mid.(tree := Drop(mid.tree, e)[p := t[e]]), Ok)
  }

  /** No file of another device lies below the bin, nor a bin above a file that the walk did not find it above. */
  lemma {:induction false} NotBelowBin(fs: Fs, e: Path, bin: Path, m: Path)
    requires Valid(fs) && MountedOnce(fs.tree) && e in fs.tree && e != [] && IsDir(fs.tree, bin)
    requires fs.tree[bin].dev == fs.tree[e].dev
    requires ClimbFrom(fs.tree, e, fs.tree[e].dev, fs.tree[bin].ino) == Mount(m)
    ensures !Above(bin, e) && |m| <= |e| && m == e[..|m|] && MountOf(fs.tree, m, fs.tree[e].dev)
  {
    var t, dev := fs.tree, fs.tree[e].dev;
    ClimbExact(t, e, dev, t[bin].ino);
    TopIsMount(t, e, |m|, dev);
    Contiguous(t, m, bin, dev);
    UnderBinExact(fs, m, bin, e);
  }

  lemma {:induction false} PlaceNames(bin: Path, e: Path, m: Path)
    requires Names(bin) && Names(e) && |m| <= |e|
    ensures Names(Place(bin, e, m))
  {
    forall k | 0 <= k < |bin| + |e| - |m|
      ensures Name(Place(bin, e, m)[k])
    {
      assert Place(bin, e, m)[k] == if k < |bin| then bin[k] else e[|m| + k - |bin|];
    }
  }

  /** What is known of the state in which the renaming takes place. */
  lemma {:induction false} MidFacts(fs: Fs, proc: Process, e: Path, dir: string, bin: Path, m: Path)
    requires Valid(fs) && e in fs.tree && !IsDir(fs.tree, e) && Ready(fs.tree, dir, bin)
    requires |m| < |e| && !Above(bin, e) && Plain(fs.tree, Up(Place(bin, e, m)), |bin|) && Names(Place(bin, e, m))
    ensures var p, i := Place(bin, e, m), |bin|;
            var c := Clone(fs, [], Up(Destination(dir, e, m)), Up(e), proc.umask);
            if Blocked(fs.tree, Up(p), i, |Up(p)| - 1) then c == Out(fs, Err(ENOTDIR))
            else
              var mid := MidState(fs, proc, dir, bin, e, m);
              && c == Out(mid, Ok)
              && Valid(mid) && IsDir(mid.tree, Up(p)) && Cloned(fs, mid, Up(p), i, Up(e), proc.umask)
              && SameRoutes(fs.tree, mid.tree)
              && e in mid.tree && mid.tree[e] == fs.tree[e]
              && (p in fs.tree <==> p in mid.tree) && (p in fs.tree ==> mid.tree[p] == fs.tree[p])
              && Stat(mid.tree, [], Up(Destination(dir, e, m))).Found?
              && Stat(mid.tree, [], Up(Destination(dir, e, m))).at == Up(p)
  {
    var p, i := Place(bin, e, m), |bin|;
    PlaceParts(bin, e, m);
    assert Up(e) == e[..|e| - 1];
    CloneBelowExact(fs, proc, dir, Up(p), bin, Up(e));
    assert Up(Destination(dir, e, m)) == Components(dir) + Up(p)[i..];
    if !Blocked(fs.tree, Up(p), i, |Up(p)| - 1) {
      OffTheChain(e, Up(p), bin);
      assert !OnChain(p, Up(p), i);
    }
  }

  lemma {:induction false} FileMovedExact(fs: Fs, proc: Process, dirfd: int, pathname: string, e: Path, dir: string,
                                          bin: Path, m: Path, removedir: bool)
    requires Subject(fs, proc, dirfd, pathname, e) && !IsDir(fs.tree, e) && Ready(fs.tree, dir, bin)
    requires |m| < |e| && !Above(bin, e) && Plain(fs.tree, Up(Place(bin, e, m)), |bin|) && Names(Place(bin, e, m))
    ensures var p, i := Place(bin, e, m), |bin|;
            var o := MoveInto(fs, proc, dirfd, pathname, e, m, dir, removedir);
            if Blocked(fs.tree, Up(p), i, |Up(p)| - 1) then o == Out(fs, Err(ENOTDIR))
            else
              var mid := MidState(fs, proc, dir, bin, e, m);
              IsDir(mid.tree, Up(p)) && o == Moved(mid, fs.tree, e, p)
  {
    MidFacts(fs, proc, e, dir, bin, m);
    PlaceParts(bin, e, m);
    var p := Place(bin, e, m);
    if !Blocked(fs.tree, Up(p), |bin|, |Up(p)| - 1) {
      var mid := MidState(fs, proc, dir, bin, e, m);
      RoutesAreWays(fs.tree, mid.tree);
      EntryAgain(fs.tree, mid.tree, proc, dirfd, pathname);
      assert Last(Destination(dir, e, m)) == Last(p);
      RenameExact(fs, mid, proc, dirfd, pathname, e, dir, [], p, Destination(dir, e, m));
    }
  }

  lemma {:induction false} RenameExact(fs: Fs, mid: Fs, proc: Process, dirfd: int, pathname: string, e: Path,
                                       dir: string, at: Path, p: Path, dest: seq<string>)
    requires Rooted(fs.tree) && Rooted(mid.tree) && NamesEntry(pathname) && Names(p) && p != []
    requires BaseAt(proc, 0, dir).Found? && BaseAt(proc, 0, dir).at == at
    requires BaseAt(proc, dirfd, pathname).Found? && e != [] && !IsDir(mid.tree, e)
    requires var h := Holder(mid.tree, BaseAt(proc, dirfd, pathname).at, Components(pathname));
             h.Found? && h.at == Up(e)
    requires Last(e) == Last(Components(pathname))
    requires dest != [] && Last(dest) == Last(p) && IsDir(mid.tree, Up(p))
    requires Stat(mid.tree, at, Up(dest)).Found? && Stat(mid.tree, at, Up(dest)).at == Up(p)
    requires e in fs.tree && e in mid.tree && mid.tree[e] == fs.tree[e]
    requires p in fs.tree <==> p in mid.tree
    requires p in fs.tree ==> mid.tree[p] == fs.tree[p]
    ensures RenameInto(mid, proc, dirfd, pathname, dir, dest) == Moved(mid, fs.tree, e, p)
  {
    assert e == Up(e) + [Last(e)] && p == Up(p) + [Last(p)];
    assert Name(Last(p));
    assert mid.tree[Up(e)].dev == mid.tree[e].dev;
    FileNotAbove(mid.tree, e, p);
  }

  lemma {:induction false} FileNotAbove(t: Tree, e: Path, p: Path)
    requires Rooted(t) && e in t && !IsDir(t, e) && IsDir(t, Up(p))
    ensures !(e < p)
  {
    assert e <= p ==> e == p[..|e|];
    assert |e| < |p| ==> Up(p)[..|e|] == p[..|e|];
    assert Up(p)[..|Up(p)|] == Up(p);
  }

  // ---------------------------------------------------------------- the fate of a file

  function ChoiceFor(fs: Fs, proc: Process, env: Environment, pathname: string, e: Path): Verdict
    requires env.recycler.Some? && e in fs.tree
  {
    Choose(fs.tree, proc.cwd, env, Split(env.recycler.value, ':'), pathname, fs.tree[e])
  }

  /** Items written with colons between them are these items: the first that is not passed over decides. */
  lemma {:induction false} ItemsInOrder(fs: Fs, proc: Process, env: Environment, pathname: string, e: Path,
                                        items: seq<string>, i: nat, v: Verdict)
    requires e in fs.tree && |items| > 0 && (forall k :: 0 <= k < |items| ==> ':' !in items[k])
    requires env.recycler == Some(Join(items, ':'))
    requires FirstAt(fs.tree, proc.cwd, env, items, pathname, fs.tree[e], i, v)
    ensures ChoiceFor(fs, proc, env, pathname, e) == v
  {
    SplitJoin(items, ':');
    FirstDecides(fs.tree, proc.cwd, env, items, pathname, fs.tree[e], i, v);
  }

  /** The walk from e, looking for the given bin. */
  function ClimbTo(t: Tree, e: Path, bin: Path): Climb
    requires Rooted(t) && e in t && bin in t
  {
    ClimbFrom(t, e, t[e].dev, t[bin].ino)
  }

  /** The routine means to remove e for good: no variable, no fitting bin, or e is in the bin already. */
  ghost predicate ForGood(fs: Fs, proc: Process, env: Environment, pathname: string, e: Path)
    requires Valid(fs) && e in fs.tree
  {
    env.recycler.None? ||
    var v := ChoiceFor(fs, proc, env, pathname, e);
    v == Pass || (v.Take? && v.bin in fs.tree && ClimbTo(fs.tree, e, v.bin) == UnderBin)
  }

  /** What the environment has to provide: a chosen bin is an absolute directory, and no link is on the way in it. */
  ghost predicate Usable(fs: Fs, proc: Process, env: Environment, pathname: string, e: Path)
    requires Valid(fs) && e in fs.tree
  {
    env.recycler.Some? ==>
      var v := ChoiceFor(fs, proc, env, pathname, e);
      v.Take? ==>
        && Ready(fs.tree, v.dir, v.bin)
        && var c := ClimbTo(fs.tree, e, v.bin);
           c.Mount? && |c.at| <= |e| ==>
             var p := Place(v.bin, e, c.at);
             Plain(fs.tree, if IsDir(fs.tree, e) then p else Up(p), |v.bin|)
  }

  lemma {:induction false} TakenBin(fs: Fs, proc: Process, env: Environment, pathname: string, e: Path)
    requires env.recycler.Some? && Valid(fs) && e in fs.tree
    ensures var v := ChoiceFor(fs, proc, env, pathname, e);
            v.Take? ==> v.bin in fs.tree && fs.tree[v.bin].dev == fs.tree[e].dev
  {
    TakenInTree(fs.tree, proc.cwd, env, Split(env.recycler.value, ':'), pathname, fs.tree[e]);
  }

  /** The call recycles: bin and mount point for e. */
  ghost predicate Recycles(fs: Fs, proc: Process, env: Environment, pathname: string, e: Path, dir: string, bin: Path,
                           m: Path)
    requires Valid(fs) && e in fs.tree
  {
    && env.recycler.Some? && ChoiceFor(fs, proc, env, pathname, e) == Take(dir, bin)
    && bin in fs.tree && ClimbTo(fs.tree, e, bin) == Mount(m)
  }

  /** A file is removed for good exactly as the C library does it, or the call does something else. */
  lemma {:induction false} ForGoodExact(fs: Fs, proc: Process, env: Environment, dirfd: int, pathname: string,
                                        e: Path, removedir: bool)
    requires Subject(fs, proc, dirfd, pathname, e) && !IsDir(fs.tree, e) && ForGood(fs, proc, env, pathname, e)
    ensures Unlinkat(fs, proc, env, dirfd, pathname, removedir) ==
            if removedir then Out(fs, Err(ENOTDIR)) else Out(fs.(tree := Drop(fs.tree, e)), Ok)
  {
    RealRemoval(fs, proc, dirfd, pathname, removedir, e);
    if env.recycler.Some? {
      TakenBin(fs, proc, env, pathname, e);
    }
  }

  lemma {:induction false} CancelledUntouched(fs: Fs, proc: Process, env: Environment, dirfd: int, pathname: string,
                                              e: Path, removedir: bool)
    requires Subject(fs, proc, dirfd, pathname, e) && env.recycler.Some?
    ensures ChoiceFor(fs, proc, env, pathname, e) == Bad ==>
              Unlinkat(fs, proc, env, dirfd, pathname, removedir) == Out(fs, Err(ECANCELED))
  {
  }

  /** Item i has an option that is not acceptable, and the items before it are passed over. */
  ghost predicate ConfigError(fs: Fs, proc: Process, env: Environment, pathname: string, e: Path, i: nat)
    requires env.recycler.Some? && e in fs.tree
  {
    var items := Split(env.recycler.value, ':');
    && i < |items|
    && (forall j :: 0 <= j < i ==> Judge(fs.tree, proc.cwd, env, items[j], pathname, fs.tree[e]) == Pass)
    && var text := Expand(items[i], env.home);
       text != "" && !AllAcceptable(OptionFields(text), env.regex)
  }

  /**
   * The call is cancelled, and nothing is touched, exactly when an item with an unacceptable option comes
   * before any bin that fits, on whatever device that item's directory is.
   */
  lemma {:induction false} CancelledIff(fs: Fs, proc: Process, env: Environment, dirfd: int, pathname: string,
                                        e: Path, removedir: bool)
    requires Subject(fs, proc, dirfd, pathname, e) && env.recycler.Some? && e != []
    ensures Unlinkat(fs, proc, env, dirfd, pathname, removedir).ret == Err(ECANCELED) <==>
            exists i :: ConfigError(fs, proc, env, pathname, e, i)
    ensures Unlinkat(fs, proc, env, dirfd, pathname, removedir).ret == Err(ECANCELED) ==>
            Unlinkat(fs, proc, env, dirfd, pathname, removedir).fs == fs
  {
    CancelledUntouched(fs, proc, env, dirfd, pathname, e, removedir);
    BadIsConfigError(fs, proc, env, pathname, e);
    if ChoiceFor(fs, proc, env, pathname, e) != Bad {
      TakenBin(fs, proc, env, pathname, e);
      OnlyConfigCancels(fs, proc, env, dirfd, pathname, e, removedir);
    }
  }

  lemma {:induction false} BadIsConfigError(fs: Fs, proc: Process, env: Environment, pathname: string, e: Path)
    requires env.recycler.Some? && e in fs.tree
    ensures ChoiceFor(fs, proc, env, pathname, e) == Bad <==> exists i :: ConfigError(fs, proc, env, pathname, e, i)
  {
    var t, cwd, items, node := fs.tree, proc.cwd, Split(env.recycler.value, ':'), fs.tree[e];
    ChooseFirst(t, cwd, env, items, pathname, node);
    if ChoiceFor(fs, proc, env, pathname, e) == Bad {
      var i: nat :| FirstAt(t, cwd, env, items, pathname, node, i, Bad);
      JudgeExact(t, cwd, env, items[i], pathname, node);
      assert ConfigError(fs, proc, env, pathname, e, i);
    }
    if i: nat :| ConfigError(fs, proc, env, pathname, e, i) {
      JudgeExact(t, cwd, env, items[i], pathname, node);
      FirstDecides(t, cwd, env, items, pathname, node, i, Bad);
    }
  }

  lemma {:induction false} OnlyConfigCancels(fs: Fs, proc: Process, env: Environment, dirfd: int, pathname: string,
                                             e: Path, removedir: bool)
    requires Subject(fs, proc, dirfd, pathname, e) && env.recycler.Some? && e != []
    requires ChoiceFor(fs, proc, env, pathname, e) != Bad
    ensures Unlinkat(fs, proc, env, dirfd, pathname, removedir).ret != Err(ECANCELED)
  {
    var v := ChoiceFor(fs, proc, env, pathname, e);
    TakenBin(fs, proc, env, pathname, e);
    RealNotCancelled(fs, proc, dirfd, pathname, removedir);
    if v.Take? && ClimbTo(fs.tree, e, v.bin).Mount? {
      ClimbExact(fs.tree, e, fs.tree[e].dev, fs.tree[v.bin].ino);
      MoveNotCancelled(fs, proc, dirfd, pathname, e, ClimbTo(fs.tree, e, v.bin).at, v.dir, removedir);
    }
  }

  lemma {:induction false} RealNotCancelled(fs: Fs, proc: Process, dirfd: int, pathname: string, removedir: bool)
    ensures RealUnlinkat(fs, proc, dirfd, pathname, removedir).ret != Err(ECANCELED)
  {
  }

  lemma {:induction false} RenameNotCancelled(fs: Fs, proc: Process, dirfd: int, pathname: string, dir: string,
                                              dest: seq<string>)
    requires Components(pathname) != []
    ensures RenameInto(fs, proc, dirfd, pathname, dir, dest).ret != Err(ECANCELED)
  {
  }

  lemma {:induction false} MoveNotCancelled(fs: Fs, proc: Process, dirfd: int, pathname: string, e: Path, m: Path,
                                            dir: string, removedir: bool)
    requires Subject(fs, proc, dirfd, pathname, e) && |m| <= |e|
    ensures MoveInto(fs, proc, dirfd, pathname, e, m, dir, removedir).ret != Err(ECANCELED)
  {
    var dest, start := Destination(dir, e, m), Base(dir, proc.cwd);
    if IsDir(fs.tree, e) {
      RealNotCancelled(Clone(fs, start, dest, e, proc.umask).fs, proc, dirfd, pathname, removedir);
    } else {
      RenameNotCancelled(Clone(fs, start, Up(dest), Up(e), proc.umask).fs, proc, dirfd, pathname, dir, dest);
    }
  }

  /**
   * The outcome of recycling file e: failure with nothing touched if a file blocks the way in the bin, else
   * the directories are cloned, and the renaming succeeds, or fails leaving the file alone.
   */
  ghost predicate RecycledOutcome(fs: Fs, proc: Process, e: Path, dir: string, bin: Path, m: Path, o: Out)
    requires Valid(fs) && e in fs.tree && |m| < |e| && Names(Place(bin, e, m))
  {
    var p, i := Place(bin, e, m), |bin|;
    if Blocked(fs.tree, Up(p), i, |Up(p)| - 1) then o == Out(fs, Err(ENOTDIR))
    else
      var mid := MidState(fs, proc, dir, bin, e, m);
      && Valid(mid) && IsDir(mid.tree, Up(p)) && Cloned(fs, mid, Up(p), i, Up(e), proc.umask)
      && SameRoutes(fs.tree, mid.tree)
      && e in mid.tree && mid.tree[e] == fs.tree[e]
      && o == Moved(mid, fs.tree, e, p)
  }

  /** Exact outcome for a file that is to be recycled. */
  lemma {:induction false} RecycledExact(fs: Fs, proc: Process, env: Environment, dirfd: int, pathname: string,
                                         e: Path, removedir: bool, dir: string, bin: Path, m: Path)
    requires Subject(fs, proc, dirfd, pathname, e) && !IsDir(fs.tree, e) && MountedOnce(fs.tree)
    requires Usable(fs, proc, env, pathname, e) && Recycles(fs, proc, env, pathname, e, dir, bin, m)
    ensures IsDir(fs.tree, bin) && fs.tree[bin].dev == fs.tree[e].dev
    ensures |m| < |e| && m == e[..|m|] && MountOf(fs.tree, m, fs.tree[e].dev) && !Above(bin, e)
    ensures Names(Place(bin, e, m))
    ensures RecycledOutcome(fs, proc, e, dir, bin, m, Unlinkat(fs, proc, env, dirfd, pathname, removedir))
  {
    TakenBin(fs, proc, env, pathname, e);
    FileLeavesMount(fs.tree, e, fs.tree[bin].ino);
    NotBelowBin(fs, e, bin, m);
    PlaceNames(bin, e, m);
    MidFacts(fs, proc, e, dir, bin, m);
    FileMovedExact(fs, proc, dirfd, pathname, e, dir, bin, m, removedir);
  }

  /**
   * The directories that recycling makes in the bin are like those they stand for: the one for e[..j] has the bits of
   * e[..j], as far as mkdir gives them, and its owner.
   */
  lemma {:induction false} MadeLikeOriginal(fs: Fs, proc: Process, env: Environment, dirfd: int, pathname: string,
                                            e: Path, removedir: bool, dir: string, bin: Path, m: Path, j: nat)
    requires Subject(fs, proc, dirfd, pathname, e) && !IsDir(fs.tree, e) && MountedOnce(fs.tree)
    requires Usable(fs, proc, env, pathname, e) && Recycles(fs, proc, env, pathname, e, dir, bin, m)
    requires |m| < j < |e| && !IsDir(fs.tree, bin + e[|m|..j])
    ensures var t, o, q := fs.tree, Unlinkat(fs, proc, env, dirfd, pathname, removedir), bin + e[|m|..j];
            o == Out(fs, Err(ENOTDIR)) ||
            (q in o.fs.tree && e[..j] in t && MadeLike(o.fs.tree[q], t[e[..j]], proc.umask))
  {
    RecycledExact(fs, proc, env, dirfd, pathname, e, removedir, dir, bin, m);
    OutcomeMakes(fs, proc, e, dir, bin, m, Unlinkat(fs, proc, env, dirfd, pathname, removedir), j);
  }

  lemma {:induction false} OutcomeMakes(fs: Fs, proc: Process, e: Path, dir: string, bin: Path, m: Path, o: Out, j: nat)
    requires Valid(fs) && e in fs.tree && |m| < |e| && Names(Place(bin, e, m))
    requires RecycledOutcome(fs, proc, e, dir, bin, m, o) && !IsDir(fs.tree, e)
    requires |m| < j < |e| && !IsDir(fs.tree, bin + e[|m|..j])
    ensures var t, q := fs.tree, bin + e[|m|..j];
            o == Out(fs, Err(ENOTDIR)) ||
            (q in o.fs.tree && e[..j] in t && MadeLike(o.fs.tree[q], t[e[..j]], proc.umask))
  {
    var p, q := Place(bin, e, m), bin + e[|m|..j];
    if !Blocked(fs.tree, Up(p), |bin|, |Up(p)| - 1) {
      var mid := MidState(fs, proc, dir, bin, e, m);
      MidMakes(fs, mid, proc.umask, e, bin, m, j);
      assert q != p by {
        WayParts(bin, e, m, j);
      }
      MovedLeaves(mid, fs.tree, e, p, q);
    }
  }

  lemma {:induction false} MidMakes(fs: Fs, mid: Fs, umask: Mode, e: Path, bin: Path, m: Path, j: nat)
    requires |m| < j < |e| && !IsDir(fs.tree, bin + e[|m|..j])
    requires |bin| <= |Up(Place(bin, e, m))| && Cloned(fs, mid, Up(Place(bin, e, m)), |bin|, Up(e), umask)
    ensures var q := bin + e[|m|..j];
            q in mid.tree && e[..j] in fs.tree && MadeLike(mid.tree[q], fs.tree[e[..j]], umask)
  {
    WayParts(bin, e, m, j);
    NewLikeDonor(fs, mid, Up(Place(bin, e, m)), |bin|, Up(e), umask, |bin| + j - |m|);
  }

  lemma {:induction false} MovedLeaves(mid: Fs, t: Tree, e: Path, p: Path, q: Path)
    requires e in t && Up(p) in mid.tree && q in mid.tree && q != p && q != e
    ensures var t' := Moved(mid, t, e, p).fs.tree; q in t' && t'[q] == mid.tree[q]
  {
  }

  /** Between the bin and the place stand the nodes for those between the mount point and e. */
  lemma {:induction false} WayParts(bin: Path, e: Path, m: Path, j: nat)
    requires |m| < j < |e|
    ensures var p, k := Place(bin, e, m), |bin| + j - |m|;
            && |bin| < k <= |Up(p)| && |Up(p)| - k <= |Up(e)| && Up(p)[..k] == bin + e[|m|..j] != p
            && Up(e)[..|Up(e)| - (|Up(p)| - k)] == e[..j]
  {
    PlaceParts(bin, e, m);
    var p, k := Place(bin, e, m), |bin| + j - |m|;
    assert Up(p)[..k] == bin + e[|m|..j];
  }

  /** A node of the tree is where it was, unchanged. */
  predicate Kept(t: Tree, t': Tree, a: Path)
    requires a in t
  {
    a in t' && t'[a] == t[a]
  }

  /** A file of the tree is gone or changed. */
  ghost predicate Lost(t: Tree, t': Tree, a: Path) {
    a in t && !IsDir(t, a) && !Kept(t, t', a)
  }

  /** The files that a clone removes are those right at the target and right above it. */
  lemma {:induction false} LostToClone(fs: Fs, fs': Fs, q: Path, i: nat, d: Path, umask: Mode, a: Path)
    requires i <= |q| && Cloned(fs, fs', q, i, d, umask) && !Blocked(fs.tree, q, i, |q| - 1) && IsDir(fs.tree, q[..i])
    requires Rooted(fs.tree) && a in fs.tree && !IsDir(fs.tree, a)
    ensures if a == q || a == Up(q) then IsDir(fs'.tree, a) else Kept(fs.tree, fs'.tree, a)
  {
    assert q[..|q|] == q;
    if a == q || a == Up(q) {
      assert a == q[..|a|];
      assert |a| <= i ==> q[..i][..|a|] == a;
      assert LinkCloned(fs, fs', q, |a|, d, umask);
    }
  }

  /**
   * After success a recycled file is in its place in the bin, unchanged, and gone from where it was, unless the
   * place held the same inode already: then nothing has moved. After a failure it is still where it was.
   */
  lemma {:induction false} SubjectNotLost(fs: Fs, proc: Process, env: Environment, dirfd: int, pathname: string,
                                          e: Path, removedir: bool, dir: string, bin: Path, m: Path)
    requires Subject(fs, proc, dirfd, pathname, e) && !IsDir(fs.tree, e) && MountedOnce(fs.tree)
    requires Usable(fs, proc, env, pathname, e) && Recycles(fs, proc, env, pathname, e, dir, bin, m)
    ensures |m| < |e|
    ensures var p, o := Place(bin, e, m), Unlinkat(fs, proc, env, dirfd, pathname, removedir);
            if o.ret.Err? then Kept(fs.tree, o.fs.tree, e)
            else if p in fs.tree && fs.tree[p].ino == fs.tree[e].ino then
              Kept(fs.tree, o.fs.tree, e) && Kept(fs.tree, o.fs.tree, p)
            else e !in o.fs.tree && p in o.fs.tree && o.fs.tree[p] == fs.tree[e]
  {
    RecycledExact(fs, proc, env, dirfd, pathname, e, removedir, dir, bin, m);
    OutcomeKeepsSubject(fs, proc, e, dir, bin, m, Unlinkat(fs, proc, env, dirfd, pathname, removedir));
  }

  lemma {:induction false} OutcomeKeepsSubject(fs: Fs, proc: Process, e: Path, dir: string, bin: Path, m: Path, o: Out)
    requires Valid(fs) && e in fs.tree && |m| < |e| && Names(Place(bin, e, m))
    requires RecycledOutcome(fs, proc, e, dir, bin, m, o) && !IsDir(fs.tree, e)
    ensures var p := Place(bin, e, m);
            if o.ret.Err? then Kept(fs.tree, o.fs.tree, e)
            else if p in fs.tree && fs.tree[p].ino == fs.tree[e].ino then
              Kept(fs.tree, o.fs.tree, e) && Kept(fs.tree, o.fs.tree, p)
            else e !in o.fs.tree && p in o.fs.tree && o.fs.tree[p] == fs.tree[e]
  {
  }

  /**
   * The other files that recycling destroys, exactly: all are in the bin, where the subject's parent or grandparent
   * is cloned, or in the subject's own place, unless that holds its inode or is on another device.
   */
  lemma {:induction false} OthersNotLost(fs: Fs, proc: Process, env: Environment, dirfd: int, pathname: string,
                                         e: Path, removedir: bool, dir: string, bin: Path, m: Path, a: Path)
    requires Subject(fs, proc, dirfd, pathname, e) && !IsDir(fs.tree, e) && MountedOnce(fs.tree)
    requires Usable(fs, proc, env, pathname, e) && Recycles(fs, proc, env, pathname, e, dir, bin, m)
    requires a in fs.tree && !IsDir(fs.tree, a) && a != e
    ensures |m| < |e|
    ensures Lost(fs.tree, Unlinkat(fs, proc, env, dirfd, pathname, removedir).fs.tree, a) <==>
            MakesWay(fs.tree, e, bin, Place(bin, e, m), a)
  {
    RecycledExact(fs, proc, env, dirfd, pathname, e, removedir, dir, bin, m);
    OutcomeForOthers(fs, proc, e, dir, bin, m, Unlinkat(fs, proc, env, dirfd, pathname, removedir), a);
  }

  /** a is in the bin where a directory has to be for e, or is the file that e replaces at p. */
  predicate MakesWay(t: Tree, e: Path, bin: Path, p: Path, a: Path)
    requires e in t && a in t
  {
    Above(bin, a) &&
    (a == Up(p) || a == Up(Up(p)) || (a == p && t[a].dev == t[e].dev && t[a].ino != t[e].ino))
  }

  /** A file that blocks the way is further up than those that could make way. */
  lemma {:induction false} BlockHidesFiles(t: Tree, q: Path, i: nat, a: Path)
    requires Rooted(t) && i <= |q| && Blocked(t, q, i, |q| - 1) && a in t
    ensures a != q && a != Up(q) && (a != [] ==> Up(a) != q)
  {
    BlockedParent(t, q, i);
    assert q != [] && Up(q) == q[..|q| - 1];
    assert a != [] ==> Up(a) == a[..|a| - 1];
  }

  /** Of the others, the move replaces the one in the new place, unless it fails or finds its own inode there. */
  lemma {:induction false} LostByMove(t: Tree, mid: Fs, e: Path, p: Path, a: Path)
    requires e in t && Up(p) in mid.tree && a in t && !IsDir(t, a) && a != e
    ensures Kept(t, mid.tree, a) ==>
              (Lost(t, Moved(mid, t, e, p).fs.tree, a) <==>
               a == p && mid.tree[Up(p)].dev == t[e].dev && t[a].ino != t[e].ino)
    ensures IsDir(mid.tree, a) && a != p ==> Lost(t, Moved(mid, t, e, p).fs.tree, a)
  {
  }

  lemma {:induction false} OutcomeForOthers(fs: Fs, proc: Process, e: Path, dir: string, bin: Path, m: Path, o: Out,
                                            a: Path)
    requires Valid(fs) && e in fs.tree && |m| < |e| && Names(Place(bin, e, m)) && IsDir(fs.tree, bin)
    requires RecycledOutcome(fs, proc, e, dir, bin, m, o)
    requires a in fs.tree && !IsDir(fs.tree, a) && a != e
    ensures Lost(fs.tree, o.fs.tree, a) <==> MakesWay(fs.tree, e, bin, Place(bin, e, m), a)
  {
    PlaceParts(bin, e, m);
    var p, q, i := Place(bin, e, m), Up(Place(bin, e, m)), |bin|;
    AwayFromPlace(fs.tree, a, p, bin);
    if Blocked(fs.tree, q, i, |q| - 1) {
      BlockHidesFiles(fs.tree, q, i, a);
    } else {
      var mid := MidState(fs, proc, dir, bin, e, m);
      LostToClone(fs, mid, q, i, Up(e), proc.umask, a);
      LostByMove(fs.tree, mid, e, p, a);
      if a == p {
        ParentDevice(fs, mid, p, i, Up(e), proc.umask);
      }
    }
  }

  /** The directory of a file that stands in the place keeps its device. */
  lemma {:induction false} ParentDevice(fs: Fs, mid: Fs, p: Path, i: nat, d: Path, umask: Mode)
    requires Rooted(fs.tree) && p != [] && i <= |Up(p)| && Cloned(fs, mid, Up(p), i, d, umask)
    requires p in fs.tree && !IsDir(fs.tree, p)
    ensures Up(p) in mid.tree && mid.tree[Up(p)].dev == fs.tree[p].dev
  {
    var q := Up(p);
    assert q[..|q|] == q && q == p[..|p| - 1];
    assert LinkCloned(fs, mid, q, |q|, d, umask);
  }

  lemma {:induction false} AwayFromPlace(t: Tree, a: Path, p: Path, bin: Path)
    requires Rooted(t) && a in t && !IsDir(t, a) && IsDir(t, bin) && |bin| < |p| && p[..|bin|] == bin
    ensures !Above(bin, a) ==> a != p && a != Up(p) && a != Up(Up(p))
  {
    assert Up(p)[..|bin|] == bin;
    if |Up(p)| > |bin| {
      assert Up(Up(p))[..|bin|] == bin;
      assert |Up(Up(p))| == |bin| ==> Up(Up(p)) == bin;
    } else {
      assert Up(p) == bin;
      assert bin != [] ==> Up(bin) == bin[..|bin| - 1];
    }
  }

  /** The three ways that a call on a file can go. */
  lemma {:induction false} ThreeWays(fs: Fs, proc: Process, env: Environment, pathname: string, e: Path)
    requires Valid(fs) && e in fs.tree && e != []
    ensures || ForGood(fs, proc, env, pathname, e)
            || (env.recycler.Some? && ChoiceFor(fs, proc, env, pathname, e) == Bad)
            || exists dir, bin, m :: Recycles(fs, proc, env, pathname, e, dir, bin, m)
  {
    if env.recycler.Some? {
      TakenBin(fs, proc, env, pathname, e);
      var v := ChoiceFor(fs, proc, env, pathname, e);
      if v.Take? {
        var c := ClimbTo(fs.tree, e, v.bin);
        if c.Mount? {
          assert Recycles(fs, proc, env, pathname, e, v.dir, v.bin, c.at);
        }
      }
    }
  }

  // ---------------------------------------------------------------- when removal for good is called for

  /** The bin of the first item that is not passed over is above e, or shares its number with the mount's parent. */
  ghost predicate InChosenBin(fs: Fs, proc: Process, env: Environment, pathname: string, e: Path, i: nat, dir: string,
                              bin: Path, m: Path)
    requires env.recycler.Some? && e in fs.tree
  {
    var t := fs.tree;
    && FirstAt(t, proc.cwd, env, Split(env.recycler.value, ':'), pathname, t[e], i, Take(dir, bin))
    && bin in t && MountOf(t, m, t[e].dev)
    && (Above(bin, e) || (m != [] && Up(m) in t && t[Up(m)].ino == t[bin].ino))
  }

  /** Removal for good is called for: no variable, no item that fits, or the file is in the bin or taken for it. */
  ghost predicate CalledFor(fs: Fs, proc: Process, env: Environment, pathname: string, e: Path)
    requires e in fs.tree
  {
    env.recycler.None? ||
    (forall j :: 0 <= j < |Split(env.recycler.value, ':')| ==>
       Judge(fs.tree, proc.cwd, env, Split(env.recycler.value, ':')[j], pathname, fs.tree[e]) == Pass) ||
    exists i, dir, bin, m :: InChosenBin(fs, proc, env, pathname, e, i, dir, bin, m)
  }

  lemma {:induction false} MountExists(t: Tree, e: Path) returns (m: Path)
    requires Rooted(t) && e in t
    ensures MountOf(t, m, t[e].dev)
    decreases |e|
  {
    if IsMountPoint(t, e) {
      m := e;
    } else {
      assert Up(e) == e[..|e| - 1];
      m := MountExists(t, Up(e));
    }
  }

  /** The bin that is taken, if any, is a directory. */
  ghost predicate TakesDirectory(fs: Fs, proc: Process, env: Environment, pathname: string, e: Path)
    requires e in fs.tree
  {
    env.recycler.Some? ==>
      var v := ChoiceFor(fs, proc, env, pathname, e); v.Take? ==> IsDir(fs.tree, v.bin)
  }

  /** The routine removes for good exactly when that is called for. */
  lemma {:induction false} ForGoodIff(fs: Fs, proc: Process, env: Environment, pathname: string, e: Path)
    requires Valid(fs) && e in fs.tree && e != [] && MountedOnce(fs.tree)
    requires TakesDirectory(fs, proc, env, pathname, e)
    ensures ForGood(fs, proc, env, pathname, e) <==> CalledFor(fs, proc, env, pathname, e)
  {
    if env.recycler.Some? {
      var t, items := fs.tree, Split(env.recycler.value, ':');
      var v := ChoiceFor(fs, proc, env, pathname, e);
      ChooseFirst(t, proc.cwd, env, items, pathname, t[e]);
      TakenBin(fs, proc, env, pathname, e);
      if v.Take? {
        var i: nat :| FirstAt(t, proc.cwd, env, items, pathname, t[e], i, v);
        var m := MountExists(t, e);
        ChosenBinIff(fs, m, v.bin, e);
        if ForGood(fs, proc, env, pathname, e) {
          assert InChosenBin(fs, proc, env, pathname, e, i, v.dir, v.bin, m);
        }
      }
      if i, dir, bin, m :| InChosenBin(fs, proc, env, pathname, e, i, dir, bin, m) {
        FirstDecides(t, proc.cwd, env, items, pathname, t[e], i, Take(dir, bin));
        ChosenBinIff(fs, m, bin, e);
      }
    }
  }

  lemma {:induction false} ChosenBinIff(fs: Fs, m: Path, bin: Path, e: Path)
    requires Valid(fs) && MountedOnce(fs.tree) && e in fs.tree && e != [] && IsDir(fs.tree, bin)
    requires fs.tree[bin].dev == fs.tree[e].dev && MountOf(fs.tree, m, fs.tree[e].dev)
    ensures ClimbTo(fs.tree, e, bin) == UnderBin <==>
            Above(bin, e) || (m != [] && Up(m) in fs.tree && fs.tree[Up(m)].ino == fs.tree[bin].ino)
  {
    UnderBinExact(fs, m, bin, e);
    Contiguous(fs.tree, m, e, fs.tree[e].dev);
    assert m != [] ==> Up(m) == e[..|m| - 1];
  }
}
