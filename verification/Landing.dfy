/** Where a recycled file lands, links and all: the exact outcome for every bin with an absolute name. */
module Landing {
  import opened Text
  import opened PathText
  import opened FileTree
  import opened ClonePath
  import opened CloneLinks
  import opened MountPoint
  import opened Kernel
  import opened Recyclix
  import opened NoLoss
  import opened Mounts

  // ---------------------------------------------------------------- the name of the parent's clone

  /** The clone of the name cs is stopped, and why. */
  function WhyStopped(t: Tree, at: Path, cs: seq<string>): Option<Errno>
    requires IsDir(t, at)
  {
    Stop(t, at, cs[..Reach(t, at, cs)], Goal(t, at, cs), |Foot(t, at, cs)|)
  }

  /** Behind a bin's name there are entry names; only its own last component may be beyond the foot. */
  lemma {:induction false} NamesBeyondFoot(t: Tree, at: Path, bin: seq<string>, below: seq<string>)
    requires Rooted(t) && IsDir(t, at) && Clean(bin) && Names(below)
    requires Stat(t, at, bin).Found? && Stat(t, at, bin).at in t
    ensures var n := Reach(t, at, bin + below);
            && Names((bin + below)[n..])
            && if IsDir(t, Stat(t, at, bin).at) then n >= |bin|
               else n == |bin| - 1 && Name(Last(bin)) && (bin + below)[..n] == Up(bin)
  {
    var cs := bin + below;
    var n := Reach(t, at, cs);
    assert cs[..|bin|] == bin;
    if !IsDir(t, Stat(t, at, bin).at) {
      BinIsFile(t, at, bin);
      assert cs[..|bin| - 1] == Up(bin);
      forall k | |bin| < k <= |cs|
        ensures !ResolvesToDir(t, at, cs[..k])
      {
        assert cs[..k] == bin + below[..k - |bin|];
        WalkConcat(t, at, bin, below[..k - |bin|], MAX_LINKS);
      }
      assert Name(cs[|bin| - 1]);
    }
  }

  /** A name that leads to a file has a name for its last component, in a directory. */
  lemma {:induction false} BinIsFile(t: Tree, at: Path, bin: seq<string>)
    requires Rooted(t) && IsDir(t, at) && Clean(bin)
    requires Stat(t, at, bin).Found? && Stat(t, at, bin).at in t && !IsDir(t, Stat(t, at, bin).at)
    ensures bin != [] && Name(Last(bin)) && ResolvesToDir(t, at, Up(bin))
  {
    assert bin == Up(bin) + [Last(bin)];
    WalkConcat(t, at, Up(bin), [Last(bin)], MAX_LINKS);
    assert [Last(bin)][1..] == [];
  }

  lemma {:induction false} GoalFurthest(t: Tree, at: Path, cs: seq<string>)
    requires Rooted(t) && IsDir(t, at) && Clean(cs) && Names(cs[Reach(t, at, cs)..])
    ensures var q, n, i := Goal(t, at, cs), Reach(t, at, cs), |Foot(t, at, cs)|;
            Furthest(t, at, cs[..n], q, i) && cs[..n] + q[i..] == cs && q[..i] == Foot(t, at, cs)
  {
    var q, n, i := Goal(t, at, cs), Reach(t, at, cs), |Foot(t, at, cs)|;
    WalkStays(t, at, cs[..n], MAX_LINKS);
    assert q[..i] == Foot(t, at, cs) && q[i..] == cs[n..];
    assert n < |cs| ==> cs[..n + 1] == cs[..n] + [q[i]];
  }

  /** With no link on the way below a directory the goal is the chain itself. */
  lemma {:induction false} GoalPlain(t: Tree, at: Path, bs: seq<string>, q: Path, i: nat)
    requires Rooted(t) && Aims(t, at, bs, q, i)
    ensures Goal(t, at, bs + q[i..]) == q
  {
    var n := Reach(t, at, bs + q[i..]);
    CutName(bs, q, i, |bs|);
    assert n >= |bs|;
    CutName(bs, q, i, n);
    PlainPrefix(t, at, bs, q, i, i + n - |bs|);
  }

  lemma {:induction false} CutName(bs: seq<string>, q: Path, i: nat, n: nat)
    requires i <= |q| && |bs| <= n <= |bs| + |q| - i
    ensures var cs, j := bs + q[i..], i + n - |bs|;
            cs[..n] == bs + q[i..j] && cs[n..] == q[j..] && q[..j] + q[j..] == q && (n == |bs| ==> cs[..n] == bs)
  {
  }

  lemma {:induction false} PlainPrefix(t: Tree, at: Path, bs: seq<string>, q: Path, i: nat, j: nat)
    requires Rooted(t) && Aims(t, at, bs, q, i) && i <= j <= |q| && ResolvesToDir(t, at, bs + q[i..j])
    ensures Stat(t, at, bs + q[i..j]).at == q[..j]
  {
    var p := q[..j];
    assert p[i..] == q[i..j] && p[..i] == q[..i];
    assert forall k :: 0 <= k <= j ==> p[..k] == q[..k];
    WalkConcat(t, at, bs, p[i..], MAX_LINKS);
    WalkPlain(t, p, i, Stat(t, at, bs).links);
  }

  /** A file is on the chain exactly when it is on the way to the goal, and then it is the entry beyond the foot. */
  lemma {:induction false} OnTheWay(t: Tree, at: Path, bs: seq<string>, q: Path, i: nat, e: Path)
    requires Rooted(t) && Furthest(t, at, bs, q, i) && e in t && !IsDir(t, e)
    ensures OnChain(e, q, i) <==> e <= q
    ensures e <= q ==> i < |q| && e == q[..i + 1]
  {
    assert q[..|q|] == q;
    assert e <= q ==> e == q[..|e|];
    forall k {:trigger q[..k]} | 0 <= k <= i
      ensures IsDir(t, q[..k])
    {
      assert q[..i][..k] == q[..k];
    }
    if i < |q| {
      BeyondFoot(t, at, bs, q, i);
    }
  }

  // ---------------------------------------------------------------- the clone

  /** A clone of the name cs has succeeded: its chain is there, on the device of its foot, and leads to the goal. */
  ghost predicate CloneDone(fs: Fs, mid: Fs, at: Path, cs: seq<string>, e: Path, umask: Mode)
    requires IsDir(fs.tree, at) && e in fs.tree
  {
    var q, foot := Goal(fs.tree, at, cs), Foot(fs.tree, at, cs);
    && Valid(mid) && Cloned(fs, mid, q, |foot|, Up(e), umask) && SameWays(fs.tree, mid.tree)
    && IsDir(mid.tree, q) && foot in fs.tree && mid.tree[q].dev == fs.tree[foot].dev
    && Stat(mid.tree, at, cs).Found? && Stat(mid.tree, at, cs).at == q
    && (foot in mid.tree && mid.tree[foot].dev == fs.tree[foot].dev)
    && if e <= q then Up(e) == foot && IsDir(mid.tree, e) else Kept(fs.tree, mid.tree, e)
  }

  lemma {:induction false} CloneOfName(fs: Fs, at: Path, cs: seq<string>, d: Path, umask: Mode)
    requires Valid(fs) && IsDir(fs.tree, at) && Clean(cs) && Names(cs[Reach(fs.tree, at, cs)..]) && IsDir(fs.tree, d)
    ensures var c := Clone(fs, at, cs, d, umask);
            match WhyStopped(fs.tree, at, cs)
            case Some(x) => c == Out(fs, Err(x))
            case None =>
              && c.ret.Ok? && SameWays(fs.tree, c.fs.tree)
              && Cloned(fs, c.fs, Goal(fs.tree, at, cs), |Foot(fs.tree, at, cs)|, d, umask)
  {
    var q, n, i := Goal(fs.tree, at, cs), Reach(fs.tree, at, cs), |Foot(fs.tree, at, cs)|;
    GoalFurthest(fs.tree, at, cs);
    CloneTotal(fs, at, cs[..n], q, i, d, umask);
    if WhyStopped(fs.tree, at, cs).None? {
      WaysAfterCloned(fs, Clone(fs, at, cs, d, umask).fs, at, cs[..n], q, i, d, umask);
    }
  }

  lemma {:induction false} CloneLands(fs: Fs, at: Path, cs: seq<string>, e: Path, umask: Mode)
    requires Valid(fs) && IsDir(fs.tree, at) && Clean(cs) && Names(cs[Reach(fs.tree, at, cs)..])
    requires e in fs.tree && !IsDir(fs.tree, e)
    ensures var c := Clone(fs, at, cs, Up(e), umask);
            match WhyStopped(fs.tree, at, cs)
            case Some(x) => c == Out(fs, Err(x))
            case None => c.ret.Ok? && CloneDone(fs, c.fs, at, cs, e, umask)
  {
    assert IsDir(fs.tree, Up(e)) by { assert e != [] && Up(e) == e[..|e| - 1]; }
    CloneOfName(fs, at, cs, Up(e), umask);
    if WhyStopped(fs.tree, at, cs).None? {
      ClonedIsDone(fs, Clone(fs, at, cs, Up(e), umask).fs, at, cs, e, umask);
    }
  }

  lemma {:induction false} ClonedIsDone(fs: Fs, mid: Fs, at: Path, cs: seq<string>, e: Path, umask: Mode)
    requires Valid(fs) && Valid(mid) && IsDir(fs.tree, at) && Clean(cs) && Names(cs[Reach(fs.tree, at, cs)..])
    requires e in fs.tree && !IsDir(fs.tree, e) && SameWays(fs.tree, mid.tree)
    requires Cloned(fs, mid, Goal(fs.tree, at, cs), |Foot(fs.tree, at, cs)|, Up(e), umask)
    ensures CloneDone(fs, mid, at, cs, e, umask)
  {
    var t, q, n, i := fs.tree, Goal(fs.tree, at, cs), Reach(fs.tree, at, cs), |Foot(fs.tree, at, cs)|;
    GoalFurthest(t, at, cs);
    AimAfterClone(fs, mid, at, cs[..n], q, i, Up(e), umask);
    OnTheWay(t, at, cs[..n], q, i, e);
    DirDeviceKept(fs, mid, q, i, Up(e), umask, q[..i]);
    GoalDevice(fs, mid, at, cs[..n], q, i, Up(e), umask);
    if e <= q {
      assert e != [] && Up(e) == q[..i];
      assert LinkCloned(fs, mid, q, i + 1, Up(e), umask);
    }
  }

  /** What the clone makes beyond the foot is on the foot's device. */
  lemma {:induction false} GoalDevice(fs: Fs, mid: Fs, at: Path, bs: seq<string>, q: Path, i: nat, d: Path, umask: Mode)
    requires Valid(fs) && Furthest(fs.tree, at, bs, q, i) && Cloned(fs, mid, q, i, d, umask)
    ensures IsDir(mid.tree, q) && mid.tree[q].dev == fs.tree[q[..i]].dev
  {
    assert q[..|q|] == q;
    if i < |q| {
      BeyondFoot(fs.tree, at, bs, q, i);
    }
    MadeOnDevice(fs, mid, q, i, |q|, d, umask, fs.tree[q[..i]].dev);
  }

  // ---------------------------------------------------------------- the move

  /** What recycling file e comes to when its parent's clone is named cs, an absolute name. */
  ghost predicate Lands(fs: Fs, umask: Mode, e: Path, at: Path, cs: seq<string>, o: Out)
    requires Valid(fs) && e in fs.tree && e != [] && Clean(cs) && IsDir(fs.tree, at)
  {
    match WhyStopped(fs.tree, at, cs)
    case Some(x) => o == Out(fs, Err(x))
    case None =>
      var q, mid := Goal(fs.tree, at, cs), Clone(fs, at, cs, Up(e), umask).fs;
      && CloneDone(fs, mid, at, cs, e, umask)
      && o == if e <= q then Out(mid, Err(EINVAL)) else Moved(mid, fs.tree, e, q + [Last(e)])
  }

  /** A directory cannot be moved below itself. */
  lemma {:induction false} RenameBelowSelf(mid: Fs, at: Path, name: seq<string>, at': Path, dest: seq<string>, e: Path)
    requires name != [] && Holder(mid.tree, at, name).Found? && Holder(mid.tree, at, name).at + [Last(name)] == e
    requires dest != [] && Holder(mid.tree, at', dest).Found? && e in mid.tree && Name(Last(dest))
    requires e <= Holder(mid.tree, at', dest).at && Up(e) in mid.tree && Up(e) == Holder(mid.tree, at, name).at
    requires mid.tree[Up(e)].dev == mid.tree[Holder(mid.tree, at', dest).at].dev
    ensures Rename(mid, at, name, at', dest) == Out(mid, Err(EINVAL))
  {
  }

  /** renameat looks the recycled name up from where the clone did: it is absolute, or descriptor 0 is there. */
  predicate Anchored(proc: Process, dir: string) {
    IsAbsolute(dir) || (0 in proc.dirs && proc.dirs[0] == proc.cwd)
  }

  /** The goal's entry of the subject's name is off the chain, so it is after the clone as it was before. */
  lemma {:induction false} GoalEntry(fs: Fs, mid: Fs, at: Path, cs: seq<string>, e: Path, umask: Mode)
    requires Valid(fs) && IsDir(fs.tree, at) && e in fs.tree && e != [] && CloneDone(fs, mid, at, cs, e, umask)
    ensures var p := Goal(fs.tree, at, cs) + [Last(e)];
            && Names(p) && Up(p) == Goal(fs.tree, at, cs) && Last(p) == Last(e)
            && (p in fs.tree <==> p in mid.tree) && (p in fs.tree ==> mid.tree[p] == fs.tree[p])
  {
    var q := Goal(fs.tree, at, cs);
    var p := q + [Last(e)];
    assert !OnChain(p, q, |Foot(fs.tree, at, cs)|);
    assert Name(Last(e)) && Names(q);
  }

  lemma {:induction false} RenameLands(fs: Fs, mid: Fs, proc: Process, dirfd: int, pathname: string, e: Path,
                                       dir: string, at: Path, cs: seq<string>)
    requires Subject(fs, proc, dirfd, pathname, e) && !IsDir(fs.tree, e) && Anchored(proc, dir) && Clean(cs)
    requires at == Base(dir, proc.cwd)
    requires CloneDone(fs, mid, at, cs, e, proc.umask)
    ensures var q, o := Goal(fs.tree, at, cs), RenameInto(mid, proc, dirfd, pathname, dir, cs + [Last(e)]);
            o == if e <= q then Out(mid, Err(EINVAL)) else Moved(mid, fs.tree, e, q + [Last(e)])
  {
    var q, dest := Goal(fs.tree, at, cs), cs + [Last(e)];
    assert e != [] && e == Up(e) + [Last(e)];
    assert Up(dest) == cs && Last(dest) == Last(e);
    EntryAgain(fs.tree, mid.tree, proc, dirfd, pathname);
    GoalEntry(fs, mid, at, cs, e, proc.umask);
    if e <= q {
      RenameBelowSelf(mid, BaseAt(proc, dirfd, pathname).at, Components(pathname), at, dest, e);
    } else {
      RenameExact(fs, mid, proc, dirfd, pathname, e, dir, at, q + [Last(e)], dest);
    }
  }

  /** The name of the parent's clone, in a bin whose name leads somewhere. */
  lemma {:induction false} ParentName(t: Tree, at: Path, dir: string, e: Path, m: Path)
    requires Rooted(t) && IsDir(t, at) && Names(e) && |m| < |e|
    requires Stat(t, at, Components(dir)).Found? && Stat(t, at, Components(dir)).at in t
    ensures var cs := Up(Destination(dir, e, m));
            && Destination(dir, e, m) == cs + [Last(e)] && cs == Components(dir) + Up(e)[|m|..]
            && Clean(cs) && Names(cs[Reach(t, at, cs)..])
  {
    NamesBelow(Components(dir), e, |m|);
    NamesBeyondFoot(t, at, Components(dir), Up(e)[|m|..]);
  }

  lemma {:induction false} NamesBelow(bin: seq<string>, e: Path, k: nat)
    requires Clean(bin) && Names(e) && k < |e|
    ensures var cs := Up(bin + e[k..]);
            bin + e[k..] == cs + [Last(e)] && cs == bin + Up(e)[k..] && Names(Up(e)[k..]) && Clean(cs)
  {
    UpOfName(bin, e, k);
    var below := Up(e)[k..];
    assert forall j :: 0 <= j < |below| ==> below[j] == e[k + j];
    CleanConcat(bin, below);
  }

  lemma {:induction false} CleanConcat(a: seq<string>, b: Path)
    requires Clean(a) && Names(b)
    ensures Clean(a + b)
  {
  }

  lemma {:induction false} MoveLands(fs: Fs, proc: Process, dirfd: int, pathname: string, e: Path, m: Path, dir: string,
                                     removedir: bool)
    requires Subject(fs, proc, dirfd, pathname, e) && !IsDir(fs.tree, e) && Anchored(proc, dir) && |m| < |e|
    requires var w := Stat(fs.tree, Base(dir, proc.cwd), Components(dir)); w.Found? && w.at in fs.tree
    ensures Clean(Up(Destination(dir, e, m)))
    ensures Lands(fs, proc.umask, e, Base(dir, proc.cwd), Up(Destination(dir, e, m)),
                  MoveInto(fs, proc, dirfd, pathname, e, m, dir, removedir))
  {
    var at, cs := Base(dir, proc.cwd), Up(Destination(dir, e, m));
    ParentName(fs.tree, at, dir, e, m);
    CloneLands(fs, at, cs, e, proc.umask);
    if WhyStopped(fs.tree, at, cs).None? {
      RenameLands(fs, Clone(fs, at, cs, Up(e), proc.umask).fs, proc, dirfd, pathname, e, dir, at, cs);
    }
  }

  /** The exact outcome of recycling a file into any bin with an absolute name, or with descriptor 0 in its place. */
  lemma {:induction false} FileLands(fs: Fs, proc: Process, env: Environment, dirfd: int, pathname: string, e: Path,
                                     removedir: bool, dir: string, bin: Path, m: Path)
    requires Subject(fs, proc, dirfd, pathname, e) && !IsDir(fs.tree, e) && Anchored(proc, dir)
    requires Recycles(fs, proc, env, pathname, e, dir, bin, m)
    ensures |m| < |e| && Clean(Up(Destination(dir, e, m)))
    ensures Lands(fs, proc.umask, e, Base(dir, proc.cwd), Up(Destination(dir, e, m)),
                  Unlinkat(fs, proc, env, dirfd, pathname, removedir))
  {
    TakenInTree(fs.tree, proc.cwd, env, Split(env.recycler.value, ':'), pathname, fs.tree[e]);
    FileLeavesMount(fs.tree, e, fs.tree[bin].ino);
    MoveLands(fs, proc, dirfd, pathname, e, m, dir, removedir);
  }

  // ---------------------------------------------------------------- what becomes of the subject, and of others

  /** The node that a file is renamed onto, if any, hangs in the foot itself. */
  lemma {:induction false} GoalOccupied(t: Tree, at: Path, cs: seq<string>, c: string)
    requires Rooted(t) && IsDir(t, at) && Clean(cs) && Names(cs[Reach(t, at, cs)..]) && Goal(t, at, cs) + [c] in t
    ensures Goal(t, at, cs) == Foot(t, at, cs) && Foot(t, at, cs) in t
    ensures var p := Goal(t, at, cs) + [c]; !IsDir(t, p) ==> t[p].dev == t[Foot(t, at, cs)].dev
  {
    var q, n, i := Goal(t, at, cs), Reach(t, at, cs), |Foot(t, at, cs)|;
    GoalFurthest(t, at, cs);
    assert (q + [c])[..|q|] == q;
    assert Up(q + [c]) == q;
    assert q[..|q|] == q;
    if i < |q| {
      BeyondFoot(t, at, cs[..n], q, i);
    }
  }

  lemma {:induction false} FateOfSubject(fs: Fs, umask: Mode, e: Path, at: Path, cs: seq<string>, o: Out)
    requires Valid(fs) && e in fs.tree && !IsDir(fs.tree, e) && e != [] && Clean(cs) && IsDir(fs.tree, at)
    requires Names(cs[Reach(fs.tree, at, cs)..]) && Lands(fs, umask, e, at, cs, o)
    ensures var t, q, foot := fs.tree, Goal(fs.tree, at, cs), Foot(fs.tree, at, cs);
            var p, stopped := q + [Last(e)], WhyStopped(fs.tree, at, cs).Some?;
            && foot in t
            && (o.ret.Ok? <==> !stopped && !(e <= q) && t[foot].dev == t[e].dev && !IsDir(t, p))
            && (o.ret.Err? ==> if stopped || !(e <= q) then Kept(t, o.fs.tree, e) else IsDir(o.fs.tree, e))
            && (o.ret.Ok? ==> if p in t && t[p].ino == t[e].ino then Kept(t, o.fs.tree, e)
                              else e !in o.fs.tree && p in o.fs.tree && o.fs.tree[p] == t[e])
  {
    GoalFurthest(fs.tree, at, cs);
    WalkStays(fs.tree, at, cs[..Reach(fs.tree, at, cs)], MAX_LINKS);
    assert Up(Goal(fs.tree, at, cs) + [Last(e)]) == Goal(fs.tree, at, cs);
  }

  /** Of the files, the clone removes the one on the way to the goal. */
  lemma {:induction false} LostByClone(fs: Fs, mid: Fs, at: Path, cs: seq<string>, e: Path, umask: Mode, a: Path)
    requires Valid(fs) && IsDir(fs.tree, at) && Clean(cs) && Names(cs[Reach(fs.tree, at, cs)..]) && e in fs.tree
    requires CloneDone(fs, mid, at, cs, e, umask) && a in fs.tree && !IsDir(fs.tree, a)
    ensures if a <= Goal(fs.tree, at, cs) then IsDir(mid.tree, a) else Kept(fs.tree, mid.tree, a)
    ensures var q, i := Goal(fs.tree, at, cs), |Foot(fs.tree, at, cs)|;
            a <= q <==> i < |q| && a == q[..i + 1]
  {
    var q, n, i := Goal(fs.tree, at, cs), Reach(fs.tree, at, cs), |Foot(fs.tree, at, cs)|;
    GoalFurthest(fs.tree, at, cs);
    OnTheWay(fs.tree, at, cs[..n], q, i, a);
    if a <= q {
      assert LinkCloned(fs, mid, q, |a|, Up(e), umask);
    }
  }

  /** The clone of the name cs is not stopped, and a is the entry right beyond its foot. */
  predicate StandsInWay(t: Tree, at: Path, cs: seq<string>, a: Path)
    requires IsDir(t, at)
  {
    var q, foot := Goal(t, at, cs), Foot(t, at, cs);
    WhyStopped(t, at, cs).None? && |foot| < |q| && a == q[..|foot| + 1]
  }

  /** a stands in the way of e's clone, or e replaces it in the goal: it is on e's device, and not e's own inode. */
  predicate GivesWay(t: Tree, at: Path, cs: seq<string>, e: Path, a: Path)
    requires IsDir(t, at) && e in t && e != [] && a in t
  {
    var q, foot := Goal(t, at, cs), Foot(t, at, cs);
    StandsInWay(t, at, cs, a) ||
    (WhyStopped(t, at, cs).None? && foot in t &&
     a == q + [Last(e)] && t[foot].dev == t[e].dev && t[a].ino != t[e].ino)
  }

  lemma {:induction false} FateOfOthers(fs: Fs, umask: Mode, e: Path, at: Path, cs: seq<string>, o: Out, a: Path)
    requires Valid(fs) && e in fs.tree && !IsDir(fs.tree, e) && e != [] && Clean(cs) && IsDir(fs.tree, at)
    requires Names(cs[Reach(fs.tree, at, cs)..]) && Lands(fs, umask, e, at, cs, o)
    requires a in fs.tree && !IsDir(fs.tree, a) && a != e && Foot(fs.tree, at, cs) in fs.tree
    ensures Lost(fs.tree, o.fs.tree, a) <==> GivesWay(fs.tree, at, cs, e, a)
  {
    var t, q := fs.tree, Goal(fs.tree, at, cs);
    var p := q + [Last(e)];
    if WhyStopped(t, at, cs).None? {
      var mid := Clone(fs, at, cs, Up(e), umask).fs;
      LostByClone(fs, mid, at, cs, e, umask, a);
      if a <= q {
        StaysLost(t, mid, e, q, a, o);
      } else if !(e <= q) {
        assert Up(p) == q;
        LostByMove(t, mid, e, p, a);
      } else if a == p {
        GoalOccupied(t, at, cs, Last(e));
        FootAboveGoal(t, at, cs, e);
      }
    }
  }

  /** A file that has become a directory on the way to the goal is lost whatever the move does. */
  lemma {:induction false} StaysLost(t: Tree, mid: Fs, e: Path, q: Path, a: Path, o: Out)
    requires e in t && a in t && !IsDir(t, a) && IsDir(mid.tree, a) && IsDir(mid.tree, q) && a <= q && a != e
    requires o == if e <= q then Out(mid, Err(EINVAL)) else Moved(mid, t, e, q + [Last(e)])
    requires e != [] && Up(q + [Last(e)]) == q
    ensures Lost(t, o.fs.tree, a)
  {
    assert a != q + [Last(e)];
  }

  lemma {:induction false} FootAboveGoal(t: Tree, at: Path, cs: seq<string>, e: Path)
    requires Rooted(t) && IsDir(t, at) && Clean(cs) && Names(cs[Reach(t, at, cs)..])
    requires e in t && !IsDir(t, e) && e <= Goal(t, at, cs)
    ensures Goal(t, at, cs) != Foot(t, at, cs)
  {
    GoalFurthest(t, at, cs);
    var n := Reach(t, at, cs);
    OnTheWay(t, at, cs[..n], Goal(t, at, cs), |Foot(t, at, cs)|, e);
  }

  // ---------------------------------------------------------------- the theorems about a call

  /**
   * What a call makes of a file that it recycles into a bin with an absolute name (or `Anchored`): with q the goal of
   * its parent's recycled name, it moves into q exactly when nothing stops the clone, it is not itself on the way, the
   * foot is on its device and no directory has its name in q. It stays where it was otherwise, except that a file on
   * the way to its own goal is replaced by a directory.
   */
  lemma {:induction false} SubjectLands(fs: Fs, proc: Process, env: Environment, dirfd: int, pathname: string, e: Path,
                                        removedir: bool, dir: string, bin: Path, m: Path)
    requires Subject(fs, proc, dirfd, pathname, e) && !IsDir(fs.tree, e) && Anchored(proc, dir)
    requires Recycles(fs, proc, env, pathname, e, dir, bin, m)
    ensures |m| < |e|
    ensures var t, at, cs := fs.tree, Base(dir, proc.cwd), Up(Destination(dir, e, m));
            var o := Unlinkat(fs, proc, env, dirfd, pathname, removedir);
            var q, foot := Goal(t, at, cs), Foot(t, at, cs);
            var p, stopped := q + [Last(e)], WhyStopped(t, at, cs).Some?;
            && foot in t
            && (stopped ==> o == Out(fs, Err(WhyStopped(t, at, cs).value)))
            && (o.ret.Ok? <==> !stopped && !(e <= q) && t[foot].dev == t[e].dev && !IsDir(t, p))
            && (o.ret.Err? ==> if stopped || !(e <= q) then Kept(t, o.fs.tree, e) else IsDir(o.fs.tree, e))
            && (o.ret.Ok? ==> if p in t && t[p].ino == t[e].ino then Kept(t, o.fs.tree, e)
                              else e !in o.fs.tree && p in o.fs.tree && o.fs.tree[p] == t[e])
  {
    FileLands(fs, proc, env, dirfd, pathname, e, removedir, dir, bin, m);
    RecyclingName(fs, proc, env, pathname, e, dir, bin, m);
    FateOfSubject(fs, proc.umask, e, Base(dir, proc.cwd), Up(Destination(dir, e, m)),
                  Unlinkat(fs, proc, env, dirfd, pathname, removedir));
  }

  lemma {:induction false} RecyclingName(fs: Fs, proc: Process, env: Environment, pathname: string, e: Path,
                                         dir: string, bin: Path, m: Path)
    requires Valid(fs) && IsDir(fs.tree, proc.cwd) && e in fs.tree && !IsDir(fs.tree, e)
    requires Recycles(fs, proc, env, pathname, e, dir, bin, m)
    ensures |m| < |e| && m == e[..|m|] && fs.tree[bin].dev == fs.tree[e].dev
    ensures var at, cs := Base(dir, proc.cwd), Up(Destination(dir, e, m));
            && Stat(fs.tree, at, Components(dir)).Found? && Stat(fs.tree, at, Components(dir)).at == bin
            && Destination(dir, e, m) == cs + [Last(e)] && cs == Components(dir) + Up(e)[|m|..]
            && Clean(cs) && Names(cs[Reach(fs.tree, at, cs)..]) && Foot(fs.tree, at, cs) in fs.tree
  {
    assert e != [];
    TakenInTree(fs.tree, proc.cwd, env, Split(env.recycler.value, ':'), pathname, fs.tree[e]);
    FileLeavesMount(fs.tree, e, fs.tree[bin].ino);
    var at, cs := Base(dir, proc.cwd), Up(Destination(dir, e, m));
    ParentName(fs.tree, at, dir, e, m);
    WalkStays(fs.tree, at, cs[..Reach(fs.tree, at, cs)], MAX_LINKS);
  }

  /**
   * The files that such a call destroys besides: the entry right beyond the foot, where a directory is made, and
   * the file that the subject replaces, unless that is its own inode. No other, in the bin or out of it.
   */
  lemma {:induction false} OthersLostIff(fs: Fs, proc: Process, env: Environment, dirfd: int, pathname: string,
                                         e: Path, removedir: bool, dir: string, bin: Path, m: Path, a: Path)
    requires Subject(fs, proc, dirfd, pathname, e) && !IsDir(fs.tree, e) && Anchored(proc, dir)
    requires Recycles(fs, proc, env, pathname, e, dir, bin, m)
    requires a in fs.tree && !IsDir(fs.tree, a) && a != e
    ensures |m| < |e|
    ensures Lost(fs.tree, Unlinkat(fs, proc, env, dirfd, pathname, removedir).fs.tree, a) <==>
            GivesWay(fs.tree, Base(dir, proc.cwd), Up(Destination(dir, e, m)), e, a)
  {
    FileLands(fs, proc, env, dirfd, pathname, e, removedir, dir, bin, m);
    var at, cs := Base(dir, proc.cwd), Up(Destination(dir, e, m));
    var o := Unlinkat(fs, proc, env, dirfd, pathname, removedir);
    assert Names(cs[Reach(fs.tree, at, cs)..]) && Foot(fs.tree, at, cs) in fs.tree by {
      RecyclingName(fs, proc, env, pathname, e, dir, bin, m);
    }
    FateOfOthers(fs, proc.umask, e, at, cs, o, a);
  }

  // ---------------------------------------------------------------- directories

  lemma {:induction false} DirectoryName(fs: Fs, proc: Process, env: Environment, pathname: string, e: Path,
                                         dir: string, bin: Path, m: Path)
    requires Valid(fs) && IsDir(fs.tree, proc.cwd) && IsDir(fs.tree, e) && e != []
    requires Recycles(fs, proc, env, pathname, e, dir, bin, m)
    ensures |m| <= |e|
    ensures var at, cs := Base(dir, proc.cwd), Destination(dir, e, m);
            Clean(cs) && Names(cs[Reach(fs.tree, at, cs)..])
  {
    TakenInTree(fs.tree, proc.cwd, env, Split(env.recycler.value, ':'), pathname, fs.tree[e]);
    ClimbExact(fs.tree, e, fs.tree[e].dev, fs.tree[bin].ino);
    var below := e[|m|..];
    assert Names(below) by { assert forall k :: 0 <= k < |below| ==> below[k] == e[|m| + k]; }
    NamesBeyondFoot(fs.tree, Base(dir, proc.cwd), Components(dir), below);
    CleanConcat(Components(dir), below);
  }

  /** What recycling directory e comes to: its whole name is cloned, or the call stops; then the C library decides. */
  ghost predicate DirectoryLanded(fs: Fs, proc: Process, e: Path, at: Path, cs: seq<string>, removedir: bool, o: Out)
    requires Valid(fs) && IsDir(fs.tree, at) && e in fs.tree && Clean(cs)
  {
    match WhyStopped(fs.tree, at, cs)
    case Some(x) => o == Out(fs, Err(x))
    case None =>
      var mid := Clone(fs, at, cs, e, proc.umask).fs;
      && Cloned(fs, mid, Goal(fs.tree, at, cs), |Foot(fs.tree, at, cs)|, e, proc.umask) && IsDir(mid.tree, e)
      && o == if !removedir then Out(mid, Err(EISDIR))
              else if IsMountPoint(mid.tree, e) then Out(mid, Err(EBUSY))
              else if HasChildren(mid.tree, e) then Out(mid, Err(ENOTEMPTY))
              else Out(mid.(tree := Drop(mid.tree, e)), Ok)
  }

  lemma {:induction false} DirectoryAfterClone(fs: Fs, mid: Fs, proc: Process, dirfd: int, pathname: string, e: Path,
                                               removedir: bool, p: Path, i: nat)
    requires Subject(fs, proc, dirfd, pathname, e) && IsDir(fs.tree, e) && SameWays(fs.tree, mid.tree) && i <= |p|
    requires Cloned(fs, mid, p, i, e, proc.umask)
    ensures IsDir(mid.tree, e)
    ensures RealUnlinkat(mid, proc, dirfd, pathname, removedir) ==
            if !removedir then Out(mid, Err(EISDIR))
            else if IsMountPoint(mid.tree, e) then Out(mid, Err(EBUSY))
            else if HasChildren(mid.tree, e) then Out(mid, Err(ENOTEMPTY))
            else Out(mid.(tree := Drop(mid.tree, e)), Ok)
  {
    EntryAgain(fs.tree, mid.tree, proc, dirfd, pathname);
    DirDeviceKept(fs, mid, p, i, e, proc.umask, e);
    assert e != [] && e == Up(e) + [Last(e)];
    RealRemoval(mid, proc, dirfd, pathname, removedir, e);
  }

  /** The exact outcome for a directory that is recycled, whatever links are on the way, and for every bin. */
  lemma {:induction false} DirectoryLands(fs: Fs, proc: Process, env: Environment, dirfd: int, pathname: string,
                                          e: Path, removedir: bool, dir: string, bin: Path, m: Path)
    requires Subject(fs, proc, dirfd, pathname, e) && IsDir(fs.tree, e)
    requires Recycles(fs, proc, env, pathname, e, dir, bin, m)
    ensures |m| <= |e| && Clean(Destination(dir, e, m))
    ensures DirectoryLanded(fs, proc, e, Base(dir, proc.cwd), Destination(dir, e, m), removedir,
                            Unlinkat(fs, proc, env, dirfd, pathname, removedir))
  {
    var at := Base(dir, proc.cwd);
    DirectoryName(fs, proc, env, pathname, e, dir, bin, m);
    var cs := Destination(dir, e, m);
    CloneOfName(fs, at, cs, e, proc.umask);
    if WhyStopped(fs.tree, at, cs).None? {
      DirectoryAfterClone(fs, Clone(fs, at, cs, e, proc.umask).fs, proc, dirfd, pathname, e, removedir,
                          Goal(fs.tree, at, cs), |Foot(fs.tree, at, cs)|);
    }
  }

  /** Such a call destroys one file at most: the entry right beyond the foot, if nothing stops the clone. */
  lemma {:induction false} DirectoryLosesIff(fs: Fs, proc: Process, env: Environment, dirfd: int, pathname: string,
                                             e: Path, removedir: bool, dir: string, bin: Path, m: Path, a: Path)
    requires Subject(fs, proc, dirfd, pathname, e) && IsDir(fs.tree, e)
    requires Recycles(fs, proc, env, pathname, e, dir, bin, m) && a in fs.tree && !IsDir(fs.tree, a)
    ensures |m| <= |e|
    ensures Lost(fs.tree, Unlinkat(fs, proc, env, dirfd, pathname, removedir).fs.tree, a) <==>
            StandsInWay(fs.tree, Base(dir, proc.cwd), Destination(dir, e, m), a)
  {
    DirectoryLands(fs, proc, env, dirfd, pathname, e, removedir, dir, bin, m);
    DirectoryName(fs, proc, env, pathname, e, dir, bin, m);
    LostWithClone(fs, proc, e, Base(dir, proc.cwd), Destination(dir, e, m), removedir,
                  Unlinkat(fs, proc, env, dirfd, pathname, removedir), a);
  }

  lemma {:induction false} LostWithClone(fs: Fs, proc: Process, e: Path, at: Path, cs: seq<string>, removedir: bool,
                                         o: Out, a: Path)
    requires Valid(fs) && IsDir(fs.tree, at) && IsDir(fs.tree, e) && Clean(cs) && Names(cs[Reach(fs.tree, at, cs)..])
    requires DirectoryLanded(fs, proc, e, at, cs, removedir, o) && a in fs.tree && !IsDir(fs.tree, a)
    ensures Lost(fs.tree, o.fs.tree, a) <==> StandsInWay(fs.tree, at, cs, a)
  {
    var q, n, i := Goal(fs.tree, at, cs), Reach(fs.tree, at, cs), |Foot(fs.tree, at, cs)|;
    GoalFurthest(fs.tree, at, cs);
    OnTheWay(fs.tree, at, cs[..n], q, i, a);
    if WhyStopped(fs.tree, at, cs).None? && OnChain(a, q, i) {
      ChainIsDir(fs, Clone(fs, at, cs, e, proc.umask).fs, q, i, e, proc.umask, a);
    }
  }

  // ---------------------------------------------------------------- spellings

  /**
   * Two spellings of one file or directory that lead to the same bin have the same outcome, whatever the bin's layout;
   * for a file the flag makes no difference either.
   */
  lemma {:induction false} SpellingDoesNotMatter(fs: Fs, e: Path, proc: Process, env: Environment, dirfd: int,
                                                 pathname: string, removedir: bool, proc': Process, env': Environment,
                                                 dirfd': int, pathname': string, removedir': bool, dir: string,
                                                 bin: Path, m: Path)
    requires Subject(fs, proc, dirfd, pathname, e) && Subject(fs, proc', dirfd', pathname', e)
    requires Recycles(fs, proc, env, pathname, e, dir, bin, m) && Recycles(fs, proc', env', pathname', e, dir, bin, m)
    requires IsAbsolute(dir) && proc.umask == proc'.umask && (IsDir(fs.tree, e) ==> removedir == removedir')
    ensures Unlinkat(fs, proc, env, dirfd, pathname, removedir) ==
            Unlinkat(fs, proc', env', dirfd', pathname', removedir')
  {
    if IsDir(fs.tree, e) {
      DirectoryLands(fs, proc, env, dirfd, pathname, e, removedir, dir, bin, m);
      DirectoryLands(fs, proc', env', dirfd', pathname', e, removedir', dir, bin, m);
    } else {
      FileLands(fs, proc, env, dirfd, pathname, e, removedir, dir, bin, m);
      FileLands(fs, proc', env', dirfd', pathname', e, removedir', dir, bin, m);
    }
  }

  // ---------------------------------------------------------------- arriving at the place

  /** The subject is in its place, unchanged, and gone from where it was. */
  predicate Arrived(t: Tree, t': Tree, e: Path, place: Path)
    requires e in t
  {
    e !in t' && place in t' && t'[place] == t[e]
  }

  /** On a way that ends in the bin, whatever is no directory is in the bin. */
  lemma {:induction false} OnWayToBin(t: Tree, bin: Path, q: Path, a: Path)
    requires Rooted(t) && IsDir(t, bin) && bin <= q && a <= q
    ensures IsDir(t, a) || Above(bin, a)
  {
    if |a| <= |bin| {
      assert a == bin[..|a|] && bin[..|bin|] == bin;
    } else {
      assert a[..|bin|] == bin;
    }
  }

  /** The move leaves the subject's node in one new place only. */
  lemma {:induction false} OnePlace(fs: Fs, umask: Mode, e: Path, at: Path, cs: seq<string>, o: Out, place: Path)
    requires Valid(fs) && e in fs.tree && !IsDir(fs.tree, e) && e != [] && Clean(cs) && IsDir(fs.tree, at)
    requires Lands(fs, umask, e, at, cs, o) && Arrived(fs.tree, o.fs.tree, e, place)
    requires place in fs.tree ==> fs.tree[place].ino != fs.tree[e].ino
    ensures place == Goal(fs.tree, at, cs) + [Last(e)]
  {
    var q, i := Goal(fs.tree, at, cs), |Foot(fs.tree, at, cs)|;
    if place != q + [Last(e)] && WhyStopped(fs.tree, at, cs).None? {
      var mid := Clone(fs, at, cs, Up(e), umask).fs;
      if OnChain(place, q, i) {
        ChainIsDir(fs, mid, q, i, Up(e), umask, place);
      }
    }
  }

  lemma {:induction false} LandsInBin(fs: Fs, umask: Mode, e: Path, at: Path, cs: seq<string>, o: Out, bin: Path,
                                      place: Path)
    requires Valid(fs) && e in fs.tree && !IsDir(fs.tree, e) && e != [] && Clean(cs) && IsDir(fs.tree, at)
    requires Names(cs[Reach(fs.tree, at, cs)..]) && Lands(fs, umask, e, at, cs, o)
    requires IsDir(fs.tree, bin) && !Above(bin, e) && place != [] && bin <= Up(place) && Last(place) == Last(e)
    requires place in fs.tree ==> fs.tree[place].ino != fs.tree[e].ino
    ensures var t, foot := fs.tree, Foot(fs.tree, at, cs);
            && foot in t
            && (Arrived(t, o.fs.tree, e, place) <==>
                  && WhyStopped(t, at, cs).None? && Goal(t, at, cs) == Up(place)
                  && t[foot].dev == t[e].dev && !IsDir(t, place))
  {
    FateOfSubject(fs, umask, e, at, cs, o);
    assert place == Up(place) + [Last(e)];
    if Goal(fs.tree, at, cs) == Up(place) && e <= Up(place) {
      OnWayToBin(fs.tree, bin, Up(place), e);
    }
    if Arrived(fs.tree, o.fs.tree, e, place) {
      OnePlace(fs, umask, e, at, cs, o, place);
      assert Up(place) == Goal(fs.tree, at, cs);
    }
  }

  /**
   * A recycled file arrives at its place in the bin exactly when nothing stops the clone, the parent's recycled name
   * leads to the parent of the place, that is on the file's device and no directory has the place. (A place that
   * holds the file's own inode already is left as it is.)
   */
  lemma {:induction false} ArrivesIff(fs: Fs, proc: Process, env: Environment, dirfd: int, pathname: string, e: Path,
                                      removedir: bool, dir: string, bin: Path, m: Path)
    requires Subject(fs, proc, dirfd, pathname, e) && !IsDir(fs.tree, e) && Anchored(proc, dir) && MountedOnce(fs.tree)
    requires Recycles(fs, proc, env, pathname, e, dir, bin, m) && IsDir(fs.tree, bin)
    requires |m| < |e| && Place(bin, e, m) in fs.tree ==> fs.tree[Place(bin, e, m)].ino != fs.tree[e].ino
    ensures |m| < |e|
    ensures var t, at, cs, p := fs.tree, Base(dir, proc.cwd), Up(Destination(dir, e, m)), Place(bin, e, m);
            && Foot(t, at, cs) in t
            && (Arrived(t, Unlinkat(fs, proc, env, dirfd, pathname, removedir).fs.tree, e, p) <==>
                  && WhyStopped(t, at, cs).None? && Goal(t, at, cs) == Up(p)
                  && t[Foot(t, at, cs)].dev == t[e].dev && !IsDir(t, p))
  {
    FileLands(fs, proc, env, dirfd, pathname, e, removedir, dir, bin, m);
    RecyclingName(fs, proc, env, pathname, e, dir, bin, m);
    NotBelowBin(fs, e, bin, m);
    PlaceParts(bin, e, m);
    var cs, p := Up(Destination(dir, e, m)), Place(bin, e, m);
    assert bin <= Up(p) by { assert Up(p)[..|bin|] == bin; }
    LandsInBin(fs, proc.umask, e, Base(dir, proc.cwd), cs, Unlinkat(fs, proc, env, dirfd, pathname, removedir), bin, p);
  }

  /** If the goal is in the bin, so is whatever gives way. */
  lemma {:induction false} GivesWayInBin(t: Tree, at: Path, cs: seq<string>, e: Path, a: Path, bin: Path)
    requires Rooted(t) && IsDir(t, at) && IsDir(t, bin) && bin <= Goal(t, at, cs)
    requires e in t && e != [] && a in t && !IsDir(t, a)
    requires GivesWay(t, at, cs, e, a)
    ensures Above(bin, a)
  {
    var q, i := Goal(t, at, cs), |Foot(t, at, cs)|;
    if i < |q| && a == q[..i + 1] {
      OnWayToBin(t, bin, q, a);
    }
  }

  /** A file whose parent's recycled name leads to the parent of its place costs no file outside the bin. */
  lemma {:induction false} ArrivalSafe(fs: Fs, proc: Process, env: Environment, dirfd: int, pathname: string, e: Path,
                                       removedir: bool, dir: string, bin: Path, m: Path, a: Path)
    requires Subject(fs, proc, dirfd, pathname, e) && !IsDir(fs.tree, e) && Anchored(proc, dir)
    requires Recycles(fs, proc, env, pathname, e, dir, bin, m) && IsDir(fs.tree, bin)
    requires a != e && Lost(fs.tree, Unlinkat(fs, proc, env, dirfd, pathname, removedir).fs.tree, a)
    ensures |m| < |e|
    ensures Goal(fs.tree, Base(dir, proc.cwd), Up(Destination(dir, e, m))) == Up(Place(bin, e, m)) ==> Above(bin, a)
  {
    OthersLostIff(fs, proc, env, dirfd, pathname, e, removedir, dir, bin, m, a);
    var q := Up(Place(bin, e, m));
    if Goal(fs.tree, Base(dir, proc.cwd), Up(Destination(dir, e, m))) == q {
      assert bin <= q by {
        PlaceParts(bin, e, m);
        assert q[..|bin|] == bin;
      }
      GivesWayInBin(fs.tree, Base(dir, proc.cwd), Up(Destination(dir, e, m)), e, a, bin);
    }
  }
}
