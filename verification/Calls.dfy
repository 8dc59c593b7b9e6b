/** What every call does, whatever links the bin holds: no loss, what stays as it was, and what is new. */
module Calls {
  import opened Text
  import opened PathText
  import opened FileTree
  import opened ClonePath
  import opened CloneLinks
  import opened MountPoint
  import opened Kernel
  import opened Recyclix
  import opened NoLoss
  import opened Mounts
  import opened Soundness
  import opened Deletion
  import opened Landing

  // ---------------------------------------------------------------- where a file is to go

  /** The entry that the recycled name of e comes to. */
  function Spot(t: Tree, proc: Process, dir: string, e: Path, m: Path): Path
    requires IsDir(t, Base(dir, proc.cwd)) && |m| < |e|
  {
    Goal(t, Base(dir, proc.cwd), Up(Destination(dir, e, m))) + [Last(e)]
  }

  /** The spot of a file that is to be recycled. */
  ghost function SpotOf(fs: Fs, proc: Process, env: Environment, pathname: string, e: Path): Option<Path>
    requires Valid(fs) && IsDir(fs.tree, proc.cwd) && e in fs.tree && e != []
  {
    if env.recycler.None? then None
    else match ChoiceFor(fs, proc, env, pathname, e)
      case Pass => None
      case Bad => None
      case Take(dir, bin) =>
        if bin !in fs.tree then None
        else match ClimbTo(fs.tree, e, bin)
          case UnderBin => None
          case Mount(m) => if |m| < |e| then Some(Spot(fs.tree, proc, dir, e, m)) else None
  }

  /** If a bin is taken, its name is absolute, or descriptor 0 is the working directory. */
  ghost predicate AnchoredBin(fs: Fs, proc: Process, env: Environment, pathname: string, e: Path)
    requires e in fs.tree
  {
    env.recycler.Some? ==>
      var v := ChoiceFor(fs, proc, env, pathname, e); v.Take? ==> Anchored(proc, v.dir)
  }

  lemma {:induction false} SpotRecycles(fs: Fs, proc: Process, env: Environment, pathname: string, e: Path, dir: string,
                                        bin: Path, m: Path)
    requires Valid(fs) && IsDir(fs.tree, proc.cwd) && e in fs.tree && !IsDir(fs.tree, e) && e != []
    requires Recycles(fs, proc, env, pathname, e, dir, bin, m)
    ensures |m| < |e| && SpotOf(fs, proc, env, pathname, e) == Some(Spot(fs.tree, proc, dir, e, m))
  {
    RecyclingName(fs, proc, env, pathname, e, dir, bin, m);
  }

  // ---------------------------------------------------------------- what every call keeps

  /** The file e has moved to p, and every other file is where it was. */
  ghost predicate MovedTo(t: Tree, t': Tree, e: Path, p: Path)
    requires e in t
  {
    p in t' && t'[p] == t[e] && FilesFrom(t, t', p, t[e])
  }

  lemma {:induction false} LandsKeeps(fs: Fs, umask: Mode, e: Path, at: Path, cs: seq<string>, o: Out)
    requires Valid(fs) && e in fs.tree && !IsDir(fs.tree, e) && e != [] && Clean(cs) && IsDir(fs.tree, at)
    requires Lands(fs, umask, e, at, cs, o)
    ensures Sound(fs, o.fs)
    ensures if e in o.fs.tree then NoNewFiles(fs.tree, o.fs.tree)
            else o.ret.Ok? && MovedTo(fs.tree, o.fs.tree, e, Goal(fs.tree, at, cs) + [Last(e)])
  {
    SoundSelf(fs);
    if WhyStopped(fs.tree, at, cs).None? {
      var q, mid := Goal(fs.tree, at, cs), Clone(fs, at, cs, Up(e), umask).fs;
      CloneSound(fs, mid, q, |Foot(fs.tree, at, cs)|, Up(e), umask);
      if !(e <= q) {
        GoalEntry(fs, mid, at, cs, e, umask);
        MovedSound(fs, mid, e, q + [Last(e)]);
        SoundTrans(fs, mid, o.fs);
      }
    }
  }

  lemma {:induction false} RealKeeps(fs: Fs, proc: Process, dirfd: int, pathname: string, removedir: bool, e: Path)
    requires Subject(fs, proc, dirfd, pathname, e) && e != []
    ensures var o := RealUnlinkat(fs, proc, dirfd, pathname, removedir);
            Sound(fs, o.fs) && NoNewFiles(fs.tree, o.fs.tree)
  {
    RealRemoval(fs, proc, dirfd, pathname, removedir, e);
    SoundSelf(fs);
    if RealUnlinkat(fs, proc, dirfd, pathname, removedir).ret.Ok? {
      FileNoMount(fs.tree, e);
      DropSound(fs, e);
    }
  }

  lemma {:induction false} FileNoMount(t: Tree, e: Path)
    requires Rooted(t) && e in t && e != []
    ensures !IsDir(t, e) ==> !IsMountPoint(t, e)
  {
    assert Up(e) == e[..|e| - 1];
  }

  lemma {:induction false} DirectoryKeeps(fs: Fs, proc: Process, e: Path, at: Path, cs: seq<string>, removedir: bool,
                                          o: Out)
    requires Valid(fs) && IsDir(fs.tree, at) && IsDir(fs.tree, e) && e != [] && Clean(cs)
    requires DirectoryLanded(fs, proc, e, at, cs, removedir, o)
    ensures Sound(fs, o.fs) && NoNewFiles(fs.tree, o.fs.tree)
  {
    SoundSelf(fs);
    if WhyStopped(fs.tree, at, cs).None? {
      var mid := Clone(fs, at, cs, e, proc.umask).fs;
      CloneSound(fs, mid, Goal(fs.tree, at, cs), |Foot(fs.tree, at, cs)|, e, proc.umask);
      if o.fs != mid {
        DropSound(mid, e);
        SoundTrans(fs, mid, o.fs);
      }
    }
  }

  /** A file has left its place without being removed for good. */
  ghost predicate LeftForBin(fs: Fs, proc: Process, env: Environment, pathname: string, e: Path, o: Out)
    requires Valid(fs) && e in fs.tree
  {
    !IsDir(fs.tree, e) && !ForGood(fs, proc, env, pathname, e) && e !in o.fs.tree
  }

  /** What any call keeps: the state stays sound, and a file that is new in its place is the subject, in its spot. */
  lemma {:induction false} CallKeeps(fs: Fs, proc: Process, env: Environment, dirfd: int, pathname: string, e: Path,
                                     removedir: bool)
    requires Subject(fs, proc, dirfd, pathname, e) && e != []
    requires IsDir(fs.tree, e) || AnchoredBin(fs, proc, env, pathname, e)
    ensures var o, spot := Unlinkat(fs, proc, env, dirfd, pathname, removedir), SpotOf(fs, proc, env, pathname, e);
            && Sound(fs, o.fs)
            && if LeftForBin(fs, proc, env, pathname, e, o)
               then spot.Some? && MovedTo(fs.tree, o.fs.tree, e, spot.value) else NoNewFiles(fs.tree, o.fs.tree)
  {
    ThreeWays(fs, proc, env, pathname, e);
    if ForGood(fs, proc, env, pathname, e) {
      DirectoryForGood(fs, proc, env, dirfd, pathname, e, removedir);
      RealKeeps(fs, proc, dirfd, pathname, removedir, e);
    } else if dir, bin, m :| Recycles(fs, proc, env, pathname, e, dir, bin, m) {
      var at, o := Base(dir, proc.cwd), Unlinkat(fs, proc, env, dirfd, pathname, removedir);
      if IsDir(fs.tree, e) {
        DirectoryLands(fs, proc, env, dirfd, pathname, e, removedir, dir, bin, m);
        DirectoryKeeps(fs, proc, e, at, Destination(dir, e, m), removedir, o);
      } else {
        SpotRecycles(fs, proc, env, pathname, e, dir, bin, m);
        FileLands(fs, proc, env, dirfd, pathname, e, removedir, dir, bin, m);
        LandsKeeps(fs, proc.umask, e, at, Up(Destination(dir, e, m)), o);
      }
    } else {
      CancelledUntouched(fs, proc, env, dirfd, pathname, e, removedir);
      SoundSelf(fs);
    }
  }

  // ---------------------------------------------------------------- no loss in one call

  /** Recycling e takes it away from its place: it moves, or it stands in the way of its own clone. */
  predicate LeavesPlace(t: Tree, at: Path, cs: seq<string>, e: Path)
    requires IsDir(t, at) && e in t && e != []
  {
    var q, foot := Goal(t, at, cs), Foot(t, at, cs);
    var p := q + [Last(e)];
    && WhyStopped(t, at, cs).None? && foot in t
    && (e <= q || (t[foot].dev == t[e].dev && !IsDir(t, p) && (p in t ==> t[p].ino != t[e].ino)))
  }

  /** The file a makes way when e is recycled, or is e itself and leaves its place. */
  ghost predicate LostToRecycling(fs: Fs, proc: Process, env: Environment, pathname: string, e: Path, a: Path)
    requires Valid(fs) && IsDir(fs.tree, proc.cwd) && e in fs.tree && e != [] && a in fs.tree
  {
    exists dir, bin, m :: Recycles(fs, proc, env, pathname, e, dir, bin, m) && |m| < |e| &&
      var at, cs := Base(dir, proc.cwd), Up(Destination(dir, e, m));
      if a == e then LeavesPlace(fs.tree, at, cs, e) else GivesWay(fs.tree, at, cs, e, a)
  }

  /**
   * No loss in one call on a file: a file is gone from its place, or changed, exactly when it is the subject and
   * removal for good is called for, or it is lost to the recycling of the subject. The subject is then in its spot,
   * unchanged, unless it stood in the way of its own clone.
   */
  lemma {:induction false} NoLossInOneCall(fs: Fs, proc: Process, env: Environment, dirfd: int, pathname: string,
                                           e: Path, removedir: bool, a: Path)
    requires Subject(fs, proc, dirfd, pathname, e) && !IsDir(fs.tree, e) && e != [] && MountedOnce(fs.tree)
    requires AnchoredBin(fs, proc, env, pathname, e) && TakesDirectory(fs, proc, env, pathname, e)
    requires a in fs.tree && !IsDir(fs.tree, a)
    ensures Lost(fs.tree, Unlinkat(fs, proc, env, dirfd, pathname, removedir).fs.tree, a) <==>
            || (a == e && CalledFor(fs, proc, env, pathname, e) && !removedir)
            || LostToRecycling(fs, proc, env, pathname, e, a)
    ensures var t', spot := Unlinkat(fs, proc, env, dirfd, pathname, removedir).fs.tree,
                            SpotOf(fs, proc, env, pathname, e);
            LostToRecycling(fs, proc, env, pathname, e, e) ==>
              spot.Some? && if e < spot.value then IsDir(t', e) else Arrived(fs.tree, t', e, spot.value)
  {
    ForGoodIff(fs, proc, env, pathname, e);
    ThreeWays(fs, proc, env, pathname, e);
    if ForGood(fs, proc, env, pathname, e) {
      ForGoodExact(fs, proc, env, dirfd, pathname, e, removedir);
    } else if dir, bin, m :| Recycles(fs, proc, env, pathname, e, dir, bin, m) {
      RecyclingLoses(fs, proc, env, dirfd, pathname, e, removedir, dir, bin, m, a);
    } else {
      CancelledUntouched(fs, proc, env, dirfd, pathname, e, removedir);
    }
  }

  lemma {:induction false} RecyclingLoses(fs: Fs, proc: Process, env: Environment, dirfd: int, pathname: string,
                                          e: Path, removedir: bool, dir: string, bin: Path, m: Path, a: Path)
    requires Subject(fs, proc, dirfd, pathname, e) && !IsDir(fs.tree, e) && e != [] && Anchored(proc, dir)
    requires Recycles(fs, proc, env, pathname, e, dir, bin, m) && a in fs.tree && !IsDir(fs.tree, a)
    ensures Lost(fs.tree, Unlinkat(fs, proc, env, dirfd, pathname, removedir).fs.tree, a) <==>
            LostToRecycling(fs, proc, env, pathname, e, a)
    ensures var t', spot := Unlinkat(fs, proc, env, dirfd, pathname, removedir).fs.tree,
                            SpotOf(fs, proc, env, pathname, e);
            LostToRecycling(fs, proc, env, pathname, e, e) ==>
              spot.Some? && if e < spot.value then IsDir(t', e) else Arrived(fs.tree, t', e, spot.value)
  {
    SpotRecycles(fs, proc, env, pathname, e, dir, bin, m);
    SubjectLands(fs, proc, env, dirfd, pathname, e, removedir, dir, bin, m);
    if a != e {
      OthersLostIff(fs, proc, env, dirfd, pathname, e, removedir, dir, bin, m, a);
    }
    var at, cs := Base(dir, proc.cwd), Up(Destination(dir, e, m));
    OnOwnWay(e, Goal(fs.tree, at, cs));
  }

  lemma {:induction false} OnOwnWay(e: Path, q: Path)
    requires e != []
    ensures e <= q <==> e < q + [Last(e)]
  {
    if e < q + [Last(e)] {
      assert |e| <= |q| && (q + [Last(e)])[..|q|] == q;
    }
  }

  /** No loss in one call on a directory: a file is lost exactly when it stands in the way of the directory's clone. */
  lemma {:induction false} NoLossForDirectory(fs: Fs, proc: Process, env: Environment, dirfd: int, pathname: string,
                                              e: Path, removedir: bool, a: Path)
    requires Subject(fs, proc, dirfd, pathname, e) && IsDir(fs.tree, e) && e != []
    requires a in fs.tree && !IsDir(fs.tree, a)
    ensures Lost(fs.tree, Unlinkat(fs, proc, env, dirfd, pathname, removedir).fs.tree, a) <==>
            exists dir, bin, m :: Recycles(fs, proc, env, pathname, e, dir, bin, m) && |m| <= |e| &&
              StandsInWay(fs.tree, Base(dir, proc.cwd), Destination(dir, e, m), a)
  {
    ThreeWays(fs, proc, env, pathname, e);
    if dir, bin, m :| Recycles(fs, proc, env, pathname, e, dir, bin, m) {
      DirectoryLosesIff(fs, proc, env, dirfd, pathname, e, removedir, dir, bin, m, a);
    } else if ForGood(fs, proc, env, pathname, e) {
      DirectoryForGood(fs, proc, env, dirfd, pathname, e, removedir);
      RealRemoval(fs, proc, dirfd, pathname, removedir, e);
    } else {
      CancelledUntouched(fs, proc, env, dirfd, pathname, e, removedir);
    }
  }

  // ---------------------------------------------------------------- deleting what was deleted

  /** A move puts no file in the place of a directory. */
  lemma {:induction false} MoveKeepsDirectory(mid: Fs, t: Tree, e: Path, p: Path, d: Path)
    requires e in t && Up(p) in mid.tree && IsDir(t, d) && IsDir(mid.tree, d) && !IsDir(t, e)
    ensures d in Moved(mid, t, e, p).fs.tree && Moved(mid, t, e, p).fs.tree[d] == mid.tree[d]
  {
  }

  /** Recycling leaves directories where they are. */
  lemma {:induction false} DirectoriesStay(fs: Fs, umask: Mode, e: Path, at: Path, cs: seq<string>, o: Out, d: Path)
    requires Valid(fs) && e in fs.tree && !IsDir(fs.tree, e) && e != [] && Clean(cs) && IsDir(fs.tree, at)
    requires Lands(fs, umask, e, at, cs, o) && IsDir(fs.tree, d)
    ensures IsDir(o.fs.tree, d) && o.fs.tree[d].dev == fs.tree[d].dev
  {
    if WhyStopped(fs.tree, at, cs).None? {
      var q, mid := Goal(fs.tree, at, cs), Clone(fs, at, cs, Up(e), umask).fs;
      assert IsDir(mid.tree, d) && mid.tree[d].dev == fs.tree[d].dev by {
        DirDeviceKept(fs, mid, q, |Foot(fs.tree, at, cs)|, Up(e), umask, d);
      }
      if !(e <= q) {
        assert Up(q + [Last(e)]) == q;
        MoveKeepsDirectory(mid, fs.tree, e, q + [Last(e)], d);
      }
    }
  }

  /** Deleting is real in the end: a recycled file that is deleted in the bin is gone, or the call is cancelled. */
  lemma {:induction false} DeletedTwice(fs: Fs, proc: Process, env: Environment, dirfd: int, pathname: string,
                                        e: Path, removedir: bool, dir: string, bin: Path, m: Path, proc2: Process,
                                        env2: Environment, dirfd2: int, pathname2: string)
    requires Subject(fs, proc, dirfd, pathname, e) && !IsDir(fs.tree, e) && e != [] && MountedOnce(fs.tree)
    requires Recycles(fs, proc, env, pathname, e, dir, bin, m) && Anchored(proc, dir) && IsDir(fs.tree, bin)
    ensures |m| < |e|
    ensures var o, p := Unlinkat(fs, proc, env, dirfd, pathname, removedir), Spot(fs.tree, proc, dir, e, m);
            && e !in o.fs.tree && Above(bin, p)
            && Subject(o.fs, proc2, dirfd2, pathname2, p)
            && OnlyBin(o.fs.tree, proc2.cwd, env2, fs.tree[e].dev, bin)
            ==>
            var o2 := Unlinkat(o.fs, proc2, env2, dirfd2, pathname2, false);
            o2 == Out(o.fs.(tree := Drop(o.fs.tree, p)), Ok) || o2 == Out(o.fs, Err(ECANCELED))
  {
    SpotRecycles(fs, proc, env, pathname, e, dir, bin, m);
    var o := Unlinkat(fs, proc, env, dirfd, pathname, removedir);
    var p, dev := Spot(fs.tree, proc, dir, e, m), fs.tree[e].dev;
    if e !in o.fs.tree && Above(bin, p) && Subject(o.fs, proc2, dirfd2, pathname2, p) &&
       OnlyBin(o.fs.tree, proc2.cwd, env2, dev, bin) {
      TakenBin(fs, proc, env, pathname, e);
      NotBelowBin(fs, e, bin, m);
      FileLands(fs, proc, env, dirfd, pathname, e, removedir, dir, bin, m);
      MovedIntoBin(fs, proc.umask, e, Base(dir, proc.cwd), Up(Destination(dir, e, m)), o, bin, m);
      InBinForGood(o.fs, proc2, env2, dirfd2, pathname2, p, false, bin, m);
    }
  }

  lemma {:induction false} MovedIntoBin(fs: Fs, umask: Mode, e: Path, at: Path, cs: seq<string>, o: Out, bin: Path,
                                        m: Path)
    requires Valid(fs) && e in fs.tree && !IsDir(fs.tree, e) && e != [] && Clean(cs) && IsDir(fs.tree, at)
    requires Lands(fs, umask, e, at, cs, o) && IsDir(fs.tree, bin) && MountedOnce(fs.tree) && e !in o.fs.tree
    requires MountOf(fs.tree, m, fs.tree[e].dev)
    ensures var p := Goal(fs.tree, at, cs) + [Last(e)];
            && p in o.fs.tree && o.fs.tree[p] == fs.tree[e] && MountedOnce(o.fs.tree)
            && MountOf(o.fs.tree, m, fs.tree[e].dev)
            && IsDir(o.fs.tree, bin) && o.fs.tree[bin].dev == fs.tree[bin].dev
  {
    LandsKeeps(fs, umask, e, at, cs, o);
    DirectoriesStay(fs, umask, e, at, cs, o, bin);
    MountedOnceKept(fs.tree, o.fs.tree);
    assert MountOf(o.fs.tree, m, fs.tree[e].dev);
  }
}
