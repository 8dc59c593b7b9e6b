/** Directories, and files that are in the bin already. */
module Deletion {
  import opened Text
  import opened PathText
  import opened FileTree
  import opened ClonePath
  import opened MountPoint
  import opened Kernel
  import opened BinConfig
  import opened Recyclix
  import opened NoLoss
  import opened Mounts

  // ---------------------------------------------------------------- directories

  /**
   * Removing a directory that is not in the bin: its whole chain is cloned into the bin, unless a file
   * blocks the way; then it is removed as the C library does it.
   */
  lemma {:induction false} DirectoryExact(fs: Fs, proc: Process, env: Environment, dirfd: int, pathname: string,
                                          e: Path, removedir: bool, dir: string, bin: Path, m: Path)
    requires Subject(fs, proc, dirfd, pathname, e) && IsDir(fs.tree, e) && e != []
    requires Usable(fs, proc, env, pathname, e) && Recycles(fs, proc, env, pathname, e, dir, bin, m)
    ensures |m| <= |e| && m == e[..|m|] && Names(Place(bin, e, m)) && IsDir(fs.tree, bin)
    ensures var p, i := Place(bin, e, m), |bin|;
            var o := Unlinkat(fs, proc, env, dirfd, pathname, removedir);
            if Blocked(fs.tree, p, i, |p| - 1) then o == Out(fs, Err(ENOTDIR))
            else
              var mid := CloneBelow(fs, proc, dir, p, bin, e).fs;
              && Valid(mid) && Cloned(fs, mid, p, i, e, proc.umask) && IsDir(mid.tree, e)
              && o == if !removedir then Out(mid, Err(EISDIR))
                      else if IsMountPoint(mid.tree, e) then Out(mid, Err(EBUSY))
                      else if HasChildren(mid.tree, e) then Out(mid, Err(ENOTEMPTY))
                      else Out(mid.(tree := Drop(mid.tree, e)), Ok)
  {
    TakenBin(fs, proc, env, pathname, e);
    ClimbExact(fs.tree, e, fs.tree[e].dev, fs.tree[bin].ino);
    PlaceNames(bin, e, m);
    var p, i := Place(bin, e, m), |bin|;
    assert p[..i] == bin && p[i..] == e[|m|..];
    assert Destination(dir, e, m) == Components(dir) + p[i..];
    CloneBelowExact(fs, proc, dir, p, bin, e);
    if !Blocked(fs.tree, p, i, |p| - 1) {
      var mid := CloneBelow(fs, proc, dir, p, bin, e).fs;
      RoutesAreWays(fs.tree, mid.tree);
      EntryAgain(fs.tree, mid.tree, proc, dirfd, pathname);
      DirDeviceKept(fs, mid, p, i, e, proc.umask, e);
      RealRemoval(mid, proc, dirfd, pathname, removedir, e);
    }
  }

  lemma {:induction false} DirectoryForGood(fs: Fs, proc: Process, env: Environment, dirfd: int, pathname: string,
                                            e: Path, removedir: bool)
    requires Subject(fs, proc, dirfd, pathname, e) && ForGood(fs, proc, env, pathname, e)
    ensures Unlinkat(fs, proc, env, dirfd, pathname, removedir) == RealUnlinkat(fs, proc, dirfd, pathname, removedir)
  {
    if env.recycler.Some? {
      TakenBin(fs, proc, env, pathname, e);
    }
  }

  // ---------------------------------------------------------------- files in the bin

  /** b is the one bin that the configuration has for device dev. */
  ghost predicate OnlyBin(t: Tree, cwd: Path, env: Environment, dev: nat, b: Path) {
    env.recycler.Some? ==>
      forall k :: 0 <= k < |Split(env.recycler.value, ':')| ==>
        ItemBin(t, cwd, env, Split(env.recycler.value, ':')[k], dev, b)
  }

  /** An item that leads to a directory of device dev leads to b. */
  ghost predicate ItemBin(t: Tree, cwd: Path, env: Environment, item: string, dev: nat, b: Path) {
    var s := StatText(t, cwd, BinDir(Expand(item, env.home)));
    s.Found? && s.at in t && t[s.at].dev == dev ==> s.at == b
  }

  lemma {:induction false} OnlyBinIsChosen(t: Tree, cwd: Path, env: Environment, items: seq<string>, pathname: string,
                                           node: Node, b: Path)
    requires forall k :: 0 <= k < |items| ==> ItemBin(t, cwd, env, items[k], node.dev, b)
    ensures var v := Choose(t, cwd, env, items, pathname, node); v.Take? ==> v.bin == b
    decreases |items|
  {
    if items != [] {
      assert ItemBin(t, cwd, env, items[0], node.dev, b);
      OnlyBinIsChosen(t, cwd, env, items[1..], pathname, node, b);
    }
  }

  /** With one bin for a device, a file in it is never moved: it is removed for good, or the call is cancelled. */
  lemma {:induction false} InBinForGood(fs: Fs, proc: Process, env: Environment, dirfd: int, pathname: string,
                                        e: Path, removedir: bool, b: Path, m: Path)
    requires Subject(fs, proc, dirfd, pathname, e) && !IsDir(fs.tree, e) && MountedOnce(fs.tree)
    requires IsDir(fs.tree, b) && Above(b, e) && fs.tree[b].dev == fs.tree[e].dev && MountOf(fs.tree, m, fs.tree[e].dev)
    requires OnlyBin(fs.tree, proc.cwd, env, fs.tree[e].dev, b)
    ensures var o := Unlinkat(fs, proc, env, dirfd, pathname, removedir);
            || o == (if removedir then Out(fs, Err(ENOTDIR)) else Out(fs.(tree := Drop(fs.tree, e)), Ok))
            || (env.recycler.Some? && ChoiceFor(fs, proc, env, pathname, e) == Bad && o == Out(fs, Err(ECANCELED)))
  {
    if env.recycler.Some? {
      TakenBin(fs, proc, env, pathname, e);
      OnlyBinIsChosen(fs.tree, proc.cwd, env, Split(env.recycler.value, ':'), pathname, fs.tree[e], b);
      UnderBinExact(fs, m, b, e);
    }
    if ForGood(fs, proc, env, pathname, e) {
      ForGoodExact(fs, proc, env, dirfd, pathname, e, removedir);
    } else {
      CancelledUntouched(fs, proc, env, dirfd, pathname, e, removedir);
    }
  }
}
