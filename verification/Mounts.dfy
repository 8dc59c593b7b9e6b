/** Mount points and devices across a call, and when exactly a file reaches the bin. */
module Mounts {
  import opened PathText
  import opened FileTree
  import opened ClonePath
  import opened MountPoint
  import opened Kernel
  import opened Recyclix
  import opened NoLoss

  /** No mount point is new, and none has changed its device. */
  ghost predicate NoNewMounts(t: Tree, t': Tree) {
    forall p {:trigger IsMountPoint(t', p)} ::
      p in t' && IsMountPoint(t', p) ==> p in t && IsMountPoint(t, p) && t'[p].dev == t[p].dev
  }

  lemma {:induction false} MountedOnceKept(t: Tree, t': Tree)
    requires MountedOnce(t) && NoNewMounts(t, t')
    ensures MountedOnce(t')
  {
  }

  /** A directory that a clone made is on its parent's device; one that was there is where it was. */
  lemma {:induction false} CloneMakesNoMounts(fs: Fs, fs': Fs, q: Path, i: nat, d: Path, umask: Mode)
    requires Valid(fs) && Valid(fs') && i <= |q| && Cloned(fs, fs', q, i, d, umask)
    ensures NoNewMounts(fs.tree, fs'.tree)
  {
    var t, t' := fs.tree, fs'.tree;
    forall p | p in t' && IsMountPoint(t', p)
      ensures p in t && IsMountPoint(t, p) && t'[p].dev == t[p].dev
    {
      MountWasThere(fs, fs', q, i, d, umask, p);
    }
  }

  lemma {:induction false} DirDeviceKept(fs: Fs, fs': Fs, q: Path, i: nat, d: Path, umask: Mode, p: Path)
    requires i <= |q| && Cloned(fs, fs', q, i, d, umask) && IsDir(fs.tree, p)
    ensures IsDir(fs'.tree, p) && fs'.tree[p].dev == fs.tree[p].dev
  {
    if OnChain(p, q, i) {
      assert p == q[..|p|];
      assert LinkCloned(fs, fs', q, |p|, d, umask);
    }
  }

  lemma {:induction false} MountWasThere(fs: Fs, fs': Fs, q: Path, i: nat, d: Path, umask: Mode, p: Path)
    requires Valid(fs) && Valid(fs') && i <= |q| && Cloned(fs, fs', q, i, d, umask)
    requires p in fs'.tree && IsMountPoint(fs'.tree, p)
    ensures p in fs.tree && IsMountPoint(fs.tree, p) && fs'.tree[p].dev == fs.tree[p].dev
  {
    var t, t' := fs.tree, fs'.tree;
    if p == [] {
      DirDeviceKept(fs, fs', q, i, d, umask, p);
    } else {
      assert IsDir(t', p);
      assert Up(p) == p[..|p| - 1];
      if OnChain(p, q, i) {
        assert p == q[..|p|];
        assert LinkCloned(fs, fs', q, |p|, d, umask);
      }
      assert p in t && IsDir(t, p);
      DirDeviceKept(fs, fs', q, i, d, umask, p);
      DirDeviceKept(fs, fs', q, i, d, umask, Up(p));
    }
  }

  /** The existing directories on the way to p in the bin are on device dev. */
  ghost predicate WayOnDevice(t: Tree, p: Path, i: nat, dev: nat) {
    forall k {:trigger p[..k]} :: i <= k < |p| && IsDir(t, p[..k]) ==> t[p[..k]].dev == dev
  }

  lemma {:induction false} MadeOnDevice(fs: Fs, fs': Fs, q: Path, i: nat, k: nat, d: Path, umask: Mode, dev: nat)
    requires i <= k <= |q| && Cloned(fs, fs', q, i, d, umask) && IsDir(fs.tree, q[..i])
    requires forall j {:trigger q[..j]} :: i <= j <= k && IsDir(fs.tree, q[..j]) ==> fs.tree[q[..j]].dev == dev
    ensures IsDir(fs'.tree, q[..k]) && fs'.tree[q[..k]].dev == dev
    decreases k
  {
    assert LinkCloned(fs, fs', q, k, d, umask);
    if IsDir(fs.tree, q[..k]) {
      DirDeviceKept(fs, fs', q, i, d, umask, q[..k]);
    } else {
      MadeOnDevice(fs, fs', q, i, k - 1, d, umask, dev);
      assert Up(q[..k]) == q[..k - 1];
    }
  }

  /** The parent of the place is on the bin's device exactly when everything that was on the way is. */
  lemma {:induction false} PlaceDevice(fs: Fs, mid: Fs, p: Path, i: nat, d: Path, umask: Mode, m: Path, dev: nat)
    requires Valid(fs) && Valid(mid) && MountedOnce(fs.tree) && i < |p|
    requires IsDir(fs.tree, p[..i]) && fs.tree[p[..i]].dev == dev
    requires MountOf(fs.tree, m, dev) && IsDir(fs.tree, m)
    requires Cloned(fs, mid, Up(p), i, d, umask) && IsDir(mid.tree, Up(p))
    ensures mid.tree[Up(p)].dev == dev <==> WayOnDevice(fs.tree, p, i, dev)
  {
    var q := Up(p);
    assert q[..|q|] == q && q[..i] == p[..i];
    CloneMakesNoMounts(fs, mid, q, i, d, umask);
    MountedOnceKept(fs.tree, mid.tree);
    if WayOnDevice(fs.tree, p, i, dev) {
      assert forall j :: 0 <= j <= |q| ==> q[..j] == p[..j];
      MadeOnDevice(fs, mid, q, i, |q|, d, umask, dev);
    }
    if mid.tree[q].dev == dev {
      MountKept(fs, mid, q, i, d, umask, m, dev);
      Contiguous(mid.tree, m, q, dev);
      DirDeviceKept(fs, mid, q, i, d, umask, p[..i]);
      Contiguous(mid.tree, m, q[..i], dev);
      forall k {:trigger p[..k]} | i <= k < |p| && IsDir(fs.tree, p[..k])
        ensures fs.tree[p[..k]].dev == dev
      {
        assert p[..k] == q[..k];
        DirDeviceKept(fs, mid, q, i, d, umask, p[..k]);
        assert k == |q| ==> q[..k] == q;
      }
    }
  }

  lemma {:induction false} MountKept(fs: Fs, fs': Fs, q: Path, i: nat, d: Path, umask: Mode, m: Path, dev: nat)
    requires Valid(fs) && i <= |q| && Cloned(fs, fs', q, i, d, umask)
    requires MountOf(fs.tree, m, dev) && IsDir(fs.tree, m)
    ensures MountOf(fs'.tree, m, dev)
  {
    DirDeviceKept(fs, fs', q, i, d, umask, m);
    if m != [] {
      assert Up(m) == m[..|m| - 1];
      DirDeviceKept(fs, fs', q, i, d, umask, Up(m));
    }
  }

  /**
   * Recycling a file succeeds exactly when no file blocks the way in the bin, the way does not leave the
   * bin's device, and no directory has taken the place.
   */
  lemma {:induction false} RecycleSucceedsIff(fs: Fs, proc: Process, env: Environment, dirfd: int, pathname: string,
                                              e: Path, removedir: bool, dir: string, bin: Path, m: Path)
    requires Subject(fs, proc, dirfd, pathname, e) && !IsDir(fs.tree, e) && MountedOnce(fs.tree)
    requires Usable(fs, proc, env, pathname, e) && Recycles(fs, proc, env, pathname, e, dir, bin, m)
    ensures |m| < |e|
    ensures var p, i := Place(bin, e, m), |bin|;
            Unlinkat(fs, proc, env, dirfd, pathname, removedir).ret.Ok? <==>
              && !Blocked(fs.tree, Up(p), i, |Up(p)| - 1)
              && WayOnDevice(fs.tree, p, i, fs.tree[e].dev)
              && !IsDir(fs.tree, p)
  {
    RecycledExact(fs, proc, env, dirfd, pathname, e, removedir, dir, bin, m);
    var p, i := Place(bin, e, m), |bin|;
    PlaceParts(bin, e, m);
    var o := Unlinkat(fs, proc, env, dirfd, pathname, removedir);
    assert m == e[..|m|];
    OutcomeSucceedsIff(fs, proc, e, dir, bin, m, o);
  }

  lemma {:induction false} OutcomeSucceedsIff(fs: Fs, proc: Process, e: Path, dir: string, bin: Path, m: Path, o: Out)
    requires Valid(fs) && MountedOnce(fs.tree) && e in fs.tree && |m| < |e| && m == e[..|m|] && Names(Place(bin, e, m))
    requires IsDir(fs.tree, bin) && fs.tree[bin].dev == fs.tree[e].dev && MountOf(fs.tree, m, fs.tree[e].dev)
    requires RecycledOutcome(fs, proc, e, dir, bin, m, o)
    ensures var p, i := Place(bin, e, m), |bin|;
            o.ret.Ok? <==>
              && !Blocked(fs.tree, Up(p), i, |Up(p)| - 1)
              && WayOnDevice(fs.tree, p, i, fs.tree[e].dev)
              && !IsDir(fs.tree, p)
  {
    var p, i := Place(bin, e, m), |bin|;
    PlaceParts(bin, e, m);
    if !Blocked(fs.tree, Up(p), i, |Up(p)| - 1) {
      PlaceDevice(fs, MidState(fs, proc, dir, bin, e, m), p, i, Up(e), proc.umask, m, fs.tree[e].dev);
    }
  }
}
