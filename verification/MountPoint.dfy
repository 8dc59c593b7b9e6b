/** The walk from a file up to the root of its file system, looking for the recycle bin on the way. */
module MountPoint {
  import opened PathText
  import opened FileTree

  datatype Climb = UnderBin | Mount(at: Path)

  /** Compares inode numbers first and devices after that, as the loop does. */
  function ClimbFrom(t: Tree, p: Path, dev: nat, binIno: nat): Climb
    requires Rooted(t) && p in t
    decreases |p|
  {
    var up := p[..if p == [] then 0 else |p| - 1];
    if t[up].ino == binIno then UnderBin
    else if p == [] then Mount([])
    else if t[up].dev != dev then Mount(p)
    else ClimbFrom(t, up, dev, binIno)
  }

  /** The ancestors of e from depth k on are on device dev. */
  ghost predicate OneDevice(t: Tree, e: Path, k: nat, dev: nat)
    requires Rooted(t) && e in t
  {
    forall j {:trigger e[..j]} :: k <= j < |e| ==> t[e[..j]].dev == dev
  }

  /** An ancestor at depth j carries the bin's inode number, and the walk gets as far as it. */
  ghost predicate HitAt(t: Tree, e: Path, j: nat, dev: nat, binIno: nat)
    requires Rooted(t) && e in t
  {
    j < |e| && t[e[..j]].ino == binIno && OneDevice(t, e, j + 1, dev)
  }

  /** Depth k is where the walk stops: the highest ancestor-or-self joined to e on one device. */
  ghost predicate TopAt(t: Tree, e: Path, k: nat, dev: nat)
    requires Rooted(t) && e in t
  {
    k <= |e| && OneDevice(t, e, k, dev) && (k > 0 ==> t[e[..k - 1]].dev != dev)
  }

  lemma {:induction false} PrefixOfPrefix(e: Path, n: nat, j: nat)
    requires j <= n <= |e|
    ensures e[..n][..j] == e[..j]
  {
  }

  /** The walk from the ancestor at depth n, everything passed so far being on the device and not the bin. */
  lemma {:induction false} ClimbFromDepth(t: Tree, e: Path, n: nat, dev: nat, binIno: nat)
    requires Rooted(t) && e in t && n <= |e| && OneDevice(t, e, n, dev)
    requires forall j {:trigger e[..j]} :: n <= j < |e| ==> t[e[..j]].ino != binIno
    requires n == 0 ==> t[[]].ino != binIno
    requires e[..n] in t
    ensures var c := ClimbFrom(t, e[..n], dev, binIno);
            match c
            case UnderBin => exists j :: HitAt(t, e, j, dev, binIno)
            case Mount(m) => |m| <= |e| && m == e[..|m|] && TopAt(t, e, |m|, dev) &&
                             forall j :: !HitAt(t, e, j, dev, binIno)
    decreases n
  {
    var p := e[..n];
    if n == 0 {
      assert p == [];
      assert forall j :: 0 <= j < |e| ==> t[e[..j]].ino != binIno;
    } else {
      PrefixOfPrefix(e, n, n - 1);
      var up := e[..n - 1];
      if t[up].ino == binIno {
        assert HitAt(t, e, n - 1, dev, binIno);
      } else if t[up].dev != dev {
        forall j: nat
          ensures !HitAt(t, e, j, dev, binIno)
        {
          assert j < n - 1 ==> !OneDevice(t, e, j + 1, dev);
        }
      } else {
        assert n - 1 == 0 ==> up == [];
        ClimbFromDepth(t, e, n - 1, dev, binIno);
      }
    }
  }

  /**
   * The walk ends at the top of e's file system, or finds the bin; it finds it exactly when some ancestor
   * no further up than the parent of that top has the bin's inode number.
   */
  lemma {:induction false} ClimbExact(t: Tree, e: Path, dev: nat, binIno: nat)
    requires Rooted(t) && e in t && e != []
    ensures var c := ClimbFrom(t, e, dev, binIno);
            match c
            case UnderBin => exists j :: HitAt(t, e, j, dev, binIno)
            case Mount(m) => |m| <= |e| && m == e[..|m|] && TopAt(t, e, |m|, dev) &&
                             forall j :: !HitAt(t, e, j, dev, binIno)
  {
    assert e[..|e|] == e;
    ClimbFromDepth(t, e, |e|, dev, binIno);
  }

  lemma {:induction false} TopUnique(t: Tree, e: Path, k: nat, l: nat, dev: nat)
    requires Rooted(t) && e in t && TopAt(t, e, k, dev) && TopAt(t, e, l, dev)
    ensures k == l
  {
  }

  // ---------------------------------------------------------------- one mount per device

  /** No device is mounted at two places. */
  ghost predicate MountedOnce(t: Tree) {
    forall p, q {:trigger IsMountPoint(t, p), IsMountPoint(t, q)} ::
      p in t && q in t && IsMountPoint(t, p) && IsMountPoint(t, q) && t[p].dev == t[q].dev ==> p == q
  }

  /** m is the mount point of device dev. */
  predicate MountOf(t: Tree, m: Path, dev: nat) {
    m in t && IsMountPoint(t, m) && t[m].dev == dev
  }

  /** The top found for a node of the device is the device's mount point. */
  lemma {:induction false} TopIsMount(t: Tree, e: Path, k: nat, dev: nat)
    requires Rooted(t) && e in t && t[e].dev == dev && TopAt(t, e, k, dev)
    ensures MountOf(t, e[..k], dev)
  {
    assert e[..|e|] == e;
    assert k > 0 ==> Up(e[..k]) == e[..k - 1];
  }

  /** Between the mount point and a node of its device there is no other device. */
  lemma {:induction false} ContiguousFrom(t: Tree, m: Path, e: Path, dev: nat, n: nat)
    requires Rooted(t) && MountedOnce(t) && MountOf(t, m, dev) && e in t && n <= |e|
    requires e[..n] in t && t[e[..n]].dev == dev
    ensures |m| <= n && m == e[..|m|]
    ensures forall j :: |m| <= j <= n ==> t[e[..j]].dev == dev
    decreases n
  {
    var p := e[..n];
    if IsMountPoint(t, p) {
      assert p == m;
    } else {
      assert p != [] && Up(p) == e[..n - 1];
      ContiguousFrom(t, m, e, dev, n - 1);
    }
  }

  lemma {:induction false} Contiguous(t: Tree, m: Path, e: Path, dev: nat)
    requires Rooted(t) && MountedOnce(t) && MountOf(t, m, dev) && e in t && t[e].dev == dev
    ensures |m| <= |e| && m == e[..|m|] && TopAt(t, e, |m|, dev)
  {
    assert e[..|e|] == e;
    ContiguousFrom(t, m, e, dev, |e|);
    assert |m| > 0 ==> Up(m) == e[..|m| - 1];
  }

  /** Every file of a device gets the same answer: the mount point of the device. */
  lemma {:induction false} ClimbFindsMount(t: Tree, m: Path, e: Path, dev: nat, binIno: nat)
    requires Rooted(t) && MountedOnce(t) && MountOf(t, m, dev) && e in t && t[e].dev == dev && e != []
    ensures ClimbFrom(t, e, dev, binIno) == UnderBin || ClimbFrom(t, e, dev, binIno) == Mount(m)
  {
    ClimbExact(t, e, dev, binIno);
    Contiguous(t, m, e, dev);
    var c := ClimbFrom(t, e, dev, binIno);
    if c.Mount? {
      TopUnique(t, e, |m|, |c.at|, dev);
    }
  }

  predicate Above(b: Path, e: Path) {
    |b| < |e| && e[..|b|] == b
  }

  /**
   * A file is taken for one in the bin exactly when the bin is above it, or the directory that the
   * file system is mounted in happens to have the bin's inode number.
   */
  lemma {:induction false} UnderBinExact(fs: Fs, m: Path, b: Path, e: Path)
    requires Valid(fs) && MountedOnce(fs.tree) && e in fs.tree && e != [] && IsDir(fs.tree, b)
    requires fs.tree[b].dev == fs.tree[e].dev && MountOf(fs.tree, m, fs.tree[e].dev)
    ensures ClimbFrom(fs.tree, e, fs.tree[e].dev, fs.tree[b].ino) == UnderBin <==>
            Above(b, e) || (m != [] && Above(m[..|m| - 1], e) && fs.tree[m[..|m| - 1]].ino == fs.tree[b].ino)
  {
    var t, dev, ino := fs.tree, fs.tree[e].dev, fs.tree[b].ino;
    ClimbExact(t, e, dev, ino);
    Contiguous(t, m, e, dev);
    Contiguous(t, m, b, dev);
    if Above(b, e) {
      assert HitAt(t, e, |b|, dev, ino);
    }
    if m != [] && t[m[..|m| - 1]].ino == ino {
      assert e[..|m| - 1] == m[..|m| - 1];
      assert HitAt(t, e, |m| - 1, dev, ino);
    }
    if j :| HitAt(t, e, j, dev, ino) {
      HitIsBinOrMountParent(fs, m, b, e, j);
    }
  }

  lemma {:induction false} HitIsBinOrMountParent(fs: Fs, m: Path, b: Path, e: Path, j: nat)
    requires Valid(fs) && e in fs.tree && IsDir(fs.tree, b) && fs.tree[b].dev == fs.tree[e].dev
    requires |m| <= |e| && m == e[..|m|] && TopAt(fs.tree, e, |m|, fs.tree[e].dev)
    requires HitAt(fs.tree, e, j, fs.tree[e].dev, fs.tree[b].ino)
    ensures e[..j] == b || (m != [] && j == |m| - 1 && e[..j] == m[..|m| - 1])
  {
    var t, dev := fs.tree, fs.tree[e].dev;
    if j >= |m| {
      assert t[e[..j]].dev == dev;
      assert SameInode(t[e[..j]], t[b]);
    } else {
      assert e[..|m| - 1] == m[..|m| - 1];
    }
  }
}
