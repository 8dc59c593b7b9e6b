/** What moves and removals keep: a valid tree, its mount points, and the files in their places. */
module Soundness {
  import opened PathText
  import opened FileTree
  import opened ClonePath
  import opened MountPoint
  import opened NoLoss
  import opened Mounts

  /** Every file of t' is a file of t in its place, but for the one at p, which is the node x. */
  ghost predicate FilesFrom(t: Tree, t': Tree, p: Path, x: Node) {
    forall q {:trigger t'[q]} :: q in t' && !IsDir(t', q) ==> (q in t && t'[q] == t[q]) || (q == p && t'[q] == x)
  }

  ghost predicate NoNewFiles(t: Tree, t': Tree) {
    forall q {:trigger t'[q]} :: q in t' && !IsDir(t', q) ==> q in t && t'[q] == t[q]
  }

  ghost predicate MountsStay(t: Tree, t': Tree) {
    forall m, dev {:trigger MountOf(t', m, dev)} :: MountOf(t, m, dev) ==> MountOf(t', m, dev)
  }

  /** The state after a call is sound, and no mount point has come, gone or changed. */
  ghost predicate Sound(fs: Fs, fs': Fs) {
    Valid(fs') && NoNewMounts(fs.tree, fs'.tree) && MountsStay(fs.tree, fs'.tree)
  }

  lemma {:induction false} MountIsDir(t: Tree, m: Path, dev: nat)
    requires Rooted(t) && MountOf(t, m, dev)
    ensures IsDir(t, m)
  {
  }

  lemma {:induction false} CloneSound(fs: Fs, fs': Fs, q: Path, i: nat, d: Path, umask: Mode)
    requires Valid(fs) && Valid(fs') && i <= |q| && Cloned(fs, fs', q, i, d, umask)
    ensures Sound(fs, fs') && NoNewFiles(fs.tree, fs'.tree)
  {
    CloneMakesNoMounts(fs, fs', q, i, d, umask);
    forall m, dev | MountOf(fs.tree, m, dev)
      ensures MountOf(fs'.tree, m, dev)
    {
      MountIsDir(fs.tree, m, dev);
      MountKept(fs, fs', q, i, d, umask, m, dev);
    }
    forall p {:trigger fs'.tree[p]} | p in fs'.tree && !IsDir(fs'.tree, p)
      ensures p in fs.tree && fs'.tree[p] == fs.tree[p]
    {
      if OnChain(p, q, i) {
        ChainIsDir(fs, fs', q, i, d, umask, p);
      }
    }
  }

  lemma {:induction false} DropSound(fs: Fs, e: Path)
    requires Valid(fs) && e in fs.tree && e != [] && !IsMountPoint(fs.tree, e)
    requires IsDir(fs.tree, e) ==> !HasChildren(fs.tree, e)
    ensures var fs' := fs.(tree := Drop(fs.tree, e)); Sound(fs, fs') && NoNewFiles(fs.tree, fs'.tree)
  {
    var t, t' := fs.tree, Drop(fs.tree, e);
    DropKeepsRooted(t, e);
    forall m, dev | MountOf(t, m, dev)
      ensures MountOf(t', m, dev)
    {
      if m != [] {
        MountIsDir(t, m, dev);
        assert Up(m) == m[..|m| - 1];
        if Up(m) == e {
          InnerHasChildren(t, e, m);
        }
      }
    }
    forall p {:trigger IsMountPoint(t', p)} | p in t' && IsMountPoint(t', p)
      ensures IsMountPoint(t, p)
    {
    }
  }

  lemma {:induction false} SoundTrans(fs: Fs, fs1: Fs, fs2: Fs)
    requires Sound(fs, fs1) && Sound(fs1, fs2)
    ensures Sound(fs, fs2)
  {
    forall m, dev {:trigger MountOf(fs2.tree, m, dev)} | MountOf(fs.tree, m, dev)
      ensures MountOf(fs2.tree, m, dev)
    {
      assert MountOf(fs1.tree, m, dev);
    }
    forall p {:trigger IsMountPoint(fs2.tree, p)} | p in fs2.tree && IsMountPoint(fs2.tree, p)
      ensures p in fs.tree && IsMountPoint(fs.tree, p) && fs2.tree[p].dev == fs.tree[p].dev
    {
      assert IsMountPoint(fs1.tree, p);
    }
  }

  /** Putting a node that is no directory in a place below a directory of its device. */
  lemma {:induction false} PutSound(fs: Fs, p: Path, x: Node)
    requires Valid(fs) && p != [] && Names(p) && IsDir(fs.tree, Up(p)) && !IsDir(fs.tree, p)
    requires !x.kind.Directory? && x.dev == fs.tree[Up(p)].dev && x.ino < fs.next
    ensures var fs' := fs.(tree := fs.tree[p := x]); Sound(fs, fs') && FilesFrom(fs.tree, fs'.tree, p, x)
  {
    var fs' := fs.(tree := fs.tree[p := x]);
    assert p == Up(p) + [Last(p)];
    AddKeepsRooted(fs.tree, Up(p), Last(p), x);
    forall a, b {:trigger SameInode(fs'.tree[a], fs'.tree[b])} |
      IsDir(fs'.tree, a) && IsDir(fs'.tree, b) && SameInode(fs'.tree[a], fs'.tree[b])
      ensures a == b
    {
      assert SameInode(fs.tree[a], fs.tree[b]);
    }
    forall a {:trigger fs'.tree[a].ino} | a in fs'.tree
      ensures fs'.tree[a].ino < fs'.next
    {
      assert a != p ==> fs.tree[a].ino < fs.next;
    }
    forall m, dev | MountOf(fs.tree, m, dev)
      ensures MountOf(fs'.tree, m, dev)
    {
      MountIsDir(fs.tree, m, dev);
      assert m != [] ==> Up(m) == m[..|m| - 1];
    }
  }

  lemma {:induction false} MovedSound(fs: Fs, mid: Fs, e: Path, p: Path)
    requires Valid(fs) && Valid(mid) && e in fs.tree && e in mid.tree && mid.tree[e] == fs.tree[e] && !IsDir(fs.tree, e)
    requires p != [] && Names(p) && IsDir(mid.tree, Up(p)) && (IsDir(mid.tree, p) ==> IsDir(fs.tree, p))
    ensures var o := Moved(mid, fs.tree, e, p);
            && Sound(mid, o.fs)
            && (o.fs != mid ==>
                  o.ret.Ok? && FilesFrom(mid.tree, o.fs.tree, p, fs.tree[e]) && (e == p || e !in o.fs.tree))
  {
    var o := Moved(mid, fs.tree, e, p);
    SoundSelf(mid);
    if o.fs != mid {
      var dropped := mid.(tree := Drop(mid.tree, e));
      assert Up(e) in mid.tree && mid.tree[e].dev == mid.tree[Up(e)].dev by { assert Up(e) == e[..|e| - 1]; }
      DropSound(mid, e);
      assert mid.tree[e].ino < mid.next;
      PutSound(dropped, p, fs.tree[e]);
      SoundTrans(mid, dropped, o.fs);
    }
  }

  lemma {:induction false} SoundSelf(fs: Fs)
    requires Valid(fs)
    ensures Sound(fs, fs)
  {
  }
}
