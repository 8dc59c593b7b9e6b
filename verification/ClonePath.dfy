/** recyclix_clonepath_recursive: copying a directory chain into the recycle bin. */
module ClonePath {
  import opened PathText
  import opened FileTree

  // ---------------------------------------------------------------- what the system calls keep

  predicate ResolvesToDir(t: Tree, at: Path, cs: seq<string>) {
    var w := Stat(t, at, cs);
    w.Found? && IsDir(t, w.at)
  }

  function NonDirs(t: Tree): set<Path> {
    set p | p in t && !IsDir(t, p)
  }

  ghost predicate KeepsDirs(t: Tree, t': Tree) {
    forall p :: IsDir(t, p) ==> IsDir(t', p)
  }

  /** A state on the way of a clone: valid, no directory lost, no non-directory gained. */
  ghost predicate Onward(fs: Fs, fs': Fs) {
    Valid(fs') && KeepsDirs(fs.tree, fs'.tree) && NonDirs(fs'.tree) <= NonDirs(fs.tree) && fs.next <= fs'.next
  }

  lemma {:induction false} MkdirKeeps(fs: Fs, at: Path, cs: seq<string>, mode: Mode, umask: Mode)
    requires Valid(fs) && Clean(cs)
    ensures var o := Mkdir(fs, at, cs, mode, umask);
            Onward(fs, o.fs) && (o.ret.Ok? ==> ResolvesToDir(o.fs.tree, at, cs))
    ensures var o := Mkdir(fs, at, cs, mode, umask);
            o.ret in {Err(ENOENT), Err(ENOTDIR)} ==> cs != [] && !ResolvesToDir(fs.tree, at, Up(cs))
  {
    var o := Mkdir(fs, at, cs, mode, umask);
    if o.ret.Ok? {
      var q, c := Holder(fs.tree, at, cs).at, Last(cs);
      AddKeepsRooted(fs.tree, q, c, o.fs.tree[q + [c]]);
      WalkRoutes(fs.tree, o.fs.tree, at, Up(cs), MAX_LINKS);
      assert cs == Up(cs) + [c];
      WalkConcat(o.fs.tree, at, Up(cs), [c], MAX_LINKS);
      assert [c][1..] == [];
    }
  }

  lemma {:induction false} UnlinkKeeps(fs: Fs, at: Path, cs: seq<string>)
    requires Valid(fs)
    ensures var o := Unlink(fs, at, cs);
            Onward(fs, o.fs) && (o.ret.Ok? ==> NonDirs(o.fs.tree) < NonDirs(fs.tree))
  {
    var o := Unlink(fs, at, cs);
    if o.ret.Ok? {
      var p := Holder(fs.tree, at, cs).at + [Last(cs)];
      DropKeepsRooted(fs.tree, p);
      assert p in NonDirs(fs.tree) && p !in NonDirs(o.fs.tree);
    }
  }

  lemma {:induction false} ChmodKeeps(fs: Fs, at: Path, cs: seq<string>, mode: Mode)
    requires Valid(fs)
    ensures var fs' := Chmod(fs, at, cs, mode);
            Onward(fs, fs') && (ResolvesToDir(fs.tree, at, cs) ==> ResolvesToDir(fs'.tree, at, cs))
  {
    var t' := Chmod(fs, at, cs, mode).tree;
    var w := Stat(fs.tree, at, cs);
    if w.Found? && w.at in fs.tree {
      RetagKeepsValid(fs, w.at, t'[w.at]);
    }
    if ResolvesToDir(fs.tree, at, cs) {
      WalkRoutes(fs.tree, t', at, cs, MAX_LINKS);
    }
  }

  lemma {:induction false} ChownKeeps(fs: Fs, at: Path, cs: seq<string>, uid: nat, gid: nat)
    requires Valid(fs)
    ensures var fs' := Chown(fs, at, cs, uid, gid);
            Onward(fs, fs') && (ResolvesToDir(fs.tree, at, cs) ==> ResolvesToDir(fs'.tree, at, cs))
  {
    var t' := Chown(fs, at, cs, uid, gid).tree;
    var w := Stat(fs.tree, at, cs);
    if w.Found? && w.at in fs.tree {
      RetagKeepsValid(fs, w.at, t'[w.at]);
    }
    if ResolvesToDir(fs.tree, at, cs) {
      WalkRoutes(fs.tree, t', at, cs, MAX_LINKS);
    }
  }

  // ---------------------------------------------------------------- the algorithm

  /** One directory and, where needed, its parents; the donor gives mode and owner. */
  function Clone(fs: Fs, at: Path, path: seq<string>, donor: seq<string>, umask: Mode): (o: Out)
    requires Valid(fs) && IsDir(fs.tree, at) && Clean(path)
    ensures Onward(fs, o.fs)
    ensures o.ret.Ok? ==> ResolvesToDir(o.fs.tree, at, path)
    ensures o.ret != Err(ECANCELED)
    decreases |path|, 2
  {
    match Stat(fs.tree, [], donor)
    case Missing(e) => Out(fs, Err(e))
    case Found(d, _) =>
      WalkStays(fs.tree, [], donor, MAX_LINKS);
      var node := fs.tree[d];
      var o := TryMkdir(fs, at, path, donor, node, umask);
      if o.ret.Ok? then
        ChownKeeps(o.fs, at, path, node.uid, node.gid);
        Out(Chown(o.fs, at, path, node.uid, node.gid), Ok)
      else o
  }

  /** The retry loop around mkdir. */
  function TryMkdir(fs: Fs, at: Path, path: seq<string>, donor: seq<string>, node: Node, umask: Mode): (o: Out)
    requires Valid(fs) && IsDir(fs.tree, at) && Clean(path)
    ensures Onward(fs, o.fs)
    ensures o.ret.Ok? ==> ResolvesToDir(o.fs.tree, at, path)
    ensures o.ret != Err(ECANCELED)
    decreases |path|, 1, NonDirs(fs.tree), if ResolvesToDir(fs.tree, at, Up(path)) then 0 else 1
  {
    MkdirKeeps(fs, at, path, node.mode, umask);
    var m := Mkdir(fs, at, path, node.mode, umask);
    if m.ret.Ok? then m
    else if m.ret.errno == ENOENT || m.ret.errno == ENOTDIR then
      UnlinkKeeps(fs, at, Up(path));
      var u := Unlink(fs, at, Up(path));
      if u.ret.Ok? then TryMkdir(u.fs, at, path, donor, node, umask)
      else if u.ret.errno == ENOENT then
        var c := Clone(fs, at, Up(path), Up(donor), umask);
        if c.ret.Ok? then TryMkdir(c.fs, at, path, donor, node, umask) else c
      else u
    else if m.ret.errno == EEXIST then
      match Stat(fs.tree, at, path)
      case Missing(e) => Out(fs, Err(e))
      case Found(q, _) =>
        if IsDir(fs.tree, q) then
          ChmodKeeps(fs, at, path, node.mode);
          Out(Chmod(fs, at, path, node.mode), Ok)
        else
          UnlinkKeeps(fs, at, path);
          var u := Unlink(fs, at, path);
          if u.ret.Ok? then TryMkdir(u.fs, at, path, donor, node, umask) else u
    else m
  }

  // ---------------------------------------------------------------- exact outcome

  /** The name bs leads to the directory p[..i]. */
  ghost predicate Leads(t: Tree, at: Path, bs: seq<string>, p: Path, i: nat) {
    && i <= |p| && Names(p) && Clean(bs) && IsDir(t, at)
    && ResolvesToDir(t, at, bs) && Stat(t, at, bs).at == p[..i]
  }

  /** The name bs leads to the directory p[..i], and no link is on p below it. */
  ghost predicate Aims(t: Tree, at: Path, bs: seq<string>, p: Path, i: nat) {
    Leads(t, at, bs, p, i) && Plain(t, p, i)
  }

  /** The donor of p[..k]: as far above d as p[..k] is above p, and "/" at the top. */
  function DonorOf(d: Path, p: Path, k: nat): Path
    requires k <= |p|
  {
    if |p| - k <= |d| then d[..|d| - (|p| - k)] else []
  }

  predicate OnChain(q: Path, p: Path, i: nat) {
    q == p || (i < |q| <= |p| && q == p[..|q|])
  }

  function FreshDir(ino: nat, dev: nat, donor: Node, umask: Mode): Node {
    Node(Directory, ino, dev, donor.mode & !umask & MKDIR_BITS, donor.uid, donor.gid)
  }

  /**
   * Depth k of chain p after a clone: an existing directory is left alone, or, as the target itself,
   * takes the donor's mode and owner; anything else is a new directory made after its own donor.
   */
  ghost predicate LinkCloned(fs: Fs, fs': Fs, p: Path, k: nat, d: Path, umask: Mode)
    requires k <= |p|
  {
    var t, t', q, e := fs.tree, fs'.tree, p[..k], DonorOf(d, p, k);
    && IsDir(t', q) && e in t
    && if IsDir(t, q) then
         t'[q] == if k < |p| then t[q] else t[q].(mode := t[e].mode, uid := t[e].uid, gid := t[e].gid)
       else
         && Up(q) in t'
         && fs.next <= t'[q].ino < fs'.next
         && t'[q] == FreshDir(t'[q].ino, t'[Up(q)].dev, t[e], umask)
  }

  ghost predicate OffChainSame(t: Tree, t': Tree, p: Path, i: nat) {
    && (forall q :: !OnChain(q, p, i) ==> (q in t <==> q in t'))
    && (forall q :: !OnChain(q, p, i) && q in t ==> t'[q] == t[q])
  }

  /** What a successful clone of chain p[i..] after donor d has done, and that it did nothing else. */
  ghost predicate Cloned(fs: Fs, fs': Fs, p: Path, i: nat, d: Path, umask: Mode)
    requires i <= |p|
  {
    && OffChainSame(fs.tree, fs'.tree, p, i)
    && forall k {:trigger LinkCloned(fs, fs', p, k, d, umask)} :: i <= k <= |p| ==> LinkCloned(fs, fs', p, k, d, umask)
  }

  lemma {:induction false} ChainIsDir(fs: Fs, fs': Fs, q: Path, i: nat, d: Path, umask: Mode, p: Path)
    requires i <= |q| && Cloned(fs, fs', q, i, d, umask) && OnChain(p, q, i)
    ensures IsDir(fs'.tree, p)
  {
    assert p == q[..|p|];
    assert LinkCloned(fs, fs', q, |p|, d, umask);
  }

  /** mkdir of an existing directory, however it is named. */
  lemma {:induction false} MkdirExisting(fs: Fs, at: Path, cs: seq<string>, mode: Mode, umask: Mode)
    requires Rooted(fs.tree) && ResolvesToDir(fs.tree, at, cs)
    ensures Mkdir(fs, at, cs, mode, umask) == Out(fs, Err(EEXIST))
  {
    if cs != [] {
      assert cs == Up(cs) + [Last(cs)];
      WalkConcat(fs.tree, at, Up(cs), [Last(cs)], MAX_LINKS);
    }
  }

  lemma {:induction false} AimsUp(t: Tree, at: Path, bs: seq<string>, p: Path, i: nat)
    requires Aims(t, at, bs, p, i) && i < |p|
    ensures Aims(t, at, bs, Up(p), i)
    ensures Blocked(t, p, i, |p| - 1) <==> Blocked(t, Up(p), i, |Up(p)|)
  {
    assert forall j :: 0 <= j <= |Up(p)| ==> Up(p)[..j] == p[..j];
  }

  lemma {:induction false} UpOfName(bs: seq<string>, p: Path, i: nat)
    requires i < |p|
    ensures Up(bs + p[i..]) == bs + Up(p)[i..] && Last(bs + p[i..]) == Last(p)
  {
  }

  /** Where the holder of the target is, or why it is not found. */
  lemma {:induction false} HolderPlain(t: Tree, at: Path, bs: seq<string>, p: Path, i: nat)
    requires Rooted(t) && Aims(t, at, bs, p, i) && i < |p|
    ensures Up(bs + p[i..]) == bs + Up(p)[i..] && Last(bs + p[i..]) == Last(p)
    ensures var h := Holder(t, at, bs + p[i..]);
            if IsDir(t, Up(p)) then h.Found? && h.at == Up(p)
            else if Up(p) in t || Blocked(t, p, i, |p| - 1) then h == Missing(ENOTDIR)
            else h == Missing(ENOENT)
  {
    var q := Up(p);
    UpOfName(bs, p, i);
    AimsUp(t, at, bs, p, i);
    WalkConcat(t, at, bs, q[i..], MAX_LINKS);
    WalkPlain(t, q, i, Stat(t, at, bs).links);
  }

  lemma {:induction false} StatPlain(t: Tree, at: Path, bs: seq<string>, p: Path, i: nat)
    requires Rooted(t) && Aims(t, at, bs, p, i) && p in t
    ensures Stat(t, at, bs + p[i..]).Found? && Stat(t, at, bs + p[i..]).at == p
  {
    WalkConcat(t, at, bs, p[i..], MAX_LINKS);
    WalkPlain(t, p, i, Stat(t, at, bs).links);
  }

  /** The state after mkdir or chmod at p. */
  function LeafMade(fs: Fs, p: Path, node: Node, umask: Mode): Fs
    requires IsDir(fs.tree, p) || (p != [] && Up(p) in fs.tree)
  {
    if IsDir(fs.tree, p) then fs.(tree := fs.tree[p := fs.tree[p].(mode := node.mode)])
    else
      var made := Node(Directory, fs.next, fs.tree[Up(p)].dev, node.mode & !umask & MKDIR_BITS, 0, 0);
      Fs(fs.tree[p := made], fs.next + 1)
  }

  /** Removing an obstruction below the bin leaves the aim. */
  lemma {:induction false} AimsAfterDrop(fs: Fs, at: Path, bs: seq<string>, p: Path, i: nat, k: nat)
    requires Valid(fs) && Aims(fs.tree, at, bs, p, i) && i < k <= |p|
    requires p[..k] in fs.tree && !IsDir(fs.tree, p[..k])
    ensures var fs' := fs.(tree := Drop(fs.tree, p[..k]));
            Valid(fs') && Aims(fs'.tree, at, bs, p, i)
  {
    DropKeepsRooted(fs.tree, p[..k]);
    WalkRoutes(fs.tree, Drop(fs.tree, p[..k]), at, bs, MAX_LINKS);
  }

  lemma {:induction false} TryLeafDir(fs: Fs, at: Path, bs: seq<string>, p: Path, i: nat, donor: seq<string>,
                                      node: Node, umask: Mode)
    requires Valid(fs) && Aims(fs.tree, at, bs, p, i) && Clean(bs + p[i..]) && IsDir(fs.tree, p)
    ensures TryMkdir(fs, at, bs + p[i..], donor, node, umask) == Out(LeafMade(fs, p, node, umask), Ok)
  {
    StatPlain(fs.tree, at, bs, p, i);
    MkdirExisting(fs, at, bs + p[i..], node.mode, umask);
  }

  lemma {:induction false} TryLeafMissing(fs: Fs, at: Path, bs: seq<string>, p: Path, i: nat, donor: seq<string>,
                                          node: Node, umask: Mode)
    requires Valid(fs) && Aims(fs.tree, at, bs, p, i) && Clean(bs + p[i..])
    requires p !in fs.tree && i < |p| && IsDir(fs.tree, Up(p))
    ensures TryMkdir(fs, at, bs + p[i..], donor, node, umask) == Out(LeafMade(fs, p, node, umask), Ok)
  {
    HolderPlain(fs.tree, at, bs, p, i);
    assert p == Up(p) + [Last(p)];
    assert Name(Last(p));
  }

  lemma {:induction false} TryLeafObstructed(fs: Fs, at: Path, bs: seq<string>, p: Path, i: nat, donor: seq<string>,
                                             node: Node, umask: Mode)
    requires Valid(fs) && Aims(fs.tree, at, bs, p, i) && Clean(bs + p[i..])
    requires p in fs.tree && !IsDir(fs.tree, p) && i < |p| && IsDir(fs.tree, Up(p))
    ensures Valid(fs.(tree := Drop(fs.tree, p)))
    ensures TryMkdir(fs, at, bs + p[i..], donor, node, umask) ==
            TryMkdir(fs.(tree := Drop(fs.tree, p)), at, bs + p[i..], donor, node, umask)
  {
    var path := bs + p[i..];
    assert Mkdir(fs, at, path, node.mode, umask) == Out(fs, Err(EEXIST)) &&
           Unlink(fs, at, path) == Out(fs.(tree := Drop(fs.tree, p)), Ok) by {
      HolderPlain(fs.tree, at, bs, p, i);
      assert p == Up(p) + [Last(p)];
      assert Name(Last(p));
    }
    StatPlain(fs.tree, at, bs, p, i);
    UnlinkKeeps(fs, at, path);
  }

  lemma {:induction false} LeafMadeAfterDrop(fs: Fs, p: Path, node: Node, umask: Mode)
    requires p in fs.tree && !IsDir(fs.tree, p) && p != [] && Up(p) in fs.tree
    ensures LeafMade(fs.(tree := Drop(fs.tree, p)), p, node, umask) == LeafMade(fs, p, node, umask)
  {
    assert Drop(fs.tree, p)[p := node] == fs.tree[p := node];
    var made := LeafMade(fs, p, node, umask).tree[p];
    assert Drop(fs.tree, p)[p := made] == fs.tree[p := made];
  }

  /** With the holder in place, the target is made, or brought to the donor's mode. */
  lemma {:induction false} TryReady(fs: Fs, at: Path, bs: seq<string>, p: Path, i: nat, donor: seq<string>,
                                    node: Node, umask: Mode)
    requires Valid(fs) && Aims(fs.tree, at, bs, p, i) && (if i == |p| then IsDir(fs.tree, p) else IsDir(fs.tree, Up(p)))
    requires Clean(bs + p[i..])
    ensures TryMkdir(fs, at, bs + p[i..], donor, node, umask) == Out(LeafMade(fs, p, node, umask), Ok)
  {
    assert p[..|p|] == p;
    if IsDir(fs.tree, p) {
      TryLeafDir(fs, at, bs, p, i, donor, node, umask);
    } else if p !in fs.tree {
      TryLeafMissing(fs, at, bs, p, i, donor, node, umask);
    } else {
      var fs1 := fs.(tree := Drop(fs.tree, p));
      AimsAfterDrop(fs, at, bs, p, i, |p|);
      assert IsDir(fs1.tree, Up(p));
      TryLeafObstructed(fs, at, bs, p, i, donor, node, umask);
      TryLeafMissing(fs1, at, bs, p, i, donor, node, umask);
      LeafMadeAfterDrop(fs, p, node, umask);
    }
  }

  lemma {:induction false} StatDonor(t: Tree, d: Path)
    requires Rooted(t) && IsDir(t, d)
    ensures Stat(t, [], d) == Found(d, MAX_LINKS)
  {
    PlainLookup(t, d, MAX_LINKS);
  }

  /** The state after the target itself is cloned, its holder being there. */
  function LeafCloned(fs: Fs, p: Path, donor: Node, umask: Mode): Fs
    requires IsDir(fs.tree, p) || (p != [] && Up(p) in fs.tree)
  {
    var m := LeafMade(fs, p, donor, umask);
    m.(tree := m.tree[p := m.tree[p].(uid := donor.uid, gid := donor.gid)])
  }

  lemma {:induction false} AimsAfterMade(fs: Fs, at: Path, bs: seq<string>, p: Path, i: nat, node: Node, umask: Mode)
    requires Valid(fs) && Aims(fs.tree, at, bs, p, i) && (if i == |p| then IsDir(fs.tree, p) else IsDir(fs.tree, Up(p)))
    ensures Rooted(LeafMade(fs, p, node, umask).tree)
    ensures Aims(LeafMade(fs, p, node, umask).tree, at, bs, p, i)
  {
    var t, t' := fs.tree, LeafMade(fs, p, node, umask).tree;
    assert p[..|p|] == p;
    if !IsDir(t, p) {
      assert p == Up(p) + [Last(p)];
      AddKeepsRooted(t, Up(p), Last(p), t'[p]);
    }
    WalkRoutes(t, t', at, bs, MAX_LINKS);
  }

  lemma {:induction false} CloneReady(fs: Fs, at: Path, bs: seq<string>, p: Path, i: nat, d: Path, umask: Mode)
    requires Valid(fs) && Aims(fs.tree, at, bs, p, i) && (if i == |p| then IsDir(fs.tree, p) else IsDir(fs.tree, Up(p)))
    requires Clean(bs + p[i..]) && IsDir(fs.tree, d)
    ensures Clone(fs, at, bs + p[i..], d, umask) == Out(LeafCloned(fs, p, fs.tree[d], umask), Ok)
  {
    var node := fs.tree[d];
    StatDonor(fs.tree, d);
    TryReady(fs, at, bs, p, i, d, node, umask);
    AimsAfterMade(fs, at, bs, p, i, node, umask);
    StatPlain(LeafMade(fs, p, node, umask).tree, at, bs, p, i);
  }

  lemma {:induction false} LeafLink(fs: Fs, p: Path, i: nat, k: nat, d: Path, umask: Mode)
    requires Valid(fs) && i <= k <= |p| && IsDir(fs.tree, d)
    requires if i == |p| then IsDir(fs.tree, p) else IsDir(fs.tree, Up(p))
    ensures LinkCloned(fs, LeafCloned(fs, p, fs.tree[d], umask), p, k, d, umask)
  {
    assert p[..|p|] == p && d[..|d|] == d;
    if k < |p| {
      assert p[..k] == Up(p)[..k];
      assert Up(p)[..|p| - 1] == Up(p);
      assert IsDir(fs.tree, DonorOf(d, p, k));
    }
  }

  lemma {:induction false} LeafClonedIsCloned(fs: Fs, p: Path, i: nat, d: Path, umask: Mode)
    requires Valid(fs) && i <= |p| && IsDir(fs.tree, d)
    requires if i == |p| then IsDir(fs.tree, p) else IsDir(fs.tree, Up(p))
    ensures Cloned(fs, LeafCloned(fs, p, fs.tree[d], umask), p, i, d, umask)
  {
    var fs' := LeafCloned(fs, p, fs.tree[d], umask);
    forall k | i <= k <= |p|
      ensures LinkCloned(fs, fs', p, k, d, umask)
    {
      LeafLink(fs, p, i, k, d, umask);
    }
  }

  /** When the parent is missing and nothing is in the way, the parent is cloned first. */
  lemma {:induction false} TryParentMissing(fs: Fs, at: Path, bs: seq<string>, p: Path, i: nat, d: Path, node: Node,
                                            umask: Mode)
    requires Valid(fs) && Aims(fs.tree, at, bs, p, i) && Clean(bs + p[i..])
    requires i < |p| && Up(p) !in fs.tree && !Blocked(fs.tree, p, i, |p| - 1)
    ensures i < |Up(p)| && Aims(fs.tree, at, bs, Up(p), i) && !Blocked(fs.tree, Up(p), i, |Up(p)| - 1)
    ensures Clean(bs + Up(p)[i..])
    ensures TryMkdir(fs, at, bs + p[i..], d, node, umask) ==
            var c := Clone(fs, at, bs + Up(p)[i..], Up(d), umask);
            if c.ret.Ok? then TryMkdir(c.fs, at, bs + p[i..], d, node, umask) else c
  {
    var t, q := fs.tree, Up(p);
    assert forall k :: 0 <= k <= |q| ==> q[..k] == p[..k];
    HolderPlain(t, at, bs, p, i);
    HolderPlain(t, at, bs, q, i);
    assert q == Up(q) + [Last(q)];
    assert Name(Last(q));
    assert Up(q) == p[..|p| - 2];
  }

  /** Depth k of the chain once its target is cloned after its parent. */
  lemma {:induction false} LinkAfterParent(fs: Fs, fs2: Fs, p: Path, k: nat, d: Path, umask: Mode)
    requires k < |p| && Up(p) !in fs.tree && p !in fs.tree
    requires IsDir(fs2.tree, Up(p)) && p !in fs2.tree && d in fs.tree
    requires LinkCloned(fs, fs2, Up(p), k, Up(d), umask)
    ensures LinkCloned(fs, LeafCloned(fs2, p, fs.tree[d], umask), p, k, d, umask)
  {
    assert Up(p)[..k] == p[..k];
    assert DonorOf(Up(d), Up(p), k) == DonorOf(d, p, k);
    assert k == |Up(p)| ==> Up(p)[..k] == Up(p);
    assert p[..k] != p;
  }

  lemma {:induction false} OnChainUp(r: Path, p: Path, i: nat)
    requires i < |Up(p)| && p != []
    ensures OnChain(r, p, i) <==> r == p || OnChain(r, Up(p), i)
  {
    assert Up(p)[..|Up(p)|] == Up(p);
    assert i < |r| <= |Up(p)| ==> p[..|r|] == Up(p)[..|r|];
  }

  lemma {:induction false} OffChainAfterParent(t: Tree, t2: Tree, p: Path, i: nat, node: Node)
    requires p != [] && i < |Up(p)| && OffChainSame(t, t2, Up(p), i)
    ensures OffChainSame(t, t2[p := node], p, i)
  {
    forall r
      ensures OnChain(r, p, i) <==> r == p || OnChain(r, Up(p), i)
    {
      OnChainUp(r, p, i);
    }
  }

  lemma {:induction false} ParentCloned(fs: Fs, fs2: Fs, p: Path, i: nat, d: Path, umask: Mode)
    requires i < |p| && i < |Up(p)| && p !in fs.tree
    requires Cloned(fs, fs2, Up(p), i, Up(d), umask)
    ensures IsDir(fs2.tree, Up(p)) && p !in fs2.tree
  {
    assert LinkCloned(fs, fs2, Up(p), |Up(p)|, Up(d), umask);
    assert Up(p)[..|Up(p)|] == Up(p);
    assert !OnChain(p, Up(p), i);
  }

  /** Cloning the parent and then the target is cloning the chain. */
  lemma {:induction false} ClonedAfterParent(fs: Fs, fs2: Fs, p: Path, i: nat, d: Path, umask: Mode)
    requires i < |p| && d in fs.tree && i < |Up(p)|
    requires Up(p) !in fs.tree && p !in fs.tree
    requires Cloned(fs, fs2, Up(p), i, Up(d), umask) && fs.next <= fs2.next
    ensures IsDir(fs2.tree, Up(p)) && p !in fs2.tree
    ensures Cloned(fs, LeafCloned(fs2, p, fs.tree[d], umask), p, i, d, umask)
  {
    ParentCloned(fs, fs2, p, i, d, umask);
    var fs' := LeafCloned(fs2, p, fs.tree[d], umask);
    OffChainAfterParent(fs.tree, fs2.tree, p, i, fs'.tree[p]);
    forall k | i <= k <= |p|
      ensures LinkCloned(fs, fs', p, k, d, umask)
    {
      if k < |p| {
        assert LinkCloned(fs, fs2, Up(p), k, Up(d), umask);
        LinkAfterParent(fs, fs2, p, k, d, umask);
      } else {
        assert p[..k] == p && d[..|d|] == d;
      }
    }
  }

  /** A clone after an obstruction of its chain is removed is a clone. */
  lemma {:induction false} ClonedAfterDrop(fs: Fs, fs1: Fs, fs': Fs, p: Path, i: nat, q: Path, d: Path, umask: Mode)
    requires i < |q| <= |p| && q == p[..|q|] && q in fs.tree && !IsDir(fs.tree, q)
    requires fs1 == fs.(tree := Drop(fs.tree, q)) && Cloned(fs1, fs', p, i, d, umask)
    ensures Cloned(fs, fs', p, i, d, umask)
  {
    assert p[..|p|] == p;
    forall k | i <= k <= |p|
      ensures LinkCloned(fs, fs', p, k, d, umask)
    {
      assert LinkCloned(fs1, fs', p, k, d, umask);
    }
  }

  /** A clone leaves every directory and link where it was. */
  lemma {:induction false} RoutesAfterCloned(fs: Fs, fs': Fs, p: Path, i: nat, d: Path, umask: Mode)
    requires i <= |p| && Plain(fs.tree, p, i) && IsDir(fs.tree, p[..i])
    requires Cloned(fs, fs', p, i, d, umask)
    ensures SameRoutes(fs.tree, fs'.tree)
  {
    forall r | r in fs.tree && (fs.tree[r].kind.Directory? || fs.tree[r].kind.Symlink?)
      ensures r in fs'.tree && fs'.tree[r].kind == fs.tree[r].kind
    {
      if OnChain(r, p, i) {
        assert r == p[..|r|];
        assert LinkCloned(fs, fs', p, |r|, d, umask);
      }
    }
  }

  lemma {:induction false} AimsAfterCloned(fs: Fs, fs2: Fs, at: Path, bs: seq<string>, p: Path, i: nat, d: Path,
                                           umask: Mode)
    requires Aims(fs.tree, at, bs, p, i) && i < |Up(p)| && p !in fs.tree
    requires Cloned(fs, fs2, Up(p), i, Up(d), umask)
    ensures Aims(fs2.tree, at, bs, p, i)
  {
    var q := Up(p);
    assert forall k :: 0 <= k <= |q| ==> q[..k] == p[..k];
    ParentCloned(fs, fs2, p, i, d, umask);
    RoutesAfterCloned(fs, fs2, q, i, Up(d), umask);
    WalkRoutes(fs.tree, fs2.tree, at, bs, MAX_LINKS);
    assert p[..|p|] == p;
    forall k | i < k < |p|
      ensures IsDir(fs2.tree, p[..k])
    {
      assert LinkCloned(fs, fs2, q, k, Up(d), umask);
    }
  }

  /** Chown after the target is made from a state that the retry loop has reached. */
  lemma {:induction false} CloneFrom(fs: Fs, fs2: Fs, at: Path, bs: seq<string>, p: Path, i: nat, d: Path, umask: Mode)
    requires Valid(fs) && IsDir(fs.tree, at) && IsDir(fs.tree, d)
    requires Valid(fs2) && Aims(fs2.tree, at, bs, p, i) && i < |p| && Clean(bs + p[i..]) && IsDir(fs2.tree, Up(p))
    requires TryMkdir(fs, at, bs + p[i..], d, fs.tree[d], umask) == TryMkdir(fs2, at, bs + p[i..], d, fs.tree[d], umask)
    ensures Clone(fs, at, bs + p[i..], d, umask) == Out(LeafCloned(fs2, p, fs.tree[d], umask), Ok)
  {
    var node := fs.tree[d];
    StatDonor(fs.tree, d);
    TryReady(fs2, at, bs, p, i, d, node, umask);
    AimsAfterMade(fs2, at, bs, p, i, node, umask);
    StatPlain(LeafMade(fs2, p, node, umask).tree, at, bs, p, i);
  }

  /** The parent is missing and clear: it is cloned after its own donor, then the target after d. */
  lemma {:induction false} MissingParentCase(fs: Fs, fs1: Fs, at: Path, bs: seq<string>, p: Path, i: nat, d: Path,
                                             umask: Mode)
    requires Valid(fs) && IsDir(fs.tree, at) && IsDir(fs.tree, d) && i < |p|
    requires Valid(fs1) && Aims(fs1.tree, at, bs, p, i) && Clean(bs + p[i..])
    requires IsDir(fs1.tree, d) && fs1.tree[d] == fs.tree[d]
    requires Up(p) !in fs1.tree && !Blocked(fs1.tree, p, i, |p| - 1)
    requires TryMkdir(fs, at, bs + p[i..], d, fs.tree[d], umask) == TryMkdir(fs1, at, bs + p[i..], d, fs.tree[d], umask)
    ensures Clone(fs, at, bs + p[i..], d, umask).ret.Ok?
    ensures Cloned(fs1, Clone(fs, at, bs + p[i..], d, umask).fs, p, i, d, umask)
    decreases |p|, 0
  {
    TryParentMissing(fs1, at, bs, p, i, d, fs.tree[d], umask);
    assert Up(p) == p[..|p| - 1];
    assert IsDir(fs1.tree, Up(d));
    CloneExact(fs1, at, bs, Up(p), i, Up(d), umask);
    var fs2 := Clone(fs1, at, bs + Up(p)[i..], Up(d), umask).fs;
    AimsAfterCloned(fs1, fs2, at, bs, p, i, d, umask);
    ClonedAfterParent(fs1, fs2, p, i, d, umask);
    CloneFrom(fs, fs2, at, bs, p, i, d, umask);
  }

  /** A non-directory right above the target is removed, and the clone goes on from there. */
  lemma {:induction false} ObstructedParentCase(fs: Fs, at: Path, bs: seq<string>, p: Path, i: nat, d: Path,
                                                umask: Mode)
    requires Valid(fs) && Aims(fs.tree, at, bs, p, i) && Clean(bs + p[i..])
    requires IsDir(fs.tree, d) && i < |p|
    requires Up(p) in fs.tree && !IsDir(fs.tree, Up(p))
    ensures Clone(fs, at, bs + p[i..], d, umask).ret.Ok?
    ensures Cloned(fs, Clone(fs, at, bs + p[i..], d, umask).fs, p, i, d, umask)
    decreases |p|, 1
  {
    var q, node := Up(p), fs.tree[d];
    var fs1 := fs.(tree := Drop(fs.tree, q));
    assert p[..|p| - 1] == q;
    AimsAfterDrop(fs, at, bs, p, i, |p| - 1);
    ParentUnlinked(fs, at, bs, p, i, d, node, umask);
    MissingParentCase(fs, fs1, at, bs, p, i, d, umask);
    ClonedAfterDrop(fs, fs1, Clone(fs, at, bs + p[i..], d, umask).fs, p, i, q, d, umask);
  }

  lemma {:induction false} ParentUnlinked(fs: Fs, at: Path, bs: seq<string>, p: Path, i: nat, d: Path, node: Node,
                                          umask: Mode)
    requires Valid(fs) && Aims(fs.tree, at, bs, p, i) && Clean(bs + p[i..]) && i < |p|
    requires Up(p) in fs.tree && !IsDir(fs.tree, Up(p))
    requires Valid(fs.(tree := Drop(fs.tree, Up(p))))
    ensures i < |Up(p)| && !Blocked(fs.tree, p, i, |p| - 1)
    ensures TryMkdir(fs, at, bs + p[i..], d, node, umask) ==
            TryMkdir(fs.(tree := Drop(fs.tree, Up(p))), at, bs + p[i..], d, node, umask)
  {
    ParentNotBlocked(fs.tree, p, i);
    AimsUp(fs.tree, at, bs, p, i);
    MkdirUnderFile(fs, at, bs, p, i, node.mode, umask);
    UpOfName(bs, p, i);
    UnlinkFile(fs, at, bs, Up(p), i);
    UnlinkKeeps(fs, at, bs + Up(p)[i..]);
  }

  lemma {:induction false} MkdirUnderFile(fs: Fs, at: Path, bs: seq<string>, p: Path, i: nat, mode: Mode, umask: Mode)
    requires Valid(fs) && Aims(fs.tree, at, bs, p, i) && i < |p| && Up(p) in fs.tree && !IsDir(fs.tree, Up(p))
    ensures Mkdir(fs, at, bs + p[i..], mode, umask) == Out(fs, Err(ENOTDIR))
  {
    HolderPlain(fs.tree, at, bs, p, i);
  }

  lemma {:induction false} UnlinkFile(fs: Fs, at: Path, bs: seq<string>, q: Path, i: nat)
    requires Valid(fs) && Aims(fs.tree, at, bs, q, i) && i < |q| && IsDir(fs.tree, Up(q))
    requires q in fs.tree && !IsDir(fs.tree, q)
    ensures Unlink(fs, at, bs + q[i..]) == Out(fs.(tree := Drop(fs.tree, q)), Ok)
  {
    HolderPlain(fs.tree, at, bs, q, i);
    assert q == Up(q) + [Last(q)];
    assert Name(Last(q));
  }

  lemma {:induction false} ParentNotBlocked(t: Tree, p: Path, i: nat)
    requires Rooted(t) && i < |p| && IsDir(t, p[..i]) && Up(p) in t && !IsDir(t, Up(p))
    ensures i < |Up(p)| && !Blocked(t, p, i, |p| - 1) && IsDir(t, Up(Up(p)))
  {
    var q := Up(p);
    assert forall k :: 0 <= k <= |q| ==> q[..k] == p[..k];
    assert q[..|q|] == q;
    assert i < |q|;
    assert Up(q) == q[..|q| - 1];
  }

  /** A block well above p also hides the directory of its parent. */
  lemma {:induction false} BlockedParent(t: Tree, p: Path, i: nat)
    requires Rooted(t) && i <= |p| && Blocked(t, p, i, |p| - 1)
    ensures i < |Up(p)| && Up(p) !in t && !IsDir(t, Up(Up(p)))
    ensures Up(Up(p)) in t || Blocked(t, Up(p), i, |Up(p)| - 1)
  {
    var q := Up(p);
    var k :| i < k < |p| - 1 && k <= |p| && p[..k] in t && !IsDir(t, p[..k]);
    assert q[..k] == p[..k] && Up(q)[..k] == p[..k];
    assert k == |Up(q)| ==> Up(q)[..k] == Up(q);
  }

  lemma {:induction false} BlockedCase(fs: Fs, at: Path, bs: seq<string>, p: Path, i: nat, d: Path, umask: Mode)
    requires Valid(fs) && Aims(fs.tree, at, bs, p, i) && Clean(bs + p[i..])
    requires IsDir(fs.tree, d) && i <= |p| && Blocked(fs.tree, p, i, |p| - 1)
    ensures Clone(fs, at, bs + p[i..], d, umask) == Out(fs, Err(ENOTDIR))
  {
    BlockedParent(fs.tree, p, i);
    AimsUp(fs.tree, at, bs, p, i);
    StatDonor(fs.tree, d);
    HolderPlain(fs.tree, at, bs, p, i);
    HolderPlain(fs.tree, at, bs, Up(p), i);
  }

  /**
   * The clone of p below directory p[..i] fails, and changes nothing, exactly when a non-directory
   * sits at least two levels above the target; else the whole chain is there and nothing else is touched.
   */
  lemma {:induction false} CloneExact(fs: Fs, at: Path, bs: seq<string>, p: Path, i: nat, d: Path, umask: Mode)
    requires Valid(fs) && Aims(fs.tree, at, bs, p, i) && Clean(bs + p[i..])
    requires IsDir(fs.tree, d)
    ensures var o := Clone(fs, at, bs + p[i..], d, umask);
            if Blocked(fs.tree, p, i, |p| - 1) then o == Out(fs, Err(ENOTDIR))
            else o.ret.Ok? && Cloned(fs, o.fs, p, i, d, umask)
    decreases |p|, 2
  {
    if Blocked(fs.tree, p, i, |p| - 1) {
      BlockedCase(fs, at, bs, p, i, d, umask);
    } else if i == |p| || IsDir(fs.tree, Up(p)) {
      assert p[..|p|] == p;
      CloneReady(fs, at, bs, p, i, d, umask);
      LeafClonedIsCloned(fs, p, i, d, umask);
    } else if Up(p) in fs.tree {
      ObstructedParentCase(fs, at, bs, p, i, d, umask);
    } else {
      MissingParentCase(fs, fs, at, bs, p, i, d, umask);
    }
  }

  // ---------------------------------------------------------------- what the new directories are like

  /** The node is a directory made like another one: the bits 01777 that the umask leaves, and the same owner. */
  predicate MadeLike(made: Node, like: Node, umask: Mode) {
    && made.kind.Directory? && made.mode == like.mode & !umask & 0x3FF
    && made.uid == like.uid && made.gid == like.gid
  }

  /** These are all bits of a mode without set-id bits, never a set-id bit, and 0755 of 0755 under the umask 022. */
  lemma {:induction false} MadeModes(made: Mode, mode: Mode, umask: Mode)
    requires made == mode & !umask & 0x3FF
    ensures made & 0xC00 == 0 && (mode & 0xC00 == 0 ==> made == mode & !umask)
    ensures mode == 0x1ED && umask == 0x012 ==> made == 0x1ED
  {
    assert mode & 0xC00 == 0 ==> mode & 0x3FF == mode;
  }

  /** Every directory that a clone makes is made like its own donor, as far above d as it is above the target. */
  lemma {:induction false} NewLikeDonor(fs: Fs, fs': Fs, p: Path, i: nat, d: Path, umask: Mode, k: nat)
    requires i <= k <= |p| && Cloned(fs, fs', p, i, d, umask) && !IsDir(fs.tree, p[..k])
    ensures var e := if |p| - k <= |d| then d[..|d| - (|p| - k)] else [];
            p[..k] in fs'.tree && e in fs.tree && MadeLike(fs'.tree[p[..k]], fs.tree[e], umask)
  {
    assert LinkCloned(fs, fs', p, k, d, umask);
  }
}
