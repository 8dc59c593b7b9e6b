/** A directory tree with devices, symbolic links and the system calls that recyclix makes on it. */
module FileTree {
  import opened PathText

  /** Permission bits, including set-id and sticky. */
  type Mode = bv12

  const MKDIR_BITS: Mode := 0x3FF  // 01777: what mkdir honours
  const MAX_LINKS: nat := 40       // links followed before ELOOP

  datatype Kind =
    | Directory
    | Regular(content: string)
    | Special
    | Symlink(target: string)

  datatype Node = Node(kind: Kind, ino: nat, dev: nat, mode: Mode, uid: nat, gid: nat)

  type Tree = map<Path, Node>

  /** The tree and the next unused inode number. */
  datatype Fs = Fs(tree: Tree, next: nat)

  datatype Errno =
    | ENOENT | ENOTDIR | EEXIST | EISDIR | ENOTEMPTY | ELOOP | EXDEV | EBUSY | EBADF | EINVAL | ECANCELED

  datatype Ret = Ok | Err(errno: Errno)

  datatype Out = Out(fs: Fs, ret: Ret)

  predicate IsDir(t: Tree, p: Path) {
    p in t && t[p].kind.Directory?
  }

  /** Every node hangs below directories, names are entry names, and only directories are mounted on. */
  ghost predicate Rooted(t: Tree) {
    && IsDir(t, [])
    && (forall p, k {:trigger p[..k]} :: p in t && 0 <= k < |p| ==> IsDir(t, p[..k]))
    && (forall p :: p in t ==> Names(p))
    && (forall p {:trigger t[Up(p)]} :: p in t && p != [] && !IsDir(t, p) ==> t[p].dev == t[Up(p)].dev)
  }

  predicate SameInode(a: Node, b: Node) {
    a.dev == b.dev && a.ino == b.ino
  }

  /** Inode numbers are below `next` and tell the directories of a device apart. */
  ghost predicate Numbered(fs: Fs) {
    && (forall p {:trigger fs.tree[p].ino} :: p in fs.tree ==> fs.tree[p].ino < fs.next)
    && (forall p, q {:trigger SameInode(fs.tree[p], fs.tree[q])} ::
          IsDir(fs.tree, p) && IsDir(fs.tree, q) && SameInode(fs.tree[p], fs.tree[q]) ==> p == q)
  }

  ghost predicate Valid(fs: Fs) {
    Rooted(fs.tree) && Numbered(fs)
  }

  // ---------------------------------------------------------------- lookup

  datatype Lookup = Found(at: Path, links: nat) | Missing(errno: Errno)

  /** Path resolution from directory cur; `links` is the number of links still followed. */
  function Walk(t: Tree, cur: Path, cs: seq<string>, links: nat): (r: Lookup)
    ensures r.Missing? ==> r.errno in {ENOENT, ENOTDIR, ELOOP}
    decreases links, |cs|
  {
    if cs == [] then Found(cur, links)
    else if !IsDir(t, cur) then Missing(ENOTDIR)
    else if cs[0] == "." then Walk(t, cur, cs[1..], links)
    else if cs[0] == ".." then Walk(t, Up(cur), cs[1..], links)
    else
      var next := cur + [cs[0]];
      if next !in t then Missing(ENOENT)
      else if !t[next].kind.Symlink? then Walk(t, next, cs[1..], links)
      else if links == 0 then Missing(ELOOP)
      else
        var target := t[next].kind.target;
        Walk(t, if IsAbsolute(target) then [] else cur, Components(target) + cs[1..], links - 1)
  }

  /** stat(2): the location of a name, all links followed. */
  function Stat(t: Tree, at: Path, cs: seq<string>): Lookup {
    Walk(t, at, cs, MAX_LINKS)
  }

  /** The directory that holds the last component of a name. */
  function Holder(t: Tree, at: Path, cs: seq<string>): Lookup
    requires cs != []
  {
    match Walk(t, at, Up(cs), MAX_LINKS)
    case Missing(e) => Missing(e)
    case Found(q, n) => if IsDir(t, q) then Found(q, n) else Missing(ENOTDIR)
  }

  predicate IsDots(c: string) {
    c == "." || c == ".."
  }

  function Last(cs: seq<string>): string
    requires cs != []
  {
    cs[|cs| - 1]
  }

  // ---------------------------------------------------------------- system calls

  /** mkdir(2) */
  function Mkdir(fs: Fs, at: Path, cs: seq<string>, mode: Mode, umask: Mode): Out {
    if cs == [] then Out(fs, Err(EEXIST))
    else match Holder(fs.tree, at, cs)
      case Missing(e) => Out(fs, Err(e))
      case Found(q, _) =>
        if IsDots(Last(cs)) || q + [Last(cs)] in fs.tree then Out(fs, Err(EEXIST))
        else
          var node := Node(Directory, fs.next, fs.tree[q].dev, mode & !umask & MKDIR_BITS, 0, 0);
          Out(Fs(fs.tree[q + [Last(cs)] := node], fs.next + 1), Ok)
  }

  /** Removes one entry. */
  function Drop(t: Tree, p: Path): (r: Tree)
    ensures forall q :: q in r <==> q in t && q != p
    ensures forall q :: q in r ==> r[q] == t[q]
  {
    t - {p}
  }

  /** unlink(2), of the C library and not of recyclix */
  function Unlink(fs: Fs, at: Path, cs: seq<string>): Out {
    if cs == [] then Out(fs, Err(EISDIR))
    else match Holder(fs.tree, at, cs)
      case Missing(e) => Out(fs, Err(e))
      case Found(q, _) =>
        var p := q + [Last(cs)];
        if IsDots(Last(cs)) then Out(fs, Err(EISDIR))
        else if p !in fs.tree then Out(fs, Err(ENOENT))
        else if IsDir(fs.tree, p) then Out(fs, Err(EISDIR))
        else Out(fs.(tree := Drop(fs.tree, p)), Ok)
  }

  predicate HasChildren(t: Tree, p: Path) {
    exists q :: q in t && |q| == |p| + 1 && q[..|p|] == p
  }

  /** A directory on another device than the one it hangs in, or "/". */
  predicate IsMountPoint(t: Tree, p: Path) {
    p == [] || (Up(p) in t && p in t && t[p].dev != t[Up(p)].dev)
  }

  /** rmdir(2) */
  function Rmdir(fs: Fs, at: Path, cs: seq<string>): Out {
    if cs == [] then Out(fs, Err(EBUSY))
    else match Holder(fs.tree, at, cs)
      case Missing(e) => Out(fs, Err(e))
      case Found(q, _) =>
        var p := q + [Last(cs)];
        if IsDots(Last(cs)) then Out(fs, Err(ENOTEMPTY))
        else if p !in fs.tree then Out(fs, Err(ENOENT))
        else if !IsDir(fs.tree, p) then Out(fs, Err(ENOTDIR))
        else if IsMountPoint(fs.tree, p) then Out(fs, Err(EBUSY))
        else if HasChildren(fs.tree, p) then Out(fs, Err(ENOTEMPTY))
        else Out(fs.(tree := Drop(fs.tree, p)), Ok)
  }

  /** Changes mode or owner of the node that a name leads to; failure is silent. */
  function Chmod(fs: Fs, at: Path, cs: seq<string>, mode: Mode): Fs {
    match Stat(fs.tree, at, cs)
    case Found(q, _) => if q in fs.tree then fs.(tree := fs.tree[q := fs.tree[q].(mode := mode)]) else fs
    case Missing(_) => fs
  }

  function Chown(fs: Fs, at: Path, cs: seq<string>, uid: nat, gid: nat): Fs {
    match Stat(fs.tree, at, cs)
    case Found(q, _) =>
      if q in fs.tree then fs.(tree := fs.tree[q := fs.tree[q].(uid := uid, gid := gid)]) else fs
    case Missing(_) => fs
  }

  /** renameat(2) of an entry that is not a directory, or that is one above the new name. */
  function Rename(fs: Fs, at: Path, cs: seq<string>, at': Path, cs': seq<string>): Out
    requires cs != []
  {
    match Holder(fs.tree, at, cs)
    case Missing(e) => Out(fs, Err(e))
    case Found(q, _) =>
      if cs' == [] then Out(fs, Err(EBUSY))
      else match Holder(fs.tree, at', cs')
        case Missing(e) => Out(fs, Err(e))
        case Found(q', _) =>
          var src, dst := q + [Last(cs)], q' + [Last(cs')];
          if src !in fs.tree then Out(fs, Err(ENOENT))
          else if IsDots(Last(cs')) then Out(fs, Err(EBUSY))
          else if fs.tree[q].dev != fs.tree[q'].dev then Out(fs, Err(EXDEV))
          else if src < dst then Out(fs, Err(EINVAL))
          else if IsDir(fs.tree, dst) then Out(fs, Err(EISDIR))
          else if dst in fs.tree && fs.tree[dst].ino == fs.tree[src].ino then Out(fs, Ok)
          else Out(fs.(tree := Drop(fs.tree, src)[dst := fs.tree[src]]), Ok)
  }

  // ---------------------------------------------------------------- facts about lookup

  /** Looking up a + b is looking up b from where a leads. */
  lemma {:induction false} WalkConcat(t: Tree, cur: Path, a: seq<string>, b: seq<string>, links: nat)
    ensures Walk(t, cur, a + b, links) ==
            match Walk(t, cur, a, links)
            case Missing(e) => Missing(e)
            case Found(q, n) => Walk(t, q, b, n)
    decreases links, |a|
  {
    if a == [] {
      assert a + b == b;
    } else if IsDir(t, cur) {
      assert (a + b)[1..] == a[1..] + b;
      if a[0] == "." {
        WalkConcat(t, cur, a[1..], b, links);
      } else if a[0] == ".." {
        WalkConcat(t, Up(cur), a[1..], b, links);
      } else {
        var next := cur + [a[0]];
        if next in t && !t[next].kind.Symlink? {
          WalkConcat(t, next, a[1..], b, links);
        } else if next in t && links > 0 {
          var target := t[next].kind.target;
          var start := if IsAbsolute(target) then [] else cur;
          assert Components(target) + (a[1..] + b) == Components(target) + a[1..] + b;
          WalkConcat(t, start, Components(target) + a[1..], b, links - 1);
        }
      }
    }
  }

  /** Lookup ends in the tree. */
  lemma {:induction false} WalkStays(t: Tree, cur: Path, cs: seq<string>, links: nat)
    requires Rooted(t) && cur in t
    ensures Walk(t, cur, cs, links).Found? ==> Walk(t, cur, cs, links).at in t
    decreases links, |cs|
  {
    if cs != [] && IsDir(t, cur) {
      if cs[0] == "." {
        WalkStays(t, cur, cs[1..], links);
      } else if cs[0] == ".." {
        WalkStays(t, Up(cur), cs[1..], links);
      } else {
        var next := cur + [cs[0]];
        if next in t && !t[next].kind.Symlink? {
          WalkStays(t, next, cs[1..], links);
        } else if next in t && links > 0 {
          var target := t[next].kind.target;
          WalkStays(t, if IsAbsolute(target) then [] else cur, Components(target) + cs[1..], links - 1);
        }
      }
    }
  }

  /** The lookup of one name from a directory ends at a directory. */
  predicate LeadsToDir(t: Tree, cur: Path, c: string, links: nat) {
    var w := Walk(t, cur, [c], links);
    w.Found? && IsDir(t, w.at)
  }

  /** The node is a directory, or a link that leads to one. */
  ghost predicate IsWay(t: Tree, p: Path) {
    IsDir(t, p) || (p in t && p != [] && t[p].kind.Symlink? && exists n :: LeadsToDir(t, Up(p), Last(p), n))
  }

  /** t' has every directory of t and every link to one, unchanged in kind. */
  ghost predicate SameWays(t: Tree, t': Tree) {
    forall p {:trigger IsWay(t, p)} {:trigger p in t'} :: IsWay(t, p) ==> p in t' && t'[p].kind == t[p].kind
  }

  /** A link that a lookup follows on its way to a directory leads to a directory. */
  lemma {:induction false} LinkIsWay(t: Tree, cur: Path, cs: seq<string>, links: nat)
    requires cs != [] && IsDir(t, cur) && !IsDots(cs[0])
    requires cur + [cs[0]] in t && t[cur + [cs[0]]].kind.Symlink? && links > 0
    requires Walk(t, cur, cs, links).Found? && IsDir(t, Walk(t, cur, cs, links).at)
    ensures IsWay(t, cur + [cs[0]])
  {
    var next := cur + [cs[0]];
    assert [cs[0]] + cs[1..] == cs && Up(next) == cur && Last(next) == cs[0];
    WalkConcat(t, cur, [cs[0]], cs[1..], links);
    assert LeadsToDir(t, Up(next), Last(next), links);
  }

  /** A lookup that ends at a directory only depends on directories and the links that lead to them. */
  lemma {:induction false} WalkWays(t: Tree, t': Tree, cur: Path, cs: seq<string>, links: nat)
    requires SameWays(t, t')
    requires Walk(t, cur, cs, links).Found? && IsDir(t, Walk(t, cur, cs, links).at)
    ensures Walk(t', cur, cs, links) == Walk(t, cur, cs, links)
    ensures IsDir(t', Walk(t', cur, cs, links).at)
    decreases links, |cs|
  {
    if cs == [] {
      assert IsWay(t, cur);
    } else {
      assert IsWay(t, cur);
      if cs[0] == "." {
        WalkWays(t, t', cur, cs[1..], links);
      } else if cs[0] == ".." {
        WalkWays(t, t', Up(cur), cs[1..], links);
      } else {
        var next := cur + [cs[0]];
        if !t[next].kind.Symlink? {
          WalkWays(t, t', next, cs[1..], links);
          assert cs[1..] != [] ==> IsDir(t, next);
          assert IsWay(t, next);
        } else {
          var target := t[next].kind.target;
          LinkIsWay(t, cur, cs, links);
          WalkWays(t, t', if IsAbsolute(target) then [] else cur, Components(target) + cs[1..], links - 1);
        }
      }
    }
  }

  /** t' has every directory and link of t, unchanged in kind. */
  ghost predicate SameRoutes(t: Tree, t': Tree) {
    forall p {:trigger p in t'} {:trigger t[p]} :: p in t && (t[p].kind.Directory? || t[p].kind.Symlink?) ==>
      p in t' && t'[p].kind == t[p].kind
  }

  lemma {:induction false} RoutesAreWays(t: Tree, t': Tree)
    requires SameRoutes(t, t')
    ensures SameWays(t, t')
  {
  }

  lemma {:induction false} WalkRoutes(t: Tree, t': Tree, cur: Path, cs: seq<string>, links: nat)
    requires SameRoutes(t, t')
    requires Walk(t, cur, cs, links).Found? && IsDir(t, Walk(t, cur, cs, links).at)
    ensures Walk(t', cur, cs, links) == Walk(t, cur, cs, links)
  {
    RoutesAreWays(t, t');
    WalkWays(t, t', cur, cs, links);
  }

  /** A larger allowance of links makes no difference to a lookup that does not exhaust the smaller one. */
  lemma {:induction false} WalkAllowance(t: Tree, cur: Path, cs: seq<string>, links: nat, more: nat)
    requires Walk(t, cur, cs, links) != Missing(ELOOP) && links <= more
    ensures match Walk(t, cur, cs, links)
            case Missing(e) => Walk(t, cur, cs, more) == Missing(e)
            case Found(q, n) => Walk(t, cur, cs, more) == Found(q, n + (more - links))
    decreases links, |cs|
  {
    if cs != [] && IsDir(t, cur) {
      if cs[0] == "." {
        WalkAllowance(t, cur, cs[1..], links, more);
      } else if cs[0] == ".." {
        WalkAllowance(t, Up(cur), cs[1..], links, more);
      } else {
        var next := cur + [cs[0]];
        if next in t && !t[next].kind.Symlink? {
          WalkAllowance(t, next, cs[1..], links, more);
        } else if next in t {
          var target := t[next].kind.target;
          var start := if IsAbsolute(target) then [] else cur;
          WalkAllowance(t, start, Components(target) + cs[1..], links - 1, more - 1);
        }
      }
    }
  }

  /** A link that leads to no directory, by a lookup that does not give up, never leads to one. */
  lemma {:induction false} NotAWay(t: Tree, p: Path, links: nat)
    requires p != [] && p in t && !IsDir(t, p)
    requires !LeadsToDir(t, Up(p), Last(p), links) && Walk(t, Up(p), [Last(p)], links) != Missing(ELOOP)
    ensures !IsWay(t, p)
  {
    if n: nat :| LeadsToDir(t, Up(p), Last(p), n) {
      if n <= links {
        WalkAllowance(t, Up(p), [Last(p)], n, links);
      } else {
        WalkAllowance(t, Up(p), [Last(p)], links, n);
      }
    }
  }

  /** No link among the nodes of p below its first i components. */
  ghost predicate Plain(t: Tree, p: Path, i: nat) {
    forall k :: i < k <= |p| && p[..k] in t ==> !t[p[..k]].kind.Symlink?
  }

  /** Some node of p strictly above depth n, and not above depth i, is not a directory. */
  ghost predicate Blocked(t: Tree, p: Path, i: nat, n: int) {
    exists k :: i < k < n && k <= |p| && p[..k] in t && !IsDir(t, p[..k])
  }

  /** Lookup of p from its i-th directory when no link is on the way. */
  lemma {:induction false} WalkPlain(t: Tree, p: Path, i: nat, links: nat)
    requires Rooted(t) && Names(p) && i <= |p| && IsDir(t, p[..i]) && Plain(t, p, i)
    ensures Walk(t, p[..i], p[i..], links) ==
            if p in t then Found(p, links)
            else if Blocked(t, p, i, |p|) then Missing(ENOTDIR)
            else Missing(ENOENT)
    decreases |p| - i
  {
    if i == |p| {
      assert p[..i] == p && p[i..] == [];
    } else {
      var next := p[..i + 1];
      assert p[i..][0] == p[i] && p[..i] + [p[i]] == next && p[i..][1..] == p[i + 1..];
      assert Walk(t, p[..i], p[i..], links) == if next !in t then Missing(ENOENT) else Walk(t, next, p[i + 1..], links);
      if next !in t {
        forall k | i < k <= |p|
          ensures p[..k] !in t
        {
          assert k > i + 1 ==> p[..k][..i + 1] == next;
        }
        assert p[..|p|] == p;
      } else if IsDir(t, next) {
        WalkPlain(t, p, i + 1, links);
      } else if i + 1 == |p| {
        assert next == p;
      } else {
        assert p[..i + 1] in t;
      }
    }
  }

  /** A directory is found under its own components, and no link is followed. */
  lemma {:induction false} PlainLookup(t: Tree, d: Path, links: nat)
    requires Rooted(t) && IsDir(t, d)
    ensures Walk(t, [], d, links) == Found(d, links)
  {
    assert d[..0] == [] && d[0..] == d && d[..|d|] == d;
    assert forall k :: 0 < k < |d| ==> IsDir(t, d[..k]);
    WalkPlain(t, d, 0, links);
  }

  /** "." in a name changes nothing, and ".." takes the component before it away; above "/" there is "/" again. */
  lemma {:induction false} DotsInName(t: Tree, p: Path, rest: seq<string>, links: nat)
    requires Rooted(t) && IsDir(t, p)
    ensures Walk(t, [], p + (["."] + rest), links) == Walk(t, [], p + rest, links)
    ensures Walk(t, [], p + ([".."] + rest), links) ==
            Walk(t, [], (if p == [] then [] else p[..|p| - 1]) + rest, links)
  {
    var up := if p == [] then [] else p[..|p| - 1];
    assert IsDir(t, up) && Up(p) == up;
    PlainLookup(t, p, links);
    PlainLookup(t, up, links);
    WalkConcat(t, [], p, ["."] + rest, links);
    WalkConcat(t, [], p, [".."] + rest, links);
    WalkConcat(t, [], p, rest, links);
    WalkConcat(t, [], up, rest, links);
    assert (["."] + rest)[1..] == rest && ([".."] + rest)[1..] == rest;
  }

  /** A link in a name stands for its target: from "/" if that is absolute, else from the directory the link is in. */
  lemma {:induction false} LinkInName(t: Tree, q: Path, c: string, rest: seq<string>, links: nat)
    requires Rooted(t) && q + [c] in t && t[q + [c]].kind.Symlink?
    ensures var s := t[q + [c]].kind.target;
            Walk(t, [], q + ([c] + rest), links) ==
            if links == 0 then Missing(ELOOP)
            else Walk(t, [], (if s != "" && s[0] == '/' then [] else q) + (Components(s) + rest), links - 1)
  {
    var s, p := t[q + [c]].kind.target, q + [c];
    assert p[..|q|] == q && IsDir(t, q) && Name(p[|q|]);
    PlainLookup(t, q, links);
    WalkConcat(t, [], q, [c] + rest, links);
    assert ([c] + rest)[1..] == rest;
    if links > 0 {
      PlainLookup(t, q, links - 1);
      WalkConcat(t, [], q, Components(s) + rest, links - 1);
      assert [] + (Components(s) + rest) == Components(s) + rest;
    }
  }

  /** Each of the names is a link to the next one in the same directory q, and the last is a directory there. */
  ghost predicate Chained(t: Tree, q: Path, names: seq<string>) {
    && names != [] && IsDir(t, q) && IsDir(t, q + [Last(names)]) && Names(names)
    && forall k :: 0 <= k < |names| - 1 ==> q + [names[k]] in t && t[q + [names[k]]].kind == Symlink(names[k + 1])
  }

  lemma {:induction false} ChainFollowed(t: Tree, q: Path, names: seq<string>, links: nat)
    requires Chained(t, q, names)
    ensures Walk(t, q, [names[0]], links) ==
            if |names| - 1 <= links then Found(q + [Last(names)], links - (|names| - 1)) else Missing(ELOOP)
    decreases |names|
  {
    assert [names[0]][1..] == [] && Name(names[0]);
    assert |names| > 1 ==> t[q + [names[0]]].kind == Symlink(names[0 + 1]);
    if |names| > 1 && links > 0 {
      var rest := names[1..];
      ComponentsOfName(names[1]);
      assert Chained(t, q, rest) by {
        assert forall k :: 0 <= k < |rest| ==> rest[k] == names[k + 1];
      }
      ChainFollowed(t, q, rest, links - 1);
      assert !IsAbsolute(names[1]) && rest[0] == names[1] && Last(rest) == Last(names);
      assert Components(names[1]) + [names[0]][1..] == [rest[0]];
    }
  }

  /** A lookup goes through 40 links, and no more. */
  lemma {:induction false} FortyLinks(t: Tree, q: Path, names: seq<string>)
    requires Chained(t, q, names)
    ensures Stat(t, q, [names[0]]).Found? <==> |names| - 1 <= 40
    ensures |names| - 1 <= 40 ==> Stat(t, q, [names[0]]).at == q + [Last(names)]
    ensures |names| - 1 > 40 ==> Stat(t, q, [names[0]]) == Missing(ELOOP)
  {
    ChainFollowed(t, q, names, MAX_LINKS);
  }

  // ---------------------------------------------------------------- facts about trees

  lemma {:induction false} AddKeepsRooted(t: Tree, q: Path, c: string, node: Node)
    requires Rooted(t) && IsDir(t, q) && Name(c) && !IsDir(t, q + [c])
    requires !node.kind.Directory? ==> node.dev == t[q].dev
    ensures Rooted(t[q + [c] := node])
  {
    var p := q + [c];
    var t' := t[p := node];
    forall r, k {:trigger r[..k]} | r in t' && 0 <= k < |r|
      ensures IsDir(t', r[..k])
    {
      if r == p {
        assert r[..k] == q[..k];
        assert k == |q| ==> q[..k] == q;
      }
    }
    assert Up(p) == q;
    forall r | r in t' && r != [] && !IsDir(t', r)
      ensures t'[r].dev == t'[Up(r)].dev
    {
      if r != p {
        assert IsDir(t, r[..|r| - 1]);
      }
    }
  }

  lemma {:induction false} InnerHasChildren(t: Tree, p: Path, r: Path)
    requires Rooted(t) && r in t && |p| < |r| && r[..|p|] == p
    ensures HasChildren(t, p)
  {
    var c := r[..|p| + 1];
    assert |p| + 1 == |r| ==> c == r;
    assert c in t && c[..|p|] == p;
  }

  lemma {:induction false} DropKeepsRooted(t: Tree, p: Path)
    requires Rooted(t) && p in t && p != [] && (IsDir(t, p) ==> !HasChildren(t, p))
    ensures Rooted(Drop(t, p))
  {
    var t' := Drop(t, p);
    forall r, k {:trigger r[..k]} | r in t' && 0 <= k < |r|
      ensures IsDir(t', r[..k])
    {
      assert IsDir(t, r[..k]);
      if r[..k] == p {
        InnerHasChildren(t, p, r);
      }
    }
  }

  /** Changing permissions or owner keeps a state valid. */
  lemma {:induction false} RetagKeepsValid(fs: Fs, p: Path, node: Node)
    requires Valid(fs) && p in fs.tree
    requires node.kind == fs.tree[p].kind && SameInode(node, fs.tree[p])
    ensures Valid(fs.(tree := fs.tree[p := node]))
  {
    var fs' := fs.(tree := fs.tree[p := node]);
    forall a, b {:trigger SameInode(fs'.tree[a], fs'.tree[b])} |
      IsDir(fs'.tree, a) && IsDir(fs'.tree, b) && SameInode(fs'.tree[a], fs'.tree[b])
      ensures a == b
    {
      assert SameInode(fs.tree[a], fs.tree[b]);
    }
    forall a {:trigger fs'.tree[a].ino} | a in fs'.tree
      ensures fs'.tree[a].ino < fs'.next
    {
      assert fs'.tree[a].ino == fs.tree[a].ino;
    }
    forall a {:trigger fs'.tree[Up(a)]} | a in fs'.tree && a != [] && !IsDir(fs'.tree, a)
      ensures fs'.tree[a].dev == fs'.tree[Up(a)].dev
    {
      assert fs.tree[a].dev == fs.tree[Up(a)].dev;
    }
  }
}
