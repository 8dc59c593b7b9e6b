/** Cloning when links are on the way: how far the name leads, and what stands there. */
module CloneLinks {
  import opened Text
  import opened PathText
  import opened FileTree
  import opened ClonePath

  // ---------------------------------------------------------------- how far a name leads

  /** The number of leading components that lead to a directory. */
  function Reach(t: Tree, at: Path, cs: seq<string>): (n: nat)
    requires IsDir(t, at)
    ensures n <= |cs| && ResolvesToDir(t, at, cs[..n])
    ensures forall k :: n < k <= |cs| ==> !ResolvesToDir(t, at, cs[..k])
    decreases |cs|
  {
    if ResolvesToDir(t, at, cs) then
      assert cs[..|cs|] == cs;
      |cs|
    else
      var n := Reach(t, at, Up(cs));
      assert forall k :: 0 <= k < |cs| ==> Up(cs)[..k] == cs[..k];
      assert cs[..|cs|] == cs;
      n
  }

  /** The directory that those components lead to. */
  function Foot(t: Tree, at: Path, cs: seq<string>): Path
    requires IsDir(t, at)
  {
    Stat(t, at, cs[..Reach(t, at, cs)]).at
  }

  /** Where the name ends once everything that is missing beyond the foot is made there. */
  function Goal(t: Tree, at: Path, cs: seq<string>): Path
    requires IsDir(t, at)
  {
    Foot(t, at, cs) + cs[Reach(t, at, cs)..]
  }

  /** bs leads to the directory p[..i], and with the next component to no directory. */
  ghost predicate Furthest(t: Tree, at: Path, bs: seq<string>, p: Path, i: nat) {
    Leads(t, at, bs, p, i) && (i < |p| ==> !ResolvesToDir(t, at, bs + [p[i]]))
  }

  /**
   * Whether the clone stops, and why: at an entry beyond the foot that is, or leads to, a file (found), or is a
   * link that leads nowhere. Only right at the target or right above it is such an entry removed.
   */
  function Stop(t: Tree, at: Path, bs: seq<string>, p: Path, i: nat): Option<Errno>
    requires i <= |p|
  {
    if i == |p| || p[..i + 1] !in t then None
    else match Stat(t, at, bs + [p[i]])
      case Found(_, _) => if |p| - i > 2 then Some(ENOTDIR) else None
      case Missing(x) =>
        if x == ENOTDIR && |p| - i == 2 then None
        else if x == ENOENT && |p| - i > 1 then None
        else Some(x)
  }

  lemma {:induction false} NextStat(t: Tree, at: Path, bs: seq<string>, p: Path, i: nat)
    requires Leads(t, at, bs, p, i) && i < |p|
    ensures Stat(t, at, bs + [p[i]]) == Walk(t, p[..i], [p[i]], Stat(t, at, bs).links)
    ensures p[..i + 1] == p[..i] + [p[i]] && Up(p[..i + 1]) == p[..i] && Last(p[..i + 1]) == p[i] && Name(p[i])
  {
    WalkConcat(t, at, bs, [p[i]], MAX_LINKS);
  }

  /** The entry beyond the foot is no directory, and nothing hangs below it. */
  lemma {:induction false} BeyondFoot(t: Tree, at: Path, bs: seq<string>, p: Path, i: nat)
    requires Rooted(t) && Furthest(t, at, bs, p, i) && i < |p|
    ensures !IsDir(t, p[..i + 1])
    ensures forall k {:trigger p[..k]} :: i + 1 < k <= |p| ==> p[..k] !in t
  {
    NextStat(t, at, bs, p, i);
    assert [p[i]][1..] == [];
    forall k {:trigger p[..k]} | i + 1 < k <= |p|
      ensures p[..k] !in t
    {
      assert p[..k][..i + 1] == p[..i + 1];
    }
  }

  /** Whatever stands beyond the foot is on no way to a directory, unless following it is given up. */
  lemma {:induction false} FootEntryNoWay(t: Tree, at: Path, bs: seq<string>, p: Path, i: nat)
    requires Rooted(t) && Furthest(t, at, bs, p, i) && i < |p| && p[..i + 1] in t
    requires Stat(t, at, bs + [p[i]]) != Missing(ELOOP)
    ensures !IsWay(t, p[..i + 1])
  {
    NextStat(t, at, bs, p, i);
    BeyondFoot(t, at, bs, p, i);
    NotAWay(t, p[..i + 1], Stat(t, at, bs).links);
  }

  /** A clone of a chain beyond the foot keeps all ways to directories. */
  lemma {:induction false} WaysAfterCloned(fs: Fs, fs': Fs, at: Path, bs: seq<string>, p: Path, i: nat, d: Path,
                                           umask: Mode)
    requires Rooted(fs.tree) && Furthest(fs.tree, at, bs, p, i) && Cloned(fs, fs', p, i, d, umask)
    requires i < |p| && p[..i + 1] in fs.tree ==> Stat(fs.tree, at, bs + [p[i]]) != Missing(ELOOP)
    ensures SameWays(fs.tree, fs'.tree)
  {
    var t, t' := fs.tree, fs'.tree;
    if i < |p| {
      BeyondFoot(t, at, bs, p, i);
      if p[..i + 1] in t {
        FootEntryNoWay(t, at, bs, p, i);
      }
    }
    forall r | IsWay(t, r)
      ensures r in t' && t'[r].kind == t[r].kind
    {
      if OnChain(r, p, i) {
        assert r == p[..|r|];
        assert |r| == |p| == i;
        assert LinkCloned(fs, fs', p, |p|, d, umask);
      }
    }
  }

  // ---------------------------------------------------------------- no link beyond the foot

  lemma {:induction false} PlainBeyondFoot(t: Tree, at: Path, bs: seq<string>, p: Path, i: nat)
    requires Rooted(t) && Furthest(t, at, bs, p, i)
    requires i < |p| && p[..i + 1] in t ==> !t[p[..i + 1]].kind.Symlink?
    ensures Plain(t, p, i)
    ensures Blocked(t, p, i, |p| - 1) <==> Stop(t, at, bs, p, i) == Some(ENOTDIR)
    ensures Blocked(t, p, i, |p| - 1) || Stop(t, at, bs, p, i) == None
  {
    if i < |p| {
      BeyondFoot(t, at, bs, p, i);
      if p[..i + 1] in t {
        PlainNext(t, at, bs, p, i);
      }
    }
  }

  lemma {:induction false} PlainNext(t: Tree, at: Path, bs: seq<string>, p: Path, i: nat)
    requires Rooted(t) && Leads(t, at, bs, p, i) && i < |p| && p[..i + 1] in t && !t[p[..i + 1]].kind.Symlink?
    ensures Stat(t, at, bs + [p[i]]).Found? && Stat(t, at, bs + [p[i]]).at == p[..i + 1]
  {
    NextStat(t, at, bs, p, i);
    assert [p[i]][1..] == [];
  }

  // ---------------------------------------------------------------- a link beyond the foot

  /** The entry beyond the foot is a link, and stays one while it leads to no directory. */
  ghost predicate LinkThere(t: Tree, at: Path, bs: seq<string>, p: Path, i: nat) {
    Furthest(t, at, bs, p, i) && i < |p| && p[..i + 1] in t && t[p[..i + 1]].kind.Symlink?
  }

  /** Why a lookup through the entry beyond the foot fails. */
  function ThroughFailure(t: Tree, at: Path, bs: seq<string>, c: string): Errno {
    match Stat(t, at, bs + [c])
    case Missing(x) => x
    case Found(_, _) => ENOTDIR
  }

  /** The holder of the target, with the link on the way or as the target itself. */
  lemma {:induction false} HolderLink(t: Tree, at: Path, bs: seq<string>, p: Path, i: nat)
    requires Rooted(t) && LinkThere(t, at, bs, p, i)
    ensures Up(bs + p[i..]) == bs + Up(p)[i..] && Last(bs + p[i..]) == Last(p)
    ensures var h := Holder(t, at, bs + p[i..]);
            if i + 1 == |p| then h.Found? && h.at == Up(p)
            else h == Missing(ThroughFailure(t, at, bs, p[i]))
  {
    var q := Up(p);
    UpOfName(bs, p, i);
    if i + 1 == |p| {
      assert bs + q[i..] == bs;
    } else {
      var rest := q[i + 1..];
      assert bs + q[i..] == bs + [p[i]] + rest;
      WalkConcat(t, at, bs + [p[i]], rest, MAX_LINKS);
    }
  }

  lemma {:induction false} AimsAfterLinkDrop(fs: Fs, at: Path, bs: seq<string>, p: Path, i: nat)
    requires Valid(fs) && LinkThere(fs.tree, at, bs, p, i) && Stat(fs.tree, at, bs + [p[i]]) != Missing(ELOOP)
    ensures var fs1 := fs.(tree := Drop(fs.tree, p[..i + 1]));
            && Valid(fs1) && Aims(fs1.tree, at, bs, p, i) && SameWays(fs.tree, fs1.tree)
            && forall k {:trigger p[..k]} :: i < k <= |p| ==> p[..k] !in fs1.tree
  {
    BeyondFoot(fs.tree, at, bs, p, i);
    FootEntryNoWay(fs.tree, at, bs, p, i);
    DropKeepsRooted(fs.tree, p[..i + 1]);
    WalkWays(fs.tree, Drop(fs.tree, p[..i + 1]), at, bs, MAX_LINKS);
  }

  /** The link itself is the target: it is removed when it leads to a file, and fails the clone otherwise. */
  lemma {:induction false} LinkAsTarget(fs: Fs, at: Path, bs: seq<string>, p: Path, i: nat, d: Path, umask: Mode)
    requires Valid(fs) && LinkThere(fs.tree, at, bs, p, i) && Clean(bs + p[i..]) && i + 1 == |p| && IsDir(fs.tree, d)
    ensures match Stat(fs.tree, at, bs + p[i..])
            case Missing(x) => Clone(fs, at, bs + p[i..], d, umask) == Out(fs, Err(x))
            case Found(_, _) =>
              var fs1 := fs.(tree := Drop(fs.tree, p));
              Valid(fs1) && TryMkdir(fs, at, bs + p[i..], d, fs.tree[d], umask) ==
                            TryMkdir(fs1, at, bs + p[i..], d, fs.tree[d], umask)
  {
    var path := bs + p[i..];
    StatDonor(fs.tree, d);
    HolderLink(fs.tree, at, bs, p, i);
    assert p == Up(p) + [Last(p)] && p[..|p|] == p && path == bs + [p[i]];
    assert Name(Last(p));
    assert Mkdir(fs, at, path, fs.tree[d].mode, umask) == Out(fs, Err(EEXIST));
    if Stat(fs.tree, at, path).Found? {
      AimsAfterLinkDrop(fs, at, bs, p, i);
      UnlinkKeeps(fs, at, path);
    }
  }

  /** The link is right above the target: it is removed, unless following links is given up. */
  lemma {:induction false} LinkAsParent(fs: Fs, at: Path, bs: seq<string>, p: Path, i: nat, d: Path, umask: Mode)
    requires Valid(fs) && LinkThere(fs.tree, at, bs, p, i) && Clean(bs + p[i..]) && i + 2 == |p| && IsDir(fs.tree, d)
    ensures if Stat(fs.tree, at, bs + [p[i]]) == Missing(ELOOP)
            then Clone(fs, at, bs + p[i..], d, umask) == Out(fs, Err(ELOOP))
            else
              var fs1 := fs.(tree := Drop(fs.tree, Up(p)));
              Valid(fs1) && TryMkdir(fs, at, bs + p[i..], d, fs.tree[d], umask) ==
                            TryMkdir(fs1, at, bs + p[i..], d, fs.tree[d], umask)
  {
    StatDonor(fs.tree, d);
    HolderLink(fs.tree, at, bs, p, i);
    assert p[..i + 1] == Up(p);
    if Stat(fs.tree, at, bs + [p[i]]) != Missing(ELOOP) {
      AimsAfterLinkDrop(fs, at, bs, p, i);
      UnlinkLink(fs, at, bs, p, i);
      UnlinkKeeps(fs, at, bs + Up(p)[i..]);
    }
  }

  lemma {:induction false} UnlinkLink(fs: Fs, at: Path, bs: seq<string>, p: Path, i: nat)
    requires Valid(fs) && LinkThere(fs.tree, at, bs, p, i) && i + 2 == |p|
    ensures Unlink(fs, at, bs + Up(p)[i..]) == Out(fs.(tree := Drop(fs.tree, Up(p))), Ok)
  {
    var q := Up(p);
    assert q[..i + 1] == q == p[..i + 1] && q[i] == p[i];
    HolderLink(fs.tree, at, bs, q, i);
    assert q == Up(q) + [Last(q)];
    assert Name(Last(q));
  }

  /** The link is further up: the missing parent is cloned first, or the clone fails with nothing touched. */
  lemma {:induction false} LinkAbove(fs: Fs, at: Path, bs: seq<string>, p: Path, i: nat, d: Path, umask: Mode)
    requires Valid(fs) && LinkThere(fs.tree, at, bs, p, i) && Clean(bs + p[i..]) && i + 2 < |p| && IsDir(fs.tree, d)
    ensures var path, node := bs + p[i..], fs.tree[d];
            if ThroughFailure(fs.tree, at, bs, p[i]) != ENOENT
            then Clone(fs, at, path, d, umask) == Out(fs, Err(ThroughFailure(fs.tree, at, bs, p[i])))
            else Clean(Up(path)) && TryMkdir(fs, at, path, d, node, umask) ==
                 var c := Clone(fs, at, Up(path), Up(d), umask);
                 if c.ret.Ok? then TryMkdir(c.fs, at, path, d, node, umask) else c
  {
    StatDonor(fs.tree, d);
    HolderLink(fs.tree, at, bs, p, i);
    LinkOnParent(fs.tree, at, bs, p, i);
    HolderLink(fs.tree, at, bs, Up(p), i);
  }

  lemma {:induction false} LinkOnParent(t: Tree, at: Path, bs: seq<string>, p: Path, i: nat)
    requires LinkThere(t, at, bs, p, i) && i + 2 <= |p|
    ensures LinkThere(t, at, bs, Up(p), i) && Up(p)[i] == p[i]
  {
    assert Up(p)[..i + 1] == p[..i + 1] && Up(p)[..i] == p[..i];
  }

  // ---------------------------------------------------------------- exact outcome, links and all

  /** What a clone of a chain beyond the foot comes to. */
  ghost predicate Outcome(fs: Fs, at: Path, bs: seq<string>, p: Path, i: nat, d: Path, umask: Mode, o: Out)
    requires i <= |p|
  {
    match Stop(fs.tree, at, bs, p, i)
    case Some(x) => o == Out(fs, Err(x))
    case None => o.ret.Ok? && Cloned(fs, o.fs, p, i, d, umask)
  }

  /** With the link gone, the clone goes on as if it had never been there. */
  lemma {:induction false} CloneAfterLinkDrop(fs: Fs, fs1: Fs, at: Path, bs: seq<string>, p: Path, i: nat, d: Path,
                                              umask: Mode)
    requires Valid(fs) && LinkThere(fs.tree, at, bs, p, i) && Stat(fs.tree, at, bs + [p[i]]) != Missing(ELOOP)
    requires Clean(bs + p[i..]) && |p| <= i + 2 && IsDir(fs.tree, d)
    requires fs1 == fs.(tree := Drop(fs.tree, p[..i + 1])) && Valid(fs1)
    requires TryMkdir(fs, at, bs + p[i..], d, fs.tree[d], umask) == TryMkdir(fs1, at, bs + p[i..], d, fs.tree[d], umask)
    ensures Clone(fs, at, bs + p[i..], d, umask).ret.Ok?
    ensures Cloned(fs, Clone(fs, at, bs + p[i..], d, umask).fs, p, i, d, umask)
  {
    AimsAfterLinkDrop(fs, at, bs, p, i);
    assert p[..|p|] == p && Up(p) == p[..|p| - 1];
    if |p| == i + 1 {
      CloneFrom(fs, fs1, at, bs, p, i, d, umask);
      LeafClonedIsCloned(fs1, p, i, d, umask);
    } else {
      MissingParentCase(fs, fs1, at, bs, p, i, d, umask);
    }
    ClonedAfterDrop(fs, fs1, Clone(fs, at, bs + p[i..], d, umask).fs, p, i, p[..i + 1], d, umask);
  }

  lemma {:induction false} AimsAfterWays(fs: Fs, fs2: Fs, at: Path, bs: seq<string>, p: Path, i: nat, d: Path,
                                         umask: Mode)
    requires Leads(fs.tree, at, bs, p, i) && i < |Up(p)| && p !in fs.tree && SameWays(fs.tree, fs2.tree)
    requires Cloned(fs, fs2, Up(p), i, Up(d), umask)
    ensures Aims(fs2.tree, at, bs, p, i)
  {
    var q := Up(p);
    assert forall k :: 0 <= k <= |q| ==> q[..k] == p[..k];
    ParentCloned(fs, fs2, p, i, d, umask);
    WalkWays(fs.tree, fs2.tree, at, bs, MAX_LINKS);
    assert IsWay(fs.tree, at);
    assert p[..|p|] == p;
    forall k | i < k < |p|
      ensures IsDir(fs2.tree, p[..k])
    {
      assert LinkCloned(fs, fs2, q, k, Up(d), umask);
    }
  }

  /** A dangling link far above the target is removed when the missing parents are cloned. */
  lemma {:induction false} CloneAfterParent(fs: Fs, fs2: Fs, at: Path, bs: seq<string>, p: Path, i: nat, d: Path,
                                            umask: Mode)
    requires Valid(fs) && LinkThere(fs.tree, at, bs, p, i) && Clean(bs + p[i..]) && i + 2 < |p| && IsDir(fs.tree, d)
    requires Valid(fs2) && fs.next <= fs2.next && SameWays(fs.tree, fs2.tree)
    requires Cloned(fs, fs2, Up(p), i, Up(d), umask)
    requires TryMkdir(fs, at, bs + p[i..], d, fs.tree[d], umask) == TryMkdir(fs2, at, bs + p[i..], d, fs.tree[d], umask)
    ensures Clone(fs, at, bs + p[i..], d, umask).ret.Ok?
    ensures Cloned(fs, Clone(fs, at, bs + p[i..], d, umask).fs, p, i, d, umask)
  {
    BeyondFoot(fs.tree, at, bs, p, i);
    assert p[..|p|] == p && Up(p) == p[..|p| - 1];
    AimsAfterWays(fs, fs2, at, bs, p, i, d, umask);
    ClonedAfterParent(fs, fs2, p, i, d, umask);
    CloneFrom(fs, fs2, at, bs, p, i, d, umask);
  }

  /** The link is at the target or right above it. */
  lemma {:induction false} CloneNearLink(fs: Fs, at: Path, bs: seq<string>, p: Path, i: nat, d: Path, umask: Mode)
    requires Valid(fs) && LinkThere(fs.tree, at, bs, p, i) && Clean(bs + p[i..]) && |p| <= i + 2 && IsDir(fs.tree, d)
    ensures Outcome(fs, at, bs, p, i, d, umask, Clone(fs, at, bs + p[i..], d, umask))
  {
    if |p| == i + 1 {
      assert bs + p[i..] == bs + [p[i]] && p[..i + 1] == p;
      LinkAsTarget(fs, at, bs, p, i, d, umask);
    } else {
      assert Up(p) == p[..i + 1];
      LinkAsParent(fs, at, bs, p, i, d, umask);
    }
    if Stop(fs.tree, at, bs, p, i).None? {
      CloneAfterLinkDrop(fs, fs.(tree := Drop(fs.tree, p[..i + 1])), at, bs, p, i, d, umask);
    }
  }

  /** The link is further up, and the clone of the parent is as expected. */
  lemma {:induction false} CloneFarLink(fs: Fs, at: Path, bs: seq<string>, p: Path, i: nat, d: Path, umask: Mode)
    requires Valid(fs) && LinkThere(fs.tree, at, bs, p, i) && Clean(bs + p[i..]) && i + 2 < |p| && IsDir(fs.tree, d)
    requires Clean(bs + Up(p)[i..]) &&
             Outcome(fs, at, bs, Up(p), i, Up(d), umask, Clone(fs, at, bs + Up(p)[i..], Up(d), umask))
    ensures Outcome(fs, at, bs, p, i, d, umask, Clone(fs, at, bs + p[i..], d, umask))
  {
    LinkAbove(fs, at, bs, p, i, d, umask);
    UpOfName(bs, p, i);
    LinkOnParent(fs.tree, at, bs, p, i);
    if Stop(fs.tree, at, bs, p, i).None? {
      var fs2 := Clone(fs, at, bs + Up(p)[i..], Up(d), umask).fs;
      WaysAfterCloned(fs, fs2, at, bs, Up(p), i, Up(d), umask);
      CloneAfterParent(fs, fs2, at, bs, p, i, d, umask);
    }
  }

  lemma {:induction false} CloneThroughLink(fs: Fs, at: Path, bs: seq<string>, p: Path, i: nat, d: Path, umask: Mode)
    requires Valid(fs) && LinkThere(fs.tree, at, bs, p, i) && Clean(bs + p[i..]) && IsDir(fs.tree, d)
    ensures Outcome(fs, at, bs, p, i, d, umask, Clone(fs, at, bs + p[i..], d, umask))
    decreases |p|
  {
    if |p| <= i + 2 {
      CloneNearLink(fs, at, bs, p, i, d, umask);
    } else {
      LinkOnParent(fs.tree, at, bs, p, i);
      UpOfName(bs, p, i);
      assert Clean(Up(bs + p[i..]));
      assert Up(d) == d[..if d == [] then 0 else |d| - 1];
      CloneThroughLink(fs, at, bs, Up(p), i, Up(d), umask);
      CloneFarLink(fs, at, bs, p, i, d, umask);
    }
  }

  /**
   * The clone of a chain that starts at the foot of its name, whatever is in the way. It fails, and changes
   * nothing, exactly when it is stopped; else the chain is there and nothing else is touched, but for the one
   * entry beyond the foot.
   */
  lemma {:induction false} CloneTotal(fs: Fs, at: Path, bs: seq<string>, p: Path, i: nat, d: Path, umask: Mode)
    requires Valid(fs) && Furthest(fs.tree, at, bs, p, i) && Clean(bs + p[i..]) && IsDir(fs.tree, d)
    ensures Outcome(fs, at, bs, p, i, d, umask, Clone(fs, at, bs + p[i..], d, umask))
  {
    if LinkThere(fs.tree, at, bs, p, i) {
      CloneThroughLink(fs, at, bs, p, i, d, umask);
    } else {
      PlainBeyondFoot(fs.tree, at, bs, p, i);
      CloneExact(fs, at, bs, p, i, d, umask);
    }
  }
}
