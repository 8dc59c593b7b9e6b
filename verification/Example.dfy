/** Small systems with one bin, and what one call does there. */
module Example {
  import opened Text
  import opened PathText
  import opened FileTree
  import opened ClonePath
  import opened CloneLinks
  import opened MountPoint
  import opened Kernel
  import opened BinConfig
  import opened Recyclix
  import opened NoLoss
  import opened Mounts
  import opened Landing
  import opened RelativeBin
  import opened Corners
  import opened Runs

  function Folder(ino: nat): Node {
    Node(Directory, ino, 1, 0, 0, 0)
  }

  function File(ino: nat): Node {
    Node(Regular("x"), ino, 1, 0, 0, 0)
  }

  const BIN: Path := ["b"]
  const PROCESS := Process([], map[], 0)

  /** A value of RECYCLER, without a home directory. */
  function Recycler(s: string): Environment {
    Environment(Some(s), None, Regex(pattern => false, (pattern, name) => false))
  }

  const ENVIRONMENT := Recycler("/" + "b")

  /** One device, with /b on it, whose inode number no directory shares. */
  ghost predicate OneBin(fs: Fs) {
    && Valid(fs) && BIN in fs.tree && !fs.tree[BIN].kind.Symlink?
    && (forall p :: p in fs.tree ==> fs.tree[p].dev == 1)
    && (forall p :: IsDir(fs.tree, p) && fs.tree[p].ino == fs.tree[BIN].ino ==> p == BIN)
  }

  /** A file of one byte. */
  predicate Holds(fs: Fs, p: Path) {
    p in fs.tree && fs.tree[p].kind == Regular("x")
  }

  /** The call that deletes e by its absolute name. */
  function Deleted(fs: Fs, e: Path): Out
    requires Valid(fs) && Names(e) && e != []
  {
    ComponentsRender(e);
    assert IsDir(fs.tree, []);
    Unlinkat(fs, PROCESS, ENVIRONMENT, AT_FDCWD, Render(e), false)
  }

  lemma {:induction false} NamedSubject(fs: Fs, e: Path)
    requires Valid(fs) && e in fs.tree && e != []
    ensures Subject(fs, PROCESS, AT_FDCWD, Render(e), e)
  {
    ComponentsRender(e);
    ComponentsFlat(e);
    assert Up(e) == e[..|e| - 1];
    StatDonor(fs.tree, Up(e));
    assert e == Up(e) + [Last(e)];
    assert Name(Last(e));
  }

  lemma {:induction false} SlashName(c: string)
    requires Name(c)
    ensures Components("/" + c) == [c] && IsAbsolute("/" + c)
  {
    ComponentsSlash(c);
    ComponentsOfName(c);
  }

  /** RECYCLER is one item, and its bin fits a directory, or a file with contents. */
  lemma {:induction false} BinFits(fs: Fs, proc: Process, pathname: string, e: Path, s: string, bin: Path)
    requires e in fs.tree && fs.tree[e].kind in {Regular("x"), Directory} && bin in fs.tree
    requires StatText(fs.tree, proc.cwd, s) == Found(bin, MAX_LINKS) && !("~/" <= s)
    requires ':' !in s && ',' !in s && fs.tree[bin].dev == fs.tree[e].dev
    ensures ChoiceFor(fs, proc, Recycler(s), pathname, e) == Take(s, bin)
  {
    SplitNone(s, ':');
    assert Expand(s, None) == s;
    ItemParts(s, []);
  }

  lemma {:induction false} BinName(fs: Fs, s: string)
    requires OneBin(fs) && s == "/" + "b"
    ensures Components(s) == BIN && IsAbsolute(s)
    ensures Stat(fs.tree, [], BIN) == Found(BIN, MAX_LINKS)
  {
    SlashName("b");
    assert [] + ["b"] == BIN && BIN[1..] == [];
    assert Walk(fs.tree, BIN, [], MAX_LINKS) == Found(BIN, MAX_LINKS);
  }

  /** The bin fits a file, whoever names it and however. */
  lemma {:induction false} SlashBinFits(fs: Fs, proc: Process, pathname: string, e: Path, s: string)
    requires OneBin(fs) && e in fs.tree && fs.tree[e].kind in {Regular("x"), Directory} && s == "/" + "b"
    ensures ChoiceFor(fs, proc, Recycler(s), pathname, e) == Take(s, BIN)
  {
    BinName(fs, s);
    BinFits(fs, proc, pathname, e, s, BIN);
  }

  lemma {:induction false} RootIsMount(fs: Fs, e: Path)
    requires OneBin(fs) && e in fs.tree && e != [] && (e[0] != "b" || e == BIN)
    ensures ClimbTo(fs.tree, e, BIN) == Mount([]) && MountedOnce(fs.tree)
  {
    var t, ino := fs.tree, fs.tree[BIN].ino;
    ClimbExact(t, e, 1, ino);
    forall j: nat
      ensures !HitAt(t, e, j, 1, ino)
    {
      assert j < |e| ==> IsDir(t, e[..j]) && (j > 0 ==> e[..j][0] == e[0]);
    }
  }

  /** A file outside the bin is to go there. */
  lemma {:induction false} ToBeRecycled(fs: Fs, e: Path)
    requires OneBin(fs) && Holds(fs, e) && e != [] && e[0] != "b"
    ensures Subject(fs, PROCESS, AT_FDCWD, Render(e), e) && MountedOnce(fs.tree)
    ensures Recycles(fs, PROCESS, ENVIRONMENT, Render(e), e, "/" + "b", BIN, [])
    ensures IsAbsolute("/" + "b") && Components("/" + "b") == BIN && Destination("/" + "b", e, []) == BIN + e
    ensures Stat(fs.tree, [], BIN) == Found(BIN, MAX_LINKS)
    ensures IsDir(fs.tree, BIN) && Plain(fs.tree, Up(BIN + e), 1) ==>
              Usable(fs, PROCESS, ENVIRONMENT, Render(e), e)
  {
    NamedSubject(fs, e);
    BinName(fs, "/" + "b");
    SlashBinFits(fs, PROCESS, Render(e), e, "/" + "b");
    RootIsMount(fs, e);
    assert e[0..] == e;
  }

  // ---------------------------------------------------------------- trees written out

  /** Every node but "/" hangs in a directory of the tree. */
  ghost predicate Tidy(t: Tree) {
    && IsDir(t, [])
    && forall p :: p in t && p != [] ==> IsDir(t, Up(p)) && Name(Last(p))
  }

  lemma {:induction false} TidyPrefix(t: Tree, p: Path, k: nat)
    requires Tidy(t) && p in t && k < |p|
    ensures IsDir(t, p[..k]) && Name(p[k])
    decreases |p|
  {
    if k == |p| - 1 {
      assert p[..k] == Up(p);
    } else {
      TidyPrefix(t, Up(p), k);
      assert Up(p)[..k] == p[..k];
    }
  }

  lemma {:induction false} TidyRooted(t: Tree)
    requires Tidy(t)
    requires forall p {:trigger t[Up(p)]} :: p in t && p != [] && !IsDir(t, p) ==> t[p].dev == t[Up(p)].dev
    ensures Rooted(t)
  {
    forall p, k {:trigger p[..k]} | p in t && 0 <= k < |p|
      ensures IsDir(t, p[..k])
    {
      TidyPrefix(t, p, k);
    }
    forall p, k: nat | p in t && k < |p|
      ensures Name(p[k])
    {
      TidyPrefix(t, p, k);
    }
  }

  /** Every node is on the one device, under a number of its own. */
  ghost predicate OwnNumbers(fs: Fs) {
    && (forall p :: p in fs.tree ==> fs.tree[p].dev == 1 && fs.tree[p].ino < fs.next)
    && forall p, q {:trigger fs.tree[p].ino, fs.tree[q].ino} ::
         p in fs.tree && q in fs.tree && fs.tree[p].ino == fs.tree[q].ino ==> p == q
  }

  lemma {:induction false} TidyOneBin(fs: Fs)
    requires Tidy(fs.tree) && OwnNumbers(fs) && BIN in fs.tree && !fs.tree[BIN].kind.Symlink?
    ensures OneBin(fs)
  {
    TidyRooted(fs.tree);
    assert Numbered(fs) by {
      forall p, q {:trigger SameInode(fs.tree[p], fs.tree[q])} |
        IsDir(fs.tree, p) && IsDir(fs.tree, q) && SameInode(fs.tree[p], fs.tree[q])
        ensures p == q
      {
        assert fs.tree[p].ino == fs.tree[q].ino;
      }
    }
  }

  /** Inode numbers that are the positions of their nodes in a list. */
  lemma {:induction false} NumbersInOrder(fs: Fs, order: seq<Path>)
    requires |order| <= fs.next
    requires forall p :: p in fs.tree ==>
               fs.tree[p].dev == 1 && fs.tree[p].ino < |order| && order[fs.tree[p].ino] == p
    ensures OwnNumbers(fs)
  {
  }

  // ---------------------------------------------------------------- what the theorems say of such systems

  /** What is lost by a call on a file outside the bin, by the goal of its parent's recycled name. */
  lemma {:induction false} DeletedLoses(fs: Fs, e: Path, cs: seq<string>, a: Path)
    requires OneBin(fs) && Holds(fs, e) && e != [] && e[0] != "b" && cs == Up(BIN + e)
    requires WhyStopped(fs.tree, [], cs) == None && Foot(fs.tree, [], cs) in fs.tree && Holds(fs, a) && a != e
    ensures var q, i := Goal(fs.tree, [], cs), |Foot(fs.tree, [], cs)|;
            Lost(fs.tree, Deleted(fs, e).fs.tree, a) <==>
            (i < |q| && a == q[..i + 1]) || (a == q + [Last(e)] && fs.tree[a].ino != fs.tree[e].ino)
  {
    ToBeRecycled(fs, e);
    assert fs.tree[Foot(fs.tree, [], cs)].dev == fs.tree[e].dev;
    OthersLostIff(fs, PROCESS, ENVIRONMENT, AT_FDCWD, Render(e), e, false, "/" + "b", BIN, [], a);
  }

  /** And where the file goes. */
  lemma {:induction false} DeletedArrives(fs: Fs, e: Path, cs: seq<string>, p: Path)
    requires OneBin(fs) && Holds(fs, e) && e != [] && e[0] != "b" && cs == Up(BIN + e)
    requires WhyStopped(fs.tree, [], cs) == None && Foot(fs.tree, [], cs) in fs.tree
    requires !(e <= Goal(fs.tree, [], cs)) && p == Goal(fs.tree, [], cs) + [Last(e)]
    requires !IsDir(fs.tree, p) && (p in fs.tree ==> fs.tree[p].ino != fs.tree[e].ino)
    ensures Arrived(fs.tree, Deleted(fs, e).fs.tree, e, p)
  {
    ToBeRecycled(fs, e);
    SubjectLands(fs, PROCESS, ENVIRONMENT, AT_FDCWD, Render(e), e, false, "/" + "b", BIN, []);
  }

  // ---------------------------------------------------------------- a file recycled earlier is destroyed

  /** The bin holds the recycled file d; a directory /d has taken its old name. */
  const RENAMED := Fs(map[
    [] := Folder(0), ["b"] := Folder(1), ["d"] := Folder(2), ["b", "d"] := File(3), ["d", "f"] := File(4)], 5)

  lemma {:induction false} RenamedTidy()
    ensures Tidy(RENAMED.tree)
  {
    assert Up(["b"]) == [] && Up(["d"]) == [] && Up(["b", "d"]) == ["b"] && Up(["d", "f"]) == ["d"];
  }

  lemma {:induction false} RenamedOneBin()
    ensures OneBin(RENAMED)
  {
    NumbersInOrder(RENAMED, [[], ["b"], ["d"], ["b", "d"], ["d", "f"]]);
    RenamedTidy();
    TidyOneBin(RENAMED);
  }

  /** A file in the bin where the parent's clone belongs is lost. */
  lemma {:induction false} FileOfParentsName(fs: Fs, e: Path, a: Path)
    requires OneBin(fs) && IsDir(fs.tree, BIN) && Holds(fs, e) && |e| > 1 && e[0] != "b"
    requires Holds(fs, a) && a == Up(BIN + e) && Plain(fs.tree, a, 1)
    ensures Lost(fs.tree, Deleted(fs, e).fs.tree, a)
  {
    ToBeRecycled(fs, e);
    assert e[0..] == e && a[..1] == BIN && a[0] != e[0];
    OthersNotLost(fs, PROCESS, ENVIRONMENT, AT_FDCWD, Render(e), e, false, "/" + "b", BIN, [], a);
  }

  /** Deleting /d/f destroys the file that was recycled as /b/d. */
  lemma {:induction false} RecycledFileLost()
    ensures Valid(RENAMED) && Names(["d", "f"])
    ensures Lost(RENAMED.tree, Deleted(RENAMED, ["d", "f"]).fs.tree, ["b", "d"])
  {
    var e, a := ["d", "f"], ["b", "d"];
    RenamedOneBin();
    assert BIN + e == a + ["f"] && Up(a + ["f"]) == a && a[..2] == a;
    FileOfParentsName(RENAMED, e, a);
  }

  // ---------------------------------------------------------------- files outside the bin are destroyed

  /** The bin holds the recycled link a, which leads to a directory. */
  ghost predicate LinkedAway(fs: Fs, to: Path) {
    && OneBin(fs) && IsDir(fs.tree, BIN) && IsDir(fs.tree, to)
    && ["b", "a"] in fs.tree && fs.tree[["b", "a"]].kind == Symlink(Render(to))
  }

  /** The link a of the bin leads to /o; a directory /a with a file /a/d/f, and a file /o/d. */
  const DEEP := Fs(map[
    [] := Folder(0), ["b"] := Folder(1), ["o"] := Folder(2), ["a"] := Folder(3),
    ["b", "a"] := Node(Symlink(Render(["o"])), 4, 1, 0, 0, 0),
    ["o", "d"] := File(5), ["a", "d"] := Folder(6), ["a", "d", "f"] := File(7)], 8)

  lemma {:induction false} DeepTidy()
    ensures Tidy(DEEP.tree)
  {
    assert Up(["b"]) == [] && Up(["o"]) == [] && Up(["a"]) == [];
    assert Up(["b", "a"]) == ["b"] && Up(["o", "d"]) == ["o"] && Up(["a", "d"]) == ["a"];
    assert Up(["a", "d", "f"]) == ["a", "d"];
  }

  lemma {:induction false} DeepNumbers()
    ensures OwnNumbers(DEEP)
  {
    NumbersInOrder(DEEP, [[], ["b"], ["o"], ["a"], ["b", "a"], ["o", "d"], ["a", "d"], ["a", "d", "f"]]);
  }

  lemma {:induction false} DeepOneBin()
    ensures OneBin(DEEP)
  {
    DeepNumbers();
    DeepTidy();
    TidyOneBin(DEEP);
  }

  /** The same link, and the files /a/x and /o/x. */
  const SAME_NAME := Fs(map[
    [] := Folder(0), ["b"] := Folder(1), ["o"] := Folder(2), ["a"] := Folder(3),
    ["b", "a"] := Node(Symlink(Render(["o"])), 4, 1, 0, 0, 0), ["o", "x"] := File(5), ["a", "x"] := File(6)], 7)

  lemma {:induction false} SameNameTidy()
    ensures Tidy(SAME_NAME.tree)
  {
    assert Up(["b"]) == [] && Up(["o"]) == [] && Up(["a"]) == [];
    assert Up(["b", "a"]) == ["b"] && Up(["o", "x"]) == ["o"] && Up(["a", "x"]) == ["a"];
  }

  lemma {:induction false} SameNameNumbers()
    ensures OwnNumbers(SAME_NAME)
  {
    NumbersInOrder(SAME_NAME, [[], ["b"], ["o"], ["a"], ["b", "a"], ["o", "x"], ["a", "x"]]);
  }

  lemma {:induction false} SameNameOneBin()
    ensures OneBin(SAME_NAME)
  {
    SameNameNumbers();
    SameNameTidy();
    TidyOneBin(SAME_NAME);
  }

  /** The name /b/a leads to where the link does. */
  lemma {:induction false} LinkLeads(fs: Fs, to: Path, name: seq<string>)
    requires LinkedAway(fs, to) && name == ["b", "a"]
    ensures Stat(fs.tree, [], name) == Found(to, MAX_LINKS - 1)
  {
    var t := fs.tree;
    ComponentsRender(to);
    PlainLookup(t, to, MAX_LINKS - 1);
    assert to + ["a"][1..] == to;
    assert name[1..] == ["a"] && ["b"] + ["a"] == name && [] + ["b"] == ["b"];
    assert Walk(t, ["b"], ["a"], MAX_LINKS) == Walk(t, [], to, MAX_LINKS - 1);
  }

  /** And from there on to a file. */
  lemma {:induction false} LinkLeadsOn(fs: Fs, to: Path, name: seq<string>, c: string)
    requires LinkedAway(fs, to) && name == ["b", "a"] && Holds(fs, to + [c]) && Name(c)
    ensures Stat(fs.tree, [], name + [c]) == Found(to + [c], MAX_LINKS - 1)
  {
    LinkLeads(fs, to, name);
    assert [c][1..] == [];
    WalkConcat(fs.tree, [], name, [c], MAX_LINKS);
  }

  /** The goal of a file right behind the link is where the link leads. */
  lemma {:induction false} GoalAtLink(fs: Fs, to: Path, cs: seq<string>)
    requires LinkedAway(fs, to) && cs == ["b", "a"]
    ensures Goal(fs.tree, [], cs) == to == Foot(fs.tree, [], cs) && WhyStopped(fs.tree, [], cs) == None
  {
    LinkLeads(fs, to, cs);
    assert cs[..2] == cs && to + cs[2..] == to;
  }

  /** The goal of a file one directory further, where there is a file behind the link. */
  lemma {:induction false} GoalBehindLink(fs: Fs, to: Path, name: seq<string>, c: string)
    requires LinkedAway(fs, to) && name == ["b", "a"] && Holds(fs, to + [c]) && Name(c)
    ensures var cs := name + [c];
            Goal(fs.tree, [], cs) == to + [c] && Foot(fs.tree, [], cs) == to && WhyStopped(fs.tree, [], cs) == None
  {
    var t, cs, a := fs.tree, name + [c], to + [c];
    LinkLeads(fs, to, name);
    LinkLeadsOn(fs, to, name, c);
    assert cs[..3] == cs && cs[..2] == name && cs[2..] == [c];
    assert !ResolvesToDir(t, [], cs) && ResolvesToDir(t, [], cs[..2]);
    assert Reach(t, [], cs) == 2;
    assert a[..|a|] == a && cs[..2] + [c] == cs;
  }

  /** Deleting /a/d/f destroys /o/d, outside the bin, and the deleted file goes to /o/d/f. */
  lemma {:induction false} OutsideFileUnlinked()
    ensures Valid(DEEP) && Names(["a", "d", "f"])
    ensures Lost(DEEP.tree, Deleted(DEEP, ["a", "d", "f"]).fs.tree, ["o", "d"])
    ensures Arrived(DEEP.tree, Deleted(DEEP, ["a", "d", "f"]).fs.tree, ["a", "d", "f"], ["o", "d", "f"])
  {
    DeepOneBin();
    assert ["o"] + ["d"] == ["o", "d"];
    UnlinkedOutside(DEEP, ["a", "d", "f"], ["o", "d"], ["o", "d", "f"]);
  }

  lemma {:induction false} UnlinkedOutside(fs: Fs, e: Path, a: Path, p: Path)
    requires LinkedAway(fs, ["o"]) && Holds(fs, e) && Holds(fs, a)
    requires e == ["a", "d", "f"] && a == ["o", "d"] && p == ["o", "d", "f"]
    ensures Lost(fs.tree, Deleted(fs, e).fs.tree, a) && Arrived(fs.tree, Deleted(fs, e).fs.tree, e, p)
  {
    var cs := ["b", "a"] + ["d"];
    assert ["o"] + ["d"] == a;
    GoalBehindLink(fs, ["o"], ["b", "a"], "d");
    assert BIN + e == cs + ["f"] && Up(cs + ["f"]) == cs && a + [Last(e)] == p && a[..2] == a;
    DeletedLoses(fs, e, cs, a);
    assert p !in fs.tree by { assert p[..2] == a; }
    assert e[0] != a[0];
    DeletedArrives(fs, e, cs, p);
  }

  /** Deleting /a/x replaces /o/x, outside the bin, by it. */
  lemma {:induction false} OutsideFileReplaced()
    ensures Valid(SAME_NAME) && Names(["a", "x"])
    ensures Lost(SAME_NAME.tree, Deleted(SAME_NAME, ["a", "x"]).fs.tree, ["o", "x"])
    ensures Arrived(SAME_NAME.tree, Deleted(SAME_NAME, ["a", "x"]).fs.tree, ["a", "x"], ["o", "x"])
  {
    var e, a, cs := ["a", "x"], ["o", "x"], ["b", "a"];
    SameNameOneBin();
    GoalAtLink(SAME_NAME, ["o"], cs);
    assert BIN + e == cs + ["x"] && Up(cs + ["x"]) == cs && a == ["o"] + [Last(e)];
    DeletedLoses(SAME_NAME, e, cs, a);
    DeletedArrives(SAME_NAME, e, cs, a);
  }

  // ---------------------------------------------------------------- the deleted file itself is destroyed

  /** The link a of the bin leads to /a/f, the directory of the file /a/f/f. */
  const LOOPED := Fs(map[
    [] := Folder(0), ["b"] := Folder(1), ["a"] := Folder(2), ["a", "f"] := Folder(3),
    ["b", "a"] := Node(Symlink(Render(["a", "f"])), 4, 1, 0, 0, 0), ["a", "f", "f"] := File(5)], 6)

  lemma {:induction false} LoopedTidy()
    ensures Tidy(LOOPED.tree)
  {
    assert Up(["b"]) == [] && Up(["a"]) == [] && Up(["b", "a"]) == ["b"] && Up(["a", "f"]) == ["a"];
    assert Up(["a", "f", "f"]) == ["a", "f"];
  }

  lemma {:induction false} LoopedNumbers()
    ensures OwnNumbers(LOOPED)
  {
    NumbersInOrder(LOOPED, [[], ["b"], ["a"], ["a", "f"], ["b", "a"], ["a", "f", "f"]]);
  }

  lemma {:induction false} LoopedOneBin()
    ensures OneBin(LOOPED)
  {
    LoopedNumbers();
    LoopedTidy();
    TidyOneBin(LOOPED);
  }

  /** Deleting /a/f/f fails, and destroys it: a directory is made in its place. */
  lemma {:induction false} SubjectDestroyed()
    ensures Valid(LOOPED) && Names(["a", "f", "f"])
    ensures Deleted(LOOPED, ["a", "f", "f"]).ret.Err?
    ensures Lost(LOOPED.tree, Deleted(LOOPED, ["a", "f", "f"]).fs.tree, ["a", "f", "f"])
  {
    LoopedOneBin();
    DestroyedOnOwnWay(LOOPED, ["a", "f"], ["a", "f", "f"]);
  }

  lemma {:induction false} DestroyedOnOwnWay(fs: Fs, to: Path, e: Path)
    requires LinkedAway(fs, to) && to == ["a", "f"] && e == ["a", "f", "f"] && Holds(fs, e)
    ensures Deleted(fs, e).ret.Err? && Lost(fs.tree, Deleted(fs, e).fs.tree, e)
  {
    var cs := ["b", "a"] + ["f"];
    assert to + ["f"] == e;
    GoalBehindLink(fs, to, ["b", "a"], "f");
    assert BIN + e == cs + ["f"] && Up(cs + ["f"]) == cs;
    DeletedFails(fs, e, cs);
  }

  /** A file that is its own goal is replaced by a directory. */
  lemma {:induction false} DeletedFails(fs: Fs, e: Path, cs: seq<string>)
    requires OneBin(fs) && Holds(fs, e) && e != [] && e[0] != "b" && cs == Up(BIN + e)
    requires WhyStopped(fs.tree, [], cs) == None && Goal(fs.tree, [], cs) == e
    ensures Deleted(fs, e).ret.Err? && Lost(fs.tree, Deleted(fs, e).fs.tree, e)
  {
    ToBeRecycled(fs, e);
    SubjectLands(fs, PROCESS, ENVIRONMENT, AT_FDCWD, Render(e), e, false, "/" + "b", BIN, []);
  }

  // ---------------------------------------------------------------- a file goes to the place of another

  /** The link a of the bin leads to the bin's directory /b/c; there is a file /a/x. */
  const CROSSED := Fs(map[
    [] := Folder(0), ["b"] := Folder(1), ["b", "c"] := Folder(2), ["a"] := Folder(3),
    ["b", "a"] := Node(Symlink(Render(["b", "c"])), 4, 1, 0, 0, 0), ["a", "x"] := File(5)], 6)

  lemma {:induction false} CrossedTidy()
    ensures Tidy(CROSSED.tree)
  {
    assert Up(["b"]) == [] && Up(["a"]) == [] && Up(["b", "a"]) == ["b"] && Up(["b", "c"]) == ["b"];
    assert Up(["a", "x"]) == ["a"];
  }

  lemma {:induction false} CrossedNumbers()
    ensures OwnNumbers(CROSSED)
  {
    NumbersInOrder(CROSSED, [[], ["b"], ["b", "c"], ["a"], ["b", "a"], ["a", "x"]]);
  }

  lemma {:induction false} CrossedOneBin()
    ensures OneBin(CROSSED)
  {
    CrossedNumbers();
    CrossedTidy();
    TidyOneBin(CROSSED);
  }

  /** Deleting /a/x puts it at /b/c/x, which stands for the path /c/x. */
  lemma {:induction false} OriginCrossed()
    ensures Valid(CROSSED) && Names(["a", "x"])
    ensures Arrived(CROSSED.tree, Deleted(CROSSED, ["a", "x"]).fs.tree, ["a", "x"], ["b", "c", "x"])
    ensures Above(BIN, ["b", "c", "x"]) && Origin(Home(BIN, []), ["b", "c", "x"]) == ["c", "x"]
  {
    CrossedOneBin();
    CrossesOver(CROSSED, ["b", "c"], ["a", "x"], ["b", "c", "x"]);
    assert ["b", "c", "x"][..1] == BIN && ["b", "c", "x"][1..] == ["c", "x"];
  }

  lemma {:induction false} CrossesOver(fs: Fs, to: Path, e: Path, p: Path)
    requires LinkedAway(fs, to) && to == ["b", "c"] && e == ["a", "x"] && p == ["b", "c", "x"]
    requires Holds(fs, e) && p !in fs.tree
    ensures Arrived(fs.tree, Deleted(fs, e).fs.tree, e, p)
  {
    var cs := ["b", "a"];
    GoalAtLink(fs, to, cs);
    assert BIN + e == cs + ["x"] && Up(cs + ["x"]) == cs && p == to + [Last(e)];
    assert e[0] != to[0];
    DeletedArrives(fs, e, cs, p);
  }

  // ---------------------------------------------------------------- a bin that is a file

  /** /b is a file, and there is a file /f. */
  const FILE_BIN := Fs(map[[] := Folder(0), ["b"] := File(1), ["f"] := File(2)], 3)

  /** Deleting /f makes a directory of the file /b. */
  lemma {:induction false} BinLost()
    ensures Valid(FILE_BIN) && Names(["f"]) && Lost(FILE_BIN.tree, Deleted(FILE_BIN, ["f"]).fs.tree, BIN)
  {
    FileBinOneBin();
    FileBinDestroyed(FILE_BIN, ["f"]);
  }

  lemma {:induction false} FileBinOneBin()
    ensures OneBin(FILE_BIN)
  {
    assert Up(["b"]) == [] && Up(["f"]) == [];
    NumbersInOrder(FILE_BIN, [[], ["b"], ["f"]]);
    TidyOneBin(FILE_BIN);
  }

  lemma {:induction false} FileBinDestroyed(fs: Fs, e: Path)
    requires OneBin(fs) && Holds(fs, BIN) && Holds(fs, e) && e != [] && e[0] != "b"
    ensures Lost(fs.tree, Deleted(fs, e).fs.tree, BIN) <==> |e| <= 2
  {
    ToBeRecycled(fs, e);
    assert Up(BIN) == [] && [] + [Last(BIN)] == BIN;
    BinFileDestroyed(fs, PROCESS, ENVIRONMENT, AT_FDCWD, Render(e), e, false, "/" + "b", BIN, []);
  }

  // ---------------------------------------------------------------- a file taken for one in the bin

  /** A bin /m/b on a file system mounted at /m, whose inode number is also that of "/", and a file /m/f. */
  const COLLIDING := Fs(map[
    [] := Node(Directory, 7, 1, 0, 0, 0), ["m"] := Node(Directory, 2, 2, 0, 0, 0),
    ["m", "b"] := Node(Directory, 7, 2, 0, 0, 0), ["m", "f"] := Node(Regular("x"), 9, 2, 0, 0, 0)], 10)

  lemma {:induction false} CollidingTidy()
    ensures Tidy(COLLIDING.tree)
  {
    assert Up(["m"]) == [] && Up(["m", "b"]) == ["m"] && Up(["m", "f"]) == ["m"];
  }

  lemma {:induction false} CollidingMounts(t: Tree)
    requires t == COLLIDING.tree
    ensures MountedOnce(t)
  {
    assert Up(["m", "b"]) == ["m"] && Up(["m", "f"]) == ["m"];
    assert !IsMountPoint(t, ["m", "b"]) && !IsMountPoint(t, ["m", "f"]);
    assert forall p :: p in t ==> p in {[], ["m"], ["m", "b"], ["m", "f"]};
  }

  lemma {:induction false} CollidingNumbered()
    ensures Numbered(COLLIDING)
  {
  }

  lemma {:induction false} CollidingRooted()
    ensures Rooted(COLLIDING.tree)
  {
    CollidingTidy();
    forall p {:trigger COLLIDING.tree[Up(p)]} | p in COLLIDING.tree && p != [] && !IsDir(COLLIDING.tree, p)
      ensures COLLIDING.tree[p].dev == COLLIDING.tree[Up(p)].dev
    {
      assert p == ["m", "f"] && Up(["m", "f"]) == ["m"];
    }
    TidyRooted(COLLIDING.tree);
  }

  lemma {:induction false} CollidingValid()
    ensures Valid(COLLIDING) && MountedOnce(COLLIDING.tree)
  {
    CollidingMounts(COLLIDING.tree);
    CollidingNumbered();
    CollidingRooted();
  }

  lemma {:induction false} CollidingClimb()
    ensures Rooted(COLLIDING.tree) && ClimbTo(COLLIDING.tree, ["m", "f"], ["m", "b"]) == UnderBin
  {
    CollidingValid();
    assert ["m", "f"][..1] == ["m"] && ["m"][..0] == [];
    assert ClimbFrom(COLLIDING.tree, ["m"], 2, 7) == UnderBin;
  }

  lemma {:induction false} CollidingBinName()
    ensures Render(["m", "b"]) == "/m/b"
  {
    assert ["m", "b"][..1] == ["m"] && ["m"][..0] == [];
    assert Flat(["m"]) == "" + "/" + "m";
  }

  /** Deleting /m/f, which is outside the bin, removes it for good. */
  lemma {:induction false} InodeCollision()
    ensures Valid(COLLIDING) && !Above(["m", "b"], ["m", "f"]) && Components(Render(["m", "f"])) != []
    ensures Unlinkat(COLLIDING, PROCESS, Recycler("/m/b"), AT_FDCWD, Render(["m", "f"]), false) ==
            Out(COLLIDING.(tree := Drop(COLLIDING.tree, ["m", "f"])), Ok)
  {
    CollidingValid();
    CollidingClimb();
    CollidingBinName();
    TakenForBin(COLLIDING, ["m", "f"], ["m", "b"], "/m/b");
  }

  lemma {:induction false} TakenForBin(fs: Fs, e: Path, bin: Path, s: string)
    requires Valid(fs) && Holds(fs, e) && e != [] && IsDir(fs.tree, bin) && fs.tree[bin].dev == fs.tree[e].dev
    requires s == Render(bin) && ':' !in s && ',' !in s && ClimbTo(fs.tree, e, bin) == UnderBin
    ensures Components(Render(e)) != []
    ensures Unlinkat(fs, PROCESS, Recycler(s), AT_FDCWD, Render(e), false) ==
            Out(fs.(tree := Drop(fs.tree, e)), Ok)
  {
    NamedSubject(fs, e);
    ComponentsRender(bin);
    StatDonor(fs.tree, bin);
    BinFits(fs, PROCESS, Render(e), e, s, bin);
    ForGoodExact(fs, PROCESS, Recycler(s), AT_FDCWD, Render(e), e, false);
  }

  // ---------------------------------------------------------------- an empty bin

  /** The bin /b of START is empty, but it cannot be removed. */
  lemma {:induction false} EmptyBinStays()
    ensures Valid(START) && !HasChildren(START.tree, BIN) && Components(Render(BIN)) != []
    ensures Unlinkat(START, PROCESS, ENVIRONMENT, AT_FDCWD, Render(BIN), true).ret.Err?
  {
    StartOneBin();
    BinNotRemoved(START);
  }

  lemma {:induction false} BinNotRemoved(fs: Fs)
    requires OneBin(fs) && IsDir(fs.tree, BIN) && !HasChildren(fs.tree, BIN) && ["b", "b"] !in fs.tree
    ensures Components(Render(BIN)) != []
    ensures Unlinkat(fs, PROCESS, ENVIRONMENT, AT_FDCWD, Render(BIN), true).ret.Err?
  {
    var p := ["b", "b"];
    NamedSubject(fs, BIN);
    BinName(fs, "/" + "b");
    SlashBinFits(fs, PROCESS, Render(BIN), BIN, "/" + "b");
    RootIsMount(fs, BIN);
    assert Up(BIN) == [] && BIN[0..] == BIN && BIN + BIN == p;
    assert Place(BIN, BIN, []) == p && p[..2] == p;
    assert !IsMountPoint(fs.tree, BIN);
    RmdirSucceedsIff(fs, PROCESS, ENVIRONMENT, AT_FDCWD, Render(BIN), BIN, "/" + "b", BIN, []);
  }

  // ---------------------------------------------------------------- a first run

  /** An empty bin /b and a file /f. */
  const START := Fs(map[[] := Folder(0), ["b"] := Folder(1), ["f"] := File(2)], 3)

  lemma {:induction false} StartOneBin()
    ensures OneBin(START)
  {
    assert Up(["b"]) == [] && Up(["f"]) == [];
    NumbersInOrder(START, [[], ["b"], ["f"]]);
    TidyOneBin(START);
  }

  const FIRST: Step := Call(PROCESS, ENVIRONMENT, AT_FDCWD, Render(["f"]), false)
  const LAYOUT: Layout := map[1 := Home(BIN, [])]

  /** Nothing is on the way to the place p in the bin. */
  ghost predicate Vacant(t: Tree, p: Path) {
    forall k :: 1 < k <= |p| ==> p[..k] !in t
  }

  /** With nothing on the way in the bin a file goes to its place. */
  lemma {:induction false} FileArrives(fs: Fs, e: Path)
    requires OneBin(fs) && IsDir(fs.tree, BIN) && Holds(fs, e) && e != [] && e[0] != "b" && Vacant(fs.tree, BIN + e)
    ensures Usable(fs, PROCESS, ENVIRONMENT, Render(e), e)
    ensures Arrived(fs.tree, Deleted(fs, e).fs.tree, e, BIN + e)
  {
    var p := BIN + e;
    ToBeRecycled(fs, e);
    assert Place(BIN, e, []) == p by { assert e[0..] == e; }
    VacantWay(fs, p);
    RecycleSucceedsIff(fs, PROCESS, ENVIRONMENT, AT_FDCWD, Render(e), e, false, "/" + "b", BIN, []);
    SubjectNotLost(fs, PROCESS, ENVIRONMENT, AT_FDCWD, Render(e), e, false, "/" + "b", BIN, []);
  }

  lemma {:induction false} VacantWay(fs: Fs, p: Path)
    requires OneBin(fs) && |p| > 1 && p[0] == "b" && Vacant(fs.tree, p)
    ensures Plain(fs.tree, Up(p), 1) && !Blocked(fs.tree, Up(p), 1, |Up(p)| - 1)
    ensures p !in fs.tree && WayOnDevice(fs.tree, p, 1, 1)
  {
    assert p[..|p|] == p;
    assert forall k :: 0 <= k <= |Up(p)| ==> Up(p)[..k] == p[..k];
  }

  lemma {:induction false} TopFileArrives(fs: Fs, e: Path)
    requires OneBin(fs) && IsDir(fs.tree, BIN) && Holds(fs, e) && |e| == 1 && e[0] != "b" && BIN + e !in fs.tree
    ensures Usable(fs, PROCESS, ENVIRONMENT, Render(e), e)
    ensures Arrived(fs.tree, Deleted(fs, e).fs.tree, e, BIN + e)
  {
    assert (BIN + e)[..2] == BIN + e;
    assert Vacant(fs.tree, BIN + e);
    FileArrives(fs, e);
  }

  lemma {:induction false} TopFileAllowed(w: World, e: Path, layout: Layout)
    requires OneBin(w.fs) && IsDir(w.fs.tree, BIN) && Holds(w.fs, e) && |e| == 1 && e[0] != "b"
    requires BIN + e !in w.fs.tree && layout == map[1 := Home(BIN, [])]
    ensures Allowed(w, Call(PROCESS, ENVIRONMENT, AT_FDCWD, Render(e), false), layout)
  {
    ToBeRecycled(w.fs, e);
    TopFileArrives(w.fs, e);
    PlainCallAllowed(w, Call(PROCESS, ENVIRONMENT, AT_FDCWD, Render(e), false), layout, e, "/" + "b", BIN, []);
  }

  lemma {:induction false} OneStep(w: World, s: Step, layout: Layout)
    requires Allowed(w, s, layout) && s.Call?
    ensures Run(w, [s], layout) && End(w, [s], layout).fs == CallOut(w, s).fs
  {
    assert [s][..0] == [];
    assert Run(w, [], layout) && End(w, [], layout) == w;
  }

  lemma {:induction false} StartFresh()
    ensures Fresh(World(START, map[]), LAYOUT)
  {
    StartOneBin();
    RootIsMount(START, ["f"]);
    assert MountOf(START.tree, [], 1);
    assert !Above(BIN, ["f"]);
  }

  /** The theorems on runs are about something: after the first call the bin holds the file at its place. */
  lemma {:induction false} FirstRun()
    ensures Fresh(World(START, map[]), LAYOUT) && Run(World(START, map[]), [FIRST], LAYOUT)
    ensures InBin(End(World(START, map[]), [FIRST], LAYOUT).fs.tree, LAYOUT, 1, ["b", "f"])
    ensures Origin(LAYOUT[1], ["b", "f"]) == ["f"]
  {
    var w, p := World(START, map[]), ["b", "f"];
    StartFresh();
    StartOneBin();
    assert BIN + ["f"] == p && p[..1] == BIN && p[1..] == ["f"];
    TopFileAllowed(w, ["f"], LAYOUT);
    OneStep(w, FIRST, LAYOUT);
    TopFileArrives(START, ["f"]);
  }

  // ---------------------------------------------------------------- relative names

  /** An empty bin /b, a directory /h with a file /h/f, and a file /f. */
  const HERE := Fs(map[
    [] := Folder(0), ["b"] := Folder(1), ["h"] := Folder(2), ["f"] := File(3), ["h", "f"] := File(4)], 5)

  lemma {:induction false} HereTidy()
    ensures Tidy(HERE.tree)
  {
    assert Up(["b"]) == [] && Up(["h"]) == [] && Up(["f"]) == [] && Up(["h", "f"]) == ["h"];
  }

  lemma {:induction false} HereNumbers()
    ensures OwnNumbers(HERE)
  {
    NumbersInOrder(HERE, [[], ["b"], ["h"], ["f"], ["h", "f"]]);
  }

  lemma {:induction false} HereOneBin()
    ensures OneBin(HERE)
  {
    HereNumbers();
    HereTidy();
    TidyOneBin(HERE);
  }

  /** Its last component from its own directory names a file as well as its absolute name does. */
  lemma {:induction false} DeletedFrom(fs: Fs, proc: Process, d: Path, c: string)
    requires OneBin(fs) && IsDir(fs.tree, d) && Name(c) && Holds(fs, d + [c]) && (d + [c])[0] != "b"
    requires proc == Process(d, map[], 0)
    ensures Components(c) != []
    ensures Unlinkat(fs, proc, ENVIRONMENT, AT_FDCWD, c, false) == Deleted(fs, d + [c])
  {
    var e := d + [c];
    ToBeRecycled(fs, e);
    PlainName(fs.tree, proc, AT_FDCWD, d, c);
    assert Subject(fs, proc, AT_FDCWD, c, e);
    SlashBinFits(fs, proc, c, e, "/" + "b");
    SpellingDoesNotMatter(fs, e, PROCESS, ENVIRONMENT, AT_FDCWD, Render(e), false,
                          proc, ENVIRONMENT, AT_FDCWD, c, false, "/" + "b", BIN, []);
  }

  /** unlink("f") in the directory /h recycles /h/f as /b/h/f, and leaves /f where it is. */
  lemma {:induction false} WorkingDirectory()
    ensures Valid(HERE) && IsDir(HERE.tree, ["h"]) && Components("f") != []
    ensures var t' := Unlinkat(HERE, Process(["h"], map[], 0), ENVIRONMENT, AT_FDCWD, "f", false).fs.tree;
            Arrived(HERE.tree, t', ["h", "f"], ["b", "h", "f"]) && Kept(HERE.tree, t', ["f"])
  {
    HereOneBin();
    FromDirectory(HERE, Process(["h"], map[], 0), ["h"], ["h", "f"], ["b", "h", "f"], ["f"]);
  }

  lemma {:induction false} FromDirectory(fs: Fs, proc: Process, d: Path, e: Path, p: Path, a: Path)
    requires OneBin(fs) && IsDir(fs.tree, BIN) && IsDir(fs.tree, d) && Holds(fs, e) && Holds(fs, a)
    requires d == ["h"] && e == ["h", "f"] && p == ["b", "h", "f"] && a == ["f"] && proc == Process(d, map[], 0)
    requires ["b", "h"] !in fs.tree && p !in fs.tree
    ensures Components("f") != []
    ensures var t' := Unlinkat(fs, proc, ENVIRONMENT, AT_FDCWD, "f", false).fs.tree;
            Arrived(fs.tree, t', e, p) && Kept(fs.tree, t', a)
  {
    assert d + ["f"] == e;
    DeletedFrom(fs, proc, d, "f");
    OnlySubjectMoves(fs, e, p, a);
  }

  lemma {:induction false} OnlySubjectMoves(fs: Fs, e: Path, p: Path, a: Path)
    requires OneBin(fs) && IsDir(fs.tree, BIN) && Holds(fs, e) && e == ["h", "f"] && p == ["b", "h", "f"]
    requires ["b", "h"] !in fs.tree && p !in fs.tree && Holds(fs, a) && a == ["f"]
    ensures Arrived(fs.tree, Deleted(fs, e).fs.tree, e, p) && Kept(fs.tree, Deleted(fs, e).fs.tree, a)
  {
    assert BIN + e == p && p[..2] == ["b", "h"] && p[..3] == p;
    assert Vacant(fs.tree, p);
    FileArrives(fs, e);
    ToBeRecycled(fs, e);
    assert !Above(BIN, a);
    OthersNotLost(fs, PROCESS, ENVIRONMENT, AT_FDCWD, Render(e), e, false, "/" + "b", BIN, [], a);
  }

  /** With the relative name b for the bin, and no directory on descriptor 0, deleting /f fails with EBADF. */
  lemma {:induction false} RelativeBinInert()
    ensures Valid(START) && Components(Render(["f"])) != []
    ensures var o := Unlinkat(START, PROCESS, Recycler("b"), AT_FDCWD, Render(["f"]), false);
            o.ret == Err(EBADF) && Kept(START.tree, o.fs.tree, ["f"])
  {
    StartOneBin();
    InertCall(START, ["f"]);
  }

  lemma {:induction false} InertCall(fs: Fs, e: Path)
    requires OneBin(fs) && IsDir(fs.tree, BIN) && Holds(fs, e) && |e| == 1 && e[0] != "b"
    ensures Components(Render(e)) != []
    ensures var o := Unlinkat(fs, PROCESS, Recycler("b"), AT_FDCWD, Render(e), false);
            o.ret == Err(EBADF) && Kept(fs.tree, o.fs.tree, e)
  {
    NamedSubject(fs, e);
    BinName(fs, "/" + "b");
    ComponentsOfName("b");
    BinFits(fs, PROCESS, Render(e), e, "b", BIN);
    RootIsMount(fs, e);
    assert e[0..] == e && BIN + e == ["b"] + [Last(e)] && Up(BIN + e) == BIN;
    GoalAtBin(fs, BIN);
    RelativeBinFails(fs, PROCESS, Recycler("b"), AT_FDCWD, Render(e), e, false, "b", BIN, []);
  }

  lemma {:induction false} GoalAtBin(fs: Fs, cs: seq<string>)
    requires OneBin(fs) && IsDir(fs.tree, BIN) && cs == BIN
    ensures Goal(fs.tree, [], cs) == BIN && WhyStopped(fs.tree, [], cs) == None
  {
    BinName(fs, "/" + "b");
    assert cs[..1] == cs && BIN + cs[1..] == BIN;
  }
}
