/** Runs: any number of calls, mixed with whatever else happens outside the bins. */
module Runs {
  import opened PathText
  import opened FileTree
  import opened ClonePath
  import opened CloneLinks
  import opened MountPoint
  import opened Kernel
  import opened Recyclix
  import opened NoLoss
  import opened Soundness
  import opened Landing
  import opened Calls

  /** The recycle bin of a device and where the device is mounted. */
  datatype Home = Home(bin: Path, mount: Path)

  type Layout = map<nat, Home>

  /** A file's device and its path: what the record of recycled files is kept by. */
  type Key = (nat, Path)

  datatype World = World(fs: Fs, log: map<Key, Node>)

  datatype Step =
    | Call(proc: Process, env: Environment, dirfd: int, pathname: string, removedir: bool)
    | Elsewhere(fs: Fs)

  /** Where a file in the bin comes from. */
  function Origin(h: Home, q: Path): Path
    requires |h.bin| <= |q|
  {
    h.mount + q[|h.bin|..]
  }

  /** A file of the device in the device's bin. */
  ghost predicate InBin(t: Tree, layout: Layout, dev: nat, q: Path) {
    dev in layout && q in t && !IsDir(t, q) && t[q].dev == dev && Above(layout[dev].bin, q)
  }

  ghost predicate HomesHold(t: Tree, layout: Layout) {
    MountedOnce(t) && forall dev :: dev in layout ==> MountOf(t, layout[dev].mount, dev)
  }

  /** Every file in a bin is the one recorded for the path it comes from. */
  ghost predicate BinsTrue(w: World, layout: Layout) {
    forall dev, q {:trigger InBin(w.fs.tree, layout, dev, q)} :: InBin(w.fs.tree, layout, dev, q) ==>
      var key := (dev, Origin(layout[dev], q));
      key in w.log && w.log[key] == w.fs.tree[q]
  }

  ghost predicate Good(w: World, layout: Layout) {
    Valid(w.fs) && BinsTrue(w, layout)
  }

  /** The call's subject, if there is one. */
  ghost predicate Meets(w: World, s: Step, e: Path) {
    s.Call? && Subject(w.fs, s.proc, s.dirfd, s.pathname, e) && e != []
  }

  /** q is in the bin of the device. */
  predicate InHome(layout: Layout, dev: nat, q: Path) {
    dev in layout && Above(layout[dev].bin, q)
  }

  /** If the call's file is to go into the bin of its device, then to the place that stands for its own path. */
  ghost predicate SpotTrue(w: World, s: Step, layout: Layout, e: Path)
    requires Meets(w, s, e)
  {
    var spot, dev := SpotOf(w.fs, s.proc, s.env, s.pathname, e), w.fs.tree[e].dev;
    spot.Some? && InHome(layout, dev, spot.value) ==> Origin(layout[dev], spot.value) == e
  }

  /** Calls on directories always may be made, and calls on files whose spot is right. */
  ghost predicate CallAllowed(w: World, s: Step, layout: Layout)
    requires s.Call? && Valid(w.fs)
  {
    && Live(w.fs.tree, s.proc) && NamesEntry(s.pathname) && SlashFits(w.fs.tree, s.proc, s.dirfd, s.pathname)
    && forall e {:trigger Meets(w, s, e)} :: Meets(w, s, e) && !IsDir(w.fs.tree, e) ==>
         AnchoredBin(w.fs, s.proc, s.env, s.pathname, e) && SpotTrue(w, s, layout, e)
  }

  /** Anything may happen outside the bins, and in them files may go, but no file may come or change. */
  ghost predicate ElsewhereAllowed(w: World, s: Step, layout: Layout)
    requires s.Elsewhere?
  {
    && Valid(s.fs)
    && forall dev, q {:trigger InBin(s.fs.tree, layout, dev, q)} :: InBin(s.fs.tree, layout, dev, q) ==>
         InBin(w.fs.tree, layout, dev, q) && w.fs.tree[q] == s.fs.tree[q]
  }

  ghost predicate Allowed(w: World, s: Step, layout: Layout) {
    Valid(w.fs) && if s.Call? then CallAllowed(w, s, layout) else ElsewhereAllowed(w, s, layout)
  }

  ghost function CallOut(w: World, s: Step): Out
    requires s.Call? && Valid(w.fs) && Live(w.fs.tree, s.proc) && NamesEntry(s.pathname)
  {
    Unlinkat(w.fs, s.proc, s.env, s.dirfd, s.pathname, s.removedir)
  }

  /** Step s takes file e into the bin of its device. */
  ghost predicate RecyclesFile(w: World, s: Step, layout: Layout, e: Path)
    requires Valid(w.fs)
  {
    && s.Call? && Meets(w, s, e) && LeftForBin(w.fs, s.proc, s.env, s.pathname, e, CallOut(w, s))
    && var spot := SpotOf(w.fs, s.proc, s.env, s.pathname, e);
       spot.Some? && InHome(layout, w.fs.tree[e].dev, spot.value)
  }

  /** The world after a step; files that come into a bin are put on record. */
  ghost function After(w: World, s: Step, layout: Layout): World
    requires Allowed(w, s, layout)
  {
    if s.Elsewhere? then World(s.fs, w.log)
    else
      var found := Entry(w.fs.tree, s.proc, s.dirfd, s.pathname);
      World(CallOut(w, s).fs,
            if found.Found? && RecyclesFile(w, s, layout, found.at)
            then w.log[(w.fs.tree[found.at].dev, found.at) := w.fs.tree[found.at]] else w.log)
  }

  // ---------------------------------------------------------------- one step

  lemma {:induction false} QuietCallKeeps(w: World, fs': Fs, layout: Layout)
    requires Good(w, layout) && Valid(fs') && NoNewFiles(w.fs.tree, fs'.tree)
    ensures Good(World(fs', w.log), layout)
  {
    forall dev, q | InBin(fs'.tree, layout, dev, q)
      ensures InBin(w.fs.tree, layout, dev, q) && fs'.tree[q] == w.fs.tree[q]
    {
      assert fs'.tree[q] == w.fs.tree[q];
    }
  }

  /** Two places in a bin do not stand for the same path. */
  lemma {:induction false} OriginInjective(h: Home, p: Path, q: Path)
    requires Above(h.bin, p) && Above(h.bin, q) && Origin(h, p) == Origin(h, q)
    ensures p == q
  {
    assert Origin(h, p)[|h.mount|..] == p[|h.bin|..] && Origin(h, q)[|h.mount|..] == q[|h.bin|..];
    assert p == h.bin + p[|h.bin|..] && q == h.bin + q[|h.bin|..];
  }

  /** The place of e in its bin, and no other, comes from e. */
  lemma {:induction false} OriginOfPlace(h: Home, e: Path, q: Path)
    requires |h.mount| <= |e| && h.mount == e[..|h.mount|] && Above(h.bin, q)
    ensures Origin(h, q) == e <==> q == Place(h.bin, e, h.mount)
  {
    if Origin(h, q) == e {
      assert e[|h.mount|..] == q[|h.bin|..];
      assert q == h.bin + q[|h.bin|..];
    }
    if q == Place(h.bin, e, h.mount) {
      PlaceInvertible(h.bin, e, h.mount);
    }
  }

  /** A file has moved to p, which stands for its own path if it is in the bin: then it is put on record. */
  lemma {:induction false} MoveKeepsGood(w: World, fs': Fs, layout: Layout, e: Path, p: Path)
    requires Good(w, layout) && Valid(fs') && e in w.fs.tree && MovedTo(w.fs.tree, fs'.tree, e, p)
    requires InHome(layout, w.fs.tree[e].dev, p) ==> Origin(layout[w.fs.tree[e].dev], p) == e
    ensures var x := w.fs.tree[e];
            Good(World(fs', if InHome(layout, x.dev, p) then w.log[(x.dev, e) := x] else w.log), layout)
  {
    var x := w.fs.tree[e];
    var log := if InHome(layout, x.dev, p) then w.log[(x.dev, e) := x] else w.log;
    forall dev, q | InBin(fs'.tree, layout, dev, q)
      ensures var key := (dev, Origin(layout[dev], q)); key in log && log[key] == fs'.tree[q]
    {
      var node := fs'.tree[q];
      if q != p {
        assert w.fs.tree[q] == node;
        assert InBin(w.fs.tree, layout, dev, q);
        if InHome(layout, x.dev, p) && dev == x.dev && Origin(layout[dev], q) == e {
          OriginInjective(layout[dev], p, q);
        }
      }
    }
  }

  /** A step keeps the world good. */
  lemma {:induction false} StepKeeps(w: World, s: Step, layout: Layout)
    requires Good(w, layout) && Allowed(w, s, layout)
    ensures Good(After(w, s, layout), layout)
  {
    if s.Elsewhere? {
      var w' := After(w, s, layout);
      forall dev, q | InBin(w'.fs.tree, layout, dev, q)
        ensures var key := (dev, Origin(layout[dev], q)); key in w'.log && w'.log[key] == w'.fs.tree[q]
      {
        assert InBin(w.fs.tree, layout, dev, q);
      }
    } else {
      CallStepKeeps(w, s, layout);
    }
  }

  lemma {:induction false} CallStepKeeps(w: World, s: Step, layout: Layout)
    requires Good(w, layout) && Allowed(w, s, layout) && s.Call?
    ensures Good(After(w, s, layout), layout)
  {
    var found := Entry(w.fs.tree, s.proc, s.dirfd, s.pathname);
    if found.Missing? || found.at !in w.fs.tree {
      NoSubject(w.fs, s.proc, s.env, s.dirfd, s.pathname, s.removedir);
    } else {
      var e, o := found.at, CallOut(w, s);
      assert Meets(w, s, e);
      CallKeeps(w.fs, s.proc, s.env, s.dirfd, s.pathname, e, s.removedir);
      if LeftForBin(w.fs, s.proc, s.env, s.pathname, e, o) {
        MoveKeepsGood(w, o.fs, layout, e, SpotOf(w.fs, s.proc, s.env, s.pathname, e).value);
      } else {
        QuietCallKeeps(w, o.fs, layout);
      }
    }
  }

  // ---------------------------------------------------------------- which calls are allowed

  /**
   * The condition on the spot is the right one: after a call that takes a file into the bin, the file stands there for
   * the path it comes from exactly when the condition holds; otherwise it stands for another file's path.
   */
  lemma {:induction false} SpotTrueIff(w: World, s: Step, layout: Layout, e: Path)
    requires Meets(w, s, e) && AnchoredBin(w.fs, s.proc, s.env, s.pathname, e) && RecyclesFile(w, s, layout, e)
    ensures var dev, q := w.fs.tree[e].dev, SpotOf(w.fs, s.proc, s.env, s.pathname, e).value;
            && InBin(CallOut(w, s).fs.tree, layout, dev, q) && CallOut(w, s).fs.tree[q] == w.fs.tree[e]
            && (Origin(layout[dev], q) == e <==> SpotTrue(w, s, layout, e))
  {
    CallKeeps(w.fs, s.proc, s.env, s.dirfd, s.pathname, e, s.removedir);
  }

  /** With the layout's bin taken, and the layout's mounts, the condition is that the spot is the place or outside. */
  lemma {:induction false} SpotTrueByPlace(w: World, s: Step, layout: Layout, e: Path, dir: string, bin: Path, m: Path)
    requires Meets(w, s, e) && !IsDir(w.fs.tree, e) && HomesHold(w.fs.tree, layout) && IsDir(w.fs.tree, bin)
    requires Recycles(w.fs, s.proc, s.env, s.pathname, e, dir, bin, m)
    requires w.fs.tree[e].dev in layout && layout[w.fs.tree[e].dev].bin == bin
    ensures |m| < |e|
    ensures var spot := Spot(w.fs.tree, s.proc, dir, e, m);
            SpotTrue(w, s, layout, e) <==> (Above(bin, spot) ==> spot == Place(bin, e, m))
  {
    var h := layout[w.fs.tree[e].dev];
    TakenBin(w.fs, s.proc, s.env, s.pathname, e);
    SpotRecycles(w.fs, s.proc, s.env, s.pathname, e, dir, bin, m);
    NotBelowBin(w.fs, e, bin, m);
    assert MountOf(w.fs.tree, h.mount, w.fs.tree[e].dev);
    assert m == h.mount;
    var spot := Spot(w.fs.tree, s.proc, dir, e, m);
    if Above(bin, spot) {
      OriginOfPlace(h, e, spot);
    }
  }

  /** With no link on the way in the bin the spot is the place, so the call is allowed. */
  lemma {:induction false} PlainCallAllowed(w: World, s: Step, layout: Layout, e: Path, dir: string, bin: Path, m: Path)
    requires Meets(w, s, e) && !IsDir(w.fs.tree, e) && HomesHold(w.fs.tree, layout)
    requires Recycles(w.fs, s.proc, s.env, s.pathname, e, dir, bin, m) && Usable(w.fs, s.proc, s.env, s.pathname, e)
    requires w.fs.tree[e].dev in layout && layout[w.fs.tree[e].dev].bin == bin
    ensures Allowed(w, s, layout)
  {
    SpotRecycles(w.fs, s.proc, s.env, s.pathname, e, dir, bin, m);
    PlainSpot(w.fs, s.proc, e, dir, bin, m);
    SpotTrueByPlace(w, s, layout, e, dir, bin, m);
    forall e' {:trigger Meets(w, s, e')} | Meets(w, s, e')
      ensures e' == e
    {
    }
  }

  lemma {:induction false} PlainSpot(fs: Fs, proc: Process, e: Path, dir: string, bin: Path, m: Path)
    requires Valid(fs) && e in fs.tree && |m| < |e| && Ready(fs.tree, dir, bin)
    requires Plain(fs.tree, Up(Place(bin, e, m)), |bin|)
    ensures Spot(fs.tree, proc, dir, e, m) == Place(bin, e, m)
  {
    var p := Place(bin, e, m);
    PlaceParts(bin, e, m);
    PlaceNames(bin, e, m);
    AimsAtPlace(fs.tree, Components(dir), bin, p);
    assert Up(Destination(dir, e, m)) == Components(dir) + Up(p)[|bin|..] by {
      UpOfName(Components(dir), e, |m|);
    }
    assert p == Up(p) + [Last(p)];
  }

  lemma {:induction false} AimsAtPlace(t: Tree, bs: seq<string>, bin: Path, p: Path)
    requires Rooted(t) && Clean(bs) && Names(p) && |bin| < |p| && bin == p[..|bin|] && Plain(t, Up(p), |bin|)
    requires ResolvesToDir(t, [], bs) && Stat(t, [], bs).at == bin
    ensures Goal(t, [], bs + Up(p)[|bin|..]) == Up(p)
  {
    assert Up(p)[..|bin|] == bin;
    GoalPlain(t, [], bs, Up(p), |bin|);
  }

  // ---------------------------------------------------------------- runs

  ghost predicate Run(w: World, steps: seq<Step>, layout: Layout)
    decreases |steps|, 0
  {
    steps == [] ||
    var before := steps[..|steps| - 1];
    Run(w, before, layout) && Allowed(End(w, before, layout), steps[|steps| - 1], layout)
  }

  ghost function End(w: World, steps: seq<Step>, layout: Layout): World
    requires Run(w, steps, layout)
    decreases |steps|, 1
  {
    if steps == [] then w else After(End(w, steps[..|steps| - 1], layout), steps[|steps| - 1], layout)
  }

  /** The bins are empty and nothing is on record. */
  ghost predicate Fresh(w: World, layout: Layout) {
    && Valid(w.fs) && w.log == map[]
    && forall dev, q :: !InBin(w.fs.tree, layout, dev, q)
  }

  /** Every run keeps the world good. */
  lemma {:induction false} RunKeeps(w: World, steps: seq<Step>, layout: Layout)
    requires Good(w, layout) && Run(w, steps, layout)
    ensures Good(End(w, steps, layout), layout)
    decreases |steps|
  {
    if steps != [] {
      var before := steps[..|steps| - 1];
      RunKeeps(w, before, layout);
      StepKeeps(End(w, before, layout), steps[|steps| - 1], layout);
    }
  }

  // ---------------------------------------------------------------- what the record means

  /** Step i of the run takes the file of this key into the bin. */
  ghost predicate RecycledAt(w: World, steps: seq<Step>, layout: Layout, i: nat, key: Key)
    requires i < |steps| && Run(w, steps[..i], layout)
  {
    RecyclesKey(End(w, steps[..i], layout), steps[i], layout, key)
  }

  ghost predicate RecyclesKey(v: World, s: Step, layout: Layout, key: Key) {
    Valid(v.fs) && key.1 in v.fs.tree && v.fs.tree[key.1].dev == key.0 && RecyclesFile(v, s, layout, key.1)
  }

  lemma {:induction false} RunPrefix(w: World, steps: seq<Step>, layout: Layout, i: nat)
    requires Run(w, steps, layout) && i <= |steps|
    ensures Run(w, steps[..i], layout)
    decreases |steps|
  {
    if i == |steps| {
      assert steps[..i] == steps;
    } else {
      var before := steps[..|steps| - 1];
      assert before[..i] == steps[..i];
      RunPrefix(w, before, layout, i);
    }
  }

  ghost predicate Prefixes(w: World, steps: seq<Step>, layout: Layout) {
    forall j {:trigger steps[..j]} :: 0 <= j <= |steps| ==> Run(w, steps[..j], layout)
  }

  /** x is the file that came into the bin last under this key, at step i. */
  ghost predicate LastRecycled(w: World, steps: seq<Step>, layout: Layout, i: nat, key: Key, x: Node) {
    && i < |steps| && Prefixes(w, steps, layout)
    && RecycledAt(w, steps, layout, i, key) && End(w, steps[..i], layout).fs.tree[key.1] == x
    && forall j :: i < j < |steps| ==> !RecycledAt(w, steps, layout, j, key)
  }

  lemma {:induction false} AllPrefixes(w: World, steps: seq<Step>, layout: Layout)
    requires Run(w, steps, layout)
    ensures Prefixes(w, steps, layout)
  {
    forall j | 0 <= j <= |steps|
      ensures Run(w, steps[..j], layout)
    {
      RunPrefix(w, steps, layout, j);
    }
  }

  /** A step that recycles nothing under the key leaves its record; one that does replaces it. */
  lemma {:induction false} StepRecord(v: World, s: Step, layout: Layout, key: Key)
    requires Allowed(v, s, layout) && key in After(v, s, layout).log
    ensures if RecyclesKey(v, s, layout, key) then After(v, s, layout).log[key] == v.fs.tree[key.1]
            else key in v.log && After(v, s, layout).log[key] == v.log[key]
  {
  }

  /** The record holds, for each key, the file recycled last under it. */
  lemma {:induction false} LogIsLatest(w: World, steps: seq<Step>, layout: Layout, key: Key)
    requires Run(w, steps, layout) && w.log == map[]
    requires key in End(w, steps, layout).log
    ensures exists i :: LastRecycled(w, steps, layout, i, key, End(w, steps, layout).log[key])
    decreases |steps|
  {
    var n := |steps| - 1;
    var before, s := steps[..n], steps[n];
    var v := End(w, before, layout);
    AllPrefixes(w, steps, layout);
    StepRecord(v, s, layout, key);
    if RecyclesKey(v, s, layout, key) {
      assert RecycledAt(w, steps, layout, n, key);
      assert LastRecycled(w, steps, layout, n, key, v.fs.tree[key.1]);
    } else {
      LogIsLatest(w, before, layout, key);
      var i :| LastRecycled(w, before, layout, i, key, v.log[key]);
      LastStays(w, steps, layout, i, key, v.log[key]);
    }
  }

  lemma {:induction false} SameStep(w: World, steps: seq<Step>, layout: Layout, j: nat, key: Key)
    requires j < |steps| - 1 && Prefixes(w, steps, layout)
    ensures steps[..|steps| - 1][..j] == steps[..j]
    ensures RecycledAt(w, steps[..|steps| - 1], layout, j, key) == RecycledAt(w, steps, layout, j, key)
  {
    assert steps[..|steps| - 1][..j] == steps[..j];
  }

  lemma {:induction false} LastStays(w: World, steps: seq<Step>, layout: Layout, i: nat, key: Key, x: Node)
    requires steps != [] && Prefixes(w, steps, layout)
    requires LastRecycled(w, steps[..|steps| - 1], layout, i, key, x)
    requires !RecycledAt(w, steps, layout, |steps| - 1, key)
    ensures LastRecycled(w, steps, layout, i, key, x)
  {
    SameStep(w, steps, layout, i, key);
    forall j | i < j < |steps|
      ensures !RecycledAt(w, steps, layout, j, key)
    {
      if j < |steps| - 1 {
        SameStep(w, steps, layout, j, key);
      }
    }
  }

  /**
   * In every run from empty bins, a file of the device found in the device's bin is the file that came
   * there last from the path that its place stands for. It is never a file from another path. Links in the bin
   * do not matter as long as no call on a file lands it in the place of another (SpotTrue).
   */
  lemma {:induction false} BinHoldsLatest(w: World, steps: seq<Step>, layout: Layout, dev: nat, q: Path)
    requires Fresh(w, layout) && Run(w, steps, layout)
    requires InBin(End(w, steps, layout).fs.tree, layout, dev, q)
    ensures exists i ::
              LastRecycled(w, steps, layout, i, (dev, Origin(layout[dev], q)), End(w, steps, layout).fs.tree[q])
  {
    assert Good(w, layout);
    RunKeeps(w, steps, layout);
    LogIsLatest(w, steps, layout, (dev, Origin(layout[dev], q)));
  }
}
