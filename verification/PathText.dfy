/** Path names as text and as lists of components, and the C library's dirname. */
module PathText {
  import opened Text

  /** A location in the directory tree: the components below "/". */
  type Path = seq<string>

  /** The location one step up; "/" is its own parent. */
  function Up(p: Path): Path {
    if p == [] then [] else p[..|p| - 1]
  }

  /** A component that names a directory entry. */
  predicate Name(c: string) {
    c != "" && c != "." && c != ".." && '/' !in c
  }

  predicate Names(p: Path) {
    forall k :: 0 <= k < |p| ==> Name(p[k])
  }

  predicate IsAbsolute(s: string) {
    s != "" && s[0] == '/'
  }

  /** Components of a text: not empty and without slashes. */
  predicate Clean(cs: seq<string>) {
    forall k :: 0 <= k < |cs| ==> cs[k] != "" && '/' !in cs[k]
  }

  /** The non-empty fields of s between slashes. */
  function Components(s: string): (cs: seq<string>)
    ensures Clean(cs)
  {
    if s == "" then []
    else if s[0] == '/' then Components(s[1..])
    else
      var i := IndexOf(s, '/');
      [s[..i]] + Components(s[i..])
  }

  lemma {:induction false} FirstSlashAppend(a: string, b: string)
    requires '/' !in a
    ensures IndexOf(a + "/" + b, '/') == |a|
  {
    assert (a + "/" + b)[..|a|] == a;
    IndexOfUnique(a + "/" + b, '/', |a|);
  }

  lemma {:induction false} ComponentsOfName(a: string)
    requires '/' !in a
    ensures Components(a) == if a == "" then [] else [a]
  {
    if a != "" {
      assert IndexOf(a, '/') == |a|;
      assert a[..|a|] == a;
    }
  }

  /** One component at the front of a text that goes on with a slash. */
  lemma {:induction false} ComponentsFront(h: string, b: string)
    requires h != "" && '/' !in h
    ensures Components(h + "/" + b) == [h] + Components("/" + b)
  {
    FirstSlashAppend(h, b);
    assert (h + "/" + b)[..|h|] == h && (h + "/" + b)[|h|..] == "/" + b;
  }

  lemma {:induction false} ComponentsSlash(b: string)
    ensures Components("/" + b) == Components(b)
  {
    assert ("/" + b)[1..] == b;
  }

  lemma {:induction false} ConcatStep(h: string, y: string, b: string)
    requires h != "" && '/' !in h
    requires Components(y + "/" + b) == Components(y) + Components(b)
    ensures Components(h + "/" + y + "/" + b) == Components(h + "/" + y) + Components(b)
  {
    var rest := y + "/" + b;
    assert h + "/" + y + "/" + b == h + "/" + rest;
    ComponentsFront(h, y);
    ComponentsFront(h, rest);
    ComponentsSlash(y);
    ComponentsSlash(rest);
  }

  lemma {:induction false} ComponentsConcat(a: string, b: string)
    ensures Components(a + "/" + b) == Components(a) + Components(b)
    decreases |a|
  {
    if a == "" {
      ComponentsSlash(b);
      assert a + "/" + b == "/" + b;
    } else if a[0] == '/' {
      assert (a + "/" + b)[1..] == a[1..] + "/" + b;
      ComponentsConcat(a[1..], b);
    } else {
      var i := IndexOf(a, '/');
      if i == |a| {
        assert a[..i] == a;
        ComponentsFront(a, b);
        ComponentsSlash(b);
        ComponentsOfName(a);
      } else {
        var h, y := a[..i], a[i + 1..];
        assert a == h + "/" + y;
        ComponentsConcat(y, b);
        ConcatStep(h, y, b);
      }
    }
  }

  /** s without its trailing slashes. */
  function StripSlashes(s: string): (r: string)
    ensures r <= s
    ensures r != "" ==> r[|r| - 1] != '/'
    ensures r == "" && s != "" ==> s[0] == '/'
    decreases |s|
  {
    if s != "" && s[|s| - 1] == '/' then StripSlashes(s[..|s| - 1]) else s
  }

  lemma {:induction false} ComponentsStrip(s: string)
    ensures Components(StripSlashes(s)) == Components(s)
    decreases |s|
  {
    if s != "" && s[|s| - 1] == '/' {
      var y := s[..|s| - 1];
      assert s == y + "/" + "";
      ComponentsConcat(y, "");
      ComponentsStrip(y);
    }
  }

  /** Start of the last component: the index after the last '/'. */
  function NameStart(s: string): (i: nat)
    ensures i <= |s|
    ensures i > 0 ==> s[i - 1] == '/'
    ensures '/' !in s[i..]
    decreases |s|
  {
    if s == "" || s[|s| - 1] == '/' then |s|
    else
      var j := NameStart(s[..|s| - 1]);
      assert s[j..] == s[..|s| - 1][j..] + [s[|s| - 1]];
      j
  }

  /** What remains of a run of n slashes: exactly two stay two (glibc). */
  function RootText(n: nat): string {
    if n == 2 then "//" else "/"
  }

  /** dirname(3) of glibc. */
  function Dirname(s: string): string {
    var a := StripSlashes(s);
    if a == "" then if s == "" then "." else RootText(|s|)
    else
      var i := NameStart(a);
      if i == 0 then "."
      else
        var b := StripSlashes(a[..i]);
        if b == "" then RootText(i) else b
  }

  /** basename(3): the last component, "/" for the root, "." for "". */
  function Basename(s: string): string {
    var a := StripSlashes(s);
    if a == "" then if s == "" then "." else "/"
    else a[NameStart(a)..]
  }

  lemma {:induction false} SplitAtSlash(a: string, i: nat)
    requires 0 < i < |a| && a[i - 1] == '/' && '/' !in a[i..]
    ensures Components(a) == Components(a[..i - 1]) + [a[i..]]
  {
    ComponentsOfName(a[i..]);
    assert a == a[..i - 1] + "/" + a[i..];
    ComponentsConcat(a[..i - 1], a[i..]);
  }

  /** The text before and in the last component. */
  lemma {:induction false} SplitLast(s: string)
    requires Components(s) != []
    ensures var a := StripSlashes(s);
            var i := NameStart(a);
            a != "" && i < |a| &&
            (if i == 0 then !IsAbsolute(s) && Components(s) == [a]
             else Components(s) == Components(a[..i - 1]) + [a[i..]])
  {
    var a := StripSlashes(s);
    ComponentsStrip(s);
    var i := NameStart(a);
    if i == 0 {
      assert a[0..] == a;
      assert a[0] in a && a[0] == s[0];
      ComponentsOfName(a);
    } else {
      SplitAtSlash(a, i);
    }
  }

  lemma {:induction false} BasenameIsLast(s: string)
    requires Components(s) != []
    ensures Basename(s) == Components(s)[|Components(s)| - 1]
  {
    SplitLast(s);
  }

  /** dirname keeps the text before the last component, without the slashes that end it. */
  lemma {:induction false} DirnameCut(s: string)
    requires StripSlashes(s) != "" && NameStart(StripSlashes(s)) > 0
    ensures var a := StripSlashes(s);
            var i := NameStart(a);
            var b := StripSlashes(a[..i]);
            Dirname(s) == (if b == "" then RootText(i) else b) &&
            (if b == "" then IsAbsolute(s) else IsAbsolute(b) <==> IsAbsolute(s))
  {
    var a := StripSlashes(s);
    var i := NameStart(a);
    assert a[..i][0] == a[0] == s[0];
  }

  lemma {:induction false} LastNameIsCut(s: string)
    requires Components(s) != []
    requires IsAbsolute(s) || |Components(s)| > 1
    ensures StripSlashes(s) != "" && NameStart(StripSlashes(s)) > 0
  {
    SplitLast(s);
  }

  lemma {:induction false} SlashEnded(x: string)
    ensures Components(StripSlashes(x + "/")) == Components(x)
  {
    ComponentsStrip(x + "/");
    assert x + "/" == x + "/" + "";
    ComponentsConcat(x, "");
    assert Components("") == [];
  }

  lemma {:induction false} CutComponents(s: string)
    requires Components(s) != []
    requires StripSlashes(s) != "" && NameStart(StripSlashes(s)) > 0
    ensures var a := StripSlashes(s);
            Components(StripSlashes(a[..NameStart(a)])) == Up(Components(s))
  {
    SplitLast(s);
    var a := StripSlashes(s);
    var i := NameStart(a);
    var x := a[..i - 1];
    assert a[..i] == x + "/";
    SlashEnded(x);
    assert (Components(x) + [a[i..]])[..|Components(x)|] == Components(x);
  }

  /** dirname drops the last component, whatever the slashes in between. */
  lemma {:induction false} DirnameDropsLast(s: string)
    requires Components(s) != []
    requires IsAbsolute(s) || |Components(s)| > 1
    ensures Components(Dirname(s)) == Up(Components(s))
    ensures IsAbsolute(Dirname(s)) <==> IsAbsolute(s)
  {
    LastNameIsCut(s);
    CutComponents(s);
    DirnameCut(s);
    var i := NameStart(StripSlashes(s));
    RootTextComponents(i);
  }

  lemma {:induction false} RootTextComponents(n: nat)
    ensures Components(RootText(n)) == [] && IsAbsolute(RootText(n))
  {
    assert "//" == "" + "/" + "/";
    assert "/" == "" + "/" + "";
    ComponentsConcat("", "/");
    ComponentsConcat("", "");
  }

  lemma {:induction false} StrippedHasName(a: string)
    requires a != "" && a[|a| - 1] != '/'
    ensures Components(a) != []
  {
    var i := NameStart(a);
    if i == 0 {
      assert a[0..] == a;
      ComponentsOfName(a);
    } else {
      SplitAtSlash(a, i);
    }
  }

  /** A text without components is all slashes, and dirname keeps it so. */
  lemma {:induction false} DirnameOfRoot(s: string)
    requires Components(s) == [] && IsAbsolute(s)
    ensures Components(Dirname(s)) == [] && IsAbsolute(Dirname(s))
  {
    var a := StripSlashes(s);
    ComponentsStrip(s);
    if a != "" {
      StrippedHasName(a);
    }
    RootTextComponents(|s|);
  }

  lemma {:induction false} DirnameShort(s: string)
    ensures |Dirname(s)| <= if |s| < 2 then 2 else |s|
  {
  }

  lemma {:induction false} StripKeeps(s: string)
    requires s != "" && s[|s| - 1] != '/'
    ensures StripSlashes(s) == s
  {
  }

  lemma {:induction false} NameStartUnique(s: string, i: nat)
    requires 0 < i <= |s| && s[i - 1] == '/' && '/' !in s[i..]
    ensures NameStart(s) == i
    decreases |s|
  {
    if i < |s| {
      assert s[|s| - 1] == s[i..][|s| - 1 - i];
      assert s[..|s| - 1][i..] == s[i..][..|s| - 1 - i];
      NameStartUnique(s[..|s| - 1], i);
    }
  }

  lemma {:induction false} NameStartAppend(x: string, name: string)
    requires name != "" && '/' !in name
    ensures NameStart(x + "/" + name) == |x| + 1
  {
    assert (x + "/" + name)[|x| + 1..] == name;
    NameStartUnique(x + "/" + name, |x| + 1);
  }

  /** dirname of x/name, up to the slashes that end x. */
  lemma {:induction false} DirnameAppend(x: string, name: string)
    requires name != "" && '/' !in name
    ensures Dirname(x + "/" + name) ==
            if StripSlashes(x) != "" then StripSlashes(x) else RootText(|x| + 1)
  {
    var s := x + "/" + name;
    assert s[|s| - 1] == name[|name| - 1];
    StripKeeps(s);
    NameStartAppend(x, name);
    assert s[..|x| + 1][..|x|] == x;
  }

  /** "/a/b" for ["a", "b"]; empty for the root. */
  function Flat(p: Path): (s: string)
    ensures p != [] ==> s != "" && s[0] == '/'
    decreases |p|
  {
    if p == [] then "" else Flat(p[..|p| - 1]) + "/" + p[|p| - 1]
  }

  /** The absolute name of a location, as realpath and getcwd print it. */
  function Render(p: Path): string {
    if p == [] then "/" else Flat(p)
  }

  lemma {:induction false} ComponentsFlat(p: Path)
    requires Names(p)
    ensures Components(Flat(p)) == p
    ensures p != [] ==> StripSlashes(Flat(p)) == Flat(p)
    decreases |p|
  {
    if p != [] {
      var q, c := p[..|p| - 1], p[|p| - 1];
      ComponentsFlat(q);
      ComponentsConcat(Flat(q), c);
      ComponentsOfName(c);
      var s := Flat(p);
      assert s[|s| - 1] == c[|c| - 1];
      StripKeeps(s);
    }
  }

  /** Printing a location and splitting the text gives the location back. */
  lemma {:induction false} ComponentsRender(p: Path)
    requires Names(p)
    ensures Components(Render(p)) == p && IsAbsolute(Render(p))
  {
    ComponentsFlat(p);
    assert RootText(0) == "/";
    RootTextComponents(0);
  }

  lemma {:induction false} DirnameRender(p: Path)
    requires Names(p) && p != []
    ensures Dirname(Render(p)) == Render(Up(p))
  {
    var q := p[..|p| - 1];
    DirnameAppend(Flat(q), p[|p| - 1]);
    ComponentsFlat(q);
  }

  /** The text "%s/%s" of a resolved directory and an entry name. */
  function EntryText(dir: Path, name: string): string {
    Render(dir) + "/" + name
  }

  /** Only entries of "/" come out with a doubled slash, and dirname undoes it as "//". */
  lemma {:induction false} DirnameEntry(dir: Path, name: string)
    requires Names(dir) && Name(name)
    ensures Dirname(EntryText(dir, name)) == if dir == [] then "//" else Render(dir)
    ensures Components(EntryText(dir, name)) == dir + [name]
    ensures dir != [] ==> EntryText(dir, name) == Render(dir + [name])
  {
    DirnameAppend(Render(dir), name);
    ComponentsFlat(dir);
    assert (dir + [name])[..|dir|] == dir;
    ComponentsRender(dir);
    ComponentsConcat(Render(dir), name);
    ComponentsOfName(name);
  }

  lemma {:induction false} FlatConcat(p: Path, k: nat)
    requires k <= |p|
    ensures Flat(p) == Flat(p[..k]) + Flat(p[k..])
    decreases |p|
  {
    if k == |p| {
      assert p[..k] == p && p[k..] == [];
    } else {
      var q := p[..|p| - 1];
      FlatConcat(q, k);
      assert q[..k] == p[..k] && q[k..] == p[k..][..|p[k..]| - 1];
    }
  }

  lemma {:induction false} FlatSuffix(e: Path, k: nat)
    requires Names(e) && 0 < k < |e|
    ensures Render(e[..k]) <= Render(e) && Components(Render(e)[|Render(e[..k])|..]) == e[k..]
  {
    FlatConcat(e, k);
    ComponentsFlat(e[k..]);
    assert Flat(e)[|Flat(e[..k])|..] == Flat(e[k..]);
  }

  lemma {:induction false} EntryTextOf(e: Path)
    requires Names(e) && e != []
    ensures var fq := EntryText(Up(e), e[|e| - 1]);
            && Components(fq) == e && IsAbsolute(fq)
            && (|e| > 1 ==> fq == Render(e))
            && Components(fq[1..]) == e
  {
    var name := e[|e| - 1];
    var fq := EntryText(Up(e), name);
    DirnameEntry(Up(e), name);
    assert Up(e) + [name] == e;
    ComponentsRender(Up(e));
    TailComponents(fq);
  }

  lemma {:induction false} TailComponents(s: string)
    requires IsAbsolute(s)
    ensures Components(s[1..]) == Components(s)
  {
  }

  /** The text of an entry behind the text of a location above it is the rest of the way. */
  lemma {:induction false} EntryTextSuffix(e: Path, k: nat)
    requires Names(e) && e != [] && k <= |e|
    ensures var fq := EntryText(Up(e), e[|e| - 1]);
            var mp := if k == |e| then fq else Render(e[..k]);
            mp <= fq && Components(fq[|mp|..]) == e[k..]
  {
    var fq := EntryText(Up(e), e[|e| - 1]);
    EntryTextOf(e);
    if k == |e| {
      assert fq[|fq|..] == "" && e[k..] == [];
    } else if k == 0 {
      assert e[..k] == [] && e[k..] == e;
    } else {
      FlatSuffix(e, k);
    }
  }
}
