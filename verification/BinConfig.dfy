/** The RECYCLER variable: items, "~/" and the options of one recycle bin. */
module BinConfig {
  import opened Text
  import opened SizeLimit

  /** The POSIX regular expressions, as far as recyclix can see them. */
  datatype Regex = Regex(compiles: string -> bool, matches: (string, string) -> bool)

  datatype Settings = Settings(min: int, max: int, excluded: bool)

  /** Empty files are passed over, there is no upper limit, nothing is excluded. */
  const DEFAULTS := Settings(1, 0, false)

  // ---------------------------------------------------------------- meaning of an item

  predicate Insane(l: Limits) {
    l.max != 0 && l.min > l.max
  }

  /** One option; None is a configuration error. */
  function ApplyOption(o: Settings, option: string, re: Regex, pathname: string): Option<Settings> {
    if MatchLimit(option).Some? then
      var l := LimitsOf(option);
      if Insane(l) then None else Some(o.(min := l.min, max := l.max))
    else if option != "" && option[0] == '!' && re.compiles(option[1..]) then
      Some(o.(excluded := re.matches(option[1..], pathname)))
    else None
  }

  function ApplyOptions(o: Settings, options: seq<string>, re: Regex, pathname: string): Option<Settings>
    decreases |options|
  {
    if options == [] then Some(o)
    else match ApplyOption(o, options[0], re, pathname)
      case None => None
      case Some(o') => ApplyOptions(o', options[1..], re, pathname)
  }

  /** Only a final empty field is dropped. */
  function WithoutFinalEmpty(fields: seq<string>): seq<string>
    requires |fields| > 0
  {
    if fields[|fields| - 1] == "" then fields[..|fields| - 1] else fields
  }

  function BinDir(item: string): string {
    Split(item, ',')[0]
  }

  function OptionFields(item: string): seq<string> {
    var fields := Split(item, ',');
    if |fields| == 1 then [] else WithoutFinalEmpty(fields[1..])
  }

  function ItemSettings(item: string, re: Regex, pathname: string): Option<Settings> {
    ApplyOptions(DEFAULTS, OptionFields(item), re, pathname)
  }

  predicate IsLimit(option: string) {
    MatchLimit(option).Some?
  }

  predicate IsExclusion(option: string) {
    !IsLimit(option) && option != "" && option[0] == '!'
  }

  /** What each option must be for the whole list to be accepted. */
  predicate Acceptable(option: string, re: Regex) {
    (IsLimit(option) && !Insane(LimitsOf(option))) || (IsExclusion(option) && re.compiles(option[1..]))
  }

  /** The last option with property p. */
  function LastOf(options: seq<string>, p: string -> bool): (r: Option<string>)
    ensures r.Some? ==> p(r.value) && r.value in options
    ensures r.None? ==> forall k :: 0 <= k < |options| ==> !p(options[k])
  {
    if options == [] then None else
      var later := LastOf(options[1..], p);
      if later.Some? then later else if p(options[0]) then Some(options[0]) else None
  }

  /** The settings that a list of acceptable options stands for. */
  function Meaning(o: Settings, options: seq<string>, re: Regex, pathname: string): Settings {
    var limit, exclusion := LastOf(options, IsLimit), LastOf(options, IsExclusion);
    var l := if limit.Some? then LimitsOf(limit.value) else Limits(o.min, o.max);
    Settings(l.min, l.max, if exclusion.Some? then re.matches(exclusion.value[1..], pathname) else o.excluded)
  }

  ghost predicate AllAcceptable(options: seq<string>, re: Regex) {
    forall k :: 0 <= k < |options| ==> Acceptable(options[k], re)
  }

  lemma {:induction false} AllAcceptableStep(options: seq<string>, re: Regex)
    requires options != []
    ensures AllAcceptable(options, re) <==> Acceptable(options[0], re) && AllAcceptable(options[1..], re)
  {
    assert forall k :: 1 <= k < |options| ==> options[k] == options[1..][k - 1];
    assert forall k :: 0 <= k < |options[1..]| ==> options[1..][k] == options[k + 1];
  }

  lemma {:induction false} MeaningStep(o: Settings, options: seq<string>, re: Regex, pathname: string)
    requires options != [] && Acceptable(options[0], re)
    ensures ApplyOption(o, options[0], re, pathname).Some?
    ensures Meaning(o, options, re, pathname) ==
            Meaning(ApplyOption(o, options[0], re, pathname).value, options[1..], re, pathname)
  {
  }

  /** A list is accepted exactly when every option is; the last size option and the last exclusion win. */
  lemma {:induction false} LastOptionWins(o: Settings, options: seq<string>, re: Regex, pathname: string)
    ensures ApplyOptions(o, options, re, pathname) ==
            if AllAcceptable(options, re) then Some(Meaning(o, options, re, pathname)) else None
    decreases |options|
  {
    if options != [] {
      AllAcceptableStep(options, re);
      var step := ApplyOption(o, options[0], re, pathname);
      if Acceptable(options[0], re) {
        MeaningStep(o, options, re, pathname);
        LastOptionWins(step.value, options[1..], re, pathname);
      }
    }
  }

  /** "~/" at the front stands for the home directory; without one the item is void. */
  function Expand(item: string, home: Option<string>): string {
    if "~/" <= item then
      if home.None? then "" else home.value + "/" + item[2..]
    else item
  }

  /** HOME and a slash take the place of the tilde and its slash; nothing else is expanded. */
  lemma {:induction false} TildeIsHome(rest: string, home: string, other: string)
    ensures Expand("~/" + rest, Some(home)) == home + "/" + rest
    ensures Expand("~/" + rest, None) == ""
    ensures !("~/" <= other) ==> Expand(other, Some(home)) == other == Expand(other, None)
  {
    assert ("~/" + rest)[2..] == rest;
  }

  // ---------------------------------------------------------------- an item written out

  /** A directory and options, joined by commas, are read as these; a comma at the end makes no difference. */
  lemma {:induction false} ItemParts(dir: string, options: seq<string>)
    requires ',' !in dir && (forall k :: 0 <= k < |options| ==> ',' !in options[k] && options[k] != "")
    ensures BinDir(dir) == dir && OptionFields(dir) == []
    ensures options != [] ==> BinDir(dir + "," + Join(options, ',')) == dir
    ensures options != [] ==> OptionFields(dir + "," + Join(options, ',')) == options
    ensures options != [] ==> OptionFields(dir + "," + Join(options, ',') + ",") == options
    ensures OptionFields(dir + ",") == []
  {
    SplitNone(dir, ',');
    FieldsJoined([dir] + [""]);
    assert ([dir] + [""])[1..] == [""] && dir + "," + "" == dir + ",";
    if options != [] {
      FieldsJoined([dir] + options);
      FieldsJoined([dir] + (options + [""]));
      JoinLast(options, ',');
      assert dir + [','] + (Join(options, ',') + [',']) == dir + "," + Join(options, ',') + ",";
    }
  }

  lemma {:induction false} FieldsJoined(fields: seq<string>)
    requires |fields| > 1 && forall k :: 0 <= k < |fields| ==> ',' !in fields[k]
    ensures var s := fields[0] + "," + Join(fields[1..], ',');
            Split(s, ',') == fields && BinDir(s) == fields[0] && OptionFields(s) == WithoutFinalEmpty(fields[1..])
  {
    SplitJoin(fields, ',');
  }

  lemma {:induction false} JoinLast(fields: seq<string>, c: char)
    requires |fields| > 0
    ensures Join(fields + [""], c) == Join(fields, c) + [c]
    decreases |fields|
  {
    assert (fields + [""])[1..] == fields[1..] + [""];
    if |fields| > 1 {
      JoinLast(fields[1..], c);
    }
  }

  /** An exclamation mark excludes the names that the pattern behind it matches; a pattern must compile. */
  lemma {:induction false} ExclusionMeans(o: Settings, pattern: string, re: Regex, pathname: string)
    ensures ApplyOption(o, "!" + pattern, re, pathname) ==
            if re.compiles(pattern) then Some(o.(excluded := re.matches(pattern, pathname))) else None
  {
    var option := "!" + pattern;
    assert option[0] == '!' && option[1..] == pattern;
  }

  /** A printed range is refused exactly when it has an upper limit below the lower one. */
  lemma {:induction false} RangeAcceptedIff(n: nat, m: nat, re: Regex)
    requires n < 0x8000_0000 && m < 0x8000_0000
    ensures Acceptable(Decimal(n) + "-" + Decimal(m), re) <==> m == 0 || n <= m
  {
    BytePair(n, m);
  }

  // ---------------------------------------------------------------- the buffers

  /** snprintf(3) of a text: as much as fits, and a NUL. */
  method Snprintf(buf: array<char>, size: nat, text: string)
    requires 0 < size <= buf.Length && NUL !in text
    modifies buf
    ensures Ended(buf[..], 0) && CStr(buf[..], 0) == text[..if |text| < size then |text| else size - 1]
  {
    var n := if |text| < size then |text| else size - 1;
    forall k | 0 <= k < n {
      buf[k] := text[k];
    }
    buf[n] := NUL;
    assert buf[..][0..n] == text[..n];
    CStrIs(buf[..], 0, text[..n]);
  }

  /** strncpy(3) of the first n characters, and a NUL. */
  method CopyPrefix(buf: array<char>, text: string, n: nat)
    requires n <= |text| && n < buf.Length && NUL !in text
    modifies buf
    ensures Ended(buf[..], 0) && CStr(buf[..], 0) == text[..n]
  {
    forall k | 0 <= k < n {
      buf[k] := text[k];
    }
    buf[n] := NUL;
    assert buf[..][0..n] == text[..n];
    CStrIs(buf[..], 0, text[..n]);
  }

  /** Cut at the length of home, slash and item, a text that runs on to the end of s is just these. */
  lemma {:induction false} RunsOn(home: string, s: string, pos: nat, ptr: nat)
    requires pos + 2 <= ptr <= |s|
    ensures (home + "/" + s[pos + 2..])[..|home| + 1 + (ptr - pos - 2)] == home + "/" + s[pos..ptr][2..]
  {
  }

  /** Copies the item at pos into the buffer and expands its "~/"; returns the end of the item. */
  method LoadItem(recyclers: string, pos: nat, home: Option<string>, recycler: array<char>) returns (ptr: nat)
    requires pos <= |recyclers| && recycler.Length == PATH_BUFFER
    requires NUL !in recyclers && (home.Some? ==> NUL !in home.value)
    requires var n := IndexOf(recyclers[pos..], ':');
             n < PATH_BUFFER && |Expand(recyclers[pos..][..n], home)| < PATH_BUFFER
    modifies recycler
    ensures ptr == pos + IndexOf(recyclers[pos..], ':')
    ensures Ended(recycler[..], 0) && CStr(recycler[..], 0) == Expand(recyclers[pos..ptr], home)
    ensures var item := recyclers[pos..ptr];
            CStr(recycler[..], 0) == if !("~/" <= item) then item
                                     else if home.Some? then home.value + "/" + item[2..] else ""
  {
    var n := IndexOf(recyclers[pos..], ':');
    ptr := pos + n;
    CopyPrefix(recycler, recyclers[pos..], n);
    ghost var item := recyclers[pos..ptr];
    assert recyclers[pos..][..n] == item;

    if "~/" <= CStr(recycler[..], 0) {
      if home.None? {
        CopyPrefix(recycler, "", 0);
      } else {
        // the argument runs on to the end of the variable; the size stops it at the end of the item
        var text := home.value + "/" + recyclers[pos + 2..];
        var size := |home.value| + 1 + (n - 2) + 1;
        Snprintf(recycler, size, text);
        RunsOn(home.value, recyclers, pos, ptr);
      }
    }
  }

  /** A NUL over a separator ends the string before it and starts another one behind it. */
  lemma {:induction false} CutAt(b: seq<char>, k: nat, i: nat)
    requires k <= |b| && Ended(b, k) && i < |CStr(b, k)|
    ensures var b', s := b[k + i := NUL], CStr(b, k);
            && Ended(b', k) && CStr(b', k) == s[..i]
            && Ended(b', k + i + 1) && CStr(b', k + i + 1) == s[i + 1..]
  {
    CStrCells(b, k);
    var b', s := b[k + i := NUL], CStr(b, k);
    assert b'[k..k + i] == s[..i];
    CStrIs(b', k, s[..i]);
    assert b'[k + i + 1..k + i + 1 + |s[i + 1..]|] == s[i + 1..];
    CStrIs(b', k + i + 1, s[i + 1..]);
  }

  lemma {:induction false} CutBehind(b: seq<char>, k: nat, m: nat)
    requires k <= |b| && Ended(b, k) && k + |CStr(b, k)| < m < |b|
    ensures Ended(b[m := NUL], k) && CStr(b[m := NUL], k) == CStr(b, k)
  {
    CStrCells(b, k);
    var s := CStr(b, k);
    assert b[m := NUL][k..k + |s|] == s;
    CStrIs(b[m := NUL], k, s);
  }

  /** The fields still to be read: none after the last separator's NUL pointer. */
  ghost function Rest(b: seq<char>, comma: int): seq<string>
    requires comma == -1 || (0 <= comma <= |b| && Ended(b, comma))
  {
    if comma == -1 then [] else WithoutFinalEmpty(Split(CStr(b, comma), ','))
  }

  /** Reads one option. */
  method ReadOption(option: string, o: Settings, re: Regex, pathname: string) returns (r: Option<Settings>)
    ensures r == ApplyOption(o, option, re, pathname)
  {
    var g := MatchLimit(option);
    if g.Some? {
      var end1 := g.value.end1;
      var min := ToSize(option, 0, end1, end1);
      var max: int;
      match g.value.second {
        case None => max := ToSize(option, -1, 0, -1);
        case Some((i, j)) => max := ToSize(option, i, j - i, j);
      }
      assert Limits(min, max) == LimitsOf(option);
      if max != 0 && min > max {
        return None;
      }
      return Some(o.(min := min, max := max));
    }
    if option != "" && option[0] == '!' {
      var pattern := option[1..];
      if !re.compiles(pattern) {
        return None;
      }
      return Some(o.(excluded := re.matches(pattern, pathname)));
    }
    return None;
  }

  /** Ends the string at `from` at its first comma, if it has one; returns where the next one starts. */
  method CutComma(buf: array<char>, from: nat) returns (next: int)
    requires from < buf.Length && Ended(buf[..], from)
    modifies buf
    ensures var s := old(CStr(buf[..], from));
            var n := IndexOf(s, ',');
            && Ended(buf[..], from) && CStr(buf[..], from) == s[..n]
            && if n == |s| then next == -1
               else next == from + n + 1 < buf.Length && Ended(buf[..], next) && CStr(buf[..], next) == s[n + 1..]
    ensures buf[..] == if next == -1 then old(buf[..]) else old(buf[..])[next - 1 := NUL]
  {
    ghost var b := buf[..];
    ghost var s := CStr(b, from);
    var n := IndexOf(CStr(buf[..], from), ',');
    if n == |CStr(buf[..], from)| {
      assert s[..n] == s;
      return -1;
    }
    CutAt(b, from, n);
    CStrCells(b, from);
    buf[from + n] := NUL;
    assert buf[..] == b[from + n := NUL];
    next := from + n + 1;
  }

  /** The fields of a text: what stands before its first comma, and the fields behind it. */
  lemma {:induction false} FieldsStep(s: string)
    ensures var n := IndexOf(s, ',');
            && Split(s, ',')[0] == s[..n]
            && (n == |s| ==> Split(s, ',') == [s[..n]])
            && (n < |s| ==> Split(s, ',')[1..] == Split(s[n + 1..], ','))
  {
    SplitStep(s, ',');
  }

  lemma {:induction false} OptionsStep(s: string)
    requires s != ""
    ensures var n := IndexOf(s, ',');
            WithoutFinalEmpty(Split(s, ',')) ==
            [s[..n]] + if n == |s| then [] else WithoutFinalEmpty(Split(s[n + 1..], ','))
  {
    SplitStep(s, ',');
    FinalStep(Split(s, ','));
  }

  lemma {:induction false} FinalStep(fields: seq<string>)
    requires |fields| > 0 && (|fields| == 1 ==> fields[0] != "")
    ensures WithoutFinalEmpty(fields) ==
            [fields[0]] + if |fields| == 1 then [] else WithoutFinalEmpty(fields[1..])
  {
    if |fields| > 1 {
      assert fields[..|fields| - 1] == [fields[0]] + fields[1..][..|fields| - 2];
      assert fields == [fields[0]] + fields[1..];
    }
  }

  /** One cut takes one field off the rest. */
  lemma {:induction false} RestStep(b: seq<char>, b': seq<char>, comma: nat, tmp: int)
    requires comma <= |b| && comma <= |b'| && Ended(b, comma) && CStr(b, comma) != ""
    requires var s := CStr(b, comma);
             var n := IndexOf(s, ',');
             && CStr(b', comma) == s[..n]
             && if n == |s| then tmp == -1 else 0 <= tmp <= |b'| && Ended(b', tmp) && CStr(b', tmp) == s[n + 1..]
    ensures Rest(b, comma) == [CStr(b', comma)] + Rest(b', tmp)
  {
    var s := CStr(b, comma);
    OptionsStep(s);
    assert Rest(b, comma) == WithoutFinalEmpty(Split(s, ','));
  }

  /** Cuts one option off the options at comma, and leaves the directory alone. */
  method NextOption(recycler: array<char>, comma: nat) returns (tmp: int)
    requires Ended(recycler[..], 0) && |CStr(recycler[..], 0)| < comma < recycler.Length
    requires Ended(recycler[..], comma) && CStr(recycler[..], comma) != ""
    modifies recycler
    ensures Ended(recycler[..], 0) && CStr(recycler[..], 0) == old(CStr(recycler[..], 0))
    ensures tmp == -1 || (comma < tmp < recycler.Length && Ended(recycler[..], tmp))
    ensures old(Rest(recycler[..], comma)) == [CStr(recycler[..], comma)] + Rest(recycler[..], tmp)
  {
    ghost var before := recycler[..];
    tmp := CutComma(recycler, comma);
    assert Rest(before, comma) == [CStr(recycler[..], comma)] + Rest(recycler[..], tmp) by {
      RestStep(before, recycler[..], comma, tmp);
    }
    if tmp != -1 {
      CutBehind(before, 0, tmp - 1);
    }
  }

  /**
   * Cuts the item in the buffer into its directory and its options, in place. The outcome is that of
   * splitting the text and applying the options from left to right, and the buffer holds the directory.
   */
  method ReadOptions(recycler: array<char>, re: Regex, pathname: string) returns (r: Option<Settings>)
    requires Ended(recycler[..], 0)
    modifies recycler
    ensures r == ItemSettings(old(CStr(recycler[..], 0)), re, pathname)
    ensures Ended(recycler[..], 0) && CStr(recycler[..], 0) == BinDir(old(CStr(recycler[..], 0)))
  {
    ghost var text := CStr(recycler[..], 0);
    ghost var dir := BinDir(text);
    var o := DEFAULTS;
    FieldsStep(text);
    var comma := CutComma(recycler, 0);
    assert Rest(recycler[..], comma) == OptionFields(text);

    while comma != -1 && CStr(recycler[..], comma) != ""
      invariant Ended(recycler[..], 0) && CStr(recycler[..], 0) == dir
      invariant comma == -1 || (|dir| < comma < recycler.Length && Ended(recycler[..], comma))
      invariant ApplyOptions(DEFAULTS, OptionFields(text), re, pathname) ==
                ApplyOptions(o, Rest(recycler[..], comma), re, pathname)
      decreases if comma == -1 then 0 else 1 + recycler.Length - comma
    {
      ghost var rest := Rest(recycler[..], comma);
      var tmp := NextOption(recycler, comma);
      assert rest[1..] == Rest(recycler[..], tmp);
      var step := ReadOption(CStr(recycler[..], comma), o, re, pathname);
      if step.None? {
        return None;
      }
      o := step.value;
      comma := tmp;
    }
    r := Some(o);
  }
}
