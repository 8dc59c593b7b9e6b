/** Replacing the first occurrence of a text in a path, in place. */
module PathRewrite {
  import opened Text

  /** pattern stands at index k of s. */
  predicate OccursAt(s: string, pattern: string, k: int) {
    0 <= k <= |s| - |pattern| && s[k..k + |pattern|] == pattern
  }

  /** strstr(3): the first occurrence, or -1. */
  function Find(s: string, pattern: string): (k: int)
    ensures k == -1 || OccursAt(s, pattern, k)
    ensures forall j {:trigger OccursAt(s, pattern, j)} :: OccursAt(s, pattern, j) ==> 0 <= k <= j
  {
    if OccursAt(s, pattern, 0) then 0
    else if s == "" then -1
    else
      var k := Find(s[1..], pattern);
      assert forall j {:trigger OccursAt(s, pattern, j)} ::
          OccursAt(s, pattern, j) ==> j > 0 && OccursAt(s[1..], pattern, j - 1) by {
        forall j | OccursAt(s, pattern, j)
          ensures j > 0 && OccursAt(s[1..], pattern, j - 1)
        {
          assert s[1..][j - 1..j - 1 + |pattern|] == s[j..j + |pattern|];
        }
      }
      assert k >= 0 ==> s[1..][k..k + |pattern|] == s[k + 1..k + 1 + |pattern|];
      if k == -1 then -1 else k + 1
  }

  /** The text with the first occurrence replaced. */
  function Rewritten(s: string, from: string, to: string): string {
    var k := Find(s, from);
    if k == -1 then s else s[..k] + to + s[k + |from|..]
  }

  // ---------------------------------------------------------------- swapping the two texts

  lemma {:induction false} FindIs(s: string, pattern: string, k: int)
    requires OccursAt(s, pattern, k) && forall j :: OccursAt(s, pattern, j) ==> k <= j
    ensures Find(s, pattern) == k
  {
    assert OccursAt(s, pattern, Find(s, pattern));
  }

  /** What stands before the first occurrence and behind it is kept; without an occurrence everything is. */
  lemma {:induction false} RewrittenExact(a: string, b: string, from: string, to: string, other: string)
    ensures (forall j :: OccursAt(a + from + b, from, j) ==> |a| <= j) ==>
              Rewritten(a + from + b, from, to) == a + to + b
    ensures (forall j :: !OccursAt(other, from, j)) ==> Rewritten(other, from, to) == other
  {
    var s := a + from + b;
    assert s[..|a|] == a && s[|a|..|a| + |from|] == from && s[|a| + |from|..] == b;
    if forall j :: OccursAt(s, from, j) ==> |a| <= j {
      FindIs(s, from, |a|);
    }
  }

  /**
   * Rewriting back with the two texts swapped restores the path exactly when the replacement first occurs
   * where it was put in, or, if nothing was replaced, does not occur at all.
   */
  lemma {:induction false} UndoneIff(s: string, from: string, to: string)
    ensures Rewritten(Rewritten(s, from, to), to, from) == s <==>
            Find(Rewritten(s, from, to), to) == Find(s, from)
  {
    var k, r := Find(s, from), Rewritten(s, from, to);
    var j := Find(r, to);
    if k == -1 {
      if j != -1 {
        BackOccurs(r, to, from, j);
      }
    } else {
      assert OccursAt(r, to, k);
      if j == k {
        assert r[..k] == s[..k] && r[k + |to|..] == s[k + |from|..];
        assert s == s[..k] + from + s[k + |from|..];
      } else {
        BackOccurs(r, to, from, j);
      }
    }
  }

  /** Where a text is put in, it stands. */
  lemma {:induction false} BackOccurs(r: string, to: string, from: string, j: int)
    requires Find(r, to) == j >= 0
    ensures OccursAt(Rewritten(r, to, from), from, j)
  {
    var b := r[..j] + from + r[j + |to|..];
    assert b[j..j + |from|] == from;
  }

  /** Removing a slash at the end and putting one back puts it at the front. */
  lemma {:induction false} EmptyTextNotUndone()
    ensures Rewritten("x/", "/", "") == "x" && Rewritten("x", "", "/") == "/x" != "x/"
  {
    assert "x/"[0..1] == "x" && "x/"[1..2] == "/";
    FindIs("x/", "/", 1);
    assert "x/"[..1] + "" + "x/"[2..] == "x";
    FindIs("x", "", 0);
    assert "x"[..0] + "/" + "x"[0..] == "/x";
  }

  // ---------------------------------------------------------------- the code

  /** strcpy(3) to offset k of a buffer that begins with `before`. */
  method Strcpy(buf: array<char>, k: nat, text: string, ghost before: string)
    requires k + |text| < buf.Length && NUL !in text && buf[..k] == before && NUL !in before
    modifies buf
    ensures Ended(buf[..], 0) && CStr(buf[..], 0) == before + text && buf[..k + |text|] == before + text
  {
    forall j | 0 <= j < |text| {
      buf[k + j] := text[j];
    }
    buf[k + |text|] := NUL;
    assert buf[..k] == before;
    assert buf[..][0..k + |text|] == before + text;
    CStrIs(buf[..], 0, before + text);
  }

  /** The string at a later offset of a C string is its tail. */
  lemma {:induction false} CStrTail(b: seq<char>, k: nat, s: string)
    requires Ended(b, 0) && CStr(b, 0) == s && k <= |s|
    ensures Ended(b, k) && CStr(b, k) == s[k..] && b[..k] == s[..k]
    ensures NUL !in s[..k] && NUL !in s[k..]
  {
    CStrCells(b, 0);
    assert b[k..k + |s[k..]|] == s[k..];
    CStrIs(b, k, s[k..]);
  }

  /** The three copies: the tail is saved, the new text laid over, and the tail put behind it. */
  method Splice(rw: array<char>, temp: array<char>, index: nat, skip: nat, newstring: string, ghost s: string)
    requires Ended(rw[..], 0) && CStr(rw[..], 0) == s && index + skip <= |s| && rw != temp
    requires |s| - index - skip < temp.Length && |s| - skip + |newstring| < rw.Length && NUL !in newstring
    modifies rw, temp
    ensures Ended(rw[..], 0) && CStr(rw[..], 0) == s[..index] + newstring + s[index + skip..]
  {
    CStrTail(rw[..], index, s);
    CStrTail(rw[..], index + skip, s);
    ghost var head, tail := s[..index], s[index + skip..];
    Strcpy(temp, 0, CStr(rw[..], index + skip), "");
    assert CStr(temp[..], 0) == tail by { assert "" + tail == tail; }
    PutBetween(rw, index, newstring, CStr(temp[..], 0), head);
  }

  method PutBetween(rw: array<char>, index: nat, newstring: string, tail: string, ghost head: string)
    requires index + |newstring| + |tail| < rw.Length && rw[..index] == head
    requires NUL !in head && NUL !in newstring && NUL !in tail
    modifies rw
    ensures Ended(rw[..], 0) && CStr(rw[..], 0) == head + newstring + tail
  {
    Strcpy(rw, index, newstring, head);
    Strcpy(rw, index + |newstring|, tail, head + newstring);
  }

  /** pathrewrite_rewrite */
  method Rewrite(orig: string, rw: array<char>, from: Option<string>, to: Option<string>)
    requires rw.Length == PATH_BUFFER && |orig| < PATH_BUFFER && NUL !in orig
    requires to.Some? ==> NUL !in to.value
    requires from.Some? && to.Some? ==> |Rewritten(orig, from.value, to.value)| < PATH_BUFFER
    modifies rw
    ensures Ended(rw[..], 0)
    ensures CStr(rw[..], 0) == if from.Some? && to.Some? then Rewritten(orig, from.value, to.value) else orig
  {
    var temp := new char[PATH_BUFFER];
    Strcpy(rw, 0, orig, "");
    assert "" + orig == orig;
    if from.Some? && to.Some? {
      var index := Find(CStr(rw[..], 0), from.value);
      if index != -1 {
        Splice(rw, temp, index, |from.value|, to.value, orig);
      }
    }
  }
}
