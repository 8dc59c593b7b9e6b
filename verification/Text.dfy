/** C strings, separators and decimal numbers. */
module Text {
  datatype Option<+T> = None | Some(value: T)

  const NUL: char := '\0'
  const PATH_BUFFER: nat := 256  // _POSIX_PATH_MAX

  // ---------------------------------------------------------------- searching and splitting

  /** strchrnul(3): index of the first c, or the length. */
  function IndexOf(s: string, c: char): (i: nat)
    ensures i <= |s|
    ensures c !in s[..i]
    ensures i < |s| ==> s[i] == c
  {
    if s == "" || s[0] == c then 0 else
      var j := IndexOf(s[1..], c);
      assert s[..1 + j] == [s[0]] + s[1..][..j];
      1 + j
  }

  lemma {:induction false} IndexOfUnique(s: string, c: char, i: nat)
    requires i <= |s| && c !in s[..i] && (i < |s| ==> s[i] == c)
    ensures IndexOf(s, c) == i
  {
    if i > 0 {
      assert s[0] == s[..i][0];
      assert s[1..][..i - 1] == s[..i][1..];
      IndexOfUnique(s[1..], c, i - 1);
    }
  }

  /** The fields of s between separators; an empty text is one empty field. */
  function Split(s: string, c: char): (fs: seq<string>)
    ensures |fs| > 0
    decreases |s|
  {
    var i := IndexOf(s, c);
    if i == |s| then [s] else [s[..i]] + Split(s[i + 1..], c)
  }

  /** The first field, and the fields behind the first separator. */
  lemma {:induction false} SplitStep(s: string, c: char)
    ensures var n := IndexOf(s, c);
            && Split(s, c)[0] == s[..n]
            && Split(s, c)[1..] == if n == |s| then [] else Split(s[n + 1..], c)
  {
    var n := IndexOf(s, c);
    if n == |s| {
      assert s[..n] == s;
    } else {
      var rest := Split(s[n + 1..], c);
      assert Split(s, c) == [s[..n]] + rest && ([s[..n]] + rest)[1..] == rest;
    }
  }

  /** A text without separators is one field. */
  lemma {:induction false} SplitNone(s: string, c: char)
    requires c !in s
    ensures Split(s, c) == [s]
  {
    assert s[..|s|] == s;
    IndexOfUnique(s, c, |s|);
  }

  function Join(fs: seq<string>, c: char): string
    requires |fs| > 0
  {
    if |fs| == 1 then fs[0] else fs[0] + [c] + Join(fs[1..], c)
  }

  /** Splitting loses nothing, and no field holds a separator. */
  lemma {:induction false} JoinSplit(s: string, c: char)
    ensures Join(Split(s, c), c) == s
    ensures forall k :: 0 <= k < |Split(s, c)| ==> c !in Split(s, c)[k]
    decreases |s|
  {
    var i := IndexOf(s, c);
    if i == |s| {
      assert s[..i] == s;
    } else {
      JoinSplit(s[i + 1..], c);
      assert s == s[..i] + [c] + s[i + 1..];
    }
  }

  lemma {:induction false} SplitJoin(fs: seq<string>, c: char)
    requires |fs| > 0 && forall k :: 0 <= k < |fs| ==> c !in fs[k]
    ensures Split(Join(fs, c), c) == fs
  {
    var s := Join(fs, c);
    if |fs| == 1 {
      assert s[..|s|] == s;
      IndexOfUnique(s, c, |s|);
    } else {
      assert s[..|fs[0]|] == fs[0];
      IndexOfUnique(s, c, |fs[0]|);
      assert s[|fs[0]| + 1..] == Join(fs[1..], c);
      SplitJoin(fs[1..], c);
    }
  }

  // ---------------------------------------------------------------- strings in a buffer

  /** The C string at offset k of a buffer. */
  function CStr(b: seq<char>, k: nat): string
    requires k <= |b|
  {
    b[k..][..IndexOf(b[k..], NUL)]
  }

  /** The string at k is ended by a NUL within the buffer. */
  predicate Ended(b: seq<char>, k: nat) {
    k <= |b| && IndexOf(b[k..], NUL) < |b| - k
  }

  lemma {:induction false} CStrIs(b: seq<char>, k: nat, s: string)
    requires k + |s| < |b| && b[k + |s|] == NUL && NUL !in s && s == b[k..k + |s|]
    ensures Ended(b, k) && CStr(b, k) == s
  {
    assert b[k..][..|s|] == s;
    IndexOfUnique(b[k..], NUL, |s|);
  }

  /** What the buffer holds where a C string stands. */
  lemma {:induction false} CStrCells(b: seq<char>, k: nat)
    requires Ended(b, k)
    ensures var s := CStr(b, k); k + |s| < |b| && s == b[k..k + |s|] && b[k + |s|] == NUL && NUL !in s
  {
    var s := CStr(b, k);
    assert b[k..][|s|] == NUL;
  }

  // ---------------------------------------------------------------- numbers

  predicate IsDigit(c: char) {
    '0' <= c <= '9'
  }

  predicate Digits(s: string) {
    forall k :: 0 <= k < |s| ==> IsDigit(s[k])
  }

  function DigitOf(c: char): nat
    requires IsDigit(c)
  {
    c as nat - '0' as nat
  }

  /** Value of a decimal numeral, leading zeros allowed. */
  function Value(s: string): nat
    requires Digits(s)
    decreases |s|
  {
    if s == "" then 0 else Value(s[..|s| - 1]) * 10 + DigitOf(s[|s| - 1])
  }

  /** Printing with %u. */
  function Decimal(n: nat): (s: string)
    ensures s != "" && Digits(s)
  {
    (if n < 10 then "" else Decimal(n / 10)) + [(n % 10 + '0' as nat) as char]
  }

  lemma {:induction false} ValueOfDecimal(n: nat)
    ensures Value(Decimal(n)) == n
  {
    var s := Decimal(n);
    if n >= 10 {
      ValueOfDecimal(n / 10);
      assert s[..|s| - 1] == Decimal(n / 10);
    } else {
      assert s[..|s| - 1] == "";
    }
  }

  lemma {:induction false} DecimalHead(n: nat)
    ensures n > 0 ==> Decimal(n)[0] != '0'
    ensures n == 0 ==> Decimal(n) == "0"
  {
    if n >= 10 {
      DecimalHead(n / 10);
    }
  }

  /** What is printed is the one numeral of the value that has no leading zero. */
  lemma {:induction false} DecimalOnly(s: string)
    requires s != "" && Digits(s) && (s[0] == '0' ==> |s| == 1)
    ensures s == Decimal(Value(s))
    decreases |s|
  {
    var front := s[..|s| - 1];
    if front == "" {
      assert Value(s) == DigitOf(s[0]) && s == [s[0]];
    } else {
      assert front[0] == s[0];
      DecimalOnly(front);
      DecimalHead(Value(front));
      assert Value(s) / 10 == Value(front) && Value(s) % 10 == DigitOf(s[|s| - 1]);
      assert s == front + [s[|s| - 1]];
    }
  }

  lemma {:induction false} SomeNumerals()
    ensures Decimal(0) == "0" && Decimal(1) == "1" && Decimal(10) == "10" && Decimal(80) == "80"
    ensures Decimal(8080) == "8080"
  {
    assert Decimal(8) == "8";
    assert Decimal(808) == Decimal(80) + "8";
  }

  function Pow10(k: nat): (r: nat)
    ensures r > 0
  {
    if k == 0 then 1 else 10 * Pow10(k - 1)
  }

  lemma {:induction false} ValueBelow(s: string)
    requires Digits(s)
    ensures Value(s) < Pow10(|s|)
    decreases |s|
  {
    if s != "" {
      ValueBelow(s[..|s| - 1]);
    }
  }

  lemma {:induction false} DecimalShort(n: nat, k: nat)
    requires n < Pow10(k) && k > 0
    ensures |Decimal(n)| <= k
  {
    if n >= 10 {
      DecimalShort(n / 10, k - 1);
    }
  }

  lemma {:induction false} ValuePrefix(s: string, k: nat)
    requires Digits(s) && k <= |s|
    ensures Value(s[..k]) <= Value(s)
    ensures k < |s| && Value(s) > 0 ==> Value(s[..k]) < Value(s)
    decreases |s|
  {
    if k < |s| {
      ValuePrefix(s[..|s| - 1], k);
      assert s[..|s| - 1][..k] == s[..k];
    } else {
      assert s[..k] == s;
    }
  }

  /** End of the digits that start at i. */
  function DigitsEnd(s: string, i: nat): (j: nat)
    requires i <= |s|
    ensures i <= j <= |s| && Digits(s[i..j])
    ensures j < |s| ==> !IsDigit(s[j])
    decreases |s| - i
  {
    if i < |s| && IsDigit(s[i]) then DigitsEnd(s, i + 1) else i
  }

  const INT_MAX: int := 0x7FFF_FFFF
  const LONG_MAX: int := 0x7FFF_FFFF_FFFF_FFFF

  /** Conversion of a long to a 32-bit int. */
  function ToInt(x: int): (r: int)
    ensures -INT_MAX - 1 <= r <= INT_MAX
    ensures -INT_MAX - 1 <= x <= INT_MAX ==> r == x
  {
    (x + 0x8000_0000) % 0x1_0000_0000 - 0x8000_0000
  }

  /** An int keeps its value, and what is beyond comes round by 2^32. */
  lemma {:induction false} ToIntWraps(x: int, turns: int)
    requires -0x8000_0000 <= x < 0x8000_0000
    ensures ToInt(x + turns * 0x1_0000_0000) == x
  {
  }

  predicate IsSpace(c: char) {
    c == ' ' || '\t' <= c <= '\r'
  }

  function SkipSpace(s: string): string {
    if s != "" && IsSpace(s[0]) then SkipSpace(s[1..]) else s
  }

  /** A number with an optional sign, saturating. */
  function SignedValue(a: string): int {
    var neg := a != "" && a[0] == '-';
    var b := if a != "" && (a[0] == '-' || a[0] == '+') then a[1..] else a;
    var v: int := Value(b[0..DigitsEnd(b, 0)]);
    if neg then if v > LONG_MAX + 1 then -LONG_MAX - 1 else -v
    else if v > LONG_MAX then LONG_MAX else v
  }

  /** strtol(3) in base ten. */
  function Strtol(s: string): int {
    SignedValue(SkipSpace(s))
  }

  /** atoi(3) of glibc: strtol cut to an int. */
  function Atoi(s: string): int {
    ToInt(Strtol(s))
  }

  lemma {:induction false} DigitsEndIs(s: string, i: nat, j: nat)
    requires i <= j <= |s| && Digits(s[i..j]) && (j < |s| ==> !IsDigit(s[j]))
    ensures DigitsEnd(s, i) == j
    decreases j - i
  {
    if i < j {
      assert s[i] == s[i..j][0];
      assert s[i + 1..j] == s[i..j][1..];
      DigitsEndIs(s, i + 1, j);
    }
  }

  /** atoi reads the digits a text starts with. */
  lemma {:induction false} AtoiDigits(d: string, rest: string)
    requires d != "" && Digits(d) && (rest != "" ==> !IsDigit(rest[0]))
    ensures Atoi(d + rest) == ToInt(if Value(d) > LONG_MAX then LONG_MAX else Value(d))
  {
    var s := d + rest;
    assert s[0] == d[0];
    assert s[0..|d|] == d;
    DigitsEndIs(s, 0, |d|);
  }

  /** Digits behind white space and a sign, held within a long. */
  lemma {:induction false} SignedDigits(sign: string, d: string, rest: string)
    requires sign in {"", "+", "-"} && Digits(d) && (rest != "" ==> !IsDigit(rest[0]))
    requires sign + d == "" ==> rest == "" || rest[0] !in "+-"
    ensures SignedValue(sign + d + rest) ==
            var n: int := Value(d);
            var v := if sign == "-" then -n else n;
            if v < -0x8000_0000_0000_0000 then -0x8000_0000_0000_0000
            else if v > 0x7FFF_FFFF_FFFF_FFFF then 0x7FFF_FFFF_FFFF_FFFF else v
  {
    var a, b := sign + d + rest, d + rest;
    assert b[0..|d|] == d;
    DigitsEndIs(b, 0, |d|);
    if sign == "" {
      assert a == b;
      assert d != "" ==> a[0] == d[0];
    } else {
      assert a[0] == sign[0] && a[1..] == b;
    }
  }

  lemma {:induction false} SkipBlanks(blanks: string, a: string)
    requires forall k :: 0 <= k < |blanks| ==> blanks[k] in " \t\n\U{0B}\U{0C}\r"
    requires a != "" ==> a[0] !in " \t\n\U{0B}\U{0C}\r"
    ensures SkipSpace(blanks + a) == a
  {
    if blanks == "" {
      assert blanks + a == a;
    } else {
      assert (blanks + a)[1..] == blanks[1..] + a;
      SkipBlanks(blanks[1..], a);
    }
  }

  /**
   * atoi reads white space, a sign and the digits up to the next other character, and holds the number within a long
   * before it cuts it to an int. A text without a number in front reads as zero.
   */
  lemma {:induction false} AtoiText(blanks: string, sign: string, d: string, rest: string)
    requires forall k :: 0 <= k < |blanks| ==> blanks[k] in " \t\n\U{0B}\U{0C}\r"
    requires sign in {"", "+", "-"} && Digits(d) && (rest != "" ==> !IsDigit(rest[0]))
    requires sign + d == "" ==> rest == "" || rest[0] !in "+- \t\n\U{0B}\U{0C}\r"
    ensures Atoi(blanks + (sign + d + rest)) ==
            var n: int := Value(d);
            var v := if sign == "-" then -n else n;
            ToInt(if v < -0x8000_0000_0000_0000 then -0x8000_0000_0000_0000
                  else if v > 0x7FFF_FFFF_FFFF_FFFF then 0x7FFF_FFFF_FFFF_FFFF else v)
  {
    var a := sign + d + rest;
    assert a != "" ==> a[0] == if sign != "" then sign[0] else if d != "" then d[0] else rest[0];
    SkipBlanks(blanks, a);
    SignedDigits(sign, d, rest);
  }

  lemma {:induction false} ToIntPort(x: int)
    ensures ToInt(x) % 65536 == x % 65536
  {
    var turns := (x + 0x8000_0000) / 0x1_0000_0000;
    assert ToInt(x) == x - turns * 65536 * 65536;
  }

  /** A numeral cut to 16 bits is its value modulo 65536; one beyond a long is 65535. */
  lemma {:induction false} AtoiPort(d: string)
    requires d != "" && Digits(d)
    ensures Atoi(d) % 65536 == if Value(d) <= 0x7FFF_FFFF_FFFF_FFFF then Value(d) % 65536 else 65535
  {
    AtoiText("", "", d, "");
    assert "" + ("" + d + "") == d;
    ToIntPort(Value(d));
  }

  /** An int that is printed reads back. */
  lemma {:induction false} AtoiDecimal(n: nat)
    requires n < 0x8000_0000
    ensures Atoi(Decimal(n)) == n
  {
    var d := Decimal(n);
    ValueOfDecimal(n);
    assert d + "" == d;
    AtoiDigits(d, "");
  }
}
