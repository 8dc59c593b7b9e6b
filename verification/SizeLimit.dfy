/** The size option of a recycle bin, as in "10k-1G". */
module SizeLimit {
  import opened Text

  predicate IsUnit(c: char) {
    c in "BkMGbKmg"
  }

  /** What a unit character multiplies by; any other character counts as one. */
  function Factor(c: char): (f: nat)
    ensures f in {1, 1024, 1024 * 1024, 1024 * 1024 * 1024}
  {
    if c == 'k' || c == 'K' then 1024
    else if c == 'm' || c == 'M' then 1024 * 1024
    else if c == 'g' || c == 'G' then 1024 * 1024 * 1024
    else 1
  }

  /** Group offsets of a match: end of the first number, and the second number if there is one. */
  datatype Groups = Groups(end1: nat, second: Option<(nat, nat)>)

  function SkipUnit(s: string, i: nat): nat
    requires i <= |s|
  {
    if i < |s| && IsUnit(s[i]) then i + 1 else i
  }

  /** ^([0-9]+)([BkMG]?)(-([0-9]+)([BkMG]?))?$ without regard to case */
  function MatchLimit(s: string): (r: Option<Groups>)
    ensures r.Some? ==> 0 < r.value.end1 <= |s| && Digits(s[0..r.value.end1])
    ensures r.Some? && r.value.second.Some? ==>
              var (i, j) := r.value.second.value; r.value.end1 < i < j <= |s| && Digits(s[i..j])
  {
    var a := DigitsEnd(s, 0);
    var b := SkipUnit(s, a);
    if a == 0 then None
    else if b == |s| then Some(Groups(a, None))
    else if s[b] != '-' then None
    else
      var c := DigitsEnd(s, b + 1);
      if c > b + 1 && SkipUnit(s, c) == |s| then Some(Groups(a, Some((b + 1, c)))) else None
  }

  /** The character at i, the terminating NUL included. */
  function CharAt(s: string, i: nat): char
    requires i <= |s|
  {
    if i < |s| then s[i] else NUL
  }

  function Lesser(a: nat, b: nat): nat {
    if a < b then a else b
  }

  /** A number with its unit as the code reads it: 15 digits at most, an int, times the factor. */
  function SizeOf(digits: string, unit: char): (r: int)
    requires digits != "" && Digits(digits)
    ensures -0x2000_0000_0000_0000 <= r < 0x2000_0000_0000_0000
  {
    ToInt(Value(digits[..Lesser(15, |digits|)])) * Factor(unit)
  }

  /** recyclix_tosize: the C string is str, numStart is -1 for a group that did not take part. */
  method ToSize(str: string, numStart: int, digits: int, unit: int) returns (size: int)
    requires numStart == -1 ||
             (0 <= numStart < numStart + digits <= |str| && 0 <= unit <= |str| &&
              Digits(str[numStart..numStart + digits]) && (unit < |str| ==> !IsDigit(str[unit])) &&
              unit == numStart + digits)
    ensures size == if numStart == -1 then 0
                    else SizeOf(str[numStart..numStart + digits], CharAt(str, unit))
    ensures -0x2000_0000_0000_0000 <= size < 0x2000_0000_0000_0000
  {
    if numStart == -1 {
      return 0;
    }
    // snprintf into number[16]: at most size - 1 characters of the rest of the string
    var room := if 16 > digits + 1 then digits + 1 else 16;
    var number := str[numStart..][..room - 1];
    assert number == str[numStart..numStart + digits][..Lesser(15, digits)];
    AtoiDigits(number, "");
    assert number + "" == number;
    FifteenDigits(number);
    size := Atoi(number);
    var c := CharAt(str, unit);
    if c == 'k' || c == 'K' {
      size := size * 1024;
    } else if c == 'm' || c == 'M' {
      size := size * (1024 * 1024);
    } else if c == 'g' || c == 'G' {
      size := size * (1024 * 1024 * 1024);
    }
  }

  lemma {:induction false} FifteenDigits(d: string)
    requires Digits(d) && |d| <= 15
    ensures Value(d) < 1_000_000_000_000_000
  {
    ValueBelow(d);
    PowMonotone(|d|, 15);
    TenAndFifteen();
  }

  lemma {:induction false} PowSplit(a: nat, b: nat)
    ensures Pow10(a + b) == Pow10(a) * Pow10(b)
  {
    if a > 0 {
      PowSplit(a - 1, b);
    }
  }

  lemma {:induction false} TenAndFifteen()
    ensures Pow10(10) == 10_000_000_000 && Pow10(15) == 1_000_000_000_000_000
  {
    assert Pow10(1) == 10 && Pow10(2) == 100 && Pow10(3) == 1000 && Pow10(4) == 10_000 && Pow10(5) == 100_000;
    PowSplit(5, 5);
    PowSplit(10, 5);
  }

  lemma {:induction false} PowMonotone(a: nat, b: nat)
    requires a <= b
    ensures Pow10(a) <= Pow10(b)
    decreases b
  {
    if a < b {
      PowMonotone(a, b - 1);
    }
  }

  lemma {:induction false} ToIntBelow(v: nat)
    ensures ToInt(v) <= v
    ensures ToInt(v) == v <==> v <= INT_MAX
  {
  }

  /** The code reads a number right exactly when it fits an int within its first 15 digits, or is zero. */
  lemma {:induction false} SizeExact(digits: string, unit: char)
    requires digits != "" && Digits(digits)
    ensures SizeOf(digits, unit) == Value(digits) * Factor(unit) <==>
            (|digits| <= 15 && Value(digits) <= INT_MAX) || Value(digits) == 0
  {
    var k := Lesser(15, |digits|);
    var w := Value(digits[..k]);
    ValuePrefix(digits, k);
    ToIntBelow(w);
    assert |digits| <= 15 ==> digits[..k] == digits;
    FactorCancels(ToInt(w), Value(digits), Factor(unit));
  }

  lemma {:induction false} FactorCancels(a: int, b: int, f: nat)
    requires f in {1, 1024, 1024 * 1024, 1024 * 1024 * 1024}
    ensures a * f == b * f <==> a == b
  {
    if f == 1 {
    } else if f == 1024 {
    } else if f == 1024 * 1024 {
    } else {
    }
  }

  // ---------------------------------------------------------------- the grammar

  /** Text of a number and an optional unit. */
  predicate Quantity(s: string, digits: string, unit: string) {
    s == digits + unit && digits != "" && Digits(digits) && (unit == "" || (|unit| == 1 && IsUnit(unit[0])))
  }

  lemma {:induction false} QuantityRead(s: string, i: nat, n: nat)
    requires i < n <= |s| && Digits(s[i..n]) && (n < |s| ==> !IsDigit(s[n]))
    ensures DigitsEnd(s, i) == n
  {
    DigitsEndIs(s, i, n);
  }

  /** A single number matches as such, with its end as the offset of the unit. */
  lemma {:induction false} MatchSingle(digits: string, unit: string)
    requires Quantity(digits + unit, digits, unit)
    ensures MatchLimit(digits + unit) == Some(Groups(|digits|, None))
  {
    var s := digits + unit;
    assert s[0..|digits|] == digits;
    QuantityRead(s, 0, |digits|);
  }

  /** A pair matches as such. */
  lemma {:induction false} MatchPair(d1: string, u1: string, d2: string, u2: string)
    requires Quantity(d1 + u1, d1, u1) && Quantity(d2 + u2, d2, u2)
    ensures var i := |d1| + |u1| + 1;
            MatchLimit(d1 + u1 + "-" + d2 + u2) == Some(Groups(|d1|, Some((i, i + |d2|))))
  {
    var s := d1 + u1 + "-" + d2 + u2;
    var i := |d1| + |u1| + 1;
    assert s[0..|d1|] == d1;
    QuantityRead(s, 0, |d1|);
    assert s[i - 1] == '-';
    assert s[i..i + |d2|] == d2;
    QuantityRead(s, i, i + |d2|);
  }

  /** Everything that matches is one quantity or two joined by a dash. */
  lemma {:induction false} MatchOnly(s: string)
    requires MatchLimit(s).Some?
    ensures var g := MatchLimit(s).value;
            match g.second
            case None => Quantity(s, s[..g.end1], s[g.end1..])
            case Some((i, j)) => s[i - 1] == '-' && Quantity(s[..i - 1], s[..g.end1], s[g.end1..i - 1]) &&
                                 Quantity(s[i..], s[i..j], s[j..])
  {
    var g := MatchLimit(s).value;
    assert s[0..g.end1] == s[..g.end1];
  }

  // ---------------------------------------------------------------- limits

  datatype Limits = Limits(min: int, max: int)

  /** The two calls of recyclix_tosize on a matching option. */
  function LimitsOf(s: string): Limits
    requires MatchLimit(s).Some?
  {
    var g := MatchLimit(s).value;
    var max := match g.second
               case None => 0
               case Some((i, j)) => SizeOf(s[i..j], CharAt(s, j));
    Limits(SizeOf(s[0..g.end1], CharAt(s, g.end1)), max)
  }

  /** A quantity's unit as the code sees it: the character behind the number, whatever that is. */
  function UnitChar(unit: string, next: char): char {
    if unit == "" then next else unit[0]
  }

  lemma {:induction false} PairRead(d1: string, u1: string, d2: string, u2: string)
    requires Quantity(d1 + u1, d1, u1) && Quantity(d2 + u2, d2, u2)
    ensures var s := d1 + u1 + "-" + d2 + u2;
            MatchLimit(s).Some? &&
            LimitsOf(s) == Limits(SizeOf(d1, UnitChar(u1, '-')), SizeOf(d2, UnitChar(u2, NUL)))
  {
    var s := d1 + u1 + "-" + d2 + u2;
    MatchPair(d1, u1, d2, u2);
    var i := |d1| + |u1| + 1;
    assert s[0..|d1|] == d1 && s[|d1|] == (u1 + "-")[0];
    assert s[i..i + |d2|] == d2 && s[i + |d2|..] == u2;
  }

  lemma {:induction false} SingleRead(d: string, u: string)
    requires Quantity(d + u, d, u)
    ensures MatchLimit(d + u).Some? && LimitsOf(d + u) == Limits(SizeOf(d, UnitChar(u, NUL)), 0)
  {
    var s := d + u;
    MatchSingle(d, u);
    assert s[0..|d|] == d && s[|d|..] == u;
  }

  function Power(b: nat, e: nat): nat {
    if e == 0 then 1 else b * Power(b, e - 1)
  }

  /** c is the unit of 1024 to the power e, in either case. */
  predicate UnitOf(c: char, e: nat) {
    e < 4 && (c == "BkMG"[e] || c == "bKmg"[e])
  }

  lemma {:induction false} FactorIsPower(c: char, e: nat)
    requires UnitOf(c, e)
    ensures IsUnit(c) && Factor(c) == Power(1024, e)
  {
    assert Power(1024, 0) == 1 && Power(1024, 1) == 1024;
    assert Power(1024, 2) == 1024 * Power(1024, 1) && Power(1024, 3) == 1024 * Power(1024, 2);
  }

  lemma {:induction false} IntDigits(n: nat)
    requires n <= INT_MAX
    ensures |Decimal(n)| <= 15 && Value(Decimal(n)) == n
  {
    TenAndFifteen();
    DecimalShort(n, 10);
    ValueOfDecimal(n);
  }

  /** There are no other units than those of the four powers. */
  lemma {:induction false} UnitsOnly(c: char)
    requires IsUnit(c)
    ensures exists e :: UnitOf(c, e)
  {
    assert "BkMGbKmg"[..4] == "BkMG" && "BkMGbKmg"[4..] == "bKmg";
    var k :| 0 <= k < 8 && "BkMGbKmg"[k] == c;
    assert UnitOf(c, if k < 4 then k else k - 4);
  }

  /** The unit of 1024 to the power e, which may be left out for bytes. */
  predicate UnitText(unit: string, e: nat) {
    if unit == "" then e == 0 else |unit| == 1 && UnitOf(unit[0], e)
  }

  lemma {:induction false} QuantityMeans(n: nat, unit: string, e: nat, next: char)
    requires n < 0x8000_0000 && UnitText(unit, e) && next in {NUL, '-'}
    ensures Quantity(Decimal(n) + unit, Decimal(n), unit)
    ensures SizeOf(Decimal(n), UnitChar(unit, next)) == n * Power(1024, e)
  {
    IntDigits(n);
    SizeExact(Decimal(n), UnitChar(unit, next));
    if unit != "" {
      FactorIsPower(unit[0], e);
    }
  }

  /** Printing a pair of limits, with the units of powers of 1024 or without, and reading it back. */
  lemma {:induction false} LimitsRoundTrip(n1: nat, u1: string, e1: nat, n2: nat, u2: string, e2: nat)
    requires n1 < 0x8000_0000 && n2 < 0x8000_0000 && UnitText(u1, e1) && UnitText(u2, e2)
    ensures var s := Decimal(n1) + u1 + "-" + Decimal(n2) + u2;
            MatchLimit(s).Some? && LimitsOf(s) == Limits(n1 * Power(1024, e1), n2 * Power(1024, e2))
  {
    QuantityMeans(n1, u1, e1, '-');
    QuantityMeans(n2, u2, e2, NUL);
    PairRead(Decimal(n1), u1, Decimal(n2), u2);
  }

  lemma {:induction false} BytePair(n: nat, m: nat)
    requires n < 0x8000_0000 && m < 0x8000_0000
    ensures var s := Decimal(n) + "-" + Decimal(m); MatchLimit(s).Some? && LimitsOf(s) == Limits(n, m)
  {
    assert Decimal(n) + "" + "-" + Decimal(m) + "" == Decimal(n) + "-" + Decimal(m);
    LimitsRoundTrip(n, "", 0, m, "", 0);
  }

  /** A lower limit alone, with a unit or in bytes, sets no upper limit. */
  lemma {:induction false} MinimumAlone(n: nat, unit: string, e: nat)
    requires n < 0x8000_0000 && UnitText(unit, e)
    ensures var s := Decimal(n) + unit; MatchLimit(s).Some? && LimitsOf(s) == Limits(n * Power(1024, e), 0)
  {
    QuantityMeans(n, unit, e, NUL);
    SingleRead(Decimal(n), unit);
  }
}
