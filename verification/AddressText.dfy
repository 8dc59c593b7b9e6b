/** Socket addresses and their text "ip,port". */
module AddressText {
  import opened Text

  datatype Family = Inet | Inet6 | OtherFamily

  /** The bytes of an address and its port, in host order. */
  datatype Address = Address(family: Family, ip: seq<nat>, port: nat)

  const IPADDR_MAX_LEN: nat := 46
  const PORTNUM_MAX_LEN: nat := 5
  const SOCKET_ADDR_MAX_LEN: nat := IPADDR_MAX_LEN + 1 + PORTNUM_MAX_LEN

  /** inet_ntop and inet_pton for IPv6. */
  datatype V6 = V6(show: seq<nat> -> string, read: string -> Option<seq<nat>>)

  predicate Bytes(ip: seq<nat>, n: nat) {
    |ip| == n && forall k :: 0 <= k < n ==> ip[k] < 256
  }

  /** The IPv6 text is short, has a colon and no comma, and reads back; what is read is an IPv6 address. */
  ghost predicate Faithful(v6: V6) {
    && (forall ip :: Bytes(ip, 16) ==>
          var s := v6.show(ip);
          |s| < IPADDR_MAX_LEN && ':' in s && ',' !in s && NUL !in s && v6.read(s) == Some(ip))
    && (forall s :: v6.read(s).Some? ==> Bytes(v6.read(s).value, 16))
  }

  predicate Proper(a: Address) {
    a.port < 65536 && match a.family
                      case Inet => Bytes(a.ip, 4)
                      case Inet6 => Bytes(a.ip, 16)
                      case OtherFamily => true
  }

  predicate Internet(a: Address) {
    Proper(a) && !a.family.OtherFamily?
  }

  // ---------------------------------------------------------------- IPv4

  function Fields4(ip: seq<nat>): seq<string>
    requires |ip| == 4
  {
    seq(4, k requires 0 <= k < 4 => Decimal(ip[k]))
  }

  function Ntop4(ip: seq<nat>): string
    requires |ip| == 4
  {
    Join(Fields4(ip), '.')
  }

  /** One field of a dotted quad: no leading zero, at most 255. */
  predicate Octet(f: string) {
    f != "" && Digits(f) && (f[0] == '0' ==> |f| == 1) && Value(f) < 256
  }

  function Pton4(s: string): Option<seq<nat>> {
    FromFields(Split(s, '.'))
  }

  function FromFields(fs: seq<string>): Option<seq<nat>> {
    if |fs| == 4 && Octet(fs[0]) && Octet(fs[1]) && Octet(fs[2]) && Octet(fs[3])
    then Some([Value(fs[0]), Value(fs[1]), Value(fs[2]), Value(fs[3])])
    else None
  }

  lemma {:induction false} DecimalOctet(n: nat)
    requires n < 256
    ensures Octet(Decimal(n)) && Value(Decimal(n)) == n && |Decimal(n)| <= 3
  {
    DecimalHead(n);
    ValueOfDecimal(n);
    assert Pow10(1) == 10 && Pow10(2) == 100 && Pow10(3) == 1000;
    DecimalShort(n, 3);
  }

  lemma {:induction false} DigitsHold(s: string, c: char)
    requires Digits(s) && !IsDigit(c)
    ensures c !in s
  {
  }

  /** The fields of ip, each of them an octet that reads as its byte. */
  ghost predicate FieldsOf(fs: seq<string>, ip: seq<nat>) {
    |fs| == |ip| && forall k :: 0 <= k < |ip| ==> Octet(fs[k]) && Value(fs[k]) == ip[k] && |fs[k]| <= 3
  }

  lemma {:induction false} FieldsRead(fs: seq<string>, ip: seq<nat>)
    requires |ip| == 4 && FieldsOf(fs, ip)
    ensures FromFields(fs) == Some(ip)
  {
    assert ip == [Value(fs[0]), Value(fs[1]), Value(fs[2]), Value(fs[3])];
  }

  lemma {:induction false} FieldsPrinted(ip: seq<nat>)
    requires Bytes(ip, 4)
    ensures FieldsOf(Fields4(ip), ip)
  {
    forall k | 0 <= k < 4
      ensures Octet(Fields4(ip)[k]) && Value(Fields4(ip)[k]) == ip[k] && |Fields4(ip)[k]| <= 3
    {
      DecimalOctet(ip[k]);
    }
  }

  /** Only the canonical text of an address is read: four numbers below 256, without leading zeros. */
  lemma {:induction false} Inet4Only(s: string)
    requires Pton4(s).Some?
    ensures Bytes(Pton4(s).value, 4) && Ntop4(Pton4(s).value) == s
  {
    JoinSplit(s, '.');
    FieldsOnly(Split(s, '.'), Pton4(s).value);
  }

  lemma {:induction false} FieldsOnly(fs: seq<string>, ip: seq<nat>)
    requires |fs| == 4 == |ip| && forall k :: 0 <= k < 4 ==> Octet(fs[k]) && Value(fs[k]) == ip[k]
    ensures Bytes(ip, 4) && Fields4(ip) == fs
  {
    forall k | 0 <= k < 4
      ensures fs[k] == Decimal(ip[k]) && ip[k] < 256
    {
      OctetText(fs[k], ip[k]);
    }
  }

  lemma {:induction false} OctetText(f: string, n: nat)
    requires Octet(f) && Value(f) == n
    ensures f == Decimal(n) && n < 256
  {
    DecimalOnly(f);
  }

  /** An IPv4 address reads back. */
  lemma {:induction false} Inet4RoundTrip(ip: seq<nat>)
    requires Bytes(ip, 4)
    ensures Pton4(Ntop4(ip)) == Some(ip)
  {
    var fs := Fields4(ip);
    FieldsPrinted(ip);
    FieldsRead(fs, ip);
    forall k | 0 <= k < 4
      ensures '.' !in fs[k]
    {
      DigitsHold(fs[k], '.');
    }
    SplitJoin(fs, '.');
  }

  predicate DigitsAndDots(s: string) {
    forall k :: 0 <= k < |s| ==> IsDigit(s[k]) || s[k] == '.'
  }

  lemma {:induction false} JoinedDigits(fs: seq<string>)
    requires |fs| > 0 && forall k :: 0 <= k < |fs| ==> Digits(fs[k]) && |fs[k]| <= 3
    ensures |Join(fs, '.')| <= 4 * |fs| - 1 && DigitsAndDots(Join(fs, '.'))
  {
    if |fs| > 1 {
      JoinedDigits(fs[1..]);
      assert Join(fs, '.') == fs[0] + ['.'] + Join(fs[1..], '.');
    }
  }

  /** Its text has at most fifteen characters, all of them digits and dots. */
  lemma {:induction false} Inet4Text(ip: seq<nat>)
    requires Bytes(ip, 4)
    ensures |Ntop4(ip)| <= 15 && DigitsAndDots(Ntop4(ip))
  {
    FieldsPrinted(ip);
    JoinedDigits(Fields4(ip));
  }

  // ---------------------------------------------------------------- any address

  function Ntop(v6: V6, a: Address): string
    requires Internet(a)
  {
    if a.family.Inet? then Ntop4(a.ip) else v6.show(a.ip)
  }

  function Pton(v6: V6, family: Family, s: string): Option<seq<nat>> {
    match family
    case Inet => Pton4(s)
    case Inet6 => v6.read(s)
    case OtherFamily => None
  }

  /** The text of an address, which is also its name in the table. */
  function TextOf(v6: V6, a: Address): string
    requires Internet(a)
  {
    Ntop(v6, a) + "," + Decimal(a.port)
  }

  lemma {:induction false} QuadText(ip: seq<nat>)
    requires |ip| == 4
    ensures Ntop4(ip) == Decimal(ip[0]) + "." + Decimal(ip[1]) + "." + Decimal(ip[2]) + "." + Decimal(ip[3])
  {
    var fs := Fields4(ip);
    assert fs[1..][1..] == fs[2..] && fs[2..][1..] == fs[3..];
    assert Join(fs[3..], '.') == fs[3];
    assert Join(fs[2..], '.') == fs[2] + "." + fs[3];
    assert Join(fs[1..], '.') == fs[1] + "." + (fs[2] + "." + fs[3]);
    assert Join(fs, '.') == fs[0] + "." + (fs[1] + "." + (fs[2] + "." + fs[3]));
  }

  /** An address in numbers: for IPv4 its bytes with dots between them, for IPv6 what inet_ntop shows. */
  lemma {:induction false} NtopParts(v6: V6, a: Address)
    requires Internet(a)
    ensures Ntop(v6, a) == match a.family
                           case Inet => Decimal(a.ip[0]) + "." + Decimal(a.ip[1]) + "." +
                                        Decimal(a.ip[2]) + "." + Decimal(a.ip[3])
                           case _ => v6.show(a.ip)
  {
    if a.family.Inet? {
      QuadText(a.ip);
    }
  }

  /** n, one comma, and the digits of port without a leading zero: this is the whole of s. */
  ghost predicate NumberedText(s: string, n: string, port: nat) {
    && |n| < |s| && s[..|n|] == n && ',' !in n && s[|n|] == ','
    && var d := s[|n| + 1..];
       d != "" && Digits(d) && Value(d) == port && (d[0] == '0' ==> d == "0")
  }

  /** The text of an address is the address in numbers, a comma, and the port. */
  lemma {:induction false} TextParts(v6: V6, a: Address)
    requires Internet(a) && Faithful(v6)
    ensures NumberedText(TextOf(v6, a), Ntop(v6, a), a.port)
  {
    var n, d := Ntop(v6, a), Decimal(a.port);
    assert TextOf(v6, a)[|n| + 1..] == d;
    ValueOfDecimal(a.port);
    DecimalHead(a.port);
    if a.family.Inet? {
      Inet4Text(a.ip);
    }
  }

  /** And no other text is. */
  lemma {:induction false} TextOnly(v6: V6, a: Address, s: string)
    requires Internet(a) && NumberedText(s, Ntop(v6, a), a.port)
    ensures s == TextOf(v6, a)
  {
    NumberedOnly(s, Ntop(v6, a), a.port);
  }

  lemma {:induction false} NumberedOnly(s: string, n: string, port: nat)
    requires NumberedText(s, n, port)
    ensures s == n + "," + Decimal(port)
  {
    var d := s[|n| + 1..];
    assert s == n + [','] + d;
    assert d == Decimal(port) by {
      assert d[0] == '0' ==> |d| == 1;
      DecimalOnly(d);
    }
  }

  lemma {:induction false} QuadAndPort(v6: V6, a: Address, n: string, d: string, text: string)
    requires Internet(a) && a.family.Inet? && Ntop4(a.ip) == n && Decimal(a.port) == d && text == n + "," + d
    ensures TextOf(v6, a) == text
  {
  }

  /** Port 80 of 10.0.0.1 is "10.0.0.1,80". */
  lemma {:induction false} TenText(v6: V6, a: Address)
    requires a == Address(Inet, [10, 0, 0, 1], 80)
    ensures Internet(a) && TextOf(v6, a) == "10.0.0.1,80"
  {
    assert Decimal(a.ip[3]) == "1" && Decimal(a.port) == "80" by {
      SomeNumerals();
    }
    TenQuad(a.ip, "1", "10.0.0.1");
    QuadAndPort(v6, a, "10.0.0.1", "80", "10.0.0.1,80");
  }

  lemma {:induction false} TenQuad(ip: seq<nat>, last: string, text: string)
    requires |ip| == 4 && ip[0] == 10 && ip[1] == 0 && ip[2] == 0 && Decimal(ip[3]) == last && text == "10.0.0." + last
    ensures Ntop4(ip) == text
  {
    QuadText(ip);
    assert Decimal(ip[0]) == "10" && Decimal(ip[1]) == "0" == Decimal(ip[2]) by {
      SomeNumerals();
    }
    assert "10" + "." + "0" + "." + "0" + "." == "10.0.0.";
  }

  /** Index of the last c, or -1. */
  function LastIndexOf(s: string, c: char): (i: int)
    ensures -1 <= i < |s|
    ensures i >= 0 ==> s[i] == c
    decreases |s|
  {
    if s == "" then -1
    else if s[|s| - 1] == c then |s| - 1
    else LastIndexOf(s[..|s| - 1], c)
  }

  lemma {:induction false} LastIndexAppend(a: string, b: string, c: char)
    requires c !in b
    ensures LastIndexOf(a + [c] + b, c) == |a|
    decreases |b|
  {
    var s := a + [c] + b;
    if b != "" {
      assert s[..|s| - 1] == a + [c] + b[..|b| - 1];
      assert s[|s| - 1] == b[|b| - 1];
      LastIndexAppend(a, b[..|b| - 1], c);
    }
  }

  lemma {:induction false} PortText(port: nat)
    requires port < 65536
    ensures |Decimal(port)| <= PORTNUM_MAX_LEN && Atoi(Decimal(port)) == port
  {
    assert Pow10(1) == 10 && Pow10(2) == 100 && Pow10(3) == 1000 && Pow10(4) == 10_000 && Pow10(5) == 100_000;
    DecimalShort(port, 5);
    AtoiDecimal(port);
  }

  /** Printing an address, cutting the text at its last comma and reading the parts restores the address. */
  lemma {:induction false} TextRoundTrip(v6: V6, a: Address)
    requires Internet(a) && Faithful(v6)
    ensures var s := TextOf(v6, a);
            var i := LastIndexOf(s, ',');
            && i >= 0 && |s| <= SOCKET_ADDR_MAX_LEN && NUL !in s
            && Pton(v6, a.family, s[..i]) == Some(a.ip) && Atoi(s[i + 1..]) == a.port
  {
    var n, d := Ntop(v6, a), Decimal(a.port);
    var s := TextOf(v6, a);
    PortText(a.port);
    DigitsHold(d, ',');
    DigitsHold(d, NUL);
    LastIndexAppend(n, d, ',');
    assert s == n + [','] + d;
    assert s[..|n|] == n && s[|n| + 1..] == d;
    if a.family.Inet? {
      Inet4RoundTrip(a.ip);
      Inet4Text(a.ip);
    }
  }

  /** Different addresses have different texts. */
  lemma {:induction false} TextInjective(v6: V6, a: Address, b: Address)
    requires Internet(a) && Internet(b) && Faithful(v6) && TextOf(v6, a) == TextOf(v6, b)
    ensures a == b
  {
    TextRoundTrip(v6, a);
    TextRoundTrip(v6, b);
    if a.family == b.family {
    } else if a.family.Inet? {
      ColonTells(v6, a, b);
    } else {
      ColonTells(v6, b, a);
    }
  }

  lemma {:induction false} ColonTells(v6: V6, a: Address, b: Address)
    requires Internet(a) && Internet(b) && Faithful(v6) && a.family.Inet? && b.family.Inet6?
    ensures TextOf(v6, a) != TextOf(v6, b)
  {
    Inet4Text(a.ip);
    DigitsHold(Decimal(a.port), ':');
    assert ':' !in TextOf(v6, a);
    assert ':' in v6.show(b.ip);
    assert ':' in TextOf(v6, b);
  }
}
