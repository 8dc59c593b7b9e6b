/** The lists of connect in autossl: which connections are upgraded. */
module AutoSsl {
  import opened Text

  datatype Scan = Matched | Unmatched | Malformed

  /** What one place of a list reads as: None is an error. */
  type Reader = string -> Option<nat>

  /** atoi cut to an in_port_t. */
  function PortOf(s: string): nat {
    Atoi(s) % 65536
  }

  /** Zero is an error. */
  function ReadPort(s: string): Option<nat> {
    if PortOf(s) == 0 then None else Some(PortOf(s))
  }

  // ---------------------------------------------------------------- the meaning of a list

  /** What the list reads as from its fields: the text goes on to the end of the list. */
  function Readings(list: string, read: Reader): (rs: seq<Option<nat>>)
    ensures |rs| > 0
    decreases |list|
  {
    var i := IndexOf(list, ' ');
    [read(list)] + if i == |list| then [] else Readings(list[i + 1..], read)
  }

  function ScanReadings(rs: seq<Option<nat>>, target: nat): Scan {
    if rs == [] then Unmatched
    else if rs[0].None? then Malformed
    else if rs[0].value == target then Matched
    else ScanReadings(rs[1..], target)
  }

  ghost predicate MatchAt(rs: seq<Option<nat>>, target: nat, i: nat) {
    i < |rs| && rs[i] == Some(target) && forall j :: 0 <= j < i ==> rs[j].Some?
  }

  ghost predicate ErrorAt(rs: seq<Option<nat>>, target: nat, i: nat) {
    i < |rs| && rs[i].None? && forall j :: 0 <= j < i ==> rs[j].Some? && rs[j].value != target
  }

  /** A list matches exactly when a field does and no field before it is malformed. */
  lemma {:induction false} ScanExact(rs: seq<Option<nat>>, target: nat)
    ensures ScanReadings(rs, target) == Matched <==> exists i :: MatchAt(rs, target, i)
    ensures ScanReadings(rs, target) == Malformed <==> exists i :: ErrorAt(rs, target, i)
  {
    if rs != [] && rs[0].Some? && rs[0].value != target {
      var rest := rs[1..];
      ScanExact(rest, target);
      forall i: nat
        ensures MatchAt(rest, target, i) <==> MatchAt(rs, target, i + 1)
        ensures ErrorAt(rest, target, i) <==> ErrorAt(rs, target, i + 1)
      {
        ShiftedFields(rs, target, i);
      }
      if i: nat :| MatchAt(rs, target, i) {
        assert MatchAt(rest, target, i - 1);
      }
      if i: nat :| ErrorAt(rs, target, i) {
        assert ErrorAt(rest, target, i - 1);
      }
    } else if rs != [] && rs[0].Some? {
      assert MatchAt(rs, target, 0);
    } else if rs != [] {
      assert ErrorAt(rs, target, 0);
    }
  }

  lemma {:induction false} ShiftedFields(rs: seq<Option<nat>>, target: nat, i: nat)
    requires rs != [] && rs[0].Some? && rs[0].value != target
    ensures MatchAt(rs[1..], target, i) <==> MatchAt(rs, target, i + 1)
    ensures ErrorAt(rs[1..], target, i) <==> ErrorAt(rs, target, i + 1)
  {
    assert forall j :: 0 <= j < |rs[1..]| ==> rs[1..][j] == rs[j + 1];
    assert forall j :: 1 <= j < |rs| ==> rs[j] == rs[1..][j - 1];
  }

  // ---------------------------------------------------------------- ports by their fields

  /** What the ports of a list are: a blank field is passed over to the next one, and is an error at the end. */
  function FieldPorts(fields: seq<string>): seq<Option<nat>> {
    if fields == [] then []
    else
      var rest := FieldPorts(fields[1..]);
      var first := if SkipSpace(fields[0]) != "" then ReadPort(fields[0]) else if rest == [] then None else rest[0];
      [first] + rest
  }

  lemma {:induction false} SkipSpaceAppend(a: string, b: string)
    ensures SkipSpace(a + " " + b) == if SkipSpace(a) != "" then SkipSpace(a) + " " + b else SkipSpace(b)
    decreases |a|
  {
    if a == "" {
      assert (a + " " + b)[1..] == b;
    } else if IsSpace(a[0]) {
      assert (a + " " + b)[1..] == a[1..] + " " + b;
      SkipSpaceAppend(a[1..], b);
    }
  }

  /** Reading a number stops at a space. */
  lemma {:induction false} DigitsEndAppend(a: string, i: nat, b: string)
    requires i <= |a|
    ensures DigitsEnd(a + " " + b, i) == DigitsEnd(a, i)
    decreases |a| - i
  {
    var s := a + " " + b;
    assert i < |a| ==> s[i] == a[i];
    if i < |a| && IsDigit(a[i]) {
      DigitsEndAppend(a, i + 1, b);
    }
  }

  lemma {:induction false} SkipSpaceStops(s: string)
    ensures SkipSpace(SkipSpace(s)) == SkipSpace(s)
  {
    if s != "" && IsSpace(s[0]) {
      SkipSpaceStops(s[1..]);
    }
  }

  lemma {:induction false} SignedValueAppend(a: string, b: string)
    requires a != ""
    ensures SignedValue(a + " " + b) == SignedValue(a)
  {
    var s := a + " " + b;
    assert s[0] == a[0];
    assert s[1..] == a[1..] + " " + b;
    DigitsEndAppend(a, 0, b);
    DigitsEndAppend(a[1..], 0, b);
    assert s[0..DigitsEnd(a, 0)] == a[0..DigitsEnd(a, 0)];
    assert s[1..][0..DigitsEnd(a[1..], 0)] == a[1..][0..DigitsEnd(a[1..], 0)];
  }

  /** atoi of the rest of the list is atoi of its first field that is not blank. */
  lemma {:induction false} AtoiField(a: string, b: string)
    ensures Atoi(a + " " + b) == if SkipSpace(a) != "" then Atoi(a) else Atoi(b)
  {
    SkipSpaceAppend(a, b);
    if SkipSpace(a) != "" {
      SignedValueAppend(SkipSpace(a), b);
    }
  }

  /** The readings of a list of ports are those of its fields. */
  lemma {:induction false} PortsByField(list: string)
    ensures Readings(list, ReadPort) == FieldPorts(Split(list, ' '))
    decreases |list|
  {
    var i := IndexOf(list, ' ');
    if i == |list| {
      BlankPort(list);
      assert FieldPorts([list]) == [ReadPort(list)];
    } else {
      var a, b := list[..i], list[i + 1..];
      assert list == a + " " + b;
      AtoiField(a, b);
      PortsByField(b);
      assert Split(list, ' ')[1..] == Split(b, ' ');
      assert Readings(b, ReadPort)[0] == ReadPort(b);
    }
  }

  lemma {:induction false} BlankPort(s: string)
    ensures SkipSpace(s) == "" ==> ReadPort(s) == None
  {
    assert Value("") == 0;
    assert ""[0..0] == "";
  }

  // ---------------------------------------------------------------- numbers written out

  /** A numeral stands for its value modulo 65536, one beyond a long for 65535; what comes to zero is an error. */
  lemma {:induction false} NumeralPort(d: string)
    requires d != "" && Digits(d)
    ensures var n := if Value(d) <= 0x7FFF_FFFF_FFFF_FFFF then Value(d) % 65536 else 65535;
            ReadPort(d) == if n == 0 then None else Some(n)
  {
    AtoiPort(d);
  }

  lemma {:induction false} PortNumeral(d: string, n: nat)
    requires d != "" && Digits(d) && Value(d) == n && 0 < n < 65536
    ensures ReadPort(d) == Some(n)
  {
    NumeralPort(d);
  }

  /** The field of a port is that port. */
  lemma {:induction false} PrintedPort(n: nat)
    requires 0 < n < 65536
    ensures ReadPort(Decimal(n)) == Some(n)
  {
    ValueOfDecimal(n);
    PortNumeral(Decimal(n), n);
  }

  function Printed(ns: seq<nat>): seq<string> {
    seq(|ns|, i requires 0 <= i < |ns| => Decimal(ns[i]))
  }

  lemma {:induction false} FieldsAre(fields: seq<string>, ns: seq<nat>)
    requires |fields| == |ns| && forall i :: 0 <= i < |ns| ==> ReadPort(fields[i]) == Some(ns[i])
    ensures |FieldPorts(fields)| == |ns| && forall i :: 0 <= i < |ns| ==> FieldPorts(fields)[i] == Some(ns[i])
    decreases |fields|
  {
    if fields != [] {
      FieldsAre(fields[1..], ns[1..]);
      BlankPort(fields[0]);
      assert FieldPorts(fields) == [ReadPort(fields[0])] + FieldPorts(fields[1..]);
    }
  }

  /** Port numbers with spaces between them are read as these ports. */
  lemma {:induction false} PrintedPorts(ns: seq<nat>)
    requires |ns| > 0 && forall i :: 0 <= i < |ns| ==> 0 < ns[i] < 65536
    ensures var rs := FieldPorts(Split(Join(Printed(ns), ' '), ' '));
            |rs| == |ns| && forall i :: 0 <= i < |ns| ==> rs[i] == Some(ns[i])
  {
    var fields := Printed(ns);
    forall i | 0 <= i < |ns|
      ensures ' ' !in fields[i] && ReadPort(fields[i]) == Some(ns[i])
    {
      PrintedPort(ns[i]);
      assert Digits(fields[i]);
    }
    SplitJoin(fields, ' ');
    FieldsAre(fields, ns);
  }

  /** Such a list matches exactly the ports in it, and is never an error. */
  lemma {:induction false} PrintedMatch(ns: seq<nat>, port: nat)
    requires |ns| > 0 && forall i :: 0 <= i < |ns| ==> 0 < ns[i] < 65536
    ensures var rs := FieldPorts(Split(Join(Printed(ns), ' '), ' '));
            ((exists i :: MatchAt(rs, port, i)) <==> port in ns) && !exists i :: ErrorAt(rs, port, i)
  {
    PrintedPorts(ns);
    var rs := FieldPorts(Split(Join(Printed(ns), ' '), ' '));
    if port in ns {
      var i: nat :| i < |ns| && ns[i] == port;
      assert MatchAt(rs, port, i);
    }
  }

  /** The list "80 8080" is for the ports 80 and 8080. */
  lemma {:induction false} TwoPorts(port: nat)
    ensures (exists i :: MatchAt(FieldPorts(Split("80 8080", ' ')), port, i)) <==> port == 80 || port == 8080
  {
    TwoPrinted([80, 8080]);
    PrintedMatch([80, 8080], port);
  }

  lemma {:induction false} TwoPrinted(ns: seq<nat>)
    requires ns == [80, 8080]
    ensures Join(Printed(ns), ' ') == "80 8080"
  {
    SomeNumerals();
    var fields := Printed(ns);
    assert fields[1..] == ["8080"] && Join(fields[1..], ' ') == "8080" && fields[0] == "80";
    assert "80" + " " + "8080" == "80 8080";
  }

  // ---------------------------------------------------------------- addresses by their fields

  /** inet_aton: what follows a space is not read. */
  ghost predicate StopsAtSpace(aton: Reader) {
    forall a, b :: ' ' !in a ==> aton(a + " " + b) == aton(a)
  }

  function FieldAddresses(fields: seq<string>, aton: Reader): (rs: seq<Option<nat>>)
    ensures |rs| == |fields| && forall k :: 0 <= k < |fields| ==> rs[k] == aton(fields[k])
  {
    seq(|fields|, k requires 0 <= k < |fields| => aton(fields[k]))
  }

  /** The readings of a list of addresses are those of its fields. */
  lemma {:induction false} AddressesByField(list: string, aton: Reader)
    requires StopsAtSpace(aton)
    ensures Readings(list, aton) == FieldAddresses(Split(list, ' '), aton)
    decreases |list|
  {
    var i := IndexOf(list, ' ');
    if i < |list| {
      var a, b := list[..i], list[i + 1..];
      assert list == a + " " + b;
      AddressesByField(b, aton);
      assert Split(list, ' ') == [a] + Split(b, ' ');
    }
  }

  // ---------------------------------------------------------------- the loops

  /** One turn of a loop at pos: the reading there decides, or what follows the next space does. */
  lemma {:induction false} ScanAt(list: string, pos: nat, read: Reader, target: nat)
    requires pos <= |list|
    ensures var r := ScanReadings(Readings(list[pos..], read), target);
            var sep := pos + IndexOf(list[pos..], ' ');
            match read(list[pos..])
            case None => r == Malformed
            case Some(x) =>
              if x == target then r == Matched
              else if sep == |list| then r == Unmatched
              else r == ScanReadings(Readings(list[sep + 1..], read), target)
  {
    var s := list[pos..];
    var i := IndexOf(s, ' ');
    if i == |s| {
      assert Readings(s, read)[1..] == [];
    } else {
      assert s[i + 1..] == list[pos + i + 1..];
      var rest := Readings(s[i + 1..], read);
      assert Readings(s, read) == [read(s)] + rest && ([read(s)] + rest)[1..] == rest;
    }
  }

  /** The do loop over AUTOSSL_UPGRADE_PORTS. */
  method ScanPorts(list: string, target: nat) returns (r: Scan)
    ensures r == ScanReadings(Readings(list, ReadPort), target)
  {
    var pos := 0;
    assert list[0..] == list;
    while true
      invariant pos <= |list|
      invariant ScanReadings(Readings(list, ReadPort), target) == ScanReadings(Readings(list[pos..], ReadPort), target)
      decreases |list| - pos
    {
      var sep := pos + IndexOf(list[pos..], ' ');
      var port := PortOf(list[pos..]);
      assert ReadPort(list[pos..]) == if port == 0 then None else Some(port);
      ScanAt(list, pos, ReadPort, target);
      if port == 0 {
        return Malformed;
      }
      if port == target {
        return Matched;
      }
      if sep == |list| {
        return Unmatched;
      }
      pos := sep + 1;
    }
  }

  /** The do loop over AUTOSSL_UPGRADE_IPS; aton is inet_aton. */
  method ScanIps(list: string, aton: Reader, target: nat) returns (r: Scan)
    ensures r == ScanReadings(Readings(list, aton), target)
  {
    var pos := 0;
    assert list[0..] == list;
    while true
      invariant pos <= |list|
      invariant ScanReadings(Readings(list, aton), target) == ScanReadings(Readings(list[pos..], aton), target)
      decreases |list| - pos
    {
      ScanAt(list, pos, aton, target);
      var sep := pos + IndexOf(list[pos..], ' ');
      var ip := aton(list[pos..]);
      if ip.None? {
        return Malformed;
      }
      if ip.value == target {
        return Matched;
      }
      if sep == |list| {
        return Unmatched;
      }
      pos := sep + 1;
    }
  }

  // ---------------------------------------------------------------- the decision

  datatype Settings = Settings(ports: Option<string>, ips: Option<string>, command: Option<string>,
                               errno: Option<string>)

  datatype Decision = Upgrade(command: string) | System | Fail(errno: int)

  /** The error exit: an error only if one is configured. */
  function ErrorCase(env: Settings): Decision {
    if env.errno.Some? then Fail(Atoi(env.errno.value)) else System
  }

  /** connect up to the start of the TLS command. */
  method Decide(env: Settings, inet: bool, port: nat, ip: nat, aton: Reader) returns (d: Decision)
    requires StopsAtSpace(aton)
    ensures d.Upgrade? <==>
              && inet && env.ports.Some? && env.command.Some?
              && (exists i :: MatchAt(FieldPorts(Split(env.ports.value, ' ')), port, i))
              && (env.ips.Some? ==> exists i :: MatchAt(FieldAddresses(Split(env.ips.value, ' '), aton), ip, i))
    ensures d.Upgrade? ==> d == Upgrade(env.command.value)
    ensures d.Fail? <==>
              && env.errno.Some? && inet && env.ports.Some?
              && ((exists i :: ErrorAt(FieldPorts(Split(env.ports.value, ' ')), port, i)) ||
                  ((exists i :: MatchAt(FieldPorts(Split(env.ports.value, ' ')), port, i)) && env.ips.Some? &&
                   exists i :: ErrorAt(FieldAddresses(Split(env.ips.value, ' '), aton), ip, i)))
    ensures d.Fail? ==> d == Fail(Atoi(env.errno.value))
  {
    if !inet || env.ports.None? {
      return System;
    }
    PortsByField(env.ports.value);
    ScanExact(Readings(env.ports.value, ReadPort), port);
    var ports := ScanPorts(env.ports.value, port);
    if ports == Malformed {
      return ErrorCase(env);
    }
    if ports == Unmatched {
      return System;
    }
    if env.ips.Some? {
      AddressesByField(env.ips.value, aton);
      ScanExact(Readings(env.ips.value, aton), ip);
      var ips := ScanIps(env.ips.value, aton, ip);
      if ips == Malformed {
        return ErrorCase(env);
      }
      if ips == Unmatched {
        return System;
      }
    }
    if env.command.None? {
      return System;
    }
    return Upgrade(env.command.value);
  }
}
