/** The out-of-band table of socket addresses: links named after one address that hold another. */
module AddressTable {
  import opened Text
  import opened AddressText

  const SHM_PATH_MAX_LEN: nat := 64
  const PATH_MAX_LEN: nat := SHM_PATH_MAX_LEN + 1 + SOCKET_ADDR_MAX_LEN

  /** The symbolic links of the table, by their full names. */
  type Links = map<string, string>

  function LinkName(shm: string, key: string): string {
    shm + "/" + key
  }

  /** Writes the port before the address is known to parse. */
  function Updated(v6: V6, a: Address, ipText: string, portText: Option<string>): (Address, bool) {
    if a.family.OtherFamily? then (a, false)
    else
      var port := if portText.Some? then Atoi(portText.value) % 65536 else a.port;
      match Pton(v6, a.family, ipText)
      case None => (a.(port := port), false)
      case Some(ip) => (a.(port := port, ip := ip), true)
  }

  /** The target of a link, cut at its last comma: the address text, and the port text behind it if there is a comma. */
  function Halves(target: string): (string, Option<string>) {
    var i := LastIndexOf(target, ',');
    if i == -1 then (target, None) else (target[..i], Some(target[i + 1..]))
  }

  /** What the table has for an address, if readlink can deliver it. */
  function LinkOf(v6: V6, shm: string, links: Links, a: Address): Option<string>
    requires Internet(a)
  {
    var name := LinkName(shm, TextOf(v6, a));
    if name !in links || links[name] == "" || |links[name]| > SOCKET_ADDR_MAX_LEN then None else Some(links[name])
  }

  /** The address that the table has for a, and whether it was all put in place. */
  function Changed(v6: V6, shm: string, links: Links, a: Address): (Address, bool)
    requires Proper(a)
  {
    if a.family.OtherFamily? then (a, false)
    else match LinkOf(v6, shm, links, a)
      case None => (a, false)
      case Some(target) => Updated(v6, a, Halves(target).0, Halves(target).1)
  }

  /** A received message: the delivered address, and the table with the way back. */
  ghost function Received(v6: V6, shm: string, links: Links, peer: Address): (Links, Address)
    requires Proper(peer) && Faithful(v6)
  {
    if peer.family.OtherFamily? then (links, peer)
    else
      ChangedProper(v6, shm, links, peer);
      var a := Changed(v6, shm, links, peer).0;
      (links[LinkName(shm, TextOf(v6, a)) := TextOf(v6, peer)], a)
  }

  lemma {:induction false} UpdatedProper(v6: V6, a: Address, ipText: string, portText: Option<string>)
    requires Proper(a) && Faithful(v6)
    ensures Proper(Updated(v6, a, ipText, portText).0) && Updated(v6, a, ipText, portText).0.family == a.family
  {
    if a.family.Inet6? && v6.read(ipText).Some? {
      assert Bytes(v6.read(ipText).value, 16);
    }
  }

  /** Whatever the table holds, the address stays one of its family. */
  lemma {:induction false} ChangedProper(v6: V6, shm: string, links: Links, a: Address)
    requires Proper(a) && Faithful(v6)
    ensures Proper(Changed(v6, shm, links, a).0) && Changed(v6, shm, links, a).0.family == a.family
  {
    if Internet(a) && LinkOf(v6, shm, links, a).Some? {
      var target := LinkOf(v6, shm, links, a).value;
      UpdatedProper(v6, a, Halves(target).0, Halves(target).1);
    }
  }

  // ---------------------------------------------------------------- one lookup

  /** A link is named by the table's directory, a slash and an address text, and has 1 to 52 characters. */
  lemma {:induction false} LinkIff(v6: V6, shm: string, links: Links, a: Address, s: string)
    requires Internet(a)
    ensures LinkOf(v6, shm, links, a) == Some(s) <==>
            var name := shm + "/" + TextOf(v6, a);
            name in links && links[name] == s && 0 < |s| <= 52
  {
  }

  lemma {:induction false} LastIndexNone(s: string, c: char)
    requires c !in s
    ensures LastIndexOf(s, c) == -1
    decreases |s|
  {
    if s != "" {
      LastIndexNone(s[..|s| - 1], c);
    }
  }

  /** A link is cut at its last comma; one without a comma is all address. */
  lemma {:induction false} HalvesExact(s: string, portText: string)
    ensures ',' !in s ==> Halves(s) == (s, None)
    ensures ',' !in portText ==> Halves(s + "," + portText) == (s, Some(portText))
  {
    if ',' !in s {
      LastIndexNone(s, ',');
    }
    if ',' !in portText {
      HalvesOf(s, portText);
    }
  }

  /** A link that holds the text of an address of the same family turns the address into that one. */
  lemma {:induction false} ChangedByText(v6: V6, shm: string, links: Links, a: Address, b: Address)
    requires Faithful(v6) && Internet(a) && Internet(b) && a.family == b.family
    requires LinkName(shm, TextOf(v6, a)) in links && links[LinkName(shm, TextOf(v6, a))] == TextOf(v6, b)
    ensures Changed(v6, shm, links, a) == (b, true)
  {
    UpdatedByText(v6, a, b);
    assert LinkOf(v6, shm, links, a) == Some(TextOf(v6, b));
  }

  lemma {:induction false} UpdatedByText(v6: V6, a: Address, b: Address)
    requires Faithful(v6) && Internet(a) && Internet(b) && a.family == b.family
    ensures var s := TextOf(v6, b);
            s != "" && |s| <= SOCKET_ADDR_MAX_LEN && Updated(v6, a, Halves(s).0, Halves(s).1) == (b, true)
  {
    TextRoundTrip(v6, b);
    var s := TextOf(v6, b);
    var i := LastIndexOf(s, ',');
    UpdatedByParts(v6, a, b, s[..i], s[i + 1..]);
  }

  lemma {:induction false} UpdatedByParts(v6: V6, a: Address, b: Address, ipText: string, portText: string)
    requires Internet(a) && Internet(b) && a.family == b.family
    requires Pton(v6, a.family, ipText) == Some(b.ip) && Atoi(portText) == b.port
    ensures Updated(v6, a, ipText, Some(portText)) == (b, true)
  {
  }

  lemma {:induction false} LinkNameInjective(v6: V6, shm: string, a: Address, b: Address)
    requires Faithful(v6) && Internet(a) && Internet(b) && LinkName(shm, TextOf(v6, a)) == LinkName(shm, TextOf(v6, b))
    ensures a == b
  {
    var s, t := TextOf(v6, a), TextOf(v6, b);
    assert LinkName(shm, s)[|shm| + 1..] == s && LinkName(shm, t)[|shm| + 1..] == t;
    TextInjective(v6, a, b);
  }

  /**
   * The whole address is put in place exactly when the text before the port parses; otherwise the port alone is
   * written, if there is one.
   */
  lemma {:induction false} FullUpdateIff(v6: V6, a: Address, ipText: string, portText: Option<string>)
    ensures var r := Updated(v6, a, ipText, portText);
            var port := if portText.Some? then Atoi(portText.value) % 65536 else a.port;
            && (r.1 <==> Pton(v6, a.family, ipText).Some?)
            && (r.1 ==> r.0 == Address(a.family, Pton(v6, a.family, ipText).value, port))
            && (!r.1 ==> r.0 == if a.family.OtherFamily? then a else a.(port := port))
  {
  }

  /**
   * When a lookup does not succeed, the address is as before, except that a link with a port and an unreadable
   * address leaves that port in it: a failed lookup changes nothing exactly when there is no link, or the link has
   * no port, or the port that the address has already.
   */
  lemma {:induction false} FailedLookup(v6: V6, shm: string, links: Links, a: Address)
    requires Internet(a)
    ensures var r := Changed(v6, shm, links, a);
            match LinkOf(v6, shm, links, a)
            case None => r == (a, false)
            case Some(target) =>
              var (ipText, portText) := Halves(target);
              && (r.1 <==> Pton(v6, a.family, ipText).Some?)
              && (!r.1 && portText.Some? ==> r.0 == a.(port := Atoi(portText.value) % 65536))
              && (!r.1 ==> (r.0 == a <==> portText.None? || Atoi(portText.value) % 65536 == a.port))
  {
    if LinkOf(v6, shm, links, a).Some? {
      var h := Halves(LinkOf(v6, shm, links, a).value);
      FullUpdateIff(v6, a, h.0, h.1);
    }
  }

  /** A link with an unreadable address and a port leaves the port. */
  lemma {:induction false} PortLeft(v6: V6, shm: string, links: Links, a: Address, ipText: string, portText: string)
    requires Internet(a) && Pton(v6, a.family, ipText).None? && ',' !in portText
    requires LinkOf(v6, shm, links, a) == Some(ipText + "," + portText)
    ensures Changed(v6, shm, links, a) == (a.(port := Atoi(portText) % 65536), false)
    ensures portText != "" && Digits(portText) && Value(portText) < 65536 ==>
              Changed(v6, shm, links, a) == (a.(port := Value(portText)), false)
  {
    HalvesOf(ipText, portText);
    FailedLookup(v6, shm, links, a);
    if portText != "" && Digits(portText) {
      AtoiPort(portText);
    }
  }

  /** A link without a comma changes the address and leaves the port. */
  lemma {:induction false} PortKept(v6: V6, shm: string, links: Links, a: Address, ipText: string)
    requires Internet(a) && ',' !in ipText && LinkOf(v6, shm, links, a) == Some(ipText)
    ensures Changed(v6, shm, links, a) ==
            match Pton(v6, a.family, ipText)
            case None => (a, false)
            case Some(ip) => (a.(ip := ip), true)
  {
    HalvesExact(ipText, "");
  }

  /** The link to "10.0.0.10,8080" that is named after 10.0.0.1 port 80 is found, and leads there. */
  lemma {:induction false} TenLink(v6: V6, shm: string, links: Links, a: Address, b: Address)
    requires a == Address(Inet, [10, 0, 0, 1], 80) && b == Address(Inet, [10, 0, 0, 10], 8080)
    requires Faithful(v6) && shm + "/" + "10.0.0.1,80" in links && links[shm + "/" + "10.0.0.1,80"] == "10.0.0.10,8080"
    ensures Changed(v6, shm, links, a) == (b, true)
  {
    TenText(v6, a);
    assert Internet(b) && TextOf(v6, b) == "10.0.0.10,8080" by {
      SomeNumerals();
      OtherTenText(v6, b, 8080);
    }
    ChangedByText(v6, shm, links, a, b);
  }

  lemma {:induction false} OtherTenText(v6: V6, b: Address, port: nat)
    requires b == Address(Inet, [10, 0, 0, 10], port) && port < 65536 && Decimal(port) == "8080"
    ensures Internet(b) && TextOf(v6, b) == "10.0.0.10,8080"
  {
    assert Decimal(b.ip[3]) == "10" by {
      SomeNumerals();
    }
    TenQuad(b.ip, "10", "10.0.0.10");
    QuadAndPort(v6, b, "10.0.0.10", "8080", "10.0.0.10,8080");
  }

  /** An address of another family is left alone, and so is the table. */
  lemma {:induction false} OtherFamilyKept(v6: V6, shm: string, links: Links, a: Address)
    requires Faithful(v6) && Proper(a) && a.family.OtherFamily?
    ensures Changed(v6, shm, links, a) == (a, false) && Received(v6, shm, links, a) == (links, a)
  {
  }

  /** Such a link: "x,80". A lookup through it fails, and leaves port 80 in the address. */
  lemma {:induction false} PartialUpdate(v6: V6, shm: string, links: Links, a: Address)
    requires Proper(a) && a.family.Inet?
    requires LinkName(shm, TextOf(v6, a)) in links && links[LinkName(shm, TextOf(v6, a))] == "x,80"
    ensures Changed(v6, shm, links, a) == (a.(port := 80), false)
  {
    assert "x" + "," + "80" == "x,80";
    XUnreadable(v6);
    EightyRead();
    PortLeft(v6, shm, links, a, "x", "80");
  }

  lemma {:induction false} XUnreadable(v6: V6)
    ensures Pton(v6, Inet, "x") == None
  {
    IndexOfUnique("x", '.', 1);
  }

  lemma {:induction false} HalvesOf(ipText: string, portText: string)
    requires ',' !in portText
    ensures Halves(ipText + "," + portText) == (ipText, Some(portText))
  {
    var s := ipText + "," + portText;
    assert s == ipText + [','] + portText;
    LastIndexAppend(ipText, portText, ',');
    assert s[..|ipText|] == ipText && s[|ipText| + 1..] == portText;
  }

  lemma {:induction false} EightyRead()
    ensures Atoi("80") == 80
  {
    assert Value("8") == 8 by { assert "8"[..0] == ""; }
    assert Value("80") == 80 by { assert "80"[..1] == "8"; }
    assert "80" + "" == "80";
    AtoiDigits("80", "");
  }

  // ---------------------------------------------------------------- runs

  /** Clients behind proxies: different proxies for different clients, and no proxy is a client. */
  ghost predicate Proxies(p: map<Address, Address>) {
    && (forall k :: k in p ==> Internet(k) && Internet(p[k]) && k.family == p[k].family && p[k] !in p)
    && (forall k, l :: k in p && l in p && p[k] == p[l] ==> k == l)
  }

  /** The table has every proxy's client. */
  ghost predicate Serves(v6: V6, shm: string, links: Links, p: map<Address, Address>)
    requires Proxies(p)
  {
    forall k :: k in p ==>
      LinkName(shm, TextOf(v6, k)) in links && links[LinkName(shm, TextOf(v6, k))] == TextOf(v6, p[k])
  }

  /** What the table may hold for an address that is no proxy: itself, or the proxy it is behind. */
  ghost predicate Fitting(v6: V6, shm: string, links: Links, p: map<Address, Address>, y: Address)
    requires Proxies(p) && Internet(y)
  {
    var name := LinkName(shm, TextOf(v6, y));
    name in links ==>
      || links[name] == TextOf(v6, y)
      || exists k :: k in p && p[k] == y && links[name] == TextOf(v6, k)
  }

  ghost predicate TableGood(v6: V6, shm: string, links: Links, p: map<Address, Address>)
    requires Proxies(p)
  {
    && Serves(v6, shm, links, p)
    && forall y :: Internet(y) && y !in p ==> Fitting(v6, shm, links, p, y)
  }

  /** Who the delivered address is: the client of a proxy, the proxy of a client, or the peer itself. */
  ghost predicate Delivered(p: map<Address, Address>, peer: Address, a: Address) {
    if peer in p then a == p[peer] else a == peer || (a in p && p[a] == peer)
  }

  lemma {:induction false} PeerDelivered(v6: V6, shm: string, links: Links, p: map<Address, Address>, peer: Address)
    requires Faithful(v6) && Proxies(p) && TableGood(v6, shm, links, p) && Internet(peer)
    ensures var a := Changed(v6, shm, links, peer).0;
            Internet(a) && a.family == peer.family && Delivered(p, peer, a)
  {
    if peer in p {
      ChangedByText(v6, shm, links, peer, p[peer]);
    } else {
      assert Fitting(v6, shm, links, p, peer);
      var name := LinkName(shm, TextOf(v6, peer));
      if name in links {
        if links[name] == TextOf(v6, peer) {
          ChangedByText(v6, shm, links, peer, peer);
        } else {
          var k :| k in p && p[k] == peer && links[name] == TextOf(v6, k);
          ChangedByText(v6, shm, links, peer, k);
        }
      }
    }
  }

  lemma {:induction false} LinkingServes(v6: V6, shm: string, links: Links, p: map<Address, Address>, peer: Address,
                                         a: Address)
    requires Faithful(v6) && Proxies(p) && Serves(v6, shm, links, p) && Internet(peer) && Internet(a)
    requires Delivered(p, peer, a)
    ensures Serves(v6, shm, links[LinkName(shm, TextOf(v6, a)) := TextOf(v6, peer)], p)
  {
    var name := LinkName(shm, TextOf(v6, a));
    var links' := links[name := TextOf(v6, peer)];
    forall k | k in p
      ensures LinkName(shm, TextOf(v6, k)) in links' && links'[LinkName(shm, TextOf(v6, k))] == TextOf(v6, p[k])
    {
      if LinkName(shm, TextOf(v6, k)) == name {
        LinkNameInjective(v6, shm, k, a);
      }
    }
  }

  /** Linking a delivered address to its peer keeps the table good. */
  lemma {:induction false} LinkingKeeps(v6: V6, shm: string, links: Links, p: map<Address, Address>, peer: Address,
                                        a: Address)
    requires Faithful(v6) && Proxies(p) && TableGood(v6, shm, links, p) && Internet(peer) && Internet(a)
    requires Delivered(p, peer, a)
    ensures TableGood(v6, shm, links[LinkName(shm, TextOf(v6, a)) := TextOf(v6, peer)], p)
  {
    var name := LinkName(shm, TextOf(v6, a));
    var links' := links[name := TextOf(v6, peer)];
    LinkingServes(v6, shm, links, p, peer, a);
    forall y | Internet(y) && y !in p
      ensures Fitting(v6, shm, links', p, y)
    {
      assert Fitting(v6, shm, links, p, y);
      if LinkName(shm, TextOf(v6, y)) == name {
        LinkNameInjective(v6, shm, y, a);
      }
    }
  }

  /** The table after a sequence of received messages. */
  ghost function ReceiveAll(v6: V6, shm: string, links: Links, peers: seq<Address>): Links
    requires Faithful(v6) && forall i :: 0 <= i < |peers| ==> Proper(peers[i])
    decreases |peers|
  {
    if peers == [] then links
    else Received(v6, shm, ReceiveAll(v6, shm, links, peers[..|peers| - 1]), peers[|peers| - 1]).0
  }

  /**
   * After each receive, looking up the delivered address gives back the peer, and every proxy still has its
   * client in the table.
   */
  lemma {:induction false} ReceiveKeeps(v6: V6, shm: string, links: Links, p: map<Address, Address>, peer: Address)
    requires Faithful(v6) && Proxies(p) && TableGood(v6, shm, links, p) && Internet(peer)
    ensures var (links', a) := Received(v6, shm, links, peer);
            && TableGood(v6, shm, links', p) && Internet(a) && Delivered(p, peer, a)
            && Changed(v6, shm, links', a) == (peer, true)
  {
    PeerDelivered(v6, shm, links, p, peer);
    var (links', a) := Received(v6, shm, links, peer);
    LinkingKeeps(v6, shm, links, p, peer, a);
    ChangedByText(v6, shm, links', a, peer);
  }

  /** No sequence of received messages changes what the proxies have in the table. */
  lemma {:induction false} ProxiesStay(v6: V6, shm: string, links: Links, p: map<Address, Address>, peers: seq<Address>)
    requires Faithful(v6) && Proxies(p) && TableGood(v6, shm, links, p)
    requires forall i :: 0 <= i < |peers| ==> Proper(peers[i])
    ensures TableGood(v6, shm, ReceiveAll(v6, shm, links, peers), p)
    decreases |peers|
  {
    if peers != [] {
      var before, last := peers[..|peers| - 1], peers[|peers| - 1];
      ProxiesStay(v6, shm, links, p, before);
      if Internet(last) {
        ReceiveKeeps(v6, shm, ReceiveAll(v6, shm, links, before), p, last);
      }
    }
  }

  /** A table with the proxies' entries and nothing else is good. */
  lemma {:induction false} FreshTableGood(v6: V6, shm: string, links: Links, p: map<Address, Address>)
    requires Faithful(v6) && Proxies(p) && Serves(v6, shm, links, p)
    requires forall name :: name in links ==> exists k :: k in p && name == LinkName(shm, TextOf(v6, k))
    ensures TableGood(v6, shm, links, p)
  {
    forall y | Internet(y) && y !in p
      ensures LinkName(shm, TextOf(v6, y)) !in links
    {
      if LinkName(shm, TextOf(v6, y)) in links {
        var k :| k in p && LinkName(shm, TextOf(v6, y)) == LinkName(shm, TextOf(v6, k));
        LinkNameInjective(v6, shm, y, k);
      }
    }
  }

  // ---------------------------------------------------------------- the code

  /** A struct sockaddr that the caller owns. */
  class SocketAddress {
    var family: Family
    var ip: seq<nat>
    var port: nat

    constructor (a: Address)
      ensures Value() == a
    {
      family, ip, port := a.family, a.ip, a.port;
    }

    function Value(): Address
      reads this
    {
      Address(family, ip, port)
    }

    /** extract_ip_port and save_socket_address: the text of the address, if it is an internet address. */
    method Save(v6: V6) returns (ok: bool, text: string)
      requires Proper(Value()) && Faithful(v6)
      ensures ok <==> Internet(Value())
      ensures ok ==> text == TextOf(v6, Value()) && |text| <= SOCKET_ADDR_MAX_LEN
      ensures ok && family.Inet? ==> text == Decimal(ip[0]) + "." + Decimal(ip[1]) + "." + Decimal(ip[2]) + "." +
                                             Decimal(ip[3]) + "," + Decimal(port)
      ensures ok && family.Inet6? ==> text == v6.show(ip) + "," + Decimal(port)
    {
      if family.OtherFamily? {
        return false, "";
      }
      TextRoundTrip(v6, Value());
      NtopParts(v6, Value());
      return true, Ntop(v6, Value()) + "," + Decimal(port);
    }

    /** update_socket_addr */
    method Update(v6: V6, ipaddr: string, portnum: Option<string>) returns (ok: bool)
      modifies this
      ensures (Value(), ok) == Updated(v6, old(Value()), ipaddr, portnum)
    {
      if family.OtherFamily? {
        return false;
      }
      if portnum.Some? {
        port := Atoi(portnum.value) % 65536;
      }
      var parsed := Pton(v6, family, ipaddr);
      if parsed.None? {
        return false;
      }
      ip := parsed.value;
      return true;
    }
  }

  /** The directory of links. */
  class Table {
    var links: Links
    const shm: string

    constructor (shm: string)
      ensures this.shm == shm && links == map[]
    {
      this.shm := shm;
      links := map[];
    }

    /** change_socket_address: the target is cut at its last comma in the buffer. */
    method Change(v6: V6, sa: SocketAddress) returns (ok: bool)
      requires Proper(sa.Value()) && Faithful(v6) && |shm| <= SHM_PATH_MAX_LEN
      modifies sa
      ensures (sa.Value(), ok) == Changed(v6, shm, links, old(sa.Value()))
    {
      var saved, orig := sa.Save(v6);
      if !saved {
        return false;
      }
      var name := LinkName(shm, orig);
      assert |name| <= PATH_MAX_LEN;
      if name !in links || links[name] == "" || |links[name]| > SOCKET_ADDR_MAX_LEN {
        return false;
      }
      var target := links[name];
      var comma := LastIndexOf(target, ',');
      if comma == -1 {
        ok := sa.Update(v6, target, None);
      } else {
        ok := sa.Update(v6, target[..comma], Some(target[comma + 1..]));
      }
    }

    /** set_proxy_address_info: the old link is removed and a new one made, which fails for an empty target. */
    method Set(v6: V6, sa: SocketAddress, target: string) returns (ok: bool)
      requires Proper(sa.Value()) && Faithful(v6) && |shm| <= SHM_PATH_MAX_LEN
      modifies this
      ensures ok <==> Internet(sa.Value()) && target != ""
      ensures links == if !Internet(sa.Value()) then old(links)
                       else
                         var name := LinkName(shm, TextOf(v6, sa.Value()));
                         if target == "" then old(links) - {name} else old(links)[name := target]
    {
      var saved, text := sa.Save(v6);
      if !saved {
        return false;
      }
      var name := LinkName(shm, text);
      assert |name| <= PATH_MAX_LEN;
      links := links - {name};
      if target == "" {
        return false;
      }
      links := links[name := target];
      return true;
    }

    /** unset_proxy_address_info */
    method Unset(key: string)
      modifies this
      ensures links == old(links) - {LinkName(shm, key)}
    {
      links := links - {LinkName(shm, key)};
    }

    /** recvmsg, once the message and its peer's address are there. */
    method ReceiveFrom(v6: V6, sa: SocketAddress)
      requires Proper(sa.Value()) && Faithful(v6) && |shm| <= SHM_PATH_MAX_LEN
      modifies this, sa
      ensures (links, sa.Value()) == Received(v6, shm, old(links), old(sa.Value()))
    {
      ChangedProper(v6, shm, links, sa.Value());
      var saved, orig := sa.Save(v6);
      var changed := Change(v6, sa);
      var done := Set(v6, sa, orig);
    }
  }
}
