/** The events the route monitor prints, as records of their fields. */
module NetlinkEvents {
  import opened Words
  import opened Netlink

  const AF_INET: Byte := 2
  const AF_INET6: Byte := 10
  const IFLA_IFNAME: U16 := 3
  const IFA_ADDRESS: U16 := 1
  const IFA_LOCAL: U16 := 2
  const RTA_DST: U16 := 1
  const IFF_UP := 1

  /** The bytes an address is rendered from. */
  datatype Ip = Ip4(bytes: seq<Byte>) | Ip6(bytes: seq<Byte>)

  datatype Event =
    | LinkEvent(name: Option<seq<Byte>>, index: I32, up: bool, flags: U32)  // no name: "ifindex:" and the index
    | AddrEvent(ifIndex: U32, address: Option<Ip>, prefixLen: Byte, family: Byte)
    | RouteEvent(dst: Option<Ip>, dstLen: Byte, family: Byte, table: Byte, protocol: Byte, scope: Byte)

  datatype DecodeError = HeaderTooShort(length: nat) | BadAttrs(error: ParseError)

  // ---- attribute lookups ----

  /** The attributes of one type, in order. */
  function OfType(attrs: seq<Attr>, t: U16): (r: seq<Attr>)
    ensures forall a :: a in r ==> a in attrs && a.typ == t
  {
    if attrs == [] then []
    else if attrs[0].typ == t then [attrs[0]] + OfType(attrs[1..], t)
    else OfType(attrs[1..], t)
  }

  /** What attrString returns: the first attribute of the type decides. */
  function NameIn(attrs: seq<Attr>, t: U16): seq<Byte> {
    var named := OfType(attrs, t);
    if named == [] then [] else TrimNuls(named[0].data)
  }

  function V4InV6Prefix(): seq<Byte> { Zeros(10) + [0xff, 0xff] }

  /** net.IP.To4 */
  function To4(b: seq<Byte>): Option<seq<Byte>> {
    if |b| == 4 then Some(b)
    else if |b| == 16 && b[..12] == V4InV6Prefix() then Some(b[12..])
    else None
  }

  function UsableIp(data: seq<Byte>, family: Byte): Option<Ip> {
    if family == AF_INET then
      match To4(data)
      case Some(b) => Some(Ip4(b))
      case None => None
    else if family == AF_INET6 && |data| >= 16 then Some(Ip6(data[..16]))
    else None
  }

  /** What attrIP returns: the first usable attribute of the type. */
  function IpIn(attrs: seq<Attr>, t: U16, family: Byte): Option<Ip> {
    FirstUsable(OfType(attrs, t), family)
  }

  function FirstUsable(attrs: seq<Attr>, family: Byte): Option<Ip> {
    if attrs == [] then None
    else if UsableIp(attrs[0].data, family).Some? then UsableIp(attrs[0].data, family)
    else FirstUsable(attrs[1..], family)
  }

  // What the lookups find, attribute by attribute.

  /** Attribute i is the first of its type. */
  ghost predicate IsFirst(attrs: seq<Attr>, t: U16, i: nat) {
    i < |attrs| && attrs[i].typ == t && forall j :: 0 <= j < i ==> attrs[j].typ != t
  }

  /** s is data without the zero bytes at its end. */
  ghost predicate Trimmed(data: seq<Byte>, s: seq<Byte>) {
    s <= data && (forall j :: |s| <= j < |data| ==> data[j] == 0) && (s != [] ==> s[|s| - 1] != 0)
  }

  /** The name is that of the first attribute of the type, and empty when there is none. */
  ghost predicate Names(attrs: seq<Attr>, t: U16, s: seq<Byte>) {
    (s == [] && forall a :: a in attrs ==> a.typ != t)
    || exists i: nat :: IsFirst(attrs, t, i) && Trimmed(attrs[i].data, s)
  }

  lemma {:induction false} TrimNulsTrims(data: seq<Byte>)
    ensures Trimmed(data, TrimNuls(data))
  {
    if data != [] && data[|data| - 1] == 0 {
      TrimNulsTrims(data[..|data| - 1]);
    }
  }

  lemma {:induction false} FirstOfType(attrs: seq<Attr>, t: U16) returns (i: nat)
    requires OfType(attrs, t) != []
    ensures IsFirst(attrs, t, i) && attrs[i] == OfType(attrs, t)[0]
  {
    if attrs[0].typ == t {
      i := 0;
    } else {
      i := FirstOfType(attrs[1..], t);
      i := i + 1;
    }
  }

  lemma NameInNames(attrs: seq<Attr>, t: U16)
    ensures Names(attrs, t, NameIn(attrs, t))
  {
    if OfType(attrs, t) != [] {
      var i := FirstOfType(attrs, t);
      TrimNulsTrims(attrs[i].data);
    } else {
      forall a | a in attrs ensures a.typ != t {
        if a.typ == t {
          OfTypeComplete(attrs, a);
        }
      }
    }
  }

  /** What an attribute's data says under an address family: four bytes, or the last four of a mapped
      address, under 2; the first sixteen under 10; and nothing otherwise. */
  lemma UsableIpIs(data: seq<Byte>, family: Byte)
    ensures family == 2 && |data| == 4 ==> UsableIp(data, family) == Some(Ip4(data))
    ensures family == 2 && |data| == 16 && data[..12] == [0, 0, 0, 0, 0, 0, 0, 0, 0, 0, 0xff, 0xff] ==>
              UsableIp(data, family) == Some(Ip4(data[12..16]))
    ensures family == 2 && |data| == 16 && data[..12] != [0, 0, 0, 0, 0, 0, 0, 0, 0, 0, 0xff, 0xff] ==>
              UsableIp(data, family) == None
    ensures family == 2 && |data| != 4 && |data| != 16 ==> UsableIp(data, family) == None
    ensures family == 10 && |data| >= 16 ==> UsableIp(data, family) == Some(Ip6(data[..16]))
    ensures family == 10 && |data| < 16 ==> UsableIp(data, family) == None
    ensures family != 2 && family != 10 ==> UsableIp(data, family) == None
  {
    assert V4InV6Prefix() == [0, 0, 0, 0, 0, 0, 0, 0, 0, 0, 0xff, 0xff];
    hide V4InV6Prefix;
    assert |data| == 16 ==> data[12..] == data[12..16];
  }

  /** The address is that of the first attribute of the type that holds a usable one. */
  ghost predicate Addresses(attrs: seq<Attr>, t: U16, family: Byte, ip: Option<Ip>) {
    if ip == None then forall a :: a in attrs && a.typ == t ==> UsableIp(a.data, family) == None
    else exists i: nat :: FirstUsableAt(attrs, t, family, i) && UsableIp(attrs[i].data, family) == ip
  }

  ghost predicate FirstUsableAt(attrs: seq<Attr>, t: U16, family: Byte, i: nat) {
    && i < |attrs| && attrs[i].typ == t
    && forall j :: 0 <= j < i && attrs[j].typ == t ==> UsableIp(attrs[j].data, family) == None
  }

  lemma {:induction false} IpInAddresses(attrs: seq<Attr>, t: U16, family: Byte)
    ensures Addresses(attrs, t, family, IpIn(attrs, t, family))
  {
    hide UsableIp;
    var ip := IpIn(attrs, t, family);
    if attrs != [] {
      IpInAddresses(attrs[1..], t, family);
      var first := attrs[0];
      if first.typ == t && UsableIp(first.data, family) != None {
        assert FirstUsableAt(attrs, t, family, 0);
      } else if ip != None {
        var i: nat :| FirstUsableAt(attrs[1..], t, family, i) && UsableIp(attrs[1..][i].data, family) == ip;
        forall j | 0 <= j < i + 1 && attrs[j].typ == t ensures UsableIp(attrs[j].data, family) == None {
          assert j > 0 ==> attrs[j] == attrs[1..][j - 1];
        }
        assert FirstUsableAt(attrs, t, family, i + 1);
      } else {
        forall a | a in attrs && a.typ == t ensures UsableIp(a.data, family) == None {
          assert a == first || a in attrs[1..];
        }
      }
    }
  }

  lemma {:induction false} OfTypeSnoc(attrs: seq<Attr>, x: Attr, t: U16)
    ensures OfType(attrs + [x], t) == OfType(attrs, t) + (if x.typ == t then [x] else [])
  {
    if attrs == [] {
      assert [x] == [x] + [];
    } else {
      OfTypeSnoc(attrs[1..], x, t);
      assert (attrs + [x])[1..] == attrs[1..] + [x];
    }
  }

  lemma {:induction false} OfTypeAppend(a: seq<Attr>, b: seq<Attr>, t: U16)
    ensures OfType(a + b, t) == OfType(a, t) + OfType(b, t)
  {
    if a == [] {
      assert a + b == b;
    } else {
      OfTypeAppend(a[1..], b, t);
      assert (a + b)[1..] == a[1..] + b;
    }
  }

  lemma FirstDecides(attrs: seq<Attr>, t: U16, i: nat)
    requires i < |attrs| && OfType(attrs[..i], t) == [] && attrs[i].typ == t
    ensures NameIn(attrs, t) == TrimNuls(attrs[i].data)
  {
    OfTypeSnoc(attrs[..i], attrs[i], t);
    assert attrs[..i] + [attrs[i]] == attrs[..i + 1];
    OfTypeAppend(attrs[..i + 1], attrs[i + 1..], t);
    assert attrs[..i + 1] + attrs[i + 1..] == attrs;
    hide TrimNuls, OfType;
  }

  lemma NoneYet(attrs: seq<Attr>, t: U16, i: nat)
    requires i < |attrs| && OfType(attrs[..i], t) == [] && attrs[i].typ != t
    ensures OfType(attrs[..i + 1], t) == []
  {
    OfTypeSnoc(attrs[..i], attrs[i], t);
    assert attrs[..i] + [attrs[i]] == attrs[..i + 1];
  }

  /** attrString */
  method AttrString(attrs: seq<Attr>, attrType: U16) returns (s: seq<Byte>)
    ensures s == NameIn(attrs, attrType) && Names(attrs, attrType, s)
  {
    NameInNames(attrs, attrType);
    hide Names, TrimNuls;
    for i := 0 to |attrs|
      invariant OfType(attrs[..i], attrType) == []
    {
      if attrs[i].typ == attrType {
        FirstDecides(attrs, attrType, i);
        return TrimNuls(attrs[i].data);
      }
      NoneYet(attrs, attrType, i);
    }
    assert attrs[..|attrs|] == attrs;
    return [];
  }

  lemma {:induction false} FirstUsableAppend(a: seq<Attr>, b: seq<Attr>, family: Byte)
    ensures FirstUsable(a + b, family)
         == if FirstUsable(a, family).Some? then FirstUsable(a, family) else FirstUsable(b, family)
  {
    if a == [] {
      assert a + b == b;
    } else {
      FirstUsableAppend(a[1..], b, family);
      assert (a + b)[1..] == a[1..] + b;
    }
  }

  lemma IpInSnoc(attrs: seq<Attr>, x: Attr, t: U16, family: Byte)
    ensures IpIn(attrs + [x], t, family)
         == if IpIn(attrs, t, family).Some? then IpIn(attrs, t, family)
            else if x.typ == t then UsableIp(x.data, family) else None
  {
    OfTypeSnoc(attrs, x, t);
    FirstUsableAppend(OfType(attrs, t), if x.typ == t then [x] else [], family);
  }

  lemma IpInPrefix(attrs: seq<Attr>, more: seq<Attr>, t: U16, family: Byte)
    requires IpIn(attrs, t, family).Some?
    ensures IpIn(attrs + more, t, family) == IpIn(attrs, t, family)
  {
    OfTypeAppend(attrs, more, t);
    FirstUsableAppend(OfType(attrs, t), OfType(more, t), family);
  }

  /** attrIP */
  method AttrIp(attrs: seq<Attr>, attrType: U16, family: Byte) returns (ip: Option<Ip>)
    ensures ip == IpIn(attrs, attrType, family) && Addresses(attrs, attrType, family, ip)
  {
    IpInAddresses(attrs, attrType, family);
    hide IpIn, UsableIp, Addresses;
    NoAttrsNoIp(attrType, family);
    for i := 0 to |attrs|
      invariant IpIn(attrs[..i], attrType, family) == None
    {
      IpInSnoc(attrs[..i], attrs[i], attrType, family);
      assert attrs[..i] + [attrs[i]] == attrs[..i + 1];
      if attrs[i].typ != attrType {
        continue;
      }
      var usable := UsableIp(attrs[i].data, family);
      if usable.Some? {
        IpInPrefix(attrs[..i + 1], attrs[i + 1..], attrType, family);
        assert attrs[..i + 1] + attrs[i + 1..] == attrs;
        return usable;
      }
    }
    assert attrs[..|attrs|] == attrs;
    return None;
  }

  lemma NoAttrsNoIp(t: U16, family: Byte)
    ensures IpIn([], t, family) == None
  {}

  // ---- the three formatters ----

  function LinkOf(h: IfInfo, attrs: seq<Attr>): Event {
    var name := NameIn(attrs, IFLA_IFNAME);
    LinkEvent(if name == [] then None else Some(name), h.index, And(h.flags, IFF_UP) != 0, h.flags)
  }

  function AddrOf(h: IfAddr, attrs: seq<Attr>): Event {
    var local := IpIn(attrs, IFA_LOCAL, h.family);
    AddrEvent(h.index, if local.Some? then local else IpIn(attrs, IFA_ADDRESS, h.family), h.prefixLen, h.family)
  }

  function RouteOf(h: RtMsg, attrs: seq<Attr>): Event {
    RouteEvent(IpIn(attrs, RTA_DST, h.family), h.dstLen, h.family, h.table, h.protocol, h.scope)
  }

  // The events in terms of the bytes of the message: where each field comes from, and which error is
  // given. Attribute types are numbers: 3 names an interface, 2 and 1 are its local and plain address,
  // 1 is a destination.

  ghost predicate LinkSays(e: Endian, data: seq<Byte>, r: Result<Event, DecodeError>) {
    if |data| < 16 then r == Err(HeaderTooShort(|data|))
    else match Parse(e, data[16..])
      case Err(x) => r == Err(BadAttrs(x))
      case Ok(attrs) =>
        r.Ok? && r.value.LinkEvent? &&
        var ev := r.value;
        && Put(e, 4, if ev.index < 0 then ev.index + 0x1_0000_0000 else ev.index) == data[4..8]
        && Put(e, 4, ev.flags) == data[8..12] && (ev.up <==> ev.flags % 2 == 1)
        && ev.name != Some([]) && Names(attrs, 3, ev.name.GetOr([]))
  }

  ghost predicate AddrSays(e: Endian, data: seq<Byte>, r: Result<Event, DecodeError>) {
    if |data| < 8 then r == Err(HeaderTooShort(|data|))
    else match Parse(e, data[8..])
      case Err(x) => r == Err(BadAttrs(x))
      case Ok(attrs) =>
        r.Ok? && r.value.AddrEvent? &&
        var ev := r.value;
        && ev.family == data[0] && ev.prefixLen == data[1] && Put(e, 4, ev.ifIndex) == data[4..8]
        && ((ev.address != None && Addresses(attrs, 2, data[0], ev.address))
            || (Addresses(attrs, 2, data[0], None) && Addresses(attrs, 1, data[0], ev.address)))
  }

  ghost predicate RouteSays(e: Endian, data: seq<Byte>, r: Result<Event, DecodeError>) {
    if |data| < 12 then r == Err(HeaderTooShort(|data|))
    else match Parse(e, data[12..])
      case Err(x) => r == Err(BadAttrs(x))
      case Ok(attrs) =>
        r.Ok? && r.value.RouteEvent? &&
        var ev := r.value;
        && ev.family == data[0] && ev.dstLen == data[1]
        && ev.table == data[4] && ev.protocol == data[5] && ev.scope == data[6]
        && Addresses(attrs, 1, data[0], ev.dst)
  }

  lemma LowBit(x: nat)
    ensures And(x, 1) == x % 2
  {
    AndMask(x, 1);
    assert Pow2(1) == 2 * Pow2(0) == 2;
  }

  lemma WordIs(e: Endian, data: seq<Byte>, off: nat)
    requires off + 4 <= |data|
    ensures Put(e, 4, LoadU32(e, data, off)) == data[off..off + 4]
  {
    PutGet(e, data[off..off + 4]);
  }

  lemma DecodeLinkSays(e: Endian, data: seq<Byte>)
    ensures LinkSays(e, data, DecodeLink(e, data))
  {
    if |data| >= 16 && Parse(e, data[16..]).Ok? {
      var attrs, flags := Parse(e, data[16..]).value, LoadU32(e, data, 8);
      WordIs(e, data, 4);
      WordIs(e, data, 8);
      LowBit(flags);
      NameInNames(attrs, 3);
      ConversionsAre(0, LoadU32(e, data, 4), 0, 0);
      hide Put, And, Parse, NameIn, Names, LoadU32;
    }
  }

  lemma DecodeAddrSays(e: Endian, data: seq<Byte>)
    ensures AddrSays(e, data, DecodeAddr(e, data))
  {
    if |data| >= 8 && Parse(e, data[8..]).Ok? {
      var attrs := Parse(e, data[8..]).value;
      WordIs(e, data, 4);
      IpInAddresses(attrs, 2, data[0]);
      IpInAddresses(attrs, 1, data[0]);
      hide Put, Parse, IpIn, Addresses, LoadU32;
    }
  }

  lemma DecodeRouteSays(e: Endian, data: seq<Byte>)
    ensures RouteSays(e, data, DecodeRoute(e, data))
  {
    if |data| >= 12 && Parse(e, data[12..]).Ok? {
      IpInAddresses(Parse(e, data[12..]).value, 1, data[0]);
      hide Parse, IpIn, Addresses, LoadU32;
    }
  }

  function DecodeLink(e: Endian, data: seq<Byte>): Result<Event, DecodeError> {
    match ParseIfInfo(e, data)
    case Err(n) => Err(HeaderTooShort(n))
    case Ok(h) =>
      match Parse(e, data[IFINFO_LEN..])
      case Err(x) => Err(BadAttrs(x))
      case Ok(attrs) => Ok(LinkOf(h, attrs))
  }

  method FormatLinkEvent(e: Endian, data: seq<Byte>) returns (r: Result<Event, DecodeError>)
    ensures r == DecodeLink(e, data) && LinkSays(e, data, r)
  {
    DecodeLinkSays(e, data);
    hide LinkSays, Names;
    var info := ParseIfInfo(e, data);
    if info.Err? { return Err(HeaderTooShort(info.error)); }
    var attrs := ParseRouteAttrs(e, data[IFINFO_LEN..]);
    if attrs.Err? { return Err(BadAttrs(attrs.error)); }
    var name := AttrString(attrs.value, IFLA_IFNAME);
    return Ok(LinkEvent(if name == [] then None else Some(name), info.value.index,
                        And(info.value.flags, IFF_UP) != 0, info.value.flags));
  }

  function DecodeAddr(e: Endian, data: seq<Byte>): Result<Event, DecodeError> {
    match ParseIfAddr(e, data)
    case Err(n) => Err(HeaderTooShort(n))
    case Ok(h) =>
      match Parse(e, data[IFADDR_LEN..])
      case Err(x) => Err(BadAttrs(x))
      case Ok(attrs) => Ok(AddrOf(h, attrs))
  }

  method FormatAddrEvent(e: Endian, data: seq<Byte>) returns (r: Result<Event, DecodeError>)
    ensures r == DecodeAddr(e, data) && AddrSays(e, data, r)
  {
    DecodeAddrSays(e, data);
    hide AddrSays, Addresses;
    var addr := ParseIfAddr(e, data);
    if addr.Err? { return Err(HeaderTooShort(addr.error)); }
    var attrs := ParseRouteAttrs(e, data[IFADDR_LEN..]);
    if attrs.Err? { return Err(BadAttrs(attrs.error)); }
    var ip := AttrIp(attrs.value, IFA_LOCAL, addr.value.family);
    if ip == None {
      ip := AttrIp(attrs.value, IFA_ADDRESS, addr.value.family);
    }
    return Ok(AddrEvent(addr.value.index, ip, addr.value.prefixLen, addr.value.family));
  }

  function DecodeRoute(e: Endian, data: seq<Byte>): Result<Event, DecodeError> {
    match ParseRtMsg(e, data)
    case Err(n) => Err(HeaderTooShort(n))
    case Ok(h) =>
      match Parse(e, data[RTMSG_LEN..])
      case Err(x) => Err(BadAttrs(x))
      case Ok(attrs) => Ok(RouteOf(h, attrs))
  }

  method FormatRouteEvent(e: Endian, data: seq<Byte>) returns (r: Result<Event, DecodeError>)
    ensures r == DecodeRoute(e, data) && RouteSays(e, data, r)
  {
    DecodeRouteSays(e, data);
    hide RouteSays, Addresses;
    var route := ParseRtMsg(e, data);
    if route.Err? { return Err(HeaderTooShort(route.error)); }
    var attrs := ParseRouteAttrs(e, data[RTMSG_LEN..]);
    if attrs.Err? { return Err(BadAttrs(attrs.error)); }
    var dst := AttrIp(attrs.value, RTA_DST, route.value.family);
    var h := route.value;
    return Ok(RouteEvent(dst, h.dstLen, h.family, h.table, h.protocol, h.scope));
  }

  // ---- what the events depend on ----

  /** Attributes of equal type keep their relative order; otherwise the order is free. */
  ghost predicate SameByType(a: seq<Attr>, b: seq<Attr>) {
    forall t: U16 :: OfType(a, t) == OfType(b, t)
  }

  /** Such a reordering is what swaps of neighbours of different type generate. */
  lemma SwapNeighbours(before: seq<Attr>, x: Attr, y: Attr, after: seq<Attr>)
    requires x.typ != y.typ
    ensures SameByType(before + [x, y] + after, before + [y, x] + after)
  {
    forall t: U16 ensures OfType(before + [x, y] + after, t) == OfType(before + [y, x] + after, t) {
      OfTypeAppend(before + [x, y], after, t);
      OfTypeAppend(before + [y, x], after, t);
      OfTypeAppend(before, [x, y], t);
      OfTypeAppend(before, [y, x], t);
      assert [x, y] == [x] + [y] && [y, x] == [y] + [x];
      OfTypeAppend([x], [y], t);
      OfTypeAppend([y], [x], t);
    }
  }

  lemma LookupsIgnoreOrder(a: seq<Attr>, b: seq<Attr>)
    requires SameByType(a, b)
    ensures forall h :: LinkOf(h, a) == LinkOf(h, b)
    ensures forall h :: AddrOf(h, a) == AddrOf(h, b)
    ensures forall h :: RouteOf(h, a) == RouteOf(h, b)
  {
    assert OfType(a, IFLA_IFNAME) == OfType(b, IFLA_IFNAME);
    assert OfType(a, IFA_LOCAL) == OfType(b, IFA_LOCAL);
    assert OfType(a, IFA_ADDRESS) == OfType(b, IFA_ADDRESS);
  }

  /** Whatever the header bytes, encoded messages whose attributes differ only by such a reordering
      give the same link, address and route event, or the same header error. */
  lemma EventsIgnoreAttributeOrder(e: Endian, header: seq<Byte>, a: seq<Attr>, b: seq<Attr>)
    requires AllSliceable(a) && AllSliceable(b) && AllFit(a) && AllFit(b) && SameByType(a, b)
    ensures |header| == IFINFO_LEN ==>
              DecodeLink(e, header + Encode(e, a)) == DecodeLink(e, header + Encode(e, b))
              && DecodeLink(e, header + Encode(e, a)).Ok?
    ensures |header| == IFADDR_LEN ==>
              DecodeAddr(e, header + Encode(e, a)) == DecodeAddr(e, header + Encode(e, b))
              && DecodeAddr(e, header + Encode(e, a)).Ok?
    ensures |header| == RTMSG_LEN ==>
              DecodeRoute(e, header + Encode(e, a)) == DecodeRoute(e, header + Encode(e, b))
              && DecodeRoute(e, header + Encode(e, a)).Ok?
  {
    hide Parse, Encode, Get, OfType, LinkOf, AddrOf, RouteOf;
    RoundTripIff(e, a);
    RoundTripIff(e, b);
    LookupsIgnoreOrder(a, b);
    var n := |header|;
    var x, y := header + Encode(e, a), header + Encode(e, b);
    assert x[n..] == Encode(e, a) && y[n..] == Encode(e, b);
    HeadersAgree(e, header, Encode(e, a), Encode(e, b));
  }

  lemma HeadersAgree(e: Endian, header: seq<Byte>, s: seq<Byte>, t: seq<Byte>)
    ensures |header| == IFINFO_LEN ==> ParseIfInfo(e, header + s) == ParseIfInfo(e, header + t)
    ensures |header| == IFADDR_LEN ==> ParseIfAddr(e, header + s) == ParseIfAddr(e, header + t)
    ensures |header| == RTMSG_LEN ==> ParseRtMsg(e, header + s) == ParseRtMsg(e, header + t)
  {
    hide Get;
    var x, y := header + s, header + t;
    assert forall lo, hi :: 0 <= lo <= hi <= |header| ==> x[lo..hi] == y[lo..hi];
    if |header| >= 8 {
      assert x[4..8] == y[4..8];
    }
    if |header| >= 12 {
      assert x[8..12] == y[8..12];
    }
    if |header| >= 16 {
      assert x[2..4] == y[2..4] && x[12..16] == y[12..16];
    }
  }

  lemma {:induction false} OfTypeNone(attrs: seq<Attr>, t: U16)
    requires forall a :: a in attrs ==> a.typ != t
    ensures OfType(attrs, t) == []
  {
    if attrs != [] {
      OfTypeNone(attrs[1..], t);
    }
  }

  /** An interface name comes back whatever amount of NUL padding follows it and whatever other
      attributes surround it. */
  lemma NameRecovered(before: seq<Attr>, name: seq<Byte>, padding: nat, after: seq<Attr>, h: IfInfo)
    requires name != [] && name[|name| - 1] != 0
    requires forall a :: a in before ==> a.typ != IFLA_IFNAME
    ensures LinkOf(h, before + [Attr(IFLA_IFNAME, name + Zeros(padding))] + after).name == Some(name)
  {
    var x := Attr(IFLA_IFNAME, name + Zeros(padding));
    OfTypeAppend(before + [x], after, IFLA_IFNAME);
    OfTypeSnoc(before, x, IFLA_IFNAME);
    OfTypeNone(before, IFLA_IFNAME);
    assert OfType(before + [x] + after, IFLA_IFNAME)[0] == x;
    TrimPadding(name, padding);
  }

  lemma {:induction false} FirstUsableIff(attrs: seq<Attr>, family: Byte)
    ensures FirstUsable(attrs, family).Some? <==> exists a :: a in attrs && UsableIp(a.data, family).Some?
    ensures FirstUsable(attrs, family).Some? ==>
              exists a :: a in attrs && UsableIp(a.data, family) == FirstUsable(attrs, family)
  {
    if attrs != [] {
      FirstUsableIff(attrs[1..], family);
    }
  }

  lemma {:induction false} OfTypeComplete(attrs: seq<Attr>, a: Attr)
    requires a in attrs
    ensures a in OfType(attrs, a.typ)
  {
    if attrs[0] != a {
      OfTypeComplete(attrs[1..], a);
    }
  }

  /** A usable local address wins over every other attribute, wherever it stands; the address is
      unknown exactly when no local and no plain address is usable. */
  lemma LocalAddressWins(attrs: seq<Attr>, h: IfAddr)
    ensures (exists a :: a in attrs && a.typ == IFA_LOCAL && UsableIp(a.data, h.family).Some?) ==>
              exists a :: a in attrs && a.typ == IFA_LOCAL && UsableIp(a.data, h.family) == AddrOf(h, attrs).address
    ensures AddrOf(h, attrs).address == None <==>
              !exists a :: a in attrs && a.typ in {IFA_LOCAL, IFA_ADDRESS} && UsableIp(a.data, h.family).Some?
  {
    hide UsableIp;
    var local, plain := OfType(attrs, IFA_LOCAL), OfType(attrs, IFA_ADDRESS);
    FirstUsableIff(local, h.family);
    FirstUsableIff(plain, h.family);
    forall a | a in attrs ensures a in OfType(attrs, a.typ) {
      OfTypeComplete(attrs, a);
    }
  }
}
