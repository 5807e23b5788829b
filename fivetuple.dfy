/** The multiplexer's five-tuple filter: the decisions `parse_pkt` takes on
    a frame that etherparse has already sliced, the conversion of an IPv4
    address to an integer, and `handle_arp`, which builds a 42-byte ARP
    request from local `pnet` buffers and copies it into a packet buffer. */
module FiveTupleFilter {
  import opened Types
  import opened Shim
  import opened MbufApi
  import opened ShimIpString

  type MacAddr = s: seq<byte> | |s| == 6 witness [0, 0, 0, 0, 0, 0]

  /** `std::net::Ipv4Addr`, as its four octets in text order. */
  type Ipv4Addr = s: seq<byte> | |s| == 4 witness [0, 0, 0, 0]

  // ---------------------------------------------------------------------
  // What etherparse hands over

  /** An etherparse `ReadError`; its variants are etherparse's. */
  datatype ReadError = ReadError(kind: nat)

  /** `LinkSlice::Ethernet2`, already turned into its header; the ether
      type as the number the two network-order bytes denote. */
  datatype LinkSlice = Ethernet2(source: MacAddr, destination: MacAddr, etherType: u16)

  datatype InternetSlice = Ipv4(sourceAddr: Ipv4Addr, destinationAddr: Ipv4Addr) | Ipv6

  datatype TransportSlice = Tcp(destinationPort: u16) | Udp

  /** `SlicedPacket`: each layer etherparse recognised. */
  datatype SlicedPacket = SlicedPacket(
    link: Option<LinkSlice>, ip: Option<InternetSlice>, transport: Option<TransportSlice>)

  datatype FiveTupleErr =
    | InvalidLink | InvalidIP | InvalidTransport | NoUDP | WrongMAC | WrongIP | WrongPort | NoIPv6
    | ReadErr(error: ReadError)

  datatype LocalIPMac = LocalIPMac(ip: Ipv4Addr, mac: MacAddr)

  datatype FiveTuple = FiveTuple(
    srcMac: MacAddr, srcIp: Ipv4Addr, dstMac: MacAddr, dstIp: Ipv4Addr, dstPort: u16, ethertype: u16)

  // ---------------------------------------------------------------------
  // parse_pkt

  /** `FiveTuple::parse_pkt` on the outcome of `SlicedPacket::from_ethernet`:
      the first missing layer, an IPv6 or UDP layer, then a destination
      address other than the local one (IP before MAC) is an error;
      otherwise the fields are copied out. The port list is not consulted. */
  function ParsePkt(sliced: Result<SlicedPacket, ReadError>, local: LocalIPMac, ports: seq<u16>): (r: Result<FiveTuple, FiveTupleErr>)
    ensures sliced.Err? ==> r == Err(ReadErr(sliced.error))
    ensures sliced.Ok? && sliced.value.link.None? ==> r == Err(InvalidLink)
    ensures sliced.Ok? && sliced.value.link.Some? && sliced.value.ip.None? ==> r == Err(InvalidIP)
    ensures sliced.Ok? && sliced.value.link.Some? && sliced.value.ip.Some? && sliced.value.transport.None? ==>
      r == Err(InvalidTransport)
    ensures Layered(sliced) && sliced.value.ip.value.Ipv6? ==> r == Err(NoIPv6)
    ensures Layered(sliced) && sliced.value.ip.value.Ipv4? && sliced.value.transport.value.Udp? ==>
      r == Err(NoUDP)
    ensures r.Ok? <==> TcpOverIpv4(sliced) && AddressedTo(sliced.value, local)
    ensures TcpOverIpv4(sliced) && sliced.value.ip.value.destinationAddr != local.ip ==> r == Err(WrongIP)
    ensures (TcpOverIpv4(sliced) && sliced.value.ip.value.destinationAddr == local.ip &&
      sliced.value.link.value.destination != local.mac) ==> r == Err(WrongMAC)
    ensures r.Ok? ==> (var p := sliced.value; var l, ip := p.link.value, p.ip.value;
      r.value == FiveTuple(l.source, ip.sourceAddr, l.destination, ip.destinationAddr,
        p.transport.value.destinationPort, l.etherType))
    ensures r != Err(WrongPort)
  {
    match sliced
    case Err(e) => Err(ReadErr(e))
    case Ok(p) =>
      if p.link.None? then Err(InvalidLink)
      else if p.ip.None? then Err(InvalidIP)
      else if p.transport.None? then Err(InvalidTransport)
      else
        var link := p.link.value;
        match p.ip.value
        case Ipv6 => Err(NoIPv6)
        case Ipv4(srcIp, dstIp) =>
          match p.transport.value
          case Udp => Err(NoUDP)
          case Tcp(dstPort) =>
            if dstIp != local.ip then Err(WrongIP)
            else if link.destination != local.mac then Err(WrongMAC)
            else Ok(FiveTuple(link.source, srcIp, link.destination, dstIp, dstPort, link.etherType))
  }

  /** All three layers were recognised. */
  predicate Layered(sliced: Result<SlicedPacket, ReadError>)
  {
    sliced.Ok? && sliced.value.link.Some? && sliced.value.ip.Some? && sliced.value.transport.Some?
  }

  /** A TCP segment in an IPv4 packet in an Ethernet II frame. */
  predicate TcpOverIpv4(sliced: Result<SlicedPacket, ReadError>)
  {
    Layered(sliced) && sliced.value.ip.value.Ipv4? && sliced.value.transport.value.Tcp?
  }

  /** Sent to the local interface: both destination addresses are ours. */
  predicate AddressedTo(p: SlicedPacket, local: LocalIPMac)
    requires p.link.Some? && p.ip.Some? && p.ip.value.Ipv4?
  {
    p.ip.value.destinationAddr == local.ip && p.link.value.destination == local.mac
  }

  /** The port list plays no part in the outcome. */
  lemma ParsePktIgnoresPorts(sliced: Result<SlicedPacket, ReadError>, local: LocalIPMac, ports1: seq<u16>, ports2: seq<u16>)
    ensures ParsePkt(sliced, local, ports1) == ParsePkt(sliced, local, ports2)
  {
  }

  /** An accepted tuple is addressed to the local interface, so the first
      guard of `handle_arp` always passes for it. */
  lemma ParsedTupleIsLocal(sliced: Result<SlicedPacket, ReadError>, local: LocalIPMac, ports: seq<u16>)
    requires ParsePkt(sliced, local, ports).Ok?
    ensures var t := ParsePkt(sliced, local, ports).value;
      t.dstIp == local.ip && t.dstMac == local.mac && AddressedLocally(t, local)
  {
  }

  // ---------------------------------------------------------------------
  // ethertype and ipaddr_to_u32

  const ETHERTYPE_ARP: u16 := 0x0806
  const ARP_OP_REQUEST: u16 := 1
  const ARP_OP_REPLY: u16 := 2

  /** `FiveTuple::ethertype`: the stored ether type passed through `to_be`,
      which on this host swaps its bytes. */
  function EtherType(t: FiveTuple): (r: u16)
    ensures HOST_BYTE_ORDER == LittleEndian ==> r == Swap16(t.ethertype)
  {
    CpuToBe16(t.ethertype)
  }

  /** `FiveTuple::ipaddr_to_u32` as written. The four shifted values occupy
      disjoint bits, so their OR is their sum. The lowest byte is octet 1,
      not octet 3. */
  function IpaddrToU32(ip: Ipv4Addr): (r: u32)
    ensures Octet(r, 3) == ip[0] && Octet(r, 2) == ip[1] && Octet(r, 1) == ip[2] && Octet(r, 0) == ip[1]
  {
    OctetsOfSum(ip[0], ip[1], ip[2], ip[1]);
    ip[0] as int * 0x100_0000 + ip[1] as int * 0x1_0000 + ip[2] as int * 0x100 + ip[1] as int
  }

  /** 10.0.0.1 and 10.0.0.0 map to the same integer, 0x0A000000: the last
      octet is lost. */
  lemma IpaddrToU32Collides()
    ensures IpaddrToU32([10, 0, 0, 1]) == IpaddrToU32([10, 0, 0, 0]) == 0x0A00_0000
    ensures IpaddrToU32Intended([10, 0, 0, 1]) == 0x0A00_0001
  {
  }

  /** The conversion as evidently intended: the octets in network order,
      octet 0 highest. */
  function IpaddrToU32Intended(ip: Ipv4Addr): (r: u32)
    ensures Octet(r, 3) == ip[0] && Octet(r, 2) == ip[1] && Octet(r, 1) == ip[2] && Octet(r, 0) == ip[3]
  {
    OctetsOfSum(ip[0], ip[1], ip[2], ip[3]);
    ip[0] as int * 0x100_0000 + ip[1] as int * 0x1_0000 + ip[2] as int * 0x100 + ip[3] as int
  }

  /** Splitting the integer into octets gives the address back, so the
      intended conversion is one-to-one. */
  lemma IpaddrToU32IntendedInverse(ip: Ipv4Addr)
    ensures var x := IpaddrToU32Intended(ip);
      [Octet(x, 3), Octet(x, 2), Octet(x, 1), Octet(x, 0)] == ip
  {
  }

  lemma IpaddrToU32IntendedInjective(a: Ipv4Addr, b: Ipv4Addr)
    requires IpaddrToU32Intended(a) == IpaddrToU32Intended(b)
    ensures a == b
  {
    IpaddrToU32IntendedInverse(a);
    IpaddrToU32IntendedInverse(b);
  }

  /** It agrees with the shim's `RTE_IPV4` of the four octets and with a
      network-order read of the address bytes, the form `_pkt_detect_arp`
      compares against. */
  lemma IpaddrToU32IntendedAgrees(ip: Ipv4Addr)
    ensures IpaddrToU32Intended(ip) == RteIpv4(ip[0], ip[1], ip[2], ip[3])
    ensures IpaddrToU32Intended(ip) == Be32(ip, 0)
  {
    DivMod256(0, ip[0]);
    DivMod256(0, ip[1]);
    DivMod256(0, ip[2]);
    DivMod256(0, ip[3]);
  }

  /** The conversion as written agrees with the intended one exactly on
      addresses whose octets 1 and 3 are equal. */
  lemma IpaddrToU32AgreesIff(ip: Ipv4Addr)
    ensures IpaddrToU32(ip) == IpaddrToU32Intended(ip) <==> ip[1] == ip[3]
  {
  }

  // ---------------------------------------------------------------------
  // handle_arp

  /** The first guard of `handle_arp`: both destination addresses of the
      tuple are the local ones. */
  predicate AddressedLocally(t: FiveTuple, local: LocalIPMac)
  {
    local.mac == t.dstMac && local.ip == t.dstIp
  }

  /** The guards of `handle_arp` as written. The inner test
      `local.mac == dst_mac || local.ip == dst_ip` holds whenever the first
      guard has passed, so it adds nothing. */
  predicate ArpGuard(t: FiveTuple, local: LocalIPMac)
  {
    AddressedLocally(t, local) && EtherType(t) == ETHERTYPE_ARP &&
    (local.mac == t.dstMac || local.ip == t.dstIp)
  }

  /** For a tuple carrying the ARP ether type 0x0806, `to_be` on this host
      gives 0x0608, so the guard as written turns it away and would let a
      tuple of type 0x0608 through instead. */
  lemma ArpGuardMissesArp(t: FiveTuple, local: LocalIPMac)
    ensures t.ethertype == ETHERTYPE_ARP ==> !ArpGuard(t, local)
    ensures ArpGuard(t, local) <==> AddressedLocally(t, local) && t.ethertype == 0x0608
  {
    Swap16Involutive(t.ethertype);
  }

  /** The guard as evidently intended: the ether type compared as stored. */
  predicate ArpGuardIntended(t: FiveTuple, local: LocalIPMac)
  {
    AddressedLocally(t, local) && t.ethertype == ETHERTYPE_ARP
  }

  /** The ether types after which etherparse's `from_ethernet` goes on to
      slice an internet layer: IPv4, IPv6 and the VLAN tags 0x8100, 0x88A8
      and 0x9100. */
  predicate SlicesInternetLayer(etherType: u16)
  {
    etherType == 0x0800 || etherType == 0x86DD ||
    etherType == 0x8100 || etherType == 0x88A8 || etherType == 0x9100
  }

  /** What `from_ethernet` can hand over: an internet layer only behind an
      Ethernet II header carrying one of those ether types. */
  predicate FromEthernetShape(sliced: Result<SlicedPacket, ReadError>)
  {
    sliced.Ok? && sliced.value.ip.Some? ==>
      sliced.value.link.Some? && SlicesInternetLayer(sliced.value.link.value.etherType)
  }

  /** An ARP frame has no internet layer, so `parse_pkt` stops at `InvalidIP`. */
  lemma ArpFrameIsInvalidIP(sliced: Result<SlicedPacket, ReadError>, local: LocalIPMac, ports: seq<u16>)
    requires FromEthernetShape(sliced) && sliced.Ok? && sliced.value.link.Some?
    requires sliced.value.link.value.etherType == ETHERTYPE_ARP
    ensures ParsePkt(sliced, local, ports) == Err(InvalidIP)
  {
  }

  /** No tuple `parse_pkt` accepts carries the ARP ether type or its
      byte-swapped twin, so neither the guard as written nor the intended
      one passes for it: on parsed tuples `handle_arp` never builds a
      request, whichever test it uses. */
  lemma ParsedTupleNeverArp(sliced: Result<SlicedPacket, ReadError>, local: LocalIPMac, ports: seq<u16>)
    requires FromEthernetShape(sliced) && ParsePkt(sliced, local, ports).Ok?
    ensures var t := ParsePkt(sliced, local, ports).value;
      t.ethertype != ETHERTYPE_ARP && !ArpGuard(t, local) && !ArpGuardIntended(t, local)
  {
    ArpGuardMissesArp(ParsePkt(sliced, local, ports).value, local);
  }

  const BROADCAST: MacAddr := [0xFF, 0xFF, 0xFF, 0xFF, 0xFF, 0xFF]
  const ZERO_MAC: MacAddr := [0, 0, 0, 0, 0, 0]

  /** The frame `handle_arp` asks for: broadcast from the local MAC, an ARP
      request over Ethernet for IPv4 from the local addresses, target
      hardware address zero, target protocol address `tpa`. `pnet`'s
      setters store multi-byte fields in network order. */
  function ArpRequestFrame(local: LocalIPMac, tpa: Ipv4Addr): (r: seq<byte>)
    ensures |r| == ETHER_HDR_LEN + ARP_HDR_LEN
  {
    EncodeArp(RequestFields(local, tpa))
  }

  function RequestFields(local: LocalIPMac, tpa: Ipv4Addr): (a: ArpFrame)
    ensures WellSized(a)
  {
    ArpFrame(BROADCAST, local.mac, ETHERTYPE_ARP,
      RTE_ARP_HRD_ETHER, RTE_ETHER_TYPE_IPV4, 6, 4, ARP_OP_REQUEST,
      local.mac, local.ip, ZERO_MAC, tpa)
  }

  /** Read back field by field, the frame is that request. */
  lemma ArpRequestFields(local: LocalIPMac, tpa: Ipv4Addr)
    ensures var a := DecodeArp(ArpRequestFrame(local, tpa));
      a.ethDst == BROADCAST && a.ethSrc == local.mac && a.etherType == ETHERTYPE_ARP &&
      a.hrd == RTE_ARP_HRD_ETHER && a.pro == RTE_ETHER_TYPE_IPV4 && a.hln == 6 && a.pln == 4 &&
      a.op == ARP_OP_REQUEST && a.sha == local.mac && a.spa == local.ip && a.tha == ZERO_MAC && a.tpa == tpa
  {
    DecodeEncodeArp(RequestFields(local, tpa));
  }

  /** The request is what the shim's ARP detector answers: on the host
      that owns `tpa`, given its address in the intended integer form, it
      is detected; the form as written misses it whenever octets 1 and 3
      differ. */
  lemma ArpRequestDetected(local: LocalIPMac, tpa: Ipv4Addr)
    ensures ArpReadable(ArpRequestFrame(local, tpa))
    ensures DetectArp(ArpRequestFrame(local, tpa), IpaddrToU32Intended(tpa)) == 1
    ensures tpa[1] != tpa[3] ==> DetectArp(ArpRequestFrame(local, tpa), IpaddrToU32(tpa)) == 0
  {
    ArpRequestFields(local, tpa);
    IpaddrToU32IntendedAgrees(tpa);
  }

  /** The `MutableEthernetPacket` setters on the 42-byte `eth_buf`:
      destination, source, ether type. */
  method SetEthernet(ethBuf: array<byte>, src: MacAddr)
    requires ethBuf.Length == ETHER_HDR_LEN + ARP_HDR_LEN
    modifies ethBuf
    ensures ethBuf[..ETHER_HDR_LEN] == EtherHdrBytes(BROADCAST, src, ETHERTYPE_ARP)
    ensures forall i :: ETHER_HDR_LEN <= i < ethBuf.Length ==> ethBuf[i] == old(ethBuf[i])
  {
    ghost var e := EtherHdrBytes(BROADCAST, src, ETHERTYPE_ARP);
    WriteBytes(ethBuf, 0, BROADCAST);
    WriteBytes(ethBuf, 6, src);
    WriteBytes(ethBuf, 12, Be16Bytes(ETHERTYPE_ARP));
    assert forall i :: 0 <= i < 14 ==> ethBuf[i] == e[i];
  }

  /** The `MutableArpPacket` setters on the 28-byte `arp_buffer`, in the
      order `handle_arp` calls them. */
  method SetArp(arpBuf: array<byte>, local: LocalIPMac, tpa: Ipv4Addr)
    requires arpBuf.Length == ARP_HDR_LEN
    modifies arpBuf
    ensures arpBuf[..] == ArpHdrBytes(RTE_ARP_HRD_ETHER, RTE_ETHER_TYPE_IPV4, 6, 4, ARP_OP_REQUEST,
      local.mac, local.ip, ZERO_MAC, tpa)
  {
    ghost var e := ArpHdrBytes(RTE_ARP_HRD_ETHER, RTE_ETHER_TYPE_IPV4, 6, 4, ARP_OP_REQUEST,
      local.mac, local.ip, ZERO_MAC, tpa);
    WriteBytes(arpBuf, 0, Be16Bytes(RTE_ARP_HRD_ETHER));
    WriteBytes(arpBuf, 2, Be16Bytes(RTE_ETHER_TYPE_IPV4));
    WriteBytes(arpBuf, 4, [6]);
    WriteBytes(arpBuf, 5, [4]);
    WriteBytes(arpBuf, 6, Be16Bytes(ARP_OP_REQUEST));
    assert forall i :: 0 <= i < 8 ==> arpBuf[i] == e[i];
    WriteBytes(arpBuf, 8, local.mac);
    WriteBytes(arpBuf, 14, local.ip);
    assert forall i :: 0 <= i < 18 ==> arpBuf[i] == e[i];
    WriteBytes(arpBuf, 18, ZERO_MAC);
    WriteBytes(arpBuf, 24, tpa);
    assert forall i :: 0 <= i < 28 ==> arpBuf[i] == e[i];
  }

  /** The body of `handle_arp` once its guards have passed: the request is
      assembled in `eth_buf`, its ARP part in `arp_buffer` then copied in
      by `set_payload`, and the 42 bytes go into a buffer by
      `Mbuf::from_bytes`; nothing when that fails. */
  method BuildArpRequest(local: LocalIPMac, tpa: Ipv4Addr, mp: Mempool) returns (r: Option<Mbuf>)
    modifies mp
    ensures r.Some? <==> old(mp.avail) > 0 && ETHER_HDR_LEN + ARP_HDR_LEN <= mp.DataRoom()
    ensures r.None? ==> mp.avail == old(mp.avail)
    ensures r.Some? ==> (fresh(r.value) && r.value.Valid() && r.value.pool == mp &&
      mp.avail == old(mp.avail) - 1 && r.value.Data() == ArpRequestFrame(local, tpa))
  {
    var ethBuf := new byte[ETHER_HDR_LEN + ARP_HDR_LEN](_ => 0);
    SetEthernet(ethBuf, local.mac);
    var arpBuf := new byte[ARP_HDR_LEN](_ => 0);
    SetArp(arpBuf, local, tpa);
    ghost var hdr := ethBuf[..ETHER_HDR_LEN];
    WriteBytes(ethBuf, ETHER_HDR_LEN, arpBuf[..]);
    assert ethBuf[..ETHER_HDR_LEN] == hdr;
    assert ethBuf[ETHER_HDR_LEN..] == arpBuf[..];
    assert ethBuf[..] == ethBuf[..ETHER_HDR_LEN] + ethBuf[ETHER_HDR_LEN..];
    assert ethBuf[..] == ArpRequestFrame(local, tpa);
    var m := Mbuf.FromBytes(ethBuf[..], mp);
    if m.Err? {
      return None;
    }
    r := Some(m.value);
  }

  /** `FiveTuple::handle_arp` as written: nothing unless the guards pass,
      otherwise a request for the tuple's source address. */
  method HandleArp(t: FiveTuple, local: LocalIPMac, mp: Mempool) returns (r: Option<Mbuf>)
    modifies mp
    ensures !ArpGuard(t, local) ==> r.None? && mp.avail == old(mp.avail)
    ensures r.Some? <==> (ArpGuard(t, local) && old(mp.avail) > 0 &&
      ETHER_HDR_LEN + ARP_HDR_LEN <= mp.DataRoom())
    ensures r.None? ==> mp.avail == old(mp.avail)
    ensures r.Some? ==> (fresh(r.value) && r.value.Valid() && r.value.pool == mp &&
      mp.avail == old(mp.avail) - 1 && r.value.Data() == ArpRequestFrame(local, t.srcIp))
  {
    if local.mac != t.dstMac || local.ip != t.dstIp {
      return None;
    }
    if EtherType(t) == ETHERTYPE_ARP {
      if local.mac == t.dstMac || local.ip == t.dstIp {
        r := BuildArpRequest(local, t.srcIp, mp);
        return;
      }
    }
    return None;
  }

  /** `handle_arp` with the intended ether-type test. */
  method HandleArpIntended(t: FiveTuple, local: LocalIPMac, mp: Mempool) returns (r: Option<Mbuf>)
    modifies mp
    ensures !ArpGuardIntended(t, local) ==> r.None? && mp.avail == old(mp.avail)
    ensures r.Some? <==> (ArpGuardIntended(t, local) && old(mp.avail) > 0 &&
      ETHER_HDR_LEN + ARP_HDR_LEN <= mp.DataRoom())
    ensures r.None? ==> mp.avail == old(mp.avail)
    ensures r.Some? ==> (fresh(r.value) && r.value.Valid() && r.value.pool == mp &&
      mp.avail == old(mp.avail) - 1 && r.value.Data() == ArpRequestFrame(local, t.srcIp))
  {
    if !AddressedLocally(t, local) || t.ethertype != ETHERTYPE_ARP {
      return None;
    }
    r := BuildArpRequest(local, t.srcIp, mp);
  }
}
