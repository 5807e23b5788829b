/** The C shim's packet-header helpers: locating the Ethernet, IPv4, TCP,
    UDP, ICMP and ARP headers at fixed offsets of a frame, the ICMP
    echo-reply checksum update, ARP-request detection and the ARP reply
    builder. A frame is the data region of a buffer, as a byte sequence;
    a located header is its offset in that frame. */
module Shim {
  import opened Types
  import opened MbufApi

  const ETHER_HDR_LEN: nat := 14
  const IPV4_HDR_LEN: nat := 20
  const ARP_HDR_LEN: nat := 28
  /** Offset of `next_proto_id` in the IPv4 header (RFC 791 section 3.1). */
  const IPV4_PROTO_OFFSET: nat := 9

  const RTE_ETHER_TYPE_IPV4: u16 := 0x0800
  const RTE_ETHER_TYPE_ARP: u16 := 0x0806
  const RTE_ARP_HRD_ETHER: u16 := 1
  const RTE_ARP_OP_REQUEST: u16 := 1
  const RTE_ARP_OP_REPLY: u16 := 2
  const RTE_ETHER_ADDR_LEN: byte := 6
  const IPV4_ADDR_LEN: byte := 4

  const IP_PROTOCOL_ICMP: byte := 1
  const IP_PROTOCOL_TCP: byte := 6
  const IP_PROTOCOL_UDP: byte := 17

  const RTE_IP_ICMP_ECHO_REQUEST: u16 := 8
  const RTE_IP_ICMP_ECHO_REPLY: u16 := 0

  /** `_pkt_ether_hdr`: absent only for a null buffer, otherwise the start
      of the data region. */
  function EtherHdr(pkt: Option<seq<byte>>): (r: Option<nat>)
    ensures r.None? <==> pkt.None?
    ensures r.Some? ==> r.value == 0
  {
    match pkt
    case None => None
    case Some(_) => Some(0)
  }

  /** `_pkt_ipv4_hdr`: the header after the Ethernet header, when the
      ether_type field read as a native 16-bit value equals 8. */
  function Ipv4Hdr(f: seq<byte>): (r: Option<nat>)
    requires |f| >= ETHER_HDR_LEN
    ensures r.Some? <==> f[12] == 8 && f[13] == 0
    ensures r.Some? ==> r.value == ETHER_HDR_LEN
  {
    if LoadHost16(f, 12) == 8 then Some(ETHER_HDR_LEN) else None
  }

  /** On this host the raw comparison accepts exactly the frames whose
      network-order ether_type is IPv4; on a big-endian host the same
      comparison would accept ether_type 0x0008 instead. */
  lemma Ipv4HdrGate(f: seq<byte>)
    requires |f| >= ETHER_HDR_LEN
    ensures Ipv4Hdr(f).Some? <==> Be16(f, 12) == RTE_ETHER_TYPE_IPV4
    ensures Load16(BigEndian, f, 12) == 8 <==> Be16(f, 12) == 8
  {
  }

  /** The C reads the protocol byte only once the IPv4 gate passes. */
  predicate Ipv4Readable(f: seq<byte>)
  {
    |f| >= ETHER_HDR_LEN && (Ipv4Hdr(f).Some? ==> |f| >= ETHER_HDR_LEN + IPV4_PROTO_OFFSET + 1)
  }

  /** Shared body of `_pkt_tcp_hdr`, `_pkt_udp_hdr` and `_pkt_icmp_hdr`:
      the header after a fixed 20-byte IPv4 header carrying protocol
      `proto`. */
  function L4Hdr(f: seq<byte>, proto: byte): (r: Option<nat>)
    requires Ipv4Readable(f)
    ensures r.Some? <==> Ipv4Hdr(f).Some? && f[ETHER_HDR_LEN + IPV4_PROTO_OFFSET] == proto
    ensures r.Some? ==> r.value == ETHER_HDR_LEN + IPV4_HDR_LEN
  {
    match Ipv4Hdr(f)
    case None => None
    case Some(ip) =>
      if f[ip + IPV4_PROTO_OFFSET] != proto then None else Some(ETHER_HDR_LEN + IPV4_HDR_LEN)
  }

  function TcpHdr(f: seq<byte>): (r: Option<nat>)
    requires Ipv4Readable(f)
    ensures r.Some? <==> Ipv4Hdr(f).Some? && f[23] == IP_PROTOCOL_TCP
    ensures r.Some? ==> r.value == 34
  {
    L4Hdr(f, IP_PROTOCOL_TCP)
  }

  function UdpHdr(f: seq<byte>): (r: Option<nat>)
    requires Ipv4Readable(f)
    ensures r.Some? <==> Ipv4Hdr(f).Some? && f[23] == IP_PROTOCOL_UDP
    ensures r.Some? ==> r.value == 34
  {
    L4Hdr(f, IP_PROTOCOL_UDP)
  }

  function IcmpHdr(f: seq<byte>): (r: Option<nat>)
    requires Ipv4Readable(f)
    ensures r.Some? <==> Ipv4Hdr(f).Some? && f[23] == IP_PROTOCOL_ICMP
    ensures r.Some? ==> r.value == 34
  {
    L4Hdr(f, IP_PROTOCOL_ICMP)
  }

  /** A frame is located as at most one of TCP, UDP and ICMP. */
  lemma L4HdrsExclusive(f: seq<byte>)
    requires Ipv4Readable(f)
    ensures !(TcpHdr(f).Some? && UdpHdr(f).Some?)
    ensures !(TcpHdr(f).Some? && IcmpHdr(f).Some?)
    ensures !(UdpHdr(f).Some? && IcmpHdr(f).Some?)
  {
  }

  // ---------------------------------------------------------------------
  // ICMP echo-reply checksum

  /** Assignment to a C `uint16_t`. */
  function U16(x: int): u16
  {
    x % 0x1_0000
  }

  /** `~x & 0xffff` of a 16-bit value. */
  function Not16(x: u16): (r: u16)
    ensures r + x == 0xFFFF
  {
    0xFFFF - x
  }

  /** `_pkt_icmp_checksum` as written: `cksum` is a `uint16_t`, so every
      `+=` truncates and both carry folds add zero. */
  function IcmpChecksum(cksum: u16): (r: u16)
  {
    var c1 := U16(Not16(cksum));
    var c2 := U16(c1 + Not16(CpuToBe16(RTE_IP_ICMP_ECHO_REQUEST * 0x100)));
    var c3 := U16(c2 + CpuToBe16(RTE_IP_ICMP_ECHO_REPLY * 0x100));
    var c4 := U16(c3 % 0x1_0000 + c3 / 0x1_0000);
    var c5 := U16(c4 % 0x1_0000 + c4 / 0x1_0000);
    U16(Not16(c5))
  }

  /** The type/code words of a request and a reply, code 0, as a host load
      of their bytes on this host yields them. */
  lemma IcmpTypeWords()
    ensures CpuToBe16(RTE_IP_ICMP_ECHO_REQUEST * 0x100) == 8
    ensures CpuToBe16(RTE_IP_ICMP_ECHO_REPLY * 0x100) == 0
  {
    DivMod256(8, 0);
  }

  /** With the constants evaluated, the update is one truncating addition
      of 0xFFF7 between two complements. */
  lemma IcmpChecksumSteps(cksum: u16)
    ensures IcmpChecksum(cksum) == Not16(U16(Not16(cksum) + 0xFFF7))
  {
    IcmpTypeWords();
    var c1 := U16(Not16(cksum));
    DivMod65536(Not16(cksum), 0);
    var c2 := U16(c1 as int + 0xFFF7);
    DivMod65536(c2, 0);
    DivMod65536(c2 % 0x1_0000 + c2 / 0x1_0000, 0);
    DivMod65536(Not16(c2), 0);
  }

  /** Adding 0xFFF7 to the complement modulo 2^16 adds 9 to the value. */
  lemma AddFFF7(c: u16)
    ensures Not16(U16(Not16(c) + 0xFFF7)) == (c + 9) % 0x1_0000
  {
    if c <= 0xFFF6 {
      DivMod65536(Not16(c) + 0xFFF7, 1);
      DivMod65536(c + 9, 0);
    } else {
      DivMod65536(Not16(c) + 0xFFF7, 0);
      DivMod65536(c + 9, 1);
    }
  }

  /** The update as written adds 9 modulo 2^16. */
  lemma IcmpChecksumValue(cksum: u16)
    ensures IcmpChecksum(cksum) == (cksum + 9) % 0x1_0000
  {
    IcmpChecksumSteps(cksum);
    AddFFF7(cksum);
  }

  /** The update of RFC 1624 section 3, eqn. 3, with a 32-bit accumulator:
      `~(~HC + ~m + m')`, where m and m' are the type/code word of the
      request and of the reply as loaded on this host. */
  function IcmpChecksumIntended(cksum: u16): (r: u16)
  {
    var sum := Not16(cksum) + Not16(CpuToBe16(RTE_IP_ICMP_ECHO_REQUEST * 0x100))
      + CpuToBe16(RTE_IP_ICMP_ECHO_REPLY * 0x100);
    var f1 := sum % 0x1_0000 + sum / 0x1_0000;
    var f2 := f1 % 0x1_0000 + f1 / 0x1_0000;
    Not16(U16(f2))
  }

  /** The intended update adds 8 in ones'-complement arithmetic. */
  lemma IcmpChecksumIntendedValue(cksum: u16)
    ensures IcmpChecksumIntended(cksum) == if cksum <= 0xFFF6 then cksum + 8 else cksum - 0xFFF7
    ensures (IcmpChecksumIntended(cksum) - cksum) % 0xFFFF == 8
  {
    IcmpTypeWords();
    var sum := Not16(cksum) + 0xFFF7;
    if cksum <= 0xFFF6 {
      assert sum % 0x1_0000 + sum / 0x1_0000 == 0xFFF7 - cksum;
    } else {
      assert sum % 0x1_0000 + sum / 0x1_0000 == sum;
    }
  }

  /** A request whose ones'-complement sum (the other words `rest` plus the
      type/code word 8 plus the checksum) is zero turns into a reply whose
      sum is zero too: the replaced type/code word is 0. */
  lemma IcmpChecksumIntendedValid(rest: nat, cksum: u16)
    requires (rest + 8 + cksum) % 0xFFFF == 0
    ensures (rest + IcmpChecksumIntended(cksum)) % 0xFFFF == 0
  {
    IcmpChecksumIntendedValue(cksum);
  }

  /** The update as written breaks every valid checksum up to 0xFFF6: the
      reply's ones'-complement sum comes out as 1 instead of 0 (for example
      with the other words summing to 0xFFF7 and checksum 0). Above 0xFFF6
      the lost carry and the extra 1 cancel. */
  lemma IcmpChecksumBreaksValidity(rest: nat, cksum: u16)
    requires (rest + 8 + cksum) % 0xFFFF == 0 && cksum <= 0xFFF6
    ensures (rest + IcmpChecksum(cksum)) % 0xFFFF == 1
  {
    IcmpChecksumValue(cksum);
    DivMod65536(cksum + 9, 0);
    var q := (rest + 8 + cksum) / 0xFFFF;
    assert rest + IcmpChecksum(cksum) == q * 0xFFFF + 1;
  }

  // ---------------------------------------------------------------------
  // ARP

  /** An Ethernet header followed by an ARP header (RFC 826), field by
      field as the frame holds them; 16-bit fields in host meaning. */
  datatype ArpFrame = ArpFrame(
    ethDst: seq<byte>, ethSrc: seq<byte>, etherType: u16,
    hrd: u16, pro: u16, hln: byte, pln: byte, op: u16,
    sha: seq<byte>, spa: seq<byte>, tha: seq<byte>, tpa: seq<byte>)

  predicate WellSized(a: ArpFrame)
  {
    |a.ethDst| == 6 && |a.ethSrc| == 6 && |a.sha| == 6 && |a.spa| == 4 && |a.tha| == 6 && |a.tpa| == 4
  }

  /** The 42 bytes of a frame, multi-byte fields in network order. */
  function EncodeArp(a: ArpFrame): (r: seq<byte>)
    requires WellSized(a)
    ensures |r| == ETHER_HDR_LEN + ARP_HDR_LEN
  {
    EtherHdrBytes(a.ethDst, a.ethSrc, a.etherType)
      + ArpHdrBytes(a.hrd, a.pro, a.hln, a.pln, a.op, a.sha, a.spa, a.tha, a.tpa)
  }

  function EtherHdrBytes(dst: seq<byte>, src: seq<byte>, etherType: u16): (r: seq<byte>)
    requires |dst| == 6 && |src| == 6
    ensures |r| == ETHER_HDR_LEN
  {
    dst + src + Be16Bytes(etherType)
  }

  function ArpHdrBytes(hrd: u16, pro: u16, hln: byte, pln: byte, op: u16,
                       sha: seq<byte>, spa: seq<byte>, tha: seq<byte>, tpa: seq<byte>): (r: seq<byte>)
    requires |sha| == 6 && |spa| == 4 && |tha| == 6 && |tpa| == 4
    ensures |r| == ARP_HDR_LEN
  {
    Be16Bytes(hrd) + Be16Bytes(pro) + [hln, pln] + Be16Bytes(op) + sha + spa + tha + tpa
  }

  /** Reads the fields of the first 42 bytes of `f` (`_pkt_ether_hdr` at
      offset 0, `_pkt_arp_hdr` at offset 14). */
  function DecodeArp(f: seq<byte>): (a: ArpFrame)
    requires |f| >= ETHER_HDR_LEN + ARP_HDR_LEN
    ensures WellSized(a)
  {
    ArpFrame(f[0..6], f[6..12], Be16(f, 12),
      Be16(f, 14), Be16(f, 16), f[18], f[19], Be16(f, 20),
      f[22..28], f[28..32], f[32..38], f[38..42])
  }

  lemma DecodeEncodeArp(a: ArpFrame)
    requires WellSized(a)
    ensures DecodeArp(EncodeArp(a)) == a
  {
    var f := EncodeArp(a);
    assert f[0..6] == a.ethDst;
    assert f[6..12] == a.ethSrc;
    assert f[22..28] == a.sha;
    assert f[28..32] == a.spa;
    assert f[32..38] == a.tha;
    assert f[38..42] == a.tpa;
  }

  lemma EncodeDecodeArp(f: seq<byte>)
    requires |f| >= ETHER_HDR_LEN + ARP_HDR_LEN
    ensures EncodeArp(DecodeArp(f)) == f[..ETHER_HDR_LEN + ARP_HDR_LEN]
  {
    var a := DecodeArp(f);
    EtherHdrOfBytes(f);
    ArpHdrOfBytes(f);
    assert EncodeArp(a) == f[..14] + f[14..42];
  }

  lemma EtherHdrOfBytes(f: seq<byte>)
    requires |f| >= ETHER_HDR_LEN
    ensures EtherHdrBytes(f[0..6], f[6..12], Be16(f, 12)) == f[..14]
  {
    var g := EtherHdrBytes(f[0..6], f[6..12], Be16(f, 12));
    DivMod256(f[12], f[13]);
    assert forall i :: 0 <= i < 14 ==> g[i] == f[i];
  }

  lemma ArpHdrOfBytes(f: seq<byte>)
    requires |f| >= ETHER_HDR_LEN + ARP_HDR_LEN
    ensures ArpHdrBytes(Be16(f, 14), Be16(f, 16), f[18], f[19], Be16(f, 20),
      f[22..28], f[28..32], f[32..38], f[38..42]) == f[14..42]
  {
    var g := ArpHdrBytes(Be16(f, 14), Be16(f, 16), f[18], f[19], Be16(f, 20),
      f[22..28], f[28..32], f[32..38], f[38..42]);
    DivMod256(f[14], f[15]);
    DivMod256(f[16], f[17]);
    DivMod256(f[20], f[21]);
    assert forall i :: 0 <= i < 28 ==> g[i] == f[14 + i];
  }

  /** What `_pkt_detect_arp` and `_pkt_arp_response` read: the ether_type,
      then the opcode when the frame is ARP, then the addresses when it is
      a request. */
  predicate ArpReadable(f: seq<byte>)
  {
    |f| >= ETHER_HDR_LEN &&
    (Be16(f, 12) == RTE_ETHER_TYPE_ARP ==>
      |f| >= 22 && (Be16(f, 20) == RTE_ARP_OP_REQUEST ==> |f| >= ETHER_HDR_LEN + ARP_HDR_LEN))
  }

  predicate IsArpRequest(f: seq<byte>)
    requires ArpReadable(f)
  {
    Be16(f, 12) == RTE_ETHER_TYPE_ARP && Be16(f, 20) == RTE_ARP_OP_REQUEST
  }

  /** `_pkt_detect_arp`: 1 for an ARP request whose target protocol
      address, converted to host order, is `localIp`, otherwise 0. */
  function DetectArp(f: seq<byte>, localIp: u32): (r: int)
    requires ArpReadable(f)
    ensures r == 0 || r == 1
    ensures r == 1 <==> IsArpRequest(f) && Be32(f, 38) == localIp
  {
    CpuToBeOfHostLoad(f, 12);
    if CpuToBe16(LoadHost16(f, 12)) == RTE_ETHER_TYPE_ARP then
      CpuToBeOfHostLoad(f, 20);
      if CpuToBe16(LoadHost16(f, 20)) == RTE_ARP_OP_REQUEST then
        Be32ToCpuOfHostLoad(f, 38);
        if Be32ToCpu(LoadHost32(f, 38)) == localIp then 1 else 0
      else 0
    else 0
  }

  /** Each of the three conditions is needed on its own. */
  lemma DetectArpNegatives(f: seq<byte>, localIp: u32)
    requires ArpReadable(f)
    ensures Be16(f, 12) != RTE_ETHER_TYPE_ARP ==> DetectArp(f, localIp) == 0
    ensures Be16(f, 12) == RTE_ETHER_TYPE_ARP && Be16(f, 20) != RTE_ARP_OP_REQUEST ==>
      DetectArp(f, localIp) == 0
    ensures IsArpRequest(f) && Be32(f, 38) != localIp ==> DetectArp(f, localIp) == 0
  {
  }

  /** The reply `_pkt_arp_response` writes for request frame `f`, as
      written: the Ethernet addresses are copied, not swapped, and the
      sender hardware address is the requester's own. */
  function ArpReplyFrame(f: seq<byte>): (r: seq<byte>)
    requires |f| >= ETHER_HDR_LEN + ARP_HDR_LEN
    ensures |r| == ETHER_HDR_LEN + ARP_HDR_LEN
  {
    EncodeArp(ArpFrame(f[0..6], f[6..12], RTE_ETHER_TYPE_ARP,
      RTE_ARP_HRD_ETHER, RTE_ETHER_TYPE_IPV4, RTE_ETHER_ADDR_LEN, IPV4_ADDR_LEN, RTE_ARP_OP_REPLY,
      f[6..12], f[38..42], f[0..6], f[28..32]))
  }

  /** The reply's fields in terms of the request's. */
  lemma ArpReplyFields(f: seq<byte>)
    requires |f| >= ETHER_HDR_LEN + ARP_HDR_LEN
    ensures var q, a := DecodeArp(f), DecodeArp(ArpReplyFrame(f));
      a.ethDst == q.ethDst && a.ethSrc == q.ethSrc && a.etherType == RTE_ETHER_TYPE_ARP &&
      a.hrd == RTE_ARP_HRD_ETHER && a.pro == RTE_ETHER_TYPE_IPV4 && a.hln == 6 && a.pln == 4 &&
      a.op == RTE_ARP_OP_REPLY && a.sha == q.ethSrc && a.spa == q.tpa && a.tha == q.ethDst && a.tpa == q.spa
  {
    DecodeEncodeArp(ArpFrame(f[0..6], f[6..12], RTE_ETHER_TYPE_ARP,
      RTE_ARP_HRD_ETHER, RTE_ETHER_TYPE_IPV4, RTE_ETHER_ADDR_LEN, IPV4_ADDR_LEN, RTE_ARP_OP_REPLY,
      f[6..12], f[38..42], f[0..6], f[28..32]));
  }

  /** A reply is never taken for a request. */
  lemma ArpReplyNotDetected(f: seq<byte>, localIp: u32)
    requires |f| >= ETHER_HDR_LEN + ARP_HDR_LEN
    ensures ArpReadable(ArpReplyFrame(f)) && DetectArp(ArpReplyFrame(f), localIp) == 0
  {
    ArpReplyFields(f);
  }

  /** The reply an ARP responder is meant to send (RFC 826): back to the
      requester, with the requested address claimed by the receiving
      interface. */
  function ArpReplyFrameIntended(f: seq<byte>): (r: seq<byte>)
    requires |f| >= ETHER_HDR_LEN + ARP_HDR_LEN
    ensures |r| == ETHER_HDR_LEN + ARP_HDR_LEN
  {
    EncodeArp(ArpFrame(f[6..12], f[0..6], RTE_ETHER_TYPE_ARP,
      RTE_ARP_HRD_ETHER, RTE_ETHER_TYPE_IPV4, RTE_ETHER_ADDR_LEN, IPV4_ADDR_LEN, RTE_ARP_OP_REPLY,
      f[0..6], f[38..42], f[6..12], f[28..32]))
  }

  lemma ArpReplyIntendedFields(f: seq<byte>)
    requires |f| >= ETHER_HDR_LEN + ARP_HDR_LEN
    ensures var q, a := DecodeArp(f), DecodeArp(ArpReplyFrameIntended(f));
      a.ethDst == q.ethSrc && a.ethSrc == q.ethDst && a.op == RTE_ARP_OP_REPLY &&
      a.sha == q.ethDst && a.spa == q.tpa && a.tha == q.ethSrc && a.tpa == q.spa
  {
    DecodeEncodeArp(ArpFrame(f[6..12], f[0..6], RTE_ETHER_TYPE_ARP,
      RTE_ARP_HRD_ETHER, RTE_ETHER_TYPE_IPV4, RTE_ETHER_ADDR_LEN, IPV4_ADDR_LEN, RTE_ARP_OP_REPLY,
      f[0..6], f[38..42], f[6..12], f[28..32]));
  }

  /** The Ethernet-header stores of `_pkt_arp_response`: source, type,
      then destination. */
  method SetEtherHdr(a: array<byte>, d: nat, frm: seq<byte>, tha: seq<byte>)
    requires |frm| == 6 && |tha| == 6 && d + ETHER_HDR_LEN <= a.Length
    modifies a
    ensures a[d..d + ETHER_HDR_LEN] == EtherHdrBytes(tha, frm, RTE_ETHER_TYPE_ARP)
    ensures forall i :: 0 <= i < a.Length && !(d <= i < d + ETHER_HDR_LEN) ==> a[i] == old(a[i])
  {
    ghost var e := EtherHdrBytes(tha, frm, RTE_ETHER_TYPE_ARP);
    StoreHostOfCpuToBe(RTE_ETHER_TYPE_ARP);
    WriteBytes(a, d + 6, frm);
    WriteBytes(a, d + 12, StoreHost16(CpuToBe16(RTE_ETHER_TYPE_ARP)));
    assert forall i :: 6 <= i < 14 ==> a[d + i] == e[i];
    WriteBytes(a, d + 0, tha);
    assert forall i :: 0 <= i < 14 ==> a[d + i] == e[i];
  }

  /** The ARP-header stores of `_pkt_arp_response`, in field order. */
  method SetArpHdr(a: array<byte>, d: nat, frm: seq<byte>, sip: seq<byte>, tha: seq<byte>, tip: seq<byte>)
    requires |frm| == 6 && |sip| == 4 && |tha| == 6 && |tip| == 4 && d + ARP_HDR_LEN <= a.Length
    modifies a
    ensures a[d..d + ARP_HDR_LEN] == ArpHdrBytes(RTE_ARP_HRD_ETHER, RTE_ETHER_TYPE_IPV4,
      RTE_ETHER_ADDR_LEN, IPV4_ADDR_LEN, RTE_ARP_OP_REPLY, frm, sip, tha, tip)
    ensures forall i :: 0 <= i < a.Length && !(d <= i < d + ARP_HDR_LEN) ==> a[i] == old(a[i])
  {
    ghost var e := ArpHdrBytes(RTE_ARP_HRD_ETHER, RTE_ETHER_TYPE_IPV4,
      RTE_ETHER_ADDR_LEN, IPV4_ADDR_LEN, RTE_ARP_OP_REPLY, frm, sip, tha, tip);
    StoreHostOfCpuToBe(RTE_ARP_HRD_ETHER);
    StoreHostOfCpuToBe(RTE_ETHER_TYPE_IPV4);
    StoreHostOfCpuToBe(RTE_ARP_OP_REPLY);
    WriteBytes(a, d + 0, StoreHost16(CpuToBe16(RTE_ARP_HRD_ETHER)));
    WriteBytes(a, d + 2, StoreHost16(CpuToBe16(RTE_ETHER_TYPE_IPV4)));
    WriteBytes(a, d + 4, [RTE_ETHER_ADDR_LEN]);
    WriteBytes(a, d + 5, [IPV4_ADDR_LEN]);
    WriteBytes(a, d + 6, StoreHost16(CpuToBe16(RTE_ARP_OP_REPLY)));
    assert forall i :: 0 <= i < 8 ==> a[d + i] == e[i];
    WriteBytes(a, d + 8, frm);
    WriteBytes(a, d + 14, sip);
    assert forall i :: 0 <= i < 18 ==> a[d + i] == e[i];
    WriteBytes(a, d + 18, tha);
    WriteBytes(a, d + 24, tip);
    assert forall i :: 0 <= i < 28 ==> a[d + i] == e[i];
  }

  /** `_pkt_arp_response`: for an ARP request, a fresh buffer from `mp`
      holding the 42-byte reply, written field by field; null, without
      touching the pool, for anything else, and null when the pool is
      empty. The target address is not checked, and the inbound buffer is
      only read. */
  method ArpResponse(pkt: Mbuf, mp: Mempool) returns (out: Mbuf?)
    requires pkt.Valid() && ArpReadable(pkt.Data())
    requires mp.DataRoom() >= ETHER_HDR_LEN + ARP_HDR_LEN
    modifies mp
    ensures out == null <==> !IsArpRequest(pkt.Data()) || old(mp.avail) == 0
    ensures out == null ==> mp.avail == old(mp.avail)
    ensures out != null ==> (fresh(out) && out.Valid() && out.pool == mp &&
      mp.avail == old(mp.avail) - 1 && out.dataLen == 42 && out.pktLen == 42 &&
      out.Data() == ArpReplyFrame(pkt.Data()))
  {
    var f := pkt.buf[pkt.dataOff..pkt.dataOff + pkt.dataLen];
    assert f == pkt.Data();
    CpuToBeOfHostLoad(f, 12);
    if CpuToBe16(LoadHost16(f, 12)) != RTE_ETHER_TYPE_ARP {
      return null;
    }
    CpuToBeOfHostLoad(f, 20);
    if CpuToBe16(LoadHost16(f, 20)) != RTE_ARP_OP_REQUEST {
      return null;
    }
    var tha := f[0..6];
    var frm := f[6..12];
    var tip := f[28..32];
    var sip := f[38..42];
    out := mp.Alloc();
    if out == null {
      return null;
    }
    out.dataLen := ETHER_HDR_LEN + ARP_HDR_LEN;
    out.pktLen := ETHER_HDR_LEN + ARP_HDR_LEN;
    var d := out.dataOff;
    SetEtherHdr(out.buf, d, frm, tha);
    SetArpHdr(out.buf, d + ETHER_HDR_LEN, frm, sip, tha, tip);
    assert out.Data() == out.buf[d..d + ETHER_HDR_LEN] + out.buf[d + ETHER_HDR_LEN..d + ETHER_HDR_LEN + ARP_HDR_LEN];
    assert out.Data() == ArpReplyFrame(f);
    assert pkt.buf != out.buf && pkt.buf[..] == old(pkt.buf[..]);
    assert pkt.Data() == f;
  }

  /** The request of the worked example: 10.0.0.2 at BB:BB:BB:BB:BB:BB asks,
      by a frame sent to AA:AA:AA:AA:AA:AA, who has 10.0.0.1. */
  function ExampleRequest(): (r: seq<byte>)
    ensures |r| == ETHER_HDR_LEN + ARP_HDR_LEN
  {
    EncodeArp(ArpFrame([0xAA, 0xAA, 0xAA, 0xAA, 0xAA, 0xAA], [0xBB, 0xBB, 0xBB, 0xBB, 0xBB, 0xBB],
      RTE_ETHER_TYPE_ARP, RTE_ARP_HRD_ETHER, RTE_ETHER_TYPE_IPV4, 6, 4, RTE_ARP_OP_REQUEST,
      [0xBB, 0xBB, 0xBB, 0xBB, 0xBB, 0xBB], [10, 0, 0, 2], [0, 0, 0, 0, 0, 0], [10, 0, 0, 1]))
  }

  /** The worked example: detected for 10.0.0.1 but not for 10.0.0.9, and
      answered either way. As written, the reply goes to AA:.. from BB:..
      and names BB:.. as sender; the intended reply goes to BB:.. from
      AA:.. and names AA:.. as sender. Both claim 10.0.0.1 for 10.0.0.2. */
  lemma ArpExample()
    ensures ArpReadable(ExampleRequest()) && IsArpRequest(ExampleRequest())
    ensures DetectArp(ExampleRequest(), 0x0A00_0001) == 1
    ensures DetectArp(ExampleRequest(), 0x0A00_0009) == 0
    ensures ArpReplyFrame(ExampleRequest()) ==
      EncodeArp(ArpFrame([0xAA, 0xAA, 0xAA, 0xAA, 0xAA, 0xAA], [0xBB, 0xBB, 0xBB, 0xBB, 0xBB, 0xBB],
        RTE_ETHER_TYPE_ARP, RTE_ARP_HRD_ETHER, RTE_ETHER_TYPE_IPV4, 6, 4, RTE_ARP_OP_REPLY,
        [0xBB, 0xBB, 0xBB, 0xBB, 0xBB, 0xBB], [10, 0, 0, 1], [0xAA, 0xAA, 0xAA, 0xAA, 0xAA, 0xAA], [10, 0, 0, 2]))
    ensures ArpReplyFrameIntended(ExampleRequest()) ==
      EncodeArp(ArpFrame([0xBB, 0xBB, 0xBB, 0xBB, 0xBB, 0xBB], [0xAA, 0xAA, 0xAA, 0xAA, 0xAA, 0xAA],
        RTE_ETHER_TYPE_ARP, RTE_ARP_HRD_ETHER, RTE_ETHER_TYPE_IPV4, 6, 4, RTE_ARP_OP_REPLY,
        [0xAA, 0xAA, 0xAA, 0xAA, 0xAA, 0xAA], [10, 0, 0, 1], [0xBB, 0xBB, 0xBB, 0xBB, 0xBB, 0xBB], [10, 0, 0, 2]))
  {
    var q := DecodeArp(ExampleRequest());
    DecodeEncodeArp(ArpFrame([0xAA, 0xAA, 0xAA, 0xAA, 0xAA, 0xAA], [0xBB, 0xBB, 0xBB, 0xBB, 0xBB, 0xBB],
      RTE_ETHER_TYPE_ARP, RTE_ARP_HRD_ETHER, RTE_ETHER_TYPE_IPV4, 6, 4, RTE_ARP_OP_REQUEST,
      [0xBB, 0xBB, 0xBB, 0xBB, 0xBB, 0xBB], [10, 0, 0, 2], [0, 0, 0, 0, 0, 0], [10, 0, 0, 1]));
  }
}
