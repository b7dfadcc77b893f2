/** ARP replies on the wire ("Packet format" of RFC 826), from dpdk-net/src/device/arp_cache.rs. */
module ArpFrame {
  import opened Bytes

  datatype Ip = Ip(a: byte, b: byte, c: byte, d: byte)

  datatype Mac = Mac(a: byte, b: byte, c: byte, d: byte, e: byte, f: byte)

  datatype Entry = Entry(ip: Ip, mac: Mac)

  const FRAME_LENGTH: nat := 42

  function Octets(ip: Ip): bytes {
    [ip.a, ip.b, ip.c, ip.d]
  }

  function MacBytes(mac: Mac): bytes {
    [mac.a, mac.b, mac.c, mac.d, mac.e, mac.f]
  }

  /** Sender address of an ARP reply; anything else is not one. */
  function ParseArpReply(packet: bytes): Option<Entry> {
    if |packet| < FRAME_LENGTH then None
    else if packet[12] != 0x08 || packet[13] != 0x06 then None
    else if packet[20] != 0x00 || packet[21] != 0x02 then None
    else
      Some(Entry(
        Ip(packet[28], packet[29], packet[30], packet[31]),
        Mac(packet[22], packet[23], packet[24], packet[25], packet[26], packet[27])))
  }

  /** Ethernet header, ARP header, sender addresses, target addresses. */
  function ArpReply(ourMac: Mac, ourIp: Ip, peer: Entry): bytes {
    MacBytes(ourMac) + MacBytes(peer.mac) + [0x08, 0x06]
    + [0x00, 0x01] + [0x08, 0x00] + [6] + [4] + [0x00, 0x02]
    + MacBytes(peer.mac) + Octets(peer.ip)
    + MacBytes(ourMac) + Octets(ourIp)
  }

  /** `packet[at..at + |field|].copy_from_slice(field)`. */
  method CopyInto(packet: array<byte>, at: nat, field: bytes)
    requires at + |field| <= packet.Length
    modifies packet
    ensures packet[..] == old(packet[..at]) + field + old(packet[at + |field|..])
  {
    forall i | 0 <= i < |field| {
      packet[at + i] := field[i];
    }
  }

  /** Writes the fields in the source's order into a zeroed frame. */
  method BuildArpReply(ourMac: Mac, ourIp: Ip, peer: Entry) returns (packet: array<byte>)
    ensures fresh(packet) && packet[..] == ArpReply(ourMac, ourIp, peer)
  {
    packet := new byte[FRAME_LENGTH](_ => 0);
    EthernetHeader(packet, ourMac, peer.mac);
    ArpHeader(packet);
    CopyInto(packet, 22, MacBytes(peer.mac));
    CopyInto(packet, 28, Octets(peer.ip));
    CopyInto(packet, 32, MacBytes(ourMac));
    CopyInto(packet, 38, Octets(ourIp));
  }

  method EthernetHeader(packet: array<byte>, ourMac: Mac, peerMac: Mac)
    requires packet.Length == FRAME_LENGTH
    modifies packet
    ensures packet[..14] == MacBytes(ourMac) + MacBytes(peerMac) + [0x08, 0x06]
  {
    CopyInto(packet, 0, MacBytes(ourMac));
    CopyInto(packet, 6, MacBytes(peerMac));
    CopyInto(packet, 12, [0x08, 0x06]);
  }

  method ArpHeader(packet: array<byte>)
    requires packet.Length == FRAME_LENGTH
    modifies packet
    ensures packet[..22] == old(packet[..14]) + [0x00, 0x01] + [0x08, 0x00] + [6] + [4] + [0x00, 0x02]
  {
    CopyInto(packet, 14, [0x00, 0x01]);
    CopyInto(packet, 16, [0x08, 0x00]);
    packet[18] := 6;
    packet[19] := 4;
    CopyInto(packet, 20, [0x00, 0x02]);
  }

  /** The layout of an ARP reply from `e` (RFC 826): EtherType, operation, sender addresses. */
  predicate IsReplyFrom(p: bytes, e: Entry) {
    && FRAME_LENGTH <= |p|
    && p[12..14] == [0x08, 0x06]
    && p[20..22] == [0x00, 0x02]
    && p[22..28] == MacBytes(e.mac)
    && p[28..32] == Octets(e.ip)
  }

  /** A long enough frame of ARP's EtherType whose operation is reply. */
  predicate IsReply(p: bytes) {
    FRAME_LENGTH <= |p| && p[12..14] == [0x08, 0x06] && p[20..22] == [0x00, 0x02]
  }

  /** Exactly the replies are read as such, whatever else a frame contains, and each as its sender. */
  lemma ReplyIff(p: bytes, e: Entry)
    ensures ParseArpReply(p) == Some(e) <==> IsReplyFrom(p, e)
    ensures ParseArpReply(p).Some? <==> IsReply(p)
  {
    if FRAME_LENGTH <= |p| {
      TwoBytes(p, 12, 0x08, 0x06);
      TwoBytes(p, 20, 0x00, 0x02);
      var mac, ip := p[22..28], p[28..32];
      assert mac == [p[22], p[23], p[24], p[25], p[26], p[27]];
      assert ip == [p[28], p[29], p[30], p[31]];
      SameMac(mac, e.mac);
      SameIp(ip, e.ip);
    }
  }

  lemma TwoBytes(p: bytes, at: nat, a: byte, b: byte)
    requires at + 2 <= |p|
    ensures p[at..at + 2] == [a, b] <==> p[at] == a && p[at + 1] == b
  {
    assert p[at..at + 2] == [p[at], p[at + 1]];
  }

  lemma SameMac(s: bytes, mac: Mac)
    requires |s| == 6
    ensures s == MacBytes(mac) <==> mac == Mac(s[0], s[1], s[2], s[3], s[4], s[5])
  {
    var m := MacBytes(mac);
    assert m[0] == mac.a && m[1] == mac.b && m[2] == mac.c && m[3] == mac.d && m[4] == mac.e && m[5] == mac.f;
  }

  lemma SameIp(s: bytes, ip: Ip)
    requires |s| == 4
    ensures s == Octets(ip) <==> ip == Ip(s[0], s[1], s[2], s[3])
  {
    var o := Octets(ip);
    assert o[0] == ip.a && o[1] == ip.b && o[2] == ip.c && o[3] == ip.d;
  }

  /**
   Every field of an injected frame at its place: a unicast to ourselves from the peer, Ethernet and IPv4
   with their address lengths, a reply from the peer to us ("Packet format" of RFC 826).
   */
  lemma FrameLayout(ourMac: Mac, ourIp: Ip, peer: Entry)
    ensures var p := ArpReply(ourMac, ourIp, peer);
            && |p| == FRAME_LENGTH
            && p[0..6] == MacBytes(ourMac) && p[6..12] == MacBytes(peer.mac) && p[12..14] == [0x08, 0x06]
            && p[14..16] == [0x00, 0x01] && p[16..18] == [0x08, 0x00] && p[18] == 6 && p[19] == 4
            && p[20..22] == [0x00, 0x02]
            && p[22..28] == MacBytes(peer.mac) && p[28..32] == Octets(peer.ip)
            && p[32..38] == MacBytes(ourMac) && p[38..42] == Octets(ourIp)
  {
    hide MacBytes, Octets;
    MacLength(ourMac);
    MacLength(peer.mac);
    IpLength(peer.ip);
    IpLength(ourIp);
  }

  lemma MacLength(mac: Mac)
    ensures |MacBytes(mac)| == 6
  {
  }

  lemma IpLength(ip: Ip)
    ensures |Octets(ip)| == 4
  {
  }

  /** An injected frame, padded or not, is read back as the entry it was built from. */
  lemma InjectedFrameParses(ourMac: Mac, ourIp: Ip, peer: Entry, padding: bytes)
    ensures ParseArpReply(ArpReply(ourMac, ourIp, peer) + padding) == Some(peer)
    ensures |ArpReply(ourMac, ourIp, peer)| == FRAME_LENGTH
  {
    var p := ArpReply(ourMac, ourIp, peer) + padding;
    var hdr := MacBytes(ourMac) + MacBytes(peer.mac) + [0x08, 0x06]
             + [0x00, 0x01] + [0x08, 0x00] + [6] + [4] + [0x00, 0x02];
    assert |hdr| == 22 && hdr[12] == 0x08 && hdr[13] == 0x06 && hdr[20] == 0x00 && hdr[21] == 0x02;
    assert p == hdr + MacBytes(peer.mac) + Octets(peer.ip) + (MacBytes(ourMac) + Octets(ourIp) + padding);
    assert p[..22] == hdr;
    assert p[22..28] == MacBytes(peer.mac);
    assert p[28..32] == Octets(peer.ip);
    assert p[12] == p[..22][12] && p[13] == p[..22][13] && p[20] == p[..22][20] && p[21] == p[..22][21];
    FieldBytes(p, 22, MacBytes(peer.mac));
    FieldBytes(p, 28, Octets(peer.ip));
  }

  lemma FieldBytes(p: bytes, at: nat, field: bytes)
    requires at + |field| <= |p| && p[at..at + |field|] == field
    ensures forall i :: 0 <= i < |field| ==> p[at + i] == field[i]
  {
    var f := p[at..at + |field|];
    assert forall i :: 0 <= i < |f| ==> f[i] == p[at + i];
  }
}
