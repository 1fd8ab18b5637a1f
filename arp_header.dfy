/** The 28-byte ARP header (struct _arp_hdr, RFC 826 for Ethernet and IPv4)
    and fill_ARPhdr, which fills an outgoing request in place. */
module ArpHeader {
  import opened Bytes

  const MAC_LEN := 6
  const IPV4_LEN := 4
  const ARP_HDRLEN := 28

  /** Hardware type 1: Ethernet. */
  const ARPHRD_ETHER: u16 := 1
  /** Protocol type 0x0800: IPv4 (ETH_P_IP). */
  const ETH_P_IP: u16 := 0x0800
  const ARPOP_REQUEST: u16 := 1
  const ARPOP_REPLY: u16 := 2

  // Byte offsets of the fields of struct _arp_hdr: the struct has no padding,
  // so its memory image is exactly this layout.
  const HTYPE_OFF := 0
  const PTYPE_OFF := 2
  const HLEN_OFF := 4
  const PLEN_OFF := 5
  const OPCODE_OFF := 6
  const SENDER_MAC_OFF := 8
  const SENDER_IP_OFF := 14
  const TARGET_MAC_OFF := 18
  const TARGET_IP_OFF := 24

  /** The fields of an ARP header, with the 16-bit fields as host values
      (what ntohs() of the stored field gives). */
  datatype Header = Header(htype: u16, ptype: u16, hlen: byte, plen: byte, opcode: u16,
                           senderMac: seq<byte>, senderIp: seq<byte>,
                           targetMac: seq<byte>, targetIp: seq<byte>)

  /** Every address field has the width its slot in the struct has. */
  predicate WellSized(h: Header) {
    |h.senderMac| == MAC_LEN && |h.senderIp| == IPV4_LEN &&
    |h.targetMac| == MAC_LEN && |h.targetIp| == IPV4_LEN
  }

  /** The memory image of the struct: 16-bit fields in network byte order,
      fields in declaration order, no padding. */
  function Serialize(h: Header): (b: seq<byte>)
    requires WellSized(h)
    ensures |b| == ARP_HDRLEN
  {
    BE16(h.htype) + BE16(h.ptype) + [h.hlen, h.plen] + BE16(h.opcode) +
    h.senderMac + h.senderIp + h.targetMac + h.targetIp
  }

  /** The struct seen through a pointer to 28 bytes, as `(arp_hdr *) p` does. */
  function Parse(b: seq<byte>): (h: Header)
    requires |b| == ARP_HDRLEN
    ensures WellSized(h)
  {
    Header(ReadBE16(b, HTYPE_OFF), ReadBE16(b, PTYPE_OFF), b[HLEN_OFF], b[PLEN_OFF],
           ReadBE16(b, OPCODE_OFF),
           b[SENDER_MAC_OFF..SENDER_IP_OFF], b[SENDER_IP_OFF..TARGET_MAC_OFF],
           b[TARGET_MAC_OFF..TARGET_IP_OFF], b[TARGET_IP_OFF..ARP_HDRLEN])
  }

  /** Reading the struct back gives the fields that were stored. */
  lemma ParseSerialize(h: Header)
    requires WellSized(h)
    ensures Parse(Serialize(h)) == h
  {
    var b := Serialize(h);
    // The image grown field by field, from the fixed part to the target MAC.
    var p0 := BE16(h.htype) + BE16(h.ptype) + [h.hlen, h.plen] + BE16(h.opcode);
    var p1 := p0 + h.senderMac;
    var p2 := p1 + h.senderIp;
    var p3 := p2 + h.targetMac;
    assert b == p3 + h.targetIp;
    assert |p0| == SENDER_MAC_OFF && |p1| == SENDER_IP_OFF && |p2| == TARGET_MAC_OFF && |p3| == TARGET_IP_OFF;
    assert b[SENDER_MAC_OFF..SENDER_IP_OFF] == h.senderMac by { assert b[..SENDER_IP_OFF] == p1; }
    assert b[SENDER_IP_OFF..TARGET_MAC_OFF] == h.senderIp by { assert b[..TARGET_MAC_OFF] == p2; }
    assert b[TARGET_MAC_OFF..TARGET_IP_OFF] == h.targetMac by { assert b[..TARGET_IP_OFF] == p3; }
    assert b[TARGET_IP_OFF..ARP_HDRLEN] == h.targetIp;
  }

  /** Every 28-byte image is the image of the fields read from it. */
  lemma SerializeParse(b: seq<byte>)
    requires |b| == ARP_HDRLEN
    ensures Serialize(Parse(b)) == b
  {
    BE16ReadAt(b, HTYPE_OFF);
    BE16ReadAt(b, PTYPE_OFF);
    BE16ReadAt(b, OPCODE_OFF);
    assert [b[HLEN_OFF], b[PLEN_OFF]] == b[HLEN_OFF..OPCODE_OFF];
    assert b == b[HTYPE_OFF..PTYPE_OFF] + b[PTYPE_OFF..HLEN_OFF] + b[HLEN_OFF..OPCODE_OFF] +
                b[OPCODE_OFF..SENDER_MAC_OFF] + b[SENDER_MAC_OFF..SENDER_IP_OFF] +
                b[SENDER_IP_OFF..TARGET_MAC_OFF] + b[TARGET_MAC_OFF..TARGET_IP_OFF] + b[TARGET_IP_OFF..ARP_HDRLEN];
  }

  /** The header fill_ARPhdr leaves behind: an Ethernet/IPv4 request from
      `senderMac` with the target hardware address unknown (all zero). The
      two protocol addresses are whatever the struct already held. */
  function Request(senderMac: seq<byte>, senderIp: seq<byte>, targetIp: seq<byte>): (h: Header)
    requires |senderMac| == MAC_LEN && |senderIp| == IPV4_LEN && |targetIp| == IPV4_LEN
    ensures WellSized(h)
  {
    Header(ARPHRD_ETHER, ETH_P_IP, MAC_LEN, IPV4_LEN, ARPOP_REQUEST,
           senderMac, senderIp, [0, 0, 0, 0, 0, 0], targetIp)
  }

  /** The fixed part of every request image is the byte string
      00 01 08 00 06 04 00 01 and its target hardware address is zero. */
  lemma RequestImage(senderMac: seq<byte>, senderIp: seq<byte>, targetIp: seq<byte>)
    requires |senderMac| == MAC_LEN && |senderIp| == IPV4_LEN && |targetIp| == IPV4_LEN
    ensures var b := Serialize(Request(senderMac, senderIp, targetIp));
      b[..SENDER_MAC_OFF] == [0x00, 0x01, 0x08, 0x00, 0x06, 0x04, 0x00, 0x01] &&
      b[SENDER_MAC_OFF..SENDER_IP_OFF] == senderMac &&
      b[SENDER_IP_OFF..TARGET_MAC_OFF] == senderIp &&
      b[TARGET_MAC_OFF..TARGET_IP_OFF] == [0, 0, 0, 0, 0, 0] &&
      b[TARGET_IP_OFF..] == targetIp
  {
    ParseSerialize(Request(senderMac, senderIp, targetIp));
  }

  /** A 28-byte image with the request's fixed bytes and the given address
      fields reads back as that request. */
  lemma ParseRequestSlices(b: seq<byte>, mac: seq<byte>, sip: seq<byte>, tip: seq<byte>)
    requires |b| == ARP_HDRLEN && |mac| == MAC_LEN && |sip| == IPV4_LEN && |tip| == IPV4_LEN
    requires b[..SENDER_MAC_OFF] == [0x00, 0x01, 0x08, 0x00, 0x06, 0x04, 0x00, 0x01]
    requires b[SENDER_MAC_OFF..SENDER_IP_OFF] == mac
    requires b[SENDER_IP_OFF..TARGET_MAC_OFF] == sip
    requires b[TARGET_MAC_OFF..TARGET_IP_OFF] == [0, 0, 0, 0, 0, 0]
    requires b[TARGET_IP_OFF..] == tip
    ensures Parse(b) == Request(mac, sip, tip)
  {
    assert b[0] == 0 && b[1] == 1 && b[2] == 8 && b[3] == 0 &&
           b[4] == 6 && b[5] == 4 && b[6] == 0 && b[7] == 1 by {
      assert forall k :: 0 <= k < SENDER_MAC_OFF ==> b[k] == b[..SENDER_MAC_OFF][k];
    }
  }

  /** fill_ARPhdr: writes hardware type, protocol type, both address lengths
      and the request opcode, copies `srcMac` into the sender hardware
      address and zeroes the target hardware address. The sender and target
      protocol addresses are not touched. */
  method FillArpHdr(hdr: array<byte>, srcMac: array<byte>)
    requires hdr.Length == ARP_HDRLEN && srcMac.Length == MAC_LEN
    modifies hdr
    ensures hdr[..SENDER_MAC_OFF] == [0x00, 0x01, 0x08, 0x00, 0x06, 0x04, 0x00, 0x01]
    ensures hdr[SENDER_MAC_OFF..SENDER_IP_OFF] == srcMac[..]
    ensures hdr[SENDER_IP_OFF..TARGET_MAC_OFF] == old(hdr[SENDER_IP_OFF..TARGET_MAC_OFF])
    ensures hdr[TARGET_MAC_OFF..TARGET_IP_OFF] == [0, 0, 0, 0, 0, 0]
    ensures hdr[TARGET_IP_OFF..] == old(hdr[TARGET_IP_OFF..])
    ensures Parse(hdr[..]) == Request(srcMac[..], old(hdr[SENDER_IP_OFF..TARGET_MAC_OFF]), old(hdr[TARGET_IP_OFF..]))
  {
    ghost var senderIp := hdr[SENDER_IP_OFF..TARGET_MAC_OFF];
    ghost var targetIp := hdr[TARGET_IP_OFF..];
    PutBE16(hdr, HTYPE_OFF, ARPHRD_ETHER);
    PutBE16(hdr, PTYPE_OFF, ETH_P_IP);
    hdr[HLEN_OFF] := MAC_LEN;
    hdr[PLEN_OFF] := IPV4_LEN;
    PutBE16(hdr, OPCODE_OFF, ARPOP_REQUEST);
    assert hdr[0] == 0x00 && hdr[1] == 0x01 && hdr[2] == 0x08 && hdr[3] == 0x00 &&
           hdr[4] == 0x06 && hdr[5] == 0x04 && hdr[6] == 0x00 && hdr[7] == 0x01;
    ghost var fixedPart := hdr[..SENDER_MAC_OFF];
    assert fixedPart == [0x00, 0x01, 0x08, 0x00, 0x06, 0x04, 0x00, 0x01];
    CopyBytes(hdr, SENDER_MAC_OFF, srcMac[..]);
    SetBytes(hdr, TARGET_MAC_OFF, 0, MAC_LEN);
    assert hdr[..SENDER_MAC_OFF] == fixedPart;
    assert hdr[SENDER_IP_OFF..TARGET_MAC_OFF] == senderIp;
    assert hdr[TARGET_IP_OFF..] == targetIp;
    assert hdr[TARGET_MAC_OFF..TARGET_IP_OFF] == [0, 0, 0, 0, 0, 0];
    ParseRequestSlices(hdr[..], srcMac[..], senderIp, targetIp);
  }
}
