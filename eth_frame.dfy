/** The Ethernet II frame that carries the ARP header, and the part of
    fill_send_ETHhdr that builds it in the shared frame buffer and hands it
    to the socket. */
module EthFrame {
  import opened Bytes
  import Arp = ArpHeader

  const ETH_HDRLEN := 14
  /** 6 + 6 + 2 + ARP_HDRLEN: destination, source, EtherType, ARP header. */
  const FRAME_LEN := 42
  const DST_MAC_OFF := 0
  const SRC_MAC_OFF := 6
  const ETHERTYPE_OFF := 12
  /** EtherType 0x0806: ARP (ETH_P_ARP). */
  const ETH_P_ARP: u16 := 0x0806
  /** Size of the frame buffer the program allocates and receives into. */
  const IP_MAXPACKET := 65535

  datatype Frame = Frame(dst: seq<byte>, src: seq<byte>, etherType: u16, arp: Arp.Header)

  predicate WellSized(f: Frame) {
    |f.dst| == Arp.MAC_LEN && |f.src| == Arp.MAC_LEN && Arp.WellSized(f.arp)
  }

  /** The wire image: destination, source, EtherType in network byte order,
      then the ARP header image. */
  function Serialize(f: Frame): (b: seq<byte>)
    requires WellSized(f)
    ensures |b| == FRAME_LEN
  {
    f.dst + f.src + BE16(f.etherType) + Arp.Serialize(f.arp)
  }

  /** The fields of the first FRAME_LEN bytes of a buffer. */
  function Parse(b: seq<byte>): (f: Frame)
    requires |b| >= FRAME_LEN
    ensures WellSized(f)
  {
    Frame(b[DST_MAC_OFF..SRC_MAC_OFF], b[SRC_MAC_OFF..ETHERTYPE_OFF], ReadBE16(b, ETHERTYPE_OFF),
          Arp.Parse(b[ETH_HDRLEN..FRAME_LEN]))
  }

  lemma ParseSerialize(f: Frame)
    requires WellSized(f)
    ensures Parse(Serialize(f)) == f
  {
    var b := Serialize(f);
    assert b[DST_MAC_OFF..SRC_MAC_OFF] == f.dst;
    assert b[SRC_MAC_OFF..ETHERTYPE_OFF] == f.src;
    assert b[ETH_HDRLEN..FRAME_LEN] == Arp.Serialize(f.arp);
    Arp.ParseSerialize(f.arp);
  }

  /** Parsing reads only the first FRAME_LEN bytes, and they are rebuilt exactly. */
  lemma SerializeParse(b: seq<byte>)
    requires |b| >= FRAME_LEN
    ensures Serialize(Parse(b)) == b[..FRAME_LEN]
  {
    Arp.SerializeParse(b[ETH_HDRLEN..FRAME_LEN]);
    var s := Serialize(Parse(b));
    forall i | 0 <= i < FRAME_LEN ensures s[i] == b[i] {
      if i >= ETH_HDRLEN {
        assert s[i] == Arp.Serialize(Arp.Parse(b[ETH_HDRLEN..FRAME_LEN]))[i - ETH_HDRLEN];
      }
    }
  }

  /** The frame-building half of fill_send_ETHhdr: destination MAC at 0,
      source MAC at 6, EtherType 0x0806 at 12 (as ETH_P_ARP / 256 and
      ETH_P_ARP % 256), the 28 header bytes at 14; the rest of the buffer is
      left as it was. Returns the frame length passed to sendto(). */
  method FillEthFrame(frame: array<byte>, dstMac: array<byte>, srcMac: array<byte>, hdr: array<byte>)
    returns (frameLength: int)
    requires frame.Length >= FRAME_LEN
    requires dstMac.Length == Arp.MAC_LEN && srcMac.Length == Arp.MAC_LEN && hdr.Length == Arp.ARP_HDRLEN
    modifies frame
    ensures frameLength == FRAME_LEN
    ensures frame[..FRAME_LEN] == dstMac[..] + srcMac[..] + [0x08, 0x06] + hdr[..]
    ensures frame[FRAME_LEN..] == old(frame[FRAME_LEN..])
    ensures Parse(frame[..]) == Frame(dstMac[..], srcMac[..], ETH_P_ARP, Arp.Parse(hdr[..]))
  {
    ghost var rest := frame[FRAME_LEN..];
    frameLength := 6 + 6 + 2 + Arp.ARP_HDRLEN;
    CopyBytes(frame, DST_MAC_OFF, dstMac[..]);
    CopyBytes(frame, SRC_MAC_OFF, srcMac[..]);
    frame[ETHERTYPE_OFF] := ETH_P_ARP / 256;
    frame[ETHERTYPE_OFF + 1] := ETH_P_ARP % 256;
    CopyBytes(frame, ETH_HDRLEN, hdr[..]);
    assert frame[FRAME_LEN..] == rest;
    assert frame[..FRAME_LEN] == dstMac[..] + srcMac[..] + [0x08, 0x06] + hdr[..];
    assert frame[ETH_HDRLEN..FRAME_LEN] == hdr[..];
  }

  /** What fill_send_ETHhdr ends in. The raw-socket handle is the one the
      program keeps for listening. */
  datatype SendOutcome = Sent(sd: int, len: nat) | SocketFailed | SendFailed

  /** fill_send_ETHhdr: builds the frame, then opens the raw socket and sends
      FRAME_LEN bytes. `socketResult` and `sendResult` stand for what
      socket() and sendto() return; the program exits when the first is
      negative or the second is not positive. */
  method FillSendEthHdr(frame: array<byte>, dstMac: array<byte>, srcMac: array<byte>, hdr: array<byte>,
                        socketResult: int, sendResult: int)
    returns (r: SendOutcome)
    requires frame.Length >= FRAME_LEN
    requires dstMac.Length == Arp.MAC_LEN && srcMac.Length == Arp.MAC_LEN && hdr.Length == Arp.ARP_HDRLEN
    modifies frame
    ensures frame[..FRAME_LEN] == dstMac[..] + srcMac[..] + [0x08, 0x06] + hdr[..]
    ensures frame[FRAME_LEN..] == old(frame[FRAME_LEN..])
    ensures r.Sent? <==> socketResult >= 0 && sendResult > 0
    ensures r.SocketFailed? <==> socketResult < 0
    ensures r.Sent? ==> r.sd == socketResult && r.len == FRAME_LEN
  {
    var frameLength := FillEthFrame(frame, dstMac, srcMac, hdr);
    if socketResult < 0 {
      return SocketFailed;
    }
    if sendResult <= 0 {
      return SendFailed;
    }
    r := Sent(socketResult, frameLength);
  }
}
