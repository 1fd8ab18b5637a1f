/** The request/reply exchange main() performs: broadcast destination,
    request header, frame built and sent, then the wait for a reply. */
module Exchange {
  import opened Bytes
  import Arp = ArpHeader
  import Eth = EthFrame
  import L = Listen

  /** ff:ff:ff:ff:ff:ff, which main() writes into dst_mac before sending. */
  const BROADCAST: seq<byte> := [0xff, 0xff, 0xff, 0xff, 0xff, 0xff]

  /** How main() ends: socket() or sendto() failed, or listen_ARP ran with
      the given outcome. */
  datatype Result = SocketFailed | SendFailed | Listened(outcome: L.Outcome)

  /** The request frame main() sends for the given addresses. */
  function RequestFrame(srcMac: seq<byte>, senderIp: seq<byte>, targetIp: seq<byte>): (f: Eth.Frame)
    requires |srcMac| == Arp.MAC_LEN && |senderIp| == Arp.IPV4_LEN && |targetIp| == Arp.IPV4_LEN
    ensures Eth.WellSized(f)
  {
    Eth.Frame(BROADCAST, srcMac, Eth.ETH_P_ARP, Arp.Request(srcMac, senderIp, targetIp))
  }

  /** The frame buffer when listen_ARP starts: the request just sent, then
      the zeros the buffer was allocated with. */
  function RequestBuffer(srcMac: seq<byte>, senderIp: seq<byte>, targetIp: seq<byte>): (b: seq<byte>)
    requires |srcMac| == Arp.MAC_LEN && |senderIp| == Arp.IPV4_LEN && |targetIp| == Arp.IPV4_LEN
    ensures |b| == Eth.IP_MAXPACKET
  {
    Eth.Serialize(RequestFrame(srcMac, senderIp, targetIp)) + L.Zeroed(Eth.IP_MAXPACKET - Eth.FRAME_LEN)
  }

  /** A buffer laid out by fill_send_ETHhdr over a zeroed buffer, with the
      header fill_ARPhdr produced, is the request buffer. */
  lemma RequestBufferLayout(frame: seq<byte>, srcMac: seq<byte>, senderIp: seq<byte>, targetIp: seq<byte>)
    requires |srcMac| == Arp.MAC_LEN && |senderIp| == Arp.IPV4_LEN && |targetIp| == Arp.IPV4_LEN
    requires |frame| == Eth.IP_MAXPACKET
    requires frame[..Eth.FRAME_LEN] == BROADCAST + srcMac + [0x08, 0x06] + Arp.Serialize(Arp.Request(srcMac, senderIp, targetIp))
    requires frame[Eth.FRAME_LEN..] == L.Zeroed(Eth.IP_MAXPACKET - Eth.FRAME_LEN)
    ensures frame == RequestBuffer(srcMac, senderIp, targetIp)
  {
    assert BE16(Eth.ETH_P_ARP) == [0x08, 0x06];
    assert frame[..Eth.FRAME_LEN] == Eth.Serialize(RequestFrame(srcMac, senderIp, targetIp));
    assert frame == frame[..Eth.FRAME_LEN] + frame[Eth.FRAME_LEN..];
  }

  /** The outgoing request never satisfies the exit test, so a reply can be
      reported only after at least one receive. */
  lemma ResolvingTakesAReceive(srcMac: seq<byte>, senderIp: seq<byte>, targetIp: seq<byte>, events: seq<L.RecvEvent>)
    requires |srcMac| == Arp.MAC_LEN && |senderIp| == Arp.IPV4_LEN && |targetIp| == Arp.IPV4_LEN
    ensures !L.Accepts(RequestBuffer(srcMac, senderIp, targetIp))
    ensures L.Listen(RequestBuffer(srcMac, senderIp, targetIp), events).outcome.Resolved? ==>
      L.Listen(RequestBuffer(srcMac, senderIp, targetIp), events).consumed >= 1
    ensures events == [] ==> L.Listen(RequestBuffer(srcMac, senderIp, targetIp), events).outcome == L.Waiting
  {
    var buf := RequestBuffer(srcMac, senderIp, targetIp);
    assert buf[..Eth.FRAME_LEN] == Eth.Serialize(RequestFrame(srcMac, senderIp, targetIp));
    L.RequestIsNotAccepted(buf, BROADCAST, srcMac, senderIp, targetIp);
  }

  /** A frame of another protocol, however many bytes it has, does not end
      the wait: with no further input, recv() is called again. */
  lemma UnrelatedFrameKeepsWaiting(srcMac: seq<byte>, senderIp: seq<byte>, targetIp: seq<byte>, bytes: seq<byte>)
    requires |srcMac| == Arp.MAC_LEN && |senderIp| == Arp.IPV4_LEN && |targetIp| == Arp.IPV4_LEN
    requires |bytes| >= L.READ_END && L.EtherTypeOf(bytes) != Eth.ETH_P_ARP
    ensures L.Listen(RequestBuffer(srcMac, senderIp, targetIp), [L.Received(bytes)]).outcome == L.Waiting
  {
    var buf := RequestBuffer(srcMac, senderIp, targetIp);
    ResolvingTakesAReceive(srcMac, senderIp, targetIp, []);
    L.FullFrameDecides(buf, bytes);
    assert [L.Received(bytes)][1..] == [];
  }

  /** The reply to a request for 93.184.216.34 from aa:bb:cc:dd:ee:ff at
      192.168.1.10 that comes from 11:22:33:44:55:66 resolves to that MAC,
      after any number of interrupted calls and unrelated full frames. */
  lemma ReplyScenario(discards: seq<L.RecvEvent>, rest: seq<L.RecvEvent>)
    requires forall j :: 0 <= j < |discards| ==> L.Ignorable(discards[j])
    ensures var me := [0xaa, 0xbb, 0xcc, 0xdd, 0xee, 0xff];
      var them := [0x11, 0x22, 0x33, 0x44, 0x55, 0x66];
      var reply := Eth.Serialize(Eth.Frame(me, them, Eth.ETH_P_ARP,
        Arp.Header(Arp.ARPHRD_ETHER, Arp.ETH_P_IP, 6, 4, Arp.ARPOP_REPLY, them, [93, 184, 216, 34], me, [192, 168, 1, 10])));
      L.Listen(RequestBuffer(me, [192, 168, 1, 10], [93, 184, 216, 34]), discards + [L.Received(reply)] + rest).outcome
        == L.Resolved(them)
  {
    var me: seq<byte> := [0xaa, 0xbb, 0xcc, 0xdd, 0xee, 0xff];
    var them: seq<byte> := [0x11, 0x22, 0x33, 0x44, 0x55, 0x66];
    var f := Eth.Frame(me, them, Eth.ETH_P_ARP,
      Arp.Header(Arp.ARPHRD_ETHER, Arp.ETH_P_IP, 6, 4, Arp.ARPOP_REPLY, them, [93, 184, 216, 34], me, [192, 168, 1, 10]));
    var reply := Eth.Serialize(f);
    assert reply[..Eth.FRAME_LEN] == reply;
    L.ReadersDecodeFrame(reply, f);
    ResolvingTakesAReceive(me, [192, 168, 1, 10], [93, 184, 216, 34], []);
    L.ReplyAfterDiscards(RequestBuffer(me, [192, 168, 1, 10], [93, 184, 216, 34]), discards, reply, rest);
  }

  /** main() from the interface lookup to listen_ARP: `srcMac` is what the
      interface lookup found, `senderIp` and `targetIp` what config_ipv4
      stored in the header, `socketResult` and `sendResult` what socket() and
      sendto() return, `events` what recv() returns call after call. On
      success the result is the MAC left in dst_mac. */
  method Resolve(srcMac: seq<byte>, senderIp: seq<byte>, targetIp: seq<byte>,
                 socketResult: int, sendResult: int, events: seq<L.RecvEvent>)
    returns (r: Result)
    requires |srcMac| == Arp.MAC_LEN && |senderIp| == Arp.IPV4_LEN && |targetIp| == Arp.IPV4_LEN
    ensures socketResult < 0 ==> r == SocketFailed
    ensures socketResult >= 0 && sendResult <= 0 ==> r == SendFailed
    ensures socketResult >= 0 && sendResult > 0 ==>
      var run := L.Listen(RequestBuffer(srcMac, senderIp, targetIp), events);
      r == Listened(run.outcome) && (run.outcome.Resolved? ==> run.consumed >= 1)
  {
    var srcMacBuf := new byte[Arp.MAC_LEN](i requires 0 <= i < Arp.MAC_LEN => srcMac[i]);
    var dstMac := new byte[Arp.MAC_LEN](_ => 0);
    var frame := new byte[Eth.IP_MAXPACKET](_ => 0);
    var hdr := new byte[Arp.ARP_HDRLEN];
    assert srcMacBuf[..] == srcMac;

    SetBytes(dstMac, 0, 0xff, Arp.MAC_LEN);
    CopyBytes(hdr, Arp.SENDER_IP_OFF, senderIp);
    CopyBytes(hdr, Arp.TARGET_IP_OFF, targetIp);
    assert hdr[Arp.SENDER_IP_OFF..Arp.TARGET_MAC_OFF] == senderIp;
    assert dstMac[..] == BROADCAST;

    Arp.FillArpHdr(hdr, srcMacBuf);
    Arp.SerializeParse(hdr[..]);

    assert Arp.Parse(hdr[..]) == Arp.Request(srcMac, senderIp, targetIp);
    ghost var header := Arp.Serialize(Arp.Request(srcMac, senderIp, targetIp));
    assert hdr[..] == header;
    assert frame[Eth.FRAME_LEN..] == L.Zeroed(Eth.IP_MAXPACKET - Eth.FRAME_LEN);

    var sent := Eth.FillSendEthHdr(frame, dstMac, srcMacBuf, hdr, socketResult, sendResult);
    if !sent.Sent? {
      return if sent.SocketFailed? then SocketFailed else SendFailed;
    }
    RequestBufferLayout(frame[..], srcMac, senderIp, targetIp);
    ResolvingTakesAReceive(srcMac, senderIp, targetIp, events);

    var out := L.ListenArp(frame, dstMac, events);
    r := Listened(if out.Resolved? then L.Resolved(dstMac[..]) else out);
  }
}
