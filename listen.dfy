/** listen_ARP: receive into the shared frame buffer until it holds an ARP
    reply, then copy the reply's sender hardware address out. */
module Listen {
  import opened Bytes
  import Arp = ArpHeader
  import Eth = EthFrame

  /** errno of an interrupted system call (Linux). */
  const EINTR := 4
  /** Where the loop reads the ARP opcode: ETH_HDRLEN + OPCODE_OFF. */
  const OPCODE_AT := 20
  /** Where the reply's sender MAC starts: ETH_HDRLEN + SENDER_MAC_OFF. */
  const SENDER_MAC_AT := 22
  /** One past the last byte the loop and the final copy read. */
  const READ_END := 28

  /** `(ether_frame[12] << 8) + ether_frame[13]`. */
  function EtherTypeOf(buf: seq<byte>): u16
    requires |buf| >= READ_END
  {
    ReadBE16(buf, Eth.ETHERTYPE_OFF)
  }

  /** `ntohs(arp_pt_in->opcode)` with `arp_pt_in` pointing at byte 14. */
  function OpcodeOf(buf: seq<byte>): u16
    requires |buf| >= READ_END
  {
    ReadBE16(buf, OPCODE_AT)
  }

  /** `arp_pt_in->sender_mac`. */
  function SenderMacOf(buf: seq<byte>): seq<byte>
    requires |buf| >= READ_END
  {
    buf[SENDER_MAC_AT..READ_END]
  }

  /** The loop's exit test. Nothing else is looked at: not the received
      length, the hardware or protocol type, the address lengths, nor either
      protocol address. */
  predicate Accepts(buf: seq<byte>)
    requires |buf| >= READ_END
  {
    EtherTypeOf(buf) == Eth.ETH_P_ARP && OpcodeOf(buf) == Arp.ARPOP_REPLY
  }

  /** On a buffer that begins with a serialized frame the loop's readers
      return that frame's EtherType, ARP opcode and ARP sender MAC. */
  lemma ReadersDecodeFrame(buf: seq<byte>, f: Eth.Frame)
    requires Eth.WellSized(f) && |buf| >= Eth.FRAME_LEN && buf[..Eth.FRAME_LEN] == Eth.Serialize(f)
    ensures EtherTypeOf(buf) == f.etherType
    ensures OpcodeOf(buf) == f.arp.opcode
    ensures SenderMacOf(buf) == f.arp.senderMac
  {
    Eth.ParseSerialize(f);
    assert Eth.Parse(buf) == Eth.Parse(buf[..Eth.FRAME_LEN]);
  }

  /** The request the program has just sent is still in the buffer when the
      loop starts, and it fails the exit test: EtherType 0x0806 but opcode 1. */
  lemma RequestIsNotAccepted(buf: seq<byte>, dst: seq<byte>, src: seq<byte>, senderIp: seq<byte>, targetIp: seq<byte>)
    requires |dst| == Arp.MAC_LEN && |src| == Arp.MAC_LEN && |senderIp| == Arp.IPV4_LEN && |targetIp| == Arp.IPV4_LEN
    requires |buf| >= Eth.FRAME_LEN
    requires buf[..Eth.FRAME_LEN] == Eth.Serialize(Eth.Frame(dst, src, Eth.ETH_P_ARP, Arp.Request(src, senderIp, targetIp)))
    ensures EtherTypeOf(buf) == Eth.ETH_P_ARP && OpcodeOf(buf) == Arp.ARPOP_REQUEST
    ensures !Accepts(buf)
  {
    ReadersDecodeFrame(buf, Eth.Frame(dst, src, Eth.ETH_P_ARP, Arp.Request(src, senderIp, targetIp)));
  }

  /** What one call of recv() reports: a frame, or -1 with an errno. */
  datatype RecvEvent = Received(bytes: seq<byte>) | RecvError(errno: int)

  /** A receive error other than EINTR ends the program. */
  predicate Fatal(ev: RecvEvent) {
    ev.RecvError? && ev.errno != EINTR
  }

  /** recv(sd, buf, |buf|, 0): the frame overwrites a prefix of the buffer
      (truncated to the buffer) and the remaining bytes keep their values. */
  function Receive(buf: seq<byte>, bytes: seq<byte>): (r: seq<byte>)
    ensures |r| == |buf|
    ensures forall i :: 0 <= i < |buf| ==> r[i] == if i < |bytes| then bytes[i] else buf[i]
  {
    seq(|buf|, i requires 0 <= i < |buf| => if i < |bytes| then bytes[i] else buf[i])
  }

  function Zeroed(n: nat): (r: seq<byte>)
    ensures |r| == n && forall i :: 0 <= i < n ==> r[i] == 0
  {
    seq(n, _ => 0)
  }

  /** The buffer after one receive that did not end the program. */
  function Step(buf: seq<byte>, ev: RecvEvent): (r: seq<byte>)
    ensures |r| == |buf|
  {
    match ev
    case Received(bytes) => Receive(buf, bytes)
    case RecvError(errno) => if errno == EINTR then Zeroed(|buf|) else buf
  }

  /** The buffer after every event of `evs`, regardless of the exit test:
      a reference for what the loop sees at each test. */
  function Replay(buf: seq<byte>, evs: seq<RecvEvent>): (r: seq<byte>)
    ensures |r| == |buf|
    decreases |evs|
  {
    if evs == [] then buf else Replay(Step(buf, evs[0]), evs[1..])
  }

  /** How listen_ARP ends: with the sender MAC of an accepted frame, with
      the program exiting on a receive error, or still blocked in recv()
      when the modelled input runs out. */
  datatype Outcome = Resolved(mac: seq<byte>) | RecvFailed(errno: int) | Waiting

  /** An outcome, the buffer it leaves, and how many receives it took. */
  datatype Run = Run(outcome: Outcome, buffer: seq<byte>, consumed: nat)

  /** The loop of listen_ARP over the receive results `evs`. */
  function Listen(buf: seq<byte>, evs: seq<RecvEvent>): (r: Run)
    requires |buf| >= READ_END
    ensures |r.buffer| == |buf| && r.consumed <= |evs|
    decreases |evs|
  {
    if Accepts(buf) then Run(Resolved(SenderMacOf(buf)), buf, 0)
    else if evs == [] then Run(Waiting, buf, 0)
    else if Fatal(evs[0]) then Run(RecvFailed(evs[0].errno), buf, 1)
    else
      var r := Listen(Step(buf, evs[0]), evs[1..]);
      r.(consumed := r.consumed + 1)
  }

  lemma ReplayPrefix(buf: seq<byte>, evs: seq<RecvEvent>, j: nat)
    requires 1 <= j <= |evs|
    ensures Replay(buf, evs[..j]) == Replay(Step(buf, evs[0]), evs[1..][..j - 1])
  {
    assert evs[..j][1..] == evs[1..][..j - 1];
  }

  /** Listen against the reference: it tests the buffer after each receive,
      stops at the FIRST buffer that passes the test (and reports its sender
      MAC), stops at the first fatal error, and otherwise reads every event. */
  lemma {:induction false} ListenIsFirstAcceptance(buf: seq<byte>, evs: seq<RecvEvent>)
    requires |buf| >= READ_END
    ensures var r := Listen(buf, evs);
      forall j :: 0 <= j < r.consumed ==> !Accepts(Replay(buf, evs[..j]))
    ensures var r := Listen(buf, evs);
      r.outcome.Resolved? ==>
        (forall j :: 0 <= j < r.consumed ==> !Fatal(evs[j])) &&
        r.buffer == Replay(buf, evs[..r.consumed]) && Accepts(r.buffer) &&
        r.outcome.mac == SenderMacOf(r.buffer)
    ensures var r := Listen(buf, evs);
      r.outcome.RecvFailed? ==>
        1 <= r.consumed && Fatal(evs[r.consumed - 1]) && r.outcome.errno == evs[r.consumed - 1].errno &&
        (forall j :: 0 <= j < r.consumed - 1 ==> !Fatal(evs[j]))
    ensures var r := Listen(buf, evs);
      r.outcome.Waiting? ==>
        r.consumed == |evs| && (forall j :: 0 <= j < |evs| ==> !Fatal(evs[j])) &&
        r.buffer == Replay(buf, evs) && !Accepts(r.buffer)
    decreases |evs|
  {
    assert evs[..0] == [];
    if Accepts(buf) || evs == [] {
      assert evs == [] ==> evs[..|evs|] == evs;
    } else if Fatal(evs[0]) {
    } else {
      var next := Step(buf, evs[0]);
      var tail := evs[1..];
      var r' := Listen(next, tail);
      ListenIsFirstAcceptance(next, tail);
      var r := Listen(buf, evs);
      assert r == r'.(consumed := r'.consumed + 1);
      forall j | 1 <= j <= r'.consumed + 1 && j <= |evs|
        ensures Replay(buf, evs[..j]) == Replay(next, tail[..j - 1])
      {
        ReplayPrefix(buf, evs, j);
      }
      forall j | 0 <= j < r.consumed
        ensures !Accepts(Replay(buf, evs[..j]))
      {
        if j > 0 {
          assert Replay(buf, evs[..j]) == Replay(next, tail[..j - 1]);
        }
      }
      if r.outcome.Resolved? {
        assert Replay(buf, evs[..r.consumed]) == Replay(next, tail[..r'.consumed]);
        forall j | 0 <= j < r.consumed ensures !Fatal(evs[j]) {
          if j > 0 { assert evs[j] == tail[j - 1]; }
        }
      } else if r.outcome.RecvFailed? {
        assert evs[r.consumed - 1] == tail[r'.consumed - 1];
        forall j | 0 <= j < r.consumed - 1 ensures !Fatal(evs[j]) {
          if j > 0 { assert evs[j] == tail[j - 1]; }
        }
      } else {
        assert Replay(buf, evs) == Replay(next, tail);
        forall j | 0 <= j < |evs| ensures !Fatal(evs[j]) {
          if j > 0 { assert evs[j] == tail[j - 1]; }
        }
      }
    }
  }

  /** Conversely: if the k-th buffer is the first that passes the test and
      none of the first k receives failed fatally, the loop resolves to the
      sender MAC of that buffer after exactly k receives. */
  lemma {:induction false} ListenFindsFirstReply(buf: seq<byte>, evs: seq<RecvEvent>, k: nat)
    requires |buf| >= READ_END && k <= |evs|
    requires forall j :: 0 <= j < k ==> !Fatal(evs[j]) && !Accepts(Replay(buf, evs[..j]))
    requires Accepts(Replay(buf, evs[..k]))
    ensures Listen(buf, evs).outcome == Resolved(SenderMacOf(Replay(buf, evs[..k])))
    ensures Listen(buf, evs).consumed == k
    decreases k
  {
    assert evs[..0] == [];
    if k > 0 {
      assert !Accepts(Replay(buf, evs[..0])) && !Fatal(evs[0]);
      var next := Step(buf, evs[0]);
      var tail := evs[1..];
      forall j | 0 <= j < k - 1
        ensures !Fatal(tail[j]) && !Accepts(Replay(next, tail[..j]))
      {
        ReplayPrefix(buf, evs, j + 1);
        assert !Accepts(Replay(buf, evs[..j + 1]));
      }
      ReplayPrefix(buf, evs, k);
      ListenFindsFirstReply(next, tail, k - 1);
    }
  }

  /** A receive that does not end the program and does not deliver an
      accepted frame, judged on its own: EINTR, or a frame of at least
      READ_END bytes that fails the exit test. */
  predicate Ignorable(ev: RecvEvent) {
    ev == RecvError(EINTR) || (ev.Received? && |ev.bytes| >= READ_END && !Accepts(ev.bytes))
  }

  /** A frame long enough to cover every byte the loop reads decides the
      exit test and the extracted MAC by itself. */
  lemma FullFrameDecides(buf: seq<byte>, bytes: seq<byte>)
    requires |buf| >= READ_END && |bytes| >= READ_END
    ensures Accepts(Receive(buf, bytes)) == Accepts(bytes)
    ensures SenderMacOf(Receive(buf, bytes)) == SenderMacOf(bytes)
  {
    assert SenderMacOf(Receive(buf, bytes)) == SenderMacOf(bytes);
  }

  /** However many interrupted calls and unrelated full frames come first,
      the first full reply frame is the one whose sender MAC is returned. */
  lemma {:induction false} ReplyAfterDiscards(buf: seq<byte>, discards: seq<RecvEvent>, reply: seq<byte>, rest: seq<RecvEvent>)
    requires |buf| >= READ_END && !Accepts(buf)
    requires forall j :: 0 <= j < |discards| ==> Ignorable(discards[j])
    requires |reply| >= READ_END && Accepts(reply)
    ensures Listen(buf, discards + [Received(reply)] + rest).outcome == Resolved(SenderMacOf(reply))
    decreases |discards|
  {
    var evs := discards + [Received(reply)] + rest;
    if discards == [] {
      assert evs[0] == Received(reply) && evs[1..] == rest;
      FullFrameDecides(buf, reply);
    } else {
      var d := discards[0];
      assert Ignorable(d);
      assert evs[0] == d && evs[1..] == discards[1..] + [Received(reply)] + rest;
      var next := Step(buf, d);
      if d.Received? {
        FullFrameDecides(buf, d.bytes);
      } else {
        assert !Accepts(next) by {
          assert next[OPCODE_AT] == 0 && next[OPCODE_AT + 1] == 0;
        }
      }
      ReplyAfterDiscards(next, discards[1..], reply, rest);
    }
  }

  /** A frame too short to reach the opcode is judged partly on the bytes a
      previous frame left behind: a 14-byte frame with EtherType 0x0806 is
      accepted when the stale bytes 20 and 21 read 2, and the MAC extracted
      is stale too. */
  lemma ShortFrameUsesStaleBytes(buf: seq<byte>, bytes: seq<byte>)
    requires |buf| >= READ_END && OpcodeOf(buf) == Arp.ARPOP_REPLY
    requires Eth.ETH_HDRLEN <= |bytes| <= OPCODE_AT && EtherTypeOf(bytes + buf[|bytes|..]) == Eth.ETH_P_ARP
    ensures Accepts(Receive(buf, bytes))
    ensures SenderMacOf(Receive(buf, bytes)) == SenderMacOf(buf)
  {
    var r := Receive(buf, bytes);
    assert r == bytes + buf[|bytes|..];
    assert SenderMacOf(r) == SenderMacOf(buf);
  }

  /** listen_ARP on the shared buffer `frame`: the loop, then the copy of the
      accepted frame's sender MAC into `dstMac` (byte by byte, as the source's
      for loop does). A fatal error leaves `dstMac` untouched. */
  method ListenArp(frame: array<byte>, dstMac: array<byte>, events: seq<RecvEvent>) returns (r: Outcome)
    requires frame.Length == Eth.IP_MAXPACKET && dstMac.Length == Arp.MAC_LEN
    modifies frame, dstMac
    ensures r == Listen(old(frame[..]), events).outcome
    ensures frame[..] == Listen(old(frame[..]), events).buffer
    ensures r.Resolved? ==> dstMac[..] == r.mac == frame[SENDER_MAC_AT..READ_END]
    ensures !r.Resolved? ==> dstMac[..] == old(dstMac[..])
  {
    ghost var start := frame[..];
    var i := 0;
    while !Accepts(frame[..])
      invariant 0 <= i <= |events|
      invariant Listen(frame[..], events[i..]).outcome == Listen(start, events).outcome
      invariant Listen(frame[..], events[i..]).buffer == Listen(start, events).buffer
      invariant dstMac[..] == old(dstMac[..])
      decreases |events| - i
    {
      if i == |events| {
        // recv() would block for good: no further frame is modelled.
        assert events[i..] == [];
        assert Listen(frame[..], events[i..]).outcome == Waiting;
        return Waiting;
      }
      ghost var before := frame[..];
      assert events[i..][0] == events[i] && events[i..][1..] == events[i + 1..];
      match events[i] {
        case Received(bytes) =>
          var n := if |bytes| < frame.Length then |bytes| else frame.Length;
          forall k | 0 <= k < n {
            frame[k] := bytes[k];
          }
          assert frame[..] == Receive(before, bytes);
        case RecvError(errno) =>
          if errno == EINTR {
            forall k | 0 <= k < frame.Length {
              frame[k] := 0;
            }
            assert frame[..] == Zeroed(frame.Length);
          } else {
            assert Listen(frame[..], events[i..]).outcome == RecvFailed(errno);
            return RecvFailed(errno);
          }
      }
      i := i + 1;
    }
    ghost var accepted := frame[..];
    assert Listen(accepted, events[i..]).outcome == Resolved(SenderMacOf(accepted));
    for k := 0 to Arp.MAC_LEN
      modifies dstMac
      invariant forall j :: 0 <= j < k ==> dstMac[j] == frame[SENDER_MAC_AT + j]
    {
      dstMac[k] := frame[SENDER_MAC_AT + k];
    }
    assert frame[..] == accepted;
    r := Resolved(frame[SENDER_MAC_AT..READ_END]);
  }
}
