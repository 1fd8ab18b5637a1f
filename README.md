# ARP request/reply over a raw Ethernet socket, modelled in Dafny

The program being modelled resolves a neighbour's Ethernet (MAC) address from
its IPv4 address. It fills a 28-byte ARP request header (RFC 826: hardware
type Ethernet, protocol type IPv4, address lengths 6 and 4, opcode 1), wraps
it in an Ethernet II frame with EtherType 0x0806, and broadcasts the frame on
a raw packet socket. It then receives into the same frame buffer until the
buffer holds an ARP reply and copies that reply's sender MAC out. A separate
routine computes the RFC 1071 Internet checksum.

Modules, one per piece of the program:

- `Bytes`: byte and 16-bit types, network byte order, and `memcpy`/`memset`
  as in-place array updates.
- `ArpHeader`: the `arp_hdr` struct as 28 bytes (no padding). Its fields are
  a `Header` datatype with `Serialize`/`Parse`. `FillArpHdr` is
  `fill_ARPhdr` working in place on an `array<byte>`.
- `EthFrame`: the 42-byte frame layout. `FillEthFrame` is the
  buffer-building part of `fill_send_ETHhdr`. `FillSendEthHdr` is the whole
  function: it calls `FillEthFrame`, then gives the outcome of
  `socket()`/`sendto()`.
- `Listen`: the exit test of `listen_ARP`, read as the code reads it. The
  recursive function `Listen` is the loop over a sequence of receive results.
  `Replay` is an independent reference: the buffer after the first j
  receives. `ListenArp` is the loop itself, over the shared buffer.
- `Checksum`: `checksum()` as a `while` loop over an `int32` accumulator,
  plus the ones'-complement facts about it.
- `Exchange`: the part of `main` that chains these steps: broadcast
  destination, header, frame, send, wait.

I/O is modelled by parameters:

- the interface's MAC and the two IPv4 addresses;
- the integers returned by `socket()` and `sendto()`;
- the results of successive `recv()` calls, as a sequence of frames or
  errnos.

When that sequence runs out without a reply, the result is `Waiting`: the
real `recv()` would block, and the code has no timeout.

What the code does and does not do, as modelled:

- The exit test is EtherType 0x0806 and opcode 2 only. The code does not
  compare the target IP, does not check hlen/plen and has no timeout.
- A positive but short `sendto()` count is not a failure: only a return of
  0 or less is, so a short write goes on to the listening phase
  (`EthFrame.FillSendEthHdr`).
- `checksum()` is modelled although `main` applies it only to an IPv4
  header that is never sent; the routine is self-contained.

## Model

| member | source | states |
|---|---|---|
| `ArpHeader.FillArpHdr` | arp.c:184-214 | The header starts with 00 01 08 00 06 04 00 01 (htype 1, ptype 0x0800, hlen 6, plen 4, opcode 1, 16-bit fields big-endian). The sender MAC equals `src_mac` byte for byte. The target MAC is six zero bytes. Sender and target IP are unchanged. Parsed, it is `Request(src_mac, old sender_ip, old target_ip)`. |
| `ArpHeader.ParseSerialize` | arp.c:40-52 | Reading the 28-byte struct image back gives every field that was stored. |
| `ArpHeader.SerializeParse` | arp.c:40-52 | Every 28-byte image is rebuilt exactly from the fields read out of it: the struct has no padding. |
| `ArpHeader.RequestImage` | arp.c:186-211 | A request image has the fixed prefix 00 01 08 00 06 04 00 01, then the sender MAC, the sender IP, six zero bytes and the target IP. |
| `Bytes.BE16RoundTrip` | arp.c:187-199 | Storing a 16-bit value in network order and reading it back with `(hi << 8) + lo` gives the value. The converse also holds for any two bytes. |
| `EthFrame.FillEthFrame` | arp.c:216-236 | The frame length is 6+6+2+28 = 42. Bytes 0..5 are `dst_mac`, 6..11 are `src_mac`, 12..13 are 0x08 0x06, and 14..41 are the 28 header bytes. The rest of the buffer is untouched. The parsed frame has these fields. |
| `EthFrame.FillSendEthHdr` | arp.c:216-250 | The frame is built as above. The outcome is `Sent(sd, len)` exactly when `socket()` returned a non-negative descriptor and `sendto()` a positive count. It is `SocketFailed` exactly when `socket()` failed. On `Sent`, `sd` is the descriptor and `len` is the 42-byte frame length handed to `sendto()`. |
| `EthFrame.ParseSerialize` | arp.c:221-236 | Decoding a serialized frame gives back its destination, source, EtherType and ARP header. |
| `EthFrame.SerializeParse` | arp.c:221-236 | Every buffer's first 42 bytes are rebuilt exactly from the frame parsed out of them. |
| `Listen.ReadersDecodeFrame` | arp.c:314-315 | On a buffer that starts with a serialized frame, the loop's readers (`(b[12]<<8)+b[13]`, `ntohs` of bytes 20..21, bytes 22..27) give that frame's EtherType, opcode and sender MAC. |
| `Listen.RequestIsNotAccepted` | arp.c:312-315 | The request just built reads as EtherType 0x0806 with opcode 1, so it fails the exit test. |
| `Listen.ListenIsFirstAcceptance` | arp.c:315-325 | Set against `Replay`: the loop rejects every buffer it tests before stopping. On `Resolved` after k receives, none of them was a fatal error, the final buffer is the buffer after k receives, it passes the test, and the MAC is its bytes 22..27. On `RecvFailed`, the last receive read is the first non-EINTR error. On `Waiting`, every receive was non-fatal and no buffer passed. |
| `Listen.ListenFindsFirstReply` | arp.c:315-325 | Conversely, suppose the buffer after k receives is the first to pass the test and no fatal error came before it. Then the loop resolves to that buffer's sender MAC after exactly k receives. |
| `Listen.FullFrameDecides` | arp.c:314-316 | A received frame of at least 28 bytes decides the exit test and the extracted MAC on its own, whatever the buffer held before. |
| `Listen.ReplyAfterDiscards` | arp.c:315-325 | After any number of EINTRs and full non-reply frames, the first full reply frame ends the loop with that frame's sender MAC. |
| `Listen.ShortFrameUsesStaleBytes` | arp.c:314-316 | The received length is not checked. A 14..20-byte frame with EtherType 0x0806 is accepted when stale bytes 20..21 left in the buffer read 2, and the MAC returned is stale as well. |
| `Listen.ListenArp` | arp.c:302-369 | Returns what `Listen` gives for the initial buffer and the receive results, and leaves exactly `Listen`'s final buffer. Each frame overwrites a prefix of the buffer. EINTR zeroes all `IP_MAXPACKET` bytes. Any other error is fatal. On success `dst_mac` equals bytes 22..27 of the accepted buffer. Otherwise `dst_mac` is unchanged. |
| `Checksum.Checksum` | arp.c:477-499 | Sums the 16-bit words, adds the odd byte, folds `(s>>16)+(s&0xFFFF)` then `s += s>>16`, and returns `~s` truncated to 16 bits. The `int` accumulator never overflows for up to 32768 words. The result plus the data's sum is 0 modulo 0xFFFF, and the result is 0xFFFF exactly when the sum is 0. |
| `Checksum.WordSumBound` | arp.c:485-488 | The word loop's sum is at most 0xFFFF times the number of words, so it fits the `int` accumulator. |
| `Checksum.FoldIsOnesComplement` | arp.c:495-496 | For any `int`-sized sum, the two folds give a 16-bit value congruent to the sum modulo 0xFFFF. That value is zero only for a zero sum and never exceeds the sum. |
| `Checksum.ChecksumComplementsSum` | arp.c:495-498 | The checksum is the ones'-complement negation of the sum: the two add up to 0 modulo 0xFFFF, and the checksum is 0xFFFF exactly when the sum is 0. |
| `Checksum.TailIsPaddedWord` | arp.c:490-493 | The odd trailing byte contributes what a final word holding that byte and a zero byte would. |
| `Checksum.ChecksumVerifies` | arp.c:477-499 | RFC 1071 verification (section 1): with its checksum appended as a word, the data checksums to 0. |
| `Exchange.ResolvingTakesAReceive` | arp.c:108-112 | The buffer `listen_ARP` starts from (the broadcast request, then zeros) fails the exit test. So a resolved result needs at least one receive, and with no receive at all the loop keeps waiting. |
| `Exchange.UnrelatedFrameKeepsWaiting` | arp.c:315-325 | A full frame of another EtherType received after the request does not end the wait. |
| `Exchange.ReplyScenario` | arp.c:302-325 | Take a request for 93.184.216.34 from aa:bb:cc:dd:ee:ff at 192.168.1.10. A reply from 11:22:33:44:55:66 resolves to 11:22:33:44:55:66, whatever EINTRs and unrelated full frames precede it. |
| `Exchange.Resolve` | arp.c:98-112 | Chains `main`'s steps. A failed `socket()` gives `SocketFailed`. A non-positive `sendto()` gives `SendFailed`. Otherwise the result is `Listened` with the listen loop's outcome on the request buffer (the MAC left in `dst_mac` when resolved), and a resolved MAC comes only after at least one receive. |

## Left out

- Socket creation, `sendto()` and `recv()` are operating-system I/O. They are parameters: two integer results, and a sequence of receive results.
- `interface_lookup` (ioctl, `if_nametoindex`) and `config_ipv4` (`getaddrinfo`, `inet_pton`, `inet_ntop`, `sockaddr_ll`) are foreign library calls. The local MAC and both IPv4 addresses are parameters, and `Exchange.Resolve` stores the IPs where `config_ipv4` puts them.
- The `allocate_*` wrappers are allocation plumbing. In `Exchange.Resolve` only `dst_mac` and the frame buffer start zero-filled, as `allocate_ustrmem` leaves them. `src_mac` is created already holding the interface MAC passed in as a parameter, which is what it holds once `interface_lookup` has copied the MAC into it. The `arp_hdr` struct, a local variable in `main`, is allocated without an initial value.
- The `printf` dump of the received frame is output only and changes no state.
- The IPv4 header assembly in `main` produces a header that is never sent; only the `checksum` it calls is modelled. Closing the socket and freeing memory are also left out.
- Host byte order is left out. The header fields are written and read as big-endian bytes. The checksum takes its input as 16-bit word values plus an optional trailing byte, read the way a little-endian host fills the low byte.
- `Checksum.Checksum`: inputs are at most 32768 words, so the `int` accumulator cannot overflow. It also cannot express the negative `len` C would accept, since `len` follows from the input.
- `Listen.ListenArp`: the receive input is finite. Running out of it ends in `Waiting`, where the program would block in `recv()` for good.
- `fill_ARPhdr` and `listen_ARP` always return 0. Their status is not modelled.
