# nx_socket core, modelled and verified in Dafny

This project models the address and packet arithmetic in `nx_socket.c`, a small C socket-utility library, and proves properties of the model. The model covers four parts:

- the IPv4 address classifier `GetIPv4Info`;
- the Internet checksum `InetCSum` (RFC 1071);
- the UDP datagram assembly of `RawSendTo`, with its RFC 768 pseudo-header;
- the socket-address helpers: `GetAddr`, `GetPort`, the two copy functions, `GetFamily`, `MakeSockaddr` and `StringToSockaddr`.

The files:

- `Wire.dfy` — bytes, 16-bit words and their two memory layouts.
- `Ipv4Classifier.dfy` — `GetIPv4Info` on a `bv32`, with a reference classification stated octet by octet.
- `InetChecksum.dfy` — `InetCSum` as a loop over an array. A word-by-word reference definition of the RFC 1071 checksum, with lemmas.
- `SocketAddress.dfy` — `struct sockaddr` as a class, and the text-to-address path. `inet_pton` is a parameter; `atoi` is a specified function.
- `RawUdpSender.dfy` — `RawSendTo` over arrays, against a `RawSocket` object that stands for the kernel side.

Conventions:

- The host is little-endian, as on x86. `ntohl` and `ntohs` therefore exchange bytes.
- A network-order 16-bit struct field, such as a port or the UDP length, is modelled by the number it denotes. Its bytes in memory are that number's big-endian bytes.
- Addresses are their bytes in network order.
- `InetCSum` sums words as the code reads them through an `unsigned short *`, that is in host order, and returns the host-order value the code returns. `InetChecksum.HostOrderCSum` proves that this value, stored in memory, occupies the two bytes of the network-order RFC 1071 checksum (section 2(B) of RFC 1071). The reference definition `Checksum` is stated on network-order words.
- `inet_pton` enters `MakeSockaddr` and `StringToSockaddr` as two function parameters, one per family. Each either fails or yields the address bytes.
- `getsockname` and `sendto` are the methods `RawSocket.GetSockName` and `RawSocket.SendTo`:
  - `GetSockName` fails or reports the socket's local address.
  - `SendTo` returns the kernel's result, which the socket's `sendResult` field stands for and the model leaves open. It appends the datagram to the socket's `sent` list exactly when that result is the datagram's whole length. Any other result, such as -1 for `EAGAIN`, means nothing was sent.

## Model

| member | source | states |
|---|---|---|
| Ipv4Classifier.NtohlOfNetworkOrder | nx_socket.c:47 | `ntohl` of the four stored address bytes a.b.c.d gives a host-order value whose bytes, from the most significant down, are a, b, c and d |
| Ipv4Classifier.GetIPv4InfoByOctets | nx_socket.c:43-157 | for every address, the code's masks and early returns give the same (net type, address type) as the octet-wise classification. That classification: class by first octet, net/host split after 1, 2 or 3 octets, all-ones host part is a broadcast, RFC 1918 blocks are private |
| Ipv4Classifier.SpecialBlocks | nx_socket.c:77-100 | top nibble 1110 gives (UNKNOWN, BROADCAST); top nibble 1111 gives (UNKNOWN, RESERVED); first octet 0 gives (UNKNOWN, UNKNOWN); first octet 127 gives net type LOCAL |
| Ipv4Classifier.ClassByLeadingBits | nx_socket.c:91-127 | outside those blocks the class is A exactly when the leading bit is 0, B exactly for 10, and C exactly for 110 |
| Ipv4Classifier.DirectedBroadcast | nx_socket.c:101-135 | an all-ones host part (three octets for A, two for B, one for C) gives BROADCAST with the class's net type kept (LOCAL for 127) |
| Ipv4Classifier.PrivateAndRole | nx_socket.c:106-155 | a private role (HOST_PRIVATE or NET_PRIVATE) is reported exactly for 10/8, 172.16/12 and 192.168/16, unless the address is a broadcast. A network role (NET or NET_PRIVATE) is reported exactly for a class A-C address whose host part is zero |
| Ipv4Classifier.Examples | nx_socket.c:43-157 | 10.0.0.1 gives (A, HOST_PRIVATE); 8.8.8.8 gives (A, HOST); 192.168.1.1 gives (C, HOST_PRIVATE); 172.16.0.0 gives (B, NET_PRIVATE); 10.255.255.255 gives (A, BROADCAST); 255.255.255.255 gives (UNKNOWN, RESERVED); 127.0.0.1 gives (LOCAL, HOST) |
| InetChecksum.InetCSum | nx_socket.c:352-376 | a non-positive `nbytes` gives 0xFFFF. Otherwise, for every `nbytes`, the result is the code's value: the two folds and the complement of the plain sum of the host-order words (an odd last byte as the low byte of a zero-padded word). Up to 131074 bytes, the two bytes this value occupies in memory are the RFC 1071 checksum of the buffer |
| InetChecksum.SumWords | nx_socket.c:356-369 | the loop's `long sum` is the plain sum of the words the little-endian host loads from the first `nbytes` bytes, with an odd last byte as the low byte of a zero-padded word. It is 0 for a non-positive `nbytes` |
| InetChecksum.FoldedSumIsChecksum | nx_socket.c:371-373 | for buffers of at most 131074 bytes, the code's two carry folds and the complement give exactly the complement of the ones'-complement (end-around-carry) sum |
| InetChecksum.FoldsGiveResidue | nx_socket.c:371-373 | below 2^32, the two folds reduce a sum to its ones'-complement value: congruent modulo 0xFFFF, and 0 only for 0 |
| InetChecksum.OnesSumIsResidue | nx_socket.c:361-369 | adding words with end-around carry gives the ones'-complement value of their plain sum |
| InetChecksum.SumBound | nx_socket.c:356-364 | the plain sum of n words is at most n * 0xFFFF, so it stays below 2^32 for 65537 words |
| InetChecksum.ChecksumOfZeros | nx_socket.c:352-376 | an empty or all-zero buffer has checksum 0xFFFF |
| InetChecksum.ChecksumVerifies | nx_socket.c:352-376 | writing the checksum of a buffer into its zeroed two-byte field, at an even offset, makes the buffer's checksum 0 |
| InetChecksum.HostOrderChecksum | nx_socket.c:356-373 | the complemented end-around-carry sum of the little-endian host-order words, stored as a host-order value, occupies the same two bytes as the network-order checksum |
| InetChecksum.HostOrderCSum | nx_socket.c:356-375 | what the code computes (the plain sum of the host-order words it reads through `unsigned short *`, two folds, the complement), stored as a host-order value, occupies the two bytes of the network-order RFC 1071 checksum. This holds for buffers of up to 131074 bytes |
| SocketAddress.GetAddr | nx_socket.c:159-169 | NULL exactly for a null address or a family other than AF_INET/AF_INET6; otherwise the 4-byte IPv4 or 16-byte IPv6 address field of that family |
| SocketAddress.GetPort | nx_socket.c:201-214 | the port for AF_INET and AF_INET6, 0 for any other family |
| SocketAddress.CopyStorageToSockaddr | nx_socket.c:216-235 | the destination gets the source's family, and `GetAddr`/`GetPort` of the destination equal those of the source. For AF_INET and AF_INET6 the family's address and port are copied and the other address field is kept. For any other family only the family is written |
| SocketAddress.CopySockaddrToStorage | nx_socket.c:237-256 | the same copy in the other direction |
| SocketAddress.GetFamily | nx_socket.c:310-320 | 0 for a null or empty text. AF_INET6 exactly when one of the first `addrln` characters is a colon. AF_INET otherwise |
| SocketAddress.CStr | nx_socket.c:270-272 | the C string `inet_pton` reads from the zero-terminated copy: the longest NUL-free prefix |
| SocketAddress.MakeSockaddr | nx_socket.c:264-284 | -1 exactly for a null output, null text or empty text, and the output is then untouched. Otherwise the family is `GetFamily` of the text. On a successful conversion: result 0, the family's address is the converted text and the port is stored. On a failed conversion: result -2, address and port untouched |
| SocketAddress.HostLength | nx_socket.c:331-333 | the host part ends at the first colon among all but the last character, or before the last character; it holds no colon |
| SocketAddress.HostEnd | nx_socket.c:331-333 | the scan loop stops at `HostLength` of the text |
| SocketAddress.PortBuffer | nx_socket.c:330-335 | the port text is copied into `sport` and NUL-terminated, so `atoi(sport)` reads exactly the port text |
| SocketAddress.StringToSockaddr | nx_socket.c:325-339 | 1 exactly when the output is non-null, the host part is non-empty and converts as IPv4. Whenever the output is non-null and the host part non-empty, the family written is AF_INET. On success: the converted address, and the port `atoi(port text)` taken modulo 2^16. On failure: address and port untouched. An empty host part leaves the output unchanged |
| SocketAddress.AtoiStopsAtNul | nx_socket.c:335-336 | `atoi` of a NUL-terminated buffer depends only on the text before the NUL |
| SocketAddress.AtoiOfDecimal | nx_socket.c:336 | `atoi` recovers every number from its decimal text |
| SocketAddress.SplitHostPort | nx_socket.c:325-339 | for "host:port", with a colon-free host and a port of at most five digits: the host is passed on whole, the port number is recovered modulo 2^16, the port text fits the buffer and the family is AF_INET |
| SocketAddress.HostPartIsIPv4 | nx_socket.c:331-336 | the host part handed to `MakeSockaddr` never holds a colon, so its family is AF_INET |
| SocketAddress.LoopbackExample | nx_socket.c:325-339 | "127.0.0.1:5100" splits into host "127.0.0.1" and port 5100 |
| RawUdpSender.RawSocket.GetSockName | nx_socket.c:399-402 | fails with -1 and leaves the storage untouched, or copies the socket's family and, for IPv4, its address and port |
| RawUdpSender.RawSocket.SendTo | nx_socket.c:431 | returns the kernel's result. The datagram's bytes and destination are appended to the sent list exactly when that result is the whole length; otherwise nothing is sent |
| RawUdpSender.BuildDatagram | nx_socket.c:407-415 | a fresh buffer that holds the header followed by the first `len` payload bytes. The header holds the source port, the destination port, `len + 8` cut to its low 16 bits as `htons` keeps it, and a zero checksum |
| RawUdpSender.Store16 | nx_socket.c:412-415 | only the two bytes at the offset change, to the field's high and low byte |
| RawUdpSender.PrependPseudoHeader | nx_socket.c:426-429 | a fresh buffer that holds the pseudo-header followed by the datagram |
| RawUdpSender.WriteChecksum | nx_socket.c:416-430 | the host-order value written occupies the two bytes of the checksum of the pseudo-header followed by the zero-checksum datagram. The datagram is then the finished `UdpDatagram` |
| RawUdpSender.StoreHost16 | nx_socket.c:430 | only the two bytes at the offset change: the low byte of the host-order value, then the high byte |
| RawUdpSender.RawSendTo | nx_socket.c:385-445 | returns 0 and sends nothing for any of: null destination, null buffer, zero length, zero address length, failing `getsockname`, or a non-IPv4 destination. Otherwise the result is what `sendto` returns. The datagram is recorded as sent to the destination exactly when that result is `len + 8`, and nothing is recorded otherwise. The datagram is the `UdpDatagram` of the source's address and port, the destination's address and port, and the payload. The socket's address is unchanged |
| RawUdpSender.FilledChecksum | nx_socket.c:430 | writing that checksum into bytes 6-7 of the zero-checksum datagram gives the finished datagram |
| RawUdpSender.DatagramLayout | nx_socket.c:407-431 | the sent bytes, read as network-order words, are: 0-1 the source port, 2-3 the destination port, 4-5 `len + 8`, 6-7 the checksum over the pseudo-header and the zero-checksum datagram. The payload is unchanged from offset 8, and the pseudo-header is not sent |
| RawUdpSender.HeaderFields | nx_socket.c:411-415 | the four header fields read back from their bytes, and the payload follows them |
| RawUdpSender.DatagramVerifies | nx_socket.c:416-430 | the checksum of the pseudo-header followed by the sent datagram is 0, the receiver's test of RFC 768 |

## Left out

- `SetNonBlock`, `SetReusable`, `PrintSockInfo`, `ResolveSockaddr` and `SockaddrToString`: thin wrappers over `fcntl`, `setsockopt`, `printf`, `inet_ntop`, or an empty stub. They hold no arithmetic to verify.
- raw_recv_example.c, udpechod.c and epoll_raw.c: event-loop I/O programs.
- The internals of `inet_pton`. It is a parameter, so every property holds for any conversion function.
- The internals of `getsockname` and `sendto`.
- RawUdpSender.RawSendTo: requires `len + 8 <= 65535`, but only on calls that send. `htons(bufln)` at line 415 keeps the low 16 bits of a larger length. The model builds that truncated header, but it does not describe the datagram that would then be sent.
- RawUdpSender.RawSendTo: requires that a sending call has an IPv4 source. For any other source family, the code's IPv4 view at lines 412 and 420 reads bytes that hold no IPv4 address: `sin6_flowinfo` for an IPv6 source, and never-written bytes for any other family.
- RawUdpSender.RawSendTo: `addrlen` is passed to `getsockname` uninitialised (lines 398 and 401); the model's `getsockname` does not read it.
- RawUdpSender.RawSendTo: the IPv6 branch is a `TODO` in the code and is modelled as the plain `return 0` it is.
- RawUdpSender.RawSendTo: `flags` is ignored, as in the code, which passes 0 to `sendto`.
- RawUdpSender.RawSendTo: the RFC 768 rule that a computed checksum of zero is sent as 0xFFFF is not applied, because the code does not apply it.
- `malloc`/`free` and the leaks: `buf_` on the IPv6 and other-family returns (lines 434-442), and `tmp` in `MakeSockaddr` on its -1 return (lines 270-274). Dafny's arrays are garbage-collected.
- SocketAddress.MakeSockaddr: requires `addrln == 0` when `addr` is null, because the code copies `addrln` bytes from `addr` (line 272) before it tests `addr` for NULL (line 273).
- SocketAddress.StringToSockaddr: requires `strsz >= 1`, because `strsz - 1` wraps around for an empty text (line 331).
- SocketAddress.StringToSockaddr: requires port text of at most five characters, because `sport[strsz - i - 1]` writes past the six-character buffer otherwise (line 335).
- SocketAddress.StringToSockaddr: `addrsz` is not used, as in the code.
- InetChecksum.InetCSum: the result is the RFC 1071 checksum only for buffers of up to 131074 bytes. Beyond that, the host-order sum can reach 2^32, the two folds no longer absorb every carry, and the contract states only the code's own value. A 64-bit `long` holds the sum of any `int`-sized buffer, so the model's unbounded sum is that accumulator.
- SocketAddress.GetAddr: returns the address bytes rather than a pointer into the structure. Writes through that pointer (by `inet_pton`) are modelled as assignments to the field.
