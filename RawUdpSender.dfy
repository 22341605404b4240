// `RawSendTo` (nx_socket.c:385-445): sends a UDP datagram over a raw
// socket.  It builds the 8-byte UDP header in front of the payload, computes
// the UDP checksum over the IPv4 pseudo-header of RFC 768 followed by the
// datagram, writes it into the header and hands the datagram (without the
// pseudo-header) to `sendto`.
//
// The kernel side of the socket is a `RawSocket` object: the address
// `getsockname` reports (when the socket has one), the result the kernel
// gives the next `sendto`, and the list of datagrams `sendto` has accepted.

module RawUdpSender {
  import opened Wire
  import opened InetChecksum
  import opened SocketAddress

  const UDP_HEADER_SIZE: nat := 8
  const PSEUDO_HEADER_SIZE: nat := 12
  const IPPROTO_UDP: uint8 := 17

  /** One datagram accepted by `sendto`: its bytes and where it was sent. */
  datatype Datagram = Datagram(bytes: seq<uint8>, to: InAddr, toPort: uint16)

  /** The state of a raw socket that the code observes. */
  class RawSocket {
    var bound: bool            // whether `getsockname` succeeds
    var local: SockAddr        // the address `getsockname` reports
    var sendResult: int        // what `sendto` returns: the length sent, or -1
    var sent: seq<Datagram>    // every datagram `sendto` has accepted, in order

    constructor (bound: bool, local: SockAddr, sendResult: int)
      ensures this.bound == bound && this.local == local
      ensures this.sendResult == sendResult && sent == []
    {
      this.bound := bound;
      this.local := local;
      this.sendResult := sendResult;
      sent := [];
    }

    /** `getsockname`: copies the socket's address into `addr`, or fails. */
    method GetSockName(addr: SockAddr) returns (r: int)
      modifies addr
      ensures !bound ==> r == -1 && unchanged(addr)
      ensures bound ==> r == 0 && addr.family == old(local.family)
      ensures bound && old(local.family) == AF_INET ==>
        addr.inAddr == old(local.inAddr) && addr.port == old(local.port)
    {
      if !bound {
        return -1;
      }
      CopySockaddrToStorage(local, addr);
      return 0;
    }

    /** `sendto` on an IPv4 destination: returns the kernel's result, and
        the datagram is accepted exactly when that result is its whole
        length (a datagram socket sends all of it or nothing). */
    method SendTo(buf: array<uint8>, len: nat, dest: SockAddr) returns (rs: int)
      requires len <= buf.Length
      modifies this
      ensures rs == sendResult
      ensures sent == if rs == len then old(sent) + [Datagram(buf[..len], dest.inAddr, dest.port)]
                      else old(sent)
      ensures bound == old(bound) && local == old(local) && sendResult == old(sendResult)
    {
      rs := sendResult;
      if rs == len {
        sent := sent + [Datagram(buf[..len], dest.inAddr, dest.port)];
      }
    }
  }

  // ---------------------------------------------------------------------
  // Wire layout

  /** `IPv4PseudoHeader` (nx_socket.h:110-117) as its 12 bytes in memory. */
  function PseudoHeader(src: InAddr, dst: InAddr, udpLength: uint16): (r: seq<uint8>)
    ensures |r| == PSEUDO_HEADER_SIZE
  {
    src + dst + [0, IPPROTO_UDP, udpLength / 0x100, udpLength % 0x100]
  }

  /** `struct udphdr`: source port, destination port, length, checksum. */
  function UdpHeader(sport: uint16, dport: uint16, length: uint16, check: uint16): (r: seq<uint8>)
    ensures |r| == UDP_HEADER_SIZE
  {
    [sport / 0x100, sport % 0x100, dport / 0x100, dport % 0x100,
     length / 0x100, length % 0x100, check / 0x100, check % 0x100]
  }

  /** The finished datagram: header and payload, the checksum taken over the
      pseudo-header and the datagram with a zero checksum field. */
  function UdpDatagram(src: InAddr, dst: InAddr, sport: uint16, dport: uint16,
                       payload: seq<uint8>): (d: seq<uint8>)
    requires |payload| + UDP_HEADER_SIZE <= 0xFFFF
    ensures |d| == |payload| + UDP_HEADER_SIZE
  {
    var length := |payload| + UDP_HEADER_SIZE;
    UdpHeader(sport, dport, length, UdpChecksum(src, dst, sport, dport, payload)) + payload
  }

  /** The checksum field: the Internet checksum of the pseudo-header followed
      by the datagram whose checksum field is zero. */
  function UdpChecksum(src: InAddr, dst: InAddr, sport: uint16, dport: uint16,
                       payload: seq<uint8>): uint16
    requires |payload| + UDP_HEADER_SIZE <= 0xFFFF
  {
    var length := |payload| + UDP_HEADER_SIZE;
    Checksum(PseudoHeader(src, dst, length) + (UdpHeader(sport, dport, length, 0) + payload))
  }

  /** The address whose port and IPv4 address become the datagram's source. */
  function SourceOf(sock: RawSocket, srcAddr: SockAddr?): SockAddr
    reads sock
  {
    if srcAddr != null then srcAddr else sock.local
  }

  /** Whether `RawSendTo` gets past its guards and sends. */
  predicate Sends(sock: RawSocket, buf: array?<uint8>, len: nat, srcAddr: SockAddr?,
                  destAddr: SockAddr?, daddrlen: nat)
    reads sock, destAddr
  {
    buf != null && len > 0 && destAddr != null && daddrlen > 0
    && destAddr.family == AF_INET && (srcAddr != null || sock.bound)
  }

  /** Lines 407-415: a zero-filled buffer of `len + 8` bytes, the payload
      copied in at offset 8, then the header fields written with a zero
      checksum.  The length field keeps what `htons(bufln)` keeps of the
      `size_t` length: its low 16 bits. */
  method BuildDatagram(buf: array<uint8>, len: nat, sport: uint16, dport: uint16)
    returns (datagram: array<uint8>)
    requires len <= buf.Length
    ensures fresh(datagram)
    ensures datagram[..] == UdpHeader(sport, dport, (len + UDP_HEADER_SIZE) % 0x1_0000, 0) + buf[..len]
  {
    var bufln := len + UDP_HEADER_SIZE;
    datagram := new uint8[bufln](_ => 0);
    forall k | 0 <= k < len {
      datagram[UDP_HEADER_SIZE + k] := buf[k];
    }
    assert datagram[..] == UdpHeader(0, 0, 0, 0) + buf[..len] by {
      forall k | 0 <= k < bufln
        ensures datagram[k] == (UdpHeader(0, 0, 0, 0) + buf[..len])[k]
      {
      }
    }
    Store16(datagram, 0, sport);
    Store16(datagram, 2, dport);
    Store16(datagram, 6, 0);
    Store16(datagram, 4, bufln % 0x1_0000);
  }

  /** Storing a network-order 16-bit field at byte offset `at` (lines
      412-415): the high byte first. */
  method Store16(a: array<uint8>, at: nat, x: uint16)
    requires at + 2 <= a.Length
    modifies a
    ensures a[..] == old(a[..])[at := x / 0x100][at + 1 := x % 0x100]
  {
    var field := BE16(x);
    a[at], a[at + 1] := field[0], field[1];
  }

  /** Line 430: a host-order `unsigned short` assigned at byte offset `at`
      without `htons`; the little-endian host stores the low byte first. */
  method StoreHost16(a: array<uint8>, at: nat, x: uint16)
    requires at + 2 <= a.Length
    modifies a
    ensures a[..] == old(a[..])[at := x % 0x100][at + 1 := x / 0x100]
  {
    var field := LE16(x);
    a[at], a[at + 1] := field[0], field[1];
  }

  /** Lines 426-429: a buffer holding the pseudo-header followed by a copy
      of the datagram. */
  method PrependPseudoHeader(psh: seq<uint8>, datagram: array<uint8>) returns (pseudogram: array<uint8>)
    ensures fresh(pseudogram)
    ensures pseudogram[..] == psh + datagram[..]
  {
    pseudogram := new uint8[|psh| + datagram.Length](_ => 0);
    forall k | 0 <= k < |psh| {
      pseudogram[k] := psh[k];
    }
    forall k | 0 <= k < datagram.Length {
      pseudogram[|psh| + k] := datagram[k];
    }
    assert pseudogram[..] == psh + datagram[..] by {
      forall k | 0 <= k < pseudogram.Length
        ensures pseudogram[k] == (psh + datagram[..])[k]
      {
      }
    }
  }

  /** Lines 418-430: the pseudo-header and the datagram copied into one
      buffer, checksummed with `InetCSum`, and the host-order result
      assigned to the checksum field (bytes 6-7) of the datagram, which then
      is complete: by `HostOrderCSum` the bytes the host stores are those of
      the network-order checksum. */
  method WriteChecksum(datagram: array<uint8>, src: InAddr, dst: InAddr,
                       ghost sport: uint16, ghost dport: uint16, ghost payload: seq<uint8>)
    returns (check: uint16)
    requires |payload| + UDP_HEADER_SIZE <= 0xFFFF
    requires datagram[..] == UdpHeader(sport, dport, |payload| + UDP_HEADER_SIZE, 0) + payload
    modifies datagram
    ensures LE16(check) == BE16(UdpChecksum(src, dst, sport, dport, payload))
    ensures datagram[..] == UdpDatagram(src, dst, sport, dport, payload)
  {
    var pseudogram := PrependPseudoHeader(PseudoHeader(src, dst, datagram.Length), datagram);
    assert pseudogram[..pseudogram.Length] == pseudogram[..];
    check := InetCSum(pseudogram, pseudogram.Length);
    StoreHost16(datagram, 6, check);
    ghost var c := UdpChecksum(src, dst, sport, dport, payload);
    assert check % 0x100 == c / 0x100 && check / 0x100 == c % 0x100 by {
      assert LE16(check)[0] == BE16(c)[0] && LE16(check)[1] == BE16(c)[1];
    }
    FilledChecksum(src, dst, sport, dport, payload, c);
  }

  /** `RawSendTo(sock, buf, len, flags, src_addr, dest_addr, daddrlen)`.
      Returns 0 without sending when a pointer is null, a length is zero,
      `getsockname` fails or the destination is not IPv4; otherwise hands
      the datagram to `sendto` and returns what `sendto` returns.  `flags`
      is ignored (`sendto` gets 0).  On a call that sends, the length field
      `htons(len + 8)` truncates beyond 65535, and the source address is
      read from the IPv4 view of storage that is only filled in for an IPv4
      source; both are preconditions of the sending calls only. */
  method RawSendTo(sock: RawSocket, buf: array?<uint8>, len: nat, flags: int,
                   srcAddr: SockAddr?, destAddr: SockAddr?, daddrlen: nat)
    returns (rs: int)
    requires buf != null ==> len <= buf.Length
    requires Sends(sock, buf, len, srcAddr, destAddr, daddrlen) ==>
      len + UDP_HEADER_SIZE <= 0xFFFF && SourceOf(sock, srcAddr).family == AF_INET
    modifies sock
    ensures sock.bound == old(sock.bound) && sock.local == old(sock.local)
    ensures sock.sendResult == old(sock.sendResult)
    ensures !old(Sends(sock, buf, len, srcAddr, destAddr, daddrlen)) ==>
      rs == 0 && sock.sent == old(sock.sent)
    ensures old(Sends(sock, buf, len, srcAddr, destAddr, daddrlen)) ==>
      var src := SourceOf(sock, srcAddr);
      && rs == old(sock.sendResult)
      && sock.sent == if rs == len + UDP_HEADER_SIZE then old(sock.sent) + [Datagram(
           UdpDatagram(src.inAddr, destAddr.inAddr, src.port, destAddr.port, buf[..len]),
           destAddr.inAddr, destAddr.port)] else old(sock.sent)
  {
    if destAddr == null {
      return 0;
    }
    if buf == null || len == 0 || destAddr == null || daddrlen == 0 {
      return 0;
    }
    // `struct sockaddr_storage addr`: its initial contents are never read
    // on a path that sends
    var addr := new SockAddr(0, 0, [0, 0, 0, 0], [0, 0, 0, 0, 0, 0, 0, 0, 0, 0, 0, 0, 0, 0, 0, 0]);
    if srcAddr == null {
      var got := sock.GetSockName(addr);
      if got == -1 {
        return 0;
      }
    } else {
      CopySockaddrToStorage(srcAddr, addr);
    }
    var datagram := BuildDatagram(buf, len, addr.port, destAddr.port);
    if destAddr.family == AF_INET {
      assert addr.inAddr == SourceOf(sock, srcAddr).inAddr && addr.port == SourceOf(sock, srcAddr).port;
      var check := WriteChecksum(datagram, addr.inAddr, destAddr.inAddr, addr.port, destAddr.port, buf[..len]);
      assert datagram[..datagram.Length] == datagram[..];
      rs := sock.SendTo(datagram, datagram.Length, destAddr);
    } else if destAddr.family == AF_INET6 {
      // the IPv6 branch is not implemented and sends nothing
      return 0;
    } else {
      return 0;
    }
  }

  /** Writing the checksum into bytes 6-7 of the datagram built with a zero
      checksum field gives the finished datagram. */
  lemma FilledChecksum(src: InAddr, dst: InAddr, sport: uint16, dport: uint16,
                       payload: seq<uint8>, check: uint16)
    requires |payload| + UDP_HEADER_SIZE <= 0xFFFF
    requires check == Checksum(PseudoHeader(src, dst, |payload| + UDP_HEADER_SIZE)
                               + (UdpHeader(sport, dport, |payload| + UDP_HEADER_SIZE, 0) + payload))
    ensures var zeroed := UdpHeader(sport, dport, |payload| + UDP_HEADER_SIZE, 0) + payload;
      zeroed[6 := check / 0x100][7 := check % 0x100] == UdpDatagram(src, dst, sport, dport, payload)
  {
  }

  // ---------------------------------------------------------------------
  // Properties of the datagram

  /** The sent bytes: source port, destination port, `len + 8` and the
      checksum as network-order words, then the payload unchanged; the
      pseudo-header is not among them. */
  lemma DatagramLayout(src: InAddr, dst: InAddr, sport: uint16, dport: uint16, payload: seq<uint8>)
    requires |payload| + UDP_HEADER_SIZE <= 0xFFFF
    ensures var d := UdpDatagram(src, dst, sport, dport, payload);
      && Word(d[0], d[1]) == sport && Word(d[2], d[3]) == dport
      && Word(d[4], d[5]) == |payload| + UDP_HEADER_SIZE
      && Word(d[6], d[7]) == UdpChecksum(src, dst, sport, dport, payload)
      && d[UDP_HEADER_SIZE..] == payload
      && |d| == |payload| + UDP_HEADER_SIZE
  {
    HeaderFields(sport, dport, |payload| + UDP_HEADER_SIZE,
                 UdpChecksum(src, dst, sport, dport, payload), payload);
  }

  /** The fields of a UDP header followed by a payload, read back as
      network-order words. */
  lemma HeaderFields(sport: uint16, dport: uint16, length: uint16, check: uint16, payload: seq<uint8>)
    ensures var d := UdpHeader(sport, dport, length, check) + payload;
      && Word(d[0], d[1]) == sport && Word(d[2], d[3]) == dport
      && Word(d[4], d[5]) == length && Word(d[6], d[7]) == check
      && d[UDP_HEADER_SIZE..] == payload
      && |d| == |payload| + UDP_HEADER_SIZE
  {
    var d := UdpHeader(sport, dport, length, check) + payload;
    assert d[UDP_HEADER_SIZE..] == payload;
  }

  /** A receiver that checksums the pseudo-header and the datagram as
      received gets 0, the test of section "Fields" of RFC 768. */
  lemma DatagramVerifies(src: InAddr, dst: InAddr, sport: uint16, dport: uint16, payload: seq<uint8>)
    requires |payload| + UDP_HEADER_SIZE <= 0xFFFF
    ensures var length := |payload| + UDP_HEADER_SIZE;
      Checksum(PseudoHeader(src, dst, length) + UdpDatagram(src, dst, sport, dport, payload)) == 0
  {
    var length := |payload| + UDP_HEADER_SIZE;
    var front := PseudoHeader(src, dst, length)
      + [sport / 0x100, sport % 0x100, dport / 0x100, dport % 0x100, length / 0x100, length % 0x100];
    SpliceField(PseudoHeader(src, dst, length), UdpHeader(sport, dport, length, 0), payload, front, [0, 0]);
    var check := UdpChecksum(src, dst, sport, dport, payload);
    SpliceField(PseudoHeader(src, dst, length), UdpHeader(sport, dport, length, check), payload,
                front, BE16(check));
    ChecksumVerifies(front, payload);
  }

  /** A pseudo-header, a header and a payload, regrouped around the header's
      last two bytes. */
  lemma SpliceField(psh: seq<uint8>, header: seq<uint8>, payload: seq<uint8>,
                    front: seq<uint8>, field: seq<uint8>)
    requires |header| == UDP_HEADER_SIZE && |field| == 2
    requires front == psh + header[..6] && field == header[6..]
    ensures psh + (header + payload) == front + field + payload
  {
    assert header == header[..6] + header[6..];
  }
}
