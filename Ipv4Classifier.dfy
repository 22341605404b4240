// `GetIPv4Info` (nx_socket.c:41-157): classifies an IPv4 address, given as a
// network-order `uint32`, into the historical network classes of section
// 3.2 of RFC 791 and an address role, flagging the private ranges of
// section 3 of RFC 1918.  The code works with bit masks on the host-order
// value; `ReferenceInfo` restates the same classification octet by octet,
// and `GetIPv4InfoByOctets` proves the two agree on every address.

module Ipv4Classifier {

  /** `IPv4NetType` (nx_socket.h:86-92). */
  datatype NetType = NetUnknown | ClassA | ClassB | ClassC | Local

  /** `IPv4AddrType` (nx_socket.h:94-102). */
  datatype AddrType =
    | AddrUnknown
    | Reserved
    | Broadcast
    | Host
    | HostPrivate
    | Net
    | NetPrivate

  /** `IPv4Info` (nx_socket.h:104-108). */
  datatype IPv4Info = IPv4Info(netType: NetType, addrType: AddrType)

  // Leading-bit patterns (nx_socket.c:51-58).
  const B1000: bv32 := 1 << 31
  const B1100: bv32 := 3 << 30
  const B1110: bv32 := 7 << 29
  const B1111: bv32 := 15 << 28

  // Net-id and host-id masks of classes A, B and C (nx_socket.c:60-75).
  const A_NET_MASK: bv32 := 0x7f00_0000
  const A_HOST_MASK: bv32 := 0x00ff_ffff
  const B_NET_MASK: bv32 := 0x3fff_0000
  const B_HOST_MASK: bv32 := 0x0000_ffff
  const B_FIRST_PRIVATE: bv32 := 0x3f & 172
  const C_NET_MASK: bv32 := 0x1fff_ff00
  const C_HOST_MASK: bv32 := 0x0000_00ff
  const C_FIRST_PRIVATE: bv32 := 0x1f & 192

  /** `ntohl` on the little-endian host: the four bytes reversed. */
  function Ntohl(x: bv32): bv32
  {
    (x << 24) | ((x & 0xff00) << 8) | ((x >> 8) & 0xff00) | (x >> 24)
  }

  /** The `uint32` a little-endian host reads from the four address bytes
      `a.b.c.d` stored in network order, as in `sin_addr.s_addr`. */
  function NetworkOrder(a: bv8, b: bv8, c: bv8, d: bv8): bv32
  {
    ((d as bv32) << 24) | ((c as bv32) << 16) | ((b as bv32) << 8) | (a as bv32)
  }

  /** `GetIPv4Info(ip)`: the code's masks and early returns, in order. */
  function GetIPv4Info(ip: bv32): IPv4Info
  {
    var hostip := Ntohl(ip);
    if hostip & B1111 == B1110 then IPv4Info(NetUnknown, Broadcast)
    else if hostip & B1111 == B1111 then IPv4Info(NetUnknown, Reserved)
    else if hostip & B1000 == 0 then
      var netid := (hostip & A_NET_MASK) / 0x100_0000;
      if netid == 0 then IPv4Info(NetUnknown, AddrUnknown)
      else
        var hostid := hostip & A_HOST_MASK;
        var netType := if hostip & A_NET_MASK == A_NET_MASK then Local else ClassA;
        if hostid == A_HOST_MASK then IPv4Info(netType, Broadcast)
        else IPv4Info(netType, Role(hostid, netid == 10))
    else if hostip & B1100 == B1000 then
      var netid := (hostip & B_NET_MASK) / 0x1_0000;
      var hostid := hostip & B_HOST_MASK;
      if hostid == B_HOST_MASK then IPv4Info(ClassB, Broadcast)
      else
        var isPrivate := netid / 0x100 == B_FIRST_PRIVATE && 16 <= netid % 0x100 <= 31;
        IPv4Info(ClassB, Role(hostid, isPrivate))
    else if hostip & B1110 == B1100 then
      var netid := (hostip & C_NET_MASK) / 0x100;
      var hostid := hostip & C_HOST_MASK;
      if hostid == C_HOST_MASK then IPv4Info(ClassC, Broadcast)
      else
        var isPrivate := netid / 0x1_0000 == C_FIRST_PRIVATE && (netid % 0x1_0000) / 0x100 == 0xa8;
        IPv4Info(ClassC, Role(hostid, isPrivate))
    else
      // the leading-bit tests above cover every address; the code falls
      // through here with hostid 0 and no private flag
      IPv4Info(NetUnknown, Net)
  }

  /** Lines 142-155: a zero host-id names the network, any other a host. */
  function Role(hostid: bv32, isPrivate: bool): AddrType
  {
    if hostid == 0 then (if isPrivate then NetPrivate else Net)
    else (if isPrivate then HostPrivate else Host)
  }

  // ---------------------------------------------------------------------
  // Reference classification by octets

  /** The RFC 1918 private blocks 10/8, 172.16/12 and 192.168/16. */
  predicate IsPrivate(a: bv8, b: bv8)
  {
    a == 10 || (a == 172 && 16 <= b <= 31) || (a == 192 && b == 168)
  }

  /** The classification of `a.b.c.d` stated by octets: class D (224-239) is
      reported as broadcast, class E (240-255) as reserved, network 0 as
      unknown; classes A (1-127, 127 being the loopback network), B
      (128-191) and C (192-223) split net and host after one, two and three
      octets, and an all-ones host part is a directed broadcast. */
  function ReferenceInfo(a: bv8, b: bv8, c: bv8, d: bv8): IPv4Info
  {
    if 224 <= a <= 239 then IPv4Info(NetUnknown, Broadcast)
    else if 240 <= a then IPv4Info(NetUnknown, Reserved)
    else if a == 0 then IPv4Info(NetUnknown, AddrUnknown)
    else
      var netType :=
        if a == 127 then Local
        else if a < 128 then ClassA
        else if a < 192 then ClassB
        else ClassC;
      var hostAllOnes :=
        if a < 128 then b == 0xff && c == 0xff && d == 0xff
        else if a < 192 then c == 0xff && d == 0xff
        else d == 0xff;
      var hostZero :=
        if a < 128 then b == 0 && c == 0 && d == 0
        else if a < 192 then c == 0 && d == 0
        else d == 0;
      var role :=
        if hostAllOnes then Broadcast
        else if hostZero then (if IsPrivate(a, b) then NetPrivate else Net)
        else (if IsPrivate(a, b) then HostPrivate else Host);
      IPv4Info(netType, role)
  }

  // ---------------------------------------------------------------------
  // Properties

  lemma NtohlOfNetworkOrder(a: bv8, b: bv8, c: bv8, d: bv8)
    ensures Ntohl(NetworkOrder(a, b, c, d)) >> 24 == a as bv32
    ensures (Ntohl(NetworkOrder(a, b, c, d)) >> 16) & 0xff == b as bv32
    ensures (Ntohl(NetworkOrder(a, b, c, d)) >> 8) & 0xff == c as bv32
    ensures Ntohl(NetworkOrder(a, b, c, d)) & 0xff == d as bv32
  {
  }

  /** The code's bit arithmetic agrees with the octet-wise classification on
      every address. */
  lemma GetIPv4InfoByOctets(a: bv8, b: bv8, c: bv8, d: bv8)
    ensures GetIPv4Info(NetworkOrder(a, b, c, d)) == ReferenceInfo(a, b, c, d)
  {
    NtohlOfNetworkOrder(a, b, c, d);
  }

  /** Class D and class E blocks, network 0 and the loopback network. */
  lemma SpecialBlocks(a: bv8, b: bv8, c: bv8, d: bv8)
    ensures var r := GetIPv4Info(NetworkOrder(a, b, c, d));
      && (a >> 4 == 0xe ==> r == IPv4Info(NetUnknown, Broadcast))
      && (a >> 4 == 0xf ==> r == IPv4Info(NetUnknown, Reserved))
      && (a == 0 ==> r == IPv4Info(NetUnknown, AddrUnknown))
      && (a == 127 ==> r.netType == Local)
  {
    GetIPv4InfoByOctets(a, b, c, d);
  }

  /** Outside those blocks the leading bits decide the class: 0 gives A,
      10 gives B, 110 gives C. */
  lemma ClassByLeadingBits(a: bv8, b: bv8, c: bv8, d: bv8)
    requires a != 0 && a != 127 && a >> 5 != 7
    ensures var r := GetIPv4Info(NetworkOrder(a, b, c, d));
      && (r.netType == ClassA <==> a >> 7 == 0)
      && (r.netType == ClassB <==> a >> 6 == 2)
      && (r.netType == ClassC <==> a >> 5 == 6)
  {
    GetIPv4InfoByOctets(a, b, c, d);
  }

  /** An all-ones host part is a directed broadcast of its class. */
  lemma DirectedBroadcast(a: bv8, b: bv8, c: bv8)
    ensures 0 < a < 128 ==> GetIPv4Info(NetworkOrder(a, 0xff, 0xff, 0xff))
                            == IPv4Info(if a == 127 then Local else ClassA, Broadcast)
    ensures 128 <= a < 192 ==> GetIPv4Info(NetworkOrder(a, b, 0xff, 0xff)) == IPv4Info(ClassB, Broadcast)
    ensures 192 <= a < 224 ==> GetIPv4Info(NetworkOrder(a, b, c, 0xff)) == IPv4Info(ClassC, Broadcast)
  {
    GetIPv4InfoByOctets(a, 0xff, 0xff, 0xff);
    GetIPv4InfoByOctets(a, b, 0xff, 0xff);
    GetIPv4InfoByOctets(a, b, c, 0xff);
  }

  /** The private roles are reported exactly for the RFC 1918 blocks, and a
      zero host part gives a network role. */
  lemma PrivateAndRole(a: bv8, b: bv8, c: bv8, d: bv8)
    ensures var r := GetIPv4Info(NetworkOrder(a, b, c, d));
      && (r.addrType in {HostPrivate, NetPrivate} <==>
            IsPrivate(a, b) && r.addrType != Broadcast)
      && (r.addrType in {Net, NetPrivate} <==>
            0 < a < 224 && (if a < 128 then b == 0 && c == 0 && d == 0
                            else if a < 192 then c == 0 && d == 0
                            else d == 0))
  {
    GetIPv4InfoByOctets(a, b, c, d);
  }

  /** Concrete addresses. */
  lemma Examples()
    ensures GetIPv4Info(NetworkOrder(10, 0, 0, 1)) == IPv4Info(ClassA, HostPrivate)
    ensures GetIPv4Info(NetworkOrder(8, 8, 8, 8)) == IPv4Info(ClassA, Host)
    ensures GetIPv4Info(NetworkOrder(192, 168, 1, 1)) == IPv4Info(ClassC, HostPrivate)
    ensures GetIPv4Info(NetworkOrder(172, 16, 0, 0)) == IPv4Info(ClassB, NetPrivate)
    ensures GetIPv4Info(NetworkOrder(10, 255, 255, 255)) == IPv4Info(ClassA, Broadcast)
    ensures GetIPv4Info(NetworkOrder(255, 255, 255, 255)) == IPv4Info(NetUnknown, Reserved)
    ensures GetIPv4Info(NetworkOrder(127, 0, 0, 1)) == IPv4Info(Local, Host)
  {
  }
}
