// Socket addresses and their text form (nx_socket.c:159-169, 201-339).
//
// A `struct sockaddr` is modelled by the fields the code touches through
// its `sockaddr_in`/`sockaddr_in6` views.  Network-order 16-bit fields are
// modelled by the number they denote (the value `ntohs` would return);
// addresses are their bytes in network order, as they lie in memory.
//
// The text conversion `inet_pton` is a library call and enters as two
// function parameters, one per family: each either fails or yields the
// four or sixteen address bytes.

module SocketAddress {
  import opened Wire

  const AF_INET: uint16 := 2
  const AF_INET6: uint16 := 10

  type InAddr = s: seq<uint8> | |s| == 4 witness [0, 0, 0, 0]
  type In6Addr = s: seq<uint8> | |s| == 16 witness [0, 0, 0, 0, 0, 0, 0, 0, 0, 0, 0, 0, 0, 0, 0, 0]

  /** A `struct sockaddr` seen through `sockaddr_in` and `sockaddr_in6`, or
      a `struct sockaddr_storage`.  `sin_port` and `sin6_port` share offset
      2, so one `port` field serves both views; `sin_addr` (offset 4) and
      `sin6_addr` (offset 8) occupy disjoint bytes and are two fields. */
  class SockAddr {
    var family: uint16
    var port: uint16
    var inAddr: InAddr
    var in6Addr: In6Addr

    constructor (family: uint16, port: uint16, inAddr: InAddr, in6Addr: In6Addr)
      ensures this.family == family && this.port == port
      ensures this.inAddr == inAddr && this.in6Addr == in6Addr
    {
      this.family := family;
      this.port := port;
      this.inAddr := inAddr;
      this.in6Addr := in6Addr;
    }
  }

  /** `GetAddr`: the address field selected by the family, as the bytes the
      returned pointer designates; `None` stands for NULL. */
  function GetAddr(addr: SockAddr?): (r: Option<seq<uint8>>)
    reads addr
    ensures r.Some? <==> addr != null && (addr.family == AF_INET || addr.family == AF_INET6)
    ensures r.Some? && addr.family == AF_INET ==> r.value == addr.inAddr && |r.value| == 4
    ensures r.Some? && addr.family == AF_INET6 ==> r.value == addr.in6Addr && |r.value| == 16
  {
    if addr == null then None
    else if addr.family == AF_INET then Some(addr.inAddr)
    else if addr.family == AF_INET6 then Some(addr.in6Addr)
    else None
  }

  /** `GetPort`: the port of an IPv4 or IPv6 address, 0 for any other family.
      The code dereferences `addr` without a check. */
  function GetPort(addr: SockAddr): (r: uint16)
    reads addr
    ensures addr.family != AF_INET && addr.family != AF_INET6 ==> r == 0
    ensures addr.family == AF_INET || addr.family == AF_INET6 ==> r == addr.port
  {
    if addr.family == AF_INET then addr.port
    else if addr.family == AF_INET6 then addr.port
    else 0
  }

  /** `CopyStorageToSockaddr(st, sa)`: the family, and for IPv4 and IPv6 the
      address and port, copied from `st` to `sa`; nothing else is written. */
  method CopyStorageToSockaddr(st: SockAddr, sa: SockAddr)
    modifies sa
    ensures sa.family == old(st.family)
    ensures GetAddr(sa) == old(GetAddr(st)) && GetPort(sa) == old(GetPort(st))
    ensures old(st.family) == AF_INET ==>
      sa.inAddr == old(st.inAddr) && sa.port == old(st.port) && sa.in6Addr == old(sa.in6Addr)
    ensures old(st.family) == AF_INET6 ==>
      sa.in6Addr == old(st.in6Addr) && sa.port == old(st.port) && sa.inAddr == old(sa.inAddr)
    ensures old(st.family) != AF_INET && old(st.family) != AF_INET6 ==>
      sa.port == old(sa.port) && sa.inAddr == old(sa.inAddr) && sa.in6Addr == old(sa.in6Addr)
  {
    sa.family := st.family;
    if st.family == AF_INET {
      sa.inAddr := st.inAddr;
      sa.port := st.port;
    } else if sa.family == AF_INET6 {
      sa.in6Addr := st.in6Addr;
      sa.port := st.port;
    }
  }

  /** `CopySockaddrToStorage(sa, st)`: the same copy in the other direction. */
  method CopySockaddrToStorage(sa: SockAddr, st: SockAddr)
    modifies st
    ensures st.family == old(sa.family)
    ensures GetAddr(st) == old(GetAddr(sa)) && GetPort(st) == old(GetPort(sa))
    ensures old(sa.family) == AF_INET ==>
      st.inAddr == old(sa.inAddr) && st.port == old(sa.port) && st.in6Addr == old(st.in6Addr)
    ensures old(sa.family) == AF_INET6 ==>
      st.in6Addr == old(sa.in6Addr) && st.port == old(sa.port) && st.inAddr == old(st.inAddr)
    ensures old(sa.family) != AF_INET && old(sa.family) != AF_INET6 ==>
      st.port == old(st.port) && st.inAddr == old(st.inAddr) && st.in6Addr == old(st.in6Addr)
  {
    st.family := sa.family;
    if sa.family == AF_INET {
      st.inAddr := sa.inAddr;
      st.port := sa.port;
    } else if sa.family == AF_INET6 {
      st.in6Addr := sa.in6Addr;
      st.port := sa.port;
    }
  }

  // ---------------------------------------------------------------------
  // Address family from text

  /** The family the text suggests: none for empty text, IPv6 when it holds
      a colon, IPv4 otherwise.  No validation of the rest. */
  function FamilyOf(text: seq<char>): int
  {
    if text == [] then 0 else if ':' in text then AF_INET6 as int else AF_INET as int
  }

  /** `GetFamily(addr, addrln)`: scans the first `addrln` characters for a
      colon. */
  method GetFamily(addr: array?<char>, addrln: nat) returns (family: int)
    requires addr != null ==> addrln <= addr.Length
    ensures addr == null ==> family == 0
    ensures addr != null ==> family == FamilyOf(addr[..addrln])
  {
    if addr == null || addrln == 0 {
      return 0;
    }
    var i := 0;
    while i < addrln
      invariant 0 <= i <= addrln
      invariant ':' !in addr[..i]
    {
      if addr[i] == ':' {
        assert addr[..addrln][i] == ':';
        return AF_INET6 as int;
      }
      assert addr[..i + 1] == addr[..i] + [addr[i]];
      i := i + 1;
    }
    assert addr[..i] == addr[..addrln];
    return AF_INET as int;
  }

  // ---------------------------------------------------------------------
  // Building a socket address from text

  /** The C string held in a buffer: everything before the first NUL. */
  function CStr(s: seq<char>): (r: seq<char>)
    ensures r <= s && '\0' !in r
    ensures |r| < |s| ==> s[|r|] == '\0'
  {
    if s == [] || s[0] == '\0' then [] else [s[0]] + CStr(s[1..])
  }

  /** `MakeSockaddr(src, addr, addrln, port)`: sets the family from the text,
      converts the text into the family's address field and stores the port.
      Returns -1 for a null output, null text or empty text, -2 when the
      conversion fails (the family has then already been written), 0 on
      success.  The code copies from `addr` before testing it for NULL, so a
      null `addr` is only safe with `addrln == 0`. */
  method MakeSockaddr(src: SockAddr?, addr: array?<char>, addrln: nat, port: uint16,
                      pton4: string -> Option<InAddr>, pton6: string -> Option<In6Addr>)
    returns (r: int)
    requires addr != null ==> addrln <= addr.Length
    requires addr == null ==> addrln == 0
    modifies src
    ensures r == -1 <==> src == null || addr == null || addrln == 0
    ensures r == -1 && src != null ==> unchanged(src)
    ensures r != -1 ==> src.family as int == FamilyOf(addr[..addrln])
    ensures r != -1 && src.family == AF_INET ==>
      var conv := pton4(CStr(addr[..addrln]));
      && (r == 0 <==> conv.Some?)
      && (r == 0 ==> src.inAddr == conv.value && src.port == port)
      && (r != 0 ==> r == -2 && src.inAddr == old(src.inAddr) && src.port == old(src.port))
      && src.in6Addr == old(src.in6Addr)
    ensures r != -1 && src.family == AF_INET6 ==>
      var conv := pton6(CStr(addr[..addrln]));
      && (r == 0 <==> conv.Some?)
      && (r == 0 ==> src.in6Addr == conv.value && src.port == port)
      && (r != 0 ==> r == -2 && src.in6Addr == old(src.in6Addr) && src.port == old(src.port))
      && src.inAddr == old(src.inAddr)
  {
    // the text copied into the zero-filled temporary, as inet_pton reads it
    var tmp := if addr == null then [] else addr[..addrln];
    if src == null || addr == null || addrln == 0 {
      return -1;
    }
    var family := GetFamily(addr, addrln);
    src.family := family as uint16;
    var text := CStr(tmp);
    if src.family == AF_INET {
      match pton4(text)
      case None => return -2;
      case Some(a) => src.inAddr := a;
    } else if src.family == AF_INET6 {
      match pton6(text)
      case None => return -2;
      case Some(a) => src.in6Addr := a;
    } else {
      return -2;
    }
    src.port := port;
    return 0;
  }

  // ---------------------------------------------------------------------
  // Parsing "host:port"

  /** Index of the first colon of `s`, or `|s|` when there is none. */
  function ColonIndex(s: seq<char>): (i: nat)
    ensures i <= |s| && ':' !in s[..i]
    ensures i < |s| ==> s[i] == ':'
  {
    if s == [] || s[0] == ':' then 0
    else
      var i := 1 + ColonIndex(s[1..]);
      assert s[..i] == [s[0]] + s[1..][..i - 1];
      i
  }

  /** Where `StringToSockaddr` ends the host part of a `strsz`-character
      text: at the first colon among all but the last character, otherwise
      before the last character. */
  function HostLength(text: seq<char>): (h: nat)
    requires |text| >= 1
    ensures h <= |text| - 1 && ':' !in text[..h]
    ensures h < |text| - 1 ==> text[h] == ':'
  {
    var h := ColonIndex(text[..|text| - 1]);
    assert text[..h] == text[..|text| - 1][..h];
    h
  }

  /** `StringToSockaddr(str, strsz, addr, addrsz)`: splits `host:port` at
      the first colon, copies the port text into the six-character `sport`
      buffer, and builds the address with `MakeSockaddr`.  Returns 1 on
      success, 0 on failure.  `strsz - 1` at line 331 wraps around for an
      empty text, and line 335 writes `sport[strsz - i - 1]`, out of bounds
      for port text longer than five characters; both are preconditions. */
  method StringToSockaddr(str: array<char>, strsz: nat, addr: SockAddr?, addrsz: nat,
                          pton4: string -> Option<InAddr>, pton6: string -> Option<In6Addr>)
    returns (r: int)
    requires 1 <= strsz <= str.Length
    requires strsz - HostLength(str[..strsz]) - 1 <= 5
    modifies addr
    ensures var h := HostLength(str[..strsz]);
      r == 1 <==> addr != null && h > 0 && pton4(CStr(str[..h])).Some?
    ensures var h := HostLength(str[..strsz]);
      addr != null && h > 0 ==>
        && addr.family == AF_INET
        && addr.in6Addr == old(addr.in6Addr)
        && (r == 1 ==> addr.inAddr == pton4(CStr(str[..h])).value
                       && addr.port == Atoi(str[h + 1..strsz]) % 0x1_0000)
        && (r == 0 ==> addr.inAddr == old(addr.inAddr) && addr.port == old(addr.port))
    ensures addr != null && HostLength(str[..strsz]) == 0 ==> r == 0 && unchanged(addr)
  {
    ghost var text := str[..strsz];
    var i := HostEnd(str, strsz);
    var sport := PortBuffer(str, i + 1, strsz);
    var portNumber := Atoi(sport[..]) % 0x1_0000;
    ghost var portText := str[i + 1..strsz];
    assert i > 0 ==> FamilyOf(str[..i]) == AF_INET as int;
    ghost var host := str[..i];
    var made := MakeSockaddr(addr, str, i, portNumber, pton4, pton6);
    assert str[..i] == host && str[..strsz] == text && str[i + 1..strsz] == portText;
    if made != 0 {
      return 0;
    }
    return 1;
  }

  /** Lines 331-333: the scan for the first colon among the first
      `strsz - 1` characters. */
  method HostEnd(str: array<char>, strsz: nat) returns (i: nat)
    requires 1 <= strsz <= str.Length
    ensures i == HostLength(str[..strsz])
  {
    i := 0;
    while i < strsz - 1
      invariant 0 <= i <= strsz - 1
      invariant ':' !in str[..i]
    {
      if str[i] == ':' {
        break;
      }
      assert str[..i + 1] == str[..i] + [str[i]];
      i := i + 1;
    }
    assert str[..i] == str[..strsz][..i];
  }

  /** Lines 330 and 334-335: the port text `str[from..to]` copied into the
      zero-initialised `char sport[6]` and terminated with a NUL, so that
      `atoi` reads exactly the port text. */
  method PortBuffer(str: array<char>, from: nat, to: nat) returns (sport: array<char>)
    requires from <= to <= str.Length && to - from <= 5
    ensures fresh(sport) && sport.Length == 6
    ensures sport[..to - from] == str[from..to] && sport[to - from] == '\0'
    ensures Atoi(sport[..]) == Atoi(str[from..to])
  {
    var n := to - from;
    sport := new char[6](_ => '\0');
    forall k | 0 <= k < n {
      sport[k] := str[from + k];
    }
    sport[n] := '\0';
    ghost var portText := str[from..to];
    assert sport[..n] == portText by {
      forall k | 0 <= k < n
        ensures sport[..n][k] == portText[k]
      {
      }
    }
    assert sport[..] == portText + ['\0'] + sport[n + 1..] by {
      assert sport[..] == sport[..n] + [sport[n]] + sport[n + 1..];
    }
    AtoiStopsAtNul(portText, sport[n + 1..]);
  }

  // ---------------------------------------------------------------------
  // atoi

  predicate IsSpace(c: char)
  {
    c == ' ' || c == '\t' || c == '\n' || c == '\U{000B}' || c == '\U{000C}' || c == '\r'
  }

  predicate IsDigit(c: char)
  {
    '0' <= c <= '9'
  }

  /** The text after any leading white space. */
  function SkipSpace(s: seq<char>): (r: seq<char>)
    ensures |r| <= |s|
    ensures r != [] ==> !IsSpace(r[0])
  {
    if s != [] && IsSpace(s[0]) then SkipSpace(s[1..]) else s
  }

  /** The longest prefix of decimal digits. */
  function DigitPrefix(s: seq<char>): (r: seq<char>)
    ensures r <= s && forall k | 0 <= k < |r| :: IsDigit(r[k])
    ensures |r| < |s| ==> !IsDigit(s[|r|])
  {
    if s != [] && IsDigit(s[0]) then [s[0]] + DigitPrefix(s[1..]) else []
  }

  /** The value of a string of decimal digits. */
  function DecimalValue(ds: seq<char>): nat
    requires forall k | 0 <= k < |ds| :: IsDigit(ds[k])
  {
    if ds == [] then 0
    else 10 * DecimalValue(ds[..|ds| - 1]) + DigitValue(ds[|ds| - 1])
  }

  function DigitValue(c: char): nat
    requires IsDigit(c)
  {
    c as int - '0' as int
  }

  /** C `atoi`: white space, an optional sign, then the decimal digits that
      follow; anything else (a NUL in particular) ends the number. */
  function Atoi(s: seq<char>): int
  {
    var t := SkipSpace(s);
    if t != [] && t[0] == '-' then 0 - DecimalValue(DigitPrefix(t[1..])) as int
    else if t != [] && t[0] == '+' then DecimalValue(DigitPrefix(t[1..]))
    else DecimalValue(DigitPrefix(t))
  }

  lemma {:induction false} DigitPrefixStopsAtNul(t: seq<char>, rest: seq<char>)
    ensures DigitPrefix(t + ['\0'] + rest) == DigitPrefix(t)
  {
    if t != [] {
      assert (t + ['\0'] + rest)[1..] == t[1..] + ['\0'] + rest;
      DigitPrefixStopsAtNul(t[1..], rest);
    }
  }

  lemma {:induction false} SkipSpaceStopsAtNul(t: seq<char>, rest: seq<char>)
    ensures SkipSpace(t + ['\0'] + rest) == SkipSpace(t) + ['\0'] + rest
  {
    if t != [] {
      assert (t + ['\0'] + rest)[1..] == t[1..] + ['\0'] + rest;
      SkipSpaceStopsAtNul(t[1..], rest);
    }
  }

  /** `atoi` reads a NUL-terminated buffer only up to the NUL. */
  lemma AtoiStopsAtNul(t: seq<char>, rest: seq<char>)
    ensures Atoi(t + ['\0'] + rest) == Atoi(t)
  {
    SkipSpaceStopsAtNul(t, rest);
    var u := SkipSpace(t);
    if u != [] {
      assert (u + ['\0'] + rest)[1..] == u[1..] + ['\0'] + rest;
      DigitPrefixStopsAtNul(u[1..], rest);
    }
    DigitPrefixStopsAtNul(u, rest);
  }

  // ---------------------------------------------------------------------
  // Decimal text of a port, the inverse of atoi on numbers

  /** The decimal text of `n`, without leading zeros. */
  function Decimal(n: nat): (r: seq<char>)
    ensures |r| >= 1 && forall k | 0 <= k < |r| :: IsDigit(r[k])
  {
    var last := ['0' + (n % 10) as char];
    if n < 10 then last else Decimal(n / 10) + last
  }

  lemma {:induction false} DecimalValueOfDecimal(n: nat)
    ensures DecimalValue(Decimal(n)) == n
  {
    if n >= 10 {
      DecimalValueOfDecimal(n / 10);
      assert Decimal(n)[..|Decimal(n)| - 1] == Decimal(n / 10);
    }
  }

  function Pow10(k: nat): nat
  {
    if k == 0 then 1 else 10 * Pow10(k - 1)
  }

  /** A number below 10^k has at most k decimal digits. */
  lemma {:induction false} DecimalLength(n: nat, k: nat)
    requires 1 <= k && n < Pow10(k)
    ensures |Decimal(n)| <= k
  {
    if n >= 10 {
      assert k >= 2;
      DecimalLength(n / 10, k - 1);
    }
  }

  /** `atoi` recovers every number from its decimal text. */
  lemma AtoiOfDecimal(n: nat)
    ensures Atoi(Decimal(n)) == n
  {
    var d := Decimal(n);
    assert SkipSpace(d) == d;
    assert d[0] != '-' && d[0] != '+';
    assert DigitPrefix(d) == d by {
      DigitPrefixAllDigits(d);
    }
    DecimalValueOfDecimal(n);
  }

  lemma {:induction false} DigitPrefixAllDigits(d: seq<char>)
    requires forall k | 0 <= k < |d| :: IsDigit(d[k])
    ensures DigitPrefix(d) == d
  {
    if d != [] {
      DigitPrefixAllDigits(d[1..]);
    }
  }

  /** `StringToSockaddr`'s split of "host:port", for a colon-free non-empty
      host and a port written with at most five digits: the host is passed
      on whole, the port is recovered, the port text meets the buffer bound,
      and the host text names the IPv4 family. */
  lemma SplitHostPort(host: seq<char>, port: nat)
    requires host != [] && ':' !in host && port < 100000
    ensures var text := host + [':'] + Decimal(port);
      && HostLength(text) == |host|
      && text[..|host|] == host
      && Atoi(text[|host| + 1..]) % 0x1_0000 == port % 0x1_0000
      && |text| - HostLength(text) - 1 <= 5
      && FamilyOf(host) == AF_INET as int
  {
    var text := host + [':'] + Decimal(port);
    var h := HostLength(text);
    assert Pow10(5) == 100000;
    DecimalLength(port, 5);
    assert text[|host|] == ':';
    assert text[|host| + 1..] == Decimal(port);
    AtoiOfDecimal(port);
  }

  /** The host part `StringToSockaddr` hands on never holds a colon, so the
      address it builds is always IPv4. */
  lemma HostPartIsIPv4(text: seq<char>)
    requires |text| >= 1 && HostLength(text) > 0
    ensures FamilyOf(text[..HostLength(text)]) == AF_INET as int
  {
  }

  /** "127.0.0.1:5100" splits into host "127.0.0.1" and port 5100. */
  lemma LoopbackExample()
    ensures var text := "127.0.0.1:5100";
      && HostLength(text) == 9
      && text[..HostLength(text)] == "127.0.0.1"
      && Atoi(text[10..]) == 5100
  {
    var text := "127.0.0.1:5100";
    assert Decimal(5) == "5";
    assert Decimal(51) == "51";
    assert Decimal(510) == "510";
    assert Decimal(5100) == "5100";
    SplitHostPort("127.0.0.1", 5100);
    assert text == "127.0.0.1" + [':'] + Decimal(5100);
    assert text[10..] == Decimal(5100);
    AtoiOfDecimal(5100);
  }
}
