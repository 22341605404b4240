// The Internet checksum of RFC 1071 as `InetCSum` computes it
// (nx_socket.c:352-376): a plain sum of 16-bit words in a wide accumulator,
// two end-around-carry folds, then the bitwise complement.
//
// The reference definition below follows RFC 1071 section 1 word by word
// (ones'-complement addition with end-around carry); the lemmas show that
// the code's sum-then-fold computes it, that a buffer carrying its own
// checksum sums to zero, and that summing in the host's byte order yields
// the same bytes in memory (RFC 1071 section 2(B)).

module InetChecksum {
  import opened Wire

  /** Longest buffer for which the code's two folds absorb every carry:
      65537 words of 0xFFFF still sum to less than 2^32. */
  const MAX_CHECKSUM_BYTES: nat := 2 * 65537

  /** The buffer as 16-bit words in network order; an odd final byte is the
      high byte of a word whose low byte is zero. */
  function Words(data: seq<uint8>): (ws: seq<uint16>)
    ensures |ws| == (|data| + 1) / 2
  {
    if |data| == 0 then []
    else if |data| == 1 then [Word(data[0], 0)]
    else [Word(data[0], data[1])] + Words(data[2..])
  }

  /** The buffer as 16-bit words in the order a little-endian host loads
      them through an `unsigned short *`; an odd final byte lands in the low
      byte of a zero-padded word. */
  function HostWords(data: seq<uint8>): (ws: seq<uint16>)
    ensures |ws| == (|data| + 1) / 2
  {
    if |data| == 0 then []
    else if |data| == 1 then [Word(0, data[0])]
    else [Word(data[1], data[0])] + HostWords(data[2..])
  }

  /** Plain (unbounded) sum, the code's `long sum` accumulator. */
  function Sum(ws: seq<uint16>): nat
  {
    if ws == [] then 0 else ws[0] + Sum(ws[1..])
  }

  /** Ones'-complement addition of two 16-bit words: a carry out of bit 15
      is added back into bit 0. */
  function OnesAdd(x: uint16, y: uint16): uint16
  {
    if x + y >= 0x1_0000 then x + y - 0xFFFF else x + y
  }

  /** Ones'-complement sum of a sequence of words. */
  function OnesSum(ws: seq<uint16>): uint16
  {
    if ws == [] then 0 else OnesAdd(ws[0], OnesSum(ws[1..]))
  }

  /** The Internet checksum of RFC 1071: the complement of the
      ones'-complement sum of the buffer's words. */
  function Checksum(data: seq<uint8>): uint16
  {
    0xFFFF - OnesSum(Words(data))
  }

  /** What lines 371-373 do to the accumulated sum: fold bits 16 and up
      into the low half, fold once more, complement, keep 16 bits. */
  function FoldAndComplement(sum: nat): uint16
  {
    var s1 := sum / 0x1_0000 + sum % 0x1_0000;
    var s2 := s1 + s1 / 0x1_0000;
    0xFFFF - s2 % 0x1_0000
  }

  /** The value in 0..0xFFFF that ones'-complement arithmetic assigns to a
      plain sum: congruent to it modulo 0xFFFF, and zero only for zero. */
  function Residue(s: nat): uint16
  {
    if s == 0 then 0 else (s - 1) % 0xFFFF + 1
  }

  /** `InetCSum(ptr, nbytes)`: sums `nbytes` bytes of `ptr` two at a time
      as the host loads them, adds an odd trailing byte, folds and
      complements.  The result is the host-order `unsigned short` the code
      returns, for every `nbytes`; for every buffer whose sum stays below
      2^32, the two bytes it occupies in memory are the RFC 1071 checksum. */
  method InetCSum(ptr: array<uint8>, nbytes: int) returns (answer: uint16)
    requires nbytes <= ptr.Length
    ensures nbytes <= 0 ==> answer == 0xFFFF
    ensures nbytes > 0 ==> answer == FoldAndComplement(Sum(HostWords(ptr[..nbytes])))
    ensures 0 < nbytes <= MAX_CHECKSUM_BYTES ==> LE16(answer) == BE16(Checksum(ptr[..nbytes]))
  {
    var sum := SumWords(ptr, nbytes);
    if 0 < nbytes <= MAX_CHECKSUM_BYTES {
      HostOrderCSum(ptr[..nbytes]);
    }
    answer := FoldAndComplement(sum);
  }

  /** Lines 356-369: the `long sum` accumulated over the words the
      little-endian host loads from the first `nbytes` bytes through
      `unsigned short *`, an odd trailing byte becoming the low byte of a
      zero-padded word. */
  method SumWords(ptr: array<uint8>, nbytes: int) returns (sum: nat)
    requires nbytes <= ptr.Length
    ensures nbytes <= 0 ==> sum == 0
    ensures nbytes > 0 ==> sum == Sum(HostWords(ptr[..nbytes]))
  {
    sum := 0;
    var i := 0;
    var left := nbytes;
    ghost var words := 0;
    while left > 1
      invariant i == 2 * words && left == nbytes - i
      invariant i == 0 || 0 <= left
      invariant sum == Sum(HostWords(ptr[..i]))
    {
      HostWordsStep(ptr[..], words);
      sum := sum + Word(ptr[i + 1], ptr[i]);
      i := i + 2;
      left := left - 2;
      words := words + 1;
    }
    if left == 1 {
      HostWordsOddTail(ptr[..], words);
      sum := sum + Word(0, ptr[i]);
      i := i + 1;
    }
  }

  // ---------------------------------------------------------------------
  // Words and sums over concatenations

  lemma {:induction false} WordsAppend(a: seq<uint8>, b: seq<uint8>)
    requires |a| % 2 == 0
    ensures Words(a + b) == Words(a) + Words(b)
  {
    if |a| > 0 {
      assert (a + b)[2..] == a[2..] + b;
      WordsAppend(a[2..], b);
    } else {
      assert a + b == b;
    }
  }

  lemma {:induction false} SumAppend(v: seq<uint16>, w: seq<uint16>)
    ensures Sum(v + w) == Sum(v) + Sum(w)
  {
    if v != [] {
      assert (v + w)[1..] == v[1..] + w;
      SumAppend(v[1..], w);
    } else {
      assert v + w == w;
    }
  }

  lemma {:induction false} HostWordsAppend(a: seq<uint8>, b: seq<uint8>)
    requires |a| % 2 == 0
    ensures HostWords(a + b) == HostWords(a) + HostWords(b)
  {
    if |a| > 0 {
      assert (a + b)[2..] == a[2..] + b;
      HostWordsAppend(a[2..], b);
    } else {
      assert a + b == b;
    }
  }

  /** Extending an even-length prefix by one whole word adds that word, as
      the host loads it. */
  lemma HostWordsStep(a: seq<uint8>, words: nat)
    requires 2 * words + 2 <= |a|
    ensures var i := 2 * words;
      Sum(HostWords(a[..i + 2])) == Sum(HostWords(a[..i])) + Word(a[i + 1], a[i])
  {
    var i := 2 * words;
    var data := a[..i + 2];
    assert data[..i] == a[..i];
    assert data == data[..i] + data[i..];
    HostWordsAppend(data[..i], data[i..]);
    SumAppend(HostWords(data[..i]), HostWords(data[i..]));
  }

  /** An odd final byte adds a zero-padded word whose low byte it is. */
  lemma HostWordsOddTail(a: seq<uint8>, words: nat)
    requires 2 * words + 1 <= |a|
    ensures var i := 2 * words;
      Sum(HostWords(a[..i + 1])) == Sum(HostWords(a[..i])) + Word(0, a[i])
  {
    var i := 2 * words;
    var data := a[..i + 1];
    assert data[..i] == a[..i];
    assert data == data[..i] + data[i..];
    HostWordsAppend(data[..i], data[i..]);
    SumAppend(HostWords(data[..i]), HostWords(data[i..]));
  }

  lemma {:induction false} SumBound(ws: seq<uint16>)
    ensures Sum(ws) <= |ws| * 0xFFFF
  {
    if ws != [] {
      SumBound(ws[1..]);
    }
  }

  // ---------------------------------------------------------------------
  // Ones'-complement arithmetic

  /** A positive sum has exactly one ones'-complement value in 1..0xFFFF. */
  lemma ResidueUnique(s: nat, x: int)
    requires s > 0 && 1 <= x <= 0xFFFF && (s - x) % 0xFFFF == 0
    ensures Residue(s) == x
  {
    var k := (s - x) / 0xFFFF;
    assert s - 1 == (x - 1) + 0xFFFF * k;
  }

  lemma ResidueCongruent(s: nat)
    ensures (s - Residue(s)) % 0xFFFF == 0
  {
    if s > 0 {
      var q := (s - 1) / 0xFFFF;
      assert s - 1 == 0xFFFF * q + (s - 1) % 0xFFFF;
    }
  }

  /** Adding words one at a time with end-around carry gives the residue of
      their plain sum. */
  lemma {:induction false} OnesSumIsResidue(ws: seq<uint16>)
    ensures OnesSum(ws) == Residue(Sum(ws))
  {
    if ws != [] {
      var rest := Sum(ws[1..]);
      OnesSumIsResidue(ws[1..]);
      ResidueCongruent(rest);
      var r := OnesSum(ws);
      if Sum(ws) > 0 {
        assert 1 <= r;
        ResidueUnique(Sum(ws), r);
      }
    }
  }

  /** The code's two folds give the ones'-complement value of any sum below
      2^32. */
  lemma FoldsGiveResidue(s: nat)
    requires s < 0x1_0000_0000
    ensures FoldAndComplement(s) == 0xFFFF - Residue(s)
  {
    var q, r := s / 0x1_0000, s % 0x1_0000;
    assert s == 0x1_0000 * q + r;
    var s1 := q + r;
    assert s1 <= 0xFFFF + 0xFFFF;
    assert s - s1 == 0xFFFF * q;
    var f := (s1 + s1 / 0x1_0000) % 0x1_0000;
    if s1 < 0x1_0000 {
      assert f == s1;
    } else {
      assert f == s1 - 0xFFFF;
    }
    if s > 0 {
      ResidueUnique(s, f);
    }
  }

  /** For every buffer the code may safely checksum, its sum-then-fold
      arithmetic computes the RFC 1071 checksum. */
  lemma FoldedSumIsChecksum(data: seq<uint8>)
    requires |data| <= MAX_CHECKSUM_BYTES
    ensures FoldAndComplement(Sum(Words(data))) == Checksum(data)
  {
    var ws := Words(data);
    SumBound(ws);
    assert |ws| <= 65537;
    assert |ws| * 0xFFFF <= 65537 * 0xFFFF;
    FoldsGiveResidue(Sum(ws));
    OnesSumIsResidue(ws);
  }

  // ---------------------------------------------------------------------
  // Properties of the checksum

  lemma {:induction false} ZeroBytesSumToZero(data: seq<uint8>)
    requires forall i | 0 <= i < |data| :: data[i] == 0
    ensures Sum(Words(data)) == 0
  {
    if |data| >= 2 {
      ZeroBytesSumToZero(data[2..]);
    }
  }

  /** An empty or all-zero buffer has checksum 0xFFFF. */
  lemma ChecksumOfZeros(data: seq<uint8>)
    requires forall i | 0 <= i < |data| :: data[i] == 0
    ensures Checksum(data) == 0xFFFF
  {
    ZeroBytesSumToZero(data);
    OnesSumIsResidue(Words(data));
  }

  /** A receiver's check: when the checksum of a buffer whose checksum field
      (at an even offset) was zero is written into that field in network
      order, the checksum of the result is zero. */
  lemma ChecksumVerifies(front: seq<uint8>, back: seq<uint8>)
    requires |front| % 2 == 0
    ensures Checksum(front + BE16(Checksum(front + [0, 0] + back)) + back) == 0
  {
    var zeroed := front + [0, 0] + back;
    var c := Checksum(zeroed);
    var filled := front + BE16(c) + back;
    SplitAtField(front, [0, 0], back);
    SplitAtField(front, BE16(c), back);
    CheckedSum(zeroed, filled);
  }

  /** A buffer whose plain sum exceeds another's by that other's checksum
      has checksum zero. */
  lemma CheckedSum(zeroed: seq<uint8>, filled: seq<uint8>)
    requires Sum(Words(filled)) == Sum(Words(zeroed)) + Checksum(zeroed)
    ensures Checksum(filled) == 0
  {
    ChecksumIsResidue(zeroed);
    ChecksumIsResidue(filled);
    ComplementCancels(Sum(Words(zeroed)), Sum(Words(filled)));
  }

  /** The checksum is the complement of the residue of the plain sum. */
  lemma ChecksumIsResidue(data: seq<uint8>)
    ensures Checksum(data) == 0xFFFF - Residue(Sum(Words(data)))
  {
    OnesSumIsResidue(Words(data));
  }

  /** Adding the complement of a sum's residue gives a sum whose residue is
      0xFFFF (negative zero). */
  lemma ComplementCancels(s: nat, t: nat)
    requires t == s + (0xFFFF - Residue(s))
    ensures Residue(t) == 0xFFFF
  {
    ResidueCongruent(s);
    ResidueUnique(t, 0xFFFF);
  }

  lemma SplitAtField(front: seq<uint8>, field: seq<uint8>, back: seq<uint8>)
    requires |front| % 2 == 0 && |field| == 2
    ensures Sum(Words(front + field + back))
         == Sum(Words(front)) + Word(field[0], field[1]) + Sum(Words(back))
  {
    WordsAppend(front, field + back);
    assert front + field + back == front + (field + back);
    WordsAppend(field, back);
    assert Words(field) == [Word(field[0], field[1])];
    SumAppend(Words(front), Words(field + back));
    SumAppend(Words(field), Words(back));
  }

  // ---------------------------------------------------------------------
  // Byte-order independence (RFC 1071 section 2(B))

  lemma {:induction false} HostWordsSwapped(data: seq<uint8>)
    ensures forall k | 0 <= k < |HostWords(data)| :: HostWords(data)[k] == Swap16(Words(data)[k])
  {
    if |data| == 1 {
      SwapOfWord(data[0], 0);
    } else if |data| >= 2 {
      HostWordsSwapped(data[2..]);
      SwapOfWord(data[0], data[1]);
      forall k | 0 <= k < |HostWords(data)|
        ensures HostWords(data)[k] == Swap16(Words(data)[k])
      {
        if k > 0 {
          assert HostWords(data)[k] == HostWords(data[2..])[k - 1];
          assert Words(data)[k] == Words(data[2..])[k - 1];
        }
      }
    }
  }

  /** Exchanging the bytes of a word built from two bytes. */
  lemma SwapOfWord(hi: uint8, lo: uint8)
    ensures Swap16(Word(hi, lo)) == Word(lo, hi)
  {
    var x := Word(hi, lo);
    assert x / 0x100 == hi && x % 0x100 == lo;
  }

  /** Sum of the high bytes of the words: what byte swapping takes out of
      0x100 times the sum, in multiples of 0xFFFF. */
  function HighBytes(ws: seq<uint16>): nat
  {
    if ws == [] then 0 else ws[0] / 0x100 + HighBytes(ws[1..])
  }

  lemma SwapWord(x: uint16)
    ensures Swap16(x) + 0xFFFF * (x / 0x100) == 0x100 * x
    ensures Swap16(x) == 0 <==> x == 0
  {
    assert x == 0x100 * (x / 0x100) + x % 0x100;
  }

  /** Summing byte-swapped words gives 0x100 times the sum, less a multiple
      of 0xFFFF, and a zero sum exactly when the words summed to zero. */
  lemma {:induction false} SwappedSum(v: seq<uint16>, w: seq<uint16>)
    requires |v| == |w|
    requires forall k | 0 <= k < |v| :: v[k] == Swap16(w[k])
    ensures Sum(v) + 0xFFFF * HighBytes(w) == 0x100 * Sum(w)
    ensures Sum(v) == 0 <==> Sum(w) == 0
  {
    if v != [] {
      assert forall k | 0 <= k < |v[1..]| :: v[1..][k] == Swap16(w[1..][k]);
      SwappedSum(v[1..], w[1..]);
      SwapWord(w[0]);
    }
  }

  /** Complementing commutes with swapping the bytes. */
  lemma SwapComplement(r: uint16)
    ensures Swap16(0xFFFF - r) == 0xFFFF - Swap16(r)
  {
    var c := 0xFFFF - r;
    assert r == 0x100 * (r / 0x100) + r % 0x100;
    assert c / 0x100 == 0xFF - r / 0x100 && c % 0x100 == 0xFF - r % 0x100;
  }

  /** Ones'-complement summing of host-order words gives the byte-swapped
      network-order sum. */
  lemma HostOnesSum(data: seq<uint8>)
    ensures OnesSum(HostWords(data)) == Swap16(OnesSum(Words(data)))
  {
    var w, v := Words(data), HostWords(data);
    HostWordsSwapped(data);
    SwappedSum(v, w);
    OnesSumIsResidue(w);
    OnesSumIsResidue(v);
    ResidueOfSwapped(Sum(v), Sum(w), HighBytes(w));
  }

  /** A sum of swapped words has the swapped ones'-complement value. */
  lemma ResidueOfSwapped(sv: nat, sw: nat, hb: nat)
    requires sv + 0xFFFF * hb == 0x100 * sw
    requires sv == 0 <==> sw == 0
    ensures Residue(sv) == Swap16(Residue(sw))
  {
    if sw > 0 {
      var r := Residue(sw);
      ResidueCongruent(sw);
      SwapWord(r);
      SwapKeepsCongruence(sv, sw, hb, r, Swap16(r), r / 0x100);
      ResidueUnique(sv, Swap16(r));
    }
  }

  /** The arithmetic step of `HostOnesSum`, over plain integers. */
  lemma SwapKeepsCongruence(sv: int, sw: int, hb: int, r: int, sr: int, hr: int)
    requires sv + 0xFFFF * hb == 0x100 * sw && sr + 0xFFFF * hr == 0x100 * r
    requires (sw - r) % 0xFFFF == 0
    ensures (sv - sr) % 0xFFFF == 0
  {
    var k := (sw - r) / 0xFFFF;
    assert sw - r == 0xFFFF * k;
    assert sv - sr == 0xFFFF * (0x100 * k - hb + hr);
  }

  /** The end-around-carry sum of the host-order words, complemented and
      stored as a host-order `unsigned short`, leaves in memory the two
      bytes of the network-order checksum of RFC 1071. */
  lemma HostOrderChecksum(data: seq<uint8>)
    ensures LE16(0xFFFF - OnesSum(HostWords(data))) == BE16(Checksum(data))
  {
    HostOnesSum(data);
    SwapComplement(OnesSum(Words(data)));
  }

  /** What the code computes: the plain `long` sum of the host-order words
      it reads through `unsigned short *`, two folds and the complement.
      For every buffer it may safely checksum, the two bytes this value
      occupies in memory are the network-order checksum of RFC 1071. */
  lemma HostOrderCSum(data: seq<uint8>)
    requires |data| <= MAX_CHECKSUM_BYTES
    ensures LE16(FoldAndComplement(Sum(HostWords(data)))) == BE16(Checksum(data))
  {
    StoredChecksum(data, FoldAndComplement(Sum(HostWords(data))), Checksum(data));
  }

  /** The same, with the stored value and the checksum as plain variables. */
  lemma StoredChecksum(data: seq<uint8>, stored: uint16, check: uint16)
    requires |data| <= MAX_CHECKSUM_BYTES
    requires stored == FoldAndComplement(Sum(HostWords(data))) && check == Checksum(data)
    ensures LE16(stored) == BE16(check)
  {
    HostFolded(data);
    HostOrderChecksum(data);
  }

  /** The code's folds of the host-order sum give the complemented
      end-around-carry sum of the host-order words. */
  lemma HostFolded(data: seq<uint8>)
    requires |data| <= MAX_CHECKSUM_BYTES
    ensures FoldAndComplement(Sum(HostWords(data))) == 0xFFFF - OnesSum(HostWords(data))
  {
    assert |HostWords(data)| <= 65537;
    FoldedOnesSum(HostWords(data));
  }

  /** Up to 65537 words, two folds and the complement of the plain sum give
      the complement of the end-around-carry sum. */
  lemma FoldedOnesSum(ws: seq<uint16>)
    requires |ws| <= 65537
    ensures FoldAndComplement(Sum(ws)) == 0xFFFF - OnesSum(ws)
  {
    SumBound(ws);
    assert |ws| * 0xFFFF <= 65537 * 0xFFFF;
    FoldsGiveResidue(Sum(ws));
    OnesSumIsResidue(ws);
  }
}
