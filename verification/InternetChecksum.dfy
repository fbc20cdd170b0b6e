/**
 The Internet checksum as raw_eth_ipv4_udp_tx.c computes it: a long sum of little-endian 16-bit words, folded twice.

 The reference is section 2 of RFC 1071: one's complement addition, in which a carry out of the top bit is added back
 at the bottom, of the big-endian words of the data, an odd byte being padded with a zero byte.
 */
module InternetChecksum {
  import opened Bytes

  type Word = w: int | 0 <= w < 65536

  datatype ByteOrder = LittleEndian | BigEndian

  // ----- the reference -----

  function OnesAdd(a: Word, b: Word): Word {
    if a + b < 65536 then a + b else a + b - 65535
  }

  function OnesSum(words: seq<Word>): Word {
    if words == [] then 0 else OnesAdd(words[0], OnesSum(words[1..]))
  }

  function MakeWord(order: ByteOrder, first: int, second: int): Word
    requires 0 <= first < 256 && 0 <= second < 256
  {
    if order == BigEndian then 256 * first + second else first + 256 * second
  }

  function Words(order: ByteOrder, data: seq<Byte>): seq<Word> {
    if data == [] then [] else if |data| == 1 then [MakeWord(order, data[0], 0)]
    else [MakeWord(order, data[0], data[1])] + Words(order, data[2..])
  }

  // ----- the program -----

  function Sum(order: ByteOrder, data: seq<Byte>): nat {
    if data == [] then 0 else if |data| == 1 then MakeWord(order, data[0], 0)
    else MakeWord(order, data[0], data[1]) + Sum(order, data[2..])
  }

  function FoldTwice(sum: nat): Word {
    var once := sum / 65536 + sum % 65536;
    var twice := once + once / 65536;
    65535 - twice % 65536
  }

  method Checksum(buf: array<Byte>, from: nat, length: nat) returns (check: Word)
    requires from + length <= buf.Length
    ensures check == FoldTwice(Sum(LittleEndian, buf[from..from + length]))
  {
    var p, len, sum := from, length, 0;
    while len > 1
      invariant from <= p && len >= 0 && p + len == from + length
      invariant sum >= 0 && sum + Sum(LittleEndian, buf[p..p + len]) == Sum(LittleEndian, buf[from..from + length])
    {
      assert buf[p..p + len][2..] == buf[p + 2..p + len];
      sum := sum + MakeWord(LittleEndian, buf[p], buf[p + 1]);
      p, len := p + 2, len - 2;
    }
    if len != 0 {
      sum := sum + buf[p];
    }
    check := Fold(sum);
  }

  /** The last three statements of checksum(). */
  method Fold(longSum: nat) returns (check: Word)
    ensures check == FoldTwice(longSum)
  {
    var sum := longSum / 65536 + longSum % 65536;
    sum := sum + sum / 65536;
    check := 65535 - sum % 65536;
  }

  // ----- sums modulo 65535 -----

  /** The representative of `sum` modulo 65535 that one's complement addition produces: 0 only for 0. */
  function Residue(sum: nat): Word {
    if sum < 65536 then sum else Residue(sum - 65535)
  }

  lemma {:induction false} ResidueUnique(sum: nat, q: nat, r: nat)
    requires sum == 65535 * q + r && 1 <= r <= 65535
    ensures Residue(sum) == r
  {
    if q > 0 { ResidueUnique(sum - 65535, q - 1, r); }
  }

  lemma {:induction false} Quotient(sum: nat) returns (q: nat)
    ensures sum == 65535 * q + Residue(sum)
    ensures sum > 0 ==> Residue(sum) > 0
  {
    if sum < 65536 { q := 0; } else { q := Quotient(sum - 65535); q := q + 1; }
  }

  lemma ResidueAdds(a: nat, b: nat)
    ensures OnesAdd(Residue(a), Residue(b)) == Residue(a + b)
  {
    var p := Quotient(a);
    var q := Quotient(b);
    var r := Residue(a) + Residue(b);
    if r >= 65536 {
      ResidueUnique(a + b, p + q + 1, r - 65535);
    } else if r > 0 {
      ResidueUnique(a + b, p + q, r);
    }
  }

  lemma {:induction false} OnesSumIsResidue(order: ByteOrder, data: seq<Byte>)
    ensures OnesSum(Words(order, data)) == Residue(Sum(order, data))
  {
    if |data| >= 2 {
      OnesSumIsResidue(order, data[2..]);
      ResidueAdds(MakeWord(order, data[0], data[1]), Sum(order, data[2..]));
    }
  }

  // ----- two folds are enough, up to an exact length -----

  const FIRST_BAD_SUM := 0x1_0000_0000 + 65535

  lemma FoldsOnce(q: nat, r: nat)
    requires r < 65536 && q + r < 131071
    ensures FoldTwice(65536 * q + r) == 65535 - if q + r < 65536 then q + r else q + r - 65535
  {
    assert (65536 * q + r) / 65536 == q && (65536 * q + r) % 65536 == r;
  }

  lemma TwoFoldsSuffice(sum: nat)
    requires sum < FIRST_BAD_SUM
    ensures FoldTwice(sum) == 65535 - Residue(sum)
  {
    var q, r := sum / 65536, sum % 65536;
    FoldsOnce(q, r);
    if q + r >= 65536 {
      ResidueUnique(sum, q + 1, q + r - 65535);
    } else if q + r > 0 {
      ResidueUnique(sum, q, q + r);
    }
  }

  lemma {:induction false} SumBound(data: seq<Byte>)
    ensures Sum(LittleEndian, data) <= 65535 * ((|data| + 1) / 2)
  {
    if |data| >= 2 { SumBound(data[2..]); }
  }

  const MAX_EXACT_LENGTH := 131076

  lemma SumBelowBad(data: seq<Byte>)
    requires |data| <= MAX_EXACT_LENGTH
    ensures Sum(LittleEndian, data) < FIRST_BAD_SUM
  {
    SumBound(data);
  }

  /** For data of up to 131076 bytes, odd lengths included, the program computes the complement of the one's complement sum. */
  lemma ChecksumIsComplement(data: seq<Byte>)
    requires |data| <= MAX_EXACT_LENGTH
    ensures FoldTwice(Sum(LittleEndian, data)) == 65535 - OnesSum(Words(LittleEndian, data))
  {
    SumBelowBad(data);
    OnesSumIsResidue(LittleEndian, data);
    TwoFoldsSuffice(Sum(LittleEndian, data));
  }

  function Repeat(b: Byte, n: nat): seq<Byte> {
    seq(n, i => b)
  }

  lemma {:induction false} SumRepeat(n: nat)
    ensures Sum(LittleEndian, Repeat(255, 2 * n)) == 65535 * n
  {
    if n > 0 {
      SumRepeat(n - 1);
      assert Repeat(255, 2 * n)[2..] == Repeat(255, 2 * (n - 1));
    }
  }

  lemma {:induction false} SumZeroes(n: nat)
    ensures Sum(LittleEndian, Repeat(0, n)) == 0
  {
    if n >= 2 {
      SumZeroes(n - 2);
      assert Repeat(0, n)[2..] == Repeat(0, n - 2);
    }
  }

  lemma SumOneThenZeroes(n: nat)
    ensures Sum(LittleEndian, [1] + Repeat(0, n)) == 1
  {
    if n > 0 {
      assert ([1] + Repeat(0, n))[2..] == Repeat(0, n - 1);
      SumZeroes(n - 1);
    }
  }

  lemma {:induction false} SumSplits(a: seq<Byte>, b: seq<Byte>)
    requires |a| % 2 == 0
    ensures Sum(LittleEndian, a + b) == Sum(LittleEndian, a) + Sum(LittleEndian, b)
  {
    if a == [] {
      assert a + b == b;
    } else {
      assert (a + b)[2..] == a[2..] + b;
      SumSplits(a[2..], b);
    }
  }

  /** The bound is exact: for every greater length there is data on which the two folds lose a carry. */
  lemma ChecksumGoesWrong(length: nat) returns (data: seq<Byte>)
    requires length > MAX_EXACT_LENGTH
    ensures |data| == length
    ensures FoldTwice(Sum(LittleEndian, data)) != 65535 - OnesSum(Words(LittleEndian, data))
  {
    var ones, tail := Repeat(255, MAX_EXACT_LENGTH), [1] + Repeat(0, length - MAX_EXACT_LENGTH - 1);
    data := ones + tail;
    SumSplits(ones, tail);
    SumRepeat(65538);
    SumOneThenZeroes(length - MAX_EXACT_LENGTH - 1);
    assert Sum(LittleEndian, data) == FIRST_BAD_SUM;
    OnesSumIsResidue(LittleEndian, data);
    ResidueUnique(FIRST_BAD_SUM, 65538, 1);
  }

  // ----- the laws of RFC 1071 -----

  /** Even-length pieces may be summed separately and in any order. */
  lemma Pieces(a: seq<Byte>, b: seq<Byte>)
    requires |a| % 2 == 0 && |b| % 2 == 0
    ensures OnesSum(Words(LittleEndian, a + b)) == OnesAdd(OnesSum(Words(LittleEndian, a)), OnesSum(Words(LittleEndian, b)))
    ensures OnesSum(Words(LittleEndian, a + b)) == OnesSum(Words(LittleEndian, b + a))
  {
    SumSplits(a, b);
    SumSplits(b, a);
    OnesSumIsResidue(LittleEndian, a);
    OnesSumIsResidue(LittleEndian, b);
    OnesSumIsResidue(LittleEndian, a + b);
    OnesSumIsResidue(LittleEndian, b + a);
    ResidueAdds(Sum(LittleEndian, a), Sum(LittleEndian, b));
  }

  /** The one's complement sum is zero only for data that is all zero. */
  lemma ZeroOnlyForZeroes(data: seq<Byte>)
    ensures OnesSum(Words(LittleEndian, data)) == 0 <==> forall i :: 0 <= i < |data| ==> data[i] == 0
  {
    OnesSumIsResidue(LittleEndian, data);
    var q := Quotient(Sum(LittleEndian, data));
    ZeroSum(data);
  }

  lemma {:induction false} ZeroSum(data: seq<Byte>)
    ensures Sum(LittleEndian, data) == 0 <==> forall i :: 0 <= i < |data| ==> data[i] == 0
  {
    if |data| >= 2 {
      ZeroSum(data[2..]);
      assert data == [data[0], data[1]] + data[2..];
    }
  }

  function Swap(w: Word): Word {
    256 * (w % 256) + w / 256
  }

  /** Reading the data in the other byte order multiplies the sum by 256, up to multiples of 65535. */
  lemma {:induction false} SumOtherOrder(data: seq<Byte>) returns (h: nat)
    ensures Sum(BigEndian, data) + 65535 * h == 256 * Sum(LittleEndian, data)
    ensures Sum(BigEndian, data) == 0 <==> Sum(LittleEndian, data) == 0
  {
    h := 0;
    if |data| >= 2 {
      h := SumOtherOrder(data[2..]);
      h := h + data[1];
    }
  }

  lemma SumInNetworkOrder(data: seq<Byte>)
    ensures OnesSum(Words(BigEndian, data)) == Swap(OnesSum(Words(LittleEndian, data)))
  {
    var host, net := Sum(LittleEndian, data), Sum(BigEndian, data);
    var h := SumOtherOrder(data);
    OnesSumIsResidue(LittleEndian, data);
    OnesSumIsResidue(BigEndian, data);
    if host > 0 {
      var q := Quotient(host);
      SwapByMultiplying(host, net, q, Residue(host), h);
    }
  }

  lemma SwapByMultiplying(host: nat, net: nat, q: nat, r: nat, h: nat)
    requires 1 <= r < 65536 && net > 0 && host == 65535 * q + r && net + 65535 * h == 256 * host
    ensures Residue(net) == Swap(r)
  {
    var hi, lo := r / 256, r % 256;
    assert r == 256 * hi + lo;
    assert net == 65535 * (256 * q + hi - h) + (256 * lo + hi);
    assert 256 * q + hi - h >= 0;
    ResidueUnique(net, 256 * q + hi - h, 256 * lo + hi);
  }

  /** The two bytes of a word as a little-endian host stores it. */
  function Stored(w: Word): seq<Byte> {
    [w % 256, w / 256]
  }

  lemma StoredIsSwapped(w: Word)
    ensures Words(BigEndian, Stored(w)) == [Swap(w)] && Sum(LittleEndian, Stored(w)) == w
  {
    assert Stored(w)[2..] == [];
  }

  lemma StoredComplement(w: Word)
    ensures Words(BigEndian, Stored(65535 - w)) == [65535 - Swap(w)]
  {
    StoredIsSwapped(65535 - w);
    assert (65535 - w) / 256 == 255 - w / 256;
  }

  /** The program may store its result without htons(): the bytes are the ones RFC 1071 asks for. */
  lemma StoredInNetworkOrder(data: seq<Byte>, check: Word)
    requires |data| <= MAX_EXACT_LENGTH && check == FoldTwice(Sum(LittleEndian, data))
    ensures Words(BigEndian, Stored(check)) == [65535 - OnesSum(Words(BigEndian, data))]
  {
    ChecksumIsComplement(data);
    ComplementInNetworkOrder(data);
  }

  lemma ComplementInNetworkOrder(data: seq<Byte>)
    ensures Words(BigEndian, Stored(65535 - OnesSum(Words(LittleEndian, data)))) == [65535 - OnesSum(Words(BigEndian, data))]
  {
    SumInNetworkOrder(data);
    StoredComplement(OnesSum(Words(LittleEndian, data)));
  }

  /** `data` with the bytes from `at` on replaced. */
  function Patch(data: seq<Byte>, at: nat, bytes: seq<Byte>): (r: seq<Byte>)
    requires at + |bytes| <= |data|
    ensures |r| == |data|
  {
    data[..at] + bytes + data[at + |bytes|..]
  }

  lemma SumAround(a: seq<Byte>, w: Word, b: seq<Byte>)
    requires |a| % 2 == 0
    ensures Sum(LittleEndian, a + (Stored(w) + b)) == Sum(LittleEndian, a) + w + Sum(LittleEndian, b)
  {
    SumSplits(a, Stored(w) + b);
    SumSplits(Stored(w), b);
    StoredIsSwapped(w);
  }

  lemma PatchInTwo(data: seq<Byte>, at: nat, bytes: seq<Byte>)
    requires at + |bytes| <= |data|
    ensures Patch(data, at, bytes) == data[..at] + (bytes + data[at + |bytes|..])
  {
  }

  lemma PatchWithSame(data: seq<Byte>, at: nat)
    requires at + 2 <= |data| && data[at] == 0 && data[at + 1] == 0
    ensures Patch(data, at, Stored(0)) == data
  {
    assert Stored(0) == [0, 0] == data[at..at + 2];
  }

  lemma SumPatch(data: seq<Byte>, at: nat, w: Word)
    requires at % 2 == 0 && at + 2 <= |data|
    ensures Sum(LittleEndian, Patch(data, at, Stored(w))) == Sum(LittleEndian, data[..at]) + w + Sum(LittleEndian, data[at + 2..])
  {
    PatchInTwo(data, at, Stored(w));
    SumAround(data[..at], w, data[at + 2..]);
  }

  lemma PatchAdds(data: seq<Byte>, at: nat, w: Word)
    requires at % 2 == 0 && at + 2 <= |data| && data[at] == 0 && data[at + 1] == 0
    ensures Sum(LittleEndian, Patch(data, at, Stored(w))) == Sum(LittleEndian, data) + w
  {
    SumPatch(data, at, w);
    SumPatch(data, at, 0);
    PatchWithSame(data, at);
  }

  lemma CheckCompletes(sum: nat, check: Word, total: nat)
    requires sum < FIRST_BAD_SUM && check == 65535 - Residue(sum) && total == sum + check < FIRST_BAD_SUM
    ensures FoldTwice(total) == 0
  {
    var q := Quotient(sum);
    TwoFoldsSuffice(total);
    ResidueUnique(total, q, 65535);
  }

  /** A receiver's check: with the checksum stored into its zeroed field, the checksum of the whole is zero. */
  lemma VerifiesToZero(data: seq<Byte>, at: nat, check: Word)
    requires |data| <= MAX_EXACT_LENGTH && at % 2 == 0 && at + 2 <= |data| && data[at] == 0 && data[at + 1] == 0
    requires check == FoldTwice(Sum(LittleEndian, data))
    ensures FoldTwice(Sum(LittleEndian, Patch(data, at, Stored(check)))) == 0
  {
    var sum := Sum(LittleEndian, data);
    SumBelowBad(data);
    assert check == 65535 - Residue(sum) by { TwoFoldsSuffice(sum); }
    Completed(data, at, check);
  }

  lemma Completed(data: seq<Byte>, at: nat, check: Word)
    requires |data| <= MAX_EXACT_LENGTH && at % 2 == 0 && at + 2 <= |data| && data[at] == 0 && data[at + 1] == 0
    requires check == 65535 - Residue(Sum(LittleEndian, data))
    ensures FoldTwice(Sum(LittleEndian, Patch(data, at, Stored(check)))) == 0
  {
    SumBelowBad(data);
    SumBelowBad(Patch(data, at, Stored(check)));
    PatchAdds(data, at, check);
    CheckCompletes(Sum(LittleEndian, data), check, Sum(LittleEndian, Patch(data, at, Stored(check))));
  }
}
