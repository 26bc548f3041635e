/** The checksum loop of ping.c, the two packers that use it and the receiver that recomputes it.
    `le` says whether the host loads 16-bit words little-endian; every result holds for both. */
module IcmpChecksum {
  import opened MachineInts
  import opened OnesComplement

  const ICMP_ECHO := 8
  const IP_DF := 0x4000

  function Word(le: bool, b0: byte, b1: byte): (w: uint16) {
    if le then b0 + 0x100 * b1 else 0x100 * b0 + b1
  }

  function HighPlaced(b: byte): uint16 { b as int * 0x100 }

  /** Consecutive byte pairs as words. An odd last byte is followed by a zero byte or, with
      `tailHigh`, put in the high half of its word. */
  function Pairs(le: bool, data: seq<byte>, tailHigh: bool): (ws: seq<uint16>)
    ensures |data| <= 2 * |ws| <= |data| + 1
  {
    if |data| == 0 then []
    else if |data| == 1 then [if tailHigh then HighPlaced(data[0]) else Word(le, data[0], 0)]
    else [Word(le, data[0], data[1])] + Pairs(le, data[2..], tailHigh)
  }

  lemma {:induction false} PairsAt(le: bool, data: seq<byte>, tailHigh: bool, i: nat)
    requires 2 * i < |data|
    ensures i < |Pairs(le, data, tailHigh)|
    ensures Pairs(le, data, tailHigh)[i] ==
      if 2 * i + 1 < |data| then Word(le, data[2 * i], data[2 * i + 1])
      else if tailHigh then HighPlaced(data[2 * i]) else Word(le, data[2 * i], 0)
  {
    hide Word, HighPlaced, Pairs;
    if i == 0 {
      FirstPair(le, data, tailHigh);
    } else {
      PairsTail(le, data, tailHigh);
      PairsAt(le, data[2..], tailHigh, i - 1);
      Shifted(data, 2 * i);
      Shifted(data, 2 * i + 1);
    }
  }

  lemma FirstPair(le: bool, data: seq<byte>, tailHigh: bool)
    requires |data| > 0
    ensures |Pairs(le, data, tailHigh)| > 0
    ensures Pairs(le, data, tailHigh)[0] ==
      if |data| > 1 then Word(le, data[0], data[1]) else if tailHigh then HighPlaced(data[0]) else Word(le, data[0], 0)
  {
    hide Word, HighPlaced;
  }

  lemma Shifted(data: seq<byte>, m: nat)
    ensures 2 <= m < |data| ==> data[2..][m - 2] == data[m]
  {
  }

  lemma PairsTail(le: bool, data: seq<byte>, tailHigh: bool)
    requires |data| >= 2
    ensures Pairs(le, data, tailHigh) == [Word(le, data[0], data[1])] + Pairs(le, data[2..], tailHigh)
  {
  }

  /** The words RFC 1071 sums. */
  function Words(le: bool, data: seq<byte>): seq<uint16> { Pairs(le, data, false) }

  /** The words the loop sums. */
  function LoopWords(le: bool, data: seq<byte>): seq<uint16> { Pairs(le, data, true) }

  function Load16(le: bool, data: seq<byte>, off: nat): uint16
    requires off + 1 < |data|
  {
    Word(le, data[off], data[off + 1])
  }

  function LowByte(w: uint16): byte { w % 0x100 }

  function HighByte(w: uint16): byte { w / 0x100 }

  /** A buffer after a host-order 16-bit store. */
  function Stored16(le: bool, data: seq<byte>, off: nat, w: uint16): (r: seq<byte>)
    requires off + 1 < |data|
    ensures |r| == |data| && Load16(le, r, off) == w
    ensures forall m | 0 <= m < |data| && m != off && m != off + 1 :: r[m] == data[m]
  {
    if le then data[off := LowByte(w)][off + 1 := HighByte(w)]
    else data[off := HighByte(w)][off + 1 := LowByte(w)]
  }

  lemma StoredTail(le: bool, data: seq<byte>, i: nat, w: uint16)
    requires i > 0 && 2 * i + 1 < |data|
    ensures Stored16(le, data, 2 * i, w) == data[..2] + Stored16(le, data[2..], 2 * (i - 1), w)
  {
  }

  lemma {:induction false} WordsStore(le: bool, data: seq<byte>, i: nat, w: uint16, tailHigh: bool)
    requires 2 * i + 1 < |data|
    ensures i < |Pairs(le, data, tailHigh)|
    ensures Pairs(le, data, tailHigh)[i] == Load16(le, data, 2 * i)
    ensures Pairs(le, Stored16(le, data, 2 * i, w), tailHigh) == Pairs(le, data, tailHigh)[i := w]
  {
    if i == 0 {
      assert Stored16(le, data, 0, w)[2..] == data[2..];
    } else {
      hide Stored16, Word, Pairs;
      var tail := Stored16(le, data[2..], 2 * (i - 1), w);
      StoredTail(le, data, i, w);
      WordsStore(le, data[2..], i - 1, w, tailHigh);
      PairsCons(le, data[..2], tail, tailHigh);
      PairsCons(le, data[..2], data[2..], tailHigh);
      assert data == data[..2] + data[2..];
    }
  }

  lemma PairsCons(le: bool, pair: seq<byte>, data: seq<byte>, tailHigh: bool)
    requires |pair| == 2
    ensures Pairs(le, pair + data, tailHigh) == [Word(le, pair[0], pair[1])] + Pairs(le, data, tailHigh)
  {
    assert (pair + data)[2..] == data;
  }

  /** The words once k pairs have been read and at most two bytes are left. */
  lemma {:induction false} PairsSplit(le: bool, data: seq<byte>, tailHigh: bool, k: nat)
    requires 2 * k <= |data| <= 2 * k + 2
    ensures |Pairs(le, data[..2 * k], tailHigh)| == k
    ensures Pairs(le, data, tailHigh) == Pairs(le, data[..2 * k], tailHigh) + Pairs(le, data[2 * k..], tailHigh)
  {
    if k > 0 {
      PairsSplit(le, data[2..], tailHigh, k - 1);
      assert data[2..][..2 * (k - 1)] == data[..2 * k][2..];
      assert data[2..][2 * (k - 1)..] == data[2 * k..];
    }
  }

  // ----- the two fold steps -----

  /** Two folds leave the exact ones'-complement value in the low 16 bits, for every sum an
      unsigned 32-bit accumulator can hold. */
  lemma TwoFoldsAreEnough(n: uint32)
    ensures var s := n / 0x1_0000 + n % 0x1_0000;
            (s + s / 0x1_0000) % 0x1_0000 == Normal(n)
  {
    var hi, lo := n / 0x1_0000, n % 0x1_0000;
    var s := hi + lo;
    var r := (s + s / 0x1_0000) % 0x1_0000;
    assert n - s == 0xFFFF * hi;
    if n > 0 {
      assert r == if s >= 0x1_0000 then s - 0xFFFF else s;
      assert n - r == if s >= 0x1_0000 then 0xFFFF * (hi + 1) else 0xFFFF * hi;
      NormalUnique(n, r);
    }
  }

  /** The accumulator of a buffer shorter than 65536 bytes stays 33,022 below the signed limit. */
  lemma AccumulatorBound(le: bool, data: seq<byte>)
    requires |data| < 0x1_0000
    ensures Total(LoopWords(le, data)) <= 0x7FFF_FFFF - 33022
  {
    var k := |data| / 2;
    PairsSplit(le, data, true, k);
    TotalBound(LoopWords(le, data[..2 * k]));
    if |data| == 2 * k + 1 {
      TotalAppend(LoopWords(le, data[..2 * k]), HighPlaced(data[2 * k]));
    } else {
      assert data[..2 * k] == data;
    }
  }

  lemma {:induction false} TotalOfOnes(n: nat)
    ensures Total(seq(n, i => 0xFFFF)) == n * 0xFFFF
  {
    if n > 0 {
      assert seq(n, i => 0xFFFF)[..n - 1] == seq(n - 1, i => 0xFFFF);
      TotalOfOnes(n - 1);
    }
  }

  /** The bound is reached by the longest buffer of 0xFF bytes. */
  lemma AccumulatorBoundIsReached(le: bool)
    ensures var data: seq<byte> := seq(0xFFFF, i => 0xFF);
            Total(LoopWords(le, data)) == 0x7FFF_FFFF - 33022
  {
    var data: seq<byte> := seq(0xFFFF, i => 0xFF);
    var even := LoopWords(le, data[..0xFFFE]);
    PairsSplit(le, data, true, 0x7FFF);
    forall i | 0 <= i < 0x7FFF ensures even[i] == 0xFFFF {
      PairsAt(le, data[..0xFFFE], true, i);
    }
    assert even == seq(0x7FFF, i => 0xFFFF);
    TotalOfOnes(0x7FFF);
    TotalAppend(even, HighPlaced(0xFF));
  }

  lemma FoldedSum(ws: seq<uint16>, once: nat, twice: nat)
    requires Total(ws) < 0x8000_0000
    requires once == Total(ws) / 0x1_0000 + Total(ws) % 0x1_0000 && twice == once + once / 0x1_0000
    ensures twice % 0x1_0000 == OnesSum(ws)
  {
    TwoFoldsAreEnough(Total(ws));
    OnesSumIsNormal(ws);
  }

  // ----- icmp_cksum -----

  lemma ReadPair(le: bool, data: seq<byte>, k: nat)
    requires 2 * k + 1 < |data|
    ensures Total(LoopWords(le, data[..2 * k + 2])) == Total(LoopWords(le, data[..2 * k])) + Load16(le, data, 2 * k)
  {
    var front := data[..2 * k + 2];
    PairsSplit(le, front, true, k);
    assert front[..2 * k] == data[..2 * k];
    TotalAppend(LoopWords(le, data[..2 * k]), Load16(le, data, 2 * k));
  }

  lemma ReadTail(le: bool, data: seq<byte>, k: nat)
    requires 2 * k <= |data| <= 2 * k + 1
    ensures Total(LoopWords(le, data)) == Total(LoopWords(le, data[..2 * k])) +
      if |data| == 2 * k then 0 else HighPlaced(data[2 * k])
  {
    PairsSplit(le, data, true, k);
    if |data| == 2 * k {
      assert data[..2 * k] == data;
    } else {
      TotalAppend(LoopWords(le, data[..2 * k]), HighPlaced(data[2 * k]));
    }
  }

  /** The length, its part above 16 bits, and its low half have one parity. */
  lemma Parity(q: nat, k: nat, m: nat)
    requires m < 2
    ensures (0x1_0000 * q + 2 * k + m) % 2 == m
  {
    LowBit(0x1_0000 * q + 2 * k + m, 0x8000 * q + k, m);
  }

  /** Step 1. The guard looks only at bits 1 to 15 of the length, so exactly the first
      len % 65536 bytes are summed; the signed accumulator never overflows. */
  method Accumulate(data: array<byte>, len: nat, le: bool) returns (sum: int32)
    requires len <= data.Length
    ensures sum == Total(LoopWords(le, data[..len % 0x1_0000]))
  {
    ghost var all, q, n := data[..], len / 0x1_0000, len % 0x1_0000;
    ghost var k := 0;
    sum := 0;
    var odd := len % 2;
    var left, p := len, 0;
    while left % 0x1_0000 >= 2  // some bit of len & 0xfffe is set
      invariant p == 2 * k <= n && left == 0x1_0000 * q + (n - p)
      invariant left % 0x1_0000 == n - p
      invariant sum == Total(LoopWords(le, all[..p])) <= k * 0xFFFF
      decreases left
    {
      ReadPair(le, all, k);
      sum := sum + Word(le, data[p], data[p + 1]);
      p := p + 2;
      left := left - 2;
      k := k + 1;
      LowHalf(left, q, n - p);
    }
    Parity(q, k, n - p);
    assert odd == n - p;
    assert data[..len % 0x1_0000] == all[..n];
    ReadTail(le, all[..n], k);
    assert all[..n][..p] == all[..p];
    if odd == 1 {
      sum := sum + HighPlaced(data[p]);
    }
  }

  /** Steps 2 and 3 fold the carries; the complement is truncated to 16 bits. */
  method IcmpCksum(data: array<byte>, len: nat, le: bool) returns (r: uint16)
    requires len <= data.Length
    ensures r == 0xFFFF - OnesSum(LoopWords(le, data[..len % 0x1_0000]))
    ensures r == 0xFFFF - OnesSum(Words(le, data[..len])) <==> SumsAll(le, data[..len])
  {
    AnyLengthExactly(le, data[..len]);
    assert data[..len][..len % 0x1_0000] == data[..len % 0x1_0000];
    var sum := Accumulate(data, len, le);
    ghost var ws := LoopWords(le, data[..len % 0x1_0000]);
    var once: int32 := sum / 0x1_0000 + sum % 0x1_0000;
    var twice: int32 := once + once / 0x1_0000;
    FoldedSum(ws, once, twice);
    r := 0xFFFF - twice % 0x1_0000;
  }

  /** The loop's sum is the RFC 1071 sum of the same bytes unless a little-endian host meets an
      odd length with a nonzero last byte. */
  lemma LoopMatchesRfcExactly(le: bool, data: seq<byte>)
    ensures OnesSum(LoopWords(le, data)) == OnesSum(Words(le, data))
        <==> |data| % 2 == 0 || !le || data[|data| - 1] == 0
  {
    var k := |data| / 2;
    EvenPairs(le, data[..2 * k]);
    PairsSplit(le, data, true, k);
    PairsSplit(le, data, false, k);
    if |data| == 2 * k {
      assert data[..2 * k] == data;
    } else {
      assert data[2 * k..] == [data[2 * k]];
      if le {
        TailWordMatters(Words(le, data[..2 * k]), data[2 * k]);
      }
    }
  }

  /** An input for which the loop's sum differs from the RFC's, on a little-endian host. */
  lemma OddLengthFails()
    ensures OnesSum(LoopWords(true, [1])) != OnesSum(Words(true, [1]))
  {
    LoopMatchesRfcExactly(true, [1]);
  }

  lemma ZeroBytes(le: bool, data: seq<byte>, tailHigh: bool)
    ensures Total(Pairs(le, data, tailHigh)) == 0 <==> forall i :: 0 <= i < |data| ==> data[i] == 0
  {
    var ws := Pairs(le, data, tailHigh);
    TotalZero(ws);
    forall k | 0 <= k < |ws|
      ensures ws[k] == 0 <==> data[2 * k] == 0 && (2 * k + 1 < |data| ==> data[2 * k + 1] == 0)
    {
      PairsAt(le, data, tailHigh, k);
    }
    forall i | 0 <= i < |data| && Total(ws) == 0 ensures data[i] == 0 {
      assert ws[i / 2] == 0;
    }
  }

  // ----- buffers of any length -----

  lemma {:induction false} WordsSplit(le: bool, data: seq<byte>, k: nat)
    requires 2 * k <= |data|
    ensures Words(le, data) == Words(le, data[..2 * k]) + Words(le, data[2 * k..])
  {
    if k == 0 {
      assert data[..0] == [] && data[0..] == data;
    } else {
      var rest := data[2..];
      WordsSplit(le, rest, k - 1);
      assert rest[..2 * (k - 1)] == data[..2 * k][2..] && rest[2 * (k - 1)..] == data[2 * k..];
      PairsTail(le, data, false);
      PairsTail(le, data[..2 * k], false);
    }
  }

  predicate AllZero(data: seq<byte>) {
    forall i :: 0 <= i < |data| ==> data[i] == 0
  }

  /** The words the loop does not read, less what it makes of the odd byte it reads last. */
  function Beyond(le: bool, data: seq<byte>): int {
    var n := |data| % 0x1_0000;
    var k := n / 2;
    Total(Words(le, data[2 * k..])) - if n % 2 == 1 then HighPlaced(data[2 * k]) else 0
  }

  /** What the loop leaves out is a multiple of 0xFFFF, and it does not hide the only nonzero bytes. */
  predicate SumsAll(le: bool, data: seq<byte>) {
    Beyond(le, data) % 0xFFFF == 0 && (AllZero(data[..|data| % 0x1_0000]) ==> AllZero(data))
  }

  /** For every length, the loop's sum of the bytes it reads is the RFC's sum of the whole buffer exactly when
      the bytes it leaves out do not matter. */
  lemma AnyLengthExactly(le: bool, data: seq<byte>)
    ensures OnesSum(LoopWords(le, data[..|data| % 0x1_0000])) == OnesSum(Words(le, data)) <==> SumsAll(le, data)
  {
    hide OnesSum, Total, Pairs, AllZero, Normal;
    var n := |data| % 0x1_0000;
    var k := n / 2;
    var read, front, rest := data[..n], data[..2 * k], data[2 * k..];
    assert read[..2 * k] == front;
    ReadTail(le, read, k);
    EvenPairs(le, front);
    WordsSplit(le, data, k);
    TotalConcat(Words(le, front), Words(le, rest));
    assert Total(Words(le, data)) - Total(LoopWords(le, read)) == Beyond(le, data);
    OnesSumIsNormal(LoopWords(le, read));
    OnesSumIsNormal(Words(le, data));
    SameNormalExactly(Total(LoopWords(le, read)), Total(Words(le, data)));
    ZeroAlike(le, data, n);
  }

  lemma ZeroAlike(le: bool, data: seq<byte>, n: nat)
    requires n <= |data|
    ensures Total(LoopWords(le, data[..n])) == 0 <==> AllZero(data[..n])
    ensures Total(Words(le, data)) == 0 <==> AllZero(data)
    ensures AllZero(data) ==> AllZero(data[..n])
  {
    ZeroBytes(le, data[..n], true);
    ZeroBytes(le, data, false);
  }

  /** Below 65536 bytes nothing but the odd last byte can matter. */
  lemma ShortBufferExactly(le: bool, data: seq<byte>)
    requires |data| < 0x1_0000
    ensures SumsAll(le, data) <==> |data| % 2 == 0 || !le || data[|data| - 1] == 0
  {
    hide SumsAll, OnesSum, Pairs;
    assert data[..|data| % 0x1_0000] == data;
    AnyLengthExactly(le, data);
    LoopMatchesRfcExactly(le, data);
  }

  /** A buffer of 65536 bytes that is not summed at all, although its sum is not zero. */
  lemma LongBufferFails(le: bool)
    ensures var data: seq<byte> := seq(0x1_0000, i => 0xFF);
            OnesSum(LoopWords(le, data[..|data| % 0x1_0000])) == 0 && OnesSum(Words(le, data)) != 0
  {
    var data: seq<byte> := seq(0x1_0000, i => 0xFF);
    assert data[..|data| % 0x1_0000] == [] && data[0] == 0xFF;
    AnyLengthExactly(le, data);
  }

  /** Without an odd byte the two readings agree. */
  lemma {:induction false} EvenPairs(le: bool, data: seq<byte>)
    requires |data| % 2 == 0
    ensures LoopWords(le, data) == Words(le, data)
  {
    if |data| > 0 {
      EvenPairs(le, data[2..]);
    }
  }

  lemma TailWordMatters(even: seq<uint16>, b: byte)
    ensures OnesSum(even + [HighPlaced(b)]) == OnesSum(even + [b]) <==> b == 0
  {
    var t := Total(even);
    TotalAppend(even, HighPlaced(b));
    TotalAppend(even, b);
    OnesSumIsNormal(even + [HighPlaced(b)]);
    OnesSumIsNormal(even + [b]);
    var r := Normal(t + b);
    if b != 0 && r == Normal(t + HighPlaced(b)) {
      Multiples(t + HighPlaced(b) - r, t + b - r);
      assert false;
    }
  }

  /** Little- and big-endian hosts store the same two bytes: the little-endian sum is the swapped
      big-endian one, for every buffer. */
  lemma HostOrderIsIrrelevant(data: seq<byte>)
    ensures OnesSum(Words(true, data)) == Swap(OnesSum(Words(false, data)))
    ensures Verifies(Words(true, data)) <==> Verifies(Words(false, data))
  {
    SwappedPairs(data);
    SwapCommutesWithSum(Words(false, data));
    SwapInvolution(OnesSum(Words(false, data)));
  }

  lemma SwapWord(b0: byte, b1: byte)
    ensures Word(true, b0, b1) == Swap(Word(false, b0, b1))
  {
  }

  lemma SwapFirst(w: uint16, ws: seq<uint16>)
    ensures SwapAll([w] + ws) == [Swap(w)] + SwapAll(ws)
  {
  }

  lemma {:induction false} SwappedPairs(data: seq<byte>)
    ensures Words(true, data) == SwapAll(Words(false, data))
  {
    if |data| >= 2 {
      SwappedPairs(data[2..]);
      PairsTail(true, data, false);
      PairsTail(false, data, false);
      hide Pairs, Word, Swap, SwapAll;
      SwapWord(data[0], data[1]);
      SwapFirst(Word(false, data[0], data[1]), Words(false, data[2..]));
    }
  }

  /** Hence both kinds of host write the same two checksum bytes for an even-length message. */
  lemma SameBytesOnBothHosts(data: seq<byte>, buf: seq<byte>, off: nat)
    requires |data| % 2 == 0 && off + 1 < |buf|
    ensures Stored16(true, buf, off, 0xFFFF - OnesSum(LoopWords(true, data)))
         == Stored16(false, buf, off, 0xFFFF - OnesSum(LoopWords(false, data)))
  {
    HostOrderIsIrrelevant(data);
    EvenPairs(true, data);
    EvenPairs(false, data);
    ComplementBytes(OnesSum(Words(false, data)));
  }

  lemma BytesOf(w: uint16, hi: byte, lo: byte)
    requires w == 0x100 * hi + lo
    ensures HighByte(w) == hi && LowByte(w) == lo
  {
  }

  lemma ComplementBytes(s: uint16)
    ensures LowByte(0xFFFF - Swap(s)) == HighByte(0xFFFF - s)
    ensures HighByte(0xFFFF - Swap(s)) == LowByte(0xFFFF - s)
  {
    var lo, hi := s % 0x100, s / 0x100;
    hide HighByte, LowByte;
    BytesOf(0xFFFF - s, 0xFF - hi, 0xFF - lo);
    BytesOf(0xFFFF - Swap(s), 0xFF - lo, 0xFF - hi);
  }

  // ----- filling in and checking a checksum word -----

  /** Storing the complement of the sum in a cleared word makes the message verify, and clearing
      that word and summing again gives the stored value back. No message is an exception. */
  lemma FillThenVerify(ws: seq<uint16>, i: nat)
    requires i < |ws| && ws[i] == 0
    ensures var filled := ws[i := 0xFFFF - OnesSum(ws)];
            Verifies(filled) && 0xFFFF - OnesSum(filled[i := 0]) == filled[i]
  {
    var c := 0xFFFF - OnesSum(ws);
    OnesSumIsNormal(ws);
    TotalUpdate(ws, i, c);
    VerifiesExactly(ws[i := c]);
    assert ws[i := c][i := 0] == ws;
    assert Total(ws) + c == (Total(ws) - Normal(Total(ws))) + 0xFFFF;
  }

  /** What the receiver's recomputation tells it: the recomputed word equals the stored one exactly
      for the messages that verify, except that a stored 0xFFFF is accepted only when every
      other word is zero. */
  lemma RecomputeExactly(ws: seq<uint16>, i: nat)
    requires i < |ws|
    ensures 0xFFFF - OnesSum(ws[i := 0]) == ws[i]
        <==> Verifies(ws) && (ws[i] == 0xFFFF ==> Total(ws[i := 0]) == 0)
  {
    var rest, c := Total(ws[i := 0]), ws[i];
    TotalUpdate(ws, i, 0);
    OnesSumIsNormal(ws[i := 0]);
    VerifiesExactly(ws);
    if 0xFFFF - Normal(rest) == c {
      Multiples(rest - Normal(rest), 0);
      assert rest + c == (rest - Normal(rest)) + 0xFFFF;
    }
    if Verifies(ws) && rest > 0 && c != 0xFFFF {
      assert rest - (0xFFFF - c) == (rest + c) - 0xFFFF;
      Multiples(rest + c, 0xFFFF);
      NormalUnique(rest, 0xFFFF - c);
    }
  }

  // ----- the packers -----

  method Store16(buf: array<byte>, off: nat, w: uint16, le: bool)
    requires off + 1 < buf.Length
    modifies buf
    ensures buf[..] == Stored16(le, old(buf[..]), off, w)
  {
    buf[off] := if le then LowByte(w) else HighByte(w);
    buf[off + 1] := if le then HighByte(w) else LowByte(w);
  }

  function HostBytes(le: bool, w: uint16): seq<byte> {
    if le then [LowByte(w), HighByte(w)] else [HighByte(w), LowByte(w)]
  }

  /** A message whose checksum word i has been computed over its first n bytes. */
  function Checksummed(le: bool, cleared: seq<byte>, n: nat, i: nat): (r: seq<byte>)
    requires 2 * i + 1 < n <= |cleared|
    ensures |r| == |cleared|
  {
    Stored16(le, cleared, 2 * i, 0xFFFF - OnesSum(LoopWords(le, cleared[..n])))
  }

  lemma ChecksummedPrefix(le: bool, cleared: seq<byte>, n: nat, i: nat)
    requires 2 * i + 1 < n <= |cleared|
    ensures Checksummed(le, cleared, n, i) == Checksummed(le, cleared[..n], n, i) + cleared[n..]
    ensures Checksummed(le, cleared, n, i)[..n] == Checksummed(le, cleared[..n], n, i)
  {
    assert cleared[..n][..n] == cleared[..n];
  }

  lemma ChecksummedVerifies(le: bool, cleared: seq<byte>, n: nat, i: nat)
    requires 2 * i + 1 < n <= |cleared|
    requires cleared[2 * i] == 0 && cleared[2 * i + 1] == 0
    ensures Verifies(LoopWords(le, Checksummed(le, cleared, n, i)[..n]))
  {
    var msg := cleared[..n];
    var c: uint16 := 0xFFFF - OnesSum(LoopWords(le, msg));
    ChecksummedPrefix(le, cleared, n, i);
    WordsStore(le, msg, i, c, true);
    FillThenVerify(LoopWords(le, msg), i);
  }

  method FillChecksum(buf: array<byte>, n: nat, i: nat, le: bool)
    requires 2 * i + 1 < n <= buf.Length && n < 0x1_0000
    modifies buf
    ensures buf[..] == Checksummed(le, old(buf[..]), n, i)
  {
    hide SumsAll, OnesSum, Pairs;
    var c := IcmpCksum(buf, n, le);
    assert n % 0x1_0000 == n && buf[..n] == buf[..][..n];
    Store16(buf, 2 * i, c, le);
  }

  function EchoHeader(le: bool, seqNo: nat, pid: nat): (h: seq<byte>)
    ensures |h| == 8
  {
    [ICMP_ECHO, 0, 0, 0] + HostBytes(le, pid % 0x1_0000) + HostBytes(le, seqNo % 0x1_0000)
  }

  /** An echo request with `length` data bytes and a cleared checksum. */
  function EchoRequest(le: bool, seqNo: nat, pid: nat, length: nat): (msg: seq<byte>)
    requires length <= 0xFF
    ensures |msg| == 8 + length
  {
    EchoHeader(le, seqNo, pid) + seq(length, i requires 0 <= i < length => i)
  }

  method EchoFields(buf: array<byte>, seqNo: nat, pid: nat, le: bool)
    requires 8 <= buf.Length
    modifies buf
    ensures buf[..] == EchoHeader(le, seqNo, pid) + old(buf[8..])
  {
    buf[0], buf[1], buf[2], buf[3] := ICMP_ECHO, 0, 0, 0;
    Store16(buf, 6, seqNo % 0x1_0000, le);
    Store16(buf, 4, pid % 0x1_0000, le);
  }

  /** The header and the data loop, which runs `length` times with a one-byte counter. */
  method EchoBody(buf: array<byte>, seqNo: nat, pid: nat, length: nat, le: bool)
    requires length <= 0xFF && 8 + length <= buf.Length
    modifies buf
    ensures buf[..] == EchoRequest(le, seqNo, pid, length) + old(buf[8 + length..])
  {
    EchoFields(buf, seqNo, pid, le);
    ghost var header := EchoHeader(le, seqNo, pid);
    assert buf[..8] == header;
    hide EchoHeader;
    var i := 0;
    while i < length
      invariant 0 <= i <= length
      invariant buf[..8] == header
      invariant forall k | 8 <= k < 8 + i :: buf[k] == k - 8
      invariant buf[8 + length..] == old(buf[8 + length..])
    {
      buf[8 + i] := i;
      i := i + 1;
    }
  }

  /** The bytes of an echo request apart from its checksum: type and code, the low halves of the process number and
      of the sequence number as the sending host stores them, and data bytes that count up from zero. */
  predicate AsksEcho(le: bool, b: seq<byte>, seqNo: nat, pid: nat, length: nat) {
    && 8 + length <= |b| && b[0] == 8 && b[1] == 0
    && Load16(le, b, 4) == pid % 0x1_0000 && Load16(le, b, 6) == seqNo % 0x1_0000
    && forall i | 8 <= i < 8 + length :: b[i] == i - 8
  }

  lemma RequestBytes(le: bool, seqNo: nat, pid: nat, length: nat, rest: seq<byte>)
    requires 4 <= length <= 0xFF
    ensures AsksEcho(le, Checksummed(le, EchoRequest(le, seqNo, pid, length) + rest, length, 1), seqNo, pid, length)
  {
    hide OnesSum, LoopWords;
  }

  /** Builds an echo request; `length` bytes of it are covered by the checksum, so the data loop writes
      8 bytes past the covered part. */
  method IcmpPack(buf: array<byte>, seqNo: nat, pid: nat, length: nat, le: bool)
    requires 4 <= length <= 0xFF && 8 + length <= buf.Length
    modifies buf
    ensures var msg := EchoRequest(le, seqNo, pid, length);
            buf[..] == Checksummed(le, msg + old(buf[8 + length..]), length, 1)
    ensures AsksEcho(le, buf[..], seqNo, pid, length)
    ensures Verifies(LoopWords(le, buf[..length]))
  {
    hide LoopWords, OnesSum, Checksummed, AsksEcho;
    RequestBytes(le, seqNo, pid, length, buf[8 + length..]);
    EchoBody(buf, seqNo, pid, length, le);
    ghost var cleared := buf[..];
    assert cleared[2] == 0 && cleared[3] == 0 by { ClearedChecksum(le, seqNo, pid, length); }
    ChecksummedVerifies(le, cleared, length, 1);
    FillChecksum(buf, length, 1, le);
    assert buf[..length] == buf[..][..length];
  }

  lemma ClearedChecksum(le: bool, seqNo: nat, pid: nat, length: nat)
    requires length <= 0xFF
    ensures EchoRequest(le, seqNo, pid, length)[2] == 0 && EchoRequest(le, seqNo, pid, length)[3] == 0
  {
  }

  function IpFixed(totalLength: uint16, ipId: uint16): seq<byte> {
    [0x45, 0, HighByte(totalLength), LowByte(totalLength), HighByte(ipId), LowByte(ipId),
     HighByte(IP_DF), LowByte(IP_DF), 64, 1, 0, 0]
  }

  /** A 20-byte IPv4 header for an ICMP payload, not to be fragmented, with a cleared checksum. */
  function IpHeader(totalLength: uint16, ipId: uint16, src: seq<byte>, dst: seq<byte>): seq<byte> {
    IpFixed(totalLength, ipId) + src + dst
  }

  /** The bytes of the datagram's header apart from its checksum: version 4 with five words, total length and
      identifier with the high byte first, not to be fragmented, 64 hops, ICMP, source and destination. */
  predicate LeadsDatagram(b: seq<byte>, total: nat, ipId: nat, src: seq<byte>, dst: seq<byte>) {
    && |b| >= 20 && b[0] == 0x45 && b[1] == 0
    && 0x100 * (b[2] as int) + b[3] == total % 0x1_0000 && 0x100 * (b[4] as int) + b[5] == ipId
    && b[6] == 0x40 && b[7] == 0 && b[8] == 64 && b[9] == 1
    && b[12..16] == src && b[16..20] == dst
  }

  lemma HeaderLeads(le: bool, total: nat, ipId: uint16, src: seq<byte>, dst: seq<byte>, rest: seq<byte>)
    requires |src| == 4 && |dst| == 4
    ensures var header := IpHeader(total % 0x1_0000, ipId, src, dst);
            |header| == 20 && LeadsDatagram(Checksummed(le, header, 20, 5) + rest, total, ipId, src, dst)
  {
    hide OnesSum, LoopWords;
    var b := Checksummed(le, IpHeader(total % 0x1_0000, ipId, src, dst), 20, 5) + rest;
    assert b[12..16] == src && b[16..20] == dst;
  }

  /** Puts an IPv4 header in front of the payload and returns the next identifier. */
  method IpPack(buf: array<byte>, src: seq<byte>, dst: seq<byte>, data: seq<byte>, ipId: uint16, le: bool)
    returns (nextId: uint16)
    requires |src| == 4 && |dst| == 4 && 20 + |data| <= buf.Length
    modifies buf
    ensures nextId == (ipId + 1) % 0x1_0000
    ensures var header := IpHeader((20 + |data|) % 0x1_0000, ipId, src, dst);
            buf[..] == Checksummed(le, header, 20, 5) + data + old(buf[20 + |data|..])
    ensures LeadsDatagram(buf[..], 20 + |data|, ipId, src, dst) && buf[20..20 + |data|] == data
    ensures Verifies(Words(le, buf[..20]))
  {
    hide LeadsDatagram, LoopWords, Words, OnesSum, Verifies, IpHeader;
    var total: uint16 := (20 + |data|) % 0x1_0000;
    ghost var header := IpFields(buf, total, ipId, src, dst);
    ghost var rest := old(buf[20 + |data|..]);
    nextId := (ipId + 1) % 0x1_0000;
    FillHeader(buf, header, le);
    ghost var filled := Checksummed(le, header, 20, 5);
    forall k | 0 <= k < |data| { buf[20 + k] := data[k]; }
    assert buf[..] == filled + (data + rest) && buf[..20] == filled;
    assert filled + (data + rest) == filled + data + rest;
    HeaderLeads(le, 20 + |data|, ipId, src, dst, data + rest);
  }

  method FillHeader(buf: array<byte>, ghost header: seq<byte>, le: bool)
    requires 20 <= buf.Length && buf[..20] == header && header[10] == 0 && header[11] == 0
    modifies buf
    ensures buf[..] == Checksummed(le, header, 20, 5) + old(buf[20..])
    ensures Verifies(Words(le, Checksummed(le, header, 20, 5)))
  {
    ghost var cleared := buf[..];
    assert cleared[..20] == header && header[..20] == header && cleared[20..] == buf[20..];
    ChecksummedVerifies(le, header, 20, 5);
    ChecksummedPrefix(le, cleared, 20, 5);
    EvenPairs(le, Checksummed(le, header, 20, 5));
    FillChecksum(buf, 20, 5, le);
    assert Checksummed(le, header, 20, 5)[..20] == Checksummed(le, header, 20, 5);
  }

  method IpFields(buf: array<byte>, totalLength: uint16, ipId: uint16, src: seq<byte>, dst: seq<byte>)
    returns (ghost header: seq<byte>)
    requires |src| == 4 && |dst| == 4 && 20 <= buf.Length
    modifies buf
    ensures header == IpHeader(totalLength, ipId, src, dst) && |header| == 20 && header[10] == 0 && header[11] == 0
    ensures buf[..] == header + old(buf[20..])
  {
    IpFixedFields(buf, totalLength, ipId);
    ghost var fixed := IpFixed(totalLength, ipId);
    header := fixed + src + dst;
    forall k | 0 <= k < 4 { buf[12 + k] := src[k]; }
    forall k | 0 <= k < 4 { buf[16 + k] := dst[k]; }
    assert buf[..12] == fixed && buf[12..16] == src && buf[16..20] == dst;
    assert buf[20..] == old(buf[20..]);
  }

  method IpFixedFields(buf: array<byte>, totalLength: uint16, ipId: uint16)
    requires 12 <= buf.Length
    modifies buf
    ensures buf[..12] == IpFixed(totalLength, ipId)
    ensures forall k | 12 <= k < buf.Length :: buf[k] == old(buf[k])
  {
    buf[0], buf[1] := 0x45, 0;
    buf[2], buf[3] := HighByte(totalLength), LowByte(totalLength);
    buf[4], buf[5] := HighByte(ipId), LowByte(ipId);
    buf[6], buf[7] := HighByte(IP_DF), LowByte(IP_DF);
    buf[8], buf[9], buf[10], buf[11] := 64, 1, 0, 0;
  }
}
