/** The multicast filter: vmxnet_load_multicast hashes each group address with the Ethernet CRC
    register. The shift-and-xor loop is proved to be polynomial division over GF(2), and the filter
    to contain exactly the hashes of the listed group addresses. */
module Multicast {
  const CRC_POLYNOMIAL_LE: bv32 := 0xedb88320
  const ALL_ONES: bv32 := 0xffffffff

  type Address = a: seq<bv8> | |a| == 6 witness [0, 0, 0, 0, 0, 0]

  // ----- bits -----

  predicate OneBit(m: bv32) { m & (m - 1) == 0 }

  function Mask(i: nat): (m: bv32)
    ensures OneBit(m)
  {
    if i == 0 then 1 else Mask(i - 1) << 1
  }

  function Bit(r: bv32, i: nat): bool { r & Mask(i) != 0 }

  /** A register's bits, lowest first. */
  function RegBits(r: bv32): (s: seq<bool>)
    ensures |s| == 32
  {
    seq(32, i requires 0 <= i < 32 => Bit(r, i))
  }

  /** The n lowest bits, lowest first. */
  function LowBits(b: bv32, n: nat): (s: seq<bool>)
    ensures |s| == n
  {
    if n == 0 then [] else [b & 0x1 != 0] + LowBits(b >> 1, n - 1)
  }

  /** A byte's bits in the order they go onto the wire. */
  function ByteBits(b: bv8): seq<bool> {
    LowBits(b as bv32, 8)
  }

  function Message(bytes: seq<bv8>): seq<bool> {
    if bytes == [] then [] else ByteBits(bytes[0]) + Message(bytes[1..])
  }

  /** b moved down j times by one place. */
  function Halved(b: bv32, j: nat): bv32 {
    if j == 0 then b else Halved(b >> 1, j - 1)
  }

  lemma {:induction false} HalvedNext(b: bv32, j: nat)
    ensures Halved(b, j + 1) == Halved(b, j) >> 1
  {
    if j > 0 {
      HalvedNext(b >> 1, j - 1);
    }
  }

  lemma {:induction false} LowBitAt(b: bv32, n: nat, j: nat)
    requires j < n
    ensures LowBits(b, n)[j] == (Halved(b, j) & 0x1 != 0)
  {
    if j > 0 {
      LowBitAt(b >> 1, n - 1, j - 1);
    }
  }

  lemma HalvedIsShift(b: bv8, j: nat)
    requires j < 8
    ensures Halved(b as bv32, j) & 0x1 != 0 <==> (b >> j) & 0x1 != 0
  {
    var w := b as bv32;
    assert Halved(w, 0) == w;
    hide Halved;
    HalvedNext(w, 0);
    HalvedNext(w, 1);
    HalvedNext(w, 2);
    HalvedNext(w, 3);
    HalvedNext(w, 4);
    HalvedNext(w, 5);
    HalvedNext(w, 6);
    if j == 0 {
    } else if j == 1 {
    } else if j == 2 {
    } else if j == 3 {
    } else if j == 4 {
    } else if j == 5 {
    } else if j == 6 {
    } else {
      assert j == 7;
    }
  }

  lemma {:induction false} MessageSize(bytes: seq<bv8>)
    ensures |Message(bytes)| == 8 * |bytes|
  {
    if bytes != [] {
      MessageSize(bytes[1..]);
    }
  }

  /** The message is the bytes in their order, the lowest bit of each first. */
  lemma {:induction false} MessageAt(bytes: seq<bv8>, i: nat, j: nat)
    requires i < |bytes| && j < 8
    ensures |Message(bytes)| == 8 * |bytes|
    ensures Message(bytes)[8 * i + j] <==> (bytes[i] >> j) & 0x1 != 0
  {
    hide LowBits, ByteBits;
    ByteSize(bytes[0]);
    if i > 0 {
      MessageAt(bytes[1..], i - 1, j);
      assert bytes[1..][i - 1] == bytes[i];
      assert Message(bytes)[8 * i + j] == Message(bytes[1..])[8 * (i - 1) + j];
    } else {
      ByteBitsAt(bytes[0], j);
      MessageSize(bytes[1..]);
    }
  }

  lemma ByteSize(b: bv8)
    ensures |ByteBits(b)| == 8
  {
  }

  lemma ByteBitsAt(b: bv8, j: nat)
    requires j < 8
    ensures ByteBits(b)[j] <==> (b >> j) & 0x1 != 0
  {
    hide LowBits;
    LowBitAt(b as bv32, 8, j);
    HalvedIsShift(b, j);
  }

  function Xor(a: seq<bool>, b: seq<bool>): (r: seq<bool>)
    requires |a| == |b|
    ensures |r| == |a|
  {
    seq(|a|, i requires 0 <= i < |a| => a[i] != b[i])
  }

  // ----- the register -----

  /** One bit of input: shift, and subtract the polynomial if the bits differ. */
  function CrcStep(r: bv32, bit: bool): bv32 {
    if bit != (r & 0x1 != 0) then (r >> 1) ^ CRC_POLYNOMIAL_LE else r >> 1
  }

  function Crc(r: bv32, bits: seq<bool>): bv32
    decreases |bits|
  {
    if bits == [] then r else Crc(CrcStep(r, bits[0]), bits[1..])
  }

  // ----- polynomial division -----

  /** The exponents in the generator of section 3.2.9 of IEEE 802.3. */
  const EXPONENTS := {32, 26, 23, 22, 16, 12, 11, 10, 8, 7, 5, 4, 2, 1, 0}

  /** The generator's coefficients below the leading one, highest first. */
  function GeneratorTail(): (s: seq<bool>)
    ensures |s| == 32
  {
    seq(32, i => 31 - i in EXPONENTS)
  }

  /** Schoolbook long division of a polynomial, coefficients from the highest down: the remainder. */
  function LongDiv(m: seq<bool>): (rem: seq<bool>)
    requires |m| >= 32
    ensures |rem| == 32
    decreases |m|
  {
    if |m| == 32 then m
    else if m[0] then LongDiv(Xor(m[1..33], GeneratorTail()) + m[33..])
    else LongDiv(m[1..])
  }

  /** The polynomial with quotient q and remainder r: q times the generator, plus r. */
  function Compose(q: seq<bool>, r: seq<bool>): (m: seq<bool>)
    requires |r| == 32
    ensures |m| == |q| + 32
  {
    if q == [] then r
    else
      var rest := Compose(q[1..], r);
      [q[0]] + if q[0] then Xor(rest[..32], GeneratorTail()) + rest[32..] else rest
  }

  lemma XorTwice(a: seq<bool>, b: seq<bool>)
    requires |a| == |b|
    ensures Xor(Xor(a, b), b) == a
  {
  }

  lemma {:induction false} ComposeDivides(q: seq<bool>, r: seq<bool>)
    requires |r| == 32
    ensures LongDiv(Compose(q, r)) == r
  {
    if q != [] {
      var rest, m := Compose(q[1..], r), Compose(q, r);
      ComposeDivides(q[1..], r);
      if q[0] {
        XorTwice(rest[..32], GeneratorTail());
        assert m[1..33] == Xor(rest[..32], GeneratorTail()) && m[33..] == rest[32..];
        assert rest[..32] + rest[32..] == rest;
      } else {
        assert m[1..] == rest;
      }
    }
  }

  lemma {:induction false} DivisionComposes(m: seq<bool>) returns (q: seq<bool>)
    requires |m| >= 32
    ensures |q| == |m| - 32 && m == Compose(q, LongDiv(m))
    decreases |m|
  {
    if |m| == 32 {
      q := [];
    } else {
      var rest := if m[0] then Xor(m[1..33], GeneratorTail()) + m[33..] else m[1..];
      var tail := DivisionComposes(rest);
      q := [m[0]] + tail;
      XorTwice(m[1..33], GeneratorTail());
      assert q[1..] == tail;
    }
  }

  /** Long division finds the remainder: r is the result exactly when the polynomial differs from r by
      a multiple of the generator. */
  lemma DivisionExactly(m: seq<bool>, r: seq<bool>)
    requires |m| >= 32 && |r| == 32
    ensures LongDiv(m) == r <==> exists q :: |q| == |m| - 32 && m == Compose(q, r)
  {
    var q0 := DivisionComposes(m);
    forall q | |q| == |m| - 32 && m == Compose(q, r) ensures LongDiv(m) == r {
      ComposeDivides(q, r);
    }
  }

  // ----- the loop is division -----

  /** A polynomial with r added to its 32 highest coefficients. */
  function Onto(r: seq<bool>, m: seq<bool>): (s: seq<bool>)
    requires |r| == 32 && |m| >= 32
    ensures |s| == |m|
  {
    Xor(r, m[..32]) + m[32..]
  }

  function Zeros(n: nat): (s: seq<bool>)
    ensures |s| == n
  {
    seq(n, i => false)
  }

  lemma MaskValues()
    ensures Mask(0) == 0x1 && Mask(1) == 0x2 && Mask(2) == 0x4 && Mask(3) == 0x8
    ensures Mask(4) == 0x10 && Mask(5) == 0x20 && Mask(6) == 0x40 && Mask(7) == 0x80
    ensures Mask(8) == 0x100 && Mask(9) == 0x200 && Mask(10) == 0x400 && Mask(11) == 0x800
    ensures Mask(12) == 0x1000 && Mask(13) == 0x2000 && Mask(14) == 0x4000 && Mask(15) == 0x8000
    ensures Mask(16) == 0x10000 && Mask(17) == 0x20000 && Mask(18) == 0x40000 && Mask(19) == 0x80000
    ensures Mask(20) == 0x100000 && Mask(21) == 0x200000 && Mask(22) == 0x400000 && Mask(23) == 0x800000
    ensures Mask(24) == 0x1000000 && Mask(25) == 0x2000000 && Mask(26) == 0x4000000 && Mask(27) == 0x8000000
    ensures Mask(28) == 0x10000000 && Mask(29) == 0x20000000 && Mask(30) == 0x40000000 && Mask(31) == 0x80000000
  {
    assert Mask(0) == 0x1 && Mask(1) == 0x2 && Mask(2) == 0x4 && Mask(3) == 0x8;
    assert Mask(4) == 0x10 && Mask(5) == 0x20 && Mask(6) == 0x40 && Mask(7) == 0x80;
    assert Mask(8) == 0x100 && Mask(9) == 0x200 && Mask(10) == 0x400 && Mask(11) == 0x800;
    assert Mask(12) == 0x1000 && Mask(13) == 0x2000 && Mask(14) == 0x4000 && Mask(15) == 0x8000;
    assert Mask(16) == 0x10000 && Mask(17) == 0x20000 && Mask(18) == 0x40000 && Mask(19) == 0x80000;
    assert Mask(20) == 0x100000 && Mask(21) == 0x200000 && Mask(22) == 0x400000 && Mask(23) == 0x800000;
    assert Mask(24) == 0x1000000 && Mask(25) == 0x2000000 && Mask(26) == 0x4000000 && Mask(27) == 0x8000000;
    assert Mask(28) == 0x10000000 && Mask(29) == 0x20000000 && Mask(30) == 0x40000000 && Mask(31) == 0x80000000;
  }

  lemma GeneratorIsPolynomial()
    ensures RegBits(CRC_POLYNOMIAL_LE) == GeneratorTail()
  {
    hide Mask;
    MaskValues();
  }

  lemma ShiftedMask(r: bv32, m: bv32)
    ensures (r >> 1) & m != 0 <==> r & (m << 1) != 0
    ensures (r >> 1) & 0x80000000 == 0
  {
  }

  lemma ShiftBit(r: bv32, i: nat)
    ensures Bit(r >> 1, i) == Bit(r, i + 1) && !Bit(r >> 1, 31)
  {
    MaskValues();
    ShiftedMask(r, Mask(i));
  }

  lemma ShiftBits(r: bv32)
    ensures RegBits(r >> 1) == RegBits(r)[1..] + [false]
  {
    hide Bit;
    forall i: nat | i < 32 ensures RegBits(r >> 1)[i] == (RegBits(r)[1..] + [false])[i] {
      ShiftBit(r, i);
    }
  }

  lemma XorMask(a: bv32, b: bv32, m: bv32)
    requires OneBit(m)
    ensures (a ^ b) & m != 0 <==> ((a & m != 0) != (b & m != 0))
  {
    assert (a ^ b) & m != 0 <==> a & m != b & m;
    assert (a & m == 0 || a & m == m) && (b & m == 0 || b & m == m);
  }

  lemma XorBit(a: bv32, b: bv32, i: nat)
    ensures Bit(a ^ b, i) == (Bit(a, i) != Bit(b, i))
  {
    XorMask(a, b, Mask(i));
  }

  lemma XorBits(a: bv32, b: bv32)
    ensures RegBits(a ^ b) == Xor(RegBits(a), RegBits(b))
  {
    hide Bit;
    forall i: nat | i < 32 ensures RegBits(a ^ b)[i] == Xor(RegBits(a), RegBits(b))[i] {
      XorBit(a, b, i);
    }
  }

  lemma LowBitFirst(r: bv32)
    ensures RegBits(r)[0] == (r & 0x1 != 0)
  {
  }

  lemma StepBits(r: bv32, bit: bool)
    ensures var shifted := RegBits(r)[1..] + [false];
            RegBits(CrcStep(r, bit)) == if bit != RegBits(r)[0] then Xor(shifted, GeneratorTail()) else shifted
  {
    hide GeneratorTail, RegBits;
    assert RegBits(r)[0] == (r & 0x1 != 0) by { LowBitFirst(r); }
    ShiftBits(r);
    XorBits(r >> 1, CRC_POLYNOMIAL_LE);
    GeneratorIsPolynomial();
  }

  /** The register after any input is the remainder of the input, shifted up by 32 places and with the
      starting value added to its first 32 bits. */
  lemma {:induction false} CrcIsDivision(r: bv32, bits: seq<bool>)
    ensures RegBits(Crc(r, bits)) == LongDiv(Onto(RegBits(r), bits + Zeros(32)))
    decreases |bits|
  {
    hide RegBits, CrcStep, GeneratorTail;
    var m := bits + Zeros(32);
    var s := Onto(RegBits(r), m);
    if bits == [] {
      assert s == RegBits(r);
    } else {
      var r', m' := CrcStep(r, bits[0]), bits[1..] + Zeros(32);
      CrcIsDivision(r', bits[1..]);
      StepBits(r, bits[0]);
      assert m[1..] == m' && s[0] == (bits[0] != RegBits(r)[0]);
      DivisionStep(RegBits(r), RegBits(r'), m);
    }
  }

  lemma DivisionStep(r: seq<bool>, r': seq<bool>, m: seq<bool>)
    requires |r| == |r'| == 32 && |m| >= 33
    requires var shifted := r[1..] + [false]; r' == if m[0] != r[0] then Xor(shifted, GeneratorTail()) else shifted
    ensures LongDiv(Onto(r, m)) == LongDiv(Onto(r', m[1..]))
  {
    hide GeneratorTail;
    var s := Onto(r, m);
    if s[0] {
      assert Xor(s[1..33], GeneratorTail()) + s[33..] == Onto(r', m[1..]);
    } else {
      assert s[1..] == Onto(r', m[1..]);
    }
  }

  // ----- the filter -----

  predicate IsGroup(a: Address) { a[0] & 0x1 != 0 }

  /** A group address is one whose first bit on the wire is set. */
  lemma GroupBitIsFirst(a: Address)
    ensures |Message(a)| == 48 && (IsGroup(a) <==> Message(a)[0])
  {
    hide ByteBits;
    MessageAt(a, 0, 0);
    assert (a[0] >> 0) == a[0];
  }

  /** The top six bits of the register after the address. */
  function Hash(a: Address): (h: bv32)
    ensures h < 64
  {
    Crc(ALL_ONES, Message(a)) >> 26
  }

  /** The four 16-bit words of the filter. */
  type Words = t: seq<bv16> | |t| == 4 witness [0, 0, 0, 0]

  function WordOf(b: bv32): (i: nat)
    requires b < 64
    ensures i < 4
  {
    (b >> 4) as nat
  }

  function WordBit(b: bv32): bv16 {
    1 << (b & 0xf)
  }

  predicate TestBit(t: Words, b: bv32)
    requires b < 64
  {
    t[WordOf(b)] & WordBit(b) != 0
  }

  function WithBit(t: Words, b: bv32): Words
    requires b < 64
  {
    t[WordOf(b) := t[WordOf(b)] | WordBit(b)]
  }

  lemma WithBitExactly(t: Words, b: bv32, c: bv32)
    requires b < 64 && c < 64
    ensures TestBit(WithBit(t, b), c) <==> TestBit(t, c) || b == c
  {
    if WordOf(b) == WordOf(c) {
      assert b >> 4 == c >> 4;
      SameWord(t[WordOf(b)], b, c);
    }
  }

  lemma SameWord(w: bv16, b: bv32, c: bv32)
    requires b < 64 && c < 64 && b >> 4 == c >> 4
    ensures (w | WordBit(b)) & WordBit(c) != 0 <==> w & WordBit(c) != 0 || b == c
  {
  }

  lemma BitOfWord(w: bv16, k: bv32)
    requires k < 16
    ensures w & (1 << k) != 0 <==> (w >> k) & 0x1 != 0
  {
    if k < 4 {
      BitOfWordFrom(w, k, 0);
    } else if k < 8 {
      BitOfWordFrom(w, k, 4);
    } else if k < 12 {
      BitOfWordFrom(w, k, 8);
    } else {
      BitOfWordFrom(w, k, 12);
    }
  }

  lemma BitOfWordFrom(w: bv16, k: bv32, from: bv32)
    requires from == 0 || from == 4 || from == 8 || from == 12
    requires from <= k < from + 4
    ensures w & (1 << k) != 0 <==> (w >> k) & 0x1 != 0
  {
    if k == from {
    } else if k == from + 1 {
    } else if k == from + 2 {
    } else {
      assert k == from + 3;
    }
  }

  lemma WordAndBit(b: bv32)
    requires b < 64
    ensures (b / 16) as nat < 4 && WordOf(b) == (b / 16) as nat
    ensures b & 0xf == b % 16 && b % 16 < 16
  {
    assert b / 16 == b >> 4;
  }

  predicate IsSet(w: bv16, k: bv32)
    requires k < 16
  {
    (w >> k) & 0x1 != 0
  }

  lemma BitAt(w: bv16, b: bv32, k: bv32)
    requires k < 16 && b & 0xf == k
    ensures w & WordBit(b) != 0 <==> IsSet(w, k)
  {
    BitOfWord(w, k);
  }

  /** Bit b of the filter is bit b % 16 of word b / 16. */
  lemma TestBitExactly(t: Words, b: bv32)
    requires b < 64
    ensures (b / 16) as nat < 4
    ensures b % 16 < 16 && (TestBit(t, b) <==> IsSet(t[(b / 16) as nat], b % 16))
  {
    hide WordOf, WordBit, IsSet;
    WordAndBit(b);
    BitAt(t[(b / 16) as nat], b, b % 16);
  }

  function Filter(addrs: seq<Address>): Words {
    if addrs == [] then [0, 0, 0, 0]
    else
      var t, a := Filter(addrs[..|addrs| - 1]), addrs[|addrs| - 1];
      if IsGroup(a) then WithBit(t, Hash(a)) else t
  }

  ghost predicate Listed(addrs: seq<Address>, b: bv32) {
    exists i | 0 <= i < |addrs| :: IsGroup(addrs[i]) && Hash(addrs[i]) == b
  }

  /** A filter bit is set exactly when it is the hash of a listed group address. */
  lemma {:induction false} FilterExactly(addrs: seq<Address>, b: bv32)
    requires b < 64
    ensures TestBit(Filter(addrs), b) <==> Listed(addrs, b)
  {
    hide TestBit, WithBit, Hash;
    if addrs == [] {
      EmptyFilter(b);
    } else {
      var init, a := addrs[..|addrs| - 1], addrs[|addrs| - 1];
      FilterExactly(init, b);
      WithBitExactly(Filter(init), Hash(a), b);
      assert Listed(addrs, b) <==> Listed(init, b) || (IsGroup(a) && Hash(a) == b) by {
        assert forall i | 0 <= i < |init| :: init[i] == addrs[i];
      }
    }
  }

  lemma EmptyFilter(b: bv32)
    requires b < 64
    ensures !TestBit([0, 0, 0, 0], b)
  {
  }

  /** No subscribed group is filtered out. */
  lemma SubscribedIsListed(addrs: seq<Address>, a: Address)
    requires a in addrs && IsGroup(a)
    ensures TestBit(Filter(addrs), Hash(a))
  {
    FilterExactly(addrs, Hash(a));
  }

  predicate Agree(v: bv16, w: bv16, b: bv32) {
    v & WordBit(b) != 0 <==> w & WordBit(b) != 0
  }

  lemma SameWordBits(v: bv16, w: bv16)
    requires forall b | 0 <= b < 16 :: Agree(v, w, b)
    ensures v == w
  {
    assert Agree(v, w, 0) && Agree(v, w, 1) && Agree(v, w, 2) && Agree(v, w, 3);
    assert Agree(v, w, 4) && Agree(v, w, 5) && Agree(v, w, 6) && Agree(v, w, 7);
    assert Agree(v, w, 8) && Agree(v, w, 9) && Agree(v, w, 10) && Agree(v, w, 11);
    assert Agree(v, w, 12) && Agree(v, w, 13) && Agree(v, w, 14) && Agree(v, w, 15);
  }

  lemma SameBits(t: Words, u: Words)
    requires forall b: bv32 | b < 64 :: TestBit(t, b) <==> TestBit(u, b)
    ensures t == u
  {
    forall i | 0 <= i < 4 ensures t[i] == u[i] {
      forall b: bv32 | b < 16 ensures Agree(t[i], u[i], b) {
        InWord(t, u, i, b);
      }
      SameWordBits(t[i], u[i]);
    }
  }

  lemma InWord(t: Words, u: Words, i: nat, b: bv32)
    requires i < 4 && b < 16 && forall c: bv32 | c < 64 :: TestBit(t, c) <==> TestBit(u, c)
    ensures Agree(t[i], u[i], b)
  {
    var c := Place(i, b);
    assert TestBit(t, c) <==> TestBit(u, c);
  }

  /** Bit b of word i in the whole filter. */
  function Place(i: nat, b: bv32): (c: bv32)
    requires i < 4 && b < 16
    ensures c < 64 && WordOf(c) == i && WordBit(c) == WordBit(b)
  {
    assert b >> 4 == 0 && (b + 16) >> 4 == 1 && (b + 32) >> 4 == 2 && (b + 48) >> 4 == 3;
    if i == 0 then b else if i == 1 then b + 16 else if i == 2 then b + 32 else b + 48
  }

  /** The filter depends only on which group addresses are listed, not on their order or number. */
  lemma FilterIsOrderIndependent(a: seq<Address>, b: seq<Address>)
    requires forall x: Address | IsGroup(x) :: x in a <==> x in b
    ensures Filter(a) == Filter(b)
  {
    hide TestBit, Filter, Hash, IsGroup;
    forall c: bv32 | c < 64 ensures TestBit(Filter(a), c) <==> TestBit(Filter(b), c) {
      FilterExactly(a, c);
      FilterExactly(b, c);
      if Listed(a, c) {
        ListedAlike(a, b, c);
      }
      if Listed(b, c) {
        ListedAlike(b, a, c);
      }
    }
    SameBits(Filter(a), Filter(b));
  }

  lemma ListedAlike(a: seq<Address>, b: seq<Address>, c: bv32)
    requires Listed(a, c) && forall x: Address | IsGroup(x) :: x in a <==> x in b
    ensures Listed(b, c)
  {
    hide Hash, IsGroup;
    var i :| 0 <= i < |a| && IsGroup(a[i]) && Hash(a[i]) == c;
    assert a[i] in a;
    var j :| 0 <= j < |b| && b[j] == a[i];
  }

  /** The entries used for the filter. */
  function Used(addrs: seq<Address>): (r: seq<Address>)
    ensures |r| <= |addrs|
  {
    if addrs == [] then []
    else Used(addrs[..|addrs| - 1]) + if IsGroup(addrs[|addrs| - 1]) then [addrs[|addrs| - 1]] else []
  }

  lemma {:induction false} UsedAre(addrs: seq<Address>, x: Address)
    ensures x in Used(addrs) <==> x in addrs && IsGroup(x)
  {
    if addrs != [] {
      hide IsGroup;
      var init, a := addrs[..|addrs| - 1], addrs[|addrs| - 1];
      UsedAre(init, x);
      assert x in addrs <==> x in init || x == a by {
        assert addrs == init + [a];
      }
    }
  }

  /** The entries used are the listed group addresses, and the filter is made of them alone. */
  lemma UsedMakeTheFilter(addrs: seq<Address>)
    ensures forall x: Address :: x in Used(addrs) <==> x in addrs && IsGroup(x)
    ensures Filter(Used(addrs)) == Filter(addrs)
  {
    hide IsGroup, Filter, Used;
    forall x: Address ensures x in Used(addrs) <==> x in addrs && IsGroup(x) {
      UsedAre(addrs, x);
    }
    FilterIsOrderIndependent(Used(addrs), addrs);
  }

  /** The documented result, the number of entries used, is the number of entries exactly when every listed
      address is a group address. */
  lemma {:induction false} UsedExactly(addrs: seq<Address>)
    ensures |Used(addrs)| == |addrs| <==> forall i | 0 <= i < |addrs| :: IsGroup(addrs[i])
  {
    if addrs != [] {
      hide IsGroup;
      UsedExactly(addrs[..|addrs| - 1]);
    }
  }

  /** A list of one address, which is counted, although nothing of it is used for the filter. */
  lemma UnicastIsNotUsed()
    ensures var a: Address := [0, 0, 0, 0, 0, 1]; |[a]| == 1 && Used([a]) == [] && Filter([a]) == [0, 0, 0, 0]
  {
    var a: Address := [0, 0, 0, 0, 0, 1];
    assert [a][..0] == [] && Filter([]) == [0, 0, 0, 0];
  }

  // ----- what the hash is -----

  /** The remainder of an address, its first 32 bits complemented, shifted up by 32 places. */
  function Remainder(a: Address): (rem: seq<bool>)
    ensures |rem| == 32
  {
    LongDiv(Onto(seq(32, i => true), Message(a) + Zeros(32)))
  }

  lemma AllOnes()
    ensures RegBits(ALL_ONES) == seq(32, i => true)
  {
    hide Mask;
    MaskValues();
  }

  lemma TopSix(r: bv32)
    ensures RegBits(r >> 26)[..6] == RegBits(r)[26..]
  {
    var top := RegBits(r)[26..];
    forall i | 0 <= i < 6 ensures RegBits(r >> 26)[i] == top[i] {
      TopSixAt(r, i);
    }
  }

  lemma TopSixAt(r: bv32, i: nat)
    requires i < 6
    ensures Bit(r >> 26, i) == Bit(r, 26 + i)
  {
    hide Mask;
    MaskValues();
  }

  /** The filter bit of an address is what the six lowest coefficients of the remainder spell. */
  lemma HashExactly(a: Address, b: bv32)
    requires b < 64
    ensures Hash(a) == b <==> RegBits(b)[..6] == Remainder(a)[26..]
  {
    AllOnes();
    CrcIsDivision(ALL_ONES, Message(a));
    TopSix(Crc(ALL_ONES, Message(a)));
    SixBitsDecide(Hash(a), b);
  }

  lemma SixBitsDecide(b: bv32, c: bv32)
    requires b < 64 && c < 64
    ensures b == c <==> RegBits(b)[..6] == RegBits(c)[..6]
  {
    hide Mask;
    MaskValues();
    if RegBits(b)[..6] == RegBits(c)[..6] {
      forall i | 0 <= i < 6 ensures Bit(b, i) == Bit(c, i) {
        assert RegBits(b)[..6][i] == RegBits(c)[..6][i];
      }
      assert Bit(b, 0) == Bit(c, 0) && Bit(b, 1) == Bit(c, 1) && Bit(b, 2) == Bit(c, 2);
      assert Bit(b, 3) == Bit(c, 3) && Bit(b, 4) == Bit(c, 4) && Bit(b, 5) == Bit(c, 5);
    }
  }

  // ----- one address -----

  lemma {:induction false} CrcConcat(r: bv32, a: seq<bool>, b: seq<bool>)
    ensures Crc(r, a + b) == Crc(Crc(r, a), b)
    decreases |a|
  {
    hide CrcStep;
    if a == [] {
      assert a + b == b;
    } else {
      assert (a + b)[1..] == a[1..] + b;
      CrcConcat(CrcStep(r, a[0]), a[1..], b);
    }
  }

  /** The register after the n lowest bits of b. */
  function AfterBits(r: bv32, b: bv32, n: nat): bv32
    decreases n
  {
    if n == 0 then r else AfterBits(CrcStep(r, b & 0x1 != 0), b >> 1, n - 1)
  }

  lemma {:induction false} AfterBitsExactly(r: bv32, b: bv32, n: nat)
    ensures AfterBits(r, b, n) == Crc(r, LowBits(b, n))
    decreases n
  {
    hide CrcStep;
    if n > 0 {
      assert LowBits(b, n)[1..] == LowBits(b >> 1, n - 1);
      AfterBitsExactly(CrcStep(r, b & 0x1 != 0), b >> 1, n - 1);
    }
  }

  lemma NextByte(r: bv32, a: Address, i: nat, b: bv32)
    requires i < 6 && a[i] as bv32 == b
    ensures Crc(r, Message(a[i..])) == Crc(AfterBits(r, b, 8), Message(a[i + 1..]))
  {
    hide Crc, LowBits, AfterBits;
    assert a[i..][1..] == a[i + 1..];
    CrcConcat(r, ByteBits(a[i]), Message(a[i + 1..]));
    AfterBitsExactly(r, b, 8);
  }

  lemma AfterFirstByte()
    ensures AfterBits(ALL_ONES, 0x1, 8) == 0x5afa20e4
  {
  }

  lemma AfterSecondByte()
    ensures AfterBits(0x5afa20e4, 0x0, 8) == 0xa73ddc41
  {
  }

  lemma AfterThirdByte()
    ensures AfterBits(0xa73ddc41, 0x5e, 8) == 0x8daf3029
  {
  }

  lemma AfterFourthByte()
    ensures AfterBits(0x8daf3029, 0x0, 8) == 0x423f375c
  {
  }

  lemma AfterFifthByte()
    ensures AfterBits(0x423f375c, 0x0, 8) == 0x629f22e8
  {
  }

  lemma AfterSixthByte()
    ensures AfterBits(0x629f22e8, 0xfb, 8) == 0x84dcdefc
  {
  }

  /** The group address 01:00:5e:00:00:fb has filter bit 33, which is bit 1 of the third word. */
  lemma KnownAddress()
    ensures var a: Address := [0x1, 0x0, 0x5e, 0x0, 0x0, 0xfb]; Hash(a) == 33 && Filter([a]) == [0, 0, 2, 0]
  {
    hide Crc, AfterBits, Message;
    var a: Address := [0x1, 0x0, 0x5e, 0x0, 0x0, 0xfb];
    AfterFirstByte();
    AfterSecondByte();
    AfterThirdByte();
    AfterFourthByte();
    AfterFifthByte();
    AfterSixthByte();
    NextByte(ALL_ONES, a, 0, 0x1);
    NextByte(0x5afa20e4, a, 1, 0x0);
    NextByte(0xa73ddc41, a, 2, 0x5e);
    NextByte(0x8daf3029, a, 3, 0x0);
    NextByte(0x423f375c, a, 4, 0x0);
    NextByte(0x629f22e8, a, 5, 0xfb);
    assert a[0..] == a && a[6..] == [];
    NothingMore(0x84dcdefc);
    Bit33(0x84dcdefc);
    assert Hash(a) == 33;
    assert IsGroup(a);
    OneListed(a);
  }

  lemma Bit33(r: bv32)
    requires r == 0x84dcdefc
    ensures r >> 26 == 33 && WithBit([0, 0, 0, 0], 33) == [0, 0, 2, 0]
  {
    assert WordOf(33) == 2;
  }

  lemma OneListed(a: Address)
    requires IsGroup(a)
    ensures Filter([a]) == WithBit([0, 0, 0, 0], Hash(a))
  {
    assert [a][..0] == [] && Filter([]) == [0, 0, 0, 0];
  }

  lemma NothingMore(r: bv32)
    ensures Crc(r, Message([])) == r
  {
  }

  // ----- the loops -----

  lemma StepTest(bit: bv32, crc: bv32)
    ensures (bit ^ crc) & 0x1 != 0 <==> ((bit & 0x1 != 0) != (crc & 0x1 != 0))
  {
  }

  method HashAddress(a: Address) returns (crc: bv32)
    ensures crc == Hash(a)
  {
    crc := ALL_ONES;
    var i := 0;
    while i < 6
      invariant 0 <= i <= 6
      invariant Crc(crc, Message(a[i..])) == Crc(ALL_ONES, Message(a))
    {
      var bit, j := a[i] as bv32, 0;
      ghost var rest := Message(a[i + 1..]);
      assert Message(a[i..]) == LowBits(bit, 8) + rest;
      while j < 8
        invariant 0 <= j <= 8
        invariant Crc(crc, LowBits(bit, 8 - j) + rest) == Crc(ALL_ONES, Message(a))
      {
        CrcNext(crc, bit, 8 - j, rest);
        StepTest(bit, crc);
        var test := (bit ^ crc) & 0x1;
        crc := crc >> 1;
        if test != 0 {
          crc := crc ^ CRC_POLYNOMIAL_LE;
        }
        bit, j := bit >> 1, j + 1;
      }
      assert LowBits(bit, 0) + rest == rest;
      i := i + 1;
    }
    assert a[6..] == [];
    crc := crc >> 26;
  }

  lemma CrcNext(crc: bv32, bit: bv32, n: nat, rest: seq<bool>)
    requires n > 0
    ensures Crc(crc, LowBits(bit, n) + rest) == Crc(CrcStep(crc, bit & 0x1 != 0), LowBits(bit >> 1, n - 1) + rest)
  {
    assert (LowBits(bit, n) + rest)[1..] == LowBits(bit >> 1, n - 1) + rest;
  }

  /** The filter words in shared memory. */
  class DriverData {
    const ladrf: array<bv16>

    constructor ()
      ensures ladrf.Length == 4 && fresh(ladrf)
    {
      ladrf := new bv16[4](_ => 0);
    }

    method SetBit(crc: bv32)
      requires ladrf.Length == 4 && crc < 64
      modifies ladrf
      ensures ladrf[..] == WithBit(old(ladrf[..]), crc)
    {
      ladrf[(crc >> 4) as nat] := ladrf[(crc >> 4) as nat] | (1 << (crc & 0xf));
    }

    /** vmxnet_load_multicast. The result counts all listed addresses, also those skipped, and so is the number
        of those used exactly if none is skipped. */
    method LoadMulticast(addrs: seq<Address>) returns (count: nat)
      requires ladrf.Length == 4
      modifies ladrf
      ensures ladrf[..] == Filter(addrs) && count == |addrs|
      ensures count == |Used(addrs)| <==> forall k | 0 <= k < |addrs| :: IsGroup(addrs[k])
    {
      hide WithBit, Hash, Used;
      UsedExactly(addrs);
      ladrf[0], ladrf[1], ladrf[2], ladrf[3] := 0, 0, 0, 0;
      var i := 0;
      while i < |addrs|
        invariant 0 <= i <= |addrs|
        invariant ladrf[..] == Filter(addrs[..i])
      {
        var a := addrs[i];
        assert addrs[..i + 1][..i] == addrs[..i];
        if a[0] & 0x1 != 0 {
          var crc := HashAddress(a);
          SetBit(crc);
        }
        i := i + 1;
      }
      assert addrs[..|addrs|] == addrs;
      return i;
    }
  }
}
