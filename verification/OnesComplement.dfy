/** Ones'-complement arithmetic on 16-bit words, as section 1 of RFC 1071 defines it, and the
    facts about residues modulo 0xFFFF that every checksum in the repository rests on.
    Zero has two representations, 0 and 0xFFFF; `Normal` picks the one an accumulator reaches. */
module OnesComplement {
  import opened MachineInts

  /** The low half of a number written in base 65536. */
  lemma LowHalf(x: int, q: int, r: uint16)
    requires x == 0x1_0000 * q + r
    ensures x / 0x1_0000 == q && x % 0x1_0000 == r
  {
  }

  lemma LowBit(x: int, q: int, r: int)
    requires x == 2 * q + r && 0 <= r < 2
    ensures x % 2 == r
  {
  }

  /** 16-bit addition with the carry out of the top added back at the bottom. */
  function OnesAdd(a: uint16, b: uint16): uint16 {
    if a + b > 0xFFFF then a + b - 0xFFFF else a + b
  }

  /** The ones'-complement sum of a list of words. */
  function OnesSum(ws: seq<uint16>): uint16 {
    if ws == [] then 0 else OnesAdd(OnesSum(ws[..|ws| - 1]), ws[|ws| - 1])
  }

  /** The ordinary integer sum of a list of words. */
  function Total(ws: seq<uint16>): nat {
    if ws == [] then 0 else Total(ws[..|ws| - 1]) + ws[|ws| - 1]
  }

  /** A message verifies when its ones'-complement sum is all ones. */
  predicate Verifies(ws: seq<uint16>) {
    OnesSum(ws) == 0xFFFF
  }

  /** The 16-bit representative of n that a carry-folding sum ends with: 0 only for 0. */
  function Normal(n: nat): (r: uint16)
    ensures r == 0 <==> n == 0
    ensures (n - r) % 0xFFFF == 0
  {
    if n == 0 then 0 else (n - 1) % 0xFFFF + 1
  }

  /** Multiples of 0xFFFF are closed under addition, subtraction and shifting. */
  lemma Multiples(a: int, b: int)
    requires a % 0xFFFF == 0 && b % 0xFFFF == 0
    ensures (a + b) % 0xFFFF == 0 && (a - b) % 0xFFFF == 0 && (0x100 * a) % 0xFFFF == 0
  {
    var p, q := a / 0xFFFF, b / 0xFFFF;
    MultipleOf(a + b, p + q);
    MultipleOf(a - b, p - q);
    MultipleOf(0x100 * a, 0x100 * p);
  }

  lemma MultipleOf(x: int, k: int)
    requires x == 0xFFFF * k
    ensures x % 0xFFFF == 0
  {
  }

  lemma NormalUnique(n: nat, r: uint16)
    requires n > 0 && r > 0 && (n - r) % 0xFFFF == 0
    ensures Normal(n) == r
  {
    assert n - 1 == (n - r) + (r - 1);
    assert (n - 1) % 0xFFFF == r - 1;
  }

  lemma {:induction false} OnesSumIsNormal(ws: seq<uint16>)
    ensures OnesSum(ws) == Normal(Total(ws))
  {
    if ws != [] {
      var init, last := ws[..|ws| - 1], ws[|ws| - 1];
      OnesSumIsNormal(init);
      if Total(ws) > 0 {
        NormalUnique(Total(ws), OnesAdd(OnesSum(init), last));
      }
    }
  }

  /** When two totals have the same representative. */
  lemma SameNormalExactly(a: nat, b: nat)
    ensures Normal(a) == Normal(b) <==> (b - a) % 0xFFFF == 0 && (a == 0 <==> b == 0)
  {
    var r, s: int := Normal(a), Normal(b);
    if r == s {
      Multiples(b - s, a - r);
      assert (b - s) - (a - r) == b - a;
    } else if a > 0 && b > 0 && (b - a) % 0xFFFF == 0 {
      Multiples(b - a, a - r);
      assert (b - a) + (a - r) == b - r;
      NormalUnique(b, r);
    }
  }

  /** Verification in terms of the plain sum: a positive multiple of 0xFFFF. */
  lemma VerifiesExactly(ws: seq<uint16>)
    ensures Verifies(ws) <==> Total(ws) > 0 && Total(ws) % 0xFFFF == 0
  {
    OnesSumIsNormal(ws);
    if Total(ws) > 0 && Total(ws) % 0xFFFF == 0 {
      NormalUnique(Total(ws), 0xFFFF);
    }
  }

  lemma TotalAppend(ws: seq<uint16>, w: uint16)
    ensures Total(ws + [w]) == Total(ws) + w
  {
    assert (ws + [w])[..|ws|] == ws;
  }

  lemma {:induction false} TotalConcat(a: seq<uint16>, b: seq<uint16>)
    ensures Total(a + b) == Total(a) + Total(b)
  {
    if b == [] {
      assert a + b == a;
    } else {
      var n := |b| - 1;
      assert a + b == (a + b[..n]) + [b[n]];
      TotalAppend(a + b[..n], b[n]);
      TotalConcat(a, b[..n]);
    }
  }

  /** Replacing one word moves the sum by the difference. */
  lemma {:induction false} TotalUpdate(ws: seq<uint16>, i: nat, w: uint16)
    requires i < |ws|
    ensures Total(ws[i := w]) == Total(ws) - ws[i] + w
  {
    var n := |ws| - 1;
    if i == n {
      assert ws[i := w][..n] == ws[..n];
    } else {
      assert ws[i := w][..n] == ws[..n][i := w];
      TotalUpdate(ws[..n], i, w);
    }
  }

  lemma {:induction false} TotalZero(ws: seq<uint16>)
    ensures Total(ws) == 0 <==> forall i :: 0 <= i < |ws| ==> ws[i] == 0
  {
    if ws != [] {
      var n := |ws| - 1;
      TotalZero(ws[..n]);
      assert forall i :: 0 <= i < n ==> ws[..n][i] == ws[i];
    }
  }

  lemma {:induction false} TotalBound(ws: seq<uint16>)
    ensures Total(ws) <= |ws| * 0xFFFF
  {
    if ws != [] {
      TotalBound(ws[..|ws| - 1]);
    }
  }

  /** The byte swap between host orders. */
  function Swap(w: uint16): (r: uint16) {
    w % 0x100 * 0x100 + w / 0x100
  }

  function SwapAll(ws: seq<uint16>): seq<uint16> {
    seq(|ws|, i requires 0 <= i < |ws| => Swap(ws[i]))
  }

  lemma SwapInvolution(w: uint16)
    ensures Swap(Swap(w)) == w
    ensures Swap(w) == 0 <==> w == 0
    ensures Swap(w) == 0xFFFF <==> w == 0xFFFF
    ensures (0x100 * w - Swap(w)) % 0xFFFF == 0
  {
    var lo, hi := w % 0x100, w / 0x100;
    assert w == 0x100 * hi + lo;
    assert Swap(w) % 0x100 == hi && Swap(w) / 0x100 == lo;
    assert 0x100 * w - Swap(w) == 0xFFFF * hi;
  }

  lemma {:induction false} SwapTotal(ws: seq<uint16>)
    ensures (0x100 * Total(ws) - Total(SwapAll(ws))) % 0xFFFF == 0
    ensures Total(ws) == 0 <==> Total(SwapAll(ws)) == 0
  {
    if ws != [] {
      var n := |ws| - 1;
      SwapTotal(ws[..n]);
      assert SwapAll(ws)[..n] == SwapAll(ws[..n]);
      SwapInvolution(ws[n]);
      Multiples(0x100 * Total(ws[..n]) - Total(SwapAll(ws[..n])), 0x100 * ws[n] - Swap(ws[n]));
      assert 0x100 * Total(ws) - Total(SwapAll(ws))
          == (0x100 * Total(ws[..n]) - Total(SwapAll(ws[..n]))) + (0x100 * ws[n] - Swap(ws[n]));
    }
  }

  /** Byte-order independence, section 2(B) of RFC 1071: summing swapped words gives the swapped sum. */
  lemma SwapCommutesWithSum(ws: seq<uint16>)
    ensures OnesSum(SwapAll(ws)) == Swap(OnesSum(ws))
  {
    var t, u := Total(ws), Total(SwapAll(ws));
    OnesSumIsNormal(ws);
    OnesSumIsNormal(SwapAll(ws));
    SwapTotal(ws);
    SwapInvolution(Normal(t));
    if t > 0 {
      var s := Swap(Normal(t));
      Multiples(t - Normal(t), 0x100 * t - u);
      Multiples(0x100 * (t - Normal(t)), 0x100 * t - u);
      Multiples(0x100 * (t - Normal(t)) - (0x100 * t - u), 0x100 * Normal(t) - s);
      assert u - s == 0x100 * (t - Normal(t)) - (0x100 * t - u) + (0x100 * Normal(t) - s);
      NormalUnique(u, s);
    }
  }
}
