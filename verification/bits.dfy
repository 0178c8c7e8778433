/** Binary expansions: single bits, the positions of the one bits, and sums of powers of two. */
module Bits {
  import opened Arithmetic
  import opened Ordering

  /** Bit `k` of `m`, as `m & (1 << k) != 0` tests it. */
  predicate Bit(m: nat, k: nat) {
    if k == 0 then m % 2 == 1 else Bit(m / 2, k - 1)
  }

  /** Adding a multiple of a higher power of two leaves a bit alone. */
  lemma {:induction false} LowBitUnchanged(m: nat, k: nat, q: nat, b: nat)
    requires b < k
    ensures Bit(m + Power(2, k) * q, b) <==> Bit(m, b)
  {
    var p := Power(2, k - 1) * q;
    assert Power(2, k) * q == 2 * p;
    if b == 0 {
    } else {
      assert (m + 2 * p) / 2 == m / 2 + p;
      LowBitUnchanged(m / 2, k - 1, q, b - 1);
    }
  }

  /** Above a low part, the bits are those of what it is added to. */
  lemma {:induction false} HighBitShifts(low: nat, k: nat, q: nat, b: nat)
    requires low < Power(2, k)
    ensures Bit(low + Power(2, k) * q, k + b) <==> Bit(q, b)
  {
    if k == 0 {
    } else {
      var p := Power(2, k - 1) * q;
      assert Power(2, k) * q == 2 * p;
      assert (low + 2 * p) / 2 == low / 2 + p;
      HighBitShifts(low / 2, k - 1, q, b);
    }
  }

  lemma {:induction false} ZeroHasNoBits(k: nat)
    ensures !Bit(0, k)
  {
    if k == 0 {
    } else {
      ZeroHasNoBits(k - 1);
    }
  }

  lemma OnlyBitOfOne(k: nat)
    ensures Bit(1, k) <==> k == 0
  {
    if k > 0 {
      ZeroHasNoBits(k - 1);
    }
  }

  predicate Ascending(s: seq<nat>) {
    forall i, j | 0 <= i < j < |s| :: s[i] < s[j]
  }

  /** The positions of the one bits below `k`, in order. */
  function BitsBelow(m: nat, k: nat): seq<nat> {
    if k == 0 then [] else if Bit(m, k - 1) then BitsBelow(m, k - 1) + [k - 1] else BitsBelow(m, k - 1)
  }

  lemma {:induction false} BitsBelowAre(m: nat, k: nat)
    ensures Ascending(BitsBelow(m, k)) && forall b :: b in BitsBelow(m, k) <==> 0 <= b < k && Bit(m, b)
  {
    if k == 0 {
    } else {
      BitsBelowAre(m, k - 1);
      var lower := BitsBelow(m, k - 1);
      assert forall i | 0 <= i < |lower| :: lower[i] in lower;
    }
  }

  function SumOfPowers(bits: seq<nat>): nat {
    if bits == [] then 0 else SumOfPowers(bits[..|bits| - 1]) + Power(2, bits[|bits| - 1])
  }

  lemma {:induction false} SumIsBounded(bits: seq<nat>, k: nat)
    requires Ascending(bits) && forall b | b in bits :: b < k
    ensures SumOfPowers(bits) < Power(2, k)
  {
    PowerPositive(2, k);
    if bits == [] {
    } else {
      var front, last := bits[..|bits| - 1], bits[|bits| - 1];
      SumIsBounded(front, last);
      assert last in bits;
      PowerMono(last + 1, k);
    }
  }

  /** The bits of a sum of distinct powers of two are its exponents. */
  lemma {:induction false} BitsOfSum(bits: seq<nat>, b: nat)
    requires Ascending(bits)
    ensures Bit(SumOfPowers(bits), b) <==> b in bits
  {
    if bits == [] {
      ZeroHasNoBits(b);
    } else {
      hide Bit, Power;
      var front, last := bits[..|bits| - 1], bits[|bits| - 1];
      var low := SumOfPowers(front);
      assert bits == front + [last];
      BitsOfSum(front, b);
      SumIsBounded(front, last);
      if b < last {
        LowBitUnchanged(low, last, 1, b);
      } else {
        HighBitShifts(low, last, 1, b - last);
        OnlyBitOfOne(b - last);
      }
    }
  }

  predicate NatLess(a: nat, b: nat) { a < b }

  /** A list of bit positions and the sum of its powers determine each other. */
  lemma ExpansionIsUnique(bits: seq<nat>, k: nat)
    requires Ascending(bits) && forall b | b in bits :: b < k
    ensures BitsBelow(SumOfPowers(bits), k) == bits
  {
    var other := BitsBelow(SumOfPowers(bits), k);
    BitsBelowAre(SumOfPowers(bits), k);
    forall b: nat ensures b in other <==> b in bits {
      BitsOfSum(bits, b);
    }
    IncreasingIsUnique(NatLess, other, bits);
  }

  /** `m` below bit `k`, summed from its bits. */
  function Low(m: nat, k: nat): nat {
    if k == 0 then 0 else Low(m, k - 1) + if Bit(m, k - 1) then Power(2, k - 1) else 0
  }

  lemma {:induction false} LowFromHalf(m: nat, k: nat)
    requires k > 0
    ensures Low(m, k) == m % 2 + 2 * Low(m / 2, k - 1)
  {
    if k == 1 {
    } else {
      LowFromHalf(m, k - 1);
    }
  }

  lemma {:induction false} LowIsAll(m: nat, k: nat)
    requires m < Power(2, k)
    ensures Low(m, k) == m
  {
    if k == 0 {
    } else {
      LowFromHalf(m, k);
      LowIsAll(m / 2, k - 1);
    }
  }

  lemma {:induction false} SumOfBitsBelow(m: nat, k: nat)
    ensures SumOfPowers(BitsBelow(m, k)) == Low(m, k)
  {
    if k == 0 {
    } else {
      SumOfBitsBelow(m, k - 1);
      var lower := BitsBelow(m, k - 1);
      assert (lower + [k - 1])[..|lower|] == lower;
    }
  }

  /** The powers at the one bits of a number sum up to it. */
  lemma SumOfAllBits(m: nat, k: nat)
    requires m < Power(2, k)
    ensures SumOfPowers(BitsBelow(m, k)) == m
  {
    SumOfBitsBelow(m, k);
    LowIsAll(m, k);
  }
}
