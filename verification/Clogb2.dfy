/** The width function of the AXI master: how many bits its transaction counters get, and
    that they suffice. */
module Clogb2 {
  function Pow2(k: nat): (r: nat)
    ensures r > 0
  {
    if k == 0 then 1 else 2 * Pow2(k - 1)
  }

  /** Number of binary digits of x; none for zero. */
  function BitLength(x: nat): nat {
    if x == 0 then 0 else 1 + BitLength(x / 2)
  }

  lemma {:induction false} BitLengthBounds(x: nat)
    requires x > 0
    ensures BitLength(x) >= 1
    ensures Pow2(BitLength(x) - 1) <= x < Pow2(BitLength(x))
  {
    if x == 1 {
      assert BitLength(0) == 0 && Pow2(0) == 1 && Pow2(1) == 2 * Pow2(0);
    } else {
      BitLengthBounds(x / 2);
      assert Pow2(BitLength(x / 2)) == 2 * Pow2(BitLength(x / 2) - 1);
      assert Pow2(BitLength(x / 2) + 1) == 2 * Pow2(BitLength(x / 2));
    }
  }

  lemma {:induction false} BitLengthAtMost(x: nat)
    ensures BitLength(x) <= x
  {
    if x > 0 { BitLengthAtMost(x / 2); }
  }

  /** What clogb2 computes: the bit length, but 1 for every argument up to 2. */
  function Width(bitDepth: nat): (count: nat)
    ensures count >= 1
  {
    if bitDepth <= 2 then 1 else BitLength(bitDepth)
  }

  /** clogb2 as written: the loop goes on to bit_depth although the count settles
      earlier. */
  method ClogB2(bitDepth: nat) returns (count: nat)
    ensures count == Width(bitDepth)
  {
    var depth := bitDepth;
    count := 1;
    for k := 1 to bitDepth + 1
      invariant bitDepth <= 2 ==> count == 1
      invariant bitDepth > 2 ==> depth >= 1 && count + BitLength(depth) == BitLength(bitDepth) + 1
      invariant bitDepth > 2 ==> BitLength(depth) == 1 || count >= k
    {
      if bitDepth <= 2 {
        count := 1;
      } else if depth > 1 {
        depth := depth / 2;
        count := count + 1;
      }
    }
    BitLengthAtMost(bitDepth);
  }

  /** TRANS_NUM_BITS */
  function TransNumBits(n: nat): nat
    requires n >= 1
  {
    Width(n - 1)
  }

  /** The counters are TRANS_NUM_BITS downto 0. */
  function IndexRange(n: nat): (range: nat)
    ensures range > 0
  {
    if n == 0 then 1 else Pow2(TransNumBits(n) + 1)
  }

  /** For every number of transactions the counters can represent it, so neither wraps on
      the way there. */
  lemma WidthSuffices(n: nat)
    requires n >= 1
    ensures n < IndexRange(n)
  {
    var w := TransNumBits(n);
    assert Pow2(w + 1) == 2 * Pow2(w);
    if n - 1 <= 2 {
      assert Pow2(0) == 1 && Pow2(1) == 2 && Pow2(2) == 4;
    } else {
      BitLengthBounds(n - 1);
    }
  }

  /** The width is the smallest possible for the last index, n - 1, once n exceeds 3, and the
      counters have one bit more. */
  lemma WidthIsTight(n: nat)
    requires n >= 1
    ensures n <= 3 ==> TransNumBits(n) == 1 && IndexRange(n) == 4
    ensures n > 3 ==> Pow2(TransNumBits(n) - 1) <= n - 1 < Pow2(TransNumBits(n))
    ensures n > 3 ==> 2 * (n - 1) < IndexRange(n) <= 4 * (n - 1)
  {
    assert Pow2(0) == 1 && Pow2(1) == 2 && Pow2(2) == 4;
    if n > 3 {
      BitLengthBounds(n - 1);
      assert Pow2(TransNumBits(n)) == 2 * Pow2(TransNumBits(n) - 1);
      assert IndexRange(n) == 2 * Pow2(TransNumBits(n));
    }
  }

  lemma {:induction false} Pow2Increases(a: nat, b: nat)
    requires a < b
    ensures Pow2(a) < Pow2(b)
    decreases b
  {
    if a < b - 1 { Pow2Increases(a, b - 1); }
  }

  /** k is the ceiling of the base-2 logarithm of x. */
  predicate CeilingOfLog(x: nat, k: nat) {
    x <= Pow2(k) && (k == 0 || Pow2(k - 1) < x)
  }

  /** What the comment on clogb2 promises is the ceiling of the logarithm. The code gives
      it for 2 and for every larger number that is not a power of two; for 1 and for the
      other powers of two it gives one bit more. */
  lemma CeilingExactly(x: nat)
    requires x >= 1
    ensures CeilingOfLog(x, Width(x)) <==> x == 2 || (x > 2 && forall k: nat :: Pow2(k) != x)
  {
    assert Pow2(0) == 1 && Pow2(1) == 2;
    if x > 2 {
      var b := BitLength(x);
      BitLengthBounds(x);
      forall k: nat | Pow2(k) == x
        ensures k == b - 1
      {
        if k < b - 1 { Pow2Increases(k, b - 1); }
        if k > b { Pow2Increases(b, k); }
      }
    }
  }
}
