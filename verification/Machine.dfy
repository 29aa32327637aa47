/** Fixed-width machine integers, written out on Dafny's unbounded `int`, and the
    few facts about remainders that the other modules share. */
module Machine {
  datatype Option<+T> = None | Some(value: T)

  const TWO16: nat := 0x1_0000
  const TWO32: nat := 0x1_0000_0000
  const TWO64: nat := 0x1_0000_0000_0000_0000

  type u16 = x: int | 0 <= x < TWO16
  type u32 = x: int | 0 <= x < TWO32
  type u64 = x: int | 0 <= x < TWO64

  /** Conversion to an unsigned type keeps the value modulo the type's range. */
  function U16(x: int): u16 { x % TWO16 }
  function U32(x: int): u32 { x % TWO32 }
  function U64(x: int): u64 { x % TWO64 }

  /** Conversion to a signed type: the two's complement reading of the low bits. */
  function S16(x: int): (r: int)
    ensures -0x8000 <= r < 0x8000
  {
    (x + 0x8000) % TWO16 - 0x8000
  }

  function S64(x: int): (r: int)
    ensures -0x8000_0000_0000_0000 <= r < 0x8000_0000_0000_0000
  {
    (x + 0x8000_0000_0000_0000) % TWO64 - 0x8000_0000_0000_0000
  }

  function Bit(b: bool): nat { if b then 1 else 0 }

  /** x and y leave the same remainder modulo m, stated by a quotient. */
  ghost predicate Congruent(x: int, y: int, m: nat) {
    exists k: int :: x == y + k * m
  }

  lemma MulMonotone(a: int, b: int, m: int)
    requires a <= b && 0 <= m
    ensures a * m <= b * m
  {
    assert (b - a) * m >= 0;
    assert (b - a) * m == b * m - a * m;
  }

  lemma RemainderUnique(x: int, m: nat, q: int, r: int)
    requires m > 0 && 0 <= r < m && x == q * m + r
    ensures x / m == q && x % m == r
  {
    var d := x / m - q;
    assert x == (x / m) * m + x % m;
    assert d * m == r - x % m by {
      assert d * m == (x / m) * m - q * m;
    }
    if d >= 1 {
      MulMonotone(1, d, m);
    } else if d <= -1 {
      MulMonotone(d, -1, m);
    }
  }

  lemma SameRemainder(x: int, y: int, m: nat, k: int)
    requires m > 0 && x == y + k * m
    ensures x % m == y % m
  {
    var q := y / m;
    assert y == q * m + y % m;
    assert x == (q + k) * m + y % m by {
      assert (q + k) * m == q * m + k * m;
    }
    RemainderUnique(x, m, q + k, y % m);
  }

  lemma EqualRemainders(x: int, y: int, m: nat)
    requires m > 0 && x % m == y % m
    ensures Congruent(x, y, m)
  {
    var k := x / m - y / m;
    assert x == (x / m) * m + x % m && y == (y / m) * m + y % m;
    assert k * m == (x / m) * m - (y / m) * m;
    assert x == y + k * m;
  }

  /** Two numbers closer together than m that leave the same remainder are equal. */
  lemma CloseAndCongruent(x: int, y: int, m: nat)
    requires m > 0 && x % m == y % m && -(m as int) < x - y < m
    ensures x == y
  {
    EqualRemainders(x, y, m);
    var k :| x == y + k * m;
    if k >= 1 {
      MulMonotone(1, k, m);
    } else if k <= -1 {
      MulMonotone(k, 0 - 1, m);
    }
  }

  lemma RemainderOfRemainder(k: nat, m: nat, t: nat)
    requires m > 0 && t > 0 && m % t == 0
    ensures (k % m) % t == k % t
  {
    var c, q := m / t, k / m;
    assert k == q * m + k % m && m == c * t;
    assert q * m == (q * c) * t;
    SameRemainder(k, k % m, t, q * c);
  }

  lemma AppendAssociates<T>(a: seq<T>, b: seq<T>, c: seq<T>)
    ensures a + b + c == a + (b + c)
  {
  }

  lemma PrefixWithout<T>(d: seq<T>, a: seq<T>, b: seq<T>)
    requires d + a <= d + b
    ensures a <= b
  {
    assert (d + a)[|d|..] == a && (d + b)[|d|..] == b;
    forall k | 0 <= k < |a|
      ensures a[k] == b[k]
    {
      assert (d + a)[|d| + k] == (d + b)[|d| + k];
    }
  }

  lemma AddWrapped(x: int, y: int)
    ensures U32(U32(x) + y) == U32(x + y)
  {
    SameRemainder(U32(x) + y, x + y, TWO32, 0 - x / TWO32);
  }
}
