/** Bit reversal of a byte, the `reverse_bit` helper of the driver.

    The panel reads line addresses least-significant bit first while the SPI
    bus shifts most-significant bit first, so every address byte is mirrored
    before it is written. The argument is an unbounded (Python) integer: the
    loop looks at its low eight bits only. Python's `n & 1` and `n >> 1` are
    `n % 2` and `n / 2` in Dafny for every integer, negative ones included,
    because Dafny's division by a positive divisor rounds down as Python's
    shift does. */
module ReverseBit {

  /** 2 to the power k. */
  function Pow2(k: nat): (r: nat)
    ensures r >= 1
  {
    if k == 0 then 1 else 2 * Pow2(k - 1)
  }

  /** Bit i of n in two's complement, i.e. Python's `(n >> i) & 1`. */
  function Bit(n: int, i: nat): (b: int)
    ensures b == 0 || b == 1
    decreases i
  {
    if i == 0 then n % 2 else Bit(n / 2, i - 1)
  }

  /** The low k bits of n in the opposite order: bit 0 of n lands on bit k-1. */
  function Mirror(n: int, k: nat): int
    decreases k
  {
    if k == 0 then 0 else (n % 2) * Pow2(k - 1) + Mirror(n / 2, k - 1)
  }

  /** The value `reverse_bit(num)` returns: the low byte of num, mirrored. */
  function Reversed(num: int): (r: int)
    ensures 0 <= r < 256
  {
    MirrorBound(num, 8);
    Mirror(num, 8)
  }

  /** The mirror of k bits fits in k bits. */
  lemma {:induction false} MirrorBound(n: int, k: nat)
    ensures 0 <= Mirror(n, k) < Pow2(k)
    decreases k
  {
    if k > 0 {
      MirrorBound(n / 2, k - 1);
    }
  }

  /** `reverse_bit`: eight rounds of shifting the result left and moving the
      lowest bit of the argument into it. */
  method ReverseBit(num: int) returns (result: int)
    ensures result == Reversed(num)
    ensures 0 <= result < 256
    ensures forall i :: 0 <= i < 8 ==> Bit(result, i) == Bit(num, 7 - i)
  {
    result := 0;
    var n := num;
    for round := 0 to 8
      invariant result * Pow2(8 - round) + Mirror(n, 8 - round) == Mirror(num, 8)
    {
      ShiftStep(result, n, 8 - round);
      result := result * 2;     // result <<= 1
      result := result + n % 2; // result += num & 1
      n := n / 2;               // num >>= 1
    }
    assert result == Mirror(num, 8) by {
      assert Pow2(0) == 1 && Mirror(n, 0) == 0;
    }
    forall i | 0 <= i < 8
      ensures Bit(result, i) == Bit(num, 7 - i)
    {
      MirrorBit(num, 8, i);
    }
  }

  /** One round of the loop keeps `result * 2^k + Mirror(n, k)` fixed. */
  lemma ShiftStep(result: int, n: int, k: nat)
    requires k > 0
    ensures (result * 2 + n % 2) * Pow2(k - 1) + Mirror(n / 2, k - 1) == result * Pow2(k) + Mirror(n, k)
  {
    var p := Pow2(k - 1);
    assert (result * 2 + n % 2) * p == result * (2 * p) + (n % 2) * p;
  }

  /** Putting a bit b on top of a value x below 2^m: bit m is b and the bits
      below m are those of x. */
  lemma {:induction false} BitOfSum(b: int, m: nat, x: int, i: nat)
    requires b == 0 || b == 1
    requires 0 <= x < Pow2(m)
    requires i <= m
    ensures Bit(b * Pow2(m) + x, i) == if i == m then b else Bit(x, i)
  {
    var p := Pow2(m);
    assert b * p == if b == 1 then p else 0;
    if i > 0 {
      var q := Pow2(m - 1);
      assert b * q == if b == 1 then q else 0;
      assert (b * p + x) / 2 == b * q + x / 2;
      BitOfSum(b, m - 1, x / 2, i - 1);
    } else if m > 0 {
      assert p == 2 * Pow2(m - 1);
    }
  }

  /** Bit i of Mirror(n, k) is bit k-1-i of n. */
  lemma {:induction false} MirrorBit(n: int, k: nat, i: nat)
    requires i < k
    ensures Bit(Mirror(n, k), i) == Bit(n, k - 1 - i)
    decreases k
  {
    MirrorBound(n / 2, k - 1);
    BitOfSum(n % 2, k - 1, Mirror(n / 2, k - 1), i);
    if i < k - 1 {
      MirrorBit(n / 2, k - 1, i);
    }
  }

  /** Bit i of the result of `reverse_bit(num)` is bit 7-i of num. */
  lemma ReversedBit(num: int, i: nat)
    requires i < 8
    ensures Bit(Reversed(num), i) == Bit(num, 7 - i)
  {
    MirrorBit(num, 8, i);
  }

  /** Two values in [0, 2^k) that agree on their low k bits are equal. */
  lemma {:induction false} BitsDetermine(x: int, y: int, k: nat)
    requires 0 <= x < Pow2(k) && 0 <= y < Pow2(k)
    requires forall i :: 0 <= i < k ==> Bit(x, i) == Bit(y, i)
    ensures x == y
  {
    if k > 0 {
      forall i | 0 <= i < k - 1
        ensures Bit(x / 2, i) == Bit(y / 2, i)
      {
        assert Bit(x, i + 1) == Bit(y, i + 1);
      }
      BitsDetermine(x / 2, y / 2, k - 1);
      assert Bit(x, 0) == Bit(y, 0);
    }
  }

  /** "and vice versa": on bytes, reversing twice gives the byte back. */
  lemma Involution(b: int)
    requires 0 <= b < 256
    ensures Reversed(Reversed(b)) == b
  {
    var r := Reversed(b);
    forall i | 0 <= i < 8
      ensures Bit(Reversed(r), i) == Bit(b, i)
    {
      MirrorBit(r, 8, i);
      MirrorBit(b, 8, 7 - i);
    }
    MirrorBound(r, 8);
    BitsDetermine(Reversed(r), b, 8);
  }

  /** Euclidean division facts behind dropping the top bit of a remainder. */
  lemma DivModHalf(n: int, p: int)
    requires p > 0
    ensures (n % (2 * p)) % 2 == n % 2
    ensures (n % (2 * p)) / 2 == (n / 2) % p
  {
    var q, r := n / (2 * p), n % (2 * p);
    assert n == (2 * p) * q + r;
    var h := p * q + r / 2;
    assert n == 2 * h + r % 2 by {
      assert (2 * p) * q == 2 * (p * q);
      assert r == 2 * (r / 2) + r % 2;
    }
    DivUnique(n, 2, h, r % 2);
    assert 0 <= r / 2 < p;
    DivUnique(n / 2, p, q, r / 2);
  }

  /** Quotient and remainder are unique. */
  lemma DivUnique(n: int, d: int, q: int, r: int)
    requires d > 0 && 0 <= r < d
    requires n == d * q + r
    ensures n / d == q && n % d == r
  {
    var q', r' := n / d, n % d;
    assert d * q' + r' == d * q + r;
    if q' < q {
      assert d * (q - q') == r' - r;
      MulAtLeast(d, q - q');
    } else if q' > q {
      assert d * (q' - q) == r - r';
      MulAtLeast(d, q' - q);
    }
  }

  lemma MulAtLeast(d: int, k: int)
    requires d > 0 && k >= 1
    ensures d * k >= d
  {
    assert d * k == d * (k - 1) + d;
  }

  /** Mirror(n, k) depends on the low k bits of n only. */
  lemma {:induction false} MirrorLowBits(n: int, k: nat)
    ensures Mirror(n, k) == Mirror(n % Pow2(k), k)
    decreases k
  {
    if k > 0 {
      var p := Pow2(k - 1);
      DivModHalf(n, p);
      MirrorLowBits(n / 2, k - 1);
    }
  }

  /** `reverse_bit` ignores every bit of its argument above bit 7, negative
      arguments included. */
  lemma HighBitsIgnored(num: int)
    ensures Reversed(num) == Reversed(num % 256)
  {
    MirrorLowBits(num, 8);
  }

  /** The values the doc comment and the protocol rely on. */
  lemma KnownValues()
    ensures Reversed(0) == 0
    ensures Reversed(1) == 0x80
    ensures Reversed(0x80) == 1
  {
  }
}
