/**
 * Bit arithmetic on unbounded integers, with the meaning Python gives its
 * operators: `>>` is floor division by a power of two, `& (2**n - 1)` is the
 * (never negative) remainder, and `&`, `|`, `^` act on the infinite two's
 * complement expansion, so negative register values behave as in the source.
 */
module Bits {

  const TWO28: int := 0x1000_0000
  const TWO30: int := 0x4000_0000
  const TWO31: int := 0x8000_0000
  const TWO32: int := 0x1_0000_0000
  const MASK32: int := 0xFFFF_FFFF

  function Min(a: int, b: int): int
  {
    if a <= b then a else b
  }

  function Pow2(n: nat): (r: nat)
    ensures r >= 1
  {
    if n == 0 then 1 else 2 * Pow2(n - 1)
  }

  lemma {:induction false} Pow2Add(a: nat, b: nat)
    ensures Pow2(a + b) == Pow2(a) * Pow2(b)
  {
    if a > 0 {
      Pow2Add(a - 1, b);
      assert Pow2(a + b) == 2 * Pow2(a - 1 + b);
    }
  }

  lemma Pow2Constants()
    ensures Pow2(8) == 0x100 && Pow2(16) == 0x1_0000
    ensures Pow2(28) == TWO28 && Pow2(31) == TWO31 && Pow2(32) == TWO32
  {
    Pow2Add(8, 8);
    Pow2Add(16, 8);
    Pow2Add(24, 4);
    Pow2Add(28, 3);
    Pow2Add(31, 1);
  }

  /** `x & 0xFFFFFFFF`: the low 32 bits of `x`. */
  function Lo32(x: int): (r: nat)
    ensures r < TWO32
  {
    x % TWO32
  }

  lemma MulAtLeast(a: int, d: int)
    requires a >= 1 && d > 0
    ensures a * d >= d
  {
    if a > 1 {
      MulAtLeast(a - 1, d);
      assert a * d == (a - 1) * d + d;
    }
  }

  /** Division with a positive divisor is determined by quotient and remainder. */
  lemma DivModUnique(x: int, d: int, q: int, r: int)
    requires d > 0 && x == q * d + r && 0 <= r < d
    ensures x / d == q && x % d == r
  {
    var q', r' := x / d, x % d;
    assert x == q' * d + r';
    if q' > q {
      assert (q' - q) * d == r - r' by { assert (q' - q) * d == q' * d - q * d; }
      MulAtLeast(q' - q, d);
    } else if q' < q {
      assert (q - q') * d == r' - r by { assert (q - q') * d == q * d - q' * d; }
      MulAtLeast(q - q', d);
    }
  }

  /** Dividing by `a` and then by `b` is dividing by `a * b`, and the remainders nest. */
  lemma DivDiv(x: int, a: int, b: int)
    requires a > 0 && b > 0
    ensures x / a / b == x / (a * b)
    ensures x % (a * b) == x % a + a * (x / a % b)
  {
    var q1, r1 := x / a, x % a;
    var q2, r2 := q1 / b, q1 % b;
    assert x == q2 * (a * b) + (a * r2 + r1) by {
      assert x == q1 * a + r1;
      assert q1 == q2 * b + r2;
      assert q1 * a == q2 * (a * b) + r2 * a;
    }
    assert 0 <= a * r2 + r1 < a * b by {
      assert r2 <= b - 1;
      assert a * r2 <= a * (b - 1);
    }
    DivModUnique(x, a * b, q2, a * r2 + r1);
  }

  /** `x >> i & 1`. */
  function Bit(x: int, i: nat): (b: nat)
    ensures b <= 1
  {
    x / Pow2(i) % 2
  }

  /** `x ^ p` for a power of two `p`: the bit that `p` stands for is flipped. */
  function XorPow(x: int, p: nat): int
    requires p >= 1
  {
    if x / p % 2 == 1 then x - p else x + p
  }

  /** The idiom `(v ^ p) - p`, which the source uses to sign-extend from the bit `p`. */
  function SignExtendFrom(v: int, p: nat): int
    requires p >= 1
  {
    XorPow(v, p) - p
  }

  /** On a value of the field width, the idiom is two's-complement sign extension. */
  lemma SignExtendFromIsSignExtension(v: int, p: nat)
    requires p >= 1 && 0 <= v < 2 * p
    ensures SignExtendFrom(v, p) == if v < p then v else v - 2 * p
  {
    if v < p {
      DivModUnique(v, p, 0, v);
    } else {
      DivModUnique(v, p, 1, v - p);
    }
  }

  /** The low `n` bits of Python's `x & y`. */
  function And(x: int, y: int, n: nat): (r: nat)
    ensures r < Pow2(n)
    decreases n
  {
    if n == 0 then 0 else x % 2 * (y % 2) + 2 * And(x / 2, y / 2, n - 1)
  }

  /** The low `n` bits of Python's `x | y`. */
  function Or(x: int, y: int, n: nat): (r: nat)
    ensures r < Pow2(n)
    decreases n
  {
    if n == 0 then 0
    else (if x % 2 == 1 || y % 2 == 1 then 1 else 0) + 2 * Or(x / 2, y / 2, n - 1)
  }

  /** The low `n` bits of Python's `x ^ y`. */
  function Xor(x: int, y: int, n: nat): (r: nat)
    ensures r < Pow2(n)
    decreases n
  {
    if n == 0 then 0 else (x % 2 + y % 2) % 2 + 2 * Xor(x / 2, y / 2, n - 1)
  }

  /** The remainder modulo `2**n` is the low bit plus twice the remainder of `x / 2` modulo `2**(n-1)`. */
  lemma ModPow2Step(x: int, n: nat)
    requires n >= 1
    ensures x % Pow2(n) == x % 2 + 2 * (x / 2 % Pow2(n - 1))
  {
    var p := Pow2(n - 1);
    DivDiv(x, 2, p);
    assert Pow2(n) == 2 * p;
  }

  /** `x | 0` keeps the low `n` bits of `x`. */
  lemma {:induction false} OrZero(x: int, n: nat)
    ensures Or(x, 0, n) == x % Pow2(n)
    decreases n
  {
    if n > 0 {
      OrZero(x / 2, n - 1);
      ModPow2Step(x, n);
    }
  }

  /** When the low `k` bits of `x` are clear and `y` fits in them, `x | y` is `x + y`. */
  lemma {:induction false} OrDisjoint(x: int, y: int, k: nat, n: nat)
    requires k <= n && 0 <= y < Pow2(k) && 0 <= x < Pow2(n) && x % Pow2(k) == 0
    ensures Or(x, y, n) == x + y
    decreases k
  {
    if k == 0 {
      OrZero(x, n);
      DivModUnique(x, Pow2(n), 0, x);
    } else {
      ModPow2Step(x, k);
      OrDisjoint(x / 2, y / 2, k - 1, n - 1);
    }
  }

  /** `x & (2**n - 1)` is the remainder of `x` modulo `2**n`, for every integer `x`. */
  lemma AndLowMask(x: int, n: nat)
    ensures And(x, Pow2(n) - 1, n) == x % Pow2(n)
  {
    AndOnes(x, n, Pow2(n) - 1);
  }

  /** `AndLowMask` with the mask `y == 2**n - 1` as a parameter, by induction on `n`. */
  lemma {:induction false} AndOnes(x: int, n: nat, y: int)
    requires y == Pow2(n) - 1
    ensures And(x, y, n) == x % Pow2(n)
    decreases n
  {
    if n > 0 {
      assert y % 2 == 1 && y / 2 == Pow2(n - 1) - 1 by {
        assert y == 2 * (Pow2(n - 1) - 1) + 1;
      }
      AndMaskedStep(x, y, n);
      AndOnes(x / 2, n - 1, y / 2);
      ModPow2Step(x, n);
    }
  }

  /**
   * `x & (2**n - 2**k)`, the bits `k .. n-1` of `x`, is its remainder modulo
   * `2**n` less its remainder modulo `2**k`.
   */
  lemma AndHighMask(x: int, k: nat, n: nat)
    requires k <= n
    ensures And(x, Pow2(n) - Pow2(k), n) == x % Pow2(n) - x % Pow2(k)
  {
    AndFieldMask(x, k, n, Pow2(n) - Pow2(k));
  }

  /** `AndHighMask` with the mask `y == 2**n - 2**k` as a parameter, by induction on `k`. */
  lemma {:induction false} AndFieldMask(x: int, k: nat, n: nat, y: int)
    requires k <= n && y == Pow2(n) - Pow2(k)
    ensures And(x, y, n) == x % Pow2(n) - x % Pow2(k)
    decreases k
  {
    if k == 0 {
      AndOnes(x, n, y);
    } else {
      assert y % 2 == 0 && y / 2 == Pow2(n - 1) - Pow2(k - 1) by {
        assert y == 2 * (Pow2(n - 1) - Pow2(k - 1));
      }
      AndMaskedStep(x, y, n);
      AndFieldMask(x / 2, k - 1, n - 1, y / 2);
      ModPow2Step(x, n);
      ModPow2Step(x, k);
    }
  }

  /** The product of two values below `n` is below `n * n`. */
  lemma ProductBelow(a: int, b: int, n: int)
    requires 0 <= a < n && 0 <= b < n
    ensures 0 <= a * b < n * n
  {
    assert a * b <= a * (n - 1) by {
      assert a * (n - 1) - a * b == a * (n - 1 - b);
    }
    assert a * (n - 1) < n * n by {
      assert n * n - a * (n - 1) == (n - a) * (n - 1) + n;
    }
  }

  /** Powers of two grow with the exponent. */
  lemma Pow2Le(a: nat, b: nat)
    requires a <= b
    ensures Pow2(a) <= Pow2(b)
  {
    Pow2Add(a, b - a);
    MulAtLeast(Pow2(b - a), Pow2(a));
  }

  /** One step of `And`: the lowest bit, then the rest shifted down. */
  lemma AndStep(x: int, y: int, n: nat)
    requires n >= 1
    ensures And(x, y, n) == x % 2 * (y % 2) + 2 * And(x / 2, y / 2, n - 1)
  {
  }

  /** Halving twice divides by four, and so on up to eight. */
  lemma Halves(x: int)
    ensures x / 2 / 2 == x / 4 && x / 4 / 2 == x / 8
  {
    DivDiv(x, 2, 2);
    DivDiv(x, 4, 2);
  }

  /** The bit `x % 2` of `x` where the bit `b` of the mask is set, else 0. */
  function Masked(x: int, b: int): nat
  {
    if b % 2 == 1 then x % 2 else 0
  }

  /** One step of `And`, with the product of the two low bits as `Masked`. */
  lemma AndMaskedStep(x: int, y: int, n: nat)
    requires n >= 1
    ensures And(x, y, n) == Masked(x, y) + 2 * And(x / 2, y / 2, n - 1)
  {
    AndStep(x, y, n);
    if y % 2 == 0 {
      assert x % 2 * (y % 2) == 0;
    }
  }

  /** `x & m` for a mask `m` below 16, bit by bit. */
  lemma AndNibble(x: int, m: int)
    requires 0 <= m < 16
    ensures And(x, m, 4) == Masked(x, m) + 2 * Masked(x / 2, m / 2) + 4 * Masked(x / 4, m / 4) + 8 * Masked(x / 8, m / 8)
  {
    Halves(x);
    Halves(m);
    AndMaskedStep(x, m, 4);
    AndMaskedStep(x / 2, m / 2, 3);
    AndMaskedStep(x / 4, m / 4, 2);
    AndMaskedStep(x / 8, m / 8, 1);
  }

  /**
   * Python's `x & ~(mask << lo) | v << lo` for a contiguous field: the field
   * of `span` values at weight `unit` is replaced by `v`, every other bit kept.
   */
  function ReplaceField(x: int, unit: nat, span: nat, v: int): int
    requires unit >= 1 && span >= 1
  {
    x - x / unit % span * unit + v * unit
  }

  lemma ReplaceFieldSpec(x: int, unit: nat, span: nat, v: int)
    requires unit >= 1 && span >= 1 && 0 <= v < span
    ensures ReplaceField(x, unit, span, v) % unit == x % unit
    ensures ReplaceField(x, unit, span, v) / unit % span == v
    ensures ReplaceField(x, unit, span, v) / (unit * span) == x / (unit * span)
  {
    var y := ReplaceField(x, unit, span, v);
    var hi, mid, lo := x / unit / span, x / unit % span, x % unit;
    DivDiv(x, unit, span);
    assert x == hi * (unit * span) + mid * unit + lo by {
      assert x == x / unit * unit + lo;
      assert x / unit == hi * span + mid;
      assert x / unit * unit == hi * span * unit + mid * unit;
    }
    assert y == (hi * span + v) * unit + lo;
    DivModUnique(y, unit, hi * span + v, lo);
    DivModUnique(hi * span + v, span, hi, v);
    DivDiv(y, unit, span);
  }

  /** The number of set bits among bits `0 .. n-1` of `x`. */
  function Popcount(x: int, n: nat): (c: nat)
    ensures c <= n
  {
    if n == 0 then 0 else Popcount(x, n - 1) + Bit(x, n - 1)
  }

  /** Python's `int.bit_length` on a non-negative value. */
  function BitLength(x: nat): (l: nat)
    ensures x < Pow2(l)
    ensures l > 0 ==> Pow2(l - 1) <= x
  {
    if x == 0 then 0 else 1 + BitLength(x / 2)
  }

  /** Floor division by a positive number moves a value towards zero, never past it. */
  lemma DivBounds(x: int, p: int)
    requires p >= 1
    ensures x >= 0 ==> 0 <= x / p <= x
    ensures x < 0 ==> x <= x / p < 0
  {
    var q, r := x / p, x % p;
    assert x == q * p + r;
    if q > 0 {
      MulAtLeast(p, q);
      assert q * p >= q;
    } else if q < -1 {
      MulAtLeast(p, -(q + 1));
      assert (q + 1) * p <= q + 1;
    }
  }

  /** `~x`, Python's bitwise complement of an unbounded integer, `-x - 1`. */
  function Complement(x: int): int
  {
    -x - 1
  }

  /** `a + b`, the sum a handler passes on as an address, a register number or a register value. */
  function Plus(a: int, b: int): int
  {
    a + b
  }
}
