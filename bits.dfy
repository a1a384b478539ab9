/**
 * Fixed-width unsigned bit operations, written over unbounded naturals.
 *
 * C's `&`, `|`, `^` and `~` on `uint32_t`/`uint64_t` are defined here bit by
 * bit, least significant bit first, so that their properties (they stay
 * within the width, `~x` is `2^W - 1 - x`, a mask of k one-bits keeps the
 * low k bits) are proved rather than assumed.
 */
module BitOps {

  /** 2 raised to the power k. */
  function Pow2(k: nat): (r: nat)
    ensures r >= 1
    ensures k > 0 ==> r % 2 == 0
  {
    if k == 0 then 1 else 2 * Pow2(k - 1)
  }

  /** The three two-operand bitwise connectives of C. */
  datatype Connective = And | Or | Xor

  predicate Combine(c: Connective, x: bool, y: bool)
  {
    match c
    case And => x && y
    case Or => x || y
    case Xor => x != y
  }

  /** `a & b`, `a | b` or `a ^ b`, computed one bit at a time. */
  function Bitwise(c: Connective, a: nat, b: nat): (r: nat)
    decreases a + b
  {
    if a == 0 && b == 0 then 0
    else 2 * Bitwise(c, a / 2, b / 2) + (if Combine(c, a % 2 == 1, b % 2 == 1) then 1 else 0)
  }

  /** Bit k of x (bit 0 is the least significant). */
  predicate Bit(x: nat, k: nat)
  {
    if k == 0 then x % 2 == 1 else Bit(x / 2, k - 1)
  }

  /** `~x` on a k-bit unsigned integer: every one of the low k bits flipped. */
  function Complement(k: nat, x: nat): (r: nat)
  {
    if k == 0 then 0 else 2 * Complement(k - 1, x / 2) + (1 - x % 2)
  }

  /** Exponents add: 2^(a+b) == 2^a * 2^b. */
  lemma {:induction false} Pow2Add(a: nat, b: nat)
    ensures Pow2(a + b) == Pow2(a) * Pow2(b)
  {
    if a > 0 {
      Pow2Add(a - 1, b);
      assert Pow2(a) * Pow2(b) == 2 * (Pow2(a - 1) * Pow2(b));
    }
  }

  /** Bit k of x is the last binary digit of x / 2^k. */
  lemma {:induction false} BitIsDigit(x: nat, k: nat)
    ensures Bit(x, k) <==> (x / Pow2(k)) % 2 == 1
  {
    if k > 0 {
      BitIsDigit(x / 2, k - 1);
      ModDouble(x, Pow2(k - 1));
    }
  }

  /** A connective applied to two k-bit numbers gives a k-bit number. */
  lemma {:induction false} BitwiseBound(c: Connective, a: nat, b: nat, k: nat)
    requires a < Pow2(k) && b < Pow2(k)
    ensures Bitwise(c, a, b) < Pow2(k)
  {
    if a != 0 || b != 0 {
      assert k > 0;
      BitwiseBound(c, a / 2, b / 2, k - 1);
    }
  }

  /** Bit k of a connective's result is the connective of the operands' bits k. */
  lemma {:induction false} BitwiseBit(c: Connective, a: nat, b: nat, k: nat)
    ensures Bit(Bitwise(c, a, b), k) == Combine(c, Bit(a, k), Bit(b, k))
  {
    if a == 0 && b == 0 {
      ZeroHasNoBits(k);
    } else if k > 0 {
      BitwiseBit(c, a / 2, b / 2, k - 1);
    }
  }

  lemma {:induction false} ZeroHasNoBits(k: nat)
    ensures !Bit(0, k)
  {
    if k > 0 {
      ZeroHasNoBits(k - 1);
    }
  }

  /** `x & b` is nonzero exactly when bit k of x is set, for the single-bit mask b = 2^k. */
  lemma {:induction false} AndSingleBit(x: nat, k: nat)
    ensures Bitwise(And, x, Pow2(k)) != 0 <==> Bit(x, k)
  {
    if k == 0 {
      AndZero(x / 2);
    } else {
      AndSingleBit(x / 2, k - 1);
    }
  }

  /** `x & 0 == 0`. */
  lemma {:induction false} AndZero(x: nat)
    ensures Bitwise(And, x, 0) == 0
    decreases x
  {
    if x != 0 {
      AndZero(x / 2);
    }
  }

  /** `0 | x == x`. */
  lemma {:induction false} OrZero(x: nat)
    ensures Bitwise(Or, 0, x) == x
    decreases x
  {
    if x != 0 {
      OrZero(x / 2);
    }
  }

  /** The k-bit complement of a k-bit number x is 2^k - 1 - x. */
  lemma {:induction false} ComplementValue(k: nat, x: nat)
    requires x < Pow2(k)
    ensures Complement(k, x) == Pow2(k) - 1 - x
  {
    if k > 0 {
      ComplementValue(k - 1, x / 2);
    }
  }

  /** Masking with k one-bits (`x & (2^k - 1)`) keeps the low k bits of x. */
  lemma {:induction false} AndLowMask(x: nat, k: nat)
    ensures Bitwise(And, x, Pow2(k) - 1) == x % Pow2(k)
  {
    if k == 0 {
      AndZero(x);
    } else {
      var p := Pow2(k - 1);
      var mask := Pow2(k) - 1;
      assert mask / 2 == p - 1 && mask % 2 == 1;
      calc {
        Bitwise(And, x, mask);
        2 * Bitwise(And, x / 2, p - 1) + x % 2;
        { AndLowMask(x / 2, k - 1); }
        2 * ((x / 2) % p) + x % 2;
        { ModDouble(x, p); }
        x % Pow2(k);
      }
    }
  }

  /** `a | b == a + b` when a fits in k bits and b has no bit below k. */
  lemma {:induction false} OrDisjoint(a: nat, b: nat, k: nat)
    requires a < Pow2(k) && b % Pow2(k) == 0
    ensures Bitwise(Or, a, b) == a + b
  {
    if k == 0 {
      OrZero(b);
    } else if a != 0 || b != 0 {
      ModDouble(b, Pow2(k - 1));
      OrDisjoint(a / 2, b / 2, k - 1);
    }
  }

  /** Splitting off the lowest bit of a remainder by an even modulus. */
  lemma ModDouble(x: nat, p: nat)
    requires p > 0
    ensures x % (2 * p) == 2 * ((x / 2) % p) + x % 2
    ensures x / (2 * p) == (x / 2) / p
  {
    var q, b := x / 2, x % 2;
    var t, s := q / p, q % p;
    assert q == p * t + s;
    assert x == (2 * p) * t + (2 * s + b);
    DivModUnique(x, 2 * p, t, 2 * s + b);
  }

  /** Euclidean division has one quotient and one remainder. */
  lemma DivModUnique(x: nat, m: nat, t: nat, r: nat)
    requires m > 0 && r < m && x == m * t + r
    ensures x % m == r && x / m == t
  {
    var t', r' := x / m, x % m;
    assert m * t' + r' == m * t + r;
    if t' > t {
      MulDistance(m, t', t);
    } else if t' < t {
      MulDistance(m, t, t');
    }
  }

  /** Two different multiples of m are at least m apart. */
  lemma {:induction false} MulDistance(m: nat, hi: nat, lo: nat)
    requires hi > lo
    ensures m * hi >= m * lo + m
    decreases hi
  {
    assert m * hi == m * (hi - 1) + m;
    if hi - 1 > lo {
      MulDistance(m, hi - 1, lo);
    }
  }
}
