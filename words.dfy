/** Machine words of the 64-bit target and the bitwise operators the queue uses on them.

    A `usize` is modelled as an integer in [0, 2^64). The bitwise operators are defined
    on natural numbers bit by bit (lowest bit first), and the lemmas below connect masking
    with a block of low or high bits to Euclidean remainder, which is how the rest of the
    model reasons about slot indices and epochs. */
module Words {

  const WORD_BITS: nat := 64
  const WORD_MODULUS: int := 0x1_0000_0000_0000_0000
  /** `2^63`, the top bit of a word. */
  const TOP_BIT: Word := 0x8000_0000_0000_0000

  /** A value of the source's `usize` on a 64-bit target. */
  type Word = x: int | 0 <= x < WORD_MODULUS

  /** `a.wrapping_add(b)` on `usize`. */
  function WrapAdd(a: Word, b: Word): (r: Word)
    ensures a + b < WORD_MODULUS ==> r == a + b
  {
    (a + b) % WORD_MODULUS
  }

  /** `a.wrapping_sub(b)` on `usize`. */
  function WrapSub(a: Word, b: Word): (r: Word)
    ensures b <= a ==> r == a - b
  {
    (a - b) % WORD_MODULUS
  }

  /** `2^k`. */
  function Pow2(k: nat): (r: nat)
    ensures r >= 1
  {
    if k == 0 then 1 else 2 * Pow2(k - 1)
  }

  /** Floor of the base-2 logarithm (0 for 0 and 1). */
  function Log2(x: nat): (r: nat)
  {
    if x <= 1 then 0 else 1 + Log2(x / 2)
  }

  /** `x` is `2^k` for some `k`. */
  predicate IsPowerOfTwo(x: nat)
  {
    x >= 1 && Pow2(Log2(x)) == x
  }

  /** Bitwise and, `a & b`. */
  function And(a: nat, b: nat): (r: nat)
    ensures r <= a && r <= b
    decreases a + b
  {
    if a == 0 && b == 0 then 0
    else 2 * And(a / 2, b / 2) + (if a % 2 == 1 && b % 2 == 1 then 1 else 0)
  }

  /** Bitwise or, `a | b`. */
  function Or(a: nat, b: nat): (r: nat)
    ensures a <= r && b <= r && r <= a + b
    decreases a + b
  {
    if a == 0 && b == 0 then 0
    else 2 * Or(a / 2, b / 2) + (if a % 2 == 1 || b % 2 == 1 then 1 else 0)
  }

  /** Bitwise complement of a 64-bit word, `!a`. */
  function Not(a: Word): (r: Word)
    ensures a + r == WORD_MODULUS - 1
  {
    WORD_MODULUS - 1 - a
  }

  /** Logical shift right, `a >> k`. */
  function Shr(a: nat, k: nat): (r: nat)
    ensures r <= a
  {
    if k == 0 then a else Shr(a / 2, k - 1)
  }

  // ---------------------------------------------------------------------------
  // Powers of two

  lemma {:induction false} Pow2Add(a: nat, b: nat)
    ensures Pow2(a + b) == Pow2(a) * Pow2(b)
    decreases a
  {
    if a > 0 {
      Pow2Add(a - 1, b);
      assert Pow2(a + b) == 2 * Pow2(a - 1 + b);
    }
  }

  lemma {:induction false} Pow2Strict(a: nat, b: nat)
    requires a < b
    ensures Pow2(a) < Pow2(b)
    decreases b
  {
    if a < b - 1 {
      Pow2Strict(a, b - 1);
    }
  }

  lemma Pow2Mono(a: nat, b: nat)
    requires a <= b
    ensures Pow2(a) <= Pow2(b)
  {
    if a < b {
      Pow2Strict(a, b);
    }
  }

  lemma {:induction false} Log2Pow2(k: nat)
    ensures Log2(Pow2(k)) == k
    decreases k
  {
    if k > 0 {
      Log2Pow2(k - 1);
      assert Pow2(k) / 2 == Pow2(k - 1);
      if k == 1 {
        assert Pow2(1) == 2;
      } else {
        Pow2Strict(0, k - 1);
      }
    }
  }

  lemma Pow2Word(k: nat)
    requires k <= WORD_BITS
    ensures Pow2(k) <= WORD_MODULUS
  {
    Pow2Mono(k, 64);
    Pow2Is64();
  }

  lemma Pow2Is64()
    ensures Pow2(64) == WORD_MODULUS
  {
    Pow2Is32();
    Pow2Add(32, 32);
  }

  lemma Pow2Is63()
    ensures Pow2(63) == TOP_BIT
  {
    Pow2Is64();
  }

  lemma Pow2Is32()
    ensures Pow2(32) == 0x1_0000_0000
  {
    assert Pow2(4) == 16;
    Pow2Add(4, 4);
    Pow2Add(8, 8);
    Pow2Add(16, 16);
  }

  // ---------------------------------------------------------------------------
  // Division and remainder facts

  lemma MulLe(a: int, b: int, d: int)
    requires a <= b && d >= 0
    ensures a * d <= b * d
  {
    assert b * d - a * d == (b - a) * d;
  }

  lemma DivModUnique(x: int, d: int, q: int, r: int)
    requires d > 0 && 0 <= r < d && x == q * d + r
    ensures x / d == q && x % d == r
  {
    var q0, r0 := x / d, x % d;
    assert x == q0 * d + r0;
    if q > q0 {
      MulLe(q0 + 1, q, d);
      assert false;
    } else if q < q0 {
      MulLe(q + 1, q0, d);
      assert false;
    }
  }

  /** Two numbers leave the same remainder exactly when their difference is a multiple. */
  lemma ModSame(a: int, b: int, s: int)
    requires s > 0
    ensures a % s == b % s <==> (b - a) % s == 0
  {
    var qa, ra, qb, rb := a / s, a % s, b / s, b % s;
    if ra == rb {
      assert b - a == (qb - qa) * s;
      DivModUnique(b - a, s, qb - qa, 0);
    }
    if (b - a) % s == 0 {
      var q := (b - a) / s;
      assert b == (qa + q) * s + ra;
      DivModUnique(b, s, qa + q, ra);
    }
  }
  lemma ModMultiple(x: int, s: int)
    requires s > 0
    ensures (x - x % s) % s == 0
  {
    DivModUnique(x - x % s, s, x / s, 0);
  }
  lemma ModSmall(x: int, s: int)
    requires s > 0 && 0 <= x < s
    ensures x % s == x
  {
    DivModUnique(x, s, 0, x);
  }
  lemma ModWindow(lo: int, idx: int, s: int)
    requires s > 0
    ensures (idx - (lo + (idx - lo) % s)) % s == 0
  {
    var q := (idx - lo) / s;
    assert idx - (lo + (idx - lo) % s) == q * s;
    DivModUnique(q * s, s, q, 0);
  }

  /** A remainder modulo a multiple of `s` leaves the same remainder modulo `s`. */
  lemma ModNested(x: int, s: int, t: int)
    requires s > 0 && t > 0
    ensures (x % (s * t)) % s == x % s
  {
    var q := x / (s * t);
    assert x % (s * t) == x - (q * t) * s;
    var r := (x % (s * t)) % s;
    var q2 := (x % (s * t)) / s;
    assert x == (q * t + q2) * s + r;
    DivModUnique(x, s, q * t + q2, r);
  }

  /** Dropping the lowest bit, then taking a remainder, is taking the remainder one bit wider. */
  lemma ModHalf(x: nat, p: nat, d: nat)
    requires p >= 1 && d == 2 * p
    ensures x % d == 2 * ((x / 2) % p) + x % 2
  {
    var q, r := x / d, x % d;
    assert x == q * (2 * p) + r;
    DivModUnique(x / 2, p, q, r / 2);
    DivModUnique(x, 2, q * p + r / 2, r % 2);
  }

  // ---------------------------------------------------------------------------
  // Masks

  /** The number formed by the low `k` bits of `x`. */
  function LowBits(x: nat, k: nat): (r: nat)
  {
    if k == 0 then 0 else 2 * LowBits(x / 2, k - 1) + x % 2
  }

  /** Masking with `2^k - 1` keeps the low `k` bits. */
  lemma {:induction false} AndLowBits(x: nat, k: nat)
    ensures And(x, Pow2(k) - 1) == LowBits(x, k)
    decreases k
  {
    if k > 0 {
      var m := Pow2(k) - 1;
      assert m / 2 == Pow2(k - 1) - 1 && m % 2 == 1;
      AndStep(x, m);
      AndLowBits(x / 2, k - 1);
    }
  }

  /** The low `k` bits of `x` make up its remainder modulo 2^k. */
  lemma {:induction false} LowBitsMod(x: nat, k: nat)
    ensures LowBits(x, k) == x % Pow2(k)
    decreases k
  {
    if k > 0 {
      LowBitsMod(x / 2, k - 1);
      ModHalf(x, Pow2(k - 1), Pow2(k));
    }
  }

  /** Masking with the low `k` bits is the remainder modulo 2^k. */
  lemma AndLowMask(x: nat, k: nat)
    ensures And(x, Pow2(k) - 1) == x % Pow2(k)
  {
    AndLowBits(x, k);
    LowBitsMod(x, k);
  }

  /** One step of the bit-by-bit definition of `And`, stated for every operand pair. */
  lemma AndStep(a: nat, b: nat)
    ensures And(a, b) == 2 * And(a / 2, b / 2) + (if a % 2 == 1 && b % 2 == 1 then 1 else 0)
  {
  }

  /** Masking with `b` and with its `n`-bit complement splits `a` into two disjoint parts. */
  lemma {:induction false} AndComplement(a: nat, b: nat, n: nat)
    requires a < Pow2(n) && b < Pow2(n)
    ensures And(a, Pow2(n) - 1 - b) + And(a, b) == a
    decreases n
  {
    if n > 0 {
      var p := Pow2(n - 1);
      var c := Pow2(n) - 1 - b;
      assert c / 2 == p - 1 - b / 2 && c % 2 == 1 - b % 2;
      AndComplement(a / 2, b / 2, n - 1);
      AndStep(a, c);
      AndStep(a, b);
    }
  }

  lemma {:induction false} OrZero(b: nat)
    ensures Or(0, b) == b
    decreases b
  {
    if b > 0 {
      OrZero(b / 2);
    }
  }

  lemma OrZeroRight(a: nat)
    ensures Or(a, 0) == a
  {
    OrComm(a, 0);
    OrZero(a);
  }

  /** One step of the bit-by-bit definition of `Or`, stated for every operand pair. */
  lemma OrStep(a: nat, b: nat)
    ensures Or(a, b) == 2 * Or(a / 2, b / 2) + (if a % 2 == 1 || b % 2 == 1 then 1 else 0)
  {
  }

  /** Shifting a value below 2^w right by w leaves nothing. */
  lemma {:induction false} ShrSmall(u: nat, w: nat)
    requires u < Pow2(w)
    ensures Shr(u, w) == 0
    decreases w
  {
    if w > 0 {
      ShrSmall(u / 2, w - 1);
    }
  }

  /** Halving after a shift is shifting the halved value. */
  lemma {:induction false} ShrHalf(u: nat, w: nat)
    ensures Shr(u, w) / 2 == Shr(u / 2, w)
    decreases w
  {
    if w > 0 {
      ShrHalf(u / 2, w - 1);
    }
  }

  /** Or does not set bits above the highest bit of its operands. */
  lemma {:induction false} OrBound(a: nat, b: nat, m: nat)
    requires a < Pow2(m) && b < Pow2(m)
    ensures Or(a, b) < Pow2(m)
    decreases m
  {
    if m > 0 && !(a == 0 && b == 0) {
      OrBound(a / 2, b / 2, m - 1);
    }
  }

  // ---------------------------------------------------------------------------
  // The operators on words

  /** `a | b` of two words is a word. */
  lemma OrWord(a: Word, b: Word)
    ensures Or(a, b) < WORD_MODULUS
  {
    Pow2Is64();
    OrBound(a, b, 64);
  }

  /** `x & (2^k - 1)` keeps the low `k` bits: the remainder modulo 2^k. */
  lemma MaskLow(x: Word, k: nat)
    requires k <= WORD_BITS
    ensures Pow2(k) <= WORD_MODULUS && And(x, Pow2(k) - 1) == x % Pow2(k)
  {
    Pow2Word(k);
    AndLowMask(x, k);
  }

  /** `x & !(2^k - 1)` clears the low `k` bits: `x` rounded down to a multiple of 2^k. */
  lemma MaskHigh(x: Word, k: nat)
    requires k <= WORD_BITS
    ensures Pow2(k) <= WORD_MODULUS && And(x, Not(Pow2(k) - 1)) == x - x % Pow2(k)
  {
    MaskLow(x, k);
    Pow2Is64();
    var low := Pow2(k) - 1;
    assert Not(low) == Pow2(64) - 1 - low;
    AndComplement(x, low, 64);
  }

  /** Bitwise or is commutative. */
  lemma {:induction false} OrComm(a: nat, b: nat)
    ensures Or(a, b) == Or(b, a)
    decreases a + b
  {
    if !(a == 0 && b == 0) {
      OrComm(a / 2, b / 2);
    }
  }
}
