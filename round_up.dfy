/** `round_up_to_power_of_two` (src/lib.rs), the bit-smearing routine that fixes the
    queue's allocation size, for the 64-bit target. */
module RoundUp {
  import opened Words

  /** Number of binary digits of `x` (0 for 0). */
  function BitLength(x: nat): (r: nat)
  {
    if x == 0 then 0 else 1 + BitLength(x / 2)
  }

  lemma {:induction false} BitLengthBounds(x: nat)
    ensures x < Pow2(BitLength(x))
    ensures x > 0 ==> Pow2(BitLength(x) - 1) <= x
    decreases x
  {
    if x > 0 {
      BitLengthBounds(x / 2);
    }
  }

  /** `u` has no bit at or above position `j`, and its `w` bits just below `j` (all of them
      when `w >= j`) are set. */
  ghost predicate TopOnes(u: nat, j: nat, w: nat)
  {
    u < Pow2(j) && if w >= j then u == Pow2(j) - 1 else Pow2(j) - Pow2(j - w) <= u
  }

  /** Dropping the lowest bit keeps the run of set bits below the top, one position lower. */
  lemma TopHalf(u: nat, j: nat, w: nat)
    requires j >= 1 && TopOnes(u, j, w)
    ensures TopOnes(u / 2, j - 1, w)
  {
    assert Pow2(j) == 2 * Pow2(j - 1);
    if j - 1 > w {
      assert Pow2(j - w) == 2 * Pow2(j - 1 - w);
    }
  }

  /** Every bit in the run of set bits below the top is one. */
  lemma {:induction false} TopBitSet(u: nat, j: nat, w: nat, i: nat)
    requires TopOnes(u, j, w) && j - w <= i < j
    ensures Shr(u, i) % 2 == 1
    decreases i
  {
    if i == 0 {
      assert Pow2(j) == 2 * Pow2(j - 1);
    } else {
      TopHalf(u, j, w);
      TopBitSet(u / 2, j - 1, w, i - 1);
    }
  }

  /** One smearing step `u |= u >> w` doubles the run of set bits below the top. */
  lemma {:induction false} SmearStep(u: nat, j: nat, w: nat)
    requires w >= 1 && TopOnes(u, j, w)
    ensures TopOnes(Or(u, Shr(u, w)), j, 2 * w)
    decreases j
  {
    if w >= j {
      Pow2Mono(j, w);
      ShrSmall(u, w);
      OrZeroRight(u);
    } else {
      TopHalf(u, j, w);
      SmearStep(u / 2, j - 1, w);
      ShrHalf(u, w);
      OrStep(u, Shr(u, w));
      assert Pow2(j) == 2 * Pow2(j - 1);
      if 2 * w >= j {
        TopBitSet(u, j, w, w);
      } else {
        assert Pow2(j - 2 * w) == 2 * Pow2(j - 1 - 2 * w);
      }
    }
  }

  /** Before smearing, `n - 1` has its top bit set, and that bit lies below bit 63. */
  lemma SmearStart(x: nat)
    requires x < TOP_BIT
    ensures BitLength(x) <= 63 && Pow2(BitLength(x)) <= TOP_BIT
    ensures TopOnes(x, BitLength(x), 1)
  {
    var j := BitLength(x);
    BitLengthBounds(x);
    Pow2Is63();
    if j > 63 {
      Pow2Mono(63, j - 1);
    }
    Pow2Mono(j, 63);
    if j >= 2 {
      assert Pow2(j) == 2 * Pow2(j - 1);
    }
  }

  /** The six smearing steps of `round_up_to_power_of_two` fill every bit below the top one. */
  lemma SmearChain(x: nat, j: nat)
    requires j <= 64 && TopOnes(x, j, 1)
    ensures var u1 := Or(x, Shr(x, 1));
            var u2 := Or(u1, Shr(u1, 2));
            var u3 := Or(u2, Shr(u2, 4));
            var u4 := Or(u3, Shr(u3, 8));
            var u5 := Or(u4, Shr(u4, 16));
            Or(u5, Shr(u5, 32)) == Pow2(j) - 1
  {
    var u1 := Or(x, Shr(x, 1));
    SmearStep(x, j, 1);
    var u2 := Or(u1, Shr(u1, 2));
    SmearStep(u1, j, 2);
    var u3 := Or(u2, Shr(u2, 4));
    SmearStep(u2, j, 4);
    var u4 := Or(u3, Shr(u3, 8));
    SmearStep(u3, j, 8);
    var u5 := Or(u4, Shr(u4, 16));
    SmearStep(u4, j, 16);
    SmearStep(u5, j, 32);
  }

  /** The or-shift cascade of `round_up_to_power_of_two`: sets every bit below the highest
      set bit of `x`. */
  method Smear(x: Word) returns (u: Word)
    requires x < TOP_BIT
    ensures u == Pow2(BitLength(x)) - 1 && u < TOP_BIT
  {
    SmearStart(x);
    SmearChain(x, BitLength(x));
    // Every step only sets bits below the top one, so `v` stays a word; `SmearChain` gives
    // the last value.
    var v: nat := x;
    v := Or(v, Shr(v, 1));
    v := Or(v, Shr(v, 2));
    v := Or(v, Shr(v, 4));
    v := Or(v, Shr(v, 8));
    v := Or(v, Shr(v, 16));
    v := Or(v, Shr(v, 32));
    u := v;
  }

  /** `round_up_to_power_of_two(n)`: the smallest power of two that is at least `n`. */
  method RoundUpToPowerOfTwo(n: Word) returns (u: Word)
    requires 1 <= n <= TOP_BIT
    ensures IsPowerOfTwo(u) && n <= u
    ensures forall k: nat :: n <= Pow2(k) ==> u <= Pow2(k)
  {
    u := Smear(n - 1);
    u := u + 1;
    RoundedIsLeast(n, BitLength(n - 1));
  }

  /** `Pow2(BitLength(n - 1))` is the least power of two at or above `n`. */
  lemma RoundedIsLeast(n: nat, j: nat)
    requires n >= 1 && j == BitLength(n - 1)
    ensures IsPowerOfTwo(Pow2(j)) && n <= Pow2(j)
    ensures forall k: nat :: n <= Pow2(k) ==> Pow2(j) <= Pow2(k)
  {
    BitLengthBounds(n - 1);
    Log2Pow2(j);
    forall k: nat | n <= Pow2(k)
      ensures Pow2(j) <= Pow2(k)
    {
      if k < j {
        Pow2Mono(k, j - 1);
      } else {
        Pow2Mono(j, k);
      }
    }
  }

  /** The three clauses of `RoundUpToPowerOfTwo`'s contract pin its result down: it is the
      power of two `Pow2(k)` with `Pow2(k - 1) < n <= Pow2(k)`. */
  lemma SmallestPowerOfTwoIs(u: nat, n: nat, k: nat)
    requires IsPowerOfTwo(u) && n <= u
    requires forall i: nat :: n <= Pow2(i) ==> u <= Pow2(i)
    requires n <= Pow2(k) && (k == 0 || Pow2(k - 1) < n)
    ensures u == Pow2(k)
  {
    var e := Log2(u);
    assert u <= Pow2(k);
    if e < k {
      Pow2Mono(e, k - 1);
    } else if e > k {
      Pow2Strict(k, e);
    }
  }

  /** The powers of two the unit test `rounding` (src/lib.rs) mentions. */
  lemma Pow2Values()
    ensures Pow2(0) == 1 && Pow2(2) == 4 && Pow2(3) == 8 && Pow2(4) == 16 && Pow2(5) == 32
    ensures Pow2(6) == 64 && Pow2(7) == 128 && Pow2(8) == 256 && Pow2(9) == 512
    ensures Pow2(10) == 1024 && Pow2(11) == 2048
    ensures Pow2(59) == 576_460_752_303_423_488 && Pow2(60) == 1_152_921_504_606_846_976
    ensures Pow2(62) == 4_611_686_018_427_387_904 && Pow2(63) == 9_223_372_036_854_775_808
  {
    assert Pow2(4) == 16;
    assert Pow2(8) == 256;
    assert Pow2(11) == 2048;
    Pow2Is63();
    Pow2Add(59, 4);
    Pow2Add(60, 3);
  }

  /** `round_up_to_power_of_two(n)` is `2^k` whenever `2^(k-1) < n <= 2^k`. */
  method RoundUpIs(n: Word, k: nat) returns (u: Word)
    requires 1 <= n <= TOP_BIT && n <= Pow2(k) && (k == 0 || Pow2(k - 1) < n)
    ensures u == Pow2(k)
  {
    u := RoundUpToPowerOfTwo(n);
    SmallestPowerOfTwoIs(u, n, k);
  }

  /** The unit test `rounding` (src/lib.rs): the results of `round_up_to_power_of_two` for
      its sixteen inputs, derived from the method's contract alone. */
  method Rounding() returns (r: seq<nat>)
    ensures r == [1, 8, 16, 16, 16, 32, 32, 64, 64, 128, 128, 512, 1024, 2048,
                  1_152_921_504_606_846_976, 9_223_372_036_854_775_808]
  {
    Pow2Values();
    var u0 := RoundUpIs(1, 0);
    var u1 := RoundUpIs(5, 3);
    var u2 := RoundUpIs(11, 4);
    var u3 := RoundUpIs(15, 4);
    var u4 := RoundUpIs(16, 4);
    var u5 := RoundUpIs(17, 5);
    var u6 := RoundUpIs(28, 5);
    var u7 := RoundUpIs(56, 6);
    var u8 := RoundUpIs(45, 6);
    var u9 := RoundUpIs(100, 7);
    var u10 := RoundUpIs(128, 7);
    var u11 := RoundUpIs(423, 9);
    var u12 := RoundUpIs(1000, 10);
    var u13 := RoundUpIs(2000, 11);
    var u14 := RoundUpIs(1_152_921_504_606_846_000, 60);
    var u15 := RoundUpIs(9_223_372_036_854_000_000, 63);
    r := [u0, u1, u2, u3, u4, u5, u6, u7, u8, u9, u10, u11, u12, u13, u14, u15];
  }
}
