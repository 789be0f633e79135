/** The index arithmetic of `Queue` (src/lib.rs): a global write position `idx` is split by
    the mask `size - 1` into a slot index (`modu`) and an epoch (`epoch`). The epoch is the
    position with its slot bits cleared, so consecutive laps over the ring differ in epoch
    by `size`. */
module Index {
  import opened Words

  /** `mask` is `2^k - 1` for a ring of `2^k <= 2^63` slots. */
  ghost predicate IsMask(mask: Word, k: nat)
  {
    k <= 63 && mask == Pow2(k) - 1 && mask < TOP_BIT
  }

  /** `Queue::size`: the number of slots, `idx_mask + 1`. */
  function Size(mask: Word): (r: nat)
  {
    mask + 1
  }

  /** `Queue::epoch`: `idx & !idx_mask`. */
  function Epoch(mask: Word, idx: Word): (r: Word)
  {
    And(idx, Not(mask))
  }

  /** `Queue::modu`: `idx & idx_mask`. */
  function Modu(mask: Word, idx: Word): (r: Word)
    ensures r < Size(mask)
  {
    And(idx, mask)
  }

  /** With a power-of-two ring, `modu` is the remainder and `epoch` the rounded-down position. */
  lemma IndexSplit(mask: Word, k: nat, idx: Word)
    requires IsMask(mask, k)
    ensures Modu(mask, idx) == idx % Size(mask)
    ensures Epoch(mask, idx) == idx - idx % Size(mask)
  {
    MaskLow(idx, k);
    MaskHigh(idx, k);
  }

  /** The epoch and the slot index of a position add up to it; the epoch is a whole number of
      laps; positions of the first lap have epoch 0. */
  lemma EpochModu(mask: Word, k: nat, idx: Word)
    requires IsMask(mask, k)
    ensures Epoch(mask, idx) + Modu(mask, idx) == idx
    ensures Epoch(mask, idx) % Size(mask) == 0
    ensures idx < Size(mask) ==> Epoch(mask, idx) == 0 && Modu(mask, idx) == idx
  {
    IndexSplit(mask, k, idx);
    ModMultiple(idx, Size(mask));
    if idx < Size(mask) {
      ModSmall(idx, Size(mask));
    }
  }

  /** Two positions share a slot exactly when they are a whole number of laps apart, and then
      their epochs are as far apart as the positions. */
  lemma SameSlot(mask: Word, k: nat, a: Word, b: Word)
    requires IsMask(mask, k)
    ensures Modu(mask, a) == Modu(mask, b) <==> (b - a) % Size(mask) == 0
    ensures Modu(mask, a) == Modu(mask, b) ==> Epoch(mask, b) - Epoch(mask, a) == b - a
  {
    IndexSplit(mask, k, a);
    IndexSplit(mask, k, b);
    ModSame(a, b, Size(mask));
  }

  /** Fewer than `size` positions apart, two positions use different slots. */
  lemma SlotsDiffer(mask: Word, k: nat, a: Word, b: Word)
    requires IsMask(mask, k) && a < b < a + Size(mask)
    ensures Modu(mask, a) != Modu(mask, b)
  {
    SameSlot(mask, k, a, b);
    ModSmall(b - a, Size(mask));
  }

  /** One lap later a position uses the same slot, one epoch step higher. */
  lemma NextLap(mask: Word, k: nat, a: Word)
    requires IsMask(mask, k) && a + Size(mask) < WORD_MODULUS
    ensures Modu(mask, a + Size(mask)) == Modu(mask, a)
    ensures Epoch(mask, a + Size(mask)) == Epoch(mask, a) + Size(mask)
  {
    SameSlot(mask, k, a, a + Size(mask));
    DivModUnique(Size(mask), Size(mask), 1, 0);
  }

  /** A position's epoch lies within one lap below it. */
  lemma EpochBounds(mask: Word, k: nat, a: Word)
    requires IsMask(mask, k)
    ensures a - Size(mask) < Epoch(mask, a) <= a
  {
    EpochModu(mask, k, a);
  }

  /** A power of two no larger than 2^63, less one, is a mask. */
  lemma MaskOfSize(size: nat)
    requires IsPowerOfTwo(size) && size <= TOP_BIT
    ensures Pow2(Log2(size)) == size && IsMask(size - 1, Log2(size))
  {
    Pow2Is63();
    if Log2(size) > 63 {
      Pow2Strict(63, Log2(size));
    }
  }

  /** The position of the window `[lo, lo + size)` that uses slot `i`. */
  function WindowPos(mask: Word, lo: Word, i: Word): (p: Word)
    requires lo + Size(mask) <= WORD_MODULUS
    ensures lo <= p < lo + Size(mask)
  {
    lo + Modu(mask, WrapSub(i, lo))
  }

  /** `WindowPos` steps up from `lo` by the distance from `lo`'s slot to slot `i`. */
  lemma WindowPosRem(mask: Word, k: nat, lo: Word, i: Word)
    requires IsMask(mask, k) && lo + Size(mask) <= WORD_MODULUS
    ensures WindowPos(mask, lo, i) == lo + (i - lo) % Size(mask)
  {
    IndexSplit(mask, k, WrapSub(i, lo));
    Pow2Add(k, 64 - k);
    Pow2Is64();
    ModNested(i - lo, Size(mask), Pow2(64 - k));
  }

  /** `WindowPos` finds the position of the window that uses slot `i`, and it is the only one. */
  lemma WindowPosSlot(mask: Word, k: nat, lo: Word, i: Word, p: Word)
    requires IsMask(mask, k) && lo + Size(mask) <= WORD_MODULUS && i < Size(mask)
    requires lo <= p < lo + Size(mask)
    ensures Modu(mask, WindowPos(mask, lo, i)) == i
    ensures Modu(mask, p) == i ==> p == WindowPos(mask, lo, i)
  {
    var q := WindowPos(mask, lo, i);
    WindowPosRem(mask, k, lo, i);
    ModWindow(lo, i, Size(mask));
    IndexSplit(mask, k, q);
    ModSame(q, i, Size(mask));
    ModSmall(i, Size(mask));
    if Modu(mask, p) == i && p != q {
      if p < q {
        SlotsDiffer(mask, k, p, q);
      } else {
        SlotsDiffer(mask, k, q, p);
      }
    }
  }
}
