/** `Cell` (src/lib.rs): one slot of the ring, an epoch word next to a payload. The epoch
    word's top bit is the sentinel that marks a write in progress. */
module Cells {
  import opened Words

  /** `SENTINEL_MASK` on a 64-bit target: `1 << 63`. */
  const SENTINEL_MASK: Word := TOP_BIT

  /** What `x & SENTINEL_MASK` and `x & !SENTINEL_MASK` extract from an epoch word: whether the
      sentinel bit is set, and the epoch stored below it. */
  lemma SentinelBits(x: Word)
    ensures And(x, SENTINEL_MASK) > 0 <==> x >= SENTINEL_MASK
    ensures And(x, Not(SENTINEL_MASK)) == x % SENTINEL_MASK
  {
    Pow2Is63();
    MaskLow(x, 63);
    MaskHigh(x, 63);
    if x >= SENTINEL_MASK {
      ModSmall(x - SENTINEL_MASK, SENTINEL_MASK);
      DivModUnique(x, SENTINEL_MASK, 1, x - SENTINEL_MASK);
    } else {
      ModSmall(x, SENTINEL_MASK);
    }
  }

  /** Write epochs: 0 marks the default payload a cell starts with, 1 the first real write. */
  class Cell<T> {
    var data: T
    var epoch: Word

    /** A default cell: the given default payload at epoch 0. */
    constructor (dflt: T)
      ensures data == dflt && epoch == 0
    {
      data := dflt;
      epoch := 0;
    }

    /** `Cell::write`: moves the cell from epoch `newEpoch - epochIncrement` to `newEpoch` with
        payload `dat`. The compare-and-swap installs `newEpoch` with the sentinel bit set, then
        the payload is stored, then the plain epoch is published. */
    method Write(dat: T, newEpoch: Word, epochIncrement: Word)
      requires epochIncrement <= newEpoch && epoch == newEpoch - epochIncrement
      modifies this
      ensures data == dat && epoch == newEpoch
    {
      var oldEpoch := newEpoch - epochIncrement;
      // The compare-and-swap from `oldEpoch` succeeds at its first attempt.
      assert epoch == oldEpoch;
      OrWord(newEpoch, SENTINEL_MASK);
      epoch := Or(newEpoch, SENTINEL_MASK);
      // While the payload is stored, the epoch word carries the sentinel bit.
      assert epoch >= SENTINEL_MASK;
      data := dat;
      epoch := newEpoch;
    }

    /** `Cell::read`: the stored payload. */
    function Read(): (r: T)
      reads this
    {
      data
    }

    /** `cell.epoch.load(..)`: the current epoch word. (`Cell::epoch` hands out the atomic
        itself, and `Queue::read` loads from it.) */
    function Epoch(): (r: Word)
      reads this
    {
      epoch
    }
  }
}
