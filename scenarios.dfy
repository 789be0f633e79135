/** The single-threaded unit tests of src/lib.rs, stated on the functions the classes of
    module Queues are proved against: after the pushes `h` a queue holds
    `Contents(mask, dflt, h)` with write pointer `size + |h|` (`Queue.SlotsAreContents`), and
    `QueueClient.Next` returns `NextLoop` of that. A writer pushes the numbers 1, 2, 3, ...;
    every reader must see them consecutively, as the test helper `Chomp` insists. */
module Scenarios {
  import opened Wrappers
  import opened Words
  import opened Index
  import opened Cells
  import opened Ring
  import RoundUp

  /** The queue of the tests, `QueueClient::new_queue(100)`, rounds up to 128 slots, whose
      mask is 127 = 2^7 - 1. */
  lemma NewQueueSize(u: nat)
    requires IsPowerOfTwo(u) && 100 <= u && forall k: nat :: 100 <= Pow2(k) ==> u <= Pow2(k)
    ensures u == 128 && IsMask(u - 1, 7)
  {
    RoundUp.Pow2Values();
    RoundUp.SmallestPowerOfTwoIs(u, 100, 7);
  }

  /** The numbers `1 .. n` that the test's incrementor hands out. */
  function Counting(n: nat): (r: seq<int>)
    ensures |r| == n && forall i :: 0 <= i < n ==> r[i] == i + 1
  {
    seq(n, i => i + 1)
  }

  /** Past the first lap, position `p` of a ring holding the counted numbers holds the number
      `p - size + 1`. */
  lemma CountedValue(mask: Word, h: seq<int>, p: int)
    requires h == Counting(|h|) && Size(mask) <= p < Size(mask) + |h|
    ensures ValueAt(mask, 0, h, p) == p - Size(mask) + 1
  {
  }

  /** The test helper `read(q, ch, n)`, one call at a time: on the queue holding the counted
      numbers, a reader that the writers have not lapped and that is below the write pointer
      reads the number at its position and moves on by one, so successive reads return
      consecutive numbers, as `Chomp` demands. */
  lemma NextCounting(mask: Word, k: nat, h: seq<int>, p: Word)
    requires IsMask(mask, k) && Size(mask) >= 2 && Size(mask) + |h| <= SENTINEL_MASK
    requires h == Counting(|h|)
    requires Size(mask) <= p && |h| <= p < Size(mask) + |h|
    ensures NextLoop(Contents(mask, 0, h), mask, Size(mask) + |h|, p, 1)
            == (Some(p - Size(mask) + 1), p + 1)
  {
    NextInWindow(mask, k, 0, h, p);
    CountedValue(mask, h, p);
  }

  /** The end of `single_threaded_multi_client`: after 500 more pushes the reader at position
      190 has been lapped; `next` catches it up and returns 62 + 500 - 127 + 1, and the latest
      number, what `latest` returns, is 62 + 500. */
  lemma LaggingReader(mask: Word)
    requires IsMask(mask, 7)
    ensures NextLoop(Contents(mask, 0, Counting(562)), mask, 690, 190, 1).0
            == Some(62 + 500 - 127 + 1)
    ensures LatestValue(0, Counting(562)) == 62 + 500
  {
    NextLagged(mask, 7, 0, Counting(562), 190);
  }
}
