/** The state of a queue as a value: what every slot holds after a sequence of pushes, what
    `Queue::read` returns for a position, and what one call of `QueueClient::next` returns.
    The classes in module Queues are proved against these functions. Write positions stay
    below `SENTINEL_MASK`, the wraparound limit documented at src/lib.rs:1-7, so a stored
    epoch never collides with the sentinel bit. */
module Ring {
  import opened Words
  import opened Wrappers
  import opened Index
  import opened Cells

  /** The contents of one cell: its epoch word and its payload. */
  datatype Slot<T> = Slot(epoch: Word, data: T)

  /** The value written at position `p`: the default for the positions of the first lap, which
      the initial cells stand for, and the pushed value after that. */
  function ValueAt<T>(mask: Word, dflt: T, h: seq<T>, p: int): (r: T)
    requires 0 <= p < Size(mask) + |h|
  {
    if p < Size(mask) then dflt else h[p - Size(mask)]
  }

  /** The most recently written value. */
  function LatestValue<T>(dflt: T, h: seq<T>): (r: T)
  {
    if h == [] then dflt else h[|h| - 1]
  }

  /** The slots after pushing `h` into a fresh ring: each slot holds the epoch and the value of
      the last position written to it. The write pointer is `wp = size + |h|` and the last
      positions written are `|h|` up to `wp`; positions below `size` stand for the default
      cells, which carry epoch 0. */
  function Contents<T>(mask: Word, dflt: T, h: seq<T>): (r: seq<Slot<T>>)
    requires Size(mask) + |h| <= WORD_MODULUS
    ensures |r| == Size(mask)
  {
    seq(Size(mask), i requires 0 <= i < Size(mask) =>
      var p := WindowPos(mask, |h|, i);
      Slot(Epoch(mask, p), ValueAt(mask, dflt, h, p)))
  }

  /** `Queue::read` on slot contents: `Ok(data)` if the slot of `idx` holds the epoch of `idx`,
      otherwise `Err` of the epoch word found there. */
  function ReadSlot<T>(slots: seq<Slot<T>>, mask: Word, idx: Word): (r: Result<T, Word>)
    requires |slots| == Size(mask)
  {
    var cell := slots[Modu(mask, idx)];
    if cell.epoch != Epoch(mask, idx) then Err(cell.epoch) else Ok(cell.data)
  }

  /** Each of the last `size` positions written sits in its slot with its own epoch and value. */
  lemma Window<T>(mask: Word, k: nat, dflt: T, h: seq<T>, p: Word)
    requires IsMask(mask, k) && Size(mask) + |h| <= WORD_MODULUS
    requires |h| <= p < Size(mask) + |h|
    ensures Contents(mask, dflt, h)[Modu(mask, p)] == Slot(Epoch(mask, p), ValueAt(mask, dflt, h, p))
  {
    WindowPosSlot(mask, k, |h|, Modu(mask, p), p);
  }

  /** A fresh ring holds the default value at epoch 0 in every slot. */
  lemma ContentsEmpty<T>(mask: Word, k: nat, dflt: T)
    requires IsMask(mask, k)
    ensures forall i :: 0 <= i < Size(mask) ==> Contents(mask, dflt, [])[i] == Slot(0, dflt)
  {
    forall i | 0 <= i < Size(mask)
      ensures Contents(mask, dflt, [])[i] == Slot(0, dflt)
    {
      ModSmall(i, Size(mask));
      EpochModu(mask, k, i);
    }
  }

  /** Pushing `v` at the write pointer `wp` writes `v` with the epoch of `wp` into the slot of
      `wp`, and leaves every other slot as it was. */
  lemma ContentsPush<T>(mask: Word, k: nat, dflt: T, h: seq<T>, v: T, wp: Word)
    requires IsMask(mask, k) && wp == Size(mask) + |h| < WORD_MODULUS
    ensures Contents(mask, dflt, h + [v]) == Contents(mask, dflt, h)[Modu(mask, wp) := Slot(Epoch(mask, wp), v)]
  {
    var s := Size(mask);
    var h' := h + [v];
    var before, after := Contents(mask, dflt, h), Contents(mask, dflt, h');
    var m := Modu(mask, wp);
    NextLap(mask, k, |h|);
    forall i | 0 <= i < s
      ensures after[i] == before[m := Slot(Epoch(mask, wp), v)][i]
    {
      var p := WindowPos(mask, |h|, i);
      var p' := WindowPos(mask, |h'|, i);
      WindowPosSlot(mask, k, |h|, i, p);
      if p == |h| {
        WindowPosSlot(mask, k, |h'|, i, wp);
      } else {
        WindowPosSlot(mask, k, |h'|, i, p);
        WindowPosSlot(mask, k, |h|, i, |h|);
      }
    }
  }

  /** What `read(idx)` returns after the pushes `h`, with write pointer `wp = size + |h|`:
      the value written at `idx` exactly when `idx` is one of the last `size` positions; for a
      position not written yet an epoch below its own; for an overwritten position a later
      epoch. Every epoch word found is below the write pointer, so its sentinel bit is clear. */
  lemma ReadReplay<T>(mask: Word, k: nat, dflt: T, h: seq<T>, idx: Word)
    requires IsMask(mask, k) && Size(mask) + |h| <= SENTINEL_MASK
    ensures var r := ReadSlot(Contents(mask, dflt, h), mask, idx);
            var wp := Size(mask) + |h|;
            && (r.Ok? <==> |h| <= idx < wp)
            && (r.Ok? ==> r.value == ValueAt(mask, dflt, h, idx))
            && (r.Err? ==> r.error < wp)
            && (idx >= wp ==> r.Err? && r.error < Epoch(mask, idx))
            && (idx < |h| ==> r.Err? && Epoch(mask, idx) < r.error)
  {
    var p := WindowPos(mask, |h|, Modu(mask, idx));
    WindowPosSlot(mask, k, |h|, Modu(mask, idx), p);
    Window(mask, k, dflt, h, p);
    SameSlot(mask, k, p, idx);
    EpochBounds(mask, k, p);
    if |h| <= idx < Size(mask) + |h| && p != idx {
      if p < idx {
        SlotsDiffer(mask, k, p, idx);
      } else {
        SlotsDiffer(mask, k, idx, p);
      }
    }
  }

  /** The newest position, one below the write pointer, always reads back the latest value
      (the default one on a fresh ring). */
  lemma ReadNewest<T>(mask: Word, k: nat, dflt: T, h: seq<T>)
    requires IsMask(mask, k) && Size(mask) + |h| <= SENTINEL_MASK
    ensures ReadSlot(Contents(mask, dflt, h), mask, Size(mask) + |h| - 1) == Ok(LatestValue(dflt, h))
  {
    ReadReplay(mask, k, dflt, h, Size(mask) + |h| - 1);
  }

  /** Whatever the slots hold, a word with the sentinel bit set is rejected for every position
      below the sentinel bit. */
  lemma SentinelRejected<T>(slots: seq<Slot<T>>, mask: Word, idx: Word)
    requires |slots| == Size(mask) && idx < SENTINEL_MASK
    requires slots[Modu(mask, idx)].epoch >= SENTINEL_MASK
    ensures ReadSlot(slots, mask, idx) == Err(slots[Modu(mask, idx)].epoch)
  {
    assert Epoch(mask, idx) <= idx;
  }

  /** The slot `push` writes next holds the epoch one lap below the write pointer's: the value
      `Cell::write` expects to find there. */
  lemma PushTarget<T>(mask: Word, k: nat, dflt: T, h: seq<T>, wp: Word)
    requires IsMask(mask, k) && wp == Size(mask) + |h| < WORD_MODULUS
    ensures Size(mask) <= Epoch(mask, wp)
    ensures Contents(mask, dflt, h)[Modu(mask, wp)].epoch == Epoch(mask, wp) - Size(mask)
  {
    var lo := |h|;
    Window(mask, k, dflt, h, lo);
    NextLap(mask, k, lo);
  }

  // ---------------------------------------------------------------------------
  // `QueueClient::next`

  /** `catch_up(margin)`: `margin` positions after the oldest position still held. */
  function CatchUpPtr(mask: Word, wp: Word, margin: Word): (r: Word)
    requires Size(mask) <= wp
  {
    WrapAdd(wp - Size(mask), margin)
  }

  /** With a margin below the ring size, `catch_up` lands on a position still held, which
      reads back the value written there. */
  lemma CatchUpReadable<T>(mask: Word, k: nat, dflt: T, h: seq<T>, margin: Word)
    requires IsMask(mask, k) && Size(mask) + |h| <= SENTINEL_MASK && margin < Size(mask)
    ensures CatchUpPtr(mask, Size(mask) + |h|, margin) == |h| + margin
    ensures ReadSlot(Contents(mask, dflt, h), mask, |h| + margin)
            == Ok(ValueAt(mask, dflt, h, |h| + margin))
  {
    ReadReplay(mask, k, dflt, h, |h| + margin);
  }

  /** The loop of `QueueClient::next` from margin `margin`: the value returned and the new
      read cursor. */
  function NextLoop<T>(slots: seq<Slot<T>>, mask: Word, wp: Word, toRead: Word, margin: Word)
    : (r: (Option<T>, Word))
    requires |slots| == Size(mask) <= SENTINEL_MASK && Size(mask) <= wp && 1 <= margin
    decreases Size(mask) - margin
  {
    if margin >= Size(mask) then (None, toRead)
    else match ReadSlot(slots, mask, toRead)
      case Ok(d) => (Some(d), WrapAdd(toRead, 1))
      case Err(e) =>
        var inProgress := And(e, SENTINEL_MASK) > 0;
        var stored := And(e, Not(SENTINEL_MASK));
        if stored <= Epoch(mask, toRead) || inProgress then (None, toRead)
        else NextLoop(slots, mask, wp, CatchUpPtr(mask, wp, margin), 2 * margin)
  }

  /** On a ring of one slot the loop never runs: `next` returns `None` and keeps the cursor. */
  lemma NextSingleSlot<T>(slots: seq<Slot<T>>, toRead: Word, wp: Word)
    requires |slots| == 1 <= wp
    ensures NextLoop(slots, 0, wp, toRead, 1) == (None, toRead)
  {
  }

  /** A cursor on one of the last `size` positions reads the value written there and advances
      by one. */
  lemma NextInWindow<T>(mask: Word, k: nat, dflt: T, h: seq<T>, toRead: Word)
    requires IsMask(mask, k) && Size(mask) + |h| <= SENTINEL_MASK && Size(mask) >= 2
    requires |h| <= toRead < Size(mask) + |h|
    ensures NextLoop(Contents(mask, dflt, h), mask, Size(mask) + |h|, toRead, 1)
            == (Some(ValueAt(mask, dflt, h, toRead)), toRead + 1)
  {
    ReadReplay(mask, k, dflt, h, toRead);
  }

  /** A cursor at or past the write pointer has nothing to read: `None`, cursor unchanged. */
  lemma NextAhead<T>(mask: Word, k: nat, dflt: T, h: seq<T>, toRead: Word)
    requires IsMask(mask, k) && Size(mask) + |h| <= SENTINEL_MASK && Size(mask) >= 2
    requires toRead >= Size(mask) + |h|
    ensures NextLoop(Contents(mask, dflt, h), mask, Size(mask) + |h|, toRead, 1) == (None, toRead)
  {
    ReadReplay(mask, k, dflt, h, toRead);
    var e := ReadSlot(Contents(mask, dflt, h), mask, toRead).error;
    SentinelBits(e);
    ModSmall(e, SENTINEL_MASK);
  }

  /** A cursor the writers have lapped finds a later epoch in its slot, so the first attempt
      moves it to one position after the oldest one still held and doubles the margin. */
  lemma LaggedCatchUp<T>(mask: Word, k: nat, dflt: T, h: seq<T>, toRead: Word)
    requires IsMask(mask, k) && Size(mask) + |h| <= SENTINEL_MASK && Size(mask) >= 2
    requires toRead < |h|
    ensures NextLoop(Contents(mask, dflt, h), mask, Size(mask) + |h|, toRead, 1)
            == NextLoop(Contents(mask, dflt, h), mask, Size(mask) + |h|, |h| + 1, 2)
  {
    ReadReplay(mask, k, dflt, h, toRead);
    var e := ReadSlot(Contents(mask, dflt, h), mask, toRead).error;
    SentinelBits(e);
    ModSmall(e, SENTINEL_MASK);
    assert CatchUpPtr(mask, Size(mask) + |h|, 1) == |h| + 1;
  }

  /** With more than two slots the lapped cursor reads that position at the second attempt;
      with two slots the margin has reached the size and `next` returns `None` after moving
      the cursor there. */
  lemma NextLagged<T>(mask: Word, k: nat, dflt: T, h: seq<T>, toRead: Word)
    requires IsMask(mask, k) && Size(mask) + |h| <= SENTINEL_MASK && Size(mask) >= 2
    requires toRead < |h|
    ensures Size(mask) > 2 ==>
              NextLoop(Contents(mask, dflt, h), mask, Size(mask) + |h|, toRead, 1)
              == (Some(ValueAt(mask, dflt, h, |h| + 1)), |h| + 2)
    ensures Size(mask) == 2 ==>
              NextLoop(Contents(mask, dflt, h), mask, Size(mask) + |h|, toRead, 1) == (None, |h| + 1)
  {
    LaggedCatchUp(mask, k, dflt, h, toRead);
    if Size(mask) > 2 {
      ReadReplay(mask, k, dflt, h, |h| + 1);
    }
  }
}
