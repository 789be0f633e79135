/** `Queue` and `QueueClient` (src/lib.rs) as classes: the queue owns the cell array and the
    write pointer, each client owns a read cursor into one shared queue. Every atomic operation
    of the source is one step here. */
module Queues {
  import opened Words
  import opened Wrappers
  import opened Index
  import opened Cells
  import opened Ring
  import RoundUp

  /** `size` distinct new cells holding `dflt` at epoch 0. */
  method NewCells<T>(size: nat, dflt: T) returns (cells: seq<Cell<T>>)
    ensures |cells| == size
    ensures forall j :: 0 <= j < size ==> fresh(cells[j]) && cells[j].epoch == 0 && cells[j].data == dflt
    ensures forall j, l :: 0 <= j < l < size ==> cells[j] != cells[l]
  {
    cells := [];
    for i := 0 to size
      invariant |cells| == i
      invariant forall j :: 0 <= j < i ==> fresh(cells[j]) && cells[j].epoch == 0 && cells[j].data == dflt
      invariant forall j, l :: 0 <= j < l < i ==> cells[j] != cells[l]
    {
      var c := new Cell(dflt);
      cells := cells + [c];
    }
  }

  class Queue<T> {
    const data: array<Cell<T>>
    var writePtr: Word
    const idxMask: Word
    /** log2 of the number of slots. */
    ghost const log2Size: nat
    /** The payload the cells start with, `T::default()`. */
    ghost const dflt: T
    /** Every value pushed so far, oldest first. */
    ghost var hist: seq<T>

    /** The shape fixed at construction: a power-of-two array of cells and its mask. */
    ghost predicate Wf()
    {
      IsMask(idxMask, log2Size) && data.Length == Index.Size(idxMask)
    }

    /** The current contents of the cells. */
    function Slots(): (r: seq<Slot<T>>)
      reads data, data[..]
      ensures |r| == data.Length
      ensures forall i :: 0 <= i < data.Length ==> r[i] == Slot(data[i].epoch, data[i].data)
    {
      seq(data.Length, i reads data, data[..] requires 0 <= i < data.Length =>
        Slot(data[i].epoch, data[i].data))
    }

    /** Distinct cells whose contents are those left by pushing `hist` into default cells, and
        a write pointer `size + |hist|` within the wraparound limit. */
    ghost predicate Valid()
      reads this, data, data[..]
    {
      && Wf()
      && (forall i, j :: 0 <= i < j < data.Length ==> data[i] != data[j])
      && writePtr == Index.Size(idxMask) + |hist| <= SENTINEL_MASK
      && forall i :: 0 <= i < data.Length ==>
           Slot(data[i].epoch, data[i].data) == Contents(idxMask, dflt, hist)[i]
    }

    /** On a valid queue the cells hold `Contents` of the values pushed. */
    lemma SlotsAreContents()
      requires Valid()
      ensures Slots() == Contents(idxMask, dflt, hist)
    {
    }

    /** `Queue::new(n)`: `round_up_to_power_of_two(n)` default cells at epoch 0 and the write
        pointer at `size`, the first position of epoch 1. */
    constructor (n: Word, dflt: T)
      requires 0 < n <= TOP_BIT
      ensures Valid() && fresh(data) && fresh(data[..]) && hist == [] && this.dflt == dflt
      ensures IsPowerOfTwo(data.Length) && n <= data.Length
      ensures forall k: nat :: n <= Pow2(k) ==> data.Length <= Pow2(k)
      ensures forall i :: 0 <= i < data.Length ==> data[i].epoch == 0 && data[i].data == dflt
      ensures writePtr == data.Length
    {
      var size := RoundUp.RoundUpToPowerOfTwo(n);
      assert size <= TOP_BIT by {
        Pow2Is63();
      }
      MaskOfSize(size);
      var cells := NewCells(size, dflt);
      data := new Cell<T>[size](i requires 0 <= i < size => cells[i]);
      writePtr := size;
      idxMask := size - 1;
      log2Size := Log2(size);
      this.dflt := dflt;
      hist := [];
      new;
      ContentsEmpty(idxMask, log2Size, dflt);
    }

    /** `Queue::size`. */
    function Size(): (r: Word)
      requires Wf()
      ensures r == data.Length == Pow2(log2Size)
    {
      idxMask + 1
    }

    /** `Queue::next_write_ptr`: the position the next push claims, `size` plus the number of
        pushes so far. */
    function NextWritePtr(): (r: Word)
      reads this, data, data[..]
      ensures Valid() ==> r == Index.Size(idxMask) + |hist|
    {
      writePtr
    }

    /** `Queue::read(idx)`: `Ok` of the payload if the slot of `idx` holds the epoch of `idx`,
        otherwise `Err` of the epoch word found there. */
    function Read(idx: Word): (r: Result<T, Word>)
      requires Wf()
      reads data, data[..]
      ensures r == ReadSlot(Slots(), idxMask, idx)
    {
      var cell := data[Modu(idxMask, idx)];
      var epoch := cell.Epoch();
      if epoch != Epoch(idxMask, idx) then Err(epoch) else Ok(cell.Read())
    }

    /** `Queue::push(v)`: claims the position at the write pointer and writes `v` with that
        position's epoch into its slot. */
    method Push(v: T)
      requires Valid() && writePtr < SENTINEL_MASK
      modifies this, data[Modu(idxMask, writePtr)]
      ensures Valid() && writePtr == old(writePtr) + 1 && hist == old(hist) + [v]
      ensures Slots() == old(Slots())[Modu(idxMask, old(writePtr)) :=
                                        Slot(Epoch(idxMask, old(writePtr)), v)]
    {
      SlotsAreContents();
      ghost var before := Slots();
      // The compare-and-swap loop on the write pointer claims `pos` in one step.
      var pos := writePtr;
      writePtr := pos + 1;
      var m := Modu(idxMask, pos);
      var e := Epoch(idxMask, pos);
      PushTarget(idxMask, log2Size, dflt, hist, pos);
      ContentsPush(idxMask, log2Size, dflt, hist, v, pos);
      hist := hist + [v];
      ghost var after := Contents(idxMask, dflt, hist);
      assert after == before[m := Slot(e, v)];
      data[m].Write(v, e, Size());
      forall i | 0 <= i < data.Length
        ensures Slot(data[i].epoch, data[i].data) == after[i]
      {
        if i != m {
          assert data[i] != data[m];
          assert Slot(data[i].epoch, data[i].data) == before[i];
        }
      }
    }

    /** `Queue::try_read_latest`: reads the position just below the write pointer. With each
        operation atomic that always succeeds, with the latest value pushed or, on a fresh
        queue, the default value. */
    function TryReadLatest(): (r: Option<T>)
      requires Valid()
      reads this, data, data[..]
      ensures r == Some(LatestValue(dflt, hist))
    {
      NewestReads();
      Read(writePtr - 1).ToOption()
    }

    /** On a valid queue the position just below the write pointer reads back the latest value. */
    lemma NewestReads()
      requires Valid()
      ensures Read(writePtr - 1) == Ok(LatestValue(dflt, hist))
    {
      SlotsAreContents();
      ReadNewest(idxMask, log2Size, dflt, hist);
    }

    /** `d` is the value at the newest position below the write pointer that reads
        successfully. */
    ghost predicate NewestReadable(d: T)
      requires Wf()
      reads this, data, data[..]
    {
      exists p: Word :: p < writePtr && Read(p) == Ok(d) &&
        forall q: Word :: p < q < writePtr ==> Read(q).Err?
    }

    /** `Queue::read_latest`: walks down from the position below the write pointer to the
        first position that reads successfully, and returns its value. */
    method ReadLatest() returns (d: T)
      requires Wf() && exists p: Word :: p < writePtr && Read(p).Ok?
      ensures NewestReadable(d)
    {
      var idx := writePtr - 1;
      while true
        invariant idx < writePtr
        invariant exists p: Word :: p <= idx && Read(p).Ok?
        invariant forall q: Word :: idx < q < writePtr ==> Read(q).Err?
        decreases idx
      {
        var r := Read(idx);
        if r.Ok? {
          return r.value;
        }
        idx := idx - 1;
      }
    }

    /** On a valid queue the first probe of `read_latest` succeeds, so it returns the latest
        value. */
    lemma NewestReadableIsLatest(d: T)
      requires Valid() && NewestReadable(d)
      ensures d == LatestValue(dflt, hist)
    {
      NewestReads();
    }
  }

  /** `QueueClient`: a read cursor `toRead` into a queue shared with every other client. */
  class QueueClient<T> {
    const queue: Queue<T>
    var toRead: Word

    /** `QueueClient::new_queue(n)`: a new queue of `round_up_to_power_of_two(n)` slots, read
        from its first position. */
    constructor NewQueue(n: Word, dflt: T)
      requires 0 < n <= TOP_BIT
      ensures fresh(queue) && fresh(queue.data) && fresh(queue.data[..])
      ensures queue.Valid() && queue.hist == []
      ensures queue.dflt == dflt && IsPowerOfTwo(queue.data.Length) && n <= queue.data.Length
      ensures forall k: nat :: n <= Pow2(k) ==> queue.data.Length <= Pow2(k)
      ensures toRead == queue.writePtr == queue.data.Length
    {
      var q := new Queue(n, dflt);
      queue := q;
      toRead := q.Size();
    }

    /** The derived `clone`: the same shared queue, a cursor of its own at the same place. */
    constructor Clone(other: QueueClient<T>)
      ensures queue == other.queue && toRead == other.toRead
    {
      queue := other.queue;
      toRead := other.toRead;
    }

    /** `QueueClient::size`. */
    function Size(): (r: Word)
      requires queue.Wf()
      ensures r == queue.data.Length == Pow2(queue.log2Size)
    {
      queue.Size()
    }

    /** `QueueClient::catch_up(margin)`: moves the cursor `margin` positions past the oldest
        position the queue still holds; with a margin below the size that position holds a
        value. */
    method CatchUp(margin: Word)
      requires queue.Wf() && queue.Size() <= queue.writePtr
      modifies this
      ensures toRead == CatchUpPtr(queue.idxMask, queue.writePtr, margin)
      ensures queue.Valid() && margin < queue.Size() ==>
                queue.writePtr - queue.Size() <= toRead < queue.writePtr &&
                queue.Read(toRead) == Ok(ValueAt(queue.idxMask, queue.dflt, queue.hist, toRead))
    {
      var wp := queue.NextWritePtr();
      toRead := WrapAdd(wp - queue.Size(), margin);
      if queue.Valid() && margin < queue.Size() {
        queue.SlotsAreContents();
        CatchUpReadable(queue.idxMask, queue.log2Size, queue.dflt, queue.hist, margin);
      }
    }

    /** `QueueClient::push(v)`. */
    method Push(v: T)
      requires queue.Valid() && queue.writePtr < SENTINEL_MASK
      modifies queue, queue.data[Modu(queue.idxMask, queue.writePtr)]
      ensures queue.Valid() && queue.writePtr == old(queue.writePtr) + 1
      ensures queue.hist == old(queue.hist) + [v]
      ensures queue.Slots() == old(queue.Slots())[Modu(queue.idxMask, old(queue.writePtr)) :=
                                                    Slot(Epoch(queue.idxMask, old(queue.writePtr)), v)]
    {
      queue.Push(v);
    }

    /** `QueueClient::next`: reads the cursor's position; if the writers have lapped the
        cursor, catches up with a margin that doubles at each attempt, and gives up once the
        margin reaches the size. Proved against `NextLoop`, whose result on a valid queue
        (`Queue.SlotsAreContents`) the lemmas `NextInWindow`, `NextAhead`, `NextLagged` and
        `NextSingleSlot` of module Ring give per case. */
    method Next() returns (r: Option<T>, ghost attempts: nat)
      requires queue.Wf() && queue.Size() <= queue.writePtr
      modifies this
      ensures (r, toRead) == NextLoop(queue.Slots(), queue.idxMask, queue.writePtr, old(toRead), 1)
      ensures attempts <= queue.log2Size
    {
      ghost var slots := queue.Slots();
      ghost var mask, wp := queue.idxMask, queue.writePtr;
      ghost var result := NextLoop(slots, mask, wp, toRead, 1);
      var margin: Word := 1;
      var size := queue.Size();
      attempts := 0;
      while margin < size
        invariant 1 <= margin <= size && margin == Pow2(attempts) && attempts <= queue.log2Size
        invariant queue.Slots() == slots && queue.writePtr == wp
        invariant NextLoop(slots, mask, wp, toRead, margin) == result
        decreases size - margin
      {
        DoubleMargin(attempts);
        attempts := attempts + 1;
        var done;
        done, r := NextAttempt(margin);
        if done {
          return r, attempts;
        }
        margin := margin * 2;
      }
      assert Index.Size(mask) <= margin;
      return None, attempts;
    }

    /** One pass of the loop of `QueueClient::next` with margin `margin`: returns the value at
        the cursor and advances it, gives up (`None`) when the slot holds an older epoch or is
        being written, and otherwise catches up and lets the loop go on (`done` false). */
    method NextAttempt(margin: Word) returns (done: bool, r: Option<T>)
      requires queue.Wf() && queue.Size() <= queue.writePtr && 1 <= margin < queue.Size()
      modifies this
      ensures queue.Slots() == old(queue.Slots())
      ensures var res := NextLoop(queue.Slots(), queue.idxMask, queue.writePtr, old(toRead), margin);
              if done then res == (r, toRead)
              else toRead == CatchUpPtr(queue.idxMask, queue.writePtr, margin) &&
                   res == NextLoop(queue.Slots(), queue.idxMask, queue.writePtr, toRead, 2 * margin)
    {
      ghost var slots := queue.Slots();
      match queue.Read(toRead)
      case Ok(d) =>
        toRead := WrapAdd(toRead, 1);
        return true, Some(d);
      case Err(epoch) =>
        // the stored epoch, and whether a write to the slot is under way
        var inProgress := And(epoch, SENTINEL_MASK) > 0;
        var stored := And(epoch, Not(SENTINEL_MASK));
        if stored <= Epoch(queue.idxMask, toRead) || inProgress {
          return true, None;
        }
        CatchUp(margin);
        assert queue.Slots() == slots;
        return false, None;
    }

    /** Doubling a power-of-two margin below the size keeps it within the size. */
    lemma DoubleMargin(a: nat)
      requires queue.Wf() && Pow2(a) < queue.Size()
      ensures 2 * Pow2(a) <= queue.Size() && a + 1 <= queue.log2Size
    {
      if a + 1 > queue.log2Size {
        Pow2Mono(queue.log2Size, a);
      }
      Pow2Mono(a + 1, queue.log2Size);
    }

    /** `QueueClient::latest`: `read_latest` on the shared queue, which returns the latest value
        pushed (the default one before any push). */
    method Latest() returns (d: T)
      requires queue.Valid()
      ensures d == LatestValue(queue.dflt, queue.hist)
    {
      queue.NewestReads();
      d := queue.ReadLatest();
      queue.NewestReadableIsLatest(d);
    }
  }
}
