/** A fixed-capacity circular FIFO of booleans kept in one bit set.
    `readIndex` names the next bit to read, `writeIndex` the next slot to
    write, and the live contents are the `usedBitCount` bits starting at
    `readIndex`, wrapping around at the capacity. */
module BitRingBuffers {
  import opened BitSets

  /** Stands for the `const bool *` results: NULL, or a pointer to a value. */
  datatype Option<T> = None | Some(value: T)

  // -------------------------------------------------------------------------
  // Index arithmetic
  // -------------------------------------------------------------------------

  /** The slot `k` places after `start` in a ring of `capacity` slots. */
  function Slot(start: nat, k: nat, capacity: nat): (p: nat)
    requires start < capacity && k <= capacity
    ensures p < capacity
  {
    if start + k < capacity then start + k else start + k - capacity
  }

  /** The slot is the offset taken modulo the capacity. */
  lemma {:induction false} SlotIsMod(start: nat, k: nat, capacity: nat)
    requires start < capacity && k <= capacity
    ensures Slot(start, k, capacity) == (start + k) % capacity
  {
    if start + k < capacity {
      ModBelow(start + k, capacity);
    } else {
      ModOnce(start + k, capacity);
    }
  }

  lemma {:induction false} ModBelow(x: nat, m: nat)
    requires x < m
    ensures x % m == x
  {
  }

  lemma {:induction false} ModOnce(x: nat, m: nat)
    requires m <= x < 2 * m
    ensures x % m == x - m
  {
    ModBelow(x - m, m);
    assert x == (x - m) + 1 * m;
  }

  /** `check_and_handle_index_wraparound`: an index that has reached the
      capacity goes back to 0. */
  function WrapAround(index: nat, capacity: nat): (r: nat)
    ensures r == 0 || r == index
    ensures 0 < capacity && index <= capacity ==> r == index % capacity
  {
    if index == capacity then 0 else index
  }

  // -------------------------------------------------------------------------
  // The live window over the stored bits
  // -------------------------------------------------------------------------

  /** The `len` bits of `c` read circularly from position `start`. */
  function Window(c: seq<bool>, start: nat, len: nat): (w: seq<bool>)
    requires len <= |c| && (start < |c| || len == 0)
    ensures |w| == len
    decreases len
  {
    if len == 0 then [] else [c[start]] + Window(c, Slot(start, 1, |c|), len - 1)
  }

  /** Bit `k` of a window is the stored bit `k` slots after its start. */
  lemma {:induction false} WindowAt(c: seq<bool>, start: nat, len: nat, k: nat)
    requires len <= |c| && start < |c| && k < len
    ensures Window(c, start, len)[k] == c[Slot(start, k, |c|)]
    decreases k
  {
    if k > 0 {
      WindowAt(c, Slot(start, 1, |c|), len - 1, k - 1);
      assert Slot(Slot(start, 1, |c|), k - 1, |c|) == Slot(start, k, |c|);
    }
  }

  /** Writing at the slot just past a window that does not fill the ring
      appends to the window. */
  lemma {:induction false} WindowPush(c: seq<bool>, start: nat, len: nat, x: bool)
    requires start < |c| && len < |c|
    ensures Window(c[Slot(start, len, |c|) := x], start, len + 1) == Window(c, start, len) + [x]
  {
    var c' := c[Slot(start, len, |c|) := x];
    var w', w := Window(c', start, len + 1), Window(c, start, len);
    forall k | 0 <= k < len + 1
      ensures w'[k] == (w + [x])[k]
    {
      WindowAt(c', start, len + 1, k);
      if k < len {
        WindowAt(c, start, len, k);
        assert Slot(start, k, |c|) != Slot(start, len, |c|);
      }
    }
  }

  /** Over a full ring, writing at the start of the window replaces its
      first bit. */
  lemma {:induction false} WindowOverwriteFront(c: seq<bool>, start: nat, x: bool)
    requires start < |c|
    ensures Window(c[start := x], start, |c|) == Window(c, start, |c|)[0 := x]
  {
    var w', w := Window(c[start := x], start, |c|), Window(c, start, |c|);
    forall k | 0 <= k < |c|
      ensures w'[k] == w[0 := x][k]
    {
      WindowAt(c[start := x], start, |c|, k);
      WindowAt(c, start, |c|, k);
      if k > 0 {
        assert Slot(start, k, |c|) != start;
      }
    }
  }

  /** Over a full ring, writing at the start of the window and moving the
      start one slot on drops the oldest bit and appends the new one. */
  lemma {:induction false} WindowRotate(c: seq<bool>, start: nat, x: bool)
    requires start < |c|
    ensures Window(c[start := x], Slot(start, 1, |c|), |c|) == Window(c, start, |c|)[1..] + [x]
  {
    var c' := c[start := x];
    var next := Slot(start, 1, |c|);
    var w', w := Window(c', next, |c|), Window(c, start, |c|);
    forall k | 0 <= k < |c|
      ensures w'[k] == (w[1..] + [x])[k]
    {
      WindowAt(c', next, |c|, k);
      assert Slot(next, k, |c|) == Slot(start, k + 1, |c|);
      if k + 1 < |c| {
        WindowAt(c, start, |c|, k + 1);
        assert Slot(start, k + 1, |c|) != start;
      }
    }
  }

  /** A window over the whole ring is a rotation of the stored bits. */
  lemma {:induction false} WindowFull(c: seq<bool>, start: nat)
    requires start < |c|
    ensures Window(c, start, |c|) == c[start..] + c[..start]
  {
    var w := Window(c, start, |c|);
    forall k | 0 <= k < |c|
      ensures w[k] == (c[start..] + c[..start])[k]
    {
      WindowAt(c, start, |c|, k);
      if start + k < |c| {
        assert (c[start..] + c[..start])[k] == c[start..][k];
      } else {
        assert (c[start..] + c[..start])[k] == c[..start][k - (|c| - start)];
      }
    }
  }

  /** A full window holds as many 1 bits as the whole ring. */
  lemma {:induction false} CountTrueFullWindow(c: seq<bool>, start: nat)
    requires start < |c|
    ensures CountTrue(Window(c, start, |c|)) == CountTrue(c)
  {
    WindowFull(c, start);
    CountTrueAppend(c[start..], c[..start]);
    CountTrueAppend(c[..start], c[start..]);
    assert c[..start] + c[start..] == c;
  }

  // -------------------------------------------------------------------------
  // The state of a ring buffer and what each operation does to it
  // -------------------------------------------------------------------------

  /** The state of a `jx_bit_ring_buffer` as values: the bits of its bit set
      (as many as the capacity) and its three counters. */
  datatype Ring = Ring(bits: seq<bool>, read: nat, write: nat, used: nat)

  /** The bounds every operation keeps: at most `capacity` bits are held and
      both indices name a slot (or are 0 in a ring with no slots). */
  predicate InRing(r: Ring) {
    r.used <= |r.bits| &&
    if |r.bits| == 0 then r.read == 0 && r.write == 0 else r.read < |r.bits| && r.write < |r.bits|
  }

  /** The relation `add` and `pop` keep: the write index is the slot just
      past the live bits that start at the read index. */
  predicate Aligned(r: Ring)
    ensures Aligned(r) && |r.bits| > 0 ==> r.write == (r.read + r.used) % |r.bits|
  {
    if InRing(r) && |r.bits| > 0 then
      SlotIsMod(r.read, r.used, |r.bits|);
      r.write == Slot(r.read, r.used, |r.bits|)
    else
      InRing(r)
  }

  /** The live contents, oldest first. */
  function LiveBits(r: Ring): (s: seq<bool>)
    requires InRing(r)
    ensures |s| == r.used
  {
    Window(r.bits, r.read, r.used)
  }

  /** `jx_bit_ring_buffer_is_empty` on the state. */
  predicate Empty(r: Ring) {
    r.used == 0
  }

  /** `jx_bit_ring_buffer_is_full` on the state. */
  predicate Full(r: Ring) {
    r.used == |r.bits|
  }

  /** The empty state `jx_bit_ring_buffer_init` sets up over `capacity` bits. */
  function Initial(capacity: nat): (r: Ring)
    ensures Aligned(r) && LiveBits(r) == [] && |r.bits| == capacity
    ensures Empty(r) && (Full(r) <==> capacity == 0)
  {
    Ring(Constant(capacity, false), 0, 0, 0)
  }

  /** `jx_bit_ring_buffer_add`: a full buffer is left as it is; otherwise the
      bit is stored at the write index, which moves on, and one more bit is
      held. */
  function AddBit(r: Ring, x: bool): (r': Ring)
    requires InRing(r)
    ensures InRing(r') && |r'.bits| == |r.bits| && r'.read == r.read
  {
    if Full(r) then r
    else Ring(r.bits[r.write := x], r.read, WrapAround(r.write + 1, |r.bits|), r.used + 1)
  }

  /** `jx_bit_ring_buffer_add_with_overwrite`, as written: the bit is always
      stored at the write index, which moves on; one more bit is counted only
      when the buffer was not full; the read index never moves. */
  function OverwriteBit(r: Ring, x: bool): (r': Ring)
    requires InRing(r) && |r.bits| > 0
    ensures InRing(r') && |r'.bits| == |r.bits| && r'.read == r.read
  {
    Ring(r.bits[r.write := x], r.read, WrapAround(r.write + 1, |r.bits|),
         if Full(r) then r.used else r.used + 1)
  }

  /** `add_with_overwrite` as evidently intended: when the buffer is full the
      oldest bit is dropped, so the read index moves on with the write. */
  function OverwriteDropOldest(r: Ring, x: bool): (r': Ring)
    requires InRing(r) && |r.bits| > 0
    ensures InRing(r') && |r'.bits| == |r.bits|
  {
    if Full(r) then
      Ring(r.bits[r.write := x], WrapAround(r.read + 1, |r.bits|), WrapAround(r.write + 1, |r.bits|), r.used)
    else
      Ring(r.bits[r.write := x], r.read, WrapAround(r.write + 1, |r.bits|), r.used + 1)
  }

  /** What `jx_bit_ring_buffer_peek` and `jx_bit_ring_buffer_pop` return:
      nothing when empty, otherwise the bit at the read index. */
  function Front(r: Ring): (v: Option<bool>)
    requires InRing(r)
    ensures v.None? <==> LiveBits(r) == []
    ensures v.Some? ==> v.value == LiveBits(r)[0]
  {
    if Empty(r) then None else Some(r.bits[r.read])
  }

  /** `jx_bit_ring_buffer_pop` on the state: an empty buffer is left as it
      is; otherwise the read index moves on and one bit fewer is held. */
  function PopBit(r: Ring): (r': Ring)
    requires InRing(r)
    ensures InRing(r') && r'.bits == r.bits && r'.write == r.write
  {
    if Empty(r) then r else Ring(r.bits, WrapAround(r.read + 1, |r.bits|), r.write, r.used - 1)
  }

  /** `add` keeps the counters aligned and appends to the live contents,
      unless the buffer is full, when nothing changes. */
  lemma {:induction false} AddBitIsPush(r: Ring, x: bool)
    requires Aligned(r)
    ensures Aligned(AddBit(r, x))
    ensures LiveBits(AddBit(r, x)) == if Full(r) then LiveBits(r) else LiveBits(r) + [x]
  {
    if !Full(r) {
      var n := |r.bits|;
      WindowPush(r.bits, r.read, r.used, x);
      assert Slot(r.read, r.used + 1, n) == Slot(Slot(r.read, r.used, n), 1, n);
    }
  }

  /** `pop` drops the oldest live bit, aligned or not, and keeps alignment. */
  lemma {:induction false} PopBitIsPop(r: Ring)
    requires InRing(r)
    ensures LiveBits(PopBit(r)) == if Empty(r) then LiveBits(r) else LiveBits(r)[1..]
    ensures Aligned(r) ==> Aligned(PopBit(r))
  {
    if !Empty(r) {
      var n := |r.bits|;
      assert Slot(r.read, r.used, n) == Slot(Slot(r.read, 1, n), r.used - 1, n);
    }
  }

  /** On a buffer that is not full, the overwriting add is the plain add. */
  lemma {:induction false} OverwriteBitNotFull(r: Ring, x: bool)
    requires InRing(r) && |r.bits| > 0 && !Full(r)
    ensures OverwriteBit(r, x) == AddBit(r, x)
  {
  }

  /** On a full aligned buffer of more than one bit, the overwriting add as
      written replaces the oldest bit in place, so the newest bit is the next
      one read, and the write index no longer follows the live bits. */
  lemma {:induction false} OverwriteBitFull(r: Ring, x: bool)
    requires Aligned(r) && |r.bits| > 0 && Full(r)
    ensures LiveBits(OverwriteBit(r, x)) == LiveBits(r)[0 := x]
    ensures |r.bits| > 1 ==> !Aligned(OverwriteBit(r, x))
  {
    WindowOverwriteFront(r.bits, r.read, x);
  }

  /** The overwriting add that drops the oldest bit keeps the counters
      aligned and the live contents in arrival order. */
  lemma {:induction false} OverwriteDropOldestIsFifo(r: Ring, x: bool)
    requires Aligned(r) && |r.bits| > 0
    ensures Aligned(OverwriteDropOldest(r, x))
    ensures LiveBits(OverwriteDropOldest(r, x)) == if Full(r) then LiveBits(r)[1..] + [x] else LiveBits(r) + [x]
  {
    if Full(r) {
      WindowRotate(r.bits, r.read, x);
    } else {
      AddBitIsPush(r, x);
    }
  }

  /** When an aligned buffer is full, the population count of the whole bit
      set is that of the live contents. */
  lemma {:induction false} FullRingCount(r: Ring)
    requires Aligned(r) && Full(r)
    ensures CountTrue(r.bits) == CountTrue(LiveBits(r))
  {
    if |r.bits| > 0 {
      CountTrueFullWindow(r.bits, r.read);
    }
  }

  // -------------------------------------------------------------------------
  // Traces of `add` and `pop` behave as a bounded FIFO queue
  // -------------------------------------------------------------------------

  /** One call: `add` of a bit, or `pop`. */
  datatype Op = AddOp(x: bool) | PopOp

  /** What one call returns: whether `add` stored the bit, or what `pop` gave. */
  datatype Out = Added(ok: bool) | Popped(v: Option<bool>)

  /** The results of running `ops` on the ring buffer. */
  function RunRing(r: Ring, ops: seq<Op>): (outs: seq<Out>)
    requires InRing(r)
    ensures |outs| == |ops|
    decreases |ops|
  {
    if ops == [] then []
    else match ops[0]
      case AddOp(x) => [Added(!Full(r))] + RunRing(AddBit(r, x), ops[1..])
      case PopOp => [Popped(Front(r))] + RunRing(PopBit(r), ops[1..])
  }

  /** The results of running `ops` on a queue `q` bounded by `capacity`. */
  function RunQueue(q: seq<bool>, capacity: nat, ops: seq<Op>): (outs: seq<Out>)
    ensures |outs| == |ops|
    decreases |ops|
  {
    if ops == [] then []
    else match ops[0]
      case AddOp(x) =>
        if |q| == capacity then [Added(false)] + RunQueue(q, capacity, ops[1..])
        else [Added(true)] + RunQueue(q + [x], capacity, ops[1..])
      case PopOp =>
        if q == [] then [Popped(None)] + RunQueue(q, capacity, ops[1..])
        else [Popped(Some(q[0]))] + RunQueue(q[1..], capacity, ops[1..])
  }

  /** From an aligned state, every trace of `add` and `pop` gives the results
      of the bounded FIFO queue holding the live contents: bits come out in
      the order they went in, and `add` fails exactly when the queue is full. */
  lemma {:induction false} RingIsFifo(r: Ring, ops: seq<Op>)
    requires Aligned(r)
    ensures RunRing(r, ops) == RunQueue(LiveBits(r), |r.bits|, ops)
    decreases |ops|
  {
    if ops != [] {
      match ops[0]
      case AddOp(x) =>
        AddBitIsPush(r, x);
        RingIsFifo(AddBit(r, x), ops[1..]);
      case PopOp =>
        PopBitIsPop(r);
        RingIsFifo(PopBit(r), ops[1..]);
    }
  }

  // -------------------------------------------------------------------------
  // The ring buffer
  // -------------------------------------------------------------------------

  class BitRingBuffer {
    /** The elements, one per bit; its bit count is the capacity. */
    const bitset: BitSet
    /** The number of bits currently held. */
    var usedBitCount: nat
    /** The index of the next bit to read. */
    var readIndex: nat
    /** The index of the next slot to write. */
    var writeIndex: nat

    /** The buffer's state as a value. */
    ghost function State(): Ring
      reads this, bitset
    {
      Ring(bitset.Contents, readIndex, writeIndex, usedBitCount)
    }

    ghost predicate Valid()
      reads this, bitset, bitset.bits
    {
      bitset.Valid() && InRing(State())
    }

    /** `jx_bit_ring_buffer_get_allocated_size`. */
    function Capacity(): (n: nat)
      reads this, bitset, bitset.bits
      requires Valid()
      ensures n == |State().bits|
    {
      bitset.GetBitCount()
    }

    /** `jx_bit_ring_buffer_is_empty`. */
    function IsEmpty(): (b: bool)
      reads this, bitset, bitset.bits
      requires Valid()
      ensures b <==> LiveBits(State()) == []
    {
      usedBitCount == 0
    }

    /** `jx_bit_ring_buffer_is_full`. */
    function IsFull(): (b: bool)
      reads this, bitset, bitset.bits
      requires Valid()
      ensures b <==> |LiveBits(State())| == Capacity()
      ensures Capacity() == 0 ==> b && IsEmpty()
    {
      usedBitCount == Capacity()
    }

    /** `jx_bit_ring_buffer_get_used_bit_count`. */
    function GetUsedBitCount(): (n: nat)
      reads this, bitset, bitset.bits
      requires Valid()
      ensures n == |LiveBits(State())| && n <= Capacity()
    {
      usedBitCount
    }

    /** `jx_bit_ring_buffer_peek`: the oldest live bit, if any. */
    function Peek(): (r: Option<bool>)
      reads this, bitset, bitset.bits
      requires Valid()
      ensures r == Front(State())
    {
      if usedBitCount == 0 then None else Some(bitset.Get(readIndex))
    }

    /** `jx_bit_ring_buffer_init`: an empty buffer over a cleared bit set. */
    constructor (capacity: nat)
      ensures Valid() && fresh(bitset) && fresh(bitset.bits)
      ensures State() == Initial(capacity)
    {
      bitset := new BitSet(capacity);
      usedBitCount := 0;
      readIndex := 0;
      writeIndex := 0;
    }

    /** `jx_bit_ring_buffer_add`. */
    method Add(x: bool) returns (added: bool)
      requires Valid()
      modifies this, bitset, bitset.bits
      ensures Valid()
      ensures State() == AddBit(old(State()), x)
      ensures added == !Full(old(State()))
      ensures !added ==> unchanged(this, bitset, bitset.bits)
    {
      if usedBitCount == bitset.bitCount {
        return false;
      }
      bitset.Set(writeIndex, x);
      writeIndex := writeIndex + 1;
      usedBitCount := usedBitCount + 1;
      writeIndex := WrapAround(writeIndex, bitset.bitCount);
      return true;
    }

    /** `jx_bit_ring_buffer_add_with_overwrite`, as written. */
    method AddWithOverwrite(x: bool)
      requires Valid() && bitset.bitCount > 0
      modifies this, bitset, bitset.bits
      ensures Valid()
      ensures State() == OverwriteBit(old(State()), x)
    {
      bitset.Set(writeIndex, x);
      writeIndex := writeIndex + 1;
      writeIndex := WrapAround(writeIndex, bitset.bitCount);
      if usedBitCount != bitset.bitCount {
        usedBitCount := usedBitCount + 1;
      }
    }

    /** `add_with_overwrite` as evidently intended: on a full buffer the read
        index moves on with the write index. */
    method AddWithOverwriteDropOldest(x: bool)
      requires Valid() && bitset.bitCount > 0
      modifies this, bitset, bitset.bits
      ensures Valid()
      ensures State() == OverwriteDropOldest(old(State()), x)
    {
      var full := usedBitCount == bitset.bitCount;
      bitset.Set(writeIndex, x);
      writeIndex := writeIndex + 1;
      writeIndex := WrapAround(writeIndex, bitset.bitCount);
      if full {
        readIndex := readIndex + 1;
        readIndex := WrapAround(readIndex, bitset.bitCount);
      } else {
        usedBitCount := usedBitCount + 1;
      }
    }

    /** `jx_bit_ring_buffer_pop`. */
    method Pop() returns (r: Option<bool>)
      requires Valid()
      modifies this
      ensures Valid()
      ensures r == Front(old(State()))
      ensures State() == PopBit(old(State()))
    {
      if usedBitCount == 0 {
        return None;
      }
      var result := bitset.Get(readIndex);
      readIndex := readIndex + 1;
      usedBitCount := usedBitCount - 1;
      readIndex := WrapAround(readIndex, bitset.bitCount);
      return Some(result);
    }

    /** `jx_bit_ring_buffer_population_count`: the 1 bits of the whole bit
        set, stale slots outside the live window included. */
    method PopulationCount() returns (n: int)
      requires Valid() && bitset.bitCount <= IntMax
      ensures n == CountTrue(State().bits)
      ensures 0 <= n <= |State().bits|
    {
      n := bitset.Popcount();
    }
  }

  // -------------------------------------------------------------------------
  // Worked traces
  // -------------------------------------------------------------------------

  /** A capacity-3 trace through a full buffer and the wraparound of both
      indices: bits come out in the order they went in. */
  method FifoTrace() returns (refused: bool, first: Option<bool>, rest: seq<Option<bool>>)
    ensures refused
    ensures first == Some(true)
    ensures rest == [Some(false), Some(true), Some(false), None]
  {
    var b := new BitRingBuffer(3);
    var ok := b.Add(true);
    ok := b.Add(false);
    ok := b.Add(true);
    ok := b.Add(false);
    refused := !ok;
    first := b.Pop();
    ok := b.Add(false);
    var p1 := b.Pop();
    var p2 := b.Pop();
    var p3 := b.Pop();
    var p4 := b.Pop();
    rest := [p1, p2, p3, p4];
  }

  /** A capacity-0 buffer is empty and full at once: it stores nothing. */
  method ZeroCapacityTrace() returns (empty: bool, full: bool, added: bool, r: Option<bool>)
    ensures empty && full && !added && r == None
  {
    var b := new BitRingBuffer(0);
    empty := b.IsEmpty();
    full := b.IsFull();
    added := b.Add(true);
    r := b.Pop();
  }

  /** The population count includes bits that were already popped. */
  method StaleBitTrace() returns (empty: bool, n: int)
    ensures empty && n == 1
  {
    var b := new BitRingBuffer(100);
    var ok := b.Add(true);
    var r := b.Pop();
    empty := b.IsEmpty();
    CountTrueUpdate(Constant(100, false), 0, true);
    CountTrueConstant(100, false);
    n := b.PopulationCount();
  }

  /** Overwriting a full capacity-2 buffer holding `true, true` with `false`,
      as written: the next pop returns the newest bit, `false`. */
  method OverwriteTrace() returns (next: Option<bool>)
    ensures next == Some(false)
  {
    var b := new BitRingBuffer(2);
    var ok := b.Add(true);
    ok := b.Add(true);
    b.AddWithOverwrite(false);
    next := b.Pop();
  }

  /** The same trace dropping the oldest bit: the next pop returns the
      surviving older bit, `true`. */
  method OverwriteDropOldestTrace() returns (next: Option<bool>)
    ensures next == Some(true)
  {
    var b := new BitRingBuffer(2);
    var ok := b.Add(true);
    ok := b.Add(true);
    b.AddWithOverwriteDropOldest(false);
    next := b.Pop();
  }
}
