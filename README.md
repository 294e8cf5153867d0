# Bit set and bit ring buffer

A Dafny model of two small C data structures and proofs about them.

- **The bit set** (`jx_bitset`, module `BitSets`, file `bitset.dfy`) is a fixed-length packed array of booleans.
  - Bit `i` lives in byte `i / 8` under the in-byte mask `1 << (i % 8)`, least significant bit first (the `JX_BITSET_INVERT_BIT_ORDER 1` configuration).
  - A set of at most 64 bits is kept in one inline `size_t` word, modelled as a `bv64`.
  - A larger set is kept in a heap array of `ceil(bit_count / 8)` bytes, modelled as an `array<bv8>`.
  - The class `BitSet` keeps a storage-mode tag, both storages and a ghost sequence `Contents` of the logical bits.
  - Its invariant `Holds` says the storage bytes hold `Contents` followed by zero padding.
  - Every operation is proved against `Contents`:
    - `get` and `set`;
    - `clear`, `set_all_to_true` and `set_all`;
    - the chunked `popcount`, which reads whole little-endian `size_t` units and then single bytes.
  - The mask arithmetic is proved to keep exactly the bits `[0, bit_count)`:
    - `last_byte_mask_for_bit_count`, for the bits of the last heap byte, at every bit count;
    - `bits_inline_mask_for_bit_count` below 64 bits. At 64 bits that mask is 0, and `set_all_to_true` writes the all-ones word instead.
- **The bit ring buffer** (`jx_bit_ring_buffer`, module `BitRingBuffers`, file `bit_ring_buffer.dfy`) is a fixed-capacity circular FIFO of booleans stored in one bit set.
  - The class `BitRingBuffer` has the bit set and the counters `usedBitCount`, `readIndex` and `writeIndex`.
  - Its methods are proved against step functions on a value state `Ring`:
    - `AddBit` for `add`;
    - `OverwriteBit` for `add_with_overwrite`;
    - `PopBit` and `Front` for `pop` and `peek`.
  - `State()` maps the object to that value.
  - The live contents are the window of `used` bits starting at the read index, wrapping at the capacity (`LiveBits`).
  - A state is aligned (`Aligned`) when its write index is the slot just past its live bits, `write == (read + used) % capacity`.
  - The main theorem, `RingIsFifo`, says that from any aligned state, every trace of `add` and `pop` returns what a bounded FIFO queue returns.
  - `add_with_overwrite` is modelled as written. The model shows that on a full buffer it replaces the oldest bit in place and leaves the read index behind (see Findings). A corrected variant that drops the oldest bit is proved to be FIFO.

Where the header comments and the code disagree, the model follows the code:
- The comments on `jx_bitset_get` and `jx_bitset_set` speak of a big-endian order. With the configured flag the masks are least significant bit first, and that is what is modelled.
- `jx_bitset_popcount` counts the set bits of all storage bytes, not only those below `bit_count`. Because the padding stays zero, the two counts are equal (`HoldsCount`).

## Model

| member | source | states |
|---|---|---|
| BitSets.ShiftOneIsSingleBit | cork-based/bitset.h:59-61 | shifting the single-bit mask `0b00000001` left by `r < 8` gives the byte with only bit `r` set |
| BitSets.ByteForBit | cork-based/bitset.h:55-57 | the byte `k` holding bit `i` satisfies `8k <= i < 8k + 8` |
| BitSets.PosMask | cork-based/bitset.h:67-70 | the position mask of bit `i` is the byte whose only set bit is `i % 8` |
| BitSets.PosMaskIsSingleBit | cork-based/bitset.h:67-70 | the position mask is nonzero and a power of two (`m & (m - 1) == 0`) |
| BitSets.NegMask | cork-based/bitset.h:72-75 | the negative mask shares no bit with the position mask, and together they cover the whole byte |
| BitSets.UpdateBit | cork-based/bitset.h:82-87 | after the byte update of `jx_bitset_set`, bit `i` reads `v` and every other in-byte position reads as before |
| BitSets.UpdateBitAt | cork-based/bitset.h:82-87 | after the masked update, bit `j` of the byte equals `v` when it is at `i`'s position, and otherwise the old bit |
| BitSets.UpdateSingleBit | cork-based/bitset.h:84-87 | the same fact for fixed in-byte positions and explicit masks |
| BitSets.UpdateBitIdempotent | cork-based/bitset.h:84-87 | setting a bit twice to the same value gives the byte that one set gives |
| BitSets.TestBit | cork-based/bitset.h:77-80 | `jx_bitset_get` on the byte holding bit `i`: true exactly when that byte shifted down by `i % 8` has its low bit set |
| BitSets.TestBitShift | cork-based/bitset.h:77-80 | testing a byte against the single-bit mask of position `r` is reading bit `r` shifted down to position 0 |
| BitSets.TestLowBits | cork-based/bitset.c:143-158 | a byte whose low `r` bits are set reads true exactly at in-byte positions below `r` |
| BitSets.SingleBitMinusOne | cork-based/bitset.c:117-120 | a single bit minus one is the mask of all the bits below it |
| BitSets.WordByte | cork-based/bitset.c:16-18 | the byte at address offset `k` of the inline word, on a little-endian host; defined one offset at a time, its uniform form is `WordByteIsShift` |
| BitSets.WordByteIsShift | cork-based/bitset.c:16-18 | byte `k` of the inline word is the word shifted down by `8k` bits, low byte kept |
| BitSets.WordBytes | cork-based/bitset.c:16-18 | a word viewed through a byte pointer has eight bytes |
| BitSets.LittleEndian | cork-based/bitset.c:215-218 | the `size_t` read from eight bytes has exactly those bytes in address order (little-endian host) |
| BitSets.BitsOfBytes | cork-based/bitset.h:77-80 | the storage bytes unpacked into eight bits per byte, in the get macro's order |
| BitSets.BitsOfBytesAppend | cork-based/bitset.c:215-228 | the unpacked bits of a concatenation of bytes are the concatenation of their unpacked bits |
| BitSets.BitsOfBytesAppendAt | cork-based/bitset.c:215-228 | the same, at one bit index |
| BitSets.BitsOfBytesAppendLeft | cork-based/bitset.c:215-228 | bits in the first part of a concatenation are those of the first part |
| BitSets.BitsOfBytesAppendRight | cork-based/bitset.c:215-228 | bit `j` of the second part lies in the concatenation at `j` plus eight bits per byte of the first part |
| BitSets.TestBitSamePosition | cork-based/bitset.h:77-80 | two bit indices with the same in-byte position test the same mask |
| BitSets.CountTrue | cork-based/bitset.c:26-32 | the reference population count of a bit sequence is at most its length |
| BitSets.CountTrueAppend | cork-based/bitset.c:217-228 | population counts add over concatenation |
| BitSets.CountTrueConstant | cork-based/bitset.c:187-196 | `n` copies of `v` hold `n` set bits when `v` is true and none otherwise |
| BitSets.CountTrueUpdate | cork-based/bitset.h:84-87 | writing one bit changes the count by exactly the difference between the old and the new bit |
| BitSets.PopCount8 | cork-based/bitset.c:225-226 | the popcount of one byte is at most 8 |
| BitSets.PopCount64 | cork-based/bitset.c:204 | the popcount of the inline word is at most 64 |
| BitSets.Holds | cork-based/bitset.c:160-185 | the storage invariant: the storage bytes hold the logical bits at positions below `bit_count` and zero in every padding position after them |
| BitSets.SetHolds | cork-based/bitset.h:84-87 | an in-range `set` keeps the padding zero and changes the stored bits only at `i` |
| BitSets.ZeroBytesHold | cork-based/bitset.c:99-110 | all-zero storage holds the all-false contents, padding included |
| BitSets.OnesBytesHold | cork-based/bitset.c:160-185 | storage following the run-of-ones byte pattern holds `n` true bits and zero padding |
| BitSets.HoldsCount | cork-based/bitset.c:199-232 | under the storage invariant, the set bits of all storage bytes are exactly the set logical bits |
| BitSets.CountSplit | cork-based/bitset.c:217-228 | the set bits of a byte prefix split at any point |
| BitSets.BytesNeeded | cork-based/bitset.c:38-47 | `bytes_needed(n)` is the least byte count with `8 * bytes >= n`, i.e. `(n + 7) / 8` |
| BitSets.ModeFor | cork-based/bitset.c:55-66 | inline storage is chosen exactly when `bit_count <= 64` |
| BitSets.BitCountPosMask | cork-based/bitset.c:122-129 | the mask of the first bit past the end is a nonzero power of two below 256 |
| BitSets.ShiftLeftBytes | cork-based/bitset.c:137-138 | the position mask moved up by whole bytes (`<< byte_offset_in_bits`), one constant shift per byte offset; its uniform form is `ShiftLeftBytesIsShift` |
| BitSets.ShiftLeftBytesIsShift | cork-based/bitset.c:137-138 | shifting by `q` whole bytes is the shift `x << 8q` |
| BitSets.ShiftedMaskBytes | cork-based/bitset.c:136-139 | byte `k` of `(b << 8q) - 1` is `0xFF` below `q`, `b - 1` at `q` and zero above |
| BitSets.ShiftedMaskAt0 | cork-based/bitset.c:136-139 | the same for byte offset 0 |
| BitSets.ShiftedMaskAt1 | cork-based/bitset.c:136-139 | the same for byte offset 1 |
| BitSets.ShiftedMaskAt2 | cork-based/bitset.c:136-139 | the same for byte offset 2 |
| BitSets.ShiftedMaskAt3 | cork-based/bitset.c:136-139 | the same for byte offset 3 |
| BitSets.ShiftedMaskAt4 | cork-based/bitset.c:136-139 | the same for byte offset 4 |
| BitSets.ShiftedMaskAt5 | cork-based/bitset.c:136-139 | the same for byte offset 5 |
| BitSets.ShiftedMaskAt6 | cork-based/bitset.c:136-139 | the same for byte offset 6 |
| BitSets.ShiftedMaskAt7 | cork-based/bitset.c:136-139 | the same for byte offset 7 |
| BitSets.WordOffsets | cork-based/bitset.c:136-137 | a bit offset within the word splits into a byte offset within the word and a bit offset within the byte |
| BitSets.BitsInlineMask | cork-based/bitset.c:131-141 | every byte of `bits_inline_mask_for_bit_count(n)` is the byte of a run of `n % 64` ones, so below 64 exactly bits `[0, n)` are set; it is zero when `n % 64 == 0` |
| BitSets.MaskBytes | cork-based/bitset.c:131-141 | the byte-by-byte value of the inline mask as computed from the position mask and byte offset |
| BitSets.MaskByteOnes | cork-based/bitset.c:136-139 | the shifted mask of bit `r` at byte offset `q` is the pattern of a run of `8q + r` ones |
| BitSets.LastByteMask | cork-based/bitset.c:143-158 | the last-byte mask keeps the low `n % 8` bits, or all eight when `n % 8 == 0` |
| BitSets.LastByteOffset | cork-based/bitset.c:177-183 | the last heap byte carries `n % 8` bits of the set, or eight when `n % 8 == 0` |
| BitSets.InlineOnesHold | cork-based/bitset.c:165-174 | the word written by inline `set_all_to_true` holds `n` true bits and zero padding |
| BitSets.HeapOnesHold | cork-based/bitset.c:177-183 | `0xFF` bytes with a masked last byte hold `n` true bits and zero padding |
| BitSets.UnitCount | cork-based/bitset.c:217-219 | the popcount of a `size_t` unit read from eight bytes is the set-bit count of those bytes |
| BitSets.CountBitsInUnits | cork-based/bitset.c:209-230 | the heap popcount, whole units and then remainder bytes, equals the set-bit count of all the bytes |
| BitSets.CountWholeUnits | cork-based/bitset.c:217-220 | the unit loop counts the set bits of the first `8 * unit_count` bytes |
| BitSets.CountRemainderBytes | cork-based/bitset.c:222-228 | the remainder loop counts the set bits of the bytes after the whole units |
| BitSets.BitSet.StorageBytes | cork-based/bitset.c:16-24 | the storage that `set->bits` points to, whose bytes cover at least `bit_count` bits |
| BitSets.BitSet.Byte | cork-based/bitset.h:55-57 | `jx_bitset_byte_for_bit` reads byte `k` of the storage in either mode |
| BitSets.BitSet.constructor | cork-based/bitset.c:49-69 | `init` records `bit_count` and `bytes_needed(bit_count)`, chooses heap storage iff `bit_count > 64`, and every bit reads false |
| BitSets.BitSet.GetBitCount | cork-based/bitset.h:89-91 | the bit count is the number of logical bits |
| BitSets.BitSet.Get | cork-based/bitset.h:77-80 | `get(i)` returns logical bit `i` |
| BitSets.BitSet.Set | cork-based/bitset.h:82-87 | `set(i, v)` makes bit `i` read `v`, leaves every other bit (in the same and in other bytes) alone, rewrites only byte `i / 8`, and keeps the padding zero |
| BitSets.BitSet.Clear | cork-based/bitset.c:99-110 | `clear` zeroes the inline word and every heap byte; afterwards every bit reads false |
| BitSets.BitSet.SetAllToTrue | cork-based/bitset.c:160-185 | afterwards every bit reads true; inline the word is all ones at 64 bits and the inline mask otherwise; on the heap all bytes are `0xFF` except the masked last byte |
| BitSets.BitSet.SetAll | cork-based/bitset.c:187-196 | afterwards every bit reads `v` |
| BitSets.BitSet.Popcount | cork-based/bitset.c:199-232 | the popcount, in either mode, equals the number of true logical bits, and lies between 0 and `bit_count` |
| BitSets.SeventeenBitContents | cork-based/bitset.h:84-87 | a cleared 17-bit set with bits 0, 5 and 16 set is true exactly there and holds 3 set bits |
| BitSets.SeventeenBitTrace | cork-based/bitset.c:199-232 | on a 17-bit set with bits 0, 5 and 16 set, reading every position yields true exactly at 0, 5 and 16, and the popcount is 3 |
| BitRingBuffers.Slot | cork-based/bit-ring-buffer.h:18-27 | the slot `k` places after a position in the ring is a valid slot |
| BitRingBuffers.SlotIsMod | cork-based/bit-ring-buffer.h:18-27 | that slot is `(start + k) % capacity` |
| BitRingBuffers.ModOnce | cork-based/bit-ring-buffer.c:25-31 | an index that has gone at most once past the capacity reduces by one capacity |
| BitRingBuffers.WrapAround | cork-based/bit-ring-buffer.c:25-31 | the wraparound leaves an index unchanged or resets it to 0; for an index at most the capacity it is the index mod the capacity |
| BitRingBuffers.Window | cork-based/bit-ring-buffer.h:18-27 | the circular window of `len` bits from a start position has length `len` |
| BitRingBuffers.WindowAt | cork-based/bit-ring-buffer.h:18-27 | bit `k` of the window is the stored bit `k` slots after its start |
| BitRingBuffers.WindowPush | cork-based/bit-ring-buffer.c:78-82 | writing at the slot just past a window that does not fill the ring appends to the window |
| BitRingBuffers.WindowOverwriteFront | cork-based/bit-ring-buffer.c:87-97 | over a full ring, writing at the window's start replaces its first bit |
| BitRingBuffers.WindowRotate | cork-based/bit-ring-buffer.c:87-97 | over a full ring, writing at the window's start and moving the start on drops the oldest bit and appends the new one |
| BitRingBuffers.WindowFull | cork-based/bit-ring-buffer.h:18-27 | a window over the whole ring is a rotation of the stored bits |
| BitRingBuffers.CountTrueFullWindow | cork-based/bit-ring-buffer.c:128-132 | a full window holds as many 1 bits as the whole bit set |
| BitRingBuffers.Ring | cork-based/bit-ring-buffer.h:18-27 | the state of `struct jx_bit_ring_buffer` as a value: the bit set's bits and the three counters |
| BitRingBuffers.InRing | cork-based/bit-ring-buffer.c:25-31 | the bounds the wraparound keeps: `used_bit_count <= capacity`, both indices below the capacity, or both 0 at capacity 0 |
| BitRingBuffers.Aligned | cork-based/bit-ring-buffer.c:71-113 | the relation `add` and `pop` keep; at capacity above 0 it gives `write == (read + used) % capacity` |
| BitRingBuffers.Empty | cork-based/bit-ring-buffer.h:45 | `is_empty` on the state: `used_bit_count == 0` |
| BitRingBuffers.Full | cork-based/bit-ring-buffer.h:46 | `is_full` on the state: `used_bit_count` equals the capacity |
| BitRingBuffers.LiveBits | cork-based/bit-ring-buffer.h:18-27 | the live contents have `used_bit_count` bits |
| BitRingBuffers.Initial | cork-based/bit-ring-buffer.c:34-46 | the initial state is aligned and empty with no live bits, over `capacity` cleared bits, and is full only at capacity 0 |
| BitRingBuffers.AddBit | cork-based/bit-ring-buffer.c:71-85 | `add` keeps both indices in range and `used <= capacity`, keeps the capacity, and never moves the read index |
| BitRingBuffers.OverwriteBit | cork-based/bit-ring-buffer.c:87-97 | `add_with_overwrite` keeps both indices in range and `used <= capacity`, and never moves the read index |
| BitRingBuffers.OverwriteDropOldest | cork-based/bit-ring-buffer.c:87-97 | the corrected overwriting add keeps both indices in range and `used <= capacity` |
| BitRingBuffers.Front | cork-based/bit-ring-buffer.c:115-126 | `peek` returns nothing exactly when there are no live bits, and otherwise the oldest live bit |
| BitRingBuffers.PopBit | cork-based/bit-ring-buffer.c:99-113 | `pop` keeps the stored bits and the write index, and keeps both indices in range |
| BitRingBuffers.AddBitIsPush | cork-based/bit-ring-buffer.c:71-85 | on an aligned buffer `add` keeps it aligned; when full it keeps the live bits, otherwise it appends the bit to them |
| BitRingBuffers.PopBitIsPop | cork-based/bit-ring-buffer.c:99-113 | `pop` drops the oldest live bit (nothing on an empty buffer) and keeps alignment |
| BitRingBuffers.OverwriteBitNotFull | cork-based/bit-ring-buffer.c:87-97 | on a buffer that is not full, `add_with_overwrite` is `add` |
| BitRingBuffers.OverwriteBitFull | cork-based/bit-ring-buffer.c:87-97 | on a full aligned buffer `add_with_overwrite` replaces the oldest live bit with the new one and, from capacity 2 on, breaks `write == (read + used) % capacity` |
| BitRingBuffers.OverwriteDropOldestIsFifo | cork-based/bit-ring-buffer.c:87-97 | the corrected overwriting add keeps alignment; it drops the oldest bit and appends the new one when full, and appends otherwise |
| BitRingBuffers.FullRingCount | cork-based/bit-ring-buffer.c:128-132 | on a full aligned buffer, the whole bit set's population count is that of the live bits |
| BitRingBuffers.RunRing | cork-based/bit-ring-buffer.c:71-113 | running a trace of `add` and `pop` on the buffer gives one result per call |
| BitRingBuffers.RunQueue | cork-based/bit-ring-buffer.c:71-113 | the reference bounded FIFO queue gives one result per call |
| BitRingBuffers.RingIsFifo | cork-based/bit-ring-buffer.c:71-113 | from an aligned state, every trace of `add` and `pop` returns what the bounded FIFO queue over the live bits returns |
| BitRingBuffers.BitRingBuffer.Capacity | cork-based/bit-ring-buffer.h:43 | the allocated size is the bit set's bit count |
| BitRingBuffers.BitRingBuffer.IsEmpty | cork-based/bit-ring-buffer.h:45 | `is_empty` holds exactly when there are no live bits |
| BitRingBuffers.BitRingBuffer.IsFull | cork-based/bit-ring-buffer.h:46 | `is_full` holds exactly when the live bits fill the capacity; at capacity 0 the buffer is full and empty |
| BitRingBuffers.BitRingBuffer.GetUsedBitCount | cork-based/bit-ring-buffer.h:48-50 | the used count is the number of live bits and at most the capacity |
| BitRingBuffers.BitRingBuffer.Peek | cork-based/bit-ring-buffer.c:115-126 | `peek` returns the front of the state and changes nothing |
| BitRingBuffers.BitRingBuffer.constructor | cork-based/bit-ring-buffer.c:34-46 | `init` gives the initial state: a cleared bit set of the capacity and all three counters 0 |
| BitRingBuffers.BitRingBuffer.Add | cork-based/bit-ring-buffer.c:71-85 | `add` performs `AddBit` on the state and returns whether the buffer was not full; when full it changes nothing at all |
| BitRingBuffers.BitRingBuffer.AddWithOverwrite | cork-based/bit-ring-buffer.c:87-97 | `add_with_overwrite` performs `OverwriteBit` on the state |
| BitRingBuffers.BitRingBuffer.AddWithOverwriteDropOldest | cork-based/bit-ring-buffer.c:87-97 | the corrected overwriting add performs `OverwriteDropOldest` on the state |
| BitRingBuffers.BitRingBuffer.Pop | cork-based/bit-ring-buffer.c:99-113 | `pop` returns the front of the old state and performs `PopBit`, changing no bit of the bit set |
| BitRingBuffers.BitRingBuffer.PopulationCount | cork-based/bit-ring-buffer.c:128-132 | the population count is the number of 1 bits in the whole bit set, stale bits included |
| BitRingBuffers.FifoTrace | cork-based/bit-ring-buffer.c:71-113 | at capacity 3, a fourth `add` is refused and the bits come out in arrival order across the wraparound of both indices, then `pop` returns nothing |
| BitRingBuffers.ZeroCapacityTrace | cork-based/bit-ring-buffer.h:45-46 | a capacity-0 buffer is empty and full, refuses `add` and pops nothing |
| BitRingBuffers.StaleBitTrace | cork-based/bit-ring-buffer.c:128-132 | after adding and popping one true bit, the buffer is empty but its population count is 1 |
| BitRingBuffers.OverwriteTrace | cork-based/bit-ring-buffer.c:87-97 | as written: overwriting a full capacity-2 buffer holding `true, true` with `false` makes the next pop return `false` |
| BitRingBuffers.OverwriteDropOldestTrace | cork-based/bit-ring-buffer.c:87-97 | corrected: the same trace makes the next pop return the older `true` |

## Left out

- Allocation and destruction are not modelled.
  - Left out: `jx_bitset_new`, `jx_bitset_deinit`, `jx_bitset_free`, `jx_bit_ring_buffer_new`, `jx_bit_ring_buffer_done` and `jx_bit_ring_buffer_free`.
  - `calloc`/`malloc` results are never checked in the source. Here construction is a Dafny constructor that cannot fail, and memory is garbage collected.
  - So the rule that `deinit` frees only heap storage is not modelled.
  - `jx_bit_ring_buffer_done` calls `jx_bitset_done`, which bitset.h does not declare (it declares `jx_bitset_deinit`).
- The inline-storage test compares `set->bits` with the address of `bits_inline`. Pointers are not modelled: the storage-mode tag `mode`, fixed at construction, takes the comparison's place. In inline mode the heap array is an empty array.
- Machine endianness: the byte view of the inline word and the `size_t` view of heap units assume a little-endian host (`WordBytes`, `LittleEndian`). Big-endian hosts are not modelled.
- `_Generic` and the `__builtin_popcount*` builtins are replaced by the reference count `CountTrue` over the unpacked bits (`PopCount8`, `PopCount64`).
- The `JX_BITSET_INVERT_BIT_ORDER 0` (most significant bit first) configuration is not modelled. `set_all` and `set_all_to_true` exist only under the configured value 1.
- `jx_bitset_byte_offset_in_array` is used by `bits_inline_mask_for_bit_count` but defined in neither bitset.h nor bitset.c. It is taken to be `bit_count / 8`, like `jx_bitset_byte_for_bit`.
- The global `true_p`/`false_p` pointers and the `NULL` result of `pop` and `peek` are modelled as `Option<bool>`.
- `size_t` width: counters and indices are unbounded naturals. No operation can take them past the capacity, so no wrap-around is needed.
- Operations that are not in the modelled C files: no "shift all bits" operation appears in them, so none is modelled.
- BitSets.BitSet.Get: requires `i < bit_count`; the C macro has no check.
  - From `bit_count` up to the last bit of the storage, the C macro reads a padding bit inside the storage. The storage is the whole 8-byte inline word, or `byte_count` heap bytes: indices 17 to 63 of a 17-bit set, or 100 to 103 of a 100-bit set.
  - Only indices at or past eight times the storage bytes read outside the storage.
- BitSets.BitSet.Set: requires `i < bit_count`; the C macro has no check.
  - From `bit_count` up to the last bit of the storage, the C macro writes into the padding inside the storage.
  - Writing a 1 there breaks the padding-stays-zero invariant `Holds`. `popcount` then counts that bit, in the inline word or in the heap units and remainder bytes, although no in-range `get` shows it.
  - Only indices at or past eight times the storage bytes write outside the storage.
- BitSets.BitSet.Popcount: requires `bit_count <= INT_MAX`, so the C `int` accumulator cannot overflow. Larger sets are not modelled.
- BitRingBuffers.BitRingBuffer.PopulationCount: requires `bit_count <= INT_MAX` for the same reason.
- BitRingBuffers.BitRingBuffer.AddWithOverwrite: requires capacity > 0; the capacity-0 behaviour of the C code is not modelled.
  - At capacity 0, `is_full` always holds, so `used_bit_count` stays 0.
  - The wraparound test compares the write index with 0 after it has been advanced, so it never fires.
  - Each call therefore writes bit `write_index` and then advances the index: 0, 1, 2, and so on.
  - A 0-bit set is kept inline, so the first 64 writes land in the inline word. `population_count` of the still-empty buffer then counts every true bit written.
  - From index 64 on, the write lands outside the inline word.
- The ring's FIFO properties are stated on the value state `State()` through the pure step functions, not as postconditions about the fields directly. Each method's postcondition ties its new state to the step function exactly.

## Findings

| source | as written | input that shows it | evidently intended | confidence | as-written member | corrected member |
|---|---|---|---|---|---|---|
| cork-based/bit-ring-buffer.c:87-97 | on a full buffer, `add_with_overwrite` writes over the oldest live bit and leaves `read_index` in place, so the next `pop` returns the newest bit and `write == (read + used) % capacity` no longer holds (capacity > 1) | capacity 2, `add(true)`, `add(true)`, `add_with_overwrite(false)`, `pop()` returns `false` | drop the oldest bit and move `read_index` on with `write_index`, so the next `pop` returns `true` and arrival order is kept | not executed; medium: the written behaviour may be deliberate | BitRingBuffers.OverwriteBitFull | BitRingBuffers.OverwriteDropOldestIsFifo |
