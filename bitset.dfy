/** A fixed-length packed array of booleans ("bit set").
    Bit `i` lives in byte `i / 8`, at the in-byte position `i % 8`, least
    significant bit first.  Up to 64 bits are kept in one inline machine word,
    larger sets in a heap array of `ceil(bit_count / 8)` bytes. */
module BitSets {

  // -------------------------------------------------------------------------
  // Configuration constants (bitset.h)
  // -------------------------------------------------------------------------

  const BitsPerByte: nat := 8
  /** sizeof(size_t) on the 64-bit hosts the inline storage is written for. */
  const InlineStorageSize: nat := 8
  const InlineStorageCount: nat := InlineStorageSize * BitsPerByte
  /** Largest value of the C `int` that the popcount returns. */
  const IntMax: nat := 0x7FFF_FFFF

  /** Which storage an instance uses; chosen once, at construction. */
  datatype StorageMode = Inline | Heap

  // -------------------------------------------------------------------------
  // Reference tables
  // -------------------------------------------------------------------------

  /** The byte with only bit `j` set. */
  function SingleBit(j: nat): bv8
    requires j < 8
  {
    match j
    case 0 => 0x01
    case 1 => 0x02
    case 2 => 0x04
    case 3 => 0x08
    case 4 => 0x10
    case 5 => 0x20
    case 6 => 0x40
    case _ => 0x80
  }

  /** The byte whose low `r` bits are set and whose other bits are clear. */
  function LowBits(r: nat): bv8
    requires r <= 8
  {
    match r
    case 0 => 0x00
    case 1 => 0x01
    case 2 => 0x03
    case 3 => 0x07
    case 4 => 0x0F
    case 5 => 0x1F
    case 6 => 0x3F
    case 7 => 0x7F
    case _ => 0xFF
  }

  lemma {:induction false} ShiftOneIsSingleBit(r: nat)
    requires r < 8
    ensures (1 as bv8) << r == SingleBit(r)
  {
    if r == 0 {} else if r == 1 {} else if r == 2 {} else if r == 3 {}
    else if r == 4 {} else if r == 5 {} else if r == 6 {} else {}
  }

  // -------------------------------------------------------------------------
  // Bit addressing (the macros of bitset.h)
  // -------------------------------------------------------------------------

  /** Index of the byte that holds bit `i`. */
  function ByteForBit(i: nat): (k: nat)
    ensures BitsPerByte * k <= i < BitsPerByte * k + BitsPerByte
  {
    i / BitsPerByte
  }

  /** The mask selecting bit `i` inside its byte: `1 << (i % 8)`. */
  function PosMask(i: nat): (m: bv8)
    ensures m == SingleBit(i % 8)
  {
    ShiftOneIsSingleBit(i % BitsPerByte);
    1 << (i % BitsPerByte)
  }

  /** The position mask is a single nonzero bit of the byte. */
  lemma {:induction false} PosMaskIsSingleBit(i: nat)
    ensures PosMask(i) != 0 && PosMask(i) & (PosMask(i) - 1) == 0
  {
    var r := i % 8;
    if r == 0 {} else if r == 1 {} else if r == 2 {} else if r == 3 {}
    else if r == 4 {} else if r == 5 {} else if r == 6 {} else {}
  }

  /** The mask selecting every bit of the byte except bit `i`. */
  function NegMask(i: nat): (m: bv8)
    ensures m & PosMask(i) == 0 && m | PosMask(i) == 0xFF
  {
    !PosMask(i)
  }

  /** `jx_bitset_get` applied to the byte that holds bit `i`. */
  function TestBit(b: bv8, i: nat): (t: bool)
    ensures t == ((b >> (i % 8)) & 1 == 1)
  {
    TestBitShift(b, i % BitsPerByte);
    b & PosMask(i) != 0
  }

  /** Testing against the single-bit mask is reading the bit shifted down to
      position 0. */
  lemma {:induction false} TestBitShift(b: bv8, r: nat)
    requires r < 8
    ensures (b & SingleBit(r) != 0) == ((b >> r) & 1 == 1)
  {
    if r == 0 {} else if r == 1 {} else if r == 2 {} else if r == 3 {}
    else if r == 4 {} else if r == 5 {} else if r == 6 {} else {}
  }

  /** `jx_bitset_set` applied to the byte that holds bit `i`: the new byte. */
  function UpdateBit(b: bv8, i: nat, v: bool): (r: bv8)
    ensures TestBit(r, i) == v
    ensures forall j: nat {:trigger TestBit(r, j)} :: j % 8 != i % 8 ==> TestBit(r, j) == TestBit(b, j)
  {
    var r := (b & NegMask(i)) | (if v then PosMask(i) else 0);
    forall j: nat ensures TestBit(r, j) == if j % 8 == i % 8 then v else TestBit(b, j) {
      UpdateBitAt(b, i, v, j);
    }
    r
  }

  /** Bit `j` of a byte after writing `v` into bit `i`. */
  lemma {:induction false} UpdateBitAt(b: bv8, i: nat, v: bool, j: nat)
    ensures TestBit((b & NegMask(i)) | (if v then PosMask(i) else 0), j)
      == if j % 8 == i % 8 then v else TestBit(b, j)
  {
    var pos, neg, sel := PosMask(i), NegMask(i), PosMask(j);
    UpdateSingleBit(b, i % 8, v, j % 8, pos, neg, sel);
  }

  /** Bit `s` of a byte after writing `v` into bit `r`, through the masks
      `pos` (bit `r`), `neg` (its complement) and `sel` (bit `s`). */
  lemma {:induction false} UpdateSingleBit(b: bv8, r: nat, v: bool, s: nat, pos: bv8, neg: bv8, sel: bv8)
    requires r < 8 && s < 8
    requires pos == SingleBit(r) && neg == !pos && sel == SingleBit(s)
    ensures (((b & neg) | (if v then pos else 0)) & sel != 0) == if r == s then v else (b & sel != 0)
  {
  }

  /** Setting a bit twice to the same value leaves the byte as one set does. */
  lemma {:induction false} UpdateBitIdempotent(b: bv8, i: nat, v: bool)
    ensures UpdateBit(UpdateBit(b, i, v), i, v) == UpdateBit(b, i, v)
  {
    var r := i % 8;
    assert PosMask(i) == SingleBit(r);
    if r == 0 {} else if r == 1 {} else if r == 2 {} else if r == 3 {}
    else if r == 4 {} else if r == 5 {} else if r == 6 {} else {}
  }

  /** Bit `i % 8` of a low-bits byte is set exactly below the boundary `r`. */
  lemma {:induction false} TestLowBits(r: nat, i: nat)
    requires r <= 8
    ensures TestBit(LowBits(r), i) <==> i % 8 < r
  {
    var j := i % 8;
    assert PosMask(i) == SingleBit(j);
    if r == 0 {} else if r == 1 {} else if r == 2 {} else if r == 3 {}
    else if r == 4 {} else if r == 5 {} else if r == 6 {} else if r == 7 {} else {}
  }

  /** The single bit `r`, minus one, keeps the `r` bits below it. */
  lemma {:induction false} SingleBitMinusOne(r: nat)
    requires r < 8
    ensures SingleBit(r) - 1 == LowBits(r)
  {
  }

  // -------------------------------------------------------------------------
  // Integers as byte sequences
  // -------------------------------------------------------------------------

  /** The byte at address offset `k` of a 64-bit word stored little-endian. */
  function WordByte(w: bv64, k: nat): (b: bv8)
    requires k < 8
  {
    match k
    case 0 => (w & 0xFF) as bv8
    case 1 => ((w >> 8) & 0xFF) as bv8
    case 2 => ((w >> 16) & 0xFF) as bv8
    case 3 => ((w >> 24) & 0xFF) as bv8
    case 4 => ((w >> 32) & 0xFF) as bv8
    case 5 => ((w >> 40) & 0xFF) as bv8
    case 6 => ((w >> 48) & 0xFF) as bv8
    case _ => (w >> 56) as bv8
  }

  /** Byte `k` is the word shifted down by `8 * k` bits, low byte kept. */
  lemma {:induction false} WordByteIsShift(w: bv64, k: nat)
    requires k < 8
    ensures WordByte(w, k) as bv64 == (w >> (8 * k)) & 0xFF
  {
    if k == 0 {} else if k == 1 {} else if k == 2 {} else if k == 3 {}
    else if k == 4 {} else if k == 5 {} else if k == 6 {} else {}
  }

  /** The eight bytes of a word in address order. */
  function WordBytes(w: bv64): (bs: seq<bv8>)
    ensures |bs| == InlineStorageSize
  {
    seq(8, k requires 0 <= k < 8 => WordByte(w, k))
  }

  /** The word whose little-endian bytes are `bs`: what reading a `size_t`
      through a pointer to eight bytes yields on a little-endian host. */
  function LittleEndian(bs: seq<bv8>): (w: bv64)
    requires |bs| == InlineStorageSize
    ensures WordBytes(w) == bs
  {
    var w := (bs[0] as bv64) | ((bs[1] as bv64) << 8) | ((bs[2] as bv64) << 16)
      | ((bs[3] as bv64) << 24) | ((bs[4] as bv64) << 32) | ((bs[5] as bv64) << 40)
      | ((bs[6] as bv64) << 48) | ((bs[7] as bv64) << 56);
    assert WordByte(w, 0) == bs[0] && WordByte(w, 1) == bs[1] && WordByte(w, 2) == bs[2];
    assert WordByte(w, 3) == bs[3] && WordByte(w, 4) == bs[4] && WordByte(w, 5) == bs[5];
    assert WordByte(w, 6) == bs[6] && WordByte(w, 7) == bs[7];
    w
  }

  /** Packed bits in storage order: bit `i` is bit `i % 8` of byte `i / 8`. */
  function BitsOfBytes(bs: seq<bv8>): (s: seq<bool>)
    ensures |s| == BitsPerByte * |bs|
  {
    seq(8 * |bs|, i requires 0 <= i < 8 * |bs| => TestBit(bs[i / 8], i))
  }

  lemma {:induction false} BitsOfBytesAppend(a: seq<bv8>, b: seq<bv8>)
    ensures BitsOfBytes(a + b) == BitsOfBytes(a) + BitsOfBytes(b)
  {
    var l, r := BitsOfBytes(a + b), BitsOfBytes(a) + BitsOfBytes(b);
    forall i | 0 <= i < |l| ensures l[i] == r[i] {
      BitsOfBytesAppendAt(a, b, i);
    }
  }

  lemma {:induction false} BitsOfBytesAppendAt(a: seq<bv8>, b: seq<bv8>, i: nat)
    requires i < 8 * (|a| + |b|)
    ensures BitsOfBytes(a + b)[i] == (BitsOfBytes(a) + BitsOfBytes(b))[i]
  {
    if i < 8 * |a| {
      BitsOfBytesAppendLeft(a, b, i);
    } else {
      BitsOfBytesAppendRight(a, b, i - 8 * |a|);
    }
  }

  /** The bits of the first part of a concatenation are its own. */
  lemma {:induction false} BitsOfBytesAppendLeft(a: seq<bv8>, b: seq<bv8>, i: nat)
    requires i < 8 * |a|
    ensures BitsOfBytes(a + b)[i] == (BitsOfBytes(a) + BitsOfBytes(b))[i]
  {
    assert (a + b)[i / 8] == a[i / 8];
  }

  /** The bits of the second part of a concatenation are its own, moved by
      the first part's bit length. */
  lemma {:induction false} BitsOfBytesAppendRight(a: seq<bv8>, b: seq<bv8>, j: nat)
    requires j < 8 * |b|
    ensures BitsOfBytes(a + b)[8 * |a| + j] == BitsOfBytes(b)[j]
  {
    var i := 8 * |a| + j;
    ByteOffsetShift(|a|, j);
    assert (a + b)[i / 8] == b[j / 8];
    TestBitSamePosition(b[j / 8], i, j);
  }

  /** Bits at the same in-byte position test the same mask. */
  lemma {:induction false} TestBitSamePosition(b: bv8, i: nat, j: nat)
    requires i % 8 == j % 8
    ensures TestBit(b, i) == TestBit(b, j)
  {
    assert PosMask(i) == PosMask(j);
  }

  /** Moving a bit index by whole bytes moves its byte and keeps its position. */
  lemma {:induction false} ByteOffsetShift(m: nat, j: nat)
    ensures (8 * m + j) / 8 == m + j / 8 && (8 * m + j) % 8 == j % 8
  {
  }

  // -------------------------------------------------------------------------
  // Counting set bits
  // -------------------------------------------------------------------------

  /** Number of `true` entries. */
  function CountTrue(s: seq<bool>): (n: nat)
    ensures n <= |s|
  {
    if s == [] then 0 else (if s[0] then 1 else 0) + CountTrue(s[1..])
  }

  lemma {:induction false} CountTrueAppend(a: seq<bool>, b: seq<bool>)
    ensures CountTrue(a + b) == CountTrue(a) + CountTrue(b)
  {
    if a == [] {
      assert a + b == b;
    } else {
      assert (a + b)[1..] == a[1..] + b;
      CountTrueAppend(a[1..], b);
    }
  }

  /** A constant sequence of `n` copies of `v`. */
  function Constant(n: nat, v: bool): (s: seq<bool>)
    ensures |s| == n
  {
    seq(n, _ => v)
  }

  /** `n` copies of `v` hold `n` set bits when `v` is true and none otherwise. */
  lemma {:induction false} CountTrueConstant(n: nat, v: bool)
    ensures CountTrue(Constant(n, v)) == if v then n else 0
  {
    if n > 0 {
      assert Constant(n, v)[1..] == Constant(n - 1, v);
      CountTrueConstant(n - 1, v);
    }
  }

  /** Writing one bit changes the number of 1 bits by the difference it makes. */
  lemma {:induction false} CountTrueUpdate(c: seq<bool>, i: nat, v: bool)
    requires i < |c|
    ensures CountTrue(c[i := v]) == CountTrue(c) - (if c[i] then 1 else 0) + (if v then 1 else 0)
  {
    var before, after := c[..i], c[i + 1..];
    assert c == before + [c[i]] + after;
    assert c[i := v] == before + [v] + after;
    CountTrueAppend(before + [c[i]], after);
    CountTrueAppend(before, [c[i]]);
    CountTrueAppend(before + [v], after);
    CountTrueAppend(before, [v]);
  }

  /** Population count of a byte (the `__builtin_popcount` family on `uint8_t`). */
  function PopCount8(b: bv8): (n: nat)
    ensures n <= 8
  {
    CountTrue(BitsOfBytes([b]))
  }

  /** Population count of the inline `size_t` word, whose bits are those of its
      eight bytes as the bit set addresses them. */
  function PopCount64(w: bv64): (n: nat)
    ensures n <= 64
  {
    CountTrue(BitsOfBytes(WordBytes(w)))
  }

  // -------------------------------------------------------------------------
  // Storage invariant: logical bits followed by zero padding
  // -------------------------------------------------------------------------

  /** The bytes `sb` store the bits `c` at positions `[0, |c|)` and zeros in
      every padding position after them. */
  ghost predicate Holds(sb: seq<bv8>, c: seq<bool>) {
    |c| <= 8 * |sb| &&
    forall i {:trigger BitsOfBytes(sb)[i]} | 0 <= i < 8 * |sb| :: BitsOfBytes(sb)[i] == (i < |c| && c[i])
  }

  /** Writing one in-range bit keeps the invariant: only bit `i` changes. */
  lemma {:induction false} SetHolds(sb: seq<bv8>, c: seq<bool>, i: nat, v: bool)
    requires Holds(sb, c) && i < |c|
    ensures Holds(sb[i / 8 := UpdateBit(sb[i / 8], i, v)], c[i := v])
  {
    var k := i / 8;
    var sb' := sb[k := UpdateBit(sb[k], i, v)];
    var c' := c[i := v];
    forall j | 0 <= j < 8 * |sb'| ensures BitsOfBytes(sb')[j] == (j < |c'| && c'[j]) {
      assert BitsOfBytes(sb)[j] == (j < |c| && c[j]);
      if j / 8 == k {
        if j % 8 == i % 8 {
          assert j == i;
        } else {
          assert j != i;
        }
      }
    }
  }

  /** All-zero bytes store the all-false sequence. */
  lemma {:induction false} ZeroBytesHold(sb: seq<bv8>, n: nat)
    requires n <= 8 * |sb|
    requires forall k | 0 <= k < |sb| :: sb[k] == 0
    ensures Holds(sb, Constant(n, false))
  {
    forall i | 0 <= i < 8 * |sb| ensures BitsOfBytes(sb)[i] == false {
      assert sb[i / 8] == 0;
    }
  }

  /** Byte `k` of a packed run of `n` true bits. */
  function OnesByte(n: nat, k: nat): bv8 {
    LowBits(if n <= 8 * k then 0 else if n - 8 * k >= 8 then 8 else n - 8 * k)
  }

  /** Bytes following the `OnesByte` pattern store `n` true bits. */
  lemma {:induction false} OnesBytesHold(sb: seq<bv8>, n: nat)
    requires n <= 8 * |sb|
    requires forall k | 0 <= k < |sb| :: sb[k] == OnesByte(n, k)
    ensures Holds(sb, Constant(n, true))
  {
    forall i | 0 <= i < 8 * |sb| ensures BitsOfBytes(sb)[i] == (i < n) {
      var k := i / 8;
      var r := if n <= 8 * k then 0 else if n - 8 * k >= 8 then 8 else n - 8 * k;
      assert sb[k] == LowBits(r);
      TestLowBits(r, i);
    }
  }

  /** Under the invariant the stored bytes hold exactly as many set bits as
      the logical bits do: the padding contributes nothing. */
  lemma {:induction false} HoldsCount(sb: seq<bv8>, c: seq<bool>)
    requires Holds(sb, c)
    ensures CountTrue(BitsOfBytes(sb)) == CountTrue(c)
  {
    var pad := Constant(8 * |sb| - |c|, false);
    assert BitsOfBytes(sb) == c + pad;
    CountTrueAppend(c, pad);
    CountTrueConstant(|pad|, false);
  }

  /** The set bits of a byte prefix split at any point. */
  lemma {:induction false} CountSplit(bs: seq<bv8>, i: nat, j: nat)
    requires i <= j <= |bs|
    ensures CountTrue(BitsOfBytes(bs[..j])) == CountTrue(BitsOfBytes(bs[..i])) + CountTrue(BitsOfBytes(bs[i..j]))
  {
    assert bs[..j] == bs[..i] + bs[i..j];
    BitsOfBytesAppend(bs[..i], bs[i..j]);
    CountTrueAppend(BitsOfBytes(bs[..i]), BitsOfBytes(bs[i..j]));
  }

  // -------------------------------------------------------------------------
  // Size and mask arithmetic (bitset.c)
  // -------------------------------------------------------------------------

  /** `bytes_needed`: one byte per eight bits plus one for a partial byte. */
  function BytesNeeded(bitCount: nat): (n: nat)
    ensures BitsPerByte * n >= bitCount
    ensures n > 0 ==> BitsPerByte * (n - 1) < bitCount
    ensures n == (bitCount + 7) / 8
  {
    bitCount / BitsPerByte + (if bitCount % BitsPerByte > 0 then 1 else 0)
  }

  /** The storage mode `jx_bitset_init` selects for a bit count. */
  function ModeFor(bitCount: nat): (m: StorageMode)
    ensures m == Inline <==> bitCount <= InlineStorageCount
  {
    if bitCount > InlineStorageCount then Heap else Inline
  }

  /** `imaginary_bit_count_pos_mask_for_bit_count`: the position mask of the
      first bit past the end, widened to a word; always a power of two. */
  function BitCountPosMask(bitCount: nat): (m: bv64)
    ensures m != 0 && m & (m - 1) == 0 && m <= 0x80
  {
    PosMask(bitCount) as bv64
  }

  /** A word shifted left by `q` whole bytes, `x << (8 * q)`, for the byte
      offsets inside a word; each case is a shift by a constant. */
  function ShiftLeftBytes(x: bv64, q: nat): (y: bv64)
    requires q < InlineStorageSize
  {
    match q
    case 0 => x
    case 1 => x << 8
    case 2 => x << 16
    case 3 => x << 24
    case 4 => x << 32
    case 5 => x << 40
    case 6 => x << 48
    case _ => x << 56
  }

  /** The byte-offset cases are the one shift `x << (8 * q)`. */
  lemma {:induction false} ShiftLeftBytesIsShift(x: bv64, q: nat)
    requires q < InlineStorageSize
    ensures ShiftLeftBytes(x, q) == x << (8 * q)
  {
    if q == 0 {} else if q == 1 {} else if q == 2 {} else if q == 3 {}
    else if q == 4 {} else if q == 5 {} else if q == 6 {} else {}
  }

  /** Byte `k` of `(b << 8q) - 1` for a nonzero byte `b`: all ones below
      byte `q`, `b - 1` at byte `q`, zero above. */
  function MaskByte(b: bv8, q: nat, k: nat): bv8 {
    if k < q then 0xFF else if k == q then b - 1 else 0
  }

  /** The bytes of `(b << 8q) - 1`, for a nonzero byte `b`: the borrow of the
      subtraction runs through every byte below `q`. */
  lemma {:induction false} ShiftedMaskBytes(b: bv8, q: nat, k: nat)
    requires b != 0 && q < 8 && k < 8
    ensures WordByte(ShiftLeftBytes(b as bv64, q) - 1, k) == MaskByte(b, q, k)
  {
    if q == 0 {
      ShiftedMaskAt0(b, q, k);
    } else if q == 1 {
      ShiftedMaskAt1(b, q, k);
    } else if q == 2 {
      ShiftedMaskAt2(b, q, k);
    } else if q == 3 {
      ShiftedMaskAt3(b, q, k);
    } else if q == 4 {
      ShiftedMaskAt4(b, q, k);
    } else if q == 5 {
      ShiftedMaskAt5(b, q, k);
    } else if q == 6 {
      ShiftedMaskAt6(b, q, k);
    } else {
      ShiftedMaskAt7(b, q, k);
    }
  }

  // One lemma per byte offset: with the offset fixed, each is a small
  // bit-vector fact.
  lemma {:induction false} ShiftedMaskAt0(b: bv8, q: nat, k: nat)
    requires b != 0 && q == 0 && k < 8
    ensures WordByte(ShiftLeftBytes(b as bv64, q) - 1, k) == MaskByte(b, q, k)
  {
  }
  lemma {:induction false} ShiftedMaskAt1(b: bv8, q: nat, k: nat)
    requires b != 0 && q == 1 && k < 8
    ensures WordByte(ShiftLeftBytes(b as bv64, q) - 1, k) == MaskByte(b, q, k)
  {
  }
  lemma {:induction false} ShiftedMaskAt2(b: bv8, q: nat, k: nat)
    requires b != 0 && q == 2 && k < 8
    ensures WordByte(ShiftLeftBytes(b as bv64, q) - 1, k) == MaskByte(b, q, k)
  {
  }
  lemma {:induction false} ShiftedMaskAt3(b: bv8, q: nat, k: nat)
    requires b != 0 && q == 3 && k < 8
    ensures WordByte(ShiftLeftBytes(b as bv64, q) - 1, k) == MaskByte(b, q, k)
  {
  }
  lemma {:induction false} ShiftedMaskAt4(b: bv8, q: nat, k: nat)
    requires b != 0 && q == 4 && k < 8
    ensures WordByte(ShiftLeftBytes(b as bv64, q) - 1, k) == MaskByte(b, q, k)
  {
  }
  lemma {:induction false} ShiftedMaskAt5(b: bv8, q: nat, k: nat)
    requires b != 0 && q == 5 && k < 8
    ensures WordByte(ShiftLeftBytes(b as bv64, q) - 1, k) == MaskByte(b, q, k)
  {
  }
  lemma {:induction false} ShiftedMaskAt6(b: bv8, q: nat, k: nat)
    requires b != 0 && q == 6 && k < 8
    ensures WordByte(ShiftLeftBytes(b as bv64, q) - 1, k) == MaskByte(b, q, k)
  {
  }
  lemma {:induction false} ShiftedMaskAt7(b: bv8, q: nat, k: nat)
    requires b != 0 && q == 7 && k < 8
    ensures WordByte(ShiftLeftBytes(b as bv64, q) - 1, k) == MaskByte(b, q, k)
  {
  }

  /** `n % 64` splits into the byte offset within the word and the bit offset
      within the byte. */
  lemma {:induction false} WordOffsets(n: nat)
    ensures n % 64 == 8 * ((n / 8) % 8) + n % 8
  {
    var a, m := n / 64, n % 64;
    assert n == 64 * a + m;
    assert n / 8 == 8 * a + m / 8;
    assert (n / 8) % 8 == m / 8;
  }

  /** `bits_inline_mask_for_bit_count`: the bit count's position mask moved up
      to its byte within the word, minus one.  Byte `k` of the result is the
      `OnesByte` pattern of `bitCount % 64` true bits, so below 64 it keeps
      exactly bits `[0, bitCount)`; at 64 it is zero, which is why the caller
      treats a full word separately. */
  function BitsInlineMask(bitCount: nat): (m: bv64)
    ensures forall k | 0 <= k < 8 :: WordByte(m, k) == OnesByte(bitCount % 64, k)
    ensures bitCount % 64 == 0 ==> m == 0
  {
    var posMask := BitCountPosMask(bitCount);
    var byteOffset := ByteForBit(bitCount) % InlineStorageSize;
    var m := ShiftLeftBytes(posMask, byteOffset) - 1;
    MaskBytes(bitCount, byteOffset, m);
    m
  }

  lemma {:induction false} MaskBytes(n: nat, q: nat, m: bv64)
    requires q == (n / 8) % 8
    requires m == ShiftLeftBytes(BitCountPosMask(n), q) - 1
    ensures forall k | 0 <= k < 8 :: WordByte(m, k) == OnesByte(n % 64, k)
    ensures n % 64 == 0 ==> m == 0
  {
    var r := n % 8;
    var b := PosMask(n);
    assert b == SingleBit(r);
    WordOffsets(n);
    forall k | 0 <= k < 8 ensures WordByte(m, k) == OnesByte(n % 64, k) {
      ShiftedMaskBytes(b, q, k);
      MaskByteOnes(r, q, k);
    }
    if n % 64 == 0 {
      assert q == 0 && b == 1;
    }
  }

  /** The shifted-mask byte of a single bit `r` at offset `q` is the byte of
      a run of `8 q + r` true bits. */
  lemma {:induction false} MaskByteOnes(r: nat, q: nat, k: nat)
    requires r < 8
    ensures MaskByte(SingleBit(r), q, k) == OnesByte(8 * q + r, k)
  {
    SingleBitMinusOne(r);
  }

  /** `last_byte_mask_for_bit_count`: the bits of the last heap byte that
      belong to the set: its low `bitCount % 8`, or all eight when the count
      fills the byte. */
  function LastByteMask(bitCount: nat): (m: bv8)
    ensures m == LowBits(if bitCount % 8 == 0 then 8 else bitCount % 8)
  {
    var posMask := BitCountPosMask(bitCount);
    var r := bitCount % 8;
    assert PosMask(bitCount) == SingleBit(r);
    assert (posMask - 1) as bv8 == LowBits(r) by {
      if r == 0 {} else if r == 1 {} else if r == 2 {} else if r == 3 {}
      else if r == 4 {} else if r == 5 {} else if r == 6 {} else {}
    }
    if posMask == 1 then 0xFF else (posMask - 1) as bv8
  }

  /** Distance from the start of the last heap byte to the end of the set. */
  lemma {:induction false} LastByteOffset(n: nat)
    requires n > 0
    ensures n - 8 * (BytesNeeded(n) - 1) == if n % 8 == 0 then 8 else n % 8
  {
    var a, r := n / 8, n % 8;
    assert n == 8 * a + r;
  }

  /** The inline word written by `set_all_to_true` stores `n` true bits. */
  lemma {:induction false} InlineOnesHold(w: bv64, n: nat)
    requires n <= InlineStorageCount
    requires w == if n == InlineStorageCount then 0xFFFF_FFFF_FFFF_FFFF else BitsInlineMask(n)
    ensures Holds(WordBytes(w), Constant(n, true))
  {
    forall k | 0 <= k < 8 ensures WordBytes(w)[k] == OnesByte(n, k) {
      assert WordBytes(w)[k] == WordByte(w, k);
      if n == InlineStorageCount {
        assert WordByte(w, k) == 0xFF;
      } else {
        assert n % 64 == n;
      }
    }
    OnesBytesHold(WordBytes(w), n);
  }

  /** Heap bytes all set except the masked last one store `n` true bits. */
  lemma {:induction false} HeapOnesHold(sb: seq<bv8>, n: nat)
    requires n > 0 && |sb| == BytesNeeded(n)
    requires forall k | 0 <= k < |sb| - 1 :: sb[k] == 0xFF
    requires sb[|sb| - 1] == LastByteMask(n)
    ensures Holds(sb, Constant(n, true))
  {
    LastByteOffset(n);
    forall k | 0 <= k < |sb| ensures sb[k] == OnesByte(n, k) {
    }
    OnesBytesHold(sb, n);
  }

  /** A `size_t` unit read from eight bytes holds their set bits. */
  lemma {:induction false} UnitCount(s: seq<bv8>)
    requires |s| == InlineStorageSize
    ensures PopCount64(LittleEndian(s)) == CountTrue(BitsOfBytes(s))
  {
  }

  /** The heap branch of `jx_bitset_popcount`: the bytes read as whole
      `size_t` units (little-endian), then the remaining bytes one by one. */
  method CountBitsInUnits(a: array<bv8>) returns (count: nat)
    ensures count == CountTrue(BitsOfBytes(a[..]))
  {
    var unitSize := InlineStorageSize;
    var unitCount := a.Length / unitSize;
    var unitRemainder := a.Length % unitSize;
    count := CountWholeUnits(a, unitCount);
    if unitRemainder > 0 {
      var rest := CountRemainderBytes(a, unitSize * unitCount, unitRemainder);
      CountSplit(a[..], unitSize * unitCount, a.Length);
      count := count + rest;
    }
    assert a[..unitSize * unitCount + unitRemainder] == a[..];
  }

  /** The loop over whole units: the set bits of the first `unitCount`
      eight-byte units. */
  method CountWholeUnits(a: array<bv8>, unitCount: nat) returns (count: nat)
    requires 8 * unitCount <= a.Length
    ensures count == CountTrue(BitsOfBytes(a[..8 * unitCount]))
  {
    ghost var sb := a[..];
    count := 0;
    var i := 0;
    while i < unitCount
      invariant 0 <= i <= unitCount
      invariant count == CountTrue(BitsOfBytes(sb[..8 * i]))
    {
      var unit := LittleEndian(a[8 * i..8 * i + 8]);
      UnitCount(sb[8 * i..8 * i + 8]);
      count := count + PopCount64(unit);
      CountSplit(sb, 8 * i, 8 * i + 8);
      i := i + 1;
    }
  }

  /** The loop over the remaining bytes `[start, start + n)`. */
  method CountRemainderBytes(a: array<bv8>, start: nat, n: nat) returns (count: nat)
    requires start + n <= a.Length
    ensures count == CountTrue(BitsOfBytes(a[start..start + n]))
  {
    ghost var sb := a[start..start + n];
    count := 0;
    var j := 0;
    while j < n
      invariant 0 <= j <= n
      invariant count == CountTrue(BitsOfBytes(sb[..j]))
    {
      var b := a[start + j];
      count := count + PopCount8(b);
      assert sb[j] == b;
      assert sb[j..j + 1] == [b];
      CountSplit(sb, j, j + 1);
      j := j + 1;
    }
    assert sb[..n] == sb;
  }

  // -------------------------------------------------------------------------
  // The bit set (struct jx_bitset)
  // -------------------------------------------------------------------------

  class BitSet {
    const bitCount: nat
    const byteCount: nat
    /** Stands for the pointer comparison `jx_bitset_uses_inline_storage`. */
    const mode: StorageMode
    /** The inline word; also reset by `clear` in heap mode. */
    var bitsInline: bv64
    /** The heap byte array; empty in inline mode, where no heap storage exists. */
    const bits: array<bv8>
    /** The logical bits `[0, bitCount)`. */
    ghost var Contents: seq<bool>

    /** The fields the constructor fixes, before any bit is stored. */
    ghost predicate Shape()
      reads this
    {
      byteCount == BytesNeeded(bitCount) &&
      mode == ModeFor(bitCount) &&
      bits.Length == (if mode == Heap then byteCount else 0)
    }

    ghost predicate Valid()
      reads this, bits
    {
      Shape() &&
      |Contents| == bitCount &&
      Holds(StorageBytes(), Contents)
    }

    /** What `set->bits` points to: the inline word's bytes or the heap array. */
    function StorageBytes(): (sb: seq<bv8>)
      reads this, bits
      requires Shape()
      ensures 8 * |sb| >= bitCount
    {
      if mode == Inline then WordBytes(bitsInline) else bits[..]
    }

    /** `jx_bitset_byte_for_bit`: the byte at offset `k` of the storage. */
    function Byte(k: nat): (b: bv8)
      reads this, bits
      requires Shape() && k < |StorageBytes()|
      ensures b == StorageBytes()[k]
    {
      if mode == Inline then WordByte(bitsInline, k) else bits[k]
    }

    /** `jx_bitset_init`: records the sizes, picks the storage mode and clears. */
    constructor (bitCount: nat)
      ensures Valid() && fresh(bits)
      ensures this.bitCount == bitCount && byteCount == BytesNeeded(bitCount)
      ensures mode == (if bitCount > InlineStorageCount then Heap else Inline)
      ensures Contents == Constant(bitCount, false)
    {
      this.bitCount := bitCount;
      byteCount := BytesNeeded(bitCount);
      if bitCount > InlineStorageCount {
        mode := Heap;
        bits := new bv8[BytesNeeded(bitCount)];
      } else {
        mode := Inline;
        bits := new bv8[0];
      }
      new;
      Clear();
    }

    /** `jx_bitset_get_bit_count`. */
    function GetBitCount(): (n: nat)
      reads this, bits
      requires Valid()
      ensures n == |Contents|
    {
      bitCount
    }

    /** `jx_bitset_get`. */
    function Get(i: nat): (b: bool)
      reads this, bits
      requires Valid() && i < bitCount
      ensures b == Contents[i]
    {
      assert BitsOfBytes(StorageBytes())[i] == Contents[i];
      TestBit(Byte(ByteForBit(i)), i)
    }

    /** `jx_bitset_set`: rewrites the byte holding bit `i` in place. */
    method Set(i: nat, v: bool)
      requires Valid() && i < bitCount
      modifies this, bits
      ensures Valid()
      ensures Contents == old(Contents)[i := v]
      ensures StorageBytes() == old(StorageBytes())[i / 8 := UpdateBit(old(StorageBytes())[i / 8], i, v)]
      ensures mode == Heap ==> bitsInline == old(bitsInline)
    {
      var k := ByteForBit(i);
      ghost var sb := StorageBytes();
      var b := UpdateBit(Byte(k), i, v);
      if mode == Inline {
        bitsInline := LittleEndian(WordBytes(bitsInline)[k := b]);
      } else {
        bits[k] := b;
      }
      assert StorageBytes() == sb[k := b];
      SetHolds(sb, Contents, i, v);
      Contents := Contents[i := v];
    }

    /** `jx_bitset_clear`. */
    method Clear()
      requires Shape()
      modifies this, bits
      ensures Valid()
      ensures Contents == Constant(bitCount, false)
      ensures bitsInline == 0
      ensures forall k | 0 <= k < bits.Length :: bits[k] == 0
    {
      bitsInline := 0;
      if mode == Heap {
        forall k | 0 <= k < bits.Length {
          bits[k] := 0;
        }
      }
      Contents := Constant(bitCount, false);
      ZeroBytesHold(StorageBytes(), bitCount);
    }

    /** `jx_bitset_set_all_to_true`: sets the whole storage, masking the
        padding of the last word or byte. */
    method SetAllToTrue()
      requires Valid()
      modifies this, bits
      ensures Valid()
      ensures Contents == Constant(bitCount, true)
      ensures mode == Inline ==>
        bitsInline == if bitCount == InlineStorageCount then 0xFFFF_FFFF_FFFF_FFFF else BitsInlineMask(bitCount)
      ensures mode == Heap ==>
        (forall k | 0 <= k < byteCount - 1 :: bits[k] == 0xFF) &&
        bits[byteCount - 1] == LastByteMask(bitCount)
      ensures mode == Heap ==> bitsInline == old(bitsInline)
    {
      if mode == Inline {
        if bitCount == InlineStorageSize * BitsPerByte {
          bitsInline := 0xFFFF_FFFF_FFFF_FFFF;
        } else {
          bitsInline := BitsInlineMask(bitCount);
        }
        InlineOnesHold(bitsInline, bitCount);
      } else {
        forall k | 0 <= k < bits.Length {
          bits[k] := 0xFF;
        }
        bits[byteCount - 1] := bits[byteCount - 1] & LastByteMask(bitCount);
        HeapOnesHold(bits[..], bitCount);
      }
      Contents := Constant(bitCount, true);
    }

    /** `jx_bitset_set_all`. */
    method SetAll(v: bool)
      requires Valid()
      modifies this, bits
      ensures Valid()
      ensures Contents == Constant(bitCount, v)
    {
      if v {
        SetAllToTrue();
      } else {
        Clear();
      }
    }

    /** `jx_bitset_popcount`: the inline word at once, otherwise the heap
        array as whole `size_t` units followed by the remaining bytes. */
    method Popcount() returns (count: int)
      requires Valid() && bitCount <= IntMax
      ensures count == CountTrue(Contents)
      ensures 0 <= count <= bitCount
    {
      if mode == Inline {
        count := PopCount64(bitsInline);
        HoldsCount(StorageBytes(), Contents);
        return;
      }
      count := CountBitsInUnits(bits);
      HoldsCount(StorageBytes(), Contents);
    }
  }

  // -------------------------------------------------------------------------
  // A worked trace
  // -------------------------------------------------------------------------

  /** The bits of a 17-bit set after setting bits 0, 5 and 16 of a cleared one. */
  lemma {:induction false} SeventeenBitContents(c: seq<bool>)
    requires c == Constant(17, false)[0 := true][5 := true][16 := true]
    ensures |c| == 17
    ensures forall j | 0 <= j < 17 :: c[j] == (j == 0 || j == 5 || j == 16)
    ensures CountTrue(c) == 3
  {
    CountTrueConstant(17, false);
    CountTrueUpdate(Constant(17, false), 0, true);
    CountTrueUpdate(Constant(17, false)[0 := true], 5, true);
    CountTrueUpdate(Constant(17, false)[0 := true][5 := true], 16, true);
  }

  /** A 17-bit set, which is kept inline, with bits 0, 5 and 16 set: read
      back position by position, exactly those bits are true, and the
      popcount is 3. */
  method SeventeenBitTrace() returns (hits: seq<bool>, n: int)
    ensures |hits| == 17
    ensures forall j | 0 <= j < 17 :: hits[j] == (j == 0 || j == 5 || j == 16)
    ensures n == 3
  {
    var s := new BitSet(17);
    s.Set(0, true);
    s.Set(5, true);
    s.Set(16, true);
    SeventeenBitContents(s.Contents);
    hits := [];
    var i := 0;
    while i < 17
      invariant 0 <= i <= 17 && |hits| == i
      invariant s.Valid() && s.bitCount == 17
      invariant forall j | 0 <= j < 17 :: s.Contents[j] == (j == 0 || j == 5 || j == 16)
      invariant CountTrue(s.Contents) == 3
      invariant forall j | 0 <= j < i :: hits[j] == (j == 0 || j == 5 || j == 16)
    {
      var b := s.Get(i);
      hits := hits + [b];
      i := i + 1;
    }
    n := s.Popcount();
  }
}
