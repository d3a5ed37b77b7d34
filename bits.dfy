/**
 * Thirty-two-bit word arithmetic used by the dvm execution engine: the
 * two's-complement order of registers, the arithmetic right shift, the
 * little-endian byte layout of a word, and the byte- and halfword-lane
 * arithmetic that the sub-word loads and stores perform on a whole word.
 *
 * The engine computes a byte lane's shift as `offset = 8 * lane`; here each
 * lane is written out with its offset as a constant, so every branch is the
 * engine's mask-and-shift expression for that lane. Each contract states the
 * result in terms of the little-endian bytes of the word.
 */
module Bits {

  /** Bit 31 is set: the value is negative read as an `int32_t`. */
  predicate Negative(x: bv32)
  {
    x >= 0x8000_0000
  }

  /**
   * `(int32_t)a < (int32_t)b`, the two's-complement order: a negative value is
   * below every non-negative one, and values of the same sign compare as
   * their bit patterns do.
   */
  predicate SignedLess(a: bv32, b: bv32)
  {
    if Negative(a) == Negative(b) then a < b else Negative(a)
  }

  /** The signed order is the unsigned order with bit 31 flipped on both sides. */
  lemma SignedLessFlipped(a: bv32, b: bv32)
    ensures SignedLess(a, b) <==> (a ^ 0x8000_0000) < (b ^ 0x8000_0000)
  {
    assert Negative(a) == (a >= 0x8000_0000) && Negative(b) == (b >= 0x8000_0000);
  }

  /** The signed order is irreflexive. */
  lemma SignedLessIrreflexive(a: bv32)
    ensures !SignedLess(a, a)
  {
  }

  /** The signed order is transitive. */
  lemma SignedLessTransitive(a: bv32, b: bv32, c: bv32)
    requires SignedLess(a, b) && SignedLess(b, c)
    ensures SignedLess(a, c)
  {
    SignedLessFlipped(a, b);
    SignedLessFlipped(b, c);
    SignedLessFlipped(a, c);
  }

  /** The least and greatest `int32_t`: 0x8000_0000 is below and 0x7FFF_FFFF above every other value. */
  lemma SignedLessBounds(a: bv32)
    ensures a != 0x8000_0000 ==> SignedLess(0x8000_0000, a)
    ensures a != 0x7FFF_FFFF ==> SignedLess(a, 0x7FFF_FFFF)
  {
    assert Negative(a) == (a >= 0x8000_0000);
  }

  /** The signed and the unsigned order agree exactly on operands of the same sign. */
  lemma SignedLessUnsigned(a: bv32, b: bv32)
    ensures SignedLess(a, b) == (a < b) <==> Negative(a) == Negative(b)
  {
  }

  /** Negative means bit 31 is set. */
  lemma NegativeBit(x: bv32)
    ensures Negative(x) <==> x & 0x8000_0000 != 0
  {
  }

  /** `uint32_t` addition: the sum modulo 2^32. */
  function Plus(a: bv32, b: bv32): bv32
  {
    a + b
  }

  /** `uint32_t` subtraction: the difference modulo 2^32. */
  function Minus(a: bv32, b: bv32): bv32
  {
    a - b
  }

  /** `uint32_t` comparison: `a < b` on the unsigned values. */
  predicate UnsignedLess(a: bv32, b: bv32)
  {
    a < b
  }

  /** The shift amount RV32I takes from a register or immediate: its low five bits. */
  function ShiftAmount(x: bv32): (r: bv32)
    ensures r < 32
    ensures r == x % 32
  {
    x & 0x1f
  }

  /**
   * Arithmetic right shift of a 32-bit pattern, as `int32_t >> s` computes it:
   * a logical shift of a non-negative value, and the complement of the
   * logical shift of the complement for a negative one. The sign bit is kept.
   */
  function ArithShiftRight(x: bv32, s: bv32): (r: bv32)
    requires s < 32
    ensures r & 0x8000_0000 == x & 0x8000_0000
  {
    if x < 0x8000_0000 then x >> s else !((!x) >> s)
  }

  /** The `s` vacated high bits of an arithmetic shift are copies of the sign bit. */
  lemma ArithShiftRightFill(x: bv32, s: bv32)
    requires s < 32
    ensures ArithShiftRight(x, s) & !(0xFFFF_FFFF >> s) ==
      if x & 0x8000_0000 == 0 then 0 else !(0xFFFF_FFFF >> s)
  {
    if x < 0x8000_0000 {} else {}
  }

  /**
   * The value of the arithmetic shift: the logical shift `x >> s`, with the
   * `s` vacated high bits set when `x` is negative.
   */
  lemma ArithShiftRightClosedForm(x: bv32, s: bv32)
    requires s < 32
    ensures ArithShiftRight(x, s) ==
      if x < 0x8000_0000 then x >> s else (x >> s) | !(0xFFFF_FFFF >> s)
  {
    if x < 0x8000_0000 {} else {}
  }

  /** Shifting commutes with complement: the shift is symmetric about -1/2. */
  lemma ArithShiftRightComplement(x: bv32, s: bv32)
    requires s < 32
    ensures !ArithShiftRight(x, s) == ArithShiftRight(!x, s)
  {
    if x < 0x8000_0000 {
      assert !x >= 0x8000_0000;
    } else {
      assert !x < 0x8000_0000;
    }
  }

  /** The shift moves a value toward 0 (non-negative) or toward -1 (negative); by 0 it is the identity, by 31 it leaves only the sign. */
  lemma ArithShiftRightBounds(x: bv32, s: bv32)
    requires s < 32
    ensures x < 0x8000_0000 ==> ArithShiftRight(x, s) <= x
    ensures x >= 0x8000_0000 ==> ArithShiftRight(x, s) >= x
    ensures ArithShiftRight(x, 0) == x
    ensures ArithShiftRight(x, 31) == if x < 0x8000_0000 then 0 else 0xFFFF_FFFF
  {
    if x < 0x8000_0000 {} else {}
  }

  /** Byte `i` of a word in little-endian order: bits 8*i .. 8*i+7. */
  function ByteOf(v: bv32, i: bv32): bv8
    requires i < 4
  {
    var shifted := if i == 0 then v else if i == 1 then v >> 8 else if i == 2 then v >> 16 else v >> 24;
    (shifted & 0xFF) as bv8
  }

  /** The word whose little-endian bytes are b0, b1, b2, b3. */
  function Le32(b0: bv8, b1: bv8, b2: bv8, b3: bv8): (w: bv32)
    ensures ByteOf(w, 0) == b0 && ByteOf(w, 1) == b1
    ensures ByteOf(w, 2) == b2 && ByteOf(w, 3) == b3
  {
    (b0 as bv32) | ((b1 as bv32) << 8) | ((b2 as bv32) << 16) | ((b3 as bv32) << 24)
  }

  /** Composing the four bytes of a word gives the word back. */
  lemma Le32OfBytes(v: bv32)
    ensures Le32(ByteOf(v, 0), ByteOf(v, 1), ByteOf(v, 2), ByteOf(v, 3)) == v
  {
  }

  /** Two words with the same four bytes are equal. */
  lemma BytesDetermineWord(v: bv32, w: bv32)
    requires forall k: bv32 | k < 4 :: ByteOf(v, k) == ByteOf(w, k)
    ensures v == w
  {
    assert ByteOf(v, 0) == ByteOf(w, 0) && ByteOf(v, 1) == ByteOf(w, 1);
    assert ByteOf(v, 2) == ByteOf(w, 2) && ByteOf(v, 3) == ByteOf(w, 3);
    Le32OfBytes(v);
    Le32OfBytes(w);
  }

  /** Halfword `half` (0 = low, 1 = high) of a word. */
  function HalfOf(w: bv32, half: bv32): bv16
    requires half < 2
  {
    if half == 0 then (w & 0xFFFF) as bv16 else (w >> 16) as bv16
  }

  /** Sign extension of a byte to a word. */
  function SignExtend8(b: bv8): bv32
  {
    if b < 0x80 then b as bv32 else b as bv32 | 0xFFFF_FF00
  }

  /** A sign-extended byte keeps the byte in lane 0 and copies bit 7 into the 24 bits above it. */
  lemma SignExtend8Bits(b: bv8)
    ensures ByteOf(SignExtend8(b), 0) == b
    ensures SignExtend8(b) >> 8 == if b < 0x80 then 0 else 0xFF_FFFF
  {
    if b < 0x80 {} else {}
  }

  /** Sign extension of a halfword to a word. */
  function SignExtend16(h: bv16): bv32
  {
    if h < 0x8000 then h as bv32 else h as bv32 | 0xFFFF_0000
  }

  /** A sign-extended halfword keeps the halfword in its low half and copies bit 15 into its high half. */
  lemma SignExtend16Bits(h: bv16)
    ensures HalfOf(SignExtend16(h), 0) == h
    ensures HalfOf(SignExtend16(h), 1) == if h < 0x8000 then 0 else 0xFFFF
  {
    if h < 0x8000 {} else {}
  }

  /** `lbu`: `(w & (0xFF << offset)) >> offset`, the byte in lane `lane` zero-extended. */
  function LoadByteUnsigned(w: bv32, lane: bv32): (r: bv32)
    requires lane < 4
    ensures r == ByteOf(w, lane) as bv32
  {
    if lane == 0 then w & 0xFF
    else if lane == 1 then (w & 0xFF00) >> 8
    else if lane == 2 then (w & 0xFF_0000) >> 16
    else (w & 0xFF00_0000) >> 24
  }

  /**
   * `lb`: `((w & (0xFF << offset)) << (24 - offset)) >> 24` on `int32_t`, the
   * byte moved to the top and shifted back arithmetically.
   */
  function LoadByteSigned(w: bv32, lane: bv32): (r: bv32)
    requires lane < 4
    ensures r == SignExtend8(ByteOf(w, lane))
  {
    if lane == 0 then SignedByteLane0(w); ArithShiftRight((w & 0xFF) << 24, 24)
    else if lane == 1 then SignedByteLane1(w); ArithShiftRight((w & 0xFF00) << 16, 24)
    else if lane == 2 then SignedByteLane2(w); ArithShiftRight((w & 0xFF_0000) << 8, 24)
    else SignedByteLane3(w); ArithShiftRight(w & 0xFF00_0000, 24)
  }

  /** `lhu`: the halfword selected by address bit 1, zero-extended. */
  function LoadHalfUnsigned(w: bv32, half: bv32): (r: bv32)
    requires half < 2
    ensures r == HalfOf(w, half) as bv32
  {
    if half == 0 then w & 0xFFFF else (w & 0xFFFF_0000) >> 16
  }

  /** `lh`: the halfword selected by address bit 1, sign-extended by an arithmetic shift. */
  function LoadHalfSigned(w: bv32, half: bv32): (r: bv32)
    requires half < 2
    ensures r == SignExtend16(HalfOf(w, half))
  {
    if half == 0 then SignedHalfLane0(w); ArithShiftRight((w & 0xFFFF) << 16, 16)
    else SignedHalfLane1(w); ArithShiftRight(w & 0xFFFF_0000, 16)
  }

  /** The bytes of `r` are those of `w` except lane `lane`, which holds the low byte of `v`. */
  predicate ByteReplaced(r: bv32, w: bv32, lane: bv32, v: bv32)
    requires lane < 4
  {
    && ByteOf(r, 0) == (if lane == 0 then ByteOf(v, 0) else ByteOf(w, 0))
    && ByteOf(r, 1) == (if lane == 1 then ByteOf(v, 0) else ByteOf(w, 1))
    && ByteOf(r, 2) == (if lane == 2 then ByteOf(v, 0) else ByteOf(w, 2))
    && ByteOf(r, 3) == (if lane == 3 then ByteOf(v, 0) else ByteOf(w, 3))
  }

  /** The bytes of `r` are those of `w` except halfword `half`, which holds the low halfword of `v`. */
  predicate HalfReplaced(r: bv32, w: bv32, half: bv32, v: bv32)
    requires half < 2
  {
    && ByteOf(r, 0) == (if half == 0 then ByteOf(v, 0) else ByteOf(w, 0))
    && ByteOf(r, 1) == (if half == 0 then ByteOf(v, 1) else ByteOf(w, 1))
    && ByteOf(r, 2) == (if half == 1 then ByteOf(v, 0) else ByteOf(w, 2))
    && ByteOf(r, 3) == (if half == 1 then ByteOf(v, 1) else ByteOf(w, 3))
  }

  /** A byte replacement, stated for every byte index. */
  lemma ByteReplacedAt(r: bv32, w: bv32, lane: bv32, v: bv32)
    requires lane < 4 && ByteReplaced(r, w, lane, v)
    ensures forall k: bv32 | k < 4 ::
      ByteOf(r, k) == if k == lane then ByteOf(v, 0) else ByteOf(w, k)
  {
    forall k: bv32 | k < 4
      ensures ByteOf(r, k) == if k == lane then ByteOf(v, 0) else ByteOf(w, k)
    {
      if k == 0 {} else if k == 1 {} else if k == 2 {} else {}
    }
  }

  /**
   * `sb`: `(w & ~(0xFF << offset)) | ((v & 0xFF) << offset)`, the word with
   * the low byte of `v` in lane `lane` and every other byte as in `w`.
   */
  function StoreByteLane(w: bv32, lane: bv32, v: bv32): (r: bv32)
    requires lane < 4
    ensures ByteReplaced(r, w, lane, v)
  {
    if lane == 0 then StoreByte0(w, v)
    else if lane == 1 then StoreByte1(w, v)
    else if lane == 2 then StoreByte2(w, v)
    else StoreByte3(w, v)
  }

  /**
   * `sh`: the word with the low halfword of `v` in the halfword selected by
   * `half` (bytes 2*half and 2*half+1) and the other two bytes as in `w`.
   */
  function StoreHalfLane(w: bv32, half: bv32, v: bv32): (r: bv32)
    requires half < 2
    ensures HalfReplaced(r, w, half, v)
  {
    if half == 0 then StoreHalf0(w, v) else StoreHalf1(w, v)
  }

  /** A byte stored into a lane is loaded back from it, zero- or sign-extended. */
  lemma LoadStoreByte(w: bv32, lane: bv32, v: bv32)
    requires lane < 4
    ensures LoadByteUnsigned(StoreByteLane(w, lane, v), lane) == v & 0xFF
    ensures LoadByteSigned(StoreByteLane(w, lane, v), lane) == SignExtend8(ByteOf(v, 0))
  {
    assert ByteOf(StoreByteLane(w, lane, v), lane) == ByteOf(v, 0);
  }

  /** A halfword stored into a half is loaded back from it, zero- or sign-extended; the other half is kept. */
  lemma LoadStoreHalf(w: bv32, half: bv32, v: bv32)
    requires half < 2
    ensures LoadHalfUnsigned(StoreHalfLane(w, half, v), half) == v & 0xFFFF
    ensures LoadHalfSigned(StoreHalfLane(w, half, v), half) == SignExtend16(HalfOf(v, 0))
    ensures HalfOf(StoreHalfLane(w, half, v), 1 - half) == HalfOf(w, 1 - half)
  {
    var r := StoreHalfLane(w, half, v);
    if half == 0 {
      assert ByteOf(r, 0) == ByteOf(v, 0) && ByteOf(r, 1) == ByteOf(v, 1);
      assert ByteOf(r, 2) == ByteOf(w, 2) && ByteOf(r, 3) == ByteOf(w, 3);
      HalvesFromBytes(r, v, w, 0);
    } else {
      assert ByteOf(r, 2) == ByteOf(v, 0) && ByteOf(r, 3) == ByteOf(v, 1);
      assert ByteOf(r, 0) == ByteOf(w, 0) && ByteOf(r, 1) == ByteOf(w, 1);
      HalvesFromBytes(r, v, w, 1);
    }
  }

  // Helpers: the lane arithmetic one lane at a time, with the engine's
  // `offset = 8 * lane` written out as a constant.

  lemma HalvesFromBytes(r: bv32, v: bv32, w: bv32, half: bv32)
    requires half < 2
    requires half == 0 ==> ByteOf(r, 0) == ByteOf(v, 0) && ByteOf(r, 1) == ByteOf(v, 1)
    requires half == 0 ==> ByteOf(r, 2) == ByteOf(w, 2) && ByteOf(r, 3) == ByteOf(w, 3)
    requires half == 1 ==> ByteOf(r, 2) == ByteOf(v, 0) && ByteOf(r, 3) == ByteOf(v, 1)
    requires half == 1 ==> ByteOf(r, 0) == ByteOf(w, 0) && ByteOf(r, 1) == ByteOf(w, 1)
    ensures HalfOf(r, half) == HalfOf(v, 0)
    ensures HalfOf(r, 1 - half) == HalfOf(w, 1 - half)
  {
    if half == 0 {} else {}
  }

  lemma SignedByteLane0(w: bv32)
    ensures ArithShiftRight((w & 0xFF) << 24, 24) == SignExtend8(ByteOf(w, 0))
  {
    if w & 0x80 == 0 {} else {}
  }

  lemma SignedByteLane1(w: bv32)
    ensures ArithShiftRight((w & 0xFF00) << 16, 24) == SignExtend8(ByteOf(w, 1))
  {
    if w & 0x8000 == 0 {} else {}
  }

  lemma SignedByteLane2(w: bv32)
    ensures ArithShiftRight((w & 0xFF_0000) << 8, 24) == SignExtend8(ByteOf(w, 2))
  {
    if w & 0x80_0000 == 0 {} else {}
  }

  lemma SignedByteLane3(w: bv32)
    ensures ArithShiftRight(w & 0xFF00_0000, 24) == SignExtend8(ByteOf(w, 3))
  {
    if w & 0x8000_0000 == 0 {} else {}
  }

  lemma SignedHalfLane0(w: bv32)
    ensures ArithShiftRight((w & 0xFFFF) << 16, 16) == SignExtend16(HalfOf(w, 0))
  {
    var h := HalfOf(w, 0);
    assert (w & 0xFFFF) << 16 == (h as bv32) << 16;
    SignedHalf(h);
  }

  lemma SignedHalf(h: bv16)
    ensures ArithShiftRight((h as bv32) << 16, 16) == SignExtend16(h)
  {
    if h < 0x8000 {} else {}
  }

  lemma SignedHalfLane1(w: bv32)
    ensures ArithShiftRight(w & 0xFFFF_0000, 16) == SignExtend16(HalfOf(w, 1))
  {
    if w < 0x8000_0000 {
      assert HalfOf(w, 1) < 0x8000;
    } else {
      assert HalfOf(w, 1) >= 0x8000;
    }
  }

  function StoreByte0(w: bv32, v: bv32): (r: bv32)
    ensures ByteReplaced(r, w, 0, v)
  {
    (w & !0xFF) | (v & 0xFF)
  }

  function StoreByte1(w: bv32, v: bv32): (r: bv32)
    ensures ByteReplaced(r, w, 1, v)
  {
    (w & !0xFF00) | ((v & 0xFF) << 8)
  }

  function StoreByte2(w: bv32, v: bv32): (r: bv32)
    ensures ByteReplaced(r, w, 2, v)
  {
    (w & !0xFF_0000) | ((v & 0xFF) << 16)
  }

  function StoreByte3(w: bv32, v: bv32): (r: bv32)
    ensures ByteReplaced(r, w, 3, v)
  {
    (w & !0xFF00_0000) | ((v & 0xFF) << 24)
  }

  function StoreHalf0(w: bv32, v: bv32): (r: bv32)
    ensures HalfReplaced(r, w, 0, v)
  {
    (w & !0xFFFF) | (v & 0xFFFF)
  }

  function StoreHalf1(w: bv32, v: bv32): (r: bv32)
    ensures HalfReplaced(r, w, 1, v)
  {
    (w & !0xFFFF_0000) | ((v & 0xFFFF) << 16)
  }
}
