/**
 * What the RV32I base instructions compute, as the dvm machine executes them:
 * the register file's reading and writing, the shift and compare operations,
 * the jalr target, the word a sub-word access goes to, and the value a load
 * reads and the memory a store leaves behind. The class `Machine` states each
 * instruction's effect on its registers, pc and memory in terms of these
 * functions.
 *
 * Immediates arrive already decoded: an I-, S-, B- or J-type immediate is the
 * sign-extended 32-bit pattern of the engine's `int32_t`, a U-type immediate
 * is the upper twenty bits already in place. Addresses and sums wrap modulo
 * 2^32 as the engine's `uint32_t` arithmetic does.
 */
module Semantics {
  import opened Bits
  import opened Paging

  /** A register number, as the decoder extracts it from a 5-bit field. */
  type RegIndex = r: nat | r < 32

  /** `readRegister`: x0 reads zero whatever the register file holds. */
  function Reg(regs: seq<bv32>, r: RegIndex): bv32
    requires |regs| == 32
  {
    if r == 0 then 0 else regs[r]
  }

  /** `writeRegister`: a write to x0 is discarded. */
  function SetReg(regs: seq<bv32>, r: RegIndex, v: bv32): (result: seq<bv32>)
    requires |regs| == 32
    ensures |result| == 32
  {
    if r == 0 then regs else regs[r := v]
  }

  /** x0 reads zero; any other register reads back what was last written to it, and the rest are unchanged. */
  lemma RegAfterSetReg(regs: seq<bv32>, rd: RegIndex, v: bv32, r: RegIndex)
    requires |regs| == 32
    ensures Reg(SetReg(regs, rd, v), r) == if r == 0 then 0 else if r == rd then v else Reg(regs, r)
  {
  }

  // ---------------------------------------------------------------------
  // Shifts and compares

  /** 1 when the condition holds, else 0, as C++ converts a comparison to `uint32_t`. */
  function Flag(b: bool): bv32
  {
    if b then 1 else 0
  }

  /** slt and slti: the signed comparison of the operands as a flag. */
  function SetLessThan(a: bv32, b: bv32): bv32
  {
    Flag(SignedLess(a, b))
  }

  /** sltu and sltiu: the unsigned comparison of the operands as a flag. */
  function SetLessThanUnsigned(a: bv32, b: bv32): bv32
  {
    Flag(UnsignedLess(a, b))
  }

  /** sll and slli. */
  function ShiftLeft(a: bv32, b: bv32): bv32
  {
    a << ShiftAmount(b)
  }

  /** srl and srli. */
  function ShiftRightLogical(a: bv32, b: bv32): bv32
  {
    a >> ShiftAmount(b)
  }

  /** sra and srai. */
  function ShiftRightArith(a: bv32, b: bv32): bv32
  {
    ArithShiftRight(a, ShiftAmount(b))
  }

  /** slt compares signed and sltu unsigned: each yields 1 or 0, and they agree exactly when the operands have the same sign. */
  lemma SetLessThanSigned(a: bv32, b: bv32)
    ensures SetLessThan(a, b) == 1 <==> SignedLess(a, b)
    ensures SetLessThan(a, b) == 0 <==> !SignedLess(a, b)
    ensures SetLessThanUnsigned(a, b) == 1 <==> a < b
    ensures SetLessThanUnsigned(a, b) == 0 <==> a >= b
    ensures SetLessThan(a, b) == SetLessThanUnsigned(a, b) <==> Negative(a) == Negative(b)
  {
    SignedLessUnsigned(a, b);
  }

  /** sra keeps the sign: a negative operand stays negative, a non-negative one stays non-negative. */
  lemma ShiftRightArithSign(a: bv32, b: bv32)
    ensures Negative(ShiftRightArith(a, b)) == Negative(a)
  {
    NegativeBit(a);
    NegativeBit(ShiftRightArith(a, b));
  }

  // ---------------------------------------------------------------------
  // Jumps

  /** The jalr target: rs1 + imm with bit 0 cleared, which is even and differs from the sum only in bit 0. */
  function JalrTarget(base: bv32, imm: bv32): (r: bv32)
    ensures r & 1 == 0
    ensures r | (Plus(base, imm) & 1) == Plus(base, imm)
  {
    Plus(base, imm) & !1
  }

  // ---------------------------------------------------------------------
  // Sub-word addressing

  /** The address lh, lhu and sh pass to memory: `addr & ~0x2`. */
  function HalfAddress(a: bv32): bv32
  {
    a & !2
  }

  /** The halfword an address selects: `(addr & 2) >> 1`. */
  function HalfSelect(a: bv32): (h: bv32)
    ensures h < 2
  {
    (a & 2) >> 1
  }

  /** The address lb, lbu and sb pass to memory: `addr & ~0x3`. */
  function ByteAddress(a: bv32): bv32
  {
    a & !3
  }

  /** The byte lane an address selects: `addr & 3`. */
  function ByteLane(a: bv32): (lane: bv32)
    ensures lane < 4
  {
    a & 3
  }

  /** Clearing bit 1 of an address stays in the same word. */
  lemma HalfAddressSameWord(t: PageTable, a: bv32)
    requires WellFormed(t)
    ensures ReadWord(t, HalfAddress(a)) == ReadWord(t, a)
  {
    HalfAddressAligned(a);
    ReadSameWord(t, HalfAddress(a), a);
  }

  /** Clearing bits 0 and 1 of an address stays in the same word. */
  lemma ByteAddressSameWord(t: PageTable, a: bv32)
    requires WellFormed(t)
    ensures ReadWord(t, ByteAddress(a)) == ReadWord(t, a)
  {
    ByteAddressAligned(a);
    ReadSameWord(t, ByteAddress(a), a);
  }

  lemma HalfAddressAligned(a: bv32)
    ensures HalfAddress(a) & !3 == a & !3
  {
  }

  lemma ByteAddressAligned(a: bv32)
    ensures ByteAddress(a) & !3 == a & !3
  {
  }

  // ---------------------------------------------------------------------
  // Loads

  /** lw: the word at the address. */
  function LoadedWord(mem: PageTable, a: bv32): bv32
    requires WellFormed(mem)
  {
    ReadWord(mem, a)
  }

  /** lh: the selected halfword of the word at `addr & ~0x2`, sign-extended. */
  function LoadedHalf(mem: PageTable, a: bv32): bv32
    requires WellFormed(mem)
  {
    LoadHalfSigned(ReadWord(mem, HalfAddress(a)), HalfSelect(a))
  }

  /** lhu: the selected halfword, zero-extended. */
  function LoadedHalfUnsigned(mem: PageTable, a: bv32): bv32
    requires WellFormed(mem)
  {
    LoadHalfUnsigned(ReadWord(mem, HalfAddress(a)), HalfSelect(a))
  }

  /** lb: the selected byte of the word at `addr & ~0x3`, sign-extended. */
  function LoadedByte(mem: PageTable, a: bv32): bv32
    requires WellFormed(mem)
  {
    LoadByteSigned(ReadWord(mem, ByteAddress(a)), ByteLane(a))
  }

  /** lbu: the selected byte, zero-extended. */
  function LoadedByteUnsigned(mem: PageTable, a: bv32): bv32
    requires WellFormed(mem)
  {
    LoadByteUnsigned(ReadWord(mem, ByteAddress(a)), ByteLane(a))
  }

  /** lh yields the halfword its address selects in the word holding the address, sign-extended. */
  lemma LoadedHalfValue(mem: PageTable, a: bv32)
    requires WellFormed(mem)
    ensures LoadedHalf(mem, a) == SignExtend16(HalfOf(ReadWord(mem, a), HalfSelect(a)))
  {
    HalfAddressSameWord(mem, a);
  }

  /** lhu yields the halfword its address selects in the word holding the address, zero-extended. */
  lemma LoadedHalfUnsignedValue(mem: PageTable, a: bv32)
    requires WellFormed(mem)
    ensures LoadedHalfUnsigned(mem, a) == HalfOf(ReadWord(mem, a), HalfSelect(a)) as bv32
  {
    HalfAddressSameWord(mem, a);
  }

  /** lb yields the byte its address selects in the word holding the address, sign-extended. */
  lemma LoadedByteValue(mem: PageTable, a: bv32)
    requires WellFormed(mem)
    ensures LoadedByte(mem, a) == SignExtend8(ByteOf(ReadWord(mem, a), ByteLane(a)))
  {
    ByteAddressSameWord(mem, a);
  }

  /** lbu yields the byte its address selects in the word holding the address, zero-extended. */
  lemma LoadedByteUnsignedValue(mem: PageTable, a: bv32)
    requires WellFormed(mem)
    ensures LoadedByteUnsigned(mem, a) == ByteOf(ReadWord(mem, a), ByteLane(a)) as bv32
  {
    ByteAddressSameWord(mem, a);
  }

  // ---------------------------------------------------------------------
  // Stores

  /** sw: the memory with the word at the address replaced. */
  function StoredWord(mem: PageTable, a: bv32, v: bv32): (r: PageTable)
    requires WellFormed(mem)
    ensures WellFormed(r)
  {
    WriteWord(mem, a, v)
  }

  /** sh: the word at `addr & ~0x2` is read (allocating its page) and written back with the low halfword of `v` in the selected half. */
  function StoredHalf(mem: PageTable, a: bv32, v: bv32): (r: PageTable)
    requires WellFormed(mem)
    ensures WellFormed(r)
  {
    var aligned := HalfAddress(a);
    WriteWord(Touch(mem, aligned), aligned, StoreHalfLane(ReadWord(mem, aligned), HalfSelect(a), v))
  }

  /** sb: the word at `addr & ~0x3` is read (allocating its page) and written back with the low byte of `v` in the selected lane. */
  function StoredByte(mem: PageTable, a: bv32, v: bv32): (r: PageTable)
    requires WellFormed(mem)
    ensures WellFormed(r)
  {
    var aligned := ByteAddress(a);
    WriteWord(Touch(mem, aligned), aligned, StoreByteLane(ReadWord(mem, aligned), ByteLane(a), v))
  }

  /** sw leaves `v` in the word holding its address. */
  lemma StoreWordWritten(mem: PageTable, a: bv32, v: bv32)
    requires WellFormed(mem)
    ensures ReadWord(StoredWord(mem, a, v), a) == v
  {
    ReadAfterWrite(mem, a, v);
  }

  /** sh replaces only the halfword its address selects, with the low halfword of `v`. */
  lemma StoreHalfWritten(mem: PageTable, a: bv32, v: bv32)
    requires WellFormed(mem)
    ensures HalfReplaced(ReadWord(StoredHalf(mem, a, v), a), ReadWord(mem, a), HalfSelect(a), v)
  {
    var aligned := HalfAddress(a);
    var t := Touch(mem, aligned);
    var merged := StoreHalfLane(ReadWord(mem, aligned), HalfSelect(a), v);
    HalfAddressSameWord(mem, a);
    ReadAfterWrite(t, aligned, merged);
    HalfAddressSameWord(WriteWord(t, aligned, merged), a);
  }

  /** sb replaces only the byte lane its address selects, with the low byte of `v`. */
  lemma StoreByteWritten(mem: PageTable, a: bv32, v: bv32)
    requires WellFormed(mem)
    ensures ByteReplaced(ReadWord(StoredByte(mem, a, v), a), ReadWord(mem, a), ByteLane(a), v)
  {
    var aligned := ByteAddress(a);
    var t := Touch(mem, aligned);
    var merged := StoreByteLane(ReadWord(mem, aligned), ByteLane(a), v);
    ByteAddressSameWord(mem, a);
    ReadAfterWrite(t, aligned, merged);
    ByteAddressSameWord(WriteWord(t, aligned, merged), a);
  }

  /** sw leaves every word but the one holding its address as it was. */
  lemma StoreWordOthers(mem: PageTable, a: bv32, v: bv32, b: bv32)
    requires WellFormed(mem)
    requires b & !3 != a & !3
    ensures ReadWord(StoredWord(mem, a, v), b) == ReadWord(mem, b)
  {
    ReadOtherWord(mem, a, b, v);
  }

  /** sh leaves every word but the one holding its address as it was. */
  lemma StoreHalfOthers(mem: PageTable, a: bv32, v: bv32, b: bv32)
    requires WellFormed(mem)
    requires b & !3 != a & !3
    ensures ReadWord(StoredHalf(mem, a, v), b) == ReadWord(mem, b)
  {
    var aligned := HalfAddress(a);
    HalfAddressAligned(a);
    ReadOtherWord(Touch(mem, aligned), aligned, b, StoreHalfLane(ReadWord(mem, aligned), HalfSelect(a), v));
    ReadTouch(mem, aligned, b);
  }

  /** sb leaves every word but the one holding its address as it was. */
  lemma StoreByteOthers(mem: PageTable, a: bv32, v: bv32, b: bv32)
    requires WellFormed(mem)
    requires b & !3 != a & !3
    ensures ReadWord(StoredByte(mem, a, v), b) == ReadWord(mem, b)
  {
    var aligned := ByteAddress(a);
    ByteAddressAligned(a);
    ReadOtherWord(Touch(mem, aligned), aligned, b, StoreByteLane(ReadWord(mem, aligned), ByteLane(a), v));
    ReadTouch(mem, aligned, b);
  }

  /** lw after sw to the same address yields the stored word. */
  lemma LoadWordAfterStoreWord(mem: PageTable, a: bv32, v: bv32)
    requires WellFormed(mem)
    ensures LoadedWord(StoredWord(mem, a, v), a) == v
  {
    StoreWordWritten(mem, a, v);
  }

  /** lbu after sb to the same address yields `v & 0xFF`; lb yields the stored byte sign-extended. */
  lemma LoadByteAfterStoreByte(mem: PageTable, a: bv32, v: bv32)
    requires WellFormed(mem)
    ensures LoadedByteUnsigned(StoredByte(mem, a, v), a) == v & 0xFF
    ensures LoadedByte(StoredByte(mem, a, v), a) == SignExtend8(ByteOf(v, 0))
  {
    var after := StoredByte(mem, a, v);
    StoreByteWritten(mem, a, v);
    LoadedByteUnsignedValue(after, a);
    LoadedByteValue(after, a);
    ReplacedByte(ReadWord(after, a), ReadWord(mem, a), ByteLane(a), v);
  }

  /** lhu after sh to the same address yields `v & 0xFFFF`; lh yields the stored halfword sign-extended. */
  lemma LoadHalfAfterStoreHalf(mem: PageTable, a: bv32, v: bv32)
    requires WellFormed(mem)
    ensures LoadedHalfUnsigned(StoredHalf(mem, a, v), a) == v & 0xFFFF
    ensures LoadedHalf(StoredHalf(mem, a, v), a) == SignExtend16(HalfOf(v, 0))
  {
    var after := StoredHalf(mem, a, v);
    StoreHalfWritten(mem, a, v);
    LoadedHalfUnsignedValue(after, a);
    LoadedHalfValue(after, a);
    ReplacedHalf(ReadWord(after, a), ReadWord(mem, a), HalfSelect(a), v);
  }

  lemma ReplacedByte(r: bv32, w: bv32, lane: bv32, v: bv32)
    requires lane < 4 && ByteReplaced(r, w, lane, v)
    ensures ByteOf(r, lane) as bv32 == v & 0xFF
    ensures ByteOf(r, lane) == ByteOf(v, 0)
  {
    ByteReplacedAt(r, w, lane, v);
    LowByte(v);
  }

  lemma LowByte(v: bv32)
    ensures ByteOf(v, 0) as bv32 == v & 0xFF
  {
  }

  lemma ReplacedHalf(r: bv32, w: bv32, half: bv32, v: bv32)
    requires half < 2 && HalfReplaced(r, w, half, v)
    ensures HalfOf(r, half) as bv32 == v & 0xFFFF
    ensures HalfOf(r, half) == HalfOf(v, 0)
  {
    HalvesFromBytes(r, v, w, half);
  }
}
