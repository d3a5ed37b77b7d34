/**
 * The dvm machine: thirty-two 32-bit registers, a program counter and a paged
 * memory, with one method per RV32I base instruction the execution engine
 * implements. Each method updates the machine in place as the engine does,
 * and its contract states the new registers, pc and memory in terms of the
 * old ones through the functions of `Semantics`.
 *
 * Register numbers and immediates arrive decoded. Every instruction but a
 * jump or a taken branch advances pc by 4, wrapping modulo 2^32.
 */
module Engine {
  import opened Bits
  import opened Paging
  import opened Semantics

  class Machine {
    var registers: array<bv32>
    var pc: bv32
    var memory: Memory

    /** The register file holds thirty-two words and the memory is consistent. */
    ghost predicate Valid()
      reads this`registers, this`memory, memory, memory.pageTable.Values
    {
      registers.Length == 32 && memory.Valid()
    }

    /** A machine with every register zero, pc zero and no memory page allocated. */
    constructor()
      ensures Valid() && fresh(registers) && fresh(memory)
      ensures registers[..] == seq(32, _ => 0) && pc == 0 && memory.pages == map[]
    {
      registers := new bv32[32](_ => 0);
      pc := 0;
      memory := new Memory();
    }

    // -------------------------------------------------------------------
    // State access

    /** `readMemory`: the word holding `address`; its page is allocated if it was absent. */
    method ReadMemory(address: bv32) returns (w: bv32)
      requires Valid()
      modifies memory
      ensures Valid()
      ensures w == ReadWord(old(memory.pages), address)
      ensures memory.pages == Touch(old(memory.pages), address)
      ensures forall p | p in memory.pageTable.Values :: p in old(memory.pageTable.Values) || fresh(p)
    {
      w := memory.Read(address);
    }

    /** `writeMemory`: stores `value` in the word holding `address`. */
    method WriteMemory(address: bv32, value: bv32)
      requires Valid()
      modifies memory, memory.pageTable.Values
      ensures Valid()
      ensures memory.pages == WriteWord(old(memory.pages), address, value)
      ensures forall p | p in memory.pageTable.Values :: p in old(memory.pageTable.Values) || fresh(p)
    {
      memory.Write(address, value);
    }

    /** `readRegister`: x0 reads zero. */
    function ReadRegister(r: RegIndex): (v: bv32)
      requires registers.Length == 32
      reads this, registers
      ensures v == Reg(registers[..], r)
    {
      if r == 0 then 0 else registers[r]
    }

    /** `writeRegister`: a write to x0 is discarded. */
    method WriteRegister(r: RegIndex, v: bv32)
      requires Valid()
      modifies registers
      ensures Valid() && memory.pageTable == old(memory.pageTable) && memory.pages == old(memory.pages)
      ensures registers[..] == SetReg(old(registers[..]), r, v)
    {
      if r != 0 {
        registers[r] := v;
      }
    }

    /** `readPc`. */
    method ReadPc() returns (v: bv32)
      ensures v == pc
    {
      v := pc;
    }

    /** `writePc`. */
    method WritePc(v: bv32)
      modifies this`pc
      ensures pc == v
    {
      pc := v;
    }

    // -------------------------------------------------------------------
    // Register-register arithmetic: rd := rs1 op rs2, pc += 4, memory untouched

    method Add(rd: RegIndex, rs1: RegIndex, rs2: RegIndex)
      requires Valid()
      modifies this`pc, registers
      ensures Valid() && unchanged(memory) && pc == Plus(old(pc), 4)
      ensures registers[..] == SetReg(old(registers[..]), rd,
        Plus(Reg(old(registers[..]), rs1), Reg(old(registers[..]), rs2)))
    {
      var a := ReadRegister(rs1);
      var b := ReadRegister(rs2);
      WriteRegister(rd, Plus(a, b));
      pc := Plus(pc, 4);
    }

    method Sub(rd: RegIndex, rs1: RegIndex, rs2: RegIndex)
      requires Valid()
      modifies this`pc, registers
      ensures Valid() && unchanged(memory) && pc == Plus(old(pc), 4)
      ensures registers[..] == SetReg(old(registers[..]), rd,
        Minus(Reg(old(registers[..]), rs1), Reg(old(registers[..]), rs2)))
    {
      var a := ReadRegister(rs1);
      var b := ReadRegister(rs2);
      WriteRegister(rd, Minus(a, b));
      pc := Plus(pc, 4);
    }

    method Sll(rd: RegIndex, rs1: RegIndex, rs2: RegIndex)
      requires Valid()
      modifies this`pc, registers
      ensures Valid() && unchanged(memory) && pc == Plus(old(pc), 4)
      ensures registers[..] == SetReg(old(registers[..]), rd,
        ShiftLeft(Reg(old(registers[..]), rs1), Reg(old(registers[..]), rs2)))
    {
      var a := ReadRegister(rs1);
      var b := ReadRegister(rs2);
      WriteRegister(rd, ShiftLeft(a, b));
      pc := Plus(pc, 4);
    }

    method Slt(rd: RegIndex, rs1: RegIndex, rs2: RegIndex)
      requires Valid()
      modifies this`pc, registers
      ensures Valid() && unchanged(memory) && pc == Plus(old(pc), 4)
      ensures registers[..] == SetReg(old(registers[..]), rd,
        SetLessThan(Reg(old(registers[..]), rs1), Reg(old(registers[..]), rs2)))
    {
      var a := ReadRegister(rs1);
      var b := ReadRegister(rs2);
      WriteRegister(rd, SetLessThan(a, b));
      pc := Plus(pc, 4);
    }

    method Sltu(rd: RegIndex, rs1: RegIndex, rs2: RegIndex)
      requires Valid()
      modifies this`pc, registers
      ensures Valid() && unchanged(memory) && pc == Plus(old(pc), 4)
      ensures registers[..] == SetReg(old(registers[..]), rd,
        SetLessThanUnsigned(Reg(old(registers[..]), rs1), Reg(old(registers[..]), rs2)))
    {
      var a := ReadRegister(rs1);
      var b := ReadRegister(rs2);
      WriteRegister(rd, SetLessThanUnsigned(a, b));
      pc := Plus(pc, 4);
    }

    method Xor(rd: RegIndex, rs1: RegIndex, rs2: RegIndex)
      requires Valid()
      modifies this`pc, registers
      ensures Valid() && unchanged(memory) && pc == Plus(old(pc), 4)
      ensures registers[..] == SetReg(old(registers[..]), rd,
        Reg(old(registers[..]), rs1) ^ Reg(old(registers[..]), rs2))
    {
      var a := ReadRegister(rs1);
      var b := ReadRegister(rs2);
      WriteRegister(rd, a ^ b);
      pc := Plus(pc, 4);
    }

    method Srl(rd: RegIndex, rs1: RegIndex, rs2: RegIndex)
      requires Valid()
      modifies this`pc, registers
      ensures Valid() && unchanged(memory) && pc == Plus(old(pc), 4)
      ensures registers[..] == SetReg(old(registers[..]), rd,
        ShiftRightLogical(Reg(old(registers[..]), rs1), Reg(old(registers[..]), rs2)))
    {
      var a := ReadRegister(rs1);
      var b := ReadRegister(rs2);
      WriteRegister(rd, ShiftRightLogical(a, b));
      pc := Plus(pc, 4);
    }

    method Sra(rd: RegIndex, rs1: RegIndex, rs2: RegIndex)
      requires Valid()
      modifies this`pc, registers
      ensures Valid() && unchanged(memory) && pc == Plus(old(pc), 4)
      ensures registers[..] == SetReg(old(registers[..]), rd,
        ShiftRightArith(Reg(old(registers[..]), rs1), Reg(old(registers[..]), rs2)))
    {
      var a := ReadRegister(rs1);
      var b := ReadRegister(rs2);
      WriteRegister(rd, ShiftRightArith(a, b));
      pc := Plus(pc, 4);
    }

    method Or(rd: RegIndex, rs1: RegIndex, rs2: RegIndex)
      requires Valid()
      modifies this`pc, registers
      ensures Valid() && unchanged(memory) && pc == Plus(old(pc), 4)
      ensures registers[..] == SetReg(old(registers[..]), rd,
        Reg(old(registers[..]), rs1) | Reg(old(registers[..]), rs2))
    {
      var a := ReadRegister(rs1);
      var b := ReadRegister(rs2);
      WriteRegister(rd, a | b);
      pc := Plus(pc, 4);
    }

    method And(rd: RegIndex, rs1: RegIndex, rs2: RegIndex)
      requires Valid()
      modifies this`pc, registers
      ensures Valid() && unchanged(memory) && pc == Plus(old(pc), 4)
      ensures registers[..] == SetReg(old(registers[..]), rd,
        Reg(old(registers[..]), rs1) & Reg(old(registers[..]), rs2))
    {
      var a := ReadRegister(rs1);
      var b := ReadRegister(rs2);
      WriteRegister(rd, a & b);
      pc := Plus(pc, 4);
    }

    // -------------------------------------------------------------------
    // Register-immediate arithmetic: rd := rs1 op imm, pc += 4, memory untouched

    method Addi(rd: RegIndex, rs1: RegIndex, imm: bv32)
      requires Valid()
      modifies this`pc, registers
      ensures Valid() && unchanged(memory) && pc == Plus(old(pc), 4)
      ensures registers[..] == SetReg(old(registers[..]), rd, Plus(Reg(old(registers[..]), rs1), imm))
    {
      var a := ReadRegister(rs1);
      WriteRegister(rd, Plus(a, imm));
      pc := Plus(pc, 4);
    }

    method Slti(rd: RegIndex, rs1: RegIndex, imm: bv32)
      requires Valid()
      modifies this`pc, registers
      ensures Valid() && unchanged(memory) && pc == Plus(old(pc), 4)
      ensures registers[..] == SetReg(old(registers[..]), rd, SetLessThan(Reg(old(registers[..]), rs1), imm))
    {
      var a := ReadRegister(rs1);
      WriteRegister(rd, SetLessThan(a, imm));
      pc := Plus(pc, 4);
    }

    method Sltiu(rd: RegIndex, rs1: RegIndex, imm: bv32)
      requires Valid()
      modifies this`pc, registers
      ensures Valid() && unchanged(memory) && pc == Plus(old(pc), 4)
      ensures registers[..] == SetReg(old(registers[..]), rd, SetLessThanUnsigned(Reg(old(registers[..]), rs1), imm))
    {
      var a := ReadRegister(rs1);
      WriteRegister(rd, SetLessThanUnsigned(a, imm));
      pc := Plus(pc, 4);
    }

    method Xori(rd: RegIndex, rs1: RegIndex, imm: bv32)
      requires Valid()
      modifies this`pc, registers
      ensures Valid() && unchanged(memory) && pc == Plus(old(pc), 4)
      ensures registers[..] == SetReg(old(registers[..]), rd, Reg(old(registers[..]), rs1) ^ imm)
    {
      var a := ReadRegister(rs1);
      WriteRegister(rd, a ^ imm);
      pc := Plus(pc, 4);
    }

    method Ori(rd: RegIndex, rs1: RegIndex, imm: bv32)
      requires Valid()
      modifies this`pc, registers
      ensures Valid() && unchanged(memory) && pc == Plus(old(pc), 4)
      ensures registers[..] == SetReg(old(registers[..]), rd, Reg(old(registers[..]), rs1) | imm)
    {
      var a := ReadRegister(rs1);
      WriteRegister(rd, a | imm);
      pc := Plus(pc, 4);
    }

    method Andi(rd: RegIndex, rs1: RegIndex, imm: bv32)
      requires Valid()
      modifies this`pc, registers
      ensures Valid() && unchanged(memory) && pc == Plus(old(pc), 4)
      ensures registers[..] == SetReg(old(registers[..]), rd, Reg(old(registers[..]), rs1) & imm)
    {
      var a := ReadRegister(rs1);
      WriteRegister(rd, a & imm);
      pc := Plus(pc, 4);
    }

    method Slli(rd: RegIndex, rs1: RegIndex, imm: bv32)
      requires Valid()
      modifies this`pc, registers
      ensures Valid() && unchanged(memory) && pc == Plus(old(pc), 4)
      ensures registers[..] == SetReg(old(registers[..]), rd, ShiftLeft(Reg(old(registers[..]), rs1), imm))
    {
      var a := ReadRegister(rs1);
      WriteRegister(rd, ShiftLeft(a, imm));
      pc := Plus(pc, 4);
    }

    method Srli(rd: RegIndex, rs1: RegIndex, imm: bv32)
      requires Valid()
      modifies this`pc, registers
      ensures Valid() && unchanged(memory) && pc == Plus(old(pc), 4)
      ensures registers[..] == SetReg(old(registers[..]), rd, ShiftRightLogical(Reg(old(registers[..]), rs1), imm))
    {
      var a := ReadRegister(rs1);
      WriteRegister(rd, ShiftRightLogical(a, imm));
      pc := Plus(pc, 4);
    }

    method Srai(rd: RegIndex, rs1: RegIndex, imm: bv32)
      requires Valid()
      modifies this`pc, registers
      ensures Valid() && unchanged(memory) && pc == Plus(old(pc), 4)
      ensures registers[..] == SetReg(old(registers[..]), rd, ShiftRightArith(Reg(old(registers[..]), rs1), imm))
    {
      var a := ReadRegister(rs1);
      WriteRegister(rd, ShiftRightArith(a, imm));
      pc := Plus(pc, 4);
    }

    // -------------------------------------------------------------------
    // Upper immediates

    /** lui: rd := the U-type immediate. */
    method Lui(rd: RegIndex, imm: bv32)
      requires Valid()
      modifies this`pc, registers
      ensures Valid() && unchanged(memory) && pc == Plus(old(pc), 4)
      ensures registers[..] == SetReg(old(registers[..]), rd, imm)
    {
      WriteRegister(rd, imm);
      pc := Plus(pc, 4);
    }

    /** auipc: rd := pc + the U-type immediate, with the pc of this instruction. */
    method Auipc(rd: RegIndex, imm: bv32)
      requires Valid()
      modifies this`pc, registers
      ensures Valid() && unchanged(memory) && pc == Plus(old(pc), 4)
      ensures registers[..] == SetReg(old(registers[..]), rd, Plus(old(pc), imm))
    {
      WriteRegister(rd, Plus(pc, imm));
      pc := Plus(pc, 4);
    }

    // -------------------------------------------------------------------
    // Loads: rd := the value read at rs1 + imm, pc += 4; the page read is allocated

    method Lw(rd: RegIndex, rs1: RegIndex, imm: bv32)
      requires Valid()
      modifies this`pc, registers, memory
      ensures Valid() && pc == Plus(old(pc), 4)
      ensures var a := Plus(Reg(old(registers[..]), rs1), imm);
        && registers[..] == SetReg(old(registers[..]), rd, LoadedWord(old(memory.pages), a))
        && memory.pages == Touch(old(memory.pages), a)
      ensures forall p | p in memory.pageTable.Values :: p in old(memory.pageTable.Values) || fresh(p)
    {
      var base := ReadRegister(rs1);
      LoadWordAt(rd, Plus(base, imm));
      pc := Plus(pc, 4);
    }

    /** The lw memory access: rd := the word at `addr`. */
    method LoadWordAt(rd: RegIndex, addr: bv32)
      requires Valid()
      modifies registers, memory
      ensures Valid()
      ensures registers[..] == SetReg(old(registers[..]), rd, LoadedWord(old(memory.pages), addr))
      ensures memory.pages == Touch(old(memory.pages), addr)
      ensures forall p | p in memory.pageTable.Values :: p in old(memory.pageTable.Values) || fresh(p)
    {
      var word := ReadMemory(addr);
      WriteRegister(rd, word);
    }

    method Lh(rd: RegIndex, rs1: RegIndex, imm: bv32)
      requires Valid()
      modifies this`pc, registers, memory
      ensures Valid() && pc == Plus(old(pc), 4)
      ensures var a := Plus(Reg(old(registers[..]), rs1), imm);
        && registers[..] == SetReg(old(registers[..]), rd, LoadedHalf(old(memory.pages), a))
        && memory.pages == Touch(old(memory.pages), HalfAddress(a))
      ensures forall p | p in memory.pageTable.Values :: p in old(memory.pageTable.Values) || fresh(p)
    {
      var base := ReadRegister(rs1);
      LoadHalfAt(rd, Plus(base, imm));
      pc := Plus(pc, 4);
    }

    /** The lh memory access: the word at `addr & ~0x2` is read and the selected halfword extracted. */
    method LoadHalfAt(rd: RegIndex, addr: bv32)
      requires Valid()
      modifies registers, memory
      ensures Valid()
      ensures registers[..] == SetReg(old(registers[..]), rd, LoadedHalf(old(memory.pages), addr))
      ensures memory.pages == Touch(old(memory.pages), HalfAddress(addr))
      ensures forall p | p in memory.pageTable.Values :: p in old(memory.pageTable.Values) || fresh(p)
    {
      var word := ReadMemory(HalfAddress(addr));
      WriteRegister(rd, LoadHalfSigned(word, HalfSelect(addr)));
    }

    method Lb(rd: RegIndex, rs1: RegIndex, imm: bv32)
      requires Valid()
      modifies this`pc, registers, memory
      ensures Valid() && pc == Plus(old(pc), 4)
      ensures var a := Plus(Reg(old(registers[..]), rs1), imm);
        && registers[..] == SetReg(old(registers[..]), rd, LoadedByte(old(memory.pages), a))
        && memory.pages == Touch(old(memory.pages), ByteAddress(a))
      ensures forall p | p in memory.pageTable.Values :: p in old(memory.pageTable.Values) || fresh(p)
    {
      var base := ReadRegister(rs1);
      LoadByteAt(rd, Plus(base, imm));
      pc := Plus(pc, 4);
    }

    /** The lb memory access: the word at `addr & ~0x3` is read and the selected byte extracted. */
    method LoadByteAt(rd: RegIndex, addr: bv32)
      requires Valid()
      modifies registers, memory
      ensures Valid()
      ensures registers[..] == SetReg(old(registers[..]), rd, LoadedByte(old(memory.pages), addr))
      ensures memory.pages == Touch(old(memory.pages), ByteAddress(addr))
      ensures forall p | p in memory.pageTable.Values :: p in old(memory.pageTable.Values) || fresh(p)
    {
      var word := ReadMemory(ByteAddress(addr));
      WriteRegister(rd, LoadByteSigned(word, ByteLane(addr)));
    }

    method Lhu(rd: RegIndex, rs1: RegIndex, imm: bv32)
      requires Valid()
      modifies this`pc, registers, memory
      ensures Valid() && pc == Plus(old(pc), 4)
      ensures var a := Plus(Reg(old(registers[..]), rs1), imm);
        && registers[..] == SetReg(old(registers[..]), rd, LoadedHalfUnsigned(old(memory.pages), a))
        && memory.pages == Touch(old(memory.pages), HalfAddress(a))
      ensures forall p | p in memory.pageTable.Values :: p in old(memory.pageTable.Values) || fresh(p)
    {
      var base := ReadRegister(rs1);
      LoadHalfUnsignedAt(rd, Plus(base, imm));
      pc := Plus(pc, 4);
    }

    /** The lhu memory access: the word at `addr & ~0x2` is read and the selected halfword extracted. */
    method LoadHalfUnsignedAt(rd: RegIndex, addr: bv32)
      requires Valid()
      modifies registers, memory
      ensures Valid()
      ensures registers[..] == SetReg(old(registers[..]), rd, LoadedHalfUnsigned(old(memory.pages), addr))
      ensures memory.pages == Touch(old(memory.pages), HalfAddress(addr))
      ensures forall p | p in memory.pageTable.Values :: p in old(memory.pageTable.Values) || fresh(p)
    {
      var word := ReadMemory(HalfAddress(addr));
      WriteRegister(rd, LoadHalfUnsigned(word, HalfSelect(addr)));
    }

    method Lbu(rd: RegIndex, rs1: RegIndex, imm: bv32)
      requires Valid()
      modifies this`pc, registers, memory
      ensures Valid() && pc == Plus(old(pc), 4)
      ensures var a := Plus(Reg(old(registers[..]), rs1), imm);
        && registers[..] == SetReg(old(registers[..]), rd, LoadedByteUnsigned(old(memory.pages), a))
        && memory.pages == Touch(old(memory.pages), ByteAddress(a))
      ensures forall p | p in memory.pageTable.Values :: p in old(memory.pageTable.Values) || fresh(p)
    {
      var base := ReadRegister(rs1);
      LoadByteUnsignedAt(rd, Plus(base, imm));
      pc := Plus(pc, 4);
    }

    /** The lbu memory access: the word at `addr & ~0x3` is read and the selected byte extracted. */
    method LoadByteUnsignedAt(rd: RegIndex, addr: bv32)
      requires Valid()
      modifies registers, memory
      ensures Valid()
      ensures registers[..] == SetReg(old(registers[..]), rd, LoadedByteUnsigned(old(memory.pages), addr))
      ensures memory.pages == Touch(old(memory.pages), ByteAddress(addr))
      ensures forall p | p in memory.pageTable.Values :: p in old(memory.pageTable.Values) || fresh(p)
    {
      var word := ReadMemory(ByteAddress(addr));
      WriteRegister(rd, LoadByteUnsigned(word, ByteLane(addr)));
    }

    // -------------------------------------------------------------------
    // Stores: memory at rs1 + imm takes rs2, pc += 4, registers untouched

    method Sw(rs1: RegIndex, rs2: RegIndex, imm: bv32)
      requires Valid()
      modifies this`pc, memory, memory.pageTable.Values
      ensures Valid() && unchanged(registers) && pc == Plus(old(pc), 4)
      ensures memory.pages ==
        StoredWord(old(memory.pages), Plus(Reg(registers[..], rs1), imm), Reg(registers[..], rs2))
      ensures forall p | p in memory.pageTable.Values :: p in old(memory.pageTable.Values) || fresh(p)
    {
      var base := ReadRegister(rs1);
      var word := ReadRegister(rs2);
      WriteMemory(Plus(base, imm), word);
      pc := Plus(pc, 4);
    }

    method Sh(rs1: RegIndex, rs2: RegIndex, imm: bv32)
      requires Valid()
      modifies this`pc, memory, memory.pageTable.Values
      ensures Valid() && unchanged(registers) && pc == Plus(old(pc), 4)
      ensures memory.pages ==
        StoredHalf(old(memory.pages), Plus(Reg(registers[..], rs1), imm), Reg(registers[..], rs2))
      ensures forall p | p in memory.pageTable.Values :: p in old(memory.pageTable.Values) || fresh(p)
    {
      var base := ReadRegister(rs1);
      var toWrite := ReadRegister(rs2);
      StoreHalfAt(Plus(base, imm), toWrite);
      pc := Plus(pc, 4);
    }

    /** The sh read-modify-write: the word at `addr & ~0x2` is read, its selected halfword replaced, and written back. */
    method StoreHalfAt(addr: bv32, toWrite: bv32)
      requires Valid()
      modifies memory, memory.pageTable.Values
      ensures Valid()
      ensures memory.pages == StoredHalf(old(memory.pages), addr, toWrite)
      ensures forall p | p in memory.pageTable.Values :: p in old(memory.pageTable.Values) || fresh(p)
    {
      var aligned := HalfAddress(addr);
      var word := ReadMemory(aligned);
      WriteMemory(aligned, StoreHalfLane(word, HalfSelect(addr), toWrite));
    }

    method Sb(rs1: RegIndex, rs2: RegIndex, imm: bv32)
      requires Valid()
      modifies this`pc, memory, memory.pageTable.Values
      ensures Valid() && unchanged(registers) && pc == Plus(old(pc), 4)
      ensures memory.pages ==
        StoredByte(old(memory.pages), Plus(Reg(registers[..], rs1), imm), Reg(registers[..], rs2))
      ensures forall p | p in memory.pageTable.Values :: p in old(memory.pageTable.Values) || fresh(p)
    {
      var base := ReadRegister(rs1);
      var toWrite := ReadRegister(rs2);
      StoreByteAt(Plus(base, imm), toWrite);
      pc := Plus(pc, 4);
    }

    /** The sb read-modify-write: the word at `addr & ~0x3` is read, its selected byte replaced, and written back. */
    method StoreByteAt(addr: bv32, toWrite: bv32)
      requires Valid()
      modifies memory, memory.pageTable.Values
      ensures Valid()
      ensures memory.pages == StoredByte(old(memory.pages), addr, toWrite)
      ensures forall p | p in memory.pageTable.Values :: p in old(memory.pageTable.Values) || fresh(p)
    {
      var aligned := ByteAddress(addr);
      var word := ReadMemory(aligned);
      WriteMemory(aligned, StoreByteLane(word, ByteLane(addr), toWrite));
    }

    // -------------------------------------------------------------------
    // Jumps

    /** jal: rd := pc + 4, then pc := pc + offset. */
    method Jal(rd: RegIndex, offset: bv32)
      requires Valid()
      modifies this`pc, registers
      ensures Valid() && unchanged(memory) && pc == Plus(old(pc), offset)
      ensures registers[..] == SetReg(old(registers[..]), rd, Plus(old(pc), 4))
    {
      if rd != 0 {
        WriteRegister(rd, Plus(pc, 4));
      }
      pc := Plus(pc, offset);
    }

    /** jalr: the target is computed from rs1 before rd := pc + 4 is written, so rd may be rs1. */
    method Jalr(rd: RegIndex, rs1: RegIndex, imm: bv32)
      requires Valid()
      modifies this`pc, registers
      ensures Valid() && unchanged(memory)
      ensures pc == JalrTarget(Reg(old(registers[..]), rs1), imm)
      ensures registers[..] == SetReg(old(registers[..]), rd, Plus(old(pc), 4))
    {
      var base := ReadRegister(rs1);
      var addr := JalrTarget(base, imm);
      if rd != 0 {
        WriteRegister(rd, Plus(pc, 4));
      }
      pc := addr;
    }

    // -------------------------------------------------------------------
    // Branches: pc := pc + offset when taken, pc + 4 otherwise; nothing else changes

    method Beq(rs1: RegIndex, rs2: RegIndex, offset: bv32)
      requires Valid()
      modifies this`pc
      ensures pc == if Reg(registers[..], rs1) == Reg(registers[..], rs2) then Plus(old(pc), offset) else Plus(old(pc), 4)
    {
      var a := ReadRegister(rs1);
      var b := ReadRegister(rs2);
      if a == b {
        pc := Plus(pc, offset);
      } else {
        pc := Plus(pc, 4);
      }
    }

    method Bne(rs1: RegIndex, rs2: RegIndex, offset: bv32)
      requires Valid()
      modifies this`pc
      ensures pc == if Reg(registers[..], rs1) != Reg(registers[..], rs2) then Plus(old(pc), offset) else Plus(old(pc), 4)
    {
      var a := ReadRegister(rs1);
      var b := ReadRegister(rs2);
      if a != b {
        pc := Plus(pc, offset);
      } else {
        pc := Plus(pc, 4);
      }
    }

    method Blt(rs1: RegIndex, rs2: RegIndex, offset: bv32)
      requires Valid()
      modifies this`pc
      ensures pc == if SignedLess(Reg(registers[..], rs1), Reg(registers[..], rs2)) then Plus(old(pc), offset) else Plus(old(pc), 4)
    {
      var a := ReadRegister(rs1);
      var b := ReadRegister(rs2);
      if SignedLess(a, b) {
        pc := Plus(pc, offset);
      } else {
        pc := Plus(pc, 4);
      }
    }

    method Bge(rs1: RegIndex, rs2: RegIndex, offset: bv32)
      requires Valid()
      modifies this`pc
      ensures pc == if !SignedLess(Reg(registers[..], rs1), Reg(registers[..], rs2)) then Plus(old(pc), offset) else Plus(old(pc), 4)
    {
      var a := ReadRegister(rs1);
      var b := ReadRegister(rs2);
      if !SignedLess(a, b) {
        pc := Plus(pc, offset);
      } else {
        pc := Plus(pc, 4);
      }
    }

    method Bltu(rs1: RegIndex, rs2: RegIndex, offset: bv32)
      requires Valid()
      modifies this`pc
      ensures pc == if UnsignedLess(Reg(registers[..], rs1), Reg(registers[..], rs2)) then Plus(old(pc), offset) else Plus(old(pc), 4)
    {
      var a := ReadRegister(rs1);
      var b := ReadRegister(rs2);
      if UnsignedLess(a, b) {
        pc := Plus(pc, offset);
      } else {
        pc := Plus(pc, 4);
      }
    }

    method Bgeu(rs1: RegIndex, rs2: RegIndex, offset: bv32)
      requires Valid()
      modifies this`pc
      ensures pc == if !UnsignedLess(Reg(registers[..], rs1), Reg(registers[..], rs2)) then Plus(old(pc), offset) else Plus(old(pc), 4)
    {
      var a := ReadRegister(rs1);
      var b := ReadRegister(rs2);
      if !UnsignedLess(a, b) {
        pc := Plus(pc, offset);
      } else {
        pc := Plus(pc, 4);
      }
    }
  }
}
