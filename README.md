# dvm execution engine, modelled in Dafny

dvm is a small RISC-V (RV32I) virtual machine written in C++. This project models
its execution engine, the two structures of `program.h`:

- `Memory`: the guest memory, a sparse `std::map` from page base address to a
  4096-byte page, read and written one little-endian 32-bit word at a time
  (`get4Bytes`, `set4Bytes`, `read`, `write`). The model gives the memory the
  behaviour its design intends: a page is allocated, zero-filled, the first time an
  address in it is touched, and reused afterwards. The engine as written does not do
  this (see Findings).
- `Machine`: thirty-two 32-bit registers (x0 reads zero, writes to it are
  discarded), a program counter and a `Memory`. There is one method per RV32I base
  instruction the engine implements: register-register and immediate arithmetic,
  `lui`/`auipc`, the five loads, the three stores, `jal`/`jalr` and the six
  conditional branches.

The model has four modules:

- `Bits` (`bits.dfy`) holds the 32-bit word arithmetic: the two's-complement order,
  the arithmetic right shift, the little-endian bytes of a word, sign extension, and
  the byte- and halfword-lane masks of the sub-word loads and stores.
- `Paging` (`paging.dfy`) holds what the memory contains, as a value (`PageTable`:
  page base to 4096 bytes), with the word read and write defined on it. Its class
  `Memory` is the engine's object: a map from page base to a byte `array` that
  `Get4Bytes`/`Set4Bytes` (loops over the four bytes), `Read` and `Write` update in
  place. Each method is proved against the value-level definitions through the
  ghost field `pages`.
- `Semantics` (`semantics.dfy`) gives, as functions, what each instruction
  computes: the register read and write, the shift and compare results, the `jalr`
  target, the value a load yields and the memory a store leaves. It also holds the
  lemmas relating these: load after store, the store's effect on the other words,
  and so on.
- `Engine` (`machine.dfy`) holds the class `Machine`, with a `registers` array, a
  `pc` field and a `Memory`. Each instruction is a method that updates the machine
  in place, as the engine does. Its contract states the new registers, pc and memory
  in terms of the old ones, through the `Semantics` functions.

Register numbers and immediates arrive already decoded. An I-, S-, B- or J-type
immediate is the sign-extended 32-bit pattern of the engine's `int32_t`. A U-type
immediate has its upper twenty bits already in place. All address and pc arithmetic
wraps modulo 2^32, as the engine's `uint32_t` arithmetic does (`Bits.Plus`,
`Bits.Minus`).

## Model

| member | source | states |
|---|---|---|
| Semantics.RegAfterSetReg | program.h:149-162 | x0 always reads 0. After a write to rd, register rd (if not x0) reads the value written, and every other register reads what it held before. |
| Engine.Machine.ReadRegister | program.h:149-156 | The register read is the register file seen through `Reg`: 0 for x0, else the stored word. |
| Engine.Machine.WriteRegister | program.h:158-162 | The new register file is `SetReg` of the old one: a write to x0 is discarded, and only register rd changes. |
| Engine.Machine.ReadPc | program.h:164-166 | Returns the pc. |
| Engine.Machine.WritePc | program.h:168-170 | The pc becomes the value given. |
| Paging.Memory.constructor | program.h:81-81 | A new memory has no page. |
| Engine.Machine.constructor | program.h:135-139 | A new machine has 32 zero registers, pc 0 and no page allocated. |
| Paging.Memory.Get4Bytes | program.h:83-92 | The loop gathers the four bytes at the offset, least significant first, into the word `WordAt` of the page. |
| Paging.Memory.Set4Bytes | program.h:94-102 | The loop leaves the page as `PutWord`: the word's four little-endian bytes are at the offset, and every other byte is unchanged. |
| Paging.WordAtPutWord | program.h:83-102 | Round trip: the word `set4Bytes` puts at an offset is the word `get4Bytes` reads back from it. |
| Paging.WordAtPutOther | program.h:94-102 | Putting a word leaves every other aligned word of the page as it was. |
| Bits.Le32OfBytes | program.h:76-79 | The word built from the four little-endian bytes of `v` is `v`: the `UInt32ToUInt8` union is a bijection. |
| Bits.BytesDetermineWord | program.h:76-79 | Two words with the same four bytes are equal. |
| Paging.TableAddressSame | program.h:105-106 | Two addresses have the same table key exactly when they have the same page base `address & ~0xfff`. |
| Paging.SameWordAligned | program.h:105-106 | Two addresses reach the same word (same page base and same `address & 0xffc`) exactly when they agree with their two low bits cleared. |
| Paging.Touch | program.h:104-132 | Allocating the page of `a` adds that one key, keeps every page already present, and keeps the table well formed. |
| Paging.WriteWord | program.h:119-132 | A write leaves a well-formed table whose keys are the old ones plus the written page. |
| Paging.Memory.PageFor | program.h:107-116 | The page holding the address: the existing array if the page is present, else a fresh zero-filled one. The table gains only that key and keeps every other array. |
| Paging.Memory.Read | program.h:104-117 | Returns `ReadWord` of the memory before the call (zeros for an absent page). Afterwards the memory is the old one with the page allocated. |
| Paging.Memory.Write | program.h:119-132 | The memory becomes `WriteWord` of the old one: the word holding the address is `value`, and its page is allocated if absent. Every page array it adds is freshly allocated, so a caller can chain memory operations. |
| Paging.Memory.StoreInPage | program.h:125-130 | With the page already allocated, `set4Bytes` into it leaves the memory as the old one with that page's word replaced by `PutWord`. |
| Paging.ReadEmpty | program.h:104-117 | A memory with no pages reads zero at every address. |
| Paging.ReadAfterWrite | program.h:104-132 | Read after write: the word written at an address is read back at that address. |
| Paging.ReadOtherWord | program.h:104-132 | A write leaves every word whose 4-aligned address differs as it was, in the same page and in every other page. |
| Paging.ReadSameWord | program.h:105-106 | Two addresses that agree with their two low bits cleared read the same word. |
| Paging.ReadTouch | program.h:104-117 | Allocating a page changes no word that can be read: a read's allocation is invisible. |
| Paging.TouchIdempotent | program.h:104-117 | Allocating an already allocated page changes nothing. |
| Paging.WriteAfterTouch | program.h:119-132 | Allocating the page before writing to it makes no difference to the write. |
| Paging.WriteTwice | program.h:119-132 | Of two writes to the same word, the second wins. |
| Paging.ReadAsWritten | program.h:104-117 | As written, `read` succeeds exactly when the page is present, and then it replaces the page. |
| Paging.WriteAsWritten | program.h:119-132 | As written, `write` succeeds exactly when the page is present, and then it writes into a fresh page that replaces the old one. |
| Paging.AsWrittenLosesWrite | program.h:104-132 | As written, the first write to an empty memory dereferences a null page. With page 0 present, a word stored at address 0 reads back as the contents of a fresh page, not the word stored (0 in the model, whose fresh pages are zero-filled). |
| Engine.Machine.ReadMemory | program.h:141-143 | Returns the word holding the address in the memory before the call; the only change is that its page is allocated. |
| Engine.Machine.WriteMemory | program.h:145-147 | The memory becomes `WriteWord` of the old one. Every page array it adds is freshly allocated, so a caller can chain memory operations. |
| Engine.Machine.Add | program.h:172-176 | rd := rs1 + rs2 modulo 2^32, and pc += 4. No other register changes and memory is untouched. |
| Engine.Machine.Sub | program.h:178-182 | rd := rs1 - rs2 modulo 2^32, and pc += 4. No other register changes and memory is untouched. |
| Engine.Machine.Sll | program.h:184-188 | rd := rs1 shifted left by the low five bits of rs2, and pc += 4. No other state changes. |
| Engine.Machine.Slt | program.h:190-194 | rd := 1 if rs1 < rs2 as signed words, else 0, and pc += 4. No other state changes. |
| Engine.Machine.Sltu | program.h:196-200 | rd := 1 if rs1 < rs2 as unsigned words, else 0, and pc += 4. No other state changes. |
| Engine.Machine.Xor | program.h:202-206 | rd := rs1 ^ rs2, and pc += 4. No other state changes. |
| Engine.Machine.Srl | program.h:208-212 | rd := rs1 shifted right logically by the low five bits of rs2, and pc += 4. No other state changes. |
| Engine.Machine.Sra | program.h:214-221 | rd := rs1 shifted right arithmetically by the low five bits of rs2, and pc += 4. No other state changes. |
| Engine.Machine.Or | program.h:223-227 | rd := rs1 \| rs2, and pc += 4. No other state changes. |
| Engine.Machine.And | program.h:229-233 | rd := rs1 & rs2, and pc += 4. No other state changes. |
| Engine.Machine.Addi | program.h:238-242 | rd := rs1 + imm modulo 2^32, and pc += 4. No other state changes. |
| Engine.Machine.Slti | program.h:244-248 | rd := 1 if rs1 < imm as signed words, else 0, and pc += 4. No other state changes. |
| Engine.Machine.Sltiu | program.h:250-255 | rd := 1 if rs1 < imm as unsigned words (imm sign-extended first), else 0, and pc += 4. No other state changes. |
| Engine.Machine.Xori | program.h:257-261 | rd := rs1 ^ imm, and pc += 4. No other state changes. |
| Engine.Machine.Ori | program.h:263-267 | rd := rs1 \| imm, and pc += 4. No other state changes. |
| Engine.Machine.Andi | program.h:269-273 | rd := rs1 & imm, and pc += 4. No other state changes. |
| Engine.Machine.Slli | program.h:275-279 | rd := rs1 shifted left by the low five bits of imm, and pc += 4. No other state changes. |
| Engine.Machine.Srli | program.h:281-286 | rd := rs1 shifted right logically by the low five bits of imm, and pc += 4. No other state changes. |
| Engine.Machine.Srai | program.h:288-293 | rd := rs1 shifted right arithmetically by the low five bits of imm, and pc += 4. No other state changes. |
| Engine.Machine.Lui | program.h:298-301 | rd := the U-type immediate, and pc += 4. No other state changes. |
| Engine.Machine.Auipc | program.h:303-306 | rd := pc + the U-type immediate, using the pc of the auipc itself, and pc += 4. No other state changes. |
| Engine.Machine.Lw | program.h:311-315 | rd := the word at rs1 + imm, and pc += 4. Memory changes only by allocating the page read. Every page array it adds is freshly allocated, so a caller can chain memory operations. |
| Engine.Machine.LoadWordAt | program.h:312-313 | The memory access and register write of lw: rd := the word at `addr` in the memory before the call; memory changes only by allocating the page read, and every added page array is fresh. |
| Engine.Machine.Lh | program.h:317-336 | rd := `LoadedHalf` at rs1 + imm, and pc += 4. Memory changes only by allocating the page read. Every page array it adds is freshly allocated, so a caller can chain memory operations. |
| Engine.Machine.LoadHalfAt | program.h:318-334 | The memory access and register write of lh: rd := `LoadedHalf` at `addr` in the memory before the call; memory changes only by allocating the page read, and every added page array is fresh. |
| Engine.Machine.Lb | program.h:338-351 | rd := `LoadedByte` at rs1 + imm, and pc += 4. Memory changes only by allocating the page read. Every page array it adds is freshly allocated, so a caller can chain memory operations. |
| Engine.Machine.LoadByteAt | program.h:339-349 | The memory access and register write of lb: rd := `LoadedByte` at `addr` in the memory before the call; memory changes only by allocating the page read, and every added page array is fresh. |
| Engine.Machine.Lhu | program.h:353-372 | rd := `LoadedHalfUnsigned` at rs1 + imm, and pc += 4. Memory changes only by allocating the page read. Every page array it adds is freshly allocated, so a caller can chain memory operations. |
| Engine.Machine.LoadHalfUnsignedAt | program.h:354-370 | The memory access and register write of lhu: rd := `LoadedHalfUnsigned` at `addr` in the memory before the call; memory changes only by allocating the page read, and every added page array is fresh. |
| Engine.Machine.Lbu | program.h:374-387 | rd := `LoadedByteUnsigned` at rs1 + imm, and pc += 4. Memory changes only by allocating the page read. Every page array it adds is freshly allocated, so a caller can chain memory operations. |
| Engine.Machine.LoadByteUnsignedAt | program.h:375-385 | The memory access and register write of lbu: rd := `LoadedByteUnsigned` at `addr` in the memory before the call; memory changes only by allocating the page read, and every added page array is fresh. |
| Semantics.LoadedHalfValue | program.h:317-336 | lh yields the halfword that address bit 1 selects in the word holding the address, sign-extended. |
| Semantics.LoadedHalfUnsignedValue | program.h:353-372 | lhu yields the halfword that address bit 1 selects in the word holding the address, zero-extended. |
| Semantics.LoadedByteValue | program.h:338-351 | lb yields the byte that address bits 0-1 select in the word holding the address, sign-extended. |
| Semantics.LoadedByteUnsignedValue | program.h:374-387 | lbu yields the byte that address bits 0-1 select in the word holding the address, zero-extended. |
| Semantics.HalfAddressSameWord | program.h:319-321 | The address lh/lhu/sh pass to memory, `addr & ~0x2`, reads the same word as `addr`. |
| Semantics.ByteAddressSameWord | program.h:340-342 | The address lb/lbu/sb pass to memory, `addr & ~0x3`, reads the same word as `addr`. |
| Bits.LoadByteUnsigned | program.h:374-387 | The lbu lane mask-and-shift yields byte `lane` of the word (little-endian), zero-extended. |
| Bits.LoadByteSigned | program.h:338-351 | The lb shift-up then arithmetic-shift-down yields byte `lane` of the word, sign-extended. |
| Bits.LoadHalfUnsigned | program.h:353-372 | The lhu mask-and-shift yields halfword `half` of the word, zero-extended. |
| Bits.LoadHalfSigned | program.h:317-336 | The lh shift yields halfword `half` of the word, sign-extended. |
| Bits.SignExtend8Bits | program.h:338-351 | A sign-extended byte keeps the byte as its low byte and copies bit 7 into the 24 bits above. |
| Bits.SignExtend16Bits | program.h:317-336 | A sign-extended halfword keeps the halfword as its low half and copies bit 15 into the high half. |
| Engine.Machine.Sw | program.h:392-397 | The memory becomes `StoredWord` at rs1 + imm with rs2, and pc += 4. Registers are unchanged. Every page array it adds is freshly allocated, so a caller can chain memory operations. |
| Engine.Machine.Sh | program.h:399-416 | The memory becomes `StoredHalf` at rs1 + imm with rs2, and pc += 4. Registers are unchanged. Every page array it adds is freshly allocated, so a caller can chain memory operations. |
| Engine.Machine.StoreHalfAt | program.h:401-415 | The read-modify-write of sh leaves the memory as `StoredHalf`. Every page array it adds is freshly allocated, so a caller can chain memory operations. |
| Engine.Machine.Sb | program.h:418-432 | The memory becomes `StoredByte` at rs1 + imm with rs2, and pc += 4. Registers are unchanged. Every page array it adds is freshly allocated, so a caller can chain memory operations. |
| Engine.Machine.StoreByteAt | program.h:420-431 | The read-modify-write of sb leaves the memory as `StoredByte`. Every page array it adds is freshly allocated, so a caller can chain memory operations. |
| Bits.StoreByteLane | program.h:418-432 | The sb mask-and-or puts the low byte of `v` in lane `lane` and keeps the other three bytes of the word. |
| Bits.StoreHalfLane | program.h:399-416 | The sh mask-and-or puts the low halfword of `v` in half `half` and keeps the other two bytes of the word. |
| Bits.LoadStoreByte | program.h:418-432 | A byte stored into a lane loads back from that lane as `v & 0xFF` (lbu) or as the byte sign-extended (lb). |
| Bits.LoadStoreHalf | program.h:399-416 | A halfword stored into a half loads back as `v & 0xFFFF` (lhu) or sign-extended (lh), and the other half is kept. |
| Semantics.StoredWord | program.h:392-397 | A word store leaves a well-formed memory. |
| Semantics.StoreWordWritten | program.h:392-397 | After sw the word holding the address is `v`. |
| Semantics.StoreHalfWritten | program.h:399-416 | sh replaces only the halfword the address selects, with the low halfword of `v`. The word's other two bytes are kept. |
| Semantics.StoreByteWritten | program.h:418-432 | sb replaces only the byte lane the address selects, with the low byte of `v`. The word's other three bytes are kept. |
| Semantics.StoreWordOthers | program.h:392-397 | sw leaves every other word of memory as it was. |
| Semantics.StoreHalfOthers | program.h:399-416 | sh leaves every other word of memory as it was. |
| Semantics.StoreByteOthers | program.h:418-432 | sb leaves every other word of memory as it was. |
| Semantics.LoadWordAfterStoreWord | program.h:392-397 | lw after sw to the same address yields the stored word. |
| Semantics.LoadByteAfterStoreByte | program.h:418-432 | lbu after sb to the same address yields `rs2 & 0xFF`; lb yields that byte sign-extended. |
| Semantics.LoadHalfAfterStoreHalf | program.h:399-416 | lhu after sh to the same address yields `rs2 & 0xFFFF`; lh yields that halfword sign-extended. |
| Engine.Machine.Jal | program.h:437-442 | rd := the old pc + 4 (unless rd is x0), and pc := pc + offset. Memory is untouched. |
| Engine.Machine.Jalr | program.h:448-456 | pc := (old rs1 + imm) with bit 0 cleared, and rd := the old pc + 4. The target is computed before rd is written, so rd may equal rs1. |
| Semantics.JalrTarget | program.h:448-450 | The jalr target is even and differs from rs1 + imm only in bit 0. |
| Engine.Machine.Beq | program.h:462-472 | pc := pc + offset if rs1 == rs2, else pc + 4. Nothing else changes. |
| Engine.Machine.Bne | program.h:474-484 | pc := pc + offset if rs1 != rs2, else pc + 4. Nothing else changes. |
| Engine.Machine.Blt | program.h:486-496 | pc := pc + offset if rs1 < rs2 as signed words, else pc + 4. Nothing else changes. |
| Engine.Machine.Bge | program.h:498-508 | pc := pc + offset if rs1 >= rs2 as signed words, else pc + 4. Nothing else changes. |
| Engine.Machine.Bltu | program.h:510-520 | pc := pc + offset if rs1 < rs2 as unsigned words, else pc + 4. Nothing else changes. |
| Engine.Machine.Bgeu | program.h:522-532 | pc := pc + offset if rs1 >= rs2 as unsigned words, else pc + 4. Nothing else changes. |
| Bits.SignedLessFlipped | program.h:486-508 | The `int32_t` order of blt/bge/slt is the unsigned order after flipping bit 31 of both operands. |
| Bits.SignedLessUnsigned | program.h:486-520 | The signed (blt) and unsigned (bltu) comparisons agree exactly when the operands have the same sign. |
| Bits.SignedLessIrreflexive | program.h:486-496 | No value is signed-less than itself: blt of a register with itself never branches. |
| Bits.SignedLessTransitive | program.h:486-496 | The signed order is transitive. |
| Bits.SignedLessBounds | program.h:486-496 | 0x80000000 is the least and 0x7FFFFFFF the greatest `int32_t`. |
| Semantics.SetLessThanSigned | program.h:190-200 | slt/slti yield 1 exactly when signed-less and 0 otherwise; sltu/sltiu yield 1 exactly when unsigned-less and 0 otherwise. The two agree exactly on operands of the same sign. |
| Bits.ShiftAmount | program.h:184-221 | The shift amount is below 32 and is the operand modulo 32. |
| Bits.ArithShiftRight | program.h:214-221 | The arithmetic right shift keeps the sign bit. |
| Bits.ArithShiftRightClosedForm | program.h:214-221 | The value of `int32_t >> s`: the logical shift `x >> s` for a non-negative `x`, and for a negative one the same with the `s` vacated high bits set. |
| Bits.ArithShiftRightFill | program.h:214-221 | The vacated high bits of an arithmetic right shift are copies of the sign bit. |
| Bits.ArithShiftRightComplement | program.h:214-221 | The arithmetic right shift commutes with bitwise complement. |
| Bits.ArithShiftRightBounds | program.h:214-221 | The shift moves a value toward 0 if non-negative and toward -1 if negative. A shift by 0 is the identity; a shift by 31 leaves 0 or -1. |
| Semantics.ShiftRightArithSign | program.h:214-221 | sra leaves a negative operand negative and a non-negative one non-negative. |

## Left out

- The instruction decoder and driver in `program.cpp` are not part of this model.
  Instructions enter as method calls with decoded register numbers and immediates.
  The `System` opcode is not modelled, since the engine has no method for it.
- `operator<<` (the register dump to an output stream) is I/O and is not modelled.
- The `#pragma unroll` hints do not change behaviour. The loops in
  `Get4Bytes`/`Set4Bytes` are kept as loops.
- The `Page*` heap pointers are modelled as `array<bv8>` objects held in a map.
  `Memory.Valid` requires distinct keys to hold distinct arrays. The engine never
  frees a page, and the model has no deallocation either.
- Paging.Memory.PageFor: the engine's `new Page` leaves the bytes uninitialised.
  The model zero-fills a new page, which is what a first read of an untouched
  address is evidently meant to see.
- Paging.ReadAsWritten, Paging.WriteAsWritten, Paging.AsWrittenLosesWrite: the
  fresh page that the engine's `new Page` installs has uninitialised bytes. These
  members model it as zero-filled, so the lost write shows up as 0, where the
  engine would read indeterminate bytes.
- Bits.LoadByteSigned, Bits.LoadHalfSigned: lb and lh move the byte or halfword to the
  top with a left shift of an `int32_t` (`<< (24 - offset)`, `<< 16`). This
  overflows when the lane's top bit is set: undefined in C++11, and
  implementation-defined in C++14 and C++17 (the conversion back to `int32_t`). The
  model computes the two's-complement result that C++20 defines.
- Engine.Machine.constructor: the engine's `Machine` has no constructor, so its
  registers and pc start indeterminate. The model starts them at zero.
- The union `UInt32ToUInt8` is modelled as a little-endian host, which is what
  RISC-V memory order requires.
- Engine.Machine.Slt: the engine's `slt` refers to `rs1_val` and `rs2_val`, which it
  never declares, so it does not compile. It is modelled as the signed comparison
  that `slti` and RV32I define.
- Engine.Machine.Sll, Engine.Machine.Srl, Engine.Machine.Sra, Engine.Machine.Slli,
  Engine.Machine.Srli, Engine.Machine.Srai: the engine shifts by the whole
  register or immediate. In C++ a shift by 32 or more, or by a negative amount,
  is undefined, and srai's immediate still holds the 0x400 funct7 bit. The model
  shifts by the low five bits, as RV32I defines.
- The signed order is stated on bit patterns (`Bits.SignedLess`), not by converting
  to integers. Totality of the signed order is not stated as a lemma.
- Engine.Machine.Sh, Engine.Machine.Sb: the model reads rs2 before the memory
  read, while the engine reads it after. The memory read changes no register, so
  the result is the same.
- Loads allocate the page they read from (as the engine's `read` does once its
  presence test is corrected). `Paging.ReadTouch` proves this changes no readable
  word.
- The page presence test in `read` and `write` is modelled as intended (see
  Findings). The behaviour as written is modelled only as values, by
  `Paging.ReadAsWritten` and `Paging.WriteAsWritten`.
- Page keys are natural numbers (the page base's value), not 32-bit patterns.
  The two are in one-to-one correspondence (`Paging.TableAddressSame`).

## Findings

| source | as written | input that shows it | evidently intended | confidence | as-written member | corrected member |
|---|---|---|---|---|---|---|
| program.h:104-132 | `read` (line 108) and `write` (line 123) test `find(...) == end()` the wrong way round. A present page is replaced by a fresh `new Page`, losing its contents. An absent page is reached through the null pointer that `operator[]` inserts. | `write(0, 1)` on an empty memory dereferences null. With page 0 present, `write(0, 1)` then `read(0)` returns the contents of a fresh, uninitialised page instead of the 1 written (0 in the model). | Allocate a zero page the first time a page is touched, and reuse it afterwards, so that a word written is read back. | not executed | Paging.AsWrittenLosesWrite | Paging.ReadAfterWrite |
