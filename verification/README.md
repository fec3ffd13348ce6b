# MicroBlaze trace interpreter: a Dafny model of the execution engine

The interpreter reads an execution trace of a MicroBlaze soft processor, one
instruction per line (`0x000001A4  addik r1, r0, -5`), and re-executes it on
a software model of the processor's state: 32 general registers, the special
registers PC, MSR and ESR, the lock register that `imm` uses to widen the
next immediate to 32 bits, a lazily allocated data memory of 4 KiB segments
behind a one-entry segment cache, and a cycle counter.

This project models that engine as pure functions over an immutable machine
state and proves properties of it:

- `wrappers.dfy`, `java_int.dfy`: `Option`/`Result`, and Java `int` semantics (signed view, truncating division, arithmetic shift).
- `bit_operations.dfy`: carries, unsigned division and comparison, single-bit and bit-field writes, string padding.
- `register_file.dfy`, `special_registers.dfy`, `msr_tools.dfy`, `lock_register.dfy`, `machine.dfy`: the processor state.
- `memory_segment.dfy`, `cached_segments.dfy`, `data_memory_plus.dfy`: word, halfword and byte memory.
- `trace_data.dfy`, `instruction_parser.dfy`: the parsed form of a trace line, its serialisation, and the line decoder.
- `instruction_builder.dfy`: the 65-name opcode table, building instructions from parsed data, and dispatch.
- `alu_instructions.dfy`, `branch_instructions.dfy`, `memory_instructions.dfy`: per-instruction semantics, each returning the new state and a latency.
- `cycle_clock.dfy`, `processor.dfy`: the clock step after each instruction and the loop over trace lines.

Words are `bv32`. Java's wrap-around arithmetic is therefore exact, and the
signed view is taken explicitly where the code compares or divides. Every
place where the Java code throws becomes a `Failure` value that ends the run:
a register index outside the file, a line too short to cut, an immediate that
is not a `short`, or an address `Integer.valueOf` rejects.

The execution path follows the code as written, including its quirks:
- the branch classes read link and absolute from the letter 'd';
- `br` puts the register number into the PC;
- `sext16` only copies its operand;
- a memory segment uses a quarter of its words;
- an instruction address from 0x80000000 up ends the run.

Where such a quirk is evidently unintended, the intended definition is
written beside it and its property is proved (see "## Findings").

Paths in the tables below are relative to the root of the interpreter's source tree.

## Model

| member | source | states |
|---|---|---|
| BitOperations.CarryOutAdd | src/org/ancora/MicroblazeInterpreter/Commons/BitOperations.java:40-67 | the carry-out of rA + rB + carry is 0 or 1 |
| BitOperations.CarryOutAddSum | src/org/ancora/MicroblazeInterpreter/Commons/BitOperations.java:40-67 | with a carry-in of 0 or 1, the carry-out and the 32-bit sum together are the exact 33-bit sum of the operands: sum + 2^32·carryOut = rA + rB + carry |
| BitOperations.CarryOutRsubAsWritten | src/org/ancora/MicroblazeInterpreter/Commons/BitOperations.java:78-105 | the value computed with the complement on 64 bits is still 0 or 1; it is the as-written half of a finding |
| BitOperations.CarryOutRsubSpec | src/org/ancora/MicroblazeInterpreter/Commons/BitOperations.java:69-105 | the corrected carry of the reverse subtraction makes rB + ~rA + carry exact over 33 bits, as the method's documentation promises |
| BitOperations.CarryOutRsubCounterexample | src/org/ancora/MicroblazeInterpreter/Commons/BitOperations.java:78-105 | for 0 − 0 with carry 1 the exact sum carries out, the corrected carry is 1 and the code as written returns 0 |
| BitOperations.UnsignedDiv | src/org/ancora/MicroblazeInterpreter/Commons/BitOperations.java:114-119 | the quotient q of the operands read as unsigned numbers satisfies b·q ≤ a < b·q + b and q ≤ a |
| BitOperations.UnsignedComp | src/org/ancora/MicroblazeInterpreter/Commons/BitOperations.java:128-133 | true exactly when a > b with both operands read as unsigned 32-bit numbers |
| BitOperations.SetBit | src/org/ancora/MicroblazeInterpreter/Commons/BitOperations.java:141-146 | the chosen bit is 1 afterwards and every other bit is unchanged |
| BitOperations.ClearBit | src/org/ancora/MicroblazeInterpreter/Commons/BitOperations.java:155-160 | the chosen bit is 0 afterwards and every other bit is unchanged |
| BitOperations.WriteBit | src/org/ancora/MicroblazeInterpreter/Commons/BitOperations.java:170-181 | a value of 0 or 1 lands in the chosen bit; any other value leaves the word unchanged; other bits never change |
| BitOperations.GetBit | src/org/ancora/MicroblazeInterpreter/Commons/BitOperations.java:190-192 | the result is 0 or 1, and 1 exactly when the bit at that position is set |
| BitOperations.GetBitAfterWrite | src/org/ancora/MicroblazeInterpreter/Commons/BitOperations.java:141-192 | reading a bit back after setBit, clearBit or writeBit gives 1, 0 or the written value |
| BitOperations.WriteBitsBit | src/org/ancora/MicroblazeInterpreter/Commons/BitOperations.java:205-243 | bit i of writeBits(position, size, value, target) is bit i − position of value when position ≤ i < position + size, and bit i of target otherwise |
| BitOperations.WriteUpperHalf | src/org/ancora/MicroblazeInterpreter/Commons/BitOperations.java:205-243 | writing the 16-bit field at position 16 puts the low half of value on top of the low half of target |
| BitOperations.JoinHalvesIsFieldWrite | src/org/ancora/MicroblazeInterpreter/Commons/BitOperations.java:205-243 | the field write at 16/16 is the concatenation of the two halves |
| BitOperations.PadBinaryString | src/org/ancora/MicroblazeInterpreter/Commons/BitOperations.java:252-265 | a shorter string is padded on the left with '0' to exactly the requested size and ends with the original; a long enough string is returned unchanged |
| BitOperations.PadHexString | src/org/ancora/MicroblazeInterpreter/Commons/BitOperations.java:275-290 | a shorter hex string becomes "0x", then '0' padding, then the original, with exactly size digits; a long enough string is returned unchanged |
| LockRegister.Init | trunk/src/org/ancora/MicroblazeInterpreter/HardwareBlocks/Registers/LockRegister.java:37-39 | a new lock register is unlocked |
| LockRegister.SetImmediate | trunk/src/org/ancora/MicroblazeInterpreter/HardwareBlocks/Registers/LockRegister.java:48-51 | storing an immediate arms the register with that value |
| LockRegister.Step | trunk/src/org/ancora/MicroblazeInterpreter/HardwareBlocks/Registers/LockRegister.java:102-113 | one instruction later an armed register is locked, a locked one unlocks, an unlocked one stays as it is; the stored immediate is kept |
| LockRegister.ProcessImmediate | trunk/src/org/ancora/MicroblazeInterpreter/HardwareBlocks/Registers/LockRegister.java:56-80 | while locked, the stored upper half is joined above the low 16 bits of the immediate; otherwise the immediate passes through |
| LockRegister.TwoStepsUnlock | trunk/src/org/ancora/MicroblazeInterpreter/HardwareBlocks/Registers/LockRegister.java:102-113 | after any two steps the register is unlocked |
| LockRegister.ImmediateLifetime | trunk/src/org/ancora/MicroblazeInterpreter/HardwareBlocks/Registers/LockRegister.java:48-113 | the stored immediate widens exactly the instruction after imm: not imm itself, and not the one after that |
| RegisterFile.NumRegisters | src/org/ancora/MicroblazeInterpreter/HardwareBlocks/Registers/RegisterFileArray.java:45-47 | the file has 32 registers |
| RegisterFile.Init | src/org/ancora/MicroblazeInterpreter/HardwareBlocks/Registers/RegisterFileArray.java:27-29 | every register starts at 0 |
| RegisterFile.Read | src/org/ancora/MicroblazeInterpreter/HardwareBlocks/Registers/RegisterFileArray.java:32-34 | an index 0..31 reads that register; any other index is an error, as the array access throws |
| RegisterFile.Write | src/org/ancora/MicroblazeInterpreter/HardwareBlocks/Registers/RegisterFileArray.java:36-43 | a write succeeds exactly for 0..31, and a write to r0 is discarded |
| RegisterFile.ReadAfterWrite | src/org/ancora/MicroblazeInterpreter/HardwareBlocks/Registers/RegisterFileArray.java:32-43 | after writing v to register d, d reads v unless d is r0; every other register reads as before |
| RegisterFile.WritePreservesZeroRegister | src/org/ancora/MicroblazeInterpreter/HardwareBlocks/Registers/RegisterFileArray.java:36-43 | r0 stays 0 through every write |
| SpecialRegisters.Init | trunk/src/org/ancora/MicroblazeInterpreter/HardwareBlocks/Registers/SprMap.java:34-46 | every known special register starts at 0 |
| SpecialRegisters.Read | trunk/src/org/ancora/MicroblazeInterpreter/HardwareBlocks/Registers/SprMap.java:54-56 | reading a known address yields its contents; an unknown address is an error, as unboxing the missing entry throws |
| SpecialRegisters.Write | trunk/src/org/ancora/MicroblazeInterpreter/HardwareBlocks/Registers/SprMap.java:89-99 | writing a known address sets it and leaves the others; an unknown address is ignored |
| SpecialRegisters.GetCarryBit | trunk/src/org/ancora/MicroblazeInterpreter/HardwareBlocks/Registers/SprMap.java:102-105 | the carry is 0 or 1 and is the MSR's C bit |
| SpecialRegisters.WriteCarryMsr | trunk/src/org/ancora/MicroblazeInterpreter/HardwareBlocks/Registers/SprMap.java:107-112 | a carry of 0 or 1 lands in both C and CC of the MSR; every other MSR bit is kept |
| SpecialRegisters.WriteCarryBit | trunk/src/org/ancora/MicroblazeInterpreter/HardwareBlocks/Registers/SprMap.java:107-112 | C and CC take the carry; PC, ESR and every other MSR bit are kept |
| SpecialRegisters.WriteDzoBit | trunk/src/org/ancora/MicroblazeInterpreter/HardwareBlocks/Registers/SprMap.java:114-118 | the DZO bit takes the value; PC, ESR and every other MSR bit are kept |
| SpecialRegisters.WriteDecBit | trunk/src/org/ancora/MicroblazeInterpreter/HardwareBlocks/Registers/SprMap.java:121-125 | the DEC bit of ESR takes the value; PC, MSR and every other ESR bit are kept |
| SpecialRegisters.WriteEcBits | trunk/src/org/ancora/MicroblazeInterpreter/HardwareBlocks/Registers/SprMap.java:127-132 | the low five ESR bits take the exception cause; the rest of ESR, PC and MSR are kept |
| SpecialRegisters.WritePc | trunk/src/org/ancora/MicroblazeInterpreter/HardwareBlocks/Registers/SprMap.java:138-140 | the PC reads back the written value; MSR and ESR are kept |
| SpecialRegisters.IncrementPc | trunk/src/org/ancora/MicroblazeInterpreter/HardwareBlocks/Registers/SprMap.java:142-145 | the PC moves on by 4 (modulo 2^32); MSR and ESR are kept |
| SpecialRegisters.CarryRoundTrip | trunk/src/org/ancora/MicroblazeInterpreter/HardwareBlocks/Registers/SprMap.java:102-112 | a carry of 0 or 1 written to the MSR reads back unchanged |
| SpecialRegisters.WritePcTwice | trunk/src/org/ancora/MicroblazeInterpreter/HardwareBlocks/Registers/SprMap.java:138-140 | the second PC write wins |
| MsrTools.Offset | projects/MbTraceInterpreter/trunk/src/org/ancora/MicroblazeInterpreter/Commons/MsrTools.java:38-48 | an MSR bit numbered MSB-0 as n sits at word bit 31 − n |
| MsrTools.OffsetInjective | projects/MbTraceInterpreter/trunk/src/org/ancora/MicroblazeInterpreter/Commons/MsrTools.java:38-48 | distinct named MSR bits sit at distinct word bits |
| MsrTools.ReadBit | projects/MbTraceInterpreter/trunk/src/org/ancora/MicroblazeInterpreter/Commons/MsrTools.java:38-48 | the result is 0 or 1, and 1 exactly when the named bit is set |
| MsrTools.SetBit | projects/MbTraceInterpreter/trunk/src/org/ancora/MicroblazeInterpreter/Commons/MsrTools.java:78-85 | the named bit reads 1 afterwards; every other bit is kept |
| MsrTools.ClearBit | projects/MbTraceInterpreter/trunk/src/org/ancora/MicroblazeInterpreter/Commons/MsrTools.java:94-101 | the named bit reads 0 afterwards; every other bit is kept |
| MsrTools.WriteBit | projects/MbTraceInterpreter/trunk/src/org/ancora/MicroblazeInterpreter/Commons/MsrTools.java:58-69 | a value of 0 or 1 lands in the named bit; any other value leaves the MSR unchanged; every other bit is kept |
| MsrTools.ReadOtherBit | projects/MbTraceInterpreter/trunk/src/org/ancora/MicroblazeInterpreter/Commons/MsrTools.java:38-69 | writing one named bit does not change how another named bit reads |
| MsrTools.WriteReadBack | projects/MbTraceInterpreter/trunk/src/org/ancora/MicroblazeInterpreter/Commons/MsrTools.java:38-69 | writing back the value just read leaves that bit as it was |
| CycleClock.Init | src/org/ancora/MicroblazeInterpreter/HardwareBlocks/Processor/CycleClock.java:35-39 | a new clock has counted no cycles |
| CycleClock.Step | src/org/ancora/MicroblazeInterpreter/HardwareBlocks/Processor/CycleClock.java:50-63 | the lock register steps, the PC moves on by 4 unless the instruction is a branch, the latency is added to the count, and nothing else changes |
| CycleClock.CountIsTotal | src/org/ancora/MicroblazeInterpreter/HardwareBlocks/Processor/CycleClock.java:50-67 | the count after a run of instructions is the sum of their latencies, and it never decreases |
| CycleClock.StepCounts | src/org/ancora/MicroblazeInterpreter/HardwareBlocks/Processor/CycleClock.java:50-63 | one step adds exactly the instruction's latency to the count |
| CycleClock.Wrap | src/org/ancora/MicroblazeInterpreter/HardwareBlocks/Processor/CycleClock.java:62 | the wrapped count differs from the exact one by a multiple of 2^32 and equals it inside the int range |
| CycleClock.AddLatencyAsWritten | src/org/ancora/MicroblazeInterpreter/HardwareBlocks/Processor/CycleClock.java:62 | the count as the int field holds it stays congruent to the exact sum modulo 2^32 |
| CycleClock.CountAsWrittenIsWrapped | src/org/ancora/MicroblazeInterpreter/HardwareBlocks/Processor/CycleClock.java:50-67 | the int counter equals the exact count wrapped into the int range, and equals the count itself while the total stays below 2^31 |
| CycleClock.CountAsWrittenDecreases | src/org/ancora/MicroblazeInterpreter/HardwareBlocks/Processor/CycleClock.java:62 | one more cycle after 2^31 − 1 makes the int counter negative |
| MemorySegment.Empty | trunk/projects/MbTraceInterpreter/trunk/src/org/ancora/MicroblazeInterpreter/HardwareBlocks/DataMemory/MemorySegment.java:32-38 | a new segment has no written word |
| MemorySegment.Index | trunk/projects/MbTraceInterpreter/trunk/src/org/ancora/MicroblazeInterpreter/HardwareBlocks/DataMemory/MemorySegment.java:50-57 | the array index computed from a byte address lies below 256, a quarter of the segment |
| MemorySegment.IntendedIndex | trunk/projects/MbTraceInterpreter/trunk/src/org/ancora/MicroblazeInterpreter/HardwareBlocks/DataMemory/MemorySegment.java:50-57 | the index intended for the 1024-word segment lies below 1024 |
| MemorySegment.IntendedIndexDistinct | trunk/projects/MbTraceInterpreter/trunk/src/org/ancora/MicroblazeInterpreter/HardwareBlocks/DataMemory/MemorySegment.java:50-57 | with the intended index, two different words of one 4 KiB segment get different slots |
| MemorySegment.IndexAliasing | trunk/projects/MbTraceInterpreter/trunk/src/org/ancora/MicroblazeInterpreter/HardwareBlocks/DataMemory/MemorySegment.java:50-57 | byte addresses 0x000 and 0x400 of one segment share an index as written, and have different intended indices |
| MemorySegment.StoreWordAt | trunk/projects/MbTraceInterpreter/trunk/src/org/ancora/MicroblazeInterpreter/HardwareBlocks/DataMemory/MemorySegment.java:81-92 | storing marks the word written with the value and changes no other slot |
| MemorySegment.LoadWordAt | trunk/projects/MbTraceInterpreter/trunk/src/org/ancora/MicroblazeInterpreter/HardwareBlocks/DataMemory/MemorySegment.java:50-71 | a written word is returned unchanged; an unwritten word reads 0 and is marked written as 0; no other slot changes |
| MemorySegment.StoreThenLoad | trunk/projects/MbTraceInterpreter/trunk/src/org/ancora/MicroblazeInterpreter/HardwareBlocks/DataMemory/MemorySegment.java:50-92 | a load after a store at the same address returns the stored value and changes nothing more |
| MemorySegment.StoreAliasing | trunk/projects/MbTraceInterpreter/trunk/src/org/ancora/MicroblazeInterpreter/HardwareBlocks/DataMemory/MemorySegment.java:50-92 | a value stored at byte 0x000 reads back at byte 0x400 |
| MemorySegment.StoreOtherWord | trunk/projects/MbTraceInterpreter/trunk/src/org/ancora/MicroblazeInterpreter/HardwareBlocks/DataMemory/MemorySegment.java:50-92 | a store changes the load of another address exactly when both share an index as written |
| MemorySegment.LoadTwice | trunk/projects/MbTraceInterpreter/trunk/src/org/ancora/MicroblazeInterpreter/HardwareBlocks/DataMemory/MemorySegment.java:50-71 | a second load of the same address returns the same value and changes nothing more |
| MemorySegment.IntendedStoreOtherWord | trunk/projects/MbTraceInterpreter/trunk/src/org/ancora/MicroblazeInterpreter/HardwareBlocks/DataMemory/MemorySegment.java:50-92 | with the intended index, a stored word reads back and a store leaves every other word of the segment unchanged |
| MemorySegment.CountWritten | trunk/projects/MbTraceInterpreter/trunk/src/org/ancora/MicroblazeInterpreter/HardwareBlocks/DataMemory/MemorySegment.java:124-125 | the number of written words is at most the segment size |
| MemorySegment.WrittenAddresses | trunk/projects/MbTraceInterpreter/trunk/src/org/ancora/MicroblazeInterpreter/HardwareBlocks/DataMemory/MemorySegment.java:124-135 | the result lists, in strictly ascending order, exactly the indices of the written words, and has the written count as its length |
| CachedSegments.Init | projects/MbTraceInterpreter/trunk/src/org/ancora/MicroblazeInterpreter/HardwareBlocks/DataMemory/CachedSegments.java:45-56 | new memory has no segment, no cached segment and zero statistics |
| CachedSegments.SegmentAddress | projects/MbTraceInterpreter/trunk/src/org/ancora/MicroblazeInterpreter/HardwareBlocks/DataMemory/CachedSegments.java:103-105 | the segment address of a byte address is below 2^20 |
| CachedSegments.SegmentAddressDistinct | projects/MbTraceInterpreter/trunk/src/org/ancora/MicroblazeInterpreter/HardwareBlocks/DataMemory/CachedSegments.java:103-105 | addresses in different 4 KiB blocks have different segment addresses |
| CachedSegments.RecoverWordAddress | projects/MbTraceInterpreter/trunk/src/org/ancora/MicroblazeInterpreter/HardwareBlocks/DataMemory/CachedSegments.java:183-193 | the recovered address has the segment address in bits 12..31 and the low 12 bits of the index below it |
| CachedSegments.RecoverInverse | projects/MbTraceInterpreter/trunk/src/org/ancora/MicroblazeInterpreter/HardwareBlocks/DataMemory/CachedSegments.java:103-105 | segment address and in-segment index can be read back from the recovered address, and every address is recovered from its own segment and low 12 bits |
| CachedSegments.GetSegmentFromCache | projects/MbTraceInterpreter/trunk/src/org/ancora/MicroblazeInterpreter/HardwareBlocks/DataMemory/CachedSegments.java:113-136 | returns the segment when it exists, and then caches its address; the map is unchanged and the access count grows by one |
| CachedSegments.GetSegment | projects/MbTraceInterpreter/trunk/src/org/ancora/MicroblazeInterpreter/HardwareBlocks/DataMemory/CachedSegments.java:77-95 | returns the segment of the address, creating an empty one on a miss, and leaves it as the cached segment |
| CachedSegments.AddSegment | projects/MbTraceInterpreter/trunk/src/org/ancora/MicroblazeInterpreter/HardwareBlocks/DataMemory/CachedSegments.java:77-95 | a new empty segment is added at the missing address |
| CachedSegments.WriteBack | projects/MbTraceInterpreter/trunk/src/org/ancora/MicroblazeInterpreter/HardwareBlocks/DataMemory/CachedSegments.java:58-64 | the changed segment replaces the cached one in the map |
| CachedSegments.LoadWord | projects/MbTraceInterpreter/trunk/src/org/ancora/MicroblazeInterpreter/HardwareBlocks/DataMemory/CachedSegments.java:58-60 | the load through the cache returns what the cache-free reference load on the segment map returns and leaves the same segments |
| CachedSegments.StoreWord | projects/MbTraceInterpreter/trunk/src/org/ancora/MicroblazeInterpreter/HardwareBlocks/DataMemory/CachedSegments.java:62-64 | the store through the cache leaves the segments the cache-free reference store leaves |
| CachedSegments.IsWordWritten | projects/MbTraceInterpreter/trunk/src/org/ancora/MicroblazeInterpreter/HardwareBlocks/DataMemory/CachedSegments.java:66-68 | the written flag through the cache agrees with the cache-free reference |
| CachedSegments.StoreThenLoad | projects/MbTraceInterpreter/trunk/src/org/ancora/MicroblazeInterpreter/HardwareBlocks/DataMemory/CachedSegments.java:58-64 | a stored word loads back |
| CachedSegments.StoreOtherWord | projects/MbTraceInterpreter/trunk/src/org/ancora/MicroblazeInterpreter/HardwareBlocks/DataMemory/CachedSegments.java:58-64 | a store leaves the load of an address in another word slot unchanged |
| CachedSegments.SameWord | projects/MbTraceInterpreter/trunk/src/org/ancora/MicroblazeInterpreter/HardwareBlocks/DataMemory/CachedSegments.java:58-64 | two addresses in the same word slot load the same word, and a store to one reads back at the other |
| CachedSegments.StoreAliasing | projects/MbTraceInterpreter/trunk/src/org/ancora/MicroblazeInterpreter/HardwareBlocks/DataMemory/CachedSegments.java:58-64 | a value stored at byte 0x000 reads back at byte 0x400 through the whole memory |
| CachedSegments.LoadTwice | projects/MbTraceInterpreter/trunk/src/org/ancora/MicroblazeInterpreter/HardwareBlocks/DataMemory/CachedSegments.java:58-60 | a second load of an address returns the same value and leaves the same segments |
| CachedSegments.LoadMarksWritten | projects/MbTraceInterpreter/trunk/src/org/ancora/MicroblazeInterpreter/HardwareBlocks/DataMemory/CachedSegments.java:58-68 | after a load the word counts as written, as a first load stores 0 |
| CachedSegments.WrittenWordAddresses | projects/MbTraceInterpreter/trunk/src/org/ancora/MicroblazeInterpreter/HardwareBlocks/DataMemory/CachedSegments.java:154-174 | the result has one entry per written word of every segment, it contains the recovered address of every written word, and every entry comes from a written word |
| CachedSegments.AppendRecovered | projects/MbTraceInterpreter/trunk/src/org/ancora/MicroblazeInterpreter/HardwareBlocks/DataMemory/CachedSegments.java:164-170 | the recovered addresses of one segment's written words are appended to the list, keeping every earlier entry |
| DataMemoryPlus.HalfwordOffset | trunk/projects/MbTraceInterpreter/trunk/src/org/ancora/MicroblazeInterpreter/HardwareBlocks/DataMemory/DataMemoryPlus.java:44-54 | the halfword position within the word is 0 or 1 |
| DataMemoryPlus.ByteOffset | trunk/projects/MbTraceInterpreter/trunk/src/org/ancora/MicroblazeInterpreter/HardwareBlocks/DataMemory/DataMemoryPlus.java:97-107 | the byte position within the word is 0..3 |
| DataMemoryPlus.HalfwordRoundTrip | trunk/projects/MbTraceInterpreter/trunk/src/org/ancora/MicroblazeInterpreter/HardwareBlocks/DataMemory/DataMemoryPlus.java:44-84 | a halfword inserted into a word reads back as its low 16 bits, and the other halfword is unchanged |
| DataMemoryPlus.ByteRoundTrip | trunk/projects/MbTraceInterpreter/trunk/src/org/ancora/MicroblazeInterpreter/HardwareBlocks/DataMemory/DataMemoryPlus.java:97-136 | a byte inserted into a word reads back as its low 8 bits, and every other byte is unchanged |
| DataMemoryPlus.LoadHalfword | trunk/projects/MbTraceInterpreter/trunk/src/org/ancora/MicroblazeInterpreter/HardwareBlocks/DataMemory/DataMemoryPlus.java:44-54 | the result fits in 16 bits and is the addressed half of the loaded word |
| DataMemoryPlus.LoadByte | trunk/projects/MbTraceInterpreter/trunk/src/org/ancora/MicroblazeInterpreter/HardwareBlocks/DataMemory/DataMemoryPlus.java:97-107 | the result fits in 8 bits and is the addressed byte of the loaded word |
| DataMemoryPlus.StoreHalfword | trunk/projects/MbTraceInterpreter/trunk/src/org/ancora/MicroblazeInterpreter/HardwareBlocks/DataMemory/DataMemoryPlus.java:68-84 | the word is read, the addressed half replaced, and the word stored back |
| DataMemoryPlus.StoreByte | trunk/projects/MbTraceInterpreter/trunk/src/org/ancora/MicroblazeInterpreter/HardwareBlocks/DataMemory/DataMemoryPlus.java:120-136 | the word is read, the addressed byte replaced, and the word stored back |
| DataMemoryPlus.StoreHalfwordThenLoad | trunk/projects/MbTraceInterpreter/trunk/src/org/ancora/MicroblazeInterpreter/HardwareBlocks/DataMemory/DataMemoryPlus.java:44-84 | a stored halfword loads back as the low 16 bits of the value |
| DataMemoryPlus.StoreHalfwordOtherHalf | trunk/projects/MbTraceInterpreter/trunk/src/org/ancora/MicroblazeInterpreter/HardwareBlocks/DataMemory/DataMemoryPlus.java:44-84 | a halfword store leaves the other half of the same word unchanged |
| DataMemoryPlus.StoreHalfwordOtherWord | trunk/projects/MbTraceInterpreter/trunk/src/org/ancora/MicroblazeInterpreter/HardwareBlocks/DataMemory/DataMemoryPlus.java:68-84 | a halfword store leaves every other word unchanged |
| DataMemoryPlus.StoreByteThenLoad | trunk/projects/MbTraceInterpreter/trunk/src/org/ancora/MicroblazeInterpreter/HardwareBlocks/DataMemory/DataMemoryPlus.java:97-136 | a stored byte loads back as the low 8 bits of the value |
| DataMemoryPlus.StoreByteOtherByte | trunk/projects/MbTraceInterpreter/trunk/src/org/ancora/MicroblazeInterpreter/HardwareBlocks/DataMemory/DataMemoryPlus.java:97-136 | a byte store leaves the other bytes of the same word unchanged |
| DataMemoryPlus.StoreByteOtherWord | trunk/projects/MbTraceInterpreter/trunk/src/org/ancora/MicroblazeInterpreter/HardwareBlocks/DataMemory/DataMemoryPlus.java:120-136 | a byte store leaves every other word unchanged |
| DataMemoryPlus.HalfwordBytes | trunk/projects/MbTraceInterpreter/trunk/src/org/ancora/MicroblazeInterpreter/HardwareBlocks/DataMemory/DataMemoryPlus.java:44-107 | the two bytes of an aligned halfword are its low and high 8 bits |
| InstructionParser.IndexOf | trunk/projects/MbTraceInterpreter/trunk/src/org/ancora/MicroblazeInterpreter/Parser/InstructionParser.java:84-95 | the result is the first position at or after the start holding the character, or −1 when there is none |
| InstructionParser.ArgumentsCount | trunk/projects/MbTraceInterpreter/trunk/src/org/ancora/MicroblazeInterpreter/Parser/InstructionParser.java:79-107 | the number of operands is the number of commas plus one |
| InstructionParser.ExtractArgs | trunk/projects/MbTraceInterpreter/trunk/src/org/ancora/MicroblazeInterpreter/Parser/InstructionParser.java:79-107 | the loop splits the text at every comma into trimmed pieces, exactly as the recursive reference definition does |
| InstructionParser.ShortRoundTrip | trunk/projects/MbTraceInterpreter/trunk/src/org/ancora/MicroblazeInterpreter/Parser/InstructionParser.java:134-152 | the decimal text of every 16-bit value parses back to that value |
| InstructionParser.RegisterNameRoundTrip | trunk/projects/MbTraceInterpreter/trunk/src/org/ancora/MicroblazeInterpreter/Parser/InstructionParser.java:134-152 | a register name of a letter and a number reads as that number |
| InstructionParser.GetMemoryAddress | trunk/projects/MbTraceInterpreter/trunk/src/org/ancora/MicroblazeInterpreter/Parser/InstructionParser.java:118-123 | the eight characters after "0x" are returned, and a line too short for them is an error, as substring throws |
| InstructionParser.MemoryAddressOfLine | trunk/projects/MbTraceInterpreter/trunk/src/org/ancora/MicroblazeInterpreter/Parser/InstructionParser.java:118-123 | the address digits of "0x" + digits + rest are the digits |
| InstructionParser.Parse | trunk/projects/MbTraceInterpreter/trunk/src/org/ancora/MicroblazeInterpreter/Parser/InstructionParser.java:44-67 | a line shorter than the address is an error; a parsed name is the text from the 13th character up to the next space |
| InstructionParser.ArgumentsOfJoin | trunk/projects/MbTraceInterpreter/trunk/src/org/ancora/MicroblazeInterpreter/Parser/InstructionParser.java:79-107 | operands joined with ", " split back into the same operands |
| InstructionParser.ParseRoundTrip | trunk/projects/MbTraceInterpreter/trunk/src/org/ancora/MicroblazeInterpreter/Parser/InstructionParser.java:44-152 | a line written from an address, a name and the serialised operands parses back to the same trace data |
| InstructionParser.ParseThreeRegisters | trunk/projects/MbTraceInterpreter/trunk/src/org/ancora/MicroblazeInterpreter/Parser/InstructionParser.java:44-152 | "name rD, rA, rB" parses to those three registers and no immediate |
| InstructionParser.GettersOfParsed | trunk/projects/MbTraceInterpreter/trunk/src/org/ancora/MicroblazeInterpreter/Parser/InstructionParser.java:44-67 | the getters of the parsed data return the name and the three registers |
| TraceData.SlotsOf | projects/MbTraceInterpreter/trunk/src/org/ancora/MicroblazeInterpreter/Parser/SimpleTraceData.java:27-31 | the operands fill the first slots in order and the rest are empty |
| TraceData.ToStringWithoutImmediate | projects/MbTraceInterpreter/trunk/src/org/ancora/MicroblazeInterpreter/Parser/SimpleTraceData.java:55-88 | without an immediate the text is the operands joined with ", " |
| TraceData.ToStringWithImmediate | projects/MbTraceInterpreter/trunk/src/org/ancora/MicroblazeInterpreter/Parser/SimpleTraceData.java:55-88 | the immediate follows the operands after ", ", except when all three slots are full |
| TraceData.ToStringEmpty | projects/MbTraceInterpreter/trunk/src/org/ancora/MicroblazeInterpreter/Parser/SimpleTraceData.java:55-88 | data without operands prints as the empty string |
| TraceData.PrefixOfSlots | projects/MbTraceInterpreter/trunk/src/org/ancora/MicroblazeInterpreter/Parser/SimpleTraceData.java:27-31 | the operands are read back from the slots up to the first empty one |
| TraceData.JoinAppend | projects/MbTraceInterpreter/trunk/src/org/ancora/MicroblazeInterpreter/Parser/SimpleTraceData.java:60-80 | appending an operand adds ", " and the operand |
| InstructionBuilder.LookupListed | src/org/ancora/MicroblazeInterpreter/Instructions/InstructionBuilder.java:35-99 | a name that finds a family is one of that family's mnemonics |
| InstructionBuilder.ListedFound | src/org/ancora/MicroblazeInterpreter/Instructions/InstructionBuilder.java:35-99 | every mnemonic of a family finds that family |
| InstructionBuilder.LookupExact | src/org/ancora/MicroblazeInterpreter/Instructions/InstructionBuilder.java:35-99 | names match exactly and case-sensitively: "add" is found; "ADD", "add ", "ad" and "" are not |
| InstructionBuilder.Build | src/org/ancora/MicroblazeInterpreter/Instructions/InstructionBuilder.java:113-115 | a modelled family builds an instruction of that family unless it needs an immediate the data lacks; other families report their name |
| InstructionBuilder.Construct | src/org/ancora/MicroblazeInterpreter/Instructions/InstructionBuilder.java:113-115 | the instruction belongs to the family, and its immediate is the 16-bit operand sign-extended to 32 bits |
| InstructionBuilder.Execute | src/org/ancora/MicroblazeInterpreter/Instructions/InstructionBuilder.java:113-115 | every instruction fails only on a register outside the file, takes at least one cycle, leaves the lock register alone unless it is imm, and moves the PC only if it is a branch |
| InstructionBuilder.ExecuteSucceeds | src/org/ancora/MicroblazeInterpreter/Instructions/InstructionBuilder.java:113-115 | execution succeeds exactly when every register the instruction names exists |
| InstructionBuilder.ExecuteImm | src/org/ancora/MicroblazeInterpreter/Instructions/InstructionBuilder.java:43 | executing imm stores its immediate in the lock register |
| InstructionBuilder.FlagReadingsAgree | src/org/ancora/MicroblazeInterpreter/Instructions/InstructionBuilder.java:58-69 | the two readings of the branch mnemonics agree exactly on br, brald, bri and bralid |
| Processor.Init | trunk/projects/MbTraceInterpreter/trunk/src/org/ancora/MicroblazeInterpreter/HardwareBlocks/Processor/MbProcessor.java:43-59 | a new run starts from zeroed hardware, a zero count and no warnings |
| Processor.DecodeAddress | trunk/projects/MbTraceInterpreter/trunk/src/org/ancora/MicroblazeInterpreter/HardwareBlocks/Processor/MbProcessor.java:96-97 | eight hex digits decode to an address below 2^32, and nothing else decodes |
| Processor.DecodeAddressRoundTrip | trunk/projects/MbTraceInterpreter/trunk/src/org/ancora/MicroblazeInterpreter/HardwareBlocks/Processor/MbProcessor.java:96-97 | every 32-bit address written as eight hex digits decodes to itself |
| Processor.DecodeAddressAsWritten | trunk/projects/MbTraceInterpreter/trunk/src/org/ancora/MicroblazeInterpreter/HardwareBlocks/Processor/MbProcessor.java:97 | the int reading of the digits lies in the int range |
| Processor.DecodeAddressAsWrittenHalf | trunk/projects/MbTraceInterpreter/trunk/src/org/ancora/MicroblazeInterpreter/HardwareBlocks/Processor/MbProcessor.java:97 | an address written as eight hex digits decodes as written exactly when it is below 2^31 |
| Processor.DecodeAddressAsWrittenRejects | trunk/projects/MbTraceInterpreter/trunk/src/org/ancora/MicroblazeInterpreter/HardwareBlocks/Processor/MbProcessor.java:97 | "80000000" is rejected as written and decodes to 2^31 unsigned |
| Processor.Decode | trunk/projects/MbTraceInterpreter/trunk/src/org/ancora/MicroblazeInterpreter/HardwareBlocks/Processor/MbProcessor.java:94-112 | a line whose name is not in the table is skipped exactly when its address and operands decode; a known name decodes to an instruction of its family |
| Processor.DecodeHighAddress | trunk/projects/MbTraceInterpreter/trunk/src/org/ancora/MicroblazeInterpreter/HardwareBlocks/Processor/MbProcessor.java:96-97 | a line whose address is 0x80000000 or above stops the run; below that the address never does |
| Processor.Warn | trunk/projects/MbTraceInterpreter/trunk/src/org/ancora/MicroblazeInterpreter/HardwareBlocks/Processor/MbProcessor.java:127-140 | an unknown name is recorded, and a warning is added only the first time |
| Processor.Perform | trunk/projects/MbTraceInterpreter/trunk/src/org/ancora/MicroblazeInterpreter/HardwareBlocks/Processor/MbProcessor.java:112-118 | an executed instruction fails only on a bad register, adds at least one cycle, steps the lock register unless it is imm, and moves the PC on by 4 unless it is a branch |
| Processor.ProcessLine | trunk/projects/MbTraceInterpreter/trunk/src/org/ancora/MicroblazeInterpreter/HardwareBlocks/Processor/MbProcessor.java:94-119 | a line fails exactly when it does not decode or its instruction faults; the set of unknown names only grows |
| Processor.UnknownLineChangesNothing | trunk/projects/MbTraceInterpreter/trunk/src/org/ancora/MicroblazeInterpreter/HardwareBlocks/Processor/MbProcessor.java:104-110 | a line with an unknown name leaves hardware and clock unchanged and records the name |
| Processor.ProcessLineWarnsOnce | trunk/projects/MbTraceInterpreter/trunk/src/org/ancora/MicroblazeInterpreter/HardwareBlocks/Processor/MbProcessor.java:127-140 | processing a line keeps each unknown name warned about exactly once |
| Processor.RunWarnsOnce | trunk/projects/MbTraceInterpreter/trunk/src/org/ancora/MicroblazeInterpreter/HardwareBlocks/Processor/MbProcessor.java:62-87 | a whole run warns once per unknown name |
| Processor.RunAppend | trunk/projects/MbTraceInterpreter/trunk/src/org/ancora/MicroblazeInterpreter/HardwareBlocks/Processor/MbProcessor.java:62-75 | running two traces one after the other is running their concatenation |
| Processor.RunCountsUp | trunk/projects/MbTraceInterpreter/trunk/src/org/ancora/MicroblazeInterpreter/HardwareBlocks/Processor/MbProcessor.java:62-75 | the cycle count never decreases over a run |
| Processor.PerformImm | trunk/projects/MbTraceInterpreter/trunk/src/org/ancora/MicroblazeInterpreter/HardwareBlocks/Processor/MbProcessor.java:112-118 | after imm the lock register is locked with the immediate |
| Processor.ImmLocksForOneInstruction | trunk/projects/MbTraceInterpreter/trunk/src/org/ancora/MicroblazeInterpreter/HardwareBlocks/Processor/MbProcessor.java:112-118 | after imm the next instruction sees the locked register, and it unlocks again once that instruction has run |
| Processor.KnownLineSucceeds | trunk/projects/MbTraceInterpreter/trunk/src/org/ancora/MicroblazeInterpreter/HardwareBlocks/Processor/MbProcessor.java:94-119 | a line with a known instruction succeeds exactly when its registers exist |
| Processor.HexRoundTrip | trunk/projects/MbTraceInterpreter/trunk/src/org/ancora/MicroblazeInterpreter/HardwareBlocks/Processor/MbProcessor.java:97 | a number written as hex digits of sufficient width reads back as itself |
| Machine.Init | trunk/projects/MbTraceInterpreter/trunk/src/org/ancora/MicroblazeInterpreter/HardwareBlocks/Processor/MbProcessor.java:43-56 | a new machine has zeroed registers and special registers, an unlocked lock register and no memory segments |
| Machine.ReadReg | src/org/ancora/MicroblazeInterpreter/HardwareBlocks/Registers/RegisterFileArray.java:32-34 | reading an existing register yields its contents, and any other index is an error |
| Machine.WriteReg | src/org/ancora/MicroblazeInterpreter/HardwareBlocks/Registers/RegisterFileArray.java:36-43 | a write to an existing register changes only that register, or nothing for r0; special registers, lock and memory are kept |
| AluInstructions.Add | src/org/ancora/MicroblazeInterpreter/Instructions/MbAdd.java:59-129 | rD receives rA + rB + carry-in mod 2^32; without 'k', C and CC take the carry-out; nothing else changes; latency 1 |
| AluInstructions.AddCarryChain | src/org/ancora/MicroblazeInterpreter/Instructions/MbAdd.java:101-125 | after add without 'k', rD and the carry bit together are the exact 33-bit sum |
| AluInstructions.Addi | trunk/projects/MbTraceInterpreter/trunk/src/org/ancora/MicroblazeInterpreter/Instructions/MbAddi.java:65-162 | rD receives rA + the widened immediate + carry-in; without 'k', C and CC take the carry-out; latency 1 |
| AluInstructions.AddiImmediate | trunk/projects/MbTraceInterpreter/trunk/src/org/ancora/MicroblazeInterpreter/Instructions/MbAddi.java:110-158 | while the lock register is locked the immediate's upper half comes from the stored imm; otherwise it is the immediate itself |
| AluInstructions.And | trunk/src/org/ancora/MicroblazeInterpreter/Instructions/MbAnd.java:53-87 | rD receives rA & rB; nothing else changes; latency 1 |
| AluInstructions.AndCommutes | trunk/src/org/ancora/MicroblazeInterpreter/Instructions/MbAnd.java:71-83 | and gives the same outcome with rA and rB swapped |
| AluInstructions.Andi | trunk/projects/MbTraceInterpreter/trunk/src/org/ancora/MicroblazeInterpreter/Instructions/MbAndi.java:55-92 | rD receives rA & the widened immediate; latency 1 |
| AluInstructions.AndiSubsetOfSource | trunk/projects/MbTraceInterpreter/trunk/src/org/ancora/MicroblazeInterpreter/Instructions/MbAndi.java:74-88 | every bit set in the result is set in rA |
| AluInstructions.Or | trunk/projects/MbTraceInterpreter/trunk/src/org/ancora/MicroblazeInterpreter/Instructions/MbOr.java:56-91 | rD receives rA or rB; latency 1 |
| AluInstructions.OrSupersetOfSources | trunk/projects/MbTraceInterpreter/trunk/src/org/ancora/MicroblazeInterpreter/Instructions/MbOr.java:75-87 | every bit set in rA or in rB is set in the result |
| AluInstructions.Mul | trunk/src/org/ancora/MicroblazeInterpreter/Instructions/MbMul.java:57-97 | rD receives the low 32 bits of rA × rB; latency 1, or 3 when area-optimised |
| AluInstructions.MulCommutes | trunk/src/org/ancora/MicroblazeInterpreter/Instructions/MbMul.java:77-89 | mul gives the same outcome with rA and rB swapped |
| AluInstructions.MulByUnit | trunk/src/org/ancora/MicroblazeInterpreter/Instructions/MbMul.java:77-89 | multiplying by 1 copies rA, and by 0 gives 0 |
| AluInstructions.MulByMinusOne | trunk/src/org/ancora/MicroblazeInterpreter/Instructions/MbMul.java:77-89 | multiplying by −1 gives the two's-complement negation of rA |
| AluInstructions.Sext16 | trunk/projects/MbTraceInterpreter/trunk/src/org/ancora/MicroblazeInterpreter/Instructions/MbSext16.java:52-79 | rD receives rA unchanged (no extension takes place); latency 1 |
| AluInstructions.Sext16Copies | trunk/projects/MbTraceInterpreter/trunk/src/org/ancora/MicroblazeInterpreter/Instructions/MbSext16.java:68-75 | sext16 copies rA to rD, and running it again changes nothing |
| AluInstructions.CompareBits | trunk/projects/MbTraceInterpreter/trunk/src/org/ancora/MicroblazeInterpreter/Instructions/MbCmp.java:82-109 | the MSB of the result says whether rA > rB; the other bits are those of rB − rA |
| AluInstructions.Cmp | trunk/projects/MbTraceInterpreter/trunk/src/org/ancora/MicroblazeInterpreter/Instructions/MbCmp.java:55-113 | rD receives rB − rA with the MSB replaced by the signed or unsigned comparison; latency 1 |
| AluInstructions.CmpAsymmetric | trunk/projects/MbTraceInterpreter/trunk/src/org/ancora/MicroblazeInterpreter/Instructions/MbCmp.java:82-109 | rA > rB and rB > rA never both hold |
| AluInstructions.CmpIrreflexive | trunk/projects/MbTraceInterpreter/trunk/src/org/ancora/MicroblazeInterpreter/Instructions/MbCmp.java:82-109 | a register is never greater than itself |
| AluInstructions.DivideFault | projects/MbTraceInterpreter/trunk/src/org/ancora/MicroblazeInterpreter/Instructions/MbIdiv.java:88-127 | a divide fault sets DZO, sets the exception cause to 5 and records DEC; the PC is kept |
| AluInstructions.Idiv | projects/MbTraceInterpreter/trunk/src/org/ancora/MicroblazeInterpreter/Instructions/MbIdiv.java:59-138 | division by zero writes 0 and faults with DEC 0; signed −2^31 / −1 writes rB and faults with DEC 1; otherwise rD is rB / rA rounded toward zero; latency 1 for a zero divisor, else 32 or 34 |
| AluInstructions.Sra | src/org/ancora/MicroblazeInterpreter/Instructions/MbSra.java:56-92 | rD receives rA shifted right by one keeping the sign; C and CC take the bit shifted out; latency 1 |
| AluInstructions.SraInverse | src/org/ancora/MicroblazeInterpreter/Instructions/MbSra.java:73-88 | shifting rD back left and putting the carry in bit 0 gives rA again, and the sign is kept |
| AluInstructions.SraCarry | src/org/ancora/MicroblazeInterpreter/Instructions/MbSra.java:73-88 | the carry bit after sra is bit 0 of rA |
| AluInstructions.SraHalf | src/org/ancora/MicroblazeInterpreter/Instructions/MbSra.java:73-88 | rD shifted back left, with bit 0 of rA, is rA |
| AluInstructions.SraSign | src/org/ancora/MicroblazeInterpreter/Instructions/MbSra.java:73-88 | sra keeps the sign bit |
| AluInstructions.Bsi | trunk/projects/MbTraceInterpreter/trunk/src/org/ancora/MicroblazeInterpreter/Instructions/MbBsi.java:59-124 | rD receives rA shifted by the low five bits of the immediate, left, logically right or arithmetically right by the mnemonic; latency 1, or 2 when area-optimised |
| AluInstructions.BsiShiftsBack | trunk/projects/MbTraceInterpreter/trunk/src/org/ancora/MicroblazeInterpreter/Instructions/MbBsi.java:97-116 | bslli then bsrli by the same distance clears the top bits of rA and keeps the rest; on a non-negative value bsrai equals bsrli |
| AluInstructions.BsiTwice | trunk/projects/MbTraceInterpreter/trunk/src/org/ancora/MicroblazeInterpreter/Instructions/MbBsi.java:97-116 | a left and then a right shift through the register file is the composition of the two shifts |
| AluInstructions.ShiftBack | trunk/projects/MbTraceInterpreter/trunk/src/org/ancora/MicroblazeInterpreter/Instructions/MbBsi.java:97-116 | shifting left and then logically right by the same distance keeps exactly the bits below 32 − n |
| AluInstructions.ShiftNonNegative | trunk/projects/MbTraceInterpreter/trunk/src/org/ancora/MicroblazeInterpreter/Instructions/MbBsi.java:97-116 | on a non-negative value the arithmetic and the logical right shift agree |
| AluInstructions.Imm | projects/MbTraceInterpreter/trunk/src/org/ancora/MicroblazeInterpreter/Instructions/MbImm.java:49-65 | imm arms the lock register with its immediate and changes nothing else; latency 1 |
| JavaInt.TruncDiv | projects/MbTraceInterpreter/trunk/src/org/ancora/MicroblazeInterpreter/Instructions/MbIdiv.java:88-127 | the quotient rounds toward zero: the remainder is smaller than the divisor and has the sign of the dividend |
| JavaInt.ShiftRightNonNegative | src/org/ancora/MicroblazeInterpreter/Instructions/MbSra.java:73-88 | on a non-negative value the arithmetic shift is the logical one |
| JavaInt.ShiftRightNegative | src/org/ancora/MicroblazeInterpreter/Instructions/MbSra.java:73-88 | on a negative value the arithmetic shift fills the top with ones and keeps the logical shift below |
| JavaInt.HalveKeepsSign | src/org/ancora/MicroblazeInterpreter/Instructions/MbSra.java:73-88 | a shift right by one keeps the sign, and shifted back it is the value with bit 0 cleared |
| BranchInstructions.FlagsAsWritten | trunk/src/org/ancora/MicroblazeInterpreter/Instructions/MbBr.java:141-143 | the mnemonic's 'd' alone sets delay, link and absolute together |
| BranchInstructions.Bgei | trunk/src/org/ancora/MicroblazeInterpreter/Instructions/MbBgei.java:57-110 | when rA ≥ 0 the PC moves to PC + the widened immediate with latency 2 (delay slot) or 3; otherwise the PC moves on by 4 with latency 1; nothing else changes |
| BranchInstructions.BgeiTarget | trunk/src/org/ancora/MicroblazeInterpreter/Instructions/MbBgei.java:83-110 | the taken and not-taken targets and latencies follow the signed value of rA, and MSR and ESR are kept |
| BranchInstructions.Bri | projects/MbTraceInterpreter/trunk/src/org/ancora/MicroblazeInterpreter/Instructions/MbBri.java:64-145 | with link, rD receives the PC; the PC moves to the immediate or PC + immediate; latency 2 or 3 by the delay flag |
| BranchInstructions.BriFlagsCounterexample | projects/MbTraceInterpreter/trunk/src/org/ancora/MicroblazeInterpreter/Instructions/MbBri.java:78-99 | "brid" reads as delay, link and absolute, so the branch goes to the immediate; read letter by letter it is delayed and relative |
| BranchInstructions.Rtsd | trunk/projects/MbTraceInterpreter/trunk/src/org/ancora/MicroblazeInterpreter/Instructions/MbRtsd.java:54-81 | the PC moves to rA + immediate; nothing else changes; latency 2 |
| BranchInstructions.CallAndReturn | trunk/projects/MbTraceInterpreter/trunk/src/org/ancora/MicroblazeInterpreter/Instructions/MbRtsd.java:70-75 | a linking bri to some target and then rtsd rD, 8 returns to the call's PC + 8 |
| BranchInstructions.BrAsWritten | trunk/src/org/ancora/MicroblazeInterpreter/Instructions/MbBr.java:58-123 | with link, rD receives the PC; the PC moves to the register number itself, or PC + that number; latency 2 or 3 |
| BranchInstructions.Br | trunk/src/org/ancora/MicroblazeInterpreter/Instructions/MbBr.java:58-123 | the intended br: the PC moves to the contents of rB, or PC + rB, with the same link and latency rules |
| BranchInstructions.BrCounterexample | trunk/src/org/ancora/MicroblazeInterpreter/Instructions/MbBr.java:100-113 | "bra r5" with r5 = 0x100 moves the PC to PC + 5 as written, and to 0x100 as intended |
| BranchInstructions.BrAbsoluteTarget | trunk/src/org/ancora/MicroblazeInterpreter/Instructions/MbBr.java:100-113 | an absolute br without link jumps to the contents of rB whatever the PC was |
| MemoryInstructions.Lhui | src/org/ancora/MicroblazeInterpreter/Instructions/MbLhui.java:60-110 | an aligned address rA + widened immediate loads its halfword into rD; an odd address gives 0 and no access; latency 1, or 2 when area-optimised |
| MemoryInstructions.LhuiZeroExtends | src/org/ancora/MicroblazeInterpreter/Instructions/MbLhui.java:81-102 | the loaded value fits in 16 bits |
| MemoryInstructions.LhuiValue | src/org/ancora/MicroblazeInterpreter/Instructions/MbLhui.java:81-102 | rD holds the memory halfword for an even address and 0 for an odd one |
| MemoryInstructions.Lbui | projects/MbTraceInterpreter/trunk/src/org/ancora/MicroblazeInterpreter/Instructions/MbLbui.java:59-101 | rD receives the byte at rA + the widened immediate; latency 1, or 2 when area-optimised |
| MemoryInstructions.LbuiValue | projects/MbTraceInterpreter/trunk/src/org/ancora/MicroblazeInterpreter/Instructions/MbLbui.java:80-93 | rD holds the memory byte at the address |
| MemoryInstructions.LbuiMarksWritten | projects/MbTraceInterpreter/trunk/src/org/ancora/MicroblazeInterpreter/Instructions/MbLbui.java:80-93 | after lbui the loaded word counts as written |
| MemoryInstructions.LbuiLowByteOfLhui | projects/MbTraceInterpreter/trunk/src/org/ancora/MicroblazeInterpreter/Instructions/MbLbui.java:80-93 | lbui at an even address gives the low byte of what lhui gives there |
| MemoryInstructions.LbuiHighByteOfLhui | projects/MbTraceInterpreter/trunk/src/org/ancora/MicroblazeInterpreter/Instructions/MbLbui.java:80-93 | lbui at the next byte gives the high byte of that halfword |
| MemoryInstructions.Sh | trunk/projects/MbTraceInterpreter/trunk/src/org/ancora/MicroblazeInterpreter/Instructions/MbSh.java:58-101 | an aligned address rA + rB receives the low half of rD; an odd address changes nothing; registers and special registers are kept |
| MemoryInstructions.ShThenLhui | trunk/projects/MbTraceInterpreter/trunk/src/org/ancora/MicroblazeInterpreter/Instructions/MbSh.java:78-93 | a halfword stored by sh loads back through lhui as the low 16 bits of the stored register |
| MemoryInstructions.ShKeepsOtherHalf | trunk/projects/MbTraceInterpreter/trunk/src/org/ancora/MicroblazeInterpreter/Instructions/MbSh.java:78-93 | sh leaves the other halfword of the word unchanged |

## Left out

- File and console I/O: reading the trace file, command-line drivers, warnings and debug prints. A run takes its lines as a sequence, and warnings about unknown names are kept as a list in the state.
- Address statistics: the `NumberCounter` of instruction addresses, the final count of unimplemented names, and the float hit rate of `CachedSegments.stats()`. The access and miss counters are kept; they only feed that report.
- The configuration file: the configuration is a parameter (`Config`) holding the area-optimised flag, and the MMU flag, which nothing uses.
- InstructionBuilder.Build: 25 of the 65 table names (19 of the 38 families: beqi, bgti, blei, blti, bnei, lbu, lhu, lw, lwi, ori, rsub, sb, sbi, sext8, shi, srl, sw, swi, xori and their variants) end the run with `NotModelled`. Their implementing classes are not part of this model.
- InstructionParser.ParseRegister: `parseRegister` is not part of this model. The model drops the first character and reads the rest as decimal digits. A missing or malformed operand reads as r0: for "add r1, r2, 5" the 5 is taken as the immediate and rB reads as r0.
- InstructionParser.IsLetter: ASCII letters only, while `Character.isLetter` accepts every Unicode letter. The white space of `String.trim` (every character up to U+0020) is exact.
- TraceData.IsDigit: ASCII digits only, while `Character.isDigit` accepts every Unicode decimal digit.
- Processor.HexValue: ASCII hex digits only, while `Character.digit` also accepts other Unicode digits.
- SpecialRegisters.Esr: ESR is given address 5, its MicroBlaze register number. The register enum comments out `resr` (trunk/projects/MbTraceInterpreter/trunk/src/org/ancora/MicroblazeInterpreter/HardwareBlocks/SpecialRegister.java:30), so the ESR helpers have no address to use in the source.
- MemorySegment.StoreWordAt: the segment offers the operations `CachedSegments` calls on it: a public `storeWord`, `isWordWritten` (the written flag at the index) and `WORD_POWER` = 2. In the segment class these are private or absent.
- CachedSegments.RecoverWordAddress: the in-segment word index goes into the low 12 bits unshifted, as written (not index × 4). The list order follows the given key sequence; `HashMap` iteration order is not modelled.
- BranchInstructions.Bri: the MMU special case of the bri family (projects/MbTraceInterpreter/trunk/src/org/ancora/MicroblazeInterpreter/Instructions/MbBri.java:121-132) computes a new MSR but never writes it back, so it has no effect and is left out.
- BranchInstructions.BrAsWritten: without link the source sets its unused rD field to −1; the model carries 0 there and never writes it.
- AluInstructions.Product: mul's product is not proved equal to the integer product modulo 2^32, because the bit-vector to integer conversions it needs are beyond the solver. Its stated partners are commutativity and multiplication by 1, 0 and −1.
- Superseded copies of the same classes (the release-0.1 memory, the four-entry builder, the loop-based `writeBits`, the other `MbAdd` and `SprMap` snapshots) and the interfaces without logic.

## Findings

| source | as written | input that shows it | evidently intended | confidence | as-written member | corrected member |
|---|---|---|---|---|---|---|
| trunk/projects/MbTraceInterpreter/trunk/src/org/ancora/MicroblazeInterpreter/HardwareBlocks/DataMemory/MemorySegment.java:50-92 | the index is `((a << 22) >>> 22) >>> 2`, i.e. address bits 2..9, so a 1024-word segment uses only 256 words | store 7 at byte 0x000, then load byte 0x400 of the same segment: 7 comes back | address bits 2..11, one slot per word of the 4 KiB segment | medium, not executed | MemorySegment.StoreAliasing | MemorySegment.IntendedStoreOtherWord |
| src/org/ancora/MicroblazeInterpreter/Commons/BitOperations.java:78-105 | `~` is applied after rA is widened to `long`, so bits 32..63 are set too and the sum borrows from bit 32 | rA = 0, rB = 0, carry 1: 0 + 0xFFFFFFFF + 1 carries out, the method returns 0 | bit 32 of the 32-bit sum rB + ~rA + carry, as the method's comment says | high, not executed | BitOperations.CarryOutRsubCounterexample | BitOperations.CarryOutRsubSpec |
| projects/MbTraceInterpreter/trunk/src/org/ancora/MicroblazeInterpreter/Instructions/MbBri.java:78-99 | L_CHAR and A_CHAR are "d" (lines 164-166; likewise MbBr.java:141-143), so 'd' sets delay, link and absolute together | "brid" jumps to the immediate itself and writes the PC into rD; "brai" jumps relative | 'd' delay, 'l' link, 'a' absolute, each from its own letter | high, not executed | BranchInstructions.BriFlagsCounterexample | InstructionBuilder.FlagReadingsAgree |
| trunk/src/org/ancora/MicroblazeInterpreter/Instructions/MbBr.java:100-113 | the PC receives the register number regB, or PC + regB | "bra r5" with r5 = 0x100: the PC becomes PC + 5 | the PC receives the contents of rB, or PC + rB | high, not executed | BranchInstructions.BrCounterexample | BranchInstructions.BrAbsoluteTarget |
| trunk/projects/MbTraceInterpreter/trunk/src/org/ancora/MicroblazeInterpreter/HardwareBlocks/Processor/MbProcessor.java:96-97 | the eight address digits are read with `Integer.valueOf(s, 16)`, which throws from 80000000 up | a line at address 0x80000000 ends the run | every 32-bit address decodes | medium, not executed | Processor.DecodeAddressAsWrittenRejects | Processor.DecodeAddressRoundTrip |
| src/org/ancora/MicroblazeInterpreter/HardwareBlocks/Processor/CycleClock.java:62 | the cycle count is an `int` and wraps negative | one cycle after 2^31 − 1 cycles the count is −2^31 | a count that only grows | low, not executed | CycleClock.CountAsWrittenDecreases | CycleClock.CountIsTotal |

The corrected halves are `MemorySegment.IntendedIndex`, `BitOperations.CarryOutRsub`, `BranchInstructions.Flags`, `BranchInstructions.Br`, `Processor.DecodeAddress` and the `nat` count of `CycleClock.Step`. Only the cycle count is on the execution path. The other five corrected definitions stand beside the as-written ones, so that the model still does what the interpreter does.
