# GBA CPU interpreter step, modelled in Dafny

This project models the instruction-execution core of a Game Boy Advance
emulator: one call of `execute(instr, mode)` in `ARMCPU.py`. The core keeps
17 registers, where register 15 is the pc and register 16 is the status
word: N, Z, C and V in bits 31 to 28 and the Thumb mode in bit 5. It also
keeps 16 byte regions, picked by bits 27 to 24 of an address. A call clears
the break state and moves the pc past the instruction. It then decodes the
instruction and runs its handler:

- A 16-bit Thumb instruction is decoded by its rank among `ThumbBounds`.
- A 32-bit ARM instruction is decoded by a walk of `arm_tree`. It runs only
  when its condition holds on the flags.

The core also issues a DMA copy when a store sets bit 7 of address
0x040000DF.

The project has two layers.

**The value layer** is modules of functions and lemmas over a `State`. A
`State` holds the register file as `seq<int>`, the regions as
`seq<seq<Byte>>`, the break state, and the read-point and watch-point sets.
The modules are:

- `Bits`: Python's bit operations on unbounded integers.
- `Memory`: little-endian bytes, region slices and the wrapping copy.
- `Machine`: `State`, and `mem_read`, `mem_write`, `mem_copy` and `DMA` on it.
- `Alu`: `compare`, `cmphalf` and `barrelshift`.
- `Conditions`: the condition table.
- `Decode`: `ThumbBounds`, `ThumbFuncs`, `arm_tree` and `navigateTree`.
- `Thumb` and `Arm`: every handler.
- `Interpreter`: `execute`.

**The imperative layer** is the class `Cpu.Cpu`. It holds the register file
as an `array<int>` and the regions as 16 distinct `array<Byte>`, and it
mirrors each Python function as a method that updates them in place.

Every method ensures `Model() == F(old(Model()), …)`, where `F` is the
value-layer function for the same Python function. The lemmas beside `F`
state what the source promises about it: round trips, write-backs, targets,
flags, and which registers stay unchanged.

Python integers are unbounded, and many register writes in the source are
not masked. The model therefore keeps registers as `int` and writes
`x & y`, `x | y` and `x ^ y` as "the low n bits of Python's operation"
(`Bits.And`, `Bits.Or`, `Bits.Xor`), which is exact for negative operands
too. Python's `>>` is floor division, and Dafny's `/` is Euclidean. The two
agree for the positive powers of two used throughout.
SMLALxy's `Reg[Rd] << 32 | Reg[Rn]` is taken in its low 64 bits
(`Bits.Or` over 64 bits). On word registers that is the number Rd:Rn
(`Arm.LongAccumulateSum`). On any registers the sum differs from Python's by
a multiple of 2^64, and `Arm.SplitLongModulo` shows that the registers
written are the same.

The model follows the code where it departs from the ARM architecture, and
lemmas make each departure visible:

- The LE condition (`ARMCPU.py:131`) is "Z set and N differs from V", where
  ARM has "Z set or N differs from V". Its comment says the same thing, so
  this is what the authors meant. See `Conditions.ConditionAsWritten` and
  `Conditions.LessOrEqualGap`.
- `compare` takes the operands' "signs" as `op >> 30` and compares them with
  N as the value 8 (`ARMCPU.py:75-80`). V is therefore not the two's-complement
  overflow: `0x7FFFFFFF + 1` leaves V clear. See
  `Alu.CompareOverflowAsWritten` and `Alu.CompareOverflowExample`.
- `barrelshift` with LSL by a nonzero amount computes the carry as 0 or 1
  (`ARMCPU.py:100`). The carry therefore lands in the V bit, and C is
  cleared. See `Alu.ShiftLeftCarryInBit28`.
- `arm_branch` does not sign-extend its 24-bit offset (`ARMCPU.py:367-370`),
  so every ARM branch goes forward. See `Arm.ArmBranchForward`.
- The status read of `psr` (`ARMCPU.py:356`) names `R`, which is undefined,
  so Python raises `NameError` there. The model leaves the state unchanged
  (`Arm.PsrIgnored`). It does not turn that branch into a move of the status
  word, because the code as written never moves it.

A Python exception ends the step with the state as it was at the raise
point. The model gives the handler no effect in three places where this
happens:

- a negative register shift amount in `dataprocess` raises `ValueError`;
- an empty register list in `pushpop` raises `IndexError`;
- the `psr` read raises `NameError`.

## Model

| member | source | states |
|---|---|---|
| `Bits.Lo32` | ARMCPU.py:74 | `x & 0xFFFFFFFF` is a 32-bit word |
| `Bits.Bit` | ARMCPU.py:482 | `x >> i & 1` is 0 or 1 |
| `Bits.SignExtendFromIsSignExtension` | ARMCPU.py:29 | `(v ^ p) - p` on a value below 2p is its two's-complement reading: v below p, v - 2p otherwise |
| `Bits.And` | ARMCPU.py:165 | the low n bits of Python's `x & y` lie below 2^n |
| `Bits.Or` | ARMCPU.py:177 | the low n bits of Python's `x OR y` lie below 2^n |
| `Bits.Xor` | ARMCPU.py:166 | the low n bits of Python's `x ^ y` lie below 2^n |
| `Bits.AndLowMask` | ARMCPU.py:86 | masking with 2^n - 1 keeps the remainder mod 2^n, for negative x too |
| `Bits.AndOnes` | ARMCPU.py:86 | the same for a mask passed as a value, proved by induction on n |
| `Bits.AndHighMask` | ARMCPU.py:352 | a mask of bits k to n-1 keeps exactly those bits of x |
| `Bits.AndFieldMask` | ARMCPU.py:352 | the same for a mask passed as a value, proved by induction on k |
| `Bits.ReplaceFieldSpec` | ARMCPU.py:200 | `x & ~field OR v << k`: the field then holds v, and the bits below and above it are kept |
| `Bits.Popcount` | ARMCPU.py:251 | the number of set bits among the low n is at most n |
| `Bits.BitLength` | ARMCPU.py:375 | `int.bit_length`: x lies below 2^l and, when l is positive, at or above 2^(l-1) |
| `Memory.FromLE` | ARMCPU.py:17 | a little-endian decode of n bytes is below 256^n |
| `Memory.ToLE` | ARMCPU.py:39 | `int.to_bytes(…, n, "little")` yields exactly n bytes |
| `Memory.FromToLE` | ARMCPU.py:39 | decoding the n-byte encoding of v gives back v mod 256^n |
| `Memory.ToFromLE` | ARMCPU.py:17 | encoding a decoded byte run at its own length gives back the run |
| `Memory.RegionIndex` | ARMCPU.py:15 | `addr >> 24 & 0xF` picks one of the 16 regions |
| `Memory.Slice` | ARMCPU.py:17 | a read past the region's end is cut short at the end, as a Python slice is |
| `Memory.ReadValue` | ARMCPU.py:14-21 | `mem_read` decodes the bytes at `addr mod length` of region `addr >> 24 & 0xF`, cut at the region's end, into a little-endian number below 256^size; `Machine.WriteThenRead` shows that it reads back what a store wrote |
| `Memory.Overwrite` | ARMCPU.py:44 | writing a run inside a region keeps the region's length |
| `Memory.SliceOne` | ARMCPU.py:45 | a one-byte read decodes to the byte at that offset |
| `Memory.OverwriteThenSlice` | ARMCPU.py:44 | a run written inside a region reads back unchanged |
| `Memory.CopyDataWraps` | ARMCPU.py:53-55 | the gathered source run is `size` long and its byte i is the region's byte at (src + i) mod length |
| `Memory.CopyData` | ARMCPU.py:53-55 | the run `region1[src:src+size]` plus, past the end, `region1[:(src+size) % len]`; it has no contract of its own, and its length and bytes are the next two rows and the one above |
| `Memory.CopyDataLength` | ARMCPU.py:53-55 | the gathered run is at most `size` bytes long, and exactly `size` long if and only if src + size is below twice the region's length |
| `Memory.CopyDataShortExample` | ARMCPU.py:53-55 | 8 bytes gathered from offset 0 of a 4-byte region are only the region's own 4 bytes |
| `Memory.CopyIntoAsWritten` | ARMCPU.py:56-61 | the destination assignment as written, with Python's slice assignment, which may change the region's length; it has no contract of its own, and `Memory.WrappingCopyShrinks`, `Memory.WrappingCopyExample` and `Memory.CopyAsWrittenAgrees` state what it does |
| `Memory.WrappingCopyShrinks` | ARMCPU.py:56-59 | as written, a copy that wraps past the destination region's end leaves the region shorter |
| `Memory.CopyInto` | ARMCPU.py:56-61 | the intended copy keeps the destination region's length |
| `Memory.CopyIntoLands` | ARMCPU.py:56-61 | data byte i lands at (des + i) mod length, and every byte the run does not cover is kept |
| `Memory.CopyAsWrittenAgrees` | ARMCPU.py:60-61 | a copy that does not wrap and whose gathered run is exactly `size` bytes is identical as written and as intended |
| `Memory.WrappingCopyExample` | ARMCPU.py:59 | 8 bytes copied to 0xFC of a 0x100-byte region: as written the region shrinks to 0xFC bytes; as intended it keeps 0x100 bytes, byte 0xFC holds the first data byte, bytes 0 and 3 the fifth and eighth, and byte 4 is kept |
| `Alu.FlagsOfNibble` | ARMCPU.py:81 | N, Z, C and V are bits 3, 2, 1 and 0 of the flag nibble |
| `Alu.PackSpec` | ARMCPU.py:81 | packing a nibble over the low 28 bits of the status word reads back the nibble, each flag, the low bits and the bits above 32 |
| `Alu.Unpack` | ARMCPU.py:81 | every status word is the packing of its own parts |
| `Alu.Compare` | ARMCPU.py:73-82 | the result is the 32-bit sum; with S clear the status word is untouched; with S set bits 0-27 are kept, N is bit 31 of the result, Z says it is zero, and C is the carry out of the sum of the two 32-bit operands |
| `Alu.TopBit` | ARMCPU.py:77 | bit 31 of a word is set exactly when the word is at least 2^31 |
| `Alu.SumLow` | ARMCPU.py:74-79 | the sum of the masked operands has the same low word as op1 + op2, bit 31 of that low word, and bit 32 exactly when it overflows 32 bits |
| `Alu.CompareOverflowAsWritten` | ARMCPU.py:75-80 | V is set exactly when `op1 >> 30` equals `op2 >> 30` and differs from the value of N (8 or 0) |
| `Alu.CompareOverflowExample` | ARMCPU.py:80 | 0x7FFFFFFF + 1 gives 2^31 with N set and V clear |
| `Alu.CmpHalf` | ARMCPU.py:85-90 | the result is the low word; with S set only N and Z change, N from bit 31 and Z from zero |
| `Alu.BarrelShift` | ARMCPU.py:93-114 | the result is a word; with S clear the status word is untouched; with S set bits 0-27 and the bits above 32 are kept, N is bit 31 of the result, Z says it is zero |
| `Alu.ShiftAmountNormalised` | ARMCPU.py:95-96 | a rotate amount counts mod 32, and a shift above 32 acts as a shift by 32 |
| `Alu.SameShiftAmount` | ARMCPU.py:95-96 | two amounts that normalise alike give the same result and status word |
| `Alu.BarrelShiftStatus` | ARMCPU.py:97-113 | C follows the carry bit except for LSL by 0, which keeps C; V is set when the carry value is 1 and kept otherwise |
| `Alu.ZeroShiftValue` | ARMCPU.py:104-109 | by 0, LSL keeps the word, ASR gives all ones or zero by bit 31, and ROR shifts C in as bit 31 (RRX) |
| `Alu.BarrelShiftZeroAmount` | ARMCPU.py:104-113 | the value for each shift type by 0 (LSR gives 0); LSL by 0 keeps C and V; the others set C to bit 31 and keep V |
| `Alu.BarrelShiftCarry` | ARMCPU.py:99-101 | for LSR, ASR and ROR by a nonzero amount, C is the last bit shifted out, and V is kept |
| `Alu.LogicalShiftRight` | ARMCPU.py:101 | LSR by a positive amount divides the word by 2 to the power min(32, amount) |
| `Alu.ArithmeticShiftRight` | ARMCPU.py:102 | ASR keeps the sign bit; by 32 or more it gives all ones or zero |
| `Alu.RotateWord` | ARMCPU.py:103 | `(v << 32 OR v) >> sh`, masked, is v rotated right by sh |
| `Alu.RotateRight` | ARMCPU.py:103 | ROR by a nonzero amount mod 32 rotates the word right by that amount |
| `Alu.ShiftLeftCarryInBit28` | ARMCPU.py:98-113 | LSL by a positive amount gives v * 2^sh mod 2^32; C is cleared, and the bit shifted out lands in V, which is set when that bit is 1 or V was set |
| `Alu.ShiftedOutBit` | ARMCPU.py:100 | bit 32 of `v << sh` is bit 32 - sh of v |
| `Alu.MergedBits` | ARMCPU.py:113 | the new flag nibble formed from N, Z, C and the old nibble under the affected-flags mask |
| `Alu.ShiftStatusSpec` | ARMCPU.py:113 | the status update keeps bits 0-27 and above 32 and sets N, Z, C and V as the mask and the OR make them |
| `Conditions.Condition` | ARMCPU.py:117-134 | AL (entry 14) passes on every flag nibble and NV (entry 15) on none; the other entries are stated by `Conditions.ConditionOnBits` |
| `Conditions.FlagBits` | ARMCPU.py:504 | the flags are bits 3 to 0 of `Reg[16] >> 28` |
| `Conditions.SingleFlagConditions` | ARMCPU.py:118-125 | EQ to VC each test one flag for set or clear |
| `Conditions.PairConditions` | ARMCPU.py:126-129 | HI, LS, GE and LT test their two flags |
| `Conditions.GreaterCondition` | ARMCPU.py:130 | GT holds when Z is clear and N equals V |
| `Conditions.LessOrEqualCondition` | ARMCPU.py:131 | LE as written holds when Z is set and N differs from V |
| `Conditions.ConditionOnBits` | ARMCPU.py:117-134 | each of the 16 entries is the flag test its comment names |
| `Conditions.ConditionAsWritten` | ARMCPU.py:117-134 | each entry on a status word equals the ARM condition on its flags, except that entry 13 is "Z and N differs from V" |
| `Conditions.ConditionMatchesArm` | ARMCPU.py:117-134 | every entry except LE equals the ARM condition |
| `Conditions.LessOrEqualGap` | ARMCPU.py:131 | with Z set and N equal to V, neither GT nor LE holds as written, whereas ARM's LE holds |
| `Decode.BisectRight` | ARMCPU.py:498 | the rank lies between 0 and the number of bounds |
| `Decode.BisectRightRank` | ARMCPU.py:498 | on sorted bounds, every bound below the rank is at most x and every bound from it on exceeds x |
| `Decode.IncreasingSorted` | ARMCPU.py:294-297 | bounds that rise step by step are sorted |
| `Decode.ThumbRank` | ARMCPU.py:294-302 | the rank of any instruction selects one of the 21 handlers, between its neighbouring bounds |
| `Decode.ThumbBoundsSorted` | ARMCPU.py:294-302 | the 20 bounds are sorted and there are 21 handlers |
| `Decode.ThumbDecode` | ARMCPU.py:498-499 | `ThumbFuncs[bisect_right(ThumbBounds, instr)]`; it has no contract of its own, and `Decode.ThumbRank` states that the rank lies between the neighbouring bounds and picks one of the 21 handlers |
| `Decode.LongBranchDecodes` | ARMCPU.py:294-302 | every instruction from 0xF000 on goes to `bl` |
| `Decode.BoundsAtMostTop` | ARMCPU.py:294-297 | no bound exceeds 0xF000 |
| `Decode.ArmNode` | ARMCPU.py:465-473 | the 49 entries of `arm_tree`: a bit test, a masked compare or a handler; it has no contract of its own, and `Decode.ArmTreeForward` states that every successor lies beyond its node |
| `Decode.Walk` | ARMCPU.py:476-489 | the walk of `navigateTree` from a node to the handler it reaches; it has no contract of its own, and `Decode.NavigateTree` ties the loop to it |
| `Decode.ArmDecode` | ARMCPU.py:476-489 | the walk from node 0; `Decode.BranchesDecode` and `Interpreter.ArmStepOf` state where it ends |
| `Decode.ArmTreeForward` | ARMCPU.py:465-473 | every taken successor in `arm_tree` lies beyond its node and inside the tree, so the walk ends |
| `Decode.NavigateTree` | ARMCPU.py:476-489 | the loop returns the handler the tree walk reaches, in fewer than 49 steps |
| `Decode.BranchesDecode` | ARMCPU.py:466-470 | with bit 27 set and bit 26 clear, bit 25 chooses between `arm_branch` and `blocktransfer` |
| `Decode.BranchNodes` | ARMCPU.py:466-470 | the tree nodes on that path test bits 27, 26 and 25 and end at those handlers |
| `Machine.SetRegTwice` | ARMCPU.py:341-342 | a register written twice holds the second value; writing a register's own value changes nothing |
| `Machine.AfterRead` | ARMCPU.py:18-20 | a read changes only the break state |
| `Machine.SignExtendWord` | ARMCPU.py:28-29 | `((v ^ msb) - msb) & 0xFFFFFFFF` is v, or v + 2^32 - 2msb when the top bit is set |
| `Machine.Load` | ARMCPU.py:14-21 | loading a register leaves memory unchanged |
| `Machine.LoadSigned` | ARMCPU.py:24-33 | a sign-extended load leaves memory unchanged |
| `Machine.ReadSignedExtends` | ARMCPU.py:27-29 | a signed read is the unsigned read, with 2^32 - 256^size added when its top bit is set |
| `Machine.Stored` | ARMCPU.py:37-44 | a store changes no register and no monitor set |
| `Machine.Copy` | ARMCPU.py:48-61 | a copy changes no register and no monitor set |
| `Machine.Dma` | ARMCPU.py:64-70 | DMA changes no register and leaves the enable bit clear |
| `Machine.DmaCopy` | ARMCPU.py:69-70 | the copy plus the control write-back leaves the enable bit clear |
| `Machine.ControlClearsEnable` | ARMCPU.py:70 | writing back `control & 0x7FFF` clears bit 7 of 0x040000DF |
| `Machine.EnableFollowsControl` | ARMCPU.py:45 | 0x040000DF is the byte after 0x040000DE in region 4 |
| `Machine.Write` | ARMCPU.py:36-45 | a write changes no register and never leaves DMA enabled |
| `Machine.WriteWithoutDma` | ARMCPU.py:45 | when the store leaves the enable bit clear, memory after the write is memory after the store |
| `Machine.StoredMemory` | ARMCPU.py:44 | a store replaces only its own region, with the encoded bytes over the region at `addr mod length` |
| `Machine.StoredThenRead` | ARMCPU.py:39-44 | a store inside a region reads back as data mod 256^size, and every byte outside it is kept |
| `Machine.WriteThenRead` | ARMCPU.py:36-45 | the same holds for `mem_write` when it does not start a DMA |
| `Machine.WriteReadsBack` | ARMCPU.py:36-46 | a `mem_write` that fits in its region and leaves the DMA enable bit clear (`Machine.PlainStore`) reads back as data mod 256^size |
| `Thumb.Shifted` | ARMCPU.py:142-144 | the shift by immediate leaves memory unchanged |
| `Thumb.ShiftedResult` | ARMCPU.py:142-144 | Rd holds the barrel shifter's 32-bit value and the status word its status; the other registers and the memory are kept |
| `Thumb.AddSub` | ARMCPU.py:147-152 | add/sub leaves memory unchanged |
| `Thumb.Immediate` | ARMCPU.py:155-161 | MOV/CMP/ADD/SUB immediate leave memory unchanged |
| `Thumb.AluOp` | ARMCPU.py:183-186 | the ALU operation leaves memory unchanged |
| `Thumb.HiRegBx` | ARMCPU.py:189-200 | high-register operations and BX leave memory unchanged |
| `Thumb.LdrPc` | ARMCPU.py:203-205 | a pc-relative load leaves memory unchanged |
| `Thumb.WordAlignedClearsBit1` | ARMCPU.py:205 | `Reg[15] - (Reg[15] & 2)` is the pc with bit 1 cleared and every other bit kept |
| `Thumb.LdrPcLoads` | ARMCPU.py:203-205 | Rd receives the word at the pc with bit 1 cleared plus 4 Word; the memory and every other register are kept |
| `Thumb.LdrStr` | ARMCPU.py:208-220 | register-offset loads and stores keep 17 registers and 16 regions of unchanged lengths |
| `Thumb.LdrStrForms` | ARMCPU.py:208-220 | at Rb + Ro, STR, STRB and STRH are one `mem_write` of Rd and keep every register; LDR, LDRB and LDRH put the unsigned value read of 4, 1 or 2 bytes in Rd; LDRSB and LDRSH put the sign-extended value there; loads keep every byte and every other register |
| `Thumb.LdrStrStoreAt` | ARMCPU.py:210-217 | given its decoded fields, STR, STRB and STRH are one `mem_write` of Rd at Rb + Ro of 4, 1 or 2 bytes, and keep every register and the region lengths |
| `Thumb.LdrStrLoadAt` | ARMCPU.py:214-219 | the same for an unsigned load, given its decoded fields |
| `Thumb.LdrStrSignedAt` | ARMCPU.py:218-220 | given its decoded fields, LDSB and LDSH put the sign-extended byte or halfword at Rb + Ro in Rd, keep every other register and change no memory |
| `Thumb.LdrStrReload` | ARMCPU.py:209 | setting bit 11 of a store gives the load of the same size with the same Ro, Rb and Rd |
| `Thumb.LdrStrStores` | ARMCPU.py:210-217 | after STR, STRB or STRH inside a region that does not start a DMA transfer, the address reads back Rd mod 256^size, and no register changes |
| `Thumb.LdrStrRoundTrip` | ARMCPU.py:208-220 | a store followed by the load with the same registers and size gives Rd back mod 256^size and keeps every other register |
| `Thumb.LdrStrImm` | ARMCPU.py:223-228 | immediate-offset loads and stores keep 17 registers and 16 regions of unchanged lengths |
| `Thumb.LdrStrImmForms` | ARMCPU.py:223-228 | at Rb + Offset * size, a store is one `mem_write` of Rd and keeps every register; a load puts the value read in Rd and keeps every byte and every other register |
| `Thumb.LdrStrImmStores` | ARMCPU.py:223-227 | after an immediate-offset store that fits in its region and does not start a DMA transfer, Rb + Offset * size reads back Rd mod 256^size, and no register changes |
| `Thumb.LdrStrImmLoadAt` | ARMCPU.py:228 | the same for a load, given its decoded fields |
| `Thumb.LdrStrImmReload` | ARMCPU.py:224 | setting L in a store gives the load with the same Op, Offset, Rb and Rd |
| `Thumb.LdrStrImmRoundTrip` | ARMCPU.py:223-228 | a store inside a region that does not start a DMA transfer, followed by the load with L set, gives Rd back mod 256^size and keeps every other register |
| `Thumb.LdrStrSp` | ARMCPU.py:231-234 | sp-relative loads and stores keep 17 registers and 16 regions of unchanged lengths |
| `Thumb.LdrStrSpForms` | ARMCPU.py:231-234 | at SP + 4 Word, a store is one `mem_write` of Rd and keeps every register; a load puts the word read in Rd and keeps every byte and every other register |
| `Thumb.LdrStrSpStores` | ARMCPU.py:231-233 | after an sp-relative store that fits in its region and does not start a DMA transfer, SP + 4 Word reads back Rd mod 2^32, and no register changes |
| `Thumb.LdrStrSpLoadAt` | ARMCPU.py:234 | given its decoded fields, an sp-relative load puts the word at SP + 4 Word in Rd, keeps every other register and changes no memory |
| `Thumb.LdrStrSpReload` | ARMCPU.py:232 | setting bit 11 of a store gives the load with the same Rd and Word |
| `Thumb.LdrStrSpRoundTrip` | ARMCPU.py:231-234 | a store inside a region that does not start a DMA transfer, followed by the load with bit 11 set, gives Rd back mod 2^32 and keeps every other register |
| `Thumb.GetRelAddr` | ARMCPU.py:237-240 | address generation leaves memory unchanged |
| `Thumb.GetRelAddrResult` | ARMCPU.py:237-240 | Rd receives the pc with bit 1 cleared, or SP, plus 4 Word, and nothing else changes |
| `Thumb.AddSp` | ARMCPU.py:243-246 | the sp adjustment leaves memory unchanged |
| `Thumb.AddSpMoves` | ARMCPU.py:243-246 | SP moves by 4 Word, up when S is clear and down when it is set, a multiple of 4 of at most 508 bytes, and nothing else changes |
| `Thumb.SetBits` | ARMCPU.py:251 | the listed registers number the popcount of the list bits, each below n |
| `Thumb.StackList` | ARMCPU.py:250-252 | the push/pop list names only r0-r7, LR and the pc |
| `Thumb.PushOne` | ARMCPU.py:255-256 | one push lowers SP by 4 and changes no other register |
| `Thumb.PushFrom` | ARMCPU.py:254-256 | pushing the rest of the list lowers SP by 4 per register and changes no other register |
| `Thumb.PopOne` | ARMCPU.py:259-260 | one pop leaves memory unchanged |
| `Thumb.PopFrom` | ARMCPU.py:258-260 | popping the rest of the list leaves memory unchanged |
| `Thumb.PushPop` | ARMCPU.py:249-261 | push/pop keeps the state's shape |
| `Thumb.StmLdmOne` | ARMCPU.py:268-271 | the address moves on by 4 exactly when register i is listed |
| `Thumb.StmLdmFrom` | ARMCPU.py:267-271 | the address moves on by 4 per listed register from i to 7 |
| `Thumb.StmLdm` | ARMCPU.py:264-272 | STMIA/LDMIA keep the state's shape |
| `Thumb.BranchIf` | ARMCPU.py:275-277 | a conditional branch leaves memory unchanged |
| `Thumb.Branch` | ARMCPU.py:280-281 | a branch leaves memory unchanged |
| `Thumb.BranchLink` | ARMCPU.py:284-291 | either half of `bl` leaves memory unchanged |
| `Thumb.AluResult` | ARMCPU.py:164-181 | the sixteen entries of `alu_ops` on Rd, Rs and the status word; it has no contract of its own, and the next two rows state what they give |
| `Thumb.AluResultWord` | ARMCPU.py:164-181 | every ALU operation gives a word and keeps bits 0-27 of the status word |
| `Thumb.AluOpWriteBack` | ARMCPU.py:183-186 | the status word takes the operation's flags, Rd takes its value unless the operation only compares, and no other register changes |
| `Thumb.AddSubResult` | ARMCPU.py:147-152 | Rd is Rs plus or minus the register or 3-bit immediate mod 2^32; C is the carry, Z says Rd is zero, and bits 0-27 are kept |
| `Thumb.ImmediateCompareOnly` | ARMCPU.py:159 | CMP immediate changes no register but the status word |
| `Thumb.BranchExchange` | ARMCPU.py:196-200 | BX/BLX set the mode bit to bit 0 of the target and keep the other mode bits; the pc becomes the target with its alignment correction; BLX sets LR to the pc + 1 |
| `Thumb.StackListLength` | ARMCPU.py:250-252 | the list is as long as the popcount of bits 0-8 |
| `Thumb.PopFromRegisters` | ARMCPU.py:258-260 | popping raises SP by 4 per register and changes no register outside the list |
| `Thumb.PushStackPointer` | ARMCPU.py:253-256 | PUSH lowers SP by 4 per listed register and changes no other register |
| `Thumb.PopStackPointer` | ARMCPU.py:257-261 | POP raises SP by 4 per listed register and changes no register outside the list and the pc |
| `Thumb.StmLdmWriteBack` | ARMCPU.py:264-272 | the base register moves on by 4 per listed register |
| `Thumb.BranchIfTarget` | ARMCPU.py:275-277 | when the condition holds, the pc moves by twice the signed 8-bit offset plus 2; otherwise nothing changes |
| `Thumb.BranchTarget` | ARMCPU.py:280-281 | the pc moves by twice the signed 11-bit offset plus 2 |
| `Thumb.LinkOffsetSigned` | ARMCPU.py:291 | the two 11-bit halves join into a signed 22-bit offset |
| `Arm.DataResult` | ARMCPU.py:311-328 | each ALU operation gives a word, and with S clear the status word is untouched |
| `Arm.DataProcess` | ARMCPU.py:331-343 | data processing leaves memory unchanged |
| `Arm.ImmediateRotates` | ARMCPU.py:335-338 | the immediate operand is the 8-bit value rotated right by twice the 4-bit rotation |
| `Arm.RotatedImmediate` | ARMCPU.py:335-338 | `((Op2 & 2**Shift-1) << 32 OR Op2) >> Shift`; it has no contract of its own, and `Arm.ImmediateRotates` states that it is the rotation |
| `Arm.ShiftRaises` | ARMCPU.py:340-341 | a register shift amount that is negative for a shift other than ROR, where Python's shift raises; `Arm.DataProcessWrites` states that such a step changes nothing |
| `Arm.Operand2` | ARMCPU.py:335-341 | the rotated immediate with the status word kept, or the barrel shift of Rm; it has no contract of its own, and `Arm.DataProcessResult` states how Rd takes it |
| `Arm.DataProcessWrites` | ARMCPU.py:331-343 | only Rd and the status word change; TST, TEQ, CMP and CMN keep Rd; a raising shift changes nothing; with S clear the status word is kept |
| `Arm.ArithmeticResult` | ARMCPU.py:314-323 | SUB, RSB, ADD, CMP and CMN compute the 32-bit difference or sum |
| `Arm.LogicalResult` | ARMCPU.py:312-327 | AND, EOR, ORR, MOV and BIC compute the bitwise word |
| `Arm.DataProcessValue` | ARMCPU.py:342-343 | Rd receives the value of its opcode on Rn and operand 2 |
| `Arm.DataProcessResult` | ARMCPU.py:342-343 | Rd receives the ALU value computed on the flags that operand 2 left |
| `Arm.Psr` | ARMCPU.py:346-356 | the status transfer leaves memory unchanged |
| `Arm.PsrMask` | ARMCPU.py:352 | `15<<28*(Field>>3) OR 0xEF*(Field & 1)`; it has no contract of its own, and `Arm.PsrFlagsField` and `Arm.PsrFlagsMask` state the flags-field case |
| `Arm.PsrFlagsField` | ARMCPU.py:351-355 | MSR to the flags field replaces the flag nibble with the operand's and keeps the other bits and all other registers |
| `Arm.FlagsFieldReplaced` | ARMCPU.py:355 | the masked replacement with mask `15 << 28` replaces just the flag nibble |
| `Arm.PsrFlagsMask` | ARMCPU.py:352-355 | that replacement in arithmetic terms |
| `Arm.FlagsReplaced` | ARMCPU.py:355 | the arithmetic form keeps bits 0-27 and above 32 and takes the operand's nibble |
| `Arm.PsrIgnored` | ARMCPU.py:350-356 | SPSR transfers and MRS change nothing |
| `Arm.ArmBx` | ARMCPU.py:359-364 | BX leaves memory unchanged |
| `Arm.ArmBxTarget` | ARMCPU.py:359-364 | the mode bit becomes bit 0 of the target; the pc becomes the target + 1 or + 4; BLX sets LR to the pc - 4; r0-r13 are kept |
| `Arm.ArmBranch` | ARMCPU.py:367-370 | B/BL leave memory unchanged |
| `Arm.ArmBranchForward` | ARMCPU.py:367-370 | the pc moves forward by 4 plus 4 times the unsigned 24-bit offset; BL sets LR to the pc - 4; an offset of 0xFFFFFE lands 0x3FFFFFC ahead |
| `Bits.OrZero` | ARMCPU.py:392 | OR with 0 keeps the low n bits |
| `Bits.OrDisjoint` | ARMCPU.py:392 | OR of a number whose low k bits are clear with one below 2^k is their sum |
| `Arm.Clz` | ARMCPU.py:373-375 | CLZ leaves memory unchanged |
| `Arm.ClzLeadingZeros` | ARMCPU.py:375 | for a word, the result n is at most 32 and the word has exactly n leading zeros |
| `Arm.Multiply` | ARMCPU.py:378-410 | every multiply leaves memory unchanged |
| `Arm.HalfMultiply` | ARMCPU.py:382-396 | the halfword multiplies leave memory unchanged |
| `Arm.HalfValue` | ARMCPU.py:382-396 | the value written by a halfword multiply; it has no contract of its own, and the rows from `Arm.HalfMultiplyProduct` to `Arm.HalfMultiplyLong` state it for each opcode |
| `Arm.SignedHalf` | ARMCPU.py:385-386 | the reference reading of a halfword as a two's-complement number between -2^15 and 2^15 - 1 |
| `Arm.HalfSigned` | ARMCPU.py:385-386 | `(Rs >> 16*y & 0xFFFF ^ 2**15) - 2**15` is that signed halfword |
| `Arm.HalfProductBounds` | ARMCPU.py:387 | the product of two signed halfwords lies above -2^30 and at most 2^30 |
| `Arm.HalfMultiplyProduct` | ARMCPU.py:382-396 | SMULxy puts the product of the signed halves chosen by x and y in Rd; SMLAxy puts that product plus Rn mod 2^32 there; no other register and no byte changes |
| `Arm.HalfMultiplyWord` | ARMCPU.py:388-390 | SMULWy and SMLAWy put the signed word Rm times the signed half of Rs, shifted down 16 bits, plus Rn when x is clear, mod 2^32 in Rd |
| `Arm.LongAccumulateSum` | ARMCPU.py:392 | on word registers, `Reg[Rd] << 32 OR Reg[Rn]` is the 64-bit number Rd:Rn |
| `Arm.HalfValueLong` | ARMCPU.py:391-392 | on word registers, the SMLALxy value is the number Rd:Rn plus the product of the signed halves |
| `Arm.HalfMultiplyLong` | ARMCPU.py:391-394 | SMLALxy on word registers writes `sum`, the number Rd:Rn plus the product of the signed halves, mod 2^64, back to Rd:Rn |
| `Arm.HalfMultiplyLongAt` | ARMCPU.py:391-394 | SMLALxy writes its value mod 2^64 split over Rd:Rn, whatever the value |
| `Arm.SplitLongModulo` | ARMCPU.py:392-394 | results equal mod 2^64 write the same Rd and Rn, so taking `Reg[Rd] << 32 OR Reg[Rn]` in its low 64 bits writes what Python writes |
| `Arm.WordMultiply` | ARMCPU.py:397-410 | the word multiplies leave memory unchanged |
| `Arm.MultiplyLong` | ARMCPU.py:401-404 | a long multiply leaves the 64-bit result split over RdHi and RdLo |
| `Arm.UnsignedLongProduct` | ARMCPU.py:401-404 | UMULL of two words leaves their exact product in RdHi:RdLo |
| `Arm.MultiplyFlags` | ARMCPU.py:407-410 | with S set, N is bit 63 of the result and Z says its low 63 bits are zero; bits 0-29 are kept |
| `Arm.DataTransfer` | ARMCPU.py:413-444 | single transfers keep the state's shape |
| `Arm.WordTransfer` | ARMCPU.py:420-425 | LDR/STR keep the state's shape |
| `Arm.HalfTransfer` | ARMCPU.py:426-444 | halfword, signed and doubleword transfers and SWP keep the state's shape |
| `Arm.Swap` | ARMCPU.py:433-436 | SWP/SWPB keep the state's shape |
| `Arm.HalfLoad` | ARMCPU.py:437-440 | LDRH, LDRSB and LDRSH leave memory unchanged |
| `Arm.HalfStore` | ARMCPU.py:441-444 | STRH, LDRD and STRD keep the state's shape |
| `Arm.LoadPair` | ARMCPU.py:443 | LDRD leaves memory unchanged |
| `Arm.StorePair` | ARMCPU.py:444 | STRD keeps the state's shape |
| `Arm.HalfLoads` | ARMCPU.py:437-440 | LDRH, LDRSB and LDRSH put the unsigned halfword, the sign-extended byte or the sign-extended halfword at the transfer address in Rd after the base write-back, and keep every byte |
| `Arm.HalfStoreThenLoad` | ARMCPU.py:441-442 | STRH inside a region that does not start a DMA transfer keeps the registers after the base write-back, and the address then reads back Rd mod 2^16 |
| `Arm.LoadPairWords` | ARMCPU.py:443 | LDRD puts the word at the address in Rd and the word 4 bytes on in Rd+1, and keeps every byte |
| `Arm.SwapExchanges` | ARMCPU.py:433-436 | the swap loads Rd from the address in Rn and stores the earlier Rm at the address then in Rn, where it reads back mod 256^size; no other register changes |
| `Arm.DataTransferWriteBack` | ARMCPU.py:422-423 | post-indexing or write-back moves the base by the signed offset, and otherwise it is kept |
| `Arm.StoreThenLoad` | ARMCPU.py:420-425 | after STR/STRB inside a region, the address reads back the stored register mod 256^size |
| `Arm.StoreWrites` | ARMCPU.py:425 | STR/STRB is `mem_write` of Rd at the indexed address, after the base update |
| `Arm.PopcountMonotone` | ARMCPU.py:455 | fewer low bits never hold more set bits |
| `Arm.BlockOne` | ARMCPU.py:456-460 | the address moves by 4 in the transfer's direction exactly when the register is listed; a store keeps every register |
| `Arm.BlockFrom` | ARMCPU.py:455-460 | the address moves by 4 per remaining listed register; a store keeps every register |
| `Arm.BlockStep` | ARMCPU.py:455-460 | the transfer from register k is register k's step followed by the transfer from k + 1 |
| `Arm.BlockTransfer` | ARMCPU.py:447-462 | LDM/STM keep the state's shape |
| `Arm.BlockEnd` | ARMCPU.py:461-462 | the write-back keeps the state's shape |
| `Arm.BlockWriteBack` | ARMCPU.py:447-462 | with W set, the base moves by 4 per listed register up or down |
| `Arm.BlockStoreKeepsRegisters` | ARMCPU.py:447-462 | STM without write-back changes no register |
| `Interpreter.ThumbStep` | ARMCPU.py:498-499 | the Thumb dispatch keeps the state's shape |
| `Interpreter.ArmStep` | ARMCPU.py:505-506 | the ARM dispatch keeps the state's shape |
| `Interpreter.Advance` | ARMCPU.py:494-497 | clearing the break state and moving the pc keeps the state's shape |
| `Interpreter.Execute` | ARMCPU.py:492-506 | one step keeps the state's shape |
| `Interpreter.AdvanceMoves` | ARMCPU.py:494-497 | the advance changes only the break state and the pc, so the condition is unchanged |
| `Interpreter.ThumbStepOf` | ARMCPU.py:498-499 | a `bl` rank runs `bl`, and a rank with no handler changes nothing |
| `Interpreter.ArmStepOf` | ARMCPU.py:505-506 | a walk reaching `arm_branch` runs it, and one reaching no handler changes nothing |
| `Interpreter.ExecuteAdvancesPc` | ARMCPU.py:492-506 | the handler sees the pc 2 (Thumb) or 4 (ARM) ahead; a failed ARM condition changes only the pc and the break state |
| `Interpreter.ConditionHolds` | ARMCPU.py:502-504 | the condition index `instr >> 28` lies in the table and its entry holds on the flags; it has no contract of its own, and `Interpreter.ArmConditionOfWord` states it for a 32-bit word |
| `Interpreter.ArmConditionOfWord` | ARMCPU.py:502-504 | for a 32-bit ARM word, the step runs exactly when the ARM condition of bits 28-31 holds, with LE as written |
| `Interpreter.UndefinedSkips` | ARMCPU.py:11 | an instruction with no handler only moves the pc and clears the break state |
| `Interpreter.ArmBranchStep` | ARMCPU.py:502-506 | an always-executed ARM branch moves the pc 8 plus 4 times its offset |
| `Interpreter.ThumbLongBranchStep` | ARMCPU.py:498-499 | a Thumb instruction from 0xF000 on runs `bl` on the advanced state |
| `Cpu.Cpu.constructor` | ARMCPU.py:4-7 | a CPU over 17 registers and 16 distinct regions starts with a quiet break state and its model is those arrays |
| `Cpu.Cpu.MemRead` | ARMCPU.py:14-21 | returns the little-endian value at the wrapped offset and updates only the break state |
| `Cpu.Cpu.MemReadSigned` | ARMCPU.py:24-33 | returns the sign-extended word and updates only the break state |
| `Cpu.Cpu.Place` | ARMCPU.py:44 | the slice assignment writes the bytes in place and keeps the rest of the region |
| `Cpu.Cpu.MemStore` | ARMCPU.py:37-44 | the in-place store is `Machine.Stored` |
| `Cpu.Cpu.MemWrite` | ARMCPU.py:36-45 | the in-place write, with its DMA check, is `Machine.Write` |
| `Cpu.Cpu.MemCopy` | ARMCPU.py:48-61 | the in-place copy is `Machine.Copy` |
| `Cpu.Cpu.CopyRun` | ARMCPU.py:56-61 | the wrapped destination write is `Memory.CopyInto` |
| `Cpu.Cpu.Dma` | ARMCPU.py:64-70 | the in-place DMA is `Machine.Dma` |
| `Cpu.Cpu.DmaCopy` | ARMCPU.py:69-70 | copy plus control write-back is `Machine.DmaCopy` |
| `Cpu.Cpu.Set` | ARMCPU.py:81 | a register write changes that one register |
| `Cpu.Cpu.Compare` | ARMCPU.py:73-82 | returns `Alu.Compare`'s value and writes only its status word |
| `Cpu.Cpu.CmpHalf` | ARMCPU.py:85-90 | returns `Alu.CmpHalf`'s value and writes only its status word |
| `Cpu.Cpu.BarrelShift` | ARMCPU.py:93-114 | returns `Alu.BarrelShift`'s value and writes only its status word |
| `Cpu.Cpu.Shifted` | ARMCPU.py:142-144 | the in-place step is `Thumb.Shifted` |
| `Cpu.Cpu.AddSub` | ARMCPU.py:147-152 | the in-place step is `Thumb.AddSub` |
| `Cpu.Cpu.Immediate` | ARMCPU.py:155-161 | the in-place step is `Thumb.Immediate` |
| `Cpu.Cpu.AluOp` | ARMCPU.py:164-186 | the in-place step is `Thumb.AluOp` |
| `Cpu.Cpu.HiRegBx` | ARMCPU.py:189-200 | the in-place step is `Thumb.HiRegBx` |
| `Cpu.Cpu.LdrPc` | ARMCPU.py:203-205 | the in-place step is `Thumb.LdrPc` |
| `Cpu.Cpu.LdrStr` | ARMCPU.py:208-220 | the in-place step is `Thumb.LdrStr` |
| `Cpu.Cpu.LdrStrImm` | ARMCPU.py:223-228 | the in-place step is `Thumb.LdrStrImm` |
| `Cpu.Cpu.LdrStrSp` | ARMCPU.py:231-234 | the in-place step is `Thumb.LdrStrSp` |
| `Cpu.Cpu.GetRelAddr` | ARMCPU.py:237-240 | the in-place step is `Thumb.GetRelAddr` |
| `Cpu.Cpu.AddSp` | ARMCPU.py:243-246 | the in-place step is `Thumb.AddSp` |
| `Cpu.Cpu.PushOne` | ARMCPU.py:255-256 | one loop iteration of the push is `Thumb.PushOne` |
| `Cpu.Cpu.Push` | ARMCPU.py:254-256 | the push loop is `Thumb.PushFrom` over the whole list |
| `Cpu.Cpu.PopOne` | ARMCPU.py:259-260 | one loop iteration of the pop is `Thumb.PopOne` |
| `Cpu.Cpu.Pop` | ARMCPU.py:258-260 | the pop loop is `Thumb.PopFrom` over the whole list |
| `Cpu.Cpu.PushPop` | ARMCPU.py:249-261 | the in-place step is `Thumb.PushPop` |
| `Cpu.Cpu.StmLdm` | ARMCPU.py:264-272 | the loop over the 8 list bits is `Thumb.StmLdm` |
| `Cpu.Cpu.StmLdmOne` | ARMCPU.py:268-271 | one iteration returns the next address and state of `Thumb.StmLdmOne` |
| `Cpu.Cpu.BranchIf` | ARMCPU.py:275-277 | the in-place step is `Thumb.BranchIf` |
| `Cpu.Cpu.Branch` | ARMCPU.py:280-281 | the in-place step is `Thumb.Branch` |
| `Cpu.Cpu.BranchLink` | ARMCPU.py:284-291 | the in-place step is `Thumb.BranchLink` |
| `Cpu.Cpu.DataOp` | ARMCPU.py:311-328 | returns `Arm.DataResult`'s value and writes only its status word |
| `Cpu.Cpu.Operand` | ARMCPU.py:335-341 | reports whether the register shift raises, and otherwise returns operand 2 with its status update |
| `Cpu.Cpu.DataProcess` | ARMCPU.py:331-343 | the in-place step is `Arm.DataProcess` |
| `Cpu.Cpu.Psr` | ARMCPU.py:346-356 | the in-place step is `Arm.Psr` |
| `Cpu.Cpu.ArmBx` | ARMCPU.py:359-364 | the in-place step is `Arm.ArmBx` |
| `Cpu.Cpu.ArmBranch` | ARMCPU.py:367-370 | the in-place step is `Arm.ArmBranch` |
| `Cpu.Cpu.Clz` | ARMCPU.py:373-375 | the in-place step is `Arm.Clz` |
| `Cpu.Cpu.SplitLong` | ARMCPU.py:402-404 | the 64-bit result is split into RdHi and RdLo as `Arm.SplitLong` |
| `Cpu.Cpu.Multiply` | ARMCPU.py:378-410 | the in-place step is `Arm.Multiply` |
| `Cpu.Cpu.HalfMultiply` | ARMCPU.py:382-396 | the in-place step is `Arm.HalfMultiply` |
| `Cpu.Cpu.WordMultiply` | ARMCPU.py:397-410 | the in-place step is `Arm.WordMultiply` |
| `Cpu.Cpu.Index` | ARMCPU.py:422-423 | returns the transfer address and applies the base write-back of `Arm.TransferBase` |
| `Cpu.Cpu.DataTransfer` | ARMCPU.py:413-444 | the in-place step is `Arm.DataTransfer` |
| `Cpu.Cpu.WordTransfer` | ARMCPU.py:420-425 | the in-place step is `Arm.WordTransfer` |
| `Cpu.Cpu.HalfTransfer` | ARMCPU.py:426-444 | the in-place step is `Arm.HalfTransfer` |
| `Cpu.Cpu.Swap` | ARMCPU.py:433-436 | the in-place swap is `Arm.Swap` |
| `Cpu.Cpu.HalfLoad` | ARMCPU.py:437-440 | the in-place load is `Arm.HalfLoad` |
| `Cpu.Cpu.HalfStore` | ARMCPU.py:441-444 | the in-place step is `Arm.HalfStore` |
| `Cpu.Cpu.LoadPair` | ARMCPU.py:443 | the in-place step is `Arm.LoadPair` |
| `Cpu.Cpu.StorePair` | ARMCPU.py:444 | the in-place step is `Arm.StorePair` |
| `Cpu.Cpu.BlockTransfer` | ARMCPU.py:447-462 | the in-place step is `Arm.BlockTransfer` |
| `Cpu.Cpu.BlockLoop` | ARMCPU.py:455-460 | the loop over the 16 list bits returns the final address and state of `Arm.BlockFrom` |
| `Cpu.Cpu.BlockEnd` | ARMCPU.py:461-462 | the write-back is `Arm.BlockEnd` |
| `Cpu.Cpu.BlockOne` | ARMCPU.py:456-460 | one iteration returns the next address and state of `Arm.BlockOne` |
| `Cpu.Cpu.ThumbDispatch` | ARMCPU.py:498-499 | calling the decoded handler is `Interpreter.ThumbStep` |
| `Cpu.Cpu.ArmDispatch` | ARMCPU.py:505-506 | calling the handler the tree walk found is `Interpreter.ArmStep` |
| `Cpu.Cpu.Execute` | ARMCPU.py:492-506 | the in-place step, with its decode, is `Interpreter.Execute` |

## Left out

- Text of the break state: `BreakState` is a formatted string naming the access. The model records which kind of access set it (`ReadPoint`, `WatchPoint`, or quiet) and the value it would show. The string formatting is not modelled.
- `BreakPoints` and `Conditionals` are declared at the top of the file but do not affect the core. The read-point and watch-point sets are fixed for one step, since only the debugger changes them.
- `Memory` and `Reg` are globals that the surrounding emulator creates. The model takes them as given: 17 registers and 16 nonempty regions, with region 4 long enough to hold the DMA control half-word.
- `bisect_right` comes from Python's standard library. Here it is `Decode.BisectRight`, a count of the bounds at or below `x`, together with its rank lemma. The binary search itself is not modelled.
- `Machine.Stored`: a slice assignment that runs past a region's end grows the `bytearray` in Python. The model keeps each region's length fixed and drops the bytes past the end. A step that grows a region is therefore not modelled.
- `Memory.CopyIntoAsWritten`'s shortened region is not what the model runs. The model uses `Memory.CopyInto`; see Findings.
- `Memory.CopyInto`: when src + size reaches twice the source region's length, the gathered run is shorter than `size` (`Memory.CopyDataLength`), and line 61's `region2[des:des+size] = copydata` then shrinks the destination region as well. The model writes only the gathered bytes and keeps the region's length.
- `Machine.Copy` inherits that from `Memory.CopyInto`: a copy longer than its source region does not shrink the destination.
- `Cpu.Cpu.MemCopy` and `Cpu.Cpu.CopyRun` equal `Machine.Copy` and `Memory.CopyInto`, so they have the same gap.
- Python exceptions are not modelled as aborts. A handler that raises leaves the state as it was at the raise point, and the step ends there. This covers the `ValueError`, `IndexError` and `NameError` cases described above. An ARM condition index outside -16..15 raises too, and that step only advances the pc.
- Handler functions such as `Thumb.LdrStr`, `Arm.DataTransfer` and `Interpreter.Execute` state in their own contracts only that the shape of the state is kept. What they compute is stated by the lemmas beside them (`Thumb.LdrStrForms`, `Arm.StoreThenLoad`, `Interpreter.ExecuteAdvancesPc` and the others in the table), and each is pinned down by the `Cpu.Cpu` method that equals it.
- Timing, interrupts other than the DMA trigger, and the fetch loop are outside the core.

## Findings

| source | as written | input that shows it | evidently intended | confidence | as-written member | corrected member |
|---|---|---|---|---|---|---|
| ARMCPU.py:59 | a copy that wraps past the destination region's end assigns `copydata[distance:size-distance]` to `region2[:size-distance]`: the slice's end should be `size`, and when it is shorter than the target the `bytearray` shrinks | a 0x100-byte region, `des` 0xFC, 8 bytes: `region2[:4] = copydata[4:4]` deletes 4 bytes and leaves the region 0xFC bytes long | the last `size - distance` bytes of the data land at offsets 0 to `size - distance - 1`, and the region keeps its length | not executed | `Memory.CopyIntoAsWritten`, shown by `Memory.WrappingCopyShrinks` and `Memory.WrappingCopyExample` | `Memory.CopyInto`, proved by `Memory.CopyIntoLands` |
