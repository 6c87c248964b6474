# Verified models of the moon OS kernel core

A Dafny project that models the parts of the moon OS kernel with a sharp specification, and proves that they meet it. Each
file holds one module.

| area | files | main results |
|---|---|---|
| WebAssembly interpreter | `Leb128`, `WasmInstr`, `WasmOperators`, `WasmMachine`, `WasmStructured`, `WasmCorrect`, `WasmUnwinding` | the flat interpreter with its control map and frame stack gives exactly the outcome of a structured evaluator, and of one that unwinds where branches are level |
| DEFLATE decoder | `Bits`, `BitReader`, `HuffmanCode`, `HuffmanTable`, `Deflate`, `DeflateRoundTrip`, `DeflateDecoded`, `DeflateTables` | decoding inverts every valid encoding, and only encodings are accepted; the running-index tables are the canonical prefix code |
| Poly1305 and X25519 | `Modular`, `FiveLimbs`, `Poly1305`, `Field25519`, `FieldBytes`, `X25519` | the limb code computes the tag of RFC 8439 and the ladder of RFC 7748; exactly when the final bytes are canonical |
| Physical frames | `FrameAllocator` | the bitmap, its counter and the scans, for any memory map; each frame handed out to one owner |
| Page tables and the ELF loader | `BitwiseOr`, `PageTree`, `PageRights`, `Paging`, `AddressSpaces`, `Elf`, `ElfSegments` | four-level tables refine a flat page map per address space, over any run; which spaces agree; who may use a page and how; which bytes of loaded segments read back |
| Kernel heap | `Heap` | first fit over an intrusive list: blocks disjoint and aligned, every byte accounted for |
| ZIP writer and reader | `LittleEndian`, `Zip`, `ZipReading`, `ZipRoundTrip` | exactly which archives the reader accepts and what it lists and reads in them; what the writer writes is read back |
| TCP client | `Tcp` | what is received is a prefix of the peer's stream under loss, duplication and reordering; exactly when all of it arrives |
| Scheduler | `Sched` | ids, page tables, resume frames and turn order over any run |
| Persistence | `Persist`, `PersistRoundTrip` | save and load are inverse; exactly when a crash leaves the old snapshot, and when it leaves that or nothing |

`Common` holds the shared types and powers of two.

Code that changes things step by step is a class or a method with loops, proved against a function of its inputs or its old
state; the properties are then proved of that function. Machine words are explicit: `newtype`s with overflow checked where
the source relies on there being none (`u64` and `u128` in the crypto modules), and reductions modulo a power of two where it
wraps or truncates. The build profile is the release one, so `+` on machine words wraps silently.

## Where the source does not do what it says

Each of these is proved, by an input that shows it or by the exact set of inputs that do, with the condition under which the
source does meet its promise:

- `fe_to_bytes` (kernel/src/crypto/x25519.rs:166-211) packs limbs with `|`. An element whose limb 1 exceeds 51 bits can come
  out 2^102 too small; products of canonical elements can be such. `FieldBytes.ProductCanBeTorn`, `FeToBytes`, `TornValues`.
- `align_up` (kernel/src/memory/heap.rs:106-108) overflows for heap addresses from alignment 2^31 on, and the allocator then
  returns address zero. `Heap.SoundExactlyBelow`.
- `mark_range_free` (kernel/src/memory/pmm.rs:45-51) rounds an unaligned base down, so a frame only partly usable is freed,
  and an unaligned bitmap can be marked past its end. `FrameAllocator.FreedFramesLieInside`, `Init`, `UnalignedMapCanPanic`;
  the Limine protocol aligns usable entries, and then neither happens: `AlignedMap`.
- A crash during a save (kernel/src/fs/persist.rs:117-118) can destroy the previous snapshot, although the comment there says
  that writing the superblock last commits only complete payloads. `PersistRoundTrip.CrashCanLoseOld`, `CrashIsAtomic`,
  `LeftIsOld`.
- Paths of 2^16 bytes or more are saved under a truncated length. `PersistRoundTrip.RestoresExactly`.
- The ZIP writer truncates names and counts from 2^16 on. `ZipRoundTrip.ListsBack`.
- `AddressSpace::new` copies the higher half of the active space, not of the boot space as its comment says
  (kernel/src/memory/paging.rs:179-205); a higher-half entry that is absent at that moment is never shared later.
  `AddressSpaces.SharedTooLate`, `AgreeExactlyIfJoined`.
- The comment on `next_table` (kernel/src/memory/paging.rs:63-68) says that a mapping's own flags are what restricts access.
  Below a table that a kernel mapping added, no page is for processes: `Paging.KernelMappingHides`, with the exact rights in
  `Paging.Memory.MapIn`.
- A kernel task gets the page tables active when it is spawned, not always those of the boot address space as the comment
  says (kernel/src/sched.rs:68-71, 121). `Sched.KernelTaskInProcess`, `KernelTasksShareBoot`; the kernel's own spawns
  (kernel/src/main.rs:206-209) are safe: `SpawnedBeforeTicks`.
- The cached CR3 starts at zero, so page tables in frame 0, which takes a memory map where frame 0 is usable, are not switched
  to until some task elsewhere has been. `Sched.Frame0Skipped`, `RightOnceLoaded`.
- `inflate` (kernel/src/inflate.rs:242-244) counts a bad Huffman table among what it refuses, but tables are never checked.
  `DeflateTables.CrowdedAccepted`, `DeflateRoundTrip.HeaderAccepted`.
- Segments that share a page: loading the later one loses the earlier one's bytes there (kernel/src/elf.rs:110-123).
  `ElfSegments.SharedPageIsLost`, `SurvivesExactly`.
- A WebAssembly branch does not unwind the operand stack (kernel/src/wasm.rs:407-426). `WasmUnwinding.SurplusIsKept`,
  `MachineUnwinds`, `CheckedUnwinds`.

## Model

| member | source | states |
|---|---|---|
| Leb128.ReadUleb128 | kernel/src/wasm.rs:30-45 | the loop computes `Uleb`: groups of seven bits added at 64-bit width, None when the bytes run out or the shift reaches 64 |
| Leb128.ReadSleb128 | kernel/src/wasm.rs:47-65 | the loop computes `Sleb`, sign extension of the last group included |
| Leb128.UlebRoundTripAt | kernel/src/wasm.rs:30-45 | every unsigned 64-bit value is read back from each of its encodings of up to ten bytes, padded ones included |
| Leb128.SlebRoundTripAt | kernel/src/wasm.rs:47-65 | every signed 64-bit value is read back, as its bit pattern, from each of its encodings of up to ten bytes |
| Leb128.LebReads | kernel/src/wasm.rs:30-65 | an integer is read, and the position put right behind it, if and only if its encoding ends within ten bytes and the input |
| WasmInstr.SignedDivision | kernel/src/wasm.rs:536-559 | `i32.div_s` and `i32.rem_s` trap exactly on zero and on the overflowing quotient (only the division), and otherwise give the truncated quotient and the remainder with the sign of the dividend |
| WasmInstr.WrappingOperators | kernel/src/wasm.rs:533-571 | add, sub, mul and shl are exact modulo 2^32 |
| WasmInstr.BitwiseOperators | kernel/src/wasm.rs:568-570 | bit `i` of and, or and xor is that operation on bits `i` |
| WasmOperators.Comparisons | kernel/src/wasm.rs:523-532 | the ten comparisons are the orders of the signed and of the unsigned readings: less-than is the order, greater-than its converse, the others their negations |
| WasmOperators.UnsignedDivision | kernel/src/wasm.rs:536-567 | `i32.div_u` and `i32.rem_u` are division with remainder of the unsigned readings; which error each of the four divisions by zero gives |
| WasmOperators.ShiftsLeft | kernel/src/wasm.rs:571 | bit i of the result is bit i - k of the operand, zeros below, k the low five bits of the count |
| WasmOperators.ShiftsRight | kernel/src/wasm.rs:572-573 | bit i of the result is bit i + k of the operand, filled with zeros by `shr_u` and with the sign by `shr_s` |
| WasmOperators.OperatorsReduce | kernel/src/wasm.rs:428-578 | on any operand stack a binary operator pops its right operand first and pushes its result, and so for `eqz`, `drop`, `const`, `nop` and `unreachable` |
| WasmOperators.LocalsReduce | kernel/src/wasm.rs:507-517 | which local is read or written, what is popped, and which index is refused |
| WasmOperators.Underflows | kernel/src/wasm.rs:428-437 | what too few operands give |
| WasmOperators.CallAndReturn | kernel/src/wasm.rs:439-582 | arguments come first among the locals, the others start at zero, and the result is the top of the stack |
| WasmOperators.DecodedOpcode | kernel/src/wasm.rs:285-339 | each opcode byte decodes to its instruction, and is unsupported if and only if no instruction has it |
| WasmInstr.DecodeInstr | kernel/src/wasm.rs:285-339 | the decoder computes `Decode`: one instruction and the position after it, or an error |
| WasmInstr.DecodeEncode | kernel/src/wasm.rs:285-339 | decoding the encoding of any instruction, with an immediate of up to ten LEB128 bytes and whatever follows, gives it back and stops right after it |
| WasmMachine.BuildControlMap | kernel/src/wasm.rs:351-395 | the pre-pass computes `Scan`: the stack of open blocks and the map filled at each else and end |
| WasmMachine.ExecuteOpcode | kernel/src/wasm.rs:448-578 | one turn of the interpreter loop is one step `StepOf` of the machine |
| WasmMachine.RunFunction | kernel/src/wasm.rs:439-582 | the interpreter loop is the run of the machine from the start of the body, for any number of opcodes |
| WasmCorrect.ControlMapCorrect | kernel/src/wasm.rs:351-395 | for every well-formed nested program, the pre-pass over its flat bytes gives exactly the map read off its structure: each opener to its end and else |
| WasmCorrect.ScanCode | kernel/src/wasm.rs:351-395 | the same for any piece of code anywhere in a body, under any enclosing blocks |
| WasmCorrect.Simulate | kernel/src/wasm.rs:407-578 | from any point of a body, in any frames, running the flat code of a piece is evaluating its structure and continuing with the way it exits |
| WasmCorrect.BranchOutward | kernel/src/wasm.rs:407-426 | a branch past the innermost frame is a branch one level less deep from the frames outside it |
| WasmCorrect.MachineIsStructured | kernel/src/wasm.rs:439-582 | the flat interpreter gives exactly the result or trap of the structured evaluator, for every well-formed program, arguments, locals and number of opcodes |
| WasmCorrect.MoreFuel | kernel/src/wasm.rs:448-578 | once a run has ended, allowing it more opcodes changes nothing |
| WasmCorrect.SameOutcome | kernel/src/wasm.rs:439-582 | an outcome is reached by the machine if and only if it is reached by the evaluator, and it is the only one |
| WasmUnwinding.NothingToUnwind | kernel/src/wasm.rs:407-426 | unwinding at a label changes nothing if and only if the branch finds exactly the operands the label keeps |
| WasmUnwinding.Agree | kernel/src/wasm.rs:400-426 | on a run whose branches are all level, evaluating with and without unwinding is the same |
| WasmUnwinding.MachineUnwinds | kernel/src/wasm.rs:439-582 | a call whose branches are level as far as it runs does what section 4.4.5 of the core specification asks |
| WasmUnwinding.CheckedIsLevel | kernel/src/wasm.rs:400-426 | code that passes a static count of its operands only ever takes level branches |
| WasmUnwinding.CheckedUnwinds | kernel/src/wasm.rs:439-582 | so on checked functions the interpreter unwinds, in effect, for all arguments and budgets |
| WasmUnwinding.SurplusIsKept | kernel/src/wasm.rs:400-426 | a valid function that branches with an operand to spare: unwinding gives 5, the interpreter 7 |
| BitReaders.BitReader.constructor | kernel/src/inflate.rs:31-38 | a reader starts at the first bit of its data |
| BitReaders.BitReader.TakeBits | kernel/src/inflate.rs:43-54 | takes the next `need` bits, least significant first, or fails when too few are left; fewer than eight stay buffered |
| BitReaders.BitReader.AlignToByte | kernel/src/inflate.rs:58-61 | drops exactly the rest of the current byte |
| BitReaders.BitReader.ReadBytes | kernel/src/inflate.rs:63-67 | takes the next whole bytes if they are there |
| HuffmanCode.CodesFit | kernel/src/inflate.rs:79-122 | in a code that is not over-subscribed the codes of each length fit in that many bits |
| HuffmanCode.DecodeCode | kernel/src/inflate.rs:106-122 | the bits of any used symbol's canonical code (RFC 1951, section 3.2.2), followed by anything, decode to that symbol and are consumed exactly |
| HuffmanCode.DecodeIsPrefixMatch | kernel/src/inflate.rs:106-122 | decoding yields a used symbol if and only if its code comes next in the input |
| HuffmanCode.PrefixFree | kernel/src/inflate.rs:79-122 | no code is the start of another |
| HuffmanTable.CountLengths | kernel/src/inflate.rs:79-83 | counts the symbols of each length |
| HuffmanTable.StartOffsets | kernel/src/inflate.rs:84-89 | prefix sums of the counts |
| HuffmanTable.PlaceSymbols | kernel/src/inflate.rs:90-97 | every used symbol ends up in the slot its length and rank give it |
| HuffmanTable.Construct | kernel/src/inflate.rs:79-100 | the count and symbol arrays represent the code lengths |
| HuffmanTable.Decode | kernel/src/inflate.rs:106-122 | the running-index decoder on a represented table, over-subscribed or not, is the search for a canonical code |
| Deflate.CopyMatch | kernel/src/inflate.rs:231-235 | the byte-at-a-time copy, which may read what it has just written, computes `Copy` |
| Deflate.InflateBlock | kernel/src/inflate.rs:210-240 | the symbol loop accepts and produces what the bit-string parser of a compressed block does |
| Deflate.ReadCodeLengths | kernel/src/inflate.rs:168-201 | the code-length loop with its repeat codes |
| Deflate.DynamicTables | kernel/src/inflate.rs:157-206 | the two tables of a dynamic block, or failure |
| Deflate.FixedTables | kernel/src/inflate.rs:143-155 | the fixed tables represent the lengths of RFC 1951, section 3.2.6 |
| Deflate.ReadStored | kernel/src/inflate.rs:253-262 | a stored block: aligned, its length checked against its complement, its bytes copied |
| Deflate.ReadBlock | kernel/src/inflate.rs:252-272 | one block of any type, the reserved type rejected |
| Deflate.Inflate | kernel/src/inflate.rs:245-277 | ends on every byte string, with the unread bits as measure and every index in range, and computes what the bit-string parser `StreamAt` accepts |
| DeflateTables.LengthTable | kernel/src/inflate.rs:124-130 | the lengths of section 3.2.5 of RFC 1951 in closed form: four codes to a number of extra bits, and 258 alone |
| DeflateTables.DistanceTable | kernel/src/inflate.rs:131-138 | the distances in closed form, two codes to a number of extra bits |
| DeflateTables.OrderTable | kernel/src/inflate.rs:139-141 | the order of section 3.2.7: the repeat codes, zero, then from 8 outwards |
| DeflateRoundTrip.TokensRoundTrip | kernel/src/inflate.rs:210-240 | any encodable token list under any good tables is decoded to its LZ77 expansion |
| DeflateRoundTrip.CopyIsPeriodic | kernel/src/inflate.rs:231-235 | a match of any length repeats the last `distance` bytes, also when it is longer than they are |
| DeflateRoundTrip.HeaderRoundTrip | kernel/src/inflate.rs:157-206 | any dynamic header with a good code length code and any choice of repeat codes gives back its two length tables, over-subscribed or not |
| DeflateRoundTrip.HeaderAccepted | kernel/src/inflate.rs:157-206 | a header whose symbols reach the announced number of lengths with the last one is refused exactly when that one overshoots; the tables play no part |
| DeflateRoundTrip.StoredRoundTrip | kernel/src/inflate.rs:253-262 | stored bytes come back whatever the alignment and the padding bits |
| DeflateRoundTrip.FixedTablesGood | kernel/src/inflate.rs:143-155 | the fixed code lengths are not over-subscribed |
| DeflateRoundTrip.BlockRoundTrip | kernel/src/inflate.rs:252-272 | a block of any type decodes to its expansion |
| DeflateRoundTrip.StreamRoundTrip | kernel/src/inflate.rs:245-277 | a list of blocks encoded anywhere in a bit string decodes to their expansion, earlier output included |
| DeflateRoundTrip.InflateInverts | kernel/src/inflate.rs:245-277 | packing the encoding of any block list without over-subscribed tables into bytes and inflating it gives exactly the expansion |
| DeflateDecoded.MatchStands | kernel/src/inflate.rs:220-230 | a length and distance that have been read are the encoding of a match within the format, 258 as 227 plus 31 included |
| DeflateDecoded.TokensStand | kernel/src/inflate.rs:210-240 | a symbol stream that has been accepted is the encoding of tokens that expand to its output, whatever the tables |
| DeflateDecoded.HeaderStands | kernel/src/inflate.rs:157-206 | a dynamic header that has been accepted is the encoding of its two tables, whatever its code length code |
| DeflateDecoded.StreamStands | kernel/src/inflate.rs:245-277 | every accepted stream is the encoding of some list of blocks, and its result their expansion |
| DeflateDecoded.InflateExactly | kernel/src/inflate.rs:245-277 | `inflate` gives `out` only on encodings of blocks that expand to it, and on all of those without over-subscribed tables |
| DeflateTables.CrowdedAccepted | kernel/src/inflate.rs:242-277 | a whole stream with an over-subscribed literal table that is accepted |
| Modular.ReadU64At | kernel/src/crypto/poly1305.rs:11-20 | eight little-endian bytes, zeros past the end |
| Poly1305.LimbsFromBuf17 | kernel/src/crypto/poly1305.rs:25-38 | the limbs are below 2^26 and recombine to the 17-byte number |
| Poly1305.ClampAndSplitR | kernel/src/crypto/poly1305.rs:40-54 | the limbs recombine to the clamped key half |
| Poly1305.ClampIsMask | kernel/src/crypto/poly1305.rs:40-54 | the clamped key half is the key half and-ed with the 128-bit mask of RFC 8439, section 2.5 |
| Poly1305.Rows | kernel/src/crypto/poly1305.rs:60-81 | the five rows, with their factors 5, are the product modulo 2^130-5 |
| Poly1305.CarryWrap | kernel/src/crypto/poly1305.rs:83-101 | the carry chain keeps the value modulo 2^130-5 and bounds every limb |
| Poly1305.MulMod | kernel/src/crypto/poly1305.rs:60-101 | multiplication in place modulo 2^130-5, no 64-bit overflow, limbs bounded again |
| Poly1305.AddBlock | kernel/src/crypto/poly1305.rs:113-125 | one block step of the accumulator |
| Poly1305.FinalCarry | kernel/src/crypto/poly1305.rs:127-147 | the last carry pass leaves every limb below 2^26 and the value unchanged modulo 2^130-5 |
| Poly1305.Reduce | kernel/src/crypto/poly1305.rs:149-169 | the conditional subtraction gives the canonical residue modulo 2^128 |
| Poly1305.Absorb | kernel/src/crypto/poly1305.rs:110-125 | the block loop computes `Accumulate`, the Horner form, for every message |
| Poly1305.Mac | kernel/src/crypto/poly1305.rs:108-174 | the tag is that of RFC 8439, section 2.5, for every key and message |
| Poly1305.AccumulateIsPolynomial | kernel/src/crypto/poly1305.rs:113-125 | the Horner form is the sum of blocks times powers of r modulo 2^130-5 |
| Poly1305.TagIsFormula | kernel/src/crypto/poly1305.rs:108-174 | the tag is the formula of section 2.5: the polynomial in the clamped r modulo 2^130-5, plus s, modulo 2^128 |
| Field25519.CarryReduce | kernel/src/crypto/x25519.rs:26-47 | the carry chain keeps the value modulo 2^255-19 and restores the one limb bound, without overflow or truncation |
| Field25519.FeAdd | kernel/src/crypto/x25519.rs:49-57 | exact addition modulo 2^255-19 |
| Field25519.FeSub | kernel/src/crypto/x25519.rs:62-70 | exact subtraction modulo 2^255-19, without underflow |
| Field25519.FeMul | kernel/src/crypto/x25519.rs:77-101 | exact multiplication modulo 2^255-19, no 128-bit overflow |
| Field25519.FeSquare | kernel/src/crypto/x25519.rs:103-105 | exact squaring |
| Field25519.FeMulSmall | kernel/src/crypto/x25519.rs:107-116 | exact multiplication by a constant of up to 2^56 |
| FieldBytes.FeFromBytes | kernel/src/crypto/x25519.rs:139-161 | the limbs recombine to the low 255 bits of the bytes |
| FieldBytes.SubtractP | kernel/src/crypto/x25519.rs:171-182 | the borrow chain: a difference, or a difference plus 2^255 and a borrow |
| FieldBytes.SubtractOnce | kernel/src/crypto/x25519.rs:170-188 | one conditional subtraction of the prime |
| FieldBytes.OrLimb | kernel/src/crypto/x25519.rs:196-207 | or-ing one shifted limb into the byte buffer is or-ing the numbers |
| FieldBytes.FeToBytes | kernel/src/crypto/x25519.rs:166-211 | the bytes are those of the canonical residue if and only if the element is not torn (limb 1 over 51 bits, limb 2 odd, value below the prime); a torn one comes out 2^102 too small |
| FieldBytes.NarrowIsNeverTorn | kernel/src/crypto/x25519.rs:166-211 | limbs below 2^51 always encode canonically |
| FieldBytes.SumCanBeTorn | kernel/src/crypto/x25519.rs:49-57 | two canonical elements whose sum is torn |
| FieldBytes.ProductCanBeTorn | kernel/src/crypto/x25519.rs:77-101 | two canonical elements whose product, the kind of element `fe_to_bytes` is given, is torn |
| FieldBytes.TornValues | kernel/src/crypto/x25519.rs:166-211 | a number below the prime has a torn element that stands for it if and only if it is at risk: its second base-2^51 digit is below 2^13 and the digits above are an even number, not zero |
| FieldBytes.RoundTrip | kernel/src/crypto/x25519.rs:139-211 | decoding and encoding any 32 bytes gives the least residue of their low 255 bits |
| X25519.FeInvert | kernel/src/crypto/x25519.rs:122-137 | the square-and-multiply loop computes a^(p-2) |
| X25519.CurveConstant | kernel/src/crypto/x25519.rs:22 | the constant of the code is (A - 2) / 4 for the A of the curve |
| X25519.RoundIsMontgomery | kernel/src/crypto/x25519.rs:242-260 | the integer round is doubling and differential addition as the curve v^2 = u^3 + A u^2 + u gives them |
| X25519.ScalarIsClamped | kernel/src/crypto/x25519.rs:219-226 | the scalar used is the given one with its low three bits cleared, bit 255 dropped and bit 254 set, as a number |
| X25519.LadderStep | kernel/src/crypto/x25519.rs:242-260 | one round of the ladder on field elements is one round on integers modulo p |
| X25519.RunLadder | kernel/src/crypto/x25519.rs:229-263 | all 255 rounds with their conditional swaps refine the integer ladder |
| X25519.Scalarmult | kernel/src/crypto/x25519.rs:222-267 | the field element the ladder ends with stands for X25519(k, u) of RFC 7748, section 5, for every scalar and u; the bytes are exactly that number if and only if the element is not torn, and always if the number is not at risk |
| FrameAllocator.FreedFramesLieInside | kernel/src/memory/pmm.rs:45-51 | marking a range free frees only frames wholly inside it exactly when its base is aligned or nothing is freed; it always frees all of those |
| FrameAllocator.TakenFramesTouch | kernel/src/memory/pmm.rs:53-59 | marking a range used takes exactly the frames it touches |
| FrameAllocator.BitmapAllocator.Mark | kernel/src/memory/pmm.rs:23-37 | sets or clears one bit; the counter stays the number of clear bits |
| FrameAllocator.BitmapAllocator.IsFree | kernel/src/memory/pmm.rs:39-43 | reads one bit |
| FrameAllocator.BitmapAllocator.MarkRangeFree | kernel/src/memory/pmm.rs:45-51 | exactly the frames of the range become free |
| FrameAllocator.BitmapAllocator.MarkRangeUsed | kernel/src/memory/pmm.rs:53-59 | exactly the frames of the range are taken |
| FrameAllocator.BitmapAllocator.Alloc | kernel/src/memory/pmm.rs:61-71 | hands out the free frame nearest at or after the hint, wrapping around; None exactly when no frame is free |
| FrameAllocator.ScanOrder | kernel/src/memory/pmm.rs:62-63 | the wrap-around scan looks at each frame once, in order of its distance |
| FrameAllocator.BitmapAllocator.AllocContiguous | kernel/src/memory/pmm.rs:77-102 | hands out the lowest run of that many free frames; None exactly when there is none or the count is zero |
| FrameAllocator.BitmapAllocator.FreeFrame | kernel/src/memory/pmm.rs:104-106 | puts a frame into the pool, whether it was handed out, reserved or free; panics exactly past the bitmap; the counter stays right if and only if the frame is there |
| FrameAllocator.Serve | kernel/src/memory/pmm.rs:61-106 | over any list of requests, a reserved frame stays reserved if and only if none of them returned it, and one never returned is never handed out |
| FrameAllocator.Init | kernel/src/memory/pmm.rs:118-162 | for every memory map: panics exactly when no usable region can hold the bitmap or taking the bitmap indexes past its end; otherwise exactly the frames that the usable entries free and the bitmap does not take start out free |
| FrameAllocator.AlignedMap | kernel/src/memory/pmm.rs:118-162 | on page-aligned usable entries those are exactly the frames wholly in usable memory that share no byte with the bitmap, and nothing is indexed past its end |
| FrameAllocator.UnalignedMapCanPanic | kernel/src/memory/pmm.rs:53-59 | a usable entry inside the only frame of memory takes a frame that has no bit |
| PageTree.LeafFields | kernel/src/memory/paging.rs:98 | a leaf is present and points to the frame of the address, or-ed with whatever address bits the flags carry |
| PageTree.TableFields | kernel/src/memory/paging.rs:79-82 | an entry for a fresh table is present and points to it, whatever the flags |
| PageTree.FieldIsMask | kernel/src/memory/paging.rs:12-17 | the frame field and the present bit are what the masks of the source select |
| PageTree.PathIsPage | kernel/src/memory/paging.rs:54-61 | two addresses have the same four indices if and only if they agree in bits 12 to 47 |
| PageTree.HigherHalf | kernel/src/memory/paging.rs:19-24 | the entries copied from space to space are those of addresses with bit 47 set |
| PageTree.OneWayThere | kernel/src/memory/paging.rs:136-161 | two walks that end in the same leaf took the same indices, from the same root unless the roots share that part of the higher half |
| PageTree.GrowTree | kernel/src/memory/paging.rs:69-86 | hanging in a fresh table keeps the tables a tree of distinct frames |
| PageTree.GrowWalk | kernel/src/memory/paging.rs:69-86 | and changes no walk |
| PageTree.SetLeafWalk | kernel/src/memory/paging.rs:98-127 | writing a leaf changes exactly the walks that end in it |
| PageTree.ShareWalk | kernel/src/memory/paging.rs:197-202 | copying a higher-half entry makes exactly the walks through it go as in the source |
| Paging.Memory.AllocFrame | kernel/src/memory/pmm.rs:164-166 | the frame is nobody's: neither a table nor a page of data |
| Paging.Memory.NextTable | kernel/src/memory/paging.rs:69-86 | the table an entry points to, allocated and zeroed if absent; no translation changes |
| Paging.Memory.ReachLastTable | kernel/src/memory/paging.rs:93-97 | three levels down, every table on the way present |
| Paging.Memory.MapIn | kernel/src/memory/paging.rs:90-103 | the page leads to the given frame in this space and in those that share that part of the higher half, and no other page of any space has changed; it may be written, executed and used by processes exactly as its flags and the tables already there permit, and no other page may be used otherwise than before |
| Paging.Memory.UnmapIn | kernel/src/memory/paging.rs:108-132 | only that page is removed, in this space and those that share it, with all rights to it |
| Paging.Memory.TranslateIn | kernel/src/memory/paging.rs:136-161 | the four reads are the walk `Translate` |
| Paging.Memory.NewSpace | kernel/src/memory/paging.rs:190-205 | an empty lower half, the active space's higher half with its rights, its present tables shared; every other space as before |
| Paging.Memory.CopyHigherHalf | kernel/src/memory/paging.rs:196-202 | the entry-by-entry copy |
| Paging.Memory.SwitchTo | kernel/src/memory/paging.rs:40-44 | the active space |
| PageRights.LeafPermits | kernel/src/memory/paging.rs:98 | a mapping's entry permits exactly what its flags do, whatever frame is or-ed in |
| PageRights.TablePermits | kernel/src/memory/paging.rs:79-82 | a fresh table's entry permits writing and executing, and use by processes exactly when the mapping does |
| PageRights.EnterAllows | kernel/src/memory/paging.rs:63-86 | adding a table takes away no right its entry permits, on any walk |
| PageRights.EnterMay | kernel/src/memory/paging.rs:69-86 | and gives nobody a page |
| PageRights.LeafMay | kernel/src/memory/paging.rs:98-127 | writing a leaf gives exactly the walks that end there what the tables above and the entry permit |
| PageRights.CopyRights | kernel/src/memory/paging.rs:190-205 | a new space has the rights of the active one in the higher half, and in the lower half no table that forbids anything |
| Paging.KernelMappingHides | kernel/src/memory/paging.rs:63-86 | a page mapped for processes in a part of the space where the kernel mapped one first is not for them, whatever the comment says |
| AddressSpaces.RunOps | kernel/src/memory/paging.rs:90-216 | after any run of new spaces, switches, maps and unmaps at any addresses, every space sees at every address what `View` reads off the operations alone: its own lower half, and the higher half as far as it is joined with others |
| AddressSpaces.LowerIsPrivate | kernel/src/memory/paging.rs:90-132 | mapping or unmapping in the lower half of one space changes no address of another |
| AddressSpaces.JoinedSeeAlike | kernel/src/memory/paging.rs:189-205 | spaces joined at a higher-half entry, by copying from the same table, see the same pages below it, after any run |
| AddressSpaces.AgreeExactlyIfJoined | kernel/src/memory/paging.rs:179-205 | two spaces see the same below an entry now and after everything that may follow if and only if they are joined there |
| AddressSpaces.SharedTooLate | kernel/src/memory/paging.rs:179-205 | a new space does not see what the active one maps later below an entry that was absent; mapped before, it would |
| AddressSpaces.SharedPagesAgree | kernel/src/memory/paging.rs:196-202 | spaces that share a higher-half entry see the same pages below it |
| Elf.MapPages | kernel/src/elf.rs:113-123 | fresh zeroed frames mapped one page after the other; everything else as before, also when memory runs out half-way |
| Elf.CopySegment | kernel/src/elf.rs:127-141 | the page-wise copy fills in the bytes of the file, for any misalignment |
| Elf.ReadsBack | kernel/src/elf.rs:88-144 | an address of the segment reads as its file byte, or zero |
| Elf.SmallerFits | kernel/src/elf.rs:84-87 | `filesz <= memsz`, which the comment there asks for, is enough for the file bytes to stay within the pages |
| Elf.LoadSegment | kernel/src/elf.rs:88-144 | every address of the touched pages reads as the file byte for the first `filesz` bytes and zero elsewhere, and may be used as the flags and the tables permit; no other address of any space is translated otherwise and no earlier data is written, whatever the outcome |
| ElfSegments.LoadSegments | kernel/src/elf.rs:63-83 | segments loaded one after the other: the process reads `Image`, every page as its last segment fills it, with the rights that segment gives, and nothing else has changed |
| ElfSegments.FreshProcess | kernel/src/elf.rs:100-112 | in the lower half of a new space the process may read and execute exactly the pages of its segments, and write exactly those whose last segment has the write flag |
| ElfSegments.SurvivesExactly | kernel/src/elf.rs:63-83 | a byte of a segment is read back if and only if no later segment has its page, or the last that has puts the same byte there |
| ElfSegments.SharedPageIsLost | kernel/src/elf.rs:110-123 | two segments sharing a page: the first one's byte is lost |
| Heap.FitsIsRoom | kernel/src/memory/heap.rs:60-71 | `region_fits` accepts a region exactly when the lowest aligned placement leaves nothing or room for a node behind it |
| Heap.SoundExactlyBelow | kernel/src/memory/heap.rs:60-108 | `region_fits` can be trusted on heap regions exactly for alignments below 2^31; from there on rounding wraps and it hands out address zero |
| Heap.SizeAlignFits | kernel/src/memory/heap.rs:110-116 | the size and alignment used cover the layout, hold a node, and are multiples of eight |
| Heap.SizeAlignExact | kernel/src/memory/heap.rs:110-116 | a layout is refused exactly when its padded size passes 2^63; otherwise the size used is a node or the least multiple of the alignment that covers it |
| Heap.Conservation | kernel/src/memory/heap.rs:46-116 | free, live and skipped bytes add up to the whole heap |
| Heap.TilesApart | kernel/src/memory/heap.rs:46-116 | different parts of the heap do not overlap |
| Heap.FreeListAllocator.constructor | kernel/src/memory/heap.rs:137-150 | the heap starts as one free region |
| Heap.FreeListAllocator.AddFreeRegion | kernel/src/memory/heap.rs:46-58 | pushes a node at the front; a region too small for one is dropped |
| Heap.FreeListAllocator.TakeOff | kernel/src/memory/heap.rs:85-87 | unlinks a node; the list stays linked, in order, without repetition |
| Heap.FreeListAllocator.Search | kernel/src/memory/heap.rs:74-98 | the walk finds the first region with room, and ends on every list |
| Heap.FreeListAllocator.Alloc | kernel/src/memory/heap.rs:73-99 | first fit: the block is cut from the first region on the list with room, and null comes back exactly when no free region has room |
| Heap.FreeListAllocator.Dealloc | kernel/src/memory/heap.rs:101-103 | the block's bytes become a free region at the front of the list |
| Heap.FreeListAllocator.Allocate | kernel/src/memory/heap.rs:121-124 | the new block is aligned, overlaps nothing in use, and no other block is touched; padding lost is less than the alignment; a panic exactly for sizes above 2^63 less the alignment |
| Heap.FreeListAllocator.Deallocate | kernel/src/memory/heap.rs:126-129 | exactly that block stops being in use, and all its bytes are free again |
| Heap.FreeListAllocator.ClientWrites | kernel/src/memory/heap.rs:46-58 | the owner of a block may overwrite it at will without harming the list |
| Heap.FreeListAllocator.NoOverlap | kernel/src/memory/heap.rs:46-104 | in every reachable state blocks and free regions are in range, aligned and disjoint |
| Heap.FreeListAllocator.Accounted | kernel/src/memory/heap.rs:46-104 | in every reachable state free, live and skipped bytes add up to the heap size |
| Zip.BuildStored | kernel/src/zip.rs:29-85 | the writer's two buffers and end record make the archive `Archive` |
| Zip.FindEocd | kernel/src/apk.rs:55-66 | the backward scan finds the last signature in reach |
| Zip.ListEntries | kernel/src/apk.rs:69-113 | the loop over the central directory computes `Directory`, errors included |
| Zip.ReadEntry | kernel/src/apk.rs:120-140 | stored bytes as they are, deflated ones through the inflater, other methods and malformed headers refused |
| ZipReading.LocalLayout | kernel/src/apk.rs:120-128 | every field of a local header with any values, name and extra field, at its offset in the ZIP application note, section 4.3.7 |
| ZipReading.CentralLayout | kernel/src/apk.rs:77-110 | the numbers of a directory entry, at their offsets in section 4.3.12 |
| ZipReading.CentralLayoutOn | kernel/src/apk.rs:77-110 | its lengths, attributes, place, name, extra field and comment |
| ZipReading.EndLayout | kernel/src/apk.rs:69-73 | every field of an end record with any comment, section 4.3.16 |
| ZipReading.EocdExactly | kernel/src/apk.rs:55-66 | the end record taken is the last place with the signature, room for a record and no more than a comment behind; none is found exactly if there is no such place |
| ZipReading.EndFound | kernel/src/apk.rs:55-66 | an end record is found if and only if its comment is below 2^16 bytes and hides no later signature |
| ZipReading.EntryRead | kernel/src/apk.rs:77-110 | an entry is read as it was written, and the next one is looked for behind its extra field and its comment |
| ZipReading.DirectoryRead | kernel/src/apk.rs:75-112 | a directory of any entries anywhere gives exactly their listing |
| ZipReading.ListsDirectory | kernel/src/apk.rs:69-113 | the listing of any archive whose end record is found is that of its directory, whatever methods, sizes, extra fields, comments and bytes in between |
| ZipReading.ReadsRaw | kernel/src/apk.rs:120-134 | the bytes of an entry are exactly those behind its local header, whatever its extra field |
| ZipReading.EntryExactly | kernel/src/apk.rs:77-110 | an entry is accepted if and only if one stands there, complete up to its name, with a UTF-8 name |
| ZipReading.DirectoryExactly | kernel/src/apk.rs:69-113 | an archive is accepted, with a given listing, if and only if its end record leads to as many entries as it counts, one after the other, that make that listing |
| ZipReading.RawExactly | kernel/src/apk.rs:120-134 | bytes are given out for an entry if and only if they are as many as it says and stand behind a local header at its place |
| ZipReading.ReadsDeflated | kernel/src/apk.rs:129-140 | what any compressor deflated into blocks with good tables is inflated to what they stand for |
| ZipRoundTrip.LocalWritten | kernel/src/zip.rs:37-50 | what the writer puts into each local header, checksum, sizes, version and zeros, at the offsets of the format |
| ZipRoundTrip.CentralWritten | kernel/src/zip.rs:51-68 | what it puts into each directory entry, the place of the local header among it |
| ZipRoundTrip.EndWritten | kernel/src/zip.rs:71-84 | what it puts into the end record, which is found at once whatever the files contain |
| ZipRoundTrip.ListsBack | kernel/src/apk.rs:69-113 | an archive below 4 GiB lists exactly its files, in order, if and only if there are fewer than 2^16 and every name is shorter than 2^16 bytes |
| ZipRoundTrip.ReadsBack | kernel/src/apk.rs:120-134 | reading any file of the archive gives its exact bytes |
| ZipRoundTrip.Extract | kernel/src/apk.rs:69-140 | writing, listing and reading back returns the very list of files |
| Tcp.ParseBuilt | kernel/src/net/tcp.rs:52-99 | what one side builds, the other side's `handle` reads: port, flags, sequence number and payload |
| Tcp.ParseWire | kernel/src/net/tcp.rs:82-99 | any segment of RFC 793, options and control bits whatever, is read as its port, flags, sequence number and the data behind its header |
| Tcp.ControlBits | kernel/src/net/tcp.rs:24-26 | FIN, SYN and ACK are the bits of section 3.1 of RFC 793 |
| Tcp.SynAckExactly | kernel/src/net/tcp.rs:160-180 | a handshake completes if and only if, at one of the polls, the last segment for our port is a SYN-ACK |
| Tcp.OnePlace | kernel/src/net/tcp.rs:216-218 | in a stream below 2^32 bytes a sequence number names one place |
| Tcp.AcceptFaithful | kernel/src/net/tcp.rs:213-239 | any genuine segment, early, late or repeated, keeps what was received a prefix of the stream, the acknowledgement its length, and nothing acknowledged that had not arrived |
| Tcp.DrainFaithful | kernel/src/net/tcp.rs:210-240 | so does a whole drain, whatever the network does |
| Tcp.InOrderArrives | kernel/src/net/tcp.rs:210-240 | a network that delivers in order, one segment a poll, gets the whole stream across and its end seen |
| Tcp.FeedCompletes | kernel/src/net/tcp.rs:210-240 | a connection waiting for chunk k gets to the end if and only if the chunks from k on come by in order, whatever comes between |
| Tcp.DrainCompletes | kernel/src/net/tcp.rs:210-240 | so a drain sees the end of the stream if and only if the segments the polls leave in the inbox contain all chunks still missing, in order; it then holds all of them |
| Tcp.Network.Handle | kernel/src/net/tcp.rs:82-99 | the one-slot inbox: the last segment for our port wins |
| Tcp.Network.PollOnce | kernel/src/net/tcp.rs:157-166 | a poll delivers everything that has arrived |
| Tcp.Connect | kernel/src/net/tcp.rs:138-183 | a SYN goes out; a connection comes about if and only if it could be sent and one of the polls brings a SYN-ACK, the first of which it starts right after, with an ACK sent and nothing received |
| Tcp.TcpStream.Send | kernel/src/net/tcp.rs:189-202 | our sequence number advances by what was sent, if it was |
| Tcp.TcpStream.DrainAvailable | kernel/src/net/tcp.rs:210-240 | the polling loop computes `Drain` and keeps the stream faithful |
| Tcp.TcpStream.ReadExact | kernel/src/net/tcp.rs:245-258 | n bytes come back if and only if some number of drains below the limit leaves them in the buffer: exactly the next n of the stream, at once if they are there; otherwise all drains have been made |
| Tcp.TcpStream.ReadToEnd | kernel/src/net/tcp.rs:262-270 | exactly what the drains up to the limit or the end of the stream bring is handed over, in order; once the peer has closed, that is the whole stream |
| Sched.StepInv | kernel/src/sched.rs:94-264 | every step from every state keeps: unique ids, idle never removed, trap stack that of the front task, and CR3 what the cache says unless that is still zero |
| Sched.RunInv | kernel/src/sched.rs:94-264 | so does every run |
| Sched.RunsInItsTables | kernel/src/sched.rs:94-264 | over every run in which no process has its page tables in frame 0, CR3 and trap stack are those of the front task |
| Sched.RightOnceLoaded | kernel/src/sched.rs:189-264 | over every run from boot, with processes in frame 0 or not: CR3 is that of the front task if and only if some switch so far was to a task that is not in frame 0 |
| Sched.Frame0Skipped | kernel/src/sched.rs:227-229 | a first process in frame 0 runs in the boot page tables |
| Sched.KernelTasksShareBoot | kernel/src/sched.rs:68-71 | all kernel tasks have the boot page tables throughout a run if and only if each was made while those were active |
| Sched.ActiveIsFront | kernel/src/sched.rs:227-230 | the boot page tables are active exactly while a task that has them is at the front |
| Sched.SpawnedBeforeTicks | kernel/src/main.rs:206-209 | runs that spawn kernel tasks only before the first tick, as the kernel does, are safe |
| Sched.KernelTaskInProcess | kernel/src/sched.rs:94-124 | a run in which a kernel task gets a process's page tables |
| Sched.AfterTick | kernel/src/sched.rs:197-221 | a tick saves the interrupted frame in the running task, now last, and leaves the others |
| Sched.ResumesWhereItLeft | kernel/src/sched.rs:94-264 | over every run from boot, each task's resume frame is the one at its last preemption, or its first |
| Sched.Nearer | kernel/src/sched.rs:189-264 | a step moves every task one place nearer to the front if it is a tick or an exit, and leaves it where it is otherwise |
| Sched.RunsInTurn | kernel/src/sched.rs:189-264 | a task at queue position k runs after exactly k ticks or exits, however many tasks are spawned |
| Sched.FrameInStack | kernel/src/sched.rs:94-98 | a first frame lies at the highest place below the stack top that is aligned to 16 and has room for its 22 words |
| Sched.Scheduler.constructor | kernel/src/sched.rs:80-91 | the empty queue at boot |
| Sched.Scheduler.SpawnTask | kernel/src/sched.rs:94-124 | a kernel task at the back of the queue, in the page tables active now |
| Sched.Scheduler.SpawnUserTask | kernel/src/sched.rs:131-159 | a process at the back of the queue, in its own page tables |
| Sched.Scheduler.SwitchTo | kernel/src/sched.rs:227-230 | page tables are loaded only if the cached CR3 differs |
| Sched.Scheduler.OnTimerTick | kernel/src/sched.rs:189-233 | the tick handler is the step `Ticked` and returns the frame of the task now at the front |
| Sched.Scheduler.ExitCurrent | kernel/src/sched.rs:239-264 | the exit call is the step `Exited`; idle cannot exit, so a frame is always returned |
| Persist.WriteSectors | kernel/src/fs/persist.rs:71-77 | sector by sector, zero-padded, up to the moment the power fails |
| Persist.SectorsHold | kernel/src/fs/persist.rs:71-77 | as many sectors of 512 bytes as the data needs, and no more |
| Persist.ReadSectors | kernel/src/fs/persist.rs:79-87 | the sectors one after the other, zeros where the disk has none |
| Persist.Serialize | kernel/src/fs/persist.rs:97-109 | the files one after the other |
| Persist.Save | kernel/src/fs/persist.rs:91-118 | the disk after a save cut short at any point: payload sectors first, superblock last |
| Persist.Load | kernel/src/fs/persist.rs:131-191 | restores what the superblock vouches for, or leaves the tree alone |
| Persist.RestoreFiles | kernel/src/fs/persist.rs:161-185 | the parse loop ends on every payload and writes the files `Restored` says |
| PersistRoundTrip.SaveIsAccepted | kernel/src/fs/persist.rs:91-159 | a completed save is exactly the payload the next load accepts, for every length, old disk contents notwithstanding |
| PersistRoundTrip.CrashKeepsSuperblock | kernel/src/fs/persist.rs:111-118 | after a crash before the superblock is written, only bytes with the old snapshot's length and checksum are accepted |
| PersistRoundTrip.CrashIsAtomic | kernel/src/fs/persist.rs:111-118 | for every disk, save and moment: the old snapshot stays loadable if and only if its bytes are still on the disk, and the crash is atomic if and only if they are or the bytes there have another checksum |
| PersistRoundTrip.LeftIsOld | kernel/src/fs/persist.rs:71-77 | its bytes are still there if and only if every sector overwritten so far begins with what the old one had |
| PersistRoundTrip.CrashCanLoseOld | kernel/src/fs/persist.rs:117-118 | two one-file trees: a save of the second, cut short, destroys the snapshot of the first, under every checksum that tells them apart |
| PersistRoundTrip.FileReadBack | kernel/src/fs/persist.rs:103-183 | a file is read back, wherever it stands, if and only if its path is below 2^16 and its contents below 2^32 bytes |
| PersistRoundTrip.FileExactly | kernel/src/fs/persist.rs:161-183 | a file is found in a payload, malformed ones included, if and only if its record is there in full with a UTF-8 path |
| PersistRoundTrip.RestoresExactly | kernel/src/fs/persist.rs:97-185 | a tree below 4 GiB is restored exactly if and only if every path is shorter than 2^16 bytes |
| PersistRoundTrip.Reboot | kernel/src/fs/persist.rs:91-191 | saving, restarting with an empty tree and loading |

## Left out

- RunFunction: counts executed opcodes and stops after a given number, because a WebAssembly loop need not end; every theorem about it holds for every number.
- Init: takes the ends of memory-map entries to be below 2^64.
- Alloc: requires an alignment below 2^31; `SoundExactlyBelow` says what the allocator does from there on.
- Allocate: requires an alignment below 2^31, the condition proved exact by `SoundExactlyBelow`.
- LoadSegment: requires a segment of at most 2^36 pages that ends below 2^64, and file bytes that end within its pages or before an unmapped one (`filesz <= memsz` is enough, by `SmallerFits`); more would be written into whatever is mapped behind.
- LoadSegments: requires the file bytes of each segment to end within its pages.
- FeMulSmall: constants above 2^56; the carry leaves 64 bits from about 2^60 on, and the source only ever passes 121665.
- MachineUnwinds: one direction only; a branch that is not level need not change the result.
- HeaderAccepted: requires a code length code that is not over-subscribed; of headers with another, `HeaderStands` says what is accepted, but not which are.
- ListsBack: requires an archive below 4 GiB and UTF-8 names; beyond, offsets are truncated and what is read depends on the contents.
- RestoresExactly: requires a payload below 4 GiB; beyond, the superblock holds a truncated length.
- DrainFaithful: requires a stream shorter than 2^32 bytes, below which sequence numbers are unambiguous.
- DrainCompletes: is about a peer that cuts its stream the same way each time; one that cuts it differently on retransmission may be missed.
- Parsing a WebAssembly module, checking the argument count of an export, and multi-function calls.
- WebAssembly code that is not the flattening of a nested program: the machine is modelled on it, the theorem is not about it.
- The rest of the ELF loader: the header checks and the fields of program headers.
- Bitwise `|` of disjoint fields in the limb and LEB128 readers is written as addition, and masks and shifts as remainders and quotients by powers of two; the or-s that can overlap (page-table entries, `fe_to_bytes`) are modelled as or.
- The sign extension `-(1 << 63)` of a ninth signed LEB128 byte overflows in a debug build; the wrapped value is modelled.
- The last `else` of the final subtraction in `mac` is never taken; the model asserts so.
- CRC-32, UTF-8 validity and TCP checksums are parameters: any function will do.
- Hardware: AHCI commands and their failures, TLB invalidation, register frames beyond their address, interrupts and locks.
- Physical memory is typed, as frames of table entries or of bytes, and the heap's as nodes; overlapping the two views is excluded by the invariants, not representable.
- Directories of the RAM file system, which a save does not record.
- Spin limits are a number of polls given as a parameter; the TCP client's port numbers and initial sequence numbers are parameters too.
- Huge pages and cache flags of page-table entries; who may use what after the ELF loader has failed half-way.
- Elliptic-curve facts beyond the formulas of a round (`RoundIsMontgomery`): that the ladder is scalar multiplication on the curve, and that a^(p-2) is an inverse.
