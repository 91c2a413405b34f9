# Verified models of an 8086 decoder and simulator, a JSON reader, and a block profiler

The repository collects programs written along a performance course. Three of them are modelled here in Dafny 4.11,
and the contracts of the members listed under Model are checked by the verifier.

**The 8086 decoder library and the simulator.** The library scans a table of sixteen opcode patterns, fills one
decoded-instruction record from the bytes that follow, and returns how many bytes it used. `Grammar` says what the
library takes the bytes to mean, and `Manual` exactly where that departs from the encoding tables of the Intel 8086
Family User's Manual (October 1979), chapter 4, and to what; `OpcodeTable` and `Decoder` are the table and the imperative
parser, proved against it. `Stream` is the loop that tiles a buffer, `Encoder` a specification-level assembler that turns
the repository's assemble/decode/reassemble test into a theorem, and `Canonical` its converse. `Legacy` is the older
hand-written decoder, compared with the library in `LegacyAgreement` and with the manual in `LegacyPrinting`.

The simulator keeps code and data in one 64 KB memory, aliases register halves and implements MOV, ADD, SUB, CMP, JNZ and
LOOP: `Machine` is what one instruction does to the state, `Simulator` the class with the mutable arrays and flags,
`Runs` the theory of runs of any stepping machine. On top of these come invariants and arithmetic laws
(`MachineFacts`), the whole effect of each instruction (`Execution`), the effect of the bytes the manual assigns to it
(`Conformance`), stability of self-hosted code (`Stability`), the meaning of LOOP (`Loops`), and one whole program from
its bytes to its final memory (`Listing52`, and `Listing52Run` for the class).

**The JSON generator and reader.** `JsonPrinter` is the printing loop; `JsonParser` is the reader with its cursor and
two fixed buffers, `JsonStore` its linked list or preallocated array. `JsonScan` and `JsonRows` say what reading a text
yields, `JsonRoundTrip` that reading undoes printing, and `JsonLimits` what fits the buffers.

**The block profiler.** `Profiler` is the pair of START and END macros on the global array, `ProfilerStack` the call
stack they thread through parent indices, `ProfilerTicks` what the tick counters mean, `ProfilerBytes` what the byte
counts and start times are, and `ProfilerForest` the proof that these theorems are about the same traces.

Run `dafny verify dfyconfig.toml` in this directory.

## How to read it

Code that updates state is a class or a method with loops; its `ensures` equates the new state with a function of the
old one (`Flatten(Decode(..))`, `Step`, `BlockEnd`, `Parse`), and the laws are lemmas about those functions. `byte`,
`word`, `int16` and `ticks` are the C integer types with their wrap-around written out as `U8`, `U16`, `S16`, `U64`.
Reads past a buffer and writes past an array, which the C code does not check, are explicit outcomes
(`ReadsPastEnd`, `OutsideMemory`, `UnterminatedValue`, `PastArray`); a fatal `ERROR` is a halted outcome.

Where long runs are involved, lemmas take the step function as a parameter (`Simulates(step, n)`, `SelfDelimiting(decode)`)
so that the proof uses its laws and not its body; `Machine.StepperSimulates` and `Stream.DecodeIsSelfDelimiting`
discharge the hypothesis, and `Listing52.SimulatorComputesSum` and `Loops.SimulatorLoop` state the results outright.

## What the code does differently from its documentation

- MOV from an effective address adds the displacement of the destination, which is zero there, and moves and adds read
  and write one byte even for word forms (simulator_8086/simulator.c:545-583, 424-474, 624-703). `MachineFacts.LoadIsRightIff`,
  `DirectLoadIsRightIff`, `AddLoadIsRightIff`, `StoreIsRightIff`, `ImmediateStoreIsRightIff`, `DirectStoreIsRightIff`,
  `AddStoreIsRightIff` and `AddRegisterIsRightIff` say exactly when the value such an instruction stores is the one its
  encoding asks for, in every state; `WordLoadReadsOneByte` is an input.
- ADD with a memory operand sets no flags (simulator_8086/simulator.c:354-398, 405-474). `AddLoadIsCompleteIff` and
  `AddStoreIsCompleteIff` say exactly when such an ADD nevertheless leaves sum and flags as asked; none has the right flags
  in every state (`AddLoadFlagsAreNeverRight`, `AddStoreFlagsAreNeverRight`, `AddRegisterFlagsAreNeverRight`), and 02 07 on
  zeros is an input (`ZeroSumKeepsZClear`).
- With mod=00 and r/m=110 the memory operand is the source whatever the D bit says (libdecoder_8086/libdecoder.c:733-747);
  A2h keeps AX as its source although W=0 (libdecoder_8086/libdecoder.c:883-886); 80h to 83h with a selector the library
  does not know are decoded with no operation (libdecoder_8086/libdecoder.c:56-65, 644-649); and the library ignores the
  middle field of immediate moves and its top bit in segment moves, where the manual fixes them.
  `Manual.MeaningIsManual` says that the decoded operation, operands and length are those of the manual's tables exactly
  outside these five cases; `DirectStoreIsReversed`, `ByteStoreTakesAx`, `UnknownSelector`, `UnusedSegmentField` and
  `UnusedMoveField` say what is decoded there instead, and `DepartureExamples` and `OutsideExamples` give inputs. The
  assembler emits none.
- The decoded record does not keep every width: A2h, and 82h on memory, read back as words. `Canonical.WidthIsKept` is the
  exact condition, `Canonical.WidthIsLost` a pair of byte strings with one record.
- The flags of 8-bit arithmetic come from the uncut 16-bit value (simulator_8086/simulator.c:119-134). `NarrowSumFlags`,
  `NarrowDifferenceFlags` and `ByteCompareAndJump` give the exact conditions for every source an 8-bit instruction can have
  (`DecodedByteSource`); `EqualBytesCompareUnequal` is the input 3C FF, where equal bytes compare as different.
- The older decoder prints `byte` for C7h with mod=00 (decoder_8086/decoder.c:371, 391-416), and the library prints no size
  for 81h and 82h on memory (libdecoder_8086/libdecoder.c:903-940). `LegacyAgreement.FullAgreement` accounts for both.
- The profiler comment says recursive calls are counted for averages (rdtsc/rdtsc_utils.h:24-31); `count` counts outermost
  activations only. A block re-entered through another block destroys the stack (`StartSpellsIffDirect`), and a child
  that runs twice is overcharged (`ChildrenAreExact`).
- The older decoder mis-sizes and mis-prints some forms (decoder_8086/decoder.c:322-354, 363-486, 514-781).
  `LegacyPrinting` says what it prints for every form, and `LegacyPrinting.PrintedIsManualIff` exactly when that is right.
- `extract_until` always returns false (data_gen/json_data_parser.c:172), and a row that misses a field is accepted or
  rejected depending on uninitialised flags (`RowAccepted`).

## Model

| member | source | states |
|---|---|---|
| `Words.MaskOpcode` | libdecoder_8086/libdecoder.c:1004 | the four opcode masks, applied bit by bit, drop the low bits of a byte |
| `Words.MaskField` | libdecoder_8086/libdecoder.h:39-50 | the field masks, applied bit by bit, keep the low bits of a byte |
| `Words.MaskRegister` | simulator_8086/simulator.c:51-73 | the 16-bit AND with each register mask, bit by bit, keeps the whole register, its low byte or its high byte |
| `Isa.FlattenFaithful` | libdecoder_8086/libdecoder.h:141-169 | the decoded record determines the instruction it stands for |
| `OpcodeTable.TableMatchesGrammar` | libdecoder_8086/instruction_bitstream.h:508-525 | a byte matches row i exactly when the grammar puts it in the format of that row, so the rows are disjoint |
| `OpcodeTable.MatchDescribes` | libdecoder_8086/instruction_bitstream.h:47-525 | the flags of a matching row are those of the byte's format; no row matches exactly when the byte starts no instruction |
| `Decoder.DecodedInstruction.Reset` | libdecoder_8086/libdecoder.c:202-227 | every field is back at its blank value |
| `Decoder.IsDst16Bit` | libdecoder_8086/libdecoder.c:407-447 | the destination's width, for every operand but data; its sanity errors are unreachable |
| `Decoder.ExtractDisplacement` | libdecoder_8086/libdecoder.c:449-491 | one byte sign-extended or two bytes, little end first |
| `Decoder.ExtractDirectAddress` | libdecoder_8086/libdecoder.c:493-524 | the 16-bit address in the next two bytes |
| `Decoder.ExtractData` | libdecoder_8086/libdecoder.c:526-568 | the immediate: a word, or a byte sign- or zero-extended |
| `Decoder.ExtractFields` | libdecoder_8086/libdecoder.c:606-681 | the flags and fields of the first two bytes are those the format has |
| `Decoder.DirectAccess` | libdecoder_8086/libdecoder.c:722-748 | mod=00 r/m=110: operands and bytes as the grammar says |
| `Decoder.RegisterMode` | libdecoder_8086/libdecoder.c:749-793 | mod=11: both operands as the grammar says |
| `Decoder.MemoryMode` | libdecoder_8086/libdecoder.c:794-852 | base, index and displacement operands as the grammar says |
| `Decoder.ParseOperands` | libdecoder_8086/libdecoder.c:683-893 | the operand part of the record is that of the grammar, for every format |
| `Decoder.ParseData` | libdecoder_8086/libdecoder.c:894-965 | the immediate and the byte/word decorators are those of the grammar |
| `Decoder.ParseShort` | libdecoder_8086/libdecoder.c:967-989 | operation and offset of the jumps and loops |
| `Decoder.ParseInstruction` | libdecoder_8086/libdecoder.c:570-995 | the filled record and the byte count are those of the reference decoding |
| `Decoder.FindRow` | libdecoder_8086/libdecoder.c:1002-1008 | the first matching row of a table, or none |
| `Decoder.DecodeBitstream` | libdecoder_8086/libdecoder.c:997-1013 | returns 0 exactly on unknown bytes and leaves the record alone; otherwise record and length are those of the reference decoding |
| `GrammarFacts.LengthBounds` | libdecoder_8086/libdecoder.h:25-33 | every instruction takes two to six bytes |
| `GrammarFacts.LengthFromTwoBytes` | libdecoder_8086/libdecoder.c:570-995 | the length depends on the first two bytes only |
| `GrammarFacts.DecodeReadsOnlyItsBytes` | libdecoder_8086/libdecoder.c:570-1013 | decoding depends on the instruction's own bytes only |
| `GrammarFacts.PrefixFree` | libdecoder_8086/libdecoder.c:570-1013 | no encoding is a proper prefix of another |
| `GrammarFacts.DecodedIsWellFormed` | libdecoder_8086/libdecoder.c:323-325 | every decoded instruction is well formed: operand types set, no data destination, at most one memory operand, equal widths; so the sanity errors cannot happen |
| `Stream.DecodeIsSelfDelimiting` | libdecoder_8086/libdecoder.c:570-1013 | the reference decoding has what tiling needs |
| `Stream.TileConcat` | libdecoder_8086/decoder.c:114-133 | the decoding of a++b is that of a followed by that of b, when a tiles |
| `Stream.NextTile` | libdecoder_8086/decoder.c:114-133 | one turn of the loop extends the tiling, or shows that the buffer is no sequence of instructions |
| `Stream.DecodeStream` | libdecoder_8086/decoder.c:114-133 | the loop ends; it completes exactly when the buffer is a sequence of instructions and then has printed exactly those; each error exit says where and why |
| `Encoder.PlaceRoundTrip` | libdecoder_8086/libdecoder.c:683-852 | an encoded mod-r/m byte with its displacement decodes to the same operand, for every 16-bit displacement |
| `Encoder.RoundTrip` | libdecoder_8086/run_tests.sh:25-47 | for every supported instruction and any bytes after it, decoding its encoding gives the instruction back and consumes exactly the encoding |
| `Encoder.ReassembledBytes` | libdecoder_8086/run_tests.sh:25-47 | reassembling what was decoded reproduces the bytes |
| `Canonical.DecodedIsEncodable` | libdecoder_8086/libdecoder.c:570-1013 | every decoded instruction with a known operation can be assembled again |
| `Canonical.CanonicalIsShortest` | libdecoder_8086/libdecoder.c:570-1013 | the assembler's encoding of a decoded instruction is never longer than the bytes it came from |
| `Canonical.Canonicalization` | libdecoder_8086/run_tests.sh:25-47 | decode, reassemble, assemble, decode: same operation, operands and read-back width, in at most as many bytes, for every decoded instruction with a known operation |
| `Canonical.WidthIsKept` | libdecoder_8086/libdecoder.c:862-965 | the width read back from a decoded instruction is that of its encoding if and only if it is neither A2h nor 82h on memory |
| `Canonical.WidthIsLost` | libdecoder_8086/libdecoder.c:903-931 | a byte form and a word form that decode to one record |
| `Manual.PlaceIsManual` | libdecoder_8086/libdecoder.c:683-852 | the mod, r/m and displacement fields are read as the manual's tables say |
| `Manual.MeaningIsManual` | libdecoder_8086/libdecoder.c:570-995 | the decoded operation, operands and length are those the manual's tables give, stated without the library's functions, if and only if the instruction is none of: a store through mod=00 r/m=110, A2h, 80h-83h with another selector than ADD, SUB, CMP, a segment move with field 4-7, an immediate move with a nonzero middle field |
| `Manual.DepartureExamples` | libdecoder_8086/libdecoder.c:733-747 | 88 06, 8C 1E and A2 with an address: stores decoded as loads, and AL decoded as AX |
| `Manual.OutsideExamples` | libdecoder_8086/libdecoder.c:644-665 | 80 0F 05, 8E E0 and C6 0F 05 are outside the tables' subset but are decoded |
| `Manual.OpcodesAreManual` | libdecoder_8086/instruction_bitstream.h:47-525 | the first bytes 000000dw, 001010dw, 001110dw, 100010dw and 100000sw select ADD, SUB, CMP, MOV and the immediate group with those bits |
| `Manual.OtherOpcodes` | libdecoder_8086/instruction_bitstream.h:508-525 | exactly the listed ranges of first bytes start an instruction of the subset |
| `Manual.DecodeConforms` | libdecoder_8086/libdecoder.c:570-995 | jumps, and instructions on registers, segment registers and immediates, are always decoded to what their bytes encode |
| `Manual.DirectStoreIsReversed` | libdecoder_8086/libdecoder.c:733-747 | every store of a register or segment register through mod=00 r/m=110 is decoded as the load with the same two operands, operation and length |
| `Manual.ByteStoreTakesAx` | libdecoder_8086/libdecoder.c:883-893 | A2h is decoded as a store of AX, instead of AL, to the encoded address |
| `Manual.UnknownSelector` | libdecoder_8086/libdecoder.c:644-649 | 80h-83h with a selector outside the subset keep place, immediate and length and have no operation |
| `Manual.UnusedSegmentField` | libdecoder_8086/libdecoder.c:655-659 | a segment move with middle field 4-7 is decoded as the one with four less |
| `Manual.UnusedMoveField` | libdecoder_8086/libdecoder.c:636-659 | an immediate move is decoded as the one with middle field zero |
| `Legacy.ExtractDisplacement` | decoder_8086/decoder.c:172-215 | what the older decoder reads as displacement |
| `Legacy.ExplicitExtractData` | decoder_8086/decoder.c:262-320 | what it reads as sign-extended immediate |
| `Legacy.ProcessMovAccumulator` | decoder_8086/decoder.c:322-361 | text and length of the accumulator moves |
| `Legacy.ProcessMovImmediateToRegisterMemory` | decoder_8086/decoder.c:363-486 | text with its size keyword and length of immediate moves to register or memory |
| `Legacy.ProcessMovImmediateToRegister` | decoder_8086/decoder.c:488-512 | text and length of immediate moves to a register |
| `Legacy.ProcessRegMemOp` | decoder_8086/decoder.c:514-781 | text and length of register/memory and segment forms |
| `Legacy.ProcessImmediateToRegMem` | decoder_8086/decoder.c:783-925 | text with its size keyword and length of immediate arithmetic, or the unknown selector |
| `Legacy.ProcessImmediateAccumulator` | decoder_8086/decoder.c:927-973 | text and length of immediate arithmetic on the accumulator |
| `Legacy.ProcessJump` | decoder_8086/decoder.c:975-1078 | operation and offset of the jumps |
| `Legacy.DecodeOne` | decoder_8086/decoder.c:1181-1275 | the chain of comparisons recognises the same first bytes as the library, and gives the specified text and length |
| `LegacyAgreement.LengthAgreement` | decoder_8086/decoder.c:363-479 | both decoders consume the same length if and only if the instruction is not one of the listed mis-sized forms |
| `LegacyAgreement.ValueAgreement` | decoder_8086/decoder.c:172-252 | where the lengths agree, so do displacement and immediate |
| `LegacyAgreement.PlaceAgreement` | decoder_8086/decoder.c:514-781 | the memory or register operand is printed right exactly outside the listed mis-printed forms |
| `LegacyAgreement.SizeAgreement` | decoder_8086/decoder.c:391-451 | the sizes printed for memory with an immediate agree if and only if the library prints one and the older decoder does not print `byte` for a word |
| `LegacyAgreement.KeywordAgreement` | libdecoder_8086/libdecoder.c:903-955 | the `byte` and `word` keywords are the same, letter by letter, exactly outside the listed forms |
| `LegacyAgreement.FullAgreement` | decoder_8086/decoder.c:783-918 | same operation, operands, size and length if and only if the instruction is neither mis-sized nor mis-printed by the older decoder nor left without a size by the library |
| `LegacyAgreement.WordMovePrintedAsByte` | decoder_8086/decoder.c:391-409 | C7 07 2C 01: same operands and length, different size |
| `LegacyPrinting.LengthDifference` | decoder_8086/decoder.c:172-215 | a mis-sized instruction is one byte too short, or, for a word immediate behind an 8-bit displacement, one too long |
| `LegacyPrinting.MovePrinted` | decoder_8086/decoder.c:514-781 | the printed line of every register/memory form and segment move from its bytes and the manual's tables: which side the field is on, a one-byte address where W=0 or a segment register moves, and a bracketed register as base of a segment move with displacement |
| `LegacyPrinting.ImmediateMovePrinted` | decoder_8086/decoder.c:363-486 | the printed line of C6h and C7h: displacement sized by W, brackets around a register, a base for a direct address, the size keyword |
| `LegacyPrinting.GroupPrinted` | decoder_8086/decoder.c:783-925 | the printed line of 80h-83h, or the refusal of a selector |
| `LegacyPrinting.AccumulatorPrinted` | decoder_8086/decoder.c:322-354 | A0h/A1h load and A2h/A3h store AX, at an address of one byte where W=0 |
| `LegacyPrinting.RegisterImmediatePrinted` | decoder_8086/decoder.c:488-512 | the printed line of immediates to a register or the accumulator |
| `LegacyPrinting.PrintedIsManualIff` | decoder_8086/decoder.c:1181-1275 | the older decoder prints what the manual's tables encode and consumes its length if and only if the instruction is neither mis-sized nor mis-printed nor one of those where the library departs from the manual |
| `Simulator.MergeIsMasking` | simulator_8086/simulator.c:234-241 | the masks and shifts of a register write replace exactly the named half |
| `Simulator.GetEaClocks` | simulator_8086/simulator.c:165-225 | the effective-address clocks of the manual's table for every base; its error exits are unreachable |
| `Simulator.Simulator.constructor` | simulator_8086/simulator.c:42-46 | memory, registers and flags start at zero |
| `Simulator.Simulator.ReadRegister` | simulator_8086/simulator.c:228-232 | the named part of the 16-bit register |
| `Simulator.Simulator.WriteRegister` | simulator_8086/simulator.c:234-241 | the machine after writing the named part |
| `Simulator.Simulator.EvaluateFlags` | simulator_8086/simulator.c:119-134 | Z and S are set or cleared from a 16-bit value |
| `Simulator.Simulator.ParseMovInst` | simulator_8086/simulator.c:488-715 | MOV does what the machine specification says, or ends in the fatal error |
| `Simulator.Simulator.ParseAddInst` | simulator_8086/simulator.c:308-486 | so does ADD, with a register or one memory byte as destination |
| `Simulator.Simulator.ParseSubCmpInst` | simulator_8086/simulator.c:243-306 | so do SUB and CMP |
| `Simulator.Simulator.ParseJmpInst` | simulator_8086/simulator.c:717-750 | so do JNZ and LOOP |
| `Simulator.Simulator.StepOnce` | simulator_8086/simulator.c:889-938 | fetch, decode, execute is one step of the machine, or its fault |
| `Simulator.Simulator.Simulate` | simulator_8086/simulator.c:886-946 | the loop goes through a trace of the step function and stops past the program, in a fault, or at its bound |
| `Runs.RunAdds` | simulator_8086/simulator.c:889-946 | a run of a+b steps is a run of b steps after a run of a steps |
| `Runs.TraceIsRun` | simulator_8086/simulator.c:889-946 | the trace of the imperative loop is the run of the step function |
| `Runs.CountedLoop` | simulator_8086/simulator.c:728-744 | a loop whose passes each lower a 16-bit counter by one makes exactly that many passes, 65536 from zero |
| `MachineFacts.ReadAfterWrite` | simulator_8086/simulator.c:228-241 | a write stores the value cut to the register's width and changes exactly the names that overlap it |
| `MachineFacts.HalvesMakeWhole` | simulator_8086/simulator.c:51-92 | AX = 256*AH + AL in every state, and likewise BX, CX, DX |
| `MachineFacts.FlagsOfValue` | simulator_8086/simulator.c:113-134 | Z, S and all other bits after a flag evaluation |
| `MachineFacts.RunKeepsInv` | simulator_8086/simulator.c:886-946 | on every run of every program half-register slots stay zero and flags are none, Z or S, never both |
| `MachineFacts.ArithmeticOfSource` | simulator_8086/simulator.c:243-352 | ADD, SUB and CMP of a register or immediate are one sum or difference with the source number modulo 65536 |
| `MachineFacts.SumResult` | simulator_8086/simulator.c:308-352 | the stored result is dst+src modulo the destination width; names that do not overlap it keep their value |
| `MachineFacts.DifferenceResult` | simulator_8086/simulator.c:243-306 | the stored result is dst-src modulo the destination width |
| `MachineFacts.CmpIsSubWithoutResult` | simulator_8086/simulator.c:243-306 | CMP sets the flags SUB would and changes nothing else |
| `MachineFacts.WideFlags` | simulator_8086/simulator.c:119-134 | for 16-bit operands Z and S describe the stored result |
| `MachineFacts.DecodedByteSource` | libdecoder_8086/libdecoder.c:894-965 | every source of a decoded 8-bit addition or subtraction lies between -128 and 255 |
| `MachineFacts.NarrowSumFlags` | simulator_8086/simulator.c:317-352 | for 8-bit sums with any such source Z and S describe the stored byte if and only if the sum is not 256 and is negative or has bit 7 clear |
| `MachineFacts.NarrowDifferenceFlags` | simulator_8086/simulator.c:248-300 | for 8-bit differences Z is right if and only if the true difference is not 256, S if and only if it fits eight signed bits or is at least 256 |
| `MachineFacts.CompareAndJump` | simulator_8086/simulator.c:717-727 | after CMP, JNZ jumps exactly when the destination differs from the source as extended to 16 bits |
| `MachineFacts.ByteCompareAndJump` | simulator_8086/simulator.c:717-727 | after an 8-bit CMP, JNZ does what the 8-bit operands ask for if and only if their true difference is not 256 (or the jump goes nowhere) |
| `MachineFacts.EqualBytesCompareUnequal` | simulator_8086/simulator.c:274-294 | 3C FF with AL = FF: equal bytes, Z clear |
| `MachineFacts.LoadIsRightIff` | simulator_8086/simulator.c:545-583 | MOV from an effective address loads what the encoding asks for, byte or word, in every state, if and only if the destination is a byte register and the displacement is zero |
| `MachineFacts.DirectLoadIsRightIff` | simulator_8086/simulator.c:532-544 | MOV from a direct address does if and only if the destination is a byte register |
| `MachineFacts.AddLoadIsRightIff` | simulator_8086/simulator.c:354-398 | ADD from memory stores the sum the encoding asks for if and only if the destination is a byte register; the flags are the next rows |
| `MachineFacts.AddLoadFlags` | simulator_8086/simulator.c:354-398 | it keeps the flags, so Z and S describe the stored sum if and only if they already did |
| `MachineFacts.AddLoadIsCompleteIff` | simulator_8086/simulator.c:354-398 | it does all the encoding asks for, sum and flags, if and only if it stores the right sum and the old flags fit it |
| `MachineFacts.AddLoadFlagsAreNeverRight` | simulator_8086/simulator.c:354-398 | for no operands are its flags right in every state |
| `MachineFacts.ZeroSumKeepsZClear` | simulator_8086/simulator.c:354-398 | 02 07 on zeros: right sum, Z clear, and a JNZ behind it jumps |
| `MachineFacts.StoreIsRightIff` | simulator_8086/simulator.c:640-684 | MOV of a register to an effective address stores what the encoding asks for if and only if it is a byte register |
| `MachineFacts.ImmediateStoreIsRightIff` | simulator_8086/simulator.c:685-703 | MOV of an immediate to an effective address does if and only if it is a byte move |
| `MachineFacts.DirectStoreIsRightIff` | simulator_8086/simulator.c:624-638 | MOV of an immediate to a direct address does if and only if it is a byte move |
| `MachineFacts.AddStoreIsRightIff` | simulator_8086/simulator.c:452-474 | ADD of an immediate to an effective address stores the sum the encoding asks for if and only if it is a byte addition or adds zero |
| `MachineFacts.AddRegisterIsRightIff` | simulator_8086/simulator.c:425-451 | ADD of a register to an effective address stores the sum the encoding asks for if and only if it is a byte register |
| `MachineFacts.AddStoreIsCompleteIff` | simulator_8086/simulator.c:404-474 | an ADD to memory does all the encoding asks for, sum and flags, if and only if it stores the right sum and the old flags fit it |
| `MachineFacts.AddStoreFlagsAreNeverRight` | simulator_8086/simulator.c:404-474 | for no address and immediate are its flags right in every state |
| `MachineFacts.AddRegisterFlagsAreNeverRight` | simulator_8086/simulator.c:404-451 | nor for any address and register |
| `MachineFacts.WordLoadReadsOneByte` | simulator_8086/simulator.c:545-583 | 8B 07 with 0 and 1 in memory loads 0, not 256 |
| `Execution.AddressOfPair` | simulator_8086/simulator.c:640-653 | the four two-register bases add exactly the registers they are named after and the displacement, modulo 65536 |
| `Execution.AddressOfSingle` | simulator_8086/simulator.c:640-653 | the four one-register bases add that register and the displacement |
| `Execution.AddressClocks` | simulator_8086/simulator.c:165-226 | 5 clocks for one register, 7 or 8 by the pair for two, and 4 more for a displacement |
| `Execution.MoveToRegister` | simulator_8086/simulator.c:496-583 | MOV to a register from each kind of source: the value of the named register, segment register or immediate cut to the width, or one byte of memory; registers that do not overlap it, memory, flags and segment registers stay; the clocks |
| `Execution.MoveToSegment` | simulator_8086/simulator.c:589-623 | MOV to a segment register stores the 16-bit source in that one and changes nothing else |
| `Execution.MoveToMemory` | simulator_8086/simulator.c:624-708 | MOV to memory stores the low byte of its source at the one address and changes nothing else; the clocks |
| `Execution.AddToRegister` | simulator_8086/simulator.c:316-352 | ADD stores the sum of the two named operands modulo the width, with flags, frame and clocks |
| `Execution.SubtractFromRegister` | simulator_8086/simulator.c:243-306 | SUB stores the difference, with flags and frame |
| `Execution.CompareRegister` | simulator_8086/simulator.c:243-306 | CMP sets the flags of the difference and changes nothing else |
| `Execution.AddFromMemory` | simulator_8086/simulator.c:354-398 | ADD from memory adds the byte at the address, keeps the flags, and takes four more clocks at an odd address |
| `Execution.AddToMemory` | simulator_8086/simulator.c:404-474 | ADD to memory adds the named register or immediate to the byte at the address, keeps the flags, and takes eight more clocks at an odd address |
| `Execution.JumpIfNotZero` | simulator_8086/simulator.c:717-727 | JNZ changes the instruction pointer only, by length and, if Z is clear, displacement |
| `Execution.LoopCountsDown` | simulator_8086/simulator.c:728-744 | LOOP lowers CX, sets the flags from it, jumps unless it became zero, and changes nothing else |
| `Conformance.RegisterMove` | simulator_8086/simulator.c:499-511 | from bytes to state: if the bytes at ip encode MOV r, q by the manual's tables, one step leaves the value of q in r and everything that does not overlap r as it was |
| `Conformance.ImmediateMove` | simulator_8086/simulator.c:521-531 | the same of MOV r, immediate |
| `Conformance.MoveIntoSegment` | simulator_8086/simulator.c:589-623 | the same of MOV sr, r |
| `Conformance.MoveFromSegment` | simulator_8086/simulator.c:512-520 | the same of MOV r, sr |
| `Conformance.Addition` | simulator_8086/simulator.c:316-352 | the same of ADD r with a register or immediate, with the flags of word results |
| `Conformance.Subtraction` | simulator_8086/simulator.c:243-306 | the same of SUB |
| `Conformance.Comparison` | simulator_8086/simulator.c:243-306 | the same of CMP |
| `Conformance.JumpTaken` | simulator_8086/simulator.c:717-727 | the same of JNZ |
| `Conformance.LoopTaken` | simulator_8086/simulator.c:728-744 | the same of LOOP |
| `Conformance.StepOutcome` | simulator_8086/simulator.c:886-946 | a step exits if and only if ip is past the program, and meets each fault if and only if the first byte is unknown, the instruction overhangs the memory, or the operand combination is not implemented |
| `Stability.StoreTargetIsWritten` | simulator_8086/simulator.c:640-708 | a store changes exactly one byte, at the stated address |
| `Stability.NoStoreTarget` | simulator_8086/simulator.c:488-715 | every other instruction leaves memory alone |
| `Stability.CodeStability` | simulator_8086/simulator.c:886-946 | if no step of a run stores below n+5, the run, exit included, equals the run over the program decoded once from the initial memory; nothing is asked of the bytes behind the program |
| `Loops.SupportedExactly` | simulator_8086/simulator.c:900-938 | an instruction executes, in every state, exactly when its operand combination is one of those implemented |
| `Loops.ExecKeepsCx` | simulator_8086/simulator.c:488-715 | instructions that do not name CX, CL or CH leave it alone |
| `Loops.LoopEffect` | simulator_8086/simulator.c:728-744 | LOOP lowers CX modulo 65536, sets Z exactly when it reached zero, and jumps otherwise |
| `Loops.LoopRunsCxTimes` | simulator_8086/simulator.c:717-749 | a straight-line body that keeps CX and stores nothing into the code runs exactly CX times, 65536 when CX is 0, then falls through with CX = 0 and Z set |
| `Loops.SimulatorLoop` | simulator_8086/simulator.c:717-749 | the same of the simulator's own step on the loaded memory |
| `Listing52.FetchLine` | simulator_8086/tests/listing_0052_memory_add_loop.asm:19-36 | every line of the program is fetched and decoded from its bytes |
| `Listing52.FillLoop` | simulator_8086/tests/listing_0052_memory_add_loop.asm:21-27 | the first loop stores each even offset at base plus offset |
| `Listing52.SumLoop` | simulator_8086/tests/listing_0052_memory_add_loop.asm:29-36 | the second loop adds them up |
| `Listing52.ProgramComputesSum` | simulator_8086/tests/listing_0052_memory_add_loop.asm:19-36 | the program's final state for every base and length, from the laws of the step function |
| `Listing52.SimulatorComputesSum` | simulator_8086/tests/listing_0052_memory_add_loop.asm:19-36 | for every even n >= 2 and every base b behind the code with b+n <= 65536 the simulator halts at ip 0x23 with SI = n, BX the sum of s mod 256 over even s < n modulo 65536, and memory changed at the even offsets only; and for any larger number of turns |
| `Listing52Run.RunListing52` | simulator_8086/simulator.c:886-946 | the simulator class, run on that memory with room for 6+2n+5(n/2) instructions, exits at ip 0x23 in that state |
| `JsonScan.ScanIsLeftmost` | data_gen/json_data_parser.c:132-144 | the greedy search succeeds if and only if the pattern is a subsequence, and stops just after the leftmost embedding |
| `JsonParser.Parser.AdvanceUntil` | data_gen/json_data_parser.c:116-130 | moves just past the first target or to the end; cursor plus remaining is conserved |
| `JsonParser.Parser.FindString` | data_gen/json_data_parser.c:132-144 | moves as the greedy search does |
| `JsonParser.Parser.ExtractUntil` | data_gen/json_data_parser.c:148-173 | the buffer holds exactly the text before the target, NUL-padded, or the text did not fit; the result is always false |
| `JsonParser.Parser.ParseName` | data_gen/json_data_parser.c:206-224 | reads an item name up to its colon, or says why not |
| `JsonParser.Parser.ParseValue` | data_gen/json_data_parser.c:226-237 | reads the value text up to the terminator of its position and converts it |
| `JsonParser.Parser.ParseItems` | data_gen/json_data_parser.c:205-261 | reads up to four items into the numbers and found flags |
| `JsonParser.Parser.ParseRow` | data_gen/json_data_parser.c:193-265 | reads the next row, whatever the flags held, or reports the missing items |
| `JsonParser.Parser.ParseAndStore` | data_gen/json_data_parser.c:202-299 | and appends it to the storage, unless the array is full |
| `JsonParser.Parser.ParseFile` | data_gen/json_data_parser.c:175-301 | the storage ends up holding exactly the rows the text denotes, in both modes; each error is the one specified |
| `JsonStore.Storage.Append` | data_gen/json_data_parser.c:268-298 | the contents grow by the row at the end, in list and in array form; only a full array refuses |
| `JsonStore.Storage.Acyclic` | data_gen/json_data_parser.c:275-297 | the nodes of the list are pairwise different |
| `JsonStore.Storage.CalculateAverage` | data_gen/json_data_parser.c:303-356 | both forms give the left fold of the distances over the contents, their number and the quotient; only an empty list is an error |
| `JsonRows.ArrayReadsWhatListReads` | data_gen/json_data_parser.c:268-298 | the array mode reads what the list mode reads if and only if the array has room; otherwise it writes past it |
| `JsonRoundTrip.RowAccepted` | data_gen/json_data_parser.c:193-266 | a row of four items is accepted if and only if each field is named or its flag was set by accident; named once each, its value is the row's |
| `JsonRoundTrip.FileRoundTrip` | data_gen/json_data_parser.c:175-301 | every file of the grammar, in any item order and with any gaps that do not contain the next token's character, is read as its rows in order, whatever the uninitialised variables held |
| `JsonPrinter.Generate` | data_gen/data_gen.c:244-296 | the printing loop emits header, rows separated by commas, and footer |
| `JsonPrinter.PrintedIsFile` | data_gen/data_gen.c:244-296 | what is printed belongs to the grammar |
| `JsonPrinter.PrintedRoundTrip` | data_gen/data_gen.c:284-296 | reading a generated file gives back its rows |
| `JsonPrinter.EstimateSufficesIff` | data_gen/json_data_parser.c:364-368 | a generated file has 30n+13 bytes plus its values, and the estimate is at least n if and only if the values have at least 71n-99 characters |
| `JsonPrinter.PreallocationSuffices` | data_gen/json_data_parser.c:364-368 | with values of at least 18 characters the file has at least 102n+13 bytes and the array mode reads it without writing past the array |
| `JsonPrinter.ShortValuesOverflow` | data_gen/json_data_parser.c:268-274 | with shorter values the array mode writes past the array |
| `JsonLimits.NameLimits` | data_gen/json_data_parser.c:206-224 | a name overruns its buffer if and only if it has more than 8 characters; otherwise x0, y0, x1 and y1 are that field and every other name is an error |
| `JsonLimits.ValueLimits` | data_gen/json_data_parser.c:226-237 | a value overruns its buffer if and only if it has more than 64 characters and is unterminated if and only if it has 64; otherwise it is what the conversion makes of it, up to a comma in the first three places and a brace in the fourth |
| `JsonLimits.ValueAtEnd` | data_gen/json_data_parser.c:148-173 | the same of a value that ends with the file |
| `JsonLimits.ValueWithNul` | data_gen/json_data_parser.c:233 | a NUL hides the rest of a value |
| `JsonLimits.HeaderErrors` | data_gen/json_data_parser.c:181-191 | which error a file that ends in its header meets |
| `JsonLimits.GeneratedRoundTrip` | data_gen/data_gen.c:244-296 | any number of rows of coordinates printed as `%3.16f` prints them is read back, in list mode and in array mode with the estimated array; no buffer size is assumed |
| `JsonLimits.SampleValue` | data_gen/json_data_parser.c:100 | the longest such text has 21 characters |
| `JsonLimits.PrintedText` | data_gen/data_gen.c:244-296 | the literal text of files with no, one and two rows |
| `Profiler.Globals.TagDataBlockStart` | rdtsc/rdtsc_utils.h:32-46 | the START macro on the global array |
| `Profiler.Globals.TagBlockEnd` | rdtsc/rdtsc_utils.h:51-65 | the END macro on the global array, with 64-bit wrap-around |
| `ProfilerStack.StackInvariant` | rdtsc/rdtsc_utils.h:32-65 | after every well-bracketed trace with only direct re-entry, the parent indices spell the open calls with adjacent duplicates collapsed, and each recursion counter is the multiplicity minus one |
| `ProfilerStack.BalancedReturns` | rdtsc/rdtsc_utils.h:51-65 | a balanced trace ends with index -1 and all recursion counters zero |
| `ProfilerStack.ChainSpellsStack` | rdtsc/rdtsc_utils.h:38-42 | following parents from the profile index visits exactly the stack and ends at -1 |
| `ProfilerStack.StartSpellsIffDirect` | rdtsc/rdtsc_utils.h:32-46 | a START leaves pointers that spell some stack if and only if the block is not open or is the innermost one |
| `ProfilerStack.IndirectRecursionMisreports` | rdtsc/rdtsc_utils.h:32-65 | a balanced trace A(B(A)) ends inside B with A overcharged |
| `ProfilerTicks.EndEffect` | rdtsc/rdtsc_utils.h:51-65 | an END adds to its own total and its parent's child time, at the outermost activation only |
| `ProfilerTicks.ForestEffect` | rdtsc/rdtsc_utils.h:32-65 | on every such trace and any clock, totals, counts and child times grow by the sums over the calls, modulo 2^64 |
| `ProfilerTicks.TotalsAreExact` | rdtsc/rdtsc_utils.h:51-54 | on a monotone clock a block's total is the time in its outermost activations and its count is their number |
| `ProfilerTicks.ChildTimeWithin` | rdtsc/rdtsc_utils.h:55-58 | the time in the direct children of a block fits in the block's own time |
| `ProfilerTicks.ChargedVersusChildTime` | rdtsc/rdtsc_utils.h:55-58 | what is charged is at least the true child time, and equal to it if and only if no child runs again |
| `ProfilerTicks.ChildrenAreExact` | rdtsc/rdtsc_utils.h:55-58 | hence `children_ticks` is the time in direct children, and at most the own total, exactly without repeated children |
| `ProfilerTicks.RepeatedChildIsOvercharged` | rdtsc/rdtsc_utils.h:55-58 | a child called twice makes the child time exceed the caller's total |
| `ProfilerBytes.BlocksRecallEntry` | rdtsc/rdtsc_utils.h:32-65 | at every point of such a trace a block's byte count is that of its last outermost START, or zero, and its start time is that of the START while it is open and zero otherwise |
| `ProfilerForest.TracesAreForests` | rdtsc/rdtsc_utils.h:32-65 | balanced, direct-only, monotone traces are exactly the event sequences of admissible, timed call forests |

## Left out

- Encoder.RoundTrip: the assembler reads an immediate without a printed size as a word when the destination is memory. An external assembler rejects such a line, so for 81h on memory the round trip holds of this assembler and not of the one the test script runs.
- Encoder.ReassembledBytes: rests on the same reading of an immediate without a size.
- Canonical.Canonicalization: instructions with an unknown operation selector (80h to 83h with another selector than ADD, SUB, CMP) have no name to assemble and are excluded; the width that comes back is the one the record keeps.
- Simulator.Simulator.Simulate: the C loop has no bound and may run forever; the method stops after `maxSteps` instructions, and its trace says that it did. The laws about runs hold for every number of steps.
- Decoder.DecodeBitstream: bytes beyond the end of the buffer are outside the model; the C decoder reads them, here the caller sees `ReadsPastEnd` instead.
- Decoder.ParseInstruction: mnemonic and name strings of the record, including the lookup of `MAX_INST`'s name for an unknown operation selector, are not kept.
- JsonParser.Parser.ParseValue: `sscanf` is an arbitrary function from text to an optional number; a value of exactly 64 characters, which `sscanf` would read past the buffer, is the outcome `UnterminatedValue`.
- JsonPrinter.PrintedRoundTrip: numbers are the texts they print as, so loss of precision in printing `%3.16f` is not modelled.
- JsonLimits.GeneratedRoundTrip: that `printf` turns every coordinate into a sign, up to three digits, a point and 16 decimals is taken from its format; `printf` itself is not modelled.
- JsonPrinter.EstimateTotalEntries: exact arithmetic; the source divides in single-precision floating point.
- JsonStore.Storage.CalculateAverage: the distance, the addition and the division are arbitrary functions, not floating point.
- Profiler.BlockStart: block names are not kept, and the recursion counter is an unbounded integer where the source has an `int`.
- Legacy: the 4096-byte chunks the older decoder reads and the exact spelling of its text; one instruction's bytes and operands are compared.
- Command lines, file input and output, `printf` and verbose logging, memory dumps.
- NASM itself, and the printer's text form of an instruction; the assembler here is a specification.
- The 8086's carry, parity and overflow flags, segmentation, word-sized memory operands and other conditional jumps, which the simulator does not implement.
- The haversine formula, random generation, timers, page-fault counters and the benchmark programs.
- Failing `malloc` calls.
