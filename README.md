# A verified model of a small MIPS simulator

The simulator (`main.rs`) loads a program of 32-bit instruction words and
runs it on a machine with three parts: 32 signed 32-bit registers, a
program counter holding a byte address, and a sparse data memory that maps
addresses to words. Each cycle does three things. It fetches the word at
`pc / 4`. It decodes the word into one of three instruction forms (register,
immediate, jump) by its top six bits, with fields cut out by `get_bits`.
Then it executes the word and adds 4 to the pc. The run stops at the first
cycle whose pc lies past the last word.

The model has seven modules:

- `Bits` (bits.dfy): the integer model. It has `u32`/`i32` subset types,
  two's-complement reinterpretation, wrap-around modulo 2^32, shifts, and
  `&`, `|` and `^` defined bit by bit through the reference function
  `Bitwise`.
- `Faults` (faults.dfy): the reasons a run fails, and a `Result` type.
- `Fields` (fields.dfy): `get_bits`, the field layout table of
  `get_inst_seg`, and `read_imm`.
- `Decoder` (decoder.dfy): `construct_inst` as `Decode`. `Encode` packs the
  fields back into a word; it is the partner against which `Decode` is
  proved.
- `Engine` (engine.dfy): the machine state as a value, with these
  functions:
  - `ExecR`, `ExecI` and `ExecJ`: the three `exucute` implementations;
  - `Step`: one cycle (`Vm::exucute`);
  - `Run`: the run loop, bounded by a number of cycles (the fuel).
- `Properties` (properties.dfy): what the engine guarantees.
- `Simulator` (vm.dfy): the `Vm` object. Its register file is an `array`
  updated in place. Its methods are proved to leave the object in the
  state the `Engine` functions compute.

Arithmetic wraps at 32 bits, as a release build of the simulator behaves.
Where the simulator panics, the model reports a `Failed` status and leaves
the state as it was before the failing instruction.

These quirks of the code are modelled as written:

- JR sets `pc = regs[rs] - 4`, so the next fetch is from `regs[rs]`.
- J and JAL set `pc = ad` without scaling it, so the next fetch is from
  `ad + 4`.
- BEQ and BNE add `4 + im`, with the immediate neither sign-extended nor
  scaled.
- Register 0 is an ordinary, writable register.
- In MIPS, SRL is a logical shift. This simulator shifts an `i32`, which
  Rust does arithmetically (the sign bit is copied in), and the model
  follows the code.
- A program of 2^30 words or more never halts. Every pc a `u32` can hold
  addresses a word inside such a program, so the halting test never holds:
  the run fails at some word or runs forever. When the pc reaches
  0xFFFF_FFFC, a release build wraps it to 0, and in a debug build the
  increment `pc += 4` panics.

## Model

| member | source | states |
|---|---|---|
| Fields.GetBitsExtracts | main.rs:101-103 | the shift pair in `get_bits` yields `(inst / 2^start) mod 2^length`, which is below `2^length` |
| Bits.Shl32Value | main.rs:101-103 | `x << k` on a `u32` is `x * 2^k` reduced modulo 2^32 (bits shifted out are lost) |
| Bits.Shr32Value | main.rs:101-103 | `x >> k` on a `u32` is `x / 2^k` rounded down |
| Fields.FieldValues | main.rs:105-121 | each segment of the layout table (op 26/6, rs 21/5, rt 16/5, rd 11/5, sh 6/5, fn 0/6, im 0/16, ad 0/26) is the word divided by 2^start, modulo 2^width |
| Fields.Bit15 | main.rs:307-309 | the test `x << 16 >> 31 == 0` holds exactly when bit 15 of a 16-bit immediate is clear |
| Fields.ComplementLowHalf | main.rs:311 | `(x \| 0xFFFF0000) ^ 0xFFFFFFFF` is `0xFFFF - x` for a 16-bit `x` |
| Fields.ReadImmSignExtends | main.rs:307-317 | `read_imm` is 16-bit two's-complement sign extension: `x` when bit 15 is clear, `x - 65536` when it is set, always in [-32768, 32767] |
| Fields.ReadImmExamples | main.rs:307-317 | 0x0001 gives 1, 0x7FFF gives 32767, 0xFFFF gives -1, 0x8000 gives -32768 |
| Decoder.Decode | main.rs:123-154 | a decoded instruction has every field within its width and an opcode of its own form; a failure is always `UnknownOpcode` of the word's opcode field (when decoding fails is stated by `DecodeClassifies`) |
| Decoder.DecodeClassifies | main.rs:123-154 | the form depends on the opcode alone, each way round: register form iff opcode 0; jump form iff 2 or 3; immediate form iff one of the nine listed opcodes; failure iff none of these. The decoded opcode is the word's top six bits |
| Decoder.DecodeEncode | main.rs:123-154 | decoding the packing of any decodable instruction gives that instruction back |
| Decoder.EncodeDecode | main.rs:123-154 | packing the fields of any decoded word gives the word back: decoding loses no bit |
| Bits.ShrI32 | main.rs:195-198 | SRL's `>>` on an `i32` is `x / 2^sh` rounded towards minus infinity, and keeps the sign |
| Bits.NotIsMinusOneMinus | main.rs:187-190 | `!x` on an `i32` is `-1 - x` |
| Bits.AndAtMost | main.rs:243-246 | the bitwise AND of two `n`-bit values is at most its first operand |
| Bits.OrAtLeast | main.rs:255-258 | the bitwise OR of two `n`-bit values is at least its first operand |
| Engine.ExecR | main.rs:168-222 | a successful register-form instruction leaves 32 registers; its effects are stated by the `Properties` lemmas below |
| Engine.ExecI | main.rs:232-282 | a successful immediate-form instruction leaves 32 registers; its effects are stated by the `Properties` lemmas below |
| Engine.ExecJ | main.rs:290-304 | a successful jump leaves 32 registers; its effects are stated by `Properties.JumpStep` |
| Engine.Execute | main.rs:66 | a successful instruction of any form leaves 32 registers; its effects are stated by `Properties.ExecuteFailures` and the per-form lemmas below |
| Engine.Step | main.rs:60-70 | a cycle leaves 32 registers; its effects are stated by `Properties.StepOutcome` |
| Engine.Run | main.rs:35-39 | a bounded run executes at most `fuel` instructions, and exactly `fuel` when it is still running at the end |
| Properties.ExecuteFailures | main.rs:168-304 | a decoded instruction fails iff it is a register-form instruction with an unknown function code (`UnknownFunction`), or a load from an address never stored to (`UnwrittenMemory` of that address); the catch-all arms of the other two forms are unreachable |
| Properties.StepOutcome | main.rs:60-70 | a cycle halts iff `pc / 4` is at least the program length, and then changes nothing; a cycle runs iff the word at the pc decodes and executes without error, and then its state is the executed one with 4 (mod 2^32) added to the pc the instruction left; a failing cycle changes nothing and reports the decoder's fault, or else the instruction's |
| Properties.RunPastEnd | main.rs:60-63 | a run started with the pc past the last word halts at once, unchanged, having executed nothing |
| Properties.EmptyProgramHalts | main.rs:60-63 | the empty program halts at the first cycle |
| Properties.LongProgramNeverHalts | main.rs:60-63 | for a program of at least 2^30 (and fewer than 2^32) words, no cycle halts, whatever the state |
| Properties.LongProgramRunNeverHalts | main.rs:35-39 | a run of such a program never ends by halting, for any fuel: it fails or is still running |
| Properties.SequentialExecutes | main.rs:168-282 | an arithmetic, logical, compare or store instruction succeeds and leaves the pc alone |
| Properties.SequentialStep | main.rs:60-70 | a cycle executing such a word runs and moves the pc to the next word |
| Properties.SequentialAdvances | main.rs:60-70 | every cycle starting at a sequential word `k` moves the pc to word `k + 1` |
| Properties.AllSequential | main.rs:60-70 | in a program made only of sequential words, every word advances to the next |
| Properties.RunAdvance | main.rs:35-39 | a run whose first cycle advances takes one step more than the run from the next state, and ends the same way |
| Properties.StraightLineRun | main.rs:35-39 | from word `at` of a straight-line program, the run halts after exactly `length - at` instructions, with the pc at `4 * length`, iff the fuel exceeds that count; with less fuel it is still running |
| Properties.StraightLineAdvance | main.rs:35-39 | the inductive step of `StraightLineRun`: one word that advances, then the rest of the program |
| Properties.StraightLineHalts | main.rs:35-39 | a program of N sequential words, run from the initial machine, halts after exactly N instructions with the pc at 4N, and has not halted after N cycles |
| Properties.RegisterWriteFrame | main.rs:168-282 | an instruction that writes a register changes only that register (`rd` or `rt`), not the pc, not memory |
| Properties.RegisterWriteStep | main.rs:60-70 | the cycle executing a register-writing instruction adds exactly 4 to the pc and leaves memory alone |
| Properties.RFormResults | main.rs:171-218 | the value written: ADD/ADDU and SUB/SUBU are `rs ± rt` modulo 2^32 and exact when no overflow occurs; AND/OR are the bitwise operations; NOR is `-1 - (rs \| rt)`; SLL is `rt * 2^sh` modulo 2^32; SRL is `rt / 2^sh` rounded down; SLT writes 1 iff `rs < rt` and 0 iff not |
| Properties.IFormResults | main.rs:235-265 | ADDI/ADDIU add the sign-extended immediate modulo 2^32; ANDI and ORI use the zero-extended immediate, so ANDI's result lies in [0, im] and ORI's result read as unsigned is at least im; SLTI writes 1 iff `rs` is below the sign-extended immediate and 0 iff not |
| Properties.RegisterZeroIsWritable | main.rs:235-238 | `ADDI $0, $0, 5` from the initial machine leaves 5 in register 0 |
| Properties.JumpRegisterStep | main.rs:207-210 | after a JR cycle the pc is exactly `regs[rs]`, and nothing else has changed |
| Properties.JumpRegisterExample | main.rs:207-210 | a JR through a register holding 200 makes the next fetch from 200 |
| Properties.JumpStep | main.rs:293-300 | after a J or JAL cycle the pc is `ad + 4`, and memory is unchanged. J changes no register. JAL changes only register 31, which gets the address after the jump |
| Properties.BranchStep | main.rs:247-254 | after a BEQ/BNE cycle the pc is `pc + 8 + im` (mod 2^32) when the condition holds and `pc + 4` when it does not; registers and memory are unchanged |
| Properties.BranchExample | main.rs:247-250 | a BEQ with immediate 8 at pc 100 makes the next fetch from 116 when taken and from 104 when not |
| Properties.StoreWordFrame | main.rs:267-270 | SW writes `rt` at the effective address and adds only that address; registers, pc and every other address are unchanged |
| Properties.StoreThenLoad | main.rs:267-278 | a load from the address a store just wrote reads the stored value into `rt` and changes nothing else |
| Properties.LoadReads | main.rs:271-275 | a load from a written address, `rs` plus the sign-extended immediate, puts the stored word into `rt` and changes nothing else |
| Properties.LoadUnwrittenFails | main.rs:271-278 | a cycle loading from an address never written fails with `UnwrittenMemory` of that address and changes nothing |
| Properties.LoadBeforeStoreFails | main.rs:271-278 | from the initial machine every load fails, because nothing has been stored |
| Simulator.Vm.constructor | main.rs:52-59 | a new machine holds the program, every register 0, pc 0 and an empty memory |
| Simulator.Vm.ExecR | main.rs:168-222 | updating the object in place gives the state `Engine.ExecR` computes; an unknown function code fails with the object unchanged |
| Simulator.Vm.ExecI | main.rs:232-282 | updating the object in place gives the state `Engine.ExecI` computes; a load from an unwritten address fails with the object unchanged |
| Simulator.Vm.ExecJ | main.rs:290-304 | updating the object in place gives the state `Engine.ExecJ` computes |
| Simulator.Vm.Execute | main.rs:66 | dispatching on the instruction's form gives the state `Engine.Execute` computes |
| Simulator.Vm.Step | main.rs:60-70 | one cycle on the object reports the status `Engine.Step` computes and leaves the object in the state it computes |
| Simulator.Vm.Run | main.rs:35-39 | the loop on the object ends with the status, state and instruction count that `Engine.Run` computes for the same fuel |

Some definitions carry no contract of their own, and lemmas state what they compute:
- `Fields.GetBits` (main.rs:101-103) is stated by `Fields.GetBitsExtracts`.
- `Fields.GetInstSeg` (main.rs:105-121) is stated by `Fields.FieldValues`.
- `Fields.ReadImm` (main.rs:307-317) is stated by `Fields.ReadImmSignExtends`.
- `Engine.Init` (`Vm::new`, main.rs:52-59) is stated by `Simulator.Vm.constructor`, `Properties.LoadBeforeStoreFails` and `Properties.StraightLineHalts`.
- `Engine.WordAt` (`InstSpace::word_at`, main.rs:84-86) is the fetch whose word `Properties.StepOutcome` describes as `prog[pc / 4]`.

## Left out

- `main` is not modelled: argument handling, the usage message and the final printing of registers and memory (main.rs:6-44) are I/O.
- `InstSpace::parse` and `InstSpace::new` are not modelled: reading the program file and parsing hexadecimal lines (main.rs:78-98) are I/O. The model takes the program as a sequence of words.
- The run loop is unbounded, because a jump can loop forever. `Engine.Run` and `Simulator.Vm.Run` stop after `fuel` cycles and report `Running` when the fuel runs out.
- Debug-build overflow panics are not modelled. Each of the following wraps modulo 2^32 instead, as a release build does:
  - the `i32` additions and subtractions of ADD, ADDU, SUB, SUBU, ADDI and ADDIU (main.rs:173-205, 237-241);
  - the address computation of SW and LW (main.rs:269, 273);
  - `pc += 4` (main.rs:67);
  - JR's `- 4` (main.rs:209);
  - JAL's `pc + 4` (main.rs:299);
  - the taken branch's `pc += 4 + im` (main.rs:249, 253).
- The panics are not modelled as process aborts. An unknown opcode, an unknown function code, an unhandled opcode and a load of unwritten memory each end the run with a `Failed` status, and the state stays as it was before the instruction.
- The length conversion `prog.len().try_into().unwrap()` is modelled as the fault `ProgramTooLong` for programs of 2^32 words or more.
- Properties.StraightLineHalts: assumes `4 * length < 2^32`, that is, fewer than 2^30 words. Longer programs are accepted by the simulator, but for them the halting property is false: the pc wraps before it passes the last word, as `Properties.LongProgramNeverHalts` states. The same bound holds for `Properties.StraightLineRun` and its helpers.
- `get_inst_seg`'s panic for an unknown segment name cannot occur: segments are the enumeration `Fields.Field`, not strings.
- `Fields.GetBits` requires `1 <= length` and `start + length <= 32`; other arguments make Rust's shift amount 32 or more. Every call site uses the layout table's values, which meet this.
- `Box<dyn Inst>`, the trait object that dispatches to the three forms, is modelled as the datatype `Decoder.Inst` with three variants.
- `&`, `|` and `^` are given by a bit-by-bit reference function rather than by machine words. Their properties are proved from that definition.
