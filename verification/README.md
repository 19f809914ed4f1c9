# Verified models of the eBPF tool chain and its bridge tools

This project models, in Dafny, the parts of the repository whose correctness is hardest
to see by reading, and proves what they are for.

**The eBPF tool chain.** `Cbpf` is the classic BPF interpreter and `Ebpf` the ubpf
interpreter; both are loops refined from a step function. `Converter` compiles the first
language to the second in three passes (selection, prefix sums, relocation).
`CompilerCorrect` proves that the conversion preserves meaning for every program and
packet, through a simulation relation (A is R0, X is R6, scratch word k is the stack word
at R10 - 4(k + 1), the classic pc is the start of a group). The code does not preserve
meaning for every instruction; `Exactness` proves exactly for which ones it does.
`Opcodes` ties both classic programs to the published opcode numbers, and `Memory` says
byte by byte what the eBPF machine's loads and stores do.
`Validator` proves when the static check makes whole runs well behaved, and when it does
not. `Jit*` models the x86-64 just-in-time compiler down to bytes: instructions are
encoded, holes patched in place, and the finished bytes decoded and executed. The
compiler is not right for every instruction, so the theorem has two halves. `JitSim` and
`JitNative` say what the code of each instruction does in every state, helper calls
included, and `JitCorrect` proves that the linked bytes do exactly that over runs of any
length. `JitAgree` and `JitExact` then compare it with the interpreter: in which states
an instruction agrees, and which instructions always do. `ClassicNative` and `Pipeline`
compose both compilers: the machine code of a converted classic program computes a run
stated on the classic machine, each step of which is the classic one exactly under the
conditions that `ClassicNative` lists. `Assembler` and `Upload` cover the text and upload
ends of the chain, `Relist` and `ConvertedListing` the way from a program to text and back.

**The bridge tools.** `Debugger` is the RISC-V debug controller, which injects
instructions that clobber x1 and x2 and must hide this behind a register cache; a whole
session is proved transparent, bridge failures included. `Mailbox` is the two-thread
request protocol of the bridge as interleaved steps, with the exact starts from which
every interleaving is safe. `Flash` programs a NOR chip model. `Usb` is the nested USB
configuration parser.

State that the source updates in place is a class (`Debugger.Controller`, `Flash.Chip`),
an array (`JitLink.ResolveJumps`) or the variables of a loop; each loop is proved against
a function or relation on values, and the theorems are about those.

## Conventions

- Machine words are integers with an explicit range and explicit wrap-around. Bitwise
  operations are defined bit by bit on naturals.
- Addresses are 64-bit numbers. A `Layout` says where the packet and the interpreter's
  stack are; neither wraps around. The converter's theorems need the stack out of reach
  of packet offsets (`Exactness.LayoutIff`).
- Behaviour that C leaves undefined is an outcome of its own (`Fault`, `Crashed`), and so
  is a Rust index panic. Rust arithmetic is that of an optimised build.
- The opcode numbers of the converter's output are those of `tools/ubpf/vm/ebpf.h`.
- The host is little-endian. Calls into helpers return an unknown function of the
  argument registers; a native call leaves unknown values in the caller-saved registers.

## Where the code falls short

Each item is proved; the lemmas named give the exact condition under which the code does
what it promises, or, where there is only one, an input for which it does not.

- The converter emits ADD for AND, swaps the operands of JGT and JGE with X, and lets the
  sign extension of JEQ constants through (`Exactness.FaithfulIff`). A stack less than
  4 GiB behind the packet, or a packet less than 4 GiB and 4 bytes before the end of the
  address space, turns an out-of-range load into one that passes the bounds check
  (`Exactness.LayoutIff`).
- The classic interpreter admits scratch index 16 when loading X, and then panics on it
  (`Cbpf.PanicIff`, `Cbpf.PanicInput`).
- The validator accepts programs that fall off their end (`Validator.ValidatorSoundIff`,
  `Validator.RunOffAccepted`), and 32-bit division tests all 64 bits of its divisor
  (`Validator.StepCrashesIff`, `Validator.NarrowDivisionTrap`). The bounds check lets every
  access through that wraps around the address space (`Memory.CheckedAccess`).
- The just-in-time compiler copies 64 bits for a 32-bit register move, tests the source
  register when dividing by an immediate, multiplies by the source register when the
  immediate is 0, uses a stray immediate of a register division, takes 32-bit shift counts
  modulo 32, emits nothing for the truncating little-endian conversions and sign-extends
  the immediate of ordered unsigned comparisons (`JitExact.TranslatedRightIff`,
  `JitExact.NarrowShiftIff`). A helper call loses R1 to R5, which the interpreter keeps
  (`JitNative.CallSameIff`).
- Hence a classic division of A by a constant, converted and compiled, fails when A is 0
  (`ClassicNative.NativeExecIff`, `Pipeline.ZeroDividend`).
- Setting the pc through the debugger goes through x1, which is put back only if it was
  cached (`Debugger.TransparentIff`). That is so after a halt but not after a single
  step: the program goes on with the new pc in x1 (`Debugger.Controller.PcAfterStep`).
  A cached CSR leaves a stale x1 in the cache after resuming
  (`Debugger.Controller.Resume`). A written x0 reads back until the core is resumed.
- A call made while the response to opening the device is still to be stored can take
  that response for its answer, and every later peek can then return what was read for
  the peek before it (`Mailbox.SafeIff`, `Mailbox.UnconnectedMixup`).
- Flashing ends with a 64 KiB erase that can destroy bytes below the data
  (`Flash.ErasesBelowIff`) and above it (`Flash.ErasesAboveIff`).
- A truncated USB interface can announce endpoints while its endpoint array is null
  (`Usb.LackingIff`, `Usb.NullEndpointsParsed`).

## Model

| member | source | states |
|---|---|---|
| Cbpf.Simple | tools/rust-cbpf/cbpf/src/interpreter.rs:19-186 | the classic interpreter loop computes the reference run, and takes at most one step per instruction because the pc only grows |
| Cbpf.PanicIff | tools/rust-cbpf/cbpf/src/interpreter.rs:99-109 | a program never panics, wherever and with whatever words it is entered, if and only if no instruction loads X from scratch word 16 |
| Cbpf.PanicInput | tools/rust-cbpf/cbpf/src/interpreter.rs:99-109 | LDX M[16] panics on every packet |
| Opcodes.DecodeIff | tools/rust-cbpf/cbpf/src/opcode.rs:32-123 | for every 16-bit code and every operation, legal or not: the code is taken for the operation if and only if its masked fields have the published values |
| Opcodes.CodeDecodes | tools/rust-cbpf/cbpf/src/opcode.rs:124-195 | the sum of the class, size, mode, operation and operand constants of an operation is taken for that operation |
| Opcodes.StepErrorIff | tools/rust-cbpf/cbpf/src/interpreter.rs:35-186 | an instruction ends in an error if and only if its code is illegal, it accesses the packet or the scratch words outside, or it divides by zero, and the error says which |
| Opcodes.AluMeans | tools/rust-cbpf/cbpf/src/interpreter.rs:143-173 | each arithmetic operation is the stated relation between operands and result: congruences for sums, products and left shifts, inequalities for quotients and right shifts, bits for AND, OR and XOR |
| Opcodes.LengthLoads | tools/rust-cbpf/cbpf/src/interpreter.rs:73-75 | both loads of the packet length give its length modulo 2^32 |
| Words.BitwiseBits | tools/ubpf/vm/ubpf_vm.c:194-200 | bit by bit, AND, OR and XOR of any two numbers are conjunction, disjunction and exclusive disjunction |
| Words.BitwiseSums | tools/ubpf/vm/ubpf_vm.c:194-200 | a or b plus a and b is a + b, and a xor b plus twice a and b is a + b |
| Words.CastsCongruent | tools/ubpf/vm/ubpf_vm.c:516-556 | a signed cast is the number of the signed range that is congruent to its argument |
| Ebpf.Exec | tools/ubpf/vm/ubpf_vm.c:137-563 | the eBPF interpreter loop, stopped after a budget of iterations, is the reference run of that length |
| Ebpf.RunSplit | tools/ubpf/vm/ubpf_vm.c:153-562 | running a + b iterations is running a and then b more, with results and crashes final |
| Ebpf.EndianMeans | tools/ubpf/vm/ubpf_vm.c:266-283 | conversion to little-endian cuts off the low bytes, conversion to big-endian also reverses them |
| Memory.CheckedAccess | tools/ubpf/vm/ubpf_vm.c:742-758 | a checked load or store below the end of the address space happens if and only if all its bytes are in the buffer or all are on the stack, and otherwise ends the program with UINT64_MAX; one that wraps around always goes wrong |
| Memory.LoadMeans | tools/ubpf/vm/ubpf_vm.c:388-404 | a load puts the bytes at its address into the register, lowest first, clears the rest of it and changes nothing else |
| Memory.StoreMeans | tools/ubpf/vm/ubpf_vm.c:406-437 | a store puts the low bytes of its value at its address, lowest first, and leaves every other byte and all registers alone |
| Encoding.DecodeEncodeAll | tools/rust-cbpf/c2e/src/converter.rs:111-117 | decoding the bytes of a program gives back the program, field by field |
| Encoding.EncodeDecodeAll | tools/ubpf/vm/ubpf_vm.c:100-129 | every string of whole instructions is the encoding of what it decodes to |
| Loader.LoadEncoded | tools/ubpf/vm/ubpf_vm.c:100-129 | loading the bytes of a program succeeds, with exactly that program, if and only if the program validates |
| Loader.LoadIff | tools/ubpf/vm/ubpf_vm.c:100-129 | any byte string loads as a program if and only if nothing is loaded yet, it is the encoding of that program and the program validates; the two other failures are exact as well |
| Converter.SelectAll | tools/rust-cbpf/c2e/src/converter.rs:124-588 | the selection loop produces the initial moves and one group per classic instruction, or the first error |
| Converter.CountAll | tools/rust-cbpf/c2e/src/converter.rs:590-596 | the counting loop computes the prefix sums of the group lengths |
| Converter.LinkAll | tools/rust-cbpf/c2e/src/converter.rs:597-611 | the relocation loop rewrites every jump offset through the prefix sums, or fails where an index is out of range |
| Converter.Convert | tools/rust-cbpf/c2e/src/converter.rs:124-613 | the three loops together refine the conversion function, errors included |
| Opcodes.RefusedIff | tools/rust-cbpf/c2e/src/converter.rs:146-588 | the converter refuses an instruction if and only if its code is illegal or it loads the packet length, with the error that belongs to it |
| Opcodes.FirstRefused | tools/rust-cbpf/c2e/src/converter.rs:146-588 | selection fails with an error if and only if that is the error of the first instruction refused |
| Relocation.SelectedGroups | tools/rust-cbpf/c2e/src/converter.rs:146-588 | selection succeeds if and only if every instruction has a translation, and group i + 1 is the translation of instruction i |
| Relocation.LinkedAt | tools/rust-cbpf/c2e/src/converter.rs:597-611 | every instruction of every group stands in the output at its group start plus its index, changed at most in its offset |
| Relocation.RelocatedOffset | tools/rust-cbpf/c2e/src/converter.rs:597-611 | a jump over d groups is given the distance to the start of the group d + 1 further on |
| Relocation.ConvertRelocates | tools/rust-cbpf/c2e/src/converter.rs:425-496 | every emitted jump goes forward and lands on the first slot of the group of its classic target (or the program end), for every convertible program with short jumps and at most 32767 slots |
| Simulation.GroupSimulates | tools/rust-cbpf/c2e/src/converter.rs:146-588 | from related states, the group of a faithful instruction does what the classic instruction does: same A, X, scratch words and packet, same jump, same result |
| Simulation.SpliceWords | tools/rust-cbpf/c2e/src/converter.rs:339-347 | writing a scratch word changes that word and no other: distinct indices never alias |
| Exactness.FaithfulIff | tools/rust-cbpf/c2e/src/converter.rs:146-588 | an instruction agrees with its group for all A, packets, scratch words and layouts if and only if it is faithful; the unfaithful families are AND, ordered comparisons with X, JEQ constants from 2^31, far offsets, scratch indices from 16, shifts from 32 and zero constant divisors |
| Exactness.LayoutIff | tools/ubpf/vm/ubpf_vm.c:742-758 | every faithful instruction agrees with its group for all states, packets and scratch words if and only if the packet and 4 GiB behind it stay clear of the stack and at least 4 bytes short of the end of the address space; otherwise an indirect load that is out of range slips past the bounds check |
| CompilerCorrect.ConvertedValidates | tools/ubpf/vm/ubpf_vm.c:565-740 | the output of every convertible program is accepted by the validator |
| CompilerCorrect.Simulate | tools/rust-cbpf/c2e/src/converter.rs:124-613 | from any classic pc with related states, the converted program reaches the classic result within the slots that remain |
| CompilerCorrect.CompilerCorrect | tools/rust-cbpf/c2e/src/converter.rs:124-613 | compiler correctness: the conversion succeeds, its bytes load, and the interpreter returns v exactly when the classic run is Ok(v) and UINT64_MAX exactly when it ends in OutOfRange or DivisionByZero, within one visit per slot |
| CompilerCorrect.StaticIff | tools/rust-cbpf/c2e/src/converter.rs:146-588 | an instruction is faithful for every X if and only if a check that does not look at X passes |
| CompilerCorrect.StaticRunFaithful | tools/rust-cbpf/c2e/src/converter.rs:339-423 | a program of such instructions that writes each scratch word before reading it on every path runs faithfully on every packet |
| Frame.ConvertedRunKeeps | tools/rust-cbpf/c2e/src/converter.rs:128-143 | in every state of every run the packet is unchanged, only the 64 scratch bytes of the stack may differ, R1 and R10 hold, and after the two initial moves R0 and R6 stay below 2^32 |
| Frame.DivisionGuarded | tools/ubpf/vm/ubpf_vm.c:186-193 | with R6 below 2^32 the 64-bit zero test guards the 32-bit division: it stops exactly for a zero divisor and never traps |
| Frame.ConvertedTerminates | tools/rust-cbpf/c2e/src/converter.rs:597-611 | from any state a conversion takes at most one iteration per slot: if it is still running then, it has run off its end |
| Frame.ConvertibleTerminates | tools/rust-cbpf/c2e/src/converter.rs:124-613 | a convertible program, faithful or not, has stopped after at most one iteration per slot on every packet, layout and register content |
| Validator.Validate | tools/ubpf/vm/ubpf_vm.c:565-740 | the validation loop, with its mutated index, computes the check of every instruction in order |
| Validator.ValidIff | tools/ubpf/vm/ubpf_vm.c:565-740 | a program is accepted if and only if it has fewer than 65536 slots and every instruction has a known opcode, registers in range, a valid width or non-zero divisor, a complete LDDW, a jump inside the program to a non-zero opcode other than to itself, and a registered function number below 64 |
| Validator.RejectIff | tools/ubpf/vm/ubpf_vm.c:565-740 | a program is rejected with a complaint if and only if that is the complaint about its first wrong instruction, or it is too long |
| Validator.BoundaryIff | tools/ubpf/vm/ubpf_vm.c:654-697 | in an accepted program the instruction boundaries are exactly the slots with a non-zero opcode |
| Validator.ValidatorSoundIff | tools/ubpf/vm/ubpf_vm.c:565-740 | every slot the control-flow graph reaches is inside the program and starts an instruction, if and only if control cannot fall off the end |
| Validator.LastStopsRunOff | tools/ubpf/vm/ubpf_vm.c:565-740 | an accepted program whose last slot is EXIT or JA cannot fall off the end |
| Validator.RunOffAccepted | tools/ubpf/vm/ubpf_vm.c:565-740 | the validator accepts a program that falls off its end |
| Validator.RunStaysInside | tools/ubpf/vm/ubpf_vm.c:153-562 | in every reachable state of every run of an accepted program that cannot fall off, the 16-bit pc is on a boundary reached through the graph and R10 has its initial value |
| Validator.StepCrashesIff | tools/ubpf/vm/ubpf_vm.c:153-562 | at a boundary of an accepted program, an iteration crashes exactly on an oversized shift, a 32-bit division by a non-zero multiple of 2^32 or an access the bounds check wrongly lets through; never on a call or a constant divisor |
| Validator.WildOnlyByWrapping | tools/ubpf/vm/ubpf_vm.c:742-758 | with bounds checking on, only an access that wraps around the address space slips through |
| Validator.NarrowDivisionTrap | tools/ubpf/vm/ubpf_vm.c:186-193 | an accepted program whose 32-bit division passes the 64-bit zero test and then divides by zero |
| X86Encoding.DecodeEncode | tools/ubpf/vm/ubpf_jit_x86_64.h:109-334 | decoding the emitted prefix, REX, ModRM, displacement and immediate bytes recovers the instruction and its length, whatever follows |
| JitMulDiv.LoadImmLoads | tools/ubpf/vm/ubpf_jit_x86_64.h:272-284 | loading any 64-bit constant, short or long form, leaves exactly that constant |
| JitMulDiv.MulDivModCorrect | tools/ubpf/vm/ubpf_jit_x86_64.c:455-515 | for any pair of mapped registers, RAX, RDX and equal ones included: the destination gets the result, every other mapped register and the stack are restored, and a zero divisor jumps to the handler with the stack as at the instruction boundary |
| JitSim.InstSimulates | tools/ubpf/vm/ubpf_jit_x86_64.c:102-421 | for every instruction but CALL and LDDW, from every state: the code takes related states to related states and falls through, jumps, leaves or goes wrong exactly as the stated effect of the emitted code |
| JitSim.CallSimulates | tools/ubpf/vm/ubpf_jit_x86_64.c:360-364 | the code of CALL passes R1 to R5 to the helper at its address, leaves the result in R0, keeps R6 to R10, the stack and the buffer, and loses R1 to R5 |
| JitAgree.BenignSame | tools/ubpf/vm/ubpf_jit_x86_64.c:102-421 | in a benign state (divisor tested rightly, shift counts in range, access inside, and so on) the effect of the emitted code is the interpreter's |
| JitNative.NativeStays | tools/ubpf/vm/ubpf_jit_x86_64.c:82-453 | the emitted code of an accepted program that cannot fall off goes from instruction boundary to instruction boundary, whatever its instructions do |
| JitNative.CallSameIff | tools/ubpf/vm/ubpf_jit_x86_64.c:360-364 | after a helper call the code is in the interpreter's state if and only if the helper happens to leave R1 to R5 as they were |
| JitNative.BenignRunSame | tools/ubpf/vm/ubpf_jit_x86_64.c:82-453 | over a benign run the emitted code and the interpreter do the same |
| JitSim.WideSimulates | tools/ubpf/vm/ubpf_jit_x86_64.c:410-415 | the two halves of LDDW are loaded as one constant |
| JitLink.ResolveJumps | tools/ubpf/vm/ubpf_jit_x86_64.c:517-539 | the patching loop writes every displacement into the buffer in place |
| JitLink.HolesDisjoint | tools/ubpf/vm/ubpf_jit_x86_64.h:100-107 | holes lie inside the code, in order, at least four bytes apart |
| JitLink.PatchingResolves | tools/ubpf/vm/ubpf_jit_x86_64.c:517-539 | patching turns the buffer into exactly the encodings of the resolved instructions and changes no byte outside the holes |
| JitLink.JumpLands | tools/ubpf/vm/ubpf_jit_x86_64.c:517-539 | a resolved displacement leads from the end of its jump to the location of its target |
| JitProgram.Emit | tools/ubpf/vm/ubpf_jit_x86_64.h:68-107 | appending items to the buffer records each hole and its target |
| JitProgram.SecondSlotSkipped | tools/ubpf/vm/ubpf_jit_x86_64.c:102-105 | the second slot of LDDW never starts an instruction |
| JitProgram.Translate | tools/ubpf/vm/ubpf_jit_x86_64.c:82-453 | the translation loop fills the buffer, the location of every instruction, the exit and handler locations and the jump table; it fails if and only if an opcode is unknown |
| JitCompile.LinkTable | tools/ubpf/vm/ubpf_jit_x86_64.h:100-107 | for every accepted program the jump table holds at most MAX_INSTS entries, each for the exit, the handler or the start of an instruction |
| JitCompile.Compile | tools/ubpf/vm/ubpf_jit_x86_64.c:541-597 | translating and patching yields the linked machine code, or stops if and only if it exceeds the 64 KiB buffer |
| JitCorrect.XRunSplit | tools/ubpf/vm/ubpf_jit_x86_64.c:541-597 | executing a + b machine instructions is executing a and then b more |
| JitCorrect.StretchRuns | tools/ubpf/vm/ubpf_jit_x86_64.c:82-453 | any stretch of the linked bytes, decoded and executed, does what its instructions with symbolic targets do, the access that goes wrong included |
| JitCorrect.PrologueEnters | tools/ubpf/vm/ubpf_jit_x86_64.c:86-100 | the prologue saves the callee-saved registers and sets up the frame |
| JitCorrect.EpilogueReturns | tools/ubpf/vm/ubpf_jit_x86_64.c:423-440 | the epilogue restores the callee-saved registers and the stack pointer and returns R0 |
| JitCorrect.HandlerLeaves | tools/ubpf/vm/ubpf_jit_x86_64.c:442-450 | the division handler leaves through the exit with -1 and a balanced stack |
| JitCorrect.StepSimulated | tools/ubpf/vm/ubpf_jit_x86_64.c:82-453 | one instruction of the eBPF machine, any opcode and state, is matched by a run of the linked bytes to the location of the next pc, to the return, or to the access nothing is promised about |
| JitCorrect.JitImplements | tools/ubpf/vm/ubpf_jit_x86_64.c:82-453 | over whole runs of any length, helper calls included, the machine code of an accepted program does exactly what the stated effects of its instructions say: same registers, buffer and stack at the location of each pc, same R0 with the caller state restored, or the access nothing is promised about |
| JitCorrect.JitSimulates | tools/ubpf/vm/ubpf_jit_x86_64.c:82-453 | over runs that are benign at every step, that is what the interpreter does |
| JitExact.TranslatedRightIff | tools/ubpf/vm/ubpf_jit_x86_64.c:102-421 | an accepted instruction other than CALL and LDDW is translated rightly for all states in which the interpreter is defined and an access is inside the buffer or the stack, if and only if it is not in one of the listed families |
| JitExact.NarrowShiftIff | tools/ubpf/vm/ubpf_jit_x86_64.c:147-150 | a 32-bit left shift by another register is right for every value, where the interpreter is defined, if and only if the count is not 32 to 63 |
| JitExact.FaithfulProgramCompiled | tools/ubpf/vm/ubpf_jit_x86_64.c:82-453 | for an accepted program of rightly translated instructions and 32-bit left shifts, without calls, every run with accesses inside and shift counts in range is matched by the machine code |
| ClassicNative.NativeExecIff | tools/rust-cbpf/c2e/src/converter.rs:146-588 | one classic instruction, converted and compiled, does what it should if and only if its packet access is in range, A is not 0 before a division by a constant, a multiplication by 0 squares A to 0, and an ordered comparison with a constant from 2^31 is not taken |
| ClassicNative.NativeGroupSimulates | tools/ubpf/vm/ubpf_jit_x86_64.c:102-421 | from related states the emitted code of a faithfully converted instruction does what the compiled classic instruction is stated to do, right or wrong |
| ClassicNative.SafeRunSame | tools/rust-cbpf/c2e/src/converter.rs:146-588 | a classic run along which those conditions hold is the compiled run |
| Pipeline.PipelineExact | tools/ubpf/vm/ubpf_jit_x86_64.c:541-597 | for every convertible program, packet and layout, the machine code compiled from the converted program computes exactly the compiled run, with the caller state restored, as long as the conversion is faithful along it |
| Pipeline.PipelineCorrect | tools/ubpf/vm/ubpf_jit_x86_64.c:541-597 | end to end: where every instruction of the classic run is converted faithfully and its compilation is right for the classic state, the machine code returns the classic result |
| Pipeline.ZeroDividend | tools/ubpf/vm/ubpf_jit_x86_64.c:455-515 | the machine code for the quotient of two constants returns the classic result if and only if the dividend is not 0; for 0 it returns UINT64_MAX |
| CompilerCorrect.EndsInExit | tools/rust-cbpf/c2e/src/converter.rs:148-190 | a converted program ends in EXIT |
| Pipeline.SmallFits | tools/ubpf/vm/ubpf_jit_x86_64.c:562-564 | a program of up to 330 slots never overruns the code buffer |
| Pipeline.ExampleRuns | tools/rust-cbpf/c2e/src/converter.rs:148-190 | the hypotheses are met by a concrete program: the machine code for RET k returns k |
| Riscv.LuiAddiLoads | tools/wishbone-utils/wishbone-tool/crates/core/riscv/mod.rs:1163-1186 | the rounded upper part and the sign-extended low part leave exactly the constant |
| Riscv.OriLoads | tools/wishbone-utils/wishbone-tool/crates/core/riscv/mod.rs:1187-1193 | a constant below 2048 is loaded by one ORI |
| Riscv.DecodesCsr | tools/wishbone-utils/wishbone-tool/crates/core/riscv/mod.rs:1132-1142 | the injected CSR words decode to a read into x1 without a write and to a write from x1 |
| Riscv.PartOfWord | tools/wishbone-utils/wishbone-tool/crates/core/riscv/mod.rs:1026-1033 | shifting and masking the bus word gives the addressed byte or halfword |
| Riscv.StoreLoad | tools/wishbone-utils/wishbone-tool/crates/core/riscv/mod.rs:1062-1099 | what was stored is what is loaded |
| Riscv.StoreOutside | tools/wishbone-utils/wishbone-tool/crates/core/riscv/mod.rs:1062-1099 | a store leaves every other byte alone |
| Debugger.Controller.Inject | tools/wishbone-utils/wishbone-tool/crates/core/riscv/mod.rs:1250-1263 | an injected instruction is executed once, or, if and only if the bridge fails, reported as failed and executed at most once |
| Debugger.Controller.ReadRegister | tools/wishbone-utils/wishbone-tool/crates/core/riscv/mod.rs:1105-1145 | a register read returns the hardware value and clobbers at most x1, which is saved first; on failure too |
| Debugger.Controller.WriteGeneral | tools/wishbone-utils/wishbone-tool/crates/core/riscv/mod.rs:1163-1194 | writing x0 to x31 changes that register only, and leaves the value there (0 for x0) |
| Debugger.Controller.WriteRegister | tools/wishbone-utils/wishbone-tool/crates/core/riscv/mod.rs:1150-1227 | writing the pc goes through x1; writing a CSR saves x1 first and writes the legalised value |
| Debugger.Controller.FlushCache | tools/wishbone-utils/wishbone-tool/crates/core/riscv/mod.rs:1229-1234 | flushing leaves every register alone |
| Debugger.Controller.Halt | tools/wishbone-utils/wishbone-tool/crates/core/riscv/mod.rs:928-957 | with whatever is in the cache: the debugger shows the program it showed, with the pc the core reports after a breakpoint; whatever fails on the way, and if nothing fails, x1 is cached |
| Debugger.Controller.ReadReg | tools/wishbone-utils/wishbone-tool/crates/core/riscv/mod.rs:776-785 | a request for a register gets the value of the program being debugged |
| Debugger.RegisterAnswers | tools/wishbone-utils/wishbone-tool/crates/core/riscv/mod.rs:765-824 | numbers 0 to 32 are answered with the general registers and the pc, 65 + i with each CSR i the core has, a write there changes that register only, and every other number is refused |
| Debugger.Controller.WriteReg | tools/wishbone-utils/wishbone-tool/crates/core/riscv/mod.rs:805-824 | a written register shows the new value and every other register its old one |
| Debugger.Controller.ReadMemory | tools/wishbone-utils/wishbone-tool/crates/core/riscv/mod.rs:1026-1060 | memory reads of 1, 2 and 4 bytes get the bytes at the aligned address and show no change |
| Debugger.Controller.WriteMemory | tools/wishbone-utils/wishbone-tool/crates/core/riscv/mod.rs:1062-1099 | memory writes change exactly the addressed bytes and no visible register, although x1 and x2 are clobbered |
| Debugger.Controller.Resume | tools/wishbone-utils/wishbone-tool/crates/core/riscv/mod.rs:959-992 | writing the cache back, in whatever order, leaves each register at its visible value; x1 is lost only as ResumedX1 says, and the cache ends empty if and only if no CSR was cached |
| Debugger.TransparentIff | tools/wishbone-utils/wishbone-tool/crates/core/riscv/mod.rs:959-992 | resuming is transparent if and only if a cached pc is even and comes with a cached x1 (or equals x1) |
| Debugger.Controller.PcAfterStep | tools/wishbone-utils/wishbone-tool/crates/core/riscv/mod.rs:749-761 | setting the pc after a single step and resuming leaves the pc value in x1 and everything else as the step left it |
| Debugger.Controller.Session | tools/wishbone-utils/wishbone-tool/crates/core/riscv/mod.rs:928-992 | halt, any requests, resume: every reply is the one the program overlaid with the session's own writes calls for, the core resumes with exactly that state and an empty cache, and the session fails if and only if a bridge access does |
| Mailbox.StepKeeps | tools/wishbone-utils/wishbone-tool/crates/bridge/src/bridges/ethernet.rs:211-284 | every step of every caller and of the worker keeps the invariant |
| Mailbox.RunKeeps | tools/wishbone-utils/wishbone-tool/crates/bridge/src/bridges/ethernet.rs:153-286 | so does every interleaving |
| Mailbox.MailboxSafe | tools/wishbone-utils/wishbone-tool/crates/bridge/src/bridges/ethernet.rs:391-427 | in every interleaving after connect, reconnects and spurious wakeups included: at most one request in flight, the slot holds only its answer, no wrong response, and a result comes from a device access for that very request begun after the call |
| Mailbox.SafeIff | tools/wishbone-utils/wishbone-tool/crates/bridge/src/bridges/ethernet.rs:153-286 | from any start without a call or a queued peek or poke, every interleaving is safe if and only if no response is still to be stored (that of opening the device included) and the slot holds none but OpenedDevice, which the first call clears |
| Mailbox.NeverStuck | tools/wishbone-utils/wishbone-tool/crates/bridge/src/lib.rs:280-352 | no wakeup is lost: while a call is unfinished, a step other than a spurious wakeup or a new call is enabled |
| Mailbox.CanFinish | tools/wishbone-utils/wishbone-tool/crates/bridge/src/bridges/ethernet.rs:153-286 | whatever has happened since connect, every call under way can still finish, with the answer to its own request |
| Mailbox.ReconnectsFirst | tools/wishbone-utils/wishbone-tool/crates/bridge/src/bridges/ethernet.rs:242-286 | from a failed access until the device is opened again nothing is accessed and all answers are failures; without a failed access the worker never reconnects |
| Mailbox.ReconnectStep | tools/wishbone-utils/wishbone-tool/crates/bridge/src/bridges/ethernet.rs:242-286 | a failed access and nothing else makes the worker reconnect, and it drains the queue before it does |
| Mailbox.UnderstandIff | tools/wishbone-utils/wishbone-tool/crates/bridge/src/bridges/ethernet.rs:391-427 | a call gets a result if and only if the response is of its kind and carries that result |
| Mailbox.UnconnectedMixup | tools/wishbone-utils/wishbone-tool/crates/bridge/src/bridges/ethernet.rs:292-307 | for every sequence of peeks there is a run without connect in which every call but the first returns what was read at the address of the call before it |
| Flash.EraseThenProgram | tools/wishbone-utils/wishbone-tool/crates/core/server/mod.rs:585-617 | a page programmed into an erased sector or block reads back as what was loaded, wrapped at the end of the page; the rest of the unit is blank and everything else as it was |
| Flash.ProgramClears | tools/wishbone-utils/wishbone-tool/crates/core/server/mod.rs:607-617 | programming only clears bits, changes nothing outside the page, and doing it twice is doing it once |
| Flash.EraseRange | tools/wishbone-utils/wishbone-tool/crates/core/server/mod.rs:637-692 | the erase loop clears whole sectors from an aligned address and the 64 KiB block around the last one |
| Flash.ProgramPages | tools/wishbone-utils/wishbone-tool/crates/core/server/mod.rs:713-761 | the program loop writes the padded data where everything was blank |
| Flash.FlashProgram | tools/wishbone-utils/wishbone-tool/crates/core/server/mod.rs:510-761 | the chip ends up with the padded data, blank where the erase went further, and its old contents elsewhere; empty and out-of-bounds requests change nothing |
| Flash.ReadBack | tools/wishbone-utils/wishbone-tool/crates/core/server/mod.rs:697-761 | the data reads back unchanged, and bytes outside the data and the cleared units are kept |
| Flash.ErasesBelowIff | tools/wishbone-utils/wishbone-tool/crates/core/server/mod.rs:642-664 | the last erase destroys bytes below the target exactly when the target does not start a 64 KiB block and its data ends in that block |
| Flash.ErasesAboveIff | tools/wishbone-utils/wishbone-tool/crates/core/server/mod.rs:642-664 | it destroys bytes above the data exactly when the padded data does not end at the end of a 64 KiB block |
| Usb.Skip | tools/wishbone-utils/wishbone-tool/crates/libusb-sys/libusb/libusb/descriptor.c:143-166 | the skipping loop stops at the first descriptor that is standard, short, invalid or past the end |
| Usb.SkipsExactly | tools/wishbone-utils/wishbone-tool/crates/libusb-sys/libusb/libusb/descriptor.c:143-166 | what is skipped is a run of whole descriptors, none of a standard type |
| Usb.SkipIff | tools/wishbone-utils/wishbone-tool/crates/libusb-sys/libusb/libusb/descriptor.c:143-166 | skipping ends at a position, for a reason, if and only if only whole descriptors other than of types 1, 2, 4 and 5 lie before it and the reason holds there |
| Usb.EndpointIff | tools/wishbone-utils/wishbone-tool/crates/libusb-sys/libusb/libusb/descriptor.c:100-188 | an endpoint is delivered exactly when a whole endpoint descriptor of at least 7 bytes is followed by whole non-standard descriptors up to a position where they stop for any reason but an invalid length; its extras are that run, or nothing before a short descriptor |
| Usb.ParseEndpoints | tools/wishbone-utils/wishbone-tool/crates/libusb-sys/libusb/libusb/descriptor.c:320-343 | the endpoint loop stops at the first position that is no endpoint |
| Usb.AltTile | tools/wishbone-utils/wishbone-tool/crates/libusb-sys/libusb/libusb/descriptor.c:228-343 | the slices of one alternate setting cover what it consumed without gaps, except one run of extras dropped before a short descriptor |
| Usb.AltIff | tools/wishbone-utils/wishbone-tool/crates/libusb-sys/libusb/libusb/descriptor.c:228-343 | a setting is delivered if and only if a whole interface descriptor announces at most 32 endpoints and its extras and endpoints can be parsed; without endpoints exactly where the extras run into a short descriptor |
| Usb.ParseInterface | tools/wishbone-utils/wishbone-tool/crates/libusb-sys/libusb/libusb/descriptor.c:213-357 | the settings of one interface, in order, with the bytes advanced |
| Usb.ParseConfiguration | tools/wishbone-utils/wishbone-tool/crates/libusb-sys/libusb/libusb/descriptor.c:371-487 | the interfaces of a configuration, with the bytes left over |
| Usb.ConfigInOrder | tools/wishbone-utils/wishbone-tool/crates/libusb-sys/libusb/libusb/descriptor.c:371-487 | for any buffer, all descriptors, extras and endpoints come from disjoint slices in buffer order, inside what was consumed, and the bytes left over start right behind |
| Usb.SettingsByNumber | tools/wishbone-utils/wishbone-tool/crates/libusb-sys/libusb/libusb/descriptor.c:341-350 | in the tree of any buffer settings are grouped by interface number: all settings of an interface have the same, neighbouring interfaces have different ones, and after its last setting no other with its number follows, unless a descriptor is cut off there |
| Usb.HeaderIff | tools/wishbone-utils/wishbone-tool/crates/libusb-sys/libusb/libusb/descriptor.c:371-400 | a configuration is parsed if and only if its descriptor is whole, announces at most 32 interfaces, and the interfaces behind it can be parsed |
| Usb.InterfaceTile | tools/wishbone-utils/wishbone-tool/crates/libusb-sys/libusb/libusb/descriptor.c:213-357 | the slices of an interface cover what it consumed without gaps, except one run of extras dropped before a short descriptor |
| Usb.LackingIff | tools/wishbone-utils/wishbone-tool/crates/libusb-sys/libusb/libusb/descriptor.c:280-293 | in the tree of any buffer at most one setting announces endpoints that it does not have: the last setting of the last interface, and that one if and only if only extras lie between its descriptor and a short one, where the bytes left over begin |
| Usb.NullEndpointsParsed | tools/wishbone-utils/wishbone-tool/crates/libusb-sys/libusb/libusb/descriptor.c:371-487 | a buffer for which such a setting reaches the caller |
| Assembler.Assemble | tools/ubpf/ubpf/assembler.py:123-132 | the writing loop produces the encoding of all instructions |
| Assembler.AssembledMeans | tools/ubpf/ubpf/assembler.py:75-121 | the virtual machine decodes an assembled opcode as the operation of its mnemonic |
| Assembler.OpcodeIff | tools/ubpf/ubpf/assembler.py:75-121 | the virtual machine takes an opcode for the operation of a line if and only if the line assembles to that opcode |
| Assembler.KnownIff | tools/ubpf/vm/ubpf_vm.c:153-562 | it knows exactly the opcodes that some line assembles to |
| Assembler.Disassemble | tools/ubpf/ubpf/disassembler.py:160-168 | the printing loop visits every slot and prints nothing for the second half of LDDW |
| Assembler.PrintedAs | tools/ubpf/ubpf/disassembler.py:97-156 | the kind of line an opcode is printed as, if and only if, also for opcodes the machine does not know |
| Assembler.HexBack | tools/ubpf/ubpf/disassembler.py:82-83 | a printed immediate reads back as the same number |
| Assembler.OffsetBack | tools/ubpf/ubpf/disassembler.py:91-95 | a printed offset reads back as the signed 16-bit field |
| Assembler.OneThereAndBack | tools/ubpf/ubpf/disassembler.py:97-156 | one instruction, disassembled wherever it stands and read back, is its normal form |
| Assembler.ThereAndBack | tools/ubpf/ubpf/assembler.py:72-132 | disassembling an assembled program and reading it back gives the program in normal form, one line per instruction, and assembling that gives the same instructions |
| Relist.ListingAssembles | tools/ubpf/ubpf/disassembler.py:97-168 | for every accepted program the listing can be read and assembled, and gives the program with the fields its operations do not use cleared |
| Relist.RelistedRuns | tools/ubpf/ubpf/disassembler.py:97-168 | the reassembled listing of an accepted program behaves the same in every run, from every state |
| ConvertedListing.ConvertedRelists | tools/rust-cbpf/c2e/src/converter.rs:124-613 | the converter sets no unused field: disassembling its output and assembling the listing gives back the same bytes |
| Upload.SendAll | firmware/scripts/load_and_simGen_VeBPF_hex.py:365-552 | the words received over the UART, low byte first, are the words of the simulation file |
| Upload.LineAgrees | firmware/scripts/load_and_simGen_VeBPF_hex.py:297-346 | one line, sent and written to the file, is the same number |
| Upload.WordIsFields | firmware/scripts/load_and_simGen_VeBPF_hex.py:297-346 | the uploaded word is opcode, registers, offset and immediate from the top down |
| Upload.ControlIff | firmware/scripts/load_and_simGen_VeBPF_hex.py:333-333 | the rule-control words are exactly the three numbers that are passed through unchanged |
| Upload.NoCollision | firmware/scripts/load_and_simGen_VeBPF_hex.py:318-333 | no assembled instruction is taken for a rule-control word |

## Left out

- Ebpf.Exec: takes an iteration budget, because the C loop need not terminate; a run of any length is covered by choosing the budget.
- JitCorrect.JitSimulates: covers no helper calls, because the code loses R1 to R5 where the interpreter keeps them, and no accesses out of bounds, because the code checks none; `JitCorrect.JitImplements` covers both, stating what the code does.
- JitCorrect.JitImplements: a helper is a function of its five arguments that does not touch the buffer or the stack.
- JitProgram.Translate: leaves `pc_locs` of second LDDW slots at zero, as the source does; nothing jumps there. The buffer is a sequence that grows, so the abort on overflow is modelled by the size check in `JitCompile.Compile`.
- Pipeline.PipelineExact: its faithfulness condition follows the compiled run, which may differ from the classic one where the compiler is wrong.
- Debugger.Controller.Session: covers cores without MMU and sessions without `satp` writes; `reset`, breakpoints and, but for `Debugger.Controller.PcAfterStep`, stepping are left out.
- Debugger.Controller.Halt: the exception it records for display is left out.
- Debugger.Controller.WriteMemory: takes a misaligned halfword store to ignore the low address bit; a core that traps on it is not modelled.
- Flash.EraseRange: an erase completes at once; polling of the status and security registers and failed erases are left out.
- Mailbox.MailboxSafe: `Exit` requests, thread shutdown and disconnected channels are left out.
- Usb.ParseConfiguration: allocation succeeds, and the copies of the individual fields of a descriptor are represented by its slice.
- Assembler.ThereAndBack: starts from parsed instructions, because the grammar rests on a parser library that is not part of this model.
- Upload.SendAll: the address bytes sent before each word and version 1 of the loader are left out.
- The word loads, the LEN loads and the error values of the converter are followed as far as success or failure and the kind of error goes; messages are not modelled.
- `ubpf_set_register_offset`: the default register map is fixed.
- ELF loading, helper registration, the generic register description for gdb and the gdb command loop: mostly table look-ups.
- The other bridges (UART, PCIe, SPI, USB) repeat the mailbox protocol with other device accesses.
- The Verilog sources are not part of this model.
