# CowVM: verified model

CowVM is a small compiler backend: a builder makes an intermediate representation of functions,
blocks and instructions, and two engines run it, a bytecode interpreter and an x86-64 code
generator. This project models both engines over one representation and proves how each behaves
over whole runs, and when they agree.

`dafny verify dfyconfig.toml` checks everything.

| files | content |
|---|---|
| `Words`, `Ir` | machine words, little-endian bytes, byte memory; the representation |
| `Interp`, `InterpLoop`, `Opcodes` | the interpreter as a step function, and as the loop over arrays, proved equal; what each opcode does to numbers and bytes |
| `Activation`, `Definite`, `Refinement` | the recursive evaluator, definite assignment, and the proof that the loop is that evaluator |
| `Frames`, `Progress`, `Lockstep`, `LoadStore` | frame stack and isolation; termination and bounds; unspecified bits; memory |
| `Window`, `Builder`, `BuiltSteps`, `Built`, `Fib` | what one iteration touches; builder calls and their invariant; what each call's instruction does; what a build gives both engines; the Fibonacci sample from builder to result |
| `GrowArray`, `ByteWriter` | the growable array and the byte buffer |
| `X86`, `Allocator`, `Emission`, `Gen` | encoding, decoding and execution; register table; instruction selection, bytes and patching; the generator in place |
| `RegisterPass`, `TextRegisters`, `Simulation`, `Leaf`, `JitCorrectness`, `Paths` | the register table over the whole pass, and read off the text; one instruction; functions without calls; whole runs; when both engines take one path |
| `Fragment`, `Fixed`, `FragmentRuns`, `Divergence` | the fragment with conditions on the function's text; its values as functions of the arguments; its runs; programs on which the engines differ |
| `Link`, `Selection`, `ModuleJit` | linking of direct calls; the executable code read position by position; a whole module |

How C is read:

- A register slot is a 64-bit word. The bits that a write to a smaller union member leaves
  unspecified (section 6.2.6.1, paragraph 7, of C11) come from an arbitrary word per iteration.
- 64-bit arithmetic wraps. Whatever C leaves undefined stops the model with a fault: a slot outside
  the pool, a frame outside the frame array, division by zero or of the smallest number by -1, an
  address outside memory, a boolean byte other than 0 or 1, a register nobody wrote.
- The pool size and the number of frames are parameters; the program uses 5000 and 1200.
- Blocks are named by their index in the function, functions by their index in the module. The
  argument list of a call is a sequence, although the builder only stores a pointer to it.
- Registers, encodings and instruction effects follow the Intel 64 and IA-32 Architectures Software
  Developer's Manual, Volume 2, sections 2.1.3 and 2.2.1 and the entries of MOV, ADD, CMP, Jcc, JMP,
  CALL and RET. The generator numbers RDI 6 and RSI 7, the manual the other way round; the model
  uses codes only, so the names do not matter.

Facts of the code that shape the results:

- The generator uses XMM registers for decimals and moves arguments for CALL_PTR, which the model
  does not have. Every result about the code of a function is therefore stated for *integer
  functions* (`Emission.Integral`): no decimal argument, return type, constant or left operand of an
  ADD, and no CALL_PTR. The float function of the sample program is not one
  (`FloatSampleIsNotIntegral`). Results about the interpreter alone have no such condition.
- A call moves the window by the callee's value count, so a callee smaller than its caller
  overwrites live registers (`ShrinkingCallClobbers`).
- The generated ADD is a 32-bit addition that overwrites its left operand's register. A register
  therefore holds a slot exactly, or its low half zero-extended or sign-extended, and results agree
  modulo 2^32 (`FormIsExact`, `UpperHalfIsLost`).
- COND_BR tests the boolean byte in the interpreter and the whole register in generated code
  (`SameBlockIffSameTest`, `FragmentPathsAgreeIff`, `EnginesDisagree`).
- Third and fourth arguments are in R8 and R9, which the short encoders cannot name
  (`DecodesExactly`, `ThirdArgumentIsIgnored`): the fragment allows two arguments, and five
  registers in all.
- Of the 14 slots of the register table only 13 are set up; the last hands out RAX (`RaxTakenIff`,
  `FourteenConstantsTakeRax`).
- A function without code has no buffer, so the copy of one byte beyond the code has nothing to
  read (`CopyCode`, `JitModule`). That is a function all of whose instructions are ones for which
  nothing is generated, a body of SUB only, say (`HasCodeIff`, `SubtractionHasNoCode`).
- The documentation lists argument support as still to do; the code assigns argument registers,
  and that is modelled.

## Model

| member | source | states |
|---|---|---|
| Interpretation.InterpreterIsRecursive | cowvm/exec/interp.c:29-306 | For every module in which no call goes to a function with fewer values than its caller and every register is written before it is read, every pool size, frame count, argument list and number of iterations: the loop over one shared pool ends exactly as the recursive evaluator with a fresh register map per call, with the same value and memory, the same fault, or both still running |
| Interpretation.ShrinkingCallClobbers | cowvm/exec/interp.c:261-261 | The size condition cannot be dropped: for every caller size n and callee size 1 <= k < n a module of these sizes makes the loop return the clobbered 9 where the recursive evaluator returns the live 5 |
| Refinement.RunRefines | cowvm/exec/interp.c:29-306 | Any run of the pool machine, from any state that represents a stack of separate register maps, stays represented by the run of that stack; faults and returned values coincide unless the stack machine reads an unset register |
| Refinement.StepRefines | cowvm/exec/interp.c:31-302 | The same for one iteration, over all opcodes |
| Refinement.CopyIsSimultaneous | cowvm/exec/interp.c:263-265 | Although arguments are copied one by one inside one array, into a window above the source the result is a simultaneous copy, and nothing outside the destination changes |
| Refinement.ArgumentsMatch | cowvm/exec/interp.c:263-265 | The argument loop succeeds exactly when every slot read lies in the pool and the copied slots fit, and then the callee finds its arguments and all lower slots are unchanged |
| Activation.StackIsRecursion | cowvm/exec/interp.c:246-285 | An explicit stack of callers and recursion agree from every stack: running to a limit equals evaluating the top activation and resuming each waiting caller in turn |
| Definite.NeverUninit | cowvm/exec/interp.c:68-239 | With a definite-assignment certificate no run ever reads a register that was not written |
| Definite.DecideStaysDefinite | cowvm/exec/interp.c:31-302 | One instruction keeps the certificate: jumps, falls to the next instruction, callee entry and the waiting caller all hold what the certificate promises there |
| InterpLoop.Interpreter.CopyArguments | cowvm/exec/interp.c:263-265 | In place on the pool array; fails or yields exactly the sequential copy of the old pool |
| InterpLoop.Interpreter.ExecData | cowvm/exec/interp.c:33-223 | The array-updating execution of constants, operators, NOT, loads and stores reaches exactly the specified next state or fault |
| InterpLoop.Interpreter.ExecCall | cowvm/exec/interp.c:246-267 | Pushes the frame, moves the window and copies the arguments, or stops with the specified fault |
| InterpLoop.Interpreter.ExecRet | cowvm/exec/interp.c:269-285 | Pops the frame and delivers the value into the old window, or finishes, or stops with the specified fault |
| InterpLoop.Interpreter.Dispatch | cowvm/exec/interp.c:31-302 | The switch with the -1/increment convention for jumps has exactly the effect of one abstract iteration |
| InterpLoop.Interpreter.Enter | cowvm/exec/interp.c:16-27 | Sets up position, empty frame stack and argument slots; other slots keep what was in the pool |
| InterpLoop.Interpreter.Loop | cowvm/exec/interp.c:29-306 | The loop over arrays computes the abstract run from the current state |
| InterpLoop.Interpreter.EvalFunction | cowvm/exec/interp.c:4-308 | A whole evaluation in arrays equals the abstract evaluation that all results here are about |
| Opcodes.ComparisonStep | cowvm/exec/interp.c:108-154 | In any state, each of the six comparisons leaves 1 in its result's low byte exactly when the two slots, read as signed 64-bit numbers, relate so, and 0 otherwise; the other bits are unspecified and no other slot changes |
| Opcodes.ArithmeticStep | cowvm/exec/interp.c:68-90 | ADD, SUB and MUL write the sum, difference and product up to a multiple of 2^64, and no other slot |
| Opcodes.DivisionStep | cowvm/exec/interp.c:92-106 | DIV and IDIV write the quotient whose remainder is smaller than the divisor and has the dividend's sign, and stop exactly on a divisor of 0 and on the smallest number by -1 |
| Opcodes.QuotientUnique | cowvm/exec/interp.c:92-106 | Only one number is such a quotient |
| Opcodes.NotStep | cowvm/exec/interp.c:156-161 | NOT writes 1 for a slot of 0 and 0 for every other |
| Opcodes.ConstStep | cowvm/exec/interp.c:33-66 | A constant sets 64, 32, 16 or 8 low bits to those of its immediate; the others are unspecified |
| Opcodes.LoadStep | cowvm/exec/interp.c:163-193 | A load of I64, F64 or PTR reads eight bytes, of I32 or F32 four, of I16 two, sign-extended to 32 bits, of I8 one, lowest byte first, into the low bits of its result; the others are unspecified; it stops exactly if one of these bytes is not mapped |
| Opcodes.StoreStep | cowvm/exec/interp.c:195-223 | A store changes exactly the 8, 4, 2 or 1 bytes of its type at the address in its first operand: byte k becomes digit k to base 256 of its second operand's slot |
| Opcodes.BranchStep | cowvm/exec/interp.c:225-239 | BR goes to its block; COND_BR to its first block on a low byte of 1 and to its second on 0 |
| Opcodes.CallStep | cowvm/exec/interp.c:246-267 | A direct call enters the function named with its k-th argument in slot k of the new window, remembers caller and result id, and changes no other slot |
| Opcodes.RetStep | cowvm/exec/interp.c:269-285 | RET ends the run with its slot, or puts it into the slot its caller asked for, after the call |
| Opcodes.RetVoidStep | cowvm/exec/interp.c:287-302 | RET_VOID ends the run with 0 if there is no caller |
| Opcodes.CallPtrStep | cowvm/exec/interp.c:241-244 | CALL_PTR only moves on |
| Opcodes.UndefinedStops | cowvm/exec/interp.c:29-305 | A run stops where C is undefined: past the end of a block, without a free frame, at a function outside the module, at a slot outside the pool |
| Frames.ReachableStackInvariant | cowvm/exec/interp.c:246-285 | In every reachable state each saved frame stands at a call of the next activation's function with that call's result id, and every base is the sum of the value counts of the functions called below it |
| Frames.StackInvariantStep | cowvm/exec/interp.c:246-285 | Every iteration keeps that invariant |
| Frames.CallIsIsolated | cowvm/exec/interp.c:246-285 | From a call to its matching return no slot below the callee's window changes, and after it the caller resumes at the next instruction with its old base and frames, only the call's own result slot being new and holding the returned register |
| Frames.RunAbove | cowvm/exec/interp.c:246-285 | A run that stays at depth d or deeper leaves the frames below d and every slot below that activation's base unchanged |
| Frames.SuspendedWindowIsBelow | cowvm/exec/interp.c:261-261 | With no shrinking calls every suspended window lies entirely below the next one, so isolation covers it |
| Progress.MeasureDrops | cowvm/exec/interp.c:225-305 | With branches to later blocks only and no recursion every iteration strictly lowers the remaining work of the current point and all suspended frames |
| Progress.RunEnds | cowvm/exec/interp.c:29-306 | Such a run has ended once it was given more iterations than that measure |
| Progress.RunWithinBudget | cowvm/exec/interp.c:13-18 | If the longest call chain has k calls and functions have at most v values, every reachable state has at most k frames and its window ends at or below (k+1)*v |
| Progress.RunProgress | cowvm/exec/interp.c:29-306 | Within arrays of that size no run leaves the code, the frame array or the pool: only division, addresses, boolean bytes and missing results can stop it |
| Progress.AlwaysFinishes | cowvm/exec/interp.c:29-306 | Together: such an interpretation returns or stops on one of those data faults, after an explicit number of iterations |
| Lockstep.UnspecifiedBitsNeverMatter | cowvm/exec/interp.c:33-239 | Two interpretations whose pools, unspecified bits and undetermined argument bits differ in any way are, after every number of iterations, at the same place with the same memory, or failed alike, or returned results equal on the determined bits |
| Lockstep.MovesAgree | cowvm/exec/interp.c:33-285 | One instruction of any opcode on related registers asks for related moves |
| Lockstep.DataAgrees | cowvm/exec/interp.c:33-223 | ADD, SUB and MUL agree on the smaller determined width, compares, division, NOT and addresses on full width, loads and stores on the access width |
| Words.Narrow | cowvm/exec/interp.c:40-59 | A narrow write determines exactly the low bits: they are those of the value written, for every choice of the rest |
| LoadStore.LoadAfterStore | cowvm/exec/interp.c:163-223 | In any run, a load of type t from the address of an earlier store of type t whose bytes no store in between touches yields the stored slot for I64, F64 and PTR, its low 32 bits for I32 and F32, its low 16 bits sign-extended to 32 for I16 and its low 8 bits for I8 |
| LoadStore.RunKeepsBytes | cowvm/exec/interp.c:195-223 | A run whose stores avoid a byte range leaves its bytes unchanged |
| Builder.EveryBuildIsWellBuilt | cowvm/lang/builder.c:25-258 | Every sequence of builder calls on a new function whose handles are its own leaves values[i].id = i, arguments first, every other id generated by exactly one instruction, and every operand inside the function's values |
| Builder.ApplyKeeps | cowvm/lang/builder.c:39-258 | Each single builder call keeps that |
| Builder.BuiltModuleStaysInside | cowvm/exec/interp.c:33-285 | At every instruction of a well-built function, in any state, two pools that agree on the current window give the same outcome, memory and control, agree afterwards on the window and on the slots handed over, and keep every other slot; handed over are only a callee's argument slots and a caller's result slot |
| Window.StepStaysInside | cowvm/exec/interp.c:33-285 | The same for any instruction whose operands are the function's own values: one iteration depends on no slot outside the window and changes none but those handed over |
| Built.BuiltAssignsOnce | cowvm/lang/builder.c:39-244 | Every value of a built function that is not an argument is generated at exactly one position of the emitted order |
| Built.BuiltIsWindowed | cowvm/exec/interp.c:261-265 | A module of built functions meets the refinement's condition if and only if no call goes to a function with fewer values |
| Built.BuiltInterpreterIsRecursive | cowvm/exec/interp.c:29-306 | For every module that builder calls can produce, whose calls do not shrink the window and whose registers are written before they are read: interpreting ends as the recursive evaluator does |
| Built.BuiltFragmentComputes | cowvm/gen/x86_64/gen.c:559-828 | For every integer function that builder calls can produce and whose text lies in the fragment: generated code against the interpreter as in FragmentComputes, single assignment and result slots being derived from the build |
| Built.BuiltPathsAgreeIff | cowvm/gen/x86_64/gen.c:559-828 | And, for the same functions, the exact condition on constants and arguments under which the code takes the interpreter's path |
| BuiltSteps.AddedOperator | cowvm/lang/builder.c:85-146 | Whatever is built later, the interpreter at the instruction that an operator call added computes that operator of the first and second handle's slots, in this order, into the next value |
| BuiltSteps.AddedConst | cowvm/lang/builder.c:39-54 | The same for a constant, its kind and its immediate |
| BuiltSteps.AddedNot | cowvm/lang/builder.c:148-163 | The same for NOT |
| BuiltSteps.AddedLoad | cowvm/lang/builder.c:182-198 | The same for a load: it reads at the address in the handle's slot with the type asked for |
| BuiltSteps.AddedStore | cowvm/lang/builder.c:200-206 | The same for a store: it writes the second handle's slot at the address in the first handle's |
| BuiltSteps.AddedCallFunc | cowvm/lang/builder.c:228-244 | The same for a call: it enters the function asked for with the handles' slots in order, to return into the next value |
| BuiltSteps.AddedCallPtr | cowvm/lang/builder.c:208-226 | The same for an indirect call, which the interpreter skips |
| BuiltSteps.AddedBranch | cowvm/lang/builder.c:165-170 | The same for a branch |
| BuiltSteps.AddedCondBranch | cowvm/lang/builder.c:172-179 | The same for a conditional branch: first block on true, second on false |
| BuiltSteps.AddedReturn | cowvm/lang/builder.c:247-252 | The same for a return of a handle's slot |
| BuiltSteps.AddedReturnVoid | cowvm/lang/builder.c:254-258 | The same for a return without a value |
| BuiltSteps.BuiltStays | cowvm/lang/builder.c:39-258 | Later calls leave every instruction where it was built |
| Builder.CowBuilder.CreateBlock | cowvm/lang/builder.c:25-29 | Appends an empty block without making it current |
| Builder.CowBuilder.SetCurrent | cowvm/lang/builder.c:35-37 | Switches the block that grows, nothing else |
| Builder.CowBuilder.GetArg | cowvm/lang/builder.c:31-33 | Returns the value at the index |
| Builder.CowBuilder.ConstInstr | cowvm/lang/builder.c:39-54 | Appends the instruction and its value with the next id, in the current block |
| Builder.CowBuilder.OpInstr | cowvm/lang/builder.c:85-101 | The same for a binary operator; the result has the left operand's type |
| Builder.CowBuilder.NotInstr | cowvm/lang/builder.c:148-163 | The same for NOT |
| Builder.CowBuilder.LoadInstr | cowvm/lang/builder.c:182-198 | The same for a load; the result has the loaded type |
| Builder.CowBuilder.StoreInstr | cowvm/lang/builder.c:200-206 | Appends a store, no value |
| Builder.CowBuilder.CallPtrInstr | cowvm/lang/builder.c:208-226 | Appends an indirect call and its value |
| Builder.CowBuilder.CallFuncInstr | cowvm/lang/builder.c:228-244 | Appends a call and its value of the callee's return type |
| Builder.CowBuilder.Branch | cowvm/lang/builder.c:165-170 | Appends a branch, no value |
| Builder.CowBuilder.CondBranch | cowvm/lang/builder.c:172-179 | Appends a conditional branch, no value |
| Builder.CowBuilder.Return | cowvm/lang/builder.c:247-252 | Appends a return, no value |
| Builder.CowBuilder.ReturnVoid | cowvm/lang/builder.c:254-258 | Appends a return without a value and generates no value for it |
| Builder.CowModule.CreateFunc | cowvm/cow.c:45-65 | Adds a function with one empty current block and the arguments as values 0 to n-1 |
| Fibonacci.BuildFib | cowvm/main.c:11-35 | The builder calls of the sample produce exactly the nine-value module |
| Fibonacci.FibInterpreted | cowvm/main.c:11-35 | On every pool size P and frame count F, for n >= 2 the interpreter returns Fib(n) mod 2^64 if and only if 9n-6 <= P and n-1 <= F, and otherwise stops on a pool or frame overflow; an argument of at most 1, negative ones included, comes back unchanged given three slots |
| Fibonacci.FibLargest | cowvm/exec/interp.c:13-17 | With 5000 slots and 1200 frames it returns Fib(n) mod 2^64 exactly for n <= 556 |
| Fibonacci.FibEval | cowvm/main.c:11-35 | The same for the recursive evaluator at any depth and clock, with the exact number of iterations |
| Fibonacci.FibModuleIsSound | cowvm/main.c:11-35 | The sample meets the conditions of the refinement: no shrinking call, every register written before it is read |
| GrowArray.Array.Add | cowvm/misc/data/array.h:18-27 | Appends keeping contents and order; all reallocations since empty have moved at most twice the present size |
| GrowArray.CapacityForm | cowvm/misc/data/array.h:18-24 | The k-th capacity reached from empty is 2^(k+1)-2, and the moves up to it number that less 2k |
| GrowArray.MovesAreAmortized | cowvm/misc/data/array.h:18-24 | Moves by reallocation never exceed twice the number of elements |
| ByteWriter.Writer.Expand | cowvm/misc/data/byte_writer.c:4-9 | Keeps the bytes and makes room for the write and one byte more, growing to two bytes beyond it |
| ByteWriter.Writer.Uint8 | cowvm/misc/data/byte_writer.c:15-22 | Appends the byte, returns its own start offset, leaves the index strictly below the capacity |
| ByteWriter.Writer.Int32 | cowvm/misc/data/byte_writer.c:33-40 | The same for four little-endian bytes of the low 32 bits |
| ByteWriter.Writer.Int64 | cowvm/misc/data/byte_writer.c:47-54 | The same for eight bytes |
| ByteWriter.Writer.Int32At | cowvm/misc/data/byte_writer.c:42-45 | Overwrites exactly four earlier bytes |
| Words.RoundTripLE | cowvm/misc/data/byte_writer.c:33-54 | Reading n little-endian bytes back gives the number written modulo 256^n |
| Words.ByteOfLE | cowvm/misc/data/byte_writer.c:33-54 | Byte k of those written is digit k to base 256, lowest first |
| Allocator.RegisterAllocator.constructor | cowvm/gen/x86_64/gen.c:65-78 | The table starts with the codes 1, 2, 3, 7, 6, 8 to 15 and a fourteenth slot of code 0, all free |
| Allocator.RegisterAllocator.AllocateRegister | cowvm/gen/x86_64/gen.c:97-108 | Takes the first free slot in place and returns its code, 0 when all are taken |
| Allocator.RegisterAllocator.AssignRegister | cowvm/gen/x86_64/gen.c:123-132 | Overwrites the holder of the first slot with the given code; succeeds exactly when there is one |
| Allocator.RegisterAllocator.SwitchValue | cowvm/gen/x86_64/gen.c:165-174 | Renames the first slot holding the old value; succeeds exactly when the value is held |
| Allocator.RegisterAllocator.RegisterOf | cowvm/gen/x86_64/gen.c:198-206 | Returns the code of the first slot holding the value, else 0 |
| Allocator.RegisterAllocator.AssignArguments | cowvm/gen/x86_64/gen.c:734-799 | The arguments of an integer function go to RCX, RDX, R8, R9 by position, every later one to the slot with code 0 |
| RegisterPass.LateArgumentInRax | cowvm/gen/x86_64/gen.c:788-797 | With more than four arguments the last slot, whose code is RAX, holds the last argument, each one having displaced the one before, and the other slots are as with four |
| RegisterPass.ArgInRegister | cowvm/gen/x86_64/gen.c:760-776 | The first four integer arguments are held in registers 1, 2, 8 and 9 |
| Allocator.ReplaceKeeps | cowvm/gen/x86_64/gen.c:97-174 | Allocation and renaming keep one value per register, move exactly one register, leave all others where they are, and change the occupied count by one or not at all |
| Allocator.DistinctRegisters | cowvm/gen/x86_64/gen.c:198-206 | Two held values with the same register are the same value |
| RegisterPass.AlwaysOrderly | cowvm/gen/x86_64/gen.c:801-816 | At every point of the one pass over an integer function that generates every value once, has at most four arguments and needs at most 14 slots: no two held values share a register and occupied slots = arguments + allocations so far |
| RegisterPass.CountKeptIffItFits | cowvm/gen/x86_64/gen.c:97-108 | For an integer function with at most four arguments that generates every value once, that count is kept at every point if and only if arguments and allocations need at most 14 slots |
| RegisterPass.ScratchNeverAssigned | cowvm/gen/x86_64/gen.c:65-108 | When such a function needs at most 13 slots, no value is ever held in RAX, RSP or RBP, and registers determine their values |
| RegisterPass.RaxTakenIff | cowvm/gen/x86_64/gen.c:65-108 | Some point of the pass over an integer function that generates every value once has a value in RAX if and only if there is a fifth argument or arguments and allocations need 14 slots |
| RegisterPass.FourteenthTakesRax | cowvm/gen/x86_64/gen.c:97-108 | The allocation of such a function with at most four arguments that finds 13 slots taken is given RAX |
| RegisterPass.FourteenConstantsTakeRax | cowvm/gen/x86_64/gen.c:575-584 | The input: the fourteenth of fourteen integer constants is held in RAX |
| RegisterPass.KeepsRegisterUntilConsumed | cowvm/gen/x86_64/gen.c:592-606 | A held value stays in its register until it is the left operand of an ADD |
| TextRegisters.AlwaysFilled | cowvm/gen/x86_64/gen.c:97-108 | At every point the slots that hold values are the arguments' and the first others, as many as there were allocations, so each allocation gets the next slot that no argument has |
| TextRegisters.TextCodeIsRight | cowvm/gen/x86_64/gen.c:97-206 | The register looked up for any value at any point is the one read off the function's text: an argument's by its position, an allocated value's by the number of allocations before it, a sum's that of its left operand if that is held, and 0 otherwise |
| X86.DecodesAt | cowvm/gen/x86_64/gen.c:289-508 | Wherever the bytes of an encodable instruction stand in any code, decoding by the manual's REX and ModR/M rules gives that instruction and its length |
| X86.DecodesExactly | cowvm/gen/x86_64/gen.c:289-508 | Among all register codes below 16 the bytes decode to what was asked for if and only if the instruction is encodable: otherwise they mean another register, another form or nothing |
| X86.DecodesInstead | cowvm/gen/x86_64/gen.c:289-508 | And what they mean then: the register 8 lower, an odd right operand where an ADD's left operand is 8 or above, or no instruction where an address register is RSP or RBP or 8 above these |
| X86.AddModRMBits | cowvm/gen/x86_64/gen.c:372-379 | The unmasked ModR/M byte of ADD, bit by bit, for all codes below 16 |
| X86.ManualEncodings | cowvm/gen/x86_64/gen.c:289-508 | Decoding gives MOV, ADD, CMP, CALL and RET for encodings of the manual, written byte by byte |
| X86.ManualFields | cowvm/gen/x86_64/gen.c:289-508 | The same for JZ, JMP and MOV with a displacement or an immediate |
| Gen.WriteMovRegInt64 | cowvm/gen/x86_64/gen.c:289-293 | Writes the bytes of mov reg, imm64 and returns the offset of the immediate |
| Gen.WriteMovRegToReg | cowvm/gen/x86_64/gen.c:309-325 | Writes mov with REX.R and REX.B from the fourth bits, nothing when source and destination coincide |
| Gen.WriteMovRegToMem | cowvm/gen/x86_64/gen.c:296-300 | Writes the 64-bit store |
| Gen.WriteMovMemToReg | cowvm/gen/x86_64/gen.c:303-307 | Writes the 64-bit load |
| Gen.WriteAddRegToReg | cowvm/gen/x86_64/gen.c:372-379 | Writes the two-byte ADD without a prefix, including the byte that codes above 7 give |
| Gen.WriteJmp | cowvm/gen/x86_64/gen.c:469-478 | Writes JMP with an empty field and returns the field's offset |
| Gen.WriteCondJmp | cowvm/gen/x86_64/gen.c:480-492 | Writes CMP with 0 and JZ with an empty field and returns the field's offset |
| Gen.WriteCallDirect | cowvm/gen/x86_64/gen.c:500-504 | Writes the load of an empty address and the call through RAX and returns the immediate's offset |
| Gen.Generator.JitInstr | cowvm/gen/x86_64/gen.c:559-732 | One opcode of an integer function in place: bytes appended, table updated, fields recorded, exactly as the instruction selection says |
| Gen.Generator.EmitBlocks | cowvm/gen/x86_64/gen.c:805-816 | The pass over all blocks of an integer function yields the instructions of the whole function and each block's code offset |
| Gen.Generator.PatchBranches | cowvm/gen/x86_64/gen.c:818-824 | The in-place patch loop, with its 64-bit subtraction truncated to 32 bits, yields the fully resolved code |
| Gen.Generator.JitFunc | cowvm/gen/x86_64/gen.c:801-828 | From an empty generator: code, block offsets and recorded calls of an integer function |
| Emission.PatchingResolves | cowvm/gen/x86_64/gen.c:818-824 | Patching all recorded fields resolves every branch, forward and backward, and changes no other byte |
| Emission.DecodesItem | cowvm/gen/x86_64/gen.c:289-508 | In finished code under 2^31 bytes every instruction decodes at its offset to what was meant, ends where the next begins, and a branch leads to its block's code offset |
| Emission.DecodesItemIn | cowvm/gen/x86_64/gen.c:289-508 | The same for bytes that only start with the finished code, as a copied region does |
| Emission.DisassemblesWhole | cowvm/gen/x86_64/gen.c:289-508 | A linear sweep over finished code of encodable instructions gives exactly the emitted instructions, without gap or overlap |
| Emission.DisassemblesIff | cowvm/gen/x86_64/gen.c:289-508 | The sweep gives them back if and only if every emitted instruction is encodable |
| RegisterPass.CodeReadsBackIff | cowvm/gen/x86_64/gen.c:801-828 | For every integer function: the sweep gives its code back if and only if no instruction of the emitted list needs a register its encoder cannot name |
| TextRegisters.CodeReadsBackIffText | cowvm/gen/x86_64/gen.c:801-828 | For every integer function that fits the 14 slots the condition is on its text: the sweep gives the code back if and only if at every position the registers of result and operands, as read off argument positions and allocation counts, are RAX to RDI |
| Fragment.FragmentDisassembles | cowvm/gen/x86_64/gen.c:801-828 | For every function of the fragment, all integer functions, that sweep applies, with every branch leading to its block |
| FragmentRuns.FragmentMatchesInterpreter | cowvm/gen/x86_64/gen.c:559-828 | An integer function of CONST, ADD, BR, COND_BR and RET with at most five registers, definitions before uses on paths and in emission order and each ADD's left operand defined earlier in its block and unused afterwards, called with its arguments in registers: as long as branches test slots on which both tests agree, bytes that start with the generated code follow the interpreter block by block, loops included, every usable value in its register exactly or as its extended low half; it returns with the same memory and RAX in the form of the RET's operand, which is the whole result if and only if that form is exact or the upper half is the extension |
| FragmentRuns.FragmentComputes | cowvm/gen/x86_64/gen.c:559-828 | The same under a condition on constants and arguments alone, with RAX given as a fixed function of them; if no CONST_I32 enters the result, the interpreter's word is such a function too, and RAX is that word if and only if the result's form keeps the 64-bit value computed from constants and arguments |
| FragmentRuns.FragmentPathsAgreeIff | cowvm/gen/x86_64/gen.c:559-828 | As long as the interpreter meets no fault, the generated code takes the interpreter's path if and only if both tests agree at every conditional branch on the way that constants and arguments determine, for the same functions |
| Fixed.ValueEquations | cowvm/gen/x86_64/gen.c:564-606 | In the fragment every value is a fixed function of the arguments: a constant is itself, a sum the 64-bit sum of its operands' values; and a value into which no CONST_I32 enters is one whose operands are such values |
| Fixed.AllWhole | cowvm/exec/interp.c:33-59 | In a function of the fragment without CONST_I32 every value is determined in all 64 bits |
| Fixed.TestsAgreeIffValue | cowvm/exec/interp.c:231-239 | At a branch whose condition is set, the tests of both engines agree on the slot if and only if they agree on its fixed value |
| Fixed.RunAgreesIffWalk | cowvm/exec/interp.c:225-239 | The tests of a run without fault agree if and only if they agree along the positions computed from constants and arguments |
| Divergence.EnginesDisagree | cowvm/gen/x86_64/gen.c:480-492 | Branching on the constant 256 the interpreter returns 0 and the generated code 1 |
| Divergence.UpperHalfIsLost | cowvm/gen/x86_64/gen.c:372-379 | Adding 1 to 2^32 - 1 the interpreter returns 2^32 and the generated code 0 |
| Divergence.ThirdArgumentIsIgnored | cowvm/gen/x86_64/gen.c:372-379 | Adding a third argument to a constant the interpreter returns their sum, while the generated code adds what RAX happens to hold |
| JitCorrectness.JitMatchesInterpreter | cowvm/gen/x86_64/gen.c:559-828 | The same for every integer function without calls that has a certificate of which values each block may use, which also covers 64-bit loads and stores; RAX is the result in the certified form of the RET's operand |
| JitCorrectness.FormIsExact | cowvm/gen/x86_64/gen.c:688-697 | A form keeps the whole word if and only if it is exact or the upper half is the zero or sign extension it makes |
| Paths.JitPathsAgreeIff | cowvm/gen/x86_64/gen.c:710-725 | For every such integer function without empty blocks, up to any number of iterations without fault: the processor's path, read off its program counter alone, is the interpreter's if and only if the tests agree at every conditional branch of the interpreter's run |
| Paths.PathsAgreeIff | cowvm/gen/x86_64/gen.c:700-725 | The same, for integer functions, from any pair of related states |
| JitCorrectness.SameBlockIffSameTest | cowvm/gen/x86_64/gen.c:710-725 | At a conditional branch with two different targets both engines go to the same block if and only if the slot's low byte is 1 or the register is 0 |
| JitCorrectness.SameTestIsExact | cowvm/exec/interp.c:231-239 | For a proper boolean byte, testing the register and testing the byte agree exactly under that condition |
| JitCorrectness.BooleanRunsAgree | cowvm/exec/interp.c:231-239 | Runs that only branch on 0 and 1 meet the condition on tests |
| JitCorrectness.StepPace | cowvm/gen/x86_64/gen.c:559-732 | In an integer function with a certificate one iteration of the interpreter is one or more steps of the processor, with all usable values still in their registers |
| Simulation.DataSim | cowvm/gen/x86_64/gen.c:564-619 | One integer constant, integer addition, load or store: the processor's step gives the registers that the interpreter's slots require |
| Simulation.SumMatches | cowvm/gen/x86_64/gen.c:372-379 | The 32-bit ADD of registers holding any of the three forms is the zero-extended low half of the 64-bit sum of the slots |
| Fragment.FragmentIsSimulated | cowvm/gen/x86_64/gen.c:559-828 | Every function of the fragment, all integer functions, has such a certificate, built from the register table alone |
| Leaf.LeafEvaluation | cowvm/exec/interp.c:4-308 | A function without calls is interpreted the same whatever the rest of its module |
| Link.LinkingResolvesCalls | cowvm/cow.c:34-42 | Writing every recorded address turns exactly the direct calls of the finished code into loads of their targets' addresses, every other byte as before |
| Link.LinkedCallDecodes | cowvm/cow.c:34-42 | A linked call decodes to the load of the entry of its target in the list of addresses, recursive and forward calls alike |
| Link.AllFieldsDisjoint | cowvm/cow.c:34-42 | Branch fields and call immediates are pairwise disjoint and inside the code |
| Link.LinkingTouchesCalls | cowvm/cow.c:34-42 | Bytes outside the recorded immediates are as generated |
| Link.PatchingTouchesSites | cowvm/gen/x86_64/gen.c:818-824 | Bytes outside the recorded branch fields are as first written |
| Link.CopyCode | cowvm/cow.c:25-32 | The copy of one byte more than was written stays inside the writer's buffer, except when nothing was written and there is no buffer; the region then starts with the code |
| Link.LinkCalls | cowvm/cow.c:37-41 | The in-place loop over one function's recorded calls gives the linked code; with disjoint fields the eight bytes at every recorded offset read back as the address of the function recorded with it |
| Link.LinkedAddress | cowvm/cow.c:37-41 | Every immediate reads back as the entry of its call's target in the list of addresses |
| Selection.RecordedCalls | cowvm/gen/x86_64/gen.c:667-672 | The calls recorded for linking are, in order, one for each direct call of the text, two bytes into its code, with the function it names |
| Selection.RecordedIffCalled | cowvm/gen/x86_64/gen.c:667-672 | A function is recorded at an offset if and only if a direct call of the text names it and its code starts two bytes before |
| Selection.CallReachesTarget | cowvm/gen/x86_64/gen.c:667-672 | In linked code the bytes at every direct call of an integer function's text decode to the load of the address of the function it names and, ten bytes later, the call through that register |
| Selection.PositionDecodes | cowvm/gen/x86_64/gen.c:559-732 | For an integer function that fits the 14 slots, the linked code of every position whose registers the encoders can name decodes, from its first byte to the next position's, to exactly the instructions its opcode asks for, with operand and result registers read off the text, branch distances to the blocks named and the address of the function named |
| RegisterPass.HasCodeIff | cowvm/gen/x86_64/gen.c:559-732 | An integer function has code if and only if its text contains an instruction other than SUB, MUL, DIV, IDIV, a comparison, NOT, CONST_I16 or CONST_I8 |
| RegisterPass.SubtractionHasNoCode | cowvm/gen/x86_64/gen.c:559-732 | The input: the function whose one instruction subtracts its argument from itself is an integer function without code |
| Emission.FloatSampleIsNotIntegral | cowvm/main.c:53-67 | The float function of the sample program is not an integer function, for its return type, each of its constants and each of its additions |
| ModuleJit.CopyAll | cowvm/cow.c:24-32 | Every function is copied to a region of its own, distinct from all others, exactly when every function contains an instruction for which code is generated |
| ModuleJit.JitModule | cowvm/cow.c:21-43 | Generating, copying and linking all functions of a module of integer functions leaves in every region its function's code with branches resolved and every direct call of the text carrying the base of the function it names; it fails if and only if some function contains no instruction for which code is generated |
| ModuleJit.LinkingKeepsFragment | cowvm/cow.c:34-42 | Linking leaves the code of a function of the fragment as generated |
| ModuleJit.ExecutableComputes | cowvm/cow.c:24-42 | On the contents of a linked region, the extra byte included, the processor does what FragmentComputes says |

## Left out

- Floating point: XMM registers and their encoders, decimal constants, additions, arguments and
  returns; they need IEEE arithmetic, and the bytes written do not match their stated meaning.
- Gen.Generator.JitInstr: requires an integral instruction; an indirect call (CALL_PTR), with its
  argument moves, shadow space and pops, and decimal constants and operands are not modelled. For
  CALL_FUNC it models the bytes of the call and of the result move, with the return type that is
  read from memory nobody wrote as an arbitrary void or integer reading.
- What generated calls do when executed: control leaves the code the processor model runs.
- Gen.Generator.EmitBlocks: requires an integer function, for the same reason.
- Gen.Generator.JitFunc: requires an integer function, for the same reason.
- Allocator.RegisterAllocator.AssignArguments: arguments are integers; decimal arguments, which the
  program also looks up in the integer table, are not modelled.
- FragmentRuns.FragmentMatchesInterpreter: excludes loads and stores, which
  JitCorrectness.JitMatchesInterpreter covers where address and stored value are held exactly,
  because the code always moves 64 bits; says nothing once the interpreter has stopped on a fault.
- FragmentRuns.FragmentComputes: for a result into which a CONST_I32 enters only the low 32 bits of
  the interpreter's word are given, because C leaves the upper half of that slot unspecified.
- Opcodes for which no code is generated (SUB, MUL, DIV, IDIV, comparisons, NOT, CONST_I16,
  CONST_I8): interpreter only.
- InterpLoop.Interpreter.Loop: the loop has no bound of its own; `limit` cuts off a run that has not
  ended, and all results hold for every limit.
- InterpLoop.Interpreter.Dispatch: an indirect call only prints, so it changes nothing; a nested
  return without a value, which reads a value handle nobody set, stops with a fault.
- Builder.CowBuilder.ConstInstr: takes the constant as the 64-bit word that is stored, so the casts
  in the typed constant builders are their callers'.
- ModuleJit.JitModule: requires integer functions, as Gen.Generator.JitFunc does. Executable
  regions are fresh arrays and their addresses are given by a sequence; a region's address and the
  bytes a processor fetches from it are not connected. A call to a function outside the module is
  linked to address 0.
- ByteWriter.Writer.Expand: capacity is the length of the buffer; a failing reallocation is not
  modelled.
- Writers for 8-bit signed and floating values, `array_pop`, `array_get`, `array_remove`, freeing
  functions, `cow_find_function`, the type constructors, timing and printing: easy or outside the
  program's logic.
- Branch targets in another function: a field for such a block is patched relative to offset 0 in
  the model, while the program would use the other function's offset.
- Encoders that nothing calls (`write_sub_reg_to_reg`, `write_div_reg` and similar).
