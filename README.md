# Lungo CIL interpreter — a verified Dafny model

Lungo runs the `Main` method of a compiled C# program by interpreting its CIL
(the ECMA-335 Common Intermediate Language) byte by byte. Its core is the loop
`VM._Run` in `Lungo/VM.cs`. The loop walks an instruction pointer `i` over the
method's byte array. It decodes one opcode per pass and applies the opcode to
the current `Frame` (`Lungo/Frame.cs`): an operand stack, a fixed array of local
slots, and the `object[]` arrays those slots and stack entries may refer to.
`VM.Run` pushes a fresh frame on the VM's call stack, runs the loop, and pops
the frame again.

The model has two layers.

- **Specification** (`semantics.dfy`, module `Semantics`): one pass of the loop
  is a function `Step` on an abstract state. The state holds the instruction
  pointer, the operand stack (top at the end), the locals, and the contents of
  every array allocated so far. `Exec` runs the loop for a given number of
  passes; `Resume` is one pass followed by the rest of the run.
- **Implementation** (`frame.dfy`, `vm.dfy`): the interpreter as the program is
  written. `Frames.Frame` is a class with an `array<Value>` of locals and a
  stack field that `Push`/`Pop`/`Peek` update. `Vm.Heap` is an arena of Dafny
  arrays shared by handle, so two stack slots holding the same handle alias one
  array. `Vm.VM.Step` decodes and dispatches one opcode in place.
  `Vm.VM.Execute` is the `while (i < cil.Length)` loop. `Vm.VM.Run` pushes and
  pops the frame. Each method is proved to compute exactly what `Semantics`
  defines.

`int32.dfy` holds C#'s unchecked `int` arithmetic: wrap-around, truncating
division with its two exceptions, `amt & 31` shifts, and bitwise operations
on the two's-complement pattern. It also holds the byte decodings (`(sbyte)`,
`BitConverter.ToInt16`). `properties.dfy` states each instruction family's
effect and the loop's termination behaviour. `programs.dfy` proves what `Exec`
returns for small complete method bodies.

The model follows the code as written, including these behaviours:

- `ldc.i4.s` zero-extends its operand byte, so it pushes 0..255.
- `brtrue.s` branches only when the popped int is exactly 1.
- `ret` only advances `i`. It does not end the loop.
- `stelem.ref` pops three values and stores nothing.
- The operand stack has no upper bound. The declared maximum stack depth only
  sizes the stack's initial storage.
- An unknown opcode, or `0xFE` followed by a byte other than 1, 2 or 4, stops
  the loop without an error.
- `ldstr` looks up only the low two bytes of its token, read as a signed 16-bit
  little-endian value.
- `conv.i4` pushes a `long`: the handler's switch expression has type `long`.
  `conv.i1`/`conv.i2` always throw, because unboxing needs a boxed `sbyte` or
  `short`, and none ever exists. `conv.i8` needs a boxed `long`.
- `stelem.i1`, `stelem.i2` and `stelem.r4` always throw for the same reason.
  `stelem.i4`, `.i8` and `.r8` need a boxed int, long and double. `stelem.i`
  (0x9B) stores any value.
- `ldelem.i4` unboxes the element, so a null element throws.
- Every exception propagates out of `Run`, and none is caught. The model
  collapses all of them into one fault outcome. On a fault the pushed frame
  stays on the call stack.

Several of these behaviours depart from the CIL instruction set as ECMA-335
Partition III defines it. The model follows the code each time:

- Section 3.40 (`ldc`) gives `ldc.i4.s` a signed int8 operand; the code
  zero-extends it.
- The `brtrue` entry branches on any non-zero value; the code branches only
  on 1.
- The `ret` entry returns from the method; the code only advances `i`.
- The `stelem.ref` entry stores its value; the code discards it.
- The standard bounds the evaluation stack by the method's `.maxstack`; the
  code never checks the depth.

## Model

| member | source | states |
|---|---|---|
| `Frames.Frame.constructor` | Lungo/Frame.cs:26-30 | a new frame has exactly `maxLocals` local slots, every one null, and an empty operand stack; `maxStack` constrains nothing |
| `Frames.Frame.Push` | Lungo/Frame.cs:29 | pushing appends to the stack and never fails, whatever the depth |
| `Frames.Frame.Pop` | Lungo/VM.cs:165-169 | on an empty stack the pop fails and the stack is unchanged; otherwise it returns the top entry and removes exactly that entry |
| `Frames.Frame.Peek` | Lungo/VM.cs:159-163 | fails exactly on an empty stack; otherwise returns the top entry without changing the stack |
| `Int32Ops.Wrap32` | Lungo/VM.cs:221-225 | the result is the unique Int32 congruent to the exact result modulo 2^32, and equals it when it fits (unchecked `int` arithmetic) |
| `Int32Ops.TruncDiv` | Lungo/VM.cs:226 | C# integer division: the remainder is smaller than the divisor in magnitude and has the dividend's sign, and the quotient never exceeds the dividend in magnitude |
| `Int32Ops.Div32` | Lungo/VM.cs:226 | `b / a` on ints fails exactly when `a == 0` or `b == int.MinValue && a == -1`; otherwise it is the truncated quotient, which fits in an int |
| `Int32Ops.QuotientFits` | Lungo/VM.cs:226 | apart from `int.MinValue / -1`, a truncated quotient of two ints is an int |
| `Int32Ops.ShiftCount` | Lungo/VM.cs:274-275 | the shift count is below 32 and congruent to `amt` modulo 32, which is `amt & 31` |
| `Int32Ops.HalveTimes` | Lungo/VM.cs:275 | an arithmetic right shift keeps the sign and never increases the magnitude |
| `Int32Ops.HalveTimesIsFloorDiv` | Lungo/VM.cs:275 | an arithmetic right shift by s is floor division by 2^s |
| `Int32Ops.And32` | Lungo/VM.cs:250 | `i1 & i2` on the two's-complement pattern; stated by `Properties.BitwiseAndShifts` and `BitwiseCommutes` |
| `Int32Ops.Or32` | Lungo/VM.cs:251 | bitwise or of `i1` and `i2` on the two's-complement pattern; stated by `Properties.BitwiseAndShifts` and `BitwiseCommutes` |
| `Int32Ops.Xor32` | Lungo/VM.cs:252 | `i1 ^ i2` on the two's-complement pattern; stated by `Properties.BitwiseAndShifts` and `BitwiseCommutes` |
| `Int32Ops.Shl32` | Lungo/VM.cs:274 | `val << amt`: val times 2^(amt & 31), wrapped to 32 bits |
| `Int32Ops.Shr32` | Lungo/VM.cs:275 | `val >> amt`: an arithmetic shift by `amt & 31`, which `Int32Ops.HalveTimesIsFloorDiv` proves is floor division by 2^(amt & 31) |
| `Int32Ops.SignedByte` | Lungo/VM.cs:179 | `(sbyte) b` lies in -128..127 and is congruent to `b` modulo 256 |
| `Int32Ops.Int16LE` | Lungo/VM.cs:308 | `BitConverter.ToInt16` of two bytes lies in the signed 16-bit range and is congruent to `lo + 256 * hi` modulo 2^16 |
| `Semantics.Initial` | Lungo/Frame.cs:26-30 | the loop starts at `i = 0` with an empty stack and `localCount` null locals, and this state is well formed |
| `Semantics.Step` | Lungo/VM.cs:60-454 | one pass of the loop; a pass that completes leaves a well-formed state, in which every array reference refers to an allocated array |
| `Semantics.Exec` | Lungo/VM.cs:60-63 | the loop run for at most `fuel` passes: it ends normally once `i >= cil.Length`, reports an exhausted budget, or continues with `Resume`; its properties are in `Properties.FinishedRun`, `StoppedRun` and `MoreFuel` |
| `Semantics.Resume` | Lungo/VM.cs:60-454 | one pass followed by the rest of the loop: a completed pass continues with one unit less, the `default` branch ends the loop normally with the state before it, and an exception ends the run |
| `Semantics.StepLow` | Lungo/VM.cs:66-211 | the dispatch for `nop` to `brtrue.s`; stated by `Properties.OnlyAdvances`, `SmallConstants`, `LoadNull`, `DupAndPop`, `LocalRoundTrip` and `Branches` |
| `Semantics.StepHigh` | Lungo/VM.cs:213-453 | the dispatch for `add` to the `0xFE` prefix, with any other opcode stopping the loop; stated by `Properties.HaltIff` and the per-family lemmas |
| `Semantics.LoadLocal` | Lungo/VM.cs:76-106 | pushes local k, or throws when k is not a slot; stated by `Properties.LocalRoundTrip`, `LocalOutOfRange` and `FreshFrame` |
| `Semantics.StoreLocal` | Lungo/VM.cs:87-115 | pops into local k, or throws on an empty stack or a bad slot; stated by `Properties.LocalRoundTrip` and `LocalOutOfRange` |
| `Semantics.Branch` | Lungo/VM.cs:176-211 | `br.s`, `brfalse.s`, `brtrue.s`; stated by `Properties.Branches`, `BranchFallsOffTheEnd` and `SelfLoop` |
| `Semantics.IntBinary` | Lungo/VM.cs:219-275 | the int result of each arithmetic, bitwise and shift opcode, or none where C# throws; stated by `Properties.Arithmetic` and `BitwiseAndShifts` |
| `Semantics.Binary` | Lungo/VM.cs:213-282 | pops two ints and pushes the result; stated by `Properties.Arithmetic`, `BitwiseAndShifts` and `BinaryNeedsInts` |
| `Semantics.Convert` | Lungo/VM.cs:284-303 | `conv.i1`/`i2`/`i4`/`i8`; stated by `Properties.Conversions` |
| `Semantics.StringKey` | Lungo/VM.cs:308 | the signed 16-bit key `ldstr` reads from the first two token bytes; stated by `Properties.StringKeyIgnoresHighBytes` |
| `Semantics.LoadString` | Lungo/VM.cs:305-313 | `ldstr`; stated by `Properties.LoadStringLookup` |
| `Semantics.NewArray` | Lungo/VM.cs:315-327 | `newarr`; stated by `Properties.NewArrayEffect`, `NewArrayThenLength` and `Semantics.NewArrayKeepsWellFormed` |
| `Semantics.ArrayLength` | Lungo/VM.cs:329-343 | `ldlen`; stated by `Properties.NewArrayThenLength` and `LengthNeedsArray` |
| `Semantics.LoadElement` | Lungo/VM.cs:345-362 | `ldelem.i4`/`ldelem.ref`; stated by `Properties.ElementRoundTrip`, `LoadNullElement`, `ElementOutOfRange` and `DupSharesArray` |
| `Semantics.Stored` | Lungo/VM.cs:376-386 | the value each `stelem` variant writes, or none where unboxing throws; stated by `Properties.StoreElementValue` (what a successful store writes) and `StoreElementKinds` (when it throws) |
| `Semantics.StoreElement` | Lungo/VM.cs:364-395 | `stelem.i` to `stelem.r8`; stated by `Properties.StoreElementI4`, `StoreElementKinds`, `ElementOutOfRange` and `DupSharesArray` |
| `Semantics.SameObject` | Lungo/VM.cs:418 | the reference comparison `v1 == v2` of `ceq`'s fallback; stated by `Properties.CompareReferences` |
| `Semantics.Compare` | Lungo/VM.cs:405-449 | `ceq`, `cgt`, `clt`, and the quiet stop on any other second byte; stated by `Properties.CompareInts` and `CompareReferences` |
| `Semantics.LowKeepsWellFormed` | Lungo/VM.cs:66-211 | the load, store, constant, stack and branch handlers create no handle to an array that does not exist |
| `Semantics.HighKeepsWellFormed` | Lungo/VM.cs:213-449 | the operator, conversion, string and array handlers create no handle to an array that does not exist |
| `Semantics.NewArrayKeepsWellFormed` | Lungo/VM.cs:315-327 | `newarr` keeps every handle valid: the new handle refers to the newly allocated array, and no array exceeds the `int` length range |
| `Semantics.StoreElementKeepsWellFormed` | Lungo/VM.cs:364-395 | a `stelem` store writes a value whose handle, if any, is valid, so every handle in every array stays valid |
| `Vm.Heap.constructor` | Lungo/VM.cs:38-46 | before the first method runs no array exists |
| `Vm.Heap.Allocate` | Lungo/VM.cs:323 | `new object[len]` adds one fresh array of `len` nulls, distinct from all others, and changes no existing array |
| `Vm.Heap.Store` | Lungo/VM.cs:376-386 | `arr[pos] = v` changes exactly one element of one array |
| `Vm.Heap.Load` | Lungo/VM.cs:349 | `arr[idx]` returns the element the contents hold there |
| `Vm.Heap.Length` | Lungo/VM.cs:334 | `arr.Length` is the length of the array's contents |
| `Vm.VM.constructor` | Lungo/VM.cs:39-47 | a new VM has an empty call stack |
| `Vm.VM.Run` | Lungo/VM.cs:464-481 | runs the loop from a fresh frame; it ends normally exactly when the loop does, and then the call stack is as it was; on an exception the pushed frame stays on top |
| `Vm.VM.Execute` | Lungo/VM.cs:55-456 | the in-place loop ends normally, throws, or uses up its budget exactly as `Semantics.Exec` does, and on a normal end leaves the frame's stack, locals and arrays equal to the final abstract state |
| `Vm.VM.Pass` | Lungo/VM.cs:60-454 | one pass of the loop continues the run: with budget n before the pass, the run from the new state with budget n - 1 has the same outcome; a quiet stop ends the run normally with the state untouched, and a fault ends it with an exception |
| `Vm.VM.Step` | Lungo/VM.cs:63-454 | one in-place pass of decode and dispatch realises `Semantics.Step`: same new `i`, stack, locals and arrays, or the same quiet stop (state untouched) or fault |
| `Vm.VM.StepLow` | Lungo/VM.cs:66-211 | the in-place handlers of the opcodes below 0x58 realise `Semantics.StepLow` and leave the heap valid |
| `Vm.VM.StepHigh` | Lungo/VM.cs:213-453 | the in-place handlers of the opcodes from 0x58 on realise `Semantics.StepHigh`; every array they add to the heap is freshly allocated |
| `Vm.VM.PushValue` | Lungo/VM.cs:117-163 | the constant, `ldnull` and `dup` handlers push exactly one value and move `i` past the instruction |
| `Vm.VM.LoadLocal` | Lungo/VM.cs:76-106 | realises `Semantics.LoadLocal` on the frame |
| `Vm.VM.StoreLocal` | Lungo/VM.cs:87-115 | realises `Semantics.StoreLocal`, writing the local slot in place |
| `Vm.VM.Branch` | Lungo/VM.cs:176-211 | realises `Semantics.Branch` |
| `Vm.VM.Binary` | Lungo/VM.cs:213-282 | realises `Semantics.Binary`: pops two ints, pushes the one result |
| `Vm.VM.Convert` | Lungo/VM.cs:284-303 | realises `Semantics.Convert` |
| `Vm.VM.LoadString` | Lungo/VM.cs:305-313 | realises `Semantics.LoadString` |
| `Vm.VM.NewArray` | Lungo/VM.cs:315-327 | realises `Semantics.NewArray` by allocating a fresh array in the heap |
| `Vm.VM.ArrayLength` | Lungo/VM.cs:329-343 | realises `Semantics.ArrayLength` |
| `Vm.VM.LoadElement` | Lungo/VM.cs:345-362 | realises `Semantics.LoadElement` |
| `Vm.VM.StoreElement` | Lungo/VM.cs:364-395 | realises `Semantics.StoreElement`, writing the shared array in place |
| `Vm.VM.Compare` | Lungo/VM.cs:405-449 | realises `Semantics.Compare` |
| `Properties.HaltIff` | Lungo/VM.cs:451-453 | a pass stops the loop quietly if and only if the opcode at `i` has no handler (including `0xFE` followed by a byte other than 1, 2 or 4) |
| `Properties.StepShape` | Lungo/VM.cs:66-449 | every completed pass advances `i` by the instruction's width (1, 2, 5 or 9), or to the branch target for a branch. It replaces exactly the instruction's popped entries by its pushed ones, leaving the rest of the stack alone. It keeps the number of locals and never removes or resizes an array |
| `Properties.Underflow` | Lungo/VM.cs:161-167 | an instruction that needs more operands than the stack holds throws instead of reading stale data |
| `Properties.SmallConstants` | Lungo/VM.cs:124-148 | opcodes 0x15..0x1E push `opcode - 0x16` (-1..8) and advance by 1. `ldc.i4.s` pushes its operand byte zero-extended (0..255) and advances by 2; it throws when the operand byte is missing |
| `Properties.OnlyAdvances` | Lungo/VM.cs:66-174 | `nop`, `break` and `ret` advance `i` by one and change nothing else; they never throw and never end the loop |
| `Properties.LoadNull` | Lungo/VM.cs:117-122 | `ldnull` pushes Null and advances by one |
| `Properties.DupAndPop` | Lungo/VM.cs:159-169 | `dup` pushes a copy of the top entry (for an array, the same handle) and `pop` drops it; both throw on an empty stack |
| `Properties.Arithmetic` | Lungo/VM.cs:213-239 | with `b` pushed before `a`: `add` gives a+b, `sub` b-a, `mul` a*b, all wrapped to 32 bits. `div` gives b/a truncated, or throws on a = 0 and on int.MinValue / -1. Only the two operands are replaced; the locals are unchanged |
| `Properties.BitwiseAndShifts` | Lungo/VM.cs:241-282 | `and`/`or`/`xor` combine the two ints bitwise; `shl`/`shr` shift the value pushed first by the amount pushed last |
| `Properties.BitwiseCommutes` | Lungo/VM.cs:248-254 | the bitwise opcodes do not depend on operand order |
| `Properties.BinaryNeedsInts` | Lungo/VM.cs:219-235 | an arithmetic, bitwise or shift opcode with a non-int operand throws |
| `Properties.LocalRoundTrip` | Lungo/VM.cs:76-115 | `stloc k` then `ldloc k` (compact or `.s` form) leaves the stored value on top, the stack as before, local k holding the value, and every other local unchanged |
| `Properties.LocalOutOfRange` | Lungo/VM.cs:82-111 | a local index outside the frame's slots throws, for loads and stores |
| `Properties.FreshFrame` | Lungo/Frame.cs:28-29 | in a new frame, `ldloc.0`..`ldloc.3` and `ldloc.s n` of an existing slot push Null, and any instruction that pops throws |
| `Properties.StackUnbounded` | Lungo/Frame.cs:29 | pushing a constant succeeds at any stack depth |
| `Properties.TruncatedCode` | Lungo/VM.cs:60-211 | a negative instruction pointer throws. With the operand byte missing, `ldloc.s`, `stloc.s`, `ldc.i4.s`, `br.s` and a taken `brfalse.s`/`brtrue.s` throw, and so does the 0xFE prefix, whose case guard at line 405 reads the second byte; `ldc.r8` with fewer than 8 payload bytes throws too |
| `Properties.LoadDouble` | Lungo/VM.cs:150-157 | `ldc.r8` pushes its 8 payload bytes as an uninterpreted double and advances by 9 |
| `Properties.Branches` | Lungo/VM.cs:176-211 | `br.s` jumps to `i + 2 + (sbyte) cil[i+1]`. `brfalse.s` jumps there iff the popped int is 0 and `brtrue.s` iff it is 1; otherwise they fall through to `i + 2`. A popped non-int throws |
| `Properties.BranchFallsOffTheEnd` | Lungo/VM.cs:183-211 | a conditional branch in the last byte that is not taken does not read its missing operand; the loop then ends |
| `Properties.SelfLoop` | Lungo/VM.cs:176-181 | `br.s` with offset -2 branches to itself and the loop never ends, whatever the budget |
| `Properties.NewArrayEffect` | Lungo/VM.cs:315-327 | `newarr` throws exactly when the stack is empty or its top is not a non-negative int. Otherwise it pops the length, pushes a handle to one new all-null array of that length appended to the heap, leaves the locals alone and advances by 5; it never stops the loop quietly |
| `Properties.NewArrayThenLength` | Lungo/VM.cs:315-343 | `newarr` with a negative length throws. Otherwise it pushes a handle to a new all-null array of that length, distinct from every existing array, and `ldlen` pushes the length back |
| `Properties.LengthNeedsArray` | Lungo/VM.cs:332-339 | `ldlen` on anything but an array throws |
| `Properties.StoreElementI4` | Lungo/VM.cs:364-395 | `stelem.i4` succeeds iff the index is in range, and then writes exactly that element; every other element and array is unchanged |
| `Properties.ElementRoundTrip` | Lungo/VM.cs:345-395 | after `stelem.i4` of x at p, `ldelem.i4` at p through any reference to the same array (such as a `dup` copy) pushes x |
| `Properties.DupSharesArray` | Lungo/VM.cs:159-163 | after `dup` of an array handle, `stelem.i4` of x at p through one copy and then `ldelem.i4` at p through the other pushes x; the store changes that one element only |
| `Properties.LoadNullElement` | Lungo/VM.cs:345-362 | `ldelem.i4` of a null element throws, and `ldelem.ref` pushes Null |
| `Properties.ElementOutOfRange` | Lungo/VM.cs:349-376 | an array index out of range throws, for loads and stores |
| `Properties.StoreElementValue` | Lungo/VM.cs:364-395 | with an array, an in-range int index and a value the variant accepts (anything for `stelem.i`, an int, long or double for `.i4`, `.i8`, `.r8`), the store writes exactly that value at that index, pops the three entries and advances by 1; nothing else changes |
| `Properties.StoreElementKinds` | Lungo/VM.cs:376-386 | `stelem.i1`/`.i2`/`.r4` always throw; `.i4`/`.i8`/`.r8` throw unless the value is an int, long or double |
| `Properties.StoreElementRefDiscards` | Lungo/VM.cs:397-403 | `stelem.ref` drops three stack entries and changes nothing else, or throws with fewer than three |
| `Properties.Conversions` | Lungo/VM.cs:284-303 | `conv.i1`/`conv.i2` always throw. `conv.i4` turns an int into a long of the same value and throws otherwise. `conv.i8` succeeds exactly on a long and then leaves the stack as it was |
| `Properties.CompareInts` | Lungo/VM.cs:405-449 | on two ints, with v1 popped first: `ceq` pushes 1 iff they are equal, `cgt` iff v2 > v1, `clt` iff v2 < v1, and 0 otherwise; each advances `i` by 2 |
| `Properties.CompareReferences` | Lungo/VM.cs:414-445 | not both ints: `cgt`/`clt` throw. `ceq` pushes 1 for null/null and compares arrays by identity. An int never equals a non-int |
| `Properties.LoadStringLookup` | Lungo/VM.cs:305-313 | `ldstr` with a registered key pushes exactly that string and advances by 5; an unknown key or a truncated token throws |
| `Properties.StringKeyIgnoresHighBytes` | Lungo/VM.cs:308 | the last two token bytes never affect `ldstr` |
| `Properties.FinishedRun` | Lungo/VM.cs:451-453 | a run that ends normally ends at `i >= cil.Length` or at an undecodable opcode, keeping the number of locals and every array |
| `Properties.StoppedRun` | Lungo/VM.cs:60-64 | at the end of the code, or at an undecodable opcode, the loop ends at once and changes nothing |
| `Properties.MoreFuel` | Lungo/VM.cs:60 | the step budget only cuts runs short: a run that ended within some budget ends the same way with any larger budget |
| `Programs.ConstantArithmetic` | Lungo/VM.cs:142-148 | two `ldc.i4.s` constants combined by add/sub/mul/div give the closed-form result with the first-pushed value on the left (10, 3, `sub` leaves 7); division by 0 throws |
| `Programs.BranchOffsets` | Lungo/VM.cs:176-181 | `br.s` at 10 with offset +5 resumes at 17, and with -5 at 7 |
| `Programs.ConditionalBranch` | Lungo/VM.cs:183-196 | `brfalse.s +3` after 0 skips three bytes; after 1 it falls through |
| `Programs.ArrayRoundTrip` | Lungo/VM.cs:315-395 | `newarr 3`, `dup`, `stelem.i4` of 42 at 1 through one reference, `ldelem.i4` at 1 through the other pushes 42 |
| `Programs.ArrayIndexFault` | Lungo/VM.cs:345-352 | the same program loading index 5 throws |
| `Programs.StringLiterals` | Lungo/VM.cs:305-313 | a registered token resolves to its exact literal; an unknown one throws |
| `Programs.StackDiscipline` | Lungo/VM.cs:159-239 | popping more than was pushed throws |
| `Programs.UnknownOpcodeStops` | Lungo/VM.cs:451-453 | an unknown opcode stops the loop with the state before it |
| `Programs.LocalSlots` | Lungo/VM.cs:87-115 | a value stored in slot 2 comes back with `ldloc.2`; `stloc.s 4` in a four-slot frame throws |

## Left out

- Compiling the project, loading the assembly, and the command line (`Lungo/Project.cs`, `Lungo/Program.cs`, `Lungo/CompileException.cs`) are not part of this model.
- The reflection lookup of `Main` in `Run` (`GetType`, `GetMethod`, `GetMethodBody`) and its `ArgumentException` are left out. `Vm.VM.Run` receives the method body (bytes, local count, maximum stack depth) as a parameter.
- The `PEReader`/`MetadataReader` setup and `Dispose` are left out. User-string resolution is the parameter `Env.userStrings`, a finite map from the 16-bit key to a string; a missing key stands for every failure of `UserStringHandle`/`GetUserString`.
- The console trace printed on every pass is left out; it is pure output.
- Floating point: `ldc.r8` keeps its eight operand bytes uninterpreted. `stelem.r8` stores such a value unchanged, and no float arithmetic exists.
- The kind of exception (`InvalidCastException`, `IndexOutOfRangeException`, `DivideByZeroException`, ...) is not distinguished; every exception is one fault outcome.
- Box identity is not tracked. `ceq` on two boxed longs, doubles or strings compares object references; the model leaves that answer to the parameter `Env.sameObject`.
- Vm.VM.Execute: the source loop need not terminate (`br.s -2`), so the model runs it under a step budget `fuel` and reports `Exhausted` when the budget runs out. `Properties.MoreFuel` shows the budget never changes the outcome of a run that ended. On `Exhausted`, `Vm.VM.Run` leaves its frame pushed.
- `newarr` always succeeds for a length from 0 to `int.MaxValue`. The runtime's own array size cap and an `OutOfMemoryException` for a very large `new object[len]` are not modelled.
- The instruction pointer is an unbounded integer. The C# `int` overflow of `i` for a method body close to 2^31 bytes long is not modelled.
