/** What the reference semantics gives for small complete CIL method bodies,
    from a fresh frame to the end of the loop. */
module Programs {
  import opened Values
  import opened Int32Ops
  import opened Semantics

  /** `ldc.i4.s x`, `ldc.i4.s y`, then the opcode op. */
  function ArithmeticProgram(x: Byte, y: Byte, op: Byte): seq<Byte>
  {
    [LdcI4S, x, LdcI4S, y, op]
  }

  lemma ArithmeticPassFirst(x: Byte, y: Byte, op: Byte, env: Env, fuel: nat)
    ensures Exec(ArithmeticProgram(x, y, op), env, Initial(0, []), fuel + 1)
         == Exec(ArithmeticProgram(x, y, op), env, State(2, [I32(x)], [], []), fuel)
  {
    Advance(ArithmeticProgram(x, y, op), env, Initial(0, []), State(2, [I32(x)], [], []), fuel);
  }

  lemma ArithmeticPassSecond(x: Byte, y: Byte, op: Byte, env: Env, fuel: nat)
    ensures Exec(ArithmeticProgram(x, y, op), env, State(2, [I32(x)], [], []), fuel + 1)
         == Exec(ArithmeticProgram(x, y, op), env, State(4, [I32(x), I32(y)], [], []), fuel)
  {
    Advance(ArithmeticProgram(x, y, op), env, State(2, [I32(x)], [], []), State(4, [I32(x), I32(y)], [], []), fuel);
  }

  lemma ArithmeticPassOperator(x: Byte, y: Byte, op: Byte, env: Env)
    requires Add <= op <= Div
    ensures op == Div && y == 0 ==>
      Exec(ArithmeticProgram(x, y, op), env, State(4, [I32(x), I32(y)], [], []), 1) == Crashed
    ensures !(op == Div && y == 0) ==>
      Exec(ArithmeticProgram(x, y, op), env, State(4, [I32(x), I32(y)], [], []), 1)
         == Finished(State(5, [I32(if op == Add then x + y else if op == Sub then x - y
                                   else if op == Mul then x * y else x / y)], [], []))
  {
    var cil := ArithmeticProgram(x, y, op);
    var s2 := State(4, [I32(x), I32(y)], [], []);
    assert Drop(s2.stack, 2) == [];
    if op == Div && y == 0 {
      Crash(cil, env, s2, 0);
    } else {
      var r := if op == Add then x + y else if op == Sub then x - y else if op == Mul then x * y else x / y;
      if op == Mul {
        MulMonotone(x, y, 255);
        MulMonotone(255, x, 255);
      } else if op == Div {
        assert TruncDiv(x, y) == x / y;
      }
      assert IntBinary(op, y, x) == Some(r);
      Advance(cil, env, s2, State(5, [I32(r)], [], []), 0);
    }
  }

  /** Two constants pushed with `ldc.i4.s` and combined by an arithmetic
      opcode give the closed-form result with the first-pushed value on the
      left: x - y, not y - x (so 10, 3, `sub` leaves 7). */
  lemma ConstantArithmetic(x: Byte, y: Byte, op: Byte, env: Env)
    requires Add <= op <= Div
    ensures op == Add ==>
      Exec(ArithmeticProgram(x, y, op), env, Initial(0, []), 3)
         == Finished(State(5, [I32(x + y)], [], []))
    ensures op == Sub ==>
      Exec(ArithmeticProgram(x, y, op), env, Initial(0, []), 3)
         == Finished(State(5, [I32(x - y)], [], []))
    ensures op == Mul ==>
      Exec(ArithmeticProgram(x, y, op), env, Initial(0, []), 3)
         == Finished(State(5, [I32(x * y)], [], []))
    ensures op == Div && y != 0 ==>
      Exec(ArithmeticProgram(x, y, op), env, Initial(0, []), 3)
         == Finished(State(5, [I32(x / y)], [], []))
    ensures op == Div && y == 0 ==>
      Exec(ArithmeticProgram(x, y, op), env, Initial(0, []), 3)
         == Crashed
  {
    ArithmeticPassFirst(x, y, op, env, 2);
    ArithmeticPassSecond(x, y, op, env, 1);
    ArithmeticPassOperator(x, y, op, env);
  }

  /** A two-byte `br.s` at address 10 with offset +5 resumes at 17, and with
      offset -5 (byte 0xFB) at 7. */
  lemma BranchOffsets(cil: seq<Byte>, env: Env, st: State)
    requires |cil| > 11 && cil[10] == BrS && st.ip == 10 && WellFormed(st)
    ensures cil[11] == 5 ==> Step(cil, env, st) == Next(st.(ip := 17))
    ensures cil[11] == 0xFB ==> Step(cil, env, st) == Next(st.(ip := 7))
  {
  }

  /** `ldc.i4.0` or `ldc.i4.1` (the opcode c), then `brfalse.s +3` over
      four `nop`s. */
  function BranchProgram(c: Byte): seq<Byte>
  {
    [c, BrfalseS, 3, Nop, Nop, Nop, Nop]
  }

  lemma BranchPassPush(c: Byte, env: Env, fuel: nat)
    requires c == 0x16 || c == 0x17
    ensures Exec(BranchProgram(c), env, Initial(0, []), fuel + 1)
         == Exec(BranchProgram(c), env, State(1, [I32(c - LdcI4Zero)], [], []), fuel)
  {
    Advance(BranchProgram(c), env, Initial(0, []), State(1, [I32(c - LdcI4Zero)], [], []), fuel);
  }

  lemma BranchPassTest(c: Byte, env: Env)
    requires c == 0x16 || c == 0x17
    ensures Exec(BranchProgram(c), env, State(1, [I32(c - LdcI4Zero)], [], []), 1)
         == OutOfFuel(State(if c == 0x16 then 6 else 3, [], [], []))
  {
    Advance(BranchProgram(c), env, State(1, [I32(c - LdcI4Zero)], [], []),
      State(if c == 0x16 then 6 else 3, [], [], []), 0);
  }

  /** `brfalse.s +3` after pushing 0 skips three bytes; after pushing 1 it
      falls through. */
  lemma ConditionalBranch(env: Env)
    ensures Exec(BranchProgram(0x16), env, Initial(0, []), 2) == OutOfFuel(State(6, [], [], []))
    ensures Exec(BranchProgram(0x17), env, Initial(0, []), 2) == OutOfFuel(State(3, [], [], []))
  {
    BranchPassPush(0x16, env, 1);
    BranchPassTest(0x16, env);
    BranchPassPush(0x17, env, 1);
    BranchPassTest(0x17, env);
  }

  /** One completed pass of the loop costs one unit of the budget. */
  lemma Advance(cil: seq<Byte>, env: Env, st: State, st': State, fuel: nat)
    requires 0 <= st.ip < |cil| && WellFormed(st) && Step(cil, env, st) == Next(st')
    ensures Exec(cil, env, st, fuel + 1) == Exec(cil, env, st', fuel)
  {
  }

  /** A pass that throws ends the run. */
  lemma Crash(cil: seq<Byte>, env: Env, st: State, fuel: nat)
    requires 0 <= st.ip < |cil| && WellFormed(st) && Step(cil, env, st) == Faulted
    ensures Exec(cil, env, st, fuel + 1) == Crashed
  {
  }

  /** A pass that stops quietly ends the run with the state before it. */
  lemma Stop(cil: seq<Byte>, env: Env, st: State, fuel: nat)
    requires 0 <= st.ip < |cil| && WellFormed(st) && Step(cil, env, st) == Halted
    ensures Exec(cil, env, st, fuel + 1) == Finished(st)
  {
  }

  /** `newarr` of length 3, `dup` of the reference, `stelem.i4` of 42 at
      index 1 through one copy, then `ldelem.i4` through the other at the
      index pushed by the `ldc.i4.<n>` opcode `index`. */
  function ArrayProgram(index: Byte): seq<Byte>
  {
    [0x19, Newarr, 0, 0, 0, 0, Dup, 0x17, LdcI4S, 42, StelemI4, index, LdelemI4]
  }

  // The passes of ArrayProgram, one lemma each.

  lemma ArrayPassLength(env: Env, index: Byte, fuel: nat)
    ensures Exec(ArrayProgram(index), env, Initial(0, []), fuel + 1)
         == Exec(ArrayProgram(index), env, State(1, [I32(3)], [], []), fuel)
  {
    Advance(ArrayProgram(index), env, Initial(0, []), State(1, [I32(3)], [], []), fuel);
  }

  lemma ArrayPassNew(env: Env, index: Byte, fuel: nat)
    ensures Exec(ArrayProgram(index), env, State(1, [I32(3)], [], []), fuel + 1)
         == Exec(ArrayProgram(index), env, State(6, [Arr(0)], [], [[Null, Null, Null]]), fuel)
  {
    assert seq(3, _ => Null) == [Null, Null, Null];
    Advance(ArrayProgram(index), env, State(1, [I32(3)], [], []), State(6, [Arr(0)], [], [[Null, Null, Null]]), fuel);
  }

  lemma ArrayPassDup(env: Env, index: Byte, fuel: nat)
    ensures Exec(ArrayProgram(index), env, State(6, [Arr(0)], [], [[Null, Null, Null]]), fuel + 1)
         == Exec(ArrayProgram(index), env, State(7, [Arr(0), Arr(0)], [], [[Null, Null, Null]]), fuel)
  {
    Advance(ArrayProgram(index), env, State(6, [Arr(0)], [], [[Null, Null, Null]]),
      State(7, [Arr(0), Arr(0)], [], [[Null, Null, Null]]), fuel);
  }

  lemma ArrayPassIndex(env: Env, index: Byte, fuel: nat)
    ensures Exec(ArrayProgram(index), env, State(7, [Arr(0), Arr(0)], [], [[Null, Null, Null]]), fuel + 1)
         == Exec(ArrayProgram(index), env, State(8, [Arr(0), Arr(0), I32(1)], [], [[Null, Null, Null]]), fuel)
  {
    Advance(ArrayProgram(index), env, State(7, [Arr(0), Arr(0)], [], [[Null, Null, Null]]),
      State(8, [Arr(0), Arr(0), I32(1)], [], [[Null, Null, Null]]), fuel);
  }

  lemma ArrayPassValue(env: Env, index: Byte, fuel: nat)
    ensures Exec(ArrayProgram(index), env, State(8, [Arr(0), Arr(0), I32(1)], [], [[Null, Null, Null]]), fuel + 1)
         == Exec(ArrayProgram(index), env, State(10, [Arr(0), Arr(0), I32(1), I32(42)], [], [[Null, Null, Null]]), fuel)
  {
    Advance(ArrayProgram(index), env, State(8, [Arr(0), Arr(0), I32(1)], [], [[Null, Null, Null]]),
      State(10, [Arr(0), Arr(0), I32(1), I32(42)], [], [[Null, Null, Null]]), fuel);
  }

  lemma ArrayPassStore(env: Env, index: Byte, fuel: nat)
    ensures Exec(ArrayProgram(index), env, State(10, [Arr(0), Arr(0), I32(1), I32(42)], [], [[Null, Null, Null]]), fuel + 1)
         == Exec(ArrayProgram(index), env, State(11, [Arr(0)], [], [[Null, I32(42), Null]]), fuel)
  {
    var s := [Arr(0), Arr(0), I32(1), I32(42)];
    assert Drop(s, 3) == [Arr(0)] && [Null, Null, Null][1 := I32(42)] == [Null, I32(42), Null];
    Advance(ArrayProgram(index), env, State(10, s, [], [[Null, Null, Null]]),
      State(11, [Arr(0)], [], [[Null, I32(42), Null]]), fuel);
  }

  lemma ArrayPassLoadIndex(env: Env, index: Byte, fuel: nat)
    requires LdcI4M1 <= index <= LdcI4Eight
    ensures Exec(ArrayProgram(index), env, State(11, [Arr(0)], [], [[Null, I32(42), Null]]), fuel + 1)
         == Exec(ArrayProgram(index), env, State(12, [Arr(0), I32(index - LdcI4Zero)], [], [[Null, I32(42), Null]]), fuel)
  {
    Advance(ArrayProgram(index), env, State(11, [Arr(0)], [], [[Null, I32(42), Null]]),
      State(12, [Arr(0), I32(index - LdcI4Zero)], [], [[Null, I32(42), Null]]), fuel);
  }

  lemma ArrayPassLoad(env: Env)
    ensures Exec(ArrayProgram(0x17), env, State(12, [Arr(0), I32(1)], [], [[Null, I32(42), Null]]), 1)
         == Finished(State(13, [I32(42)], [], [[Null, I32(42), Null]]))
  {
    assert Drop([Arr(0), I32(1)], 2) == [];
    Advance(ArrayProgram(0x17), env, State(12, [Arr(0), I32(1)], [], [[Null, I32(42), Null]]),
      State(13, [I32(42)], [], [[Null, I32(42), Null]]), 0);
  }

  lemma ArrayPassLoadFault(env: Env)
    ensures Exec(ArrayProgram(0x1B), env, State(12, [Arr(0), I32(5)], [], [[Null, I32(42), Null]]), 1)
         == Crashed
  {
    Crash(ArrayProgram(0x1B), env, State(12, [Arr(0), I32(5)], [], [[Null, I32(42), Null]]), 0);
  }

  /** The passes before the load, for either index: the array holds 42 at
      index 1 and the stack holds the reference and the index. */
  lemma ArrayPrefix(env: Env, index: Byte)
    requires LdcI4M1 <= index <= LdcI4Eight
    ensures Exec(ArrayProgram(index), env, Initial(0, []), 8)
         == Exec(ArrayProgram(index), env, State(12, [Arr(0), I32(index - LdcI4Zero)], [], [[Null, I32(42), Null]]), 1)
  {
    ArrayPassLength(env, index, 7);
    ArrayPassNew(env, index, 6);
    ArrayPassDup(env, index, 5);
    ArrayPassIndex(env, index, 4);
    ArrayPassValue(env, index, 3);
    ArrayPassStore(env, index, 2);
    ArrayPassLoadIndex(env, index, 1);
  }

  /** The array round trip: storing 42 at index 1 through one copy of the
      reference and loading index 1 through the other yields 42; the array
      lives on in the heap. */
  lemma ArrayRoundTrip(env: Env)
    ensures Exec(ArrayProgram(0x17), env, Initial(0, []), 8)
         == Finished(State(13, [I32(42)], [], [[Null, I32(42), Null]]))
  {
    ArrayPrefix(env, 0x17);
    ArrayPassLoad(env);
  }

  /** The same program loading index 5 of the three-element array throws. */
  lemma ArrayIndexFault(env: Env)
    ensures Exec(ArrayProgram(0x1B), env, Initial(0, []), 8) == Crashed
  {
    ArrayPrefix(env, 0x1B);
    ArrayPassLoadFault(env);
  }

  /** `ldstr` with a token whose low two bytes are a registered key pushes
      exactly that literal; an unregistered key throws.  (Token 0x70000001 is
      stored little-endian as 01 00 00 70.) */
  lemma StringLiterals(env: Env)
    requires 1 in env.userStrings && 2 !in env.userStrings
    ensures Exec([Ldstr, 1, 0, 0, 0x70], env, Initial(0, []), 1)
         == Finished(State(5, [Str(env.userStrings[1])], [], []))
    ensures Exec([Ldstr, 2, 0, 0, 0x70], env, Initial(0, []), 1)
         == Crashed
  {
  }

  /** `ldc.i4.1`, `dup`, then three `pop`s. */
  const PopProgram: seq<Byte> := [0x17, Dup, Pop, Pop, Pop]

  lemma PopPassPush(env: Env, fuel: nat)
    ensures Exec(PopProgram, env, Initial(0, []), fuel + 1)
         == Exec(PopProgram, env, State(1, [I32(1)], [], []), fuel)
  {
    Advance(PopProgram, env, Initial(0, []), State(1, [I32(1)], [], []), fuel);
  }

  lemma PopPassDup(env: Env, fuel: nat)
    ensures Exec(PopProgram, env, State(1, [I32(1)], [], []), fuel + 1)
         == Exec(PopProgram, env, State(2, [I32(1), I32(1)], [], []), fuel)
  {
    Advance(PopProgram, env, State(1, [I32(1)], [], []), State(2, [I32(1), I32(1)], [], []), fuel);
  }

  lemma PopPassPops(env: Env, fuel: nat)
    ensures Exec(PopProgram, env, State(2, [I32(1), I32(1)], [], []), fuel + 2)
         == Exec(PopProgram, env, State(4, [], [], []), fuel)
  {
    Advance(PopProgram, env, State(2, [I32(1), I32(1)], [], []), State(3, [I32(1)], [], []), fuel + 1);
    Advance(PopProgram, env, State(3, [I32(1)], [], []), State(4, [], [], []), fuel);
  }

  lemma PopPassEmpty(env: Env)
    ensures Exec(PopProgram, env, State(4, [], [], []), 1) == Crashed
  {
    Crash(PopProgram, env, State(4, [], [], []), 0);
  }

  /** Popping more than was pushed throws instead of reading stale data. */
  lemma StackDiscipline(env: Env)
    ensures Exec([Pop], env, Initial(0, []), 1) == Crashed
    ensures Exec([0x17, Add], env, Initial(0, []), 2) == Crashed
    ensures Exec(PopProgram, env, Initial(0, []), 5) == Crashed
  {
    Crash([Pop], env, Initial(0, []), 0);
    AddOnOne(env);
    PopPassPush(env, 4);
    PopPassDup(env, 3);
    PopPassPops(env, 1);
    PopPassEmpty(env);
  }

  lemma AddOnOne(env: Env)
    ensures Exec([0x17, Add], env, Initial(0, []), 2) == Crashed
  {
    var one := State(1, [I32(1)], [], []);
    Advance([0x17, Add], env, Initial(0, []), one, 1);
    Crash([0x17, Add], env, one, 0);
  }

  /** An opcode outside the supported set stops the loop without an error,
      leaving the state as it was before it. */
  lemma UnknownOpcodeStops(env: Env)
    ensures Exec([0x17, 0xFF, 0x17], env, Initial(0, []), 3)
         == Finished(State(1, [I32(1)], [], []))
  {
    var cil: seq<Byte> := [0x17, 0xFF, 0x17];
    var one := State(1, [I32(1)], [], []);
    Advance(cil, env, Initial(0, []), one, 2);
    Stop(cil, env, one, 1);
  }

  /** `ldc.i4.s 9`, then `stloc.2` and `ldloc.2`. */
  const LocalProgram: seq<Byte> := [LdcI4S, 9, 0x0C, 0x08]

  /** `ldc.i4.s 9`, then `stloc.s 4`. */
  const BadLocalProgram: seq<Byte> := [LdcI4S, 9, StlocS, 4]

  lemma LocalPassPush(cil: seq<Byte>, env: Env, fuel: nat)
    requires cil == LocalProgram || cil == BadLocalProgram
    ensures Exec(cil, env, Initial(4, []), fuel + 1)
         == Exec(cil, env, State(2, [I32(9)], [Null, Null, Null, Null], []), fuel)
  {
    assert Initial(4, []).locals == [Null, Null, Null, Null];
    Advance(cil, env, Initial(4, []), State(2, [I32(9)], [Null, Null, Null, Null], []), fuel);
  }

  lemma LocalPassStore(env: Env, fuel: nat)
    ensures Exec(LocalProgram, env, State(2, [I32(9)], [Null, Null, Null, Null], []), fuel + 1)
         == Exec(LocalProgram, env, State(3, [], [Null, Null, I32(9), Null], []), fuel)
  {
    assert [Null, Null, Null, Null][2 := I32(9)] == [Null, Null, I32(9), Null];
    Advance(LocalProgram, env, State(2, [I32(9)], [Null, Null, Null, Null], []),
      State(3, [], [Null, Null, I32(9), Null], []), fuel);
  }

  lemma LocalPassLoad(env: Env)
    ensures Exec(LocalProgram, env, State(3, [], [Null, Null, I32(9), Null], []), 1)
         == Finished(State(4, [I32(9)], [Null, Null, I32(9), Null], []))
  {
    Advance(LocalProgram, env, State(3, [], [Null, Null, I32(9), Null], []),
      State(4, [I32(9)], [Null, Null, I32(9), Null], []), 0);
  }

  lemma LocalPassBadStore(env: Env)
    ensures Exec(BadLocalProgram, env, State(2, [I32(9)], [Null, Null, Null, Null], []), 1) == Crashed
  {
    Crash(BadLocalProgram, env, State(2, [I32(9)], [Null, Null, Null, Null], []), 0);
  }

  /** Locals: a value stored in slot 2 comes back with `ldloc.2`; slot 4 of
      a four-slot frame throws. */
  lemma LocalSlots(env: Env)
    ensures Exec(LocalProgram, env, Initial(4, []), 3)
         == Finished(State(4, [I32(9)], [Null, Null, I32(9), Null], []))
    ensures Exec(BadLocalProgram, env, Initial(4, []), 2) == Crashed
  {
    LocalPassPush(LocalProgram, env, 2);
    LocalPassStore(env, 1);
    LocalPassLoad(env);
    LocalPassPush(BadLocalProgram, env, 1);
    LocalPassBadStore(env);
  }
}
