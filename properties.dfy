/** Properties of the interpreter's semantics: the effect of each
    instruction family, instruction lengths and stack effects checked against
    independent tables, round trips through locals and arrays, and what
    ending the loop means. */
module Properties {
  import opened Values
  import opened Int32Ops
  import opened Semantics

  /** The opcodes the dispatcher has a handler for (0xFE only together with
      a second byte 1, 2 or 4). */
  predicate Supported(op: Byte)
  {
    op in {0x00, 0x01, 0x06, 0x07, 0x08, 0x09, 0x0A, 0x0B, 0x0C, 0x0D, 0x11, 0x13, 0x14,
           0x15, 0x16, 0x17, 0x18, 0x19, 0x1A, 0x1B, 0x1C, 0x1D, 0x1E, 0x1F, 0x23, 0x25,
           0x26, 0x2A, 0x2B, 0x2C, 0x2D, 0x58, 0x59, 0x5A, 0x5B, 0x5F, 0x60, 0x61, 0x62,
           0x63, 0x67, 0x68, 0x69, 0x6A, 0x72, 0x8D, 0x8E, 0x94, 0x9A, 0x9B, 0x9C, 0x9D,
           0x9E, 0x9F, 0xA0, 0xA1, 0xA2, 0xFE}
  }

  /** The byte at ip starts no instruction the dispatcher knows. */
  predicate Undecodable(cil: seq<Byte>, ip: int)
    requires 0 <= ip < |cil|
  {
    !Supported(cil[ip]) || (cil[ip] == Prefix && ip + 1 < |cil| && cil[ip + 1] !in {Ceq, Cgt, Clt})
  }

  /** The encoded length of each supported instruction: how far the
      instruction pointer moves when execution falls through it. */
  function Width(op: Byte): nat
  {
    if op in {LdlocS, StlocS, LdcI4S, BrS, BrfalseS, BrtrueS, Prefix} then 2
    else if op in {Ldstr, Newarr} then 5
    else if op == LdcR8 then 9
    else 1
  }

  /** How many stack entries each supported instruction consumes. */
  function Pops(op: Byte): nat
  {
    if op in {Stloc0, 0x0B, 0x0C, Stloc3, StlocS, Dup, Pop, BrfalseS, BrtrueS,
              ConvI1, ConvI2, ConvI4, ConvI8, Newarr, Ldlen} then 1
    else if op in {Add, Sub, Mul, Div, And, Or, Xor, Shl, Shr, LdelemI4, LdelemRef, Prefix} then 2
    else if StelemI <= op <= StelemRef then 3
    else 0
  }

  /** How many entries it pushes in their place (`dup` consumes one and puts
      back two). */
  function Pushes(op: Byte): nat
  {
    if op in {Stloc0, 0x0B, 0x0C, Stloc3, StlocS, Pop, BrS, BrfalseS, BrtrueS,
              Nop, Break, Ret} || StelemI <= op <= StelemRef then 0
    else if op == Dup then 2
    else 1
  }

  predicate IsBranch(op: Byte) { op == BrS || op == BrfalseS || op == BrtrueS }

  /** The loop stops quietly exactly at an undecodable opcode. */
  lemma HaltIff(cil: seq<Byte>, env: Env, st: State)
    requires 0 <= st.ip < |cil| && WellFormed(st)
    ensures Step(cil, env, st) == Halted <==> Undecodable(cil, st.ip)
  {
  }

  /** The pass from st to st' moved the instruction pointer by the
      instruction's width (or to a branch target), replaced exactly Pops(op)
      topmost stack entries by Pushes(op) new ones without touching the rest,
      kept the number of locals, and neither shrank the heap nor resized an
      array. */
  predicate Shaped(cil: seq<Byte>, st: State, st': State)
    requires 0 <= st.ip < |cil|
  {
    var op, n := cil[st.ip], |st.stack|;
    && Supported(op)
    && Pops(op) <= n
    && |st'.stack| == n - Pops(op) + Pushes(op)
    && st'.stack[..n - Pops(op)] == st.stack[..n - Pops(op)]
    && (!IsBranch(op) ==> st'.ip == st.ip + Width(op))
    && (IsBranch(op) ==> st'.ip == st.ip + 2 || (st.ip + 1 < |cil| && st'.ip == Target(cil, st.ip)))
    && |st'.locals| == |st.locals|
    && |st'.heap| >= |st.heap|
    && (forall r :: 0 <= r < |st.heap| ==> |st'.heap[r]| == |st.heap[r]|)
  }

  /** Every pass that completes has the shape its opcode's width and stack
      effect prescribe. */
  lemma StepShape(cil: seq<Byte>, env: Env, st: State)
    requires 0 <= st.ip < |cil| && WellFormed(st) && Step(cil, env, st).Next?
    ensures Shaped(cil, st, Step(cil, env, st).st)
  {
    if cil[st.ip] < Add {
      StepShapeLow(cil, st);
    } else {
      StepShapeHigh(cil, env, st);
    }
  }

  lemma StepShapeLow(cil: seq<Byte>, st: State)
    requires 0 <= st.ip < |cil| && cil[st.ip] < Add && WellFormed(st) && StepLow(cil, st).Next?
    ensures Shaped(cil, st, StepLow(cil, st).st)
  {
    var op := cil[st.ip];
    if op == Nop || op == Break || op == Ret {
    } else if Ldloc0 <= op <= Ldloc3 || op == LdlocS {
    } else if Stloc0 <= op <= Stloc3 || op == StlocS {
    } else if op == Ldnull || LdcI4M1 <= op <= LdcI4S || op == LdcR8 {
    } else if op == Dup || op == Pop {
    } else {
      assert IsBranch(op);
    }
  }

  lemma StepShapeHigh(cil: seq<Byte>, env: Env, st: State)
    requires 0 <= st.ip < |cil| && cil[st.ip] >= Add && WellFormed(st) && StepHigh(cil, env, st).Next?
    ensures Shaped(cil, st, StepHigh(cil, env, st).st)
  {
    var op := cil[st.ip];
    if IsBinary(op) {
    } else if ConvI1 <= op <= ConvI8 {
    } else if op == Ldstr || op == Newarr || op == Ldlen {
    } else if op == LdelemI4 || op == LdelemRef {
    } else if StelemI <= op <= StelemR8 {
    } else if op == StelemRef {
    } else {
      assert op == Prefix;
    }
  }

  /** An instruction that needs more operands than the stack holds throws;
      it never reads a stale or default value. */
  lemma Underflow(cil: seq<Byte>, env: Env, st: State)
    requires 0 <= st.ip < |cil| && WellFormed(st) && !Undecodable(cil, st.ip)
    requires |st.stack| < Pops(cil[st.ip])
    ensures Step(cil, env, st) == Faulted
  {
  }

  /** `ldc.i4.m1` .. `ldc.i4.8` push opcode - 0x16, that is -1 .. 8, and
      advance by 1; `ldc.i4.s` pushes its operand byte zero-extended (0 ..
      255) and advances by 2, and throws when the operand byte is missing. */
  lemma SmallConstants(cil: seq<Byte>, env: Env, st: State)
    requires 0 <= st.ip < |cil| && WellFormed(st)
    ensures LdcI4M1 <= cil[st.ip] <= LdcI4Eight ==>
      -1 <= cil[st.ip] as int - 0x16 <= 8 &&
      Step(cil, env, st) == Next(st.(ip := st.ip + 1, stack := st.stack + [I32(cil[st.ip] as int - 0x16)]))
    ensures cil[st.ip] == LdcI4S && st.ip + 1 < |cil| ==>
      0 <= cil[st.ip + 1] <= 255 &&
      Step(cil, env, st) == Next(st.(ip := st.ip + 2, stack := st.stack + [I32(cil[st.ip + 1])]))
    ensures cil[st.ip] == LdcI4S && st.ip + 1 == |cil| ==> Step(cil, env, st) == Faulted
  {
  }

  /** `nop`, `break` and `ret` only advance `i` by one: they never throw,
      never stop the loop (`ret` does not end the method), and leave the
      stack, the locals and every array alone. */
  lemma OnlyAdvances(cil: seq<Byte>, env: Env, st: State)
    requires 0 <= st.ip < |cil| && WellFormed(st)
    requires cil[st.ip] == Nop || cil[st.ip] == Break || cil[st.ip] == Ret
    ensures Step(cil, env, st) == Next(st.(ip := st.ip + 1))
  {
  }

  /** `ldnull` pushes Null and advances by one. */
  lemma LoadNull(cil: seq<Byte>, env: Env, st: State)
    requires 0 <= st.ip < |cil| && cil[st.ip] == Ldnull && WellFormed(st)
    ensures Step(cil, env, st) == Next(st.(ip := st.ip + 1, stack := st.stack + [Null]))
  {
  }

  /** `dup` pushes a second copy of the top entry (for an array, the same
      handle) and throws on an empty stack; `pop` drops the top entry and
      throws on an empty stack. */
  lemma DupAndPop(cil: seq<Byte>, env: Env, st: State)
    requires 0 <= st.ip < |cil| && WellFormed(st)
    ensures cil[st.ip] == Dup && |st.stack| > 0 ==>
      Step(cil, env, st) == Next(st.(ip := st.ip + 1, stack := st.stack + [Top(st.stack)]))
    ensures cil[st.ip] == Pop && |st.stack| > 0 ==>
      Step(cil, env, st) == Next(st.(ip := st.ip + 1, stack := Drop(st.stack, 1)))
    ensures (cil[st.ip] == Dup || cil[st.ip] == Pop) && |st.stack| == 0 ==>
      Step(cil, env, st) == Faulted
  {
  }

  /** The four arithmetic opcodes with b pushed before a (so a is on top):
      `add` gives a + b, `sub` gives b - a, `mul` gives a * b, all wrapped to
      32 bits, and `div` gives b / a truncated, throwing on a = 0 and on
      int.MinValue / -1.  The result replaces the two operands; nothing
      else changes. */
  lemma Arithmetic(cil: seq<Byte>, env: Env, st: State, s: seq<Value>, a: Int32, b: Int32)
    requires 0 <= st.ip < |cil| && WellFormed(st) && st.stack == s + [I32(b), I32(a)]
    ensures cil[st.ip] == Add ==>
      Step(cil, env, st) == Next(st.(ip := st.ip + 1, stack := s + [I32(Wrap32(a + b))]))
    ensures cil[st.ip] == Sub ==>
      Step(cil, env, st) == Next(st.(ip := st.ip + 1, stack := s + [I32(Wrap32(b - a))]))
    ensures cil[st.ip] == Mul ==>
      Step(cil, env, st) == Next(st.(ip := st.ip + 1, stack := s + [I32(Wrap32(a * b))]))
    ensures cil[st.ip] == Div && (a == 0 || (b == MinInt32 && a == -1)) ==>
      Step(cil, env, st) == Faulted
    ensures cil[st.ip] == Div && a != 0 && !(b == MinInt32 && a == -1) ==>
      Step(cil, env, st) == Next(st.(ip := st.ip + 1, stack := s + [I32(TruncDiv(b, a))]))
  {
    assert Drop(st.stack, 2) == s;
  }

  /** `and`, `or`, `xor` combine the two ints bitwise; `shl` and `shr` shift
      the value pushed first by the amount pushed last. */
  lemma BitwiseAndShifts(cil: seq<Byte>, env: Env, st: State, s: seq<Value>, a: Int32, b: Int32)
    requires 0 <= st.ip < |cil| && WellFormed(st) && st.stack == s + [I32(b), I32(a)]
    ensures cil[st.ip] == And ==>
      Step(cil, env, st) == Next(st.(ip := st.ip + 1, stack := s + [I32(And32(a, b))]))
    ensures cil[st.ip] == Or ==>
      Step(cil, env, st) == Next(st.(ip := st.ip + 1, stack := s + [I32(Or32(a, b))]))
    ensures cil[st.ip] == Xor ==>
      Step(cil, env, st) == Next(st.(ip := st.ip + 1, stack := s + [I32(Xor32(a, b))]))
    ensures cil[st.ip] == Shl ==>
      Step(cil, env, st) == Next(st.(ip := st.ip + 1, stack := s + [I32(Shl32(b, a))]))
    ensures cil[st.ip] == Shr ==>
      Step(cil, env, st) == Next(st.(ip := st.ip + 1, stack := s + [I32(Shr32(b, a))]))
  {
    assert Drop(st.stack, 2) == s;
  }

  /** The bitwise opcodes do not depend on the order of their operands. */
  lemma BitwiseCommutes(a: Int32, b: Int32)
    ensures And32(a, b) == And32(b, a) && Or32(a, b) == Or32(b, a) && Xor32(a, b) == Xor32(b, a)
  {
  }

  /** A binary opcode whose operands are not both ints throws. */
  lemma BinaryNeedsInts(cil: seq<Byte>, env: Env, st: State)
    requires 0 <= st.ip < |cil| && WellFormed(st) && IsBinary(cil[st.ip]) && |st.stack| >= 2
    requires !Top(st.stack).I32? || !Second(st.stack).I32?
    ensures Step(cil, env, st) == Faulted
  {
  }

  /** The instruction at ip stores local k and is len bytes long. */
  predicate StoresLocal(cil: seq<Byte>, ip: int, k: int, len: nat)
  {
    0 <= ip < |cil| &&
    ((Stloc0 <= cil[ip] <= Stloc3 && k == cil[ip] - Stloc0 && len == 1) ||
     (cil[ip] == StlocS && ip + 1 < |cil| && k == cil[ip + 1] && len == 2))
  }

  /** The instruction at ip loads local k and is len bytes long. */
  predicate LoadsLocal(cil: seq<Byte>, ip: int, k: int, len: nat)
  {
    0 <= ip < |cil| &&
    ((Ldloc0 <= cil[ip] <= Ldloc3 && k == cil[ip] - Ldloc0 && len == 1) ||
     (cil[ip] == LdlocS && ip + 1 < |cil| && k == cil[ip + 1] && len == 2))
  }

  /** `stloc k` followed by `ldloc k` puts the stored value back on top: the
      stack is as before, local k holds the value and every other local is
      unchanged. */
  lemma LocalRoundTrip(cil: seq<Byte>, env: Env, st: State, k: int, len1: nat, len2: nat)
    requires WellFormed(st) && StoresLocal(cil, st.ip, k, len1) && LoadsLocal(cil, st.ip + len1, k, len2)
    requires |st.stack| > 0 && 0 <= k < |st.locals|
    ensures Step(cil, env, st).Next?
    ensures Step(cil, env, Step(cil, env, st).st)
         == Next(st.(ip := st.ip + len1 + len2, locals := st.locals[k := Top(st.stack)]))
  {
    var st1 := Step(cil, env, st).st;
    assert st1.locals[k] == Top(st.stack);
    assert Drop(st.stack, 1) + [Top(st.stack)] == st.stack;
  }

  /** A local index outside the frame's slots throws, for loads and stores. */
  lemma LocalOutOfRange(cil: seq<Byte>, env: Env, st: State, k: int, len: nat)
    requires WellFormed(st) && (StoresLocal(cil, st.ip, k, len) || LoadsLocal(cil, st.ip, k, len))
    requires k >= |st.locals|
    ensures Step(cil, env, st) == Faulted
  {
  }

  /** A method's first instruction sees a new frame: every local is null, so
      `ldloc` pushes Null, and the stack is empty, so any instruction that
      pops throws. */
  lemma FreshFrame(cil: seq<Byte>, env: Env, localCount: nat, heap: seq<seq<Value>>)
    requires HeapOk(heap) && |cil| > 0
    ensures var st := Initial(localCount, heap);
      (Ldloc0 <= cil[0] <= Ldloc3 && cil[0] - Ldloc0 < localCount ==>
        Step(cil, env, st) == Next(st.(ip := 1, stack := [Null])))
      && (|cil| > 1 && cil[0] == LdlocS && cil[1] < localCount ==>
        Step(cil, env, st) == Next(st.(ip := 2, stack := [Null])))
      && (!Undecodable(cil, 0) && Pops(cil[0]) > 0 ==> Step(cil, env, st) == Faulted)
  {
    var st := Initial(localCount, heap);
    if !Undecodable(cil, 0) && Pops(cil[0]) > 0 {
      Underflow(cil, env, st);
    }
  }

  /** The operand stack has no bound: pushing a constant succeeds at every
      depth, whatever the maximum stack size the method declared. */
  lemma StackUnbounded(cil: seq<Byte>, env: Env, st: State)
    requires 0 <= st.ip < |cil| && WellFormed(st) && (cil[st.ip] == Ldnull || LdcI4M1 <= cil[st.ip] <= LdcI4Eight)
    ensures Step(cil, env, st).Next? && |Step(cil, env, st).st.stack| == |st.stack| + 1
  {
  }

  /** Code that ends inside an instruction throws instead of ending the loop:
      an instruction pointer below 0 indexes outside the code, and a one-byte
      operand that is missing throws for `ldloc.s`, `stloc.s`, `ldc.i4.s`,
      `br.s`, the 0xFE prefix and a conditional branch that is taken, as does
      `ldc.r8` with fewer than eight payload bytes. */
  lemma TruncatedCode(cil: seq<Byte>, env: Env, st: State)
    requires st.ip < |cil| && WellFormed(st)
    ensures st.ip < 0 ==> Step(cil, env, st) == Faulted
    ensures 0 <= st.ip == |cil| - 1 && cil[st.ip] in {LdlocS, StlocS, LdcI4S, BrS, Prefix} ==>
      Step(cil, env, st) == Faulted
    ensures (&& 0 <= st.ip == |cil| - 1 && |st.stack| > 0
             && ((cil[st.ip] == BrfalseS && Top(st.stack) == I32(0)) || (cil[st.ip] == BrtrueS && Top(st.stack) == I32(1))))
        ==> Step(cil, env, st) == Faulted
    ensures 0 <= st.ip && cil[st.ip] == LdcR8 && st.ip + 9 > |cil| ==> Step(cil, env, st) == Faulted
  {
  }

  /** `ldc.r8` pushes its eight payload bytes, uninterpreted, and moves past
      them. */
  lemma LoadDouble(cil: seq<Byte>, env: Env, st: State)
    requires 0 <= st.ip && st.ip + 9 <= |cil| && cil[st.ip] == LdcR8 && WellFormed(st)
    ensures Step(cil, env, st)
         == Next(st.(ip := st.ip + 9, stack := st.stack + [F64(cil[st.ip + 1..st.ip + 9])]))
    ensures |Top(Step(cil, env, st).st.stack).bits| == 8
  {
  }

  /** `br.s` jumps to the address after its operand plus the operand as a
      signed byte; `brfalse.s` jumps when the popped int is 0 and `brtrue.s`
      only when it is 1, and otherwise both fall through by 2; a popped value
      that is not an int throws. */
  lemma Branches(cil: seq<Byte>, env: Env, st: State)
    requires 0 <= st.ip && st.ip + 1 < |cil| && WellFormed(st)
    ensures cil[st.ip] == BrS ==>
      Step(cil, env, st) == Next(st.(ip := st.ip + 2 + SignedByte(cil[st.ip + 1])))
    ensures (cil[st.ip] == BrfalseS || cil[st.ip] == BrtrueS) && |st.stack| > 0 && Top(st.stack).I32? ==>
      var taken := if cil[st.ip] == BrfalseS then Top(st.stack).i == 0 else Top(st.stack).i == 1;
      Step(cil, env, st)
        == Next(st.(ip := if taken then st.ip + 2 + SignedByte(cil[st.ip + 1]) else st.ip + 2,
                    stack := Drop(st.stack, 1)))
    ensures (cil[st.ip] == BrfalseS || cil[st.ip] == BrtrueS) && (|st.stack| == 0 || !Top(st.stack).I32?) ==>
      Step(cil, env, st) == Faulted
  {
  }

  /** A conditional branch in the last byte that is not taken does not read
      its missing operand: it moves past the end and the loop ends. */
  lemma BranchFallsOffTheEnd(cil: seq<Byte>, env: Env, st: State, v: Int32)
    requires st.ip == |cil| - 1 && 0 <= st.ip && WellFormed(st) && |st.stack| > 0 && Top(st.stack) == I32(v)
    requires (cil[st.ip] == BrfalseS && v != 0) || (cil[st.ip] == BrtrueS && v != 1)
    ensures Exec(cil, env, st, 1) == Finished(st.(ip := |cil| + 1, stack := Drop(st.stack, 1)))
  {
  }

  /** `br.s -2` branches to itself: the loop never ends, whatever the budget. */
  lemma {:induction false} SelfLoop(cil: seq<Byte>, env: Env, st: State, fuel: nat)
    requires 0 <= st.ip && st.ip + 1 < |cil| && cil[st.ip] == BrS && cil[st.ip + 1] == 0xFE && WellFormed(st)
    ensures Exec(cil, env, st, fuel) == OutOfFuel(st)
    decreases fuel
  {
    if fuel > 0 {
      assert Step(cil, env, st) == Next(st);
      SelfLoop(cil, env, st, fuel - 1);
    }
  }

  /** `newarr` pops a length and throws exactly when there is none or it is
      not a non-negative int; otherwise it pushes a handle to one new array of
      that many nulls, appended after every existing array, and skips the
      four-byte type token. */
  lemma NewArrayEffect(cil: seq<Byte>, env: Env, st: State)
    requires 0 <= st.ip < |cil| && cil[st.ip] == Newarr && WellFormed(st)
    ensures Step(cil, env, st).Next? || Step(cil, env, st).Faulted?
    ensures Step(cil, env, st) == Faulted <==> |st.stack| == 0 || !Top(st.stack).I32? || Top(st.stack).i < 0
    ensures Step(cil, env, st).Next? ==>
      Step(cil, env, st).st
        == State(st.ip + 5, Drop(st.stack, 1) + [Arr(|st.heap|)], st.locals, st.heap + [seq(Top(st.stack).i, _ => Null)])
  {
  }

  /** An int length given to `newarr`: a negative one throws; otherwise the
      new handle is distinct from every existing array, and `ldlen` of it
      pushes the length back. */
  lemma NewArrayThenLength(cil: seq<Byte>, env: Env, st: State, n: Int32)
    requires 0 <= st.ip && st.ip + 5 < |cil| && cil[st.ip] == Newarr && cil[st.ip + 5] == Ldlen
    requires WellFormed(st) && |st.stack| > 0 && Top(st.stack) == I32(n)
    ensures n < 0 <==> Step(cil, env, st) == Faulted
    ensures n >= 0 ==>
      var st1 := Step(cil, env, st).st;
      && st1.heap[..|st.heap|] == st.heap
      && |st1.heap| == |st.heap| + 1
      && st1.heap[|st.heap|] == seq(n, _ => Null)
      && Top(st1.stack) == Arr(|st.heap|)
      && (forall k :: 0 <= k < |st.stack| && st.stack[k].Arr? ==> st.stack[k].ref != |st.heap|)
      && Step(cil, env, st1) == Next(st1.(ip := st.ip + 6, stack := Drop(st.stack, 1) + [I32(n)]))
  {
    if n >= 0 {
      var st1 := Step(cil, env, st).st;
      assert Drop(st1.stack, 1) == Drop(st.stack, 1);
    }
  }

  /** `ldlen` needs an array; anything else on top throws. */
  lemma LengthNeedsArray(cil: seq<Byte>, env: Env, st: State)
    requires 0 <= st.ip < |cil| && cil[st.ip] == Ldlen && WellFormed(st) && |st.stack| > 0 && !Top(st.stack).Arr?
    ensures Step(cil, env, st) == Faulted
  {
  }

  /** `stelem.i4` writes exactly one element: the int at the index, leaving
      every other element of that array and every other array as it was. */
  lemma StoreElementI4(cil: seq<Byte>, env: Env, st: State, s: seq<Value>, r: nat, p: Int32, x: Int32)
    requires 0 <= st.ip < |cil| && cil[st.ip] == StelemI4 && WellFormed(st)
    requires st.stack == s + [Arr(r), I32(p), I32(x)]
    ensures r < |st.heap|
    ensures 0 <= p < |st.heap[r]| <==> Step(cil, env, st).Next?
    ensures 0 <= p < |st.heap[r]| ==>
      var st1 := Step(cil, env, st).st;
      && st1.ip == st.ip + 1 && st1.stack == s && st1.locals == st.locals
      && |st1.heap| == |st.heap| && st1.heap[r][p] == I32(x)
      && (forall q :: 0 <= q < |st.heap[r]| && q != p ==> st1.heap[r][q] == st.heap[r][q])
      && (forall r' :: 0 <= r' < |st.heap| && r' != r ==> st1.heap[r'] == st.heap[r'])
  {
    assert st.stack[|s|] == Arr(r);
    assert Drop(st.stack, 3) == s;
  }

  /** After `stelem.i4` stored x at index p of array r, `ldelem.i4` at p
      through any reference to r (for example a copy made by `dup` before the
      store) pushes x. */
  lemma ElementRoundTrip(cil: seq<Byte>, env: Env, st: State, t: State, r: nat, p: Int32, x: Int32)
    requires 0 <= st.ip < |cil| && cil[st.ip] == StelemI4 && WellFormed(st)
    requires |st.stack| >= 3 && Third(st.stack) == Arr(r) && Second(st.stack) == I32(p) && Top(st.stack) == I32(x)
    requires Step(cil, env, st).Next?
    requires 0 <= t.ip < |cil| && cil[t.ip] == LdelemI4 && WellFormed(t) && t.heap == Step(cil, env, st).st.heap
    requires |t.stack| >= 2 && Second(t.stack) == Arr(r) && Top(t.stack) == I32(p)
    ensures Step(cil, env, t) == Next(t.(ip := t.ip + 1, stack := Drop(t.stack, 2) + [I32(x)]))
  {
    StoreElementI4(cil, env, st, Drop(st.stack, 3), r, p, x);
  }

  /** Aliasing through `dup`: duplicating an array handle, storing x at p
      through the top copy with `stelem.i4` (at address d, once p and x have
      been pushed) and then loading p through the remaining copy with
      `ldelem.i4` (at address e, once p has been pushed) yields x, and the
      array is the only thing the store changed. */
  lemma DupSharesArray(cil: seq<Byte>, env: Env, st: State, s: seq<Value>, r: nat, p: Int32, x: Int32, d: nat, e: nat)
    requires 0 <= st.ip < |cil| && cil[st.ip] == Dup && WellFormed(st) && st.stack == s + [Arr(r)]
    requires d < |cil| && cil[d] == StelemI4 && e < |cil| && cil[e] == LdelemI4
    requires r < |st.heap| && 0 <= p < |st.heap[r]|
    ensures Step(cil, env, st) == Next(st.(ip := st.ip + 1, stack := s + [Arr(r), Arr(r)]))
    ensures WellFormed(State(d, s + [Arr(r), Arr(r), I32(p), I32(x)], st.locals, st.heap))
    ensures Step(cil, env, State(d, s + [Arr(r), Arr(r), I32(p), I32(x)], st.locals, st.heap))
         == Next(State(d + 1, s + [Arr(r)], st.locals, st.heap[r := st.heap[r][p := I32(x)]]))
    ensures WellFormed(State(e, s + [Arr(r), I32(p)], st.locals, st.heap[r := st.heap[r][p := I32(x)]]))
    ensures Step(cil, env, State(e, s + [Arr(r), I32(p)], st.locals, st.heap[r := st.heap[r][p := I32(x)]]))
         == Next(State(e + 1, s + [I32(x)], st.locals, st.heap[r := st.heap[r][p := I32(x)]]))
  {
    assert ValueOk(Top(st.stack), |st.heap|);
    var stored := State(d, s + [Arr(r), Arr(r), I32(p), I32(x)], st.locals, st.heap);
    assert ValuesOk(s, |st.heap|) by {
      forall k | 0 <= k < |s| ensures ValueOk(s[k], |st.heap|) {
        assert s[k] == st.stack[k];
      }
    }
    assert Drop(stored.stack, 3) == s + [Arr(r)];
    StoreElementKeepsWellFormed(stored, StelemI4);
    var loaded := State(e, s + [Arr(r), I32(p)], st.locals, st.heap[r := st.heap[r][p := I32(x)]]);
    assert Drop(loaded.stack, 2) == s;
  }

  /** Every element of a new array is null, and `ldelem.i4` of a null element
      throws (unboxing null), while `ldelem.ref` pushes Null. */
  lemma LoadNullElement(cil: seq<Byte>, env: Env, st: State, r: nat, p: Int32)
    requires 0 <= st.ip < |cil| && WellFormed(st) && |st.stack| >= 2
    requires Second(st.stack) == Arr(r) && Top(st.stack) == I32(p)
    requires r < |st.heap| && 0 <= p < |st.heap[r]| && st.heap[r][p] == Null
    ensures cil[st.ip] == LdelemI4 ==> Step(cil, env, st) == Faulted
    ensures cil[st.ip] == LdelemRef ==>
      Step(cil, env, st) == Next(st.(ip := st.ip + 1, stack := Drop(st.stack, 2) + [Null]))
  {
  }

  /** An index outside the array throws, for loads and stores alike. */
  lemma ElementOutOfRange(cil: seq<Byte>, env: Env, st: State, r: nat, p: Int32)
    requires 0 <= st.ip < |cil| && WellFormed(st) && r < |st.heap| && (p < 0 || p >= |st.heap[r]|)
    requires (cil[st.ip] in {LdelemI4, LdelemRef} && |st.stack| >= 2 && Second(st.stack) == Arr(r) && Top(st.stack) == I32(p))
          || (StelemI <= cil[st.ip] <= StelemR8 && |st.stack| >= 3 && Third(st.stack) == Arr(r) && Second(st.stack) == I32(p))
    ensures Step(cil, env, st) == Faulted
  {
  }

  /** Which values each `stelem` variant accepts: `.i1`, `.i2` and `.r4`
      always throw, `.i4`, `.i8` and `.r8` need an int, a long and a double. */
  lemma StoreElementKinds(cil: seq<Byte>, env: Env, st: State)
    requires 0 <= st.ip < |cil| && WellFormed(st) && |st.stack| >= 3
    ensures cil[st.ip] in {StelemI1, StelemI2, StelemR4} ==> Step(cil, env, st) == Faulted
    ensures cil[st.ip] == StelemI4 && !Top(st.stack).I32? ==> Step(cil, env, st) == Faulted
    ensures cil[st.ip] == StelemI8 && !Top(st.stack).I64? ==> Step(cil, env, st) == Faulted
    ensures cil[st.ip] == StelemR8 && !Top(st.stack).F64? ==> Step(cil, env, st) == Faulted
  {
  }

  /** A store that succeeds writes exactly the popped value: `stelem.i`
      writes any value as it is (null and array handles included), and `.i4`,
      `.i8` and `.r8` write the int, long or double; nothing but that one
      element changes. */
  lemma StoreElementValue(cil: seq<Byte>, env: Env, st: State, s: seq<Value>, r: nat, p: Int32, v: Value)
    requires 0 <= st.ip < |cil| && WellFormed(st) && st.stack == s + [Arr(r), I32(p), v]
    requires r < |st.heap| && 0 <= p < |st.heap[r]|
    requires || cil[st.ip] == StelemI
             || (cil[st.ip] == StelemI4 && v.I32?)
             || (cil[st.ip] == StelemI8 && v.I64?)
             || (cil[st.ip] == StelemR8 && v.F64?)
    ensures Step(cil, env, st) == Next(State(st.ip + 1, s, st.locals, st.heap[r := st.heap[r][p := v]]))
  {
    assert st.stack[|s|] == Arr(r);
    assert Drop(st.stack, 3) == s;
  }

  /** `stelem.ref` pops three entries and stores nothing. */
  lemma StoreElementRefDiscards(cil: seq<Byte>, env: Env, st: State)
    requires 0 <= st.ip < |cil| && cil[st.ip] == StelemRef && WellFormed(st)
    ensures |st.stack| >= 3 ==>
      Step(cil, env, st) == Next(st.(ip := st.ip + 1, stack := Drop(st.stack, 3)))
    ensures |st.stack| < 3 ==> Step(cil, env, st) == Faulted
  {
  }

  /** `conv.i1` and `conv.i2` always throw; `conv.i4` turns an int into a long
      of the same value and `conv.i8` keeps a long; any other operand throws
      (an int given to `conv.i8` too). */
  lemma Conversions(cil: seq<Byte>, env: Env, st: State)
    requires 0 <= st.ip < |cil| && WellFormed(st) && |st.stack| > 0
    ensures cil[st.ip] == ConvI1 || cil[st.ip] == ConvI2 ==> Step(cil, env, st) == Faulted
    ensures cil[st.ip] == ConvI4 ==>
      Step(cil, env, st) == if Top(st.stack).I32?
        then Next(st.(ip := st.ip + 1, stack := Drop(st.stack, 1) + [I64(Top(st.stack).i)]))
        else Faulted
    ensures cil[st.ip] == ConvI8 ==> (Step(cil, env, st).Next? <==> Top(st.stack).I64?)
    ensures cil[st.ip] == ConvI8 && Top(st.stack).I64? ==> Step(cil, env, st).st.stack == st.stack
  {
    if cil[st.ip] == ConvI8 && Top(st.stack).I64? {
      assert Drop(st.stack, 1) + [Top(st.stack)] == st.stack;
    }
  }

  /** `ceq`, `cgt` and `clt` on two ints, where v1 was popped first: `ceq`
      pushes 1 iff they are equal, `cgt` iff v2 > v1, `clt` iff v2 < v1, and
      0 otherwise; the instruction is two bytes long. */
  lemma CompareInts(cil: seq<Byte>, env: Env, st: State, s: seq<Value>, v1: Int32, v2: Int32)
    requires 0 <= st.ip && st.ip + 1 < |cil| && cil[st.ip] == Prefix && WellFormed(st)
    requires st.stack == s + [I32(v2), I32(v1)]
    ensures cil[st.ip + 1] == Ceq ==>
      Step(cil, env, st) == Next(st.(ip := st.ip + 2, stack := s + [I32(if v1 == v2 then 1 else 0)]))
    ensures cil[st.ip + 1] == Cgt ==>
      Step(cil, env, st) == Next(st.(ip := st.ip + 2, stack := s + [I32(if v2 > v1 then 1 else 0)]))
    ensures cil[st.ip + 1] == Clt ==>
      Step(cil, env, st) == Next(st.(ip := st.ip + 2, stack := s + [I32(if v2 < v1 then 1 else 0)]))
  {
    assert Drop(st.stack, 2) == s;
  }

  /** Comparing values that are not two ints: `cgt` and `clt` throw, and `ceq`
      compares references, so null equals null, an array equals itself and no
      other array, and an int never equals a non-int. */
  lemma CompareReferences(cil: seq<Byte>, env: Env, st: State, s: seq<Value>, v1: Value, v2: Value)
    requires 0 <= st.ip && st.ip + 1 < |cil| && cil[st.ip] == Prefix && WellFormed(st)
    requires st.stack == s + [v2, v1] && !(v1.I32? && v2.I32?)
    ensures cil[st.ip + 1] == Cgt || cil[st.ip + 1] == Clt ==> Step(cil, env, st) == Faulted
    ensures cil[st.ip + 1] == Ceq && v1.Null? && v2.Null? ==>
      Step(cil, env, st) == Next(st.(ip := st.ip + 2, stack := s + [I32(1)]))
    ensures cil[st.ip + 1] == Ceq && v1.Arr? && v2.Arr? ==>
      Step(cil, env, st) == Next(st.(ip := st.ip + 2, stack := s + [I32(if v1.ref == v2.ref then 1 else 0)]))
    ensures cil[st.ip + 1] == Ceq && (v1.I32? || v2.I32? || v1.Null? != v2.Null?) ==>
      Step(cil, env, st) == Next(st.(ip := st.ip + 2, stack := s + [I32(0)]))
  {
    assert Drop(st.stack, 2) == s;
  }

  /** `ldstr` resolves the signed little-endian 16-bit value of the first
      two token bytes: a registered key pushes exactly its string and
      advances by 5, an unknown key or a truncated token throws, and the
      last two token bytes are never consulted. */
  lemma LoadStringLookup(cil: seq<Byte>, env: Env, st: State)
    requires 0 <= st.ip < |cil| && cil[st.ip] == Ldstr && WellFormed(st)
    ensures st.ip + 5 > |cil| ==> Step(cil, env, st) == Faulted
    ensures st.ip + 5 <= |cil| ==>
      var key := Int16LE(cil[st.ip + 1], cil[st.ip + 2]);
      Step(cil, env, st) == if key in env.userStrings
        then Next(st.(ip := st.ip + 5, stack := st.stack + [Str(env.userStrings[key])]))
        else Faulted
  {
  }

  lemma StringKeyIgnoresHighBytes(cil: seq<Byte>, cil': seq<Byte>, env: Env, st: State)
    requires 0 <= st.ip && st.ip + 5 <= |cil| == |cil'| && cil[st.ip] == Ldstr && WellFormed(st)
    requires forall k :: 0 <= k < |cil| && k != st.ip + 3 && k != st.ip + 4 ==> cil[k] == cil'[k]
    ensures Step(cil, env, st) == Step(cil', env, st)
  {
    assert cil'[st.ip] == Ldstr && cil'[st.ip + 1] == cil[st.ip + 1] && cil'[st.ip + 2] == cil[st.ip + 2];
  }

  /** A run that ends normally ends at the end of the code or at an
      undecodable opcode, in a well-formed state with as many locals as it
      started with and no array lost. */
  lemma {:induction false} FinishedRun(cil: seq<Byte>, env: Env, st: State, fuel: nat)
    requires WellFormed(st) && Exec(cil, env, st, fuel).Finished?
    ensures var f := Exec(cil, env, st, fuel).final;
      && WellFormed(f) && |f.locals| == |st.locals| && |f.heap| >= |st.heap|
      && (f.ip >= |cil| || (0 <= f.ip < |cil| && Undecodable(cil, f.ip)))
    decreases fuel
  {
    if st.ip < |cil| && fuel > 0 {
      match Step(cil, env, st)
      case Next(st') =>
        StepShape(cil, env, st);
        FinishedRun(cil, env, st', fuel - 1);
      case Halted =>
        HaltIff(cil, env, st);
      case Faulted =>
    }
  }

  /** Conversely, at the end of the code, or at an undecodable opcode given a
      step to look at it, the loop ends at once and changes nothing. */
  lemma StoppedRun(cil: seq<Byte>, env: Env, st: State, fuel: nat)
    requires WellFormed(st)
    requires st.ip >= |cil| || (0 <= st.ip < |cil| && Undecodable(cil, st.ip) && fuel > 0)
    ensures Exec(cil, env, st, fuel) == Finished(st)
  {
    if st.ip < |cil| {
      HaltIff(cil, env, st);
    }
  }

  /** The step budget only cuts runs short: a run that ended within f steps
      ends the same way with any larger budget. */
  lemma {:induction false} MoreFuel(cil: seq<Byte>, env: Env, st: State, f: nat, g: nat)
    requires WellFormed(st) && f <= g && !Exec(cil, env, st, f).OutOfFuel?
    ensures Exec(cil, env, st, g) == Exec(cil, env, st, f)
    decreases f
  {
    if st.ip < |cil| && f > 0 {
      match Step(cil, env, st)
      case Next(st') => MoreFuel(cil, env, st', f - 1, g - 1);
      case Halted =>
      case Faulted =>
    }
  }
}
