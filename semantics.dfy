/** The meaning of one pass of the interpreter loop and of the loop itself,
    as functions on an abstract machine state.  The imperative interpreter in
    module Vm is proved to compute exactly these functions. */
module Semantics {
  import opened Values
  import opened Int32Ops

  // Opcodes handled by the dispatcher, named after their mnemonics.
  const Nop: Byte := 0x00
  const Break: Byte := 0x01
  const Ldloc0: Byte := 0x06
  const Ldloc3: Byte := 0x09
  const Stloc0: Byte := 0x0A
  const Stloc3: Byte := 0x0D
  const LdlocS: Byte := 0x11
  const StlocS: Byte := 0x13
  const Ldnull: Byte := 0x14
  const LdcI4M1: Byte := 0x15
  const LdcI4Zero: Byte := 0x16
  const LdcI4Eight: Byte := 0x1E
  const LdcI4S: Byte := 0x1F
  const LdcR8: Byte := 0x23
  const Dup: Byte := 0x25
  const Pop: Byte := 0x26
  const Ret: Byte := 0x2A
  const BrS: Byte := 0x2B
  const BrfalseS: Byte := 0x2C
  const BrtrueS: Byte := 0x2D
  const Add: Byte := 0x58
  const Sub: Byte := 0x59
  const Mul: Byte := 0x5A
  const Div: Byte := 0x5B
  const And: Byte := 0x5F
  const Or: Byte := 0x60
  const Xor: Byte := 0x61
  const Shl: Byte := 0x62
  const Shr: Byte := 0x63
  const ConvI1: Byte := 0x67
  const ConvI2: Byte := 0x68
  const ConvI4: Byte := 0x69
  const ConvI8: Byte := 0x6A
  const Ldstr: Byte := 0x72
  const Newarr: Byte := 0x8D
  const Ldlen: Byte := 0x8E
  const LdelemI4: Byte := 0x94
  const LdelemRef: Byte := 0x9A
  const StelemI: Byte := 0x9B
  const StelemI1: Byte := 0x9C
  const StelemI2: Byte := 0x9D
  const StelemI4: Byte := 0x9E
  const StelemI8: Byte := 0x9F
  const StelemR4: Byte := 0xA0
  const StelemR8: Byte := 0xA1
  const StelemRef: Byte := 0xA2
  /** First byte of the two-byte opcodes. */
  const Prefix: Byte := 0xFE
  // Second bytes after the prefix.
  const Ceq: Byte := 0x01
  const Cgt: Byte := 0x02
  const Clt: Byte := 0x04

  /** What the interpreter obtains from outside the loop.
      - userStrings: the user-string heap as seen by `ldstr`, keyed by the
        signed 16-bit value the interpreter extracts from the token; a
        missing key is a lookup that throws.
      - sameObject: whether two boxed values of the same kind (two longs, two
        doubles, two strings) are the same object; box identity is not
        tracked by this model, so `ceq`'s reference comparison of such values
        is left to this parameter. */
  datatype Env = Env(userStrings: map<int, string>, sameObject: (Value, Value) -> bool)

  /** The instruction pointer, the operand stack (top at the END), the local
      slots, and the contents of every array allocated so far (the handle of
      an array is its index here). */
  datatype State = State(ip: int, stack: seq<Value>, locals: seq<Value>, heap: seq<seq<Value>>)

  /** One pass of the loop: it ends with a new state, stops the loop quietly
      (the `default` branch), or throws. */
  datatype StepResult = Next(st: State) | Halted | Faulted

  /** A run of the loop: it leaves the loop normally with a final state, or an
      exception escapes, or the model's step budget ran out first. */
  datatype RunResult = Finished(final: State) | Crashed | OutOfFuel(last: State)

  predicate ValueOk(v: Value, size: nat) { v.Arr? ==> v.ref < size }

  predicate ValuesOk(vs: seq<Value>, size: nat)
  {
    forall k :: 0 <= k < |vs| ==> ValueOk(vs[k], size)
  }

  /** Every array handle anywhere refers to an allocated array, and no array
      is longer than an `int` can count (so `ldlen` always has an answer). */
  predicate HeapOk(heap: seq<seq<Value>>)
  {
    forall r :: 0 <= r < |heap| ==> |heap[r]| <= MaxInt32 && ValuesOk(heap[r], |heap|)
  }

  predicate WellFormed(st: State)
  {
    HeapOk(st.heap) && ValuesOk(st.stack, |st.heap|) && ValuesOk(st.locals, |st.heap|)
  }

  /** The state a method starts in: instruction pointer 0, empty operand
      stack, `localCount` null local slots. */
  function Initial(localCount: nat, heap: seq<seq<Value>>): (st: State)
    ensures st.ip == 0 && st.stack == [] && |st.locals| == localCount
    ensures forall k :: 0 <= k < localCount ==> st.locals[k] == Null
    ensures HeapOk(heap) ==> WellFormed(st)
  {
    State(0, [], seq(localCount, _ => Null), heap)
  }

  function Top(s: seq<Value>): Value
    requires |s| > 0
  {
    s[|s| - 1]
  }

  function Second(s: seq<Value>): Value
    requires |s| > 1
  {
    s[|s| - 2]
  }

  function Third(s: seq<Value>): Value
    requires |s| > 2
  {
    s[|s| - 3]
  }

  /** The stack with its n topmost entries popped. */
  function Drop(s: seq<Value>, n: nat): seq<Value>
    requires n <= |s|
  {
    s[..|s| - n]
  }

  /** Push v and advance the instruction pointer by len. */
  function Push(st: State, v: Value, len: nat): State
  {
    st.(ip := st.ip + len, stack := st.stack + [v])
  }

  /** The target of a short branch at ip: the address after its one-byte
      operand plus that operand read as a signed byte. */
  function Target(cil: seq<Byte>, ip: int): int
    requires 0 <= ip && ip + 1 < |cil|
  {
    ip + 2 + SignedByte(cil[ip + 1])
  }

  /** One pass of the loop body at st.ip, which the loop guard keeps below
      |cil|.  The dispatch is split at opcode 0x58 into the load, store,
      constant, stack and branch opcodes and the operator, conversion, string
      and array opcodes. */
  function Step(cil: seq<Byte>, env: Env, st: State): (r: StepResult)
    requires st.ip < |cil| && WellFormed(st)
    ensures r.Next? ==> WellFormed(r.st)
  {
    if st.ip < 0 then Faulted  // `cil[i]` with a negative index throws
    else if cil[st.ip] < Add then LowKeepsWellFormed(cil, st); StepLow(cil, st)
    else HighKeepsWellFormed(cil, env, st); StepHigh(cil, env, st)
  }

  /** The handlers of the opcodes below 0x58. */
  function StepLow(cil: seq<Byte>, st: State): (r: StepResult)
    requires 0 <= st.ip < |cil| && cil[st.ip] < Add
  {
    var op := cil[st.ip];
    if op == Nop || op == Break || op == Ret then Next(st.(ip := st.ip + 1))
    else if Ldloc0 <= op <= Ldloc3 then LoadLocal(st, op - Ldloc0, 1)
    else if Stloc0 <= op <= Stloc3 then StoreLocal(st, op - Stloc0, 1)
    else if op == LdlocS || op == StlocS || op == LdcI4S then
      if st.ip + 1 < |cil| then
        var n := cil[st.ip + 1];
        if op == LdlocS then LoadLocal(st, n, 2)
        else if op == StlocS then StoreLocal(st, n, 2)
        else Next(Push(st, I32(n), 2))
      else Faulted
    else if op == Ldnull then Next(Push(st, Null, 1))
    else if LdcI4M1 <= op <= LdcI4Eight then Next(Push(st, I32(op - LdcI4Zero), 1))
    else if op == LdcR8 then
      if st.ip + 9 <= |cil| then Next(Push(st, F64(cil[st.ip + 1..st.ip + 9]), 9)) else Faulted
    else if op == Dup then
      if |st.stack| > 0 then Next(Push(st, Top(st.stack), 1)) else Faulted
    else if op == Pop then
      if |st.stack| > 0 then Next(st.(ip := st.ip + 1, stack := Drop(st.stack, 1))) else Faulted
    else if op == BrS || op == BrfalseS || op == BrtrueS then Branch(cil, st, op)
    else Halted
  }

  /** The handlers of the opcodes from 0x58 on. */
  function StepHigh(cil: seq<Byte>, env: Env, st: State): (r: StepResult)
    requires 0 <= st.ip < |cil| && cil[st.ip] >= Add && WellFormed(st)
  {
    var op := cil[st.ip];
    if IsBinary(op) then Binary(st, op)
    else if ConvI1 <= op <= ConvI8 then Convert(st, op)
    else if op == Ldstr then LoadString(cil, env, st)
    else if op == Newarr then NewArray(st)
    else if op == Ldlen then ArrayLength(st)
    else if op == LdelemI4 || op == LdelemRef then LoadElement(st, op)
    else if StelemI <= op <= StelemR8 then StoreElement(st, op)
    else if op == StelemRef then
      if |st.stack| >= 3 then Next(st.(ip := st.ip + 1, stack := Drop(st.stack, 3))) else Faulted
    else if op == Prefix then
      if st.ip + 1 < |cil| then Compare(env, st, cil[st.ip + 1]) else Faulted
    else Halted
  }

  /** `ldloc.k` / `ldloc.s k`: push local k. */
  function LoadLocal(st: State, k: int, len: nat): (r: StepResult)
  {
    if 0 <= k < |st.locals| then Next(Push(st, st.locals[k], len)) else Faulted
  }

  /** `stloc.k` / `stloc.s k`: pop into local k. */
  function StoreLocal(st: State, k: int, len: nat): (r: StepResult)
  {
    if |st.stack| > 0 && 0 <= k < |st.locals| then
      Next(st.(ip := st.ip + len, stack := Drop(st.stack, 1), locals := st.locals[k := Top(st.stack)]))
    else Faulted
  }

  /** `br.s`, `brfalse.s` and `brtrue.s`.  The conditional forms unbox the
      popped value as an int (null or any other type throws); `brfalse.s`
      branches when it is 0, `brtrue.s` only when it is exactly 1.  The
      operand byte is read only when the branch is taken. */
  function Branch(cil: seq<Byte>, st: State, op: Byte): (r: StepResult)
    requires 0 <= st.ip < |cil|
  {
    if op == BrS then
      if st.ip + 1 < |cil| then Next(st.(ip := Target(cil, st.ip))) else Faulted
    else if |st.stack| == 0 || !Top(st.stack).I32? then Faulted
    else
      var taken := if op == BrfalseS then Top(st.stack).i == 0 else Top(st.stack).i == 1;
      var rest := Drop(st.stack, 1);
      if !taken then Next(st.(ip := st.ip + 2, stack := rest))
      else if st.ip + 1 < |cil| then Next(st.(ip := Target(cil, st.ip), stack := rest))
      else Faulted
  }

  /** The opcodes that pop two ints and push one: arithmetic, bitwise and shifts. */
  predicate IsBinary(op: Byte)
  {
    Add <= op <= Div || And <= op <= Shr
  }

  /** The int result of a binary opcode, where a is the value popped first
      (pushed last) and b the value popped second; None where C# throws. */
  function IntBinary(op: Byte, a: Int32, b: Int32): Option<Int32>
    requires IsBinary(op)
  {
    if op == Add then Some(Wrap32(a + b))
    else if op == Sub then Some(Wrap32(b - a))
    else if op == Mul then Some(Wrap32(a * b))
    else if op == Div then Div32(b, a)
    else if op == And then Some(And32(a, b))
    else if op == Or then Some(Or32(a, b))
    else if op == Xor then Some(Xor32(a, b))
    else if op == Shl then Some(Shl32(b, a))
    else Some(Shr32(b, a))
  }

  function Binary(st: State, op: Byte): (r: StepResult)
    requires IsBinary(op)
  {
    var s := st.stack;
    if |s| < 2 || !Top(s).I32? || !Second(s).I32? then Faulted
    else
      match IntBinary(op, Top(s).i, Second(s).i)
      case None => Faulted
      case Some(v) => Next(st.(ip := st.ip + 1, stack := Drop(s, 2) + [I32(v)]))
  }

  /** `conv.i1/i2/i4/i8`.  The handler's switch expression has type `long`,
      and each arm unboxes: `(sbyte)` and `(short)` unboxing always throws
      (no boxed sbyte or short ever exists), `conv.i4` needs a boxed int and
      `conv.i8` a boxed long, and the result is a boxed long either way. */
  function Convert(st: State, op: Byte): (r: StepResult)
    requires ConvI1 <= op <= ConvI8
  {
    if |st.stack| == 0 then Faulted
    else
      var v := Top(st.stack);
      if op == ConvI4 && v.I32? then Next(st.(ip := st.ip + 1, stack := Drop(st.stack, 1) + [I64(v.i)]))
      else if op == ConvI8 && v.I64? then Next(st.(ip := st.ip + 1, stack := Drop(st.stack, 1) + [v]))
      else Faulted
  }

  /** The key `ldstr` looks up: only the low two bytes of its four-byte token,
      as a signed little-endian 16-bit value. */
  function StringKey(cil: seq<Byte>, ip: int): int
    requires 0 <= ip && ip + 2 < |cil|
  {
    Int16LE(cil[ip + 1], cil[ip + 2])
  }

  /** `ldstr`: slicing the four token bytes throws if they are not all there. */
  function LoadString(cil: seq<Byte>, env: Env, st: State): (r: StepResult)
    requires 0 <= st.ip
  {
    if st.ip + 5 <= |cil| && StringKey(cil, st.ip) in env.userStrings then
      Next(Push(st, Str(env.userStrings[StringKey(cil, st.ip)]), 5))
    else Faulted
  }

  /** `newarr`: pop a non-negative int length and push a fresh array of that
      many nulls.  The element-type token is skipped, not read. */
  function NewArray(st: State): (r: StepResult)
  {
    var s := st.stack;
    if |s| == 0 || !Top(s).I32? || Top(s).i < 0 then Faulted
    else
      var cell := seq(Top(s).i, _ => Null);
      Next(State(st.ip + 5, Drop(s, 1) + [Arr(|st.heap|)], st.locals, st.heap + [cell]))
  }

  /** `ldlen`: pop an array, push its length. */
  function ArrayLength(st: State): (r: StepResult)
    requires WellFormed(st)
  {
    if |st.stack| > 0 && Top(st.stack).Arr? then
      Next(st.(ip := st.ip + 1, stack := Drop(st.stack, 1) + [I32(|st.heap[Top(st.stack).ref]|)]))
    else Faulted
  }

  /** `ldelem.i4` / `ldelem.ref`: pop an int index and an array, push the
      element; `ldelem.i4` also unboxes the element as an int. */
  function LoadElement(st: State, op: Byte): (r: StepResult)
    requires WellFormed(st)
  {
    var s := st.stack;
    if |s| < 2 || !Top(s).I32? || !Second(s).Arr? then Faulted
    else
      var cell := st.heap[Second(s).ref];
      var idx := Top(s).i;
      if idx < 0 || idx >= |cell| then Faulted
      else if op == LdelemI4 && !cell[idx].I32? then Faulted
      else Next(st.(ip := st.ip + 1, stack := Drop(s, 2) + [cell[idx]]))
  }

  /** The value `stelem.<x>` writes, or None where unboxing throws: `stelem.i`
      stores the value as it is; `.i4`, `.i8` and `.r8` need a boxed int, long
      and double respectively; `.i1`, `.i2` and `.r4` would need a boxed
      sbyte, short or float, which never exist. */
  function Stored(op: Byte, v: Value): Option<Value>
  {
    if op == StelemI then Some(v)
    else if op == StelemI4 && v.I32? then Some(v)
    else if op == StelemI8 && v.I64? then Some(v)
    else if op == StelemR8 && v.F64? then Some(v)
    else None
  }

  /** `stelem.<x>`: pop a value, an int index and an array, and write the
      element. */
  function StoreElement(st: State, op: Byte): (r: StepResult)
    requires WellFormed(st)
  {
    var s := st.stack;
    if |s| < 3 || !Second(s).I32? || !Third(s).Arr? then Faulted
    else
      match Stored(op, Top(s))
      case None => Faulted
      case Some(v) =>
        var a := Third(s).ref;
        var pos := Second(s).i;
        if pos < 0 || pos >= |st.heap[a]| then Faulted
        else
          Next(State(st.ip + 1, Drop(s, 3), st.locals, st.heap[a := st.heap[a][pos := v]]))
  }

  /** Whether object reference comparison `v1 == v2` holds for two values
      that are not both ints: null equals only null, array references are
      equal when they are the same array, values of different kinds are
      different objects, and for two boxes or strings of one kind `env`
      decides. */
  predicate SameObject(env: Env, v1: Value, v2: Value)
  {
    if v1.Null? || v2.Null? then v1.Null? && v2.Null?
    else if v1.Arr? || v2.Arr? then v1.Arr? && v2.Arr? && v1.ref == v2.ref
    else
      ((v1.I32? && v2.I32?) || (v1.I64? && v2.I64?) || (v1.F64? && v2.F64?) || (v1.Str? && v2.Str?))
      && env.sameObject(v1, v2)
  }

  /** The two-byte opcodes `ceq`, `cgt`, `clt` (any other second byte stops the
      loop).  v1 is popped first, v2 second; `cgt` tests v2 > v1 and `clt`
      tests v2 < v1, and only on two ints; `ceq` on anything other than two
      ints compares references. */
  function Compare(env: Env, st: State, sub: Byte): (r: StepResult)
  {
    var s := st.stack;
    if sub != Ceq && sub != Cgt && sub != Clt then Halted
    else if |s| < 2 then Faulted
    else
      var v1, v2 := Top(s), Second(s);
      if v1.I32? && v2.I32? then
        var holds := if sub == Ceq then v1.i == v2.i else if sub == Cgt then v2.i > v1.i else v1.i > v2.i;
        Next(st.(ip := st.ip + 2, stack := Drop(s, 2) + [I32(if holds then 1 else 0)]))
      else if sub == Ceq then
        Next(st.(ip := st.ip + 2, stack := Drop(s, 2) + [I32(if SameObject(env, v1, v2) then 1 else 0)]))
      else Faulted
  }

  /** A pass through the handlers below 0x58 creates no handle to an array
      that does not exist. */
  lemma LowKeepsWellFormed(cil: seq<Byte>, st: State)
    requires 0 <= st.ip < |cil| && cil[st.ip] < Add && WellFormed(st)
    ensures StepLow(cil, st).Next? ==> WellFormed(StepLow(cil, st).st)
  {
    var size := |st.heap|;
    if |st.stack| > 0 {
      assert ValueOk(Top(st.stack), size);
    }
  }

  /** Likewise for the handlers from 0x58 on; `newarr` and the `stelem`
      family are the ones that change the heap. */
  lemma HighKeepsWellFormed(cil: seq<Byte>, env: Env, st: State)
    requires 0 <= st.ip < |cil| && cil[st.ip] >= Add && WellFormed(st)
    ensures StepHigh(cil, env, st).Next? ==> WellFormed(StepHigh(cil, env, st).st)
  {
    var op := cil[st.ip];
    if op == Newarr {
      NewArrayKeepsWellFormed(st);
    } else if StelemI <= op <= StelemR8 {
      StoreElementKeepsWellFormed(st, op);
    } else if op == LdelemI4 || op == LdelemRef {
      var s := st.stack;
      if |s| >= 2 && Second(s).Arr? {
        assert ValueOk(Second(s), |st.heap|);
      }
    }
  }

  lemma NewArrayKeepsWellFormed(st: State)
    requires WellFormed(st)
    ensures NewArray(st).Next? ==> WellFormed(NewArray(st).st)
  {
    if NewArray(st).Next? {
      var st' := NewArray(st).st;
      forall r | 0 <= r < |st'.heap|
        ensures |st'.heap[r]| <= MaxInt32 && ValuesOk(st'.heap[r], |st'.heap|)
      {
        if r < |st.heap| { assert st'.heap[r] == st.heap[r]; }
      }
    }
  }

  lemma StoreElementKeepsWellFormed(st: State, op: Byte)
    requires WellFormed(st)
    ensures StoreElement(st, op).Next? ==> WellFormed(StoreElement(st, op).st)
  {
    if StoreElement(st, op).Next? {
      var s := st.stack;
      var st' := StoreElement(st, op).st;
      var a := Third(s).ref;
      assert ValueOk(Top(s), |st.heap|) && ValueOk(Third(s), |st.heap|);
      forall r | 0 <= r < |st'.heap|
        ensures |st'.heap[r]| <= MaxInt32 && ValuesOk(st'.heap[r], |st'.heap|)
      {
        if r != a { assert st'.heap[r] == st.heap[r]; }
      }
    }
  }

  /** The loop `while (i < cil.Length) { ... }` run for at most `fuel` passes. */
  function Exec(cil: seq<Byte>, env: Env, st: State, fuel: nat): RunResult
    requires WellFormed(st)
    decreases fuel, 1
  {
    if st.ip >= |cil| then Finished(st)
    else if fuel == 0 then OutOfFuel(st)
    else Resume(cil, env, st, fuel)
  }

  /** A run that has budget left at a state inside the code: one pass, then
      the loop from the state it leads to with one unit less. */
  function Resume(cil: seq<Byte>, env: Env, st: State, fuel: nat): RunResult
    requires st.ip < |cil| && WellFormed(st) && fuel > 0
    decreases fuel, 0
  {
    match Step(cil, env, st)
    case Next(st') => Exec(cil, env, st', fuel - 1)
    case Halted => Finished(st)
    case Faulted => Crashed
  }

  /** One pass of the loop as a run: a run with budget fuel + 1 from a state
      inside the code is the run from the state the pass leads to. */
  lemma ExecUnfold(cil: seq<Byte>, env: Env, st: State, fuel: nat)
    requires st.ip < |cil| && WellFormed(st)
    ensures Exec(cil, env, st, fuel + 1) == match Step(cil, env, st)
      case Next(st') => Exec(cil, env, st', fuel)
      case Halted => Finished(st)
      case Faulted => Crashed
  {
  }
}
