/** The interpreter as the program runs it: a loop over the instruction
    bytes that updates the current frame and the heap's arrays in place,
    proved to compute what module Semantics defines. */
module Vm {
  import opened Values
  import opened Semantics
  import opened Frames

  /** The arrays the interpreter has allocated (`new object[len]`).  A value
      `Arr(r)` refers to `arrays[r]`; the arrays are pairwise distinct, so
      equal handles and the same array are one and the same thing. */
  class Heap {
    var arrays: seq<array<Value>>

    ghost function Contents(): seq<seq<Value>>
      reads this, arrays
    {
      seq(|arrays|, r requires 0 <= r < |arrays| reads this, arrays => arrays[r][..])
    }

    ghost predicate Valid()
      reads this, arrays
    {
      (forall j, k :: 0 <= j < k < |arrays| ==> arrays[j] != arrays[k])
      && HeapOk(Contents())
    }

    constructor ()
      ensures Valid() && arrays == []
    {
      arrays := [];
    }

    /** `new object[len]`: a fresh array of len nulls. */
    method Allocate(len: nat) returns (r: nat)
      requires Valid() && len <= MaxInt32
      modifies this
      ensures Valid() && r == |old(arrays)| && |arrays| == r + 1
      ensures arrays[..r] == old(arrays) && fresh(arrays[r])
      ensures Contents() == old(Contents()) + [seq(len, _ => Null)]
    {
      var a := new Value[len](_ => Null);
      r := |arrays|;
      arrays := arrays + [a];
      assert a[..] == seq(len, _ => Null);
      assert forall k :: 0 <= k < r ==> arrays[k][..] == old(arrays[k][..]);
      assert Contents() == old(Contents()) + [seq(len, _ => Null)];
      assert HeapOk(Contents()) by {
        var h := Contents();
        forall q | 0 <= q < |h| ensures |h[q]| <= MaxInt32 && ValuesOk(h[q], |h|) {
          if q < r { assert h[q] == old(Contents())[q]; }
        }
      }
    }

    /** `arr[pos] = v`. */
    method Store(r: nat, pos: nat, v: Value)
      requires Valid() && r < |arrays| && pos < arrays[r].Length && ValueOk(v, |arrays|)
      modifies arrays[r]
      ensures Valid()
      ensures Contents() == old(Contents())[r := old(Contents())[r][pos := v]]
    {
      arrays[r][pos] := v;
      assert Contents() == old(Contents())[r := old(Contents())[r][pos := v]];
      assert HeapOk(Contents()) by {
        var h, h0 := Contents(), old(Contents());
        forall q | 0 <= q < |h| ensures |h[q]| <= MaxInt32 && ValuesOk(h[q], |h|) {
          if q != r { assert h[q] == h0[q]; }
        }
      }
    }

    /** `arr[pos]`. */
    method Load(r: nat, pos: nat) returns (v: Value)
      requires r < |arrays| && pos < arrays[r].Length
      ensures v == Contents()[r][pos]
    {
      v := arrays[r][pos];
    }

    /** `arr.Length`. */
    method Length(r: nat) returns (n: nat)
      requires r < |arrays|
      ensures n == |Contents()[r]|
    {
      n := arrays[r].Length;
    }
  }

  /** A method body as the metadata reader supplies it. */
  datatype MethodBody = MethodBody(cil: seq<Byte>, localCount: nat, maxStack: nat)

  /** How one pass of the loop ended. */
  datatype Status = Continue | Halt | Fault

  /** How `_Run` ended: the loop was left normally, an exception escaped, or
      the step budget of the model ran out. */
  datatype Termination = Returned | Threw | Exhausted

  class VM {
    /** The call stack; its last element is the running frame. */
    var frames: seq<Frame>
    const heap: Heap
    const env: Env

    ghost predicate Valid()
      reads this, heap, heap.arrays
    {
      heap.Valid() && forall k :: 0 <= k < |frames| ==> frames[k].locals !in heap.arrays
    }

    constructor (env: Env)
      ensures Valid() && frames == [] && fresh(heap) && this.env == env
    {
      frames := [];
      heap := new Heap();
      this.env := env;
    }

    /** The abstract machine state of frame at instruction pointer ip. */
    ghost function StateOf(frame: Frame, ip: int): State
      reads frame, frame.locals, heap, heap.arrays
    {
      State(ip, frame.stack, frame.locals[..], heap.Contents())
    }

    /** What every pass of the loop needs: a valid heap that does not contain
        the frame's locals array, and a well-formed abstract state. */
    ghost predicate Ready(frame: Frame, ip: int)
      reads frame, frame.locals, heap, heap.arrays
    {
      heap.Valid() && frame.locals !in heap.arrays && WellFormed(StateOf(frame, ip))
    }

    /** The imperative pass ended as the abstract step r prescribes. */
    ghost predicate Realizes(r: StepResult, status: Status, ip': int, frame: Frame, before: State)
      reads frame, frame.locals, heap, heap.arrays
    {
      match r
      case Next(st) => status == Continue && StateOf(frame, ip') == st
      case Halted => status == Halt && StateOf(frame, ip') == before
      case Faulted => status == Fault
    }

    /** `Run`: push a frame sized for the method, run the loop, and pop the
        frame again when the loop ends normally (an exception leaves it). */
    method Run(body: MethodBody, fuel: nat) returns (t: Termination)
      requires Valid()
      modifies this, heap, set a | a in heap.arrays
      ensures Valid()
      ensures var r := Exec(body.cil, env, Initial(body.localCount, old(heap.Contents())), fuel);
        && (t == Returned <==> r.Finished?)
        && (t == Threw <==> r.Crashed?)
        && (t == Exhausted <==> r.OutOfFuel?)
        && (r.Finished? ==> heap.Contents() == r.final.heap)
      ensures t == Returned ==> frames == old(frames)
      ensures t != Returned ==> |frames| == |old(frames)| + 1 && frames[..|old(frames)|] == old(frames)
    {
      var frame := new Frame(body.localCount, body.maxStack);
      assert frame.locals[..] == Initial(body.localCount, heap.Contents()).locals;
      frames := frames + [frame];
      t := Execute(body.cil, fuel);
      if t == Returned {
        frames := frames[..|frames| - 1];
      }
    }

    /** `_Run`: the loop `while (i < cil.Length)` over the running frame. */
    method Execute(cil: seq<Byte>, fuel: nat) returns (t: Termination)
      requires Valid() && |frames| > 0 && Ready(frames[|frames| - 1], 0)
      modifies frames[|frames| - 1], frames[|frames| - 1].locals, heap, set a | a in heap.arrays
      ensures Valid() && frames == old(frames)
      ensures forall a :: a in heap.arrays && a !in old(heap.arrays) ==> fresh(a)
      ensures var frame := frames[|frames| - 1];
        var r := Exec(cil, env, old(StateOf(frame, 0)), fuel);
        && (t == Returned <==> r.Finished?)
        && (t == Threw <==> r.Crashed?)
        && (t == Exhausted <==> r.OutOfFuel?)
        && (r.Finished? ==>
              frame.stack == r.final.stack && frame.locals[..] == r.final.locals && heap.Contents() == r.final.heap)
    {
      var frame := frames[|frames| - 1];
      ghost var start := StateOf(frame, 0);
      var i := 0;
      var left := fuel;
      while i < |cil|
        invariant Ready(frame, i) && Valid()
        invariant forall a :: a in heap.arrays && a !in old(heap.arrays) ==> fresh(a)
        invariant Exec(cil, env, StateOf(frame, i), left) == Exec(cil, env, start, fuel)
        decreases left
      {
        if left == 0 {
          return Exhausted;
        }
        ghost var arrays0 := heap.arrays;
        var status, i' := Pass(frame, cil, i, left);
        forall k | 0 <= k < |frames|
          ensures frames[k].locals !in heap.arrays
        {
          assert frames[k].locals !in arrays0;
        }
        if status == Halt {
          return Returned;
        } else if status == Fault {
          return Threw;
        }
        i, left := i', left - 1;
      }
      t := Returned;
    }

    /** One pass of the loop body seen as a move along the run: the run from
        the state before the pass with budget left goes on from the state
        after it with one unit less, or ends here. */
    method Pass(frame: Frame, cil: seq<Byte>, ip: int, ghost left: nat) returns (status: Status, ip': int)
      requires Ready(frame, ip) && ip < |cil| && left > 0
      modifies frame, frame.locals, heap, heap.arrays
      ensures heap.Valid() && frame.locals !in heap.arrays
      ensures forall a :: a in heap.arrays && a !in old(heap.arrays) ==> fresh(a)
      ensures status == Continue ==>
        Ready(frame, ip') && Exec(cil, env, StateOf(frame, ip'), left - 1) == Exec(cil, env, old(StateOf(frame, ip)), left)
      ensures status == Halt ==> Exec(cil, env, old(StateOf(frame, ip)), left) == Finished(StateOf(frame, ip'))
      ensures status == Fault ==> Exec(cil, env, old(StateOf(frame, ip)), left) == Crashed
    {
      ghost var before := StateOf(frame, ip);
      ExecUnfold(cil, env, before, left - 1);
      status, ip' := Step(frame, cil, ip);
    }

    /** One pass of the loop body: decode the opcode at ip and run its handler. */
    method Step(frame: Frame, cil: seq<Byte>, ip: int) returns (status: Status, ip': int)
      requires Ready(frame, ip) && ip < |cil|
      modifies frame, frame.locals, heap, heap.arrays
      ensures heap.Valid() && frame.locals !in heap.arrays
      ensures forall a :: a in heap.arrays && a !in old(heap.arrays) ==> fresh(a)
      ensures status == Continue ==> Ready(frame, ip')
      ensures Realizes(Semantics.Step(cil, env, old(StateOf(frame, ip))), status, ip', frame, old(StateOf(frame, ip)))
    {
      if ip < 0 {
        return Fault, ip;
      }
      if cil[ip] < Add {
        status, ip' := StepLow(frame, cil, ip);
      } else {
        status, ip' := StepHigh(frame, cil, ip);
      }
    }

    /** The handlers of the opcodes below 0x58. */
    method StepLow(frame: Frame, cil: seq<Byte>, ip: int) returns (status: Status, ip': int)
      requires Ready(frame, ip) && 0 <= ip < |cil| && cil[ip] < Add
      modifies frame, frame.locals
      ensures heap.Valid()
      ensures Realizes(Semantics.StepLow(cil, old(StateOf(frame, ip))), status, ip', frame, old(StateOf(frame, ip)))
    {
      var op := cil[ip];
      if op == Nop || op == Break || op == Ret {
        status, ip' := Continue, ip + 1;
      } else if Ldloc0 <= op <= Ldloc3 {
        status, ip' := LoadLocal(frame, op - Ldloc0, ip, 1);
      } else if Stloc0 <= op <= Stloc3 {
        status, ip' := StoreLocal(frame, op - Stloc0, ip, 1);
      } else if op == LdlocS || op == StlocS || op == LdcI4S {
        if ip + 1 >= |cil| {
          return Fault, ip;
        }
        var n := cil[ip + 1];
        if op == LdlocS {
          status, ip' := LoadLocal(frame, n, ip, 2);
        } else if op == StlocS {
          status, ip' := StoreLocal(frame, n, ip, 2);
        } else {
          status, ip' := PushValue(frame, I32(n), ip, 2);
        }
      } else if op == Ldnull {
        status, ip' := PushValue(frame, Null, ip, 1);
      } else if LdcI4M1 <= op <= LdcI4Eight {
        status, ip' := PushValue(frame, I32(op - LdcI4Zero), ip, 1);
      } else if op == LdcR8 {
        if ip + 9 > |cil| {
          return Fault, ip;
        }
        status, ip' := PushValue(frame, F64(cil[ip + 1..ip + 9]), ip, 9);
      } else if op == Dup {
        var v := frame.Peek();
        if v.None? {
          return Fault, ip;
        }
        status, ip' := PushValue(frame, v.value, ip, 1);
      } else if op == Pop {
        var v := frame.Pop();
        status, ip' := if v.None? then Fault else Continue, ip + 1;
      } else if op == BrS || op == BrfalseS || op == BrtrueS {
        status, ip' := Branch(frame, cil, ip, op);
      } else {
        status, ip' := Halt, ip;
      }
    }

    /** The handlers of the opcodes from 0x58 on. */
    method StepHigh(frame: Frame, cil: seq<Byte>, ip: int) returns (status: Status, ip': int)
      requires Ready(frame, ip) && 0 <= ip < |cil| && cil[ip] >= Add
      modifies frame, heap, heap.arrays
      ensures heap.Valid() && frame.locals !in heap.arrays
      ensures forall a :: a in heap.arrays && a !in old(heap.arrays) ==> fresh(a)
      ensures Realizes(Semantics.StepHigh(cil, env, old(StateOf(frame, ip))), status, ip', frame, old(StateOf(frame, ip)))
    {
      var op := cil[ip];
      if IsBinary(op) {
        status, ip' := Binary(frame, ip, op);
      } else if ConvI1 <= op <= ConvI8 {
        status, ip' := Convert(frame, ip, op);
      } else if op == Ldstr {
        status, ip' := LoadString(frame, cil, ip);
      } else if op == Newarr {
        status, ip' := NewArray(frame, ip);
      } else if op == Ldlen {
        status, ip' := ArrayLength(frame, ip);
      } else if op == LdelemI4 || op == LdelemRef {
        status, ip' := LoadElement(frame, ip, op);
      } else if StelemI <= op <= StelemR8 {
        status, ip' := StoreElement(frame, ip, op);
      } else if op == StelemRef {
        var a := frame.Pop();
        var b := frame.Pop();
        var c := frame.Pop();
        status, ip' := if c.None? then Fault else Continue, ip + 1;
      } else if op == Prefix {
        if ip + 1 >= |cil| {
          return Fault, ip;
        }
        status, ip' := Compare(frame, ip, cil[ip + 1]);
      } else {
        status, ip' := Halt, ip;
      }
    }

    /** Push v and move past an instruction of len bytes. */
    method PushValue(frame: Frame, v: Value, ip: int, len: nat) returns (status: Status, ip': int)
      requires Ready(frame, ip)
      modifies frame
      ensures status == Continue
      ensures StateOf(frame, ip') == Semantics.Push(old(StateOf(frame, ip)), v, len)
    {
      frame.Push(v);
      return Continue, ip + len;
    }

    method LoadLocal(frame: Frame, k: int, ip: int, len: nat) returns (status: Status, ip': int)
      requires Ready(frame, ip)
      modifies frame
      ensures Realizes(Semantics.LoadLocal(old(StateOf(frame, ip)), k, len), status, ip', frame, old(StateOf(frame, ip)))
    {
      if 0 <= k < frame.locals.Length {
        frame.Push(frame.locals[k]);
        return Continue, ip + len;
      }
      return Fault, ip;
    }

    method StoreLocal(frame: Frame, k: int, ip: int, len: nat) returns (status: Status, ip': int)
      requires Ready(frame, ip)
      modifies frame, frame.locals
      ensures heap.Valid()
      ensures Realizes(Semantics.StoreLocal(old(StateOf(frame, ip)), k, len), status, ip', frame, old(StateOf(frame, ip)))
    {
      var v := frame.Pop();
      if v.None? || !(0 <= k < frame.locals.Length) {
        return Fault, ip;
      }
      frame.locals[k] := v.value;
      return Continue, ip + len;
    }

    method Branch(frame: Frame, cil: seq<Byte>, ip: int, op: Byte) returns (status: Status, ip': int)
      requires Ready(frame, ip) && 0 <= ip < |cil|
      modifies frame
      ensures Realizes(Semantics.Branch(cil, old(StateOf(frame, ip)), op), status, ip', frame, old(StateOf(frame, ip)))
    {
      if op == BrS {
        if ip + 1 >= |cil| {
          return Fault, ip;
        }
        return Continue, Target(cil, ip);
      }
      var v := frame.Pop();
      if v.None? || !v.value.I32? {
        return Fault, ip;
      }
      var taken := if op == BrfalseS then v.value.i == 0 else v.value.i == 1;
      if !taken {
        return Continue, ip + 2;
      }
      if ip + 1 >= |cil| {
        return Fault, ip;
      }
      return Continue, Target(cil, ip);
    }

    method Binary(frame: Frame, ip: int, op: Byte) returns (status: Status, ip': int)
      requires Ready(frame, ip) && IsBinary(op)
      modifies frame
      ensures Realizes(Semantics.Binary(old(StateOf(frame, ip)), op), status, ip', frame, old(StateOf(frame, ip)))
    {
      var a := frame.Pop();
      if a.None? || !a.value.I32? {
        return Fault, ip;
      }
      var b := frame.Pop();
      if b.None? || !b.value.I32? {
        return Fault, ip;
      }
      var r := IntBinary(op, a.value.i, b.value.i);
      if r.None? {
        return Fault, ip;
      }
      frame.Push(I32(r.value));
      return Continue, ip + 1;
    }

    method Convert(frame: Frame, ip: int, op: Byte) returns (status: Status, ip': int)
      requires Ready(frame, ip) && ConvI1 <= op <= ConvI8
      modifies frame
      ensures Realizes(Semantics.Convert(old(StateOf(frame, ip)), op), status, ip', frame, old(StateOf(frame, ip)))
    {
      var v := frame.Pop();
      if v.None? {
        return Fault, ip;
      }
      if op == ConvI4 && v.value.I32? {
        frame.Push(I64(v.value.i));
      } else if op == ConvI8 && v.value.I64? {
        frame.Push(v.value);
      } else {
        return Fault, ip;
      }
      return Continue, ip + 1;
    }

    method LoadString(frame: Frame, cil: seq<Byte>, ip: int) returns (status: Status, ip': int)
      requires Ready(frame, ip) && 0 <= ip
      modifies frame
      ensures Realizes(Semantics.LoadString(cil, env, old(StateOf(frame, ip))), status, ip', frame, old(StateOf(frame, ip)))
    {
      if ip + 5 > |cil| {
        return Fault, ip;
      }
      var key := StringKey(cil, ip);
      if key !in env.userStrings {
        return Fault, ip;
      }
      frame.Push(Str(env.userStrings[key]));
      return Continue, ip + 5;
    }

    method NewArray(frame: Frame, ip: int) returns (status: Status, ip': int)
      requires Ready(frame, ip)
      modifies frame, heap
      ensures heap.Valid() && frame.locals !in heap.arrays
      ensures forall a :: a in heap.arrays && a !in old(heap.arrays) ==> fresh(a)
      ensures Realizes(Semantics.NewArray(old(StateOf(frame, ip))), status, ip', frame, old(StateOf(frame, ip)))
    {
      var n := frame.Pop();
      if n.None? || !n.value.I32? || n.value.i < 0 {
        return Fault, ip;
      }
      var r := heap.Allocate(n.value.i);
      frame.Push(Arr(r));
      return Continue, ip + 5;
    }

    method ArrayLength(frame: Frame, ip: int) returns (status: Status, ip': int)
      requires Ready(frame, ip)
      modifies frame
      ensures Realizes(Semantics.ArrayLength(old(StateOf(frame, ip))), status, ip', frame, old(StateOf(frame, ip)))
    {
      var v := frame.Pop();
      if v.None? || !v.value.Arr? {
        return Fault, ip;
      }
      assert ValueOk(old(frame.stack)[|old(frame.stack)| - 1], |heap.arrays|);
      var n := heap.Length(v.value.ref);
      frame.Push(I32(n));
      return Continue, ip + 1;
    }

    method LoadElement(frame: Frame, ip: int, op: Byte) returns (status: Status, ip': int)
      requires Ready(frame, ip)
      modifies frame
      ensures Realizes(Semantics.LoadElement(old(StateOf(frame, ip)), op), status, ip', frame, old(StateOf(frame, ip)))
    {
      var idx := frame.Pop();
      if idx.None? || !idx.value.I32? {
        return Fault, ip;
      }
      var arr := frame.Pop();
      if arr.None? || !arr.value.Arr? {
        return Fault, ip;
      }
      assert ValueOk(old(frame.stack)[|old(frame.stack)| - 2], |heap.arrays|);
      var r, p := arr.value.ref, idx.value.i;
      var n := heap.Length(r);
      if p < 0 || p >= n {
        return Fault, ip;
      }
      var v := heap.Load(r, p);
      if op == LdelemI4 && !v.I32? {
        return Fault, ip;
      }
      frame.Push(v);
      return Continue, ip + 1;
    }

    method StoreElement(frame: Frame, ip: int, op: Byte) returns (status: Status, ip': int)
      requires Ready(frame, ip)
      modifies frame, heap.arrays
      ensures heap.Valid()
      ensures Realizes(Semantics.StoreElement(old(StateOf(frame, ip)), op), status, ip', frame, old(StateOf(frame, ip)))
    {
      ghost var s := frame.stack;
      var v := frame.Pop();
      if v.None? {
        return Fault, ip;
      }
      var pos := frame.Pop();
      if pos.None? || !pos.value.I32? {
        assert |s| < 3 || !Second(s).I32?;
        return Fault, ip;
      }
      var arr := frame.Pop();
      if arr.None? || !arr.value.Arr? {
        assert |s| < 3 || !Third(s).Arr?;
        return Fault, ip;
      }
      assert v.value == Top(s) && pos.value == Second(s) && arr.value == Third(s) && frame.stack == Drop(s, 3);
      var stored := Stored(op, v.value);
      if stored.None? {
        return Fault, ip;
      }
      assert ValueOk(Third(s), |heap.arrays|) && ValueOk(Top(s), |heap.arrays|);
      var r, p := arr.value.ref, pos.value.i;
      var n := heap.Length(r);
      if p < 0 || p >= n {
        return Fault, ip;
      }
      ghost var locals := frame.locals[..];
      heap.Store(r, p, stored.value);
      assert frame.locals[..] == locals;
      return Continue, ip + 1;
    }

    method Compare(frame: Frame, ip: int, sub: Byte) returns (status: Status, ip': int)
      requires Ready(frame, ip)
      modifies frame
      ensures Realizes(Semantics.Compare(env, old(StateOf(frame, ip)), sub), status, ip', frame, old(StateOf(frame, ip)))
    {
      if sub != Ceq && sub != Cgt && sub != Clt {
        return Halt, ip;
      }
      var v1 := frame.Pop();
      var v2 := frame.Pop();
      if v1.None? || v2.None? {
        return Fault, ip;
      }
      ghost var s := old(frame.stack);
      assert v1.value == Top(s) && v2.value == Second(s) && frame.stack == Drop(s, 2);
      if v1.value.I32? && v2.value.I32? {
        var i1, i2 := v1.value.i, v2.value.i;
        var holds := if sub == Ceq then i1 == i2 else if sub == Cgt then i2 > i1 else i1 > i2;
        frame.Push(I32(if holds then 1 else 0));
      } else if sub == Ceq {
        frame.Push(I32(if SameObject(env, v1.value, v2.value) then 1 else 0));
      } else {
        return Fault, ip;
      }
      return Continue, ip + 2;
    }
  }
}
