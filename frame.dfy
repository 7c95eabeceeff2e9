/** The activation record of one method: its local slots and its operand
    stack, both updated in place by the interpreter. */
module Frames {
  import opened Values

  class Frame {
    /** The local slots.  The array is allocated once and never replaced; only
        its elements are written. */
    const locals: array<Value>

    /** The operand stack, top at the end.  The capacity it was created with
        is only an initial allocation size: pushing never fails. */
    var stack: seq<Value>

    /** A frame for a method declaring maxLocals locals and a maximum stack
        depth of maxStack: every local slot null, the stack empty.  maxStack
        only sizes the stack's initial storage, so it constrains nothing. */
    constructor (maxLocals: nat, maxStack: nat)
      ensures fresh(locals) && locals.Length == maxLocals
      ensures forall k :: 0 <= k < maxLocals ==> locals[k] == Null
      ensures stack == []
    {
      locals := new Value[maxLocals](_ => Null);
      stack := [];
    }

    /** `Stack.Push`: no capacity check. */
    method Push(v: Value)
      modifies this
      ensures stack == old(stack) + [v]
    {
      stack := stack + [v];
    }

    /** `Stack.Pop`: the top entry, or None where the empty stack throws. */
    method Pop() returns (v: Option<Value>)
      modifies this
      ensures old(stack) == [] ==> v == None && stack == old(stack)
      ensures old(stack) != [] ==>
        v == Some(old(stack)[|old(stack)| - 1]) && stack == old(stack)[..|old(stack)| - 1]
    {
      if stack == [] {
        v := None;
      } else {
        v := Some(stack[|stack| - 1]);
        stack := stack[..|stack| - 1];
      }
    }

    /** `Stack.Peek`: the top entry without removing it, or None where the
        empty stack throws. */
    method Peek() returns (v: Option<Value>)
      ensures stack == [] <==> v == None
      ensures stack != [] ==> v == Some(stack[|stack| - 1])
    {
      v := if stack == [] then None else Some(stack[|stack| - 1]);
    }
  }
}
