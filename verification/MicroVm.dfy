/** The MicroVM interpreter and the bytecode builder (`src/execution/vm.rs`), as objects,
    proved against VmSemantics. */
module MicroVm {
  import opened Bytes
  import opened Domain
  import opened Shake256
  import opened VmSemantics
  import opened VmWords
  import opened Wrappers

  class MicroVM {
    const h: Xof
    const canary: u64
    const slots: array<u64>
    var sp: nat

    /** Throughout a run: the pointer is in range and every slot at or above it is zero. */
    ghost predicate Running()
      reads this, slots
    {
      && slots.Length == STACK_DEPTH
      && sp <= STACK_DEPTH
      && forall k :: sp <= k < STACK_DEPTH ==> slots[k] == 0
    }

    /** Between public calls: nothing is left on the stack. */
    ghost predicate Wiped()
      reads this, slots
    {
      && slots.Length == STACK_DEPTH
      && sp == 0
      && forall k :: 0 <= k < STACK_DEPTH ==> slots[k] == 0
    }

    ghost function Stack(): (s: seq<u64>)
      requires Running()
      reads this, slots
      ensures |s| == sp
    {
      slots[..sp]
    }

    constructor WithCanary(h: Xof, canary: u64)
      ensures Wiped() && this.h == h && this.canary == canary && fresh(slots)
    {
      this.h := h;
      this.canary := canary;
      slots := new u64[STACK_DEPTH](_ => 0);
      sp := 0;
    }

    method Push(v: u64) returns (ok: bool)
      requires Running()
      modifies this, slots
      ensures Running()
      ensures ok <==> old(sp) < STACK_DEPTH
      ensures Stack() == if ok then old(Stack()) + [v] else old(Stack())
    {
      if sp >= STACK_DEPTH {
        return false;
      }
      slots[sp] := v;
      sp := sp + 1;
      return true;
    }

    method Pop() returns (r: Option<u64>)
      requires Running()
      modifies this, slots
      ensures Running()
      ensures r.Some? <==> old(sp) > 0
      ensures r.Some? ==> r.value == Top(old(Stack()), 0) && Stack() == Drop(old(Stack()), 1)
      ensures r.None? ==> Stack() == old(Stack())
    {
      if sp == 0 {
        return None;
      }
      sp := sp - 1;
      var val := slots[sp];
      slots[sp] := 0;
      return Some(val);
    }

    method WipeState()
      requires slots.Length == STACK_DEPTH
      modifies this, slots
      ensures Wiped()
    {
      for i := 0 to STACK_DEPTH
        invariant forall k :: 0 <= k < i ==> slots[k] == 0
      {
        slots[i] := 0;
      }
      sp := 0;
    }

    method Swap()
      requires Running() && sp >= 2
      modifies slots
      ensures Running() && sp == old(sp)
      ensures Stack() == Drop(old(Stack()), 2) + [Top(old(Stack()), 0), Top(old(Stack()), 1)]
    {
      slots[sp - 1], slots[sp - 2] := slots[sp - 2], slots[sp - 1];
    }

    /** Bottom element to the top, by shifting every other element down. */
    method Rotate()
      requires Running() && sp >= 2
      modifies slots
      ensures Running() && sp == old(sp)
      ensures Stack() == old(Stack())[1..] + [old(Stack())[0]]
    {
      RotateDown(slots, sp);
    }

    /** Pop b, pop a, push the result; returns the result bytes for the trace. */
    method Binary(op: OpCode) returns (ok: bool, emitted: ByteString)
      requires Running() && IsBinary(op)
      modifies this, slots
      ensures Running()
      ensures ok <==> old(sp) >= 2
      ensures ok ==> var s := old(Stack()); var v := Alu(op, Top(s, 1), Top(s, 0));
        Stack() == Drop(s, 2) + [v] && emitted == ToLe(v)
    {
      hide Alu, AluBits, ToLe, IsBinary;
      emitted := [];
      var b := Pop();
      if b.None? {
        return false, emitted;
      }
      var a := Pop();
      if a.None? {
        return false, emitted;
      }
      var result := AluBits(op, a.value, b.value);
      AluBitsCorrect(op, a.value, b.value);
      emitted := ToLe(result);
      ok := Push(result);
    }

    method Unary() returns (ok: bool, emitted: ByteString)
      requires Running()
      modifies this, slots
      ensures Running()
      ensures ok <==> old(sp) >= 1
      ensures ok ==> var v := !Top(old(Stack()), 0);
        Stack() == Drop(old(Stack()), 1) + [v] && emitted == ToLe(v)
    {
      hide ToLe;
      emitted := [];
      var a := Pop();
      if a.None? {
        return false, emitted;
      }
      var result := !a.value;
      emitted := ToLe(result);
      ok := Push(result);
    }

    /** The instructions that move values and emit nothing. */
    method Move(op: OpCode) returns (ok: bool)
      requires Running() && op in {OpCode.Nop, OpCode.Pop, OpCode.Dup, OpCode.Swap, OpCode.Rot}
      modifies this, slots
      ensures Running()
      ensures ok <==> StackAfter(Simple(op), old(Stack())).Some?
      ensures ok ==> Some(Stack()) == StackAfter(Simple(op), old(Stack()))
    {
      hide Alu, IsBinary;
      ok := true;
      if op == OpCode.Pop {
        var r := Pop();
        ok := r.Some?;
      } else if op == OpCode.Dup {
        if sp == 0 {
          return false;
        }
        var top := slots[sp - 1];
        ok := Push(top);
      } else if op == OpCode.Swap {
        if sp < 2 {
          return false;
        }
        Swap();
      } else if op == OpCode.Rot {
        if sp >= 2 {
          Rotate();
        }
      }
    }

    /** One instruction other than Push. */
    method StepSimple(op: OpCode) returns (ok: bool, emitted: ByteString)
      requires Running() && op != OpCode.Push
      modifies this, slots
      ensures Running()
      ensures ok <==> StackAfter(Simple(op), old(Stack())).Some?
      ensures ok ==> Some(Stack()) == StackAfter(Simple(op), old(Stack()))
      ensures ok ==> EncodeInstr(Simple(op)) + emitted == TraceEntry(Simple(op), Stack())
    {
      hide Alu, ToLe, ToU8;
      if op == OpCode.Not {
        ok, emitted := Unary();
      } else if IsBinary(op) {
        ok, emitted := Binary(op);
      } else {
        emitted := [];
        ok := Move(op);
      }
    }

    /** The interpreter loop.  Returns the absorbed bytes, or None after a failure. */
    method Interpret(code: ByteString) returns (trace: Option<ByteString>)
      requires Running() && sp == 0
      modifies this, slots
      ensures Running()
      ensures trace.Some? <==> Run(code, START).Some?
      ensures trace.Some? ==> Run(code, START).value == Machine(Stack(), trace.value)
    {
      hide Exec, Fetch, VM_TRACE, Run;
      var absorbed := VM_TRACE;
      var pc := 0;
      assert code[0..] == code;
      while pc < |code|
        invariant pc <= |code| && Running()
        invariant Run(code, START) == Run(code[pc..], Machine(Stack(), absorbed))
      {
        ghost var rest, m := code[pc..], Machine(Stack(), absorbed);
        RunUnfold(rest, m);
        var ok, size, entry := FetchAndStep(code, pc);
        if !ok {
          return None;
        }
        assert rest[size..] == code[pc + size..];
        absorbed := absorbed + entry;
        pc := pc + size;
      }
      RunUnfold([], Machine(Stack(), absorbed));
      assert code[pc..] == [];
      return Some(absorbed);
    }

    /** One iteration of the loop: decode at pc, execute, and report what was absorbed. */
    method FetchAndStep(code: ByteString, pc: nat) returns (ok: bool, size: nat, entry: ByteString)
      requires Running() && pc < |code|
      modifies this, slots
      ensures Running()
      ensures var i := Fetch(code[pc..]);
        && (ok <==> i.Some? && StackAfter(i.value, old(Stack())).Some?)
        && (ok ==> size == InstrSize(i.value) && pc + size <= |code|)
        && (ok ==> Some(Stack()) == StackAfter(i.value, old(Stack())))
        && (ok ==> entry == TraceEntry(i.value, Stack()))
    {
      hide Alu, ToLe, ToU8, FromU8, FromLe;
      entry, size := [], 0;
      var op := FromU8(code[pc]);
      if op.None? {
        return false, size, entry;
      }
      if op.value == OpCode.Push {
        if pc + 1 + 8 > |code| {
          return false, size, entry;
        }
        var buf := code[pc + 1..pc + 9];
        assert buf == code[pc..][1..9];
        var val := FromLe(buf);
        ToFromLe(buf);
        OpCodeRoundTrip(OpCode.Push, code[pc]);
        entry, size := [code[pc]] + buf, 9;
        ok := Push(val);
      } else {
        OpCodeRoundTrip(op.value, code[pc]);
        var emitted;
        ok, emitted := StepSimple(op.value);
        entry, size := [code[pc]] + emitted, 1;
      }
    }

    /** The root depends on the code alone: not on the canary, beyond its two reserved values, nor on earlier
        runs; and the stack is wiped on every path. */
    method Execute(code: ByteString) returns (root: ByteString)
      requires Wiped()
      modifies this, slots
      ensures Wiped()
      ensures root == if canary == 0 || canary == 0xFFFF_FFFF_FFFF_FFFF then ZeroBytes(64) else RootOf(h, code)
    {
      hide Run, VM_TRACE, Digest, FromU8, Fetch;
      if code == [] || |code| > MAX_CODE {
        return ZeroBytes(64);
      }
      if FromU8(code[0]).None? {
        RunUnfold(code, START);
        FetchInvalid(code);
        return ZeroBytes(64);
      }
      if canary == 0 || canary == 0xFFFF_FFFF_FFFF_FFFF {
        return ZeroBytes(64);
      }
      WipeState();
      var trace := Interpret(code);
      if trace.None? {
        WipeState();
        return ZeroBytes(64);
      }
      var absorbed := trace.value + Le64(sp);
      root := HashParts(h, [absorbed], 64);
      ConcatOne(absorbed);
      WipeState();
    }
  }

  /** Shift the first n elements down by one and put the first at the end. */
  method RotateDown(a: array<u64>, n: nat)
    requires 2 <= n <= a.Length
    modifies a
    ensures forall k :: 0 <= k < n - 1 ==> a[k] == old(a[k + 1])
    ensures a[n - 1] == old(a[0])
    ensures forall k :: n <= k < a.Length ==> a[k] == old(a[k])
  {
    var bottom := a[0];
    for i := 0 to n - 1
      invariant forall k :: 0 <= k < i ==> a[k] == old(a[k + 1])
      invariant forall k :: i <= k < a.Length ==> a[k] == old(a[k])
    {
      a[i] := a[i + 1];
    }
    a[n - 1] := bottom;
  }

  lemma FetchInvalid(code: ByteString)
    requires code != [] && FromU8(code[0]).None?
    ensures Fetch(code).None?
  {}

  lemma RunUnfold(code: ByteString, m: Machine)
    ensures Run(code, m) ==
      if code == [] then Some(m)
      else if Fetch(code).None? then None
      else
        var i := Fetch(code).value;
        var s' := StackAfter(i, m.stack);
        if s'.None? then None
        else Run(code[InstrSize(i)..], Machine(s'.value, m.trace + TraceEntry(i, s'.value)))
  {
    hide Fetch, StackAfter, TraceEntry;
  }

  /** `push` and the one-byte instructions of the builder. */
  class BytecodeBuilder {
    var code: ByteString

    constructor ()
      ensures code == []
    {
      code := [];
    }

    /** Append a raw byte. */
    method Op(b: byte)
      modifies this
      ensures code == old(code) + [b]
    {
      code := code + [b];
    }

    method Emit(i: Instr)
      modifies this
      ensures code == old(code) + EncodeInstr(i)
    {
      match i {
        case Simple(op) =>
          Op(ToU8(op));
        case PushImm(v) =>
          Op(ToU8(OpCode.Push));
          code := code + ToLe(v);
      }
    }
  }

  /** Any sequence of builder calls without raw bytes builds code that decodes to the list of calls. */
  method BuildProgram(prog: seq<Instr>) returns (code: ByteString)
    requires AllWellFormed(prog)
    ensures code == Encode(prog) && Decode(code) == Some(prog)
  {
    hide EncodeInstr, Decode;
    var b := new BytecodeBuilder();
    for k := 0 to |prog|
      invariant fresh(b) && b.code + Encode(prog[k..]) == Encode(prog)
    {
      assert prog[k..][1..] == prog[k + 1..];
      ghost var before := b.code;
      b.Emit(prog[k]);
      assert b.code + Encode(prog[k + 1..]) == before + (EncodeInstr(prog[k]) + Encode(prog[k + 1..]));
    }
    code := b.code;
    EncodeDecode(prog, START);
  }
}
