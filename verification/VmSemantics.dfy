/** Pure semantics of the MicroVM (`src/execution/vm.rs`): instructions, the run of a
    bytecode string, and what the trace and the opcodes alone determine. */
module VmSemantics {
  import opened Bytes
  import opened Domain
  import opened Shake256
  import opened VmWords
  import opened VmArithmetic
  import opened Wrappers

  const MAX_CODE := 4096
  const STACK_DEPTH := 128

  // ----- arithmetic -----------------------------------------------------------------------------

  datatype OpCode =
    | Nop | Add | Xor | Mul | Div | Push | Pop | Dup | Swap | And | Or | Not | Shl | Shr | Rot | Eq | Lt

  predicate IsBinary(op: OpCode) {
    op.Add? || op.Xor? || op.Mul? || op.Div? || op.And? || op.Or? || op.Shl? || op.Shr? || op.Eq? || op.Lt?
  }

  /** What the arithmetic opcodes do to numbers. */
  function Number(op: OpCode, x: nat, y: nat): nat {
    match op
    case Add => x + y
    case Mul => x * y
    case Div => Divide(x, y)
    case Shl => x * Pow2(y % 64)
    case Shr => Divide(x, Pow2(y % 64))
    case Eq => if x == y then 1 else 0
    case Lt => if x < y then 1 else 0
    case _ => 0
  }

  /** What each binary opcode means: on the numbers, modulo 2^64, or bit by bit. */
  function Alu(op: OpCode, a: u64, b: u64): u64
    requires IsBinary(op)
  {
    match op
    case Xor => XorWord(a, b)
    case And => AndWord(a, b)
    case Or => OrWord(a, b)
    case _ => Word(Number(op, WordValue(a), WordValue(b)))
  }

  /** The machine's division. */
  function Quotient(a: u64, b: u64): u64
    requires b != 0
  {
    Word(Divide(WordValue(a), WordValue(b)))
  }

  /** 1 if x is nonzero, 0 otherwise, without a branch. */
  function NonzeroBit(x: u64): u64 {
    (x | (0 - x)) >> 63
  }

  /** b, or 1 if b is zero. */
  function SafeDivisor(b: u64, isNonzero: u64): u64 {
    b | (1 - isNonzero)
  }

  /** x if the bit is 1, 0 if the bit is 0. */
  function MaskWith(x: u64, bit: u64): u64 {
    x & (0 - bit)
  }

  /** Division without a branch; the divisor is never 0. */
  function DivBits(a: u64, b: u64): u64 {
    var isNonzero := NonzeroBit(b);
    SafeDivisorNonzero(b);
    MaskWith(Quotient(a, SafeDivisor(b, isNonzero)), isNonzero)
  }

  /** How the interpreter computes each binary opcode. */
  function AluBits(op: OpCode, a: u64, b: u64): u64
    requires IsBinary(op)
  {
    match op
    case Add => Plus(a, b)
    case Xor => XorWord(a, b)
    case Mul => Times(a, b)
    case Div => DivBits(a, b)
    case And => AndWord(a, b)
    case Or => OrWord(a, b)
    case Shl => ShiftLeft(a, WordValue(b & 63))
    case Shr => ShiftRight(a, WordValue(b & 63))
    case Eq => NonzeroBit(a ^ b) ^ 1
    case Lt => BorrowBit(a, b)
  }

  lemma NonzeroBitCorrect(x: u64)
    ensures NonzeroBit(x) == if x == 0 then 0 else 1
  {}

  lemma SafeDivisorNonzero(b: u64)
    ensures SafeDivisor(b, NonzeroBit(b)) == if b == 0 then 1 else b
  {
    hide NonzeroBit;
    NonzeroBitCorrect(b);
  }

  lemma MaskWithBit(x: u64)
    ensures MaskWith(x, 1) == x && MaskWith(x, 0) == 0
  {}

  lemma XorZero(a: u64, b: u64)
    ensures a ^ b == 0 <==> a == b
  {}

  lemma DivBitsCorrect(a: u64, b: u64)
    ensures DivBits(a, b) == if b == 0 then 0 else Quotient(a, b)
  {
    hide NonzeroBit, Quotient, SafeDivisor, MaskWith;
    NonzeroBitCorrect(b);
    SafeDivisorNonzero(b);
    MaskWithBit(Quotient(a, if b == 0 then 1 else b));
  }

  /** A word with the number n modulo 2^64 is Word(n). */
  lemma IsWord(x: u64, n: nat)
    requires WordValue(x) == n % TWO_64
    ensures x == Word(n)
  {
    hide WordValue, Word;
    WordRoundTrip(n);
    WordInjective(x, Word(n));
  }

  lemma ShiftNumbers(x: nat, y: nat)
    ensures Number(Shl, x, y) == x * Pow2(y % 64) && Number(Shr, x, y) == x / Pow2(y % 64)
  {
    hide Pow2;
  }

  lemma ShlCorrect(a: u64, b: u64)
    ensures ShiftLeft(a, WordValue(b & 63)) == Word(Number(Shl, WordValue(a), WordValue(b)))
  {
    hide WordValue, Word, ShiftLeft, Pow2, Number;
    MaskedAmount(b);
    ShiftLeftValue(a, WordValue(b & 63));
    ShiftNumbers(WordValue(a), WordValue(b));
    IsWord(ShiftLeft(a, WordValue(b & 63)), Number(Shl, WordValue(a), WordValue(b)));
  }

  lemma ShrCorrect(a: u64, b: u64)
    ensures ShiftRight(a, WordValue(b & 63)) == Word(Number(Shr, WordValue(a), WordValue(b)))
  {
    hide WordValue, Word, ShiftRight, Pow2, Number;
    MaskedAmount(b);
    ShiftRightValue(a, WordValue(b & 63));
    WordBound(ShiftRight(a, WordValue(b & 63)));
    ShiftNumbers(WordValue(a), WordValue(b));
    IsWord(ShiftRight(a, WordValue(b & 63)), Number(Shr, WordValue(a), WordValue(b)));
  }

  lemma SumCorrect(a: u64, b: u64)
    ensures Plus(a, b) == Word(Number(Add, WordValue(a), WordValue(b)))
  {
    hide WordValue, Word, Plus;
    SumValue(a, b);
    IsWord(Plus(a, b), Number(Add, WordValue(a), WordValue(b)));
  }

  lemma ProductCorrect(a: u64, b: u64)
    ensures Times(a, b) == Word(Number(Mul, WordValue(a), WordValue(b)))
  {
    hide WordValue, Word, Times;
    ProductValue(a, b);
    IsWord(Times(a, b), Number(Mul, WordValue(a), WordValue(b)));
  }

  lemma QuotientIs(a: u64, b: u64)
    ensures DivBits(a, b) == Word(Divide(WordValue(a), WordValue(b)))
  {
    hide WordValue, Word, DivBits, Divide;
    DivBitsCorrect(a, b);
    if b == 0 {
      WordZero();
      DivideByZero(WordValue(a));
      SmallWords();
    }
  }

  lemma DivideByZero(x: nat)
    ensures Divide(x, 0) == 0
  {}

  lemma SmallWords()
    ensures Word(0) == 0 && Word(1) == 1
  {
    hide WordValue, Word;
    WordZero();
    WordOne();
    IsWord(0, 0);
    IsWord(1, 1);
  }

  lemma ComparisonsCorrect(a: u64, b: u64)
    ensures NonzeroBit(a ^ b) ^ 1 == Word(Number(Eq, WordValue(a), WordValue(b)))
    ensures BorrowBit(a, b) == Word(Number(Lt, WordValue(a), WordValue(b)))
  {
    hide NonzeroBit, Value, BorrowOut, ToLe, Word;
    SmallWords();
    XorZero(a, b);
    NonzeroBitCorrect(a ^ b);
    WordInjective(a, b);
    BorrowIsLess(ToLe(a), ToLe(b), 0);
  }

  /** The machine's arithmetic, branch-free or shifting bit by bit, computes the meaning. */
  lemma AluBitsCorrect(op: OpCode, a: u64, b: u64)
    requires IsBinary(op)
    ensures AluBits(op, a, b) == Alu(op, a, b)
  {
    ComparisonsCorrect(a, b);
    hide NonzeroBit, DivBits, WordValue, BorrowBit, Word, XorWord, AndWord, OrWord, Plus, Times, ShiftLeft, ShiftRight;
    QuotientIs(a, b);
    SumCorrect(a, b);
    ProductCorrect(a, b);
    ShlCorrect(a, b);
    ShrCorrect(a, b);
  }

  // ----- instructions --------------------------------------------------------------------------

  function FromU8(b: byte): Option<OpCode> {
    if b == 0x00 then Some(Nop)
    else if b == 0x01 then Some(Add)
    else if b == 0x02 then Some(Xor)
    else if b == 0x03 then Some(Mul)
    else if b == 0x04 then Some(Div)
    else if b == 0x05 then Some(Push)
    else if b == 0x06 then Some(Pop)
    else if b == 0x07 then Some(Dup)
    else if b == 0x08 then Some(Swap)
    else if b == 0x09 then Some(And)
    else if b == 0x0A then Some(Or)
    else if b == 0x0B then Some(Not)
    else if b == 0x0C then Some(Shl)
    else if b == 0x0D then Some(Shr)
    else if b == 0x0E then Some(Rot)
    else if b == 0x0F then Some(Eq)
    else if b == 0x10 then Some(Lt)
    else None
  }

  /** `op as u8` */
  function ToU8(op: OpCode): byte {
    match op
    case Nop => 0x00
    case Add => 0x01
    case Xor => 0x02
    case Mul => 0x03
    case Div => 0x04
    case Push => 0x05
    case Pop => 0x06
    case Dup => 0x07
    case Swap => 0x08
    case And => 0x09
    case Or => 0x0A
    case Not => 0x0B
    case Shl => 0x0C
    case Shr => 0x0D
    case Rot => 0x0E
    case Eq => 0x0F
    case Lt => 0x10
  }

  lemma OpCodeRoundTrip(op: OpCode, b: byte)
    ensures FromU8(ToU8(op)) == Some(op)
    ensures FromU8(b) == Some(op) ==> ToU8(op) == b
  {}

  /** An opcode, and for Push its immediate. */
  datatype Instr = Simple(op: OpCode) | PushImm(val: u64)

  predicate WellFormed(i: Instr) {
    i.Simple? ==> i.op != Push
  }

  function EncodeInstr(i: Instr): (s: ByteString)
    ensures |s| == InstrSize(i)
  {
    match i
    case Simple(op) => [ToU8(op)]
    case PushImm(v) => [ToU8(Push)] + ToLe(v)
  }

  function InstrSize(i: Instr): nat {
    if i.PushImm? then 9 else 1
  }

  /** The instruction at the front of the code; None for an invalid opcode or a truncated immediate. */
  function Fetch(code: ByteString): (r: Option<Instr>)
    requires code != []
    ensures r.Some? ==> WellFormed(r.value) && InstrSize(r.value) <= |code|
  {
    match FromU8(code[0])
    case None => None
    case Some(op) =>
      if op != Push then Some(Simple(op))
      else if |code| < 9 then None
      else Some(PushImm(FromLe(code[1..9])))
  }

  lemma FetchEncode(i: Instr, rest: ByteString)
    requires WellFormed(i)
    ensures Fetch(EncodeInstr(i) + rest) == Some(i)
  {
    hide FromLe, ToLe, FromU8, ToU8;
    var code := EncodeInstr(i) + rest;
    match i
    case Simple(op) => OpCodeRoundTrip(op, 0);
    case PushImm(v) =>
      OpCodeRoundTrip(Push, 0);
      FromToLe(v);
      assert code[1..9] == ToLe(v);
  }

  lemma EncodeFetch(code: ByteString)
    requires code != [] && Fetch(code).Some?
    ensures var i := Fetch(code).value; code == EncodeInstr(i) + code[InstrSize(i)..]
  {
    hide FromLe, ToLe, FromU8, ToU8;
    OpCodeRoundTrip(FromU8(code[0]).value, code[0]);
    if FromU8(code[0]) == Some(Push) {
      ToFromLe(code[1..9]);
    }
  }

  // ----- execution -------------------------------------------------------------------------------

  /** The operand stack, top last, and the bytes absorbed into the trace. */
  datatype Machine = Machine(stack: seq<u64>, trace: ByteString)

  function Top(s: seq<u64>, k: nat): u64
    requires k < |s|
  {
    s[|s| - 1 - k]
  }

  function Drop(s: seq<u64>, k: nat): seq<u64>
    requires k <= |s|
  {
    s[..|s| - k]
  }

  /** The stack after one instruction, or None if it underflows or overflows. */
  function StackAfter(i: Instr, s: seq<u64>): (r: Option<seq<u64>>)
    ensures r.Some? && EmitsResult(i) ==> r.value != []
    ensures r.Some? && |s| <= STACK_DEPTH ==> |r.value| <= STACK_DEPTH
  {
    match i
    case PushImm(v) => if |s| < STACK_DEPTH then Some(s + [v]) else None
    case Simple(op) =>
      if op == Nop || op == Push then Some(s)
      else if op == Pop then if |s| < 1 then None else Some(Drop(s, 1))
      else if op == Dup then if |s| < 1 || |s| >= STACK_DEPTH then None else Some(s + [Top(s, 0)])
      else if op == Swap then if |s| < 2 then None else Some(Drop(s, 2) + [Top(s, 0), Top(s, 1)])
      else if op == Rot then if |s| < 2 then Some(s) else Some(s[1..] + [s[0]])
      else if op == Not then if |s| < 1 then None else Some(Drop(s, 1) + [!Top(s, 0)])
      else if |s| < 2 then None
      else Some(Drop(s, 2) + [Alu(op, Top(s, 1), Top(s, 0))])
  }

  predicate EmitsResult(i: Instr) {
    i.Simple? && (i.op == Not || IsBinary(i.op))
  }

  /** The bytes absorbed for one instruction: its encoding, then the result it computed, if any. */
  function TraceEntry(i: Instr, s': seq<u64>): ByteString
    requires EmitsResult(i) ==> s' != []
  {
    EncodeInstr(i) + if EmitsResult(i) then ToLe(Top(s', 0)) else []
  }

  function Exec(i: Instr, m: Machine): Option<Machine> {
    var s' := StackAfter(i, m.stack);
    if s'.None? then None else Some(Machine(s'.value, m.trace + TraceEntry(i, s'.value)))
  }

  /** The run of a bytecode string from a machine state; None is the fail-closed outcome. */
  function Run(code: ByteString, m: Machine): Option<Machine>
    decreases |code|
  {
    if code == [] then Some(m)
    else
      var i := Fetch(code);
      if i.None? then None
      else
        var m' := Exec(i.value, m);
        if m'.None? then None else Run(code[InstrSize(i.value)..], m'.value)
  }

  const START := Machine([], VM_TRACE)

  predicate Accepted(code: ByteString) {
    0 < |code| <= MAX_CODE && Run(code, START).Some?
  }

  /** The string hashed to the root of an accepted program: the trace, then the final depth. */
  function FullTrace(code: ByteString): ByteString
    requires Accepted(code)
  {
    var m := Run(code, START).value;
    m.trace + Le64(|m.stack|)
  }

  /** The 64-byte root, all zeros for a rejected program. */
  function RootOf(h: Xof, code: ByteString): (r: ByteString)
    ensures |r| == 64
  {
    if Accepted(code) then Digest(h, FullTrace(code), 64) else ZeroBytes(64)
  }

  // ----- composition ----------------------------------------------------------------------------------

  lemma FetchPrefix(p: ByteString, q: ByteString)
    requires p != [] && Fetch(p).Some?
    ensures Fetch(p + q) == Fetch(p)
  {
    hide FromLe, FromU8;
    if FromU8(p[0]) == Some(Push) {
      assert (p + q)[1..9] == p[1..9];
    }
  }

  /** Running an accepted p followed by q is running q from the state p leaves. */
  lemma {:induction false} RunConcat(p: ByteString, q: ByteString, m: Machine)
    requires Run(p, m).Some?
    ensures Run(p + q, m) == Run(q, Run(p, m).value)
    decreases |p|
  {
    hide Fetch, Exec;
    if p == [] {
      assert p + q == q;
    } else {
      FetchPrefix(p, q);
      var i := Fetch(p).value;
      assert (p + q)[InstrSize(i)..] == p[InstrSize(i)..] + q;
      RunConcat(p[InstrSize(i)..], q, Exec(i, m).value);
    }
  }

  // ----- the instruction list a builder writes -----------------------------------------------------------

  function Encode(prog: seq<Instr>): ByteString {
    if prog == [] then [] else EncodeInstr(prog[0]) + Encode(prog[1..])
  }

  function Decode(code: ByteString): Option<seq<Instr>>
    decreases |code|
  {
    if code == [] then Some([])
    else
      var i := Fetch(code);
      if i.None? then None
      else
        var rest := Decode(code[InstrSize(i.value)..]);
        if rest.None? then None else Some([i.value] + rest.value)
  }

  function ExecAll(prog: seq<Instr>, m: Machine): Option<Machine> {
    if prog == [] then Some(m)
    else
      var m' := Exec(prog[0], m);
      if m'.None? then None else ExecAll(prog[1..], m'.value)
  }

  ghost predicate AllWellFormed(prog: seq<Instr>) {
    forall k :: 0 <= k < |prog| ==> WellFormed(prog[k])
  }

  /** Encoded instructions decode to themselves, and running the bytes is executing the list. */
  lemma {:induction false} EncodeDecode(prog: seq<Instr>, m: Machine)
    requires AllWellFormed(prog)
    ensures Decode(Encode(prog)) == Some(prog)
    ensures Run(Encode(prog), m) == ExecAll(prog, m)
  {
    hide EncodeInstr, Fetch, Exec;
    if prog != [] {
      var code, rest := Encode(prog), Encode(prog[1..]);
      FetchEncode(prog[0], rest);
      assert code == EncodeInstr(prog[0]) + rest && code != [];
      assert code[InstrSize(prog[0])..] == rest;
      assert prog == [prog[0]] + prog[1..];
      var m' := Exec(prog[0], m);
      EncodeDecode(prog[1..], if m'.Some? then m'.value else m);
    }
  }

  /** Decoding loses nothing: a string that decodes is the encoding of what it decodes to. */
  lemma {:induction false} DecodeEncode(code: ByteString)
    requires Decode(code).Some?
    ensures AllWellFormed(Decode(code).value) && Encode(Decode(code).value) == code
    decreases |code|
  {
    hide EncodeInstr, Fetch;
    if code != [] {
      var i := Fetch(code).value;
      var rest := code[InstrSize(i)..];
      DecodeEncode(rest);
      EncodeFetch(code);
      assert Decode(code).value[1..] == Decode(rest).value;
    }
  }

  // ----- acceptance depends on the opcodes alone -----------------------------------------------------------

  /** The depth after one instruction, from the depth before it. */
  function DepthAfter(i: Instr, d: nat): Option<nat> {
    match i
    case PushImm(_) => if d < STACK_DEPTH then Some(d + 1) else None
    case Simple(op) =>
      if op == Nop || op == Push || op == Rot then Some(d)
      else if op == Pop then if d < 1 then None else Some(d - 1)
      else if op == Dup then if d < 1 || d >= STACK_DEPTH then None else Some(d + 1)
      else if op == Swap then if d < 2 then None else Some(d)
      else if op == Not then if d < 1 then None else Some(d)
      else if d < 2 then None
      else Some(d - 1)
  }

  /** The depths after every instruction, computed without any operand values. */
  function StaticDepths(code: ByteString, d: nat): Option<seq<nat>>
    decreases |code|
  {
    if code == [] then Some([])
    else
      var i := Fetch(code);
      if i.None? then None
      else
        var d' := DepthAfter(i.value, d);
        if d'.None? then None
        else
          var rest := StaticDepths(code[InstrSize(i.value)..], d'.value);
          if rest.None? then None else Some([d'.value] + rest.value)
  }

  /** The depths after every instruction of the actual run. */
  function RunDepths(code: ByteString, m: Machine): Option<seq<nat>>
    decreases |code|
  {
    if code == [] then Some([])
    else
      var i := Fetch(code);
      if i.None? then None
      else
        var m' := Exec(i.value, m);
        if m'.None? then None
        else
          var rest := RunDepths(code[InstrSize(i.value)..], m'.value);
          if rest.None? then None else Some([|m'.value.stack|] + rest.value)
  }

  /** The two programs differ at most in their immediates. */
  predicate SameSkeleton(p: ByteString, q: ByteString)
    decreases |p|
  {
    if p == [] || q == [] then p == q
    else if p[0] != q[0] then false
    else if FromU8(p[0]) == Some(Push) && |p| >= 9 && |q| >= 9 then SameSkeleton(p[9..], q[9..])
    else if FromU8(p[0]) == Some(Push) then |p| < 9 && |q| < 9
    else SameSkeleton(p[1..], q[1..])
  }

  lemma ExecDepth(i: Instr, m: Machine)
    ensures var d' := DepthAfter(i, |m.stack|);
      match Exec(i, m)
      case None => d' == None
      case Some(m') => d' == Some(|m'.stack|)
  {
    hide TraceEntry, StackAfter, DepthAfter;
    StackAfterDepth(i, m.stack);
  }

  lemma StackAfterDepth(i: Instr, s: seq<u64>)
    ensures var d' := DepthAfter(i, |s|);
      match StackAfter(i, s)
      case None => d' == None
      case Some(s') => d' == Some(|s'|)
  {
    hide Alu, Top;
  }

  /** The static analysis is exact: it predicts acceptance and every depth of the run. */
  lemma {:induction false} DepthsAreStatic(code: ByteString, m: Machine)
    ensures RunDepths(code, m) == StaticDepths(code, |m.stack|)
    ensures Run(code, m).Some? <==> StaticDepths(code, |m.stack|).Some?
    decreases |code|
  {
    hide Fetch, Exec, DepthAfter;
    if code != [] && Fetch(code).Some? {
      var i := Fetch(code).value;
      ExecDepth(i, m);
      if Exec(i, m).Some? {
        DepthsAreStatic(code[InstrSize(i)..], Exec(i, m).value);
      }
    }
  }

  lemma {:induction false} SkeletonDepths(p: ByteString, q: ByteString, d: nat)
    requires SameSkeleton(p, q)
    ensures StaticDepths(p, d) == StaticDepths(q, d)
    decreases |p|
  {
    hide FromU8, FromLe;
    if p != [] && q != [] && Fetch(p).Some? {
      var i, j := Fetch(p).value, Fetch(q).value;
      var d' := DepthAfter(i, d);
      assert d' == DepthAfter(j, d) && InstrSize(i) == InstrSize(j);
      if d'.Some? {
        SkeletonDepths(p[InstrSize(i)..], q[InstrSize(i)..], d'.value);
      }
    }
  }

  lemma {:induction false} SkeletonLengths(p: ByteString, q: ByteString, d: nat)
    requires SameSkeleton(p, q) && StaticDepths(p, d).Some?
    ensures |p| == |q|
    decreases |p|
  {
    hide FromU8, FromLe, DepthAfter;
    if p != [] && q != [] {
      var i := Fetch(p).value;
      SkeletonLengths(p[InstrSize(i)..], q[InstrSize(i)..], DepthAfter(i, d).value);
    }
  }

  /** Programs with the same opcodes are accepted together, size limit included, and keep equal depths throughout. */
  lemma AcceptanceBySkeleton(p: ByteString, q: ByteString, m: Machine, m': Machine)
    requires SameSkeleton(p, q) && |m.stack| == |m'.stack|
    ensures Run(p, m).Some? <==> Run(q, m').Some?
    ensures RunDepths(p, m) == RunDepths(q, m')
    ensures Accepted(p) <==> Accepted(q)
  {
    hide Run, RunDepths, StaticDepths, SameSkeleton;
    SkeletonDepths(p, q, |m.stack|);
    DepthsAreStatic(p, m);
    DepthsAreStatic(q, m');
    AcceptedBySkeleton(p, q);
  }

  lemma AcceptedBySkeleton(p: ByteString, q: ByteString)
    requires SameSkeleton(p, q)
    ensures Accepted(p) <==> Accepted(q)
  {
    hide Run, StaticDepths, SameSkeleton;
    SkeletonDepths(p, q, 0);
    DepthsAreStatic(p, START);
    DepthsAreStatic(q, START);
    if StaticDepths(p, 0).Some? {
      SkeletonLengths(p, q, 0);
    }
  }

  // ----- the trace determines the program -------------------------------------------------------------------

  /** What a run appends to the trace. */
  function Appended(code: ByteString, m: Machine): ByteString
    requires Run(code, m).Some?
    decreases |code|
  {
    if code == [] then []
    else
      var i := Fetch(code).value;
      var m' := Exec(i, m).value;
      TraceEntry(i, m'.stack) + Appended(code[InstrSize(i)..], m')
  }

  lemma {:induction false} RunAppends(code: ByteString, m: Machine)
    requires Run(code, m).Some?
    ensures Run(code, m).value.trace == m.trace + Appended(code, m)
    decreases |code|
  {
    hide Fetch, StackAfter, TraceEntry;
    if code != [] {
      var i := Fetch(code).value;
      RunAppends(code[InstrSize(i)..], Exec(i, m).value);
    }
  }

  /** A trace entry starts with the opcode byte, which fixes its length and carries the instruction. */
  lemma EntryShape(i: Instr, s': seq<u64>, tail: ByteString, j: Instr, t': seq<u64>, tail': ByteString)
    requires WellFormed(i) && WellFormed(j)
    requires (EmitsResult(i) ==> s' != []) && (EmitsResult(j) ==> t' != [])
    requires TraceEntry(i, s') + tail == TraceEntry(j, t') + tail'
    ensures i == j && tail == tail'
  {
    hide ToLe, ToU8, IsBinary;
    var e, f := TraceEntry(i, s'), TraceEntry(j, t');
    var x, y := if i.PushImm? then Push else i.op, if j.PushImm? then Push else j.op;
    assert (e + tail)[0] == ToU8(x) && (f + tail')[0] == ToU8(y);
    ToU8Injective(x, y);
    assert |e| == |f|;
    assert e == (e + tail)[..|e|] && f == (f + tail')[..|e|];
    assert tail == (e + tail)[|e|..] && tail' == (f + tail')[|e|..];
    if i.PushImm? {
      assert ToLe(i.val) == e[1..9] && ToLe(j.val) == f[1..9];
      ToLeInjective(i.val, j.val);
    }
  }

  lemma ToU8Injective(x: OpCode, y: OpCode)
    requires ToU8(x) == ToU8(y)
    ensures x == y
  {
    hide ToU8, FromU8;
    OpCodeRoundTrip(x, 0);
    OpCodeRoundTrip(y, 0);
  }

  lemma ToLeInjective(x: u64, y: u64)
    requires ToLe(x) == ToLe(y)
    ensures x == y
  {
    hide ToLe, FromLe;
    FromToLe(x);
    FromToLe(y);
  }

  /** Two accepted runs, from any states, that append the same bytes run the same program. */
  lemma {:induction false} AppendedInjective(p: ByteString, m: Machine, q: ByteString, n: Machine)
    requires Run(p, m).Some? && Run(q, n).Some?
    requires Appended(p, m) == Appended(q, n)
    ensures p == q
    decreases |p|
  {
    hide Fetch, StackAfter, TraceEntry;
    if p == [] || q == [] {
      EntryNonempty(p, m);
      EntryNonempty(q, n);
    } else {
      var i, j := Fetch(p).value, Fetch(q).value;
      var m', n' := Exec(i, m).value, Exec(j, n).value;
      var p', q' := p[InstrSize(i)..], q[InstrSize(j)..];
      EntryShape(i, m'.stack, Appended(p', m'), j, n'.stack, Appended(q', n'));
      AppendedInjective(p', m', q', n');
      EncodeFetch(p);
      EncodeFetch(q);
    }
  }

  lemma EntryNonempty(code: ByteString, m: Machine)
    requires Run(code, m).Some?
    ensures Appended(code, m) == [] <==> code == []
  {
    hide StackAfter, Fetch, EmitsResult;
  }

  /** The hashed string of an accepted program determines the program, byte for byte. */
  lemma TraceInjective(p: ByteString, q: ByteString)
    requires Accepted(p) && Accepted(q) && FullTrace(p) == FullTrace(q)
    ensures p == q
  {
    hide Run, Appended, Le64, VM_TRACE;
    RunAppends(p, START);
    RunAppends(q, START);
    var x, y := FullTrace(p), FullTrace(q);
    var a, b := Appended(p, START), Appended(q, START);
    var n := |VM_TRACE|;
    assert x[..|x| - 8] == VM_TRACE + a && y[..|y| - 8] == VM_TRACE + b;
    assert a == (VM_TRACE + a)[n..] && b == (VM_TRACE + b)[n..];
    AppendedInjective(p, START, q, START);
  }

  /** Different accepted programs with the same root are an explicit collision of the hash. */
  lemma RootBinding(h: Xof, p: ByteString, q: ByteString)
    ensures Accepted(p) && Accepted(q) && p != q && RootOf(h, p) == RootOf(h, q) ==>
      Collision(h, FullTrace(p), FullTrace(q), 64)
  {
    hide Digest, Accepted, FullTrace;
    if Accepted(p) && Accepted(q) && FullTrace(p) == FullTrace(q) {
      TraceInjective(p, q);
    }
  }
}
