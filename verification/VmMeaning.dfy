/** What the opcodes do, byte by byte: for every opcode number of `src/execution/vm.rs:9-30`, what running that
    byte does to the stack and to the hashed trace, on numbers and positions. */
module VmMeaning {
  import opened Bytes
  import opened Domain
  import opened Shake256
  import opened VmWords
  import opened VmArithmetic
  import opened VmSemantics
  import opened Wrappers

  /** The opcodes in the order of their numbers. */
  const TABLE :=
    [Nop, OpCode.Add, Xor, Mul, Div, OpCode.Push, OpCode.Pop, Dup, Swap, And, Or, Not, Shl, Shr, Rot, Eq, Lt]

  lemma OpCodeNumbers(b: byte)
    ensures FromU8(b) == if Digit(b) < 17 then Some(TABLE[Digit(b)]) else None
  {
    if b < 8 {
      LowNumbers(b);
    } else {
      HighNumbers(b);
    }
  }

  lemma LowNumbers(b: byte)
    requires b < 8
    ensures Digit(b) < 8 && FromU8(b) == Some(TABLE[Digit(b)])
  {}

  lemma HighNumbers(b: byte)
    requires b >= 8
    ensures FromU8(b) == if Digit(b) < 17 then Some(TABLE[Digit(b)]) else None
  {}

  // ----- the binary opcodes --------------------------------------------------------------------

  /** What the binary opcode with number c makes of the numbers x and y, modulo 2^64 or bit by bit. */
  ghost predicate Computes(c: byte, x: nat, y: nat, r: nat) {
    && r < TWO_64
    && (c == 0x01 ==> r == (x + y) % TWO_64)
    && (c == 0x02 ==> forall i :: NatBit(r, i) <==> NatBit(x, i) != NatBit(y, i))
    && (c == 0x03 ==> r == x * y % TWO_64)
    && (c == 0x04 ==> if y == 0 then r == 0 else y * r <= x < y * (r + 1))
    && (c == 0x09 ==> forall i :: NatBit(r, i) <==> NatBit(x, i) && NatBit(y, i))
    && (c == 0x0A ==> forall i :: NatBit(r, i) <==> NatBit(x, i) || NatBit(y, i))
    && (c == 0x0C ==> r == x * Pow2(y % 64) % TWO_64)
    && (c == 0x0D ==> Pow2(y % 64) * r <= x < Pow2(y % 64) * (r + 1))
    && (c == 0x0F ==> r == if x == y then 1 else 0)
    && (c == 0x10 ==> r == if x < y then 1 else 0)
  }

  /** The numbers of the binary opcodes. */
  const BINARY: set<byte> := {0x01, 0x02, 0x03, 0x04, 0x09, 0x0A, 0x0C, 0x0D, 0x0F, 0x10}

  lemma BinaryOpCode(c: byte)
    requires c in BINARY
    ensures FromU8(c).Some? && IsBinary(FromU8(c).value)
  {}

  lemma QuotientSmall(x: nat, y: nat)
    requires x < TWO_64
    ensures Divide(x, y) % TWO_64 == Divide(x, y)
  {
    var q := Divide(x, y);
    if y > 0 {
      hide Divide;
      FactorBound(y, q);
    }
  }

  lemma FactorBound(y: nat, q: nat)
    requires y > 0
    ensures q <= y * q
  {}

  lemma WordMeaning(c: byte, x: nat, y: nat)
    requires c in {0x01, 0x03, 0x04, 0x0C, 0x0D, 0x0F, 0x10} && x < TWO_64
    ensures FromU8(c).Some? && Computes(c, x, y, Number(FromU8(c).value, x, y) % TWO_64)
  {
    hide Divide, Pow2, NatBit;
    QuotientSmall(x, y);
    QuotientSmall(x, Pow2(y % 64));
    DivideMeaning(x, y);
    DivideMeaning(x, Pow2(y % 64));
  }

  lemma DivideMeaning(x: nat, y: nat)
    ensures var q := Divide(x, y); if y == 0 then q == 0 else y * q <= x < y * (q + 1)
  {}

  lemma BitMeaning(c: byte, a: u64, b: u64)
    requires c in {0x02, 0x09, 0x0A}
    ensures FromU8(c).Some? && IsBinary(FromU8(c).value)
    ensures Computes(c, WordValue(a), WordValue(b), WordValue(Alu(FromU8(c).value, a, b)))
  {
    hide WordValue, NatBit, XorWord, AndWord, OrWord;
    WordBound(Alu(FromU8(c).value, a, b));
    forall i: nat
      ensures NatBit(WordValue(XorWord(a, b)), i) <==> NatBit(WordValue(a), i) != NatBit(WordValue(b), i)
      ensures NatBit(WordValue(AndWord(a, b)), i) <==> NatBit(WordValue(a), i) && NatBit(WordValue(b), i)
      ensures NatBit(WordValue(OrWord(a, b)), i) <==> NatBit(WordValue(a), i) || NatBit(WordValue(b), i)
    {
      XorBits(a, b, i);
      AndBits(a, b, i);
      OrBits(a, b, i);
    }
  }

  /** Every binary opcode computes what its number says. */
  lemma BinaryMeaning(c: byte, a: u64, b: u64)
    requires c in BINARY
    ensures FromU8(c).Some? && IsBinary(FromU8(c).value)
    ensures Computes(c, WordValue(a), WordValue(b), WordValue(Alu(FromU8(c).value, a, b)))
  {
    BinaryOpCode(c);
    hide WordValue, NatBit, XorWord, AndWord, OrWord, Word, Number;
    if c in {0x02, 0x09, 0x0A} {
      BitMeaning(c, a, b);
    } else {
      var n := Number(FromU8(c).value, WordValue(a), WordValue(b));
      WordBound(a);
      WordMeaning(c, WordValue(a), WordValue(b));
      WordRoundTrip(n);
      NumberCase(c, a, b);
    }
  }

  lemma NumberCase(c: byte, a: u64, b: u64)
    requires c in {0x01, 0x03, 0x04, 0x0C, 0x0D, 0x0F, 0x10}
    ensures FromU8(c).Some? && IsBinary(FromU8(c).value)
    ensures Alu(FromU8(c).value, a, b) == Word(Number(FromU8(c).value, WordValue(a), WordValue(b)))
  {
    hide WordValue, Word, Number;
  }

  // ----- running one instruction -----------------------------------------------------------------------

  lemma RunOne(code: ByteString, i: Instr, m: Machine)
    requires code != [] && Fetch(code) == Some(i) && |code| == InstrSize(i)
    ensures Run(code, m) == Exec(i, m)
  {
    hide Fetch, Exec;
    assert code[InstrSize(i)..] == [];
  }

  lemma RunByte(c: byte, m: Machine)
    requires FromU8(c).Some? && FromU8(c).value != OpCode.Push
    ensures Run([c], m) == Exec(Simple(FromU8(c).value), m)
  {
    hide FromU8, Exec;
    RunOne([c], Simple(FromU8(c).value), m);
  }

  lemma RunByteStack(c: byte, s: seq<u64>, tr: ByteString, s': seq<u64>)
    requires FromU8(c).Some? && FromU8(c).value != OpCode.Push
    requires StackAfter(Simple(FromU8(c).value), s) == Some(s')
    ensures EmitsResult(Simple(FromU8(c).value)) ==> s' != []
    ensures Run([c], Machine(s, tr)) ==
      Some(Machine(s', tr + ([c] + if EmitsResult(Simple(FromU8(c).value)) then ToLe(s'[|s'| - 1]) else [])))
  {
    OpCodeRoundTrip(FromU8(c).value, c);
    hide FromU8, ToU8, ToLe, StackAfter;
    RunByte(c, Machine(s, tr));
  }

  lemma BinaryStack(op: OpCode, s: seq<u64>, a: u64, b: u64)
    requires IsBinary(op)
    ensures StackAfter(Simple(op), s + [a, b]) == Some(s + [Alu(op, a, b)])
  {
    hide Alu;
    DropTwo(s, a, b);
  }

  lemma DropTwo(s: seq<u64>, a: u64, b: u64)
    ensures Drop(s + [a, b], 2) == s && Top(s + [a, b], 0) == b && Top(s + [a, b], 1) == a
  {}

  lemma DropOne(s: seq<u64>, a: u64)
    ensures Drop(s + [a], 1) == s && Top(s + [a], 0) == a
  {}

  /** A binary opcode pops b and a and pushes the result, whose bytes follow the opcode in the trace. */
  lemma BinaryByte(c: byte, s: seq<u64>, a: u64, b: u64, tr: ByteString) returns (r: u64)
    requires c in BINARY
    ensures Computes(c, WordValue(a), WordValue(b), WordValue(r))
    ensures Run([c], Machine(s + [a, b], tr)) == Some(Machine(s + [r], tr + ([c] + Le64(WordValue(r)))))
  {
    BinaryMeaning(c, a, b);
    hide Computes, WordValue, Alu, FromU8, ToLe, StackAfter, Le64, Run, IsBinary;
    r := Alu(FromU8(c).value, a, b);
    BinaryRun(c, s, a, b, tr);
    ToLeIsLe64(r);
  }

  lemma BinaryRun(c: byte, s: seq<u64>, a: u64, b: u64, tr: ByteString)
    requires FromU8(c).Some? && IsBinary(FromU8(c).value)
    ensures var r := Alu(FromU8(c).value, a, b);
      Run([c], Machine(s + [a, b], tr)) == Some(Machine(s + [r], tr + ([c] + ToLe(r))))
  {
    hide Alu, FromU8, ToLe, StackAfter, Run;
    var op := FromU8(c).value;
    BinaryStack(op, s, a, b);
    var s' := s + [Alu(op, a, b)];
    RunByteStack(c, s + [a, b], tr, s');
    assert s'[|s'| - 1] == Alu(op, a, b);
  }

  /** Not pops a and pushes 2^64 - 1 - a. */
  lemma NotByte(s: seq<u64>, a: u64, tr: ByteString) returns (r: u64)
    ensures WordValue(r) == TWO_64 - 1 - WordValue(a)
    ensures Run([0x0B], Machine(s + [a], tr)) == Some(Machine(s + [r], tr + ([0x0B] + Le64(WordValue(r)))))
  {
    assert FromU8(0x0B) == Some(Not);
    r := NotWord(a);
    NotStack(s, a);
    hide FromU8, ToLe, StackAfter, Run, Le64, WordValue, NotWord;
    NotValue(a);
    var s' := s + [r];
    RunByteStack(0x0B, s + [a], tr, s');
    assert s'[|s'| - 1] == r;
    ToLeIsLe64(r);
  }

  lemma NotStack(s: seq<u64>, a: u64)
    ensures StackAfter(Simple(Not), s + [a]) == Some(s + [NotWord(a)])
  {
    DropOne(s, a);
  }

  // ----- the opcodes that move values -------------------------------------------------------------------------

  lemma NopByte(s: seq<u64>, tr: ByteString)
    ensures Run([0x00], Machine(s, tr)) == Some(Machine(s, tr + [0x00]))
  {
    assert FromU8(0x00) == Some(Nop);
    hide FromU8, Run;
    RunByteStack(0x00, s, tr, s);
    assert [0x00 as byte] + [] == [0x00];
  }

  lemma PopByte(s: seq<u64>, a: u64, tr: ByteString)
    ensures Run([0x06], Machine(s + [a], tr)) == Some(Machine(s, tr + [0x06]))
  {
    assert FromU8(0x06) == Some(OpCode.Pop);
    DropOne(s, a);
    hide FromU8, Run, Drop;
    RunByteStack(0x06, s + [a], tr, s);
    assert [0x06 as byte] + [] == [0x06];
  }

  lemma DupByte(s: seq<u64>, a: u64, tr: ByteString)
    ensures Run([0x07], Machine(s + [a], tr)) ==
      if |s| < 127 then Some(Machine(s + [a, a], tr + [0x07])) else None
  {
    assert FromU8(0x07) == Some(Dup);
    DropOne(s, a);
    hide FromU8, Top;
    RunByte(0x07, Machine(s + [a], tr));
    if |s| < 127 {
      assert s + [a] + [a] == s + [a, a];
      RunByteStack(0x07, s + [a], tr, s + [a, a]);
      assert [0x07 as byte] + [] == [0x07];
    }
  }

  lemma SwapByte(s: seq<u64>, a: u64, b: u64, tr: ByteString)
    ensures Run([0x08], Machine(s + [a, b], tr)) == Some(Machine(s + [b, a], tr + [0x08]))
  {
    assert FromU8(0x08) == Some(Swap);
    DropTwo(s, a, b);
    hide FromU8, Run, Drop, Top;
    RunByteStack(0x08, s + [a, b], tr, s + [b, a]);
    assert [0x08 as byte] + [] == [0x08];
  }

  /** The bottom element goes to the top. */
  lemma RotByte(s: seq<u64>, a: u64, tr: ByteString)
    ensures Run([0x0E], Machine([a] + s, tr)) == Some(Machine(s + [a], tr + [0x0E]))
    ensures Run([0x0E], Machine([], tr)) == Some(Machine([], tr + [0x0E]))
  {
    assert FromU8(0x0E) == Some(Rot);
    RotStack(s, a);
    hide FromU8, Run, StackAfter;
    RunByteStack(0x0E, [a] + s, tr, s + [a]);
    RunByteStack(0x0E, [], tr, []);
    assert [0x0E as byte] + [] == [0x0E];
  }

  lemma RotStack(s: seq<u64>, a: u64)
    ensures StackAfter(Simple(Rot), [a] + s) == Some(s + [a]) && StackAfter(Simple(Rot), []) == Some([])
  {
    hide Alu;
    if s == [] {
      assert [a] + s == s + [a];
    } else {
      assert ([a] + s)[1..] == s;
    }
  }

  /** Push takes its eight bytes, least significant first, and fails on a full stack. */
  lemma PushBytes(a: u64, s: seq<u64>, tr: ByteString)
    ensures var code := [0x05] + Le64(WordValue(a));
      Run(code, Machine(s, tr)) == if |s| < 128 then Some(Machine(s + [a], tr + code)) else None
  {
    ToLeIsLe64(a);
    assert ToU8(OpCode.Push) == 0x05;
    hide ToLe, WordValue, Le64, FromLe, FromU8, ToU8;
    var code := EncodeInstr(PushImm(a));
    assert code + [] == code;
    FetchEncode(PushImm(a), []);
    RunOne(code, PushImm(a), Machine(s, tr));
    assert code + [] == code;
  }

  lemma ShortStack(op: OpCode, s: seq<u64>)
    ensures op in {OpCode.Pop, Dup, Not} && |s| < 1 ==> StackAfter(Simple(op), s) == None
    ensures (IsBinary(op) || op == Swap) && |s| < 2 ==> StackAfter(Simple(op), s) == None
  {
    hide Alu;
  }

  lemma RunByteFails(c: byte, s: seq<u64>, tr: ByteString)
    requires FromU8(c).Some? && FromU8(c).value != OpCode.Push
    requires StackAfter(Simple(FromU8(c).value), s) == None
    ensures Run([c], Machine(s, tr)) == None
  {
    hide FromU8, StackAfter;
    RunByte(c, Machine(s, tr));
  }

  /** The opcodes that need an operand fail on the empty stack. */
  lemma UnaryUnderflow(c: byte, tr: ByteString)
    requires c in {0x06, 0x07, 0x0B}
    ensures Run([c], Machine([], tr)) == None
  {
    assert FromU8(c).Some? && FromU8(c).value in {OpCode.Pop, Dup, Not};
    hide FromU8, StackAfter, Run;
    ShortStack(FromU8(c).value, []);
    RunByteFails(c, [], tr);
  }

  /** The opcodes that need two operands fail with fewer. */
  lemma BinaryUnderflow(c: byte, s: seq<u64>, tr: ByteString)
    requires (c in BINARY || c == 0x08) && |s| < 2
    ensures Run([c], Machine(s, tr)) == None
  {
    if c != 0x08 {
      BinaryOpCode(c);
    }
    assert FromU8(c).Some? && (IsBinary(FromU8(c).value) || FromU8(c).value == Swap);
    hide FromU8, StackAfter, Run;
    ShortStack(FromU8(c).value, s);
    RunByteFails(c, s, tr);
  }

  /** An unknown opcode fails, whatever follows, and so does a Push with fewer than eight bytes after it. */
  lemma BadCode(code: ByteString, m: Machine)
    requires code != [] && (code[0] > 0x10 || (code[0] == 0x05 && |code| < 9))
    ensures Run(code, m) == None
  {
    hide Exec, FromLe;
  }

  // ----- whole programs ------------------------------------------------------------------------------------------

  /** Push a, push b, opcode c. */
  function BinaryCode(c: byte, a: u64, b: u64): ByteString {
    [0x05] + Le64(WordValue(a)) + ([0x05] + Le64(WordValue(b))) + [c]
  }

  /** Two pushes and a binary opcode, given as bytes: the program is accepted, its stack ends with the result alone,
      and its root is the hash of the tag, the code, the result and the final depth 1. */
  lemma BinaryProgram(h: Xof, c: byte, a: u64, b: u64) returns (r: u64)
    requires c in BINARY
    ensures Computes(c, WordValue(a), WordValue(b), WordValue(r))
    ensures var code := BinaryCode(c, a, b);
      && Run(code, START) == Some(Machine([r], VM_TRACE + code + Le64(WordValue(r))))
      && Accepted(code)
      && RootOf(h, code) == Digest(h, VM_TRACE + code + Le64(WordValue(r)) + ([1] + ZeroBytes(7)), 64)
  {
    hide Computes, Run, VM_TRACE, Le64, WordValue, Digest;
    r := BinaryByte(c, [], a, b, VM_TRACE + ([0x05] + Le64(WordValue(a))) + ([0x05] + Le64(WordValue(b))));
    ProgramRun(c, a, b, r);
    DepthOne();
  }

  lemma DepthOne()
    ensures Le64(1) == [1] + ZeroBytes(7)
  {
    ToByteOne();
    hide LittleEndian, ToByte;
    LittleEndianUnfold(1, 8);
    ZeroDigits(7);
  }

  lemma ToByteOne()
    ensures ToByte(1) == 1
  {
    assert ToByte(0) == 0;
  }

  lemma {:induction false} ZeroDigits(k: nat)
    ensures LittleEndian(0, k) == ZeroBytes(k)
  {
    if k > 0 {
      ZeroDigits(k - 1);
      assert ToByte(0) == 0;
    }
  }

  lemma ProgramRun(c: byte, a: u64, b: u64, r: u64)
    requires var p, q := [0x05] + Le64(WordValue(a)), [0x05] + Le64(WordValue(b));
      Run([c], Machine([] + [a, b], VM_TRACE + p + q)) ==
      Some(Machine([] + [r], VM_TRACE + p + q + ([c] + Le64(WordValue(r)))))
    ensures var code := BinaryCode(c, a, b);
      Run(code, START) == Some(Machine([r], VM_TRACE + code + Le64(WordValue(r))))
  {
    hide Run, VM_TRACE, Le64, WordValue;
    var p, q := [0x05] + Le64(WordValue(a)), [0x05] + Le64(WordValue(b));
    PushBytes(a, [], VM_TRACE);
    PushBytes(b, [a], VM_TRACE + p);
    assert [] + [a] == [a] && [a] + [b] == [] + [a, b] && [] + [r] == [r];
    RunConcat(p, q, START);
    RunConcat(p + q, [c], START);
    var t := Le64(WordValue(r));
    assert VM_TRACE + p + q + ([c] + t) == VM_TRACE + (p + q + [c]) + t;
  }

  /** At most 4096 bytes of code: strings of Nop are accepted exactly up to that length. */
  lemma NopsAccepted(n: nat)
    ensures Accepted(ZeroBytes(n)) <==> 1 <= n <= 4096
  {
    hide Run;
    NopsRun(n, START);
  }

  lemma {:induction false} NopsRun(n: nat, m: Machine)
    ensures Run(ZeroBytes(n), m).Some?
  {
    if n > 0 {
      hide Run;
      NopByte(m.stack, m.trace);
      RunConcat([0x00], ZeroBytes(n - 1), m);
      NopsRun(n - 1, Machine(m.stack, m.trace + [0x00]));
      assert [0x00 as byte] + ZeroBytes(n - 1) == ZeroBytes(n);
    }
  }
}
