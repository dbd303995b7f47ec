/** The oblivious RAM (`src/storage/oram.rs`): masked full scans that act as a 256-slot memory of hashed values.
    The scans are programs of a small load/store language.  A program never sees the memory: a byte reaches its
    registers only through a load, and the interpreter records every load and store it performs. */
module Oram {
  import opened Bytes
  import opened Domain
  import opened Shake256

  const SLOTS := 256
  const LINE := 64

  /** A 64-byte slot value. */
  type Value = v: ByteString | |v| == LINE witness ZeroBytes(64)

  const GENESIS: Value := ZeroBytes(64)

  /** The slots of one area: the contents, or the padding. */
  type Bank = seq<Value>

  function OramHash(h: Xof, v: Value): Value {
    Digest(h, ORAM_HASH + v, LINE)
  }

  /** `oram_hash`: the tag, then the value, through the hasher. */
  method HashValue(h: Xof, v: Value) returns (d: Value)
    ensures d == OramHash(h, v)
  {
    hide ORAM_HASH, Digest;
    d := HashParts(h, [ORAM_HASH, v], LINE);
    ConcatTwo(ORAM_HASH, v);
  }

  // ----- the plain memory -------------------------------------------------------------------

  /** `addr & 0xFF` */
  function IndexOf(addr: nat): nat {
    BitAnd(addr, 0xFF)
  }

  lemma IndexIsModulo(addr: nat)
    ensures IndexOf(addr) == addr % 256
  {
    LowBits(addr, 8);
    assert Pow2(4) == 16;
    assert Pow2(8) == 256;
  }

  datatype Op =
    | Read(addr: nat)
    | Write(addr: nat, value: Value)
    | Modify(addr: nat, f: Value -> Value)
    | Swap(addrA: nat, addrB: nat)

  /** A plain memory of hashed values, addressed modulo 256. */
  function MemoryAfter(h: Xof, m: Bank, op: Op): (m': Bank)
    requires |m| == SLOTS
    ensures |m'| == SLOTS
  {
    match op
    case Read(_) => m
    case Write(addr, v) => m[addr % SLOTS := OramHash(h, v)]
    case Modify(addr, f) => m[addr % SLOTS := OramHash(h, f(m[addr % SLOTS]))]
    case Swap(a, b) => Exchange(m, a % SLOTS, b % SLOTS)
  }

  function Exchange(m: Bank, i: nat, j: nat): (m': Bank)
    requires i < |m| && j < |m|
    ensures |m'| == |m|
  {
    m[i := m[j]][j := m[i]]
  }

  /** What the operation returns; operations without a result return GENESIS. */
  function ResultOf(m: Bank, op: Op): Value
    requires |m| == SLOTS
  {
    match op
    case Read(addr) => m[addr % SLOTS]
    case Modify(addr, f) => f(m[addr % SLOTS])
    case Write(_, _) => GENESIS
    case Swap(_, _) => GENESIS
  }

  /** Swapping twice restores the memory, and a swap of equal slots changes nothing. */
  lemma SwapInvolution(h: Xof, m: Bank, a: nat, b: nat)
    requires |m| == SLOTS
    ensures MemoryAfter(h, MemoryAfter(h, m, Swap(a, b)), Swap(a, b)) == m
    ensures a % SLOTS == b % SLOTS ==> MemoryAfter(h, m, Swap(a, b)) == m
  {
    var i, j := a % SLOTS, b % SLOTS;
    assert Exchange(Exchange(m, i, j), i, j) == m;
    assert Exchange(m, i, i) == m;
  }

  // ----- the load/store language --------------------------------------------------------------

  datatype Area = Content | Padding
  datatype Access = Access(isWrite: bool, area: Area, slot: nat, pos: nat)

  /** The local variables of the scans: loop counters, indices, accumulators and the byte last loaded. */
  datatype Regs = Regs(i: nat, j: nat, a: nat, b: nat, valA: Value, valB: Value, hashed: Value, old0: byte, res: Value)

  const CLEAR := Regs(0, 0, 0, 0, GENESIS, GENESIS, GENESIS, 0, GENESIS)

  datatype Cmd =
    | Load(area: Area, addr: Regs -> (nat, nat), upd: (Regs, byte) -> Regs)
    | Store(dest: Regs -> (nat, nat), val: Regs -> byte)
    | Compute(step: Regs -> Regs)
    | Then(first: Cmd, second: Cmd)
    | Repeat(n: nat, body: Cmd)

  /** Registers, the two areas, and the log of accesses so far. */
  datatype Machine = Machine(regs: Regs, content: Bank, pad: Bank, log: seq<Access>)

  function At(m: Bank, i: nat, j: nat): byte {
    if i < |m| && j < LINE then m[i][j] else 0
  }

  function Put(m: Bank, i: nat, j: nat, b: byte): (m': Bank)
    ensures |m'| == |m|
  {
    if i < |m| && j < LINE then m[i := m[i][j := b]] else m
  }

  lemma AtPut(m: Bank, i: nat, j: nat, b: byte, p: nat, q: nat)
    requires i < |m| && j < LINE
    ensures At(Put(m, i, j, b), p, q) == if p == i && q == j then b else At(m, p, q)
  {}

  /** Runs a command.  Only this function touches the areas, and it logs what it touches. */
  function Exec(c: Cmd, s: Machine): Machine
    decreases c, 0
  {
    match c
    case Load(area, addr, upd) =>
      var p := addr(s.regs);
      var x := At(if area == Content then s.content else s.pad, p.0, p.1);
      s.(regs := upd(s.regs, x), log := s.log + [Access(false, area, p.0, p.1)])
    case Store(dest, val) =>
      var p := dest(s.regs);
      s.(content := Put(s.content, p.0, p.1, val(s.regs)), log := s.log + [Access(true, Content, p.0, p.1)])
    case Compute(step) => s.(regs := step(s.regs))
    case Then(x, y) => Exec(y, Exec(x, s))
    case Repeat(n, body) => ExecTimes(body, n, s)
  }

  function ExecTimes(body: Cmd, n: nat, s: Machine): Machine
    decreases body, n + 1
  {
    if n == 0 then s else Exec(body, ExecTimes(body, n - 1, s))
  }

  // ----- the scans of the source ------------------------------------------------------------------

  /** 0xFF if hit, 0x00 otherwise. */
  function MaskOf(hit: bool): byte {
    0 - (if hit then 1 else 0)
  }

  function Choose(old0: byte, new0: byte, mask: byte): byte {
    (old0 & !mask) | (new0 & mask)
  }

  lemma ChooseByMask(x: byte, y: byte, hit: bool)
    ensures Choose(x, y, MaskOf(hit)) == if hit then y else x
  {}

  function GetByte(v: Value, j: nat): byte {
    if j < LINE then v[j] else 0
  }

  function SetByte(v: Value, j: nat, b: byte): Value {
    if j < LINE then v[j := b] else v
  }

  lemma GetSet(v: Value, j: nat, b: byte, q: nat)
    requires j < LINE && q < LINE
    ensures GetByte(SetByte(v, j, b), q) == if q == j then b else GetByte(v, q)
  {}

  function Here(r: Regs): (nat, nat) {
    (r.i, r.j)
  }

  /** `black_box(pad[j])`: the byte is read and dropped. */
  function Ignore(r: Regs, x: byte): Regs {
    r
  }

  function Keep(r: Regs, x: byte): Regs {
    r.(old0 := x)
  }

  /** Masked update of the first accumulator. */
  function TakeA(r: Regs, x: byte): Regs {
    r.(valA := SetByte(r.valA, r.j, Choose(GetByte(r.valA, r.j), x, MaskOf(r.i == r.a))))
  }

  /** Masked update of both accumulators from one loaded byte. */
  function TakeBoth(r: Regs, x: byte): Regs {
    var r := TakeA(r, x);
    r.(valB := SetByte(r.valB, r.j, Choose(GetByte(r.valB, r.j), x, MaskOf(r.i == r.b))))
  }

  /** The byte a write stores: the hashed byte in the addressed slot, the old byte elsewhere. */
  function WrittenByte(r: Regs): byte {
    Choose(r.old0, GetByte(r.hashed, r.j), MaskOf(r.i == r.a))
  }

  /** The byte a swap stores: slot a gets b's byte, then slot b gets a's. */
  function SwappedByte(r: Regs): byte {
    var newA := Choose(r.old0, GetByte(r.valB, r.j), MaskOf(r.i == r.a));
    Choose(newA, GetByte(r.valA, r.j), MaskOf(r.i == r.b))
  }

  function NextByte(r: Regs): Regs {
    r.(j := r.j + 1)
  }

  function NextSlot(r: Regs): Regs {
    r.(i := r.i + 1)
  }

  /** Loop body of a reading scan, with one accumulator or two. */
  function ReadBody(both: bool): Cmd {
    Then(Load(Padding, Here, Ignore), Load(Content, Here, if both then TakeBoth else TakeA))
  }

  /** Loop body of a writing scan, of a write or of a swap. */
  function WriteBody(swap: bool): Cmd {
    Then(Load(Content, Here, Keep), Then(Store(Here, if swap then SwappedByte else WrittenByte),
                                         Load(Padding, Here, Ignore)))
  }

  function Inner(body: Cmd): Cmd {
    Then(body, Compute(NextByte))
  }

  function Outer(body: Cmd): Cmd {
    Then(Compute((r: Regs) => r.(j := 0)), Then(Repeat(LINE, Inner(body)), Compute(NextSlot)))
  }

  /** `for i in 0..256 { for j in 0..64 { body } }` */
  function Scan(body: Cmd): Cmd {
    Then(Compute((r: Regs) => r.(i := 0)), Repeat(SLOTS, Outer(body)))
  }

  /** The local variables an operation sets up before its scans. */
  function ForRead(r: Regs, addr: nat): Regs {
    r.(a := IndexOf(addr), valA := GENESIS)
  }

  function ForWrite(r: Regs, addr: nat, hashed: Value): Regs {
    r.(a := IndexOf(addr), hashed := hashed)
  }

  function ForStore(r: Regs, modified: Value, hashed: Value): Regs {
    r.(res := modified, hashed := hashed)
  }

  function ForSwap(r: Regs, addrA: nat, addrB: nat): Regs {
    r.(a := IndexOf(addrA), b := IndexOf(addrB), valA := GENESIS, valB := GENESIS)
  }

  /** The operation as the source performs it. */
  function Program(h: Xof, op: Op): Cmd {
    match op
    case Read(addr) => Then(Compute((r: Regs) => ForRead(r, addr)), Scan(ReadBody(false)))
    case Write(addr, v) => Then(Compute((r: Regs) => ForWrite(r, addr, OramHash(h, v))), Scan(WriteBody(false)))
    case Modify(addr, f) =>
      Then(Compute((r: Regs) => ForRead(r, addr)),
      Then(Scan(ReadBody(false)),
      Then(Compute((r: Regs) => ForStore(r, f(r.valA), OramHash(h, f(r.valA)))),
           Scan(WriteBody(false)))))
    case Swap(a, b) =>
      Then(Compute((r: Regs) => ForSwap(r, a, b)), Then(Scan(ReadBody(true)), Scan(WriteBody(true))))
  }

  function OutputOf(op: Op, r: Regs): Value {
    match op
    case Read(_) => r.valA
    case Modify(_, _) => r.res
    case Write(_, _) => GENESIS
    case Swap(_, _) => GENESIS
  }

  // ----- the log of a scan --------------------------------------------------------------------------

  datatype Kind = KRead | KWrite | KModify | KSwap

  function KindOf(op: Op): Kind {
    match op
    case Read(_) => KRead
    case Write(_, _) => KWrite
    case Modify(_, _) => KModify
    case Swap(_, _) => KSwap
  }

  function ReadStep(i: nat, j: nat): seq<Access> {
    [Access(false, Padding, i, j), Access(false, Content, i, j)]
  }

  function WriteStep(i: nat, j: nat): seq<Access> {
    [Access(false, Content, i, j), Access(true, Content, i, j), Access(false, Padding, i, j)]
  }

  /** The accesses of a scan over n positions of slot i. */
  function LineLog(step: (nat, nat) -> seq<Access>, i: nat, n: nat): seq<Access> {
    if n == 0 then [] else LineLog(step, i, n - 1) + step(i, n - 1)
  }

  /** The accesses of a scan over the first n slots. */
  function ScanLog(step: (nat, nat) -> seq<Access>, n: nat): seq<Access> {
    if n == 0 then [] else ScanLog(step, n - 1) + LineLog(step, n - 1, LINE)
  }

  /** The accesses of an operation: a function of its kind, not of its addresses or values. */
  function KindLog(k: Kind): seq<Access> {
    var readScan, writeScan := ScanLog(ReadStep, SLOTS), ScanLog(WriteStep, SLOTS);
    match k
    case KRead => readScan
    case KWrite => writeScan
    case KModify => readScan + writeScan
    case KSwap => readScan + writeScan
  }

  /** In every machine state the command makes exactly the accesses of `step` at the current counters. */
  ghost predicate Traces(body: Cmd, step: (nat, nat) -> seq<Access>) {
    forall s: Machine :: TracesAt(body, step, s)
  }

  ghost predicate TracesAt(body: Cmd, step: (nat, nat) -> seq<Access>, s: Machine) {
    var t := Exec(body, s);
    t.log == s.log + step(s.regs.i, s.regs.j) && t.regs.i == s.regs.i && t.regs.j == s.regs.j
  }

  lemma ReadBodyTraces(both: bool)
    ensures Traces(ReadBody(both), ReadStep)
  {
    forall s: Machine
      ensures TracesAt(ReadBody(both), ReadStep, s)
    {
      ReadBodyEffect(both, s);
    }
  }

  lemma WriteBodyTraces(swap: bool)
    ensures Traces(WriteBody(swap), WriteStep)
  {
    forall s: Machine
      ensures TracesAt(WriteBody(swap), WriteStep, s)
    {
      WriteBodyEffect(swap, s);
    }
  }

  lemma Append(a: seq<Access>, b: seq<Access>, c: seq<Access>)
    ensures a + b + c == a + (b + c)
  {}

  lemma {:induction false} LineTraces(body: Cmd, step: (nat, nat) -> seq<Access>, n: nat, s: Machine)
    requires Traces(body, step) && s.regs.j == 0
    ensures var t := ExecTimes(Inner(body), n, s);
      t.log == s.log + LineLog(step, s.regs.i, n) && t.regs.i == s.regs.i && t.regs.j == n
  {
    if n > 0 {
      LineTraces(body, step, n - 1, s);
      var t := ExecTimes(Inner(body), n - 1, s);
      assert TracesAt(body, step, t);
      InnerUnfold(body, t);
      hide Exec;
      Append(s.log, LineLog(step, s.regs.i, n - 1), step(s.regs.i, n - 1));
    }
  }

  lemma InnerUnfold(body: Cmd, s: Machine)
    ensures Exec(Inner(body), s) == var t := Exec(body, s); t.(regs := NextByte(t.regs))
  {
    var t := Exec(body, s);
    var next := Compute(NextByte);
    assert Exec(next, t) == t.(regs := NextByte(t.regs));
    assert Exec(Then(body, next), s) == Exec(next, t);
  }

  lemma OuterUnfold(body: Cmd, s: Machine)
    ensures Exec(Outer(body), s) ==
      var t := ExecTimes(Inner(body), LINE, s.(regs := s.regs.(j := 0))); t.(regs := NextSlot(t.regs))
  {
    hide ExecTimes;
    var c := Outer(body);
    var s0 := s.(regs := s.regs.(j := 0));
    assert Exec(c.first, s) == s0;
    var t := ExecTimes(Inner(body), LINE, s0);
    assert Exec(c.second.first, s0) == t;
    assert Exec(c.second.second, t) == t.(regs := NextSlot(t.regs));
    assert Exec(c, s) == Exec(c.second, s0) == Exec(c.second.second, t);
  }

  lemma ScanUnfold(body: Cmd, s: Machine)
    ensures Exec(Scan(body), s) == ExecTimes(Outer(body), SLOTS, s.(regs := s.regs.(i := 0)))
  {
    hide ExecTimes;
    var c := Scan(body);
    var s0 := s.(regs := s.regs.(i := 0));
    assert Exec(c.first, s) == s0;
    assert Exec(c.second, s0) == ExecTimes(Outer(body), SLOTS, s0);
  }

  lemma {:induction false} SlotsTrace(body: Cmd, step: (nat, nat) -> seq<Access>, n: nat, s: Machine)
    requires Traces(body, step) && s.regs.i == 0
    ensures var t := ExecTimes(Outer(body), n, s);
      t.log == s.log + ScanLog(step, n) && t.regs.i == n
  {
    hide Exec, LineLog, Outer, Inner, Traces;
    if n > 0 {
      SlotsTrace(body, step, n - 1, s);
      var t := ExecTimes(Outer(body), n - 1, s);
      OuterUnfold(body, t);
      LineTraces(body, step, LINE, t.(regs := t.regs.(j := 0)));
      Append(s.log, ScanLog(step, n - 1), LineLog(step, n - 1, LINE));
    }
  }

  /** A scan makes the same accesses in the same order from every state, whatever the registers and areas hold. */
  lemma ScanTraces(body: Cmd, step: (nat, nat) -> seq<Access>, s: Machine)
    requires Traces(body, step)
    ensures Exec(Scan(body), s).log == s.log + ScanLog(step, SLOTS)
  {
    hide Exec, ExecTimes, ScanLog, Scan, Outer, Traces;
    ScanUnfold(body, s);
    SlotsTrace(body, step, SLOTS, s.(regs := s.regs.(i := 0)));
  }

  // ----- what one iteration does -------------------------------------------------------------------

  lemma ReadBodyEffect(both: bool, s: Machine)
    ensures Exec(ReadBody(both), s) ==
      var x := At(s.content, s.regs.i, s.regs.j);
      s.(regs := if both then TakeBoth(s.regs, x) else TakeA(s.regs, x), log := s.log + ReadStep(s.regs.i, s.regs.j))
  {
    hide At, TakeA, TakeBoth;
    var c := ReadBody(both);
    var s1 := Exec(c.first, s);
    assert s1 == s.(log := s.log + [Access(false, Padding, s.regs.i, s.regs.j)]);
    assert Exec(c, s) == Exec(c.second, s1);
    assert s1.log + [Access(false, Content, s.regs.i, s.regs.j)] == s.log + ReadStep(s.regs.i, s.regs.j);
  }

  /** The byte stored by one iteration of a writing scan that loaded x. */
  function StoredByte(swap: bool, r: Regs, x: byte): byte {
    if swap then SwappedByte(r.(old0 := x)) else WrittenByte(r.(old0 := x))
  }

  lemma WriteBodyEffect(swap: bool, s: Machine)
    ensures Exec(WriteBody(swap), s) ==
      var x := At(s.content, s.regs.i, s.regs.j);
      s.(regs := s.regs.(old0 := x), content := Put(s.content, s.regs.i, s.regs.j, StoredByte(swap, s.regs, x)),
         log := s.log + WriteStep(s.regs.i, s.regs.j))
  {
    hide At, Put, SwappedByte, WrittenByte;
    var c := WriteBody(swap);
    var i, j := s.regs.i, s.regs.j;
    var x := At(s.content, i, j);
    var s1 := Exec(c.first, s);
    assert s1 == s.(regs := s.regs.(old0 := x), log := s.log + [Access(false, Content, i, j)]);
    var s2 := Exec(c.second.first, s1);
    assert s2 == s1.(content := Put(s.content, i, j, StoredByte(swap, s.regs, x)),
                     log := s1.log + [Access(true, Content, i, j)]);
    var s3 := Exec(c.second.second, s2);
    assert s3 == s2.(log := s2.log + [Access(false, Padding, i, j)]);
    assert Exec(c, s) == Exec(c.second, s1) == s3;
    assert s3.log == s.log + WriteStep(i, j);
  }

  // ----- what a reading scan computes, byte by byte -----------------------------------------------------

  lemma TakeEffect(both: bool, r: Regs, x: byte, q: nat)
    requires r.j < LINE && q < LINE
    ensures var t := if both then TakeBoth(r, x) else TakeA(r, x);
      && t == r.(valA := t.valA, valB := t.valB)
      && GetByte(t.valA, q) == (if q == r.j && r.i == r.a then x else GetByte(r.valA, q))
      && (both ==> GetByte(t.valB, q) == if q == r.j && r.i == r.b then x else GetByte(r.valB, q))
  {
    hide Choose, MaskOf, GetByte, SetByte;
    ChooseByMask(GetByte(r.valA, r.j), x, r.i == r.a);
    ChooseByMask(GetByte(r.valB, r.j), x, r.i == r.b);
    GetSet(r.valA, r.j, if r.i == r.a then x else GetByte(r.valA, r.j), q);
    GetSet(r.valB, r.j, if r.i == r.b then x else GetByte(r.valB, r.j), q);
  }

  /** Byte q of an accumulator after a scan has passed n bytes of slot i. */
  function Picked(m: Bank, i: nat, n: nat, target: nat, q: nat, before: byte): byte {
    if i == target && q < n then At(m, i, q) else before
  }

  lemma {:induction false} ReadLine(both: bool, n: nat, s: Machine, q: nat)
    requires s.regs.j == 0 && n <= LINE && q < LINE
    ensures var t := ExecTimes(Inner(ReadBody(both)), n, s);
      && t.content == s.content && t.pad == s.pad
      && t.regs == s.regs.(j := n, valA := t.regs.valA, valB := t.regs.valB)
      && GetByte(t.regs.valA, q) == Picked(s.content, s.regs.i, n, s.regs.a, q, GetByte(s.regs.valA, q))
      && (both ==> GetByte(t.regs.valB, q) == Picked(s.content, s.regs.i, n, s.regs.b, q, GetByte(s.regs.valB, q)))
  {
    hide Exec, At, TakeA, TakeBoth, GetByte, Inner, ReadBody, ReadStep;
    if n > 0 {
      ReadLine(both, n - 1, s, q);
      var t := ExecTimes(Inner(ReadBody(both)), n - 1, s);
      InnerUnfold(ReadBody(both), t);
      ReadBodyEffect(both, t);
      TakeEffect(both, t.regs, At(t.content, t.regs.i, t.regs.j), q);
    }
  }

  lemma {:induction false} ReadSlots(both: bool, n: nat, s: Machine, q: nat)
    requires s.regs.i == 0 && q < LINE
    ensures var t := ExecTimes(Outer(ReadBody(both)), n, s);
      && t.content == s.content && t.pad == s.pad
      && t.regs == s.regs.(i := n, j := t.regs.j, valA := t.regs.valA, valB := t.regs.valB)
      && GetByte(t.regs.valA, q) == (if s.regs.a < n then At(s.content, s.regs.a, q) else GetByte(s.regs.valA, q))
      && (both ==>
            GetByte(t.regs.valB, q) == if s.regs.b < n then At(s.content, s.regs.b, q) else GetByte(s.regs.valB, q))
  {
    hide Exec, At, GetByte, Inner, Outer, ReadBody;
    if n > 0 {
      ReadSlots(both, n - 1, s, q);
      var t := ExecTimes(Outer(ReadBody(both)), n - 1, s);
      OuterUnfold(ReadBody(both), t);
      ReadLine(both, LINE, t.(regs := t.regs.(j := 0)), q);
    }
  }

  lemma ValueEqual(v: Value, m: Bank, i: nat)
    requires i < |m| && forall q :: 0 <= q < LINE ==> GetByte(v, q) == At(m, i, q)
    ensures v == m[i]
  {
    forall q | 0 <= q < LINE
      ensures v[q] == m[i][q]
    {
      assert GetByte(v, q) == At(m, i, q);
    }
  }

  /** A reading scan leaves the areas alone and loads the addressed slots into the accumulators. */
  lemma ReadScanEffect(both: bool, s: Machine)
    requires |s.content| == SLOTS && s.regs.a < SLOTS && (both ==> s.regs.b < SLOTS)
    ensures var t := Exec(Scan(ReadBody(both)), s);
      && t.content == s.content && t.pad == s.pad
      && t.regs == s.regs.(i := t.regs.i, j := t.regs.j, valA := t.regs.valA, valB := t.regs.valB)
      && t.regs.valA == s.content[s.regs.a]
      && (both ==> t.regs.valB == s.content[s.regs.b])
  {
    hide Exec, ExecTimes, At, GetByte, Scan, Outer, ReadBody;
    var s0 := s.(regs := s.regs.(i := 0));
    ScanUnfold(ReadBody(both), s);
    var t := ExecTimes(Outer(ReadBody(both)), SLOTS, s0);
    forall q | 0 <= q < LINE
      ensures GetByte(t.regs.valA, q) == At(s.content, s.regs.a, q)
      ensures both ==> GetByte(t.regs.valB, q) == At(s.content, s.regs.b, q)
    {
      ReadSlots(both, SLOTS, s0, q);
    }
    ReadSlots(both, SLOTS, s0, 0);
    ValueEqual(t.regs.valA, s.content, s.regs.a);
    if both {
      ValueEqual(t.regs.valB, s.content, s.regs.b);
    }
  }

  // ----- what a writing scan computes, byte by byte --------------------------------------------------------

  /** Byte q of slot p after a writing scan that found x there. */
  function Target(swap: bool, r: Regs, p: nat, q: nat, x: byte): byte {
    if swap then
      if p == r.b then GetByte(r.valA, q) else if p == r.a then GetByte(r.valB, q) else x
    else if p == r.a then GetByte(r.hashed, q)
    else x
  }

  lemma StoredIsTarget(swap: bool, r: Regs, x: byte)
    ensures StoredByte(swap, r, x) == Target(swap, r, r.i, r.j, x)
  {
    hide Choose, MaskOf, GetByte;
    ChooseByMask(x, GetByte(r.hashed, r.j), r.i == r.a);
    ChooseByMask(x, GetByte(r.valB, r.j), r.i == r.a);
    ChooseByMask(if r.i == r.a then GetByte(r.valB, r.j) else x, GetByte(r.valA, r.j), r.i == r.b);
  }

  lemma {:induction false} WriteLine(swap: bool, n: nat, s: Machine, p: nat, q: nat)
    requires s.regs.j == 0 && n <= LINE && s.regs.i < |s.content|
    ensures var t := ExecTimes(Inner(WriteBody(swap)), n, s);
      && |t.content| == |s.content| && t.pad == s.pad
      && t.regs == s.regs.(j := n, old0 := t.regs.old0)
      && At(t.content, p, q) ==
           if p == s.regs.i && q < n then Target(swap, s.regs, p, q, At(s.content, p, q)) else At(s.content, p, q)
  {
    hide Exec, At, Put, StoredByte, GetByte, Inner, WriteBody, WriteStep;
    if n > 0 {
      WriteLine(swap, n - 1, s, p, q);
      WriteLine(swap, n - 1, s, s.regs.i, n - 1);
      var t := ExecTimes(Inner(WriteBody(swap)), n - 1, s);
      InnerUnfold(WriteBody(swap), t);
      WriteBodyEffect(swap, t);
      var x := At(t.content, t.regs.i, t.regs.j);
      StoredIsTarget(swap, t.regs, x);
      AtPut(t.content, t.regs.i, t.regs.j, StoredByte(swap, t.regs, x), p, q);
    }
  }

  lemma {:induction false} WriteSlots(swap: bool, n: nat, s: Machine, p: nat, q: nat)
    requires s.regs.i == 0 && n <= |s.content| && q < LINE
    ensures var t := ExecTimes(Outer(WriteBody(swap)), n, s);
      && |t.content| == |s.content| && t.pad == s.pad
      && t.regs == s.regs.(i := n, j := t.regs.j, old0 := t.regs.old0)
      && At(t.content, p, q) ==
           if p < n then Target(swap, s.regs, p, q, At(s.content, p, q)) else At(s.content, p, q)
  {
    hide Exec, At, GetByte, Inner, Outer, WriteBody;
    if n > 0 {
      WriteSlots(swap, n - 1, s, p, q);
      var t := ExecTimes(Outer(WriteBody(swap)), n - 1, s);
      OuterUnfold(WriteBody(swap), t);
      WriteLine(swap, LINE, t.(regs := t.regs.(j := 0)), p, q);
    }
  }

  lemma BankEqual(x: Bank, y: Bank)
    requires |x| == |y| && forall p, q :: 0 <= p < |x| && 0 <= q < LINE ==> At(x, p, q) == At(y, p, q)
    ensures x == y
  {
    forall p | 0 <= p < |x|
      ensures x[p] == y[p]
    {
      forall q | 0 <= q < LINE
        ensures x[p][q] == y[p][q]
      {
        assert At(x, p, q) == At(y, p, q);
      }
    }
  }

  /** The contents after a writing scan. */
  function Written(swap: bool, r: Regs, m: Bank): (m': Bank)
    requires r.a < |m| && (swap ==> r.b < |m|)
    ensures |m'| == |m|
  {
    if swap then m[r.a := r.valB][r.b := r.valA] else m[r.a := r.hashed]
  }

  lemma WrittenAt(swap: bool, r: Regs, m: Bank, p: nat, q: nat)
    requires r.a < |m| && (swap ==> r.b < |m|) && p < |m| && q < LINE
    ensures At(Written(swap, r, m), p, q) == Target(swap, r, p, q, At(m, p, q))
  {}

  /** A writing scan changes the addressed slots and nothing else. */
  lemma WriteScanEffect(swap: bool, s: Machine)
    requires |s.content| == SLOTS && s.regs.a < SLOTS && (swap ==> s.regs.b < SLOTS)
    ensures var t := Exec(Scan(WriteBody(swap)), s);
      && t.content == Written(swap, s.regs, s.content) && t.pad == s.pad
      && t.regs == s.regs.(i := t.regs.i, j := t.regs.j, old0 := t.regs.old0)
  {
    hide Exec, ExecTimes, At, Target, Written, Scan, Outer, WriteBody;
    var s0 := s.(regs := s.regs.(i := 0));
    ScanUnfold(WriteBody(swap), s);
    var t := ExecTimes(Outer(WriteBody(swap)), SLOTS, s0);
    var goal := Written(swap, s.regs, s.content);
    WriteSlots(swap, SLOTS, s0, 0, 0);
    forall p, q | 0 <= p < SLOTS && 0 <= q < LINE
      ensures At(t.content, p, q) == At(goal, p, q)
    {
      WriteSlots(swap, SLOTS, s0, p, q);
      WrittenAt(swap, s.regs, s.content, p, q);
      TargetCounters(swap, s.regs, p, q, At(s.content, p, q));
    }
    BankEqual(t.content, goal);
  }

  /** The target does not depend on the loop counters. */
  lemma TargetCounters(swap: bool, r: Regs, p: nat, q: nat, x: byte)
    ensures Target(swap, r.(i := 0), p, q, x) == Target(swap, r, p, q, x)
  {}

  // ----- the operations ----------------------------------------------------------------------------------------

  lemma ComputeUnfold(step: Regs -> Regs, s: Machine)
    ensures Exec(Compute(step), s) == s.(regs := step(s.regs))
  {
    hide ExecTimes;
  }

  lemma ThenUnfold(x: Cmd, y: Cmd, s: Machine)
    ensures Exec(Then(x, y), s) == Exec(y, Exec(x, s))
  {
    hide ExecTimes;
  }

  lemma StartUnfold(step: Regs -> Regs, rest: Cmd, s: Machine)
    ensures Exec(Then(Compute(step), rest), s) == Exec(rest, s.(regs := step(s.regs)))
  {
    hide Exec;
    ThenUnfold(Compute(step), rest, s);
    ComputeUnfold(step, s);
  }

  /** What the interpreter makes of an operation: memory, result and log. */
  ghost predicate Refines(h: Xof, op: Op, s: Machine)
    requires |s.content| == SLOTS
  {
    var t := Exec(Program(h, op), s);
    && t.content == MemoryAfter(h, s.content, op) && t.pad == s.pad
    && OutputOf(op, t.regs) == ResultOf(s.content, op)
    && t.log == s.log + KindLog(KindOf(op))
  }

  // Each operation as its scans, from the local variables it sets up.

  lemma ReadProgram(h: Xof, addr: nat, s: Machine)
    ensures Exec(Program(h, Read(addr)), s) == Exec(Scan(ReadBody(false)), s.(regs := ForRead(s.regs, addr)))
  {
    hide Exec, Scan, ForRead;
    StartUnfold((r: Regs) => ForRead(r, addr), Scan(ReadBody(false)), s);
  }

  lemma WriteProgram(h: Xof, addr: nat, v: Value, s: Machine)
    ensures Exec(Program(h, Write(addr, v)), s) ==
            Exec(Scan(WriteBody(false)), s.(regs := ForWrite(s.regs, addr, OramHash(h, v))))
  {
    hide Exec, Scan, ForWrite, OramHash;
    StartUnfold((r: Regs) => ForWrite(r, addr, OramHash(h, v)), Scan(WriteBody(false)), s);
  }

  lemma ModifyProgram(h: Xof, addr: nat, f: Value -> Value, s: Machine)
    ensures Exec(Program(h, Modify(addr, f)), s) ==
      var s2 := Exec(Scan(ReadBody(false)), s.(regs := ForRead(s.regs, addr)));
      var x := f(s2.regs.valA);
      Exec(Scan(WriteBody(false)), s2.(regs := ForStore(s2.regs, x, OramHash(h, x))))
  {
    hide Exec, Scan, ForRead, ForStore, OramHash;
    var start := (r: Regs) => ForRead(r, addr);
    var apply := (r: Regs) => ForStore(r, f(r.valA), OramHash(h, f(r.valA)));
    var first, last := Scan(ReadBody(false)), Scan(WriteBody(false));
    StartUnfold(start, Then(first, Then(Compute(apply), last)), s);
    var s1 := s.(regs := ForRead(s.regs, addr));
    ThenUnfold(first, Then(Compute(apply), last), s1);
    StartUnfold(apply, last, Exec(first, s1));
  }

  lemma SwapProgram(h: Xof, a: nat, b: nat, s: Machine)
    ensures Exec(Program(h, Swap(a, b)), s) ==
            Exec(Scan(WriteBody(true)), Exec(Scan(ReadBody(true)), s.(regs := ForSwap(s.regs, a, b))))
  {
    hide Exec, Scan, ForSwap;
    StartUnfold((r: Regs) => ForSwap(r, a, b), Then(Scan(ReadBody(true)), Scan(WriteBody(true))), s);
    ThenUnfold(Scan(ReadBody(true)), Scan(WriteBody(true)), s.(regs := ForSwap(s.regs, a, b)));
  }

  lemma ReadRefines(h: Xof, addr: nat, s: Machine)
    requires |s.content| == SLOTS
    ensures Refines(h, Read(addr), s)
  {
    hide Exec, Scan, ScanLog, IndexOf, Program;
    IndexIsModulo(addr);
    ReadProgram(h, addr, s);
    var s1 := s.(regs := ForRead(s.regs, addr));
    ReadBodyTraces(false);
    ScanTraces(ReadBody(false), ReadStep, s1);
    ReadScanEffect(false, s1);
  }

  lemma WriteRefines(h: Xof, addr: nat, v: Value, s: Machine)
    requires |s.content| == SLOTS
    ensures Refines(h, Write(addr, v), s)
  {
    hide Exec, Scan, ScanLog, IndexOf, OramHash, Program;
    IndexIsModulo(addr);
    WriteProgram(h, addr, v, s);
    var s1 := s.(regs := ForWrite(s.regs, addr, OramHash(h, v)));
    WriteBodyTraces(false);
    ScanTraces(WriteBody(false), WriteStep, s1);
    WriteScanEffect(false, s1);
  }

  lemma ModifyRefines(h: Xof, addr: nat, f: Value -> Value, s: Machine)
    requires |s.content| == SLOTS
    ensures Refines(h, Modify(addr, f), s)
  {
    hide Exec, Scan, ScanLog, IndexOf, OramHash, Program;
    IndexIsModulo(addr);
    ModifyProgram(h, addr, f, s);
    var s1 := s.(regs := ForRead(s.regs, addr));
    ReadBodyTraces(false);
    ScanTraces(ReadBody(false), ReadStep, s1);
    ReadScanEffect(false, s1);
    var s2 := Exec(Scan(ReadBody(false)), s1);
    var s3 := s2.(regs := ForStore(s2.regs, f(s2.regs.valA), OramHash(h, f(s2.regs.valA))));
    WriteBodyTraces(false);
    ScanTraces(WriteBody(false), WriteStep, s3);
    WriteScanEffect(false, s3);
    Append(s.log, ScanLog(ReadStep, SLOTS), ScanLog(WriteStep, SLOTS));
  }

  lemma SwapRefines(h: Xof, a: nat, b: nat, s: Machine)
    requires |s.content| == SLOTS
    ensures Refines(h, Swap(a, b), s)
  {
    hide Exec, Scan, ScanLog, IndexOf, Program;
    IndexIsModulo(a);
    IndexIsModulo(b);
    SwapProgram(h, a, b, s);
    var s1 := s.(regs := ForSwap(s.regs, a, b));
    ReadBodyTraces(true);
    ScanTraces(ReadBody(true), ReadStep, s1);
    ReadScanEffect(true, s1);
    var s2 := Exec(Scan(ReadBody(true)), s1);
    WriteBodyTraces(true);
    ScanTraces(WriteBody(true), WriteStep, s2);
    WriteScanEffect(true, s2);
    Append(s.log, ScanLog(ReadStep, SLOTS), ScanLog(WriteStep, SLOTS));
  }

  // ----- sequences of operations ------------------------------------------------------------------------------

  /** The machine after the operations; every operation starts from clear local variables. */
  function RunAll(h: Xof, ops: seq<Op>, s: Machine): Machine {
    if |ops| == 0 then s
    else
      var t := RunAll(h, ops[..|ops| - 1], s);
      Exec(Program(h, ops[|ops| - 1]), t.(regs := CLEAR))
  }

  /** The memory and the last result of the plain memory. */
  function PlainMemory(h: Xof, ops: seq<Op>, m: Bank): (m': Bank)
    requires |m| == SLOTS
    ensures |m'| == SLOTS
  {
    if |ops| == 0 then m else MemoryAfter(h, PlainMemory(h, ops[..|ops| - 1], m), ops[|ops| - 1])
  }

  function RunLog(kinds: seq<Kind>): seq<Access> {
    if |kinds| == 0 then [] else RunLog(kinds[..|kinds| - 1]) + KindLog(kinds[|kinds| - 1])
  }

  function Kinds(ops: seq<Op>): (k: seq<Kind>)
    ensures |k| == |ops|
  {
    seq(|ops|, i requires 0 <= i < |ops| => KindOf(ops[i]))
  }

  lemma ProgramRefines(h: Xof, op: Op, s: Machine)
    requires |s.content| == SLOTS
    ensures Refines(h, op, s)
  {
    hide Refines;
    match op
    case Read(addr) => ReadRefines(h, addr, s);
    case Write(addr, v) => WriteRefines(h, addr, v, s);
    case Modify(addr, f) => ModifyRefines(h, addr, f, s);
    case Swap(a, b) => SwapRefines(h, a, b, s);
  }

  /** Over any sequence of operations the masked scans are the plain memory of hashed values, every result included
      (apply it to each prefix), and the accesses are a function of the kinds of the operations alone. */
  lemma {:induction false} RunRefines(h: Xof, ops: seq<Op>, s: Machine)
    requires |s.content| == SLOTS
    ensures var t := RunAll(h, ops, s);
      && t.content == PlainMemory(h, ops, s.content) && t.pad == s.pad
      && t.log == s.log + RunLog(Kinds(ops))
      && (|ops| > 0 ==>
            var before := PlainMemory(h, ops[..|ops| - 1], s.content);
            OutputOf(ops[|ops| - 1], t.regs) == ResultOf(before, ops[|ops| - 1]))
    decreases |ops|
  {
    hide Exec, Program, KindLog, MemoryAfter, ResultOf, OutputOf;
    if |ops| > 0 {
      var front, op := ops[..|ops| - 1], ops[|ops| - 1];
      RunRefines(h, front, s);
      var t := RunAll(h, front, s).(regs := CLEAR);
      ProgramRefines(h, op, t);
      assert Kinds(ops)[..|ops| - 1] == Kinds(front);
      Append(s.log, RunLog(Kinds(front)), KindLog(KindOf(op)));
    }
  }

  /** Obliviousness: two sequences of operations of the same kinds, with any addresses, values and functions, on any
      memories and under any hashes, make the same accesses in the same order. */
  lemma AccessesAreOblivious(h: Xof, ops: seq<Op>, s: Machine, h': Xof, ops': seq<Op>, s': Machine)
    requires |s.content| == |s'.content| == SLOTS && s.log == s'.log && Kinds(ops) == Kinds(ops')
    ensures RunAll(h, ops, s).log == RunAll(h', ops', s').log
  {
    hide RunAll, RunLog;
    RunRefines(h, ops, s);
    RunRefines(h', ops', s');
  }

  /** A read does not hash what it returns: on a fresh memory it gives genesis itself, which is not its hash
      unless the hash maps genesis to itself. */
  lemma FreshReadIsGenesis(h: Xof, addr: nat, s: Machine)
    requires |s.content| == SLOTS && forall i :: 0 <= i < SLOTS ==> s.content[i] == GENESIS
    ensures var r := OutputOf(Read(addr), Exec(Program(h, Read(addr)), s).regs);
      r == GENESIS && (r == OramHash(h, GENESIS) <==> OramHash(h, GENESIS) == GENESIS)
  {
    hide Exec, Program, KindLog, OramHash;
    ReadRefines(h, addr, s);
  }

  /** The scans touch every position of every slot. */
  lemma {:induction false} ScanTouchesAll(step: (nat, nat) -> seq<Access>, n: nat, i: nat, j: nat, x: Access)
    requires i < n && j < LINE && x in step(i, j)
    ensures x in ScanLog(step, n)
  {
    hide LineLog;
    if i == n - 1 {
      LineTouchesAll(step, i, LINE, j, x);
    } else {
      ScanTouchesAll(step, n - 1, i, j, x);
    }
  }

  lemma {:induction false} LineTouchesAll(step: (nat, nat) -> seq<Access>, i: nat, n: nat, j: nat, x: Access)
    requires j < n && x in step(i, j)
    ensures x in LineLog(step, i, n)
  {
    if j < n - 1 {
      LineTouchesAll(step, i, n - 1, j, x);
    }
  }

  /** Running any operation reads the content and the padding of every position of every slot. */
  lemma EveryPositionTouched(h: Xof, op: Op, s: Machine, i: nat, j: nat, area: Area)
    requires |s.content| == SLOTS && i < SLOTS && j < LINE
    ensures Access(false, area, i, j) in Exec(Program(h, op), s).log
  {
    hide KindLog, Exec, Program, MemoryAfter, ResultOf, OutputOf;
    ProgramRefines(h, op, s);
    KindTouchesAll(KindOf(op), i, j, area);
  }

  lemma KindTouchesAll(k: Kind, i: nat, j: nat, area: Area)
    requires i < SLOTS && j < LINE
    ensures Access(false, area, i, j) in KindLog(k)
  {
    hide ScanLog;
    var x := Access(false, area, i, j);
    assert ReadStep(i, j)[0] == Access(false, Padding, i, j) && ReadStep(i, j)[1] == Access(false, Content, i, j);
    assert WriteStep(i, j)[0] == Access(false, Content, i, j) && WriteStep(i, j)[2] == Access(false, Padding, i, j);
    ScanTouchesAll(ReadStep, SLOTS, i, j, x);
    ScanTouchesAll(WriteStep, SLOTS, i, j, x);
  }

  // ----- the memory as its users see it ------------------------------------------------------------------

  /** The only 82-byte string with the tag at byte 0 and the value at byte 18, and the hash of it. */
  lemma HashPositions(h: Xof, v: Value, s: ByteString)
    requires |s| == 82 && s[..18] == ORAM_HASH && s[18..] == v
    ensures OramHash(h, v) == h(s)[..64]
  {
    TagLength();
    hide ORAM_HASH, Digest;
    assert s == s[..18] + s[18..];
    DigestPrefix(h, s, 64);
  }

  lemma TagLength()
    ensures |ORAM_HASH| == 18
  {}

  /** What a read of addr returns after the operations. */
  function ReadBack(h: Xof, ops: seq<Op>, s: Machine, addr: nat): Value {
    OutputOf(Read(addr), RunAll(h, ops + [Read(addr)], s).regs)
  }

  lemma ReadBackIs(h: Xof, ops: seq<Op>, s: Machine, addr: nat)
    requires |s.content| == SLOTS
    ensures ReadBack(h, ops, s, addr) == PlainMemory(h, ops, s.content)[addr % 256]
  {
    hide RunAll, OutputOf, PlainMemory;
    RunRefines(h, ops + [Read(addr)], s);
    assert (ops + [Read(addr)])[..|ops|] == ops;
  }

  /** What one more operation does to what reads return, said with reads alone: a write shows as the hash of its
      value at its own address modulo 256, a modification as the hash of f of what was there, a swap as an exchange,
      and nothing else changes. */
  lemma ReadAfter(h: Xof, ops: seq<Op>, op: Op, s: Machine, addr: nat)
    requires |s.content| == SLOTS
    ensures ReadBack(h, ops + [op], s, addr) ==
      match op
      case Read(_) => ReadBack(h, ops, s, addr)
      case Write(a, v) => if addr % 256 == a % 256 then OramHash(h, v) else ReadBack(h, ops, s, addr)
      case Modify(a, f) =>
        if addr % 256 == a % 256 then OramHash(h, f(ReadBack(h, ops, s, a))) else ReadBack(h, ops, s, addr)
      case Swap(a, b) =>
        if addr % 256 == b % 256 then ReadBack(h, ops, s, a)
        else if addr % 256 == a % 256 then ReadBack(h, ops, s, b)
        else ReadBack(h, ops, s, addr)
  {
    hide ReadBack, OramHash;
    ReadBackIs(h, ops + [op], s, addr);
    ReadBackIs(h, ops, s, addr);
    if op.Modify? {
      ReadBackIs(h, ops, s, op.addr);
    } else if op.Swap? {
      ReadBackIs(h, ops, s, op.addrA);
      ReadBackIs(h, ops, s, op.addrB);
    }
    PlainSnoc(h, ops, op, s.content);
  }

  lemma PlainSnoc(h: Xof, ops: seq<Op>, op: Op, m: Bank)
    requires |m| == SLOTS
    ensures PlainMemory(h, ops + [op], m) == MemoryAfter(h, PlainMemory(h, ops, m), op)
  {
    hide MemoryAfter;
    assert (ops + [op])[..|ops|] == ops;
  }

  // ----- what the log gives away ------------------------------------------------------------------------------

  lemma {:induction false} ScanStarts(step: (nat, nat) -> seq<Access>, n: nat)
    requires n >= 1 && |step(0, 0)| > 0
    ensures |ScanLog(step, n)| > 0 && ScanLog(step, n)[0] == step(0, 0)[0]
  {
    if n == 1 {
      LineStarts(step, LINE);
      assert ScanLog(step, 0) == [];
    } else {
      hide LineLog;
      ScanStarts(step, n - 1);
    }
  }

  lemma {:induction false} LineStarts(step: (nat, nat) -> seq<Access>, n: nat)
    requires n >= 1 && |step(0, 0)| > 0
    ensures |LineLog(step, 0, n)| > 0 && LineLog(step, 0, n)[0] == step(0, 0)[0]
  {
    if n == 1 {
      assert LineLog(step, 0, 0) == [];
    } else {
      LineStarts(step, n - 1);
    }
  }

  /** The accesses tell a read from a write, and both from the two-scan operations; a swap and a modification are
      the only kinds that look alike. */
  lemma LogTellsKinds(k: Kind, k': Kind)
    ensures KindLog(k) == KindLog(k') <==> k == k' || {k, k'} == {KModify, KSwap}
  {
    hide ScanLog;
    ScanStarts(ReadStep, SLOTS);
    ScanStarts(WriteStep, SLOTS);
    var r, w := ScanLog(ReadStep, SLOTS), ScanLog(WriteStep, SLOTS);
    assert r[0] != w[0] && (r + w)[0] == r[0] && |r + w| > |r|;
    assert k.KRead? || k.KWrite? || KindLog(k) == r + w;
    assert k'.KRead? || k'.KWrite? || KindLog(k') == r + w;
  }

  // ----- in place --------------------------------------------------------------------------------------------

  /** The interpreter on arrays: the registers it returns and the contents it leaves are those of Exec. */
  method ExecInPlace(c: Cmd, regs: Regs, content: array<Value>, pad: array<Value>, ghost log: seq<Access>)
    returns (r: Regs, ghost log': seq<Access>)
    requires content != pad
    modifies content
    ensures Machine(r, content[..], pad[..], log') == Exec(c, Machine(regs, old(content[..]), pad[..], log))
    decreases c
  {
    hide ExecTimes;
    r, log' := regs, log;
    ghost var s := Machine(regs, content[..], pad[..], log);
    match c {
      case Load(area, addr, upd) =>
        var p := addr(regs);
        var bank := if area == Content then content else pad;
        var x := if p.0 < bank.Length && p.1 < LINE then bank[p.0][p.1] else 0;
        r := upd(regs, x);
        log' := log + [Access(false, area, p.0, p.1)];
      case Store(dest, val) =>
        var p := dest(regs);
        log' := log + [Access(true, Content, p.0, p.1)];
        if p.0 < content.Length && p.1 < LINE {
          content[p.0] := content[p.0][p.1 := val(regs)];
        }
        assert content[..] == Put(s.content, p.0, p.1, val(regs));
      case Compute(step) =>
        r := step(regs);
      case Then(x, y) =>
        r, log' := ExecInPlace(x, regs, content, pad, log);
        r, log' := ExecInPlace(y, r, content, pad, log');
      case Repeat(n, body) =>
        TimesZero(body, s);
        for k := 0 to n
          invariant Machine(r, content[..], pad[..], log') == ExecTimes(body, k, s)
        {
          TimesStep(body, k, s);
          r, log' := ExecInPlace(body, r, content, pad, log');
        }
    }
  }

  lemma TimesZero(body: Cmd, s: Machine)
    ensures ExecTimes(body, 0, s) == s
  {}

  lemma TimesStep(body: Cmd, k: nat, s: Machine)
    ensures ExecTimes(body, k + 1, s) == Exec(body, ExecTimes(body, k, s))
  {}

  /** The 256 slots in memory. */
  class ObliviousRAM {
    const content: array<Value>
    const pad: array<Value>

    ghost predicate Valid()
      reads this
    {
      content.Length == pad.Length == SLOTS && content != pad
    }

    /** All slots start as genesis. */
    constructor ()
      ensures Valid() && fresh(content) && fresh(pad)
      ensures forall i :: 0 <= i < SLOTS ==> content[i] == GENESIS && pad[i] == GENESIS
    {
      content := new Value[SLOTS](_ => GENESIS);
      pad := new Value[SLOTS](_ => GENESIS);
    }

    /** Any of the four operations: the memory, the result and the accesses. */
    method Perform(h: Xof, op: Op) returns (r: Value, ghost log: seq<Access>)
      requires Valid()
      modifies content
      ensures content[..] == MemoryAfter(h, old(content[..]), op)
      ensures r == ResultOf(old(content[..]), op)
      ensures log == KindLog(KindOf(op))
    {
      hide Exec, Program, KindLog, MemoryAfter, ResultOf;
      ghost var s := Machine(CLEAR, content[..], pad[..], []);
      ProgramRefines(h, op, s);
      var regs;
      match op {
        case Read(addr) => regs, log := RunRead(h, addr);
        case Write(addr, v) => regs, log := RunWrite(h, addr, v);
        case Modify(addr, f) => regs, log := RunModify(h, addr, f);
        case Swap(a, b) => regs, log := RunSwap(h, a, b);
      }
      r := OutputOf(op, regs);
    }

    /** The contents, registers and log are those of the operation's program. */
    twostate predicate Ran(h: Xof, op: Op, regs: Regs, log: seq<Access>)
      reads content, pad
    {
      Machine(regs, content[..], pad[..], log) ==
      Exec(Program(h, op), Machine(CLEAR, old(content[..]), old(pad[..]), []))
    }

    method RunRead(h: Xof, addr: nat) returns (regs: Regs, ghost log: seq<Access>)
      requires Valid()
      modifies content
      ensures Ran(h, Read(addr), regs, log)
    {
      hide Exec, Program, Scan;
      ReadProgram(h, addr, Machine(CLEAR, content[..], pad[..], []));
      regs, log := ExecInPlace(Scan(ReadBody(false)), ForRead(CLEAR, addr), content, pad, []);
    }

    method RunWrite(h: Xof, addr: nat, v: Value) returns (regs: Regs, ghost log: seq<Access>)
      requires Valid()
      modifies content
      ensures Ran(h, Write(addr, v), regs, log)
    {
      hide Exec, Program, Scan, OramHash;
      WriteProgram(h, addr, v, Machine(CLEAR, content[..], pad[..], []));
      var hashed := HashValue(h, v);
      regs, log := ExecInPlace(Scan(WriteBody(false)), ForWrite(CLEAR, addr, hashed), content, pad, []);
    }

    method RunModify(h: Xof, addr: nat, f: Value -> Value) returns (regs: Regs, ghost log: seq<Access>)
      requires Valid()
      modifies content
      ensures Ran(h, Modify(addr, f), regs, log)
    {
      hide Exec, Program, Scan, OramHash;
      ModifyProgram(h, addr, f, Machine(CLEAR, content[..], pad[..], []));
      regs, log := ExecInPlace(Scan(ReadBody(false)), ForRead(CLEAR, addr), content, pad, []);
      var modified := f(regs.valA);
      var hashed := HashValue(h, modified);
      regs, log := ExecInPlace(Scan(WriteBody(false)), ForStore(regs, modified, hashed), content, pad, log);
    }

    method RunSwap(h: Xof, a: nat, b: nat) returns (regs: Regs, ghost log: seq<Access>)
      requires Valid()
      modifies content
      ensures Ran(h, Swap(a, b), regs, log)
    {
      hide Exec, Program, Scan;
      SwapProgram(h, a, b, Machine(CLEAR, content[..], pad[..], []));
      regs, log := ExecInPlace(Scan(ReadBody(true)), ForSwap(CLEAR, a, b), content, pad, []);
      regs, log := ExecInPlace(Scan(WriteBody(true)), regs, content, pad, log);
    }
  }
}
