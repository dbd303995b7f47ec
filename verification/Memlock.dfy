/** The locked-memory budget (`src/layers/l0_memlock.rs`): the check-then-lock protocol around one atomic
    counter as interleaved atomic steps of any number of threads, and the three-pass wipe. */
module Memlock {
  import opened Bytes
  import opened Wrappers

  const POISON: byte := 0xDE

  // ----- the wipe loops ------------------------------------------------------------------------

  method ZeroizeBytes(a: array<byte>)
    modifies a
    ensures a[..] == ZeroBytes(a.Length)
  {
    for i := 0 to a.Length
      invariant forall k :: 0 <= k < i ==> a[k] == 0
    {
      a[i] := 0;
    }
  }

  method PoisonBytes(a: array<byte>)
    modifies a
    ensures forall k :: 0 <= k < a.Length ==> a[k] == 0xDE
  {
    for i := 0 to a.Length
      invariant forall k :: 0 <= k < i ==> a[k] == POISON
    {
      a[i] := POISON;
    }
  }

  /** Zeroize, poison, zeroize: the buffer ends as zeros. */
  method ZeroizeAndPoison(a: array<byte>)
    modifies a
    ensures a[..] == ZeroBytes(a.Length)
  {
    ZeroizeBytes(a);
    PoisonBytes(a);
    ZeroizeBytes(a);
  }

  // ----- the protocol as a state machine ------------------------------------------------------------

  /** Where a buffer is in its life.  `locked` is the field of that name. */
  datatype Phase =
    | Checked                                    // constructor: the budget check passed
    | Pinned                                     // constructor: mlock succeeded, not yet counted
    | Live(locked: bool)                         // constructed
    | Wiping(pass: nat, next: nat, locked: bool) // drop: pass 0, 1 or 2, next byte to overwrite
    | Unpinned                                   // drop: munlock done, not yet uncounted
    | Gone

  /** A heap allocation: its first address, its bytes, and where it is in its life. */
  datatype Buffer = Buffer(addr: nat, bytes: ByteString, phase: Phase)

  /** The counter, every buffer ever allocated, and the pages the operating system keeps in memory.  Locks on a
      page do not add up: a page is pinned or it is not. */
  datatype State = State(counter: nat, buffers: seq<Buffer>, pinned: set<nat>)

  type Positive = n: nat | n >= 1 witness 1

  /** The threshold of the check, the number of constructors that may be in flight, the largest buffer, and the
      page size. */
  datatype Config = Config(threshold: nat, inFlight: nat, maxSize: nat, pageSize: Positive)

  /** The counter is a 64-bit word and the configured worst case fits it. */
  ghost predicate Sensible(c: Config) {
    c.threshold + c.inFlight * c.maxSize < TWO_64
  }

  /** One atomic step of some thread. */
  datatype Event =
    | Begin(addr: nat, size: nat)       // the check reads a counter at or below the threshold
    | Skip(addr: nat, size: nat)        // the check reads a counter above it: no locking
    | Pin(i: nat)                       // mlock succeeds
    | PinFails(i: nat)                  // mlock fails
    | Count(i: nat)                     // fetch_add
    | Fill(i: nat, pos: nat, b: byte)   // the owner writes a byte
    | StartDrop(i: nat)
    | WipeByte(i: nat)                  // one volatile store of the current pass
    | NextPass(i: nat)
    | Unpin(i: nat)                     // munlock
    | Finish(i: nat)                    // end of drop of a buffer that was never locked
    | Uncount(i: nat)                   // fetch_sub

  const INIT := State(0, [], {})

  predicate InConstructor(b: Buffer) {
    b.phase.Checked? || b.phase.Pinned?
  }

  /** Between its fetch_add and its fetch_sub. */
  predicate Counted(b: Buffer) {
    b.phase.Unpinned? || ((b.phase.Live? || b.phase.Wiping?) && b.phase.locked)
  }

  function Size(b: Buffer): nat {
    |b.bytes|
  }

  /** Total size of the buffers in their constructor, and of the counted ones. */
  function PendingSize(bs: seq<Buffer>): nat {
    if bs == [] then 0 else (if InConstructor(bs[0]) then Size(bs[0]) else 0) + PendingSize(bs[1..])
  }

  function CountedSize(bs: seq<Buffer>): nat {
    if bs == [] then 0 else (if Counted(bs[0]) then Size(bs[0]) else 0) + CountedSize(bs[1..])
  }

  function PendingCount(bs: seq<Buffer>): nat {
    if bs == [] then 0 else (if InConstructor(bs[0]) then 1 else 0) + PendingCount(bs[1..])
  }

  function PageOf(c: Config, address: nat): nat {
    address / c.pageSize
  }

  /** The pages that mlock and munlock act on: every page with a byte of the buffer. */
  function PagesOf(c: Config, b: Buffer): set<nat> {
    set a | b.addr <= a < b.addr + Size(b) :: PageOf(c, a)
  }

  /** What an allocator guarantees: a new allocation overlaps none that is still in use. */
  predicate Fresh(bs: seq<Buffer>, addr: nat, size: nat) {
    forall i :: 0 <= i < |bs| && !bs[i].phase.Gone? ==> addr + size <= bs[i].addr || bs[i].addr + Size(bs[i]) <= addr
  }

  predicate InPhase(s: State, i: nat, p: Phase) {
    i < |s.buffers| && s.buffers[i].phase == p
  }

  predicate PassDone(b: Buffer) {
    b.phase.Wiping? && b.phase.next == Size(b)
  }

  predicate Enabled(c: Config, s: State, e: Event) {
    match e
    case Begin(addr, n) =>
      && s.counter <= c.threshold && PendingCount(s.buffers) < c.inFlight
      && n <= c.maxSize && Fresh(s.buffers, addr, n)
    case Skip(addr, n) => s.counter > c.threshold && n <= c.maxSize && Fresh(s.buffers, addr, n)
    case Pin(i) => InPhase(s, i, Checked)
    case PinFails(i) => InPhase(s, i, Checked)
    case Count(i) => InPhase(s, i, Pinned)
    case Fill(i, pos, _) => i < |s.buffers| && s.buffers[i].phase.Live? && pos < Size(s.buffers[i])
    case StartDrop(i) => i < |s.buffers| && s.buffers[i].phase.Live?
    case WipeByte(i) =>
      i < |s.buffers| && s.buffers[i].phase.Wiping? && s.buffers[i].phase.next < Size(s.buffers[i])
    case NextPass(i) => i < |s.buffers| && PassDone(s.buffers[i]) && s.buffers[i].phase.pass < 2
    case Unpin(i) =>
      i < |s.buffers| && PassDone(s.buffers[i]) && s.buffers[i].phase.pass == 2 && s.buffers[i].phase.locked
    case Finish(i) =>
      i < |s.buffers| && PassDone(s.buffers[i]) && s.buffers[i].phase.pass == 2 && !s.buffers[i].phase.locked
    case Uncount(i) => InPhase(s, i, Unpinned)
  }

  /** The buffer a step acts on, afterwards. */
  function BufferAfter(b: Buffer, e: Event): Buffer {
    match e
    case Pin(_) => b.(phase := Pinned)
    case PinFails(_) => b.(phase := Live(false))
    case Count(_) => b.(phase := Live(true))
    case Fill(_, pos, x) => if pos < |b.bytes| then b.(bytes := b.bytes[pos := x]) else b
    case StartDrop(_) => b.(phase := Wiping(0, 0, b.phase.Live? && b.phase.locked))
    case WipeByte(_) =>
      if b.phase.Wiping? && b.phase.next < |b.bytes| then
        Buffer(b.addr,
               b.bytes[b.phase.next := if b.phase.pass == 1 then POISON else 0],
               b.phase.(next := b.phase.next + 1))
      else b
    case NextPass(_) => if b.phase.Wiping? then b.(phase := Wiping(b.phase.pass + 1, 0, b.phase.locked)) else b
    case Unpin(_) => b.(phase := Unpinned)
    case Finish(_) => b.(phase := Gone)
    case Uncount(_) => b.(phase := Gone)
    case Begin(_, _) => b
    case Skip(_, _) => b
  }

  /** fetch_add and fetch_sub on a 64-bit word, with wrap-around. */
  function CounterAfter(s: State, e: Event, size: nat): nat {
    match e
    case Count(_) => (s.counter + size) % TWO_64
    case Uncount(_) => (s.counter - size) % TWO_64
    case _ => s.counter
  }

  /** mlock pins the pages of its buffer, munlock unpins them. */
  function PinnedAfter(c: Config, pinned: set<nat>, e: Event, b: Buffer): set<nat> {
    match e
    case Pin(_) => pinned + PagesOf(c, b)
    case Unpin(_) => pinned - PagesOf(c, b)
    case _ => pinned
  }

  function Step(c: Config, s: State, e: Event): State
    requires Enabled(c, s, e)
  {
    match e
    case Begin(addr, n) => s.(buffers := s.buffers + [Buffer(addr, ZeroBytes(n), Checked)])
    case Skip(addr, n) => s.(buffers := s.buffers + [Buffer(addr, ZeroBytes(n), Live(false))])
    case _ =>
      var b := s.buffers[e.i];
      State(CounterAfter(s, e, Size(b)), s.buffers[e.i := BufferAfter(b, e)], PinnedAfter(c, s.pinned, e, b))
  }

  /** The state after an interleaving of steps; None if some step is not enabled. */
  function RunFrom(c: Config, s: State, es: seq<Event>): Option<State> {
    if es == [] then Some(s)
    else
      var before := RunFrom(c, s, es[..|es| - 1]);
      var e := es[|es| - 1];
      if before.Some? && Enabled(c, before.value, e) then Some(Step(c, before.value, e)) else None
  }

  function Run(c: Config, es: seq<Event>): Option<State> {
    RunFrom(c, INIT, es)
  }

  // ----- the invariant -------------------------------------------------------------------------------

  ghost predicate ZeroUpTo(bytes: ByteString, n: nat) {
    n <= |bytes| && forall k :: 0 <= k < n ==> bytes[k] == 0
  }

  ghost predicate Filled(bytes: ByteString, lo: nat, hi: nat, b: byte) {
    forall k :: lo <= k < hi && k < |bytes| ==> bytes[k] == b
  }

  /** How far a wipe is: zeros, then 0xDE over them, then zeros again. */
  ghost predicate WipeProgress(bytes: ByteString, pass: nat, next: nat) {
    && pass <= 2 && next <= |bytes|
    && Filled(bytes, 0, next, if pass == 1 then 0xDE else 0)
    && (pass > 0 ==> Filled(bytes, next, |bytes|, if pass == 1 then 0 else 0xDE))
  }

  /** What holds of one buffer at every moment. */
  ghost predicate BufferOk(c: Config, b: Buffer) {
    && Size(b) <= c.maxSize
    && (b.phase.Wiping? ==> WipeProgress(b.bytes, b.phase.pass, b.phase.next))
    && (b.phase.Unpinned? || b.phase.Gone? ==> ZeroUpTo(b.bytes, Size(b)))
  }

  ghost predicate Inv(c: Config, s: State) {
    && s.counter == CountedSize(s.buffers)
    && s.counter + PendingSize(s.buffers) <= c.threshold + c.inFlight * c.maxSize
    && PendingCount(s.buffers) <= c.inFlight
    && forall i :: 0 <= i < |s.buffers| ==> BufferOk(c, s.buffers[i])
  }

  // ----- sums over the buffers ---------------------------------------------------------------------------

  lemma {:induction false} SumsAppend(bs: seq<Buffer>, b: Buffer)
    ensures PendingSize(bs + [b]) == PendingSize(bs) + if InConstructor(b) then Size(b) else 0
    ensures CountedSize(bs + [b]) == CountedSize(bs) + if Counted(b) then Size(b) else 0
    ensures PendingCount(bs + [b]) == PendingCount(bs) + if InConstructor(b) then 1 else 0
  {
    hide InConstructor, Counted;
    if bs == [] {
      assert bs + [b] == [b] && [b][1..] == [];
    } else {
      SumsAppend(bs[1..], b);
      assert (bs + [b])[1..] == bs[1..] + [b];
    }
  }

  lemma {:induction false} SumsUpdate(bs: seq<Buffer>, i: nat, b: Buffer)
    requires i < |bs|
    ensures var bs' := bs[i := b];
      && PendingSize(bs') + (if InConstructor(bs[i]) then Size(bs[i]) else 0) ==
         PendingSize(bs) + (if InConstructor(b) then Size(b) else 0)
      && CountedSize(bs') + (if Counted(bs[i]) then Size(bs[i]) else 0) ==
         CountedSize(bs) + (if Counted(b) then Size(b) else 0)
      && PendingCount(bs') + (if InConstructor(bs[i]) then 1 else 0) ==
         PendingCount(bs) + (if InConstructor(b) then 1 else 0)
  {
    hide InConstructor, Counted;
    if i == 0 {
      assert bs[0 := b][1..] == bs[1..];
    } else {
      SumsUpdate(bs[1..], i - 1, b);
      assert bs[i := b][1..] == bs[1..][i - 1 := b];
    }
  }

  /** At most maxSize bytes for every constructor in flight. */
  lemma {:induction false} PendingBound(c: Config, bs: seq<Buffer>)
    requires forall i :: 0 <= i < |bs| ==> Size(bs[i]) <= c.maxSize
    ensures PendingSize(bs) <= PendingCount(bs) * c.maxSize
  {
    hide InConstructor;
    if bs != [] {
      PendingBound(c, bs[1..]);
      if InConstructor(bs[0]) {
        assert PendingCount(bs) * c.maxSize == c.maxSize + PendingCount(bs[1..]) * c.maxSize;
      }
    }
  }

  lemma MulMonotone(a: nat, b: nat, m: nat)
    requires a <= b
    ensures a * m <= b * m
  {}

  // ----- every step keeps the invariant --------------------------------------------------------------------

  lemma BufferStep(c: Config, s: State, e: Event)
    requires Enabled(c, s, e) && !e.Begin? && !e.Skip? && BufferOk(c, s.buffers[e.i])
    ensures BufferOk(c, BufferAfter(s.buffers[e.i], e))
    ensures Size(BufferAfter(s.buffers[e.i], e)) == Size(s.buffers[e.i])
  {}

  lemma InvInit(c: Config)
    ensures Inv(c, INIT)
  {
    MulMonotone(0, c.inFlight, c.maxSize);
  }

  lemma InvBegin(c: Config, s: State, addr: nat, n: nat)
    requires Inv(c, s) && Enabled(c, s, Begin(addr, n))
    ensures Inv(c, Step(c, s, Begin(addr, n)))
  {
    hide Fresh;
    var b := Buffer(addr, ZeroBytes(n), Checked);
    var bs := s.buffers + [b];
    SumsAppend(s.buffers, b);
    assert forall i :: 0 <= i < |bs| ==> BufferOk(c, bs[i]);
    hide CountedSize, PendingSize, PendingCount;
    PendingBound(c, bs);
    MulMonotone(PendingCount(bs), c.inFlight, c.maxSize);
  }

  lemma InvSkip(c: Config, s: State, addr: nat, n: nat)
    requires Inv(c, s) && Enabled(c, s, Skip(addr, n))
    ensures Inv(c, Step(c, s, Skip(addr, n)))
  {
    hide Fresh;
    var b := Buffer(addr, ZeroBytes(n), Live(false));
    SumsAppend(s.buffers, b);
    hide CountedSize, PendingSize, PendingCount;
  }

  /** The counter word never wraps: what is added fits, what is subtracted is there. */
  lemma CounterExact(c: Config, s: State, e: Event)
    requires Sensible(c) && Inv(c, s) && Enabled(c, s, e) && !e.Begin? && !e.Skip?
    ensures var b, b' := s.buffers[e.i], BufferAfter(s.buffers[e.i], e);
      CounterAfter(s, e, Size(b)) + (if Counted(b) then Size(b) else 0) ==
      s.counter + (if Counted(b') then Size(b') else 0)
  {
    hide CountedSize, PendingSize, PendingCount;
    SumsUpdate(s.buffers, e.i, Buffer(0, [], Gone));
    BufferStep(c, s, e);
  }

  /** No such step starts a constructor, and one that counts a buffer takes it out of its constructor. */
  lemma ConstructorLeaves(c: Config, s: State, e: Event)
    requires Enabled(c, s, e) && !e.Begin? && !e.Skip?
    ensures var b, b' := s.buffers[e.i], BufferAfter(s.buffers[e.i], e);
      && (InConstructor(b') ==> InConstructor(b))
      && (Counted(b') && !Counted(b) ==> InConstructor(b) && !InConstructor(b'))
  {}

  lemma InvOther(c: Config, s: State, e: Event)
    requires Sensible(c) && Inv(c, s) && Enabled(c, s, e) && !e.Begin? && !e.Skip?
    ensures Inv(c, Step(c, s, e))
  {
    var b, b' := s.buffers[e.i], BufferAfter(s.buffers[e.i], e);
    BufferStep(c, s, e);
    SumsUpdate(s.buffers, e.i, b');
    CounterExact(c, s, e);
    ConstructorLeaves(c, s, e);
    hide CountedSize, PendingSize, PendingCount, BufferOk, CounterAfter, BufferAfter, Enabled, InConstructor, Counted,
      PinnedAfter;
    assert forall i :: 0 <= i < |s.buffers| && i != e.i ==> s.buffers[e.i := b'][i] == s.buffers[i];
  }

  lemma InvStep(c: Config, s: State, e: Event)
    requires Sensible(c) && Inv(c, s) && Enabled(c, s, e)
    ensures Inv(c, Step(c, s, e))
  {
    hide Inv, Enabled, Step;
    if e.Begin? {
      InvBegin(c, s, e.addr, e.size);
    } else if e.Skip? {
      InvSkip(c, s, e.addr, e.size);
    } else {
      InvOther(c, s, e);
    }
  }

  lemma {:induction false} InvRunFrom(c: Config, s: State, es: seq<Event>)
    requires Sensible(c) && Inv(c, s) && RunFrom(c, s, es).Some?
    ensures Inv(c, RunFrom(c, s, es).value)
    decreases |es|
  {
    hide Inv, Step, Enabled;
    if es != [] {
      var before := es[..|es| - 1];
      InvRunFrom(c, s, before);
      InvStep(c, RunFrom(c, s, before).value, es[|es| - 1]);
    }
  }

  /** What holds of every buffer needs no bound on the counter. */
  ghost predicate BuffersOk(c: Config, s: State) {
    forall i :: 0 <= i < |s.buffers| ==> BufferOk(c, s.buffers[i])
  }

  lemma BuffersStep(c: Config, s: State, e: Event)
    requires BuffersOk(c, s) && Enabled(c, s, e)
    ensures BuffersOk(c, Step(c, s, e))
  {
    hide Fresh, PendingCount, PagesOf;
    if !e.Begin? && !e.Skip? {
      BufferStep(c, s, e);
      hide BufferOk, BufferAfter, CounterAfter, Enabled;
      var t := Step(c, s, e);
      assert forall i :: 0 <= i < |s.buffers| && i != e.i ==> t.buffers[i] == s.buffers[i];
    }
  }

  lemma {:induction false} BuffersRun(c: Config, es: seq<Event>)
    requires Run(c, es).Some?
    ensures BuffersOk(c, Run(c, es).value)
    decreases |es|
  {
    hide Step, Enabled;
    if es != [] {
      hide BuffersOk;
      BuffersRun(c, es[..|es| - 1]);
      BuffersStep(c, Run(c, es[..|es| - 1]).value, es[|es| - 1]);
    }
  }

  lemma InvRun(c: Config, es: seq<Event>)
    requires Sensible(c) && Run(c, es).Some?
    ensures Inv(c, Run(c, es).value)
  {
    hide Inv, RunFrom;
    InvInit(c);
    InvRunFrom(c, INIT, es);
  }

  // ----- what the invariant gives over every interleaving ---------------------------------------------------

  /** In every reachable state the counter is the total size of the buffers between their fetch_add and
      fetch_sub, and exceeds the threshold by at most one buffer for each constructor in flight. */
  lemma BudgetSafety(c: Config, es: seq<Event>)
    requires Sensible(c) && Run(c, es).Some?
    ensures var s := Run(c, es).value;
      && s.counter == CountedSize(s.buffers)
      && s.counter <= c.threshold + c.inFlight * c.maxSize
  {
    hide Run, CountedSize;
    InvRun(c, es);
  }

  /** No fetch_add overflows and no fetch_sub takes the counter below zero. */
  lemma CounterNeverWraps(c: Config, es: seq<Event>, e: Event)
    requires Sensible(c) && Run(c, es).Some? && Enabled(c, Run(c, es).value, e)
    ensures var s := Run(c, es).value; var s' := Step(c, s, e);
      && (e.Count? ==> s'.counter == s.counter + Size(s.buffers[e.i]))
      && (e.Uncount? ==> s'.counter == s.counter - Size(s.buffers[e.i]))
  {
    hide Run, CounterAfter;
    InvRun(c, es);
    if e.Count? || e.Uncount? {
      CounterExact(c, Run(c, es).value, e);
    }
  }

  /** When a buffer is unlocked every byte of that buffer is zero. */
  lemma UnlockedBufferIsZero(c: Config, es: seq<Event>, i: nat)
    requires Run(c, es).Some? && Enabled(c, Run(c, es).value, Unpin(i))
    ensures Run(c, es).value.buffers[i].bytes == ZeroBytes(Size(Run(c, es).value.buffers[i]))
  {
    hide Run;
    BuffersRun(c, es);
    assert BufferOk(c, Run(c, es).value.buffers[i]);
  }

  /** Buffers in use never overlap. */
  ghost predicate Apart(x: Buffer, y: Buffer) {
    x.phase.Gone? || y.phase.Gone? || x.addr + Size(x) <= y.addr || y.addr + Size(y) <= x.addr
  }

  ghost predicate AllApart(s: State) {
    forall i, j :: 0 <= i < j < |s.buffers| ==> Apart(s.buffers[i], s.buffers[j])
  }

  /** No step moves or resizes a buffer or brings one back. */
  lemma StaysPut(c: Config, s: State, e: Event)
    requires Enabled(c, s, e) && !e.Begin? && !e.Skip?
    ensures var b, b' := s.buffers[e.i], BufferAfter(s.buffers[e.i], e);
      b'.addr == b.addr && Size(b') == Size(b) && (b.phase.Gone? ==> b'.phase.Gone?)
  {}

  lemma ApartStep(c: Config, s: State, e: Event)
    requires AllApart(s) && Enabled(c, s, e)
    ensures AllApart(Step(c, s, e))
  {
    hide PendingCount, PagesOf;
    if !e.Begin? && !e.Skip? {
      StaysPut(c, s, e);
      hide BufferAfter, CounterAfter, Enabled;
      var t := Step(c, s, e);
      assert forall i :: 0 <= i < |s.buffers| && i != e.i ==> t.buffers[i] == s.buffers[i];
    }
  }

  lemma {:induction false} BuffersDisjoint(c: Config, es: seq<Event>)
    requires Run(c, es).Some?
    ensures AllApart(Run(c, es).value)
    decreases |es|
  {
    hide Step, Enabled;
    if es != [] {
      hide AllApart;
      BuffersDisjoint(c, es[..|es| - 1]);
      ApartStep(c, Run(c, es[..|es| - 1]).value, es[|es| - 1]);
    }
  }

  /** A page holds the addresses from its number times the page size up to the next page. */
  lemma PageBounds(c: Config, address: nat)
    ensures PageOf(c, address) * c.pageSize <= address < (PageOf(c, address) + 1) * c.pageSize
  {
    assert address == c.pageSize * (address / c.pageSize) + address % c.pageSize;
  }

  /** Once every buffer is gone the counter is back where it started. */
  lemma CounterReturns(c: Config, es: seq<Event>)
    requires Sensible(c) && Run(c, es).Some?
    requires forall i :: 0 <= i < |Run(c, es).value.buffers| ==> Run(c, es).value.buffers[i].phase.Gone?
    ensures Run(c, es).value.counter == INIT.counter
  {
    hide Run;
    InvRun(c, es);
    GoneCountsNothing(Run(c, es).value.buffers);
  }

  lemma {:induction false} GoneCountsNothing(bs: seq<Buffer>)
    requires forall i :: 0 <= i < |bs| ==> bs[i].phase.Gone?
    ensures CountedSize(bs) == 0
  {
    if bs != [] {
      GoneCountsNothing(bs[1..]);
    }
  }

  // ----- the bound is attained ----------------------------------------------------------------------------------

  /** Buffers one after the other: `threshold` buffers of one byte, then buffers of the largest size. */
  function CrowdAddr(c: Config, i: nat): nat {
    if i <= c.threshold then i else c.threshold + (i - c.threshold) * c.maxSize
  }

  function CrowdSize(c: Config, i: nat): nat {
    if i < c.threshold then 1 else c.maxSize
  }

  /** The first `a` are counted, the others have passed the check. */
  function CrowdMember(c: Config, a: nat, i: nat): Buffer {
    Buffer(CrowdAddr(c, i), ZeroBytes(CrowdSize(c, i)), if i < a then Live(true) else Checked)
  }

  function CrowdBuffers(c: Config, a: nat, b: nat): seq<Buffer> {
    seq(a + b, i requires 0 <= i => CrowdMember(c, a, i))
  }

  predicate IsCrowd(c: Config, s: State, a: nat, b: nat) {
    s.counter == CrowdAddr(c, a) && s.buffers == CrowdBuffers(c, a, b)
  }

  ghost predicate ReachesCrowd(c: Config, es: seq<Event>, a: nat, b: nat) {
    Run(c, es).Some? && IsCrowd(c, Run(c, es).value, a, b)
  }

  lemma CrowdStep(c: Config, i: nat)
    ensures CrowdAddr(c, i) + CrowdSize(c, i) == CrowdAddr(c, i + 1)
  {
    if i >= c.threshold {
      assert (i + 1 - c.threshold) * c.maxSize == (i - c.threshold) * c.maxSize + c.maxSize;
    }
  }

  lemma {:induction false} CrowdMonotone(c: Config, i: nat, j: nat)
    requires i <= j
    ensures CrowdAddr(c, i) <= CrowdAddr(c, j)
    decreases j - i
  {
    hide CrowdAddr, CrowdSize;
    if i < j {
      CrowdStep(c, j - 1);
      CrowdMonotone(c, i, j - 1);
    }
  }

  lemma {:induction false} CrowdPending(c: Config, a: nat, b: nat)
    ensures PendingCount(CrowdBuffers(c, a, b)) == b
    decreases a + b
  {
    hide CrowdAddr, CrowdSize;
    var bs := CrowdBuffers(c, a, b);
    if b > 0 {
      CrowdPending(c, a, b - 1);
      SumsAppend(CrowdBuffers(c, a, b - 1), CrowdMember(c, a, a + b - 1));
      assert bs == CrowdBuffers(c, a, b - 1) + [CrowdMember(c, a, a + b - 1)];
    } else if a > 0 {
      CrowdPending(c, a - 1, 0);
      SumsAppend(CrowdBuffers(c, a - 1, 0), CrowdMember(c, a, a - 1));
      assert bs == CrowdBuffers(c, a - 1, 0) + [CrowdMember(c, a, a - 1)];
    }
  }

  lemma CrowdFresh(c: Config, a: nat, b: nat)
    ensures Fresh(CrowdBuffers(c, a, b), CrowdAddr(c, a + b), CrowdSize(c, a + b))
  {
    hide CrowdAddr, CrowdSize;
    forall i | 0 <= i < a + b
      ensures CrowdAddr(c, i) + CrowdSize(c, i) <= CrowdAddr(c, a + b)
    {
      CrowdStep(c, i);
      CrowdMonotone(c, i + 1, a + b);
    }
  }

  lemma Extend(c: Config, s: State, es: seq<Event>, e: Event)
    requires RunFrom(c, s, es).Some? && Enabled(c, RunFrom(c, s, es).value, e)
    ensures RunFrom(c, s, es + [e]) == Some(Step(c, RunFrom(c, s, es).value, e))
  {
    hide Enabled, Step;
    assert (es + [e])[..|es|] == es;
  }

  lemma CrowdJoins(c: Config, es: seq<Event>, a: nat, b: nat) returns (es': seq<Event>)
    requires ReachesCrowd(c, es, a, b) && a <= c.threshold && b < c.inFlight && c.maxSize >= 1
    ensures ReachesCrowd(c, es', a, b + 1)
  {
    hide RunFrom, Fresh, PendingCount;
    CrowdPending(c, a, b);
    CrowdFresh(c, a, b);
    assert CrowdAddr(c, a) == a && CrowdSize(c, a + b) <= c.maxSize;
    hide CrowdAddr, CrowdSize;
    var e := Begin(CrowdAddr(c, a + b), CrowdSize(c, a + b));
    Extend(c, INIT, es, e);
    es' := es + [e];
    assert CrowdBuffers(c, a, b) + [CrowdMember(c, a, a + b)] == CrowdBuffers(c, a, b + 1);
  }

  lemma CrowdAdmits(c: Config, es: seq<Event>, a: nat, b: nat) returns (es': seq<Event>)
    requires ReachesCrowd(c, es, a, b + 1) && CrowdAddr(c, a + 1) < TWO_64
    ensures ReachesCrowd(c, es', a + 1, b)
  {
    hide RunFrom, PagesOf, CrowdAddr, CrowdSize;
    var s := Run(c, es).value;
    assert s.buffers[a] == CrowdMember(c, a, a);
    Extend(c, INIT, es, Pin(a));
    var s1 := Step(c, s, Pin(a));
    Extend(c, INIT, es + [Pin(a)], Count(a));
    var s2 := Step(c, s1, Count(a));
    assert s2.buffers == CrowdBuffers(c, a + 1, b);
    CrowdStep(c, a);
    assert Size(s1.buffers[a]) == CrowdSize(c, a);
    WordFits(CrowdAddr(c, a + 1));
    assert s2.counter == CounterAfter(s1, Count(a), CrowdSize(c, a));
    es' := es + [Pin(a)] + [Count(a)];
  }

  lemma WordFits(n: nat)
    requires n < TWO_64
    ensures n % TWO_64 == n
  {}

  /** The bound is tight for every threshold: some interleaving reaches it.  In particular the counter does pass the
      threshold. */
  lemma BoundAttained(c: Config) returns (es: seq<Event>)
    requires Sensible(c) && c.inFlight >= 1 && c.maxSize >= 1
    ensures Run(c, es).Some? && Run(c, es).value.counter == c.threshold + c.inFlight * c.maxSize
  {
    var q, k := c.threshold, c.inFlight;
    assert CrowdAddr(c, q + k) == q + k * c.maxSize;
    hide Run, CrowdBuffers, CrowdAddr;
    es := [];
    CrowdEmpty(c);
    for a := 0 to q
      invariant ReachesCrowd(c, es, a, 0)
    {
      CrowdMonotone(c, a + 1, q + k);
      es := CrowdJoins(c, es, a, 0);
      es := CrowdAdmits(c, es, a, 0);
    }
    for b := 0 to k
      invariant ReachesCrowd(c, es, q, b)
    {
      es := CrowdJoins(c, es, q, b);
    }
    for d := 0 to k
      invariant ReachesCrowd(c, es, q + d, k - d)
    {
      CrowdMonotone(c, q + d + 1, q + k);
      es := CrowdAdmits(c, es, q + d, k - d - 1);
    }
  }

  lemma CrowdEmpty(c: Config)
    ensures ReachesCrowd(c, [], 0, 0)
  {
    assert CrowdBuffers(c, 0, 0) == [];
  }
}
