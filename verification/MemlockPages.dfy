/** Pages of the locked buffers (`src/layers/l0_memlock.rs:446-450`): "if `locked` is true, the page range is
    currently locked".  munlock acts on whole pages and locks do not add up, so a drop unlocks every other
    buffer on the same pages; the lemmas say exactly when that happens. */
module MemlockPages {
  import opened Bytes
  import opened Wrappers
  import opened Memlock

  /** The `locked` flag (a local variable until the constructor ends) is true. */
  predicate HoldsLock(b: Buffer) {
    b.phase.Pinned? || ((b.phase.Live? || b.phase.Wiping?) && b.phase.locked)
  }

  /** Holds a lock now, or has passed the check and may still get one. */
  predicate MayHoldLock(b: Buffer) {
    b.phase.Checked? || HoldsLock(b)
  }

  ghost predicate SharePage(c: Config, x: Buffer, y: Buffer) {
    !(PagesOf(c, x) !! PagesOf(c, y))
  }

  /** The documented invariant, for every buffer. */
  ghost predicate PagesLocked(c: Config, s: State) {
    forall j :: 0 <= j < |s.buffers| && HoldsLock(s.buffers[j]) ==> PagesOf(c, s.buffers[j]) <= s.pinned
  }

  /** No nonzero byte of a locked buffer lies on a page that may be swapped out. */
  ghost predicate SecretsPinned(c: Config, s: State) {
    forall j, k :: 0 <= j < |s.buffers| && 0 <= k < Size(s.buffers[j]) && HoldsLock(s.buffers[j]) ==>
                     s.buffers[j].bytes[k] == 0 || PageOf(c, s.buffers[j].addr + k) in s.pinned
  }

  /** If the step is a munlock, no other buffer with `locked` set has a byte on the pages it unlocks. */
  ghost predicate UnlocksOnlyItsOwn(c: Config, s: State, e: Event) {
    e.Unpin? && e.i < |s.buffers| ==>
      forall j :: 0 <= j < |s.buffers| && j != e.i && HoldsLock(s.buffers[j]) ==>
        !SharePage(c, s.buffers[j], s.buffers[e.i])
  }

  /** No two buffers that hold or may still get a lock have a page in common. */
  ghost predicate Separated(c: Config, s: State) {
    forall i, j :: 0 <= i < |s.buffers| && 0 <= j < |s.buffers| && i != j &&
                   MayHoldLock(s.buffers[i]) && MayHoldLock(s.buffers[j]) ==>
                   !SharePage(c, s.buffers[i], s.buffers[j])
  }

  // ----- one step --------------------------------------------------------------------------------------

  /** A step moves no buffer and changes no size; only mlock gives a lock. */
  lemma StepBuffer(c: Config, s: State, e: Event)
    requires Enabled(c, s, e) && !e.Begin? && !e.Skip?
    ensures var b, b' := s.buffers[e.i], BufferAfter(s.buffers[e.i], e);
      && b'.addr == b.addr && Size(b') == Size(b) && PagesOf(c, b') == PagesOf(c, b)
      && (HoldsLock(b') ==> HoldsLock(b) || e.Pin?)
      && (MayHoldLock(b') ==> MayHoldLock(b))
      && (e.Unpin? ==> !HoldsLock(b'))
  {}

  lemma StepOther(c: Config, s: State, e: Event)
    requires Enabled(c, s, e) && !e.Begin? && !e.Skip? && PagesLocked(c, s)
    ensures PagesLocked(c, Step(c, s, e)) <==> UnlocksOnlyItsOwn(c, s, e)
  {
    StepBuffer(c, s, e);
    var s' := Step(c, s, e);
    hide Enabled, BufferAfter, CounterAfter, PagesOf, HoldsLock;
    assert forall j :: 0 <= j < |s.buffers| && j != e.i ==> s'.buffers[j] == s.buffers[j];
    assert s'.buffers[e.i] == BufferAfter(s.buffers[e.i], e);
    if e.Unpin? {
      if PagesLocked(c, s') {
        forall j | 0 <= j < |s.buffers| && j != e.i && HoldsLock(s.buffers[j])
          ensures !SharePage(c, s.buffers[j], s.buffers[e.i])
        {
          assert PagesOf(c, s'.buffers[j]) <= s'.pinned;
        }
      }
      if UnlocksOnlyItsOwn(c, s, e) {
        forall j | 0 <= j < |s'.buffers| && HoldsLock(s'.buffers[j])
          ensures PagesOf(c, s'.buffers[j]) <= s'.pinned
        {
          assert j != e.i && !SharePage(c, s.buffers[j], s.buffers[e.i]);
        }
      }
    }
  }

  /** While the documented invariant holds, the next step keeps it if and only if it is not a munlock of a
      page on which another locked buffer lies. */
  lemma StepKeepsPagesIff(c: Config, s: State, e: Event)
    requires Enabled(c, s, e) && PagesLocked(c, s)
    ensures PagesLocked(c, Step(c, s, e)) <==> UnlocksOnlyItsOwn(c, s, e)
  {
    if e.Begin? || e.Skip? {
      hide PagesOf, Fresh, PendingCount;
    } else {
      hide Enabled, Step, PagesLocked, UnlocksOnlyItsOwn;
      StepOther(c, s, e);
    }
  }

  // ----- whole runs ----------------------------------------------------------------------------------------

  /** The state after the first n steps of a run. */
  function After(c: Config, s: State, es: seq<Event>, n: nat): Option<State>
    requires n <= |es|
  {
    RunFrom(c, s, es[..n])
  }

  lemma {:induction false} PrefixRuns(c: Config, s: State, es: seq<Event>, n: nat)
    requires n <= |es| && RunFrom(c, s, es).Some?
    ensures After(c, s, es, n).Some?
    decreases |es| - n
  {
    hide Enabled, Step;
    if n == |es| {
      assert es[..n] == es;
    } else {
      PrefixRuns(c, s, es, n + 1);
      assert es[..n + 1][..n] == es[..n];
    }
  }

  lemma PrefixStep(c: Config, s: State, es: seq<Event>, n: nat)
    requires n < |es| && RunFrom(c, s, es).Some?
    ensures After(c, s, es, n).Some? && After(c, s, es, n + 1).Some?
    ensures Enabled(c, After(c, s, es, n).value, es[n])
    ensures After(c, s, es, n + 1).value == Step(c, After(c, s, es, n).value, es[n])
  {
    hide Enabled, Step;
    PrefixRuns(c, s, es, n);
    PrefixRuns(c, s, es, n + 1);
    assert es[..n + 1][..n] == es[..n];
  }

  ghost predicate LockedAt(c: Config, s: State, es: seq<Event>, n: nat)
    requires n <= |es|
  {
    After(c, s, es, n).Some? && PagesLocked(c, After(c, s, es, n).value)
  }

  ghost predicate HarmlessAt(c: Config, s: State, es: seq<Event>, n: nat)
    requires n < |es|
  {
    After(c, s, es, n).Some? && UnlocksOnlyItsOwn(c, After(c, s, es, n).value, es[n])
  }

  lemma {:induction false} LockedUpTo(c: Config, es: seq<Event>, n: nat)
    requires n <= |es| && Run(c, es).Some?
    requires forall m :: 0 <= m < n ==> HarmlessAt(c, INIT, es, m)
    ensures LockedAt(c, INIT, es, n)
  {
    hide Enabled, Step, RunFrom, PagesLocked, UnlocksOnlyItsOwn;
    if n == 0 {
      StartLocked(c, es);
    } else {
      LockedUpTo(c, es, n - 1);
      PrefixStep(c, INIT, es, n - 1);
      assert HarmlessAt(c, INIT, es, n - 1);
      StepKeepsPagesIff(c, After(c, INIT, es, n - 1).value, es[n - 1]);
    }
  }

  lemma StartLocked(c: Config, es: seq<Event>)
    ensures LockedAt(c, INIT, es, 0)
  {}

  /** Over any interleaving: every buffer with `locked` set is on pinned pages at every moment, if and only if no
      munlock of the run hits a page of another buffer with `locked` set. */
  lemma RunKeepsPagesIff(c: Config, es: seq<Event>)
    requires Run(c, es).Some?
    ensures (forall n :: 0 <= n <= |es| ==> LockedAt(c, INIT, es, n)) <==>
            (forall n :: 0 <= n < |es| ==> HarmlessAt(c, INIT, es, n))
  {
    hide Enabled, Step, RunFrom, PagesLocked, UnlocksOnlyItsOwn;
    if forall n :: 0 <= n <= |es| ==> LockedAt(c, INIT, es, n) {
      forall n | 0 <= n < |es|
        ensures HarmlessAt(c, INIT, es, n)
      {
        PrefixStep(c, INIT, es, n);
        assert LockedAt(c, INIT, es, n) && LockedAt(c, INIT, es, n + 1);
        StepKeepsPagesIff(c, After(c, INIT, es, n).value, es[n]);
      }
    }
    if forall n :: 0 <= n < |es| ==> HarmlessAt(c, INIT, es, n) {
      forall n | 0 <= n <= |es|
        ensures LockedAt(c, INIT, es, n)
      {
        LockedUpTo(c, es, n);
      }
    }
  }

  // ----- every continuation of a state ------------------------------------------------------------------------

  /** No new buffer is created. */
  predicate NoAllocation(es: seq<Event>) {
    forall k :: 0 <= k < |es| ==> !es[k].Begin? && !es[k].Skip?
  }

  /** Whatever the threads do with the buffers they have, the documented invariant holds. */
  ghost predicate StaysLocked(c: Config, s: State) {
    forall es :: NoAllocation(es) && RunFrom(c, s, es).Some? ==> PagesLocked(c, RunFrom(c, s, es).value)
  }

  lemma SeparatedStep(c: Config, s: State, e: Event)
    requires Enabled(c, s, e) && !e.Begin? && !e.Skip? && Separated(c, s)
    ensures Separated(c, Step(c, s, e))
  {
    StepBuffer(c, s, e);
    var s' := Step(c, s, e);
    hide Enabled, BufferAfter, CounterAfter, PagesOf, MayHoldLock;
    assert forall j :: 0 <= j < |s.buffers| && j != e.i ==> s'.buffers[j] == s.buffers[j];
    assert s'.buffers[e.i] == BufferAfter(s.buffers[e.i], e);
  }

  lemma SeparatedUnlocks(c: Config, s: State, e: Event)
    requires Enabled(c, s, e) && Separated(c, s)
    ensures UnlocksOnlyItsOwn(c, s, e)
  {
    hide PagesOf;
    if e.Unpin? {
      assert MayHoldLock(s.buffers[e.i]);
      hide Enabled;
    }
  }

  lemma {:induction false} SeparatedRun(c: Config, s: State, es: seq<Event>)
    requires Separated(c, s) && PagesLocked(c, s) && NoAllocation(es) && RunFrom(c, s, es).Some?
    ensures Separated(c, RunFrom(c, s, es).value) && PagesLocked(c, RunFrom(c, s, es).value)
    decreases |es|
  {
    hide Enabled, Step, PagesLocked, Separated, UnlocksOnlyItsOwn;
    if es != [] {
      var before, e := es[..|es| - 1], es[|es| - 1];
      SeparatedRun(c, s, before);
      var t := RunFrom(c, s, before).value;
      SeparatedStep(c, t, e);
      SeparatedUnlocks(c, t, e);
      StepKeepsPagesIff(c, t, e);
    }
  }

  // ----- driving one buffer to its munlock ------------------------------------------------------------------------

  /** What one thread does next on the way from the check to the munlock of its buffer. */
  function Forward(i: nat, b: Buffer): Event {
    match b.phase
    case Checked => Pin(i)
    case Pinned => Count(i)
    case Live(_) => StartDrop(i)
    case Wiping(pass, next, _) =>
      if next < Size(b) then WipeByte(i) else if pass < 2 then NextPass(i) else Unpin(i)
    case _ => Uncount(i)
  }

  /** Steps left until the munlock. */
  function Distance(b: Buffer): int {
    match b.phase
    case Checked => 3 * Size(b) + 5
    case Pinned => 3 * Size(b) + 4
    case Live(_) => 3 * Size(b) + 3
    case Wiping(pass, next, _) => (2 - pass) * (Size(b) + 1) + Size(b) - next
    case _ => 0
  }

  predicate AtUnlock(b: Buffer) {
    b.phase == Wiping(2, Size(b), true)
  }

  lemma ForwardEnabled(c: Config, s: State, i: nat)
    requires i < |s.buffers| && MayHoldLock(s.buffers[i]) && BufferOk(c, s.buffers[i])
    ensures var b := s.buffers[i]; var e := Forward(i, b); var b' := BufferAfter(b, e);
      && Enabled(c, s, e) && !e.Begin? && !e.Skip? && e.i == i && Distance(b) >= 0
      && (!AtUnlock(b) ==> !e.Unpin? && MayHoldLock(b') && 0 <= Distance(b') < Distance(b))
      && (AtUnlock(b) ==> e == Unpin(i))
  {
    var b := s.buffers[i];
    if b.phase.Wiping? {
      assert b.phase.pass == 0 || b.phase.pass == 1 || b.phase.pass == 2;
    }
  }

  /** The same buffers except that buffer i has moved on, and at least the same pages. */
  ghost predicate OnlyMoved(c: Config, s: State, t: State, i: nat) {
    && |t.buffers| == |s.buffers| && i < |s.buffers|
    && PagesOf(c, t.buffers[i]) == PagesOf(c, s.buffers[i])
    && (forall j :: 0 <= j < |s.buffers| && j != i ==> t.buffers[j] == s.buffers[j])
    && s.pinned <= t.pinned
  }

  lemma ForwardStep(c: Config, s: State, i: nat)
    requires i < |s.buffers| && MayHoldLock(s.buffers[i]) && BufferOk(c, s.buffers[i])
    requires !AtUnlock(s.buffers[i])
    ensures var b := s.buffers[i]; var e := Forward(i, b);
      && Enabled(c, s, e) && !e.Begin? && !e.Skip?
      && var t := Step(c, s, e);
         && OnlyMoved(c, s, t, i) && MayHoldLock(t.buffers[i]) && BufferOk(c, t.buffers[i])
         && Distance(s.buffers[i]) > Distance(t.buffers[i]) >= 0
  {
    var b := s.buffers[i];
    var e := Forward(i, b);
    ForwardEnabled(c, s, i);
    BufferStep(c, s, e);
    StepBuffer(c, s, e);
    hide Enabled, Forward, BufferAfter, CounterAfter, PagesOf, MayHoldLock, BufferOk, Distance, AtUnlock;
    assert Step(c, s, e).buffers[i] == BufferAfter(b, e);
  }

  lemma {:induction false} DriveToUnlock(c: Config, s: State, es: seq<Event>, i: nat) returns (es': seq<Event>)
    requires NoAllocation(es) && RunFrom(c, s, es).Some?
    requires var t := RunFrom(c, s, es).value;
      i < |t.buffers| && MayHoldLock(t.buffers[i]) && BufferOk(c, t.buffers[i])
    ensures NoAllocation(es') && RunFrom(c, s, es').Some?
    ensures var t, t' := RunFrom(c, s, es).value, RunFrom(c, s, es').value;
      OnlyMoved(c, t, t', i) && AtUnlock(t'.buffers[i]) && Enabled(c, t', Unpin(i))
    decreases var d := Distance(RunFrom(c, s, es).value.buffers[i]); if d < 0 then 0 else d
  {
    hide RunFrom, Step, MayHoldLock, BufferOk, Distance, PagesOf, Enabled;
    var t := RunFrom(c, s, es).value;
    if AtUnlock(t.buffers[i]) {
      ForwardEnabled(c, t, i);
      es' := es;
    } else {
      ForwardStep(c, t, i);
      var e := Forward(i, t.buffers[i]);
      Extend(c, s, es, e);
      es' := DriveToUnlock(c, s, es + [e], i);
    }
  }

  /** The munlock of buffer i leaves a locked buffer j on the same page without its pin. */
  lemma UnlockHitsOther(c: Config, s: State, es: seq<Event>, i: nat, j: nat) returns (es': seq<Event>)
    requires NoAllocation(es) && RunFrom(c, s, es).Some?
    requires var t := RunFrom(c, s, es).value;
      && i < |t.buffers| && MayHoldLock(t.buffers[i]) && BufferOk(c, t.buffers[i])
      && j < |t.buffers| && j != i && HoldsLock(t.buffers[j]) && SharePage(c, t.buffers[j], t.buffers[i])
    ensures NoAllocation(es') && RunFrom(c, s, es').Some?
    ensures var t, t' := RunFrom(c, s, es).value, RunFrom(c, s, es').value;
      && |t'.buffers| == |t.buffers| && t'.buffers[j] == t.buffers[j]
      && t'.pinned !! PagesOf(c, t.buffers[i])
      && !PagesLocked(c, t')
  {
    hide RunFrom, MayHoldLock, BufferOk, PagesOf, Enabled, HoldsLock, BufferAfter, CounterAfter;
    var es1 := DriveToUnlock(c, s, es, i);
    var t1 := RunFrom(c, s, es1).value;
    Extend(c, s, es1, Unpin(i));
    es' := es1 + [Unpin(i)];
    var t' := Step(c, t1, Unpin(i));
    assert t'.buffers[j] == t1.buffers[j];
    assert HoldsLock(t'.buffers[j]) && !(PagesOf(c, t'.buffers[j]) <= t'.pinned);
  }

  /** Gets buffer j its lock, if it is still waiting for it. */
  lemma TakeLock(c: Config, s: State, i: nat, j: nat) returns (es: seq<Event>)
    requires i < |s.buffers| && j < |s.buffers| && i != j && MayHoldLock(s.buffers[j])
    ensures NoAllocation(es) && RunFrom(c, s, es).Some?
    ensures var t := RunFrom(c, s, es).value;
      && |t.buffers| == |s.buffers| && t.buffers[i] == s.buffers[i] && HoldsLock(t.buffers[j])
      && PagesOf(c, t.buffers[j]) == PagesOf(c, s.buffers[j])
  {
    es := [];
    assert RunFrom(c, s, []) == Some(s);
    if s.buffers[j].phase.Checked? {
      StepBuffer(c, s, Pin(j));
      Extend(c, s, [], Pin(j));
      hide RunFrom, PagesOf;
      es := [] + [Pin(j)];
    }
  }

  lemma SharedPageFails(c: Config, s: State, i: nat, j: nat) returns (es: seq<Event>)
    requires BuffersOk(c, s) && i < |s.buffers| && j < |s.buffers| && i != j
    requires MayHoldLock(s.buffers[i]) && MayHoldLock(s.buffers[j]) && SharePage(c, s.buffers[i], s.buffers[j])
    ensures NoAllocation(es) && RunFrom(c, s, es).Some? && !PagesLocked(c, RunFrom(c, s, es).value)
  {
    var es1 := TakeLock(c, s, i, j);
    assert BufferOk(c, s.buffers[i]);
    hide RunFrom, MayHoldLock, BufferOk, PagesOf, HoldsLock, PagesLocked, BuffersOk;
    es := UnlockHitsOther(c, s, es1, i, j);
  }

  /** In every reachable state: whatever the threads go on to do with their buffers, every buffer with `locked`
      set stays on pinned pages, if and only if that is so now and no two buffers that hold or may still get a
      lock have a page in common. */
  lemma StaysLockedIff(c: Config, es: seq<Event>)
    requires Run(c, es).Some?
    ensures var s := Run(c, es).value;
      StaysLocked(c, s) <==> PagesLocked(c, s) && Separated(c, s)
  {
    BuffersRun(c, es);
    var s := Run(c, es).value;
    hide Run, BuffersOk, PagesLocked;
    if StaysLocked(c, s) {
      assert NoAllocation([]) && RunFrom(c, s, []) == Some(s);
      hide RunFrom, MayHoldLock, PagesOf;
      forall i, j | 0 <= i < |s.buffers| && 0 <= j < |s.buffers| && i != j &&
                    MayHoldLock(s.buffers[i]) && MayHoldLock(s.buffers[j])
        ensures !SharePage(c, s.buffers[i], s.buffers[j])
      {
        if SharePage(c, s.buffers[i], s.buffers[j]) {
          var bad := SharedPageFails(c, s, i, j);
        }
      }
    }
    if PagesLocked(c, s) && Separated(c, s) {
      hide RunFrom, Separated;
      forall t | NoAllocation(t) && RunFrom(c, s, t).Some?
        ensures PagesLocked(c, RunFrom(c, s, t).value)
      {
        SeparatedRun(c, s, t);
      }
    }
  }

  ghost predicate StaysLockedAt(c: Config, es: seq<Event>, n: nat)
    requires n <= |es|
  {
    After(c, INIT, es, n).Some? && StaysLocked(c, After(c, INIT, es, n).value)
  }

  ghost predicate SeparatedAt(c: Config, es: seq<Event>, n: nat)
    requires n <= |es|
  {
    After(c, INIT, es, n).Some? && Separated(c, After(c, INIT, es, n).value)
  }

  lemma SeparatedSoFar(c: Config, es: seq<Event>, n: nat)
    requires n <= |es| && Run(c, es).Some?
    requires forall m :: 0 <= m < n ==> SeparatedAt(c, es, m)
    ensures LockedAt(c, INIT, es, n)
  {
    hide Enabled, Step, RunFrom, Separated, UnlocksOnlyItsOwn, PagesLocked;
    forall m | 0 <= m < n
      ensures HarmlessAt(c, INIT, es, m)
    {
      assert SeparatedAt(c, es, m);
      PrefixStep(c, INIT, es, m);
      SeparatedUnlocks(c, After(c, INIT, es, m).value, es[m]);
    }
    LockedUpTo(c, es, n);
  }

  /** The exact condition over any interleaving, new buffers included: the documented invariant can at no moment be
      broken by what the threads do next with their buffers, if and only if at no moment two buffers that hold or
      may still get a lock have a page in common. */
  lemma AlwaysStaysLockedIff(c: Config, es: seq<Event>)
    requires Run(c, es).Some?
    ensures (forall n :: 0 <= n <= |es| ==> StaysLockedAt(c, es, n)) <==>
            (forall n :: 0 <= n <= |es| ==> SeparatedAt(c, es, n))
  {
    hide RunFrom, Separated, PagesLocked, StaysLocked;
    forall n | 0 <= n <= |es|
      ensures After(c, INIT, es, n).Some?
      ensures var s := After(c, INIT, es, n).value; StaysLocked(c, s) <==> PagesLocked(c, s) && Separated(c, s)
    {
      PrefixRuns(c, INIT, es, n);
      StaysLockedIff(c, es[..n]);
    }
    if forall n :: 0 <= n <= |es| ==> SeparatedAt(c, es, n) {
      forall n | 0 <= n <= |es|
        ensures StaysLockedAt(c, es, n)
      {
        SeparatedSoFar(c, es, n);
        assert SeparatedAt(c, es, n);
      }
    }
    if forall n :: 0 <= n <= |es| ==> StaysLockedAt(c, es, n) {
      forall n | 0 <= n <= |es|
        ensures SeparatedAt(c, es, n)
      {
        assert StaysLockedAt(c, es, n);
      }
    }
  }

  /** Pinned pages hold the secrets: under the documented invariant no nonzero byte of a locked buffer can be
      swapped out. */
  lemma LockedPagesHoldSecrets(c: Config, s: State)
    requires PagesLocked(c, s)
    ensures SecretsPinned(c, s)
  {
    forall j, k | 0 <= j < |s.buffers| && 0 <= k < Size(s.buffers[j]) && HoldsLock(s.buffers[j])
      ensures s.buffers[j].bytes[k] == 0 || PageOf(c, s.buffers[j].addr + k) in s.pinned
    {
      assert PageOf(c, s.buffers[j].addr + k) in PagesOf(c, s.buffers[j]);
    }
  }

  // ----- the failing run --------------------------------------------------------------------------------------------

  /** Two 64-byte buffers side by side on one 4096-byte page. */
  const SHARED := Config(65536, 2, 64, 4096)
  const FIRST := Buffer(0, ZeroBytes(64), Live(true))
  const SECOND := Buffer(64, ZeroBytes(64)[0 := 0x5A], Live(true))

  lemma {:induction false} RunConcat(c: Config, s: State, xs: seq<Event>, ys: seq<Event>)
    requires RunFrom(c, s, xs).Some?
    ensures RunFrom(c, s, xs + ys) == RunFrom(c, RunFrom(c, s, xs).value, ys)
    decreases |ys|
  {
    hide Enabled, Step;
    if ys == [] {
      assert xs + ys == xs;
    } else {
      RunConcat(c, s, xs, ys[..|ys| - 1]);
      assert (xs + ys)[..|xs + ys| - 1] == xs + ys[..|ys| - 1];
    }
  }

  lemma Then(c: Config, es: seq<Event>, e: Event, s: State, t: State) returns (es': seq<Event>)
    requires Run(c, es) == Some(s) && Enabled(c, s, e) && Step(c, s, e) == t
    ensures Run(c, es') == Some(t)
  {
    hide Enabled, Step, RunFrom;
    Extend(c, INIT, es, e);
    es' := es + [e];
  }

  lemma FirstPage(b: Buffer)
    requires 0 < Size(b) && b.addr + Size(b) <= 4096
    ensures PagesOf(SHARED, b) == {0}
  {
    assert PageOf(SHARED, b.addr) in PagesOf(SHARED, b);
  }

  /** Both buffers with the given phases. */
  function Pair(counter: nat, p: Phase, q: Phase, pinned: set<nat>): State {
    State(counter, [Buffer(0, ZeroBytes(64), p), Buffer(64, ZeroBytes(64), q)], pinned)
  }

  lemma OpenBoth() returns (es: seq<Event>)
    ensures Run(SHARED, es) == Some(Pair(0, Checked, Checked, {}))
  {
    var c, z := SHARED, ZeroBytes(64);
    var s1 := State(0, [Buffer(0, z, Checked)], {});
    assert RunFrom(c, INIT, []) == Some(INIT);
    hide RunFrom, ZeroBytes;
    es := Then(c, [], Begin(0, 64), INIT, s1);
    assert s1.buffers[1..] == [];
    es := Then(c, es, Begin(64, 64), s1, Pair(0, Checked, Checked, {}));
  }

  lemma LockBoth(es: seq<Event>) returns (es': seq<Event>)
    requires Run(SHARED, es) == Some(Pair(0, Checked, Checked, {}))
    ensures Run(SHARED, es') == Some(Pair(0, Pinned, Pinned, {0}))
  {
    var c := SHARED;
    var s1, s2 := Pair(0, Checked, Checked, {}), Pair(0, Pinned, Checked, {0});
    FirstPage(s1.buffers[0]);
    FirstPage(s2.buffers[1]);
    hide RunFrom, ZeroBytes, PagesOf;
    es' := Then(c, es, Pin(0), s1, s2);
    es' := Then(c, es', Pin(1), s2, Pair(0, Pinned, Pinned, {0}));
  }

  lemma CountBoth(es: seq<Event>) returns (es': seq<Event>)
    requires Run(SHARED, es) == Some(Pair(0, Pinned, Pinned, {0}))
    ensures Run(SHARED, es') == Some(Pair(128, Live(true), Live(true), {0}))
  {
    var c := SHARED;
    hide RunFrom, ZeroBytes, PagesOf;
    es' := Then(c, es, Count(0), Pair(0, Pinned, Pinned, {0}), Pair(64, Live(true), Pinned, {0}));
    es' := Then(c, es', Count(1), Pair(64, Live(true), Pinned, {0}), Pair(128, Live(true), Live(true), {0}));
  }

  /** Both buffers are checked, locked and counted, and a secret byte is written to the second. */
  lemma Opening() returns (es: seq<Event>)
    ensures Run(SHARED, es) == Some(State(128, [FIRST, SECOND], {0}))
  {
    es := OpenBoth();
    es := LockBoth(es);
    es := CountBoth(es);
    hide RunFrom, PagesOf;
    es := Then(SHARED, es, Fill(1, 0, 0x5A), Pair(128, Live(true), Live(true), {0}),
               State(128, [FIRST, SECOND], {0}));
  }

  /** The documented invariant is not kept: dropping the first buffer unlocks the page of the second, which is
      live, flagged as locked, counted, and holds a nonzero byte. */
  lemma LiveSecretOnUnpinnedPage() returns (es: seq<Event>)
    ensures Run(SHARED, es).Some?
    ensures var s := Run(SHARED, es).value;
      && |s.buffers| == 2 && s.buffers[1] == SECOND && Counted(SECOND) && SECOND.bytes[0] != 0
      && PageOf(SHARED, SECOND.addr) !in s.pinned
      && !SecretsPinned(SHARED, s)
  {
    var c, s := SHARED, State(128, [FIRST, SECOND], {0});
    var es1 := Opening();
    FirstPage(FIRST);
    FirstPage(SECOND);
    assert NoAllocation([]) && RunFrom(c, s, []) == Some(s);
    var es2 := UnlockHitsOther(c, s, [], 0, 1);
    hide RunFrom, PagesOf;
    RunConcat(c, INIT, es1, es2);
    es := es1 + es2;
    var t := Run(c, es).value;
    assert 0 !in t.pinned by {
      assert 0 in PagesOf(c, FIRST);
    }
    assert PageOf(c, t.buffers[1].addr + 0) == 0 && HoldsLock(t.buffers[1]);
  }
}
