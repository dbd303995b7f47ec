/** The tamper-evident event chain (`src/chain.rs`): the one-shot root, the streaming builder, and
    exactly which event lists share a root. */
module Chain {
  import opened Bytes
  import opened Domain
  import opened Shake256
  import opened Wrappers

  type Event = ByteString

  const ROOT_LEN := 32

  // ----- the framed stream ------------------------------------------------------------------

  /** STEP e0 STEP e1 ... */
  function Body(events: seq<Event>): ByteString {
    if events == [] then [] else CHAIN_STEP + events[0] + Body(events[1..])
  }

  function Stream(events: seq<Event>): ByteString {
    CHAIN_HEAD + Body(events)
  }

  function Root(h: Xof, events: seq<Event>): Result<ByteString> {
    if events == [] then Err else Ok(Digest(h, Stream(events), ROOT_LEN))
  }

  lemma Reassociate(x: ByteString, y: ByteString, z: ByteString)
    ensures x + (y + z) == (x + y) + z
  {}

  lemma {:induction false} BodyConcat(a: seq<Event>, b: seq<Event>)
    ensures Body(a + b) == Body(a) + Body(b)
  {
    hide CHAIN_STEP;
    if a == [] {
      assert a + b == b;
    } else {
      BodyConcat(a[1..], b);
      assert (a + b)[1..] == a[1..] + b;
      Reassociate(CHAIN_STEP + a[0], Body(a[1..]), Body(b));
    }
  }

  lemma BodySingle(e: Event)
    ensures Body([e]) == CHAIN_STEP + e
  {
    hide CHAIN_STEP;
    assert [e][1..] == [];
  }

  // ----- the operations --------------------------------------------------------------------------

  method ReadRoot(xof: Hasher) returns (root: ByteString)
    ensures root == Digest(xof.h, xof.buf, ROOT_LEN)
  {
    var reader := xof.FinalizeXof();
    var out := new byte[ROOT_LEN];
    reader.Read(out);
    root := out[..];
  }

  method ChainRoot(h: Xof, events: seq<Event>) returns (r: Result<ByteString>)
    ensures r == Root(h, events)
  {
    hide CHAIN_HEAD, CHAIN_STEP, Digest, Stream;
    if events == [] {
      return Err;
    }
    var xof := new Hasher(h);
    xof.Update(CHAIN_HEAD);
    StreamOfNone();
    assert events[..0] == [];
    for i := 0 to |events|
      invariant fresh(xof) && xof.h == h && xof.buf == Stream(events[..i])
    {
      StreamSnoc(events[..i], events[i]);
      assert events[..i + 1] == events[..i] + [events[i]];
      xof.Update(CHAIN_STEP);
      xof.Update(events[i]);
    }
    assert events[..|events|] == events;
    var root := ReadRoot(xof);
    return Ok(root);
  }

  lemma StreamOfNone()
    ensures Stream([]) == CHAIN_HEAD && [] + CHAIN_HEAD == CHAIN_HEAD
  {
    hide CHAIN_HEAD;
  }

  lemma StreamSnoc(events: seq<Event>, e: Event)
    ensures Stream(events + [e]) == Stream(events) + CHAIN_STEP + e
  {
    hide CHAIN_STEP, CHAIN_HEAD, Body;
    BodyConcat(events, [e]);
    BodySingle(e);
  }

  method ChainVerify(h: Xof, events: seq<Event>, expected: ByteString) returns (ok: bool)
    ensures ok <==> Root(h, events) == Ok(expected)
  {
    hide Digest, Stream;
    var r := ChainRoot(h, events);
    match r
    case Ok(root) => return root == expected;
    case Err => return false;
  }

  /** The incremental builder: `finalize` gives the root of all the events absorbed, in order. */
  class ChainState {
    const xof: Hasher
    var count: nat
    ghost var events: seq<Event>

    ghost predicate Valid()
      reads this, xof
    {
      xof.buf == Stream(events) && count == |events|
    }

    constructor (h: Xof)
      ensures Valid() && xof.h == h && events == [] && fresh(xof)
    {
      hide CHAIN_HEAD;
      var x := new Hasher(h);
      x.Update(CHAIN_HEAD);
      xof := x;
      count := 0;
      events := [];
      new;
      assert xof.buf == Stream([]);
    }

    method Absorb(e: Event)
      requires Valid()
      modifies this, xof
      ensures Valid() && events == old(events) + [e]
    {
      hide CHAIN_HEAD, CHAIN_STEP, Stream;
      StreamSnoc(events, e);
      xof.Update(CHAIN_STEP);
      xof.Update(e);
      count := count + 1;
      events := events + [e];
    }

    method Finalize() returns (r: Result<ByteString>)
      requires Valid()
      ensures r == Root(xof.h, events)
    {
      hide Digest, Stream;
      if count == 0 {
        return Err;
      }
      var root := ReadRoot(xof);
      return Ok(root);
    }
  }

  /** Streaming any list of events agrees with the one-shot root. */
  method StreamAll(h: Xof, events: seq<Event>) returns (r: Result<ByteString>, oneShot: Result<ByteString>)
    ensures r == oneShot == Root(h, events)
  {
    hide Root, Stream;
    var c := new ChainState(h);
    for i := 0 to |events|
      invariant fresh(c) && fresh(c.xof) && c.Valid() && c.xof.h == h && c.events == events[..i]
    {
      c.Absorb(events[i]);
      assert events[..i + 1] == events[..i] + [events[i]];
    }
    assert events[..|events|] == events;
    r := c.Finalize();
    oneShot := ChainRoot(h, events);
  }

  // ----- occurrences of the step tag ------------------------------------------------------------------

  const STEP_LEN := 19

  predicate OccursAt(s: ByteString, i: nat) {
    i + STEP_LEN <= |s| && s[i..i + STEP_LEN] == CHAIN_STEP
  }

  /** No occurrence of the step tag: something a caller can check of an event. */
  ghost predicate Clean(e: Event) {
    forall i: nat :: !OccursAt(e, i)
  }

  ghost predicate AllClean(events: seq<Event>) {
    forall k :: 0 <= k < |events| ==> Clean(events[k])
  }

  lemma StepBytes()
    ensures |CHAIN_STEP| == STEP_LEN
    ensures CHAIN_STEP[0] == 118 && CHAIN_STEP[1] == 101 && CHAIN_STEP[18] == 49
    ensures forall i :: 0 < i < STEP_LEN && i != 17 ==> CHAIN_STEP[i] != 118
  {}

  lemma OccursByte(s: ByteString, i: nat, k: nat)
    ensures OccursAt(s, i) && k < STEP_LEN ==> s[i + k] == CHAIN_STEP[k]
  {
    StepBytes();
    hide CHAIN_STEP;
    if OccursAt(s, i) && k < STEP_LEN {
      assert s[i..i + STEP_LEN][k] == s[i + k];
    }
  }

  /** The step tag has no border, so two occurrences in one string never overlap. */
  lemma NoOverlap(s: ByteString, i: nat, j: nat)
    ensures OccursAt(s, i) && OccursAt(s, j) && i < j ==> i + STEP_LEN <= j
  {
    StepBytes();
    hide CHAIN_STEP, OccursAt;
    OccursByte(s, i, if i <= j then j - i else 0);
    OccursByte(s, j, 0);
    OccursByte(s, i, 18);
    OccursByte(s, j, 1);
  }

  /** What follows an event in a stream: nothing, or another step. */
  ghost predicate Follows(r: ByteString) {
    r == [] || OccursAt(r, 0)
  }

  lemma BodyFollows(events: seq<Event>)
    ensures Follows(Body(events))
  {
    StepBytes();
    hide CHAIN_STEP;
    if events != [] {
      assert Body(events)[..STEP_LEN] == CHAIN_STEP;
    }
  }

  /** Occurrences in a concatenation: at the seam, and wholly inside the left part. */
  lemma OccursInConcat(e: ByteString, r: ByteString, i: nat)
    ensures OccursAt(r, 0) ==> OccursAt(e + r, |e|)
    ensures i + STEP_LEN <= |e| ==> (OccursAt(e + r, i) <==> OccursAt(e, i))
  {
    hide CHAIN_STEP;
    if OccursAt(r, 0) {
      assert (e + r)[|e|..|e| + STEP_LEN] == r[0..STEP_LEN];
    }
    if i + STEP_LEN <= |e| {
      assert (e + r)[i..i + STEP_LEN] == e[i..i + STEP_LEN];
    }
  }

  /** A clean event ends where the stream says: its end is the first step tag or the end of the stream. */
  lemma CleanEndsFirst(e: Event, r: ByteString, f: Event, r': ByteString)
    requires Clean(f) && Follows(r) && Follows(r') && e + r == f + r'
    ensures |e| >= |f|
  {
    hide CHAIN_STEP, OccursAt;
    OccursInConcat(e, r, 0);
    OccursInConcat(f, r', |e|);
    NoOverlap(f + r', |e|, |f|);
    FollowsLength(r');
    FollowsLength(r);
    assert |e| + |r| == |e + r| == |f + r'| == |f| + |r'|;
  }

  lemma FollowsLength(r: ByteString)
    requires Follows(r)
    ensures r == [] || |r| >= STEP_LEN
  {}

  /** Among clean lists, the stream determines the list. */
  lemma {:induction false} BodyInjective(a: seq<Event>, b: seq<Event>)
    requires AllClean(a) && AllClean(b) && Body(a) == Body(b)
    ensures a == b
  {
    StepBytes();
    hide CHAIN_STEP, Clean;
    if a == [] || b == [] {
    } else {
      var e, f := a[0], b[0];
      var r, r' := Body(a[1..]), Body(b[1..]);
      assert e + r == Body(a)[STEP_LEN..] && f + r' == Body(b)[STEP_LEN..];
      BodyFollows(a[1..]);
      BodyFollows(b[1..]);
      CleanEndsFirst(e, r, f, r');
      CleanEndsFirst(f, r', e, r);
      assert e == (e + r)[..|e|] && f == (f + r')[..|e|];
      assert r == (e + r)[|e|..] && r' == (f + r')[|e|..];
      BodyInjective(a[1..], b[1..]);
      assert a == [e] + a[1..] && b == [f] + b[1..];
    }
  }

  // ----- the exact condition -----------------------------------------------------------------------------

  /** The least occurrence of the step tag at or after i, or |e| if there is none. */
  function FirstOccurrence(e: Event, i: nat): (k: nat)
    requires i <= |e|
    ensures i <= k <= |e|
    ensures k < |e| ==> OccursAt(e, k)
    ensures forall j :: i <= j < k ==> !OccursAt(e, j)
    decreases |e| - i
  {
    if i == |e| then i else if OccursAt(e, i) then i else FirstOccurrence(e, i + 1)
  }

  /** An event cut at every occurrence of the step tag. */
  function Pieces(e: Event): seq<Event>
    decreases |e|
  {
    var k := FirstOccurrence(e, 0);
    if k == |e| then [e] else [e[..k]] + Pieces(e[k + STEP_LEN..])
  }

  /** The clean list with the same stream. */
  function Canonical(events: seq<Event>): seq<Event> {
    if events == [] then [] else Pieces(events[0]) + Canonical(events[1..])
  }

  lemma {:induction false} PiecesCorrect(e: Event)
    ensures AllClean(Pieces(e)) && Body(Pieces(e)) == CHAIN_STEP + e
    decreases |e|
  {
    hide CHAIN_STEP;
    var k := FirstOccurrence(e, 0);
    if k == |e| {
      BodySingle(e);
      assert Clean(e) by { CleanPrefix(e, k); assert e[..k] == e; }
      assert Pieces(e) == [e];
    } else {
      var rest := e[k + STEP_LEN..];
      PiecesCorrect(rest);
      CleanPrefix(e, k);
      assert Pieces(e)[1..] == Pieces(rest);
      assert e == e[..k] + (e[k..k + STEP_LEN] + rest);
    }
  }

  lemma CleanPrefix(e: Event, k: nat)
    requires k <= |e| && forall j :: 0 <= j < k ==> !OccursAt(e, j)
    ensures Clean(e[..k])
  {
    hide CHAIN_STEP, OccursAt;
    forall i: nat
      ensures !OccursAt(e[..k], i)
    {
      OccursInPrefix(e, k, i);
    }
  }

  lemma OccursInPrefix(e: Event, k: nat, i: nat)
    requires k <= |e|
    ensures OccursAt(e[..k], i) ==> i < k && OccursAt(e, i)
  {
    hide CHAIN_STEP;
    if i + STEP_LEN <= k {
      assert e[i..i + STEP_LEN] == e[..k][i..i + STEP_LEN];
    }
  }

  lemma {:induction false} CanonicalCorrect(events: seq<Event>)
    ensures AllClean(Canonical(events)) && Body(Canonical(events)) == Body(events)
    ensures AllClean(events) ==> Canonical(events) == events
  {
    hide CHAIN_STEP, Pieces, Clean;
    if events != [] {
      var e, rest := events[0], events[1..];
      CanonicalCorrect(rest);
      PiecesCorrect(e);
      BodyConcat(Pieces(e), Canonical(rest));
      if AllClean(events) {
        PiecesOfClean(e);
        assert AllClean(rest);
        assert events == [e] + rest;
      }
    }
  }

  lemma PiecesOfClean(e: Event)
    requires Clean(e)
    ensures Pieces(e) == [e]
  {
    hide CHAIN_STEP, OccursAt;
    var k := FirstOccurrence(e, 0);
  }

  /** Two event lists have the same stream exactly when cutting their events at the step tag gives the same list. */
  lemma SameStreamIff(a: seq<Event>, b: seq<Event>)
    ensures Stream(a) == Stream(b) <==> Canonical(a) == Canonical(b)
  {
    hide CHAIN_HEAD, Canonical, Body;
    CanonicalCorrect(a);
    CanonicalCorrect(b);
    assert Body(a) == Stream(a)[|CHAIN_HEAD|..] && Body(b) == Stream(b)[|CHAIN_HEAD|..];
    if Body(a) == Body(b) {
      BodyInjective(Canonical(a), Canonical(b));
    }
  }

  /** Equal roots: the lists agree up to cutting events at the step tag, or their streams collide. */
  lemma RootBinding(h: Xof, a: seq<Event>, b: seq<Event>)
    requires a != [] && b != []
    ensures Root(h, a) == Root(h, b) ==>
      Canonical(a) == Canonical(b) || Collision(h, Stream(a), Stream(b), ROOT_LEN)
    ensures Root(h, a) == Root(h, b) && AllClean(a) && AllClean(b) ==>
      a == b || Collision(h, Stream(a), Stream(b), ROOT_LEN)
  {
    hide Digest, Stream, Canonical, AllClean;
    SameStreamIff(a, b);
    CanonicalCorrect(a);
    CanonicalCorrect(b);
  }

  /** Without that condition the root does not determine the list: joining two adjacent events with the step tag
      gives a different list with the same root, whatever the hash. */
  lemma JoinedEventsShareRoot(h: Xof, a: seq<Event>)
    requires |a| >= 2
    ensures var b := [a[0] + CHAIN_STEP + a[1]] + a[2..]; a != b && Root(h, b) == Root(h, a)
  {
    hide CHAIN_HEAD, CHAIN_STEP, Digest;
    var e := a[0] + CHAIN_STEP + a[1];
    var b := [e] + a[2..];
    assert b[1..] == a[2..] && a[1..][1..] == a[2..];
    assert Body(b) == Body(a);
  }

  // ----- the hashed stream, byte by byte ---------------------------------------------------------------------

  lemma TagLengths()
    ensures |CHAIN_HEAD| == 19 && |CHAIN_STEP| == 19
  {}

  /** Where the tag of event i begins. */
  function Offset(events: seq<Event>, i: nat): nat
    requires i <= |events|
  {
    if i == 0 then 19 else Offset(events, i - 1) + 19 + |events[i - 1]|
  }

  lemma OffsetPrefix(events: seq<Event>, more: seq<Event>, i: nat)
    requires i <= |events|
    ensures Offset(events + more, i) == Offset(events, i)
  {
    if i > 0 {
      OffsetPrefix(events, more, i - 1);
    }
  }

  lemma {:induction false} StreamLength(events: seq<Event>)
    ensures |Stream(events)| == Offset(events, |events|)
  {
    TagLengths();
    hide CHAIN_HEAD, CHAIN_STEP;
    if events != [] {
      var front, e := events[..|events| - 1], events[|events| - 1];
      assert events == front + [e];
      StreamLength(front);
      StreamSnoc(front, e);
      OffsetPrefix(front, [e], |front|);
    }
  }

  /** The stream: the head tag in its first 19 bytes, and every event after its own step tag. */
  lemma StreamPositions(events: seq<Event>, i: nat)
    requires i < |events|
    ensures var s, o := Stream(events), Offset(events, i);
      && o + 19 + |events[i]| <= |s|
      && s[..19] == CHAIN_HEAD && s[o..o + 19] == CHAIN_STEP && s[o + 19..o + 19 + |events[i]|] == events[i]
  {
    TagLengths();
    hide CHAIN_HEAD, CHAIN_STEP, Stream, Offset;
    var before, e, after := events[..i], events[i], events[i + 1..];
    assert events == before + [e] + after;
    assert before + ([e] + after) == events;
    StreamAround(before, e, after);
    StreamLength(before);
    OffsetPrefix(before, [e] + after, i);
    MiddleParts(Stream(before), CHAIN_STEP, e, Body(after));
    StreamStarts(events);
  }

  lemma StreamAround(before: seq<Event>, e: Event, after: seq<Event>)
    ensures Stream(before + [e] + after) == Stream(before) + CHAIN_STEP + e + Body(after)
  {
    hide CHAIN_HEAD, CHAIN_STEP, Body;
    BodyConcat(before + [e], after);
    BodyConcat(before, [e]);
    BodySingle(e);
    Regroup(CHAIN_HEAD, Body(before), CHAIN_STEP, e, Body(after));
  }

  lemma Regroup(x: ByteString, y: ByteString, z: ByteString, u: ByteString, v: ByteString)
    ensures x + ((y + (z + u)) + v) == ((x + y) + z + u) + v
  {
    assert (x + y) + z + u == x + (y + (z + u));
  }

  lemma StreamStarts(events: seq<Event>)
    ensures |Stream(events)| >= 19 && Stream(events)[..19] == CHAIN_HEAD
  {
    TagLengths();
    hide CHAIN_HEAD, Body;
  }

  lemma MiddleParts(x: ByteString, y: ByteString, z: ByteString, u: ByteString)
    ensures var s := x + y + z + u; var a, b := |x| + |y|, |x| + |y| + |z|;
      b <= |s| && s[|x|..a] == y && s[a..b] == z
  {}

  /** The root is the first 32 bytes of the hash of the stream. */
  lemma RootPositions(h: Xof, events: seq<Event>)
    requires events != []
    ensures Root(h, events) == Ok(h(Stream(events))[..32])
  {
    hide Stream, Digest;
    DigestPrefix(h, Stream(events), 32);
  }
}
