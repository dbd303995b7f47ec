/** The Fiat-Shamir transcript (`src/common/transcript.rs`) and what binds a challenge to its history. */
module Transcript {
  import opened Bytes
  import opened Domain
  import opened Shake256

  const STATE_LEN := 64

  // ----- the absorbed strings ---------------------------------------------------------------

  /** `len(8 LE) || bytes` */
  function Framed(b: ByteString): ByteString {
    Le64(|b|) + b
  }

  function NewInput(name: ByteString): ByteString {
    FS_PROTOCOL + Framed(name)
  }

  function AbsorbInput(state: ByteString, name: ByteString, data: ByteString): ByteString {
    FS_ABSORB + (state + (Framed(name) + Framed(data)))
  }

  function SqueezeInput(state: ByteString, name: ByteString, n: nat): ByteString {
    FS_SQUEEZE + (state + (Framed(name) + Le64(n)))
  }

  function PostInput(state: ByteString, name: ByteString, out: ByteString): ByteString {
    FS_POST_CHALLENGE + (state + (Framed(name) + Framed(out)))
  }

  // ----- histories -----------------------------------------------------------------------------

  /** The operations performed so far, newest last; a challenge is recorded by its label and length. */
  datatype History =
    | New(protocol: ByteString)
    | Absorbed(prev: History, name: ByteString, data: ByteString)
    | Challenged(prev: History, name: ByteString, n: nat)

  /** Every length fits the 64-bit length field, as every Rust slice length does. */
  ghost predicate Fits(t: History) {
    match t
    case New(p) => |p| < TWO_64
    case Absorbed(prev, l, d) => Fits(prev) && |l| < TWO_64 && |d| < TWO_64
    case Challenged(prev, l, n) => Fits(prev) && |l| < TWO_64 && n < TWO_64
  }

  /** The challenge of `n` bytes drawn after `t`. */
  function ChallengeBytes(h: Xof, t: History, name: ByteString, n: nat): (out: ByteString)
    ensures |out| == n
    decreases t, 2
  {
    Digest(h, SqueezeInput(State(h, t), name, n), n)
  }

  /** The string whose digest is the state. */
  function LastInput(h: Xof, t: History): ByteString
    decreases t, 0
  {
    match t
    case New(p) => NewInput(p)
    case Absorbed(prev, l, d) => AbsorbInput(State(h, prev), l, d)
    case Challenged(prev, l, n) => PostInput(State(h, prev), l, ChallengeBytes(h, prev, l, n))
  }

  function State(h: Xof, t: History): (s: ByteString)
    ensures |s| == STATE_LEN
    decreases t, 1
  {
    Digest(h, LastInput(h, t), STATE_LEN)
  }

  // ----- the object ----------------------------------------------------------------------------------

  class Transcript {
    const h: Xof
    var state: ByteString
    ghost var history: History

    ghost predicate Valid()
      reads this
    {
      state == State(h, history)
    }

    constructor (h: Xof, name: ByteString)
      ensures Valid() && this.h == h && history == New(name)
    {
      var s := HashFramed(h, FS_PROTOCOL, [], name, [], STATE_LEN);
      assert NewInput(name) == FS_PROTOCOL + ([] + (Framed(name) + []));
      this.h := h;
      state := s;
      history := New(name);
    }

    method Absorb(name: ByteString, data: ByteString)
      requires Valid()
      modifies this
      ensures Valid() && history == Absorbed(old(history), name, data)
    {
      hide Digest, FS_ABSORB, Framed, State;
      StateUnfold(h, Absorbed(history, name, data));
      state := HashFramed(h, FS_ABSORB, state, name, Framed(data), STATE_LEN);
      history := Absorbed(history, name, data);
    }

    /** Fills `out` with challenge bytes and folds them back into the state. */
    method Challenge(name: ByteString, out: array<byte>)
      requires Valid()
      modifies this, out
      ensures Valid() && history == Challenged(old(history), name, out.Length)
      ensures out[..] == ChallengeBytes(h, old(history), name, out.Length)
    {
      hide Digest, FS_SQUEEZE, FS_POST_CHALLENGE, Le64, Framed, State;
      StateUnfold(h, Challenged(history, name, out.Length));
      var bytes := HashFramed(h, FS_SQUEEZE, state, name, Le64(out.Length), out.Length);
      CopyInto(bytes, out);
      state := HashFramed(h, FS_POST_CHALLENGE, state, name, Framed(bytes), STATE_LEN);
      history := Challenged(history, name, out.Length);
    }
  }

  lemma StateUnfold(h: Xof, t: History)
    ensures t.Absorbed? ==>
      State(h, t) == Digest(h, FS_ABSORB + (State(h, t.prev) + (Framed(t.name) + Framed(t.data))), STATE_LEN)
    ensures t.Challenged? ==>
      var out := ChallengeBytes(h, t.prev, t.name, t.n);
      State(h, t) == Digest(h, FS_POST_CHALLENGE + (State(h, t.prev) + (Framed(t.name) + Framed(out))), STATE_LEN)
  {
    hide Digest, Framed, FS_ABSORB, FS_POST_CHALLENGE, ChallengeBytes;
  }

  lemma Reassociate(a: ByteString, b: ByteString, c: ByteString, d: ByteString, e: ByteString)
    ensures a + b + c + d + e == a + (b + ((c + d) + e))
  {
    assert a + b + c + d + e == a + b + (c + d) + e;
  }

  /** Absorb a tag, the state, a framed label and a tail; read n bytes. */
  method HashFramed(h: Xof, tag: ByteString, state: ByteString, name: ByteString, tail: ByteString, n: nat)
    returns (d: ByteString)
    ensures d == Digest(h, tag + (state + (Framed(name) + tail)), n)
  {
    hide Le64, Window;
    Reassociate(tag, state, Le64(|name|), name, tail);
    var xof := new Hasher(h);
    xof.Update(tag);
    assert xof.buf == tag;
    xof.Update(state);
    xof.Update(Le64(|name|));
    xof.Update(name);
    xof.Update(tail);
    var reader := xof.FinalizeXof();
    var out := new byte[n];
    reader.Read(out);
    d := out[..];
  }

  method CopyInto(bytes: ByteString, out: array<byte>)
    requires |bytes| == out.Length
    modifies out
    ensures out[..] == bytes
  {
    for i := 0 to out.Length
      invariant out[..i] == bytes[..i]
    {
      out[i] := bytes[i];
    }
  }

  // ----- the framing is injective -------------------------------------------------------------------------

  lemma FramedInjective(a: ByteString, x: ByteString, b: ByteString, y: ByteString)
    requires |a| < TWO_64 && |b| < TWO_64 && Framed(a) + x == Framed(b) + y
    ensures a == b && x == y
  {
    hide Le64;
    var s, t := Framed(a) + x, Framed(b) + y;
    assert Le64(|a|) == s[..8] == t[..8] == Le64(|b|);
    Le64Injective(|a|, |b|);
    assert a == s[8..8 + |a|] && b == t[8..8 + |a|];
    assert x == s[8 + |a|..] && y == t[8 + |a|..];
  }

  lemma FramedAlone(a: ByteString, b: ByteString)
    requires |a| < TWO_64 && |b| < TWO_64 && Framed(a) == Framed(b)
    ensures a == b
  {
    hide Framed;
    assert Framed(a) + [] == Framed(b) + [];
    FramedInjective(a, [], b, []);
  }

  /** A tag of fixed length, then a state of fixed length, then the rest. */
  lemma SplitTagged(tag: ByteString, s: ByteString, x: ByteString, t: ByteString, y: ByteString)
    requires |s| == |t| && tag + (s + x) == tag + (t + y)
    ensures s == t && x == y
  {
    var a, b := tag + (s + x), tag + (t + y);
    assert s + x == a[|tag|..] && t + y == b[|tag|..];
    assert s == (s + x)[..|s|] && t == (t + y)[..|s|];
    assert x == (s + x)[|s|..] && y == (t + y)[|s|..];
  }

  /** The four tags differ at byte 9 or byte 10, whatever follows them. */
  lemma TagBytes(x: ByteString)
    ensures (FS_PROTOCOL + x)[9] == 112 && (FS_PROTOCOL + x)[10] == 114
    ensures (FS_ABSORB + x)[9] == 97
    ensures (FS_SQUEEZE + x)[9] == 115
    ensures (FS_POST_CHALLENGE + x)[9] == 112 && (FS_POST_CHALLENGE + x)[10] == 111
  {
    assert |FS_PROTOCOL| == 20 && |FS_ABSORB| == 18 && |FS_SQUEEZE| == 19 && |FS_POST_CHALLENGE| == 26;
  }

  predicate SameKind(s: History, t: History) {
    (s.New? <==> t.New?) && (s.Absorbed? <==> t.Absorbed?)
  }

  lemma TagsSeparate(h: Xof, s: History, t: History)
    ensures LastInput(h, s) == LastInput(h, t) ==> SameKind(s, t)
  {
    hide Framed, FS_PROTOCOL, FS_ABSORB, FS_POST_CHALLENGE, State, ChallengeBytes;
    TagBytesOf(h, s);
    TagBytesOf(h, t);
  }

  lemma TagBytesOf(h: Xof, t: History)
    ensures |LastInput(h, t)| > 10
    ensures t.New? ==> LastInput(h, t)[9] == 112 && LastInput(h, t)[10] == 114
    ensures t.Absorbed? ==> LastInput(h, t)[9] == 97
    ensures t.Challenged? ==> LastInput(h, t)[9] == 112 && LastInput(h, t)[10] == 111
  {
    hide Framed, State, ChallengeBytes;
    match t
    case New(p) => TagBytes(Framed(p));
    case Absorbed(prev, l, d) => TagBytes(State(h, prev) + (Framed(l) + Framed(d)));
    case Challenged(prev, l, n) => TagBytes(State(h, prev) + (Framed(l) + Framed(ChallengeBytes(h, prev, l, n))));
  }

  /** Equal inputs of two histories come from equal last operations and equal previous states. */
  lemma LastInputInjective(h: Xof, s: History, t: History)
    requires Fits(s) && Fits(t)
    ensures LastInput(h, s) == LastInput(h, t) ==>
      && SameKind(s, t)
      && (s.New? ==> s == t)
      && (s.Absorbed? ==> State(h, s.prev) == State(h, t.prev) && s.name == t.name && s.data == t.data)
      && (s.Challenged? ==> State(h, s.prev) == State(h, t.prev) && s.name == t.name && s.n == t.n)
  {
    hide Framed, FS_PROTOCOL, FS_ABSORB, FS_POST_CHALLENGE, State, ChallengeBytes;
    if LastInput(h, s) == LastInput(h, t) {
      TagsSeparate(h, s, t);
      match s
      case New(p) =>
        var k := |FS_PROTOCOL|;
        assert Framed(p) == NewInput(p)[k..] == NewInput(t.protocol)[k..] == Framed(t.protocol);
        FramedAlone(p, t.protocol);
      case Absorbed(prev, l, d) =>
        SplitTagged(FS_ABSORB, State(h, prev), Framed(l) + Framed(d),
                    State(h, t.prev), Framed(t.name) + Framed(t.data));
        FramedInjective(l, Framed(d), t.name, Framed(t.data));
        FramedAlone(d, t.data);
      case Challenged(prev, l, n) =>
        var a, b := ChallengeBytes(h, prev, l, n), ChallengeBytes(h, t.prev, t.name, t.n);
        SplitTagged(FS_POST_CHALLENGE, State(h, prev), Framed(l) + Framed(a),
                    State(h, t.prev), Framed(t.name) + Framed(b));
        FramedInjective(l, Framed(a), t.name, Framed(b));
        FramedAlone(a, b);
    }
  }

  // ----- history binding -----------------------------------------------------------------------------------

  /** Two strings claimed to have equal digests of `n` bytes. */
  datatype Found = Found(x: ByteString, y: ByteString, n: nat)

  ghost predicate IsCollision(h: Xof, f: Found) {
    f.n >= 1 && Collision(h, f.x, f.y, f.n)
  }

  /** Walks two histories back to the last operation whose inputs differ. */
  function StateCollision(h: Xof, s: History, t: History): Found {
    if LastInput(h, s) != LastInput(h, t) || s.New? || t.New? then Found(LastInput(h, s), LastInput(h, t), STATE_LEN)
    else StateCollision(h, s.prev, t.prev)
  }

  /** Different histories, of any lengths, with the same state yield an explicit collision. */
  lemma {:induction false} StateBinding(h: Xof, s: History, t: History)
    requires Fits(s) && Fits(t)
    ensures s != t && State(h, s) == State(h, t) ==> IsCollision(h, StateCollision(h, s, t))
  {
    hide LastInput, ChallengeBytes, Digest;
    if LastInput(h, s) == LastInput(h, t) && !s.New? && !t.New? {
      StateBinding(h, s.prev, t.prev);
    }
    LastInputInjective(h, s, t);
  }

  function ChallengeCollision(h: Xof, s: History, l: ByteString, t: History, l': ByteString, n: nat): Found {
    var x, y := SqueezeInput(State(h, s), l, n), SqueezeInput(State(h, t), l', n);
    if x != y then Found(x, y, n) else StateCollision(h, s, t)
  }

  /** A nonempty challenge determines the label and the whole history before it, or yields an explicit collision. */
  lemma ChallengeBinding(h: Xof, s: History, l: ByteString, n: nat, t: History, l': ByteString, n': nat)
    requires Fits(s) && Fits(t) && |l| < TWO_64 && |l'| < TWO_64 && 1 <= n < TWO_64 && n' < TWO_64
    ensures ChallengeBytes(h, s, l, n) == ChallengeBytes(h, t, l', n') ==>
      Challenged(s, l, n) == Challenged(t, l', n') || IsCollision(h, ChallengeCollision(h, s, l, t, l', n))
  {
    hide State, Digest, StateCollision, Framed, FS_SQUEEZE, Le64;
    if SqueezeInput(State(h, s), l, n) == SqueezeInput(State(h, t), l', n) {
      SplitTagged(FS_SQUEEZE, State(h, s), Framed(l) + Le64(n), State(h, t), Framed(l') + Le64(n));
      FramedInjective(l, Le64(n), l', Le64(n));
      StateBinding(h, s, t);
    }
  }

  // ----- the hashed strings, byte by byte ----------------------------------------------------------------

  lemma TagLengths()
    ensures |FS_PROTOCOL| == 20 && |FS_ABSORB| == 18 && |FS_SQUEEZE| == 19 && |FS_POST_CHALLENGE| == 26
  {}

  lemma FourParts(s: ByteString, a: nat, b: nat, c: nat)
    requires a <= b <= c <= |s|
    ensures s == s[..a] + (s[a..b] + (s[b..c] + s[c..]))
  {
    assert s[a..] == s[a..b] + s[b..];
    assert s[b..] == s[b..c] + s[c..];
  }

  lemma PartsAt(x: ByteString, y: ByteString, z: ByteString, u: ByteString)
    ensures var s := x + (y + (z + u));
      var a, b, c := |x|, |x| + |y|, |x| + |y| + |z|;
      |s| == c + |u| && s[..a] == x && s[a..b] == y && s[b..c] == z && s[c..] == u
  {
    var s, a := x + (y + (z + u)), |x|;
    assert s[a..] == y + (z + u);
    assert s[a + |y|..] == z + u;
  }

  /** A framed string is its length in eight bytes and then the string. */
  lemma FramedString(b: ByteString, s: ByteString)
    ensures |s| == 8 + |b| && s[..8] == Le64(|b|) && s[8..] == b <==> s == Framed(b)
  {
    hide Le64;
    assert Framed(b)[..8] == Le64(|b|) && Framed(b)[8..] == b;
    if |s| >= 8 {
      assert s == s[..8] + s[8..];
    }
  }

  lemma NewString(name: ByteString, s: ByteString)
    ensures |s| == 28 + |name| && s[..20] == FS_PROTOCOL && s[20..] == Framed(name) <==> s == NewInput(name)
  {
    TagLengths();
    hide FS_PROTOCOL, Le64;
    assert NewInput(name)[..20] == FS_PROTOCOL && NewInput(name)[20..] == Framed(name);
    if |s| >= 20 {
      assert s == s[..20] + s[20..];
    }
  }

  /** Tag, state, framed label, framed data at bytes 0, 18, 82 and 90 + the length of the label. */
  lemma AbsorbString(state: ByteString, name: ByteString, data: ByteString, s: ByteString)
    requires |state| == 64
    ensures |s| == 98 + |name| + |data| && s[..18] == FS_ABSORB && s[18..82] == state &&
            s[82..90 + |name|] == Framed(name) && s[90 + |name|..] == Framed(data) <==>
            s == AbsorbInput(state, name, data)
  {
    TagLengths();
    hide FS_ABSORB, Le64;
    PartsAt(FS_ABSORB, state, Framed(name), Framed(data));
    if |s| == 98 + |name| + |data| {
      FourParts(s, 18, 82, 90 + |name|);
    }
  }

  /** Tag, state, framed label, requested length at bytes 0, 19, 83 and 91 + the length of the label. */
  lemma SqueezeString(state: ByteString, name: ByteString, n: nat, s: ByteString)
    requires |state| == 64
    ensures |s| == 99 + |name| && s[..19] == FS_SQUEEZE && s[19..83] == state &&
            s[83..91 + |name|] == Framed(name) && s[91 + |name|..] == Le64(n) <==>
            s == SqueezeInput(state, name, n)
  {
    TagLengths();
    hide FS_SQUEEZE, Le64;
    PartsAt(FS_SQUEEZE, state, Framed(name), Le64(n));
    if |s| == 99 + |name| {
      FourParts(s, 19, 83, 91 + |name|);
    }
  }

  /** Tag, state, framed label, framed challenge at bytes 0, 26, 90 and 98 + the length of the label. */
  lemma PostString(state: ByteString, name: ByteString, out: ByteString, s: ByteString)
    requires |state| == 64
    ensures |s| == 106 + |name| + |out| && s[..26] == FS_POST_CHALLENGE && s[26..90] == state &&
            s[90..98 + |name|] == Framed(name) && s[98 + |name|..] == Framed(out) <==>
            s == PostInput(state, name, out)
  {
    TagLengths();
    hide FS_POST_CHALLENGE, Le64;
    PartsAt(FS_POST_CHALLENGE, state, Framed(name), Framed(out));
    if |s| == 106 + |name| + |out| {
      FourParts(s, 26, 90, 98 + |name|);
    }
  }

  /** States and challenges are the first bytes of the hash of those strings. */
  lemma HashPositions(h: Xof, t: History, name: ByteString, n: nat)
    ensures State(h, t) == h(LastInput(h, t))[..64]
    ensures n <= 256 ==> ChallengeBytes(h, t, name, n) == h(SqueezeInput(State(h, t), name, n))[..n]
  {
    hide LastInput, SqueezeInput, Digest;
    DigestPrefix(h, LastInput(h, t), 64);
    DigestPrefix(h, SqueezeInput(State(h, t), name, n), n);
  }

  /** What a challenge is squeezed from is never what a state is made from. */
  lemma SqueezeSeparate(h: Xof, t: History, state: ByteString, name: ByteString, n: nat)
    ensures SqueezeInput(state, name, n) != LastInput(h, t)
  {
    TagLengths();
    NinthBytes();
    hide State, ChallengeBytes, Framed, Le64, FS_PROTOCOL, FS_ABSORB, FS_SQUEEZE, FS_POST_CHALLENGE;
    assert SqueezeInput(state, name, n)[9] == FS_SQUEEZE[9];
    match t
    case New(p) => assert NewInput(p)[9] == FS_PROTOCOL[9];
    case Absorbed(prev, l, d) => assert AbsorbInput(State(h, prev), l, d)[9] == FS_ABSORB[9];
    case Challenged(prev, l, k) =>
      assert PostInput(State(h, prev), l, ChallengeBytes(h, prev, l, k))[9] == FS_POST_CHALLENGE[9];
  }

  lemma NinthBytes()
    ensures FS_SQUEEZE[9] == 115 && FS_PROTOCOL[9] == 112 && FS_ABSORB[9] == 97 && FS_POST_CHALLENGE[9] == 112
  {}
}
