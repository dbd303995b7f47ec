/** The buffered SHAKE256 wrapper (`src/shake256.rs`).  Keccak itself is a parameter:
    any function from byte strings to 256 bytes. */
module Shake256 {
  import opened Bytes

  const XOF_LEN := 256

  type Xof = h: ByteString -> ByteString | forall s :: |h(s)| == XOF_LEN
    witness (s => ZeroBytes(256))

  /** The 32-byte digests of the relations. */
  const HASH := 32

  type Hash32 = d: ByteString | |d| == HASH witness ZeroBytes(32)

  /** What a read of `n` bytes at `pos` yields: output bytes, then zeros past the end of the buffer. */
  function Window(out: ByteString, pos: nat, n: nat): (s: ByteString)
    requires pos <= |out|
    ensures |s| == n
  {
    if pos + n <= |out| then out[pos..pos + n] else out[pos..] + ZeroBytes(n - (|out| - pos))
  }

  /** The first `n` bytes a fresh reader yields for `input`. */
  function Digest(h: Xof, input: ByteString, n: nat): (s: ByteString)
    ensures |s| == n
  {
    Window(h(input), 0, n)
  }

  /** Two different strings with the same `n`-byte digest. */
  predicate Collision(h: Xof, x: ByteString, y: ByteString, n: nat) {
    x != y && Digest(h, x, n) == Digest(h, y, n)
  }

  /** Two strings, claimed to collide. */
  datatype Pair = Pair(x: ByteString, y: ByteString)

  /** The bytes of a read, by position. */
  lemma WindowAt(out: ByteString, pos: nat, n: nat, k: nat)
    requires pos <= |out| && k < n
    ensures Window(out, pos, n)[k] == if pos + k < |out| then out[pos + k] else 0
  {}

  /** A digest of up to 256 bytes is a prefix of the output of the hash; nothing but zeros follows 256 bytes. */
  lemma DigestPrefix(h: Xof, input: ByteString, n: nat)
    ensures n <= 256 ==> Digest(h, input, n) == h(input)[..n]
    ensures n > 256 ==> Digest(h, input, n) == h(input) + ZeroBytes(n - 256)
  {}

  /** Reading in pieces is the same as reading at once. */
  lemma ReadsCompose(out: ByteString, pos: nat, m: nat, n: nat)
    requires pos <= |out|
    ensures var mid := if pos + m <= |out| then pos + m else |out|;
      Window(out, pos, m) + Window(out, mid, n) == Window(out, pos, m + n)
  {
    var mid := if pos + m <= |out| then pos + m else |out|;
    var s, t := Window(out, pos, m) + Window(out, mid, n), Window(out, pos, m + n);
    forall k | 0 <= k < m + n
      ensures s[k] == t[k]
    {
      WindowAt(out, pos, m + n, k);
      if k < m {
        WindowAt(out, pos, m, k);
      } else {
        WindowAt(out, mid, n, k - m);
      }
      hide Window;
    }
  }

  class Hasher {
    const h: Xof
    var buf: ByteString

    constructor (h: Xof)
      ensures this.h == h && buf == []
    {
      this.h := h;
      buf := [];
    }

    method Update(data: ByteString)
      modifies this
      ensures buf == old(buf) + data
    {
      buf := buf + data;
    }

    method FinalizeXof() returns (r: Reader)
      ensures fresh(r) && r.out == h(buf) && r.pos == 0
    {
      r := new Reader(h(buf));
    }
  }

  class Reader {
    const out: ByteString
    var pos: nat

    ghost predicate Valid()
      reads this
    {
      |out| == XOF_LEN && pos <= XOF_LEN
    }

    constructor (out: ByteString)
      requires |out| == XOF_LEN
      ensures this.out == out && pos == 0 && Valid()
    {
      this.out := out;
      pos := 0;
    }

    /** Fills `a` from the buffer, zero-filling what the buffer cannot serve. */
    method Read(a: array<byte>)
      requires Valid()
      modifies this, a
      ensures Valid()
      ensures a[..] == Window(out, old(pos), a.Length)
      ensures forall k :: 0 <= k < a.Length ==> a[k] == if old(pos) + k < 256 then out[old(pos) + k] else 0
      ensures pos == if old(pos) + a.Length <= XOF_LEN then old(pos) + a.Length else XOF_LEN
    {
      var available := |out| - pos;
      var toCopy := if a.Length < available then a.Length else available;
      for i := 0 to toCopy
        invariant pos == old(pos)
        invariant forall k :: 0 <= k < i ==> a[k] == out[pos + k]
      {
        a[i] := out[pos + i];
      }
      for i := toCopy to a.Length
        invariant pos == old(pos)
        invariant forall k :: 0 <= k < toCopy ==> a[k] == out[pos + k]
        invariant forall k :: toCopy <= k < i ==> a[k] == 0
      {
        a[i] := 0;
      }
      pos := pos + toCopy;
    }
  }

  /** Absorb the parts in order and read `n` bytes: the pattern of every digest in the engine. */
  method HashParts(h: Xof, parts: seq<ByteString>, n: nat) returns (d: ByteString)
    ensures d == Digest(h, Concat(parts), n)
    ensures n <= 256 ==> d == h(Concat(parts))[..n]
  {
    var xof := new Hasher(h);
    assert parts[..0] == [];
    for i := 0 to |parts|
      invariant fresh(xof) && xof.h == h && xof.buf == Concat(parts[..i])
    {
      ConcatSnoc(parts[..i], parts[i]);
      assert parts[..i + 1] == parts[..i] + [parts[i]];
      xof.Update(parts[i]);
    }
    assert parts[..|parts|] == parts;
    var reader := xof.FinalizeXof();
    var out := new byte[n];
    reader.Read(out);
    d := out[..];
    DigestPrefix(h, Concat(parts), n);
  }

  lemma ConcatTwo(a: ByteString, b: ByteString)
    ensures Concat([a, b]) == a + b
  {
    assert [a, b] == [a] + [b];
    ConcatOne(a);
    ConcatSnoc([a], b);
  }

  lemma ConcatOne(a: ByteString)
    ensures Concat([a]) == a
  {
    assert [a] == [] + [a];
    ConcatSnoc([], a);
  }

  lemma ConcatThree(a: ByteString, b: ByteString, c: ByteString)
    ensures Concat([a, b, c]) == a + b + c
  {
    hide Concat;
    assert [a, b, c] == [a, b] + [c];
    ConcatTwo(a, b);
    ConcatSnoc([a, b], c);
  }

  lemma ConcatFour(a: ByteString, b: ByteString, c: ByteString, d: ByteString)
    ensures Concat([a, b, c, d]) == a + b + c + d
  {
    hide Concat;
    assert [a, b, c, d] == [a, b, c] + [d];
    ConcatThree(a, b, c);
    ConcatSnoc([a, b, c], d);
  }

  function Concat(parts: seq<ByteString>): ByteString {
    if parts == [] then [] else parts[0] + Concat(parts[1..])
  }

  lemma {:induction false} ConcatSnoc(parts: seq<ByteString>, p: ByteString)
    ensures Concat(parts + [p]) == Concat(parts) + p
  {
    if parts == [] {
      assert [p][1..] == [];
    } else {
      ConcatSnoc(parts[1..], p);
      assert (parts + [p])[1..] == parts[1..] + [p];
    }
  }
}
