/** The range proof relation (`src/relations/range_proof.rs`).  64-bit values are natural numbers below 2^64
    with wrap-around, saturation, shifts and bitwise or written out. */
module RangeProof {
  import opened Bytes
  import opened Domain
  import opened Shake256

  const MAX_BITS := 64
  const U64_MAX: nat := TWO_64 - 1

  datatype Statement = Statement(commitments: seq<Hash32>, min: nat, max: nat)
  datatype Witness = Witness(value: nat, min: nat, max: nat)
  datatype Proof = Proof(bits: seq<byte>, nonces: seq<Hash32>)

  ghost predicate IsU64(w: Witness) {
    w.value < TWO_64 && w.min < TWO_64 && w.max < TWO_64
  }

  // ----- 64-bit arithmetic --------------------------------------------------------------------

  function WrappingSub(a: nat, b: nat): (r: nat)
    requires a < TWO_64 && b < TWO_64
    ensures r < TWO_64
  {
    if a >= b then a - b else a - b + TWO_64
  }

  function SaturatingSub(a: nat, b: nat): nat {
    if a >= b then a - b else 0
  }

  function SaturatingAdd(a: nat, b: nat): nat {
    if a + b <= U64_MAX then a + b else U64_MAX
  }

  /** x >> i, as i halvings. */
  function ShiftRight(x: nat, i: nat): nat {
    if i == 0 then x else ShiftRight(x / 2, i - 1)
  }

  /** x << i, without overflow. */
  function ShiftLeft(x: nat, i: nat): nat {
    x * Pow2(i)
  }

  function BitOr(a: nat, b: nat): nat {
    if a == 0 && b == 0 then 0
    else (if a % 2 == 1 || b % 2 == 1 then 1 else 0) + 2 * BitOr(a / 2, b / 2)
  }

  /** 64 - leading_zeros(n) */
  function BitLength(n: nat): nat {
    if n == 0 then 0 else 1 + BitLength(n / 2)
  }

  function NumBits(min: nat, max: nat): (k: nat)
    ensures 1 <= k <= MAX_BITS
  {
    var range := SaturatingSub(max, min);
    var n := if range == 0 then 1 else BitLength(range);
    if n <= MAX_BITS then n else MAX_BITS
  }

  lemma {:induction false} BitLengthCovers(n: nat, m: nat)
    requires m <= n
    ensures m < Pow2(BitLength(n))
  {
    if n > 0 {
      BitLengthCovers(n / 2, m / 2);
    }
  }

  lemma {:induction false} BitLengthSmall(n: nat, k: nat)
    requires n < Pow2(k)
    ensures BitLength(n) <= k
  {
    if n > 0 {
      BitLengthSmall(n / 2, k - 1);
    }
  }

  lemma Pow2Of64()
    ensures Pow2(64) == TWO_64
  {
    assert Pow2(8) == 256;
    assert Pow2(16) == 0x1_0000;
    assert Pow2(24) == 0x100_0000;
    assert Pow2(32) == 0x1_0000_0000;
    assert Pow2(40) == 0x100_0000_0000;
    assert Pow2(48) == 0x1_0000_0000_0000;
    assert Pow2(56) == 0x100_0000_0000_0000;
  }

  lemma {:induction false} BitLengthExact(n: nat)
    requires n > 0
    ensures BitLength(n) >= 1 && Pow2(BitLength(n) - 1) <= n < Pow2(BitLength(n))
  {
    if n > 1 {
      BitLengthExact(n / 2);
    }
  }

  /** k bits hold the width of the range and k - 1 do not; one bit for an empty or one-value range. */
  ghost predicate LeastWidth(k: nat, min: nat, max: nat) {
    && (max > min ==> k >= 1 && Pow2(k - 1) <= max - min < Pow2(k))
    && (max <= min ==> k == 1)
  }

  lemma NumBitsExact(min: nat, max: nat)
    requires min < TWO_64 && max < TWO_64
    ensures LeastWidth(NumBits(min, max), min, max)
  {
    if max > min {
      BitLengthExact(max - min);
      Pow2Of64();
      BitLengthSmall(max - min, 64);
    }
  }

  /** The chosen number of bits covers every in-range offset. */
  lemma NumBitsCovers(w: Witness)
    requires IsU64(w) && w.min <= w.value <= w.max
    ensures w.value - w.min < Pow2(NumBits(w.min, w.max))
  {
    var range := w.max - w.min;
    Pow2Of64();
    BitLengthSmall(range, 64);
    BitLengthCovers(range, w.value - w.min);
  }

  // ----- decomposition and recomposition ----------------------------------------------------------

  /** The value of a bit byte: only its lowest bit counts. */
  function BitValue(b: byte): (v: nat)
    ensures v <= 1
  {
    if b & 1 == 1 then 1 else 0
  }

  function BitByte(v: nat): (b: byte)
    requires v <= 1
    ensures BitValue(b) == v && b == b & 1
  {
    if v == 1 then 1 else 0
  }

  /** The number with the given bits, least significant first. */
  function Recompose(bits: seq<byte>): nat {
    if bits == [] then 0 else BitValue(bits[0]) + 2 * Recompose(bits[1..])
  }

  /** The lowest k bits of x. */
  function BitsOf(x: nat, k: nat): (bits: seq<byte>)
    ensures |bits| == k
  {
    if k == 0 then [] else [BitByte(x % 2)] + BitsOf(x / 2, k - 1)
  }

  lemma {:induction false} BitsOfAt(x: nat, k: nat, i: nat)
    requires i < k
    ensures BitsOf(x, k)[i] == BitByte(ShiftRight(x, i) % 2)
  {
    hide BitByte;
    if i > 0 {
      BitsOfAt(x / 2, k - 1, i - 1);
    }
  }

  lemma {:induction false} ShiftRightIs(x: nat, i: nat)
    ensures ShiftRight(x, i) == x / Pow2(i)
  {
    if i > 0 {
      ShiftRightIs(x / 2, i - 1);
      DivDiv(x, 2, Pow2(i - 1));
    }
  }

  /** Bit i of the decomposition is the binary digit of weight 2^i, whether or not the number fits. */
  lemma BitsOfDigit(x: nat, k: nat, i: nat)
    requires i < k
    ensures BitValue(BitsOf(x, k)[i]) == x / Pow2(i) % 2
  {
    BitsOfAt(x, k, i);
    ShiftRightIs(x, i);
  }

  /** The 64-bit subtraction is subtraction modulo 2^64. */
  lemma WrappingSubIs(a: nat, b: nat)
    requires a < TWO_64 && b < TWO_64
    ensures WrappingSub(a, b) == (a - b) % TWO_64
  {}

  lemma {:induction false} RecomposeBitsOf(x: nat, k: nat)
    requires x < Pow2(k)
    ensures Recompose(BitsOf(x, k)) == x
  {
    hide BitByte, BitValue;
    if k > 0 {
      RecomposeBitsOf(x / 2, k - 1);
      assert BitsOf(x, k)[1..] == BitsOf(x / 2, k - 1);
    }
  }

  lemma {:induction false} RecomposeSnoc(bits: seq<byte>, b: byte)
    ensures Recompose(bits + [b]) == Recompose(bits) + ShiftLeft(BitValue(b), |bits|)
    ensures Recompose(bits) < Pow2(|bits|)
  {
    hide BitValue;
    if bits == [] {
      assert [b][1..] == [];
    } else {
      RecomposeSnoc(bits[1..], b);
      assert (bits + [b])[1..] == bits[1..] + [b];
      ShiftLeftStep(BitValue(b), |bits|);
    }
  }

  lemma ShiftLeftStep(v: nat, i: nat)
    requires v <= 1 && i > 0
    ensures ShiftLeft(v, i) == 2 * ShiftLeft(v, i - 1)
  {
    if v == 0 {} else {}
  }

  lemma {:induction false} BitOrZero(r: nat)
    ensures BitOr(r, 0) == r
  {
    if r > 0 {
      BitOrZero(r / 2);
    }
  }

  /** Or-ing in a bit above every set bit is addition. */
  lemma {:induction false} BitOrDisjoint(r: nat, v: nat, i: nat)
    requires r < Pow2(i) && v <= 1
    ensures BitOr(r, ShiftLeft(v, i)) == r + ShiftLeft(v, i)
    decreases i
  {
    if v == 0 {
      BitOrZero(r);
    } else if i == 0 {
      assert BitOr(0, 1) == 1;
    } else {
      ShiftLeftStep(v, i);
      BitOrDisjoint(r / 2, v, i - 1);
      var s := ShiftLeft(v, i);
      assert s / 2 == ShiftLeft(v, i - 1) && s % 2 == 0 && s > 0;
    }
  }

  // ----- commitments -----------------------------------------------------------------------------------

  function CommitInput(bit: byte, nonce: Hash32): ByteString {
    RANGE_BIT + [bit & 1] + nonce
  }

  function BitCommitment(h: Xof, bit: byte, nonce: Hash32): Hash32 {
    Digest(h, CommitInput(bit, nonce), HASH)
  }

  function NonceInput(w: Witness, i: nat): ByteString {
    RANGE_NONCE + Le64(w.value) + Le64(i) + Le64(w.min)
  }

  function Nonce(h: Xof, w: Witness, i: nat): Hash32 {
    Digest(h, NonceInput(w, i), HASH)
  }

  lemma TagLengths()
    ensures |RANGE_BIT| == 22 && |RANGE_NONCE| == 17
  {}

  /** The only 55-byte string with the tag, the masked bit and the nonce at bytes 0, 22 and 23. */
  lemma CommitString(bit: byte, nonce: Hash32, s: ByteString)
    ensures |s| == 55 && s[..22] == RANGE_BIT && s[22] == bit & 1 && s[23..] == nonce <==> s == CommitInput(bit, nonce)
  {
    TagLengths();
    hide RANGE_BIT;
    var n := CommitInput(bit, nonce);
    assert |n| == 55 && n[..22] == RANGE_BIT && n[22] == bit & 1 && n[23..] == nonce;
    if |s| == 55 {
      assert s == s[..22] + [s[22]] + s[23..];
    }
  }

  /** The string of a nonce: the tag, the value, the position and the minimum at bytes 0, 17, 25 and 33. */
  lemma NonceString(w: Witness, i: nat, s: ByteString)
    ensures |s| == 41 && s[..17] == RANGE_NONCE && s[17..25] == Le64(w.value) && s[25..33] == Le64(i) &&
            s[33..] == Le64(w.min) <==>
            s == NonceInput(w, i)
  {
    TagLengths();
    hide RANGE_NONCE, Le64;
    var n := NonceInput(w, i);
    assert |n| == 41 && n[..17] == RANGE_NONCE && n[17..25] == Le64(w.value);
    assert n[25..33] == Le64(i) && n[33..] == Le64(w.min);
    if |s| == 41 {
      assert s == s[..17] + s[17..25] + s[25..33] + s[33..];
    }
  }

  /** Commitments and nonces are the first 32 bytes of the hash of those strings. */
  lemma HashPositions(h: Xof, bit: byte, nonce: Hash32, w: Witness, i: nat, s: ByteString)
    ensures s == CommitInput(bit, nonce) ==> BitCommitment(h, bit, nonce) == h(s)[..32]
    ensures s == NonceInput(w, i) ==> Nonce(h, w, i) == h(s)[..32]
  {
    hide CommitInput, NonceInput, Digest;
    DigestPrefix(h, s, 32);
  }

  /** `bit_commitment`: the tag, the masked bit and the nonce, through the hasher. */
  method CommitBit(h: Xof, bit: byte, nonce: Hash32) returns (d: Hash32)
    ensures d == BitCommitment(h, bit, nonce)
  {
    hide RANGE_BIT, Digest;
    d := HashParts(h, [RANGE_BIT, [bit & 1], nonce], HASH);
    ConcatThree(RANGE_BIT, [bit & 1], nonce);
  }

  /** The nonce of bit i: value, position and minimum, through the hasher. */
  method DeriveNonce(h: Xof, w: Witness, i: nat) returns (d: Hash32)
    ensures d == Nonce(h, w, i)
  {
    hide RANGE_NONCE, Digest, Le64;
    d := HashParts(h, [RANGE_NONCE, Le64(w.value), Le64(i), Le64(w.min)], HASH);
    ConcatFour(RANGE_NONCE, Le64(w.value), Le64(i), Le64(w.min));
  }

  lemma CommitInputInjective(b: byte, n: Hash32, b': byte, n': Hash32)
    requires CommitInput(b, n) == CommitInput(b', n')
    ensures b & 1 == b' & 1 && n == n'
  {
    var k := |RANGE_BIT|;
    assert CommitInput(b, n)[k] == b & 1 && CommitInput(b', n')[k] == b' & 1;
    assert n == CommitInput(b, n)[k + 1..] && n' == CommitInput(b', n')[k + 1..];
  }

  // ----- the prover ----------------------------------------------------------------------------------------

  function Offset(w: Witness): nat
    requires w.value < TWO_64 && w.min < TWO_64
  {
    WrappingSub(w.value, w.min)
  }

  function HonestBits(w: Witness): (bits: seq<byte>)
    requires w.value < TWO_64 && w.min < TWO_64
    ensures |bits| == NumBits(w.min, w.max)
  {
    BitsOf(Offset(w), NumBits(w.min, w.max))
  }

  function HonestNonces(h: Xof, w: Witness): (nonces: seq<Hash32>)
    ensures |nonces| == NumBits(w.min, w.max)
  {
    seq(NumBits(w.min, w.max), i requires 0 <= i => Nonce(h, w, i))
  }

  function HonestStatement(h: Xof, w: Witness): Statement
    requires w.value < TWO_64 && w.min < TWO_64
  {
    var bits, nonces := HonestBits(w), HonestNonces(h, w);
    Statement(seq(|bits|, i requires 0 <= i < |bits| => BitCommitment(h, bits[i], nonces[i])), w.min, w.max)
  }

  /** 0x00 for an in-range value, 0xFF otherwise. */
  function CorruptMask(w: Witness): byte {
    var lo: bv8 := if w.value >= w.min then 1 else 0;
    var hi: bv8 := if w.value <= w.max then 1 else 0;
    (lo & hi) - 1
  }

  function CorruptFirst(nonces: seq<Hash32>, mask: byte): (r: seq<Hash32>)
    ensures |r| == |nonces|
  {
    if nonces == [] then [] else [MaskedNonce(nonces[0], mask)] + nonces[1..]
  }

  function MaskedNonce(nonce: Hash32, mask: byte): Hash32 {
    nonce[0 := nonce[0] ^ mask]
  }

  function HonestProof(h: Xof, w: Witness): Proof
    requires w.value < TWO_64 && w.min < TWO_64
  {
    Proof(HonestBits(w), CorruptFirst(HonestNonces(h, w), CorruptMask(w)))
  }

  method StatementFromWitness(h: Xof, w: Witness) returns (s: Statement)
    requires IsU64(w)
    ensures s == HonestStatement(h, w)
    ensures LeastWidth(|s.commitments|, w.min, w.max)
  {
    hide LeastWidth, Nonce, BitCommitment, BitsOf, NumBits, WrappingSub;
    var commitments := CommitAll(h, w);
    NumBitsExact(w.min, w.max);
    s := Statement(commitments, w.min, w.max);
  }

  /** The loop over the bits of the wrapped offset. */
  method CommitAll(h: Xof, w: Witness) returns (commitments: seq<Hash32>)
    requires IsU64(w)
    ensures commitments == HonestStatement(h, w).commitments
  {
    hide Nonce, BitCommitment, BitsOf, BitByte, ShiftRight, NumBits, WrappingSub;
    var numBits := NumBits(w.min, w.max);
    var offset := WrappingSub(w.value, w.min);
    commitments := [];
    ghost var honest := HonestStatement(h, w).commitments;
    for i := 0 to numBits
      invariant commitments == honest[..i]
    {
      var bit := BitByte(ShiftRight(offset, i) % 2);
      BitsOfAt(offset, numBits, i);
      var nonce := DeriveNonce(h, w, i);
      var commitment := CommitBit(h, bit, nonce);
      commitments := commitments + [commitment];
      assert commitments == honest[..i + 1];
    }
    assert honest[..numBits] == honest;
  }

  method Prove(h: Xof, w: Witness) returns (s: Statement, p: Proof)
    requires IsU64(w)
    ensures s == HonestStatement(h, w) && p == HonestProof(h, w)
  {
    hide Nonce, BitCommitment, BitsOf, BitByte, ShiftRight, NumBits, WrappingSub, MaskedNonce, CorruptMask;
    s := StatementFromWitness(h, w);
    var numBits := |s.commitments|;
    var offset := WrappingSub(w.value, w.min);
    var bits: seq<byte>, nonces: seq<Hash32> := [], [];
    for i := 0 to numBits
      invariant bits == HonestBits(w)[..i] && nonces == HonestNonces(h, w)[..i]
    {
      BitsOfAt(offset, numBits, i);
      bits := bits + [BitByte(ShiftRight(offset, i) % 2)];
      var nonce := DeriveNonce(h, w, i);
      nonces := nonces + [nonce];
      assert bits == HonestBits(w)[..i + 1];
      assert nonces == HonestNonces(h, w)[..i + 1];
    }
    assert nonces == HonestNonces(h, w) && bits == HonestBits(w);
    var corrupt := CorruptMask(w);
    if |nonces| > 0 {
      nonces := nonces[0 := MaskedNonce(nonces[0], corrupt)];
      assert nonces == CorruptFirst(HonestNonces(h, w), corrupt);
    }
    p := Proof(bits, nonces);
  }

  // ----- the verifier ----------------------------------------------------------------------------------------

  /** Commitment i opens to bit i and nonce i. */
  predicate OpensAt(h: Xof, s: Statement, p: Proof, i: nat)
    requires i < |s.commitments| && |p.bits| == |p.nonces| == |s.commitments|
  {
    BitCommitment(h, p.bits[i] & 1, p.nonces[i]) == s.commitments[i]
  }

  /** The first n commitments open. */
  ghost predicate OpensTo(h: Xof, s: Statement, p: Proof, n: nat)
    requires n <= |s.commitments| && |p.bits| == |p.nonces| == |s.commitments|
  {
    forall i :: 0 <= i < n ==> OpensAt(h, s, p, i)
  }

  ghost predicate Opens(h: Xof, s: Statement, p: Proof) {
    |p.bits| == |p.nonces| == |s.commitments| && OpensTo(h, s, p, |s.commitments|)
  }

  lemma OpensToNone(h: Xof, s: Statement, p: Proof)
    requires |p.bits| == |p.nonces| == |s.commitments|
    ensures OpensTo(h, s, p, 0)
  {}

  lemma OpensToStep(h: Xof, s: Statement, p: Proof, n: nat)
    requires n < |s.commitments| && |p.bits| == |p.nonces| == |s.commitments|
    ensures OpensTo(h, s, p, n + 1) <==>
      OpensTo(h, s, p, n) && BitCommitment(h, p.bits[n] & 1, p.nonces[n]) == s.commitments[n]
  {
    hide BitCommitment;
    assert OpensAt(h, s, p, n) <==> BitCommitment(h, p.bits[n] & 1, p.nonces[n]) == s.commitments[n];
    hide OpensAt;
  }

  /** The check min <= offset + min <= max, with the source's saturating addition. */
  predicate RangeCheck(offset: nat, min: nat, max: nat) {
    var value := SaturatingAdd(offset, min);
    value >= min && value <= max
  }

  ghost predicate Accepts(h: Xof, s: Statement, p: Proof) {
    |s.commitments| <= MAX_BITS && Opens(h, s, p) && RangeCheck(Recompose(p.bits), s.min, s.max)
  }

  /** `verify` answers, or aborts: a shift amount of 64 or more trips the overflow check of the build. */
  datatype Outcome = Panics | Verdict(accepted: bool)

  method Verify(h: Xof, s: Statement, p: Proof) returns (r: Outcome)
    ensures r.Panics? <==> |p.bits| == |p.nonces| == |s.commitments| && |s.commitments| > MAX_BITS
    ensures r == Verdict(true) <==> Accepts(h, s, p)
  {
    hide BitCommitment, RangeCheck, BitOr, ShiftLeft, Recompose, BitValue, OpensTo, OpensAt;
    var numBits := |s.commitments|;
    if |p.bits| != numBits || |p.nonces| != numBits {
      return Verdict(false);
    }
    var ok := true;
    var reconstructed := 0;
    RecomposeEmpty();
    assert p.bits[..0] == [];
    assert OpensTo(h, s, p, 0) by { OpensToNone(h, s, p); }
    for i := 0 to numBits
      invariant ok <==> OpensTo(h, s, p, i)
      invariant reconstructed == Recompose(p.bits[..i])
      invariant i <= MAX_BITS
    {
      var bit := p.bits[i] & 1;
      OpensToStep(h, s, p, i);
      var recomputed := CommitBit(h, bit, p.nonces[i]);
      ok := ok && recomputed == s.commitments[i];
      RecomposeStep(p.bits, i);
      if i >= MAX_BITS {
        return Panics;
      }
      reconstructed := BitOr(reconstructed, ShiftLeft(BitValue(bit), i));
    }
    assert p.bits[..numBits] == p.bits;
    return Verdict(ok && RangeCheck(reconstructed, s.min, s.max));
  }

  /** One iteration of the recomposition loop. */
  lemma RecomposeStep(bits: seq<byte>, i: nat)
    requires i < |bits|
    ensures BitOr(Recompose(bits[..i]), ShiftLeft(BitValue(bits[i] & 1), i)) == Recompose(bits[..i + 1])
  {
    hide BitOr, ShiftLeft, Recompose, BitValue;
    RecomposeSnoc(bits[..i], bits[i]);
    BitOrDisjoint(Recompose(bits[..i]), BitValue(bits[i]), i);
    LowBit(bits[i]);
    assert bits[..i + 1] == bits[..i] + [bits[i]];
  }

  lemma RecomposeEmpty()
    ensures Recompose([]) == 0
  {}

  lemma LowBit(b: byte)
    ensures BitValue(b & 1) == BitValue(b) && (b & 1) & 1 == b & 1
  {}

  // ----- what acceptance means ----------------------------------------------------------------------------------

  /** The saturating check is the unbounded check, except that max == 2^64 - 1 lets every offset through. */
  lemma RangeCheckExact(offset: nat, min: nat, max: nat)
    requires min < TWO_64 && max < TWO_64
    ensures RangeCheck(offset, min, max) <==> min <= offset + min <= max || max == U64_MAX
  {}

  /** Acceptance is exactly: at most 64 commitments, every one opens, and the committed value is in the range or
      max is 2^64 - 1. */
  lemma Soundness(h: Xof, s: Statement, p: Proof)
    requires s.min < TWO_64 && s.max < TWO_64
    ensures Accepts(h, s, p) <==>
      |s.commitments| <= MAX_BITS && Opens(h, s, p) && (s.min <= Recompose(p.bits) + s.min <= s.max || s.max == U64_MAX)
  {
    hide Opens, Recompose, RangeCheck;
    RangeCheckExact(Recompose(p.bits), s.min, s.max);
  }

  /** Every offset of k bits that passes the check is in the range, if and only if max is below 2^64 - 1 or the
      largest offset of k bits stays within max. */
  lemma RangeCheckSoundIff(k: nat, min: nat, max: nat)
    requires min < TWO_64 && max < TWO_64
    ensures (forall offset: nat :: offset < Pow2(k) && RangeCheck(offset, min, max) ==> offset + min <= max) <==>
            (max < U64_MAX || min + Pow2(k) - 1 <= max)
  {
    var largest := Pow2(k) - 1;
    RangeCheckExact(largest, min, max);
    hide Pow2;
    assert largest < Pow2(k);
  }

  /** Every accepted proof of a statement with k commitments over [min, max] opens to a value in [min, max]. */
  ghost predicate PromiseKept(h: Xof, k: nat, min: nat, max: nat) {
    forall commitments, p :: |commitments| == k && Accepts(h, Statement(commitments, min, max), p) ==>
                               min <= Recompose(p.bits) + min <= max
  }

  /** Commitments to the bits of x, opened. */
  lemma OpeningOf(h: Xof, x: nat, k: nat, nonce: Hash32) returns (commitments: seq<Hash32>, p: Proof)
    requires x < Pow2(k)
    ensures |commitments| == k && Recompose(p.bits) == x
    ensures forall min, max :: Opens(h, Statement(commitments, min, max), p)
  {
    hide BitCommitment, Recompose, BitByte, Pow2;
    var bits := BitsOf(x, k);
    RecomposeBitsOf(x, k);
    p := Proof(bits, seq(k, _ => nonce));
    commitments := seq(k, i requires 0 <= i < k => BitCommitment(h, bits[i], nonce));
    forall i | 0 <= i < k
      ensures bits[i] & 1 == bits[i]
    {
      BitsOfAt(x, k, i);
    }
    forall min, max
      ensures Opens(h, Statement(commitments, min, max), p)
    {
      var s := Statement(commitments, min, max);
      assert forall i :: 0 <= i < k ==> OpensAt(h, s, p, i);
    }
  }

  lemma {:induction false} RecomposeBound(bits: seq<byte>)
    ensures Recompose(bits) < Pow2(|bits|)
  {
    if bits != [] {
      RecomposeBound(bits[1..]);
    }
  }

  lemma PromiseBroken(h: Xof, k: nat, min: nat, max: nat, nonce: Hash32)
    requires min < TWO_64 && k <= MAX_BITS && max == U64_MAX && min + Pow2(k) - 1 > max
    ensures !PromiseKept(h, k, min, max)
  {
    hide Opens, Recompose, Pow2;
    var commitments, p := OpeningOf(h, Pow2(k) - 1, k, nonce);
    var s := Statement(commitments, min, max);
    assert Opens(h, s, p);
    Soundness(h, s, p);
    assert Accepts(h, s, p);
  }

  /** The exact condition on the statement: all accepted proofs keep the promise min <= value <= max if and only if
      max is below 2^64 - 1 or the largest committed offset stays within max.  (More than 64 commitments are
      never accepted.) */
  lemma SoundIff(h: Xof, k: nat, min: nat, max: nat)
    requires min < TWO_64 && max < TWO_64
    ensures PromiseKept(h, k, min, max) <==> k > MAX_BITS || max < U64_MAX || min + Pow2(k) - 1 <= max
  {
    hide Opens, Recompose, Pow2, RangeCheck;
    if k > MAX_BITS || max < U64_MAX || min + Pow2(k) - 1 <= max {
      forall commitments, p | |commitments| == k && Accepts(h, Statement(commitments, min, max), p)
        ensures min <= Recompose(p.bits) + min <= max
      {
        assert |p.bits| == k by { OpensLengths(h, Statement(commitments, min, max), p); }
        RecomposeBound(p.bits);
        RangeCheckExact(Recompose(p.bits), min, max);
      }
    } else {
      PromiseBroken(h, k, min, max, ZeroBytes(HASH));
    }
  }

  lemma OpensLengths(h: Xof, s: Statement, p: Proof)
    ensures Opens(h, s, p) ==> |p.bits| == |p.nonces| == |s.commitments|
  {}

  /** An instance: at max == 2^64 - 1 a committed value above max is accepted. */
  lemma SaturationAccepts(h: Xof, nonce: Hash32)
    ensures var s := Statement([BitCommitment(h, 1, nonce)], U64_MAX, U64_MAX);
      var p := Proof([1], [nonce]);
      Accepts(h, s, p) && Recompose(p.bits) + s.min > s.max
  {
    hide BitCommitment;
    var bits: seq<byte> := [1];
    assert bits[1..] == [];
    assert Recompose(bits) == 1;
    LowBit(1);
  }

  /** The first position where two openings differ; the strings hashed there. */
  function BindingPair(p: Proof, q: Proof, i: nat): Pair
    requires |p.bits| == |p.nonces| == |q.bits| == |q.nonces|
    requires i <= |p.bits|
    decreases |p.bits| - i
  {
    if i == |p.bits| then Pair([], [])
    else if p.bits[i] & 1 != q.bits[i] & 1 || p.nonces[i] != q.nonces[i]
    then Pair(CommitInput(p.bits[i] & 1, p.nonces[i]), CommitInput(q.bits[i] & 1, q.nonces[i]))
    else BindingPair(p, q, i + 1)
  }

  ghost predicate SameOpening(p: Proof, q: Proof, i: nat)
    requires |p.bits| == |p.nonces| == |q.bits| == |q.nonces|
  {
    forall k :: i <= k < |p.bits| ==> p.bits[k] & 1 == q.bits[k] & 1 && p.nonces[k] == q.nonces[k]
  }

  lemma {:induction false} BindingFrom(h: Xof, s: Statement, p: Proof, q: Proof, i: nat)
    requires |p.bits| == |p.nonces| == |q.bits| == |q.nonces| == |s.commitments| && i <= |s.commitments|
    ensures Opens(h, s, p) && Opens(h, s, q) ==>
      SameOpening(p, q, i) || var c := BindingPair(p, q, i); Collision(h, c.x, c.y, HASH)
    decreases |s.commitments| - i
  {
    hide CommitInput, Digest;
    if i < |s.commitments| && Opens(h, s, p) && Opens(h, s, q) {
      BindingFrom(h, s, p, q, i + 1);
      assert OpensAt(h, s, p, i) && OpensAt(h, s, q, i);
      var b, b' := p.bits[i] & 1, q.bits[i] & 1;
      LowBit(p.bits[i]);
      LowBit(q.bits[i]);
      if CommitInput(b, p.nonces[i]) == CommitInput(b', q.nonces[i]) {
        CommitInputInjective(b, p.nonces[i], b', q.nonces[i]);
      }
    }
  }

  lemma {:induction false} SameBitsSameValue(a: seq<byte>, b: seq<byte>)
    requires |a| == |b| && forall k :: 0 <= k < |a| ==> a[k] & 1 == b[k] & 1
    ensures Recompose(a) == Recompose(b)
  {
    if a != [] {
      SameBitsSameValue(a[1..], b[1..]);
    }
  }

  /** Two accepted proofs of one statement open to the same value and nonces, or yield an explicit collision. */
  lemma Binding(h: Xof, s: Statement, p: Proof, q: Proof)
    ensures Accepts(h, s, p) && Accepts(h, s, q) ==>
      (Recompose(p.bits) == Recompose(q.bits) && p.nonces == q.nonces)
      || var c := BindingPair(p, q, 0); Collision(h, c.x, c.y, HASH)
  {
    hide OpensAt, Recompose, RangeCheck, Collision, BindingPair;
    if Accepts(h, s, p) && Accepts(h, s, q) {
      BindingFrom(h, s, p, q, 0);
      if SameOpening(p, q, 0) {
        SameBitsSameValue(p.bits, q.bits);
        assert p.nonces == q.nonces;
      }
    }
  }

  // ----- completeness and honest rejection ---------------------------------------------------------------------------

  lemma MaskLaws(w: Witness, nonce: Hash32)
    ensures w.min <= w.value <= w.max ==> MaskedNonce(nonce, CorruptMask(w)) == nonce
    ensures !(w.min <= w.value <= w.max) ==> MaskedNonce(nonce, CorruptMask(w)) != nonce
  {
    var mask := CorruptMask(w);
    if w.min <= w.value <= w.max {
      assert mask == 0;
      XorZero(nonce[0]);
    } else {
      assert mask == 0xFF;
      XorOnes(nonce[0]);
      assert MaskedNonce(nonce, mask)[0] != nonce[0];
    }
  }

  /** The source masks the first nonce only, and of it the first byte only, by complementing it. */
  lemma HonestProofNonces(h: Xof, w: Witness)
    requires IsU64(w)
    ensures var p, nonces := HonestProof(h, w), HonestNonces(h, w);
      && |p.nonces| == |nonces| && p.nonces[1..] == nonces[1..] && p.nonces[0][1..] == nonces[0][1..]
      && p.nonces[0][0] == if w.min <= w.value <= w.max then nonces[0][0] else !nonces[0][0]
  {
    hide Nonce, NumBits, BitsOf;
    var nonces := HonestNonces(h, w);
    MaskedByte(w, nonces[0][0]);
    hide CorruptMask;
  }

  lemma MaskedByte(w: Witness, b: byte)
    ensures b ^ CorruptMask(w) == if w.min <= w.value <= w.max then b else !b
  {}

  lemma XorZero(b: byte)
    ensures b ^ 0 == b
  {}

  lemma XorOnes(b: byte)
    ensures b ^ 0xFF != b
  {}

  /** Every value in [min, max] is accepted. */
  lemma Completeness(h: Xof, w: Witness)
    requires IsU64(w) && w.min <= w.value <= w.max
    ensures Accepts(h, HonestStatement(h, w), HonestProof(h, w))
  {
    hide Nonce, BitCommitment, NumBits, Recompose, MaskedNonce, CorruptMask, BitByte;
    var s, p := HonestStatement(h, w), HonestProof(h, w);
    var nonces := HonestNonces(h, w);
    MaskLaws(w, nonces[0]);
    assert p.nonces == nonces;
    forall i | 0 <= i < |s.commitments|
      ensures OpensAt(h, s, p, i)
    {
      BitsOfAt(Offset(w), |s.commitments|, i);
      assert p.bits[i] & 1 == p.bits[i];
    }
    NumBitsCovers(w);
    RecomposeBitsOf(Offset(w), NumBits(w.min, w.max));
    assert Recompose(p.bits) == w.value - w.min;
  }

  /** Every other value, including every value when min > max, is rejected, unless the first bit's true and
      corrupted nonces form an explicit collision. */
  lemma HonestRejection(h: Xof, w: Witness)
    requires IsU64(w) && !(w.min <= w.value <= w.max)
    ensures !Accepts(h, HonestStatement(h, w), HonestProof(h, w))
      || var b, n := HonestBits(w)[0], HonestNonces(h, w)[0];
         Collision(h, CommitInput(b, MaskedNonce(n, CorruptMask(w))), CommitInput(b, n), HASH)
  {
    hide Nonce, NumBits, Recompose, MaskedNonce, CorruptMask, BitByte, RangeCheck, CommitInput, Digest;
    var s, p := HonestStatement(h, w), HonestProof(h, w);
    var b, n := HonestBits(w)[0], HonestNonces(h, w)[0];
    var n' := MaskedNonce(n, CorruptMask(w));
    MaskLaws(w, n);
    BitsOfAt(Offset(w), |s.commitments|, 0);
    assert p.nonces[0] == n' && p.bits[0] == b == b & 1;
    if CommitInput(b, n') == CommitInput(b, n) {
      CommitInputInjective(b, n', b, n);
    }
    if Accepts(h, s, p) {
      assert OpensAt(h, s, p, 0);
    }
  }
}
