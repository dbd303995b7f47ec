/** The domain-separation tags, as bytes; the comment beside each gives its ASCII text. */
module Domain {
  import opened Bytes

  /** Binds a transcript to its protocol label.  "veil7:fs:protocol:v1" */
  const FS_PROTOCOL: ByteString :=
    [118, 101, 105, 108, 55, 58, 102, 115, 58, 112, 114, 111, 116, 111, 99, 111, 108, 58, 118, 49]

  /** Frames an absorb.  "veil7:fs:absorb:v1" */
  const FS_ABSORB: ByteString :=
    [118, 101, 105, 108, 55, 58, 102, 115, 58, 97, 98, 115, 111, 114, 98, 58, 118, 49]

  /** Frames the squeeze of challenge bytes.  "veil7:fs:squeeze:v1" */
  const FS_SQUEEZE: ByteString :=
    [118, 101, 105, 108, 55, 58, 102, 115, 58, 115, 113, 117, 101, 101, 122, 101, 58, 118, 49]

  /** Frames the folding of an emitted challenge.  "veil7:fs:post-challenge:v1" */
  const FS_POST_CHALLENGE: ByteString :=
    [118, 101, 105, 108, 55, 58, 102, 115, 58, 112, 111, 115, 116, 45, 99, 104, 97, 108, 108, 101, 110, 103,
     101, 58, 118, 49]

  /** Opens an event chain.  "veil7:chain:head:v1" */
  const CHAIN_HEAD: ByteString :=
    [118, 101, 105, 108, 55, 58, 99, 104, 97, 105, 110, 58, 104, 101, 97, 100, 58, 118, 49]

  /** Precedes every event of a chain.  "veil7:chain:step:v1" */
  const CHAIN_STEP: ByteString :=
    [118, 101, 105, 108, 55, 58, 99, 104, 97, 105, 110, 58, 115, 116, 101, 112, 58, 118, 49]

  /** Leaf hashing.  "veil7:rel:merkle:leaf:v1" */
  const MERKLE_LEAF: ByteString :=
    [118, 101, 105, 108, 55, 58, 114, 101, 108, 58, 109, 101, 114, 107, 108, 101, 58, 108, 101, 97, 102, 58, 118, 49]

  /** Internal node hashing.  "veil7:rel:merkle:node:v1" */
  const MERKLE_NODE: ByteString :=
    [118, 101, 105, 108, 55, 58, 114, 101, 108, 58, 109, 101, 114, 107, 108, 101, 58, 110, 111, 100, 101, 58, 118, 49]

  /** Bit commitments.  "veil7:rel:range:bit:v1" */
  const RANGE_BIT: ByteString :=
    [118, 101, 105, 108, 55, 58, 114, 101, 108, 58, 114, 97, 110, 103, 101, 58, 98, 105, 116, 58, 118, 49]

  /** Nonce derivation of the range prover.  "veil7:range:nonce" */
  const RANGE_NONCE: ByteString :=
    [118, 101, 105, 108, 55, 58, 114, 97, 110, 103, 101, 58, 110, 111, 110, 99, 101]

  /** Opens an execution trace.  "veil7:vm-trace:v2" */
  const VM_TRACE: ByteString :=
    [118, 101, 105, 108, 55, 58, 118, 109, 45, 116, 114, 97, 99, 101, 58, 118, 50]

  /** Hashing of stored ORAM values.  "veil7:oram:hash:v1" */
  const ORAM_HASH: ByteString :=
    [118, 101, 105, 108, 55, 58, 111, 114, 97, 109, 58, 104, 97, 115, 104, 58, 118, 49]

  /** The bytes from position `at` on are the characters of the text. */
  ghost predicate HasText(tag: ByteString, at: nat, text: string) {
    at + |text| <= |tag| && forall i :: 0 <= i < |text| ==> tag[at + i] as nat == text[i] as nat
  }

  // The tags, as the text they stand for.

  lemma TagStarts()
    ensures HasText(FS_PROTOCOL, 0, "veil7:")
    ensures FS_ABSORB[..6] == FS_PROTOCOL[..6]
    ensures FS_SQUEEZE[..6] == FS_PROTOCOL[..6]
    ensures FS_POST_CHALLENGE[..6] == FS_PROTOCOL[..6]
    ensures CHAIN_HEAD[..6] == FS_PROTOCOL[..6]
    ensures CHAIN_STEP[..6] == FS_PROTOCOL[..6]
    ensures MERKLE_LEAF[..6] == FS_PROTOCOL[..6]
    ensures MERKLE_NODE[..6] == FS_PROTOCOL[..6]
    ensures RANGE_BIT[..6] == FS_PROTOCOL[..6]
    ensures RANGE_NONCE[..6] == FS_PROTOCOL[..6]
    ensures VM_TRACE[..6] == FS_PROTOCOL[..6]
    ensures ORAM_HASH[..6] == FS_PROTOCOL[..6]
  {}

  lemma FsProtocolTextStart()
    ensures HasText(FS_PROTOCOL, 6, "fs:protocol:")
  {}

  lemma FsProtocolTextEnd()
    ensures |FS_PROTOCOL| == 20
    ensures HasText(FS_PROTOCOL, 18, "v1")
  {}

  lemma FsAbsorbText()
    ensures |FS_ABSORB| == 18
    ensures HasText(FS_ABSORB, 6, "fs:absorb:v1")
  {}

  lemma FsSqueezeText()
    ensures |FS_SQUEEZE| == 19
    ensures HasText(FS_SQUEEZE, 6, "fs:squeeze:v1")
  {}

  lemma FsPostChallengeTextStart()
    ensures HasText(FS_POST_CHALLENGE, 6, "fs:post-")
  {}

  lemma FsPostChallengeTextEnd()
    ensures |FS_POST_CHALLENGE| == 26
    ensures HasText(FS_POST_CHALLENGE, 14, "challenge:v1")
  {}

  lemma ChainHeadText()
    ensures |CHAIN_HEAD| == 19
    ensures HasText(CHAIN_HEAD, 6, "chain:head:v1")
  {}

  lemma ChainStepText()
    ensures |CHAIN_STEP| == 19
    ensures HasText(CHAIN_STEP, 6, "chain:step:v1")
  {}

  lemma MerkleLeafTextStart()
    ensures HasText(MERKLE_LEAF, 6, "rel:merkle:")
  {}

  lemma MerkleLeafTextEnd()
    ensures |MERKLE_LEAF| == 24
    ensures HasText(MERKLE_LEAF, 17, "leaf:v1")
  {}

  lemma MerkleNodeTextStart()
    ensures HasText(MERKLE_NODE, 6, "rel:merkle:")
  {}

  lemma MerkleNodeTextEnd()
    ensures |MERKLE_NODE| == 24
    ensures HasText(MERKLE_NODE, 17, "node:v1")
  {}

  lemma RangeBitTextStart()
    ensures HasText(RANGE_BIT, 6, "rel:range:")
  {}

  lemma RangeBitTextEnd()
    ensures |RANGE_BIT| == 22
    ensures HasText(RANGE_BIT, 16, "bit:v1")
  {}

  lemma RangeNonceText()
    ensures |RANGE_NONCE| == 17
    ensures HasText(RANGE_NONCE, 6, "range:nonce")
  {}

  lemma VmTraceText()
    ensures |VM_TRACE| == 17
    ensures HasText(VM_TRACE, 6, "vm-trace:v2")
  {}

  lemma OramHashText()
    ensures |ORAM_HASH| == 18
    ensures HasText(ORAM_HASH, 6, "oram:hash:v1")
  {}
}
