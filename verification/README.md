# veil7: a Dafny model of its algebra, trees, interpreter and framing

The project models the parts of veil7 that the engine itself computes, and proves what they promise:
Shamir sharing over GF(2^8), the Merkle inclusion relation, the MicroVM, the Fiat-Shamir transcript, the
event chain, the range proof, the oblivious RAM and the locked-memory budget.

`dafny verify dfyconfig.toml` checks everything.

## How the model is set up

- **Hash.** SHAKE256 is a parameter `h` of type `Shake256.Xof`: any function from byte strings to 256 bytes.
  `Digest(h, s, n)` is what a fresh reader yields for an `n`-byte read. No result assumes collision
  resistance. A binding result computes two named strings from the given inputs and proves that they are
  different and have the same digest.
- **Words.** Bytes are `bv8`. MicroVM words are `bv64`; `WordValue` is the number a word stands for, division is
  division of those numbers, and a shift by n is n shifts by one bit. In the range proof, 64-bit values are natural
  numbers with wrap-around, saturation, shifts and bitwise or written out. Lengths and counters use `Le64`.
- **Loops and objects.** Loops of the source are methods with invariants; `MicroVM`, `BytecodeBuilder`,
  `Transcript`, `ChainState`, `ObliviousRAM` and the SHAKE256 wrapper are classes. Each is tied to a
  specification function about which the lemmas are proved. Some inner loops and branch-free word updates
  are methods or functions of their own, so that each proof stays small.
- **Merkle reduction.** `Reduction` proves the level reduction for any node type and any combining function;
  the loops in `Merkle` use it with the tagged node hash.
- **Memory traces.** The scans of the oblivious RAM are programs of a load/store language. A program gets at a
  slot only through a load or a store, and the interpreter `Oram.Exec` computes registers, memory and access log
  together; `Oram.ExecInPlace` is the interpreter on arrays.
- **Aborts.** A panic of the source is an outcome (`Panics`) of `Shamir.Split` and `RangeProof.Verify`.
- **Randomness.** The bytes of `getrandom` are the input `rng` of `Shamir.Split`; the canary is an input of
  `MicroVM.WithCanary`.
- **Interleavings.** The memory budget is a state machine whose events are the atomic steps of any number of
  threads; a run is any sequence of enabled events. Buffers have addresses, and the state holds the set of pages
  that the operating system keeps in memory.

Files: `Wrappers`, `Bytes`, `Domain`, `Shake256` (shared), `Gf256`, `Gf256Reference`, `Polynomial`, `Shamir`, `Reduction`,
`Merkle`, `VmWords`, `VmArithmetic`, `VmSemantics`, `VmMeaning`, `MicroVm`, `Transcript`, `Chain`, `RangeProof`, `Oram`, `Memlock`, `MemlockPages`.

## Where the code and its documentation differ

The model follows the code.

- `src/chain.rs:9-10` says that tampering with any event changes the root. Events are separated by a tag with
  no length, so lists that agree after cutting every event at that tag share a root whatever the hash.
  `Chain.SameStreamIff` gives the exact condition and `Chain.JoinedEventsShareRoot` the failing family.
- `src/layers/l0_memlock.rs:449` says that the pages of a buffer with `locked` set are locked. `munlock` acts on
  whole pages and locks do not add up, so a drop unlocks every other buffer on its pages (`SECURITY.md:122` calls
  this theoretical). `MemlockPages.LiveSecretOnUnpinnedPage` is such a run; `MemlockPages.StepKeepsPagesIff`,
  `RunKeepsPagesIff` and `AlwaysStaysLockedIff` give the exact condition for one step, one run and all
  continuations.
- `src/relations/range_proof.rs:17` promises `min <= value <= max`. The addition saturates. `RangeProof.SoundIff`
  gives the exact condition on the statement (`max < 2^64 - 1`, or the largest committed offset stays within
  `max`), and `RangeProof.SaturationAccepts` an instance where it fails.
- `src/shamir.rs:116` allows thresholds up to `n`; the coefficient buffer holds 32, so `split` panics exactly on
  the valid requests with `t > 32` (`Shamir.Split`; `Shamir.SplitPanicsAt33` is the smallest).
- `src/shamir.rs:160-164` promises `None` for too few shares and says that extra shares are ignored.
  `Shamir.Reconstruct` returns a value for every nonempty list with distinct indices.
  `Shamir.EnoughSharesIff`: that value is the secret of every splitting exactly when at least `t` shares are given.
  `Shamir.ReconstructedByteIff` says for any number of shares exactly when a byte comes out right
  (`Shamir.OneShareShort`: with `t - 1` shares, exactly when the last random coefficient of its lane is 0), and
  `Shamir.EveryShareCounts` exactly when a change to one share goes unnoticed.
- `src/storage/oram.rs:59` says that `read` hashes before returning; the code returns the stored (already
  hashed) content; `Oram.FreshReadIsGenesis` is an instance. `read_modify_write` returns the new value before hashing.
- `src/storage/oram.rs:15-16` and `:170-174` say that reads, writes and swaps make identical traffic.
  `Oram.LogTellsKinds`: only a swap and a modification, which are two scans each, look alike.
- A Merkle proof carries its own leaf count. `Merkle.MembershipSoundness` holds for every claimed count. For raw
  hashes the claimed count matters: `Merkle.RawOpeningSound` and `Merkle.RawOpeningComplete` say exactly which
  hashes are accepted at a claimed position and count, and `Merkle.LeafOpeningsIff` when that is the leaf at the
  position. `Merkle.OtherCountOpensInnerNode` is a failing instance, `Merkle.OtherCountOpensSameLeaf` a harmless one.

## Model

| member | source | states |
|---|---|---|
| Gf256.MulComm | src/shamir.rs:43-58 | the product loop is commutative |
| Gf256.MulAssoc | src/shamir.rs:43-58 | the product loop is associative |
| Gf256.MulDistRight | src/shamir.rs:43-58 | the product distributes over XOR |
| Gf256.MulUnits | src/shamir.rs:43-58 | 1 is the unit and 0 the annihilator, on both sides |
| Gf256.NoZeroDivisors | src/shamir.rs:43-77 | a product is 0 exactly when a factor is |
| Gf256.PowOrder | src/shamir.rs:60-64 | a^256 == a for every byte, by linearity of squaring (Fermat's theorem in the field) |
| Gf256.InvIsInverse | src/shamir.rs:60-77 | a^254 is a nonzero inverse of every nonzero a |
| Gf256.InvUnique | src/shamir.rs:60-77 | a^254 is the only inverse of a, and 0 maps to 0 |
| Gf256Reference.MulIsProductModPoly | src/shamir.rs:36-58 | the product is the one and only remainder of the carry-less product modulo x^8+x^4+x^3+x+1 (section 4.2 of FIPS 197) |
| Shamir.GfMul | src/shamir.rs:43-58 | the masked 16-bit loop computes the field product |
| Shamir.GfInv | src/shamir.rs:65-77 | the masked square-and-multiply loop computes a^254 |
| Shamir.GfEval | src/shamir.rs:81-89 | the running-power loop evaluates the polynomial |
| Polynomial.RootsForceZero | src/shamir.rs:81-89 | a polynomial with as many distinct roots as coefficients is zero |
| Polynomial.EvalIsSum | src/shamir.rs:81-89 | the value is the sum of the coefficients times the powers of x |
| Polynomial.AgreeingPolynomialsEqual | src/shamir.rs:81-89 | interpolation is unique |
| Polynomial.Interpolant | src/shamir.rs:81-89 | interpolation exists: every list of values at distinct points is taken by a polynomial of that length |
| Polynomial.LagrangeRecovers | src/shamir.rs:185-208 | the Lagrange sum recovers every polynomial with at most as many coefficients as points, at every argument |
| Polynomial.InterpolationError | src/shamir.rs:185-208 | for any polynomial and any distinct points, too few included, the Lagrange sum misses the polynomial by exactly the product of the differences times the quotient |
| Polynomial.DenominatorNonzero | src/shamir.rs:188-205 | for distinct indices the denominator and its inverse are nonzero |
| Shamir.Split | src/shamir.rs:120-156 | rejects exactly n < 1, t < 2 or t > n; panics exactly on the other requests with t > 32; otherwise share i has index i + 1 and the evaluations of the 64 lane polynomials there |
| Shamir.IndexOfIs | src/shamir.rs:128-133 | the share at position i has the index i + 1 |
| Shamir.ShareByte | src/shamir.rs:135-146 | byte pos of the share at x is secret[pos] plus the sum of rng[32 * pos + j] * x^j over 1 <= j < t |
| Shamir.SplitPanicsAt33 | src/shamir.rs:139-142 | the smallest documented request that panics: n = t = 33 |
| Shamir.BuildCoefficients | src/shamir.rs:137-142 | the coefficient loop builds the lane polynomial, or runs past the 32-byte buffer exactly when t > 32 |
| Shamir.Reconstruct | src/shamir.rs:165-214 | fails exactly on no shares or a repeated index (the zero-inverse exit is unreachable); otherwise returns the interpolation of every lane at 0 |
| Shamir.HasDuplicate | src/shamir.rs:172-179 | finds a repeated index exactly when there is one |
| Shamir.BasisAtZero | src/shamir.rs:188-199 | the skipping loop computes the products over all other indices |
| Shamir.RoundTrip | src/shamir.rs:120-214 | any list of at least t shares of one splitting with distinct indices, in any order, interpolates to the secret |
| Shamir.SplitAndReconstruct | src/shamir.rs:120-214 | splitting, keeping any t or more shares in any order and reconstructing returns exactly the secret |
| Shamir.HidingExactlyOne | src/shamir.rs:108-146 | given t - 1 share bytes, every candidate secret byte has exactly one coefficient vector |
| Shamir.HidingAtLeastOne | src/shamir.rs:108-146 | given fewer share bytes, every candidate secret byte has a coefficient vector |
| Shamir.SharesHideSecret | src/shamir.rs:108-156 | for fewer than t indices and any two 64-byte secrets, XOR with one mask maps the random buffers of one secret to those of the other with the same shares, and is its own inverse: perfect hiding |
| Shamir.TooFewSharesUnnoticed | src/shamir.rs:108-114 | below the threshold every other secret has a splitting with the very same shares |
| Shamir.EnoughSharesIff | src/shamir.rs:158-168 | the reconstructed value is the secret of every splitting exactly when at least t shares are given |
| Shamir.ReconstructedByteIff | src/shamir.rs:158-214 | for any number of shares, a byte is reconstructed right exactly when nothing is left of its lane polynomial after division by the indices, or what is left has constant term 0 |
| Shamir.OneShareShort | src/shamir.rs:158-214 | with t - 1 shares a byte is reconstructed right exactly when the last random coefficient of its lane is 0 |
| Shamir.EveryShareCounts | src/shamir.rs:160-214 | changing a byte of one share changes that byte of the result, unless it is the same byte or another share has index 0, for any number of distinct shares |
| Shake256.Hasher.Update | src/shake256.rs:47-49 | appends to the absorbed bytes |
| Shake256.Hasher.FinalizeXof | src/shake256.rs:55-63 | yields a reader at position 0 over the 256 bytes of the absorbed string |
| Shake256.Reader.Read | src/shake256.rs:95-107 | byte k of the slice becomes output byte pos + k, or 0 past the 256 bytes, and the position advances |
| Shake256.ReadsCompose | src/shake256.rs:95-107 | reading in two pieces is reading at once, past the end included |
| Shake256.WindowAt | src/shake256.rs:95-107 | byte k of a read at pos is output byte pos + k, or 0 past the end |
| Shake256.DigestPrefix | src/shake256.rs:55-107 | a digest of up to 256 bytes is that prefix of the output; only zeros follow the 256 bytes |
| Domain.TagStarts | src/common/domain.rs:31-89 | every tag starts with veil7: |
| Domain.FsProtocolTextStart | src/common/domain.rs:31 | the tag spells fs:protocol: from byte 6 |
| Domain.FsProtocolTextEnd | src/common/domain.rs:31 | the tag spells v1 from byte 18 to its end |
| Domain.FsAbsorbText | src/common/domain.rs:33 | the tag spells fs:absorb:v1 from byte 6 to its end |
| Domain.FsSqueezeText | src/common/domain.rs:37 | the tag spells fs:squeeze:v1 from byte 6 to its end |
| Domain.FsPostChallengeTextStart | src/common/domain.rs:39 | the tag spells fs:post- from byte 6 |
| Domain.FsPostChallengeTextEnd | src/common/domain.rs:39 | the tag spells challenge:v1 from byte 14 to its end |
| Domain.ChainHeadText | src/common/domain.rs:75 | the tag spells chain:head:v1 from byte 6 to its end |
| Domain.ChainStepText | src/common/domain.rs:77 | the tag spells chain:step:v1 from byte 6 to its end |
| Domain.MerkleLeafTextStart | src/common/domain.rs:87 | the tag spells rel:merkle: from byte 6 |
| Domain.MerkleLeafTextEnd | src/common/domain.rs:87 | the tag spells leaf:v1 from byte 17 to its end |
| Domain.MerkleNodeTextStart | src/common/domain.rs:89 | the tag spells rel:merkle: from byte 6 |
| Domain.MerkleNodeTextEnd | src/common/domain.rs:89 | the tag spells node:v1 from byte 17 to its end |
| Domain.RangeBitTextStart | src/common/domain.rs:95 | the tag spells rel:range: from byte 6 |
| Domain.RangeBitTextEnd | src/common/domain.rs:95 | the tag spells bit:v1 from byte 16 to its end |
| Domain.RangeNonceText | src/relations/range_proof.rs:136 | the tag spells range:nonce from byte 6 to its end |
| Domain.VmTraceText | src/execution/vm.rs:171 | the tag spells vm-trace:v2 from byte 6 to its end |
| Domain.OramHashText | src/storage/oram.rs:242 | the tag spells oram:hash:v1 from byte 6 to its end |
| Bytes.LittleEndianAt | src/common/transcript.rs:109-114 | byte j of a length field is the digit of weight 256^j |
| Reduction.SplitPointIsLargest | src/relations/merkle.rs:109-143 | the split point of the reference is the largest power of two below the length (section 2.1 of RFC 6962) |
| Reduction.TreeHeadStep | src/relations/merkle.rs:124-136 | one level reduction with promotion keeps the RFC 6962 tree head |
| Reduction.AuditPathStep | src/relations/merkle.rs:112-136 | one level reduction takes the recorded sibling off the RFC 6962 audit path |
| Reduction.ReplayHonest | src/relations/merkle.rs:214-236 | replaying the audit path of any position ends at the tree head with no sibling left over |
| Reduction.ReplayBinding | src/relations/merkle.rs:214-236 | two openings of one position with the same result are equal, or the replays exhibit two argument pairs with the same combined value |
| Reduction.ReplayIsClimb | src/relations/merkle.rs:214-236 | for any claimed position and count the replay succeeds exactly with one sibling for each side, and is the climb along them |
| Reduction.SidesArePathSides | src/relations/merkle.rs:214-236 | the sides taken level by level are those of the way from the root in the RFC 6962 tree |
| Reduction.LocateLeaf | src/relations/merkle.rs:214-236 | a list of sides leads to the leaf at position i exactly when it is the list of sides of position i |
| Merkle.HashLeaf | src/relations/merkle.rs:78-95 | returns the first 32 bytes of the hash of the string with the tag at byte 0 and the data at byte 24 |
| Merkle.HashNode | src/relations/merkle.rs:78-100 | returns the first 32 bytes of the hash of the 88 bytes with tag, left and right at bytes 0, 24 and 56 |
| Merkle.LeafString | src/relations/merkle.rs:92-95 | the hashed leaf string is the tag in bytes 0 to 23 and then the data, and only that string |
| Merkle.NodeString | src/relations/merkle.rs:97-100 | the hashed node string is the 88 bytes tag, left, right, and only that string |
| Merkle.HashPositions | src/relations/merkle.rs:78-100 | leaf and node hashes are the first 32 bytes of the hash of those strings |
| Merkle.SmallRoots | src/relations/merkle.rs:109-143 | the roots of one, two and three leaves written out, the third leaf promoted |
| Merkle.HashLeaves | src/relations/merkle.rs:102-105 | the base level holds the leaf hashes in order |
| Merkle.BuildNextLevel | src/relations/merkle.rs:124-134 | the pairing loop computes the next level |
| Merkle.RecordSibling | src/relations/merkle.rs:114-121 | the branches record the sibling of the position, or none for the promoted node |
| Merkle.RootAndPath | src/relations/merkle.rs:109-143 | the bottom-up loop computes the tree head and the audit path of sections 2.1 and 2.1.1 of RFC 6962, for every length and index |
| Merkle.StatementFromWitness | src/relations/merkle.rs:157-168 | the statement is the root and leaf hash, all zeros for an index out of range |
| Merkle.Prove | src/relations/merkle.rs:175-191 | fails exactly for an index out of range; otherwise gives root, leaf hash, audit path and position |
| Merkle.MerkleRoot | src/relations/merkle.rs:256-263 | the same root as the relation, independent of any index; rejects the empty list |
| Merkle.Verify | src/relations/merkle.rs:193-244 | accepts exactly when the position is in range and the replay uses every sibling and ends at the root |
| Merkle.MerkleVerifyPath | src/relations/merkle.rs:273-314 | the same acceptance condition as the relation's verifier on every input |
| Merkle.Completeness | src/relations/merkle.rs:175-244 | every honest proof is accepted, under one root for all positions |
| Merkle.PositionBinding | src/relations/merkle.rs:193-244 | two accepted openings of one position under any root are equal, or yield an explicit node-hash collision |
| Merkle.OpeningSoundness | src/relations/merkle.rs:193-244 | against the honest root and count, an accepted opening is the honest leaf hash and path, or yields an explicit collision |
| Merkle.MembershipSoundness | src/relations/merkle.rs:6-7 | whatever position and leaf count the proof claims, an accepted value is one of the leaves, or the opening yields an explicit collision |
| Merkle.RawOpeningSound | src/relations/merkle.rs:193-244 | for any claimed hash, position and count: an accepted opening is the hash of the subtree that the sides of the claim lead to, with the honest siblings, or yields an explicit collision |
| Merkle.RawOpeningComplete | src/relations/merkle.rs:193-244 | the hash of every subtree that the sides of a claim lead to is accepted with its honest siblings |
| Merkle.LeafOpeningsIff | src/relations/merkle.rs:193-244 | the openings accepted at (index, count) are the leaf at index, up to explicit collisions, exactly when the sides of the claim lead nowhere, or to that leaf or a copy of it (or to a subtree whose root string collides with it); they lead to its position exactly when they are the sides of (index, number of leaves) |
| Merkle.SameSidesSameOpenings | src/relations/merkle.rs:214-236 | claims with the same sides accept the same openings |
| Merkle.PathIsBeside | src/relations/merkle.rs:109-143 | the audit path of a position is the list of hashes beside the way its sides lead |
| Merkle.OtherCountOpensInnerNode | src/relations/merkle.rs:193-236 | a claim with other sides: count 2 for three leaves opens an inner node at position 0 |
| Merkle.OtherCountOpensSameLeaf | src/relations/merkle.rs:193-236 | a claim with the same sides: count 3 for four leaves opens position 0 as the honest count does |
| Merkle.TagsSeparate | src/common/domain.rs:85-89 | leaf and node strings differ, whatever follows the tags |
| Merkle.ListBinding | src/relations/merkle.rs:92-143 | two different nonempty leaf lists of any lengths with the same root yield an explicit collision |
| VmSemantics.AluBitsCorrect | src/execution/vm.rs:275-305 | the machine arithmetic, with its branch-free division, equality and borrow, computes the meaning of every binary opcode |
| VmWords.BorrowIsLess | src/execution/vm.rs:296-300 | the borrow out of a digit-by-digit subtraction is 1 exactly when the first number is smaller |
| VmWords.WordOrder | src/execution/vm.rs:296-300 | the numbers that the bytes of two words stand for are ordered as the words are |
| VmWords.WordRoundTrip | src/execution/vm.rs:200 | the word made from a number has that number modulo 2^64 |
| VmWords.ToLeIsLe64 | src/execution/vm.rs:307 | the bytes of a word are the base-256 digits of its number, least significant first |
| VmArithmetic.SumValue | src/execution/vm.rs:276 | the machine sum is the sum of the numbers modulo 2^64 |
| VmArithmetic.ProductValue | src/execution/vm.rs:278 | the machine product is the product of the numbers modulo 2^64 |
| VmArithmetic.XorBits | src/execution/vm.rs:277 | bit i of the result is set exactly when the operands differ in bit i |
| VmArithmetic.AndBits | src/execution/vm.rs:287 | bit i of the result is set exactly when both operands have it |
| VmArithmetic.OrBits | src/execution/vm.rs:288 | bit i of the result is set exactly when an operand has it |
| VmArithmetic.NotValue | src/execution/vm.rs:323 | the complement of x is 2^64 - 1 - x |
| VmArithmetic.ShiftLeftValue | src/execution/vm.rs:289 | n left shifts multiply by 2^n modulo 2^64 |
| VmArithmetic.ShiftRightValue | src/execution/vm.rs:290 | n right shifts divide by 2^n, rounding down |
| VmArithmetic.MaskedAmount | src/execution/vm.rs:289-290 | masking with 63 is the number modulo 64 |
| VmSemantics.OpCodeRoundTrip | src/execution/vm.rs:50-93 | decoding inverts encoding of opcodes, both ways |
| VmMeaning.OpCodeNumbers | src/execution/vm.rs:50-93 | the byte n decodes to the n-th opcode of the list for n below 17, and to nothing otherwise |
| VmMeaning.BinaryMeaning | src/execution/vm.rs:275-305 | for every binary opcode number: sum and product modulo 2^64, quotient by its bounds with 0 for a zero divisor, bitwise operations bit by bit, shifts by the amount modulo 64, equality and order |
| VmMeaning.BinaryByte | src/execution/vm.rs:250-312 | the opcode byte takes the two top elements off any stack, pushes that result and appends itself and the eight bytes of the result to the trace |
| VmMeaning.NotByte | src/execution/vm.rs:314-329 | 0x0B replaces the top a by 2^64 - 1 - a and appends itself and the result |
| VmMeaning.NopByte | src/execution/vm.rs:190 | 0x00 changes nothing but the trace |
| VmMeaning.PushBytes | src/execution/vm.rs:192-208 | 0x05 and eight little-endian bytes push that number, below depth 128 only |
| VmMeaning.PopByte | src/execution/vm.rs:209-214 | 0x06 removes the top element |
| VmMeaning.DupByte | src/execution/vm.rs:216-226 | 0x07 repeats the top element, below depth 128 only |
| VmMeaning.SwapByte | src/execution/vm.rs:228-234 | 0x08 exchanges the two top elements |
| VmMeaning.RotByte | src/execution/vm.rs:236-248 | 0x0E moves the bottom element to the top; the empty stack stays |
| VmMeaning.UnaryUnderflow | src/execution/vm.rs:209-329 | Pop, Dup and Not fail on the empty stack |
| VmMeaning.BinaryUnderflow | src/execution/vm.rs:228-274 | Swap and the binary opcodes fail on fewer than two elements |
| VmMeaning.BadCode | src/execution/vm.rs:175-196 | a byte above 0x10 and a truncated immediate fail, whatever follows |
| VmMeaning.BinaryProgram | src/execution/vm.rs:147-351 | the bytes of push a, push b, opcode run to the one result, and the root is the hash of tag, code, result and the depth 1 |
| VmMeaning.NopsAccepted | src/execution/vm.rs:147-151 | strings of Nop are accepted exactly for lengths 1 to 4096 |
| VmSemantics.RunConcat | src/execution/vm.rs:173-331 | running an accepted p followed by q is running q from the state p leaves |
| VmSemantics.EncodeDecode | src/execution/vm.rs:173-331 | an encoded instruction list decodes to itself, and running the bytes is executing the list |
| VmSemantics.DecodeEncode | src/execution/vm.rs:175-206 | a string that decodes is the encoding of what it decodes to |
| VmSemantics.DepthsAreStatic | src/execution/vm.rs:173-331 | acceptance and the depth after every instruction are computed exactly from opcodes, without operand values |
| VmSemantics.AcceptanceBySkeleton | src/execution/vm.rs:147-331 | programs that differ only in immediates are accepted or rejected together, size limit included, and run with equal depths throughout |
| VmSemantics.AppendedInjective | src/execution/vm.rs:184-330 | two accepted runs, from any states, that absorb the same bytes run the same program |
| VmSemantics.TraceInjective | src/execution/vm.rs:170-345 | the hashed string of an accepted program determines the program byte for byte |
| VmSemantics.RootBinding | src/execution/vm.rs:338-345 | different accepted programs with the same root are an explicit collision |
| MicroVm.MicroVM.WithCanary | src/execution/vm.rs:135-141 | a new machine is wiped |
| MicroVm.MicroVM.Push | src/execution/vm.rs:354-361 | pushes unless the stack holds 128 values |
| MicroVm.MicroVM.Pop | src/execution/vm.rs:364-372 | pops and zeroes the slot, or reports an empty stack |
| MicroVm.MicroVM.WipeState | src/execution/vm.rs:375-380 | leaves an all-zero stack and pointer |
| MicroVm.RotateDown | src/execution/vm.rs:241-246 | the shifting loop moves the bottom element to the top |
| MicroVm.MicroVM.FetchAndStep | src/execution/vm.rs:174-330 | one iteration of the loop on the array is one step of the pure semantics, with the bytes it absorbs |
| MicroVm.MicroVM.Interpret | src/execution/vm.rs:169-331 | the loop is the pure run; the pointer stays in range and every slot at or above it is zero throughout |
| MicroVm.MicroVM.Execute | src/execution/vm.rs:147-351 | for every byte string the root is that of the pure semantics, independent of earlier runs and of the canary except its two reserved values; the stack is all zero on every path |
| MicroVm.BuildProgram | src/execution/vm.rs:429-528 | any sequence of builder calls without raw bytes builds code that decodes to that sequence |
| Transcript.Transcript.constructor | src/common/transcript.rs:41-52 | the state of the new history |
| Transcript.Transcript.Absorb | src/common/transcript.rs:58-71 | extends the history by the label and data |
| Transcript.Transcript.Challenge | src/common/transcript.rs:76-99 | fills the output with the challenge of the history and extends the history by label and length |
| Transcript.FramedInjective | src/common/transcript.rs:109-114 | a framed string followed by anything splits in one way only |
| Transcript.FramedString | src/common/transcript.rs:109-114 | a framed string is its length in eight bytes and then the string, and only that |
| Transcript.NewString | src/common/transcript.rs:41-52 | the first hashed string: tag, framed protocol label, by position |
| Transcript.AbsorbString | src/common/transcript.rs:58-71 | the string of an absorb: tag, state, framed label, framed data, by position |
| Transcript.SqueezeString | src/common/transcript.rs:76-87 | the string of a squeeze: tag, state, framed label, length, by position |
| Transcript.PostString | src/common/transcript.rs:88-99 | the string of the folding: tag, state, framed label, framed challenge, by position |
| Transcript.HashPositions | src/common/transcript.rs:41-99 | states are the first 64 bytes of the hash of those strings, and challenges of up to 256 bytes the first bytes |
| Transcript.SqueezeSeparate | src/common/transcript.rs:18-24 | no string that a challenge is squeezed from is a string that a state is made from |
| Transcript.LastInputInjective | src/common/transcript.rs:41-99 | equal absorbed strings come from equal last operations and equal previous states; the tags are prefix-free |
| Transcript.StateBinding | src/common/transcript.rs:18-24 | different histories of any lengths with the same state yield an explicit collision |
| Transcript.ChallengeBinding | src/common/transcript.rs:18-24 | a nonempty challenge determines its label, length and whole history, or yields an explicit collision |
| Chain.ChainRoot | src/chain.rs:47-64 | the loop hashes the framed stream; rejects the empty list |
| Chain.ChainVerify | src/chain.rs:81-88 | accepts exactly the root of a nonempty list |
| Chain.StreamPositions | src/chain.rs:47-60 | the stream starts with the 19-byte head tag, and every event stands after its own step tag at the sum of the lengths before it |
| Chain.StreamLength | src/chain.rs:47-60 | nothing else is in the stream |
| Chain.RootPositions | src/chain.rs:47-64 | the root is the first 32 bytes of the hash of the stream |
| Chain.ChainState.constructor | src/chain.rs:117-124 | a new accumulator holds the stream of no events |
| Chain.ChainState.Absorb | src/chain.rs:129-133 | appends one event to the stream |
| Chain.ChainState.Finalize | src/chain.rs:137-144 | gives the root of the events absorbed, in order |
| Chain.StreamAll | src/chain.rs:90-96 | streaming any list of events gives the one-shot root |
| Chain.NoOverlap | src/common/domain.rs:77 | two occurrences of the step tag never overlap |
| Chain.BodyInjective | src/chain.rs:35 | among lists without the step tag inside an event, the stream determines the list |
| Chain.CanonicalCorrect | src/chain.rs:35 | cutting events at the step tag keeps the stream and leaves a tag-free list unchanged |
| Chain.SameStreamIff | src/chain.rs:35 | two lists have the same stream if and only if cutting their events at the step tag gives the same list |
| Chain.RootBinding | src/chain.rs:47-64 | equal roots mean equal lists up to that cutting (equal lists when no event contains the tag), or an explicit collision |
| Chain.JoinedEventsShareRoot | src/chain.rs:9-10 | joining two adjacent events with the step tag gives a different list with the same root, for every list of two or more events |
| RangeProof.NumBitsCovers | src/relations/range_proof.rs:120-126 | the chosen number of bits covers every in-range offset |
| RangeProof.NumBitsExact | src/relations/range_proof.rs:120-126 | the number of bits is the least that holds max - min, and 1 for max <= min |
| RangeProof.WrappingSubIs | src/relations/range_proof.rs:128 | the offset is the difference modulo 2^64 |
| RangeProof.BitsOfDigit | src/relations/range_proof.rs:131-132 | bit i is the binary digit of weight 2^i, whether or not the number fits |
| RangeProof.CommitString | src/relations/range_proof.rs:96-105 | the committed string is the 55 bytes tag, masked bit, nonce, and only that string |
| RangeProof.NonceString | src/relations/range_proof.rs:134-141 | the nonce string is the 41 bytes tag, value, position, minimum, and only that string |
| RangeProof.HashPositions | src/relations/range_proof.rs:96-141 | commitments and nonces are the first 32 bytes of the hash of those strings |
| RangeProof.RecomposeBitsOf | src/relations/range_proof.rs:131-132 | recomposing the bits of a number that fits gives the number |
| RangeProof.BitOrDisjoint | src/relations/range_proof.rs:228 | or-ing in the next bit is addition |
| RangeProof.CommitBit | src/relations/range_proof.rs:96-105 | the commitment absorbs the tag, the masked bit and the nonce |
| RangeProof.DeriveNonce | src/relations/range_proof.rs:134-141 | the nonce absorbs its tag, the value, the position and the minimum |
| RangeProof.StatementFromWitness | src/relations/range_proof.rs:119-151 | commits to every bit of the wrapped offset under the derived nonces; the number of commitments is the least number of bits that holds max - min, and 1 for max <= min |
| RangeProof.Prove | src/relations/range_proof.rs:166-205 | reveals the bits and nonces, the first nonce masked when the value is out of range |
| RangeProof.HonestProofNonces | src/relations/range_proof.rs:192-202 | only the first byte of the first nonce differs from the derived nonces, and it is complemented exactly for a value out of range |
| RangeProof.Verify | src/relations/range_proof.rs:207-238 | panics exactly on more than 64 commitments with matching lengths (Cargo.toml sets overflow-checks); accepts exactly when every commitment opens and the saturating range check passes |
| RangeProof.Soundness | src/relations/range_proof.rs:207-238 | acceptance is exactly: every commitment opens, and the committed value as an unbounded integer is in the range or max is 2^64 - 1 |
| RangeProof.RangeCheckSoundIff | src/relations/range_proof.rs:230-233 | every k-bit offset that passes the check is in range exactly when max < 2^64 - 1 or min + 2^k - 1 <= max |
| RangeProof.SoundIff | src/relations/range_proof.rs:17 | for statements with k commitments: every accepted proof opens to a value in [min, max] exactly when k > 64, max < 2^64 - 1 or min + 2^k - 1 <= max |
| RangeProof.SaturationAccepts | src/relations/range_proof.rs:231-233 | an instance of the failure: with min == max == 2^64 - 1 a committed value above max is accepted |
| RangeProof.Binding | src/relations/range_proof.rs:96-105 | two accepted proofs of one statement open to the same value and nonces, or yield an explicit collision |
| RangeProof.Completeness | src/relations/range_proof.rs:119-238 | every 64-bit value in [min, max] is accepted |
| RangeProof.HonestRejection | src/relations/range_proof.rs:192-202 | every other value, min > max included, is rejected, or the first bit's two nonces are an explicit collision |
| Oram.HashValue | src/storage/oram.rs:239-247 | a stored value is hashed under its own tag |
| Oram.HashPositions | src/storage/oram.rs:239-247 | the hash is the first 64 bytes of the hash of the 82 bytes tag, value |
| Oram.ReadAfter | src/storage/oram.rs:72-212 | what each operation does to what later reads return, after any operations: a write shows as the hash of its value at its address modulo 256, a modification as the hash of f of the old value, a swap as an exchange, and nothing else changes |
| Oram.ObliviousRAM.constructor | src/storage/oram.rs:53-57 | all slots start as genesis |
| Oram.ObliviousRAM.Perform | src/storage/oram.rs:72-212 | each operation on the arrays changes the memory and returns its result as a plain 256-slot memory of hashed values would, with the accesses of its kind |
| Oram.ExecInPlace | src/storage/oram.rs:72-212 | running a scan program on the arrays gives the registers, contents and log of the interpreter |
| Oram.ReadScanEffect | src/storage/oram.rs:76-86 | the masked reading scan changes nothing and loads exactly the addressed slot, or both slots of a swap |
| Oram.WriteScanEffect | src/storage/oram.rs:104-113 | the masked writing scan changes exactly the addressed slot, or exchanges the two slots of a swap |
| Oram.ScanTraces | src/storage/oram.rs:6-9 | a scan makes the same loads and stores in the same order from every state |
| Oram.ReadRefines | src/storage/oram.rs:72-89 | read returns the addressed slot and makes the accesses of a reading scan |
| Oram.WriteRefines | src/storage/oram.rs:100-116 | write stores the hashed value in the addressed slot only and makes the accesses of a writing scan |
| Oram.ModifyRefines | src/storage/oram.rs:130-168 | read_modify_write applies f, stores the hash of the result, returns the result, and makes the accesses of both scans |
| Oram.SwapRefines | src/storage/oram.rs:178-211 | swap exchanges the two slots and makes the accesses of both scans |
| Oram.RunRefines | src/storage/oram.rs:72-212 | over any sequence of operations, memory and results are those of a plain 256-slot memory of hashed values, and the loads and stores are a function of the kinds of the operations alone |
| Oram.AccessesAreOblivious | src/storage/oram.rs:6-9 | sequences of the same kinds, with any addresses, values, memories and hashes, make the same accesses in the same order |
| Oram.LogTellsKinds | src/storage/oram.rs:13-16 | two kinds of operation make the same accesses exactly when they are equal or a swap and a modification |
| Oram.FreshReadIsGenesis | src/storage/oram.rs:59 | a read of a fresh memory returns genesis, and not the hash of genesis unless the two are equal |
| Oram.EveryPositionTouched | src/storage/oram.rs:6-9 | every operation reads the content and padding of every position of every slot |
| Oram.SwapInvolution | src/storage/oram.rs:170-177 | a swap is its own inverse and the identity on equal slots |
| Oram.IndexIsModulo | src/storage/oram.rs:66-70 | the masked address is the address modulo 256 |
| Memlock.ZeroizeAndPoison | src/layers/l0_memlock.rs:331-335 | the three passes end with an all-zero buffer |
| Memlock.InvStep | src/layers/l0_memlock.rs:483-578 | every atomic step of every thread keeps the invariant on the counter, the constructors in flight and the wipe: zeros, then 0xDE over them, then zeros |
| Memlock.BudgetSafety | src/layers/l0_memlock.rs:95-103 | in every interleaving the counter is the total size between fetch_add and fetch_sub, and is at most threshold + in-flight * max size |
| Memlock.BuffersDisjoint | src/layers/l0_memlock.rs:446-448 | buffers in use never overlap, in any interleaving |
| Memlock.PageBounds | src/layers/l0_memlock.rs:496-500 | a page holds the addresses from its number times the page size up to the next page |
| Memlock.CounterNeverWraps | src/layers/l0_memlock.rs:501-576 | no fetch_add overflows and no fetch_sub goes below zero |
| Memlock.UnlockedBufferIsZero | src/layers/l0_memlock.rs:560-574 | whenever a buffer is unlocked, every byte of that buffer is zero |
| Memlock.CounterReturns | src/layers/l0_memlock.rs:575-577 | once all buffers are dropped the counter is back at its start |
| Memlock.BoundAttained | src/layers/l0_memlock.rs:491-504 | the bound is tight for every threshold: some interleaving reaches it exactly |
| MemlockPages.StepKeepsPagesIff | src/layers/l0_memlock.rs:449 | while every buffer with `locked` set is on pinned pages, the next step keeps that exactly when it is not a munlock of a page of another such buffer |
| MemlockPages.RunKeepsPagesIff | src/layers/l0_memlock.rs:449 | in any interleaving the documented invariant holds at every moment exactly when no munlock of the run hits a page of another buffer with `locked` set |
| MemlockPages.StaysLockedIff | src/layers/l0_memlock.rs:449 | in any reachable state the invariant survives whatever the threads do with their buffers exactly when it holds now and no two buffers that hold or may still get a lock share a page |
| MemlockPages.AlwaysStaysLockedIff | src/layers/l0_memlock.rs:449 | over any interleaving, new buffers included: at no moment can the invariant be broken by the next steps, exactly when at no moment two buffers that hold or may still get a lock share a page |
| MemlockPages.DriveToUnlock | src/layers/l0_memlock.rs:483-578 | any buffer that holds or may get a lock can be driven to its munlock while every other buffer stands still |
| MemlockPages.LockedPagesHoldSecrets | src/layers/l0_memlock.rs:6-10 | under the invariant no nonzero byte of a buffer with `locked` set is on an unpinned page |
| MemlockPages.LiveSecretOnUnpinnedPage | SECURITY.md:122 | a run of two 64-byte buffers on one 4096-byte page ends with a live, counted, locked buffer whose nonzero byte is on an unpinned page |

## Left out

- ML-KEM, ML-DSA, SLH-DSA, HKDF and Keccak itself: foreign code; the hash is a parameter.
- Entropy harvesting and entropy health tests: operating system calls, clocks and counting loops.
- The interface, the command line, the pipeline and the threshold, hybrid, commit-reveal, blind and audit modules: compositions that would only add easy members.
- The hash-preimage, Pedersen, ML-DSA and threshold relations: one comparison or loop each.
- `bind_statement` of the relations: plain sequences of `absorb` calls, covered by the transcript results.
- Timing, volatile stores, compiler fences and memory ordering other than the order of atomic steps.
- Failure of `getrandom` in `split`, and the wiping of coefficients, shares and intermediate buffers when they are dropped.
- The 0.8 threshold in floating point and the limit query: the threshold is a constant of the configuration, and a missing limit (no check at all) is not modelled.
- The two loops of each scan in `oram.rs` are one `Scan` command around the loop body; the order of loads and stores is the source's.
- A partial `mlock` failure, and pages pinned by other code of the process: a failing `mlock` pins nothing, and only buffers of the model pin pages.
- Transcript.StateBinding: requires every length to be below 2^64, as every slice length in the source is.
- Memlock.BudgetSafety: requires the configured worst case to fit the 64-bit counter word.
- Canary corruption while `execute` runs: no code in the model can change the canary, so the second check is the first one again.
