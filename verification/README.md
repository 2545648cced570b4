# FnFnMvWallet in Dafny

A model of the parts of the Multiverse wallet on which its consensus and its formats rest, and proofs
about it. `dafny verify dfyconfig.toml` checks everything.

**Verifiable secret sharing** (`Words`, `Primes`, `Scalars`, `GroupOrder`, `Polynomials`, `Interpolation`, `Curve`,
`Boxes`, `SecretShare`, `Enrolment`, `Collection`, `Protocol`, `HonestRun`, `RepeatedSender`, `DelegateVote`). Each
delegate deals a secret polynomial with commitments; peers accept shares, publish them, and a witness interpolates.
Scalars are integers modulo the real group order, which is proved prime by a chain of certificates, and the inverse
table is the literal one; a curve point is named by its discrete logarithm, its packing is an arbitrary lawful one,
and the hashes are arbitrary functions. `Protocol` is a state machine over setup, delivery, publication and forged
messages; its main results hold of every run.

**Snappy** (`Bytes`, `SnappyFormat` to `SnappyApi`). The format has one meaning, `SnappyFormat.Uncompressed`, defined on
whole strings. The compressor writes a string that means its input; the decompressor, which reads fragments
through a five-byte scratch buffer and drives one of four writers, succeeds exactly on strings with a meaning
whose fragments its 32-bit counters can count, and produces it. Copies, matching, the tag table and the length
prefix are the code's own fast forms, proved against simple ones.

**Multi-signatures** (`MultiSign`, `MultiSignRuns`), on the bytes of the signature: bitmap, packed point, scalar.

**Merkle root** (`Merkle`): the flat loop, and what the root binds for any hash function.

**Proof-of-work targets** (`ProofOfWork`) over whole verified chains.

**The parallel computer** (`Parallel`): workers as a state machine, every schedule of atomic steps, tasks that may throw.

**The vote timeline** (`VoteTimeline`): set-up, enrolment and publication heights under rollbacks.

**Addresses** (`Crc24q`, `Base32`, `Address`): the literal checksum table against polynomial division, error detection,
and the text.

**Fixed-width integers** (`Limbs`, `Shifts`, `BigUint`, `HexText`): limb loops against arithmetic modulo two to the width.

Where the code does less than its documentation or its evident purpose, the model follows the code:

- The base32 decoder accepts characters outside the alphabet as if they were `z`: its error flag starts at zero and is
  only and-ed. `Base32.OneCharacter` states what one replaced character does on all characters.
- The prefix of an address is outside the checksum (`Address.PrefixUnprotected`).
- `Rollback` erases enrolled votes one height too low: it loses the vote enrolled at the height fallen back to and keeps one
  enrolled at a removed height, which can then be enrolled twice (`VoteTimeline.RollbackLoses`, `RollbackRemoves`, `TwiceFromTheStart`).
- `Compress` writes the length of its input cut to 32 bits, and the decompressor counts the bytes of a fragment in 32 bits: with a
  fragment of 2^32 bytes or more it never succeeds, and may go round forever (`SnappyDecompress.SnappyDecompressor.RefillTag`). So
  the round trip holds exactly when the input and its compressed tags are below 2^32 bytes (`SnappyApi.RoundTrip`).
- The decompressor adds one to the length of a long literal in 32 bits, so a length of 2^32 reads as zero. The model's format has
  this reading; the compressor never writes such a literal (`SnappyApi.WrappedLiterals`).
- A failed first signing leaves a signature of zero bytes instead of an empty one (`MultiSign.CryptoMultiSign`).
- `Collect` does not notice a sender that is collected twice. The witness then interpolates at repeated indices and can recover a
  wrong secret (`RepeatedSender.EightForFive`). `Collection.StepDistinct` gives the exact condition for a message, and the results
  about runs hold under it.
- `Enroll` gives a party its own range without verifying its own box (`SecretShare.RepeatedCandidate`).
- A proof's claimed weight is never compared with the weight tallied (`DelegateVote.CMvDelegateVote.VerifyProof`).
- The parallel computer without a worker returns true and has done nothing (`Parallel.NoWorkers`).

## Model

| member | source | states |
|---|---|---|
| Scalars.InverseCorrect | mpvss/mpinterpolation.cpp:11-116 | every entry of the literal table of inverses, for differences -50 to 50, times its difference is 1 modulo the group order; the middle entry is 0 |
| Interpolation.MPLagrange | mpvss/mpinterpolation.cpp:119-136 | the double loop computes the Lagrange value at zero; needs only that the differences of indices lie in the table |
| Interpolation.MPNewton | mpvss/mpinterpolation.cpp:150-178 | the growing table of differences computes the Newton value at zero, which for distinct indices is the Lagrange value |
| Interpolation.NewtonIsLagrange | mpvss/mpinterpolation.cpp:119-178 | for any shares with distinct indices, on a polynomial or not, the two interpolation formulas agree |
| Interpolation.InterpolationExact | mpvss/mpinterpolation.cpp:119-178 | shares on a polynomial with at most as many coefficients as shares give back its constant term, by either formula |
| Words.XorAt | mpvss/mpvss.cpp:27-35 | bit by bit, the exclusive or that encrypts and decrypts a share |
| GroupOrder.OrderPrime | crypto/curve25519/sc25519.cpp:15 | the order the scalars are reduced by is prime, so they are a field |
| Curve.PubkeyInjective | mpvss/mpbox.cpp:18-25 | two scalars have one public key exactly when they are congruent |
| Curve.VerifyExact | mpvss/mpbox.cpp:40-48 | verification accepts a scalar exactly when the nonce point unpacks and the scalar is congruent to the key plus its logarithm times the hash |
| Curve.SignVerifies | mpvss/mpbox.cpp:33-48 | a signature verifies under the public key of the key that made it |
| Curve.SharedKeyAgrees | mpvss/mpbox.cpp:50-59 | both ends of a key agreement compute the same key |
| Curve.SharedKeyIs | mpvss/mpbox.cpp:50-59 | that key is the packed point whose logarithm is the product of the two private keys |
| Curve.SharedKeyInjective | mpvss/mpbox.cpp:50-59 | with any public key but the identity, different private keys give different shared keys |
| Boxes.Polynomial | mpvss/mpbox.cpp:87-100 | the loop over the power table evaluates the polynomial, or refuses a box with too few coefficients |
| Boxes.PrecalcPolynomial | mpvss/mpbox.cpp:193-212 | the nested loops fill the table with the packed commitment to the committed polynomial at every index |
| Boxes.CommitmentBinds | mpvss/mpbox.cpp:184-212 | a value passes the check at an index exactly when it is congruent to the committed polynomial there |
| Boxes.MakeSealedBox | mpvss/mpbox.cpp:113-136 | sealing succeeds exactly for a valid box and a non-zero nonce, and yields the commitments to every coefficient and a signed identity |
| Boxes.SealedVerifies | mpvss/mpbox.cpp:113-173 | a sealed box verifies for its identity exactly when no coefficient vanishes modulo the order |
| Boxes.SealedBinds | mpvss/mpbox.cpp:113-173 | a sealed box verifies for another identity exactly when the two are congruent or its nonce vanishes |
| Boxes.SealedCommits | mpvss/mpbox.cpp:113-136 | the polynomial a sealed box commits to is the dealer's own |
| SecretShare.AcceptShare | mpvss/mpvss.cpp:37-50 | decrypts, checks every value against the dealer's commitments, and stores the shares only if all pass |
| SecretShare.CMPSecretShare.Setup | mpvss/mpvss.cpp:124-142 | the redraw loop over any sequence of draws: the first usable draw resets the party and is sealed; without one the loop is still going |
| SecretShare.CMPSecretShare.SetupWitness | mpvss/mpvss.cpp:144-153 | identity zero, no polynomial, everything reset |
| SecretShare.CMPSecretShare.Enroll | mpvss/mpvss.cpp:155-192 | the loop over candidates assigns consecutive index ranges, the threshold and the commitment tables as the recursive roll does |
| SecretShare.RepeatedCandidate | mpvss/mpvss.cpp:155-192 | a repeated identity: the first verified candidate stays, but of the party itself the last one counts, verified or not |
| SecretShare.CMPSecretShare.Distribute | mpvss/mpvss.cpp:194-223 | for every participant a list of its weight; each entry is the exclusive or of the shared key with the polynomial at the index |
| SecretShare.CMPSecretShare.Accept | mpvss/mpvss.cpp:225-236 | accepts exactly a list of the party's own weight whose values lie on the dealer's committed polynomial; a refusal keeps nothing |
| SecretShare.CMPSecretShare.Publish | mpvss/mpvss.cpp:238-255 | the shares held from every dealer and the party's own, or a refusal if its box has too few coefficients |
| SecretShare.CMPSecretShare.Collect | mpvss/mpvss.cpp:257-323 | all or nothing: refused messages change nothing, accepted ones extend each named list up to the threshold; reports completion exactly when all named lists are full |
| SecretShare.ExtendContents | mpvss/mpvss.cpp:308-322 | extending a list keeps its prefix, adds the message's values at consecutive indices, and stops at the threshold |
| SecretShare.CollectInBounds | mpvss/mpvss.cpp:257-323 | collecting never brings an index outside the tables |
| SecretShare.CMPSecretShare.Reconstruct | mpvss/mpvss.cpp:325-365 | exactly the full lists of weighted dealers are interpolated, each paired with its weight |
| Enrolment.EnrollRoll | mpvss/mpvss.cpp:155-192 | the state after enrolling any list with distinct identities: each verified candidate has its seat, and no one else |
| Enrolment.RangesPartition | mpvss/mpvss.cpp:155-192 | each index from 1 to the last belongs to exactly one candidate, and no other index to any |
| Enrolment.ThresholdMajority | mpvss/mpvss.cpp:181 | the threshold is a strict majority of the enrolled weight and no larger than it need be |
| Enrolment.EnrollIsSafe | mpvss/mpvss.cpp:155-192 | on a usable list enrolment throws nothing and reads no table out of range |
| Enrolment.EnrolmentAgreement | mpvss/mpvss.cpp:104-122 | any two parties, the witness included, that enrol one list compute one threshold and one range for every identity |
| Collection.EntryTrue | mpvss/mpvss.cpp:257-323 | every value an accepted message opens is a true point of the dealer's committed polynomial |
| Collection.StepDistinct | mpvss/mpvss.cpp:257-323 | an accepted message keeps the interpolation indices of all lists distinct if and only if each of its non-empty entries for a list below the threshold is of a sender that has not contributed to that list |
| Collection.CollectRun | mpvss/mpvss.cpp:257-323 | after any run of messages, refused ones included, all indices are distinct if and only if no accepted message broke that condition, and then every opened list has length the smaller of threshold and contributed weight and only true points |
| Collection.ReconstructExact | mpvss/mpvss.cpp:325-365 | a dealer is recovered exactly when senders of threshold weight contributed to it, with the constant term it is bound to |
| Protocol.DeliverAccepted | mpvss/mpvss.cpp:194-236 | in every reachable state a peer accepts what an honest dealer distributed to it |
| Protocol.DealtShare | mpvss/mpvss.cpp:194-223 | what an honest dealer sends an honest peer is its polynomial at the peer's index, masked by the packed point at the product of their private keys |
| Protocol.PublishAccepted | mpvss/mpvss.cpp:238-323 | in every reachable state the witness accepts an honest party's publication, which has an entry for exactly the dealers whose shares it holds |
| Protocol.RunInv | mpvss/mpvss.cpp:155-365 | in every run, forged messages included, the witness interpolates at distinct indices if and only if no logged message repeats a sender on an unfilled list, and then the invariant of all parties and the witness holds |
| Protocol.RunReconstructs | mpvss/mpvss.cpp:155-365 | in every run the witness recovers exactly the candidates with threshold weight of contributors, each with the secret its box commits to; for an honest dealer its own secret |
| Protocol.EndToEnd | mpvss/mpvss.cpp:155-365 | a dealer whose shares reached honest senders of threshold weight that then published is recovered with its own secret and weight, whatever else happens in the run |
| HonestRun.EverySecretRecovered | mpvss/mpvss.cpp:155-365 | when all enrolled delegates deal to each other and publish, undisturbed, the witness recovers every secret with its weight |
| HonestRun.LoneDealer | mpvss/mpvss.cpp:124-192 | a candidate list and a dealer that meet the conditions of the protocol theorems |
| RepeatedSender.CollectedTwice | mpvss/mpvss.cpp:257-323 | for every setup, an honest publication collected twice leaves the indices distinct if and only if its sender has no weight or threshold weight |
| RepeatedSender.WrongSecret | mpvss/mpvss.cpp:325-365 | with threshold two and weight one the witness then recovers the dealer's polynomial at its own index in place of its secret |
| RepeatedSender.EightForFive | mpvss/mpvss.cpp:257-365 | a concrete run of three honest dealers in which the witness recovers 8 where the secret is 5 |
| DelegateVote.CMvDelegateVote.Collect | delegate/mvdelegatevote.cpp:196-217 | a publication is taken exactly if it comes from the sender it names, is signed and is accepted by the witness; a refused one changes nothing |
| DelegateVote.SignedPublication | delegate/mvdelegatevote.cpp:196-217 | a publication in the name of an honest delegate is taken only if its scalar is the delegate's key plus the nonce's logarithm times the hash of the shares |
| DelegateVote.CMvDelegateVote.GetAgreement | delegate/mvdelegatevote.cpp:219-242 | the hash over the recovered secrets in ascending order of identity, their total weight, and the ballot |
| DelegateVote.Tally | delegate/mvdelegatevote.cpp:219-242 | for every ascending enumeration of the identities the value is the hash of their secrets in that order, the ballot gives each its weight, and the weight is their sum |
| DelegateVote.AgreementIs | delegate/mvdelegatevote.cpp:219-242 | only one agreement has these properties |
| DelegateVote.RunAgreement | delegate/mvdelegatevote.cpp:219-242 | in every run the agreement is the hash of the secrets committed to by the candidates recovered, an honest dealer's own constant term among them |
| DelegateVote.CMvDelegateVote.VerifyProof | delegate/mvdelegateverify.cpp:20-55 | accepts exactly an empty claim, or publications that all replay and yield the claimed agreement; the outputs keep their values on an empty claim and on a refused publication, and the claimed weight is not compared |
| DelegateVote.RunIsReplay | delegate/mvdelegatevote.cpp:196-217 | in every run of calls the witness is the fold of collecting over the list kept for the proof |
| DelegateVote.ProofReplay | delegate/mvdelegateverify.cpp:14-55 | a proof made from any run replays on a fresh verifier of the same candidates and leaves it with the same witness, hence the same agreement |
| DelegateVote.AgreementConsensus | delegate/mvdelegatevote.cpp:219-242 | two witnesses for which the same dealers reach the threshold agree on value, weight and ballot, whatever messages they collected in whatever order |
| SnappyFormat.VarintRoundTrip | snappy/snappy-stubs-internal.h:485-533 | parsing the length prefix of any 32-bit value gives the value and its length, whatever follows |
| SnappyFormat.Parse32WithLimit | snappy/snappy-stubs-internal.h:485-505 | the unrolled parser agrees with the recursive meaning of the prefix on every string |
| SnappyFormat.CharTableEntry | snappy/snappy-internal.h:173-219 | all 256 literal entries of the tag table pack the three fields of their tag |
| SnappyFormat.ExtraBytes | snappy/snappy-internal.h:173-219 | the fields the decoder cuts from the table are those of the tag byte |
| SnappyCopy.IncrementalCopySlow | snappy/snappy.cc:128-137 | byte by byte: the output is extended by its own bytes from the offset, nothing else changes |
| SnappyCopy.IncrementalCopy | snappy/snappy.cc:139-220 | pattern doubling and wide copies write the same bytes, for every pattern size and length, and nothing at or past the buffer limit |
| SnappyMatch.FirstDifference | snappy/snappy-internal.h:88-135 | the lowest set bit of the exclusive or of two words, over eight, is their first differing byte |
| SnappyMatch.FindMatchLength | snappy/snappy-internal.h:88-135 | the length of the longest match up to the limit, and whether it is below eight |
| SnappyStream.ParseTag | snappy/snappy.cc:224-289 | parsing the bytes of any encodable tag gives the tag back |
| SnappyStream.DecodeStream | snappy/snappy.cc:660-763 | decoding the bytes of any tag list, then more, continues from what the list expands to |
| SnappyStream.FewestPieces | snappy/snappy.cc:291-316 | a match is cut into as few copies of at most 64 bytes as possible, none shorter than four |
| SnappyCompress.EmitLiteral | snappy/snappy.cc:224-267 | appends one literal tag, by the fast path or not, within the buffer |
| SnappyCompress.EmitCopyAtMost64 | snappy/snappy.cc:269-289 | appends one copy tag in its short or long form |
| SnappyCompress.EmitCopy | snappy/snappy.cc:291-316 | appends copies of at most 64 bytes that together are the match |
| SnappyCompress.FindCandidate | snappy/snappy.cc:460-481 | finds the first of the probed positions, one byte apart at first and ever further later, whose four bytes are those at the position last noted under their hash, or none before the limit; the table notes every probe |
| SnappyCompress.Rehash | snappy/snappy.cc:515-528 | notes the last two positions and goes on exactly when the next four bytes are those noted under their hash |
| SnappyCompress.EmitMatches | snappy/snappy.cc:500-528 | the literal pending and then the longest match are what is written first, and matches follow while there are any |
| SnappyCompress.CompressFragment | snappy/snappy.cc:412-539 | for any hash into the table the tags written expand to the whole block and take at most n + n/60 + 1 bytes; a block that repeats after one byte begins with one literal byte and the longest copy |
| SnappyBlocks.HashRange | snappy/snappy.cc:65-71 | the hash stays below the table size |
| SnappyBlocks.HashIs | snappy/snappy.cc:65-71 | the top bits of the 32-bit product with the multiplier |
| SnappyBlocks.GetHashTable | snappy/snappy.cc:330-354 | a zeroed table of the least power of two entries from 256 to 16384 that is not below the input size |
| SnappyBlocks.ReadBlock | snappy/snappy.cc:866-914 | the next block of the source, from one fragment or stitched from several |
| SnappyBlocks.Compress | snappy/snappy.cc:854-936 | the output denotes the input if and only if the length fits 32 bits, and is never longer than the advertised maximum, prefix included |
| SnappyFlatWriters.OffsetTrick | snappy/snappy.cc:1168-1182 | one wrapping comparison refuses both a zero offset and one before the start |
| SnappyFlatWriters.SnappyArrayWriter.Append | snappy/snappy.cc:1144-1154 | accepts exactly what fits the expected length |
| SnappyFlatWriters.SnappyArrayWriter.TryFastAppend | snappy/snappy.cc:1155-1167 | copies sixteen bytes and keeps the wanted ones, only when all fit and a tag remains buffered |
| SnappyFlatWriters.SnappyArrayWriter.AppendFromSelf | snappy/snappy.cc:1168-1182 | accepts exactly valid offsets that fit, and then extends the output by its own bytes |
| SnappyFlatWriters.SnappyDecompressionValidator.Append | snappy/snappy.cc:1228-1231 | accepts exactly what the flat writer accepts, keeping only lengths |
| SnappyFlatWriters.SnappyDecompressionValidator.AppendFromSelf | snappy/snappy.cc:1235-1241 | the same for copies |
| SnappyScatteredWriter.ScatteredWriter.Append | snappy/snappy.cc:1334-1344 | the same acceptance and bytes over blocks |
| SnappyScatteredWriter.ScatteredWriter.SlowAppend | snappy/snappy.cc:1378-1407 | fills and opens blocks until the data is in, or refuses it |
| SnappyScatteredWriter.ScatteredWriter.AppendFromSelf | snappy/snappy.cc:1360-1374 | the same acceptance and bytes as the flat writer for copies |
| SnappyScatteredWriter.ScatteredWriter.SlowAppendFromSelf | snappy/snappy.cc:1409-1431 | the byte-at-a-time copy across blocks |
| SnappyScatteredWriter.ScatteredWriter.Flush | snappy/snappy.cc:1449-1460 | the sink receives exactly the bytes produced, the last block cut where it was filled |
| SnappyIOVecWriter.IOVecWriter.Append | snappy/snappy.cc:987-1015 | the same acceptance and bytes over a caller's list of buffers |
| SnappyIOVecWriter.IOVecWriter.Locate | snappy/snappy.cc:1041-1054 | walking back from the current buffer finds the byte at the offset |
| SnappyIOVecWriter.IOVecWriter.AppendFromSelf | snappy/snappy.cc:1032-1099 | the same acceptance and bytes for copies within one buffer or across several |
| SnappyWriters.Append | snappy/snappy.cc:552-587 | all four writers accept the same pieces and then hold the same bytes |
| SnappyWriters.TryFastAppend | snappy/snappy.cc:552-587 | an accepted fast append is an append, and a whole tag is still buffered after it |
| SnappyWriters.AppendFromSelf | snappy/snappy.cc:552-587 | all four writers accept the same copies and then hold the same bytes |
| SnappySource.Source.Skip | snappy/snappy-sinksource.h:110-137 | skipping any number of bytes that are there, across fragments too, drops that prefix of what is left |
| SnappyDecompress.SnappyDecompressor.ReadUncompressedLength | snappy/snappy.cc:634-655 | reads the prefix byte by byte across fragments, with the shift-overflow test, as its meaning on the concatenation |
| SnappyDecompress.SnappyDecompressor.RefillTag | snappy/snappy.cc:766-821 | with every fragment below 2^32 bytes, makes the next tag whole and five bytes readable without changing what is left; failing at the end means nothing was left, failing before it a truncated tag. With a longer fragment it never reports the end, and at a fragment that is a multiple of 2^32 bytes it goes round forever |
| SnappyDecompress.SnappyDecompressor.ReadLiteral | snappy/snappy.cc:728-744 | with every fragment below 2^32 bytes, passes a literal to the writer fragment by fragment, exactly when it is there and fits |
| SnappyDecompress.Step | snappy/snappy.cc:696-758 | one tag, literal or copy, the 32-bit wrap of a literal length included, moves the decoder as the meaning of the stream says, or refuses a stream without meaning |
| SnappyDecompress.DecompressAllTags | snappy/snappy.cc:660-763 | into any writer: ends at the end of input if and only if the tags have a meaning and every fragment left is below 2^32 bytes, and then the writer holds it; goes round forever only with a longer fragment |
| SnappyDecompress.InternalUncompress | snappy/snappy.cc:823-847 | succeeds if and only if the concatenated input has a meaning and every fragment after the length prefix is below 2^32 bytes; the output does not depend on the fragments nor on the writer |
| SnappyApi.GetUncompressedLength | snappy/snappy.cc:318-327 | the length in the prefix, which is the true length of every string that decompresses |
| SnappyApi.RawUncompress | snappy/snappy.cc:1190-1198 | into an array: the same condition, and the array holds the meaning |
| SnappyApi.Uncompress | snappy/snappy.cc:1200-1212 | succeeds if and only if the string has a meaning and its tags take less than 2^32 bytes, and returns the meaning |
| SnappyApi.WrappedLiterals | snappy/snappy.cc:719-727 | a literal with length bytes FF FF FF FF has length zero; any number of them denotes the empty string, and decompresses if and only if they take less than 2^32 bytes |
| SnappyApi.RawUncompressToIOVec | snappy/snappy.cc:1104-1114 | the same condition, and every output byte is in the buffer and at the place the lengths give it |
| SnappyApi.IsValidCompressed | snappy/snappy.cc:1245-1254 | true exactly on the sources that decompress |
| SnappyApi.UncompressToSink | snappy/snappy.cc:1485-1513 | the same condition and result through one buffer or block by block, whatever room the sink grants |
| SnappyApi.RoundTrip | snappy/snappy.h:75-87 | for every input in any fragments, decompressing what was compressed gives the input back if and only if the input and the compressed tags are both below 2^32 bytes, and validation agrees; an advertised maximum below 2^32 is enough |
| MultiSign.SetBitAt | crypto/crypto.cpp:282-302 | setting a bit of the index sets that bit and no other |
| MultiSign.SetBitValue | crypto/crypto.cpp:282-302 | in an empty byte the bit is worth two to its place, lowest first |
| MultiSign.Layout | crypto/crypto.cpp:235-308 | behind the bitmap stand the packed point and the scalar, 32 bytes each, lowest first |
| MultiSign.MultiSignApk | crypto/crypto.cpp:154-192 | the aggregate key is the packed weighted sum of all keys, or a failure if some key does not unpack |
| MultiSign.CryptoMultiSign | crypto/crypto.cpp:235-308 | when it succeeds and fails; the bytes written denote the old signature with this signer added; a repeated signing leaves the bytes alone; a failure on an empty signature leaves zero bytes |
| MultiSign.CryptoMultiVerify | crypto/crypto.cpp:310-377 | accepts an empty signature, and any other exactly when its equation holds; when it reports which signers |
| MultiSign.CryptoMultiPartKey | crypto/crypto.cpp:379-404 | the keys whose bits are set, none for a wrong size |
| MultiSignRuns.SignKeeps | crypto/crypto.cpp:235-377 | signing with an honest member key neither breaks nor repairs the verification equation |
| MultiSignRuns.SignCommutes | crypto/crypto.cpp:282-303 | two signers may sign in either order |
| MultiSignRuns.RunVerifies | crypto/crypto.cpp:235-377 | after any run of honest member keys, in any order with repeats, the equation holds and the signers are exactly those keys |
| MultiSignRuns.SignInTurn | crypto/crypto.cpp:235-404 | the same on the bytes the code writes: verification succeeds and both reports list exactly the signers |
| MultiSignRuns.KeySumLog | crypto/crypto.cpp:154-192 | the logarithm of the aggregate key is the sum of the keys' logarithms, each times the hash of the key before all keys |
| MultiSignRuns.RunValues | crypto/crypto.cpp:235-308 | after a run the point is the sum of the signers' nonce hashes and the scalar that sum plus the message hash times the weighted secrets, each signer once |
| MultiSignRuns.OtherMessage | crypto/crypto.cpp:310-377 | what was signed for one anchor and message satisfies the equation for another exactly when the message hashes agree on the signers' key sum; unless that vanishes, exactly when they are congruent |
| MultiSignRuns.VerifyOther | crypto/crypto.cpp:235-377 | the same on the bytes: verification for another message accepts exactly then |
| Merkle.BuildMerkleTree | common/block.h:140-156 | the flat array is the levels one after the other, and its last element the root of the recursive pairing |
| Merkle.LevelAt | common/block.h:140-156 | each node is the hash of its two children in order, a node left over with itself |
| Merkle.SmallRoots | common/block.h:140-156 | the roots of one to four transactions written out |
| Merkle.ValidateMerkle | src/core.cpp:217-228 | accepts exactly a matching root over distinct transactions, and which error otherwise |
| Merkle.MerkleBinding | src/core.cpp:217-228 | for any hash, two duplicate-free lists with one root are the same list, whatever their lengths, unless the hashes computed for the two roots show a collision, a leaf that is a hash, or a zero |
| Merkle.DuplicateKeepsRoot | common/block.h:140-156 | why duplicates are refused: repeating an odd last transaction keeps the root |
| ProofOfWork.RecentNewest | src/core.cpp:473-522 | the blocks averaged are exactly the newest matching ones, at most sixteen |
| ProofOfWork.AverageSpacing | src/core.cpp:494-512 | the loop computes the average spacing with weights halving from block to block |
| ProofOfWork.AverageClosed | src/core.cpp:494-512 | in closed form: the time differences, each counting twice the next older one, over 2^k - 1 |
| ProofOfWork.GetProofOfWorkTarget | src/core.cpp:473-522 | fails exactly for an unknown algorithm or off the primary chain; otherwise the bits the recent spacings ask for |
| ProofOfWork.OneWorkBlock | src/core.cpp:473-522 | with one work block the demand from its two times: above 100 seconds a bit less, above the limit of 16; below 80 a bit more |
| ProofOfWork.NoWorkBlock | src/core.cpp:473-522 | without a work block the demand is 20 bits |
| ProofOfWork.TargetWindow | src/core.cpp:473-522 | the average over the sixteen newest work blocks against 80 and 100 seconds |
| ProofOfWork.VerifyProofOfWork | src/core.cpp:265-304 | accepts exactly a block that carries the demanded bits, is not older than its parent and meets the run-time target |
| ProofOfWork.AcceptedExactly | src/core.cpp:265-304 | acceptance in numbers: algorithm, bits, times, and the leading zero bits the waiting time leaves |
| ProofOfWork.HashTargetExact | src/core.cpp:265-304 | a hash meets a target of up to 256 bits exactly if it starts with that many zero bits |
| ProofOfWork.HashTargetNothing | src/core.cpp:265-304 | beyond 256 bits only zero is left |
| ProofOfWork.RunTimeDecay | src/core.cpp:524-538 | one bit more within the first spacing, then one bit less per full step down to the limit; waiting never makes a hash harder to accept |
| ProofOfWork.AverageBetween | src/core.cpp:494-512 | the average, with division toward zero, lies between the smallest and largest spacing read, negative ones included |
| ProofOfWork.ChainDifficulty | src/core.cpp:265-304 | in every verified chain every work block carries at least 16 bits, its hash is below 2^240, and its bits differ by at most one from the previous work block's |
| ProofOfWork.TargetAnswers | src/core.cpp:512-521 | all recent spacings short raises the bits by one, all long lowers them by one down to the limit, all within the band keeps them |
| Parallel.AlwaysInv | mpvss/parallel.h:48-82 | under every schedule no two workers hold one index and every claimed index is held, finished or accounted for by a failure |
| Parallel.AtMostOnce | mpvss/parallel.h:48-82 | no schedule runs an index twice or one out of range |
| Parallel.RunResult | mpvss/parallel.h:232-267 | with a worker, an ended run returns true exactly when every task is good, and then every index was run exactly once |
| Parallel.StartWorkers | mpvss/parallel.h:48-55 | one thread for each index, no more than asked for |
| Parallel.StopsEarly | mpvss/parallel.h:232-267 | once the continue flag is cleared no schedule runs more tasks than were already begun |
| Parallel.RefusalClears | mpvss/parallel.h:232-267 | a task that says stop clears it in two steps of its worker |
| Parallel.TransformIsMap | mpvss/parallel.h:48-82 | an ended Transform of tasks that do not throw returns true and has stored the sequential map |
| Parallel.MovesBounded | mpvss/parallel.h:48-82 | whatever the schedule, at most threads + 5n turns do anything: every run ends |
| Parallel.NoWorkers | mpvss/parallel.h:28-34 | without a worker nothing runs and the answer is still true |
| VoteTimeline.CMvDelegate.Evolve | delegate/mvdelegate.cpp:43-93 | sets up the target 46 ahead, enrols the one 16 ahead and publishes the next, if present |
| VoteTimeline.BlockPhases | delegate/mvdelegate.cpp:43-93 | a block at height h sets up target h + 46, enrols h + 16, publishes h + 1, and touches no other vote |
| VoteTimeline.RunPublishes | delegate/mvdelegate.cpp:81-87 | in every run a block that reaches height h publishes target h + 1 if it was there |
| VoteTimeline.GoingUp | delegate/mvdelegate.cpp:43-93 | in a run of blocks from any start the first target is set up by the first, enrolled by block 31 and published by block 46 |
| VoteTimeline.CMvDelegate.Rollback | delegate/mvdelegate.cpp:95-115 | keeps exactly the surviving targets, unchanged |
| VoteTimeline.RollbackKeeps | delegate/mvdelegate.cpp:95-115 | exactly which votes survive, by the heights of their phases, and that they survive unchanged |
| VoteTimeline.RunTimely | delegate/mvdelegate.cpp:43-115 | in every run with any rollbacks each target is set up once at x - 46, enrolled only at x - 16, published at most once at x - 1, and set up and published only at heights still on the chain |
| VoteTimeline.RollbackRemoves | delegate/mvdelegate.cpp:95-115 | after a rollback no survivor was set up or published at a removed height; one enrolled at a removed height is the target from + 16, which survives exactly when at most 30 blocks are removed |
| VoteTimeline.RollbackLoses | delegate/mvdelegate.cpp:95-115 | every rollback loses the vote that was enrolled at the height fallen back to |
| VoteTimeline.RunEnrolsOnce | delegate/mvdelegate.cpp:43-115 | a target is enrolled at most once in every run without a short rollback from its enrolment height |
| VoteTimeline.StepEnrolsOnce | delegate/mvdelegate.cpp:43-115 | that condition is exact for each step |
| VoteTimeline.EnrolledTwice | delegate/mvdelegate.cpp:43-115 | falling back one block from the height at which a target was enrolled and going on enrols it a second time |
| VoteTimeline.TwiceFromTheStart | delegate/mvdelegate.cpp:43-115 | a run from any start, 31 blocks, one back, one forward, after which a target is enrolled twice at one height |
| Crc24q.TableEntry | crypto/crc24q.cpp:13-79 | all 256 literal entries are their index pushed through eight steps of division by the generator |
| Crc24q.ComputeCrc | crypto/crc24q.cpp:81-92 | the table-driven loop computes the remainder of the bitwise shift register |
| Crc24q.BurstDetected | crypto/crc24q.cpp:81-92 | messages of any one length that agree outside three consecutive bytes and have one checksum are equal |
| Crc24q.ChecksumExact | crypto/crc24q.cpp:81-92 | a message and three bytes have checksum zero exactly when the bytes are the message's checksum |
| Base32.Base32Encode | crypto/base32.cpp:26-37 | the loop and the tail group write the text of the bytes and their checksum |
| Base32.LetterIs | crypto/base32.cpp:15 | the alphabet in order |
| Base32.CapitalSame | crypto/base32.cpp:41 | capital letters count as small ones |
| Base32.SameNumber | crypto/base32.cpp:26-37 | the eight values of a group are the bits of its five bytes in order |
| Base32.Base32Decode5Bytes | crypto/base32.cpp:39-61 | one group never refuses a character, because the running and starts at zero |
| Base32.Base32Decode | crypto/base32.cpp:62-83 | succeeds exactly on 56 characters whose bytes have checksum zero |
| Base32.EncodeDecodes | crypto/base32.cpp:26-83 | decoding the encoding of any 32 bytes gives them back |
| Base32.DecodeEncodes | crypto/base32.cpp:26-83 | whatever decodes is the encoding of its result, up to letter case and characters counted as z |
| Base32.OneCharacter | crypto/base32.cpp:39-83 | in a text that decodes, one character may be replaced exactly by one of the same value |
| Address.CMvAddress.ParseString | src/address.cpp:26-38 | takes the address of the string if there is one and changes nothing otherwise |
| Address.CMvAddress.ToString | src/address.cpp:40-45 | the prefix character and the encoded bytes |
| Address.ParseShown | src/address.cpp:26-45 | an address reads back from its own string exactly when its prefix is a known one |
| Address.ShowParsed | src/address.cpp:26-45 | a string that reads as an address is that address's own string, up to the letters used |
| Address.OneCharacterRefused | src/address.cpp:26-38 | replacing one character behind the prefix is refused exactly when its value changes |
| Address.PrefixUnprotected | src/address.cpp:26-38 | the prefix is outside the checksum: any known prefix in its place is accepted |
| BigUint.BaseUint.AddAssign | crypto/uint256.h:133-143 | the carry loop adds modulo two to the width, also when a number is added to itself |
| BigUint.BaseUint.Negated | crypto/uint256.h:46-53 | complement and increment give the negative modulo two to the width |
| BigUint.BaseUint.SubAssign | crypto/uint256.h:145-149 | subtraction modulo two to the width |
| BigUint.BaseUint.Increment | crypto/uint256.h:167-174 | plus one modulo two to the width |
| BigUint.BaseUint.Decrement | crypto/uint256.h:184-191 | minus one modulo two to the width |
| BigUint.BaseUint.ShiftLeft | crypto/uint256.h:99-114 | multiplication by a power of two modulo two to the width, for any shift |
| BigUint.BaseUint.ShiftRight | crypto/uint256.h:116-131 | floor division by a power of two, for any shift |
| BigUint.BaseUint.Less | crypto/uint256.h:211-221 | numeric order |
| BigUint.BaseUint.LessOrEqual | crypto/uint256.h:223-233 | numeric order |
| BigUint.BaseUint.Equal | crypto/uint256.h:259-265 | numeric equality |
| HexText.GetHex | crypto/uint256.h:289-295 | eight digits for each limb that denote the number |
| HexText.HexAlphabet | crypto/uint256.h:289-316 | the sixteen digits in order, either case |
| HexText.SetHex | crypto/uint256.h:297-332 | the digits after spaces and 0x, modulo two to the width, and how far it read |
| HexText.DigitsFound | crypto/uint256.h:297-332 | what is read is the digits behind blanks and a prefix, up to the first character that is none |
| HexText.HexRoundTrip | crypto/uint256.h:289-332 | reading the text of a number gives the number and reads all of it |

## Left out

- Curve and field arithmetic, packing of points, cofactor: points are logarithms in the prime-order group, packing is any lawful one.
- BLAKE2b, SHA-512 and key clamping: arbitrary functions; a key pair is honest if its public half belongs to its clamped secret.
- Random draws of polynomials, keys and nonces are parameters.
- SecretShare.CMPSecretShare.Enroll: requires that enrolment neither throws nor leaves the tables; `EnrollIsSafe` gives the usable lists: distinct non-zero identities, total weight within the power table, enough commitments in every verified box.
- The power table of the secret sharing is modelled by powers, not by its literal entries.
- Exceptions of worker tasks inside the secret sharing appear as refusals or empty lists.
- Serialisation of shares, publications and proofs: messages are structured values.
- CMvDelegateVote.Accept and the delegate's own signatures on distributed shares.
- SnappyApi.RawUncompressToIOVec: requires buffers large enough for the announced length and distinct from each other, as its interface asks.
- SnappyApi.RawUncompress: requires room for the announced length, as its interface asks.
- SnappyApi.UncompressToSink: says nothing about the bytes a sink receives when decompression fails.
- UncompressAsMuchAsPossible, the C bindings, SSE and big-endian variants, and the string size limit of 32-bit builds.
- The reuse of working memory between blocks: every block gets a zeroed table, as the code gives it.
- The total-written counter of the buffer-list writer is derived from its other fields.
- MultiSign.MultiSignApk: models the two key sets equal, as both callers pass them.
- ProofOfWork.GetProofOfWorkTarget: leaves out the reward, and takes chains whose first block is no work, as the genesis block is.
- Serialisation of the proof bytes: a block either carries a proof or is too short for one.
- Parallel.TransformIsMap: takes reads and writes of the counter, the flag and the results as atomic steps in one order.
- VoteTimeline.CMvDelegate.Evolve: a vote is the record of its phases, without the shares inside it; `DelegateVote` has those.
- Base32.Base32Decode: characters above 127, which index the source's table from a negative position, count as outside the alphabet.
- The comparisons `>` and `>=`, the bitwise operators and the 64-bit overloads of the fixed-width integers, which repeat the loops shown.
- Networking, RPC, storage, wallet files, transactions, forks and the block maker.
