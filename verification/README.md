# Zeto off-chain library and build scheduler: a verified model

Zeto is a toolkit of privacy-preserving tokens. Wallets written against its Go SDK and its JavaScript library
encrypt the contents of new UTXOs, frame the ciphertexts as public signals of a proof, derive keys from shared
secrets and write the payloads that contracts read. A build script compiles all circuits with bounded
concurrency. This project models that code and proves what it promises, and, where the code does not keep a
promise, exactly when it does.

| Module | What it models |
|---|---|
| `Field` | arithmetic modulo the BN254 scalar field, with Go's and JavaScript's remainders |
| `Sponge` | the Poseidon sponge cipher as a function of an arbitrary permutation |
| `GoCipher` | the Go cipher on its heap: numbers are cells, some are overwritten in place |
| `JsCipher` | the JavaScript cipher, and its agreement with Go |
| `Circuit` | the constraints of the circom template, and their agreement with Go |
| `Framing` | several ciphertexts in one array of public signals, and how readers cut it up |
| `Bits`, `BitCodec` | bit and byte codecs of both libraries |
| `SeedScalar` | the scalar derived from a 32-byte seed |
| `MlKem` | recovery of a 768-byte ML-KEM ciphertext from 25 field elements |
| `Scheduler` | the job loop of the build script as a state machine |
| `Linker` | linking of library addresses into bytecode |
| `Abi`, `AbiBytes`, `Layouts` | head/tail encoding, its bytes, and the words that each payload consists of |
| `Hex`, `Payloads` | hexadecimal texts, and the six payload encoders of the Go SDK |
| `Commitment` | spend and cancel commitments of a lock |

## Parameters

The Poseidon permutation is an arbitrary partial function on four integers; nothing is assumed of it. A missing
answer is the error of the Go hash library. JavaScript's hash takes every integer, so there it is a total function;
results about both say that it answers as Go's does wherever Go's answers. Keccak is an arbitrary function from
byte strings to 256-bit words. Decimal parsing is an arbitrary function from strings to optional integers.
Two hypotheses on the hash are named where they are needed: `Sponge.FieldHash` says that it answers field elements
with field elements, and `JsCipher.AnswersExactly` that it answers exactly the words of a given kind.

## What the code does differently from what it says

- The Go cipher encrypts the empty message, but its decryption refuses length 0. The round trip holds if and
  only if the message is not empty (`Sponge.RoundTrip`). The JavaScript pair has no such gap
  (`JsCipher.RoundTripJs`).
- The padding check runs only for lengths above 3, so a ciphertext of length 1 or 2 may be accepted although no
  encryption produces it. For every hash on the field, the converse round trip holds if and only if the length is
  above 3 or divisible by 3 (`Sponge.ConverseReach`); at lengths 1 and 2 every key and nonce has a failing ciphertext
  (`Sponge.ShortConverseFails`), and for one given ciphertext `Sponge.ConverseRoundTrip` says exactly when.
- The nonce is meant to lie in [0, 2^128), but Go checks only the upper end. Within that range the capacity word
  determines nonce and length; a negative nonce collides with another length, even to the same ciphertext
  (`Sponge.NegativeNonceCollides`).
- The circuit compares the nonce with 2^128 by `LessThan(252)`, without confining it to 252 bits first. Field
  elements from `MODULUS - (2^252 - 2^128)` on wrap around the comparator and pass it (`Circuit.NoncePasses`). Go
  refuses them, so circuit and Go library agree if and only if the nonce lies below (`Circuit.CircuitMatchesGo`).
- JavaScript checks neither the form of the ciphertext, nor the upper end of nonce and length, and lets length 0
  pass. `JsCipher.EncryptAgreesWhere` and `JsCipher.DecryptAgreesWhere` say exactly on which arguments both libraries
  give the same result; a nonce of 2^128 is one on which they do not (`JsCipher.LargeNonceDiffers`).
- Go recovers an ML-KEM ciphertext without the zero bytes at the top of each chunk. It returns 768 bytes, and
  agrees with JavaScript, if and only if no chunk's top byte is zero (`MlKem.GoAgreesWithJs`).
- The build script attaches a job's `finally` handler after the awaits of the job's iteration, and guards its races
  with `if`. So `parallelLimit` is not the number of jobs that run at once. It is kept in every run if and only if
  the selected circuits and their batch jobs number at most one more than the limit (`Scheduler.LimitKeptExactly`).
  In general the number is at most the limit plus twice the jobs that settled before their handler was attached
  (`Scheduler.ConcurrencyBound`), so it is the limit without such jobs (`Scheduler.LimitKeptWithoutLateJobs`), and this
  bound is reached for every limit and every number of such jobs (`Scheduler.BoundIsReached`). A limit below 1, which
  a negative `GEN_CONCURRENCY` sets, acts as 1.
- `solidity/test/utils.ts` says that its commitment mirrors `lib/zeto_fungible.sol`; the function it mirrors is in
  `solidity/contracts/lib/zeto_lockable_lib.sol:442-461`. An injective hash from byte strings to 256-bit words
  does not exist, so commitments are proved binding under the weaker hypothesis that the hash has no collision
  among the strings hashed for the two commitments at hand.

## How the scheduler's steps were read off JavaScript's event loop

Jobs settle, and `finally` handlers run, only while the script is suspended at an await; a job that returns before
its own first await, as for a missing input file, is settled when it is started. A race remembers the set it was
called with. It ends through some settled member of that set. If that member has a handler, it was attached before
the race began, hence its reaction was queued before that of the race and has run: that is the only order between
handlers and the script that every run has to respect. Other handlers may run at any point of a suspension, so the
event loop allows no run that the model does not have, and what is proved of all runs holds of the script.

What is claimed to happen is shown on fewer runs. In a prompt run a job settles only when no handler waits and the
script has nothing to react to, and the script resumes only when all handlers have run. That is what the event loop
does when every job ends in an event of its own, such as the exit of a process. The failing runs of
`Scheduler.LimitKeptExactly` and `Scheduler.BoundIsReached` are prompt, and `Scheduler.NoDeadlock` and
`Scheduler.EveryRunCanReturn` find prompt steps.

## Model

| member | source | states |
|---|---|---|
| Field.AddMod | zkp/js/lib/util.js:136-145 | for all integers, under a remainder with the sign of the dividend, the sum is the Euclidean residue of a + b and the correcting loop runs at most once |
| Field.AddStep | zkp/js/lib/util.js:138 | one reduction step keeps the residue and stays strictly within one modulus of zero, whatever the signs |
| Field.BoundIsPower | go-sdk/src/internal/crypto/utils.go:28 | the decimal text of the nonce's bound, and of the capacity word's factor, is 2^128 |
| Field.ModulusIsCurveOrder | zkp/js/lib/util.js:38 | the decimal text of the modulus is the order of BN254, as its family's polynomial gives it |
| Field.UnmaskMask | go-sdk/src/internal/crypto/encryption.go:140-144 | subtracting a key-stream word undoes adding it, up to reduction of the message word |
| Field.MaskUnmask | go-sdk/src/internal/crypto/encryption.go:77-81 | adding a key-stream word undoes subtracting it, up to reduction of the ciphertext word |
| Field.MaskIsSum | zkp/js/lib/util.js:67-69 | Go's sum of reduced operands is JavaScript's residue of the plain sum |
| Field.UnmaskIsSum | zkp/js/lib/util.js:101-103 | Go's difference of reduced operands is JavaScript's residue of adding the negation |
| Sponge.BlocksRoundTrip | go-sdk/src/internal/crypto/encryption.go:66-87 | replaying the state from the ciphertext blocks reaches the encryptor's final state and yields the message words, reduced |
| Sponge.PaddingAccepted | go-sdk/src/internal/crypto/encryption.go:151-164 | the zeros that encryption pads with pass the padding check and are cut off again |
| Sponge.OpenUndoesSeal | go-sdk/src/internal/crypto/encryption.go:127-178 | from any initial state, opening what was sealed gives the message back, reduced |
| Sponge.RoundTrip | go-sdk/src/internal/crypto/encryption.go:38-179 | decrypting what was encrypted gives the message, reduced, for a non-empty message, and the length error for the empty one |
| Sponge.EncryptSucceeds | go-sdk/src/internal/crypto/encryption.go:38-56 | with a hash that always answers, encryption succeeds exactly when key length and nonce pass, and yields the padded length plus one |
| Sponge.BlocksConverse | go-sdk/src/internal/crypto/encryption.go:131-149 | encrypting the words that block decryption yields gives the canonical ciphertext blocks and the same state back |
| Sponge.ReencryptedShape | go-sdk/src/internal/crypto/encryption.go:101-104 | an accepted ciphertext that re-encryption reproduces has the padded length plus one, reduced words and zero padding |
| Sponge.ConverseRoundTrip | go-sdk/src/internal/crypto/encryption.go:151-178 | an accepted ciphertext is the encryption of what it decrypts to if and only if its length matches, its words are reduced, and the padding is zero where the check does not look |
| Sponge.ShortConverseFails | go-sdk/src/internal/crypto/encryption.go:151-164 | for every hash on the field, key, nonce in range and length 1 or 2, a canonical ciphertext of the right length is accepted that re-encryption does not give back |
| Sponge.ConverseReach | go-sdk/src/internal/crypto/encryption.go:151-164 | for every hash on the field and every length l >= 1, re-encryption gives back every accepted canonical ciphertext of the right length, under every key and nonce, if and only if l > 3 or 3 divides l |
| Sponge.InitialStateBinds | go-sdk/src/internal/crypto/encryption.go:58-61 | for all integer nonces two initial states are equal if and only if the keys are and the nonces differ by the lengths' difference times 2^128; within [0, 2^128) that is equality of nonce and length, and the capacity word is a field element for every int64 length |
| Sponge.NegativeNonceCollides | go-sdk/src/internal/crypto/encryption.go:42-61 | the guard admits a negative nonce: under every hash on the field a message and a longer one are both encrypted from the same initial state, and to the same ciphertext when the further word is zero in the place of padding |
| GoCipher.ToBigIntRegular | go-sdk/src/internal/crypto/encryption.go:77-81 | the in-place write changes one cell, which must belong to the latest hash output, and returns that very cell |
| GoCipher.PadMessage | go-sdk/src/internal/crypto/encryption.go:46-56 | the padded slice holds the message followed by zeros, and no caller's cell is written |
| GoCipher.EncryptRound | go-sdk/src/internal/crypto/encryption.go:68-87 | a round stores the absorbed words in three cells not used before, which are also the next state, and changes no earlier cell |
| GoCipher.EncryptPadded | go-sdk/src/internal/crypto/encryption.go:63-98 | from any initial state the loop and the last permutation compute the sealed blocks, in fresh and pairwise distinct cells |
| GoCipher.PoseidonEncrypt | go-sdk/src/internal/crypto/encryption.go:38-99 | the heap code computes the cipher or its error, returns fresh and pairwise distinct cells and changes no cell of the caller, aliased arguments included |
| GoCipher.DecryptRound | go-sdk/src/internal/crypto/encryption.go:131-149 | a round releases the unmasked words in cells of its own hash output although the state is repointed at the caller's cells |
| GoCipher.DecryptBody | go-sdk/src/internal/crypto/encryption.go:125-149 | the loop computes block decryption and no in-place write reaches the ciphertext |
| GoCipher.CheckAndRelease | go-sdk/src/internal/crypto/encryption.go:151-178 | padding check, last permutation, tag check and release give the message or the first error that applies |
| GoCipher.PoseidonDecrypt | go-sdk/src/internal/crypto/encryption.go:105-179 | the heap code computes decryption or its error, returns fresh and pairwise distinct cells and changes no cell of the caller |
| GoCipher.EncryptThenDecrypt | go-sdk/src/internal/crypto/encryption_test.go:68-141 | for every non-empty message that encrypts, decrypting the very cells that came back succeeds with the message, reduced |
| JsCipher.PadMessage | zkp/js/lib/util.js:48-53 | the pushing loop pads to the next multiple of three with zeros |
| JsCipher.AddBlock | zkp/js/lib/util.js:66-69 | three truncating sums give the state that Go's field operations give |
| JsCipher.PoseidonEncrypt | zkp/js/lib/util.js:45-84 | the loop computes the cipher under the guards that JavaScript has |
| JsCipher.SubBlock | zkp/js/lib/util.js:100-103 | three truncating sums with negated words give the words that Go's field differences give |
| JsCipher.DecryptLoop | zkp/js/lib/util.js:91-109 | the loop computes block decryption of the whole blocks of the ciphertext |
| JsCipher.PoseidonDecrypt | zkp/js/lib/util.js:86-128 | decryption or its error, for ciphertexts and lengths of any form |
| JsCipher.RoundTripJs | zkp/js/lib/util.js:45-128 | for every message, the empty one included, and every integer nonce, decrypting what was encrypted gives the message, reduced |
| JsCipher.EncryptAgrees | zkp/js/lib/util.js:45-84 | both libraries encrypt alike, errors included, if and only if the key is refused by both, or the nonce is below 2^128 and Go's hash does not refuse |
| JsCipher.EncryptAgreesWhere | zkp/js/lib/util.js:45-84 | the same in terms of the arguments: the nonce is below 2^128, and key and capacity word are of the kind the hash answers |
| JsCipher.DecryptAgrees | zkp/js/lib/util.js:86-128 | both libraries decrypt alike, errors included, if and only if the key is refused by both, or Go's guards on ciphertext form and nonce pass and the length is negative, or within Go's range without a refusal by Go's hash |
| JsCipher.DecryptAgreesWhere | zkp/js/lib/util.js:86-168 | the same in terms of the arguments: for a hash that answers exactly the words of a kind, when Go's hash refuses is told from key, capacity word and ciphertext words, the last block counting only if its padding is not refused before |
| JsCipher.AnyFormAgrees | zkp/js/lib/util.js:86-128 | a ciphertext of any form decrypts as Go decrypts its whole blocks followed by its last word, nonce and length being in Go's range |
| JsCipher.LengthForNonce | zkp/js/lib/util.js:91-127 | beyond that range a length differs from another of the same padding rule only by what it adds to the nonce and by how much of the message is cut off |
| JsCipher.LastWordMatters | zkp/js/lib/util.js:124-125 | under every nonce and length, no accepted ciphertext is accepted with another last word |
| JsCipher.MessageLengthIs | zkp/js/lib/util.js:127 | a released message has the length asked for, or that of the whole blocks if they are fewer |
| JsCipher.ShortRefused | zkp/js/lib/util.js:111-125 | without a whole block nothing is released for the empty array, and the padding is refused wherever it is looked at |
| JsCipher.LargeNonceDiffers | zkp/js/lib/util.js:147-168 | with nonce 2^128 JavaScript encrypts every message and decrypts it again, and Go refuses both |
| JsCipher.GoToJs | zkp/js/lib/util.js:41-44 | what Go encrypts, JavaScript decrypts to the message, reduced |
| Circuit.WiredIsSealed | zkp/circuits/lib/encrypt.circom:54-75 | the round equations hold of some signals exactly when the ciphertext is the sealed message and the round results are the replayed states |
| Circuit.NoncePasses | zkp/circuits/lib/encrypt.circom:31-34 | exactly the field elements below 2^128 and those from MODULUS - (2^252 - 2^128) on have bits that satisfy the comparator |
| Circuit.ProvableIsSealed | zkp/circuits/lib/encrypt.circom:24-76 | all constraints can be satisfied if and only if the nonce passes the comparator and the ciphertext is the sealed message for the template's input state |
| Circuit.CircuitMatchesGo | zkp/circuits/lib/encrypt.circom:24-76 | for every nonce in the field, the circuit accepts exactly the ciphertext that Go computes, or none where Go refuses, if and only if the nonce is below MODULUS - (2^252 - 2^128) |
| Circuit.WrappedNonce | zkp/circuits/lib/encrypt.circom:31-34 | for every nonce that wraps around, the circuit accepts some ciphertext and Go refuses the nonce |
| Circuit.LargestNonce | zkp/circuits/lib/encrypt.circom:31-34 | the largest field element is such a nonce |
| Framing.SlicesDecrypt | solidity/test/zeto_anon_enc.ts:149-163 | for any number of outputs, words 4i to 4i + 4 of the joined ciphertexts decrypt with length 2 and the i-th key to pair i, in JavaScript and in Go |
| Framing.AuditMessageReads | zkp/circuits/basetokens/anon_enc_nullifier_non_repudiation_base.circom:117-139 | sender key, input secrets, output owners and output secrets are found at their offsets in the authority's message |
| Framing.AuditLength | zkp/circuits/basetokens/anon_enc_nullifier_non_repudiation_base.circom:141-142 | with n inputs and n outputs the authority's ciphertext has 6n + 4 words |
| Framing.PublicSignalSlices | solidity/test/zeto_anon_enc_nullifier_non_repudiation.ts:924-929 | the signals are the ephemeral key, the receivers' ciphertexts from 2 to 2 + 4n, the authority's up to 2 + 4n + 6n + 4, and the rest |
| Framing.ReceiversFindTheirPairs | solidity/test/zeto_anon_enc_nullifier_non_repudiation.ts:924-926 | the first two signals are the ephemeral key, and signals 2 to 2 + 4n, whatever surrounds them, give each receiver its pair, in JavaScript and in Go |
| Framing.AuthorityFindsEverything | solidity/test/zeto_anon_enc_nullifier_non_repudiation.ts:228-258 | the authority's slice decrypts, with length 2 + 6n, to every owner and secret at its offset, in JavaScript and in Go |
| Bits.PackUnpack | zkp/js/lib/util.js:211-236 | bytes to bits to bytes is the identity |
| Bits.UnpackPack | zkp/js/lib/util.js:211-236 | bits to bytes to bits is the identity up to zeros that fill the last byte |
| Bits.PackValue | zkp/js/lib/util.js:211-222 | packing keeps the little-endian value |
| Bits.UnpackValue | zkp/js/lib/util.js:225-236 | unpacking keeps the little-endian value |
| BitCodec.GoBytesToBits | go-sdk/src/internal/crypto/utils.go:37-49 | the filled array is the little-endian unpacking of every byte |
| BitCodec.OrFoldIsValue | go-sdk/src/internal/crypto/utils.go:57-60 | on bits, or-ing shifted inputs in a byte is summing weighted digits |
| BitCodec.ShiftLeftBits | go-sdk/src/internal/crypto/utils.go:59 | on any byte, a shift to the left moves the digits up and drops those that leave the byte |
| BitCodec.GoBitsToBytes | go-sdk/src/internal/crypto/utils.go:51-64 | an error exactly when the length is no multiple of 8, else eight shifted and or-ed inputs to a byte, which on bits is the packing that JavaScript computes |
| BitCodec.JsBytesToBits | zkp/js/lib/util.js:225-236 | the pushed bits are the same unpacking as Go's |
| BitCodec.JsBitsToBytes | zkp/js/lib/util.js:211-222 | the pushed bytes are the packing, a short last byte included |
| BitCodec.BitRoundTrip | go-sdk/src/internal/crypto/utils.go:51-54 | unpacking packed bits is exact if and only if the length is a multiple of 8, which is when Go accepts it, and always keeps the value |
| SeedScalar.GoPublicKeyScalar | go-sdk/src/internal/crypto/utils.go:93-104 | the caller's seed, of 32 bytes or more, is clamped in place, never an error, and the scalar is the one JavaScript computes |
| SeedScalar.JsPublicKeyScalar | zkp/js/lib/util.js:242-250 | the caller's seed, of 32 bytes or more, is clamped in place, and its bits from the fourth on, with a short last byte, give the scalar |
| SeedScalar.ClampBits | zkp/js/lib/util.js:245-247 | bit for bit, clamping is that of RFC 8032, section 5.1.5, and touches no other bit |
| SeedScalar.ScalarIsEighthOfSeed | go-sdk/src/internal/crypto/utils.go:98-104 | eight times the scalar is the little-endian value of the clamped seed |
| SeedScalar.ScalarRange | go-sdk/src/internal/crypto/utils.go:89-92 | the scalar has exactly 252 bits, for a longer seed if and only if the bytes beyond 32 are zero |
| SeedScalar.ClampIdempotent | go-sdk/src/internal/crypto/utils.go:94-97 | deriving again from the already clamped seed gives the same scalar |
| MlKem.ChunkIsFixed | zkp/js/lib/util.js:260 | binary text, padding, reversal and packing of a number within its chunk give its little-endian bytes at full width |
| MlKem.JsChunkKeepsValue | zkp/js/lib/util.js:257-264 | a chunk keeps the value of its number however wide it is, in as many bytes as the wider of number and chunk needs |
| MlKem.JsRecover | zkp/js/lib/util.js:257-267 | the two stages of the recovery concatenate all 25 chunks in order |
| MlKem.JsRecoversAll | zkp/js/lib/util.js:257-267 | for every 768-byte string, recovery from its 25 numbers gives exactly that string |
| MlKem.ReverseSlice | go-sdk/src/internal/crypto/utils.go:109-113 | the in-place swaps reverse the slice |
| MlKem.GoRecover | go-sdk/src/internal/crypto/utils.go:66-87 | the first unparsable or too long text is the error, otherwise the minimal little-endian bytes of all numbers in order |
| MlKem.GoRefuses | go-sdk/src/internal/crypto/utils.go:70-81 | the first text that is no number, or one of more than 248 bits (192 for the last), decides on the error, whatever comes later |
| MlKem.GoAccepts | go-sdk/src/internal/crypto/utils.go:70-81 | without such a text there is no error |
| MlKem.SignIgnored | go-sdk/src/internal/crypto/utils.go:82-84 | a number and its negation are recovered alike |
| MlKem.MinBytesStripped | go-sdk/src/internal/crypto/utils.go:82-83 | the reversed minimal bytes are the full-width bytes without the zeros at the top |
| MlKem.GoAgreesWithJs | go-sdk/integration-test/e2e_anon_nullifier_qurrency_test.go:92-97 | on chunks in range Go returns all chunks without top zeros; that is 768 bytes, and JavaScript's result, if and only if no chunk's top byte is zero |
| Scheduler.StepKeepsInv | zkp/circuits/scripts/gen.js:346-372 | every step keeps the invariant that ties started jobs, missing handlers, active set and late jobs together |
| Scheduler.RunKeepsInv | zkp/circuits/scripts/gen.js:346-372 | the invariant holds in every state of every run |
| Scheduler.ConcurrencyBound | zkp/circuits/scripts/gen.js:354-369 | at most the limit (1 if smaller) plus twice the late jobs run at once, in every state of every run |
| Scheduler.LimitKeptExactly | zkp/circuits/scripts/gen.js:346-369 | every run, and every prompt run, keeps at most the limit (1 if smaller) running if and only if the configuration calls for at most one job more than that |
| Scheduler.JobCountIs | zkp/circuits/scripts/gen.js:346-360 | the jobs called for are one for every circuit asked for by name, and one more where it has a batch variant |
| Scheduler.BoundIsReached | zkp/circuits/scripts/gen.js:354-369 | for every positive limit and every number of late jobs some prompt run reaches the bound exactly |
| Scheduler.RunningJobsAreActive | zkp/circuits/scripts/gen.js:351-360 | no running job is missing from the active set |
| Scheduler.Completion | zkp/circuits/scripts/gen.js:257-372 | on return exactly the circuits asked for by name, or all if none was, and the batch jobs of those among them that have one, were started, once each and in order, and none still runs |
| Scheduler.NoDeadlock | zkp/circuits/scripts/gen.js:354-372 | until the script has returned some prompt step is possible, in particular no race waits for ever |
| Scheduler.EveryRunCanReturn | zkp/circuits/scripts/gen.js:346-373 | every run of n circuits has at most 10n + 3 states, and one that has not returned can be continued, promptly if it was prompt |
| Linker.LinkLibrary | solidity/scripts/lib/common.ts:64-74 | the splices of one library are its fixups' in order, none without an address |
| Linker.LinkBytecode | solidity/scripts/lib/common.ts:61-78 | if the listed fixups fit and do not overlap, every fixup of every library with an address shows that address and every other character is the original's; in any case all splices are applied in iteration order |
| Linker.SitesAreListed | solidity/scripts/lib/common.ts:63-69 | the sites that are visited are exactly the fixups that some file lists for some library |
| Linker.FixupsInOrder | solidity/scripts/lib/common.ts:69-74 | a library's fixups are spliced first to last, each as the three pieces of the code, for fixups of any kind |
| Linker.LibrariesInOrder | solidity/scripts/lib/common.ts:64-69 | the libraries of a file are linked first to last |
| Linker.FilesInOrder | solidity/scripts/lib/common.ts:63-64 | the files of an artifact are linked first to last |
| Linker.PatchIsLocal | solidity/scripts/lib/common.ts:70-73 | a splice inside the bytecode rewrites its own range to the address and changes nothing else, the length included |
| Linker.LinkingSubstitutes | solidity/scripts/lib/common.ts:58-60 | for fitting sites, pairwise equal or disjoint, linking is simultaneous substitution: addresses at their sites, unresolved placeholders and all other characters unchanged |
| Linker.OrderIrrelevant | solidity/scripts/lib/common.ts:63-69 | the order of files, libraries and fixups does not matter |
| Abi.ReadsBack | go-sdk/src/internal/util/util.go:299-347 | for every nested type, decoding an encoded value gives it back, whatever follows it |
| Abi.EncodingInjective | solidity/test/utils.ts:441-443 | values of one type that share an encoding are equal, for arrays of all lengths |
| AbiBytes.WordsRoundTrip | go-sdk/src/internal/util/util.go:101-106 | words written as 32 big-endian bytes each are read back |
| AbiBytes.WordBytes | go-sdk/src/internal/util/util.go:101-106 | the i-th word stands in bytes 32i to 32i + 32, the most significant first |
| AbiBytes.BytesReadBack | go-sdk/src/internal/util/util.go:93-106 | decoding an encoded payload gives the value back |
| AbiBytes.BytesInjective | solidity/test/utils.ts:441-443 | different values of a type never share a payload |
| AbiBytes.FirstOffset | go-sdk/src/internal/util/util.go:87-99 | the first dynamic component's head is the byte size of the whole head, whatever the values |
| Layouts.ProofSpells | go-sdk/src/internal/util/util.go:299-311 | a proof is encoded as its eight numbers in the contract's order, and nothing else |
| Hex.HexTextReads | go-sdk/src/internal/util/util.go:285-294 | the prefixed hexadecimal text of a number is read back, and that of nil or of a negative number is no number |
| Hex.DigitsAre | go-sdk/src/internal/util/util.go:48 | the digits of a text are those of the number, last to first, without a leading zero |
| Payloads.ConvertProof | go-sdk/src/internal/util/util.go:256-297 | a nil proof is the error; otherwise both rows of B are swapped once and nothing else moves |
| Payloads.HexList | go-sdk/src/internal/util/util.go:76-82 | every number of an array is read back from its text, in order, and nil or a negative number is read as none |
| Payloads.EncodeAnon | go-sdk/src/internal/util/util.go:19-40 | the payload has 256 bytes: the eight numbers of the proof as big-endian words, B's rows swapped; an error exactly for a nil proof or a number that is missing, negative or too large |
| Payloads.EncodeNullifier | go-sdk/src/internal/util/util.go:42-66 | the payload has 288 bytes: root and the eight numbers; errors as before |
| Payloads.EncodeEnc | go-sdk/src/internal/util/util.go:68-107 | the payload is nonce, key, 0x180, the eight numbers, the count of encrypted values and the values, and nothing else, and a contract decodes it so |
| Payloads.EncodeEncNullifier | go-sdk/src/internal/util/util.go:109-151 | the payload is root, nonce, key, 0x1a0, the eight numbers, the count of encrypted values and the values, and nothing else, and a contract decodes it so |
| Payloads.EncodeEncNullifierNonRepudiation | go-sdk/src/internal/util/util.go:153-204 | the payload is root, nonce, key, the offsets of both arrays, the eight numbers, the receivers' count and values, the authority's count and values, and nothing else, and a contract decodes it so |
| Payloads.EncodeQurrency | go-sdk/src/internal/util/util.go:206-254 | the payload is root, nonce, 0x480, the 25 elements of the encapsulated secret, the eight numbers, the count of encrypted values and the values, and nothing else, and a contract decodes it so |
| Payloads.EncOffset | go-sdk/src/internal/util/util.go:87-99 | the fourth word of every payload is 0x180 |
| Payloads.EncNullifierOffset | go-sdk/src/internal/util/util.go:129-143 | the fifth word of every payload is 0x1a0 |
| Payloads.NonRepudiationOffset | go-sdk/src/internal/util/util.go:180-196 | the fifth word of every payload is 0x1c0 |
| Payloads.QurrencyOffset | solidity/test/zeto_anon_nullifier_qurrency.ts:883-884 | the third word of every payload is 0x480, as in the test vector |
| Commitment.EncodedListReads | solidity/test/utils.ts:449-451 | decoding an encoded array of hashes gives it back |
| Commitment.EncodedListIs | solidity/test/utils.ts:449-451 | an encoded array is the word 32, its length and its elements, 64 + 32n bytes and nothing else |
| Commitment.PreimageIs | solidity/test/utils.ts:445-454 | the last hash is taken of 160 bytes: domain and the four component hashes, in source order |
| Commitment.CommitmentsAre | solidity/test/utils.ts:458-466 | each commitment is the hash of five words of which the first is the hash of its own tag |
| Commitment.TagBytes | solidity/test/utils.ts:430-431 | the bytes of both tags |
| Commitment.PreimageReads | solidity/test/utils.ts:445-454 | the last hash is taken of domain, locked inputs, locked outputs, outputs and data, in this order, as a decoder reads them |
| Commitment.EncodedListInjective | solidity/test/utils.ts:449-451 | arrays of any lengths with the same encoding are equal |
| Commitment.PreimageInjective | solidity/test/utils.ts:445-454 | equal inputs to the last hash have equal domains and equal component hashes, position by position |
| Commitment.CommitmentBinds | solidity/test/utils.ts:433-456 | unless the hash collides on the strings hashed for them, two commitments are equal if and only if domain, all three arrays and data are |
| Commitment.SpendAndCancelApart | solidity/test/utils.ts:458-466 | under the same hypothesis no spend commitment equals a cancel commitment |

## Left out

- GoCipher.PoseidonEncrypt: nil elements of slices, which make the original panic, are not values of the model; slices are sequences of cells, since no element of a caller's slice is assigned.
- GoCipher.PoseidonDecrypt: as above; errors are told apart by kind, not by text.
- JsCipher.PoseidonDecrypt: arguments of the wrong JavaScript type and fractional lengths, refused or rounded by the original, are not values of the model.
- Circuit.NoncePasses: circomlib's `comparators.circom` is not part of this model; its `LessThan` is modelled as the bits of the shifted difference in the field, with a zero top bit.
- SeedScalar.GoPublicKeyScalar: the curve multiplication that follows the scalar, and seeds shorter than 32 bytes, on which Go panics and JavaScript writes past the end.
- MlKem.JsRecover: negative numbers, whose binary text starts with a sign, and arrays of fewer than 25 numbers, on which the original throws; further elements are ignored, as in the original.
- Scheduler.Completion: jobs that reject, and circuits that end the process, are not modelled; a job is an opaque computation that settles at some time or never.
- Scheduler.EveryRunCanReturn: says nothing of jobs that never settle; that a run is continued is the event loop's fairness.
- Linker.LinkingSubstitutes: of overlapping or out-of-range fixups only the order of the splices is stated (`Linker.FixupsInOrder`).
- Payloads.EncodeAnon: the JSON between the SDK and its encoding library, which carries the texts unchanged; that library is taken as the head/tail encoding that reads prefixed hexadecimal numbers and refuses others and those above 2^256 - 1. The same holds for the other five layouts.
- The job loop is a step relation and not an imperative method, because its interleavings with jobs and handlers are what is proved about.
- Internals of Poseidon, Keccak, Baby Jubjub and ML-KEM, and any cryptographic strength.
- The contracts' ledger and lock lifecycle, other circuits, Groth16 proofs and Merkle trees.
- Compilation, downloads, version checks and files in the build script; deployment scripts; random nonces and salts; logging.
- `encodeProof`, `kycHash`, `tokenUriHash`, `inflateUtxos` and `inflateOwners`, which would add only easy members.
