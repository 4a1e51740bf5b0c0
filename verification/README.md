# Verified model of the proof-of-existence SDK

A Dafny model of the hand-written algorithms of a byte-exact proof-of-existence SDK, with proofs of
what they promise: Merkle inclusion proofs, canonical CBOR, record validation and reconstruction,
COSE signatures, inclusion certificates, the pinned NFKC and passphrase profile, the Bech32 and
Crockford codecs, base 58, civil dates, and the resumable upload.

Algorithms that the source writes as loops, as objects or in place on a slice are methods and
classes here, proved equal to specification functions; the theorems are lemmas about those functions.
The theorems stack: CBOR carries the records and COSE, the Merkle proofs carry the certificates,
NFKC carries the passphrases, and signing, validation and re-reading meet in one statement
(`PoeSigning.SignedRecordAccepted`).

Round trips alone would hold of any codec that undoes itself, so each operation is also described from
outside, on all inputs and without its own functions: hash equations and climbing paths for the tree, octets for
CBOR, the rules of `PoeRules` for what a validation reports, literal conditions for every verdict of a
signature or a certificate, definition D117 for composition, the polynomial over GF(32) for the
checksum, and the exact grammar of `UploadSpec` with `UploadOutcomes` for what an upload's log means.
Alphabets, digits, hyphens and table lookups are pinned by `Bech32Facts.SymbolTable`, `Base58.AlphabetRanges`,
`Ids.AlphabetRanges`, `Ids.UuidText`, `Hex.EncodesAs`, `NfkcComposition.TableLookups`, `NfkcComposition.DecomposesApart` and
`PoeIssues.SegmentsExactly`.

What is abstract, and what is asked of it:

- SHA-256 is any function from bytes to 32-byte digests. Nothing is assumed of it: where security
  would be needed, a function computes two explicit inputs and the theorem says that otherwise they collide.
- Ed25519 is any triple of functions; signing theorems assume only that its own signatures verify
  (`CoseSign.Correct`, shown satisfiable by `CoseSign.CorrectConsistent`). BLAKE2b-224 is any function.
- The Unicode tables are any tables; NFKC theorems assume `NfkcIdempotence.WellFormed` (decompositions
  are flat, a composite decomposes like its pair, conjoining jamo decompose to themselves,
  and Hangul and what the tables put out is assigned), the passphrase theorems also that white space takes no part in
  composition. `Passphrase.AssumptionsConsistent` gives tables
  that satisfy both and still compose.
- Full Unicode case mapping in Bech32 is any pair of functions that agree with ASCII on ASCII and whose
  lower-casing leaves no ASCII capital (`Bech32.UnicodeConsistent`).
- The upload server is any function from the log so far and a request to a reply, the cancel
  predicate any function of the log. Request and reply bodies are the variants they parse to.
- The validator's URI and CID grammar, its list of forbidden cipher names and its form of extension keys are
  predicates of a `Profile`, arbitrary in every theorem.

Places where the source differs from its own comments, modelled as the code stands:

- src/cbor.rs:287-294 calls the key order length-first. It is bytewise, and length-first only within a
  major type: `CborReorder.LengthFirstFails`, `CborReorder.LengthFirstExactly`, `CborReorder.MajorsDecide`, `CborReorder.CollectionsNotLengthFirst`.
  `CborReorder.ScalarsOrder` and `CborReorder.CollectionsOrder` say what the order is within each major type.
- src/cose.rs:400-411 says encoding a header fails only for a duplicate key of the header. It also fails for
  one in a map that is a value of the header, at any depth: `Cose.EncodableExactly`, `CborProofs.MapEncodesExactly`.
- src/client/resumable.rs:708-752: the third incomplete answer is also followed by a status read and a round of
  chunks before the upload gives up, though the comment says the final iteration does not resume.
- src/client/resumable.rs:656-662: a transport error on a chunk ends the upload at once, though the comment
  calls it transient.
- src/client/resumable.rs:297-299: a cancel seen before a resumed session is read abandons nothing.
- src/client/resumable.rs:1006: the 64-bit chunk offset can wrap for a grid the server chooses; chunk integrity
  holds exactly when it does not wrap back into the file (`Chunks.ReadChunkExactly`, `Chunks.OffsetWraps`).
- src/ids.rs:242-245: an identifier whose prefix holds an underscore does not come back
  (`Ids.PrefixedRoundTrip` is exact).
- src/certificate/build.rs:153-189: building panics on a tree of more than 2^32-1 leaves that holds a target;
  the model returns `ProofUnavailable` there (`Certificate.BuildStopsExactly` is exact).

## Model

| member | source | states |
|---|---|---|
| `MerkleProofs.Completeness` | src/merkle.rs:172-288 | for every leaf list and index, the fold over two shifting counters computes the recursive root from the recursive audit path; the verifier accepts it exactly when there are at most 2^32-1 leaves |
| `MerkleProofs.Soundness` | src/merkle.rs:172-231 | whatever the verifier accepts against the root of a leaf list is the leaf at that index with exactly its audit path, or two computed hash inputs collide |
| `MerkleProofs.RootBinding` | src/merkle.rs:244-269 | leaf lists of any two lengths with one root are equal, or two computed hash inputs collide |
| `MerkleProofs.RootEquations` | src/merkle.rs:244-269 | in terms of the hash alone: a leaf is the hash of 00 and its digest, and n leaves are the hash of 01, the root of the first k and the root of the rest, for the power of two k with k < n <= 2k |
| `MerkleProofs.FoldClimbs` | src/merkle.rs:172-231 | for every leaf, index, size and path the fold over two counters gives what the path hashes to read from the root down, and nothing where it is too long or too short |
| `MerkleProofs.VerifiesExactly` | src/merkle.rs:172-231 | the verifier accepts exactly a 32-byte leaf and root, an index below a size of 1 to 2^32-1, and a path that climbs from the leaf to the root |
| `MerkleProofs.AnswersExactly` | src/merkle.rs:109-155 | the root and a leaf's path that climbs to it, or the error for an empty tree, an oversized one or an index outside it |
| `Merkle.VerifyInclusion` | src/merkle.rs:172-231 | the loop with its inner shift loop decides the fold over the two counters, range checks and root comparison included |
| `Merkle.LargestPow2Lt` | src/merkle.rs:234-241 | the doubling loop finds the unique power of two strictly below n whose double reaches n |
| `Merkle.SplitUnique` | src/merkle.rs:234-241 | only one exponent fits the split, so the split point is determined by the size alone |
| `CborProofs.DecodeIsEncoding` | src/cbor.rs:317-504 | every accepted byte string is exactly the encoding of the value it decodes to: shortest arguments, sorted distinct keys, nothing left over |
| `CborProofs.DecodeEncode` | src/cbor.rs:186-285 | what is encoded decodes to that value with the maps sorted at every depth |
| `CborProofs.DecodeInjective` | src/cbor.rs:317-329 | each value has at most one accepted encoding |
| `CborProofs.CanonStable` | src/cbor.rs:250-285 | sorting the maps of a value changes neither its encoding nor a second sorting |
| `CborProofs.PrefixFree` | src/cbor.rs:186-285 | no encoding is a proper prefix of another |
| `CborReorder.SameEncodingExactly` | src/cbor.rs:250-285 | two encodable values have one encoding if and only if they differ by the order of map pairs at some depth |
| `CborReorder.LengthFirstFails` | src/cbor.rs:287-297 | 24 encodes as 18 18 and sorts before -1, which encodes as 20: the order is not length-first across major types |
| `CborReorder.LengthFirstExactly` | src/cbor.rs:287-297 | for keys that are no collections, a shorter encoding sorts first exactly when its major type is not the greater |
| `CborReorder.MajorsDecide` | src/cbor.rs:287-297 | keys of different major types, collections included, sort by major type whatever their lengths |
| `CborReorder.CollectionsNotLengthFirst` | src/cbor.rs:287-297 | two array keys of which the longer encoding sorts first |
| `CborReorder.ScalarsOrder` | src/cbor.rs:287-297 | keys of one scalar type sort by the number in their header, then by their content |
| `CborReorder.CollectionsOrder` | src/cbor.rs:287-297 | of two array keys or two map keys the one with fewer elements sorts first, and between equals the first element in which their encodings differ decides |
| `CborProofs.MapEncodesExactly` | src/cbor.rs:250-285 | a map encodes if and only if every key and value does and no two keys encode alike |
| `CborWire.HeaderBytes` | src/cbor.rs:193-219 | every header as its one, two, three, five or nine bytes |
| `CborWire.WireFormat` | src/cbor.rs:221-248 | every value but a map as its bytes: initial byte, argument, content |
| `CborWire.MapOnWire` | src/cbor.rs:250-285 | a map is its header and its pairs, each once, key before value, the encoded keys strictly increasing |
| `CborWire.EncodesExactly` | src/cbor.rs:221-285 | a value encodes if and only if no length exceeds 64 bits and no map at any depth has two keys that encode alike; there is one error otherwise |
| `CborWire.DecodesExactly` | src/cbor.rs:317-539 | the decoder accepts encodings and nothing else, and answers an indefinite length exactly on the strings that announce one behind nothing but complete items in key order |
| `LexOrder.LessExactly` | src/cbor.rs:287-297 | the key order by positions: the first byte that differs decides, or the shorter of two that agree |
| `CborCodec.EncodeCanonicalCbor` | src/cbor.rs:186-285 | the encoder, appending to one buffer and writing pairs in the order of a stable sort by encoded key, writes the specified encoding or fails where it does |
| `CborCodec.DecodeCanonicalCbor` | src/cbor.rs:317-539 | the cursor decoder terminates on every input and returns what the specification parses, trailing bytes refused |
| `CborCodec.HasEqualNeighbours` | src/cbor.rs:250-285 | the scan over the sorted keys finds a duplicate exactly if two neighbours are equal |
| `KeyOrder.DuplicateExactly` | src/cbor.rs:250-285 | equal neighbours after sorting mean exactly that some key occurs twice |
| `Utf8.DecodeEncode` | src/cbor.rs:424-460 | every text comes back from its UTF-8 bytes |
| `Utf8.EncodeDecode` | src/cbor.rs:424-460 | accepted UTF-8 is exactly the encoding of the text it decodes to |
| `Utf8.ScalarLayout` | src/cbor.rs:424-460 | the one to four bytes of every scalar value, lead byte and six bits in each further one |
| `PoeComplete.AcceptedExactly` | src/poe_standard.rs:1308-1429 | the validator accepts a byte string if and only if it is the encoding of a sound record, soundness being said of the typed record without reference to the passes |
| `PoeDomainReports.ReportsExactly` | src/poe_standard.rs:1308-1429 | on every byte string the report holds an issue of a path, code and severity if and only if the declarative rules of `PoeRules` name it, in order; the answer is a rejection exactly when one of them is an error |
| `PoeReports.GuardReports` | src/poe_standard.rs:1488-1565 | the guard reports exactly the outermost keys that are no text |
| `PoeReports.SchemaReports` | src/poe_standard.rs:1567-1869 | the schema pass reports exactly what is missing, mistyped or unknown, each code at its place |
| `PoeDomainReports.DomainReports` | src/poe_standard.rs:1885-3061 | the domain pass reports exactly the rules a well-shaped record breaks, each with its code, place and severity |
| `PoeDomainReports.EnvelopeReports` | src/poe_standard.rs:2177-2922 | an envelope's issues, each question foreclosing the next: scheme, forbidden cipher, unknown names, keys, shape, parts |
| `PoeDomainReports.SigFaultReports` | src/poe_standard.rs:2989-3186 | a signature entry's issues: a leaked private key before a malformed one, a malformed message before its algorithm and its signer |
| `PoeSound.AcceptedSound` | src/poe_standard.rs:1308-1429 | the record handed back by an accepting validation is sound in every part |
| `PoeComplete.SoundAccepted` | src/poe_standard.rs:751-954 | the encoding of any sound record is accepted |
| `PoeReencode.AcceptedReencodes` | src/poe_standard.rs:751-815 | an accepted record encodes back to the very bytes validated, and its signing body to the encoding of the same map without signatures |
| `PoeReencode.ReconstructionTotal` | src/poe_standard.rs:1405-1429 | once the schema passes are empty, acceptance is exactly the absence of errors: the reconstruction never fails |
| `PoeReencode.AcceptedInjective` | src/poe_standard.rs:1308-1429 | one record comes from one byte string, whichever validators accepted it |
| `PoeReencode.TypedSame` | src/poe_standard.rs:2177-2742 | a typed envelope that passes is rebuilt into a value with the same encoding |
| `PoeReencode.EnvelopeSame` | src/poe_standard.rs:3333-3371 | an envelope that passes comes back with the same encoding in the typed and in the opaque reading |
| `PoeReencode.TypedDispatch` | src/poe_standard.rs:2177-2351 | the reconstruction reads an envelope as typed only where the validator held it to the typed rules |
| `PoeReencode.SlotSame` | src/poe_standard.rs:2749-2829 | a slot accepted under its KEM's closed shape encodes back as it was |
| `PoeShape.FieldsSame` | src/poe_standard.rs:776-815 | a map and the fields rebuilt from it in any order have one encoding |
| `PoeShape.FieldsFilled` | src/poe_standard.rs:776-815 | conversely, a map that encodes like a table of fields holds exactly those fields |
| `PoeSound.TypedSound` | src/poe_standard.rs:2608-2922 | a typed envelope without errors has one complete key path, registered lengths, no repeated encapsulation material, and cost parameters between floor and ceiling |
| `PoeSound.OpaqueDispatch` | src/poe_standard.rs:2177-2351 | an envelope accepted without being typed names an unknown identifier, no forbidden cipher, and was read in the public role |
| `PoeSound.CommitSound` | src/poe_standard.rs:2928-2983 | an accepted commitment has a registered algorithm, its root length, between 1 and 2^32-1 leaves and acceptable URIs |
| `PoeSound.CritSound` | src/poe_standard.rs:1922-1978 | accepted critical names are distinct, present and supported extensions |
| `PoeSound.StrictImpliesPublic` | src/poe_standard.rs:2177-2351 | what the strict role accepts, the public role accepts with the same verdict |
| `PoeComplete.Scheme1Accepted` | src/poe_standard.rs:2412-2922 | the encoding of any sound typed envelope raises nothing in the shape passes and the key-path rules |
| `PoeComplete.ItemAccepted` | src/poe_standard.rs:1980-2351 | the encoding of any sound item raises no error in any pass |
| `PoeComplete.SigAccepted` | src/poe_standard.rs:2989-3061 | the encoding of any sound signature entry raises no error |
| `PoeValidator.ValidatePoeRecord` | src/poe_standard.rs:1308-1429 | pushing the issues of every pass onto one list gives the verdict that `PoeDomainReports.ReportsExactly` and `PoeComplete.AcceptedExactly` pin down |
| `PoeIssues.IssueOrder` | src/poe_standard.rs:3222-3240 | the issue comparison is a strict order, total up to issues that agree on path and code |
| `PoeIssues.SortedInOrder` | src/poe_standard.rs:3242-3245 | sorting keeps every issue and leaves them in order |
| `PoeIssues.PathsExactly` | src/poe_standard.rs:3222-3240 | a path comes before what lies below it; otherwise the first segment that differs decides |
| `PoeSigning.SignedRecordAccepted` | src/cose.rs:777-977 | for a sound record whose body encodes, a correct key and any two headers that encode: the message is built and verifies over the body, and the record with it attached encodes, is accepted, and is read back with that body |
| `PoeSigning.BodyReadBack` | src/poe_standard.rs:765-815 | what a record's signature commits to is the same before encoding and after validation |
| `PoeSigning.DecodedStructure` | src/poe_standard.rs:3141-3186 | every message the COSE decoder accepts is well shaped for the validator, with the same view of its payload |
| `CoseSign.SignThenVerify` | src/cose.rs:777-977 | for EdDSA under the signer's key, any two headers that encode, without hashed mode, and any body, a message is built and verifies |
| `CoseSign.BuildExactly` | src/cose.rs:777-801 | building succeeds if and only if both headers encode and, for a signing closure, its answer is 64 bytes long |
| `CoseSign.BuiltVerification` | src/cose.rs:916-977 | verifying any encoded detached message reports exactly the verdict its headers, key and signature call for, hashed mode included |
| `CoseSign.VerifyExactly` | src/cose.rs:916-977 | on every message, body and expected key: the verified key and algorithm exactly when the message decodes without payload, asks for -8, names one signer and its signature holds over the literal structure, hashed or not; every refusal exactly under its condition |
| `CoseSign.DecodesExactly` | src/cose.rs:523-627 | a message decodes exactly when it is the array of protected bytes, header map, payload or null, and signature |
| `CoseSign.BuiltMessage` | src/cose.rs:777-801 | what is built is that array with the signature over the structure of the plain body |
| `CoseSign.SplitEqualsBuild` | src/cose.rs:848-888 | preparing, signing elsewhere and assembling gives the bytes of building in one step |
| `CoseSign.EncodeDecode` | src/cose.rs:523-627 | a message decodes to its headers in canonical order, its protected bytes, payload and signature |
| `CoseSign.DecodeEncodeSign1` | src/cose.rs:523-627 | an accepted message is exactly what is encoded from what it decodes to |
| `CoseSign.SigStructureInjective` | src/cose.rs:458-472 | different protected bytes, additional data or payloads never give one structure to sign |
| `CoseSign.Label309Injective` | src/cose.rs:475-502 | different headers or record bodies never give one record-signature structure |
| `Cose.LabelBijection` | src/cose.rs:240-276 | labels and the CBOR keys that are labels correspond one to one over the full integer range |
| `Cose.AssignGets` | src/cose.rs:329-335 | setting a label changes what that label reads as, and no other |
| `Cose.CoseHeader.Set` | src/cose.rs:329-335 | the update in place is that assignment, and keeps labels distinct |
| `Cose.CoseHeader.FromCborMap` | src/cose.rs:422-439 | reading a header succeeds exactly on maps whose keys are labels, with the pairs in order |
| `Cose.EncodableExactly` | src/cose.rs:387-411 | a header encodes if and only if its labels all differ and each label and value encodes |
| `Cose.HeaderDecoded` | src/cose.rs:387-439 | an encodable header reads back from its canonical map with every label keeping its value |
| `Certificate.BuildVerifyAgree` | src/certificate/build.rs:93-189 | a certificate that was built re-verifies if and only if there is a target, every target is a leaf and the chain is the supported one; for trees in range each verdict equals the stored flag |
| `Certificate.VerifiedItemsIncluded` | src/certificate/verify.rs:46-216 | if any certificate verifies against the root and size of a leaf list, every item is the leaf at its index with its audit path, or two computed hash inputs collide |
| `Certificate.FlagsIgnored` | src/certificate/verify.rs:46-216 | rewriting the stored verified flags changes nothing in the outcome |
| `Certificate.BuildStopsExactly` | src/certificate/build.rs:153-189 | building cannot give a proof exactly when the tree exceeds 2^32-1 leaves and some target is in it |
| `Certificate.BuiltItemVerdict` | src/certificate/build.rs:153-189 | a built item is verified at its leaf's index exactly when the target is a leaf, and otherwise says it was not found |
| `CertificateFacts.BuildFails` | src/certificate/build.rs:93-125 | which error stops the building, for all inputs |
| `CertificateFacts.BuildContents` | src/certificate/build.rs:127-222 | what a certificate holds: the inputs, label 309, the time in words, and for every target its first place and path in hex or the miss |
| `CertificateFacts.VerifyOutcome` | src/certificate/verify.rs:46-129 | the rejection of a certificate by the first check that fails, or a verdict for every item and success exactly when there are items and all verify |
| `CertificateFacts.ItemOutcome` | src/certificate/verify.rs:131-216 | an item's verdict by the first check that fails; past them it verifies exactly when its path climbs to the root |
| `Certificate.VerifyItem` | src/certificate/verify.rs:131-216 | the checks and the sibling loop give the specified verdict |
| `Certificate.ParseSiblings` | src/certificate/verify.rs:183-206 | the loop yields all siblings, or the first one that is no digest |
| `CivilDate.CivilTick` | src/certificate/build.rs:265-279 | every day count gives a valid Gregorian date, and the next count the next day |
| `CivilDate.CivilUnique` | src/certificate/build.rs:265-279 | any calendar that starts at 1970-01-01 and moves one day at a time is this one, before and after the epoch |
| `CivilDate.CivilIncreasing` | src/certificate/build.rs:265-279 | later days are later dates |
| `CivilDate.BlockTimeYears` | src/certificate/build.rs:22-28 | a non-negative block time falls in a year up to 9999 exactly when it is below the bound |
| `CivilDate.InstantOrder` | src/certificate/build.rs:246-261 | over admitted block times the rendered instant has 24 characters and grows lexicographically with the time |
| `CivilDate.InstantText` | src/certificate/build.rs:251-279 | the rendered instant reads back: date, clock and milliseconds at their fixed widths between the ISO 8601 separators |
| `NfkcIdempotence.CompositionKeepsDecomposition` | src/unicode_nfkc16.rs:220-265 | for self-decomposed text in canonical order, decomposing and reordering its composition gives it back, Hangul included |
| `NfkcIdempotence.NfkcIdempotent` | src/unicode_nfkc16.rs:274-292 | normalizing an accepted result again returns it unchanged |
| `NfkcIdempotence.NfkcDecidesEquivalence` | src/unicode_nfkc16.rs:274-292 | two accepted texts normalize alike exactly when their decompositions are linked by swaps of adjacent marks of distinct classes |
| `NfkcComposition.CompositionIsCanonical` | src/unicode_nfkc16.rs:244-265 | on text in canonical order the composition is that of definition D117 of the Unicode Standard: each character joins the last starter if the pair composes and nothing of its class or higher stands between |
| `NfkcComposition.ComposesAcross` | src/unicode_nfkc16.rs:244-265 | behind any text, a starter and marks that do not compose with it: a character of a higher class composes across them, one of a class already there stays |
| `NfkcComposition.HangulSyllables` | src/unicode_nfkc16.rs:182-242 | the syllable of every leading consonant, vowel and trailing consonant, both ways |
| `NfkcComposition.NormalizesExactly` | src/unicode_nfkc16.rs:274-292 | the first unassigned code point is the error; otherwise decomposition, reordering and composition in this order |
| `NfkcProofs.ReorderNormalForm` | src/unicode_nfkc16.rs:204-218 | two sequences reorder alike if and only if such swaps link them |
| `NfkcProofs.ReorderProfile` | src/unicode_nfkc16.rs:204-218 | the reordering is an ordered permutation, moves nothing across a starter and keeps marks of a class in order |
| `Nfkc.CanonicalReorder` | src/unicode_nfkc16.rs:204-218 | the insertion sort in place is that reordering |
| `Nfkc.Compose` | src/unicode_nfkc16.rs:244-265 | the loop with its last starter and last class is the composition that `NfkcComposition.CompositionIsCanonical` identifies |
| `Nfkc.RunNfkc16` | src/unicode_nfkc16.rs:274-292 | the three stages after the assignment check give the specified normalization |
| `Passphrase.NormalizedProfile` | src/sealed_poe/normalize.rs:72-115 | every accepted result is non-empty, has no space at either end, and no white space but single U+0020 |
| `Passphrase.NormalizeIdempotent` | src/sealed_poe/normalize.rs:72-115 | normalizing an accepted result again returns it, or fails exactly because it outgrew the 4096-byte cap |
| `Passphrase.NormalizesExactly` | src/sealed_poe/normalize.rs:72-115 | the cap of 4096 bytes on the input, then the normal form, then its words one space apart, and an error exactly if there is none |
| `Passphrase.WordsKept` | src/sealed_poe/normalize.rs:90-105 | collapsing and trimming leave the maximal runs without white space, in order, with one space between any two |
| `Passphrase.LengthInBytes` | src/sealed_poe/normalize.rs:72-80 | the length that is capped is that of the UTF-8 encoding |
| `Passphrase.CollapseAndTrimCommutes` | src/sealed_poe/normalize.rs:90-105 | collapsing and trimming commute with composition |
| `Passphrase.CollapseRuns` | src/sealed_poe/normalize.rs:90-103 | the loop replaces each run of white space by one space |
| `Passphrase.RunNormalizePassphrase` | src/sealed_poe/normalize.rs:72-115 | cap, normalization, collapse, trim and empty check in the source's order |
| `Base58.BufferFits` | src/poe_standard.rs:3591-3624 | for every length n, 58^n is below 256 to the allotted size, so no number outgrows the buffer |
| `Base58.FillBuffer` | src/poe_standard.rs:3600-3615 | multiplying and adding in the fixed buffer keeps the base-58 value exactly: no carry is ever lost |
| `Base58.DecodeBase58` | src/poe_standard.rs:3591-3624 | the result is one zero byte per leading 1 followed by the shortest big-endian bytes of the base-58 value, or nothing for a foreign character |
| `Base58.DecodedInjective` | src/poe_standard.rs:3591-3624 | different strings never decode to the same bytes |
| `Base58.DecodedExactly` | src/poe_standard.rs:3591-3624 | in terms of the characters alone: refused exactly with one outside the alphabet; otherwise the bytes with a leading zero for each leading 1 that weigh in base 256 what the characters weigh in base 58 |
| `Regroup.BytesToWords` | src/recipient.rs:144-161 | the accumulator loop yields the five-bit words of the byte string padded with zero bits |
| `Regroup.WordsToBytes` | src/recipient.rs:236-253 | the loop yields the bytes, and refuses a left-over of five bits or more or a non-zero pad |
| `Regroup.BytesToWordsToBytes` | src/recipient.rs:144-253 | any bytes come back from their words |
| `Regroup.WordsToBytesToWords` | src/recipient.rs:236-253 | accepted words are exactly the words of the bytes they regroup to |
| `Regroup.RegroupsExactly` | src/recipient.rs:144-253 | both directions hold exactly when the bits of the words are the bits of the bytes and fewer than five zeros |
| `Polymod.StepLinear` | src/recipient.rs:132-141 | the checksum step is linear over GF(2) |
| `Polymod.StepInjective` | src/recipient.rs:132-141 | the checksum step is injective on 30-bit states |
| `Bch.StepModulo` | src/recipient.rs:132-141 | the step multiplies by x modulo the generator polynomial of BIP-173 over GF(32), coefficient by coefficient |
| `Polymod.PolymodStep` | src/recipient.rs:132-141 | the loop over the generators is that step |
| `Checksum.BurstDetected` | src/recipient.rs:218-231 | messages of any length that differ only inside six consecutive words always leave different checksums |
| `Checksum.ChecksumExactly` | src/recipient.rs:164-189 | from any state, the six computed words are the only ones that complete a valid checksum |
| `Bech32.EncodeDecode` | src/recipient.rs:202-305 | what is encoded decodes to the lower-cased prefix and the same bytes, prefixes holding the separator included |
| `Bech32.DecodeEncode` | src/recipient.rs:202-305 | re-encoding what an accepted text decodes to gives that text in lower case |
| `Bech32.ErrorsDetected` | src/recipient.rs:218-305 | of two texts of any length under one prefix whose data differ only inside six neighbouring characters, at most one decodes |
| `Bech32Facts.SampleTexts` | src/recipient.rs:267-305 | the samples a12uel5l and ?1ezyfcl of BIP-173 decode to their prefixes and no data |
| `Bech32Facts.DecodesExactly` | src/recipient.rs:267-305 | the answer on every text by the first check that fails |
| `Bech32Facts.EncodesExactly` | src/recipient.rs:202-214 | the text is the lowered prefix, the separator, the regrouped data and the checksum that makes the register 1, or the error |
| `Bech32.EncodeNoLimit` | src/recipient.rs:202-214 | the encoder's loops give the specified text or error |
| `Bech32.DecodeNoLimit` | src/recipient.rs:267-305 | the decoder's checks in order give the specified result or error |
| `Ids.EncodeDecode` | src/ids.rs:139-182 | sixteen bytes come back from their 26 symbols |
| `Ids.DecodeEncode` | src/ids.rs:88-182 | encoding what was accepted resolves aliases and capitals |
| `Ids.SameIdExactly` | src/ids.rs:88-182 | two accepted strings name one identifier exactly when they agree once aliases are resolved |
| `Ids.SymbolRead` | src/ids.rs:85-106 | a character is read as a symbol in either case, or as the alias of zero or one |
| `Ids.DecodesExactly` | src/ids.rs:157-182 | the answer on every string: wrong length, the first character that is no symbol, non-zero pad bits, or the regrouped bytes |
| `Ids.EncodesExactly` | src/ids.rs:139-144 | 26 symbols for the bits of exactly sixteen bytes |
| `Ids.PrefixedExactly` | src/ids.rs:241-255 | what stands before the first underscore is the prefix, the rest is decoded |
| `Ids.PrefixedRoundTrip` | src/ids.rs:227-255 | an identifier comes back under its prefix exactly when the prefix has no underscore; otherwise the mismatch names the part before the first one |
| `Ids.CanonicalUuidRoundTrip` | src/ids.rs:188-255 | a canonical UUID comes back character for character |
| `Ids.UuidExactly` | src/ids.rs:188-206 | a UUID is accepted exactly with four hyphens anywhere and 32 hexadecimal digits of either case |
| `Ids.EncodeVariableLength` | src/ids.rs:113-131 | the loop over a 32-bit accumulator yields the symbols of the padded words, for any length |
| `Ids.DecodeBytes` | src/ids.rs:157-182 | the loop with its fixed output yields the bytes or the first error |
| `Hex.DecodeEncode` | src/hex.rs:39-71 | any bytes come back from their two digits each |
| `Hex.EncodeDecode` | src/hex.rs:39-71 | re-encoding accepted text gives it in lower case |
| `Hex.DecodesExactly` | src/hex.rs:63-71 | a text reads as some bytes exactly when it is, in either case, what they are written as |
| `Upload.Client.Chunked` | src/client/resumable.rs:285-397 | what the upload logs is a run of the exact grammar of the protocol with these settings and this answer, whatever the server replies and whenever a cancel is seen: every answer, errors included, is determined by the log |
| `UploadOutcomes.ErrorsExplained` | src/client/resumable.rs:285-477 | every error of a run is what its log says: a transport error, a refusal for good or for the third time, a source too short for a due chunk, a cancel seen, a failed attempt, a body that is not the one called for, or three incomplete completes |
| `UploadOutcomes.IncompleteGoesOn` | src/client/resumable.rs:688-753 | an incomplete answer to a complete never ends the upload: the next request reads the session's status |
| `UploadOutcomes.CooperationSucceeds` | src/client/resumable.rs:285-477 | with no cancel seen, chunks that can be read, every chunk acknowledged and the first complete answered with a URI, the upload returns that URI, every missing index sent |
| `UploadRuns.FreshUpload` | src/client/resumable.rs:285-477 | after a successful fresh upload the log shows, for every index of the grid the server chose, an acknowledged chunk, and those chunks in index order are the source exactly when the grid covers it and no offset wraps |
| `UploadRuns.RunReassembles` | src/client/resumable.rs:444-477 | fresh or resumed: what a server holds after a run is the declared bytes exactly when the grid reaches the total and no missing chunk's offset wraps back into the file |
| `UploadRuns.ChunkIntegrity` | src/client/resumable.rs:444-477 | every chunk sent goes to the run's session and carries the slice of its index, exactly unless the offset wraps |
| `UploadRuns.SuccessCovers` | src/client/resumable.rs:688-753 | success means every missing chunk was acknowledged, and again every chunk a later status listed |
| `UploadRuns.FreshSession` | src/client/resumable.rs:314-355 | a fresh run fills the grid of the session its create was answered with, over the whole source |
| `UploadRuns.ResumedSession` | src/client/resumable.rs:295-312 | a resumed run fills the grid its status read reported |
| `UploadRuns.RunBounds` | src/client/resumable.rs:626-753 | at most three completes, three status reads and one more to resume, and three attempts at a chunk each time it is due |
| `UploadRuns.RunProgress` | src/client/resumable.rs:402-477 | reported progress never falls, starts at what the server held and stays within the total |
| `UploadOutcomes.ProgressIs` | src/client/resumable.rs:444-477 | after a chunk is acknowledged the report is the end of that chunk clamped to the total, and never less than was held |
| `UploadRuns.RunCancel` | src/client/resumable.rs:419-436 | a cancel is answered only with nothing sent or with the run's own session deleted; a session is deleted only for a cancel, once, last |
| `UploadRuns.RunOrigin` | src/client/resumable.rs:688-937 | a URI is only ever the one the server gave for this session: by its create, its status, its complete under the run's key, or the attempt that complete handed out |
| `Upload.Client.PutChunkWithRetry` | src/client/resumable.rs:626-678 | the same request again only after a transient failure, each right after a cancel check, at most three times, reporting what the last event says |
| `Upload.Client.PollAttempt` | src/client/resumable.rs:810-874 | polls while the attempt is pending and the budget lasts, each after a cancel check, reporting what the last event says |
| `Upload.Client.CompleteSession` | src/client/resumable.rs:688-753 | completes under one key, each incomplete answer met by a status read and a round that sends what it lists, ending as the last event says |
| `Upload.Client.OpenExisting` | src/client/resumable.rs:294-312 | a resumed session is adopted from its status, unless the status or the attempt it names decides the outcome |
| `Upload.Client.OpenFresh` | src/client/resumable.rs:314-355 | a create either stores nothing new, fails, or fixes the grid and announces the session |
| `Chunks.ReadChunkExactly` | src/client/resumable.rs:1000-1046 | over a source that covers the declared total, the chunk read is the slice of its index if and only if the 64-bit offset does not wrap back into the file |
| `Chunks.OffsetWraps` | src/client/resumable.rs:1006-1009 | a grid on which the offset of chunk 2 wraps to the start of the file |
| `Chunks.ConcatExactly` | src/client/resumable.rs:1000-1046 | chunks read for a grid make up the declared bytes exactly when it reaches the total and every chunk is the one assigned |

## Left out

- Hashing, HKDF, Ed25519, X25519, ML-KEM and AEAD internals, sealed envelopes and the verifier pipeline: library wrappers or not hand-written algorithms.
- The literal Unicode tables and their parsers: the facts used are hypotheses about arbitrary tables.
- Error and issue messages, warning codes (the validator raises none), constant-time comparison and zeroizing.
- The permissive CBOR decoder and its floats: it only reads, and nothing re-encodes what it reads.
- The leaves-list codec (src/merkle.rs:396-597): a fixed CBOR map on top of the codec proved here.
- The grammar of URIs, CIDs, forbidden cipher names and extension keys (src/poe_standard.rs:1209-1274, 2075-2151, 3447-3589 except base 58): arbitrary predicates here.
- The upload's single-shot path, path sources, HTTP framing, JSON parsing and the digest header: plumbing; the wall-clock polling deadline is a budget of polls, and an interruptible wait one cancel check.
- `Failed` after three incomplete answers is the separate error `NotCompleted` in the model, so that giving up can be told from a failed attempt.
- The certificate's CBOR and COSE forms, its fixed claim texts and the clock behind `generated_at`: a parameter or no algorithm.
- Key parsing for COSE (src/cose.rs:1014-1043) and the wallet-address digest: only the validator's inspection of inline keys is modelled.
- The age wrappers around Bech32 (src/recipient.rs:313-366) and `is_prefixed_id`: length checks over the proved codec.
- CborCodec.EncodeCanonicalCbor: asks that lengths fit 64 bits, which no value in memory can violate.
- CoseSign.SignThenVerify: asks that the body and the encoded headers are no longer than 2^63-1 bytes, which no byte string in memory can be.
- Ids.EncodeDecode: the lower-casing of the source is ASCII lower-casing of hexadecimal digits here.
- PoeSigning.SignedRecordAccepted: the attached signature replaces any the record had, and names its signer in its own header or out of band; the message, and the number of extensions, are asked to have 64-bit lengths, as all in memory do.
