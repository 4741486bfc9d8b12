# A verified model of the Nitro attestation verifier

This project models the `verifier` crate in Dafny: certificate path validation and the accumulated
path digests, the COSE_Sign1 envelope and its signed bytes, the rules for attestation documents,
end-to-end verification, the ABI codec of the journal, and the zkVM guest program.

SHA-256, P-384 ECDSA, the X.509 DER parser and the decoder of the document payload are arbitrary
functions: they are fields of `Crypto.Primitives` and `Verifier.Environment`, so every theorem holds for
any of them. No collision resistance is assumed. Where a result depends on it, the model contains a
search (`PathDigest.FindCollision`) that compares the strings actually hashed for two chains, and the
theorem says that either the search returns two different strings with the same hash or the result holds.

Loops and buffers of the source are methods (`ComputePathDigests`, `VerifyChain`, `FromBytes`,
`WriteSigStructure`, `ToBytes`, `RunVerify`), each proved equal to a function; the properties are
lemmas about those functions. Pure code is written as functions directly.

## Files

- `Basics.dfy`, `Errors.dfy`, `Crypto.dfy`, `Utf8.dfy`: machine integers and big-endian words, error tags,
  cryptographic primitives, well-formed UTF-8 (section 4 of RFC 3629).
- `PathDigest.dfy`: path digests, how they compose, and what they bind.
- `X509.dfy`: certificates, chain parsing, the checks in their order, and `verify_chain`.
- `ChainProperties.dfy`: trusted prefixes, roles, self-issued certificates, path length (RFC 5280).
- `CacheSoundness.dfy`, `CacheRuns.dfy`: a cached prefix replaces validating it again, for one cache hit,
  for whole chains of hits, and on the level of journals.
- `Cbor.dfy`, `CborForms.dfy`: CBOR values, encoder and decoder (RFC 8949); all the ways to write an item, and the
  decoder and the encoder characterised by them.
- `CborExamples.dfy`: heads and initial bytes byte by byte, and examples of RFC 8949.
- `Cose.dfy`: COSE_Sign1 envelopes and their signed bytes (RFC 8152).
- `Abi.dfy`, `Journal.dfy`: the Contract ABI encoding and the schema of inputs, journals and batches.
- `Attestation.dfy`, `Verifier.dfy`: documents and their rules, verification, endorsement.
- `Outcomes.dfy`: what certificate checks, chain validation and verification return, in raw fields and constants.
- `Guarantees.dfy`, `Guest.dfy`: what an accepted report guarantees; host and guest agree.

`dafny verify dfyconfig.toml` checks the whole project.

## Model

| member | source | states |
|---|---|---|
| PathDigest.ComputePathDigests | verifier/src/x509.rs:35-53 | one digest for each certificate: the first is the hash of the first, each later one hashes its predecessor with the hash of its certificate |
| PathDigest.DigestsCompose | verifier/src/x509.rs:36-52 | digests of `a ++ b` are those of `a` followed by an accumulation over `b` that needs only the last digest of `a` |
| PathDigest.EqualLengthBinding | verifier/src/x509.rs:39-50 | equal digests at the same position: the prefixes are equal exactly when the collision search finds nothing, and what it finds is a collision between strings hashed for the two chains |
| PathDigest.UnequalLengthExact | verifier/src/x509.rs:39-50 | equal digests at different positions: the search fails exactly when the shorter chain ends like the longer one and its first certificate is the 64-byte string the longer one hashes there |
| PathDigest.UnequalLengthBinding | verifier/src/x509.rs:39-50 | hence a collision comes out whenever the shorter chain's first certificate is not 64 bytes long |
| PathDigest.SixtyFourByteAmbiguity | verifier/src/x509.rs:41-47 | the exception is real: for every hash there are chains of lengths one and two with the same last digest although no two strings hashed for them collide |
| PathDigest.DigestVectorBinding | verifier/src/x509.rs:26-30 | equal digest vectors bind length and contents of the whole chain without side condition |
| X509.ParseFrom | verifier/src/x509.rs:84-98 | certificates keep their bytes and order; an error names the first certificate that is malformed or has trailing data |
| X509.FromDerExact | verifier/src/x509.rs:79-101 | a chain parses exactly when it is non-empty and every certificate parses with nothing left over |
| X509.ParsingIsDeterministic | verifier/src/x509.rs:88-96 | equal DER bytes give equal certificates |
| X509.ValidityArithmetic | verifier/src/x509.rs:324-343 | for every u64 timestamp the i64 cast does not wrap, and the check means notBefore*1000 <= timestamp < (notAfter+1)*1000 in unbounded integers |
| X509.ValidateCertContent | verifier/src/x509.rs:231-316 | reports the first content check, in order, that fails for the certificate in its role |
| X509.ContentExact | verifier/src/x509.rs:231-316 | all content checks pass exactly for P-384 certificates fit for their role as CA or leaf |
| X509.LinkExact | verifier/src/x509.rs:169-208 | the remaining checks pass exactly when the certificate is in its validity period, linked to its issuer and signed by it |
| X509.PassesAllExact | verifier/src/x509.rs:138-209 | passing every check equals the trust invariant for all certificates plus full validation outside the trusted prefix |
| X509.CertFaultExact | verifier/src/x509.rs:138-209 | the check reported for a certificate is the first one it fails |
| X509.ChainResultExact | verifier/src/x509.rs:115-212 | acceptance exactly on chains meeting the declarative requirements, with digests and expiries of all certificates; otherwise the least failing certificate and its first failing check |
| X509.VerifyChain | verifier/src/x509.rs:115-212 | the loop with its early returns and two accumulators computes the result that the `Outcomes` rows spell out |
| Outcomes.ParsingOutcome | verifier/src/x509.rs:79-101 | the least certificate that is malformed or has trailing data is reported with its index; without one, each is kept with its bytes |
| Outcomes.CertificateOutcome | verifier/src/x509.rs:138-209 | the first of 22 conditions on the fields of a certificate and its parent, in order and with every constant written out, decides what is reported |
| Outcomes.ChainOutcome | verifier/src/x509.rs:115-212 | the least certificate with a fault decides the error and its variant; otherwise digests and expiries by their recurrences |
| Outcomes.ChainInFields | verifier/src/x509.rs:115-212 | exactly which chains are accepted, in the fields of their certificates |
| Outcomes.SingleCertificate | verifier/src/x509.rs:162-164 | a single certificate is accepted exactly as a self-signed CA, with its hash and expiry |
| Outcomes.OidsOfNitroCertificates | verifier/src/x509.rs:388 | the required identifiers have the DER octets found in the real certificates |
| ChainProperties.PrefixSplit | verifier/src/x509.rs:157-160 | acceptance with prefix j is acceptance with k plus validation of certificates j to k-1, with the same outputs |
| ChainProperties.PrefixMonotone | verifier/src/x509.rs:131-160 | a longer trusted prefix never rejects an accepted chain nor changes its outputs |
| ChainProperties.SameOutput | verifier/src/x509.rs:131-146 | outputs depend only on DER bytes and notAfter values, not on prefix or time |
| ChainProperties.ExpiriesNotPassed | verifier/src/x509.rs:140-146 | every untrusted certificate of an accepted chain has a returned expiry not before the timestamp |
| ChainProperties.UntrustedRole | verifier/src/x509.rs:162-167 | in an accepted chain of several certificates the untrusted CAs are exactly those that are not last |
| ChainProperties.PrefixFreeness | verifier/src/x509.rs:162-167 | a chain and a proper extension of it are never both accepted with the shorter one's last certificate untrusted |
| ChainProperties.DuplicateAnchorRejected | verifier/src/x509.rs:148-155 | a self-issued certificate inserted at any later position is fatal for every prefix and time |
| ChainProperties.NoAdjacentRepeat | verifier/src/x509.rs:173-180 | no untrusted certificate of an accepted chain repeats its predecessor |
| ChainProperties.PathLengthCastExact | verifier/src/x509.rs:190-192 | the 32-bit cast leaves the path-length comparison unchanged for all limits if and only if the chain has at most 2^32 + 1 certificates |
| ChainProperties.PathLengthRefinesRfc5280 | verifier/src/x509.rs:182-199 | the per-parent test accepts exactly when the running max_path_length of RFC 5280 (6.1.2(k), 6.1.4(l), 6.1.4(m)), started at the boundary certificate, accepts |
| ChainProperties.AcceptedMeetsRfc5280 | verifier/src/x509.rs:182-199 | every accepted chain of up to 2^32 + 1 certificates passes the RFC 5280 counter |
| ChainProperties.PathLengthRangeExact | verifier/src/x509.rs:182-199 | the code enforces the RFC 5280 counter on all chains parsed from n DER strings if and only if n is at most 2^32 + 1; for longer ones a parser and DER strings are constructed whose chain is accepted and escapes it |
| ChainProperties.PathLengthBoundsChain | verifier/src/x509.rs:182-199 | every path-length limit from the boundary on bounds the length of an accepted chain |
| CacheSoundness.HitSharesPrefix | verifier/src/x509.rs:26-32 | a cache hit without a collision means the two chains share the cached certificates |
| CacheSoundness.CacheExact | verifier/src/x509.rs:103-212 | after such a hit, the smaller prefix gives the same answer if and only if no shared certificate has expired and the shared path limits admit the new chain |
| CacheSoundness.CacheSound | verifier/src/x509.rs:103-212 | with unexpired returned expiries and a chain no longer than the cached one, the cached prefix can be replaced by the earlier one with identical outputs, or a collision is exhibited |
| CacheRuns.HitCollisionGenuine | verifier/src/x509.rs:39-50 | what the search returns for a cache hit of two accepted reports is a collision |
| CacheRuns.CachedVerificationSound | verifier/src/verify.rs:43-78 | the same for accepted reports, from their journals alone: re-verification with the caching report's prefix gives the same journal but for the prefix field |
| CacheRuns.RunSound | verifier/src/verify.rs:43-78 | in any run in which cache hits build on cache hits, every report would have been accepted with the base prefix, with the same journal but for the prefix field |
| CacheRuns.RunCollision | verifier/src/x509.rs:39-50 | a run to which this does not apply exhibits a collision |
| CborForms.HeadRoundTrip | verifier/src/attestation.rs:89-91 | a head written in any of its five forms reads back, with the bytes after it |
| CborForms.HeadExact | verifier/src/attestation.rs:37-38 | every head that is read has one of the five forms or leaves a length open |
| CborForms.WrittenReads | verifier/src/attestation.rs:36-38 | an item in any form it can be written in, followed by anything, decodes to its value and the rest if and only if its nesting is within the decoder's limit |
| CborForms.DecodeExact | verifier/src/attestation.rs:36-38 | the decoder finds a value and leaves the rest if and only if the nesting is within the limit and the input is some way to write the value followed by the rest |
| CborForms.Unambiguous | verifier/src/attestation.rs:37-38 | no way to write an item is the beginning of a way to write another, nor of another way to write the same |
| CborForms.RoundTrip | verifier/src/attestation.rs:36-38 | decoding an encoded value followed by anything gives the value and the rest if and only if its nesting is within the limit |
| CborForms.ShortestExact | verifier/src/attestation.rs:89-91 | a way to write a value is the encoder's if and only if every head in it is shortest and every length definite |
| CborForms.ReencodeExact | verifier/src/attestation.rs:37-38 | encoding what was decoded gives back the bytes read if and only if they were in that shortest form |
| CborForms.EncodingPrefixFree | verifier/src/attestation.rs:89-91 | no encoding is a proper beginning of another |
| CborForms.LongFormsAccepted | verifier/src/attestation.rs:37-38 | other forms are indeed accepted: one number, two inputs |
| CborExamples.HeadBytes | verifier/src/attestation.rs:89-91 | the bytes of a head, digit by digit, for each of the five ranges of its argument |
| CborExamples.InitialByte | verifier/src/attestation.rs:37-38 | what each initial byte announces, and when the bytes after it are too few |
| CborExamples.MajorType | verifier/src/attestation.rs:37-38 | what each of the eight major types makes of its argument, with the errors of strings, nesting and simple values |
| CborExamples.IntegerExamples | verifier/src/attestation.rs:37-38 | integers of appendix A of RFC 8949 decode as listed there |
| CborExamples.StringExamples | verifier/src/attestation.rs:37-38 | byte and text strings decode as listed there |
| CborExamples.ContainerExamples | verifier/src/attestation.rs:37-38 | arrays and maps, with lengths given or left open |
| CborExamples.ChunkExample | verifier/src/attestation.rs:37-38 | a string in pieces |
| CborExamples.SimpleExamples | verifier/src/attestation.rs:37-38 | simple values and floats |
| CborExamples.RejectedExamples | verifier/src/attestation.rs:37-38 | what is not well-formed or has no meaning is rejected |
| Utf8.Utf8Exact | verifier/src/attestation.rs:37-38 | text is accepted exactly when it is the concatenation of encoded Unicode scalar values (RFC 3629) |
| Cose.FromBytes | verifier/src/attestation.rs:36-73 | the iterator over the array takes the elements the specification function names |
| Cose.ParseCoseOutcome | verifier/src/attestation.rs:41-72 | what is returned or reported for every shape of the decoded item |
| Cose.ParseCoseExact | verifier/src/attestation.rs:36-73 | parsing yields three byte strings on exactly the inputs that begin with some way to write a four-element array, or tag 18 around one, holding them at positions 0, 2 and 3 |
| Cose.CoseRoundTrip | verifier/src/attestation.rs:36-73 | an encoded envelope, tagged or not and followed by anything, gives back its three byte strings exactly when the unprotected header is within the nesting limit |
| Cose.EnvelopeLayout | verifier/src/attestation.rs:36-73 | the bytes of an envelope: tag 18, an array of four, and the elements in order |
| Cose.WriteSigStructure | verifier/src/attestation.rs:81-93 | the parts written one after another are the encoding of the four-element structure, read back as it alone, and spell "Signature1" at their third to twelfth byte |
| Cose.SigStructureLayout | verifier/src/attestation.rs:81-93 | byte layout of section 4.4 of RFC 8152, with the context string written out |
| Cose.SigStructureInjective | verifier/src/attestation.rs:81-93 | equal to-be-signed bytes mean equal protected header and payload, also as beginnings of longer strings |
| Abi.DecodeEncode | verifier/src/types.rs:136-149 | decoding any buffer that begins with the encoding of a typed value gives the value back, for nested tuples and arrays |
| Abi.DecodedIsTyped | verifier/src/types.rs:145-148 | whatever the bytes, decoded values respect ranges, enumerations, text and fixed sizes |
| Abi.ComponentAt | verifier/src/types.rs:140-142 | the head of a dynamic component holds the running sum of heads and preceding tails, and its tail is there |
| Abi.WordBytes | verifier/src/types.rs:140-142 | the 32 bytes of a number, digit by digit |
| Journal.Bytes48.ToBytes | verifier/src/types.rs:119-124 | the filled buffer is the first half followed by the second |
| Journal.Bytes48RoundTrip | verifier/src/types.rs:112-134 | splitting and joining are inverse, and the halves are zero exactly when all bytes are |
| Journal.InputRoundTrip | verifier/src/types.rs:136-153 | decode after encode is the identity on verifier inputs |
| Journal.JournalRoundTrip | verifier/src/types.rs:136-153 | the same for journals |
| Journal.BatchRoundTrip | verifier/src/types.rs:136-153 | the same for batches, arrays of dynamic structs |
| Journal.InputsInjective | verifier/src/types.rs:136-153 | different inputs have different encodings |
| Journal.JournalsInjective | verifier/src/types.rs:136-153 | different journals have different public values |
| Journal.BatchesInjective | verifier/src/types.rs:136-153 | different batches have different encodings |
| Journal.PublicValues | verifier/src/types.rs:136-142 | the public values are one word, 32, and the encoded tuple |
| Journal.JournalLayout | verifier/src/types.rs:45-67 | the public values start with the offset of their only parameter; each of the seven dynamic fields has its offset in its head and its contents at that offset |
| Journal.JournalScalars | verifier/src/types.rs:45-51 | result, prefix and timestamp are the three words after the first, results numbered in declaration order |
| Journal.JournalStrings | verifier/src/types.rs:57-66 | user data, nonce, public key and module name stand in the public values at their offsets: length, contents, zeros up to a whole word |
| Journal.JournalElements | verifier/src/types.rs:52-64 | every digest, expiry and PCR stands in the public values at its place in its array, after the number of elements |
| Journal.JournalOffsets | verifier/src/types.rs:45-67 | the offsets of the dynamic fields follow one another by their lengths |
| Journal.InputBytes | verifier/src/types.rs:36-43 | all bytes of an encoded input |
| Journal.BatchLayout | verifier/src/types.rs:69-75 | in an encoded batch, the head of each output holds the running sum and points to the output's own encoding |
| Journal.DecodedScalars | verifier/src/types.rs:145-148 | decoded scalars are the first words of the tuple; results, prefixes and times out of range are rejected |
| Journal.RecordedOffsets | proof/proof.json:3 | the public values of every journal of the recorded shape have the recorded length, first word and seven offsets |
| Journal.JournalLengthExact | verifier/src/types.rs:45-67 | the length of the public values is a closed form in the field lengths |
| Journal.JournalIsAligned | verifier/src/types.rs:140-142 | and a whole number of words |
| Attestation.PcrEntriesExact | verifier/src/verify.rs:56-64 | the journal's PCR list is the document's map in strictly ascending order of index, each value split after 32 bytes |
| Attestation.FewSmallIndices | verifier/src/verify.rs:143-157 | indices up to 31 imply at most 32 PCRs |
| Attestation.ContentFaultExact | verifier/src/verify.rs:121-196 | a document passes exactly when it meets the rules; the upper bound on the PCR count follows from the others |
| Attestation.ContentFaultIsFirst | verifier/src/verify.rs:121-196 | a rejection names the first broken rule in the order of the code |
| Attestation.ContentInFields | verifier/src/verify.rs:121-196 | exactly which documents pass, in their fields; one non-zero byte in one PCR is enough |
| Attestation.ContentOutcome | verifier/src/verify.rs:121-196 | the first of ten conditions on the fields, with every limit written out, decides what is reported |
| Verifier.CoseSignatureFaultOf | verifier/src/verify.rs:81-101 | no fault exactly when key and signature decode and the signature verifies |
| Verifier.RunVerify | verifier/src/verify.rs:35-78 | the composition of the imperative parts computes the specified result |
| Verifier.AcceptsIsEndorsed | verifier/src/x509.rs:157-208 | a chain is accepted exactly when an endorsement derivation runs from the boundary key, or a self-signed root, to the last certificate and every untrusted certificate qualifies |
| Verifier.VerifySound | verifier/src/verify.rs:35-78 | an accepted report is attested: parsed, well-formed, endorsed down to the signed payload |
| Verifier.VerifyComplete | verifier/src/verify.rs:35-78 | every attested report is accepted |
| Verifier.VerifyExact | verifier/src/verify.rs:35-78 | acceptance is exactly attestation |
| Outcomes.VerificationOutcome | verifier/src/verify.rs:35-101 | what is returned at every stage: the error of the first failing one, or the journal, field by field |
| Guarantees.IssuersAreCas | verifier/src/verify.rs:43-48 | of an accepted report's untrusted certificates, all but the enclave's own are CAs and that one is not |
| Guarantees.JournalInvariants | verifier/src/verify.rs:35-78 | one digest and one expiry for each of at least two certificates, PCRs ascending with indices 0 to 31, one of them non-zero, sizes within the limits |
| Guarantees.JournalFaithful | verifier/src/verify.rs:55-77 | every journal field reports what the document and the certificates say; the digests by their recurrence |
| Guarantees.PublicValuesBound | verifier/src/verify.rs:143-193 | encoded journals take at most 5696 + 64 bytes for each certificate + the padded module name |
| Guarantees.LongerPrefixAccepted | verifier/src/verify.rs:46-48 | trusting a longer prefix changes only the recorded prefix |
| Guarantees.JournalBindsChain | verifier/src/verify.rs:43-48 | equal digest lists in two journals mean equal chains and expiries, or a collision is exhibited |
| Guarantees.SignedBytesFixJournal | verifier/src/verify.rs:50-77 | accepted reports with the same signed bytes and prefix have the same journal |
| Guarantees.ErrorNamesFirstStage | verifier/src/verify.rs:35-53 | an error comes from the first stage that the input does not pass |
| Guest.HostGuestAgreement | verifier/src/bin/nitro-verifier-guest.rs:26-34 | the guest commits exactly when the host accepts; it commits the encoding of the host's journal, which decodes to it |
| Guest.CommitsOnlyVerified | verifier/src/bin/nitro-verifier-guest.rs:26-34 | whatever bytes it is given, the guest commits exactly when they decode to an input that the host accepts, and then its well-shaped journal |

## Left out

- Internals of SHA-256, ECDSA, point and signature decoding and DER grammar: arbitrary functions here.
- Decoding of the attestation document from its payload: an arbitrary partial function; the field rules of the CBOR deserializer are not part of this model.
- CborForms.DecodeExact: the values are those of section 2 of RFC 8949 except simple values without an assigned meaning, which are rejected as `Unsupported`; the pieces of a string of open length must have definite lengths, as section 3.2.3 demands. The CBOR library is not part of this model: its recursion limit of 256 is its default, and whether it tolerates more than this is not fixed by the repository.
- Cose.ParseCoseExact and Cose.FromBytes: tags 2 and 3 (big integers) are kept as tags and undefined as a value of its own, where the library may convert them to numbers and to null; floats keep the bits as written. None of these can be one of the three byte strings, so the conversions do not change what is parsed.
- Abi.DecodedIsTyped: how the ABI library treats encodings that its own encoder never produces (overlapping tails, unusual offsets, non-zero padding of byte strings) is not fixed by this repository; the model's decoder follows offsets, checks bounds and validates values.
- Journal.InputRoundTrip, JournalRoundTrip and BatchRoundTrip: stated for encodings shorter than 2^64 bytes, the largest a 64-bit program can hold, because offsets and lengths of longer ones would not be representable.
- Guest.HostGuestAgreement: the size conditions say that input and journal fit in memory.
- Chain lengths beyond 2^32 + 1: the path-length cast lets too long chains through there (`ChainProperties.PathLengthRangeExact`), so the path-length and cache theorems are stated up to that length.
- The journal's declaration describes `certs` as certificate hashes (verifier/src/types.rs:52); the code fills it with accumulated path digests (verifier/src/x509.rs:131-135), and the model follows the code.
- The on-chain verifier and its cache: only what the journals let it conclude is modelled (`CacheRuns`).
- Proving, key handling, files, environment, cancellation, printing and message text.
- `ZkCoProcessorType` and `ZkCoProcessorConfig`: declarations without behaviour in this crate.
