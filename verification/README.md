# A verified model of the pkcs7 package

The package reads and writes Cryptographic Message Syntax messages: it transcodes BER to DER, encrypts
content for RSA and ML-KEM recipients, and builds and verifies signed messages. This project models that
logic in Dafny and proves what the package is for. It follows the program's structure, one module per
component:

| module | models |
|---|---|
| `Bytes`, `Sequences`, `Lengths` | octets, big-endian numbers, exclusive or; lists; length octets as written and as accepted |
| `Grammar`, `BerParser`, `BerPrinter`, `Ber2Der`, `TranscoderLaws` | the accepted BER language, stated without the parser; `readObject`; `EncodeTo`; `ber2der`, its laws, and its input and output octet by octet |
| `ShiftRegisters`, `KeyWrap`, `KeyWrapLaws` | the shift registers of section 2.2 of RFC 3394, the in-place loops of `aesKeyWrap` and `aesKeyUnwrap`, and what the initial value and the step counters leave in the wrapped key |
| `Padding`, `Asn1`, `Chunks` | block padding, the elements that `encoding/asn1` writes and reads, joining chunked ciphertext |
| `SetOrder`, `Attributes` | sorting by encoding, the order of section 11.6 of X.690, and the octets that are signed |
| `Certificates`, `RecipientCoding`, `RecipientObjects`, `Recipients` | the entries for recipients as octets and as nested objects, making them, and finding one in a mixed list |
| `EnvelopeCoding`, `EnvelopeIssuers`, `Envelope` | enveloped messages as octets and `Parse`, the issuers that `Parse` can yield, `Encrypt` and `Decrypt` |
| `EncryptLaws`, `DecryptLaws`, `ForeignMessages`, `ObjectIdentifiers` | when `Encrypt` succeeds and what it writes; when `Decrypt` yields which content, for messages of any origin; messages of other programs octet by octet; the object identifiers from their arcs |
| `SigningAlgorithms`, `Signing`, `Verify`, `VerifyLaws`, `SigningRuns` | algorithm agreement, the `SignedData` builder, verification, what verification promises for messages of any origin, and whole runs of the builder |

Main results:

* The parser accepts exactly the grammar, returns the one reading the grammar gives, makes at most
  |input| / 2 + 1 calls on every input, and under a definite parent depends on nothing behind the
  parent's end (`BerParser.ReadObject`, `Grammar.Unambiguous`, `Ber2Der.Ber2Der`, `Ber2Der.ParentsEnd`). What it accepts
  and yields is also stated from octets to octets, by three rules without objects or encodings, both ways
  (`TranscoderLaws.TranscodesByTheRules`).
* Printing and parsing undo each other exactly for objects of height at most 500 with contents below 2^31
  octets. Transcoding is idempotent exactly there, maps two inputs to the same output exactly when they
  denote the same object, never makes an input of up to 65539 octets longer, 65539 being the last such
  bound, and adds at most a 64th below 2^31 octets (`Ber2Der.PrintedIsRead`, `Idempotent`, `SameOutput`,
  `NoAmplification`, `FirstExpansion`).
* The in-place key-wrap loops compute the shift-register description of RFC 3394; wrap and unwrap are
  inverse, and unwrap accepts exactly what wrap produces (`KeyWrap.AesKeyWrap`, `AesKeyUnwrap`,
  `UnwrapWrap`, `WrapUnwrap`). Under a cipher that leaves blocks as they are, the wrapped key is the initial value
  exclusive-ored with 6n or 6n + 1, and the plaintext, for every number n of words; under any cipher it is given by the
  6n blocks that the cipher yields (`KeyWrapLaws.WrappedByNoCipher`, `WrappedExactly`).
* `Parse` reads what `Encrypt` returned for a mixed list of recipients, and the owner of every listed certificate
  recovers the content from it with `Decrypt`, exactly when the contents of the message, counted from the length of
  the content and from the certificates, are below 2^31 octets and the raw issuer of every certificate is one element,
  nested at most 494 deep for an RSA recipient and 493 for a KEM recipient. A listed recipient with another issuer
  never recovers anything, whoever else is listed (`Envelope.EveryRecipientRecovers`, `BadIssuerRecoversNothing`).
* Whoever made an enveloped message, `Decrypt` yields a content exactly when the first entry that is not for another
  recipient yields a key that opens it, with the cipher and key length of each of the six algorithms
  (`DecryptLaws.DecryptedExactly`, `OpenedExactly`, `SixAlgorithms`). Triple-DES messages for RSA recipients, and messages
  for KEM recipients that are named by their subject key identifiers, are decrypted from their octets
  (`ForeignMessages.TripleDesRecovered`, `KemRecovered`).
* The octets that are signed do not depend on the order in which attributes were added, and determine the
  attributes (`Attributes.SignedOctetsTell`).
* Whoever made a signed message, a signer is accepted exactly when the first certificate of the message that it names
  checks its signature on the signed octets, the digest and the signing time in its attributes are right, and the trust
  store, if one is given, has a chain at the right time (`VerifyLaws.AcceptedIffVouched`, `VerifiedIsSigned`,
  `ForeignSignerAccepted`).
* After every run of allowed builder calls each signer is accepted exactly when its key is not a DSA key, its signing
  time lies inside the validity of its certificate, and the trust store, if one is given, has a chain; the parents given to
  AddSignerChain are in the message, so that VerifyWithChain finds the chain through them; later calls, but for the
  removal of the attributes that a signer signed, never make an accepted signer unacceptable; changed content and changed
  signatures are rejected (`SigningRuns.RunsVerify`, `ChainsVerify`, `LaterCallsKeepSigners`, `ChangedContentRejected`,
  `ChangedSignatureRejected`).

Primitives (AES, DES, GCM, RSA, ML-KEM, HKDF, signatures, hashes, the marshalling of times) are fields of
datatypes of functions, with a predicate `Permutes` or `Laws` that states what is assumed of them. Randomness
and the clock are arguments. Go errors are `Err` or `false`; their texts are not modelled.

## Limits that the theorems bring out

* `Parse` sends the whole message through `ber2der`, which reads lengths below 2^31 only. DES-CBC content of
  2^31 - 9 octets has a ciphertext of 2^31 - 8 octets, which would be readable, in a message that is not:
  `Envelope.TooLongContent`. `Envelope.EveryRecipientRecovers` has the exact condition.
* A certificate that was built by hand can have a raw issuer that is not one element, which no parsed certificate has.
  `Encrypt` accepts it, and its owner recovers nothing: `Envelope.BadIssuerRecoversNothing`. An empty issuer is written
  as an element of tag 0 and no length, and `Parse` reads that element: `Envelope.EmptyIssuersParsed`,
  `EmptyIssuerRecoversNothing`. An issuer in indefinite form is changed by the transcoder: `Ber2Der.UnchangedIfMinimal`.
* `AddSignerChain` and `SignWithoutAttr` record the digest algorithm, and the digest if there is a hash, even where
  they then fail. `Signing.FailedChainUnchanged` and `Signing.FailedPlainUnchanged` say exactly which failing calls
  leave the builder unchanged; `Signing.FailingCallRecords` and `FailingPlainCallRecords` show one each that does not.
* `pad` writes its count into one octet. `unpad` undoes it exactly when the count is at most 255, which is always so
  for the block sizes 8 and 16 that the package uses: `Padding.UnpadPad`.

## Model

| member | source | states |
|---|---|---|
| `Lengths.LengthLength` | ber.go:90-97 | the count of octets is the one n >= 1 with i < 256^n and n = 1 or 256^(n-1) <= i |
| `Lengths.OctetCountUnique` | ber.go:90-97 | only one count of octets fits a number exactly |
| `Lengths.MarshalLongLength` | ber.go:76-87 | appends the shortest big-endian form to the buffer |
| `Lengths.EncodeLength` | ber.go:113-131 | appends the minimal definite length octets |
| `Lengths.LengthOctetsAre` | ber.go:76-97 | the recursive form is the n low octets, and n fits exactly |
| `Lengths.EncodedLengthAccepted` | ber.go:113-213 | the octets written for a length are accepted, for that length, if and only if it is below 2^31 |
| `Lengths.DefiniteLengthUnique` | ber.go:183-213 | accepted length octets tell their own end and value |
| `Lengths.EncodedLengthShortest` | ber.go:113-213 | no accepted form of a length is shorter than the one written |
| `Lengths.LeadingOctet` | ber.go:188-198 | the leading octet is not zero, and the tests on it and on the count decide whether the length is below 2^31 |
| `Lengths.AcceptedFields` | ber.go:183-213 | the accepted length octets one by one, in numerals: the short form, 81 for 1 to 255, 82, 83 and 84 where they need one octet more or would start with the top bit set |
| `Lengths.WrittenFields` | ber.go:76-131 | the length octets that are written up to 2^31, in numerals |
| `Grammar.Unambiguous` | ber.go:133-270 | at one place stands one encoding only; no encoding is a proper prefix of another |
| `Grammar.HeaderUnique` | ber.go:141-220 | a tag and length octets found at a place are those of every encoding found there |
| `BerParser.ReadTag` | ber.go:141-164 | yields the end of well-formed identifier octets, or no such octets are followed by anything |
| `BerParser.ReadLength` | ber.go:173-218 | yields accepted length octets whose contents fit, or there are none |
| `BerParser.IsIndefiniteTermination` | ber.go:272-280 | tells whether the end-of-contents octets stand at the offset, or that fewer than two octets are left |
| `BerParser.ReadHeader` | ber.go:141-239 | header, and the buffer that a definite parent confines its contents to; on failure no encoding stands there at any depth |
| `BerParser.ReadObject` | ber.go:133-270 | succeeds if and only if a grammatical encoding, nested at most 500 deep, stands at the offset; returns what it denotes and its end; calls are at most half the octets consumed, or half of what is left and one |
| `BerParser.ReadContents` | ber.go:223-269 | primitive contents, the rejected indefinite primitive form, and constructed contents, with the same soundness, completeness and work bound |
| `BerParser.ReadParts` | ber.go:240-257 | the loop ends exactly at the parent's declared end or its end-of-contents octets, or where no further part can be read |
| `BerParser.Stuck` | ber.go:240-257 | where neither the end nor another part can be read, no encoding stands at the start |
| `BerPrinter.EncodeTo` | ber.go:23-57 | appends the minimal definite form; counts the octets that go through all buffers |
| `BerPrinter.EncodePrimitive` | ber.go:44-57 | appends tag, minimal length octets and contents of a primitive object |
| `BerPrinter.EncodeStructured` | ber.go:23-36 | the same through an inner buffer per level |
| `BerPrinter.WrittenBound` | ber.go:23-36 | at most height + 1 times the output goes through the buffers |
| `BerPrinter.CanonicalPrints` | ber.go:23-57 | what is printed is the flattening of one encoding, which denotes what was to be printed |
| `BerPrinter.CanonicalGrammatical` | ber.go:23-57 | that encoding is grammatical when no contents reach 2^31 octets |
| `Ber2Der.Ber2Der` | ber.go:59-73 | computes the transcoding that the grammar defines, with at most input / 2 + 1 parser calls and at most 501 copies of each output octet |
| `Ber2Der.NestedHeight` | ber.go:134-136 | the depth limit is a limit on the height of what is read, both ways |
| `Ber2Der.PrintedIsRead` | ber.go:23-73 | printing an object and transcoding it gives the same octets if and only if its height is at most 500 and its contents are below 2^31 octets; otherwise it is rejected |
| `Ber2Der.Idempotent` | ber.go:59-73 | transcoding an output again gives it back exactly when its contents are below 2^31 octets, and fails otherwise |
| `Ber2Der.UnchangedIfMinimal` | ber.go:59-73 | what is read is left as it is if and only if it is the minimal definite form of some object |
| `Ber2Der.EmptyIndefinite` | ber.go:206-207 | 30 80 00 00 is transcoded to 30 00 |
| `Ber2Der.SameOutput` | ber.go:59-73 | two inputs have the same output if and only if they denote the same object |
| `Ber2Der.EncodeInjective` | ber.go:23-57 | an object is determined by its printed form |
| `Ber2Der.PrintedUnique` | ber.go:23-57 | at one place one object only is printed, also where the printed form is too long to be read |
| `Ber2Der.Locality` | ber.go:133-270 | a stretch that holds an encoding holds it in every buffer that agrees on the stretch |
| `Ber2Der.ParentsEnd` | ber.go:234-239 | under a definite parent success, failure and result depend on nothing behind the declared end |
| `Ber2Der.TrailingIgnored` | ber.go:66-70 | octets after the first object do not change the output |
| `Ber2Der.ShorterRejected` | ber.go:133-270 | everything shorter than the first object is rejected |
| `Ber2Der.PrefixFree` | ber.go:133-270 | an encoding at the start of another one is that encoding |
| `Ber2Der.AtMostTwice` | ber.go:23-36 | below 2^31 octets the printed form is at most twice as long as any encoding of the object |
| `Ber2Der.NeverLonger` | ber.go:23-36 | up to 65539 octets it is no longer |
| `Ber2Der.SmallNeverLonger` | ber.go:23-36 | an object with contents below 65536 octets is no longer than any encoding of it |
| `Ber2Der.Growth` | ber.go:23-36 | each level of nesting adds at most two octets for every 65536 octets of output |
| `Ber2Der.AtMostA64th` | ber.go:23-36 | within the depth limit, an encoding below 2^31 octets grows by at most a 64th |
| `Ber2Der.NoAmplification` | ber.go:59-73 | no growth up to 65539 octets, and at most a 64th below 2^31, for every input that is transcoded |
| `Ber2Der.FirstExpansion` | ber.go:264-267 | an input of 65540 octets whose output has 65541 |
| `TranscoderLaws.IdentifierOctets` | ber.go:141-164 | one octet other than x1F, or such an octet, any number of octets from 128 and one below 128; bit 20 tells the constructed form |
| `TranscoderLaws.TranscodesByTheRules` | ber.go:59-270 | an input is transcoded to an output if and only if some prefix of it becomes that output by three rules on octets: primitive contents are kept under the shortest length, constructed contents in definite or indefinite form are the outputs of their parts in a row, at most 500 levels deep |
| `TranscoderLaws.RulesAreSound` | ber.go:133-270 | what the rules allow is an encoding that the grammar accepts |
| `TranscoderLaws.RulesAreComplete` | ber.go:133-270 | what the grammar accepts is allowed by the rules |
| `TranscoderLaws.LongTagUnchanged` | ber.go:147-164 | a primitive object with a tag of any number of octets in minimal form, below 2^31, is returned unchanged |
| `TranscoderLaws.LongTagJoins` | ber.go:147-270 | a constructed object with such a tag, in definite or indefinite form, is returned with its transcoded parts under the shortest length |
| `TranscoderLaws.TranscodedWhole` | ber.go:59-73 | a whole input that the rules allow is transcoded, and so is what starts with it |
| `KeyWrap.XorCounterTwice` | kem.go:353-376 | exclusive-oring a 64-bit word twice with the wrapping counter restores it |
| `KeyWrapLaws.XorCounterIs` | kem.go:353 | the number in the word is exclusive-ored with the counter, for every 64-bit counter |
| `KeyWrapLaws.XorAssociative` | kem.go:353 | exclusive or of numbers is associative |
| `KeyWrapLaws.FirstWord` | kem.go:347-355 | under a cipher that keeps the first half of every block, t steps leave the exclusive or of the counters 1 to t in the first word: t, 1, t + 1 or 0, as t leaves 0, 1, 2 or 3 by 4 |
| `ShiftRegisters.PassesShift` | kem.go:348-355 | after i steps of a round the array is the shift register turned by i places |
| `ShiftRegisters.RoundsShift` | kem.go:347-356 | after whole rounds the turn is zero and the array is the shift register after all steps |
| `ShiftRegisters.StepsAre` | kem.go:352 | the step counter at the start of round j is n * j |
| `ShiftRegisters.RoundsBackUnshift` | kem.go:373-382 | rounds taken back in place lead back to the registers they started from |
| `ShiftRegisters.UnshiftShiftRun` | kem.go:333-391 | undoing t shifts restores the registers |
| `ShiftRegisters.ShiftUnshiftRun` | kem.go:333-391 | redoing t undone shifts restores the registers |
| `KeyWrap.WrapStep` | kem.go:349-354 | the body of the wrapping loop takes the words from i - 1 passes of the round to i |
| `KeyWrap.WrapRound` | kem.go:348-355 | the inner wrapping loop is n passes |
| `KeyWrap.AesKeyWrap` | kem.go:333-359 | equals the shift-register description, for every input; the input array is unchanged |
| `KeyWrap.UnwrapStep` | kem.go:375-380 | the body of the unwrapping loop takes the words back from i passes of the round to i - 1 |
| `KeyWrap.UnwrapRound` | kem.go:374-381 | the inner unwrapping loop is n passes back |
| `KeyWrap.UnwrapRounds` | kem.go:373-388 | after the loops the first word tells whether the ciphertext is accepted, and the others are the plaintext |
| `KeyWrap.AesKeyUnwrap` | kem.go:361-391 | equals the shift-register description with the check of the initial value; the input array is unchanged |
| `KeyWrap.UnwrapWrap` | kem.go:333-391 | wrapping succeeds for keys of at least 16 octets, a multiple of 8, and is undone by unwrapping |
| `KeyWrap.WrapUnwrap` | kem.go:333-391 | unwrapping accepts exactly the image of wrapping, and wrapping again restores the ciphertext |
| `KeyWrapLaws.WrappedExactly` | kem.go:333-359 | wrapping succeeds if and only if the key has 16, 24 or 32 octets and the plaintext at least two whole words, and its result is that of 6n blocks, each yielded from the word A with the number of the step in it and the word left over one round before |
| `KeyWrapLaws.FirstWordOfWrapped` | kem.go:333-359 | under a cipher that keeps the first half of every block, the first word is A6...A6 exclusive-ored with 6n for even n and with 6n + 1 for odd n |
| `KeyWrapLaws.OtherWordsOfWrapped` | kem.go:333-359 | under a cipher that keeps the second half, the other words are those of the plaintext in their places |
| `KeyWrapLaws.WrappedByNoCipher` | kem.go:333-359 | under the cipher that changes nothing, the whole wrapped key, for every length |
| `Padding.PadData` | encrypt.go:403-413 | appends as many octets as complete a block, each holding their number modulo 256 |
| `Padding.PaddedIs` | encrypt.go:403-413 | the one result: up to a block of octets more, ending a block, all of them holding their number modulo 256 |
| `Padding.Unpad` | decrypt.go:172-194 | the branch-free scan accepts exactly proper padding and takes it off |
| `Padding.UnpadPad` | encrypt.go:403-413 | padding is taken off again if and only if its count is at most 255; always for block lengths up to 255 |
| `Padding.PadUnpad` | decrypt.go:172-194 | what unpad accepts is what pad would have made |
| `Asn1.ElementIsPrinted` | encrypt.go:314 | a marshalled primitive element is what the encoder of ber.go prints |
| `Asn1.ElementOfParts` | encrypt.go:314 | so is a constructed element whose parts are printed |
| `Asn1.ReadWritten` | pkcs7.go:236 | a written element is read, with its contents and what follows it, if and only if its tag number is in shortest form and below 2^31 and its contents are below 2^31 octets |
| `Asn1.WrittenRead` | pkcs7.go:236 | only elements in their shortest form and below 2^31 octets are read |
| `Asn1.UnmarshalMarshal` | decrypt.go:96-97 | a marshalled element is unmarshalled to its contents, whatever follows it |
| `Asn1.MarshalUnmarshal` | decrypt.go:96-97 | only marshalled elements are unmarshalled |
| `Asn1.PrintedIsRaw` | kem.go:162-169 | of the printed objects, exactly those with such a tag and such contents are read as raw values |
| `Asn1.UnmarshalAllPrinted` | pkcs7.go:259 | printed objects in a row are told apart again if and only if each of them can be read |
| `Asn1.IntegerRead` | sign.go:119-122 | every integer, of any size and sign, is read as it was written |
| `Asn1.ElementUnique` | pkcs7.go:352 | no marshalled element is a proper prefix of another one with its tag |
| `ObjectIdentifiers.OidUnique` | pkcs7.go:290-292 | comparing the contents octets of object identifiers is comparing their arcs |
| `ObjectIdentifiers.ContentOid` | pkcs7.go:91-96 | the six content algorithms have the octets of their arcs |
| `ObjectIdentifiers.EntryOid` | pkcs7.go:71-105 | so have the algorithms and the type in the entries |
| `ObjectIdentifiers.TypesAre` | pkcs7.go:45-51 | and the types of contents and attributes |
| `Chunks.JoinChunks` | decrypt.go:93-103 | the loop ends and yields the contents of the leading OCTET STRINGs |
| `Chunks.ChunksJoined` | decrypt.go:93-103 | however a ciphertext is cut, and whatever unreadable octets follow, joining rebuilds the concatenation |
| `Chunks.EveryContentIsCut` | decrypt.go:93-103 | every content is cut in such a way, so nothing else is ever joined |
| `SetOrder.Sort` | pkcs7.go:361 | sorting in place computes the sorting function |
| `SetOrder.Swap` | pkcs7.go:327-329 | exchanges two elements and nothing else |
| `SetOrder.LessTotal` | pkcs7.go:323-325 | of two different strings exactly one is less |
| `SetOrder.FirstDifference` | pkcs7.go:323-325 | where two octet strings first differ, the smaller octet decides |
| `SetOrder.SortingSorts` | pkcs7.go:361 | the sorted list is a permutation in ascending order |
| `SetOrder.AscendingUnique` | pkcs7.go:361 | where keys tell elements apart there is one ascending order only, whatever the algorithm |
| `SetOrder.SortingOfPermutation` | pkcs7.go:361 | the order before sorting does not matter |
| `SetOrder.SortingSettled` | sign.go:99-105 | sorting an ascending list changes nothing |
| `SetOrder.OrdersAgree` | pkcs7.go:323-325 | plain and zero-padded order agree on strings that are not proper prefixes of each other |
| `SetOrder.EncodingOrdersAgree` | pkcs7.go:323-325 | they agree on all grammatical encodings (section 11.6 of X.690) |
| `Attributes.AttributeList.Add` | pkcs7.go:307-310 | appends type and value, keeping insertion order |
| `Attributes.AttributeList.ForMarshalling` | pkcs7.go:339-363 | Err if a value cannot be marshalled, else the attributes sorted by their encodings |
| `Attributes.OrderedIs` | pkcs7.go:339-363 | the result is the one ascending permutation of the added attributes |
| `Attributes.AddOrderIrrelevant` | pkcs7.go:307-363 | the result is the same for every order of the Add calls |
| `Attributes.MarshalledUnique` | pkcs7.go:348-352 | an encoded attribute tells the attribute and where it ends |
| `Attributes.MarshalledIsPrinted` | pkcs7.go:347-352 | an attribute is printed as a SEQUENCE of its type and a SET of its one value |
| `Attributes.MarshalledOrdersAgree` | pkcs7.go:323-325 | attribute encodings are ordered alike by both orders, whatever octets their values hold |
| `Attributes.SignedAsStored` | sign.go:99-113 | re-sorting in marshalAttributes changes nothing, so signer and verifier process the same octets |
| `Attributes.SignedOctetsTell` | sign.go:99-113 | the signed octets are equal if and only if the attributes are, as multisets |
| `RecipientCoding.EntryRead` | kem.go:157-211 | an entry that the program makes is read as it was written, if its issuer is one element and its contents are below 2^31 octets |
| `RecipientCoding.EntryHasSize` | encrypt.go:28-33 | the contents octets of an entry, counted from its issuer, serial number, ciphertext and key |
| `RecipientObjects.EntryPrinted` | encrypt.go:380-401 | such an entry is the print of an object nested two levels deeper than its issuer for an RSA recipient and three for a KEM recipient |
| `RecipientObjects.NameLimitIs` | ber.go:12 | the depth limit on entries is the limit of 494 or 493 on their issuers |
| `RecipientObjects.EntryIssuers` | decrypt.go:196-217 | where any object was printed, an issuer that is read in an entry is one element, nested less deep than the object |
| `Recipients.MakeKemRecipientInfo` | kem.go:49-100 | succeeds exactly for AES-CBC, a wrappable key, an allowed key usage, a usable ML-KEM key and an entry below 2^31 octets, and then wraps the content key under the derived key |
| `Recipients.MakeRecipientInfo` | encrypt.go:380-401 | RSA recipients by key transport, all others by KEM, with the exact condition of success |
| `Recipients.InfoIsProper` | encrypt.go:380-401 | the entry made for a certificate holds its issuer and serial number, and its length is counted from the certificate and the length of the content key |
| `Recipients.SelectRecipientForCertificate` | decrypt.go:196-217 | the first key-transport entry for the certificate, unless a malformed one stands before it |
| `Recipients.DecryptKemRecipientKey` | kem.go:225-291 | the key in the first KEM entry for the certificate, unless an unusable one stands before it |
| `Recipients.DecryptKemInfo` | kem.go:258-288 | rejects every version, algorithm or length but the supported ones, else decapsulates, derives and unwraps |
| `Recipients.OwnInfoYields` | encrypt.go:380-401 | the entry made for a certificate gives its key holder the content key |
| `Recipients.OtherInfoPassed` | kem.go:231-257 | an entry made for another recipient of a mixed list is gone past |
| `Recipients.EveryRecipientFindsKey` | encrypt.go:295-306 | every listed recipient finds the content key, in every order of the entries |
| `Recipients.StrangerFindsNothing` | decrypt.go:196-217 | a private key finds nothing for a certificate that no entry of its kind names |
| `EnvelopeCoding.GcmParametersRead` | decrypt.go:128-146 | marshalled GCM parameters are read back as their nonce and tag length |
| `EnvelopeCoding.ContentInfoRead` | encrypt.go:35-39 | a marshalled encrypted content info is read back |
| `EnvelopeCoding.EnvelopeRead` | pkcs7.go:257-265 | a marshalled envelope whose issuers are elements is read back, with its entries in ascending order of their encodings |
| `EnvelopeCoding.MessagePrinted` | encrypt.go:308-325 | marshalling a message is printing one object, where its entries are printed objects |
| `EnvelopeCoding.MessageHasSize` | encrypt.go:308-325 | the contents octets of a message, counted from the lengths of its algorithm, ciphertext and entries |
| `EnvelopeCoding.MessageHeight` | ber.go:12 | a message stays within the depth limit if and only if its entries are nested at most 496 deep |
| `EnvelopeCoding.Parse` | pkcs7.go:227-265 | transcodes, and unmarshals the enveloped message that results |
| `EnvelopeCoding.MarshalledIsParsed` | pkcs7.go:227-265 | a marshalled message whose issuers are elements is parsed if and only if its contents are below 2^31 octets and its issuers are nested at most 494 or 493 deep; else it is rejected |
| `EnvelopeCoding.LongMessageRejected` | ber.go:188-198 | a message with contents of 2^31 octets or more is rejected, whatever its issuers are |
| `EnvelopeIssuers.EntriesTrace` | ber.go:133-270 | however the issuers read, the entries of a marshalled message are transcoded one by one, keep their tags, and those of KEM recipients still name an issuer |
| `EnvelopeIssuers.StrangeIssuerUnnamed` | pkcs7.go:290-292 | whatever message is parsed, no entry names a certificate by an issuer that is not one element within the depth limit |
| `EnvelopeIssuers.ListedUnnamed` | pkcs7.go:290-292 | nor does an entry that Encrypt made for that certificate |
| `Envelope.CiphertextHasLength` | encrypt.go:112-184 | the length of the ciphertext, from the content's length: padded for CBC, with a tag of 16 octets for GCM |
| `Envelope.EncryptDesCbc` | encrypt.go:150-192 | the content is held under the drawn key, padded and CBC-encrypted, as one OCTET STRING |
| `Envelope.EncryptAesCbc` | encrypt.go:194-249 | the same for AES-CBC, exactly for its two settings |
| `Envelope.EncryptAesGcm` | encrypt.go:80-148 | the same for AES-GCM with a nonce of 12 octets and a tag of 16 |
| `Envelope.MakeInfos` | encrypt.go:295-306 | one entry per recipient in order; version 3 if and only if one of them is a KEM recipient |
| `Envelope.Encrypt` | encrypt.go:264-326 | succeeds exactly for known settings and accepted recipients, and returns the marshalled message of an envelope that holds the content for all of them |
| `Envelope.DecryptContent` | decrypt.go:76-170 | every error case of the content, else the opened or unpadded plaintext |
| `Envelope.Decrypt` | decrypt.go:26-64 | the content for the key that the private key finds; KEM only with version 3 and AES-CBC |
| `Envelope.ContentRecovered` | decrypt.go:76-170 | decrypting an encrypted content info restores what was encrypted if and only if the ciphertext, counted from the content's length, is below 2^31 octets, the limit of the reader of its one OCTET STRING |
| `Envelope.CuttingIrrelevant` | decrypt.go:88-107 | cutting the ciphertext into OCTET STRINGs changes nothing of what decryption returns |
| `Envelope.AnyOrderRecovers` | decrypt.go:26-64 | given the envelope, every listed recipient recovers the content in every order of the entries, under the condition of ContentRecovered |
| `Envelope.WireSizeIs` | encrypt.go:295-325 | the contents octets of what Encrypt returned, counted from the content's length, the content key's length and the certificates |
| `Envelope.EncryptedIsParsed` | pkcs7.go:227-265 | for certificates whose issuers are elements, Parse reads back what Encrypt returned if and only if its contents, so counted, are below 2^31 octets and the issuers are nested at most 494 or 493 deep |
| `Envelope.GoodIssuersRecover` | decrypt.go:26-64 | with such issuers, every listed recipient recovers the content if and only if the contents are below 2^31 octets; else it gets an error |
| `Envelope.BadIssuerRecoversNothing` | decrypt.go:196-217 | a listed recipient whose issuer is not such an element recovers nothing, whatever the issuers of the others are |
| `Envelope.StrangeIssuerRecoversNothing` | decrypt.go:196-217 | nor does anybody with such an issuer recover anything from any message, without a subject key identifier |
| `Envelope.EveryRecipientRecovers` | decrypt.go:26-64 | for every content and every mixed list without two recipients of one kind and identity, what Encrypt returned is parsed and every listed recipient recovers the content from it, if and only if the contents are below 2^31 octets and every issuer is one element, nested at most 494 or 493 deep |
| `Envelope.EmptyIssuersParsed` | kem.go:157-171 | what Encrypt returned for certificates with empty issuers is still parsed, with an element of tag 0 in their place |
| `Envelope.EmptyIssuerRecoversNothing` | pkcs7.go:290-292 | the owner of such a certificate recovers nothing |
| `Envelope.TooLongContent` | pkcs7.go:232-235 | no message with 2^31 - 9 octets of DES-CBC content is read back, although its ciphertext is below 2^31 octets |
| `EncryptLaws.KeyOfCertificate` | kem.go:102-151 | which certificates hold which ML-KEM key, read the other way |
| `EncryptLaws.AcceptedExactly` | encrypt.go:264-306 | Encrypt succeeds if and only if the setting is 0 to 4, every RSA key encrypts the drawn key of 8, 16 or 32 octets, and every other recipient has a usable ML-KEM key, a fitting key usage and AES-CBC content |
| `EncryptLaws.ContentWritten` | encrypt.go:80-249 | the content info for each of the five settings, with cipher, key length, initialisation vector or nonce and parameters in numerals |
| `EncryptLaws.RsaEntryWritten` | encrypt.go:380-401 | the whole entry of an RSA recipient |
| `EncryptLaws.KemEntryWritten` | kem.go:49-100 | the whole entry of a KEM recipient |
| `EncryptLaws.EntriesWritten` | encrypt.go:295-315 | version 0 if and only if all recipients are RSA recipients, else 3; one entry each, in order |
| `EncryptLaws.MessageWritten` | encrypt.go:308-325 | the message octet by octet, with tags in numerals |
| `EncryptLaws.RsaEntryOctets` | encrypt.go:380-401 | the entry of an RSA recipient octet by octet |
| `EncryptLaws.KemEntryOctets` | kem.go:49-188 | the entry of a KEM recipient octet by octet |
| `DecryptLaws.OpenedExactly` | decrypt.go:76-170 | a ciphertext opens to a content if and only if the key has a length that the cipher of the algorithm takes and the parameters fit, and it is decrypted to the padded content, or its tag is right |
| `DecryptLaws.SixAlgorithms` | decrypt.go:109-170 | each of the six algorithms restores what its cipher encrypted, with cipher, key length and block in numerals |
| `DecryptLaws.OtherKeysRejected` | decrypt.go:109-125 | with a key of another length nothing is opened |
| `DecryptLaws.KemInfoYieldsKey` | kem.go:258-290 | a KEM entry yields a key if and only if version, algorithms, absent parameters and key length are the supported ones, and decapsulation, derivation and unwrapping lead to it |
| `DecryptLaws.KeyFoundExactly` | decrypt.go:26-64 | a key is found if and only if the first entry that is not for another yields it, all entries before it being in good order |
| `DecryptLaws.DecryptedExactly` | decrypt.go:26-64 | Decrypt yields a content if and only if that entry yields a key that opens it; by a KEM entry only from version 3 and AES-CBC |
| `DecryptLaws.IdMatches` | kem.go:304-327 | when a recipient identifier of either kind names a certificate, names another one, or is an error |
| `DecryptLaws.ForeignKemDecrypted` | kem.go:225-291 | entries that name a KEM recipient by its subject key identifier, or carry keying material, are decrypted |
| `DecryptLaws.WithoutCertificate` | decrypt.go:26-64 | without a certificate there is no content |
| `ForeignMessages.EnvelopedRead` | pkcs7.go:227-265 | a message with any entries and any content info is read as it was written |
| `ForeignMessages.OnlyEnveloped` | pkcs7.go:236-254 | nothing else is parsed as an enveloped message |
| `ForeignMessages.ContentWithRead` | encrypt.go:35-39 | content under a primitive or a constructed [0], with parameters of any tag |
| `ForeignMessages.KeyTransWithRead` | encrypt.go:28-33 | an entry with NULL or other parameters of its algorithm |
| `ForeignMessages.KemWithRead` | kem.go:21-36 | an entry with a recipient identifier of either kind, with or without keying material |
| `ForeignMessages.OtherEntriesPassed` | decrypt.go:196-217 | entries of other tags, and of the other kind, are gone past whatever they hold |
| `ForeignMessages.TripleDesRecovered` | decrypt.go:109-170 | from the octets of a message with Triple-DES content, an RSA recipient recovers the content |
| `ForeignMessages.KemRecovered` | kem.go:225-291 | from the octets of a message of another program, a KEM recipient recovers the content |
| `SigningAlgorithms.SignedIsChecked` | sign.go:412-435 | what a signer is given to sign, digest or message, passes the check with the key's algorithm |
| `SigningAlgorithms.AlgorithmsAgree` | sign.go:383-435 | the verifier derives the algorithm that was used and accepts the signature, for every key but a DSA key, for which it derives none |
| `SigningAlgorithms.AlgorithmDesignated` | verify.go:293-367 | the verifier derives an algorithm if and only if the signer designates it, in one of the ways listed for that algorithm |
| `SigningAlgorithms.HashNamed` | pkcs7.go:108-122 | which object identifiers stand for which hash, both ways |
| `SigningAlgorithms.SignerDesignates` | pkcs7.go:143-190 | what a signer writes for each key designates the key's algorithm |
| `Signing.CollectSigned` | sign.go:185-208 | the ordered attributes to be signed |
| `Signing.AddKept` | sign.go:195-204 | the loop with the flag takes over exactly the kept extra attributes |
| `Signing.CollectUnsigned` | sign.go:209-216 | the ordered unsigned attributes |
| `Signing.SigningTimeFiltered` | sign.go:185-204 | no signing-time where it is to be skipped, else exactly one, the first explicit one if any; the others are content-type, message-digest and every other extra attribute, in order |
| `Signing.SignedData.constructor` | sign.go:32-46 | the initial state: SHA-1, content attached, no signers |
| `Signing.SignedData.SetDigestAlgorithm` | sign.go:127-129 | sets the digest algorithm only |
| `Signing.SignedData.SetEncryptionAlgorithm` | sign.go:134-136 | sets the configured signature algorithm only |
| `Signing.SignedData.AddSigner` | sign.go:140-143 | AddSignerChain without parents |
| `Signing.SignedData.AddSignerChain` | sign.go:153-243 | the new state in every success and failure case |
| `Signing.SignedData.SignWithoutAttr` | sign.go:252-286 | the new state in every success and failure case; the signature is on the data alone |
| `Signing.SignedData.Note` | sign.go:175-184 | records the digest algorithm, and the digest if there is a hash for it |
| `Signing.ChainIsLinked` | sign.go:358-371 | a chain is verified if and only if each certificate is issued by the next one |
| `Signing.SignerAdded` | sign.go:217-243 | a successful call had a linked chain, and appends one signer and, unless they are to be skipped, the certificate and all parents |
| `Signing.SigningSucceeds` | sign.go:153-243 | the call succeeds if and only if the key is usable, the chain is linked, the attributes can be marshalled and the signer signs them |
| `Signing.SignatureIsOnAttributes` | sign.go:205-236 | the stored signature is the key's signature on the octets of the stored attributes |
| `Signing.PlainSigningSucceeds` | sign.go:252-286 | SignWithoutAttr succeeds if and only if the key is usable and signs the data, and appends certificate and signer |
| `Signing.BrokenChainRejected` | sign.go:153-174 | a chain with a missing link is rejected before anything is recorded |
| `Signing.FailedChainUnchanged` | sign.go:153-243 | a failing AddSignerChain leaves the builder unchanged if and only if it fails for want of an algorithm or of a chain |
| `Signing.FailedPlainUnchanged` | sign.go:252-286 | a failing SignWithoutAttr leaves the builder unchanged if and only if it fails for want of an algorithm |
| `Signing.FailingCallRecords` | sign.go:175-208 | a failing call with an extra attribute that cannot be marshalled records the algorithm and the digest |
| `Signing.FailingPlainCallRecords` | sign.go:252-286 | a failing SignWithoutAttr with a digest algorithm for which there is no hash records the algorithm |
| `Signing.SignedData.AddCertificate` | sign.go:304-306 | appends the certificate |
| `Signing.SignedData.SetContentType` | sign.go:310-312 | sets the content type only |
| `Signing.SignedData.Detach` | sign.go:316-318 | drops the content and resets its type |
| `Signing.SignedData.RemoveAuthenticatedAttributes` | sign.go:341-345 | empties the signed attributes of every signer and keeps all else |
| `Signing.SignedData.RemoveUnauthenticatedAttributes` | sign.go:348-352 | empties the unsigned attributes of every signer and keeps all else |
| `Verify.GetCertByIssuerAndSerial` | verify.go:442-449 | the first certificate with the issuer and serial number |
| `Verify.FindValue` | verify.go:451-459 | the value of the first attribute of the type |
| `Verify.VerifySignature` | verify.go:161-215 | accepts exactly when digest, signing time, chain and signature hold, the chain at the signing time or now |
| `Verify.VerifySignatureAtTime` | verify.go:104-159 | the same with the chain at the given time |
| `Verify.VerifyWithOpts` | verify.go:74-102 | succeeds if and only if there are signers and all are accepted |
| `Verify.VerifyWithChain` | verify.go:27-39 | verifies with the message's own certificates as those in between |
| `VerifyLaws.FoundCertIs` | verify.go:442-449 | the certificate that is found is the first one in the message with the issuer and serial number |
| `VerifyLaws.AcceptedIffVouched` | verify.go:104-215 | for messages of any origin, a signer is accepted if and only if the first certificate that it names checks its signature on the signed octets with a designated algorithm, its digest and signing time are right, and the trust store has a chain at the set time, else the signing time, else now |
| `VerifyLaws.VerifiedIsSigned` | verify.go:74-102 | in a verified message every signer's signature was checked with the key of a certificate of the message with its issuer and serial number, and that certificate has a chain |
| `VerifyLaws.ForeignSignerAccepted` | verify.go:161-215 | a signature that anybody made with the certificate's key is accepted, in every designation of its algorithm, with signed attributes or without |
| `SigningRuns.LaterCallsKeepSigners` | sign.go:127-352 | no later calls, allowed or not, make an accepted signer unacceptable, unless RemoveAuthenticatedAttributes removes attributes that it signed; without a trust store or with one that finds no fewer chains when more certificates are in between |
| `SigningRuns.VerifyWithChainKeepsSigners` | verify.go:27-39 | the same where the certificates in between are those of the growing message |
| `SigningRuns.ContentUntilDetached` | sign.go:316-318 | after any calls the content is attached unless Detach was among them |
| `SigningRuns.StoredDigestAndTime` | verify.go:170-201 | the verifier finds in the stored attributes the digest and the signing time that were signed |
| `SigningRuns.VerifiableWhen` | sign.go:185-204 | the time that must lie inside the certificate's validity: that of the call, the first explicit one in its place, or none where it is to be skipped |
| `SigningRuns.NewSignerAccepted` | sign.go:153-243 | the signer that AddSignerChain makes is accepted with its certificate if and only if the key is not a DSA key, a readable signing time lies inside the certificate's validity, and the trust store, if one is given, has a chain at the time of verification |
| `SigningRuns.ChangedContentRejected` | verify.go:168-187 | such a signer is rejected for every content with another digest, whatever the certificate and options |
| `SigningRuns.ChangedSignatureRejected` | verify.go:156-215 | a message of a run in which a signer has another signature is not verified, under any options, unless that signature passes the check, too |
| `SigningRuns.IncludedAreIdentified` | verify.go:442-449 | signers find their certificates when none is left out and no two share issuer and serial number |
| `SigningRuns.RunsVerify` | sign.go:124-352 | after every sequence of allowed calls each signer is accepted, with or without a trust store, if and only if its call makes it acceptable, and the finished message with its signers in any order is verified if and only if it has signers and all are |
| `SigningRuns.StepIncludes` | sign.go:235-239 | a call that adds a signer appends its certificate and all parents |
| `SigningRuns.Included` | sign.go:235-306 | they are in the message after any later calls |
| `SigningRuns.ChainAccepted` | verify.go:27-39 | VerifyWithChain accepts a verifiable signer of a run if the trust store has a chain through the parents given to its call |
| `SigningRuns.ChainsVerify` | verify.go:27-39 | and verifies the message if that is so of all signers |

## Left out

- BerPrinter.EncodePrimitive: the separate `length` field of a primitive object is always the length of its content in `readObject`, so it is not modelled; writes to a byte buffer never fail.
- BerParser.ReadTag: the tag number computed at ber.go:149-159 is never used and is not modelled.
- BerParser.ReadObject: the body is divided into ReadTag, ReadLength, ReadHeader, ReadContents and ReadParts; Go's sharing of the input's memory by tags and contents is not modelled, since nothing writes to it.
- KeyWrap.WrapRound: `n*j` is passed as the recursive sum `Steps(n, j)`, which `StepsAre` shows to be the product.
- SetOrder.Sort: an insertion sort, as `sort.Sort` is up to twelve elements; for longer lists Go uses another algorithm, and `AscendingUnique` shows that it ends with the same list.
- Attributes.AttributeList.ForMarshalling: types are given by their contents octets and values by what marshalling makes of them; which Go values can be marshalled is not modelled.
- Attributes.SignedOctetsTell: octet strings below 2^63, the length of a Go slice.
- Ber2Der.PrintedIsRead: printed forms below 2^63 octets, the length of a Go slice; the same holds for SameOutput and EncodeInjective.
- Envelope.EveryRecipientRecovers: messages below 2^63 octets, the length of a Go slice. Which of the others still recover beside a recipient with a bad issuer depends on what that issuer's octets look like and on the order of the entries; this is not stated.
- Envelope.StrangeIssuerRecoversNothing: a KEM recipient can also be named by its subject key identifier, in messages that the package does not write; those are decrypted (`ForeignMessages.KemRecovered`).
- EnvelopeCoding.Parse: enveloped messages only; object identifiers are compared by their octets and not checked beyond that.
- Recipients.InfoIsProper: that ciphertexts have the size of the RSA modulus, or the sizes of section 8 of FIPS 203, is assumed of the primitives.
- Envelope.Encrypt: reading random octets never fails; keys, initialisation vectors and nonces are prefixes of given octets; the global setting is an argument.
- SigningRuns.LaterCallsKeepSigners: that more certificates in between hide no chain is assumed of the trust store; the limit of crypto/x509 on signature checks in one chain search is not modelled.
- SigningRuns.RunsVerify: excludes `SetEncryptionAlgorithm` and `RemoveAuthenticatedAttributes`, which leave the set of messages that verify by design; `Finish` and parsing are taken to be inverse, up to the order of the SET of signers, which they are exactly for messages in minimal definite form (`Ber2Der.UnchangedIfMinimal`). An extra signed attribute whose value is marshalled to 30 80 00 00 is signed in that form and read back as 30 00, so its signer is rejected.
- SigningAlgorithms.AlgorithmDesignated: signatures with RSASSA-PSS are passed to a function argument, as below.
- ForeignMessages.KemWithRead: entries with the one key derivation, key wrap and key length that the package supports; others are rejected (`DecryptLaws.KemInfoYieldsKey`).
- Verify.VerifySignature: building certificate chains is a function argument; the parameter profile of RSASSA-PSS (verify.go:387-430) is another.
- `EncryptUsingPSK` and `DecryptUsingPSK`, which use the same content encryption without recipients.
- `parseSignedData` and `parseEncryptedData`, `DegenerateCertificate`, `GetOnlySigner`, `UnmarshalSignedAttribute`, `SetUnauthenticatedAttributes` and the accessors.
- `GetDigestOIDForSignatureAlgorithm` and the numeric object identifiers of digest and signature algorithms, which are finite lists.
- The internals of `encoding/asn1` and `crypto/x509`, error texts, clearing of keys, timing and debug output.
