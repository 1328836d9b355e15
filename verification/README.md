# Verified model of the SSI SDK crypto extensions

This project models six self-contained cores of the SDK and proves what they promise: the JSON
canonicalisation and JWK codec, X.509 chain validation, the REST client's type-directed serializer,
the key encodings, JWS and JWE assembly, and the key manager. `dafny verify dfyconfig.toml` checks
everything.

## The modules

| modules | what they model |
|---|---|
| `Utf16`, `Json`, `JsonSyntax`, `JsonRoundTrip`, `JsonShortest`, `JsonRevive` | JavaScript strings as UTF-16 code units, JSON values, `JSON.stringify` with its escapes, the grammar of `JSON.parse` and its numbers, the parser/printer round trip, the printed text among all texts of a value, and the objects that parsing builds |
| `Jcs`, `JcsText`, `JcsWriter` | the canonical text as a function; what it identifies, for every value; the serializer as it runs, appending to one shared buffer |
| `JwkJcs`, `Thumbprint` | JWK validation, the minimal JWK, its canonical byte encoding and decoding; JWK sanitising and the text a thumbprint hashes |
| `Base64`, `Pem`, `PemChain` | base 16, base 64 and base64url down to the bits; PEM armour with its regular expressions written out as scanners; x5c lists to PEM chains and back |
| `PointCompression`, `Asn1` | compressed elliptic curve points over any odd prime; raw keys out of DER structures |
| `X509Chain`, `X509Verdict`, `X509Anchors` | the validation loop with its exits and its one self-call, over abstract parsing, signature checks and equality; the meaning of its verdict, down to the texts the caller supplied |
| `TypeStrings`, `ObjectSerializer`, `TypedSerializer`, `SerializerRoundTrip`, `ClientModels` | dispatch on printed types, the recursive serializer and deserializer, their agreement with recursion on types, and their round trip |
| `Jws`, `JwsSigners`, `JwsVerify` | preparation with its updates of header and payload in place, any number of signers, the three serializations, and concurrent verification as a state machine |
| `Jwe`, `JweDecrypt` | multi-recipient encryption and decryption, with headers rewritten in place |
| `KeyManager` | the key manager class over a store, and all runs of its operations |

Code that changes state in steps is a method or a class whose `ensures` ties the new state to a
function; the lemmas are about those functions. Thrown exceptions and rejected promises are `None`,
`Err` or an outcome of their own.

## Where the code departs from its intent or documentation

The model follows the code. Each of these is proved.

- A JSON object with a `toJSON` member other than null is printed with its properties in their own
  order (array indices first, then as inserted), and so is everything inside it, so its text is not
  canonical (`CanonicalTextDecides` says exactly which values share a text, `ToJsonBreaksOrder` gives
  two that should and do not). RFC 8785 knows no such exception.
- `trustRootWhenNoAnchors` is documented to trust the chain's root. The list has been reversed by the
  time its last element is taken, so the leaf of the deciding walk becomes the anchor, whoever its
  root is (`TrustRootTrustsLeaf`).
- A blindly trusted anchor that does not parse is meant to be skipped. The guard does not see the
  asynchronous failure, so the whole validation is rejected (`RejectedIffUnparsable`).
- Neighbouring x5c entries that both spell `CERTIFICATE` are taken for PEM and run together
  (`ChainRoundTrip`, `RawNeighboursMerge`).
- A Secp256r1 key extracted as Secp256k1 comes back behind three bytes of bit-string header
  (`WrongKeyTypeKeepsHeader`); the key itself comes back exactly for its own type
  (`ExtractsIffOwnType`).
- An object is deserialized as the class it was serialized as exactly if what it holds for the
  attribute sent under the discriminator's name picks the class that its property of that name picks
  (`ClassSurvivesIff`); without such an attribute it comes back as an empty base class
  (`LostTagLosesClass`). Every model that the client ships has no discriminator, so this needs a
  type map of one's own.
- The serializer's calendar-date format writes the local day, and a day is read as midnight UTC. Such
  a date comes back exactly if it is midnight UTC where local time is not behind UTC; behind UTC that
  midnight comes back a day early, and local midnight is moved by the offset (`CalendarDate`,
  `DeserializeSerialize`).
- Earlier signatures over an object payload become invalid when a later signer fills in `iss`, and
  only then (`SignedByAllVerifies`).
- The messages of `verifyJws` name the number of signatures (`MessagesNameTheCount`), so they name the
  invalid signatures if and only if none is invalid but the last (`InvalidNamedIff`).
- Decryption refuses recipients without an encrypted key even in direct mode, where RFC 7516 leaves
  it empty (`DirectRoundTrip`), and refuses an empty ciphertext, iv or tag (`RoundTrip`).
- A JWE whose first encrypter returns no content key is overwritten by the next one
  (`RoundsForget`).
- Expiration handling compares the milliseconds part of a date with the current time, so every key
  with an expiration is removed, even a future one (`EveryExpirationCounts`,
  `EphemeralKeysGoNext`).

## Model

| member | source | states |
|---|---|---|
| JsonRoundTrip.ReadTextStringify | packages/key-utils/src/jwk-jcs.ts:120-124 | parsing a printed value gives the value back: unique readability through escapes, nesting and numbers |
| JsonRoundTrip.StringifyInjective | packages/key-utils/src/jwk-jcs.ts:136-140 | two values that print alike are equal, at every depth |
| JsonRoundTrip.OnlySpaceFollows | packages/key-utils/src/jwk-jcs.ts:120-124 | behind a whole printed value parsing takes white space and nothing else |
| JsonRoundTrip.StringifyWellFormed | packages/key-utils/src/jwk-jcs.ts:108-112 | printed text has no lone surrogates, so a UTF-8 encoder keeps all of it |
| JsonShortest.StringifyIsShortest | packages/key-utils/src/jwk-jcs.ts:136-140 | of all well-formed texts that parse to a value, at every depth, none is shorter than the printed one, and it is the only one of its length with lower-case escapes |
| JsonSyntax.NumberIff | packages/key-utils/src/jwk-jcs.ts:120-124 | the numbers that parsing reads are those of RFC 8259: sign, integer, fraction and exponent |
| JsonSyntax.UnitIff | packages/key-utils/src/jwk-jcs.ts:120-124 | a character of a string is any unit but controls, quote and backslash, one of eight escapes, or four hexadecimal digits |
| JsonSyntax.SpaceInFront | packages/key-utils/src/jwk-jcs.ts:120-124 | four kinds of white space in front of a text change nothing, and no other unit may stand there unless a value starts with it |
| JsonRevive.ObjectIsBuilt | packages/key-utils/src/jwk-jcs.ts:120-124 | a parsed object holds each name once with its last value, array indices first in ascending order, the others where they first occurred |
| JsonRevive.NumbersAreRead | packages/key-utils/src/jwk-jcs.ts:120-124 | a number prints as its formatted text after parsing, or as null if it overflows |
| JsonRevive.OthersAreKept | packages/key-utils/src/jwk-jcs.ts:120-124 | printed keywords and strings parse to themselves, and an array item by item |
| JsonRevive.IndexIff | packages/key-utils/src/jwk-jcs.ts:120-124 | a name is an array index exactly if it is the decimal text of a number below 2^32 - 1 |
| Utf16.LessIffDiffers | packages/key-utils/src/jwk-jcs.ts:164-166 | one name sorts before another exactly when it has the smaller code unit where they first differ, or is a proper prefix |
| Utf16.WellFormedIff | packages/key-utils/src/jwk-jcs.ts:108-112 | a text has no lone surrogate exactly if it is the UTF-16 form of code points |
| JcsText.CanonicalTextDecides | packages/key-utils/src/jwk-jcs.ts:130-184 | for all values, canonical texts are equal exactly when the values are equal up to property order at every depth, where an object with a `toJSON` member and everything inside it keeps its order |
| JcsText.CanonicalIsShortest | packages/key-utils/src/jwk-jcs.ts:130-184 | the canonical text is the shortest text of the canonical form, and the only one so short with lower-case escapes: no white space, no needless escape |
| JcsText.OrderIsIgnored | packages/key-utils/src/jwk-jcs.ts:164-180 | one text means one value up to property order, always; without `toJSON` members the converse holds too |
| JcsText.ToJsonBreaksOrder | packages/key-utils/src/jwk-jcs.ts:136-140 | two orders of the same two properties, one of them `toJSON` and the other no array index, whose texts differ, at top level and inside an array |
| Jcs.SortSorts | packages/key-utils/src/jwk-jcs.ts:164-166 | sorting by code units orders the properties strictly, keeping exactly the properties there were |
| JcsWriter.Serializer.Serialize | packages/key-utils/src/jwk-jcs.ts:135-183 | a nested call appends exactly the canonical text of its argument to the shared buffer |
| JcsWriter.Serializer.SerializeItems | packages/key-utils/src/jwk-jcs.ts:141-157 | the array loop with its `next` flag appends the canonical text of the array |
| JcsWriter.Serializer.SerializeMembers | packages/key-utils/src/jwk-jcs.ts:158-182 | the loop over sorted property names appends the canonical text of the object |
| JcsWriter.JcsCanonicalize | packages/key-utils/src/jwk-jcs.ts:130-133 | the returned text is the canonical text |
| JwkJcs.ValidIff | packages/key-utils/src/jwk-jcs.ts:44-76 | a JWK is accepted exactly if its key type is EC, OKP or RSA and the members required for it are non-empty texts, a falsy curve passing where it is optional |
| JwkJcs.InvalidNamesFirst | packages/key-utils/src/jwk-jcs.ts:44-76 | the error is for no object, for the first required member that fails in the order of the checks, or for the key type |
| JwkJcs.AgreeingMinimal | packages/key-utils/src/jwk-jcs.ts:44-96 | JWKs that agree on the required members of their key type are equally valid and have one minimal form |
| JwkJcs.MinimalIsFlat | packages/key-utils/src/jwk-jcs.ts:84-96 | the minimal JWK holds strings only, under distinct names already in canonical order |
| JwkJcs.MinimalKeeps | packages/key-utils/src/jwk-jcs.ts:84-96 | every member of the minimal JWK has the JWK's own value |
| JwkJcs.MinimalIdempotent | packages/key-utils/src/jwk-jcs.ts:44-96 | the minimal form of a valid JWK is valid and minimal itself |
| JwkJcs.DecodeEncode | packages/key-utils/src/jwk-jcs.ts:108-127 | decoding an encoded valid JWK gives its minimal form |
| JwkJcs.DecodeAccepts | packages/key-utils/src/jwk-jcs.ts:120-127 | decoding accepts exactly the texts that parse to a valid JWK equal to its own minimal form, with any white space |
| JwkJcs.DecodeRefuses | packages/key-utils/src/jwk-jcs.ts:120-127 | decoding refuses for no JSON, for the check that fails, or for a valid JWK that is not its own minimal form, each exactly then |
| JwkJcs.DecodedIsFixedPoint | packages/key-utils/src/jwk-jcs.ts:108-127 | a decoded JWK is in sorted order and is a fixed point of decoding after encoding |
| JwkJcs.EncodingIdentifies | packages/key-utils/src/jwk-jcs.ts:108-112 | two valid JWKs share an encoding exactly when their minimal forms are equal |
| Thumbprint.HashesCanonicalMinimal | packages/key-utils/src/functions.ts:182-215 | for EC, OKP and RSA a thumbprint exists exactly when the sanitised JWK is valid, and hashes the canonical text of its minimal form |
| Thumbprint.ThumbprintIsWritten | packages/key-utils/src/functions.ts:182-210 | the hashed text member by member, names and order written out, for EC, OKP, RSA and oct |
| Thumbprint.ThumbprintFails | packages/key-utils/src/functions.ts:182-210 | the error is for the key type exactly if it is none of the four, else for the first claim that is no non-empty text |
| Thumbprint.OctHashesCanonical | packages/key-utils/src/functions.ts:203-206 | a symmetric key has a thumbprint exactly when its key value is a non-empty text, and it hashes the canonical text of value and key type |
| Thumbprint.ThumbprintDependsOn | packages/key-utils/src/functions.ts:182-215 | only key type, curve and required members matter, and only up to sanitising |
| Thumbprint.RespelledThumbprint | packages/key-utils/src/functions.ts:732-750 | JWKs whose coded members spell the same bytes, in either base 64 alphabet with any padding, or are equal, have one thumbprint or fail alike |
| Thumbprint.SpellingsCollapse | packages/key-utils/src/functions.ts:748-750 | `base64ToBase64Url` turns every spelling of some bytes into their unpadded base64url |
| Thumbprint.SanitizedIdempotent | packages/key-utils/src/functions.ts:732-746 | sanitising a sanitised JWK changes nothing |
| Thumbprint.SanitizedIs | packages/key-utils/src/functions.ts:732-746 | sanitising writes exactly the members x, y, d, n, e and k as base64url and fails exactly if one of them holds a truthy value that is no text |
| Thumbprint.RemovesExactlyNulls | packages/key-utils/src/functions.ts:704-710 | no property is null at any depth afterwards, arrays keep their places, and every other property stays |
| Thumbprint.RemoveNullsIdempotent | packages/key-utils/src/functions.ts:704-710 | removing nulls twice is removing them once, at every depth |
| Base64.DecodeEncode | packages/x509-utils/src/x509/x509-utils.ts:141-152 | decoding inverts encoding in either alphabet with any padding, bit by bit |
| Base64.EncodeDecodeHex | packages/x509-utils/src/x509/x509-utils.ts:146-152 | even-length lower-case hexadecimal decodes and encodes back to itself |
| Base64.DecodeIff | packages/x509-utils/src/x509/x509-utils.ts:141-144 | decoding accepts exactly the encodings of byte strings with any padding behind them |
| Base64.DecodeHexIff | packages/x509-utils/src/x509/x509-utils.ts:146-152 | decoding accepts exactly an even number of lower-case hexadecimal digits |
| Pem.ChunkSizes | packages/x509-utils/src/x509/x509-utils.ts:173-184 | a text is cut into the fewest lines of at most 64 characters, all full but the last |
| Pem.ChunksAre | packages/x509-utils/src/x509/x509-utils.ts:173-184 | any text is cut into pieces of one to 64 characters that keep all its characters but the line breaks, in order |
| Pem.DerToPemIs | packages/x509-utils/src/x509/x509-utils.ts:173-184 | a text that contains the header name is returned as it is, one of line breaks only is an error, any other is armoured |
| Pem.PemToHexFails | packages/x509-utils/src/x509/x509-utils.ts:111-124 | reading fails for a missing marker exactly if there is no `-----BEGIN `, and otherwise only for its encoding |
| Pem.KeepChunks | packages/x509-utils/src/x509/x509-utils.ts:173-184 | dropping the line breaks restores the chunked text |
| Pem.StripArmour | packages/x509-utils/src/x509/x509-utils.ts:111-124 | stripping a header and footer leaves exactly the body, with the header named or not |
| Pem.MarkEndIff | packages/x509-utils/src/x509/x509-utils.ts:116-122 | a marker line is the word, the given name or else a non-empty one without dashes, and five dashes |
| Pem.PemLines | packages/x509-utils/src/x509/x509-utils.ts:154-184 | the text of a public key, of a private key that reads back as RSA and of any other private key is framed by the marker lines of its own name |
| Pem.EvenHexKeepsNumber | packages/x509-utils/src/x509/x509-utils.ts:146-152 | an odd number of hexadecimal digits is made even without changing the number they write |
| Pem.PemRoundTrip | packages/x509-utils/src/x509/x509-utils.ts:111-167 | `PEMToHex` after `hexToPEM` returns the digits, made even, for public keys and either private header |
| PemChain.X5cToPemCertChain | packages/x509-utils/src/x509/x509-utils.ts:35-45 | the loop concatenates the PEM texts of the entries within the depth, or stops at the first error |
| PemChain.ChainComesBackMerged | packages/x509-utils/src/x509/x509-utils.ts:10-45 | reading a written chain returns its entries with raw neighbours merged and nothing else changed, up to the depth |
| PemChain.EntriesAreClean | packages/x509-utils/src/x509/x509-utils.ts:10-33 | whatever the text, no entry that is read is empty or holds a line break or a comma |
| PemChain.BareDashesStay | packages/x509-utils/src/x509/x509-utils.ts:21-24 | five dashes that end their line are no marker |
| PemChain.ChainRoundTrip | packages/x509-utils/src/x509/x509-utils.ts:10-45 | the round trip returns the first entries within the depth exactly when no two neighbours both contain `CERTIFICATE` |
| PemChain.RawNeighboursMerge | packages/x509-utils/src/x509/x509-utils.ts:173-178 | two valid entries whose round trip yields one |
| PointCompression.SquareRoots | packages/key-utils/src/functions.ts:616-621 | modulo a prime, two roots of one square are equal or add up to the prime |
| PointCompression.CompressionLosesNothing | packages/key-utils/src/functions.ts:608-631 | points of one curve over an odd prime that compress to one text are one point |
| PointCompression.CompressIdempotent | packages/key-utils/src/functions.ts:608-631 | compressing the output again changes nothing |
| PointCompression.PrefixIsParity | packages/key-utils/src/functions.ts:616-621 | an uncompressed point becomes its x behind 2 plus the parity of its y |
| PointCompression.OthersAreKept | packages/key-utils/src/functions.ts:608-631 | every other key is returned as it is, or refused for an unknown key type unless already compressed |
| PointCompression.DecompressionFindsPoint | packages/key-utils/src/functions.ts:608-631 | over an odd prime, the y of the point is the only ordinate of the output's x whose parity is the output's first byte minus 2 |
| Asn1.CompareUint8Arrays | packages/key-utils/src/functions.ts:537-547 | true exactly for equal byte strings |
| Asn1.FindSubarray | packages/key-utils/src/functions.ts:549-556 | the least match, or -1 exactly when there is none |
| Asn1.IdentifiersAreEncoded | packages/key-utils/src/functions.ts:531-535 | the identifiers are the DER encodings of their arcs |
| Asn1.AlgorithmIs | packages/key-utils/src/functions.ts:531-535 | the structures searched hold the encoded algorithm identifier of their key type, with the curve behind it |
| Asn1.Asn1DerToRawPublicKey | packages/key-utils/src/functions.ts:571-606 | the error for each malformed input, else what lies behind the first bit-string tag after the first match of the identifier, which exists and is whatever fits its description |
| Asn1.ExtractsIffOwnType | packages/key-utils/src/functions.ts:525-606 | for every pair of key types, extraction from a SubjectPublicKeyInfo returns its key exactly when asked for with its own type |
| Asn1.WrongKeyTypeKeepsHeader | packages/key-utils/src/functions.ts:531-606 | a Secp256r1 structure read as Secp256k1 returns the key behind its bit-string header |
| X509Chain.ValidateChain | packages/x509-utils/src/x509/x509-validator.ts:97-123 | the wrapper's outcome is that of the reversed list |
| X509Chain.ValidateChainImpl | packages/x509-utils/src/x509/x509-validator.ts:124-180 | parsing, anchors, the walk and at most one self-call give the specified outcome |
| X509Chain.WalkChain | packages/x509-utils/src/x509/x509-validator.ts:181-293 | the loop with its exits ends as the recursive description of a walk does, retrying where that is retryable |
| X509Verdict.WalkMeans | packages/x509-utils/src/x509/x509-validator.ts:181-293 | a walk accepts, and may be retried, exactly under the declarative conditions on its positions |
| X509Verdict.OneOfTwoWalks | packages/x509-utils/src/x509/x509-validator.ts:116-237 | every outcome is that of the root-first walk or of the one opposite walk, so at most one reversal happens |
| X509Anchors.VerdictCharacterised | packages/x509-utils/src/x509/x509-validator.ts:97-293 | no error exactly when everything supplied parses and the certificates are accepted root first, or else in the opposite order where that is tried; stated on the supplied texts, with links, signatures, blind and trust anchors position by position |
| X509Verdict.AcceptedIsVerified | packages/x509-utils/src/x509/x509-validator.ts:181-237 | without blind anchors, acceptance means some orientation is linked and verified at every position |
| X509Verdict.ResultKeepsCallerOrder | packages/x509-utils/src/x509/x509-validator.ts:158-160 | every result lists the parsed input in the caller's order, whichever walk decided |
| X509Anchors.ReportedAnchorFits | packages/x509-utils/src/x509/x509-validator.ts:184-292 | which anchor is reported: none after an error, after a blind hit the first supplied blind anchor equal to the first such certificate, else the first supplied anchor of the first certificate that has one, in the order that decided |
| X509Anchors.OnlySuppliedAnchors | packages/x509-utils/src/x509/x509-validator.ts:146-162 | an anchor that is not blind is one the caller supplied, and without any none is reported unless the root is asked for |
| X509Anchors.AcceptanceNeedsAnchor | packages/x509-utils/src/x509/x509-validator.ts:252-281 | without blind anchors or leave to do without, acceptance takes a certificate of the chain that is the same as a supplied anchor |
| X509Verdict.MoreAnchorsKeepAcceptance | packages/x509-utils/src/x509/x509-validator.ts:162-293 | adding trust anchors or blind anchors that parse never turns acceptance into refusal |
| X509Verdict.OrientationDoesNotMatter | packages/x509-utils/src/x509/x509-validator.ts:116-122 | a verified chain whose leaf does not verify alone gets one verdict, reason and anchor from either orientation |
| X509Verdict.TrustRootTrustsLeaf | packages/x509-utils/src/x509/x509-validator.ts:146-146 | with `trustRootWhenNoAnchors`, a chain is accepted exactly when the deciding walk is verified throughout, and the anchor is that walk's last certificate, its leaf, in either orientation |
| X509Verdict.RejectedIffUnparsable | packages/x509-utils/src/x509/x509-validator.ts:158-176 | the promise is rejected exactly when a certificate, an anchor or a blind anchor does not parse |
| TypeStrings.DispatchDecomposes | packages/kms-azure-rest-client/src/js-client/models/ObjectSerializer.js:69-74 | the prefix and suffix tests find exactly the outer constructor and printed argument of every type |
| TypeStrings.DispatchMeans | packages/kms-azure-rest-client/src/js-client/models/ObjectSerializer.js:117-166 | for every text, printed type or not, which branch is taken and what text it goes on with, in the order of the tests |
| TypeStrings.PrimitiveIff | packages/kms-azure-rest-client/src/js-client/models/ObjectSerializer.js:19-28 | a text is primitive exactly if it spells one of the eight names in any case |
| TypedSerializer.SerializeRefines | packages/kms-azure-rest-client/src/js-client/models/ObjectSerializer.js:117-175 | serializing by a printed type equals recursion on the type itself, for all data, well typed or not |
| TypedSerializer.DeserializeRefines | packages/kms-azure-rest-client/src/js-client/models/ObjectSerializer.js:176-228 | deserializing by a printed type equals recursion on the type itself, for all data, discriminators included |
| TypeStrings.PrintInjective | packages/kms-azure-rest-client/src/js-client/models/ObjectSerializer.js:69-74 | two types with one printed text are one type |
| TypeStrings.Dispatch | packages/kms-azure-rest-client/src/js-client/models/ObjectSerializer.js:120-147 | the text recursed on is shorter, the second component of the termination measure |
| ObjectSerializer.FindType | packages/kms-azure-rest-client/src/js-client/models/ObjectSerializer.js:76-116 | the search for the correct type, test by test, ends as specified |
| ObjectSerializer.SerializeValue | packages/kms-azure-rest-client/src/js-client/models/ObjectSerializer.js:117-175 | the branches and loops compute the specified serialization, terminating on data and then type length |
| ObjectSerializer.SerializeArray | packages/kms-azure-rest-client/src/js-client/models/ObjectSerializer.js:132-139 | the array loop fills the result with the serialized items in order |
| ObjectSerializer.SerializeMap | packages/kms-azure-rest-client/src/js-client/models/ObjectSerializer.js:140-147 | the property loop, in any order, fills the result with every serialized property |
| ObjectSerializer.SerializeInstance | packages/kms-azure-rest-client/src/js-client/models/ObjectSerializer.js:167-173 | the attribute loop fills the instance under the base names |
| ObjectSerializer.DeserializeValue | packages/kms-azure-rest-client/src/js-client/models/ObjectSerializer.js:176-228 | the branches and loops compute the specified deserialization |
| ObjectSerializer.DeserializeArray | packages/kms-azure-rest-client/src/js-client/models/ObjectSerializer.js:192-199 | the array loop fills the result with the deserialized items in order |
| ObjectSerializer.DeserializeMap | packages/kms-azure-rest-client/src/js-client/models/ObjectSerializer.js:200-207 | the property loop, in any order, fills the result with every deserialized property |
| ObjectSerializer.DeserializeInstance | packages/kms-azure-rest-client/src/js-client/models/ObjectSerializer.js:218-226 | the attribute loop fills the instance and leaves absent attributes out |
| ObjectSerializer.TypeReturns | packages/kms-azure-rest-client/src/js-client/models/ObjectSerializer.js:177-191 | a discriminator mapped to its own model's nullable type leads deserialization back to the same type and data |
| SerializerRoundTrip.RoundTrip | packages/kms-azure-rest-client/src/js-client/models/ObjectSerializer.js:117-228 | serializing well-typed data whose objects keep their classes succeeds, keeps absence, and deserializing gives the part of the data that survives |
| SerializerRoundTrip.ClassSurvivesIff | packages/kms-azure-rest-client/src/js-client/models/ObjectSerializer.js:86-115 | a well-typed object is deserialized as the class it was serialized as exactly when what it holds for the attribute sent under the discriminator's name, a date as its text, picks the class that its property of that name picks |
| SerializerRoundTrip.DeclaredTagKeepsClass | packages/kms-azure-rest-client/src/js-client/models/ObjectSerializer.js:86-115 | a tag declared as a primitive attribute with one name on both sides always keeps the class |
| SerializerRoundTrip.LostTagLosesClass | packages/kms-azure-rest-client/src/js-client/models/ObjectSerializer.js:167-173 | an object whose class does not declare the tag comes back as an empty base class |
| SerializerRoundTrip.ExactIffProjected | packages/kms-azure-rest-client/src/js-client/models/ObjectSerializer.js:148-173 | data is the part of it that survives exactly when its objects hold nothing undeclared and its calendar dates are midnight UTC where local time is not behind UTC |
| SerializerRoundTrip.CalendarDate | packages/kms-azure-rest-client/src/js-client/models/ObjectSerializer.js:148-155 | a calendar date comes back exactly if it is midnight UTC and the local offset is not negative; with a negative one it comes back a day early, and local midnight comes back moved by the offset |
| SerializerRoundTrip.DeserializeSerialize | packages/kms-azure-rest-client/src/js-client/models/ObjectSerializer.js:117-228 | for data that keeps its classes, deserialize after serialize is the identity exactly on exact data, through arrays, maps, nullable types, dates, nested classes and discriminators |
| ClientModels.PolicyModelsAreATypeMap | packages/kms-azure-rest-client/src/js-client/models/KeyReleasePolicy.js:8-29 | two nested models of the client meet the round trip's conditions on a type map |
| Jwe.CreateJwe | packages/jwt-service/src/functions/JWE.ts:263-302 | the checks on the encrypters and the assembled JWE, or the error of each failed check |
| Jwe.EncryptForAll | packages/jwt-service/src/functions/JWE.ts:283-300 | the loop with its two variables builds exactly the described JWE |
| Jwe.RoundsAssemble | packages/jwt-service/src/functions/JWE.ts:283-300 | running the rounds gives the JWE of the first encrypter with a content key, or else of the last |
| Jwe.RoundsForget | packages/jwt-service/src/functions/JWE.ts:286-289 | an encrypter without content key leaves no trace behind a later one |
| JweDecrypt.FirstKeyDecides | packages/jwt-service/src/functions/JWE.ts:263-302 | a JWE is made exactly if the first encrypter adds a recipient; it then carries that encrypter's ciphertext, iv, tag and header and the additional data as given, and its recipients followed by the offers of the later ones in order |
| JweDecrypt.OfferPosition | packages/jwt-service/src/functions/JWE.ts:290-294 | the offer of an encrypter stands right behind the offers of the encrypters before it |
| JweDecrypt.JweAssertValid | packages/jwt-service/src/functions/JWE.ts:91-102 | the error for a missing part, else for a recipient without header or key, else none |
| JweDecrypt.MergedHolds | packages/jwt-service/src/functions/JWE.ts:347-347 | the merged header, name by name: the protected value for every protected name, the recipient's own for every other; and nothing else is such a header |
| JweDecrypt.DecryptJwe | packages/jwt-service/src/functions/JWE.ts:329-355 | the result or error, and the recipients as they are left behind: up to some position each header holds every protected member and its own others, behind it nothing has changed |
| JweDecrypt.OpenRecipients | packages/jwt-service/src/functions/JWE.ts:345-351 | the loop stops at the first recipient that opens or throws and has rewritten the headers up to it only; the iv is decoded only for a recipient with the decrypter's algorithm |
| JweDecrypt.Present | packages/jwt-service/src/functions/JWE.ts:348-350 | a recipient is decrypted only if its merged header has the decrypter's algorithm |
| JweDecrypt.RoundTrip | packages/jwt-service/src/functions/JWE.ts:263-355 | for every cleartext, header and additional data, the decrypter that belongs to any own recipient or any later encrypter gets the cleartext, at that one's position or an earlier one that opens too, exactly when no part is empty, all recipients are complete and the encryption is its own |
| JweDecrypt.DirectRoundTrip | packages/jwt-service/src/functions/JWE.ts:272-277 | direct encryption comes back under the same condition, so only if every recipient has an encrypted key, and rewrites no header |
| JweDecrypt.RewritingSettles | packages/jwt-service/src/functions/JWE.ts:347-347 | rewriting merges the protected members into the headers it reaches, and doing so again changes nothing more |
| Jws.CheckAndUpdateJwsHeader | packages/jwt-service/src/functions/index.ts:140-303 | the header is filled in, accepted or refused as specified, and unchanged on errors; an accepted header resolves to the signing key, keeps its other members and is accepted again unchanged |
| Jws.IsIdentifierMode | packages/jwt-service/src/functions/index.ts:289-303 | a method is chosen when it is asked for or automatic, and asking for another than the identifier's is an error |
| Jws.CheckAndUpdateDidHeader | packages/jwt-service/src/functions/index.ts:204-231 | a kid already there must resolve to the signer; else it is filled in unless jwk or x5c are there |
| Jws.CheckAndUpdateX5cHeader | packages/jwt-service/src/functions/index.ts:175-202 | the same for x5c, unless jwk or kid are there |
| Jws.CheckAndUpdateJwkHeader | packages/jwt-service/src/functions/index.ts:233-259 | the same for jwk, unless x5c is there |
| Jws.CheckAndUpdateKidHeader | packages/jwt-service/src/functions/index.ts:261-287 | the same for kid, unless x5c is there |
| Jws.PrepareJwsObject | packages/jwt-service/src/functions/index.ts:41-83 | header and payload after their updates in place, and the two encoded parts, or the error; each claim is its old value, or else the issuer, client identifier or scheme that was passed |
| Jws.CreateJwsJsonGeneral | packages/jwt-service/src/functions/index.ts:101-129 | the JWS with one more signature, and header and payload as they are left behind |
| Jws.CompactRoundTrip | packages/jwt-service/src/functions/index.ts:85-99 | the compact form of one signature is recognised and read back without its unprotected header |
| Jws.MatchesCompactIff | packages/jwt-service/src/types/IJwtService.ts:295-295 | a text passes the compact pattern exactly if it is three parts of base64url digits and padding, the first not empty, with any unit but a line break between each two |
| Jws.BeforeTildeIs | packages/jwt-service/src/types/IJwtService.ts:263-265 | a compact text is looked at up to its first tilde |
| Jws.FlattenedRoundTrip | packages/jwt-service/src/functions/index.ts:90-99 | exactly a JWS with one signature can be flattened, and the flattened and the general form read back as the JWS |
| JwsSigners.RoundsAppend | packages/jwt-service/src/functions/index.ts:101-129 | each round appends one signature of its signer, and the JWS carries the payload of the last round |
| JwsSigners.RoundsKeep | packages/jwt-service/src/functions/index.ts:125-128 | every signature stays as its round made it |
| JwsSigners.PayloadSettles | packages/jwt-service/src/functions/index.ts:54-64 | later signers keep the payload exactly when none of them fills in the issuer, and a filled issuer stays |
| JwsSigners.RoundVerifies | packages/jwt-service/src/functions/index.ts:305-353 | the signature of a round verifies in the final JWS exactly when no later signer changed the payload |
| JwsSigners.SignedByAllVerifies | packages/jwt-service/src/functions/index.ts:101-353 | for any signers and any schedule, verification reports no error exactly when no later signer fills in the issuer, which none does for text, bytes or an object that has one |
| JwsSigners.VerifiedIff | packages/jwt-service/src/functions/index.ts:305-380 | for a JWS in any form and any schedule, no error exactly when every signature read from it checks out over its own header and the payload |
| JwsSigners.FlattenedVerifiedIff | packages/jwt-service/src/functions/index.ts:305-380 | a flattened JWS verifies exactly when its one signature does |
| JwsSigners.CanonicalTextIsKept | packages/jwt-service/src/functions/index.ts:41-45 | a canonical base64url payload is carried unchanged |
| JwsSigners.CompactOfOneSigner | packages/jwt-service/src/functions/index.ts:355-380 | one signer's compact form is read back with the same payload and checks out as the general form does |
| JwsVerify.RunKeepsInvariant | packages/jwt-service/src/functions/index.ts:308-341 | at every point of every schedule, the counter is the number of started checks and there is one message for each invalid signature finished |
| JwsVerify.VerdictIgnoresSchedule | packages/jwt-service/src/functions/index.ts:305-353 | for every interleaving, an error exactly when some signature is invalid, with one message each |
| JwsVerify.MessagesNameTheCount | packages/jwt-service/src/functions/index.ts:332-334 | in every schedule an engine can produce, all messages name the number of signatures |
| JwsVerify.InvalidNamedIff | packages/jwt-service/src/functions/index.ts:310-341 | a complete run names exactly the invalid signatures, counted from one, if and only if no signature but the last is invalid |
| JwsVerify.CompleteRunExists | packages/jwt-service/src/functions/index.ts:310-341 | every list of signatures has a complete run of that kind |
| KeyManager.SphereonKeyManager.Make | packages/key-manager/src/agent/SphereonKeyManager.ts:34-47 | construction succeeds exactly when the given or first system is registered, which is then the default |
| KeyManager.SphereonKeyManager.SetDefaultKms | packages/key-manager/src/agent/SphereonKeyManager.ts:158-163 | the default changes exactly when the name is registered, else an error and no change |
| KeyManager.SphereonKeyManager.AddKms | packages/key-manager/src/agent/SphereonKeyManager.ts:165-167 | a system is added or replaced and nothing else changes |
| KeyManager.SphereonKeyManager.MetaFor | packages/key-manager/src/agent/SphereonKeyManager.ts:55-62 | the metadata asked for, with a removal date five minutes ahead for an ephemeral key without one |
| KeyManager.SphereonKeyManager.KeyManagerCreate | packages/key-manager/src/agent/SphereonKeyManager.ts:53-74 | the key that the requested system returned is stored whole under that system and returned without its private part, or an error and no change |
| KeyManager.SphereonKeyManager.KeyManagerListKeys | packages/key-manager/src/agent/SphereonKeyManager.ts:103-105 | every stored key once, without private parts, in some order |
| KeyManager.SphereonKeyManager.KeyManagerGet | packages/key-manager/src/agent/SphereonKeyManager.ts:133-151 | a stored kid first, else a key with that public key or thumbprint; when every thumbprint can be computed, it fails exactly if no stored key matches |
| KeyManager.SphereonKeyManager.KeyManagerHandleExpirations | packages/key-manager/src/agent/SphereonKeyManager.ts:107-122 | exactly the selected keys are gone unless removals are skipped, whatever the order of deletions; all others keep their values; the keys listed before are returned |
| KeyManager.RunKeepsInvariant | packages/key-manager/src/agent/SphereonKeyManager.ts:34-168 | over every run the default is registered, names stay registered, and created keys still stored name a registered system and carry a thumbprint |
| KeyManager.LiveIff | packages/key-manager/src/agent/SphereonKeyManager.ts:53-122 | a kid counts as live exactly if some operation of the run created it and it has been stored ever since without being imported over |
| KeyManager.LiveKeysAreFound | packages/key-manager/src/agent/SphereonKeyManager.ts:133-151 | after every run a created key still stored is found by its kid, and a lookup of its thumbprint finds a key |
| KeyManager.EveryExpirationCounts | packages/key-manager/src/agent/SphereonKeyManager.ts:109-117 | a key is selected exactly if it carries an expiration and the milliseconds part of its expiry date is no later than the current time, so from one second after the epoch on whatever its date |
| KeyManager.NothingLeftToRemove | packages/key-manager/src/agent/SphereonKeyManager.ts:107-122 | after one handling, any run that stores no key leaves every later handling nothing to remove |
| KeyManager.EphemeralGetsRemovalDate | packages/key-manager/src/agent/SphereonKeyManager.ts:53-62 | a new ephemeral key carries its requested removal date, else one five minutes ahead |
| KeyManager.EphemeralKeysExpire | packages/key-manager/src/agent/SphereonKeyManager.ts:53-122 | in every run, each ephemeral key still stored carries an expiration |
| KeyManager.EphemeralIff | packages/key-manager/src/agent/SphereonKeyManager.ts:53-122 | a kid counts as ephemeral exactly if some operation created it so and it has been stored ever since as that operation made it |
| KeyManager.EphemeralKeysGoNext | packages/key-manager/src/agent/SphereonKeyManager.ts:107-122 | no ephemeral key survives a handling of expirations in any run, whatever its removal date |

## Left out

- CanonicalTextDecides: `undefined`, functions, sparse arrays and cycles are no JSON values here.
- DecodeEncode: UTF-8 and number formatting are parameters that invert each other on well-formed text and on number syntax.
- MinimalIdempotent: `minimalJwk` is modelled for the JWKs `validateJwk` accepts with an optional curve; elsewhere it copies members that may be `undefined`.
- ReportedAnchorFits: certificates are abstract but for their two names, and a signature check either holds or fails; one that throws is not modelled.
- HashesCanonicalMinimal: the digest itself is not modelled, and `oct` keys, which the codec does not know, are covered by `OctHashesCanonical`.
- RemoveNullsIdempotent: `removeNulls` is modelled on values; that it also removes nulls inside nested objects still shared with the caller's JWK, and leaves holes in arrays, is not captured.
- PemRoundTrip: whether the RSA form of a private key parses is a parameter; a header name is taken literally, so names with regular-expression operators are not covered.
- ExtractsIffOwnType: SubjectPublicKeyInfo structures with short-form lengths, which hold all keys of the three types.
- DispatchDecomposes: lower-casing covers ASCII letters only, as the compared names do.
- DeserializeValue: demands that no model is named by, and no discriminator mapped to, a nullable or optional type text. Such a mapping can restore the type on the same data (`TypeReturns`), and the call then ends in a stack overflow. `SerializeValue` needs no such condition.
- DeserializeArray: demands of the type map what `DeserializeValue` does.
- DeserializeMap: demands of the type map what `DeserializeValue` does.
- DeserializeRefines: type maps with plain model names whose discriminators are mapped to models, as generated clients have them; so are those of the round trip.
- CalendarDate: days are taken to be written and read as the code does for years of four digits; others are written without padding. The local offset is a parameter, below a day in reality.
- ClassSurvivesIff: tags that are neither texts nor dates pick no class here, and dates only as sent; JavaScript would look up their text form.
- SerializeValue: data that is neither an array nor an object where the type demands one counts as an error, although a string could be iterated; the order in which properties are created is not modelled.
- DeserializeInstance: demands of the type map what `DeserializeValue` does; dates read from arrays or objects count as errors, and numbers are integers.
- FirstKeyDecides: encrypters are functions; their randomness, and arrays of recipients shared between an encrypter's result and the JWE, are not captured. A single compact encrypter class is left out.
- JweDecrypt.RoundTrip: ciphers are abstract, with the laws that a decrypter opens what was sealed for it and that nothing else than what was sealed comes out.
- DecryptJwe: the library's base 64 reader is taken to be base64url, and header merging beyond the protected header is left out.
- CheckAndUpdateJwsHeader: identifiers always have a kid, a JWK and an x5c at hand; resolving external identifiers before verification is a parameter of the check.
- CompactRoundTrip: header and signature are taken to be base64url, as encoder and signer produce them.
- SignedByAllVerifies: keys, encodings and signatures are abstract with the law that a key accepts exactly its own signatures over the data signed, and that encoding a payload loses nothing.
- KeyManagerListKeys: the store is a map from kid to key; failures of the store, and of a single deletion among several, are not modelled, nor is a store that keeps the very object the private part is later deleted from.
- KeyManagerDelete: the inherited deletion and import are taken as plain updates of the store; removing the key from its own system is left out.
- KeyManagerCreate: names that every JavaScript object inherits, such as `toString`, count as unregistered, and option members present with the value `undefined` as absent.
- Signing and verifying with raw keys, RSA key splitting, JWK coordinate export, certificate parsing and comparison, and WebCrypto: library code behind parameters.
- HTTP clients, REST middleware, DID resolution, identifier dispatch, OpenID Federation, database migrations and mnemonic storage: plumbing.
- The conversion tables between JOSE and COSE names and the mime-type helpers: finite case splits that would only add easy members.
- Error message texts and logging.
