/** Raw public keys out of SubjectPublicKeyInfo structures (RFC 5480, section 2; RFC 8410). */
module Asn1 {
  import opened Wrappers
  import opened Base64
  import opened PointCompression

  datatype DerError = NotASequence | UnsupportedKeyType | OidNotFound | BitStringNotFound

  const EC_KEY: seq<byte> := [0x06, 0x07, 0x2A, 0x86, 0x48, 0xCE, 0x3D, 0x02, 0x01]
  const CURVE_K1: seq<byte> := [0x06, 0x05, 0x2B, 0x81, 0x04, 0x00, 0x0A]
  const CURVE_R1: seq<byte> := [0x06, 0x08, 0x2A, 0x86, 0x48, 0xCE, 0x3D, 0x03, 0x01, 0x07]
  const ED25519: seq<byte> := [0x06, 0x03, 0x2B, 0x65, 0x70]

  /** The object identifier searched for. For Secp256k1 it is that of elliptic curve keys in
      general. */
  function TargetOid(keyType: KeyType): Option<seq<byte>> {
    match keyType
    case Secp256k1 => Some(EC_KEY)
    case Secp256r1 => Some(CURVE_R1)
    case Ed25519 => Some(ED25519)
    case OtherKeyType => None
  }

  /** A number in base 128, every byte but the last with its high bit set. */
  function Base128(n: nat, last: bool): seq<byte>
    decreases n
  {
    var b := (n % 128 + if last then 0 else 128) as byte;
    if n < 128 then [b] else Base128(n / 128, false) + [b]
  }

  function Arcs(arcs: seq<nat>): seq<byte> {
    if arcs == [] then [] else Base128(arcs[0], true) + Arcs(arcs[1..])
  }

  /** An object identifier in DER (X.690, section 8.19), of short-form length. */
  function Oid(arcs: seq<nat>): seq<byte>
    requires |arcs| > 1 && |Arcs([40 * arcs[0] + arcs[1]] + arcs[2..])| < 128
  {
    var content := Arcs([40 * arcs[0] + arcs[1]] + arcs[2..]);
    [0x06, |content| as byte] + content
  }

  lemma SmallArc(n: nat, arcs: seq<nat>)
    requires n < 128
    ensures Arcs([n] + arcs) == [n as byte] + Arcs(arcs)
  {
    assert ([n] + arcs)[1..] == arcs;
  }

  lemma TwoByteArc(n: nat, arcs: seq<nat>)
    requires 128 <= n < 16384
    ensures Arcs([n] + arcs) == [(n / 128 + 128) as byte, (n % 128) as byte] + Arcs(arcs)
  {
    assert ([n] + arcs)[1..] == arcs;
    assert n / 128 < 128 && Base128(n / 128, false) == [(n / 128 + 128) as byte];
  }

  lemma LastArcs(a: nat, b: nat)
    requires a < 128 && b < 128
    ensures Arcs([a, b]) == [a as byte, b as byte]
  {
    SmallArc(a, [b]);
    SmallArc(b, []);
    assert [a, b] == [a] + [b] && [b] == [b] + [];
  }

  /** The arcs 1.2.840.10045, which the first and third identifier share. */
  lemma AnsiArcs(arcs: seq<nat>)
    ensures Arcs([42, 840, 10045] + arcs) == [0x2A, 0x86, 0x48, 0xCE, 0x3D] + Arcs(arcs)
  {
    SmallArc(42, [840, 10045] + arcs);
    TwoByteArc(840, [10045] + arcs);
    TwoByteArc(10045, arcs);
    assert [42, 840, 10045] + arcs == [42] + ([840, 10045] + arcs);
    assert [840, 10045] + arcs == [840] + ([10045] + arcs);
  }

  ghost predicate Encodes(bytes: seq<byte>, arcs: seq<nat>) {
    && |arcs| > 1 && |Arcs([40 * arcs[0] + arcs[1]] + arcs[2..])| < 128
    && bytes == Oid(arcs)
  }

  lemma EcKeyIsEncoded()
    ensures Encodes(EC_KEY, [1, 2, 840, 10045, 2, 1])
  {
    AnsiArcs([2, 1]);
    LastArcs(2, 1);
    assert [42] + [1, 2, 840, 10045, 2, 1][2..] == [42, 840, 10045] + [2, 1];
  }

  lemma CurveR1IsEncoded()
    ensures Encodes(CURVE_R1, [1, 2, 840, 10045, 3, 1, 7])
  {
    AnsiArcs([3, 1, 7]);
    SmallArc(3, [1, 7]);
    LastArcs(1, 7);
    assert [3, 1, 7] == [3] + [1, 7];
    assert [42] + [1, 2, 840, 10045, 3, 1, 7][2..] == [42, 840, 10045] + [3, 1, 7];
  }

  lemma CurveK1IsEncoded()
    ensures Encodes(CURVE_K1, [1, 3, 132, 0, 10])
  {
    SmallArc(43, [132, 0, 10]);
    TwoByteArc(132, [0, 10]);
    LastArcs(0, 10);
    assert [132, 0, 10] == [132] + [0, 10];
    assert [43] + [1, 3, 132, 0, 10][2..] == [43] + [132, 0, 10];
  }

  lemma Ed25519IsEncoded()
    ensures Encodes(ED25519, [1, 3, 101, 112])
  {
    SmallArc(43, [101, 112]);
    LastArcs(101, 112);
    assert [43] + [1, 3, 101, 112][2..] == [43] + [101, 112];
  }

  /** The identifiers are those of id-ecPublicKey, secp256k1 and secp256r1 (RFC 5480, section 2.1.1;
      SEC 2) and id-Ed25519 (RFC 8410, section 3). */
  lemma IdentifiersAreEncoded()
    ensures Encodes(EC_KEY, [1, 2, 840, 10045, 2, 1]) && Encodes(CURVE_K1, [1, 3, 132, 0, 10])
    ensures Encodes(CURVE_R1, [1, 2, 840, 10045, 3, 1, 7]) && Encodes(ED25519, [1, 3, 101, 112])
  {
    EcKeyIsEncoded();
    CurveK1IsEncoded();
    CurveR1IsEncoded();
    Ed25519IsEncoded();
  }

  method CompareUint8Arrays(a: seq<byte>, b: seq<byte>) returns (equal: bool)
    ensures equal <==> a == b
  {
    if |a| != |b| {
      return false;
    }
    for i := 0 to |a|
      invariant a[..i] == b[..i]
    {
      if a[i] != b[i] {
        return false;
      }
    }
    return true;
  }

  predicate OccursAt(haystack: seq<byte>, needle: seq<byte>, i: nat) {
    i + |needle| <= |haystack| && haystack[i..i + |needle|] == needle
  }

  /** The least match, or -1 exactly when there is none. */
  ghost predicate IsFirstMatch(haystack: seq<byte>, needle: seq<byte>, r: int) {
    if r == -1 then forall i: nat :: !OccursAt(haystack, needle, i)
    else r >= 0 && OccursAt(haystack, needle, r) && forall i: nat :: i < r ==> !OccursAt(haystack, needle, i)
  }

  method FindSubarray(haystack: seq<byte>, needle: seq<byte>) returns (r: int)
    ensures IsFirstMatch(haystack, needle, r)
  {
    var i := 0;
    while i <= |haystack| - |needle|
      invariant forall j: nat :: j < i ==> !OccursAt(haystack, needle, j)
    {
      var equal := CompareUint8Arrays(haystack[i..i + |needle|], needle);
      if equal {
        return i;
      }
      i := i + 1;
    }
    return -1;
  }

  /** The first bit-string tag at or after a position, or the end. */
  function BitStringFrom(der: seq<byte>, i: nat): (r: nat)
    requires i <= |der|
    ensures i <= r <= |der|
    decreases |der| - i
  {
    if i == |der| || der[i] == 0x03 then i else BitStringFrom(der, i + 1)
  }

  /** What follows the tag, the length byte and the count of unused bits. */
  function AfterBitStringHeader(der: seq<byte>, tag: nat): seq<byte> {
    if tag + 3 <= |der| then der[tag + 3..] else []
  }

  /** What extraction returns when the identifier's first match is at `oid`. */
  function KeyBehind(der: seq<byte>, oid: int, length: nat): Result<seq<byte>, DerError>
    requires oid >= 0 ==> oid + length <= |der|
  {
    if oid < 0 then Err(OidNotFound)
    else
      var tag := BitStringFrom(der, oid + length);
      if tag == |der| then Err(BitStringNotFound) else Ok(AfterBitStringHeader(der, tag))
  }

  method Asn1DerToRawPublicKey(der: seq<byte>, keyType: KeyType) returns (r: Result<seq<byte>, DerError>)
    ensures der == [] || der[0] != 0x30 ==> r == Err(NotASequence)
    ensures TargetOid(keyType).None? <==> keyType == OtherKeyType
    ensures der != [] && der[0] == 0x30 && keyType == OtherKeyType ==> r == Err(UnsupportedKeyType)
    ensures der != [] && der[0] == 0x30 && TargetOid(keyType).Some? ==>
              var target := TargetOid(keyType).value;
              && (exists oid :: IsFirstMatch(der, target, oid))
              && (forall oid :: IsFirstMatch(der, target, oid) ==> r == KeyBehind(der, oid, |target|))
  {
    if der == [] || der[0] != 0x30 {
      return Err(NotASequence);
    }
    var target := TargetOid(keyType);
    if target.None? {
      return Err(UnsupportedKeyType);
    }
    var oid := FindSubarray(der, target.value);
    if oid == -1 {
      return Err(OidNotFound);
    }
    var index := oid + |target.value|;
    while index < |der| && der[index] != 0x03
      invariant oid + |target.value| <= index <= |der|
      invariant BitStringFrom(der, oid + |target.value|) == BitStringFrom(der, index)
    {
      index := index + 1;
    }
    if index >= |der| {
      return Err(BitStringNotFound);
    }
    return Ok(AfterBitStringHeader(der, index));
  }

  // ---- SubjectPublicKeyInfo ----------------------------------------------------------------

  /** The algorithm identifier, without its outer header. */
  function Algorithm(keyType: KeyType): seq<byte>
    requires keyType != OtherKeyType
  {
    match keyType
    case Secp256k1 => EC_KEY + CURVE_K1
    case Secp256r1 => EC_KEY + CURVE_R1
    case Ed25519 => ED25519
  }

  /** The curve follows the identifier of elliptic curve keys; Ed25519 has no parameters. */
  lemma AlgorithmIs(keyType: KeyType)
    requires keyType != OtherKeyType
    ensures exists a: seq<byte>, b: seq<byte> ::
              && Algorithm(keyType) == a + b
              && (keyType == Ed25519 ==> Encodes(a, [1, 3, 101, 112]) && b == [])
              && (keyType != Ed25519 ==> Encodes(a, [1, 2, 840, 10045, 2, 1]))
              && (keyType == Secp256k1 ==> Encodes(b, [1, 3, 132, 0, 10]))
              && (keyType == Secp256r1 ==> Encodes(b, [1, 2, 840, 10045, 3, 1, 7]))
  {
    IdentifiersAreEncoded();
    match keyType
    case Secp256k1 => assert Algorithm(keyType) == EC_KEY + CURVE_K1;
    case Secp256r1 => assert Algorithm(keyType) == EC_KEY + CURVE_R1;
    case Ed25519 => assert Algorithm(keyType) == ED25519 + [];
  }

  /** A sequence of an algorithm identifier and a key as a bit string, in short-form lengths. */
  function Structure(algorithm: seq<byte>, raw: seq<byte>): seq<byte>
    requires |algorithm| < 20 && |raw| <= 100
  {
    [0x30, (|algorithm| + |raw| + 5) as byte, 0x30, |algorithm| as byte] + algorithm
    + [0x03, (|raw| + 1) as byte, 0x00] + raw
  }

  function Spki(keyType: KeyType, raw: seq<byte>): seq<byte>
    requires keyType != OtherKeyType && |raw| <= 100
  {
    Structure(Algorithm(keyType), raw)
  }

  lemma StructureBytes(algorithm: seq<byte>, raw: seq<byte>)
    requires 1 < |algorithm| < 20 && |raw| <= 100
    ensures var der, n := Structure(algorithm, raw), 4 + |algorithm|;
            && |der| == n + 3 + |raw| && der[n] == 0x03 && der[n + 1] == (|raw| + 1) as byte && der[n + 2] == 0x00
            && der[n + 3..] == raw
            && der[0] == 0x30 && der[1] == (|algorithm| + |raw| + 5) as byte && der[2] == 0x30
            && der[3] == |algorithm| as byte
            && forall i :: 4 <= i < n ==> der[i] == algorithm[i - 4]
  {
  }

  /** An identifier can match at a position only if its first two bytes stand there. */
  predicate MayOccurAt(bytes: seq<byte>, oid: seq<byte>, i: nat)
    requires |oid| > 1
  {
    i + 1 < |bytes| && bytes[i] == oid[0] && bytes[i + 1] == oid[1]
  }

  lemma OccursNeedsStart(bytes: seq<byte>, oid: seq<byte>, i: nat)
    requires |oid| > 1 && OccursAt(bytes, oid, i)
    ensures MayOccurAt(bytes, oid, i)
  {
    assert bytes[i..i + |oid|][0] == bytes[i] && bytes[i..i + |oid|][1] == bytes[i + 1];
  }

  /** What the searched identifiers start with. */
  lemma OidStarts(keyType: KeyType)
    requires keyType != OtherKeyType
    ensures var oid := TargetOid(keyType).value;
            && |oid| > 2 && oid[0] == 0x06
            && oid[1] == match keyType case Secp256k1 => 0x07 case Secp256r1 => 0x08 case _ => 0x03
  {
  }

  /** In front of the key, a match lies in the algorithm. */
  lemma MatchIsInside(algorithm: seq<byte>, raw: seq<byte>, oid: seq<byte>, i: nat)
    requires 1 < |algorithm| < 20 && |algorithm| != 6 && |raw| <= 100
    requires |oid| > 1 && oid[0] == 0x06 && oid[1] != 0x00 && oid[1] != 0x30
    requires OccursAt(Structure(algorithm, raw), oid, i)
    ensures i >= 4 + |algorithm| + 3 || (4 <= i < 4 + |algorithm| && algorithm[i - 4] == 0x06)
    ensures MayOccurAt(Structure(algorithm, raw), oid, i)
  {
    StructureBytes(algorithm, raw);
    OccursNeedsStart(Structure(algorithm, raw), oid, i);
  }

  lemma OccursInStructure(algorithm: seq<byte>, raw: seq<byte>, oid: seq<byte>, k: nat)
    requires 1 < |algorithm| < 20 && |raw| <= 100 && OccursAt(algorithm, oid, k)
    ensures OccursAt(Structure(algorithm, raw), oid, 4 + k)
  {
    var der := Structure(algorithm, raw);
    StructureBytes(algorithm, raw);
    assert der[4 + k..4 + k + |oid|] == algorithm[k..k + |oid|];
  }

  /** Where an identifier stands in a structure, if it stands in front of the key at all: only
      there does the algorithm hold its first two bytes. */
  ghost predicate StandsAt(algorithm: seq<byte>, oid: seq<byte>, position: Option<nat>) {
    && 1 < |algorithm| < 20 && |algorithm| != 6 && algorithm[|algorithm| - 1] != 0x06
    && |oid| > 2 && oid[0] == 0x06 && oid[1] != 0x00 && oid[1] != 0x30
    && (position.Some? ==> position.value >= 4 && OccursAt(algorithm, oid, position.value - 4))
    && forall i :: 0 <= i < |algorithm| - 1 && algorithm[i] == 0x06 && algorithm[i + 1] == oid[1] ==>
         position == Some(i + 4)
  }

  /** The first match is where it belongs, or inside the key. */
  lemma FirstMatchPosition(algorithm: seq<byte>, target: seq<byte>, raw: seq<byte>, position: Option<nat>, oid: int)
    requires StandsAt(algorithm, target, position) && |raw| <= 100
    requires IsFirstMatch(Structure(algorithm, raw), target, oid)
    ensures match position
            case Some(k) => oid == k
            case None => oid == -1 || oid >= 4 + |algorithm| + 3
  {
    if oid >= 0 {
      MatchIsInside(algorithm, raw, target, oid);
      StructureBytes(algorithm, raw);
    }
    if position.Some? {
      OccursInStructure(algorithm, raw, target, position.value - 4);
    }
  }

  function OidPosition(actual: KeyType, wanted: KeyType): Option<nat>
    requires actual != OtherKeyType && wanted != OtherKeyType
  {
    match wanted
    case Secp256k1 => if actual == Ed25519 then None else Some(4)
    case Secp256r1 => if actual == Secp256r1 then Some(13) else None
    case Ed25519 => if actual == Ed25519 then Some(4) else None
  }

  lemma OccursInConcat(a: seq<byte>, b: seq<byte>)
    ensures OccursAt(a + b, a, 0) && OccursAt(a + b, b, |a|)
  {
  }

  lemma AlgorithmHolds(actual: KeyType, wanted: KeyType)
    requires actual != OtherKeyType && wanted != OtherKeyType && OidPosition(actual, wanted).Some?
    ensures OidPosition(actual, wanted).value >= 4
    ensures OccursAt(Algorithm(actual), TargetOid(wanted).value, OidPosition(actual, wanted).value - 4)
  {
    OccursInConcat(EC_KEY, CURVE_K1);
    OccursInConcat(EC_KEY, CURVE_R1);
    OccursInConcat(ED25519, []);
    assert ED25519 + [] == ED25519;
  }

  lemma AlgorithmSize(keyType: KeyType)
    requires keyType != OtherKeyType
    ensures var algorithm := Algorithm(keyType);
            1 < |algorithm| < 20 && |algorithm| != 6 && algorithm[|algorithm| - 1] != 0x06
  {
  }

  /** Only at its start, or at nine for a second identifier, can an algorithm hold one. */
  lemma AlgorithmStarts(keyType: KeyType, i: nat)
    requires keyType != OtherKeyType && i < |Algorithm(keyType)| - 1 && Algorithm(keyType)[i] == 0x06
    ensures i == 0 || (i == 9 && keyType != Ed25519)
    ensures Algorithm(keyType)[i + 1] ==
            if i == 9 then (if keyType == Secp256k1 then 0x05 else 0x08) else if keyType == Ed25519 then 0x03 else 0x07
  {
  }

  lemma StartIsPosition(actual: KeyType, wanted: KeyType, i: nat)
    requires actual != OtherKeyType && wanted != OtherKeyType && i < |Algorithm(actual)| - 1
    requires Algorithm(actual)[i] == 0x06 && Algorithm(actual)[i + 1] == TargetOid(wanted).value[1]
    ensures OidPosition(actual, wanted) == Some(i + 4)
  {
    OidStarts(wanted);
    AlgorithmStarts(actual, i);
  }

  lemma OidStandsAt(actual: KeyType, wanted: KeyType)
    requires actual != OtherKeyType && wanted != OtherKeyType
    ensures StandsAt(Algorithm(actual), TargetOid(wanted).value, OidPosition(actual, wanted))
  {
    AlgorithmSize(actual);
    OidStarts(wanted);
    if OidPosition(actual, wanted).Some? {
      AlgorithmHolds(actual, wanted);
    }
    var algorithm := Algorithm(actual);
    forall i | 0 <= i < |algorithm| - 1 && algorithm[i] == 0x06 && algorithm[i + 1] == TargetOid(wanted).value[1]
      ensures OidPosition(actual, wanted) == Some(i + 4)
    {
      StartIsPosition(actual, wanted, i);
    }
  }

  lemma {:induction false} BitStringSkips(der: seq<byte>, i: nat, n: nat)
    requires i <= n < |der| && der[n] == 0x03 && forall j :: i <= j < n ==> der[j] != 0x03
    ensures BitStringFrom(der, i) == n
    decreases n - i
  {
    if i < n {
      BitStringSkips(der, i + 1, n);
    }
  }

  /** If the byte 0x03 does not stand between a match and the bit string, the key comes back. */
  lemma NoTagBetween(algorithm: seq<byte>, raw: seq<byte>, oid: int, length: nat)
    requires 1 < |algorithm| < 20 && |raw| <= 100 && 4 <= oid && oid + length <= 4 + |algorithm|
    requires forall i :: oid + length - 4 <= i < |algorithm| ==> algorithm[i] != 0x03
    ensures oid + length <= |Structure(algorithm, raw)|
    ensures KeyBehind(Structure(algorithm, raw), oid, length) == Ok(raw)
  {
    StructureBytes(algorithm, raw);
    BitStringSkips(Structure(algorithm, raw), oid + length, 4 + |algorithm|);
  }

  lemma OwnAlgorithm(keyType: KeyType)
    requires keyType != OtherKeyType
    ensures var after := OidPosition(keyType, keyType).value - 4 + |TargetOid(keyType).value|;
            && 1 < |Algorithm(keyType)| < 20 && after <= |Algorithm(keyType)|
            && forall i :: after <= i < |Algorithm(keyType)| ==> Algorithm(keyType)[i] != 0x03
  {
  }

  /** A byte 0x03 in the algorithm is taken for the tag: three bytes later, the rest of the
      structure is taken for the key. */
  lemma TagInside(algorithm: seq<byte>, raw: seq<byte>, oid: int, length: nat)
    requires 3 < |algorithm| < 20 && |raw| <= 100 && 4 <= oid && oid + length <= 4 + |algorithm| - 3
    requires algorithm[|algorithm| - 3] == 0x03
    requires forall i :: oid + length - 4 <= i < |algorithm| - 3 ==> algorithm[i] != 0x03
    ensures oid + length <= |Structure(algorithm, raw)|
    ensures KeyBehind(Structure(algorithm, raw), oid, length) == Ok([0x03, (|raw| + 1) as byte, 0x00] + raw)
  {
    var der, n := Structure(algorithm, raw), 4 + |algorithm|;
    var rest := [0x03, (|raw| + 1) as byte, 0x00] + raw;
    StructureBytes(algorithm, raw);
    BitStringSkips(der, oid + length, n - 3);
    forall i | 0 <= i < |rest| ensures der[n..][i] == rest[i] {
      if i >= 3 { assert der[n + 3..][i - 3] == der[n..][i]; }
    }
    assert der[n..] == rest;
  }

  lemma CurveHoldsTag()
    ensures var algorithm := Algorithm(Secp256r1);
            && |algorithm| == 19 && algorithm[16] == 0x03
            && forall i :: 9 <= i < 16 ==> algorithm[i] != 0x03
  {
  }

  /** Read as Secp256k1, a Secp256r1 key comes back behind its bit-string header: the byte 0x03
      of its curve identifier is taken for the tag. */
  lemma WrongKeyTypeKeepsHeader(raw: seq<byte>, oid: int)
    requires |raw| <= 100 && IsFirstMatch(Spki(Secp256r1, raw), TargetOid(Secp256k1).value, oid)
    ensures KeyBehind(Spki(Secp256r1, raw), oid, |TargetOid(Secp256k1).value|) ==
            Ok([0x03, (|raw| + 1) as byte, 0x00] + raw)
  {
    OidStandsAt(Secp256r1, Secp256k1);
    FirstMatchPosition(Algorithm(Secp256r1), TargetOid(Secp256k1).value, raw, Some(4), oid);
    CurveHoldsTag();
    TagInside(Algorithm(Secp256r1), raw, 4, 9);
  }

  /** What is extracted is shorter than what follows the match. */
  lemma TailIsShorter(der: seq<byte>, oid: nat, length: nat)
    requires 0 < length && oid + length <= |der|
    ensures KeyBehind(der, oid, length).Ok? ==> |KeyBehind(der, oid, length).value| < |der| - oid
  {
  }

  /** A match inside the key leaves less than the key. */
  lemma MatchInKeyLosesBytes(algorithm: seq<byte>, target: seq<byte>, raw: seq<byte>, oid: int)
    requires 1 < |algorithm| < 20 && |raw| <= 100 && target != []
    requires oid == -1 || oid >= 4 + |algorithm| + 3
    requires IsFirstMatch(Structure(algorithm, raw), target, oid)
    ensures KeyBehind(Structure(algorithm, raw), oid, |target|) != Ok(raw)
  {
    if oid >= 0 {
      StructureBytes(algorithm, raw);
      TailIsShorter(Structure(algorithm, raw), oid, |target|);
    }
  }

  lemma OwnTypeExtracts(keyType: KeyType, raw: seq<byte>, oid: int)
    requires keyType != OtherKeyType && |raw| <= 100
    requires IsFirstMatch(Spki(keyType, raw), TargetOid(keyType).value, oid)
    ensures KeyBehind(Spki(keyType, raw), oid, |TargetOid(keyType).value|) == Ok(raw)
  {
    OidStandsAt(keyType, keyType);
    FirstMatchPosition(Algorithm(keyType), TargetOid(keyType).value, raw, OidPosition(keyType, keyType), oid);
    OwnAlgorithm(keyType);
    NoTagBetween(Algorithm(keyType), raw, oid, |TargetOid(keyType).value|);
  }

  lemma ForeignTypeFails(actual: KeyType, wanted: KeyType, raw: seq<byte>, oid: int)
    requires actual != OtherKeyType && wanted != OtherKeyType && |raw| <= 100 && OidPosition(actual, wanted).None?
    requires IsFirstMatch(Spki(actual, raw), TargetOid(wanted).value, oid)
    ensures KeyBehind(Spki(actual, raw), oid, |TargetOid(wanted).value|) != Ok(raw)
  {
    OidStandsAt(actual, wanted);
    FirstMatchPosition(Algorithm(actual), TargetOid(wanted).value, raw, None, oid);
    MatchInKeyLosesBytes(Algorithm(actual), TargetOid(wanted).value, raw, oid);
  }

  /** For every pair of key types, extracting from the SubjectPublicKeyInfo of a key returns the
      key exactly when it is asked for with its own type. */
  lemma ExtractsIffOwnType(actual: KeyType, wanted: KeyType, raw: seq<byte>, oid: int)
    requires actual != OtherKeyType && wanted != OtherKeyType && |raw| <= 100
    requires IsFirstMatch(Spki(actual, raw), TargetOid(wanted).value, oid)
    ensures KeyBehind(Spki(actual, raw), oid, |TargetOid(wanted).value|) == Ok(raw) <==> actual == wanted
  {
    if actual == wanted {
      OwnTypeExtracts(actual, raw, oid);
    } else if OidPosition(actual, wanted).None? {
      ForeignTypeFails(actual, wanted, raw, oid);
    } else {
      WrongKeyTypeKeepsHeader(raw, oid);
    }
  }
}
