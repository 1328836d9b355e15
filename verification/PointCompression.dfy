/** Compression of elliptic curve points (SEC 1, section 2.3.3) and what it keeps. */
module PointCompression {
  import opened Wrappers
  import opened Utf16
  import opened Base64

  datatype KeyType = Secp256k1 | Secp256r1 | Ed25519 | OtherKeyType

  predicate IsRawCompressedPublicKey(key: seq<byte>) {
    |key| == 33 && (key[0] == 0x02 || key[0] == 0x03)
  }

  predicate IsUncompressed(key: seq<byte>) {
    |key| == 65 && key[0] == 0x04
  }

  /** The bytes whose hexadecimal text is returned; None is an unsupported key type. */
  function CompressedBytes(raw: seq<byte>, keyType: KeyType): Option<seq<byte>> {
    if IsRawCompressedPublicKey(raw) then Some(raw)
    else if keyType == Secp256k1 || keyType == Secp256r1 then
      if IsUncompressed(raw) then
        var x, y := raw[1..33], raw[33..];
        Some([if y[31] % 2 == 0 then 0x02 else 0x03] + x)
      else Some(raw)
    else if keyType == Ed25519 then Some(raw)
    else None
  }

  function ToRawCompressedHexPublicKey(raw: seq<byte>, keyType: KeyType): Option<Text> {
    match CompressedBytes(raw, keyType)
    case None => None
    case Some(b) => Some(EncodeHex(b))
  }

  /** Compressing a compressed key again, from its hexadecimal text, changes nothing. */
  lemma CompressIdempotent(raw: seq<byte>, keyType: KeyType)
    requires ToRawCompressedHexPublicKey(raw, keyType).Some?
    ensures var hex := ToRawCompressedHexPublicKey(raw, keyType).value;
            && DecodeHex(hex).Some?
            && ToRawCompressedHexPublicKey(DecodeHex(hex).value, keyType) == Some(hex)
  {
    DecodeEncodeHex(CompressedBytes(raw, keyType).value);
  }

  // ---- Big-endian coordinates ---------------------------------------------------------------

  function BigEndian(b: seq<byte>): nat {
    if b == [] then 0 else BigEndian(b[..|b| - 1]) * 256 + b[|b| - 1]
  }

  function Power(n: nat): nat {
    if n == 0 then 1 else 256 * Power(n - 1)
  }

  /** The first byte counts most. */
  lemma {:induction false} BigEndianHead(b: byte, t: seq<byte>)
    ensures BigEndian([b] + t) == b * Power(|t|) + BigEndian(t)
  {
    if t == [] {
      assert ([b] + t)[..0] == [];
    } else {
      var n := |t| - 1;
      BigEndianHead(b, t[..n]);
      assert ([b] + t)[..n + 1] == [b] + t[..n];
      assert b * Power(n) * 256 == b * (256 * Power(n));
    }
  }

  /** The last byte has the parity of the number. */
  lemma LastByteParity(b: seq<byte>)
    requires b != []
    ensures BigEndian(b) % 2 == b[|b| - 1] % 2
  {
    var high := BigEndian(b[..|b| - 1]);
    assert BigEndian(b) == 2 * (high * 128) + b[|b| - 1];
  }

  lemma {:induction false} BigEndianInjective(a: seq<byte>, b: seq<byte>)
    requires |a| == |b| && BigEndian(a) == BigEndian(b)
    ensures a == b
  {
    if a != [] {
      var i := |a| - 1;
      assert BigEndian(a[..i]) == BigEndian(b[..i]) && a[i] == b[i];
      BigEndianInjective(a[..i], b[..i]);
      assert a == a[..i] + [a[i]] && b == b[..i] + [b[i]];
    }
  }

  // ---- Square roots modulo a prime ------------------------------------------------------------

  ghost predicate IsPrime(p: nat) {
    p > 1 && forall d {:trigger p % d} :: 1 < d < p ==> p % d != 0
  }

  /** Euclid's lemma for a factor below the prime: from a * b == k * p to b == m * p. */
  lemma {:induction false} PrimeDividesCofactor(p: nat, a: nat, b: int, k: int) returns (m: int)
    requires IsPrime(p) && 0 < a < p && a * b == k * p
    ensures b == m * p
    decreases a
  {
    if a == 1 {
      m := k;
    } else {
      var q, r := p / a, p % a;
      assert r != 0 && p == q * a + r;
      calc {
        r * b;
        (p - q * a) * b;
        { Distribute(p, q * a, b); }
        p * b - q * a * b;
        { Regroup(q, a, b); }
        p * b - q * (a * b);
        p * b - q * (k * p);
        { Regroup(q, k, p); }
        p * b - (q * k) * p;
        { Distribute(b, q * k, p); }
        (b - q * k) * p;
      }
      m := PrimeDividesCofactor(p, r, b, b - q * k);
    }
  }

  lemma Distribute(a: int, b: int, c: int)
    ensures (a - b) * c == a * c - b * c
  {
  }

  lemma Regroup(a: int, b: int, c: int)
    ensures a * b * c == a * (b * c)
  {
  }

  lemma OnlyZeroMultiple(p: int, n: int, m: int)
    requires p > 0 && n == m * p && -p < n < p
    ensures n == 0
  {
    assert m > 0 ==> m * p >= p;
    assert m < 0 ==> m * p <= -p;
  }

  /** Two square roots below a prime are equal or add up to it. */
  lemma SquareRoots(p: nat, y: nat, z: nat)
    requires IsPrime(p) && y < p && z < p
    requires y * y % p == z * z % p
    ensures y == z || y + z == p
  {
    if z < y {
      SquareRootsOrdered(p, y, z);
    } else if y < z {
      SquareRootsOrdered(p, z, y);
    }
  }

  lemma SquareRootsOrdered(p: nat, y: nat, z: nat)
    requires IsPrime(p) && z < y < p
    requires y * y % p == z * z % p
    ensures y + z == p
  {
    var s, t := y * y / p, z * z / p;
    assert y * y == s * p + y * y % p && z * z == t * p + z * z % p;
    Distribute(s, t, p);
    assert (y - z) * (y + z) == (s - t) * p by {
      assert (y - z) * (y + z) == y * y - z * z;
    }
    var m := PrimeDividesCofactor(p, y - z, y + z, s - t);
    if y + z != p {
      var rest := y + z - p;
      assert rest == (m - 1) * p by { Distribute(m, 1, p); }
      OnlyZeroMultiple(p, rest, m - 1);
    }
  }

  // ---- Compression loses nothing -----------------------------------------------------------------

  /** y is a coordinate below p with y * y == f(x) modulo p. */
  ghost predicate IsOrdinate(x: nat, y: nat, p: nat, f: nat -> int)
    requires p > 0
  {
    y < p && y * y % p == f(x) % p
  }

  /** Over an odd prime, parity tells the two ordinates of one x apart. */
  lemma {:induction false} ParityDecides(x: nat, y: nat, z: nat, p: nat, f: nat -> int)
    requires IsPrime(p) && p % 2 == 1 && y % 2 == z % 2
    requires IsOrdinate(x, y, p, f) && IsOrdinate(x, z, p, f)
    ensures y == z
  {
    SquareRoots(p, y, z);
  }

  /** An uncompressed point on the curve y * y == f(x) modulo p. */
  ghost predicate OnCurve(raw: seq<byte>, p: nat, f: nat -> int)
    requires p > 0
  {
    IsUncompressed(raw) && IsOrdinate(BigEndian(raw[1..33]), BigEndian(raw[33..]), p, f)
  }

  /** Equal texts mean equal x coordinates and y coordinates of one parity. */
  lemma SameTextSameParity(a: seq<byte>, b: seq<byte>, keyType: KeyType)
    requires keyType == Secp256k1 || keyType == Secp256r1
    requires IsUncompressed(a) && IsUncompressed(b)
    requires ToRawCompressedHexPublicKey(a, keyType) == ToRawCompressedHexPublicKey(b, keyType)
    ensures a[1..33] == b[1..33]
    ensures BigEndian(a[33..]) % 2 == BigEndian(b[33..]) % 2
  {
    var ca, cb := CompressedBytes(a, keyType).value, CompressedBytes(b, keyType).value;
    DecodeEncodeHex(ca);
    DecodeEncodeHex(cb);
    assert ca[1..] == a[1..33] && cb[1..] == b[1..33];
    assert ca[0] == cb[0];
    LastByteParity(a[33..]);
    LastByteParity(b[33..]);
  }

  lemma UncompressedParts(a: seq<byte>)
    requires IsUncompressed(a)
    ensures a == [0x04] + a[1..33] + a[33..]
  {
  }

  /** Points of one curve over an odd prime that compress to one text are one point. */
  lemma {:induction false} CompressionLosesNothing(a: seq<byte>, b: seq<byte>, keyType: KeyType, p: nat, f: nat -> int)
    requires keyType == Secp256k1 || keyType == Secp256r1
    requires IsPrime(p) && p % 2 == 1
    requires OnCurve(a, p, f) && OnCurve(b, p, f)
    requires ToRawCompressedHexPublicKey(a, keyType) == ToRawCompressedHexPublicKey(b, keyType)
    ensures a == b
  {
    SameTextSameParity(a, b, keyType);
    ParityDecides(BigEndian(a[1..33]), BigEndian(a[33..]), BigEndian(b[33..]), p, f);
    BigEndianInjective(a[33..], b[33..]);
    UncompressedParts(a);
    UncompressedParts(b);
  }

  /** The output is x behind a prefix of 2, or 3 for an odd y, as SEC 1 asks. */
  lemma PrefixIsParity(raw: seq<byte>, keyType: KeyType)
    requires keyType == Secp256k1 || keyType == Secp256r1
    requires |raw| == 65 && raw[0] == 0x04
    ensures ToRawCompressedHexPublicKey(raw, keyType) ==
            Some(EncodeHex([(2 + BigEndian(raw[33..]) % 2) as byte] + raw[1..33]))
  {
    LastByteParity(raw[33..]);
    assert raw[33..][31] == raw[64];
  }

  /** Any other key with a known type is returned as it is. */
  lemma OthersAreKept(raw: seq<byte>, keyType: KeyType)
    requires !((keyType == Secp256k1 || keyType == Secp256r1) && |raw| == 65 && raw[0] == 0x04)
    ensures ToRawCompressedHexPublicKey(raw, keyType) ==
            if keyType == OtherKeyType && !(|raw| == 33 && 2 <= raw[0] <= 3) then None else Some(EncodeHex(raw))
  {
  }

  lemma {:induction false} OrdinateOfParity(x: nat, y: nat, z: nat, p: nat, f: nat -> int)
    requires IsPrime(p) && p % 2 == 1 && IsOrdinate(x, y, p, f)
    ensures IsOrdinate(x, z, p, f) && z % 2 == y % 2 <==> z == y
  {
    if IsOrdinate(x, z, p, f) && z % 2 == y % 2 {
      ParityDecides(x, y, z, p, f);
    }
  }

  /** Decompression: the output names the point, for its y is the only ordinate of its x that has
      the parity of the first byte. */
  lemma {:induction false} DecompressionFindsPoint(raw: seq<byte>, keyType: KeyType, z: nat, p: nat, f: nat -> int)
    requires keyType == Secp256k1 || keyType == Secp256r1
    requires IsPrime(p) && p % 2 == 1 && OnCurve(raw, p, f)
    ensures ToRawCompressedHexPublicKey(raw, keyType).Some?
    ensures var sent := DecodeHex(ToRawCompressedHexPublicKey(raw, keyType).value);
            && sent.Some? && IsRawCompressedPublicKey(sent.value)
            && var x := BigEndian(sent.value[1..]);
               IsOrdinate(x, z, p, f) && z % 2 == sent.value[0] as nat - 2 <==> z == BigEndian(raw[33..])
  {
    var y := BigEndian(raw[33..]);
    var out := [(2 + y % 2) as byte] + raw[1..33];
    PrefixIsParity(raw, keyType);
    DecodeEncodeHex(out);
    assert out[1..] == raw[1..33] && out[0] == 2 + y % 2;
    OrdinateOfParity(BigEndian(raw[1..33]), y, z, p, f);
  }
}
