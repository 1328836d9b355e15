/** Base 16 and base 64 (RFC 4648, sections 4, 5 and 8) as the codec library computes them:
    lower-case hexadecimal, and decoding that strips padding and refuses stray bits. */
module Base64 {
  import opened Wrappers
  import opened Utf16

  type byte = b: int | 0 <= b < 256
  type sextet = s: int | 0 <= s < 64

  const PAD: Unit := 0x3D

  // ---- Base 64 ----------------------------------------------------------------------------

  function Digit(s: sextet, url: bool): Unit {
    if s < 26 then 0x41 + s
    else if s < 52 then 0x61 + (s - 26)
    else if s < 62 then 0x30 + (s - 52)
    else if s == 62 then (if url then 0x2D else 0x2B)
    else (if url then 0x5F else 0x2F)
  }

  function Value(u: Unit, url: bool): Option<sextet> {
    if 0x41 <= u <= 0x5A then Some(u - 0x41)
    else if 0x61 <= u <= 0x7A then Some(u - 0x61 + 26)
    else if 0x30 <= u <= 0x39 then Some(u - 0x30 + 52)
    else if u == (if url then 0x2D else 0x2B) then Some(62)
    else if u == (if url then 0x5F else 0x2F) then Some(63)
    else None
  }

  lemma ValueOfDigit(s: sextet, url: bool)
    ensures Value(Digit(s, url), url) == Some(s) && Digit(s, url) != PAD
  {
  }

  /** The sextets of a group of at most three bytes. */
  function Split(b: seq<byte>): (s: seq<sextet>)
    requires 0 < |b| <= 3
    ensures |s| == |b| + 1
  {
    if |b| == 1 then [b[0] / 4, b[0] % 4 * 16]
    else if |b| == 2 then [b[0] / 4, b[0] % 4 * 16 + b[1] / 16, b[1] % 16 * 4]
    else [b[0] / 4, b[0] % 4 * 16 + b[1] / 16, b[1] % 16 * 4 + b[2] / 64, b[2] % 64]
  }

  /** The bytes of a group of at most four sextets; left-over bits must be zero. */
  function Join(s: seq<sextet>): (b: Option<seq<byte>>)
    requires 0 < |s| <= 4
  {
    if |s| == 1 then None
    else
      var x: int := s[1];
      var first: byte := s[0] as int * 4 + x / 16;
      if |s| == 2 then (if x % 16 == 0 then Some([first]) else None)
      else
        var y: int := s[2];
        var second: byte := x % 16 * 16 + y / 4;
        if |s| == 3 then (if y % 4 == 0 then Some([first, second]) else None)
        else
          var third: byte := y % 4 * 64 + s[3];
          Some([first, second, third])
  }

  lemma JoinSplit(b: seq<byte>)
    requires 0 < |b| <= 3
    ensures Join(Split(b)) == Some(b)
  {
    var s := Split(b);
    if |b| == 1 {
      assert b == [b[0]];
    } else if |b| == 2 {
      assert s[1] / 16 == b[0] % 4 && s[1] % 16 == b[1] / 16;
      assert b == [b[0], b[1]];
    } else {
      assert s[1] / 16 == b[0] % 4 && s[1] % 16 == b[1] / 16;
      assert s[2] / 4 == b[1] % 16 && s[2] % 4 == b[2] / 64;
      assert b == [b[0], b[1], b[2]];
    }
  }

  function Digits(s: seq<sextet>, url: bool): (t: Text)
    ensures |t| == |s| && forall i :: 0 <= i < |s| ==> t[i] == Digit(s[i], url)
  {
    seq(|s|, i requires 0 <= i < |s| => Digit(s[i], url))
  }

  function Values(t: Text, url: bool): (s: Option<seq<sextet>>)
    ensures s.Some? ==> |s.value| == |t| && forall i :: 0 <= i < |t| ==> Value(t[i], url) == Some(s.value[i])
    ensures s.None? ==> exists i :: 0 <= i < |t| && Value(t[i], url).None?
  {
    if t == [] then Some([])
    else match (Value(t[0], url), Values(t[1..], url))
         case (Some(v), Some(rest)) => Some([v] + rest)
         case (None, _) => assert Value(t[0], url).None?; None
         case (_, None) =>
           assert exists i :: 0 <= i < |t[1..]| && Value(t[1..][i], url).None?;
           assert forall i :: 0 <= i < |t[1..]| ==> t[1..][i] == t[i + 1];
           None
  }

  /** Encoding without padding. */
  function Encode(b: seq<byte>, url: bool): Text {
    if b == [] then []
    else if |b| <= 3 then Digits(Split(b), url)
    else Digits(Split(b[..3]), url) + Encode(b[3..], url)
  }

  function Repeat(u: Unit, n: nat): (t: Text)
    ensures |t| == n && forall i :: 0 <= i < n ==> t[i] == u
  {
    seq(n, _ => u)
  }

  function EncodePadded(b: seq<byte>): Text {
    Encode(b, false) + Repeat(PAD, (3 - |b| % 3) % 3)
  }

  function StripPadding(t: Text): (r: Text)
    ensures r <= t && (r == [] || r[|r| - 1] != PAD)
  {
    if t != [] && t[|t| - 1] == PAD then StripPadding(t[..|t| - 1]) else t
  }

  function DecodeDigits(t: Text, url: bool): Option<seq<byte>> {
    if t == [] then Some([])
    else if |t| <= 4 then
      match Values(t, url)
      case None => None
      case Some(s) => Join(s)
    else match (Values(t[..4], url), DecodeDigits(t[4..], url))
         case (Some(s), Some(rest)) => Some(Join(s).value + rest)
         case _ => None
  }

  /** None stands for the exception thrown on a character or a length that is not base 64. */
  function Decode(t: Text, url: bool): Option<seq<byte>> {
    DecodeDigits(StripPadding(t), url)
  }

  lemma {:induction false} StripRepeat(t: Text, n: nat)
    requires t != [] ==> t[|t| - 1] != PAD
    ensures StripPadding(t + Repeat(PAD, n)) == t
    decreases n
  {
    var p := t + Repeat(PAD, n);
    if n == 0 {
      assert p == t;
    } else {
      StripRepeat(t, n - 1);
      assert p[..|p| - 1] == t + Repeat(PAD, n - 1);
    }
  }

  predicate IsEncoded(t: Text, url: bool) {
    forall i :: 0 <= i < |t| ==> Value(t[i], url).Some?
  }

  lemma {:induction false} EncodeDigits(b: seq<byte>, url: bool)
    ensures IsEncoded(Encode(b, url), url) && (b != [] ==> Encode(b, url) != [])
    decreases |b|
  {
    if |b| > 3 {
      EncodeDigits(b[3..], url);
    }
    forall s: sextet ensures Value(Digit(s, url), url).Some? {
      ValueOfDigit(s, url);
    }
  }

  lemma ValuesOfDigits(s: seq<sextet>, url: bool)
    ensures Values(Digits(s, url), url) == Some(s)
  {
    forall i | 0 <= i < |s| ensures Value(Digits(s, url)[i], url) == Some(s[i]) {
      ValueOfDigit(s[i], url);
    }
    if Values(Digits(s, url), url).Some? {
      assert Values(Digits(s, url), url).value == s;
    }
  }

  lemma {:induction false} DecodeDigitsEncode(b: seq<byte>, url: bool)
    ensures DecodeDigits(Encode(b, url), url) == Some(b)
    decreases |b|
  {
    if b == [] {
    } else if |b| <= 3 {
      ValuesOfDigits(Split(b), url);
      JoinSplit(b);
    } else {
      var head := Split(b[..3]);
      var t := Encode(b, url);
      ValuesOfDigits(head, url);
      JoinSplit(b[..3]);
      DecodeDigitsEncode(b[3..], url);
      EncodeDigits(b[3..], url);
      assert t[..4] == Digits(head, url) && t[4..] == Encode(b[3..], url);
      assert b == b[..3] + b[3..];
    }
  }

  /** Decoding inverts encoding, padded or not. */
  lemma DecodeEncode(b: seq<byte>, url: bool, padding: nat)
    ensures Decode(Encode(b, url) + Repeat(PAD, padding), url) == Some(b)
  {
    var t := Encode(b, url);
    EncodeDigits(b, url);
    if t != [] { assert Value(t[|t| - 1], url).Some?; }
    StripRepeat(t, padding);
    DecodeDigitsEncode(b, url);
  }

  // ---- What decoding accepts ------------------------------------------------------------------

  lemma DigitOfValue(u: Unit, url: bool)
    ensures Value(u, url).Some? ==> Digit(Value(u, url).value, url) == u
  {
  }

  lemma FirstByte(w: sextet, x: sextet)
    ensures (w * 4 + x / 16) / 4 == w && (w * 4 + x / 16) % 4 == x / 16 && x / 16 * 16 + x % 16 == x
  {
  }

  lemma SecondByte(x: sextet, y: sextet)
    ensures (x % 16 * 16 + y / 4) / 16 == x % 16 && (x % 16 * 16 + y / 4) % 16 == y / 4 && y / 4 * 4 + y % 4 == y
  {
  }

  lemma ThirdByte(y: sextet, z: sextet)
    ensures (y % 4 * 64 + z) / 64 == y % 4 && (y % 4 * 64 + z) % 64 == z
  {
  }

  lemma SplitJoin(s: seq<sextet>)
    requires 0 < |s| <= 4
    ensures Join(s).Some? ==> 0 < |Join(s).value| <= 3 && Split(Join(s).value) == s
  {
    if Join(s).Some? {
      FirstByte(s[0], s[1]);
      if |s| > 2 { SecondByte(s[1], s[2]); }
      if |s| > 3 { ThirdByte(s[2], s[3]); }
    }
  }

  lemma DigitsOfValues(t: Text, url: bool)
    ensures Values(t, url).Some? ==> Digits(Values(t, url).value, url) == t
  {
    if Values(t, url).Some? {
      forall i | 0 <= i < |t| ensures Digits(Values(t, url).value, url)[i] == t[i] {
        DigitOfValue(t[i], url);
      }
    }
  }

  lemma {:induction false} EncodeDecodeDigits(t: Text, url: bool)
    ensures DecodeDigits(t, url).Some? ==> Encode(DecodeDigits(t, url).value, url) == t
    decreases |t|
  {
    if DecodeDigits(t, url).Some? && t != [] {
      if |t| <= 4 {
        DigitsOfValues(t, url);
        SplitJoin(Values(t, url).value);
      } else {
        GroupEncodes(t[..4], t[4..], url);
        EncodeDecodeDigits(t[4..], url);
        assert t == t[..4] + t[4..];
      }
    }
  }

  /** A full group in front of more digits. */
  lemma GroupEncodes(group: Text, more: Text, url: bool)
    requires |group| == 4 && more != [] && Values(group, url).Some? && DecodeDigits(more, url).Some?
    ensures var head := Join(Values(group, url).value);
            && head.Some? && |head.value| == 3
            && Encode(head.value + DecodeDigits(more, url).value, url) ==
               group + Encode(DecodeDigits(more, url).value, url)
  {
    var s := Values(group, url).value;
    var head, rest := Join(s).value, DecodeDigits(more, url).value;
    DigitsOfValues(group, url);
    SplitJoin(s);
    assert (head + rest)[..3] == head && (head + rest)[3..] == rest;
    if rest == [] {
      assert head + rest == head && group + [] == group;
    }
  }

  lemma {:induction false} StripIs(t: Text) returns (n: nat)
    ensures t == StripPadding(t) + Repeat(PAD, n)
  {
    if t != [] && t[|t| - 1] == PAD {
      var k := StripIs(t[..|t| - 1]);
      n := k + 1;
      assert t == t[..|t| - 1] + [PAD];
      assert Repeat(PAD, n) == Repeat(PAD, k) + [PAD];
    } else {
      n := 0;
      assert t == t + Repeat(PAD, 0);
    }
  }

  /** Decoding accepts exactly the encodings of byte strings, followed by any padding. */
  lemma DecodeIff(t: Text, url: bool, b: seq<byte>)
    ensures Decode(t, url) == Some(b) <==> exists n: nat :: t == Encode(b, url) + Repeat(PAD, n)
  {
    if Decode(t, url) == Some(b) {
      var n := StripIs(t);
      EncodeDecodeDigits(StripPadding(t), url);
      assert t == Encode(b, url) + Repeat(PAD, n);
    }
    if n: nat :| t == Encode(b, url) + Repeat(PAD, n) {
      DecodeEncode(b, url, n);
    }
  }

  // ---- Base 16 ----------------------------------------------------------------------------

  /** Only lower-case letters are digits. */
  function HexValue(u: Unit): (n: Option<nat>)
    ensures n.Some? ==> n.value < 16 && HexDigit(n.value) == u
  {
    if 0x30 <= u <= 0x39 then Some(u - 0x30)
    else if 0x61 <= u <= 0x66 then Some(u - 0x61 + 10)
    else None
  }

  function EncodeHex(b: seq<byte>): (t: Text)
    ensures |t| == 2 * |b|
  {
    if b == [] then [] else [HexDigit(b[0] / 16), HexDigit(b[0] % 16)] + EncodeHex(b[1..])
  }

  function DecodeHex(t: Text): Option<seq<byte>> {
    if t == [] then Some([])
    else if |t| == 1 then None
    else match (HexValue(t[0]), HexValue(t[1]), DecodeHex(t[2..]))
         case (Some(h), Some(l), Some(rest)) => Some([h * 16 + l] + rest)
         case _ => None
  }

  predicate IsHex(t: Text) {
    |t| % 2 == 0 && forall i :: 0 <= i < |t| ==> HexValue(t[i]).Some?
  }

  /** Even-length lower-case hexadecimal and bytes correspond one to one. */
  lemma {:induction false} EncodeDecodeHex(t: Text)
    requires IsHex(t)
    ensures DecodeHex(t).Some? && EncodeHex(DecodeHex(t).value) == t
    ensures |t| == 2 * |DecodeHex(t).value|
    decreases |t|
  {
    if t != [] {
      EncodeDecodeHex(t[2..]);
      var h, l := HexValue(t[0]).value, HexValue(t[1]).value;
      assert (h * 16 + l) / 16 == h && (h * 16 + l) % 16 == l;
      assert t == [t[0], t[1]] + t[2..];
    }
  }

  /** Nothing else is hexadecimal. */
  lemma {:induction false} DecodeHexIff(t: Text)
    ensures DecodeHex(t).Some? <==> IsHex(t)
    decreases |t|
  {
    if |t| > 1 {
      DecodeHexIff(t[2..]);
      assert IsHex(t) <==> HexValue(t[0]).Some? && HexValue(t[1]).Some? && IsHex(t[2..]) by {
        assert forall i :: 2 <= i < |t| ==> t[i] == t[2..][i - 2];
        if IsHex(t) {
          assert forall i :: 0 <= i < |t[2..]| ==> t[2..][i] == t[i + 2];
        }
      }
    }
  }

  lemma {:induction false} DecodeEncodeHex(b: seq<byte>)
    ensures DecodeHex(EncodeHex(b)) == Some(b)
  {
    if b != [] {
      DecodeEncodeHex(b[1..]);
      var t := EncodeHex(b);
      assert t[2..] == EncodeHex(b[1..]);
      assert b == [b[0]] + b[1..];
    }
  }
}
