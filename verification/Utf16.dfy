/** JavaScript strings: sequences of UTF-16 code units, compared unit by unit. */
module Utf16 {
  type Unit = u: int | 0 <= u < 0x1_0000
  type Text = seq<Unit>

  /** The code units of an ASCII literal. */
  function Lit(s: string): (t: Text)
    requires forall i :: 0 <= i < |s| ==> s[i] < 128 as char
    ensures |t| == |s| && forall i :: 0 <= i < |s| ==> t[i] == s[i] as int
  {
    seq(|s|, i requires 0 <= i < |s| => s[i] as int)
  }

  const NL: Unit := 0x0A
  const CR: Unit := 0x0D
  const DOT: Unit := 0x2E

  /** What a dot in a regular expression does not match. */
  predicate IsTerminator(u: Unit) { u == NL || u == CR || u == 0x2028 || u == 0x2029 }

  /** A lower-case hexadecimal digit. */
  function HexDigit(n: nat): Unit
    requires n < 16
  {
    if n < 10 then 0x30 + n else 0x61 + n - 10
  }

  lemma Assoc(a: Text, b: Text, c: Text)
    ensures a + b + c == a + (b + c)
  {
  }

  lemma HeadTail(a: Text, b: Text)
    requires a != []
    ensures a + b == [a[0]] + (a[1..] + b) && (a + b)[0] == a[0] && (a + b)[1..] == a[1..] + b
  {
  }

  predicate IsHigh(u: Unit) { 0xD800 <= u < 0xDC00 }

  predicate IsLow(u: Unit) { 0xDC00 <= u < 0xE000 }

  predicate StartsWithPair(t: Text) {
    |t| > 1 && IsHigh(t[0]) && IsLow(t[1])
  }

  /** No lone surrogate occurs, so a UTF-8 encoder keeps every unit. */
  predicate WellFormed(t: Text) {
    if t == [] then true
    else if StartsWithPair(t) then WellFormed(t[2..])
    else !IsHigh(t[0]) && !IsLow(t[0]) && WellFormed(t[1..])
  }

  /** A code point that is no surrogate. */
  predicate IsScalar(n: nat) { n < 0xD800 || 0xE000 <= n < 0x11_0000 }

  /** The UTF-16 form of a code point. */
  function Units(n: nat): Text
    requires IsScalar(n)
  {
    if n < 0x1_0000 then [n] else [0xD800 + (n - 0x1_0000) / 0x400, 0xDC00 + (n - 0x1_0000) % 0x400]
  }

  function AllUnits(scalars: seq<nat>): Text
    requires forall i :: 0 <= i < |scalars| ==> IsScalar(scalars[i])
  {
    if scalars == [] then [] else Units(scalars[0]) + AllUnits(scalars[1..])
  }

  lemma {:induction false} UnitsAreWellFormed(scalars: seq<nat>)
    requires forall i :: 0 <= i < |scalars| ==> IsScalar(scalars[i])
    ensures WellFormed(AllUnits(scalars))
  {
    if scalars != [] {
      UnitsAreWellFormed(scalars[1..]);
      var head, tail := Units(scalars[0]), AllUnits(scalars[1..]);
      assert (head + tail)[|head|..] == tail;
    }
  }

  lemma {:induction false} ScalarsOf(t: Text) returns (scalars: seq<nat>)
    requires WellFormed(t)
    ensures (forall i :: 0 <= i < |scalars| ==> IsScalar(scalars[i])) && AllUnits(scalars) == t
    decreases |t|
  {
    if t == [] {
      scalars := [];
    } else if StartsWithPair(t) {
      var rest := ScalarsOf(t[2..]);
      var high: int, low: int := t[0], t[1];
      var n := 0x1_0000 + (high - 0xD800) * 0x400 + (low - 0xDC00);
      assert Units(n) == [t[0], t[1]];
      scalars := [n] + rest;
      assert scalars[1..] == rest;
    } else {
      var rest := ScalarsOf(t[1..]);
      scalars := [t[0]] + rest;
      assert scalars[1..] == rest;
    }
  }

  /** A text has no lone surrogate exactly if it is the UTF-16 form of code points. */
  lemma WellFormedIff(t: Text)
    ensures WellFormed(t) <==>
            exists scalars: seq<nat> ::
              (forall i :: 0 <= i < |scalars| ==> IsScalar(scalars[i])) && AllUnits(scalars) == t
  {
    if WellFormed(t) {
      var scalars := ScalarsOf(t);
    }
    if scalars: seq<nat> :| (forall i :: 0 <= i < |scalars| ==> IsScalar(scalars[i])) && AllUnits(scalars) == t {
      UnitsAreWellFormed(scalars);
    }
  }

  lemma {:induction false} WellFormedConcat(a: Text, b: Text)
    requires WellFormed(a) && WellFormed(b)
    ensures WellFormed(a + b)
    decreases |a|
  {
    if a == [] {
      assert a + b == b;
    } else if StartsWithPair(a) {
      WellFormedConcat(a[2..], b);
      assert (a + b)[2..] == a[2..] + b;
    } else {
      WellFormedConcat(a[1..], b);
      assert (a + b)[1..] == a[1..] + b;
    }
  }

  lemma {:induction false} PlainIsWellFormed(a: Text)
    requires forall i :: 0 <= i < |a| ==> a[i] < 0xD800
    ensures WellFormed(a)
    decreases |a|
  {
    if a != [] {
      PlainIsWellFormed(a[1..]);
    }
  }

  /** The strict order `Array.prototype.sort` uses on strings. */
  predicate Less(a: Text, b: Text)
    decreases |a|
  {
    if b == [] then false
    else if a == [] then true
    else a[0] < b[0] || (a[0] == b[0] && Less(a[1..], b[1..]))
  }

  /** The texts agree up to k; there the first one ends, or has the smaller unit. */
  predicate DiffersAt(a: Text, b: Text, k: nat) {
    k <= |a| && k < |b| && a[..k] == b[..k] && (k == |a| || a[k] < b[k])
  }

  lemma SameHead(a: Text, b: Text, k: nat)
    requires DiffersAt(a, b, k)
    ensures k > 0 ==> a[0] == b[0] && DiffersAt(a[1..], b[1..], k - 1)
  {
    if k > 0 {
      assert a[0] == a[..k][0] && b[0] == b[..k][0];
      assert a[1..][..k - 1] == a[..k][1..] && b[1..][..k - 1] == b[..k][1..];
    }
  }

  /** The first differing code unit decides; a proper prefix comes first. */
  lemma {:induction false} LessIffDiffers(a: Text, b: Text)
    ensures Less(a, b) <==> exists k: nat :: DiffersAt(a, b, k)
    decreases |a|
  {
    forall k: nat | DiffersAt(a, b, k) ensures k > 0 ==> a[0] == b[0] && DiffersAt(a[1..], b[1..], k - 1) {
      SameHead(a, b, k);
    }
    if a == [] || b == [] || a[0] != b[0] {
      if b != [] && (a == [] || a[0] < b[0]) {
        assert DiffersAt(a, b, 0);
      }
    } else {
      LessIffDiffers(a[1..], b[1..]);
      if k: nat :| DiffersAt(a[1..], b[1..], k) {
        assert a[..k + 1] == [a[0]] + a[1..][..k] && b[..k + 1] == [b[0]] + b[1..][..k];
        assert DiffersAt(a, b, k + 1);
      }
    }
  }

  lemma {:induction false} LessIrreflexive(a: Text)
    ensures !Less(a, a)
    decreases |a|
  {
    if a != [] {
      LessIrreflexive(a[1..]);
    }
  }

  lemma {:induction false} LessTransitive(a: Text, b: Text, c: Text)
    requires Less(a, b) && Less(b, c)
    ensures Less(a, c)
    decreases |a|
  {
    if a != [] && a[0] == b[0] == c[0] {
      LessTransitive(a[1..], b[1..], c[1..]);
    }
  }

  lemma {:induction false} LessTotal(a: Text, b: Text)
    ensures Less(a, b) || Less(b, a) || a == b
    decreases |a|
  {
    if a != [] && b != [] && a[0] == b[0] {
      LessTotal(a[1..], b[1..]);
      assert a == [a[0]] + a[1..] && b == [b[0]] + b[1..];
    }
  }
}
