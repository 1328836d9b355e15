/** What the readers of numbers and white space accept, against the grammar of RFC 8259. */
module JsonSyntax {
  import opened Wrappers
  import opened Utf16
  import opened Json

  // ---- Numbers (section 6) ----------------------------------------------------------------

  ghost predicate Digits(t: Text) {
    t != [] && forall i :: 0 <= i < |t| ==> 0x30 <= t[i] <= 0x39
  }

  /** `int`: zero, or digits that do not start with it. */
  ghost predicate IsInt(t: Text) {
    t == [0x30] || (Digits(t) && t[0] != 0x30)
  }

  /** `frac`, or nothing. */
  ghost predicate IsOptionalFrac(t: Text) {
    t == [] || (t[0] == 0x2E && Digits(t[1..]))
  }

  /** `exp`, or nothing: the letter E in either case, an optional sign, digits. */
  ghost predicate IsOptionalExp(t: Text) {
    t == [] ||
    ((t[0] == 0x45 || t[0] == 0x65) &&
     (Digits(t[1..]) || (|t| > 1 && (t[1] == 0x2B || t[1] == 0x2D) && Digits(t[2..]))))
  }

  ghost predicate AreParts(t: Text, sign: Text, integer: Text, fraction: Text, exponent: Text) {
    && t == sign + (integer + (fraction + exponent))
    && (sign == [] || sign == [0x2D]) && IsInt(integer) && IsOptionalFrac(fraction) && IsOptionalExp(exponent)
  }

  /** A maximal run of digits. */
  lemma {:induction false} RunIs(a: Text, b: Text)
    requires (forall i :: 0 <= i < |a| ==> IsDigit(a[i])) && (b == [] || !IsDigit(b[0]))
    ensures DigitRun(a + b) == |a|
  {
    if a == [] {
      assert a + b == b;
    } else {
      RunIs(a[1..], b);
      HeadTail(a, b);
    }
  }

  lemma {:induction false} RunStops(t: Text)
    ensures DigitRun(t) < |t| ==> !IsDigit(t[DigitRun(t)])
  {
    if t != [] && IsDigit(t[0]) {
      RunStops(t[1..]);
    }
  }

  lemma DigitsAreRun(t: Text)
    ensures t != [] && DigitRun(t) == |t| <==> Digits(t)
  {
    if Digits(t) {
      RunIs(t, []);
      assert t + [] == t;
    }
  }

  lemma ExponentIff(t: Text)
    ensures IsExponent(t) <==> IsOptionalExp(t)
  {
    if t != [] {
      DigitsAreRun(t[1..]);
      if |t| > 1 { DigitsAreRun(t[2..]); }
      if |t| > 1 && (t[1] == 0x2B || t[1] == 0x2D) { assert t[1..][0] == t[1]; }
    }
  }

  ghost predicate IsFracExp(t: Text, f: Text, e: Text) {
    t == f + e && IsOptionalFrac(f) && IsOptionalExp(e)
  }

  lemma FractionSplits(t: Text) returns (f: Text, e: Text)
    requires IsFraction(t)
    ensures IsFracExp(t, f, e)
  {
    if t != [] && t[0] == 0x2E {
      var n := DigitRun(t[1..]);
      f, e := t[..1 + n], t[1 + n..];
      ExponentIff(e);
      assert f[1..] == t[1..][..n];
    } else {
      f, e := [], t;
      ExponentIff(t);
    }
  }

  lemma FractionJoins(t: Text, f: Text, e: Text)
    requires IsFracExp(t, f, e)
    ensures IsFraction(t)
  {
    ExponentIff(e);
    if f == [] {
      assert t == e;
    } else {
      HeadTail(f, e);
      RunIs(f[1..], e);
      assert t[1 + (|f| - 1)..] == e;
    }
  }

  lemma UnsignedSplits(t: Text) returns (i: Text, rest: Text)
    requires IsUnsigned(t)
    ensures t == i + rest && IsInt(i) && IsFraction(rest)
  {
    var n := DigitRun(t);
    i, rest := t[..n], t[n..];
    assert i[0] == t[0];
    if t[0] == 0x30 {
      assert i == [0x30];
    }
  }

  lemma UnsignedJoins(i: Text, rest: Text)
    requires IsInt(i) && IsFraction(rest)
    ensures IsUnsigned(i + rest)
  {
    FractionStart(rest);
    RunIs(i, rest);
    assert (i + rest)[|i|..] == rest && (i + rest)[0] == i[0];
  }

  lemma FractionStart(t: Text)
    requires IsFraction(t)
    ensures t == [] || !IsDigit(t[0])
  {
  }

  /** The reader's numbers are those of the grammar. */
  lemma NumberIff(t: Text)
    ensures IsNumber(t) <==>
            exists sign: Text, integer: Text, fraction: Text, exponent: Text ::
              AreParts(t, sign, integer, fraction, exponent)
  {
    if IsNumber(t) {
      var sign := if t[0] == MINUS then [MINUS] else [];
      var u := if t[0] == MINUS then t[1..] else t;
      assert t == sign + u;
      var integer, rest := UnsignedSplits(u);
      var fraction, exponent := FractionSplits(rest);
      assert AreParts(t, sign, integer, fraction, exponent);
    }
    if sign: Text, integer: Text, fraction: Text, exponent: Text :|
      AreParts(t, sign, integer, fraction, exponent)
    {
      var rest := fraction + exponent;
      var u := integer + rest;
      FractionJoins(rest, fraction, exponent);
      UnsignedJoins(integer, rest);
      assert u[0] == integer[0];
      if sign == [] {
        assert t == u;
      } else {
        assert t[1..] == u;
      }
    }
  }

  // ---- White space (section 2) -------------------------------------------------------------

  /** Space, tab, line feed and carriage return in front of a text change nothing, and no other
      unit may stand there unless a value starts with it. */
  lemma SpaceInFront(u: Unit, t: Text)
    ensures u == 0x20 || u == 0x09 || u == 0x0A || u == 0x0D ==> ReadText([u] + t) == ReadText(t)
    ensures ReadText([u] + t).Some? ==>
              || u == 0x20 || u == 0x09 || u == 0x0A || u == 0x0D
              || u in Lit("\"[{-0123456789ntf")
  {
    var s := [u] + t;
    assert s[1..] == t;
    var starts := Lit("\"[{-0123456789ntf");
    assert starts == [0x22, 0x5B, 0x7B, 0x2D, 0x30, 0x31, 0x32, 0x33, 0x34, 0x35, 0x36, 0x37, 0x38, 0x39, 0x6E, 0x74,
                      0x66];
    if ReadText(s).Some? && !IsSpace(u) && u != QUOTE && u != LBRACKET && u != LBRACE {
      LiteralStart(s);
    }
  }

  lemma LiteralStart(s: Text)
    requires s != [] && ReadLiteral(s).Some?
    ensures IsDigit(s[0]) || s[0] == MINUS || s[0] == 0x6E || s[0] == 0x74 || s[0] == 0x66
  {
    if !(NULL <= s) && !(TRUE <= s) && !(FALSE <= s) {
      var n := NumberRun(s);
      NumberUnits(s[..n]);
    }
  }

  // ---- Strings (section 7) ------------------------------------------------------------------

  /** What a character of a string may be: any unit that is no control, quote or backslash, one of
      eight escapes, or four hexadecimal digits of either case behind a u. */
  lemma UnitIff(t: Text, u: Unit, rest: Text)
    requires t != []
    ensures ReadUnit(t) == Some((u, rest)) <==>
            || (t == [u] + rest && u >= 0x20 && u != 0x22 && u != 0x5C)
            || (t == [0x5C, 0x22] + rest && u == 0x22)
            || (t == [0x5C, 0x5C] + rest && u == 0x5C)
            || (t == [0x5C, 0x2F] + rest && u == 0x2F)
            || (t == [0x5C, 0x62] + rest && u == 0x08)
            || (t == [0x5C, 0x66] + rest && u == 0x0C)
            || (t == [0x5C, 0x6E] + rest && u == 0x0A)
            || (t == [0x5C, 0x72] + rest && u == 0x0D)
            || (t == [0x5C, 0x74] + rest && u == 0x09)
            || IsUnicode(t, u, rest)
  {
    if t[0] != BACKSLASH {
      assert t == [t[0]] + t[1..];
    } else if |t| > 1 && t[1] == 0x75 {
      UnicodeIff(t, u, rest);
    } else if |t| > 1 {
      assert t == [t[0], t[1]] + t[2..];
    }
  }

  /** The hexadecimal digit u, in either case, for n. */
  ghost predicate IsHex(u: Unit, n: nat) {
    (n < 10 && u == 0x30 + n) || (10 <= n < 16 && (u == 0x41 + n - 10 || u == 0x61 + n - 10))
  }

  lemma HexIff(u: Unit, n: nat)
    ensures HexValue(u) == Some(n) <==> IsHex(u, n)
  {
  }

  /** A backslash, the letter u and the four hexadecimal digits of u. */
  ghost predicate IsUnicode(t: Text, u: Unit, rest: Text) {
    && |t| >= 6 && t[0] == 0x5C && t[1] == 0x75 && t[6..] == rest
    && exists w: nat, x: nat, y: nat, z: nat ::
         IsHex(t[2], w) && IsHex(t[3], x) && IsHex(t[4], y) && IsHex(t[5], z) &&
         u == w * 0x1000 + x * 0x100 + y * 16 + z
  }

  lemma UnicodeIff(t: Text, u: Unit, rest: Text)
    requires |t| > 1 && t[0] == BACKSLASH && t[1] == 0x75
    ensures ReadUnit(t) == Some((u, rest)) <==> IsUnicode(t, u, rest)
  {
    if ReadUnit(t) == Some((u, rest)) {
      var w, x, y, z := HexValue(t[2]).value, HexValue(t[3]).value, HexValue(t[4]).value, HexValue(t[5]).value;
      HexIff(t[2], w);
      HexIff(t[3], x);
      HexIff(t[4], y);
      HexIff(t[5], z);
    }
    if IsUnicode(t, u, rest) {
      var w: nat, x: nat, y: nat, z: nat :|
        IsHex(t[2], w) && IsHex(t[3], x) && IsHex(t[4], y) && IsHex(t[5], z) &&
        u == w * 0x1000 + x * 0x100 + y * 16 + z;
      HexIff(t[2], w);
      HexIff(t[3], x);
      HexIff(t[4], y);
      HexIff(t[5], z);
    }
  }
}
