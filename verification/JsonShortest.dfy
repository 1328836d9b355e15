/** The printed text is the shortest one: no other well-formed text for a value is shorter, and
    none of the same length spells its escapes in lower case. */
module JsonShortest {
  import opened Wrappers
  import opened Utf16
  import opened Json
  import opened JsonRoundTrip

  predicate IsUpperHex(u: Unit) { 0x41 <= u <= 0x46 }

  /** The digits of every `\u` escape are lower-case. */
  predicate LowerEscapes(t: Text)
    decreases |t|
  {
    if t == [] then true
    else if t[0] != BACKSLASH then LowerEscapes(t[1..])
    else if |t| >= 6 && t[1] == 0x75 then (forall i :: 2 <= i < 6 ==> !IsUpperHex(t[i])) && LowerEscapes(t[6..])
    else |t| < 2 || LowerEscapes(t[2..])
  }

  /** What was read in front of the rest is no shorter than the printed text, and if it is as
      short and has lower-case escapes it is the printed text. */
  ghost predicate NoShorter(s: Text, printed: Text, rest: Text) {
    && |printed| + |rest| <= |s| && WellFormed(rest)
    && (LowerEscapes(s) ==> LowerEscapes(rest) && (|printed| + |rest| == |s| ==> s == printed + rest))
  }

  lemma Chain(s: Text, a: Text, middle: Text, b: Text, rest: Text)
    requires NoShorter(s, a, middle) && NoShorter(middle, b, rest)
    ensures NoShorter(s, a + b, rest)
  {
    Assoc(a, b, rest);
  }

  lemma {:induction false} DropPlain(s: Text, n: nat)
    requires WellFormed(s) && n <= |s| && forall i :: 0 <= i < n ==> s[i] < 0xD800 && s[i] != BACKSLASH
    ensures NoShorter(s, s[..n], s[n..])
    decreases n
  {
    if n > 0 {
      DropPlain(s[1..], n - 1);
      assert s[1..][n - 1..] == s[n..];
    }
    assert s == s[..n] + s[n..];
  }

  lemma {:induction false} DropSpace(s: Text)
    requires WellFormed(s)
    ensures NoShorter(s, [], SkipSpace(s))
    decreases |s|
  {
    if s != [] && IsSpace(s[0]) {
      DropSpace(s[1..]);
    } else {
      assert s == [] + s;
    }
  }

  lemma DropOne(s: Text, c: Unit)
    requires WellFormed(s) && s != [] && s[0] == c && c < 0xD800 && c != BACKSLASH
    ensures NoShorter(s, [c], s[1..])
  {
    assert s == [c] + s[1..];
  }

  // ---- Strings --------------------------------------------------------------------------

  lemma {:induction false} WellFormedDrop(s: Text, n: nat)
    requires WellFormed(s) && n <= |s| && forall i :: 0 <= i < n ==> s[i] < 0xD800
    ensures WellFormed(s[n..])
    decreases n
  {
    if n > 0 {
      WellFormedDrop(s[1..], n - 1);
      assert s[1..][n - 1..] == s[n..];
    }
  }

  lemma HexDigitOf(c: Unit)
    requires HexValue(c).Some? && !IsUpperHex(c)
    ensures HexValue(c).value < 16 && HexDigit(HexValue(c).value) == c
  {
  }

  lemma HexParts(w: nat, x: nat, y: nat, z: nat, u: Unit)
    requires w < 16 && x < 16 && y < 16 && z < 16 && u == w * 0x1000 + x * 0x100 + y * 16 + z
    ensures u / 0x1000 == w && u / 0x100 % 16 == x && u / 16 % 16 == y && u % 16 == z
  {
    HexSplit(u);
    var wx := w * 16 + x;
    var wxy := wx * 16 + y;
    assert u == wxy * 16 + z && u / 16 == wxy;
    assert wxy / 16 == wx && wx / 16 == w;
  }

  lemma LowerHexIsPrinted(a: Unit, b: Unit, c: Unit, d: Unit, u: Unit)
    requires ReadHex(a, b, c, d) == Some(u)
    requires !IsUpperHex(a) && !IsUpperHex(b) && !IsUpperHex(c) && !IsUpperHex(d)
    ensures UnicodeEscape(u) == [BACKSLASH, 0x75, a, b, c, d]
  {
    HexDigitOf(a);
    HexDigitOf(b);
    HexDigitOf(c);
    HexDigitOf(d);
    HexParts(HexValue(a).value, HexValue(b).value, HexValue(c).value, HexValue(d).value, u);
  }

  lemma RawUnit(s: Text)
    requires WellFormed(s) && s != [] && !StartsWithPair(s) && s[0] >= 0x20 && s[0] != QUOTE && s[0] != BACKSLASH
    ensures NoShorter(s, EscapeUnit(s[0]), s[1..])
  {
    assert s == [s[0]] + s[1..];
  }

  lemma SimpleEscapeUnit(s: Text, u: Unit)
    requires WellFormed(s) && |s| > 1 && s[0] == BACKSLASH && SimpleEscape(s[1]) == Some(u)
    ensures NoShorter(s, EscapeUnit(u), s[2..])
  {
    WellFormedDrop(s, 2);
    assert s == s[..2] + s[2..];
  }

  lemma UnicodeEscapeUnit(s: Text, u: Unit)
    requires WellFormed(s) && |s| > 5 && s[0] == BACKSLASH && s[1] == 0x75
    requires ReadHex(s[2], s[3], s[4], s[5]) == Some(u)
    ensures NoShorter(s, EscapeUnit(u), s[6..])
  {
    WellFormedDrop(s, 6);
    assert s == s[..6] + s[6..];
    if LowerEscapes(s) {
      LowerHexIsPrinted(s[2], s[3], s[4], s[5], u);
    }
  }

  lemma OneUnit(s: Text, u: Unit, rest: Text)
    requires WellFormed(s) && s != [] && !StartsWithPair(s) && ReadUnit(s) == Some((u, rest))
    ensures NoShorter(s, EscapeUnit(u), rest)
    ensures IsHigh(u) ==> |rest| + 6 == |s|
  {
    if s[0] != BACKSLASH {
      RawUnit(s);
    } else if s[1] == 0x75 {
      UnicodeEscapeUnit(s, u);
    } else {
      SimpleEscapeUnit(s, u);
    }
  }

  lemma PairUnits(s: Text)
    requires StartsWithPair(s) && WellFormed(s)
    ensures NoShorter(s, s[..2], s[2..])
  {
    assert s == s[..2] + s[2..] && s[1..][1..] == s[2..];
    assert LowerEscapes(s) == LowerEscapes(s[1..]) == LowerEscapes(s[1..][1..]);
  }

  /** Escapes of a pair one by one are longer than the pair. */
  lemma SplitPairIsLonger(t: Text)
    requires StartsWithPair(t)
    ensures EscapeText(t) == t[..2] + EscapeText(t[2..]) && |EscapeText(t[1..])| == 6 + |EscapeText(t[2..])|
  {
    assert t[1..][1..] == t[2..];
  }

  lemma StringStep(s: Text, t: Text, middle: Text, rest: Text)
    requires t != [] && WellFormed(s) && s != [] && !StartsWithPair(s) && ReadUnit(s) == Some((t[0], middle))
    requires NoShorter(middle, EscapeText(t[1..]) + [QUOTE], rest)
    ensures NoShorter(s, EscapeText(t) + [QUOTE], rest)
  {
    OneUnit(s, t[0], middle);
    if StartsWithPair(t) {
      SplitPairIsLonger(t);
    } else {
      Chain(s, EscapeUnit(t[0]), middle, EscapeText(t[1..]) + [QUOTE], rest);
      Assoc(EscapeUnit(t[0]), EscapeText(t[1..]), [QUOTE]);
    }
  }

  lemma PairStep(s: Text, t: Text, rest: Text)
    requires StartsWithPair(s) && WellFormed(s) && StartsWithPair(t) && t[..2] == s[..2]
    requires NoShorter(s[2..], EscapeText(t[2..]) + [QUOTE], rest)
    ensures NoShorter(s, EscapeText(t) + [QUOTE], rest)
  {
    PairUnits(s);
    Chain(s, s[..2], s[2..], EscapeText(t[2..]) + [QUOTE], rest);
    Assoc(s[..2], EscapeText(t[2..]), [QUOTE]);
  }

  lemma {:induction false} StringIsShortest(s: Text, t: Text, rest: Text)
    requires WellFormed(s) && ReadString(s) == Some((t, rest))
    ensures NoShorter(s, EscapeText(t) + [QUOTE], rest)
    decreases |s|
  {
    if s[0] == QUOTE {
      DropOne(s, QUOTE);
      assert EscapeText(t) + [QUOTE] == [QUOTE];
    } else if StartsWithPair(s) {
      var (low, _) := ReadString(s[1..]).value;
      assert s[1..][1..] == s[2..] && s[1..][0] == s[1];
      var (tail, _) := ReadString(s[2..]).value;
      assert t == [s[0]] + ([s[1]] + tail) && t[2..] == tail;
      StringIsShortest(s[2..], tail, rest);
      PairStep(s, t, rest);
    } else {
      var (u, middle) := ReadUnit(s).value;
      var (tail, _) := ReadString(middle).value;
      assert t == [u] + tail && t[1..] == tail;
      OneUnit(s, u, middle);
      StringIsShortest(middle, tail, rest);
      StringStep(s, t, middle, rest);
    }
  }

  lemma QuotedIsShortest(s: Text, t: Text, rest: Text)
    requires WellFormed(s) && s != [] && s[0] == QUOTE && ReadString(s[1..]) == Some((t, rest))
    ensures NoShorter(s, Quote(t), rest)
  {
    DropOne(s, QUOTE);
    StringIsShortest(s[1..], t, rest);
    Chain(s, [QUOTE], s[1..], EscapeText(t) + [QUOTE], rest);
    Assoc([QUOTE], EscapeText(t), [QUOTE]);
  }

  // ---- Values ---------------------------------------------------------------------------

  lemma LiteralIsShortest(s: Text, v: Json, rest: Text)
    requires WellFormed(s) && ReadLiteral(s) == Some((v, rest))
    ensures NoShorter(s, Stringify(v), rest)
  {
    var n := |s| - |rest|;
    if !(NULL <= s) && !(TRUE <= s) && !(FALSE <= s) {
      NumberRunUnits(s);
    }
    DropPlain(s, n);
  }

  lemma {:induction false} NumberRunUnits(s: Text)
    ensures forall i :: 0 <= i < NumberRun(s) ==> IsNumberUnit(s[i])
  {
    if s != [] && IsNumberUnit(s[0]) {
      NumberRunUnits(s[1..]);
      assert forall i :: 0 < i < NumberRun(s) ==> s[i] == s[1..][i - 1];
    }
  }

  /** White space, then a character. */
  lemma SpacedOne(s: Text, c: Unit)
    requires WellFormed(s) && SkipSpace(s) != [] && SkipSpace(s)[0] == c && c < 0xD800 && c != BACKSLASH
    ensures NoShorter(s, [c], SkipSpace(s)[1..])
  {
    DropSpace(s);
    DropOne(SkipSpace(s), c);
    Chain(s, [], SkipSpace(s), [c], SkipSpace(s)[1..]);
    assert [] + [c] == [c];
  }

  /** An opening and, after white space, what follows it. */
  lemma Opened(s: Text, open: Unit, inner: Text, rest: Text)
    requires WellFormed(s) && s != [] && s[0] == open && open < 0xD800 && open != BACKSLASH
    requires NoShorter(SkipSpace(s[1..]), inner, rest)
    ensures NoShorter(s, [open] + inner, rest)
  {
    DropOne(s, open);
    DropSpace(s[1..]);
    Chain(s[1..], [], SkipSpace(s[1..]), inner, rest);
    assert [] + inner == inner;
    Chain(s, [open], s[1..], inner, rest);
  }

  lemma Spaced(s: Text, printed: Text, rest: Text)
    requires WellFormed(s) && NoShorter(SkipSpace(s), printed, rest)
    ensures NoShorter(s, printed, rest)
  {
    DropSpace(s);
    Chain(s, [], SkipSpace(s), printed, rest);
    assert [] + printed == printed;
  }

  lemma Three(s: Text, a: Text, b: Text, c: Text, middle: Text, last: Text, rest: Text)
    requires NoShorter(s, a, middle) && NoShorter(middle, b, last) && NoShorter(last, c, rest)
    ensures NoShorter(s, a + b + c, rest)
  {
    Chain(s, a, middle, b, last);
    Chain(s, a + b, last, c, rest);
  }

  lemma {:induction false} ValueIsShortest(t: Text, v: Json, rest: Text)
    requires WellFormed(t) && ReadValue(t) == Some((v, rest))
    ensures NoShorter(t, Stringify(v), rest)
    decreases |t|, 1
  {
    var s := SkipSpace(t);
    DropSpace(t);
    if s[0] == QUOTE {
      QuotedIsShortest(s, v.s, rest);
    } else if s[0] == LBRACKET {
      ArrayIsShortest(s, v, rest);
    } else if s[0] == LBRACE {
      ObjectIsShortest(s, v, rest);
    } else {
      LiteralIsShortest(s, v, rest);
    }
    Spaced(t, Stringify(v), rest);
  }

  lemma ReadArray(s: Text, v: Json, rest: Text)
    requires s != [] && s[0] == LBRACKET && SkipSpace(s) == s && ReadValue(s) == Some((v, rest))
    ensures var inner := SkipSpace(s[1..]);
            && inner != [] && v.Arr?
            && if inner[0] == RBRACKET then v.items == [] && rest == inner[1..]
               else ReadItems(inner) == Some((v.items, rest))
  {
  }

  lemma ReadObject(s: Text, v: Json, rest: Text)
    requires s != [] && s[0] == LBRACE && SkipSpace(s) == s && ReadValue(s) == Some((v, rest))
    ensures var inner := SkipSpace(s[1..]);
            && inner != [] && v.Obj?
            && if inner[0] == RBRACE then v.members == [] && rest == inner[1..]
               else ReadMembers(inner) == Some((v.members, rest))
  {
  }

  lemma {:induction false} ArrayIsShortest(s: Text, v: Json, rest: Text)
    requires WellFormed(s) && s != [] && s[0] == LBRACKET && SkipSpace(s) == s && ReadValue(s) == Some((v, rest))
    ensures NoShorter(s, Stringify(v), rest)
    decreases |s|, 0
  {
    var inner := SkipSpace(s[1..]);
    ReadArray(s, v, rest);
    DropOne(s, LBRACKET);
    DropSpace(s[1..]);
    if inner[0] == RBRACKET {
      DropOne(inner, RBRACKET);
      Opened(s, LBRACKET, [RBRACKET], rest);
      assert [LBRACKET] + [] + [RBRACKET] == [LBRACKET] + [RBRACKET];
    } else {
      ItemsAreShortest(inner, v.items, rest);
      Opened(s, LBRACKET, StringifyItems(v.items) + [RBRACKET], rest);
      Assoc([LBRACKET], StringifyItems(v.items), [RBRACKET]);
    }
  }

  lemma {:induction false} ObjectIsShortest(s: Text, v: Json, rest: Text)
    requires WellFormed(s) && s != [] && s[0] == LBRACE && SkipSpace(s) == s && ReadValue(s) == Some((v, rest))
    ensures NoShorter(s, Stringify(v), rest)
    decreases |s|, 0
  {
    var inner := SkipSpace(s[1..]);
    ReadObject(s, v, rest);
    DropOne(s, LBRACE);
    DropSpace(s[1..]);
    if inner[0] == RBRACE {
      DropOne(inner, RBRACE);
      Opened(s, LBRACE, [RBRACE], rest);
      assert [LBRACE] + [] + [RBRACE] == [LBRACE] + [RBRACE];
    } else {
      MembersAreShortest(inner, v.members, rest);
      Opened(s, LBRACE, StringifyMembers(v.members) + [RBRACE], rest);
      Assoc([LBRACE], StringifyMembers(v.members), [RBRACE]);
    }
  }

  lemma ItemsText(items: seq<Json>)
    requires items != []
    ensures StringifyItems(items) + [RBRACKET] ==
            if |items| == 1 then Stringify(items[0]) + [RBRACKET]
            else Stringify(items[0]) + [COMMA] + (StringifyItems(items[1..]) + [RBRACKET])
  {
    if |items| > 1 {
      Assoc(Stringify(items[0]) + [COMMA], StringifyItems(items[1..]), [RBRACKET]);
    }
  }

  lemma {:induction false} ItemsAreShortest(t: Text, items: seq<Json>, rest: Text)
    requires WellFormed(t) && ReadItems(t) == Some((items, rest))
    ensures NoShorter(t, StringifyItems(items) + [RBRACKET], rest)
    decreases |t|, 2
  {
    var (v, after) := ReadValue(t).value;
    var s := SkipSpace(after);
    ValueIsShortest(t, v, after);
    ItemsText(items);
    if s[0] == RBRACKET {
      SpacedOne(after, RBRACKET);
      Chain(t, Stringify(v), after, [RBRACKET], rest);
    } else {
      SpacedOne(after, COMMA);
      var (more, _) := ReadItems(s[1..]).value;
      assert items == [v] + more && items[1..] == more;
      ItemsAreShortest(s[1..], more, rest);
      Three(t, Stringify(v), [COMMA], StringifyItems(more) + [RBRACKET], after, s[1..], rest);
      ItemsNonEmpty(s[1..]);
    }
  }

  lemma ItemsNonEmpty(t: Text)
    ensures ReadItems(t).Some? ==> ReadItems(t).value.0 != []
    ensures ReadMembers(t).Some? ==> ReadMembers(t).value.0 != []
  {
  }

  lemma MembersText(members: seq<Member>)
    requires members != []
    ensures StringifyMembers(members) + [RBRACE] ==
            if |members| == 1 then StringifyMember(members[0]) + [RBRACE]
            else StringifyMember(members[0]) + [COMMA] + (StringifyMembers(members[1..]) + [RBRACE])
  {
    if |members| > 1 {
      Assoc(StringifyMember(members[0]) + [COMMA], StringifyMembers(members[1..]), [RBRACE]);
    }
  }

  lemma {:induction false} MemberIsShortest(t: Text, m: Member, rest: Text)
    requires WellFormed(t) && ReadMember(t) == Some((m, rest))
    ensures NoShorter(t, StringifyMember(m), rest)
    decreases |t|, 2
  {
    var s := SkipSpace(t);
    var (key, after) := ReadString(s[1..]).value;
    var c := SkipSpace(after);
    DropSpace(t);
    QuotedIsShortest(s, key, after);
    SpacedOne(after, COLON);
    ValueIsShortest(c[1..], m.value, rest);
    Three(s, Quote(key), [COLON], Stringify(m.value), after, c[1..], rest);
    Spaced(t, StringifyMember(m), rest);
  }

  lemma {:induction false} MembersAreShortest(t: Text, members: seq<Member>, rest: Text)
    requires WellFormed(t) && ReadMembers(t) == Some((members, rest))
    ensures NoShorter(t, StringifyMembers(members) + [RBRACE], rest)
    decreases |t|, 3
  {
    var (m, after) := ReadMember(t).value;
    var s := SkipSpace(after);
    MemberIsShortest(t, m, after);
    MembersText(members);
    if s[0] == RBRACE {
      SpacedOne(after, RBRACE);
      Chain(t, StringifyMember(m), after, [RBRACE], rest);
    } else {
      SpacedOne(after, COMMA);
      var (more, _) := ReadMembers(s[1..]).value;
      assert members == [m] + more && members[1..] == more;
      MembersAreShortest(s[1..], more, rest);
      Three(t, StringifyMember(m), [COMMA], StringifyMembers(more) + [RBRACE], after, s[1..], rest);
      ItemsNonEmpty(s[1..]);
    }
  }

  // ---- The printed text has lower-case escapes itself --------------------------------------------

  /** Nothing inside the text reaches over its end. */
  ghost predicate Joins(a: Text) {
    forall b :: LowerEscapes(a + b) == LowerEscapes(b)
  }

  lemma JoinsBoth(a: Text, b: Text)
    requires Joins(a) && Joins(b)
    ensures Joins(a + b)
  {
    forall c ensures LowerEscapes(a + b + c) == LowerEscapes(c) {
      Assoc(a, b, c);
      assert LowerEscapes(a + (b + c)) == LowerEscapes(b + c);
    }
  }

  lemma {:induction false} PlainJoins(a: Text)
    requires forall i :: 0 <= i < |a| ==> a[i] != BACKSLASH
    ensures Joins(a)
  {
    forall b ensures LowerEscapes(a + b) == LowerEscapes(b) {
      if a == [] {
        assert a + b == b;
      } else {
        PlainJoins(a[1..]);
        HeadTail(a, b);
      }
    }
  }

  lemma EscapeUnitJoins(u: Unit)
    ensures Joins(EscapeUnit(u))
  {
    var e := EscapeUnit(u);
    forall b ensures LowerEscapes(e + b) == LowerEscapes(b) {
      assert (e + b)[|e|..] == b;
    }
  }

  lemma {:induction false} EscapeTextJoins(t: Text)
    ensures Joins(EscapeText(t))
    decreases |t|
  {
    if t == [] {
      PlainJoins([]);
    } else if StartsWithPair(t) {
      PlainJoins(t[..2]);
      EscapeTextJoins(t[2..]);
      JoinsBoth(t[..2], EscapeText(t[2..]));
    } else {
      EscapeUnitJoins(t[0]);
      EscapeTextJoins(t[1..]);
      JoinsBoth(EscapeUnit(t[0]), EscapeText(t[1..]));
    }
  }

  lemma WrapJoins(open: Unit, t: Text, close: Unit)
    requires open != BACKSLASH && close != BACKSLASH && Joins(t)
    ensures Joins([open] + t + [close])
  {
    PlainJoins([open]);
    PlainJoins([close]);
    JoinsBoth([open], t);
    JoinsBoth([open] + t, [close]);
  }

  lemma SeparatedJoins(a: Text, separator: Unit, b: Text)
    requires separator != BACKSLASH && Joins(a) && Joins(b)
    ensures Joins(a + [separator] + b)
  {
    PlainJoins([separator]);
    JoinsBoth(a, [separator]);
    JoinsBoth(a + [separator], b);
  }

  lemma QuoteJoins(t: Text)
    ensures Joins(Quote(t))
  {
    EscapeTextJoins(t);
    WrapJoins(QUOTE, EscapeText(t), QUOTE);
  }

  lemma {:induction false} StringifyJoins(v: Json)
    requires Tidy(v)
    ensures Joins(Stringify(v))
    decreases v, 1
  {
    match v
    case Num(text) =>
      NumberUnits(text);
      PlainJoins(text);
    case Str(s) => QuoteJoins(s);
    case Arr(items) =>
      ItemsJoin(items);
      WrapJoins(LBRACKET, StringifyItems(items), RBRACKET);
    case Obj(members) =>
      MembersJoin(members);
      WrapJoins(LBRACE, StringifyMembers(members), RBRACE);
    case _ => PlainJoins(Stringify(v));
  }

  lemma {:induction false} ItemsJoin(items: seq<Json>)
    requires forall i :: 0 <= i < |items| ==> Tidy(items[i])
    ensures Joins(StringifyItems(items))
    decreases items, 0
  {
    if items == [] {
      PlainJoins([]);
    } else {
      StringifyJoins(items[0]);
      ItemsJoin(items[1..]);
      SeparatedJoins(Stringify(items[0]), COMMA, StringifyItems(items[1..]));
    }
  }

  lemma {:induction false} MembersJoin(members: seq<Member>)
    requires forall i :: 0 <= i < |members| ==> Tidy(members[i].value)
    ensures Joins(StringifyMembers(members))
    decreases members, 0
  {
    if members == [] {
      PlainJoins([]);
    } else {
      var m := members[0];
      QuoteJoins(m.key);
      StringifyJoins(m.value);
      SeparatedJoins(Quote(m.key), COLON, Stringify(m.value));
      MembersJoin(members[1..]);
      SeparatedJoins(StringifyMember(m), COMMA, StringifyMembers(members[1..]));
    }
  }

  // ---- The printed text among all texts ------------------------------------------------------------

  /** What a text for the value may be: well-formed UTF-16 that parses to it. */
  ghost predicate IsTextOf(t: Text, v: Json) {
    WellFormed(t) && ReadText(t) == Some(v)
  }

  /** The printed text of a value is the one text for it that is no longer than any other and
      spells its escapes in lower case. */
  lemma StringifyIsShortest(v: Json, t: Text)
    requires Tidy(v)
    ensures IsTextOf(Stringify(v), v) && LowerEscapes(Stringify(v))
    ensures IsTextOf(t, v) ==> |Stringify(v)| <= |t|
    ensures IsTextOf(t, v) && |t| == |Stringify(v)| && LowerEscapes(t) ==> t == Stringify(v)
  {
    ReadTextStringify(v);
    StringifyWellFormed(v);
    StringifyJoins(v);
    assert Stringify(v) + [] == Stringify(v);
    if IsTextOf(t, v) {
      var (_, rest) := ReadValue(t).value;
      ValueIsShortest(t, v, rest);
    }
  }
}
