/** The parser reads back exactly what `JSON.stringify` prints, so printing loses nothing. */
module JsonRoundTrip {
  import opened Wrappers
  import opened Utf16
  import opened Json

  /** What may follow a value inside a printed text. */
  predicate Stops(rest: Text) {
    rest == [] || rest[0] == COMMA || rest[0] == RBRACKET || rest[0] == RBRACE || IsSpace(rest[0])
  }

  // ---- Strings --------------------------------------------------------------------------

  lemma HexDigitValue(n: nat)
    requires n < 16
    ensures HexValue(HexDigit(n)) == Some(n)
  {
  }

  lemma HexSplit(u: Unit)
    ensures u / 0x100 / 16 == u / 0x1000 && u / 16 / 16 == u / 0x100
    ensures u / 0x1000 * 0x1000 + u / 0x100 % 16 * 0x100 + u / 16 % 16 * 16 + u % 16 == u
  {
    assert u / 16 / 16 == u / 0x100;
    assert u / 0x100 / 16 == u / 0x1000;
    assert u == u / 16 * 16 + u % 16;
    assert u / 16 == u / 0x100 * 16 + u / 16 % 16;
    assert u / 0x100 == u / 0x1000 * 16 + u / 0x100 % 16;
  }

  lemma ReadHexOf(w: nat, x: nat, y: nat, z: nat, u: Unit)
    requires w < 16 && x < 16 && y < 16 && z < 16
    requires u == w * 0x1000 + x * 0x100 + y * 16 + z
    ensures ReadHex(HexDigit(w), HexDigit(x), HexDigit(y), HexDigit(z)) == Some(u)
  {
    HexDigitValue(w);
    HexDigitValue(x);
    HexDigitValue(y);
    HexDigitValue(z);
  }

  lemma ReadUnicode(a: Unit, b: Unit, c: Unit, d: Unit, u: Unit, rest: Text)
    requires ReadHex(a, b, c, d) == Some(u)
    ensures ReadUnit([BACKSLASH, 0x75, a, b, c, d] + rest) == Some((u, rest))
  {
    var t := [BACKSLASH, 0x75, a, b, c, d] + rest;
    assert t[6..] == rest;
  }

  lemma ReadEscapedUnit(u: Unit, rest: Text)
    ensures ReadUnit(EscapeUnit(u) + rest) == Some((u, rest))
    ensures EscapeUnit(u)[0] != QUOTE
  {
    var t := EscapeUnit(u) + rest;
    if EscapeUnit(u) == UnicodeEscape(u) {
      HexSplit(u);
      ReadHexOf(u / 0x1000, u / 0x100 % 16, u / 16 % 16, u % 16, u);
      ReadUnicode(HexDigit(u / 0x1000), HexDigit(u / 0x100 % 16), HexDigit(u / 16 % 16), HexDigit(u % 16), u, rest);
    } else if |EscapeUnit(u)| == 2 {
      assert t[2..] == rest;
    } else {
      assert t[1..] == rest;
    }
  }

  lemma ReadStringStep(t: Text, u: Unit, after: Text, s: Text, rest: Text)
    requires t != [] && t[0] != QUOTE
    requires ReadUnit(t) == Some((u, after)) && ReadString(after) == Some((s, rest))
    ensures ReadString(t) == Some(([u] + s, rest))
  {
  }

  lemma ReadPair(s: Text, after: Text, tail: Text, rest: Text)
    requires StartsWithPair(s) && ReadString(after) == Some((tail, rest))
    ensures ReadString(s[..2] + after) == Some((s[..2] + tail, rest))
  {
    var t := s[..2] + after;
    assert t[1..] == [s[1]] + after;
    assert t[1..][1..] == after;
    ReadStringStep(t[1..], s[1], after, tail, rest);
    ReadStringStep(t, s[0], t[1..], [s[1]] + tail, rest);
    assert s[..2] + tail == [s[0]] + ([s[1]] + tail);
  }

  lemma ReadEscaped(u: Unit, after: Text, tail: Text, rest: Text)
    requires ReadString(after) == Some((tail, rest))
    ensures ReadString(EscapeUnit(u) + after) == Some(([u] + tail, rest))
  {
    ReadEscapedUnit(u, after);
    ReadStringStep(EscapeUnit(u) + after, u, after, tail, rest);
  }

  lemma EscapeStep(s: Text, tail: Text)
    requires s != []
    ensures EscapeText(s) + tail ==
            if StartsWithPair(s) then s[..2] + (EscapeText(s[2..]) + tail)
            else EscapeUnit(s[0]) + (EscapeText(s[1..]) + tail)
  {
  }

  lemma {:induction false} ReadEscapedText(s: Text, tail: Text)
    requires tail != [] && tail[0] == QUOTE
    ensures ReadString(EscapeText(s) + tail) == Some((s, tail[1..]))
    decreases |s|
  {
    if s == [] {
      assert EscapeText(s) + tail == tail;
    } else {
      EscapeStep(s, tail);
      if StartsWithPair(s) {
        var after := EscapeText(s[2..]) + tail;
        ReadEscapedText(s[2..], tail);
        ReadPair(s, after, s[2..], tail[1..]);
        assert s == s[..2] + s[2..];
      } else {
        var after := EscapeText(s[1..]) + tail;
        ReadEscapedText(s[1..], tail);
        ReadEscaped(s[0], after, s[1..], tail[1..]);
        assert s == [s[0]] + s[1..];
      }
    }
  }

  lemma ReadQuoted(s: Text, rest: Text)
    ensures (Quote(s) + rest)[0] == QUOTE
    ensures ReadString((Quote(s) + rest)[1..]) == Some((s, rest))
  {
    var tail := [QUOTE] + rest;
    ReadEscapedText(s, tail);
    assert tail[1..] == rest;
    assert (Quote(s) + rest)[1..] == EscapeText(s) + tail;
  }

  // ---- Numbers --------------------------------------------------------------------------

  lemma StopIsNoNumber(u: Unit)
    requires Stops([u])
    ensures !IsNumberUnit(u)
  {
    assert [u][0] == u;
  }

  lemma {:induction false} NumberRunStops(t: Text, rest: Text)
    requires AllNumberUnits(t) && Stops(rest)
    ensures NumberRun(t + rest) == |t|
    decreases |t|
  {
    if t == [] {
      assert t + rest == rest;
      if rest != [] { StopIsNoNumber(rest[0]); }
    } else {
      NumberRunStops(t[1..], rest);
      assert (t + rest)[1..] == t[1..] + rest;
    }
  }

  lemma ReadLiteralNumber(t: Text, rest: Text)
    requires IsNumber(t) && t != [] && AllNumberUnits(t) && Stops(rest)
    ensures ReadLiteral(t + rest) == Some((Num(t), rest))
  {
    NumberRunStops(t, rest);
    var s := t + rest;
    assert s[0] == t[0] && IsNumberUnit(s[0]);
    assert s[..|t|] == t && s[|t|..] == rest;
  }

  lemma ReadNumber(t: Text, rest: Text)
    requires IsNumber(t) && Stops(rest)
    ensures ReadValue(t + rest) == Some((Num(t), rest))
  {
    NumberUnits(t);
    ReadLiteralNumber(t, rest);
    var s := t + rest;
    assert s[0] == t[0] && SkipSpace(s) == s;
  }

  // ---- Values ---------------------------------------------------------------------------

  lemma StringifyStart(v: Json)
    requires Tidy(v)
    ensures Stringify(v) != []
    ensures !IsSpace(Stringify(v)[0]) && Stringify(v)[0] != RBRACKET
  {
    if v.Num? {
      NumberUnits(v.text);
    }
  }

  lemma ReadKeyword(v: Json, rest: Text)
    requires v.Null? || v.Bool?
    ensures ReadValue(Stringify(v) + rest) == Some((v, rest))
  {
    var k := Stringify(v);
    var s := k + rest;
    assert s[0] == k[0] && SkipSpace(s) == s;
    assert s[..|k|] == k && s[|k|..] == rest;
  }

  lemma ReadStr(text: Text, rest: Text)
    ensures ReadValue(Quote(text) + rest) == Some((Str(text), rest))
  {
    ReadQuoted(text, rest);
    var s := Quote(text) + rest;
    assert SkipSpace(s) == s;
  }

  lemma ReadBracketed(open: Unit, inner: Text)
    requires inner != [] && SkipSpace(inner) == inner
    ensures open == LBRACKET && inner[0] == RBRACKET ==>
              ReadValue([open] + inner) == Some((Arr([]), inner[1..]))
    ensures open == LBRACE && inner[0] == RBRACE ==>
              ReadValue([open] + inner) == Some((Obj([]), inner[1..]))
    ensures open == LBRACKET && inner[0] != RBRACKET && ReadItems(inner).Some? ==>
              ReadValue([open] + inner) == Some((Arr(ReadItems(inner).value.0), ReadItems(inner).value.1))
    ensures open == LBRACE && inner[0] != RBRACE && ReadMembers(inner).Some? ==>
              ReadValue([open] + inner) == Some((Obj(ReadMembers(inner).value.0), ReadMembers(inner).value.1))
  {
    var s := [open] + inner;
    assert s[1..] == inner;
  }

  lemma StringifyOpen(v: Json, rest: Text)
    ensures v.Arr? ==> Stringify(v) + rest == [LBRACKET] + (StringifyItems(v.items) + ([RBRACKET] + rest))
    ensures v.Obj? ==> Stringify(v) + rest == [LBRACE] + (StringifyMembers(v.members) + ([RBRACE] + rest))
  {
  }

  lemma {:induction false} ReadStringify(v: Json, rest: Text)
    requires Tidy(v) && Stops(rest)
    ensures ReadValue(Stringify(v) + rest) == Some((v, rest))
    decreases v, 1
  {
    match v
    case Null => ReadKeyword(v, rest);
    case Bool(b) => ReadKeyword(v, rest);
    case Num(text) => ReadNumber(text, rest);
    case Str(text) => ReadStr(text, rest);
    case Arr(items) => ReadStringifyArr(items, rest);
    case Obj(members) => ReadStringifyObj(members, rest);
  }

  lemma {:induction false} ReadStringifyArr(items: seq<Json>, rest: Text)
    requires forall i :: 0 <= i < |items| ==> Tidy(items[i])
    ensures ReadValue(Stringify(Arr(items)) + rest) == Some((Arr(items), rest))
    decreases items, 1
  {
    var tail := [RBRACKET] + rest;
    var inner := StringifyItems(items) + tail;
    assert tail[1..] == rest;
    if items == [] {
      assert inner == tail;
    } else {
      ReadStringifyItems(items, tail);
      ItemsStart(items, tail);
    }
    ReadBracketed(LBRACKET, inner);
    StringifyOpen(Arr(items), rest);
  }

  lemma {:induction false} ReadStringifyObj(members: seq<Member>, rest: Text)
    requires forall i :: 0 <= i < |members| ==> Tidy(members[i].value)
    ensures ReadValue(Stringify(Obj(members)) + rest) == Some((Obj(members), rest))
    decreases members, 1
  {
    var tail := [RBRACE] + rest;
    var inner := StringifyMembers(members) + tail;
    assert tail[1..] == rest;
    if members == [] {
      assert inner == tail;
    } else {
      ReadStringifyMembers(members, tail);
      MembersStart(members, tail);
    }
    ReadBracketed(LBRACE, inner);
    StringifyOpen(Obj(members), rest);
  }

  lemma Reassociate(a: Text, b: Text, c: Text, d: Text)
    ensures a + b + c + d == a + (b + (c + d))
  {
  }

  lemma ItemsStep(items: seq<Json>, tail: Text)
    requires |items| > 1
    ensures StringifyItems(items) + tail == Stringify(items[0]) + ([COMMA] + (StringifyItems(items[1..]) + tail))
  {
    Reassociate(Stringify(items[0]), [COMMA], StringifyItems(items[1..]), tail);
  }

  lemma ReadItemsStep(t: Text, v: Json, after: Text)
    requires ReadValue(t) == Some((v, after)) && after != []
    ensures after[0] == RBRACKET ==> ReadItems(t) == Some(([v], after[1..]))
    ensures after[0] == COMMA && ReadItems(after[1..]).Some? ==>
              var (items, rest) := ReadItems(after[1..]).value;
              ReadItems(t) == Some(([v] + items, rest))
  {
  }

  lemma ItemsStart(items: seq<Json>, tail: Text)
    requires items != [] && Tidy(items[0])
    ensures var t := StringifyItems(items) + tail;
            t != [] && SkipSpace(t) == t && t[0] != RBRACKET
  {
    StringifyStart(items[0]);
    assert (StringifyItems(items) + tail)[0] == Stringify(items[0])[0];
  }

  lemma ReadItemsCons(t: Text, items: seq<Json>, next: Text, rest: Text)
    requires |items| > 1 && ReadValue(t) == Some((items[0], [COMMA] + next))
    requires ReadItems(next) == Some((items[1..], rest))
    ensures ReadItems(t) == Some((items, rest))
  {
    assert ([COMMA] + next)[1..] == next;
    ReadItemsStep(t, items[0], [COMMA] + next);
    assert items == [items[0]] + items[1..];
  }

  lemma {:induction false} ReadStringifyItems(items: seq<Json>, tail: Text)
    requires items != [] && forall i :: 0 <= i < |items| ==> Tidy(items[i])
    requires tail != [] && tail[0] == RBRACKET
    ensures ReadItems(StringifyItems(items) + tail) == Some((items, tail[1..]))
    decreases items, 0
  {
    var t := StringifyItems(items) + tail;
    if |items| == 1 {
      ReadStringify(items[0], tail);
      ReadItemsStep(t, items[0], tail);
      assert items == [items[0]];
    } else {
      var next := StringifyItems(items[1..]) + tail;
      ItemsStep(items, tail);
      ReadStringify(items[0], [COMMA] + next);
      ReadStringifyItems(items[1..], tail);
      ReadItemsCons(t, items, next, tail[1..]);
    }
  }

  lemma MemberShape(m: Member, rest: Text)
    ensures StringifyMember(m) + rest == Quote(m.key) + ([COLON] + (Stringify(m.value) + rest))
    ensures (StringifyMember(m) + rest)[0] == QUOTE
  {
  }

  lemma ReadMemberStep(t: Text, key: Text, after: Text, v: Json, rest: Text)
    requires t != [] && t[0] == QUOTE && ReadString(t[1..]) == Some((key, after))
    requires after != [] && after[0] == COLON && ReadValue(after[1..]) == Some((v, rest))
    ensures ReadMember(t) == Some((Member(key, v), rest))
  {
  }

  lemma {:induction false} ReadStringifyMember(m: Member, rest: Text)
    requires Tidy(m.value) && Stops(rest)
    ensures ReadMember(StringifyMember(m) + rest) == Some((m, rest))
    decreases m, 2
  {
    var value := Stringify(m.value) + rest;
    var after := [COLON] + value;
    MemberShape(m, rest);
    ReadQuoted(m.key, after);
    assert after[1..] == value;
    ReadStringify(m.value, rest);
    ReadMemberStep(StringifyMember(m) + rest, m.key, after, m.value, rest);
  }

  lemma MembersStep(members: seq<Member>, tail: Text)
    requires |members| > 1
    ensures StringifyMembers(members) + tail ==
            StringifyMember(members[0]) + ([COMMA] + (StringifyMembers(members[1..]) + tail))
  {
    Reassociate(StringifyMember(members[0]), [COMMA], StringifyMembers(members[1..]), tail);
  }

  lemma ReadMembersStep(t: Text, m: Member, after: Text)
    requires ReadMember(t) == Some((m, after)) && after != []
    ensures after[0] == RBRACE ==> ReadMembers(t) == Some(([m], after[1..]))
    ensures after[0] == COMMA && ReadMembers(after[1..]).Some? ==>
              var (members, rest) := ReadMembers(after[1..]).value;
              ReadMembers(t) == Some(([m] + members, rest))
  {
  }

  lemma MembersStart(members: seq<Member>, tail: Text)
    requires members != []
    ensures var t := StringifyMembers(members) + tail;
            t != [] && SkipSpace(t) == t && t[0] != RBRACE
  {
    var head := StringifyMember(members[0]);
    assert head != [] && head[0] == QUOTE;
    assert head <= StringifyMembers(members);
    assert (StringifyMembers(members) + tail)[0] == head[0];
  }

  lemma ReadMembersCons(t: Text, members: seq<Member>, next: Text, rest: Text)
    requires |members| > 1 && ReadMember(t) == Some((members[0], [COMMA] + next))
    requires ReadMembers(next) == Some((members[1..], rest))
    ensures ReadMembers(t) == Some((members, rest))
  {
    assert ([COMMA] + next)[1..] == next;
    ReadMembersStep(t, members[0], [COMMA] + next);
    assert members == [members[0]] + members[1..];
  }

  lemma {:induction false} ReadStringifyMembers(members: seq<Member>, tail: Text)
    requires members != [] && forall i :: 0 <= i < |members| ==> Tidy(members[i].value)
    requires tail != [] && tail[0] == RBRACE
    ensures ReadMembers(StringifyMembers(members) + tail) == Some((members, tail[1..]))
    decreases members, 0
  {
    var t := StringifyMembers(members) + tail;
    if |members| == 1 {
      ReadStringifyMember(members[0], tail);
      ReadMembersStep(t, members[0], tail);
      assert members == [members[0]];
    } else {
      var next := StringifyMembers(members[1..]) + tail;
      MembersStep(members, tail);
      ReadStringifyMember(members[0], [COMMA] + next);
      ReadStringifyMembers(members[1..], tail);
      ReadMembersCons(t, members, next, tail[1..]);
    }
  }

  /** The grammar reads a printed value back, member order included. */
  lemma ReadTextStringify(v: Json)
    requires Tidy(v)
    ensures ReadText(Stringify(v)) == Some(v)
  {
    ReadStringify(v, []);
    assert Stringify(v) + [] == Stringify(v);
  }

  /** Behind a whole value only white space may follow. */
  lemma OnlySpaceFollows(v: Json, rest: Text)
    requires Tidy(v) && Stops(rest)
    ensures ReadText(Stringify(v) + rest) == if forall i :: 0 <= i < |rest| ==> IsSpace(rest[i]) then Some(v) else None
  {
    ReadStringify(v, rest);
    SkipsAllIff(rest);
  }

  lemma {:induction false} SkipsAllIff(t: Text)
    ensures SkipSpace(t) == [] <==> forall i :: 0 <= i < |t| ==> IsSpace(t[i])
  {
    if t != [] && IsSpace(t[0]) {
      SkipsAllIff(t[1..]);
      assert forall i :: 0 < i < |t| ==> t[i] == t[1..][i - 1];
      if forall i :: 0 <= i < |t| ==> IsSpace(t[i]) {
        assert forall i :: 0 <= i < |t[1..]| ==> t[1..][i] == t[i + 1];
      }
    }
  }

  /** Two values with the same text are the same value, member order included. */
  lemma StringifyInjective(a: Json, b: Json)
    requires Tidy(a) && Tidy(b)
    ensures Stringify(a) == Stringify(b) <==> a == b
  {
    ReadTextStringify(a);
    ReadTextStringify(b);
  }

  // ---- The printed text is well-formed UTF-16 ---------------------------------------------

  lemma {:induction false} EscapeTextWellFormed(s: Text)
    ensures WellFormed(EscapeText(s))
    decreases |s|
  {
    if s == [] {
    } else if StartsWithPair(s) {
      EscapeTextWellFormed(s[2..]);
      assert WellFormed(s[..2]) by { assert s[..2][2..] == []; }
      WellFormedConcat(s[..2], EscapeText(s[2..]));
    } else {
      EscapeTextWellFormed(s[1..]);
      var e := EscapeUnit(s[0]);
      if |e| > 1 {
        PlainIsWellFormed(e);
      } else {
        assert e[1..] == [];
      }
      WellFormedConcat(e, EscapeText(s[1..]));
    }
  }

  lemma WrapWellFormed(open: Unit, t: Text, close: Unit)
    requires open < 0xD800 && close < 0xD800 && WellFormed(t)
    ensures WellFormed([open] + t + [close])
  {
    PlainIsWellFormed([open]);
    PlainIsWellFormed([close]);
    WellFormedConcat([open], t);
    WellFormedConcat([open] + t, [close]);
  }

  lemma JoinWellFormed(a: Text, separator: Unit, b: Text)
    requires separator < 0xD800 && WellFormed(a) && WellFormed(b)
    ensures WellFormed(a + [separator] + b)
  {
    PlainIsWellFormed([separator]);
    WellFormedConcat(a, [separator]);
    WellFormedConcat(a + [separator], b);
  }

  lemma QuoteWellFormed(s: Text)
    ensures WellFormed(Quote(s))
  {
    EscapeTextWellFormed(s);
    WrapWellFormed(QUOTE, EscapeText(s), QUOTE);
  }

  /** Lone surrogates never reach the printed text, whatever strings the value holds. */
  lemma {:induction false} StringifyWellFormed(v: Json)
    requires Tidy(v)
    ensures WellFormed(Stringify(v))
    decreases v, 1
  {
    match v
    case Num(text) =>
      NumberUnits(text);
      PlainIsWellFormed(text);
    case Str(s) => QuoteWellFormed(s);
    case Arr(items) =>
      ItemsWellFormed(items);
      WrapWellFormed(LBRACKET, StringifyItems(items), RBRACKET);
    case Obj(members) =>
      MembersWellFormed(members);
      WrapWellFormed(LBRACE, StringifyMembers(members), RBRACE);
    case _ => PlainIsWellFormed(Stringify(v));
  }

  lemma {:induction false} ItemsWellFormed(items: seq<Json>)
    requires forall i :: 0 <= i < |items| ==> Tidy(items[i])
    ensures WellFormed(StringifyItems(items))
    decreases items, 0
  {
    if items != [] {
      StringifyWellFormed(items[0]);
      ItemsWellFormed(items[1..]);
      JoinWellFormed(Stringify(items[0]), COMMA, StringifyItems(items[1..]));
    }
  }

  lemma {:induction false} MembersWellFormed(members: seq<Member>)
    requires forall i :: 0 <= i < |members| ==> Tidy(members[i].value)
    ensures WellFormed(StringifyMembers(members))
    decreases members, 0
  {
    if members != [] {
      var m := members[0];
      QuoteWellFormed(m.key);
      StringifyWellFormed(m.value);
      JoinWellFormed(Quote(m.key), COLON, Stringify(m.value));
      MembersWellFormed(members[1..]);
      JoinWellFormed(StringifyMember(m), COMMA, StringifyMembers(members[1..]));
    }
  }
}
