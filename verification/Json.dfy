/** JSON values as JavaScript holds them, `JSON.stringify` and the grammar of `JSON.parse`. */
module Json {
  import opened Wrappers
  import opened Utf16

  datatype Member = Member(key: Text, value: Json)

  /** A value without `undefined` or cycles. `Num` holds the text that
      number formatting gives; `NonFinite` is NaN and the infinities, which stringify as null. */
  datatype Json =
    | Null
    | NonFinite(isNaN: bool)
    | Bool(b: bool)
    | Num(text: Text)
    | Str(s: Text)
    | Arr(items: seq<Json>)
    | Obj(members: seq<Member>)

  const QUOTE: Unit := 0x22
  const BACKSLASH: Unit := 0x5C
  const COMMA: Unit := 0x2C
  const COLON: Unit := 0x3A
  const LBRACKET: Unit := 0x5B
  const RBRACKET: Unit := 0x5D
  const LBRACE: Unit := 0x7B
  const RBRACE: Unit := 0x7D
  const MINUS: Unit := 0x2D
  const NULL: Text := [0x6E, 0x75, 0x6C, 0x6C]
  const TRUE: Text := [0x74, 0x72, 0x75, 0x65]
  const FALSE: Text := [0x66, 0x61, 0x6C, 0x73, 0x65]

  // ---- Numbers -------------------------------------------------------------------------

  predicate IsDigit(u: Unit) { 0x30 <= u <= 0x39 }

  /** Digits, sign, decimal point and exponent mark. */
  predicate IsNumberUnit(u: Unit) {
    IsDigit(u) || u == MINUS || u == 0x2B || u == 0x2E || u == 0x45 || u == 0x65
  }

  function DigitRun(t: Text): (n: nat)
    ensures n <= |t| && forall i :: 0 <= i < n ==> IsDigit(t[i])
  {
    if t == [] || !IsDigit(t[0]) then 0 else 1 + DigitRun(t[1..])
  }

  function DecimalValue(t: Text): nat {
    if t == [] || !IsDigit(t[|t| - 1]) then 0
    else DecimalValue(t[..|t| - 1]) * 10 + (t[|t| - 1] - 0x30)
  }

  /** Array index property names, which objects keep in front in ascending order. */
  predicate IsIndex(key: Text) {
    && key != [] && DigitRun(key) == |key|
    && (key[0] == 0x30 ==> |key| == 1)
    && DecimalValue(key) < 0xFFFF_FFFF
  }

  predicate IsExponent(t: Text) {
    t == [] ||
    ((t[0] == 0x45 || t[0] == 0x65) &&
     var digits := if |t| > 1 && (t[1] == MINUS || t[1] == 0x2B) then t[2..] else t[1..];
     digits != [] && DigitRun(digits) == |digits|)
  }

  predicate IsFraction(t: Text) {
    if t != [] && t[0] == 0x2E then
      var n := DigitRun(t[1..]);
      n > 0 && IsExponent(t[1 + n..])
    else
      IsExponent(t)
  }

  predicate IsUnsigned(t: Text) {
    var n := DigitRun(t);
    n > 0 && (t[0] == 0x30 ==> n == 1) && IsFraction(t[n..])
  }

  /** The number production of the JSON grammar. */
  predicate IsNumber(t: Text) {
    if t != [] && t[0] == MINUS then IsUnsigned(t[1..]) else IsUnsigned(t)
  }

  predicate AllNumberUnits(t: Text) {
    forall i :: 0 <= i < |t| ==> IsNumberUnit(t[i])
  }

  lemma ExponentUnit(t: Text, i: nat)
    requires IsExponent(t) && i < |t|
    ensures IsNumberUnit(t[i])
  {
    var k := if |t| > 1 && (t[1] == MINUS || t[1] == 0x2B) then 2 else 1;
    if i >= k {
      assert t[k..][i - k] == t[i];
    }
  }

  lemma FractionUnit(t: Text, i: nat)
    requires IsFraction(t) && i < |t|
    ensures IsNumberUnit(t[i])
  {
    if t[0] == 0x2E {
      var n := DigitRun(t[1..]);
      if i > n {
        ExponentUnit(t[1 + n..], i - 1 - n);
      } else if i > 0 {
        assert t[1..][i - 1] == t[i];
      }
    } else {
      ExponentUnit(t, i);
    }
  }

  lemma UnsignedUnit(t: Text, i: nat)
    requires IsUnsigned(t) && i < |t|
    ensures IsNumberUnit(t[i]) && IsDigit(t[0])
  {
    var n := DigitRun(t);
    if i >= n {
      FractionUnit(t[n..], i - n);
    }
  }

  lemma NumberUnits(t: Text)
    requires IsNumber(t)
    ensures t != [] && AllNumberUnits(t) && (IsDigit(t[0]) || t[0] == MINUS)
  {
    forall i | 0 <= i < |t| ensures IsNumberUnit(t[i]) {
      if t[0] != MINUS {
        UnsignedUnit(t, i);
      } else if i > 0 {
        UnsignedUnit(t[1..], i - 1);
      }
    }
  }

  /** Values whose printed form is JSON: finite numbers in number syntax, at every depth. */
  predicate Tidy(v: Json)
    decreases v
  {
    match v
    case NonFinite(_) => false
    case Num(text) => IsNumber(text)
    case Arr(items) => forall i :: 0 <= i < |items| ==> Tidy(items[i])
    case Obj(members) => forall i :: 0 <= i < |members| ==> Tidy(members[i].value)
    case _ => true
  }

  // ---- Printing: JSON.stringify -----------------------------------------------------------

  /** A backslash, the letter u and four lower-case hexadecimal digits. */
  function UnicodeEscape(u: Unit): (t: Text)
    ensures |t| == 6
  {
    [BACKSLASH, 0x75, HexDigit(u / 0x1000), HexDigit(u / 0x100 % 16), HexDigit(u / 16 % 16), HexDigit(u % 16)]
  }

  function EscapeUnit(u: Unit): Text {
    if u == QUOTE || u == BACKSLASH then [BACKSLASH, u]
    else if u == 0x08 then [BACKSLASH, 0x62]
    else if u == 0x0C then [BACKSLASH, 0x66]
    else if u == 0x0A then [BACKSLASH, 0x6E]
    else if u == 0x0D then [BACKSLASH, 0x72]
    else if u == 0x09 then [BACKSLASH, 0x74]
    else if u < 0x20 || IsHigh(u) || IsLow(u) then UnicodeEscape(u)
    else [u]
  }

  /** Surrogate pairs are kept and lone surrogates are escaped. */
  function EscapeText(t: Text): Text {
    if t == [] then []
    else if StartsWithPair(t) then t[..2] + EscapeText(t[2..])
    else EscapeUnit(t[0]) + EscapeText(t[1..])
  }

  function Quote(t: Text): Text {
    [QUOTE] + EscapeText(t) + [QUOTE]
  }

  /** `JSON.stringify` of a value, in the order of its properties. */
  function Stringify(v: Json): (t: Text)
    decreases v, 1
  {
    match v
    case Null => NULL
    case NonFinite(_) => NULL
    case Bool(b) => if b then TRUE else FALSE
    case Num(text) => text
    case Str(s) => Quote(s)
    case Arr(items) => [LBRACKET] + StringifyItems(items) + [RBRACKET]
    case Obj(members) => [LBRACE] + StringifyMembers(members) + [RBRACE]
  }

  function StringifyItems(items: seq<Json>): (t: Text)
    decreases items, 0
  {
    if items == [] then []
    else if |items| == 1 then Stringify(items[0])
    else Stringify(items[0]) + [COMMA] + StringifyItems(items[1..])
  }

  function StringifyMember(m: Member): (t: Text)
    decreases m, 2
  {
    Quote(m.key) + [COLON] + Stringify(m.value)
  }

  function StringifyMembers(members: seq<Member>): (t: Text)
    decreases members, 0
  {
    if members == [] then []
    else if |members| == 1 then StringifyMember(members[0])
    else StringifyMember(members[0]) + [COMMA] + StringifyMembers(members[1..])
  }

  // ---- The grammar of JSON.parse ------------------------------------------------------------

  predicate IsSpace(u: Unit) { u == 0x20 || u == 0x09 || u == 0x0A || u == 0x0D }

  function SkipSpace(t: Text): (r: Text)
    ensures |r| <= |t|
  {
    if t != [] && IsSpace(t[0]) then SkipSpace(t[1..]) else t
  }

  function HexValue(u: Unit): Option<nat> {
    if 0x30 <= u <= 0x39 then Some(u - 0x30)
    else if 0x61 <= u <= 0x66 then Some(u - 0x61 + 10)
    else if 0x41 <= u <= 0x46 then Some(u - 0x41 + 10)
    else None
  }

  function ReadHex(a: Unit, b: Unit, c: Unit, d: Unit): Option<Unit> {
    match (HexValue(a), HexValue(b), HexValue(c), HexValue(d))
    case (Some(w), Some(x), Some(y), Some(z)) =>
      var u := w * 0x1000 + x * 0x100 + y * 16 + z;
      if u < 0x1_0000 then Some(u) else None
    case _ => None
  }

  /** The unit a two-character escape stands for. */
  function SimpleEscape(u: Unit): Option<Unit> {
    if u == QUOTE || u == BACKSLASH || u == 0x2F then Some(u)
    else if u == 0x62 then Some(0x08)
    else if u == 0x66 then Some(0x0C)
    else if u == 0x6E then Some(0x0A)
    else if u == 0x72 then Some(0x0D)
    else if u == 0x74 then Some(0x09)
    else None
  }

  /** Reads one character of a string literal: its unit and what follows. */
  function ReadUnit(t: Text): (r: Option<(Unit, Text)>)
    requires t != []
    ensures r.Some? ==> |r.value.1| < |t|
  {
    if t[0] < 0x20 || t[0] == QUOTE then None
    else if t[0] != BACKSLASH then Some((t[0], t[1..]))
    else if |t| < 2 then None
    else if t[1] == 0x75 then
      if |t| < 6 then None
      else match ReadHex(t[2], t[3], t[4], t[5])
           case None => None
           case Some(u) => Some((u, t[6..]))
    else match SimpleEscape(t[1])
         case None => None
         case Some(u) => Some((u, t[2..]))
  }

  /** Reads a string literal after its opening quote. */
  function ReadString(t: Text): (r: Option<(Text, Text)>)
    ensures r.Some? ==> |r.value.1| < |t|
    decreases |t|
  {
    if t == [] then None
    else if t[0] == QUOTE then Some(([], t[1..]))
    else match ReadUnit(t)
         case None => None
         case Some((u, rest)) =>
           match ReadString(rest)
           case None => None
           case Some((s, rest')) => Some(([u] + s, rest'))
  }

  function NumberRun(t: Text): (n: nat)
    ensures n <= |t|
  {
    if t == [] || !IsNumberUnit(t[0]) then 0 else 1 + NumberRun(t[1..])
  }

  /** Reads a keyword or a number. */
  function ReadLiteral(s: Text): (r: Option<(Json, Text)>)
    ensures r.Some? ==> |r.value.1| < |s| && Tidy(r.value.0)
  {
    if NULL <= s then Some((Null, s[4..]))
    else if TRUE <= s then Some((Bool(true), s[4..]))
    else if FALSE <= s then Some((Bool(false), s[5..]))
    else
      var n := NumberRun(s);
      if n > 0 && IsNumber(s[..n]) then Some((Num(s[..n]), s[n..])) else None
  }

  /** Reads a value and the rest of the text; members keep their order and repetitions. */
  function ReadValue(t: Text): (r: Option<(Json, Text)>)
    ensures r.Some? ==> |r.value.1| < |t| && Tidy(r.value.0)
    decreases |t|, 1
  {
    var s := SkipSpace(t);
    if s == [] then None
    else if s[0] == QUOTE then
      match ReadString(s[1..])
      case None => None
      case Some((text, rest)) => Some((Str(text), rest))
    else if s[0] == LBRACKET then
      var inner := SkipSpace(s[1..]);
      if inner != [] && inner[0] == RBRACKET then Some((Arr([]), inner[1..]))
      else match ReadItems(inner)
           case None => None
           case Some((items, rest)) => Some((Arr(items), rest))
    else if s[0] == LBRACE then
      var inner := SkipSpace(s[1..]);
      if inner != [] && inner[0] == RBRACE then Some((Obj([]), inner[1..]))
      else match ReadMembers(inner)
           case None => None
           case Some((members, rest)) => Some((Obj(members), rest))
    else ReadLiteral(s)
  }

  /** Reads a non-empty list of items up to and including its closing bracket. */
  function ReadItems(t: Text): (r: Option<(seq<Json>, Text)>)
    ensures r.Some? ==> |r.value.1| < |t| && forall i :: 0 <= i < |r.value.0| ==> Tidy(r.value.0[i])
    decreases |t|, 2
  {
    match ReadValue(t)
    case None => None
    case Some((v, rest)) =>
      var s := SkipSpace(rest);
      if s == [] then None
      else if s[0] == RBRACKET then Some(([v], s[1..]))
      else if s[0] != COMMA then None
      else match ReadItems(s[1..])
           case None => None
           case Some((items, rest')) => Some(([v] + items, rest'))
  }

  /** Reads a non-empty list of members up to and including its closing brace. */
  function ReadMembers(t: Text): (r: Option<(seq<Member>, Text)>)
    ensures r.Some? ==> |r.value.1| < |t| && forall i :: 0 <= i < |r.value.0| ==> Tidy(r.value.0[i].value)
    decreases |t|, 2
  {
    match ReadMember(t)
    case None => None
    case Some((m, rest)) =>
      var s := SkipSpace(rest);
      if s == [] then None
      else if s[0] == RBRACE then Some(([m], s[1..]))
      else if s[0] != COMMA then None
      else match ReadMembers(s[1..])
           case None => None
           case Some((members, rest')) => Some(([m] + members, rest'))
  }

  function ReadMember(t: Text): (r: Option<(Member, Text)>)
    ensures r.Some? ==> |r.value.1| < |t| && Tidy(r.value.0.value)
    decreases |t|, 0
  {
    var s := SkipSpace(t);
    if s == [] || s[0] != QUOTE then None
    else match ReadString(s[1..])
         case None => None
         case Some((key, rest)) =>
           var c := SkipSpace(rest);
           if c == [] || c[0] != COLON then None
           else match ReadValue(c[1..])
                case None => None
                case Some((v, rest')) => Some((Member(key, v), rest'))
  }

  /** A whole text that is one value between optional white space. */
  function ReadText(t: Text): (r: Option<Json>)
    ensures r.Some? ==> Tidy(r.value)
  {
    match ReadValue(t)
    case None => None
    case Some((v, rest)) => if SkipSpace(rest) == [] then Some(v) else None
  }
}
