/** The type texts that steer the object serializer, and how its prefix and suffix tests read them. */
module TypeStrings {
  /** A type as the generated models mean it. `Name` is a class or any other bare name. */
  datatype Type =
    | Primitive(name: string)
    | Date
    | Nullable(inner: Type)
    | Optional(inner: Type)
    | ArrayOf(inner: Type)
    | MapOf(inner: Type)
    | Name(name: string)

  const NULLABLE_SUFFIX := " | null"
  const OPTIONAL_SUFFIX := " | undefined"
  const ARRAY_PREFIX := "Array<"
  const ARRAY_SUFFIX := ">"
  const MAP_PREFIX := "{ [key: string]: "
  const MAP_SUFFIX := "; }"

  function Print(t: Type): string {
    match t
    case Primitive(name) => name
    case Date => "Date"
    case Nullable(inner) => Print(inner) + NULLABLE_SUFFIX
    case Optional(inner) => Print(inner) + OPTIONAL_SUFFIX
    case ArrayOf(inner) => ARRAY_PREFIX + Print(inner) + ARRAY_SUFFIX
    case MapOf(inner) => MAP_PREFIX + Print(inner) + MAP_SUFFIX
    case Name(name) => name
  }

  function LowerChar(c: char): char {
    if 'A' <= c <= 'Z' then (c as int + 32) as char else c
  }

  function ToLower(s: string): (r: string)
    ensures |r| == |s| && forall i :: 0 <= i < |s| ==> r[i] == LowerChar(s[i])
  {
    seq(|s|, i requires 0 <= i < |s| => LowerChar(s[i]))
  }

  predicate IsPrimitive(text: string) {
    ToLower(text) in ["string", "boolean", "double", "integer", "long", "float", "number", "any"]
  }

  predicate EndsWith(s: string, suffix: string) {
    |suffix| <= |s| && s[|s| - |suffix|..] == suffix
  }

  /** `slice(start, -dropped)` */
  function Slice(s: string, start: nat, dropped: nat): string {
    if start + dropped <= |s| then s[start..|s| - dropped] else ""
  }

  /** Which branch of the serializer a type text takes, and the text it recurses on. */
  datatype Shape =
    | AsPrimitive
    | AsNullable(sub: string)
    | AsOptional(sub: string)
    | AsArray(sub: string)
    | AsMap(sub: string)
    | AsDate
    | AsName

  function Dispatch(text: string): (shape: Shape)
    ensures shape.AsNullable? || shape.AsOptional? || shape.AsArray? || shape.AsMap? ==> |shape.sub| < |text|
  {
    if IsPrimitive(text) then AsPrimitive
    else if EndsWith(text, NULLABLE_SUFFIX) then AsNullable(Slice(text, 0, |NULLABLE_SUFFIX|))
    else if EndsWith(text, OPTIONAL_SUFFIX) then AsOptional(Slice(text, 0, |OPTIONAL_SUFFIX|))
    else if ARRAY_PREFIX <= text then AsArray(Slice(text, |ARRAY_PREFIX|, |ARRAY_SUFFIX|))
    else if MAP_PREFIX <= text then AsMap(Slice(text, |MAP_PREFIX|, |MAP_SUFFIX|))
    else if text == "Date" then AsDate
    else AsName
  }

  /** Bare names that cannot be taken for another kind of type. */
  predicate IsPlainName(name: string) {
    && !IsPrimitive(name) && name != "Date"
    && !EndsWith(name, NULLABLE_SUFFIX) && !EndsWith(name, OPTIONAL_SUFFIX)
    && !(ARRAY_PREFIX <= name) && !(MAP_PREFIX <= name)
  }

  predicate IsType(t: Type) {
    match t
    case Primitive(name) => IsPrimitive(name)
    case Date => true
    case Name(name) => IsPlainName(name)
    case _ => IsType(t.inner)
  }

  /** What dispatch must answer for a type: its outer constructor and its printed argument. */
  function ShapeOf(t: Type): Shape {
    match t
    case Primitive(_) => AsPrimitive
    case Date => AsDate
    case Nullable(inner) => AsNullable(Print(inner))
    case Optional(inner) => AsOptional(Print(inner))
    case ArrayOf(inner) => AsArray(Print(inner))
    case MapOf(inner) => AsMap(Print(inner))
    case Name(_) => AsName
  }

  predicate Letters(s: string) {
    forall i :: 0 <= i < |s| ==> 'a' <= s[i] <= 'z'
  }

  lemma PrimitivesAreLetters()
    ensures Letters("string") && Letters("boolean") && Letters("double") && Letters("integer")
    ensures Letters("long") && Letters("float") && Letters("number") && Letters("any")
  {
  }

  /** Primitive names consist of letters, so nothing with a blank or a bracket is one. */
  lemma PrimitiveLetters(text: string, i: nat)
    requires IsPrimitive(text) && i < |text|
    ensures 'a' <= LowerChar(text[i]) <= 'z'
  {
    PrimitivesAreLetters();
    assert Letters(ToLower(text));
    assert ToLower(text)[i] == LowerChar(text[i]);
  }

  lemma LastChar(s: string, suffix: string)
    requires EndsWith(s, suffix) && suffix != ""
    ensures s != "" && s[|s| - 1] == suffix[|suffix| - 1]
  {
    assert s[|s| - |suffix|..][|suffix| - 1] == s[|s| - 1];
  }

  lemma AppendedSuffix(s: string, suffix: string)
    ensures EndsWith(s + suffix, suffix) && Slice(s + suffix, 0, |suffix|) == s
  {
  }

  lemma NotPrimitiveAt(text: string, i: nat)
    requires i < |text| && !('a' <= LowerChar(text[i]) <= 'z')
    ensures !IsPrimitive(text)
  {
    if IsPrimitive(text) { PrimitiveLetters(text, i); }
  }

  lemma NotEndingWith(s: string, suffix: string)
    requires s != "" && suffix != "" && s[|s| - 1] != suffix[|suffix| - 1]
    ensures !EndsWith(s, suffix)
  {
    if EndsWith(s, suffix) { LastChar(s, suffix); }
  }

  lemma DispatchNullable(p: string)
    ensures Dispatch(p + NULLABLE_SUFFIX) == AsNullable(p)
  {
    var text := p + NULLABLE_SUFFIX;
    AppendedSuffix(p, NULLABLE_SUFFIX);
    assert text[|p|] == ' ';
    NotPrimitiveAt(text, |p|);
  }

  lemma DispatchOptional(p: string)
    ensures Dispatch(p + OPTIONAL_SUFFIX) == AsOptional(p)
  {
    var text := p + OPTIONAL_SUFFIX;
    AppendedSuffix(p, OPTIONAL_SUFFIX);
    assert text[|p|] == ' ';
    NotPrimitiveAt(text, |p|);
    NotEndingWith(text, NULLABLE_SUFFIX);
  }

  /** A text whose last character is no letter is neither primitive nor nullable nor optional. */
  lemma ClosedText(text: string)
    requires text != "" && (text[|text| - 1] == '>' || text[|text| - 1] == '}')
    ensures !IsPrimitive(text) && !EndsWith(text, NULLABLE_SUFFIX) && !EndsWith(text, OPTIONAL_SUFFIX)
  {
    NotPrimitiveAt(text, |text| - 1);
    NotEndingWith(text, NULLABLE_SUFFIX);
    NotEndingWith(text, OPTIONAL_SUFFIX);
  }

  lemma DispatchArray(p: string)
    ensures Dispatch(ARRAY_PREFIX + p + ARRAY_SUFFIX) == AsArray(p)
  {
    var text := ARRAY_PREFIX + p + ARRAY_SUFFIX;
    ClosedText(text);
    assert text[..6] == ARRAY_PREFIX && Slice(text, 6, 1) == p;
  }

  lemma DispatchMap(p: string)
    ensures Dispatch(MAP_PREFIX + p + MAP_SUFFIX) == AsMap(p)
  {
    var text := MAP_PREFIX + p + MAP_SUFFIX;
    ClosedText(text);
    assert text[0] == '{' && text[..17] == MAP_PREFIX && Slice(text, 17, 3) == p;
  }

  lemma DispatchDate()
    ensures Dispatch("Date") == AsDate
  {
    DateIsNotPrimitive();
    NotEndingWith("Date", NULLABLE_SUFFIX);
    NotEndingWith("Date", OPTIONAL_SUFFIX);
  }

  /** Dispatch on the printed text of a type finds exactly its outer constructor and argument. */
  lemma DispatchDecomposes(t: Type)
    requires IsType(t)
    ensures Dispatch(Print(t)) == ShapeOf(t)
  {
    match t
    case Nullable(inner) => DispatchNullable(Print(inner));
    case Optional(inner) => DispatchOptional(Print(inner));
    case ArrayOf(inner) => DispatchArray(Print(inner));
    case MapOf(inner) => DispatchMap(Print(inner));
    case Date => DispatchDate();
    case _ =>
  }

  lemma DateIsNotPrimitive()
    ensures !IsPrimitive("Date")
  {
    var lower := ToLower("Date");
    assert |lower| == 4 && lower[0] == 'd';
    assert forall s :: s in ["string", "boolean", "double", "integer", "long", "float", "number", "any"] ==>
      |s| != 4 || s[0] == 'l';
  }

  /** Two types with one printed text are one type. */
  lemma {:induction false} PrintInjective(s: Type, t: Type)
    requires IsType(s) && IsType(t) && Print(s) == Print(t)
    ensures s == t
    decreases s
  {
    DispatchDecomposes(s);
    DispatchDecomposes(t);
    if s.Nullable? || s.Optional? || s.ArrayOf? || s.MapOf? {
      PrintInjective(s.inner, t.inner);
    }
  }

  // ---- Dispatch on any text -----------------------------------------------------------------

  /** A name of lower-case letters, in any case. */
  predicate SpellsInAnyCase(text: string, name: string) {
    && |text| == |name|
    && forall i :: 0 <= i < |name| ==>
         text[i] == name[i] || ('A' <= text[i] <= 'Z' && text[i] as int + 32 == name[i] as int)
  }

  lemma LowerSpells(text: string, name: string)
    requires Letters(name)
    ensures ToLower(text) == name <==> SpellsInAnyCase(text, name)
  {
    if SpellsInAnyCase(text, name) {
      forall i | 0 <= i < |name| ensures ToLower(text)[i] == name[i] {
      }
    }
    if ToLower(text) == name {
      forall i | 0 <= i < |name|
        ensures text[i] == name[i] || ('A' <= text[i] <= 'Z' && text[i] as int + 32 == name[i] as int)
      {
        assert ToLower(text)[i] == LowerChar(text[i]);
      }
    }
  }

  lemma PrimitiveIff(text: string)
    ensures IsPrimitive(text) <==>
            || SpellsInAnyCase(text, "string") || SpellsInAnyCase(text, "boolean") || SpellsInAnyCase(text, "double")
            || SpellsInAnyCase(text, "integer") || SpellsInAnyCase(text, "long") || SpellsInAnyCase(text, "float")
            || SpellsInAnyCase(text, "number") || SpellsInAnyCase(text, "any")
  {
    PrimitivesAreLetters();
    LowerSpells(text, "string");
    LowerSpells(text, "boolean");
    LowerSpells(text, "double");
    LowerSpells(text, "integer");
    LowerSpells(text, "long");
    LowerSpells(text, "float");
    LowerSpells(text, "number");
    LowerSpells(text, "any");
  }

  lemma EndsWithIff(text: string, suffix: string)
    ensures EndsWith(text, suffix) <==> exists sub: string :: text == sub + suffix
    ensures EndsWith(text, suffix) ==> text == Slice(text, 0, |suffix|) + suffix
  {
    if EndsWith(text, suffix) {
      assert text == text[..|text| - |suffix|] + suffix;
    }
  }

  /** For every text, printed type or not: a primitive first, then the suffixes, then the prefixes,
      then dates; everything else is a name. */
  lemma DispatchMeans(text: string)
    ensures var shape := Dispatch(text);
            if IsPrimitive(text) then shape == AsPrimitive
            else if exists sub: string :: text == sub + " | null" then
              shape.AsNullable? && text == shape.sub + " | null"
            else if exists sub: string :: text == sub + " | undefined" then
              shape.AsOptional? && text == shape.sub + " | undefined"
            else if "Array<" <= text then
              shape == AsArray(if |text| > 6 then text[6..|text| - 1] else "")
            else if "{ [key: string]: " <= text then
              shape == AsMap(if |text| >= 20 then text[17..|text| - 3] else "")
            else if text == "Date" then shape == AsDate
            else shape == AsName
  {
    EndsWithIff(text, NULLABLE_SUFFIX);
    EndsWithIff(text, OPTIONAL_SUFFIX);
  }
}
