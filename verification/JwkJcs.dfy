/** The JWK codec: a JWK's required members as canonical JSON bytes, and back. */
module JwkJcs {
  import opened Wrappers
  import opened Utf16
  import opened Json
  import opened JsonRoundTrip
  import opened Jcs
  import opened JsonRevive
  import B = Base64

  // ---- Flat objects of strings -----------------------------------------------------------------

  /** Distinct, non-index names in `sort` order with string values: what a minimal JWK is. */
  predicate IsFlat(members: seq<Member>) {
    && (forall i :: 0 <= i < |members| ==> members[i].value.Str? && !IsIndex(members[i].key))
    && forall i, j :: 0 <= i < j < |members| ==> Less(members[i].key, members[j].key)
  }

  lemma FlatDistinct(members: seq<Member>)
    requires IsFlat(members)
    ensures DistinctKeys(members)
  {
    forall i, j | 0 <= i < j < |members| ensures members[i].key != members[j].key {
      LessIrreflexive(members[i].key);
    }
  }

  lemma SetFresh(members: seq<Member>, m: Member)
    requires !IsIndex(m.key) && forall i :: 0 <= i < |members| ==> members[i].key != m.key
    ensures SetProperty(members, m) == members + [m]
  {
  }

  lemma FlatFront(members: seq<Member>)
    requires IsFlat(members) && members != []
    ensures var front, last := members[..|members| - 1], members[|members| - 1];
            && IsFlat(front) && last.value.Str? && !IsIndex(last.key)
            && forall i :: 0 <= i < |front| ==> front[i].key != last.key
  {
    FlatDistinct(members);
  }

  lemma {:induction false} BuildFlat(members: seq<Member>, read: NumberReader)
    requires IsFlat(members)
    ensures Build(members, read) == members
  {
    if members != [] {
      var front, last := members[..|members| - 1], members[|members| - 1];
      FlatFront(members);
      BuildFlat(front, read);
      SetFresh(front, last);
      assert members == front + [last];
    }
  }

  lemma FlatNormal(members: seq<Member>)
    requires IsFlat(members)
    ensures NormalMembers(members) == members && EraseMembers(members) == members && Sort(members) == members
  {
    FlatDistinct(members);
    SortSorts(members);
    SortedUnique(Sort(members), members);
  }

  /** A flat object is its own canonical form. */
  lemma FlatCanonical(members: seq<Member>)
    requires IsFlat(members)
    ensures Canonicalize(Obj(members)) == Stringify(Obj(members))
    ensures Tidy(Obj(members))
  {
    FlatNormal(members);
    assert Normal(Obj(members)) == Obj(members);
  }

  lemma EraseFlat(v: Json, members: seq<Member>)
    requires IsFlat(members) && Erase(v) == Obj(members)
    ensures v == Obj(members)
  {
    forall i | 0 <= i < |members| ensures v.members[i] == members[i] {
      assert EraseMembers(v.members)[i] == members[i];
    }
  }

  // ---- validateJwk and minimalJwk ------------------------------------------------------------

  datatype JwkError = NotJson | NotAnObject | MissingMember(name: Text) | UnsupportedKty | NotCanonical

  const KTY := Lit("kty")
  const CRV := Lit("crv")
  const X := Lit("x")
  const Y := Lit("y")
  const E := Lit("e")
  const N := Lit("n")
  const EC := Lit("EC")
  const OKP := Lit("OKP")
  const RSA := Lit("RSA")

  /** `jwk[name]`; None is `undefined`. */
  function Prop(jwk: Json, name: Text): Option<Json> {
    if jwk.Obj? then Get(jwk.members, name) else None
  }

  predicate Truthy(v: Option<Json>) {
    match v
    case None => false
    case Some(Null) => false
    case Some(NonFinite(isNaN)) => !isNaN
    case Some(Bool(b)) => b
    case Some(Num(text)) => text != [0x30]
    case Some(Str(s)) => s != []
    case _ => true
  }

  function Check(jwk: Json, name: Text, optional: bool): Option<JwkError> {
    var v := Prop(jwk, name);
    if optional && !Truthy(v) then None
    else if v.None? || !v.value.Str? || v.value.s == [] then Some(MissingMember(name))
    else None
  }

  function FirstError(a: Option<JwkError>, b: Option<JwkError>): Option<JwkError> {
    if a.Some? then a else b
  }

  /** The error `validateJwk` throws, or None when it accepts. */
  function ValidateJwk(jwk: Json, crvOptional: bool): Option<JwkError> {
    if !jwk.Obj? && !jwk.Arr? then Some(NotAnObject)
    else if Check(jwk, KTY, false).Some? then Check(jwk, KTY, false)
    else
      var kty := Prop(jwk, KTY).value.s;
      if kty == EC then
        FirstError(Check(jwk, CRV, crvOptional), FirstError(Check(jwk, X, false), Check(jwk, Y, false)))
      else if kty == OKP then FirstError(Check(jwk, CRV, crvOptional), Check(jwk, X, false))
      else if kty == RSA then FirstError(Check(jwk, E, false), Check(jwk, N, false))
      else Some(UnsupportedKty)
  }

  predicate HasText(jwk: Json, name: Text) {
    match Prop(jwk, name)
    case Some(Str(s)) => s != []
    case _ => false
  }

  /** Absent, null, false, NaN, zero or the empty text. */
  predicate IsFalsy(v: Option<Json>) {
    || v == None || v == Some(Null) || v == Some(Bool(false)) || v == Some(NonFinite(true))
    || v == Some(Num([0x30])) || v == Some(Str([]))
  }

  /** Which JWKs `validateJwk` accepts. */
  lemma ValidIff(jwk: Json, crvOptional: bool)
    ensures ValidateJwk(jwk, crvOptional).None? <==>
            var kty, crv := Prop(jwk, Lit("kty")), Lit("crv");
            var curve := HasText(jwk, crv) || (crvOptional && IsFalsy(Prop(jwk, crv)));
            || (kty == Some(Str(Lit("EC"))) && curve && HasText(jwk, Lit("x")) && HasText(jwk, Lit("y")))
            || (kty == Some(Str(Lit("OKP"))) && curve && HasText(jwk, Lit("x")))
            || (kty == Some(Str(Lit("RSA"))) && HasText(jwk, Lit("e")) && HasText(jwk, Lit("n")))
  {
    assert OKP[0] != RSA[0] && |EC| != |RSA|;
  }

  /** The error names the first member that fails, in the order of the checks. */
  lemma InvalidNamesFirst(jwk: Json, crvOptional: bool)
    requires ValidateJwk(jwk, crvOptional).Some?
    ensures var error, kty := ValidateJwk(jwk, crvOptional).value, Prop(jwk, Lit("kty"));
            if !jwk.Obj? && !jwk.Arr? then error == NotAnObject
            else if !HasText(jwk, Lit("kty")) then error == MissingMember(Lit("kty"))
            else if kty == Some(Str(Lit("RSA"))) then
              error == MissingMember(if !HasText(jwk, Lit("e")) then Lit("e") else Lit("n"))
            else if kty == Some(Str(Lit("EC"))) || kty == Some(Str(Lit("OKP"))) then
              var crv := Lit("crv");
              error == MissingMember(
                         if !HasText(jwk, crv) && !(crvOptional && IsFalsy(Prop(jwk, crv))) then crv
                         else if !HasText(jwk, Lit("x")) then Lit("x") else Lit("y"))
            else error == UnsupportedKty
  {
    assert OKP[0] != RSA[0] && |EC| != |RSA|;
  }

  /** The members of a minimal JWK in the order it is written in; `curve` is whether the JWK
      has a truthy curve. */
  function MinimalNames(kty: Text, curve: bool): seq<Text> {
    if kty == EC then (if curve then [CRV, KTY, X, Y] else [KTY, X, Y])
    else if kty == OKP then (if curve then [CRV, KTY, X] else [KTY, X])
    else [E, KTY, N]
  }

  function NamesOf(jwk: Json): (names: seq<Text>)
    requires ValidateJwk(jwk, true).None?
    ensures forall i :: 0 <= i < |names| ==> Prop(jwk, names[i]).Some? && Prop(jwk, names[i]).value.Str?
  {
    MinimalNames(Prop(jwk, KTY).value.s, Truthy(Prop(jwk, CRV)))
  }

  /** `minimalJwk` of a JWK that `validateJwk` accepts. */
  function MinimalJwk(jwk: Json): (minimal: Json)
    requires ValidateJwk(jwk, true).None?
    ensures minimal.Obj?
  {
    var names := NamesOf(jwk);
    Obj(seq(|names|, i requires 0 <= i < |names| => Member(names[i], Prop(jwk, names[i]).value)))
  }

  lemma NameOrder()
    ensures Less(CRV, KTY) && Less(CRV, X) && Less(CRV, Y) && Less(KTY, X) && Less(KTY, Y) && Less(X, Y)
    ensures Less(E, KTY) && Less(E, N) && Less(KTY, N)
    ensures !IsIndex(CRV) && !IsIndex(KTY) && !IsIndex(X) && !IsIndex(Y) && !IsIndex(E) && !IsIndex(N)
  {
  }

  /** The members are written in the order `sort` would give them. */
  lemma MinimalNamesSorted(kty: Text, curve: bool)
    ensures var names := MinimalNames(kty, curve);
            && (forall i :: 0 <= i < |names| ==> !IsIndex(names[i]))
            && forall i, j :: 0 <= i < j < |names| ==> Less(names[i], names[j])
  {
    NameOrder();
  }

  /** The minimal JWK is flat: its members are strings and already in canonical order. */
  lemma MinimalIsFlat(jwk: Json)
    requires ValidateJwk(jwk, true).None?
    ensures IsFlat(MinimalJwk(jwk).members)
  {
    MinimalNamesSorted(Prop(jwk, KTY).value.s, Truthy(Prop(jwk, CRV)));
  }

  lemma MinimalMember(jwk: Json, i: nat)
    requires ValidateJwk(jwk, true).None? && i < |NamesOf(jwk)|
    ensures Prop(MinimalJwk(jwk), NamesOf(jwk)[i]) == Prop(jwk, NamesOf(jwk)[i])
  {
    MinimalIsFlat(jwk);
    FlatDistinct(MinimalJwk(jwk).members);
    GetDistinct(MinimalJwk(jwk).members, i);
  }

  /** Every member of the minimal JWK is the JWK's own. */
  lemma MinimalKeeps(jwk: Json, name: Text)
    requires ValidateJwk(jwk, true).None? && name in MinimalNames(Prop(jwk, KTY).value.s, Truthy(Prop(jwk, CRV)))
    ensures Prop(MinimalJwk(jwk), name) == Prop(jwk, name)
  {
    var i :| 0 <= i < |NamesOf(jwk)| && NamesOf(jwk)[i] == name;
    MinimalMember(jwk, i);
  }

  lemma FlatAbsent(members: seq<Member>, name: Text)
    requires forall i :: 0 <= i < |members| ==> members[i].key != name
    ensures Prop(Obj(members), name).None?
  {
  }

  /** Two objects with the same key type and the same required members for it. */
  ghost predicate Agree(a: Json, b: Json) {
    && a.Obj? && b.Obj? && Prop(a, KTY) == Prop(b, KTY)
    && (Prop(a, KTY) == Some(Str(EC)) ==>
          Prop(a, CRV) == Prop(b, CRV) && Prop(a, X) == Prop(b, X) && Prop(a, Y) == Prop(b, Y))
    && (Prop(a, KTY) == Some(Str(OKP)) ==> Prop(a, CRV) == Prop(b, CRV) && Prop(a, X) == Prop(b, X))
    && (Prop(a, KTY) == Some(Str(RSA)) ==> Prop(a, E) == Prop(b, E) && Prop(a, N) == Prop(b, N))
  }

  lemma AgreeingValid(a: Json, b: Json, crvOptional: bool)
    requires Agree(a, b)
    ensures ValidateJwk(a, crvOptional) == ValidateJwk(b, crvOptional)
  {
    assert Check(a, KTY, false) == Check(b, KTY, false);
  }

  /** Optional members decide neither validity nor the minimal form. */
  lemma AgreeingMinimal(a: Json, b: Json, crvOptional: bool)
    requires Agree(a, b)
    ensures ValidateJwk(a, crvOptional) == ValidateJwk(b, crvOptional)
    ensures ValidateJwk(a, true).None? && ValidateJwk(b, true).None? ==> MinimalJwk(a) == MinimalJwk(b)
  {
    AgreeingValid(a, b, crvOptional);
    if ValidateJwk(a, true).None? && ValidateJwk(b, true).None? {
      AgreeingNames(a, b);
      forall i | 0 <= i < |NamesOf(a)| ensures MinimalJwk(a).members[i] == MinimalJwk(b).members[i] {
        AgreeingValue(a, b, NamesOf(a)[i]);
      }
    }
  }

  lemma AgreeingNames(a: Json, b: Json)
    requires Agree(a, b) && ValidateJwk(a, true).None? && ValidateJwk(b, true).None?
    ensures NamesOf(a) == NamesOf(b)
  {
    var kty := Prop(a, KTY).value.s;
    assert kty == EC || kty == OKP || kty == RSA;
    assert kty == RSA || Truthy(Prop(a, CRV)) == Truthy(Prop(b, CRV));
  }

  lemma AgreeingValue(a: Json, b: Json, name: Text)
    requires Agree(a, b) && ValidateJwk(a, true).None?
    requires name in MinimalNames(Prop(a, KTY).value.s, Truthy(Prop(a, CRV)))
    ensures Prop(a, name) == Prop(b, name)
  {
  }

  /** `undefined` and every other falsy curve are dropped alike, so only a truthy one is kept. */
  lemma MinimalAgrees(jwk: Json)
    requires ValidateJwk(jwk, true).None?
    requires Prop(jwk, KTY) == Some(Str(RSA)) || Truthy(Prop(jwk, CRV)) || Prop(jwk, CRV).None?
    ensures Agree(jwk, MinimalJwk(jwk))
  {
    assert OKP[0] != RSA[0] && |EC| != |RSA|;
    var kty := Prop(jwk, KTY).value.s;
    MinimalKeeps(jwk, KTY);
    if kty == RSA {
      MinimalKeeps(jwk, E);
      MinimalKeeps(jwk, N);
    } else {
      MinimalKeeps(jwk, X);
      if kty == EC { MinimalKeeps(jwk, Y); }
      MinimalCurve(jwk);
    }
  }

  lemma MinimalCurve(jwk: Json)
    requires ValidateJwk(jwk, true).None? && Prop(jwk, KTY).value.s != RSA
    requires Truthy(Prop(jwk, CRV)) || Prop(jwk, CRV).None?
    ensures Prop(MinimalJwk(jwk), CRV) == Prop(jwk, CRV)
  {
    if Truthy(Prop(jwk, CRV)) {
      MinimalKeeps(jwk, CRV);
    } else {
      assert CRV[0] != KTY[0] && CRV[0] != X[0] && CRV[0] != Y[0];
      FlatAbsent(MinimalJwk(jwk).members, CRV);
    }
  }

  /** A minimal JWK is valid and minimal itself. */
  lemma MinimalIdempotent(jwk: Json)
    requires ValidateJwk(jwk, false).None? && ValidateJwk(jwk, true).None?
    ensures ValidateJwk(MinimalJwk(jwk), false).None? && ValidateJwk(MinimalJwk(jwk), true).None?
    ensures MinimalJwk(MinimalJwk(jwk)) == MinimalJwk(jwk)
  {
    MinimalAgrees(jwk);
    AgreeingMinimal(jwk, MinimalJwk(jwk), false);
    AgreeingMinimal(jwk, MinimalJwk(jwk), true);
  }

  // ---- jwkJcsEncode and jwkJcsDecode ------------------------------------------------------------

  /** A UTF-8 encoder and decoder; the decoder drops a leading byte order mark. */
  datatype TextCodec = TextCodec(encode: Text -> seq<B.byte>, decode: seq<B.byte> -> Text)

  ghost predicate LawfulCodec(codec: TextCodec) {
    forall t :: WellFormed(t) && (t != [] ==> t[0] != 0xFEFF) ==> codec.decode(codec.encode(t)) == t
  }

  function JwkJcsEncode(jwk: Json, codec: TextCodec): Result<seq<B.byte>, JwkError> {
    match ValidateJwk(jwk, false)
    case Some(error) => Err(error)
    case None => ValidWithoutCurve(jwk); Ok(codec.encode(Canonicalize(MinimalJwk(jwk))))
  }

  function JwkJcsDecode(bytes: seq<B.byte>, codec: TextCodec, read: NumberReader): Result<Json, JwkError> {
    match JsonParse(codec.decode(bytes), read)
    case None => Err(NotJson)
    case Some(jwk) =>
      match ValidateJwk(jwk, false)
      case Some(error) => Err(error)
      case None =>
        ValidWithoutCurve(jwk);
        if Stringify(jwk) != Canonicalize(MinimalJwk(jwk)) then Err(NotCanonical) else Ok(jwk)
  }

  lemma ValidWithoutCurve(jwk: Json)
    requires ValidateJwk(jwk, false).None?
    ensures ValidateJwk(jwk, true).None?
  {
  }

  lemma {:induction false} ParseStringifiedFlat(members: seq<Member>, read: NumberReader)
    requires IsFlat(members)
    ensures JsonParse(Stringify(Obj(members)), read) == Some(Obj(members))
  {
    FlatCanonical(members);
    ReadTextStringify(Obj(members));
    BuildFlat(members, read);
  }

  /** Decoding an encoded JWK gives its required members in canonical order. */
  lemma {:induction false} DecodeEncode(jwk: Json, codec: TextCodec, read: NumberReader)
    requires LawfulCodec(codec) && ValidateJwk(jwk, false).None? && ValidateJwk(jwk, true).None?
    ensures JwkJcsEncode(jwk, codec).Ok?
    ensures JwkJcsDecode(JwkJcsEncode(jwk, codec).value, codec, read) == Ok(MinimalJwk(jwk))
  {
    var minimal := MinimalJwk(jwk);
    MinimalIsFlat(jwk);
    FlatCanonical(minimal.members);
    StringifyWellFormed(minimal);
    ParseStringifiedFlat(minimal.members, read);
    MinimalIdempotent(jwk);
  }

  /** Decoding accepts exactly the texts that parse to a valid JWK equal to its own minimal
      form: required members only, each once, in sorted order. White space does not matter. */
  lemma {:induction false} DecodeAccepts(bytes: seq<B.byte>, codec: TextCodec, read: NumberReader, jwk: Json)
    requires LawfulNumbers(read)
    ensures JwkJcsDecode(bytes, codec, read) == Ok(jwk) <==>
            && JsonParse(codec.decode(bytes), read) == Some(jwk)
            && ValidateJwk(jwk, false).None? && ValidateJwk(jwk, true).None?
            && jwk == MinimalJwk(jwk)
  {
    if JsonParse(codec.decode(bytes), read) == Some(jwk) && ValidateJwk(jwk, false).None? {
      ValidWithoutCurve(jwk);
      var minimal := MinimalJwk(jwk);
      MinimalIsFlat(jwk);
      FlatCanonical(minimal.members);
      if Stringify(jwk) == Stringify(minimal) {
        StringifyErase(jwk);
        ReviveTidy(ReadText(codec.decode(bytes)).value, read);
        StringifyInjective(Erase(jwk), minimal);
        EraseFlat(jwk, minimal.members);
      }
    }
  }

  /** Why decoding refuses: the text is no JSON, or the JWK fails the check that `validateJwk` names,
      or it is valid but not its own minimal form. */
  lemma {:induction false} DecodeRefuses(bytes: seq<B.byte>, codec: TextCodec, read: NumberReader)
    requires LawfulNumbers(read)
    ensures var r, jwk := JwkJcsDecode(bytes, codec, read), JsonParse(codec.decode(bytes), read);
            && (r == Err(NotJson) <==> ReadText(codec.decode(bytes)) == None)
            && (jwk.Some? && ValidateJwk(jwk.value, false).Some? ==> r == Err(ValidateJwk(jwk.value, false).value))
            && (r == Err(NotCanonical) <==>
                jwk.Some? && ValidateJwk(jwk.value, false).None? && ValidateJwk(jwk.value, true).None? &&
                jwk.value != MinimalJwk(jwk.value))
  {
    var jwk := JsonParse(codec.decode(bytes), read);
    if jwk.Some? {
      DecodeAccepts(bytes, codec, read, jwk.value);
      if ValidateJwk(jwk.value, false).None? { ValidWithoutCurve(jwk.value); }
    }
  }

  /** What decoding returns is a fixed point of decoding after encoding. */
  lemma {:induction false} DecodedIsFixedPoint(bytes: seq<B.byte>, codec: TextCodec, read: NumberReader, jwk: Json)
    requires LawfulNumbers(read) && LawfulCodec(codec)
    ensures JwkJcsDecode(bytes, codec, read) == Ok(jwk) ==>
              && jwk.Obj? && IsFlat(jwk.members)
              && JwkJcsEncode(jwk, codec).Ok?
              && JwkJcsDecode(JwkJcsEncode(jwk, codec).value, codec, read) == Ok(jwk)
  {
    if JwkJcsDecode(bytes, codec, read) == Ok(jwk) {
      DecodeAccepts(bytes, codec, read, jwk);
      MinimalIsFlat(jwk);
      DecodeEncode(jwk, codec, read);
    }
  }

  /** Two JWKs share their encoding exactly when their required members agree. */
  lemma {:induction false} EncodingIdentifies(a: Json, b: Json, codec: TextCodec, read: NumberReader)
    requires LawfulCodec(codec)
    requires ValidateJwk(a, false).None? && ValidateJwk(a, true).None?
    requires ValidateJwk(b, false).None? && ValidateJwk(b, true).None?
    ensures JwkJcsEncode(a, codec) == JwkJcsEncode(b, codec) <==> MinimalJwk(a) == MinimalJwk(b)
  {
    DecodeEncode(a, codec, read);
    DecodeEncode(b, codec, read);
  }
}
