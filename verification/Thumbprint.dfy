/** JWK sanitising and the text that the JWK thumbprint (RFC 7638, section 3) hashes. */
module Thumbprint {
  import opened Wrappers
  import opened Utf16
  import opened Json
  import opened Jcs
  import opened JwkJcs

  datatype ThumbprintError = NotAString | MissingClaim(name: Text) | UnsupportedKeyType

  const D := Lit("d")
  const K := Lit("k")
  const OCT := Lit("oct")

  // ---- sanitizedJwk --------------------------------------------------------------------

  function UrlUnit(u: Unit): Unit {
    if u == 0x2B then 0x2D else if u == 0x2F then 0x5F else u
  }

  function UrlUnits(t: Text): (r: Text)
    ensures |r| == |t| && forall i :: 0 <= i < |t| ==> r[i] == UrlUnit(t[i])
  {
    seq(|t|, i requires 0 <= i < |t| => UrlUnit(t[i]))
  }

  /** `base64ToBase64Url` */
  function ToUrl(t: Text): Text {
    B.StripPadding(UrlUnits(t))
  }

  predicate IsCodedName(name: Text) {
    name == X || name == Y || name == D || name == N || name == E || name == K
  }

  /** Replacing characters of a truthy value that is no string throws. */
  predicate Replaceable(m: Member) {
    IsCodedName(m.key) && Truthy(Some(m.value)) ==> m.value.Str?
  }

  function UrlMember(m: Member): Member {
    if IsCodedName(m.key) && m.value.Str? then Member(m.key, Str(ToUrl(m.value.s))) else m
  }

  /** `removeNulls`: null properties disappear at every depth. A null array element turns into
      a hole, which reads and prints like the null it was. */
  function RemoveNulls(v: Json): Json
    decreases v, 1
  {
    match v
    case Arr(items) => Arr(RemoveItemNulls(items))
    case Obj(members) => Obj(RemoveMemberNulls(members))
    case _ => v
  }

  function RemoveItemNulls(items: seq<Json>): (r: seq<Json>)
    ensures |r| == |items| && forall i :: 0 <= i < |items| ==> r[i] == RemoveNulls(items[i])
    decreases items, 0
  {
    if items == [] then [] else [RemoveNulls(items[0])] + RemoveItemNulls(items[1..])
  }

  function RemoveMemberNulls(members: seq<Member>): seq<Member>
    decreases members, 0
  {
    if members == [] then []
    else
      (if members[0].value.Null? then [] else [Member(members[0].key, RemoveNulls(members[0].value))])
      + RemoveMemberNulls(members[1..])
  }

  function UrlMembers(members: seq<Member>): (r: seq<Member>)
    ensures |r| == |members| && forall i :: 0 <= i < |members| ==> r[i] == UrlMember(members[i])
  {
    seq(|members|, i requires 0 <= i < |members| => UrlMember(members[i]))
  }

  function SanitizedJwk(members: seq<Member>): Result<seq<Member>, ThumbprintError> {
    if forall i :: 0 <= i < |members| ==> Replaceable(members[i]) then
      Ok(RemoveMemberNulls(UrlMembers(members)))
    else
      Err(NotAString)
  }

  // ---- calculateJwkThumbprint -----------------------------------------------------------------

  /** The claims hashed for a key type, in the order they are written. */
  function RequiredClaims(kty: Text): Option<seq<Text>> {
    if kty == EC then Some([CRV, X, Y])
    else if kty == OKP then Some([CRV, X])
    else if kty == RSA then Some([E, N])
    else if kty == OCT then Some([K])
    else None
  }

  /** The first claim that is no non-empty string. */
  function MissingClaimOf(jwk: Json, names: seq<Text>): Option<ThumbprintError> {
    if names == [] then None
    else if Check(jwk, names[0], false).Some? then Some(MissingClaim(names[0]))
    else MissingClaimOf(jwk, names[1..])
  }

  /** The members of the hashed object in the order they are written. */
  function ComponentNames(kty: Text): (names: seq<Text>)
    requires RequiredClaims(kty).Some?
    ensures forall name <- names :: name == KTY || name in RequiredClaims(kty).value
  {
    if kty == EC then [CRV, KTY, X, Y]
    else if kty == OKP then [CRV, KTY, X]
    else if kty == RSA then [E, KTY, N]
    else [K, KTY]
  }

  function Components(jwk: Json, kty: Text): Json
    requires RequiredClaims(kty).Some? && Prop(jwk, KTY).Some?
    requires forall name <- RequiredClaims(kty).value :: Prop(jwk, name).Some?
  {
    var names := ComponentNames(kty);
    Obj(seq(|names|, i requires 0 <= i < |names| =>
      assert names[i] in names;
      Member(names[i], Prop(jwk, names[i]).value)))
  }

  lemma {:induction false} ClaimsPresent(jwk: Json, names: seq<Text>)
    ensures MissingClaimOf(jwk, names).None? <==> forall name <- names :: Check(jwk, name, false).None?
  {
    if names != [] {
      ClaimsPresent(jwk, names[1..]);
      assert names == [names[0]] + names[1..];
    }
  }

  /** The text that is hashed for a sanitised JWK. */
  function ClaimsText(jwk: Json): Result<Text, ThumbprintError> {
    var kty := Prop(jwk, KTY);
    if kty.None? || !kty.value.Str? || RequiredClaims(kty.value.s).None? then Err(UnsupportedKeyType)
    else
      var names := RequiredClaims(kty.value.s).value;
      match MissingClaimOf(jwk, names)
      case Some(error) => Err(error)
      case None => ClaimsPresent(jwk, names); Ok(Stringify(Components(jwk, kty.value.s)))
  }

  function ThumbprintText(members: seq<Member>): Result<Text, ThumbprintError> {
    match SanitizedJwk(members)
    case Err(error) => Err(error)
    case Ok(sanitized) => ClaimsText(Obj(sanitized))
  }

  // ---- What sanitising does ---------------------------------------------------------------------

  /** No property is null, at any depth. */
  ghost predicate NullFree(v: Json)
    decreases v
  {
    match v
    case Arr(items) => forall i :: 0 <= i < |items| ==> NullFree(items[i])
    case Obj(members) => forall i :: 0 <= i < |members| ==> !members[i].value.Null? && NullFree(members[i].value)
    case _ => true
  }

  lemma {:induction false} NothingNullIsLeft(v: Json)
    ensures NullFree(RemoveNulls(v))
    ensures v.Null? <==> RemoveNulls(v).Null?
    decreases v, 1
  {
    match v
    case Arr(items) =>
      forall i | 0 <= i < |items| ensures NullFree(RemoveNulls(items[i])) {
        NothingNullIsLeft(items[i]);
      }
    case Obj(members) => NoMemberIsNull(members);
    case _ =>
  }

  lemma {:induction false} NoMemberIsNull(members: seq<Member>)
    ensures forall m <- RemoveMemberNulls(members) :: !m.value.Null? && NullFree(m.value)
    decreases members, 0
  {
    if members != [] {
      NothingNullIsLeft(members[0].value);
      NoMemberIsNull(members[1..]);
    }
  }

  /** `removeNulls` leaves no null property at any depth, and nothing else is lost: an array keeps
      its places, an object every property that is not null, each cleared itself. */
  lemma RemovesExactlyNulls(v: Json, name: Text)
    ensures NullFree(RemoveNulls(v))
    ensures v.Arr? ==> RemoveNulls(v).Arr? && |RemoveNulls(v).items| == |v.items| &&
                       forall i :: 0 <= i < |v.items| ==> RemoveNulls(v).items[i] == RemoveNulls(v.items[i])
    ensures v.Obj? ==> RemoveNulls(v).Obj?
    ensures v.Obj? && DistinctKeys(v.members) ==>
              Get(RemoveNulls(v).members, name) ==
              match Get(v.members, name)
              case Some(w) => if w.Null? then None else Some(RemoveNulls(w))
              case None => None
    ensures !v.Arr? && !v.Obj? ==> RemoveNulls(v) == v
  {
    NothingNullIsLeft(v);
    if v.Obj? && DistinctKeys(v.members) {
      GetRemoveNulls(v.members, name);
    }
  }

  /** The members that sanitising writes as base64url. */
  predicate IsSpelledName(name: Text) {
    || name == Lit("x") || name == Lit("y") || name == Lit("d") || name == Lit("n") || name == Lit("e")
    || name == Lit("k")
  }

  lemma CodedIsSpelled(name: Text)
    ensures IsCodedName(name) <==> IsSpelledName(name)
  {
  }

  /** It fails exactly if one of them holds a truthy value that is no text. */
  lemma SanitizingFails(members: seq<Member>)
    ensures SanitizedJwk(members).Err? <==>
            exists m <- members :: IsSpelledName(m.key) && Truthy(Some(m.value)) && !m.value.Str?
  {
    forall i | 0 <= i < |members|
      ensures Replaceable(members[i]) <==>
              !(IsSpelledName(members[i].key) && Truthy(Some(members[i].value)) && !members[i].value.Str?)
      ensures members[i] in members
    {
      CodedIsSpelled(members[i].key);
    }
  }

  /** It writes them as base64url, clears nulls and keeps the rest. */
  lemma SanitizedIs(members: seq<Member>, name: Text)
    requires DistinctKeys(members)
    ensures SanitizedJwk(members).Err? <==>
            exists m <- members :: IsSpelledName(m.key) && Truthy(Some(m.value)) && !m.value.Str?
    ensures SanitizedJwk(members).Ok? ==>
              Prop(Obj(SanitizedJwk(members).value), name) ==
              match Prop(Obj(members), name)
              case None => None
              case Some(v) =>
                if v.Null? then None
                else if IsSpelledName(name) && v.Str? then Some(Str(ToUrl(v.s)))
                else Some(RemoveNulls(v))
  {
    SanitizingFails(members);
    CodedIsSpelled(name);
    if SanitizedJwk(members).Ok? {
      SanitizedProp(members, name);
    }
  }

  // ---- The hashed text is the canonical minimal JWK -----------------------------------------------

  lemma MissingOfOne(jwk: Json, a: Text)
    ensures MissingClaimOf(jwk, [a]).None? <==> Check(jwk, a, false).None?
  {
    assert [a][1..] == [];
  }

  lemma MissingOfTwo(jwk: Json, a: Text, b: Text)
    ensures MissingClaimOf(jwk, [a, b]).None? <==> Check(jwk, a, false).None? && Check(jwk, b, false).None?
  {
    MissingOfOne(jwk, b);
    assert [a, b][1..] == [b];
  }

  lemma MissingOfThree(jwk: Json, a: Text, b: Text, c: Text)
    ensures MissingClaimOf(jwk, [a, b, c]).None? <==>
            Check(jwk, a, false).None? && Check(jwk, b, false).None? && Check(jwk, c, false).None?
  {
    MissingOfTwo(jwk, b, c);
    assert [a, b, c][1..] == [b, c];
  }

  lemma KeyTypesDiffer()
    ensures EC != OKP && EC != RSA && EC != OCT && OKP != RSA && OKP != OCT && RSA != OCT
  {
    assert OKP[0] != RSA[0] && OKP[1] != OCT[1] && RSA[0] != OCT[0] && |EC| == 2;
  }

  /** The claims a thumbprint demands are those `validateJwk` demands. */
  lemma ClaimsAreRequiredMembers(jwk: Json, kty: Text)
    requires jwk.Obj? && Prop(jwk, KTY) == Some(Str(kty)) && kty != OCT && RequiredClaims(kty).Some?
    ensures MissingClaimOf(jwk, RequiredClaims(kty).value).None? <==> ValidateJwk(jwk, false).None?
  {
    KeyTypesDiffer();
    if kty == EC {
      MissingOfThree(jwk, CRV, X, Y);
    } else if kty == OKP {
      MissingOfTwo(jwk, CRV, X);
    } else {
      MissingOfTwo(jwk, E, N);
    }
  }

  lemma ComponentsAreMinimal(jwk: Json, kty: Text)
    requires ValidateJwk(jwk, false).None? && ValidateJwk(jwk, true).None?
    requires Prop(jwk, KTY) == Some(Str(kty)) && kty != OCT && RequiredClaims(kty).Some?
    requires forall name <- RequiredClaims(kty).value :: Prop(jwk, name).Some?
    ensures Components(jwk, kty) == MinimalJwk(jwk)
  {
    KeyTypesDiffer();
    assert NamesOf(jwk) == ComponentNames(kty);
    assert Components(jwk, kty).members == MinimalJwk(jwk).members;
  }

  lemma ClaimsTextIsMinimal(jwk: Json)
    requires jwk.Obj? && Prop(jwk, KTY) != Some(Str(OCT))
    ensures ClaimsText(jwk).Ok? <==> ValidateJwk(jwk, false).None?
    ensures ValidateJwk(jwk, false).None? && ValidateJwk(jwk, true).None? ==>
              ClaimsText(jwk) == Ok(Canonicalize(MinimalJwk(jwk)))
  {
    var kty := Prop(jwk, KTY);
    if kty.Some? && kty.value.Str? && RequiredClaims(kty.value.s).Some? {
      var names := RequiredClaims(kty.value.s).value;
      ClaimsPresent(jwk, names);
      ClaimsAreRequiredMembers(jwk, kty.value.s);
      if ValidateJwk(jwk, false).None? {
        ValidWithoutCurve(jwk);
        ComponentsAreMinimal(jwk, kty.value.s);
        MinimalIsFlat(jwk);
        FlatCanonical(MinimalJwk(jwk).members);
      }
    }
  }

  /** For every key type of the codec, a thumbprint exists exactly when the sanitised JWK is
      valid, and it hashes the canonical text of its minimal form. */
  lemma HashesCanonicalMinimal(members: seq<Member>)
    requires SanitizedJwk(members).Ok?
    requires Prop(Obj(SanitizedJwk(members).value), KTY) != Some(Str(OCT))
    ensures var jwk := Obj(SanitizedJwk(members).value);
            && (ThumbprintText(members).Ok? <==> ValidateJwk(jwk, false).None?)
            && (ValidateJwk(jwk, false).None? && ValidateJwk(jwk, true).None? ==>
                  ThumbprintText(members) == Ok(Canonicalize(MinimalJwk(jwk))))
  {
    ClaimsTextIsMinimal(Obj(SanitizedJwk(members).value));
  }

  // ---- The hashed text, written out -----------------------------------------------------------------

  /** No unit that a JSON string escapes. */
  predicate NeedsNoEscape(t: Text) {
    forall i :: 0 <= i < |t| ==> 0x20 <= t[i] < 0x80 && t[i] != QUOTE && t[i] != BACKSLASH
  }

  lemma {:induction false} PlainIsNotEscaped(t: Text)
    requires NeedsNoEscape(t)
    ensures EscapeText(t) == t
  {
    if t != [] {
      PlainIsNotEscaped(t[1..]);
      assert t == [t[0]] + t[1..];
    }
  }

  predicate IsPlainAscii(s: string) {
    forall i :: 0 <= i < |s| ==> ' ' <= s[i] < 128 as char && s[i] != '"' && s[i] != '\\'
  }

  /** A member as RFC 7638 writes it: its quoted name and its quoted value. */
  function Written(name: string, value: Text): Text
    requires IsPlainAscii(name)
  {
    Lit("\"") + Lit(name) + Lit("\":") + Quote(value)
  }

  lemma MemberIsWritten(name: string, value: Text)
    requires IsPlainAscii(name)
    ensures StringifyMember(Member(Lit(name), Str(value))) == Written(name, value)
  {
    PlainIsNotEscaped(Lit(name));
    assert Lit("\"") == [QUOTE] && Lit("\":") == [QUOTE] + [COLON];
  }

  /** The texts with commas between them. */
  function Joined(parts: seq<Text>): Text {
    if parts == [] then [] else if |parts| == 1 then parts[0] else parts[0] + [COMMA] + Joined(parts[1..])
  }

  lemma {:induction false} MembersJoined(members: seq<Member>, parts: seq<Text>)
    requires |parts| == |members| && forall i :: 0 <= i < |parts| ==> parts[i] == StringifyMember(members[i])
    ensures StringifyMembers(members) == Joined(parts)
  {
    if |members| > 1 {
      MembersJoined(members[1..], parts[1..]);
    }
  }

  /** The text of a claim of the JWK. */
  function ClaimOf(jwk: Json, name: Text): Text {
    match Prop(jwk, name)
    case Some(Str(s)) => s
    case _ => []
  }

  lemma {:induction false} ComponentsAre(jwk: Json, kty: Text)
    requires Prop(jwk, KTY) == Some(Str(kty)) && ClaimsText(jwk).Ok?
    ensures RequiredClaims(kty).Some?
    ensures forall name <- RequiredClaims(kty).value :: Prop(jwk, name).Some?
    ensures ClaimsText(jwk) == Ok(Stringify(Components(jwk, kty)))
    ensures forall i :: 0 <= i < |ComponentNames(kty)| ==>
              var name := ComponentNames(kty)[i];
              Components(jwk, kty).members[i] == Member(name, Str(ClaimOf(jwk, name)))
  {
    ClaimsPresent(jwk, RequiredClaims(kty).value);
    var names := ComponentNames(kty);
    forall i | 0 <= i < |names|
      ensures Components(jwk, kty).members[i] == Member(names[i], Str(ClaimOf(jwk, names[i])))
    {
      assert names[i] in names;
    }
  }

  /** The members that RFC 7638, section 3.2, and RFC 8037, section 2, have hashed, in their order. */
  function WrittenNames(kty: Text): (names: seq<string>)
    ensures forall name <- names :: IsPlainAscii(name)
  {
    if kty == Lit("EC") then ["crv", "kty", "x", "y"]
    else if kty == Lit("OKP") then ["crv", "kty", "x"]
    else if kty == Lit("RSA") then ["e", "kty", "n"]
    else if kty == Lit("oct") then ["k", "kty"]
    else []
  }

  lemma NamesAreWritten(kty: Text)
    requires RequiredClaims(kty).Some?
    ensures |WrittenNames(kty)| == |ComponentNames(kty)| > 0
    ensures forall i :: 0 <= i < |ComponentNames(kty)| ==> SpellsName(WrittenNames(kty)[i], ComponentNames(kty)[i])
  {
  }

  predicate SpellsName(s: string, name: Text) {
    IsPlainAscii(s) && Lit(s) == name
  }

  function WrittenMembers(jwk: Json, kty: Text): (parts: seq<Text>)
    ensures |parts| == |WrittenNames(kty)|
  {
    var names := WrittenNames(kty);
    seq(|names|, i requires 0 <= i < |names| =>
      assert names[i] in names; Written(names[i], ClaimOf(jwk, Lit(names[i]))))
  }

  lemma {:induction false} WrittenAt(jwk: Json, kty: Text, i: nat)
    requires Prop(jwk, KTY) == Some(Str(kty)) && ClaimsText(jwk).Ok?
    ensures RequiredClaims(kty).Some?
    ensures forall name <- RequiredClaims(kty).value :: Prop(jwk, name).Some?
    ensures |WrittenMembers(jwk, kty)| == |Components(jwk, kty).members| > 0
    ensures i < |Components(jwk, kty).members| ==>
              WrittenMembers(jwk, kty)[i] == StringifyMember(Components(jwk, kty).members[i])
  {
    ComponentsAre(jwk, kty);
    NamesAreWritten(kty);
    if i < |ComponentNames(kty)| {
      assert SpellsName(WrittenNames(kty)[i], ComponentNames(kty)[i]);
      MemberIsWritten(WrittenNames(kty)[i], ClaimOf(jwk, ComponentNames(kty)[i]));
    }
  }

  /** The hashed text, member by member, for every key type there is. */
  lemma {:induction false} ThumbprintIsWritten(jwk: Json, kty: Text)
    requires Prop(jwk, Lit("kty")) == Some(Str(kty)) && ClaimsText(jwk).Ok?
    ensures WrittenMembers(jwk, kty) != []
    ensures ClaimsText(jwk) == Ok([LBRACE] + Joined(WrittenMembers(jwk, kty)) + [RBRACE])
  {
    ComponentsAre(jwk, kty);
    WrittenAt(jwk, kty, 0);
    var members := Components(jwk, kty).members;
    forall i | 0 <= i < |members| ensures WrittenMembers(jwk, kty)[i] == StringifyMember(members[i]) {
      WrittenAt(jwk, kty, i);
    }
    MembersJoined(members, WrittenMembers(jwk, kty));
  }

  /** The claims that must be non-empty texts, in the order of the checks. */
  function DemandedNames(kty: Text): (names: seq<string>)
    ensures forall name <- names :: IsPlainAscii(name)
  {
    if kty == Lit("EC") then ["crv", "x", "y"]
    else if kty == Lit("OKP") then ["crv", "x"]
    else if kty == Lit("RSA") then ["e", "n"]
    else if kty == Lit("oct") then ["k"]
    else []
  }

  lemma DemandedAre(kty: Text)
    ensures RequiredClaims(kty).None? <==> DemandedNames(kty) == []
    ensures RequiredClaims(kty).Some? ==>
              && |RequiredClaims(kty).value| == |DemandedNames(kty)|
              && forall i :: 0 <= i < |DemandedNames(kty)| ==>
                   SpellsName(DemandedNames(kty)[i], RequiredClaims(kty).value[i])
  {
  }

  lemma {:induction false} FirstMissing(jwk: Json, names: seq<Text>) returns (k: nat)
    requires MissingClaimOf(jwk, names).Some?
    ensures k < |names| && MissingClaimOf(jwk, names) == Some(MissingClaim(names[k])) && !HasText(jwk, names[k])
    ensures forall j :: 0 <= j < k ==> HasText(jwk, names[j])
  {
    if Check(jwk, names[0], false).Some? {
      k := 0;
    } else {
      var rest := FirstMissing(jwk, names[1..]);
      k := rest + 1;
      assert forall j :: 0 < j < k ==> names[j] == names[1..][j - 1];
    }
  }

  /** A thumbprint fails for its key type exactly if that is none of the four, and else for the first
      claim that is no non-empty text. */
  lemma ThumbprintFails(jwk: Json)
    requires ClaimsText(jwk).Err?
    ensures if !(exists kty: Text :: Prop(jwk, Lit("kty")) == Some(Str(kty)) && DemandedNames(kty) != [])
            then ClaimsText(jwk) == Err(UnsupportedKeyType)
            else exists kty: Text, k: nat ::
                   && Prop(jwk, Lit("kty")) == Some(Str(kty)) && k < |DemandedNames(kty)|
                   && var names := DemandedNames(kty);
                      && names[k] in names && ClaimsText(jwk) == Err(MissingClaim(Lit(names[k])))
                      && !HasText(jwk, Lit(names[k]))
                      && forall j: nat :: j < k ==> names[j] in names && HasText(jwk, Lit(names[j]))
  {
    if kty: Text :| Prop(jwk, Lit("kty")) == Some(Str(kty)) && DemandedNames(kty) != [] {
      DemandedAre(kty);
      var k := FirstMissing(jwk, RequiredClaims(kty).value);
      var names := DemandedNames(kty);
      assert SpellsName(names[k], RequiredClaims(kty).value[k]);
      forall j: nat | j < k ensures names[j] in names && HasText(jwk, Lit(names[j])) {
        assert SpellsName(names[j], RequiredClaims(kty).value[j]);
      }
    } else {
      if Prop(jwk, KTY).Some? && Prop(jwk, KTY).value.Str? {
        DemandedAre(Prop(jwk, KTY).value.s);
      }
    }
  }

  /** A thumbprint of a symmetric key exists exactly when its key value is a non-empty text; what is
      hashed is the canonical text of the object of that value and the key type, in any order. */
  lemma OctHashesCanonical(jwk: Json)
    requires Prop(jwk, KTY) == Some(Str(OCT))
    ensures ClaimsText(jwk).Ok? <==> exists k: Text :: k != [] && Prop(jwk, K) == Some(Str(k))
    ensures ClaimsText(jwk).Ok? ==>
              ClaimsText(jwk).value ==
              Canonicalize(Obj([Member(KTY, Str(OCT)), Member(K, Str(ClaimOf(jwk, K)))]))
  {
    KeyTypesDiffer();
    MissingOfOne(jwk, K);
    assert Check(jwk, K, false).None? <==> exists k: Text :: k != [] && Prop(jwk, K) == Some(Str(k));
    ClaimsPresent(jwk, [K]);
    if ClaimsText(jwk).Ok? {
      ComponentsAre(jwk, OCT);
      var k, kty := Member(K, Str(ClaimOf(jwk, K))), Member(KTY, Str(OCT));
      assert ComponentNames(OCT) == [K, KTY];
      assert Components(jwk, OCT).members == [k, kty];
      SwappedPair(kty, k);
    }
  }

  lemma SwappedPair(a: Member, b: Member)
    requires Less(b.key, a.key) && a.value.Str? && b.value.Str? && a.key != TO_JSON && b.key != TO_JSON
    ensures Canonicalize(Obj([a, b])) == Stringify(Obj([b, a]))
  {
    var m, n := [a, b], [b, a];
    assert !HasToJson(m) && NormalMembers(m) == m;
    LessIrreflexive(a.key);
    SortSorts(m);
    assert Elements(m) == {a, b} && Elements(n) == {a, b};
    SortedUnique(Sort(m), n);
  }

  // ---- Spellings and optional members ------------------------------------------------------------

  lemma GetCons(m: Member, members: seq<Member>, name: Text)
    ensures Get([m] + members, name) == if m.key == name then Some(m.value) else Get(members, name)
  {
    assert ([m] + members)[1..] == members;
  }

  lemma {:induction false} GetRemoveNulls(members: seq<Member>, name: Text)
    requires DistinctKeys(members)
    ensures Get(RemoveMemberNulls(members), name) == WithoutNull(Get(members, name))
  {
    if members != [] {
      var m, tail := members[0], members[1..];
      GetRemoveNulls(tail, name);
      if m.key == name { assert Get(tail, name).None?; }
      if m.value.Null? {
        assert RemoveMemberNulls(members) == RemoveMemberNulls(tail);
      } else {
        GetCons(Member(m.key, RemoveNulls(m.value)), RemoveMemberNulls(tail), name);
      }
    }
  }

  /** A property value after removing nulls. */
  function WithoutNull(v: Option<Json>): Option<Json> {
    match v
    case None => None
    case Some(w) => if w.Null? then None else Some(RemoveNulls(w))
  }

  lemma {:induction false} GetUrl(members: seq<Member>, name: Text)
    ensures Get(UrlMembers(members), name) ==
            match Get(members, name)
            case None => None
            case Some(v) => Some(UrlMember(Member(name, v)).value)
  {
    if members != [] {
      GetUrl(members[1..], name);
      assert UrlMembers(members)[1..] == UrlMembers(members[1..]);
    }
  }

  /** What sanitising does to one property. */
  function SanitizedValue(name: Text, v: Option<Json>): Option<Json> {
    match v
    case None => None
    case Some(w) => WithoutNull(Some(UrlMember(Member(name, w)).value))
  }

  lemma SanitizedProp(members: seq<Member>, name: Text)
    requires DistinctKeys(members) && SanitizedJwk(members).Ok?
    ensures Prop(Obj(SanitizedJwk(members).value), name) == SanitizedValue(name, Prop(Obj(members), name))
  {
    GetUrl(members, name);
    GetRemoveNulls(UrlMembers(members), name);
  }

  /** The names a thumbprint can depend on. */
  predicate IsRelevant(name: Text) {
    name == KTY || name == CRV || IsCodedName(name)
  }

  /** Thumbprints depend on the key type and the required members alone, and on those only up to
      their spelling: members that sanitise alike give one text. */
  lemma ThumbprintDependsOn(a: seq<Member>, b: seq<Member>)
    requires DistinctKeys(a) && DistinctKeys(b) && SanitizedJwk(a).Ok? && SanitizedJwk(b).Ok?
    requires forall name | IsRelevant(name) ::
               SanitizedValue(name, Prop(Obj(a), name)) == SanitizedValue(name, Prop(Obj(b), name))
    ensures ThumbprintText(a) == ThumbprintText(b)
  {
    var p, q := Obj(SanitizedJwk(a).value), Obj(SanitizedJwk(b).value);
    forall name | IsRelevant(name) ensures Prop(p, name) == Prop(q, name) {
      SanitizedProp(a, name);
      SanitizedProp(b, name);
    }
    SameClaimsText(p, q);
  }

  lemma SameClaimsText(p: Json, q: Json)
    requires forall name | IsRelevant(name) :: Prop(p, name) == Prop(q, name)
    ensures ClaimsText(p) == ClaimsText(q)
  {
    assert IsRelevant(KTY);
    var kty := Prop(p, KTY);
    if kty.Some? && kty.value.Str? && RequiredClaims(kty.value.s).Some? {
      var names := RequiredClaims(kty.value.s).value;
      RequiredAreRelevant(kty.value.s);
      SameMissing(p, q, names);
      ClaimsPresent(p, names);
      ClaimsPresent(q, names);
      if MissingClaimOf(p, names).None? { SameComponents(p, q, kty.value.s); }
    }
  }

  lemma RequiredAreRelevant(kty: Text)
    requires RequiredClaims(kty).Some?
    ensures forall name <- RequiredClaims(kty).value :: IsRelevant(name)
  {
  }

  lemma SameComponents(p: Json, q: Json, kty: Text)
    requires RequiredClaims(kty).Some? && Prop(p, KTY).Some? && Prop(p, KTY) == Prop(q, KTY)
    requires forall name <- RequiredClaims(kty).value :: Prop(p, name).Some? && Prop(p, name) == Prop(q, name)
    ensures Components(p, kty) == Components(q, kty)
  {
    var names := ComponentNames(kty);
    forall i | 0 <= i < |names| ensures Components(p, kty).members[i] == Components(q, kty).members[i] {
      assert names[i] in names;
    }
    assert Components(p, kty).members == Components(q, kty).members;
  }

  lemma {:induction false} SameMissing(p: Json, q: Json, names: seq<Text>)
    requires forall name <- names :: Prop(p, name) == Prop(q, name)
    ensures MissingClaimOf(p, names) == MissingClaimOf(q, names)
  {
    if names != [] {
      assert names[0] in names;
      SameMissing(p, q, names[1..]);
    }
  }

  lemma UrlDigit(s: B.sextet)
    ensures UrlUnit(B.Digit(s, false)) == B.Digit(s, true) == UrlUnit(B.Digit(s, true))
  {
  }

  lemma {:induction false} UrlUnitsEncode(b: seq<B.byte>)
    ensures UrlUnits(B.Encode(b, false)) == B.Encode(b, true) == UrlUnits(B.Encode(b, true))
    decreases |b|
  {
    forall s: B.sextet ensures UrlUnit(B.Digit(s, false)) == B.Digit(s, true) == UrlUnit(B.Digit(s, true)) {
      UrlDigit(s);
    }
    if |b| > 3 {
      UrlUnitsEncode(b[3..]);
    }
  }

  lemma UrlUnitsPadded(t: Text, n: nat)
    ensures UrlUnits(t + B.Repeat(B.PAD, n)) == UrlUnits(t) + B.Repeat(B.PAD, n)
  {
  }

  /** Base 64 and base64url of the same bytes sanitise to the same text, however padded. */
  lemma SpellingsCollapse(b: seq<B.byte>, url: bool, padding: nat)
    ensures ToUrl(B.Encode(b, url) + B.Repeat(B.PAD, padding)) == B.Encode(b, true)
  {
    UrlUnitsEncode(b);
    UrlUnitsPadded(B.Encode(b, url), padding);
    UrlTailIsDigit(b);
    B.StripRepeat(B.Encode(b, true), padding);
  }

  lemma UrlTailIsDigit(b: seq<B.byte>)
    ensures var t := B.Encode(b, true); t != [] ==> t[|t| - 1] != B.PAD
  {
    var t := B.Encode(b, true);
    B.EncodeDigits(b, true);
    if t != [] { assert B.Value(t[|t| - 1], true).Some?; }
  }

  /** The value of a property is some spelling of the bytes. */
  ghost predicate Spells(v: Option<Json>, bytes: seq<B.byte>) {
    exists url: bool, padding: nat :: v == Some(Str(B.Encode(bytes, url) + B.Repeat(B.PAD, padding)))
  }

  lemma SpellingSanitized(v: Option<Json>, bytes: seq<B.byte>, name: Text)
    requires IsCodedName(name) && Spells(v, bytes)
    ensures SanitizedValue(name, v) == Some(Str(B.Encode(bytes, true)))
  {
    var url: bool, padding: nat :| v == Some(Str(B.Encode(bytes, url) + B.Repeat(B.PAD, padding)));
    SpellingsCollapse(bytes, url, padding);
  }

  /** JWKs with the same key type and curve, whose coordinates and other coded members are equal
      or spell the same bytes, have one thumbprint, whatever their optional members are. */
  lemma RespelledThumbprint(a: seq<Member>, b: seq<Member>)
    requires DistinctKeys(a) && DistinctKeys(b)
    requires Prop(Obj(a), KTY) == Prop(Obj(b), KTY) && Prop(Obj(a), CRV) == Prop(Obj(b), CRV)
    requires forall name | IsCodedName(name) ::
               || Prop(Obj(a), name) == Prop(Obj(b), name)
               || exists bytes :: Spells(Prop(Obj(a), name), bytes) && Spells(Prop(Obj(b), name), bytes)
    ensures ThumbprintText(a) == ThumbprintText(b)
  {
    forall name | IsRelevant(name)
      ensures SanitizedValue(name, Prop(Obj(a), name)) == SanitizedValue(name, Prop(Obj(b), name))
    {
      if IsCodedName(name) && Prop(Obj(a), name) != Prop(Obj(b), name) {
        var bytes :| Spells(Prop(Obj(a), name), bytes) && Spells(Prop(Obj(b), name), bytes);
        SpellingSanitized(Prop(Obj(a), name), bytes, name);
        SpellingSanitized(Prop(Obj(b), name), bytes, name);
      }
    }
    if SanitizedJwk(a).Err? { RefusedAlike(a, b); }
    if SanitizedJwk(b).Err? { RefusedAlike(b, a); }
    if SanitizedJwk(a).Ok? { ThumbprintDependsOn(a, b); }
  }

  /** A member that cannot be sanitised is no spelling, so both JWKs have it. */
  lemma RefusedAlike(a: seq<Member>, b: seq<Member>)
    requires DistinctKeys(a) && DistinctKeys(b) && SanitizedJwk(a).Err?
    requires forall name | IsCodedName(name) ::
               || Prop(Obj(a), name) == Prop(Obj(b), name)
               || exists bytes :: Spells(Prop(Obj(a), name), bytes) && Spells(Prop(Obj(b), name), bytes)
    ensures SanitizedJwk(b).Err?
  {
    var i :| 0 <= i < |a| && !Replaceable(a[i]);
    GetDistinct(a, i);
    var j :| 0 <= j < |b| && b[j] == Member(a[i].key, a[i].value);
    assert !Replaceable(b[j]);
  }

  // ---- Sanitising twice -----------------------------------------------------------------------

  lemma {:induction false} StripKeepsUnits(t: Text)
    ensures UrlUnits(B.StripPadding(UrlUnits(t))) == B.StripPadding(UrlUnits(t))
  {
    var r := B.StripPadding(UrlUnits(t));
    assert forall i :: 0 <= i < |r| ==> r[i] == UrlUnit(t[i]);
  }

  lemma ToUrlIdempotent(t: Text)
    ensures ToUrl(ToUrl(t)) == ToUrl(t)
  {
    StripKeepsUnits(t);
    var r := ToUrl(t);
    assert r == [] || r[|r| - 1] != B.PAD;
  }

  lemma {:induction false} RemoveNullsIdempotent(v: Json)
    ensures RemoveNulls(RemoveNulls(v)) == RemoveNulls(v)
    decreases v, 1
  {
    match v
    case Arr(items) => RemoveItemNullsIdempotent(items);
    case Obj(members) => RemoveMemberNullsIdempotent(members);
    case _ =>
  }

  lemma {:induction false} RemoveItemNullsIdempotent(items: seq<Json>)
    ensures RemoveItemNulls(RemoveItemNulls(items)) == RemoveItemNulls(items)
    decreases items, 0
  {
    if items != [] {
      RemoveNullsIdempotent(items[0]);
      RemoveItemNullsIdempotent(items[1..]);
      assert RemoveItemNulls(items)[1..] == RemoveItemNulls(items[1..]);
    }
  }

  lemma {:induction false} RemoveMemberNullsIdempotent(members: seq<Member>)
    ensures RemoveMemberNulls(RemoveMemberNulls(members)) == RemoveMemberNulls(members)
    decreases members, 0
  {
    if members != [] {
      var m := Member(members[0].key, RemoveNulls(members[0].value));
      RemoveNullsIdempotent(members[0].value);
      RemoveMemberNullsIdempotent(members[1..]);
      if !m.value.Null? {
        assert RemoveMemberNulls(members) == [m] + RemoveMemberNulls(members[1..]);
        assert RemoveMemberNulls(members)[1..] == RemoveMemberNulls(members[1..]);
      } else {
        assert RemoveMemberNulls(members) == RemoveMemberNulls(members[1..]);
      }
    }
  }

  lemma {:induction false} UrlCommutes(members: seq<Member>)
    ensures UrlMembers(RemoveMemberNulls(UrlMembers(members))) == RemoveMemberNulls(UrlMembers(members))
  {
    if members != [] {
      var tail := members[1..];
      UrlCommutes(tail);
      assert UrlMembers(members)[1..] == UrlMembers(tail);
      if members[0].value.Str? { ToUrlIdempotent(members[0].value.s); }
    }
  }

  predicate ComesFrom(m: Member, n: Member) {
    m == Member(n.key, RemoveNulls(UrlMember(n).value)) && !n.value.Null?
  }

  lemma {:induction false} EachComesFrom(members: seq<Member>)
    ensures forall m <- RemoveMemberNulls(UrlMembers(members)) :: exists n <- members :: ComesFrom(m, n)
  {
    if members != [] {
      var tail := members[1..];
      EachComesFrom(tail);
      assert UrlMembers(members)[1..] == UrlMembers(tail);
      assert members[0] in members;
      forall m | m in RemoveMemberNulls(UrlMembers(tail)) ensures exists n <- members :: ComesFrom(m, n) {
        var n :| n in tail && ComesFrom(m, n);
        assert n in members;
      }
    }
  }

  /** Sanitising a sanitised JWK changes nothing. */
  lemma SanitizedIdempotent(members: seq<Member>)
    requires SanitizedJwk(members).Ok?
    ensures SanitizedJwk(SanitizedJwk(members).value) == SanitizedJwk(members)
  {
    var once := SanitizedJwk(members).value;
    UrlCommutes(members);
    EachComesFrom(members);
    RemoveMemberNullsIdempotent(UrlMembers(members));
    forall i | 0 <= i < |once| ensures Replaceable(once[i]) {
      assert once[i] in once;
      var n :| n in members && ComesFrom(once[i], n);
      var j :| 0 <= j < |members| && members[j] == n;
      assert Replaceable(members[j]);
    }
  }
}
