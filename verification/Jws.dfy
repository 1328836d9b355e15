/** JWS assembly (RFC 7515, sections 7.1 and 7.2.1): header and payload preparation with their
    updates in place, and the general, flattened and compact forms. */
module Jws {
  import opened Wrappers
  import opened Utf16
  import B = Base64

  type Bytes = seq<B.byte>

  datatype Method = Did | X5c | Kid | Jwk | OtherMethod

  /** The requested header mode; `Mode(m)` asks for one method. */
  datatype Mode = Auto | Mode(requested: Method)

  /** A resolved signing identifier. `name` is its issuer, if it has one. */
  datatype Identifier = Identifier(
    identifierMethod: Method, kmsKeyRef: Text, kid: Text, jwk: Text, x5c: Text, name: Text)

  /** The issuer argument: its identifier and its two switches. */
  datatype Issuer = Issuer(identifier: Identifier, noIssPayloadUpdate: bool, noIdentifierInHeader: bool)

  datatype JwsError =
    | InvalidMode | UnknownIdentifier | KeyMismatch | HeaderConflict | InvalidPayload | NotOneSignature | InvalidJws

  /** Protected header members that matter here; the empty text stands for an absent member. */
  datatype HeaderValue = HeaderValue(kid: Text, jwk: Text, x5c: Text, rest: Text)

  datatype PayloadValue = PayloadValue(iss: Text, clientId: Text, clientIdScheme: Text, claims: Text)

  /** The agent: resolving managed identifiers to key references, encoding and signing. */
  datatype Agent = Agent(
    keyOf: (Method, Text) -> Option<Text>,
    encodeHeader: HeaderValue -> Text,
    encodePayload: PayloadValue -> Bytes,
    sign: (Text, Text) -> Text)

  class JwsHeader {
    var kid: Text
    var jwk: Text
    var x5c: Text
    const rest: Text

    constructor (v: HeaderValue)
      ensures Value() == v
    {
      kid, jwk, x5c, rest := v.kid, v.jwk, v.x5c, v.rest;
    }

    function Value(): HeaderValue
      reads this
    {
      HeaderValue(kid, jwk, x5c, rest)
    }
  }

  class JwsPayload {
    var iss: Text
    var clientId: Text
    var clientIdScheme: Text
    const claims: Text

    constructor (v: PayloadValue)
      ensures Value() == v
    {
      iss, clientId, clientIdScheme, claims := v.iss, v.clientId, v.clientIdScheme, v.claims;
    }

    function Value(): PayloadValue
      reads this
    {
      PayloadValue(iss, clientId, clientIdScheme, claims)
    }
  }

  // ---- The header ---------------------------------------------------------------------

  /** Which of the four header updates a mode selects for an identifier, if any. */
  function SelectedMethod(mode: Mode, identifierMethod: Method): Option<Method> {
    match mode
    case Auto => if identifierMethod == OtherMethod then None else Some(identifierMethod)
    case Mode(m) => if m == identifierMethod && m != OtherMethod then Some(m) else None
  }

  /** The header member that belongs to a method: DID and kid mode share one. */
  function MemberOf(h: HeaderValue, m: Method): Text {
    match m
    case X5c => h.x5c
    case Jwk => h.jwk
    case _ => h.kid
  }

  /** Members that must be absent for the method's member to be filled in. */
  predicate Conflicts(h: HeaderValue, m: Method) {
    match m
    case Did => h.jwk != [] || h.x5c != []
    case X5c => h.jwk != [] || h.kid != []
    case _ => h.x5c != []
  }

  function Fill(h: HeaderValue, m: Method, identifier: Identifier): HeaderValue {
    match m
    case X5c => h.(x5c := identifier.x5c)
    case Jwk => h.(jwk := identifier.jwk)
    case _ => h.(kid := identifier.kid)
  }

  /** The header after the update for one method. */
  function HeaderFor(m: Method, issuer: Issuer, h: HeaderValue, agent: Agent): Result<HeaderValue, JwsError> {
    if MemberOf(h, m) != [] then
      match agent.keyOf(m, MemberOf(h, m))
      case None => Err(UnknownIdentifier)
      case Some(key) => if key == issuer.identifier.kmsKeyRef then Ok(h) else Err(KeyMismatch)
    else if issuer.noIdentifierInHeader then Ok(h)
    else if Conflicts(h, m) then Err(HeaderConflict)
    else Ok(Fill(h, m, issuer.identifier))
  }

  /** `checkAndUpdateJwsHeader`: the header afterwards. */
  function UpdatedHeader(mode: Mode, issuer: Issuer, h: HeaderValue, agent: Agent): Result<HeaderValue, JwsError> {
    match SelectedMethod(mode, issuer.identifier.identifierMethod)
    case None => Err(InvalidMode)
    case Some(m) => HeaderFor(m, issuer, h, agent)
  }

  /** The agent resolves an identifier's own members to its own key, and they are not empty. */
  ghost predicate KnowsIdentifier(agent: Agent, identifier: Identifier) {
    && identifier.kid != [] && identifier.jwk != [] && identifier.x5c != []
    && agent.keyOf(Did, identifier.kid) == Some(identifier.kmsKeyRef)
    && agent.keyOf(Kid, identifier.kid) == Some(identifier.kmsKeyRef)
    && agent.keyOf(Jwk, identifier.jwk) == Some(identifier.kmsKeyRef)
    && agent.keyOf(X5c, identifier.x5c) == Some(identifier.kmsKeyRef)
  }

  /** The header's member for the mode resolves to the signing key. */
  predicate NamesSigner(mode: Mode, issuer: Issuer, h: HeaderValue, agent: Agent) {
    var m := SelectedMethod(mode, issuer.identifier.identifierMethod);
    m.Some? && agent.keyOf(m.value, MemberOf(h, m.value)) == Some(issuer.identifier.kmsKeyRef)
  }

  /** Members are filled in, never replaced. */
  predicate KeepsMembers(h: HeaderValue, g: HeaderValue) {
    && (g.kid == h.kid || h.kid == []) && (g.jwk == h.jwk || h.jwk == []) && (g.x5c == h.x5c || h.x5c == [])
    && g.rest == h.rest
  }

  /** The header ends as r says, or is left alone with r's error. */
  predicate Becomes(r: Result<HeaderValue, JwsError>, before: HeaderValue, after: HeaderValue,
                    error: Option<JwsError>)
  {
    match r
    case Err(e) => error == Some(e) && after == before
    case Ok(h) => error == None && after == h
  }

  /** The identifier that the header already names must be the signer's. */
  method CheckPresent(m: Method, present: Text, issuer: Issuer, agent: Agent) returns (error: Option<JwsError>)
    ensures match agent.keyOf(m, present)
            case None => error == Some(UnknownIdentifier)
            case Some(key) => error == if key == issuer.identifier.kmsKeyRef then None else Some(KeyMismatch)
  {
    var key := agent.keyOf(m, present);
    if key.None? {
      return Some(UnknownIdentifier);
    }
    return if key.value == issuer.identifier.kmsKeyRef then None else Some(KeyMismatch);
  }

  method CheckAndUpdateX5cHeader(header: JwsHeader, issuer: Issuer, agent: Agent) returns (error: Option<JwsError>)
    modifies header`x5c
    ensures Becomes(HeaderFor(X5c, issuer, old(header.Value()), agent), old(header.Value()), header.Value(), error)
  {
    if header.x5c != [] {
      error := CheckPresent(X5c, header.x5c, issuer, agent);
      return;
    }
    if !issuer.noIdentifierInHeader {
      if header.jwk != [] || header.kid != [] {
        return Some(HeaderConflict);
      }
      header.x5c := issuer.identifier.x5c;
    }
    return None;
  }

  method CheckAndUpdateDidHeader(header: JwsHeader, issuer: Issuer, agent: Agent) returns (error: Option<JwsError>)
    modifies header`kid
    ensures Becomes(HeaderFor(Did, issuer, old(header.Value()), agent), old(header.Value()), header.Value(), error)
  {
    if header.kid != [] {
      error := CheckPresent(Did, header.kid, issuer, agent);
      return;
    }
    if !issuer.noIdentifierInHeader {
      if header.jwk != [] || header.x5c != [] {
        return Some(HeaderConflict);
      }
      header.kid := issuer.identifier.kid;
    }
    return None;
  }

  method CheckAndUpdateJwkHeader(header: JwsHeader, issuer: Issuer, agent: Agent) returns (error: Option<JwsError>)
    modifies header`jwk
    ensures Becomes(HeaderFor(Jwk, issuer, old(header.Value()), agent), old(header.Value()), header.Value(), error)
  {
    if header.jwk != [] {
      error := CheckPresent(Jwk, header.jwk, issuer, agent);
      return;
    }
    if !issuer.noIdentifierInHeader {
      if header.x5c != [] {
        return Some(HeaderConflict);
      }
      header.jwk := issuer.identifier.jwk;
    }
    return None;
  }

  method CheckAndUpdateKidHeader(header: JwsHeader, issuer: Issuer, agent: Agent) returns (error: Option<JwsError>)
    modifies header`kid
    ensures Becomes(HeaderFor(Kid, issuer, old(header.Value()), agent), old(header.Value()), header.Value(), error)
  {
    if header.kid != [] {
      error := CheckPresent(Kid, header.kid, issuer, agent);
      return;
    }
    if !issuer.noIdentifierInHeader {
      if header.x5c != [] {
        return Some(HeaderConflict);
      }
      header.kid := issuer.identifier.kid;
    }
    return None;
  }

  /** `isIdentifierMode` for one of the four; None is the conflict that it throws. */
  method IsIdentifierMode(mode: Mode, identifierMethod: Method, checked: Method) returns (r: Option<bool>)
    requires checked != OtherMethod
    ensures r == if mode == Mode(checked) && identifierMethod != checked then None
                 else Some(mode == Mode(checked) || (mode == Auto && identifierMethod == checked))
  {
    if mode == Mode(checked) {
      return if identifierMethod != checked then None else Some(true);
    }
    return Some(mode == Auto && identifierMethod == checked);
  }

  /** An accepted header names the signing key, keeps its other members, and is accepted again
      unchanged; so one header object serves any number of signatures by that key. */
  method CheckAndUpdateJwsHeader(mode: Mode, issuer: Issuer, header: JwsHeader, agent: Agent)
    returns (error: Option<JwsError>)
    modifies header
    ensures Becomes(UpdatedHeader(mode, issuer, old(header.Value()), agent), old(header.Value()), header.Value(), error)
    ensures error == None && !issuer.noIdentifierInHeader && KnowsIdentifier(agent, issuer.identifier) ==>
              && NamesSigner(mode, issuer, header.Value(), agent)
              && KeepsMembers(old(header.Value()), header.Value())
              && UpdatedHeader(mode, issuer, header.Value(), agent) == Ok(header.Value())
  {
    var identifierMethod := issuer.identifier.identifierMethod;
    var did := IsIdentifierMode(mode, identifierMethod, Did);
    var x5c := IsIdentifierMode(mode, identifierMethod, X5c);
    var kid := IsIdentifierMode(mode, identifierMethod, Kid);
    var jwk := IsIdentifierMode(mode, identifierMethod, Jwk);
    if did == Some(true) {
      error := CheckAndUpdateDidHeader(header, issuer, agent);
    } else if x5c == Some(true) {
      error := CheckAndUpdateX5cHeader(header, issuer, agent);
    } else if kid == Some(true) {
      error := CheckAndUpdateKidHeader(header, issuer, agent);
    } else if jwk == Some(true) {
      error := CheckAndUpdateJwkHeader(header, issuer, agent);
    } else {
      error := Some(InvalidMode);
    }
  }

  // ---- The payload --------------------------------------------------------------------

  /** The payload argument: raw bytes, a base64url text, or an object shared with the caller. */
  datatype Payload = BytesPayload(bytes: Bytes) | TextPayload(text: Text) | ObjectPayload(claimsObject: JwsPayload)

  /** What a payload argument amounts to at one moment. */
  datatype PayloadState = BytesState(bytes: Bytes) | TextState(text: Text) | ObjectState(value: PayloadValue)

  function StateOf(payload: Payload): PayloadState
    reads if payload.ObjectPayload? then {payload.claimsObject} else {}
  {
    match payload
    case BytesPayload(bytes) => BytesState(bytes)
    case TextPayload(text) => TextState(text)
    case ObjectPayload(p) => ObjectState(p.Value())
  }

  /** Only absent claims of an object are filled in. */
  function UpdatedPayload(p: PayloadState, issuer: Issuer, clientId: Text, clientIdScheme: Text): PayloadState {
    match p
    case ObjectState(v) =>
      ObjectState(PayloadValue(
        if !issuer.noIssPayloadUpdate && v.iss == [] then issuer.identifier.name else v.iss,
        if v.clientId == [] then clientId else v.clientId,
        if v.clientIdScheme == [] then clientIdScheme else v.clientIdScheme,
        v.claims))
    case _ => p
  }

  /** `payloadToBytes`; None when a text is not base64url. */
  function PayloadBytes(p: PayloadState, agent: Agent): Option<Bytes> {
    match p
    case BytesState(bytes) => Some(bytes)
    case TextState(text) => B.Decode(text, true)
    case ObjectState(v) => Some(agent.encodePayload(v))
  }

  /** The base64url text of the header and of the payload. */
  datatype Prepared = Prepared(protectedHeader: Text, payload: Text)

  function PreparedFrom(h: HeaderValue, p: PayloadState, agent: Agent): Result<Prepared, JwsError> {
    match PayloadBytes(p, agent)
    case None => Err(InvalidPayload)
    case Some(bytes) => Ok(Prepared(agent.encodeHeader(h), B.Encode(bytes, true)))
  }

  method PrepareJwsObject(header: JwsHeader, payload: Payload, issuer: Issuer, mode: Mode, clientId: Text,
                          clientIdScheme: Text, agent: Agent)
    returns (r: Result<Prepared, JwsError>)
    modifies header, if payload.ObjectPayload? then {payload.claimsObject} else {}
    ensures match UpdatedHeader(mode, issuer, old(header.Value()), agent)
            case Err(error) =>
              r == Err(error) && header.Value() == old(header.Value()) && StateOf(payload) == old(StateOf(payload))
            case Ok(h) =>
              && header.Value() == h
              && StateOf(payload) == UpdatedPayload(old(StateOf(payload)), issuer, clientId, clientIdScheme)
              && r == PreparedFrom(h, StateOf(payload), agent)
    ensures UpdatedHeader(mode, issuer, old(header.Value()), agent).Ok? && payload.ObjectPayload? ==>
              var p := payload.claimsObject;
              && p.iss == (if old(p.iss) != [] || issuer.noIssPayloadUpdate then old(p.iss) else issuer.identifier.name)
              && p.clientId == (if old(p.clientId) != [] then old(p.clientId) else clientId)
              && p.clientIdScheme == (if old(p.clientIdScheme) != [] then old(p.clientIdScheme) else clientIdScheme)
    ensures r.Ok? ==>
              && r.value.protectedHeader == agent.encodeHeader(header.Value())
              && B.Decode(r.value.payload, true) ==
                 match payload
                 case BytesPayload(bytes) => Some(bytes)
                 case TextPayload(text) => B.Decode(text, true)
                 case ObjectPayload(p) => Some(agent.encodePayload(p.Value()))
  {
    var error := CheckAndUpdateJwsHeader(mode, issuer, header, agent);
    if error.Some? {
      return Err(error.value);
    }
    if payload.ObjectPayload? {
      var target := payload.claimsObject;
      if !issuer.noIssPayloadUpdate && target.iss == [] && issuer.identifier.name != [] {
        target.iss := issuer.identifier.name;
      }
      if clientIdScheme != [] && target.clientIdScheme == [] {
        target.clientIdScheme := clientIdScheme;
      }
      if clientId != [] && target.clientId == [] {
        target.clientId := clientId;
      }
    }
    var bytes := PayloadBytes(StateOf(payload), agent);
    if bytes.None? {
      return Err(InvalidPayload);
    }
    B.DecodeEncode(bytes.value, true, 0);
    assert B.Encode(bytes.value, true) + B.Repeat(B.PAD, 0) == B.Encode(bytes.value, true);
    return Ok(Prepared(agent.encodeHeader(header.Value()), B.Encode(bytes.value, true)));
  }

  // ---- The serializations ----------------------------------------------------------------

  datatype JwsSignature = JwsSignature(protectedHeader: Text, header: Text, signature: Text)

  datatype JwsGeneral = JwsGeneral(payload: Text, signatures: seq<JwsSignature>)

  function SigningInput(protectedHeader: Text, payload: Text): Text {
    protectedHeader + [DOT] + payload
  }

  /** One signature behind the existing ones; the payload is that of this call. */
  function Signed(prepared: Prepared, unprotected: Text, existing: seq<JwsSignature>, issuer: Issuer, agent: Agent)
    : JwsGeneral
  {
    var signature := agent.sign(issuer.identifier.kmsKeyRef, SigningInput(prepared.protectedHeader, prepared.payload));
    JwsGeneral(prepared.payload, existing + [JwsSignature(prepared.protectedHeader, unprotected, signature)])
  }

  /** What `createJwsJsonGeneral` resolves to, with the payload as it is left behind. It does
      not pass a client identifier on. */
  function GeneralFrom(mode: Mode, issuer: Issuer, h: HeaderValue, p: PayloadState, unprotected: Text,
                       existing: seq<JwsSignature>, agent: Agent): (Result<JwsGeneral, JwsError>, PayloadState) {
    match UpdatedHeader(mode, issuer, h, agent)
    case Err(error) => (Err(error), p)
    case Ok(g) =>
      var q := UpdatedPayload(p, issuer, [], []);
      match PreparedFrom(g, q, agent)
      case Err(error) => (Err(error), q)
      case Ok(prepared) => (Ok(Signed(prepared, unprotected, existing, issuer, agent)), q)
  }

  method CreateJwsJsonGeneral(header: JwsHeader, unprotected: Text, payload: Payload, existing: seq<JwsSignature>,
                              issuer: Issuer, mode: Mode, agent: Agent)
    returns (r: Result<JwsGeneral, JwsError>)
    modifies header, if payload.ObjectPayload? then {payload.claimsObject} else {}
    ensures (r, StateOf(payload)) ==
            GeneralFrom(mode, issuer, old(header.Value()), old(StateOf(payload)), unprotected, existing, agent)
    ensures match UpdatedHeader(mode, issuer, old(header.Value()), agent)
            case Err(_) => header.Value() == old(header.Value())
            case Ok(h) => header.Value() == h
  {
    var prepared := PrepareJwsObject(header, payload, issuer, mode, [], [], agent);
    if prepared.Err? {
      return Err(prepared.error);
    }
    return Ok(Signed(prepared.value, unprotected, existing, issuer, agent));
  }

  /** A JWS in any of its forms; the flattened form holds exactly one signature. */
  datatype AnyJws =
    | Compact(text: Text)
    | General(general: JwsGeneral)
    | Flattened(payload: Text, signature: JwsSignature)

  function Flatten(jws: JwsGeneral): Result<AnyJws, JwsError> {
    if |jws.signatures| != 1 then Err(NotOneSignature) else Ok(Flattened(jws.payload, jws.signatures[0]))
  }

  function CompactOf(jws: JwsGeneral): Result<AnyJws, JwsError> {
    match Flatten(jws)
    case Err(error) => Err(error)
    case Ok(f) => Ok(Compact(f.signature.protectedHeader + [DOT] + f.payload + [DOT] + f.signature.signature))
  }

  // -- Reading --

  /** Letters, digits and `_ = -`. */
  predicate IsCompactUnit(u: Unit) {
    0x30 <= u <= 0x39 || 0x41 <= u <= 0x5A || 0x61 <= u <= 0x7A || u == 0x5F || u == 0x3D || u == 0x2D
  }

  predicate AllCompact(t: Text) {
    forall i :: 0 <= i < |t| ==> IsCompactUnit(t[i])
  }

  /** The pattern for compact texts: three parts, the first not empty, with any character
      between them, since its dots are not escaped. */
  predicate MatchesCompact(t: Text) {
    exists i, j :: 0 < i < j < |t| && MatchesSplitAt(t, i, j)
  }

  predicate MatchesSplitAt(t: Text, i: nat, j: nat)
    requires i < j < |t|
  {
    && AllCompact(t[..i]) && !IsTerminator(t[i])
    && AllCompact(t[i + 1..j]) && !IsTerminator(t[j])
    && AllCompact(t[j + 1..])
  }

  predicate IsPart(t: Text) {
    forall i :: 0 <= i < |t| ==> B.Value(t[i], true).Some? || t[i] == B.PAD
  }

  /** Three parts of base64url digits and padding, the first not empty, and one unit that is no line
      break between each two. */
  ghost predicate IsThreeParts(t: Text, a: Text, x: Unit, b: Text, y: Unit, c: Text) {
    && t == a + [x] + b + [y] + c && a != [] && IsPart(a) && IsPart(b) && IsPart(c)
    && x != 0x0A && x != 0x0D && x != 0x2028 && x != 0x2029 && y != 0x0A && y != 0x0D && y != 0x2028 && y != 0x2029
  }

  lemma PartIsCompact(t: Text)
    ensures AllCompact(t) <==> IsPart(t)
  {
    forall i | 0 <= i < |t| ensures IsCompactUnit(t[i]) <==> B.Value(t[i], true).Some? || t[i] == B.PAD {
    }
  }

  /** Which texts the pattern for compact texts takes. */
  lemma MatchesCompactIff(t: Text)
    ensures MatchesCompact(t) <==>
            exists a: Text, x: Unit, b: Text, y: Unit, c: Text :: IsThreeParts(t, a, x, b, y, c)
  {
    if MatchesCompact(t) {
      var i, j :| 0 < i < j < |t| && MatchesSplitAt(t, i, j);
      PartIsCompact(t[..i]);
      PartIsCompact(t[i + 1..j]);
      PartIsCompact(t[j + 1..]);
      assert IsThreeParts(t, t[..i], t[i], t[i + 1..j], t[j], t[j + 1..]);
    }
    if a: Text, x: Unit, b: Text, y: Unit, c: Text :| IsThreeParts(t, a, x, b, y, c) {
      var i, j := |a|, |a| + 1 + |b|;
      PartIsCompact(a);
      PartIsCompact(b);
      PartIsCompact(c);
      assert t[..i] == a && t[i] == x && t[i + 1..j] == b && t[j] == y && t[j + 1..] == c;
      assert MatchesSplitAt(t, i, j);
    }
  }

  function BeforeTilde(t: Text): Text {
    if t == [] || t[0] == 0x7E then [] else [t[0]] + BeforeTilde(t[1..])
  }

  /** A compact text is looked at up to its first tilde. */
  lemma {:induction false} BeforeTildeIs(a: Text, b: Text)
    requires forall i :: 0 <= i < |a| ==> a[i] != 0x7E
    ensures BeforeTilde(a + [0x7E] + b) == a && BeforeTilde(a) == a
  {
    if a == [] {
      assert a + [0x7E] + b == [0x7E] + b;
    } else {
      BeforeTildeIs(a[1..], b);
      assert (a + [0x7E] + b)[1..] == a[1..] + [0x7E] + b;
      assert a == [a[0]] + a[1..];
    }
  }

  function SplitDots(t: Text): (s: seq<Text>)
    ensures s != []
  {
    if t == [] then [[]]
    else if t[0] == DOT then [[]] + SplitDots(t[1..])
    else
      var s := SplitDots(t[1..]);
      [[t[0]] + s[0]] + s[1..]
  }

  /** `toJwsJsonGeneral`; a compact text without two dots leaves parts undefined, here empty. */
  function ToJwsJsonGeneral(jws: AnyJws): Result<JwsGeneral, JwsError> {
    match jws
    case Compact(t) =>
      if !MatchesCompact(BeforeTilde(t)) then Err(InvalidJws)
      else
        var parts := SplitDots(t);
        var part := (i: nat) => if i < |parts| then parts[i] else [];
        Ok(JwsGeneral(part(1), [JwsSignature(part(0), [], part(2))]))
    case General(general) => Ok(general)
    case Flattened(payload, signature) => Ok(JwsGeneral(payload, [signature]))
  }

  lemma {:induction false} SplitDotsPrefix(a: Text, t: Text)
    requires AllCompact(a)
    ensures SplitDots(a + t) == [a + SplitDots(t)[0]] + SplitDots(t)[1..]
  {
    if a == [] {
      assert a + t == t && a + SplitDots(t)[0] == SplitDots(t)[0];
    } else {
      SplitDotsPrefix(a[1..], t);
      assert (a + t)[1..] == a[1..] + t;
      assert [a[0]] + (a[1..] + SplitDots(t)[0]) == a + SplitDots(t)[0];
    }
  }

  lemma SplitAtDot(a: Text, t: Text)
    requires AllCompact(a)
    ensures SplitDots(a + ([DOT] + t)) == [a] + SplitDots(t)
  {
    SplitDotsPrefix(a, [DOT] + t);
    assert ([DOT] + t)[1..] == t;
    assert a + [] == a && ([[]] + SplitDots(t))[1..] == SplitDots(t);
  }

  lemma {:induction false} NoTilde(t: Text)
    requires forall i :: 0 <= i < |t| ==> t[i] != 0x7E
    ensures BeforeTilde(t) == t
  {
    if t != [] {
      NoTilde(t[1..]);
    }
  }

  lemma SplitsOne(s: Text)
    requires AllCompact(s)
    ensures SplitDots(s) == [s]
  {
    SplitDotsPrefix(s, []);
    assert s + [] == s;
  }

  lemma SplitsThree(h: Text, p: Text, s: Text)
    requires AllCompact(h) && AllCompact(p) && AllCompact(s)
    ensures SplitDots(h + ([DOT] + (p + ([DOT] + s)))) == [h] + ([p] + [s])
  {
    SplitAtDot(h, p + ([DOT] + s));
    SplitAtDot(p, s);
    SplitsOne(s);
  }

  lemma MatchesThree(h: Text, p: Text, s: Text)
    requires h != [] && AllCompact(h) && AllCompact(p) && AllCompact(s)
    ensures MatchesCompact(h + ([DOT] + (p + ([DOT] + s))))
  {
    var t := h + ([DOT] + (p + ([DOT] + s)));
    var i, j := |h|, |h| + 1 + |p|;
    assert t[..i] == h && t[i + 1..j] == p && t[j + 1..] == s;
    assert MatchesSplitAt(t, i, j);
  }

  /** Flattening takes exactly one signature, and reading the flattened or the general form gives
      the JWS back, unprotected header included. */
  lemma FlattenedRoundTrip(jws: JwsGeneral)
    ensures Flatten(jws).Ok? <==> |jws.signatures| == 1
    ensures |jws.signatures| == 1 ==> ToJwsJsonGeneral(Flatten(jws).value) == Ok(jws)
    ensures ToJwsJsonGeneral(General(jws)) == Ok(jws)
  {
    if |jws.signatures| == 1 {
      assert jws.signatures == [jws.signatures[0]];
    }
  }

  /** The compact form of one signature, with base64url parts, is recognised and read back. The
      unprotected header is not part of it. */
  lemma CompactRoundTrip(payload: Text, s: JwsSignature)
    requires s.protectedHeader != []
    requires AllCompact(s.protectedHeader) && AllCompact(payload) && AllCompact(s.signature)
    ensures var compact := CompactOf(JwsGeneral(payload, [s]));
            compact.Ok? && ToJwsJsonGeneral(compact.value) == Ok(JwsGeneral(payload, [s.(header := [])]))
  {
    var h, g := s.protectedHeader, s.signature;
    var t := h + [DOT] + payload + [DOT] + g;
    assert t == h + ([DOT] + (payload + ([DOT] + g)));
    NoTilde(t);
    SplitsThree(h, payload, g);
    MatchesThree(h, payload, g);
  }
}
