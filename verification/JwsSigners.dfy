/** Any number of signers, one after the other through `existingSignatures`, and verification. */
module JwsSigners {
  import opened Wrappers
  import opened Utf16
  import opened Jws
  import opened JwsVerify

  /** One round's arguments besides the payload and the signatures so far. */
  datatype Signer = Signer(mode: Mode, issuer: Issuer, header: HeaderValue, unprotected: Text)

  /** The last round's JWS and the payload argument after it, or the first round's error. */
  function SignAll(signers: seq<Signer>, p: PayloadState, agent: Agent): Result<(JwsGeneral, PayloadState), JwsError>
    requires signers != []
  {
    var s := signers[|signers| - 1];
    if |signers| == 1 then Round(s, p, [], agent)
    else match SignAll(signers[..|signers| - 1], p, agent)
         case Err(error) => Err(error)
         case Ok((jws, q)) => Round(s, q, jws.signatures, agent)
  }

  function Round(s: Signer, p: PayloadState, existing: seq<JwsSignature>, agent: Agent)
    : Result<(JwsGeneral, PayloadState), JwsError>
  {
    match GeneralFrom(s.mode, s.issuer, s.header, p, s.unprotected, existing, agent)
    case (Err(error), _) => Err(error)
    case (Ok(jws), q) => Ok((jws, q))
  }

  /** The payload argument after the signers' updates. */
  function PayloadAfter(p: PayloadState, signers: seq<Signer>): PayloadState {
    if signers == [] then p
    else UpdatedPayload(PayloadAfter(p, signers[..|signers| - 1]), signers[|signers| - 1].issuer, [], [])
  }

  function ProtectedHeader(s: Signer, agent: Agent): Text
    requires UpdatedHeader(s.mode, s.issuer, s.header, agent).Ok?
  {
    agent.encodeHeader(UpdatedHeader(s.mode, s.issuer, s.header, agent).value)
  }

  function PayloadText(p: PayloadState, agent: Agent): Text
    requires PayloadBytes(p, agent).Some?
  {
    B.Encode(PayloadBytes(p, agent).value, true)
  }

  /** The signature of round i is its signer's, over its own header and the payload of round i. */
  ghost predicate SignedInRound(sig: JwsSignature, s: Signer, p: PayloadState, agent: Agent) {
    && UpdatedHeader(s.mode, s.issuer, s.header, agent).Ok? && PayloadBytes(p, agent).Some?
    && sig.protectedHeader == ProtectedHeader(s, agent)
    && sig.signature ==
       agent.sign(s.issuer.identifier.kmsKeyRef, SigningInput(ProtectedHeader(s, agent), PayloadText(p, agent)))
  }

  lemma {:induction false} RoundSigns(s: Signer, p: PayloadState, existing: seq<JwsSignature>, agent: Agent)
    ensures Round(s, p, existing, agent).Ok? ==>
              var (jws, q) := Round(s, p, existing, agent).value;
              && q == UpdatedPayload(p, s.issuer, [], [])
              && PayloadBytes(q, agent).Some? && jws.payload == PayloadText(q, agent)
              && |jws.signatures| == |existing| + 1 && jws.signatures[..|existing|] == existing
              && SignedInRound(jws.signatures[|existing|], s, q, agent)
  {
  }

  lemma {:induction false} LastRound(signers: seq<Signer>, p: PayloadState, agent: Agent)
    returns (existing: seq<JwsSignature>, q: PayloadState)
    requires |signers| > 1 && SignAll(signers, p, agent).Ok?
    ensures var before := SignAll(signers[..|signers| - 1], p, agent);
            && before.Ok? && before.value.0.signatures == existing && before.value.1 == q
            && SignAll(signers, p, agent) == Round(signers[|signers| - 1], q, existing, agent)
  {
    var (jws, after) := SignAll(signers[..|signers| - 1], p, agent).value;
    existing, q := jws.signatures, after;
  }

  /** Each round appends one signature, and the JWS carries the payload of the last round. */
  lemma {:induction false} RoundsAppend(signers: seq<Signer>, p: PayloadState, agent: Agent)
    requires signers != []
    ensures SignAll(signers, p, agent).Ok? ==>
              var (jws, q) := SignAll(signers, p, agent).value;
              && q == PayloadAfter(p, signers)
              && PayloadBytes(q, agent).Some? && jws.payload == PayloadText(q, agent)
              && |jws.signatures| == |signers|
              && SignedInRound(jws.signatures[|signers| - 1], signers[|signers| - 1], q, agent)
  {
    var n := |signers|;
    if SignAll(signers, p, agent).Ok? {
      if n > 1 {
        var existing, q := LastRound(signers, p, agent);
        RoundsAppend(signers[..n - 1], p, agent);
        RoundSigns(signers[n - 1], q, existing, agent);
      } else {
        assert signers[..0] == [];
        RoundSigns(signers[0], p, [], agent);
      }
    }
  }

  /** Later rounds leave the signature of round i alone. */
  lemma {:induction false} RoundsKeep(signers: seq<Signer>, p: PayloadState, agent: Agent, i: nat)
    requires i < |signers|
    ensures SignAll(signers, p, agent).Ok? ==>
              var jws := SignAll(signers, p, agent).value.0;
              && |jws.signatures| == |signers|
              && SignedInRound(jws.signatures[i], signers[i], PayloadAfter(p, signers[..i + 1]), agent)
    decreases |signers|
  {
    var n := |signers|;
    if SignAll(signers, p, agent).Ok? {
      RoundsAppend(signers, p, agent);
      if i == n - 1 {
        assert signers[..n] == signers;
      } else {
        var existing, q := LastRound(signers, p, agent);
        var front := signers[..n - 1];
        RoundsKeep(front, p, agent, i);
        assert front[..i + 1] == signers[..i + 1];
        RoundSigns(signers[n - 1], q, existing, agent);
        assert SignAll(signers, p, agent).value.0.signatures[..n - 1][i] == existing[i];
      }
    }
  }

  // ---- When the payload stays fixed -------------------------------------------------------------

  /** A later signer would still fill in the issuer claim. */
  predicate FillsIssuer(p: PayloadState, s: Signer) {
    p.ObjectState? && p.value.iss == [] && !s.issuer.noIssPayloadUpdate && s.issuer.identifier.name != []
  }

  /** The two payloads are equal, or the issuer claim of an object has been filled in. */
  predicate SameOrFilled(p: PayloadState, q: PayloadState) {
    p == q || (p.ObjectState? && q.ObjectState? && p.value.iss == [] && q.value.iss != [])
  }

  lemma FilledStays(p: PayloadState, q: PayloadState, s: Signer)
    requires SameOrFilled(p, q)
    ensures var r := UpdatedPayload(q, s.issuer, [], []);
            SameOrFilled(p, r) && (r == p <==> q == p && !FillsIssuer(p, s))
  {
  }

  lemma {:induction false} SettlesFromStart(p: PayloadState, signers: seq<Signer>)
    ensures SameOrFilled(p, PayloadAfter(p, signers))
    ensures PayloadAfter(p, signers) == p <==> forall i :: 0 <= i < |signers| ==> !FillsIssuer(p, signers[i])
  {
    if signers != [] {
      var front, last := signers[..|signers| - 1], signers[|signers| - 1];
      SettlesFromStart(p, front);
      FilledStays(p, PayloadAfter(p, front), last);
      assert signers == front + [last];
    }
  }

  lemma {:induction false} AfterConcat(p: PayloadState, a: seq<Signer>, b: seq<Signer>)
    ensures PayloadAfter(p, a + b) == PayloadAfter(PayloadAfter(p, a), b)
    decreases |b|
  {
    if b == [] {
      assert a + b == a;
    } else {
      AfterConcat(p, a, b[..|b| - 1]);
      assert (a + b)[..|a + b| - 1] == a + b[..|b| - 1];
    }
  }

  /** Once filled in, the issuer claim stays, so a changed payload never changes back. */
  lemma PayloadSettles(p: PayloadState, signers: seq<Signer>, k: nat)
    requires k <= |signers|
    ensures SameOrFilled(PayloadAfter(p, signers[..k]), PayloadAfter(p, signers))
    ensures PayloadAfter(p, signers) == PayloadAfter(p, signers[..k]) <==>
            forall i :: k <= i < |signers| ==> !FillsIssuer(PayloadAfter(p, signers[..k]), signers[i])
  {
    AfterConcat(p, signers[..k], signers[k..]);
    assert signers[..k] + signers[k..] == signers;
    var own := PayloadAfter(p, signers[..k]);
    SettlesFromStart(own, signers[k..]);
    assert forall i :: k <= i < |signers| ==> signers[k..][i - k] == signers[i];
  }

  // ---- Verification of what was signed ----------------------------------------------------------

  /** The check of one signature, given the protected header text that its key is resolved from. */
  type Check = (Text, Text, Text) -> Verification

  /** The header that the signer sends resolves to the signer's key, and that key accepts its own
      signatures, over exactly the data that was signed. */
  ghost predicate Recognises(check: Check, s: Signer, agent: Agent) {
    UpdatedHeader(s.mode, s.issuer, s.header, agent).Ok? ==>
      forall data, signed: Text ::
        check(ProtectedHeader(s, agent), data, agent.sign(s.issuer.identifier.kmsKeyRef, signed)) ==
        if data == signed then Valid else Invalid
  }

  /** Encoding an object payload loses nothing. */
  ghost predicate LosslessPayloads(agent: Agent) {
    forall v, w: PayloadValue :: agent.encodePayload(v) == agent.encodePayload(w) ==> v == w
  }

  function Checks(jws: JwsGeneral, check: Check): (r: seq<Verification>)
    ensures |r| == |jws.signatures|
    ensures forall i :: 0 <= i < |r| ==>
              r[i] == check(jws.signatures[i].protectedHeader,
                            SigningInput(jws.signatures[i].protectedHeader, jws.payload), jws.signatures[i].signature)
  {
    seq(|jws.signatures|, i requires 0 <= i < |jws.signatures| =>
      var s := jws.signatures[i];
      check(s.protectedHeader, SigningInput(s.protectedHeader, jws.payload), s.signature))
  }

  /** Reading a JWS in any form, and then any schedule of its verification: no error exactly when
      every signature that was read checks out over its own header and the payload. */
  lemma {:induction false} VerifiedIff(jws: AnyJws, check: Check, events: seq<Event>, s: State)
    ensures ToJwsJsonGeneral(jws).Ok? ==>
              var read := ToJwsJsonGeneral(jws).value;
              var checks := Checks(read, check);
              Runs(checks, events, s) && Complete(checks, s) ==>
                (OutcomeOf(checks, s) == Verified(false, []) <==>
                 forall sig <- read.signatures ::
                   check(sig.protectedHeader, sig.protectedHeader + [DOT] + read.payload, sig.signature) == Valid)
  {
    if ToJwsJsonGeneral(jws).Ok? {
      var read := ToJwsJsonGeneral(jws).value;
      var checks := Checks(read, check);
      if Runs(checks, events, s) && Complete(checks, s) {
        VerdictIgnoresSchedule(checks, events, s);
        assert forall i :: 0 <= i < |checks| ==> read.signatures[i] in read.signatures;
      }
    }
  }

  /** A flattened JWS verifies exactly when its one signature does. */
  lemma {:induction false} FlattenedVerifiedIff(payload: Text, sig: JwsSignature, check: Check, events: seq<Event>,
                                                s: State)
    ensures ToJwsJsonGeneral(Flattened(payload, sig)).Ok?
    ensures var checks := Checks(ToJwsJsonGeneral(Flattened(payload, sig)).value, check);
            Runs(checks, events, s) && Complete(checks, s) ==>
              (OutcomeOf(checks, s) == Verified(false, []) <==>
               check(sig.protectedHeader, sig.protectedHeader + [DOT] + payload, sig.signature) == Valid)
  {
    VerifiedIff(Flattened(payload, sig), check, events, s);
    assert [sig][0] in [sig];
  }

  lemma InputInjective(h: Text, p: Text, q: Text)
    ensures SigningInput(h, p) == SigningInput(h, q) <==> p == q
  {
    var n := |h| + 1;
    assert SigningInput(h, p)[n..] == p && SigningInput(h, q)[n..] == q;
  }

  lemma {:induction false} TextInjective(p: PayloadState, q: PayloadState, agent: Agent)
    requires LosslessPayloads(agent) && PayloadBytes(p, agent).Some? && PayloadBytes(q, agent).Some?
    requires p == q || (p.ObjectState? && q.ObjectState?)
    ensures PayloadText(p, agent) == PayloadText(q, agent) <==> p == q
  {
    B.DecodeDigitsEncode(PayloadBytes(p, agent).value, true);
    B.DecodeDigitsEncode(PayloadBytes(q, agent).value, true);
  }

  /** The signature of round i verifies in the final JWS exactly when no later signer changed the
      payload. */
  lemma {:induction false} RoundVerifies(signers: seq<Signer>, p: PayloadState, agent: Agent, check: Check, i: nat)
    requires i < |signers| && LosslessPayloads(agent) && Recognises(check, signers[i], agent)
    ensures SignAll(signers, p, agent).Ok? ==>
              var jws := SignAll(signers, p, agent).value.0;
              var own := PayloadAfter(p, signers[..i + 1]);
              && |jws.signatures| == |signers|
              && Checks(jws, check)[i] ==
                 if forall j :: i < j < |signers| ==> !FillsIssuer(own, signers[j]) then Valid else Invalid
  {
    if SignAll(signers, p, agent).Ok? {
      var (jws, q) := SignAll(signers, p, agent).value;
      var own := PayloadAfter(p, signers[..i + 1]);
      RoundsAppend(signers, p, agent);
      RoundsKeep(signers, p, agent, i);
      InputInjective(ProtectedHeader(signers[i], agent), jws.payload, PayloadText(own, agent));
      PayloadSettles(p, signers, i + 1);
      TextInjective(q, own, agent);
    }
  }

  /** Whether a later signer still changes what the first one signed; a caller can tell before
      signing. */
  predicate LaterFills(signers: seq<Signer>, p: PayloadState)
    requires signers != []
  {
    var first := UpdatedPayload(p, signers[0].issuer, [], []);
    exists i :: 0 < i < |signers| && FillsIssuer(first, signers[i])
  }

  lemma FirstPayload(signers: seq<Signer>, p: PayloadState)
    requires signers != []
    ensures PayloadAfter(p, signers[..1]) == UpdatedPayload(p, signers[0].issuer, [], [])
  {
    assert signers[..1][..0] == [] && signers[..1][0] == signers[0];
  }

  /** All signatures are valid, or the first is not. */
  lemma {:induction false} ChecksDecide(signers: seq<Signer>, p: PayloadState, agent: Agent, check: Check,
                                        checks: seq<Verification>)
    requires signers != [] && SignAll(signers, p, agent).Ok?
    requires LosslessPayloads(agent) && forall i :: 0 <= i < |signers| ==> Recognises(check, signers[i], agent)
    requires checks == Checks(SignAll(signers, p, agent).value.0, check)
    ensures |checks| == |signers|
    ensures LaterFills(signers, p) ==> checks[0] == Invalid
    ensures !LaterFills(signers, p) ==> forall i :: 0 <= i < |checks| ==> checks[i] == Valid
  {
    RoundVerifies(signers, p, agent, check, 0);
    FirstPayload(signers, p);
    if !LaterFills(signers, p) {
      forall i | 0 <= i < |signers| ensures checks[i] == Valid {
        RoundVerifies(signers, p, agent, check, i);
        SettledFrom(p, signers, i);
      }
    }
  }

  /** For any list of signers and any schedule of the verification, the JWS verifies without
      error exactly when no later signer fills in the issuer claim. In particular it does for
      every text, for bytes, and for an object whose issuer is set beforehand. */
  lemma {:induction false} SignedByAllVerifies(signers: seq<Signer>, p: PayloadState, agent: Agent, check: Check,
                                               checks: seq<Verification>, events: seq<Event>, s: State)
    requires LosslessPayloads(agent) && forall i :: 0 <= i < |signers| ==> Recognises(check, signers[i], agent)
    requires signers != []
    ensures && SignAll(signers, p, agent).Ok? && checks == Checks(SignAll(signers, p, agent).value.0, check)
            && Runs(checks, events, s) && Complete(checks, s) ==>
              (OutcomeOf(checks, s) == Verified(false, []) <==> !LaterFills(signers, p))
    ensures !p.ObjectState? || p.value.iss != [] ==> !LaterFills(signers, p)
  {
    if && SignAll(signers, p, agent).Ok? && checks == Checks(SignAll(signers, p, agent).value.0, check)
       && Runs(checks, events, s) && Complete(checks, s)
    {
      ChecksDecide(signers, p, agent, check, checks);
      VerdictIgnoresSchedule(checks, events, s);
    }
  }

  /** If no later signer changes the first round's payload, it is every round's payload. */
  lemma {:induction false} SettledFrom(p: PayloadState, signers: seq<Signer>, i: nat)
    requires i < |signers|
    requires forall j :: 0 < j < |signers| ==> !FillsIssuer(PayloadAfter(p, signers[..1]), signers[j])
    ensures PayloadAfter(p, signers[..i + 1]) == PayloadAfter(p, signers[..1])
  {
    var prefix := signers[..i + 1];
    PayloadSettles(p, prefix, 1);
    assert prefix[..1] == signers[..1];
    assert forall j :: 1 <= j < |prefix| ==> prefix[j] == signers[j];
  }

  /** A canonical base64url text is carried unchanged. */
  lemma {:induction false} CanonicalTextIsKept(bytes: Bytes, agent: Agent)
    ensures var p := TextState(B.Encode(bytes, true));
            PayloadBytes(p, agent) == Some(bytes) && PayloadText(p, agent) == p.text
  {
    B.DecodeEncode(bytes, true, 0);
    assert B.Encode(bytes, true) + B.Repeat(B.PAD, 0) == B.Encode(bytes, true);
  }

  lemma EncodedIsCompact(bytes: Bytes)
    ensures AllCompact(B.Encode(bytes, true))
  {
    var t := B.Encode(bytes, true);
    B.EncodeDigits(bytes, true);
    forall i | 0 <= i < |t| ensures IsCompactUnit(t[i]) {
      assert B.Value(t[i], true).Some?;
    }
  }

  /** One signer's compact form, when header and signature are base64url, is read back with the
      same payload, and its signature checks out exactly as in the general form. */
  lemma {:induction false} CompactOfOneSigner(s: Signer, p: PayloadState, agent: Agent, check: Check)
    requires Round(s, p, [], agent).Ok?
    requires ProtectedHeader(s, agent) != [] && AllCompact(ProtectedHeader(s, agent))
    requires AllCompact(Round(s, p, [], agent).value.0.signatures[0].signature)
    ensures var jws := Round(s, p, [], agent).value.0;
            && CompactOf(jws).Ok? && ToJwsJsonGeneral(CompactOf(jws).value).Ok?
            && var back := ToJwsJsonGeneral(CompactOf(jws).value).value;
               && back == JwsGeneral(jws.payload, [jws.signatures[0].(header := [])])
               && Checks(back, check) == Checks(jws, check)
  {
    var (jws, q) := Round(s, p, [], agent).value;
    RoundSigns(s, p, [], agent);
    EncodedIsCompact(PayloadBytes(q, agent).value);
    assert jws == JwsGeneral(jws.payload, [jws.signatures[0]]);
    CompactRoundTrip(jws.payload, jws.signatures[0]);
  }
}
