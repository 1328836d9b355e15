/** JWE decryption, and the multi-recipient round trip. */
module JweDecrypt {
  import opened Wrappers
  import opened Utf16
  import opened Jwe

  /** Reads the protected header: base64url, UTF-8 and JSON; None when that throws. */
  type HeaderReader = Text -> Option<Header>

  function Member(header: Header, name: Text): Option<Text> {
    if name in header then Some(header[name]) else None
  }

  predicate RecipientsComplete(recipients: seq<Recipient>) {
    forall i :: 0 <= i < |recipients| ==> recipients[i].header.Some? && recipients[i].encryptedKey != []
  }

  /** The error `jweAssertValid` throws, if any: empty texts are falsy. */
  function AssertValid(jwe: JweValue): Option<JweError> {
    if jwe.protectedHeader == [] || jwe.iv == [] || jwe.ciphertext == [] || jwe.tag == [] then Some(MissingProperties)
    else if !RecipientsComplete(jwe.recipients) then Some(MalformedRecipients)
    else None
  }

  function AadText(jwe: JweValue): Text {
    match jwe.aad
    case None => jwe.protectedHeader
    case Some(aad) => if aad == [] then jwe.protectedHeader else jwe.protectedHeader + [DOT] + aad
  }

  /** A recipient whose header has the protected members merged over its own. */
  function Merged(recipient: Recipient, header: Header): Recipient {
    match recipient.header
    case None => recipient.(header := Some(header))
    case Some(own) => recipient.(header := Some(own + header))
  }

  /** Name by name: g is the recipient, but its header holds every protected member, and its own
      member under every other name. */
  ghost predicate HoldsProtected(g: Recipient, recipient: Recipient, header: Header) {
    && g.encryptedKey == recipient.encryptedKey && g.header.Some?
    && forall name: Text ::
         Member(g.header.value, name) ==
         if name in header then Some(header[name])
         else if recipient.header.Some? then Member(recipient.header.value, name)
         else None
  }

  lemma MergeInPlace(recipient: Recipient, header: Header)
    ensures var own := if recipient.header.Some? then recipient.header.value else map[];
            recipient.(header := Some(own + header)) == Merged(recipient, header)
  {
    assert map[] + header == header;
  }

  lemma SameMembers(a: Header, b: Header)
    requires forall name: Text :: Member(a, name) == Member(b, name)
    ensures a == b
  {
    forall name: Text ensures name in a <==> name in b {
      assert Member(a, name) == Member(b, name);
    }
    forall name | name in a ensures a[name] == b[name] {
      assert Member(a, name) == Member(b, name);
    }
  }

  lemma MergedHolds(recipient: Recipient, header: Header, g: Recipient)
    ensures HoldsProtected(g, recipient, header) <==> g == Merged(recipient, header)
  {
    var merged := Merged(recipient, header);
    if HoldsProtected(g, recipient, header) {
      forall name: Text ensures Member(g.header.value, name) == Member(merged.header.value, name) {
      }
      SameMembers(g.header.value, merged.header.value);
    }
  }

  /** The bytes handed to a decrypter besides the recipient; the iv is still base64url. */
  datatype Sealed = Sealed(bytes: Bytes, iv: Text, aad: Text)

  /** What one recipient yields for a decrypter: a cleartext, nothing, or an exception if the iv
      does not decode. The iv is decoded only for a recipient with the decrypter's algorithm. */
  function Attempt(recipient: Recipient, header: Header, d: Decrypter, sealed: Sealed)
    : Result<Option<Bytes>, JweError>
  {
    Presented(Merged(recipient, header), d, sealed)
  }

  /** What a recipient with a merged header yields. */
  function Presented(merged: Recipient, d: Decrypter, sealed: Sealed): Result<Option<Bytes>, JweError>
    requires merged.header.Some?
  {
    if Member(merged.header.value, ALG) != Some(d.alg) then Ok(None)
    else match B.Decode(sealed.iv, true)
         case None => Err(BadEncoding)
         case Some(iv) => Ok(d.decrypt(sealed.bytes, iv, sealed.aad, Some(merged)))
  }

  method Present(recipient: Recipient, d: Decrypter, sealed: Sealed) returns (r: Result<Option<Bytes>, JweError>)
    requires recipient.header.Some?
    ensures r == Presented(recipient, d, sealed)
  {
    var header := recipient.header.value;
    if ALG in header && header[ALG] == d.alg {
      var iv := B.Decode(sealed.iv, true);
      if iv.None? {
        return Err(BadEncoding);
      }
      var cleartext := d.decrypt(sealed.bytes, iv.value, sealed.aad, Some(recipient));
      return Ok(cleartext);
    }
    return Ok(None);
  }

  /** The first recipient position that yields a cleartext or an exception, or the number of
      recipients. */
  function FirstStop(recipients: seq<Recipient>, header: Header, d: Decrypter, sealed: Sealed): (n: nat)
    ensures n <= |recipients|
    ensures n < |recipients| ==> Attempt(recipients[n], header, d, sealed) != Ok(None)
    ensures forall i :: 0 <= i < n ==> Attempt(recipients[i], header, d, sealed) == Ok(None)
  {
    if recipients == [] || Attempt(recipients[0], header, d, sealed) != Ok(None) then 0
    else 1 + FirstStop(recipients[1..], header, d, sealed)
  }

  /** The recipients after the first n headers have been rewritten. */
  function Rewritten(recipients: seq<Recipient>, n: nat, header: Header): (r: seq<Recipient>)
    ensures |r| == |recipients|
    ensures forall i :: 0 <= i < |r| ==> r[i] == if i < n then Merged(recipients[i], header) else recipients[i]
  {
    seq(|recipients|, i requires 0 <= i < |recipients| =>
      if i < n then Merged(recipients[i], header) else recipients[i])
  }

  lemma RewrittenStep(recipients: seq<Recipient>, i: nat, header: Header)
    requires i < |recipients|
    ensures Rewritten(recipients, i, header)[i] == recipients[i]
    ensures Rewritten(recipients, i + 1, header) == Rewritten(recipients, i, header)[i := Merged(recipients[i], header)]
  {
  }

  /** The first n headers have been rewritten, and nothing else. */
  ghost predicate RewrittenUpTo(before: seq<Recipient>, after: seq<Recipient>, n: nat, header: Header) {
    && |after| == |before|
    && forall i :: 0 <= i < |before| ==>
         if i < n then HoldsProtected(after[i], before[i], header) else after[i] == before[i]
  }

  lemma RewrittenMeans(before: seq<Recipient>, n: nat, header: Header)
    ensures RewrittenUpTo(before, Rewritten(before, n, header), n, header)
  {
    forall i | 0 <= i < |before| && i < n
      ensures HoldsProtected(Rewritten(before, n, header)[i], before[i], header)
    {
      MergedHolds(before[i], header, Merged(before[i], header));
    }
  }

  /** The outcome and the recipients afterwards. */
  datatype Decryption = Decryption(result: Result<Bytes, JweError>, recipients: seq<Recipient>)

  function Found(attempt: Result<Option<Bytes>, JweError>): Result<Bytes, JweError> {
    match attempt
    case Err(error) => Err(error)
    case Ok(None) => Err(NotDecrypted)
    case Ok(Some(cleartext)) => Ok(cleartext)
  }

  function TryRecipients(recipients: seq<Recipient>, header: Header, d: Decrypter, sealed: Sealed): Decryption {
    var n := FirstStop(recipients, header, d, sealed);
    if n < |recipients| then
      Decryption(Found(Attempt(recipients[n], header, d, sealed)), Rewritten(recipients, n + 1, header))
    else Decryption(Err(NotDecrypted), Rewritten(recipients, n, header))
  }

  lemma {:induction false} TriedAreRewritten(recipients: seq<Recipient>, header: Header, d: Decrypter, sealed: Sealed)
    ensures exists n: nat ::
              RewrittenUpTo(recipients, TryRecipients(recipients, header, d, sealed).recipients, n, header)
  {
    var after, n := TryRecipients(recipients, header, d, sealed).recipients, FirstStop(recipients, header, d, sealed);
    if n < |recipients| {
      RewrittenMeans(recipients, n + 1, header);
      assert RewrittenUpTo(recipients, after, n + 1, header);
    } else {
      RewrittenMeans(recipients, n, header);
      assert RewrittenUpTo(recipients, after, n, header);
    }
  }

  /** Direct decryption, without a recipient. */
  function TryDirect(d: Decrypter, sealed: Sealed): Result<Bytes, JweError> {
    match B.Decode(sealed.iv, true)
    case None => Err(BadEncoding)
    case Some(iv) => Found(Ok(d.decrypt(sealed.bytes, iv, sealed.aad, None)))
  }

  predicate IsDirect(header: Header, d: Decrypter) {
    Member(header, ALG) == Some(DIR) && d.alg == DIR
  }

  function Decrypt(jwe: JweValue, d: Decrypter, read: HeaderReader): Decryption {
    var failed := (error: JweError) => Decryption(Err(error), jwe.recipients);
    if AssertValid(jwe).Some? then failed(AssertValid(jwe).value)
    else if read(jwe.protectedHeader).None? then failed(BadHeader)
    else
      var header := read(jwe.protectedHeader).value;
      if Member(header, ENC) != Some(d.enc) then failed(EncMismatch)
      else match (B.Decode(jwe.ciphertext, true), B.Decode(jwe.tag, true))
           case (Some(ciphertext), Some(tag)) =>
             var sealed := Sealed(ciphertext + tag, jwe.iv, AadText(jwe));
             if IsDirect(header, d) then Decryption(TryDirect(d, sealed), jwe.recipients)
             else if jwe.recipients == [] then failed(MissingRecipients)
             else TryRecipients(jwe.recipients, header, d, sealed)
           case _ => failed(BadEncoding)
  }

  method JweAssertValid(jwe: JweValue) returns (error: Option<JweError>)
    ensures error == AssertValid(jwe)
  {
    if !(jwe.protectedHeader != [] && jwe.iv != [] && jwe.ciphertext != [] && jwe.tag != []) {
      return Some(MissingProperties);
    }
    for i := 0 to |jwe.recipients|
      invariant RecipientsComplete(jwe.recipients[..i])
    {
      if !(jwe.recipients[i].header.Some? && jwe.recipients[i].encryptedKey != []) {
        return Some(MalformedRecipients);
      }
    }
    assert jwe.recipients[..|jwe.recipients|] == jwe.recipients;
    return None;
  }

  method DecryptJwe(jwe: JweJson, d: Decrypter, read: HeaderReader) returns (r: Result<Bytes, JweError>)
    modifies jwe
    ensures Decryption(r, jwe.recipients) == Decrypt(old(jwe.Value()), d, read)
    ensures match read(jwe.protectedHeader)
            case None => jwe.recipients == old(jwe.recipients)
            case Some(header) => exists n: nat :: RewrittenUpTo(old(jwe.recipients), jwe.recipients, n, header)
  {
    assert read(jwe.protectedHeader).Some? ==>
        RewrittenUpTo(jwe.recipients, jwe.recipients, 0, read(jwe.protectedHeader).value);
    var valid := JweAssertValid(jwe.Value());
    if valid.Some? {
      return Err(valid.value);
    }
    var header := read(jwe.protectedHeader);
    if header.None? {
      return Err(BadHeader);
    }
    if Member(header.value, ENC) != Some(d.enc) {
      return Err(EncMismatch);
    }
    var ciphertext, tag := B.Decode(jwe.ciphertext, true), B.Decode(jwe.tag, true);
    if ciphertext.None? || tag.None? {
      return Err(BadEncoding);
    }
    var sealed := Sealed(ciphertext.value + tag.value, jwe.iv, AadText(jwe.Value()));
    if Member(header.value, ALG) == Some(DIR) && d.alg == DIR {
      var iv := B.Decode(jwe.iv, true);
      if iv.None? {
        return Err(BadEncoding);
      }
      var cleartext := d.decrypt(sealed.bytes, iv.value, sealed.aad, None);
      return if cleartext.Some? then Ok(cleartext.value) else Err(NotDecrypted);
    }
    if jwe.recipients == [] {
      return Err(MissingRecipients);
    }
    r := OpenRecipients(jwe, header.value, d, sealed);
  }

  /** The protected members are spread over the recipient's own. */
  method RewriteHeader(jwe: JweJson, i: nat, header: Header)
    requires i < |jwe.recipients|
    modifies jwe
    ensures jwe.recipients == old(jwe.recipients)[i := Merged(old(jwe.recipients[i]), header)]
    ensures HoldsProtected(jwe.recipients[i], old(jwe.recipients[i]), header)
  {
    var own := if jwe.recipients[i].header.Some? then jwe.recipients[i].header.value else map[];
    MergeInPlace(jwe.recipients[i], header);
    MergedHolds(jwe.recipients[i], header, Merged(jwe.recipients[i], header));
    jwe.recipients := jwe.recipients[i := jwe.recipients[i].(header := Some(own + header))];
  }

  /** The loop over the recipients, which rewrites each header it looks at. */
  method OpenRecipients(jwe: JweJson, header: Header, d: Decrypter, sealed: Sealed)
    returns (r: Result<Bytes, JweError>)
    modifies jwe
    ensures Decryption(r, jwe.recipients) == TryRecipients(old(jwe.recipients), header, d, sealed)
    ensures exists n: nat :: RewrittenUpTo(old(jwe.recipients), jwe.recipients, n, header)
  {
    ghost var before := jwe.recipients;
    ghost var stop := FirstStop(before, header, d, sealed);
    var cleartext: Option<Bytes> := None;
    var i := 0;
    TriedAreRewritten(before, header, d, sealed);
    while cleartext.None? && i < |jwe.recipients|
      invariant 0 <= i <= |before| && |jwe.recipients| == |before|
      invariant jwe.recipients == Rewritten(before, i, header)
      invariant cleartext.None? ==> i <= stop
      invariant cleartext.Some? ==> i == stop + 1 && Attempt(before[stop], header, d, sealed) == Ok(cleartext)
    {
      RewriteHeader(jwe, i, header);
      RewrittenStep(before, i, header);
      var attempt := Present(jwe.recipients[i], d, sealed);
      if attempt.Err? {
        return Err(attempt.error);
      }
      cleartext := attempt.value;
      i := i + 1;
    }
    return if cleartext.Some? then Ok(cleartext.value) else Err(NotDecrypted);
  }

  // ---- What creation and decryption promise together -------------------------------------------

  /** Several encrypters may share one content key. */
  predicate MayShare(encrypters: seq<Encrypter>) {
    encrypters != [] && !HasDirect(encrypters) && Compatible(encrypters)
  }

  lemma UrlDecodes(b: Bytes)
    ensures B.Decode(ToBase64Url(b), true) == Some(b)
    ensures ToBase64Url(b) == [] <==> b == []
  {
    B.DecodeEncode(b, true, 0);
    assert B.Encode(b, true) + B.Repeat(B.PAD, 0) == B.Encode(b, true);
    B.EncodeDigits(b, true);
  }

  /** The additional authenticated data of RFC 7516, section 5.1, steps 13 and 14. */
  function SentAad(protectedHeader: Text, aad: Option<Bytes>): Text {
    match aad
    case None => protectedHeader
    case Some(b) => if b == [] then protectedHeader else protectedHeader + [DOT] + ToBase64Url(b)
  }

  /** The JWE holds what the encrypter produced, and yields the additional data it was given. */
  ghost predicate Carries(jwe: JweValue, result: EncryptionResult, aad: Option<Bytes>) {
    && B.Decode(jwe.ciphertext, true) == Some(result.ciphertext)
    && B.Decode(jwe.tag, true) == Some(result.tag)
    && jwe.iv == ToBase64Url(result.iv)
    && jwe.protectedHeader == result.protectedHeader
    && AadText(jwe) == SentAad(result.protectedHeader, aad)
    && (jwe.ciphertext != [] && jwe.tag != [] && jwe.iv != [] <==>
        result.ciphertext != [] && result.tag != [] && result.iv != [])
  }

  lemma EncodeCarries(result: EncryptionResult, aad: Option<Bytes>)
    requires result.recipients != []
    ensures JweEncode(result, aad).Ok? && Carries(JweEncode(result, aad).value, result, aad)
  {
    UrlDecodes(result.ciphertext);
    UrlDecodes(result.tag);
    UrlDecodes(result.iv);
    if aad.Some? {
      UrlDecodes(aad.value);
    }
  }

  /** What the first encrypter produces makes the JWE: it is alone, or it returns a content key
      for the others. */
  predicate FirstDecides(encrypters: seq<Encrypter>, first: EncryptionResult) {
    |encrypters| == 1 || (MayShare(encrypters) && first.cek.Some?)
  }

  /** What the later encrypters add. */
  function LaterRecipients(encrypters: seq<Encrypter>, first: EncryptionResult): seq<Recipient>
    requires encrypters != []
  {
    if first.cek.Some? then Offers(encrypters[1..], first.cek.value) else []
  }

  /** Then the JWE keeps the first encrypter's ciphertext, iv, tag and protected header, carries
      the additional data, and its recipients are the first's followed by one for each later
      encrypter that offers one, in order. */
  ghost predicate Delivers(jwe: JweValue, encrypters: seq<Encrypter>, first: EncryptionResult, aad: Option<Bytes>)
    requires encrypters != []
  {
    Carries(jwe, first, aad) && jwe.recipients == first.recipients + LaterRecipients(encrypters, first)
  }

  lemma {:induction false} CreatedFrom(cleartext: Bytes, encrypters: seq<Encrypter>, header: Header, aad: Option<Bytes>)
    requires encrypters != [] && FirstDecides(encrypters, encrypters[0].encrypt(cleartext, header, aad))
    ensures var first := encrypters[0].encrypt(cleartext, header, aad);
            Create(cleartext, encrypters, header, aad) ==
            match JweEncode(first, aad)
            case Err(error) => Err(error)
            case Ok(base) => Ok(Extended(base, LaterRecipients(encrypters, first)))
  {
    var first := encrypters[0].encrypt(cleartext, header, aad);
    if |encrypters| == 1 && JweEncode(first, aad).Ok? {
      assert LaterRecipients(encrypters, first) == [];
      assert JweEncode(first, aad).value.recipients + [] == JweEncode(first, aad).value.recipients;
    }
  }

  lemma {:induction false} FirstKeyDecides(cleartext: Bytes, encrypters: seq<Encrypter>, header: Header,
                                           aad: Option<Bytes>, first: EncryptionResult)
    requires encrypters != [] && first == encrypters[0].encrypt(cleartext, header, aad)
    requires FirstDecides(encrypters, first)
    ensures var r := Create(cleartext, encrypters, header, aad);
            && (r.Ok? <==> first.recipients != [])
            && (r.Ok? ==> Delivers(r.value, encrypters, first, aad))
  {
    CreatedFrom(cleartext, encrypters, header, aad);
    if first.recipients != [] {
      EncodeCarries(first, aad);
    }
  }

  // ---- The ciphers' laws, and the round trips -----------------------------------------------------

  /** Which recipient a decrypter belongs to: one that the first encrypter adds itself, or the
      one that the encrypter at index j offers. */
  datatype Slot = Own(k: nat) | Later(j: nat)

  /** The recipient of a slot, as the encrypters make it. */
  function SlotRecipient(slot: Slot, encrypters: seq<Encrypter>, first: EncryptionResult): Option<Recipient> {
    match slot
    case Own(k) => if k < |first.recipients| then Some(first.recipients[k]) else None
    case Later(j) => if 0 < j < |encrypters| && first.cek.Some? then Offer(encrypters[j], first.cek.value) else None
  }

  /** The position of a slot's recipient in the JWE. */
  function SlotPosition(slot: Slot, encrypters: seq<Encrypter>, first: EncryptionResult): nat
    requires SlotRecipient(slot, encrypters, first).Some?
  {
    match slot
    case Own(k) => k
    case Later(j) => |first.recipients| + |Offers(encrypters[1..j], first.cek.value)|
  }

  /** An offer stands behind the offers of the encrypters before it. */
  lemma {:induction false} OfferPosition(encrypters: seq<Encrypter>, cek: Bytes, j: nat)
    requires j < |encrypters| && Offer(encrypters[j], cek).Some?
    ensures |Offers(encrypters[..j], cek)| < |Offers(encrypters, cek)|
    ensures Offers(encrypters, cek)[|Offers(encrypters[..j], cek)|] == Offer(encrypters[j], cek).value
  {
    var last := |encrypters| - 1;
    if j < last {
      OfferPosition(encrypters[..last], cek, j);
      assert encrypters[..last][..j] == encrypters[..j];
    }
  }

  lemma {:induction false} LaterPosition(encrypters: seq<Encrypter>, cek: Bytes, j: nat)
    requires 0 < j < |encrypters| && Offer(encrypters[j], cek).Some?
    ensures var k, offers := |Offers(encrypters[1..j], cek)|, Offers(encrypters[1..], cek);
            k < |offers| && offers[k] == Offer(encrypters[j], cek).value
  {
    OfferPosition(encrypters[1..], cek, j - 1);
    assert encrypters[1..][..j - 1] == encrypters[1..j];
  }

  lemma {:induction false} SlotIsThere(slot: Slot, encrypters: seq<Encrypter>, first: EncryptionResult,
                                       aad: Option<Bytes>, jwe: JweValue)
    requires encrypters != [] && SlotRecipient(slot, encrypters, first).Some? && Delivers(jwe, encrypters, first, aad)
    ensures var k := SlotPosition(slot, encrypters, first);
            k < |jwe.recipients| && jwe.recipients[k] == SlotRecipient(slot, encrypters, first).value
  {
    if slot.Later? {
      LaterPosition(encrypters, first.cek.value, slot.j);
    }
  }

  /** The decrypter for a slot opens whatever the first encrypter seals, through the recipient
      that the slot's encrypter makes for it. */
  ghost predicate OpensSlot(d: Decrypter, slot: Slot, encrypters: seq<Encrypter>, read: HeaderReader)
    requires encrypters != []
  {
    forall cleartext: Bytes, header: Header, aad: Option<Bytes> ::
      var first := encrypters[0].encrypt(cleartext, header, aad);
      var recipient := SlotRecipient(slot, encrypters, first);
      recipient.Some? && read(first.protectedHeader).Some? ==>
        forall g: Recipient :: HoldsProtected(g, recipient.value, read(first.protectedHeader).value) ==>
          && Member(g.header.value, ALG) == Some(d.alg)
          && d.decrypt(first.ciphertext + first.tag, first.iv, SentAad(first.protectedHeader, aad), Some(g)) ==
             Some(cleartext)
  }

  /** Authenticated encryption: through any recipient, a decrypter yields what was sealed or
      nothing. */
  ghost predicate Authenticates(d: Decrypter, e: Encrypter) {
    forall cleartext: Bytes, header: Header, aad: Option<Bytes>, recipient: Recipient ::
      var sealed := e.encrypt(cleartext, header, aad);
      var found := d.decrypt(sealed.ciphertext + sealed.tag, sealed.iv, SentAad(sealed.protectedHeader, aad),
                              Some(recipient));
      found == None || found == Some(cleartext)
  }

  /** What the first encrypter's result amounts to on the decrypter's side. */
  function SealedBy(r: EncryptionResult, aad: Option<Bytes>): Sealed {
    Sealed(r.ciphertext + r.tag, ToBase64Url(r.iv), SentAad(r.protectedHeader, aad))
  }

  lemma {:induction false} SlotOpens(d: Decrypter, slot: Slot, encrypters: seq<Encrypter>, read: HeaderReader,
                                     cleartext: Bytes, header: Header, aad: Option<Bytes>)
    requires encrypters != [] && OpensSlot(d, slot, encrypters, read)
    requires var first := encrypters[0].encrypt(cleartext, header, aad);
             SlotRecipient(slot, encrypters, first).Some? && read(first.protectedHeader).Some?
    ensures var first := encrypters[0].encrypt(cleartext, header, aad);
            Attempt(SlotRecipient(slot, encrypters, first).value, read(first.protectedHeader).value, d,
                    SealedBy(first, aad)) == Ok(Some(cleartext))
  {
    var first := encrypters[0].encrypt(cleartext, header, aad);
    var recipient, protectedHeader := SlotRecipient(slot, encrypters, first).value, read(first.protectedHeader).value;
    UrlDecodes(first.iv);
    MergedHolds(recipient, protectedHeader, Merged(recipient, protectedHeader));
  }

  /** Nothing but the cleartext comes out at any recipient. */
  lemma {:induction false} AttemptsAgree(d: Decrypter, e: Encrypter, cleartext: Bytes, header: Header,
                                         aad: Option<Bytes>, recipient: Recipient, read: Header)
    requires Authenticates(d, e)
    ensures var attempt := Attempt(recipient, read, d, SealedBy(e.encrypt(cleartext, header, aad), aad));
            attempt == Ok(None) || attempt == Ok(Some(cleartext))
  {
    UrlDecodes(e.encrypt(cleartext, header, aad).iv);
  }

  /** What decryption demands of a JWE before it tries a key: nothing is empty, every recipient
      has a header and a key, and the content encryption is the decrypter's. */
  predicate Presentable(sealed: EncryptionResult, recipients: seq<Recipient>, header: Header, d: Decrypter) {
    && sealed.ciphertext != [] && sealed.tag != [] && sealed.iv != [] && sealed.protectedHeader != []
    && RecipientsComplete(recipients) && Member(header, ENC) == Some(d.enc)
  }

  lemma {:induction false} DeliveredIsTried(jwe: JweValue, encrypters: seq<Encrypter>, first: EncryptionResult,
                                            aad: Option<Bytes>, d: Decrypter, read: HeaderReader, header: Header)
    requires encrypters != [] && first.recipients != [] && Delivers(jwe, encrypters, first, aad)
    requires read(first.protectedHeader) == Some(header)
    ensures if !Presentable(first, jwe.recipients, header, d) then Decrypt(jwe, d, read).result.Err?
            else if IsDirect(header, d) then
              Decrypt(jwe, d, read) == Decryption(TryDirect(d, SealedBy(first, aad)), jwe.recipients)
            else Decrypt(jwe, d, read) == TryRecipients(jwe.recipients, header, d, SealedBy(first, aad))
  {
  }

  /** A recipient that opens decides, unless an earlier one opens too. */
  lemma {:induction false} FirstOpens(recipients: seq<Recipient>, header: Header, d: Decrypter, sealed: Sealed, k: nat,
                                      cleartext: Bytes)
    requires k < |recipients| && Attempt(recipients[k], header, d, sealed) == Ok(Some(cleartext))
    requires forall i :: 0 <= i < k ==> var attempt := Attempt(recipients[i], header, d, sealed);
                                        attempt == Ok(None) || attempt == Ok(Some(cleartext))
    ensures var n := FirstStop(recipients, header, d, sealed);
            && n <= k
            && TryRecipients(recipients, header, d, sealed) ==
               Decryption(Ok(cleartext), Rewritten(recipients, n + 1, header))
  {
  }

  lemma {:induction false} OpenedAtSlot(jwe: JweValue, encrypters: seq<Encrypter>, first: EncryptionResult,
                                        aad: Option<Bytes>, d: Decrypter, read: HeaderReader, header: Header, k: nat,
                                        cleartext: Bytes)
    requires encrypters != [] && first.recipients != [] && Delivers(jwe, encrypters, first, aad)
    requires read(first.protectedHeader) == Some(header) && !IsDirect(header, d) && k < |jwe.recipients|
    requires Attempt(jwe.recipients[k], header, d, SealedBy(first, aad)) == Ok(Some(cleartext))
    requires forall i :: 0 <= i < k ==>
               var attempt := Attempt(jwe.recipients[i], header, d, SealedBy(first, aad));
               attempt == Ok(None) || attempt == Ok(Some(cleartext))
    ensures OpensWithin(jwe, first, aad, d, read, header, k, cleartext)
  {
    FirstOpens(jwe.recipients, header, d, SealedBy(first, aad), k, cleartext);
    DeliveredIsTried(jwe, encrypters, first, aad, d, read, header);
  }

  /** Decryption returns the cleartext exactly if the JWE is presentable, and then it has rewritten
      the headers up to the first recipient that opens, at k or before. */
  ghost predicate OpensWithin(jwe: JweValue, first: EncryptionResult, aad: Option<Bytes>, d: Decrypter,
                              read: HeaderReader, header: Header, k: nat, cleartext: Bytes)
  {
    var n := FirstStop(jwe.recipients, header, d, SealedBy(first, aad));
    && n <= k < |jwe.recipients|
    && if Presentable(first, jwe.recipients, header, d)
       then Decrypt(jwe, d, read) == Decryption(Ok(cleartext), Rewritten(jwe.recipients, n + 1, header))
       else Decrypt(jwe, d, read).result.Err?
  }

  /** The slot is filled, and decryption goes through the recipients. */
  predicate IsReached(slot: Slot, encrypters: seq<Encrypter>, first: EncryptionResult, d: Decrypter,
                      read: HeaderReader)
  {
    && FirstDecides(encrypters, first) && SlotRecipient(slot, encrypters, first).Some?
    && read(first.protectedHeader).Some? && !IsDirect(read(first.protectedHeader).value, d)
  }

  /** The multi-recipient round trip. Whatever was encrypted, the decrypter for any one slot gets
      the cleartext exactly when the JWE is presentable, at the slot's own recipient unless an
      earlier one opens too. */
  lemma {:induction false} RoundTrip(cleartext: Bytes, encrypters: seq<Encrypter>, protectedHeader: Header,
                                     aad: Option<Bytes>, d: Decrypter, read: HeaderReader, slot: Slot,
                                     first: EncryptionResult)
    requires encrypters != [] && OpensSlot(d, slot, encrypters, read) && Authenticates(d, encrypters[0])
    requires first == encrypters[0].encrypt(cleartext, protectedHeader, aad)
    ensures var created := Create(cleartext, encrypters, protectedHeader, aad);
            created.Ok? && IsReached(slot, encrypters, first, d, read) ==>
              OpensWithin(created.value, first, aad, d, read, read(first.protectedHeader).value,
                          SlotPosition(slot, encrypters, first), cleartext)
  {
    var created := Create(cleartext, encrypters, protectedHeader, aad);
    if created.Ok? && IsReached(slot, encrypters, first, d, read) {
      var header, k := read(first.protectedHeader).value, SlotPosition(slot, encrypters, first);
      FirstKeyDecides(cleartext, encrypters, protectedHeader, aad, first);
      SlotIsThere(slot, encrypters, first, aad, created.value);
      SlotOpens(d, slot, encrypters, read, cleartext, protectedHeader, aad);
      forall i | 0 <= i < k
        ensures var attempt := Attempt(created.value.recipients[i], header, d, SealedBy(first, aad));
                attempt == Ok(None) || attempt == Ok(Some(cleartext))
      {
        AttemptsAgree(d, encrypters[0], cleartext, protectedHeader, aad, created.value.recipients[i], header);
      }
      OpenedAtSlot(created.value, encrypters, first, aad, d, read, header, k, cleartext);
    }
  }

  /** A cipher that hides nothing, with a recipient for one key. */
  function ClearEncrypter(alg: Text, enc: Text, key: Text): Encrypter {
    var recipient := Recipient(Some(map[ALG := alg]), key);
    Encrypter(alg, enc, (c, h, aad) => EncryptionResult(c, [0], [0], enc, [recipient], Some([0])),
              Some(cek => Some(recipient)))
  }

  function ClearDecrypter(alg: Text, enc: Text, key: Text): Decrypter {
    Decrypter(alg, enc, (bytes, iv, aad, r: Option<Recipient>) =>
                if bytes != [] && r.Some? && r.value.encryptedKey == key then Some(bytes[..|bytes| - 1]) else None)
  }

  /** The protected header's text is the content encryption. */
  function ClearReader(text: Text): Option<Header> { Some(map[ENC := text]) }

  lemma {:induction false} ClearOpens(alg: Text, enc: Text, key: Text, more: Text)
    ensures var es := [ClearEncrypter(alg, enc, key), ClearEncrypter(alg, enc, more)];
            && OpensSlot(ClearDecrypter(alg, enc, key), Own(0), es, ClearReader)
            && OpensSlot(ClearDecrypter(alg, enc, more), Later(1), es, ClearReader)
  {
    assert ALG[0] != ENC[0];
  }

  lemma {:induction false} ClearIsReached(alg: Text, enc: Text, key: Text, more: Text, cleartext: Bytes,
                                          header: Header, aad: Option<Bytes>)
    requires alg != DIR && alg != ECDH_ES
    ensures var es := [ClearEncrypter(alg, enc, key), ClearEncrypter(alg, enc, more)];
            var first := es[0].encrypt(cleartext, header, aad);
            && IsReached(Own(0), es, first, ClearDecrypter(alg, enc, key), ClearReader)
            && IsReached(Later(1), es, first, ClearDecrypter(alg, enc, more), ClearReader)
  {
    var es := [ClearEncrypter(alg, enc, key), ClearEncrypter(alg, enc, more)];
    assert MayShare(es);
  }

  /** The conditions of the round trip can be met, for the first encrypter's recipient and for
      that of a later one, by decrypters that open their own recipient only. */
  lemma {:induction false} LawsCanBeMet(alg: Text, enc: Text, key: Text, more: Text, cleartext: Bytes,
                                        header: Header, aad: Option<Bytes>)
    requires alg != DIR && alg != ECDH_ES
    ensures var es := [ClearEncrypter(alg, enc, key), ClearEncrypter(alg, enc, more)];
            var d, later := ClearDecrypter(alg, enc, key), ClearDecrypter(alg, enc, more);
            var first := es[0].encrypt(cleartext, header, aad);
            && OpensSlot(d, Own(0), es, ClearReader) && Authenticates(d, es[0])
            && OpensSlot(later, Later(1), es, ClearReader) && Authenticates(later, es[0])
            && IsReached(Own(0), es, first, d, ClearReader) && IsReached(Later(1), es, first, later, ClearReader)
  {
    ClearOpens(alg, enc, key, more);
    ClearIsReached(alg, enc, key, more, cleartext, header, aad);
  }

  /** A decrypter for direct mode opens whatever the encrypter seals. */
  ghost predicate OpensDirect(d: Decrypter, e: Encrypter) {
    forall cleartext: Bytes, header: Header, aad: Option<Bytes> ::
      var r := e.encrypt(cleartext, header, aad);
      d.decrypt(r.ciphertext + r.tag, r.iv, SentAad(r.protectedHeader, aad), None) == Some(cleartext)
  }

  /** The direct round trip: here too every recipient must have an encrypted key, although
      RFC 7516, section 5.1, leaves it empty in direct mode; and no header is rewritten. */
  lemma {:induction false} DirectRoundTrip(cleartext: Bytes, e: Encrypter, protectedHeader: Header,
                                           aad: Option<Bytes>, d: Decrypter, read: HeaderReader, header: Header,
                                           jwe: JweValue)
    requires Create(cleartext, [e], protectedHeader, aad) == Ok(jwe)
    requires read(e.encrypt(cleartext, protectedHeader, aad).protectedHeader) == Some(header)
    requires IsDirect(header, d) && OpensDirect(d, e)
    ensures if Presentable(e.encrypt(cleartext, protectedHeader, aad), jwe.recipients, header, d)
            then Decrypt(jwe, d, read) == Decryption(Ok(cleartext), jwe.recipients)
            else Decrypt(jwe, d, read).result.Err?
    ensures jwe.recipients == e.encrypt(cleartext, protectedHeader, aad).recipients
  {
    var r := e.encrypt(cleartext, protectedHeader, aad);
    assert [e][0] == e && LaterRecipients([e], r) == [];
    FirstKeyDecides(cleartext, [e], protectedHeader, aad, r);
    DeliveredIsTried(jwe, [e], r, aad, d, read, header);
    UrlDecodes(r.iv);
    assert r.recipients + [] == r.recipients;
  }

  /** Rewriting headers twice is rewriting them once, so decrypting again changes nothing more. */
  lemma RewritingSettles(recipients: seq<Recipient>, n: nat, header: Header)
    ensures RewrittenUpTo(recipients, Rewritten(recipients, n, header), n, header)
    ensures Rewritten(Rewritten(recipients, n, header), n, header) == Rewritten(recipients, n, header)
  {
    RewrittenMeans(recipients, n, header);
    forall i | 0 <= i < |recipients|
      ensures Merged(Merged(recipients[i], header), header) == Merged(recipients[i], header)
    {
      match recipients[i].header
      case None => assert header + header == header;
      case Some(own) => assert own + header + header == own + header;
    }
  }
}
