/** JWE JSON assembly and decryption (RFC 7516, section 7.2.1) over abstract ciphers. */
module Jwe {
  import opened Wrappers
  import opened Utf16
  import B = Base64

  type Bytes = seq<B.byte>
  type Header = map<Text, Text>

  const ALG := Lit("alg")
  const ENC := Lit("enc")
  const DIR := Lit("dir")
  const ECDH_ES := Lit("ECDH-ES")

  /** An absent encrypted key is the empty text; both are falsy. */
  datatype Recipient = Recipient(header: Option<Header>, encryptedKey: Text)

  datatype EncryptionResult = EncryptionResult(
    ciphertext: Bytes, tag: Bytes, iv: Bytes, protectedHeader: Text, recipients: seq<Recipient>, cek: Option<Bytes>)

  /** `encryptCek` is None for an encrypter without that method. */
  datatype Encrypter = Encrypter(
    alg: Text, enc: Text,
    encrypt: (Bytes, Header, Option<Bytes>) -> EncryptionResult,
    encryptCek: Option<Bytes -> Option<Recipient>>)

  datatype Decrypter = Decrypter(
    alg: Text, enc: Text,
    decrypt: (Bytes, Bytes, Text, Option<Recipient>) -> Option<Bytes>)

  datatype JweError =
    | NoEncrypter | DirectNeedsOne | Incompatible | NoRecipient
    | MissingProperties | MalformedRecipients | BadHeader | EncMismatch | BadEncoding | MissingRecipients | NotDecrypted

  /** The value of a JWE in general JSON serialization. */
  datatype JweValue = JweValue(
    protectedHeader: Text, iv: Text, ciphertext: Text, tag: Text, aad: Option<Text>, recipients: seq<Recipient>)

  class JweJson {
    const protectedHeader: Text
    const iv: Text
    const ciphertext: Text
    const tag: Text
    const aad: Option<Text>
    var recipients: seq<Recipient>

    constructor (v: JweValue)
      ensures Value() == v
    {
      protectedHeader := v.protectedHeader;
      iv := v.iv;
      ciphertext := v.ciphertext;
      tag := v.tag;
      aad := v.aad;
      recipients := v.recipients;
    }

    function Value(): JweValue
      reads this
    {
      JweValue(protectedHeader, iv, ciphertext, tag, aad, recipients)
    }

    method Push(recipient: Recipient)
      modifies this
      ensures Value() == Extended(old(Value()), [recipient])
    {
      recipients := recipients + [recipient];
    }
  }

  // ---- Creating ------------------------------------------------------------------------

  function ToBase64Url(b: Bytes): Text { B.Encode(b, true) }

  function JweEncode(r: EncryptionResult, aad: Option<Bytes>): Result<JweValue, JweError> {
    if r.recipients == [] then Err(NoRecipient)
    else
      var aadText := match aad case None => None case Some(b) => Some(ToBase64Url(b));
      var iv, ciphertext, tag := ToBase64Url(r.iv), ToBase64Url(r.ciphertext), ToBase64Url(r.tag);
      Ok(JweValue(r.protectedHeader, iv, ciphertext, tag, aadText, r.recipients))
  }

  function Offer(e: Encrypter, cek: Bytes): Option<Recipient> {
    match e.encryptCek
    case None => None
    case Some(f) => f(cek)
  }

  /** The recipients that later encrypters offer for a content key. */
  function Offers(encrypters: seq<Encrypter>, cek: Bytes): seq<Recipient> {
    if encrypters == [] then []
    else
      var last := |encrypters| - 1;
      match Offer(encrypters[last], cek)
      case None => Offers(encrypters[..last], cek)
      case Some(recipient) => Offers(encrypters[..last], cek) + [recipient]
  }

  /** A JWE with more recipients behind its own. */
  function Extended(base: JweValue, more: seq<Recipient>): JweValue {
    base.(recipients := base.recipients + more)
  }

  /** The JWE is that of the first encrypter that returns a content key, or else of the last
      one; what earlier encrypters produced is overwritten, unless it cannot be encoded. */
  function Assemble(encrypters: seq<Encrypter>, cleartext: Bytes, header: Header, aad: Option<Bytes>)
    : Result<JweValue, JweError>
    requires encrypters != []
  {
    var result := encrypters[0].encrypt(cleartext, header, aad);
    var encoded := JweEncode(result, aad);
    if encoded.Err? then encoded
    else match result.cek
         case Some(cek) => Ok(Extended(encoded.value, Offers(encrypters[1..], cek)))
         case None => if |encrypters| == 1 then encoded else Assemble(encrypters[1..], cleartext, header, aad)
  }

  predicate HasDirect(encrypters: seq<Encrypter>) {
    exists i :: 0 <= i < |encrypters| && (encrypters[i].alg == DIR || encrypters[i].alg == ECDH_ES)
  }

  /** All use the content encryption of the first. */
  predicate Compatible(encrypters: seq<Encrypter>) {
    forall i :: 0 <= i < |encrypters| ==> encrypters[i].enc == encrypters[0].enc
  }

  function Create(cleartext: Bytes, encrypters: seq<Encrypter>, header: Header, aad: Option<Bytes>)
    : Result<JweValue, JweError>
  {
    if encrypters == [] then Err(NoEncrypter)
    else if HasDirect(encrypters) then
      if |encrypters| != 1 then Err(DirectNeedsOne)
      else JweEncode(encrypters[0].encrypt(cleartext, header, aad), aad)
    else if !Compatible(encrypters) then Err(Incompatible)
    else Assemble(encrypters, cleartext, header, aad)
  }

  method CreateJwe(cleartext: Bytes, encrypters: seq<Encrypter>, header: Header, aad: Option<Bytes>)
    returns (r: Result<JweJson, JweError>)
    ensures r.Ok? ==> fresh(r.value) && Create(cleartext, encrypters, header, aad) == Ok(r.value.Value())
    ensures r.Err? ==> Create(cleartext, encrypters, header, aad) == Err(r.error)
  {
    if encrypters == [] {
      return Err(NoEncrypter);
    }
    if exists i :: 0 <= i < |encrypters| && (encrypters[i].alg == Lit("dir") || encrypters[i].alg == Lit("ECDH-ES")) {
      if |encrypters| != 1 {
        return Err(DirectNeedsOne);
      }
      var encoded := JweEncode(encrypters[0].encrypt(cleartext, header, aad), aad);
      if encoded.Err? {
        return Err(encoded.error);
      }
      var direct := new JweJson(encoded.value);
      return Ok(direct);
    }
    if exists i :: 0 <= i < |encrypters| && encrypters[i].enc != encrypters[0].enc {
      return Err(Incompatible);
    }
    r := EncryptForAll(cleartext, encrypters, header, aad);
  }

  // ---- The loop over the encrypters -------------------------------------------------------

  /** The loop's two variables: the content key, once there is one, and the JWE so far. */
  datatype Progress = Progress(cek: Option<Bytes>, jwe: Option<JweValue>)

  function Offered(e: Encrypter, cek: Bytes): seq<Recipient> {
    match Offer(e, cek)
    case None => []
    case Some(recipient) => [recipient]
  }

  /** One round of the loop. */
  function Round(p: Progress, e: Encrypter, cleartext: Bytes, header: Header, aad: Option<Bytes>)
    : Result<Progress, JweError>
  {
    match (p.cek, p.jwe)
    case (Some(cek), Some(jwe)) => Ok(p.(jwe := Some(Extended(jwe, Offered(e, cek)))))
    case _ =>
      var result := e.encrypt(cleartext, header, aad);
      match JweEncode(result, aad)
      case Err(error) => Err(error)
      case Ok(v) => Ok(Progress(result.cek, Some(v)))
  }

  function Rounds(encrypters: seq<Encrypter>, cleartext: Bytes, header: Header, aad: Option<Bytes>)
    : Result<Progress, JweError>
  {
    if encrypters == [] then Ok(Progress(None, None))
    else
      var last := |encrypters| - 1;
      match Rounds(encrypters[..last], cleartext, header, aad)
      case Err(error) => Err(error)
      case Ok(p) => Round(p, encrypters[last], cleartext, header, aad)
  }

  lemma {:induction false} RoundsFail(encrypters: seq<Encrypter>, i: nat, cleartext: Bytes, header: Header,
                                      aad: Option<Bytes>)
    requires i <= |encrypters| && Rounds(encrypters[..i], cleartext, header, aad).Err?
    ensures Rounds(encrypters, cleartext, header, aad) == Rounds(encrypters[..i], cleartext, header, aad)
    decreases |encrypters|
  {
    if i < |encrypters| {
      var front := encrypters[..|encrypters| - 1];
      assert front[..i] == encrypters[..i];
      RoundsFail(front, i, cleartext, header, aad);
    } else {
      assert encrypters[..i] == encrypters;
    }
  }

  method EncryptForAll(cleartext: Bytes, encrypters: seq<Encrypter>, header: Header, aad: Option<Bytes>)
    returns (r: Result<JweJson, JweError>)
    requires encrypters != []
    ensures r.Ok? ==> fresh(r.value) && Assemble(encrypters, cleartext, header, aad) == Ok(r.value.Value())
    ensures r.Err? ==> Assemble(encrypters, cleartext, header, aad) == Err(r.error)
  {
    var cek: Option<Bytes> := None;
    var jwe: JweJson? := null;
    for i := 0 to |encrypters|
      invariant jwe == null <==> i == 0
      invariant jwe != null ==> fresh(jwe)
      invariant Rounds(encrypters[..i], cleartext, header, aad) ==
                Ok(Progress(cek, if jwe == null then None else Some(jwe.Value())))
      invariant jwe == null ==> cek.None?
    {
      var encrypter := encrypters[i];
      assert encrypters[..i + 1][..i] == encrypters[..i];
      if cek.None? {
        var result := encrypter.encrypt(cleartext, header, aad);
        cek := result.cek;
        var encoded := JweEncode(result, aad);
        if encoded.Err? {
          RoundsFail(encrypters, i + 1, cleartext, header, aad);
          RoundsAssemble(encrypters, cleartext, header, aad);
          return Err(encoded.error);
        }
        jwe := new JweJson(encoded.value);
      } else {
        var recipient := Offer(encrypter, cek.value);
        if recipient.Some? {
          jwe.Push(recipient.value);
        } else {
          assert jwe.recipients + [] == jwe.recipients;
        }
      }
    }
    assert encrypters[..|encrypters|] == encrypters;
    RoundsAssemble(encrypters, cleartext, header, aad);
    r := Ok(jwe);
  }

  lemma {:induction false} OffersSplit(more: seq<Encrypter>, cek: Bytes)
    requires more != []
    ensures Offers(more, cek) == Offers(more[..|more| - 1], cek) + Offered(more[|more| - 1], cek)
  {
  }

  lemma ExtendTwice(base: JweValue, a: seq<Recipient>, b: seq<Recipient>)
    ensures Extended(Extended(base, a), b) == Extended(base, a + b)
  {
    assert base.recipients + a + b == base.recipients + (a + b);
  }

  lemma {:induction false} LastRound(first: Encrypter, more: seq<Encrypter>, cleartext: Bytes, header: Header,
                                     aad: Option<Bytes>)
    requires more != []
    ensures Rounds([first] + more, cleartext, header, aad) ==
            match Rounds([first] + more[..|more| - 1], cleartext, header, aad)
            case Err(error) => Err(error)
            case Ok(p) => Round(p, more[|more| - 1], cleartext, header, aad)
  {
    var all := [first] + more;
    assert all[..|all| - 1] == [first] + more[..|more| - 1] && all[|all| - 1] == more[|more| - 1];
  }

  /** From a state with a content key, the rounds only add offers. */
  lemma {:induction false} RoundsWithKey(first: Encrypter, more: seq<Encrypter>, cleartext: Bytes, header: Header,
                                         aad: Option<Bytes>)
    requires var result := first.encrypt(cleartext, header, aad); JweEncode(result, aad).Ok? && result.cek.Some?
    ensures var result := first.encrypt(cleartext, header, aad);
            Rounds([first] + more, cleartext, header, aad) ==
            Ok(Progress(result.cek, Some(Extended(JweEncode(result, aad).value, Offers(more, result.cek.value)))))
  {
    var base := JweEncode(first.encrypt(cleartext, header, aad), aad).value;
    if more == [] {
      assert [first][..0] == [] && [first] + more == [first];
      assert base.recipients + [] == base.recipients;
    } else {
      var front, last := more[..|more| - 1], more[|more| - 1];
      var cek := first.encrypt(cleartext, header, aad).cek.value;
      RoundsWithKey(first, front, cleartext, header, aad);
      LastRound(first, more, cleartext, header, aad);
      OffersSplit(more, cek);
      ExtendTwice(base, Offers(front, cek), Offered(last, cek));
    }
  }

  /** A first encrypter without content key leaves no trace behind a second one. */
  lemma {:induction false} RoundsForget(first: Encrypter, more: seq<Encrypter>, cleartext: Bytes, header: Header,
                                        aad: Option<Bytes>)
    requires more != []
    requires var result := first.encrypt(cleartext, header, aad); JweEncode(result, aad).Ok? && result.cek.None?
    ensures Rounds([first] + more, cleartext, header, aad) == Rounds(more, cleartext, header, aad)
  {
    var front, last := more[..|more| - 1], more[|more| - 1];
    LastRound(first, more, cleartext, header, aad);
    if front == [] {
      assert [first] + front == [first] && [first][..0] == [];
      assert Rounds([first], cleartext, header, aad) ==
             Ok(Progress(None, Some(JweEncode(first.encrypt(cleartext, header, aad), aad).value)));
    } else {
      RoundsForget(first, front, cleartext, header, aad);
    }
  }

  /** Running the loop over all encrypters gives what Assemble describes. */
  lemma {:induction false} RoundsAssemble(encrypters: seq<Encrypter>, cleartext: Bytes, header: Header,
                                          aad: Option<Bytes>)
    requires encrypters != []
    ensures match Rounds(encrypters, cleartext, header, aad)
            case Err(error) => Assemble(encrypters, cleartext, header, aad) == Err(error)
            case Ok(p) => p.jwe.Some? && Assemble(encrypters, cleartext, header, aad) == Ok(p.jwe.value)
  {
    var first, more := encrypters[0], encrypters[1..];
    assert encrypters == [first] + more;
    var result := first.encrypt(cleartext, header, aad);
    if JweEncode(result, aad).Err? {
      assert encrypters[..1] == [first] && [first][..0] == [];
      assert Rounds([first], cleartext, header, aad).Err?;
      RoundsFail(encrypters, 1, cleartext, header, aad);
    } else if result.cek.Some? {
      RoundsWithKey(first, more, cleartext, header, aad);
    } else if more == [] {
      assert [first][..0] == [];
    } else {
      RoundsForget(first, more, cleartext, header, aad);
      RoundsAssemble(more, cleartext, header, aad);
    }
  }
}
