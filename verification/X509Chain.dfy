/** X.509 chain validation: the walk over a chain, its exits, and the single reversal. Parsing,
    signature checks and certificate equality are parameters. */
module X509Chain {
  import opened Wrappers
  import opened Utf16

  type Raw = Text

  /** A parsed certificate; `content` stands for everything but its two names. */
  datatype Cert = Cert(content: Text, subject: Text, issuer: Text)

  /** `verify` is the signature and date check at the verification time with the key of the
      previous certificate, or with the certificate's own key when there is none. */
  datatype Library = Library(
    parse: Raw -> Option<Cert>,
    verify: (Cert, Option<Cert>) -> bool,
    isSame: (Cert, Cert) -> bool,
    areEqual: (Cert, Cert) -> bool)

  /** The options after their defaults are filled in. */
  datatype Opts = Opts(
    allowNoTrustAnchorsFound: bool,
    trustRootWhenNoAnchors: bool,
    allowSingleNoCAChainElement: bool,
    blindlyTrustedAnchors: seq<Raw>,
    disallowReversedChain: bool,
    client: Option<Text>)

  /** Which of the result messages is given. */
  datatype Reason = BlindlyTrusted | NotLinked | NotVerified | SingleAllowed | ChainValid | NoTrustAnchor

  /** `Rejected` is a rejected promise, when something does not parse. */
  datatype Outcome =
    | Rejected
    | EmptyChain
    | Result(error: bool, reason: Reason, certificateChain: seq<Cert>, trustAnchor: Option<Cert>, client: Option<Text>)

  predicate Accepted(r: Outcome) { r.Result? && !r.error }

  function Reverse<T>(s: seq<T>): (r: seq<T>)
    ensures |r| == |s| && forall i :: 0 <= i < |s| ==> r[i] == s[|s| - 1 - i]
  {
    seq(|s|, i requires 0 <= i < |s| => s[|s| - 1 - i])
  }

  lemma ReverseTwice<T>(s: seq<T>)
    ensures Reverse(Reverse(s)) == s
  {
  }

  function ParseAll(raws: seq<Raw>, lib: Library): Option<seq<Cert>> {
    if raws == [] then Some([])
    else match (lib.parse(raws[0]), ParseAll(raws[1..], lib))
         case (Some(c), Some(rest)) => Some([c] + rest)
         case _ => None
  }

  lemma {:induction false} ParseAllEach(raws: seq<Raw>, lib: Library)
    ensures ParseAll(raws, lib).Some? <==> forall i :: 0 <= i < |raws| ==> lib.parse(raws[i]).Some?
    ensures ParseAll(raws, lib).Some? ==>
              var certs := ParseAll(raws, lib).value;
              |certs| == |raws| && forall i :: 0 <= i < |raws| ==> Some(certs[i]) == lib.parse(raws[i])
  {
    if raws != [] {
      ParseAllEach(raws[1..], lib);
      assert forall i :: 0 <= i < |raws[1..]| ==> raws[1..][i] == raws[i + 1];
      if exists i :: 0 <= i < |raws[1..]| && lib.parse(raws[1..][i]).None? {
        var i :| 0 <= i < |raws[1..]| && lib.parse(raws[1..][i]).None?;
        assert lib.parse(raws[i + 1]).None?;
      }
    }
  }

  /** `find`: the first certificate that matches. */
  function Find(certs: seq<Cert>, cert: Cert, matches: (Cert, Cert) -> bool): Option<Cert> {
    if certs == [] then None
    else if matches(certs[0], cert) then Some(certs[0])
    else Find(certs[1..], cert, matches)
  }

  lemma {:induction false} FindMeets(certs: seq<Cert>, cert: Cert, matches: (Cert, Cert) -> bool)
    ensures Find(certs, cert, matches).Some? <==> exists c <- certs :: matches(c, cert)
    ensures Find(certs, cert, matches).Some? ==>
              Find(certs, cert, matches).value in certs && matches(Find(certs, cert, matches).value, cert)
  {
    if certs != [] {
      FindMeets(certs[1..], cert, matches);
      assert certs == [certs[0]] + certs[1..];
    }
  }

  /** The match found is the first one. */
  lemma {:induction false} FindIsFirst(certs: seq<Cert>, cert: Cert, matches: (Cert, Cert) -> bool) returns (k: nat)
    requires Find(certs, cert, matches).Some?
    ensures k < |certs| && Find(certs, cert, matches) == Some(certs[k]) && matches(certs[k], cert)
    ensures forall j :: 0 <= j < k ==> !matches(certs[j], cert)
  {
    if matches(certs[0], cert) {
      k := 0;
    } else {
      var rest := FindIsFirst(certs[1..], cert, matches);
      k := rest + 1;
      assert forall j :: 0 < j < k ==> certs[j] == certs[1..][j - 1];
    }
  }

  function Previous(chain: seq<Cert>, i: nat): Option<Cert>
    requires i < |chain|
  {
    if i > 0 then Some(chain[i - 1]) else None
  }

  // ---- What the walk looks at, position by position --------------------------------------------

  /** The parsed inputs of one walk, root first. `anchors` is empty when none are given. */
  datatype Walk = Walk(chain: seq<Cert>, anchors: seq<Cert>, blind: seq<Cert>) {
    predicate BlindAt(i: nat, lib: Library)
      requires i < |chain|
    {
      exists c <- blind :: lib.areEqual(c, chain[i])
    }

    predicate LinkedAt(i: nat)
      requires i < |chain|
    {
      i > 0 ==> chain[i].issuer == chain[i - 1].subject
    }

    predicate VerifiedAt(i: nat, lib: Library)
      requires i < |chain|
    {
      lib.verify(chain[i], Previous(chain, i))
    }

    /** The walk moves past position i. */
    predicate ClearAt(i: nat, lib: Library)
      requires i < |chain|
    {
      !BlindAt(i, lib) && LinkedAt(i) && VerifiedAt(i, lib)
    }

    predicate ClearBefore(i: nat, lib: Library)
      requires i <= |chain|
    {
      forall j :: 0 <= j < i ==> ClearAt(j, lib)
    }

    predicate HasAnchor(lib: Library) {
      exists i :: 0 <= i < |chain| && AnchoredAt(i, lib)
    }

    predicate AnchoredAt(i: nat, lib: Library)
      requires i < |chain|
    {
      exists c <- anchors :: lib.isSame(c, chain[i])
    }

    /** The walk ends without error: a blind hit behind clear positions, or every position
        clear and one of: a single certificate that may stand alone, an anchor, or leave to
        have none. */
    ghost predicate Accepts(opts: Opts, lib: Library) {
      || (exists i :: 0 <= i < |chain| && BlindAt(i, lib) && ClearBefore(i, lib))
      || (ClearBefore(|chain|, lib) &&
          ((|chain| == 1 && opts.allowSingleNoCAChainElement) || HasAnchor(lib) || opts.allowNoTrustAnchorsFound))
    }

    /** The walk ends at a broken link, or at a first certificate that does not verify. */
    ghost predicate EndsRetryable(lib: Library) {
      exists i :: 0 <= i < |chain| && ClearBefore(i, lib) && !BlindAt(i, lib) &&
                  (!LinkedAt(i) || (i == 0 && !VerifiedAt(0, lib)))
    }

    /** The first anchor, in chain order and then in anchor order, up to a position. */
    function AnchorBefore(i: nat, lib: Library): Option<Cert>
      requires i <= |chain|
    {
      if i == 0 then None
      else if AnchorBefore(i - 1, lib).Some? then AnchorBefore(i - 1, lib)
      else Find(anchors, chain[i - 1], lib.isSame)
    }
  }

  // ---- One walk as a function --------------------------------------------------------------

  /** How a walk ends: with a result, or with a failure that a reversal may repair. */
  datatype End = End(result: Outcome, retryable: bool)

  function Fail(reason: Reason, w: Walk, shown: seq<Cert>, opts: Opts): Outcome {
    Result(true, reason, shown, None, opts.client)
  }

  /** The end of a walk that has moved past the positions before i. */
  function WalkFrom(w: Walk, i: nat, shown: seq<Cert>, opts: Opts, lib: Library): End
    requires i <= |w.chain|
    decreases |w.chain| - i
  {
    if i == |w.chain| then
      var anchor := w.AnchorBefore(i, lib);
      if anchor.Some? || opts.allowNoTrustAnchorsFound then
        End(Result(false, ChainValid, shown, anchor, opts.client), false)
      else End(Fail(NoTrustAnchor, w, shown, opts), false)
    else if Find(w.blind, w.chain[i], lib.areEqual).Some? then
      End(Result(false, BlindlyTrusted, shown, Find(w.blind, w.chain[i], lib.areEqual), opts.client), false)
    else if !w.LinkedAt(i) then End(Fail(NotLinked, w, shown, opts), true)
    else if !w.VerifiedAt(i, lib) then End(Fail(NotVerified, w, shown, opts), i == 0)
    else if i == 0 && |w.chain| == 1 && opts.allowSingleNoCAChainElement then
      End(Result(false, SingleAllowed, shown, w.AnchorBefore(1, lib), opts.client), false)
    else WalkFrom(w, i + 1, shown, opts, lib)
  }

  /** The anchors in use. Without any, `trustRootWhenNoAnchors` takes the last certificate of
      the list as it is walked. */
  function TrustedRaws(chain: seq<Raw>, trustAnchors: Option<seq<Raw>>, opts: Opts): seq<Raw>
    requires chain != []
  {
    match trustAnchors
    case Some(raws) => raws
    case None => if opts.trustRootWhenNoAnchors then [chain[|chain| - 1]] else []
  }

  /** The parsed inputs, if everything parses. A blind anchor that does not parse counts too:
      the guard around its parsing does not see the asynchronous failure. */
  function Inputs(chain: seq<Raw>, trustAnchors: Option<seq<Raw>>, opts: Opts, lib: Library): Option<Walk>
    requires chain != []
  {
    match (ParseAll(chain, lib), ParseAll(TrustedRaws(chain, trustAnchors, opts), lib),
           ParseAll(opts.blindlyTrustedAnchors, lib))
    case (Some(certs), Some(anchors), Some(blind)) => Some(Walk(certs, anchors, blind))
    case _ => None
  }

  /** The certificates in the caller's order: x5c, leaf first, unless reversed. */
  function Shown(w: Walk, reversed: bool): seq<Cert> {
    if reversed then w.chain else Reverse(w.chain)
  }

  /** One run over a chain as walked; `retry` is what a reversal, if one is made, leads to. */
  function RunOutcome(reversed: bool, chain: seq<Raw>, trustAnchors: Option<seq<Raw>>, opts: Opts, lib: Library,
                      retry: Outcome): Outcome {
    if chain == [] then EmptyChain
    else match Inputs(chain, trustAnchors, opts, lib)
         case None => Rejected
         case Some(w) =>
           var end := WalkFrom(w, 0, Shown(w, reversed), opts, lib);
           if end.retryable && !reversed && !opts.disallowReversedChain then retry else end.result
  }

  /** The run of a reversed chain never reverses again. */
  function ReversedOutcome(chain: seq<Raw>, trustAnchors: Option<seq<Raw>>, opts: Opts, lib: Library): Outcome {
    RunOutcome(true, chain, trustAnchors, opts, lib, Rejected)
  }

  function ImplOutcome(reversed: bool, chain: seq<Raw>, trustAnchors: Option<seq<Raw>>, opts: Opts, lib: Library)
    : Outcome
  {
    if reversed then ReversedOutcome(chain, trustAnchors, opts, lib)
    else RunOutcome(false, chain, trustAnchors, opts, lib, ReversedOutcome(Reverse(chain), trustAnchors, opts, lib))
  }

  /** What `validateX509CertificateChain` resolves to. */
  function ChainOutcome(chain: seq<Raw>, trustAnchors: Option<seq<Raw>>, opts: Opts, lib: Library): Outcome {
    ImplOutcome(false, Reverse(chain), trustAnchors, opts, lib)
  }

  lemma {:induction false} EndDecides(reversed: bool, chain: seq<Raw>, trustAnchors: Option<seq<Raw>>, opts: Opts,
                                      lib: Library, w: Walk)
    requires chain != [] && Inputs(chain, trustAnchors, opts, lib) == Some(w)
    ensures var end := WalkFrom(w, 0, Shown(w, reversed), opts, lib);
            ImplOutcome(reversed, chain, trustAnchors, opts, lib) ==
            if end.retryable && !reversed && !opts.disallowReversedChain then
              ImplOutcome(true, Reverse(chain), trustAnchors, opts, lib)
            else end.result
  {
  }

  // ---- The code: a loop with early exits and one self-call -------------------------------------------

  method ValidateChain(pemOrDerChain: seq<Raw>, trustAnchors: Option<seq<Raw>>, opts: Opts, lib: Library)
    returns (r: Outcome)
    ensures r == ChainOutcome(pemOrDerChain, trustAnchors, opts, lib)
  {
    r := ValidateChainImpl(false, Reverse(pemOrDerChain), trustAnchors, opts, lib);
  }

  method ValidateChainImpl(reversed: bool, pemOrDerChain: seq<Raw>, trustAnchors: Option<seq<Raw>>, opts: Opts,
                           lib: Library)
    returns (r: Outcome)
    ensures r == ImplOutcome(reversed, pemOrDerChain, trustAnchors, opts, lib)
    decreases !reversed, 1
  {
    if pemOrDerChain == [] {
      return EmptyChain;
    }
    var chain := ParseAll(pemOrDerChain, lib);
    var trustedPEMs := if opts.trustRootWhenNoAnchors && trustAnchors.None?
                       then Some([pemOrDerChain[|pemOrDerChain| - 1]]) else trustAnchors;
    var trustedCerts := if trustedPEMs.Some? then ParseAll(trustedPEMs.value, lib) else Some([]);
    var blindlyTrusted := ParseAll(opts.blindlyTrustedAnchors, lib);
    if chain.None? || trustedCerts.None? || blindlyTrusted.None? {
      return Rejected;
    }
    var w := Walk(chain.value, trustedCerts.value, blindlyTrusted.value);
    r := WalkChain(reversed, w, pemOrDerChain, trustAnchors, opts, lib);
    EndDecides(reversed, pemOrDerChain, trustAnchors, opts, lib, w);
  }

  /** The loop over the parsed chain; a reversal runs the whole validation again. */
  method WalkChain(reversed: bool, w: Walk, pemOrDerChain: seq<Raw>, trustAnchors: Option<seq<Raw>>, opts: Opts,
                   lib: Library)
    returns (r: Outcome)
    ensures var end := WalkFrom(w, 0, Shown(w, reversed), opts, lib);
            r == if end.retryable && !reversed && !opts.disallowReversedChain then
                   ImplOutcome(true, Reverse(pemOrDerChain), trustAnchors, opts, lib)
                 else end.result
    decreases !reversed, 0
  {
    var chain := w.chain;
    var x5cOrderedChain := Shown(w, reversed);
    ghost var end := WalkFrom(w, 0, x5cOrderedChain, opts, lib);
    var foundTrustAnchor: Option<Cert> := None;
    var i := 0;
    while i < |chain|
      invariant 0 <= i <= |chain|
      invariant foundTrustAnchor == w.AnchorBefore(i, lib)
      invariant end == WalkFrom(w, i, x5cOrderedChain, opts, lib)
    {
      var currentCert := chain[i];
      var previousCert := Previous(chain, i);
      var blindlyTrustedCert := Find(w.blind, currentCert, lib.areEqual);
      if blindlyTrustedCert.Some? {
        return Result(false, BlindlyTrusted, x5cOrderedChain, blindlyTrustedCert, opts.client);
      }
      if previousCert.Some? {
        if currentCert.issuer != previousCert.value.subject {
          if !reversed && !opts.disallowReversedChain {
            r := ValidateChainImpl(true, Reverse(pemOrDerChain), trustAnchors, opts, lib);
            return;
          }
          return Result(true, NotLinked, x5cOrderedChain, None, opts.client);
        }
      }
      var result := lib.verify(currentCert, previousCert);
      if !result {
        if i == 0 && !reversed && !opts.disallowReversedChain {
          r := ValidateChainImpl(true, Reverse(pemOrDerChain), trustAnchors, opts, lib);
          return;
        }
        return Result(true, NotVerified, x5cOrderedChain, None, opts.client);
      }
      foundTrustAnchor := if foundTrustAnchor.Some? then foundTrustAnchor else Find(w.anchors, currentCert, lib.isSame);
      if i == 0 && |chain| == 1 && opts.allowSingleNoCAChainElement {
        return Result(false, SingleAllowed, x5cOrderedChain, foundTrustAnchor, opts.client);
      }
      i := i + 1;
    }
    if foundTrustAnchor.Some? || opts.allowNoTrustAnchorsFound {
      return Result(false, ChainValid, x5cOrderedChain, foundTrustAnchor, opts.client);
    }
    return Result(true, NoTrustAnchor, x5cOrderedChain, None, opts.client);
  }
}
