/** The validator's verdict in terms of what the caller supplied: chain, anchors and options. */
module X509Anchors {
  import opened Wrappers
  import opened X509Chain
  import opened X509Verdict

  // ---- What is supplied -----------------------------------------------------------------

  ghost predicate AllParse(raws: seq<Raw>, lib: Library) {
    forall raw <- raws :: lib.parse(raw).Some?
  }

  /** Some supplied certificate matches c. */
  ghost predicate AnyMatches(raws: seq<Raw>, c: Cert, matches: (Cert, Cert) -> bool, lib: Library) {
    exists raw <- raws :: lib.parse(raw).Some? && matches(lib.parse(raw).value, c)
  }

  /** The first supplied certificate that matches c is a. */
  ghost predicate FirstMatch(a: Cert, raws: seq<Raw>, c: Cert, matches: (Cert, Cert) -> bool, lib: Library) {
    exists k :: 0 <= k < |raws| && lib.parse(raws[k]) == Some(a) && matches(a, c) &&
                forall j :: 0 <= j < k ==> lib.parse(raws[j]).Some? && !matches(lib.parse(raws[j]).value, c)
  }

  ghost predicate IsBlind(c: Cert, opts: Opts, lib: Library) {
    AnyMatches(opts.blindlyTrustedAnchors, c, lib.areEqual, lib)
  }

  /** A supplied anchor is the same as c. When none are supplied there is no anchor, unless the
      last certificate of the order is asked for as one. */
  ghost predicate IsAnchored(c: Cert, order: seq<Cert>, trustAnchors: Option<seq<Raw>>, opts: Opts, lib: Library)
    requires order != []
  {
    match trustAnchors
    case Some(raws) => AnyMatches(raws, c, lib.isSame, lib)
    case None => opts.trustRootWhenNoAnchors && lib.isSame(order[|order| - 1], c)
  }

  ghost predicate IsAnchorOf(a: Cert, c: Cert, order: seq<Cert>, trustAnchors: Option<seq<Raw>>, opts: Opts,
                             lib: Library)
    requires order != []
  {
    match trustAnchors
    case Some(raws) => FirstMatch(a, raws, c, lib.isSame, lib)
    case None => opts.trustRootWhenNoAnchors && a == order[|order| - 1] && lib.isSame(a, c)
  }

  ghost predicate NoneBlind(order: seq<Cert>, n: nat, opts: Opts, lib: Library)
    requires n <= |order|
  {
    forall i :: 0 <= i < n ==> !IsBlind(order[i], opts, lib)
  }

  /** Certificates in this order, root first, are accepted: up to a blindly trusted one, or all
      verified and anchored, or all verified where no anchor is needed. */
  ghost predicate OrderAccepted(order: seq<Cert>, trustAnchors: Option<seq<Raw>>, opts: Opts, lib: Library)
    requires order != []
  {
    || (exists i :: 0 <= i < |order| && IsBlind(order[i], opts, lib) && VerifiedUpTo(order, i, lib))
    || (&& FullyVerified(order, lib)
        && (|| (|order| == 1 && opts.allowSingleNoCAChainElement)
            || opts.allowNoTrustAnchorsFound
            || exists c <- order :: IsAnchored(c, order, trustAnchors, opts, lib)))
  }

  ghost predicate RetriedAt(order: seq<Cert>, i: nat, opts: Opts, lib: Library)
    requires i < |order|
  {
    && VerifiedUpTo(order, i, lib) && NoneBlind(order, i + 1, opts, lib)
    && (!Linked(order, i) || (i == 0 && !Signed(order, 0, lib)))
  }

  /** They fail where the opposite order is tried: at a broken link, or at a first certificate that
      is not its own issuer's. */
  ghost predicate OrderRetried(order: seq<Cert>, opts: Opts, lib: Library) {
    !opts.disallowReversedChain && exists i :: 0 <= i < |order| && RetriedAt(order, i, opts, lib)
  }

  // ---- From the walk to what is supplied -----------------------------------------------------------

  lemma {:induction false} MatchMeans(raws: seq<Raw>, certs: seq<Cert>, c: Cert, matches: (Cert, Cert) -> bool,
                                      lib: Library)
    requires ParseAll(raws, lib) == Some(certs)
    ensures AnyMatches(raws, c, matches, lib) <==> Find(certs, c, matches).Some?
    ensures forall a :: Find(certs, c, matches) == Some(a) ==> FirstMatch(a, raws, c, matches, lib)
  {
    ParseAllEach(raws, lib);
    FindMeets(certs, c, matches);
    if Find(certs, c, matches).Some? {
      var k := FindIsFirst(certs, c, matches);
      assert raws[k] in raws && lib.parse(raws[k]) == Some(certs[k]);
      assert forall j :: 0 <= j < k ==> lib.parse(raws[j]) == Some(certs[j]);
    }
    if raw :| raw in raws && lib.parse(raw).Some? && matches(lib.parse(raw).value, c) {
      var k :| 0 <= k < |raws| && raws[k] == raw;
      assert certs[k] in certs && matches(certs[k], c);
    }
  }

  /** The anchors of a walk are the supplied ones, or the last certificate where that is asked for. */
  lemma {:induction false} AnchorsMean(chain: seq<Raw>, trustAnchors: Option<seq<Raw>>, opts: Opts, lib: Library,
                                       w: Walk, c: Cert)
    requires chain != [] && Inputs(chain, trustAnchors, opts, lib) == Some(w)
    ensures w.chain != []
    ensures IsAnchored(c, w.chain, trustAnchors, opts, lib) <==> Find(w.anchors, c, lib.isSame).Some?
    ensures forall a :: Find(w.anchors, c, lib.isSame) == Some(a) ==>
              IsAnchorOf(a, c, w.chain, trustAnchors, opts, lib)
  {
    InputsNonEmpty(chain, trustAnchors, opts, lib);
    match trustAnchors
    case Some(raws) => MatchMeans(raws, w.anchors, c, lib.isSame, lib);
    case None =>
      if opts.trustRootWhenNoAnchors {
        LastIsAnchor(chain, opts, lib, w);
        assert w.anchors[1..] == [];
      }
  }

  lemma {:induction false} LastIsAnchor(chain: seq<Raw>, opts: Opts, lib: Library, w: Walk)
    requires chain != [] && opts.trustRootWhenNoAnchors && Inputs(chain, None, opts, lib) == Some(w)
    ensures w.chain != [] && w.anchors == [w.chain[|w.chain| - 1]]
  {
    ParseAllEach(chain, lib);
    ParseAllEach([chain[|chain| - 1]], lib);
    assert Some(w.anchors[0]) == lib.parse([chain[|chain| - 1]][0]);
  }

  lemma {:induction false} BlindIsListed(chain: seq<Raw>, trustAnchors: Option<seq<Raw>>, opts: Opts, lib: Library,
                                         w: Walk, i: nat)
    requires chain != [] && Inputs(chain, trustAnchors, opts, lib) == Some(w) && i < |w.chain|
    ensures w.BlindAt(i, lib) <==> IsBlind(w.chain[i], opts, lib)
  {
    MatchMeans(opts.blindlyTrustedAnchors, w.blind, w.chain[i], lib.areEqual, lib);
    BlindMeans(w, i, lib);
  }

  lemma {:induction false} HasAnchorMeans(chain: seq<Raw>, trustAnchors: Option<seq<Raw>>, opts: Opts, lib: Library,
                                          w: Walk)
    requires chain != [] && Inputs(chain, trustAnchors, opts, lib) == Some(w)
    ensures w.chain != []
    ensures w.HasAnchor(lib) <==> exists c <- w.chain :: IsAnchored(c, w.chain, trustAnchors, opts, lib)
  {
    AnchorsMean(chain, trustAnchors, opts, lib, w, Cert([], [], []));
    forall i | 0 <= i < |w.chain|
      ensures w.AnchoredAt(i, lib) <==> IsAnchored(w.chain[i], w.chain, trustAnchors, opts, lib)
    {
      AnchorsMean(chain, trustAnchors, opts, lib, w, w.chain[i]);
      FindMeets(w.anchors, w.chain[i], lib.isSame);
    }
    if w.HasAnchor(lib) {
      var i :| 0 <= i < |w.chain| && w.AnchoredAt(i, lib);
      assert w.chain[i] in w.chain;
    }
  }

  lemma {:induction false} AcceptsMeans(chain: seq<Raw>, trustAnchors: Option<seq<Raw>>, opts: Opts, lib: Library,
                                        w: Walk)
    requires chain != [] && Inputs(chain, trustAnchors, opts, lib) == Some(w)
    ensures w.chain != [] && (w.Accepts(opts, lib) <==> OrderAccepted(w.chain, trustAnchors, opts, lib))
  {
    HasAnchorMeans(chain, trustAnchors, opts, lib, w);
    forall i | 0 <= i < |w.chain| ensures w.BlindAt(i, lib) <==> IsBlind(w.chain[i], opts, lib) {
      BlindIsListed(chain, trustAnchors, opts, lib, w, i);
    }
    forall n | 0 <= n <= |w.chain|
      ensures w.ClearBefore(n, lib) <==>
              VerifiedUpTo(w.chain, n, lib) && forall i :: 0 <= i < n ==> !w.BlindAt(i, lib)
    {
      ClearMeans(w, n, lib);
    }
    if i :| 0 <= i < |w.chain| && w.BlindAt(i, lib) && VerifiedUpTo(w.chain, i, lib) {
      BlindAccepts(w, i, opts, lib);
    }
  }

  lemma {:induction false} BlindAccepts(w: Walk, i: nat, opts: Opts, lib: Library)
    requires i < |w.chain| && w.BlindAt(i, lib) && VerifiedUpTo(w.chain, i, lib)
    ensures w.Accepts(opts, lib)
  {
    forall j | 0 <= j < i ensures w.LinkedAt(j) && w.VerifiedAt(j, lib) {
      assert Linked(w.chain, j) && Signed(w.chain, j, lib);
    }
    BlindWithin(w, i, opts, lib);
  }

  ghost predicate RetriesAt(w: Walk, i: nat, lib: Library)
    requires i < |w.chain|
  {
    w.ClearBefore(i, lib) && !w.BlindAt(i, lib) && (!w.LinkedAt(i) || (i == 0 && !w.VerifiedAt(0, lib)))
  }

  lemma {:induction false} RetryableMeans(w: Walk, lib: Library)
    ensures w.EndsRetryable(lib) <==> exists i :: 0 <= i < |w.chain| && RetriesAt(w, i, lib)
  {
    if w.EndsRetryable(lib) {
      var i :| 0 <= i < |w.chain| && w.ClearBefore(i, lib) && !w.BlindAt(i, lib) &&
               (!w.LinkedAt(i) || (i == 0 && !w.VerifiedAt(0, lib)));
      assert RetriesAt(w, i, lib);
    }
  }

  lemma {:induction false} RetriedMeans(chain: seq<Raw>, trustAnchors: Option<seq<Raw>>, opts: Opts, lib: Library,
                                        w: Walk)
    requires chain != [] && Inputs(chain, trustAnchors, opts, lib) == Some(w)
    ensures w.EndsRetryable(lib) && !opts.disallowReversedChain <==> OrderRetried(w.chain, opts, lib)
  {
    RetryableMeans(w, lib);
    forall i | 0 <= i < |w.chain| ensures RetriesAt(w, i, lib) <==> RetriedAt(w.chain, i, opts, lib) {
      RetriedAtMeans(chain, trustAnchors, opts, lib, w, i);
    }
  }

  lemma {:induction false} RetriedAtMeans(chain: seq<Raw>, trustAnchors: Option<seq<Raw>>, opts: Opts, lib: Library,
                                          w: Walk, i: nat)
    requires chain != [] && Inputs(chain, trustAnchors, opts, lib) == Some(w) && i < |w.chain|
    ensures RetriesAt(w, i, lib) <==> RetriedAt(w.chain, i, opts, lib)
  {
    ClearMeans(w, i, lib);
    forall j | 0 <= j <= i ensures w.BlindAt(j, lib) <==> IsBlind(w.chain[j], opts, lib) {
      BlindIsListed(chain, trustAnchors, opts, lib, w, j);
    }
  }

  // ---- The verdict ----------------------------------------------------------------------------

  /** Everything supplied parses, and the certificates are accepted root first, or else in the
      opposite order where that is tried. */
  ghost predicate ShouldAccept(chain: seq<Raw>, trustAnchors: Option<seq<Raw>>, opts: Opts, lib: Library) {
    && chain != [] && AllParse(chain, lib) && AllParse(opts.blindlyTrustedAnchors, lib)
    && (trustAnchors.Some? ==> AllParse(trustAnchors.value, lib))
    && exists certs: seq<Cert> ::
         && IsParsed(certs, chain, lib)
         && (|| OrderAccepted(Reverse(certs), trustAnchors, opts, lib)
             || (OrderRetried(Reverse(certs), opts, lib) && OrderAccepted(certs, trustAnchors, opts, lib)))
  }

  /** The chain parses to these certificates. */
  ghost predicate IsParsed(certs: seq<Cert>, chain: seq<Raw>, lib: Library) {
    |certs| == |chain| && forall i :: 0 <= i < |chain| ==> lib.parse(chain[i]) == Some(certs[i])
  }

  lemma {:induction false} ParsedMeans(chain: seq<Raw>, lib: Library)
    ensures AllParse(chain, lib) <==> ParseAll(chain, lib).Some?
    ensures forall certs :: IsParsed(certs, chain, lib) <==> ParseAll(chain, lib) == Some(certs)
  {
    ParseAllIff(chain, lib);
    ParseAllEach(chain, lib);
    forall certs | IsParsed(certs, chain, lib) ensures ParseAll(chain, lib) == Some(certs) {
      assert certs == ParseAll(chain, lib).value;
    }
  }

  lemma {:induction false} InputsMean(chain: seq<Raw>, trustAnchors: Option<seq<Raw>>, opts: Opts, lib: Library)
    requires chain != []
    ensures Inputs(chain, trustAnchors, opts, lib).Some? <==>
            && AllParse(chain, lib) && AllParse(opts.blindlyTrustedAnchors, lib)
            && (trustAnchors.Some? ==> AllParse(trustAnchors.value, lib))
    ensures forall w :: Inputs(chain, trustAnchors, opts, lib) == Some(w) ==> IsParsed(w.chain, chain, lib)
  {
    InputsIffParse(chain, trustAnchors, opts, lib);
    ParsedMeans(chain, lib);
  }

  /** The two orders, when everything parses. */
  lemma {:induction false} BothOrders(chain: seq<Raw>, trustAnchors: Option<seq<Raw>>, opts: Opts, lib: Library,
                                      certs: seq<Cert>)
    requires chain != [] && IsParsed(certs, chain, lib) && AllParse(opts.blindlyTrustedAnchors, lib)
    requires trustAnchors.Some? ==> AllParse(trustAnchors.value, lib)
    ensures var first, second := Inputs(Reverse(chain), trustAnchors, opts, lib),
                                 Inputs(chain, trustAnchors, opts, lib);
            first.Some? && first.value.chain == Reverse(certs) && second.Some? && second.value.chain == certs
  {
    ParsedMeans(chain, lib);
    ParseReverse(chain, lib);
    ParsedMeans(Reverse(chain), lib);
    InputsMean(chain, trustAnchors, opts, lib);
    InputsMean(Reverse(chain), trustAnchors, opts, lib);
  }

  lemma {:induction false} UnparsedIsRefused(chain: seq<Raw>, trustAnchors: Option<seq<Raw>>, opts: Opts, lib: Library)
    requires chain != []
    requires !(&& AllParse(chain, lib) && AllParse(opts.blindlyTrustedAnchors, lib)
               && (trustAnchors.Some? ==> AllParse(trustAnchors.value, lib)))
    ensures ChainOutcome(chain, trustAnchors, opts, lib) == Rejected
  {
    RejectedIffUnparsable(chain, trustAnchors, opts, lib);
  }

  /** `error == false` exactly when the description in terms of the supplied texts says so. */
  lemma {:induction false} VerdictCharacterised(chain: seq<Raw>, trustAnchors: Option<seq<Raw>>, opts: Opts,
                                                lib: Library)
    ensures Accepted(ChainOutcome(chain, trustAnchors, opts, lib)) <==> ShouldAccept(chain, trustAnchors, opts, lib)
  {
    if chain != [] {
      ParsedMeans(chain, lib);
      if && AllParse(chain, lib) && AllParse(opts.blindlyTrustedAnchors, lib)
         && (trustAnchors.Some? ==> AllParse(trustAnchors.value, lib))
      {
        var certs := ParseAll(chain, lib).value;
        BothOrders(chain, trustAnchors, opts, lib, certs);
        WalksDecide(chain, trustAnchors, opts, lib);
        var first, second := Inputs(Reverse(chain), trustAnchors, opts, lib).value,
                             Inputs(chain, trustAnchors, opts, lib).value;
        AcceptsMeans(Reverse(chain), trustAnchors, opts, lib, first);
        AcceptsMeans(chain, trustAnchors, opts, lib, second);
        RetriedMeans(Reverse(chain), trustAnchors, opts, lib, first);
      } else {
        UnparsedIsRefused(chain, trustAnchors, opts, lib);
      }
    }
  }

  // ---- The reported anchor ------------------------------------------------------------------------

  /** What the anchor of a result stands for: nothing after an error; after a blind hit the first
      supplied blind anchor that equals the first certificate that has one; otherwise the first
      supplied anchor of the first certificate that has one, if any has. */
  ghost predicate AnchorExplained(order: seq<Cert>, r: Outcome, trustAnchors: Option<seq<Raw>>, opts: Opts,
                                  lib: Library)
    requires r.Result? && order != []
  {
    if r.error then r.trustAnchor == None
    else if r.reason == BlindlyTrusted then
      && r.trustAnchor.Some?
      && exists i :: 0 <= i < |order| && NoneBlind(order, i, opts, lib) &&
                     FirstMatch(r.trustAnchor.value, opts.blindlyTrustedAnchors, order[i], lib.areEqual, lib)
    else match r.trustAnchor
         case None => NoneAnchored(order, |order|, trustAnchors, opts, lib)
         case Some(a) =>
           exists i :: 0 <= i < |order| && NoneAnchored(order, i, trustAnchors, opts, lib) &&
                       IsAnchorOf(a, order[i], order, trustAnchors, opts, lib)
  }

  ghost predicate NoneAnchored(order: seq<Cert>, n: nat, trustAnchors: Option<seq<Raw>>, opts: Opts, lib: Library)
    requires order != [] && n <= |order|
  {
    forall i :: 0 <= i < n ==> !IsAnchored(order[i], order, trustAnchors, opts, lib)
  }

  lemma {:induction false} AnchorBeforeMeans(chain: seq<Raw>, trustAnchors: Option<seq<Raw>>, opts: Opts, lib: Library,
                                             w: Walk, n: nat)
    requires chain != [] && Inputs(chain, trustAnchors, opts, lib) == Some(w) && n <= |w.chain|
    ensures w.chain != []
    ensures match w.AnchorBefore(n, lib)
            case None => NoneAnchored(w.chain, n, trustAnchors, opts, lib)
            case Some(a) => exists i :: 0 <= i < n && NoneAnchored(w.chain, i, trustAnchors, opts, lib) &&
                                        IsAnchorOf(a, w.chain[i], w.chain, trustAnchors, opts, lib)
  {
    InputsNonEmpty(chain, trustAnchors, opts, lib);
    if n > 0 {
      AnchorBeforeMeans(chain, trustAnchors, opts, lib, w, n - 1);
      AnchorsMean(chain, trustAnchors, opts, lib, w, w.chain[n - 1]);
    }
  }

  lemma {:induction false} WalkExplains(chain: seq<Raw>, trustAnchors: Option<seq<Raw>>, opts: Opts, lib: Library,
                                        w: Walk, i: nat, shown: seq<Cert>)
    requires chain != [] && Inputs(chain, trustAnchors, opts, lib) == Some(w) && w.chain != []
    requires i <= |w.chain| && NoneBlind(w.chain, i, opts, lib)
    ensures WalkFrom(w, i, shown, opts, lib).result.Result?
    ensures AnchorExplained(w.chain, WalkFrom(w, i, shown, opts, lib).result, trustAnchors, opts, lib)
    decreases |w.chain| - i
  {
    AnchorBeforeMeans(chain, trustAnchors, opts, lib, w, |w.chain|);
    if i < |w.chain| {
      MatchMeans(opts.blindlyTrustedAnchors, w.blind, w.chain[i], lib.areEqual, lib);
      if !IsBlind(w.chain[i], opts, lib) {
        WalkExplains(chain, trustAnchors, opts, lib, w, i + 1, shown);
      }
    }
  }

  /** The reported anchor is always a supplied one, and which one is fixed by the order that decided:
      root first, unless that order is retried. */
  lemma {:induction false} ReportedAnchorFits(chain: seq<Raw>, trustAnchors: Option<seq<Raw>>, opts: Opts, lib: Library)
    requires ChainOutcome(chain, trustAnchors, opts, lib).Result?
    ensures var r := ChainOutcome(chain, trustAnchors, opts, lib);
            && IsParsed(r.certificateChain, chain, lib) && r.certificateChain != []
            && var rootFirst := Reverse(r.certificateChain);
               var order := if OrderRetried(rootFirst, opts, lib) then r.certificateChain else rootFirst;
               AnchorExplained(order, r, trustAnchors, opts, lib)
  {
    ResultKeepsCallerOrder(chain, trustAnchors, opts, lib);
    ParsedMeans(chain, lib);
    OneOfTwoWalks(chain, trustAnchors, opts, lib);
    RejectedIffUnparsable(chain, trustAnchors, opts, lib);
    var certs := ParseAll(chain, lib).value;
    BothOrders(chain, trustAnchors, opts, lib, certs);
    var first, second := Inputs(Reverse(chain), trustAnchors, opts, lib).value,
                         Inputs(chain, trustAnchors, opts, lib).value;
    RetriedMeans(Reverse(chain), trustAnchors, opts, lib, first);
    WalkExplains(Reverse(chain), trustAnchors, opts, lib, first, 0, Reverse(first.chain));
    WalkExplains(chain, trustAnchors, opts, lib, second, 0, second.chain);
  }

  lemma {:induction false} ExplainedIsSupplied(order: seq<Cert>, r: Outcome, trustAnchors: Option<seq<Raw>>, opts: Opts,
                                               lib: Library)
    requires r.Result? && order != [] && AnchorExplained(order, r, trustAnchors, opts, lib)
    requires r.reason != BlindlyTrusted
    ensures trustAnchors.Some? && r.trustAnchor.Some? ==>
              exists raw <- trustAnchors.value :: lib.parse(raw) == r.trustAnchor
    ensures trustAnchors.None? && !opts.trustRootWhenNoAnchors ==> r.trustAnchor == None
  {
    if trustAnchors.Some? && r.trustAnchor.Some? {
      var i :| 0 <= i < |order| && IsAnchorOf(r.trustAnchor.value, order[i], order, trustAnchors, opts, lib);
      var k :| 0 <= k < |trustAnchors.value| && lib.parse(trustAnchors.value[k]) == r.trustAnchor;
      assert trustAnchors.value[k] in trustAnchors.value;
    }
  }

  lemma {:induction false} AcceptedIsAnchored(order: seq<Cert>, raws: seq<Raw>, opts: Opts, lib: Library)
    requires order != [] && OrderAccepted(order, Some(raws), opts, lib) && opts.blindlyTrustedAnchors == []
    requires !(|order| == 1 && opts.allowSingleNoCAChainElement) && !opts.allowNoTrustAnchorsFound
    ensures FullyVerified(order, lib) && exists c <- order :: AnyMatches(raws, c, lib.isSame, lib)
  {
    var c :| c in order && IsAnchored(c, order, Some(raws), opts, lib);
    assert AnyMatches(raws, c, lib.isSame, lib);
  }

  /** Nothing but a supplied anchor is reported, and none at all when none is supplied and the root
      is not asked for. */
  lemma {:induction false} OnlySuppliedAnchors(chain: seq<Raw>, trustAnchors: Option<seq<Raw>>, opts: Opts,
                                               lib: Library)
    ensures var r := ChainOutcome(chain, trustAnchors, opts, lib);
            r.Result? && r.reason != BlindlyTrusted ==>
              && (trustAnchors.Some? && r.trustAnchor.Some? ==>
                    exists raw <- trustAnchors.value :: lib.parse(raw) == r.trustAnchor)
              && (trustAnchors.None? && !opts.trustRootWhenNoAnchors ==> r.trustAnchor == None)
  {
    var r := ChainOutcome(chain, trustAnchors, opts, lib);
    if r.Result? && r.reason != BlindlyTrusted {
      ReportedAnchorFits(chain, trustAnchors, opts, lib);
      var rootFirst := Reverse(r.certificateChain);
      var order := if OrderRetried(rootFirst, opts, lib) then r.certificateChain else rootFirst;
      ExplainedIsSupplied(order, r, trustAnchors, opts, lib);
    }
  }

  /** Without leave to do without, acceptance takes a certificate of the chain that is the same as a
      supplied anchor. */
  lemma {:induction false} AcceptanceNeedsAnchor(chain: seq<Raw>, raws: seq<Raw>, opts: Opts, lib: Library)
    requires opts.blindlyTrustedAnchors == [] && !opts.allowNoTrustAnchorsFound
    requires !(|chain| == 1 && opts.allowSingleNoCAChainElement)
    ensures Accepted(ChainOutcome(chain, Some(raws), opts, lib)) ==>
              exists c <- ChainOutcome(chain, Some(raws), opts, lib).certificateChain ::
                AnyMatches(raws, c, lib.isSame, lib)
  {
    var r := ChainOutcome(chain, Some(raws), opts, lib);
    if Accepted(r) {
      VerdictCharacterised(chain, Some(raws), opts, lib);
      ResultKeepsCallerOrder(chain, Some(raws), opts, lib);
      ParsedMeans(chain, lib);
      var certs := r.certificateChain;
      if OrderAccepted(certs, Some(raws), opts, lib) {
        AcceptedIsAnchored(certs, raws, opts, lib);
      } else {
        AcceptedIsAnchored(Reverse(certs), raws, opts, lib);
        var c :| c in Reverse(certs) && AnyMatches(raws, c, lib.isSame, lib);
        assert c in certs;
      }
    }
  }
}
