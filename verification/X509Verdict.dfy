/** What the validator's verdict means, over every chain, option and anchor list. */
module X509Verdict {
  import opened Wrappers
  import opened X509Chain

  // ---- One walk ------------------------------------------------------------------------

  lemma {:induction false} BlindMeans(w: Walk, i: nat, lib: Library)
    requires i < |w.chain|
    ensures w.BlindAt(i, lib) <==> Find(w.blind, w.chain[i], lib.areEqual).Some?
  {
    FindMeets(w.blind, w.chain[i], lib.areEqual);
  }

  lemma {:induction false} AnchorMeans(w: Walk, i: nat, lib: Library)
    requires i <= |w.chain|
    ensures w.AnchorBefore(i, lib).Some? <==> exists j :: 0 <= j < i && w.AnchoredAt(j, lib)
    ensures w.AnchorBefore(i, lib).Some? ==> w.AnchorBefore(i, lib).value in w.anchors
  {
    if i > 0 {
      AnchorMeans(w, i - 1, lib);
      FindMeets(w.anchors, w.chain[i - 1], lib.isSame);
      assert w.AnchoredAt(i - 1, lib) <==> Find(w.anchors, w.chain[i - 1], lib.isSame).Some?;
    }
  }

  lemma {:induction false} ClearStopsAt(w: Walk, i: nat, lib: Library)
    requires i < |w.chain| && !w.ClearAt(i, lib)
    ensures forall j: nat :: j <= |w.chain| && w.ClearBefore(j, lib) ==> j <= i
  {
  }

  lemma {:induction false} ClearFacts(w: Walk, i: nat, lib: Library)
    requires i <= |w.chain| && w.ClearBefore(i, lib)
    ensures forall j :: 0 <= j < i ==> !w.BlindAt(j, lib)
    ensures forall j :: 0 <= j < i ==> w.LinkedAt(j)
    ensures forall j :: 0 <= j < i ==> w.VerifiedAt(j, lib)
  {
    forall j | 0 <= j < i ensures !w.BlindAt(j, lib) && w.LinkedAt(j) && w.VerifiedAt(j, lib) {
      assert w.ClearAt(j, lib);
    }
  }

  lemma {:induction false} OnlyBlindBefore(w: Walk, i: nat, opts: Opts, lib: Library)
    requires i < |w.chain| && w.ClearBefore(i, lib) && !w.ClearAt(i, lib)
    ensures w.Accepts(opts, lib) <==> w.BlindAt(i, lib)
  {
    ClearStopsAt(w, i, lib);
    ClearFacts(w, i, lib);
  }

  lemma {:induction false} EndsRetryableAt(w: Walk, i: nat, lib: Library)
    requires i < |w.chain| && w.ClearBefore(i, lib) && !w.ClearAt(i, lib)
    ensures w.EndsRetryable(lib) <==>
            !w.BlindAt(i, lib) && (!w.LinkedAt(i) || (i == 0 && !w.VerifiedAt(0, lib)))
  {
    ClearStopsAt(w, i, lib);
    ClearFacts(w, i, lib);
  }

  lemma {:induction false} ClearNeverRetries(w: Walk, lib: Library)
    requires w.ClearBefore(|w.chain|, lib)
    ensures !w.EndsRetryable(lib)
  {
    ClearFacts(w, |w.chain|, lib);
  }

  /** A walk that has got to position i ends as its description says. */
  lemma {:induction false} WalkMeans(w: Walk, i: nat, shown: seq<Cert>, opts: Opts, lib: Library)
    requires i <= |w.chain| && w.chain != [] && w.ClearBefore(i, lib)
    requires i > 0 ==> !(|w.chain| == 1 && opts.allowSingleNoCAChainElement)
    ensures var end := WalkFrom(w, i, shown, opts, lib);
            && end.result.Result? && end.result.certificateChain == shown && end.result.client == opts.client
            && (!end.result.error <==> w.Accepts(opts, lib))
            && (end.retryable <==> w.EndsRetryable(lib))
    decreases |w.chain| - i
  {
    if i == |w.chain| {
      AnchorMeans(w, i, lib);
      ClearNeverRetries(w, lib);
      ClearFacts(w, i, lib);
    } else {
      BlindMeans(w, i, lib);
      AnchorMeans(w, 1, lib);
      if w.ClearAt(i, lib) {
        if !(i == 0 && |w.chain| == 1 && opts.allowSingleNoCAChainElement) {
          WalkMeans(w, i + 1, shown, opts, lib);
        }
      } else {
        OnlyBlindBefore(w, i, opts, lib);
        EndsRetryableAt(w, i, lib);
      }
    }
  }

  // ---- The verdict ----------------------------------------------------------------------

  /** Acceptance in terms of the two possible walks: the root-first one, or the opposite one
      when the first ends at a failure that a reversal may repair. */
  ghost predicate SomeWalkAccepts(chain: seq<Raw>, trustAnchors: Option<seq<Raw>>, opts: Opts, lib: Library) {
    && chain != []
    && var first := Inputs(Reverse(chain), trustAnchors, opts, lib);
    && first.Some?
    && (|| first.value.Accepts(opts, lib)
        || (&& first.value.EndsRetryable(lib) && !opts.disallowReversedChain
            && var second := Inputs(chain, trustAnchors, opts, lib);
            && second.Some? && second.value.Accepts(opts, lib)))
  }

  lemma {:induction false} RetryableIsNotAccepted(w: Walk, opts: Opts, lib: Library)
    requires w.EndsRetryable(lib)
    ensures !w.Accepts(opts, lib)
  {
    var i :| 0 <= i < |w.chain| && w.ClearBefore(i, lib) && !w.BlindAt(i, lib) &&
             (!w.LinkedAt(i) || (i == 0 && !w.VerifiedAt(0, lib)));
    OnlyBlindBefore(w, i, opts, lib);
  }

  lemma {:induction false} InputsNonEmpty(chain: seq<Raw>, trustAnchors: Option<seq<Raw>>, opts: Opts, lib: Library)
    requires chain != [] && Inputs(chain, trustAnchors, opts, lib).Some?
    ensures var w := Inputs(chain, trustAnchors, opts, lib).value;
            && |w.chain| == |chain|
            && ParseAll(chain, lib) == Some(w.chain)
            && ParseAll(TrustedRaws(chain, trustAnchors, opts), lib) == Some(w.anchors)
            && ParseAll(opts.blindlyTrustedAnchors, lib) == Some(w.blind)
  {
    ParseAllEach(chain, lib);
  }

  /** The outcome is that of one of the two walks, so at most one reversal ever happens. */
  lemma {:induction false} OneOfTwoWalks(chain: seq<Raw>, trustAnchors: Option<seq<Raw>>, opts: Opts, lib: Library)
    requires chain != []
    ensures var first := Inputs(Reverse(chain), trustAnchors, opts, lib);
            var second := Inputs(chain, trustAnchors, opts, lib);
            ChainOutcome(chain, trustAnchors, opts, lib) ==
            if first.None? then Rejected
            else if first.value.EndsRetryable(lib) && !opts.disallowReversedChain then
              if second.None? then Rejected else WalkFrom(second.value, 0, second.value.chain, opts, lib).result
            else WalkFrom(first.value, 0, Reverse(first.value.chain), opts, lib).result
  {
    ReverseTwice(chain);
    var first := Inputs(Reverse(chain), trustAnchors, opts, lib);
    if first.Some? {
      InputsNonEmpty(Reverse(chain), trustAnchors, opts, lib);
      WalkMeans(first.value, 0, Reverse(first.value.chain), opts, lib);
    }
  }

  lemma {:induction false} WalksDecide(chain: seq<Raw>, trustAnchors: Option<seq<Raw>>, opts: Opts, lib: Library)
    ensures Accepted(ChainOutcome(chain, trustAnchors, opts, lib)) <==>
            SomeWalkAccepts(chain, trustAnchors, opts, lib)
  {
    if chain != [] {
      OneOfTwoWalks(chain, trustAnchors, opts, lib);
      var first := Inputs(Reverse(chain), trustAnchors, opts, lib);
      var second := Inputs(chain, trustAnchors, opts, lib);
      if first.Some? {
        InputsNonEmpty(Reverse(chain), trustAnchors, opts, lib);
        WalkMeans(first.value, 0, Reverse(first.value.chain), opts, lib);
        if first.value.EndsRetryable(lib) {
          RetryableIsNotAccepted(first.value, opts, lib);
          if second.Some? {
            InputsNonEmpty(chain, trustAnchors, opts, lib);
            WalkMeans(second.value, 0, second.value.chain, opts, lib);
          }
        }
      }
    }
  }

  /** The certificate names its predecessor as its issuer; the first one need not. */
  predicate Linked(order: seq<Cert>, i: nat)
    requires i < |order|
  {
    i > 0 ==> order[i].issuer == order[i - 1].subject
  }

  /** It is signed with its predecessor's key, or the first one with its own. */
  predicate Signed(order: seq<Cert>, i: nat, lib: Library)
    requires i < |order|
  {
    lib.verify(order[i], if i > 0 then Some(order[i - 1]) else None)
  }

  ghost predicate VerifiedUpTo(order: seq<Cert>, n: nat, lib: Library)
    requires n <= |order|
  {
    forall i :: 0 <= i < n ==> Linked(order, i) && Signed(order, i, lib)
  }

  /** Linked issuer to subject and verified at every position. */
  ghost predicate FullyVerified(order: seq<Cert>, lib: Library) {
    VerifiedUpTo(order, |order|, lib)
  }

  lemma {:induction false} ClearMeans(w: Walk, n: nat, lib: Library)
    requires n <= |w.chain|
    ensures w.ClearBefore(n, lib) <==>
            VerifiedUpTo(w.chain, n, lib) && forall i :: 0 <= i < n ==> !w.BlindAt(i, lib)
  {
    if w.ClearBefore(n, lib) {
      forall i | 0 <= i < n ensures Linked(w.chain, i) && Signed(w.chain, i, lib) && !w.BlindAt(i, lib) {
        assert w.ClearAt(i, lib);
      }
    }
    if VerifiedUpTo(w.chain, n, lib) && forall i :: 0 <= i < n ==> !w.BlindAt(i, lib) {
      forall i | 0 <= i < n ensures w.ClearAt(i, lib) {
        assert Linked(w.chain, i) && Signed(w.chain, i, lib);
      }
    }
  }

  lemma {:induction false} ClearIsVerified(w: Walk, lib: Library)
    requires w.blind == []
    ensures w.ClearBefore(|w.chain|, lib) <==> FullyVerified(w.chain, lib)
  {
    ClearMeans(w, |w.chain|, lib);
  }

  /** Without blind anchors, acceptance means some orientation of the parsed chain is linked
      and verified throughout. */
  lemma {:induction false} AcceptedIsVerified(chain: seq<Raw>, trustAnchors: Option<seq<Raw>>, opts: Opts, lib: Library)
    requires opts.blindlyTrustedAnchors == []
    requires Accepted(ChainOutcome(chain, trustAnchors, opts, lib))
    ensures ParseAll(chain, lib).Some?
    ensures var certs := ParseAll(chain, lib).value;
            FullyVerified(Reverse(certs), lib) || FullyVerified(certs, lib)
  {
    WalksDecide(chain, trustAnchors, opts, lib);
    ParseReverse(chain, lib);
    var first := Inputs(Reverse(chain), trustAnchors, opts, lib).value;
    InputsNonEmpty(Reverse(chain), trustAnchors, opts, lib);
    ClearIsVerified(first, lib);
    if !first.Accepts(opts, lib) {
      var second := Inputs(chain, trustAnchors, opts, lib).value;
      InputsNonEmpty(chain, trustAnchors, opts, lib);
      ClearIsVerified(second, lib);
    }
  }

  lemma {:induction false} ParseReverse(chain: seq<Raw>, lib: Library)
    ensures ParseAll(Reverse(chain), lib).Some? <==> ParseAll(chain, lib).Some?
    ensures ParseAll(chain, lib).Some? ==> ParseAll(Reverse(chain), lib).value == Reverse(ParseAll(chain, lib).value)
  {
    ParseAllEach(chain, lib);
    ParseAllEach(Reverse(chain), lib);
    if ParseAll(Reverse(chain), lib).Some? {
      forall i | 0 <= i < |chain| ensures lib.parse(chain[i]).Some? {
        assert chain[i] == Reverse(chain)[|chain| - 1 - i];
      }
    }
  }

  /** Every result lists the parsed input in the caller's own order, whichever walk decided. */
  lemma {:induction false} ResultKeepsCallerOrder(chain: seq<Raw>, trustAnchors: Option<seq<Raw>>, opts: Opts,
                                                  lib: Library)
    ensures var r := ChainOutcome(chain, trustAnchors, opts, lib);
            r.Result? ==> ParseAll(chain, lib) == Some(r.certificateChain) && r.client == opts.client
  {
    if chain != [] {
      OneOfTwoWalks(chain, trustAnchors, opts, lib);
      ParseReverse(chain, lib);
      var first := Inputs(Reverse(chain), trustAnchors, opts, lib);
      var second := Inputs(chain, trustAnchors, opts, lib);
      if first.Some? {
        InputsNonEmpty(Reverse(chain), trustAnchors, opts, lib);
        ReverseTwice(first.value.chain);
        ReverseTwice(ParseAll(chain, lib).value);
        WalkMeans(first.value, 0, Reverse(first.value.chain), opts, lib);
        if second.Some? {
          InputsNonEmpty(chain, trustAnchors, opts, lib);
          WalkMeans(second.value, 0, second.value.chain, opts, lib);
        }
      }
    }
  }

  // ---- More anchors never turn acceptance into refusal --------------------------------------------

  ghost predicate Covers(a: seq<Cert>, b: seq<Cert>) { forall c <- a :: c in b }

  /** The least blind position up to i makes the larger walk accept. */
  lemma {:induction false} BlindWithin(v: Walk, i: nat, opts: Opts, lib: Library)
    requires i < |v.chain|
    requires v.BlindAt(i, lib) && forall j :: 0 <= j < i ==> v.LinkedAt(j) && v.VerifiedAt(j, lib)
    ensures v.Accepts(opts, lib)
  {
    if j :| 0 <= j < i && v.BlindAt(j, lib) {
      BlindWithin(v, j, opts, lib);
    } else {
      assert v.ClearBefore(i, lib);
    }
  }

  ghost predicate Enlarges(v: Walk, w: Walk) {
    v.chain == w.chain && Covers(w.anchors, v.anchors) && Covers(w.blind, v.blind)
  }

  /** Where the smaller walk is clear the larger one is clear too, unless it already accepts. */
  lemma {:induction false} ClearCarriesOver(w: Walk, v: Walk, i: nat, opts: Opts, lib: Library)
    requires Enlarges(v, w) && i <= |w.chain| && w.ClearBefore(i, lib)
    ensures v.Accepts(opts, lib) || v.ClearBefore(i, lib)
  {
    forall j | 0 <= j < i ensures v.LinkedAt(j) && v.VerifiedAt(j, lib) {
      assert w.ClearAt(j, lib);
    }
    if j :| 0 <= j < i && v.BlindAt(j, lib) {
      BlindWithin(v, j, opts, lib);
    }
  }

  lemma {:induction false} AcceptsMonotone(w: Walk, v: Walk, opts: Opts, lib: Library)
    requires Enlarges(v, w) && w.Accepts(opts, lib)
    ensures v.Accepts(opts, lib)
  {
    if i :| 0 <= i < |w.chain| && w.BlindAt(i, lib) && w.ClearBefore(i, lib) {
      ClearCarriesOver(w, v, i, opts, lib);
      assert v.BlindAt(i, lib);
    } else {
      ClearCarriesOver(w, v, |w.chain|, opts, lib);
      if w.HasAnchor(lib) {
        var i :| 0 <= i < |w.chain| && w.AnchoredAt(i, lib);
        assert v.AnchoredAt(i, lib);
      }
    }
  }

  lemma {:induction false} RetryableMonotone(w: Walk, v: Walk, opts: Opts, lib: Library)
    requires Enlarges(v, w) && w.EndsRetryable(lib)
    ensures v.Accepts(opts, lib) || v.EndsRetryable(lib)
  {
    var i :| 0 <= i < |w.chain| && w.ClearBefore(i, lib) && !w.BlindAt(i, lib) &&
             (!w.LinkedAt(i) || (i == 0 && !w.VerifiedAt(0, lib)));
    ClearCarriesOver(w, v, i, opts, lib);
    assert v.LinkedAt(i) == w.LinkedAt(i) && v.VerifiedAt(0, lib) == w.VerifiedAt(0, lib);
  }

  lemma {:induction false} ParseCovers(a: seq<Raw>, b: seq<Raw>, lib: Library)
    requires (forall r <- a :: r in b) && ParseAll(b, lib).Some?
    ensures ParseAll(a, lib).Some? && Covers(ParseAll(a, lib).value, ParseAll(b, lib).value)
  {
    ParseAllEach(a, lib);
    ParseAllEach(b, lib);
    forall i | 0 <= i < |a| ensures lib.parse(a[i]).Some? && lib.parse(a[i]).value in ParseAll(b, lib).value {
      assert a[i] in b;
      var j :| 0 <= j < |b| && b[j] == a[i];
      assert ParseAll(b, lib).value[j] == lib.parse(a[i]).value;
    }
  }

  lemma {:induction false} InputsEnlarge(chain: seq<Raw>, a: seq<Raw>, b: seq<Raw>, few: Opts, many: Opts, lib: Library)
    requires chain != [] && (forall r <- a :: r in b) && ParseAll(b, lib).Some?
    requires forall r <- few.blindlyTrustedAnchors :: r in many.blindlyTrustedAnchors
    requires ParseAll(many.blindlyTrustedAnchors, lib).Some?
    ensures Inputs(chain, Some(a), few, lib).Some? <==> Inputs(chain, Some(b), many, lib).Some?
    ensures Inputs(chain, Some(a), few, lib).Some? ==>
              Enlarges(Inputs(chain, Some(b), many, lib).value, Inputs(chain, Some(a), few, lib).value)
  {
    ParseCovers(a, b, lib);
    ParseCovers(few.blindlyTrustedAnchors, many.blindlyTrustedAnchors, lib);
  }

  /** Acceptance is monotone in explicit trust anchors and in blindly trusted ones, as long as
      the added ones parse. */
  lemma {:induction false} MoreAnchorsKeepAcceptance(chain: seq<Raw>, a: seq<Raw>, b: seq<Raw>, few: Opts, many: Opts,
                                                     lib: Library)
    requires (forall r <- a :: r in b) && ParseAll(b, lib).Some?
    requires forall r <- few.blindlyTrustedAnchors :: r in many.blindlyTrustedAnchors
    requires ParseAll(many.blindlyTrustedAnchors, lib).Some?
    requires many == few.(blindlyTrustedAnchors := many.blindlyTrustedAnchors)
    requires Accepted(ChainOutcome(chain, Some(a), few, lib))
    ensures Accepted(ChainOutcome(chain, Some(b), many, lib))
  {
    WalksDecide(chain, Some(a), few, lib);
    WalksDecide(chain, Some(b), many, lib);
    InputsEnlarge(Reverse(chain), a, b, few, many, lib);
    InputsEnlarge(chain, a, b, few, many, lib);
    var w, v := Inputs(Reverse(chain), Some(a), few, lib).value, Inputs(Reverse(chain), Some(b), many, lib).value;
    assert v.Accepts(few, lib) == v.Accepts(many, lib);
    if w.Accepts(few, lib) {
      AcceptsMonotone(w, v, few, lib);
    } else {
      RetryableMonotone(w, v, few, lib);
      var w', v' := Inputs(chain, Some(a), few, lib).value, Inputs(chain, Some(b), many, lib).value;
      AcceptsMonotone(w', v', few, lib);
      assert v'.Accepts(few, lib) == v'.Accepts(many, lib);
    }
  }

  // ---- Orientation ---------------------------------------------------------------------------

  /** With explicit anchors, no blind ones and reversal allowed, a chain that is linked and
      verified root first, and whose leaf does not verify on its own, gets one verdict and one
      anchor from either orientation. */
  lemma {:induction false} OrientationDoesNotMatter(rootFirst: seq<Raw>, anchors: seq<Raw>, opts: Opts, lib: Library)
    requires opts.blindlyTrustedAnchors == [] && !opts.disallowReversedChain
    requires rootFirst != [] && ParseAll(rootFirst, lib).Some? && ParseAll(anchors, lib).Some?
    requires FullyVerified(ParseAll(rootFirst, lib).value, lib)
    requires lib.parse(rootFirst[|rootFirst| - 1]).Some?
    requires !lib.verify(lib.parse(rootFirst[|rootFirst| - 1]).value, None)
    ensures var a := ChainOutcome(Reverse(rootFirst), Some(anchors), opts, lib);
            var b := ChainOutcome(rootFirst, Some(anchors), opts, lib);
            && a.Result? && b.Result?
            && a.error == b.error && a.reason == b.reason && a.trustAnchor == b.trustAnchor
  {
    var leafFirst := Reverse(rootFirst);
    ReverseTwice(rootFirst);
    ParseReverse(rootFirst, lib);
    var w := Inputs(rootFirst, Some(anchors), opts, lib).value;
    var v := Inputs(leafFirst, Some(anchors), opts, lib).value;
    ClearIsVerified(w, lib);
    ClearNeverRetries(w, lib);
    LeafEndsRetryable(rootFirst, w, v, lib);
    OneOfTwoWalks(leafFirst, Some(anchors), opts, lib);
    OneOfTwoWalks(rootFirst, Some(anchors), opts, lib);
    SameButShown(w, 0, w.chain, Reverse(w.chain), opts, lib);
  }

  /** A walk that starts at a leaf that does not verify on its own ends there. */
  lemma {:induction false} LeafEndsRetryable(rootFirst: seq<Raw>, w: Walk, v: Walk, lib: Library)
    requires rootFirst != [] && ParseAll(rootFirst, lib) == Some(w.chain)
    requires v.chain == Reverse(w.chain) && v.blind == []
    requires lib.parse(rootFirst[|rootFirst| - 1]).Some?
    requires !lib.verify(lib.parse(rootFirst[|rootFirst| - 1]).value, None)
    ensures v.EndsRetryable(lib)
  {
    ParseAllEach(rootFirst, lib);
    assert v.chain[0] == lib.parse(rootFirst[|rootFirst| - 1]).value;
    EndsRetryableAt(v, 0, lib);
  }

  /** The order shown in the result decides nothing else. */
  lemma {:induction false} SameButShown(w: Walk, i: nat, s: seq<Cert>, t: seq<Cert>, opts: Opts, lib: Library)
    requires i <= |w.chain|
    ensures var a, b := WalkFrom(w, i, s, opts, lib), WalkFrom(w, i, t, opts, lib);
            a.retryable == b.retryable && a.result.Result? && b.result == a.result.(certificateChain := t)
    decreases |w.chain| - i
  {
    if i < |w.chain| {
      SameButShown(w, i + 1, s, t, opts, lib);
    }
  }

  // ---- Two places where the code departs from its documentation ---------------------------------------

  /** A walk whose only anchor is its own last certificate accepts exactly if it is verified
      throughout, and then reports that certificate. */
  lemma {:induction false} WalkTrustsLast(w: Walk, shown: seq<Cert>, opts: Opts, lib: Library)
    requires w.chain != [] && w.blind == [] && w.anchors == [w.chain[|w.chain| - 1]]
    requires lib.isSame(w.anchors[0], w.anchors[0])
    ensures var r := WalkFrom(w, 0, shown, opts, lib).result;
            && (Accepted(r) <==> FullyVerified(w.chain, lib))
            && (Accepted(r) ==> r.trustAnchor == Some(w.chain[|w.chain| - 1]))
  {
    assert w.anchors[0] in w.anchors && w.AnchoredAt(|w.chain| - 1, lib);
    ClearIsVerified(w, lib);
    WalkMeans(w, 0, shown, opts, lib);
    if w.ClearBefore(|w.chain|, lib) {
      ClearWalkAnchors(w, 0, shown, opts, lib);
      AnchorMeans(w, |w.chain|, lib);
    }
  }

  lemma {:induction false} TrustRootInputs(chain: seq<Raw>, opts: Opts, lib: Library)
    requires opts.trustRootWhenNoAnchors && opts.blindlyTrustedAnchors == []
    requires chain != [] && ParseAll(chain, lib).Some?
    ensures var certs := ParseAll(chain, lib).value;
            |certs| == |chain| && Inputs(chain, None, opts, lib) == Some(Walk(certs, [certs[|certs| - 1]], []))
  {
    var raws := [chain[|chain| - 1]];
    ParseAllEach(chain, lib);
    ParseAllEach(raws, lib);
    var certs := ParseAll(chain, lib).value;
    assert Some(certs[|certs| - 1]) == lib.parse(raws[0]);
    var parsed := ParseAll(raws, lib).value;
    assert Some(parsed[0]) == lib.parse(raws[0]);
    assert parsed == [certs[|certs| - 1]] && TrustedRaws(chain, None, opts) == raws;
  }

  /** `trustRootWhenNoAnchors` is documented to trust the chain's root. What is trusted is the last
      certificate of the list as it is walked, root first: the leaf. So a chain is accepted if
      either walk is allowed and verified throughout, whoever its root is, and the reported anchor
      is the deciding walk's leaf, which is its root only if the two are one certificate. */
  lemma {:induction false} TrustRootTrustsLeaf(chain: seq<Raw>, opts: Opts, lib: Library)
    requires opts.trustRootWhenNoAnchors && opts.blindlyTrustedAnchors == []
    requires chain != [] && ParseAll(chain, lib).Some? && forall c: Cert :: lib.isSame(c, c)
    ensures var r := ChainOutcome(chain, None, opts, lib);
            var certs := ParseAll(chain, lib).value;
            var first := Walk(Reverse(certs), [certs[0]], []);
            var decided := if first.EndsRetryable(lib) && !opts.disallowReversedChain then certs else Reverse(certs);
            && (Accepted(r) <==> FullyVerified(decided, lib))
            && (Accepted(r) ==>
                  && r.trustAnchor == Some(decided[|decided| - 1])
                  && (r.trustAnchor == Some(decided[0]) <==> decided[0] == decided[|decided| - 1]))
  {
    var certs := ParseAll(chain, lib).value;
    ParseReverse(chain, lib);
    ParseAllEach(chain, lib);
    TrustRootInputs(chain, opts, lib);
    TrustRootInputs(Reverse(chain), opts, lib);
    OneOfTwoWalks(chain, None, opts, lib);
    WalkTrustsLast(Walk(Reverse(certs), [certs[0]], []), Reverse(Reverse(certs)), opts, lib);
    WalkTrustsLast(Walk(certs, [certs[|certs| - 1]], []), certs, opts, lib);
  }

  lemma {:induction false} ClearWalkAnchors(w: Walk, i: nat, shown: seq<Cert>, opts: Opts, lib: Library)
    requires i <= |w.chain| && w.chain != [] && w.ClearBefore(|w.chain|, lib) && w.HasAnchor(lib)
    requires i > 0 ==> !(|w.chain| == 1 && opts.allowSingleNoCAChainElement)
    ensures var r := WalkFrom(w, i, shown, opts, lib).result;
            Accepted(r) && r.trustAnchor == w.AnchorBefore(|w.chain|, lib) && r.trustAnchor.Some?
    decreases |w.chain| - i
  {
    AnchorMeans(w, |w.chain|, lib);
    if i < |w.chain| {
      BlindMeans(w, i, lib);
      assert w.ClearAt(i, lib);
      if !(i == 0 && |w.chain| == 1 && opts.allowSingleNoCAChainElement) {
        ClearWalkAnchors(w, i + 1, shown, opts, lib);
      }
    }
  }

  /** The promise is rejected exactly if something does not parse. That includes a blind anchor,
      which was meant to be skipped. */
  lemma {:induction false} RejectedIffUnparsable(chain: seq<Raw>, trustAnchors: Option<seq<Raw>>, opts: Opts,
                                                 lib: Library)
    requires chain != []
    ensures ChainOutcome(chain, trustAnchors, opts, lib) == Rejected <==>
            || (exists r <- chain :: lib.parse(r).None?)
            || (trustAnchors.Some? && exists r <- trustAnchors.value :: lib.parse(r).None?)
            || (exists r <- opts.blindlyTrustedAnchors :: lib.parse(r).None?)
  {
    OneOfTwoWalks(chain, trustAnchors, opts, lib);
    InputsIffParse(chain, trustAnchors, opts, lib);
    InputsIffParse(Reverse(chain), trustAnchors, opts, lib);
    assert forall r :: r in Reverse(chain) <==> r in chain by {
      forall i | 0 <= i < |chain| ensures chain[i] in Reverse(chain) {
        assert chain[i] == Reverse(chain)[|chain| - 1 - i];
      }
    }
    var first, second := Inputs(Reverse(chain), trustAnchors, opts, lib), Inputs(chain, trustAnchors, opts, lib);
    if first.Some? && second.Some? {
      InputsNonEmpty(chain, trustAnchors, opts, lib);
      InputsNonEmpty(Reverse(chain), trustAnchors, opts, lib);
      WalkMeans(first.value, 0, Reverse(first.value.chain), opts, lib);
      WalkMeans(second.value, 0, second.value.chain, opts, lib);
    }
  }

  lemma {:induction false} ParseAllIff(raws: seq<Raw>, lib: Library)
    ensures ParseAll(raws, lib).None? <==> exists r <- raws :: lib.parse(r).None?
  {
    ParseAllEach(raws, lib);
    if i :| 0 <= i < |raws| && lib.parse(raws[i]).None? {
      assert raws[i] in raws;
    }
  }

  lemma {:induction false} InputsIffParse(chain: seq<Raw>, trustAnchors: Option<seq<Raw>>, opts: Opts, lib: Library)
    requires chain != []
    ensures Inputs(chain, trustAnchors, opts, lib).None? <==>
            || (exists r <- chain :: lib.parse(r).None?)
            || (trustAnchors.Some? && exists r <- trustAnchors.value :: lib.parse(r).None?)
            || (exists r <- opts.blindlyTrustedAnchors :: lib.parse(r).None?)
  {
    ParseAllIff(chain, lib);
    ParseAllIff(opts.blindlyTrustedAnchors, lib);
    ParseAllIff(TrustedRaws(chain, trustAnchors, opts), lib);
    assert chain[|chain| - 1] in chain;
  }
}
