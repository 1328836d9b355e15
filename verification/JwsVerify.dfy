/** The concurrent verification of a JWS: one asynchronous callback for each signature, all of
    them sharing a counter and a list of messages. */
module JwsVerify {
  datatype Verification = Valid | Invalid | Throws

  /** The callbacks started so far, those finished, the shared counter, and for each message the
      number it names. */
  datatype State = State(started: nat, finished: set<nat>, index: nat, messages: seq<nat>)

  const INITIAL := State(0, {}, 0, [])

  /** A callback runs up to its first await, or continues after it. */
  datatype Event = Start | Continue(i: nat)

  predicate Enabled(checks: seq<Verification>, s: State, e: Event) {
    match e
    case Start => s.started < |checks|
    case Continue(i) => i < s.started && i < |checks| && i !in s.finished
  }

  function Apply(checks: seq<Verification>, s: State, e: Event): State
    requires Enabled(checks, s, e)
  {
    match e
    case Start => s.(started := s.started + 1, index := s.index + 1)
    case Continue(i) =>
      s.(finished := s.finished + {i},
         messages := s.messages + if checks[i] == Invalid then [s.index] else [])
  }

  /** The events lead from the initial state to s, each enabled in its turn. */
  ghost predicate Runs(checks: seq<Verification>, events: seq<Event>, s: State) {
    if events == [] then s == INITIAL
    else
      var last := |events| - 1;
      exists before: State ::
        && Runs(checks, events[..last], before)
        && Enabled(checks, before, events[last]) && Apply(checks, before, events[last]) == s
  }

  /** Every callback has finished. */
  ghost predicate Complete(checks: seq<Verification>, s: State) {
    s.started == |checks| && forall i :: 0 <= i < |checks| ==> i in s.finished
  }

  function InvalidAmong(checks: seq<Verification>, indices: set<nat>): set<nat> {
    set i | i in indices && i < |checks| && checks[i] == Invalid
  }

  ghost predicate Invariant(checks: seq<Verification>, s: State) {
    && s.index == s.started <= |checks|
    && (forall i <- s.finished :: i < s.started)
    && |s.messages| == |InvalidAmong(checks, s.finished)|
  }

  lemma StepKeepsInvariant(checks: seq<Verification>, s: State, e: Event)
    requires Invariant(checks, s) && Enabled(checks, s, e)
    ensures Invariant(checks, Apply(checks, s, e))
  {
    if e.Continue? {
      var before, after := InvalidAmong(checks, s.finished), InvalidAmong(checks, s.finished + {e.i});
      assert after == if checks[e.i] == Invalid then before + {e.i} else before;
    }
  }

  lemma {:induction false} RunKeepsInvariant(checks: seq<Verification>, events: seq<Event>, s: State)
    requires Runs(checks, events, s)
    ensures Invariant(checks, s)
  {
    if events == [] {
      assert InvalidAmong(checks, {}) == {};
    } else {
      var last := |events| - 1;
      var before: State :|
        Runs(checks, events[..last], before) &&
        Enabled(checks, before, events[last]) && Apply(checks, before, events[last]) == s;
      RunKeepsInvariant(checks, events[..last], before);
      StepKeepsInvariant(checks, before, events[last]);
    }
  }

  /** The resolved result; a callback that throws rejects the whole verification. */
  datatype Outcome = Rejected | Verified(error: bool, messages: seq<nat>)

  function OutcomeOf(checks: seq<Verification>, s: State): Outcome {
    if Throws in checks then Rejected else Verified(s.messages != [], s.messages)
  }

  /** The positions of invalid signatures. */
  function InvalidPositions(checks: seq<Verification>): set<nat> {
    set i | 0 <= i < |checks| && checks[i] == Invalid
  }

  /** For every interleaving, the verdict is an error exactly when some signature is invalid, and
      there is one message for each invalid signature. */
  lemma VerdictIgnoresSchedule(checks: seq<Verification>, events: seq<Event>, s: State)
    requires Runs(checks, events, s) && Complete(checks, s)
    ensures |s.messages| == |InvalidPositions(checks)|
    ensures OutcomeOf(checks, s) == Rejected <==> Throws in checks
    ensures Throws !in checks ==> (OutcomeOf(checks, s).error <==> Invalid in checks)
    ensures OutcomeOf(checks, s) == Verified(false, []) <==> Throws !in checks && Invalid !in checks
  {
    RunKeepsInvariant(checks, events, s);
    assert InvalidAmong(checks, s.finished) == InvalidPositions(checks);
    if i :| 0 <= i < |checks| && checks[i] == Invalid {
      assert i in InvalidPositions(checks);
    } else {
      assert InvalidPositions(checks) == {};
    }
  }

  /** The schedules a JavaScript engine can produce: `map` starts every callback before any of
      them can continue. */
  ghost predicate StartsFirst(checks: seq<Verification>, events: seq<Event>) {
    forall k :: 0 <= k < |events| ==> (k < |checks| <==> events[k] == Start)
  }

  lemma {:induction false} StartedCount(checks: seq<Verification>, events: seq<Event>, s: State)
    requires Runs(checks, events, s) && StartsFirst(checks, events)
    ensures s.started == if |events| < |checks| then |events| else |checks|
    ensures forall m <- s.messages :: m == |checks|
  {
    if events != [] {
      var last := |events| - 1;
      var before: State :|
        Runs(checks, events[..last], before) &&
        Enabled(checks, before, events[last]) && Apply(checks, before, events[last]) == s;
      StartedCount(checks, events[..last], before);
      RunKeepsInvariant(checks, events[..last], before);
    }
  }

  /** The messages do not say which signature is invalid: the counter is read after the await,
      when all callbacks have counted, so every message names the number of signatures. */
  lemma MessagesNameTheCount(checks: seq<Verification>, events: seq<Event>, s: State)
    requires Runs(checks, events, s) && StartsFirst(checks, events)
    ensures forall m <- s.messages :: m == |checks|
  {
    StartedCount(checks, events, s);
  }

  lemma SameNumbersIff(messages: seq<nat>, invalid: set<nat>, n: nat)
    requires |messages| == |invalid| && forall m <- messages :: m == n
    ensures (set m <- messages) == (set i <- invalid :: i + 1) <==> forall i <- invalid :: i == n - 1
  {
    var named, numbers := set m <- messages, set i <- invalid :: i + 1;
    if messages == [] {
      assert named == {} && numbers == {};
    } else {
      assert messages[0] in named && named == {n};
      var some :| some in invalid;
      assert some + 1 in numbers;
      if forall i <- invalid :: i == n - 1 {
        assert numbers == {n};
      } else {
        var other :| other in invalid && other != n - 1;
        assert other + 1 in numbers;
      }
    }
  }

  /** So a complete run names exactly the invalid signatures, counted from one, if and only if none
      is invalid but the last. */
  lemma InvalidNamedIff(checks: seq<Verification>, events: seq<Event>, s: State)
    requires Runs(checks, events, s) && StartsFirst(checks, events) && Complete(checks, s)
    ensures (set m <- s.messages) == (set i <- InvalidPositions(checks) :: i + 1) <==>
            forall i <- InvalidPositions(checks) :: i == |checks| - 1
  {
    MessagesNameTheCount(checks, events, s);
    VerdictIgnoresSchedule(checks, events, s);
    SameNumbersIff(s.messages, InvalidPositions(checks), |checks|);
  }

  lemma {:induction false} AllStarted(checks: seq<Verification>, k: nat) returns (events: seq<Event>)
    requires k <= |checks|
    ensures |events| == k && (forall i :: 0 <= i < k ==> events[i] == Start)
    ensures Runs(checks, events, State(k, {}, k, []))
  {
    if k == 0 {
      events := [];
    } else {
      var front := AllStarted(checks, k - 1);
      events := front + [Start];
      assert events[..k - 1] == front;
      assert Apply(checks, State(k - 1, {}, k - 1, []), Start) == State(k, {}, k, []);
    }
  }

  lemma {:induction false} ContinuedUpTo(checks: seq<Verification>, k: nat) returns (events: seq<Event>, s: State)
    requires k <= |checks|
    ensures |events| == |checks| + k && StartsFirst(checks, events) && Runs(checks, events, s)
    ensures s.started == |checks| && forall i: nat :: i in s.finished <==> i < k
  {
    if k == 0 {
      events := AllStarted(checks, |checks|);
      s := State(|checks|, {}, |checks|, []);
    } else {
      var front, before := ContinuedUpTo(checks, k - 1);
      events := front + [Continue(k - 1)];
      assert events[..|front|] == front;
      s := Apply(checks, before, Continue(k - 1));
    }
  }

  /** Every list of signatures has a complete run an engine can produce. */
  lemma CompleteRunExists(checks: seq<Verification>) returns (events: seq<Event>, s: State)
    ensures StartsFirst(checks, events) && Runs(checks, events, s) && Complete(checks, s)
  {
    events, s := ContinuedUpTo(checks, |checks|);
  }
}
