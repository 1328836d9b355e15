/** Certificate chains between the x5c form (a list of base 64 texts) and concatenated PEM. */
module PemChain {
  import opened Wrappers
  import opened Utf16
  import opened Base64
  import opened Pem

  const COMMA: Unit := 0x2C
  const CERTIFICATE := Lit("CERTIFICATE")

  // ---- Writing: x5cToPemCertChain -----------------------------------------------------------

  /** The entries a depth limit leaves; zero stands for no limit. */
  function Limit(x5c: seq<Text>, maxDepth: int): seq<Text> {
    if maxDepth == 0 || maxDepth >= |x5c| then x5c
    else if maxDepth < 0 then []
    else x5c[..maxDepth]
  }

  /** The PEM texts of all entries, or the first entry's error. */
  function Chain(x5c: seq<Text>): Result<Text, PemError> {
    if x5c == [] then Ok([])
    else
      var last := |x5c| - 1;
      match (Chain(x5c[..last]), DerToPem(x5c[last], CERTIFICATE))
      case (Ok(front), Ok(pem)) => Ok(front + pem)
      case (Ok(_), Err(error)) => Err(error)
      case (Err(error), _) => Err(error)
  }

  lemma {:induction false} ChainPrefixFails(x5c: seq<Text>, i: nat)
    requires i <= |x5c| && Chain(x5c[..i]).Err?
    ensures Chain(x5c) == Chain(x5c[..i])
    decreases |x5c|
  {
    if i < |x5c| {
      assert x5c[..|x5c| - 1][..i] == x5c[..i];
      ChainPrefixFails(x5c[..|x5c| - 1], i);
    } else {
      assert x5c[..i] == x5c;
    }
  }

  method X5cToPemCertChain(x5c: seq<Text>, maxDepth: int) returns (r: Result<Text, PemError>)
    ensures r == Chain(Limit(x5c, maxDepth))
  {
    var length := if maxDepth == 0 then |x5c| else if maxDepth < |x5c| then maxDepth else |x5c|;
    ghost var limited := Limit(x5c, maxDepth);
    var pem := [];
    var i := 0;
    while i < length
      invariant 0 <= i <= |limited|
      invariant Chain(limited[..i]) == Ok(pem)
    {
      var entry := DerToPem(x5c[i], CERTIFICATE);
      assert limited[..i + 1][..i] == limited[..i];
      if entry.Err? {
        ChainPrefixFails(limited, i + 1);
        return entry;
      }
      pem := pem + entry.value;
      i := i + 1;
    }
    assert limited[..i] == limited;
    r := Ok(pem);
  }

  // ---- Reading: pemCertChainTox5c -----------------------------------------------------------

  function LineLength(t: Text): (n: nat)
    ensures n <= |t| && (n < |t| ==> t[n] == NL)
  {
    if t == [] || t[0] == NL then 0 else 1 + LineLength(t[1..])
  }

  /** Five dashes and the rest of their line, with its line break, become a comma. */
  function ReplaceMarkers(t: Text): Text
    decreases |t|
  {
    if t == [] then []
    else if MatchesAt(t, 0, DASHES) && LineLength(t[5..]) > 0 then
      var n := 5 + LineLength(t[5..]);
      [COMMA] + ReplaceMarkers(if n < |t| then t[n + 1..] else [])
    else [t[0]] + ReplaceMarkers(t[1..])
  }

  /** Dashes alone on the rest of a line are no marker. */
  lemma BareDashesStay(t: Text)
    ensures ReplaceMarkers(DASHES + ([NL] + t)) == DASHES + ([NL] + ReplaceMarkers(t))
  {
    var tail := [NL] + t;
    assert ReplaceMarkers(tail) == [NL] + ReplaceMarkers(t) by {
      assert tail[1..] == t && !MatchesAt(tail, 0, DASHES);
    }
    DashesStay(5, tail);
    assert Repeat(DASH, 5) == DASHES;
  }

  lemma RepeatCons(n: nat, t: Text)
    ensures Repeat(DASH, n + 1) + t == [DASH] + (Repeat(DASH, n) + t)
    ensures |Repeat(DASH, n)| == n && Repeat(DASH, 0) + t == t
  {
  }

  lemma NoMarkerHere(n: nat, tail: Text)
    requires 0 < n <= 5 && tail != [] && tail[0] == NL
    ensures var t := Repeat(DASH, n) + tail; !(MatchesAt(t, 0, DASHES) && LineLength(t[5..]) > 0)
  {
    var t := Repeat(DASH, n) + tail;
    assert t[n] == NL != DASHES[0];
    if n < 5 {
      assert |t| >= 5 ==> t[0..5][n] == NL;
    } else {
      assert t[5..][0] == NL;
    }
  }

  lemma {:induction false} DashesStay(n: nat, tail: Text)
    requires n <= 5 && tail != [] && tail[0] == NL
    ensures ReplaceMarkers(Repeat(DASH, n) + tail) == Repeat(DASH, n) + ReplaceMarkers(tail)
  {
    RepeatCons(0, tail);
    RepeatCons(0, ReplaceMarkers(tail));
    if n > 0 {
      RepeatCons(n - 1, tail);
      RepeatCons(n - 1, ReplaceMarkers(tail));
      NoMarkerHere(n, tail);
      DashesStay(n - 1, tail);
      var t := Repeat(DASH, n) + tail;
      assert t[1..] == Repeat(DASH, n - 1) + tail;
    }
  }

  predicate IsNotBreak(u: Unit) { u != NL && u != CR }

  function Split(t: Text): (s: seq<Text>)
    ensures s != []
  {
    if t == [] then [[]]
    else if t[0] == COMMA then [[]] + Split(t[1..])
    else
      var s := Split(t[1..]);
      [[t[0]] + s[0]] + s[1..]
  }

  function NonEmpty(s: seq<Text>): seq<Text> {
    if s == [] then [] else (if s[0] != [] then [s[0]] else []) + NonEmpty(s[1..])
  }

  /** `pemCertChainTox5c`; a negative depth is no limit here. */
  function PemCertChainToX5c(cert: Text, maxDepth: int): seq<Text> {
    var x5c := NonEmpty(Split(Keep(ReplaceMarkers(cert), IsNotBreak)));
    if 0 < maxDepth < |x5c| then x5c[..maxDepth] else x5c
  }

  /** No line break and no separator is left in an entry that is read, and none is empty, whatever
      the text was. */
  lemma EntriesAreClean(cert: Text, maxDepth: int)
    ensures forall entry <- PemCertChainToX5c(cert, maxDepth) ::
              entry != [] && forall i :: 0 <= i < |entry| ==> entry[i] != NL && entry[i] != CR && entry[i] != COMMA
  {
    var kept := Keep(ReplaceMarkers(cert), IsNotBreak);
    KeptIsClean(ReplaceMarkers(cert));
    SplitIsClean(kept);
    NonEmptyIsClean(Split(kept));
    forall entry | entry in PemCertChainToX5c(cert, maxDepth)
      ensures entry != [] && HasNoBreak(entry) && HasNoComma(entry)
    {
      assert entry in NonEmpty(Split(kept)) && entry in Split(kept);
    }
  }

  predicate HasNoBreak(t: Text) {
    forall i :: 0 <= i < |t| ==> t[i] != NL && t[i] != CR
  }

  predicate HasNoComma(t: Text) {
    forall i :: 0 <= i < |t| ==> t[i] != COMMA
  }

  lemma {:induction false} KeptIsClean(t: Text)
    ensures HasNoBreak(Keep(t, IsNotBreak))
  {
    if t != [] {
      KeptIsClean(t[1..]);
    }
  }

  lemma {:induction false} SplitIsClean(t: Text)
    requires HasNoBreak(t)
    ensures forall part <- Split(t) :: HasNoBreak(part) && HasNoComma(part)
  {
    if t != [] {
      SplitIsClean(t[1..]);
      assert Split(t[1..])[0] in Split(t[1..]);
    }
  }

  lemma {:induction false} NonEmptyIsClean(s: seq<Text>)
    ensures forall part <- NonEmpty(s) :: part in s && part != []
  {
    if s != [] {
      NonEmptyIsClean(s[1..]);
      assert s == [s[0]] + s[1..];
    }
  }

  // ---- What comes back ------------------------------------------------------------------------

  /** Standard base 64 text, possibly padded. */
  predicate IsEntry(t: Text) {
    t != [] && forall i :: 0 <= i < |t| ==> Value(t[i], false).Some? || t[i] == PAD
  }

  predicate AllEntries(x5c: seq<Text>) {
    forall i :: 0 <= i < |x5c| ==> IsEntry(x5c[i])
  }

  /** An entry that happens to spell the header name is taken for PEM and not armoured. */
  predicate IsRaw(entry: Text) { Includes(entry, CERTIFICATE) }

  /** Neighbouring raw entries run together, since nothing is written between them. */
  function Merge(x5c: seq<Text>): (r: seq<Text>)
    ensures x5c != [] ==> r != []
  {
    if x5c == [] then []
    else
      var rest := Merge(x5c[1..]);
      if |x5c| > 1 && IsRaw(x5c[0]) && IsRaw(x5c[1]) then [x5c[0] + rest[0]] + rest[1..]
      else [x5c[0]] + rest
  }

  predicate RawPair(x5c: seq<Text>, i: nat)
    requires i + 1 < |x5c|
  {
    IsRaw(x5c[i]) && IsRaw(x5c[i + 1])
  }

  predicate NoRawNeighbours(x5c: seq<Text>) {
    forall i :: 0 <= i < |x5c| - 1 ==> !RawPair(x5c, i)
  }

  lemma {:induction false} MergeSize(x5c: seq<Text>)
    ensures |Merge(x5c)| <= |x5c|
    ensures NoRawNeighbours(x5c) ==> Merge(x5c) == x5c
    ensures !NoRawNeighbours(x5c) ==> |Merge(x5c)| < |x5c|
  {
    if x5c != [] {
      var tail := x5c[1..];
      MergeSize(tail);
      assert forall i :: 0 <= i < |tail| - 1 ==> RawPair(tail, i) == RawPair(x5c, i + 1);
      if NoRawNeighbours(x5c) {
        if |x5c| > 1 { assert !RawPair(x5c, 0); }
        assert x5c == [x5c[0]] + tail;
      } else if NoRawNeighbours(tail) {
        assert forall i :: 1 <= i < |x5c| - 1 ==> RawPair(x5c, i) == RawPair(tail, i - 1);
        assert RawPair(x5c, 0);
      }
    }
  }

  /** What is left of one entry without its markers and line breaks. */
  function Cell(entry: Text): Text {
    if IsRaw(entry) then entry else [COMMA] + entry + [COMMA]
  }

  /** The comma-separated text behind the markers. */
  function Flat(x5c: seq<Text>): Text {
    if x5c == [] then [] else Cell(x5c[0]) + Flat(x5c[1..])
  }

  function Clean(t: Text): Text {
    Keep(ReplaceMarkers(t), IsNotBreak)
  }

  // -- Markers --

  lemma NotMarker(t: Text)
    requires t != [] && t[0] != DASH
    ensures !MatchesAt(t, 0, DASHES)
  {
    if |t| >= 5 { assert t[0..5][0] == t[0]; }
  }

  lemma {:induction false} ReplaceNoDash(t: Text, rest: Text)
    requires NoDash(t)
    ensures ReplaceMarkers(t + rest) == t + ReplaceMarkers(rest)
  {
    if t == [] {
      assert t + rest == rest;
    } else {
      ReplaceNoDash(t[1..], rest);
      HeadTail(t, rest);
      NotMarker(t + rest);
      HeadTail(t, ReplaceMarkers(rest));
    }
  }

  lemma {:induction false} LineLengthOf(t: Text, rest: Text)
    requires forall i :: 0 <= i < |t| ==> t[i] != NL
    ensures LineLength(t + [NL] + rest) == |t|
  {
    if t == [] {
    } else {
      LineLengthOf(t[1..], rest);
      assert (t + [NL] + rest)[1..] == t[1..] + [NL] + rest;
    }
  }

  lemma ReplaceLine(line: Text, rest: Text)
    requires line != [] && forall i :: 0 <= i < |line| ==> line[i] != NL
    ensures ReplaceMarkers(DASHES + line + [NL] + rest) == [COMMA] + ReplaceMarkers(rest)
  {
    var t := DASHES + line + [NL] + rest;
    assert t[0..5] == DASHES && t[5..] == line + [NL] + rest;
    LineLengthOf(line, rest);
    assert t[5 + |line| + 1..] == rest;
  }

  const BEGIN_LINE := Lit("BEGIN CERTIFICATE-----")
  const END_LINE := Lit("END CERTIFICATE-----")

  lemma MarkerLines()
    ensures BEGIN + CERTIFICATE + DASHES == DASHES + BEGIN_LINE
    ensures END + CERTIFICATE + DASHES == DASHES + END_LINE
  {
  }

  lemma RegroupArmour(a: Text, key: Text, d: Text, body: Text, b: Text, rest: Text)
    ensures ((a + key) + (d + (([NL] + body + [NL]) + ((b + key) + (d + [NL]))))) + rest ==
            (a + key + d) + [NL] + ((body + [NL]) + ((b + key + d) + [NL] + rest))
  {
  }

  lemma ArmourLines(body: Text, rest: Text)
    ensures Armour(CERTIFICATE, body) + rest ==
            DASHES + BEGIN_LINE + [NL] + ((body + [NL]) + (DASHES + END_LINE + [NL] + rest))
  {
    RegroupArmour(BEGIN, CERTIFICATE, DASHES, body, END, rest);
    MarkerLines();
  }

  lemma ReplaceTwoLines(first: Text, body: Text, second: Text, rest: Text)
    requires NoDash(body) && first != [] && second != []
    requires forall i :: 0 <= i < |first| ==> first[i] != NL
    requires forall i :: 0 <= i < |second| ==> second[i] != NL
    ensures ReplaceMarkers(DASHES + first + [NL] + (body + (DASHES + second + [NL] + rest))) ==
            [COMMA] + (body + ([COMMA] + ReplaceMarkers(rest)))
  {
    var last := DASHES + second + [NL] + rest;
    ReplaceLine(first, body + last);
    ReplaceNoDash(body, last);
    ReplaceLine(second, rest);
  }

  lemma ReplaceArmour(body: Text, rest: Text)
    requires NoDash(body)
    ensures ReplaceMarkers(Armour(CERTIFICATE, body) + rest) ==
            [COMMA] + ((body + [NL]) + ([COMMA] + ReplaceMarkers(rest)))
  {
    ArmourLines(body, rest);
    ReplaceTwoLines(BEGIN_LINE, body + [NL], END_LINE, rest);
  }

  lemma EntryUnits(t: Text)
    requires IsEntry(t)
    ensures NoDash(t) && NoTerminators(t) && All(t, IsNotBreak)
    ensures forall i :: 0 <= i < |t| ==> t[i] != COMMA
  {
  }

  /** One entry in front of the rest, cleaned of markers and line breaks. */
  lemma CleanEntry(entry: Text, rest: Text)
    requires IsEntry(entry)
    ensures DerToPem(entry, CERTIFICATE).Ok?
    ensures Clean(DerToPem(entry, CERTIFICATE).value + rest) == Cell(entry) + Clean(rest)
  {
    EntryUnits(entry);
    KeepChunks(entry, IsNotBreak);
    KeepAll(entry, IsNotBreak);
    var after := ReplaceMarkers(rest);
    if IsRaw(entry) {
      ReplaceNoDash(entry, rest);
      KeepConcat(entry, after, IsNotBreak);
    } else {
      var body := JoinLines(Chunks(entry));
      ChunksNoDash(entry);
      ReplaceArmour(body, rest);
      KeepFramed(body, after);
    }
  }

  lemma KeepFramed(body: Text, after: Text)
    ensures Keep([COMMA] + ((body + [NL]) + ([COMMA] + after)), IsNotBreak) ==
            [COMMA] + Keep(body, IsNotBreak) + [COMMA] + Keep(after, IsNotBreak)
  {
    KeepConcat([COMMA], (body + [NL]) + ([COMMA] + after), IsNotBreak);
    KeepConcat(body + [NL], [COMMA] + after, IsNotBreak);
    KeepConcat(body, [NL], IsNotBreak);
    KeepConcat([COMMA], after, IsNotBreak);
    assert Keep([NL], IsNotBreak) == [];
    KeepAll([COMMA], IsNotBreak);
  }

  lemma {:induction false} FlatAppend(x5c: seq<Text>, last: Text)
    ensures Flat(x5c + [last]) == Flat(x5c) + Cell(last)
  {
    if x5c == [] {
      assert x5c + [last] == [last];
      assert Flat([last]) == Cell(last) + Flat([]);
    } else {
      var tail := x5c[1..];
      FlatAppend(tail, last);
      assert (x5c + [last])[1..] == tail + [last];
      Assoc(Cell(x5c[0]), Flat(tail), Cell(last));
    }
  }

  /** Whatever follows a PEM text, cleaning turns the text itself into `flat`. */
  ghost predicate CleansTo(pem: Text, flat: Text) {
    forall rest: Text :: Clean(pem + rest) == flat + Clean(rest)
  }

  lemma CleansConcat(a: Text, f: Text, b: Text, g: Text)
    requires CleansTo(a, f) && CleansTo(b, g)
    ensures CleansTo(a + b, f + g)
  {
    forall rest: Text ensures Clean(a + b + rest) == f + g + Clean(rest) {
      Assoc(a, b, rest);
      assert Clean(b + rest) == g + Clean(rest);
      Assoc(f, g, Clean(rest));
    }
  }

  lemma CleansEntry(entry: Text) returns (pem: Text)
    requires IsEntry(entry)
    ensures DerToPem(entry, CERTIFICATE) == Ok(pem) && CleansTo(pem, Cell(entry))
  {
    EntryUnits(entry);
    KeepChunks(entry, IsNotBreak);
    pem := DerToPem(entry, CERTIFICATE).value;
    forall rest: Text ensures Clean(pem + rest) == Cell(entry) + Clean(rest) {
      CleanEntry(entry, rest);
    }
  }

  lemma CleansNothing()
    ensures CleansTo([], [])
  {
    forall rest: Text ensures Clean([] + rest) == [] + Clean(rest) {
      assert [] + rest == rest && [] + Clean(rest) == Clean(rest);
    }
  }

  lemma ChainSnoc(front: seq<Text>, last: Text, text: Text, pem: Text)
    requires Chain(front) == Ok(text) && DerToPem(last, CERTIFICATE) == Ok(pem)
    ensures Chain(front + [last]) == Ok(text + pem)
  {
    assert (front + [last])[..|front|] == front;
  }

  lemma {:induction false} CleanChain(x5c: seq<Text>) returns (text: Text)
    requires AllEntries(x5c)
    ensures Chain(x5c) == Ok(text) && CleansTo(text, Flat(x5c))
  {
    if x5c == [] {
      text := [];
      CleansNothing();
    } else {
      var front, last := x5c[..|x5c| - 1], x5c[|x5c| - 1];
      assert x5c == front + [last];
      text := CleanChain(front);
      var pem := CleansEntry(last);
      ChainSnoc(front, last, text, pem);
      CleansConcat(text, Flat(front), pem, Cell(last));
      FlatAppend(front, last);
      text := text + pem;
    }
  }

  // -- Fields --

  lemma {:induction false} SplitPrefix(a: Text, t: Text)
    requires forall i :: 0 <= i < |a| ==> a[i] != COMMA
    ensures Split(a + t) == [a + Split(t)[0]] + Split(t)[1..]
  {
    if a == [] {
      assert a + t == t && a + Split(t)[0] == Split(t)[0];
    } else {
      SplitPrefix(a[1..], t);
      assert (a + t)[1..] == a[1..] + t;
      assert [a[0]] + (a[1..] + Split(t)[0]) == a + Split(t)[0];
    }
  }

  lemma SplitCommas(a: Text, t: Text)
    requires a != [] && forall i :: 0 <= i < |a| ==> a[i] != COMMA
    ensures Split([COMMA] + a + [COMMA] + t) == [[]] + ([a] + Split(t))
  {
    var s := [COMMA] + a + [COMMA] + t;
    assert s[1..] == a + ([COMMA] + t);
    assert ([COMMA] + t)[1..] == t;
    SplitPrefix(a, [COMMA] + t);
    assert a + [] == a && ([[]] + Split(t))[1..] == Split(t);
  }

  lemma RawFields(entry: Text, t: Text)
    requires IsEntry(entry)
    ensures var fields := Split(t);
            && Split(entry + t)[0] == entry + fields[0]
            && NonEmpty(Split(entry + t)) == [entry + fields[0]] + NonEmpty(fields[1..])
  {
    SplitPrefix(entry, t);
    var split := [entry + Split(t)[0]] + Split(t)[1..];
    assert split[1..] == Split(t)[1..];
  }

  lemma ArmouredFields(entry: Text, t: Text)
    requires IsEntry(entry)
    ensures var split := Split([COMMA] + entry + [COMMA] + t);
            && split[0] == []
            && NonEmpty(split) == [entry] + NonEmpty(Split(t))
  {
    SplitCommas(entry, t);
    var inner := [entry] + Split(t);
    assert inner[1..] == Split(t);
    assert ([[]] + inner)[1..] == inner;
  }

  /** The fields of a flat text and what they must be for the merged list. */
  ghost predicate FieldsMerge(fields: seq<Text>, x5c: seq<Text>) {
    && fields != []
    && NonEmpty(fields) == Merge(x5c)
    && (if x5c != [] && IsRaw(x5c[0]) then fields[0] == Merge(x5c)[0] != [] else fields[0] == [])
  }

  lemma FieldsStep(x5c: seq<Text>, t: Text)
    requires x5c != [] && IsEntry(x5c[0]) && FieldsMerge(Split(t), x5c[1..])
    ensures FieldsMerge(Split(Cell(x5c[0]) + t), x5c)
  {
    var entry, tail, fields := x5c[0], x5c[1..], Split(t);
    if IsRaw(entry) {
      RawFields(entry, t);
      assert entry + [] == entry;
      if tail != [] && IsRaw(tail[0]) {
        assert NonEmpty(fields) == [fields[0]] + NonEmpty(fields[1..]);
        assert Merge(tail)[1..] == NonEmpty(fields[1..]);
      } else {
        assert NonEmpty(fields) == NonEmpty(fields[1..]);
      }
    } else {
      ArmouredFields(entry, t);
    }
  }

  lemma {:induction false} FieldsOfFlat(x5c: seq<Text>)
    requires AllEntries(x5c)
    ensures FieldsMerge(Split(Flat(x5c)), x5c)
  {
    if x5c != [] {
      FieldsOfFlat(x5c[1..]);
      FieldsStep(x5c, Flat(x5c[1..]));
    }
  }

  /** Writing a chain of base 64 entries and reading it back merges raw neighbours and changes
      nothing else, through chunking, markers, splitting and filtering. */
  lemma ChainComesBackMerged(x5c: seq<Text>, maxDepth: int)
    requires AllEntries(x5c)
    ensures Chain(x5c).Ok?
    ensures PemCertChainToX5c(Chain(x5c).value, 0) == Merge(x5c)
    ensures maxDepth > 0 ==> PemCertChainToX5c(Chain(x5c).value, maxDepth) == Limit(Merge(x5c), maxDepth)
  {
    var text := CleanChain(x5c);
    assert Clean([]) == [];
    assert text + [] == text;
    assert Flat(x5c) + [] == Flat(x5c);
    FieldsOfFlat(x5c);
  }

  /** The round trip returns the entries within the limit exactly when no two neighbours among
      them both spell the header name; in particular for all lists without that name. */
  lemma ChainRoundTrip(x5c: seq<Text>, maxDepth: int)
    requires AllEntries(x5c)
    ensures var limited := Limit(x5c, maxDepth);
            && Chain(limited).Ok?
            && (PemCertChainToX5c(Chain(limited).value, 0) == limited <==> NoRawNeighbours(limited))
  {
    var limited := Limit(x5c, maxDepth);
    ChainComesBackMerged(limited, 0);
    MergeSize(limited);
  }

  /** Two valid entries whose round trip yields one. */
  lemma RawNeighboursMerge()
    ensures var x5c := [CERTIFICATE, CERTIFICATE];
            AllEntries(x5c) && Chain(x5c).Ok? && |PemCertChainToX5c(Chain(x5c).value, 0)| == 1
  {
    var x5c := [CERTIFICATE, CERTIFICATE];
    assert MatchesAt(CERTIFICATE, 0, CERTIFICATE);
    assert forall i :: 0 <= i < |CERTIFICATE| ==> 0x41 <= CERTIFICATE[i] <= 0x5A;
    assert RawPair(x5c, 0);
    ChainComesBackMerged(x5c, 0);
    MergeSize(x5c);
  }
}
