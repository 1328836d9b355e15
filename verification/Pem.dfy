/** PEM armour around base 64: chunked lines, header scanning and the hexadecimal key forms. */
module Pem {
  import opened Wrappers
  import opened Utf16
  import opened Base64

  datatype PemError = InvalidInput | HeaderNotFound | InvalidEncoding

  const DASH: Unit := 0x2D
  const DASHES := Lit("-----")
  const BEGIN := Lit("-----BEGIN ")
  const END := Lit("-----END ")
  const PUBLIC_KEY := Lit("PUBLIC KEY")
  const RSA_PRIVATE_KEY := Lit("RSA PRIVATE KEY")
  const PRIVATE_KEY := Lit("PRIVATE KEY")

  predicate MatchesAt(t: Text, i: nat, word: Text) {
    i + |word| <= |t| && t[i..i + |word|] == word
  }

  predicate Includes(t: Text, word: Text) {
    exists i: nat :: i <= |t| && MatchesAt(t, i, word)
  }

  // ---- Lines ------------------------------------------------------------------------------

  /** Length of the next match of one to `limit` characters that are no terminators. */
  function LineRun(t: Text, limit: nat): (n: nat)
    ensures n <= limit && n <= |t|
  {
    if limit == 0 || t == [] || IsTerminator(t[0]) then 0 else 1 + LineRun(t[1..], limit - 1)
  }

  /** All matches of one to 64 characters, left to right. */
  function Chunks(t: Text): seq<Text>
    decreases |t|
  {
    if t == [] then []
    else if IsTerminator(t[0]) then Chunks(t[1..])
    else
      var n := 1 + LineRun(t[1..], 63);
      [t[..n]] + Chunks(t[n..])
  }

  function JoinLines(lines: seq<Text>): Text {
    if lines == [] then []
    else if |lines| == 1 then lines[0]
    else lines[0] + [NL] + JoinLines(lines[1..])
  }

  /** What follows the first marker line: the body between line breaks, then the last line. */
  function Framed(key: Text, body: Text): Text {
    ([NL] + body + [NL]) + ((END + key) + (DASHES + [NL]))
  }

  function Armour(key: Text, body: Text): Text {
    (BEGIN + key) + (DASHES + Framed(key, body))
  }

  function DerToPem(cert: Text, key: Text): Result<Text, PemError> {
    if Includes(cert, key) then Ok(cert)
    else if Chunks(cert) == [] then Err(InvalidInput)
    else Ok(Armour(key, JoinLines(Chunks(cert))))
  }

  // ---- Header scanning ---------------------------------------------------------------------

  function NoDashRun(t: Text): (n: nat)
    ensures n <= |t|
  {
    if t == [] || t[0] == DASH then 0 else 1 + NoDashRun(t[1..])
  }

  /** Length of the header name at the front: the given one, or a run without dashes. */
  function NameRun(t: Text, name: Option<Text>): (n: Option<nat>)
    ensures n.Some? ==> n.value <= |t|
  {
    match name
    case Some(k) => if k <= t then Some(|k|) else None
    case None => if NoDashRun(t) > 0 then Some(NoDashRun(t)) else None
  }

  /** Where a marker line that starts at `i` ends: `word`, a name and five dashes. */
  function MarkEnd(t: Text, i: nat, word: Text, name: Option<Text>): (end: Option<nat>)
    ensures end.Some? ==> i <= end.value <= |t|
  {
    if !MatchesAt(t, i, word) then None
    else
      var start := i + |word|;
      match NameRun(t[start..], name)
      case None => None
      case Some(n) => if MatchesAt(t, start + n, DASHES) then Some(start + n + 5) else None
  }

  /** The given name, or else a non-empty one without dashes. */
  predicate NameFits(n: Text, name: Option<Text>) {
    match name
    case Some(given) => n == given
    case None => n != [] && forall i :: 0 <= i < |n| ==> n[i] != 0x2D
  }

  /** A marker line: the word, a name that fits, five dashes. */
  ghost predicate IsMarker(line: Text, word: Text, name: Option<Text>) {
    exists n: Text ::
      line == word + n + Lit("-----") && NameFits(n, name)
  }

  lemma {:induction false} NoDashRunIs(a: Text, b: Text)
    requires (forall i :: 0 <= i < |a| ==> a[i] != DASH) && (b == [] || b[0] == DASH)
    ensures NoDashRun(a + b) == |a|
  {
    if a == [] {
      assert a + b == b;
    } else {
      NoDashRunIs(a[1..], b);
      HeadTail(a, b);
    }
  }

  lemma {:induction false} NoDashRunUnits(t: Text)
    ensures forall i :: 0 <= i < NoDashRun(t) ==> t[i] != DASH
  {
    if t != [] && t[0] != DASH {
      NoDashRunUnits(t[1..]);
      assert forall i :: 0 < i < NoDashRun(t) ==> t[i] == t[1..][i - 1];
    }
  }

  lemma NameRunFits(t: Text, name: Option<Text>)
    ensures NameRun(t, name).Some? ==>
              NameFits(t[..NameRun(t, name).value], name)
  {
    NoDashRunUnits(t);
  }

  lemma ThreeSlices(t: Text, i: nat, j: nat, k: nat, end: nat)
    requires i <= j <= k <= end <= |t|
    ensures t[i..end] == t[i..j] + t[j..k] + t[k..end]
  {
  }

  lemma NamedMarker(word: Text, n: Text, name: Option<Text>)
    requires NameFits(n, name)
    ensures IsMarker(word + n + DASHES, word, name)
  {
  }

  lemma MarkEndParts(t: Text, i: nat, word: Text, name: Option<Text>)
    requires MarkEnd(t, i, word, name).Some?
    ensures var start, end := i + |word|, MarkEnd(t, i, word, name).value;
            && start + 5 <= end && t[i..start] == word && t[end - 5..end] == DASHES
            && NameFits(t[start..end - 5], name)
  {
    var start := i + |word|;
    var n := NameRun(t[start..], name).value;
    NameRunFits(t[start..], name);
    assert t[start..start + n] == t[start..][..n];
  }

  lemma MarkEndSound(t: Text, i: nat, word: Text, name: Option<Text>)
    requires MarkEnd(t, i, word, name).Some?
    ensures IsMarker(t[i..MarkEnd(t, i, word, name).value], word, name)
  {
    var start, end := i + |word|, MarkEnd(t, i, word, name).value;
    MarkEndParts(t, i, word, name);
    ThreeSlices(t, i, start, end - 5, end);
    NamedMarker(word, t[start..end - 5], name);
  }

  lemma PartsOfSlice(t: Text, i: nat, end: nat, a: Text, b: Text, c: Text)
    requires i <= end <= |t| && t[i..end] == a + b + c
    ensures end == i + |a| + |b| + |c|
    ensures t[i..i + |a|] == a && t[i + |a|..i + |a| + |b|] == b && t[i + |a| + |b|..end] == c
  {
    var line := t[i..end];
    assert line[..|a|] == a && line[|a|..|a| + |b|] == b && line[|a| + |b|..] == c;
    assert |line| == |a| + |b| + |c| && forall k :: 0 <= k < |line| ==> line[k] == t[i + k];
    forall k | 0 <= k < |b| ensures t[i + |a|..i + |a| + |b|][k] == b[k] {
      assert line[|a| + k] == b[k];
    }
    forall k | 0 <= k < |c| ensures t[i + |a| + |b|..end][k] == c[k] {
      assert line[|a| + |b| + k] == c[k];
    }
  }

  lemma NameRunAt(t: Text, start: nat, n: Text, name: Option<Text>)
    requires start + |n| < |t| && t[start..start + |n|] == n && t[start + |n|] == DASH
    requires NameFits(n, name)
    ensures NameRun(t[start..], name) == Some(|n|)
  {
    assert t[start..][..|n|] == n;
    if name.None? {
      assert t[start..] == n + t[start + |n|..];
      NoDashRunIs(n, t[start + |n|..]);
    }
  }

  lemma MarkEndComplete(t: Text, i: nat, end: nat, word: Text, name: Option<Text>)
    requires i <= end <= |t| && IsMarker(t[i..end], word, name)
    ensures MarkEnd(t, i, word, name) == Some(end)
  {
    var n: Text :| t[i..end] == word + n + DASHES && NameFits(n, name);
    var start := i + |word|;
    PartsOfSlice(t, i, end, word, n, DASHES);
    assert t[start + |n|] == t[start + |n|..end][0];
    NameRunAt(t, start, n, name);
  }

  /** Where a marker line starts at i and ends. */
  lemma MarkEndIff(t: Text, i: nat, end: nat, word: Text, name: Option<Text>)
    requires i <= end <= |t|
    ensures MarkEnd(t, i, word, name) == Some(end) <==> IsMarker(t[i..end], word, name)
  {
    if MarkEnd(t, i, word, name).Some? {
      MarkEndSound(t, i, word, name);
    }
    if IsMarker(t[i..end], word, name) {
      MarkEndComplete(t, i, end, word, name);
    }
  }

  /** Removes everything through the last marker that starts at or before `i`. */
  function StripThroughLast(t: Text, i: nat, name: Option<Text>): Text {
    var end := MarkEnd(t, i, BEGIN, name);
    if end.Some? then t[end.value..]
    else if i == 0 then t
    else StripThroughLast(t, i - 1, name)
  }

  /** Removes everything from the first marker that starts at or after `i`. */
  function StripFromFirst(t: Text, i: nat, name: Option<Text>): Text
    requires i <= |t|
    decreases |t| - i
  {
    if MarkEnd(t, i, END, name).Some? then t[..i]
    else if i == |t| then t
    else StripFromFirst(t, i + 1, name)
  }

  function Keep(t: Text, p: Unit -> bool): Text {
    if t == [] then [] else (if p(t[0]) then [t[0]] else []) + Keep(t[1..], p)
  }

  /** Letters, digits and `_ - ~ / + =`. */
  predicate IsBase64Class(u: Unit) {
    || 0x30 <= u <= 0x39 || 0x41 <= u <= 0x5A || 0x61 <= u <= 0x7A
    || u == 0x5F || u == 0x2D || u == 0x7E || u == 0x2F || u == 0x2B || u == 0x3D
  }

  function Base64ToHex(t: Text): Result<Text, PemError> {
    match Decode(Keep(t, IsBase64Class), false)
    case None => Err(InvalidEncoding)
    case Some(bytes) => Ok(EncodeHex(bytes))
  }

  /** `PEMToHex`; a header name given by the caller holds no regular-expression operators. */
  function PemToHex(pem: Text, headerKey: Option<Text>): Result<Text, PemError> {
    var name := if headerKey == Some([]) then None else headerKey;
    if !Includes(pem, BEGIN) then Err(HeaderNotFound)
    else Base64ToHex(StripFromFirst(StripThroughLast(pem, |pem|, name), 0, name))
  }

  function EvenHex(hex: Text): Text {
    if |hex| % 2 == 1 then [0x30] + hex else hex
  }

  function HexToBase64(hex: Text): Result<Text, PemError> {
    match DecodeHex(EvenHex(hex))
    case None => Err(InvalidEncoding)
    case Some(bytes) => Ok(EncodePadded(bytes))
  }

  datatype KeyVisibility = Public | Private

  /** The header `hexToPEM` settles on; a private key that reads back as RSA keeps that one. */
  function HeaderFor(visibility: KeyVisibility, readsAsRsa: bool): Text {
    match visibility
    case Public => PUBLIC_KEY
    case Private => if readsAsRsa then RSA_PRIVATE_KEY else PRIVATE_KEY
  }

  /** `hexToPEM`; `readsAsRsa` is whether the RSA form parsed as a key. */
  function HexToPem(hex: Text, visibility: KeyVisibility, readsAsRsa: bool): Result<Text, PemError> {
    match HexToBase64(hex)
    case Err(error) => Err(error)
    case Ok(base64) =>
      match DerToPem(base64, HeaderFor(visibility, true))
      case Err(error) => Err(error)
      case Ok(pem) => if visibility.Public? || readsAsRsa then Ok(pem) else DerToPem(base64, PRIVATE_KEY)
  }

  // ---- Chunking keeps the characters -------------------------------------------------------------

  predicate NoTerminators(t: Text) {
    forall i :: 0 <= i < |t| ==> !IsTerminator(t[i])
  }

  predicate All(t: Text, p: Unit -> bool) {
    forall i :: 0 <= i < |t| ==> p(t[i])
  }

  lemma {:induction false} KeepConcat(a: Text, b: Text, p: Unit -> bool)
    ensures Keep(a + b, p) == Keep(a, p) + Keep(b, p)
  {
    if a == [] {
      assert a + b == b;
    } else {
      var head := if p(a[0]) then [a[0]] else [];
      KeepConcat(a[1..], b, p);
      assert (a + b)[1..] == a[1..] + b;
      assert head + (Keep(a[1..], p) + Keep(b, p)) == head + Keep(a[1..], p) + Keep(b, p);
    }
  }

  lemma {:induction false} KeepAll(t: Text, p: Unit -> bool)
    requires All(t, p)
    ensures Keep(t, p) == t
  {
    if t != [] {
      KeepAll(t[1..], p);
    }
  }

  lemma {:induction false} KeepJoin(lines: seq<Text>, p: Unit -> bool)
    requires !p(NL)
    ensures lines != [] ==> Keep(JoinLines(lines), p) == Keep(lines[0], p) + Keep(JoinLines(lines[1..]), p)
  {
    if |lines| > 1 {
      KeepConcat(lines[0] + [NL], JoinLines(lines[1..]), p);
      KeepConcat(lines[0], [NL], p);
      assert Keep([NL], p) == [];
    } else if |lines| == 1 {
      assert Keep(JoinLines(lines[1..]), p) == [];
    }
  }

  lemma ChunksUnfold(t: Text)
    requires NoTerminators(t) && t != []
    ensures var n := 1 + LineRun(t[1..], 63);
            Chunks(t) != [] && Chunks(t)[0] == t[..n] && Chunks(t)[1..] == Chunks(t[n..])
  {
    var n := 1 + LineRun(t[1..], 63);
    assert Chunks(t) == [t[..n]] + Chunks(t[n..]);
  }

  function Concat(lines: seq<Text>): Text {
    if lines == [] then [] else lines[0] + Concat(lines[1..])
  }

  predicate IsLineUnit(u: Unit) { u != 0x0A && u != 0x0D && u != 0x2028 && u != 0x2029 }

  lemma {:induction false} RunUnits(t: Text, limit: nat)
    ensures forall i :: 0 <= i < LineRun(t, limit) ==> IsLineUnit(t[i])
  {
    if limit > 0 && t != [] && !IsTerminator(t[0]) {
      RunUnits(t[1..], limit - 1);
      assert forall i :: 0 < i < LineRun(t, limit) ==> t[i] == t[1..][i - 1];
    }
  }

  lemma FirstLine(t: Text)
    requires t != [] && !IsTerminator(t[0])
    ensures var n := 1 + LineRun(t[1..], 63);
            Chunks(t) == [t[..n]] + Chunks(t[n..]) && 0 < n <= 64 && All(t[..n], IsLineUnit)
  {
    var n := 1 + LineRun(t[1..], 63);
    RunUnits(t[1..], 63);
    forall i | 0 <= i < n ensures IsLineUnit(t[..n][i]) {
      if i > 0 { assert t[..n][i] == t[1..][i - 1]; }
    }
  }

  lemma ConcatCons(line: Text, lines: seq<Text>)
    ensures Concat([line] + lines) == line + Concat(lines)
  {
    assert ([line] + lines)[1..] == lines;
  }

  lemma {:induction false} KeptLine(t: Text, n: nat, p: Unit -> bool)
    requires n <= |t| && All(t[..n], p)
    ensures Keep(t, p) == t[..n] + Keep(t[n..], p)
  {
    KeepAll(t[..n], p);
    KeepConcat(t[..n], t[n..], p);
    assert t == t[..n] + t[n..];
  }

  lemma {:induction false} DroppedUnit(t: Text, p: Unit -> bool)
    requires t != [] && !p(t[0])
    ensures Keep(t, p) == Keep(t[1..], p)
  {
    assert [] + Keep(t[1..], p) == Keep(t[1..], p);
  }

  lemma {:induction false} ChunksKeep(t: Text)
    ensures Concat(Chunks(t)) == Keep(t, IsLineUnit)
    decreases |t|
  {
    if t != [] {
      if IsTerminator(t[0]) {
        DroppedUnit(t, IsLineUnit);
        ChunksKeep(t[1..]);
      } else {
        var n := 1 + LineRun(t[1..], 63);
        FirstLine(t);
        KeptLine(t, n, IsLineUnit);
        ChunksKeep(t[n..]);
        ConcatCons(t[..n], Chunks(t[n..]));
      }
    }
  }

  predicate IsLine(line: Text) {
    0 < |line| <= 64 && All(line, IsLineUnit)
  }

  lemma {:induction false} ChunksFit(t: Text)
    ensures forall line <- Chunks(t) :: IsLine(line)
    decreases |t|
  {
    if t == [] {
    } else if IsTerminator(t[0]) {
      ChunksFit(t[1..]);
    } else {
      var n := 1 + LineRun(t[1..], 63);
      FirstLine(t);
      ChunksFit(t[n..]);
      assert IsLine(t[..n]);
    }
  }

  /** Cut into lines, any text keeps all its characters but the line breaks, in order, in pieces of
      one to 64. */
  lemma ChunksAre(t: Text)
    ensures Concat(Chunks(t)) == Keep(t, IsLineUnit)
    ensures forall line <- Chunks(t) :: 0 < |line| <= 64 && All(line, IsLineUnit)
  {
    ChunksKeep(t);
    ChunksFit(t);
    assert forall line <- Chunks(t) :: IsLine(line);
  }

  lemma {:induction false} NoChunks(t: Text)
    ensures Chunks(t) == [] <==> forall i :: 0 <= i < |t| ==> !IsLineUnit(t[i])
    decreases |t|
  {
    if t != [] && IsTerminator(t[0]) {
      NoChunks(t[1..]);
      assert forall i :: 0 < i < |t| ==> t[i] == t[1..][i - 1];
      if forall i :: 0 <= i < |t| ==> !IsLineUnit(t[i]) {
        assert forall i :: 0 <= i < |t[1..]| ==> t[1..][i] == t[i + 1];
      }
    }
  }

  /** A text that spells the header name is taken for PEM and left alone; one without any character
      but line breaks is an error; any other is armoured. */
  lemma DerToPemIs(cert: Text, key: Text)
    ensures if exists a: Text, b: Text :: cert == a + key + b then DerToPem(cert, key) == Ok(cert)
            else if forall i :: 0 <= i < |cert| ==> !IsLineUnit(cert[i]) then DerToPem(cert, key) == Err(InvalidInput)
            else DerToPem(cert, key) == Ok(Armour(key, JoinLines(Chunks(cert))))
  {
    IncludesIff(cert, key);
    NoChunks(cert);
  }

  lemma IncludesIff(t: Text, word: Text)
    ensures Includes(t, word) <==> exists a: Text, b: Text :: t == a + word + b
  {
    if Includes(t, word) {
      var i: nat :| i <= |t| && MatchesAt(t, i, word);
      assert t == t[..i] + word + t[i + |word|..];
    }
    if a: Text, b: Text :| t == a + word + b {
      assert MatchesAt(t, |a|, word);
    }
  }

  /** Without a marker there is nothing to read; with one, only a wrong encoding can fail. */
  lemma PemToHexFails(pem: Text, headerKey: Option<Text>)
    ensures PemToHex(pem, headerKey) == Err(HeaderNotFound) <==>
            !(exists a: Text, b: Text :: pem == a + Lit("-----BEGIN ") + b)
    ensures PemToHex(pem, headerKey).Err? ==>
              PemToHex(pem, headerKey).error == HeaderNotFound || PemToHex(pem, headerKey).error == InvalidEncoding
  {
    IncludesIff(pem, BEGIN);
  }

  lemma {:induction false} KeepPart(t: Text, n: nat, p: Unit -> bool)
    requires n <= |t| && All(t, p)
    ensures Keep(t[..n], p) == t[..n] && t[..n] + t[n..] == t
  {
    KeepAll(t[..n], p);
  }

  /** Dropping the line breaks again restores the chunked text. */
  lemma {:induction false} KeepChunks(t: Text, p: Unit -> bool)
    requires NoTerminators(t) && All(t, p) && !p(NL)
    ensures Keep(JoinLines(Chunks(t)), p) == t
    ensures t != [] ==> Chunks(t) != []
    decreases |t|
  {
    if t != [] {
      var n := 1 + LineRun(t[1..], 63);
      ChunksUnfold(t);
      KeepChunks(t[n..], p);
      KeepJoin(Chunks(t), p);
      KeepPart(t, n, p);
    }
  }

  /** Every line but the last is exactly 64 characters long, as RFC 7468, section 2, asks. */
  lemma {:induction false} ChunkSizes(t: Text, i: nat)
    requires NoTerminators(t) && i < |Chunks(t)|
    ensures if i < |Chunks(t)| - 1 then |Chunks(t)[i]| == 64 else 0 < |Chunks(t)[i]| <= 64
    ensures |Chunks(t)| == (|t| + 63) / 64
    decreases |t|
  {
    var n := 1 + LineRun(t[1..], 63);
    FullRun(t[1..], 63);
    if n < |t| {
      ChunkSizes(t[n..], if i == 0 then 0 else i - 1);
    } else {
      assert Chunks(t[n..]) == [];
    }
  }

  lemma {:induction false} FullRun(t: Text, limit: nat)
    requires NoTerminators(t)
    ensures LineRun(t, limit) == if limit < |t| then limit else |t|
  {
    if limit > 0 && t != [] {
      FullRun(t[1..], limit - 1);
    }
  }

  lemma {:induction false} JoinedUnits(lines: seq<Text>, p: Unit -> bool)
    requires p(NL) && forall i :: 0 <= i < |lines| ==> All(lines[i], p)
    ensures All(JoinLines(lines), p)
  {
    if |lines| > 1 {
      JoinedUnits(lines[1..], p);
    }
  }

  lemma {:induction false} ChunkUnits(t: Text, p: Unit -> bool)
    requires All(t, p)
    ensures forall i :: 0 <= i < |Chunks(t)| ==> All(Chunks(t)[i], p)
    decreases |t|
  {
    if t != [] {
      if IsTerminator(t[0]) {
        ChunkUnits(t[1..], p);
      } else {
        ChunkUnits(t[1 + LineRun(t[1..], 63)..], p);
      }
    }
  }

  // ---- Stripping the armour ------------------------------------------------------------------

  predicate NoDash(t: Text) {
    forall i :: 0 <= i < |t| ==> t[i] != DASH
  }

  lemma {:induction false} NoDashRunStops(t: Text, rest: Text)
    requires NoDash(t) && rest != [] && rest[0] == DASH
    ensures NoDashRun(t + rest) == |t|
  {
    if t == [] {
      assert t + rest == rest;
    } else {
      NoDashRunStops(t[1..], rest);
      assert (t + rest)[1..] == t[1..] + rest;
    }
  }

  lemma MatchesMiddle(a: Text, b: Text, c: Text)
    ensures MatchesAt(a + (b + c), |a|, b)
    ensures (a + (b + c))[|a|..] == b + c
  {
  }

  lemma RegroupMarker(a: Text, b: Text, c: Text, d: Text, e: Text)
    ensures a + ((b + c) + (d + e)) == a + (b + (c + (d + e)))
    ensures a + ((b + c) + (d + e)) == (a + b) + (c + (d + e))
    ensures a + ((b + c) + (d + e)) == (a + b + c) + (d + e)
  {
  }

  /** A marker line is recognised by its own name and by the run without dashes. */
  lemma MarkerMatches(before: Text, word: Text, key: Text, after: Text, name: Option<Text>)
    requires key != [] && NoDash(key) && (name == None || name == Some(key))
    ensures MarkEnd(before + ((word + key) + (DASHES + after)), |before|, word, name) ==
            Some(|before| + |word| + |key| + 5)
  {
    RegroupMarker(before, word, key, DASHES, after);
    MatchesMiddle(before, word, key + (DASHES + after));
    MatchesMiddle(before + word, key, DASHES + after);
    MatchesMiddle(before + word + key, DASHES, after);
    NameRunIs(key, DASHES + after, name);
    MarkEndIs(before + ((word + key) + (DASHES + after)), |before|, word, name, |key|);
  }

  lemma MarkEndIs(t: Text, i: nat, word: Text, name: Option<Text>, n: nat)
    requires MatchesAt(t, i, word) && NameRun(t[i + |word|..], name) == Some(n)
    requires MatchesAt(t, i + |word| + n, DASHES)
    ensures MarkEnd(t, i, word, name) == Some(i + |word| + n + 5)
  {
  }

  lemma NameRunIs(key: Text, rest: Text, name: Option<Text>)
    requires key != [] && NoDash(key) && (name == None || name == Some(key))
    requires rest != [] && rest[0] == DASH
    ensures NameRun(key + rest, name) == Some(|key|)
  {
    NoDashRunStops(key, rest);
  }

  predicate StartsWithDashes(t: Text) {
    |t| > 5 && forall i :: 0 <= i < |t| ==> (t[i] == DASH <==> i < 5)
  }

  /** The letter after a dash is B only behind the dashes of the head. */
  lemma DashThenB(head: Text, middle: Text, foot: Text, t: Text, k: nat)
    requires StartsWithDashes(head) && StartsWithDashes(foot) && foot[5] != 0x42
    requires middle != [] && NoDash(middle) && middle[0] != 0x42
    requires t == head + (DASHES + (middle + (foot + (DASHES + [NL]))))
    requires 5 <= k < |t| && t[k - 1] == DASH && t[k] == 0x42
    ensures k == 5
  {
  }

  lemma MarkersStartWithDashes(key: Text)
    requires NoDash(key)
    ensures StartsWithDashes(BEGIN + key) && StartsWithDashes(END + key) && (END + key)[5] == 0x45
  {
    assert forall i :: 5 <= i < |BEGIN| ==> BEGIN[i] != DASH;
    assert forall i :: 5 <= i < |END| ==> END[i] != DASH;
  }

  lemma BeginAt(t: Text, i: nat)
    requires MatchesAt(t, i, BEGIN)
    ensures i + 5 < |t| && t[i + 4] == DASH && t[i + 5] == 0x42
  {
    assert t[i..i + 11][4] == t[i + 4] && t[i..i + 11][5] == t[i + 5];
  }

  /** Only the first line of an armoured text is a BEGIN marker. */
  lemma OnlyFirstLineBegins(key: Text, body: Text, i: nat)
    requires NoDash(key) && NoDash(body)
    requires MatchesAt(Armour(key, body), i, BEGIN)
    ensures i == 0
  {
    BeginAt(Armour(key, body), i);
    MarkersStartWithDashes(key);
    DashThenB(BEGIN + key, [NL] + body + [NL], END + key, Armour(key, body), i + 5);
  }

  lemma HeadEnds(key: Text, body: Text, name: Option<Text>)
    requires key != [] && NoDash(key) && (name == None || name == Some(key))
    ensures var end := MarkEnd(Armour(key, body), 0, BEGIN, name);
            end.Some? && Armour(key, body)[end.value..] == Framed(key, body)
  {
    var t := Armour(key, body);
    MarkerMatches([], BEGIN, key, Framed(key, body), name);
    assert [] + t == t;
    Assoc(BEGIN + key, DASHES, Framed(key, body));
    assert |BEGIN + key + DASHES| == |BEGIN| + |key| + 5;
  }

  lemma {:induction false} OnlyMarkerStrips(t: Text, i: nat, name: Option<Text>)
    requires MarkEnd(t, 0, BEGIN, name).Some? && forall j :: 0 < j <= i ==> !MatchesAt(t, j, BEGIN)
    ensures StripThroughLast(t, i, name) == t[MarkEnd(t, 0, BEGIN, name).value..]
  {
    if i > 0 {
      OnlyMarkerStrips(t, i - 1, name);
    }
  }

  lemma StripHead(key: Text, body: Text, name: Option<Text>, i: nat)
    requires key != [] && NoDash(key) && NoDash(body) && (name == None || name == Some(key))
    ensures StripThroughLast(Armour(key, body), i, name) == Framed(key, body)
  {
    HeadEnds(key, body, name);
    forall j | 0 < j <= i ensures !MatchesAt(Armour(key, body), j, BEGIN) {
      if MatchesAt(Armour(key, body), j, BEGIN) { OnlyFirstLineBegins(key, body, j); }
    }
    OnlyMarkerStrips(Armour(key, body), i, name);
  }

  lemma {:induction false} StripTail(middle: Text, key: Text, name: Option<Text>, i: nat)
    requires key != [] && NoDash(key) && NoDash(middle) && (name == None || name == Some(key))
    requires i <= |middle|
    ensures StripFromFirst(middle + ((END + key) + (DASHES + [NL])), i, name) == middle
    decreases |middle| - i
  {
    var t := middle + ((END + key) + (DASHES + [NL]));
    if i == |middle| {
      MarkerMatches(middle, END, key, [NL], name);
    } else {
      if MatchesAt(t, i, END) { assert t[i..i + 9][0] == END[0]; }
      StripTail(middle, key, name, i + 1);
    }
  }

  /** Stripping an armoured body leaves the body between its two line breaks. */
  lemma StripArmour(key: Text, body: Text, name: Option<Text>)
    requires key != [] && NoDash(key) && NoDash(body) && (name == None || name == Some(key))
    ensures var pem := Armour(key, body);
            && Includes(pem, BEGIN)
            && StripFromFirst(StripThroughLast(pem, |pem|, name), 0, name) == [NL] + body + [NL]
  {
    var pem := Armour(key, body);
    StripHead(key, body, name, |pem|);
    var middle := [NL] + body + [NL];
    StripTail(middle, key, name, 0);
    assert MatchesAt(pem, 0, BEGIN);
  }

  // ---- Hexadecimal keys survive the PEM form -----------------------------------------------------

  lemma PaddedUnits(b: seq<byte>)
    ensures var t := EncodePadded(b);
            && All(t, IsBase64Class) && NoTerminators(t) && NoDash(t)
            && (forall i :: 0 <= i < |t| ==> t[i] != 0x20)
            && (b != [] ==> t != [])
  {
    EncodeDigits(b, false);
    var t := EncodePadded(b);
    forall i | 0 <= i < |t|
      ensures IsBase64Class(t[i]) && !IsTerminator(t[i]) && t[i] != DASH && t[i] != 0x20
    {
      if i < |Encode(b, false)| { assert t[i] == Encode(b, false)[i]; }
    }
  }

  lemma NotIncluded(t: Text, key: Text, i: nat)
    requires i < |key| && forall j :: 0 <= j < |t| ==> t[j] != key[i]
    ensures !Includes(t, key)
  {
    forall j: nat ensures !MatchesAt(t, j, key) {
      if j + |key| <= |t| { assert t[j..j + |key|][i] == t[j + i]; }
    }
  }

  /** Base 64 never contains the header names, so it is always armoured. */
  lemma BytesToPem(bytes: seq<byte>, key: Text)
    requires key == PUBLIC_KEY || key == RSA_PRIVATE_KEY || key == PRIVATE_KEY
    requires bytes != []
    ensures DerToPem(EncodePadded(bytes), key) == Ok(Armour(key, JoinLines(Chunks(EncodePadded(bytes)))))
  {
    var t := EncodePadded(bytes);
    PaddedUnits(bytes);
    assert PUBLIC_KEY[6] == RSA_PRIVATE_KEY[3] == PRIVATE_KEY[7] == 0x20;
    NotIncluded(t, key, if key == PUBLIC_KEY then 6 else if key == RSA_PRIVATE_KEY then 3 else 7);
    KeepChunks(t, IsBase64Class);
  }

  lemma KeepBetweenBreaks(t: Text)
    requires NoTerminators(t) && All(t, IsBase64Class)
    ensures Keep([NL] + JoinLines(Chunks(t)) + [NL], IsBase64Class) == t
  {
    var body := JoinLines(Chunks(t));
    KeepChunks(t, IsBase64Class);
    KeepConcat([NL] + body, [NL], IsBase64Class);
    KeepConcat([NL], body, IsBase64Class);
    assert Keep([NL], IsBase64Class) == [];
  }

  lemma ChunksNoDash(t: Text)
    requires NoDash(t)
    ensures NoDash(JoinLines(Chunks(t)))
  {
    var noDash := (u: Unit) => u != DASH;
    ChunkUnits(t, noDash);
    JoinedUnits(Chunks(t), noDash);
    assert All(JoinLines(Chunks(t)), noDash);
  }

  lemma PemToBytes(bytes: seq<byte>, key: Text, name: Option<Text>)
    requires key != [] && NoDash(key) && (name == None || name == Some(key))
    ensures PemToHex(Armour(key, JoinLines(Chunks(EncodePadded(bytes)))), name) == Ok(EncodeHex(bytes))
  {
    var t := EncodePadded(bytes);
    PaddedUnits(bytes);
    ChunksNoDash(t);
    StripArmour(key, JoinLines(Chunks(t)), name);
    KeepBetweenBreaks(t);
    DecodeEncode(bytes, false, (3 - |bytes| % 3) % 3);
  }

  lemma HexToPemArmours(hex: Text, visibility: KeyVisibility, readsAsRsa: bool) returns (bytes: seq<byte>)
    requires hex != [] && forall i :: 0 <= i < |hex| ==> HexValue(hex[i]).Some?
    ensures EncodeHex(bytes) == EvenHex(hex)
    ensures HexToPem(hex, visibility, readsAsRsa) ==
            Ok(Armour(HeaderFor(visibility, readsAsRsa), JoinLines(Chunks(EncodePadded(bytes)))))
  {
    EncodeDecodeHex(EvenHex(hex));
    bytes := DecodeHex(EvenHex(hex)).value;
    BytesToPem(bytes, HeaderFor(visibility, true));
    BytesToPem(bytes, HeaderFor(visibility, readsAsRsa));
  }

  lemma HeaderIsName(visibility: KeyVisibility, readsAsRsa: bool)
    ensures HeaderFor(visibility, readsAsRsa) != [] && NoDash(HeaderFor(visibility, readsAsRsa))
  {
  }

  /** `PEMToHex(hexToPEM(h, v))` is h with an even number of digits, for either visibility, for
      either header a private key can end up with, and with or without naming that header. */
  lemma PemRoundTrip(hex: Text, visibility: KeyVisibility, readsAsRsa: bool, name: Option<Text>)
    requires hex != [] && forall i :: 0 <= i < |hex| ==> HexValue(hex[i]).Some?
    requires name == None || name == Some(HeaderFor(visibility, readsAsRsa))
    ensures HexToPem(hex, visibility, readsAsRsa).Ok?
    ensures PemToHex(HexToPem(hex, visibility, readsAsRsa).value, name) == Ok(EvenHex(hex))
  {
    var bytes := HexToPemArmours(hex, visibility, readsAsRsa);
    HeaderIsName(visibility, readsAsRsa);
    PemToBytes(bytes, HeaderFor(visibility, readsAsRsa), name);
  }

  /** What is kept are the digits of either alphabet, the padding and the tilde. */
  lemma Base64ClassIs(u: Unit)
    ensures IsBase64Class(u) <==> Value(u, false).Some? || Value(u, true).Some? || u == PAD || u == 0x7E
  {
  }

  function HexNumber(t: Text): nat {
    if t == [] then 0
    else HexNumber(t[..|t| - 1]) * 16 + match HexValue(t[|t| - 1]) case None => 0 case Some(n) => n
  }

  lemma {:induction false} LeadingZero(t: Text)
    ensures HexNumber([0x30] + t) == HexNumber(t)
  {
    if t == [] {
      assert ([0x30] + t)[..0] == [];
    } else {
      LeadingZero(t[..|t| - 1]);
      assert ([0x30] + t)[..|t|] == [0x30] + t[..|t| - 1];
    }
  }

  /** Making the number of digits even keeps the number they write, and adds no more than one. */
  lemma EvenHexKeepsNumber(hex: Text)
    ensures |EvenHex(hex)| % 2 == 0 && |EvenHex(hex)| <= |hex| + 1
    ensures HexNumber(EvenHex(hex)) == HexNumber(hex)
  {
    LeadingZero(hex);
  }

  predicate IsAscii(s: string) {
    forall i :: 0 <= i < |s| ==> s[i] < 128 as char
  }

  /** The text's first and last line are the markers of a name. */
  ghost predicate FramedBy(pem: Text, name: string)
    requires IsAscii(name)
  {
    exists body: Text ::
      pem == Lit("-----BEGIN ") + Lit(name) + Lit("-----\n") + body
             + Lit("\n-----END ") + Lit(name) + Lit("-----\n")
  }

  lemma ArmourRegroups(name: Text, body: Text)
    ensures Armour(name, body) ==
            BEGIN + name + (DASHES + [NL]) + body + ([NL] + END) + name + (DASHES + [NL])
  {
  }

  lemma ArmourFrames(name: string, body: Text)
    requires IsAscii(name)
    ensures FramedBy(Armour(Lit(name), body), name)
  {
    ArmourRegroups(Lit(name), body);
    assert DASHES + [NL] == Lit("-----\n");
    assert [NL] + END == Lit("\n-----END ");
  }

  /** The marker a key's text carries: a public key's, that of a private key which reads back as
      RSA, or that of any other private key. */
  function MarkerOf(visibility: KeyVisibility, readsAsRsa: bool): (name: string)
    ensures IsAscii(name)
  {
    if visibility.Public? then "PUBLIC KEY" else if readsAsRsa then "RSA PRIVATE KEY" else "PRIVATE KEY"
  }

  lemma HeaderIsMarker(visibility: KeyVisibility, readsAsRsa: bool)
    ensures HeaderFor(visibility, readsAsRsa) == Lit(MarkerOf(visibility, readsAsRsa))
  {
  }

  /** The text of a key is framed by its marker lines. */
  lemma PemLines(hex: Text, visibility: KeyVisibility, readsAsRsa: bool)
    requires hex != [] && forall i :: 0 <= i < |hex| ==> HexValue(hex[i]).Some?
    ensures HexToPem(hex, visibility, readsAsRsa).Ok?
    ensures FramedBy(HexToPem(hex, visibility, readsAsRsa).value, MarkerOf(visibility, readsAsRsa))
  {
    var bytes := HexToPemArmours(hex, visibility, readsAsRsa);
    HeaderIsMarker(visibility, readsAsRsa);
    ArmourFrames(MarkerOf(visibility, readsAsRsa), JoinLines(Chunks(EncodePadded(bytes))));
  }
}
