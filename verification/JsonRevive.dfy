/** `JSON.parse`: what the grammar reads, as JavaScript holds it. */
module JsonRevive {
  import opened Wrappers
  import opened Utf16
  import opened Json
  import opened JsonRoundTrip
  import opened Jcs

  /** Number reading followed by number formatting; None when the number overflows. */
  type NumberReader = Text -> Option<Text>

  /** Formatting inverts reading: the formatted text is number syntax for the same number. */
  ghost predicate LawfulNumbers(read: NumberReader) {
    forall t :: IsNumber(t) && read(t).Some? ==> IsNumber(read(t).value) && read(read(t).value) == read(t)
  }

  function AddIndex(members: seq<Member>, m: Member): seq<Member> {
    if members == [] || !IsIndex(members[0].key) || DecimalValue(m.key) < DecimalValue(members[0].key) then
      [m] + members
    else
      [members[0]] + AddIndex(members[1..], m)
  }

  /** The position of a property, or the number of properties when absent. */
  function IndexOf(members: seq<Member>, key: Text): (i: nat)
    ensures i <= |members|
    ensures i < |members| ==> members[i].key == key
    ensures forall j :: 0 <= j < i ==> members[j].key != key
  {
    if members == [] || members[0].key == key then 0 else 1 + IndexOf(members[1..], key)
  }

  /** Defining a property: an existing one keeps its place and a name gets its last value. */
  function SetProperty(members: seq<Member>, m: Member): seq<Member> {
    var i := IndexOf(members, m.key);
    if i < |members| then members[i := m]
    else if IsIndex(m.key) then AddIndex(members, m)
    else members + [m]
  }

  /** The JavaScript value of a parsed text: numbers read, objects built property by property. */
  function Revive(v: Json, read: NumberReader): Json
    decreases v, 1
  {
    match v
    case Num(text) => (match read(text) case Some(t) => Num(t) case None => NonFinite(false))
    case Arr(items) => Arr(ReviveItems(items, read))
    case Obj(members) => Obj(Build(members, read))
    case _ => v
  }

  function ReviveItems(items: seq<Json>, read: NumberReader): (r: seq<Json>)
    ensures |r| == |items| && forall i :: 0 <= i < |items| ==> r[i] == Revive(items[i], read)
    decreases items, 0
  {
    if items == [] then [] else [Revive(items[0], read)] + ReviveItems(items[1..], read)
  }

  function Build(members: seq<Member>, read: NumberReader): seq<Member>
    decreases members, 0
  {
    if members == [] then []
    else
      var last := members[|members| - 1];
      SetProperty(Build(members[..|members| - 1], read), Member(last.key, Revive(last.value, read)))
  }

  function JsonParse(t: Text, read: NumberReader): Option<Json> {
    match ReadText(t)
    case None => None
    case Some(v) => Some(Revive(v, read))
  }

  // ---- The objects that parsing builds ---------------------------------------------------------

  /** The value of the last member of a name. */
  function LastOf(members: seq<Member>, key: Text): Option<Json> {
    if members == [] then None
    else if members[|members| - 1].key == key then Some(members[|members| - 1].value)
    else LastOf(members[..|members| - 1], key)
  }

  /** The names that are no array indices, each where it first occurs. */
  function FirstNames(members: seq<Member>): seq<Text> {
    if members == [] then []
    else
      var front, key := FirstNames(members[..|members| - 1]), members[|members| - 1].key;
      if IsIndex(key) || key in front then front else front + [key]
  }

  /** The names of an object that are no array indices, in its order. */
  function NamesIn(members: seq<Member>): seq<Text> {
    if members == [] then []
    else (if IsIndex(members[0].key) then [] else [members[0].key]) + NamesIn(members[1..])
  }

  /** Array indices come first, in ascending order. */
  ghost predicate IndicesFirst(members: seq<Member>) {
    forall i, j :: 0 <= i < j < |members| && IsIndex(members[j].key) ==>
      IsIndex(members[i].key) && DecimalValue(members[i].key) <= DecimalValue(members[j].key)
  }

  ghost predicate Lacks(members: seq<Member>, key: Text) {
    forall i :: 0 <= i < |members| ==> members[i].key != key
  }

  lemma GetHead(m: Member, members: seq<Member>, key: Text)
    ensures Get([m] + members, key) == if m.key == key then Some(m.value) else Get(members, key)
  {
    assert ([m] + members)[1..] == members;
  }

  lemma {:induction false} GetUpdated(members: seq<Member>, m: Member, i: nat, key: Text)
    requires i < |members| && members[i].key == m.key && forall j :: 0 <= j < i ==> members[j].key != m.key
    ensures Get(members[i := m], key) == if key == m.key then Some(m.value) else Get(members, key)
  {
    if i > 0 {
      GetUpdated(members[1..], m, i - 1, key);
      assert members[i := m][1..] == members[1..][i - 1 := m];
    } else {
      assert members[i := m][1..] == members[1..];
    }
  }

  lemma {:induction false} GetAdded(members: seq<Member>, m: Member, key: Text)
    requires Lacks(members, m.key)
    ensures Get(AddIndex(members, m), key) == if key == m.key then Some(m.value) else Get(members, key)
  {
    if members == [] || !IsIndex(members[0].key) || DecimalValue(m.key) < DecimalValue(members[0].key) {
      GetHead(m, members, key);
    } else {
      GetAdded(members[1..], m, key);
      GetHead(members[0], AddIndex(members[1..], m), key);
    }
  }

  lemma {:induction false} GetAppended(members: seq<Member>, m: Member, key: Text)
    requires Lacks(members, m.key)
    ensures Get(members + [m], key) == if key == m.key then Some(m.value) else Get(members, key)
  {
    if members == [] {
      assert members + [m] == [m] + members;
    } else {
      GetAppended(members[1..], m, key);
      GetHead(members[0], members[1..] + [m], key);
      assert members + [m] == [members[0]] + (members[1..] + [m]);
    }
  }

  lemma SetGets(members: seq<Member>, m: Member, key: Text)
    ensures Get(SetProperty(members, m), key) == if key == m.key then Some(m.value) else Get(members, key)
  {
    var i := IndexOf(members, m.key);
    if i < |members| {
      GetUpdated(members, m, i, key);
    } else {
      GetAdded(members, m, key);
      GetAppended(members, m, key);
    }
  }

  lemma {:induction false} AddedHas(members: seq<Member>, m: Member)
    ensures forall x <- AddIndex(members, m) :: x == m || x in members
  {
    if members != [] {
      AddedHas(members[1..], m);
    }
  }

  lemma {:induction false} AddedIsDistinct(members: seq<Member>, m: Member)
    requires DistinctKeys(members) && Lacks(members, m.key)
    ensures DistinctKeys(AddIndex(members, m))
  {
    if members != [] && IsIndex(members[0].key) && DecimalValue(m.key) >= DecimalValue(members[0].key) {
      var rest := AddIndex(members[1..], m);
      AddedIsDistinct(members[1..], m);
      AddedHas(members[1..], m);
      forall j | 0 <= j < |rest| ensures rest[j].key != members[0].key {
        assert rest[j] in rest;
      }
    }
  }

  lemma {:induction false} NamesAdded(members: seq<Member>, m: Member)
    requires IsIndex(m.key)
    ensures NamesIn(AddIndex(members, m)) == NamesIn(members)
  {
    if members != [] && IsIndex(members[0].key) && DecimalValue(m.key) >= DecimalValue(members[0].key) {
      NamesAdded(members[1..], m);
      assert ([members[0]] + AddIndex(members[1..], m))[1..] == AddIndex(members[1..], m);
    } else {
      assert ([m] + members)[1..] == members;
    }
  }

  lemma IndicesFirstCons(m: Member, rest: seq<Member>)
    requires IsIndex(m.key) && IndicesFirst(rest)
    requires forall x <- rest :: IsIndex(x.key) ==> DecimalValue(m.key) <= DecimalValue(x.key)
    ensures IndicesFirst([m] + rest)
  {
  }

  lemma {:induction false} AddedIsOrdered(members: seq<Member>, m: Member)
    requires IsIndex(m.key) && IndicesFirst(members)
    ensures IndicesFirst(AddIndex(members, m))
  {
    if members != [] && IsIndex(members[0].key) && DecimalValue(m.key) >= DecimalValue(members[0].key) {
      AddedIsOrdered(members[1..], m);
      AddedHas(members[1..], m);
      IndicesFirstCons(members[0], AddIndex(members[1..], m));
    } else {
      forall x | x in members && IsIndex(x.key) ensures DecimalValue(m.key) <= DecimalValue(x.key) {
        assert members[0] == x || IsIndex(members[0].key);
      }
      IndicesFirstCons(m, members);
    }
  }

  lemma {:induction false} NamesAppended(members: seq<Member>, m: Member)
    ensures NamesIn(members + [m]) == NamesIn(members) + if IsIndex(m.key) then [] else [m.key]
  {
    if members == [] {
      assert members + [m] == [m] && [m][1..] == [];
    } else {
      var head := if IsIndex(members[0].key) then [] else [members[0].key];
      var last := if IsIndex(m.key) then [] else [m.key];
      NamesAppended(members[1..], m);
      assert (members + [m])[1..] == members[1..] + [m] && (members + [m])[0] == members[0];
      assert head + (NamesIn(members[1..]) + last) == head + NamesIn(members[1..]) + last;
    }
  }

  lemma {:induction false} NamesUpdated(members: seq<Member>, i: nat, m: Member)
    requires i < |members| && members[i].key == m.key
    ensures NamesIn(members[i := m]) == NamesIn(members)
  {
    if i > 0 {
      NamesUpdated(members[1..], i - 1, m);
      assert members[i := m][1..] == members[1..][i - 1 := m];
    } else {
      assert members[i := m][1..] == members[1..];
    }
  }

  lemma {:induction false} NamesHold(members: seq<Member>, key: Text)
    ensures key in NamesIn(members) <==> !IsIndex(key) && !Lacks(members, key)
  {
    if members != [] {
      NamesHold(members[1..], key);
      assert Lacks(members, key) <==> members[0].key != key && Lacks(members[1..], key);
    }
  }

  lemma SetIsOrdered(members: seq<Member>, m: Member)
    requires DistinctKeys(members) && IndicesFirst(members)
    ensures var r := SetProperty(members, m);
            && DistinctKeys(r) && IndicesFirst(r)
            && NamesIn(r) ==
               if IsIndex(m.key) || m.key in NamesIn(members) then NamesIn(members) else NamesIn(members) + [m.key]
  {
    var i := IndexOf(members, m.key);
    NamesHold(members, m.key);
    if i < |members| {
      NamesUpdated(members, i, m);
    } else if IsIndex(m.key) {
      AddedIsDistinct(members, m);
      AddedIsOrdered(members, m);
      NamesAdded(members, m);
    } else {
      NamesAppended(members, m);
    }
  }

  /** An object as JavaScript builds it: each name once with its last value, array indices first in
      ascending order, all other names where they first occurred. */
  lemma {:induction false} ObjectIsBuilt(members: seq<Member>, read: NumberReader, key: Text)
    ensures var built := Build(members, read);
            && DistinctKeys(built) && IndicesFirst(built) && NamesIn(built) == FirstNames(members)
            && Get(built, key) == match LastOf(members, key) case None => None case Some(v) => Some(Revive(v, read))
  {
    if members != [] {
      var front, last := members[..|members| - 1], members[|members| - 1];
      var m := Member(last.key, Revive(last.value, read));
      ObjectIsBuilt(front, read, key);
      SetGets(Build(front, read), m, key);
      SetIsOrdered(Build(front, read), m);
    }
  }

  // ---- What a parsed value prints as --------------------------------------------------------

  lemma {:induction false} AddIndexElements(members: seq<Member>, m: Member)
    ensures forall x <- AddIndex(members, m) :: x == m || x in members
  {
    if members != [] {
      AddIndexElements(members[1..], m);
    }
  }

  lemma SetPropertyElements(members: seq<Member>, m: Member)
    ensures forall x <- SetProperty(members, m) :: x == m || x in members
  {
    AddIndexElements(members, m);
  }

  /** Numbers of a parsed value print as numbers. */
  lemma {:induction false} ReviveTidy(v: Json, read: NumberReader)
    requires LawfulNumbers(read) && Tidy(v)
    ensures Tidy(Erase(Revive(v, read)))
    decreases v, 1
  {
    match v
    case Arr(items) => ReviveItemsTidy(items, read);
    case Obj(members) => BuildTidy(members, read);
    case _ =>
  }

  lemma {:induction false} ReviveItemsTidy(items: seq<Json>, read: NumberReader)
    requires LawfulNumbers(read) && forall i :: 0 <= i < |items| ==> Tidy(items[i])
    ensures forall x <- ReviveItems(items, read) :: Tidy(Erase(x))
    decreases items, 0
  {
    if items != [] {
      ReviveTidy(items[0], read);
      ReviveItemsTidy(items[1..], read);
    }
  }

  lemma {:induction false} BuildTidy(members: seq<Member>, read: NumberReader)
    requires LawfulNumbers(read) && forall i :: 0 <= i < |members| ==> Tidy(members[i].value)
    ensures forall x <- Build(members, read) :: Tidy(Erase(x.value))
    decreases members, 0
  {
    if members != [] {
      var last := members[|members| - 1];
      var front := members[..|members| - 1];
      ReviveTidy(last.value, read);
      BuildTidy(front, read);
      SetPropertyElements(Build(front, read), Member(last.key, Revive(last.value, read)));
    }
  }

  /** A number text is read and then formatted; one that overflows is an infinity. */
  lemma {:induction false} NumbersAreRead(t: Text, read: NumberReader)
    requires IsNumber(t)
    ensures JsonParse(t, read) ==
            Some(match read(t) case Some(formatted) => Num(formatted) case None => NonFinite(false))
  {
    ReadTextStringify(Num(t));
  }

  /** Parsing keeps keywords and strings, and an array's places; each item is parsed on its own. */
  lemma {:induction false} OthersAreKept(v: Json, read: NumberReader)
    requires Tidy(v)
    ensures v.Null? || v.Bool? || v.Str? ==> JsonParse(Stringify(v), read) == Some(v)
    ensures v.Arr? ==>
              JsonParse(Stringify(v), read).Some? &&
              var r := JsonParse(Stringify(v), read).value;
              r.Arr? && |r.items| == |v.items| &&
              forall i :: 0 <= i < |v.items| ==> Some(r.items[i]) == JsonParse(Stringify(v.items[i]), read)
  {
    ReadTextStringify(v);
    if v.Arr? {
      forall i | 0 <= i < |v.items|
        ensures JsonParse(Stringify(v.items[i]), read) == Some(Revive(v.items[i], read))
      {
        ReadTextStringify(v.items[i]);
      }
    }
  }

  // ---- Array indices ------------------------------------------------------------------------

  /** The decimal text of a number. */
  function Decimal(n: nat): Text {
    if n < 10 then [0x30 + n] else Decimal(n / 10) + [0x30 + n % 10]
  }

  lemma {:induction false} DecimalIs(n: nat)
    ensures var t := Decimal(n);
            && t != [] && (forall i :: 0 <= i < |t| ==> IsDigit(t[i])) && DecimalValue(t) == n
            && (t[0] == 0x30 ==> n == 0)
  {
    if n >= 10 {
      DecimalIs(n / 10);
      var front := Decimal(n / 10);
      assert Decimal(n)[..|front|] == front;
    } else {
      assert Decimal(n)[..0] == [];
    }
  }

  lemma {:induction false} AllDigitsRun(t: Text)
    ensures DigitRun(t) == |t| <==> forall i :: 0 <= i < |t| ==> IsDigit(t[i])
  {
    if t != [] {
      AllDigitsRun(t[1..]);
      assert forall i :: 0 < i < |t| ==> t[i] == t[1..][i - 1];
      if forall i :: 0 <= i < |t| ==> IsDigit(t[i]) {
        assert forall i :: 0 <= i < |t[1..]| ==> t[1..][i] == t[i + 1];
      }
    }
  }

  lemma {:induction false} DecimalOf(t: Text)
    requires t != [] && (forall i :: 0 <= i < |t| ==> IsDigit(t[i])) && (t[0] == 0x30 ==> |t| == 1)
    ensures Decimal(DecimalValue(t)) == t
  {
    var front, last := t[..|t| - 1], t[|t| - 1];
    if front == [] {
      assert t == [last];
    } else {
      DecimalOf(front);
      assert t == front + [last];
      var n := DecimalValue(front);
      assert DecimalValue(t) == n * 10 + (last - 0x30);
      if n == 0 {
        assert false;
      }
    }
  }

  /** An array index is the decimal text of a number below 2^32 - 1. */
  lemma IndexIff(key: Text)
    ensures IsIndex(key) <==> exists n: nat :: n < 4294967295 && key == Decimal(n)
  {
    AllDigitsRun(key);
    if IsIndex(key) {
      DecimalOf(key);
      assert key == Decimal(DecimalValue(key));
    }
    if n: nat :| n < 4294967295 && key == Decimal(n) {
      DecimalIs(n);
      if key[0] == 0x30 {
        assert Decimal(0) == [0x30];
      }
    }
  }
}
