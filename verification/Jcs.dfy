/** JSON canonicalisation (RFC 8785, section 3.2): the canonical form of a value. */
module Jcs {
  import opened Wrappers
  import opened Utf16
  import opened Json

  predicate DistinctKeys(members: seq<Member>) {
    forall i, j :: 0 <= i < j < |members| ==> members[i].key != members[j].key
  }

  /** What every JavaScript value satisfies: its numbers print as numbers and no object holds
      a property twice. */
  predicate IsValue(v: Json)
    decreases v
  {
    match v
    case Num(text) => IsNumber(text)
    case Arr(items) => forall i :: 0 <= i < |items| ==> IsValue(items[i])
    case Obj(members) =>
      DistinctKeys(members) && forall i :: 0 <= i < |members| ==> IsValue(members[i].value)
    case _ => true
  }

  /** The value of a property, if the object has it. */
  function Get(members: seq<Member>, key: Text): (r: Option<Json>)
    ensures r.Some? <==> exists i :: 0 <= i < |members| && members[i].key == key
    ensures r.Some? ==> exists i :: 0 <= i < |members| && members[i] == Member(key, r.value)
  {
    if members == [] then None
    else if members[0].key == key then
      assert members[0] == Member(key, members[0].value);
      Some(members[0].value)
    else
      var r := Get(members[1..], key);
      assert r.Some? ==> exists i :: 0 <= i < |members[1..]| && members[1..][i] == Member(key, r.value);
      assert forall i :: 0 <= i < |members[1..]| ==> members[1..][i] == members[i + 1];
      r
  }

  // ---- Sorting by property name -------------------------------------------------------------

  function Insert(m: Member, sorted: seq<Member>): seq<Member> {
    if sorted == [] || Less(m.key, sorted[0].key) then [m] + sorted
    else [sorted[0]] + Insert(m, sorted[1..])
  }

  function Sort(members: seq<Member>): seq<Member> {
    if members == [] then [] else Insert(members[0], Sort(members[1..]))
  }

  ghost predicate StrictlySorted(members: seq<Member>) {
    forall i, j :: 0 <= i < j < |members| ==> Less(members[i].key, members[j].key)
  }

  function Elements(members: seq<Member>): set<Member> {
    set m <- members
  }

  lemma ElementsCons(m: Member, members: seq<Member>)
    ensures Elements([m] + members) == {m} + Elements(members)
  {
  }

  lemma {:induction false} InsertSorts(m: Member, sorted: seq<Member>)
    requires StrictlySorted(sorted) && forall x <- sorted :: x.key != m.key
    ensures StrictlySorted(Insert(m, sorted))
    ensures Elements(Insert(m, sorted)) == {m} + Elements(sorted)
    ensures |Insert(m, sorted)| == |sorted| + 1
  {
    if sorted == [] {
    } else if Less(m.key, sorted[0].key) {
      forall j | 0 <= j < |sorted| ensures Less(m.key, sorted[j].key) {
        if j > 0 { LessTransitive(m.key, sorted[0].key, sorted[j].key); }
      }
    } else {
      LessTotal(m.key, sorted[0].key);
      var tail := Insert(m, sorted[1..]);
      InsertSorts(m, sorted[1..]);
      forall j | 0 <= j < |tail| ensures Less(sorted[0].key, tail[j].key) {
        assert tail[j] in Elements(tail);
      }
      ElementsCons(sorted[0], tail);
      ElementsCons(sorted[0], sorted[1..]);
      assert sorted == [sorted[0]] + sorted[1..];
    }
  }

  lemma {:induction false} SortSorts(members: seq<Member>)
    requires DistinctKeys(members)
    ensures StrictlySorted(Sort(members))
    ensures Elements(Sort(members)) == Elements(members) && |Sort(members)| == |members|
  {
    if members != [] {
      var tail := members[1..];
      SortSorts(tail);
      forall x | x in Sort(tail) ensures x.key != members[0].key {
        assert x in Elements(Sort(tail)) && x in Elements(tail);
      }
      InsertSorts(members[0], Sort(tail));
      ElementsCons(members[0], tail);
      assert members == [members[0]] + tail;
    }
  }

  lemma {:induction false} HeadIsLeast(a: seq<Member>, x: Member)
    requires StrictlySorted(a) && x in a
    ensures x == a[0] || Less(a[0].key, x.key)
  {
  }

  lemma {:induction false} SortedUnique(a: seq<Member>, b: seq<Member>)
    requires StrictlySorted(a) && StrictlySorted(b) && Elements(a) == Elements(b) && |a| == |b|
    ensures a == b
  {
    if a != [] {
      assert a[0] in Elements(a);
      HeadIsLeast(b, a[0]);
      assert b[0] in Elements(b);
      HeadIsLeast(a, b[0]);
      if a[0] != b[0] {
        LessTransitive(a[0].key, b[0].key, a[0].key);
        LessIrreflexive(a[0].key);
      }
      TailElements(a);
      TailElements(b);
      SortedUnique(a[1..], b[1..]);
      assert a == [a[0]] + a[1..] && b == [b[0]] + b[1..];
    }
  }

  lemma TailElements(a: seq<Member>)
    requires a != [] && StrictlySorted(a)
    ensures Elements(a[1..]) == Elements(a) - {a[0]}
  {
    LessIrreflexive(a[0].key);
  }

  // ---- The canonical form -----------------------------------------------------------------

  /** A value with its non-finite numbers replaced by null, as printing does. */
  function Erase(v: Json): Json
    decreases v, 1
  {
    match v
    case NonFinite(_) => Null
    case Arr(items) => Arr(EraseItems(items))
    case Obj(members) => Obj(EraseMembers(members))
    case _ => v
  }

  function EraseItems(items: seq<Json>): (r: seq<Json>)
    ensures |r| == |items| && forall i :: 0 <= i < |items| ==> r[i] == Erase(items[i])
    decreases items, 0
  {
    if items == [] then [] else [Erase(items[0])] + EraseItems(items[1..])
  }

  function EraseMembers(members: seq<Member>): (r: seq<Member>)
    ensures |r| == |members|
    ensures forall i :: 0 <= i < |members| ==> r[i] == Member(members[i].key, Erase(members[i].value))
    decreases members, 0
  {
    if members == [] then []
    else [Member(members[0].key, Erase(members[0].value))] + EraseMembers(members[1..])
  }

  lemma {:induction false} StringifyErase(v: Json)
    ensures Stringify(Erase(v)) == Stringify(v)
    decreases v, 1
  {
    match v
    case Arr(items) => StringifyEraseItems(items);
    case Obj(members) => StringifyEraseMembers(members);
    case _ =>
  }

  lemma {:induction false} StringifyEraseItems(items: seq<Json>)
    ensures StringifyItems(EraseItems(items)) == StringifyItems(items)
    decreases items, 0
  {
    if items != [] {
      StringifyErase(items[0]);
      StringifyEraseItems(items[1..]);
      assert EraseItems(items)[1..] == EraseItems(items[1..]);
    }
  }

  lemma {:induction false} StringifyEraseMembers(members: seq<Member>)
    ensures StringifyMembers(EraseMembers(members)) == StringifyMembers(members)
    decreases members, 0
  {
    if members != [] {
      StringifyErase(members[0].value);
      StringifyEraseMembers(members[1..]);
      assert EraseMembers(members)[1..] == EraseMembers(members[1..]);
    }
  }

  const TO_JSON := Lit("toJSON")

  /** An object with such a member is printed by `JSON.stringify`, its properties unsorted. */
  predicate HasToJson(members: seq<Member>) {
    var v := Get(members, TO_JSON);
    v.Some? && !v.value.Null?
  }

  function Normal(v: Json): Json
    decreases v, 1
  {
    match v
    case NonFinite(_) => Null
    case Arr(items) => Arr(NormalItems(items))
    case Obj(members) => Obj(if HasToJson(members) then EraseMembers(members) else Sort(NormalMembers(members)))
    case _ => v
  }

  function NormalItems(items: seq<Json>): (r: seq<Json>)
    ensures |r| == |items| && forall i :: 0 <= i < |items| ==> r[i] == Normal(items[i])
    decreases items, 0
  {
    if items == [] then [] else [Normal(items[0])] + NormalItems(items[1..])
  }

  function NormalMembers(members: seq<Member>): (r: seq<Member>)
    ensures |r| == |members|
    ensures forall i :: 0 <= i < |members| ==> r[i] == Member(members[i].key, Normal(members[i].value))
    decreases members, 0
  {
    if members == [] then []
    else [Member(members[0].key, Normal(members[0].value))] + NormalMembers(members[1..])
  }

  /** The text `jcsCanonicalize` returns. */
  function Canonicalize(v: Json): Text {
    Stringify(Normal(v))
  }

  lemma {:induction false} EraseTidy(v: Json)
    requires IsValue(v)
    ensures Tidy(Erase(v))
    decreases v
  {
    match v
    case Arr(items) =>
      forall i | 0 <= i < |items| ensures Tidy(Erase(items[i])) {
        EraseTidy(items[i]);
      }
    case Obj(members) =>
      forall i | 0 <= i < |members| ensures Tidy(Erase(members[i].value)) {
        EraseTidy(members[i].value);
      }
    case _ =>
  }

  lemma {:induction false} NormalTidy(v: Json)
    requires IsValue(v)
    ensures Tidy(Normal(v))
    decreases v
  {
    match v
    case Arr(items) =>
      forall i | 0 <= i < |items| ensures Tidy(Normal(items[i])) {
        NormalTidy(items[i]);
      }
    case Obj(members) =>
      forall i | 0 <= i < |members| ensures Tidy(Normal(members[i].value)) {
        NormalTidy(members[i].value);
      }
      EraseTidy(v);
      var n := NormalMembers(members);
      SortSorts(n);
      forall i | 0 <= i < |n| ensures Tidy(Sort(n)[i].value) {
        assert Sort(n)[i] in Elements(Sort(n));
        assert Sort(n)[i] in Elements(n);
      }
    case _ =>
  }

  lemma GetDistinct(members: seq<Member>, i: nat)
    requires DistinctKeys(members) && i < |members|
    ensures Get(members, members[i].key) == Some(members[i].value)
  {
  }
}
