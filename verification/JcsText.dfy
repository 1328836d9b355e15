/** What the canonical text identifies, for every value. */
module JcsText {
  import opened Utf16
  import opened Json
  import opened JsonRoundTrip
  import opened JsonShortest
  import opened Jcs

  /** Equality of JSON values up to the order of properties, at every depth. A number that is
      not finite has no JSON form of its own and counts as null. */
  ghost predicate Same(a: Json, b: Json)
    decreases a
  {
    match (a, b)
    case (Arr(x), Arr(y)) => |x| == |y| && forall i :: 0 <= i < |x| ==> Same(x[i], y[i])
    case (Obj(m), Obj(n)) =>
      && |m| == |n|
      && forall i :: 0 <= i < |m| ==> Get(n, m[i].key).Some? && Same(m[i].value, Get(n, m[i].key).value)
    case _ => a == b || ((a.Null? || a.NonFinite?) && (b.Null? || b.NonFinite?))
  }

  // ---- The exact condition -----------------------------------------------------------------

  /** What the order of properties has to satisfy for two objects to print alike: it is kept
      where an object is not sorted, and sorted already if only the other one is sorted. */
  ghost predicate OrdersFit(m: seq<Member>, keepM: bool, n: seq<Member>, keepN: bool)
    requires |m| == |n|
  {
    && (keepM && keepN ==> forall i :: 0 <= i < |m| ==> m[i].key == n[i].key)
    && (keepM && !keepN ==> StrictlySorted(m))
    && (!keepM && keepN ==> StrictlySorted(n))
  }

  /** Equality up to the order of properties, except that an object with a `toJSON` member keeps
      its order, and so does everything inside it. The flags say whether a value stands inside
      such an object. */
  ghost predicate SameText(a: Json, keepA: bool, b: Json, keepB: bool)
    decreases a
  {
    match (a, b)
    case (Arr(x), Arr(y)) => |x| == |y| && forall i :: 0 <= i < |x| ==> SameText(x[i], keepA, y[i], keepB)
    case (Obj(m), Obj(n)) =>
      var keepM, keepN := keepA || HasToJson(m), keepB || HasToJson(n);
      |m| == |n| && OrdersFit(m, keepM, n, keepN) && SameProperties(m, keepM, n, keepN)
    case _ => a == b || ((a.Null? || a.NonFinite?) && (b.Null? || b.NonFinite?))
  }

  ghost predicate SameProperties(m: seq<Member>, keepM: bool, n: seq<Member>, keepN: bool)
    decreases m
  {
    forall i :: 0 <= i < |m| ==>
      Get(n, m[i].key).Some? && SameText(m[i].value, keepM, Get(n, m[i].key).value, keepN)
  }

  /** How a value shows in the text: with its order kept, or in normal form. */
  function Shown(v: Json, keep: bool): Json {
    if keep then Erase(v) else Normal(v)
  }

  function ShownMembers(members: seq<Member>, keep: bool): (r: seq<Member>)
    ensures |r| == |members|
    ensures forall i :: 0 <= i < |members| ==> r[i] == Member(members[i].key, Shown(members[i].value, keep))
  {
    if keep then EraseMembers(members) else NormalMembers(members)
  }

  function Listed(members: seq<Member>, keep: bool): seq<Member> {
    if keep then members else Sort(members)
  }

  lemma ShownObject(m: seq<Member>, keep: bool)
    ensures var keepM := keep || HasToJson(m);
            Shown(Obj(m), keep) == Obj(Listed(ShownMembers(m, keepM), keepM))
  {
  }

  // ---- Lists of members with equal elements ------------------------------------------------------

  lemma {:induction false} DistinctSize(members: seq<Member>)
    requires DistinctKeys(members)
    ensures |Elements(members)| == |members|
  {
    if members != [] {
      DistinctSize(members[1..]);
      ElementsCons(members[0], members[1..]);
      assert members == [members[0]] + members[1..];
    }
  }

  lemma SubsetOfSameSize<T>(a: set<T>, b: set<T>)
    requires a <= b && |a| == |b|
    ensures a == b
  {
    if x :| x in b && x !in a {
      SizeOfSubset(a, b - {x});
    }
  }

  lemma {:induction false} SizeOfSubset<T>(a: set<T>, b: set<T>)
    requires a <= b
    ensures |a| <= |b|
    decreases a
  {
    if a != {} {
      var x :| x in a;
      SizeOfSubset(a - {x}, b - {x});
    }
  }

  lemma KeysPlace(p: seq<Member>, q: seq<Member>, i: nat)
    requires DistinctKeys(q) && i < |p| == |q| && p[i] in q && p[i].key == q[i].key
    ensures p[i] == q[i]
  {
    var j :| 0 <= j < |q| && q[j] == p[i];
  }

  lemma ListedElements(p: seq<Member>, keep: bool)
    requires DistinctKeys(p)
    ensures Elements(Listed(p, keep)) == Elements(p) && |Listed(p, keep)| == |p|
    ensures !keep ==> StrictlySorted(Listed(p, keep))
  {
    SortSorts(p);
  }

  /** Two listings are equal exactly if their orders fit and their elements are the same. */
  lemma ListedEqual(p: seq<Member>, keepP: bool, q: seq<Member>, keepQ: bool)
    requires DistinctKeys(p) && DistinctKeys(q) && |p| == |q|
    ensures Listed(p, keepP) == Listed(q, keepQ) <==>
            OrdersFit(p, keepP, q, keepQ) && Elements(p) == Elements(q)
  {
    ListedElements(p, keepP);
    ListedElements(q, keepQ);
    if OrdersFit(p, keepP, q, keepQ) && Elements(p) == Elements(q) {
      if keepP && keepQ {
        forall i | 0 <= i < |p| ensures p[i] == q[i] {
          assert p[i] in Elements(q);
          KeysPlace(p, q, i);
        }
      } else {
        SortedUnique(Listed(p, keepP), Listed(q, keepQ));
      }
    }
  }

  lemma SameElements(p: seq<Member>, q: seq<Member>)
    requires DistinctKeys(p) && DistinctKeys(q) && |p| == |q|
    ensures Elements(p) == Elements(q) <==> forall i :: 0 <= i < |p| ==> p[i] in q
  {
    if forall i :: 0 <= i < |p| ==> p[i] in q {
      DistinctSize(p);
      DistinctSize(q);
      SubsetOfSameSize(Elements(p), Elements(q));
    } else {
      var i :| 0 <= i < |p| && p[i] !in q;
      assert p[i] in Elements(p) && p[i] !in Elements(q);
    }
  }

  /** The other object has the property, and it shows alike. */
  predicate ShowsAlike(m: seq<Member>, keepM: bool, n: seq<Member>, keepN: bool, i: nat)
    requires i < |m|
  {
    Get(n, m[i].key).Some? && Shown(m[i].value, keepM) == Shown(Get(n, m[i].key).value, keepN)
  }

  lemma ShownFound(m: seq<Member>, keepM: bool, n: seq<Member>, keepN: bool, i: nat)
    requires DistinctKeys(n) && i < |m|
    ensures ShownMembers(m, keepM)[i] in ShownMembers(n, keepN) <==> ShowsAlike(m, keepM, n, keepN, i)
  {
    var p, q := ShownMembers(m, keepM), ShownMembers(n, keepN);
    if j :| 0 <= j < |q| && q[j].key == p[i].key {
      GetDistinct(n, j);
      assert q[j] in q;
      assert forall k :: 0 <= k < |q| && k != j ==> q[k].key != p[i].key;
    }
  }

  lemma ElementsShow(m: seq<Member>, keepM: bool, n: seq<Member>, keepN: bool)
    requires DistinctKeys(m) && DistinctKeys(n) && |m| == |n|
    ensures Elements(ShownMembers(m, keepM)) == Elements(ShownMembers(n, keepN)) <==>
            forall i :: 0 <= i < |m| ==> ShowsAlike(m, keepM, n, keepN, i)
  {
    var p, q := ShownMembers(m, keepM), ShownMembers(n, keepN);
    SameElements(p, q);
    forall i | 0 <= i < |m| ensures p[i] in q <==> ShowsAlike(m, keepM, n, keepN, i) {
      ShownFound(m, keepM, n, keepN, i);
    }
  }

  lemma OrdersFitShown(m: seq<Member>, keepM: bool, n: seq<Member>, keepN: bool)
    requires |m| == |n|
    ensures OrdersFit(ShownMembers(m, keepM), keepM, ShownMembers(n, keepN), keepN) <==> OrdersFit(m, keepM, n, keepN)
  {
    var p, q := ShownMembers(m, keepM), ShownMembers(n, keepN);
    assert forall i :: 0 <= i < |m| ==> p[i].key == m[i].key;
    assert forall i :: 0 <= i < |n| ==> q[i].key == n[i].key;
  }

  /** Two objects show alike exactly if their orders fit and every property shows alike. */
  lemma ObjectsShow(m: seq<Member>, keepM: bool, n: seq<Member>, keepN: bool)
    requires DistinctKeys(m) && DistinctKeys(n)
    ensures Listed(ShownMembers(m, keepM), keepM) == Listed(ShownMembers(n, keepN), keepN) <==>
            && |m| == |n| && OrdersFit(m, keepM, n, keepN)
            && forall i :: 0 <= i < |m| ==> ShowsAlike(m, keepM, n, keepN, i)
  {
    var p, q := ShownMembers(m, keepM), ShownMembers(n, keepN);
    ListedElements(p, keepM);
    ListedElements(q, keepN);
    if |m| == |n| {
      ListedEqual(p, keepM, q, keepN);
      OrdersFitShown(m, keepM, n, keepN);
      ElementsShow(m, keepM, n, keepN);
    }
  }

  // ---- The theorem ---------------------------------------------------------------------------

  lemma {:induction false} ShownDecides(a: Json, keepA: bool, b: Json, keepB: bool)
    requires IsValue(a) && IsValue(b)
    ensures Shown(a, keepA) == Shown(b, keepB) <==> SameText(a, keepA, b, keepB)
    decreases a
  {
    match (a, b)
    case (Arr(x), Arr(y)) => ItemsDecide(x, keepA, y, keepB);
    case (Obj(m), Obj(n)) => ObjectsDecide(m, keepA, n, keepB);
    case _ =>
  }

  lemma {:induction false} ObjectsDecide(m: seq<Member>, keepA: bool, n: seq<Member>, keepB: bool)
    requires IsValue(Obj(m)) && IsValue(Obj(n))
    ensures Shown(Obj(m), keepA) == Shown(Obj(n), keepB) <==> SameText(Obj(m), keepA, Obj(n), keepB)
    decreases m, 1
  {
    var keepM, keepN := keepA || HasToJson(m), keepB || HasToJson(n);
    ShownObject(m, keepA);
    ShownObject(n, keepB);
    ObjectsShow(m, keepM, n, keepN);
    PropertiesDecide(m, keepM, n, keepN);
    SameObject(m, keepA, n, keepB);
  }

  lemma SameObject(m: seq<Member>, keepA: bool, n: seq<Member>, keepB: bool)
    ensures var keepM, keepN := keepA || HasToJson(m), keepB || HasToJson(n);
            SameText(Obj(m), keepA, Obj(n), keepB) <==>
            |m| == |n| && OrdersFit(m, keepM, n, keepN) && SameProperties(m, keepM, n, keepN)
  {
  }

  lemma {:induction false} PropertiesDecide(m: seq<Member>, keepM: bool, n: seq<Member>, keepN: bool)
    requires IsValue(Obj(m)) && IsValue(Obj(n))
    ensures (forall i :: 0 <= i < |m| ==> ShowsAlike(m, keepM, n, keepN, i)) <==> SameProperties(m, keepM, n, keepN)
    decreases m, 0
  {
    forall i | 0 <= i < |m| && Get(n, m[i].key).Some?
      ensures ShowsAlike(m, keepM, n, keepN, i) <==> SameText(m[i].value, keepM, Get(n, m[i].key).value, keepN)
    {
      ValueOfProperty(n, m[i].key);
      ShownDecides(m[i].value, keepM, Get(n, m[i].key).value, keepN);
    }
    if SameProperties(m, keepM, n, keepN) {
      forall i | 0 <= i < |m| ensures ShowsAlike(m, keepM, n, keepN, i) {
        assert Get(n, m[i].key).Some? && SameText(m[i].value, keepM, Get(n, m[i].key).value, keepN);
      }
    } else {
      var i :| 0 <= i < |m| &&
               !(Get(n, m[i].key).Some? && SameText(m[i].value, keepM, Get(n, m[i].key).value, keepN));
      assert !ShowsAlike(m, keepM, n, keepN, i);
    }
  }

  lemma ValueOfProperty(n: seq<Member>, key: Text)
    requires IsValue(Obj(n)) && Get(n, key).Some?
    ensures IsValue(Get(n, key).value)
  {
  }

  function ShownItems(items: seq<Json>, keep: bool): (r: seq<Json>)
    ensures |r| == |items| && forall i :: 0 <= i < |items| ==> r[i] == Shown(items[i], keep)
  {
    if keep then EraseItems(items) else NormalItems(items)
  }

  lemma {:induction false} ItemsDecide(x: seq<Json>, keepX: bool, y: seq<Json>, keepY: bool)
    requires IsValue(Arr(x)) && IsValue(Arr(y))
    ensures Shown(Arr(x), keepX) == Shown(Arr(y), keepY) <==> SameText(Arr(x), keepX, Arr(y), keepY)
    decreases x
  {
    var p, q := ShownItems(x, keepX), ShownItems(y, keepY);
    assert Shown(Arr(x), keepX) == Arr(p) && Shown(Arr(y), keepY) == Arr(q);
    if |x| == |y| {
      forall i | 0 <= i < |x| ensures p[i] == q[i] <==> SameText(x[i], keepX, y[i], keepY) {
        ShownDecides(x[i], keepX, y[i], keepY);
      }
    }
  }

  /** For all values: the canonical texts are equal exactly if the values are equal up to the
      order of properties, where objects with a `toJSON` member keep theirs. */
  lemma CanonicalTextDecides(a: Json, b: Json)
    requires IsValue(a) && IsValue(b)
    ensures Canonicalize(a) == Canonicalize(b) <==> SameText(a, false, b, false)
  {
    NormalTidy(a);
    NormalTidy(b);
    StringifyInjective(Normal(a), Normal(b));
    ShownDecides(a, false, b, false);
  }

  // ---- Against equality up to order -----------------------------------------------------------

  /** Nothing is lost: one text means one value up to order, whatever it holds. */
  lemma {:induction false} SameTextIsSame(a: Json, keepA: bool, b: Json, keepB: bool)
    requires SameText(a, keepA, b, keepB)
    ensures Same(a, b)
    decreases a
  {
    match (a, b)
    case (Arr(x), Arr(y)) =>
      forall i | 0 <= i < |x| ensures Same(x[i], y[i]) {
        SameTextIsSame(x[i], keepA, y[i], keepB);
      }
    case (Obj(m), Obj(n)) =>
      var keepM, keepN := keepA || HasToJson(m), keepB || HasToJson(n);
      forall i | 0 <= i < |m| ensures Get(n, m[i].key).Some? && Same(m[i].value, Get(n, m[i].key).value) {
        SameTextIsSame(m[i].value, keepM, Get(n, m[i].key).value, keepN);
      }
    case _ =>
  }

  /** No object in the value has a `toJSON` member other than null. */
  predicate Plain(v: Json)
    decreases v
  {
    match v
    case Arr(items) => forall i :: 0 <= i < |items| ==> Plain(items[i])
    case Obj(members) => !HasToJson(members) && forall i :: 0 <= i < |members| ==> Plain(members[i].value)
    case _ => true
  }

  lemma PlainProperty(n: seq<Member>, key: Text)
    requires Plain(Obj(n)) && Get(n, key).Some?
    ensures Plain(Get(n, key).value)
  {
  }

  lemma {:induction false} PlainSameText(a: Json, b: Json)
    requires Plain(a) && Plain(b) && Same(a, b)
    ensures SameText(a, false, b, false)
    decreases a
  {
    match (a, b)
    case (Arr(x), Arr(y)) =>
      forall i | 0 <= i < |x| ensures SameText(x[i], false, y[i], false) {
        PlainSameText(x[i], y[i]);
      }
    case (Obj(m), Obj(n)) =>
      forall i | 0 <= i < |m|
        ensures Get(n, m[i].key).Some? && SameText(m[i].value, false, Get(n, m[i].key).value, false)
      {
        PlainProperty(n, m[i].key);
        PlainSameText(m[i].value, Get(n, m[i].key).value);
      }
    case _ =>
  }

  /** The canonical text is the one text for the canonical form that is no longer than any other
      and spells its escapes in lower case: it holds no white space and no needless escape. */
  lemma CanonicalIsShortest(v: Json, t: Text)
    requires IsValue(v)
    ensures IsTextOf(Canonicalize(v), Normal(v)) && LowerEscapes(Canonicalize(v))
    ensures IsTextOf(t, Normal(v)) ==> |Canonicalize(v)| <= |t|
    ensures IsTextOf(t, Normal(v)) && |t| == |Canonicalize(v)| && LowerEscapes(t) ==> t == Canonicalize(v)
  {
    NormalTidy(v);
    StringifyIsShortest(Normal(v), t);
  }

  /** Without `toJSON` members the order of properties never matters, and nothing else is ignored;
      in general only the second half holds. */
  lemma OrderIsIgnored(a: Json, b: Json)
    requires IsValue(a) && IsValue(b)
    ensures Canonicalize(a) == Canonicalize(b) ==> Same(a, b)
    ensures Plain(a) && Plain(b) && Same(a, b) ==> Canonicalize(a) == Canonicalize(b)
  {
    CanonicalTextDecides(a, b);
    if SameText(a, false, b, false) { SameTextIsSame(a, false, b, false); }
    if Plain(a) && Plain(b) && Same(a, b) { PlainSameText(a, b); }
  }

  /** Two orders of the same two properties, with their texts apart, inside an array as well. An
      object keeps its array indices in front, so x is none. */
  lemma ToJsonBreaksOrder(x: Text)
    requires x != TO_JSON && !IsIndex(x)
    ensures var first, second := Member(TO_JSON, Bool(true)), Member(x, Bool(true));
            var a, b := Obj([first, second]), Obj([second, first]);
            && IsValue(a) && IsValue(b) && Same(a, b) && Canonicalize(a) != Canonicalize(b)
            && Canonicalize(Arr([a])) != Canonicalize(Arr([b]))
  {
    var first, second := Member(TO_JSON, Bool(true)), Member(x, Bool(true));
    var m, n := [first, second], [second, first];
    GetDistinct(m, 0);
    GetDistinct(n, 1);
    SwappedSame(first, second);
    KeptApart(m, n);
    CanonicalTextDecides(Obj(m), Obj(n));
    ApartInArrays(Obj(m), Obj(n));
  }

  lemma ApartInArrays(a: Json, b: Json)
    requires IsValue(a) && IsValue(b) && !SameText(a, false, b, false)
    ensures Canonicalize(Arr([a])) != Canonicalize(Arr([b]))
  {
    var x, y := [a], [b];
    assert x[0] == a && y[0] == b;
    assert !SameText(Arr(x), false, Arr(y), false);
    CanonicalTextDecides(Arr(x), Arr(y));
  }

  lemma SwappedSame(first: Member, second: Member)
    requires first.key != second.key && first.value.Bool? && second.value.Bool?
    ensures var a, b := Obj([first, second]), Obj([second, first]);
            IsValue(a) && IsValue(b) && Same(a, b)
  {
    GetDistinct([second, first], 0);
    GetDistinct([second, first], 1);
  }

  /** Where the order is kept, other names at one place make other texts. */
  lemma KeptApart(m: seq<Member>, n: seq<Member>)
    requires HasToJson(m) && HasToJson(n) && |m| == |n| > 0 && m[0].key != n[0].key
    ensures !SameText(Obj(m), false, Obj(n), false)
  {
  }
}
