/** The serializer as it runs: one shared buffer that nested calls append to. */
module JcsWriter {
  import opened Wrappers
  import opened Utf16
  import opened Json
  import opened Jcs

  /** What is written between two neighbours: nothing in front of the first. */
  function Separator(i: nat): Text {
    if i > 0 then [COMMA] else []
  }

  lemma Regroup(prefix: Text, x: Text, separator: Text, y: Text)
    ensures prefix + x + separator + y == prefix + (x + separator + y)
  {
  }

  lemma ItemsUnfold(items: seq<Json>)
    requires |items| > 1
    ensures StringifyItems(items) == Stringify(items[0]) + [COMMA] + StringifyItems(items[1..])
  {
  }

  lemma ItemsSingle(v: Json)
    ensures StringifyItems([v]) == Stringify(v)
  {
  }

  lemma {:induction false} ItemStep(items: seq<Json>, i: nat)
    requires i < |items|
    ensures StringifyItems(items[..i + 1]) == StringifyItems(items[..i]) + Separator(i) + Stringify(items[i])
  {
    if i == 0 {
      assert items[..1] == [items[0]];
      ItemsSingle(items[0]);
    } else {
      var tail := items[1..];
      ItemStep(tail, i - 1);
      ItemsUnfold(items[..i + 1]);
      assert items[..i + 1][1..] == tail[..i];
      if i == 1 {
        assert items[..1] == [items[0]] && tail[..1] == [items[1]];
        ItemsSingle(items[0]);
        ItemsSingle(items[1]);
      } else {
        ItemsUnfold(items[..i]);
        assert items[..i][1..] == tail[..i - 1];
        RegroupBoth(Stringify(items[0]), StringifyItems(tail[..i - 1]), Stringify(items[i]));
      }
    }
  }

  lemma MembersUnfold(members: seq<Member>)
    requires |members| > 1
    ensures StringifyMembers(members) == StringifyMember(members[0]) + [COMMA] + StringifyMembers(members[1..])
  {
  }

  lemma MembersSingle(m: Member)
    ensures StringifyMembers([m]) == StringifyMember(m)
  {
  }

  lemma RegroupBoth(x: Text, a: Text, b: Text)
    ensures x + [COMMA] + (a + [COMMA] + b) == x + [COMMA] + a + [COMMA] + b
  {
  }

  lemma {:induction false} MemberStep(members: seq<Member>, i: nat)
    requires i < |members|
    ensures StringifyMembers(members[..i + 1]) ==
            StringifyMembers(members[..i]) + Separator(i) + StringifyMember(members[i])
  {
    if i == 0 {
      assert members[..1] == [members[0]];
    } else {
      var tail := members[1..];
      MemberStep(tail, i - 1);
      MembersUnfold(members[..i + 1]);
      assert members[..i + 1][1..] == tail[..i];
      if i == 1 {
        assert members[..1] == [members[0]] && tail[..1] == [members[1]];
        MembersSingle(members[0]);
        MembersSingle(members[1]);
      } else {
        MembersUnfold(members[..i]);
        assert members[..i][1..] == tail[..i - 1];
        RegroupBoth(StringifyMember(members[0]), StringifyMembers(tail[..i - 1]), StringifyMember(members[i]));
      }
    }
  }

  lemma {:induction false} NormalInsert(m: Member, sorted: seq<Member>)
    ensures NormalMembers(Insert(m, sorted)) == Insert(Member(m.key, Normal(m.value)), NormalMembers(sorted))
  {
    if sorted != [] && !Less(m.key, sorted[0].key) {
      NormalInsert(m, sorted[1..]);
      assert NormalMembers(sorted)[1..] == NormalMembers(sorted[1..]);
    } else {
      assert NormalMembers([m] + sorted) == [Member(m.key, Normal(m.value))] + NormalMembers(sorted);
    }
  }

  /** Sorting before or after canonicalising the property values makes no difference. */
  lemma {:induction false} NormalSort(members: seq<Member>)
    ensures NormalMembers(Sort(members)) == Sort(NormalMembers(members))
  {
    if members != [] {
      NormalSort(members[1..]);
      NormalInsert(members[0], Sort(members[1..]));
      assert NormalMembers(members)[1..] == NormalMembers(members[1..]);
    }
  }

  lemma SortedLookup(members: seq<Member>, i: nat)
    requires DistinctKeys(members) && i < |Sort(members)|
    ensures Get(members, Sort(members)[i].key) == Some(Sort(members)[i].value)
  {
    SortSorts(members);
    assert Sort(members)[i] in Elements(Sort(members));
    assert Sort(members)[i] in Elements(members);
    var j :| 0 <= j < |members| && members[j] == Sort(members)[i];
    GetDistinct(members, j);
  }

  lemma SortedIsValue(members: seq<Member>, i: nat)
    requires IsValue(Obj(members)) && i < |Sort(members)|
    ensures IsValue(Sort(members)[i].value) && Sort(members)[i].value < Obj(members)
  {
    SortSorts(members);
    assert Sort(members)[i] in Elements(Sort(members));
    assert Sort(members)[i] in Elements(members);
    var j :| 0 <= j < |members| && members[j] == Sort(members)[i];
    assert members[j].value < Obj(members);
  }

  lemma RegroupMember(prefix: Text, name: Text, value: Text)
    ensures prefix + name + [COLON] + value == prefix + (name + [COLON] + value)
  {
  }

  lemma ItemWritten(prefix: Text, items: seq<Json>, i: nat)
    requires i < |items|
    ensures prefix + StringifyItems(items[..i]) + Separator(i) + Stringify(items[i]) ==
            prefix + StringifyItems(items[..i + 1])
  {
    ItemStep(items, i);
    Regroup(prefix, StringifyItems(items[..i]), Separator(i), Stringify(items[i]));
  }

  lemma MemberWritten(prefix: Text, members: seq<Member>, i: nat)
    requires i < |members|
    ensures prefix + StringifyMembers(members[..i]) + Separator(i)
            + Quote(members[i].key) + [COLON] + Stringify(members[i].value) ==
            prefix + StringifyMembers(members[..i + 1])
  {
    var before := prefix + StringifyMembers(members[..i]) + Separator(i);
    MemberStep(members, i);
    RegroupMember(before, Quote(members[i].key), Stringify(members[i].value));
    Regroup(prefix, StringifyMembers(members[..i]), Separator(i), StringifyMember(members[i]));
  }

  lemma SortedText(v: Json)
    requires v.Obj? && !HasToJson(v.members)
    ensures Canonicalize(v) == [LBRACE] + StringifyMembers(NormalMembers(Sort(v.members))) + [RBRACE]
  {
    NormalSort(v.members);
  }

  lemma ItemsText(v: Json)
    requires v.Arr?
    ensures Canonicalize(v) == [LBRACKET] + StringifyItems(NormalItems(v.items)) + [RBRACKET]
  {
  }

  lemma RegroupInner(prefix: Text, open: Unit, inner: Text, close: Unit)
    ensures prefix + [open] + inner + [close] == prefix + ([open] + inner + [close])
  {
  }

  /** The property names of an object in the order of `sort`. */
  function SortedNames(members: seq<Member>): (names: seq<Text>)
    ensures |names| == |Sort(members)|
    ensures forall i :: 0 <= i < |names| ==> names[i] == Sort(members)[i].key
  {
    var sorted := Sort(members);
    seq(|sorted|, i requires 0 <= i < |sorted| => sorted[i].key)
  }

  class Serializer {
    var buffer: Text

    constructor ()
      ensures buffer == []
    {
      buffer := [];
    }

    method Serialize(v: Json)
      requires IsValue(v)
      modifies this
      ensures buffer == old(buffer) + Canonicalize(v)
      decreases v, 1
    {
      match v
      case Arr(items) => SerializeItems(v);
      case Obj(members) =>
        var toJson := Get(members, Lit("toJSON"));
        if toJson.Some? && toJson != Some(Null) {
          StringifyErase(v);
          buffer := buffer + Stringify(v);
        } else {
          SerializeMembers(v);
        }
      case _ => buffer := buffer + Stringify(v);
    }

    method SerializeItems(v: Json)
      requires v.Arr? && IsValue(v)
      modifies this
      ensures buffer == old(buffer) + Canonicalize(v)
      decreases v, 0
    {
      ghost var start := buffer;
      ghost var normal := NormalItems(v.items);
      buffer := buffer + [LBRACKET];
      var next := false;
      for i := 0 to |v.items|
        invariant next == (i > 0)
        invariant buffer == start + [LBRACKET] + StringifyItems(normal[..i])
      {
        ghost var before := buffer;
        if next {
          buffer := buffer + [COMMA];
        }
        next := true;
        Serialize(v.items[i]);
        assert buffer == before + Separator(i) + Stringify(normal[i]);
        ItemWritten(start + [LBRACKET], normal, i);
      }
      assert normal[..|v.items|] == normal;
      buffer := buffer + [RBRACKET];
      ItemsText(v);
      RegroupInner(start, LBRACKET, StringifyItems(normal), RBRACKET);
    }

    method SerializeMembers(v: Json)
      requires v.Obj? && !HasToJson(v.members) && IsValue(v)
      modifies this
      ensures buffer == old(buffer) + Canonicalize(v)
      decreases v, 0
    {
      ghost var start := buffer;
      ghost var normal := NormalMembers(Sort(v.members));
      buffer := buffer + [LBRACE];
      var next := false;
      var names := SortedNames(v.members);
      for i := 0 to |names|
        invariant next == (i > 0)
        invariant buffer == start + [LBRACE] + StringifyMembers(normal[..i])
      {
        ghost var before := buffer;
        if next {
          buffer := buffer + [COMMA];
        }
        next := true;
        SortedLookup(v.members, i);
        var value := Get(v.members, names[i]).value;
        SortedIsValue(v.members, i);
        buffer := buffer + Quote(names[i]);
        buffer := buffer + [COLON];
        Serialize(value);
        assert buffer == before + Separator(i) + Quote(normal[i].key) + [COLON] + Stringify(normal[i].value);
        MemberWritten(start + [LBRACE], normal, i);
      }
      assert normal[..|names|] == normal;
      buffer := buffer + [RBRACE];
      SortedText(v);
      RegroupInner(start, LBRACE, StringifyMembers(normal), RBRACE);
    }
  }

  /** `jcsCanonicalize`: a fresh buffer, one call of the serializer. */
  method JcsCanonicalize(v: Json) returns (text: Text)
    requires IsValue(v)
    ensures text == Canonicalize(v)
  {
    var serializer := new Serializer();
    serializer.Serialize(v);
    text := serializer.buffer;
  }
}
