/** Deserializing what was serialized gives the typed part of the data back. */
module SerializerRoundTrip {
  import opened Wrappers
  import opened TypeStrings
  import opened ObjectSerializer

  // ---- Well-formed type maps and well-typed data ----------------------------------------------

  ghost predicate DistinctAttributes(attributes: seq<Attribute>) {
    forall i, j :: 0 <= i < j < |attributes| ==>
      attributes[i].name != attributes[j].name && attributes[i].baseName != attributes[j].baseName
  }

  ghost predicate ProperAttributes(attributes: seq<Attribute>) {
    DistinctAttributes(attributes) && forall a <- attributes :: IsType(a.attributeType)
  }

  /** What the generated type map satisfies: plain model names, discriminators that lead to models,
      proper attribute types and distinct names on either side. */
  ghost predicate IsTypeMap(models: Models) {
    IsClosed(models) && forall name <- models :: ProperAttributes(models[name].attributes)
  }

  /** The attributes of the class that the data is serialized as. */
  function AttributesOf(d: Value, name: string, models: Models): seq<Attribute>
    requires name in models
  {
    var correct := FindCorrectType(d, name, models);
    if correct in models then models[correct].attributes else []
  }

  /** The data fits the type; absent and null values fit every type. */
  ghost predicate HasType(d: Value, t: Type, models: Models)
    decreases d, t
  {
    Missing(d) ||
    match t
    case Primitive(_) => true
    case Date => d.DateValue?
    case Nullable(inner) => HasType(d, inner, models)
    case Optional(inner) => HasType(d, inner, models)
    case ArrayOf(inner) => d.Arr? && forall i :: 0 <= i < |d.items| ==> HasType(d.items[i], inner, models)
    case MapOf(inner) => d.Obj? && forall key <- d.props :: HasType(d.props[key], inner, models)
    case Name(name) =>
      name in models ==>
        d.Obj? && forall a <- AttributesOf(d, name, models) ::
                    a.name in d.props ==> HasType(d.props[a.name], a.attributeType, models)
  }

  /** The name of an attribute: the one it is sent under, or its own. */
  function NameOf(a: Attribute, sent: bool): string {
    if sent then a.baseName else a.name
  }

  /** The attribute with a name. */
  function AttributeWith(attributes: seq<Attribute>, name: string, sent: bool): (r: Option<Attribute>)
    ensures r.Some? ==> r.value in attributes && NameOf(r.value, sent) == name
    ensures r.None? ==> forall a <- attributes :: NameOf(a, sent) != name
  {
    if attributes == [] then None
    else if NameOf(attributes[0], sent) == name then Some(attributes[0])
    else AttributeWith(attributes[1..], name, sent)
  }

  /** The part of the data that survives: in a class, undeclared attributes and `undefined` go,
      and a date in the calendar format becomes midnight UTC of its local day. */
  function Project(d: Value, t: Type, format: string, models: Models, dates: Dates): (r: Value)
    ensures r == Undefined <==> d == Undefined
    decreases d, 2, t
  {
    if Missing(d) then d
    else match t
         case Date =>
           if d.DateValue? && format == "date" then DateValue(LocalDay(d.time, dates) * DAY) else d
         case Nullable(inner) => Project(d, inner, format, models, dates)
         case Optional(inner) => Project(d, inner, format, models, dates)
         case ArrayOf(inner) => if d.Arr? then Arr(ProjectItems(d.items, inner, format, models, dates)) else d
         case MapOf(inner) =>
           if d.Obj? then Obj(ProjectProps(d, inner, format, models, dates)) else d
         case Name(name) =>
           if name in models && d.Obj? then ProjectModel(d, AttributesOf(d, name, models), models, dates) else d
         case _ => d
  }

  function ProjectItems(items: seq<Value>, inner: Type, format: string, models: Models, dates: Dates): (r: seq<Value>)
    ensures |r| == |items| && forall i :: 0 <= i < |items| ==> r[i] == Project(items[i], inner, format, models, dates)
    decreases items, 1, inner
  {
    if items == [] then []
    else
      ProjectItems(items[..|items| - 1], inner, format, models, dates) +
      [Project(items[|items| - 1], inner, format, models, dates)]
  }

  function ProjectProps(d: Value, inner: Type, format: string, models: Models, dates: Dates): (r: map<string, Value>)
    requires d.Obj?
    ensures r.Keys == d.props.Keys
    decreases d, 1, inner
  {
    map key | key in d.props :: Project(d.props[key], inner, format, models, dates)
  }

  function ProjectModel(d: Value, attributes: seq<Attribute>, models: Models, dates: Dates): Value
    requires d.Obj?
    decreases d, 1
  {
    Obj(map name | name in d.props && AttributeWith(attributes, name, false).Some? && d.props[name] != Undefined ::
          var a := AttributeWith(attributes, name, false).value;
          Project(d.props[name], a.attributeType, a.format, models, dates))
  }

  // ---- Discriminators -----------------------------------------------------------------------

  /** A value as it is sent, as far as its text goes: only dates become texts. */
  function TagText(v: Value, t: Type, format: string, dates: Dates): Value {
    match t
    case Nullable(inner) => TagText(v, inner, format, dates)
    case Optional(inner) => TagText(v, inner, format, dates)
    case Date => if v.DateValue? then Str(DateText(v.time, format, dates)) else v
    case _ => v
  }

  /** What the data holds for the attribute sent under the discriminator's name, if the class has
      one. */
  function DataTag(d: Value, attributes: seq<Attribute>, property: string, dates: Dates): Value {
    match AttributeWith(attributes, property, true)
    case None => Undefined
    case Some(a) => TagText(Prop(d, a.name), a.attributeType, a.format, dates)
  }

  /** That picks the class which the data's property of the discriminator's name picks. */
  predicate KeepsClass(d: Value, name: string, models: Models, dates: Dates)
    requires name in models
  {
    match models[name].discriminator
    case None => true
    case Some(property) =>
      ClassOf(DataTag(d, AttributesOf(d, name, models), property, dates), name, models) ==
      ClassOf(Prop(d, property), name, models)
  }

  /** Every object keeps its class, at every depth. */
  ghost predicate KeepsClasses(d: Value, t: Type, models: Models, dates: Dates)
    decreases d, t
  {
    Missing(d) ||
    match t
    case Nullable(inner) => KeepsClasses(d, inner, models, dates)
    case Optional(inner) => KeepsClasses(d, inner, models, dates)
    case ArrayOf(inner) => d.Arr? ==> forall i :: 0 <= i < |d.items| ==> KeepsClasses(d.items[i], inner, models, dates)
    case MapOf(inner) => d.Obj? ==> forall key <- d.props :: KeepsClasses(d.props[key], inner, models, dates)
    case Name(name) =>
      name in models && d.Obj? ==>
        && KeepsClass(d, name, models, dates)
        && forall a <- AttributesOf(d, name, models) ::
             a.name in d.props ==> KeepsClasses(d.props[a.name], a.attributeType, models, dates)
    case _ => true
  }

  lemma {:induction false} PrimitiveSerializes(d: Value, a: Attribute, models: Models, dates: Dates)
    requires IsType(a.attributeType) && a.attributeType.Primitive?
    ensures SerializeAttribute(d, a, models, dates) == Some(Prop(d, a.name))
  {
    DispatchDecomposes(a.attributeType);
  }

  /** A tag that every model declares under its own name, as a primitive, is always kept. */
  lemma {:induction false} DeclaredTagKeepsClass(d: Value, name: string, models: Models, dates: Dates, tag: Attribute)
    requires IsTypeMap(models) && name in models && d.Obj? && models[name].discriminator == Some(tag.baseName)
    requires tag in AttributesOf(d, name, models) && tag.name == tag.baseName && tag.attributeType.Primitive?
    ensures KeepsClass(d, name, models, dates)
  {
    var attributes := AttributesOf(d, name, models);
    CorrectType(d, name, models);
    var sent := AttributeWith(attributes, tag.baseName, true).value;
    var i :| 0 <= i < |attributes| && attributes[i] == sent;
    var j :| 0 <= j < |attributes| && attributes[j] == tag;
    assert ProperAttributes(attributes);
    assert i == j;
  }

  // ---- The round trip -----------------------------------------------------------------------

  /** Serializing at a type succeeds, keeps absence, and deserializing at it gives `d` projected. */
  ghost predicate ComesBack(d: Value, t: Type, format: string, models: Models, dates: Dates)
    requires IsClosed(models)
  {
    var s := Serialize(d, Print(t), format, models, dates);
    && s.Some?
    && (s.value == Undefined <==> d == Undefined) && (Missing(s.value) <==> Missing(d))
    && Deserialize(s.value, Print(t), models, dates) == Some(Project(d, t, format, models, dates))
  }

  lemma {:induction false} RoundTrip(d: Value, t: Type, format: string, models: Models, dates: Dates)
    requires IsTypeMap(models) && LawfulDates(dates) && IsType(t)
    requires HasType(d, t, models) && KeepsClasses(d, t, models, dates)
    ensures ComesBack(d, t, format, models, dates)
    decreases d, 2, t
  {
    if Missing(d) {
    } else if t.Nullable? || t.Optional? {
      RoundTrip(d, t.inner, format, models, dates);
      WrapperComesBack(d, t, format, models, dates);
    } else if t.ArrayOf? {
      ItemsRoundTrip(d.items, t.inner, format, models, dates);
      ArrayComesBack(d, t.inner, format, models, dates);
    } else if t.MapOf? {
      forall key | key in d.props ensures ComesBack(d.props[key], t.inner, format, models, dates) {
        RoundTrip(d.props[key], t.inner, format, models, dates);
      }
      MapComesBack(d, t.inner, format, models, dates);
    } else if t.Name? && t.name in models {
      ModelRoundTrip(d, t.name, format, models, dates);
    } else {
      LeafComesBack(d, t, format, models, dates);
    }
  }

  lemma {:induction false} LeafComesBack(d: Value, t: Type, format: string, models: Models, dates: Dates)
    requires IsClosed(models) && LawfulDates(dates) && IsType(t) && !Missing(d)
    requires t.Primitive? || (t.Date? && d.DateValue?) || (t.Name? && t.name !in models)
    ensures ComesBack(d, t, format, models, dates)
  {
    DispatchDecomposes(t);
  }

  lemma {:induction false} WrapperComesBack(d: Value, t: Type, format: string, models: Models, dates: Dates)
    requires IsClosed(models) && IsType(t) && (t.Nullable? || t.Optional?) && !Missing(d)
    requires ComesBack(d, t.inner, format, models, dates)
    ensures ComesBack(d, t, format, models, dates)
  {
    DispatchDecomposes(t);
  }

  lemma {:induction false} ArrayComesBack(d: Value, inner: Type, format: string, models: Models, dates: Dates)
    requires IsClosed(models) && IsType(inner) && d.Arr?
    requires var s := SerializeItems(d.items, Print(inner), format, models, dates);
             && s.Some?
             && DeserializeItems(s.value, Print(inner), models, dates) ==
                Some(ProjectItems(d.items, inner, format, models, dates))
    ensures ComesBack(d, ArrayOf(inner), format, models, dates)
  {
    DispatchDecomposes(ArrayOf(inner));
  }

  lemma {:induction false} ItemsRoundTrip(items: seq<Value>, inner: Type, format: string, models: Models, dates: Dates)
    requires IsTypeMap(models) && LawfulDates(dates) && IsType(inner)
    requires forall i :: 0 <= i < |items| ==>
               HasType(items[i], inner, models) && KeepsClasses(items[i], inner, models, dates)
    ensures var s := SerializeItems(items, Print(inner), format, models, dates);
            && s.Some?
            && DeserializeItems(s.value, Print(inner), models, dates) ==
               Some(ProjectItems(items, inner, format, models, dates))
    decreases items, 1, inner
  {
    if items != [] {
      var front, last := items[..|items| - 1], items[|items| - 1];
      ItemsRoundTrip(front, inner, format, models, dates);
      RoundTrip(last, inner, format, models, dates);
      var s := SerializeItems(items, Print(inner), format, models, dates).value;
      assert s[..|s| - 1] == SerializeItems(front, Print(inner), format, models, dates).value;
    }
  }

  lemma {:induction false} MapSerializes(d: Value, inner: Type, format: string, models: Models, dates: Dates,
                                         s: map<string, Value>)
    requires d.Obj? && IsType(inner) && s.Keys == d.props.Keys
    requires forall key <- d.props :: Serialize(d.props[key], Print(inner), format, models, dates) == Some(s[key])
    ensures Serialize(d, Print(MapOf(inner)), format, models, dates) == Some(Obj(s))
  {
    DispatchDecomposes(MapOf(inner));
    CollectAll(SerializedProps(d, Print(inner), format, models, dates), s);
  }

  lemma {:induction false} MapDeserializes(s: map<string, Value>, inner: Type, models: Models, dates: Dates,
                                           back: map<string, Value>)
    requires IsClosed(models) && IsType(inner) && s.Keys == back.Keys
    requires forall key <- s :: Deserialize(s[key], Print(inner), models, dates) == Some(back[key])
    ensures Deserialize(Obj(s), Print(MapOf(inner)), models, dates) == Some(Obj(back))
  {
    DispatchDecomposes(MapOf(inner));
    CollectAll(DeserializedProps(Obj(s), Print(inner), models, dates), back);
  }

  lemma {:induction false} MapComesBack(d: Value, inner: Type, format: string, models: Models, dates: Dates)
    requires IsClosed(models) && IsType(inner) && d.Obj?
    requires forall key <- d.props :: ComesBack(d.props[key], inner, format, models, dates)
    ensures ComesBack(d, MapOf(inner), format, models, dates)
  {
    var s := map key | key in d.props :: Serialize(d.props[key], Print(inner), format, models, dates).value;
    MapSerializes(d, inner, format, models, dates, s);
    MapDeserializes(s, inner, models, dates, ProjectProps(d, inner, format, models, dates));
  }

  ghost predicate Holds(instance: map<string, Value>, d: Value, a: Attribute, models: Models, dates: Dates) {
    a.baseName in instance && SerializeAttribute(d, a, models, dates) == Some(instance[a.baseName])
  }

  lemma {:induction false} AttributesSerialized(d: Value, attributes: seq<Attribute>, models: Models, dates: Dates)
    requires d.Obj? && DistinctAttributes(attributes)
    requires forall i :: 0 <= i < |attributes| ==> SerializeAttribute(d, attributes[i], models, dates).Some?
    ensures var r := SerializeAttributes(d, attributes, models, dates);
            r.Some? && forall i :: 0 <= i < |attributes| ==> Holds(r.value.props, d, attributes[i], models, dates)
  {
    if attributes != [] {
      var front, last := attributes[..|attributes| - 1], attributes[|attributes| - 1];
      AttributesSerialized(d, front, models, dates);
      var before := SerializeAttributes(d, front, models, dates).value.props;
      var v := SerializeAttribute(d, last, models, dates).value;
      forall i | 0 <= i < |attributes| ensures Holds(before[last.baseName := v], d, attributes[i], models, dates) {
        if i < |front| { assert Holds(before, d, front[i], models, dates); }
      }
    }
  }

  lemma {:induction false} OnlyBaseNames(d: Value, attributes: seq<Attribute>, models: Models, dates: Dates,
                                         key: string)
    requires d.Obj? && SerializeAttributes(d, attributes, models, dates).Some?
    requires key in SerializeAttributes(d, attributes, models, dates).value.props
    ensures AttributeWith(attributes, key, true).Some?
  {
    var front, last := attributes[..|attributes| - 1], attributes[|attributes| - 1];
    assert last in attributes;
    if last.baseName != key {
      OnlyBaseNames(d, front, models, dates, key);
      var a := AttributeWith(front, key, true).value;
      assert a in attributes;
    }
  }

  /** As tags the two are alike: if one is a text, both are that text. */
  predicate SameTag(a: Value, b: Value) {
    a.Str? || b.Str? ==> a == b
  }

  lemma {:induction false} SentAsTagText(v: Value, t: Type, format: string, models: Models, dates: Dates)
    requires IsType(t)
    ensures var s := Serialize(v, Print(t), format, models, dates);
            s.Some? ==> SameTag(s.value, TagText(v, t, format, dates))
  {
    DispatchDecomposes(t);
    match t
    case Nullable(inner) => SentAsTagText(v, inner, format, models, dates);
    case Optional(inner) => SentAsTagText(v, inner, format, models, dates);
    case _ =>
  }

  lemma {:induction false} SerializedTag(d: Value, attributes: seq<Attribute>, property: string, models: Models,
                                         dates: Dates, s: Value)
    requires d.Obj? && s.Obj? && ProperAttributes(attributes)
    requires SerializeAttributes(d, attributes, models, dates) == Some(s)
    requires forall i :: 0 <= i < |attributes| ==> SerializeAttribute(d, attributes[i], models, dates).Some?
    ensures SameTag(Prop(s, property), DataTag(d, attributes, property, dates))
  {
    AttributesSerialized(d, attributes, models, dates);
    var sent := AttributeWith(attributes, property, true);
    if sent.Some? {
      var a := sent.value;
      var i :| 0 <= i < |attributes| && attributes[i] == a;
      assert Holds(s.props, d, attributes[i], models, dates);
      SentAsTagText(Prop(d, a.name), a.attributeType, a.format, models, dates);
    } else if property in s.props {
      OnlyBaseNames(d, attributes, models, dates, property);
    }
  }

  lemma {:induction false} SerializedClass(d: Value, name: string, models: Models, dates: Dates, s: Value)
    requires IsTypeMap(models) && name in models && d.Obj? && s.Obj?
    requires var attributes := AttributesOf(d, name, models);
             && SerializeAttributes(d, attributes, models, dates) == Some(s)
             && forall i :: 0 <= i < |attributes| ==> SerializeAttribute(d, attributes[i], models, dates).Some?
    ensures FindCorrectType(s, name, models) == FindCorrectType(d, name, models) <==> KeepsClass(d, name, models, dates)
  {
    CorrectType(d, name, models);
    PlainIsNoBuiltin(name);
    match models[name].discriminator
    case None =>
    case Some(property) => SerializedTag(d, AttributesOf(d, name, models), property, models, dates, s);
  }

  lemma {:induction false} WellTypedSerializes(d: Value, t: Type, format: string, models: Models, dates: Dates)
    requires IsTypeMap(models) && IsType(t) && HasType(d, t, models)
    ensures Serialize(d, Print(t), format, models, dates).Some?
    decreases d, 2, t
  {
    DispatchDecomposes(t);
    if !Missing(d) {
      match t
      case Nullable(inner) => WellTypedSerializes(d, inner, format, models, dates);
      case Optional(inner) => WellTypedSerializes(d, inner, format, models, dates);
      case ArrayOf(inner) => WellTypedItemsSerialize(d.items, inner, format, models, dates);
      case MapOf(inner) =>
        forall key | key in d.props ensures Serialize(d.props[key], Print(inner), format, models, dates).Some? {
          WellTypedSerializes(d.props[key], inner, format, models, dates);
        }
      case Name(name) =>
        if name in models {
          CorrectType(d, name, models);
          WellTypedModelSerializes(d, name, models, dates);
        }
      case _ =>
    }
  }

  lemma {:induction false} WellTypedItemsSerialize(items: seq<Value>, inner: Type, format: string, models: Models,
                                                   dates: Dates)
    requires IsTypeMap(models) && IsType(inner) && forall i :: 0 <= i < |items| ==> HasType(items[i], inner, models)
    ensures SerializeItems(items, Print(inner), format, models, dates).Some?
    decreases items, 1, inner
  {
    if items != [] {
      WellTypedItemsSerialize(items[..|items| - 1], inner, format, models, dates);
      WellTypedSerializes(items[|items| - 1], inner, format, models, dates);
    }
  }

  lemma {:induction false} WellTypedModelSerializes(d: Value, name: string, models: Models, dates: Dates)
    requires IsTypeMap(models) && name in models && d.Obj? && HasType(d, Name(name), models)
    ensures var attributes := AttributesOf(d, name, models);
            && SerializeAttributes(d, attributes, models, dates).Some?
            && forall i :: 0 <= i < |attributes| ==> SerializeAttribute(d, attributes[i], models, dates).Some?
    decreases d, 1
  {
    var attributes := AttributesOf(d, name, models);
    CorrectType(d, name, models);
    forall i | 0 <= i < |attributes| ensures SerializeAttribute(d, attributes[i], models, dates).Some? {
      var a := attributes[i];
      assert a in attributes && IsType(a.attributeType);
      if Prop(d, a.name) != Undefined {
        WellTypedSerializes(d.props[a.name], a.attributeType, a.format, models, dates);
      }
    }
    AttributesSerialized(d, attributes, models, dates);
  }

  /** A well-typed object is deserialized as the class it was serialized as exactly if the data for
      the tag to be sent picks that class too. */
  lemma {:induction false} ClassSurvivesIff(d: Value, name: string, format: string, models: Models, dates: Dates)
    requires IsTypeMap(models) && name in models && d.Obj? && HasType(d, Name(name), models)
    ensures var s := Serialize(d, Print(Name(name)), format, models, dates);
            && s.Some? && s.value.Obj?
            && (FindCorrectType(s.value, name, models) == FindCorrectType(d, name, models) <==>
                KeepsClass(d, name, models, dates))
  {
    DispatchDecomposes(Name(name));
    CorrectType(d, name, models);
    WellTypedModelSerializes(d, name, models, dates);
    SerializedClass(d, name, models, dates, SerializeAttributes(d, AttributesOf(d, name, models), models, dates).value);
  }

  /** Two classes, one picked by a tag that it does not declare. */
  function Tagged(base: string, sub: string, kind: string, tag: string, x: string): Models {
    map[base := Model(Some(kind), map[tag := sub], []),
        sub := Model(None, map[], [Attribute(x, x, Primitive("any"), "")])]
  }

  lemma AnyIsPrimitive()
    ensures IsType(Primitive("any")) && Dispatch("any") == AsPrimitive
  {
    PrimitivesAreLetters();
    assert ToLower("any") == "any";
  }

  lemma TaggedIsTypeMap(base: string, sub: string, kind: string, tag: string, x: string)
    requires IsPlainName(base) && IsPlainName(sub) && base != sub
    ensures IsTypeMap(Tagged(base, sub, kind, tag, x))
  {
    AnyIsPrimitive();
    var models := Tagged(base, sub, kind, tag, x);
    assert models[base].attributes == [] && |models[sub].attributes| == 1;
  }

  lemma {:induction false} OneAttributeSerializes(d: Value, a: Attribute, models: Models, dates: Dates)
    requires d.Obj? && a.attributeType == Primitive("any")
    ensures SerializeAttributes(d, [a], models, dates) == Some(Obj(map[][a.baseName := Prop(d, a.name)]))
  {
    AnyIsPrimitive();
    assert [a][..0] == [];
    PrimitiveSerializes(d, a, models, dates);
  }

  lemma {:induction false} TaggedClasses(base: string, sub: string, kind: string, tag: string, x: string, text: string)
    requires IsPlainName(base) && base != sub && sub != "" && tag != "" && kind != x
    ensures var models := Tagged(base, sub, kind, tag, x);
            && FindCorrectType(Obj(map[kind := Str(tag), x := Str(text)]), base, models) == sub
            && FindCorrectType(Obj(map[x := Str(text)]), base, models) == base
  {
    PlainIsNoBuiltin(base);
  }

  /** An object whose class does not send the tag comes back as the base class, with nothing in
      it, for any names. */
  lemma {:induction false} LostTagLosesClass(base: string, sub: string, kind: string, tag: string, x: string,
                                             text: string, dates: Dates)
    requires IsPlainName(base) && IsPlainName(sub) && base != sub && sub != "" && tag != "" && kind != x
    ensures var models := Tagged(base, sub, kind, tag, x);
            var d, s := Obj(map[kind := Str(tag), x := Str(text)]), Obj(map[x := Str(text)]);
            && IsTypeMap(models) && !KeepsClass(d, base, models, dates)
            && Serialize(d, base, "", models, dates) == Some(s)
            && Deserialize(s, base, models, dates) == Some(Obj(map[]))
  {
    var models := Tagged(base, sub, kind, tag, x);
    var d, s := Obj(map[kind := Str(tag), x := Str(text)]), Obj(map[x := Str(text)]);
    var a := Attribute(x, x, Primitive("any"), "");
    TaggedIsTypeMap(base, sub, kind, tag, x);
    TaggedClasses(base, sub, kind, tag, x, text);
    assert models[sub].attributes == [a] && models[base].attributes == [];
    OneAttributeSerializes(d, a, models, dates);
    assert AttributeWith([a], kind, true) == None;
  }

  lemma PlainIsNoBuiltin(name: string)
    requires IsPlainName(name)
    ensures !IsPrimitive(name) && name != "Date"
  {
  }

  /** The value an attribute must come back with. */
  ghost function Returned(d: Value, a: Attribute, models: Models, dates: Dates): Value {
    var v := Prop(d, a.name);
    if v == Undefined then Undefined else Project(v, a.attributeType, a.format, models, dates)
  }

  lemma NamedInPrefix(attributes: seq<Attribute>, name: string)
    requires attributes != [] && DistinctAttributes(attributes)
    ensures var front, last := attributes[..|attributes| - 1], attributes[|attributes| - 1];
            AttributeWith(attributes, name, false) ==
            if last.name == name then Some(last) else AttributeWith(front, name, false)
  {
    if |attributes| > 1 {
      NamedInPrefix(attributes[1..], name);
      assert attributes[1..][..|attributes| - 2] == attributes[..|attributes| - 1][1..];
    }
  }

  lemma {:induction false} AttributesReturned(d: Value, s: Value, attributes: seq<Attribute>, models: Models,
                                              dates: Dates)
    requires d.Obj? && s.Obj? && IsClosed(models) && DistinctAttributes(attributes)
    requires forall a <- attributes :: DeserializeAttribute(s, a, models, dates) == Some(Returned(d, a, models, dates))
    ensures DeserializeAttributes(s, attributes, models, dates) == Some(ProjectModel(d, attributes, models, dates))
  {
    if attributes != [] {
      var front, last := attributes[..|attributes| - 1], attributes[|attributes| - 1];
      AttributesReturned(d, s, front, models, dates);
      assert last in attributes;
      ProjectModelSnoc(d, attributes, models, dates);
    }
  }

  lemma {:induction false} ProjectModelSnoc(d: Value, attributes: seq<Attribute>, models: Models, dates: Dates)
    requires d.Obj? && attributes != [] && DistinctAttributes(attributes)
    ensures var front, last := attributes[..|attributes| - 1], attributes[|attributes| - 1];
            var v := Returned(d, last, models, dates);
            var before := ProjectModel(d, front, models, dates);
            ProjectModel(d, attributes, models, dates) ==
            if v == Undefined then before else Obj(before.props[last.name := v])
  {
    var front, last := attributes[..|attributes| - 1], attributes[|attributes| - 1];
    var v := Returned(d, last, models, dates);
    var before, after := ProjectModel(d, front, models, dates).props, ProjectModel(d, attributes, models, dates).props;
    var expected := if v == Undefined then before else before[last.name := v];
    forall name: string ensures SameAt(after, expected, name) {
      NamedInPrefix(attributes, name);
      if name == last.name { FrontLacks(attributes); }
    }
    SameEverywhere(after, expected);
  }

  ghost predicate SameAt(a: map<string, Value>, b: map<string, Value>, name: string) {
    (name in a <==> name in b) && (name in a && name in b ==> a[name] == b[name])
  }

  lemma SameEverywhere(a: map<string, Value>, b: map<string, Value>)
    requires forall name: string :: SameAt(a, b, name)
    ensures a == b
  {
    forall name: string ensures name in a <==> name in b {
      assert SameAt(a, b, name);
    }
    forall name | name in a ensures a[name] == b[name] {
      assert SameAt(a, b, name);
    }
  }

  lemma FrontLacks(attributes: seq<Attribute>)
    requires attributes != [] && DistinctAttributes(attributes)
    ensures AttributeWith(attributes[..|attributes| - 1], attributes[|attributes| - 1].name, false).None?
  {
    var front, last := attributes[..|attributes| - 1], attributes[|attributes| - 1];
    forall i | 0 <= i < |front| ensures front[i].name != last.name {
      assert front[i] == attributes[i];
    }
  }

  lemma {:induction false} ModelRoundTrip(d: Value, name: string, format: string, models: Models, dates: Dates)
    requires IsTypeMap(models) && LawfulDates(dates) && name in models && d.Obj? && IsPlainName(name)
    requires HasType(d, Name(name), models) && KeepsClasses(d, Name(name), models, dates)
    ensures ComesBack(d, Name(name), format, models, dates)
    decreases d, 1
  {
    var attributes := AttributesOf(d, name, models);
    CorrectType(d, name, models);
    forall i | 0 <= i < |attributes| ensures SerializeAttribute(d, attributes[i], models, dates).Some? {
      assert attributes[i] in attributes;
      AttributeRoundTrip(d, attributes[i], models, dates);
    }
    AttributesSerialized(d, attributes, models, dates);
    var s := SerializeAttributes(d, attributes, models, dates).value;
    forall a | a in attributes
      ensures DeserializeAttribute(s, a, models, dates) == Some(Returned(d, a, models, dates))
    {
      var i :| 0 <= i < |attributes| && attributes[i] == a;
      assert Holds(s.props, d, attributes[i], models, dates);
      AttributeRoundTrip(d, a, models, dates);
    }
    AttributesReturned(d, s, attributes, models, dates);
    SerializedClass(d, name, models, dates, s);
    InstanceComesBack(d, s, name, format, models, dates);
  }

  lemma {:induction false} InstanceComesBack(d: Value, s: Value, name: string, format: string, models: Models,
                                             dates: Dates)
    requires IsClosed(models) && name in models && d.Obj? && s.Obj? && IsPlainName(name)
    requires SerializeAttributes(d, AttributesOf(d, name, models), models, dates) == Some(s)
    requires DeserializeAttributes(s, AttributesOf(d, name, models), models, dates) ==
             Some(ProjectModel(d, AttributesOf(d, name, models), models, dates))
    requires FindCorrectType(s, name, models) == FindCorrectType(d, name, models)
    ensures ComesBack(d, Name(name), format, models, dates)
  {
    DispatchDecomposes(Name(name));
    CorrectType(d, name, models);
  }

  /** One attribute: absent stays absent, present comes back projected. */
  lemma {:induction false} AttributeRoundTrip(d: Value, a: Attribute, models: Models, dates: Dates)
    requires IsTypeMap(models) && LawfulDates(dates) && d.Obj? && IsType(a.attributeType)
    requires a.name in d.props ==>
               && HasType(d.props[a.name], a.attributeType, models)
               && KeepsClasses(d.props[a.name], a.attributeType, models, dates)
    ensures var s := SerializeAttribute(d, a, models, dates);
            && s.Some?
            && (s.value == Undefined <==> Prop(d, a.name) == Undefined)
            && (s.value != Undefined ==>
                  Deserialize(s.value, Print(a.attributeType), models, dates) == Some(Returned(d, a, models, dates)))
    decreases d, 0
  {
    var v := Prop(d, a.name);
    if v != Undefined {
      RoundTrip(v, a.attributeType, a.format, models, dates);
    }
  }

  // ---- Data that survives whole --------------------------------------------------------------

  /** Midnight UTC, where local time is not behind UTC. */
  predicate IsUtcMidnight(time: int, dates: Dates) {
    time % DAY == 0 && 0 <= dates.offset(time) < DAY
  }

  lemma {:induction false} MidnightIff(time: int, dates: Dates)
    ensures LocalDay(time, dates) * DAY == time <==> IsUtcMidnight(time, dates)
  {
  }

  /** Objects of a class hold declared attributes only, and none that is `undefined`; dates in the
      calendar format are midnight UTC, where local time is not behind UTC. */
  ghost predicate IsExact(d: Value, t: Type, format: string, models: Models, dates: Dates)
    decreases d, 1, t
  {
    Missing(d) ||
    match t
    case Date => d.DateValue? && format == "date" ==> IsUtcMidnight(d.time, dates)
    case Nullable(inner) => IsExact(d, inner, format, models, dates)
    case Optional(inner) => IsExact(d, inner, format, models, dates)
    case ArrayOf(inner) =>
      d.Arr? ==> forall i :: 0 <= i < |d.items| ==> IsExact(d.items[i], inner, format, models, dates)
    case MapOf(inner) => d.Obj? ==> forall key <- d.props :: IsExact(d.props[key], inner, format, models, dates)
    case Name(name) =>
      name in models && d.Obj? ==>
        forall key <- d.props ::
          IsExactProperty(d, key, AttributeWith(AttributesOf(d, name, models), key, false), models, dates)
    case _ => true
  }

  ghost predicate IsExactProperty(d: Value, key: string, a: Option<Attribute>, models: Models, dates: Dates)
    requires d.Obj? && key in d.props
    decreases d, 0
  {
    a.Some? && d.props[key] != Undefined && IsExact(d.props[key], a.value.attributeType, a.value.format, models, dates)
  }

  lemma {:induction false} ExactIffProjected(d: Value, t: Type, format: string, models: Models, dates: Dates)
    ensures IsExact(d, t, format, models, dates) <==> Project(d, t, format, models, dates) == d
    decreases d, 1, t
  {
    if !Missing(d) {
      match t
      case Date =>
        if d.DateValue? {
          MidnightIff(d.time, dates);
        }
      case Nullable(inner) => ExactIffProjected(d, inner, format, models, dates);
      case Optional(inner) => ExactIffProjected(d, inner, format, models, dates);
      case ArrayOf(inner) =>
        if d.Arr? {
          ExactItems(d.items, inner, format, models, dates);
        }
      case MapOf(inner) =>
        if d.Obj? {
          ExactMap(d, inner, format, models, dates);
        }
      case Name(name) =>
        if name in models && d.Obj? {
          ExactModel(d, AttributesOf(d, name, models), models, dates);
        }
      case _ =>
    }
  }

  lemma {:induction false} ExactItems(items: seq<Value>, inner: Type, format: string, models: Models, dates: Dates)
    ensures (forall i :: 0 <= i < |items| ==> IsExact(items[i], inner, format, models, dates)) <==>
            ProjectItems(items, inner, format, models, dates) == items
    decreases items, 0, inner
  {
    var projected := ProjectItems(items, inner, format, models, dates);
    forall i | 0 <= i < |items|
      ensures IsExact(items[i], inner, format, models, dates) <==> projected[i] == items[i]
    {
      ExactIffProjected(items[i], inner, format, models, dates);
    }
  }

  lemma EqualIffEach(a: map<string, Value>, b: map<string, Value>)
    requires a.Keys == b.Keys
    ensures a == b <==> forall key <- b :: a[key] == b[key]
  {
  }

  lemma {:induction false} ExactMap(d: Value, inner: Type, format: string, models: Models, dates: Dates)
    requires d.Obj?
    ensures (forall key <- d.props :: IsExact(d.props[key], inner, format, models, dates)) <==>
            ProjectProps(d, inner, format, models, dates) == d.props
    decreases d, 0, inner
  {
    var projected := ProjectProps(d, inner, format, models, dates);
    forall key | key in d.props
      ensures IsExact(d.props[key], inner, format, models, dates) <==> projected[key] == d.props[key]
    {
      ExactIffProjected(d.props[key], inner, format, models, dates);
    }
    EqualIffEach(projected, d.props);
  }

  lemma {:induction false} ExactModel(d: Value, attributes: seq<Attribute>, models: Models, dates: Dates)
    requires d.Obj?
    ensures (forall key <- d.props ::
               IsExactProperty(d, key, AttributeWith(attributes, key, false), models, dates)) <==>
            ProjectModel(d, attributes, models, dates) == d
    decreases d, 0
  {
    var projected := ProjectModel(d, attributes, models, dates).props;
    forall key | key in d.props
      ensures IsExactProperty(d, key, AttributeWith(attributes, key, false), models, dates) <==>
              key in projected && projected[key] == d.props[key]
    {
      var a := AttributeWith(attributes, key, false);
      if a.Some? { ExactIffProjected(d.props[key], a.value.attributeType, a.value.format, models, dates); }
    }
    if forall key <- d.props :: IsExactProperty(d, key, AttributeWith(attributes, key, false), models, dates) {
      assert projected == d.props;
    }
  }

  /** For every well-typed value whose objects keep their classes, `deserialize(serialize(d, T), T)`
      is the part that survives; so it is d itself exactly when d's classes hold their declared
      attributes and nothing else, and its calendar dates are midnight UTC where local time is not
      behind UTC. Absent attributes stay absent. */
  lemma {:induction false} DeserializeSerialize(d: Value, t: Type, format: string, models: Models, dates: Dates)
    requires IsTypeMap(models) && LawfulDates(dates) && IsType(t)
    requires HasType(d, t, models) && KeepsClasses(d, t, models, dates)
    ensures var s := Serialize(d, Print(t), format, models, dates);
            && s.Some?
            && Deserialize(s.value, Print(t), models, dates) == Some(Project(d, t, format, models, dates))
            && (Deserialize(s.value, Print(t), models, dates) == Some(d) <==> IsExact(d, t, format, models, dates))
  {
    RoundTrip(d, t, format, models, dates);
    ExactIffProjected(d, t, format, models, dates);
  }

  /** A calendar date comes back exactly if it is midnight UTC where local time is not behind UTC.
      Behind UTC, that midnight comes back a day early; and local midnight, as a caller who means
      a day writes it, is moved by the offset. */
  lemma {:induction false} CalendarDate(time: int, models: Models, dates: Dates)
    requires IsTypeMap(models) && LawfulDates(dates)
    ensures var s := Serialize(DateValue(time), "Date", "date", models, dates);
            && s.Some?
            && var back := Deserialize(s.value, "Date", models, dates);
            && (back == Some(DateValue(time)) <==> IsUtcMidnight(time, dates))
            && (time % DAY == 0 && -DAY <= dates.offset(time) < 0 ==> back == Some(DateValue(time - DAY)))
            && ((time + dates.offset(time)) % DAY == 0 ==> back == Some(DateValue(time + dates.offset(time))))
  {
    DeserializeSerialize(DateValue(time), Date, "date", models, dates);
  }

  function Tally(n: int): string {
    if n >= 0 then seq(n, _ => '+') else seq(-n, _ => '-')
  }

  function Untally(s: string): int {
    if s == "" then 0 else if s[0] == '+' then |s| else -|s|
  }

  /** The laws on dates can be met, whatever the offset of local time. */
  lemma {:induction false} LawfulDatesExist(offset: int -> int) returns (dates: Dates)
    ensures LawfulDates(dates) && dates.offset == offset
  {
    dates := Dates(Tally, n => Tally(n * DAY), Untally, offset);
  }
}
