/** The serializer by recursion on types instead of their texts, and that the two agree. */
module TypedSerializer {
  import opened Wrappers
  import opened TypeStrings
  import opened ObjectSerializer

  /** Every attribute has a proper type. */
  ghost predicate AttributesTyped(models: Models) {
    forall name <- models :: forall a <- models[name].attributes :: IsType(a.attributeType)
  }

  // ---- Serializing ------------------------------------------------------------------------

  function TypedSerialize(d: Value, t: Type, format: string, models: Models, dates: Dates): Option<Value>
    decreases d, 2, t
  {
    if Missing(d) then Some(d)
    else match t
         case Primitive(_) => Some(d)
         case Date => SerializeDate(d, format, dates)
         case Nullable(inner) => TypedSerialize(d, inner, format, models, dates)
         case Optional(inner) => TypedSerialize(d, inner, format, models, dates)
         case ArrayOf(inner) =>
           if d.Arr? then Wrap(TypedSerializeItems(d.items, inner, format, models, dates)) else None
         case MapOf(inner) =>
           if d.Obj? then Collect(TypedSerializedProps(d, inner, format, models, dates)) else None
         case Name(name) =>
           if name !in models then Some(d)
           else
             var correct := FindCorrectType(d, name, models);
             if correct !in models || !d.Obj? then None
             else TypedSerializeAttributes(d, models[correct].attributes, models, dates)
  }

  function TypedSerializedProps(d: Value, inner: Type, format: string, models: Models, dates: Dates)
    : (r: map<string, Option<Value>>)
    requires d.Obj?
    ensures r.Keys == d.props.Keys
    decreases d, 1, inner
  {
    map key | key in d.props :: TypedSerialize(d.props[key], inner, format, models, dates)
  }

  function TypedSerializeItems(items: seq<Value>, inner: Type, format: string, models: Models, dates: Dates)
    : Option<seq<Value>>
    decreases items, 1, inner
  {
    if items == [] then Some([])
    else
      var last := |items| - 1;
      match (TypedSerializeItems(items[..last], inner, format, models, dates),
             TypedSerialize(items[last], inner, format, models, dates))
      case (Some(front), Some(v)) => Some(front + [v])
      case _ => None
  }

  function TypedSerializeAttributes(d: Value, attributes: seq<Attribute>, models: Models, dates: Dates)
    : (r: Option<Value>)
    requires d.Obj?
    ensures r.Some? ==> r.value.Obj?
    decreases d, 1, |attributes|
  {
    if attributes == [] then Some(Obj(map[]))
    else
      var a := attributes[|attributes| - 1];
      match (TypedSerializeAttributes(d, attributes[..|attributes| - 1], models, dates),
             TypedSerializeAttribute(d, a, models, dates))
      case (Some(instance), Some(v)) => Some(Obj(instance.props[a.baseName := v]))
      case _ => None
  }

  function TypedSerializeAttribute(d: Value, a: Attribute, models: Models, dates: Dates): Option<Value>
    decreases d, 0, 0
  {
    var v := Prop(d, a.name);
    if v == Undefined then Some(Undefined) else TypedSerialize(v, a.attributeType, a.format, models, dates)
  }

  /** Serializing by the printed type is serializing by the type, for all data, well typed or
      not. */
  lemma {:induction false} SerializeRefines(d: Value, t: Type, format: string, models: Models, dates: Dates)
    requires IsType(t) && AttributesTyped(models)
    ensures Serialize(d, Print(t), format, models, dates) == TypedSerialize(d, t, format, models, dates)
    decreases d, 2, t
  {
    DispatchDecomposes(t);
    if !Missing(d) {
      match t
      case Nullable(inner) => SerializeRefines(d, inner, format, models, dates);
      case Optional(inner) => SerializeRefines(d, inner, format, models, dates);
      case ArrayOf(inner) => if d.Arr? { SerializeItemsRefine(d.items, inner, format, models, dates); }
      case MapOf(inner) => if d.Obj? { SerializePropsRefine(d, inner, format, models, dates); }
      case Name(name) =>
        if name in models && d.Obj? && FindCorrectType(d, name, models) in models {
          SerializeAttributesRefine(d, models[FindCorrectType(d, name, models)].attributes, models, dates);
        }
      case _ =>
    }
  }

  lemma {:induction false} SerializePropsRefine(d: Value, inner: Type, format: string, models: Models, dates: Dates)
    requires d.Obj? && IsType(inner) && AttributesTyped(models)
    ensures SerializedProps(d, Print(inner), format, models, dates) ==
            TypedSerializedProps(d, inner, format, models, dates)
    decreases d, 1, inner
  {
    forall key | key in d.props
      ensures Serialize(d.props[key], Print(inner), format, models, dates) ==
              TypedSerialize(d.props[key], inner, format, models, dates)
    {
      SerializeRefines(d.props[key], inner, format, models, dates);
    }
  }

  lemma {:induction false} SerializeItemsRefine(items: seq<Value>, inner: Type, format: string, models: Models,
                                                dates: Dates)
    requires IsType(inner) && AttributesTyped(models)
    ensures SerializeItems(items, Print(inner), format, models, dates) ==
            TypedSerializeItems(items, inner, format, models, dates)
    decreases items, 1, inner
  {
    if items != [] {
      SerializeItemsRefine(items[..|items| - 1], inner, format, models, dates);
      SerializeRefines(items[|items| - 1], inner, format, models, dates);
    }
  }

  lemma {:induction false} SerializeAttributesRefine(d: Value, attributes: seq<Attribute>, models: Models, dates: Dates)
    requires d.Obj? && AttributesTyped(models) && forall a <- attributes :: IsType(a.attributeType)
    ensures SerializeAttributes(d, attributes, models, dates) == TypedSerializeAttributes(d, attributes, models, dates)
    decreases d, 1, |attributes|
  {
    if attributes != [] {
      var a := attributes[|attributes| - 1];
      assert a in attributes;
      SerializeAttributesRefine(d, attributes[..|attributes| - 1], models, dates);
      if Prop(d, a.name) != Undefined {
        SerializeRefines(Prop(d, a.name), a.attributeType, a.format, models, dates);
      }
    }
  }

  // ---- Deserializing -----------------------------------------------------------------------

  function TypedDeserialize(d: Value, t: Type, models: Models, dates: Dates): Option<Value>
    decreases d, 2, t
  {
    if Missing(d) then Some(d)
    else match t
         case Primitive(_) => Some(d)
         case Date => DeserializeDate(d, dates)
         case Nullable(inner) => TypedDeserialize(d, inner, models, dates)
         case Optional(inner) => TypedDeserialize(d, inner, models, dates)
         case ArrayOf(inner) => if d.Arr? then Wrap(TypedDeserializeItems(d.items, inner, models, dates)) else None
         case MapOf(inner) =>
           if d.Obj? then Collect(TypedDeserializedProps(d, inner, models, dates)) else None
         case Name(name) =>
           if name !in models then Some(d)
           else
             var correct := FindCorrectType(d, name, models);
             if correct !in models || !d.Obj? then None
             else TypedDeserializeAttributes(d, models[correct].attributes, models, dates)
  }

  function TypedDeserializedProps(d: Value, inner: Type, models: Models, dates: Dates): (r: map<string, Option<Value>>)
    requires d.Obj?
    ensures r.Keys == d.props.Keys
    decreases d, 1, inner
  {
    map key | key in d.props :: TypedDeserialize(d.props[key], inner, models, dates)
  }

  function TypedDeserializeItems(items: seq<Value>, inner: Type, models: Models, dates: Dates): Option<seq<Value>>
    decreases items, 1, inner
  {
    if items == [] then Some([])
    else
      var last := |items| - 1;
      match (TypedDeserializeItems(items[..last], inner, models, dates),
             TypedDeserialize(items[last], inner, models, dates))
      case (Some(front), Some(v)) => Some(front + [v])
      case _ => None
  }

  function TypedDeserializeAttributes(d: Value, attributes: seq<Attribute>, models: Models, dates: Dates)
    : (r: Option<Value>)
    requires d.Obj?
    ensures r.Some? ==> r.value.Obj?
    decreases d, 1, |attributes|
  {
    if attributes == [] then Some(Obj(map[]))
    else
      var a := attributes[|attributes| - 1];
      match (TypedDeserializeAttributes(d, attributes[..|attributes| - 1], models, dates),
             TypedDeserializeAttribute(d, a, models, dates))
      case (Some(instance), Some(v)) =>
        Some(if v == Undefined then instance else Obj(instance.props[a.name := v]))
      case _ => None
  }

  function TypedDeserializeAttribute(d: Value, a: Attribute, models: Models, dates: Dates): Option<Value>
    decreases d, 0, 0
  {
    var v := Prop(d, a.baseName);
    if v == Undefined then Some(Undefined) else TypedDeserialize(v, a.attributeType, models, dates)
  }

  /** The text of a type is a model's name only if the type is that name, so no other is replaced. */
  lemma OthersAreExpected(d: Value, t: Type, models: Models)
    requires IsType(t) && IsClosed(models) && !t.Name?
    ensures FindCorrectType(d, Print(t), models) == Print(t)
  {
    DispatchDecomposes(t);
    CorrectType(d, Print(t), models);
  }

  lemma {:induction false} DeserializeStep(d: Value, t: Type, models: Models, dates: Dates)
    requires IsType(t) && IsClosed(models) && !t.Name? && !Missing(d)
    ensures Deserialize(d, Print(t), models, dates) ==
            match t
            case Date => DeserializeDate(d, dates)
            case Nullable(inner) => Deserialize(d, Print(inner), models, dates)
            case Optional(inner) => Deserialize(d, Print(inner), models, dates)
            case ArrayOf(inner) => if d.Arr? then Wrap(DeserializeItems(d.items, Print(inner), models, dates)) else None
            case MapOf(inner) => if d.Obj? then Collect(DeserializedProps(d, Print(inner), models, dates)) else None
            case _ => Some(d)
  {
    DispatchDecomposes(t);
    OthersAreExpected(d, t, models);
  }

  /** Deserializing by the printed type is deserializing by the type, for all data. */
  lemma {:induction false} DeserializeRefines(d: Value, t: Type, models: Models, dates: Dates)
    requires IsType(t) && AttributesTyped(models) && IsClosed(models)
    ensures Deserialize(d, Print(t), models, dates) == TypedDeserialize(d, t, models, dates)
    decreases d, 2, t
  {
    if t.Name? {
      DeserializeNameRefines(d, t.name, models, dates);
    } else if !Missing(d) {
      DeserializeStep(d, t, models, dates);
      match t
      case Nullable(inner) => DeserializeRefines(d, inner, models, dates);
      case Optional(inner) => DeserializeRefines(d, inner, models, dates);
      case ArrayOf(inner) => if d.Arr? { DeserializeItemsRefine(d.items, inner, models, dates); }
      case MapOf(inner) => if d.Obj? { DeserializePropsRefine(d, inner, models, dates); }
      case _ =>
    }
  }

  lemma {:induction false} DeserializeNameRefines(d: Value, name: string, models: Models, dates: Dates)
    requires IsPlainName(name) && AttributesTyped(models) && IsClosed(models)
    ensures Deserialize(d, name, models, dates) == TypedDeserialize(d, Name(name), models, dates)
    decreases d, 1, 1, 0
  {
    DispatchDecomposes(Name(name));
    CorrectType(d, name, models);
    if name in models && d.Obj? {
      DeserializeAttributesRefine(d, models[FindCorrectType(d, name, models)].attributes, models, dates);
    }
  }

  lemma {:induction false} DeserializePropsRefine(d: Value, inner: Type, models: Models, dates: Dates)
    requires d.Obj? && IsType(inner) && AttributesTyped(models) && IsClosed(models)
    ensures DeserializedProps(d, Print(inner), models, dates) == TypedDeserializedProps(d, inner, models, dates)
    decreases d, 1, inner
  {
    forall key | key in d.props
      ensures Deserialize(d.props[key], Print(inner), models, dates) ==
              TypedDeserialize(d.props[key], inner, models, dates)
    {
      DeserializeRefines(d.props[key], inner, models, dates);
    }
  }

  lemma {:induction false} DeserializeItemsRefine(items: seq<Value>, inner: Type, models: Models, dates: Dates)
    requires IsType(inner) && AttributesTyped(models) && IsClosed(models)
    ensures DeserializeItems(items, Print(inner), models, dates) == TypedDeserializeItems(items, inner, models, dates)
    decreases items, 1, inner
  {
    if items != [] {
      DeserializeItemsRefine(items[..|items| - 1], inner, models, dates);
      DeserializeRefines(items[|items| - 1], inner, models, dates);
    }
  }

  lemma {:induction false} DeserializeAttributesRefine(d: Value, attributes: seq<Attribute>, models: Models,
                                                       dates: Dates)
    requires d.Obj? && AttributesTyped(models) && IsClosed(models) && forall a <- attributes :: IsType(a.attributeType)
    ensures DeserializeAttributes(d, attributes, models, dates) ==
            TypedDeserializeAttributes(d, attributes, models, dates)
    decreases d, 1, 0, |attributes|
  {
    if attributes != [] {
      var a := attributes[|attributes| - 1];
      assert a in attributes;
      DeserializeAttributesRefine(d, attributes[..|attributes| - 1], models, dates);
      if Prop(d, a.baseName) != Undefined {
        DeserializeRefines(Prop(d, a.baseName), a.attributeType, models, dates);
      }
    }
  }
}
