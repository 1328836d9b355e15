/** The type-directed serializer of the REST client models. */
module ObjectSerializer {
  import opened Wrappers
  import opened TypeStrings

  /** JavaScript data. An object is the map of its own properties; `DateValue` holds the time in
      milliseconds. A property may be present with the value `undefined`. */
  datatype Value =
    | Undefined
    | Null
    | Bool(b: bool)
    | Num(n: int)
    | Str(s: string)
    | DateValue(time: int)
    | Arr(items: seq<Value>)
    | Obj(props: map<string, Value>)

  predicate Missing(v: Value) { v.Undefined? || v.Null? }

  /** One entry of a model's attribute type map. */
  datatype Attribute = Attribute(name: string, baseName: string, attributeType: Type, format: string)

  datatype Model = Model(discriminator: Option<string>, mapping: map<string, string>, attributes: seq<Attribute>)

  type Models = map<string, Model>

  const DAY := 86_400_000

  /** Date formatting and parsing, in milliseconds and days since 1970. `dayText` is the text of a
      calendar day, and `offset` how far local time is ahead of UTC at some time. */
  datatype Dates = Dates(toIso: int -> string, dayText: int -> string, parse: string -> int, offset: int -> int)

  /** A time in ISO format is read back, and a text without a time of day is read as midnight UTC. */
  ghost predicate LawfulDates(dates: Dates) {
    && (forall t :: dates.parse(dates.toIso(t)) == t)
    && (forall n :: dates.parse(dates.dayText(n)) == n * DAY)
  }

  /** The calendar day that the local getters see. */
  function LocalDay(time: int, dates: Dates): int {
    (time + dates.offset(time)) / DAY
  }

  function Prop(v: Value, name: string): (r: Value)
    ensures r == Undefined || r < v
  {
    if v.Obj? && name in v.props then v.props[name] else Undefined
  }

  /** The class that a discriminator tag picks for an expected one. Only text tags pick any. */
  function ClassOf(tag: Value, expected: string, models: Models): string
    requires expected in models
  {
    var mapping := models[expected].mapping;
    if !tag.Str? || tag.s == "" then expected
    else if tag.s in mapping && mapping[tag.s] != "" then mapping[tag.s]
    else if tag.s in models then tag.s
    else expected
  }

  function FindCorrectType(data: Value, expected: string, models: Models): string {
    if Missing(data) || IsPrimitive(expected) || expected == "Date" || expected !in models then expected
    else match models[expected].discriminator
         case None => expected
         case Some(property) => ClassOf(Prop(data, property), expected, models)
  }

  // ---- Serializing ------------------------------------------------------------------------

  function DateText(time: int, format: string, dates: Dates): string {
    if format == "date" then dates.dayText(LocalDay(time, dates)) else dates.toIso(time)
  }

  function SerializeDate(data: Value, format: string, dates: Dates): Option<Value> {
    if data.DateValue? then Some(Str(DateText(data.time, format, dates))) else None
  }

  /** `serialize`; None stands for a thrown exception. The recursion is on the data and, for
      equal data, on the length of the type text: a class may lead to longer type texts, but
      then on smaller data. */
  function Serialize(data: Value, text: string, format: string, models: Models, dates: Dates): Option<Value>
    decreases data, 2, |text|
  {
    if Missing(data) then Some(data)
    else match Dispatch(text)
         case AsPrimitive => Some(data)
         case AsNullable(sub) => Serialize(data, sub, format, models, dates)
         case AsOptional(sub) => Serialize(data, sub, format, models, dates)
         case AsArray(sub) =>
           if data.Arr? then Wrap(SerializeItems(data.items, sub, format, models, dates)) else None
         case AsMap(sub) =>
           if data.Obj? then Collect(SerializedProps(data, sub, format, models, dates)) else None
         case AsDate => SerializeDate(data, format, dates)
         case AsName =>
           if text !in models then Some(data)
           else
             var correct := FindCorrectType(data, text, models);
             if correct !in models || !data.Obj? then None
             else SerializeAttributes(data, models[correct].attributes, models, dates)
  }

  /** Every property serialized. */
  function SerializedProps(data: Value, sub: string, format: string, models: Models, dates: Dates)
    : (r: map<string, Option<Value>>)
    requires data.Obj?
    ensures r.Keys == data.props.Keys
    decreases data, 1, |sub|
  {
    map key | key in data.props :: Serialize(data.props[key], sub, format, models, dates)
  }

  /** The object of all results, or None when one of them threw. */
  function Collect(results: map<string, Option<Value>>): Option<Value> {
    if forall key <- results :: results[key].Some? then Some(Obj(map key | key in results :: results[key].value))
    else None
  }

  lemma CollectAll(results: map<string, Option<Value>>, props: map<string, Value>)
    requires results.Keys == props.Keys && forall key <- results :: results[key] == Some(props[key])
    ensures Collect(results) == Some(Obj(props))
  {
    assert (map key | key in results :: results[key].value) == props;
  }

  function Wrap(items: Option<seq<Value>>): Option<Value> {
    match items
    case None => None
    case Some(vs) => Some(Arr(vs))
  }

  function SerializeItems(items: seq<Value>, sub: string, format: string, models: Models, dates: Dates)
    : (r: Option<seq<Value>>)
    decreases items, 1, |sub|
  {
    if items == [] then Some([])
    else
      var last := |items| - 1;
      match (SerializeItems(items[..last], sub, format, models, dates),
             Serialize(items[last], sub, format, models, dates))
      case (Some(front), Some(v)) => Some(front + [v])
      case _ => None
  }

  /** The instance after the attributes have been copied; absent ones become `undefined`. */
  function SerializeAttributes(data: Value, attributes: seq<Attribute>, models: Models, dates: Dates)
    : (r: Option<Value>)
    requires data.Obj?
    ensures r.Some? ==> r.value.Obj?
    decreases data, 1, |attributes|
  {
    if attributes == [] then Some(Obj(map[]))
    else
      var a := attributes[|attributes| - 1];
      match (SerializeAttributes(data, attributes[..|attributes| - 1], models, dates),
             SerializeAttribute(data, a, models, dates))
      case (Some(instance), Some(v)) => Some(Obj(instance.props[a.baseName := v]))
      case _ => None
  }

  function SerializeAttribute(data: Value, a: Attribute, models: Models, dates: Dates): Option<Value>
    decreases data, 0, 0
  {
    var v := Prop(data, a.name);
    if v == Undefined then Some(Undefined) else Serialize(v, Print(a.attributeType), a.format, models, dates)
  }

  // ---- Deserializing -----------------------------------------------------------------------

  /** `new Date(data)` of a text, a number, a truth value or a date. */
  function DeserializeDate(data: Value, dates: Dates): Option<Value> {
    match data
    case Str(s) => Some(DateValue(dates.parse(s)))
    case Num(n) => Some(DateValue(n))
    case Bool(b) => Some(DateValue(if b then 1 else 0))
    case DateValue(_) => Some(data)
    case _ => None
  }

  predicate IsWrapper(text: string) {
    Dispatch(text).AsNullable? || Dispatch(text).AsOptional?
  }

  /** No model is named by, and no discriminator mapped to, a nullable or optional type text. */
  predicate Settles(models: Models) {
    forall name <- models ::
      !IsWrapper(name) && forall tag <- models[name].mapping :: !IsWrapper(models[name].mapping[tag])
  }

  /** Then a replaced type text is no wrapper, so deserialization goes on with a shorter text or with
      smaller data. */
  lemma ReplacedIsNoWrapper(data: Value, expected: string, models: Models)
    requires Settles(models)
    ensures var shape := Dispatch(FindCorrectType(data, expected, models));
            shape.AsNullable? || shape.AsOptional? ==> |shape.sub| < |expected|
  {
  }

  /** Without that, deserialization need not end: a discriminator mapped to its own model's
      nullable type leads back to the same call on the same data. */
  lemma TypeReturns(name: string, property: string, tag: string)
    requires IsPlainName(name) && tag != ""
    ensures var models := map[name := Model(Some(property), map[tag := Print(Nullable(Name(name)))], [])];
            var data := Obj(map[property := Str(tag)]);
            !Settles(models) && Dispatch(FindCorrectType(data, name, models)) == AsNullable(name)
  {
    var text := Print(Nullable(Name(name)));
    var models := map[name := Model(Some(property), map[tag := text], [])];
    DispatchDecomposes(Nullable(Name(name)));
    assert text != "" && IsWrapper(models[name].mapping[tag]);
    assert FindCorrectType(Obj(map[property := Str(tag)]), name, models) == text;
  }

  predicate MapsToModels(model: Model, models: Models) {
    forall tag <- model.mapping :: model.mapping[tag] in models
  }

  /** The names of models are plain names, and discriminators are mapped to models only. */
  predicate IsClosed(models: Models) {
    && Settles(models)
    && forall name <- models :: IsPlainName(name) && MapsToModels(models[name], models)
  }

  /** The second half implies the first. */
  lemma ClosedSettles(models: Models)
    requires forall name <- models :: IsPlainName(name) && MapsToModels(models[name], models)
    ensures IsClosed(models)
  {
  }

  /** A discriminator leads from a model to a model, and nothing else is replaced. */
  lemma CorrectType(data: Value, expected: string, models: Models)
    requires IsClosed(models)
    ensures var text := FindCorrectType(data, expected, models);
            if expected in models then
              text in models && Dispatch(text) == AsName && Dispatch(expected) == AsName
            else text == expected
  {
  }

  /** `deserialize`; None stands for a thrown exception. */
  function Deserialize(data: Value, expected: string, models: Models, dates: Dates): Option<Value>
    requires Settles(models)
    decreases data, 2, |expected|
  {
    ReplacedIsNoWrapper(data, expected, models);
    var text := FindCorrectType(data, expected, models);
    if Missing(data) then Some(data)
    else match Dispatch(text)
         case AsPrimitive => Some(data)
         case AsNullable(sub) => Deserialize(data, sub, models, dates)
         case AsOptional(sub) => Deserialize(data, sub, models, dates)
         case AsArray(sub) =>
           if data.Arr? then Wrap(DeserializeItems(data.items, sub, models, dates)) else None
         case AsMap(sub) =>
           if data.Obj? then Collect(DeserializedProps(data, sub, models, dates)) else None
         case AsDate => DeserializeDate(data, dates)
         case AsName =>
           if text !in models then Some(data)
           else if !data.Obj? then None
           else DeserializeAttributes(data, models[text].attributes, models, dates)
  }

  /** Every property deserialized. */
  function DeserializedProps(data: Value, sub: string, models: Models, dates: Dates): (r: map<string, Option<Value>>)
    requires data.Obj? && Settles(models)
    ensures r.Keys == data.props.Keys
    decreases data, 1, |sub|
  {
    map key | key in data.props :: Deserialize(data.props[key], sub, models, dates)
  }

  function DeserializeItems(items: seq<Value>, sub: string, models: Models, dates: Dates): Option<seq<Value>>
    requires Settles(models)
    decreases items, 1, |sub|
  {
    if items == [] then Some([])
    else
      var last := |items| - 1;
      match (DeserializeItems(items[..last], sub, models, dates), Deserialize(items[last], sub, models, dates))
      case (Some(front), Some(v)) => Some(front + [v])
      case _ => None
  }

  /** The instance after the attributes have been copied; `undefined` is not copied. */
  function DeserializeAttributes(data: Value, attributes: seq<Attribute>, models: Models, dates: Dates)
    : (r: Option<Value>)
    requires data.Obj? && Settles(models)
    ensures r.Some? ==> r.value.Obj?
    decreases data, 1, |attributes|
  {
    if attributes == [] then Some(Obj(map[]))
    else
      var a := attributes[|attributes| - 1];
      match (DeserializeAttributes(data, attributes[..|attributes| - 1], models, dates),
             DeserializeAttribute(data, a, models, dates))
      case (Some(instance), Some(v)) =>
        Some(if v == Undefined then instance else Obj(instance.props[a.name := v]))
      case _ => None
  }

  function DeserializeAttribute(data: Value, a: Attribute, models: Models, dates: Dates): Option<Value>
    requires Settles(models)
    decreases data, 0, 0
  {
    var v := Prop(data, a.baseName);
    if v == Undefined then Some(Undefined) else Deserialize(v, Print(a.attributeType), models, dates)
  }

  // ---- The code: the search for a type ------------------------------------------------------------

  method FindType(data: Value, expected: string, models: Models) returns (r: string)
    ensures r == FindCorrectType(data, expected, models)
  {
    if data == Undefined || data == Null {
      return expected;
    }
    if IsPrimitive(expected) {
      return expected;
    }
    if expected == "Date" || expected !in models || models[expected].discriminator.None? {
      return expected;
    }
    var property := models[expected].discriminator.value;
    if !data.Obj? || property !in data.props || !data.props[property].Str? || data.props[property].s == "" {
      return expected;
    }
    var tag, mapping := data.props[property].s, models[expected].mapping;
    if tag in mapping && mapping[tag] != "" {
      return mapping[tag];
    }
    if tag in models {
      return tag;
    }
    return expected;
  }

  // ---- The code: loops that fill the result ------------------------------------------------------

  method SerializeValue(data: Value, text: string, format: string, models: Models, dates: Dates)
    returns (r: Option<Value>)
    ensures r == Serialize(data, text, format, models, dates)
    decreases data, 2, |text|
  {
    if data == Undefined || data == Null {
      return Some(data);
    }
    match Dispatch(text)
    case AsPrimitive => r := Some(data);
    case AsNullable(sub) => r := SerializeValue(data, sub, format, models, dates);
    case AsOptional(sub) => r := SerializeValue(data, sub, format, models, dates);
    case AsArray(sub) =>
      if !data.Arr? { return None; }
      r := SerializeArray(data.items, sub, format, models, dates);
    case AsMap(sub) =>
      if !data.Obj? { return None; }
      r := SerializeMap(data, sub, format, models, dates);
    case AsDate =>
      if !data.DateValue? { return None; }
      if format == "date" {
        var day := (data.time + dates.offset(data.time)) / (24 * 60 * 60 * 1000);
        return Some(Str(dates.dayText(day)));
      }
      return Some(Str(dates.toIso(data.time)));
    case AsName =>
      if text !in models { return Some(data); }
      var correct := FindType(data, text, models);
      if correct !in models || !data.Obj? { return None; }
      r := SerializeInstance(data, models[correct].attributes, models, dates);
  }

  method SerializeArray(items: seq<Value>, sub: string, format: string, models: Models, dates: Dates)
    returns (r: Option<Value>)
    ensures r == Wrap(SerializeItems(items, sub, format, models, dates))
    decreases items, 1, |sub|
  {
    var transformedData: seq<Value> := [];
    for i := 0 to |items|
      invariant SerializeItems(items[..i], sub, format, models, dates) == Some(transformedData)
    {
      var v := SerializeValue(items[i], sub, format, models, dates);
      assert items[..i + 1][..i] == items[..i];
      if v.None? {
        ItemsPrefixFails(items, i + 1, sub, format, models, dates);
        return None;
      }
      transformedData := transformedData + [v.value];
    }
    assert items[..|items|] == items;
    r := Some(Arr(transformedData));
  }

  method SerializeMap(data: Value, sub: string, format: string, models: Models, dates: Dates)
    returns (r: Option<Value>)
    requires data.Obj?
    ensures r == Collect(SerializedProps(data, sub, format, models, dates))
    decreases data, 1, |sub|
  {
    var transformedData: map<string, Value> := map[];
    var keys := data.props.Keys;
    ghost var each := SerializedProps(data, sub, format, models, dates);
    while keys != {}
      invariant keys <= data.props.Keys && transformedData.Keys == data.props.Keys - keys
      invariant forall key <- transformedData :: each[key] == Some(transformedData[key])
      decreases keys
    {
      var key :| key in keys;
      var v := SerializeValue(data.props[key], sub, format, models, dates);
      assert each[key] == v;
      if v.None? { return None; }
      transformedData := transformedData[key := v.value];
      keys := keys - {key};
    }
    CollectAll(each, transformedData);
    r := Some(Obj(transformedData));
  }

  method SerializeInstance(data: Value, attributes: seq<Attribute>, models: Models, dates: Dates)
    returns (r: Option<Value>)
    requires data.Obj?
    ensures r == SerializeAttributes(data, attributes, models, dates)
    decreases data, 1, |attributes|
  {
    var instance: map<string, Value> := map[];
    for i := 0 to |attributes|
      invariant SerializeAttributes(data, attributes[..i], models, dates) == Some(Obj(instance))
    {
      var a := attributes[i];
      var v := Some(Undefined);
      if Prop(data, a.name) != Undefined {
        v := SerializeValue(Prop(data, a.name), Print(a.attributeType), a.format, models, dates);
      }
      assert attributes[..i + 1][..i] == attributes[..i];
      if v.None? {
        AttributesPrefixFails(data, attributes, i + 1, models, dates);
        return None;
      }
      instance := instance[a.baseName := v.value];
    }
    assert attributes[..|attributes|] == attributes;
    r := Some(Obj(instance));
  }

  lemma {:induction false} ItemsPrefixFails(items: seq<Value>, i: nat, sub: string, format: string, models: Models,
                                            dates: Dates)
    requires i <= |items| && SerializeItems(items[..i], sub, format, models, dates).None?
    ensures SerializeItems(items, sub, format, models, dates).None?
    decreases |items|
  {
    if i < |items| {
      assert items[..|items| - 1][..i] == items[..i];
      ItemsPrefixFails(items[..|items| - 1], i, sub, format, models, dates);
    } else {
      assert items[..i] == items;
    }
  }

  lemma {:induction false} AttributesPrefixFails(data: Value, attributes: seq<Attribute>, i: nat, models: Models,
                                                 dates: Dates)
    requires data.Obj? && i <= |attributes| && SerializeAttributes(data, attributes[..i], models, dates).None?
    ensures SerializeAttributes(data, attributes, models, dates).None?
    decreases |attributes|
  {
    if i < |attributes| {
      assert attributes[..|attributes| - 1][..i] == attributes[..i];
      AttributesPrefixFails(data, attributes[..|attributes| - 1], i, models, dates);
    } else {
      assert attributes[..i] == attributes;
    }
  }

  /** `new Date(data)` */
  method NewDate(data: Value, dates: Dates) returns (r: Option<Value>)
    ensures r == DeserializeDate(data, dates)
  {
    match data
    case Str(s) => r := Some(DateValue(dates.parse(s)));
    case Num(n) => r := Some(DateValue(n));
    case Bool(b) => r := Some(DateValue(if b then 1 else 0));
    case DateValue(_) => r := Some(data);
    case _ => r := None;
  }

  method DeserializeValue(data: Value, expected: string, models: Models, dates: Dates)
    returns (r: Option<Value>)
    requires Settles(models)
    ensures r == Deserialize(data, expected, models, dates)
    decreases data, 2, |expected|
  {
    var text := FindType(data, expected, models);
    ReplacedIsNoWrapper(data, expected, models);
    if data == Undefined || data == Null {
      return Some(data);
    }
    match Dispatch(text)
    case AsPrimitive => r := Some(data);
    case AsNullable(sub) => r := DeserializeValue(data, sub, models, dates);
    case AsOptional(sub) => r := DeserializeValue(data, sub, models, dates);
    case AsArray(sub) =>
      if !data.Arr? { return None; }
      r := DeserializeArray(data.items, sub, models, dates);
    case AsMap(sub) =>
      if !data.Obj? { return None; }
      r := DeserializeMap(data, sub, models, dates);
    case AsDate => r := NewDate(data, dates);
    case AsName =>
      if text !in models { return Some(data); }
      if !data.Obj? { return None; }
      r := DeserializeInstance(data, models[text].attributes, models, dates);
  }

  method DeserializeArray(items: seq<Value>, sub: string, models: Models, dates: Dates)
    returns (r: Option<Value>)
    requires Settles(models)
    ensures r == Wrap(DeserializeItems(items, sub, models, dates))
    decreases items, 1, |sub|
  {
    var transformedData: seq<Value> := [];
    for i := 0 to |items|
      invariant DeserializeItems(items[..i], sub, models, dates) == Some(transformedData)
    {
      var v := DeserializeValue(items[i], sub, models, dates);
      assert items[..i + 1][..i] == items[..i];
      if v.None? {
        DeserializeItemsPrefixFails(items, i + 1, sub, models, dates);
        return None;
      }
      transformedData := transformedData + [v.value];
    }
    assert items[..|items|] == items;
    r := Some(Arr(transformedData));
  }

  method DeserializeMap(data: Value, sub: string, models: Models, dates: Dates)
    returns (r: Option<Value>)
    requires data.Obj? && Settles(models)
    ensures r == Collect(DeserializedProps(data, sub, models, dates))
    decreases data, 1, |sub|
  {
    var transformedData: map<string, Value> := map[];
    var keys := data.props.Keys;
    ghost var each := DeserializedProps(data, sub, models, dates);
    while keys != {}
      invariant keys <= data.props.Keys && transformedData.Keys == data.props.Keys - keys
      invariant forall key <- transformedData :: each[key] == Some(transformedData[key])
      decreases keys
    {
      var key :| key in keys;
      var v := DeserializeValue(data.props[key], sub, models, dates);
      assert each[key] == v;
      if v.None? { return None; }
      transformedData := transformedData[key := v.value];
      keys := keys - {key};
    }
    CollectAll(each, transformedData);
    r := Some(Obj(transformedData));
  }

  method DeserializeInstance(data: Value, attributes: seq<Attribute>, models: Models, dates: Dates)
    returns (r: Option<Value>)
    requires data.Obj? && Settles(models)
    ensures r == DeserializeAttributes(data, attributes, models, dates)
    decreases data, 1, |attributes|
  {
    var instance: map<string, Value> := map[];
    for i := 0 to |attributes|
      invariant DeserializeAttributes(data, attributes[..i], models, dates) == Some(Obj(instance))
    {
      var a := attributes[i];
      var v := Some(Undefined);
      if Prop(data, a.baseName) != Undefined {
        v := DeserializeValue(Prop(data, a.baseName), Print(a.attributeType), models, dates);
      }
      assert attributes[..i + 1][..i] == attributes[..i];
      if v.None? {
        DeserializeAttributesPrefixFails(data, attributes, i + 1, models, dates);
        return None;
      }
      if v.value != Undefined {
        instance := instance[a.name := v.value];
      }
    }
    assert attributes[..|attributes|] == attributes;
    r := Some(Obj(instance));
  }

  lemma {:induction false} DeserializeItemsPrefixFails(items: seq<Value>, i: nat, sub: string, models: Models,
                                                       dates: Dates)
    requires Settles(models) && i <= |items| && DeserializeItems(items[..i], sub, models, dates).None?
    ensures DeserializeItems(items, sub, models, dates).None?
    decreases |items|
  {
    if i < |items| {
      assert items[..|items| - 1][..i] == items[..i];
      DeserializeItemsPrefixFails(items[..|items| - 1], i, sub, models, dates);
    } else {
      assert items[..i] == items;
    }
  }

  lemma {:induction false} DeserializeAttributesPrefixFails(data: Value, attributes: seq<Attribute>, i: nat,
                                                            models: Models, dates: Dates)
    requires Settles(models) && data.Obj? && i <= |attributes|
    requires DeserializeAttributes(data, attributes[..i], models, dates).None?
    ensures DeserializeAttributes(data, attributes, models, dates).None?
    decreases |attributes|
  {
    if i < |attributes| {
      assert attributes[..|attributes| - 1][..i] == attributes[..i];
      DeserializeAttributesPrefixFails(data, attributes[..|attributes| - 1], i, models, dates);
    } else {
      assert attributes[..i] == attributes;
    }
  }
}
