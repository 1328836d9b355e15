/** Two nested models of the REST client, to which the serializer's round trip applies. */
module ClientModels {
  import opened Wrappers
  import opened TypeStrings
  import opened ObjectSerializer
  import opened SerializerRoundTrip

  const BINARY_DATA := Model(None, map[], [
    Attribute("length", "length", Primitive("number"), "int64"),
    Attribute("replayable", "replayable", Primitive("boolean"), "")])

  const KEY_RELEASE_POLICY := Model(None, map[], [
    Attribute("encodedPolicy", "encodedPolicy", Name("BinaryData"), ""),
    Attribute("contentType", "contentType", Primitive("string"), ""),
    Attribute("immutable", "immutable", Primitive("boolean"), "")])

  const POLICY_MODELS: Models := map["BinaryData" := BINARY_DATA, "KeyReleasePolicy" := KEY_RELEASE_POLICY]

  lemma IsLowerPrimitive(name: string)
    requires name in ["string", "boolean", "number"]
    ensures IsType(Primitive(name))
  {
    PrimitivesAreLetters();
    assert Letters(name);
    assert ToLower(name) == name;
  }

  lemma BinaryDataIsPlain()
    ensures IsType(Name("BinaryData"))
  {
    var name := "BinaryData";
    var lower := ToLower(name);
    assert |lower| == 10 && lower[0] == 'b';
    NotEndingWith(name, NULLABLE_SUFFIX);
    NotEndingWith(name, OPTIONAL_SUFFIX);
  }

  lemma KeyReleasePolicyIsPlain()
    ensures IsType(Name("KeyReleasePolicy"))
  {
    var name := "KeyReleasePolicy";
    var lower := ToLower(name);
    assert |lower| == 16 && lower[0] == 'k';
    NotEndingWith(name, NULLABLE_SUFFIX);
    NotEndingWith(name, OPTIONAL_SUFFIX);
  }

  lemma PolicyModelsAreClosed()
    ensures IsClosed(POLICY_MODELS)
  {
    BinaryDataIsPlain();
    KeyReleasePolicyIsPlain();
    ClosedSettles(POLICY_MODELS);
  }

  lemma BinaryDataIsProper()
    ensures ProperAttributes(BINARY_DATA.attributes)
  {
    IsLowerPrimitive("number");
    IsLowerPrimitive("boolean");
    assert |"length"| != |"replayable"|;
  }

  lemma KeyReleasePolicyIsProper()
    ensures ProperAttributes(KEY_RELEASE_POLICY.attributes)
  {
    IsLowerPrimitive("string");
    IsLowerPrimitive("boolean");
    BinaryDataIsPlain();
    assert "encodedPolicy"[0] != "contentType"[0];
  }

  /** They meet what the round trip asks of a type map. */
  lemma PolicyModelsAreATypeMap()
    ensures IsTypeMap(POLICY_MODELS)
  {
    PolicyModelsAreClosed();
    BinaryDataIsProper();
    KeyReleasePolicyIsProper();
  }
}
