/**
 * The Human Cell Atlas metadata helpers: coercing a value to the type its
 * schema definition names (`set_value_by_type`), reading a definition out of
 * a metadata schema (`parse_definitions`) and the address of a schema on the
 * metadata-schema repository (`get_definition_url`).
 *
 * Schemas and values are parsed JSON. Fetching and caching the schema is not
 * modelled: the parsed schema is a parameter. The regular-expression test is
 * a parameter `matches(pattern, value)`.
 */
module HcaUtilities {
  import opened Wrappers
  import opened RubyText

  /** A parsed JSON value as Ruby's `JSON.parse` returns it: nil, booleans, integers, strings, arrays and hashes. */
  datatype Json =
    | JNull
    | JBool(b: bool)
    | JInt(i: int)
    | JString(s: string)
    | JArray(items: seq<Json>)
    | JObject(fields: map<string, Json>)

  /** The exceptions these helpers raise or rescue. */
  datatype RubyError = TypeError | NoMethodError

  /** `s` occurs somewhere in `t`. */
  predicate Contains(t: string, s: string)
    decreases |t|
  {
    StartsWith(t, s) || (t != [] && Contains(t[1..], s))
  }

  /**
   * `receiver[key]` for a string key: a hash looks the key up (nil when
   * absent), a string gives the key when it occurs in it, nil and booleans
   * have no `[]`, and arrays and integers refuse a string index.
   */
  function Index(receiver: Json, key: string): (r: Result<Json, RubyError>)
    ensures r.Ok? <==> receiver.JObject? || receiver.JString?
    ensures r.Err? ==> (r.error == NoMethodError <==> receiver.JNull? || receiver.JBool?)
    ensures receiver.JObject? && key in receiver.fields ==> r == Ok(receiver.fields[key])
    ensures receiver.JObject? && key !in receiver.fields ==> r == Ok(JNull)
    ensures receiver.JString? ==> r == Ok(if Contains(receiver.s, key) then JString(key) else JNull)
  {
    match receiver
    case JObject(m) => Ok(if key in m then m[key] else JNull)
    case JString(t) => Ok(if Contains(t, key) then JString(key) else JNull)
    case JNull => Err(NoMethodError)
    case JBool(_) => Err(NoMethodError)
    case JArray(_) => Err(TypeError)
    case JInt(_) => Err(TypeError)
  }

  /** `blank?` on a string: nothing but whitespace. */
  predicate BlankString(s: string)
  {
    forall i :: 0 <= i < |s| ==> s[i] in Whitespace
  }

  /** `present?`: not nil, not false, and not an empty or whitespace-only string, array or hash. */
  predicate Present(j: Json)
  {
    match j
    case JNull => false
    case JBool(b) => b
    case JInt(_) => true
    case JString(s) => !BlankString(s)
    case JArray(items) => items != []
    case JObject(m) => m != map[]
  }

  /** `value.to_i`: strings are read as decimal, nil is 0, and booleans, arrays and hashes have no `to_i`. */
  function ToI(value: Json): (r: Result<Json, RubyError>)
    ensures r.Ok? <==> value.JString? || value.JInt? || value.JNull?
    ensures r.Ok? ==> r.value.JInt?
    ensures value.JInt? ==> r == Ok(value)
    ensures value.JNull? ==> r == Ok(JInt(0))
  {
    match value
    case JString(s) => Ok(JInt(StringToI(s)))
    case JInt(_) => Ok(value)
    case JNull => Ok(JInt(0))
    case _ => Err(NoMethodError)
  }

  function Strings(fields: seq<string>): (r: seq<Json>)
    ensures |r| == |fields| && forall j :: 0 <= j < |fields| ==> r[j] == JString(fields[j])
  {
    seq(|fields|, j requires 0 <= j < |fields| => JString(fields[j]))
  }

  /** The strings of an array of strings. */
  function Unstrings(items: seq<Json>): seq<string>
    requires forall j :: 0 <= j < |items| ==> items[j].JString?
  {
    seq(|items|, j requires 0 <= j < |items| => items[j].s)
  }

  /**
   * The `string` case: with a present pattern the value passes only when it
   * is a string the pattern matches; `Regexp.new` refuses a pattern that is
   * not a string, and `=~` on anything but a string gives nil.
   */
  function CheckPattern(pattern: Json, value: Json, matches: (string, string) -> bool): (r: Result<Json, RubyError>)
    ensures r.Ok? ==> r.value == value
    ensures r.Err? ==> r.error == TypeError
    ensures r.Ok? <==> !Present(pattern) || (pattern.JString? && value.JString? && matches(pattern.s, value.s))
  {
    if !Present(pattern) then Ok(value)
    else if pattern.JString? && value.JString? && matches(pattern.s, value.s) then Ok(value)
    else Err(TypeError)
  }

  /** The `array` case: arrays pass, strings are split on commas, anything else becomes nil. */
  function ToArray(value: Json): (r: Json)
    ensures value.JArray? ==> r == value
    ensures value.JString? ==> r == JArray(Strings(SplitAny(value.s, {','})))
    ensures !value.JArray? && !value.JString? ==> r == JNull
  {
    match value
    case JArray(_) => value
    case JString(s) => JArray(Strings(SplitAny(s, {','})))
    case _ => JNull
  }

  /**
   * `set_value_by_type`: the value coerced to the definition's `type`
   * (`string`, `integer`, `array`), or unchanged for any other type. A
   * definition that cannot be indexed by a string raises.
   */
  function SetValueByType(definitions: Json, value: Json, matches: (string, string) -> bool): (r: Result<Json, RubyError>)
    ensures Index(definitions, "type").Err? ==> r == Err(Index(definitions, "type").error)
    ensures Index(definitions, "type").Ok? ==>
      var t := Index(definitions, "type").value;
      (t == JString("string") ==> r == CheckPattern(Index(definitions, "pattern").value, value, matches)) &&
      (t == JString("integer") ==> r == ToI(value)) &&
      (t == JString("array") ==> r == Ok(ToArray(value))) &&
      (t !in {JString("string"), JString("integer"), JString("array")} ==> r == Ok(value))
  {
    match Index(definitions, "type")
    case Err(e) => Err(e)
    case Ok(t) =>
      var pattern := Index(definitions, "pattern").value;
      if t == JString("string") then CheckPattern(pattern, value, matches)
      else if t == JString("integer") then ToI(value)
      else if t == JString("array") then Ok(ToArray(value))
      else Ok(value)
  }

  /** A definition naming only a type. */
  function TypeDefinition(t: string): Json
  {
    JObject(map["type" := JString(t)])
  }

  /** Coercing a value that is already coerced changes nothing. */
  lemma SetValueByTypeIdempotent(definitions: Json, value: Json, matches: (string, string) -> bool)
    requires SetValueByType(definitions, value, matches).Ok?
    ensures var v := SetValueByType(definitions, value, matches).value;
      SetValueByType(definitions, v, matches) == Ok(v)
  {
  }

  /** A `string` definition never changes the value: it passes or raises `TypeError`. */
  lemma StringTypeKeepsValue(definitions: Json, value: Json, matches: (string, string) -> bool)
    requires Index(definitions, "type") == Ok(JString("string"))
    ensures var r := SetValueByType(definitions, value, matches);
      (r.Ok? ==> r.value == value) && (r.Err? ==> r.error == TypeError)
  {
  }

  /** Without a pattern, a `string` definition passes every value. */
  lemma NoPatternPassesString(value: Json, matches: (string, string) -> bool)
    ensures SetValueByType(TypeDefinition("string"), value, matches) == Ok(value)
  {
    assert Index(TypeDefinition("string"), "pattern") == Ok(JNull);
  }

  /** An `integer` definition reads back a number written in decimal. */
  lemma IntegerReadsDecimal(n: nat, matches: (string, string) -> bool)
    ensures SetValueByType(TypeDefinition("integer"), JString(NatToString(n)), matches) == Ok(JInt(n))
  {
    StringToIRoundTrip(n);
  }

  /**
   * An `array` definition splits a comma-separated string into strings that
   * join back to it, unless it ends in a comma.
   */
  lemma {:induction false} ArraySplitJoinsBack(s: string, matches: (string, string) -> bool)
    requires s == [] || s[|s| - 1] != ','
    ensures var r := SetValueByType(TypeDefinition("array"), JString(s), matches);
      r.Ok? && r.value.JArray? && (forall j :: 0 <= j < |r.value.items| ==> r.value.items[j].JString?) &&
      Join(Unstrings(r.value.items), [',']) == s
  {
    var fields := SplitAny(s, {','});
    var r := SetValueByType(TypeDefinition("array"), JString(s), matches);
    assert r == Ok(JArray(Strings(fields)));
    assert Unstrings(Strings(fields)) == fields;
    JoinSplitAny(s, ',');
  }

  /** `field.present?` for an optional field name. */
  predicate FieldPresent(field: Option<string>)
  {
    field.Some? && !BlankString(field.value)
  }

  /** A `NoMethodError` is rescued into nil; a `TypeError` escapes. */
  function RescueNoMethod(r: Result<Json, RubyError>): (q: Result<Json, RubyError>)
    ensures q.Ok? <==> r.Ok? || r.error == NoMethodError
    ensures r.Ok? ==> q == r
    ensures r.Err? && r.error == NoMethodError ==> q == Ok(JNull)
  {
    match r
    case Ok(_) => r
    case Err(NoMethodError) => Ok(JNull)
    case Err(TypeError) => r
  }

  /**
   * `parse_definitions`: `schema[key]`, or `schema[key][field]` when a field
   * is given. A missing key gives nil either way, because `nil[field]`
   * raises a `NoMethodError` that is rescued.
   */
  function ParseDefinitions(schema: Json, key: string, field: Option<string>): (r: Result<Json, RubyError>)
    ensures schema.JObject? && key in schema.fields && !FieldPresent(field) ==>
      r == Ok(schema.fields[key])
    ensures schema.JObject? && key in schema.fields && FieldPresent(field) && schema.fields[key].JObject? ==>
      var defs := schema.fields[key].fields;
      r == Ok(if field.value in defs then defs[field.value] else JNull)
    ensures schema.JObject? && key !in schema.fields ==> r == Ok(JNull)
    ensures r.Err? ==> r.error == TypeError
    ensures r.Err? ==>
      (schema.JArray? || schema.JInt? ||
       (FieldPresent(field) && schema.JObject? && key in schema.fields &&
        (schema.fields[key].JArray? || schema.fields[key].JInt?)))
  {
    match Index(schema, key)
    case Err(e) => RescueNoMethod(Err(e))
    case Ok(defs) =>
      if FieldPresent(field) then RescueNoMethod(Index(defs, field.value)) else Ok(defs)
  }

  /** The schema's `properties` or `required` list, or one property's definition within them. */
  lemma MissingKeyIsNil(schema: map<string, Json>, key: string, field: Option<string>)
    requires key !in schema
    ensures ParseDefinitions(JObject(schema), key, field) == Ok(JNull)
  {
  }

  // ---------------------------------------------------------------------------
  // schema addresses

  const SchemaRepository: string := "https://raw.githubusercontent.com/HumanCellAtlas/metadata-schema/"
  const SchemaDirectory: string := "/json_schema/"
  const SchemaSuffix: string := ".json"

  /** `get_definition_url(version, entity)`. */
  function DefinitionUrl(version: string, entity: string): (r: string)
    ensures StartsWith(r, SchemaRepository)
    ensures |r| == |SchemaRepository| + |version| + |SchemaDirectory| + |entity| + |SchemaSuffix|
    ensures r[|SchemaRepository|..|SchemaRepository| + |version|] == version
    ensures r[|r| - |SchemaSuffix| - |entity|..|r| - |SchemaSuffix|] == entity
    ensures r[|r| - |SchemaSuffix|..] == SchemaSuffix
    ensures r[|SchemaRepository| + |version|..|r| - |SchemaSuffix| - |entity|] == SchemaDirectory
  {
    var r := SchemaRepository + version + SchemaDirectory + entity + SchemaSuffix;
    assert r[..|SchemaRepository|] == SchemaRepository;
    assert r[|SchemaRepository|..|SchemaRepository| + |version|] == version;
    r
  }

  /** The version is followed by the `/` that starts the schema directory. */
  lemma VersionThenSlash(v: string, e: string)
    ensures var u := DefinitionUrl(v, e);
      u[|SchemaRepository| + |v|] == '/' &&
      forall i :: 0 <= i < |v| ==> u[|SchemaRepository| + i] == v[i]
  {
  }

  /**
   * Different schemas have different addresses, when versions hold no `/`
   * (release versions are dotted numbers).
   */
  lemma DefinitionUrlInjective(v1: string, e1: string, v2: string, e2: string)
    requires forall i :: 0 <= i < |v1| ==> v1[i] != '/'
    requires forall i :: 0 <= i < |v2| ==> v2[i] != '/'
    requires DefinitionUrl(v1, e1) == DefinitionUrl(v2, e2)
    ensures v1 == v2 && e1 == e2
  {
    var u := DefinitionUrl(v1, e1);
    var p := |SchemaRepository|;
    assert u == SchemaRepository + v1 + SchemaDirectory + e1 + SchemaSuffix;
    assert u == SchemaRepository + v2 + SchemaDirectory + e2 + SchemaSuffix;
    VersionThenSlash(v1, e1);
    VersionThenSlash(v2, e2);
    assert |v1| == |v2|;
    assert v1 == u[p..p + |v1|] == v2;
    assert |e1| == |e2|;
    assert e1 == u[|u| - |SchemaSuffix| - |e1|..|u| - |SchemaSuffix|] == e2;
  }

  /** `filename.split('.').first`: the name up to its first dot, nil (written as "") when there is none. */
  function EntityOf(filename: string): (r: string)
    ensures '.' !in r
  {
    var parts := SplitAny(filename, {'.'});
    if parts == [] then "" else
      assert Avoids(parts[0], {'.'});
      parts[0]
  }

  /** The schema file `<entity>.<ext>` is fetched as the entity it names. */
  lemma EntityOfSchemaFile(entity: string, ext: string)
    requires entity != "" && '.' !in entity
    ensures EntityOf(entity + "." + ext) == entity
  {
    SplitAnyRawField(entity, '.', ext, {'.'});
    var raw := SplitAnyRaw(entity + "." + ext, {'.'});
    assert raw[0] == entity;
    var parts := DropTrailingEmpty(raw);
    assert parts != [] && parts[0] == raw[0];
  }
}
