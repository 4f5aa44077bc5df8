/**
 * `ProjectMetadatum`: a study's Human Cell Atlas project record. It keeps
 * the JSON payload and the schema version it follows, and is addressed by a
 * URL made from the portal's own host and the study's slug.
 *
 * The portal's default URL options are parameters; the project schema is a
 * parameter, as in `HcaUtilities`.
 */
module ProjectMetadatum {
  import opened Wrappers
  import opened RubyText
  import opened HcaUtilities

  datatype ProjectRecord = ProjectRecord(
    payload: Option<map<string, Json>>, version: Option<string>,
    name: Option<string>, slug: Option<string>)

  /** `validates_presence_of :payload, :version`: a non-empty payload hash and a non-blank version. */
  predicate Valid(p: ProjectRecord): (b: bool)
    ensures b ==> p.payload.Some? && p.version.Some?
    ensures p.payload == Some(map[]) ==> !b
    ensures p.version.Some? && BlankString(p.version.value) ==> !b
    ensures p.payload.Some? && p.payload.value != map[] && p.version.Some? && !BlankString(p.version.value) ==> b
  {
    p.payload.Some? && p.payload.value != map[] &&
    p.version.Some? && !BlankString(p.version.value)
  }

  /** A record missing its payload or its version is never saved. */
  lemma MissingPartIsInvalid(p: ProjectRecord)
    requires p.payload.None? || p.version.None?
    ensures !Valid(p)
  {
  }

  const StudyPath: string := "/single_cell/study/"

  /** `"#{protocol}://#{host}/single_cell/study/#{slug}"`, a nil slug written as nothing. */
  function ProjectIdentifier(protocol: string, host: string, p: ProjectRecord): (r: string)
    ensures StartsWith(r, protocol + "://" + host + StudyPath)
    ensures p.slug.Some? ==> r[|protocol + "://" + host + StudyPath|..] == p.slug.value
    ensures p.slug.None? ==> r == protocol + "://" + host + StudyPath
  {
    var base := protocol + "://" + host + StudyPath;
    var slug := if p.slug.Some? then p.slug.value else "";
    var r := base + slug;
    assert r[..|base|] == base;
    r
  }

  /** On one portal, two projects share an identifier only when they share a slug. */
  lemma ProjectIdentifierDeterminesSlug(protocol: string, host: string, p: ProjectRecord, q: ProjectRecord)
    requires p.slug.Some? && q.slug.Some?
    requires ProjectIdentifier(protocol, host, p) == ProjectIdentifier(protocol, host, q)
    ensures p.slug == q.slug
  {
  }

  /**
   * `definition_url`: the HCA address of the `project` schema of the record's
   * version, a nil version written as nothing.
   */
  function DefinitionUrl(p: ProjectRecord): (r: string)
    ensures p.version.Some? ==> r == HcaUtilities.DefinitionUrl(p.version.value, "project")
    ensures p.version.None? ==> r == HcaUtilities.DefinitionUrl("", "project")
  {
    var version := if p.version.Some? then p.version.value else "";
    "https://raw.githubusercontent.com/HumanCellAtlas/metadata-schema/" + version + "/json_schema/project.json"
  }

  /**
   * `definitions(key, field)`: `schema[key]`, or the field within it; a
   * missing key gives nil.
   */
  function Definitions(schema: Json, key: string, field: Option<string>): (r: Result<Json, RubyError>)
    ensures schema.JObject? && key in schema.fields && !FieldPresent(field) ==>
      r == Ok(schema.fields[key])
    ensures schema.JObject? && key in schema.fields && FieldPresent(field) && schema.fields[key].JObject? ==>
      var defs := schema.fields[key].fields;
      r == Ok(if field.value in defs then defs[field.value] else JNull)
    ensures schema.JObject? && key !in schema.fields ==> r == Ok(JNull)
  {
    ParseDefinitions(schema, key, field)
  }

  /**
   * `set_value_by_type`: the same coercion as the HCA helper. The definition's
   * `items` is read, which raises exactly when reading `type` does, and is
   * not used.
   */
  function SetValueByType(definitions: Json, value: Json, matches: (string, string) -> bool): (r: Result<Json, RubyError>)
    ensures r == HcaUtilities.SetValueByType(definitions, value, matches)
  {
    match Index(definitions, "type")
    case Err(e) => Err(e)
    case Ok(t) =>
      var items := Index(definitions, "items").value;
      var pattern := Index(definitions, "pattern").value;
      if t == JString("string") then CheckPattern(pattern, value, matches)
      else if t == JString("integer") then ToI(value)
      else if t == JString("array") then Ok(ToArray(value))
      else Ok(value)
  }
}
