/** `loadConfig` of packages/specs-cli/src/core/config.ts: the built-in
    defaults, and the merge of a `.specs.yml` document over them, which
    overrides top-level keys and merges each of the three known sections
    one level deep. Whether the file exists and what the YAML parser makes
    of it are inputs. */
module Config {
  import opened Wrappers
  import opened Js

  const DefaultSpecs: Value :=
    Obj(map["paths" := Arr([Str("specs/**/*.md")]), "format" := Str("markdown+yaml")])

  const DefaultGithub: Value :=
    Obj(map["project_name" := Undefined, "issue_labels" := Arr([Str("spec")])])

  const DefaultCodex: Value :=
    Obj(map["context_paths" := Arr([Str("src"), Str("tests")])])

  /** The sections merged key by key. */
  const Sections: set<string> := {"specs", "github", "codex"}

  predicate IsSection(name: string)
  {
    name in Sections
  }

  function SectionDefaults(name: string): (v: Value)
    requires IsSection(name)
    ensures v.Obj?
  {
    if name == "specs" then DefaultSpecs else if name == "github" then DefaultGithub else DefaultCodex
  }

  /** `{ specs: {...}, github: {...}, codex: {...} }`. */
  const DefaultConfig: Value :=
    Obj(map name | name in Sections :: SectionDefaults(name))

  /** The configuration file as the loader finds it: absent, present but
      refused by `readFileSync` (a directory, no read permission), rejected
      by the YAML parser, or parsed to a value (`undefined` for an empty
      file). */
  datatype ConfigFile =
    | Missing
    | Unreadable(code: string)
    | Unparseable(message: string)
    | Parsed(doc: Value)

  datatype ConfigError = ReadFailed(code: string) | InvalidYaml(message: string)

  /** `{ ...defaults, ...(parsed[name] || {}) }`. */
  function MergedSection(parsed: Value, name: string): Value
    requires IsSection(name)
  {
    Obj(Spread(SectionDefaults(name)) + Spread(Or(Prop(parsed, name), Obj(map[]))))
  }

  /** The object `loadConfig` builds from the parsed document. */
  function Merge(parsed: Value): Value
  {
    Obj(Spread(DefaultConfig) + Spread(parsed)
      + map name | name in Sections :: MergedSection(parsed, name))
  }

  /** `loadConfig()`: the defaults when there is no file; a read error and
      a parse error are passed on; otherwise the merge of
      `yaml.load(raw) || {}`. */
  function LoadConfig(file: ConfigFile): (r: Result<Value, ConfigError>)
    ensures file.Missing? ==> r == Ok(DefaultConfig)
    ensures r.Err? <==> file.Unreadable? || file.Unparseable?
    ensures file.Unreadable? ==> r == Err(ReadFailed(file.code))
    ensures file.Unparseable? ==> r == Err(InvalidYaml(file.message))
  {
    match file
    case Missing => Ok(DefaultConfig)
    case Unreadable(c) => Err(ReadFailed(c))
    case Unparseable(m) => Err(InvalidYaml(m))
    case Parsed(doc) => Ok(Merge(Or(doc, Obj(map[]))))
  }

  /** An empty file, an empty document and `{}` yield exactly the
      defaults. */
  lemma EmptyDocumentGivesDefaults(doc: Value)
    requires !Truthy(doc) || doc == Obj(map[])
    ensures LoadConfig(Parsed(doc)) == Ok(DefaultConfig)
  {
    assert Or(doc, Obj(map[])) == Obj(map[]);
    MergeOfEmpty();
  }

  /** Merging `{}` over the defaults changes nothing. */
  lemma MergeOfEmpty()
    ensures Merge(Obj(map[])) == DefaultConfig
  {
    var defaults := map name | name in Sections :: SectionDefaults(name);
    SectionsOfEmpty();
    assert Spread(DefaultConfig) == defaults;
    assert Spread(Obj(map[])) == map[];
    assert defaults + map[] == defaults;
    assert defaults + defaults == defaults;
  }

  /** Merging `{}` leaves every section at its defaults. */
  lemma SectionsOfEmpty()
    ensures (map name | name in Sections :: MergedSection(Obj(map[]), name))
         == (map name | name in Sections :: SectionDefaults(name))
  {
    forall name | name in Sections
      ensures MergedSection(Obj(map[]), name) == SectionDefaults(name)
    {
      SectionOfEmpty(name);
    }
  }

  /** Merging `{}` into a section leaves its defaults. */
  lemma SectionOfEmpty(name: string)
    requires IsSection(name)
    ensures MergedSection(Obj(map[]), name) == SectionDefaults(name)
  {
    assert Spread(SectionDefaults(name)) + map[] == SectionDefaults(name).fields;
  }

  /** Inside a section, a key the document sets wins (a list replaces the
      default list wholesale) and every other key keeps its default. */
  lemma SectionKeyRule(doc: Value, name: string, key: string)
    requires IsSection(name)
    ensures var parsed := Or(doc, Obj(map[]));
      var given := Spread(Or(Prop(parsed, name), Obj(map[])));
      var c := LoadConfig(Parsed(doc)).value;
      && Prop(c, name).Obj?
      && (key in given ==> Prop(Prop(c, name), key) == given[key])
      && (key !in given ==> Prop(Prop(c, name), key) == Prop(SectionDefaults(name), key))
  {
    var parsed := Or(doc, Obj(map[]));
    assert LoadConfig(Parsed(doc)).value == Merge(parsed);
    SectionOfMerge(parsed, name);
    MergedSectionKey(parsed, name, key);
  }

  /** A key of a merged section comes from the document's section when that
      sets it, and from the defaults otherwise. */
  lemma MergedSectionKey(parsed: Value, name: string, key: string)
    requires IsSection(name)
    ensures var given := Spread(Or(Prop(parsed, name), Obj(map[])));
      && MergedSection(parsed, name).Obj?
      && (key in given ==> Prop(MergedSection(parsed, name), key) == given[key])
      && (key !in given ==> Prop(MergedSection(parsed, name), key) == Prop(SectionDefaults(name), key))
  {
  }

  /** Each known section of the merge is that section merged on its own. */
  lemma SectionOfMerge(parsed: Value, name: string)
    requires IsSection(name)
    ensures Prop(Merge(parsed), name) == MergedSection(parsed, name)
  {
    var sections := map n | n in Sections :: MergedSection(parsed, n);
    assert name in sections;
    assert Merge(parsed).fields[name] == sections[name];
  }

  /** Every default key of every section is present after the merge, so
      `specs.paths` always exists. */
  lemma DefaultKeysSurvive(doc: Value, name: string, key: string)
    requires IsSection(name) && key in SectionDefaults(name).fields
    ensures var c := LoadConfig(Parsed(doc));
      c.Ok? && Prop(c.value, name).Obj? && key in Prop(c.value, name).fields
  {
    var parsed := Or(doc, Obj(map[]));
    assert LoadConfig(Parsed(doc)) == Ok(Merge(parsed));
    SectionOfMerge(parsed, name);
    var defaults := Spread(SectionDefaults(name));
    var given := Spread(Or(Prop(parsed, name), Obj(map[])));
    assert key in defaults;
    assert key in (defaults + given).Keys;
  }

  /** Keys outside the three sections are taken from the document as they
      are (so `specKit` reaches the template fetcher); the defaults have no
      other keys. */
  lemma OtherKeysCopied(doc: Value, key: string)
    requires !IsSection(key)
    ensures var given := Spread(Or(doc, Obj(map[])));
      Prop(LoadConfig(Parsed(doc)).value, key) == if key in given then given[key] else Undefined
  {
  }

  /** `specs.paths` set in the file replaces the default list. */
  lemma ConfiguredSpecPaths(paths: seq<Value>)
    ensures var doc := Obj(map["specs" := Obj(map["paths" := Arr(paths)])]);
      Prop(Prop(LoadConfig(Parsed(doc)).value, "specs"), "paths") == Arr(paths)
  {
    var section := Obj(map["paths" := Arr(paths)]);
    var doc := Obj(map["specs" := section]);
    assert "specs" in Sections;
    SectionKeyRule(doc, "specs", "paths");
    assert Or(Prop(Or(doc, Obj(map[])), "specs"), Obj(map[])) == section;
  }
}
