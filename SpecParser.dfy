/** Spec documents: normalisation of the `features` front-matter value,
    derivation of a spec's id, title and body from a file's front matter, and
    loading every spec file a configuration points at
    (packages/specs-cli/src/core/specParser.ts). Reading a file and parsing
    its front matter are collaborators: their outcome is given as `read`. */
module SpecParser {
  import opened Wrappers
  import opened Text
  import opened Js
  import opened Paths
  import opened Config

  datatype Feature = Feature(id: string, accept: seq<string>)

  datatype SpecDoc = SpecDoc(
    specId: string,
    title: Option<string>,
    features: seq<Feature>,
    body: string,
    filePath: string)

  // ----------------------------------------------------- normalizeFeatures

  /** The acceptance criteria of a feature object: an array is stringified
      element by element, any other truthy value becomes a one-element list,
      a falsy one an empty list. */
  function AcceptList(accept: Value): (r: seq<string>)
    ensures accept.Arr? ==>
      |r| == |accept.items| && forall i :: 0 <= i < |r| ==> r[i] == ToStr(accept.items[i])
    ensures !accept.Arr? && Truthy(accept) ==> r == [ToStr(accept)]
    ensures !Truthy(accept) ==> r == []
  {
    match accept
    case Arr(items) => seq(|items|, i requires 0 <= i < |items| => ToStr(items[i]))
    case _ => if Truthy(accept) then [ToStr(accept)] else []
  }

  /** The feature an object (or array) entry stands for: its `id` when that
      is truthy, else the fallback id. */
  function ObjectFeature(obj: Value, fallbackId: string): (f: Feature)
    ensures Truthy(Prop(obj, "id")) ==> f.id == ToStr(Prop(obj, "id"))
    ensures !Truthy(Prop(obj, "id")) ==> f.id == fallbackId
    ensures f.accept == AcceptList(Prop(obj, "accept"))
  {
    Feature(ToStr(Or(Prop(obj, "id"), Str(fallbackId))), AcceptList(Prop(obj, "accept")))
  }

  /** The entries of a `features` array that yield a feature: strings and
      non-null objects (arrays included). */
  predicate IsFeatureEntry(entry: Value)
  {
    entry.Str? || entry.Arr? || entry.Obj?
  }

  /** What one array entry contributes after `.filter(Boolean)`: its
      feature, or nothing for the `null` the map produces. */
  function EntryFeatures(entry: Value, fallbackId: string): seq<Feature>
  {
    match entry
    case Str(s) => [Feature(s, [])]
    case Arr(_) => [ObjectFeature(entry, fallbackId)]
    case Obj(_) => [ObjectFeature(entry, fallbackId)]
    case _ => []
  }

  /** `raw.map(...).filter(Boolean)` over a `features` array. */
  function NormalizeEntries(entries: seq<Value>, fallbackId: string): (r: seq<Feature>)
    ensures |r| <= |entries|
  {
    if |entries| == 0 then []
    else EntryFeatures(entries[0], fallbackId) + NormalizeEntries(entries[1..], fallbackId)
  }

  /** `normalizeFeatures(raw, fallbackId)`: total over every value; only
      an array can yield other than exactly one feature. */
  function NormalizeFeatures(raw: Value, fallbackId: string): (r: seq<Feature>)
    ensures raw.Arr? ==> |r| <= |raw.items|
    ensures !raw.Arr? ==> |r| == 1
  {
    match raw
    case Arr(entries) => NormalizeEntries(entries, fallbackId)
    case Obj(_) => [ObjectFeature(raw, fallbackId)]
    case _ => [Feature(fallbackId, [])]
  }

  /** What a single array entry contributes: a string `s` gives
      `{id: s, accept: []}`, a non-null object gives its object feature, and
      anything else (`null`, `undefined`, numbers, booleans) gives nothing. */
  lemma EntryContribution(entry: Value, fallbackId: string)
    ensures entry.Str? ==> NormalizeEntries([entry], fallbackId) == [Feature(entry.s, [])]
    ensures entry.Arr? || entry.Obj? ==>
      NormalizeEntries([entry], fallbackId) == [ObjectFeature(entry, fallbackId)]
    ensures !IsFeatureEntry(entry) ==> NormalizeEntries([entry], fallbackId) == []
  {
  }

  /** Normalising a concatenation concatenates the normalised parts: each
      entry is mapped on its own and surviving entries keep their order. */
  lemma {:induction false} NormalizeEntriesAppend(a: seq<Value>, b: seq<Value>, fallbackId: string)
    ensures NormalizeEntries(a + b, fallbackId)
         == NormalizeEntries(a, fallbackId) + NormalizeEntries(b, fallbackId)
  {
    if |a| == 0 {
      assert a + b == b;
    } else {
      var head := EntryFeatures(a[0], fallbackId);
      assert (a + b)[0] == a[0];
      assert (a + b)[1..] == a[1..] + b;
      assert NormalizeEntries(a + b, fallbackId) == head + NormalizeEntries(a[1..] + b, fallbackId);
      NormalizeEntriesAppend(a[1..], b, fallbackId);
      assert NormalizeEntries(a, fallbackId) == head + NormalizeEntries(a[1..], fallbackId);
    }
  }

  /** The number of array entries that survive the filter. */
  function CountFeatureEntries(entries: seq<Value>): nat
  {
    if |entries| == 0 then 0
    else (if IsFeatureEntry(entries[0]) then 1 else 0) + CountFeatureEntries(entries[1..])
  }

  /** An array yields exactly one feature per string or object entry, so an
      empty array yields none; every other value yields exactly one feature,
      the fallback one unless it is an object. */
  lemma {:induction false} NormalizeFeaturesCount(raw: Value, fallbackId: string)
    ensures raw.Arr? ==> |NormalizeFeatures(raw, fallbackId)| == CountFeatureEntries(raw.items)
    ensures raw == Arr([]) ==> NormalizeFeatures(raw, fallbackId) == []
    ensures raw.Obj? ==> NormalizeFeatures(raw, fallbackId) == [ObjectFeature(raw, fallbackId)]
    ensures !raw.Arr? && !raw.Obj? ==> NormalizeFeatures(raw, fallbackId) == [Feature(fallbackId, [])]
  {
    if raw.Arr? {
      EntriesCount(raw.items, fallbackId);
    }
  }

  lemma {:induction false} EntriesCount(entries: seq<Value>, fallbackId: string)
    ensures |NormalizeEntries(entries, fallbackId)| == CountFeatureEntries(entries)
  {
    if |entries| > 0 {
      EntriesCount(entries[1..], fallbackId);
    }
  }

  // --------------------------------------------------------- parseSpecFile

  /** The parsed front matter of one file: its data object and the markdown
      content after it. */
  datatype FrontMatter = FrontMatter(data: map<string, Value>, content: string)

  /** `String(data.spec_id || data.id || basename-without-extension)`. */
  function SpecIdOf(data: map<string, Value>, filePath: string): string
  {
    var d := Obj(data);
    ToStr(Or(Or(Prop(d, "spec_id"), Prop(d, "id")), Str(Stem(filePath))))
  }

  /** `parseSpecFile` once the file has been read and its front matter
      parsed. */
  function ParseSpecFile(filePath: string, fm: FrontMatter): (spec: SpecDoc)
    ensures spec.filePath == filePath
    ensures spec.specId == SpecIdOf(fm.data, filePath)
  {
    var d := Obj(fm.data);
    var specId := SpecIdOf(fm.data, filePath);
    var title := if Truthy(Prop(d, "title")) then Some(ToStr(Prop(d, "title"))) else None;
    SpecDoc(specId, title, NormalizeFeatures(Prop(d, "features"), specId), Trim(fm.content), filePath)
  }

  /** The spec id is `spec_id` when truthy, else `id` when truthy, else the
      file's name without directory and extension. */
  lemma SpecIdRule(data: map<string, Value>, filePath: string)
    ensures var d := Obj(data);
      && (Truthy(Prop(d, "spec_id")) ==> SpecIdOf(data, filePath) == ToStr(Prop(d, "spec_id")))
      && (!Truthy(Prop(d, "spec_id")) && Truthy(Prop(d, "id")) ==>
            SpecIdOf(data, filePath) == ToStr(Prop(d, "id")))
      && (!Truthy(Prop(d, "spec_id")) && !Truthy(Prop(d, "id")) ==>
            SpecIdOf(data, filePath) == Stem(filePath))
  {
  }

  /** The spec id is empty exactly when the value it comes from is truthy
      yet renders empty (`spec_id: []` or `spec_id: [null]` does not fall
      back to `id` or the file name), or when both keys are falsy and the
      file name has an empty stem. */
  lemma EmptySpecId(data: map<string, Value>, filePath: string)
    ensures var d := Obj(data);
      SpecIdOf(data, filePath) == "" <==>
        if Truthy(Prop(d, "spec_id")) then EmptyRenderingArray(Prop(d, "spec_id"))
        else if Truthy(Prop(d, "id")) then EmptyRenderingArray(Prop(d, "id"))
        else Stem(filePath) == ""
  {
    var d := Obj(data);
    SpecIdRule(data, filePath);
    if Truthy(Prop(d, "spec_id")) {
      TruthyRendersEmpty(Prop(d, "spec_id"));
    } else if Truthy(Prop(d, "id")) {
      TruthyRendersEmpty(Prop(d, "id"));
    }
  }

  /** A file `dir/name.md` whose front matter sets neither `spec_id` nor
      `id` gets the id `name`, and with no `features` key it has the single
      feature `{id: name, accept: []}`. */
  lemma SpecIdFromFileName(dir: string, name: string, fm: FrontMatter)
    requires name != "" && '/' !in name
    requires "spec_id" !in fm.data && "id" !in fm.data && "features" !in fm.data
    ensures ParseSpecFile(JoinPath(dir, name + ".md"), fm).specId == name
    ensures ParseSpecFile(JoinPath(dir, name + ".md"), fm).features == [Feature(name, [])]
  {
    var path := JoinPath(dir, name + ".md");
    MarkdownName(name);
    StemOfJoin(dir, name, "md");
    var d := Obj(fm.data);
    assert Prop(d, "spec_id") == Undefined && Prop(d, "id") == Undefined;
    SpecIdRule(fm.data, path);
    assert Prop(d, "features") == Undefined;
  }

  /** `name.md` is `name`, a dot and the extension `md`. */
  lemma MarkdownName(name: string)
    ensures name + ".md" == name + "." + "md"
  {
  }

  /** The title is absent exactly when the front matter's `title` is falsy;
      the features fall back to the spec id; the body is the trimmed
      content, so it neither starts nor ends with whitespace. */
  lemma ParsedFields(filePath: string, fm: FrontMatter)
    ensures var spec, d := ParseSpecFile(filePath, fm), Obj(fm.data);
      && (spec.title.None? <==> !Truthy(Prop(d, "title")))
      && (spec.title.Some? ==> spec.title.value == ToStr(Prop(d, "title")))
      && spec.features == NormalizeFeatures(Prop(d, "features"), spec.specId)
      && spec.body == Trim(fm.content)
      && (spec.body == [] || (!IsJsWhitespace(spec.body[0]) && !IsJsWhitespace(spec.body[|spec.body| - 1])))
  {
    TrimIsMaximalInnerSlice(fm.content);
  }

  // ------------------------------------------------------------- loadSpecs

  const DefaultSpecPattern: string := "specs/**/*.md"

  /** `config.specs?.paths?.length ? config.specs.paths : ['specs/**/*.md']`. */
  function SpecPatterns(config: Value): (r: Value)
    ensures Truthy(LengthOf(r))
  {
    var paths := Prop(Prop(config, "specs"), "paths");
    if Truthy(LengthOf(paths)) then paths else Arr([Str(DefaultSpecPattern)])
  }

  /** Missing or empty `specs.paths` fall back to the default pattern; a
      non-empty list is used as given. */
  lemma SpecPatternsRule(config: Value)
    ensures var paths := Prop(Prop(config, "specs"), "paths");
      && (paths.Undefined? || paths == Arr([]) ==> SpecPatterns(config) == Arr([Str(DefaultSpecPattern)]))
      && (paths.Arr? && |paths.items| > 0 ==> SpecPatterns(config) == paths)
  {
  }

  /** Without a configuration file specs are looked up under the default
      pattern. */
  lemma PatternsWithoutConfigFile()
    ensures SpecPatterns(LoadConfig(Missing).value) == Arr([Str(DefaultSpecPattern)])
  {
    assert "specs" in Sections;
    assert Prop(DefaultConfig, "specs") == DefaultSpecs;
  }

  /** Setting `specs.paths` in the configuration file to an empty list falls
      back to the default pattern, while a non-empty list is used as
      given. */
  lemma PatternsFromConfigFile(paths: seq<Value>)
    ensures var doc := Obj(map["specs" := Obj(map["paths" := Arr(paths)])]);
      && (|paths| == 0 ==> SpecPatterns(LoadConfig(Parsed(doc)).value) == Arr([Str(DefaultSpecPattern)]))
      && (|paths| > 0 ==> SpecPatterns(LoadConfig(Parsed(doc)).value) == Arr(paths))
  {
    var doc := Obj(map["specs" := Obj(map["paths" := Arr(paths)])]);
    ConfiguredSpecPaths(paths);
    SpecPatternsRule(LoadConfig(Parsed(doc)).value);
  }

  /** The specs the files yield, in file order, skipping every file that
      could not be read or parsed. */
  function LoadedSpecs(files: seq<string>, read: string -> Option<FrontMatter>): seq<SpecDoc>
  {
    Collect(files, SpecsOf(read))
  }

  /** What `each` gives for every file, concatenated in file order. */
  function Collect(files: seq<string>, each: string -> seq<SpecDoc>): seq<SpecDoc>
  {
    if |files| == 0 then [] else Collect(files[..|files| - 1], each) + each(files[|files| - 1])
  }

  /** The contribution of a file, as a function of the file. */
  function SpecsOf(read: string -> Option<FrontMatter>): string -> seq<SpecDoc>
  {
    file => FileSpecs(file, read)
  }

  /** What one file contributes: its spec, or nothing when it fails. */
  function FileSpecs(file: string, read: string -> Option<FrontMatter>): seq<SpecDoc>
  {
    match read(file)
    case None => []
    case Some(fm) => [ParseSpecFile(file, fm)]
  }

  /** `loadSpecs`: expand the patterns with `glob`, then parse each file in
      turn, skipping the ones that fail. */
  method LoadSpecs(config: Value, glob: Value -> seq<string>, read: string -> Option<FrontMatter>)
    returns (specs: seq<SpecDoc>)
    ensures specs == LoadedSpecs(glob(SpecPatterns(config)), read)
  {
    var files := glob(SpecPatterns(config));
    specs := [];
    for i := 0 to |files|
      invariant specs == LoadedSpecs(files[..i], read)
    {
      LoadedSpecsNext(files, i, read);
      match read(files[i]) {
        case None =>
        case Some(fm) =>
          specs := specs + [ParseSpecFile(files[i], fm)];
      }
    }
    assert files[..|files|] == files;
  }

  /** A failing file affects nothing but itself: the specs of a list of
      files are the specs of its parts, concatenated. */
  lemma {:induction false} LoadedSpecsAppend(a: seq<string>, b: seq<string>, read: string -> Option<FrontMatter>)
    ensures LoadedSpecs(a + b, read) == LoadedSpecs(a, read) + LoadedSpecs(b, read)
  {
    CollectAppend(a, b, SpecsOf(read));
  }

  /** Collecting over a concatenation concatenates the collections. */
  lemma {:induction false} CollectAppend(a: seq<string>, b: seq<string>, each: string -> seq<SpecDoc>)
    ensures Collect(a + b, each) == Collect(a, each) + Collect(b, each)
    decreases |b|
  {
    if |b| == 0 {
      assert a + b == a;
    } else {
      var init := b[..|b| - 1];
      var ab := a + b;
      assert ab[..|ab| - 1] == a + init && ab[|ab| - 1] == b[|b| - 1];
      CollectAppend(a, init, each);
    }
  }

  /** The specs of the first `i + 1` files are those of the first `i`,
      then what file `i` contributes. */
  lemma LoadedSpecsNext(files: seq<string>, i: nat, read: string -> Option<FrontMatter>)
    requires i < |files|
    ensures LoadedSpecs(files[..i + 1], read) == LoadedSpecs(files[..i], read) + FileSpecs(files[i], read)
  {
    assert files[..i + 1][..i] == files[..i];
    LoadedSpecsLast(files[..i + 1], read);
  }

  /** The last file's specs come last. */
  lemma LoadedSpecsLast(files: seq<string>, read: string -> Option<FrontMatter>)
    requires |files| > 0
    ensures LoadedSpecs(files, read)
      == LoadedSpecs(files[..|files| - 1], read) + FileSpecs(files[|files| - 1], read)
  {
  }

  /** Every loaded spec is the parse of one of the files, and there are at
      most as many specs as files. */
  lemma {:induction false} LoadedSpecsFromFiles(files: seq<string>, read: string -> Option<FrontMatter>)
    ensures |LoadedSpecs(files, read)| <= |files|
    ensures forall s :: s in LoadedSpecs(files, read) ==>
      s.filePath in files && read(s.filePath).Some? && s == ParseSpecFile(s.filePath, read(s.filePath).value)
  {
    if |files| > 0 {
      var init := files[..|files| - 1];
      var last := files[|files| - 1];
      LoadedSpecsFromFiles(init, read);
      assert forall f :: f in init ==> f in files;
      assert LoadedSpecs(files, read) == LoadedSpecs(init, read) + FileSpecs(last, read);
      forall s | s in FileSpecs(last, read)
        ensures s.filePath in files && read(s.filePath).Some? && s == ParseSpecFile(s.filePath, read(s.filePath).value)
      {
        assert s == ParseSpecFile(last, read(last).value);
      }
    }
  }

  /** Every file of `files` can be read. */
  predicate AllReadable(files: seq<string>, read: string -> Option<FrontMatter>)
  {
    forall i :: 0 <= i < |files| ==> read(files[i]).Some?
  }

  /** `specs` holds the parse of each file of `files`, in file order. */
  predicate OnePerFile(specs: seq<SpecDoc>, files: seq<string>, read: string -> Option<FrontMatter>)
    requires AllReadable(files, read)
  {
    && |specs| == |files|
    && forall i :: 0 <= i < |files| ==> specs[i] == ParseSpecFile(files[i], read(files[i]).value)
  }

  /** When every file can be read there is one spec per file, in file
      order. */
  lemma {:induction false} LoadedSpecsAllRead(files: seq<string>, read: string -> Option<FrontMatter>)
    requires AllReadable(files, read)
    ensures OnePerFile(LoadedSpecs(files, read), files, read)
  {
    if |files| > 0 {
      var init := files[..|files| - 1];
      ReadablePrefix(files, read);
      LoadedSpecsAllRead(init, read);
      LoadedSpecsStep(files, read);
    }
  }

  /** Readability carries over to a prefix. */
  lemma ReadablePrefix(files: seq<string>, read: string -> Option<FrontMatter>)
    requires |files| > 0 && AllReadable(files, read)
    ensures AllReadable(files[..|files| - 1], read)
  {
    var init := files[..|files| - 1];
    assert forall i :: 0 <= i < |init| ==> init[i] == files[i];
  }

  /** One step of the above: the last file's spec goes last. */
  lemma LoadedSpecsStep(files: seq<string>, read: string -> Option<FrontMatter>)
    requires |files| > 0 && AllReadable(files, read) && AllReadable(files[..|files| - 1], read)
    requires OnePerFile(LoadedSpecs(files[..|files| - 1], read), files[..|files| - 1], read)
    ensures OnePerFile(LoadedSpecs(files, read), files, read)
  {
    var n := |files|;
    var init := files[..n - 1];
    var last := files[n - 1];
    var prev := LoadedSpecs(init, read);
    var x := ParseSpecFile(last, read(last).value);
    assert FileSpecs(last, read) == [x];
    assert LoadedSpecs(files, read) == prev + [x];
    forall i | 0 <= i < n
      ensures LoadedSpecs(files, read)[i] == ParseSpecFile(files[i], read(files[i]).value)
    {
      if i < n - 1 {
        assert (prev + [x])[i] == prev[i] && init[i] == files[i];
      }
    }
  }
}
