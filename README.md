# specs-cli core, modelled in Dafny

`specs-cli` keeps a repository's Markdown specifications in step with its
issue tracker. Each spec is a Markdown file with YAML front matter that names
the spec and lists its features. The core of the tool does the following:

- **Configuration** loads `.specs.yml` over built-in defaults.
- **Spec parsing** normalises every spec file into a `SpecDoc`: an id, an
  optional title, its features with acceptance criteria, a trimmed body and
  the file path. A file that fails is skipped.
- **Issue sync** renders a spec as a GitHub issue and creates or updates that
  issue through the `gh` CLI. The issue is first looked up by title, then by
  a `spec_id:` tag. The sync can also add the issue to a project.
- **Task selection** picks the next feature to work on: the first feature
  with an id, in the newest spec file that has one.
- **Coverage** builds a report with one pending item per feature.
- **Spec-kit** downloads the spec-kit templates into a directory and stops
  at the first failed download or write.

The project has one module per source file and three support modules:

- `Config` models `config.ts`.
- `SpecParser` models `specParser.ts`.
- `GhClient` models `ghClient.ts`.
- `TaskSelector` models `taskSelector.ts`.
- `CoverageEngine` models `coverageEngine.ts`.
- `SpecKit` models `specKit.ts`.
- `Js` models the JavaScript value semantics the code relies on:
  truthiness, `||`, property access, `String(v)`, `.length`, object spread and
  `for … of`.
- `Text` models string operations: `join`, `split`, `trim` and decimal
  numbers.
- `Paths` models `path.basename`, `path.extname` and `path.join`.
- `Wrappers` holds `Option` and `Result`.

Two core types are classes, because the source changes their state in place:

- The GitHub side is the class `GhClient.Remote`. It holds the issues by
  number, the project items, the next issue number and the log of every `gh`
  call made.
- The file system the template fetcher writes to is the class
  `SpecKit.Workspace`.

Four kinds of outside input are parameters of the model:

- The results of the two issue searches are an oracle.
- So is what `gh issue create` prints.
- So is the outcome of `gh project item-add`.
- Modification times, file reading and front-matter parsing, glob expansion,
  template downloads and whether a template's file can be written are
  functions passed in.

The loops of the source are methods with loop invariants, each proved equal
to a recursive specification function:

- `loadSpecs` is `SpecParser.LoadSpecs`.
- `runCoverage` is `CoverageEngine.RunCoverage`.
- `selectNextTask` is `TaskSelector.SelectNextTask`. The copy-and-sort is an
  insertion sort on an array.
- `fetchSpecKitTemplates` is `SpecKit.Workspace.FetchSpecKitTemplates`, whose
  loop is `SpecKit.Workspace.FetchEach`.

The properties of those functions are proved as lemmas.

## Model

| member | source | states |
|---|---|---|
| Config.SectionDefaults | packages/specs-cli/src/core/config.ts:19-31 | each of the three default sections is an object |
| Config.LoadConfig | packages/specs-cli/src/core/config.ts:33-56 | a missing file gives exactly the defaults; the result is an error exactly when the file exists but cannot be read (a directory, no read permission) or its YAML does not parse, and it carries that failure |
| Config.Merge | packages/specs-cli/src/core/config.ts:39-55 | the object built from the parsed document: the defaults, then the document's own keys, then the three merged sections; stated by `SectionOfMerge`, `SectionKeyRule`, `OtherKeysCopied` and `EmptyDocumentGivesDefaults` |
| Config.EmptyDocumentGivesDefaults | packages/specs-cli/src/core/config.ts:39-55 | an empty file, a falsy document or `{}` yields exactly the default configuration |
| Config.SectionKeyRule | packages/specs-cli/src/core/config.ts:43-54 | inside `specs`, `github` and `codex`, a key the file sets wins (a list replaces the default list whole), and every other key keeps its default |
| Config.SectionOfMerge | packages/specs-cli/src/core/config.ts:43-54 | each known section of the result is that section's defaults merged with the file's section |
| Config.MergedSectionKey | packages/specs-cli/src/core/config.ts:43-54 | a key of a merged section is the document section's value when that sets it, and the default otherwise |
| Config.DefaultKeysSurvive | packages/specs-cli/src/core/config.ts:43-54 | the loaded config always has each section as an object holding every default key of that section (so `specs.paths` always exists) |
| Config.OtherKeysCopied | packages/specs-cli/src/core/config.ts:40-42 | top-level keys other than the three sections are the document's own values, or absent |
| Config.ConfiguredSpecPaths | packages/specs-cli/src/core/config.ts:43-46 | a `specs.paths` list in the file replaces the default list |
| SpecParser.AcceptList | packages/specs-cli/src/core/specParser.ts:31-35 | an array of criteria is stringified element by element, another truthy value becomes a one-element list, a falsy one an empty list |
| SpecParser.ObjectFeature | packages/specs-cli/src/core/specParser.ts:28-36 | an object feature's id is `String(id)` when `id` is truthy, else the fallback id; its criteria follow the `accept` rule |
| SpecParser.NormalizeEntries | packages/specs-cli/src/core/specParser.ts:21-40 | mapping and filtering a features array never yields more features than entries |
| SpecParser.EntryContribution | packages/specs-cli/src/core/specParser.ts:23-40 | a string entry gives `{id: s, accept: []}`, a non-null object its object feature, and every other entry nothing |
| SpecParser.NormalizeEntriesAppend | packages/specs-cli/src/core/specParser.ts:21-40 | entries are mapped independently: normalising a concatenation concatenates the results, in order |
| SpecParser.NormalizeFeaturesCount | packages/specs-cli/src/core/specParser.ts:20-61 | an array yields one feature per string or object entry (none for `[]`); a lone object yields its feature; any other value yields the single fallback feature |
| SpecParser.EntriesCount | packages/specs-cli/src/core/specParser.ts:21-40 | the number of features is the number of string and object entries |
| SpecParser.NormalizeFeatures | packages/specs-cli/src/core/specParser.ts:20-61 | `normalizeFeatures` over every value: only an array can yield other than exactly one feature, and an array yields at most one feature per entry (exact counts and shapes are `NormalizeFeaturesCount`) |
| SpecParser.ParseSpecFile | packages/specs-cli/src/core/specParser.ts:63-78 | the spec keeps the file path and gets the id derived from the front matter and the path |
| SpecParser.SpecIdRule | packages/specs-cli/src/core/specParser.ts:67 | the id is `String(spec_id)` when truthy, else `String(id)` when truthy, else the file name without directory and extension |
| SpecParser.SpecIdOf | packages/specs-cli/src/core/specParser.ts:67 | `String(spec_id || id || basename(p, extname(p)))`; its three cases are stated by `SpecIdRule`, its empty results by `EmptySpecId` |
| SpecParser.EmptySpecId | packages/specs-cli/src/core/specParser.ts:67 | the spec id is empty exactly when the value it comes from is truthy but renders empty (`[]`, `[null]`, `[""]`; such a `spec_id` does not fall back to `id` or the file name), or when both keys are falsy and the file name has an empty stem |
| SpecParser.SpecIdFromFileName | packages/specs-cli/src/core/specParser.ts:67-69 | `dir/name.md` without `spec_id`, `id` or `features` gets id `name` and the single feature `{id: name, accept: []}` |
| SpecParser.ParsedFields | packages/specs-cli/src/core/specParser.ts:68-76 | the title is absent exactly when `title` is falsy; features fall back to the spec id; the body is the trimmed content and neither starts nor ends with whitespace |
| SpecParser.SpecPatterns | packages/specs-cli/src/core/specParser.ts:81 | the patterns handed to `glob` always have a truthy `length` (the rule itself is `SpecPatternsRule`) |
| SpecParser.SpecPatternsRule | packages/specs-cli/src/core/specParser.ts:81 | a missing or empty `specs.paths` falls back to `specs/**/*.md`; a non-empty list is used as given |
| SpecParser.PatternsWithoutConfigFile | packages/specs-cli/src/core/specParser.ts:81 | without a configuration file the default pattern is searched |
| SpecParser.PatternsFromConfigFile | packages/specs-cli/src/core/specParser.ts:81 | through the config merge, an empty configured `specs.paths` falls back to the default pattern and a non-empty one is used |
| SpecParser.LoadSpecs | packages/specs-cli/src/core/specParser.ts:80-95 | the loop yields the specs of the globbed files in order, skipping the files that fail |
| SpecParser.LoadedSpecs | packages/specs-cli/src/core/specParser.ts:84-93 | the specification of the loop: each file in order contributes what `FileSpecs` gives (its properties are the `LoadedSpecs…` lemmas) |
| SpecParser.FileSpecs | packages/specs-cli/src/core/specParser.ts:85-92 | what one file contributes: its parse when it reads, nothing otherwise; stated by `LoadedSpecsFromFiles` and `LoadedSpecsStep` |
| SpecParser.LoadedSpecsAppend | packages/specs-cli/src/core/specParser.ts:84-93 | a failing file affects only itself: the specs of a concatenation of file lists are the concatenation of their specs |
| SpecParser.LoadedSpecsFromFiles | packages/specs-cli/src/core/specParser.ts:84-93 | there are at most as many specs as files, and each spec is the parse of a readable file of the list |
| SpecParser.LoadedSpecsAllRead | packages/specs-cli/src/core/specParser.ts:84-93 | when every file reads, there is exactly one spec per file, in file order |
| SpecParser.LoadedSpecsStep | packages/specs-cli/src/core/specParser.ts:84-88 | one more readable file appends its spec last |
| GhClient.CanonicalTitle | packages/specs-cli/src/core/ghClient.ts:32 | the title is `Spec: <title>` for a non-empty title, else `Spec: <specId>` |
| GhClient.FeatureLines | packages/specs-cli/src/core/ghClient.ts:96-97 | one line per feature, in feature order |
| GhClient.FeatureLineShape | packages/specs-cli/src/core/ghClient.ts:97 | each line is an unchecked box `- [ ] `, then the feature id, then ` (accept: a; b)` exactly when the feature has criteria |
| GhClient.JoinKeepsSingleLine | packages/specs-cli/src/core/ghClient.ts:97 | joining criteria with `; ` adds no line break |
| GhClient.IssueBodyLines | packages/specs-cli/src/core/ghClient.ts:95-100 | for single-line fields, the body splits into the lines `Spec ID: …`, `File: …`, an empty line, `Features:`, one line per feature, then a final empty line (two empty lines when there are no features) |
| GhClient.IssueBody | packages/specs-cli/src/core/ghClient.ts:95-100 | the body `formatIssueBody` renders; its line structure is stated by `IssueBodyLines` |
| GhClient.FeatureLinesSingle | packages/specs-cli/src/core/ghClient.ts:96-98 | no feature line contains a line break when the spec's fields have none |
| GhClient.LabelArgRule | packages/specs-cli/src/core/ghClient.ts:42-49 | no labels add no flag and no label; otherwise the flag carries the labels joined by `,` (for any label names); when no label contains a comma, exactly the given labels are attached |
| GhClient.LabelArg | packages/specs-cli/src/core/ghClient.ts:42-49 | the ` --add-label "a,b"` / ` --label "a,b"` suffix, empty for no labels; stated by `LabelArgRule` |
| GhClient.LabelSet | packages/specs-cli/src/core/ghClient.ts:42-49 | the labels `gh` attaches for such a suffix, the comma-separated names; `LabelArgRule` shows they are exactly the given labels when no label contains a comma, and `LabelSetPieces` says what is attached otherwise |
| GhClient.LabelSetPieces | packages/specs-cli/src/core/ghClient.ts:42-49 | for any label names: a name is attached exactly when it is a comma-separated piece of one of the labels, so a label `a,b` is attached as the two labels `a` and `b` |
| GhClient.FirstHashDigit | packages/specs-cli/src/core/ghClient.ts:53 | finds the leftmost `#` followed by a digit, or reports that there is none |
| GhClient.DigitRun | packages/specs-cli/src/core/ghClient.ts:53 | the greedy `\d+` run: a digit-only prefix not followed by a digit |
| GhClient.ExtractWithoutMatch | packages/specs-cli/src/core/ghClient.ts:53-54 | output with no match gives issue number 0 |
| GhClient.ExtractPrintedNumber | packages/specs-cli/src/core/ghClient.ts:53-54 | the number printed after the first `#<digit>` is read back exactly |
| GhClient.ExtractIssueNumber | packages/specs-cli/src/core/ghClient.ts:53-54 | `match ? Number(match[1]) : 0`; stated by `ExtractWithoutMatch` and `ExtractPrintedNumber` |
| GhClient.DigitRunOf | packages/specs-cli/src/core/ghClient.ts:53 | the digit run of `digits + rest` is `digits` when `rest` does not start with a digit |
| GhClient.LookupPolicy | packages/specs-cli/src/core/ghClient.ts:36-93 | a non-empty title search decides alone; otherwise the tag search runs and its first result, if any, is taken; output that is not JSON counts as no result; a failed title search is an error and the only search run, and a failed tag search after an empty title search is an error too |
| GhClient.Lookup | packages/specs-cli/src/core/ghClient.ts:36-41 | the searches `upsertIssue` runs and the issue it settles on; the policy is stated by `LookupPolicy` |
| GhClient.CountsAppend | packages/specs-cli/src/core/ghClient.ts:31-55 | edits and creates of a concatenated call log add up |
| GhClient.UpsertEditsOrCreates | packages/specs-cli/src/core/ghClient.ts:40-54 | a found issue gets exactly one edit (full title, body, `--add-label`) and no create; otherwise exactly one create (with `--label`) and no edit; a failed search issues neither |
| GhClient.UpsertCalls | packages/specs-cli/src/core/ghClient.ts:31-55 | the `gh` calls of one `upsertIssue`, in order; stated by `UpsertEditsOrCreates` and performed by `Remote.UpsertIssue` |
| GhClient.SearchesOnly | packages/specs-cli/src/core/ghClient.ts:37-38 | a log of searches holds no edit and no create |
| GhClient.Remote.constructor | packages/specs-cli/src/core/ghClient.ts:10-11 | a remote with the given issues and next number, no project items and an empty log |
| GhClient.Remote.RunSearch | packages/specs-cli/src/core/ghClient.ts:75-93 | logs one search and returns its results, or an error when the command fails; nothing else changes |
| GhClient.Remote.EditIssue | packages/specs-cli/src/core/ghClient.ts:43-45 | logs the edit; an unknown number fails; otherwise the title and body are overwritten and the labels added to the existing ones |
| GhClient.Remote.CreateIssue | packages/specs-cli/src/core/ghClient.ts:49-54 | logs the create, stores the issue under the next number, and returns the number read from the trimmed output (0 when none) |
| GhClient.Remote.FindIssue | packages/specs-cli/src/core/ghClient.ts:37-38 | performs exactly the lookup's searches and returns the issue it settles on |
| GhClient.Remote.UpsertIssue | packages/specs-cli/src/core/ghClient.ts:31-55 | logs exactly the upsert's calls; on a search failure nothing changes; a found issue is overwritten (labels only added) and its number returned; otherwise a new issue is created and the number read back; project items never change |
| GhClient.Remote.AddToProject | packages/specs-cli/src/core/ghClient.ts:57-65 | an empty project name does nothing; otherwise one `item-add` is logged and the item is added when the command succeeds, and a failure changes nothing else and is not reported |
| TaskSelector.WithTimeAppend | packages/specs-cli/src/core/taskSelector.ts:11-20 | selecting specs by time distributes over concatenation |
| TaskSelector.Insert | packages/specs-cli/src/core/taskSelector.ts:11-20 | one step of the stable newest-first sort; stated by `InsertPermutes`, `InsertSorted`, `InsertWithTime` and `InsertPlaced` |
| TaskSelector.ByRecency | packages/specs-cli/src/core/taskSelector.ts:11-20 | the order `[...specs].sort((a, b) => bTime - aTime)` produces; stated by `ByRecencySorted`, `ByRecencyPermutes` and `ByRecencyStable` |
| TaskSelector.InsertPermutes | packages/specs-cli/src/core/taskSelector.ts:11-20 | inserting adds exactly the inserted spec |
| TaskSelector.InsertSorted | packages/specs-cli/src/core/taskSelector.ts:11-20 | inserting keeps a sequence newest first |
| TaskSelector.InsertWithTime | packages/specs-cli/src/core/taskSelector.ts:11-20 | the inserted spec lands after every spec with its own time |
| TaskSelector.ByRecencySorted | packages/specs-cli/src/core/taskSelector.ts:11-20 | the sorted copy is newest first |
| TaskSelector.ByRecencyPermutes | packages/specs-cli/src/core/taskSelector.ts:11 | the sorted copy is a permutation of the specs |
| TaskSelector.ByRecencyStable | packages/specs-cli/src/core/taskSelector.ts:11-20 | the sort is stable: specs with the same time keep their input order |
| TaskSelector.SortByRecency | packages/specs-cli/src/core/taskSelector.ts:11-20 | the in-place sort leaves exactly the stable newest-first order of the old contents |
| TaskSelector.InsertInPlace | packages/specs-cli/src/core/taskSelector.ts:11-20 | one insertion step places `a[i]` into the sorted prefix and leaves the rest of the array alone |
| TaskSelector.InsertPlaced | packages/specs-cli/src/core/taskSelector.ts:15 | a spec lands right after the last spec at least as new as it |
| TaskSelector.FirstFeatureId | packages/specs-cli/src/core/taskSelector.ts:23 | there is no id exactly when every feature id is empty, and a found id is non-empty |
| TaskSelector.FirstFeatureIdIsFirst | packages/specs-cli/src/core/taskSelector.ts:23 | the id found is that of the first feature with a non-empty id |
| TaskSelector.Pick | packages/specs-cli/src/core/taskSelector.ts:22-28 | nothing is picked exactly when no spec is actionable; a picked spec is one of the specs, with its first non-empty feature id |
| TaskSelector.SelectNextTask | packages/specs-cli/src/core/taskSelector.ts:9-29 | the method returns the first actionable spec of the stable newest-first order (nothing for no specs) |
| TaskSelector.PickIsNewest | packages/specs-cli/src/core/taskSelector.ts:11-27 | in a newest-first order the picked spec is at least as new as every actionable spec |
| TaskSelector.PickWithinTime | packages/specs-cli/src/core/taskSelector.ts:22-27 | the picked spec is also the first actionable one among the specs with its time |
| TaskSelector.SelectsNewestActionable | packages/specs-cli/src/core/taskSelector.ts:9-29 | nothing exactly when no spec has a feature with a non-empty id; otherwise an input spec with its first such id, at least as new as every actionable spec, and the first in input order among actionable specs of its time |
| CoverageEngine.SpecItems | packages/specs-cli/src/core/coverageEngine.ts:26-33 | one pending item per feature of a spec, in feature order |
| CoverageEngine.CoverageItems | packages/specs-cli/src/core/coverageEngine.ts:25-34 | the items of all specs, spec by spec; stated by `ItemPosition`, `AllPending` and `TotalIsFeatureCount` |
| CoverageEngine.RunCoverage | packages/specs-cli/src/core/coverageEngine.ts:23-45 | the nested loops produce the items of all specs in order; the summary counts the specs, the items and the covered items; PR number and timestamp are passed through |
| CoverageEngine.TotalIsFeatureCount | packages/specs-cli/src/core/coverageEngine.ts:25-41 | the feature total equals the number of features over all specs |
| CoverageEngine.ItemPosition | packages/specs-cli/src/core/coverageEngine.ts:25-33 | feature `k` of spec `i` is item number (features before spec `i`) + `k`, with the spec's and the feature's ids |
| CoverageEngine.AllPending | packages/specs-cli/src/core/coverageEngine.ts:27-32 | every item is pending with the placeholder note |
| CoverageEngine.NothingCovered | packages/specs-cli/src/core/coverageEngine.ts:42 | a list of pending items counts zero covered |
| CoverageEngine.ReportSummary | packages/specs-cli/src/core/coverageEngine.ts:39-43 | every summary is (number of specs, number of features, 0) |
| SpecKit.DefaultTemplateList | packages/specs-cli/src/core/specKit.ts:18-23 | the default templates, as a JavaScript array of the four paths in order |
| SpecKit.GetSpecKitConfig | packages/specs-cli/src/core/specKit.ts:26-33 | `cfg.x || default` for `repo`, `ref` and `templates`; stated by `SpecKitConfigRule` |
| SpecKit.SpecKitConfigRule | packages/specs-cli/src/core/specKit.ts:26-33 | each setting is the configured value exactly when that is truthy (so a truthy `templates` value, a non-empty list or even a string, is used as given) and the default otherwise; an empty template list is kept |
| SpecKit.DefaultsWithoutSettings | packages/specs-cli/src/core/specKit.ts:15-33 | with no `specKit` key all three defaults apply |
| SpecKit.BuiltInConfigHasNoSettings | packages/specs-cli/src/core/config.ts:19-31 | the built-in configuration has no `specKit` key |
| SpecKit.TemplateUrl | packages/specs-cli/src/core/specKit.ts:41 | `https://raw.githubusercontent.com/${repo}/${ref}/${tmpl}`; stated by `TemplateLocations` |
| SpecKit.OutPath | packages/specs-cli/src/core/specKit.ts:42-43 | `path.join(destDir, path.basename(tmpl))`; stated by `TemplateLocations` |
| SpecKit.TemplateLocations | packages/specs-cli/src/core/specKit.ts:41-43 | a template `dir/name` is fetched from `…/repo/ref/dir/name` and written to `destDir/name` |
| SpecKit.FetchOne | packages/specs-cli/src/core/specKit.ts:40-53 | one template succeeds exactly when it is a string, its download succeeds and the file system accepts the write to its output path, and then writes the downloaded content there; a non-string template fails as invalid, a failed download fails with its URL, a refused write fails with its path |
| SpecKit.RunStaysFailed | packages/specs-cli/src/core/specKit.ts:49-53 | after a failure no later template is looked at |
| SpecKit.RunSteps | packages/specs-cli/src/core/specKit.ts:40-53 | the writes of a loop that stops at its first failing step, in order, and that failure; stated by the `Run…` lemmas |
| SpecKit.Apply | packages/specs-cli/src/core/specKit.ts:46 | the files after the writes, in order; stated by `ApplyStep` and `ApplyLastWriteWins` |
| SpecKit.RunAllSucceed | packages/specs-cli/src/core/specKit.ts:40-54 | when every step succeeds, the run writes each result in order and succeeds |
| SpecKit.RunStopsAtFirstFailure | packages/specs-cli/src/core/specKit.ts:40-54 | when template `k` is the first to fail, exactly the earlier writes happen and that failure is reported |
| SpecKit.DownloadsAll | packages/specs-cli/src/core/specKit.ts:40-46 | when all templates are strings, download and can be written, each one's content is written to its output path, in order |
| SpecKit.WriteFailureEndsRun | packages/specs-cli/src/core/specKit.ts:45-53 | a refused write ends the run as a failed download does: the earlier writes stay and the refused path is reported |
| SpecKit.RunStep | packages/specs-cli/src/core/specKit.ts:40-53 | after a prefix without failure, the next template either fails the run or adds its write |
| SpecKit.ApplyStep | packages/specs-cli/src/core/specKit.ts:46 | one more write updates exactly one path |
| SpecKit.ApplyLastWriteWins | packages/specs-cli/src/core/specKit.ts:46 | a path holds the content of the last write to it |
| SpecKit.Workspace.constructor | packages/specs-cli/src/core/specKit.ts:37-39 | a workspace with the given directories and files |
| SpecKit.Workspace.MakeDestination | packages/specs-cli/src/core/specKit.ts:37-39 | the destination directory is created exactly when nothing exists at `destDir`; files never change |
| SpecKit.Workspace.FetchTemplate | packages/specs-cli/src/core/specKit.ts:41-53 | one pass of the loop: the outcome is the template's step; on success exactly its output path is written, on failure the files stay as they were |
| SpecKit.Workspace.FetchEach | packages/specs-cli/src/core/specKit.ts:40-54 | the loop leaves the old files with the run's writes applied in order, and returns the run's first failure or success |
| SpecKit.Workspace.FetchSpecKitTemplates | packages/specs-cli/src/core/specKit.ts:35-55 | creates the destination directory unless something exists there (a regular file at `destDir` is left alone); non-iterable templates fail before any write; otherwise the files are the old files with the run's writes applied in order, and the result is the run's first failure or success |
| Js.Spread | packages/specs-cli/src/core/config.ts:40-55 | spreading an object copies exactly its own entries |
| Js.Iterate | packages/specs-cli/src/core/specKit.ts:40 | `for … of` visits an array's elements or a string's characters, and fails exactly on every other value |
| Js.Truthy | packages/specs-cli/src/core/specParser.ts:67-68 | JavaScript truthiness: `undefined`, `null`, `false`, `0` and `""` are falsy, every array and object truthy |
| Js.Or | packages/specs-cli/src/core/specParser.ts:67 | `a || b`: the left operand when it is truthy, else the right one |
| Js.Prop | packages/specs-cli/src/core/specParser.ts:66-69 | `v.key`: an object's own entry, else `undefined` |
| Js.ToStr | packages/specs-cli/src/core/specParser.ts:67-68 | `String(v)` for the values the YAML parser yields (see "Left out" for the cases it does not cover) |
| Js.LengthOf | packages/specs-cli/src/core/specParser.ts:81 | `v.length`: the size of an array, the number of characters (code points) of a string, an object's own `length` entry, else `undefined` |
| Js.TruthyRendersEmpty | packages/specs-cli/src/core/specParser.ts:67 | a truthy value renders as "" exactly when it is an empty array or a one-element array whose element renders empty; every other truthy value renders non-empty |
| Text.Split | packages/specs-cli/src/core/ghClient.ts:98 | a reasoning device, not called by the source: splitting on a character always yields at least one piece |
| Text.SplitAround | packages/specs-cli/src/core/ghClient.ts:42-49 | a reasoning device for reading joined labels back: splitting around one separator splits each side on its own |
| Text.SplitJoin | packages/specs-cli/src/core/ghClient.ts:98 | a reasoning device for reading the joined labels and feature lines back: splitting undoes joining when no piece holds the separator |
| Text.SplitAfterLines | packages/specs-cli/src/core/ghClient.ts:99 | a reasoning device for reading the issue body back: text made of separator-terminated lines splits back into those lines |
| Text.JoinAppend | packages/specs-cli/src/core/ghClient.ts:97-98 | joining two non-empty lists puts one separator between their joins |
| Text.NatToDecimal | packages/specs-cli/src/core/ghClient.ts:54 | a number's decimal rendering is a non-empty run of digits |
| Text.DecimalRoundTrip | packages/specs-cli/src/core/ghClient.ts:54 | `Number` of the decimal rendering of `n` is `n` |
| Text.DecimalInjective | packages/specs-cli/src/core/ghClient.ts:54 | different numbers render differently |
| Text.LeadingWhitespace | packages/specs-cli/src/core/specParser.ts:75 | the length of the longest whitespace prefix: all of it is whitespace and the next character is not |
| Text.TrailingWhitespace | packages/specs-cli/src/core/specParser.ts:75 | the length of the longest whitespace suffix: all of it is whitespace and the character before it is not |
| Text.TrimStart | packages/specs-cli/src/core/specParser.ts:75 | drops exactly the leading whitespace |
| Text.TrimEnd | packages/specs-cli/src/core/specParser.ts:75 | drops exactly the trailing whitespace |
| Text.Trim | packages/specs-cli/src/core/specParser.ts:75 | `s.trim()`; characterised by `TrimIsMaximalInnerSlice` |
| Text.TrimIsMaximalInnerSlice | packages/specs-cli/src/core/specParser.ts:75 | `trim()` is the slice of the input with only whitespace outside it, and it neither starts nor ends with whitespace |
| Paths.LastSegment | packages/specs-cli/src/core/specKit.ts:42 | the text after the last `/`, which contains no `/` |
| Paths.Basename | packages/specs-cli/src/core/specKit.ts:42 | a basename never contains `/` |
| Paths.LastDot | packages/specs-cli/src/core/specParser.ts:67 | the position of the last `.`, with no `.` after it, or none when there is no dot |
| Paths.LastSegmentOfJoin | packages/specs-cli/src/core/specKit.ts:42-43 | the last segment of `dir/name` is `name` |
| Paths.BasenameOfJoin | packages/specs-cli/src/core/specKit.ts:42-43 | the basename of `dir/name` is `name` |
| Paths.StemOfJoin | packages/specs-cli/src/core/specParser.ts:67 | the name of `dir/stem.ext` without directory and extension is `stem` |
| Paths.StemWithoutExtension | packages/specs-cli/src/core/specParser.ts:67 | a name with no dot, or only a leading one, is its own stem |
| Paths.LastDotBeforeExtension | packages/specs-cli/src/core/specParser.ts:67 | the last dot of `a.ext` is the one before `ext` when `ext` has no dot |

## Left out

- Shell execution of `gh` and `curl` is left out: command quoting, stderr wording, the temporary body file and console logging. Each `gh` call is an entry in the remote's log. Search results, the create output and the `item-add` outcome are oracle parameters.
- `ensureAuth`, `viewPr` and `commentOnPr` of `ghClient.ts` are left out. They only pass a command through to `gh`.
- GhClient.Remote.RunSearch: a search whose JSON parses to something other than an array of `{number, title}` is not modelled. A search's outcome is a failure, unparseable output, or such a list.
- GhClient.Remote.EditIssue: the only failure it models is an unknown issue number. Other failures of `gh issue edit` are not modelled.
- GhClient.Remote.CreateIssue: the create command never fails in the model.
- GhClient.Remote.CreateIssue: the printed number is read with unbounded precision, where `Number` loses precision past 2^53.
- YAML parsing, gray-matter front-matter parsing, `glob` and file reading are left out. Their results are inputs: a parsed `Js.Value`, a `FrontMatter`, a file list, a `read` function that returns `None` for a spec file that cannot be read or parsed, and a `Config.ConfigFile` that says whether `.specs.yml` is missing, unreadable, unparseable or parsed.
- Js.LengthOf and Js.Spread count and index a string by characters (code points), where JavaScript counts UTF-16 code units; the two differ for characters outside the Basic Multilingual Plane. The core reads only whether a length is truthy, which is the same in both.
- Js.Value has integer numbers only. Floating point, `NaN` and `String` of non-integral numbers are not modelled.
- Js.ToStr: three cases where `String(v)` differs are not modelled. An object with its own non-function `toString` key (front matter `title: {toString: x}`) makes `String` throw a TypeError, so `parseSpecFile` throws and `loadSpecs` skips the file, where the model renders `[object Object]` and keeps the spec. Integers of 1e21 and more render in exponent form in JavaScript (`1e+21`), and integers past 2^53 are rounded when parsed, where the model prints every digit of the exact integer. A YAML timestamp such as an unquoted `2024-01-01` becomes a `Date`, whose `String` is a date text; `Js.Value` has no dates.
- TaskSelector.SelectNextTask: modification times are integers given as a function of the file path.
- TaskSelector.SelectNextTask: a `stat` that fails inside the comparator, which makes the comparator return 0, is not modelled.
- Paths.JoinPath does not normalise `.` and `..` segments or repeated slashes the way `path.join` does.
- SpecKit.Workspace.FetchSpecKitTemplates: creating the directory is modelled as adding it to a set. Parent directories and `mkdir` failures are not modelled.
- SpecKit.Workspace.FetchSpecKitTemplates: whether `fs.writeFileSync` accepts an output path is the oracle `writable`, not derived from the workspace. It stands for every refusal: the path names a directory (a template whose basename is empty, `.` or `..`), `destDir` is a regular file, or another error. The model does not tie the oracle to `dirs` and `files`.
- CoverageEngine.RunCoverage: the timestamp is a parameter. Writing the JSON report and logging are not modelled.
- Command modules, `init`, the scripts and the coverage action are callers of the core and are not part of this model.
- Issue lifecycle and project status fields are not part of this model. So are links between specs and issues, and reading an issue body back.
