/** The spec-kit template download of packages/specs-cli/src/core/specKit.ts:
    the `specKit` settings with their defaults, the raw download URL and
    the output path of each template, and `fetchSpecKitTemplates`, which
    writes each downloaded template into the destination directory and
    stops at the first failure. Downloading is an oracle (`fetch`), and so
    is whether `fs.writeFileSync` accepts an output path (`writable`); the
    file system is the `Workspace` object. */
module SpecKit {
  import opened Wrappers
  import opened Js
  import opened Paths
  import Config

  const DefaultRepo: string := "github/spec-kit"
  const DefaultRef: string := "main"
  const DefaultTemplates: seq<string> :=
    ["templates/spec-template.md", "templates/plan-template.md", "templates/tasks-template.md", "spec-driven.md"]

  const RawHost: string := "https://raw.githubusercontent.com/"

  /** The resolved settings; they keep whatever JavaScript values the
      configuration holds. */
  datatype SpecKitConfig = SpecKitConfig(repo: Value, ref: Value, templates: Value)

  function DefaultTemplateList(): (v: Value)
    ensures v.Arr? && |v.items| == |DefaultTemplates|
    ensures forall i :: 0 <= i < |DefaultTemplates| ==> v.items[i] == Str(DefaultTemplates[i])
  {
    Arr(seq(|DefaultTemplates|, i requires 0 <= i < |DefaultTemplates| => Str(DefaultTemplates[i])))
  }

  /** `getSpecKitConfig(config)`: each setting of `config.specKit` that is
      truthy wins, every other one takes its default. */
  function GetSpecKitConfig(config: Value): SpecKitConfig
  {
    var cfg := Or(Prop(config, "specKit"), Obj(map[]));
    SpecKitConfig(
      Or(Prop(cfg, "repo"), Str(DefaultRepo)),
      Or(Prop(cfg, "ref"), Str(DefaultRef)),
      Or(Prop(cfg, "templates"), DefaultTemplateList()))
  }

  /** Each setting is the configured value exactly when that is truthy: an
      empty repository name falls back to the default, an empty template
      list does not. */
  lemma SpecKitConfigRule(config: Value)
    ensures var cfg, sk := Or(Prop(config, "specKit"), Obj(map[])), GetSpecKitConfig(config);
      && (Truthy(Prop(cfg, "repo")) ==> sk.repo == Prop(cfg, "repo"))
      && (!Truthy(Prop(cfg, "repo")) ==> sk.repo == Str(DefaultRepo))
      && (Truthy(Prop(cfg, "ref")) ==> sk.ref == Prop(cfg, "ref"))
      && (!Truthy(Prop(cfg, "ref")) ==> sk.ref == Str(DefaultRef))
      && (Truthy(Prop(cfg, "templates")) ==> sk.templates == Prop(cfg, "templates"))
      && (Prop(cfg, "templates") == Arr([]) ==> sk.templates == Arr([]))
      && (!Truthy(Prop(cfg, "templates")) ==> sk.templates == DefaultTemplateList())
  {
  }

  /** Without a `specKit` key, for instance with the built-in configuration,
      the defaults apply. */
  lemma DefaultsWithoutSettings(config: Value)
    requires Prop(config, "specKit") == Undefined
    ensures GetSpecKitConfig(config) == SpecKitConfig(Str(DefaultRepo), Str(DefaultRef), DefaultTemplateList())
  {
  }

  /** The built-in configuration has no `specKit` key. */
  lemma BuiltInConfigHasNoSettings()
    ensures Prop(Config.DefaultConfig, "specKit") == Undefined
  {
    assert "specKit" !in Config.Sections;
  }

  /** `https://raw.githubusercontent.com/${repo}/${ref}/${tmpl}`. */
  function TemplateUrl(sk: SpecKitConfig, tmpl: Value): string
  {
    RawHost + ToStr(sk.repo) + "/" + ToStr(sk.ref) + "/" + ToStr(tmpl)
  }

  /** `path.join(destDir, path.basename(tmpl))`. */
  function OutPath(destDir: string, tmpl: string): string
  {
    JoinPath(destDir, Basename(tmpl))
  }

  /** A template under a sub-directory is written directly into the
      destination, under its own file name, and is downloaded from the
      repository path as given. */
  lemma TemplateLocations(repo: string, ref: string, destDir: string, dir: string, name: string)
    requires name != "" && '/' !in name
    ensures OutPath(destDir, JoinPath(dir, name)) == JoinPath(destDir, name)
    ensures TemplateUrl(SpecKitConfig(Str(repo), Str(ref), Undefined), Str(JoinPath(dir, name)))
      == RawHost + repo + "/" + ref + "/" + dir + "/" + name
  {
    BasenameOfJoin(dir, name);
  }

  /** Why a download run stops. */
  datatype FetchError =
    | TemplatesNotIterable(templates: Value)
    | InvalidTemplate(template: Value)
    | FetchFailed(url: string)
    | WriteFailed(path: string)

  /** One template: a non-string cannot be given to `path.basename`; a
      string is downloaded, and the download's content is written to its
      output path, which the file system may refuse (the path names a
      directory, or `destDir` is not one). */
  function FetchOne(sk: SpecKitConfig, destDir: string, tmpl: Value, fetch: string -> Option<string>,
                    writable: string -> bool)
    : (r: Result<(string, string), FetchError>)
    ensures r.Ok? <==> tmpl.Str? && fetch(TemplateUrl(sk, tmpl)).Some? && writable(OutPath(destDir, tmpl.s))
    ensures r.Ok? ==> r.value == (OutPath(destDir, tmpl.s), fetch(TemplateUrl(sk, tmpl)).value)
    ensures !tmpl.Str? ==> r == Err(InvalidTemplate(tmpl))
    ensures tmpl.Str? && fetch(TemplateUrl(sk, tmpl)).None? ==> r == Err(FetchFailed(TemplateUrl(sk, tmpl)))
    ensures tmpl.Str? && fetch(TemplateUrl(sk, tmpl)).Some? && !writable(OutPath(destDir, tmpl.s)) ==>
      r == Err(WriteFailed(OutPath(destDir, tmpl.s)))
  {
    if !tmpl.Str? then Err(InvalidTemplate(tmpl))
    else match fetch(TemplateUrl(sk, tmpl))
      case None => Err(FetchFailed(TemplateUrl(sk, tmpl)))
      case Some(content) =>
        var outPath := OutPath(destDir, tmpl.s);
        if writable(outPath) then Ok((outPath, content)) else Err(WriteFailed(outPath))
  }

  /** The writes a run performs, in order, and the failure that ended it,
      if any. */
  datatype Run = Run(writes: seq<(string, string)>, failure: Option<FetchError>)

  /** What handling one template does: fail, or write a file. */
  type Step = Value -> Result<(string, string), FetchError>

  /** The per-template step of a download run. */
  function TemplateStep(sk: SpecKitConfig, destDir: string, fetch: string -> Option<string>,
                        writable: string -> bool): Step
  {
    t => FetchOne(sk, destDir, t, fetch, writable)
  }

  /** The step of a download run is `FetchOne`. */
  lemma TemplateStepIsFetchOne(sk: SpecKitConfig, destDir: string, fetch: string -> Option<string>,
                               writable: string -> bool, tmpl: Value)
    ensures TemplateStep(sk, destDir, fetch, writable)(tmpl) == FetchOne(sk, destDir, tmpl, fetch, writable)
  {
  }

  /** A run over `ts` that stops at the first failing step. */
  function RunSteps(ts: seq<Value>, step: Step): Run
  {
    if |ts| == 0 then Run([], None)
    else
      var prev := RunSteps(ts[..|ts| - 1], step);
      if prev.failure.Some? then prev
      else match step(ts[|ts| - 1])
        case Err(e) => Run(prev.writes, Some(e))
        case Ok(w) => Run(prev.writes + [w], None)
  }

  /** The files after applying `writes` in order; a later write to the same
      path replaces an earlier one. */
  function Apply(files: map<string, string>, writes: seq<(string, string)>): map<string, string>
  {
    if |writes| == 0 then files
    else Apply(files, writes[..|writes| - 1])[writes[|writes| - 1].0 := writes[|writes| - 1].1]
  }

  /** Once a run has failed, later templates are not looked at. */
  lemma {:induction false} RunStaysFailed(ts: seq<Value>, j: nat, step: Step)
    requires j <= |ts| && RunSteps(ts[..j], step).failure.Some?
    ensures RunSteps(ts, step) == RunSteps(ts[..j], step)
    decreases |ts| - j
  {
    if j < |ts| {
      var init := ts[..|ts| - 1];
      assert init[..j] == ts[..j];
      RunStaysFailed(init, j, step);
    } else {
      assert ts[..j] == ts;
    }
  }

  /** When every step succeeds, the run performs each write, in order, and
      succeeds. */
  lemma {:induction false} RunAllSucceed(ts: seq<Value>, step: Step)
    requires forall i :: 0 <= i < |ts| ==> step(ts[i]).Ok?
    ensures var run := RunSteps(ts, step);
      && run.failure.None? && |run.writes| == |ts|
      && forall i :: 0 <= i < |ts| ==> run.writes[i] == step(ts[i]).value
  {
    if |ts| > 0 {
      var n := |ts|;
      var init := ts[..n - 1];
      assert forall i :: 0 <= i < n - 1 ==> init[i] == ts[i];
      RunAllSucceed(init, step);
      var prev := RunSteps(init, step).writes;
      var writes := prev + [step(ts[n - 1]).value];
      assert RunSteps(ts, step) == Run(writes, None);
      forall i | 0 <= i < n
        ensures writes[i] == step(ts[i]).value
      {
        if i < n - 1 {
          assert writes[i] == prev[i] && init[i] == ts[i];
        }
      }
    }
  }

  /** When step `k` is the first that fails, the run performs exactly the
      writes before it and reports that step's failure. */
  lemma RunStopsAtFirstFailure(ts: seq<Value>, k: nat, step: Step)
    requires k < |ts|
    requires forall i :: 0 <= i < k ==> step(ts[i]).Ok?
    requires step(ts[k]).Err?
    ensures RunSteps(ts, step) == Run(RunSteps(ts[..k], step).writes, Some(step(ts[k]).error))
  {
    RunPrefixSucceeds(ts, k, step);
    RunStep(ts, k, step);
    RunStaysFailed(ts, k + 1, step);
  }

  /** A prefix whose steps all succeed leaves the run without failure. */
  lemma {:induction false} RunPrefixSucceeds(ts: seq<Value>, k: nat, step: Step)
    requires k <= |ts|
    requires forall i :: 0 <= i < k ==> step(ts[i]).Ok?
    ensures RunSteps(ts[..k], step).failure.None?
  {
    if k > 0 {
      RunPrefixSucceeds(ts, k - 1, step);
      RunStep(ts, k - 1, step);
    }
  }

  /** A download run over templates that are all strings, all download and
      all have writable output paths writes each template's content to its
      output path, in order. */
  lemma DownloadsAll(sk: SpecKitConfig, destDir: string, ts: seq<Value>, fetch: string -> Option<string>,
                     writable: string -> bool)
    requires forall i :: 0 <= i < |ts| ==>
      ts[i].Str? && fetch(TemplateUrl(sk, ts[i])).Some? && writable(OutPath(destDir, ts[i].s))
    ensures var run := RunSteps(ts, TemplateStep(sk, destDir, fetch, writable));
      && run.failure.None? && |run.writes| == |ts|
      && forall i :: 0 <= i < |ts| ==>
           run.writes[i] == (OutPath(destDir, ts[i].s), fetch(TemplateUrl(sk, ts[i])).value)
  {
    var step := TemplateStep(sk, destDir, fetch, writable);
    forall i | 0 <= i < |ts|
      ensures step(ts[i]) == Ok((OutPath(destDir, ts[i].s), fetch(TemplateUrl(sk, ts[i])).value))
    {
    }
    RunAllSucceed(ts, step);
  }

  /** A refused write ends the run as a failed download does: the earlier
      templates' writes stay, and the refused output path is reported. */
  lemma WriteFailureEndsRun(sk: SpecKitConfig, destDir: string, ts: seq<Value>, k: nat,
                            fetch: string -> Option<string>, writable: string -> bool)
    requires k < |ts|
    requires forall i :: 0 <= i < k ==> TemplateStep(sk, destDir, fetch, writable)(ts[i]).Ok?
    requires ts[k].Str? && fetch(TemplateUrl(sk, ts[k])).Some? && !writable(OutPath(destDir, ts[k].s))
    ensures var step := TemplateStep(sk, destDir, fetch, writable);
      RunSteps(ts, step) == Run(RunSteps(ts[..k], step).writes, Some(WriteFailed(OutPath(destDir, ts[k].s))))
  {
    var step := TemplateStep(sk, destDir, fetch, writable);
    TemplateStepIsFetchOne(sk, destDir, fetch, writable, ts[k]);
    RunStopsAtFirstFailure(ts, k, step);
  }

  /** One template further: after a prefix that has not failed, the next
      step either fails the run or adds its write. */
  lemma RunStep(ts: seq<Value>, i: nat, step: Step)
    requires i < |ts| && RunSteps(ts[..i], step).failure.None?
    ensures var prev := RunSteps(ts[..i], step);
      RunSteps(ts[..i + 1], step) ==
        match step(ts[i])
        case Err(e) => Run(prev.writes, Some(e))
        case Ok(w) => Run(prev.writes + [w], None)
  {
    assert ts[..i + 1][..i] == ts[..i];
  }

  /** Applying one more write updates one path. */
  lemma ApplyStep(files: map<string, string>, writes: seq<(string, string)>, w: (string, string))
    ensures Apply(files, writes + [w]) == Apply(files, writes)[w.0 := w.1]
  {
    assert (writes + [w])[..|writes|] == writes;
  }

  /** The part of the file system the fetcher touches. */
  class Workspace {
    var dirs: set<string>
    var files: map<string, string>

    constructor (dirs: set<string>, files: map<string, string>)
      ensures this.dirs == dirs && this.files == files
    {
      this.dirs := dirs;
      this.files := files;
    }

    /** One pass of the loop: download one template and write it to its
        output path, or report why that failed, leaving the files as they
        were. */
    method FetchTemplate(sk: SpecKitConfig, destDir: string, tmpl: Value, fetch: string -> Option<string>,
                         writable: string -> bool)
      returns (outcome: Result<(string, string), FetchError>)
      modifies this
      ensures outcome == TemplateStep(sk, destDir, fetch, writable)(tmpl)
      ensures outcome.Ok? ==> files == old(files)[outcome.value.0 := outcome.value.1]
      ensures outcome.Err? ==> files == old(files)
      ensures dirs == old(dirs)
    {
      TemplateStepIsFetchOne(sk, destDir, fetch, writable, tmpl);
      outcome := FetchOne(sk, destDir, tmpl, fetch, writable);
      if outcome.Ok? {
        files := files[outcome.value.0 := outcome.value.1];
      }
    }

    /** `if (!fs.existsSync(destDir)) fs.mkdirSync(destDir, ...)`: the
        directory is created only when nothing exists at `destDir`. */
    method MakeDestination(destDir: string)
      modifies this
      ensures files == old(files)
      ensures destDir in old(dirs) || destDir in old(files) ==> dirs == old(dirs)
      ensures destDir !in old(dirs) && destDir !in old(files) ==> dirs == old(dirs) + {destDir}
    {
      if destDir !in dirs && destDir !in files {
        dirs := dirs + {destDir};
      }
    }

    /** `fetchSpecKitTemplates(config, destDir)`: the directory is created
        only when nothing exists at `destDir`. */
    method FetchSpecKitTemplates(config: Value, destDir: string, fetch: string -> Option<string>,
                                 writable: string -> bool)
      returns (r: Result<(), FetchError>)
      modifies this
      ensures destDir in old(files) ==> dirs == old(dirs)
      ensures destDir !in old(files) ==> dirs == old(dirs) + {destDir}
      ensures var sk := GetSpecKitConfig(config);
        match Iterate(sk.templates)
        case Err(_) => r == Err(TemplatesNotIterable(sk.templates)) && files == old(files)
        case Ok(ts) =>
          var run := RunSteps(ts, TemplateStep(sk, destDir, fetch, writable));
          && files == Apply(old(files), run.writes)
          && (run.failure.None? ==> r == Ok(()))
          && (run.failure.Some? ==> r == Err(run.failure.value))
    {
      var sk := GetSpecKitConfig(config);
      MakeDestination(destDir);
      var templates := Iterate(sk.templates);
      if templates.Err? {
        return Err(TemplatesNotIterable(sk.templates));
      }
      r := FetchEach(sk, destDir, templates.value, fetch, writable);
    }

    /** The `for (const tmpl of sk.templates)` loop: the run's writes happen
        in order, and the loop ends at the first failure. */
    method FetchEach(sk: SpecKitConfig, destDir: string, ts: seq<Value>, fetch: string -> Option<string>,
                     writable: string -> bool)
      returns (r: Result<(), FetchError>)
      modifies this
      ensures dirs == old(dirs)
      ensures var run := RunSteps(ts, TemplateStep(sk, destDir, fetch, writable));
        && files == Apply(old(files), run.writes)
        && (run.failure.None? ==> r == Ok(()))
        && (run.failure.Some? ==> r == Err(run.failure.value))
    {
      ghost var step := TemplateStep(sk, destDir, fetch, writable);
      ghost var written: seq<(string, string)> := [];
      for i := 0 to |ts|
        invariant RunSteps(ts[..i], step) == Run(written, None)
        invariant files == Apply(old(files), written)
        invariant dirs == old(dirs)
      {
        RunStep(ts, i, step);
        var outcome := FetchTemplate(sk, destDir, ts[i], fetch, writable);
        if outcome.Err? {
          RunStaysFailed(ts, i + 1, step);
          return Err(outcome.error);
        }
        ApplyStep(old(files), written, outcome.value);
        written := written + [outcome.value];
      }
      assert ts[..|ts|] == ts;
      return Ok(());
    }
  }

  /** After a successful run every template's output path holds what the
      last download for that path returned. */
  lemma {:induction false} ApplyLastWriteWins(files: map<string, string>, writes: seq<(string, string)>, k: nat)
    requires k < |writes|
    requires forall j :: k < j < |writes| ==> writes[j].0 != writes[k].0
    ensures writes[k].0 in Apply(files, writes) && Apply(files, writes)[writes[k].0] == writes[k].1
  {
    if k < |writes| - 1 {
      ApplyLastWriteWins(files, writes[..|writes| - 1], k);
    }
  }
}
