/** The spec-to-issue sync of packages/specs-cli/src/core/ghClient.ts:
    the canonical title, the rendered issue body, the label arguments, the
    issue number read back from `gh issue create`, and `upsertIssue` and
    `addToProject` as methods on a model of the remote tracker. The `gh`
    processes themselves are not modelled: each invocation is a `GhCall`
    appended to the remote's log, and what the two searches return is an
    oracle. */
module GhClient {
  import opened Wrappers
  import opened Text
  import opened SpecParser

  // ------------------------------------------------------------- rendering

  /** `Spec: <title>` when the title is present and non-empty, else
      `Spec: <specId>`. */
  function CanonicalTitle(spec: SpecDoc): (t: string)
    ensures spec.title.Some? && spec.title.value != "" ==> t == "Spec: " + spec.title.value
    ensures spec.title.None? || spec.title.value == "" ==> t == "Spec: " + spec.specId
  {
    "Spec: " + (if spec.title.Some? && spec.title.value != "" then spec.title.value else spec.specId)
  }

  const UncheckedBox: string := "- [ ] "

  /** The criteria suffix of a feature line, empty when there are none. */
  function AcceptSuffix(accept: seq<string>): string
  {
    if |accept| > 0 then " (accept: " + Join(accept, "; ") + ")" else ""
  }

  /** One unchecked task-list item per feature. */
  function FeatureLine(f: Feature): string
  {
    UncheckedBox + f.id + AcceptSuffix(f.accept)
  }

  function FeatureLines(features: seq<Feature>): (lines: seq<string>)
    ensures |lines| == |features|
    ensures forall i :: 0 <= i < |features| ==> lines[i] == FeatureLine(features[i])
  {
    seq(|features|, i requires 0 <= i < |features| => FeatureLine(features[i]))
  }

  /** The header lines before the feature list. */
  function HeaderLines(spec: SpecDoc): seq<string>
  {
    ["Spec ID: " + spec.specId, "File: " + spec.filePath, "", "Features:"]
  }

  /** `formatIssueBody(spec)`: the header lines, each ended by a line
      break, then the feature lines joined by line breaks and a final line
      break. */
  function IssueBody(spec: SpecDoc): string
  {
    Lines(HeaderLines(spec), '\n') + Join(FeatureLines(spec.features), "\n") + "\n"
  }

  /** Every feature line starts with an unchecked box followed by the
      feature id, and carries the criteria suffix exactly when the feature
      has criteria; the criteria appear joined by `; ` in their order. */
  lemma FeatureLineShape(f: Feature)
    ensures var line := FeatureLine(f);
      && line[..|UncheckedBox|] == UncheckedBox
      && line[|UncheckedBox|..|UncheckedBox| + |f.id|] == f.id
      && (|f.accept| == 0 <==> |line| == |UncheckedBox| + |f.id|)
      && (|f.accept| > 0 ==>
            line[|UncheckedBox| + |f.id|..] == " (accept: " + Join(f.accept, "; ") + ")")
  {
  }

  /** A spec's text is free of line breaks when its id, its path, its
      feature ids and its criteria are. */
  predicate SingleLineFields(spec: SpecDoc)
  {
    && '\n' !in spec.specId
    && '\n' !in spec.filePath
    && forall i :: 0 <= i < |spec.features| ==>
         && '\n' !in spec.features[i].id
         && forall j :: 0 <= j < |spec.features[i].accept| ==> '\n' !in spec.features[i].accept[j]
  }

  /** No criteria join contains a line break when no criterion does. */
  lemma {:induction false} JoinKeepsSingleLine(parts: seq<string>, sep: string)
    requires '\n' !in sep
    requires forall j :: 0 <= j < |parts| ==> '\n' !in parts[j]
    ensures '\n' !in Join(parts, sep)
  {
    if |parts| > 1 {
      JoinKeepsSingleLine(parts[1..], sep);
    }
  }

  /** Read line by line, the body is the four header lines, then exactly
      one line per feature in spec order, then an empty last line (a spec
      without features leaves one blank line where the list would be). */
  lemma IssueBodyLines(spec: SpecDoc)
    requires SingleLineFields(spec)
    ensures |spec.features| > 0 ==>
      Split(IssueBody(spec), '\n') == HeaderLines(spec) + FeatureLines(spec.features) + [""]
    ensures |spec.features| == 0 ==>
      Split(IssueBody(spec), '\n') == HeaderLines(spec) + ["", ""]
  {
    var header, lines := HeaderLines(spec), FeatureLines(spec.features);
    var list := Join(lines, "\n") + "\n";
    assert IssueBody(spec) == Lines(header, '\n') + list;
    HeaderSingleLines(spec);
    SplitAfterLines(header, list, '\n');
    if |lines| > 0 {
      FeatureLinesSingle(spec);
      SplitFeatureList(lines);
    } else {
      assert list == "\n";
      assert Split("\n", '\n') == ["", ""];
    }
  }

  /** No header line contains a line break. */
  lemma HeaderSingleLines(spec: SpecDoc)
    requires SingleLineFields(spec)
    ensures forall i :: 0 <= i < |HeaderLines(spec)| ==> '\n' !in HeaderLines(spec)[i]
  {
  }

  /** Lines joined by line breaks and ended by one read back as those
      lines and an empty last one. */
  lemma SplitFeatureList(lines: seq<string>)
    requires |lines| > 0
    requires forall i :: 0 <= i < |lines| ==> '\n' !in lines[i]
    ensures Split(Join(lines, "\n") + "\n", '\n') == lines + [""]
  {
    var all := lines + [""];
    JoinAppend(lines, [""], "\n");
    assert Join(all, "\n") == Join(lines, "\n") + "\n";
    assert forall i :: 0 <= i < |all| ==> '\n' !in all[i] by {
      forall i | 0 <= i < |all|
        ensures '\n' !in all[i]
      {
        if i < |lines| {
          assert all[i] == lines[i];
        }
      }
    }
    SplitJoin(all, '\n');
  }

  /** No feature line contains a line break. */
  lemma FeatureLinesSingle(spec: SpecDoc)
    requires SingleLineFields(spec)
    ensures forall i :: 0 <= i < |spec.features| ==> '\n' !in FeatureLines(spec.features)[i]
  {
    var lines := FeatureLines(spec.features);
    forall i | 0 <= i < |lines|
      ensures '\n' !in lines[i]
    {
      var f := spec.features[i];
      JoinKeepsSingleLine(f.accept, "; ");
      assert lines[i] == UncheckedBox + f.id + AcceptSuffix(f.accept);
    }
  }

  // --------------------------------------------------------------- labels

  /** ` --add-label "a,b"` / ` --label "a,b"`, or nothing for no labels. */
  function LabelArg(flag: string, labels: seq<string>): string
  {
    if |labels| == 0 then "" else " " + flag + " \"" + Join(labels, ",") + "\""
  }

  /** The labels `gh` attaches for a label argument: the comma-separated
      names of the joined list. */
  function LabelSet(labels: seq<string>): set<string>
  {
    if |labels| == 0 then {} else
      var names := Split(Join(labels, ","), ',');
      set i | 0 <= i < |names| :: names[i]
  }

  /** An empty label list adds no flag and no label; otherwise the flag
      carries the labels joined by `,` and, when no label name contains a
      comma, exactly the given labels are attached. */
  lemma LabelArgRule(flag: string, labels: seq<string>)
    ensures |labels| == 0 ==> LabelArg(flag, labels) == "" && LabelSet(labels) == {}
    ensures |labels| > 0 ==> LabelArg(flag, labels) == " " + flag + " \"" + Join(labels, ",") + "\""
    ensures (forall i :: 0 <= i < |labels| ==> ',' !in labels[i]) ==>
      LabelSet(labels) == set i | 0 <= i < |labels| :: labels[i]
  {
    if |labels| > 0 && forall i :: 0 <= i < |labels| ==> ',' !in labels[i] {
      SplitJoin(labels, ',');
    }
  }

  /** The comma-separated pieces of each label, in order. */
  function LabelPieces(labels: seq<string>): seq<string>
  {
    if |labels| == 0 then [] else Split(labels[0], ',') + LabelPieces(labels[1..])
  }

  /** Joining by `,` and splitting again yields every label's pieces. */
  lemma {:induction false} SplitJoinedLabels(labels: seq<string>)
    requires |labels| > 0
    ensures Split(Join(labels, ","), ',') == LabelPieces(labels)
  {
    if |labels| == 1 {
      assert LabelPieces(labels[1..]) == [];
    } else {
      SplitJoinedLabels(labels[1..]);
      SplitAround(labels[0], ',', Join(labels[1..], ","));
    }
  }

  lemma {:induction false} InLabelPieces(labels: seq<string>, name: string)
    ensures name in LabelPieces(labels) <==>
      exists i :: 0 <= i < |labels| && name in Split(labels[i], ',')
  {
    if |labels| > 0 {
      InLabelPieces(labels[1..], name);
      if name in LabelPieces(labels[1..]) {
        var i :| 0 <= i < |labels[1..]| && name in Split(labels[1..][i], ',');
        assert name in Split(labels[i + 1], ',');
      }
      if exists i :: 0 <= i < |labels| && name in Split(labels[i], ',') {
        var i :| 0 <= i < |labels| && name in Split(labels[i], ',');
        if i > 0 {
          assert labels[1..][i - 1] == labels[i];
        }
      }
    }
  }

  /** A label name holding commas is attached as its comma-separated
      pieces: `gh` attaches a name exactly when it is a piece of one of
      the labels. */
  lemma LabelSetPieces(labels: seq<string>, name: string)
    ensures name in LabelSet(labels) <==>
      exists i :: 0 <= i < |labels| && name in Split(labels[i], ',')
  {
    if |labels| > 0 {
      SplitJoinedLabels(labels);
      InLabelPieces(labels, name);
    }
  }

  // ------------------------------------------------------ issue numbers

  /** `s[i..]` starts with `#` and a digit: a match of `/#(\d+)/` at `i`. */
  predicate HashDigitAt(s: string, i: int)
  {
    0 <= i && i + 1 < |s| && s[i] == '#' && IsDigit(s[i + 1])
  }

  /** The leftmost match position of `/#\d/` at or after `k`. */
  function FirstHashDigit(s: string, k: nat): (r: Option<nat>)
    ensures r.Some? ==>
      && k <= r.value && HashDigitAt(s, r.value)
      && forall j :: k <= j < r.value ==> !HashDigitAt(s, j)
    ensures r.None? ==> forall j :: k <= j ==> !HashDigitAt(s, j)
    decreases |s| - k
  {
    if k + 1 >= |s| then None
    else if HashDigitAt(s, k) then Some(k)
    else FirstHashDigit(s, k + 1)
  }

  /** The greedy run of digits at the start of `s`. */
  function DigitRun(s: string): (r: string)
    ensures AllDigits(r) && |r| <= |s| && r == s[..|r|]
    ensures |r| < |s| ==> !IsDigit(s[|r|])
  {
    if |s| > 0 && IsDigit(s[0]) then [s[0]] + DigitRun(s[1..]) else ""
  }

  /** `output.match(/#(\d+)/)` read as a number, or 0 when nothing
      matches. */
  function ExtractIssueNumber(output: string): nat
  {
    match FirstHashDigit(output, 0)
    case None => 0
    case Some(i) => DigitsValue(DigitRun(output[i + 1..]))
  }

  /** Output with no `#` followed by a digit yields 0. */
  lemma ExtractWithoutMatch(output: string)
    requires forall j :: 0 <= j ==> !HashDigitAt(output, j)
    ensures ExtractIssueNumber(output) == 0
  {
  }

  /** The number printed after the first `#` that is followed by a digit is
      read back exactly: `... #42 ...` yields 42. */
  lemma ExtractPrintedNumber(prefix: string, n: nat, suffix: string)
    requires forall j :: 0 <= j ==> !HashDigitAt(prefix, j)
    requires suffix == [] || !IsDigit(suffix[0])
    ensures ExtractIssueNumber(prefix + "#" + NatToDecimal(n) + suffix) == n
  {
    var digits := NatToDecimal(n);
    var s := prefix + "#" + digits + suffix;
    var p := |prefix|;
    assert s == prefix + ("#" + digits + suffix);
    NoMatchBeforeHash(prefix, "#" + digits + suffix);
    assert HashDigitAt(s, p);
    assert FirstHashDigit(s, 0) == Some(p);
    assert s[p + 1..] == digits + suffix;
    DigitRunOf(digits, suffix);
    DecimalRoundTrip(n);
  }

  /** A prefix without a match keeps none when a `#` follows it. */
  lemma NoMatchBeforeHash(prefix: string, rest: string)
    requires forall j :: 0 <= j ==> !HashDigitAt(prefix, j)
    requires |rest| > 0 && rest[0] == '#'
    ensures forall j :: 0 <= j < |prefix| ==> !HashDigitAt(prefix + rest, j)
  {
    var s := prefix + rest;
    forall j | 0 <= j < |prefix|
      ensures !HashDigitAt(s, j)
    {
      if j + 1 < |prefix| {
        assert s[j] == prefix[j] && s[j + 1] == prefix[j + 1];
        assert !HashDigitAt(prefix, j);
      } else {
        assert s[j + 1] == '#';
      }
    }
  }

  /** The digit run of `digits + rest` is `digits` when `rest` does not
      start with a digit. */
  lemma {:induction false} DigitRunOf(digits: string, rest: string)
    requires AllDigits(digits)
    requires rest == [] || !IsDigit(rest[0])
    ensures DigitRun(digits + rest) == digits
  {
    if |digits| > 0 {
      assert (digits + rest)[1..] == digits[1..] + rest;
      DigitRunOf(digits[1..], rest);
      assert [digits[0]] + digits[1..] == digits;
    } else {
      assert digits + rest == rest;
    }
  }

  // ----------------------------------------------------------- searching

  datatype IssueRef = IssueRef(number: int, title: string)

  /** The two searches: by exact title, and by free text. */
  datatype SearchQuery = ByTitle(title: string) | ByText(query: string)

  /** What one `gh issue list` invocation yields: the command failed, its
      output was not valid JSON, or the parsed list of issues. */
  datatype SearchOutcome = CliFailed | Unparseable | Parsed(refs: seq<IssueRef>)

  /** A `gh` invocation the client issues, as recorded in the remote's log. */
  datatype GhCall =
    | Search(query: SearchQuery)
    | Edit(number: int, title: string, body: string, labelArg: string)
    | Create(title: string, body: string, labelArg: string)
    | ProjectItemAdd(project: string, number: int)

  datatype GhError = CliError(failed: GhCall)

  /** `searchIssues`/`searchIssuesByTitle`: a failed command throws,
      output that is not JSON reads as no result. */
  function SearchResults(query: SearchQuery, outcome: SearchOutcome): Result<seq<IssueRef>, GhError>
  {
    match outcome
    case CliFailed => Err(CliError(Search(query)))
    case Unparseable => Ok([])
    case Parsed(refs) => Ok(refs)
  }

  /** The query of the fallback search. */
  function TagQuery(spec: SpecDoc): string
  {
    "spec_id:" + spec.specId
  }

  /** The searches `upsertIssue` runs and the issue it settles on: the
      title search first; the text search only when the title search found
      nothing; the first result of the search used is authoritative. */
  function Lookup(spec: SpecDoc, search: SearchQuery -> SearchOutcome)
    : (r: (seq<GhCall>, Result<Option<int>, GhError>))
  {
    var byTitle := ByTitle(CanonicalTitle(spec));
    var byText := ByText(TagQuery(spec));
    match SearchResults(byTitle, search(byTitle))
    case Err(e) => ([Search(byTitle)], Err(e))
    case Ok(found) =>
      if |found| > 0 then ([Search(byTitle)], Ok(Some(found[0].number)))
      else
        match SearchResults(byText, search(byText))
        case Err(e) => ([Search(byTitle), Search(byText)], Err(e))
        case Ok(tagged) =>
          ([Search(byTitle), Search(byText)],
           Ok(if |tagged| > 0 then Some(tagged[0].number) else None))
  }

  /** A non-empty title search decides alone: its first result is taken and
      the text search is not run. Otherwise the text search runs, and its
      first result, if any, is taken. A failed search command makes the
      lookup an error; a failed title search is the only search run. */
  lemma LookupPolicy(spec: SpecDoc, search: SearchQuery -> SearchOutcome)
    ensures var byTitle, byText := ByTitle(CanonicalTitle(spec)), ByText(TagQuery(spec));
      && (search(byTitle).Parsed? && |search(byTitle).refs| > 0 ==>
            Lookup(spec, search) == ([Search(byTitle)], Ok(Some(search(byTitle).refs[0].number))))
      && (search(byTitle) == Unparseable || search(byTitle) == Parsed([]) ==>
            && Lookup(spec, search).0 == [Search(byTitle), Search(byText)]
            && (search(byText).Parsed? && |search(byText).refs| > 0 ==>
                  Lookup(spec, search).1 == Ok(Some(search(byText).refs[0].number)))
            && (search(byText) == Unparseable || search(byText) == Parsed([]) ==>
                  Lookup(spec, search).1 == Ok(None))
            && (search(byText).CliFailed? ==> Lookup(spec, search).1.Err?))
      && (search(byTitle).CliFailed? ==>
            Lookup(spec, search) == ([Search(byTitle)], Err(CliError(Search(byTitle)))))
  {
  }

  /** The `gh` calls a whole `upsertIssue` issues, in order: the lookup,
      then one edit of the issue found or one create. */
  function UpsertCalls(spec: SpecDoc, labels: seq<string>, search: SearchQuery -> SearchOutcome): seq<GhCall>
  {
    var (searches, found) := Lookup(spec, search);
    var title, body := CanonicalTitle(spec), IssueBody(spec);
    match found
    case Err(_) => searches
    case Ok(Some(n)) => searches + [Edit(n, title, body, LabelArg("--add-label", labels))]
    case Ok(None) => searches + [Create(title, body, LabelArg("--label", labels))]
  }

  function CountEdits(calls: seq<GhCall>): nat
  {
    if |calls| == 0 then 0 else (if calls[0].Edit? then 1 else 0) + CountEdits(calls[1..])
  }

  function CountCreates(calls: seq<GhCall>): nat
  {
    if |calls| == 0 then 0 else (if calls[0].Create? then 1 else 0) + CountCreates(calls[1..])
  }

  /** The counts of a concatenation add up. */
  lemma {:induction false} CountsAppend(a: seq<GhCall>, b: seq<GhCall>)
    ensures CountEdits(a + b) == CountEdits(a) + CountEdits(b)
    ensures CountCreates(a + b) == CountCreates(a) + CountCreates(b)
  {
    if |a| == 0 {
      assert a + b == b;
    } else {
      assert (a + b)[1..] == a[1..] + b;
      CountsAppend(a[1..], b);
    }
  }

  /** A found issue is edited exactly once under its number, with the full
      title and body and the labels under `--add-label`, and nothing is
      created; with no issue found exactly one issue is created, with the
      labels under `--label`, and nothing is edited. */
  lemma UpsertEditsOrCreates(spec: SpecDoc, labels: seq<string>, search: SearchQuery -> SearchOutcome)
    ensures var calls, found := UpsertCalls(spec, labels, search), Lookup(spec, search).1;
      && (found.Ok? && found.value.Some? ==>
            && CountEdits(calls) == 1 && CountCreates(calls) == 0
            && calls[|calls| - 1] == Edit(found.value.value, CanonicalTitle(spec), IssueBody(spec),
                                          LabelArg("--add-label", labels)))
      && (found == Ok(None) ==>
            && CountEdits(calls) == 0 && CountCreates(calls) == 1
            && calls[|calls| - 1] == Create(CanonicalTitle(spec), IssueBody(spec), LabelArg("--label", labels)))
      && (found.Err? ==> CountEdits(calls) == 0 && CountCreates(calls) == 0)
  {
    var searches := Lookup(spec, search).0;
    SearchesOnly(searches);
    var calls := UpsertCalls(spec, labels, search);
    if calls != searches {
      CountsAppend(searches, calls[|searches|..]);
      assert calls == searches + calls[|searches|..];
    }
  }

  /** A log of searches holds no edit and no create. */
  lemma {:induction false} SearchesOnly(calls: seq<GhCall>)
    requires forall i :: 0 <= i < |calls| ==> calls[i].Search?
    ensures CountEdits(calls) == 0 && CountCreates(calls) == 0
  {
    if |calls| > 0 {
      SearchesOnly(calls[1..]);
    }
  }

  // -------------------------------------------------------- the remote

  datatype Issue = Issue(title: string, body: string, labels: set<string>)

  /** The remote tracker as seen through `gh`: its issues by number, the
      project items, the number the next created issue gets, and the log of
      every `gh` invocation the client has made. */
  class Remote {
    var issues: map<int, Issue>
    var projectItems: set<(string, int)>
    var nextNumber: int
    var calls: seq<GhCall>

    constructor (issues: map<int, Issue>, nextNumber: int)
      ensures this.issues == issues && this.nextNumber == nextNumber
      ensures projectItems == {} && calls == []
    {
      this.issues := issues;
      this.nextNumber := nextNumber;
      projectItems := {};
      calls := [];
    }

    /** `gh issue list` for one query; the outcome is the oracle's. */
    method RunSearch(query: SearchQuery, search: SearchQuery -> SearchOutcome)
      returns (r: Result<seq<IssueRef>, GhError>)
      modifies this
      ensures r == SearchResults(query, search(query))
      ensures calls == old(calls) + [Search(query)]
      ensures issues == old(issues) && projectItems == old(projectItems) && nextNumber == old(nextNumber)
    {
      calls := calls + [Search(query)];
      r := SearchResults(query, search(query));
    }

    /** `gh issue edit`: fails for an unknown number; otherwise replaces the
        title and body and adds the labels. */
    method EditIssue(n: int, title: string, body: string, labels: seq<string>)
      returns (r: Result<int, GhError>)
      modifies this
      ensures calls == old(calls) + [Edit(n, title, body, LabelArg("--add-label", labels))]
      ensures n !in old(issues) ==> r.Err? && issues == old(issues)
      ensures n in old(issues) ==>
        r == Ok(n) && issues == old(issues)[n := Issue(title, body, old(issues)[n].labels + LabelSet(labels))]
      ensures projectItems == old(projectItems) && nextNumber == old(nextNumber)
    {
      var call := Edit(n, title, body, LabelArg("--add-label", labels));
      calls := calls + [call];
      if n in issues {
        issues := issues[n := Issue(title, body, issues[n].labels + LabelSet(labels))];
        r := Ok(n);
      } else {
        r := Err(CliError(call));
      }
    }

    /** `gh issue create`: the new issue gets the next number, and the
        command prints `createOutput(number)`; the number is read back from
        that output with surrounding whitespace trimmed. */
    method CreateIssue(title: string, body: string, labels: seq<string>, createOutput: int -> string)
      returns (r: Result<int, GhError>)
      modifies this
      ensures calls == old(calls) + [Create(title, body, LabelArg("--label", labels))]
      ensures issues == old(issues)[old(nextNumber) := Issue(title, body, LabelSet(labels))]
      ensures nextNumber == old(nextNumber) + 1 && projectItems == old(projectItems)
      ensures r == Ok(ExtractIssueNumber(Trim(createOutput(old(nextNumber)))))
    {
      var n := nextNumber;
      var output := Trim(createOutput(n));
      var number := ExtractIssueNumber(output);
      calls := calls + [Create(title, body, LabelArg("--label", labels))];
      issues := issues[n := Issue(title, body, LabelSet(labels))];
      nextNumber := n + 1;
      r := Ok(number);
    }

    /** `upsertIssue(spec, labels)`. */
    method UpsertIssue(spec: SpecDoc, labels: seq<string>, search: SearchQuery -> SearchOutcome,
                       createOutput: int -> string)
      returns (r: Result<int, GhError>)
      modifies this
      ensures calls == old(calls) + UpsertCalls(spec, labels, search)
      ensures projectItems == old(projectItems)
      ensures Lookup(spec, search).1.Err? ==>
        r.Err? && issues == old(issues) && nextNumber == old(nextNumber)
      ensures var found := Lookup(spec, search).1;
        found.Ok? && found.value.Some? ==>
          var n := found.value.value;
          nextNumber == old(nextNumber)
          && (n in old(issues) ==>
                && r == Ok(n)
                && issues == old(issues)[n := Issue(CanonicalTitle(spec), IssueBody(spec),
                                                    old(issues)[n].labels + LabelSet(labels))])
          && (n !in old(issues) ==> r.Err? && issues == old(issues))
      ensures Lookup(spec, search).1 == Ok(None) ==>
        && nextNumber == old(nextNumber) + 1
        && issues == old(issues)[old(nextNumber) := Issue(CanonicalTitle(spec), IssueBody(spec), LabelSet(labels))]
        && r == Ok(ExtractIssueNumber(Trim(createOutput(old(nextNumber)))))
    {
      var title := CanonicalTitle(spec);
      var body := IssueBody(spec);
      var found := FindIssue(spec, search);
      match found
      case Err(e) =>
        r := Err(e);
      case Ok(Some(n)) =>
        r := EditIssue(n, title, body, labels);
      case Ok(None) =>
        r := CreateIssue(title, body, labels, createOutput);
    }

    /** The issue `upsertIssue` updates: the first title match, otherwise
        the first issue whose text holds the spec tag, otherwise none. */
    method FindIssue(spec: SpecDoc, search: SearchQuery -> SearchOutcome)
      returns (r: Result<Option<int>, GhError>)
      modifies this
      ensures calls == old(calls) + Lookup(spec, search).0
      ensures r == Lookup(spec, search).1
      ensures issues == old(issues) && projectItems == old(projectItems) && nextNumber == old(nextNumber)
    {
      var byTitle := RunSearch(ByTitle(CanonicalTitle(spec)), search);
      if byTitle.Err? {
        return Err(byTitle.error);
      }
      var found := byTitle.value;
      if |found| > 0 {
        return Ok(Some(found[0].number));
      }
      var byText := RunSearch(ByText(TagQuery(spec)), search);
      if byText.Err? {
        return Err(byText.error);
      }
      found := byText.value;
      r := Ok(if |found| > 0 then Some(found[0].number) else None);
    }

    /** `addToProject(projectName, issueNumber)`: nothing for an empty
        project name; otherwise one `gh project item-add`, whose failure is
        swallowed. `added` is the oracle's outcome of that command. */
    method AddToProject(projectName: string, issueNumber: int, added: bool)
      modifies this
      ensures projectName == "" ==> calls == old(calls) && projectItems == old(projectItems)
      ensures projectName != "" ==> calls == old(calls) + [ProjectItemAdd(projectName, issueNumber)]
      ensures projectName != "" ==>
        projectItems == if added then old(projectItems) + {(projectName, issueNumber)} else old(projectItems)
      ensures issues == old(issues) && nextNumber == old(nextNumber)
    {
      if projectName == "" {
        return;
      }
      calls := calls + [ProjectItemAdd(projectName, issueNumber)];
      if added {
        projectItems := projectItems + {(projectName, issueNumber)};
      }
    }
  }
}
