/** `runCoverage` of packages/specs-cli/src/core/coverageEngine.ts: one
    pending report item per feature of every spec, in spec order, and the
    summary counts. Evaluation is not implemented by the system, so nothing
    is ever marked covered. The timestamp is a parameter; writing the report
    file is not modelled. */
module CoverageEngine {
  import opened Wrappers
  import opened SpecParser

  datatype Status = Pending | Covered

  datatype Item = Item(specId: string, featureId: string, status: Status, notes: Option<string>)

  datatype Summary = Summary(totalSpecs: nat, totalFeatures: nat, coveredFeatures: nat)

  datatype Report = Report(generatedAt: string, prNumber: Option<int>, summary: Summary, items: seq<Item>)

  const TodoNote: string := "TODO: LLM-based coverage evaluation"

  /** The item recorded for one feature of a spec. */
  function FeatureItem(spec: SpecDoc, f: Feature): Item
  {
    Item(spec.specId, f.id, Pending, Some(TodoNote))
  }

  /** The items of one spec, one per feature in order. */
  function SpecItems(spec: SpecDoc): (r: seq<Item>)
    ensures |r| == |spec.features|
    ensures forall k :: 0 <= k < |r| ==> r[k] == FeatureItem(spec, spec.features[k])
  {
    seq(|spec.features|, k requires 0 <= k < |spec.features| => FeatureItem(spec, spec.features[k]))
  }

  /** The items of all specs, spec by spec. */
  function CoverageItems(specs: seq<SpecDoc>): seq<Item>
  {
    if |specs| == 0 then [] else CoverageItems(specs[..|specs| - 1]) + SpecItems(specs[|specs| - 1])
  }

  /** The number of features over all specs. */
  function FeatureCount(specs: seq<SpecDoc>): nat
  {
    if |specs| == 0 then 0 else FeatureCount(specs[..|specs| - 1]) + |specs[|specs| - 1].features|
  }

  /** `items.filter((i) => i.status === 'covered').length`. */
  function CountCovered(items: seq<Item>): nat
  {
    if |items| == 0 then 0 else CountCovered(items[..|items| - 1]) + (if items[|items| - 1].status == Covered then 1 else 0)
  }

  /** `runCoverage(specs, { prNumber })`, stamped with `generatedAt`. */
  method RunCoverage(specs: seq<SpecDoc>, prNumber: Option<int>, generatedAt: string) returns (report: Report)
    ensures report.items == CoverageItems(specs)
    ensures report.summary == Summary(|specs|, |report.items|, CountCovered(report.items))
    ensures report.prNumber == prNumber && report.generatedAt == generatedAt
  {
    var items: seq<Item> := [];
    for i := 0 to |specs|
      invariant items == CoverageItems(specs[..i])
    {
      var spec := specs[i];
      assert specs[..i + 1][..i] == specs[..i];
      for k := 0 to |spec.features|
        invariant items == CoverageItems(specs[..i]) + SpecItems(spec)[..k]
      {
        assert SpecItems(spec)[..k + 1] == SpecItems(spec)[..k] + [FeatureItem(spec, spec.features[k])];
        items := items + [Item(spec.specId, spec.features[k].id, Pending, Some(TodoNote))];
      }
      assert SpecItems(spec)[..|spec.features|] == SpecItems(spec);
    }
    assert specs[..|specs|] == specs;
    report := Report(generatedAt, prNumber, Summary(|specs|, |items|, CountCovered(items)), items);
  }

  /** One item per feature: the report's feature total is the number of
      features over all specs. */
  lemma {:induction false} TotalIsFeatureCount(specs: seq<SpecDoc>)
    ensures |CoverageItems(specs)| == FeatureCount(specs)
  {
    if |specs| > 0 {
      TotalIsFeatureCount(specs[..|specs| - 1]);
    }
  }

  /** Feature `k` of spec `i` is reported at position
      `FeatureCount(specs[..i]) + k`, under the spec's id and the feature's
      id. */
  lemma {:induction false} ItemPosition(specs: seq<SpecDoc>, i: nat, k: nat)
    requires i < |specs| && k < |specs[i].features|
    ensures FeatureCount(specs[..i]) + k < |CoverageItems(specs)|
    ensures CoverageItems(specs)[FeatureCount(specs[..i]) + k]
      == Item(specs[i].specId, specs[i].features[k].id, Pending, Some(TodoNote))
    decreases |specs|
  {
    var n := |specs|;
    var init := specs[..n - 1];
    TotalIsFeatureCount(init);
    if i == n - 1 {
      assert specs[..i] == init;
    } else {
      ItemPosition(init, i, k);
      assert init[..i] == specs[..i];
      TotalIsFeatureCount(specs);
    }
  }

  /** Every item is pending and carries the placeholder note. */
  lemma {:induction false} AllPending(specs: seq<SpecDoc>)
    ensures forall j :: 0 <= j < |CoverageItems(specs)| ==>
      CoverageItems(specs)[j].status == Pending && CoverageItems(specs)[j].notes == Some(TodoNote)
  {
    if |specs| > 0 {
      AllPending(specs[..|specs| - 1]);
      var a, b := CoverageItems(specs[..|specs| - 1]), SpecItems(specs[|specs| - 1]);
      assert forall j :: |a| <= j < |a| + |b| ==> (a + b)[j] == b[j - |a|];
    }
  }

  /** No item is ever counted as covered. */
  lemma {:induction false} NothingCovered(items: seq<Item>)
    requires forall j :: 0 <= j < |items| ==> items[j].status == Pending
    ensures CountCovered(items) == 0
  {
    if |items| > 0 {
      NothingCovered(items[..|items| - 1]);
    }
  }

  /** The summary of any run: all specs, all features, none covered. */
  lemma ReportSummary(specs: seq<SpecDoc>)
    ensures var items := CoverageItems(specs);
      Summary(|specs|, |items|, CountCovered(items)) == Summary(|specs|, FeatureCount(specs), 0)
  {
    TotalIsFeatureCount(specs);
    AllPending(specs);
    NothingCovered(CoverageItems(specs));
  }
}
