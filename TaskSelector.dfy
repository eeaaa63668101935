/** `selectNextTask` of packages/specs-cli/src/core/taskSelector.ts: sort
    a copy of the specs by file modification time, newest first, keeping
    the original order among equal times, and take the first spec that has
    a feature with a non-empty id. Modification times are a function of
    the file path. */
module TaskSelector {
  import opened Wrappers
  import opened SpecParser

  datatype NextTask = NextTask(spec: SpecDoc, featureId: string)

  /** The modification time of a spec's file. */
  function Time(s: SpecDoc, mtime: string -> int): int
  {
    mtime(s.filePath)
  }

  // ------------------------------------------------------------ the order

  /** Newest first. */
  predicate Sorted(s: seq<SpecDoc>, mtime: string -> int)
  {
    forall i, j :: 0 <= i < j < |s| ==> Time(s[i], mtime) >= Time(s[j], mtime)
  }

  /** The specs of `s` whose file has time `t`, in their order in `s`. */
  function WithTime(s: seq<SpecDoc>, t: int, mtime: string -> int): seq<SpecDoc>
  {
    if |s| == 0 then []
    else (if Time(s[0], mtime) == t then [s[0]] else []) + WithTime(s[1..], t, mtime)
  }

  /** Inserts `x` after every element of `s` that is at least as new. */
  function Insert(s: seq<SpecDoc>, x: SpecDoc, mtime: string -> int): seq<SpecDoc>
  {
    if |s| == 0 || Time(s[|s| - 1], mtime) >= Time(x, mtime) then s + [x]
    else Insert(s[..|s| - 1], x, mtime) + [s[|s| - 1]]
  }

  /** The stable newest-first order of `s` (what
      `[...specs].sort((a, b) => bTime - aTime)` produces). */
  function ByRecency(s: seq<SpecDoc>, mtime: string -> int): seq<SpecDoc>
  {
    if |s| == 0 then [] else Insert(ByRecency(s[..|s| - 1], mtime), s[|s| - 1], mtime)
  }

  /** Selecting by time distributes over concatenation. */
  lemma {:induction false} WithTimeAppend(a: seq<SpecDoc>, b: seq<SpecDoc>, t: int, mtime: string -> int)
    ensures WithTime(a + b, t, mtime) == WithTime(a, t, mtime) + WithTime(b, t, mtime)
  {
    if |a| == 0 {
      assert a + b == b;
    } else {
      var head := if Time(a[0], mtime) == t then [a[0]] else [];
      assert (a + b)[0] == a[0];
      assert (a + b)[1..] == a[1..] + b;
      assert WithTime(a + b, t, mtime) == head + WithTime(a[1..] + b, t, mtime);
      WithTimeAppend(a[1..], b, t, mtime);
      assert WithTime(a, t, mtime) == head + WithTime(a[1..], t, mtime);
    }
  }

  /** Inserting adds exactly `x`. */
  lemma {:induction false} InsertPermutes(s: seq<SpecDoc>, x: SpecDoc, mtime: string -> int)
    ensures multiset(Insert(s, x, mtime)) == multiset(s) + multiset{x}
  {
    if |s| > 0 && Time(s[|s| - 1], mtime) < Time(x, mtime) {
      InsertPermutes(s[..|s| - 1], x, mtime);
      assert s == s[..|s| - 1] + [s[|s| - 1]];
    }
  }

  /** Inserting into a newest-first sequence keeps it newest first. */
  lemma {:induction false} InsertSorted(s: seq<SpecDoc>, x: SpecDoc, mtime: string -> int)
    requires Sorted(s, mtime)
    ensures Sorted(Insert(s, x, mtime), mtime)
  {
    if |s| > 0 && Time(s[|s| - 1], mtime) < Time(x, mtime) {
      var init, last := s[..|s| - 1], s[|s| - 1];
      InsertSorted(init, x, mtime);
      InsertPermutes(init, x, mtime);
      var r := Insert(init, x, mtime);
      forall i | 0 <= i < |r|
        ensures Time(r[i], mtime) >= Time(last, mtime)
      {
        assert r[i] in multiset(r);
        assert r[i] in multiset(init) || r[i] == x;
      }
    }
  }

  /** Inserting keeps the order among equal times: `x` lands after every
      element with its own time. */
  lemma {:induction false} InsertWithTime(s: seq<SpecDoc>, x: SpecDoc, t: int, mtime: string -> int)
    ensures WithTime(Insert(s, x, mtime), t, mtime) == WithTime(s, t, mtime) + WithTime([x], t, mtime)
  {
    if |s| == 0 || Time(s[|s| - 1], mtime) >= Time(x, mtime) {
      WithTimeAppend(s, [x], t, mtime);
    } else {
      var init, last := s[..|s| - 1], s[|s| - 1];
      InsertWithTime(init, x, t, mtime);
      WithTimeAppend(Insert(init, x, mtime), [last], t, mtime);
      WithTimeAppend(init, [last], t, mtime);
      assert init + [last] == s;
    }
  }

  /** The order is newest first. */
  lemma {:induction false} ByRecencySorted(s: seq<SpecDoc>, mtime: string -> int)
    ensures Sorted(ByRecency(s, mtime), mtime)
  {
    if |s| > 0 {
      ByRecencySorted(s[..|s| - 1], mtime);
      InsertSorted(ByRecency(s[..|s| - 1], mtime), s[|s| - 1], mtime);
    }
  }

  /** The order is a permutation of the specs. */
  lemma {:induction false} ByRecencyPermutes(s: seq<SpecDoc>, mtime: string -> int)
    ensures multiset(ByRecency(s, mtime)) == multiset(s)
  {
    if |s| > 0 {
      ByRecencyPermutes(s[..|s| - 1], mtime);
      InsertPermutes(ByRecency(s[..|s| - 1], mtime), s[|s| - 1], mtime);
      assert s == s[..|s| - 1] + [s[|s| - 1]];
    }
  }

  /** The order is stable: specs with the same time keep their relative
      order. */
  lemma {:induction false} ByRecencyStable(s: seq<SpecDoc>, t: int, mtime: string -> int)
    ensures WithTime(ByRecency(s, mtime), t, mtime) == WithTime(s, t, mtime)
  {
    if |s| > 0 {
      var init, last := s[..|s| - 1], s[|s| - 1];
      ByRecencyStable(init, t, mtime);
      InsertWithTime(ByRecency(init, mtime), last, t, mtime);
      WithTimeAppend(init, [last], t, mtime);
      assert init + [last] == s;
    }
  }

  /** Sorts the array in place, newest first, stably. */
  method SortByRecency(a: array<SpecDoc>, mtime: string -> int)
    modifies a
    ensures a[..] == ByRecency(old(a[..]), mtime)
  {
    ghost var orig := a[..];
    for i := 0 to a.Length
      invariant a[..i] == ByRecency(orig[..i], mtime)
      invariant a[i..] == orig[i..]
    {
      assert orig[..i + 1][..i] == orig[..i];
      InsertInPlace(a, i, mtime);
    }
    assert orig[..a.Length] == orig;
  }

  /** Moves `a[i]` into its place in the sorted prefix `a[..i]`, shifting
      the newer-than-it tail of the prefix one step right. */
  method InsertInPlace(a: array<SpecDoc>, i: nat, mtime: string -> int)
    requires i < a.Length
    modifies a
    ensures a[..i + 1] == Insert(old(a[..i]), old(a[i]), mtime)
    ensures a[i + 1..] == old(a[i + 1..])
  {
    var x := a[i];
    ghost var s := a[..i];
    var j := i;
    while j > 0 && Time(a[j - 1], mtime) < Time(x, mtime)
      invariant 0 <= j <= i
      invariant forall k :: 0 <= k < j ==> a[k] == s[k]
      invariant forall k :: j < k <= i ==> a[k] == s[k - 1]
      invariant forall k :: i < k < a.Length ==> a[k] == old(a[k])
      invariant forall k :: j <= k < i ==> Time(s[k], mtime) < Time(x, mtime)
    {
      a[j] := a[j - 1];
      j := j - 1;
    }
    a[j] := x;
    assert a[..i + 1] == Insert(s, x, mtime) by {
      InsertPlaced(s, j, x, mtime);
      Assembled(s, j, x, a[..i + 1]);
    }
    assert a[i + 1..] == old(a[i + 1..]);
  }

  /** A sequence that holds `s[..j]`, then `x`, then `s[j..]`, position by
      position, is their concatenation. */
  lemma Assembled(s: seq<SpecDoc>, j: nat, x: SpecDoc, t: seq<SpecDoc>)
    requires j <= |s| && |t| == |s| + 1
    requires forall k :: 0 <= k < j ==> t[k] == s[k]
    requires t[j] == x
    requires forall k :: j < k <= |s| ==> t[k] == s[k - 1]
    ensures t == s[..j] + [x] + s[j..]
  {
  }

  /** `x` goes right after the last element at least as new as it: when
      everything from `j` on is older and nothing before `j` is, `x` lands
      at `j`. */
  lemma {:induction false} InsertPlaced(s: seq<SpecDoc>, j: nat, x: SpecDoc, mtime: string -> int)
    requires j <= |s|
    requires j == 0 || Time(s[j - 1], mtime) >= Time(x, mtime)
    requires forall k :: j <= k < |s| ==> Time(s[k], mtime) < Time(x, mtime)
    ensures Insert(s, x, mtime) == s[..j] + [x] + s[j..]
    decreases |s| - j
  {
    if j < |s| {
      var init := s[..|s| - 1];
      InsertPlaced(init, j, x, mtime);
      assert init[..j] == s[..j];
      assert s[j..] == init[j..] + [s[|s| - 1]];
    }
  }

  // ------------------------------------------------------------ selection

  /** `features.find((f) => !!f.id)?.id`: the first non-empty feature id. */
  function FirstFeatureId(features: seq<Feature>): (r: Option<string>)
    ensures r.None? <==> forall i :: 0 <= i < |features| ==> features[i].id == ""
    ensures r.Some? ==> r.value != ""
  {
    if |features| == 0 then None
    else if features[0].id != "" then Some(features[0].id)
    else
      assert forall i :: 1 <= i < |features| ==> features[i] == features[1..][i - 1];
      FirstFeatureId(features[1..])
  }

  /** The id found is the one of the first feature whose id is non-empty. */
  lemma {:induction false} FirstFeatureIdIsFirst(features: seq<Feature>, k: nat)
    requires k < |features| && features[k].id != ""
    requires forall i :: 0 <= i < k ==> features[i].id == ""
    ensures FirstFeatureId(features) == Some(features[k].id)
  {
    if k > 0 {
      FirstFeatureIdIsFirst(features[1..], k - 1);
    }
  }

  /** A spec with a feature that has a non-empty id. */
  predicate Actionable(s: SpecDoc)
  {
    FirstFeatureId(s.features).Some?
  }

  /** The first actionable spec of `s`, in the order of `s`. */
  function Pick(s: seq<SpecDoc>): (r: Option<NextTask>)
    ensures r.None? <==> forall x :: x in s ==> !Actionable(x)
    ensures r.Some? ==> r.value.spec in s && FirstFeatureId(r.value.spec.features) == Some(r.value.featureId)
  {
    if |s| == 0 then None
    else match FirstFeatureId(s[0].features)
      case Some(id) =>
        assert s[0] in s && Actionable(s[0]);
        Some(NextTask(s[0], id))
      case None =>
        var r := Pick(s[1..]);
        assert forall x :: x in s ==> x == s[0] || x in s[1..];
        r
  }

  /** `selectNextTask(specs)`. */
  method SelectNextTask(specs: seq<SpecDoc>, mtime: string -> int) returns (r: Option<NextTask>)
    ensures r == Pick(ByRecency(specs, mtime))
  {
    if |specs| == 0 {
      return None;
    }
    var sorted := new SpecDoc[|specs|](i requires 0 <= i < |specs| => specs[i]);
    assert sorted[..] == specs;
    SortByRecency(sorted, mtime);
    for i := 0 to sorted.Length
      invariant Pick(sorted[..]) == Pick(sorted[i..])
    {
      assert sorted[i..][1..] == sorted[i + 1..];
      var id := FirstFeatureId(sorted[i].features);
      if id.Some? {
        return Some(NextTask(sorted[i], id.value));
      }
    }
    return None;
  }

  /** In a newest-first order the first actionable spec is at least as new
      as every actionable spec. */
  lemma {:induction false} PickIsNewest(s: seq<SpecDoc>, mtime: string -> int)
    requires Sorted(s, mtime) && Pick(s).Some?
    ensures forall x :: x in s && Actionable(x) ==> Time(x, mtime) <= Time(Pick(s).value.spec, mtime)
  {
    if !Actionable(s[0]) {
      assert Sorted(s[1..], mtime);
      PickIsNewest(s[1..], mtime);
      assert forall x :: x in s && Actionable(x) ==> x in s[1..];
    } else {
      forall x | x in s && Actionable(x)
        ensures Time(x, mtime) <= Time(s[0], mtime)
      {
        var j :| 0 <= j < |s| && s[j] == x;
      }
    }
  }

  /** The first actionable spec is also the first actionable one among the
      specs with its time. */
  lemma {:induction false} PickWithinTime(s: seq<SpecDoc>, mtime: string -> int)
    requires Pick(s).Some?
    ensures Pick(WithTime(s, Time(Pick(s).value.spec, mtime), mtime)) == Pick(s)
  {
    if !Actionable(s[0]) {
      PickSkips(s);
      PickWithinTime(s[1..], mtime);
      WithTimeSkip(s, Time(Pick(s).value.spec, mtime), mtime);
    } else {
      PickTakesHead(s);
      WithTimeHead(s, mtime);
    }
  }

  /** Passing over a first spec that is not actionable, whether or not it
      has time `t`. */
  lemma WithTimeSkip(s: seq<SpecDoc>, t: int, mtime: string -> int)
    requires |s| > 0 && !Actionable(s[0])
    ensures Pick(WithTime(s, t, mtime)) == Pick(WithTime(s[1..], t, mtime))
  {
    var w := WithTime(s[1..], t, mtime);
    if Time(s[0], mtime) == t {
      assert WithTime(s, t, mtime) == [s[0]] + w;
      assert ([s[0]] + w)[0] == s[0] && ([s[0]] + w)[1..] == w;
      PickSkips([s[0]] + w);
    } else {
      assert WithTime(s, t, mtime) == w;
    }
  }

  /** An actionable first spec heads the specs with its own time. */
  lemma WithTimeHead(s: seq<SpecDoc>, mtime: string -> int)
    requires |s| > 0 && Actionable(s[0])
    ensures Pick(WithTime(s, Time(s[0], mtime), mtime)) == Pick([s[0]])
  {
    var w := WithTime(s[1..], Time(s[0], mtime), mtime);
    assert WithTime(s, Time(s[0], mtime), mtime) == [s[0]] + w;
    assert ([s[0]] + w)[0] == s[0];
    PickTakesHead([s[0]] + w);
    PickTakesHead([s[0]]);
  }

  /** A spec without an actionable feature is passed over. */
  lemma PickSkips(s: seq<SpecDoc>)
    requires |s| > 0 && !Actionable(s[0])
    ensures Pick(s) == Pick(s[1..])
  {
  }

  /** An actionable first spec is picked. */
  lemma PickTakesHead(s: seq<SpecDoc>)
    requires |s| > 0 && Actionable(s[0])
    ensures Pick(s) == Some(NextTask(s[0], FirstFeatureId(s[0].features).value))
  {
  }

  /** What `selectNextTask` promises: nothing exactly when no spec has a
      feature with a non-empty id; otherwise one of the specs, with its
      first non-empty feature id, at least as new as every actionable spec,
      and the first actionable spec with that time in the input order. */
  lemma SelectsNewestActionable(specs: seq<SpecDoc>, mtime: string -> int)
    ensures var r := Pick(ByRecency(specs, mtime));
      && (r.None? <==> forall x :: x in specs ==> !Actionable(x))
      && (r.Some? ==>
            && r.value.spec in specs
            && FirstFeatureId(r.value.spec.features) == Some(r.value.featureId)
            && (forall x :: x in specs && Actionable(x) ==> Time(x, mtime) <= Time(r.value.spec, mtime))
            && Pick(WithTime(specs, Time(r.value.spec, mtime), mtime)) == r)
  {
    var sorted := ByRecency(specs, mtime);
    ByRecencyPermutes(specs, mtime);
    assert forall x :: x in specs <==> x in sorted by {
      forall x
        ensures x in specs <==> x in sorted
      {
        assert x in specs <==> x in multiset(specs);
        assert x in sorted <==> x in multiset(sorted);
      }
    }
    var r := Pick(sorted);
    if r.Some? {
      ByRecencySorted(specs, mtime);
      PickIsNewest(sorted, mtime);
      PickWithinTime(sorted, mtime);
      ByRecencyStable(specs, Time(r.value.spec, mtime), mtime);
    }
  }
}
