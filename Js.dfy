/** Untyped JavaScript values, as produced by the YAML and front-matter
    parsers, with the few language operations the core applies to them:
    truthiness, `a || b`, property access, `String(v)`, `.length`, object
    spread and `for ... of` iteration. Numbers are integers here. */
module Js {
  import opened Wrappers
  import opened Text

  datatype Value =
    | Undefined
    | Null
    | Bool(b: bool)
    | Num(n: int)
    | Str(s: string)
    | Arr(items: seq<Value>)
    | Obj(fields: map<string, Value>)

  /** JavaScript truthiness: `undefined`, `null`, `false`, `0` and `""` are
      falsy; every array and object (even an empty one) is truthy. */
  predicate Truthy(v: Value)
  {
    match v
    case Undefined => false
    case Null => false
    case Bool(b) => b
    case Num(n) => n != 0
    case Str(s) => s != ""
    case Arr(_) => true
    case Obj(_) => true
  }

  /** `a || b`: the left operand when it is truthy, else the right one. */
  function Or(a: Value, b: Value): Value
  {
    if Truthy(a) then a else b
  }

  /** `v.key` (and `v?.key`) for a non-index key such as `"id"` or
      `"specs"`: an object's own entry, `undefined` when it has none or when
      `v` is not an object. */
  function Prop(v: Value, key: string): Value
  {
    if v.Obj? && key in v.fields then v.fields[key] else Undefined
  }

  /** `String(v)`. Arrays render as their elements' strings joined by `,`,
      with `null` and `undefined` elements rendered empty; plain objects
      render as `[object Object]`. */
  function ToStr(v: Value): string
    decreases v, 1, 0
  {
    match v
    case Undefined => "undefined"
    case Null => "null"
    case Bool(b) => if b then "true" else "false"
    case Num(n) => IntToDecimal(n)
    case Str(s) => s
    case Arr(items) => ArrayToStr(v, 0)
    case Obj(_) => "[object Object]"
  }

  /** The elements of array `v` from index `i` on, joined by `,`. */
  function ArrayToStr(v: Value, i: nat): string
    requires v.Arr? && i <= |v.items|
    decreases v, 0, |v.items| - i
  {
    if i == |v.items| then ""
    else
      var e := v.items[i];
      var head := if e.Null? || e.Undefined? then "" else ToStr(e);
      if i + 1 == |v.items| then head else head + "," + ArrayToStr(v, i + 1)
  }

  /** `v.length`: the size of an array, the number of characters (code
      points) of a string, an object's own `length` entry, `undefined` for
      every other value. */
  function LengthOf(v: Value): Value
  {
    match v
    case Arr(items) => Num(|items|)
    case Str(s) => Num(|s|)
    case Obj(_) => Prop(v, "length")
    case _ => Undefined
  }

  /** The own enumerable entries that `{...v}` copies: an object's entries,
      an array's elements or a string's characters (code points) under
      their decimal indices, and
      nothing for `undefined`, `null`, booleans and numbers. */
  function Spread(v: Value): (m: map<string, Value>)
    ensures v.Obj? ==> m == v.fields
  {
    match v
    case Obj(fields) => fields
    case Arr(items) => IndexEntries(items)
    case Str(s) => IndexEntries(seq(|s|, i requires 0 <= i < |s| => Str([s[i]])))
    case _ => map[]
  }

  /** The elements of a list under their decimal indices. */
  function IndexEntries(items: seq<Value>): map<string, Value>
  {
    DecimalKeysInjective();
    map i | 0 <= i < |items| :: NatToDecimal(i) := items[i]
  }

  /** The decimal index keys are pairwise distinct. */
  lemma DecimalKeysInjective()
    ensures forall i: nat, j: nat :: NatToDecimal(i) == NatToDecimal(j) ==> i == j
  {
    forall i: nat, j: nat | NatToDecimal(i) == NatToDecimal(j)
      ensures i == j
    {
      DecimalInjective(i, j);
    }
  }

  /** Why `for (const x of v)` can fail: `v` is not iterable. */
  datatype IterationError = NotIterable(value: Value)

  /** The elements `for (const x of v)` visits: an array's elements, a
      string's characters as one-character strings; any other value throws
      a TypeError. */
  function Iterate(v: Value): (r: Result<seq<Value>, IterationError>)
    ensures r.Ok? <==> v.Arr? || v.Str?
    ensures v.Arr? ==> r == Ok(v.items)
    ensures v.Str? ==>
      r.Ok? && |r.value| == |v.s| && forall i :: 0 <= i < |v.s| ==> r.value[i] == Str([v.s[i]])
  {
    match v
    case Arr(items) => Ok(items)
    case Str(s) => Ok(seq(|s|, i requires 0 <= i < |s| => Str([s[i]])))
    case _ => Err(NotIterable(v))
  }

  /** An array whose `String` is empty: no elements, or a single element
      that renders empty (`null`, `undefined`, `""`, or such an array). */
  predicate EmptyRenderingArray(v: Value)
  {
    v.Arr? && (|v.items| == 0 ||
      (|v.items| == 1 && (v.items[0].Null? || v.items[0].Undefined? || ToStr(v.items[0]) == "")))
  }

  /** A truthy value renders as "" exactly when it is such an array: every
      other truthy value has a non-empty `String`, and two or more array
      elements always leave a `,`. */
  lemma TruthyRendersEmpty(v: Value)
    requires Truthy(v)
    ensures ToStr(v) == "" <==> EmptyRenderingArray(v)
  {
    match v
    case Num(n) =>
      assert |IntToDecimal(n)| >= 1;
    case Arr(items) =>
      if |items| >= 2 {
        assert ',' in ArrayToStr(v, 0);
      }
    case _ =>
  }
}
