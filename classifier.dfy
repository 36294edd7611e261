/** The value classifier and the sampled field classifier of the dashboard
    page (`isNumeric` and `fieldIsNumeric`). */
module Classifier {
  import opened Js
  import Text
  import Sorting

  /** `fieldIsNumeric` looks at no more than this many leading rows. */
  const SampleSize: nat := 50

  /** `isNumeric(v)`: not null or undefined, and the number parsed from its
      string form, with every character outside `[0-9.\-]` removed, is
      finite. */
  predicate IsNumeric(v: Value, rt: Runtime) {
    !IsNullish(v) && IsFinite(StripParse(v, rt))
  }

  /** Stripping is idempotent, so a string and its stripped form are
      classified alike (the classifier only ever sees the stripped text). */
  lemma IsNumericStripped(s: string, rt: Runtime)
    ensures IsNumeric(Str(s), rt) <==> IsNumeric(Str(Text.KeepNumericChars(s)), rt)
  {
    Text.KeepNumericCharsOfNumeric(Text.KeepNumericChars(s));
  }

  /** A string with no digit, dot or minus sign strips to the empty string,
      which ECMAScript's StringToNumber maps to 0: so "N/A", "abc" and ""
      are all numeric to `isNumeric`. */
  lemma {:induction false} DigitlessStringIsNumeric(s: string, rt: Runtime)
    requires rt.toNumber("") == Finite(0.0)
    requires forall i :: 0 <= i < |s| ==> !Text.IsNumericChar(s[i])
    ensures IsNumeric(Str(s), rt)
  {
    StripsToEmpty(s);
  }

  lemma {:induction false} StripsToEmpty(s: string)
    requires forall i :: 0 <= i < |s| ==> !Text.IsNumericChar(s[i])
    ensures Text.KeepNumericChars(s) == ""
  {
    if s != [] {
      StripsToEmpty(s[1..]);
    }
  }

  /** How many of `rows` define `field` (the value is not `undefined`). */
  function Present(rows: seq<Record>, field: string): (n: nat)
    ensures n <= |rows|
  {
    if rows == [] then 0
    else Present(rows[..|rows| - 1], field) + (if Get(rows[|rows| - 1], field).Undefined? then 0 else 1)
  }

  /** How many of `rows` hold a numeric value in `field`. */
  function NumericPresent(rows: seq<Record>, field: string, rt: Runtime): (n: nat)
    ensures n <= Present(rows, field)
  {
    if rows == [] then 0
    else NumericPresent(rows[..|rows| - 1], field, rt) + (if IsNumeric(Get(rows[|rows| - 1], field), rt) then 1 else 0)
  }

  /** The rows `fieldIsNumeric` samples: the first `SampleSize`. */
  function Sample(data: seq<Record>): (s: seq<Record>)
    ensures |s| <= SampleSize && |s| <= |data| && s == data[..|s|]
    ensures |data| >= SampleSize || s == data
  {
    Sorting.Take(data, SampleSize)
  }

  /** `fieldIsNumeric(field)`: the field is named, defined in some sampled
      row, and numeric in more than 60% of the sampled rows that define
      it. */
  predicate FieldIsNumericSpec(data: seq<Record>, field: string, rt: Runtime) {
    var total := Present(Sample(data), field);
    var numeric := NumericPresent(Sample(data), field, rt);
    field != "" && total > 0 && (numeric as real) / (total as real) > 0.6
  }

  /** The loop of `fieldIsNumeric`, counting the defined and the numeric
      values among the first `SampleSize` rows. */
  method FieldIsNumeric(data: seq<Record>, field: string, rt: Runtime) returns (r: bool)
    ensures r <==> FieldIsNumericSpec(data, field, rt)
  {
    if field == "" {
      return false;
    }
    var total, numeric := 0, 0;
    var i := 0;
    while i < |data| && i < SampleSize
      invariant 0 <= i <= |data| && i <= SampleSize
      invariant total == Present(data[..i], field)
      invariant numeric == NumericPresent(data[..i], field, rt)
    {
      var v := Get(data[i], field);
      CountStep(data, i, field, rt);
      if !v.Undefined? {
        total := total + 1;
        if IsNumeric(v, rt) {
          numeric := numeric + 1;
        }
      }
      i := i + 1;
    }
    assert data[..i] == Sample(data);
    r := total > 0 && (numeric as real) / (total as real) > 0.6;
  }

  /** One more row adds one to the defined count when it defines `field`,
      and one to the numeric count when its value is numeric, which
      an undefined value never is. */
  lemma CountStep(data: seq<Record>, i: nat, field: string, rt: Runtime)
    requires i < |data|
    ensures var v := Get(data[i], field);
      && Present(data[..i + 1], field) == Present(data[..i], field) + (if v.Undefined? then 0 else 1)
      && NumericPresent(data[..i + 1], field, rt) == NumericPresent(data[..i], field, rt) + (if IsNumeric(v, rt) then 1 else 0)
      && (IsNumeric(v, rt) ==> !v.Undefined?)
  {
    assert data[..i + 1][..i] == data[..i];
  }

  /** `n / t > 0.6` on exact ratios is `5n > 3t`. */
  lemma RatioAboveThreeFifths(n: nat, t: nat)
    requires t > 0
    ensures (n as real) / (t as real) > 0.6 <==> 5 * n > 3 * t
  {
    var q := (n as real) / (t as real);
    var d := q - 0.6;
    assert d * (t as real) == (n as real) - 0.6 * (t as real);
    if d > 0.0 {
      SignOfProduct(d, t as real);
    } else {
      SignOfProduct(-d, t as real);
    }
  }

  lemma SignOfProduct(a: real, b: real)
    requires b > 0.0
    ensures a > 0.0 ==> a * b > 0.0
    ensures a >= 0.0 ==> a * b >= 0.0
  {
  }

  /** The 60% threshold is strict and exact: with `t` defined and `n`
      numeric sampled values the field is numeric exactly when `5n > 3t`
      (so 3 of 5 is not enough, 4 of 5 is). */
  lemma FieldIsNumericThreshold(data: seq<Record>, field: string, rt: Runtime)
    ensures FieldIsNumericSpec(data, field, rt) <==>
            var total := Present(Sample(data), field);
            field != "" && total > 0 && 5 * NumericPresent(Sample(data), field, rt) > 3 * total
  {
    var total := Present(Sample(data), field);
    if total > 0 {
      RatioAboveThreeFifths(NumericPresent(Sample(data), field, rt), total);
    }
  }

  /** Five defined values in the sample: four numeric ones make the field
      numeric, three do not. */
  lemma FiveSampledValues(data: seq<Record>, field: string, rt: Runtime)
    requires field != ""
    requires Present(Sample(data), field) == 5
    ensures FieldIsNumericSpec(data, field, rt) <==> NumericPresent(Sample(data), field, rt) >= 4
  {
    FieldIsNumericThreshold(data, field, rt);
  }

  /** Only the sample matters: rows after the first `SampleSize` never
      change the classification. */
  lemma FieldIsNumericIgnoresTail(data: seq<Record>, more: seq<Record>, field: string, rt: Runtime)
    requires |data| >= SampleSize
    ensures FieldIsNumericSpec(data + more, field, rt) == FieldIsNumericSpec(data, field, rt)
  {
    assert Sample(data + more) == Sample(data);
  }

  /** A field that no sampled row defines is never numeric: the rows
      after the first `SampleSize` are not looked at, and a key that is
      present but holds `undefined` counts as missing. */
  lemma {:induction false} AbsentFieldIsNotNumeric(data: seq<Record>, field: string, rt: Runtime)
    requires forall i :: 0 <= i < |data| && i < SampleSize ==> Get(data[i], field).Undefined?
    ensures !FieldIsNumericSpec(data, field, rt)
  {
    var s := Sample(data);
    assert forall i :: 0 <= i < |s| ==> s[i] == data[i];
    NonePresent(s, field);
  }

  lemma {:induction false} NonePresent(rows: seq<Record>, field: string)
    requires forall i :: 0 <= i < |rows| ==> Get(rows[i], field).Undefined?
    ensures Present(rows, field) == 0
  {
    if rows != [] {
      NonePresent(rows[..|rows| - 1], field);
    }
  }
}
