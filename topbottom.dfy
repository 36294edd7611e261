/** `buildTopBottom`: the rows with a finite strip-parsed value, labelled by
    name or 1-based position, stably sorted by value and cut to the first
    `k`. */
module TopBottom {
  import opened Js
  import opened Text
  import opened Sorting
  import opened Charts
  import Histogram

  /** How many rows the top and bottom views show. */
  const RankSize: nat := 10

  datatype SortOrder = Desc | Asc

  /** One bar of the ranking: `{label, value}` (`label` is a Dafny keyword). */
  datatype Ranked = Ranked(labelText: string, value: real)

  /** `String(row.name ?? `#${idx + 1}`)`. */
  function RowLabel(row: Record, idx: nat, rt: Runtime): (l: string)
    ensures IsNullish(Get(row, "name")) ==> l == "#" + NatToString(idx + 1)
    ensures !IsNullish(Get(row, "name")) ==> l == ToStr(Get(row, "name"), rt)
  {
    var name := Get(row, "name");
    if IsNullish(name) then "#" + NatToString(idx + 1) else ToStr(name, rt)
  }

  /** Rows without a name get distinct labels: the 1-based row numbers
      read back to different numbers. */
  lemma UnnamedLabelsDiffer(row: Record, i: nat, other: Record, j: nat, rt: Runtime)
    requires IsNullish(Get(row, "name")) && IsNullish(Get(other, "name")) && i != j
    ensures RowLabel(row, i, rt) != RowLabel(other, j, rt)
  {
    NumberLabelsDiffer(i + 1, j + 1);
  }

  /** `#a` and `#b` differ for different numbers. */
  lemma NumberLabelsDiffer(a: nat, b: nat)
    requires a != b
    ensures "#" + NatToString(a) != "#" + NatToString(b)
  {
    var x, y := NatToString(a), NatToString(b);
    if "#" + x == "#" + y {
      assert x == ("#" + x)[1..];
      assert y == ("#" + y)[1..];
      NatToStringRoundTrip(a);
      NatToStringRoundTrip(b);
      assert false;
    }
  }

  /** `s.map((x, idx) => ...)` followed by a filter: the entries `f` gives
      each element of `s` with its index, in order. */
  function Collect<T, U>(s: seq<T>, f: (T, nat) -> seq<U>): seq<U> {
    if s == [] then [] else Collect(s[..|s| - 1], f) + f(s[|s| - 1], |s| - 1)
  }

  /** Row `idx` mapped to `{label, value}` and kept when its value is
      finite: one entry or none. */
  function Rank(row: Record, idx: nat, field: string, rt: Runtime): (r: seq<Ranked>)
    ensures StripParse(Get(row, field), rt).Finite? <==> r != []
    ensures r != [] ==> r == [Ranked(RowLabel(row, idx, rt), StripParse(Get(row, field), rt).r)]
    ensures |r| <= 1
  {
    var n := StripParse(Get(row, field), rt);
    if n.Finite? then [Ranked(RowLabel(row, idx, rt), n.r)] else []
  }

  /** `withVal`: every row whose strip-parsed value is finite, labelled by
      its index in `data`, in row order. */
  function RankedRows(data: seq<Record>, field: string, rt: Runtime): seq<Ranked> {
    Collect(data, (row: Record, idx: nat) => Rank(row, idx, field, rt))
  }

  /** The comparator `b.value - a.value` as a descending key. */
  function ValueKey(e: Ranked): real { e.value }

  /** The comparator `a.value - b.value`: descending on the negated value. */
  function NegValueKey(e: Ranked): real { -e.value }

  function KeyFor(order: SortOrder): Ranked -> real {
    match order
    case Desc => ValueKey
    case Asc => NegValueKey
  }

  /** `buildTopBottom(field, k, order)` as a function of the data. */
  function TopBottom(data: seq<Record>, field: string, k: nat, order: SortOrder, rt: Runtime): Aggregate<Ranked> {
    Aggregate(Take(SortDesc(RankedRows(data, field, rt), KeyFor(order)), k), "label", "value", Bar)
  }

  /** `buildTopBottom`: the ranked rows copied into a fresh array, sorted in
      place with the order's comparator, and cut to `k`. */
  method BuildTopBottom(data: seq<Record>, field: string, k: nat, order: SortOrder, rt: Runtime) returns (res: Aggregate<Ranked>)
    ensures res == TopBottom(data, field, k, order, rt)
  {
    var withVal := RankedRows(data, field, rt);
    var sorted := new Ranked[|withVal|](j requires 0 <= j < |withVal| => withVal[j]);
    assert sorted[..] == withVal;
    SortInPlace(sorted, KeyFor(order));
    res := Aggregate(Take(sorted[..], k), "label", "value", Bar);
  }

  /** The ranked values are exactly the values the histogram counts: both
      keep the finite strip-parsed values, in row order. */
  lemma {:induction false} RankedValuesAreFiniteValues(data: seq<Record>, field: string, rt: Runtime)
    ensures var r := RankedRows(data, field, rt);
      |r| == |Histogram.FiniteValues(data, field, rt)|
      && forall i :: 0 <= i < |r| ==> r[i].value == Histogram.FiniteValues(data, field, rt)[i]
  {
    if data != [] {
      RankedValuesAreFiniteValues(data[..|data| - 1], field, rt);
    }
  }

  /** Every row whose strip-parsed value is finite is ranked, under its
      label and that value (`Rank` of such a row is that one entry). */
  lemma FiniteRowIsRanked(data: seq<Record>, field: string, rt: Runtime, i: nat)
    requires i < |data|
    ensures Rank(data[i], i, field, rt) != [] ==> Rank(data[i], i, field, rt)[0] in RankedRows(data, field, rt)
  {
    CollectMember(data, (row: Record, idx: nat) => Rank(row, idx, field, rt), i);
  }

  lemma {:induction false} CollectMember<T, U>(s: seq<T>, f: (T, nat) -> seq<U>, i: nat)
    requires i < |s|
    ensures forall u :: u in f(s[i], i) ==> u in Collect(s, f)
  {
    var last := |s| - 1;
    if i < last {
      assert s[..last][i] == s[i];
      CollectMember(s[..last], f, i);
    }
  }

  /** Entry `e` is row `i` of `data`, ranked: the row's strip-parsed value is
      finite and equal to `e.value`, and `e` carries the row's label. */
  predicate RankedFrom(data: seq<Record>, field: string, rt: Runtime, e: Ranked, i: int) {
    0 <= i < |data| && StripParse(Get(data[i], field), rt) == Finite(e.value) && e.labelText == RowLabel(data[i], i, rt)
  }

  /** Every ranked entry comes from a row whose strip-parsed value is finite
      and equal to the entry's value, labelled by that row's name or
      position: rows with a non-finite value are dropped. */
  lemma {:induction false} RankedEntryHasRow(data: seq<Record>, field: string, rt: Runtime, m: nat)
    requires m < |RankedRows(data, field, rt)|
    ensures exists i :: RankedFrom(data, field, rt, RankedRows(data, field, rt)[m], i)
  {
    var last := |data| - 1;
    var prev := RankedRows(data[..last], field, rt);
    if m < |prev| {
      RankedEntryHasRow(data[..last], field, rt, m);
      var i :| RankedFrom(data[..last], field, rt, prev[m], i);
      assert data[..last][i] == data[i];
      assert RankedFrom(data, field, rt, RankedRows(data, field, rt)[m], i);
    } else {
      assert RankedFrom(data, field, rt, RankedRows(data, field, rt)[m], last);
    }
  }

  /** Sorting on the negated value groups the entries of one value exactly
      as sorting on the value does. */
  lemma {:induction false} NegatedKeyGroups(s: seq<Ranked>, v: real)
    ensures WithKey(s, NegValueKey, -v) == WithKey(s, ValueKey, v)
  {
    if s != [] {
      NegatedKeyGroups(s[..|s| - 1], v);
    }
  }

  /** The stable sort for `order` orders by value in that order's
      direction. */
  lemma SortedByOrder(d: seq<Ranked>, order: SortOrder)
    requires SortedDesc(d, KeyFor(order))
    ensures order == Desc ==> forall i, j :: 0 <= i < j < |d| ==> d[i].value >= d[j].value
    ensures order == Asc ==> forall i, j :: 0 <= i < j < |d| ==> d[i].value <= d[j].value
  {
    if order == Desc {
      forall i, j | 0 <= i < j < |d| ensures d[i].value >= d[j].value {
        assert ValueKey(d[i]) >= ValueKey(d[j]);
      }
    } else {
      forall i, j | 0 <= i < j < |d| ensures d[i].value <= d[j].value {
        assert NegValueKey(d[i]) >= NegValueKey(d[j]);
      }
    }
  }

  /** An entry that ranks no lower than another for `order` is at least as
      large for `Desc` and at most as large for `Asc`. */
  lemma RanksAbove(e: Ranked, f: Ranked, order: SortOrder)
    requires KeyFor(order)(f) >= KeyFor(order)(e)
    ensures if order == Desc then f.value >= e.value else f.value <= e.value
  {
    if order == Desc {
      assert ValueKey(f) >= ValueKey(e);
    } else {
      assert NegValueKey(f) >= NegValueKey(e);
    }
  }

  /** The first `k` of `ranked` after the stable sort for `order`: at most
      `k` entries drawn from `ranked`, in the order's direction, none left
      out beating one kept, and the kept entries of any one value the first
      ones of that value, in their original order. */
  lemma RankingOf(ranked: seq<Ranked>, k: nat, order: SortOrder)
    ensures var d := Take(SortDesc(ranked, KeyFor(order)), k);
      && |d| == (if k < |ranked| then k else |ranked|)
      && multiset(d) <= multiset(ranked)
      && (order == Desc ==> forall i, j :: 0 <= i < j < |d| ==> d[i].value >= d[j].value)
      && (order == Asc ==> forall i, j :: 0 <= i < j < |d| ==> d[i].value <= d[j].value)
      && (forall e, f :: e in multiset(ranked) - multiset(d) && f in d ==>
            if order == Desc then f.value >= e.value else f.value <= e.value)
      && (forall v :: WithKey(d, ValueKey, v) <= WithKey(ranked, ValueKey, v))
  {
    var key := KeyFor(order);
    var d := Take(SortDesc(ranked, key), k);
    TopOfStableSort(ranked, key, k);
    SortedByOrder(d, order);
    forall e, f | e in multiset(ranked) - multiset(d) && f in d
      ensures if order == Desc then f.value >= e.value else f.value <= e.value
    {
      RanksAbove(e, f, order);
    }
    forall v ensures WithKey(d, ValueKey, v) <= WithKey(ranked, ValueKey, v) {
      if order == Asc {
        NegatedKeyGroups(d, v);
        NegatedKeyGroups(ranked, v);
        assert WithKey(d, key, -v) <= WithKey(ranked, key, -v);
      }
    }
  }

  /** What `buildTopBottom` shows: at most `k` `{label, value}` bars of a bar
      chart, drawn from the ranked rows; by non-increasing value for `Desc`
      and non-decreasing value for `Asc`; no ranked row left out beats one
      shown in that order; and the rows shown with any one value are the
      first rows with that value, in their original order. */
  lemma TopBottomIsRanking(data: seq<Record>, field: string, k: nat, order: SortOrder, rt: Runtime)
    ensures var res := TopBottom(data, field, k, order, rt);
      var ranked := RankedRows(data, field, rt);
      var d := res.dataset;
      && res.x == "label" && res.y == "value" && res.chartType == Bar
      && |d| == (if k < |ranked| then k else |ranked|)
      && multiset(d) <= multiset(ranked)
      && (order == Desc ==> forall i, j :: 0 <= i < j < |d| ==> d[i].value >= d[j].value)
      && (order == Asc ==> forall i, j :: 0 <= i < j < |d| ==> d[i].value <= d[j].value)
      && (forall e, f :: e in multiset(ranked) - multiset(d) && f in d ==>
            if order == Desc then f.value >= e.value else f.value <= e.value)
      && (forall v :: WithKey(d, ValueKey, v) <= WithKey(ranked, ValueKey, v))
  {
    RankingOf(RankedRows(data, field, rt), k, order);
  }

  /** The example rows: values 10, 5, 8, 8 and 3 labelled a to e. */
  const ExampleRows: seq<Ranked> := [Ranked("a", 10.0), Ranked("b", 5.0), Ranked("c", 8.0), Ranked("d", 8.0), Ranked("e", 3.0)]

  lemma SortFirstThreeOfExample()
    ensures SortDesc(ExampleRows[..3], ValueKey) == [ExampleRows[0], ExampleRows[2], ExampleRows[1]]
  {
    var a, b, c := ExampleRows[0], ExampleRows[1], ExampleRows[2];
    assert ExampleRows[..3] == [a, b, c];
    assert SortDesc([a], ValueKey) == [a] by {
      assert [a][..0] == [];
    }
    assert SortDesc([a, b], ValueKey) == [a, b] by {
      assert [a, b][..1] == [a];
      assert Insert([a], b, ValueKey) == [a] + Insert([], b, ValueKey);
    }
    assert [a, b, c][..2] == [a, b];
    assert [a, b][1..] == [b];
    assert Insert([a, b], c, ValueKey) == [a] + Insert([b], c, ValueKey);
  }

  lemma SortFirstFourOfExample()
    ensures SortDesc(ExampleRows[..4], ValueKey) == [ExampleRows[0], ExampleRows[2], ExampleRows[3], ExampleRows[1]]
  {
    var a, b, c, d := ExampleRows[0], ExampleRows[1], ExampleRows[2], ExampleRows[3];
    SortFirstThreeOfExample();
    assert ExampleRows[..4][..3] == ExampleRows[..3];
    assert [a, c, b][1..] == [c, b];
    assert [c, b][1..] == [b];
    assert Insert([c, b], d, ValueKey) == [c] + Insert([b], d, ValueKey);
    assert Insert([a, c, b], d, ValueKey) == [a] + Insert([c, b], d, ValueKey);
  }

  /** Five rows valued 10, 5, 8, 8 and 3 and labelled a to e: the top five
      are a, c, d, b, e, the tie between c and d kept in row order. */
  lemma TopFiveOfExample()
    ensures Take(SortDesc(ExampleRows, ValueKey), 5)
         == [Ranked("a", 10.0), Ranked("c", 8.0), Ranked("d", 8.0), Ranked("b", 5.0), Ranked("e", 3.0)]
  {
    var a, b, c, d, e := ExampleRows[0], ExampleRows[1], ExampleRows[2], ExampleRows[3], ExampleRows[4];
    SortFirstFourOfExample();
    assert ExampleRows[..4] == ExampleRows[..|ExampleRows| - 1];
    var t := [a, c, d, b];
    assert t[1..] == [c, d, b] && [c, d, b][1..] == [d, b] && [d, b][1..] == [b] && [b][1..] == [];
    assert Insert([b], e, ValueKey) == [b, e];
    assert Insert([d, b], e, ValueKey) == [d, b, e];
    assert Insert([c, d, b], e, ValueKey) == [c, d, b, e];
    assert Insert(t, e, ValueKey) == [a, c, d, b, e];
  }
}
