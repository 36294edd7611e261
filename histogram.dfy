/** `buildHistogram`: the finite strip-parsed values of one field counted in
    `bins` equal-width bins between their minimum and maximum. */
module Histogram {
  import opened Js
  import opened Charts

  /** The number of bins the dashboard asks for. */
  const DefaultBins: nat := 10

  /** One bar of the histogram: `{bin, count}`, `bin` being the label
      "low - high". */
  datatype BinEntry = BinEntry(bin: string, count: nat)

  /** `data.map(row => Number(String(row[field]).replace(...)))
      .filter(Number.isFinite)`: the finite values in row order. A row
      without the field still contributes whatever `Number("")` gives. */
  function FiniteValues(data: seq<Record>, field: string, rt: Runtime): (nums: seq<real>)
    ensures |nums| <= |data|
  {
    if data == [] then []
    else
      var n := StripParse(Get(data[|data| - 1], field), rt);
      FiniteValues(data[..|data| - 1], field, rt) + (if n.Finite? then [n.r] else [])
  }

  /** `Math.min(...nums)`. */
  function Min(nums: seq<real>): (m: real)
    requires nums != []
    ensures m in nums
    ensures forall i :: 0 <= i < |nums| ==> m <= nums[i]
  {
    if |nums| == 1 then nums[0]
    else
      var rest := Min(nums[1..]);
      assert forall i :: 1 <= i < |nums| ==> nums[i] == nums[1..][i - 1];
      if nums[0] <= rest then nums[0] else rest
  }

  /** `Math.max(...nums)`. */
  function Max(nums: seq<real>): (m: real)
    requires nums != []
    ensures m in nums
    ensures forall i :: 0 <= i < |nums| ==> nums[i] <= m
  {
    if |nums| == 1 then nums[0]
    else
      var rest := Max(nums[1..]);
      assert forall i :: 1 <= i < |nums| ==> nums[i] == nums[1..][i - 1];
      if nums[0] >= rest then nums[0] else rest
  }

  /** `(max - min || 1) / bins`: a zero range is replaced by 1, so the width
      is always positive, and `bins` widths span the range exactly when it
      is not zero. */
  function BinWidth(lo: real, hi: real, bins: nat): (w: real)
    requires lo <= hi && bins > 0
    ensures w > 0.0
    ensures lo < hi ==> w * (bins as real) == hi - lo
    ensures lo == hi ==> w * (bins as real) == 1.0
  {
    (if hi - lo == 0.0 then 1.0 else hi - lo) / (bins as real)
  }

  /** `Math.floor((n - min) / width)`, clamped into `[0, bins - 1]`. */
  function BinIndex(n: real, lo: real, width: real, bins: nat): (b: nat)
    requires width > 0.0 && bins > 0
    ensures b < bins
  {
    var idx := ((n - lo) / width).Floor;
    if idx >= bins then bins - 1 else if idx < 0 then 0 else idx
  }

  /** How many of `nums` fall in bin `b`. */
  function BinCount(nums: seq<real>, lo: real, width: real, bins: nat, b: nat): (c: nat)
    requires width > 0.0 && bins > 0
    ensures c <= |nums|
  {
    if nums == [] then 0
    else BinCount(nums[..|nums| - 1], lo, width, bins, b) + (if BinIndex(nums[|nums| - 1], lo, width, bins) == b then 1 else 0)
  }

  /** `${(min + i * width).toFixed(1)} - ${(min + (i + 1) * width).toFixed(1)}` */
  function BinLabel(lo: real, width: real, i: nat, rt: Runtime): string {
    rt.toFixed1(lo + (i as real) * width) + " - " + rt.toFixed1(lo + ((i + 1) as real) * width)
  }

  /** `buildHistogram(field, bins)` as a function of the data. */
  function Histogram(data: seq<Record>, field: string, bins: nat, rt: Runtime): Aggregate<BinEntry>
    requires bins > 0
  {
    var nums := FiniteValues(data, field, rt);
    if nums == [] then Aggregate([], "bin", "count", Bar)
    else
      var lo, hi := Min(nums), Max(nums);
      var width := BinWidth(lo, hi, bins);
      Aggregate(seq(bins, i requires 0 <= i < bins => BinEntry(BinLabel(lo, width, i, rt), BinCount(nums, lo, width, bins, i))),
                "bin", "count", Bar)
  }

  /** The counting loop of `buildHistogram`: `bins` zeros, incremented once
      per value at its clamped bin index. */
  method CountBins(nums: seq<real>, lo: real, width: real, bins: nat) returns (counts: array<nat>)
    requires width > 0.0 && bins > 0
    ensures fresh(counts) && counts.Length == bins
    ensures forall b :: 0 <= b < bins ==> counts[b] == BinCount(nums, lo, width, bins, b)
  {
    counts := new nat[bins](_ => 0);
    var j := 0;
    while j < |nums|
      invariant 0 <= j <= |nums|
      invariant forall b :: 0 <= b < bins ==> counts[b] == BinCount(nums[..j], lo, width, bins, b)
    {
      var idx := ((nums[j] - lo) / width).Floor;
      if idx >= bins {
        idx := bins - 1;
      }
      if idx < 0 {
        idx := 0;
      }
      assert idx == BinIndex(nums[j], lo, width, bins);
      assert nums[..j + 1][..j] == nums[..j];
      assert nums[..j + 1][j] == nums[j];
      counts[idx] := counts[idx] + 1;
      j := j + 1;
    }
    assert nums[..j] == nums;
  }

  /** `buildHistogram`: the finite values, their range and width, the bin
      counts, then one labelled entry per bin. */
  method BuildHistogram(data: seq<Record>, field: string, bins: nat, rt: Runtime) returns (res: Aggregate<BinEntry>)
    requires bins > 0
    ensures res == Histogram(data, field, bins, rt)
  {
    var nums := FiniteValues(data, field, rt);
    if |nums| == 0 {
      return Aggregate([], "bin", "count", Bar);
    }
    var lo, hi := Min(nums), Max(nums);
    var width := BinWidth(lo, hi, bins);
    var counts := CountBins(nums, lo, width, bins);
    var dataset := seq(bins, i requires 0 <= i < bins reads counts => BinEntry(BinLabel(lo, width, i, rt), counts[i]));
    res := Aggregate(dataset, "bin", "count", Bar);
  }

  /** The counts of bins `0 .. k-1` added up. */
  function CountsBelow(nums: seq<real>, lo: real, width: real, bins: nat, k: nat): nat
    requires width > 0.0 && bins > 0
  {
    if k == 0 then 0 else CountsBelow(nums, lo, width, bins, k - 1) + BinCount(nums, lo, width, bins, k - 1)
  }

  /** The `count` fields of a histogram's entries added up. */
  function TotalCount(entries: seq<BinEntry>): nat {
    if entries == [] then 0 else TotalCount(entries[..|entries| - 1]) + entries[|entries| - 1].count
  }

  /** A value added at the end raises the counts below `k` by one exactly
      when its bin is below `k`. */
  lemma {:induction false} CountsBelowAppend(nums: seq<real>, x: real, lo: real, width: real, bins: nat, k: nat)
    requires width > 0.0 && bins > 0
    ensures CountsBelow(nums + [x], lo, width, bins, k)
         == CountsBelow(nums, lo, width, bins, k) + (if BinIndex(x, lo, width, bins) < k then 1 else 0)
  {
    if k > 0 {
      CountsBelowAppend(nums, x, lo, width, bins, k - 1);
      assert (nums + [x])[..|nums|] == nums;
    }
  }

  /** Every value lands in exactly one bin: all `bins` counts add up to the
      number of values. */
  lemma {:induction false} CountsCoverAllValues(nums: seq<real>, lo: real, width: real, bins: nat)
    requires width > 0.0 && bins > 0
    ensures CountsBelow(nums, lo, width, bins, bins) == |nums|
  {
    if nums == [] {
      ZeroCountsBelow(lo, width, bins, bins);
    } else {
      var init := nums[..|nums| - 1];
      CountsCoverAllValues(init, lo, width, bins);
      CountsBelowAppend(init, nums[|nums| - 1], lo, width, bins, bins);
      assert init + [nums[|nums| - 1]] == nums;
    }
  }

  lemma {:induction false} ZeroCountsBelow(lo: real, width: real, bins: nat, k: nat)
    requires width > 0.0 && bins > 0
    ensures CountsBelow([], lo, width, bins, k) == 0
  {
    if k > 0 {
      ZeroCountsBelow(lo, width, bins, k - 1);
    }
  }

  lemma {:induction false} TotalCountPrefix(entries: seq<BinEntry>, nums: seq<real>, lo: real, width: real, bins: nat, k: nat)
    requires width > 0.0 && bins > 0 && k <= |entries|
    requires forall i :: 0 <= i < |entries| ==> entries[i].count == BinCount(nums, lo, width, bins, i)
    ensures TotalCount(entries[..k]) == CountsBelow(nums, lo, width, bins, k)
  {
    if k > 0 {
      TotalCountPrefix(entries, nums, lo, width, bins, k - 1);
      assert entries[..k][..k - 1] == entries[..k - 1];
    }
  }

  /** The shape of `buildHistogram`'s result: `{bin, count}` bars; no bars
      when no value is finite, otherwise exactly `bins` bars, empty bins
      included, whose counts add up to the number of finite values. */
  lemma HistogramShape(data: seq<Record>, field: string, bins: nat, rt: Runtime)
    requires bins > 0
    ensures var h := Histogram(data, field, bins, rt);
      && h.x == "bin" && h.y == "count" && h.chartType == Bar
      && (FiniteValues(data, field, rt) == [] <==> h.dataset == [])
      && (FiniteValues(data, field, rt) != [] ==> |h.dataset| == bins)
      && TotalCount(h.dataset) == |FiniteValues(data, field, rt)|
  {
    var h := Histogram(data, field, bins, rt);
    var nums := FiniteValues(data, field, rt);
    if nums != [] {
      var lo, hi := Min(nums), Max(nums);
      var width := BinWidth(lo, hi, bins);
      TotalCountPrefix(h.dataset, nums, lo, width, bins, bins);
      assert h.dataset[..bins] == h.dataset;
      CountsCoverAllValues(nums, lo, width, bins);
    }
  }

  /** `x` lies between the edges of bin `i`, the ones its label shows. */
  predicate WithinEdges(x: real, lo: real, width: real, i: nat) {
    lo + (i as real) * width <= x <= lo + ((i + 1) as real) * width
  }

  /** Every finite value lies between the edges of the bin it is counted in:
      `min + i * width <= n <= min + (i + 1) * width`. */
  lemma ValueWithinItsBin(nums: seq<real>, j: nat, bins: nat)
    requires j < |nums| && bins > 0
    ensures var lo, hi := Min(nums), Max(nums);
      var width := BinWidth(lo, hi, bins);
      WithinEdges(nums[j], lo, width, BinIndex(nums[j], lo, width, bins))
  {
    var lo, hi := Min(nums), Max(nums);
    WithinBin(nums[j], lo, hi, bins);
  }

  lemma WithinBin(x: real, lo: real, hi: real, bins: nat)
    requires lo <= x <= hi && bins > 0
    ensures var width := BinWidth(lo, hi, bins);
      WithinEdges(x, lo, width, BinIndex(x, lo, width, bins))
  {
    var width := BinWidth(lo, hi, bins);
    var q := (x - lo) / width;
    var f := q.Floor;
    assert q * width == x - lo;
    assert q >= 0.0;
    assert f >= 0;
    if f < bins {
      assert (f as real) <= q < (f as real) + 1.0;
      assert BinIndex(x, lo, width, bins) == f;
      MulMono(f as real, q, width);
      MulMono(q, (f as real) + 1.0, width);
      assert ((f + 1) as real) == (f as real) + 1.0;
      assert x - lo <= ((f as real) + 1.0) * width;
    } else {
      assert lo < hi;
      var b := bins as real;
      assert width * b == hi - lo;
      assert q <= b by {
        if q > b {
          MulStrict(b, q, width);
        }
      }
      assert f == bins;
      assert q == b;
      assert x == hi;
      assert lo + (((bins - 1) as real)) * width == hi - width;
    }
  }

  lemma MulMono(a: real, b: real, c: real)
    requires a <= b && c > 0.0
    ensures a * c <= b * c
  {}

  lemma MulStrict(a: real, b: real, c: real)
    requires a < b && c > 0.0
    ensures a * c < b * c
  {}

  /** When the `j`-th value falls in bin `j`, every bin below `|nums|` holds
      exactly one value and the rest none. */
  lemma {:induction false} OnePerBin(nums: seq<real>, lo: real, width: real, bins: nat, b: nat)
    requires width > 0.0 && bins > 0
    requires forall j :: 0 <= j < |nums| ==> BinIndex(nums[j], lo, width, bins) == j
    ensures BinCount(nums, lo, width, bins, b) == if b < |nums| then 1 else 0
  {
    if nums != [] {
      var init := nums[..|nums| - 1];
      assert forall j :: 0 <= j < |init| ==> init[j] == nums[j];
      OnePerBin(init, lo, width, bins, b);
    }
  }

  /** The values 1 to 10, as parsed from the strings "1" to "10". */
  const OneToTen: seq<real> := [1.0, 2.0, 3.0, 4.0, 5.0, 6.0, 7.0, 8.0, 9.0, 10.0]

  lemma OneToTenRange()
    ensures Min(OneToTen) == 1.0 && Max(OneToTen) == 10.0
    ensures BinWidth(1.0, 10.0, 10) == 0.9
  {
    var nums := OneToTen;
    assert |nums| == 10 && nums[0] == 1.0 && nums[9] == 10.0;
    assert forall j :: 0 <= j < |nums| ==> 1.0 <= nums[j] <= 10.0;
    var m := Min(nums);
    var i :| 0 <= i < |nums| && nums[i] == m;
    assert m <= nums[0];
    var n := Max(nums);
    var k :| 0 <= k < |nums| && nums[k] == n;
    assert nums[9] <= n;
  }

  lemma OneToTenBinIndex(j: nat)
    requires j < 10
    ensures BinIndex(OneToTen[j], 1.0, 0.9, 10) == j
  {
    var k := j as real;
    assert OneToTen[j] == k + 1.0;
    var q := k / 0.9;
    assert (OneToTen[j] - 1.0) / 0.9 == q;
    if j < 9 {
      assert k <= q < k + 1.0;
      assert q.Floor == j;
    } else {
      assert q == 10.0;
    }
  }

  /** The values 1 to 10 in ten bins: the width is 0.9 and each bin holds
      one value, 10 itself clamped into the last bin. */
  lemma OneToTenInTenBins()
    ensures Min(OneToTen) == 1.0 && Max(OneToTen) == 10.0
    ensures BinWidth(1.0, 10.0, 10) == 0.9
    ensures forall b :: 0 <= b < 10 ==> BinCount(OneToTen, 1.0, 0.9, 10, b) == 1
  {
    OneToTenRange();
    forall j | 0 <= j < |OneToTen|
      ensures BinIndex(OneToTen[j], 1.0, 0.9, 10) == j
    {
      OneToTenBinIndex(j);
    }
    forall b | 0 <= b < 10
      ensures BinCount(OneToTen, 1.0, 0.9, 10, b) == 1
    {
      OnePerBin(OneToTen, 1.0, 0.9, 10, b);
    }
  }
}
