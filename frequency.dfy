/** `buildFrequency`: the rows grouped by the string form of one field,
    counted, sorted by descending count (stable) and cut to the first 20. */
module Frequency {
  import opened Js
  import opened Sorting
  import opened Charts

  /** At most this many groups are shown. */
  const MaxGroups: nat := 20

  /** The group of null and undefined values. */
  const EmptyKey := "(empty)"

  /** One bar of the frequency chart: `{value, count}`. */
  datatype FreqEntry = FreqEntry(value: string, count: nat)

  /** `String(row[field] ?? "(empty)")`. */
  function GroupKey(row: Record, field: string, rt: Runtime): (k: string)
    ensures IsNullish(Get(row, field)) ==> k == EmptyKey
    ensures !IsNullish(Get(row, field)) ==> k == ToStr(Get(row, field), rt)
  {
    var v := Get(row, field);
    if IsNullish(v) then EmptyKey else ToStr(v, rt)
  }

  /** The group key of every row, in row order. */
  function RowKeys(data: seq<Record>, field: string, rt: Runtime): (ks: seq<string>)
    ensures |ks| == |data|
  {
    seq(|data|, i requires 0 <= i < |data| => GroupKey(data[i], field, rt))
  }

  /** How many of the row keys `ks` are `key`: the size of group `key`. */
  function Occurrences(ks: seq<string>, key: string): (n: nat)
    ensures n <= |ks|
  {
    if ks == [] then 0
    else Occurrences(ks[..|ks| - 1], key) + (if ks[|ks| - 1] == key then 1 else 0)
  }

  /** The distinct keys of `ks` in the order they are first met: the
      insertion order of the `counts` object. Exactly the keys of the
      non-empty groups, each once. */
  function FirstSeen(ks: seq<string>): (keys: seq<string>)
    ensures forall i, j :: 0 <= i < j < |keys| ==> keys[i] != keys[j]
    ensures forall k :: k in keys <==> Occurrences(ks, k) > 0
  {
    if ks == [] then []
    else
      var prev := FirstSeen(ks[..|ks| - 1]);
      var k := ks[|ks| - 1];
      if k in prev then prev else prev + [k]
  }

  /** `String(...)` merges groups: a null or missing value falls in the
      same group as the text "(empty)", and a value falls in the same group
      as any value with the same string form (the number 1 and the text
      "1"). */
  lemma GroupsMergeByText(row: Record, other: Record, field: string, rt: Runtime)
    ensures Get(row, field) == Str(EmptyKey) ==> GroupKey(row, field, rt) == GroupKey(EmptyRecord, field, rt)
    ensures !IsNullish(Get(row, field)) && !IsNullish(Get(other, field))
            && ToStr(Get(row, field), rt) == ToStr(Get(other, field), rt)
            ==> GroupKey(row, field, rt) == GroupKey(other, field, rt)
  {
    assert Get(EmptyRecord, field) == Undefined;
  }

  /** One entry per key of `keys`, with the key's group size in `ks`. */
  function EntriesFor(ks: seq<string>, keys: seq<string>): (t: seq<FreqEntry>)
    ensures |t| == |keys|
    ensures forall i :: 0 <= i < |keys| ==> t[i] == FreqEntry(keys[i], Occurrences(ks, keys[i]))
  {
    if keys == [] then []
    else EntriesFor(ks, keys[..|keys| - 1]) + [FreqEntry(keys[|keys| - 1], Occurrences(ks, keys[|keys| - 1]))]
  }

  /** `Object.entries(counts).map(([value, count]) => ({value, count}))`:
      every group with its row count, in first-seen order. */
  function Tallies(data: seq<Record>, field: string, rt: Runtime): seq<FreqEntry> {
    var ks := RowKeys(data, field, rt);
    EntriesFor(ks, FirstSeen(ks))
  }

  /** The comparator `(a, b) => b.count - a.count`: descending by count. */
  function CountKey(e: FreqEntry): real {
    e.count as real
  }

  /** `buildFrequency(field)` as a function of the data. */
  function Frequency(data: seq<Record>, field: string, rt: Runtime): Aggregate<FreqEntry> {
    Aggregate(Take(SortDesc(Tallies(data, field, rt), CountKey), MaxGroups), "value", "count", Bar)
  }

  /** The `forEach` of `buildFrequency`: `counts[key] = (counts[key] || 0) + 1`
      for every row, remembering the order in which keys were added. */
  method CountGroups(data: seq<Record>, field: string, rt: Runtime)
    returns (counts: map<string, nat>, order: seq<string>)
    ensures order == FirstSeen(RowKeys(data, field, rt))
    ensures forall k :: k in counts <==> k in order
    ensures forall k :: k in counts ==> counts[k] == Occurrences(RowKeys(data, field, rt), k)
  {
    ghost var ks := RowKeys(data, field, rt);
    counts, order := map[], [];
    var i := 0;
    while i < |data|
      invariant 0 <= i <= |data|
      invariant order == FirstSeen(ks[..i])
      invariant forall k :: k in counts <==> k in order
      invariant forall k :: k in counts ==> counts[k] == Occurrences(ks[..i], k)
    {
      var key := GroupKey(data[i], field, rt);
      assert key == ks[i];
      CountStep(ks, i);
      if key in counts {
        counts := counts[key := counts[key] + 1];
      } else {
        counts := counts[key := 1];
        order := order + [key];
      }
      i := i + 1;
    }
    assert ks[..i] == ks;
  }

  /** One more key: its group grows by one, the others stay, and it is
      appended to the first-seen order if new. */
  lemma CountStep(ks: seq<string>, i: nat)
    requires i < |ks|
    ensures forall k :: Occurrences(ks[..i + 1], k) == Occurrences(ks[..i], k) + (if ks[i] == k then 1 else 0)
    ensures FirstSeen(ks[..i + 1]) == if ks[i] in FirstSeen(ks[..i]) then FirstSeen(ks[..i]) else FirstSeen(ks[..i]) + [ks[i]]
  {
    assert ks[..i + 1][..i] == ks[..i];
  }

  /** `buildFrequency`: the groups are counted, their entries sorted in a
      fresh array and cut to `MaxGroups`. */
  method BuildFrequency(data: seq<Record>, field: string, rt: Runtime) returns (res: Aggregate<FreqEntry>)
    ensures res == Frequency(data, field, rt)
  {
    var counts, order := CountGroups(data, field, rt);
    var entries := seq(|order|, j requires 0 <= j < |order| => FreqEntry(order[j], counts[order[j]]));
    ghost var tallies := Tallies(data, field, rt);
    assert entries == tallies;
    var sorted := new FreqEntry[|entries|](j requires 0 <= j < |entries| => entries[j]);
    assert sorted[..] == tallies;
    SortInPlace(sorted, CountKey);
    res := Aggregate(Take(sorted[..], MaxGroups), "value", "count", Bar);
  }

  /** The sum of the counts of `entries`. */
  function TotalCount(entries: seq<FreqEntry>): nat {
    if entries == [] then 0 else TotalCount(entries[..|entries| - 1]) + entries[|entries| - 1].count
  }

  /** One more row adds one to the total of the groups that include its
      key. */
  lemma {:induction false} TotalCountAddKey(ks: seq<string>, k: string, keys: seq<string>)
    requires forall i, j :: 0 <= i < j < |keys| ==> keys[i] != keys[j]
    ensures TotalCount(EntriesFor(ks + [k], keys)) == TotalCount(EntriesFor(ks, keys)) + (if k in keys then 1 else 0)
  {
    var d := ks + [k];
    assert d[..|d| - 1] == ks;
    if keys != [] {
      var p := keys[..|keys| - 1];
      var last := keys[|keys| - 1];
      TotalCountAddKey(ks, k, p);
      var ed, e0 := EntriesFor(d, keys), EntriesFor(ks, keys);
      assert ed[..|ed| - 1] == EntriesFor(d, p);
      assert e0[..|e0| - 1] == EntriesFor(ks, p);
      assert TotalCount(ed) == TotalCount(EntriesFor(d, p)) + Occurrences(d, last);
      assert TotalCount(e0) == TotalCount(EntriesFor(ks, p)) + Occurrences(ks, last);
      assert keys == p + [last];
      assert k in keys <==> k in p || k == last;
      assert last !in p;
    }
  }

  /** Every key of `ks` is counted once in its group's entry. */
  lemma {:induction false} EntriesCoverAllKeys(ks: seq<string>)
    ensures TotalCount(EntriesFor(ks, FirstSeen(ks))) == |ks|
  {
    if ks != [] {
      var p := ks[..|ks| - 1];
      var k := ks[|ks| - 1];
      var seen := FirstSeen(p);
      EntriesCoverAllKeys(p);
      assert ks == p + [k];
      TotalCountAddKey(p, k, seen);
      if k !in seen {
        assert FirstSeen(ks) == seen + [k];
        assert Occurrences(p, k) == 0;
        EntriesForNewKey(ks, seen, k);
      } else {
        assert FirstSeen(ks) == seen;
      }
    }
  }

  /** A key met for the first time adds its entry, and its count, at the
      end. */
  lemma EntriesForNewKey(ks: seq<string>, seen: seq<string>, k: string)
    ensures EntriesFor(ks, seen + [k]) == EntriesFor(ks, seen) + [FreqEntry(k, Occurrences(ks, k))]
    ensures TotalCount(EntriesFor(ks, seen + [k])) == TotalCount(EntriesFor(ks, seen)) + Occurrences(ks, k)
  {
    var all := seen + [k];
    assert all[..|all| - 1] == seen;
    var t := EntriesFor(ks, all);
    assert t[..|t| - 1] == EntriesFor(ks, seen);
  }

  /** Every tally is a non-empty group with its exact size. */
  lemma TalliesAreGroups(ks: seq<string>)
    ensures forall e :: e in EntriesFor(ks, FirstSeen(ks)) ==> e.count == Occurrences(ks, e.value) && e.count > 0
  {
    var keys := FirstSeen(ks);
    var t := EntriesFor(ks, keys);
    forall e | e in t ensures e.count == Occurrences(ks, e.value) && e.count > 0 {
      var i :| 0 <= i < |t| && t[i] == e;
      assert keys[i] in keys;
    }
  }

  /** Count conservation: before the cut to `MaxGroups`, the group counts add
      up to the number of rows. */
  lemma TalliesCoverAllRows(data: seq<Record>, field: string, rt: Runtime)
    ensures TotalCount(Tallies(data, field, rt)) == |data|
  {
    EntriesCoverAllKeys(RowKeys(data, field, rt));
  }

  /** What `buildFrequency` shows: at most `MaxGroups` bars keyed "value" and
      "count" in a bar chart, ordered by non-increasing count; each bar is a
      group of the data with its exact row count; no group left out has more
      rows than a group shown; and among groups of equal count the ones shown
      come first in first-seen order, in that order. */
  lemma FrequencyIsTopGroups(data: seq<Record>, field: string, rt: Runtime)
    ensures var res := Frequency(data, field, rt);
      var tallies := Tallies(data, field, rt);
      && res.x == "value" && res.y == "count" && res.chartType == Bar
      && |res.dataset| == (if |tallies| < MaxGroups then |tallies| else MaxGroups)
      && SortedDesc(res.dataset, CountKey)
      && (forall e :: e in res.dataset ==> e.count == Occurrences(RowKeys(data, field, rt), e.value) && e.count > 0)
      && (forall e, d :: e in tallies && e !in res.dataset && d in res.dataset ==> d.count >= e.count)
      && (forall c :: WithKey(res.dataset, CountKey, c) <= WithKey(tallies, CountKey, c))
  {
    var res := Frequency(data, field, rt);
    var ks := RowKeys(data, field, rt);
    var tallies := Tallies(data, field, rt);
    TalliesAreGroups(ks);
    TopOfStableSort(tallies, CountKey, MaxGroups);
    forall e | e in res.dataset ensures e.count == Occurrences(ks, e.value) && e.count > 0 {
      assert e in multiset(res.dataset);
      assert e in multiset(tallies);
    }
    forall e, d | e in tallies && e !in res.dataset && d in res.dataset ensures d.count >= e.count {
      assert e in multiset(tallies) - multiset(res.dataset);
      assert CountKey(d) >= CountKey(e);
    }
  }
}
