/** The stable `Array.prototype.sort` the source calls with a numeric
    comparator, modelled as an insertion sort in descending order of a real
    key. An ascending comparator `a.v - b.v` sorts exactly like the
    descending one on the negated key. */
module Sorting {

  /** Non-increasing by `key`. */
  ghost predicate SortedDesc<T>(s: seq<T>, key: T -> real) {
    forall i, j :: 0 <= i < j < |s| ==> key(s[i]) >= key(s[j])
  }

  /** The elements of `s` whose key is `c`, in their order in `s`. */
  function WithKey<T>(s: seq<T>, key: T -> real, c: real): seq<T> {
    if s == [] then []
    else WithKey(s[..|s| - 1], key, c) + (if key(s[|s| - 1]) == c then [s[|s| - 1]] else [])
  }

  /** `r` is what a stable sort by descending key makes of `s`: it is
      sorted, and the elements sharing any one key appear in `r` exactly as
      they appear in `s`. (Together these imply that `r` is a permutation
      of `s`.) */
  ghost predicate StableSortOf<T>(r: seq<T>, s: seq<T>, key: T -> real) {
    SortedDesc(r, key) && forall c :: WithKey(r, key, c) == WithKey(s, key, c)
  }

  /** Inserts `x` into the sorted `s` after every element whose key is at
      least `key(x)`: the step of a stable insertion sort. */
  function Insert<T>(s: seq<T>, x: T, key: T -> real): seq<T> {
    if s == [] then [x]
    else if key(s[0]) >= key(x) then [s[0]] + Insert(s[1..], x, key)
    else [x] + s
  }

  /** The stable sort by descending key. */
  function SortDesc<T>(s: seq<T>, key: T -> real): seq<T> {
    if s == [] then []
    else Insert(SortDesc(s[..|s| - 1], key), s[|s| - 1], key)
  }

  /** `s.slice(0, n)`. */
  function Take<T>(s: seq<T>, n: nat): (r: seq<T>)
    ensures |r| <= n && |r| <= |s|
    ensures |r| == if n < |s| then n else |s|
    ensures forall i :: 0 <= i < |r| ==> r[i] == s[i]
  {
    if n < |s| then s[..n] else s
  }

  lemma {:induction false} WithKeyAppend<T>(a: seq<T>, b: seq<T>, key: T -> real, c: real)
    ensures WithKey(a + b, key, c) == WithKey(a, key, c) + WithKey(b, key, c)
    decreases |b|
  {
    if b == [] {
      assert a + b == a;
    } else {
      assert (a + b)[..|a + b| - 1] == a + b[..|b| - 1];
      WithKeyAppend(a, b[..|b| - 1], key, c);
    }
  }

  lemma {:induction false} WithKeyNone<T>(s: seq<T>, key: T -> real, c: real)
    requires forall i :: 0 <= i < |s| ==> key(s[i]) != c
    ensures WithKey(s, key, c) == []
  {
    if s != [] {
      WithKeyNone(s[..|s| - 1], key, c);
    }
  }

  lemma {:induction false} WithKeySingle<T>(x: T, key: T -> real, c: real)
    ensures WithKey([x], key, c) == if key(x) == c then [x] else []
  {
    assert [x][..0] == [];
  }

  /** Inserting adds `x` and nothing else. */
  lemma {:induction false} InsertMultiset<T>(s: seq<T>, x: T, key: T -> real)
    ensures multiset(Insert(s, x, key)) == multiset(s) + multiset{x}
  {
    if s != [] && key(s[0]) >= key(x) {
      InsertMultiset(s[1..], x, key);
      assert s == [s[0]] + s[1..];
    }
  }

  /** Inserting into a sorted sequence keeps it sorted. */
  lemma {:induction false} InsertSorted<T>(s: seq<T>, x: T, key: T -> real)
    requires SortedDesc(s, key)
    ensures SortedDesc(Insert(s, x, key), key)
  {
    if s != [] && key(s[0]) >= key(x) {
      var t := Insert(s[1..], x, key);
      var r := [s[0]] + t;
      InsertSorted(s[1..], x, key);
      assert t != [] && (t[0] == x || (|s| > 1 && t[0] == s[1]));
      forall i, j | 0 <= i < j < |r| ensures key(r[i]) >= key(r[j]) {
        assert r[j] == t[j - 1];
        if i > 0 {
          assert r[i] == t[i - 1];
        } else if j > 1 {
          assert key(t[0]) >= key(t[j - 1]);
        }
      }
    }
  }

  /** Inserting places `x` after every element with the same key. */
  lemma {:induction false} InsertWithKey<T>(s: seq<T>, x: T, key: T -> real, c: real)
    requires SortedDesc(s, key)
    ensures WithKey(Insert(s, x, key), key, c) == WithKey(s, key, c) + (if key(x) == c then [x] else [])
  {
    var r := Insert(s, x, key);
    if s == [] {
      WithKeySingle(x, key, c);
    } else if key(s[0]) >= key(x) {
      var t := Insert(s[1..], x, key);
      assert SortedDesc(s[1..], key);
      InsertWithKey(s[1..], x, key, c);
      assert r == [s[0]] + t;
      assert s == [s[0]] + s[1..];
      WithKeyAppend([s[0]], t, key, c);
      WithKeyAppend([s[0]], s[1..], key, c);
      var extra := if key(x) == c then [x] else [];
      assert WithKey(r, key, c) == WithKey([s[0]], key, c) + (WithKey(s[1..], key, c) + extra);
      assert WithKey(r, key, c) == (WithKey([s[0]], key, c) + WithKey(s[1..], key, c)) + extra;
    } else {
      assert r == [x] + s;
      WithKeyAppend([x], s, key, c);
      WithKeySingle(x, key, c);
      if key(x) == c {
        assert forall m :: 0 <= m < |s| ==> key(s[m]) <= key(s[0]);
        WithKeyNone(s, key, c);
      }
    }
  }

  /** `SortDesc` is a stable sort by descending key, and a permutation. */
  lemma {:induction false} SortDescIsStableSort<T>(s: seq<T>, key: T -> real)
    ensures StableSortOf(SortDesc(s, key), s, key)
    ensures multiset(SortDesc(s, key)) == multiset(s)
  {
    if s != [] {
      var p := s[..|s| - 1];
      var x := s[|s| - 1];
      SortDescIsStableSort(p, key);
      InsertSorted(SortDesc(p, key), x, key);
      InsertMultiset(SortDesc(p, key), x, key);
      assert s == p + [x];
      forall c ensures WithKey(SortDesc(s, key), key, c) == WithKey(s, key, c) {
        InsertWithKey(SortDesc(p, key), x, key, c);
      }
    }
  }

  lemma {:induction false} WithKeyHasElement<T>(s: seq<T>, key: T -> real, i: int)
    requires 0 <= i < |s|
    ensures WithKey(s, key, key(s[i])) != []
  {
    if i < |s| - 1 {
      WithKeyHasElement(s[..|s| - 1], key, i);
    }
  }

  lemma {:induction false} WithKeyMembers<T>(s: seq<T>, key: T -> real, c: real)
    requires WithKey(s, key, c) != []
    ensures exists i :: 0 <= i < |s| && key(s[i]) == c
  {
    if key(s[|s| - 1]) != c {
      WithKeyMembers(s[..|s| - 1], key, c);
      var i :| 0 <= i < |s| - 1 && key(s[..|s| - 1][i]) == c;
      assert key(s[i]) == c;
    }
  }

  /** Dropping the last element drops it from its key's group. */
  lemma WithKeyDropLast<T>(r: seq<T>, key: T -> real, c: real)
    requires r != []
    ensures WithKey(r[..|r| - 1], key, c)
            == if key(r[|r| - 1]) == c then WithKey(r, key, c)[..|WithKey(r, key, c)| - 1]
               else WithKey(r, key, c)
  {
  }

  /** In two sorted sequences with the same key groups, the last elements
      carry the same (least) key. */
  lemma {:induction false} SameLastKey<T>(r1: seq<T>, r2: seq<T>, key: T -> real)
    requires r1 != [] && r2 != []
    requires SortedDesc(r1, key) && SortedDesc(r2, key)
    requires forall c :: WithKey(r1, key, c) == WithKey(r2, key, c)
    ensures key(r1[|r1| - 1]) == key(r2[|r2| - 1])
  {
    var n1, n2 := |r1| - 1, |r2| - 1;
    var c1, c2 := key(r1[n1]), key(r2[n2]);
    WithKeyHasElement(r1, key, n1);
    assert WithKey(r2, key, c1) == WithKey(r1, key, c1);
    WithKeyMembers(r2, key, c1);
    WithKeyHasElement(r2, key, n2);
    assert WithKey(r1, key, c2) == WithKey(r2, key, c2);
    WithKeyMembers(r1, key, c2);
  }

  /** A stable sort has only one possible outcome: any two sequences that are
      stable sorts of the same input are equal. So `SortDesc` is the result
      of every stable sort with this comparator, whatever algorithm the
      engine runs. */
  lemma {:induction false} StableSortUnique<T>(r1: seq<T>, r2: seq<T>, key: T -> real)
    requires SortedDesc(r1, key) && SortedDesc(r2, key)
    requires forall c :: WithKey(r1, key, c) == WithKey(r2, key, c)
    ensures r1 == r2
    decreases |r1| + |r2|
  {
    if r1 == [] && r2 == [] {
    } else if r1 == [] {
      WithKeyHasElement(r2, key, 0);
      assert false;
    } else if r2 == [] {
      WithKeyHasElement(r1, key, 0);
      assert false;
    } else {
      var n1, n2 := |r1| - 1, |r2| - 1;
      SameLastKey(r1, r2, key);
      var c1 := key(r1[n1]);
      assert r1[n1] == r2[n2] by {
        var w1, w2 := WithKey(r1, key, c1), WithKey(r2, key, c1);
        assert w1 == WithKey(r1[..n1], key, c1) + [r1[n1]];
        assert w2 == WithKey(r2[..n2], key, c1) + [r2[n2]];
        assert w1 == w2;
        assert w1[|w1| - 1] == r1[n1] && w2[|w2| - 1] == r2[n2];
      }
      forall c ensures WithKey(r1[..n1], key, c) == WithKey(r2[..n2], key, c) {
        WithKeyDropLast(r1, key, c);
        WithKeyDropLast(r2, key, c);
        assert WithKey(r1, key, c) == WithKey(r2, key, c);
      }
      assert SortedDesc(r1[..n1], key) && SortedDesc(r2[..n2], key);
      StableSortUnique(r1[..n1], r2[..n2], key);
      assert r1 == r1[..n1] + [r1[n1]] && r2 == r2[..n2] + [r2[n2]];
    }
  }

  /** So any result with the two properties of a stable sort is `SortDesc`. */
  lemma StableSortIsSortDesc<T>(r: seq<T>, s: seq<T>, key: T -> real)
    requires StableSortOf(r, s, key)
    ensures r == SortDesc(s, key)
  {
    SortDescIsStableSort(s, key);
    StableSortUnique(r, SortDesc(s, key), key);
  }

  /** `Take(SortDesc(s, key), n)`, the first `n` after a stable sort, is a
      top-`n` selection: sorted, drawn from `s`, as long as `s` allows, every
      element left out ranks no higher than any element kept, and within
      each key the kept elements are the first ones of `s`. */
  lemma TopOfStableSort<T>(s: seq<T>, key: T -> real, n: nat)
    ensures var r := Take(SortDesc(s, key), n);
      && SortedDesc(r, key)
      && |r| == (if n < |s| then n else |s|)
      && multiset(r) <= multiset(s)
      && (forall x, y :: x in multiset(s) - multiset(r) && y in r ==> key(y) >= key(x))
      && (forall c :: WithKey(r, key, c) <= WithKey(s, key, c))
  {
    var sorted := SortDesc(s, key);
    SortDescIsStableSort(s, key);
    PrefixOfSorted(sorted, key, n);
    forall c ensures WithKey(Take(sorted, n), key, c) <= WithKey(s, key, c) {
      assert WithKey(sorted, key, c) == WithKey(s, key, c);
    }
  }

  /** The first `n` of a sorted sequence: sorted, a sub-multiset, every
      element after them ranks no higher than any of them, and within each
      key they are the first ones. */
  lemma PrefixOfSorted<T>(sorted: seq<T>, key: T -> real, n: nat)
    requires SortedDesc(sorted, key)
    ensures var r := Take(sorted, n);
      && SortedDesc(r, key)
      && multiset(r) <= multiset(sorted)
      && (forall x, y :: x in multiset(sorted) - multiset(r) && y in r ==> key(y) >= key(x))
      && (forall c :: WithKey(r, key, c) <= WithKey(sorted, key, c))
  {
    var r := Take(sorted, n);
    var rest := sorted[|r|..];
    assert sorted == r + rest;
    assert multiset(sorted) == multiset(r) + multiset(rest);
    forall x, y | x in multiset(sorted) - multiset(r) && y in r ensures key(y) >= key(x) {
      assert x in multiset(rest);
      var j :| 0 <= j < |rest| && rest[j] == x;
      var i :| 0 <= i < |r| && r[i] == y;
      assert sorted[i] == y && sorted[|r| + j] == x;
    }
    forall c ensures WithKey(r, key, c) <= WithKey(sorted, key, c) {
      WithKeyAppend(r, rest, key, c);
    }
  }

  /** Where `Insert` puts `x`: just before the first element with a smaller
      key. */
  lemma {:induction false} InsertAt<T>(s: seq<T>, x: T, key: T -> real, j: nat)
    requires SortedDesc(s, key)
    requires j <= |s|
    requires forall m :: j <= m < |s| ==> key(s[m]) < key(x)
    requires j == 0 || key(s[j - 1]) >= key(x)
    ensures Insert(s, x, key) == s[..j] + [x] + s[j..]
  {
    if j > 0 {
      assert key(s[0]) >= key(x);
      InsertAt(s[1..], x, key, j - 1);
      assert s[..j] == [s[0]] + s[1..][..j - 1];
      assert s[j..] == s[1..][j - 1..];
    } else if s != [] {
      assert key(s[0]) < key(x);
    }
  }

  /** The inner loop of the insertion sort: the elements of `a[..i]` from the
      right whose key is below `kx` are shifted one place right, leaving a
      gap at the returned index. */
  method ShiftRight<T>(a: array<T>, i: nat, kx: real, key: T -> real) returns (j: nat)
    requires i < a.Length
    modifies a
    ensures j <= i
    ensures forall m :: 0 <= m < j ==> a[m] == old(a[m])
    ensures forall m :: j < m <= i ==> a[m] == old(a[m - 1])
    ensures forall m :: j <= m < i ==> key(old(a[m])) < kx
    ensures j == 0 || key(old(a[j - 1])) >= kx
    ensures forall m :: i < m < a.Length ==> a[m] == old(a[m])
  {
    j := i;
    while j > 0 && key(a[j - 1]) < kx
      invariant 0 <= j <= i
      invariant forall m :: 0 <= m < j ==> a[m] == old(a[m])
      invariant forall m :: j < m <= i ==> a[m] == old(a[m - 1])
      invariant forall m :: j <= m < i ==> key(old(a[m])) < kx
      invariant forall m :: i < m < a.Length ==> a[m] == old(a[m])
    {
      a[j] := a[j - 1];
      j := j - 1;
    }
  }

  /** One step of the in-place insertion sort: `a[i]` is moved left past the
      elements of the sorted prefix `a[..i]` whose key is smaller. */
  method InsertLast<T>(a: array<T>, i: nat, key: T -> real)
    requires i < a.Length
    requires SortedDesc(a[..i], key)
    modifies a
    ensures a[..i + 1] == Insert(old(a[..i]), old(a[i]), key)
    ensures forall m :: i < m < a.Length ==> a[m] == old(a[m])
  {
    var x := a[i];
    ghost var sorted := a[..i];
    var j := ShiftRight(a, i, key(x), key);
    a[j] := x;
    InsertAt(sorted, x, key, j);
    ghost var want := sorted[..j] + [x] + sorted[j..];
    forall m | 0 <= m <= i
      ensures a[m] == want[m]
    {
      if m > j {
        assert want[m] == sorted[m - 1];
      }
    }
    assert a[..i + 1] == want;
  }

  /** The engine's in-place sort, as an insertion sort on the array. */
  method SortInPlace<T>(a: array<T>, key: T -> real)
    modifies a
    ensures a[..] == SortDesc(old(a[..]), key)
  {
    ghost var s := a[..];
    var i := 0;
    while i < a.Length
      invariant 0 <= i <= a.Length
      invariant a[..i] == SortDesc(s[..i], key)
      invariant forall m :: i <= m < a.Length ==> a[m] == s[m]
    {
      SortDescIsStableSort(s[..i], key);
      InsertLast(a, i, key);
      assert s[..i + 1] == s[..i] + [s[i]];
      i := i + 1;
    }
    assert s[..a.Length] == s;
  }
}
