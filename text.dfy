/** String helpers that stand for the JavaScript built-ins the source calls:
    `trim`, `indexOf`/`lastIndexOf`, `split`, and the
    `replace(/[^0-9.\-]/g, "")` filter used by every numeric check. */
module Text {

  /** The characters `String.prototype.trim` removes (and `\s` matches):
      ECMAScript WhiteSpace (tab, VT, FF, space, NBSP, BOM and category Zs)
      and LineTerminator (LF, CR, LS, PS). */
  predicate IsSpace(c: char) {
    || c == '\t' || c == '\n' || c == '\U{000B}' || c == '\U{000C}' || c == '\r'
    || c == ' ' || c == '\U{00A0}' || c == '\U{1680}'
    || ('\U{2000}' <= c <= '\U{200A}')
    || c == '\U{2028}' || c == '\U{2029}' || c == '\U{202F}' || c == '\U{205F}'
    || c == '\U{3000}' || c == '\U{FEFF}'
  }

  /** Removes the leading white space: the result is the suffix of `s` that
      starts at its first non-space character. */
  function TrimStart(s: string): (r: string)
    ensures |r| <= |s| && r == s[|s| - |r|..]
    ensures r == [] || !IsSpace(r[0])
    ensures forall i :: 0 <= i < |s| - |r| ==> IsSpace(s[i])
  {
    if s != [] && IsSpace(s[0]) then TrimStart(s[1..]) else s
  }

  /** Removes the trailing white space: the result is the prefix of `s` that
      ends at its last non-space character. */
  function TrimEnd(s: string): (r: string)
    ensures |r| <= |s| && r == s[..|r|]
    ensures r == [] || !IsSpace(r[|r| - 1])
    ensures forall i :: |r| <= i < |s| ==> IsSpace(s[i])
  {
    if s != [] && IsSpace(s[|s| - 1]) then TrimEnd(s[..|s| - 1]) else s
  }

  /** `r` is `s` with the white space in `s[..i]` and after `s[i + |r|..]`
      removed. */
  ghost predicate TrimsTo(s: string, i: int, r: string) {
    && 0 <= i && i + |r| <= |s| && r == s[i..i + |r|]
    && (forall j :: 0 <= j < i ==> IsSpace(s[j]))
    && (forall j :: i + |r| <= j < |s| ==> IsSpace(s[j]))
  }

  /** `String.prototype.trim`: the infix of `s` left after removing the white
      space at both ends. */
  function Trim(s: string): (r: string)
    ensures |r| <= |s|
    ensures r == [] || (!IsSpace(r[0]) && !IsSpace(r[|r| - 1]))
  {
    var t := TrimStart(s);
    var r := TrimEnd(t);
    assert r == [] || !IsSpace(r[0]) by {
      if r != [] { assert r[0] == t[0]; }
    }
    r
  }

  /** What `Trim` removes is white space, from both ends only. */
  lemma TrimRemovesOnlySpace(s: string)
    ensures exists i :: TrimsTo(s, i, Trim(s))
  {
    TrimAfterLeadingSpace(s);
  }

  /** The trimmed string starts where the leading white space ends. */
  lemma TrimAfterLeadingSpace(s: string)
    ensures TrimsTo(s, |s| - |TrimStart(s)|, Trim(s))
  {
    var t := TrimStart(s);
    TrimIsBothEnds(s);
    TrimEndWithin(s, |s| - |t|, t, Trim(s));
  }

  /** `Trim` trims the start, then the end. */
  lemma TrimIsBothEnds(s: string)
    ensures Trim(s) == TrimEnd(TrimStart(s))
  {
  }

  /** Trimming the end of the suffix `t == s[k..]`, after white space only,
      leaves an infix of `s` with white space on both sides. */
  lemma TrimEndWithin(s: string, k: nat, t: string, r: string)
    requires k <= |s| && t == s[k..] && r == TrimEnd(t)
    requires forall j :: 0 <= j < k ==> IsSpace(s[j])
    ensures TrimsTo(s, k, r)
  {
    assert r == s[k..k + |r|];
    forall j | k + |r| <= j < |s|
      ensures IsSpace(s[j])
    {
      assert s[j] == t[j - k];
    }
  }

  /** `Trim` keeps a run of the characters of `s`: a character `c` that `s`
      does not contain is not in the trimmed string either. */
  lemma TrimKeepsOnly(s: string, c: char)
    requires c !in s
    ensures c !in Trim(s)
  {
    var t := TrimStart(s);
    assert t == s[|s| - |t|..];
    assert c !in t;
    assert Trim(s) == t[..|Trim(s)|];
  }

  /** A string of white space trims to the empty string. */
  lemma TrimOfSpace(s: string)
    requires forall j :: 0 <= j < |s| ==> IsSpace(s[j])
    ensures Trim(s) == ""
  {
    assert TrimStart(s) == [];
  }

  /** A string with no white space at either end is its own trim. */
  lemma TrimOfTrimmed(s: string)
    requires s == [] || (!IsSpace(s[0]) && !IsSpace(s[|s| - 1]))
    ensures Trim(s) == s
  {
  }

  /** Trimming twice is trimming once. */
  lemma TrimIdempotent(s: string)
    ensures Trim(Trim(s)) == Trim(s)
  {
    TrimOfTrimmed(Trim(s));
  }

  /** The characters the numeric filter keeps: `[0-9.\-]`. */
  predicate IsNumericChar(c: char) {
    '0' <= c <= '9' || c == '.' || c == '-'
  }

  /** `String(v).replace(/[^0-9.\-]/g, "")`: every character outside
      `[0-9.\-]` is deleted, the others keep their order. */
  function KeepNumericChars(s: string): (r: string)
    ensures |r| <= |s|
    ensures forall i :: 0 <= i < |r| ==> IsNumericChar(r[i])
    ensures forall c :: IsNumericChar(c) ==> multiset(r)[c] == multiset(s)[c]
  {
    if s == [] then []
    else
      var rest := KeepNumericChars(s[1..]);
      assert s == [s[0]] + s[1..];
      if IsNumericChar(s[0]) then [s[0]] + rest else rest
  }

  /** The filter works character by character, so it distributes over
      concatenation. */
  lemma {:induction false} KeepNumericCharsAppend(a: string, b: string)
    ensures KeepNumericChars(a + b) == KeepNumericChars(a) + KeepNumericChars(b)
  {
    if a == [] {
      assert a + b == b;
    } else {
      assert (a + b)[1..] == a[1..] + b;
      KeepNumericCharsAppend(a[1..], b);
    }
  }

  /** A string made only of `[0-9.\-]` passes the filter unchanged, so the
      filter is idempotent. */
  lemma {:induction false} KeepNumericCharsOfNumeric(s: string)
    requires forall i :: 0 <= i < |s| ==> IsNumericChar(s[i])
    ensures KeepNumericChars(s) == s
  {
    if s != [] {
      KeepNumericCharsOfNumeric(s[1..]);
    }
  }

  /** `s.indexOf(c)`: the first position of `c`, or -1. */
  function IndexOf(s: string, c: char): (r: int)
    ensures -1 <= r < |s|
    ensures r >= 0 ==> s[r] == c
    ensures forall i :: 0 <= i < |s| && (r == -1 || i < r) ==> s[i] != c
  {
    if s == [] then -1
    else if s[0] == c then 0
    else
      var k := IndexOf(s[1..], c);
      if k < 0 then -1 else k + 1
  }

  /** `s.lastIndexOf(c)`: the last position of `c`, or -1. */
  function LastIndexOf(s: string, c: char): (r: int)
    ensures -1 <= r < |s|
    ensures r >= 0 ==> s[r] == c
    ensures forall i :: r < i < |s| ==> s[i] != c
  {
    if s == [] then -1
    else if s[|s| - 1] == c then |s| - 1
    else LastIndexOf(s[..|s| - 1], c)
  }

  /** A Markdown code fence: three backquotes. */
  const Fence := "```"

  /** `s` holds `pat` at position `i`. */
  predicate OccursAt(s: string, pat: string, i: int) {
    0 <= i && i + |pat| <= |s| && s[i..i + |pat|] == pat
  }

  /** `s.indexOf(pat, from)`: the first position at or after `from` where
      `pat` occurs, or -1. */
  function FindFrom(s: string, pat: string, from: nat): (r: int)
    ensures r == -1 || (from <= r && OccursAt(s, pat, r))
    ensures r == -1 ==> forall i :: from <= i ==> !OccursAt(s, pat, i)
    ensures r >= 0 ==> forall i :: from <= i < r ==> !OccursAt(s, pat, i)
    decreases |s| - from
  {
    if from + |pat| > |s| then -1
    else if s[from..from + |pat|] == pat then from
    else FindFrom(s, pat, from + 1)
  }

  /** Joins `parts` with the separator `sep` (`Array.prototype.join`). */
  function Join(parts: seq<string>, sep: char): string {
    if parts == [] then ""
    else if |parts| == 1 then parts[0]
    else parts[0] + [sep] + Join(parts[1..], sep)
  }

  /** `s.split(sep)` for a one-character separator: the maximal pieces of `s`
      that do not contain `sep`, in order; there is always at least one
      piece, so `"".split(",")` is `[""]`. */
  function Split(s: string, sep: char): (r: seq<string>)
    ensures |r| >= 1
    ensures forall i, j :: 0 <= i < |r| && 0 <= j < |r[i]| ==> r[i][j] != sep
  {
    var k := IndexOf(s, sep);
    if k < 0 then [s]
    else
      var piece, rest := s[..k], Split(s[k + 1..], sep);
      assert forall j :: 0 <= j < |piece| ==> piece[j] != sep;
      [piece] + rest
  }

  /** Splitting and joining again with the same separator gives back the
      original string: no character is lost or added. */
  lemma {:induction false} JoinSplit(s: string, sep: char)
    ensures Join(Split(s, sep), sep) == s
  {
    var k := IndexOf(s, sep);
    if k >= 0 {
      var tail := s[k + 1..];
      assert s == s[..k] + [sep] + tail by {
        assert s[k] == sep;
      }
      JoinSplit(tail, sep);
      JoinCons(s[..k], Split(tail, sep), sep);
    }
  }

  /** Joining a first piece before non-empty others puts one separator
      between them. */
  lemma JoinCons(head: string, rest: seq<string>, sep: char)
    requires rest != []
    ensures Join([head] + rest, sep) == head + [sep] + Join(rest, sep)
  {
    assert ([head] + rest)[1..] == rest;
  }

  /** Splitting pieces joined by a separator they do not contain gives the
      pieces back. */
  lemma {:induction false} SplitJoin(parts: seq<string>, sep: char)
    requires parts != []
    requires forall i, j :: 0 <= i < |parts| && 0 <= j < |parts[i]| ==> parts[i][j] != sep
    ensures Split(Join(parts, sep), sep) == parts
  {
    var p := parts[0];
    if |parts| == 1 {
      assert IndexOf(p, sep) == -1;
    } else {
      var rest := Join(parts[1..], sep);
      var s := p + [sep] + rest;
      assert Join(parts, sep) == s;
      assert forall j :: 0 <= j < |p| ==> s[j] == p[j] != sep;
      assert s[|p|] == sep;
      assert IndexOf(s, sep) == |p|;
      assert s[..|p|] == p;
      assert s[|p| + 1..] == rest;
      SplitJoin(parts[1..], sep);
      assert parts == [p] + parts[1..];
    }
  }

  /** Every character of a piece of `Split(s, sep)` is a character of `s`. */
  lemma {:induction false} SplitPiecesOf(s: string, sep: char)
    ensures forall piece, c :: piece in Split(s, sep) && c in piece ==> c in s
    decreases |s|
  {
    var k := IndexOf(s, sep);
    if k >= 0 {
      SplitPiecesOf(s[k + 1..], sep);
      var rest := Split(s[k + 1..], sep);
      assert Split(s, sep) == [s[..k]] + rest;
      forall piece, c | piece in Split(s, sep) && c in piece ensures c in s {
        if piece == s[..k] {
          assert c in s[..k];
        } else {
          assert piece in rest;
          assert c in s[k + 1..];
        }
      }
    }
  }

  /** The decimal digits of a natural number, as `String(n)` writes an
      integer below 10^21. */
  function NatToString(n: nat): (r: string)
    ensures r != []
    ensures forall i :: 0 <= i < |r| ==> '0' <= r[i] <= '9'
    ensures |r| > 1 ==> r[0] != '0'
  {
    var d := ['0' + (n % 10) as char];
    if n < 10 then d else NatToString(n / 10) + d
  }

  /** The value of a string of decimal digits. */
  function DigitsValue(s: string): nat
    requires forall i :: 0 <= i < |s| ==> '0' <= s[i] <= '9'
  {
    if s == [] then 0 else 10 * DigitsValue(s[..|s| - 1]) + (s[|s| - 1] - '0') as nat
  }

  /** Reading back the digits `NatToString` writes gives the number. */
  lemma {:induction false} NatToStringRoundTrip(n: nat)
    ensures DigitsValue(NatToString(n)) == n
  {
    if n >= 10 {
      NatToStringRoundTrip(n / 10);
      var s := NatToString(n);
      assert s[..|s| - 1] == NatToString(n / 10);
    }
  }

  // ---------------------------------------------------------------------
  // Filtering

  /** The elements of `s` that satisfy `p`, in order. */
  function Filter(s: seq<string>, p: string -> bool): (r: seq<string>)
    ensures forall x :: x in r <==> x in s && p(x)
    ensures |r| <= |s|
  {
    if s == [] then []
    else
      var rest := Filter(s[1..], p);
      assert forall x :: x in s <==> x == s[0] || x in s[1..];
      if p(s[0]) then [s[0]] + rest else rest
  }

  /** `s[i]` satisfies `p` and no element before it does. */
  predicate FirstWhere(s: seq<string>, p: string -> bool, i: int) {
    0 <= i < |s| && p(s[i]) && forall j :: 0 <= j < i ==> !p(s[j])
  }

  /** Nothing is kept exactly when no element satisfies `p`. */
  lemma {:induction false} FilterEmpty(s: seq<string>, p: string -> bool)
    ensures Filter(s, p) == [] <==> forall j :: 0 <= j < |s| ==> !p(s[j])
  {
    if s != [] && !p(s[0]) {
      FilterEmpty(s[1..], p);
      assert forall j :: 0 < j < |s| ==> s[j] == s[1..][j - 1];
    }
  }

  /** The first element kept is the first one that satisfies `p`. */
  lemma {:induction false} FilterFirst(s: seq<string>, p: string -> bool)
    requires Filter(s, p) != []
    ensures exists i :: FirstWhere(s, p, i) && s[i] == Filter(s, p)[0]
  {
    if p(s[0]) {
      assert FirstWhere(s, p, 0);
    } else {
      var rest := s[1..];
      FilterFirst(rest, p);
      var i :| FirstWhere(rest, p, i) && rest[i] == Filter(rest, p)[0];
      assert forall j :: 0 < j <= i + 1 ==> s[j] == rest[j - 1];
      assert FirstWhere(s, p, i + 1);
    }
  }

  /** Filtering distributes over concatenation, so the kept elements stay
      in the order of `s`. */
  lemma {:induction false} FilterAppend(a: seq<string>, b: seq<string>, p: string -> bool)
    ensures Filter(a + b, p) == Filter(a, p) + Filter(b, p)
    decreases |a|
  {
    if a != [] {
      assert (a + b)[1..] == a[1..] + b;
      FilterAppend(a[1..], b, p);
    } else {
      assert a + b == b;
    }
  }
}
