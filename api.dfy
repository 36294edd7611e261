/** The backend-response helpers: pulling the first JSON value out of model
    text, shaping it into a dataset, finding the numeric fields, and
    coercing numeric-looking strings to numbers. */
module Api {
  import opened Wrappers
  import opened Js
  import opened Text

  // ---------------------------------------------------------------------
  // extractJson

  /** The ASCII lower case of `c`; the regular expression's `i` flag only
      folds ASCII letters here. */
  function LowerAscii(c: char): char {
    if 'A' <= c <= 'Z' then (c as int + 32) as char else c
  }

  /** `s` at `i` reads "json" in any letter case. */
  predicate JsonTagAt(s: string, i: nat) {
    i + 4 <= |s|
    && LowerAscii(s[i]) == 'j' && LowerAscii(s[i + 1]) == 's'
    && LowerAscii(s[i + 2]) == 'o' && LowerAscii(s[i + 3]) == 'n'
  }

  /** Where the inside of a fenced block starts, for an opening fence at
      `open`: after a "json" tag when one follows the fence. */
  function BodyStart(s: string, open: nat): nat {
    if JsonTagAt(s, open + 3) then open + 7 else open + 3
  }

  /** `open` is the first fence of `s`. */
  predicate FirstFence(s: string, open: int) {
    OccursAt(s, Fence, open) && forall i :: 0 <= i < open ==> !OccursAt(s, Fence, i)
  }

  /** `q` is the first fence of `s` at or after `p`. */
  predicate ClosesAt(s: string, p: int, q: int) {
    0 <= p <= q && OccursAt(s, Fence, q) && forall i :: p <= i < q ==> !OccursAt(s, Fence, i)
  }

  /** `trimmed.match(/```(?:json)?([\s\S]*?)```/i)?.[1]`: the text between
      the first fence, with the "json" tag after it when there is one, and
      the next fence. Only the first fence can open the block: when nothing
      closes it, nothing closes a later one either, and the letters of the
      tag cannot start a fence. */
  function FencedBlock(s: string): (r: Option<string>)
    ensures r.Some? <==> exists open, q :: FirstFence(s, open) && ClosesAt(s, BodyStart(s, open), q)
    ensures forall open, q :: r.Some? && FirstFence(s, open) && ClosesAt(s, BodyStart(s, open), q) ==>
              r.value == s[BodyStart(s, open)..q]
  {
    var open := FindFrom(s, Fence, 0);
    if open < 0 then None
    else
      var from := BodyStart(s, open);
      var close := FindFrom(s, Fence, from);
      FirstFenceUnique(s, open);
      if close < 0 then None
      else
        ClosesAtUnique(s, from, close);
        assert FirstFence(s, open) && ClosesAt(s, from, close);
        Some(s[from..close])
  }

  /** A string has at most one first fence. */
  lemma FirstFenceUnique(s: string, open: int)
    requires FirstFence(s, open)
    ensures forall o :: FirstFence(s, o) <==> o == open
  {
  }

  /** A fence closing from `p` is unique too. */
  lemma ClosesAtUnique(s: string, p: int, q: int)
    requires ClosesAt(s, p, q)
    ensures forall x :: ClosesAt(s, p, x) <==> x == q
  {
  }

  /** A tag in any letter case is not part of the block: "```JSON{}```"
      holds the block "{}", while a fence without the tag keeps what
      follows it. */
  lemma TaggedBlockDropsTag()
    ensures FencedBlock("```JSON{}```") == Some("{}")
    ensures FencedBlock("```{}```") == Some("{}")
  {
    TaggedExample();
    UntaggedExample();
  }

  /** A fence at `i` is three backquotes there. */
  lemma FenceChars(s: string, i: int)
    ensures OccursAt(s, Fence, i) <==> 0 <= i && i + 3 <= |s| && s[i] == '`' && s[i + 1] == '`' && s[i + 2] == '`'
  {
    if 0 <= i && i + 3 <= |s| {
      var w := s[i..i + 3];
      assert w[0] == s[i] && w[1] == s[i + 1] && w[2] == s[i + 2];
    }
  }

  lemma TaggedExample()
    ensures FencedBlock("```JSON{}```") == Some("{}")
  {
    var s := "```JSON{}```";
    FenceChars(s, 0);
    FenceChars(s, 7);
    FenceChars(s, 8);
    FenceChars(s, 9);
    assert JsonTagAt(s, 3) && BodyStart(s, 0) == 7;
    assert FirstFence(s, 0) && ClosesAt(s, 7, 9);
    assert s[7..9] == "{}";
  }

  lemma UntaggedExample()
    ensures FencedBlock("```{}```") == Some("{}")
  {
    var t := "```{}```";
    FenceChars(t, 0);
    FenceChars(t, 3);
    FenceChars(t, 4);
    FenceChars(t, 5);
    assert LowerAscii(t[3]) == '{';
    assert !JsonTagAt(t, 3) && BodyStart(t, 0) == 3;
    assert FirstFence(t, 0) && ClosesAt(t, 3, 5);
    assert t[3..5] == "{}";
  }

  /** The first `{` or `[` of `s`, or -1: `start` of the scan. */
  function ScanStart(s: string): (r: int)
    ensures -1 <= r < |s|
    ensures r >= 0 ==> s[r] == '{' || s[r] == '['
    ensures forall i :: 0 <= i < |s| && (r == -1 || i < r) ==> s[i] != '{' && s[i] != '['
  {
    var objIdx := IndexOf(s, '{');
    var arrIdx := IndexOf(s, '[');
    if objIdx == -1 then arrIdx
    else if arrIdx == -1 then objIdx
    else if objIdx < arrIdx then objIdx else arrIdx
  }

  /** What the scan gets at `end = e`: the parse of the candidate
      `s.slice(start, e).trim()`, and nothing when that is empty or does not
      parse. */
  function Attempt(s: string, start: nat, rt: Runtime): nat -> Option<Value> {
    e => if start <= e <= |s| && Trim(s[start..e]) != "" then rt.parseJson(Trim(s[start..e])) else None
  }

  /** The scan's result: the first attempt that succeeds as `end` goes down
      from `hi` while it stays above `start + 1`. */
  function ScanDown(start: nat, hi: nat, attempt: nat -> Option<Value>): Option<Value>
    decreases hi
  {
    if hi <= start + 1 then None
    else if attempt(hi).Some? then attempt(hi)
    else ScanDown(start, hi - 1, attempt)
  }

  /** `extractJson(text)` as a function: the empty text gives null;
      otherwise the first of these that parses — the trimmed text, the
      trimmed inside of the first fenced block, the longest candidate of
      the scan — and null when none does. A `null` the text itself encodes
      and a failure both come out as `Null`, as in the source. */
  function ExtractJsonSpec(text: string, rt: Runtime): Value {
    if text == "" then Null
    else
      var trimmed := Trim(text);
      var direct := rt.parseJson(trimmed);
      if direct.Some? then direct.value
      else
        var fenced := FencedBlock(trimmed);
        var inside := if fenced.Some? then rt.parseJson(Trim(fenced.value)) else None;
        if inside.Some? then inside.value
        else
          var start := ScanStart(trimmed);
          if start < 0 then Null
          else ScanDown(start, |trimmed|, Attempt(trimmed, start, rt)).GetOr(Null)
  }

  /** `extractJson`: the direct parse, the fenced block, then the scan. */
  method ExtractJson(text: string, rt: Runtime) returns (r: Value)
    ensures r == ExtractJsonSpec(text, rt)
  {
    if text == "" {
      return Null;
    }
    var trimmed := Trim(text);
    var direct := rt.parseJson(trimmed);
    if direct.Some? {
      return direct.value;
    }
    var fenced := FencedBlock(trimmed);
    if fenced.Some? {
      var inside := rt.parseJson(Trim(fenced.value));
      if inside.Some? {
        return inside.value;
      }
    }
    var start := ScanStart(trimmed);
    if start < 0 {
      return Null;
    }
    var found := Scan(trimmed, start, rt);
    return found.GetOr(Null);
  }

  /** The loop of `extractJson` that shrinks `end` from the end of the text
      towards `start + 2`, returning the first candidate that parses. */
  method Scan(s: string, start: nat, rt: Runtime) returns (r: Option<Value>)
    requires start <= |s|
    ensures r == ScanDown(start, |s|, Attempt(s, start, rt))
  {
    ghost var attempt := Attempt(s, start, rt);
    var end := |s|;
    while end > start + 1
      invariant start <= end <= |s|
      invariant ScanDown(start, |s|, attempt) == ScanDown(start, end, attempt)
    {
      var candidate := Trim(s[start..end]);
      AttemptAt(s, start, rt, end);
      ScanDownStep(start, end, attempt);
      if candidate != "" {
        var parsed := rt.parseJson(candidate);
        if parsed.Some? {
          return parsed;
        }
      }
      end := end - 1;
    }
    return None;
  }

  /** The attempt at `end = e` parses the non-empty trimmed candidate. */
  lemma AttemptAt(s: string, start: nat, rt: Runtime, e: nat)
    requires start <= e <= |s|
    ensures var c := Trim(s[start..e]);
      Attempt(s, start, rt)(e) == if c != "" then rt.parseJson(c) else None
  {
  }

  /** One step of the scan: the attempt at `hi`, or the scan below it. */
  lemma ScanDownStep(start: nat, hi: nat, attempt: nat -> Option<Value>)
    requires hi > start + 1
    ensures ScanDown(start, hi, attempt) == if attempt(hi).Some? then attempt(hi) else ScanDown(start, hi - 1, attempt)
  {
  }

  /** The scan finds nothing exactly when every attempt down to
      `start + 2` fails. */
  lemma {:induction false} ScanDownFails(start: nat, hi: nat, attempt: nat -> Option<Value>)
    ensures ScanDown(start, hi, attempt).None? <==> forall e: nat :: start + 1 < e <= hi ==> attempt(e).None?
    decreases hi
  {
    if hi > start + 1 && attempt(hi).None? {
      ScanDownFails(start, hi - 1, attempt);
    }
  }

  /** When the scan finds something, it is the attempt at the largest end
      that succeeds. */
  lemma {:induction false} ScanDownIsLongest(start: nat, hi: nat, attempt: nat -> Option<Value>)
    requires ScanDown(start, hi, attempt).Some?
    ensures exists e: nat :: LongestSuccess(start, e, hi, attempt) && ScanDown(start, hi, attempt) == attempt(e)
    decreases hi
  {
    if attempt(hi).None? {
      ScanDownIsLongest(start, hi - 1, attempt);
      var e: nat :| LongestSuccess(start, e, hi - 1, attempt) && ScanDown(start, hi - 1, attempt) == attempt(e);
      assert LongestSuccess(start, e, hi, attempt);
    } else {
      assert LongestSuccess(start, hi, hi, attempt);
    }
  }

  /** `e` is the first end, going down from `hi`, whose attempt succeeds. */
  predicate LongestSuccess(start: nat, e: nat, hi: nat, attempt: nat -> Option<Value>) {
    start + 1 < e <= hi && attempt(e).Some?
    && forall e': nat :: e < e' <= hi ==> attempt(e').None?
  }

  /** The empty text gives null without consulting the parser. */
  lemma ExtractJsonOfEmpty(rt: Runtime)
    ensures ExtractJsonSpec("", rt) == Null
  {
  }

  /** The attempts come in order: a text that parses as a whole, after
      trimming, is returned as parsed, even when it also holds a fenced
      block or a brace. */
  lemma DirectParseComesFirst(text: string, rt: Runtime)
    requires text != "" && rt.parseJson(Trim(text)).Some?
    ensures ExtractJsonSpec(text, rt) == rt.parseJson(Trim(text)).value
  {
  }

  /** The fenced block is tried before the scan. */
  lemma FencedBlockComesSecond(text: string, rt: Runtime)
    requires text != "" && rt.parseJson(Trim(text)).None?
    requires FencedBlock(Trim(text)).Some?
    requires rt.parseJson(Trim(FencedBlock(Trim(text)).value)).Some?
    ensures ExtractJsonSpec(text, rt) == rt.parseJson(Trim(FencedBlock(Trim(text)).value)).value
  {
  }

  /** Text with neither `{` nor `[` that fails the first two attempts gives
      null. */
  lemma NoBracketNoScan(text: string, rt: Runtime)
    requires text != "" && rt.parseJson(Trim(text)).None?
    requires FencedBlock(Trim(text)).None?
    requires forall i :: 0 <= i < |Trim(text)| ==> Trim(text)[i] != '{' && Trim(text)[i] != '['
    ensures ExtractJsonSpec(text, rt) == Null
  {
  }

  // ---------------------------------------------------------------------
  // toDataset and getNumericFields

  /** `toDataset(parsed)`: no rows for a falsy value, the elements of an
      array, and otherwise the value as the only row. */
  function ToDataset(parsed: Value): (rows: seq<Value>)
    ensures !Truthy(parsed) ==> rows == []
    ensures parsed.Arr? ==> rows == parsed.elems
    ensures Truthy(parsed) && !parsed.Arr? ==> rows == [parsed]
    ensures forall r :: r in rows ==> (parsed.Arr? && r in parsed.elems) || r == parsed
    ensures !parsed.Arr? ==> |rows| <= 1
  {
    if !Truthy(parsed) then []
    else if parsed.Arr? then parsed.elems
    else [parsed]
  }

  /** `processScrapeData` hands `toDataset(parsed || [])` the extracted
      value: an object becomes one row, a failure no rows. */
  lemma ExtractedObjectIsOneRow(text: string, rt: Runtime)
    ensures var v := ExtractJsonSpec(text, rt);
      && (v.Obj? ==> ToDataset(v) == [v])
      && (v.Null? ==> ToDataset(v) == [])
  {
  }

  /** Rows already in a dataset come back unchanged: an array is its own
      dataset, so shaping the rows of a dataset again gives the same rows. */
  lemma ToDatasetOfDataset(parsed: Value)
    ensures ToDataset(Arr(ToDataset(parsed))) == ToDataset(parsed)
    ensures forall rows :: ToDataset(Arr(rows)) == rows
  {
  }

  /** The test `typeof first[k] === "number"`. */
  function HoldsNumber(row: Record): string -> bool {
    k => Get(row, k).Num?
  }

  /** `keys.filter(k => typeof row[k] === "number")`: the keys whose value
      is a number, in the order of `keys`. */
  function NumberKeys(row: Record, keys: seq<string>): (r: seq<string>)
    ensures forall k :: k in r <==> k in keys && Get(row, k).Num?
    ensures |r| <= |keys|
  {
    Filter(keys, HoldsNumber(row))
  }

  /** The kept keys come in the order of `keys`: keys before another keep
      their place before it, and each key is kept alone exactly when it
      holds a number. */
  lemma NumberKeysInOrder(row: Record, a: seq<string>, b: seq<string>)
    ensures NumberKeys(row, a + b) == NumberKeys(row, a) + NumberKeys(row, b)
    ensures forall k :: NumberKeys(row, [k]) == if Get(row, k).Num? then [k] else []
  {
    FilterAppend(a, b, HoldsNumber(row));
    forall k
      ensures NumberKeys(row, [k]) == if Get(row, k).Num? then [k] else []
    {
      assert [k][1..] == [];
    }
  }

  /** `getNumericFields(data)`: the keys of the first row whose value has
      `typeof` "number" (NaN and the infinities included), in key order. */
  function GetNumericFields(data: seq<Record>): seq<string> {
    if data == [] then [] else NumberKeys(data[0], data[0].keys)
  }

  /** Only the first row is looked at: it decides the numeric fields, which
      are exactly its keys holding numbers, whatever the later rows hold. */
  lemma NumericFieldsOfFirstRow(first: Record, rest: seq<Record>)
    ensures GetNumericFields([first] + rest) == GetNumericFields([first])
    ensures forall k :: k in GetNumericFields([first] + rest) <==> k in first.keys && Get(first, k).Num?
  {
  }

  // ---------------------------------------------------------------------
  // Coercion

  /** A non-empty run of ASCII digits: `\d+`. */
  predicate Digits(s: string) {
    |s| > 0 && AllDigits(s)
  }

  /** `\d*`. */
  predicate AllDigits(s: string) {
    forall i :: 0 <= i < |s| ==> '0' <= s[i] <= '9'
  }

  /** `s` without one leading minus sign: what follows `-?`. */
  function Unsigned(s: string): string {
    if |s| > 0 && s[0] == '-' then s[1..] else s
  }

  /** `/^-?\d+(?:\.\d+)?$/`: an optional minus, digits, and optionally a
      point followed by digits. */
  predicate StrictDecimal(s: string) {
    var b := Unsigned(s);
    var d := IndexOf(b, '.');
    if d < 0 then Digits(b) else Digits(b[..d]) && Digits(b[d + 1..])
  }

  /** `/^-?\d*(?:\.\d+)?$/`: like `StrictDecimal` but the integer digits may
      be missing, so "", "-", ".5" and "-.5" match. */
  predicate LooseDecimal(s: string) {
    var b := Unsigned(s);
    var d := IndexOf(b, '.');
    if d < 0 then AllDigits(b) else AllDigits(b[..d]) && Digits(b[d + 1..])
  }

  /** Everything the strict pattern accepts the loose one accepts. */
  lemma StrictIsLoose(s: string)
    requires StrictDecimal(s)
    ensures LooseDecimal(s)
  {
  }

  /** The loose pattern accepts the empty string and a lone minus, which
      the strict one rejects. */
  lemma LooseAcceptsEmptyAndMinus()
    ensures LooseDecimal("") && !StrictDecimal("")
    ensures LooseDecimal("-") && !StrictDecimal("-")
  {
    assert Unsigned("-") == "";
  }

  /** The value `coerceRow` stores for `v`: a string whose trimmed form
      matches the strict pattern becomes `Number` of that form unless that
      is NaN; any other value, and any other string, is kept as it was,
      untrimmed. */
  function CoerceValue(v: Value, rt: Runtime): (r: Value)
    ensures !v.Str? ==> r == v
    ensures v.Str? && !StrictDecimal(Trim(v.s)) ==> r == v
    ensures r != v ==> v.Str? && StrictDecimal(Trim(v.s)) && r == Num(rt.toNumber(Trim(v.s))) && !r.n.NaN?
    ensures v.Str? && StrictDecimal(Trim(v.s)) && !rt.toNumber(Trim(v.s)).NaN? ==> r == Num(rt.toNumber(Trim(v.s)))
    ensures v.Str? && StrictDecimal(Trim(v.s)) && rt.toNumber(Trim(v.s)).NaN? ==> r == v
  {
    if v.Str? then
      var s := Trim(v.s);
      if StrictDecimal(s) then
        var n := rt.toNumber(s);
        if n.NaN? then v else Num(n)
      else v
    else v
  }

  /** The value `coerceDatasetTypes` stores for `v`: null and undefined are
      kept; otherwise the trimmed string form, turned into its number when
      that is finite and the text matches the loose pattern. */
  function CoerceCell(v: Value, rt: Runtime): (r: Value)
    ensures IsNullish(v) ==> r == v
    ensures !IsNullish(v) && Trim(ToStr(v, rt)) == "" ==> r == Str("")
    ensures !IsNullish(v) ==> r.Str? || r.Num?
    ensures r.Num? && !IsNullish(v) ==> LooseDecimal(Trim(ToStr(v, rt))) && IsFinite(r.n) && r.n == rt.toNumber(Trim(ToStr(v, rt)))
    ensures r.Str? && !IsNullish(v) ==> r.s == Trim(ToStr(v, rt))
    ensures var t := Trim(ToStr(v, rt));
      !IsNullish(v) && t != "" && IsFinite(rt.toNumber(t)) && LooseDecimal(t) ==> r == Num(rt.toNumber(t))
  {
    if IsNullish(v) then v
    else
      var t := Trim(ToStr(v, rt));
      if t == "" then Str(t)
      else
        var n := rt.toNumber(t);
        if IsFinite(n) && LooseDecimal(t) then Num(n) else Str(t)
  }

  /** A cell already coerced is coerced again to itself when it became a
      string that is not a number. */
  lemma CoerceCellKeepsText(v: Value, rt: Runtime)
    requires CoerceCell(v, rt).Str?
    requires !IsNullish(v)
    ensures CoerceCell(CoerceCell(v, rt), rt) == CoerceCell(v, rt)
  {
    var t := Trim(ToStr(v, rt));
    TrimIdempotent(ToStr(v, rt));
  }

  /** `out` has the keys of `row`, in the same order, and `f` of each of
      its values. */
  ghost predicate MapsEntries(row: Record, out: Record, f: Value -> Value) {
    out.Valid() && out.keys == row.keys
    && forall k :: k in row.keys ==> Get(out, k) == f(Get(row, k))
  }

  /** Coercing a row twice changes nothing more: what `coerceRow` turns
      into a number stays that number. */
  lemma CoerceValueIdempotent(v: Value, rt: Runtime)
    ensures CoerceValue(CoerceValue(v, rt), rt) == CoerceValue(v, rt)
  {
  }

  /** The two coercions agree on a string the strict pattern turns into a
      finite number: the loose pattern accepts its trimmed form too, so
      `coerceDatasetTypes` stores the same number. */
  lemma CoercionsAgreeOnFiniteDecimals(s: string, rt: Runtime)
    requires CoerceValue(Str(s), rt).Num? && IsFinite(CoerceValue(Str(s), rt).n)
    ensures CoerceCell(Str(s), rt) == CoerceValue(Str(s), rt)
  {
    StrictIsLoose(Trim(s));
    assert ToStr(Str(s), rt) == s;
  }

  /** Where they differ on blank text: a blank string stays as it is under
      `coerceRow` but becomes the empty string under `coerceDatasetTypes`. */
  lemma CoercionsDifferOnBlank(rt: Runtime)
    ensures CoerceValue(Str("  "), rt) == Str("  ")
    ensures CoerceCell(Str("  "), rt) == Str("")
  {
    TrimOfSpace("  ");
    assert !StrictDecimal("");
    assert ToStr(Str("  "), rt) == "  ";
  }

  /** A lone minus sign has nothing to trim. */
  lemma TrimOfMinus()
    ensures Trim("-") == "-"
  {
    assert !IsSpace('-');
    TrimOfTrimmed("-");
  }

  /** Where they differ on a lone minus sign: `coerceRow` keeps it, since
      the strict pattern needs a digit. */
  lemma CoerceRowKeepsMinus(rt: Runtime)
    ensures CoerceValue(Str("-"), rt) == Str("-")
  {
    TrimOfMinus();
    LooseAcceptsEmptyAndMinus();
  }

  /** ... and so does `coerceDatasetTypes`: the loose pattern lets it
      through, but `Number("-")` is NaN, which is not finite. */
  lemma CoerceDatasetKeepsMinus(rt: Runtime)
    requires rt.toNumber("-").NaN?
    ensures CoerceCell(Str("-"), rt) == Str("-")
  {
    TrimOfMinus();
    assert ToStr(Str("-"), rt) == "-";
  }

  /** A point with no digit before it has nothing to trim. */
  lemma TrimOfFraction()
    ensures Trim(".5") == ".5"
  {
    assert !IsSpace('.') && !IsSpace('5');
    TrimOfTrimmed(".5");
  }

  /** Where the patterns differ on a number: ".5" has no integer digits, so
      `coerceRow` keeps the text while `coerceDatasetTypes` stores 0.5. */
  lemma CoercionsDifferOnFraction(rt: Runtime)
    requires rt.toNumber(".5") == Finite(0.5)
    ensures CoerceValue(Str(".5"), rt) == Str(".5")
    ensures CoerceCell(Str(".5"), rt) == Num(Finite(0.5))
  {
    TrimOfFraction();
    assert ToStr(Str(".5"), rt) == ".5";
    assert IndexOf(".5", '.') == 0;
    assert ".5"[..0] == "" && ".5"[1..] == "5";
  }

  /** The loop shared by `coerceRow` and `coerceDatasetTypes`: a fresh
      object receives, key by key in enumeration order, `f` of each value
      of `row`. */
  method MapEntries(row: Record, f: Value -> Value) returns (out: Record)
    requires row.Valid()
    ensures MapsEntries(row, out, f)
  {
    out := EmptyRecord;
    var i := 0;
    while i < |row.keys|
      invariant 0 <= i <= |row.keys|
      invariant out.Valid()
      invariant out.keys == row.keys[..i]
      invariant forall k :: k in row.keys[..i] ==> Get(out, k) == f(Get(row, k))
    {
      var k := row.keys[i];
      assert k !in row.keys[..i];
      assert row.keys[..i + 1] == row.keys[..i] + [k];
      out := Set(out, k, f(Get(row, k)));
      i := i + 1;
    }
    assert row.keys[..i] == row.keys;
  }

  /** `coerceRow(row)`: the same keys in the same order, each value passed
      through `CoerceValue`. */
  method CoerceRow(row: Record, rt: Runtime) returns (out: Record)
    requires row.Valid()
    ensures out.Valid() && out.keys == row.keys
    ensures forall k :: k in row.keys ==> Get(out, k) == CoerceValue(Get(row, k), rt)
  {
    out := MapEntries(row, v => CoerceValue(v, rt));
    assert MapsEntries(row, out, v => CoerceValue(v, rt));
  }

  /** `coerceDatasetTypes(rows)`: one row out per row in, each with the same
      keys in the same order and every value passed through `CoerceCell`. */
  method CoerceDatasetTypes(rows: seq<Record>, rt: Runtime) returns (out: seq<Record>)
    requires forall i :: 0 <= i < |rows| ==> rows[i].Valid()
    ensures |out| == |rows|
    ensures forall i :: 0 <= i < |rows| ==> MapsEntries(rows[i], out[i], v => CoerceCell(v, rt))
  {
    out := [];
    var i := 0;
    while i < |rows|
      invariant 0 <= i <= |rows|
      invariant |out| == i
      invariant forall j :: 0 <= j < i ==> MapsEntries(rows[j], out[j], v => CoerceCell(v, rt))
    {
      var obj := MapEntries(rows[i], v => CoerceCell(v, rt));
      out := out + [obj];
      i := i + 1;
    }
  }
}
