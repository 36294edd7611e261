/** The record helpers of the scrape history: recovering JSON from a model
    reply wrapped in a code fence, normalising a price, and projecting a
    stored record onto `{name, price}` rows. */
module DataParsing {
  import opened Wrappers
  import opened Js
  import opened Text
  import Classifier

  // ---------------------------------------------------------------------
  // extractJsonFromCodeBlock

  /** `[a-zA-Z]`. */
  predicate IsAsciiLetter(c: char) {
    ('a' <= c <= 'z') || ('A' <= c <= 'Z')
  }

  /** The length of the longest run of ASCII letters that `s` starts with. */
  function LeadingLetters(s: string): (n: nat)
    ensures n <= |s|
    ensures forall i :: 0 <= i < n ==> IsAsciiLetter(s[i])
    ensures n == |s| || !IsAsciiLetter(s[n])
  {
    if s != [] && IsAsciiLetter(s[0]) then 1 + LeadingLetters(s[1..]) else 0
  }

  /** `s` has a fence at position `i`, read character by character. */
  predicate FenceAt(s: string, i: int) {
    0 <= i && i + 3 <= |s| && s[i] == '`' && s[i + 1] == '`' && s[i + 2] == '`'
  }

  /** `FenceAt` is `OccursAt` for the fence, spelled out. */
  lemma FenceAtIsOccurrence(s: string, i: int)
    ensures FenceAt(s, i) <==> OccursAt(s, Fence, i)
  {
    if 0 <= i && i + 3 <= |s| {
      var w := s[i..i + 3];
      assert w[0] == s[i] && w[1] == s[i + 1] && w[2] == s[i + 2];
    }
  }

  /** `s.replace(/^```[a-zA-Z]*\n?/, "")`: an opening fence at the very start,
      the language tag after it and one line break after that are removed;
      a text that does not start with a fence is left alone. */
  function StripOpenFence(s: string): (r: string)
    ensures |r| <= |s| && r == s[|s| - |r|..]
    ensures !FenceAt(s, 0) ==> r == s
    ensures FenceAt(s, 0) ==> var n := 3 + LeadingLetters(s[3..]);
      if n < |s| && s[n] == '\n' then r == s[n + 1..] else r == s[n..]
  {
    if FenceAt(s, 0) then
      var rest := s[3..];
      var tagged := rest[LeadingLetters(rest)..];
      if tagged != [] && tagged[0] == '\n' then tagged[1..] else tagged
    else s
  }

  /** `s.replace(/\n?```$/, "")`: a closing fence at the very end, and one
      line break before it, are removed; a text that does not end with a
      fence is left alone. */
  function StripCloseFence(s: string): (r: string)
    ensures |r| <= |s| && r == s[..|r|]
    ensures !FenceAt(s, |s| - 3) ==> r == s
    ensures FenceAt(s, |s| - 3) && |s| >= 4 && s[|s| - 4] == '\n' ==> r == s[..|s| - 4]
    ensures FenceAt(s, |s| - 3) && !(|s| >= 4 && s[|s| - 4] == '\n') ==> r == s[..|s| - 3]
  {
    if FenceAt(s, |s| - 3) then
      if |s| >= 4 && s[|s| - 4] == '\n' then s[..|s| - 4] else s[..|s| - 3]
    else s
  }

  /** The `code` that `extractJsonFromCodeBlock` parses. */
  function Code(text: string): string {
    Trim(StripCloseFence(StripOpenFence(text)))
  }

  /** The brace slice recovery applies: a `{` occurs, and a `}` after it. */
  predicate HasBraceSlice(code: string) {
    0 <= IndexOf(code, '{') < LastIndexOf(code, '}')
  }

  /** `code.slice(first, last + 1)`: from the first `{` to the last `}`. */
  function BraceSlice(code: string): (r: string)
    requires HasBraceSlice(code)
    ensures |r| >= 2 && r[0] == '{' && r[|r| - 1] == '}'
  {
    code[IndexOf(code, '{')..LastIndexOf(code, '}') + 1]
  }

  /** `extractJsonFromCodeBlock(text)`: null for the empty text; otherwise
      the parse of the fence-stripped, trimmed code, and when that fails the
      parse of the slice from its first `{` to its last `}`, and null when
      there is no such slice or it does not parse either. */
  function ExtractJsonFromCodeBlock(text: string, rt: Runtime): (r: Value)
    ensures text == "" ==> r == Null
    ensures text != "" && rt.parseJson(Code(text)).Some? ==> r == rt.parseJson(Code(text)).value
    ensures text != "" && rt.parseJson(Code(text)).None? ==>
      if HasBraceSlice(Code(text)) then r == rt.parseJson(BraceSlice(Code(text))).GetOr(Null) else r == Null
  {
    if text == "" then Null
    else
      var code := Code(text);
      match rt.parseJson(code)
      case Some(v) => v
      case None =>
        if HasBraceSlice(code) then rt.parseJson(BraceSlice(code)).GetOr(Null) else Null
  }

  /** A reply in the shape ```` ```tag\n<body>\n``` ```` gives the parse of
      `body`, whatever the (letters-only) tag, when the body carries no
      white space at its ends and parses. */
  lemma FencedReplyRoundTrip(tag: string, body: string, rt: Runtime)
    requires forall i :: 0 <= i < |tag| ==> IsAsciiLetter(tag[i])
    requires body == [] || (!IsSpace(body[0]) && !IsSpace(body[|body| - 1]))
    requires rt.parseJson(body).Some?
    ensures ExtractJsonFromCodeBlock(Fence + tag + "\n" + body + "\n" + Fence, rt) == rt.parseJson(body).value
  {
    var inner := body + "\n" + Fence;
    assert Fence + tag + "\n" + body + "\n" + Fence == Fence + tag + "\n" + inner;
    OpenFenceOfReply(tag, inner);
    CloseFenceOfReply(body);
    TrimOfTrimmed(body);
  }

  /** The opening fence, its tag and its line break are what is removed. */
  lemma OpenFenceOfReply(tag: string, inner: string)
    requires forall i :: 0 <= i < |tag| ==> IsAsciiLetter(tag[i])
    ensures StripOpenFence(Fence + tag + "\n" + inner) == inner
  {
    var text := Fence + tag + "\n" + inner;
    assert FenceAt(text, 0);
    assert text[3..] == tag + ("\n" + inner);
    LettersOfTag(tag, "\n" + inner);
    assert (tag + ("\n" + inner))[|tag|..] == "\n" + inner;
  }

  /** The line break and the closing fence are what is removed. */
  lemma CloseFenceOfReply(body: string)
    ensures StripCloseFence(body + "\n" + Fence) == body
  {
    var text := body + "\n" + Fence;
    assert FenceAt(text, |text| - 3);
    assert text[|text| - 4] == '\n';
    assert text[..|text| - 4] == body;
  }

  /** The letter run of `tag + rest` is `tag` when `rest` starts with a
      line break. */
  lemma {:induction false} LettersOfTag(tag: string, rest: string)
    requires forall i :: 0 <= i < |tag| ==> IsAsciiLetter(tag[i])
    requires rest != [] && rest[0] == '\n'
    ensures LeadingLetters(tag + rest) == |tag|
  {
    if tag != [] {
      assert (tag + rest)[1..] == tag[1..] + rest;
      LettersOfTag(tag[1..], rest);
    } else {
      assert tag + rest == rest;
    }
  }

  /** A reply with prose around the object is recovered from the brace
      slice: the code does not parse, but the slice from its first `{` to
      its last `}` does. */
  lemma BraceSliceRecovery(text: string, rt: Runtime)
    requires text != "" && rt.parseJson(Code(text)).None?
    requires HasBraceSlice(Code(text)) && rt.parseJson(BraceSlice(Code(text))).Some?
    ensures ExtractJsonFromCodeBlock(text, rt) == rt.parseJson(BraceSlice(Code(text))).value
  {
  }

  /** Code that does not parse and holds no `{` before a `}` gives null:
      arrays are not recovered from surrounding prose. */
  lemma NoObjectNoRecovery(text: string, rt: Runtime)
    requires text != "" && rt.parseJson(Code(text)).None?
    requires '{' !in Code(text)
    ensures ExtractJsonFromCodeBlock(text, rt) == Null
  {
    assert IndexOf(Code(text), '{') == -1;
  }

  // ---------------------------------------------------------------------
  // normalizePrice

  /** `normalizePrice(priceStr)`: null for null and undefined; otherwise the
      number parsed from the string form with every character outside
      `[0-9.\-]` removed, when it is finite, and null when it is not. It
      accepts exactly what the dashboard's `isNumeric` accepts, and yields
      the number that check computes. */
  function NormalizePrice(price: Value, rt: Runtime): (r: Option<real>)
    ensures r.Some? <==> Classifier.IsNumeric(price, rt)
    ensures r.Some? ==> StripParse(price, rt) == Finite(r.value)
    ensures IsNullish(price) ==> r.None?
  {
    if IsNullish(price) then None
    else
      var n := rt.toNumber(KeepNumericChars(ToStr(price, rt)));
      if IsFinite(n) then Some(n.r) else None
  }

  /** Prices that differ only in characters outside `[0-9.\-]` normalise to
      the same number: "$1,299.00" and "1299.00" agree. */
  lemma NormalizeIgnoresDecoration(s: string, rt: Runtime)
    ensures NormalizePrice(Str(s), rt) == NormalizePrice(Str(KeepNumericChars(s)), rt)
  {
    var k := KeepNumericChars(s);
    KeepNumericCharsOfNumeric(k);
    assert ToStr(Str(s), rt) == s;
    assert ToStr(Str(k), rt) == k;
    assert StripParse(Str(s), rt) == StripParse(Str(k), rt);
  }

  // ---------------------------------------------------------------------
  // getRowsFromRecord

  /** `Row`: a name and a price, both strings. */
  datatype Row = Row(name: string, price: string)

  /** What `getRowsFromRecord` ends with: the rows, or the `TypeError`
      thrown when a row to project is null or undefined. */
  datatype Outcome = Rows(rows: seq<Row>) | TypeError

  /** `a || b`. */
  function Or(a: Value, b: Value): (r: Value)
    ensures Truthy(a) ==> r == a
    ensures !Truthy(a) ==> r == b
  {
    if Truthy(a) then a else b
  }

  /** `String(r.key || "")`: the string form of a truthy property and the
      empty string for a falsy one (missing, null, false, 0, NaN, ""). */
  function FieldText(r: Value, key: string, rt: Runtime): (t: string)
    requires !IsNullish(r)
    ensures var p := PropOf(r, key).value; t == if Truthy(p) then ToStr(p, rt) else ""
  {
    ToStr(Or(PropOf(r, key).value, Str("")), rt)
  }

  /** `rows.map(r => ({ name: String(r.name || ""), price: String(r.price || "") }))`:
      one row out per element, in order, and a `TypeError` as soon as an
      element is null or undefined. */
  function ProjectRows(elems: seq<Value>, rt: Runtime): (o: Outcome)
    ensures o.TypeError? <==> exists i :: 0 <= i < |elems| && IsNullish(elems[i])
    ensures o.Rows? ==> |o.rows| == |elems|
    ensures o.Rows? ==> forall i :: 0 <= i < |elems| ==>
      o.rows[i] == Row(FieldText(elems[i], "name", rt), FieldText(elems[i], "price", rt))
  {
    if elems == [] then Rows([])
    else if IsNullish(elems[0]) then TypeError
    else
      match ProjectRows(elems[1..], rt)
      case TypeError =>
        assert exists i :: 0 <= i < |elems| - 1 && IsNullish(elems[1..][i]);
        TypeError
      case Rows(rest) =>
        var o := Rows([Row(FieldText(elems[0], "name", rt), FieldText(elems[0], "price", rt))] + rest);
        assert forall i :: 1 <= i < |elems| ==> elems[i] == elems[1..][i - 1];
        o
  }

  /** The rows the `model_raw` fallback projects from the recovered value:
      its `rows` property when that is an array, else the value itself
      when it is an array, else none. */
  function FallbackRows(maybe: Value): (elems: seq<Value>)
    requires !IsNullish(maybe)
  {
    var rows := PropOf(maybe, "rows").value;
    if rows.Arr? then rows.elems
    else if maybe.Arr? then maybe.elems
    else []
  }

  /** `extractJsonFromCodeBlock(String(record.model_raw || ""))`: the value
      recovered from the record's model reply. */
  function Recovered(record: Value, rt: Runtime): Value
    requires !IsNullish(record)
  {
    ExtractJsonFromCodeBlock(ToStr(Or(PropOf(record, "model_raw").value, Str("")), rt), rt)
  }

  /** `getRowsFromRecord(record)`: no rows for a falsy record; the projected
      `parsed_rows` when that is a non-empty array; otherwise the projected
      rows recovered from the string form of `model_raw`, and no rows when
      nothing truthy is recovered. */
  function GetRowsFromRecord(record: Value, rt: Runtime): Outcome {
    if !Truthy(record) then Rows([])
    else RowsOfRecord(record, Recovered(record, rt), rt)
  }

  /** The choice `getRowsFromRecord` makes for a truthy record, given the
      value `maybe` recovered from its `model_raw`, which is only used when
      `parsed_rows` is not a non-empty array. */
  function RowsOfRecord(record: Value, maybe: Value, rt: Runtime): Outcome
    requires Truthy(record)
  {
    var parsed := PropOf(record, "parsed_rows").value;
    if parsed.Arr? && |parsed.elems| > 0 then ProjectRows(parsed.elems, rt)
    else if !Truthy(maybe) then Rows([])
    else ProjectRows(FallbackRows(maybe), rt)
  }

  /** A falsy record has no rows. */
  lemma FalsyRecordHasNoRows(record: Value, rt: Runtime)
    requires !Truthy(record)
    ensures GetRowsFromRecord(record, rt) == Rows([])
  {
  }

  /** A non-empty `parsed_rows` array takes priority: the rows are its
      elements projected one to one, and `model_raw` is never looked at. */
  lemma ParsedRowsTakePriority(rec: Record, raw: Value, rt: Runtime)
    requires Get(rec, "parsed_rows").Arr? && |Get(rec, "parsed_rows").elems| > 0
    ensures GetRowsFromRecord(Obj(rec), rt) == ProjectRows(Get(rec, "parsed_rows").elems, rt)
    ensures GetRowsFromRecord(Obj(Set(rec, "model_raw", raw)), rt) == GetRowsFromRecord(Obj(rec), rt)
  {
    assert Get(Set(rec, "model_raw", raw), "parsed_rows") == Get(rec, "parsed_rows");
  }

  /** Without usable `parsed_rows`, a `model_raw` from which nothing is
      recovered gives no rows. */
  lemma UnparseableModelRawHasNoRows(rec: Record, rt: Runtime)
    requires !(Get(rec, "parsed_rows").Arr? && |Get(rec, "parsed_rows").elems| > 0)
    requires Recovered(Obj(rec), rt) == Null
    ensures GetRowsFromRecord(Obj(rec), rt) == Rows([])
  {
    FallbackOfRecord(rec, Null, rt);
  }

  /** In the fallback, a recovered object's `rows` array is what is
      projected, one row per element. */
  lemma RecoveredRowsAreProjected(rec: Record, inner: Record, rt: Runtime)
    requires !(Get(rec, "parsed_rows").Arr? && |Get(rec, "parsed_rows").elems| > 0)
    requires Recovered(Obj(rec), rt) == Obj(inner)
    requires Get(inner, "rows").Arr?
    ensures GetRowsFromRecord(Obj(rec), rt) == ProjectRows(Get(inner, "rows").elems, rt)
  {
    FallbackOfRecord(rec, Obj(inner), rt);
    FallbackOfRowsObject(inner);
  }

  /** A recovered object with a `rows` array is truthy and falls back to
      that array. */
  lemma FallbackOfRowsObject(inner: Record)
    requires Get(inner, "rows").Arr?
    ensures Truthy(Obj(inner)) && FallbackRows(Obj(inner)) == Get(inner, "rows").elems
  {
  }

  /** Whatever was recovered, an object record without usable
      `parsed_rows` projects the fallback rows of it. */
  lemma FallbackOfRecord(rec: Record, maybe: Value, rt: Runtime)
    requires !(Get(rec, "parsed_rows").Arr? && |Get(rec, "parsed_rows").elems| > 0)
    ensures RowsOfRecord(Obj(rec), maybe, rt) == if Truthy(maybe) then ProjectRows(FallbackRows(maybe), rt) else Rows([])
  {
    assert PropOf(Obj(rec), "parsed_rows").value == Get(rec, "parsed_rows");
  }

  /** Every projected row has string fields, and a falsy source value,
      `0` included, becomes the empty string. */
  lemma FalsyFieldsBecomeEmpty(elems: seq<Value>, rt: Runtime, i: nat)
    requires ProjectRows(elems, rt).Rows? && i < |elems|
    requires PropOf(elems[i], "price") == Some(Num(Finite(0.0)))
    ensures ProjectRows(elems, rt).rows[i].price == ""
  {
  }
}
