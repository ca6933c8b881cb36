/** The request helpers every backend script shares: `validateInput`, which
    rejects a request whose required fields are absent or blank, and
    `sanitizeInput`, which trims, strips tags from and HTML-escapes input.

    A decoded JSON request body is a map from field names to `Value`s.  A body
    that does not decode is PHP `null`, which behaves like the empty map.
 */
module Config {
  import opened Basics
  import opened Text

  // Messages the handlers return, word for word.
  const ArrayTrimError: string := "trim(): Argument #1 ($string) must be of type string, array given"

  datatype Key = Index(n: nat) | Name(s: string)

  /** A decoded JSON value as PHP sees it (`json_decode($body, true)`);
      objects and lists are both PHP arrays. */
  datatype Value = Null | Bool(b: bool) | Int(i: int) | Str(s: string) | Array(entries: seq<Entry>)
  datatype Entry = Entry(key: Key, val: Value)

  /** The string PHP's `trim()` receives for a scalar (PHP converts non-strings). */
  function ScalarText(v: Value): string
    requires !v.Array?
  {
    match v
    case Null => ""
    case Bool(b) => if b then "1" else ""
    case Int(i) => IntToString(i)
    case Str(s) => s
  }

  /** A required field that `validateInput` reports: not set (absent or
      `null`), or a scalar that is `empty()` once trimmed, which includes "0". */
  predicate Blank(data: map<string, Value>, field: string) {
    field !in data || data[field].Null? ||
    (!data[field].Array? && PhpEmpty(Trim(ScalarText(data[field]), PhpSpace)))
  }

  /** A required field holding an array: `trim()` rejects it with a TypeError. */
  predicate HoldsArray(data: map<string, Value>, field: string) {
    field in data && data[field].Array?
  }

  /** The required fields that are blank, in the order they were listed. */
  function MissingFields(data: map<string, Value>, fields: seq<string>): (r: seq<string>)
    ensures forall f :: f in r <==> f in fields && Blank(data, f)
    ensures IsSubsequence(r, fields)
  {
    if fields == [] then []
    else
      var rest := MissingFields(data, fields[1..]);
      if Blank(data, fields[0]) then
        var r := [fields[0]] + rest;
        assert r[1..] == rest;
        r
      else
        assert fields == [fields[0]] + fields[1..];
        rest
  }

  lemma NoneMissingIff(data: map<string, Value>, fields: seq<string>)
    ensures MissingFields(data, fields) == [] <==> forall k :: 0 <= k < |fields| ==> !Blank(data, fields[k])
  {
    var missing := MissingFields(data, fields);
    if missing != [] {
      assert missing[0] in missing;
    } else {
      forall k | 0 <= k < |fields| ensures !Blank(data, fields[k]) {
        assert fields[k] in fields;
      }
    }
  }

  /** The 422 message listing the blank required fields. */
  function MissingMessage(missing: seq<string>): string {
    "Missing required fields: " + Join(missing, ", ")
  }

  /** `validateInput($data, $required_fields)`: passes when every required
      field is present and not blank; otherwise fails with status 422 listing
      every blank field, in order.  Any required field holding an array makes
      the script die in `trim()` before anything is reported. */
  function ValidateInput(data: map<string, Value>, fields: seq<string>): (r: Outcome)
    ensures (exists k :: 0 <= k < |fields| && HoldsArray(data, fields[k])) ==> r.Fail? && r.error.Fatal?
    ensures r == Pass <==> forall k :: 0 <= k < |fields| ==> !Blank(data, fields[k]) && !HoldsArray(data, fields[k])
    ensures (forall k :: 0 <= k < |fields| ==> !HoldsArray(data, fields[k])) && r.Fail? ==>
      var missing := MissingFields(data, fields);
      missing != [] && r.error == Http(422, MissingMessage(missing))
  {
    if exists k :: 0 <= k < |fields| && HoldsArray(data, fields[k]) then
      Fail(Fatal(ArrayTrimError))
    else
      var missing := MissingFields(data, fields);
      NoneMissingIff(data, fields);
      if missing == [] then Pass
      else
        Fail(Http(422, MissingMessage(missing)))
  }

  /** Because `empty("0")` holds, a required field whose trimmed text is "0"
      (the number 0 included) is reported as missing. */
  lemma ZeroIsMissing(data: map<string, Value>, field: string)
    requires field in data && !data[field].Array?
    requires Trim(ScalarText(data[field]), PhpSpace) == "0"
    ensures ValidateInput(data, [field]) == Fail(Http(422, "Missing required fields: " + field))
  {
    assert PhpEmpty("0");
    assert Blank(data, field) && !HoldsArray(data, field);
    assert !exists k :: 0 <= k < 1 && HoldsArray(data, [field][k]);
    var missing := MissingFields(data, [field]);
    assert missing == [field] by {
      assert MissingFields(data, [field][1..]) == [];
    }
    assert Join(missing, ", ") == field;
  }

  // ------------------------------------------------------------ sanitizeInput

  /** The characters `htmlspecialchars(..., ENT_QUOTES)` replaces besides `&`. */
  predicate HtmlSpecial(c: char) {
    c == '<' || c == '>' || c == '"' || c == '\''
  }

  function EscapeChar(c: char): string {
    if c == '&' then "&amp;"
    else if c == '"' then "&quot;"
    else if c == '\'' then "&#039;"
    else if c == '<' then "&lt;"
    else if c == '>' then "&gt;"
    else [c]
  }

  /** `htmlspecialchars($s, ENT_QUOTES, 'UTF-8')`: the output holds no raw
      `<`, `>`, `"` or `'`. */
  function HtmlEscape(s: string): (r: string)
    ensures forall k :: 0 <= k < |r| ==> !HtmlSpecial(r[k])
  {
    if s == [] then []
    else
      var head := EscapeChar(s[0]);
      var tail := HtmlEscape(s[1..]);
      assert forall k :: 0 <= k < |head| ==> !HtmlSpecial(head[k]);
      head + tail
  }

  /** `htmlspecialchars_decode($s, ENT_QUOTES)`: the reference inverse. */
  function HtmlUnescape(s: string): string
    decreases |s|
  {
    if s == [] then []
    else if StartsWith(s, "&amp;") then "&" + HtmlUnescape(s[5..])
    else if StartsWith(s, "&quot;") then "\"" + HtmlUnescape(s[6..])
    else if StartsWith(s, "&#039;") then "'" + HtmlUnescape(s[6..])
    else if StartsWith(s, "&lt;") then "<" + HtmlUnescape(s[4..])
    else if StartsWith(s, "&gt;") then ">" + HtmlUnescape(s[4..])
    else [s[0]] + HtmlUnescape(s[1..])
  }

  lemma UnescapeAmp(t: string)
    ensures HtmlUnescape("&amp;" + t) == ['&'] + HtmlUnescape(t)
  {
    var e := "&amp;" + t;
    assert e[..5] == "&amp;" && e[5..] == t;
  }

  lemma UnescapeQuot(t: string)
    ensures HtmlUnescape("&quot;" + t) == ['"'] + HtmlUnescape(t)
  {
    var e := "&quot;" + t;
    assert |e| < 5 || e[..5][1] != "&amp;"[1];
    assert e[..6] == "&quot;" && e[6..] == t;
  }

  lemma UnescapeApos(t: string)
    ensures HtmlUnescape("&#039;" + t) == ['\''] + HtmlUnescape(t)
  {
    var e := "&#039;" + t;
    assert |e| < 5 || e[..5][1] != "&amp;"[1];
    assert |e| < 6 || e[..6][1] != "&quot;"[1];
    assert e[..6] == "&#039;" && e[6..] == t;
  }

  lemma UnescapeLt(t: string)
    ensures HtmlUnescape("&lt;" + t) == ['<'] + HtmlUnescape(t)
  {
    var e := "&lt;" + t;
    assert |e| < 5 || e[..5][1] != "&amp;"[1];
    assert |e| < 6 || e[..6][1] != "&quot;"[1];
    assert |e| < 6 || e[..6][1] != "&#039;"[1];
    assert e[..4] == "&lt;" && e[4..] == t;
  }

  lemma UnescapeGt(t: string)
    ensures HtmlUnescape("&gt;" + t) == ['>'] + HtmlUnescape(t)
  {
    var e := "&gt;" + t;
    assert |e| < 5 || e[..5][1] != "&amp;"[1];
    assert |e| < 6 || e[..6][1] != "&quot;"[1];
    assert |e| < 6 || e[..6][1] != "&#039;"[1];
    assert |e| < 4 || e[..4][1] != "&lt;"[1];
    assert e[..4] == "&gt;" && e[4..] == t;
  }

  lemma UnescapePlain(c: char, t: string)
    requires c != '&'
    ensures HtmlUnescape([c] + t) == [c] + HtmlUnescape(t)
  {
    var e := [c] + t;
    assert e[0] == c && e[1..] == t;
    assert |e| < 5 || e[..5][0] != '&';
    assert |e| < 6 || e[..6][0] != '&';
    assert |e| < 4 || e[..4][0] != '&';
  }

  /** Decoding an escaped character in front of any text gives the character back. */
  lemma UnescapeEscapedHead(c: char, t: string)
    ensures HtmlUnescape(EscapeChar(c) + t) == [c] + HtmlUnescape(t)
  {
    if c == '&' { assert EscapeChar(c) == "&amp;"; UnescapeAmp(t); }
    else if c == '"' { assert EscapeChar(c) == "&quot;"; UnescapeQuot(t); }
    else if c == '\'' { assert EscapeChar(c) == "&#039;"; UnescapeApos(t); }
    else if c == '<' { assert EscapeChar(c) == "&lt;"; UnescapeLt(t); }
    else if c == '>' { assert EscapeChar(c) == "&gt;"; UnescapeGt(t); }
    else { assert EscapeChar(c) == [c]; UnescapePlain(c, t); }
  }

  /** Escaping loses nothing: decoding the escaped text gives the text back. */
  lemma {:induction false} EscapeRoundTrip(s: string)
    ensures HtmlUnescape(HtmlEscape(s)) == s
    decreases |s|
  {
    if s != [] {
      assert HtmlEscape(s) == EscapeChar(s[0]) + HtmlEscape(s[1..]);
      UnescapeEscapedHead(s[0], HtmlEscape(s[1..]));
      EscapeRoundTrip(s[1..]);
      assert s == [s[0]] + s[1..];
    }
  }

  /** `sanitizeInput` on a scalar: trim, then `strip_tags`, then escape.
      `stripTags` stands for PHP's `strip_tags`, which this model treats as
      an opaque function. */
  function SanitizeText(s: string, stripTags: string -> string): string {
    HtmlEscape(stripTags(Trim(s, PhpSpace)))
  }

  /** `sanitizeInput($input)`: an array is sanitized element by element with
      its keys and order kept (`array_map` on one array); any other value
      becomes a string free of raw `<`, `>`, `"` and `'`. */
  function SanitizeInput(v: Value, stripTags: string -> string): (r: Value)
    ensures v.Array? <==> r.Array?
    ensures v.Array? ==>
      |r.entries| == |v.entries| &&
      forall i :: 0 <= i < |v.entries| ==>
        r.entries[i].key == v.entries[i].key &&
        r.entries[i].val == SanitizeInput(v.entries[i].val, stripTags)
    ensures !v.Array? ==>
      r.Str? && r.s == SanitizeText(ScalarText(v), stripTags) &&
      forall k :: 0 <= k < |r.s| ==> !HtmlSpecial(r.s[k])
    decreases v
  {
    match v
    case Array(es) =>
      Array(seq(|es|, i requires 0 <= i < |es| => Entry(es[i].key, SanitizeInput(es[i].val, stripTags))))
    case _ =>
      Str(SanitizeText(ScalarText(v), stripTags))
  }

  /** Every string anywhere inside `v` is free of raw `<`, `>`, `"` and `'`. */
  ghost predicate Clean(v: Value)
    decreases v
  {
    match v
    case Array(es) => forall i :: 0 <= i < |es| ==> Clean(es[i].val)
    case Str(s) => forall k :: 0 <= k < |s| ==> !HtmlSpecial(s[k])
    case _ => true
  }

  /** Sanitizing a nested array cleans every string at every depth. */
  lemma {:induction false} SanitizedIsClean(v: Value, stripTags: string -> string)
    ensures Clean(SanitizeInput(v, stripTags))
    decreases v
  {
    match v
    case Array(es) =>
      var r := SanitizeInput(v, stripTags);
      assert |r.entries| == |es|;
      forall i | 0 <= i < |es| ensures Clean(r.entries[i].val) {
        assert r.entries[i].val == SanitizeInput(es[i].val, stripTags);
        SanitizedIsClean(es[i].val, stripTags);
      }
    case _ =>
  }

  // ------------------------------------------------------- one blank field

  /** Only the `k`th required field is blank, and no required field holds an array. */
  predicate OnlyBlank(data: map<string, Value>, fields: seq<string>, k: int) {
    && 0 <= k < |fields|
    && Blank(data, fields[k])
    && (forall j :: 0 <= j < |fields| ==> !HoldsArray(data, fields[j]))
    && (forall j :: 0 <= j < |fields| && j != k ==> !Blank(data, fields[j]))
  }

  lemma {:induction false} OnlyBlankListed(data: map<string, Value>, fields: seq<string>, k: int)
    requires 0 <= k < |fields| && Blank(data, fields[k])
    requires forall j :: 0 <= j < |fields| && j != k ==> !Blank(data, fields[j])
    ensures MissingFields(data, fields) == [fields[k]]
    decreases |fields|
  {
    var tail := fields[1..];
    if k == 0 {
      forall j | 0 <= j < |tail| ensures !Blank(data, tail[j]) {
        assert tail[j] == fields[j + 1];
      }
      NoneMissingIff(data, tail);
    } else {
      forall j | 0 <= j < |tail| && j != k - 1 ensures !Blank(data, tail[j]) {
        assert tail[j] == fields[j + 1];
      }
      OnlyBlankListed(data, tail, k - 1);
    }
  }

  /** When exactly one required field is blank, the 422 names that field alone. */
  lemma OnlyBlankReported(data: map<string, Value>, fields: seq<string>, k: int)
    requires OnlyBlank(data, fields, k)
    ensures ValidateInput(data, fields) == Fail(Http(422, MissingMessage([fields[k]])))
  {
    OnlyBlankListed(data, fields, k);
  }

  /** Three required fields of which only the last is blank. */
  lemma LastOfThreeReported(data: map<string, Value>, fields: seq<string>)
    requires |fields| == 3
    requires !Blank(data, fields[0]) && !HoldsArray(data, fields[0])
    requires !Blank(data, fields[1]) && !HoldsArray(data, fields[1])
    requires Blank(data, fields[2]) && !HoldsArray(data, fields[2])
    ensures ValidateInput(data, fields) == Fail(Http(422, MissingMessage([fields[2]])))
  {
    forall j | 0 <= j < |fields|
      ensures !HoldsArray(data, fields[j]) && (j != 2 ==> !Blank(data, fields[j]))
    {
      if j == 0 {
      } else if j == 1 {
      } else {
      }
    }
    OnlyBlankReported(data, fields, 2);
  }

  /** Two required fields of which only the first is blank. */
  lemma FirstOfTwoReported(data: map<string, Value>, fields: seq<string>)
    requires |fields| == 2
    requires Blank(data, fields[0]) && !HoldsArray(data, fields[0])
    requires !Blank(data, fields[1]) && !HoldsArray(data, fields[1])
    ensures ValidateInput(data, fields) == Fail(Http(422, MissingMessage([fields[0]])))
  {
    forall j | 0 <= j < |fields|
      ensures !HoldsArray(data, fields[j]) && (j != 0 ==> !Blank(data, fields[j]))
    {
      if j == 0 {
      } else {
      }
    }
    OnlyBlankReported(data, fields, 0);
  }

  /** Three required fields of which the last was sent as the number zero or the empty string. */
  lemma ZeroLastOfThreeReported(data: map<string, Value>, fields: seq<string>)
    requires |fields| == 3 && fields[2] in data && data[fields[2]] in {Int(0), Str("")}
    requires !Blank(data, fields[0]) && !HoldsArray(data, fields[0])
    requires !Blank(data, fields[1]) && !HoldsArray(data, fields[1])
    ensures ValidateInput(data, fields) == Fail(Http(422, MissingMessage([fields[2]])))
  {
    if data[fields[2]] == Int(0) {
      NumberZeroIsBlank(data, fields[2]);
    } else {
      WhitespaceIsBlank(data, fields[2]);
    }
    LastOfThreeReported(data, fields);
  }

  /** Two required fields of which the first was sent as the empty string. */
  lemma EmptyFirstOfTwoReported(data: map<string, Value>, fields: seq<string>)
    requires |fields| == 2 && fields[0] in data && data[fields[0]] == Str("")
    requires !Blank(data, fields[1]) && !HoldsArray(data, fields[1])
    ensures ValidateInput(data, fields) == Fail(Http(422, MissingMessage([fields[0]])))
  {
    WhitespaceIsBlank(data, fields[0]);
    FirstOfTwoReported(data, fields);
  }

  /** A text field holding only whitespace (or nothing) counts as missing. */
  lemma WhitespaceIsBlank(data: map<string, Value>, field: string)
    requires field in data && data[field].Str?
    requires forall k :: 0 <= k < |data[field].s| ==> PhpSpace(data[field].s[k])
    ensures Blank(data, field)
  {
    TrimEmptyIff(data[field].s, PhpSpace);
  }

  /** A supplied text field holds some character other than whitespace. */
  lemma SuppliedTextIsNotWhitespace(data: map<string, Value>, field: string)
    requires field in data && data[field].Str? && !Blank(data, field)
    ensures exists k :: 0 <= k < |data[field].s| && !PhpSpace(data[field].s[k])
  {
    TrimEmptyIff(data[field].s, PhpSpace);
  }

  /** The number 0 in a required field counts as missing. */
  lemma NumberZeroIsBlank(data: map<string, Value>, field: string)
    requires field in data && data[field] == Int(0)
    ensures Blank(data, field)
  {
    assert IntToString(0) == "0";
    assert Trim("0", PhpSpace) == "0";
  }

  // --------------------------------------------------------- reading fields

  /** `$data[$key] ?? $default`: an absent field and a `null` one both give
      the default.  Reading an absent key without `??` gives `null`. */
  function Field(data: map<string, Value>, key: string, default: Value): Value {
    if key in data && !data[key].Null? then data[key] else default
  }

  /** The longest run of decimal digits that `s` starts with. */
  function LeadingDigits(s: string): (r: string)
    ensures |r| <= |s| && r == s[..|r|]
    ensures forall k :: 0 <= k < |r| ==> IsDigit(r[k])
    ensures |r| < |s| ==> !IsDigit(s[|r|])
  {
    if s == [] || !IsDigit(s[0]) then []
    else
      var rest := LeadingDigits(s[1..]);
      [s[0]] + rest
  }

  /** PHP's `(int)` on a string that starts with an integer: an optional
      sign and the digits after it; 0 when no digit comes first. */
  function StringToInt(s: string): int {
    if s != [] && (s[0] == '-' || s[0] == '+') then
      var n: int := DigitsValue(LeadingDigits(s[1..]));
      if s[0] == '-' then -n else n
    else
      DigitsValue(LeadingDigits(s))
  }

  /** PHP's `(int)` cast of a decoded JSON value. */
  function IntOf(v: Value): int {
    match v
    case Null => 0
    case Bool(b) => if b then 1 else 0
    case Int(i) => i
    case Str(s) => StringToInt(s)
    case Array(es) => if es == [] then 0 else 1
  }

  lemma {:induction false} DigitsLead(s: string)
    requires forall k :: 0 <= k < |s| ==> IsDigit(s[k])
    ensures LeadingDigits(s) == s
  {
    if s != [] {
      DigitsLead(s[1..]);
      assert s == [s[0]] + s[1..];
    }
  }

  /** `(int)` reads PHP's decimal text of an integer back as that integer. */
  lemma IntOfRoundTrip(i: int)
    ensures IntOf(Str(IntToString(i))) == i
  {
    var n := NatToString(if i < 0 then -i else i);
    DigitsLead(n);
    assert IsDigit(n[0]);
    if i < 0 {
      var s := "-" + n;
      assert s[0] == '-' && s[1..] == n;
    }
  }

  /** Casting a scalar's text gives the same integer as casting the scalar. */
  lemma CastAgreesWithText(v: Value)
    requires !v.Array?
    ensures IntOf(Str(ScalarText(v))) == IntOf(v)
  {
    match v
    case Int(i) => IntOfRoundTrip(i);
    case Bool(b) =>
      if b {
        assert LeadingDigits("1") == "1";
        assert DigitsValue("1") == 1 by { assert "1"[..0] == ""; }
      }
    case _ =>
  }

  /** A number that passed validation is never 0 once cast. */
  lemma ValidatedNumberIsNonZero(data: map<string, Value>, field: string)
    requires field in data && data[field].Int? && !Blank(data, field)
    ensures IntOf(data[field]) != 0
  {
    if data[field].i == 0 {
      NumberZeroIsBlank(data, field);
    }
  }

  /** `sanitizeInput($v)` on a field the handler uses as text.  An array
      reads as "" here (see the README). */
  function TextOf(v: Value, stripTags: string -> string): (r: string)
    ensures !v.Array? ==> Str(r) == SanitizeInput(v, stripTags)
    ensures forall k :: 0 <= k < |r| ==> !HtmlSpecial(r[k])
  {
    if v.Array? then "" else SanitizeText(ScalarText(v), stripTags)
  }

  /** `(int)($data[$key] ?? $default)`; a plain `(int)$data[$key]` is the
      same with default 0, because an absent key reads as `null`. */
  function IntField(data: map<string, Value>, key: string, default: int): int {
    IntOf(Field(data, key, Int(default)))
  }

  /** `sanitizeInput($data[$key] ?? $default)`; the default is sanitized too. */
  function TextField(data: map<string, Value>, key: string, default: string, stripTags: string -> string): string {
    TextOf(Field(data, key, Str(default)), stripTags)
  }

  /** A field used as text without sanitizing (a password). */
  function RawOf(v: Value): string {
    if v.Array? then "" else ScalarText(v)
  }
}
