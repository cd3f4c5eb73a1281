/**
 * The command parser of the strategy agent: the text a language model answers
 * with is searched for the first brace-delimited object, that object is decoded
 * as JSON, and the result is accepted only if it has the shape of a command.
 */
module LlmAgent {
  import opened Wrappers
  import opened Strings
  import opened Json

  predicate IsBrace(c: char) {
    c == '{' || c == '}'
  }

  /** `text[i..j + 1]` is a match of the pattern `\{[^{}]*\}`: an opening brace at
      `i`, a closing brace at `j`, and no brace of either kind in between. The
      character class also matches line breaks. */
  predicate BraceFreeSpan(text: string, i: int, j: int) {
    && 0 <= i < j < |text|
    && text[i] == '{' && text[j] == '}'
    && forall k :: i < k < j ==> !IsBrace(text[k])
  }

  /** The span `i..j` is the match `re.search` reports: no match starts earlier. */
  ghost predicate IsLeftmostSpan(text: string, i: int, j: int) {
    && BraceFreeSpan(text, i, j)
    && forall i', j' :: 0 <= i' < i ==> !BraceFreeSpan(text, i', j')
  }

  /** A match of the pattern: the index of its `{` and of its `}`. */
  datatype Span = Span(start: nat, close: nat)

  /** At most one match starts at a given position. */
  lemma SpanCloseUnique(text: string, i: int, j1: int, j2: int)
    requires BraceFreeSpan(text, i, j1) && BraceFreeSpan(text, i, j2)
    ensures j1 == j2
  {
  }

  /** The first brace of either kind at or after `k`, or `|text|` if there is none. */
  function NextBrace(text: string, k: nat): (j: nat)
    requires k <= |text|
    ensures k <= j <= |text|
    ensures j < |text| ==> IsBrace(text[j])
    ensures forall m :: k <= m < j ==> !IsBrace(text[m])
    decreases |text| - k
  {
    if k == |text| || IsBrace(text[k]) then k else NextBrace(text, k + 1)
  }

  /** The pattern tried at every position from `from` on, leftmost first, as
      `re.search` does. */
  function SearchFrom(text: string, from: nat): (r: Option<Span>)
    requires from <= |text|
    ensures r.Some? ==> from <= r.value.start && BraceFreeSpan(text, r.value.start, r.value.close)
    ensures r.Some? ==> forall i, j :: from <= i < r.value.start ==> !BraceFreeSpan(text, i, j)
    ensures r.None? ==> forall i, j :: from <= i ==> !BraceFreeSpan(text, i, j)
    decreases |text| - from
  {
    if from == |text| then None
    else
      var j := NextBrace(text, from + 1);
      if text[from] == '{' && j < |text| && text[j] == '}' then
        Some(Span(from, j))
      else
        assert forall j' :: !BraceFreeSpan(text, from, j');
        SearchFrom(text, from + 1)
  }

  /** `re.search(r'\{[^{}]*\}', text, re.DOTALL)`: the leftmost match, if any. */
  function FindSpan(text: string): (r: Option<Span>)
    ensures r.Some? ==> IsLeftmostSpan(text, r.value.start, r.value.close)
    ensures r.None? <==> forall i, j :: !BraceFreeSpan(text, i, j)
  {
    SearchFrom(text, 0)
  }

  /** The leftmost match is the only one `FindSpan` can report. */
  lemma LeftmostSpanFound(text: string, i: int, j: int)
    requires IsLeftmostSpan(text, i, j)
    ensures FindSpan(text) == Some(Span(i, j))
  {
    var r := FindSpan(text);
    assert r.Some?;
    var s := r.value;
    assert s.start == i;
    SpanCloseUnique(text, i, j, s.close);
  }

  /** `match.group(0)`: the text of a match, braces included. It opens with `{`,
      closes with `}`, holds no other brace, and `strip()` leaves it unchanged. */
  function MatchedText(text: string, s: Span): (m: string)
    requires BraceFreeSpan(text, s.start, s.close)
    ensures 2 <= |m| && m[0] == '{' && m[|m| - 1] == '}'
    ensures forall k :: 0 < k < |m| - 1 ==> !IsBrace(m[k])
    ensures Strip(m) == m
  {
    text[s.start..s.close + 1]
  }

  /** The shape check: a `dict` holding the keys `function`, `strategy` and
      `keywords`, the last of these a `list`. The value of `function` is not
      compared with anything, and neither `strategy` nor the list's elements are
      inspected. In terms of the object's members: `function` and `strategy`
      occur, and the last `keywords` member holds a list. */
  predicate IsCommand(v: JsonValue)
    ensures IsCommand(v) <==>
      && v.JObject?
      && HasKey(v.members, "function") && HasKey(v.members, "strategy")
      && exists i :: 0 <= i < |v.members| && v.members[i].key == "keywords" && IsLastKey(v.members, i)
           && v.members[i].value.JArray?
  {
    CommandKeys(v);
    && v.JObject?
    && var d := AsDict(v.members);
    && "function" in d && "strategy" in d && "keywords" in d
    && d["keywords"].JArray?
  }

  /** A `keywords` member, when there is one, has a last occurrence, whose
      value is the one the dict holds. */
  lemma CommandKeys(v: JsonValue)
    ensures v.JObject? && HasKey(v.members, "keywords") ==>
      exists i :: 0 <= i < |v.members| && v.members[i].key == "keywords" && IsLastKey(v.members, i)
  {
    if v.JObject? && HasKey(v.members, "keywords") {
      var i :| 0 <= i < |v.members| && v.members[i].key == "keywords";
      LastKeyExists(v.members, i);
    }
  }

  /** The decoded candidate, when it decodes and has the shape of a command. */
  function AcceptCandidate(raw: string, decode: string -> Option<JsonValue>): (r: Option<JsonValue>)
    ensures r.Some? <==> decode(raw).Some? && IsCommand(decode(raw).value)
    ensures r.Some? ==> r == decode(raw)
  {
    match decode(raw)
    case None => None
    case Some(command) => if IsCommand(command) then Some(command) else None
  }

  /** `OllamaAgent._parse_json_response`. `decode` stands for `json.loads`: it
      yields `None` where `json.loads` raises `JSONDecodeError`. */
  function ParseJsonResponse(text: string, decode: string -> Option<JsonValue>): (r: Option<JsonValue>)
    ensures r.Some? ==> IsCommand(r.value)
    ensures (forall i, j :: !BraceFreeSpan(text, i, j)) ==> r.None?
  {
    match FindSpan(text)
    case None => None
    case Some(s) =>
      var raw := Strip(MatchedText(text, s));
      AcceptCandidate(raw, decode)
  }

  /** The result depends only on the leftmost match: it is that match decoded,
      when the decoded value has the shape of a command, and `None` otherwise. A
      later match is never looked at. */
  lemma ParseUsesLeftmostSpan(text: string, decode: string -> Option<JsonValue>, i: int, j: int)
    requires IsLeftmostSpan(text, i, j)
    ensures var raw := text[i..j + 1];
      ParseJsonResponse(text, decode) ==
        (if decode(raw).Some? && IsCommand(decode(raw).value) then decode(raw) else None)
  {
    LeftmostSpanFound(text, i, j);
    var m := MatchedText(text, Span(i, j));
    assert Strip(m) == text[i..j + 1];
  }

  /** When the leftmost match is not a command, a later match that would be one
      does not rescue the response. */
  lemma LaterCandidateIgnored(text: string, decode: string -> Option<JsonValue>, i: int, j: int, i2: int, j2: int)
    requires IsLeftmostSpan(text, i, j)
    requires !(decode(text[i..j + 1]).Some? && IsCommand(decode(text[i..j + 1]).value))
    requires BraceFreeSpan(text, i2, j2) && i < i2
    requires decode(text[i2..j2 + 1]).Some? && IsCommand(decode(text[i2..j2 + 1]).value)
    ensures ParseJsonResponse(text, decode) == None
  {
    ParseUsesLeftmostSpan(text, decode, i, j);
  }

  /** A match has exactly one `{`. */
  lemma {:induction false} OneOpenBrace(m: string)
    requires 2 <= |m| && m[0] == '{'
    requires forall k :: 0 < k < |m| - 1 ==> !IsBrace(m[k])
    requires m[|m| - 1] == '}'
    ensures Count('{', m) == 1
  {
    assert Count('{', m[1..]) == 0;
  }

  /** What any faithful JSON decoder satisfies: each object in the value it
      returns opens with a `{` of the text. */
  ghost predicate DecodeCountsBraces(decode: string -> Option<JsonValue>) {
    forall s :: decode(s).Some? ==> ObjectCount(decode(s).value) <= Count('{', s)
  }

  /** A candidate with a single `{` that is accepted is a flat object. */
  lemma AcceptedCandidateFlat(m: string, decode: string -> Option<JsonValue>)
    requires DecodeCountsBraces(decode)
    requires Count('{', m) == 1
    requires AcceptCandidate(m, decode).Some?
    ensures IsFlatObject(AcceptCandidate(m, decode).value)
  {
    var v := AcceptCandidate(m, decode).value;
    assert decode(m) == Some(v);
    assert ObjectCount(v) <= 1;
    FlatWhenSingleObject(v);
  }

  /** With such a decoder, an accepted command never holds a nested object: the
      match it came from has room for one object only. */
  lemma NestedObjectNeverAccepted(text: string, decode: string -> Option<JsonValue>)
    requires DecodeCountsBraces(decode)
    ensures ParseJsonResponse(text, decode).Some? ==> IsFlatObject(ParseJsonResponse(text, decode).value)
  {
    var r := FindSpan(text);
    if r.Some? {
      var m := MatchedText(text, r.value);
      assert ParseJsonResponse(text, decode) == AcceptCandidate(m, decode);
      OneOpenBrace(m);
      if AcceptCandidate(m, decode).Some? {
        AcceptedCandidateFlat(m, decode);
      }
    }
  }

  /** The value of `function` need not be `"select_cards"`, `strategy` may be of
      any type, and so may the elements of `keywords`. */
  lemma ShapeOnlyChecked(f: JsonValue, strategy: JsonValue, xs: seq<JsonValue>)
    ensures IsCommand(JObject([Member("function", f), Member("strategy", strategy), Member("keywords", JArray(xs))]))
  {
    var ms := [Member("function", f), Member("strategy", strategy), Member("keywords", JArray(xs))];
    assert IsLastKey(ms, 0) && IsLastKey(ms, 1) && IsLastKey(ms, 2);
  }

  /** The match may run over several lines. */
  lemma SpanAcrossLines()
    ensures FindSpan("say {\n\"a\": 1\n} ok") == Some(Span(4, 13))
  {
    LeftmostSpanFound("say {\n\"a\": 1\n} ok", 4, 13);
  }
}
