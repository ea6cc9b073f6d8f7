/** `extractJson` of backend/src/services/llmQuizGenerator.js: finds the JSON
    object in a model reply and repairs it before parsing. `JSON.parse` is an
    oracle `parse` from text to the parsed reply, `None` when it throws. */
module JsonRepair {
  import opened Wrappers
  import opened JsBuiltins
  import opened QuizData

  /** What `extractJson` throws; `ParseFailed` carries the `raw` text. */
  datatype ExtractError = NoObject | NoClosingBrace | ParseFailed(raw: string)

  // ------------------------------------------------------- quote repair

  predicate IsSmartDouble(c: char) { c == '\U{201C}' || c == '\U{201D}' }

  predicate IsSmartSingle(c: char) { c == '\U{2018}' || c == '\U{2019}' }

  /** `text.replace(/[“”]/g, '"').replace(/[‘’]/g, "'")`. */
  function NormalizeQuotes(t: string): (r: string)
    ensures |r| == |t|
    ensures forall i :: 0 <= i < |t| && IsSmartDouble(t[i]) ==> r[i] == '"'
    ensures forall i :: 0 <= i < |t| && IsSmartSingle(t[i]) ==> r[i] == '\''
    ensures forall i :: 0 <= i < |t| && !IsSmartDouble(t[i]) && !IsSmartSingle(t[i]) ==> r[i] == t[i]
  {
    if t == [] then []
    else
      var c := if IsSmartDouble(t[0]) then '"' else if IsSmartSingle(t[0]) then '\'' else t[0];
      [c] + NormalizeQuotes(t[1..])
  }

  // --------------------------------------------------------- brace scan

  function BraceStep(c: char): int {
    if c == '{' then 1 else if c == '}' then -1 else 0
  }

  /** The number of `{` minus the number of `}` in `s`; quotes and string
      literals play no part. */
  function Depth(s: string): int {
    if s == [] then 0 else Depth(s[..|s| - 1]) + BraceStep(s[|s| - 1])
  }

  /** The running depth of the scan that starts at `t[f]`, after `t[k]`. */
  function DepthTo(t: string, f: nat, k: nat): int
    requires f <= k < |t|
    decreases k
  {
    (if k == f then 0 else DepthTo(t, f, k - 1)) + BraceStep(t[k])
  }

  /** The running depth is the brace count of the text scanned so far. */
  lemma {:induction false} DepthToIsDepth(t: string, f: nat, k: nat)
    requires f <= k < |t|
    ensures DepthTo(t, f, k) == Depth(t[f..k + 1])
    decreases k
  {
    var s := t[f..k + 1];
    assert s[..|s| - 1] == t[f..k];
    if k == f {
      assert t[f..k] == [];
    } else {
      DepthToIsDepth(t, f, k - 1);
    }
  }

  /** The scan from `t[f]` first brings the depth back to 0 at index `e`. */
  predicate ClosesAt(t: string, f: nat, e: nat) {
    && f <= e < |t|
    && DepthTo(t, f, e) == 0
    && forall k :: f <= k < e ==> DepthTo(t, f, k) > 0
  }

  /** The depth counted from `t[f]` stays positive to the end of `t`. */
  predicate NeverCloses(t: string, f: nat)
    requires f <= |t|
  {
    forall k :: f <= k < |t| ==> DepthTo(t, f, k) > 0
  }

  /** The scan that starts on a `{` has at most one place where it closes. */
  lemma ClosesAtUnique(t: string, f: nat, e1: nat, e2: nat)
    requires ClosesAt(t, f, e1) && ClosesAt(t, f, e2)
    ensures e1 == e2
  {
  }

  /** The `for` loop of `extractJson`: from the first `{`, count `{` up and
      `}` down and stop at the first `}` that brings the count to 0.
      Returns -1 when the count never gets there. */
  method MatchingClose(t: string, first: nat) returns (endIndex: int)
    requires first < |t| && t[first] == '{'
    ensures endIndex == -1 ==> NeverCloses(t, first)
    ensures endIndex != -1 ==> endIndex >= first && ClosesAt(t, first, endIndex)
  {
    var stack := 0;
    endIndex := -1;
    var i := first;
    while i < |t|
      invariant first <= i <= |t|
      invariant i == first ==> stack == 0
      invariant i > first ==> stack == DepthTo(t, first, i - 1) > 0
      invariant forall k :: first <= k < i ==> DepthTo(t, first, k) > 0
    {
      
      var ch := t[i];
      if ch == '{' {
        stack := stack + 1;
      } else if ch == '}' {
        stack := stack - 1;
        if stack == 0 {
          endIndex := i;
          break;
        }
      }
      i := i + 1;
    }
  }

  /** The text `extractJson` passes on to the comma repair, or the error it
      raises before that: from the first `{` to the `}` where the depth scan
      closes, else the greedy match of `/\{[\s\S]*\}/`, which runs from the
      first `{` to the last `}`. */
  ghost function Span(text: string): Result<string, ExtractError> {
    SpanOf(NormalizeQuotes(text))
  }

  /** The span of text whose quotes are already repaired. */
  ghost function SpanOf(t: string): Result<string, ExtractError> {
    var f := IndexOf(t, '{');
    if f == -1 then Failure(NoObject)
    else
      var e := CloseFrom(t, f, f);
      if e != -1 then Success(t[f..e + 1])
      else
        var l := LastIndexOf(t, '}');
        if l < f then Failure(NoClosingBrace) else Success(t[f..l + 1])
  }

  /** The first index from `k` on where the scan from `t[f]` is back at
      depth 0, or -1 when there is none. */
  function CloseFrom(t: string, f: nat, k: nat): (e: int)
    requires f <= k <= |t|
    ensures e == -1 || k <= e < |t|
    decreases |t| - k
  {
    if k == |t| then -1
    else if DepthTo(t, f, k) == 0 then k
    else CloseFrom(t, f, k + 1)
  }

  /** Searched from before the place where the scan closes, the search
      finds that place. */
  lemma {:induction false} CloseFromCloses(t: string, f: nat, k: nat, e: nat)
    requires f <= k <= e && ClosesAt(t, f, e)
    ensures CloseFrom(t, f, k) == e
    decreases e - k
  {
    if k < e {
      CloseFromCloses(t, f, k + 1, e);
    }
  }

  /** When the depth stays positive from `k` to the end, the search finds
      nothing. */
  lemma {:induction false} CloseFromNever(t: string, f: nat, k: nat)
    requires f <= k <= |t|
    requires forall j :: k <= j < |t| ==> DepthTo(t, f, j) > 0
    ensures CloseFrom(t, f, k) == -1
    decreases |t| - k
  {
    if k < |t| {
      CloseFromNever(t, f, k + 1);
    }
  }

  // ------------------------------------------------- trailing commas

  predicate IsCloser(c: char) { c == '}' || c == ']' }

  predicate IsCommaOrSpace(c: char) { c == ',' || IsJsWhitespace(c) }

  /** At index `p` of `t` stands a comma that only whitespace separates from
      a `}` or `]`: a match of `/,\s*([}\]])/` at `p`. */
  predicate TrailingCommaAt(t: string, p: nat) {
    p < |t| && t[p] == ',' && CloserOf(t, p) < |t| && IsCloser(t[CloserOf(t, p)])
  }

  /** The index just past the whitespace run that follows index `p`: where
      the closing bracket of a match at `p` has to stand. */
  function CloserOf(t: string, p: nat): (e: nat)
    requires p < |t|
    ensures p < e <= |t|
  {
    p + 1 + LeadingWhitespace(t[p + 1..])
  }

  /** `t.replace(/,\s*([}\]])/g, "$1")`: one left-to-right pass that replaces
      each match by its closing bracket and resumes after it. */
  function StripTrailingCommas(t: string): string
    decreases |t|
  {
    if t == [] then []
    else if TrailingCommaAt(t, 0) then
      var k := CloserOf(t, 0);
      [t[k]] + StripTrailingCommas(t[k + 1..])
    else
      [t[0]] + StripTrailingCommas(t[1..])
  }

  /** The comma pass deletes nothing but commas and whitespace: every other
      character survives, in order. */
  lemma {:induction false} StripKeepsSignificant(t: string)
    ensures DeleteAll(StripTrailingCommas(t), IsCommaOrSpace) == DeleteAll(t, IsCommaOrSpace)
    decreases |t|
  {
    if t != [] {
      if TrailingCommaAt(t, 0) {
        var k := CloserOf(t, 0);
        var junk, rest := t[..k], t[k + 1..];
        assert t == junk + ([t[k]] + rest);
        forall i | 0 <= i < |junk| ensures IsCommaOrSpace(junk[i]) {
          if i > 0 {
            assert junk[i] == t[1..][..k - 1][i - 1];
          }
        }
        JunkDropped(junk, [t[k]] + rest);
        StripKeepsSignificant(rest);
        assert StripTrailingCommas(t) == [t[k]] + StripTrailingCommas(rest);
        KeptStep(t[k], rest, StripTrailingCommas(rest));
      } else {
        StripKeepsSignificant(t[1..]);
        assert t == [t[0]] + t[1..];
        KeptStep(t[0], t[1..], StripTrailingCommas(t[1..]));
      }
    }
  }

  /** Commas and whitespace in front of `rest` leave nothing behind. */
  lemma JunkDropped(junk: string, rest: string)
    requires forall i :: 0 <= i < |junk| ==> IsCommaOrSpace(junk[i])
    ensures DeleteAll(junk + rest, IsCommaOrSpace) == DeleteAll(rest, IsCommaOrSpace)
  {
    DeleteAllEmpty(junk);
    DeleteAllAppend(junk, rest, IsCommaOrSpace);
  }

  /** The same character in front of two texts with the same significant
      characters. */
  lemma KeptStep(c: char, rest: string, stripped: string)
    requires DeleteAll(stripped, IsCommaOrSpace) == DeleteAll(rest, IsCommaOrSpace)
    ensures DeleteAll([c] + stripped, IsCommaOrSpace) == DeleteAll([c] + rest, IsCommaOrSpace)
  {
    DeleteAllAppend([c], stripped, IsCommaOrSpace);
    DeleteAllAppend([c], rest, IsCommaOrSpace);
  }

  /** Text made only of commas and whitespace is deleted entirely. */
  lemma {:induction false} DeleteAllEmpty(s: string)
    requires forall i :: 0 <= i < |s| ==> IsCommaOrSpace(s[i])
    ensures DeleteAll(s, IsCommaOrSpace) == []
  {
    if s != [] {
      DeleteAllEmpty(s[1..]);
    }
  }

  /** Without a comma followed by whitespace and a closing bracket the
      pass changes nothing. */
  lemma {:induction false} StripIdentity(t: string)
    requires forall p: nat :: p < |t| ==> !TrailingCommaAt(t, p)
    ensures StripTrailingCommas(t) == t
    decreases |t|
  {
    if t != [] {
      forall p: nat | p < |t| - 1 ensures !TrailingCommaAt(t[1..], p) {
        assert t[1..][p + 1..] == t[p + 2..];
        assert !TrailingCommaAt(t, p + 1);
      }
      StripIdentity(t[1..]);
    }
  }

  /** The pass is not idempotent: `,,}` becomes `,}`, which a second pass
      would turn into `}`. */
  lemma StripOnePass()
    ensures StripTrailingCommas(",,}") == ",}"
    ensures StripTrailingCommas(",}") == "}"
  {
    assert !TrailingCommaAt(",,}", 0) by { assert LeadingWhitespace(",}") == 0; }
    assert ",,}"[1..] == ",}";
    assert TrailingCommaAt(",}", 0) by { assert LeadingWhitespace("}") == 0; }
    assert ",}"[2..] == [];
  }

  /** A match is a comma, then whitespace only, then a closing bracket. */
  lemma MatchShape(t: string, p: nat)
    requires TrailingCommaAt(t, p)
    ensures var e := CloserOf(t, p); t[p] == ',' && AllWhitespace(t[p + 1..e]) && IsCloser(t[e])
  {
    var n := LeadingWhitespace(t[p + 1..]);
    assert t[p + 1..][..n] == t[p + 1..p + 1 + n];
  }

  /** `ms` lists matches at or after `from`, each starting after the
      closing bracket of the one before. */
  predicate MatchList(t: string, ms: seq<nat>, from: nat)
    decreases |ms|
  {
    ms == [] || (from <= ms[0] && TrailingCommaAt(t, ms[0]) && MatchList(t, ms[1..], CloserOf(t, ms[0]) + 1))
  }

  /** The matches a global regular-expression scan from `from` finds: at
      each index either a match, after whose closing bracket the scan
      resumes, or one step on. */
  function Matches(t: string, from: nat): (ms: seq<nat>)
    ensures MatchList(t, ms, from)
    decreases |t| - from
  {
    if from >= |t| then []
    else if TrailingCommaAt(t, from) then
      var rest := Matches(t, CloserOf(t, from) + 1);
      assert ([from] + rest)[1..] == rest;
      [from] + rest
    else Matches(t, from + 1)
  }

  /** `t[from..]` with each listed match replaced by its closing bracket. */
  function ReplaceMatches(t: string, ms: seq<nat>, from: nat): string
    requires from <= |t| && MatchList(t, ms, from)
    decreases |ms|
  {
    if ms == [] then t[from..]
    else
      var e := CloserOf(t, ms[0]);
      t[from..ms[0]] + ([t[e]] + ReplaceMatches(t, ms[1..], e + 1))
  }

  /** The comma pass is the global replace: the text between the matches of
      a left-to-right scan is kept as it is, and each match (a comma,
      whitespace, a closing bracket) becomes its closing bracket. */
  lemma StripReplacesMatches(t: string)
    ensures StripTrailingCommas(t) == ReplaceMatches(t, Matches(t, 0), 0)
  {
    StripFrom(t, 0);
    assert t[0..] == t;
  }

  lemma {:induction false} StripFrom(t: string, from: nat)
    requires from <= |t|
    ensures StripTrailingCommas(t[from..]) == ReplaceMatches(t, Matches(t, from), from)
    decreases |t| - from
  {
    if from == |t| {
      assert t[from..] == [];
    } else if TrailingCommaAt(t, from) {
      StripFrom(t, CloserOf(t, from) + 1);
      StripMatchCase(t, from);
    } else {
      StripFrom(t, from + 1);
      StripOtherCase(t, from);
    }
  }

  /** The induction step at a match. */
  lemma StripMatchCase(t: string, from: nat)
    requires TrailingCommaAt(t, from)
    requires var e := CloserOf(t, from);
      StripTrailingCommas(t[e + 1..]) == ReplaceMatches(t, Matches(t, e + 1), e + 1)
    ensures StripTrailingCommas(t[from..]) == ReplaceMatches(t, Matches(t, from), from)
  {
    StripAtMatch(t, from);
    ReplaceAtMatch(t, from);
  }

  /** The scan finds the match at `from` and resumes after its bracket. */
  lemma MatchesAt(t: string, from: nat)
    requires TrailingCommaAt(t, from)
    ensures Matches(t, from) == [from] + Matches(t, CloserOf(t, from) + 1)
  {
  }

  /** The induction step anywhere else. */
  lemma StripOtherCase(t: string, from: nat)
    requires from < |t| && !TrailingCommaAt(t, from)
    requires StripTrailingCommas(t[from + 1..]) == ReplaceMatches(t, Matches(t, from + 1), from + 1)
    ensures StripTrailingCommas(t[from..]) == ReplaceMatches(t, Matches(t, from), from)
  {
    StripAtOther(t, from);
    ReplaceAtOther(t, from);
  }

  /** Off a match, the scan steps on. */
  lemma MatchesOther(t: string, from: nat)
    requires from < |t| && !TrailingCommaAt(t, from)
    ensures Matches(t, from) == Matches(t, from + 1)
  {
  }

  /** Off a match, the replace keeps the character at `from`. */
  lemma ReplaceAtOther(t: string, from: nat)
    requires from < |t| && !TrailingCommaAt(t, from)
    ensures ReplaceMatches(t, Matches(t, from), from)
      == [t[from]] + ReplaceMatches(t, Matches(t, from + 1), from + 1)
  {
    MatchesOther(t, from);
    ReplaceStep(t, Matches(t, from + 1), from);
  }

  /** One step of the pass at a match. */
  lemma StripAtMatch(t: string, from: nat)
    requires TrailingCommaAt(t, from)
    ensures StripTrailingCommas(t[from..]) == [t[CloserOf(t, from)]] + StripTrailingCommas(t[CloserOf(t, from) + 1..])
  {
    var s, e := t[from..], CloserOf(t, from);
    assert s[1..] == t[from + 1..];
    assert TrailingCommaAt(s, 0);
    assert s[e - from + 1..] == t[e + 1..];
  }

  /** One step of the pass anywhere else. */
  lemma StripAtOther(t: string, from: nat)
    requires from < |t| && !TrailingCommaAt(t, from)
    ensures StripTrailingCommas(t[from..]) == [t[from]] + StripTrailingCommas(t[from + 1..])
  {
    var s := t[from..];
    assert s[1..] == t[from + 1..];
    assert !TrailingCommaAt(s, 0);
  }

  /** A match at `from` leaves its closing bracket. */
  lemma ReplaceAtMatch(t: string, from: nat)
    requires TrailingCommaAt(t, from)
    ensures ReplaceMatches(t, Matches(t, from), from)
      == [t[CloserOf(t, from)]] + ReplaceMatches(t, Matches(t, CloserOf(t, from) + 1), CloserOf(t, from) + 1)
  {
    MatchesAt(t, from);
    ReplaceCons(t, from, Matches(t, CloserOf(t, from) + 1));
  }

  /** `ReplaceMatches` from a listed match `p`: its closing bracket, then
      the rest. */
  lemma ReplaceCons(t: string, p: nat, rest: seq<nat>)
    requires p <= |t| && MatchList(t, [p] + rest, p)
    ensures TrailingCommaAt(t, p) && MatchList(t, rest, CloserOf(t, p) + 1)
    ensures ReplaceMatches(t, [p] + rest, p) == [t[CloserOf(t, p)]] + ReplaceMatches(t, rest, CloserOf(t, p) + 1)
  {
    assert ([p] + rest)[0] == p && ([p] + rest)[1..] == rest;
    assert t[p..p] == [];
  }

  /** An index before the first listed match is kept. */
  lemma ReplaceStep(t: string, ms: seq<nat>, from: nat)
    requires from < |t| && MatchList(t, ms, from + 1)
    ensures MatchList(t, ms, from)
    ensures ReplaceMatches(t, ms, from) == [t[from]] + ReplaceMatches(t, ms, from + 1)
  {
    if ms == [] {
      assert t[from..] == [t[from]] + t[from + 1..];
    } else {
      var e := CloserOf(t, ms[0]);
      var tail := [t[e]] + ReplaceMatches(t, ms[1..], e + 1);
      assert t[from..ms[0]] == [t[from]] + t[from + 1..ms[0]];
      AppendAssoc([t[from]], t[from + 1..ms[0]], tail);
    }
  }

  lemma AppendAssoc<T>(a: seq<T>, b: seq<T>, c: seq<T>)
    ensures (a + b) + c == a + (b + c)
  {
  }

  /** Control characters U+0000 to U+001F. */
  predicate IsControl(c: char) { c < '\U{20}' }

  /** `t.replace(/[\u0000-\u001F]+/g, "")`, the text of the one retry. */
  function RemoveControl(t: string): string {
    DeleteAll(t, IsControl)
  }

  // ------------------------------------------------------ extractJson

  /** The outcome of `extractJson(text)`: the span's trailing commas are
      removed and parsed; if that throws, it is parsed once more without
      control characters; if that throws too, the error carries `text`. */
  ghost function ExtractSpec(text: string, parse: string -> Option<ParsedReply>): Result<ParsedReply, ExtractError> {
    match Span(text)
    case Failure(e) => Failure(e)
    case Success(s) =>
      var t := StripTrailingCommas(s);
      if parse(t).Some? then Success(parse(t).value)
      else if parse(RemoveControl(t)).Some? then Success(parse(RemoveControl(t)).value)
      else Failure(ParseFailed(text))
  }

  /** `extractJson(text)`. */
  method ExtractJson(text: string, parse: string -> Option<ParsedReply>)
    returns (r: Result<ParsedReply, ExtractError>)
    ensures r == ExtractSpec(text, parse)
  {
    var span := FindSpan(NormalizeQuotes(text));
    if span.Failure? {
      return Failure(span.error);
    }
    var t := StripTrailingCommas(span.value);
    var first := parse(t);
    if first.Some? {
      return Success(first.value);
    }
    var cleaned := RemoveControl(t);
    var second := parse(cleaned);
    if second.Some? {
      return Success(second.value);
    }
    return Failure(ParseFailed(text));
  }

  /** The search part of `extractJson`, on the quote-repaired text: the
      first `{`, the depth scan from it, and the greedy match when the scan
      never closes. */
  method FindSpan(t: string) returns (span: Result<string, ExtractError>)
    ensures span == SpanOf(t)
  {
    var firstBrace := IndexOf(t, '{');
    if firstBrace == -1 {
      return Failure(NoObject);
    }
    var endIndex := MatchingClose(t, firstBrace);
    if endIndex == -1 {
      CloseFromNever(t, firstBrace, firstBrace);
      var lastBrace := LastIndexOf(t, '}');
      if lastBrace < firstBrace {
        return Failure(NoClosingBrace);
      }
      return Success(t[firstBrace..lastBrace + 1]);
    }
    CloseFromCloses(t, firstBrace, firstBrace, endIndex);
    return Success(t[firstBrace..endIndex + 1]);
  }

  // ----------------------------------------------- properties of the span

  /** Quote repair neither creates nor removes braces. */
  lemma NormalizeKeepsBraces(text: string, c: char)
    requires c == '{' || c == '}'
    ensures c in NormalizeQuotes(text) <==> c in text
  {
    var t := NormalizeQuotes(text);
    if c in text {
      var i :| 0 <= i < |text| && text[i] == c;
      assert t[i] == c;
    }
    if c in t {
      var i :| 0 <= i < |t| && t[i] == c;
      assert text[i] == c;
    }
  }

  /** Extraction fails with "no JSON object found" exactly when the reply
      contains no `{`. */
  lemma NoObjectIff(text: string, parse: string -> Option<ParsedReply>)
    ensures ExtractSpec(text, parse) == Failure(NoObject) <==> '{' !in text
  {
    NormalizeKeepsBraces(text, '{');
  }

  /** When the depth scan closes, the span starts at the first `{`, ends
      with `}`, is brace-balanced, and no shorter non-empty prefix of it is. */
  lemma BalancedSpan(t: string)
    requires '{' in t && !NeverCloses(t, IndexOf(t, '{'))
    ensures SpanOf(t).Success?
    ensures var f := IndexOf(t, '{'); var s := SpanOf(t).value;
      && f + |s| <= |t| && s == t[f..f + |s|]
      && BalancedObject(s)
  {
    var e := BalancedSpanValue(t);
    ClosedSpan(t, IndexOf(t, '{'), e);
  }

  /** `s` opens with `{`, closes with `}`, is brace-balanced, and no
      shorter non-empty prefix of it is. */
  predicate BalancedObject(s: string) {
    && |s| >= 2 && s[0] == '{' && s[|s| - 1] == '}'
    && Depth(s) == 0
    && forall k :: 1 <= k < |s| ==> Depth(s[..k]) > 0
  }

  /** The text from `t[f]` to the place `e` where the scan closes. */
  lemma ClosedSpan(t: string, f: nat, e: nat)
    requires ClosesAt(t, f, e) && t[f] == '{'
    ensures BalancedObject(t[f..e + 1])
  {
    var s := t[f..e + 1];
    DepthToIsDepth(t, f, e);
    forall k | 1 <= k < |s| ensures Depth(s[..k]) > 0 {
      PrefixDepth(t, f, e, k);
    }
    assert DepthTo(t, f, f) == 1;
    assert DepthTo(t, f, e - 1) > 0;
    assert s[|s| - 1] == t[e];
  }

  /** The span, when the depth scan closes at `e`. */
  lemma BalancedSpanValue(t: string) returns (e: nat)
    requires '{' in t && !NeverCloses(t, IndexOf(t, '{'))
    ensures var f := IndexOf(t, '{');
      && f < e && ClosesAt(t, f, e) && SpanOf(t) == Success(t[f..e + 1])
  {
    var f := IndexOf(t, '{');
    var k0 :| f <= k0 < |t| && DepthTo(t, f, k0) <= 0;
    e := FirstZero(t, f, k0);
    CloseFromCloses(t, f, f, e);
  }

  /** A prefix of the span has the running depth of the scan. */
  lemma PrefixDepth(t: string, f: nat, e: nat, k: nat)
    requires f <= e < |t| && 1 <= k <= e + 1 - f
    ensures Depth(t[f..e + 1][..k]) == DepthTo(t, f, f + k - 1)
  {
    assert t[f..e + 1][..k] == t[f..f + k];
    DepthToIsDepth(t, f, f + k - 1);
  }

  /** If the depth from `t[f]` falls to 0 or below at `k`, it first reaches
      exactly 0 at some `e <= k`, where it closes. */
  lemma {:induction false} FirstZero(t: string, f: nat, k: nat) returns (e: nat)
    requires f < |t| && t[f] == '{'
    requires f <= k < |t| && DepthTo(t, f, k) <= 0
    ensures e <= k && ClosesAt(t, f, e)
    decreases k
  {
    if forall j :: f <= j < k ==> DepthTo(t, f, j) > 0 {
      return k;
    } else {
      var j :| f <= j < k && DepthTo(t, f, j) <= 0;
      e := FirstZero(t, f, j);
    }
  }

  /** When the depth scan never closes, extraction fails with "no closing
      brace" exactly when no `}` follows the first `{`. */
  lemma GreedyNoClosingIff(t: string)
    requires '{' in t && NeverCloses(t, IndexOf(t, '{'))
    ensures SpanOf(t) == Failure(NoClosingBrace) <==> '}' !in t[IndexOf(t, '{')..]
  {
    GreedySpanValue(t);
    LastAtOrAfter(t, IndexOf(t, '{'), '}');
  }

  /** `c` occurs at or after `f` exactly when its last occurrence does. */
  lemma LastAtOrAfter(t: string, f: nat, c: char)
    requires f <= |t|
    ensures c in t[f..] <==> LastIndexOf(t, c) >= f
  {
    var l := LastIndexOf(t, c);
    if c in t[f..] {
      var i :| 0 <= i < |t[f..]| && t[f..][i] == c;
      assert t[f + i] == c && t[f + i] in t;
      forall j | l < j < |t| ensures t[j] != c {
        assert t[j] == t[l + 1..][j - l - 1];
      }
    }
    if l >= f {
      assert t[f..][l - f] == c;
    }
  }

  /** Otherwise the greedy span runs from the first `{` to the last `}` of
      the text. */
  lemma GreedySpan(t: string)
    requires '{' in t && NeverCloses(t, IndexOf(t, '{'))
    ensures SpanOf(t).Success? || SpanOf(t) == Failure(NoClosingBrace)
    ensures SpanOf(t).Success? ==> GreedyObject(t, IndexOf(t, '{'), SpanOf(t).value)
  {
    var f := IndexOf(t, '{');
    var l := LastIndexOf(t, '}');
    GreedySpanValue(t);
    if l >= f {
      GreedyShape(t, f, l);
    }
  }

  /** `s` is the text of `t` from `t[f]`, opens with `{`, closes with `}`,
      and no `}` of `t` comes after it. */
  predicate GreedyObject(t: string, f: nat, s: string) {
    && f + |s| <= |t| && s == t[f..f + |s|]
    && |s| >= 2 && s[0] == '{' && s[|s| - 1] == '}'
    && '}' !in t[f + |s|..]
  }

  /** The text from the `{` at `f` to the last `}` at `l`. */
  lemma GreedyShape(t: string, f: nat, l: nat)
    requires f <= l < |t| && t[f] == '{' && t[l] == '}' && '}' !in t[l + 1..]
    ensures GreedyObject(t, f, t[f..l + 1])
  {
    var s := t[f..l + 1];
    assert t[f + |s|..] == t[l + 1..];
  }

  /** The greedy span, when the depth scan never closes. */
  lemma GreedySpanValue(t: string)
    requires '{' in t && NeverCloses(t, IndexOf(t, '{'))
    ensures var f := IndexOf(t, '{'); var l := LastIndexOf(t, '}');
      SpanOf(t) == if l < f then Failure(NoClosingBrace) else Success(t[f..l + 1])
  {
    var f := IndexOf(t, '{');
    CloseFromNever(t, f, f);
    SpanOfUnclosed(t, f);
  }

  /** `SpanOf` once the search from the first `{` at `f` found nothing. */
  lemma SpanOfUnclosed(t: string, f: nat)
    requires f == IndexOf(t, '{') && CloseFrom(t, f, f) == -1
    ensures var l := LastIndexOf(t, '}');
      SpanOf(t) == if l < f then Failure(NoClosingBrace) else Success(t[f..l + 1])
  {
  }

  /** A `}` inside a string literal still counts: the span of `{"}"}` is
      `{"}`, which is not valid JSON, so such replies end in `ParseFailed`
      unless the oracle accepts the truncated text. */
  lemma StringBraceEndsSpan()
    ensures SpanOf("{\"}\"}") == Success("{\"}")
  {
    var t := "{\"}\"}";
    assert IndexOf(t, '{') == 0;
    
    assert ClosesAt(t, 0, 2);
    CloseFromCloses(t, 0, 0, 2);
    assert t[0..3] == "{\"}";
  }

  /** Extraction has exactly two outcomes of the parse step: a value from
      the first or the second (control-free) parse, or `ParseFailed` whose
      `raw` is the original reply, not the repaired text. */
  lemma ParseRetry(text: string, parse: string -> Option<ParsedReply>)
    requires Span(text).Success?
    ensures var t := StripTrailingCommas(Span(text).value);
      && (ExtractSpec(text, parse).Success? <==> parse(t).Some? || parse(RemoveControl(t)).Some?)
      && (parse(t).Some? ==> ExtractSpec(text, parse) == Success(parse(t).value))
      && (parse(t).None? && parse(RemoveControl(t)).Some? ==>
            ExtractSpec(text, parse) == Success(parse(RemoveControl(t)).value))
      && (ExtractSpec(text, parse).Failure? ==> ExtractSpec(text, parse) == Failure(ParseFailed(text)))
  {
  }
}
