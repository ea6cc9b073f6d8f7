/** The JavaScript built-ins the core calls, on finite strings and sequences:
    the `\s` character class and `trim`, `split`/`join` on one character,
    `endsWith`, `includes`, `slice(0, n)`, integer `toString`, `padStart`
    and the `%` operator. Strings are sequences of code points. */
module JsBuiltins {

  /** The characters matched by the regular-expression class `\s` and removed
      by `String.prototype.trim`: ECMAScript's WhiteSpace and LineTerminator. */
  predicate IsJsWhitespace(c: char) {
    || c == '\t' || c == '\n' || c == '\U{B}' || c == '\U{C}' || c == '\r' || c == ' '
    || c == '\U{A0}' || c == '\U{1680}' || ('\U{2000}' <= c <= '\U{200A}')
    || c == '\U{2028}' || c == '\U{2029}' || c == '\U{202F}' || c == '\U{205F}'
    || c == '\U{3000}' || c == '\U{FEFF}'
  }

  predicate AllWhitespace(s: string) {
    forall i :: 0 <= i < |s| ==> IsJsWhitespace(s[i])
  }

  /** Neither the first nor the last character is whitespace. */
  predicate IsTrimmed(s: string) {
    s == [] || (!IsJsWhitespace(s[0]) && !IsJsWhitespace(s[|s| - 1]))
  }

  // ---------------------------------------------------------------- trim

  /** The length of the leading whitespace: where `s.trimStart()` starts. */
  function LeadingWhitespace(s: string): (n: nat)
    ensures n <= |s| && AllWhitespace(s[..n])
    ensures n < |s| ==> !IsJsWhitespace(s[n])
  {
    if s != [] && IsJsWhitespace(s[0]) then
      var n := 1 + LeadingWhitespace(s[1..]);
      assert s[..n] == [s[0]] + s[1..][..n - 1];
      n
    else
      0
  }

  /** The length of the trailing whitespace: where `s.trimEnd()` ends. */
  function TrailingWhitespace(s: string): (n: nat)
    ensures n <= |s| && AllWhitespace(s[|s| - n..])
    ensures n < |s| ==> !IsJsWhitespace(s[|s| - n - 1])
  {
    if s != [] && IsJsWhitespace(s[|s| - 1]) then
      var m := TrailingWhitespace(s[..|s| - 1]);
      TrailingStep(s, m);
      m + 1
    else
      0
  }

  /** Whitespace trailing all but the last character, and a whitespace
      last character, trail `s` together. */
  lemma TrailingStep(s: string, m: nat)
    requires s != [] && IsJsWhitespace(s[|s| - 1])
    requires m <= |s| - 1 && AllWhitespace(s[..|s| - 1][|s| - 1 - m..])
    requires m < |s| - 1 ==> !IsJsWhitespace(s[..|s| - 1][|s| - 1 - m - 1])
    ensures AllWhitespace(s[|s| - (m + 1)..])
    ensures m + 1 < |s| ==> !IsJsWhitespace(s[|s| - (m + 1) - 1])
  {
    var init := s[..|s| - 1];
    WhitespaceConcat(init[|init| - m..], [s[|s| - 1]]);
    assert s[|s| - (m + 1)..] == init[|init| - m..] + [s[|s| - 1]];
  }

  /** `s.trim()`: the piece of `s` between its leading and its trailing
      whitespace. */
  function Trim(s: string): (r: string)
    ensures IsTrimmed(r)
    ensures var k := LeadingWhitespace(s);
      && k + |r| <= |s|
      && r == s[k..k + |r|]
      && AllWhitespace(s[..k])
      && AllWhitespace(s[k + |r|..])
  {
    var k := LeadingWhitespace(s);
    var t := s[k..];
    var n := TrailingWhitespace(t);
    assert s[k + |t| - n..] == t[|t| - n..];
    s[k..|s| - n]
  }

  /** Trimming yields the empty string exactly when the input is all whitespace. */
  lemma TrimEmptyIff(s: string)
    ensures Trim(s) == [] <==> AllWhitespace(s)
  {
    var k := LeadingWhitespace(s);
    var r := Trim(s);
    if r == [] {
      WhitespaceAround(s, k);
    } else {
      assert r[0] == s[k];
    }
  }

  /** Whitespace before and after `k` is whitespace throughout. */
  lemma WhitespaceAround(s: string, k: nat)
    requires k <= |s| && AllWhitespace(s[..k]) && AllWhitespace(s[k..])
    ensures AllWhitespace(s)
  {
    forall i | 0 <= i < |s| ensures IsJsWhitespace(s[i]) {
      if i < k {
        assert s[..k][i] == s[i];
      } else {
        assert s[k..][i - k] == s[i];
      }
    }
  }

  lemma WhitespaceConcat(a: string, b: string)
    requires AllWhitespace(a) && AllWhitespace(b)
    ensures AllWhitespace(a + b)
  {
  }

  // ------------------------------------------------------------ split/join

  /** `s.split(sep)` for a one-character separator: the runs between
      separators, in order, empty runs included; never an empty list. */
  function Split(s: string, sep: char): (r: seq<string>)
    ensures |r| >= 1
    ensures forall i :: 0 <= i < |r| ==> sep !in r[i]
  {
    if s == [] then [[]]
    else
      var rest := Split(s[1..], sep);
      if s[0] == sep then [[]] + rest else [[s[0]] + rest[0]] + rest[1..]
  }

  /** `parts.join(sep)` for a one-character separator. */
  function Join(parts: seq<string>, sep: char): string {
    if parts == [] then []
    else if |parts| == 1 then parts[0]
    else parts[0] + [sep] + Join(parts[1..], sep)
  }

  /** Splitting loses nothing: joining the pieces gives the input back. */
  lemma {:induction false} JoinSplit(s: string, sep: char)
    ensures Join(Split(s, sep), sep) == s
  {
    if s != [] {
      var rest := Split(s[1..], sep);
      JoinSplit(s[1..], sep);
      if s[0] == sep {
        assert Split(s, sep) == [[]] + rest;
        JoinCons([], rest, sep);
      } else {
        assert Split(s, sep) == [[s[0]] + rest[0]] + rest[1..];
        JoinGlue(s[0], rest, sep);
      }
      assert [s[0]] + s[1..] == s;
    }
  }

  lemma JoinCons(x: string, rest: seq<string>, sep: char)
    requires |rest| >= 1
    ensures Join([x] + rest, sep) == x + [sep] + Join(rest, sep)
  {
    assert ([x] + rest)[1..] == rest;
  }

  /** A character glued to the first piece comes first in the join. */
  lemma JoinGlue(c: char, rest: seq<string>, sep: char)
    requires |rest| >= 1
    ensures Join([[c] + rest[0]] + rest[1..], sep) == [c] + Join(rest, sep)
  {
    var r := [[c] + rest[0]] + rest[1..];
    if |rest| > 1 {
      assert r[1..] == rest[1..];
      assert Join(r, sep) == ([c] + rest[0]) + [sep] + Join(rest[1..], sep);
      assert Join(rest, sep) == rest[0] + [sep] + Join(rest[1..], sep);
    }
  }

  /** A piece free of the separator is glued to the first piece of what follows. */
  lemma {:induction false} SplitPrefix(a: string, rest: string, sep: char)
    requires sep !in a
    ensures Split(a + rest, sep) == [a + Split(rest, sep)[0]] + Split(rest, sep)[1..]
  {
    if a != [] {
      var r := Split(rest, sep);
      assert (a + rest)[1..] == a[1..] + rest;
      var t := Split(a[1..] + rest, sep);
      SplitPrefix(a[1..], rest, sep);
      assert t[0] == a[1..] + r[0] && t[1..] == r[1..];
      assert (a + rest)[0] == a[0];
      assert Split(a + rest, sep) == [[a[0]] + t[0]] + t[1..];
      assert [a[0]] + (a[1..] + r[0]) == a + r[0];
    } else {
      var r := Split(rest, sep);
      assert a + rest == rest;
      assert a + r[0] == r[0];
      assert r == [r[0]] + r[1..];
    }
  }

  /** Joining pieces that do not contain the separator and splitting again
      gives the same pieces. */
  lemma {:induction false} SplitJoin(parts: seq<string>, sep: char)
    requires |parts| >= 1
    requires forall i :: 0 <= i < |parts| ==> sep !in parts[i]
    ensures Split(Join(parts, sep), sep) == parts
  {
    if |parts| == 1 {
      SplitPrefix(parts[0], [], sep);
      assert parts[0] + [] == parts[0];
      assert Split([], sep) == [[]];
      assert parts == [parts[0]];
    } else {
      var tail := Join(parts[1..], sep);
      SplitJoin(parts[1..], sep);
      assert Join(parts, sep) == parts[0] + ([sep] + tail);
      SplitPrefix(parts[0], [sep] + tail, sep);
      var u := [sep] + tail;
      assert u[0] == sep && u[1..] == tail;
      assert Split(u, sep) == [[]] + parts[1..];
      assert parts[0] + Split(u, sep)[0] == parts[0];
      assert Split(u, sep)[1..] == parts[1..];
      assert parts == [parts[0]] + parts[1..];
    }
  }

  // ------------------------------------------------- endsWith / includes

  /** `s.endsWith(suffix)`. */
  predicate EndsWith(s: string, suffix: string) {
    |suffix| <= |s| && s[|s| - |suffix|..] == suffix
  }

  /** `sub` occurs in `s` starting at index `i`. */
  predicate OccursAt(s: string, sub: string, i: nat) {
    i + |sub| <= |s| && s[i..i + |sub|] == sub
  }

  /** `s.includes(sub)`. */
  predicate Includes(s: string, sub: string) {
    exists i: nat | i <= |s| :: OccursAt(s, sub, i)
  }

  /** `endsWith` is "some string followed by the suffix". */
  lemma EndsWithIff(s: string, suffix: string)
    ensures EndsWith(s, suffix) <==> exists p :: s == p + suffix
  {
    if EndsWith(s, suffix) {
      assert s == s[..|s| - |suffix|] + suffix;
    }
    if exists p :: s == p + suffix {
      var p :| s == p + suffix;
      assert s[|p|..] == suffix;
    }
  }

  /** `includes` is "some string, then `sub`, then some string". */
  lemma IncludesIff(s: string, sub: string)
    ensures Includes(s, sub) <==> exists a, b :: s == a + sub + b
  {
    if Includes(s, sub) {
      var i: nat :| i <= |s| && OccursAt(s, sub, i);
      assert s == s[..i] + sub + s[i + |sub|..];
    }
    if exists a, b :: s == a + sub + b {
      var a, b :| s == a + sub + b;
      assert s[|a|..|a| + |sub|] == sub;
      assert OccursAt(s, sub, |a|);
    }
  }

  // ------------------------------------------------- indexOf / lastIndexOf

  /** `s.indexOf(c)`: the first position of `c`, or -1. */
  function IndexOf(s: string, c: char): (r: int)
    ensures -1 <= r < |s|
    ensures r == -1 <==> c !in s
    ensures r >= 0 ==> s[r] == c && c !in s[..r]
  {
    if s == [] then -1
    else if s[0] == c then 0
    else
      var k := IndexOf(s[1..], c);
      assert k >= 0 ==> s[..k + 1] == [s[0]] + s[1..][..k];
      if k == -1 then -1 else k + 1
  }

  /** `s.lastIndexOf(c)`: the last position of `c`, or -1. */
  function LastIndexOf(s: string, c: char): (r: int)
    ensures -1 <= r < |s|
    ensures r == -1 <==> c !in s
    ensures r >= 0 ==> s[r] == c && c !in s[r + 1..]
  {
    if s == [] then -1
    else if s[|s| - 1] == c then |s| - 1
    else
      var k := LastIndexOf(s[..|s| - 1], c);
      LastIndexStep(s[..|s| - 1], s[|s| - 1], c, k);
      assert s == s[..|s| - 1] + [s[|s| - 1]];
      k
  }

  /** A last position in `init`, when the character after it is not `c`,
      is the last position in `init + [last]`. */
  lemma LastIndexStep(init: string, last: char, c: char, k: int)
    requires last != c
    requires -1 <= k < |init|
    requires k == -1 <==> c !in init
    requires k >= 0 ==> init[k] == c && c !in init[k + 1..]
    ensures k == -1 <==> c !in init + [last]
    ensures k >= 0 ==> c !in (init + [last])[k + 1..]
  {
    if k >= 0 {
      assert (init + [last])[k + 1..] == init[k + 1..] + [last];
    }
  }

  // ------------------------------------------ replace(/[class]+/g, "")

  /** `s.replace(/[...]+/g, "")` for a character class `drop`: every
      character of the class is deleted, the others are kept in order. */
  function DeleteAll(s: string, drop: char -> bool): (r: string)
    ensures |r| <= |s|
    ensures forall i :: 0 <= i < |r| ==> !drop(r[i])
  {
    if s == [] then [] else (if drop(s[0]) then [] else [s[0]]) + DeleteAll(s[1..], drop)
  }

  /** Deleting distributes over concatenation. */
  lemma {:induction false} DeleteAllAppend(a: string, b: string, drop: char -> bool)
    ensures DeleteAll(a + b, drop) == DeleteAll(a, drop) + DeleteAll(b, drop)
  {
    if a != [] {
      DeleteAllAppend(a[1..], b, drop);
      assert (a + b)[1..] == a[1..] + b;
    } else {
      assert a + b == b;
    }
  }

  /** Text with no character of the class is left as it is. */
  lemma {:induction false} DeleteAllNone(s: string, drop: char -> bool)
    requires forall i :: 0 <= i < |s| ==> !drop(s[i])
    ensures DeleteAll(s, drop) == s
  {
    if s != [] {
      DeleteAllNone(s[1..], drop);
    }
  }

  /** Deleting twice is deleting once. */
  lemma DeleteAllIdempotent(s: string, drop: char -> bool)
    ensures DeleteAll(DeleteAll(s, drop), drop) == DeleteAll(s, drop)
  {
    DeleteAllNone(DeleteAll(s, drop), drop);
  }

  // ------------------------------------------------------- slice(0, n)

  function Min(a: int, b: int): int { if a < b then a else b }

  /** `s.slice(0, n)` for a non-negative `n`: the first min(n, |s|) elements. */
  function SliceTo<T>(s: seq<T>, n: nat): (r: seq<T>)
    ensures |r| == Min(n, |s|)
    ensures r == s[..|r|]
  {
    if n < |s| then s[..n] else s
  }

  // ------------------------------------------------ numbers and strings

  predicate IsDigit(c: char) { '0' <= c <= '9' }

  predicate AllDigits(s: string) { forall i :: 0 <= i < |s| ==> IsDigit(s[i]) }

  function DigitChar(d: nat): (c: char)
    requires d < 10
    ensures IsDigit(c)
  {
    ('0' as int + d) as char
  }

  function DigitValue(c: char): (d: nat)
    requires IsDigit(c)
    ensures d < 10
  {
    c as int - '0' as int
  }

  /** Decimal digits of `n`, most significant first, without leading zeros. */
  function NatToString(n: nat): (r: string)
    ensures |r| >= 1 && AllDigits(r)
    ensures n < 10 ==> |r| == 1
    ensures 10 <= n < 100 ==> |r| == 2
  {
    if n < 10 then [DigitChar(n)] else NatToString(n / 10) + [DigitChar(n % 10)]
  }

  /** `n.toString()` on an integer. */
  function IntToString(n: int): string {
    if n < 0 then "-" + NatToString(-n) else NatToString(n)
  }

  /** The number a string of decimal digits denotes. */
  function DecimalValue(s: string): nat
    requires AllDigits(s)
  {
    if s == [] then 0 else DecimalValue(s[..|s| - 1]) * 10 + DigitValue(s[|s| - 1])
  }

  /** Printing and reading back a natural number gives it back. */
  lemma {:induction false} DecimalRoundTrip(n: nat)
    ensures DecimalValue(NatToString(n)) == n
  {
    if n >= 10 {
      DecimalRoundTrip(n / 10);
      var r := NatToString(n);
      assert r[..|r| - 1] == NatToString(n / 10);
    }
  }

  /** A leading zero does not change the value of a digit string. */
  lemma {:induction false} DecimalLeadingZero(s: string)
    requires AllDigits(s)
    ensures AllDigits("0" + s) && DecimalValue("0" + s) == DecimalValue(s)
  {
    if s != [] {
      DecimalLeadingZero(s[..|s| - 1]);
      assert ("0" + s)[..|s|] == "0" + s[..|s| - 1];
    }
  }

  /** `s.padStart(len, [fill])`: `s` preceded by enough copies of `fill` to
      reach length `len`; unchanged if already that long. */
  function PadStart(s: string, len: nat, fill: char): (r: string)
    ensures |r| == if |s| < len then len else |s|
    ensures r[|r| - |s|..] == s
    ensures forall i :: 0 <= i < |r| - |s| ==> r[i] == fill
  {
    if |s| < len then seq(len - |s|, _ => fill) + s else s
  }

  /** JavaScript's `a % b` for a positive divisor: the remainder takes the sign
      of the dividend (Dafny's `%` is never negative). */
  function JsRem(a: int, b: int): (r: int)
    requires b > 0
    ensures a >= 0 ==> r == a % b
    ensures a < 0 ==> -b < r <= 0
  {
    if a >= 0 then a % b else -((-a) % b)
  }

  // ------------------------------------------------------------ case

  /** `toLowerCase` on one character, for the ASCII letters. */
  function LowerAscii(c: char): char {
    if 'A' <= c <= 'Z' then (c as int + 32) as char else c
  }

  function UpperAscii(c: char): char {
    if 'a' <= c <= 'z' then (c as int - 32) as char else c
  }

  predicate HasNoUpper(t: string) {
    forall i :: 0 <= i < |t| ==> !('A' <= t[i] <= 'Z')
  }

  /** `s.toLowerCase()`, ASCII letters only. */
  function LowerAsciiString(s: string): (r: string)
    ensures |r| == |s|
    ensures forall i :: 0 <= i < |s| ==> r[i] == LowerAscii(s[i])
  {
    seq(|s|, i requires 0 <= i < |s| => LowerAscii(s[i]))
  }

  /** `s` is `t` with any of its letters possibly in upper case. */
  predicate SameIgnoringCase(s: string, t: string) {
    |s| == |t| && forall i :: 0 <= i < |s| ==> s[i] == t[i] || s[i] == UpperAscii(t[i])
  }

  /** Comparing `s.toLowerCase()` with a text without capitals is a
      case-insensitive comparison. */
  lemma LowerAsciiStringEq(s: string, t: string)
    requires HasNoUpper(t)
    ensures LowerAsciiString(s) == t <==> SameIgnoringCase(s, t)
  {
    var l := LowerAsciiString(s);
    if l == t {
      forall i | 0 <= i < |s| ensures s[i] == t[i] || s[i] == UpperAscii(t[i]) {
        assert l[i] == LowerAscii(s[i]);
      }
    }
    if SameIgnoringCase(s, t) {
      forall i | 0 <= i < |s| ensures l[i] == t[i] {
        assert !('A' <= t[i] <= 'Z');
      }
    }
  }
}
