/** The two validators of backend/src/utils/utils.js: the Wikipedia URL test
    and the CORS origin list. */
module Utils {
  import opened Wrappers
  import opened JsBuiltins

  // ------------------------------------------------------ isWikipediaUrl

  /** The parts of `new URL(url)` the test reads; `None` when the
      constructor throws. */
  datatype ParsedUrl = ParsedUrl(hostname: string, pathname: string)

  const WikiHost: string := "wikipedia.org"
  const WikiPath: string := "/wiki/"

  /** `isWikipediaUrl(url)`. */
  predicate IsWikipediaUrl(u: Option<ParsedUrl>) {
    u.Some? && EndsWith(u.value.hostname, WikiHost) && Includes(u.value.pathname, WikiPath)
  }

  /** A URL passes exactly when it parses, its host name is some text
      followed by `wikipedia.org`, and its path has `/wiki/` somewhere. */
  lemma IsWikipediaUrlIff(u: Option<ParsedUrl>)
    ensures IsWikipediaUrl(u) <==>
      && u.Some?
      && (exists p :: u.value.hostname == p + WikiHost)
      && (exists a, b :: u.value.pathname == a + WikiPath + b)
  {
    if u.Some? {
      EndsWithIff(u.value.hostname, WikiHost);
      IncludesIff(u.value.pathname, WikiPath);
    }
  }

  /** A URL that does not parse is rejected. */
  lemma UnparsableRejected()
    ensures !IsWikipediaUrl(None)
  {
  }

  /** The host test is a plain suffix test: a look-alike domain passes. */
  lemma LookAlikeHostAccepted()
    ensures IsWikipediaUrl(Some(ParsedUrl("fakewikipedia.org", "/wiki/Foo")))
  {
    var host := "fakewikipedia.org";
    assert host == "fake" + WikiHost;
    EndsWithIff(host, WikiHost);
    assert OccursAt("/wiki/Foo", WikiPath, 0);
  }

  /** The `index.php` form of an article URL is rejected. */
  lemma IndexPhpRejected()
    ensures !IsWikipediaUrl(Some(ParsedUrl("en.wikipedia.org", "/w/index.php")))
  {
    var path := "/w/index.php";
    forall i: nat | i <= |path| ensures !OccursAt(path, WikiPath, i) {
      if i + |WikiPath| <= |path| {
        assert path[i] != '/' || path[i + 1] != 'w' || path[i + 2] != 'i';
        assert path[i..i + |WikiPath|][0] == path[i];
        assert path[i..i + |WikiPath|][1] == path[i + 1];
        assert path[i..i + |WikiPath|][2] == path[i + 2];
      }
    }
  }

  // -------------------------------------------------------- parseOrigins

  /** `.map((s) => s.trim()).filter(Boolean)`. */
  function CleanPieces(pieces: seq<string>): (r: seq<string>)
    ensures |r| <= |pieces|
    ensures AllClean(r)
  {
    if pieces == [] then []
    else
      var t := Trim(pieces[0]);
      var head := if t == [] then [] else [t];
      CleanConcat(head, CleanPieces(pieces[1..]));
      head + CleanPieces(pieces[1..])
  }

  /** Every entry is non-empty and trimmed. */
  predicate AllClean(r: seq<string>) {
    forall i :: 0 <= i < |r| ==> r[i] != [] && IsTrimmed(r[i])
  }

  lemma CleanConcat(a: seq<string>, b: seq<string>)
    requires AllClean(a) && AllClean(b)
    ensures AllClean(a + b)
  {
    forall i | 0 <= i < |a + b| ensures (a + b)[i] != [] && IsTrimmed((a + b)[i]) {
      if i < |a| {
        assert (a + b)[i] == a[i];
      } else {
        assert (a + b)[i] == b[i - |a|];
      }
    }
  }

  /** `parseOrigins(str)`: `None` is an unset variable. */
  function ParseOrigins(s: Option<string>): seq<string> {
    if s.None? || s.value == [] then ["*"] else CleanPieces(Split(s.value, ','))
  }

  /** An unset or empty setting allows every origin. */
  lemma ParseOriginsDefault(s: Option<string>)
    requires s.None? || s == Some([])
    ensures ParseOrigins(s) == ["*"]
  {
  }

  /** Otherwise the origins are the trimmed non-empty comma-separated
      pieces: each one is non-empty and trimmed, and a text is an origin
      exactly when it is the trimmed form of some piece and not empty. */
  lemma {:induction false} ParseOriginsMembers(s: string, x: string)
    requires s != []
    ensures forall i :: 0 <= i < |ParseOrigins(Some(s))| ==>
      ParseOrigins(Some(s))[i] != [] && IsTrimmed(ParseOrigins(Some(s))[i])
    ensures x in ParseOrigins(Some(s)) <==>
      x != [] && exists i :: 0 <= i < |Split(s, ',')| && Trim(Split(s, ',')[i]) == x
  {
    assert ParseOrigins(Some(s)) == CleanPieces(Split(s, ','));
    CleanPiecesMembers(Split(s, ','), x);
  }

  /** Some piece trims to `x`. */
  predicate TrimsTo(pieces: seq<string>, x: string) {
    exists i :: 0 <= i < |pieces| && Trim(pieces[i]) == x
  }

  lemma TrimsToCons(pieces: seq<string>, x: string)
    requires pieces != []
    ensures TrimsTo(pieces, x) <==> Trim(pieces[0]) == x || TrimsTo(pieces[1..], x)
  {
    if TrimsTo(pieces, x) {
      var i :| 0 <= i < |pieces| && Trim(pieces[i]) == x;
      if i > 0 {
        assert pieces[1..][i - 1] == pieces[i];
      }
    }
    if TrimsTo(pieces[1..], x) {
      var i :| 0 <= i < |pieces[1..]| && Trim(pieces[1..][i]) == x;
      assert pieces[i + 1] == pieces[1..][i];
    }
  }

  lemma {:induction false} CleanPiecesMembers(pieces: seq<string>, x: string)
    ensures x in CleanPieces(pieces) <==> x != [] && TrimsTo(pieces, x)
  {
    if pieces != [] {
      var t := Trim(pieces[0]);
      CleanPiecesMembers(pieces[1..], x);
      TrimsToCons(pieces, x);
      assert CleanPieces(pieces) == (if t == [] then [] else [t]) + CleanPieces(pieces[1..]);
    }
  }

  /** Every piece of a split is made of characters of the input. */
  lemma {:induction false} SplitChars(s: string, sep: char)
    ensures forall i, k :: 0 <= i < |Split(s, sep)| && 0 <= k < |Split(s, sep)[i]| ==>
      Split(s, sep)[i][k] in s
  {
    if s != [] {
      SplitChars(s[1..], sep);
      var rest := Split(s[1..], sep);
      var r := Split(s, sep);
      forall i, k | 0 <= i < |r| && 0 <= k < |r[i]| ensures r[i][k] in s {
        if s[0] == sep {
          assert r[i] == ([[]] + rest)[i];
          assert r[i] == rest[i - 1];
          assert rest[i - 1][k] in s[1..];
        } else if i == 0 {
          assert r[0] == [s[0]] + rest[0];
          if k > 0 {
            assert r[0][k] == rest[0][k - 1];
            assert rest[0][k - 1] in s[1..];
          }
        } else {
          assert r[i] == rest[i];
          assert rest[i][k] in s[1..];
        }
      }
    }
  }

  /** A non-empty setting made only of commas and spaces allows no origin
      at all (not every origin). */
  lemma OnlySeparatorsGiveNothing(s: string)
    requires s != []
    requires forall i :: 0 <= i < |s| ==> s[i] == ',' || s[i] == ' '
    ensures ParseOrigins(Some(s)) == []
  {
    var pieces := Split(s, ',');
    SplitChars(s, ',');
    forall i | 0 <= i < |pieces| ensures Trim(pieces[i]) == [] {
      forall k | 0 <= k < |pieces[i]| ensures IsJsWhitespace(pieces[i][k]) {
        assert pieces[i][k] in s;
        assert pieces[i][k] != ',';
      }
      TrimEmptyIff(pieces[i]);
    }
    NoCleanPieces(pieces);
  }

  lemma {:induction false} NoCleanPieces(pieces: seq<string>)
    requires forall i :: 0 <= i < |pieces| ==> Trim(pieces[i]) == []
    ensures CleanPieces(pieces) == []
  {
    if pieces != [] {
      NoCleanPieces(pieces[1..]);
    }
  }

  /** Trimming a trimmed string changes nothing. */
  lemma TrimTrimmed(s: string)
    requires IsTrimmed(s)
    ensures Trim(s) == s
  {
    assert LeadingWhitespace(s) == 0;
    assert TrailingWhitespace(s) == 0;
  }

  lemma {:induction false} CleanPiecesClean(pieces: seq<string>)
    requires forall i :: 0 <= i < |pieces| ==> pieces[i] != [] && IsTrimmed(pieces[i])
    ensures CleanPieces(pieces) == pieces
  {
    if pieces != [] {
      TrimTrimmed(pieces[0]);
      CleanPiecesClean(pieces[1..]);
    }
  }

  /** A list of origins, each non-empty, trimmed and free of commas,
      written out comma-separated, parses back to the same list in the same
      order. */
  lemma ParseOriginsJoin(origins: seq<string>)
    requires |origins| >= 1
    requires forall i :: 0 <= i < |origins| ==> origins[i] != [] && IsTrimmed(origins[i]) && ',' !in origins[i]
    ensures ParseOrigins(Some(Join(origins, ','))) == origins
  {
    SplitJoin(origins, ',');
    CleanPiecesClean(origins);
    JoinStartsWith(origins, ',');
  }

  lemma {:induction false} JoinStartsWith(parts: seq<string>, sep: char)
    requires |parts| >= 1
    ensures |Join(parts, sep)| >= |parts[0]| && Join(parts, sep)[..|parts[0]|] == parts[0]
  {
    if |parts| > 1 {
      assert Join(parts, sep) == parts[0] + [sep] + Join(parts[1..], sep);
    }
  }
}
