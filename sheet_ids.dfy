/** Pulling a spreadsheet id out of a Google Sheets link, or taking a bare
    id as it is. */
module SheetIds {
  import opened Wrappers
  import opened Strings
  import opened Scanning

  /** The class `[a-zA-Z0-9-_]`. */
  predicate IsIdChar(c: char) {
    ('a' <= c <= 'z') || ('A' <= c <= 'Z') || ('0' <= c <= '9') || c == '-' || c == '_'
  }

  /** A non-empty run of id characters. */
  predicate IsId(s: string) {
    |s| > 0 && forall i :: 0 <= i < |s| ==> IsIdChar(s[i])
  }

  /** The three id patterns: a marker followed by the captured id
      (`/d/(...)`, `spreadsheets/d/(...)`), or the whole text
      (`^(...)$`). */
  datatype Pattern = After(marker: string) | Whole

  const Patterns: seq<Pattern> := [After("/d/"), After("spreadsheets/d/"), Whole]

  /** The link built for a spreadsheet from its id. */
  const UrlPrefix: string := "https://docs.google.com/spreadsheets/d/"

  /** `re.search` for `marker([a-zA-Z0-9-_]+)` from offset `p`: the leftmost
      occurrence of the marker followed by an id character; the greedy group
      takes the whole run of id characters after it. */
  function FindAfter(s: string, marker: string, p: nat): (r: Option<string>)
    requires p <= |s|
    ensures r.Some? ==> IsId(r.value)
    ensures r.Some? ==> exists i: nat :: p <= i && At(s, i, marker + r.value)
    ensures forall i: nat :: p <= i && Hit(s, marker, i) && NoHitBetween(s, marker, p, i) ==> r == Some(Capture(s, marker, i))
    decreases |s| - p
  {
    if Hit(s, marker, p) then
      var e := RunEnd(s, p + |marker|, IsIdChar);
      assert At(s, p, marker + s[p + |marker|..e]);
      var c := s[p + |marker|..e];
      assert forall j :: 0 <= j < |c| ==> c[j] == s[p + |marker| + j];
      assert forall i: nat :: p < i ==> !NoHitBetween(s, marker, p, i);
      assert Capture(s, marker, p) == s[p + |marker|..e];
      Some(s[p + |marker|..e])
    else if p < |s| then FindAfter(s, marker, p + 1)
    else None
  }

  /** An occurrence of the marker at `i` followed by an id character. */
  predicate Hit(s: string, marker: string, i: nat) {
    i + |marker| < |s| && At(s, i, marker) && IsIdChar(s[i + |marker|])
  }

  /** No hit starts in `[p, i)`. */
  predicate NoHitBetween(s: string, marker: string, p: nat, i: nat) {
    forall j: nat :: p <= j < i ==> !Hit(s, marker, j)
  }

  /** The greedy capture after the marker at `i`: the whole run of id
      characters. */
  function Capture(s: string, marker: string, i: nat): string
    requires i + |marker| <= |s|
  {
    s[i + |marker|..RunEnd(s, i + |marker|, IsIdChar)]
  }

  /** The search fails exactly when no occurrence of the marker at or after
      `p` is followed by an id character. */
  lemma {:induction false} FindAfterNone(s: string, marker: string, p: nat)
    requires p <= |s|
    ensures FindAfter(s, marker, p).None? <==>
      forall i: nat :: p <= i && i + |marker| < |s| ==> !(At(s, i, marker) && IsIdChar(s[i + |marker|]))
    decreases |s| - p
  {
    if p < |s| {
      FindAfterNone(s, marker, p + 1);
    }
  }

  /** `re.search` for `^([a-zA-Z0-9-_]+)$`: the text is one run of id
      characters, optionally followed by a single final newline, which `$`
      also accepts. */
  function MatchWhole(s: string): (r: Option<string>)
    ensures r.Some? <==> exists e :: 0 < e <= |s| && IsId(s[..e]) && (e == |s| || (e + 1 == |s| && s[e] == '\n'))
    ensures r.Some? ==> IsId(r.value) && StartsWith(s, r.value)
    ensures r.Some? ==> r.value == s[..RunEnd(s, 0, IsIdChar)]
  {
    var e := RunEnd(s, 0, IsIdChar);
    if e > 0 && (e == |s| || (e + 1 == |s| && s[e] == '\n')) then
      Some(s[..e])
    else
      assert forall e' :: 0 < e' <= |s| && IsId(s[..e']) && (e' == |s| || (e' + 1 == |s| && s[e'] == '\n')) ==> e' == e by {
        forall e' ensures 0 < e' <= |s| && IsId(s[..e']) && (e' == |s| || (e' + 1 == |s| && s[e'] == '\n')) ==> e' == e {
          WholeRun(s, e');
        }
      }
      None
  }

  /** A whole-text match can only end where the run of id characters does. */
  lemma WholeRun(s: string, e: int)
    ensures 0 < e <= |s| && IsId(s[..e]) && (e == |s| || (e + 1 == |s| && s[e] == '\n'))
            ==> RunEnd(s, 0, IsIdChar) == e
  {
    if 0 < e <= |s| && IsId(s[..e]) && (e == |s| || (e + 1 == |s| && s[e] == '\n')) {
      assert forall j :: 0 <= j < e ==> s[..e][j] == s[j];
      RunEndUnique(s, 0, e, IsIdChar);
    }
  }

  /** `re.search(pattern, s)` and its first group: after a marker, the run
      after the leftmost marker followed by an id character; for the whole
      text, its leading run of id characters. */
  function Search(pattern: Pattern, s: string): (r: Option<string>)
    ensures r.Some? ==> IsId(r.value)
    ensures pattern.After? ==> forall i: nat :: Hit(s, pattern.marker, i) && NoHitBetween(s, pattern.marker, 0, i) ==>
      r == Some(Capture(s, pattern.marker, i))
    ensures pattern.Whole? && r.Some? ==> r.value == s[..RunEnd(s, 0, IsIdChar)]
  {
    match pattern
    case After(marker) => FindAfter(s, marker, 0)
    case Whole => MatchWhole(s)
  }

  /** The capture of the first pattern that matches. */
  function FirstMatch(patterns: seq<Pattern>, s: string): (r: Option<string>)
    ensures r.Some? ==> IsId(r.value)
    ensures r.None? <==> forall i :: 0 <= i < |patterns| ==> Search(patterns[i], s).None?
    ensures forall i :: 0 <= i < |patterns| && Search(patterns[i], s).Some? && NoneBefore(patterns, s, i) ==>
      r == Search(patterns[i], s)
  {
    if patterns == [] then None
    else
      var m := Search(patterns[0], s);
      if m.Some? then m
      else
        var r := FirstMatch(patterns[1..], s);
        FirstAfterHead(patterns, s, r);
        r
  }

  /** When the first pattern fails, the first match among the others is the
      first match among all. */
  lemma FirstAfterHead(patterns: seq<Pattern>, s: string, r: Option<string>)
    requires patterns != [] && Search(patterns[0], s).None?
    requires r.None? <==> forall i :: 0 <= i < |patterns| - 1 ==> Search(patterns[1..][i], s).None?
    requires forall i :: 0 <= i < |patterns| - 1 && Search(patterns[1..][i], s).Some? && NoneBefore(patterns[1..], s, i) ==>
      r == Search(patterns[1..][i], s)
    ensures r.None? <==> forall i :: 0 <= i < |patterns| ==> Search(patterns[i], s).None?
    ensures forall i :: 0 <= i < |patterns| && Search(patterns[i], s).Some? && NoneBefore(patterns, s, i) ==>
      r == Search(patterns[i], s)
  {
    var rest := patterns[1..];
    assert forall i :: 1 <= i < |patterns| ==> patterns[i] == rest[i - 1];
    forall i | 0 <= i < |patterns| && Search(patterns[i], s).Some? && NoneBefore(patterns, s, i)
      ensures r == Search(patterns[i], s)
    {
      assert NoneBefore(rest, s, i - 1);
    }
  }

  /** No pattern before the `i`-th matches. */
  predicate NoneBefore(patterns: seq<Pattern>, s: string, i: nat)
    requires i <= |patterns|
  {
    forall j :: 0 <= j < i ==> Search(patterns[j], s).None?
  }

  /** `extract_sheet_id`: the patterns are tried in order and the first
      capture is returned. */
  method ExtractSheetId(url: string) returns (id: Option<string>)
    ensures id == FirstMatch(Patterns, url)
    ensures id.Some? ==> IsId(id.value)
    ensures id.None? <==> forall i :: 0 <= i < |Patterns| ==> Search(Patterns[i], url).None?
  {
    for i := 0 to |Patterns|
      invariant FirstMatch(Patterns[i..], url) == FirstMatch(Patterns, url)
    {
      assert Patterns[i..][1..] == Patterns[i + 1..];
      var m := Search(Patterns[i], url);
      if m.Some? {
        return m;
      }
    }
    return None;
  }

  /** Skipping offsets where no match starts does not change the search. */
  lemma {:induction false} FindAfterSkip(s: string, marker: string, p: nat, q: nat)
    requires p <= q <= |s|
    requires forall i :: p <= i < q ==> !At(s, i, marker)
    ensures FindAfter(s, marker, p) == FindAfter(s, marker, q)
    decreases q - p
  {
    if p < q {
      FindAfterStep(s, marker, p);
      FindAfterSkip(s, marker, p + 1, q);
    }
  }

  /** Where the marker does not start, the search moves on by one. */
  lemma FindAfterStep(s: string, marker: string, p: nat)
    requires p < |s| && !At(s, p, marker)
    ensures FindAfter(s, marker, p) == FindAfter(s, marker, p + 1)
  {
  }

  /** A marker holding a character outside the id class never matches in an
      id. */
  lemma {:induction false} FindAfterInId(s: string, marker: string, k: nat, p: nat)
    requires forall i :: 0 <= i < |s| ==> IsIdChar(s[i])
    requires k < |marker| && !IsIdChar(marker[k])
    requires p <= |s|
    ensures FindAfter(s, marker, p) == None
    decreases |s| - p
  {
    assert p + k < |s| ==> s[p + k] != marker[k];
    if p < |s| {
      FindAfterInId(s, marker, k, p + 1);
    }
  }

  /** A bare id is returned unchanged. */
  lemma BareId(id: string)
    requires IsId(id)
    ensures FirstMatch(Patterns, id) == Some(id)
  {
    FindAfterInId(id, "/d/", 0, 0);
    FindAfterInId(id, "spreadsheets/d/", 12, 0);
    RunEndUnique(id, 0, |id|, IsIdChar);
    assert id[..|id|] == id;
    assert MatchWhole(id) == Some(id);
    assert FirstMatch(Patterns, id) == FirstMatch(Patterns[1..], id) == FirstMatch(Patterns[2..], id);
  }

  lemma AtMarker(s: string, i: nat)
    ensures At(s, i, "/d/") <==> i + 3 <= |s| && s[i] == '/' && s[i + 1] == 'd' && s[i + 2] == '/'
  {
    var w := "/d/";
    assert w[0] == '/' && w[1] == 'd' && w[2] == '/';
    if i + 3 <= |s| {
      assert At(s, i, w) ==> s[i + 0] == w[0] && s[i + 1] == w[1] && s[i + 2] == w[2];
    }
  }

  lemma NoMarkerBefore(i: nat)
    requires i < 36
    ensures !(UrlPrefix[i] == '/' && UrlPrefix[i + 1] == 'd' && UrlPrefix[i + 2] == '/')
  {
  }

  /** The link prefix has its first `/d/` at offset 36. */
  lemma UrlPrefixMarker(s: string)
    requires StartsWith(s, UrlPrefix)
    ensures forall i :: 0 <= i < 36 ==> !At(s, i, "/d/")
    ensures At(s, 36, "/d/")
  {
    forall i | 0 <= i < 36 ensures !At(s, i, "/d/") {
      NoMarkerBefore(i);
      AtMarker(s, i);
      assert s[i] == UrlPrefix[i] && s[i + 1] == UrlPrefix[i + 1] && s[i + 2] == UrlPrefix[i + 2];
    }
    AtMarker(s, 36);
    assert s[36] == UrlPrefix[36] && s[37] == UrlPrefix[37] && s[38] == UrlPrefix[38];
  }

  /** The id is recovered from the link built from it. */
  lemma UrlRoundTrip(id: string)
    requires IsId(id)
    ensures FirstMatch(Patterns, UrlPrefix + id) == Some(id)
  {
    var s := UrlPrefix + id;
    assert StartsWith(s, UrlPrefix);
    UrlPrefixMarker(s);
    FindAfterSkip(s, "/d/", 0, 36);
    UrlIdAfterMarker(s, id);
    assert Patterns[0] == After("/d/");
  }

  lemma UrlIdAfterMarker(s: string, id: string)
    requires IsId(id) && s == UrlPrefix + id
    requires At(s, 36, "/d/")
    ensures FindAfter(s, "/d/", 36) == Some(id)
  {
    assert |UrlPrefix| == 39;
    assert s[39..|s|] == id;
    assert IsIdChar(s[39]);
    RunEndUnique(s, 39, |s|, IsIdChar);
  }

  /** Whenever the second pattern matches, the first one already does, so
      the second never decides the result. */
  lemma SecondPatternSubsumed(s: string)
    requires Search(Patterns[1], s).Some?
    ensures Search(Patterns[0], s).Some?
  {
    var id := Search(Patterns[1], s).value;
    var i: nat :| At(s, i, "spreadsheets/d/" + id);
    var w := "spreadsheets/d/" + id;
    assert s[i + 12] == w[12] && s[i + 13] == w[13] && s[i + 14] == w[14] && s[i + 15] == w[15];
    assert At(s, i + 12, "/d/");
    FindAfterFinds(s, "/d/", 0, i + 12);
  }

  /** A marker followed by an id character at or after `p` makes the search
      succeed. */
  lemma {:induction false} FindAfterFinds(s: string, marker: string, p: nat, i: nat)
    requires p <= i && i + |marker| < |s|
    requires At(s, i, marker) && IsIdChar(s[i + |marker|])
    ensures FindAfter(s, marker, p).Some?
    decreases i - p
  {
    if p < i {
      FindAfterFinds(s, marker, p + 1, i);
    }
  }
}
