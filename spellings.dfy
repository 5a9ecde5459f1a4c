/**
 * Equivalent spellings of sizes and areas give the same tokens: a dimension
 * written with `x`, `х`, `×` or `*` and any whitespace around it, and square
 * millimetres written `мм2`, `мм^2` or `мм²` after a number, with or without
 * a space.
 */
module Spellings {
  import opened Wrappers
  import opened Chars
  import opened Strings
  import opened Scanning
  import opened Normalizer
  import opened Tokenizer

  predicate AllSpace(g: string) {
    forall j :: 0 <= j < |g| ==> IsSpace(g[j])
  }

  /** The first characters of the rewrite table's keys. */
  const KeyStarts: string := "х–—ёмс"

  /** No key of the rewrite table starts anywhere in `t`. */
  predicate NoKeyStart(t: string) {
    forall j :: 0 <= j < |t| ==> t[j] !in KeyStarts
  }

  lemma LoweredFixed(s: string)
    requires IsLowered(s)
    ensures Lowered(s) == s
  {
  }

  /** Each character of an occurring string is a character of the text. */
  lemma ContainsHas(s: string, k: string, m: nat)
    requires m < |k|
    ensures Contains(s, k) ==> k[m] in s
  {
    if Contains(s, k) {
      var i: nat :| i <= |s| && At(s, i, k);
      assert s[i + m] == k[m];
    }
  }

  /** Each pair of neighbours in an occurring string are neighbours in the
      text. */
  lemma ContainsPair(s: string, k: string, m: nat)
    requires m + 1 < |k|
    ensures Contains(s, k) ==> exists i :: 0 <= i < |s| - 1 && s[i] == k[m] && s[i + 1] == k[m + 1]
  {
    if Contains(s, k) {
      var i: nat :| i <= |s| && At(s, i, k);
      assert s[i + m] == k[m] && s[i + m + 1] == k[m + 1];
    }
  }

  lemma StartsWithHead(s: string, k: string)
    requires k != []
    ensures StartsWith(s, k) ==> s[0] == k[0]
  {
  }

  /** A replacement whose key cannot start inside `t` copies `t`. */
  lemma {:induction false} ReplaceAllSkip(t: string, u: string, k: string, v: string)
    requires k != [] && k[0] !in t
    ensures ReplaceAll(t + u, k, v) == t + ReplaceAll(u, k, v)
    decreases |t|
  {
    if t != [] {
      var s := t + u;
      assert s[0] == t[0] && s[1..] == t[1..] + u;
      ReplaceAllSkip(t[1..], u, k, v);
      if |s| < |k| {
        assert ReplaceAll(u, k, v) == u;
      } else {
        StartsWithHead(s, k);
        assert ReplaceAll(s, k, v) == [t[0]] + ReplaceAll(t[1..] + u, k, v);
        assert t == [t[0]] + t[1..];
      }
    } else {
      assert t + u == u;
    }
  }

  lemma {:induction false} ApplyRewritesSkip(t: string, u: string, rules: seq<Rewrite>)
    requires NonEmptyKeys(rules)
    requires forall i :: 0 <= i < |rules| ==> rules[i].key[0] !in t
    ensures ApplyRewrites(t + u, rules) == t + ApplyRewrites(u, rules)
    decreases |rules|
  {
    if rules != [] {
      ReplaceAllSkip(t, u, rules[0].key, rules[0].value);
      ApplyRewritesSkip(t, ReplaceAll(u, rules[0].key, rules[0].value), rules[1..]);
    }
  }

  /** The rewrites copy a stretch of text in which no key starts. */
  lemma RewritesSkip(t: string, u: string)
    requires NoKeyStart(t)
    ensures NonEmptyKeys(Rewrites)
    ensures ApplyRewrites(t + u, Rewrites) == t + ApplyRewrites(u, Rewrites)
  {
    RewriteStep(t, 0);
    assert forall i :: 0 <= i < |Rewrites| ==> Rewrites[i].key[0] in KeyStarts;
    ApplyRewritesSkip(t, u, Rewrites);
  }

  /** The rewrites that come before the `i`-th and whose keys do not occur
      leave the text as it is. */
  lemma {:induction false} RewritesAbsentBefore(s: string, rules: seq<Rewrite>, i: nat)
    requires NonEmptyKeys(rules) && i <= |rules|
    requires forall m :: 0 <= m < i ==> !Contains(s, rules[m].key)
    ensures ApplyRewrites(s, rules) == ApplyRewrites(s, rules[i..])
    decreases i
  {
    if i > 0 {
      ReplaceAllAbsent(s, rules[0].key, rules[0].value);
      RewritesAbsentBefore(s, rules[1..], i - 1);
      assert rules[1..][i - 1..] == rules[i..];
    }
  }

  /** No key occurs in `мм²`, so every suffix of the table leaves it as it is. */
  lemma SquareMillimetreFixed(i: nat)
    requires i <= |Rewrites|
    ensures NonEmptyKeys(Rewrites)
    ensures ApplyRewrites("мм²", Rewrites[i..]) == "мм²"
  {
    RewriteStep("мм²", 0);
    SquareMillimetreKeysAbsent();
    assert forall m :: 0 <= m < |Rewrites[i..]| ==> Rewrites[i..][m] == Rewrites[i + m];
    ApplyRewritesAbsent("мм²", Rewrites[i..]);
  }

  /** No key of the table occurs in `мм²`. */
  lemma SquareMillimetreKeysAbsent()
    ensures forall m :: 0 <= m < |Rewrites| ==> !Contains("мм²", Rewrites[m].key)
  {
    var sq := "мм²";
    assert '2' !in sq && '^' !in sq;
    ContainsHas(sq, "х", 0);
    ContainsHas(sq, "–", 0);
    ContainsHas(sq, "—", 0);
    ContainsHas(sq, "ё", 0);
    ContainsHas(sq, "мм2", 2);
    ContainsHas(sq, "мм^2", 2);
    ContainsHas(sq, "см2", 0);
    ContainsHas(sq, "см^2", 0);
    ContainsHas(sq, "м2", 1);
    ContainsHas(sq, "м^2", 1);
  }

  /** Replacing the whole text, when it is the key, gives the value. */
  lemma ReplaceWhole(k: string, v: string)
    requires k != []
    ensures ReplaceAll(k, k, v) == v
  {
    assert ReplaceAll(k, k, v) == v + ReplaceAll(k[|k|..], k, v);
  }

  /** No entry before the one for `u` applies to it. */
  lemma SpelledBefore(u: string, i: nat)
    requires (u == "мм2" && i == 4) || (u == "мм^2" && i == 5)
    ensures forall m :: 0 <= m < i ==> !Contains(u, Rewrites[m].key)
  {
    ContainsHas(u, "х", 0);
    ContainsHas(u, "–", 0);
    ContainsHas(u, "—", 0);
    ContainsHas(u, "ё", 0);
    ContainsPair(u, "мм2", 1);
  }

  /** `мм2` and `мм^2` are rewritten by their own entries of the table. */
  lemma SquareMillimetreSpelled(u: string, i: nat)
    requires (u == "мм2" && i == 4) || (u == "мм^2" && i == 5)
    ensures NonEmptyKeys(Rewrites)
    ensures ApplyRewrites(u, Rewrites) == "мм²"
  {
    RewriteStep(u, 0);
    SpelledBefore(u, i);
    RewritesAbsentBefore(u, Rewrites, i);
    SpelledOwnEntry(u, i);
    SquareMillimetreFixed(i + 1);
  }

  /** The entry for `u` turns it into `мм²`. */
  lemma SpelledOwnEntry(u: string, i: nat)
    requires (u == "мм2" && i == 4) || (u == "мм^2" && i == 5)
    ensures NonEmptyKeys(Rewrites)
    ensures ApplyRewrites(u, Rewrites[i..]) == ApplyRewrites("мм²", Rewrites[i + 1..])
  {
    RewriteStep(u, 0);
    ApplyRewritesStep(u, Rewrites, i);
    ReplaceWhole(u, "мм²");
  }

  /** Each spelling of square millimetres is rewritten to `мм²`. */
  lemma SquareMillimetreRewritten(u: string)
    requires u == "мм2" || u == "мм^2" || u == "мм²"
    ensures NonEmptyKeys(Rewrites)
    ensures ApplyRewrites(u, Rewrites) == "мм²"
  {
    SquareMillimetreFixed(0);
    assert Rewrites[0..] == Rewrites;
    if u == "мм2" {
      SquareMillimetreSpelled(u, 4);
    } else if u == "мм^2" {
      SquareMillimetreSpelled(u, 5);
    }
  }

  lemma AtHead(s: string, p: nat, w: string)
    requires w != []
    ensures At(s, p, w) ==> s[p] == w[0]
  {
    if At(s, p, w) {
      assert s[p + 0] == w[0];
    }
  }

  /** The gap between a number and `мм²` is closed. */
  lemma GapClosed(n: string, gap: string)
    requires AllDigits(n) && AllSpace(gap)
    ensures CloseUnitGaps(n + gap + "мм²", 0) == n + "мм²"
  {
    var m := n + gap + "мм²";
    var q := |n| + |gap|;
    CloseUnitGapsCopies(m, 0, |n|);
    assert m[0..|n|] == n && m[q..] == "мм²";
    CloseUnitGapsCopies(m, q, |m|);
    if gap != [] {
      RunEndUnique(m, |n|, q, IsSpace);
      assert UnitGapAt(m, |n|);
    }
  }

  lemma LoweredSpelling(t: string, u: string)
    requires forall j :: 0 <= j < |t| ==> IsDigit(t[j]) || IsSpace(t[j]) || IsSeparator(t[j])
    requires u == "мм2" || u == "мм^2" || u == "мм²" || u == []
    ensures Lowered(t + u) == t + u
  {
    var s := t + u;
    forall j | 0 <= j < |s| ensures Lower(s[j]) == s[j] {
      if j >= |t| {
        assert s[j] == u[j - |t|];
      }
    }
  }

  /** `<number><whitespace><u>`, for each spelling `u` of square millimetres,
      normalises to `<number>мм²`. */
  lemma SquareMillimetreNormalized(n: string, gap: string, u: string)
    requires AllDigits(n) && AllSpace(gap)
    requires u == "мм2" || u == "мм^2" || u == "мм²"
    ensures Normalized(n + gap + u) == n + "мм²"
  {
    var t := n + gap;
    LoweredSpelling(t, u);
    RewritesSkip(t, u);
    SquareMillimetreRewritten(u);
    assert t + "мм²" == n + gap + "мм²";
    GapClosed(n, gap);
  }

  /** A text without a separator has no dimension to collapse. */
  lemma CollapseNoSeparator(s: string, p: nat)
    requires p <= |s|
    requires forall j :: 0 <= j < |s| ==> !IsSeparator(s[j])
    ensures CollapseFrom(s, p) == s[p..]
  {
    NoDimensionFromHere(s, p);
  }

  lemma {:induction false} NoDimensionFromHere(s: string, p: nat)
    requires p <= |s|
    requires forall j :: 0 <= j < |s| ==> !IsSeparator(s[j])
    ensures NoDimensionFrom(s, p)
    decreases |s| - p
  {
    if p < |s| {
      NoDimensionAt(s, p);
      NoDimensionFromHere(s, p + 1);
    }
  }

  /** Without a separator no dimension starts anywhere. */
  lemma NoDimensionAt(s: string, p: nat)
    requires p <= |s|
    requires forall j :: 0 <= j < |s| ==> !IsSeparator(s[j])
    ensures DimensionAt(s, p).None?
  {
  }

  /** A unit pass changes nothing when no `2` follows the stem's first letter. */
  lemma {:induction false} SquareUnitsNone(s: string, p: nat, stem: string, unit: string)
    requires p <= |s| && stem != []
    requires forall i, j :: p <= i < j < |s| && s[i] == stem[0] ==> s[j] != '2'
    ensures SquareUnitsFrom(s, p, stem, unit) == s[p..]
    decreases |s| - p
  {
    if p < |s| {
      AtHead(s, p, stem);
      SquareUnitsNone(s, p + 1, stem, unit);
      assert s[p..] == [s[p]] + s[p + 1..];
    }
  }

  /** The unit passes leave `<number>мм²` as it is. */
  lemma SquareMillimetreUnitsKept(n: string)
    requires AllDigits(n)
    ensures CanonicalUnits(n + "мм²") == n + "мм²"
  {
    var d := n + "мм²";
    assert d[0..] == d;
    assert forall i :: 0 <= i < |d| && (d[i] == 'м' || d[i] == 'с') ==> i >= |n|;
    SquareUnitsNone(d, 0, "мм", "мм²");
    SquareUnitsNone(d, 0, "см", "см²");
    SquareUnitsNone(d, 0, "м", "м²");
  }

  /** `<number>мм²` is one token: `²` is a word character. */
  lemma SquareMillimetreOneToken(n: string)
    requires AllDigits(n)
    ensures TokensFrom(n + "мм²", 0) == [n + "мм²"]
  {
    var d := n + "мм²";
    RunEndUnique(d, 0, |n|, IsDigit);
    AtHead(d, 0, "мм²");
    AtHead(d, 0, "см²");
    AtHead(d, 0, "м²");
    RunEndUnique(d, 0, |d|, IsWord);
    assert d[0..|d|] == d;
  }

  lemma SquareMillimetreToken(n: string)
    requires AllDigits(n)
    ensures TokensFrom(CanonicalUnits(CollapseFrom(n + "мм²", 0)), 0) == [n + "мм²"]
  {
    var d := n + "мм²";
    CollapseNoSeparator(d, 0);
    assert d[0..] == d;
    SquareMillimetreUnitsKept(n);
    SquareMillimetreOneToken(n);
  }

  /** `"10мм2"`, `"10 мм^2"` and `"10 мм²"` and every other such spelling give
      the single token `<number>мм²`. */
  lemma SquareMillimetreSpelling(n: string, gap: string, u: string)
    requires AllDigits(n) && AllSpace(gap)
    requires u == "мм2" || u == "мм^2" || u == "мм²"
    ensures Tokenize(n + gap + u) == [n + "мм²"]
  {
    SquareMillimetreNormalized(n, gap, u);
    SquareMillimetreToken(n);
  }

  /** Text in which no key starts is left as it is by the rewrites. */
  lemma RewritesNoKeyStart(u: string, i: nat)
    requires NoKeyStart(u) && i <= |Rewrites|
    ensures NonEmptyKeys(Rewrites)
    ensures ApplyRewrites(u, Rewrites[i..]) == u
  {
    RewriteStep(u, 0);
    forall m | 0 <= m < |Rewrites[i..]| ensures !Contains(u, Rewrites[i..][m].key) {
      assert Rewrites[i..][m].key[0] in KeyStarts;
      ContainsHas(u, Rewrites[i..][m].key, 0);
    }
    ApplyRewritesAbsent(u, Rewrites[i..]);
  }

  /** Text in which no key starts has no unit, so no gap to close. */
  lemma NoUnitNoGap(s: string)
    requires NoKeyStart(s)
    ensures CloseUnitGaps(s, 0) == s
  {
    forall p | 0 <= p < |s| ensures !UnitGapAt(s, p) {
      var q := RunEnd(s, p, IsSpace);
      StartsWithHead(s[q..], "мм²");
      StartsWithHead(s[q..], "см²");
      StartsWithHead(s[q..], "м²");
    }
    CloseUnitGapsCopies(s, 0, |s|);
    assert s[0..|s|] == s;
  }

  lemma NoKeyStartConcat(t: string, r: string)
    requires NoKeyStart(t) && NoKeyStart(r)
    ensures NoKeyStart(t + r)
  {
    forall j | 0 <= j < |t + r| ensures (t + r)[j] !in KeyStarts {
      if j >= |t| {
        assert (t + r)[j] == r[j - |t|];
      }
    }
  }

  /** The separator after the table has replaced Cyrillic `х`. */
  function Rewritten(c: char): char {
    if c == 'х' then 'x' else c
  }

  predicate SizeChars(t: string) {
    forall j :: 0 <= j < |t| ==> IsDigit(t[j]) || IsSpace(t[j])
  }

  /** The first entry turns a Cyrillic `х` into a Latin `x`; nothing else applies. */
  lemma CyrillicSeparator(r: string)
    requires NoKeyStart(r)
    ensures NonEmptyKeys(Rewrites)
    ensures ApplyRewrites("х" + r, Rewrites) == "x" + r
  {
    var u := "х" + r;
    RewriteStep(u, 0);
    ApplyRewritesStep(u, Rewrites, 0);
    ReplaceCyrillic(r);
    LatinKept(r);
  }

  lemma ReplaceCyrillic(r: string)
    requires NoKeyStart(r)
    ensures ReplaceAll("х" + r, "х", "x") == "x" + r
  {
    var u := "х" + r;
    ContainsHas(r, "х", 0);
    ReplaceAllAbsent(r, "х", "x");
    assert u[1..] == r;
    assert ReplaceAll(u, "х", "x") == "x" + ReplaceAll(u[1..], "х", "x");
  }

  lemma LatinKept(r: string)
    requires NoKeyStart(r)
    ensures NonEmptyKeys(Rewrites)
    ensures ApplyRewrites("x" + r, Rewrites[1..]) == "x" + r
  {
    assert NoKeyStart("x" + r);
    RewritesNoKeyStart("x" + r, 1);
  }

  lemma SizeCharsNoKeyStart(t: string)
    requires SizeChars(t)
    ensures NoKeyStart(t)
  {
  }

  lemma SeparatorNoKeyStart(c: char, r: string)
    requires NoKeyStart(r) && IsSeparator(c)
    ensures NoKeyStart([Rewritten(c)] + r)
  {
  }

  /** A separator and the digits and whitespace after it. */
  lemma SeparatorRest(c: char, r: string)
    requires NoKeyStart(r) && IsSeparator(c)
    ensures NonEmptyKeys(Rewrites)
    ensures ApplyRewrites([c] + r, Rewrites) == [Rewritten(c)] + r
  {
    if c == 'х' {
      assert [c] + r == "х" + r;
      CyrillicSeparator(r);
    } else {
      SeparatorNoKeyStart(c, r);
      RewritesNoKeyStart([c] + r, 0);
      assert Rewrites[0..] == Rewrites;
    }
  }

  lemma SeparatorRewritten(t: string, c: char, r: string)
    requires NoKeyStart(t) && NoKeyStart(r) && IsSeparator(c)
    ensures NonEmptyKeys(Rewrites)
    ensures ApplyRewrites(t + ([c] + r), Rewrites) == t + ([Rewritten(c)] + r)
  {
    RewritesSkip(t, [c] + r);
    SeparatorRest(c, r);
  }

  lemma LoweredSeparator(t: string, c: char, r: string)
    requires SizeChars(t) && SizeChars(r) && IsSeparator(c)
    ensures Lowered(t + ([c] + r)) == t + ([c] + r)
  {
    var s := t + ([c] + r);
    assert forall j :: 0 <= j < |s| ==> IsDigit(s[j]) || IsSpace(s[j]) || IsSeparator(s[j]);
    LoweredSpelling(s, []);
    assert s + [] == s;
  }

  /** Digits and whitespace around a separator normalise to themselves, with
      a Cyrillic `х` made Latin. */
  lemma DimensionNormalized(t: string, c: char, r: string)
    requires SizeChars(t) && SizeChars(r) && IsSeparator(c)
    ensures Normalized(t + ([c] + r)) == t + ([Rewritten(c)] + r)
  {
    LoweredSeparator(t, c, r);
    SizeCharsNoKeyStart(t);
    SizeCharsNoKeyStart(r);
    SeparatorRewritten(t, c, r);
    SeparatorNoKeyStart(c, r);
    NoKeyStartConcat(t, [Rewritten(c)] + r);
    NoUnitNoGap(t + ([Rewritten(c)] + r));
  }

  /** A run of digits that no digit, dot or comma follows is a whole number. */
  lemma NumberEndDigits(s: string, p: nat, q: nat)
    requires p < q <= |s|
    requires forall j :: p <= j < q ==> IsDigit(s[j])
    requires q < |s| ==> !IsDigit(s[q]) && s[q] != '.' && s[q] != ','
    ensures NumberEnd(s, p) == q
  {
    RunEndUnique(s, p, q, IsDigit);
  }

  /** `s` is `<digits><whitespace><separator><whitespace><digits>`: the first
      number ends at `i1`, the separator stands at `i2`, the second number
      starts at `i4`. */
  predicate DimensionShape(s: string, i1: nat, i2: nat, i4: nat) {
    && 0 < i1 <= i2 < i4 < |s|
    && (forall j :: 0 <= j < i1 ==> IsDigit(s[j]))
    && (forall j :: i1 <= j < i2 ==> IsSpace(s[j]))
    && IsSeparator(s[i2])
    && (forall j :: i2 < j < i4 ==> IsSpace(s[j]))
    && (forall j :: i4 <= j < |s| ==> IsDigit(s[j]))
  }

  /** The dimension pattern matches the whole text ... */
  lemma DimensionMatched(s: string, i1: nat, i2: nat, i4: nat)
    requires DimensionShape(s, i1, i2, i4)
    ensures DimensionAt(s, 0) == Some(Span(i1, i4, |s|))
  {
    NumberEndDigits(s, 0, i1);
    RunEndUnique(s, i1, i2, IsSpace);
    RunEndUnique(s, i2 + 1, i4, IsSpace);
    NumberEndDigits(s, i4, |s|);
  }

  /** ... and joins the numbers with a Latin `x`. */
  lemma DimensionCollapsed(s: string, i1: nat, i2: nat, i4: nat)
    requires DimensionShape(s, i1, i2, i4)
    ensures CollapseFrom(s, 0) == s[..i1] + "x" + s[i4..]
  {
    DimensionMatched(s, i1, i2, i4);
    assert s[0..i1] == s[..i1] && s[i4..|s|] == s[i4..];
  }

  /** `<a>x<b>` passes the unit passes untouched ... */
  lemma DimensionUnitsKept(a: string, b: string)
    requires AllDigits(a) && AllDigits(b)
    ensures CanonicalUnits(a + "x" + b) == a + "x" + b
  {
    var d := a + "x" + b;
    assert forall j :: 0 <= j < |d| ==> IsDigit(d[j]) || d[j] == 'x';
    SquareUnitsNone(d, 0, "мм", "мм²");
    SquareUnitsNone(d, 0, "см", "см²");
    SquareUnitsNone(d, 0, "м", "м²");
    assert d[0..] == d;
  }

  /** ... and is one dimension token. */
  lemma DimensionOneToken(a: string, b: string)
    requires AllDigits(a) && AllDigits(b)
    ensures TokensFrom(a + "x" + b, 0) == [a + "x" + b]
  {
    var d := a + "x" + b;
    NumberEndDigits(d, 0, |a|);
    NumberEndDigits(d, |a| + 1, |d|);
    assert DimensionTokenEnd(d, 0) == |d|;
    assert d[0..|d|] == d;
  }

  /** Normalisation makes a Cyrillic `х` Latin and changes nothing else. */
  lemma DimensionShapeNormalized(s: string, i1: nat, i2: nat, i4: nat)
    requires DimensionShape(s, i1, i2, i4)
    ensures Normalized(s) == s[..i2] + ([Rewritten(s[i2])] + s[i2 + 1..])
  {
    var t, c, r := s[..i2], s[i2], s[i2 + 1..];
    assert SizeChars(t) && SizeChars(r);
    assert s == t + ([c] + r);
    DimensionNormalized(t, c, r);
  }

  lemma SeparatorReplacedShape(s: string, i1: nat, i2: nat, i4: nat)
    requires DimensionShape(s, i1, i2, i4)
    ensures var s' := s[..i2] + ([Rewritten(s[i2])] + s[i2 + 1..]);
      DimensionShape(s', i1, i2, i4) && s'[..i1] == s[..i1] && s'[i4..] == s[i4..]
  {
    var s' := s[..i2] + ([Rewritten(s[i2])] + s[i2 + 1..]);
    assert forall j :: 0 <= j < |s| && j != i2 ==> s'[j] == s[j];
    assert s'[..i1] == s[..i1] && s'[i4..] == s[i4..];
  }

  /** The collapsed text is one dimension token. */
  lemma DimensionTokens(s: string, i1: nat, i2: nat, i4: nat)
    requires DimensionShape(s, i1, i2, i4)
    ensures TokensFrom(CanonicalUnits(CollapseFrom(s, 0)), 0) == [s[..i1] + "x" + s[i4..]]
  {
    DimensionCollapsed(s, i1, i2, i4);
    DimensionUnitsKept(s[..i1], s[i4..]);
    DimensionOneToken(s[..i1], s[i4..]);
  }

  lemma DimensionTokenized(s: string, i1: nat, i2: nat, i4: nat)
    requires DimensionShape(s, i1, i2, i4)
    ensures Tokenize(s) == TokensFrom(CanonicalUnits(CollapseFrom(s[..i2] + ([Rewritten(s[i2])] + s[i2 + 1..]), 0)), 0)
  {
    DimensionShapeNormalized(s, i1, i2, i4);
  }

  /** Two numbers around `x`, `х`, `×` or `*`, with any whitespace between
      them, give the single token `<a>x<b>`. */
  lemma DimensionSpelling(s: string, i1: nat, i2: nat, i4: nat)
    requires DimensionShape(s, i1, i2, i4)
    ensures Tokenize(s) == [s[..i1] + "x" + s[i4..]]
  {
    var s' := s[..i2] + ([Rewritten(s[i2])] + s[i2 + 1..]);
    DimensionTokenized(s, i1, i2, i4);
    SeparatorReplacedShape(s, i1, i2, i4);
    DimensionTokens(s', i1, i2, i4);
  }

  lemma SpacedExampleShape(s: string)
    requires s == "120 x 60" || s == "120 х 60"
    ensures DimensionShape(s, 3, 4, 6) && s[..3] + "x" + s[6..] == "120x60"
  {
  }

  lemma TightExampleShape(s: string)
    requires s == "120×60" || s == "120*60"
    ensures DimensionShape(s, 3, 3, 4) && s[..3] + "x" + s[4..] == "120x60"
  {
  }

  /** `"120 x 60"`, `"120×60"`, `"120*60"` and `"120 х 60"` each give the
      single token `"120x60"`. */
  lemma DimensionExamples(s: string)
    requires s == "120 x 60" || s == "120×60" || s == "120*60" || s == "120 х 60"
    ensures Tokenize(s) == ["120x60"]
  {
    if s == "120 x 60" || s == "120 х 60" {
      SpacedExampleShape(s);
      DimensionSpelling(s, 3, 4, 6);
    } else {
      TightExampleShape(s);
      DimensionSpelling(s, 3, 3, 4);
    }
  }

  lemma SquareExampleParts(s: string, gap: string, u: string)
    requires (s == "10мм2" && gap == "" && u == "мм2") || (s == "10 мм^2" && gap == " " && u == "мм^2")
             || (s == "10 мм²" && gap == " " && u == "мм²")
    ensures s == "10" + gap + u && AllSpace(gap) && AllDigits("10") && "10" + "мм²" == "10мм²"
  {
  }

  /** `"10мм2"`, `"10 мм^2"` and `"10 мм²"` give the same token list. */
  lemma SquareMillimetreExamples(s: string)
    requires s == "10мм2" || s == "10 мм^2" || s == "10 мм²"
    ensures Tokenize(s) == ["10мм²"]
  {
    var gap := if s == "10мм2" then "" else " ";
    var u := if s == "10мм2" then "мм2" else if s == "10 мм^2" then "мм^2" else "мм²";
    SquareExampleParts(s, gap, u);
    SquareMillimetreSpelling("10", gap, u);
  }
}
