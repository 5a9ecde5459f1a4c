/**
 * The size-preserving tokeniser (`DataProcessor.split_preserve_sizes`):
 * normalise the text, collapse `<number> <separator> <number>` to
 * `<number>x<number>`, canonicalise free-standing `мм 2`-style units, then
 * collect the tokens `re.findall` finds.  Each regular expression is a
 * scanner over the text that tries a match at each position in turn, as
 * `re.sub` and `re.findall` do.
 */
module Tokenizer {
  import opened Wrappers
  import opened Chars
  import opened Strings
  import opened Scanning
  import opened Normalizer

  /** `[xх×*]`: Latin `x`, Cyrillic `х`, the multiplication sign and `*`. */
  predicate IsSeparator(c: char) {
    c == 'x' || c == 'х' || c == '×' || c == '*'
  }

  /** `\s*[xх×*]\s*`: one separator with whitespace around it. */
  predicate IsSeparatorGap(g: string) {
    exists k :: 0 <= k < |g| && IsSeparator(g[k]) && forall j :: 0 <= j < |g| && j != k ==> IsSpace(g[j])
  }

  /** Where the parts of a dimension match end: the first number is
      `s[p..firstEnd]`, the second `s[second..end]`. */
  datatype Span = Span(firstEnd: nat, second: nat, end: nat)

  /** `(\d+(?:[.,]\d+)?)\s*[xх×*]\s*(\d+(?:[.,]\d+)?)` matched at `p`.  Every
      part is greedy and nothing a shorter part leaves behind can continue
      the match, so the first attempt decides. */
  function DimensionAt(s: string, p: nat): (m: Option<Span>)
    requires p <= |s|
    ensures m.Some? ==> p < m.value.firstEnd < m.value.second < m.value.end <= |s|
    ensures m.Some? ==> IsNumber(s[p..m.value.firstEnd]) && IsNumber(s[m.value.second..m.value.end])
    ensures m.Some? ==> IsSeparatorGap(s[m.value.firstEnd..m.value.second])
    ensures forall e1: nat, b: nat, e2: nat :: DimensionMatch(s, p, e1, b, e2) ==>
      m.Some? && m.value.firstEnd == e1 && m.value.second == b && e2 <= m.value.end
  {
    DimensionMatches(s, p);
    var e1 := NumberEnd(s, p);
    var a := RunEnd(s, e1, IsSpace);
    if e1 == p || a == |s| || !IsSeparator(s[a]) then None
    else
      var b := RunEnd(s, a + 1, IsSpace);
      var e2 := NumberEnd(s, b);
      if e2 == b then None
      else
        SeparatorGapBetween(s, e1, a, b);
        Some(Span(e1, b, e2))
  }

  /** A dimension whose first number is `s[p..e1]`, whose separator gap is
      `s[e1..b]` and whose second number is `s[b..e2]`. */
  predicate DimensionMatch(s: string, p: nat, e1: nat, b: nat, e2: nat) {
    p < e1 < b < e2 <= |s| && IsNumber(s[p..e1]) && IsSeparatorGap(s[e1..b]) && IsNumber(s[b..e2])
  }

  /** The scan's view of a dimension: the first number ends where
      `NumberEnd` stops, whitespace runs to the separator, whitespace after
      it runs to `b`, and the second number fits in the one at `b`. */
  predicate ScanFinds(s: string, p: nat, e1: nat, b: nat, e2: nat)
    requires p <= |s|
  {
    && e1 == NumberEnd(s, p)
    && RunEnd(s, e1, IsSpace) < |s|
    && IsSeparator(s[RunEnd(s, e1, IsSpace)])
    && RunEnd(s, RunEnd(s, e1, IsSpace) + 1, IsSpace) == b
    && b < e2 <= NumberEnd(s, b)
  }

  /** Any dimension at `p` is the one the scan finds: its first number and
      its gap are forced, and its second number is at most the longest. */
  lemma DimensionMatches(s: string, p: nat)
    requires p <= |s|
    ensures forall e1: nat, b: nat, e2: nat :: DimensionMatch(s, p, e1, b, e2) ==> ScanFinds(s, p, e1, b, e2)
  {
    forall e1: nat, b: nat, e2: nat | DimensionMatch(s, p, e1, b, e2) ensures ScanFinds(s, p, e1, b, e2) {
      DimensionMatchParts(s, p, e1, b, e2);
    }
  }

  lemma DimensionMatchParts(s: string, p: nat, e1: nat, b: nat, e2: nat)
    requires DimensionMatch(s, p, e1, b, e2)
    ensures ScanFinds(s, p, e1, b, e2)
  {
    GapParts(s, e1, b);
    var a := RunEnd(s, e1, IsSpace);
    assert !IsDigit(s[e1]) && s[e1] != '.' && s[e1] != ',';
    NumberEndStops(s, p, e1);
    NumberStart(s[b..e2]);
    assert s[b] == s[b..e2][0];
    RunEndUnique(s, a + 1, b, IsSpace);
  }

  /** In a separator gap the whitespace run from its start stops at the
      separator, and only whitespace follows the separator. */
  lemma GapParts(s: string, e1: nat, b: nat)
    requires e1 < b <= |s| && IsSeparatorGap(s[e1..b])
    ensures var a := RunEnd(s, e1, IsSpace);
      && e1 <= a < b && IsSeparator(s[a])
      && forall j :: a < j < b ==> IsSpace(s[j])
  {
    var g := s[e1..b];
    var k :| 0 <= k < |g| && IsSeparator(g[k]) && forall j :: 0 <= j < |g| && j != k ==> IsSpace(g[j]);
    forall j | e1 <= j < e1 + k ensures IsSpace(s[j]) { assert s[j] == g[j - e1]; }
    assert s[e1 + k] == g[k];
    RunEndUnique(s, e1, e1 + k, IsSpace);
    forall j | e1 + k < j < b ensures IsSpace(s[j]) { assert s[j] == g[j - e1]; }
  }

  /** A number followed by neither a digit, a dot nor a comma ends where
      `NumberEnd` says. */
  lemma NumberEndStops(s: string, p: nat, e: nat)
    requires p < e < |s| && IsNumber(s[p..e])
    requires !IsDigit(s[e]) && s[e] != '.' && s[e] != ','
    ensures e == NumberEnd(s, p)
  {
  }

  lemma NumberStart(n: string)
    requires IsNumber(n)
    ensures IsDigit(n[0])
  {
    if !AllDigits(n) {
      var i :| 0 < i < |n| - 1 && (n[i] == '.' || n[i] == ',') && AllDigits(n[..i]) && AllDigits(n[i + 1..]);
      assert n[0] == n[..i][0];
    }
  }

  /** Whitespace, one separator at `a`, whitespace: a separator gap. */
  lemma SeparatorGapBetween(s: string, i: nat, a: nat, b: nat)
    requires i <= a < b <= |s| && IsSeparator(s[a])
    requires forall j :: i <= j < a ==> IsSpace(s[j])
    requires forall j :: a < j < b ==> IsSpace(s[j])
    ensures IsSeparatorGap(s[i..b])
  {
    var g := s[i..b];
    assert g[a - i] == s[a];
    forall j | 0 <= j < |g| && j != a - i ensures IsSpace(g[j]) {
      assert g[j] == s[i + j];
    }
  }

  /** No dimension starts at any position from `p` on. */
  predicate NoDimensionFrom(s: string, p: nat)
    requires p <= |s|
    decreases |s| - p
  {
    p == |s| || (DimensionAt(s, p).None? && NoDimensionFrom(s, p + 1))
  }

  /** `re.sub(dimension, r'\1x\2', s[p..])`: each match becomes its two
      numbers joined by a Latin `x`; the rest of the text is copied. */
  function CollapseFrom(s: string, p: nat): (r: string)
    requires p <= |s|
    ensures |r| <= |s| - p
    ensures NoDimensionFrom(s, p) ==> r == s[p..]
    ensures forall e1: nat, b: nat :: DimensionMatch(s, p, e1, b, |s|) ==> r == s[p..e1] + "x" + s[b..]
    decreases |s| - p
  {
    if p == |s| then []
    else match DimensionAt(s, p)
      case Some(m) =>
        var rest := CollapseFrom(s, m.end);
        CollapseMatched(s, p, m, rest);
        s[p..m.firstEnd] + "x" + s[m.second..m.end] + rest
      case None =>
        var rest := CollapseFrom(s, p + 1);
        CollapseUnmatched(s, p, rest);
        [s[p]] + rest
  }

  /** A dimension that runs to the end of the text is the one the scan
      finds at `p`. */
  lemma WholeDimension(s: string, p: nat)
    requires p <= |s|
    ensures forall e1: nat, b: nat :: DimensionMatch(s, p, e1, b, |s|) ==>
      DimensionAt(s, p) == Some(Span(e1, b, |s|))
  {
  }

  /** The dimension found at `p`, followed by what comes of the rest. */
  lemma CollapseMatched(s: string, p: nat, m: Span, rest: string)
    requires p <= |s| && DimensionAt(s, p) == Some(m)
    requires m.end == |s| ==> rest == []
    ensures forall e1: nat, b: nat :: DimensionMatch(s, p, e1, b, |s|) ==>
      s[p..m.firstEnd] + "x" + s[m.second..m.end] + rest == s[p..e1] + "x" + s[b..]
  {
    WholeDimension(s, p);
  }

  /** No dimension at `p`: its character, followed by what comes of the rest. */
  lemma CollapseUnmatched(s: string, p: nat, rest: string)
    requires p < |s| && DimensionAt(s, p).None?
    requires NoDimensionFrom(s, p + 1) ==> rest == s[p + 1..]
    ensures NoDimensionFrom(s, p) ==> [s[p]] + rest == s[p..]
    ensures forall e1: nat, b: nat :: !DimensionMatch(s, p, e1, b, |s|)
  {
    WholeDimension(s, p);
    assert s[p..] == [s[p]] + s[p + 1..];
  }

  /** `re.sub` copies a stretch of text in which no dimension starts. */
  lemma {:induction false} CollapseSkip(s: string, p: nat, q: nat)
    requires p <= q <= |s|
    requires forall j :: p <= j < q ==> DimensionAt(s, j).None?
    ensures CollapseFrom(s, p) == s[p..q] + CollapseFrom(s, q)
    decreases q - p
  {
    if p < q {
      CollapseSkip(s, p + 1, q);
      SliceCons(s, p, q, CollapseFrom(s, q));
    }
  }

  /** A dimension found at `p` becomes its two numbers joined by a Latin
      `x`, and the substitution goes on where the match ends. */
  lemma CollapseMatchedStep(s: string, p: nat, m: Span)
    requires p <= |s| && DimensionAt(s, p) == Some(m)
    ensures CollapseFrom(s, p) == s[p..m.firstEnd] + "x" + s[m.second..m.end] + CollapseFrom(s, m.end)
  {
  }

  /** The dimension at `q` after a stretch without one: the text before it
      is copied, the dimension collapsed, and the rest substituted in turn. */
  lemma CollapseAround(s: string, p: nat, q: nat, m: Span)
    requires p <= q <= |s|
    requires forall j :: p <= j < q ==> DimensionAt(s, j).None?
    requires DimensionAt(s, q) == Some(m)
    ensures CollapseFrom(s, p) == s[p..q] + (s[q..m.firstEnd] + "x" + s[m.second..m.end] + CollapseFrom(s, m.end))
  {
    CollapseSkip(s, p, q);
    CollapseMatchedStep(s, q, m);
  }

  lemma SliceCons(s: string, p: nat, q: nat, rest: string)
    requires p < q <= |s|
    ensures [s[p]] + (s[p + 1..q] + rest) == s[p..q] + rest
  {
    assert s[p..q] == [s[p]] + s[p + 1..q];
  }

  /** `\b`: a word character on exactly one side of position `p`. */
  predicate Boundary(s: string, p: nat)
    requires p <= |s|
  {
    (0 < p && IsWord(s[p - 1])) != (p < |s| && IsWord(s[p]))
  }

  /** `\s*[\^]?\s*`: whitespace with at most one caret in it. */
  predicate IsCaretGap(g: string) {
    || (forall j :: 0 <= j < |g| ==> IsSpace(g[j]))
    || exists k :: 0 <= k < |g| && g[k] == '^' && forall j :: 0 <= j < |g| && j != k ==> IsSpace(g[j])
  }

  /** `\b<stem>\s*[\^]?\s*2\b` matching `s[p..e]`. */
  predicate SquaredUnitMatch(s: string, p: nat, stem: string, e: nat) {
    && p + |stem| < e <= |s|
    && At(s, p, stem)
    && Boundary(s, p)
    && IsCaretGap(s[p + |stem|..e - 1])
    && s[e - 1] == '2'
    && Boundary(s, e)
  }

  /** Where `\s*[\^]?\s*` starting at `q` ends: whitespace, the caret when
      one follows, and whitespace again. */
  function CaretGapEnd(s: string, q: nat): (b: nat)
    requires q <= |s|
    ensures q <= b <= |s| && IsCaretGap(s[q..b])
  {
    var a := RunEnd(s, q, IsSpace);
    if a < |s| && s[a] == '^' then
      var b := RunEnd(s, a + 1, IsSpace);
      CaretGapBetween(s, q, a, b);
      b
    else
      CaretGapBetween(s, q, a, a);
      a
  }

  /** `\b<stem>\s*[\^]?\s*2\b` matched at `p`; the end of the match.  The
      optional caret is taken when it is there, and a shorter whitespace run
      would leave a space where the caret or the `2` must stand, so a match
      is found exactly when one exists, and it is the only one. */
  function SquaredUnitAt(s: string, p: nat, stem: string): (e: Option<nat>)
    requires p <= |s| && stem != []
    ensures e.Some? ==> SquaredUnitMatch(s, p, stem, e.value)
    ensures forall f: nat :: SquaredUnitMatch(s, p, stem, f) ==> e == Some(f)
  {
    SquaredUnitMatches(s, p, stem);
    if !At(s, p, stem) || !Boundary(s, p) then None
    else
      var b := CaretGapEnd(s, p + |stem|);
      if b < |s| && s[b] == '2' && Boundary(s, b + 1) then Some(b + 1) else None
  }

  /** Whitespace up to `a`, then a caret and more whitespace up to `b` when a
      caret stands at `a`: a caret gap. */
  lemma CaretGapBetween(s: string, i: nat, a: nat, b: nat)
    requires i <= a <= b <= |s|
    requires forall j :: i <= j < a ==> IsSpace(s[j])
    requires a < b ==> s[a] == '^' && forall j :: a < j < b ==> IsSpace(s[j])
    ensures IsCaretGap(s[i..b])
  {
    var g := s[i..b];
    if a < b {
      assert g[a - i] == '^';
      forall j | 0 <= j < |g| && j != a - i ensures IsSpace(g[j]) { assert g[j] == s[i + j]; }
    } else {
      forall j | 0 <= j < |g| ensures IsSpace(g[j]) { assert g[j] == s[i + j]; }
    }
  }

  /** Any match of the unit pattern at `p` puts its `2` where the caret gap
      after the stem ends. */
  lemma SquaredUnitMatches(s: string, p: nat, stem: string)
    requires p <= |s|
    ensures forall f: nat :: SquaredUnitMatch(s, p, stem, f) ==> f - 1 == CaretGapEnd(s, p + |stem|)
  {
    forall f: nat | SquaredUnitMatch(s, p, stem, f) ensures f - 1 == CaretGapEnd(s, p + |stem|) {
      CaretGapStops(s, p + |stem|, f - 1);
    }
  }

  /** A caret gap followed by a character that is neither whitespace nor a
      caret ends where `CaretGapEnd` says. */
  lemma CaretGapStops(s: string, q: nat, c: nat)
    requires q <= c < |s| && IsCaretGap(s[q..c]) && !IsSpace(s[c]) && s[c] != '^'
    ensures c == CaretGapEnd(s, q)
  {
    var g := s[q..c];
    if forall j :: 0 <= j < |g| ==> IsSpace(g[j]) {
      forall j | q <= j < c ensures IsSpace(s[j]) { assert s[j] == g[j - q]; }
      RunEndUnique(s, q, c, IsSpace);
    } else {
      var k :| 0 <= k < |g| && g[k] == '^' && forall j :: 0 <= j < |g| && j != k ==> IsSpace(g[j]);
      forall j | q <= j < q + k ensures IsSpace(s[j]) { assert s[j] == g[j - q]; }
      assert s[q + k] == g[k];
      RunEndUnique(s, q, q + k, IsSpace);
      forall j | q + k + 1 <= j < c ensures IsSpace(s[j]) { assert s[j] == g[j - q]; }
      RunEndUnique(s, q + k + 1, c, IsSpace);
    }
  }

  /** The unit pattern matches at no position from `p` on. */
  predicate NoSquaredUnitFrom(s: string, p: nat, stem: string)
    requires p <= |s| && stem != []
    decreases |s| - p
  {
    p == |s| || (SquaredUnitAt(s, p, stem).None? && NoSquaredUnitFrom(s, p + 1, stem))
  }

  /** `re.sub(r'\b<stem>\s*[\^]?\s*2\b', unit, s[p..])`: a text in which
      the pattern matches nowhere is kept, and a text that is one match
      becomes the unit. */
  function SquareUnitsFrom(s: string, p: nat, stem: string, unit: string): (r: string)
    requires p <= |s| && stem != []
    ensures NoSquaredUnitFrom(s, p, stem) ==> r == s[p..]
    ensures p < |s| && SquaredUnitMatch(s, p, stem, |s|) ==> r == unit
    decreases |s| - p
  {
    if p == |s| then []
    else match SquaredUnitAt(s, p, stem)
      case Some(e) => unit + SquareUnitsFrom(s, e, stem, unit)
      case None =>
        assert s[p..] == [s[p]] + s[p + 1..];
        [s[p]] + SquareUnitsFrom(s, p + 1, stem, unit)
  }

  /** The unit pass copies a stretch where its pattern matches nowhere. */
  lemma {:induction false} SquareUnitsSkip(s: string, p: nat, q: nat, stem: string, unit: string)
    requires p <= q <= |s| && stem != []
    requires forall j :: p <= j < q ==> SquaredUnitAt(s, j, stem).None?
    ensures SquareUnitsFrom(s, p, stem, unit) == s[p..q] + SquareUnitsFrom(s, q, stem, unit)
    decreases q - p
  {
    if p < q {
      SquareUnitsStep(s, p, stem, unit);
      SquareUnitsSkip(s, p + 1, q, stem, unit);
      SliceCons(s, p, q, SquareUnitsFrom(s, q, stem, unit));
    }
  }

  /** One character where the pattern does not match is copied. */
  lemma SquareUnitsStep(s: string, p: nat, stem: string, unit: string)
    requires p < |s| && stem != [] && SquaredUnitAt(s, p, stem).None?
    ensures SquareUnitsFrom(s, p, stem, unit) == [s[p]] + SquareUnitsFrom(s, p + 1, stem, unit)
  {
  }

  /** A match found at `p` becomes the unit symbol, and the pass goes on
      where the match ends. */
  lemma SquareUnitsMatchedStep(s: string, p: nat, stem: string, unit: string, e: nat)
    requires p < |s| && stem != [] && SquaredUnitAt(s, p, stem) == Some(e)
    ensures SquareUnitsFrom(s, p, stem, unit) == unit + SquareUnitsFrom(s, e, stem, unit)
  {
  }

  /** The three unit passes, square millimetres first.  Each pattern ends
      with a `2`, so a text without one is kept. */
  function CanonicalUnits(s: string): (r: string)
    ensures (forall j :: 0 <= j < |s| ==> s[j] != '2') ==> r == s
  {
    var t := SquareUnitsFrom(s, 0, "мм", "мм²");
    NoTwoNoUnit(s, "мм");
    var u := SquareUnitsFrom(t, 0, "см", "см²");
    NoTwoNoUnit(s, "см");
    var r := SquareUnitsFrom(u, 0, "м", "м²");
    NoTwoNoUnit(s, "м");
    assert s[0..] == s;
    r
  }

  /** Without a `2` the unit pattern matches nowhere. */
  lemma NoTwoNoUnit(s: string, stem: string)
    requires stem != []
    ensures (forall j :: 0 <= j < |s| ==> s[j] != '2') ==> NoSquaredUnitFrom(s, 0, stem)
  {
    if forall j :: 0 <= j < |s| ==> s[j] != '2' {
      NoTwoNoUnitFrom(s, 0, stem);
    }
  }

  lemma {:induction false} NoTwoNoUnitFrom(s: string, p: nat, stem: string)
    requires p <= |s| && stem != []
    requires forall j :: 0 <= j < |s| ==> s[j] != '2'
    ensures NoSquaredUnitFrom(s, p, stem)
    decreases |s| - p
  {
    if p < |s| {
      NoTwoNoUnitFrom(s, p + 1, stem);
    }
  }

  /** `\d+(?:[.,]\d+)?x\d+(?:[.,]\d+)?`: two numbers around a Latin `x`. */
  predicate IsDimension(t: string) {
    exists i :: 0 < i < |t| - 1 && t[i] == 'x' && IsNumber(t[..i]) && IsNumber(t[i + 1..])
  }

  predicate IsUnit(t: string) {
    t == "мм²" || t == "см²" || t == "м²"
  }

  /** `\w+` */
  predicate IsWordRun(t: string) {
    t != [] && forall j :: 0 <= j < |t| ==> IsWord(t[j])
  }

  /** What `findall` can return: a dimension pair, a unit symbol or a run of
      word characters. */
  predicate IsToken(t: string) {
    IsDimension(t) || IsUnit(t) || IsWordRun(t)
  }

  /** The dimension alternative of the token pattern at `p`; its end, or `p`
      when it does not match. */
  function DimensionTokenEnd(s: string, p: nat): (e: nat)
    requires p <= |s|
    ensures p <= e <= |s|
    ensures e > p ==> IsDimension(s[p..e]) && IsDigit(s[p])
    ensures forall f :: p < f <= |s| && IsDimension(s[p..f]) ==> p < f <= e
  {
    DimensionTokenShapes(s, p);
    var e1 := NumberEnd(s, p);
    if e1 == p || e1 == |s| || s[e1] != 'x' then p
    else
      var e2 := NumberEnd(s, e1 + 1);
      if e2 == e1 + 1 then p
      else
        assert s[p..e2][..e1 - p] == s[p..e1] && s[p..e2][e1 - p + 1..] == s[e1 + 1..e2];
        e2
  }

  /** Every dimension at `p` has its `x` where the first number ends and
      its end inside the number after the `x`. */
  lemma DimensionTokenShapes(s: string, p: nat)
    requires p <= |s|
    ensures forall f :: p < f <= |s| && IsDimension(s[p..f]) ==> DimensionTokenFits(s, p, f)
  {
    forall f | p < f <= |s| && IsDimension(s[p..f]) ensures DimensionTokenFits(s, p, f) {
      var t := s[p..f];
      var i :| 0 < i < |t| - 1 && t[i] == 'x' && IsNumber(t[..i]) && IsNumber(t[i + 1..]);
      DimensionTokenSplit(s, p, f, i);
    }
  }

  lemma DimensionTokenSplit(s: string, p: nat, f: nat, i: nat)
    requires p < f <= |s| && 0 < i < f - p - 1 && s[p + i] == 'x'
    requires IsNumber(s[p..f][..i]) && IsNumber(s[p..f][i + 1..])
    ensures DimensionTokenFits(s, p, f)
  {
    assert s[p..f][..i] == s[p..p + i] && s[p..f][i + 1..] == s[p + i + 1..f];
    NumberEndStops(s, p, p + i);
  }

  predicate DimensionTokenFits(s: string, p: nat, f: nat)
    requires p <= |s|
  {
    var e1 := NumberEnd(s, p);
    e1 < |s| && s[e1] == 'x' && e1 + 1 < f <= NumberEnd(s, e1 + 1)
  }

  /** `\d+(?:[.,]\d+)?x\d+(?:[.,]\d+)?|мм²|см²|м²|\w+` at `p`: the first
      alternative that matches decides; `p` when none does. */
  function TokenEnd(s: string, p: nat): (e: nat)
    requires p <= |s|
    ensures p <= e <= |s|
    ensures e > p ==> IsToken(s[p..e])
    ensures e == p <==> p == |s| || !IsWord(s[p])
    ensures DimensionTokenEnd(s, p) > p ==> e == DimensionTokenEnd(s, p)
    ensures DimensionTokenEnd(s, p) == p && StartsWithUnit(s[p..]) ==> IsUnit(s[p..e])
    ensures DimensionTokenEnd(s, p) == p && !StartsWithUnit(s[p..]) ==> e == RunEnd(s, p, IsWord)
  {
    AtStartsWith(s, p, "мм²");
    AtStartsWith(s, p, "см²");
    AtStartsWith(s, p, "м²");
    var d := DimensionTokenEnd(s, p);
    if d > p then d
    else if At(s, p, "мм²") then UnitAt(s, p, "мм²"); p + 3
    else if At(s, p, "см²") then UnitAt(s, p, "см²"); p + 3
    else if At(s, p, "м²") then UnitAt(s, p, "м²"); p + 2
    else RunEnd(s, p, IsWord)
  }

  /** A unit symbol found in the text is a token that starts with a word
      character. */
  lemma UnitAt(s: string, p: nat, w: string)
    requires At(s, p, w) && IsUnit(w)
    ensures p + |w| <= |s| && s[p..p + |w|] == w && IsToken(s[p..p + |w|])
    ensures p < |s| && IsWord(s[p])
  {
    assert s[p] == w[0];
  }

  predicate NotWord(c: char) {
    !IsWord(c)
  }

  /** `re.findall(token, s[p..])`: a position where no token starts is
      skipped; the first token is the one at the first word character, and
      the search goes on where it ends. */
  function TokensFrom(s: string, p: nat): (ts: seq<string>)
    requires p <= |s|
    ensures forall i :: 0 <= i < |ts| ==> IsToken(ts[i])
    ensures ts == [] <==> forall j :: p <= j < |s| ==> !IsWord(s[j])
    ensures var i := RunEnd(s, p, NotWord); i < |s| ==> ts != [] && ts[0] == s[i..TokenEnd(s, i)]
    decreases |s| - p
  {
    if p == |s| then []
    else
      var e := TokenEnd(s, p);
      NextWordStep(s, p);
      if e == p then TokensFrom(s, p + 1) else [s[p..e]] + TokensFrom(s, e)
  }

  /** The tokens from `p` on are the token at the next word character `i`
      followed by the tokens after it. */
  lemma {:induction false} TokensFromNext(s: string, p: nat)
    requires p <= |s|
    ensures var i := RunEnd(s, p, NotWord);
      i < |s| ==> TokensFrom(s, p) == [s[i..TokenEnd(s, i)]] + TokensFrom(s, TokenEnd(s, i))
    decreases |s| - p
  {
    if p < |s| {
      NextWordStep(s, p);
      if !IsWord(s[p]) {
        TokensFromNext(s, p + 1);
      }
    }
  }

  /** The next token starts at the next word character `i` and ends at `e`. */
  lemma TokensStep(s: string, p: nat, i: nat, e: nat)
    requires p <= i < |s| && RunEnd(s, p, NotWord) == i && TokenEnd(s, i) == e
    ensures TokensFrom(s, p) == [s[i..e]] + TokensFrom(s, e)
  {
    TokensFromNext(s, p);
  }

  lemma TokensDone(s: string)
    ensures TokensFrom(s, |s|) == []
  {
  }

  /** The next word character is at `p` or, when `s[p]` is not one, at the
      next one after `p`. */
  lemma NextWordStep(s: string, p: nat)
    requires p < |s|
    ensures IsWord(s[p]) ==> RunEnd(s, p, NotWord) == p
    ensures !IsWord(s[p]) ==> RunEnd(s, p, NotWord) == RunEnd(s, p + 1, NotWord)
  {
  }

  /** `split_preserve_sizes`: every token is a dimension, a unit symbol or
      a word run. */
  function Tokenize(text: string): (ts: seq<string>)
    ensures forall i :: 0 <= i < |ts| ==> IsToken(ts[i])
  {
    TokensFrom(CanonicalUnits(CollapseFrom(Normalized(text), 0)), 0)
  }

  /** The text holds a word character. */
  predicate HasWord(s: string) {
    exists j :: 0 <= j < |s| && IsWord(s[j])
  }

  lemma HasWordConcat(a: string, b: string)
    ensures HasWord(a + b) <==> HasWord(a) || HasWord(b)
  {
    if HasWord(a + b) {
      var j :| 0 <= j < |a + b| && IsWord((a + b)[j]);
      if j >= |a| {
        assert b[j - |a|] == (a + b)[j];
      }
    }
    if HasWord(a) {
      var j :| 0 <= j < |a| && IsWord(a[j]);
      assert (a + b)[j] == a[j];
    }
    if HasWord(b) {
      var j :| 0 <= j < |b| && IsWord(b[j]);
      assert (a + b)[|a| + j] == b[j];
    }
  }

  /** Splitting the text at `q`. */
  lemma HasWordSplit(s: string, p: nat, q: nat)
    requires p <= q <= |s|
    ensures HasWord(s[p..]) <==> HasWord(s[p..q]) || HasWord(s[q..])
    ensures q == p + 1 ==> s[p..q] == [s[p]]
  {
    assert s[p..] == s[p..q] + s[q..];
    HasWordConcat(s[p..q], s[q..]);
  }

  /** A key and its replacement either both hold a word character or both
      do not. */
  predicate WordBalanced(r: Rewrite) {
    HasWord(r.key) <==> HasWord(r.value)
  }

  /** A replacement whose key and value are word-balanced keeps the text's
      word characters present or absent. */
  lemma {:induction false} ReplaceAllHasWord(s: string, k: string, v: string)
    requires k != [] && (HasWord(k) <==> HasWord(v))
    ensures HasWord(ReplaceAll(s, k, v)) <==> HasWord(s)
    decreases |s|
  {
    if |s| < |k| {
    } else if StartsWith(s, k) {
      ReplaceAllHasWord(s[|k|..], k, v);
      HasWordConcat(v, ReplaceAll(s[|k|..], k, v));
      assert s == k + s[|k|..];
      HasWordConcat(k, s[|k|..]);
    } else {
      ReplaceAllHasWord(s[1..], k, v);
      HasWordConcat([s[0]], ReplaceAll(s[1..], k, v));
      assert s == [s[0]] + s[1..];
      HasWordConcat([s[0]], s[1..]);
    }
  }

  lemma {:induction false} ApplyRewritesHasWord(s: string, rules: seq<Rewrite>)
    requires NonEmptyKeys(rules)
    requires forall i :: 0 <= i < |rules| ==> WordBalanced(rules[i])
    ensures HasWord(ApplyRewrites(s, rules)) <==> HasWord(s)
    decreases |rules|
  {
    if rules != [] {
      ReplaceAllHasWord(s, rules[0].key, rules[0].value);
      ApplyRewritesHasWord(ReplaceAll(s, rules[0].key, rules[0].value), rules[1..]);
    }
  }

  /** Each entry of the rewrite table is word-balanced. */
  lemma RewritesWordBalanced()
    ensures NonEmptyKeys(Rewrites)
    ensures forall i :: 0 <= i < |Rewrites| ==> WordBalanced(Rewrites[i])
  {
    assert IsWord("х"[0]) && IsWord("x"[0]) && IsWord("ё"[0]) && IsWord("е"[0]);
    assert IsWord("мм2"[0]) && IsWord("мм²"[0]) && IsWord("мм^2"[0]);
    assert IsWord("см2"[0]) && IsWord("см²"[0]) && IsWord("см^2"[0]);
    assert IsWord("м2"[0]) && IsWord("м²"[0]) && IsWord("м^2"[0]);
  }

  lemma {:induction false} CloseUnitGapsHasWord(s: string, p: nat)
    requires p <= |s|
    ensures HasWord(CloseUnitGaps(s, p)) <==> HasWord(s[p..])
    decreases |s| - p
  {
    if p == |s| {
    } else if UnitGapAt(s, p) {
      var q := RunEnd(s, p, IsSpace);
      CloseUnitGapsHasWord(s, q);
      HasWordSplit(s, p, q);
    } else {
      CloseUnitGapsHasWord(s, p + 1);
      HasWordConcat([s[p]], CloseUnitGaps(s, p + 1));
      HasWordSplit(s, p, p + 1);
    }
  }

  lemma {:induction false} CollapseHasWord(s: string, p: nat)
    requires p <= |s|
    ensures HasWord(CollapseFrom(s, p)) <==> HasWord(s[p..])
    decreases |s| - p
  {
    if p < |s| {
      match DimensionAt(s, p)
      case Some(m) =>
        var r := CollapseFrom(s, p);
        assert r[0] == s[p] && IsWord(s[p..][0]);
      case None =>
        CollapseHasWord(s, p + 1);
        HasWordConcat([s[p]], CollapseFrom(s, p + 1));
        HasWordSplit(s, p, p + 1);
    }
  }

  lemma {:induction false} SquareUnitsHasWord(s: string, p: nat, stem: string, unit: string)
    requires p <= |s| && stem != [] && IsWord(stem[0]) && unit != [] && IsWord(unit[0])
    ensures HasWord(SquareUnitsFrom(s, p, stem, unit)) <==> HasWord(s[p..])
    decreases |s| - p
  {
    if p < |s| {
      match SquaredUnitAt(s, p, stem)
      case Some(e) =>
        var r := SquareUnitsFrom(s, p, stem, unit);
        assert r[0] == unit[0] && s[p..][0] == stem[0];
      case None =>
        SquareUnitsHasWord(s, p + 1, stem, unit);
        HasWordConcat([s[p]], SquareUnitsFrom(s, p + 1, stem, unit));
        HasWordSplit(s, p, p + 1);
    }
  }

  lemma LoweredHasWord(s: string)
    ensures HasWord(Lowered(s)) <==> HasWord(s)
  {
    if HasWord(s) {
      var j :| 0 <= j < |s| && IsWord(s[j]);
      assert IsWord(Lowered(s)[j]);
    }
  }

  /** Normalisation neither adds nor removes every word character. */
  lemma NormalizedHasWord(text: string)
    ensures HasWord(Normalized(text)) <==> HasWord(text)
  {
    var l := Lowered(text);
    var w := ApplyRewrites(l, Rewrites);
    LoweredHasWord(text);
    RewritesWordBalanced();
    ApplyRewritesHasWord(l, Rewrites);
    CloseUnitGapsHasWord(w, 0);
    assert w[0..] == w;
  }

  lemma CanonicalUnitsHasWord(c: string)
    ensures HasWord(CanonicalUnits(c)) <==> HasWord(c)
  {
    var t := SquareUnitsFrom(c, 0, "мм", "мм²");
    var u := SquareUnitsFrom(t, 0, "см", "см²");
    assert c[0..] == c && t[0..] == t && u[0..] == u;
    SquareUnitsHasWord(c, 0, "мм", "мм²");
    SquareUnitsHasWord(t, 0, "см", "см²");
    SquareUnitsHasWord(u, 0, "м", "м²");
  }

  /** `split_preserve_sizes` finds no token exactly when the text has no
      word character: in particular for empty or whitespace-only text. */
  lemma TokenizeEmpty(text: string)
    ensures Tokenize(text) == [] <==> !HasWord(text)
  {
    var n := Normalized(text);
    var c := CollapseFrom(n, 0);
    NormalizedHasWord(text);
    assert n[0..] == n;
    CollapseHasWord(n, 0);
    CanonicalUnitsHasWord(c);
    var f := CanonicalUnits(c);
    assert f[0..] == f;
  }
}
