/**
 * Square millimetres written with the `2` set apart (`10 мм 2`).  The gap
 * between a number and a unit is closed during normalisation, before the
 * unit pass turns a free-standing `мм 2` into `мм²`; the unit made by that
 * pass is therefore left apart from its number, and the text gives two
 * tokens where `10 мм²` gives one.  `TokenizeUnitsClosed` closes the gap
 * again after the unit pass, and then every spelling gives the same token.
 */
module UnitOrder {
  import opened Chars
  import opened Strings
  import opened Scanning
  import opened Normalizer
  import opened Tokenizer
  import opened Spellings

  /** `s` is `<digits><whitespace>мм<whitespace>2`: the number ends at `i1`
      and `мм` stands at `q`, with whitespace on both sides of it. */
  predicate SpacedShape(s: string, i1: nat, q: nat) {
    && 0 < i1 < q && q + 3 < |s|
    && (forall j :: 0 <= j < i1 ==> IsDigit(s[j]))
    && (forall j :: i1 <= j < q ==> IsSpace(s[j]))
    && s[q] == 'м' && s[q + 1] == 'м'
    && (forall j :: q + 2 <= j < |s| - 1 ==> IsSpace(s[j]))
    && s[|s| - 1] == '2'
  }

  /** The characters of such a text. */
  lemma SpacedChars(s: string, i1: nat, q: nat, j: nat)
    requires SpacedShape(s, i1, q) && j < |s|
    ensures IsDigit(s[j]) || IsSpace(s[j]) || s[j] == 'м' || s[j] == '2'
    ensures s[j] == 'м' ==> j == q || j == q + 1
    ensures s[j] == '2' ==> j == |s| - 1 || j < i1
  {
  }

  /** No key of the rewrite table occurs in such a text. */
  lemma SpacedKeysAbsent(s: string, i1: nat, q: nat)
    requires SpacedShape(s, i1, q)
    ensures NoKeyOf(s, Rewrites)
  {
    forall j | 0 <= j < |s|
      ensures s[j] !in "х–—ёс^"
      ensures s[j] == 'м' && j + 1 < |s| ==> s[j + 1] != '2'
    {
      SpacedChars(s, i1, q, j);
    }
    ContainsHas(s, "х", 0);
    ContainsHas(s, "–", 0);
    ContainsHas(s, "—", 0);
    ContainsHas(s, "ё", 0);
    ContainsPair(s, "мм2", 1);
    ContainsHas(s, "мм^2", 2);
    ContainsHas(s, "см2", 0);
    ContainsHas(s, "см^2", 0);
    ContainsPair(s, "м2", 0);
    ContainsHas(s, "м^2", 1);
  }

  /** Normalisation leaves such a text as it is: it is lower-case, no key
      occurs in it and `мм 2` is not a unit, so no gap is closed. */
  lemma SpacedNormalized(s: string, i1: nat, q: nat)
    requires SpacedShape(s, i1, q)
    ensures Normalized(s) == s
  {
    forall j | 0 <= j < |s| ensures Lower(s[j]) == s[j] {
      SpacedChars(s, i1, q, j);
    }
    LoweredFixed(s);
    RewriteStep(s, 0);
    SpacedKeysAbsent(s, i1, q);
    forall p | 0 <= p < |s| ensures !UnitGapAt(s, p) {
      SpacedNoGap(s, i1, q, p);
    }
    CloseUnitGapsCopies(s, 0, |s|);
    assert s[0..|s|] == s;
  }

  /** The only digit followed by whitespace is the number's last, and `мм`
      followed by whitespace is not a unit. */
  lemma SpacedNoGap(s: string, i1: nat, q: nat, p: nat)
    requires SpacedShape(s, i1, q) && p < |s|
    ensures !UnitGapAt(s, p)
  {
    if 0 < p && IsDigit(s[p - 1]) && IsSpace(s[p]) {
      SpacedChars(s, i1, q, p - 1);
      SpacedChars(s, i1, q, p);
      assert p == i1;
      RunEndUnique(s, i1, q, IsSpace);
      var t := s[q..];
      assert t[0] == 'м' && t[1] == 'м' && IsSpace(t[2]);
    }
  }

  /** The `мм` pass turns the spaced `мм 2` into `мм²` and keeps the number
      and the whitespace before it, ... */
  lemma SpacedMillimetrePass(s: string, i1: nat, q: nat)
    requires SpacedShape(s, i1, q)
    ensures SquareUnitsFrom(s, 0, "мм", "мм²") == s[..q] + "мм²"
  {
    forall j | 0 <= j < q ensures SquaredUnitAt(s, j, "мм").None? {
      AtHead(s, j, "мм");
    }
    SquareUnitsSkip(s, 0, q, "мм", "мм²");
    SpacedUnitMatch(s, i1, q);
    assert s[0..q] == s[..q];
  }

  /** ... and the other two passes find no `с`, and no `2` after an `м`. */
  lemma SpacedUnits(s: string, i1: nat, q: nat)
    requires SpacedShape(s, i1, q)
    ensures CanonicalUnits(s) == s[..q] + "мм²"
  {
    SpacedMillimetrePass(s, i1, q);
    var t := s[..q] + "мм²";
    forall j | 0 <= j < |t|
      ensures t[j] != 'с'
      ensures t[j] == 'м' ==> q <= j
      ensures q <= j ==> t[j] != '2'
    {
      SpacedUnitChar(s, i1, q, j);
    }
    SquareUnitsNone(t, 0, "см", "см²");
    assert t[0..] == t;
    SquareUnitsNone(t, 0, "м", "м²");
  }

  lemma SpacedUnitChar(s: string, i1: nat, q: nat, j: nat)
    requires SpacedShape(s, i1, q) && j < q + 3
    ensures var t := s[..q] + "мм²";
      && t[j] != 'с' && (t[j] == 'м' ==> q <= j) && (q <= j ==> t[j] != '2')
  {
    var t := s[..q] + "мм²";
    if j < q {
      assert t[j] == s[j];
      SpacedChars(s, i1, q, j);
    } else {
      assert t[j] == "мм²"[j - q];
    }
  }

  /** On its own, `мм 2` and `мм ^2` (any whitespace around the caret)
      become `мм²` in the `мм` pass. */
  lemma FreeStandingUnit(g1: string, caret: string, g2: string)
    requires AllSpace(g1) && AllSpace(g2) && (caret == "" || caret == "^")
    ensures SquareUnitsFrom("мм" + g1 + caret + g2 + "2", 0, "мм", "мм²") == "мм²"
  {
    FreeStandingMatch(g1, caret, g2);
  }

  lemma FreeStandingMatch(g1: string, caret: string, g2: string)
    requires AllSpace(g1) && AllSpace(g2) && (caret == "" || caret == "^")
    ensures var s := "мм" + g1 + caret + g2 + "2"; SquaredUnitMatch(s, 0, "мм", |s|)
  {
    var s := "мм" + g1 + caret + g2 + "2";
    CaretGapOf(g1, caret, g2);
    assert s[2..|s| - 1] == g1 + caret + g2;
    assert At(s, 0, "мм");
  }

  lemma CaretGapOf(g1: string, caret: string, g2: string)
    requires AllSpace(g1) && AllSpace(g2) && (caret == "" || caret == "^")
    ensures IsCaretGap(g1 + caret + g2)
  {
    var g := g1 + caret + g2;
    if caret == "" {
      forall j | 0 <= j < |g| ensures IsSpace(g[j]) {
        if j < |g1| { assert g[j] == g1[j]; } else { assert g[j] == g2[j - |g1|]; }
      }
    } else {
      forall j | 0 <= j < |g| && j != |g1| ensures IsSpace(g[j]) {
        if j < |g1| { assert g[j] == g1[j]; } else { assert g[j] == g2[j - |g1| - 1]; }
      }
      assert g[|g1|] == '^';
    }
  }

  /** `мм`, whitespace and `2` at the end of the text, after whitespace: the
      whole rest of the text is one match of the `мм` pattern. */
  lemma SpacedUnitMatch(s: string, i1: nat, q: nat)
    requires SpacedShape(s, i1, q)
    ensures SquaredUnitMatch(s, q, "мм", |s|)
  {
    assert IsSpace(s[q - 1]);
    var g := s[q + 2..|s| - 1];
    forall j | 0 <= j < |g| ensures IsSpace(g[j]) {
      assert g[j] == s[q + 2 + j];
    }
  }

  /** `<digits><whitespace>мм²` is two tokens, the number and the unit. */
  lemma SplitTokens(n: string, gap: string)
    requires AllDigits(n) && gap != [] && AllSpace(gap)
    ensures TokensFrom(n + gap + "мм²", 0) == [n, "мм²"]
  {
    NumberFirstOf(n, gap);
    UnitLastOf(n, gap);
  }

  lemma NumberFirstOf(n: string, gap: string)
    requires AllDigits(n) && gap != [] && AllSpace(gap)
    ensures var t := n + gap + "мм²"; TokensFrom(t, 0) == [n] + TokensFrom(t, |n|)
  {
    var t := n + gap + "мм²";
    forall j | 0 <= j < |n| ensures IsDigit(t[j]) {
      assert t[j] == n[j];
    }
    assert t[|n|] == gap[0];
    NumberFirst(t, |n|);
    assert t[..|n|] == n;
  }

  lemma UnitLastOf(n: string, gap: string)
    requires AllDigits(n) && gap != [] && AllSpace(gap)
    ensures var t := n + gap + "мм²"; TokensFrom(t, |n|) == ["мм²"]
  {
    var t := n + gap + "мм²";
    var q := |n| + |gap|;
    forall j | |n| <= j < q ensures !IsWord(t[j]) {
      assert t[j] == gap[j - |n|];
    }
    assert t[q..] == "мм²";
    UnitLast(t, |n|, q);
  }

  /** A text that starts with digits followed by whitespace starts with
      the number as a token, ... */
  lemma NumberFirst(t: string, k: nat)
    requires 0 < k < |t| && IsSpace(t[k])
    requires forall j :: 0 <= j < k ==> IsDigit(t[j])
    ensures TokensFrom(t, 0) == [t[..k]] + TokensFrom(t, k)
  {
    NumberEndDigits(t, 0, k);
    assert DimensionTokenEnd(t, 0) == 0;
    StartsWithHead(t[0..], "мм²");
    StartsWithHead(t[0..], "см²");
    StartsWithHead(t[0..], "м²");
    RunEndUnique(t, 0, k, IsWord);
    RunEndUnique(t, 0, 0, NotWord);
    TokensStep(t, 0, 0, k);
    assert t[0..k] == t[..k];
  }

  /** ... and one that ends with `мм²` after non-word characters ends with
      the unit as a token. */
  lemma UnitLast(t: string, i: nat, q: nat)
    requires i <= q && q + 3 == |t| && t[q..] == "мм²"
    requires forall j :: i <= j < q ==> !IsWord(t[j])
    ensures TokensFrom(t, i) == ["мм²"]
  {
    assert t[q] == 'м';
    RunEndUnique(t, i, q, NotWord);
    assert DimensionTokenEnd(t, q) == q;
    assert At(t, q, "мм²");
    TokensStep(t, i, q, q + 3);
    TokensDone(t);
    assert t[q..q + 3] == t[q..];
  }

  /** The stages of `split_preserve_sizes` when normalisation gives `d`, the
      dimension pass keeps it and the unit passes give `t`. */
  lemma Pipeline(s: string, d: string, t: string)
    requires Normalized(s) == d && CollapseFrom(d, 0) == d && CanonicalUnits(d) == t
    ensures Tokenize(s) == TokensFrom(t, 0)
    ensures TokenizeUnitsClosed(s) == TokensFrom(CloseUnitGaps(t, 0), 0)
  {
  }

  /** Normalisation and the dimension pass keep
      `<digits><whitespace>мм<whitespace>2`, ... */
  lemma SpacedKept(n: string, gap: string, gap2: string)
    requires AllDigits(n) && gap != [] && AllSpace(gap) && gap2 != [] && AllSpace(gap2)
    ensures var s := n + gap + "мм" + gap2 + "2"; Normalized(s) == s && CollapseFrom(s, 0) == s
  {
    var s := n + gap + "мм" + gap2 + "2";
    SpacedShapeOf(n, gap, gap2);
    SpacedNormalized(s, |n|, |n| + |gap|);
    CollapseNoSeparator(s, 0);
    assert s[0..] == s;
  }

  /** ... and the unit passes make `мм²` of its unit. */
  lemma SpacedUnitsOf(n: string, gap: string, gap2: string)
    requires AllDigits(n) && gap != [] && AllSpace(gap) && gap2 != [] && AllSpace(gap2)
    ensures CanonicalUnits(n + gap + "мм" + gap2 + "2") == n + gap + "мм²"
  {
    var s := n + gap + "мм" + gap2 + "2";
    var q := |n| + |gap|;
    SpacedShapeOf(n, gap, gap2);
    SpacedUnits(s, |n|, q);
    assert s[..q] == n + gap;
  }

  /** As written: `<digits><whitespace>мм<whitespace>2` gives the number and
      the unit as two tokens, ... */
  lemma SpacedSpelling(n: string, gap: string, gap2: string)
    requires AllDigits(n) && gap != [] && AllSpace(gap) && gap2 != [] && AllSpace(gap2)
    ensures Tokenize(n + gap + "мм" + gap2 + "2") == [n, "мм²"]
  {
    SpacedKept(n, gap, gap2);
    SpacedUnitsOf(n, gap, gap2);
    var s := n + gap + "мм" + gap2 + "2";
    Pipeline(s, s, n + gap + "мм²");
    SplitTokens(n, gap);
  }

  lemma SpacedShapeOf(n: string, gap: string, gap2: string)
    requires AllDigits(n) && gap != [] && AllSpace(gap) && gap2 != [] && AllSpace(gap2)
    ensures var s := n + gap + "мм" + gap2 + "2";
      && SpacedShape(s, |n|, |n| + |gap|)
      && forall j :: 0 <= j < |s| ==> !IsSeparator(s[j])
  {
    var s := n + gap + "мм" + gap2 + "2";
    var q := |n| + |gap|;
    forall j | 0 <= j < |s|
      ensures j < |n| ==> IsDigit(s[j])
      ensures |n| <= j < q ==> IsSpace(s[j])
      ensures q + 2 <= j < |s| - 1 ==> IsSpace(s[j])
      ensures !IsSeparator(s[j])
    {
      if j < |n| {
        assert s[j] == n[j];
      } else if j < q {
        assert s[j] == gap[j - |n|];
      } else if q + 2 <= j < |s| - 1 {
        assert s[j] == gap2[j - q - 2];
      }
    }
  }

  /** ... while `<digits><whitespace>мм²` gives them as one. */
  lemma SpacedSpellingDiffers(n: string, gap: string, gap2: string)
    requires AllDigits(n) && gap != [] && AllSpace(gap) && gap2 != [] && AllSpace(gap2)
    ensures Tokenize(n + gap + "мм" + gap2 + "2") != Tokenize(n + gap + "мм²")
  {
    SpacedSpelling(n, gap, gap2);
    SquareMillimetreSpelling(n, gap, "мм²");
  }

  /** `"10 мм 2"` gives `["10", "мм²"]`, `"10 мм²"` gives `["10мм²"]`. */
  lemma SpacedExample()
    ensures Tokenize("10 мм 2") == ["10", "мм²"]
    ensures Tokenize("10 мм²") == ["10мм²"]
  {
    assert "10 мм 2" == "10" + " " + "мм" + " " + "2";
    SpacedSpelling("10", " ", " ");
    SquareMillimetreExamples("10 мм²");
  }

  /** `split_preserve_sizes` with the number-unit gaps closed once more
      after the unit pass. */
  function TokenizeUnitsClosed(text: string): (ts: seq<string>)
    ensures forall i :: 0 <= i < |ts| ==> IsToken(ts[i])
  {
    TokensFrom(CloseUnitGaps(CanonicalUnits(CollapseFrom(Normalized(text), 0)), 0), 0)
  }

  /** Corrected: every spelling of square millimetres after a number, the
      spaced `мм 2` included, gives the single token `<digits>мм²`. */
  lemma UnitsClosedSpelling(n: string, gap: string, u: string)
    requires AllDigits(n) && AllSpace(gap)
    requires u == "мм2" || u == "мм^2" || u == "мм²"
    ensures TokenizeUnitsClosed(n + gap + u) == [n + "мм²"]
  {
    SquareMillimetreNormalized(n, gap, u);
    TightClosed(n);
  }

  /** `<digits>мм²` passes the later stages unchanged and is one token. */
  lemma TightClosed(n: string)
    requires AllDigits(n)
    ensures var d := n + "мм²"; TokensFrom(CloseUnitGaps(CanonicalUnits(CollapseFrom(d, 0)), 0), 0) == [d]
  {
    var d := n + "мм²";
    TightKept(n);
    TightGapKept(n);
    SquareMillimetreOneToken(n);
  }

  lemma TightKept(n: string)
    requires AllDigits(n)
    ensures var d := n + "мм²"; CanonicalUnits(CollapseFrom(d, 0)) == d
  {
    var d := n + "мм²";
    CollapseNoSeparator(d, 0);
    assert d[0..] == d;
    SquareMillimetreUnitsKept(n);
  }

  lemma TightGapKept(n: string)
    requires AllDigits(n)
    ensures CloseUnitGaps(n + "мм²", 0) == n + "мм²"
  {
    GapClosed(n, "");
    assert n + "" + "мм²" == n + "мм²";
  }

  lemma UnitsClosedSpaced(n: string, gap: string, gap2: string)
    requires AllDigits(n) && gap != [] && AllSpace(gap) && gap2 != [] && AllSpace(gap2)
    ensures TokenizeUnitsClosed(n + gap + "мм" + gap2 + "2") == [n + "мм²"]
  {
    SpacedKept(n, gap, gap2);
    SpacedUnitsOf(n, gap, gap2);
    var s := n + gap + "мм" + gap2 + "2";
    Pipeline(s, s, n + gap + "мм²");
    GapClosed(n, gap);
    SquareMillimetreOneToken(n);
  }

  /** With the gaps closed after the unit pass, the spaced spelling and the
      tight one give the same tokens. */
  lemma UnitsClosedAgree(n: string, gap: string, gap2: string)
    requires AllDigits(n) && gap != [] && AllSpace(gap) && gap2 != [] && AllSpace(gap2)
    ensures TokenizeUnitsClosed(n + gap + "мм" + gap2 + "2") == TokenizeUnitsClosed(n + gap + "мм²")
  {
    UnitsClosedSpaced(n, gap, gap2);
    UnitsClosedSpelling(n, gap, "мм²");
  }
}
