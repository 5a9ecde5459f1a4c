/**
 * Text normalisation (`DataProcessor.normalize_text`): lower-case the text,
 * apply an ordered table of literal rewrites, then delete the whitespace
 * between a digit and a following area unit (`мм²`, `см²`, `м²`).
 */
module Normalizer {
  import opened Chars
  import opened Strings
  import opened Scanning

  datatype Rewrite = Rewrite(key: string, value: string)

  /** The rewrite table, in the order the dictionary lists it: Cyrillic `х`
      to Latin `x`, en and em dash to `-`, `ё` to `е`, and the spellings of
      square millimetres, centimetres and metres with `2` or `^2` to `²`.
      `мм2` comes before `м2`, so it is rewritten whole. */
  const Rewrites: seq<Rewrite> := [
    Rewrite("х", "x"), Rewrite("–", "-"), Rewrite("—", "-"), Rewrite("ё", "е"),
    Rewrite("мм2", "мм²"), Rewrite("мм^2", "мм²"),
    Rewrite("см2", "см²"), Rewrite("см^2", "см²"),
    Rewrite("м2", "м²"), Rewrite("м^2", "м²")
  ]

  predicate NonEmptyKeys(rules: seq<Rewrite>) {
    forall i :: 0 <= i < |rules| ==> rules[i].key != []
  }

  /** `text = text.replace(k, v)` for each rule in turn; a text in which no
      key occurs is left as it is. */
  function ApplyRewrites(s: string, rules: seq<Rewrite>): (r: string)
    requires NonEmptyKeys(rules)
    ensures NoKeyOf(s, rules) ==> r == s
    decreases |rules|
  {
    if rules == [] then s
    else
      NoKeyStep(s, rules);
      ApplyRewrites(ReplaceAll(s, rules[0].key, rules[0].value), rules[1..])
  }

  /** Without any key, the first rule changes nothing and no key of the
      rest occurs either. */
  lemma NoKeyStep(s: string, rules: seq<Rewrite>)
    requires rules != [] && NonEmptyKeys(rules)
    ensures NoKeyOf(s, rules) ==> ReplaceAll(s, rules[0].key, rules[0].value) == s && NoKeyOf(s, rules[1..])
  {
    if NoKeyOf(s, rules) {
      ReplaceAllAbsent(s, rules[0].key, rules[0].value);
      assert forall i :: 0 <= i < |rules| - 1 ==> rules[1..][i] == rules[i + 1];
    }
  }

  /** No key of the table occurs in `s`. */
  predicate NoKeyOf(s: string, rules: seq<Rewrite>) {
    forall i :: 0 <= i < |rules| ==> !Contains(s, rules[i].key)
  }

  /** The lookahead `(?=мм²|см²|м²)` */
  predicate StartsWithUnit(s: string) {
    StartsWith(s, "мм²") || StartsWith(s, "см²") || StartsWith(s, "м²")
  }

  /** `(?<=\d)\s+(?=мм²|см²|м²)` matches at `p`: a digit before `p`, and the
      whitespace run starting at `p` is followed by a unit. */
  predicate UnitGapAt(s: string, p: nat)
    requires p <= |s|
  {
    0 < p < |s| && IsDigit(s[p - 1]) && IsSpace(s[p]) && StartsWithUnit(s[RunEnd(s, p, IsSpace)..])
  }

  predicate HasUnitGap(s: string) {
    exists p: nat | p <= |s| :: UnitGapAt(s, p)
  }

  /** `re.sub(r'(?<=\d)\s+(?=мм²|см²|м²)', '', s[p..])`, scanning the text from
      `p` with the lookbehind reading the whole text. */
  function CloseUnitGaps(s: string, p: nat): (r: string)
    requires p <= |s|
    ensures |r| <= |s| - p
    decreases |s| - p
  {
    if p == |s| then []
    else if UnitGapAt(s, p) then CloseUnitGaps(s, RunEnd(s, p, IsSpace))
    else [s[p]] + CloseUnitGaps(s, p + 1)
  }

  /** `normalize_text` as a function of its input; its result is in normal
      form. */
  function Normalized(text: string): (r: string)
    ensures NormalForm(r)
  {
    var l := Lowered(text);
    ApplyRewritesDone(l, 0);
    assert Rewrites[0..] == Rewrites;
    CloseUnitGapsNormal(ApplyRewrites(l, Rewrites));
    CloseUnitGaps(ApplyRewrites(l, Rewrites), 0)
  }

  /** What normalisation guarantees: no Cyrillic `х`, no en or em dash, no
      `ё`, no `м2` or `м^2` (so no `мм2`, `см2`, ... either), and no
      whitespace left between a digit and a unit. */
  predicate NormalForm(s: string) {
    && 'х' !in s && '–' !in s && '—' !in s && 'ё' !in s
    && !Contains(s, "м2") && !Contains(s, "м^2")
    && !HasUnitGap(s)
  }

  /** `normalize_text`: the replacement loop rewrites `text` one table entry
      at a time. */
  method NormalizeText(text: string) returns (r: string)
    ensures r == Normalized(text)
    ensures NormalForm(r)
  {
    r := Lowered(text);
    var i := 0;
    while i < |Rewrites|
      invariant 0 <= i <= |Rewrites|
      invariant ApplyRewrites(r, Rewrites[i..]) == ApplyRewrites(Lowered(text), Rewrites)
      invariant RewritesDone(r, i)
    {
      RewriteStep(r, i);
      ApplyRewritesStep(r, Rewrites, i);
      r := ReplaceAll(r, Rewrites[i].key, Rewrites[i].value);
      i := i + 1;
    }
    CloseUnitGapsNormal(r);
    r := CloseUnitGaps(r, 0);
  }

  lemma ApplyRewritesStep(s: string, rules: seq<Rewrite>, i: nat)
    requires NonEmptyKeys(rules) && i < |rules|
    ensures ApplyRewrites(s, rules[i..])
            == ApplyRewrites(ReplaceAll(s, rules[i].key, rules[i].value), rules[i + 1..])
  {
    assert rules[i..][1..] == rules[i + 1..];
  }

  /** Once every rewrite has run, closing the gaps gives the normal form. */
  lemma CloseUnitGapsNormal(s: string)
    requires RewritesDone(s, |Rewrites|)
    ensures NormalForm(CloseUnitGaps(s, 0))
  {
    CloseUnitGapsChars(s, 0, 'х');
    CloseUnitGapsChars(s, 0, '–');
    CloseUnitGapsChars(s, 0, '—');
    CloseUnitGapsChars(s, 0, 'ё');
    CloseUnitGapsKeepsAbsent(s, 0, "м2");
    CloseUnitGapsKeepsAbsent(s, 0, "м^2");
    CloseUnitGapsClosesAll(s, 0);
  }

  lemma ContainsChar(s: string, c: char)
    ensures Contains(s, [c]) <==> c in s
  {
    if c in s {
      var i :| 0 <= i < |s| && s[i] == c;
      assert At(s, i, [c]);
    }
    if Contains(s, [c]) {
      var i: nat :| i <= |s| && At(s, i, [c]);
      assert s[i + 0] == [c][0];
    }
  }

  /** Every character the gap-closing pass keeps comes from the text. */
  lemma {:induction false} CloseUnitGapsChars(s: string, p: nat, c: char)
    requires p <= |s|
    ensures c in CloseUnitGaps(s, p) ==> c in s
    decreases |s| - p
  {
    if p == |s| {
    } else if UnitGapAt(s, p) {
      CloseUnitGapsChars(s, RunEnd(s, p, IsSpace), c);
    } else {
      CloseUnitGapsChars(s, p + 1, c);
    }
  }

  /** Where no match starts at `q`, a gap-closed text that starts with `w`
      (digits at most in its last place) comes from a text that has `w` at `q`. */
  lemma {:induction false} CloseUnitGapsPrefix(s: string, q: nat, w: string)
    requires q <= |s| && !UnitGapAt(s, q)
    requires forall j :: 0 <= j < |w| - 1 ==> !IsDigit(w[j])
    requires StartsWith(CloseUnitGaps(s, q), w)
    ensures At(s, q, w)
    decreases |w|
  {
    if w != [] {
      assert q < |s|;
      assert CloseUnitGaps(s, q) == [s[q]] + CloseUnitGaps(s, q + 1);
      assert s[q] == w[0];
      if |w| > 1 {
        assert StartsWith(CloseUnitGaps(s, q + 1), w[1..]);
        CloseUnitGapsPrefix(s, q + 1, w[1..]);
      }
    }
  }

  /** `CloseUnitGapsPrefix` stated as an implication, for any arguments. */
  lemma CloseUnitGapsPrefixWhen(s: string, q: nat, w: string)
    ensures (q <= |s| && !UnitGapAt(s, q) && (forall j :: 0 <= j < |w| - 1 ==> !IsDigit(w[j]))
             && StartsWith(CloseUnitGaps(s, q), w)) ==> At(s, q, w)
  {
    if q <= |s| && !UnitGapAt(s, q) && (forall j :: 0 <= j < |w| - 1 ==> !IsDigit(w[j]))
       && StartsWith(CloseUnitGaps(s, q), w) {
      CloseUnitGapsPrefix(s, q, w);
    }
  }

  /** Closing gaps joins a digit to a unit only, so it cannot create an
      occurrence of a string whose characters, but the last, are not digits. */
  lemma {:induction false} CloseUnitGapsKeepsAbsent(s: string, p: nat, w: string)
    requires p <= |s| && w != []
    requires forall j :: 0 <= j < |w| - 1 ==> !IsDigit(w[j])
    requires !Contains(s, w)
    ensures !Contains(CloseUnitGaps(s, p), w)
    decreases |s| - p
  {
    if p == |s| {
    } else if UnitGapAt(s, p) {
      CloseUnitGapsKeepsAbsent(s, RunEnd(s, p, IsSpace), w);
    } else {
      var rest := CloseUnitGaps(s, p + 1);
      CloseUnitGapsKeepsAbsent(s, p + 1, w);
      forall i: nat ensures !At([s[p]] + rest, i, w) {
        if i >= 1 {
          AtShift([s[p]], rest, i, w);
        } else {
          assert At([s[p]] + rest, 0, w) ==> s[p] == w[0] && StartsWith(rest, w[1..]);
          assert |w| > 1 && s[p] == w[0] ==> !UnitGapAt(s, p + 1);
          CloseUnitGapsPrefixWhen(s, p + 1, w[1..]);
          assert s[p] == w[0] && At(s, p + 1, w[1..]) ==> At(s, p, w);
          assert !At(s, p, w);
        }
      }
    }
  }

  /** Copying a stretch where no match starts. */
  lemma {:induction false} CloseUnitGapsCopies(s: string, a: nat, b: nat)
    requires a <= b <= |s|
    requires forall j :: a <= j < b ==> !UnitGapAt(s, j)
    ensures CloseUnitGaps(s, a) == s[a..b] + CloseUnitGaps(s, b)
    decreases b - a
  {
    if a < b {
      CloseUnitGapsCopies(s, a + 1, b);
    }
  }

  /** A match of the lookahead needs one of the units' first characters. */
  lemma UnitStartsWithLetter(s: string)
    requires StartsWithUnit(s)
    ensures s != [] && !IsSpace(s[0]) && !IsDigit(s[0])
  {
  }

  /** One position later in `[c] + t` is the same match in `t`. */
  lemma UnitGapShift(c: char, t: string, i: nat)
    requires 2 <= i <= |t| + 1
    ensures UnitGapAt([c] + t, i) <==> UnitGapAt(t, i - 1)
  {
    var r := [c] + t;
    if i < |r| && IsSpace(r[i]) {
      var e := RunEnd(t, i - 1, IsSpace);
      RunEndUnique(r, i, e + 1, IsSpace);
      assert r[e + 1..] == t[e..];
    }
  }

  /** After the gap-closing pass no whitespace is left between a digit and a unit. */
  lemma {:induction false} CloseUnitGapsClosesAll(s: string, p: nat)
    requires p <= |s|
    ensures !HasUnitGap(CloseUnitGaps(s, p))
    decreases |s| - p
  {
    if p == |s| {
    } else if UnitGapAt(s, p) {
      CloseUnitGapsClosesAll(s, RunEnd(s, p, IsSpace));
    } else {
      var rest := CloseUnitGaps(s, p + 1);
      var r := [s[p]] + rest;
      CloseUnitGapsClosesAll(s, p + 1);
      forall i: nat | i <= |r| ensures !UnitGapAt(r, i) {
        if i >= 2 {
          UnitGapShift(s[p], rest, i);
        } else if i == 1 && IsDigit(s[p]) && p + 1 < |s| && IsSpace(s[p + 1]) {
          NoGapAfterDigit(s, p);
        } else if i == 1 && p + 1 < |s| {
          assert !UnitGapAt(s, p + 1);
        }
      }
    }
  }

  /** Where no match starts at `q`, the gap-closed text starts with a unit
      only if the text does. */
  lemma UnitComesFromText(s: string, q: nat)
    requires q <= |s| && !UnitGapAt(s, q)
    requires StartsWithUnit(CloseUnitGaps(s, q))
    ensures StartsWithUnit(s[q..])
  {
    var t := CloseUnitGaps(s, q);
    if StartsWith(t, "мм²") {
      CloseUnitGapsPrefix(s, q, "мм²");
      AtStartsWith(s, q, "мм²");
    } else if StartsWith(t, "см²") {
      CloseUnitGapsPrefix(s, q, "см²");
      AtStartsWith(s, q, "см²");
    } else {
      CloseUnitGapsPrefix(s, q, "м²");
      AtStartsWith(s, q, "м²");
    }
  }

  /** Right after a kept digit that is followed by whitespace no match remains:
      either the whitespace was closed, or it is not followed by a unit. */
  lemma NoGapAfterDigit(s: string, p: nat)
    requires p + 1 < |s| && IsDigit(s[p]) && IsSpace(s[p + 1])
    ensures !UnitGapAt([s[p]] + CloseUnitGaps(s, p + 1), 1)
  {
    var q := RunEnd(s, p + 1, IsSpace);
    if UnitGapAt(s, p + 1) {
      ClosedGapStartsWithUnit(s, p + 1);
    } else {
      OpenGapKept(s, p, q);
    }
  }

  lemma ClosedGapStartsWithUnit(s: string, p: nat)
    requires p <= |s| && UnitGapAt(s, p)
    ensures CloseUnitGaps(s, p) != [] && !IsSpace(CloseUnitGaps(s, p)[0])
  {
    var q := RunEnd(s, p, IsSpace);
    UnitStartsWithLetter(s[q..]);
    assert !UnitGapAt(s, q);
    assert CloseUnitGaps(s, p) == [s[q]] + CloseUnitGaps(s, q + 1);
  }

  lemma OpenGapKept(s: string, p: nat, q: nat)
    requires p + 1 < |s| && IsDigit(s[p]) && IsSpace(s[p + 1])
    requires q == RunEnd(s, p + 1, IsSpace) && !UnitGapAt(s, p + 1)
    ensures !UnitGapAt([s[p]] + CloseUnitGaps(s, p + 1), 1)
  {
    forall j | p + 1 <= j < q ensures !UnitGapAt(s, j) {
      assert j > p + 1 ==> !IsDigit(s[j - 1]);
    }
    CloseUnitGapsCopies(s, p + 1, q);
    var a := s[p..q];
    var tail := CloseUnitGaps(s, q);
    KeptAfterRun(s, q);
    assert [s[p]] + CloseUnitGaps(s, p + 1) == a + tail by {
      assert a == [s[p]] + s[p + 1..q];
    }
    RunEndAcross(a, tail, 1);
    UnitComesFromTextWhen(s, q);
  }

  /** `UnitComesFromText` stated as an implication, for any arguments. */
  lemma UnitComesFromTextWhen(s: string, q: nat)
    ensures (q <= |s| && !UnitGapAt(s, q) && StartsWithUnit(CloseUnitGaps(s, q))) ==> StartsWithUnit(s[q..])
  {
    if q <= |s| && !UnitGapAt(s, q) && StartsWithUnit(CloseUnitGaps(s, q)) {
      UnitComesFromText(s, q);
    }
  }

  /** Past a whitespace run the pass keeps the next character. */
  lemma KeptAfterRun(s: string, q: nat)
    requires q <= |s| && (q < |s| ==> !IsSpace(s[q]))
    ensures !UnitGapAt(s, q)
    ensures CloseUnitGaps(s, q) != [] ==> !IsSpace(CloseUnitGaps(s, q)[0])
  {
  }

  /** A whitespace run that reaches the end of `a` stops where `t` begins. */
  lemma RunEndAcross(a: string, t: string, i: nat)
    requires i <= |a|
    requires forall j :: i <= j < |a| ==> IsSpace(a[j])
    requires t != [] ==> !IsSpace(t[0])
    ensures RunEnd(a + t, i, IsSpace) == |a| && (a + t)[|a|..] == t
  {
    RunEndUnique(a + t, i, |a|, IsSpace);
  }

  /** What the first `i` rewrites guarantee about the text. */
  predicate RewritesDone(r: string, i: nat) {
    && (i > 0 ==> 'х' !in r)
    && (i > 1 ==> '–' !in r)
    && (i > 2 ==> '—' !in r)
    && (i > 3 ==> 'ё' !in r)
    && (i > 8 ==> !Contains(r, "м2"))
    && (i > 9 ==> !Contains(r, "м^2"))
  }

  /** Each rewrite removes its own key when later rewrites cannot bring it back,
      and brings back none of the keys removed before it. */
  lemma RewriteStep(r: string, i: nat)
    requires i < |Rewrites| && RewritesDone(r, i)
    ensures NonEmptyKeys(Rewrites)
    ensures RewritesDone(ReplaceAll(r, Rewrites[i].key, Rewrites[i].value), i + 1)
  {
    var k, v := Rewrites[i].key, Rewrites[i].value;
    var r' := ReplaceAll(r, k, v);
    ReplaceAllChars(r, k, v, 'х');
    ReplaceAllChars(r, k, v, '–');
    ReplaceAllChars(r, k, v, '—');
    ReplaceAllChars(r, k, v, 'ё');
    if i < 4 {
      ReplaceAllRemoves(r, k, v);
      ContainsChar(r', k[0]);
    } else if i == 8 {
      ReplaceAllRemoves(r, k, v);
    } else if i == 9 {
      ReplaceAllKeepsPairAbsent(r, k, v, "м2");
      ReplaceAllRemoves(r, k, v);
    }
  }

  lemma {:induction false} ApplyRewritesDone(s: string, i: nat)
    requires i <= |Rewrites| && RewritesDone(s, i)
    ensures NonEmptyKeys(Rewrites)
    ensures RewritesDone(ApplyRewrites(s, Rewrites[i..]), |Rewrites|)
    decreases |Rewrites| - i
  {
    if i < |Rewrites| {
      RewriteStep(s, i);
      ApplyRewritesStep(s, Rewrites, i);
      ApplyRewritesDone(ReplaceAll(s, Rewrites[i].key, Rewrites[i].value), i + 1);
    } else {
      RewriteStep(s, 0);
    }
  }

  /** Rewriting a text in which no key occurs changes nothing. */
  lemma {:induction false} ApplyRewritesAbsent(s: string, rules: seq<Rewrite>)
    requires NonEmptyKeys(rules)
    requires forall i :: 0 <= i < |rules| ==> !Contains(s, rules[i].key)
    ensures ApplyRewrites(s, rules) == s
    decreases |rules|
  {
    if rules != [] {
      ReplaceAllAbsent(s, rules[0].key, rules[0].value);
      ApplyRewritesAbsent(s, rules[1..]);
    }
  }

  /** A key whose tail is absent is absent. */
  lemma AbsentTail(s: string, k: string)
    requires k != [] && !Contains(s, k[1..])
    ensures !Contains(s, k)
  {
    if Contains(s, k) {
      var i: nat :| i <= |s| && At(s, i, k);
      assert At(s, i + 1, k[1..]);
    }
  }

  /** The rewrites leave normalised text as it is. */
  lemma RewritesFixed(s: string)
    requires RewritesDone(s, |Rewrites|)
    ensures NonEmptyKeys(Rewrites)
    ensures ApplyRewrites(s, Rewrites) == s
  {
    RewriteStep(s, 0);
    ContainsChar(s, 'х');
    ContainsChar(s, '–');
    ContainsChar(s, '—');
    ContainsChar(s, 'ё');
    AbsentTail(s, "мм2");
    AbsentTail(s, "мм^2");
    AbsentTail(s, "см2");
    AbsentTail(s, "см^2");
    ApplyRewritesAbsent(s, Rewrites);
  }

  /** Every character of rewritten text is from the text or from a
      replacement. */
  lemma {:induction false} ApplyRewritesChars(s: string, rules: seq<Rewrite>, c: char)
    requires NonEmptyKeys(rules)
    requires c in ApplyRewrites(s, rules)
    ensures c in s || exists i :: 0 <= i < |rules| && c in rules[i].value
    decreases |rules|
  {
    if rules != [] {
      var t := ReplaceAll(s, rules[0].key, rules[0].value);
      ApplyRewritesChars(t, rules[1..], c);
      ReplaceAllChars(s, rules[0].key, rules[0].value, c);
      if c !in t {
        var i :| 0 <= i < |rules[1..]| && c in rules[1..][i].value;
        assert rules[1..][i] == rules[i + 1];
      }
    }
  }

  /** A text that lower-casing leaves as it is. */
  predicate IsLowered(s: string) {
    forall j :: 0 <= j < |s| ==> Lower(s[j]) == s[j]
  }

  /** The replacements are lower-case text. */
  lemma ReplacementsLowered(c: char)
    requires exists i :: 0 <= i < |Rewrites| && c in Rewrites[i].value
    ensures Lower(c) == c
  {
  }

  /** Normalised text is lower-case. */
  lemma NormalizedIsLowered(text: string)
    ensures IsLowered(Normalized(text))
  {
    var l := Lowered(text);
    var n := Normalized(text);
    RewriteStep(l, 0);
    forall j | 0 <= j < |n| ensures Lower(n[j]) == n[j] {
      var c := n[j];
      CloseUnitGapsChars(ApplyRewrites(l, Rewrites), 0, c);
      ApplyRewritesChars(l, Rewrites, c);
      if c in l {
        var m :| 0 <= m < |l| && l[m] == c;
        LowerIdempotent(text[m]);
      } else {
        ReplacementsLowered(c);
      }
    }
  }

  /** `normalize_text` is idempotent: normalised text normalises to itself. */
  lemma NormalizedIdempotent(text: string)
    ensures Normalized(Normalized(text)) == Normalized(text)
  {
    NormalizedIsLowered(text);
    NormalFormFixed(Normalized(text));
  }

  /** A lower-case text in normal form is its own normalisation. */
  lemma NormalFormFixed(n: string)
    requires NormalForm(n) && IsLowered(n)
    ensures Normalized(n) == n
  {
    RewritesFixed(n);
    assert Lowered(n) == n;
    CloseUnitGapsCopies(n, 0, |n|);
    assert n[0..|n|] == n;
  }
}
