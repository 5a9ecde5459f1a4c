/**
 * The greedy pieces the engine's regular expressions are built from:
 * `\s*`, `\d+`, `\w+` and the number pattern `\d+(?:[.,]\d+)?`.
 * Each is matched at a fixed position and returns where the match ends.
 */
module Scanning {
  import opened Chars

  /** End of the longest run of characters of one class starting at `p`;
      `p` itself when `s[p]` is not in the class. */
  function RunEnd(s: string, p: nat, inClass: char -> bool): (q: nat)
    requires p <= |s|
    ensures p <= q <= |s|
    ensures forall j :: p <= j < q ==> inClass(s[j])
    ensures q < |s| ==> !inClass(s[q])
    decreases |s| - p
  {
    if p < |s| && inClass(s[p]) then RunEnd(s, p + 1, inClass) else p
  }

  /** The contract of `RunEnd` determines it. */
  lemma RunEndUnique(s: string, p: nat, q: nat, inClass: char -> bool)
    requires p <= q <= |s|
    requires forall j :: p <= j < q ==> inClass(s[j])
    requires q < |s| ==> !inClass(s[q])
    ensures RunEnd(s, p, inClass) == q
  {
    var e := RunEnd(s, p, inClass);
  }

  /** A run of digits followed by a comma or dot and a second run of digits
      (`\d+(?:[.,]\d+)?`). */
  predicate AllDigits(n: string) {
    n != [] && forall j :: 0 <= j < |n| ==> IsDigit(n[j])
  }

  predicate IsNumber(n: string) {
    || AllDigits(n)
    || exists i :: 0 < i < |n| - 1 && (n[i] == '.' || n[i] == ',') && AllDigits(n[..i]) && AllDigits(n[i + 1..])
  }

  /** End of the number matched at `p` by `\d+(?:[.,]\d+)?`, or `p` itself
      when no digit stands at `p`. */
  function NumberEnd(s: string, p: nat): (q: nat)
    requires p <= |s|
    ensures p <= q <= |s|
    ensures q == p <==> p == |s| || !IsDigit(s[p])
    ensures q > p ==> IsNumber(s[p..q])
    ensures q < |s| ==> !IsDigit(s[q])
    ensures forall j :: p <= j < q ==> IsDigit(s[j]) || s[j] == '.' || s[j] == ','
    ensures forall e :: p < e <= |s| && IsNumber(s[p..e]) ==> e <= q
  {
    var d := RunEnd(s, p, IsDigit);
    NumberShapes(s, p);
    if d == p then p
    else if d + 1 < |s| && (s[d] == '.' || s[d] == ',') && IsDigit(s[d + 1]) then
      var e := RunEnd(s, d + 1, IsDigit);
      assert s[p..e][..d - p] == s[p..d] && s[p..e][d - p + 1..] == s[d + 1..e];
      e
    else
      assert AllDigits(s[p..d]);
      d
  }

  /** Every number that starts at `p` ends inside the digit run at `p`, or
      continues it with one `.` or `,` and ends inside the digit run after
      that: the shape `NumberEnd` looks for. */
  lemma NumberShapes(s: string, p: nat)
    requires p <= |s|
    ensures forall e :: p < e <= |s| && IsNumber(s[p..e]) ==> NumberFits(s, p, e)
  {
    forall e | p < e <= |s| && IsNumber(s[p..e]) ensures NumberFits(s, p, e) {
      var n := s[p..e];
      if AllDigits(n) {
        DigitsFit(s, p, e);
      } else {
        var i :| 0 < i < |n| - 1 && (n[i] == '.' || n[i] == ',') && AllDigits(n[..i]) && AllDigits(n[i + 1..]);
        DottedFits(s, p, e, i);
      }
    }
  }

  predicate NumberFits(s: string, p: nat, e: nat)
    requires p <= |s|
  {
    var d := RunEnd(s, p, IsDigit);
    || e <= d
    || (d + 1 < e <= |s| && (s[d] == '.' || s[d] == ',') && IsDigit(s[d + 1]) && e <= RunEnd(s, d + 1, IsDigit))
  }

  lemma DigitsFit(s: string, p: nat, e: nat)
    requires p < e <= |s| && AllDigits(s[p..e])
    ensures e <= RunEnd(s, p, IsDigit)
  {
    forall j | p <= j < e ensures IsDigit(s[j]) { assert s[j] == s[p..e][j - p]; }
  }

  lemma DottedFits(s: string, p: nat, e: nat, i: nat)
    requires p < e <= |s|
    requires 0 < i < e - p - 1 && (s[p + i] == '.' || s[p + i] == ',')
    requires AllDigits(s[p..e][..i]) && AllDigits(s[p..e][i + 1..])
    ensures NumberFits(s, p, e)
  {
    var n := s[p..e];
    forall j | p <= j < p + i ensures IsDigit(s[j]) { assert s[j] == n[..i][j - p]; }
    var d := RunEnd(s, p, IsDigit);
    assert d == p + i;
    assert IsDigit(s[d + 1]) by { assert s[d + 1] == n[i + 1..][0]; }
    forall j | d + 1 <= j < e ensures IsDigit(s[j]) { assert s[j] == n[i + 1..][j - d - 1]; }
  }
}
