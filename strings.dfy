/**
 * The `str` methods the search engine uses: substring tests, `str.replace`,
 * `str.lower` and `str.strip`.
 */
module Strings {
  import opened Chars

  /** `w` occurs in `s` at offset `i`. */
  predicate At(s: string, i: nat, w: string) {
    i + |w| <= |s| && forall j :: 0 <= j < |w| ==> s[i + j] == w[j]
  }

  /** `s.startswith(w)` */
  predicate StartsWith(s: string, w: string) {
    |w| <= |s| && forall j :: 0 <= j < |w| ==> s[j] == w[j]
  }

  /** `w in s` for two strings */
  predicate Contains(s: string, w: string) {
    exists i: nat | i <= |s| :: At(s, i, w)
  }

  lemma AtShift(a: string, t: string, i: nat, w: string)
    requires |a| <= i
    ensures At(a + t, i, w) <==> At(t, i - |a|, w)
  {
  }

  lemma AtStartsWith(s: string, i: nat, w: string)
    requires i <= |s|
    ensures At(s, i, w) <==> StartsWith(s[i..], w)
  {
  }

  /** `s.replace(k, v)`: every non-overlapping occurrence of `k`, found from
      left to right, is replaced by `v`. */
  function ReplaceAll(s: string, k: string, v: string): (r: string)
    requires k != []
    ensures StartsWith(s, k) ==> StartsWith(r, v)
    ensures !StartsWith(s, k) && s != [] ==> r != [] && r[0] == s[0]
    decreases |s|
  {
    if |s| < |k| then s
    else if StartsWith(s, k) then v + ReplaceAll(s[|k|..], k, v)
    else [s[0]] + ReplaceAll(s[1..], k, v)
  }

  /** A replacement never brings in a character that is in neither the text
      nor the replacement. */
  lemma {:induction false} ReplaceAllChars(s: string, k: string, v: string, c: char)
    requires k != []
    ensures c in ReplaceAll(s, k, v) ==> c in s || c in v
    decreases |s|
  {
    if |s| < |k| {
    } else if StartsWith(s, k) {
      ReplaceAllChars(s[|k|..], k, v, c);
    } else {
      ReplaceAllChars(s[1..], k, v, c);
    }
  }

  /** Replacing a key that does not occur changes nothing. */
  lemma {:induction false} ReplaceAllAbsent(s: string, k: string, v: string)
    requires k != []
    requires !Contains(s, k)
    ensures ReplaceAll(s, k, v) == s
    decreases |s|
  {
    assert !At(s, 0, k);
    if |s| >= |k| {
      forall i: nat ensures !At(s[1..], i, k) {
        AtShift(s[..1], s[1..], i + 1, k);
        assert s[..1] + s[1..] == s;
      }
      ReplaceAllAbsent(s[1..], k, v);
    }
  }

  /** If the replacement shares no character with `w`, a replaced text that
      starts with `w` comes from a text that starts with `w`. */
  lemma {:induction false} ReplaceAllPrefix(t: string, k: string, v: string, w: string)
    requires k != [] && v != []
    requires forall j :: 0 <= j < |w| ==> w[j] !in v
    requires StartsWith(ReplaceAll(t, k, v), w)
    ensures StartsWith(t, w)
    decreases |t|
  {
    if w != [] && |t| >= |k| {
      assert ReplaceAll(t, k, v)[0] == w[0] && v[0] in v;
      if !StartsWith(t, k) {
        var r' := ReplaceAll(t[1..], k, v);
        assert ReplaceAll(t, k, v) == [t[0]] + r';
        ReplaceAllPrefix(t[1..], k, v, w[1..]);
      }
    }
  }

  /** No suffix of `v` can begin an occurrence of `k`: the condition under which
      `s.replace(k, v)` leaves no `k` behind. */
  predicate Unoverlapping(k: string, v: string) {
    && k != [] && v != []
    && (forall j, m :: 0 <= j < |v| && 1 <= m < |k| ==> v[j] != k[m])
    && v[|v| - 1] != k[0]
    && (|k| == 1 ==> k[0] !in v)
  }

  /** After `s.replace(k, v)` the key `k` no longer occurs. */
  lemma {:induction false} ReplaceAllRemoves(s: string, k: string, v: string)
    requires Unoverlapping(k, v)
    ensures !Contains(ReplaceAll(s, k, v), k)
    decreases |s|
  {
    var r := ReplaceAll(s, k, v);
    if |s| < |k| {
      assert forall i: nat :: !At(r, i, k);
    } else if StartsWith(s, k) {
      var r' := ReplaceAll(s[|k|..], k, v);
      ReplaceAllRemoves(s[|k|..], k, v);
      forall i: nat ensures !At(v + r', i, k) {
        if i >= |v| {
          AtShift(v, r', i, k);
        } else if |k| > 1 && i + 1 < |v| {
          assert v[i + 1] != k[1];
        } else if |k| == 1 {
          assert v[i] in v;
        }
      }
    } else {
      var r' := ReplaceAll(s[1..], k, v);
      ReplaceAllRemoves(s[1..], k, v);
      assert r == [s[0]] + r';
      forall i: nat ensures !At(r, i, k) {
        if i >= 1 {
          AtShift([s[0]], r', i, k);
        } else if StartsWith(r', k[1..]) {
          ReplaceAllPrefix(s[1..], k, v, k[1..]);
        }
      }
    }
  }

  /** A two-character string absent from the text stays absent after a
      replacement that cannot produce it. */
  lemma {:induction false} ReplaceAllKeepsPairAbsent(s: string, k: string, v: string, w: string)
    requires k != [] && v != [] && |w| == 2
    requires !Contains(s, w)
    requires forall j :: 0 <= j < |v| - 1 ==> !(v[j] == w[0] && v[j + 1] == w[1])
    requires v[|v| - 1] != w[0] && v[0] != w[1]
    ensures !Contains(ReplaceAll(s, k, v), w)
    decreases |s|
  {
    var r := ReplaceAll(s, k, v);
    if |s| < |k| {
    } else if StartsWith(s, k) {
      var r' := ReplaceAll(s[|k|..], k, v);
      forall i: nat ensures !At(s[|k|..], i, w) {
        AtShift(s[..|k|], s[|k|..], i + |k|, w);
        assert s[..|k|] + s[|k|..] == s;
      }
      ReplaceAllKeepsPairAbsent(s[|k|..], k, v, w);
      forall i: nat ensures !At(v + r', i, w) {
        if i >= |v| {
          AtShift(v, r', i, w);
        }
      }
    } else {
      var r' := ReplaceAll(s[1..], k, v);
      forall i: nat ensures !At(s[1..], i, w) {
        AtShift(s[..1], s[1..], i + 1, w);
        assert s[..1] + s[1..] == s;
      }
      ReplaceAllKeepsPairAbsent(s[1..], k, v, w);
      assert r == [s[0]] + r';
      forall i: nat ensures !At(r, i, w) {
        if i >= 1 {
          AtShift([s[0]], r', i, w);
        } else {
          assert !At(s, 0, w);
        }
      }
    }
  }

  /** `s.lower()` */
  function Lowered(s: string): (r: string)
    ensures |r| == |s|
    ensures forall i :: 0 <= i < |s| ==> r[i] == Lower(s[i])
  {
    seq(|s|, i requires 0 <= i < |s| => Lower(s[i]))
  }

  /** `s.lstrip(...)`: the leading characters of class `blank` are removed. */
  function TrimLeft(s: string, blank: char -> bool): (r: string)
    ensures |r| <= |s| && r == s[|s| - |r|..]
    ensures forall j :: 0 <= j < |s| - |r| ==> blank(s[j])
    ensures r != [] ==> !blank(r[0])
  {
    if s != [] && blank(s[0]) then TrimLeft(s[1..], blank) else s
  }

  /** `s.rstrip(...)`: the trailing characters of class `blank` are removed. */
  function TrimRight(s: string, blank: char -> bool): (r: string)
    ensures |r| <= |s| && r == s[..|r|]
    ensures forall j :: |r| <= j < |s| ==> blank(s[j])
    ensures r != [] ==> !blank(r[|r| - 1])
  {
    if s != [] && blank(s[|s| - 1]) then TrimRight(s[..|s| - 1], blank) else s
  }

  /** Both ends trimmed: the result is a slice of the text with only
      characters of the class cut off around it, and it neither starts nor
      ends with one. */
  function Trim(s: string, blank: char -> bool): (r: string)
    ensures exists i, j :: 0 <= i <= j <= |s| && r == s[i..j] && BlankOutside(s, i, j, blank)
    ensures r != [] ==> !blank(r[0]) && !blank(r[|r| - 1])
    ensures r == [] <==> forall j :: 0 <= j < |s| ==> blank(s[j])
  {
    var l := TrimLeft(s, blank);
    var i := |s| - |l|;
    if l == [] then
      assert l == s[i..i] && BlankOutside(s, i, i, blank);
      l
    else
      var r := TrimRight(l, blank);
      TrimSlice(s, l, r, blank);
      r
  }

  /** A suffix of `s` with only blanks cut before it, cut in turn to a prefix
      with only blanks after it, is a slice of `s` with only blanks around it. */
  lemma TrimSlice(s: string, l: string, r: string, blank: char -> bool)
    requires |l| <= |s| && l == s[|s| - |l|..] && forall j :: 0 <= j < |s| - |l| ==> blank(s[j])
    requires |r| <= |l| && r == l[..|r|] && forall j :: |r| <= j < |l| ==> blank(l[j])
    ensures var i := |s| - |l|; r == s[i..i + |r|] && BlankOutside(s, i, i + |r|, blank)
  {
    var i := |s| - |l|;
    assert forall k :: i + |r| <= k < |s| ==> s[k] == l[k - i];
  }

  /** Every character of `s` before `i` and from `j` on is of the class. */
  predicate BlankOutside(s: string, i: nat, j: nat, blank: char -> bool)
    requires i <= j <= |s|
  {
    (forall k :: 0 <= k < i ==> blank(s[k])) && (forall k :: j <= k < |s| ==> blank(s[k]))
  }

  /** `s.strip()`: the whitespace at both ends is removed and nothing else. */
  function Strip(s: string): (r: string)
    ensures exists i, j :: 0 <= i <= j <= |s| && r == s[i..j] && BlankOutside(s, i, j, IsSpace)
    ensures r != [] ==> !IsSpace(r[0]) && !IsSpace(r[|r| - 1])
    ensures r == [] <==> forall j :: 0 <= j < |s| ==> IsSpace(s[j])
  {
    Trim(s, IsSpace)
  }

  /** Leading characters of the class are trimmed away whatever follows. */
  lemma {:induction false} TrimLeftBlankPrefix(left: string, x: string, blank: char -> bool)
    requires forall k :: 0 <= k < |left| ==> blank(left[k])
    ensures TrimLeft(left + x, blank) == TrimLeft(x, blank)
    decreases |left|
  {
    if left == [] {
      assert left + x == x;
    } else {
      assert (left + x)[1..] == left[1..] + x;
      TrimLeftBlankPrefix(left[1..], x, blank);
    }
  }

  /** Once a character outside the class is reached, the rest is kept as
      it is. */
  lemma {:induction false} TrimLeftAppend(x: string, y: string, blank: char -> bool)
    requires TrimLeft(x, blank) != []
    ensures TrimLeft(x + y, blank) == TrimLeft(x, blank) + y
    decreases |x|
  {
    assert x != [] && (x + y)[0] == x[0];
    if blank(x[0]) {
      assert (x + y)[1..] == x[1..] + y;
      assert TrimLeft(x, blank) == TrimLeft(x[1..], blank);
      TrimLeftAppend(x[1..], y, blank);
    } else {
      assert TrimLeft(x, blank) == x;
    }
  }

  /** Trailing characters of the class are trimmed away whatever comes
      before. */
  lemma {:induction false} TrimRightBlankSuffix(x: string, right: string, blank: char -> bool)
    requires forall k :: 0 <= k < |right| ==> blank(right[k])
    ensures TrimRight(x + right, blank) == TrimRight(x, blank)
    decreases |right|
  {
    if right == [] {
      assert x + right == x;
    } else {
      var shorter := right[..|right| - 1];
      assert (x + right)[..|x + right| - 1] == x + shorter;
      TrimRightBlankSuffix(x, shorter, blank);
    }
  }

  /** Characters of the class added around a string do not change what
      trimming keeps. */
  lemma TrimPadded(left: string, s: string, right: string, blank: char -> bool)
    requires forall k :: 0 <= k < |left| ==> blank(left[k])
    requires forall k :: 0 <= k < |right| ==> blank(right[k])
    ensures Trim(left + s + right, blank) == Trim(s, blank)
  {
    assert left + s + right == left + (s + right);
    TrimLeftBlankPrefix(left, s + right, blank);
    if TrimLeft(s, blank) == [] {
      assert forall k :: 0 <= k < |s + right| ==> blank((s + right)[k]);
    } else {
      TrimLeftAppend(s, right, blank);
      TrimRightBlankSuffix(TrimLeft(s, blank), right, blank);
    }
  }

  /** Whitespace added around a string does not change what `strip` keeps. */
  lemma StripPadded(left: string, s: string, right: string)
    requires forall k :: 0 <= k < |left| ==> IsSpace(left[k])
    requires forall k :: 0 <= k < |right| ==> IsSpace(right[k])
    ensures Strip(left + s + right) == Strip(s)
  {
    TrimPadded(left, s, right, IsSpace);
  }
}
