/** Choosing the price column of the loaded table by its header. */
module PriceColumns {
  import opened Strings

  /** A header naming the current price: its lower-cased form contains
      both `актуальн` and `цена`. */
  predicate IsCurrentPrice(name: string) {
    Contains(Lowered(name), "актуальн") && Contains(Lowered(name), "цена")
  }

  /** The fallback header: lower-cased, it is exactly `цена`. */
  predicate IsPlainPrice(name: string) {
    Lowered(name) == "цена"
  }

  /** `r` is `s` with some elements left out, in the same order. */
  predicate Subsequence(r: seq<string>, s: seq<string>)
    decreases |s|
  {
    r == [] || (s != [] && ((r[0] == s[0] && Subsequence(r[1..], s[1..])) || Subsequence(r, s[1..])))
  }

  /** The list comprehension `[col for col in columns if keep(col)]`. */
  function Select(columns: seq<string>, keep: string -> bool): (r: seq<string>)
    ensures Subsequence(r, columns)
    ensures forall c :: multiset(r)[c] == if keep(c) then multiset(columns)[c] else 0
  {
    if columns == [] then []
    else
      var rest := Select(columns[1..], keep);
      assert columns == [columns[0]] + columns[1..];
      if keep(columns[0]) then [columns[0]] + rest else rest
  }

  /** `extract_price_columns`: the current-price headers when there are
      any, otherwise the plain `цена` headers. */
  function ExtractPriceColumns(columns: seq<string>): (r: seq<string>)
    ensures Subsequence(r, columns)
    ensures (exists i :: 0 <= i < |columns| && IsCurrentPrice(columns[i])) ==>
      forall c :: multiset(r)[c] == if IsCurrentPrice(c) then multiset(columns)[c] else 0
    ensures (forall i :: 0 <= i < |columns| ==> !IsCurrentPrice(columns[i])) ==>
      forall c :: multiset(r)[c] == if IsPlainPrice(c) then multiset(columns)[c] else 0
  {
    var current := Select(columns, IsCurrentPrice);
    if current != [] then current
    else
      assert forall i :: 0 <= i < |columns| ==> !IsCurrentPrice(columns[i]) by {
        forall i | 0 <= i < |columns| ensures !IsCurrentPrice(columns[i]) {
          assert columns[i] in multiset(columns);
          assert multiset(current)[columns[i]] == 0;
        }
      }
      Select(columns, IsPlainPrice)
  }

  /** `sort_price_columns`: `columns[:1]`, which Python clamps to the
      length, so an empty list stays empty. */
  function SortPriceColumns(columns: seq<string>): (r: seq<string>)
    ensures |r| <= 1 && Subsequence(r, columns)
    ensures r == [] <==> columns == []
    ensures r != [] ==> r[0] == columns[0]
  {
    if columns == [] then [] else columns[..1]
  }

  /** The first element of a selection is the first kept column. */
  lemma {:induction false} SelectFirst(columns: seq<string>, keep: string -> bool, i: nat)
    requires i < |columns| && keep(columns[i])
    requires forall j :: 0 <= j < i ==> !keep(columns[j])
    ensures Select(columns, keep) != [] && Select(columns, keep)[0] == columns[i]
  {
    if i > 0 {
      SelectFirst(columns[1..], keep, i - 1);
    }
  }

  /** The chosen price column is the first current-price header. */
  lemma ChosenCurrentPrice(columns: seq<string>, i: nat)
    requires i < |columns| && IsCurrentPrice(columns[i])
    requires forall j :: 0 <= j < i ==> !IsCurrentPrice(columns[j])
    ensures SortPriceColumns(ExtractPriceColumns(columns)) == [columns[i]]
  {
    SelectFirst(columns, IsCurrentPrice, i);
  }

  /** Without a current-price header, the chosen column is the first plain
      `цена` header. */
  lemma ChosenPlainPrice(columns: seq<string>, i: nat)
    requires forall j :: 0 <= j < |columns| ==> !IsCurrentPrice(columns[j])
    requires i < |columns| && IsPlainPrice(columns[i])
    requires forall j :: 0 <= j < i ==> !IsPlainPrice(columns[j])
    ensures SortPriceColumns(ExtractPriceColumns(columns)) == [columns[i]]
  {
    SelectFirst(columns, IsPlainPrice, i);
  }

  /** No column is chosen exactly when no header is a price header. */
  lemma NoPriceColumn(columns: seq<string>)
    ensures SortPriceColumns(ExtractPriceColumns(columns)) == [] <==>
      forall j :: 0 <= j < |columns| ==> !IsCurrentPrice(columns[j]) && !IsPlainPrice(columns[j])
  {
    forall j | 0 <= j < |columns|
      ensures IsCurrentPrice(columns[j]) ==> multiset(Select(columns, IsCurrentPrice))[columns[j]] > 0
      ensures IsPlainPrice(columns[j]) ==> multiset(Select(columns, IsPlainPrice))[columns[j]] > 0
    {
      assert columns[j] in multiset(columns);
    }
  }
}
