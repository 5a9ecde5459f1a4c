/** Rendering a link cell of the results table as an HTML anchor. */
module Links {
  import opened Chars
  import opened Strings

  /** A table cell: missing (`NaN`/`None`) or holding text. */
  datatype Cell = Missing | Text(text: string)

  /** `url.startswith(('http://', 'https://'))` */
  predicate HasScheme(url: string) {
    StartsWith(url, "http://") || StartsWith(url, "https://")
  }

  /** The link target: `http://` is put in front unless a scheme is there. */
  function Target(url: string): (r: string)
    ensures HasScheme(r)
    ensures HasScheme(url) ==> r == url
    ensures !HasScheme(url) ==> r == "http://" + url
  {
    if HasScheme(url) then url
    else
      assert StartsWith("http://" + url, "http://");
      "http://" + url
  }

  /** The anchor that opens `target` in a new tab and shows it as its
      text: the `href` value and the link text are both the target. */
  function Anchor(target: string): (r: string)
    ensures |r| == 31 + 2 * |target|
    ensures StartsWith(r, "<a href=\"") && At(r, 9, target)
    ensures At(r, 9 + |target|, "\" target=\"_blank\">") && At(r, 27 + |target|, target)
    ensures At(r, 27 + 2 * |target|, "</a>")
  {
    "<a href=\"" + target + "\" target=\"_blank\">" + target + "</a>"
  }

  /** `make_url_clickable` */
  function MakeUrlClickable(url: Cell): (r: string)
    ensures r == [] <==> url.Missing? || Strip(url.text) == []
    ensures r != [] ==> r == Anchor(Target(Strip(url.text)))
  {
    if url.Missing? || Strip(url.text) == [] then ""
    else Anchor(Target(Strip(url.text)))
  }

  /** Adding the scheme twice adds it once. */
  lemma TargetIdempotent(url: string)
    ensures Target(Target(url)) == Target(url)
  {
  }

  /** A cell holding only whitespace renders as the empty string. */
  lemma BlankCell(s: string)
    requires forall j :: 0 <= j < |s| ==> IsSpace(s[j])
    ensures MakeUrlClickable(Text(s)) == ""
  {
  }

  /** The anchor text can be read back: the anchor determines its target. */
  lemma AnchorInjective(a: string, b: string)
    requires Anchor(a) == Anchor(b)
    ensures a == b
  {
    var pre := "<a href=\"";
    var mid := "\" target=\"_blank\">";
    var post := "</a>";
    assert |Anchor(a)| == |pre| + 2 * |a| + |mid| + |post|;
    assert |a| == |b|;
    forall j | 0 <= j < |a| ensures a[j] == b[j] {
      assert Anchor(a)[|pre| + j] == a[j];
      assert Anchor(b)[|pre| + j] == b[j];
    }
  }

  /** Whitespace around the link text does not change the anchor. */
  lemma SurroundingSpaceIgnored(left: string, s: string, right: string)
    requires forall j :: 0 <= j < |left| ==> IsSpace(left[j])
    requires forall j :: 0 <= j < |right| ==> IsSpace(right[j])
    ensures MakeUrlClickable(Text(left + s + right)) == MakeUrlClickable(Text(s))
  {
    StripPadded(left, s, right);
  }
}
