/** The text of a treemap cell: the county name, cut to ten characters
    followed by an ellipsis when it is longer. */
module Labels {

  const MaxShown := 10
  const Ellipsis := "..."

  /** `county.length > 10 ? county.substring(0, 10) + "..." : county`. */
  function Truncate(name: string): (text: string)
    ensures |text| <= MaxShown + |Ellipsis|
    ensures |name| <= MaxShown ==> text == name
    ensures |name| > MaxShown ==> |text| == MaxShown + |Ellipsis| && text[MaxShown..] == Ellipsis
    ensures var n := if |name| < MaxShown then |name| else MaxShown; text[..n] == name[..n]
  {
    if |name| > MaxShown then name[..MaxShown] + Ellipsis else name
  }

  /** Truncating a label again changes nothing. */
  lemma TruncateIdempotent(name: string)
    ensures Truncate(Truncate(name)) == Truncate(name)
  {
    if |name| > MaxShown {
      assert Truncate(name)[..MaxShown] == name[..MaxShown];
    }
  }
}
