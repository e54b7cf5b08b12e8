/** The chart geometry: an SVG of WIDTH x HEIGHT, an outer group inset by
    MARGIN, and an inner plotting area inset from it by PADDING. */
module Layout {

  datatype Insets = Insets(top: int, right: int, bottom: int, left: int)

  const Margin := Insets(20, 80, 20, 100)
  const Padding := Insets(60, 60, 150, 60)
  const Width := 1000
  const Height := 600
  const OuterWidth := Width - Margin.left - Margin.right
  const OuterHeight := Height - Margin.top - Margin.bottom
  const InnerWidth := OuterWidth - Padding.left - Padding.right
  const InnerHeight := OuterHeight - Padding.top - Padding.bottom

  /** The derived sizes, and that each area fits inside the one around it. */
  lemma Dimensions()
    ensures OuterWidth == 820 && OuterHeight == 560
    ensures InnerWidth == 700 && InnerHeight == 350
    ensures 0 < InnerWidth < OuterWidth < Width
    ensures 0 < InnerHeight < OuterHeight < Height
  {
  }
}
