/** The fill colours of the damage categories: the bar chart's
    `colorMapping` object with a white fallback, and the scatter map's
    ordinal scale, whose domain and range list the same six pairs. */
module Colors {
  import opened Wrappers
  import opened JsValues

  /** The damage categories, in the order of the scatter map's scale domain. */
  const Categories: seq<string> :=
    ["No Damage", "Affected (1-9%)", "Minor (10-25%)", "Major (26-50%)", "Destroyed (>50%)", "Unknown"]

  /** The scatter map's scale range: the colour of each category above. */
  const Palette: seq<string> := ["#4CAF50", "#FFEB3B", "#FF9800", "#FF5722", "#F44336", "#9E9E9E"]

  /** The bar chart's `colorMapping` object. */
  const ColorMapping: map<string, string> := map[
    "No Damage" := "#4CAF50",
    "Affected (1-9%)" := "#FFEB3B",
    "Minor (10-25%)" := "#FF9800",
    "Major (26-50%)" := "#FF5722",
    "Destroyed (>50%)" := "#F44336",
    "Unknown" := "#9E9E9E"]

  /** The bar chart's colour for a category it does not know. */
  const Fallback := "#FFFFFF"

  /** The scatter map's substitute for a falsy damage value. */
  const UnknownCategory := "Unknown"

  /** `colorMapping[d] || "#FFFFFF"`. A property lookup turns the key into
      text; null and numbers turn into text ("null", "NaN", numerals) that
      names no category, so only a string cell can find a colour. A missing
      property is undefined, and undefined, like an empty colour, is falsy. */
  function BarColor(category: Cell): string
  {
    var found := if category.Str? && category.s in ColorMapping then ColorMapping[category.s] else "";
    if found != "" then found else Fallback
  }

  /** The position of the first occurrence of `x` in `s`. */
  function IndexOf(s: seq<string>, x: string): (i: nat)
    requires x in s
    ensures i < |s| && s[i] == x && x !in s[..i]
  {
    if s[0] == x then 0 else 1 + IndexOf(s[1..], x)
  }

  /** `d3.scaleOrdinal().domain(Categories).range(Palette)` applied to a key:
      a key of the domain gets the colour at its position. A key outside the
      domain is None: the scale would then extend its domain, which is not
      modelled. */
  function ScatterColor(key: Cell): Option<string>
  {
    if key.Str? && key.s in Categories then Some(Palette[IndexOf(Categories, key.s) % |Palette|]) else None
  }

  /** `colorScale(d["* Damage"] || "Unknown")`. */
  function ScatterFill(damage: Cell): Option<string>
  {
    ScatterColor(Or(damage, Str(UnknownCategory)))
  }

  /** The bar chart gives each of the six categories its colour. */
  lemma BarColorOfCategory(i: nat)
    requires i < |Categories|
    ensures BarColor(Str(Categories[i])) == Palette[i]
  {
  }

  /** The bar chart falls back to white exactly for the keys that are not
      one of the six categories. */
  lemma BarColorFallback(category: Cell)
    ensures BarColor(category) == Fallback <==> !(category.Str? && category.s in Categories)
  {
    if category.Str? && category.s in ColorMapping {
      assert ColorMapping[category.s] in Palette;
    }
  }

  /** The two charts agree: the scatter map's scale knows exactly the six
      categories, and colours each of them as the bar chart does. */
  lemma ScatterColorMatchesBar(key: Cell)
    ensures ScatterColor(key).Some? <==> key.Str? && key.s in Categories
    ensures ScatterColor(key).Some? ==> ScatterColor(key).value == BarColor(key)
  {
    if key.Str? && key.s in Categories {
      var i := IndexOf(Categories, key.s);
      ModBelow(i, |Palette|);
      assert Str(Categories[i]) == key;
      BarColorOfCategory(i);
    }
  }

  /** A position inside the range needs no wrapping. */
  lemma ModBelow(i: nat, n: nat)
    requires i < n
    ensures i % n == i
  {
  }

  /** A falsy damage value is drawn as "Unknown", in grey; a truthy one is
      looked up as it is. */
  lemma ScatterFillFalsy(damage: Cell)
    ensures !Truthy(damage) ==> ScatterFill(damage) == Some("#9E9E9E")
    ensures Truthy(damage) ==> ScatterFill(damage) == ScatterColor(damage)
  {
    if !Truthy(damage) {
      assert IndexOf(Categories, UnknownCategory) == 5;
      ModBelow(5, |Palette|);
    }
  }
}
