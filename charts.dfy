/** The data behind the four charts of the page: the damage bar chart, the
    scatter map, the year-built line graph and the county treemap. Each
    chart reads the wildfire table, filters, groups and orders its rows, and
    hands the result to d3 for drawing; the drawing is not modelled. */
module Charts {
  import opened Wrappers
  import opened JsValues
  import opened Filtering
  import opened Rollup
  import opened StableSort
  import opened Colors
  import opened Labels

  /** The columns of a wildfire.csv row, read with `d3.autoType`, that the
      charts look at: "* Damage", "Year Built (parcel)", "Latitude" and
      "Longitude". */
  datatype Record = Record(damage: Cell, yearBuilt: Cell, latitude: Cell, longitude: Cell)

  /** A row of the same file read without `autoType`, as the treemap reads
      it: every cell is text. Only its "County" column is used. */
  datatype RawRecord = RawRecord(county: string)

  /** `!data || data.length === 0`: nothing was loaded, so the chart logs
      "No data loaded." and draws nothing. */
  predicate NoData(data: Option<seq<Record>>)
  {
    data.None? || data.value == []
  }

  /** The grouping facts survive any stable sort of the buckets `bs`. */
  lemma SortedTally<K>(keys: seq<K>, rank: Bucket<K> -> real, bs: seq<Bucket<K>>)
    requires bs == SortBy(Tally(keys), rank)
    ensures DistinctKeys(bs)
    ensures forall i :: 0 <= i < |bs| ==> bs[i].count == multiset(keys)[bs[i].key] >= 1
    ensures forall p :: 0 <= p < |keys| ==> exists i :: 0 <= i < |bs| && bs[i].key == keys[p]
    ensures Total(bs) == |keys|
  {
    var t := Tally(keys);
    TallyKeys(keys);
    TallyCounts(keys);
    TallyTotal(keys);
    SortByPermutation(t, rank);
    DistinctKeysPermutation(t, bs);
    TotalPermutation(t, bs);
    forall i | 0 <= i < |bs| ensures bs[i].count == multiset(keys)[bs[i].key] >= 1 {
      assert bs[i] in multiset(t);
    }
    forall p | 0 <= p < |keys| ensures exists i :: 0 <= i < |bs| && bs[i].key == keys[p] {
      assert keys[p] in keys;
      var i :| 0 <= i < |t| && t[i].key == keys[p];
      assert t[i] in multiset(bs);
    }
  }

  /** After a stable sort, buckets of equal rank are still in first-encounter
      order. */
  lemma SortedTallyTieOrder<K>(keys: seq<K>, rank: Bucket<K> -> real, i: nat, j: nat, m: nat)
    requires i < j < |SortBy(Tally(keys), rank)| && m < |keys|
    requires rank(SortBy(Tally(keys), rank)[i]) == rank(SortBy(Tally(keys), rank)[j])
    requires keys[m] == SortBy(Tally(keys), rank)[j].key
    ensures SortBy(Tally(keys), rank)[i].key in keys[..m]
  {
    var t := Tally(keys);
    TallyOrder(keys);
    SortByKeepsTieOrder(t, rank, i, j);
    var p, q :| 0 <= p < q < |t| && t[p] == SortBy(t, rank)[i] && t[q] == SortBy(t, rank)[j];
  }

  // ---------------------------------------------------------------------
  // Bar chart: properties per damage category

  /** The key accessor `d => d["* Damage"]`. */
  function Damage(r: Record): Cell
  {
    r.damage
  }

  /** The comparator `d3.descending(a.count, b.count)`, as a rank: larger
      counts come first. */
  function ByCountDescending(b: Bucket<Cell>): real
  {
    -(b.count as real)
  }

  /** The rank orders as the comparator `d3.descending(a.count, b.count)`
      does: `a` goes first exactly when its count is larger, and the two tie
      exactly when their counts are equal. */
  lemma ByCountDescendingOrders(a: Bucket<Cell>, b: Bucket<Cell>)
    ensures ByCountDescending(a) < ByCountDescending(b) <==> a.count > b.count
    ensures ByCountDescending(a) == ByCountDescending(b) <==> a.count == b.count
  {
  }

  /** `damageArray` once sorted. */
  function DamageBuckets(rows: seq<Record>): seq<Bucket<Cell>>
  {
    SortBy(Tally(KeysOf(rows, Damage)), ByCountDescending)
  }

  /** One bar: its category (the band on the x axis), its height in
      properties and its fill. */
  datatype Bar = Bar(category: Cell, count: nat, fill: string)

  function BarsOf(bs: seq<Bucket<Cell>>): seq<Bar>
  {
    seq(|bs|, i requires 0 <= i < |bs| => Bar(bs[i].key, bs[i].count, BarColor(bs[i].key)))
  }

  /** The bar chart: guard, rollup by damage category, `Array.from`, the
      in-place sort, and the fill of each bar. */
  method BarChart(data: Option<seq<Record>>) returns (bars: Option<seq<Bar>>)
    ensures bars.None? <==> NoData(data)
    ensures bars.Some? ==> bars.value == BarsOf(DamageBuckets(data.value))
  {
    if data.None? || |data.value| == 0 {
      return None;
    }
    var rows := data.value;
    var damageCounts := RollupCount(KeysOf(rows, Damage));
    var damageArray := new Bucket<Cell>[|damageCounts|](i requires 0 <= i < |damageCounts| => damageCounts[i]);
    assert damageArray[..] == damageCounts;
    SortInPlace(damageArray, ByCountDescending);
    bars := Some(BarsOf(damageArray[..]));
  }

  /** Grouping by damage category makes one bucket per distinct value,
      counts every row under its own value (a missing category, null, is a
      value like any other and is not dropped), so every count is at least
      one and the counts add up to the number of rows. */
  lemma DamageBucketsCount(rows: seq<Record>)
    ensures var bs := DamageBuckets(rows);
      && DistinctKeys(bs)
      && (forall i :: 0 <= i < |bs| ==> bs[i].count == multiset(KeysOf(rows, Damage))[bs[i].key] >= 1)
      && (forall p :: 0 <= p < |rows| ==> exists i :: 0 <= i < |bs| && bs[i].key == Damage(rows[p]))
      && Total(bs) == |rows|
  {
    var keys := KeysOf(rows, Damage);
    SortedTally(keys, ByCountDescending, DamageBuckets(rows));
    KeysOfCovered(rows, Damage, DamageBuckets(rows));
  }

  /** The sorted buckets have non-increasing counts, are a permutation of
      the rolled-up ones, and buckets with equal counts stay in
      first-encounter order: the category of the earlier one turns up in
      the rows before any row of the later one. */
  lemma DamageBucketsOrder(rows: seq<Record>)
    ensures var bs := DamageBuckets(rows);
      && (forall i, j :: 0 <= i < j < |bs| ==> bs[i].count >= bs[j].count)
      && multiset(bs) == multiset(Tally(KeysOf(rows, Damage)))
      && (forall i, j, m :: 0 <= i < j < |bs| && bs[i].count == bs[j].count && 0 <= m < |rows| && rows[m].damage == bs[j].key ==>
            bs[i].key in KeysOf(rows, Damage)[..m])
  {
    var keys := KeysOf(rows, Damage);
    var t := Tally(keys);
    var bs := DamageBuckets(rows);
    SortBySorted(t, ByCountDescending);
    SortByPermutation(t, ByCountDescending);
    forall i, j | 0 <= i < j < |bs| ensures bs[i].count >= bs[j].count {
      assert ByCountDescending(bs[i]) <= ByCountDescending(bs[j]);
    }
    forall i, j, m | 0 <= i < j < |bs| && bs[i].count == bs[j].count && 0 <= m < |rows| && rows[m].damage == bs[j].key
      ensures bs[i].key in keys[..m]
    {
      assert ByCountDescending(bs[i]) == ByCountDescending(bs[j]);
      assert keys[m] == Damage(rows[m]) == bs[j].key;
      SortedTallyTieOrder(keys, ByCountDescending, i, j, m);
    }
  }

  /** Two properties destroyed and one with minor damage: the destroyed
      bucket comes first with 2, then the minor bucket with 1. */
  lemma DamageBucketsExample()
    ensures var destroyed, minor := Str("Destroyed (>50%)"), Str("Minor (10-25%)");
      var rows := [Record(destroyed, Null, Null, Null), Record(minor, Null, Null, Null), Record(destroyed, Null, Null, Null)];
      DamageBuckets(rows) == [Bucket(destroyed, 2), Bucket(minor, 1)]
  {
    var destroyed, minor := Str("Destroyed (>50%)"), Str("Minor (10-25%)");
    var rows := [Record(destroyed, Null, Null, Null), Record(minor, Null, Null, Null), Record(destroyed, Null, Null, Null)];
    var keys := KeysOf(rows, Damage);
    assert keys[0] == Damage(rows[0]) && keys[1] == Damage(rows[1]) && keys[2] == Damage(rows[2]);
    assert keys == [destroyed, minor, destroyed];
    assert keys[..2] == [destroyed, minor] && keys[..2][..1] == [destroyed] && keys[..2][..1][..0] == [];
    var one := [Bucket(destroyed, 1)];
    assert Tally([destroyed]) == one;
    assert Bump(one, minor) == [Bucket(destroyed, 1), Bucket(minor, 1)] by {
      assert one[1..] == [];
    }
    var t := [Bucket(destroyed, 2), Bucket(minor, 1)];
    assert Bump([Bucket(destroyed, 1), Bucket(minor, 1)], destroyed) == t;
    assert Tally(keys) == t;
    assert t[..1] == [t[0]] && t[..1][..0] == [];
    assert SortBy(t, ByCountDescending) == t;
  }

  // ---------------------------------------------------------------------
  // Scatter map: one dot per property with coordinates

  /** The test `d => d.Latitude && d.Longitude`. */
  predicate HasCoordinates(r: Record)
  {
    Truthy(r.latitude) && Truthy(r.longitude)
  }

  /** One dot: the row it stands for (its position is the projection of the
      row's coordinates, not modelled) and its fill. */
  datatype Dot = Dot(row: Record, fill: Option<string>)

  /** `newData`, each row with its fill. */
  function ScatterDots(rows: seq<Record>): seq<Dot>
  {
    var kept := Filter(rows, HasCoordinates);
    seq(|kept|, i requires 0 <= i < |kept| => Dot(kept[i], ScatterFill(kept[i].damage)))
  }

  /** The dots stand, one for one and in order, for the rows that pass the
      coordinate filter (so FilterSelectsInOrder describes them exactly);
      every dot has a truthy latitude and longitude; the dots keep the
      order of the rows; no row with coordinates is lost; and a dot whose
      damage value is missing is grey, the colour of "Unknown". */
  lemma ScatterDotsFacts(rows: seq<Record>)
    ensures var dots := ScatterDots(rows);
      && |dots| == |Filter(rows, HasCoordinates)|
      && (forall i :: 0 <= i < |dots| ==> dots[i].row == Filter(rows, HasCoordinates)[i])
      && (forall i :: 0 <= i < |dots| ==> HasCoordinates(dots[i].row))
      && (forall i, j :: 0 <= i < j < |dots| ==>
            exists p, q :: 0 <= p < q < |rows| && rows[p] == dots[i].row && rows[q] == dots[j].row)
      && (forall p :: 0 <= p < |rows| && HasCoordinates(rows[p]) ==> exists i :: 0 <= i < |dots| && dots[i].row == rows[p])
      && (forall i :: 0 <= i < |dots| && !Truthy(dots[i].row.damage) ==> dots[i].fill == Some("#9E9E9E"))
  {
    var kept := Filter(rows, HasCoordinates);
    var dots := ScatterDots(rows);
    forall i | 0 <= i < |dots| ensures HasCoordinates(dots[i].row) {
      assert dots[i].row == kept[i] && kept[i] in kept;
    }
    forall i, j | 0 <= i < j < |dots|
      ensures exists p, q :: 0 <= p < q < |rows| && rows[p] == dots[i].row && rows[q] == dots[j].row
    {
      FilterReflectsOrder(rows, HasCoordinates, i, j);
      var p, q :| 0 <= p < q < |rows| && rows[p] == kept[i] && rows[q] == kept[j];
      assert rows[p] == dots[i].row && rows[q] == dots[j].row;
    }
    forall p | 0 <= p < |rows| && HasCoordinates(rows[p]) ensures exists i :: 0 <= i < |dots| && dots[i].row == rows[p] {
      FilterKeeps(rows, HasCoordinates, rows[p]);
      var i :| 0 <= i < |kept| && kept[i] == rows[p];
      assert dots[i].row == rows[p];
    }
    forall i | 0 <= i < |dots| && !Truthy(dots[i].row.damage) ensures dots[i].fill == Some("#9E9E9E") {
      ScatterFillFalsy(dots[i].row.damage);
    }
  }

  // ---------------------------------------------------------------------
  // Line graph: properties per year built

  /** The key accessor `d => d["Year Built (parcel)"]`. */
  function YearBuilt(r: Record): Cell
  {
    r.yearBuilt
  }

  /** The test `d => d["Year Built (parcel)"] && !isNaN(d["Year Built (parcel)"])`. */
  predicate HasYear(r: Record)
  {
    Truthy(r.yearBuilt) && !IsNaN(r.yearBuilt)
  }

  /** `+year` on a key that passed HasYear, which is always a finite
      number; the other cells never reach it. */
  function YearNumber(c: Cell): real
  {
    match c
    case Num(Finite(v)) => v
    case _ => 0.0
  }

  /** The comparator `(a, b) => a.year - b.year`, as a rank. */
  function ByYear(b: Bucket<real>): real
  {
    b.key
  }

  /** The rank orders as the comparator `a.year - b.year` does: `a` goes
      first exactly when the difference is negative, and the two tie
      exactly when it is zero. */
  lemma ByYearOrders(a: Bucket<real>, b: Bucket<real>)
    ensures ByYear(a) < ByYear(b) <==> a.key - b.key < 0.0
    ensures ByYear(a) == ByYear(b) <==> a.key - b.key == 0.0
  {
  }

  /** `yearData` once sorted. */
  function YearSeries(rows: seq<Record>): seq<Bucket<real>>
  {
    SortBy(Rekey(Tally(KeysOf(Filter(rows, HasYear), YearBuilt)), YearNumber), ByYear)
  }

  /** The line graph: guard, year filter, rollup by year, `Array.from` with
      `+year`, and the in-place sort. */
  method LineChart(data: Option<seq<Record>>) returns (points: Option<seq<Bucket<real>>>)
    ensures points.None? <==> NoData(data)
    ensures points.Some? ==> points.value == YearSeries(data.value)
  {
    if data.None? || |data.value| == 0 {
      return None;
    }
    var rows := Filter(data.value, HasYear);
    var yearCounts := RollupCount(KeysOf(rows, YearBuilt));
    var converted := Rekey(yearCounts, YearNumber);
    var yearData := new Bucket<real>[|converted|](i requires 0 <= i < |converted| => converted[i]);
    assert yearData[..] == converted;
    SortInPlace(yearData, ByYear);
    points := Some(yearData[..]);
  }

  /** The year filter keeps exactly the rows whose year is a finite, nonzero
      number: null, 0, NaN and text are all dropped. */
  lemma HasYearExactly(r: Record)
    ensures HasYear(r) <==> r.yearBuilt.Num? && r.yearBuilt.n.Finite? && r.yearBuilt.n.v != 0.0
  {
  }

  /** The year of a row, as the line graph plots it. */
  function RowYear(r: Record): real
  {
    YearNumber(r.yearBuilt)
  }

  /** On rows that passed the year filter, the conversion to a number
      merges no two distinct year cells. */
  lemma YearNumberInjective(kept: seq<Record>)
    requires forall r :: r in kept ==> HasYear(r)
    ensures forall a, b :: a in KeysOf(kept, YearBuilt) && b in KeysOf(kept, YearBuilt) && YearNumber(a) == YearNumber(b) ==> a == b
  {
    var cells := KeysOf(kept, YearBuilt);
    forall a, b | a in cells && b in cells && YearNumber(a) == YearNumber(b) ensures a == b {
      var p :| 0 <= p < |cells| && cells[p] == a;
      var q :| 0 <= q < |cells| && cells[q] == b;
      assert kept[p] in kept && kept[q] in kept;
      assert cells[p] == YearBuilt(kept[p]) && cells[q] == YearBuilt(kept[q]);
      assert HasYear(kept[p]) && HasYear(kept[q]);
      assert a.Num? && a.n.Finite? && b.Num? && b.n.Finite?;
    }
  }

  /** Converting the kept year cells to numbers merges no two of them, so
      the series is the sorted tally of the kept rows' numeric years. */
  lemma YearSeriesIsSortedTally(rows: seq<Record>)
    ensures YearSeries(rows) == SortBy(Tally(KeysOf(Filter(rows, HasYear), RowYear)), ByYear)
  {
    var kept := Filter(rows, HasYear);
    var cells := KeysOf(kept, YearBuilt);
    YearNumberInjective(kept);
    TallyRekey(cells, YearNumber);
    var years := KeysOf(kept, RowYear);
    assert KeysOf(cells, YearNumber) == years;
  }

  /** Sorting buckets with distinct years by year makes the years strictly
      ascending. */
  lemma SortedYearsAscend(bs: seq<Bucket<real>>)
    requires DistinctKeys(bs)
    ensures forall i, j :: 0 <= i < j < |SortBy(bs, ByYear)| ==> SortBy(bs, ByYear)[i].key < SortBy(bs, ByYear)[j].key
  {
    var ys := SortBy(bs, ByYear);
    SortByPermutation(bs, ByYear);
    DistinctKeysPermutation(bs, ys);
    SortBySorted(bs, ByYear);
    forall i, j | 0 <= i < j < |ys| ensures ys[i].key < ys[j].key {
      assert ByYear(ys[i]) <= ByYear(ys[j]);
      assert ys[i].key != ys[j].key;
    }
  }

  /** The points of the line graph: strictly ascending years (so no year
      twice), each counting exactly the kept rows built that year, every
      kept row's year present, and the counts adding up to the number of
      rows that passed the filter. */
  lemma YearSeriesFacts(rows: seq<Record>)
    ensures forall i, j :: 0 <= i < j < |YearSeries(rows)| ==> YearSeries(rows)[i].key < YearSeries(rows)[j].key
    ensures forall i :: 0 <= i < |YearSeries(rows)| ==>
      YearSeries(rows)[i].count == multiset(KeysOf(Filter(rows, HasYear), RowYear))[YearSeries(rows)[i].key] >= 1
    ensures forall p :: 0 <= p < |Filter(rows, HasYear)| ==>
      exists i :: 0 <= i < |YearSeries(rows)| && YearSeries(rows)[i].key == RowYear(Filter(rows, HasYear)[p])
    ensures Total(YearSeries(rows)) == |Filter(rows, HasYear)|
  {
    var kept := Filter(rows, HasYear);
    var years := KeysOf(kept, RowYear);
    YearSeriesIsSortedTally(rows);
    YearPointFacts(years, YearSeries(rows));
    KeysOfCovered(kept, RowYear, YearSeries(rows));
  }

  /** Buckets that cover every key of a list of rows cover every row. */
  lemma KeysOfCovered<R, K>(rows: seq<R>, key: R -> K, bs: seq<Bucket<K>>)
    requires forall p :: 0 <= p < |KeysOf(rows, key)| ==> exists i :: 0 <= i < |bs| && bs[i].key == KeysOf(rows, key)[p]
    ensures forall p :: 0 <= p < |rows| ==> exists i :: 0 <= i < |bs| && bs[i].key == key(rows[p])
  {
    var keys := KeysOf(rows, key);
    forall p | 0 <= p < |rows| ensures exists i :: 0 <= i < |bs| && bs[i].key == key(rows[p]) {
      var i :| 0 <= i < |bs| && bs[i].key == keys[p];
      assert bs[i].key == key(rows[p]);
    }
    assert forall p :: 0 <= p < |rows| ==> exists i :: 0 <= i < |bs| && bs[i].key == key(rows[p]);
  }

  /** The facts of YearSeriesFacts, stated for the sorted tally `ys` of any
      list of numeric years. */
  lemma YearPointFacts(years: seq<real>, ys: seq<Bucket<real>>)
    requires ys == SortBy(Tally(years), ByYear)
    ensures forall i, j :: 0 <= i < j < |ys| ==> ys[i].key < ys[j].key
    ensures forall i :: 0 <= i < |ys| ==> ys[i].count == multiset(years)[ys[i].key] >= 1
    ensures forall p :: 0 <= p < |years| ==> exists i :: 0 <= i < |ys| && ys[i].key == years[p]
    ensures Total(ys) == |years|
  {
    SortedTally(years, ByYear, ys);
    TallyDistinct(years);
    SortedYearsAscend(Tally(years));
  }

  /** The example rows of YearSeriesExample. */
  function ExampleYearRows(): seq<Record>
  {
    [Record(Null, Num(Finite(1990.0)), Null, Null), Record(Null, Null, Null, Null),
     Record(Null, Num(Finite(2005.0)), Null, Null), Record(Null, Str("bad"), Null, Null)]
  }

  /** The missing and the textual year fail the year filter. */
  lemma ExampleYearKept()
    ensures Filter(ExampleYearRows(), HasYear) == [ExampleYearRows()[0], ExampleYearRows()[2]]
  {
    var rows := ExampleYearRows();
    var a, b, c, d := rows[0], rows[1], rows[2], rows[3];
    assert rows[..3] == [a, b, c] && rows[..3][..2] == [a, b] && rows[..3][..2][..1] == [a] && rows[..3][..2][..1][..0] == [];
    assert HasYear(a) && !HasYear(b) && HasYear(c) && !HasYear(d);
    assert Filter([a], HasYear) == [a];
    assert Filter([a, b], HasYear) == [a];
    assert Filter([a, b, c], HasYear) == [a, c];
  }

  /** Two rows with different years give one bucket each. */
  lemma ExampleYearTally(a: Record, c: Record)
    requires a.yearBuilt != c.yearBuilt
    ensures Tally(KeysOf([a, c], YearBuilt)) == [Bucket(a.yearBuilt, 1), Bucket(c.yearBuilt, 1)]
  {
    var cells := KeysOf([a, c], YearBuilt);
    assert cells[0] == YearBuilt(a) && cells[1] == YearBuilt(c);
    assert cells == [a.yearBuilt, c.yearBuilt];
    assert cells[..1] == [a.yearBuilt] && cells[..1][..0] == [];
    assert Bump([Bucket(a.yearBuilt, 1)], c.yearBuilt) == [Bucket(a.yearBuilt, 1), Bucket(c.yearBuilt, 1)] by {
      assert [Bucket(a.yearBuilt, 1)][1..] == [];
    }
    assert Tally([a.yearBuilt]) == [Bucket(a.yearBuilt, 1)];
  }

  /** Years 1990, missing, 2005 and the text "bad": the missing and the
      textual year are dropped, leaving one point for 1990 and one for 2005. */
  lemma YearSeriesExample()
    ensures YearSeries(ExampleYearRows()) == [Bucket(1990.0, 1), Bucket(2005.0, 1)]
  {
    var rows := ExampleYearRows();
    var a, c := rows[0], rows[2];
    ExampleYearKept();
    ExampleYearTally(a, c);
    var t := [Bucket(a.yearBuilt, 1), Bucket(c.yearBuilt, 1)];
    var years := [Bucket(1990.0, 1), Bucket(2005.0, 1)];
    var r := Rekey(t, YearNumber);
    assert r[0] == Bucket(YearNumber(a.yearBuilt), 1) && r[1] == Bucket(YearNumber(c.yearBuilt), 1);
    assert r == years;
    assert years[..1] == [years[0]] && years[..1][..0] == [];
    assert SortBy(years, ByYear) == years;
  }

  // ---------------------------------------------------------------------
  // Treemap: properties per county

  /** The key accessor `d => d["County"]`. */
  function County(r: RawRecord): string
  {
    r.county
  }

  /** One treemap cell: its county, its weight and its text. */
  datatype Leaf = Leaf(county: string, count: nat, text: string)

  function LeavesOf(bs: seq<Bucket<string>>): seq<Leaf>
  {
    seq(|bs|, i requires 0 <= i < |bs| => Leaf(bs[i].key, bs[i].count, Truncate(bs[i].key)))
  }

  /** The treemap: rollup by county, `Array.from`, and the label of each
      leaf, in the order of the buckets (the hierarchy is not sorted). There
      is no guard: with no rows the hierarchy's root is its only leaf, its
      datum has no county, and reading the label's length throws, which
      ends the render in the promise's catch (None). */
  method Treemap(rows: seq<RawRecord>) returns (leaves: Option<seq<Leaf>>)
    ensures leaves.None? <==> rows == []
    ensures leaves.Some? ==> leaves.value == LeavesOf(Tally(KeysOf(rows, County)))
  {
    var fireNameCounts := RollupCount(KeysOf(rows, County));
    TallyTotal(KeysOf(rows, County));
    if fireNameCounts == [] {
      return None;
    }
    leaves := Some(LeavesOf(fireNameCounts));
  }

  /** One leaf per distinct county, counting its rows, with counts that add
      up to the number of rows; each label is the county cut to at most 13
      characters, unchanged when the name has at most 10. */
  lemma TreemapFacts(rows: seq<RawRecord>)
    ensures var bs := Tally(KeysOf(rows, County)); var leaves := LeavesOf(bs);
      && (forall i, j :: 0 <= i < j < |leaves| ==> leaves[i].county != leaves[j].county)
      && (forall i :: 0 <= i < |leaves| ==> leaves[i].count == multiset(KeysOf(rows, County))[leaves[i].county] >= 1)
      && Total(bs) == |rows|
      && (forall i :: 0 <= i < |leaves| ==> |leaves[i].text| <= 13)
      && (forall i :: 0 <= i < |leaves| && |leaves[i].county| <= 10 ==> leaves[i].text == leaves[i].county)
  {
    var keys := KeysOf(rows, County);
    TallyKeys(keys);
    TallyCounts(keys);
    TallyTotal(keys);
  }
}
