/**
 * The data that `updateChart` and `drawTrendline` hand to the renderer: the selected
 * category's points regrouped by year and summed, and the trendline over the same
 * points when the trendline toggle is checked.
 */
module Chart {

  import opened Wrappers
  import opened Grouping
  import opened Laureates
  import opened Aggregation
  import opened Trend

  /** One point of the data line: `{year, count}`. */
  datatype YearCount = YearCount(year: int, count: nat)

  /** What one call of `updateChart` draws: the data line and, if enabled, the trendline. */
  datatype ChartData = ChartData(line: seq<YearCount>, trendline: Option<seq<TrendPoint>>)

  function PointYear(p: Point): int { p.year }

  /** `groupedData`: the points grouped by year, each group's counts summed. */
  function Regroup(points: seq<Point>): seq<YearCount>
  {
    var gs := GroupBy(points, PointYear);
    seq(|gs|, i requires 0 <= i < |gs| => YearCount(gs[i].0, SumCounts(gs[i].1)))
  }

  /** The `{year, count}` of each point, in order. */
  function YearCounts(points: seq<Point>): seq<YearCount>
  {
    seq(|points|, i requires 0 <= i < |points| => YearCount(points[i].year, points[i].count))
  }

  /** The trendline data of `drawTrendline(selectedCategory)`. */
  function TrendlineData(flattened: seq<Point>, selectedCategory: string): seq<TrendPoint>
  {
    LinearRegression(FilterByCategory(flattened, selectedCategory))
  }

  /**
   * `updateChart(selectedGroup)`, with the state of the trendline toggle as a parameter.
   * On points where no category and year repeat, as the flattened rollup is, the line is
   * the selected group's points one for one, and the trendline has a point at each
   * year of the line.
   */
  function UpdateChart(flattened: seq<Point>, selectedGroup: string, trendlineChecked: bool): (r: ChartData)
    ensures r.trendline.Some? <==> trendlineChecked
    ensures r.trendline.Some? ==> r.trendline.value == TrendlineData(flattened, selectedGroup)
    ensures UniqueCategoryYear(flattened) ==> r.line == YearCounts(FilterByCategory(flattened, selectedGroup))
    ensures UniqueCategoryYear(flattened) && r.trendline.Some? ==>
      |r.trendline.value| == |r.line| &&
      forall i :: 0 <= i < |r.line| ==> r.trendline.value[i].year == r.line[i].year
  {
    var dataFilter := FilterByCategory(flattened, selectedGroup);
    assert UniqueCategoryYear(flattened) ==> Regroup(dataFilter) == YearCounts(dataFilter) by {
      if UniqueCategoryYear(flattened) {
        FilterYearsDistinct(flattened, selectedGroup);
        RegroupDistinctYears(dataFilter);
      }
    }
    ChartData(Regroup(dataFilter),
              if trendlineChecked then Some(TrendlineData(flattened, selectedGroup)) else None)
  }

  /** When no year repeats, regrouping by year changes nothing but the shape of the points. */
  lemma RegroupDistinctYears(points: seq<Point>)
    requires NoDuplicates(Project(points, PointYear))
    ensures Regroup(points) == YearCounts(points)
  {
    GroupByUnique(points, PointYear);
    var gs := GroupBy(points, PointYear);
    forall i | 0 <= i < |points| ensures SumCounts(gs[i].1) == points[i].count {
      assert gs[i].1 == [points[i]];
    }
  }

  /** Within one category of points without a repeated category and year, no year repeats. */
  lemma {:induction false} FilterYearsDistinct(points: seq<Point>, c: string)
    requires UniqueCategoryYear(points)
    ensures NoDuplicates(Project(FilterByCategory(points, c), PointYear))
  {
    if points != [] {
      var p, x := points[..|points| - 1], points[|points| - 1];
      assert UniqueCategoryYear(p) by {
        forall a, b | 0 <= a < b < |p|
          ensures p[a].category != p[b].category || p[a].year != p[b].year
        {
          assert p[a] == points[a] && p[b] == points[b];
        }
      }
      FilterYearsDistinct(p, c);
      var before := FilterByCategory(p, c);
      if x.category == c {
        var after := before + [x];
        assert FilterByCategory(points, c) == after;
        ProjectSnoc(after, PointYear);
        assert after[..|after| - 1] == before;
        MatchingMembers(p, PointCategory, c);
        forall k | 0 <= k < |before| ensures before[k].year != x.year {
          assert before[k] in before;
          var a :| 0 <= a < |p| && p[a] == before[k];
          assert points[a] == before[k];
        }
        var ys := Project(after, PointYear);
        forall a, b | 0 <= a < b < |ys| ensures ys[a] != ys[b] {
          assert ys[a] == PointYear(after[a]) && ys[b] == PointYear(after[b]);
          assert after[a] == before[a];
          if b < |before| {
            assert after[b] == before[b];
            assert Project(before, PointYear)[a] != Project(before, PointYear)[b];
          } else {
            assert after[b] == x;
          }
        }
      } else {
        assert FilterByCategory(points, c) == before + [];
        assert before + [] == before;
      }
    }
  }

  /**
   * The regrouping in `updateChart` is the identity on the filtered flattened data: every
   * category and year occurs once after the rollup, so each year group has one member
   * and its sum is that member's count.
   */
  lemma UpdateChartLine(data: seq<Laureate>, selectedGroup: string, trendlineChecked: bool)
    ensures UpdateChart(Flattened(Rollup(data)), selectedGroup, trendlineChecked).line ==
      YearCounts(FilterByCategory(Flattened(Rollup(data)), selectedGroup))
  {
    FlattenedRollupSpec(data);
  }

  /**
   * The line `updateChart` draws for a group: each year of the group, in first-occurrence
   * order, with the number of records of that group and year; nothing for a group no
   * record has.
   */
  lemma UpdateChartCounts(data: seq<Laureate>, selectedGroup: string, trendlineChecked: bool)
    ensures var line := UpdateChart(Flattened(Rollup(data)), selectedGroup, trendlineChecked).line;
      && LineYears(line) == YearsOf(data, selectedGroup)
      && (forall i :: 0 <= i < |line| ==> line[i].count == Tally(data, selectedGroup, line[i].year))
      && (line == [] <==> selectedGroup !in Project(data, GroupKey))
  {
    UpdateChartLine(data, selectedGroup, trendlineChecked);
    FilterRollup(data, selectedGroup);
  }

  /** The years of a data line. */
  function LineYears(line: seq<YearCount>): seq<int>
  {
    seq(|line|, i requires 0 <= i < |line| => line[i].year)
  }

  /**
   * The trendline of a group with records in at least two years is defined at every
   * point: its years are distinct, so the least-squares denominator is not zero.
   */
  lemma TrendlineDefined(data: seq<Laureate>, selectedCategory: string)
    requires |YearsOf(data, selectedCategory)| >= 2
    ensures forall i :: 0 <= i < |TrendlineData(Flattened(Rollup(data)), selectedCategory)| ==>
      TrendlineData(Flattened(Rollup(data)), selectedCategory)[i].count.Value?
  {
    FilterRollup(data, selectedCategory);
    var ys := YearsOf(data, selectedCategory);
    var pts := YearPoints(data, selectedCategory);
    assert pts[0].year == ys[0] != ys[1] == pts[1].year;
    DenominatorZero(pts);
  }

  /** Four laureates: two STEM prizes in 1960, one literature prize, one physics prize in 1961. */
  const ExampleRows: seq<Row> :=
    [Row(1960, "physics", "A", None), Row(1960, "chemistry", "B", None),
     Row(1960, "literature", "C", None), Row(1961, "physics", "D", None)]

  const ExampleData: seq<Laureate> :=
    [Laureate(ExampleRows[0], STEM), Laureate(ExampleRows[1], STEM),
     Laureate(ExampleRows[2], NonSTEM), Laureate(ExampleRows[3], STEM)]

  lemma ExampleCategorized()
    ensures Categorize(ExampleRows) == ExampleData
  {
  }

  /** The STEM records of the example, in order. */
  lemma ExampleStem()
    ensures Matching(ExampleData, GroupKey, STEM) == [ExampleData[0], ExampleData[1], ExampleData[3]]
  {
    var data := ExampleData;
    var l0, l1, l2, l3 := data[0], data[1], data[2], data[3];
    assert data[..1] == [l0] && data[..2] == [l0, l1] && data[..3] == [l0, l1, l2];
    assert [l0][..0] == [] && [l0, l1][..1] == [l0] && [l0, l1, l2][..2] == [l0, l1];
    assert Matching([l0], GroupKey, STEM) == [l0];
    assert Matching([l0, l1], GroupKey, STEM) == [l0, l1];
    assert Matching([l0, l1, l2], GroupKey, STEM) == [l0, l1];
  }

  lemma DistinctExample()
    ensures Distinct([1960, 1960, 1961]) == [1960, 1961]
  {
    var years := [1960, 1960, 1961];
    assert years[..2] == [1960, 1960] && [1960, 1960][..1] == [1960] && [1960][..0] == [];
    assert Distinct([1960]) == [1960];
    assert Distinct([1960, 1960]) == [1960];
  }

  lemma ExampleYears()
    ensures YearsOf(ExampleData, STEM) == [1960, 1961]
  {
    ExampleStem();
    DistinctExample();
    var stem := Matching(ExampleData, GroupKey, STEM);
    var years := Project(stem, YearKey);
    assert |years| == 3;
    assert years[0] == YearKey(stem[0]) && stem[0] == ExampleData[0];
    assert years[1] == YearKey(stem[1]) && stem[1] == ExampleData[1];
    assert years[2] == YearKey(stem[2]) && stem[2] == ExampleData[3];
    assert ExampleData[0].row.year == 1960 && ExampleData[1].row.year == 1960;
    assert ExampleData[3].row.year == 1961;
    assert years == [1960, 1960, 1961];
  }

  lemma ExampleTallies()
    ensures Tally(ExampleData, STEM, 1960) == 2 && Tally(ExampleData, STEM, 1961) == 1
  {
    var pairs := Project(ExampleData, PairKey);
    assert |pairs| == 4;
    assert pairs[0] == PairKey(ExampleData[0]) == (STEM, 1960);
    assert pairs[1] == PairKey(ExampleData[1]) == (STEM, 1960);
    assert pairs[2] == PairKey(ExampleData[2]) == (NonSTEM, 1960);
    assert pairs[3] == PairKey(ExampleData[3]) == (STEM, 1961);
    assert pairs == [(STEM, 1960), (STEM, 1960), (NonSTEM, 1960), (STEM, 1961)];
    assert STEM != NonSTEM by { assert |STEM| != |NonSTEM|; }
  }

  /** The STEM line of the example: two prizes in 1960, one in 1961. */
  lemma FourLaureatesExample()
    ensures FilterByCategory(Flattened(Rollup(Categorize(ExampleRows))), STEM) ==
      [Point(1960, 2, STEM), Point(1961, 1, STEM)]
  {
    ExampleCategorized();
    ExampleYears();
    ExampleTallies();
    FilterRollup(ExampleData, STEM);
    var pts := YearPoints(ExampleData, STEM);
    assert |pts| == 2 && pts[0] == Point(1960, 2, STEM) && pts[1] == Point(1961, 1, STEM);
  }
}
