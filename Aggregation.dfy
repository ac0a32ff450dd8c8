/**
 * The data preparation of the chart: the nested rollup that counts laureates per
 * category group and year, the largest count, the flattening of the rollup into chart
 * points, and the filter that keeps one category's points.
 */
module Aggregation {

  import opened Wrappers
  import opened Grouping
  import opened Laureates

  /** Counts per year within one category group, years in first-occurrence order. */
  type YearMap = seq<(int, nat)>

  /** The nested rollup: each category group with its year counts, groups in first-occurrence order. */
  type CategoryMap = seq<(string, YearMap)>

  /** One point of the chart: `{year, count, category}`. */
  datatype Point = Point(year: int, count: nat, category: string)

  function GroupKey(l: Laureate): string { l.categoryGroup }
  function YearKey(l: Laureate): int { l.row.year }
  function PairKey(l: Laureate): (string, int) { (l.categoryGroup, l.row.year) }
  function PointCategory(p: Point): string { p.category }

  /** The number of records of group `g` and year `y`: the multiplicity of that pair. */
  function Tally(data: seq<Laureate>, g: string, y: int): nat
  {
    multiset(Project(data, PairKey))[(g, y)]
  }

  /** The category groups present, in first-occurrence order. */
  function GroupsOf(data: seq<Laureate>): seq<string>
  {
    Distinct(Project(data, GroupKey))
  }

  /** The years present within group `g`, in first-occurrence order. */
  function YearsOf(data: seq<Laureate>, g: string): seq<int>
  {
    Distinct(Project(Matching(data, GroupKey, g), YearKey))
  }

  // ---------------------------------------------------------------------------
  // The rollup

  /** The reducer of the inner rollup: the size of each group. */
  function Sizes(groups: seq<(int, seq<Laureate>)>): YearMap
  {
    seq(|groups|, i requires 0 <= i < |groups| => (groups[i].0, |groups[i].1|))
  }

  /** The inner rollup: group by year, count the members. */
  function CountByYear(v: seq<Laureate>): YearMap
  {
    Sizes(GroupBy(v, YearKey))
  }

  /** The reducer of the outer rollup: the inner rollup of each group. */
  function CountEach(groups: seq<(string, seq<Laureate>)>): CategoryMap
  {
    seq(|groups|, i requires 0 <= i < |groups| => (groups[i].0, CountByYear(groups[i].1)))
  }

  /** `categories`: group by category group, then by year, and count. */
  function Rollup(data: seq<Laureate>): CategoryMap
  {
    CountEach(GroupBy(data, GroupKey))
  }

  /** Counting the records of one group and one year is counting the pair. */
  lemma {:induction false} TallyIsGroupSize(data: seq<Laureate>, g: string, y: int)
    ensures |Matching(Matching(data, GroupKey, g), YearKey, y)| == Tally(data, g, y)
  {
    if data != [] {
      var p, x := data[..|data| - 1], data[|data| - 1];
      TallyIsGroupSize(p, g, y);
      var inGroup := if GroupKey(x) == g then [x] else [];
      var before := Matching(p, GroupKey, g);
      assert Matching(data, GroupKey, g) == before + inGroup;
      MatchingConcat(before, inGroup, YearKey, y);
      MatchingSingle(inGroup, YearKey, y);
      assert |Matching(inGroup, YearKey, y)| == if PairKey(x) == (g, y) then 1 else 0;
      ProjectSnoc(data, PairKey);
      assert multiset(Project(data, PairKey)) == multiset(Project(p, PairKey)) + multiset{PairKey(x)};
      assert Tally(data, g, y) == Tally(p, g, y) + if PairKey(x) == (g, y) then 1 else 0;
    }
  }

  /** A pair has records exactly when its year occurs among the group's records. */
  lemma TallyPositive(data: seq<Laureate>, g: string, y: int)
    ensures Tally(data, g, y) > 0 <==> y in YearsOf(data, g)
    ensures y in YearsOf(data, g) ==> g in GroupsOf(data)
  {
    TallyIsGroupSize(data, g, y);
    var v := Matching(data, GroupKey, g);
    MatchingEmpty(v, YearKey, y);
    if y in YearsOf(data, g) {
      MatchingEmpty(data, GroupKey, g);
    }
  }

  /** The inner rollup of one group: its years in first-occurrence order, each with its tally. */
  lemma CountByYearSpec(data: seq<Laureate>, g: string)
    ensures Keys(CountByYear(Matching(data, GroupKey, g))) == YearsOf(data, g)
    ensures forall j :: 0 <= j < |CountByYear(Matching(data, GroupKey, g))| ==>
      CountByYear(Matching(data, GroupKey, g))[j].1 ==
        Tally(data, g, CountByYear(Matching(data, GroupKey, g))[j].0) > 0
  {
    var v := Matching(data, GroupKey, g);
    var gs := GroupBy(v, YearKey);
    GroupByKeys(v, YearKey);
    GroupByMembers(v, YearKey);
    var ym := CountByYear(v);
    assert Keys(ym) == Keys(gs);
    forall j | 0 <= j < |ym| ensures ym[j].1 == Tally(data, g, ym[j].0) > 0 {
      assert Keys(gs)[j] == ym[j].0;
      TallyIsGroupSize(data, g, ym[j].0);
      TallyPositive(data, g, ym[j].0);
    }
  }

  /**
   * The rollup counts: its groups are the category groups present, in first-occurrence
   * order; within a group, its years are the years present in that group, in
   * first-occurrence order; and each count is the number of records with that group and
   * year, so at least one.
   */
  lemma RollupSpec(data: seq<Laureate>)
    ensures Keys(Rollup(data)) == GroupsOf(data)
    ensures forall i :: 0 <= i < |Rollup(data)| ==>
      Rollup(data)[i].1 == CountByYear(Matching(data, GroupKey, Rollup(data)[i].0))
    ensures forall i :: 0 <= i < |Rollup(data)| ==>
      Keys(Rollup(data)[i].1) == YearsOf(data, Rollup(data)[i].0)
    ensures forall i, j :: 0 <= i < |Rollup(data)| && 0 <= j < |Rollup(data)[i].1| ==>
      Rollup(data)[i].1[j].1 == Tally(data, Rollup(data)[i].0, Rollup(data)[i].1[j].0) > 0
  {
    var gs := GroupBy(data, GroupKey);
    GroupByKeys(data, GroupKey);
    GroupByMembers(data, GroupKey);
    var r := Rollup(data);
    assert Keys(r) == Keys(gs);
    forall i | 0 <= i < |r|
      ensures r[i].1 == CountByYear(Matching(data, GroupKey, r[i].0))
      ensures Keys(r[i].1) == YearsOf(data, r[i].0)
      ensures forall j :: 0 <= j < |r[i].1| ==> r[i].1[j].1 == Tally(data, r[i].0, r[i].1[j].0) > 0
    {
      assert Keys(gs)[i] == r[i].0;
      CountByYearSpec(data, r[i].0);
    }
  }

  // ---------------------------------------------------------------------------
  // The largest count

  /**
   * d3's `max`: the largest defined value, `None` when there is none (d3 returns
   * `undefined`).
   */
  function MaxOf(xs: seq<Option<int>>): (m: Option<int>)
    ensures m.None? <==> forall i :: 0 <= i < |xs| ==> xs[i].None?
    ensures m.Some? ==> exists i :: 0 <= i < |xs| && xs[i] == m
    ensures m.Some? ==> forall i :: 0 <= i < |xs| && xs[i].Some? ==> xs[i].value <= m.value
  {
    if xs == [] then None
    else
      var rest := MaxOf(xs[1..]);
      assert forall i :: 1 <= i < |xs| ==> xs[i] == xs[1..][i - 1];
      if xs[0].None? then rest
      else if rest.Some? && xs[0].value < rest.value then rest
      else xs[0]
  }

  /** The largest count of one group's year map. */
  function GroupMax(ym: YearMap): Option<int>
  {
    MaxOf(seq(|ym|, j requires 0 <= j < |ym| => Some(ym[j].1 as int)))
  }

  /** `maxCount`: the largest over the groups of each group's largest count. */
  function MaxCount(categories: CategoryMap): Option<int>
  {
    MaxOf(seq(|categories|, i requires 0 <= i < |categories| => GroupMax(categories[i].1)))
  }

  // ---------------------------------------------------------------------------
  // Flattening

  /** The points of one group, in the order of its year map. */
  function PointsOf(category: string, ym: YearMap): seq<Point>
  {
    seq(|ym|, j requires 0 <= j < |ym| => Point(ym[j].0, ym[j].1, category))
  }

  /** `flattenedData`: the points of every group, group after group. */
  function Flattened(categories: CategoryMap): seq<Point>
  {
    if categories == [] then []
    else PointsOf(categories[0].0, categories[0].1) + Flattened(categories[1..])
  }

  lemma {:induction false} FlattenedSnoc(categories: CategoryMap, e: (string, YearMap))
    ensures Flattened(categories + [e]) == Flattened(categories) + PointsOf(e.0, e.1)
  {
    if categories == [] {
      assert [e][1..] == [];
    } else {
      assert (categories + [e])[1..] == categories[1..] + [e];
      FlattenedSnoc(categories[1..], e);
    }
  }

  /**
   * The nested `forEach` that builds `flattenedData`: one `{year, count, category}`
   * pushed per entry of each group's year map.
   */
  method Flatten(categories: CategoryMap) returns (flattened: seq<Point>)
    ensures flattened == Flattened(categories)
  {
    flattened := [];
    for i := 0 to |categories|
      invariant flattened == Flattened(categories[..i])
    {
      var (category, yearMap) := categories[i];
      for j := 0 to |yearMap|
        invariant flattened == Flattened(categories[..i]) + PointsOf(category, yearMap[..j])
      {
        assert PointsOf(category, yearMap[..j + 1]) ==
          PointsOf(category, yearMap[..j]) + [Point(yearMap[j].0, yearMap[j].1, category)];
        flattened := flattened + [Point(yearMap[j].0, yearMap[j].1, category)];
      }
      assert yearMap[..|yearMap|] == yearMap;
      assert categories[..i + 1] == categories[..i] + [categories[i]];
      FlattenedSnoc(categories[..i], categories[i]);
    }
    assert categories[..|categories|] == categories;
  }

  /** Every entry of the rollup becomes a point, and every point comes from an entry. */
  lemma {:induction false} FlattenedMembers(categories: CategoryMap)
    ensures forall i, j :: 0 <= i < |categories| && 0 <= j < |categories[i].1| ==>
      Point(categories[i].1[j].0, categories[i].1[j].1, categories[i].0) in Flattened(categories)
    ensures forall p :: p in Flattened(categories) ==>
      exists i, j :: 0 <= i < |categories| && 0 <= j < |categories[i].1| &&
        p == Point(categories[i].1[j].0, categories[i].1[j].1, categories[i].0)
  {
    if categories != [] {
      var rest := categories[1..];
      FlattenedMembers(rest);
      var head := PointsOf(categories[0].0, categories[0].1);
      forall i, j | 0 <= i < |categories| && 0 <= j < |categories[i].1|
        ensures Point(categories[i].1[j].0, categories[i].1[j].1, categories[i].0) in Flattened(categories)
      {
        if i == 0 {
          assert head[j] in head;
        } else {
          assert categories[i] == rest[i - 1];
        }
      }
      forall p | p in Flattened(categories)
        ensures exists i, j :: (0 <= i < |categories| && 0 <= j < |categories[i].1| &&
          p == Point(categories[i].1[j].0, categories[i].1[j].1, categories[i].0))
      {
        if p in head {
          var j :| 0 <= j < |head| && head[j] == p;
          assert p == Point(categories[0].1[j].0, categories[0].1[j].1, categories[0].0);
        } else {
          assert p in Flattened(rest);
          var i, j :| 0 <= i < |rest| && 0 <= j < |rest[i].1| &&
            p == Point(rest[i].1[j].0, rest[i].1[j].1, rest[i].0);
          assert rest[i] == categories[i + 1];
        }
      }
    }
  }

  /** `maxCount` is at least the count of every point. */
  lemma MaxCountBound(categories: CategoryMap, p: Point)
    requires p in Flattened(categories)
    ensures MaxCount(categories).Some? && p.count <= MaxCount(categories).value
  {
    FlattenedMembers(categories);
    var inner := seq(|categories|, i requires 0 <= i < |categories| => GroupMax(categories[i].1));
    var i, j :| 0 <= i < |categories| && 0 <= j < |categories[i].1| &&
      p == Point(categories[i].1[j].0, categories[i].1[j].1, categories[i].0);
    var ym := categories[i].1;
    var vals := seq(|ym|, j requires 0 <= j < |ym| => Some(ym[j].1 as int));
    assert vals[j].Some?;
    assert inner[i] == GroupMax(ym);
    assert inner[i].Some?;
  }

  /** When `maxCount` is defined it is the count of some point. */
  lemma MaxCountAttained(categories: CategoryMap)
    requires MaxCount(categories).Some?
    ensures exists p :: p in Flattened(categories) && p.count == MaxCount(categories).value
  {
    FlattenedMembers(categories);
    var m := MaxCount(categories);
    var inner := seq(|categories|, i requires 0 <= i < |categories| => GroupMax(categories[i].1));
    var i :| 0 <= i < |inner| && inner[i] == m;
    var ym := categories[i].1;
    var vals := seq(|ym|, j requires 0 <= j < |ym| => Some(ym[j].1 as int));
    assert GroupMax(ym) == MaxOf(vals) == m;
    var j :| 0 <= j < |vals| && vals[j] == m;
    assert Point(ym[j].0, ym[j].1, categories[i].0) in Flattened(categories);
  }

  /** `maxCount` bounds every point's count and, when there are points, is one of them. */
  lemma MaxCountSpec(categories: CategoryMap)
    ensures MaxCount(categories).None? <==> Flattened(categories) == []
    ensures forall p :: p in Flattened(categories) ==>
      MaxCount(categories).Some? && p.count <= MaxCount(categories).value
    ensures MaxCount(categories).Some? ==>
      exists p :: p in Flattened(categories) && p.count == MaxCount(categories).value
  {
    forall p | p in Flattened(categories)
      ensures MaxCount(categories).Some? && p.count <= MaxCount(categories).value
    {
      MaxCountBound(categories, p);
    }
    if MaxCount(categories).Some? {
      MaxCountAttained(categories);
    } else if Flattened(categories) != [] {
      MaxCountBound(categories, Flattened(categories)[0]);
    }
  }

  // ---------------------------------------------------------------------------
  // The flattened rollup, stated directly

  /** The points of group `g`: each year of the group in first-occurrence order, with its tally. */
  function YearPoints(data: seq<Laureate>, g: string): seq<Point>
  {
    var ys := YearsOf(data, g);
    seq(|ys|, j requires 0 <= j < |ys| => Point(ys[j], Tally(data, g, ys[j]), g))
  }

  /** The points of the groups `gs`, group after group. */
  function ExpectedFor(data: seq<Laureate>, gs: seq<string>): seq<Point>
  {
    if gs == [] then [] else YearPoints(data, gs[0]) + ExpectedFor(data, gs[1..])
  }

  /** What the flattened rollup should be: the points of every group present, in first-occurrence order. */
  function Expected(data: seq<Laureate>): seq<Point>
  {
    ExpectedFor(data, GroupsOf(data))
  }

  lemma {:induction false} FlattenedAgrees(data: seq<Laureate>, categories: CategoryMap)
    requires forall i :: 0 <= i < |categories| ==>
      PointsOf(categories[i].0, categories[i].1) == YearPoints(data, categories[i].0)
    ensures Flattened(categories) == ExpectedFor(data, Keys(categories))
  {
    if categories != [] {
      assert Keys(categories[1..]) == Keys(categories)[1..];
      FlattenedAgrees(data, categories[1..]);
    }
  }

  /**
   * Ordering and contents of `flattenedData`: the groups come in the order in which they
   * first occur in the input and, within a group, the years in the order in which they
   * first occur among that group's records; every point carries the tally of its pair.
   */
  lemma FlattenedRollup(data: seq<Laureate>)
    ensures Flattened(Rollup(data)) == Expected(data)
  {
    var r := Rollup(data);
    RollupSpec(data);
    forall i | 0 <= i < |r| ensures PointsOf(r[i].0, r[i].1) == YearPoints(data, r[i].0) {
      assert Keys(r[i].1) == YearsOf(data, r[i].0);
    }
    FlattenedAgrees(data, r);
  }

  lemma {:induction false} ExpectedForMembers(data: seq<Laureate>, gs: seq<string>)
    ensures forall p :: p in ExpectedFor(data, gs) <==>
      p.category in gs && p.year in YearsOf(data, p.category) &&
      p.count == Tally(data, p.category, p.year)
  {
    if gs != [] {
      ExpectedForMembers(data, gs[1..]);
      var head := YearPoints(data, gs[0]);
      var ys := YearsOf(data, gs[0]);
      forall p ensures p in head <==>
        p.category == gs[0] && p.year in ys && p.count == Tally(data, p.category, p.year)
      {
        if p.category == gs[0] && p.year in ys && p.count == Tally(data, p.category, p.year) {
          var j :| 0 <= j < |ys| && ys[j] == p.year;
          assert head[j] == p;
        }
      }
      assert forall g :: g in gs <==> g == gs[0] || g in gs[1..];
    }
  }

  /** No two points share a category and a year. */
  predicate UniqueCategoryYear(ps: seq<Point>)
  {
    forall a, b :: 0 <= a < b < |ps| ==> ps[a].category != ps[b].category || ps[a].year != ps[b].year
  }

  lemma {:induction false} ExpectedForUnique(data: seq<Laureate>, gs: seq<string>)
    requires NoDuplicates(gs)
    ensures UniqueCategoryYear(ExpectedFor(data, gs))
  {
    if gs != [] {
      var head, tail := YearPoints(data, gs[0]), ExpectedFor(data, gs[1..]);
      NoDuplicatesTail(gs);
      ExpectedForUnique(data, gs[1..]);
      ExpectedForMembers(data, gs[1..]);
      var all := head + tail;
      forall a, b | 0 <= a < b < |all|
        ensures all[a].category != all[b].category || all[a].year != all[b].year
      {
        if b < |head| {
          assert all[a] == head[a] && all[b] == head[b];
        } else if a < |head| {
          assert all[b] == tail[b - |head|] && all[b] in tail;
        } else {
          assert all[a] == tail[a - |head|] && all[b] == tail[b - |head|];
        }
      }
    }
  }

  lemma {:induction false} SumCountsConcat(a: seq<Point>, b: seq<Point>)
    ensures SumCounts(a + b) == SumCounts(a) + SumCounts(b)
  {
    if a == [] {
      assert a + b == b;
    } else {
      assert (a + b)[1..] == a[1..] + b;
      SumCountsConcat(a[1..], b);
    }
  }

  /** d3's `sum` of the counts of some points. */
  function SumCounts(ps: seq<Point>): nat
  {
    if ps == [] then 0 else ps[0].count + SumCounts(ps[1..])
  }

  function YearTotal(ym: YearMap): nat
  {
    if ym == [] then 0 else ym[0].1 + YearTotal(ym[1..])
  }

  function GroupTotal(categories: CategoryMap): nat
  {
    if categories == [] then 0 else YearTotal(categories[0].1) + GroupTotal(categories[1..])
  }

  lemma {:induction false} PointsTotal(category: string, ym: YearMap)
    ensures SumCounts(PointsOf(category, ym)) == YearTotal(ym)
  {
    if ym != [] {
      assert PointsOf(category, ym)[1..] == PointsOf(category, ym[1..]);
      PointsTotal(category, ym[1..]);
    }
  }

  lemma {:induction false} FlattenedTotal(categories: CategoryMap)
    ensures SumCounts(Flattened(categories)) == GroupTotal(categories)
  {
    if categories != [] {
      FlattenedTotal(categories[1..]);
      PointsTotal(categories[0].0, categories[0].1);
      SumCountsConcat(PointsOf(categories[0].0, categories[0].1), Flattened(categories[1..]));
    }
  }

  lemma {:induction false} SizesTotal(groups: seq<(int, seq<Laureate>)>)
    ensures YearTotal(Sizes(groups)) == TotalSize(groups)
  {
    if groups != [] {
      assert Sizes(groups)[1..] == Sizes(groups[1..]);
      SizesTotal(groups[1..]);
    }
  }

  lemma {:induction false} CountEachTotal(groups: seq<(string, seq<Laureate>)>)
    ensures GroupTotal(CountEach(groups)) == TotalSize(groups)
  {
    if groups != [] {
      assert CountEach(groups)[1..] == CountEach(groups[1..]);
      CountEachTotal(groups[1..]);
      GroupByKeys(groups[0].1, YearKey);
      SizesTotal(GroupBy(groups[0].1, YearKey));
    }
  }

  /**
   * `flattenedData` is the rollup one-to-one: a point is in it exactly when its count is
   * the positive tally of its category and year; no category and year appear twice;
   * and the counts add up to the number of records, so no record is lost or counted twice.
   */
  lemma FlattenedRollupSpec(data: seq<Laureate>)
    ensures forall p :: p in Flattened(Rollup(data)) <==>
      p.count == Tally(data, p.category, p.year) > 0
    ensures UniqueCategoryYear(Flattened(Rollup(data)))
    ensures SumCounts(Flattened(Rollup(data))) == |data|
  {
    FlattenedRollup(data);
    ExpectedForMembers(data, GroupsOf(data));
    ExpectedForUnique(data, GroupsOf(data));
    forall p ensures p in Flattened(Rollup(data)) <==> p.count == Tally(data, p.category, p.year) > 0 {
      TallyPositive(data, p.category, p.year);
    }
    FlattenedTotal(Rollup(data));
    GroupByKeys(data, GroupKey);
    CountEachTotal(GroupBy(data, GroupKey));
  }

  /**
   * With at least one record there is a largest count, and only then; and an empty
   * record set, and only that, gives no points.
   */
  lemma MaxCountRollup(data: seq<Laureate>)
    ensures MaxCount(Rollup(data)).None? <==> data == []
    ensures Flattened(Rollup(data)) == [] <==> data == []
  {
    MaxCountSpec(Rollup(data));
    FlattenedRollupSpec(data);
  }

  // ---------------------------------------------------------------------------
  // Filtering by category

  /** `flattenedData.filter(d => d.category === c)`. */
  function FilterByCategory(points: seq<Point>, c: string): seq<Point>
  {
    Matching(points, PointCategory, c)
  }

  lemma {:induction false} FilterExpectedFor(data: seq<Laureate>, gs: seq<string>, c: string)
    requires NoDuplicates(gs)
    ensures FilterByCategory(ExpectedFor(data, gs), c) == if c in gs then YearPoints(data, c) else []
  {
    if gs != [] {
      var head, tail := YearPoints(data, gs[0]), ExpectedFor(data, gs[1..]);
      NoDuplicatesTail(gs);
      FilterExpectedFor(data, gs[1..], c);
      MatchingConcat(head, tail, PointCategory, c);
      if gs[0] == c {
        MatchingAll(head, PointCategory, c);
      } else {
        MatchingEmpty(head, PointCategory, c);
        assert c !in Project(head, PointCategory);
      }
      assert c in gs <==> c == gs[0] || c in gs[1..];
    }
  }

  /** A group has points exactly when some record belongs to it. */
  lemma YearPointsEmpty(data: seq<Laureate>, c: string)
    ensures YearPoints(data, c) == [] <==> c !in Project(data, GroupKey)
  {
    var v := Matching(data, GroupKey, c);
    MatchingEmpty(data, GroupKey, c);
    if v == [] {
      assert Project(v, YearKey) == [];
    } else {
      assert v[0] in v;
      assert YearKey(v[0]) == Project(v, YearKey)[0];
      assert YearKey(v[0]) in YearsOf(data, c);
    }
  }

  /**
   * Filtering the flattened rollup by a category gives that category's points: its years
   * in first-occurrence order with their tallies, in the order `flattenedData` has
   * them, and nothing when no record has that category group.
   */
  lemma FilterRollup(data: seq<Laureate>, c: string)
    ensures FilterByCategory(Flattened(Rollup(data)), c) == YearPoints(data, c)
    ensures FilterByCategory(Flattened(Rollup(data)), c) == [] <==> c !in Project(data, GroupKey)
  {
    FlattenedRollup(data);
    FilterExpectedFor(data, GroupsOf(data), c);
    YearPointsEmpty(data, c);
    if c !in GroupsOf(data) {
      MatchingEmpty(data, GroupKey, c);
    }
  }
}
