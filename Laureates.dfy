/**
 * Laureate rows as the CSV callback prepares them: every row gets a `name` copied from
 * `fullname` (in place), and every row is then copied into a record that also carries
 * its category group, "STEM" or "Non-STEM".
 */
module Laureates {

  import opened Wrappers

  /**
   * One CSV row. The year is already a number; `name` is `None` while the row has no
   * such column.
   */
  datatype Row = Row(year: int, category: string, fullname: string, name: Option<string>)

  /** A row together with the category group derived from its category. */
  datatype Laureate = Laureate(row: Row, categoryGroup: string)

  const STEM: string := "STEM"
  const NonSTEM: string := "Non-STEM"

  /** The categories counted as STEM, compared exactly and case-sensitively. */
  const StemCategories: seq<string> := ["chemistry", "physics", "medicine"]

  /**
   * The per-row loop of the CSV callback: each row, in place, gets `name` set to its
   * `fullname`; every other field is left as it was.
   */
  method NormalizeRows(data: array<Row>)
    modifies data
    ensures forall i :: 0 <= i < data.Length ==>
      data[i] == old(data[i]).(name := Some(old(data[i]).fullname))
  {
    var i := 0;
    while i < data.Length
      invariant 0 <= i <= data.Length
      invariant forall j :: 0 <= j < i ==> data[j] == old(data[j]).(name := Some(old(data[j]).fullname))
      invariant forall j :: i <= j < data.Length ==> data[j] == old(data[j])
    {
      data[i] := data[i].(name := Some(data[i].fullname));
      i := i + 1;
    }
  }

  /** The category group of a category. */
  function GroupOf(category: string): (g: string)
    ensures g == STEM <==> category == "chemistry" || category == "physics" || category == "medicine"
    ensures g == NonSTEM <==> !(category == "chemistry" || category == "physics" || category == "medicine")
  {
    if category in StemCategories then STEM else NonSTEM
  }

  /**
   * The classification `map`: one record per row, in the same order, each keeping its
   * row and labelled with the group of its category.
   */
  function Categorize(data: seq<Row>): (r: seq<Laureate>)
    ensures |r| == |data|
    ensures forall i :: 0 <= i < |data| ==> r[i].row == data[i]
    ensures forall i :: 0 <= i < |data| ==>
      (r[i].categoryGroup == STEM <==> data[i].category in {"chemistry", "physics", "medicine"})
    ensures forall i :: 0 <= i < |data| ==>
      (r[i].categoryGroup == NonSTEM <==> data[i].category !in {"chemistry", "physics", "medicine"})
  {
    seq(|data|, i requires 0 <= i < |data| => Laureate(data[i], GroupOf(data[i].category)))
  }

  /**
   * The CSV callback's preparation of the rows: the in-place loop, then the
   * classification of the rows as the loop left them. Each record carries its row with
   * `name` set to `fullname`.
   */
  method PrepareRows(data: array<Row>) returns (categorized: seq<Laureate>)
    modifies data
    ensures forall i :: 0 <= i < data.Length ==>
      data[i] == old(data[i]).(name := Some(old(data[i]).fullname))
    ensures categorized == Categorize(data[..])
    ensures |categorized| == data.Length
    ensures forall i :: 0 <= i < data.Length ==>
      categorized[i].row == old(data[i]).(name := Some(old(data[i]).fullname)) &&
      categorized[i].categoryGroup == GroupOf(old(data[i]).category)
  {
    NormalizeRows(data);
    categorized := Categorize(data[..]);
  }
}
