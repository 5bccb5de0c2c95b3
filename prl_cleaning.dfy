/**
 * One pass of the cleaning script for one year: select, filter and project
 * the tender rows, number the blocks of each tender, build the expected block
 * ids, merge the rows onto them, forward-fill the prices and count the gaps.
 */
module PrlCleaning {
  import opened Wrappers
  import opened Text
  import opened TenderRows
  import opened BlockNumbering
  import opened ExpectedBlocks
  import opened MergeFill
  import opened MissingCounts

  /** No two neighbouring present prices are equal. */
  predicate NoRepeatedPrice(prices: seq<Option<Price>>) {
    forall k :: 0 < k < |prices| && prices[k - 1].Some? && prices[k].Some? ==> prices[k - 1] != prices[k]
  }

  /** `t` carries the id and price of a selected row of `rows`. */
  predicate FromSelectedRow(rows: seq<RawRow>, t: Tender) {
    exists x :: x in rows && Selected(x) && t == Tender(x.tender, x.price)
  }

  /**
   * The rows kept by the selection and the price-change filter, reduced to id
   * and price: each comes from a selected row, and no two neighbours carry the
   * same price.
   */
  function Filtered(rows: seq<RawRow>): (r: seq<Tender>)
    ensures |r| <= |rows|
    ensures forall t :: t in r ==> FromSelectedRow(rows, t)
    ensures NoRepeatedPrice(Prices(r))
  {
    ProjectedRowsSelected(rows);
    ProjectedPricesChange(rows);
    Project(ChangeFilter(Select(rows)))
  }

  /** Every row surviving the selection and the price-change filter is a selected input row. */
  lemma KeptRowsSelected(rows: seq<RawRow>)
    ensures forall x :: x in ChangeFilter(Select(rows)) ==> x in rows && Selected(x)
  {
    var selected := Select(rows);
    forall x | x in ChangeFilter(selected) ensures x in rows && Selected(x) {
      assert x in selected;
      assert multiset(selected)[x] > 0;
    }
  }

  /** Every projected row of the filtered table carries the id and price of a selected row. */
  lemma ProjectedRowsSelected(rows: seq<RawRow>)
    ensures forall t :: t in Project(ChangeFilter(Select(rows))) ==> FromSelectedRow(rows, t)
  {
    var selected := Select(rows);
    var kept := ChangeFilter(selected);
    var r := Project(kept);
    KeptRowsSelected(rows);
    forall t | t in r ensures FromSelectedRow(rows, t) {
      var k :| 0 <= k < |r| && r[k] == t;
      var x := kept[k];
      assert x in kept;
      assert x in rows && Selected(x) && t == Tender(x.tender, x.price);
    }
  }

  /** Neighbouring projected rows of the filtered table never carry the same price. */
  lemma ProjectedPricesChange(rows: seq<RawRow>)
    ensures NoRepeatedPrice(Prices(Project(ChangeFilter(Select(rows)))))
  {
    NoRepeatedPriceAfterFilter(Select(rows));
  }

  /** Assigning the numbered ids: replaces the id column, keeps the prices. */
  function Relabel(rows: seq<Tender>, ids: seq<string>): (r: seq<Tender>)
    requires |ids| == |rows|
    ensures Ids(r) == ids && Prices(r) == Prices(rows)
  {
    seq(|rows|, i requires 0 <= i < |rows| => Tender(ids[i], rows[i].price))
  }

  /** The numbered ids of the loop make the relabelled table's ids unique. */
  lemma NumberedRowsDistinct(filtered: seq<Tender>, newIds: seq<string>)
    requires |newIds| == |filtered|
    requires forall i :: 0 <= i < |filtered| ==>
               newIds[i] == BlockTag(Ids(filtered)[i], Occurrence(Ids(filtered), i))
    ensures DistinctIds(Relabel(filtered, newIds))
  {
    var numbered := Relabel(filtered, newIds);
    NumberedIdsDistinct(Ids(filtered));
    forall i, j | 0 <= i < j < |numbered| ensures numbered[i].id != numbered[j].id {
      assert numbered[i].id == newIds[i] && numbered[j].id == newIds[j];
    }
  }

  /**
   * For each expected id, the price of its row in `numbered`, or none when it
   * has no row.
   */
  function MatchedPrices(expected: seq<string>, numbered: seq<Tender>): (p: seq<Option<Price>>)
    ensures |p| == |expected|
    ensures forall i :: 0 <= i < |expected| && (forall j :: 0 <= j < |numbered| ==> numbered[j].id != expected[i])
              ==> p[i].None?
    ensures DistinctIds(numbered) ==>
              forall i, j :: 0 <= i < |expected| && 0 <= j < |numbered| && numbered[j].id == expected[i]
                ==> p[i] == numbered[j].price
  {
    var p := seq(|expected|, i requires 0 <= i < |expected| => Lookup(numbered, expected[i]));
    assert DistinctIds(numbered) ==>
      forall i, j :: 0 <= i < |expected| && 0 <= j < |numbered| && numbered[j].id == expected[i]
        ==> p[i] == numbered[j].price by {
      if DistinctIds(numbered) {
        forall i, j | 0 <= i < |expected| && 0 <= j < |numbered| && numbered[j].id == expected[i]
          ensures p[i] == numbered[j].price
        {
          assert forall l :: 0 <= l < j ==> numbered[l].id != expected[i];
        }
      }
    }
    p
  }

  /**
   * The filled table has one row per expected id, in order, and its prices
   * are the matched prices forward-filled; the rows still without a price
   * are exactly the leading ones before the first matched price.
   */
  lemma FilledTable(expected: seq<string>, numbered: seq<Tender>)
    requires DistinctIds(numbered)
    ensures var merged, matched := FillForward(LeftMerge(expected, numbered)), MatchedPrices(expected, numbered);
      && Ids(merged) == expected
      && Prices(merged) == FFill(matched)
      && CountNone(Prices(merged)) == FirstSome(matched)
      && forall i :: 0 <= i < |merged| ==> (merged[i].price.None? <==> i < FirstSome(matched))
  {
    MergedColumns(expected, numbered);
    StillMissingIsLeadingGap(MatchedPrices(expected, numbered));
  }

  /** The merge on unique ids has the expected ids as its id column and the matched prices as its price column. */
  lemma MergedColumns(expected: seq<string>, numbered: seq<Tender>)
    requires DistinctIds(numbered)
    ensures Ids(LeftMerge(expected, numbered)) == expected
    ensures Prices(LeftMerge(expected, numbered)) == MatchedPrices(expected, numbered)
  {
    MergeOneToOne(expected, numbered);
  }

  /**
   * The cleaning of one year's table. `numbered` is the table written with
   * block ids, `merged` the filled table, `reportedMissing` the figure the
   * script prints as the blocks missing before the fill, `missingBefore` the
   * number of expected blocks that really have no row, never below the
   * printed figure, and `stillMissing` the number of rows still without a
   * price after the fill.
   */
  method CleanYear(rows: seq<RawRow>, year: nat)
    returns (numbered: seq<Tender>, merged: seq<Tender>, reportedMissing: int, missingBefore: nat, stillMissing: nat)
    ensures var filtered := Filtered(rows);
      && |numbered| == |filtered|
      && Prices(numbered) == Prices(filtered)
      && forall i :: 0 <= i < |numbered| ==>
           numbered[i].id == BlockTag(filtered[i].id, Occurrence(Ids(filtered), i))
    ensures DistinctIds(numbered)
    ensures Ids(merged) == ExpectedIds(year)
    ensures IsExpectedList(year, Ids(merged)) && Distinct(Ids(merged))
    ensures Prices(merged) == FFill(MatchedPrices(ExpectedIds(year), numbered))
    ensures reportedMissing == MissingReportedAsWritten(ExpectedIds(year), numbered)
    ensures missingBefore == MissingBlocks(ExpectedIds(year), numbered)
    ensures reportedMissing <= missingBefore
    ensures stillMissing == CountNone(Prices(merged))
    ensures stillMissing == FirstSome(MatchedPrices(ExpectedIds(year), numbered))
    ensures forall i :: 0 <= i < |merged| ==> (merged[i].price.None? <==> i < stillMissing)
  {
    var filtered := Filtered(rows);
    var newIds, blockCounts := NumberBlocks(Ids(filtered));
    numbered := Relabel(filtered, newIds);
    NumberedRowsDistinct(filtered, newIds);

    var expected := BuildExpected(year);
    ExpectedIdsLayout(year);
    ExpectedIdsDistinct(year, expected);

    merged := FillForward(LeftMerge(expected, numbered));
    FilledTable(expected, numbered);

    reportedMissing := MissingReportedAsWritten(expected, numbered);
    missingBefore := MissingBlocks(expected, numbered);
    stillMissing := CountNone(Prices(merged));
  }

}
