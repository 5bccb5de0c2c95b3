/**
 * The rows of the Swissgrid tender-results table and the row filters the
 * cleaning script applies before numbering: the primary-control / Swiss
 * selection, the filter keeping the rows whose price differs from the row
 * before, and the projection onto the tender id and price columns.
 */
module TenderRows {
  import opened Wrappers
  import opened Text

  /** Prices are exact; only their differences and equality matter. */
  type Price = real

  /** A row of the raw table; `None` stands for an empty (NaN) cell. */
  datatype RawRow = RawRow(description: Option<string>, country: Option<string>,
                           tender: string, price: Option<Price>)

  /** A row reduced to the two columns the script keeps: `Ausschreibung` and `Preis`. */
  datatype Tender = Tender(id: string, price: Option<Price>)

  /* ---- selection of primary-control rows for Switzerland ---- */

  /**
   * The description mentions primary control, in any letter case; an empty
   * cell never matches.
   */
  predicate IsPrimaryControl(description: Option<string>): (primary: bool)
    ensures primary <==> description.Some? && exists j :: MatchesAt(description.value, "Primary control", j)
  {
    description.Some? && ContainsIgnoringCase(description.value, "Primary control")
  }

  /**
   * The country, stripped of surrounding whitespace and upper-cased, is CH:
   * exactly two characters remain, a C and an H, each in either case. An empty
   * cell never matches.
   */
  predicate IsSwiss(country: Option<string>): (swiss: bool)
    ensures swiss <==> country.Some? && |Strip(country.value)| == 2
                       && Strip(country.value)[0] in "cC" && Strip(country.value)[1] in "hH"
  {
    if country.None? then false
    else
      var t := Strip(country.value);
      var u := Upper(t);
      assert |u| == 2 ==> (u == "CH" <==> u[0] == 'C' && u[1] == 'H');
      assert |t| == 2 ==> (u[0] == 'C' <==> t[0] in "cC") && (u[1] == 'H' <==> t[1] in "hH");
      u == "CH"
  }

  predicate Selected(row: RawRow) {
    IsPrimaryControl(row.description) && IsSwiss(row.country)
  }

  /** The rows passing both selections, in their original order. */
  function Select(rows: seq<RawRow>): (r: seq<RawRow>)
    ensures |r| <= |rows|
    ensures forall x :: x in r ==> Selected(x)
    ensures forall x :: multiset(r)[x] == if Selected(x) then multiset(rows)[x] else 0
  {
    if rows == [] then []
    else
      var init := rows[..|rows| - 1];
      var last := rows[|rows| - 1];
      assert rows == init + [last];
      Select(init) + (if Selected(last) then [last] else [])
  }

  /** The indices below `n` at which `marks` holds, in increasing order. */
  function IndicesWhere(marks: seq<bool>, n: nat): (ks: seq<nat>)
    requires n <= |marks|
    ensures forall k :: 0 <= k < |ks| ==> ks[k] < n
    ensures forall k, l :: 0 <= k < l < |ks| ==> ks[k] < ks[l]
    ensures forall i :: 0 <= i < n ==> (i in ks <==> marks[i])
  {
    if n == 0 then [] else IndicesWhere(marks, n - 1) + (if marks[n - 1] then [n - 1] else [])
  }

  /** The indices of the selected rows, in increasing order. */
  function SelectedIndices(rows: seq<RawRow>): (ks: seq<nat>)
    ensures forall k :: 0 <= k < |ks| ==> ks[k] < |rows|
    ensures forall k, l :: 0 <= k < l < |ks| ==> ks[k] < ks[l]
    ensures forall i :: 0 <= i < |rows| ==> (i in ks <==> Selected(rows[i]))
  {
    IndicesWhere(seq(|rows|, i requires 0 <= i < |rows| => Selected(rows[i])), |rows|)
  }

  /** `picked` lists the rows of `rows` at the indices `ks`, in that order. */
  ghost predicate PickedAt<T>(picked: seq<T>, ks: seq<nat>, rows: seq<T>) {
    |picked| == |ks| && forall k :: 0 <= k < |ks| ==> ks[k] < |rows| && picked[k] == rows[ks[k]]
  }

  /**
   * The selection keeps the input's order: its rows are the input rows at the
   * increasing indices of the selected rows.
   */
  lemma SelectInOrder(rows: seq<RawRow>)
    ensures PickedAt(Select(rows), SelectedIndices(rows), rows)
  {
    var marks := seq(|rows|, i requires 0 <= i < |rows| => Selected(rows[i]));
    SelectIsKeep(rows, marks, |rows|);
    KeepInOrder(rows, marks, |rows|);
    assert rows[..|rows|] == rows && marks[..|rows|] == marks;
  }

  /** The rows of `xs` whose mark is set, in their order. */
  function Keep<T>(xs: seq<T>, marks: seq<bool>): seq<T>
    requires |marks| == |xs|
  {
    if xs == [] then [] else Keep(xs[..|xs| - 1], marks[..|xs| - 1]) + (if marks[|xs| - 1] then [xs[|xs| - 1]] else [])
  }

  /** The selection of the first `n` rows keeps exactly the marked ones. */
  lemma {:induction false} SelectIsKeep(rows: seq<RawRow>, marks: seq<bool>, n: nat)
    requires |marks| == |rows| && n <= |rows|
    requires forall i :: 0 <= i < |rows| ==> marks[i] == Selected(rows[i])
    ensures Select(rows[..n]) == Keep(rows[..n], marks[..n])
  {
    if n > 0 {
      SelectIsKeep(rows, marks, n - 1);
      SelectStep(rows, n);
      KeepStep(rows, marks, n);
      assert marks[n - 1] == Selected(rows[n - 1]);
    }
  }

  /** The kept rows of the first `n` are the rows at the marked indices below `n`. */
  lemma {:induction false} KeepInOrder<T>(xs: seq<T>, marks: seq<bool>, n: nat)
    requires |marks| == |xs| && n <= |xs|
    ensures PickedAt(Keep(xs[..n], marks[..n]), IndicesWhere(marks, n), xs)
  {
    if n > 0 {
      KeepInOrder(xs, marks, n - 1);
      KeepStep(xs, marks, n);
      PickedStep(Keep(xs[..n - 1], marks[..n - 1]), IndicesWhere(marks, n - 1), xs, n - 1, marks[n - 1]);
    }
  }

  /** Keeping one more row appends it when it is marked. */
  lemma KeepStep<T>(xs: seq<T>, marks: seq<bool>, n: nat)
    requires |marks| == |xs| && 0 < n <= |xs|
    ensures Keep(xs[..n], marks[..n]) == Keep(xs[..n - 1], marks[..n - 1]) + (if marks[n - 1] then [xs[n - 1]] else [])
  {
    assert xs[..n][..n - 1] == xs[..n - 1] && marks[..n][..n - 1] == marks[..n - 1];
  }

  /** Selecting one more row appends it when it is selected. */
  lemma SelectStep(rows: seq<RawRow>, n: nat)
    requires 0 < n <= |rows|
    ensures Select(rows[..n]) == Select(rows[..n - 1]) + (if Selected(rows[n - 1]) then [rows[n - 1]] else [])
  {
    assert rows[..n][..n - 1] == rows[..n - 1];
  }

  /** Picking row `i` or not keeps a sequence equal to the rows at its indices. */
  lemma PickedStep<T>(picked: seq<T>, ks: seq<nat>, rows: seq<T>, i: nat, take: bool)
    requires i < |rows| && PickedAt(picked, ks, rows)
    ensures PickedAt(picked + (if take then [rows[i]] else []), ks + (if take then [i] else []), rows)
  {
  }

  /* ---- price-change filter ---- */

  /**
   * Row `i` survives the price-change filter. The difference to the previous
   * price is undefined (NaN) for the first row and wherever this row's or the
   * previous row's price is missing, and an undefined difference counts as a
   * change; otherwise the row survives exactly when its price differs.
   */
  predicate PriceChanged(rows: seq<RawRow>, i: nat): (changed: bool)
    requires i < |rows|
    ensures i == 0 || rows[i - 1].price.None? || rows[i].price.None? ==> changed
    ensures i > 0 && rows[i - 1].price.Some? && rows[i].price.Some?
            ==> (changed <==> rows[i].price != rows[i - 1].price)
  {
    i == 0 || rows[i - 1].price.None? || rows[i].price.None?
    || rows[i].price.value - rows[i - 1].price.value != 0.0
  }

  /** The indices below `n` of the rows that survive, in increasing order. */
  function ChangeIndices(rows: seq<RawRow>, n: nat): (ks: seq<nat>)
    requires n <= |rows|
    ensures |ks| <= n
    ensures forall k :: 0 <= k < |ks| ==> ks[k] < n
    ensures forall k, l :: 0 <= k < l < |ks| ==> ks[k] < ks[l]
    ensures forall i :: 0 <= i < n ==> (i in ks <==> PriceChanged(rows, i))
  {
    if n == 0 then [] else ChangeIndices(rows, n - 1) + (if PriceChanged(rows, n - 1) then [n - 1] else [])
  }

  /** The rows whose price differs from the previous row's, in their order. */
  function ChangeFilter(rows: seq<RawRow>): (r: seq<RawRow>)
    ensures |r| <= |rows|
    ensures forall x :: x in r ==> x in rows
  {
    var ks := ChangeIndices(rows, |rows|);
    seq(|ks|, k requires 0 <= k < |ks| => rows[ks[k]])
  }

  /** `x` is one of the rows whose price changed. */
  predicate IsChangedRow(rows: seq<RawRow>, x: RawRow) {
    exists i :: 0 <= i < |rows| && PriceChanged(rows, i) && x == rows[i]
  }

  /** Every surviving row is a row where the price changed, and every such row survives. */
  lemma ChangeFilterRows(rows: seq<RawRow>)
    ensures forall x :: x in ChangeFilter(rows) <==> IsChangedRow(rows, x)
  {
    var ks := ChangeIndices(rows, |rows|);
    var r := ChangeFilter(rows);
    forall x | x in r ensures IsChangedRow(rows, x) {
      var k :| 0 <= k < |r| && r[k] == x;
      var i := ks[k];
      assert i in ks && i < |rows|;
      assert PriceChanged(rows, i) && x == rows[i];
    }
    forall x | IsChangedRow(rows, x) ensures x in r {
      var i :| 0 <= i < |rows| && PriceChanged(rows, i) && x == rows[i];
      assert i in ks;
      var k :| 0 <= k < |ks| && ks[k] == i;
      assert r[k] == x;
    }
  }

  /** The first row always survives. */
  lemma ChangeFilterKeepsFirst(rows: seq<RawRow>)
    requires rows != []
    ensures ChangeFilter(rows) != [] && ChangeFilter(rows)[0] == rows[0]
  {
    var ks := ChangeIndices(rows, |rows|);
    assert 0 in ks;
  }

  /** Rows with no price change in between all carry the price of the run's first row. */
  lemma {:induction false} UnchangedRun(rows: seq<RawRow>, i: nat, j: nat)
    requires i < j <= |rows|
    requires forall m :: i < m < j ==> !PriceChanged(rows, m)
    ensures forall m :: i <= m < j ==> rows[m].price == rows[i].price
    decreases j
  {
    if j > i + 1 {
      UnchangedRun(rows, i, j - 1);
      assert !PriceChanged(rows, j - 1);
    }
  }

  /**
   * Two consecutive surviving rows never carry the same (present) price: the
   * filter collapses every run of equal prices to its first row.
   */
  lemma {:induction false} NoRepeatedPriceAfterFilter(rows: seq<RawRow>)
    ensures var r := ChangeFilter(rows);
      forall k :: 0 < k < |r| && r[k - 1].price.Some? && r[k].price.Some?
        ==> r[k - 1].price.value != r[k].price.value
  {
    var ks := ChangeIndices(rows, |rows|);
    var r := ChangeFilter(rows);
    forall k | 0 < k < |r| && r[k - 1].price.Some? && r[k].price.Some?
      ensures r[k - 1].price.value != r[k].price.value
    {
      var i, j := ks[k - 1], ks[k];
      forall m | i < m < j ensures !PriceChanged(rows, m) {
      }
      UnchangedRun(rows, i, j);
      assert j in ks;
      assert PriceChanged(rows, j);
    }
  }

  /** On rows without repeated adjacent prices the filter keeps every row. */
  lemma {:induction false} ChangeIndicesAll(rows: seq<RawRow>, n: nat)
    requires n <= |rows|
    requires forall i :: 0 <= i < n ==> PriceChanged(rows, i)
    ensures ChangeIndices(rows, n) == seq(n, i => i)
  {
    if n > 0 {
      ChangeIndicesAll(rows, n - 1);
    }
  }

  /** Filtering a second time changes nothing. */
  lemma ChangeFilterIdempotent(rows: seq<RawRow>)
    ensures ChangeFilter(ChangeFilter(rows)) == ChangeFilter(rows)
  {
    var r := ChangeFilter(rows);
    NoRepeatedPriceAfterFilter(rows);
    ChangeIndicesAll(r, |r|);
  }

  /** Only the tender id and the price of each row, in the same order. */
  function Project(rows: seq<RawRow>): (r: seq<Tender>)
    ensures |r| == |rows|
    ensures forall i :: 0 <= i < |rows| ==> r[i].id == rows[i].tender && r[i].price == rows[i].price
  {
    seq(|rows|, i requires 0 <= i < |rows| => Tender(rows[i].tender, rows[i].price))
  }

  /** The `Ausschreibung` column. */
  function Ids(rows: seq<Tender>): seq<string> {
    seq(|rows|, i requires 0 <= i < |rows| => rows[i].id)
  }

  /** The `Preis` column. */
  function Prices(rows: seq<Tender>): seq<Option<Price>> {
    seq(|rows|, i requires 0 <= i < |rows| => rows[i].price)
  }

  /** No two rows share a tender id. */
  predicate DistinctIds(rows: seq<Tender>) {
    forall i, j :: 0 <= i < j < |rows| ==> rows[i].id != rows[j].id
  }

}
