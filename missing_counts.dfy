/**
 * The two figures reported per year: the blocks missing before the forward
 * fill and the rows whose price is still missing after it.
 */
module MissingCounts {
  import opened Wrappers
  import opened Text
  import opened TenderRows
  import opened MergeFill
  import opened BlockNumbering

  /* ---- still missing after the fill ---- */

  /** The number of missing entries of a column. */
  function CountNone<T>(s: seq<Option<T>>): (c: nat)
    ensures c <= |s|
    ensures c == multiset(s)[None]
  {
    if s == [] then 0
    else
      assert s == [s[0]] + s[1..];
      (if s[0].None? then 1 else 0) + CountNone(s[1..])
  }

  /** The index of the first present entry, or `|s|` when there is none. */
  function FirstSome<T>(s: seq<Option<T>>): (f: nat)
    ensures f <= |s|
    ensures forall k :: 0 <= k < f ==> s[k].None?
    ensures f < |s| ==> s[f].Some?
  {
    if s == [] || s[0].Some? then 0
    else
      var f := 1 + FirstSome(s[1..]);
      assert forall k :: 1 <= k < f ==> s[k] == s[1..][k - 1];
      f
  }

  /** A column whose missing entries are exactly its first `f` has `f` missing entries. */
  lemma {:induction false} CountLeadingNone<T>(s: seq<Option<T>>, f: nat)
    requires f <= |s|
    requires forall i :: 0 <= i < |s| ==> (s[i].None? <==> i < f)
    ensures CountNone(s) == f
  {
    if s != [] {
      var rest := s[1..];
      assert forall i :: 0 <= i < |rest| ==> rest[i] == s[i + 1];
      if f > 0 {
        CountLeadingNone(rest, f - 1);
      } else {
        CountLeadingNone(rest, 0);
      }
    }
  }

  /**
   * After the forward fill the missing prices are exactly the leading gap
   * before the first price, so their number is that gap's length.
   */
  lemma StillMissingIsLeadingGap<T>(s: seq<Option<T>>)
    ensures forall i :: 0 <= i < |s| ==> (FFill(s)[i].None? <==> i < FirstSome(s))
    ensures CountNone(FFill(s)) == FirstSome(s)
  {
    forall i | 0 <= i < |s| ensures FFill(s)[i].None? <==> i < FirstSome(s) {
      FFillLeading(s, i);
    }
    CountLeadingNone(FFill(s), FirstSome(s));
  }

  /* ---- missing before the fill ---- */

  /** The ids in the `Ausschreibung` column of `rows`. */
  function KeySet(rows: seq<Tender>): set<string> {
    set i | 0 <= i < |rows| :: rows[i].id
  }

  /** The strings of `s`, as a set. */
  function Elements(s: seq<string>): set<string> {
    set i | 0 <= i < |s| :: s[i]
  }

  /**
   * How many entries of `expected` are not among `keys`: none exactly when
   * all are, and all exactly when none is.
   */
  function CountUnmatched(expected: seq<string>, keys: set<string>): (c: nat)
    ensures c <= |expected|
    ensures c == 0 <==> forall i :: 0 <= i < |expected| ==> expected[i] in keys
    ensures c == |expected| <==> forall i :: 0 <= i < |expected| ==> expected[i] !in keys
  {
    if expected == [] then 0
    else
      var rest := expected[1..];
      assert forall i :: 1 <= i < |expected| ==> expected[i] == rest[i - 1];
      (if expected[0] in keys then 0 else 1) + CountUnmatched(rest, keys)
  }

  /**
   * The expected blocks for which the data has no row: none exactly when
   * every expected id is the id of some row.
   */
  function MissingBlocks(expected: seq<string>, rows: seq<Tender>): (c: nat)
    ensures c <= |expected|
    ensures c == 0 <==> forall i :: 0 <= i < |expected| ==> exists j :: 0 <= j < |rows| && rows[j].id == expected[i]
  {
    CountUnmatched(expected, KeySet(rows))
  }

  /**
   * The figure printed as the blocks missing before the fill: the difference
   * of the two row counts. On an expected list without repeats it never
   * exceeds the number of blocks that really have no row.
   */
  function MissingReportedAsWritten(expected: seq<string>, rows: seq<Tender>): (reported: int)
    ensures Distinct(expected) ==> reported <= MissingBlocks(expected, rows)
  {
    MissingReportBound(expected, rows);
    |expected| - |rows|
  }

  /**
   * On an expected list without repeats, the difference of the row counts is
   * at most the number of expected ids that no row carries.
   */
  lemma MissingReportBound(expected: seq<string>, rows: seq<Tender>)
    ensures Distinct(expected) ==> |expected| - |rows| <= MissingBlocks(expected, rows)
  {
    if Distinct(expected) {
      var keys := KeySet(rows);
      CountUnmatchedComplement(expected, keys);
      KeySetBound(rows);
      SubsetSize(Elements(expected) * keys, keys);
    }
  }

  /** A table has at most as many distinct ids as rows. */
  lemma {:induction false} KeySetBound(rows: seq<Tender>)
    ensures |KeySet(rows)| <= |rows|
  {
    if rows != [] {
      var init := rows[..|rows| - 1];
      KeySetBound(init);
      assert KeySet(rows) == KeySet(init) + {rows[|rows| - 1].id};
    }
  }

  /** A subset is no larger than its superset. */
  lemma SubsetSize<T>(a: set<T>, b: set<T>)
    requires a <= b
    ensures |a| <= |b|
  {
    assert b == a + (b - a);
  }

  /** Unique ids give as many keys as rows. */
  lemma {:induction false} KeySetSize(rows: seq<Tender>)
    requires DistinctIds(rows)
    ensures |KeySet(rows)| == |rows|
  {
    if rows != [] {
      var init := rows[..|rows| - 1];
      var last := rows[|rows| - 1];
      assert DistinctIds(init);
      KeySetSize(init);
      assert KeySet(rows) == KeySet(init) + {last.id};
      assert last.id !in KeySet(init);
    }
  }

  /** On a list without repeats the unmatched entries are those outside the common part. */
  lemma {:induction false} CountUnmatchedComplement(expected: seq<string>, keys: set<string>)
    requires Distinct(expected)
    ensures CountUnmatched(expected, keys) == |expected| - |Elements(expected) * keys|
  {
    if expected != [] {
      var rest := expected[1..];
      assert Distinct(rest);
      CountUnmatchedComplement(rest, keys);
      assert Elements(expected) == {expected[0]} + Elements(rest);
      assert expected[0] !in Elements(rest);
      if expected[0] in keys {
        assert Elements(expected) * keys == {expected[0]} + Elements(rest) * keys;
      } else {
        assert Elements(expected) * keys == Elements(rest) * keys;
      }
    }
  }

  /**
   * The printed difference is the number of missing blocks when every row's
   * id is one of the expected ids and both lists are free of repeats.
   */
  lemma MissingReportAgreesWhenContained(expected: seq<string>, rows: seq<Tender>)
    requires Distinct(expected) && DistinctIds(rows)
    requires KeySet(rows) <= Elements(expected)
    ensures MissingBlocks(expected, rows) == MissingReportedAsWritten(expected, rows)
  {
    CountUnmatchedComplement(expected, KeySet(rows));
    assert Elements(expected) * KeySet(rows) == KeySet(rows);
    KeySetSize(rows);
  }

  /**
   * Three surviving rows of one tender, numbered as the loop numbers them,
   * against the expected blocks 1 and 2 of that tender's day and block 1 of
   * another day: the row counts agree, so the printed figure is 0, yet the
   * block of the other day has no row.
   */
  lemma MissingReportMiscountsOn(day: string, other: string, prices: seq<Option<Price>>)
    requires day != other && |prices| == 3
    ensures var ids := Numbered([day, day, day], 3);
            var rows := [Tender(ids[0], prices[0]), Tender(ids[1], prices[1]), Tender(ids[2], prices[2])];
            var expected := [BlockTag(day, 1), BlockTag(day, 2), BlockTag(other, 1)];
            MissingReportedAsWritten(expected, rows) == 0 && MissingBlocks(expected, rows) == 1
  {
    var ids := Numbered([day, day, day], 3);
    var rows := [Tender(ids[0], prices[0]), Tender(ids[1], prices[1]), Tender(ids[2], prices[2])];
    var expected := [BlockTag(day, 1), BlockTag(day, 2), BlockTag(other, 1)];
    ThreeRowsNumbered(day);
    assert ids == [BlockTag(day, 1), BlockTag(day, 2), BlockTag(day, 3)];
    OtherDayTag(day, other, 1);
    OtherDayTag(day, other, 2);
    OtherDayTag(day, other, 3);
    OneMissingOfThree(expected, rows);
  }

  /** A block tag of another tender differs from every tag of this one. */
  lemma OtherDayTag(day: string, other: string, k: nat)
    requires day != other
    ensures BlockTag(other, 1) != BlockTag(day, k)
  {
    if BlockTag(other, 1) == BlockTag(day, k) {
      BlockTagInjective(other, 1, day, k);
    }
  }

  /**
   * Three rows against three expected ids, the first two carried by the
   * first two rows and the last carried by none: the printed figure is 0,
   * the missing-block count 1.
   */
  lemma OneMissingOfThree(expected: seq<string>, rows: seq<Tender>)
    requires |expected| == 3 && |rows| == 3
    requires rows[0].id == expected[0] && rows[1].id == expected[1]
    requires rows[0].id != expected[2] && rows[1].id != expected[2] && rows[2].id != expected[2]
    ensures MissingReportedAsWritten(expected, rows) == 0 && MissingBlocks(expected, rows) == 1
  {
    assert expected[0] in KeySet(rows) && expected[1] in KeySet(rows);
    assert expected[2] !in KeySet(rows);
    OneUnmatchedOfThree(expected, KeySet(rows));
  }

  /**
   * The same on the script's own ids: three rows of the tender of 1 January
   * 2023 against blocks 1 and 2 of that day and block 1 of 2 January.
   */
  lemma MissingReportMiscounts()
    ensures var ids := Numbered(["PRL_23_01_01", "PRL_23_01_01", "PRL_23_01_01"], 3);
            var rows := [Tender(ids[0], Some(1.0)), Tender(ids[1], Some(2.0)), Tender(ids[2], Some(3.0))];
            var expected := [BlockTag("PRL_23_01_01", 1), BlockTag("PRL_23_01_01", 2), BlockTag("PRL_23_01_02", 1)];
            MissingReportedAsWritten(expected, rows) == 0 && MissingBlocks(expected, rows) == 1
  {
    var day, other := "PRL_23_01_01", "PRL_23_01_02";
    assert day[11] != other[11];
    MissingReportMiscountsOn(day, other, [Some(1.0), Some(2.0), Some(3.0)]);
  }

  /** Three rows of one tender are numbered 1, 2 and 3. */
  lemma ThreeRowsNumbered(tender: string)
    ensures Numbered([tender, tender, tender], 3) == [BlockTag(tender, 1), BlockTag(tender, 2), BlockTag(tender, 3)]
  {
    var tenders := [tender, tender, tender];
    assert Occurrence(tenders, 0) == 1 by { assert tenders[..1] == [tender]; }
    assert Occurrence(tenders, 1) == 2 by { assert tenders[..2] == [tender, tender]; }
    assert Occurrence(tenders, 2) == 3 by { assert tenders[..3] == tenders; }
  }

  /** Of three expected ids, exactly the last is unmatched. */
  lemma OneUnmatchedOfThree(expected: seq<string>, keys: set<string>)
    requires |expected| == 3 && expected[0] in keys && expected[1] in keys && expected[2] !in keys
    ensures CountUnmatched(expected, keys) == 1
  {
    assert expected[1..][1..][1..] == [];
  }

  /** The price column of a table with one more row in front. */
  lemma PricesCons(head: Tender, tail: seq<Tender>)
    ensures var p := Prices([head] + tail); p[0] == head.price && p[1..] == Prices(tail)
  {
  }

  /** With unique, always priced rows, a key has a price exactly when some row carries it. */
  lemma LookupFindsKey(rows: seq<Tender>, key: string)
    requires DistinctIds(rows)
    requires forall i :: 0 <= i < |rows| ==> rows[i].price.Some?
    ensures Lookup(rows, key).Some? <==> key in KeySet(rows)
  {
    if key in KeySet(rows) {
      var i :| 0 <= i < |rows| && rows[i].id == key;
      assert Lookup(rows, key) == rows[i].price;
    }
  }

  /**
   * With unique, always priced rows, the missing blocks are exactly the
   * merged rows with no price before the fill.
   */
  lemma {:induction false} MissingBlocksAreUnpricedRows(expected: seq<string>, rows: seq<Tender>)
    requires DistinctIds(rows)
    requires forall i :: 0 <= i < |rows| ==> rows[i].price.Some?
    ensures CountNone(Prices(LeftMerge(expected, rows))) == MissingBlocks(expected, rows)
  {
    if expected != [] {
      var key, rest := expected[0], expected[1..];
      MatchesOfUniqueKey(key, rows);
      MissingBlocksAreUnpricedRows(rest, rows);
      LookupFindsKey(rows, key);
      var tail := LeftMerge(rest, rows);
      var head := Tender(key, Lookup(rows, key));
      assert LeftMerge(expected, rows) == [head] + tail;
      PricesCons(head, tail);
    }
  }

}
