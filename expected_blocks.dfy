/**
 * The list of block ids a complete year should contain: for every calendar
 * day and each of the six daily primary-control blocks, the id
 * `PRL_<yy>_<mm>_<dd>_<b>`.
 */
module ExpectedBlocks {
  import opened Text
  import opened Calendar

  /** A block number of the day: the day is cut into six blocks, 1 to 6. */
  predicate IsBlock(block: nat) {
    1 <= block <= 6
  }

  /**
   * The id of block `block` on the `doy`-th day of `year`: the product prefix
   * and the year's suffix, then month, day and block, separated by
   * underscores.
   */
  function BlockId(year: nat, doy: nat, block: nat): string
    requires 1 <= doy <= DaysInYear(year) && IsBlock(block)
  {
    var date := DateOfDay(year, doy);
    "PRL_" + YearSuffix(year) + "_" + Pad2(date.month) + "_" + Pad2(date.day) + "_" + Decimal(block)
  }

  /** Each field of a block id reads back as the year's suffix, the date and the block. */
  lemma BlockIdFields(year: nat, doy: nat, block: nat)
    requires 1 <= doy <= DaysInYear(year) && IsBlock(block)
    ensures var id, p := BlockId(year, doy, block), |YearSuffix(year)| + 5;
      && |id| == p + 7 && id[..4] == "PRL_" && id[4..p - 1] == YearSuffix(year)
      && id[p - 1] == '_' && id[p + 2] == '_' && id[p + 5] == '_'
      && AllDigits(id[p..p + 2]) && ParseDecimal(id[p..p + 2]) == DateOfDay(year, doy).month
      && AllDigits(id[p + 3..p + 5]) && ParseDecimal(id[p + 3..p + 5]) == DateOfDay(year, doy).day
      && AllDigits(id[p + 6..]) && ParseDecimal(id[p + 6..]) == block
  {
    var date := DateOfDay(year, doy);
    IdLayout(YearSuffix(year), Pad2(date.month), Pad2(date.day), Decimal(block));
    DecimalRoundTrip(block);
  }

  /** Where each field sits in a string laid out as a block id. */
  lemma IdLayout(ys: string, pm: string, pd: string, db: string)
    requires |pm| == 2 && |pd| == 2
    ensures var id, p := "PRL_" + ys + "_" + pm + "_" + pd + "_" + db, |ys| + 5;
      && |id| == p + 6 + |db| && id[..4] == "PRL_" && id[4..p - 1] == ys
      && id[p - 1] == '_' && id[p + 2] == '_' && id[p + 5] == '_'
      && id[p..p + 2] == pm && id[p + 3..p + 5] == pd && id[p + 6..] == db
  {
    var l1 := "PRL_" + ys;
    var l2 := l1 + "_";
    var l3 := l2 + pm;
    var l4 := l3 + "_";
    var l5 := l4 + pd;
    var l6 := l5 + "_";
    var id := l6 + db;
    var p := |ys| + 5;
    Joined(l6, db, p + 6, |id|);
    Joined(l6, db, p + 3, p + 5);
    Joined(l6, db, p, p + 2);
    Joined(l6, db, 0, 4);
    Joined(l6, db, 4, p - 1);
    Joined(l5, "_", p + 3, p + 5);
    Joined(l5, "_", p, p + 2);
    Joined(l5, "_", 0, 4);
    Joined(l5, "_", 4, p - 1);
    Joined(l4, pd, p + 3, p + 5);
    Joined(l4, pd, p, p + 2);
    Joined(l4, pd, 0, 4);
    Joined(l4, pd, 4, p - 1);
    Joined(l3, "_", p, p + 2);
    Joined(l3, "_", 0, 4);
    Joined(l3, "_", 4, p - 1);
    Joined(l2, pm, p, p + 2);
    Joined(l2, pm, 0, 4);
    Joined(l2, pm, 4, p - 1);
    Joined(l1, "_", 0, 4);
    Joined(l1, "_", 4, p - 1);
    Joined("PRL_", ys, 0, 4);
    Joined("PRL_", ys, 4, p - 1);
    assert id[p - 1] == l2[p - 1] && id[p + 2] == l4[p + 2] && id[p + 5] == l6[p + 5];
  }

  /** A slice of a concatenation that lies within one of its two parts. */
  lemma Joined<T>(a: seq<T>, b: seq<T>, i: nat, j: nat)
    requires i <= j <= |a| + |b|
    ensures j <= |a| ==> (a + b)[i..j] == a[i..j]
    ensures |a| <= i ==> (a + b)[i..j] == b[i - |a|..j - |a|]
  {
  }

  /** Where the nested loop puts block `block` of day `doy`: six entries per day. */
  function Position(doy: nat, block: nat): nat
    requires 1 <= doy && IsBlock(block)
  {
    6 * (doy - 1) + (block - 1)
  }

  /** The six ids of day `doy`, blocks 1 to 6 in order. */
  function DayIds(year: nat, doy: nat): (ids: seq<string>)
    requires 1 <= doy <= DaysInYear(year)
  {
    seq(6, b requires 0 <= b < 6 => BlockId(year, doy, b + 1))
  }

  /** Taking one more entry of a list appends that entry. */
  lemma TakeOneMore<T>(s: seq<T>, n: nat)
    requires 0 < n <= |s|
    ensures s[..n] == s[..n - 1] + [s[n - 1]]
    ensures n == |s| ==> s[..n] == s
  {
  }

  /** Entry `block - 1` of a day's list is that block's id. */
  lemma DayIdsAt(year: nat, doy: nat, block: nat)
    requires 1 <= doy <= DaysInYear(year) && IsBlock(block)
    ensures |DayIds(year, doy)| == 6
    ensures DayIds(year, doy)[block - 1] == BlockId(year, doy, block)
  {
  }

  /** Taking one more block of the day appends that block's id; all six give the whole day. */
  lemma DayIdsStep(year: nat, doy: nat, block: nat)
    requires 1 <= doy <= DaysInYear(year) && IsBlock(block)
    ensures DayIds(year, doy)[..block] == DayIds(year, doy)[..block - 1] + [BlockId(year, doy, block)]
    ensures block == 6 ==> DayIds(year, doy)[..block] == DayIds(year, doy)
  {
    DayIdsAt(year, doy, block);
    TakeOneMore(DayIds(year, doy), block);
  }

  /** Lists laid end to end, in order. */
  function Flatten<T>(parts: seq<seq<T>>): seq<T> {
    if parts == [] then [] else Flatten(parts[..|parts| - 1]) + parts[|parts| - 1]
  }

  /** Parts of six entries each lay out six entries per part. */
  lemma {:induction false} FlattenLength<T>(parts: seq<seq<T>>)
    requires forall k :: 0 <= k < |parts| ==> |parts[k]| == 6
    ensures |Flatten(parts)| == 6 * |parts|
  {
    if parts != [] {
      FlattenLength(parts[..|parts| - 1]);
    }
  }

  /** Laying out parts of six entries each puts entry `block` of part `doy` at `Position(doy, block)`. */
  lemma {:induction false} FlattenAt<T>(parts: seq<seq<T>>, doy: nat, block: nat)
    requires forall k :: 0 <= k < |parts| ==> |parts[k]| == 6
    requires 1 <= doy <= |parts| && IsBlock(block)
    ensures Position(doy, block) < |Flatten(parts)|
    ensures Flatten(parts)[Position(doy, block)] == parts[doy - 1][block - 1]
  {
    var init := parts[..|parts| - 1];
    FlattenLength(init);
    if doy <= |init| {
      FlattenAt(init, doy, block);
    }
  }

  /** The ids of each of the first `days` days of `year`. */
  function Days(year: nat, days: nat): seq<seq<string>>
    requires days <= DaysInYear(year)
  {
    seq(days, d requires 0 <= d < days => DayIds(year, d + 1))
  }

  /** The ids of the first `days` days of `year`, day after day. */
  function ExpectedPrefix(year: nat, days: nat): seq<string>
    requires days <= DaysInYear(year)
  {
    Flatten(Days(year, days))
  }

  /** Each further day appends its six ids. */
  lemma ExpectedPrefixStep(year: nat, days: nat)
    requires 1 <= days <= DaysInYear(year)
    ensures ExpectedPrefix(year, days) == ExpectedPrefix(year, days - 1) + DayIds(year, days)
  {
    assert Days(year, days)[..days - 1] == Days(year, days - 1);
  }

  /** Entry `doy - 1` of the day lists is the list of day `doy`. */
  lemma DaysAt(year: nat, days: nat, d: nat)
    requires days <= DaysInYear(year) && d < days
    ensures Days(year, days)[d] == DayIds(year, d + 1)
  {
  }

  /** The full expected list of `year`: six ids for each of its days. */
  function ExpectedIds(year: nat): (ids: seq<string>)
    ensures |ids| == 6 * DaysInYear(year)
  {
    FlattenLength(Days(year, DaysInYear(year)));
    ExpectedPrefix(year, DaysInYear(year))
  }

  /** `expected` lists, for each day of `year` and each block, that block's id at its position. */
  ghost predicate IsExpectedList(year: nat, expected: seq<string>) {
    && |expected| == 6 * DaysInYear(year)
    && forall doy, block :: 1 <= doy <= DaysInYear(year) && IsBlock(block) ==>
         Position(doy, block) < |expected| && expected[Position(doy, block)] == BlockId(year, doy, block)
  }

  /** The expected list has six entries per day of the year, each block at its position. */
  lemma ExpectedIdsLayout(year: nat)
    ensures IsExpectedList(year, ExpectedIds(year))
    ensures |ExpectedIds(year)| == if IsLeapYear(year) then 6 * 366 else 6 * 365
  {
    var parts := Days(year, DaysInYear(year));
    FlattenLength(parts);
    assert ExpectedIds(year) == Flatten(parts);
    forall doy: nat, block: nat | 1 <= doy <= DaysInYear(year) && IsBlock(block)
      ensures Position(doy, block) < |ExpectedIds(year)|
      ensures ExpectedIds(year)[Position(doy, block)] == BlockId(year, doy, block)
    {
      FlattenAt(parts, doy, block);
      DaysAt(year, DaysInYear(year), doy - 1);
      DayIdsAt(year, doy, block);
    }
  }

  /** The nested day/block loop building the `expected` list. */
  method BuildExpected(year: nat) returns (expected: seq<string>)
    ensures expected == ExpectedIds(year)
  {
    expected := [];
    var daysInYear := if IsLeapYear(year) then 366 else 365;
    for day := 1 to daysInYear + 1
      invariant expected == ExpectedPrefix(year, day - 1)
    {
      for block := 1 to 7
        invariant expected == ExpectedPrefix(year, day - 1) + DayIds(year, day)[..block - 1]
      {
        DayIdsStep(year, day, block);
        expected := expected + [BlockId(year, day, block)];
      }
      ExpectedPrefixStep(year, day);
    }
  }

  /**
   * The fixed-width fields after a common prefix are read back unambiguously:
   * two-character month, two-character day, then the block number.
   */
  lemma FieldsDetermined(prefix: string, m1: string, d1: string, b1: string,
                         m2: string, d2: string, b2: string)
    requires |m1| == 2 && |d1| == 2 && |m2| == 2 && |d2| == 2
    requires prefix + m1 + "_" + d1 + "_" + b1 == prefix + m2 + "_" + d2 + "_" + b2
    ensures m1 == m2 && d1 == d2 && b1 == b2
  {
    var s1 := prefix + m1 + "_" + d1 + "_" + b1;
    var s2 := prefix + m2 + "_" + d2 + "_" + b2;
    var n := |prefix|;
    assert s1[n..n + 2] == m1 && s2[n..n + 2] == m2;
    assert s1[n + 3..n + 5] == d1 && s2[n + 3..n + 5] == d2;
    assert s1[n + 6..] == b1 && s2[n + 6..] == b2;
  }

  /** Distinct (day, block) pairs give distinct ids. */
  lemma BlockIdInjective(year: nat, doy1: nat, b1: nat, doy2: nat, b2: nat)
    requires 1 <= doy1 <= DaysInYear(year) && IsBlock(b1)
    requires 1 <= doy2 <= DaysInYear(year) && IsBlock(b2)
    requires BlockId(year, doy1, b1) == BlockId(year, doy2, b2)
    ensures doy1 == doy2 && b1 == b2
  {
    var d1, d2 := DateOfDay(year, doy1), DateOfDay(year, doy2);
    var prefix := "PRL_" + YearSuffix(year) + "_";
    FieldsDetermined(prefix, Pad2(d1.month), Pad2(d1.day), Decimal(b1),
                             Pad2(d2.month), Pad2(d2.day), Decimal(b2));
    Pad2Injective(d1.month, d2.month);
    Pad2Injective(d1.day, d2.day);
    DecimalInjective(b1, b2);
    assert d1 == d2;
  }

  /** Every position of the list belongs to one (day, block) pair. */
  lemma PositionOf(i: nat, days: nat) returns (doy: nat, block: nat)
    requires i < 6 * days
    ensures 1 <= doy <= days && IsBlock(block)
    ensures Position(doy, block) == i
  {
    doy, block := i / 6 + 1, i % 6 + 1;
  }

  /** Two positions of the expected list hold different ids. */
  lemma ExpectedIdsDiffer(year: nat, expected: seq<string>, i: nat, j: nat)
    requires IsExpectedList(year, expected)
    requires i < j < |expected|
    ensures expected[i] != expected[j]
  {
    var days := DaysInYear(year);
    var di, bi := PositionOf(i, days);
    var dj, bj := PositionOf(j, days);
    assert expected[i] == BlockId(year, di, bi);
    assert expected[j] == BlockId(year, dj, bj);
    if expected[i] == expected[j] {
      BlockIdInjective(year, di, bi, dj, bj);
    }
  }

  /** The expected list names every block of the year exactly once. */
  lemma ExpectedIdsDistinct(year: nat, expected: seq<string>)
    requires IsExpectedList(year, expected)
    ensures Distinct(expected)
  {
    forall i, j | 0 <= i < j < |expected| ensures expected[i] != expected[j] {
      ExpectedIdsDiffer(year, expected, i, j);
    }
  }

  /**
   * The list is ordered by calendar date, then by block: one block comes
   * before another exactly when its date is earlier, or the date is the same
   * and its block number smaller.
   */
  lemma ExpectedOrder(year: nat, doy1: nat, b1: nat, doy2: nat, b2: nat)
    requires 1 <= doy1 <= DaysInYear(year) && IsBlock(b1)
    requires 1 <= doy2 <= DaysInYear(year) && IsBlock(b2)
    ensures Position(doy1, b1) < Position(doy2, b2)
            <==> Before(DateOfDay(year, doy1), DateOfDay(year, doy2)) || (doy1 == doy2 && b1 < b2)
  {
    if doy1 < doy2 {
      DateOfDayMonotone(year, doy1, doy2);
    } else if doy2 < doy1 {
      DateOfDayMonotone(year, doy2, doy1);
    }
  }

}
