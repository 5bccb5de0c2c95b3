/**
 * The left merge of the expected block ids with the numbered tender rows on
 * the tender id column, and the forward fill of the price column.
 */
module MergeFill {
  import opened Wrappers
  import opened TenderRows

  /* ---- left merge ---- */

  /** The rows of `right` whose id is `key`, in their order. */
  function Matches(key: string, right: seq<Tender>): (m: seq<Tender>)
    ensures |m| <= |right|
    ensures forall t :: multiset(m)[t] == if t.id == key then multiset(right)[t] else 0
  {
    if right == [] then []
    else
      assert right == [right[0]] + right[1..];
      (if right[0].id == key then [right[0]] else []) + Matches(key, right[1..])
  }

  /** The rows matching a key are exactly the rows of `right` with that id. */
  lemma MatchesMembers(key: string, right: seq<Tender>)
    ensures forall t :: t in Matches(key, right) <==> t in right && t.id == key
  {
    var m := Matches(key, right);
    forall t ensures t in m <==> t in right && t.id == key {
      assert t in m <==> multiset(m)[t] > 0;
      assert t in right <==> multiset(right)[t] > 0;
    }
  }

  /** The merged rows for one left key: its matches, or one row with an empty price. */
  function MergeRows(key: string, right: seq<Tender>): seq<Tender> {
    var m := Matches(key, right);
    if m == [] then [Tender(key, None)] else m
  }

  /**
   * The merged rows for one key all carry the key, include every row of
   * `right` with that key and no other priced row, and are a single unpriced
   * row when no row of `right` carries the key.
   */
  lemma MergeRowsShape(key: string, right: seq<Tender>)
    ensures var rows := MergeRows(key, right);
      && rows != [] && rows[0].id == key
      && (forall t :: t in rows ==> t.id == key)
      && (forall t :: t in right && t.id == key ==> t in rows)
      && (forall t :: t in rows && t.price.Some? ==> t in right)
      && ((forall t :: t in right ==> t.id != key) ==> rows == [Tender(key, None)])
  {
    MatchesMembers(key, right);
    var m := Matches(key, right);
    if m != [] {
      assert m[0] in m;
    }
  }

  /** The id column of two tables laid end to end. */
  lemma IdsAppend(a: seq<Tender>, b: seq<Tender>)
    ensures Ids(a + b) == Ids(a) + Ids(b)
  {
  }

  /**
   * A left merge on the id column: every left key in order, each followed by
   * all its matches in `right` (or by one unpriced row when there is none).
   */
  function LeftMerge(left: seq<string>, right: seq<Tender>): (r: seq<Tender>)
    ensures |r| >= |left|
    ensures forall t :: t in r ==> t.id in left
  {
    if left == [] then []
    else
      var rows := MergeRows(left[0], right);
      assert forall t :: t in rows ==> t.id == left[0] by {
        forall t | t in rows ensures t.id == left[0] {
          assert multiset(Matches(left[0], right))[t] > 0 || t == Tender(left[0], None);
        }
      }
      rows + LeftMerge(left[1..], right)
  }

  /**
   * Every left key has a row in the merged table; the table holds every row
   * of `right` whose id is a left key, no priced row from anywhere else, and
   * an unpriced row for every left key that no row of `right` carries.
   */
  lemma {:induction false} LeftMergeRows(left: seq<string>, right: seq<Tender>)
    ensures var r := LeftMerge(left, right);
      && (forall k :: k in left ==> k in Ids(r))
      && (forall t :: t in right && t.id in left ==> t in r)
      && (forall t :: t in r && t.price.Some? ==> t in right)
      && (forall k :: k in left && (forall t :: t in right ==> t.id != k) ==> Tender(k, None) in r)
  {
    if left != [] {
      var rows, rest := MergeRows(left[0], right), LeftMerge(left[1..], right);
      LeftMergeRows(left[1..], right);
      MergeRowsShape(left[0], right);
      IdsAppend(rows, rest);
      assert LeftMerge(left, right) == rows + rest;
      assert Ids(rows)[0] == left[0];
      assert forall k :: k in left <==> k == left[0] || k in left[1..] by {
        assert left == [left[0]] + left[1..];
      }
    }
  }

  /** The price of the first row of `right` with id `key`; empty when there is none. */
  function Lookup(right: seq<Tender>, key: string): (p: Option<Price>)
    ensures (forall i :: 0 <= i < |right| ==> right[i].id != key) ==> p.None?
    ensures forall i :: (0 <= i < |right| && right[i].id == key
              && forall j :: 0 <= j < i ==> right[j].id != key) ==> p == right[i].price
  {
    if right == [] then None
    else if right[0].id == key then right[0].price
    else
      var p := Lookup(right[1..], key);
      assert forall i :: 1 <= i < |right| ==> right[i] == right[1..][i - 1];
      p
  }

  /** A key no row carries has no matches. */
  lemma {:induction false} NoMatches(key: string, right: seq<Tender>)
    requires forall j :: 0 <= j < |right| ==> right[j].id != key
    ensures Matches(key, right) == []
  {
    if right != [] {
      NoMatches(key, right[1..]);
    }
  }

  /** With unique ids in `right`, a key matches at most one row, the one `Lookup` finds. */
  lemma {:induction false} MatchesOfUniqueKey(key: string, right: seq<Tender>)
    requires DistinctIds(right)
    ensures MergeRows(key, right) == [Tender(key, Lookup(right, key))]
  {
    if right != [] {
      var rest := right[1..];
      forall j | 0 <= j < |rest| ensures rest[j] == right[j + 1] {
      }
      if right[0].id == key {
        NoMatches(key, rest);
        assert Matches(key, right) == [right[0]];
      } else {
        assert DistinctIds(rest);
        MatchesOfUniqueKey(key, rest);
        assert Matches(key, right) == Matches(key, rest);
      }
    }
  }

  /**
   * Merging on unique ids keeps the left table's shape: one row per left key,
   * carrying that key and the price of its match, or no price.
   */
  lemma {:induction false} MergeOneToOne(left: seq<string>, right: seq<Tender>)
    requires DistinctIds(right)
    ensures |LeftMerge(left, right)| == |left|
    ensures forall i :: 0 <= i < |left| ==> LeftMerge(left, right)[i] == Tender(left[i], Lookup(right, left[i]))
  {
    if left != [] {
      MatchesOfUniqueKey(left[0], right);
      MergeOneToOne(left[1..], right);
    }
  }

  /* ---- forward fill ---- */

  /**
   * The forward fill: every missing value takes the value before it once that
   * is filled; values present stay, and a missing head stays missing.
   */
  function FFill<T>(s: seq<Option<T>>): (r: seq<Option<T>>)
    ensures |r| == |s|
    ensures forall i :: 0 <= i < |s| && s[i].Some? ==> r[i] == s[i]
    ensures forall i :: 0 < i < |s| && s[i].None? ==> r[i] == r[i - 1]
    ensures |s| > 0 && s[0].None? ==> r[0].None?
  {
    if s == [] then []
    else
      var init := FFill(s[..|s| - 1]);
      var last := s[|s| - 1];
      init + [if last.Some? || init == [] then last else init[|init| - 1]]
  }

  /** A filled entry is the latest present value at or before it. */
  lemma {:induction false} FFillLatest<T>(s: seq<Option<T>>, j: nat, i: nat)
    requires j <= i < |s| && s[j].Some?
    requires forall k :: j < k <= i ==> s[k].None?
    ensures FFill(s)[i] == s[j]
    decreases i
  {
    if i > j {
      FFillLatest(s, j, i - 1);
    }
  }

  /** A filled entry is still missing exactly when nothing at or before it was present. */
  lemma {:induction false} FFillLeading<T>(s: seq<Option<T>>, i: nat)
    requires i < |s|
    ensures FFill(s)[i].None? <==> forall k :: 0 <= k <= i ==> s[k].None?
  {
    if i > 0 {
      FFillLeading(s, i - 1);
    }
  }

  /** The price column forward-filled, the id column unchanged. */
  function FillForward(rows: seq<Tender>): (r: seq<Tender>)
    ensures Ids(r) == Ids(rows)
    ensures Prices(r) == FFill(Prices(rows))
  {
    var filled := FFill(Prices(rows));
    seq(|rows|, i requires 0 <= i < |rows| => Tender(rows[i].id, filled[i]))
  }

}
