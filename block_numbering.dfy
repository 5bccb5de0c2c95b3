/**
 * Block numbering of the filtered tender rows: each tender id receives the
 * suffix `_k`, where k counts the rows with that id so far, kept in the
 * `block_counts` dictionary while the loop walks the `Ausschreibung` column.
 */
module BlockNumbering {
  import opened Text

  /** How many of the rows `ids[0..i]` (inclusive) carry the id of row `i`. */
  function Occurrence(ids: seq<string>, i: nat): (k: nat)
    requires i < |ids|
    ensures 1 <= k <= i + 1
  {
    assert ids[..i + 1] == ids[..i] + [ids[i]];
    multiset(ids[..i + 1])[ids[i]]
  }

  /** The dictionary of row counts after reading `ids`: each id seen, with its number of rows. */
  ghost function Tally(ids: seq<string>): map<string, nat> {
    map v | v in ids :: multiset(ids)[v]
  }

  /**
   * Reading row `i` adds one to the count of its id, starting from 1 for a
   * new id; the new count is the row's occurrence number.
   */
  lemma TallyStep(ids: seq<string>, i: nat)
    requires i < |ids|
    ensures var t, v := Tally(ids[..i]), ids[i];
      Tally(ids[..i + 1]) == t[v := if v in t then t[v] + 1 else 1]
      && Tally(ids[..i + 1])[v] == Occurrence(ids, i)
  {
    var seen, v := ids[..i], ids[i];
    assert ids[..i + 1] == seen + [v];
    var t, u := Tally(seen), Tally(seen + [v]);
    assert multiset(seen + [v]) == multiset(seen) + multiset{v};
    assert v !in t ==> multiset(seen)[v] == 0;
    assert forall w :: w in u <==> w in seen || w == v;
  }

  /** The numbered ids of the first `n` rows. */
  function Numbered(ids: seq<string>, n: nat): seq<string>
    requires n <= |ids|
  {
    seq(n, j requires 0 <= j < n => BlockTag(ids[j], Occurrence(ids, j)))
  }

  /** Numbering one more row appends that row's numbered id. */
  lemma NumberedStep(ids: seq<string>, n: nat)
    requires n < |ids|
    ensures Numbered(ids, n + 1) == Numbered(ids, n) + [BlockTag(ids[n], Occurrence(ids, n))]
  {
  }

  /**
   * The loop over the `Ausschreibung` column: `counts` is the dictionary
   * `block_counts` after the loop, `newIds` the list `new_ids`.
   */
  method NumberBlocks(ids: seq<string>) returns (newIds: seq<string>, counts: map<string, nat>)
    ensures |newIds| == |ids|
    ensures forall i :: 0 <= i < |ids| ==> newIds[i] == BlockTag(ids[i], Occurrence(ids, i))
    ensures forall v :: v in counts <==> v in ids
    ensures forall v :: v in counts ==> counts[v] == multiset(ids)[v]
  {
    newIds := [];
    counts := map[];
    for i := 0 to |ids|
      invariant newIds == Numbered(ids, i)
      invariant counts == Tally(ids[..i])
    {
      var val := ids[i];
      TallyStep(ids, i);
      NumberedStep(ids, i);
      if val !in counts {
        counts := counts[val := 1];
      } else {
        counts := counts[val := counts[val] + 1];
      }
      newIds := newIds + [BlockTag(val, counts[val])];
    }
    assert ids[..|ids|] == ids;
  }

  /** A later row with the same id has a strictly larger occurrence number. */
  lemma OccurrenceGrows(ids: seq<string>, i: nat, j: nat)
    requires i < j < |ids| && ids[i] == ids[j]
    ensures Occurrence(ids, i) < Occurrence(ids, j)
  {
    assert ids[..j + 1] == ids[..i + 1] + ids[i + 1..j] + [ids[j]];
  }

  /** The numbered ids are pairwise distinct, so they can serve as merge keys. */
  lemma NumberedIdsDistinct(ids: seq<string>)
    ensures forall i, j :: 0 <= i < j < |ids| ==>
              BlockTag(ids[i], Occurrence(ids, i)) != BlockTag(ids[j], Occurrence(ids, j))
  {
    forall i, j | 0 <= i < j < |ids|
      ensures BlockTag(ids[i], Occurrence(ids, i)) != BlockTag(ids[j], Occurrence(ids, j))
    {
      if BlockTag(ids[i], Occurrence(ids, i)) == BlockTag(ids[j], Occurrence(ids, j)) {
        BlockTagInjective(ids[i], Occurrence(ids, i), ids[j], Occurrence(ids, j));
        OccurrenceGrows(ids, i, j);
        assert false;
      }
    }
  }

  /**
   * The suffixes given to one tender id run 1, 2, ..., up to its number of
   * rows without gaps: every k in that range is the suffix of some row.
   */
  lemma {:induction false} SuffixesAreConsecutive(ids: seq<string>, v: string, k: nat)
    requires 1 <= k <= multiset(ids)[v]
    ensures exists i :: 0 <= i < |ids| && ids[i] == v && Occurrence(ids, i) == k
  {
    var n := |ids|;
    var init := ids[..n - 1];
    assert ids == init + [ids[n - 1]];
    if k <= multiset(init)[v] {
      SuffixesAreConsecutive(init, v, k);
      var i :| 0 <= i < |init| && init[i] == v && Occurrence(init, i) == k;
      assert init[..i + 1] == ids[..i + 1];
      assert Occurrence(ids, i) == k;
    } else {
      assert ids[..n] == ids;
      assert ids[n - 1] == v && Occurrence(ids, n - 1) == k;
    }
  }

}
