/**
 * The course records handed to the carousel and the selection-driven filter
 * (`filterData` of the `Carrousel` component).
 */
module CarrouselFilter {
  import opened Wrappers

  /** The sentinel meaning "do not filter on this axis"; the same string serves both axes. */
  const ALL: string := "All"

  /** One course record, restricted to the fields the component reads. */
  datatype Record = Record(
    pillar: string,
    levelName: string,
    litmosLearningPathName: Option<string>,
    productName: string,
    PercentageComplete: Option<int>)

  /** The two selection fields of the component state. */
  datatype Selection = Selection(pillar: string, level: string)

  /** Both fields start at the sentinel. */
  const INITIAL: Selection := Selection(ALL, ALL)

  predicate MatchesPillar(item: Record, sel: Selection) {
    sel.pillar == ALL || item.pillar == sel.pillar
  }

  predicate MatchesLevel(item: Record, sel: Selection) {
    sel.level == ALL || item.levelName == sel.level
  }

  /** The filter's predicate: both axes must match. */
  predicate Matches(item: Record, sel: Selection) {
    MatchesPillar(item, sel) && MatchesLevel(item, sel)
  }

  /**
   * The records of `data` that match `sel`, in their original order.
   * Written from the back, as `Array.filter` appends while it walks the list.
   */
  function FilterData(data: seq<Record>, sel: Selection): (r: seq<Record>)
    ensures |r| <= |data|
    ensures forall k :: 0 <= k < |r| ==> Matches(r[k], sel)
  {
    if data == [] then []
    else
      var last := data[|data| - 1];
      assert data == data[..|data| - 1] + [last];
      FilterData(data[..|data| - 1], sel) + (if Matches(last, sel) then [last] else [])
  }

  /** `idx` is a strictly increasing list of positions of `data` whose records, in turn, form `r`. */
  ghost predicate SelectsIndices(r: seq<Record>, data: seq<Record>, idx: seq<int>) {
    && |idx| == |r|
    && (forall k :: 0 <= k < |idx| ==> 0 <= idx[k] < |data| && r[k] == data[idx[k]])
    && (forall k, m :: 0 <= k < m < |idx| ==> idx[k] < idx[m])
  }

  /**
   * The filter's result is exactly the subsequence of `data` at the positions whose
   * record matches: nothing reordered, duplicated or fabricated, nothing matching dropped.
   */
  lemma {:induction false} FilterIsMatchingSubsequence(data: seq<Record>, sel: Selection) returns (idx: seq<int>)
    ensures SelectsIndices(FilterData(data, sel), data, idx)
    ensures forall i :: 0 <= i < |data| ==> (i in idx <==> Matches(data[i], sel))
  {
    if data == [] {
      idx := [];
    } else {
      var n := |data| - 1;
      var prefix := data[..n];
      assert data == prefix + [data[n]];
      FilterSnoc(prefix, data[n], sel);
      var pre := FilterIsMatchingSubsequence(prefix, sel);
      if Matches(data[n], sel) {
        idx := pre + [n];
      } else {
        idx := pre;
      }
      forall i | 0 <= i < |data|
        ensures i in idx <==> Matches(data[i], sel)
      {
        if i < n {
          assert data[i] == prefix[i];
        }
      }
    }
  }

  /** No record occurs in the result more often than in `data`. */
  lemma {:induction false} FilterSubMultiset(data: seq<Record>, sel: Selection)
    ensures multiset(FilterData(data, sel)) <= multiset(data)
  {
    if data != [] {
      var n := |data| - 1;
      assert data == data[..n] + [data[n]];
      FilterSubMultiset(data[..n], sel);
    }
  }

  /** Soundness and completeness: a record is in the result exactly when it is in `data` and matches. */
  lemma {:induction false} FilterMembership(data: seq<Record>, sel: Selection, x: Record)
    ensures x in FilterData(data, sel) <==> x in data && Matches(x, sel)
  {
    if data != [] {
      var n := |data| - 1;
      FilterMembership(data[..n], sel, x);
      assert data == data[..n] + [data[n]];
    }
  }

  /** Filtering a list whose every record matches leaves it unchanged. */
  lemma {:induction false} FilterKeepsAllMatching(data: seq<Record>, sel: Selection)
    requires forall k :: 0 <= k < |data| ==> Matches(data[k], sel)
    ensures FilterData(data, sel) == data
  {
    if data != [] {
      var n := |data| - 1;
      FilterKeepsAllMatching(data[..n], sel);
      assert data == data[..n] + [data[n]];
    }
  }

  /** In the initial state, with both selections at the sentinel, the whole list is shown. */
  lemma FilterInitialIsIdentity(data: seq<Record>)
    ensures FilterData(data, INITIAL) == data
  {
    FilterKeepsAllMatching(data, INITIAL);
  }

  /** Filtering the filtered list again with the same selection changes nothing. */
  lemma FilterIdempotent(data: seq<Record>, sel: Selection)
    ensures FilterData(FilterData(data, sel), sel) == FilterData(data, sel)
  {
    FilterKeepsAllMatching(FilterData(data, sel), sel);
  }

  /** Unfolds the definition of `FilterData` at a list ending in `x`; used by the inductive proofs. */
  lemma FilterSnoc(prefix: seq<Record>, x: Record, sel: Selection)
    ensures FilterData(prefix + [x], sel) == FilterData(prefix, sel) + (if Matches(x, sel) then [x] else [])
  {
    assert (prefix + [x])[..|prefix|] == prefix;
  }

  /** The filter distributes over concatenation: each part is filtered on its own. */
  lemma {:induction false} FilterAppend(a: seq<Record>, b: seq<Record>, sel: Selection)
    ensures FilterData(a + b, sel) == FilterData(a, sel) + FilterData(b, sel)
  {
    if b == [] {
      assert a + b == a;
    } else {
      var n := |b| - 1;
      var x := b[n];
      assert b == b[..n] + [x];
      assert a + b == (a + b[..n]) + [x];
      FilterSnoc(a + b[..n], x, sel);
      FilterSnoc(b[..n], x, sel);
      FilterAppend(a, b[..n], sel);
    }
  }

  /**
   * The two axes are combined with AND: filtering on both at once equals filtering
   * on the pillar alone and then on the level alone.
   */
  lemma {:induction false} FilterAxesCompose(data: seq<Record>, sel: Selection)
    ensures FilterData(data, sel)
         == FilterData(FilterData(data, Selection(sel.pillar, ALL)), Selection(ALL, sel.level))
  {
    if data != [] {
      var n := |data| - 1;
      var byPillar := Selection(sel.pillar, ALL);
      var byLevel := Selection(ALL, sel.level);
      var x := data[n];
      var pre := data[..n];
      var tail := if Matches(x, byPillar) then [x] else [];
      assert data == pre + [x];
      FilterSnoc(pre, x, sel);
      FilterSnoc(pre, x, byPillar);
      FilterAxesCompose(pre, sel);
      FilterAppend(FilterData(pre, byPillar), tail, byLevel);
      assert Matches(x, sel) <==> Matches(x, byPillar) && Matches(x, byLevel);
      if Matches(x, byPillar) {
        assert tail == [] + [x];
        FilterSnoc([], x, byLevel);
      } else {
        assert FilterData(tail, byLevel) == [];
      }
    }
  }

  /** The filtered list is empty exactly when no record of `data` matches. */
  lemma FilterEmptyIff(data: seq<Record>, sel: Selection)
    ensures FilterData(data, sel) == [] <==> forall k :: 0 <= k < |data| ==> !Matches(data[k], sel)
  {
    var r := FilterData(data, sel);
    if r != [] {
      FilterMembership(data, sel, r[0]);
    }
    forall k | 0 <= k < |data| && Matches(data[k], sel)
      ensures r != []
    {
      FilterMembership(data, sel, data[k]);
    }
  }
}
