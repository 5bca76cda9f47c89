/** The two-collection key matcher (MatchKeyGrouper) and its result
    (GroupedItems<L, R, K, I>): each side is grouped on its own, then every
    key with a bucket on both sides becomes a matched pair of buckets and
    every other key stays, with its bucket, on its own side. */
module Matching {

  import opened Wrappers
  import opened Pairs
  import opened Grouping

  datatype MatchedItems<L, R, K, I> = MatchedItems(
    NullLeft: seq<I>,
    NullRight: seq<I>,
    NullKeyLeft: seq<Pair<I, L>>,
    NullKeyRight: seq<Pair<I, R>>,
    NonMatchLeft: map<K, seq<Pair<I, L>>>,
    NonMatchRight: map<K, seq<Pair<I, R>>>,
    GroupItems: map<K, Pair<seq<Pair<I, L>>, seq<Pair<I, R>>>>)

  /** How the two groupings are combined: the matched keys are those with a
      bucket on both sides; each side's remaining keys are its non-matches.
      The keys of each side are split, without overlap, between the matched
      keys and that side's non-matches, and no bucket is changed. */
  function Reconcile<L, R, K, I>(left: GroupedItems<L, K, I>, right: GroupedItems<R, K, I>): (r: MatchedItems<L, R, K, I>)
    ensures r.GroupItems.Keys !! r.NonMatchLeft.Keys && r.GroupItems.Keys + r.NonMatchLeft.Keys == left.GroupItems.Keys
    ensures r.GroupItems.Keys !! r.NonMatchRight.Keys && r.GroupItems.Keys + r.NonMatchRight.Keys == right.GroupItems.Keys
    ensures r.NonMatchLeft.Keys !! r.NonMatchRight.Keys
    ensures forall k :: k in r.GroupItems ==>
              k in left.GroupItems && k in right.GroupItems && r.GroupItems[k] == Pair(left.GroupItems[k], right.GroupItems[k])
    ensures forall k :: k in r.NonMatchLeft ==> k in left.GroupItems && r.NonMatchLeft[k] == left.GroupItems[k]
    ensures forall k :: k in r.NonMatchRight ==> k in right.GroupItems && r.NonMatchRight[k] == right.GroupItems[k]
    ensures r.NullLeft == left.NullItems && r.NullRight == right.NullItems
    ensures r.NullKeyLeft == left.NullKeyItems && r.NullKeyRight == right.NullKeyItems
  {
    var lm, rm := left.GroupItems, right.GroupItems;
    MatchedItems(
      left.NullItems, right.NullItems,
      left.NullKeyItems, right.NullKeyItems,
      map k | k in lm && k !in rm :: lm[k],
      map k | k in rm && k !in lm :: rm[k],
      map k | k in lm && k in rm :: Pair(lm[k], rm[k]))
  }

  /** MatchKeyGrouper<L, R, K, I>: groups each side with its own grouper,
      then matches the keys. */
  class MatchKeyGrouper<L, R, K(==), I> {
    const leftGrouper: DelegateKeyGrouper<L, K, I>
    const rightGrouper: DelegateKeyGrouper<R, K, I>

    constructor (leftGrouper: DelegateKeyGrouper<L, K, I>, rightGrouper: DelegateKeyGrouper<R, K, I>)
      ensures this.leftGrouper == leftGrouper && this.rightGrouper == rightGrouper
    {
      this.leftGrouper := leftGrouper;
      this.rightGrouper := rightGrouper;
    }

    /** The grouping of the left sequence by the left grouper's delegates. */
    function LeftGrouped(left: Option<seq<Option<L>>>): GroupedItems<L, K, I>
    {
      Grouped(Elements(left), leftGrouper.keyCreator, leftGrouper.indexCreator)
    }

    /** The grouping of the right sequence by the right grouper's delegates. */
    function RightGrouped(right: Option<seq<Option<R>>>): GroupedItems<R, K, I>
    {
      Grouped(Elements(right), rightGrouper.keyCreator, rightGrouper.indexCreator)
    }

    /** GroupItems(left, right). The dictionaries are walked in no
        particular order; the result does not depend on it. */
    method GroupItems(left: Option<seq<Option<L>>>, right: Option<seq<Option<R>>>) returns (r: MatchedItems<L, R, K, I>)
      ensures r == Reconcile(LeftGrouped(left), RightGrouped(right))
    {
      var leftGroupItems: GroupedItems<L, K, I>;
      var rightGroupItems: GroupedItems<R, K, I>;
      ghost var indexCallsLeft, keyCallsLeft, indexCallsRight, keyCallsRight;
      leftGroupItems, indexCallsLeft, keyCallsLeft := leftGrouper.GroupItems(left);
      rightGroupItems, indexCallsRight, keyCallsRight := rightGrouper.GroupItems(right);
      var nonMatchRight: map<K, seq<Pair<I, R>>> := map[];
      var nonMatchLeft: map<K, seq<Pair<I, L>>> := map[];
      var matched: map<K, Pair<seq<Pair<I, L>>, seq<Pair<I, R>>>> := map[];
      var leftKeyedItems := leftGroupItems.GroupItems;
      var rightKeyedItems := rightGroupItems.GroupItems;
      var remainingRightKeys := rightKeyedItems.Keys;
      var leftKeys := leftKeyedItems.Keys;
      while leftKeys != {}
        invariant leftKeys <= leftKeyedItems.Keys
        invariant forall k :: k in nonMatchLeft <==> k in leftKeyedItems && k !in leftKeys && k !in rightKeyedItems
        invariant forall k :: k in nonMatchLeft ==> nonMatchLeft[k] == leftKeyedItems[k]
        invariant forall k :: k in matched <==> k in leftKeyedItems && k !in leftKeys && k in rightKeyedItems
        invariant forall k :: k in matched ==> matched[k] == Pair(leftKeyedItems[k], rightKeyedItems[k])
        invariant forall k :: k in remainingRightKeys <==> k in rightKeyedItems && (k !in leftKeyedItems || k in leftKeys)
        decreases leftKeys
      {
        var key :| key in leftKeys;
        if key !in rightKeyedItems {
          nonMatchLeft := nonMatchLeft[key := leftKeyedItems[key]];
        } else {
          matched := matched[key := Pair(leftKeyedItems[key], rightKeyedItems[key])];
          remainingRightKeys := remainingRightKeys - {key};
        }
        leftKeys := leftKeys - {key};
      }
      var rightKeys := remainingRightKeys;
      while rightKeys != {}
        invariant rightKeys <= remainingRightKeys
        invariant forall k :: k in nonMatchRight <==> k in remainingRightKeys && k !in rightKeys
        invariant forall k :: k in nonMatchRight ==> nonMatchRight[k] == rightKeyedItems[k]
        decreases rightKeys
      {
        var key :| key in rightKeys;
        nonMatchRight := nonMatchRight[key := rightKeyedItems[key]];
        rightKeys := rightKeys - {key};
      }
      assert leftGroupItems == LeftGrouped(left) && rightGroupItems == RightGrouped(right);
      assert nonMatchLeft == map k | k in leftKeyedItems && k !in rightKeyedItems :: leftKeyedItems[k];
      assert nonMatchRight == map k | k in rightKeyedItems && k !in leftKeyedItems :: rightKeyedItems[k];
      assert matched == map k | k in leftKeyedItems && k in rightKeyedItems :: Pair(leftKeyedItems[k], rightKeyedItems[k]);
      r := MatchedItems(
        leftGroupItems.NullItems, rightGroupItems.NullItems,
        leftGroupItems.NullKeyItems, rightGroupItems.NullKeyItems,
        nonMatchLeft, nonMatchRight, matched);
    }
  }

  /** The left buckets as the matcher reports them: matched ones from the
      first halves of GroupItems, the rest from NonMatchLeft. */
  function LeftBuckets<L, R, K, I>(r: MatchedItems<L, R, K, I>): map<K, seq<Pair<I, L>>>
  {
    map k | k in r.GroupItems.Keys + r.NonMatchLeft.Keys ::
      if k in r.GroupItems then r.GroupItems[k].First else r.NonMatchLeft[k]
  }

  /** The right buckets as the matcher reports them. */
  function RightBuckets<L, R, K, I>(r: MatchedItems<L, R, K, I>): map<K, seq<Pair<I, R>>>
  {
    map k | k in r.GroupItems.Keys + r.NonMatchRight.Keys ::
      if k in r.GroupItems then r.GroupItems[k].Second else r.NonMatchRight[k]
  }

  /** Matching loses and invents nothing: the buckets of each side, read
      back from the matched pairs and that side's non-matches, are exactly
      that side's own grouping; so each side's result depends on that side's
      input alone. */
  lemma ReconcileKeepsBuckets<L, R, K, I>(left: GroupedItems<L, K, I>, right: GroupedItems<R, K, I>)
    ensures LeftBuckets(Reconcile(left, right)) == left.GroupItems
    ensures RightBuckets(Reconcile(left, right)) == right.GroupItems
  {
    var r := Reconcile(left, right);
    assert LeftBuckets(r).Keys == left.GroupItems.Keys;
    assert RightBuckets(r).Keys == right.GroupItems.Keys;
  }

  /** Completeness of the match on the left side: every left element is
      reported exactly once, as a null, a null key, a non-matched entry or
      the left half of a matched entry. */
  lemma MatchCountLeft<L, R, K, I>(xs: seq<Option<L>>, keyCreator: L -> Option<K>, indexCreator: (Option<L>, int) -> I,
                                   right: GroupedItems<R, K, I>)
    ensures var r := Reconcile(Grouped(xs, keyCreator, indexCreator), right);
      |r.NullLeft| + |r.NullKeyLeft| + TotalSize(LeftBuckets(r)) == |xs|
  {
    var r := Reconcile(Grouped(xs, keyCreator, indexCreator), right);
    GroupedCount(xs, keyCreator, indexCreator);
    ReconcileKeepsBuckets(Grouped(xs, keyCreator, indexCreator), right);
  }

  /** Completeness of the match on the right side. */
  lemma MatchCountRight<L, R, K, I>(left: GroupedItems<L, K, I>,
                                    ys: seq<Option<R>>, keyCreator: R -> Option<K>, indexCreator: (Option<R>, int) -> I)
    ensures var r := Reconcile(left, Grouped(ys, keyCreator, indexCreator));
      |r.NullRight| + |r.NullKeyRight| + TotalSize(RightBuckets(r)) == |ys|
  {
    GroupedCount(ys, keyCreator, indexCreator);
    ReconcileKeepsBuckets(left, Grouped(ys, keyCreator, indexCreator));
  }

  /** The matched keys are exactly the keys that some non-null left
      element and some non-null right element both have. */
  lemma MatchedKeys<L, R, K, I>(xs: seq<Option<L>>, leftKey: L -> Option<K>, leftIndex: (Option<L>, int) -> I,
                                ys: seq<Option<R>>, rightKey: R -> Option<K>, rightIndex: (Option<R>, int) -> I)
    ensures var r := Reconcile(Grouped(xs, leftKey, leftIndex), Grouped(ys, rightKey, rightIndex));
      forall k :: k in r.GroupItems <==>
        (exists p :: 0 <= p < |xs| && xs[p].Some? && leftKey(xs[p].value) == Some(k)) &&
        (exists q :: 0 <= q < |ys| && ys[q].Some? && rightKey(ys[q].value) == Some(k))
  {
    GroupKeys(xs, leftKey, leftIndex);
    GroupKeys(ys, rightKey, rightIndex);
  }
}
