/** The single-collection key grouper (DelegateKeyGrouper) and its result
    (GroupedItems<T, K, I>). Every element of the input goes to exactly one
    place: a null element's index to NullItems, a non-null element whose key
    is null to NullKeyItems as (index, item), any other element to the end of
    the bucket of its key in GroupItems. */
module Grouping {

  import opened Wrappers
  import opened Pairs
  import CollectionUtil

  datatype GroupedItems<T, K, I> = GroupedItems(
    NullItems: seq<I>,
    NullKeyItems: seq<Pair<I, T>>,
    GroupItems: map<K, seq<Pair<I, T>>>)

  /** Where one element goes. */
  datatype Slot<K> = NullSlot | NullKeySlot | KeySlot(key: K)

  function SlotOf<T, K>(x: Option<T>, keyCreator: T -> Option<K>): Slot<K>
  {
    match x
    case None => NullSlot
    case Some(item) =>
      match keyCreator(item)
      case None => NullKeySlot
      case Some(k) => KeySlot(k)
  }

  /** The bucket of `k`, empty when there is none yet. */
  function Bucket<K(==), X>(m: map<K, seq<X>>, k: K): seq<X>
  {
    CollectionUtil.TryGetValue(Some(m), Some(k), [])
  }

  /** One iteration of the grouping loop: element `x` at `position`. */
  function Classify<T, K, I>(g: GroupedItems<T, K, I>, x: Option<T>, position: nat,
                             keyCreator: T -> Option<K>, indexCreator: (Option<T>, int) -> I): GroupedItems<T, K, I>
  {
    var index := indexCreator(x, position);
    match x
    case None => g.(NullItems := g.NullItems + [index])
    case Some(item) =>
      match keyCreator(item)
      case None => g.(NullKeyItems := g.NullKeyItems + [Pair(index, item)])
      case Some(k) => g.(GroupItems := g.GroupItems[k := Bucket(g.GroupItems, k) + [Pair(index, item)]])
  }

  /** The grouping of `xs`: Classify folded over the elements in order. */
  function Grouped<T, K, I>(xs: seq<Option<T>>, keyCreator: T -> Option<K>, indexCreator: (Option<T>, int) -> I): GroupedItems<T, K, I>
    decreases |xs|
  {
    if xs == [] then GroupedItems([], [], map[])
    else Classify(Grouped(xs[..|xs| - 1], keyCreator, indexCreator), xs[|xs| - 1], |xs| - 1, keyCreator, indexCreator)
  }

  /** The elements of a possibly null input sequence. */
  function Elements<T>(items: Option<seq<Option<T>>>): seq<Option<T>>
  {
    items.GetOr([])
  }

  /** The non-null elements, in order: the arguments the key delegate sees. */
  ghost function Present<T>(xs: seq<Option<T>>): seq<T>
    decreases |xs|
  {
    if xs == [] then []
    else Present(xs[..|xs| - 1]) + (if xs[|xs| - 1].Some? then [xs[|xs| - 1].value] else [])
  }

  /** (element, position) for every element: the calls of the index delegate. */
  ghost function IndexArguments<T>(xs: seq<Option<T>>): seq<(Option<T>, int)>
  {
    seq(|xs|, j requires 0 <= j < |xs| => (xs[j], j))
  }

  /** The keyed buckets of the working dictionary (its lists are never null). */
  function Buckets<K, V>(m: map<K, Option<seq<V>>>): map<K, seq<V>>
  {
    map k | k in m :: m[k].GetOr([])
  }

  lemma BucketsAppended<K, V>(m: map<K, Option<seq<V>>>, k: K, v: V)
    ensures Buckets(CollectionUtil.Appended(m, k, [v], [])) == Buckets(m)[k := Bucket(Buckets(m), k) + [v]]
  {
    var left := Buckets(CollectionUtil.Appended(m, k, [v], []));
    var right := Buckets(m)[k := Bucket(Buckets(m), k) + [v]];
    assert left.Keys == right.Keys;
    forall k' | k' in left ensures left[k'] == right[k'] {
    }
  }

  /** DelegateKeyGrouper<T, K, I>: groups by the key and index delegates
      given to its constructor. */
  class DelegateKeyGrouper<T, K(==), I> {
    const keyCreator: T -> Option<K>
    const indexCreator: (Option<T>, int) -> I

    constructor (keyCreator: T -> Option<K>, indexCreator: (Option<T>, int) -> I)
      ensures this.keyCreator == keyCreator && this.indexCreator == indexCreator
    {
      this.keyCreator := keyCreator;
      this.indexCreator := indexCreator;
    }

    /** GroupItems(items). The ghost results record the arguments of every
        index-delegate and key-delegate call, in call order. */
    method GroupItems(items: Option<seq<Option<T>>>)
      returns (r: GroupedItems<T, K, I>, ghost indexCalls: seq<(Option<T>, int)>, ghost keyCalls: seq<T>)
      ensures r == Grouped(Elements(items), keyCreator, indexCreator)
      ensures !CollectionUtil.IsNotNullOrEmpty(items) ==> r == GroupedItems([], [], map[])
      ensures indexCalls == IndexArguments(Elements(items))
      ensures keyCalls == Present(Elements(items))
    {
      var nullTo: Option<seq<I>> := None;
      var nonKeyTo: Option<seq<Pair<I, T>>> := None;
      var groupItems: CollectionUtil.Dictionary?<K, Option<seq<Pair<I, T>>>> := null;
      indexCalls, keyCalls := [], [];
      if CollectionUtil.IsNotNullOrEmpty(items) {
        var xs := items.value;
        var i := 0;
        while i < |xs|
          invariant 0 <= i <= |xs|
          invariant nullTo.GetOr([]) == Grouped(xs[..i], keyCreator, indexCreator).NullItems
          invariant nonKeyTo.GetOr([]) == Grouped(xs[..i], keyCreator, indexCreator).NullKeyItems
          invariant groupItems == null ==> Grouped(xs[..i], keyCreator, indexCreator).GroupItems == map[]
          invariant groupItems != null ==>
                      fresh(groupItems) && Buckets(groupItems.entries) == Grouped(xs[..i], keyCreator, indexCreator).GroupItems
          invariant indexCalls == IndexArguments(xs[..i])
          invariant keyCalls == Present(xs[..i])
        {
          ghost var before := Grouped(xs[..i], keyCreator, indexCreator);
          assert xs[..i + 1][..i] == xs[..i];
          var item := xs[i];
          var index := indexCreator(item, i);
          indexCalls := indexCalls + [(item, i)];
          if item.None? {
            if nullTo.None? {
              nullTo := Some([]);
            }
            nullTo := Some(nullTo.value + [index]);
          } else {
            var key := keyCreator(item.value);
            keyCalls := keyCalls + [item.value];
            if key.None? {
              if nonKeyTo.None? {
                nonKeyTo := Some([]);
              }
              nonKeyTo := Some(nonKeyTo.value + [Pair(index, item.value)]);
            } else {
              if groupItems == null {
                groupItems := new CollectionUtil.Dictionary();
              }
              BucketsAppended(groupItems.entries, key.value, Pair(index, item.value));
              CollectionUtil.AddToMappedList(groupItems, key.value, Pair(index, item.value));
            }
          }
          i := i + 1;
        }
        assert xs[..i] == xs;
      }
      r := GroupedItems(
        nullTo.GetOr([]),
        nonKeyTo.GetOr([]),
        if groupItems == null then map[] else Buckets(groupItems.entries));
    }
  }

  // -----------------------------------------------------------------------
  // What the grouping means, position by position.

  /** The positions of `xs` whose element goes to slot `s`, in order. */
  ghost function Positions<T, K>(xs: seq<Option<T>>, keyCreator: T -> Option<K>, s: Slot<K>): seq<nat>
    decreases |xs|
  {
    if xs == [] then []
    else Positions(xs[..|xs| - 1], keyCreator, s) + (if SlotOf(xs[|xs| - 1], keyCreator) == s then [|xs| - 1] else [])
  }

  /** Positions(xs, s) lists exactly the positions whose element goes to
      slot s, in strictly increasing order. As an element has one slot,
      every position is listed for exactly one slot. */
  lemma {:induction false} PositionsMeaning<T, K>(xs: seq<Option<T>>, keyCreator: T -> Option<K>, s: Slot<K>)
    ensures var ps := Positions(xs, keyCreator, s);
      && (forall j :: 0 <= j < |ps| ==> ps[j] < |xs| && SlotOf(xs[ps[j]], keyCreator) == s)
      && (forall p :: 0 <= p < |xs| && SlotOf(xs[p], keyCreator) == s ==> p in ps)
      && (forall j, j' :: 0 <= j < j' < |ps| ==> ps[j] < ps[j'])
    decreases |xs|
  {
    if xs != [] {
      var n := |xs| - 1;
      var pre := xs[..n];
      PositionsMeaning(pre, keyCreator, s);
      var ps := Positions(xs, keyCreator, s);
      var qs := Positions(pre, keyCreator, s);
      assert ps[..|qs|] == qs;
      forall p | 0 <= p < |xs| && SlotOf(xs[p], keyCreator) == s ensures p in ps {
        if p < n {
          assert xs[p] == pre[p];
          assert p in qs;
        } else {
          assert ps[|ps| - 1] == n;
        }
      }
    }
  }

  /** `out[j]` is the index of the element at position ps[j]. */
  ghost predicate IndicesAt<T, I>(out: seq<I>, xs: seq<Option<T>>, indexCreator: (Option<T>, int) -> I, ps: seq<nat>)
  {
    && |out| == |ps|
    && forall j :: 0 <= j < |ps| ==> ps[j] < |xs| && out[j] == indexCreator(xs[ps[j]], ps[j])
  }

  /** `out[j]` is (index, item) of the non-null element at position ps[j]. */
  ghost predicate EntriesAt<T, I>(out: seq<Pair<I, T>>, xs: seq<Option<T>>, indexCreator: (Option<T>, int) -> I, ps: seq<nat>)
  {
    && |out| == |ps|
    && forall j :: 0 <= j < |ps| ==>
         ps[j] < |xs| && xs[ps[j]] == Some(out[j].Second) && out[j].First == indexCreator(xs[ps[j]], ps[j])
  }

  lemma IndicesGrow<T, I>(out: seq<I>, xs: seq<Option<T>>, indexCreator: (Option<T>, int) -> I, ps: seq<nat>, n: nat)
    requires n < |xs| && IndicesAt(out, xs[..n], indexCreator, ps)
    ensures IndicesAt(out, xs, indexCreator, ps)
    ensures IndicesAt(out + [indexCreator(xs[n], n)], xs, indexCreator, ps + [n])
  {
    forall j | 0 <= j < |ps| ensures xs[..n][ps[j]] == xs[ps[j]] {
    }
  }

  lemma EntriesGrow<T, I>(out: seq<Pair<I, T>>, xs: seq<Option<T>>, indexCreator: (Option<T>, int) -> I, ps: seq<nat>, n: nat)
    requires n < |xs| && EntriesAt(out, xs[..n], indexCreator, ps)
    ensures EntriesAt(out, xs, indexCreator, ps)
    ensures xs[n].Some? ==> EntriesAt(out + [Pair(indexCreator(xs[n], n), xs[n].value)], xs, indexCreator, ps + [n])
  {
    forall j | 0 <= j < |ps| ensures xs[..n][ps[j]] == xs[ps[j]] {
    }
  }

  /** NullItems holds the indices of the null elements and NullKeyItems
      the (index, item) of the elements with a null key, in the order of
      their positions. */
  lemma {:induction false} NullsByPosition<T, K, I>(xs: seq<Option<T>>, keyCreator: T -> Option<K>, indexCreator: (Option<T>, int) -> I)
    ensures var g := Grouped(xs, keyCreator, indexCreator);
      && IndicesAt(g.NullItems, xs, indexCreator, Positions(xs, keyCreator, NullSlot))
      && EntriesAt(g.NullKeyItems, xs, indexCreator, Positions(xs, keyCreator, NullKeySlot))
    decreases |xs|
  {
    if xs != [] {
      var n := |xs| - 1;
      var pre := xs[..n];
      NullsByPosition(pre, keyCreator, indexCreator);
      var g0 := Grouped(pre, keyCreator, indexCreator);
      IndicesGrow(g0.NullItems, xs, indexCreator, Positions(pre, keyCreator, NullSlot), n);
      EntriesGrow(g0.NullKeyItems, xs, indexCreator, Positions(pre, keyCreator, NullKeySlot), n);
    }
  }

  /** A key has a bucket exactly when some element has it, and the bucket
      holds the (index, item) of the elements with that key, in the order of
      their positions. */
  lemma {:induction false} BucketsByPosition<T, K, I>(xs: seq<Option<T>>, keyCreator: T -> Option<K>, indexCreator: (Option<T>, int) -> I)
    ensures var g := Grouped(xs, keyCreator, indexCreator);
      && (forall k :: k in g.GroupItems <==> Positions(xs, keyCreator, KeySlot(k)) != [])
      && (forall k :: k in g.GroupItems ==> EntriesAt(g.GroupItems[k], xs, indexCreator, Positions(xs, keyCreator, KeySlot(k))))
    decreases |xs|
  {
    if xs != [] {
      var n := |xs| - 1;
      var pre := xs[..n];
      BucketsByPosition(pre, keyCreator, indexCreator);
      var g0 := Grouped(pre, keyCreator, indexCreator);
      var g := Grouped(xs, keyCreator, indexCreator);
      var slot := SlotOf(xs[n], keyCreator);
      forall k | k in g0.GroupItems
        ensures EntriesAt(g0.GroupItems[k], xs, indexCreator, Positions(pre, keyCreator, KeySlot(k)))
        ensures xs[n].Some? ==> EntriesAt(g0.GroupItems[k] + [Pair(indexCreator(xs[n], n), xs[n].value)], xs, indexCreator, Positions(pre, keyCreator, KeySlot(k)) + [n])
      {
        EntriesGrow(g0.GroupItems[k], xs, indexCreator, Positions(pre, keyCreator, KeySlot(k)), n);
      }
      if slot.KeySlot? {
        var k0 := slot.key;
        var entry := Pair(indexCreator(xs[n], n), xs[n].value);
        if k0 !in g0.GroupItems {
          assert EntriesAt([entry], xs, indexCreator, [n]);
          assert Bucket(g0.GroupItems, k0) + [entry] == [entry];
        } else {
          assert Bucket(g0.GroupItems, k0) == g0.GroupItems[k0];
        }
      }
    }
  }

  /** The grouping, position by position: NullItems holds the indices of
      the null elements, NullKeyItems the (index, item) of the elements with
      a null key, and the bucket of each key the (index, item) of the
      elements with that key, each in the order of their positions; a key
      has a bucket exactly when some element has it. */
  lemma {:induction false} GroupedByPosition<T, K, I>(xs: seq<Option<T>>, keyCreator: T -> Option<K>, indexCreator: (Option<T>, int) -> I)
    ensures var g := Grouped(xs, keyCreator, indexCreator);
      && IndicesAt(g.NullItems, xs, indexCreator, Positions(xs, keyCreator, NullSlot))
      && EntriesAt(g.NullKeyItems, xs, indexCreator, Positions(xs, keyCreator, NullKeySlot))
      && (forall k :: k in g.GroupItems <==> Positions(xs, keyCreator, KeySlot(k)) != [])
      && (forall k :: k in g.GroupItems ==> EntriesAt(g.GroupItems[k], xs, indexCreator, Positions(xs, keyCreator, KeySlot(k))))
  {
    NullsByPosition(xs, keyCreator, indexCreator);
    BucketsByPosition(xs, keyCreator, indexCreator);
  }

  /** A key has a bucket exactly when some non-null element has that key,
      and no bucket is empty. */
  lemma {:induction false} GroupKeys<T, K, I>(xs: seq<Option<T>>, keyCreator: T -> Option<K>, indexCreator: (Option<T>, int) -> I)
    ensures var g := Grouped(xs, keyCreator, indexCreator);
      && (forall k :: k in g.GroupItems <==> exists p :: 0 <= p < |xs| && xs[p].Some? && keyCreator(xs[p].value) == Some(k))
      && (forall k :: k in g.GroupItems ==> g.GroupItems[k] != [])
  {
    var g := Grouped(xs, keyCreator, indexCreator);
    GroupedByPosition(xs, keyCreator, indexCreator);
    forall k | k in g.GroupItems ensures g.GroupItems[k] != [] {
      assert Positions(xs, keyCreator, KeySlot(k)) != [];
      assert EntriesAt(g.GroupItems[k], xs, indexCreator, Positions(xs, keyCreator, KeySlot(k)));
    }
    forall k
      ensures k in g.GroupItems <==> exists p :: 0 <= p < |xs| && xs[p].Some? && keyCreator(xs[p].value) == Some(k)
    {
      var ps := Positions(xs, keyCreator, KeySlot(k));
      assert k in g.GroupItems <==> ps != [];
      PositionsMeaning(xs, keyCreator, KeySlot(k));
      if k in g.GroupItems {
        var p := ps[0];
        assert p < |xs| && SlotOf(xs[p], keyCreator) == KeySlot(k);
        assert xs[p].Some? && keyCreator(xs[p].value) == Some(k);
      }
      if exists p :: 0 <= p < |xs| && xs[p].Some? && keyCreator(xs[p].value) == Some(k) {
        var p :| 0 <= p < |xs| && xs[p].Some? && keyCreator(xs[p].value) == Some(k);
        assert SlotOf(xs[p], keyCreator) == KeySlot(k);
        assert p in ps;
      }
    }
  }

  // -----------------------------------------------------------------------
  // Completeness: the outputs hold exactly as many entries as the input.

  /** The number of entries in all buckets of a map. */
  ghost function TotalSize<K, X>(m: map<K, seq<X>>): nat
    decreases |m|
  {
    if |m| == 0 then 0
    else
      var k :| k in m;
      |m[k]| + TotalSize(m - {k})
  }

  lemma {:induction false} TotalSizeUnfold<K, X>(m: map<K, seq<X>>, k: K)
    requires k in m
    ensures exists k0 :: k0 in m && TotalSize(m) == |m[k0]| + TotalSize(m - {k0})
  {
    assert |m| != 0;
  }

  lemma RemoveBoth<K, X>(m: map<K, seq<X>>, k: K, k0: K)
    requires k in m && k0 in m && k != k0
    ensures |m - {k0}| == |m| - 1 && (m - {k0}) - {k} == (m - {k}) - {k0}
  {
  }

  /** The total does not depend on which key is taken out first. */
  lemma {:induction false} TotalSizeRemove<K, X>(m: map<K, seq<X>>, k: K)
    requires k in m
    ensures TotalSize(m) == |m[k]| + TotalSize(m - {k})
    decreases |m|
  {
    TotalSizeUnfold(m, k);
    var k0 :| k0 in m && TotalSize(m) == |m[k0]| + TotalSize(m - {k0});
    if k0 != k {
      RemoveBoth(m, k, k0);
      TotalSizeRemove(m - {k0}, k);
      TotalSizeRemove(m - {k}, k0);
    }
  }

  lemma TotalSizeAppend<K, X>(m: map<K, seq<X>>, k: K, x: X)
    ensures TotalSize(m[k := Bucket(m, k) + [x]]) == TotalSize(m) + 1
  {
    var m' := m[k := Bucket(m, k) + [x]];
    TotalSizeRemove(m', k);
    if k in m {
      TotalSizeRemove(m, k);
      assert m' - {k} == m - {k};
    } else {
      assert m' - {k} == m;
    }
  }

  /** Completeness: |NullItems| + |NullKeyItems| + the entries of all
      buckets == the number of input elements. */
  lemma {:induction false} GroupedCount<T, K, I>(xs: seq<Option<T>>, keyCreator: T -> Option<K>, indexCreator: (Option<T>, int) -> I)
    ensures var g := Grouped(xs, keyCreator, indexCreator);
      |g.NullItems| + |g.NullKeyItems| + TotalSize(g.GroupItems) == |xs|
    decreases |xs|
  {
    if xs == [] {
      var empty: map<K, seq<Pair<I, T>>> := map[];
      assert TotalSize(empty) == 0;
    } else {
      var n := |xs| - 1;
      GroupedCount(xs[..n], keyCreator, indexCreator);
      var g0 := Grouped(xs[..n], keyCreator, indexCreator);
      var g := Grouped(xs, keyCreator, indexCreator);
      assert g == Classify(g0, xs[n], n, keyCreator, indexCreator);
      match SlotOf(xs[n], keyCreator)
      case NullSlot =>
        assert g.GroupItems == g0.GroupItems && |g.NullItems| == |g0.NullItems| + 1;
      case NullKeySlot =>
        assert g.GroupItems == g0.GroupItems && |g.NullKeyItems| == |g0.NullKeyItems| + 1;
      case KeySlot(k) =>
        var entry := Pair(indexCreator(xs[n], n), xs[n].value);
        assert g.GroupItems == g0.GroupItems[k := Bucket(g0.GroupItems, k) + [entry]];
        TotalSizeAppend(g0.GroupItems, k, entry);
    }
  }
}
