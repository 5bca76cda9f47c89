/** Collection helpers that update .NET lists and dictionaries in place.
    A list object is a `List` whose `elements` the helpers reassign, a
    dictionary a `Dictionary` whose `entries` they reassign, and an
    IEnumerator an `Enumerator` over a fixed source. A list stored as a
    dictionary value is an Option<seq<V>>: None is a null list. */
module CollectionUtil {

  import opened Wrappers

  /** A mutable list (IList<T>, List<T>, ICollection<T>). */
  class List<T> {
    var elements: seq<T>

    constructor ()
      ensures elements == []
    {
      elements := [];
    }

    method Add(x: T)
      modifies this
      ensures elements == old(elements) + [x]
    {
      elements := elements + [x];
    }
  }

  /** A mutable dictionary (IDictionary<K, V>). */
  class Dictionary<K(==), V> {
    var entries: map<K, V>

    constructor ()
      ensures entries == map[]
    {
      entries := map[];
    }
  }

  /** An IEnumerator<T> over `source`: `consumed` items have been moved past. */
  class Enumerator<T> {
    const source: seq<T>
    var consumed: nat

    ghost predicate Valid()
      reads this
    {
      consumed <= |source|
    }

    constructor (source: seq<T>)
      ensures this.source == source && consumed == 0 && Valid()
    {
      this.source := source;
      consumed := 0;
    }

    /** MoveNext(): advances to the next item, false once the source is exhausted. */
    method MoveNext() returns (more: bool)
      requires Valid()
      modifies this
      ensures Valid()
      ensures more == (old(consumed) < |source|)
      ensures consumed == if more then old(consumed) + 1 else old(consumed)
    {
      more := consumed < |source|;
      if more {
        consumed := consumed + 1;
      }
    }

    /** Current: the item MoveNext last advanced to. */
    function Current(): T
      reads this
      requires 0 < consumed <= |source|
    {
      source[consumed - 1]
    }
  }

  function Min(a: int, b: int): int
  {
    if a <= b then a else b
  }

  /** IsNotNullOrEmpty(IEnumerable<T>). */
  predicate IsNotNullOrEmpty<T>(col: Option<seq<T>>)
    ensures IsNotNullOrEmpty(col) <==> col.Some? && col.value != []
  {
    !(col.None? || |col.value| == 0)
  }

  /** IsNotNullOrEmpty(ICollection<T>). */
  predicate IsNotNullOrEmptyCollection<T>(col: List?<T>)
    reads col
    ensures IsNotNullOrEmptyCollection(col) <==> col != null && IsNotNullOrEmpty(Some(col.elements))
  {
    !(col == null || |col.elements| == 0)
  }

  /** Pop: removes and returns the last element; a null or empty list gives
      the default value and is left as it is. */
  method Pop<T>(collection: List?<T>, defaultValue: T) returns (item: T)
    modifies collection
    ensures collection == null ==> item == defaultValue
    ensures collection != null && old(collection.elements) == [] ==>
              item == defaultValue && collection.elements == []
    ensures collection != null && old(collection.elements) != [] ==>
              var before := old(collection.elements);
              item == before[|before| - 1] && collection.elements == before[..|before| - 1]
  {
    if !IsNotNullOrEmptyCollection(collection) {
      return defaultValue;
    }
    var i := |collection.elements| - 1;
    item := collection.elements[i];
    collection.elements := collection.elements[..i];
  }

  /** TryGetValue: the stored value when the dictionary and the key are
      non-null and the key is present, otherwise the default; never fails. */
  function TryGetValue<K(==), V>(m: Option<map<K, V>>, key: Option<K>, defaultValue: V): (r: V)
    ensures m.Some? && key.Some? && key.value in m.value ==> r == m.value[key.value]
    ensures !(m.Some? && key.Some? && key.value in m.value) ==> r == defaultValue
  {
    if m.Some? && key.Some? && key.value in m.value then m.value[key.value] else defaultValue
  }

  /** The collection GetOrCreateCollection hands back: the stored one, or
      `created` when the key is absent or mapped to null. */
  function Existing<K(==), C>(m: map<K, Option<C>>, key: K, created: C): C
  {
    TryGetValue(Some(m), Some(key), None).GetOr(created)
  }

  /** The dictionary after `values` are appended to the collection of `key`. */
  function Appended<K(==), V>(m: map<K, Option<seq<V>>>, key: K, values: seq<V>, created: seq<V>): map<K, Option<seq<V>>>
  {
    m[key := Some(Existing(m, key, created) + values)]
  }

  /** GetOrCreateCollection: the collection stored for `key`; when there is
      none (or it is null) `created` (the result of `create()`) is stored and
      returned. */
  method GetOrCreateCollection<K(==), C>(m: Dictionary<K, Option<C>>, key: K, created: C) returns (collection: C)
    modifies m
    ensures collection == Existing(old(m.entries), key, created)
    ensures m.entries == old(m.entries)[key := Some(collection)]
  {
    var stored := TryGetValue(Some(m.entries), Some(key), None);
    if stored.None? {
      collection := created;
      m.entries := m.entries[key := Some(collection)];
    } else {
      collection := stored.value;
    }
  }

  /** AddToMappedCollection(map, key, value, create). The collection object
      is shared with the dictionary, so adding to it updates the entry. */
  method AddToMappedCollection<K(==), V>(m: Dictionary<K, Option<seq<V>>>, key: K, value: V, created: seq<V>)
    modifies m
    ensures m.entries == Appended(old(m.entries), key, [value], created)
  {
    var collection := GetOrCreateCollection(m, key, created);
    collection := collection + [value];
    m.entries := m.entries[key := Some(collection)];
  }

  /** AddToMappedList(map, key, value): as above, creating an empty list. */
  method AddToMappedList<K(==), V>(m: Dictionary<K, Option<seq<V>>>, key: K, value: V)
    modifies m
    ensures m.entries == Appended(old(m.entries), key, [value], [])
    ensures m.entries.Keys == old(m.entries).Keys + {key}
    ensures forall k :: k in old(m.entries) && k != key ==> m.entries[k] == old(m.entries)[k]
  {
    var collection := GetOrCreateCollection(m, key, []);
    collection := collection + [value];
    m.entries := m.entries[key := Some(collection)];
  }

  /** AddToMappedCollection(map, key, values, create): adds the values one
      by one, in order. */
  method AddAllToMappedCollection<K(==), V>(m: Dictionary<K, Option<seq<V>>>, key: K, values: seq<V>, created: seq<V>)
    modifies m
    ensures m.entries == Appended(old(m.entries), key, values, created)
  {
    var collection := GetOrCreateCollection(m, key, created);
    var i := 0;
    while i < |values|
      invariant 0 <= i <= |values|
      invariant collection == Existing(old(m.entries), key, created) + values[..i]
      invariant m.entries == Appended(old(m.entries), key, values[..i], created)
    {
      collection := collection + [values[i]];
      m.entries := m.entries[key := Some(collection)];
      i := i + 1;
    }
    assert values[..i] == values;
  }

  /** AddToMappedList(map, key, values), both the IList and the List
      overload: the values are appended to the key's list, creating an
      empty list first when needed. */
  method AddAllToMappedList<K(==), V>(m: Dictionary<K, Option<seq<V>>>, key: K, values: seq<V>)
    modifies m
    ensures m.entries == Appended(old(m.entries), key, values, [])
  {
    AddAllToMappedCollection(m, key, values, []);
  }

  /** AddToMappedObject(map, key, value, create, add): `add` stands for the
      caller's in-place action on the stored object. */
  method AddToMappedObject<K(==), C, V>(m: Dictionary<K, Option<C>>, key: K, value: V, created: C, add: (C, V) -> C)
    modifies m
    ensures m.entries == old(m.entries)[key := Some(add(Existing(old(m.entries), key, created), value))]
  {
    var obj := TryGetValue(Some(m.entries), Some(key), None);
    var target: C;
    if obj.None? {
      target := created;
      m.entries := m.entries[key := Some(target)];
    } else {
      target := obj.value;
    }
    target := add(target, value);
    m.entries := m.entries[key := Some(target)];
  }

  /** Appending in two calls is appending the concatenation in one: adding
      values one at a time builds the same list as adding them together. */
  lemma AppendedTwice<K, V>(m: map<K, Option<seq<V>>>, key: K, a: seq<V>, b: seq<V>, created: seq<V>)
    ensures Appended(Appended(m, key, a, created), key, b, created) == Appended(m, key, a + b, created)
  {
    var e := Existing(m, key, created);
    assert Existing(Appended(m, key, a, created), key, created) == e + a;
    assert (e + a) + b == e + (a + b);
  }

  // ---------------------------------------------------------------------
  // AddUniqueRange: dictionary Add, which throws when the key is present.

  /** The dictionary after Add-ing the items left to right, and whether all
      were added; on the first key already present the Add fails and the
      items before it stay added. */
  function InsertUnique<K(==), V, S>(m: map<K, V>, items: seq<S>, keyGetter: S -> K, valueGetter: S -> V): (map<K, V>, bool)
    decreases |items|
  {
    if items == [] then (m, true)
    else if keyGetter(items[0]) in m then (m, false)
    else InsertUnique(m[keyGetter(items[0]) := valueGetter(items[0])], items[1..], keyGetter, valueGetter)
  }

  /** No item's key is in `m` and no key repeats among the items. */
  ghost predicate NoClash<K, V, S>(m: map<K, V>, items: seq<S>, keyGetter: S -> K)
  {
    && (forall j :: 0 <= j < |items| ==> keyGetter(items[j]) !in m)
    && (forall j, j' :: 0 <= j < j' < |items| ==> keyGetter(items[j]) != keyGetter(items[j']))
  }

  ghost function KeysOf<K, S>(items: seq<S>, keyGetter: S -> K): set<K>
  {
    set j | 0 <= j < |items| :: keyGetter(items[j])
  }

  /** AddUniqueRange succeeds exactly when no key clashes; then every key
      of the target and of the items is present, the target's values are
      kept and each item's key maps to its value. Whether it succeeds or
      not, no entry of the target is changed or lost. */
  lemma {:induction false} InsertUniqueMeaning<K, V, S>(m: map<K, V>, items: seq<S>, keyGetter: S -> K, valueGetter: S -> V)
    ensures var (r, ok) := InsertUnique(m, items, keyGetter, valueGetter);
      && (ok <==> NoClash(m, items, keyGetter))
      && (forall k :: k in m ==> k in r && r[k] == m[k])
      && (ok ==> r.Keys == m.Keys + KeysOf(items, keyGetter))
      && (ok ==> forall j :: 0 <= j < |items| ==> r[keyGetter(items[j])] == valueGetter(items[j]))
    decreases |items|
  {
    if items != [] {
      var k0, v0 := keyGetter(items[0]), valueGetter(items[0]);
      if k0 in m {
        assert !NoClash(m, items, keyGetter);
      } else {
        var m' := m[k0 := v0];
        var rest := items[1..];
        InsertUniqueMeaning(m', rest, keyGetter, valueGetter);
        var (r, ok) := InsertUnique(m, items, keyGetter, valueGetter);
        assert (r, ok) == InsertUnique(m', rest, keyGetter, valueGetter);
        if NoClash(m, items, keyGetter) {
          forall j | 0 <= j < |rest| ensures keyGetter(rest[j]) !in m' {
            assert keyGetter(items[j + 1]) != keyGetter(items[0]);
          }
          forall j, j' | 0 <= j < j' < |rest| ensures keyGetter(rest[j]) != keyGetter(rest[j']) {
            assert keyGetter(items[j + 1]) != keyGetter(items[j' + 1]);
          }
          assert NoClash(m', rest, keyGetter);
        }
        if NoClash(m', rest, keyGetter) {
          forall j | 0 <= j < |items| ensures keyGetter(items[j]) !in m {
            if j > 0 { assert items[j] == rest[j - 1]; }
          }
          forall j, j' | 0 <= j < j' < |items| ensures keyGetter(items[j]) != keyGetter(items[j']) {
            assert items[j'] == rest[j' - 1];
            if j > 0 { assert items[j] == rest[j - 1]; }
          }
        }
        if ok {
          assert KeysOf(items, keyGetter) == {k0} + KeysOf(rest, keyGetter) by {
            forall k | k in KeysOf(items, keyGetter) ensures k in {k0} + KeysOf(rest, keyGetter) {
              var j :| 0 <= j < |items| && keyGetter(items[j]) == k;
              if j > 0 { assert items[j] == rest[j - 1]; }
            }
            forall k | k in KeysOf(rest, keyGetter) ensures k in KeysOf(items, keyGetter) {
              var j :| 0 <= j < |rest| && keyGetter(rest[j]) == k;
              assert rest[j] == items[j + 1];
            }
          }
          forall j | 0 <= j < |items| ensures r[keyGetter(items[j])] == valueGetter(items[j]) {
            if j > 0 { assert items[j] == rest[j - 1]; }
          }
        }
      }
    }
  }

  /** AddUniqueRange(target, collection, keyGetter, valueGetter): Add each
      item; `ok` is false when an Add throws (the key is already present),
      leaving the items added so far. A null collection changes nothing. */
  method AddUniqueRange<K(==), V, S>(target: Dictionary<K, V>, collection: Option<seq<S>>, keyGetter: S -> K, valueGetter: S -> V)
    returns (ok: bool)
    modifies target
    ensures collection.None? ==> ok && target.entries == old(target.entries)
    ensures collection.Some? ==> (target.entries, ok) == InsertUnique(old(target.entries), collection.value, keyGetter, valueGetter)
  {
    ok := true;
    if collection.Some? {
      var items := collection.value;
      var i := 0;
      while i < |items|
        invariant 0 <= i <= |items|
        invariant InsertUnique(target.entries, items[i..], keyGetter, valueGetter)
               == InsertUnique(old(target.entries), items, keyGetter, valueGetter)
      {
        assert items[i..][1..] == items[i + 1..];
        var key := keyGetter(items[i]);
        if key in target.entries {
          ok := false;
          return;
        }
        target.entries := target.entries[key := valueGetter(items[i])];
        i := i + 1;
      }
    }
  }

  /** AddUniqueRange(target, IEnumerable<KeyValuePair<K, V>>). */
  method AddUniqueRangePairs<K(==), V>(target: Dictionary<K, V>, collection: Option<seq<(K, V)>>) returns (ok: bool)
    modifies target
    ensures collection.None? ==> ok && target.entries == old(target.entries)
    ensures collection.Some? ==> (target.entries, ok) == InsertUnique(old(target.entries), collection.value, (p: (K, V)) => p.0, (p: (K, V)) => p.1)
  {
    ok := AddUniqueRange(target, collection, (p: (K, V)) => p.0, (p: (K, V)) => p.1);
  }

  /** AddUniqueRangeChain(target, pairs): the same update, returning the target. */
  method AddUniqueRangePairsChain<K(==), V>(target: Dictionary<K, V>, collection: Option<seq<(K, V)>>)
    returns (r: Dictionary<K, V>, ok: bool)
    modifies target
    ensures r == target
    ensures collection.None? ==> ok && target.entries == old(target.entries)
    ensures collection.Some? ==> (target.entries, ok) == InsertUnique(old(target.entries), collection.value, (p: (K, V)) => p.0, (p: (K, V)) => p.1)
  {
    ok := AddUniqueRangePairs(target, collection);
    r := target;
  }

  /** AddUniqueRangeChain(target, collection, keyGetter, valueGetter). */
  method AddUniqueRangeChain<K(==), V, S>(target: Dictionary<K, V>, collection: Option<seq<S>>, keyGetter: S -> K, valueGetter: S -> V)
    returns (r: Dictionary<K, V>, ok: bool)
    modifies target
    ensures r == target
    ensures collection.None? ==> ok && target.entries == old(target.entries)
    ensures collection.Some? ==> (target.entries, ok) == InsertUnique(old(target.entries), collection.value, keyGetter, valueGetter)
  {
    ok := AddUniqueRange(target, collection, keyGetter, valueGetter);
    r := target;
  }

  // ---------------------------------------------------------------------
  // AddRange: dictionary indexer assignment, which overwrites.

  /** The dictionary after `target[keyGetter(item)] = valueGetter(item)` for
      each item in order. */
  function Overwrite<K(==), V, S>(m: map<K, V>, items: seq<S>, keyGetter: S -> K, valueGetter: S -> V): map<K, V>
    decreases |items|
  {
    if items == [] then m
    else
      var last := items[|items| - 1];
      Overwrite(m, items[..|items| - 1], keyGetter, valueGetter)[keyGetter(last) := valueGetter(last)]
  }

  lemma KeysOfSnoc<K, S>(items: seq<S>, keyGetter: S -> K)
    requires items != []
    ensures KeysOf(items, keyGetter) == KeysOf(items[..|items| - 1], keyGetter) + {keyGetter(items[|items| - 1])}
  {
    var n := |items| - 1;
    var init := items[..n];
    forall k | k in KeysOf(items, keyGetter) ensures k in KeysOf(init, keyGetter) + {keyGetter(items[n])} {
      var j :| 0 <= j < |items| && keyGetter(items[j]) == k;
      if j < n { assert items[j] == init[j]; }
    }
    forall k | k in KeysOf(init, keyGetter) ensures k in KeysOf(items, keyGetter) {
      var j :| 0 <= j < |init| && keyGetter(init[j]) == k;
      assert init[j] == items[j];
    }
  }

  /** AddRange adds exactly the items' keys, and keys no item has keep
      their value. */
  lemma {:induction false} OverwriteKeys<K, V, S>(m: map<K, V>, items: seq<S>, keyGetter: S -> K, valueGetter: S -> V)
    ensures Overwrite(m, items, keyGetter, valueGetter).Keys == m.Keys + KeysOf(items, keyGetter)
    ensures forall k :: k in m && k !in KeysOf(items, keyGetter) ==> Overwrite(m, items, keyGetter, valueGetter)[k] == m[k]
    decreases |items|
  {
    if items != [] {
      OverwriteKeys(m, items[..|items| - 1], keyGetter, valueGetter);
      KeysOfSnoc(items, keyGetter);
    }
  }

  /** With AddRange the last item with a given key wins. */
  lemma {:induction false} OverwriteLastWins<K, V, S>(m: map<K, V>, items: seq<S>, keyGetter: S -> K, valueGetter: S -> V, j: nat)
    requires j < |items|
    requires forall j' :: j < j' < |items| ==> keyGetter(items[j']) != keyGetter(items[j])
    ensures keyGetter(items[j]) in Overwrite(m, items, keyGetter, valueGetter)
    ensures Overwrite(m, items, keyGetter, valueGetter)[keyGetter(items[j])] == valueGetter(items[j])
    decreases |items|
  {
    var n := |items| - 1;
    if j < n {
      var init := items[..n];
      assert items[j] == init[j];
      forall j' | j < j' < |init| ensures keyGetter(init[j']) != keyGetter(init[j]) {
        assert init[j'] == items[j'];
      }
      OverwriteLastWins(m, init, keyGetter, valueGetter, j);
    }
  }

  /** AddRange(target, collection, keyGetter, valueGetter): a null
      collection changes nothing. */
  method AddRange<K(==), V, S>(target: Dictionary<K, V>, collection: Option<seq<S>>, keyGetter: S -> K, valueGetter: S -> V)
    modifies target
    ensures collection.None? ==> target.entries == old(target.entries)
    ensures collection.Some? ==> target.entries == Overwrite(old(target.entries), collection.value, keyGetter, valueGetter)
  {
    if collection.Some? {
      var items := collection.value;
      var i := 0;
      while i < |items|
        invariant 0 <= i <= |items|
        invariant target.entries == Overwrite(old(target.entries), items[..i], keyGetter, valueGetter)
      {
        assert items[..i + 1][..i] == items[..i];
        target.entries := target.entries[keyGetter(items[i]) := valueGetter(items[i])];
        i := i + 1;
      }
      assert items[..i] == items;
    }
  }

  /** AddRange(target, collection, keyGetter): each item is its own value. */
  method AddRangeKeyed<K(==), V>(target: Dictionary<K, V>, collection: Option<seq<V>>, keyGetter: V -> K)
    modifies target
    ensures collection.None? ==> target.entries == old(target.entries)
    ensures collection.Some? ==> target.entries == Overwrite(old(target.entries), collection.value, keyGetter, (v: V) => v)
  {
    AddRange(target, collection, keyGetter, (v: V) => v);
  }

  /** AddRangeChain(target, collection, keyGetter, valueGetter). */
  method AddRangeChain<K(==), V, S>(target: Dictionary<K, V>, collection: Option<seq<S>>, keyGetter: S -> K, valueGetter: S -> V)
    returns (r: Dictionary<K, V>)
    modifies target
    ensures r == target
    ensures collection.None? ==> target.entries == old(target.entries)
    ensures collection.Some? ==> target.entries == Overwrite(old(target.entries), collection.value, keyGetter, valueGetter)
  {
    AddRange(target, collection, keyGetter, valueGetter);
    r := target;
  }

  /** AddRangeChain(target, collection, keyGetter). */
  method AddRangeKeyedChain<K(==), V>(target: Dictionary<K, V>, collection: Option<seq<V>>, keyGetter: V -> K)
    returns (r: Dictionary<K, V>)
    modifies target
    ensures r == target
    ensures collection.None? ==> target.entries == old(target.entries)
    ensures collection.Some? ==> target.entries == Overwrite(old(target.entries), collection.value, keyGetter, (v: V) => v)
  {
    AddRangeKeyed(target, collection, keyGetter);
    r := target;
  }

  // ---------------------------------------------------------------------
  // AddNextItems and BatchCollection.

  /** AddNextItems: appends the next `count` items of `iter` (fewer when it
      runs out) and returns how many were appended. MoveNext is not called
      once `count` items have been taken. */
  method AddNextItems<T>(append: List<T>, iter: Enumerator<T>, count: int) returns (added: int)
    requires iter.Valid()
    modifies append, iter
    ensures iter.Valid()
    ensures added == Min(if count < 0 then 0 else count, |iter.source| - old(iter.consumed))
    ensures iter.consumed == old(iter.consumed) + added
    ensures append.elements == old(append.elements) + iter.source[old(iter.consumed)..iter.consumed]
  {
    added := 0;
    while true
      invariant iter.Valid()
      invariant 0 <= added && (count < 0 ==> added == 0) && (count >= 0 ==> added <= count)
      invariant iter.consumed == old(iter.consumed) + added
      invariant append.elements == old(append.elements) + iter.source[old(iter.consumed)..iter.consumed]
      decreases |iter.source| - iter.consumed
    {
      if !(count > added) {
        break;
      }
      var more := iter.MoveNext();
      if !more {
        break;
      }
      append.Add(iter.Current());
      added := added + 1;
    }
  }

  /** The size of the first batch: batchSize, enlarged by the remainder of
      the length when that remainder is within the tolerance. (C#'s `%`
      agrees with Dafny's here: the length is never negative.) */
  function FirstBatchSize(length: nat, batchSize: int, tolerance: int): (size: int)
    requires batchSize > 0
    ensures batchSize <= size < 2 * batchSize
    ensures size == batchSize <==> length % batchSize == 0 || length % batchSize > tolerance
    ensures length % batchSize <= tolerance ==> size == batchSize + length % batchSize
  {
    var remainder := length % batchSize;
    if remainder > tolerance then batchSize else batchSize + remainder
  }

  /** The batches of `s`: a first batch of up to `first` items, then
      batches of up to `size` items. */
  function Batches<T>(s: seq<T>, first: int, size: int): seq<seq<T>>
    requires first > 0 && size > 0
    decreases |s|
  {
    if s == [] then []
    else if |s| <= first then [s]
    else [s[..first]] + Batches(s[first..], size, size)
  }

  function Concat<T>(b: seq<seq<T>>): seq<T>
  {
    if b == [] then [] else b[0] + Concat(b[1..])
  }

  /** The batches are non-empty, concatenate back to the input, the first
      has min(first, |s|) items, the inner ones exactly `size`, the last one
      between 1 and `size` items. */
  lemma {:induction false} BatchesMeaning<T>(s: seq<T>, first: int, size: int)
    requires first > 0 && size > 0
    ensures var b := Batches(s, first, size);
      && Concat(b) == s
      && (s == [] <==> b == [])
      && (forall j :: 0 <= j < |b| ==> |b[j]| > 0)
      && (b != [] ==> |b[0]| == Min(first, |s|))
      && (forall j :: 0 < j < |b| - 1 ==> |b[j]| == size)
      && (|b| > 1 ==> |b[|b| - 1]| <= size)
    decreases |s|
  {
    if s != [] && |s| > first {
      var rest := s[first..];
      BatchesMeaning(rest, size, size);
      var b := Batches(s, first, size);
      assert b[1..] == Batches(rest, size, size);
      assert s == s[..first] + rest;
    }
  }

  /** Batches of one size throughout: n * size < |s| <= (n + 1) * size
      gives n + 1 batches, the first n full and the last holding the
      |s| - n * size items left over. */
  lemma {:induction false} EvenBatches<T>(s: seq<T>, size: int, n: nat)
    requires size > 0 && size * n < |s| <= size * (n + 1)
    ensures var b := Batches(s, size, size);
      && |b| == n + 1
      && (forall j :: 0 <= j < n ==> |b[j]| == size)
      && |b[n]| == |s| - size * n
    decreases n
  {
    if n > 0 {
      var rest := s[size..];
      assert size * n == size * (n - 1) + size;
      EvenBatches(rest, size, n - 1);
      var b := Batches(s, size, size);
      assert b == [s[..size]] + Batches(rest, size, size);
    }
  }

  /** What the tolerance buys: when the remainder |s| % batchSize is
      positive but within the tolerance, and there is at least one full
      batch, the leftover items ride in an enlarged first batch, every later
      batch is full, and there are |s| / batchSize batches - one fewer than
      plain batches of batchSize, which need an extra partial batch. */
  lemma {:induction false} ToleranceSavesABatch<T>(s: seq<T>, batchSize: int, tolerance: int)
    requires batchSize > 0 && |s| >= batchSize
    requires 0 < |s| % batchSize <= tolerance
    ensures var b := Batches(s, FirstBatchSize(|s|, batchSize, tolerance), batchSize);
      && |b| == |s| / batchSize
      && |b[0]| == batchSize + |s| % batchSize
      && (forall j :: 0 < j < |b| ==> |b[j]| == batchSize)
    ensures |Batches(s, batchSize, batchSize)| == |s| / batchSize + 1
  {
    var q, r := |s| / batchSize, |s| % batchSize;
    assert |s| == batchSize * q + r;
    assert q >= 1;
    var first := FirstBatchSize(|s|, batchSize, tolerance);
    assert first == batchSize + r;
    EvenBatches(s, batchSize, q);
    if q > 1 {
      var rest := s[first..];
      assert |rest| == batchSize * (q - 1);
      assert batchSize * (q - 1) == batchSize * (q - 2) + batchSize;
      EvenBatches(rest, batchSize, q - 2);
      var b := Batches(s, first, batchSize);
      assert b == [s[..first]] + Batches(rest, batchSize, batchSize);
    }
  }

  /** When the batch size divides the length exactly the tolerance is
      irrelevant: every batch is full and there are |s| / batchSize. */
  lemma {:induction false} ToleranceIrrelevantWhenExact<T>(s: seq<T>, batchSize: int, tolerance: int)
    requires batchSize > 0 && |s| % batchSize == 0
    ensures var b := Batches(s, FirstBatchSize(|s|, batchSize, tolerance), batchSize);
      && b == Batches(s, batchSize, batchSize)
      && |b| == |s| / batchSize
      && (forall j :: 0 <= j < |b| ==> |b[j]| == batchSize)
  {
    if s != [] {
      var q := |s| / batchSize;
      assert |s| == batchSize * q;
      assert batchSize * q == batchSize * (q - 1) + batchSize;
      EvenBatches(s, batchSize, q - 1);
    }
  }

  /** BatchCollection(col, create, batchSize, tolerance): the created
      collections are given by their contents. */
  method BatchCollection<T>(col: seq<T>, batchSize: int, tolerance: int) returns (batched: seq<seq<T>>)
    requires batchSize > 0
    ensures batched == Batches(col, FirstBatchSize(|col|, batchSize, tolerance), batchSize)
    ensures Concat(batched) == col
    ensures forall j :: 0 <= j < |batched| ==> 0 < |batched[j]|
    ensures col == [] ==> batched == []
  {
    batched := [];
    var count := 0;
    var length := |col|;
    var currentBatchSize := FirstBatchSize(length, batchSize, tolerance);
    ghost var first := currentBatchSize;
    var iter := new Enumerator(col);
    while count < length
      invariant 0 <= count <= length
      invariant fresh(iter) && iter.Valid() && iter.source == col && iter.consumed == count
      invariant currentBatchSize >= batchSize
      invariant batched + Batches(col[count..], currentBatchSize, batchSize) == Batches(col, first, batchSize)
      decreases length - count
    {
      var nextCollection := new List<T>();
      var rest := col[count..];
      var n := AddNextItems(nextCollection, iter, currentBatchSize);
      assert nextCollection.elements == col[count..count + n];
      if |rest| <= currentBatchSize {
        assert nextCollection.elements == rest;
        assert col[count + n..] == [];
      } else {
        assert nextCollection.elements == rest[..currentBatchSize];
        assert col[count + n..] == rest[currentBatchSize..];
      }
      count := count + n;
      batched := batched + [nextCollection.elements];
      currentBatchSize := batchSize;
    }
    assert col[count..] == [];
    BatchesMeaning(col, first, batchSize);
  }

  /** The worked example of the BatchCollection documentation: 17 items in
      batches of 4 are [0..3], [4..7], [8..11], [12..15], [16] at tolerance
      0, and [0..4], [5..8], [9..12], [13..16] at any tolerance of 1 or more. */
  lemma SeventeenInFours<T>(s: seq<T>, tolerance: int)
    requires |s| == 17
    ensures Batches(s, FirstBatchSize(17, 4, 0), 4) == [s[..4], s[4..8], s[8..12], s[12..16], s[16..]]
    ensures tolerance >= 1 ==> Batches(s, FirstBatchSize(17, 4, tolerance), 4) == [s[..5], s[5..9], s[9..13], s[13..]]
  {
    assert FirstBatchSize(17, 4, 0) == 4;
    assert s[12..][..4] == s[12..16] && s[12..][4..] == s[16..];
    assert s[8..][..4] == s[8..12] && s[8..][4..] == s[12..];
    assert s[4..][..4] == s[4..8] && s[4..][4..] == s[8..];
    assert Batches(s[16..], 4, 4) == [s[16..]];
    assert Batches(s[12..], 4, 4) == [s[12..16], s[16..]];
    assert Batches(s[8..], 4, 4) == [s[8..12], s[12..16], s[16..]];
    assert Batches(s[4..], 4, 4) == [s[4..8], s[8..12], s[12..16], s[16..]];
    assert Batches(s, 4, 4) == [s[..4], s[4..8], s[8..12], s[12..16], s[16..]];
    assert tolerance >= 1 ==> FirstBatchSize(17, 4, tolerance) == 5;
    assert s[9..][..4] == s[9..13] && s[9..][4..] == s[13..];
    assert s[5..][..4] == s[5..9] && s[5..][4..] == s[9..];
    assert Batches(s[13..], 4, 4) == [s[13..]];
    assert Batches(s[9..], 4, 4) == [s[9..13], s[13..]];
    assert Batches(s[5..], 4, 4) == [s[5..9], s[9..13], s[13..]];
    assert Batches(s, 5, 4) == [s[..5], s[5..9], s[9..13], s[13..]];
  }
}
