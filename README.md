# toolbox-cs utilities in Dafny

This project models the core of the `Fourspace.Toolbox.Util` library (C#)
and proves properties of that model:

- **Key grouping** (`Compare/DelegateKeyGrouper.cs`). The grouper walks a
  sequence that may be null and may hold nulls. It sends a null element's
  index to `NullItems`, and a non-null element whose key is null to
  `NullKeyItems` as `(index, item)`. Every other element goes to the end of
  its key's bucket in `GroupItems`. The index of the element at position
  `i` is `indexCreator(item, i)`.
- **Key matching** (`Compare/MatchKeyGrouper.cs`). The matcher groups a
  left and a right sequence, each with its own grouper. Keys with a bucket
  on both sides become matched pairs of buckets. The remaining keys of each
  side are that side's non-matches.
- **Collection helpers** (`Collections/CollectionUtil.cs`):
  - `Pop`, `TryGetValue`;
  - the mapped-collection helpers (`AddToMappedList`,
    `AddToMappedCollection`, `AddToMappedObject` and the private
    `GetOrCreateCollection`);
  - `AddUniqueRange` (dictionary `Add`, which fails on a present key) and
    `AddRange` (indexer assignment, which overwrites), with their
    `...Chain` forms;
  - `AddNextItems` and `BatchCollection`.
- **Hash codes** (`HashCodeUtil.cs`): the 17/29 multiply-add fold in
  unchecked 32-bit arithmetic, for every overload.
- **`Pair<T, U>`** (`Pair.cs`): construction, both `Equals` overloads and
  `GetHashCode`.
- **String helpers** (`StringUtil.cs`): `Truncate` and `IsBase64`. A
  .NET string is a sequence of UTF-16 code units, and its `Length` and
  `Substring` count code units, so strings are modelled as sequences of a
  16-bit `CodeUnit` type.

Modules follow the source files:

| file | module | form |
|---|---|---|
| `wrappers.dfy` | `Wrappers` | `Option`, standing for a C# null |
| `hash_code_util.dfy` | `HashCodeUtil` | `int32` newtype with explicit wrap-around; the fold as a function; the loop overloads as methods |
| `pair.dfy` | `Pairs` | `Pair` datatype; equality and hashing as functions, with component equality and hashing as parameters |
| `string_util.dfy` | `StringUtil` | functions over `seq<CodeUnit>` |
| `collection_util.dfy` | `CollectionUtil` | classes `List`, `Dictionary`, `Enumerator` whose fields the helper methods update; each helper is a method proved against a specification function (`Appended`, `InsertUnique`, `Overwrite`, `Batches`) |
| `grouping.dfy` | `Grouping` | class `DelegateKeyGrouper` whose loop is proved against the fold `Grouped` |
| `matching.dfy` | `Matching` | class `MatchKeyGrouper` whose two dictionary loops are proved against `Reconcile` |

A C# `null` is `None`. A list stored as a dictionary value is
`Option<seq<V>>`.

## Model

| member | source | states |
|---|---|---|
| HashCodeUtil.Wrap | Toolbox/Util/HashCodeUtil.cs:39-110 | the `unchecked` arithmetic of every overload (the blocks at lines 39, 53, 70, 82 and 102): the result differs from the exact value by a multiple of 2^32 and equals it when the exact value fits in an `int` |
| HashCodeUtil.FoldIsWrappedExact | Toolbox/Util/HashCodeUtil.cs:80-91 | wrapping after every step of the 17/29 fold gives the exact unbounded value reduced once to 32 bits, so mid-fold overflow loses only high bits |
| HashCodeUtil.HashCode1 | Toolbox/Util/HashCodeUtil.cs:37-43 | the one-argument shortcut `493 + h` is the same value as the general fold over `[h]` |
| HashCodeUtil.HashCode2 | Toolbox/Util/HashCodeUtil.cs:51-60 | the two-argument hash is the fold over `[h1, h2]` |
| HashCodeUtil.HashCode3 | Toolbox/Util/HashCodeUtil.cs:68-78 | the three-argument hash is the fold over `[h1, h2, h3]` |
| HashCodeUtil.HashCodeParams | Toolbox/Util/HashCodeUtil.cs:80-91 | the params-array hash is the fold over the element hashes in order; no elements gives 17 |
| HashCodeUtil.ElementHashes | Toolbox/Util/HashCodeUtil.cs:105-108 | one hash per element, in order; a null element hashes to 0 |
| HashCodeUtil.HashCodeArray | Toolbox/Util/HashCodeUtil.cs:99-111 | a null array hashes to 0; otherwise the fold over the element hashes, with 0 for a null element |
| Pairs.IsEqual | Toolbox/Util/Pair.cs:56-60 | two pairs agree exactly when the first components agree under the first comparer and the second components under the second |
| Pairs.EqualsPair | Toolbox/Util/Pair.cs:49-54 | `null` is never equal; the pair itself always is; any other pair is equal exactly when `IsEqual` holds |
| Pairs.EqualsObject | Toolbox/Util/Pair.cs:40-47 | `null` and objects of another runtime type are never equal; for a `Pair<T, U>` the answer is that of `Equals(Pair<T, U>)` |
| Pairs.GetHashCode | Toolbox/Util/Pair.cs:64-67 | the hash is `(17 * 29 + h(First)) * 29 + h(Second)` reduced to 32 bits, the value `HashCode(First, Second)` computes |
| Pairs.EqualsSymmetric | Toolbox/Util/Pair.cs:40-60 | with symmetric component comparers both `Equals` overloads are symmetric |
| Pairs.EqualsEdgeCases | Toolbox/Util/Pair.cs:40-54 | `null` and objects of another type are never equal to a pair; a pair always equals itself, whatever the component comparers say |
| Pairs.EqualsIffComponents | Toolbox/Util/Pair.cs:40-60 | with reflexive component comparers, two pairs are equal exactly when both components are equal, and `Equals(object)` agrees with `Equals(Pair)` |
| Pairs.EqualPairsHashAlike | Toolbox/Util/Pair.cs:49-67 | equal pairs have equal `GetHashCode` when the component hashes agree with the component equalities |
| StringUtil.Truncate | Toolbox/Util/StringUtil.cs:39-42 | null stays null; otherwise the result is a prefix of the input, of length `min(|v|, length)` in UTF-16 code units |
| StringUtil.TruncateIdempotent | Toolbox/Util/StringUtil.cs:39-42 | truncating twice to the same length is truncating once |
| StringUtil.TruncateSplitsSurrogatePair | Toolbox/Util/StringUtil.cs:39-42 | lengths count code units: U+1F600 followed by `a` truncated to 1 keeps only the high surrogate |
| StringUtil.Base64Candidate | Toolbox/Util/StringUtil.cs:74 | the guard passes exactly for a non-null, non-empty value whose length in code units is a multiple of 4 |
| StringUtil.IsBase64 | Toolbox/Util/StringUtil.cs:71-85 | true exactly when the value is non-null and non-empty, has a length that is a multiple of 4, and is accepted by the decoder |
| StringUtil.GuardRejectsWithoutDecoding | Toolbox/Util/StringUtil.cs:73-75 | a value failing the null / empty / length-mod-4 guard is rejected whatever the decoder would do |
| StringUtil.GuardCountsCodeUnits | Toolbox/Util/StringUtil.cs:74 | the length tested is in code units: `a`, `b`, U+1F600 has length 4 and passes the guard |
| CollectionUtil.IsNotNullOrEmpty | Toolbox/Util/Collections/CollectionUtil.cs:38-41 | true exactly for a non-null sequence with at least one element |
| CollectionUtil.IsNotNullOrEmptyCollection | Toolbox/Util/Collections/CollectionUtil.cs:49-52 | the `ICollection` overload gives the same answer as the `IEnumerable` one on the list's contents, and false for null |
| CollectionUtil.Pop | Toolbox/Util/Collections/CollectionUtil.cs:74-81 | a null or empty list gives the default and stays unchanged; otherwise the last element is returned and removed, and the rest is kept |
| CollectionUtil.TryGetValue | Toolbox/Util/Collections/CollectionUtil.cs:104-137 | the stored value when the dictionary and key are non-null and the key is present; otherwise the default |
| CollectionUtil.GetOrCreateCollection | Toolbox/Util/Collections/CollectionUtil.cs:223-233 | returns the stored collection, or the created one when the key is absent or maps to null; the key then maps to the returned collection |
| CollectionUtil.AddToMappedCollection | Toolbox/Util/Collections/CollectionUtil.cs:189-193 | the value is appended to the key's collection, which is created first when missing or null |
| CollectionUtil.AddToMappedList | Toolbox/Util/Collections/CollectionUtil.cs:148-151 | the value is appended to the key's list, creating an empty list when needed; the key set grows by the key; every other entry is unchanged |
| CollectionUtil.AddAllToMappedCollection | Toolbox/Util/Collections/CollectionUtil.cs:205-213 | the values are appended in order to the key's collection, creating it when needed |
| CollectionUtil.AddAllToMappedList | Toolbox/Util/Collections/CollectionUtil.cs:161-177 | both list overloads append the values, in order, to the key's list, creating an empty list when needed |
| CollectionUtil.AddToMappedObject | Toolbox/Util/Collections/CollectionUtil.cs:246-255 | `add` is applied to the stored object, or to a created object stored first when none is present |
| CollectionUtil.AppendedTwice | Toolbox/Util/Collections/CollectionUtil.cs:148-164 | adding values in two calls builds the same list as adding their concatenation in one |
| CollectionUtil.InsertUniqueMeaning | Toolbox/Util/Collections/CollectionUtil.cs:278-287 | `AddUniqueRange` completes exactly when no item key is already present or repeated; existing entries are never changed; on success the keys are the old keys plus the items' keys, each mapped to its item's value |
| CollectionUtil.AddUniqueRange | Toolbox/Util/Collections/CollectionUtil.cs:278-287 | a null collection changes nothing; otherwise items are added in order until the first key that is already present, where the operation fails and the earlier additions remain |
| CollectionUtil.AddUniqueRangePairs | Toolbox/Util/Collections/CollectionUtil.cs:265-268 | the key-value-pair overload is the general one with `Key` and `Value` as getters |
| CollectionUtil.AddUniqueRangePairsChain | Toolbox/Util/Collections/CollectionUtil.cs:336-341 | the same update as the pair overload, returning the target |
| CollectionUtil.AddUniqueRangeChain | Toolbox/Util/Collections/CollectionUtil.cs:351-356 | the same update as `AddUniqueRange`, returning the target |
| CollectionUtil.OverwriteKeys | Toolbox/Util/Collections/CollectionUtil.cs:297-306 | after `AddRange` the keys are the old keys plus the items' keys; keys that no item has keep their values |
| CollectionUtil.OverwriteLastWins | Toolbox/Util/Collections/CollectionUtil.cs:297-306 | an item whose key no later item has ends up stored under that key: the last write wins |
| CollectionUtil.AddRange | Toolbox/Util/Collections/CollectionUtil.cs:297-306 | a null collection changes nothing; otherwise each item is written in order by indexer assignment |
| CollectionUtil.AddRangeKeyed | Toolbox/Util/Collections/CollectionUtil.cs:316-325 | as `AddRange`, with each item stored as its own value |
| CollectionUtil.AddRangeChain | Toolbox/Util/Collections/CollectionUtil.cs:365-370 | the same update as `AddRange`, returning the target |
| CollectionUtil.AddRangeKeyedChain | Toolbox/Util/Collections/CollectionUtil.cs:380-385 | the same update as the keyed `AddRange`, returning the target |
| CollectionUtil.AddNextItems | Toolbox/Util/Collections/CollectionUtil.cs:396-405 | appends the next `min(max(count, 0), remaining)` items of the enumerator, in order; returns how many; the enumerator advances by exactly that many |
| CollectionUtil.FirstBatchSize | Toolbox/Util/Collections/CollectionUtil.cs:430-431 | the first batch has between `batchSize` and `2 * batchSize - 1` items; it is exactly `batchSize` iff the remainder is 0 or above the tolerance, and otherwise `batchSize` plus the remainder |
| CollectionUtil.BatchesMeaning | Toolbox/Util/Collections/CollectionUtil.cs:406-442 | the batches are non-empty and concatenate back to the input; the first has `min(first, |s|)` items, the inner ones exactly `batchSize`, the last at most `batchSize` |
| CollectionUtil.EvenBatches | Toolbox/Util/Collections/CollectionUtil.cs:434-440 | batches of one size: `n * size < |s| <= (n + 1) * size` gives `n + 1` batches, the first `n` full and the last holding the rest |
| CollectionUtil.ToleranceSavesABatch | Toolbox/Util/Collections/CollectionUtil.cs:409-431 | a remainder within the tolerance goes into an enlarged first batch, all later batches are full, and there are `|s| / batchSize` batches, one fewer than without the tolerance |
| CollectionUtil.ToleranceIrrelevantWhenExact | Toolbox/Util/Collections/CollectionUtil.cs:414-431 | when the batch size divides the length, every tolerance gives the same `|s| / batchSize` full batches |
| CollectionUtil.BatchCollection | Toolbox/Util/Collections/CollectionUtil.cs:423-442 | the result is the batching of the input, with the first batch sized by the tolerance; the batches concatenate to the input and none is empty; an empty input gives no batches |
| CollectionUtil.SeventeenInFours | Toolbox/Util/Collections/CollectionUtil.cs:411-413 | 17 items in batches of 4 are `[0..3],[4..7],[8..11],[12..15],[16]` at tolerance 0 and `[0..4],[5..8],[9..12],[13..16]` at any tolerance of 1 or more |
| Grouping.BucketsAppended | Toolbox/Util/Compare/DelegateKeyGrouper.cs:70-71 | `AddToMappedList` on the grouper's dictionary appends the entry to the end of the key's bucket and leaves every other bucket unchanged |
| Grouping.DelegateKeyGrouper.constructor | Toolbox/Util/Compare/DelegateKeyGrouper.cs:34-38 | the grouper keeps the given key and index delegates |
| Grouping.DelegateKeyGrouper.GroupItems | Toolbox/Util/Compare/DelegateKeyGrouper.cs:40-82 | the result is the in-order grouping fold of the elements; a null or empty input gives three empty results; the index delegate is called once per element with its position; the key delegate is called once per non-null element, in order |
| Grouping.PositionsMeaning | Toolbox/Util/Compare/DelegateKeyGrouper.cs:49-73 | each output (nulls, null keys, each key) lists exactly the positions whose element goes there, in strictly increasing order; as each element has one destination, the outputs partition the positions |
| Grouping.NullsByPosition | Toolbox/Util/Compare/DelegateKeyGrouper.cs:49-66 | `NullItems` is the indices of the null elements and `NullKeyItems` the (index, item) of the null-key elements, in input order |
| Grouping.BucketsByPosition | Toolbox/Util/Compare/DelegateKeyGrouper.cs:60-72 | each bucket is the (index, item) of the elements with that key, in input order, and a key has a bucket iff some element has it |
| Grouping.GroupedByPosition | Toolbox/Util/Compare/DelegateKeyGrouper.cs:46-81 | `NullItems` is the indices of the null elements; `NullKeyItems` is (index, item) of the null-key elements; each bucket is (index, item) of the elements with that key; all are in input order, and a key has a bucket iff some element has that key |
| Grouping.GroupKeys | Toolbox/Util/Compare/DelegateKeyGrouper.cs:60-72 | the bucket keys are exactly the non-null keys of non-null elements, and no bucket is empty |
| Grouping.GroupedCount | Toolbox/Util/Compare/DelegateKeyGrouper.cs:46-81 | completeness: `|NullItems| + |NullKeyItems|` plus the sizes of all buckets equals the number of elements |
| Matching.Reconcile | Toolbox/Util/Compare/MatchKeyGrouper.cs:55-87 | each side's keys are split, without overlap, between the matched keys and that side's non-matches; the two non-match key sets are disjoint; buckets and null lists pass through unchanged |
| Matching.MatchKeyGrouper.constructor | Toolbox/Util/Compare/MatchKeyGrouper.cs:40-44 | the matcher keeps the given left and right groupers |
| Matching.MatchKeyGrouper.GroupItems | Toolbox/Util/Compare/MatchKeyGrouper.cs:46-89 | whatever order the dictionaries are walked in, the result is the reconciliation of the left grouping (by the left grouper) and the right grouping (by the right grouper) |
| Matching.ReconcileKeepsBuckets | Toolbox/Util/Compare/MatchKeyGrouper.cs:57-77 | matching loses and invents no bucket: each side's buckets, read back from the matched pairs and its non-matches, are that side's own grouping |
| Matching.MatchCountLeft | Toolbox/Util/Compare/MatchKeyGrouper.cs:46-88 | every left element is reported exactly once, as a null, a null key, a non-match entry or the left half of a match |
| Matching.MatchCountRight | Toolbox/Util/Compare/MatchKeyGrouper.cs:46-88 | every right element is reported exactly once, as a null, a null key, a non-match entry or the right half of a match |
| Matching.MatchedKeys | Toolbox/Util/Compare/MatchKeyGrouper.cs:57-72 | a key is matched iff some non-null left element and some non-null right element both have it |

## Left out

- Element hash codes and equalities. `EqualityComparer<T>.Default` and `Object.GetHashCode` are parameters: hash values and comparer functions.
- Object identity. `object.ReferenceEquals` in `Pair.Equals` is modelled as value equality of the two pairs. This gives the same answer whenever the component comparers are reflexive.
- `HashCodeUtil.HashCodeParams`: a null `params` array, which throws in the source, is not modelled. The sequence is always present.
- `StringUtil.Truncate`: requires `length >= 0` for a non-null string, because `Substring(0, length)` throws for a negative length.
- Strings are sequences of UTF-16 code units with no check that they are well-formed UTF-16. Characters, surrogate pairs and text encodings are not modelled beyond that.
- `StringUtil.IsBase64`: `Convert.FromBase64String` is the parameter `decodes` ("does not throw"). The Base64 alphabet and padding rules are not modelled.
- `IsDecimal`, `IsInteger` and the `TryParse...` helpers are not modelled. They wrap the .NET number parsers, which use culture data.
- `AsSet` and `GetNextOrDefault` are not modelled. They are thin wrappers over `HashSet` and `IEnumerator`.
- Dictionary keys are never null in the model. A null key makes the .NET dictionary throw, and `TryGetValue` treats it as absent.
- `CollectionUtil.AddToMappedCollection`: the created collection is given as its contents (the value `create()` would return), and every collection is a list of values. User-defined `ICollection` types with their own `Add` are not modelled.
- Aliasing of stored collections. A collection placed in a dictionary is modelled by writing the updated value back under its key, which is what sharing the object achieves.
- Exceptions. `AddUniqueRange` reports a failed `Add` as `ok == false`, keeping the entries added before it. Exceptions thrown by the delegates are not modelled.
- Null arguments that make the source throw are not modelled: the dictionary is never null in the `AddToMapped...` helpers and the target is never null in `AddRange` and `AddUniqueRange`.
- `CollectionUtil.AddAllToMappedCollection` and `CollectionUtil.AddAllToMappedList`: the values are never null. In the source a null `values` throws (`CollectionUtil.cs:176`, `:209`), and this happens only after `GetOrCreateCollection` has already stored a newly created collection, which then stays behind empty.
- `CollectionUtil.AddToMappedObject`: the stored object is a reference, so `add` changes what the dictionary holds, and the model writes the result back. When `C` is a value type, `TryGetValue` returns a non-null default, so the source neither creates nor stores anything, and `add` works on a copy (`CollectionUtil.cs:248-254`). That case is not modelled.
- `CollectionUtil.BatchCollection`: requires `batchSize > 0`, and the collection is never null (a null `col` throws in the source). With 0 the source divides by zero. With a negative size and a non-empty collection its loop never ends. With a negative size and an empty collection it returns an empty list without entering the loop, and the requires excludes that case too. The collections are returned by contents, without the `create` delegate.
- 32-bit overflow in the grouper's position counter, in `AddNextItems`' count and in `batchSize + remainder` is not modelled. Positions and sizes are unbounded integers.
- Dictionary enumeration order. The matcher's loops pick keys in an arbitrary order, and the result is proved not to depend on it.
- `Matching.MatchKeyGrouper`: both groupers are `DelegateKeyGrouper`s, the library's implementation of `IKeyGrouper`. The test `TryGetValue(rightKeyedItems, key) == null` is modelled as "key absent", since the grouper never stores a null bucket.
- Read-only views. The grouper's empty defaults (`Immutable.ReadOnlyList`, `Immutable.Dictionary`) are plain empty values.
- Files, threading, adapters, factories and data sources are not part of this model.
