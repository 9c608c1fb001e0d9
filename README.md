# Collections helpers of Apache Fury

This project models the collection helpers of Fury's `Collections` utility class in Dafny:

- `ofArrayList` builds a list from a variadic argument array.
- `ofHashMap` builds a hash map from a flat key/value argument array.
- `ofHashSet` builds a hash set from a variadic argument array.
- `hasIntersection` decides whether two sets share an element.

Everything lives in `collections.dfy`, in module `Collections`.

Modelling choices:
- The variadic argument array is only read, so it is a `seq<T>`.
- The container each builder returns is fresh and owned by the caller, so its contents are a Dafny value: `seq<T>` for the `ArrayList`, `map<T, T>` for the `HashMap`, `set<T>` for the `HashSet`.
- `ofHashMap` takes `Object...`, so keys and values share one element type `T`.
- Its `IllegalArgumentException` becomes `Failure(IllegalArgument(count))` in a `Result`. `count` is the argument count.
- The loops of `ofHashMap` (step 2, one `put` per pair), `ofHashSet` (one add per argument) and `hasIntersection` (stop at the first shared element) are `while`/`for` loops with invariants.
- `ofHashMap` and `ofHashSet` are proved against the specification functions `FromPairs` and `ElementSet`. The lemmas beside them prove what those functions mean.
- `hasIntersection` iterates the remaining part of the smaller set. It picks an arbitrary element each time, because `HashSet` iteration order is unspecified.
- It returns a ghost count `probes` of the membership tests made on the larger set.

## Model

| member | source | states |
|---|---|---|
| `Collections.OfArrayList` | java/fury-core/src/main/java/org/apache/fury/collection/Collections.java:43-49 | the list has as many elements as the arguments, its i-th element is the i-th argument, and duplicates are kept (same multiset) |
| `Collections.OfHashSet` | java/fury-core/src/main/java/org/apache/fury/collection/Collections.java:66-70 | a value is in the set iff it is among the arguments; the set is no larger than the argument count, and exactly as large iff no argument repeats |
| `Collections.ElementSetSize` | java/fury-core/src/main/java/org/apache/fury/collection/Collections.java:66-69 | collapsing duplicates into a set never grows the count, and keeps it iff the sequence has no duplicates |
| `Collections.ElementSetOrderFree` | java/fury-core/src/main/java/org/apache/fury/collection/Collections.java:66-69 | two argument lists with the same multiset of elements (any reordering) give the same set |
| `Collections.OfHashMap` | java/fury-core/src/main/java/org/apache/fury/collection/Collections.java:53-64 | fails iff the argument count is odd, and the error carries that count; no map is returned on failure; otherwise the result is the map obtained by putting each (key, value) pair into an empty map in argument order |
| `Collections.FromPairsKeys` | java/fury-core/src/main/java/org/apache/fury/collection/Collections.java:58-62 | the built map's key set equals the set of arguments at even (key) positions |
| `Collections.FromPairsSize` | java/fury-core/src/main/java/org/apache/fury/collection/Collections.java:58-62 | the built map has at most `kv.length / 2` entries |
| `Collections.FromPairsLastWriteWins` | java/fury-core/src/main/java/org/apache/fury/collection/Collections.java:60-62 | if index i is the last key position holding k, then k is in the map and maps to the argument right after i (last write wins) |
| `Collections.FromPairsEntryOrigin` | java/fury-core/src/main/java/org/apache/fury/collection/Collections.java:60-62 | conversely, each entry k -> v of the map comes from the last key position holding k, with v the argument that follows it |
| `Collections.HasIntersection` | java/fury-core/src/main/java/org/apache/fury/collection/Collections.java:73-86 | returns true iff `set1 * set2 != {}`; false whenever either set is empty; makes at most min(\|set1\|, \|set2\|) membership tests, because it iterates the smaller set |
| `Collections.HasIntersectionSymmetric` | java/fury-core/src/main/java/org/apache/fury/collection/Collections.java:74-79 | swapping the arguments does not change the answer: the swap chooses only which set is iterated |

## Left out

- `stream(Iterable)` (Collections.java:37-41) is not modelled. It only dispatches to `Collection.stream` or `StreamSupport.stream`. Its laziness and one-shot traversal belong to the Java library.
- `OfArrayList` models only the list's contents. `setArrayListElements` comes from `org.apache.fury.util.unsafe._Collections`, which is not part of this model. So the model does not say whether the list's storage is shared with the argument array.
- Object identity is not modelled, because the returned containers are values. This covers the freshness of each `ArrayList`, `HashMap` and `HashSet`. It also covers the "two calls give two distinct instances" property.
- Capacity pre-sizing (`new ArrayList(n)`, `new HashMap<>(n / 2)`, `new HashSet<>(n)`) is not modelled. It affects performance only.
- Java `equals`/`hashCode` semantics and hash-table layout are replaced by Dafny equality on `T(==)`. This includes a `Set` whose `contains` disagrees with `equals`.
- The exception's message text is not modelled. The error keeps only the argument count it reports.
- 32-bit `int` arithmetic is not modelled. `kv.length` is non-negative and the loop index `i` stays even and below `kv.length`, so `i += 2` cannot overflow and unbounded integers match the source.
- Concurrent modification of the input sets during `hasIntersection` is not modelled. Its behaviour is undefined in the source.
- HasIntersection: the `probes` count is ghost. The model bounds the number of membership tests; it does not model their per-test hash-lookup cost.
