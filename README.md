# ImmutableList in Dafny

This is a model of `com.parkingwang.lang.data.ImmutableList<E>`. It is a fixed-size, read-only list that wraps a backing array `mElementData` and caches its length in `mSize`. The model includes the list's forward-only iterator `Itr`.

- `wrappers.dfy` (module `Wrappers`) defines `Option` and `Result`.
  - A Java `null` element is `None`.
  - A thrown exception is `Failure(e)`.
- `java_int.dfy` (module `JavaInt`) defines the Java `int` range `Int32` and the wrap-around function `Wrap`.
- `list_spec.dfy` (module `ListSpec`) holds the value-level specification:
  - the exceptions, as the datatype `Error`;
  - the first-match search `FirstIndex`;
  - the ordered checks of `subList`, as `SubListOf`;
  - the hash: `HashFold` is the loop of `java.util.Arrays.hashCode`, `ArrayHash` runs it from 1, and `ListHash` adds `31 * h + size`.

  It also holds the lemmas that say what these functions mean.
- `immutable_list.dfy` (module `Data`) defines two classes:
  - `ImmutableList<T>`: the backing array is `const elementData: array<Option<T>>`, the cached size is `const size`, and the ghost `Contents` holds the contents fixed at construction. `Valid()` ties them together (`size == elementData.Length` and `elementData[..] == Contents`).
  - `Itr<T>`: it has the mutable `cursor` and `lastRet` fields. A ghost history `Yielded` records what `next()` has returned, and `Valid()` keeps it equal to the list up to the cursor.

Element `equals` is Dafny equality on `T(==)`. An element's `hashCode` is a parameter `hash: T -> Int32`.

## Model

| member | source | states |
|---|---|---|
| `Data.ImmutableList.constructor` | src/main/java/com/parkingwang/lang/data/ImmutableList.java:19-22 | wraps the caller's array without copying; the contents are the array's slots and the cached size is its length |
| `Data.ImmutableList.Empty` | src/main/java/com/parkingwang/lang/data/ImmutableList.java:24-27 | a valid list with no elements |
| `Data.ImmutableList.Get` | src/main/java/com/parkingwang/lang/data/ImmutableList.java:29-31 | succeeds iff `0 <= position < size`, then returns slot `position`; otherwise throws IndexOutOfBounds |
| `Data.ImmutableList.Size` | src/main/java/com/parkingwang/lang/data/ImmutableList.java:33-35 | the array length equals the number of elements |
| `Data.ImmutableList.IsEmpty` | src/main/java/com/parkingwang/lang/data/ImmutableList.java:37-39 | `0 == mSize` holds iff the contents are empty |
| `Data.ImmutableList.IsNotEmpty` | src/main/java/com/parkingwang/lang/data/ImmutableList.java:41-43 | holds iff there is at least one element |
| `Data.ImmutableList.Contains` | src/main/java/com/parkingwang/lang/data/ImmutableList.java:45-47 | `indexOf(o) >= 0` holds iff `o` (null included) is among the contents |
| `Data.ImmutableList.IndexOf` | src/main/java/com/parkingwang/lang/data/ImmutableList.java:49-60 | the result lies in `[-1, size)`; it is -1 iff no slot equals `o`, otherwise the smallest matching index; a null `o` matches the first null slot; it equals `FirstIndex` of the contents |
| `ListSpec.FirstIndex` | src/main/java/com/parkingwang/lang/data/ImmutableList.java:49-60 | the search result always lies in `[-1, |s|)` |
| `ListSpec.FirstIndexIsFirstMatch` | src/main/java/com/parkingwang/lang/data/ImmutableList.java:49-60 | the search gives -1 iff the value is absent; otherwise the slot it finds holds the value and no earlier slot does |
| `ListSpec.FirstIndexOfFirstMatch` | src/main/java/com/parkingwang/lang/data/ImmutableList.java:49-60 | conversely, an index holding the value with no earlier match is the search result |
| `ListSpec.FirstIndexConcat` | src/main/java/com/parkingwang/lang/data/ImmutableList.java:92-100 | searching a concatenation finds the left operand's first match, else the right operand's match shifted by the left size, else -1 |
| `Data.ImmutableList.ToList` | src/main/java/com/parkingwang/lang/data/ImmutableList.java:62-64 | the growable copy holds exactly the contents in order |
| `Data.ImmutableList.ToArray` | src/main/java/com/parkingwang/lang/data/ImmutableList.java:66-68 | returns a fresh array, so not the backing array, holding exactly the contents |
| `Data.ImmutableList.ToArrayInto` | src/main/java/com/parkingwang/lang/data/ImmutableList.java:70-80 | with too little room: a fresh array holding the contents, and the buffer is untouched; otherwise: the same buffer, with the contents in its prefix, a null just after them when there is room, and the later slots unchanged; the list is left intact, even when the buffer is its own backing array |
| `Data.ImmutableList.Clone` | src/main/java/com/parkingwang/lang/data/ImmutableList.java:82-85 | a fresh list over a fresh array with the same contents, equal to the receiver |
| `Data.ImmutableList.Concat` | src/main/java/com/parkingwang/lang/data/ImmutableList.java:92-100 | the contents are this list's followed by `src`'s; an empty `src` returns the receiver itself, otherwise a fresh list over a fresh array |
| `Data.ImmutableList.SubList` | src/main/java/com/parkingwang/lang/data/ImmutableList.java:102-115 | fails exactly when `SubListOf` fails, with the same exception; on success, a fresh list holding `SubListOf`'s contents |
| `ListSpec.SubListOutcome` | src/main/java/com/parkingwang/lang/data/ImmutableList.java:102-115 | `subList` succeeds iff `from == to`, or `from < to` and either the receiver is empty or `0 <= from && to <= size`; `from > to` throws IllegalArgument; other failures throw IndexOutOfBounds |
| `ListSpec.SubListIsSlice` | src/main/java/com/parkingwang/lang/data/ImmutableList.java:102-115 | on bounds `0 <= from <= to <= size`, the result is the slice `[from, to)`, of length `to - from` |
| `ListSpec.SubListUncheckedBounds` | src/main/java/com/parkingwang/lang/data/ImmutableList.java:104-105 | equal bounds, and any ordered bounds on an empty receiver, give the empty list without a bounds check |
| `ListSpec.SubListSplit` | src/main/java/com/parkingwang/lang/data/ImmutableList.java:102-115 | for `i <= j <= k` in range, `subList(i, j)` followed by `subList(j, k)` is `subList(i, k)` |
| `ListSpec.SubListOfConcat` | src/main/java/com/parkingwang/lang/data/ImmutableList.java:92-115 | `subList` recovers each operand of a concatenation |
| `Data.ImmutableList.ListOf` | src/main/java/com/parkingwang/lang/data/ImmutableList.java:117-121 | a fresh list over a fresh array holding the collection's elements in order |
| `Data.ImmutableList.Equals` | src/main/java/com/parkingwang/lang/data/ImmutableList.java:123-133 | holds iff the other list is non-null with the same elements in the same order |
| `Data.EqualsIsEquivalence` | src/main/java/com/parkingwang/lang/data/ImmutableList.java:123-133 | equality is reflexive, symmetric and transitive |
| `Data.ImmutableList.HashCode` | src/main/java/com/parkingwang/lang/data/ImmutableList.java:135-140 | the hash is a function of the contents alone: `31 * Arrays.hashCode + size`, computed with 32-bit wrap-around |
| `Data.EqualListsHashEqually` | src/main/java/com/parkingwang/lang/data/ImmutableList.java:123-140 | equal lists have equal hash codes |
| `ListSpec.EmptyListHash` | src/main/java/com/parkingwang/lang/data/ImmutableList.java:135-140 | the empty list hashes to 31 |
| `ListSpec.HashFoldAppend` | src/main/java/com/parkingwang/lang/data/ImmutableList.java:137 | running the front-to-back `Arrays.hashCode` loop one slot further turns the value reached so far into `31 * h + hash(e)` |
| `ListSpec.ArrayHashAppend` | src/main/java/com/parkingwang/lang/data/ImmutableList.java:137 | appending a slot folds its hash in as `31 * h + hash(e)`, where a null slot hashes to 0 |
| `JavaInt.Wrap` | src/main/java/com/parkingwang/lang/data/ImmutableList.java:138 | Java `int` arithmetic: values already in range are unchanged, and the result is congruent to the exact value modulo 2^32 |
| `Data.ImmutableList.Iterator` | src/main/java/com/parkingwang/lang/data/ImmutableList.java:143-146 | a fresh iterator over this list with `cursor == 0` and `lastRet == -1`, which has yielded nothing |
| `Data.ForEach` | src/main/java/com/parkingwang/lang/data/ImmutableList.java:142-175 | a for-each loop over `iterator()`, `hasNext()` and `next()` yields exactly the list's elements in order, and a further `next()` throws NoSuchElement |
| `Data.Itr.constructor` | src/main/java/com/parkingwang/lang/data/ImmutableList.java:148-150 | the iterator starts at cursor 0 with `lastRet == -1` |
| `Data.Itr.HasNext` | src/main/java/com/parkingwang/lang/data/ImmutableList.java:152-155 | `cursor != mSize` holds iff elements remain; once it is false, the history of returned elements is the whole list |
| `Data.Itr.Next` | src/main/java/com/parkingwang/lang/data/ImmutableList.java:157-168 | keeps `0 <= cursor <= size` and `lastRet == cursor - 1`; before the end, it returns the element under the cursor, sets `lastRet` to the old cursor and advances by one, appending that element to what has been yielded; at the end, it throws NoSuchElement and changes nothing; the ConcurrentModification branch is proved unreachable |
| `Data.Itr.Remove` | src/main/java/com/parkingwang/lang/data/ImmutableList.java:170-173 | always throws UnsupportedOperation |

## Left out

- `toString` (lines 87-90) is left out. It is formatting through `Arrays.toString` and each element's own `toString`.
- `Data.ImmutableList.Empty`: the shared `EMPTY` singleton (line 14) is a new empty list here. Object identity across calls to `empty()` is not modelled, and neither is the raw-type cast. Every property stated about the empty list holds for the new one.
- `Data.ImmutableList.SubList`: on the success paths where the source returns the shared `EMPTY`, the model returns a fresh empty list.
- `Data.ImmutableList.ToArrayInto`: when the buffer is too short, the source allocates an array of the buffer's runtime class (`array.getClass()`). The model allocates one of the list's own element type, because Dafny has no reflection. The buffer's element type is also fixed to the list's own. So the `ArrayStoreException` that `System.arraycopy` (line 75) throws, after a partial copy, when the buffer's component type cannot hold an element, cannot arise in the model.
- `Data.ImmutableList.constructor`: the `ObjectKit.notNull` check (line 20) is left out. A Dafny array is never null, so that error cannot arise.
- Aliasing: the constructor keeps the caller's array. The model does not describe outside code that writes to that array. Instead, every operation requires `Valid()`, which assumes no outside code has changed the array's slots.
- `Data.ImmutableList.ToList`, `Data.ImmutableList.ListOf`: `CollectionKit.arrayListOf` and `Collection.toArray` are not part of this model. The growable `ArrayList` is a `seq` value, and a collection is the `seq` of its iteration order.
- `Data.ImmutableList.HashCode`: an element's `hashCode` is foreign code. It is a parameter here, so only relations between hash values are proved, not concrete numbers beyond the empty list.
- `Data.ImmutableList.Equals`: `equals(Object)` in the source takes any object. The model takes only a possibly-null `ImmutableList` of the same element type, so the `instanceof` failure for other classes is not modelled.
- Sizes and indices are mathematical integers. The hash is where 32-bit wrap-around shows in results, and there it is modelled with `Wrap`.
- `Data.ImmutableList.Concat`: when `size() + src.size()` exceeds `Integer.MAX_VALUE`, the Java code (lines 94-96) fails while growing its temporary list, and `addAll` throws an `OutOfMemoryError`. The model has no array size limit and returns the concatenation.
- Null arguments: `concat(null)` (line 93), `toArray((T[]) null)` (line 72) and `listOf(null)` (line 119) throw a `NullPointerException` in the source. The model's parameter types are non-null, so these calls cannot be written.
- Thread-safe publication of the shared instance is not modelled.
