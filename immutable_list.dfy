/**
 * `ImmutableList<E>`: a fixed-size, read-only list over a backing array, and its
 * forward-only iterator `Itr`. A Java `null` element is `None`; element `equals`
 * is Dafny equality.
 */
module Data {
  import opened Wrappers
  import opened JavaInt
  import opened ListSpec

  /** Allocates an array holding exactly the slots `s`. */
  method NewArray<T>(s: seq<Option<T>>) returns (a: array<Option<T>>)
    ensures fresh(a) && a[..] == s
  {
    a := new Option<T>[|s|](i requires 0 <= i < |s| => s[i]);
  }

  class ImmutableList<T(==)> {
    /** The backing array; it is the caller's array when built by the constructor. */
    const elementData: array<Option<T>>
    /** The size cached at construction. */
    const size: nat
    /** The list's contents, fixed at construction. */
    ghost const Contents: seq<Option<T>>

    /**
     * The backing array still holds the contents and its length is the cached size.
     * Every operation requires it: nobody else may write to the array the list wraps.
     */
    ghost predicate Valid()
      reads elementData
    {
      size == elementData.Length && elementData[..] == Contents
    }

    /** Wraps `data` without copying it. */
    constructor (data: array<Option<T>>)
      ensures elementData == data && Valid()
      ensures Contents == data[..] && size == data.Length
    {
      elementData := data;
      size := data.Length;
      Contents := data[..];
    }

    /** A list with no elements (the source shares one such instance). */
    constructor Empty()
      ensures fresh(elementData) && Valid() && Contents == []
    {
      elementData := new Option<T>[0];
      size := 0;
      Contents := [];
    }

    /** A list holding the elements of a collection, in its iteration order. */
    static method ListOf(data: seq<Option<T>>) returns (l: ImmutableList<T>)
      ensures fresh(l) && fresh(l.elementData) && l.Valid() && l.Contents == data
    {
      var slots := NewArray(data);
      l := new ImmutableList(slots);
    }

    function Get(position: int): (r: Result<Option<T>, Error>)
      reads elementData
      requires Valid()
      ensures r.Success? <==> 0 <= position < |Contents|
      ensures r.Success? ==> r.value == Contents[position]
      ensures r.Failure? ==> r.error == IndexOutOfBounds
    {
      if 0 <= position < elementData.Length then Success(elementData[position])
      else Failure(IndexOutOfBounds)
    }

    function Size(): (n: nat)
      reads elementData
      requires Valid()
      ensures n == |Contents|
    {
      elementData.Length
    }

    predicate IsEmpty()
      reads elementData
      requires Valid()
      ensures IsEmpty() <==> Contents == []
    {
      0 == size
    }

    predicate IsNotEmpty()
      reads elementData
      requires Valid()
      ensures IsNotEmpty() <==> |Contents| > 0
    {
      !IsEmpty()
    }

    /** Linear search from the front; a null `o` matches the first null slot. */
    method IndexOf(o: Option<T>) returns (r: int)
      requires Valid()
      ensures r == FirstIndex(Contents, o)
      ensures -1 <= r < |Contents|
      ensures r == -1 <==> o !in Contents
      ensures r >= 0 ==> Contents[r] == o && forall j :: 0 <= j < r ==> Contents[j] != o
    {
      FirstIndexIsFirstMatch(Contents, o);
      if o.None? {
        for i := 0 to size
          invariant forall j :: 0 <= j < i ==> Contents[j] != None
        {
          if elementData[i].None? {
            FirstIndexOfFirstMatch(Contents, o, i);
            return i;
          }
        }
      } else {
        for i := 0 to size
          invariant forall j :: 0 <= j < i ==> Contents[j] != o
        {
          var slot := elementData[i];
          if slot.Some? && o.value == slot.value {
            FirstIndexOfFirstMatch(Contents, o, i);
            return i;
          }
        }
      }
      return -1;
    }

    method Contains(o: Option<T>) returns (b: bool)
      requires Valid()
      ensures b <==> o in Contents
    {
      var i := IndexOf(o);
      b := i >= 0;
    }

    /** The elements as a new growable list; a `seq` value shares nothing with the list. */
    function ToList(): (l: seq<Option<T>>)
      reads elementData
      requires Valid()
      ensures l == Contents
    {
      elementData[..]
    }

    /** A fresh copy of the backing array. */
    method ToArray() returns (a: array<Option<T>>)
      requires Valid()
      ensures fresh(a) && a[..] == Contents
    {
      a := NewArray(elementData[..]);
    }

    /**
     * Copies the elements into `buffer` when it is long enough, writing a null
     * just after them when there is room, and returns `buffer`; otherwise returns
     * a fresh copy and leaves `buffer` alone.
     */
    method ToArrayInto(buffer: array<Option<T>>) returns (r: array<Option<T>>)
      requires Valid()
      modifies buffer
      ensures Valid()
      ensures buffer.Length < |Contents| ==>
        fresh(r) && r[..] == Contents && buffer[..] == old(buffer[..])
      ensures buffer.Length >= |Contents| ==> r == buffer && r[..|Contents|] == Contents
      ensures buffer.Length > |Contents| ==>
        r[|Contents|] == None && r[|Contents| + 1..] == old(buffer[|Contents| + 1..])
    {
      if buffer.Length < size {
        r := NewArray(elementData[..]);
        return;
      }
      forall i | 0 <= i < size {
        buffer[i] := elementData[i];
      }
      if buffer.Length > size {
        buffer[size] := None;
      }
      r := buffer;
    }

    /** A new list over a fresh copy of the backing array. */
    method Clone() returns (c: ImmutableList<T>)
      requires Valid()
      ensures fresh(c) && fresh(c.elementData) && c.Valid()
      ensures c.Contents == Contents && c.Equals(this)
    {
      var copy := NewArray(elementData[..]);
      c := new ImmutableList(copy);
    }

    /** This list followed by `src`; the receiver itself when `src` is empty. */
    method Concat(src: ImmutableList<T>) returns (r: ImmutableList<T>)
      requires Valid() && src.Valid()
      ensures r.Valid() && r.Contents == Contents + src.Contents
      ensures src.Contents == [] ==> r == this
      ensures src.Contents != [] ==> fresh(r) && fresh(r.elementData)
    {
      if src.IsNotEmpty() {
        r := ListOf(elementData[..] + src.elementData[..]);
      } else {
        r := this;
      }
    }

    /** The elements in `[from, to)`, with the checks `SubListOf` describes. */
    method SubList(from: int, to: int) returns (r: Result<ImmutableList<T>, Error>)
      requires Valid()
      ensures r.Failure? == SubListOf(Contents, from, to).Failure?
      ensures r.Failure? ==> r.error == SubListOf(Contents, from, to).error
      ensures r.Success? ==>
        fresh(r.value) && fresh(r.value.elementData) && r.value.Valid()
        && r.value.Contents == SubListOf(Contents, from, to).value
    {
      if from == to {
        var empty := new ImmutableList<T>.Empty();
        return Success(empty);
      } else if from > to {
        return Failure(IllegalArgument);
      }
      if IsNotEmpty() {
        if from < 0 || to > size {
          return Failure(IndexOutOfBounds);
        }
        var l := ListOf(elementData[from..to]);
        return Success(l);
      } else {
        var empty := new ImmutableList<T>.Empty();
        return Success(empty);
      }
    }

    /** Value equality: same size and the same slots in the same order. A null `that` is unequal. */
    predicate Equals(that: ImmutableList?<T>)
      reads elementData, if that == null then {} else {that.elementData}
      requires Valid() && (that != null ==> that.Valid())
      ensures Equals(that) <==> that != null && Contents == that.Contents
    {
      this == that
      || (that != null && size == that.size && elementData[..] == that.elementData[..])
    }

    /** `31 * Arrays.hashCode(elementData) + size`, given the elements' own hash. */
    function HashCode(hash: T -> Int32): (h: Int32)
      reads elementData
      requires Valid()
      ensures h == ListHash(Contents, hash)
    {
      Wrap(31 * ArrayHash(elementData[..], hash) + size)
    }

    /** A fresh iterator positioned before the first element. */
    method Iterator() returns (it: Itr<T>)
      requires Valid()
      ensures fresh(it) && it.Valid() && it.list == this
      ensures it.cursor == 0 && it.lastRet == -1 && it.Yielded == []
    {
      it := new Itr(this);
    }
  }

  /** Equality is reflexive, symmetric and transitive. */
  lemma EqualsIsEquivalence<T>(a: ImmutableList<T>, b: ImmutableList<T>, c: ImmutableList<T>)
    requires a.Valid() && b.Valid() && c.Valid()
    ensures a.Equals(a)
    ensures a.Equals(b) ==> b.Equals(a)
    ensures a.Equals(b) && b.Equals(c) ==> a.Equals(c)
  {
  }

  /** Equal lists have equal hash codes. */
  lemma EqualListsHashEqually<T>(a: ImmutableList<T>, b: ImmutableList<T>, hash: T -> Int32)
    requires a.Valid() && b.Valid()
    requires a.Equals(b)
    ensures a.HashCode(hash) == b.HashCode(hash)
  {
  }

  /**
   * What a for-each loop over the list sees: `hasNext`/`next` yield every element
   * exactly once, in order, and a further `next` throws `NoSuchElement`.
   */
  method ForEach<T>(l: ImmutableList<T>) returns (out: seq<Option<T>>, after: Result<Option<T>, Error>)
    requires l.Valid()
    ensures out == l.Contents
    ensures after == Failure(NoSuchElement)
  {
    var it := l.Iterator();
    out := [];
    while it.HasNext()
      invariant fresh(it) && it.list == l && it.Valid()
      invariant out == it.Yielded
      decreases |l.Contents| - it.cursor
    {
      var r := it.Next();
      out := out + [r.value];
    }
    after := it.Next();
  }

  /** The forward-only iterator over an immutable list. */
  class Itr<T(==)> {
    const list: ImmutableList<T>
    /** Index of the next element to return. */
    var cursor: int
    /** Index of the element returned last, -1 before the first. */
    var lastRet: int
    /** The elements `Next` has returned so far, in the order it returned them. */
    ghost var Yielded: seq<Option<T>>

    /** The cursor stays within the list, and what was returned is the list up to it. */
    ghost predicate Valid()
      reads this, list.elementData
    {
      && list.Valid()
      && 0 <= cursor <= list.size
      && lastRet == cursor - 1
      && Yielded == list.Contents[..cursor]
    }

    constructor (list: ImmutableList<T>)
      requires list.Valid()
      ensures Valid() && this.list == list && cursor == 0 && lastRet == -1 && Yielded == []
    {
      this.list := list;
      cursor := 0;
      lastRet := -1;
      Yielded := [];
    }

    predicate HasNext()
      reads this, list.elementData
      requires Valid()
      ensures HasNext() <==> cursor < |list.Contents|
      ensures !HasNext() ==> Yielded == list.Contents
    {
      cursor != list.size
    }

    /**
     * Returns the element under the cursor and advances past it, or throws
     * `NoSuchElement` when every element has been returned.
     */
    method Next() returns (r: Result<Option<T>, Error>)
      requires Valid()
      modifies this
      ensures Valid()
      ensures old(cursor) < |list.Contents| ==>
        r == Success(list.Contents[old(cursor)]) && cursor == old(cursor) + 1 && lastRet == old(cursor)
      ensures old(cursor) >= |list.Contents| ==>
        r == Failure(NoSuchElement) && cursor == old(cursor) && lastRet == old(lastRet)
      ensures Yielded == if r.Success? then old(Yielded) + [r.value] else old(Yielded)
    {
      var i := cursor;
      if i >= list.size {
        return Failure(NoSuchElement);
      }
      var elementData := list.elementData;
      if i >= elementData.Length {
        // The size is the backing array's length, so this branch is never taken.
        assert false;
        return Failure(ConcurrentModification);
      }
      cursor := i + 1;
      lastRet := i;
      r := Success(elementData[i]);
      Yielded := Yielded + [elementData[i]];
    }

    /** Removal through the iterator is never supported. */
    method Remove() returns (e: Error)
      ensures e == UnsupportedOperation
    {
      e := UnsupportedOperation;
    }
  }
}
