/**
 * Value-level specification of the immutable list: the exceptions it can throw,
 * the linear search behind `indexOf`, the checks of `subList`, and the element
 * hash that `hashCode` folds over the backing array. The class in module `Data`
 * is proved against these functions; the lemmas here state what they mean.
 */
module ListSpec {
  import opened Wrappers
  import opened JavaInt

  /** The Java exceptions the list and its iterator can throw. */
  datatype Error =
    | IndexOutOfBounds        // get out of range, subList bounds outside [0, size]
    | IllegalArgument         // subList with from > to
    | NoSuchElement           // next() on an exhausted iterator
    | ConcurrentModification  // next() past the end of the captured backing array
    | UnsupportedOperation    // remove() on the iterator

  // ---------------------------------------------------------------------------
  // Linear search
  // ---------------------------------------------------------------------------

  /** The index of the first slot of `s` equal to `x`, or -1 when there is none. */
  function FirstIndex<E(==)>(s: seq<E>, x: E): (r: int)
    ensures -1 <= r < |s|
  {
    if s == [] then -1
    else if s[0] == x then 0
    else
      var k := FirstIndex(s[1..], x);
      if k < 0 then -1 else k + 1
  }

  /** `FirstIndex` is -1 exactly when `x` is absent, and otherwise the smallest matching index. */
  lemma {:induction false} FirstIndexIsFirstMatch<E>(s: seq<E>, x: E)
    ensures FirstIndex(s, x) == -1 <==> x !in s
    ensures FirstIndex(s, x) >= 0 ==> s[FirstIndex(s, x)] == x
    ensures forall j :: 0 <= j < FirstIndex(s, x) ==> s[j] != x
  {
    if s != [] && s[0] != x {
      FirstIndexIsFirstMatch(s[1..], x);
      assert s == [s[0]] + s[1..];
      forall j | 0 < j < FirstIndex(s, x) ensures s[j] != x {
        assert s[j] == s[1..][j - 1];
      }
    }
  }

  /** Conversely, the first match determines `FirstIndex`. */
  lemma {:induction false} FirstIndexOfFirstMatch<E>(s: seq<E>, x: E, i: int)
    requires 0 <= i < |s| && s[i] == x
    requires forall j :: 0 <= j < i ==> s[j] != x
    ensures FirstIndex(s, x) == i
  {
    FirstIndexIsFirstMatch(s, x);
  }

  /** Searching a concatenation finds the left operand's match first. */
  lemma {:induction false} FirstIndexConcat<E>(a: seq<E>, b: seq<E>, x: E)
    ensures FirstIndex(a + b, x) ==
      if x in a then FirstIndex(a, x)
      else if x in b then |a| + FirstIndex(b, x)
      else -1
  {
    FirstIndexIsFirstMatch(a, x);
    FirstIndexIsFirstMatch(b, x);
    FirstIndexIsFirstMatch(a + b, x);
    if x in a {
      FirstIndexOfFirstMatch(a + b, x, FirstIndex(a, x));
    } else if x in b {
      var k := FirstIndex(b, x);
      forall j | 0 <= j < |a| + k ensures (a + b)[j] != x {
        if j >= |a| { assert (a + b)[j] == b[j - |a|]; }
      }
      FirstIndexOfFirstMatch(a + b, x, |a| + k);
    } else {
      assert x !in a + b;
    }
  }

  // ---------------------------------------------------------------------------
  // subList
  // ---------------------------------------------------------------------------

  /**
   * The contents `subList(from, to)` returns on a list holding `s`, or the exception
   * it throws. The checks come in the source's order: equal bounds give the empty
   * list without a bounds check, reversed bounds throw, an empty receiver gives the
   * empty list whatever the bounds, and only then are the bounds checked against the
   * size (the check `java.util.ArrayList.subList` makes).
   */
  function SubListOf<E>(s: seq<E>, from: int, to: int): Result<seq<E>, Error>
  {
    if from == to then Success([])
    else if from > to then Failure(IllegalArgument)
    else if |s| != 0 then
      if 0 <= from && to <= |s| then Success(s[from..to]) else Failure(IndexOutOfBounds)
    else Success([])
  }

  /** Exactly when `subList` succeeds, and what it throws otherwise. */
  lemma SubListOutcome<E>(s: seq<E>, from: int, to: int)
    ensures SubListOf(s, from, to).Success? <==>
      from == to || (from < to && (s == [] || (0 <= from && to <= |s|)))
    ensures SubListOf(s, from, to).Failure? ==>
      SubListOf(s, from, to).error == (if from > to then IllegalArgument else IndexOutOfBounds)
  {
  }

  /** On bounds `0 <= from <= to <= |s|` every branch agrees with slicing. */
  lemma SubListIsSlice<E>(s: seq<E>, from: int, to: int)
    requires 0 <= from <= to <= |s|
    ensures SubListOf(s, from, to) == Success(s[from..to])
    ensures |SubListOf(s, from, to).value| == to - from
  {
    if from == to || s == [] {
      assert s[from..to] == [];
    }
  }

  /** Bounds that are not checked: equal bounds, or any ordered bounds on an empty list. */
  lemma SubListUncheckedBounds<E>(s: seq<E>, from: int, to: int)
    requires from == to || (s == [] && from < to)
    ensures SubListOf(s, from, to) == Success([])
  {
  }

  /** Splitting a range at any inner point and concatenating the parts gives the whole range back. */
  lemma SubListSplit<E>(s: seq<E>, i: int, j: int, k: int)
    requires 0 <= i <= j <= k <= |s|
    ensures SubListOf(s, i, j).Success? && SubListOf(s, j, k).Success?
    ensures SubListOf(s, i, j).value + SubListOf(s, j, k).value == SubListOf(s, i, k).value
  {
    SubListIsSlice(s, i, j);
    SubListIsSlice(s, j, k);
    SubListIsSlice(s, i, k);
    assert s[i..j] + s[j..k] == s[i..k];
  }

  /** The two operands of a concatenation are recovered by `subList`. */
  lemma SubListOfConcat<E>(a: seq<E>, b: seq<E>)
    ensures SubListOf(a + b, 0, |a|) == Success(a)
    ensures SubListOf(a + b, |a|, |a| + |b|) == Success(b)
  {
    SubListIsSlice(a + b, 0, |a|);
    SubListIsSlice(a + b, |a|, |a| + |b|);
    assert (a + b)[0..|a|] == a;
    assert (a + b)[|a|..|a| + |b|] == b;
  }

  // ---------------------------------------------------------------------------
  // Hashing
  // ---------------------------------------------------------------------------

  /** The hash Java uses for one slot: 0 for null, the element's own hash otherwise. */
  function ElementHash<E>(e: Option<E>, hash: E -> Int32): Int32
  {
    match e
    case None => 0
    case Some(v) => hash(v)
  }

  /**
   * The loop of `java.util.Arrays.hashCode` from accumulator `acc`: each slot, front
   * to back, turns the accumulator into `31 * acc + hash(slot)`, in 32-bit arithmetic.
   */
  function HashFold<E>(acc: Int32, s: seq<Option<E>>, hash: E -> Int32): Int32
    decreases |s|
  {
    if s == [] then acc
    else HashFold(Wrap(31 * acc + ElementHash(s[0], hash)), s[1..], hash)
  }

  /** `java.util.Arrays.hashCode` of the slots: the loop started from 1. */
  function ArrayHash<E>(s: seq<Option<E>>, hash: E -> Int32): Int32
  {
    HashFold(1, s, hash)
  }

  /** The list hash, `31 * Arrays.hashCode(slots) + size`, in 32-bit arithmetic. */
  function ListHash<E>(s: seq<Option<E>>, hash: E -> Int32): Int32
  {
    Wrap(31 * ArrayHash(s, hash) + |s|)
  }

  /** The empty list hashes to 31, whatever the element hash. */
  lemma EmptyListHash<E>(hash: E -> Int32)
    ensures ListHash([], hash) == 31
  {
  }

  /** Running the loop one slot further folds that slot into the value reached so far. */
  lemma {:induction false} HashFoldAppend<E>(acc: Int32, s: seq<Option<E>>, e: Option<E>, hash: E -> Int32)
    ensures HashFold(acc, s + [e], hash) == Wrap(31 * HashFold(acc, s, hash) + ElementHash(e, hash))
    decreases |s|
  {
    if s == [] {
      assert [e][1..] == [];
    } else {
      assert (s + [e])[1..] == s[1..] + [e];
      HashFoldAppend(Wrap(31 * acc + ElementHash(s[0], hash)), s[1..], e, hash);
    }
  }

  /** Appending a slot folds its hash into the value of `Arrays.hashCode`. */
  lemma ArrayHashAppend<E>(s: seq<Option<E>>, e: Option<E>, hash: E -> Int32)
    ensures ArrayHash(s + [e], hash) == Wrap(31 * ArrayHash(s, hash) + ElementHash(e, hash))
  {
    HashFoldAppend(1, s, e, hash);
  }
}
