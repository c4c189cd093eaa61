/** The few pieces of JavaScript array semantics the drag handlers rely on:
    values that may be `undefined`, evaluations that may throw, element access,
    `Array.prototype.slice` with negative or out-of-range indices, and
    `Array.prototype.indexOf`. */
module Js {

  /** An optional event field, absent as `null` (a drag event's `over`). */
  datatype Option<T> = None | Some(value: T)

  /** What a JavaScript array element holds once read: a defined value, or
      `undefined` (a read outside the array, or an `undefined` stored in it). */
  datatype Maybe<T> = Undefined | Defined(value: T)

  /** How an evaluation completes: with a value, or by throwing a TypeError
      (reading a property of `undefined`). */
  datatype Completion<T> = Normal(value: T) | Thrown

  /** `arr[i]` on an array of slots: the slot at `i`, or `undefined` when `i`
      is outside the array. A negative `i` is an ordinary property name in
      JavaScript, so `arr[-1]` is `undefined`, not the last element. */
  function At<T>(s: seq<Maybe<T>>, i: int): (r: Maybe<T>)
    ensures r.Defined? ==> 0 <= i < |s| && r == s[i]
    ensures 0 <= i < |s| ==> r == s[i]
  {
    if 0 <= i < |s| then s[i] else Undefined
  }

  /** Where `slice` starts or stops for the relative index `i` on an array of
      length `len`: a negative index counts back from the end, and the result
      is clamped to `0..len`. */
  function SlicePoint(i: int, len: nat): (p: nat)
    ensures p <= len
  {
    if i < 0 then (if len + i < 0 then 0 else len + i)
    else if i < len then i else len
  }

  /** `s.slice(start, end)`. */
  function Slice<T>(s: seq<T>, start: int, end: int): (r: seq<T>)
    ensures |r| <= |s|
    ensures var from, to := SlicePoint(start, |s|), SlicePoint(end, |s|);
      && |r| == (if from < to then to - from else 0)
      && forall i :: 0 <= i < |r| ==> r[i] == s[from + i]
  {
    var from, to := SlicePoint(start, |s|), SlicePoint(end, |s|);
    if from < to then s[from..to] else []
  }

  /** `s.slice(start)`. */
  function SliceFrom<T>(s: seq<T>, start: int): (r: seq<T>)
    ensures |r| <= |s|
    ensures r == s[SlicePoint(start, |s|)..]
  {
    Slice(s, start, |s|)
  }

  /** Without negative or overlong indices, `slice` is a plain subsequence. */
  lemma SliceInRange<T>(s: seq<T>, start: int, end: int)
    requires 0 <= start <= end <= |s|
    ensures Slice(s, start, end) == s[start..end]
  {
  }

  /** An index past the end is clamped: `s.slice(0, k)` is all of `s`. */
  lemma SliceClamped<T>(s: seq<T>, start: int, end: int)
    requires 0 <= start && |s| <= end
    ensures Slice(s, start, end) == if start < |s| then s[start..] else []
  {
  }

  /** `s.slice(0, -1)` drops the last element, and is empty for an empty `s`. */
  lemma SliceDropLast<T>(s: seq<T>)
    ensures Slice(s, 0, -1) == if |s| == 0 then [] else s[..|s| - 1]
  {
  }

  /** `s.slice(-1)` keeps only the last element, and is empty for an empty `s`. */
  lemma SliceLast<T>(s: seq<T>)
    ensures SliceFrom(s, -1) == if |s| == 0 then [] else [s[|s| - 1]]
  {
  }

  /** `s.indexOf(x)`: the first position holding `x` (strict equality), or -1. */
  function IndexOf<T(==)>(s: seq<T>, x: T): (r: int)
    ensures -1 <= r < |s|
    ensures r >= 0 ==> s[r] == x && x !in s[..r]
    ensures r == -1 <==> x !in s
  {
    var r := IndexOfFrom(s, x, 0);
    assert r >= 0 ==> s[..r] == s[0..r] && forall y :: y in s[..r] ==> y != x;
    r
  }

  /** The search of `IndexOf`, resumed at position `i`. */
  function IndexOfFrom<T(==)>(s: seq<T>, x: T, i: nat): (r: int)
    requires i <= |s|
    ensures -1 <= r < |s|
    ensures r >= 0 ==> i <= r && s[r] == x && forall j :: i <= j < r ==> s[j] != x
    ensures r == -1 <==> forall j :: i <= j < |s| ==> s[j] != x
    decreases |s| - i
  {
    if i == |s| then -1
    else if s[i] == x then i
    else IndexOfFrom(s, x, i + 1)
  }
}
