/** The arrangement both widget variants keep: an ordered sequence of
    containers, each a header and an ordered list of item slots. This module
    holds what the two variants share: the header lookup, the splice a
    cross-container hover performs, the in-container move of a drop, and the
    facts about them. */
module Arrangements {
  import opened Js

  /** A container as the host describes it (`ContainerDescription`): a header
      and the texts of its items. */
  datatype Description = Description(header: string, items: seq<string>)

  /** A container as the widget holds it. A slot is normally a defined item;
      the cross-container hover can store an `undefined` in one. */
  datatype Container<X> = Container(header: string, items: seq<Maybe<X>>)

  type Arrangement<X> = seq<Container<X>>

  /** Some container carries the header `x`. */
  predicate HasHeader<X>(a: Arrangement<X>, x: string) {
    exists i :: 0 <= i < |a| && a[i].header == x
  }

  /** No slot of `s` is `undefined`. */
  predicate DefinedSlots<X>(s: seq<Maybe<X>>) {
    forall k :: 0 <= k < |s| ==> s[k].Defined?
  }

  /** No slot of any container is `undefined`. */
  predicate AllDefined<X>(a: Arrangement<X>) {
    forall i :: 0 <= i < |a| ==> DefinedSlots(a[i].items)
  }

  /** `b` has as many containers as `a`, the same headers in the same order,
      and the same contents in every container not in `changed`. */
  ghost predicate SameExcept<X>(a: Arrangement<X>, b: Arrangement<X>, changed: set<int>) {
    && |a| == |b|
    && (forall i :: 0 <= i < |a| ==> b[i].header == a[i].header)
    && (forall i :: 0 <= i < |a| && i !in changed ==> b[i] == a[i])
  }

  /** All slots of all containers, container after container. */
  function Flatten<X>(a: Arrangement<X>): seq<Maybe<X>> {
    if |a| == 0 then [] else a[0].items + Flatten(a[1..])
  }

  /** The number of slots in the whole arrangement. */
  function TotalCount<X>(a: Arrangement<X>): nat {
    |Flatten(a)|
  }

  /** `items.findIndex(({header}) => header === x)`: the first container
      whose header is `x`, or -1. */
  function HeaderIndex<X>(a: Arrangement<X>, x: string): (r: int)
    ensures -1 <= r < |a|
    ensures r >= 0 ==> a[r].header == x && forall j :: 0 <= j < r ==> a[j].header != x
    ensures r == -1 <==> !HasHeader(a, x)
  {
    HeaderIndexFrom(a, x, 0)
  }

  /** The search of `HeaderIndex`, resumed at container `i`. */
  function HeaderIndexFrom<X>(a: Arrangement<X>, x: string, i: nat): (r: int)
    requires i <= |a|
    ensures -1 <= r < |a|
    ensures r >= 0 ==> i <= r && a[r].header == x && forall j :: i <= j < r ==> a[j].header != x
    ensures r == -1 <==> forall j :: i <= j < |a| ==> a[j].header != x
    decreases |a| - i
  {
    if i == |a| then -1
    else if a[i].header == x then i
    else HeaderIndexFrom(a, x, i + 1)
  }

  function Min(x: int, y: int): int {
    if x <= y then x else y
  }

  /** `s` without its element at `k`. */
  function RemoveAt<T>(s: seq<T>, k: nat): (r: seq<T>)
    requires k < |s|
    ensures |r| == |s| - 1
    ensures multiset(r) + multiset{s[k]} == multiset(s)
  {
    assert s == s[..k] + [s[k]] + s[k + 1..];
    s[..k] + s[k + 1..]
  }

  /** `s` with `x` inserted so that it lands at position `p`. */
  function InsertAt<T>(s: seq<T>, p: nat, x: T): (r: seq<T>)
    requires p <= |s|
    ensures |r| == |s| + 1 && r[p] == x
    ensures multiset(r) == multiset(s) + multiset{x}
  {
    assert s == s[..p] + s[p..];
    s[..p] + [x] + s[p..]
  }

  /** `arrayMove(s, from, to)` of the drag library, taken to remove the
      element at `from` and insert it again at `to` (an assumption: the
      library's code is not part of this model). */
  function ArrayMove<T>(s: seq<T>, from: nat, to: nat): (r: seq<T>)
    requires from < |s| && to < |s|
    ensures |r| == |s| && r[to] == s[from] && multiset(r) == multiset(s)
  {
    InsertAt(RemoveAt(s, from), to, s[from])
  }

  /** The moved element lands at `to`; the elements between `from` and `to`
      shift by exactly one place toward `from`; everything else stays put,
      and nothing is lost or duplicated. */
  lemma ArrayMoveShifts<T>(s: seq<T>, from: nat, to: nat)
    requires from < |s| && to < |s|
    ensures var r := ArrayMove(s, from, to);
      && |r| == |s| && multiset(r) == multiset(s) && r[to] == s[from]
      && (forall i :: 0 <= i < |s| && i < from && i < to ==> r[i] == s[i])
      && (forall i :: 0 <= i < |s| && from < i && to < i ==> r[i] == s[i])
      && (forall i :: from <= i < to ==> r[i] == s[i + 1])
      && (forall i :: to < i <= from ==> r[i] == s[i - 1])
  {
    var t := RemoveAt(s, from);
    var r := ArrayMove(s, from, to);
    assert forall i :: 0 <= i < |t| ==> t[i] == if i < from then s[i] else s[i + 1];
    assert forall i :: 0 <= i < |r| ==> r[i] == if i < to then t[i] else if i == to then s[from] else t[i - 1];
  }

  /** Moving an element onto its own position changes nothing. */
  lemma ArrayMoveInPlace<T>(s: seq<T>, k: nat)
    requires k < |s|
    ensures ArrayMove(s, k, k) == s
  {
    assert s == s[..k] + [s[k]] + s[k + 1..];
  }

  /** The arrangement a cross-container hover builds: container `src` becomes
      `items.slice(0, k) ++ items.slice(k + 1)`, container `dst` becomes
      `items.slice(0, k) ++ [moved] ++ items.slice(k)` where `moved` is the
      source's `items[k]`, and every other container is kept. Both variants
      pass the active item's index in the SOURCE container as `k`, for the
      target as well, with JavaScript's clamping and negative indices. */
  function HoverMove<X>(a: Arrangement<X>, src: nat, dst: nat, k: int): (b: Arrangement<X>)
    requires src < |a| && dst < |a| && src != dst
    ensures SameExcept(a, b, {src, dst})
  {
    var moved := At(a[src].items, k);
    seq(|a|, i requires 0 <= i < |a| =>
      if i == src then Container(a[i].header, Slice(a[i].items, 0, k) + SliceFrom(a[i].items, k + 1))
      else if i == dst then Container(a[i].header, Slice(a[i].items, 0, k) + [moved] + SliceFrom(a[i].items, k))
      else a[i])
  }

  /** Multiset union cancels on the right. */
  lemma MultisetCancel<T>(x: multiset<T>, y: multiset<T>, z: multiset<T>)
    requires x + z == y + z
    ensures x == y
  {
    assert forall e :: x[e] == (x + z)[e] - z[e] == (y + z)[e] - z[e] == y[e];
  }

  /** If one container gave up `x` and another gained it, and nothing else
      changed, the whole is the same multiset. */
  lemma MovedBetween<T>(whole: multiset<T>, whole': multiset<T>, s: multiset<T>, t: multiset<T>,
                        s': multiset<T>, t': multiset<T>, x: multiset<T>)
    requires whole' + s + t == whole + s' + t'
    requires s' + x == s && t' == t + x
    ensures whole' == whole
  {
    calc {
      whole' + (s + t);
      whole + s' + t';
      whole + (s' + x) + t;
      whole + (s + t);
    }
    MultisetCancel(whole', whole, s + t);
  }

  /** Replacing one container changes the multiset of all slots by exactly
      the old and the new contents of that container. */
  lemma {:induction false} FlattenUpdate<X>(a: Arrangement<X>, i: nat, c: Container<X>)
    requires i < |a|
    ensures multiset(Flatten(a[i := c])) + multiset(a[i].items) == multiset(Flatten(a)) + multiset(c.items)
  {
    var b := a[i := c];
    assert multiset(Flatten(b)) == multiset(b[0].items) + multiset(Flatten(b[1..]));
    assert multiset(Flatten(a)) == multiset(a[0].items) + multiset(Flatten(a[1..]));
    if i == 0 {
      assert b[1..] == a[1..];
    } else {
      assert b[1..] == a[1..][i - 1 := c];
      assert a[1..][i - 1] == a[i];
      FlattenUpdate(a[1..], i - 1, c);
      calc {
        multiset(Flatten(b)) + multiset(a[i].items);
        multiset(a[0].items) + (multiset(Flatten(b[1..])) + multiset(a[i].items));
        multiset(a[0].items) + (multiset(Flatten(a[1..])) + multiset(c.items));
        multiset(Flatten(a)) + multiset(c.items);
      }
    }
  }

  /** The same, for two arrangements that differ in at most two containers. */
  lemma FlattenTwoUpdates<X>(a: Arrangement<X>, b: Arrangement<X>, src: nat, dst: nat)
    requires src < |a| && dst < |a| && src != dst && SameExcept(a, b, {src, dst})
    ensures multiset(Flatten(b)) + multiset(a[src].items) + multiset(a[dst].items)
         == multiset(Flatten(a)) + multiset(b[src].items) + multiset(b[dst].items)
  {
    var a1 := a[src := b[src]];
    assert b == a1[dst := b[dst]];
    assert a1[dst] == a[dst];
    FlattenUpdate(a, src, b[src]);
    FlattenUpdate(a1, dst, b[dst]);
    var mA, mA1, mB := multiset(Flatten(a)), multiset(Flatten(a1)), multiset(Flatten(b));
    var s0, t0, s1, t1 := multiset(a[src].items), multiset(a[dst].items), multiset(b[src].items), multiset(b[dst].items);
    calc {
      mB + s0 + t0;
      (mB + t0) + s0;
      (mA1 + t1) + s0;
      (mA1 + s0) + t1;
      (mA + s1) + t1;
    }
  }

  /** With an index inside the source container, the two slices of the hover
      are a plain removal and a plain insertion at `min(k, |target|)`. */
  lemma HoverMoveSplices<X>(s: seq<Maybe<X>>, t: seq<Maybe<X>>, k: nat)
    requires k < |s|
    ensures Slice(s, 0, k) + SliceFrom(s, k + 1) == RemoveAt(s, k)
    ensures Slice(t, 0, k) + [At(s, k)] + SliceFrom(t, k) == InsertAt(t, Min(k, |t|), s[k])
  {
    SliceInRange(s, 0, k);
    SliceInRange(s, k + 1, |s|);
    if k <= |t| {
      SliceInRange(t, 0, k);
      SliceInRange(t, k, |t|);
    } else {
      SliceClamped(t, 0, k);
      assert SliceFrom(t, k) == [];
    }
  }

  /** When the source container holds an element at `k`: the source loses
      exactly that element, the target gains it at `min(k, |target|)`, and the
      arrangement as a whole holds the same slots as before. */
  lemma HoverMoveFound<X>(a: Arrangement<X>, src: nat, dst: nat, k: nat)
    requires src < |a| && dst < |a| && src != dst && k < |a[src].items|
    ensures var b := HoverMove(a, src, dst, k);
      && b[src].items == RemoveAt(a[src].items, k)
      && b[dst].items == InsertAt(a[dst].items, Min(k, |a[dst].items|), a[src].items[k])
      && multiset(Flatten(b)) == multiset(Flatten(a))
      && TotalCount(b) == TotalCount(a)
  {
    var s, t := a[src].items, a[dst].items;
    var b := HoverMove(a, src, dst, k);
    HoverMoveSplices(s, t, k);
    FlattenTwoUpdates(a, b, src, dst);
    MovedBetween(multiset(Flatten(a)), multiset(Flatten(b)), multiset(s), multiset(t),
                 multiset(b[src].items), multiset(b[dst].items), multiset{s[k]});
    assert |multiset(Flatten(b))| == |multiset(Flatten(a))|;
  }

  /** `s` without its last element (empty when `s` is). */
  function DropLast<T>(s: seq<T>): (r: seq<T>)
    ensures |s| > 0 ==> |r| == |s| - 1 && r + [s[|s| - 1]] == s
    ensures |s| == 0 ==> r == []
  {
    if |s| == 0 then [] else s[..|s| - 1]
  }

  /** The last element of `s` alone (empty when `s` is). */
  function LastOf<T>(s: seq<T>): (r: seq<T>)
    ensures DropLast(s) + r == s
  {
    if |s| == 0 then [] else [s[|s| - 1]]
  }

  /** When the index is -1 (the source's `indexOf` found nothing): the source
      becomes all but its last slot followed by all of it again, and the
      target gets an `undefined` slot just before its last element. */
  lemma HoverMoveNotFound<X>(a: Arrangement<X>, src: nat, dst: nat)
    requires src < |a| && dst < |a| && src != dst
    ensures var b := HoverMove(a, src, dst, -1);
      && b[src].items == DropLast(a[src].items) + a[src].items
      && b[dst].items == DropLast(a[dst].items) + [Undefined] + LastOf(a[dst].items)
      && Undefined in b[dst].items
      && TotalCount(b) == TotalCount(a) + |DropLast(a[src].items)| + 1
  {
    var s, t := a[src].items, a[dst].items;
    var b := HoverMove(a, src, dst, -1);
    SliceDropLast(s);
    SliceDropLast(t);
    SliceLast(t);
    assert SliceFrom(s, 0) == s;
    var c1 := Container(a[src].header, DropLast(s) + s);
    var c2 := Container(a[dst].header, DropLast(t) + [Undefined] + LastOf(t));
    assert b[src] == c1 && b[dst] == c2;
    assert b[dst].items[|DropLast(t)|] == Undefined;
    FlattenTwoUpdates(a, b, src, dst);
    var mA, mB := multiset(Flatten(a)), multiset(Flatten(b));
    var s0, t0, s1, t1 := multiset(s), multiset(t), multiset(c1.items), multiset(c2.items);
    assert |mB + s0 + t0| == |mB| + |s| + |t|;
    assert |mA + s1 + t1| == |mA| + |c1.items| + |c2.items|;
  }

  /** The arrangement a same-container drop builds: container `c` has its
      element at `from` moved to `to`; every other container is kept. */
  function MoveWithin<X>(a: Arrangement<X>, c: nat, from: nat, to: nat): (b: Arrangement<X>)
    requires c < |a| && from < |a[c].items| && to < |a[c].items|
    ensures SameExcept(a, b, {c})
  {
    seq(|a|, i requires 0 <= i < |a| =>
      if i == c then Container(a[i].header, ArrayMove(a[i].items, from, to)) else a[i])
  }

  /** A same-container drop keeps that container's length and the slots of
      the whole arrangement; dropping an element onto its own index changes
      nothing at all. */
  lemma MoveWithinKeepsSlots<X>(a: Arrangement<X>, c: nat, from: nat, to: nat)
    requires c < |a| && from < |a[c].items| && to < |a[c].items|
    ensures var b := MoveWithin(a, c, from, to);
      && |b[c].items| == |a[c].items|
      && multiset(Flatten(b)) == multiset(Flatten(a))
      && (from == to ==> b == a)
  {
    var b := MoveWithin(a, c, from, to);
    var m := Container(a[c].header, ArrayMove(a[c].items, from, to));
    ArrayMoveShifts(a[c].items, from, to);
    assert b == a[c := m];
    FlattenUpdate(a, c, m);
    MultisetCancel(multiset(Flatten(b)), multiset(Flatten(a)), multiset(a[c].items));
    if from == to {
      ArrayMoveInPlace(a[c].items, from);
      assert a[c := m] == a;
    }
  }

  /** A same-container drop keeps every container's length, and keeps an
      arrangement free of `undefined` slots. */
  lemma MoveWithinKeepsShape<X>(a: Arrangement<X>, c: nat, from: nat, to: nat)
    requires c < |a| && from < |a[c].items| && to < |a[c].items|
    ensures var b := MoveWithin(a, c, from, to);
      && (forall i :: 0 <= i < |a| ==> |b[i].items| == |a[i].items|)
      && (AllDefined(a) ==> AllDefined(b))
  {
    var b := MoveWithin(a, c, from, to);
    ArrayMoveShifts(a[c].items, from, to);
    if AllDefined(a) {
      forall k | 0 <= k < |b[c].items| ensures b[c].items[k].Defined? {
        assert b[c].items[k] in multiset(a[c].items);
      }
    }
  }
}
