/** The id-keyed variant of the widget (streamlit_sortables): each item is an
    `{id, text}` record whose id is its decimal index inside its own
    container, and a drop is reported to the host only when `isSameOrder`
    says the order of ids changed since the drag started. The component keeps
    the same three fields as the text-keyed variant: `items`, `clonedItems`
    and `activeItem`. */
module Sortables {
  import opened Js
  import opened Arrangements

  datatype Item = Item(id: string, text: string)

  /** `activeItem`: `{id: null, text: null}` between drags, the event's
      `active.id` and `active.text` during one. */
  datatype ActiveItem = Idle | Dragging(id: string, text: Maybe<string>)

  /** The three component fields, as one value. */
  datatype Session = Session(items: Arrangement<Item>, clonedItems: Arrangement<Item>, activeItem: ActiveItem)

  /** What the drop handler leaves behind: the new `items`, the value handed
      to the host (if any), and whether the handler threw. */
  datatype EndStep = EndStep(items: Arrangement<Item>, sent: Option<seq<Description>>, thrown: bool)

  /** One `onDragOver` event: the active item's id and the (optional) target. */
  datatype Hover = Hover(active: string, over: Option<string>)

  /** The character of a decimal digit. */
  function Digit(d: nat): (c: char)
    requires d < 10
    ensures c as int == 48 + d
  {
    (48 + d) as char
  }

  /** `n.toString()` for a non-negative integer: its decimal digits. */
  function DecimalString(n: nat): (s: string)
    ensures |s| >= 1 && (n >= 10 ==> |s| >= 2)
  {
    if n < 10 then [Digit(n)] else DecimalString(n / 10) + [Digit(n % 10)]
  }

  /** Different indices get different ids. */
  lemma {:induction false} DecimalStringInjective(n: nat, m: nat)
    requires DecimalString(n) == DecimalString(m)
    ensures n == m
  {
    var s, t := DecimalString(n), DecimalString(m);
    if n < 10 && m < 10 {
      assert s[0] == t[0];
    } else if n >= 10 && m >= 10 {
      assert s[..|s| - 1] == DecimalString(n / 10);
      assert t[..|t| - 1] == DecimalString(m / 10);
      DecimalStringInjective(n / 10, m / 10);
      assert s[|s| - 1] == t[|t| - 1];
    }
  }

  /** One container's texts, each paired with its index as id. */
  function Numbered(texts: seq<string>): (s: seq<Maybe<Item>>)
    ensures |s| == |texts| && DefinedSlots(s)
    ensures forall j :: 0 <= j < |texts| ==> s[j] == Defined(Item(DecimalString(j), texts[j]))
  {
    seq(|texts|, j requires 0 <= j < |texts| => Defined(Item(DecimalString(j), texts[j])))
  }

  /** `itemsWithIds`: the host's containers, each item given the id of its
      index inside its own container. */
  function WithIds(props: seq<Description>): (a: Arrangement<Item>)
    ensures |a| == |props| && AllDefined(a)
  {
    seq(|props|, i requires 0 <= i < |props| => Container(props[i].header, Numbered(props[i].items)))
  }

  /** Ids are distinct inside a container. */
  lemma WithIdsDistinctWithin(props: seq<Description>, i: nat, j: nat, k: nat)
    requires i < |props| && j < |props[i].items| && k < |props[i].items| && j != k
    ensures WithIds(props)[i].items[j].value.id != WithIds(props)[i].items[k].value.id
  {
    if DecimalString(j) == DecimalString(k) {
      DecimalStringInjective(j, k);
    }
  }

  /** Ids repeat across containers: the items at the same index of two
      containers have the same id. */
  lemma WithIdsRepeatAcross(props: seq<Description>, i1: nat, i2: nat, k: nat)
    requires i1 < |props| && i2 < |props| && k < |props[i1].items| && k < |props[i2].items|
    ensures WithIds(props)[i1].items[k].value.id == WithIds(props)[i2].items[k].value.id == DecimalString(k)
  {
  }

  /** The slot holds a defined item whose id is `id`. */
  predicate HoldsId(slot: Maybe<Item>, id: string) {
    slot.Defined? && slot.value.id == id
  }

  /** Some slot of `s` holds an item with id `id`. */
  predicate HasId(s: seq<Maybe<Item>>, id: string) {
    exists k :: 0 <= k < |s| && HoldsId(s[k], id)
  }

  /** `s.findIndex(item => item.id === id)`, resumed at slot `j`: the first
      slot holding `id`, or -1; it throws on an `undefined` slot reached
      before a match. */
  function IdIndexFrom(s: seq<Maybe<Item>>, id: string, j: nat): (r: Completion<int>)
    requires j <= |s|
    ensures r.Normal? ==> -1 <= r.value < |s|
    ensures r.Normal? && r.value >= 0 ==>
      j <= r.value && HoldsId(s[r.value], id) && forall m :: j <= m < r.value ==> s[m].Defined? && !HoldsId(s[m], id)
    ensures r == Normal(-1) ==> forall m :: j <= m < |s| ==> s[m].Defined? && !HoldsId(s[m], id)
    ensures r == Thrown ==> exists m :: j <= m < |s| && s[m].Undefined?
    decreases |s| - j
  {
    if j == |s| then Normal(-1)
    else match s[j]
      case Undefined => Thrown
      case Defined(item) => if item.id == id then Normal(j) else IdIndexFrom(s, id, j + 1)
  }

  function IdIndex(s: seq<Maybe<Item>>, id: string): (r: Completion<int>)
    ensures r.Normal? ==> -1 <= r.value < |s|
    ensures DefinedSlots(s) ==> r.Normal?
    ensures r.Normal? && r.value >= 0 ==> HoldsId(s[r.value], id) && forall m :: 0 <= m < r.value ==> !HoldsId(s[m], id)
    ensures r == Normal(-1) ==> !HasId(s, id)
  {
    IdIndexFrom(s, id, 0)
  }

  /** `s.some(x => x.id === id)`: it visits the slots in the same order as
      `findIndex` and stops at the same place. */
  function SomeHasId(s: seq<Maybe<Item>>, id: string): (r: Completion<bool>)
    ensures r == Normal(true) ==> HasId(s, id)
    ensures r == Normal(false) ==> !HasId(s, id)
    ensures r == Thrown ==> !DefinedSlots(s)
  {
    match IdIndex(s, id)
    case Thrown => Thrown
    case Normal(k) => Normal(k >= 0)
  }

  /** `items.findIndex(({items}) => items.some(x => x.id === id))`, resumed at
      container `i`. */
  function ContainerWithIdFrom(a: Arrangement<Item>, id: string, i: nat): (r: Completion<int>)
    requires i <= |a|
    ensures r.Normal? ==> -1 <= r.value < |a|
    ensures r.Normal? && r.value >= 0 ==>
      i <= r.value && HasId(a[r.value].items, id) && forall j :: i <= j < r.value ==> !HasId(a[j].items, id)
    ensures r == Normal(-1) ==> forall j :: i <= j < |a| ==> !HasId(a[j].items, id)
    ensures r == Thrown ==> exists j :: i <= j < |a| && !DefinedSlots(a[j].items)
    decreases |a| - i
  {
    if i == |a| then Normal(-1)
    else match SomeHasId(a[i].items, id)
      case Thrown => Thrown
      case Normal(true) => Normal(i)
      case Normal(false) => ContainerWithIdFrom(a, id, i + 1)
  }

  /** `findContainer(id)`: the first container whose header is `id`; failing
      that, the first container holding an item with id `id`; failing that,
      -1. A header match always wins. The item search throws only when it
      meets an `undefined` slot, which never happens in an arrangement whose
      slots are all defined. */
  function FindContainer(a: Arrangement<Item>, id: string): (r: Completion<int>)
    ensures r.Normal? ==> -1 <= r.value < |a|
    ensures HasHeader(a, id) ==>
      r.Normal? && 0 <= r.value && a[r.value].header == id && forall j :: 0 <= j < r.value ==> a[j].header != id
    ensures !HasHeader(a, id) && r.Normal? && r.value >= 0 ==>
      HasId(a[r.value].items, id) && forall j :: 0 <= j < r.value ==> !HasId(a[j].items, id)
    ensures r == Normal(-1) ==> !HasHeader(a, id) && forall j :: 0 <= j < |a| ==> !HasId(a[j].items, id)
    ensures r == Thrown ==> !HasHeader(a, id) && !AllDefined(a)
    ensures AllDefined(a) ==> r.Normal?
  {
    var h := HeaderIndex(a, id);
    if h >= 0 then Normal(h) else ContainerWithIdFrom(a, id, 0)
  }

  /** Both slots hold items, and the items have the same id. */
  predicate SameId(x: Maybe<Item>, y: Maybe<Item>) {
    x.Defined? && y.Defined? && x.value.id == y.value.id
  }

  /** `s2` has a defined item at index `k`, with the id of the item at
      index `k` of `s1`. */
  predicate SameIdAt(s1: seq<Maybe<Item>>, s2: seq<Maybe<Item>>, k: nat)
    requires k < |s1|
  {
    k < |s2| && SameId(s1[k], s2[k])
  }

  /** From slot `j` on, `s2` has a defined item with the id of each item of
      `s1`, at the same index. */
  predicate IdsMatchFrom(s1: seq<Maybe<Item>>, s2: seq<Maybe<Item>>, j: nat) {
    forall k :: j <= k < |s1| ==> SameIdAt(s1, s2, k)
  }

  /** Slot by slot, `s2` starts with the ids of `s1`. */
  predicate IdsPrefix(s1: seq<Maybe<Item>>, s2: seq<Maybe<Item>>) {
    IdsMatchFrom(s1, s2, 0)
  }

  /** `items.every((item, index) => item.id === container2.items[index].id)`,
      resumed at slot `j`. It reads `.id` of an `undefined` (and throws) when
      a slot of `s1` is undefined or `s2` has no defined slot at that index. */
  function SameIdsFrom(s1: seq<Maybe<Item>>, s2: seq<Maybe<Item>>, j: nat): (r: Completion<bool>)
    requires j <= |s1|
    ensures r == Normal(true) ==> IdsMatchFrom(s1, s2, j)
    ensures r == Normal(false) ==>
      exists k :: j <= k < |s1| && k < |s2| && s1[k].Defined? && s2[k].Defined? && s1[k].value.id != s2[k].value.id
    ensures |s1| == |s2| && (forall k :: j <= k < |s1| ==> s1[k].Defined? && s2[k].Defined?) ==>
      r == Normal(forall k :: j <= k < |s1| ==> s1[k].value.id == s2[k].value.id)
    decreases |s1| - j
  {
    if j == |s1| then Normal(true)
    else match s1[j]
      case Undefined => Thrown
      case Defined(item) =>
        match At(s2, j)
        case Undefined => Thrown
        case Defined(other) =>
          if item.id == other.id then
            SameIdsFrom(s1, s2, j + 1)
          else Normal(false)
  }

  /** The ids of a container's slots, in order. */
  function Ids(s: seq<Maybe<Item>>): (r: seq<string>)
    requires DefinedSlots(s)
    ensures |r| == |s|
  {
    seq(|s|, k requires 0 <= k < |s| => s[k].value.id)
  }

  /** The positional order `isSameOrder` is meant to compare: each container's
      header with the ids of its items. */
  function IdOrder(a: Arrangement<Item>): (r: seq<(string, seq<string>)>)
    requires AllDefined(a)
    ensures |r| == |a|
  {
    seq(|a|, i requires 0 <= i < |a| => (a[i].header, Ids(a[i].items)))
  }

  /** The container loop of `isSameOrder`, resumed at container `i`. */
  function SameContainersFrom(a1: Arrangement<Item>, a2: Arrangement<Item>, i: nat): (r: Completion<bool>)
    requires |a1| == |a2| && i <= |a1|
    ensures r == Normal(true) ==>
      forall m :: i <= m < |a1| ==> a1[m].header == a2[m].header && IdsPrefix(a1[m].items, a2[m].items)
    decreases |a1| - i
  {
    if i == |a1| then Normal(true)
    else if a1[i].header != a2[i].header then Normal(false)
    else match SameIdsFrom(a1[i].items, a2[i].items, 0)
      case Thrown => Thrown
      case Normal(false) => Normal(false)
      case Normal(true) => SameContainersFrom(a1, a2, i + 1)
  }

  /** `isSameOrder(items1, items2)`: false for different container counts;
      true only if every header agrees and every container of `items2` starts
      with the ids of the same container of `items1` (so a LONGER container
      in `items2` still compares equal). */
  function IsSameOrder(a1: Arrangement<Item>, a2: Arrangement<Item>): (r: Completion<bool>)
    ensures |a1| != |a2| ==> r == Normal(false)
    ensures r == Normal(true) ==>
      |a1| == |a2| && forall i :: 0 <= i < |a1| ==> a1[i].header == a2[i].header && IdsPrefix(a1[i].items, a2[i].items)
  {
    if |a1| != |a2| then Normal(false) else SameContainersFrom(a1, a2, 0)
  }

  /** Both arrangements fully defined, and containers of equal length
      wherever the container counts agree. */
  predicate Comparable(a1: Arrangement<Item>, a2: Arrangement<Item>) {
    && AllDefined(a1) && AllDefined(a2)
    && (|a1| == |a2| ==> forall i :: 0 <= i < |a1| ==> |a1[i].items| == |a2[i].items|)
  }

  /** On one container: equal lengths, all defined, `every` is equality of ids. */
  lemma SameIdsExact(s1: seq<Maybe<Item>>, s2: seq<Maybe<Item>>)
    requires |s1| == |s2| && DefinedSlots(s1) && DefinedSlots(s2)
    ensures SameIdsFrom(s1, s2, 0) == Normal(Ids(s1) == Ids(s2))
  {
    if forall k :: 0 <= k < |s1| ==> s1[k].value.id == s2[k].value.id {
      assert Ids(s1) == Ids(s2);
    } else {
      var k :| 0 <= k < |s1| && s1[k].value.id != s2[k].value.id;
      assert Ids(s1)[k] != Ids(s2)[k];
    }
  }

  /** The container loop compares headers and id sequences exactly. */
  lemma {:induction false} SameContainersExact(a1: Arrangement<Item>, a2: Arrangement<Item>, i: nat)
    requires |a1| == |a2| && i <= |a1| && Comparable(a1, a2)
    ensures SameContainersFrom(a1, a2, i) ==
      Normal(forall m :: i <= m < |a1| ==> a1[m].header == a2[m].header && Ids(a1[m].items) == Ids(a2[m].items))
    decreases |a1| - i
  {
    if i < |a1| {
      SameIdsExact(a1[i].items, a2[i].items);
      SameContainersExact(a1, a2, i + 1);
    }
  }

  /** With every slot defined and matching container lengths, `isSameOrder`
      is exactly equality of the two orders: same container count, same
      headers in the same positions, same id sequence in every container. */
  lemma IsSameOrderExact(a1: Arrangement<Item>, a2: Arrangement<Item>)
    requires Comparable(a1, a2)
    ensures IsSameOrder(a1, a2) == Normal(IdOrder(a1) == IdOrder(a2))
  {
    if |a1| == |a2| {
      SameContainersExact(a1, a2, 0);
      if IdOrder(a1) == IdOrder(a2) {
        forall m | 0 <= m < |a1|
          ensures a1[m].header == a2[m].header && Ids(a1[m].items) == Ids(a2[m].items)
        {
          assert IdOrder(a1)[m] == IdOrder(a2)[m];
        }
      }
    }
  }

  /** An arrangement compared with itself is the same order. */
  lemma IsSameOrderReflexive(a: Arrangement<Item>)
    requires AllDefined(a)
    ensures IsSameOrder(a, a) == Normal(true)
  {
    IsSameOrderExact(a, a);
  }

  /** A container that differs from the snapshot only by an extra item at
      its end compares equal. */
  lemma IsSameOrderMissesAppended()
    ensures IsSameOrder([Container("A", [Defined(Item("0", "x"))])],
                        [Container("A", [Defined(Item("0", "x")), Defined(Item("1", "y"))])]) == Normal(true)
  {
  }

  /** A container of the snapshot longer than the new one makes the
      comparison read `.id` of `undefined`. */
  lemma IsSameOrderThrowsOnShorter()
    ensures IsSameOrder([Container("A", [Defined(Item("0", "x")), Defined(Item("1", "y"))])],
                        [Container("A", [Defined(Item("0", "x"))])]) == Thrown
  {
  }

  /** A slot reduced to its id. */
  function SlotId(slot: Maybe<Item>): Maybe<string> {
    match slot
    case Undefined => Undefined
    case Defined(item) => Defined(item.id)
  }

  /** A container's slots reduced to their ids. */
  function SlotIds(s: seq<Maybe<Item>>): (r: seq<Maybe<string>>)
    ensures |r| == |s|
  {
    seq(|s|, k requires 0 <= k < |s| => SlotId(s[k]))
  }

  /** An arrangement with every text dropped. */
  function IdView(a: Arrangement<Item>): (r: Arrangement<string>)
    ensures |r| == |a|
  {
    seq(|a|, i requires 0 <= i < |a| => Container(a[i].header, SlotIds(a[i].items)))
  }

  lemma {:induction false} SameIdsIgnoresTexts(s1: seq<Maybe<Item>>, s2: seq<Maybe<Item>>,
                                                t1: seq<Maybe<Item>>, t2: seq<Maybe<Item>>, j: nat)
    requires SlotIds(s1) == SlotIds(t1) && SlotIds(s2) == SlotIds(t2) && j <= |s1|
    ensures SameIdsFrom(s1, s2, j) == SameIdsFrom(t1, t2, j)
    decreases |s1| - j
  {
    if j < |s1| {
      assert SlotIds(s1)[j] == SlotIds(t1)[j];
      if j < |s2| {
        assert SlotIds(s2)[j] == SlotIds(t2)[j];
      }
      SameIdsIgnoresTexts(s1, s2, t1, t2, j + 1);
    }
  }

  lemma {:induction false} SameContainersIgnoresTexts(a1: Arrangement<Item>, a2: Arrangement<Item>,
                                                       b1: Arrangement<Item>, b2: Arrangement<Item>, i: nat)
    requires IdView(a1) == IdView(b1) && IdView(a2) == IdView(b2)
    requires |a1| == |a2| && i <= |a1|
    ensures SameContainersFrom(a1, a2, i) == SameContainersFrom(b1, b2, i)
    decreases |a1| - i
  {
    if i < |a1| {
      assert IdView(a1)[i] == IdView(b1)[i] && IdView(a2)[i] == IdView(b2)[i];
      SameIdsIgnoresTexts(a1[i].items, a2[i].items, b1[i].items, b2[i].items, 0);
      SameContainersIgnoresTexts(a1, a2, b1, b2, i + 1);
    }
  }

  /** `isSameOrder` looks at headers and ids only: changing any texts leaves
      its answer, throw included, unchanged. */
  lemma IsSameOrderIgnoresTexts(a1: Arrangement<Item>, a2: Arrangement<Item>, b1: Arrangement<Item>, b2: Arrangement<Item>)
    requires IdView(a1) == IdView(b1) && IdView(a2) == IdView(b2)
    ensures IsSameOrder(a1, a2) == IsSameOrder(b1, b2)
  {
    if |a1| == |a2| {
      SameContainersIgnoresTexts(a1, a2, b1, b2, 0);
    }
  }

  /** `items.map(item => item.text)`: the texts, or a throw at an `undefined`. */
  function Texts(s: seq<Maybe<Item>>): (r: Completion<seq<string>>)
    ensures r.Normal? <==> DefinedSlots(s)
    ensures r.Normal? ==> |r.value| == |s| && forall k :: 0 <= k < |s| ==> r.value[k] == s[k].value.text
  {
    if |s| == 0 then Normal([])
    else match s[0]
      case Undefined => Thrown
      case Defined(item) =>
        match Texts(s[1..])
        case Thrown => Thrown
        case Normal(rest) => Normal([item.text] + rest)
  }

  /** The value sent to the host: the same headers and container lengths,
      each item replaced by its text; a throw if any slot is undefined. */
  function Project(a: Arrangement<Item>): (r: Completion<seq<Description>>)
    ensures r.Normal? <==> AllDefined(a)
    ensures r.Normal? ==> |r.value| == |a| && forall i :: 0 <= i < |a| ==>
      && r.value[i].header == a[i].header
      && |r.value[i].items| == |a[i].items|
      && forall k :: 0 <= k < |a[i].items| ==> r.value[i].items[k] == a[i].items[k].value.text
  {
    if |a| == 0 then Normal([])
    else match Texts(a[0].items)
      case Thrown => Thrown
      case Normal(texts) =>
        match Project(a[1..])
        case Thrown => Thrown
        case Normal(rest) => Normal([Description(a[0].header, texts)] + rest)
  }

  /** Giving items ids and projecting them back to texts is the identity:
      initialisation keeps container order, headers and item texts. */
  lemma ProjectWithIds(props: seq<Description>)
    ensures Project(WithIds(props)) == Normal(props)
  {
    var a := WithIds(props);
    var v := Project(a).value;
    forall i | 0 <= i < |props| ensures v[i] == props[i] {
      assert a[i] == Container(props[i].header, Numbered(props[i].items));
      forall k | 0 <= k < |props[i].items| ensures v[i].items[k] == props[i].items[k] {
        assert a[i].items[k] == Defined(Item(DecimalString(k), props[i].items[k]));
      }
      assert v[i].items == props[i].items;
    }
    assert v == props;
  }

  /** `handleDragOver` compares each object in the source container with the
      string `active.id` by strict equality, which never holds, so its
      `indexOf` always gives -1. */
  const NotFound: int := -1

  /** `handleDragOver` on the current `items`: the new `items`, or `Thrown`
      when a lookup throws or the active id belongs to no container. */
  function DragOver(a: Arrangement<Item>, active: string, over: Option<string>): (r: Completion<Arrangement<Item>>)
    ensures r.Normal? ==> |r.value| == |a|
  {
    if over.None? then Normal(a)
    else match FindContainer(a, active)
      case Thrown => Thrown
      case Normal(ac) =>
        match FindContainer(a, over.value)
        case Thrown => Thrown
        case Normal(oc) =>
          if oc < 0 then Normal(a)
          else if ac == oc then Normal(a)
          else if ac < 0 then Thrown
          else Normal(HoverMove(a, ac, oc, NotFound))
  }

  /** The hover changes nothing when there is no target, when the target
      resolves to no container, or when both ids resolve to the same one. */
  lemma DragOverStays(a: Arrangement<Item>, active: string, over: Option<string>)
    requires || over.None?
             || (FindContainer(a, active).Normal? && FindContainer(a, over.value) == Normal(-1))
             || (FindContainer(a, active).Normal? && FindContainer(a, active) == FindContainer(a, over.value))
    ensures DragOver(a, active, over) == Normal(a)
  {
  }

  /** A hover throws exactly when the active id's lookup throws, when the
      target's lookup throws, or when the target resolves but the active id
      is in no container (`items[-1].items`). On a fully defined arrangement
      only the last case is left. */
  lemma DragOverUnknownActive(a: Arrangement<Item>, active: string, over: string)
    ensures var ac, oc := FindContainer(a, active), FindContainer(a, over);
      DragOver(a, active, Some(over)).Thrown? <==>
        || ac.Thrown? || oc.Thrown?
        || (ac == Normal(-1) && oc.Normal? && oc.value >= 0)
    ensures AllDefined(a) ==>
      (DragOver(a, active, Some(over)).Thrown? <==>
        FindContainer(a, active) == Normal(-1) && FindContainer(a, over).value >= 0)
  {
  }

  /** A hover over another container never moves the item: the source
      becomes all but its last slot followed by all of it again, and the
      target gains an `undefined` slot before its last element, so the
      arrangement is no longer fully defined and grows. */
  lemma DragOverAcross(a: Arrangement<Item>, active: string, over: string)
    requires FindContainer(a, active).Normal? && FindContainer(a, over).Normal?
    requires FindContainer(a, active).value >= 0 && FindContainer(a, over).value >= 0
    requires FindContainer(a, active) != FindContainer(a, over)
    ensures var ac, oc := FindContainer(a, active).value, FindContainer(a, over).value;
      var r := DragOver(a, active, Some(over));
      && r.Normal? && SameExcept(a, r.value, {ac, oc})
      && r.value[ac].items == DropLast(a[ac].items) + a[ac].items
      && r.value[oc].items == DropLast(a[oc].items) + [Undefined] + LastOf(a[oc].items)
      && !AllDefined(r.value)
      && TotalCount(r.value) == TotalCount(a) + |DropLast(a[ac].items)| + 1
  {
    var ac, oc := FindContainer(a, active).value, FindContainer(a, over).value;
    HoverMoveNotFound(a, ac, oc);
    var b := DragOver(a, active, Some(over)).value;
    var u := |DropLast(a[oc].items)|;
    assert b[oc].items[u] == Undefined;
  }

  /** Where a drop lands, as `handleDragEnd` finds out before it rewrites
      anything: no target, different containers, a throw (a lookup met an
      `undefined`, or `items[-1]` was read), or one container with the two
      indices its `findIndex` calls return. */
  datatype Drop = NoTarget | Apart | Throws | Within(container: nat, from: int, to: int)

  function LocateDrop(a: Arrangement<Item>, active: string, over: Option<string>): (d: Drop)
    ensures d.Within? ==> d.container < |a| && -1 <= d.from < |a[d.container].items| && -1 <= d.to < |a[d.container].items|
  {
    if over.None? then NoTarget
    else match FindContainer(a, active)
      case Thrown => Throws
      case Normal(ac) =>
        match FindContainer(a, over.value)
        case Thrown => Throws
        case Normal(oc) =>
          if ac != oc then Apart
          else if ac < 0 then Throws
          else match IdIndex(a[ac].items, active)
            case Thrown => Throws
            case Normal(from) =>
              match IdIndex(a[ac].items, over.value)
              case Thrown => Throws
              case Normal(to) => Within(ac, from, to)
  }

  /** The drop's `arrayMove` gets two real indices. A -1 (an id that named a
      header, not an item, of the container) is left to the library. */
  predicate MoveDefined(d: Drop) {
    d.Within? ==> d.from >= 0 && d.to >= 0
  }

  /** `handleDragEnd` on the current `items` and snapshot `cloned`. The new
      `items` is stored before `isSameOrder` runs, so a throw there or in the
      projection keeps the rewritten arrangement. */
  function DragEnd(a: Arrangement<Item>, cloned: Arrangement<Item>, active: string, over: Option<string>): (r: EndStep)
    requires MoveDefined(LocateDrop(a, active, over))
    ensures r.sent.Some? ==> !r.thrown
  {
    match LocateDrop(a, active, over)
    case Within(c, from, to) => Settle(MoveWithin(a, c, from, to), cloned)
    case Throws => EndStep(a, None, true)
    case _ => EndStep(a, None, false)
  }

  /** The end of a same-container drop, once `items` holds the rewritten
      arrangement `b`: compare with the snapshot, and send the texts of `b`
      when the order changed. */
  function Settle(b: Arrangement<Item>, cloned: Arrangement<Item>): (r: EndStep)
    ensures r.items == b
    ensures r.sent.Some? <==> IsSameOrder(cloned, b) == Normal(false) && Project(b).Normal?
    ensures r.sent.Some? ==> r.sent.value == Project(b).value
    ensures r.thrown <==> IsSameOrder(cloned, b).Thrown? || (IsSameOrder(cloned, b) == Normal(false) && Project(b).Thrown?)
  {
    match IsSameOrder(cloned, b)
    case Thrown => EndStep(b, None, true)
    case Normal(true) => EndStep(b, None, false)
    case Normal(false) =>
      match Project(b)
      case Thrown => EndStep(b, None, true)
      case Normal(texts) => EndStep(b, Some(texts), false)
  }

  /** No target: nothing changes and nothing is sent. */
  lemma DragEndNoTarget(a: Arrangement<Item>, cloned: Arrangement<Item>, active: string)
    ensures DragEnd(a, cloned, active, None) == EndStep(a, None, false)
  {
  }

  /** A drop whose ids resolve to different containers changes nothing and
      sends nothing. */
  lemma DragEndApart(a: Arrangement<Item>, cloned: Arrangement<Item>, active: string, over: string)
    requires FindContainer(a, active).Normal? && FindContainer(a, over).Normal?
    requires FindContainer(a, active) != FindContainer(a, over)
    ensures DragEnd(a, cloned, active, Some(over)) == EndStep(a, None, false)
  {
  }

  /** A drop throws exactly when a container lookup throws, when both ids
      resolve to no container (`items[-1].items`), or when one of the two
      `findIndex` calls in their common container meets an `undefined` slot.
      The arrangement is then left as it was and nothing is sent. On a fully
      defined arrangement only the case of two unresolved ids is left. */
  lemma DragEndThrows(a: Arrangement<Item>, cloned: Arrangement<Item>, active: string, over: string)
    requires MoveDefined(LocateDrop(a, active, Some(over)))
    ensures var ac, oc := FindContainer(a, active), FindContainer(a, over);
      LocateDrop(a, active, Some(over)) == Throws <==>
        || ac.Thrown? || oc.Thrown?
        || (ac == Normal(-1) && oc == Normal(-1))
        || (ac.Normal? && ac == oc && ac.value >= 0 &&
            (IdIndex(a[ac.value].items, active).Thrown? || IdIndex(a[ac.value].items, over).Thrown?))
    ensures LocateDrop(a, active, Some(over)) == Throws ==>
      DragEnd(a, cloned, active, Some(over)) == EndStep(a, None, true)
    ensures AllDefined(a) ==>
      (LocateDrop(a, active, Some(over)) == Throws <==>
        FindContainer(a, active) == Normal(-1) && FindContainer(a, over) == Normal(-1))
  {
    var ac := FindContainer(a, active);
    if AllDefined(a) && ac.Normal? && ac.value >= 0 {
      assert DefinedSlots(a[ac.value].items);
    }
  }

  /** A drop inside one container rewrites only that container, by moving
      the item with the active id to the index of the item with the over id;
      headers, container count and the other containers are kept and no slot
      is lost. */
  lemma DragEndWithin(a: Arrangement<Item>, cloned: Arrangement<Item>, active: string, over: string)
    requires LocateDrop(a, active, Some(over)).Within?
    requires MoveDefined(LocateDrop(a, active, Some(over)))
    ensures var d := LocateDrop(a, active, Some(over));
      var r := DragEnd(a, cloned, active, Some(over));
      && HoldsId(a[d.container].items[d.from], active)
      && HoldsId(a[d.container].items[d.to], over)
      && SameExcept(a, r.items, {d.container})
      && r.items[d.container].items == ArrayMove(a[d.container].items, d.from, d.to)
      && multiset(Flatten(r.items)) == multiset(Flatten(a))
  {
    var d := LocateDrop(a, active, Some(over));
    var b := MoveWithin(a, d.container, d.from, d.to);
    assert DragEnd(a, cloned, active, Some(over)).items == b;
    MoveWithinKeepsSlots(a, d.container, d.from, d.to);
  }

  /** After a drop inside one container the host is told iff
      `isSameOrder(clonedItems, newItems)` is false and the new arrangement
      projects to texts; the handler throws iff `isSameOrder` throws or the
      projection meets an `undefined`. What the host is told has the new
      arrangement's headers and lengths, each item replaced by its text. */
  lemma DragEndNotifies(a: Arrangement<Item>, cloned: Arrangement<Item>, active: string, over: string)
    requires LocateDrop(a, active, Some(over)).Within?
    requires MoveDefined(LocateDrop(a, active, Some(over)))
    ensures var r := DragEnd(a, cloned, active, Some(over));
      && (r.sent.Some? <==> IsSameOrder(cloned, r.items) == Normal(false) && AllDefined(r.items))
      && (r.thrown <==> IsSameOrder(cloned, r.items).Thrown? || (IsSameOrder(cloned, r.items) == Normal(false) && !AllDefined(r.items)))
      && (r.sent.Some? ==> |r.sent.value| == |r.items| && forall i :: 0 <= i < |r.items| ==>
            && r.sent.value[i].header == r.items[i].header
            && |r.sent.value[i].items| == |r.items[i].items|
            && forall k :: 0 <= k < |r.items[i].items| ==> r.sent.value[i].items[k] == r.items[i].items[k].value.text)
  {
    var d := LocateDrop(a, active, Some(over));
    var b := MoveWithin(a, d.container, d.from, d.to);
    assert DragEnd(a, cloned, active, Some(over)).items == b;
  }

  /** With the snapshot and the new arrangement fully defined and shaped
      alike, the host is told exactly when the order of ids changed. */
  lemma DragEndReportsChange(a: Arrangement<Item>, cloned: Arrangement<Item>, active: string, over: string)
    requires LocateDrop(a, active, Some(over)).Within?
    requires MoveDefined(LocateDrop(a, active, Some(over)))
    requires AllDefined(a) && Comparable(cloned, a)
    ensures var r := DragEnd(a, cloned, active, Some(over));
      && !r.thrown
      && AllDefined(r.items)
      && (r.sent.Some? <==> IdOrder(cloned) != IdOrder(r.items))
  {
    var d := LocateDrop(a, active, Some(over));
    var b := MoveWithin(a, d.container, d.from, d.to);
    assert DragEnd(a, cloned, active, Some(over)) == Settle(b, cloned);
    MoveWithinKeepsShape(a, d.container, d.from, d.to);
    assert Comparable(cloned, b);
    IsSameOrderExact(cloned, b);
  }

  /** Dropping an item onto itself leaves the arrangement as it is. */
  lemma SelfDropKeepsItems(a: Arrangement<Item>, cloned: Arrangement<Item>, active: string)
    requires LocateDrop(a, active, Some(active)).Within?
    requires MoveDefined(LocateDrop(a, active, Some(active)))
    ensures DragEnd(a, cloned, active, Some(active)).items == a
  {
    var d := LocateDrop(a, active, Some(active));
    assert d.from == d.to;
    assert DragEnd(a, cloned, active, Some(active)).items == MoveWithin(a, d.container, d.from, d.to);
    MoveWithinKeepsSlots(a, d.container, d.from, d.to);
  }

  /** A drag that starts and ends on its own item, with no hover between,
      never notifies. */
  lemma UnmovedDropIsSilent(a: Arrangement<Item>, active: string)
    requires AllDefined(a)
    requires LocateDrop(a, active, Some(active)).Within?
    requires MoveDefined(LocateDrop(a, active, Some(active)))
    ensures DragEnd(a, a, active, Some(active)) == EndStep(a, None, false)
  {
    SelfDropKeepsItems(a, a, active);
    var d := LocateDrop(a, active, Some(active));
    MoveWithinKeepsSlots(a, d.container, d.from, d.to);
    IsSameOrderReflexive(a);
  }

  /** `handleDragStart`: record the dragged item, snapshot `items`. */
  function DragStart(s: Session, id: string, text: Maybe<string>): (r: Session)
    ensures r.activeItem == Dragging(id, text)
    ensures r.clonedItems == s.items && r.items == s.items
  {
    Session(s.items, s.items, Dragging(id, text))
  }

  /** `handleDragCancel`: forget the dragged item, restore the snapshot. */
  function DragCancel(s: Session): (r: Session)
    ensures r.activeItem == Idle
    ensures r.items == s.clonedItems && r.clonedItems == s.clonedItems
  {
    Session(s.clonedItems, s.clonedItems, Idle)
  }

  /** One `handleDragOver` on the whole component state. */
  function OverStep(s: Session, h: Hover): (r: Session)
    ensures r.clonedItems == s.clonedItems && r.activeItem == s.activeItem
    ensures DragOver(s.items, h.active, h.over).Normal? ==> r.items == DragOver(s.items, h.active, h.over).value
    ensures DragOver(s.items, h.active, h.over).Thrown? ==> r == s
  {
    match DragOver(s.items, h.active, h.over)
    case Normal(b) => s.(items := b)
    case Thrown => s
  }

  /** A run of hover events. */
  function Hovering(s: Session, hs: seq<Hover>): Session
    decreases |hs|
  {
    if |hs| == 0 then s else Hovering(OverStep(s, hs[0]), hs[1..])
  }

  /** Hovering never touches the snapshot or the dragged item. */
  lemma {:induction false} HoveringKeepsSnapshot(s: Session, hs: seq<Hover>)
    ensures Hovering(s, hs).clonedItems == s.clonedItems
    ensures Hovering(s, hs).activeItem == s.activeItem
    decreases |hs|
  {
    if |hs| > 0 {
      HoveringKeepsSnapshot(OverStep(s, hs[0]), hs[1..]);
    }
  }

  /** A drag that is cancelled rolls back every hover since it started, the
      `undefined` slots and duplicates they left included. */
  lemma CancelRollsBack(s: Session, id: string, text: Maybe<string>, hs: seq<Hover>)
    ensures DragCancel(Hovering(DragStart(s, id, text), hs)) == Session(s.items, s.items, Idle)
  {
    HoveringKeepsSnapshot(DragStart(s, id, text), hs);
  }

  /** A holds x and y, B holds z, with the ids initialisation gives them. */
  function Sample(): Arrangement<Item> {
    [Container("A", [Defined(Item("0", "x")), Defined(Item("1", "y"))]),
     Container("B", [Defined(Item("0", "z"))])]
  }

  /** Hovering x (id "0") over the header B leaves A = [x, x, y] and
      B = [undefined, z]. */
  lemma HoverIntoHeader()
    ensures DragOver(Sample(), "0", Some("B")) ==
      Normal([Container("A", [Defined(Item("0", "x")), Defined(Item("0", "x")), Defined(Item("1", "y"))]),
              Container("B", [Undefined, Defined(Item("0", "z"))])])
  {
    var a := Sample();
    assert HeaderIndex(a, "0") == -1 && HeaderIndex(a, "B") == 1;
    assert IdIndex(a[0].items, "0") == Normal(0);
    assert FindContainer(a, "0") == Normal(0) && FindContainer(a, "B") == Normal(1);
    HoverMoveNotFound(a, 0, 1);
    var b := HoverMove(a, 0, 1, NotFound);
    assert DropLast(a[0].items) == [Defined(Item("0", "x"))];
    assert DropLast(a[1].items) == [] && LastOf(a[1].items) == [Defined(Item("0", "z"))];
    assert b[0].items == [Defined(Item("0", "x")), Defined(Item("0", "x")), Defined(Item("1", "y"))];
    assert b[1].items == [Undefined, Defined(Item("0", "z"))];
    assert b == [Container("A", [Defined(Item("0", "x")), Defined(Item("0", "x")), Defined(Item("1", "y"))]),
                 Container("B", [Undefined, Defined(Item("0", "z"))])];
  }

  /** `Sample()` after x and y swap places in A. */
  function SampleSwapped(): Arrangement<Item> {
    [Container("A", [Defined(Item("1", "y")), Defined(Item("0", "x"))]), Container("B", [Defined(Item("0", "z"))])]
  }

  /** Dropping x onto y locates both in A, at indices 0 and 1. */
  lemma SampleSwapLocated()
    ensures LocateDrop(Sample(), "0", Some("1")) == Within(0, 0, 1)
  {
    var a := Sample();
    assert HeaderIndex(a, "0") == -1 && HeaderIndex(a, "1") == -1;
    assert IdIndex(a[0].items, "0") == Normal(0) && IdIndex(a[0].items, "1") == Normal(1);
    assert FindContainer(a, "0") == Normal(0) && FindContainer(a, "1") == Normal(0);
  }

  /** Moving index 0 to index 1 of A swaps x and y. */
  lemma SampleSwapMoved()
    ensures MoveWithin(Sample(), 0, 0, 1) == SampleSwapped()
  {
    var a := Sample();
    var b := MoveWithin(a, 0, 0, 1);
    ArrayMoveShifts(a[0].items, 0, 1);
    assert b[0].items == [Defined(Item("1", "y")), Defined(Item("0", "x"))];
  }

  /** Dropping x onto y inside A gives A = [y, x] and sends the texts. */
  lemma DropOntoNeighbour()
    ensures DragEnd(Sample(), Sample(), "0", Some("1")) ==
      EndStep(SampleSwapped(), Some([Description("A", ["y", "x"]), Description("B", ["z"])]), false)
  {
    SampleSwapLocated();
    SampleSwapMoved();
    SampleSwapReported();
  }

  /** The swap changes the order of ids, and its texts are y, x and z. */
  lemma SampleSwapReported()
    ensures IsSameOrder(Sample(), SampleSwapped()) == Normal(false)
    ensures Project(SampleSwapped()) == Normal([Description("A", ["y", "x"]), Description("B", ["z"])])
  {
    var b := SampleSwapped();
    assert SameIdsFrom(Sample()[0].items, b[0].items, 0) == Normal(false);
    var p := Project(b).value;
    assert p[0].items == ["y", "x"] && p[1].items == ["z"];
    assert p == [Description("A", ["y", "x"]), Description("B", ["z"])];
  }

  /** Ids repeat across containers, so dropping B's first item onto B's
      second reorders A instead: both ids are first found in A. */
  lemma DropInSecondContainerMovesFirst()
    ensures var a := [Container("A", [Defined(Item("0", "x")), Defined(Item("1", "y"))]),
                      Container("B", [Defined(Item("0", "z")), Defined(Item("1", "w"))])];
      DragEnd(a, a, "0", Some("1")).items ==
        [Container("A", [Defined(Item("1", "y")), Defined(Item("0", "x"))]),
         Container("B", [Defined(Item("0", "z")), Defined(Item("1", "w"))])]
  {
    var a := [Container("A", [Defined(Item("0", "x")), Defined(Item("1", "y"))]),
              Container("B", [Defined(Item("0", "z")), Defined(Item("1", "w"))])];
    assert HeaderIndex(a, "0") == -1 && HeaderIndex(a, "1") == -1;
    assert IdIndex(a[0].items, "0") == Normal(0) && IdIndex(a[0].items, "1") == Normal(1);
    assert FindContainer(a, "0") == Normal(0) && FindContainer(a, "1") == Normal(0);
    assert LocateDrop(a, "0", Some("1")) == Within(0, 0, 1);
    var b := MoveWithin(a, 0, 0, 1);
    ArrayMoveShifts(a[0].items, 0, 1);
    assert b[0].items == [Defined(Item("1", "y")), Defined(Item("0", "x"))];
    assert DragEnd(a, a, "0", Some("1")).items == b;
  }

  /** The component: the three fields and one method per drag handler. */
  class SortableComponent {
    var items: Arrangement<Item>
    var clonedItems: Arrangement<Item>
    var activeItem: ActiveItem

    function State(): Session
      reads this
    {
      Session(items, clonedItems, activeItem)
    }

    /** Both arrangements start as the host's containers with ids added;
        nothing is dragged. */
    constructor (props: seq<Description>)
      ensures items == WithIds(props) && clonedItems == WithIds(props) && activeItem == Idle
    {
      items := WithIds(props);
      clonedItems := WithIds(props);
      activeItem := Idle;
    }

    method HandleDragStart(id: string, text: Maybe<string>)
      modifies this
      ensures activeItem == Dragging(id, text) && clonedItems == old(items) && items == old(items)
      ensures State() == DragStart(old(State()), id, text)
    {
      activeItem := Dragging(id, text);
      clonedItems := items;
    }

    method HandleDragCancel()
      modifies this
      ensures activeItem == Idle && items == old(clonedItems) && clonedItems == old(clonedItems)
      ensures State() == DragCancel(old(State()))
    {
      activeItem := Idle;
      items := clonedItems;
    }

    /** Only `items` may change, and only when the handler runs to its end. */
    method HandleDragOver(active: string, over: Option<string>) returns (thrown: bool)
      modifies this
      ensures clonedItems == old(clonedItems) && activeItem == old(activeItem)
      ensures thrown <==> DragOver(old(items), active, over).Thrown?
      ensures !thrown ==> items == DragOver(old(items), active, over).value
      ensures thrown ==> items == old(items)
      ensures State() == OverStep(old(State()), Hover(active, over))
    {
      thrown := false;
      if over.None? {
        return;
      }
      var activeContainerIndex := FindContainer(items, active);
      if activeContainerIndex.Thrown? {
        thrown := true;
        return;
      }
      var overContainerIndex := FindContainer(items, over.value);
      if overContainerIndex.Thrown? {
        thrown := true;
        return;
      }
      if overContainerIndex.value < 0 {
        return;
      }
      if activeContainerIndex.value == overContainerIndex.value {
        return;
      }
      if activeContainerIndex.value < 0 {
        // `items[-1]` is undefined: reading its `items` throws.
        thrown := true;
        return;
      }
      var newItems := HoverMove(items, activeContainerIndex.value, overContainerIndex.value, NotFound);
      items := newItems;
    }

    /** `activeItem` is cleared first, whatever follows. */
    method HandleDragEnd(active: string, over: Option<string>) returns (sent: Option<seq<Description>>, thrown: bool)
      requires MoveDefined(LocateDrop(items, active, over))
      modifies this
      ensures activeItem == Idle && clonedItems == old(clonedItems)
      ensures EndStep(items, sent, thrown) == DragEnd(old(items), old(clonedItems), active, over)
    {
      ghost var drop := LocateDrop(items, active, over);
      activeItem := Idle;
      sent, thrown := None, false;
      if over.None? {
        return;
      }
      var activeContainerIndex := FindContainer(items, active);
      if activeContainerIndex.Thrown? {
        thrown := true;
        return;
      }
      var overContainerIndex := FindContainer(items, over.value);
      if overContainerIndex.Thrown? {
        thrown := true;
        return;
      }
      if activeContainerIndex.value == overContainerIndex.value {
        var c := activeContainerIndex.value;
        if c < 0 {
          // `items[-1]` is undefined: reading its `items` throws.
          thrown := true;
          return;
        }
        var container := items[c];
        var activeItemIndex := IdIndex(container.items, active);
        if activeItemIndex.Thrown? {
          thrown := true;
          return;
        }
        var overItemIndex := IdIndex(container.items, over.value);
        if overItemIndex.Thrown? {
          thrown := true;
          return;
        }
        assert drop == Within(c, activeItemIndex.value, overItemIndex.value);
        var newItems := MoveWithin(items, c, activeItemIndex.value, overItemIndex.value);
        items := newItems;
        assert DragEnd(old(items), old(clonedItems), active, over) == Settle(newItems, clonedItems);
        var same := IsSameOrder(clonedItems, newItems);
        if same.Thrown? {
          thrown := true;
          return;
        }
        if !same.value {
          var transformedItems := Project(newItems);
          if transformedItems.Thrown? {
            thrown := true;
            return;
          }
          sent := Some(transformedItems.value);
        }
      } else {
        assert drop == Apart;
      }
    }
  }
}
