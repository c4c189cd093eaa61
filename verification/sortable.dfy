/** The text-keyed variant of the widget (streamlit_sortable): an item is its
    own text, and the drag library names items by that text and containers by
    their header. The component keeps three fields, updated only by the four
    drag handlers: `items` (the current arrangement), `clonedItems` (the
    snapshot taken when a drag starts) and `activeItem` (the dragged text). */
module Sortable {
  import opened Js
  import opened Arrangements

  /** `activeItem`: `null` between drags, the dragged item's text during one. */
  datatype ActiveItem = Idle | Dragging(id: string)

  /** The three component fields, as one value. */
  datatype Session = Session(items: Arrangement<string>, clonedItems: Arrangement<string>, activeItem: ActiveItem)

  /** What the drop handler leaves behind: the new `items`, the value handed
      to the host (if any), and whether the handler threw. */
  datatype EndStep = EndStep(items: Arrangement<string>, sent: Option<Arrangement<string>>, thrown: bool)

  /** One `onDragOver` event: the active item and the (optional) target. */
  datatype Hover = Hover(active: string, over: Option<string>)

  /** The host's containers as the component first holds them. */
  function Lift(props: seq<Description>): (a: Arrangement<string>)
    ensures |a| == |props| && AllDefined(a)
    ensures forall i :: 0 <= i < |a| ==>
      && a[i].header == props[i].header
      && |a[i].items| == |props[i].items|
      && forall j :: 0 <= j < |a[i].items| ==> a[i].items[j] == Defined(props[i].items[j])
  {
    seq(|props|, i requires 0 <= i < |props| =>
      Container(props[i].header, seq(|props[i].items|, j requires 0 <= j < |props[i].items| => Defined(props[i].items[j]))))
  }

  /** `items.findIndex(({items}) => items.includes(x))`, resumed at container
      `i`: the first container holding the text `x`, or -1. */
  function ContainerIncludingFrom(a: Arrangement<string>, x: string, i: nat): (r: int)
    requires i <= |a|
    ensures -1 <= r < |a|
    ensures r >= 0 ==> i <= r && Defined(x) in a[r].items && forall j :: i <= j < r ==> Defined(x) !in a[j].items
    ensures r == -1 <==> forall j :: i <= j < |a| ==> Defined(x) !in a[j].items
    decreases |a| - i
  {
    if i == |a| then -1
    else if Defined(x) in a[i].items then i
    else ContainerIncludingFrom(a, x, i + 1)
  }

  /** `findContainer(x)`: the first container whose header is `x`; failing
      that, the first container holding the text `x`; failing that, -1. A
      header match wins over an item match, wherever the item is. */
  function FindContainer(a: Arrangement<string>, x: string): (r: int)
    ensures -1 <= r < |a|
    ensures HasHeader(a, x) ==> 0 <= r && a[r].header == x && forall j :: 0 <= j < r ==> a[j].header != x
    ensures !HasHeader(a, x) && r >= 0 ==> Defined(x) in a[r].items && forall j :: 0 <= j < r ==> Defined(x) !in a[j].items
    ensures r == -1 <==> !HasHeader(a, x) && forall j :: 0 <= j < |a| ==> Defined(x) !in a[j].items
  {
    var h := HeaderIndex(a, x);
    if h >= 0 then h else ContainerIncludingFrom(a, x, 0)
  }

  /** `handleDragOver` on the current `items`: the new `items`, or `Thrown`
      when the active item belongs to no container (`items[-1].items`). The
      moved text is inserted into the target at the index it had in the
      SOURCE container, which `slice` clamps to the target's length. */
  function DragOver(a: Arrangement<string>, active: string, over: Option<string>): (r: Completion<Arrangement<string>>)
    ensures r.Normal? ==> |r.value| == |a|
  {
    if over.None? then Normal(a)
    else
      var ac := FindContainer(a, active);
      var oc := FindContainer(a, over.value);
      if oc < 0 then Normal(a)
      else if ac == oc then Normal(a)
      else if ac < 0 then Thrown
      else Normal(HoverMove(a, ac, oc, IndexOf(a[ac].items, Defined(active))))
  }

  /** The hover changes nothing when there is no target, when the target
      resolves to no container, or when both ids resolve to the same one. */
  lemma DragOverStays(a: Arrangement<string>, active: string, over: Option<string>)
    requires || over.None?
             || FindContainer(a, over.value) == -1
             || FindContainer(a, active) == FindContainer(a, over.value)
    ensures DragOver(a, active, over) == Normal(a)
  {
  }

  /** A hover of an item over another container: the source container loses
      exactly the element at the active text's index `k`, the target gains it
      at `min(k, |target|)`, and every header, every other container, the
      container count and the slots of the whole arrangement are unchanged. */
  lemma DragOverAcross(a: Arrangement<string>, active: string, over: string)
    requires FindContainer(a, over) >= 0 && FindContainer(a, active) >= 0
    requires FindContainer(a, active) != FindContainer(a, over)
    requires Defined(active) in a[FindContainer(a, active)].items
    ensures var ac, oc := FindContainer(a, active), FindContainer(a, over);
      var k := IndexOf(a[ac].items, Defined(active));
      var r := DragOver(a, active, Some(over));
      && 0 <= k && r.Normal?
      && SameExcept(a, r.value, {ac, oc})
      && r.value[ac].items == RemoveAt(a[ac].items, k)
      && r.value[oc].items == InsertAt(a[oc].items, Min(k, |a[oc].items|), Defined(active))
      && multiset(Flatten(r.value)) == multiset(Flatten(a))
      && TotalCount(r.value) == TotalCount(a)
  {
    var ac, oc := FindContainer(a, active), FindContainer(a, over);
    HoverMoveFound(a, ac, oc, IndexOf(a[ac].items, Defined(active)));
  }

  /** When the active text is found by a HEADER (it equals the header of a
      container that does not hold it), `indexOf` gives -1: the source
      becomes all but its last slot followed by all of it, and the target
      gains an `undefined` slot before its last element. */
  lemma DragOverHeaderClash(a: Arrangement<string>, active: string, over: string)
    requires FindContainer(a, over) >= 0 && FindContainer(a, active) >= 0
    requires FindContainer(a, active) != FindContainer(a, over)
    requires Defined(active) !in a[FindContainer(a, active)].items
    ensures var ac, oc := FindContainer(a, active), FindContainer(a, over);
      var r := DragOver(a, active, Some(over));
      && HasHeader(a, active)
      && r.Normal? && SameExcept(a, r.value, {ac, oc})
      && r.value[ac].items == DropLast(a[ac].items) + a[ac].items
      && r.value[oc].items == DropLast(a[oc].items) + [Undefined] + LastOf(a[oc].items)
      && !AllDefined(r.value)
  {
    var ac, oc := FindContainer(a, active), FindContainer(a, over);
    HoverMoveNotFound(a, ac, oc);
    var b := DragOver(a, active, Some(over)).value;
    var u := |DropLast(a[oc].items)|;
    assert b[oc].items[u] == Undefined;
  }

  /** A hover whose target resolves but whose active text is in no container
      reads `items[-1].items` and throws. */
  lemma DragOverUnknownActive(a: Arrangement<string>, active: string, over: string)
    requires FindContainer(a, over) >= 0 && FindContainer(a, active) == -1
    ensures DragOver(a, active, Some(over)) == Thrown
  {
  }

  /** Where a drop lands, as `handleDragEnd` finds out before it rewrites
      anything: no target, a drop onto itself, different containers, an
      unknown container (`items[-1]`, which throws), or one container with
      the two indices its `indexOf` calls return. */
  datatype Drop = NoTarget | SelfDrop | Apart | Throws | Within(container: nat, from: int, to: int)

  function LocateDrop(a: Arrangement<string>, active: string, over: Option<string>): (d: Drop)
    ensures d.Within? ==> d.container < |a| && -1 <= d.from < |a[d.container].items| && -1 <= d.to < |a[d.container].items|
  {
    if over.None? then NoTarget
    else if active == over.value then SelfDrop
    else
      var ac := FindContainer(a, active);
      var oc := FindContainer(a, over.value);
      if ac != oc then Apart
      else if ac < 0 then Throws
      else Within(ac, IndexOf(a[ac].items, Defined(active)), IndexOf(a[ac].items, Defined(over.value)))
  }

  /** The drop's `arrayMove` gets two real indices. A -1 (an id that named a
      header, not an item, of the container) is left to the library. */
  predicate MoveDefined(d: Drop) {
    d.Within? ==> d.from >= 0 && d.to >= 0
  }

  /** `handleDragEnd` on the current `items`. */
  function DragEnd(a: Arrangement<string>, active: string, over: Option<string>): (r: EndStep)
    requires MoveDefined(LocateDrop(a, active, over))
    ensures r.sent.Some? ==> r.sent.value == r.items
  {
    match LocateDrop(a, active, over)
    case Within(c, from, to) =>
      var b := MoveWithin(a, c, from, to);
      EndStep(b, Some(b), false)
    case Throws => EndStep(a, None, true)
    case _ => EndStep(a, None, false)
  }

  /** No target, or a drop onto itself: nothing changes and nothing is sent. */
  lemma DragEndNoTarget(a: Arrangement<string>, active: string, over: Option<string>)
    requires over.None? || over.value == active
    ensures DragEnd(a, active, over) == EndStep(a, None, false)
  {
  }

  /** A drop whose two ids resolve to different containers changes nothing
      and sends nothing. */
  lemma DragEndApart(a: Arrangement<string>, active: string, over: string)
    requires active != over && FindContainer(a, active) != FindContainer(a, over)
    ensures DragEnd(a, active, Some(over)) == EndStep(a, None, false)
  {
  }

  /** A drop throws exactly when its two ids differ and neither resolves to a
      container: both lookups give -1, so `items[-1].items` is read. The
      arrangement is then left as it was and nothing is sent. */
  lemma DragEndUnknownIds(a: Arrangement<string>, active: string, over: string)
    requires MoveDefined(LocateDrop(a, active, Some(over)))
    ensures DragEnd(a, active, Some(over)).thrown <==>
      active != over && FindContainer(a, active) == -1 && FindContainer(a, over) == -1
    ensures DragEnd(a, active, Some(over)).thrown ==> DragEnd(a, active, Some(over)) == EndStep(a, None, true)
  {
  }

  /** A drop inside one container rewrites only that container, by moving the
      active text to the over text's index; headers, container count and all
      other containers are kept, no slot is lost, and the new arrangement is
      always sent, and always differs from the old one. */
  lemma DragEndWithin(a: Arrangement<string>, active: string, over: string)
    requires LocateDrop(a, active, Some(over)).Within?
    requires MoveDefined(LocateDrop(a, active, Some(over)))
    ensures var d := LocateDrop(a, active, Some(over));
      var r := DragEnd(a, active, Some(over));
      && a[d.container].items[d.from] == Defined(active)
      && a[d.container].items[d.to] == Defined(over)
      && SameExcept(a, r.items, {d.container})
      && r.items[d.container].items == ArrayMove(a[d.container].items, d.from, d.to)
      && multiset(Flatten(r.items)) == multiset(Flatten(a))
      && r.sent == Some(r.items) && !r.thrown
      && r.items != a
  {
    var d := LocateDrop(a, active, Some(over));
    var r := DragEnd(a, active, Some(over));
    MoveWithinKeepsSlots(a, d.container, d.from, d.to);
    ArrayMoveShifts(a[d.container].items, d.from, d.to);
    assert r.items[d.container].items[d.to] == Defined(active) != a[d.container].items[d.to];
  }

  /** `handleDragStart`: record the dragged text, snapshot `items`. */
  function DragStart(s: Session, active: string): (r: Session)
    ensures r.activeItem == Dragging(active)
    ensures r.clonedItems == s.items && r.items == s.items
  {
    Session(s.items, s.items, Dragging(active))
  }

  /** `handleDragCancel`: forget the dragged text, restore the snapshot. */
  function DragCancel(s: Session): (r: Session)
    ensures r.activeItem == Idle
    ensures r.items == s.clonedItems && r.clonedItems == s.clonedItems
  {
    Session(s.clonedItems, s.clonedItems, Idle)
  }

  /** One `handleDragOver` on the whole component state. */
  function OverStep(s: Session, h: Hover): (r: Session)
    ensures r.clonedItems == s.clonedItems && r.activeItem == s.activeItem
    ensures DragOver(s.items, h.active, h.over).Normal? ==> r.items == DragOver(s.items, h.active, h.over).value
    ensures DragOver(s.items, h.active, h.over).Thrown? ==> r == s
  {
    match DragOver(s.items, h.active, h.over)
    case Normal(b) => s.(items := b)
    case Thrown => s
  }

  /** A run of hover events. */
  function Hovering(s: Session, hs: seq<Hover>): Session
    decreases |hs|
  {
    if |hs| == 0 then s else Hovering(OverStep(s, hs[0]), hs[1..])
  }

  /** Hovering never touches the snapshot or the dragged item. */
  lemma {:induction false} HoveringKeepsSnapshot(s: Session, hs: seq<Hover>)
    ensures Hovering(s, hs).clonedItems == s.clonedItems
    ensures Hovering(s, hs).activeItem == s.activeItem
    decreases |hs|
  {
    if |hs| > 0 {
      HoveringKeepsSnapshot(OverStep(s, hs[0]), hs[1..]);
    }
  }

  /** A drag that is cancelled rolls back every hover since it started, not
      just the last one: the arrangement is exactly the one at drag start. */
  lemma CancelRollsBack(s: Session, active: string, hs: seq<Hover>)
    ensures DragCancel(Hovering(DragStart(s, active), hs)) == Session(s.items, s.items, Idle)
  {
    HoveringKeepsSnapshot(DragStart(s, active), hs);
  }

  /** Two containers, A holding x and y, B holding z. */
  function Sample(): Arrangement<string> {
    [Container("A", [Defined("x"), Defined("y")]), Container("B", [Defined("z")])]
  }

  /** `Sample()` after x has been hovered over the header B. */
  function SampleHovered(): Arrangement<string> {
    [Container("A", [Defined("y")]), Container("B", [Defined("x"), Defined("z")])]
  }

  /** Hovering x over the header B moves it to B at x's old index 0 (before
      z, not after it). */
  lemma HoverIntoHeader()
    ensures DragOver(Sample(), "x", Some("B")) == Normal(SampleHovered())
  {
    var a := Sample();
    assert HeaderIndex(a, "x") == -1 && ContainerIncludingFrom(a, "x", 0) == 0;
    assert FindContainer(a, "x") == 0 && FindContainer(a, "B") == 1;
    assert IndexOf(a[0].items, Defined("x")) == 0;
    assert At(a[0].items, 0) == Defined("x");
    assert Slice(a[0].items, 0, 0) == [] && SliceFrom(a[0].items, 1) == [Defined("y")];
    assert Slice(a[1].items, 0, 0) == [] && SliceFrom(a[1].items, 0) == [Defined("z")];
    var b := HoverMove(a, 0, 1, 0);
    assert b[0] == SampleHovered()[0] && b[1] == SampleHovered()[1];
    assert b == SampleHovered();
  }

  /** Releasing x after that hover, with no target, sends nothing. */
  lemma ReleaseAfterHover()
    ensures DragEnd(SampleHovered(), "x", None).sent == None
  {
  }

  /** Dropping x onto y inside A gives A = [y, x] and sends it. */
  lemma DropOntoNeighbour()
    ensures var swapped := [Container("A", [Defined("y"), Defined("x")]), Container("B", [Defined("z")])];
      DragEnd(Sample(), "x", Some("y")) == EndStep(swapped, Some(swapped), false)
  {
    var a := Sample();
    assert HeaderIndex(a, "x") == -1 && ContainerIncludingFrom(a, "x", 0) == 0;
    assert HeaderIndex(a, "y") == -1 && ContainerIncludingFrom(a, "y", 0) == 0;
    assert IndexOf(a[0].items, Defined("x")) == 0 && IndexOf(a[0].items, Defined("y")) == 1;
    assert LocateDrop(a, "x", Some("y")) == Within(0, 0, 1);
    var b := MoveWithin(a, 0, 0, 1);
    ArrayMoveShifts(a[0].items, 0, 1);
    assert b[0].items == [Defined("y"), Defined("x")];
    assert b == [Container("A", [Defined("y"), Defined("x")]), Container("B", [Defined("z")])];
    assert DragEnd(a, "x", Some("y")) == EndStep(b, Some(b), false);
  }

  /** The component: the three fields and one method per drag handler. */
  class SortableComponent {
    var items: Arrangement<string>
    var clonedItems: Arrangement<string>
    var activeItem: ActiveItem

    function State(): Session
      reads this
    {
      Session(items, clonedItems, activeItem)
    }

    /** Both arrangements start as the host's containers; nothing is dragged. */
    constructor (props: seq<Description>)
      ensures items == Lift(props) && clonedItems == Lift(props) && activeItem == Idle
    {
      items := Lift(props);
      clonedItems := Lift(props);
      activeItem := Idle;
    }

    method HandleDragStart(active: string)
      modifies this
      ensures activeItem == Dragging(active) && clonedItems == old(items) && items == old(items)
      ensures State() == DragStart(old(State()), active)
    {
      activeItem := Dragging(active);
      clonedItems := items;
    }

    method HandleDragCancel()
      modifies this
      ensures activeItem == Idle && items == old(clonedItems) && clonedItems == old(clonedItems)
      ensures State() == DragCancel(old(State()))
    {
      activeItem := Idle;
      items := clonedItems;
    }

    /** Only `items` may change, and only when the handler runs to its end. */
    method HandleDragOver(active: string, over: Option<string>) returns (thrown: bool)
      modifies this
      ensures clonedItems == old(clonedItems) && activeItem == old(activeItem)
      ensures thrown <==> DragOver(old(items), active, over).Thrown?
      ensures !thrown ==> items == DragOver(old(items), active, over).value
      ensures thrown ==> items == old(items)
      ensures State() == OverStep(old(State()), Hover(active, over))
    {
      thrown := false;
      if over.None? {
        return;
      }
      var activeContainerIndex := FindContainer(items, active);
      var overContainerIndex := FindContainer(items, over.value);
      if overContainerIndex < 0 {
        return;
      }
      if activeContainerIndex == overContainerIndex {
        return;
      }
      if activeContainerIndex < 0 {
        // `items[-1]` is undefined: reading its `items` throws.
        thrown := true;
        return;
      }
      var activeItemIndex := IndexOf(items[activeContainerIndex].items, Defined(active));
      var newItems := HoverMove(items, activeContainerIndex, overContainerIndex, activeItemIndex);
      items := newItems;
    }

    /** `activeItem` is cleared first, whatever follows. */
    method HandleDragEnd(active: string, over: Option<string>) returns (sent: Option<Arrangement<string>>, thrown: bool)
      requires MoveDefined(LocateDrop(items, active, over))
      modifies this
      ensures activeItem == Idle && clonedItems == old(clonedItems)
      ensures EndStep(items, sent, thrown) == DragEnd(old(items), active, over)
    {
      var a := items;
      ghost var drop := LocateDrop(a, active, over);
      activeItem := Idle;
      sent, thrown := None, false;
      if over.None? {
        return;
      }
      if active == over.value {
        return;
      }
      var activeContainerIndex := FindContainer(a, active);
      var overContainerIndex := FindContainer(a, over.value);
      if activeContainerIndex == overContainerIndex {
        if activeContainerIndex < 0 {
          // `items[-1]` is undefined: reading its `items` throws.
          assert drop == Throws;
          thrown := true;
          return;
        }
        var container := a[activeContainerIndex];
        var activeItemIndex := IndexOf(container.items, Defined(active));
        var overItemIndex := IndexOf(container.items, Defined(over.value));
        assert drop == Within(activeContainerIndex, activeItemIndex, overItemIndex);
        var newItems := MoveWithin(a, activeContainerIndex, activeItemIndex, overItemIndex);
        assert DragEnd(a, active, over) == EndStep(newItems, Some(newItems), false);
        items := newItems;
        sent := Some(newItems);
      } else {
        assert drop == Apart;
      }
    }
  }
}
