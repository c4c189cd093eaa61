# Drag-state reducer of the sortable-list widget

streamlit-sortables renders several titled containers of items and lets the user drag items inside a container and across containers. The front-end component keeps three pieces of state:

- `items`: the current arrangement;
- `clonedItems`: a snapshot taken when a drag starts;
- `activeItem`: the item being dragged.

Four handlers update that state: drag start, drag cancel, drag over (hover) and drag end (drop). A drop may hand the new arrangement back to the host. The text-keyed drop handler does so for every completed drop inside one container. The id-keyed one first stores the new arrangement. It then reports it only when `isSameOrder` says the order of ids changed and every slot projects to a text. The repository ships two variants of the component. Both are modelled, each in its own module:

- `Sortable` (`sortable.dfy`) is the text-keyed variant. Items are their own texts, and the id of a draggable is its text.
- `Sortables` (`sortables.dfy`) is the id-keyed variant. Items are `{id, text}` records. The id is the item's decimal index inside its own container. A drop notifies the host only when `isSameOrder` reports a change.

Two modules are shared by both variants:

- `Js` (`js.dfy`) models the JavaScript semantics the handlers rely on:
  - `undefined` elements;
  - a `TypeError` thrown when reading a property of `undefined`;
  - `arr[i]`, including `arr[-1]`;
  - `slice` with negative and out-of-range indices;
  - `indexOf`.
- `Arrangements` (`arrangements.dfy`) models:
  - containers, and arrangements of them;
  - the header lookup;
  - the cross-container splice of the hover handler;
  - `arrayMove` (remove at `from`, then insert at `to`);
  - frame and multiset facts: what changes, and that nothing is lost.

Each container slot is `Maybe<X>`, because the hover handlers can store `undefined` in a container. A property read of `undefined` is a `Completion.Thrown`. A throw aborts the handler, and any state setter already called keeps its effect:

- `setActiveItem` runs first in the drop handler;
- in the id-keyed drop, `setItems(newItems)` runs before `isSameOrder` and the projection to texts.

Each component is a class. Its fields are `items`, `clonedItems` and `activeItem`, and it has one method per handler. Each method's postcondition ties the new state to a pure function of the old state:

- `DragStart`, `DragCancel`, `OverStep`, `DragEnd`;
- the functions return the datatypes `Session` and `EndStep`.

The lemmas state the properties of those functions.

Behaviour of the code, as modelled, where one might expect otherwise:

- The text-keyed cross-container hover inserts the moved text into the target at the index the text had in its SOURCE container, clamped by `slice`. It does not insert at the hovered item's position. So hovering `x` (index 0 of `A`) over header `B = [z]` gives `B = [x, z]` (`Sortable.HoverIntoHeader`).
- Some gestures make a handler throw instead of being ignored:
  - a text-keyed hover whose active text is in no container while its target resolves to one (`Sortable.DragOverUnknownActive`);
  - a text-keyed drop whose two different ids are both in no container (`Sortable.DragEndUnknownIds`);
  - an id-keyed hover whose active id is in no container while its target resolves to one, or whose container lookups meet an `undefined` slot (`Sortables.DragOverUnknownActive`);
  - an id-keyed drop whose two ids are both in no container, or whose container or `findIndex` lookups meet an `undefined` slot (`Sortables.DragEndThrows`). After a cross-container hover such a slot is present.
- A drop with no `over` target never notifies the host, even after hovers have moved the item to another container. The same holds for a drop whose two ids resolve to different containers.
- The text-keyed variant notifies on every drop inside one container that is not onto the item itself. It does not compare with the snapshot.
- In the id-keyed hover, `indexOf(active.id)` compares `{id, text}` objects with a string, so it is always -1:
  - the moved element is `undefined`;
  - the source container becomes "all but its last slot, then all of it";
  - the target gains an `undefined` slot before its last element.
- In the id-keyed variant, ids repeat across containers, because every container numbers its items from "0". So a drop is resolved in the first container that holds the id (`Sortables.DropInSecondContainerMovesFirst`).

## Model

Paths are relative to the repository root. `streamlit_sortable/...` is the text-keyed variant and `streamlit_sortables/...` is the id-keyed one.

| member | source | states |
|---|---|---|
| Js.At | streamlit_sortables/frontend/src/SortableComponent.tsx:240 | an element read is defined only inside the array and is then that element; `arr[-1]` is `undefined` |
| Js.IndexOf | streamlit_sortable/frontend/src/SortableComponent.tsx:154-155 | the first index holding the value, with no earlier occurrence; -1 exactly when the value is absent |
| Js.Slice | streamlit_sortable/frontend/src/SortableComponent.tsx:198-203 | `slice(start, end)` clamps both indices into the array (negative ones counted from the end) and is the elements between them, in order, or empty when the start is not before the end |
| Js.SliceFrom | streamlit_sortables/frontend/src/SortableComponent.tsx:204-209 | `slice(start)` is everything from the clamped start to the end |
| Js.SliceDropLast | streamlit_sortables/frontend/src/SortableComponent.tsx:204 | `slice(0, -1)` is all but the last element, and empty for an empty array |
| Js.SliceLast | streamlit_sortables/frontend/src/SortableComponent.tsx:209 | `slice(-1)` is the last element alone, and empty for an empty array |
| Js.SliceClamped | streamlit_sortable/frontend/src/SortableComponent.tsx:203 | an end index past the array is clamped to its length |
| Arrangements.HeaderIndex | streamlit_sortable/frontend/src/SortableComponent.tsx:216 | the first container with the header, none before it; -1 exactly when no container has that header |
| Arrangements.RemoveAt | streamlit_sortable/frontend/src/SortableComponent.tsx:198 | one element fewer, and exactly the element at the index removed (multiset) |
| Arrangements.InsertAt | streamlit_sortable/frontend/src/SortableComponent.tsx:203 | one element more, the new element at the index, everything else kept (multiset) |
| Arrangements.ArrayMove | streamlit_sortable/frontend/src/SortableComponent.tsx:161 | `arrayMove` keeps the length and the multiset of elements and puts the element at `from` at index `to` |
| Arrangements.ArrayMoveShifts | streamlit_sortable/frontend/src/SortableComponent.tsx:161 | `arrayMove` keeps length and contents, puts the moved element at `to`, shifts the elements between `from` and `to` by one and leaves the rest in place |
| Arrangements.ArrayMoveInPlace | streamlit_sortables/frontend/src/SortableComponent.tsx:159 | moving an element to its own index changes nothing |
| Arrangements.HoverMove | streamlit_sortable/frontend/src/SortableComponent.tsx:194-211 | the hover's rewrite keeps the container count, every header and every container other than source and target |
| Arrangements.HoverMoveSplices | streamlit_sortable/frontend/src/SortableComponent.tsx:198-203 | for an index inside the source, the two spreads are "remove at k" on the source and "insert at min(k, target length)" on the target |
| Arrangements.HoverMoveFound | streamlit_sortable/frontend/src/SortableComponent.tsx:192-212 | with a found index, the element leaves the source and joins the target; no slot is lost or duplicated and the total count is kept |
| Arrangements.HoverMoveNotFound | streamlit_sortables/frontend/src/SortableComponent.tsx:198-217 | with index -1, the source becomes all but its last slot followed by all of it, the target gains `undefined` before its last element, and the total count grows by the source length, or by one for an empty source |
| Arrangements.MoveWithin | streamlit_sortable/frontend/src/SortableComponent.tsx:157-169 | the drop's rewrite keeps the container count, every header and every other container |
| Arrangements.MoveWithinKeepsSlots | streamlit_sortables/frontend/src/SortableComponent.tsx:155-167 | the drop keeps the container's length and the arrangement's slots (multiset); moving onto the same index changes nothing |
| Arrangements.MoveWithinKeepsShape | streamlit_sortables/frontend/src/SortableComponent.tsx:155-167 | the drop keeps every container's length and introduces no `undefined` slot |
| Sortable.Lift | streamlit_sortable/frontend/src/SortableComponent.tsx:79-80 | the initial arrangement has one container per host container, with the same header and the same length, and slot `j` holds the host's text `j`; no slot is `undefined` |
| Sortable.ContainerIncludingFrom | streamlit_sortable/frontend/src/SortableComponent.tsx:220 | the first container that includes the text, none before it; -1 exactly when none does |
| Sortable.FindContainer | streamlit_sortable/frontend/src/SortableComponent.tsx:215-221 | a header match wins, as the first such header; otherwise the first container holding the text; -1 exactly when neither exists |
| Sortable.DragOver | streamlit_sortable/frontend/src/SortableComponent.tsx:175-213 | a hover that completes keeps the container count |
| Sortable.DragOverStays | streamlit_sortable/frontend/src/SortableComponent.tsx:178-189 | no target, a target in no container, or both in one container: the arrangement is unchanged |
| Sortable.DragOverAcross | streamlit_sortable/frontend/src/SortableComponent.tsx:190-212 | a cross-container hover removes the text at its source index and inserts it in the target at min(that index, target length); other containers, headers and all slots are kept |
| Sortable.DragOverHeaderClash | streamlit_sortable/frontend/src/SortableComponent.tsx:192-203 | when the active text resolves (through a header) to a container that does not hold it, the source becomes all but its last slot followed by all of it, and the target gains `undefined` before its last element |
| Sortable.DragOverUnknownActive | streamlit_sortable/frontend/src/SortableComponent.tsx:181-192 | a resolvable target with an active text in no container throws |
| Sortable.LocateDrop | streamlit_sortable/frontend/src/SortableComponent.tsx:142-155 | a same-container drop gives a container index and two indices inside that container, or -1 |
| Sortable.DragEnd | streamlit_sortable/frontend/src/SortableComponent.tsx:139-173 | whatever the drop sends is the new arrangement |
| Sortable.DragEndNoTarget | streamlit_sortable/frontend/src/SortableComponent.tsx:142-147 | no target, or a drop onto itself: nothing changes, nothing is sent |
| Sortable.DragEndUnknownIds | streamlit_sortable/frontend/src/SortableComponent.tsx:145-153 | a drop throws exactly when its two ids differ and neither resolves to a container (`items[-1]`); the arrangement is then unchanged and nothing is sent |
| Sortable.DragEndApart | streamlit_sortable/frontend/src/SortableComponent.tsx:149-152 | ids in different containers: nothing changes, nothing is sent |
| Sortable.DragEndWithin | streamlit_sortable/frontend/src/SortableComponent.tsx:152-171 | a same-container drop moves the active text to the over text's index in that container only, keeps all slots, always differs from the old arrangement and is always sent |
| Sortable.DragStart | streamlit_sortable/frontend/src/SortableComponent.tsx:129-132 | the dragged text is recorded and the snapshot and the arrangement are both the current arrangement |
| Sortable.DragCancel | streamlit_sortable/frontend/src/SortableComponent.tsx:134-137 | nothing is dragged and the arrangement is the snapshot, which is kept |
| Sortable.OverStep | streamlit_sortable/frontend/src/SortableComponent.tsx:175-213 | a hover keeps the snapshot and the dragged text; the arrangement becomes the hover's result, and a hover that throws changes nothing |
| Sortable.HoveringKeepsSnapshot | streamlit_sortable/frontend/src/SortableComponent.tsx:175-213 | any run of hovers leaves the snapshot and the dragged item untouched |
| Sortable.CancelRollsBack | streamlit_sortable/frontend/src/SortableComponent.tsx:129-137 | start, any hovers, then cancel: the arrangement is the one at drag start and nothing is dragged |
| Sortable.HoverIntoHeader | streamlit_sortable/frontend/src/SortableComponent.tsx:175-213 | hovering `x` over header `B` gives `A = [y]`, `B = [x, z]` |
| Sortable.ReleaseAfterHover | streamlit_sortable/frontend/src/SortableComponent.tsx:139-144 | releasing `x` after that hover, with no target, sends nothing |
| Sortable.DropOntoNeighbour | streamlit_sortable/frontend/src/SortableComponent.tsx:139-173 | dropping `x` onto `y` gives `A = [y, x]` and sends it |
| Sortable.SortableComponent.constructor | streamlit_sortable/frontend/src/SortableComponent.tsx:79-81 | both arrangements start as the host's containers; nothing is dragged |
| Sortable.SortableComponent.HandleDragStart | streamlit_sortable/frontend/src/SortableComponent.tsx:129-132 | records the dragged text and snapshots the current arrangement |
| Sortable.SortableComponent.HandleDragCancel | streamlit_sortable/frontend/src/SortableComponent.tsx:134-137 | clears the dragged text and restores the snapshot |
| Sortable.SortableComponent.HandleDragOver | streamlit_sortable/frontend/src/SortableComponent.tsx:175-213 | only `items` changes, to the hover result, and only when the handler does not throw |
| Sortable.SortableComponent.HandleDragEnd | streamlit_sortable/frontend/src/SortableComponent.tsx:139-173 | clears the dragged text in every case; the new `items`, the sent value and the throw are those of the drop function |
| Sortables.DecimalString | streamlit_sortables/frontend/src/SortableComponent.tsx:77 | `index.toString()` has at least one digit, and at least two from ten on |
| Sortables.DecimalStringInjective | streamlit_sortables/frontend/src/SortableComponent.tsx:77 | different indices get different ids |
| Sortables.Numbered | streamlit_sortables/frontend/src/SortableComponent.tsx:77 | one defined item per text, in order: slot `j` holds the id `j` written in decimal and the text `j` |
| Sortables.WithIds | streamlit_sortables/frontend/src/SortableComponent.tsx:74-79 | one container per host container, with no `undefined` slot |
| Sortables.WithIdsDistinctWithin | streamlit_sortables/frontend/src/SortableComponent.tsx:74-79 | ids are distinct inside a container |
| Sortables.WithIdsRepeatAcross | streamlit_sortables/frontend/src/SortableComponent.tsx:74-79 | items at the same index of two containers share their id |
| Sortables.IdIndexFrom | streamlit_sortables/frontend/src/SortableComponent.tsx:152-153 | `findIndex` by id: the first match with only defined non-matches before it, -1 when all are defined non-matches, a throw only at an `undefined` slot |
| Sortables.IdIndex | streamlit_sortables/frontend/src/SortableComponent.tsx:152-153 | the first slot holding the id, or -1 when none does; never throws on a fully defined container |
| Sortables.SomeHasId | streamlit_sortables/frontend/src/SortableComponent.tsx:226 | `some` by id: true means some slot holds the id, false means none does, a throw means an `undefined` slot |
| Sortables.ContainerWithIdFrom | streamlit_sortables/frontend/src/SortableComponent.tsx:226 | the first container holding the id, none before it; -1 when none does; a throw only with an `undefined` slot |
| Sortables.FindContainer | streamlit_sortables/frontend/src/SortableComponent.tsx:221-227 | a header match wins; otherwise the first container holding the id; -1 means neither; a throw needs an `undefined` slot and never happens on a fully defined arrangement |
| Sortables.SameIdsFrom | streamlit_sortables/frontend/src/SortableComponent.tsx:239-241 | the inner `every`: true means every later item has a defined partner with its id; false names a differing pair; on defined equal-length containers it is pointwise id equality |
| Sortables.SameContainersFrom | streamlit_sortables/frontend/src/SortableComponent.tsx:234-242 | the outer `every`: true means equal headers and id prefixes in every later container |
| Sortables.IsSameOrder | streamlit_sortables/frontend/src/SortableComponent.tsx:229-243 | different container counts give false; true means the same headers and, per container, the second's ids start with the first's |
| Sortables.SameIdsExact | streamlit_sortables/frontend/src/SortableComponent.tsx:239-241 | on defined equal-length containers the inner `every` is equality of id sequences |
| Sortables.SameContainersExact | streamlit_sortables/frontend/src/SortableComponent.tsx:234-242 | on comparable arrangements the outer `every` is equality of headers and id sequences |
| Sortables.IsSameOrderExact | streamlit_sortables/frontend/src/SortableComponent.tsx:229-243 | on fully defined arrangements with matching container lengths, `isSameOrder` is exactly equality of header and id order |
| Sortables.IsSameOrderReflexive | streamlit_sortables/frontend/src/SortableComponent.tsx:229-243 | a fully defined arrangement has the same order as itself |
| Sortables.IsSameOrderMissesAppended | streamlit_sortables/frontend/src/SortableComponent.tsx:239-241 | a container that gained an item at its end still compares equal |
| Sortables.IsSameOrderThrowsOnShorter | streamlit_sortables/frontend/src/SortableComponent.tsx:240 | a new container shorter than the snapshot's makes the comparison throw |
| Sortables.SameIdsIgnoresTexts | streamlit_sortables/frontend/src/SortableComponent.tsx:239-241 | the inner `every` depends on the ids only |
| Sortables.SameContainersIgnoresTexts | streamlit_sortables/frontend/src/SortableComponent.tsx:234-242 | the outer `every` depends on headers and ids only |
| Sortables.IsSameOrderIgnoresTexts | streamlit_sortables/frontend/src/SortableComponent.tsx:229-243 | changing texts never changes the comparison, throw included |
| Sortables.Texts | streamlit_sortables/frontend/src/SortableComponent.tsx:173 | the texts, pointwise, exactly when no slot is `undefined` |
| Sortables.Project | streamlit_sortables/frontend/src/SortableComponent.tsx:171-174 | the value sent keeps headers and container lengths with each item's text, and exists exactly when no slot is `undefined` |
| Sortables.ProjectWithIds | streamlit_sortables/frontend/src/SortableComponent.tsx:74-79 | adding ids and projecting back to texts gives the host's containers again |
| Sortables.DragOver | streamlit_sortables/frontend/src/SortableComponent.tsx:181-219 | a hover that completes keeps the container count |
| Sortables.DragOverStays | streamlit_sortables/frontend/src/SortableComponent.tsx:184-195 | no target, a target in no container, or both in one container: the arrangement is unchanged |
| Sortables.DragOverUnknownActive | streamlit_sortables/frontend/src/SortableComponent.tsx:184-198 | a hover throws exactly when either lookup throws, or when the target resolves and the active id is in no container; on a fully defined arrangement only the last case throws |
| Sortables.DragOverAcross | streamlit_sortables/frontend/src/SortableComponent.tsx:196-218 | a cross-container hover leaves the item where it was, rewrites the source as all-but-last then all, adds `undefined` to the target, and grows the arrangement |
| Sortables.LocateDrop | streamlit_sortables/frontend/src/SortableComponent.tsx:142-153 | a same-container drop gives a container index and two indices inside it, or -1 |
| Sortables.DragEnd | streamlit_sortables/frontend/src/SortableComponent.tsx:140-179 | a drop that sends something does not throw |
| Sortables.Settle | streamlit_sortables/frontend/src/SortableComponent.tsx:169-177 | after `setItems`, the host is sent the projection exactly when `isSameOrder` is false and the projection succeeds; the step throws exactly when the comparison or the projection throws |
| Sortables.DragEndNoTarget | streamlit_sortables/frontend/src/SortableComponent.tsx:141-145 | no target: nothing changes, nothing is sent |
| Sortables.DragEndThrows | streamlit_sortables/frontend/src/SortableComponent.tsx:147-153 | a drop throws exactly when a container lookup throws, both ids are in no container, or a `findIndex` in their container meets an `undefined` slot; the arrangement is then unchanged and nothing is sent; on a fully defined arrangement only two unresolved ids throw |
| Sortables.DragEndApart | streamlit_sortables/frontend/src/SortableComponent.tsx:147-150 | ids in different containers: nothing changes, nothing is sent |
| Sortables.DragEndWithin | streamlit_sortables/frontend/src/SortableComponent.tsx:150-169 | a same-container drop moves the item with the active id to the index of the item with the over id in that container only, and keeps all slots |
| Sortables.DragEndNotifies | streamlit_sortables/frontend/src/SortableComponent.tsx:169-177 | the host is told exactly when `isSameOrder` is false and the projection succeeds; the handler throws exactly when either throws; what is sent carries the new headers, lengths and texts |
| Sortables.DragEndReportsChange | streamlit_sortables/frontend/src/SortableComponent.tsx:169-177 | with a comparable snapshot, the drop never throws, leaves no `undefined` slot, and notifies exactly when the order of ids changed |
| Sortables.SelfDropKeepsItems | streamlit_sortables/frontend/src/SortableComponent.tsx:150-169 | dropping an item onto itself leaves the arrangement unchanged |
| Sortables.UnmovedDropIsSilent | streamlit_sortables/frontend/src/SortableComponent.tsx:140-177 | with no hover since the drag started, a drop onto itself changes nothing and sends nothing |
| Sortables.DragStart | streamlit_sortables/frontend/src/SortableComponent.tsx:129-132 | the dragged id and text are recorded and the snapshot and the arrangement are both the current arrangement |
| Sortables.DragCancel | streamlit_sortables/frontend/src/SortableComponent.tsx:134-138 | nothing is dragged and the arrangement is the snapshot, which is kept |
| Sortables.OverStep | streamlit_sortables/frontend/src/SortableComponent.tsx:181-219 | a hover keeps the snapshot and the dragged item; the arrangement becomes the hover's result, and a hover that throws changes nothing |
| Sortables.HoveringKeepsSnapshot | streamlit_sortables/frontend/src/SortableComponent.tsx:181-219 | any run of hovers leaves the snapshot and the dragged item untouched |
| Sortables.CancelRollsBack | streamlit_sortables/frontend/src/SortableComponent.tsx:129-138 | start, any hovers, then cancel restores the arrangement at drag start, duplicates and `undefined` slots gone |
| Sortables.HoverIntoHeader | streamlit_sortables/frontend/src/SortableComponent.tsx:196-218 | hovering `x` over header `B` gives `A = [x, x, y]` and `B = [undefined, z]` |
| Sortables.SampleSwapLocated | streamlit_sortables/frontend/src/SortableComponent.tsx:147-153 | dropping `x` onto `y` locates both in `A`, at indices 0 and 1 |
| Sortables.SampleSwapMoved | streamlit_sortables/frontend/src/SortableComponent.tsx:155-167 | moving index 0 of `A` to index 1 swaps `x` and `y` and leaves `B` alone |
| Sortables.SampleSwapReported | streamlit_sortables/frontend/src/SortableComponent.tsx:170-174 | the swap changes the id order and projects to `A = [y, x]`, `B = [z]` |
| Sortables.DropOntoNeighbour | streamlit_sortables/frontend/src/SortableComponent.tsx:140-179 | dropping `x` onto `y` gives `A = [y, x]` and sends the texts |
| Sortables.DropInSecondContainerMovesFirst | streamlit_sortables/frontend/src/SortableComponent.tsx:221-227 | with repeated ids, a drop meant for the second container reorders the first |
| Sortables.SortableComponent.constructor | streamlit_sortables/frontend/src/SortableComponent.tsx:74-82 | both arrangements start as the host's containers with ids; nothing is dragged |
| Sortables.SortableComponent.HandleDragStart | streamlit_sortables/frontend/src/SortableComponent.tsx:129-132 | records the dragged id and text and snapshots the current arrangement |
| Sortables.SortableComponent.HandleDragCancel | streamlit_sortables/frontend/src/SortableComponent.tsx:134-138 | clears the dragged item and restores the snapshot |
| Sortables.SortableComponent.HandleDragOver | streamlit_sortables/frontend/src/SortableComponent.tsx:181-219 | only `items` changes, to the hover result, and only when the handler does not throw |
| Sortables.SortableComponent.HandleDragEnd | streamlit_sortables/frontend/src/SortableComponent.tsx:140-179 | clears the dragged item in every case; keeps the snapshot; the new `items`, the sent value and the throw are those of the drop function |

## Left out

- Rendering is not modelled: the `Container` and `SortableItem` components, the drag overlay, the pointer, touch and keyboard sensors with their activation constraints, and the Streamlit wrapper that reads the host's arguments.
- The id-keyed render reads `item.id` of every slot (streamlit_sortables/frontend/src/SortableComponent.tsx:113-117). So the first re-render after a completed cross-container hover, which leaves an `undefined` slot, throws a `TypeError`. The model does not capture this. Lemmas that continue a session past such a hover describe the handler functions on states the running widget does not reach. Examples are `Sortables.CancelRollsBack`, `Sortables.DragEndNotifies` and `Sortables.DragEndThrows` with an `undefined` slot.
- `Streamlit.setComponentValue` is modelled as the `sent` value of a drop. `Streamlit.setFrameHeight` and `console.log` have no effect on the state and are left out.
- React state updates are applied at once, and each event sees the state the previous event left. Within one handler this matches the code, because no handler reads a field after setting it. Re-render timing between events is not modelled.
- Arrangements.ArrayMove: `arrayMove` comes from the dnd-kit library, whose code is not in the repository. The model assumes it removes the element at `from` and then inserts it at `to`.
- Sortable.DragEnd: requires both `indexOf` results to be real indices. A drop whose `over` id names the header of the container holding the active item passes -1 to `arrayMove`, whose behaviour for negative indices belongs to the dnd-kit library. The library is not part of this model.
- Sortable.SortableComponent.HandleDragEnd: has the same requirement as `Sortable.DragEnd`, for the same reason.
- Sortables.DragEnd: requires both `findIndex` results to be real indices, for the same reason as `Sortable.DragEnd`.
- Sortables.SortableComponent.HandleDragEnd: has the same requirement as `Sortables.DragEnd`.
- Event ids are modelled as strings. dnd-kit also allows numeric ids, which this widget never produces.
- In the id-keyed start handler, `event.active.text` is a parameter that may be `undefined`. The event object that supplies it is not part of this model.
- A thrown `TypeError` is modelled as the handler stopping at that point. What React does with an exception escaping an event handler is not modelled.
