/**
 * The framework-free drag engine `DynamicLayout`: a registry of draggable
 * elements, a single moving-item slot, a container-level mousemove listener
 * that is attached and detached with the drag, and a `pr-dynamic-layout`
 * event dispatched from the container on every mouseup.
 */
module DynamicLayout {
  import opened Wrappers
  import opened Dom
  import Registry

  /** The `this` a mousedown handler is invoked with. */
  datatype Receiver = ElementReceiver(element: Element) | OtherReceiver

  /** The sum of the movements reported by a run of mousemove events. */
  function TotalMovement(moves: seq<MouseEvent>): Point
  {
    if moves == [] then Point(0, 0) else moves[0].Movement().Plus(TotalMovement(moves[1..]))
  }

  /** The offset reached from `start` by applying each move's delta in turn. */
  function Displace(start: Point, moves: seq<MouseEvent>): Point
  {
    if moves == [] then start
    else Displace(start, moves[..|moves| - 1]).Plus(moves[|moves| - 1].Movement())
  }

  lemma {:induction false} TotalMovementSnoc(moves: seq<MouseEvent>, m: MouseEvent)
    ensures TotalMovement(moves + [m]) == TotalMovement(moves).Plus(m.Movement())
    decreases |moves|
  {
    if moves != [] {
      assert (moves + [m])[1..] == moves[1..] + [m];
      TotalMovementSnoc(moves[1..], m);
    }
  }

  /** However many moves a drag sees, the offset shifts by their summed movement. */
  lemma {:induction false} DisplaceIsTotalMovement(start: Point, moves: seq<MouseEvent>)
    ensures Displace(start, moves) == start.Plus(TotalMovement(moves))
    decreases |moves|
  {
    if moves != [] {
      var init, m := moves[..|moves| - 1], moves[|moves| - 1];
      assert moves == init + [m];
      DisplaceIsTotalMovement(start, init);
      TotalMovementSnoc(init, m);
    }
  }

  class Engine {
    var items: map<string, Element>   // $$items
    var movingItem: Element?          // $$movingItem; null stands for undefined
    var moveListening: bool           // onDrag attached to the container's mousemove
    var releaseListening: bool        // stopDrag attached to the document's mouseup
    var notifications: nat            // pr-dynamic-layout events dispatched so far

    ghost predicate Valid()
      reads this
    {
      Registry.KeyedById(items) && (moveListening <==> movingItem != null)
    }

    predicate Dragging()
      reads this
    {
      movingItem != null
    }

    /** The fields set up by the constructor before its registration pass. */
    constructor ()
      ensures Valid() && !Dragging()
      ensures items == map[] && !moveListening && releaseListening && notifications == 0
    {
      items := map[];
      movingItem := null;
      moveListening := false;
      releaseListening := true;
      notifications := 0;
    }

    /** Registers one element, throwing on an empty or already registered id. */
    method InitializeItem(item: Element) returns (err: Option<Error>)
      requires Valid()
      modifies this
      ensures Valid()
      ensures err.None? <==> Registry.IdAccepted(old(items), item.id)
      ensures err.Some? ==> err.value == UniqueIdRequired && items == old(items)
      ensures err.None? ==> items == old(items)[item.id := item]
      ensures movingItem == old(movingItem) && moveListening == old(moveListening)
      ensures releaseListening == old(releaseListening) && notifications == old(notifications)
    {
      if !Registry.IdAccepted(items, item.id) {
        return Some(UniqueIdRequired);
      }
      items := items[item.id := item];
      err := None;
    }

    /**
     * The constructor's registration pass: convert the query result to an
     * array and register its elements in order, stopping at the first throw.
     */
    method RegisterItems(found: ArrayLike<Element>) returns (err: Option<Error>)
      requires Valid()
      modifies this
      ensures Valid()
      ensures !found.WithLength? ==> err == Some(NotConvertibleToArray) && items == old(items)
      ensures found.WithLength? ==>
                items == Registry.Register(old(items), found.elems).registry &&
                (err.None? <==> Registry.Register(old(items), found.elems).complete) &&
                (err.Some? ==> err.value == UniqueIdRequired)
      ensures movingItem == old(movingItem) && moveListening == old(moveListening)
      ensures releaseListening == old(releaseListening) && notifications == old(notifications)
    {
      var arr := ToArray(found);
      if arr.Err? {
        return Some(arr.error);
      }
      var elems := arr.value;
      assert elems == found.elems;
      var i := 0;
      while i < |elems|
        invariant 0 <= i <= |elems|
        invariant Valid()
        invariant Registry.Register(old(items), elems) == Registry.Register(items, elems[i..])
        invariant movingItem == old(movingItem) && moveListening == old(moveListening)
        invariant releaseListening == old(releaseListening) && notifications == old(notifications)
      {
        assert elems[i..][1..] == elems[i + 1..];
        err := InitializeItem(elems[i]);
        if err.Some? {
          return;
        }
        i := i + 1;
      }
      err := None;
    }

    /**
     * mousedown on a registered element: only a press on the drag handle
     * starts a drag; the handler must then be running with an element as
     * `this`, which becomes the moving item, replacing any current one.
     */
    method StartDrag(receiver: Receiver, e: MouseEvent) returns (err: Option<Error>)
      requires Valid()
      modifies this
      ensures Valid() && items == old(items)
      ensures releaseListening == old(releaseListening) && notifications == old(notifications)
      ensures !e.targetHasHandle ==> err.None? && unchanged(this)
      ensures e.targetHasHandle && receiver.OtherReceiver? ==>
                err == Some(CallbackOnly) && unchanged(this)
      ensures e.targetHasHandle && receiver.ElementReceiver? ==>
                err.None? && movingItem == receiver.element && moveListening
    {
      if !e.targetHasHandle {
        return None;
      }
      if receiver.OtherReceiver? {
        return Some(CallbackOnly);
      }
      movingItem := receiver.element;
      moveListening := true;
      err := None;
    }

    /** mouseup anywhere in the document: back to idle, and one notification. */
    method StopDrag()
      requires Valid()
      modifies this
      ensures Valid() && !Dragging() && !moveListening
      ensures notifications == old(notifications) + 1
      ensures items == old(items) && releaseListening == old(releaseListening)
    {
      movingItem := null;
      moveListening := false;
      notifications := notifications + 1;
    }

    /** mousemove on the container while dragging: shift the moving item by the event's movement. */
    method OnDrag(e: MouseEvent)
      requires Valid() && moveListening
      modifies movingItem
      ensures movingItem.left == old(movingItem.left) + e.movementX
      ensures movingItem.top == old(movingItem.top) + e.movementY
      ensures forall k | k in items && items[k] != movingItem ::
                items[k].left == old(items[k].left) && items[k].top == old(items[k].top)
    {
      movingItem.left := movingItem.left + e.movementX;
      movingItem.top := movingItem.top + e.movementY;
    }

    /**
     * A gesture as the browser delivers it from idle: a mousedown on `item`
     * (with `item` as `this`), the mousemoves, which reach OnDrag only while
     * its listener is attached, and a mouseup.
     */
    method DragGesture(item: Element, press: MouseEvent, moves: seq<MouseEvent>)
      requires Valid() && !Dragging()
      modifies this, item
      ensures Valid() && !Dragging() && items == old(items)
      ensures notifications == old(notifications) + 1
      ensures OffsetOf(item) ==
                if press.targetHasHandle then old(OffsetOf(item)).Plus(TotalMovement(moves))
                else old(OffsetOf(item))
    {
      var err := StartDrag(ElementReceiver(item), press);
      var i := 0;
      while i < |moves|
        invariant 0 <= i <= |moves|
        invariant Valid() && items == old(items) && notifications == old(notifications)
        invariant moveListening == press.targetHasHandle
        invariant moveListening ==> movingItem == item
        invariant OffsetOf(item) ==
                    if press.targetHasHandle then Displace(old(OffsetOf(item)), moves[..i])
                    else old(OffsetOf(item))
      {
        if moveListening {
          OnDrag(moves[i]);
        }
        assert moves[..i + 1][..i] == moves[..i];
        i := i + 1;
      }
      StopDrag();
      assert moves[..|moves|] == moves;
      DisplaceIsTotalMovement(old(OffsetOf(item)), moves);
    }
  }
}
