/**
 * The drag engine of the `prGrid` directive's linking function: the same
 * registry and moving-item slot as the framework-free engine, no handle
 * check, deltas recomputed from the last recorded page position, and no
 * notification when a drag stops.
 */
module AngularDynamicLayout {
  import opened Wrappers
  import opened Dom
  import Registry

  /** The moving item's offset together with the last recorded pointer position. */
  datatype Tracking = Tracking(offset: Point, last: Point)

  /** One mousemove: shift by the pointer's travel since `last`, then record the new position. */
  function Step(t: Tracking, e: MouseEvent): Tracking
  {
    Tracking(t.offset.Plus(e.Page().Minus(t.last)), e.Page())
  }

  /** The tracking state after each move of `moves` in turn. */
  function Track(t: Tracking, moves: seq<MouseEvent>): Tracking
  {
    if moves == [] then t else Step(Track(t, moves[..|moves| - 1]), moves[|moves| - 1])
  }

  /** The page position of the last move, or `p0` when there was none. */
  function LastPage(p0: Point, moves: seq<MouseEvent>): Point
  {
    if moves == [] then p0 else moves[|moves| - 1].Page()
  }

  /**
   * The per-event deltas telescope: after moves at p1..pk from a press at p0
   * the offset has shifted by pk - p0, and pk is the recorded position.
   */
  lemma {:induction false} TrackTelescopes(t: Tracking, moves: seq<MouseEvent>)
    ensures Track(t, moves).offset == t.offset.Plus(LastPage(t.last, moves).Minus(t.last))
    ensures Track(t, moves).last == LastPage(t.last, moves)
    decreases |moves|
  {
    if moves != [] {
      TrackTelescopes(t, moves[..|moves| - 1]);
    }
  }

  class Grid {
    var items: map<string, Element>       // items
    var movingItem: Element?              // movingItem; null stands for undefined
    var lastMouseLocation: Option<Point>  // lastMouseLocation; None until the first press
    var moveListening: bool               // onDrag attached to the container's mousemove
    var releaseListening: bool            // stopDrag attached to the document's mouseup

    ghost predicate Valid()
      reads this
    {
      && Registry.KeyedById(items)
      && (moveListening <==> movingItem != null)
      && (moveListening ==> lastMouseLocation.Some?)
    }

    predicate Dragging()
      reads this
    {
      movingItem != null
    }

    /** The closure variables of the linking function and its document mouseup listener. */
    constructor ()
      ensures Valid() && !Dragging()
      ensures items == map[] && lastMouseLocation == None && !moveListening && releaseListening
    {
      items := map[];
      movingItem := null;
      lastMouseLocation := None;
      moveListening := false;
      releaseListening := true;
    }

    /**
     * The linking function's registration pass: convert the query result to
     * an array and register its elements in order, throwing on the first empty
     * or repeated id.
     */
    method RegisterItems(found: ArrayLike<Element>) returns (err: Option<Error>)
      requires Valid()
      modifies this
      ensures Valid()
      ensures !found.WithLength? ==> err == Some(NotConvertibleToArray) && items == old(items)
      ensures found.WithLength? ==>
                items == Registry.Register(old(items), found.elems).registry &&
                (err.None? <==> Registry.Register(old(items), found.elems).complete) &&
                (err.Some? ==> err.value == UniqueIdRequired)
      ensures movingItem == old(movingItem) && moveListening == old(moveListening)
      ensures lastMouseLocation == old(lastMouseLocation) && releaseListening == old(releaseListening)
    {
      var arr := ToArray(found);
      if arr.Err? {
        return Some(arr.error);
      }
      var elems := arr.value;
      assert elems == found.elems;
      var i := 0;
      while i < |elems|
        invariant 0 <= i <= |elems|
        invariant Valid()
        invariant Registry.Register(old(items), elems) == Registry.Register(items, elems[i..])
        invariant movingItem == old(movingItem) && moveListening == old(moveListening)
        invariant lastMouseLocation == old(lastMouseLocation) && releaseListening == old(releaseListening)
      {
        assert elems[i..][1..] == elems[i + 1..];
        var item := elems[i];
        if !Registry.IdAccepted(items, item.id) {
          return Some(UniqueIdRequired);
        }
        items := items[item.id := item];
        i := i + 1;
      }
      err := None;
    }

    /**
     * mousedown on a registered element (bound as `item`): it becomes the
     * moving item, replacing any current one, and the press position is recorded.
     */
    method StartDrag(item: Element, e: MouseEvent)
      requires Valid()
      modifies this
      ensures Valid() && Dragging() && moveListening
      ensures movingItem == item && lastMouseLocation == Some(e.Page())
      ensures items == old(items) && releaseListening == old(releaseListening)
    {
      movingItem := item;
      lastMouseLocation := Some(e.Page());
      moveListening := true;
    }

    /** mouseup anywhere in the document: back to idle; nothing is emitted. */
    method StopDrag()
      requires Valid()
      modifies this
      ensures Valid() && !Dragging() && !moveListening
      ensures items == old(items) && lastMouseLocation == old(lastMouseLocation)
      ensures releaseListening == old(releaseListening)
      ensures !old(Dragging()) ==> unchanged(this)
    {
      movingItem := null;
      moveListening := false;
    }

    /**
     * mousemove on the container while dragging: shift the moving item by the
     * pointer's travel since the last recorded position, and record the new one.
     */
    method OnDrag(e: MouseEvent)
      requires Valid() && moveListening
      modifies this, movingItem
      ensures Valid() && moveListening && movingItem == old(movingItem)
      ensures items == old(items) && releaseListening == old(releaseListening)
      ensures lastMouseLocation == Some(e.Page())
      ensures movingItem.left == old(movingItem.left) + (e.pageX - old(lastMouseLocation.value.x))
      ensures movingItem.top == old(movingItem.top) + (e.pageY - old(lastMouseLocation.value.y))
      ensures forall k | k in items && items[k] != movingItem ::
                items[k].left == old(items[k].left) && items[k].top == old(items[k].top)
    {
      var deltaX := e.pageX - lastMouseLocation.value.x;
      var deltaY := e.pageY - lastMouseLocation.value.y;
      lastMouseLocation := Some(e.Page());
      movingItem.left := movingItem.left + deltaX;
      movingItem.top := movingItem.top + deltaY;
    }

    /**
     * A gesture as the browser delivers it: a mousedown on `item`, the
     * mousemoves, and a mouseup. The item ends displaced by the pointer's
     * travel from the press to the last move.
     */
    method DragGesture(item: Element, press: MouseEvent, moves: seq<MouseEvent>)
      requires Valid()
      modifies this, item
      ensures Valid() && !Dragging() && items == old(items)
      ensures OffsetOf(item) == old(OffsetOf(item)).Plus(LastPage(press.Page(), moves).Minus(press.Page()))
      ensures lastMouseLocation == Some(LastPage(press.Page(), moves))
    {
      StartDrag(item, press);
      ghost var t0 := Tracking(old(OffsetOf(item)), press.Page());
      var i := 0;
      while i < |moves|
        invariant 0 <= i <= |moves|
        invariant Valid() && moveListening && movingItem == item && items == old(items)
        invariant Tracking(OffsetOf(item), lastMouseLocation.value) == Track(t0, moves[..i])
      {
        OnDrag(moves[i]);
        assert moves[..i + 1][..i] == moves[..i];
        i := i + 1;
      }
      StopDrag();
      assert moves[..|moves|] == moves;
      TrackTelescopes(t0, moves);
    }
  }
}
