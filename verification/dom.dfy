/**
 * The parts of the document the drag engine touches: draggable elements with
 * an id and a left/top offset, mouse events, array-like collections, and the
 * `Utils.toArray` helper both versions of the engine share.
 */
module Dom {
  import opened Wrappers

  /** The errors the engine throws. */
  datatype Error =
    | NotConvertibleToArray   // Utils.toArray on a value without `length`
    | UniqueIdRequired        // a draggable element with a missing or repeated id
    | CallbackOnly            // startDrag invoked with a `this` that is not an element

  /** A pixel offset (left, top) or a page coordinate (x, y). */
  datatype Point = Point(x: int, y: int) {
    function Plus(q: Point): Point { Point(x + q.x, y + q.y) }
    function Minus(q: Point): Point { Point(x - q.x, y - q.y) }
  }

  /**
   * A draggable element. Its id is never written by the engine; its
   * `style.left`/`style.top` offsets are, in place.
   */
  class Element {
    const id: string
    var left: int
    var top: int

    constructor (id: string, left: int, top: int)
      ensures this.id == id && this.left == left && this.top == top
    {
      this.id := id;
      this.left := left;
      this.top := top;
    }
  }

  function OffsetOf(e: Element): Point
    reads e
  {
    Point(e.left, e.top)
  }

  /**
   * The fields of a mouse event the engine reads: whether the event target
   * carries the drag-handle attribute, the browser-reported movement since the
   * previous event, and the pointer's page coordinates.
   */
  datatype MouseEvent = MouseEvent(targetHasHandle: bool, movementX: int, movementY: int, pageX: int, pageY: int)
  {
    function Movement(): Point { Point(movementX, movementY) }
    function Page(): Point { Point(pageX, pageY) }
  }

  /**
   * A JavaScript value offered to `toArray`: a falsy value, a truthy value
   * whose `length` is undefined, or an array-like value with indexed elements.
   */
  datatype ArrayLike<T> = Falsy | NoLength | WithLength(elems: seq<T>)

  /** `Utils.toArray`: copy an array-like value into an array, or throw. */
  function ToArray<T>(input: ArrayLike<T>): (r: Result<seq<T>, Error>)
    ensures r.Ok? <==> input.WithLength?
    ensures r.Err? ==> r.error == NotConvertibleToArray
    ensures r.Ok? ==> |r.value| == |input.elems| &&
                      forall i :: 0 <= i < |r.value| ==> r.value[i] == input.elems[i]
  {
    match input
    case WithLength(elems) => Ok(elems)
    case _ => Err(NotConvertibleToArray)
  }
}
