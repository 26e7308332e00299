/**
 * The whiteboard's element model: the four drawable variants, the factory
 * that builds them and the coordinate normalisation applied when a drawing
 * or resizing gesture ends.
 */
module Elements {

  datatype Point = Point(x: int, y: int)

  /** The two defining corners (or endpoints) of a line, rectangle or text box. */
  datatype Coords = Coords(x1: int, y1: int, x2: int, y2: int)

  /** The element types the factory accepts: "line", "rectangle", "pencil", "text". */
  datatype ElementKind = LineKind | RectangleKind | PencilKind | TextKind

  /** A drawable element; `id` is its position in the owning snapshot. */
  datatype Element =
    | Line(id: nat, x1: int, y1: int, x2: int, y2: int)
    | Rectangle(id: nat, x1: int, y1: int, x2: int, y2: int)
    | Pencil(id: nat, points: seq<Point>)
    | Text(id: nat, x1: int, y1: int, x2: int, y2: int, text: string)

  /** The errors the source throws from its handlers. */
  datatype Fault =
    | UnrecognizedElementType  // an element type outside the four variants
    | InvalidResizeHandle      // resizing from a position that names no handle
    | MissingElement           // the index names no element (or no stroke) in the snapshot
    | MissingText              // a text update without the text to place

  /** One snapshot of the drawing: the whole element collection. */
  type Snapshot = seq<Element>

  function KindOf(e: Element): ElementKind
  {
    match e
    case Line(_, _, _, _, _) => LineKind
    case Rectangle(_, _, _, _, _) => RectangleKind
    case Pencil(_, _) => PencilKind
    case Text(_, _, _, _, _, _) => TextKind
  }

  /** The coordinates of an element that has them (every variant but the pencil). */
  function BoxOf(e: Element): Coords
    requires !e.Pencil?
  {
    Coords(e.x1, e.y1, e.x2, e.y2)
  }

  /** The text height used when a text element's box is recomputed. */
  const TextHeight: nat := 24

  /**
   * Builds an element of the given type. A pencil stroke starts as the single
   * point (x1, y1); a text element starts empty.
   */
  function CreateElement(id: nat, x1: int, y1: int, x2: int, y2: int, kind: ElementKind): (e: Element)
    ensures e.id == id && KindOf(e) == kind
    ensures kind != PencilKind ==> BoxOf(e) == Coords(x1, y1, x2, y2)
    ensures kind == PencilKind ==> e.points == [Point(x1, y1)]
    ensures kind == TextKind ==> e.text == ""
  {
    match kind
    case LineKind => Line(id, x1, y1, x2, y2)
    case RectangleKind => Rectangle(id, x1, y1, x2, y2)
    case PencilKind => Pencil(id, [Point(x1, y1)])
    case TextKind => Text(id, x1, y1, x2, y2, "")
  }

  /** Every element of the snapshot carries its own position as its id. */
  predicate WellIndexed(s: Snapshot)
  {
    forall i :: 0 <= i < |s| ==> s[i].id == i
  }

  /** A rectangle is normalised when its first corner is the top-left one. */
  predicate RectangleNormal(c: Coords)
  {
    c.x1 <= c.x2 && c.y1 <= c.y2
  }

  /** A line is normalised when its start precedes its end, x first, then y. */
  predicate LineNormal(c: Coords)
  {
    c.x1 < c.x2 || (c.x1 == c.x2 && c.y1 <= c.y2)
  }

  /** The same segment with its endpoints exchanged. */
  function Reversed(c: Coords): Coords
  {
    Coords(c.x2, c.y2, c.x1, c.y1)
  }

  /**
   * Normalises the coordinates of an element of type `kind`: a rectangle gets
   * its per-axis minimum and maximum, anything else is treated as a line and
   * has its endpoints exchanged unless it is already in order.
   */
  function AdjustElementCoordinates(kind: ElementKind, c: Coords): (r: Coords)
    ensures kind == RectangleKind ==>
      RectangleNormal(r) && multiset{r.x1, r.x2} == multiset{c.x1, c.x2}
      && multiset{r.y1, r.y2} == multiset{c.y1, c.y2}
    ensures kind != RectangleKind ==> LineNormal(r) && (r == c || r == Reversed(c))
    ensures kind != RectangleKind && LineNormal(c) ==> r == c
  {
    if kind == RectangleKind then
      Coords(if c.x1 <= c.x2 then c.x1 else c.x2, if c.y1 <= c.y2 then c.y1 else c.y2,
             if c.x1 <= c.x2 then c.x2 else c.x1, if c.y1 <= c.y2 then c.y2 else c.y1)
    else if c.x1 < c.x2 || (c.x1 == c.x2 && c.y1 < c.y2) then c
    else Reversed(c)
  }

  /** Normalisation is idempotent: adjusting adjusted coordinates changes nothing. */
  lemma AdjustIdempotent(kind: ElementKind, c: Coords)
    ensures AdjustElementCoordinates(kind, AdjustElementCoordinates(kind, c))
         == AdjustElementCoordinates(kind, c)
  {
  }

  /** Normalised coordinates are exactly the fixed points of the adjustment. */
  lemma AdjustFixedPoints(kind: ElementKind, c: Coords)
    ensures AdjustElementCoordinates(kind, c) == c <==>
      (if kind == RectangleKind then RectangleNormal(c) else LineNormal(c))
  {
  }
}
