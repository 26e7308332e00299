/**
 * The hit-tester: classifies a pointer position against an element as one of
 * its handles, its body or a miss, finds the first element hit in a snapshot,
 * and maps handles to resize behaviour and cursor hints.
 */
module HitTest {
  import opened Wrappers
  import opened Elements

  /** The named regions a pointer can hit: corner and endpoint handles, or the body. */
  datatype Position = TopLeft | TopRight | BottomLeft | BottomRight | Start | End | Inside

  /**
   * The point-on-segment test onLine(a, b, c, maxDistance), which compares the
   * length of a-b with the lengths of a-c plus c-b using square roots. It is a
   * parameter of the model: the hit-tester only depends on what it answers.
   */
  type OnLineTest = (Point, Point, Point, nat) -> bool

  /** Tolerance of the endpoint and corner handles, in both axes. */
  const HandleTolerance: nat := 5
  /** Tolerance of onLine for a line element and for a pencil segment. */
  const LineTolerance: nat := 1
  const StrokeTolerance: nat := 5

  function Abs(n: int): nat
  {
    if n < 0 then -n else n
  }

  /**
   * The pointer is within the handle tolerance of `q`, strictly, on both axes:
   * inside the open square of side 2 * HandleTolerance centred on `q`, which
   * makes nearness symmetric.
   */
  predicate NearPoint(p: Point, q: Point)
    ensures NearPoint(p, q) <==>
      q.x - HandleTolerance < p.x < q.x + HandleTolerance && q.y - HandleTolerance < p.y < q.y + HandleTolerance
    ensures NearPoint(p, q) <==>
      p.x - HandleTolerance < q.x < p.x + HandleTolerance && p.y - HandleTolerance < q.y < p.y + HandleTolerance
  {
    Abs(p.x - q.x) < HandleTolerance && Abs(p.y - q.y) < HandleTolerance
  }

  /** Inclusive containment in the box spanned from (x1, y1) to (x2, y2). */
  predicate InBox(p: Point, c: Coords)
  {
    c.x1 <= p.x <= c.x2 && c.y1 <= p.y <= c.y2
  }

  /** Whether `h` names a handle rather than the body. */
  predicate IsHandle(h: Position)
  {
    h != Inside
  }

  /** The point of `c` that a handle sits on. */
  function HandleCorner(h: Position, c: Coords): Point
    requires IsHandle(h)
  {
    match h
    case TopLeft | Start => Point(c.x1, c.y1)
    case TopRight => Point(c.x2, c.y1)
    case BottomLeft => Point(c.x1, c.y2)
    case BottomRight | End => Point(c.x2, c.y2)
  }

  /**
   * The handle sits on the box's main diagonal: its corner of the unit box
   * (0,0)-(1,1) is the top-left or the bottom-right one.
   */
  predicate OnMainDiagonal(h: Position)
    requires IsHandle(h)
  {
    var q := HandleCorner(h, Coords(0, 0, 1, 1));
    q.x == q.y
  }

  /** The point of `c` diagonally across from the handle's corner. */
  function OppositeCorner(h: Position, c: Coords): Point
    requires IsHandle(h)
  {
    match h
    case TopLeft | Start => Point(c.x2, c.y2)
    case TopRight => Point(c.x1, c.y2)
    case BottomLeft => Point(c.x2, c.y1)
    case BottomRight | End => Point(c.x1, c.y1)
  }

  /** Segment i..i+1 of a stroke passes the onLine test for the pointer. */
  predicate SegmentHit(points: seq<Point>, i: int, p: Point, onLine: OnLineTest)
    requires 0 <= i < |points| - 1
  {
    onLine(points[i], points[i + 1], p, StrokeTolerance)
  }

  /** Some pair of consecutive stroke points passes the onLine test. */
  function StrokeHit(points: seq<Point>, p: Point, onLine: OnLineTest): (r: bool)
    ensures r <==> exists i :: 0 <= i < |points| - 1 && SegmentHit(points, i, p, onLine)
    decreases |points|
  {
    if |points| < 2 then false
    else if onLine(points[0], points[1], p, StrokeTolerance) then
      assert SegmentHit(points, 0, p, onLine);
      true
    else
      var rest := StrokeHit(points[1..], p, onLine);
      assert forall i :: 0 <= i < |points| - 2 ==>
        (SegmentHit(points[1..], i, p, onLine) <==> SegmentHit(points, i + 1, p, onLine));
      assert (exists i :: 0 <= i < |points| - 1 && SegmentHit(points, i, p, onLine)) ==> rest by {
        if exists i :: 0 <= i < |points| - 1 && SegmentHit(points, i, p, onLine) {
          var i :| 0 <= i < |points| - 1 && SegmentHit(points, i, p, onLine);
          assert i != 0;
          assert SegmentHit(points[1..], i - 1, p, onLine);
        }
      }
      rest
  }

  /**
   * Where the pointer hits the element. A line reports its start, then its
   * end, then its body; a rectangle its four corners in the order top-left,
   * top-right, bottom-left, bottom-right, then its (inclusive) body; a stroke
   * and a text box only their body.
   */
  function PositionWithinElement(p: Point, e: Element, onLine: OnLineTest): (r: Option<Position>)
    ensures r.Some? && IsHandle(r.value) ==>
      (e.Line? || e.Rectangle?) && NearPoint(p, HandleCorner(r.value, BoxOf(e)))
    ensures e.Line? && r.Some? ==> r.value in {Start, End, Inside}
    ensures e.Rectangle? && r.Some? ==> r.value != Start && r.value != End
    ensures (e.Rectangle? || e.Text?) ==> (r == Some(Inside) ==> InBox(p, BoxOf(e)))
    ensures (e.Rectangle? || e.Text?) && InBox(p, BoxOf(e)) ==> r.Some?
  {
    match e
    case Line(_, x1, y1, x2, y2) =>
      if NearPoint(p, Point(x1, y1)) then Some(Start)
      else if NearPoint(p, Point(x2, y2)) then Some(End)
      else if onLine(Point(x1, y1), Point(x2, y2), p, LineTolerance) then Some(Inside)
      else None
    case Rectangle(_, x1, y1, x2, y2) =>
      if NearPoint(p, Point(x1, y1)) then Some(TopLeft)
      else if NearPoint(p, Point(x2, y1)) then Some(TopRight)
      else if NearPoint(p, Point(x1, y2)) then Some(BottomLeft)
      else if NearPoint(p, Point(x2, y2)) then Some(BottomRight)
      else if InBox(p, Coords(x1, y1, x2, y2)) then Some(Inside)
      else None
    case Pencil(_, points) =>
      if StrokeHit(points, p, onLine) then Some(Inside) else None
    case Text(_, x1, y1, x2, y2, _) =>
      if InBox(p, Coords(x1, y1, x2, y2)) then Some(Inside) else None
  }

  /** An element hit by the pointer, tagged with where it was hit. */
  datatype Hit = Hit(element: Element, position: Position)

  /** `i` is the first index of `elements` whose element the pointer hits. */
  predicate FirstHitAt(p: Point, elements: Snapshot, i: int, onLine: OnLineTest)
  {
    0 <= i < |elements| && PositionWithinElement(p, elements[i], onLine).Some?
    && forall j :: 0 <= j < i ==> PositionWithinElement(p, elements[j], onLine).None?
  }

  /** At most one element is the first hit. */
  lemma FirstHitUnique(p: Point, elements: Snapshot, i: int, j: int, onLine: OnLineTest)
    requires FirstHitAt(p, elements, i, onLine) && FirstHitAt(p, elements, j, onLine)
    ensures i == j
  {
  }

  /**
   * The first element, in collection order, that the pointer hits, with the
   * position it was hit at; nothing when no element is hit.
   */
  function GetElementAtPosition(p: Point, elements: Snapshot, onLine: OnLineTest): (r: Option<Hit>)
    ensures r.None? <==> forall i :: 0 <= i < |elements| ==> PositionWithinElement(p, elements[i], onLine).None?
    ensures r.Some? ==>
      (exists i :: FirstHitAt(p, elements, i, onLine) && elements[i] == r.value.element
                   && PositionWithinElement(p, elements[i], onLine) == Some(r.value.position))
    decreases |elements|
  {
    if |elements| == 0 then None
    else
      match PositionWithinElement(p, elements[0], onLine)
      case Some(h) =>
        assert FirstHitAt(p, elements, 0, onLine);
        Some(Hit(elements[0], h))
      case None =>
        var rest := GetElementAtPosition(p, elements[1..], onLine);
        assert forall i :: 1 <= i < |elements| ==> elements[i] == elements[1..][i - 1];
        assert rest.Some? ==>
          (exists i :: FirstHitAt(p, elements, i, onLine) && elements[i] == rest.value.element
                       && PositionWithinElement(p, elements[i], onLine) == Some(rest.value.position)) by {
          if rest.Some? {
            var k :| FirstHitAt(p, elements[1..], k, onLine) && elements[1..][k] == rest.value.element
              && PositionWithinElement(p, elements[1..][k], onLine) == Some(rest.value.position);
            assert FirstHitAt(p, elements, k + 1, onLine);
          }
        }
        rest
  }

  /** The pointer cursor shown over a hit region. */
  datatype Cursor = NwseResize | NeswResize | Move | Default

  function CursorForPosition(h: Position): (c: Cursor)
    ensures c != Default
    ensures c == Move <==> !IsHandle(h)
    ensures IsHandle(h) ==> (c == NwseResize <==> OnMainDiagonal(h))
    ensures IsHandle(h) ==> (c == NeswResize <==> !OnMainDiagonal(h))
  {
    match h
    case TopLeft | BottomRight | Start | End => NwseResize
    case TopRight | BottomLeft => NeswResize
    case Inside => Move
  }

  /** The cursor for a pointer hovering over a snapshot with the selection tool. */
  function HoverCursor(p: Point, elements: Snapshot, onLine: OnLineTest): (c: Cursor)
    ensures c == Default <==> forall i :: 0 <= i < |elements| ==> PositionWithinElement(p, elements[i], onLine).None?
    ensures forall i :: FirstHitAt(p, elements, i, onLine) ==>
      c == CursorForPosition(PositionWithinElement(p, elements[i], onLine).value)
  {
    match GetElementAtPosition(p, elements, onLine)
    case None => Default
    case Some(h) => CursorForPosition(h.position)
  }

  /**
   * The coordinates after dragging handle `h` to (x, y): the handle's corner
   * follows the pointer and the opposite corner stays; the body is no handle.
   */
  function ResizedCoordinates(x: int, y: int, h: Position, c: Coords): (r: Option<Coords>)
    ensures r.None? <==> !IsHandle(h)
    ensures r.Some? ==>
      HandleCorner(h, r.value) == Point(x, y) && OppositeCorner(h, r.value) == OppositeCorner(h, c)
  {
    match h
    case TopLeft | Start => Some(Coords(x, y, c.x2, c.y2))
    case TopRight => Some(Coords(c.x1, y, x, c.y2))
    case BottomLeft => Some(Coords(x, c.y1, c.x2, y))
    case BottomRight | End => Some(Coords(c.x1, c.y1, x, y))
    case Inside => None
  }

  /**
   * Priority of the rectangle regions: each corner is reported exactly when no
   * earlier corner is near, and the body only when no corner is near.
   */
  lemma RectangleHitOrder(p: Point, id: nat, c: Coords, onLine: OnLineTest)
    ensures var r := PositionWithinElement(p, Rectangle(id, c.x1, c.y1, c.x2, c.y2), onLine);
      var tl, tr := NearPoint(p, Point(c.x1, c.y1)), NearPoint(p, Point(c.x2, c.y1));
      var bl, br := NearPoint(p, Point(c.x1, c.y2)), NearPoint(p, Point(c.x2, c.y2));
      && (r == Some(TopLeft) <==> tl)
      && (r == Some(TopRight) <==> !tl && tr)
      && (r == Some(BottomLeft) <==> !tl && !tr && bl)
      && (r == Some(BottomRight) <==> !tl && !tr && !bl && br)
      && (r == Some(Inside) <==> !tl && !tr && !bl && !br && InBox(p, c))
      && (r.None? <==> !tl && !tr && !bl && !br && !InBox(p, c))
  {
  }

  /** Priority of the line regions: start, then end, then the onLine verdict. */
  lemma LineHitOrder(p: Point, id: nat, c: Coords, onLine: OnLineTest)
    ensures var r := PositionWithinElement(p, Line(id, c.x1, c.y1, c.x2, c.y2), onLine);
      var s, e := NearPoint(p, Point(c.x1, c.y1)), NearPoint(p, Point(c.x2, c.y2));
      var on := onLine(Point(c.x1, c.y1), Point(c.x2, c.y2), p, LineTolerance);
      && (r == Some(Start) <==> s)
      && (r == Some(End) <==> !s && e)
      && (r == Some(Inside) <==> !s && !e && on)
      && (r.None? <==> !s && !e && !on)
  {
  }

  /** A stroke is hit exactly when one of its consecutive point pairs is. */
  lemma StrokeHitConsecutivePairs(id: nat, points: seq<Point>, p: Point, onLine: OnLineTest)
    ensures PositionWithinElement(p, Pencil(id, points), onLine) == Some(Inside) <==>
      (exists i :: 0 <= i < |points| - 1 && onLine(points[i], points[i + 1], p, StrokeTolerance))
    ensures PositionWithinElement(p, Pencil(id, points), onLine) != Some(Inside) ==>
      PositionWithinElement(p, Pencil(id, points), onLine).None?
  {
    if exists i :: 0 <= i < |points| - 1 && onLine(points[i], points[i + 1], p, StrokeTolerance) {
      var i :| 0 <= i < |points| - 1 && onLine(points[i], points[i + 1], p, StrokeTolerance);
      assert SegmentHit(points, i, p, onLine);
    }
  }

  /** A stroke of a single point has no segment and is never hit. */
  lemma SinglePointStrokeNeverHits(id: nat, q: Point, p: Point, onLine: OnLineTest)
    ensures PositionWithinElement(p, Pencil(id, [q]), onLine).None?
  {
  }

  /** The rectangle (10,10)-(50,50): a corner, the body, a miss, and the strict tolerance. */
  lemma RectangleExamples(onLine: OnLineTest)
    ensures var e := Rectangle(0, 10, 10, 50, 50);
      && PositionWithinElement(Point(12, 12), e, onLine) == Some(TopLeft)
      && PositionWithinElement(Point(48, 12), e, onLine) == Some(TopRight)
      && PositionWithinElement(Point(30, 30), e, onLine) == Some(Inside)
      && PositionWithinElement(Point(100, 100), e, onLine).None?
      && PositionWithinElement(Point(15, 10), e, onLine) == Some(Inside)
      && PositionWithinElement(Point(5, 5), e, onLine).None?
  {
  }

  /** The line (0,0)-(10,0): endpoints win whatever onLine says. */
  lemma LineExamples(onLine: OnLineTest)
    ensures var e := Line(0, 0, 0, 10, 0);
      && PositionWithinElement(Point(1, 0), e, onLine) == Some(Start)
      && PositionWithinElement(Point(9, 3), e, onLine) == Some(End)
      && PositionWithinElement(Point(5, 0), e, onLine)
         == (if onLine(Point(0, 0), Point(10, 0), Point(5, 0), LineTolerance) then Some(Inside) else None)
  {
  }

  /**
   * A handle the hit-tester reports can be dragged: it belongs to a line or a
   * rectangle, the resize mapping accepts it, and the pointer starts within
   * tolerance of the corner that the resize then moves.
   */
  lemma HitHandleIsResizable(p: Point, e: Element, onLine: OnLineTest, x: int, y: int)
    requires PositionWithinElement(p, e, onLine).Some?
    requires IsHandle(PositionWithinElement(p, e, onLine).value)
    ensures e.Line? || e.Rectangle?
    ensures var h := PositionWithinElement(p, e, onLine).value;
      var r := ResizedCoordinates(x, y, h, BoxOf(e));
      && NearPoint(p, HandleCorner(h, BoxOf(e)))
      && r.Some? && HandleCorner(h, r.value) == Point(x, y)
  {
  }

  /**
   * The cursor agrees with the resize mapping: the move cursor exactly for the
   * body, which resizes nothing; the NW-SE cursor for handles that drag the
   * first or second defining point; the NE-SW cursor for the mixed corners.
   */
  lemma CursorMatchesResize(h: Position, x: int, y: int, c: Coords)
    ensures CursorForPosition(h) == Move <==> ResizedCoordinates(x, y, h, c).None?
    ensures CursorForPosition(h) == NwseResize ==>
      var r := ResizedCoordinates(x, y, h, c).value;
      (r.x1 == x && r.y1 == y) || (r.x2 == x && r.y2 == y)
    ensures CursorForPosition(h) == NeswResize ==>
      var r := ResizedCoordinates(x, y, h, c).value;
      (r.x2 == x && r.y1 == y) || (r.x1 == x && r.y2 == y)
    ensures CursorForPosition(h) != Default
  {
  }
}
