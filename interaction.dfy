/**
 * The interaction state machine of the whiteboard: the update of one element
 * of the current snapshot, the frame each pointer event computes, and the
 * Mural component that steps its action and selection and commits to the
 * history store (one append at pointer-down, overwrites afterwards).
 */
module Interaction {
  import opened Wrappers
  import opened Elements
  import opened HitTest
  import opened History

  /** The gesture in progress; Idle is the source's "none". */
  datatype Action = Idle | Drawing | Moving | Resizing | Writing

  /** The active tool: "selection" or one of the four element types. */
  datatype Tool = Selection | Draw(kind: ElementKind)

  /**
   * The offsets captured when an element is grabbed: one offset per point for
   * a stroke, one for the first corner of anything else; a freshly created
   * element carries none.
   */
  datatype Grab = NoGrab | BoxGrab(dx: int, dy: int) | StrokeGrab(xOffsets: seq<int>, yOffsets: seq<int>)

  /** The grabbed element as it was at pointer-down, where it was hit, and its offsets. */
  datatype Selected = Selected(element: Element, position: Option<Position>, grab: Grab)

  /** The canvas text-measuring call: the width of a string in the whiteboard's font. */
  type MeasureText = string -> nat

  /** The offsets stay usable: one per stroke point, or a single box offset. */
  predicate GrabFits(s: Selected)
  {
    match s.element
    case Pencil(_, points) =>
      s.grab.StrokeGrab? && |s.grab.xOffsets| == |points| && |s.grab.yOffsets| == |points|
    case _ => s.grab.BoxGrab?
  }

  /** The text of a text element, passed along when it is rebuilt; nothing for the others. */
  function TextOf(e: Element): Option<string>
  {
    match e
    case Text(_, _, _, _, _, text) => Some(text)
    case _ => None
  }

  /** The offsets of grabbing `e` at the pointer `d`. */
  function GrabAt(e: Element, d: Point): (g: Grab)
    ensures GrabFits(Selected(e, None, g))
    ensures e.Pencil? ==> forall i :: 0 <= i < |e.points| ==>
      g.xOffsets[i] == d.x - e.points[i].x && g.yOffsets[i] == d.y - e.points[i].y
    ensures !e.Pencil? ==> g == BoxGrab(d.x - e.x1, d.y - e.y1)
  {
    match e
    case Pencil(_, points) =>
      StrokeGrab(seq(|points|, i requires 0 <= i < |points| => d.x - points[i].x),
                 seq(|points|, i requires 0 <= i < |points| => d.y - points[i].y))
    case _ => BoxGrab(d.x - e.x1, d.y - e.y1)
  }

  /** Every point of a stroke shifted by (dx, dy), in the same order. */
  function Translated(points: seq<Point>, dx: int, dy: int): (r: seq<Point>)
    ensures |r| == |points|
    ensures forall i :: 0 <= i < |points| ==> r[i] == Point(points[i].x + dx, points[i].y + dy)
  {
    seq(|points|, i requires 0 <= i < |points| => Point(points[i].x + dx, points[i].y + dy))
  }

  /**
   * The stroke's points placed at the pointer minus their grab offsets: point
   * for point, the pointer keeps the offset it had to that point at the grab.
   */
  function MovedStroke(points: seq<Point>, xOffsets: seq<int>, yOffsets: seq<int>, p: Point): (r: seq<Point>)
    requires |xOffsets| == |points| && |yOffsets| == |points|
    ensures |r| == |points|
    ensures forall i :: 0 <= i < |points| ==> p.x - r[i].x == xOffsets[i] && p.y - r[i].y == yOffsets[i]
  {
    seq(|points|, i requires 0 <= i < |points| => Point(p.x - xOffsets[i], p.y - yOffsets[i]))
  }

  /**
   * updateElement(id, x1, y1, x2, y2, type, options) on a snapshot: entry `id`
   * is rebuilt as a line or rectangle, extended by the point (x2, y2) if it is
   * a stroke, or rebuilt as a text box whose width is the measured text and
   * whose height is the fixed text height. Every other entry is kept.
   */
  function UpdatedElements(elements: Snapshot, id: nat, x1: int, y1: int, x2: int, y2: int,
                           kind: ElementKind, text: Option<string>, measure: MeasureText): (r: Result<Snapshot, Fault>)
    ensures r.Ok? <==>
      id < |elements| && (kind == PencilKind ==> elements[id].Pencil?) && (kind == TextKind ==> text.Some?)
    ensures r.Ok? ==>
      |r.value| == |elements| && forall j :: 0 <= j < |elements| && j != id ==> r.value[j] == elements[j]
    ensures r.Ok? && kind == PencilKind ==>
      r.value[id].Pencil? && r.value[id].id == elements[id].id
      && r.value[id].points == elements[id].points + [Point(x2, y2)]
    ensures r.Ok? && (kind == LineKind || kind == RectangleKind) ==>
      KindOf(r.value[id]) == kind && BoxOf(r.value[id]) == Coords(x1, y1, x2, y2) && r.value[id].id == id
    ensures r.Ok? && kind == TextKind ==>
      r.value[id] == Text(id, x1, y1, x1 + measure(text.value), y1 + TextHeight, text.value)
    ensures r.Ok? && WellIndexed(elements) ==> WellIndexed(r.value)
  {
    if id >= |elements| then Err(MissingElement)
    else
      match kind
      case LineKind | RectangleKind => Ok(elements[id := CreateElement(id, x1, y1, x2, y2, kind)])
      case PencilKind =>
        if elements[id].Pencil? then
          Ok(elements[id := elements[id].(points := elements[id].points + [Point(x2, y2)])])
        else Err(MissingElement)
      case TextKind =>
        if text.None? then Err(MissingText)
        else
          var created := CreateElement(id, x1, y1, x1 + measure(text.value), y1 + TextHeight, TextKind);
          Ok(elements[id := created.(text := text.value)])
  }

  /**
   * A pointer move while drawing: the last element keeps its first point and
   * gets its far end at the pointer, or, for the pencil tool, grows by the
   * pointer. The update uses the active tool's type.
   */
  function DrawingFrame(elements: Snapshot, tool: Tool, p: Point, measure: MeasureText): (r: Result<Snapshot, Fault>)
    ensures r.Ok? <==>
      |elements| > 0 && tool.Draw? && tool.kind != TextKind
      && (tool.kind == PencilKind <==> elements[|elements| - 1].Pencil?)
    ensures r == Err(UnrecognizedElementType) <==> |elements| > 0 && tool.Selection?
    ensures r.Ok? ==>
      |elements| > 0 && tool.Draw? && |r.value| == |elements|
      && r.value[..|elements| - 1] == elements[..|elements| - 1]
    ensures r.Ok? && tool == Draw(PencilKind) ==>
      var e := elements[|elements| - 1];
      e.Pencil? && r.value[|elements| - 1] == Pencil(e.id, e.points + [p])
    ensures r.Ok? && (tool == Draw(LineKind) || tool == Draw(RectangleKind)) ==>
      var e := elements[|elements| - 1];
      !e.Pencil? && KindOf(r.value[|elements| - 1]) == tool.kind
      && BoxOf(r.value[|elements| - 1]) == Coords(e.x1, e.y1, p.x, p.y)
    ensures r.Ok? && WellIndexed(elements) ==> WellIndexed(r.value)
  {
    if |elements| == 0 then Err(MissingElement)
    else
      var last := |elements| - 1;
      var e := elements[last];
      match tool
      case Selection => Err(UnrecognizedElementType)
      case Draw(PencilKind) => UpdatedElements(elements, last, 0, 0, p.x, p.y, PencilKind, None, measure)
      case Draw(kind) =>
        if e.Pencil? then Err(MissingElement)
        else UpdatedElements(elements, last, e.x1, e.y1, p.x, p.y, kind, None, measure)
  }

  /**
   * A pointer move while moving: a stroke's points follow the pointer by
   * their own offsets; any other element is rebuilt at the pointer minus its
   * offset with its width and height kept (a text box keeps its text).
   */
  function MovingFrame(elements: Snapshot, sel: Selected, p: Point, measure: MeasureText): (r: Result<Snapshot, Fault>)
    requires GrabFits(sel)
    ensures r.Ok? <==>
      sel.element.id < |elements| && (sel.element.Pencil? ==> elements[sel.element.id].Pencil?)
    ensures r.Ok? ==>
      sel.element.id < |elements| && |r.value| == |elements|
      && forall j :: 0 <= j < |elements| && j != sel.element.id ==> r.value[j] == elements[j]
    ensures r.Ok? && sel.element.Pencil? ==>
      elements[sel.element.id].Pencil? && r.value[sel.element.id] == elements[sel.element.id].(points :=
        MovedStroke(sel.element.points, sel.grab.xOffsets, sel.grab.yOffsets, p))
    ensures r.Ok? && (sel.element.Line? || sel.element.Rectangle?) ==>
      && KindOf(r.value[sel.element.id]) == KindOf(sel.element)
      && var before, after := BoxOf(sel.element), BoxOf(r.value[sel.element.id]);
      && p == Point(after.x1 + sel.grab.dx, after.y1 + sel.grab.dy)
      && after.x2 - after.x1 == before.x2 - before.x1 && after.y2 - after.y1 == before.y2 - before.y1
    ensures r.Ok? && sel.element.Text? ==>
      var after := r.value[sel.element.id];
      && after.Text? && after.id == sel.element.id && after.text == sel.element.text
      && p == Point(after.x1 + sel.grab.dx, after.y1 + sel.grab.dy)
      && after.x2 - after.x1 == measure(sel.element.text) && after.y2 - after.y1 == TextHeight
    ensures r.Ok? && WellIndexed(elements) ==> WellIndexed(r.value)
  {
    match sel.element
    case Pencil(id, points) =>
      if id >= |elements| || !elements[id].Pencil? then Err(MissingElement)
      else Ok(elements[id := elements[id].(points := MovedStroke(points, sel.grab.xOffsets, sel.grab.yOffsets, p))])
    case _ =>
      var c := BoxOf(sel.element);
      var newX1, newY1 := p.x - sel.grab.dx, p.y - sel.grab.dy;
      UpdatedElements(elements, sel.element.id, newX1, newY1, newX1 + (c.x2 - c.x1), newY1 + (c.y2 - c.y1),
                      KindOf(sel.element), TextOf(sel.element), measure)
  }

  /**
   * A pointer move while resizing: the grabbed handle's corner goes to the
   * pointer and the opposite corner stays where it was at pointer-down.
   */
  function ResizingFrame(elements: Snapshot, sel: Selected, p: Point, measure: MeasureText): (r: Result<Snapshot, Fault>)
    requires sel.element.Line? || sel.element.Rectangle?
    ensures r.Ok? <==> sel.position.Some? && IsHandle(sel.position.value) && sel.element.id < |elements|
    ensures r == Err(InvalidResizeHandle) <==> sel.position.None? || !IsHandle(sel.position.value)
    ensures r.Ok? ==>
      var id := sel.element.id;
      var h := sel.position.value;
      && id < |elements| && |r.value| == |elements|
      && (forall j :: 0 <= j < |elements| && j != id ==> r.value[j] == elements[j])
      && IsHandle(h) && KindOf(r.value[id]) == KindOf(sel.element)
      && HandleCorner(h, BoxOf(r.value[id])) == p
      && OppositeCorner(h, BoxOf(r.value[id])) == OppositeCorner(h, BoxOf(sel.element))
    ensures r.Ok? && WellIndexed(elements) ==> WellIndexed(r.value)
  {
    if sel.position.None? then Err(InvalidResizeHandle)
    else
      match ResizedCoordinates(p.x, p.y, sel.position.value, BoxOf(sel.element))
      case None => Err(InvalidResizeHandle)
      case Some(c) => UpdatedElements(elements, sel.element.id, c.x1, c.y1, c.x2, c.y2, KindOf(sel.element), None, measure)
  }

  /** The frame a pointer move commits for the current action; none while idle or writing. */
  function PointerMoveFrame(action: Action, tool: Tool, sel: Option<Selected>, elements: Snapshot, p: Point,
                            measure: MeasureText): (r: Option<Result<Snapshot, Fault>>)
    requires action == Moving ==> sel.Some? && GrabFits(sel.value)
    requires action == Resizing ==> sel.Some? && (sel.value.element.Line? || sel.value.element.Rectangle?)
    ensures r.None? <==> action == Idle || action == Writing
    ensures r.Some? && r.value.Ok? ==> |r.value.value| == |elements|
    ensures r.Some? && r.value.Ok? && WellIndexed(elements) ==> WellIndexed(r.value.value)
  {
    match action
    case Drawing => Some(DrawingFrame(elements, tool, p, measure))
    case Moving => Some(MovingFrame(elements, sel.value, p, measure))
    case Resizing => Some(ResizingFrame(elements, sel.value, p, measure))
    case Idle | Writing => None
  }

  /**
   * Releasing a grabbed text box where it was grabbed: a click that re-opens
   * editing. The grab point is the box's top-left corner plus the grab offset.
   */
  predicate IsZeroDragClick(sel: Selected, p: Point)
    ensures IsZeroDragClick(sel, p) ==> sel.element.Text? && sel.grab.BoxGrab?
    ensures sel.element.Text? && sel.grab.BoxGrab? ==>
      (IsZeroDragClick(sel, p) <==> p == Point(sel.element.x1 + sel.grab.dx, sel.element.y1 + sel.grab.dy))
  {
    sel.element.Text? && sel.grab.BoxGrab?
    && p.x - sel.grab.dx == sel.element.x1 && p.y - sel.grab.dy == sel.element.y1
  }

  /**
   * Releasing a grabbed text box is recognised as a click exactly when the
   * pointer comes back up where it went down.
   */
  lemma ZeroDragClickDetected(e: Element, pos: Option<Position>, d: Point, p: Point)
    requires e.Text?
    ensures IsZeroDragClick(Selected(e, pos, GrabAt(e, d)), p) <==> p == d
  {
  }

  /**
   * The click test as written: the grab offset is taken from page coordinates
   * at pointer-down while the release is converted to canvas coordinates;
   * `canvas` is the canvas's top-left corner on the page.
   */
  predicate IsZeroDragClickAsWritten(e: Element, downOnPage: Point, upOnPage: Point, canvas: Point)
    requires e.Text?
    ensures IsZeroDragClickAsWritten(e, downOnPage, upOnPage, canvas) <==>
      upOnPage == Point(downOnPage.x + canvas.x, downOnPage.y + canvas.y)
  {
    var dx, dy := downOnPage.x - e.x1, downOnPage.y - e.y1;
    (upOnPage.x - canvas.x) - dx == e.x1 && (upOnPage.y - canvas.y) - dy == e.y1
  }

  /**
   * As written, a click released where it was pressed is recognised only when
   * the canvas sits at the page origin; e.g. with the canvas at (100, 0) a
   * click at page (160, 60) on the text box at (50, 50) is missed.
   */
  lemma ZeroDragClickMissedAsWritten(e: Element, d: Point, canvas: Point)
    requires e.Text?
    ensures IsZeroDragClickAsWritten(e, d, d, canvas) <==> canvas == Point(0, 0)
    ensures !IsZeroDragClickAsWritten(Text(0, 50, 50, 90, 74, "a"), Point(160, 60), Point(160, 60), Point(100, 0))
  {
  }

  /**
   * The frame a pointer release commits: after drawing or resizing a line or
   * rectangle, its coordinates normalised; nothing otherwise. A selection
   * naming no element of the snapshot is an error.
   */
  function ReleaseFrame(action: Action, sel: Option<Selected>, elements: Snapshot, measure: MeasureText)
    : (r: Option<Result<Snapshot, Fault>>)
    ensures r == Some(Err(MissingElement)) <==>
      sel.Some? && (sel.value.element.id >= |elements|
        || (var e := elements[sel.value.element.id];
            (action == Drawing || action == Resizing) && (e.Line? || e.Rectangle?) && e.id >= |elements|))
    ensures r.Some? <==>
      sel.Some? && (sel.value.element.id >= |elements|
        || ((action == Drawing || action == Resizing)
            && (elements[sel.value.element.id].Line? || elements[sel.value.element.id].Rectangle?)))
    ensures r.Some? && r.value.Ok? ==>
      sel.Some? && sel.value.element.id < |elements| && (action == Drawing || action == Resizing) &&
      var e := elements[sel.value.element.id];
      && (e.Line? || e.Rectangle?) && e.id < |elements| && |r.value.value| == |elements|
      && (forall j :: 0 <= j < |elements| && j != e.id ==> r.value.value[j] == elements[j])
      && KindOf(r.value.value[e.id]) == KindOf(e)
      && BoxOf(r.value.value[e.id]) == AdjustElementCoordinates(KindOf(e), BoxOf(e))
      && (e.Rectangle? ==> RectangleNormal(BoxOf(r.value.value[e.id])))
      && (e.Line? ==> LineNormal(BoxOf(r.value.value[e.id])))
    ensures r.Some? && r.value.Ok? && WellIndexed(elements) ==> WellIndexed(r.value.value)
    ensures r.Some? && sel.Some? && WellIndexed(elements) && sel.value.element.id < |elements| ==> r.value.Ok?
  {
    if sel.None? then None
    else
      var idx := sel.value.element.id;
      if idx >= |elements| then Some(Err(MissingElement))
      else
        var e := elements[idx];
        if (action == Drawing || action == Resizing) && (e.Line? || e.Rectangle?) then
          var c := AdjustElementCoordinates(KindOf(e), BoxOf(e));
          Some(UpdatedElements(elements, e.id, c.x1, c.y1, c.x2, c.y2, KindOf(e), None, measure))
        else None
  }

  /**
   * Moving is a rigid translation by the pointer's travel since the grab: a
   * stroke's points all shift by it in the same order; a line or rectangle
   * keeps its width and height; a text box keeps its text and is re-measured.
   */
  lemma MoveIsRigid(elements: Snapshot, e: Element, d: Point, p: Point, measure: MeasureText)
    requires MovingFrame(elements, Selected(e, Some(Inside), GrabAt(e, d)), p, measure).Ok?
    ensures var s := MovingFrame(elements, Selected(e, Some(Inside), GrabAt(e, d)), p, measure).value;
      var dx, dy := p.x - d.x, p.y - d.y;
      && e.id < |s|
      && (e.Pencil? ==> s[e.id].Pencil? && s[e.id].points == Translated(e.points, dx, dy))
      && ((e.Line? || e.Rectangle?) ==>
            KindOf(s[e.id]) == KindOf(e) && BoxOf(s[e.id]) == Coords(e.x1 + dx, e.y1 + dy, e.x2 + dx, e.y2 + dy))
      && (e.Text? ==>
            s[e.id] == Text(e.id, e.x1 + dx, e.y1 + dy, e.x1 + dx + measure(e.text), e.y1 + dy + TextHeight, e.text))
  {
  }

  /**
   * Dragging the bottom-right handle of the rectangle (0,0)-(10,10) to
   * (-5,-5) inverts it; releasing the pointer normalises it per axis to
   * (-5,-5)-(0,0).
   */
  lemma ResizeThenReleaseExample(measure: MeasureText)
    ensures var rect := Rectangle(0, 0, 0, 10, 10);
      var sel := Selected(rect, Some(BottomRight), GrabAt(rect, Point(10, 10)));
      && ResizingFrame([rect], sel, Point(-5, -5), measure) == Ok([Rectangle(0, 0, 0, -5, -5)])
      && ReleaseFrame(Resizing, Some(sel), [Rectangle(0, 0, 0, -5, -5)], measure)
         == Some(Ok([Rectangle(0, -5, -5, 0, 0)]))
      && ResizingFrame([rect], sel, Point(3, 3), measure) == Ok([Rectangle(0, 0, 0, 3, 3)])
      && ReleaseFrame(Resizing, Some(sel), [Rectangle(0, 0, 0, 3, 3)], measure)
         == Some(Ok([Rectangle(0, 0, 0, 3, 3)]))
  {
    var rect := Rectangle(0, 0, 0, 10, 10);
    var sel := Selected(rect, Some(BottomRight), GrabAt(rect, Point(10, 10)));
    assert ResizedCoordinates(-5, -5, BottomRight, BoxOf(rect)) == Some(Coords(0, 0, -5, -5));
    assert [rect][0 := Rectangle(0, 0, 0, -5, -5)] == [Rectangle(0, 0, 0, -5, -5)];
    assert AdjustElementCoordinates(RectangleKind, Coords(0, 0, -5, -5)) == Coords(-5, -5, 0, 0);
    assert [Rectangle(0, 0, 0, -5, -5)][0 := Rectangle(0, -5, -5, 0, 0)] == [Rectangle(0, -5, -5, 0, 0)];
    assert ResizedCoordinates(3, 3, BottomRight, BoxOf(rect)) == Some(Coords(0, 0, 3, 3));
    assert [rect][0 := Rectangle(0, 0, 0, 3, 3)] == [Rectangle(0, 0, 0, 3, 3)];
    assert AdjustElementCoordinates(RectangleKind, Coords(0, 0, 3, 3)) == Coords(0, 0, 3, 3);
    assert [Rectangle(0, 0, 0, 3, 3)][0 := Rectangle(0, 0, 0, 3, 3)] == [Rectangle(0, 0, 0, 3, 3)];
  }

  /** All snapshots of a history keep the element-id-is-index invariant. */
  ghost predicate AllWellIndexed(snapshots: seq<Snapshot>)
  {
    forall k :: 0 <= k < |snapshots| ==> WellIndexed(snapshots[k])
  }

  /** Committing a well-indexed snapshot keeps every snapshot of the history well-indexed. */
  lemma CommitKeepsWellIndexed(h: Log, s: Snapshot, overwrite: bool)
    requires h.Valid() && AllWellIndexed(h.snapshots) && WellIndexed(s)
    ensures AllWellIndexed(Commit(h, s, overwrite).snapshots)
  {
  }

  /**
   * The whiteboard component: the history of element snapshots, the gesture
   * in progress, the active tool and the grabbed element. The point-on-segment
   * test and the text measurement are supplied by the drawing surface.
   */
  class Mural {
    const store: HistoryStore
    const onLine: OnLineTest
    const measureText: MeasureText
    var action: Action
    var tool: Tool
    var selected: Option<Selected>

    ghost predicate Valid()
      reads this, store
    {
      && store.Valid()
      && AllWellIndexed(store.history)
      && (action == Writing ==> selected.Some? && selected.value.element.Text?)
      && (action == Moving ==> selected.Some? && GrabFits(selected.value))
      && (action == Resizing ==> selected.Some? && (selected.value.element.Line? || selected.value.element.Rectangle?))
    }

    /** An empty canvas with the rectangle tool active and nothing in progress. */
    constructor (onLine: OnLineTest, measureText: MeasureText)
      ensures Valid() && fresh(store)
      ensures store.Model() == Initial([])
      ensures action == Idle && tool == Draw(RectangleKind) && selected.None?
      ensures this.onLine == onLine && this.measureText == measureText
    {
      store := new HistoryStore([]);
      this.onLine := onLine;
      this.measureText := measureText;
      action := Idle;
      tool := Draw(RectangleKind);
      selected := None;
    }

    /** A click on a tool button. */
    method SetTool(t: Tool)
      requires Valid()
      modifies this
      ensures Valid() && tool == t && action == old(action) && selected == old(selected)
    {
      tool := t;
    }

    /**
     * handleMouseDown. Ignored while writing. With the selection tool, a hit
     * grabs the first element under the pointer (moving from its body,
     * resizing from a handle) and appends a copy of the current snapshot; a
     * miss does nothing. With a drawing tool, a new element of the tool's
     * type is created at the pointer and appended. Either way at most one
     * snapshot is appended.
     */
    method MouseDown(p: Point)
      requires Valid()
      modifies this, store
      ensures Valid() && tool == old(tool)
      ensures old(action) == Writing ==>
        store.Model() == old(store.Model()) && action == old(action) && selected == old(selected)
      ensures old(action) != Writing && tool.Selection? ==>
        var hit := GetElementAtPosition(p, old(store.Current()), onLine);
        && (hit.None? ==> store.Model() == old(store.Model()) && action == old(action) && selected == old(selected))
        && (hit.Some? ==>
              && store.Model() == Commit(old(store.Model()), old(store.Current()), false)
              && selected == Some(Selected(hit.value.element, Some(hit.value.position), GrabAt(hit.value.element, p)))
              && action == (if hit.value.position == Inside then Moving else Resizing))
      ensures old(action) != Writing && tool.Draw? ==>
        var e := CreateElement(|old(store.Current())|, p.x, p.y, p.x, p.y, tool.kind);
        && store.Model() == Commit(old(store.Model()), old(store.Current()) + [e], false)
        && selected == Some(Selected(e, None, NoGrab))
        && action == (if tool.kind == TextKind then Writing else Drawing)
    {
      if action == Writing {
        return;
      }
      var elements := store.Current();
      CommitKeepsWellIndexed(store.Model(), elements, false);
      match tool
      case Selection =>
        var hit := GetElementAtPosition(p, elements, onLine);
        if hit.Some? {
          var h := hit.value;
          var i :| FirstHitAt(p, elements, i, onLine) && elements[i] == h.element
            && PositionWithinElement(p, elements[i], onLine) == Some(h.position);
          if IsHandle(h.position) {
            HitHandleIsResizable(p, h.element, onLine, p.x, p.y);
          }
          selected := Some(Selected(h.element, Some(h.position), GrabAt(h.element, p)));
          store.SetState(elements, false);
          action := if h.position == Inside then Moving else Resizing;
        }
      case Draw(kind) =>
        var e := CreateElement(|elements|, p.x, p.y, p.x, p.y, kind);
        var next := elements + [e];
        CommitKeepsWellIndexed(store.Model(), next, false);
        store.SetState(next, false);
        selected := Some(Selected(e, None, NoGrab));
        action := if kind == TextKind then Writing else Drawing;
    }

    /**
     * handleMouseMove. With the selection tool it reports the hover cursor.
     * While drawing, moving or resizing it overwrites the current snapshot
     * with the frame for the pointer; it never appends and never changes the
     * action or the selection.
     */
    method MouseMove(p: Point) returns (cursor: Option<Cursor>, outcome: Outcome<Fault>)
      requires Valid()
      modifies store
      ensures Valid()
      ensures cursor == (if tool.Selection? then Some(HoverCursor(p, old(store.Current()), onLine)) else None)
      ensures store.index == old(store.index) && |store.history| == |old(store.history)|
      ensures forall k :: 0 <= k < |store.history| && k != store.index ==> store.history[k] == old(store.history[k])
      ensures var f := PointerMoveFrame(action, tool, selected, old(store.Current()), p, measureText);
        && (f.Some? && f.value.Ok? ==> outcome.Pass? && store.Current() == f.value.value)
        && (f.Some? && f.value.Err? ==> outcome == Fail(f.value.error) && store.history == old(store.history))
        && (f.None? ==> outcome.Pass? && store.history == old(store.history))
    {
      var elements := store.Current();
      cursor := if tool.Selection? then Some(HoverCursor(p, elements, onLine)) else None;
      var f := PointerMoveFrame(action, tool, selected, elements, p, measureText);
      outcome := Pass;
      if f.Some? {
        if f.value.Ok? {
          CommitKeepsWellIndexed(store.Model(), f.value.value, true);
          store.SetState(f.value.value, true);
        } else {
          outcome := Fail(f.value.error);
        }
      }
    }

    /**
     * handleMouseUp. Releasing a grabbed text box where it was grabbed
     * re-enters writing. Otherwise, after drawing or resizing a line or
     * rectangle its coordinates are normalised with an overwrite; then,
     * unless writing, the gesture ends. A failure leaves everything as it was.
     */
    method MouseUp(p: Point) returns (outcome: Outcome<Fault>)
      requires Valid()
      modifies this, store
      ensures Valid() && tool == old(tool)
      ensures store.index == old(store.index) && |store.history| == |old(store.history)|
      ensures forall k :: 0 <= k < |store.history| && k != store.index ==> store.history[k] == old(store.history[k])
      ensures old(selected).Some? && IsZeroDragClick(old(selected).value, p) ==>
        outcome.Pass? && action == Writing && selected == old(selected) && store.history == old(store.history)
      ensures !(old(selected).Some? && IsZeroDragClick(old(selected).value, p)) ==>
        var f := ReleaseFrame(old(action), old(selected), old(store.Current()), measureText);
        && (outcome.Fail? <==> f.Some? && f.value.Err?)
        && (f.Some? && f.value.Err? ==>
              outcome == Fail(f.value.error) && store.history == old(store.history)
              && action == old(action) && selected == old(selected))
        && (f.Some? && f.value.Ok? ==> store.Current() == f.value.value)
        && (f.None? ==> store.history == old(store.history))
        && (outcome.Pass? ==>
              if old(action) == Writing then action == old(action) && selected == old(selected)
              else action == Idle && selected.None?)
    {
      outcome := Pass;
      if selected.Some? && IsZeroDragClick(selected.value, p) {
        action := Writing;
        return;
      }
      var f := ReleaseFrame(action, selected, store.Current(), measureText);
      if f.Some? {
        if f.value.Err? {
          outcome := Fail(f.value.error);
          return;
        }
        CommitKeepsWellIndexed(store.Model(), f.value.value, true);
        store.SetState(f.value.value, true);
      }
      if action == Writing {
        return;
      }
      action := Idle;
      selected := None;
    }

    /**
     * handleBlur, fired when the text field that exists only while writing
     * loses focus: the gesture ends and the text element is rebuilt at its
     * first corner with the typed text, measured width and fixed height,
     * overwriting the current snapshot.
     */
    method Blur(text: string) returns (outcome: Outcome<Fault>)
      requires Valid() && action == Writing
      modifies this, store
      ensures Valid() && tool == old(tool) && action == Idle && selected.None?
      ensures var e := old(selected).value.element;
        var r := UpdatedElements(old(store.Current()), e.id, e.x1, e.y1, 0, 0, TextKind, Some(text), measureText);
        && (r.Ok? ==> outcome.Pass? && store.Model() == Commit(old(store.Model()), r.value, true))
        && (r.Err? ==> outcome == Fail(r.error) && store.Model() == old(store.Model()))
    {
      var e := selected.value.element;
      action := Idle;
      selected := None;
      var r := UpdatedElements(store.Current(), e.id, e.x1, e.y1, 0, 0, KindOf(e), Some(text), measureText);
      if r.Ok? {
        CommitKeepsWellIndexed(store.Model(), r.value, true);
        store.SetState(r.value, true);
        outcome := Pass;
      } else {
        outcome := Fail(r.error);
      }
    }

    /** handleClearCanvas: appends an empty snapshot, so the clearing can be undone. */
    method ClearCanvas()
      requires Valid()
      modifies store
      ensures Valid() && store.Model() == Commit(old(store.Model()), [], false)
    {
      CommitKeepsWellIndexed(store.Model(), [], false);
      store.SetState([], false);
    }

    /** The undo shortcut or button. */
    method Undo()
      requires Valid()
      modifies store
      ensures Valid() && store.Model() == UndoStep(old(store.Model()))
    {
      store.Undo();
    }

    /** The redo shortcut or button. */
    method Redo()
      requires Valid()
      modifies store
      ensures Valid() && store.Model() == RedoStep(old(store.Model()))
    {
      store.Redo();
    }
  }
}
