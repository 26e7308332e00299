# Mural whiteboard core in Dafny

This project models the core of the whiteboard page `Mural`: a React component that keeps a
collection of drawable elements and lets a user draw, select, move and resize them, with undo and
redo over every edit. It covers four things:

- the **element model**: lines, rectangles, pencil strokes and text boxes, the factory that builds
  them, and the coordinate normalisation applied when a gesture ends;
- the **hit-tester**: which handle or body of an element a pointer position hits, and which element
  of a snapshot is hit first;
- the **history store**: snapshots of the whole element collection plus a current index. A commit
  either overwrites the current snapshot or drops the redo branch and appends;
- the **interaction state machine**: the pointer-down, pointer-move, pointer-up and blur handlers.
  They step the action (`none`, `drawing`, `moving`, `resizing`, `writing`) and the grabbed element,
  and commit to the history.

Files, one module each:

- `wrappers.dfy`: `Option`, `Result` and `Outcome`.
- `elements.dfy`: `Elements`, the element datatype, `CreateElement`, `AdjustElementCoordinates`.
- `hit_test.dfy`: `HitTest`, the hit-testing, cursor and resize functions.
- `history.dfy`: `History`, the pure `Log` specification and the `HistoryStore` class.
- `interaction.dfy`: `Interaction`, the `updateElement` update, the frame each pointer event commits,
  and the `Mural` class.

The point-on-segment test `onLine` computes distances with square roots. Here it is a function value
of type `OnLineTest`, given to the `Mural` constructor. Everything proved about hit-testing holds
whatever that test answers. The canvas text measurement is injected the same way (`MeasureText`).
Coordinates are integers. All pointer positions are canvas-local.

Three facts about the code shape the model:

- Releasing the pointer never appends a snapshot. The release normalisation goes through
  `updateElement`, which always overwrites (`Mural.jsx:273`, `:403`). The only append of a gesture
  is the one at pointer-down (`:296`, `:314`).
- Rectangle normalisation is per axis; a line swaps its two endpoints as pairs. The `br` handle of (0,0)-(10,10) dragged to (-5,-5) and released gives
  (-5,-5)-(0,0) (`ResizeThenReleaseExample`).
- The hit-test scans in collection order and returns the first hit, so the earliest-drawn element
  wins on overlap.

## Model

| member | source | states |
|---|---|---|
| `Elements.CreateElement` | src/Pages/Mural/Mural.jsx:8-24 | the element has the given id and type; lines, rectangles and text keep the given coordinates; a stroke starts as the single point (x1,y1); text starts empty |
| `Elements.AdjustElementCoordinates` | src/Pages/Mural/Mural.jsx:81-96 | a rectangle gets x1<=x2 and y1<=y2 from the same x values and the same y values; anything else is ordered as a line (x1<x2, or x1==x2 and y1<=y2) with the same two endpoints, and is left alone if already ordered |
| `Elements.AdjustIdempotent` | src/Pages/Mural/Mural.jsx:81-96 | normalising twice equals normalising once |
| `Elements.AdjustFixedPoints` | src/Pages/Mural/Mural.jsx:81-96 | normalisation leaves coordinates unchanged exactly when they are already normal for the type |
| `HitTest.NearPoint` | src/Pages/Mural/Mural.jsx:26-28 | the pointer is near a point exactly inside the open square of half-side 5 around it, and nearness is symmetric |
| `HitTest.StrokeHit` | src/Pages/Mural/Mural.jsx:54-60 | true exactly when some consecutive pair of stroke points passes onLine with tolerance 5 |
| `HitTest.PositionWithinElement` | src/Pages/Mural/Mural.jsx:38-67 | a reported handle belongs to a line or rectangle and lies strictly within 5 of the pointer on both axes; lines report only start/end/inside, rectangles never start/end; rectangle and text bodies are hit exactly on inclusive box containment when no handle is |
| `HitTest.RectangleHitOrder` | src/Pages/Mural/Mural.jsx:46-52 | tl, tr, bl, br are tested in that order before the inclusive body; each region is reported exactly when all earlier ones fail |
| `HitTest.LineHitOrder` | src/Pages/Mural/Mural.jsx:41-45 | start wins over end, which wins over the onLine verdict; otherwise a miss |
| `HitTest.StrokeHitConsecutivePairs` | src/Pages/Mural/Mural.jsx:53-61 | a stroke reports inside exactly when a consecutive point pair passes onLine with tolerance 5, and otherwise a miss |
| `HitTest.SinglePointStrokeNeverHits` | src/Pages/Mural/Mural.jsx:53-61 | a one-point stroke is never hit |
| `HitTest.RectangleExamples` | src/Pages/Mural/Mural.jsx:26-52 | for (10,10)-(50,50): (12,12) is tl, (48,12) is tr, (30,30) inside, (100,100) a miss; (15,10), exactly 5 away, is not a handle |
| `HitTest.LineExamples` | src/Pages/Mural/Mural.jsx:26-45 | for (0,0)-(10,0): (1,0) is start and (9,3) is end whatever onLine says; (5,0) is inside exactly when onLine accepts it |
| `HitTest.FirstHitUnique` | src/Pages/Mural/Mural.jsx:72-79 | at most one index is the first element hit |
| `HitTest.GetElementAtPosition` | src/Pages/Mural/Mural.jsx:72-79 | nothing exactly when no element is hit; otherwise the element at the first index that is hit, tagged with its position there |
| `HitTest.HoverCursor` | src/Pages/Mural/Mural.jsx:328-333 | the default cursor exactly when no element is under the pointer; otherwise the cursor of the position at the first element hit |
| `HitTest.CursorForPosition` | src/Pages/Mural/Mural.jsx:98-111 | never the default cursor; move exactly for the body; nwse exactly for the handles on the box's main diagonal (tl, br, start, end), nesw for the other two |
| `HitTest.HitHandleIsResizable` | src/Pages/Mural/Mural.jsx:38-52 | a handle the hit-test reports belongs to a line or rectangle; the pointer is within tolerance of its corner, and the resize mapping accepts it |
| `HitTest.CursorMatchesResize` | src/Pages/Mural/Mural.jsx:98-111 | the move cursor exactly for the body, which resizes nothing; nwse for handles dragging (x1,y1) or (x2,y2); nesw for handles dragging (x2,y1) or (x1,y2) |
| `HitTest.ResizedCoordinates` | src/Pages/Mural/Mural.jsx:113-129 | no result exactly for the body; otherwise the handle's corner moves to the pointer and the opposite corner stays (tl/start move x1,y1; tr x2,y1; bl x1,y2; br/end x2,y2) |
| `History.Initial` | src/Pages/Mural/Mural.jsx:131-133 | a new history holds the initial state alone, at index 0 |
| `History.Commit` | src/Pages/Mural/Mural.jsx:135-147 | the new state becomes current with 0<=index<length kept; an overwrite replaces only the current slot and keeps length and index; an append keeps history[0..index], discards the rest and puts the new state last, at index+1 |
| `History.UndoStep` | src/Pages/Mural/Mural.jsx:149 | the snapshots stay; the index goes back by one, and stays only at 0 |
| `History.RedoStep` | src/Pages/Mural/Mural.jsx:150-151 | the snapshots stay; the index goes forward by one, and stays only at the last snapshot |
| `History.UndoRedoRoundTrip` | src/Pages/Mural/Mural.jsx:149-151 | undo then redo, and redo then undo, give back the same history wherever the first step is possible |
| `History.CommitAll` | src/Pages/Mural/Mural.jsx:143-145 | n appends advance the index by n, keep history[0..index] and, when n > 0, end with exactly the appended states |
| `History.UndoN` | src/Pages/Mural/Mural.jsx:149 | n undos leave the snapshots alone and step the index back by n, stopping at 0 |
| `History.OverwriteAll` | src/Pages/Mural/Mural.jsx:138-141 | overwrites keep the index, the length and every other slot, and show the last state written |
| `History.AppendsThenUndos` | src/Pages/Mural/Mural.jsx:135-151 | n appends followed by n undos show the state from before the appends, at the same index |
| `History.AppendsThenUndosFromEmpty` | src/Pages/Mural/Mural.jsx:131-151 | from the empty canvas, n appends and n undos show the empty canvas |
| `History.RedoAfterAppendIsNoOp` | src/Pages/Mural/Mural.jsx:143-151 | right after an append, redo changes nothing |
| `History.BranchDiscarded` | src/Pages/Mural/Mural.jsx:143-151 | append a, undo, append b leaves history[0..index] plus b, so a is unreachable and redo is a no-op |
| `History.OverwriteTwice` | src/Pages/Mural/Mural.jsx:138-141 | two overwrites equal the second alone |
| `History.GestureAddsOneEntry` | src/Pages/Mural/Mural.jsx:135-147 | one append followed by any overwrites adds exactly one snapshot after the current one and shows the last frame; one undo restores the state from before |
| `History.HistoryStore.constructor` | src/Pages/Mural/Mural.jsx:131-133 | the store starts as the single initial snapshot at index 0 |
| `History.HistoryStore.SetState` | src/Pages/Mural/Mural.jsx:135-147 | the store becomes Commit of its old value: overwrite assigns history[index]; append slices to index+1, adds the state and increments index |
| `History.HistoryStore.Undo` | src/Pages/Mural/Mural.jsx:149 | the store becomes UndoStep of its old value |
| `History.HistoryStore.Redo` | src/Pages/Mural/Mural.jsx:150-151 | the store becomes RedoStep of its old value |
| `Interaction.GrabAt` | src/Pages/Mural/Mural.jsx:287-295 | a stroke gets one offset per point, from the point to the pointer; any other element gets the offset from its first corner to the pointer |
| `Interaction.MovedStroke` | src/Pages/Mural/Mural.jsx:341-344 | one point per point, each placed so the pointer keeps the offset it had to that point at the grab |
| `Interaction.UpdatedElements` | src/Pages/Mural/Mural.jsx:244-274 | fails exactly for a missing index, a stroke update of a non-stroke, or text without its text; otherwise only entry id changes: a line or rectangle rebuilt with the given coordinates, a stroke with exactly (x2,y2) appended, a text box measured-width by 24 at (x1,y1); ids stay equal to positions |
| `Interaction.DrawingFrame` | src/Pages/Mural/Mural.jsx:335-338 | succeeds exactly when there is a last element, the tool draws a line, rectangle or stroke, and the last element is a stroke exactly for the pencil; fails with UnrecognizedElementType exactly for the selection tool; otherwise only the last element changes: a stroke grows by the pointer, a line or rectangle keeps its first point and ends at the pointer |
| `Interaction.MovingFrame` | src/Pages/Mural/Mural.jsx:339-367 | succeeds exactly when the grabbed id is in the snapshot and, for a stroke, names a stroke; only that entry changes; a stroke's points are placed at the pointer minus their own offsets; a line or rectangle keeps its type, width and height, with the grab offset from its new first corner to the pointer; a text box keeps its id and text, is re-measured and sits at the same offset |
| `Interaction.ResizingFrame` | src/Pages/Mural/Mural.jsx:368-377 | succeeds exactly when the grab names a handle and the grabbed id is in the snapshot; fails with InvalidResizeHandle exactly when the grab names no handle; otherwise only the grabbed entry changes, keeping its type, with the handle's corner at the pointer and the opposite corner where it was |
| `Interaction.PointerMoveFrame` | src/Pages/Mural/Mural.jsx:335-377 | no frame exactly while idle or writing; a frame keeps the number of elements and the id-is-position invariant |
| `Interaction.ReleaseFrame` | src/Pages/Mural/Mural.jsx:396-404 | a frame exactly when something is selected and either its id is past the end (MissingElement) or a line or rectangle was drawn or resized; a frame rewrites only the drawn or resized line/rectangle, to its normalised coordinates; on a well-indexed snapshot it cannot fail |
| `Interaction.MoveIsRigid` | src/Pages/Mural/Mural.jsx:339-367 | a move shifts a stroke's points, a line's or rectangle's corners and a text box's corner by exactly the pointer's travel since the grab; the text is kept |
| `Interaction.ResizeThenReleaseExample` | src/Pages/Mural/Mural.jsx:368-404 | br of (0,0)-(10,10) dragged to (3,3) and released gives (0,0)-(3,3); dragged to (-5,-5) and released gives (-5,-5)-(0,0) |
| `Interaction.IsZeroDragClick` | src/Pages/Mural/Mural.jsx:386-391 | only a grabbed text box can be clicked, and it is clicked exactly when released at its first corner plus the grab offset |
| `Interaction.IsZeroDragClickAsWritten` | src/Pages/Mural/Mural.jsx:383-390 | as written, with the offset taken on the page at pointer-down and the release taken on the canvas: a release counts as a click exactly when it lands one canvas page offset beyond the press point, so the offset cancels out only with the canvas at the page origin |
| `Interaction.ZeroDragClickDetected` | src/Pages/Mural/Mural.jsx:387-394 | with canvas coordinates throughout, a grabbed text box counts as clicked exactly when released where it was grabbed |
| `Interaction.ZeroDragClickMissedAsWritten` | src/Pages/Mural/Mural.jsx:292-293 | as written, a release at the press point counts as a click only if the canvas is at the page origin |
| `Interaction.CommitKeepsWellIndexed` | src/Pages/Mural/Mural.jsx:305-314 | committing a snapshot whose ids equal positions keeps that true of every snapshot in the history |
| `Interaction.Mural.constructor` | src/Pages/Mural/Mural.jsx:194-198 | an empty canvas history, action none, the rectangle tool, nothing selected |
| `Interaction.Mural.SetTool` | src/Pages/Mural/Mural.jsx:447-449 | only the tool changes |
| `Interaction.Mural.MouseDown` | src/Pages/Mural/Mural.jsx:276-319 | ignored while writing. With the selection tool, a miss changes nothing; a hit appends the current snapshot, grabs the element with its offsets and moves (body) or resizes (handle). With a drawing tool, appends the snapshot plus a new element at the pointer with id = length, then draws or writes. The id-is-position invariant is kept |
| `Interaction.Mural.MouseMove` | src/Pages/Mural/Mural.jsx:321-378 | reports the hover cursor for the selection tool; overwrites the current snapshot with the action's frame, or fails with nothing changed; never appends, never changes action or selection |
| `Interaction.Mural.MouseUp` | src/Pages/Mural/Mural.jsx:380-411 | a zero-drag click on a grabbed text box re-enters writing; otherwise overwrites with the release frame, then ends the gesture unless writing; never appends; a failure changes nothing |
| `Interaction.Mural.Blur` | src/Pages/Mural/Mural.jsx:413-418 | ends the gesture and overwrites with the text element rebuilt with the typed text and measured box |
| `Interaction.Mural.ClearCanvas` | src/Pages/Mural/Mural.jsx:420-422 | appends an empty snapshot, so clearing is undoable |
| `Interaction.Mural.Undo` | src/Pages/Mural/Mural.jsx:460 | the undo button (and Ctrl/Cmd+z, `:217-226`): the history takes one undo step |
| `Interaction.Mural.Redo` | src/Pages/Mural/Mural.jsx:467 | the redo button (and the shifted shortcut, `:220-221`): the history takes one redo step |

## Left out

- `distance` and the body of `onLine` (`Mural.jsx:30-36`, `:69-70`) use floating-point square roots. `onLine` is an injected predicate instead.
- Rendering is not modelled: `drawElement`, `getSvgPathFromStroke` and the redraw effect (`:156-215`) are canvas, roughjs and perfect-freehand calls. So is the `roughElement` that `createElement` caches (`:12-15`).
- `measureText` (`:259-262`) is a canvas call. It is an injected function returning an integer width.
- These are I/O and presentation, and are not modelled: the DOM lookups and the `getBoundingClientRect` offset arithmetic, the textarea focus timer (`:234-242`), the assignment of the cursor style (the cursor is returned instead), `handleSaveImage` (`:424-431`) and the JSX layout (`:451-619`).
- The keyboard listener (`:217-232`) is only partly modelled: its effect is the `Undo`/`Redo` methods; the key decoding is left out. With Shift held most platforms report `event.key` as "Z", which the lower-case test at `:219` rejects, so redo is in practice reached through its button (`:467`).
- `Interaction.Mural.MouseDown`: all pointer positions are canvas-local. The source takes the box grab offset and the move target from page coordinates (`:292-293`, `:355-356`). For moving, the two uses cancel out; for the text click check they do not (see Findings).
- `History.HistoryStore.SetState`: the source also accepts a function of the current state (`:136-137`). Callers here compute the new state from `Current()` and pass it.
- `Interaction.UpdatedElements`: an index past the end of the snapshot fails with `MissingElement`. The source writes past the end of its array for a line, rectangle or text instead. Such an index arises when the current snapshot shrinks in the middle of a gesture: by undo, or by clearing the canvas (`:421`) after a release outside the canvas left the action running.
- `Interaction.MovingFrame`: moving a stroke whose id is past the end, or names a non-stroke, fails with `MissingElement`. The source instead writes an entry holding only the new points past the end, or adds the points to the non-stroke entry (`:346-349`).
- `Interaction.DrawingFrame`: with a line, rectangle or text tool over a stroke, or a text tool without text, the model fails. This happens when the last element of the current snapshot is not the one being drawn: the tool was switched in the middle of a drawing gesture, or the snapshot changed under the gesture by undo, or by clearing the canvas (`:421`) after a release outside the canvas left the action running. The source then builds an element from undefined coordinates (`:337`, `:250`) or throws.
- `Interaction.Mural.Blur` requires the action to be writing, because the text field that fires it exists only then. If the update fails, the action and selection are reset anyway; the history is untouched.
- The source's element types are strings and throw when unknown. Here the types are a closed datatype. `UnrecognizedElementType` remains only where the source hands the selection tool to `updateElement` (`:338`).
- React's asynchronous state updates are not modelled: every handler sees the state left by the previous one.
- `Interaction.DrawingFrame`: the model's snapshots are values, so growing a stroke changes the current snapshot only. The source appends to the stroke object in place (`:253`), and each pointer-down append (`:314`) copies the array shallowly. Earlier element objects are therefore shared between snapshots. After an undo in the middle of a pencil gesture, or after a release outside the canvas and an undo, the next pointer move extends an older stroke in every snapshot that holds it, including the redo branch. The model leaves those snapshots unchanged.

## Findings

| source | as written | input that shows it | evidently intended | confidence | as-written member | corrected member |
|---|---|---|---|---|---|---|
| src/Pages/Mural/Mural.jsx:292-293 | the grab offset of a text box is taken from page coordinates (`clientX`), but the pointer-up click test subtracts it from canvas coordinates (`:383-390`) | canvas at page (100,0), text box at (50,50); press and release at page (160,60): the test compares -50 with 50 and does not re-enter writing | a release where the box was grabbed re-opens editing wherever the canvas sits | not executed; high (pure arithmetic) | `Interaction.ZeroDragClickMissedAsWritten` | `Interaction.ZeroDragClickDetected` |
