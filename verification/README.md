# Shelf game core in Dafny

A Dafny model of the game logic of a small 2D "stock the shelves" game. It has
five parts, each modelled as pure functions over immutable records with
`real` coordinates:

- **Shelf layering** (`Shelf`, from `Shelf.cs`). A shelf keeps a list of the
  objects on it. Adding appends and removing deletes the first occurrence;
  after either, every member's sprite `sortingOrder` is renumbered. The list
  is sorted stably by x, largest first, and each member gets its index.
- **Draggable objects** (`DraggableObject`, from `DraggableObject.cs`).
  - Picking an object up sets its dragged flag, raises it to sorting order 50,
    and takes it off its shelf.
  - A held object follows the pointer with a clamped linear interpolation.
  - Releasing it picks, among the colliders found below it, the highest one
    at least as wide as the object. The object joins that surface's shelf and
    falls to the landing point.
- **Drag session** (`Dragger`, from `Dragger.cs`). Press-start picks up the
  draggable object under the pointer, if the first collider there has one.
  Press-cancel drops the held object. Over any run of alternating presses
  and releases, each object stays on at most one shelf, a held object stays
  on none, and every shelf's sorting orders stay the ranks of its members'
  current x.
- **Camera pan** (`CameraController`, from `CameraController.cs`).
  - While an object is dragged, the camera scrolls when the pointer is in an
    edge zone of the screen.
  - Otherwise a press drags the view by the pointer's motion.
  - Every move is clamped (`Mathf.Clamp`) to limits computed once in `Awake`.
- **Probe box** (`ColliderChecker`, from `ColliderChecker.cs`). The rectangle
  from an object's bottom edge down to the bottom of the camera's view, which
  is used to find the surfaces below the object.

The scene is a `World` (`Scene` module). It maps object ids to their state:
position, collider width, sorting order, dragged flag and current shelf. It
also maps shelf ids to their object lists.

## Reading the model against the code

- **Sort.** LINQ's `OrderByDescending` is modelled as an insertion sort of
  `(x, list position, id)` entries. It is ordered by larger x first, then by
  smaller list position, which is exactly the stable order.
- **Rank.** The independent reference for a member's order is its `Rank`: the
  number of list entries that sort before it. `Shelf.Layered` says what a
  re-layering leaves behind, and `Shelf.UpdateRenderingOrder` is proved to
  produce it.
- **Duplicates.** A list may hold the same object twice, because `Add` does
  not check. The numbering loop then writes that object's order more than
  once, and the last write wins. The model says so through `LastOccurrence`.
- **Landing point.** The object's state after a drop is the end point of the
  fall tween.
- **Fall distance.** The distance fed to the fall-time formula is returned,
  so that its sign can be stated.
- **Frame inputs.** Inputs the code reads from the engine are parameters:
  - the colliders under the pointer or below the object, each given by what
    the code reads of it;
  - the pointer position and delta;
  - the screen width;
  - the camera lens;
  - the bottom of the camera's view.

Behaviour of the code worth knowing when reading the model:
- `AddObjectToShelf` appends even when the object is already listed;
  nothing refuses duplicates.
- A press-start while an object is held replaces the held reference, and may
  clear it while `IsDragging` stays true
  (`Dragger.SecondStartLosesHeldObject`, `Dragger.SecondStartSwitchesHeldObject`).
- An object at or above the surface top snaps down to it; one below the top
  keeps its own y.
- `StartDragging` leaves `_currentShelf` set after taking the object off its
  shelf. Only the list changes.
- When the drag threshold is 0.5, a pointer at the middle of the screen is in
  both edge zones, and a dragging tick moves left and then right
  (`CameraController.EdgeScroll`).

## Model

| member | source | states |
|---|---|---|
| Shelf.UpdateRenderingOrder | Assets/test-playnera/Scripts/Shelf.cs:35-45 | the result is `Layered`: only sorting orders change, objects off the list keep theirs, and each member's order is its rank in the stable largest-x-first order (its last occurrence's rank when listed twice) |
| Shelf.SortByXDescending | Assets/test-playnera/Scripts/Shelf.cs:37-39 | the sorted copy is a permutation of the list's entries |
| Shelf.SortIsSorted | Assets/test-playnera/Scripts/Shelf.cs:37-39 | the sorted copy is strictly ordered by larger x first, then earlier list position (the stable order) |
| Shelf.Assign | Assets/test-playnera/Scripts/Shelf.cs:41-44 | the numbering loop keeps every object and changes nothing but sorting orders |
| Shelf.AssignLeavesOthers | Assets/test-playnera/Scripts/Shelf.cs:41-44 | an object with no entry left in the loop keeps its sorting order |
| Shelf.AssignLastWriteWins | Assets/test-playnera/Scripts/Shelf.cs:41-44 | an object's order is the index of its last entry in the sorted copy: the last write wins |
| Shelf.CountBeforePermutation | Assets/test-playnera/Scripts/Shelf.cs:37-39 | how many entries sort before a given one does not depend on the order the entries are listed in |
| Shelf.SortedIndexIsCount | Assets/test-playnera/Scripts/Shelf.cs:41-44 | in a strictly sorted list an entry's index is the number of entries that sort before it, so the loop index is the rank |
| Shelf.AddObjectToShelf | Assets/test-playnera/Scripts/Shelf.cs:16-20 | exactly one entry is appended at the end, with no duplicate check; a duplicate-free list stays duplicate-free when the object was absent; the objects are then layered |
| Shelf.RemoveFirst | Assets/test-playnera/Scripts/Shelf.cs:28 | an absent object leaves the list unchanged; otherwise exactly the first occurrence is deleted, the multiset loses one copy, and a duplicate-free list no longer holds it |
| Shelf.RemoveObjectFromShelf | Assets/test-playnera/Scripts/Shelf.cs:26-30 | the list loses exactly the first occurrence (or is unchanged if absent) and the objects are then layered |
| Shelf.GreaterXGetsSmallerOrder | Assets/test-playnera/Scripts/Shelf.cs:37-44 | a member with strictly greater x gets a strictly smaller sorting order |
| Shelf.EqualXKeepsListOrder | Assets/test-playnera/Scripts/Shelf.cs:37-44 | members with equal x keep their list order: the earlier one gets the smaller order |
| Shelf.OrdersAreExactlyTheIndices | Assets/test-playnera/Scripts/Shelf.cs:41-44 | without duplicates the members' orders are exactly 0 .. n-1 |
| Shelf.LayeredIsUnique | Assets/test-playnera/Scripts/Shelf.cs:35-45 | the layering is determined by the list and the objects' x |
| Shelf.UpdateRenderingOrderIdempotent | Assets/test-playnera/Scripts/Shelf.cs:35-45 | re-layering an already layered shelf changes nothing |
| Shelf.LayeringReadsOnlyX | Assets/test-playnera/Scripts/Shelf.cs:37-38 | objects that differ only in their sorting orders get the same layering |
| Shelf.RemoveTwiceIsRemoveOnce | Assets/test-playnera/Scripts/Shelf.cs:26-30 | removing an object that occurs at most once a second time changes nothing |
| Shelf.AddThenRemoveRestoresShelf | Assets/test-playnera/Scripts/Shelf.cs:16-30 | adding an absent object and removing it gives back the list and the layering of the list alone, except the removed object keeps its shelf order |
| Shelf.EmptyShelvesAreLayered | Assets/test-playnera/Scripts/Shelf.cs:10 | a scene whose shelf lists are all empty, as each list starts out, has every shelf layered |
| Shelf.LayeredShelfIsLayered | Assets/test-playnera/Scripts/Shelf.cs:35-45 | after a shelf is laid out, each member's order is its rank among the members' current x, because the layout changes no x |
| Shelf.UntouchedShelfStaysLayered | Assets/test-playnera/Scripts/Shelf.cs:35-45 | a shelf whose list and members are untouched keeps its layering |
| DraggableObject.SelectSurface | Assets/test-playnera/Scripts/DraggableObject.cs:103-105 | no surface exactly when no candidate is at least as wide as the object; otherwise the chosen one fits and no fitting candidate comes before it in the stable highest-top-first order |
| DraggableObject.UpperFitIsUnique | Assets/test-playnera/Scripts/DraggableObject.cs:103-105 | at most one candidate is the first fitting one in that order |
| DraggableObject.SelectedSurfaceFitsAndIsHighest | Assets/test-playnera/Scripts/DraggableObject.cs:103-105 | the chosen surface is never narrower than the object and its top is the highest among those that fit |
| DraggableObject.LandingPoint | Assets/test-playnera/Scripts/DraggableObject.cs:114-116 | landing x is the current x and z is 0; landing y is the surface top or the current y, never above either |
| DraggableObject.PickUpFromShelf | Assets/test-playnera/Scripts/DraggableObject.cs:76-89 | the object is flagged, its shelf loses one copy of it, and the remaining list is re-layered (`Layered`) over the raised object; an object no longer listed keeps order 50, and nothing else changes but sorting orders |
| DraggableObject.StartDragging | Assets/test-playnera/Scripts/DraggableObject.cs:74-90 | sets the dragged flag and order 50; without a shelf nothing else changes; otherwise that shelf loses one copy of the object and its remaining list is re-layered, and no other shelf changes |
| DraggableObject.StopDragging | Assets/test-playnera/Scripts/DraggableObject.cs:95-124 | always clears the flag and changes no other object but in sorting order; with no fitting surface nothing else changes; otherwise the object lands on the first fitting surface in highest-top order, at the landing point, and the fall distance is non-negative |
| DraggableObject.Land | Assets/test-playnera/Scripts/DraggableObject.cs:110-124 | the object is appended to the shelf's list, records that shelf, is no longer dragged and sits at the target; the shelf is layered and nothing else changes but sorting orders |
| DraggableObject.LerpCoord | Assets/test-playnera/Scripts/DraggableObject.cs:68 | `Vector3.Lerp` with its fraction clamped: the result lies between the two ends, is the target for a fraction of at least 1 and the start for at most 0 |
| DraggableObject.Follow | Assets/test-playnera/Scripts/DraggableObject.cs:56-69 | an object that is not held does not move; a held one moves only its position, each coordinate staying between where it was and the flattened pointer |
| Dragger.OnDragStarted | Assets/test-playnera/Scripts/Dragger.cs:57-76 | only the first overlap is looked at; if it carries a draggable object that becomes the held object, is picked up and `IsDragging` becomes true; otherwise the held reference is cleared and `IsDragging` is left as it was |
| Dragger.OnDragCanceled | Assets/test-playnera/Scripts/Dragger.cs:82-90 | with nothing held nothing changes; otherwise the held object is dropped and the session becomes idle |
| Dragger.OnlyFirstOverlapCounts | Assets/test-playnera/Scripts/Dragger.cs:69 | colliders after the first never affect a press-start, so a draggable object behind a non-draggable collider is not picked up |
| Dragger.Run | Assets/test-playnera/Scripts/Dragger.cs:36-41 | a sequence of press events keeps every reference resolved, keeps the set of objects and shelves, and holds only existing objects |
| Dragger.HandleKeepsConsistent | Assets/test-playnera/Scripts/Dragger.cs:57-90 | one press event from a consistent state (no start while holding) gives a consistent state, idle after a cancel |
| Dragger.AlternatingRunStaysConsistent | Assets/test-playnera/Scripts/Dragger.cs:57-90 | from idle, alternating starts and cancels keep `IsDragging` true exactly when an object is held, keep shelves duplicate-free with only undragged members, and end idle after each cancel |
| Dragger.PickUpKeepsLayering | Assets/test-playnera/Scripts/DraggableObject.cs:74-90 | a pick-up from a scene whose shelves agree with the objects keeps every shelf layered: the shelf left is re-laid and the others keep their members untouched |
| Dragger.LandKeepsLayering | Assets/test-playnera/Scripts/DraggableObject.cs:110-124 | a landing of an object on no shelf keeps every shelf layered, the chosen one re-laid with the object appended |
| Dragger.HandleKeepsLayering | Assets/test-playnera/Scripts/Dragger.cs:57-90 | one press event from a consistent state keeps every shelf layered |
| Dragger.AlternatingRunKeepsLayering | Assets/test-playnera/Scripts/Dragger.cs:57-90 | from idle with a consistent, layered scene, every shelf's members carry the ranks of their current x after any run of alternating starts and cancels, whichever shelves objects leave or land on |
| Dragger.SecondStartLosesHeldObject | Assets/test-playnera/Scripts/Dragger.cs:69-71 | a press-start while holding, over no draggable object, clears the held reference while `IsDragging` stays true and the old object stays flagged |
| Dragger.SecondStartSwitchesHeldObject | Assets/test-playnera/Scripts/Dragger.cs:69-75 | a press-start while holding, over another draggable object, switches the held object |
| CameraController.AwakeAsWritten | Assets/test-playnera/Scripts/CameraController.cs:33-54 | background limits centred on the camera x and `2 * bounds.max.x` wide; edge zones symmetric, `W * threshold` from either side and ordered for a threshold in [0, 0.5]; half width 0 without a camera |
| CameraController.Awake | Assets/test-playnera/Scripts/CameraController.cs:37-41 | the corrected limits are the background's own horizontal bounds; everything else as in `AwakeAsWritten` |
| CameraController.HalfWidth | Assets/test-playnera/Scripts/CameraController.cs:50-53 | zero without a main camera, non-negative for a non-negative lens |
| CameraController.DragZonesOrdered | Assets/test-playnera/Scripts/CameraController.cs:43-48 | on a screen of positive width the left zone edge is at most the right one exactly when the threshold is at most one half |
| CameraController.Clamp | Assets/test-playnera/Scripts/CameraController.cs:117-121 | `Mathf.Clamp`: for lo <= hi, a value below lo gives lo, above hi gives hi, and inside gives itself; for lo > hi, a value below lo gives lo and any other gives hi |
| CameraController.ClampMonotone | Assets/test-playnera/Scripts/CameraController.cs:117-121 | a larger value never clamps to a smaller result |
| CameraController.MoveCamera | Assets/test-playnera/Scripts/CameraController.cs:115-124 | y and z unchanged; x is the requested x clamped as `Mathf.Clamp` does to the camera limits: the requested x when inside, the nearer limit otherwise, and with crossed limits the lower one only for a request below it, else the upper |
| CameraController.EdgeScroll | Assets/test-playnera/Scripts/CameraController.cs:86-101 | strictly between the zones no move; in the left zone only a move by the negated step; in the right zone only a move by the step; in both zones the left move and then the right move, each clamped |
| CameraController.Update | Assets/test-playnera/Scripts/CameraController.cs:79-109 | the pressed flag and y, z are kept; dragging selects edge scrolling (left, right, or left then right when the pointer is in both zones), otherwise a press moves against the pointer delta and no press means no move |
| CameraController.OnPointerPressStarted | Assets/test-playnera/Scripts/CameraController.cs:130-133 | sets the pressed flag and does not move the camera |
| CameraController.OnPointerPressCancelled | Assets/test-playnera/Scripts/CameraController.cs:139-142 | clears the pressed flag and does not move the camera |
| CameraController.ReleasedCameraStaysPut | Assets/test-playnera/Scripts/CameraController.cs:103-108 | after a release, any run of ticks without a drag leaves the camera where it is |
| CameraController.StillPointerKeepsCamera | Assets/test-playnera/Scripts/CameraController.cs:103-108 | a press with zero pointer delta leaves a camera within its limits in place |
| CameraController.DraggingIgnoresPointerDelta | Assets/test-playnera/Scripts/CameraController.cs:81-108 | while dragging, the pointer delta plays no part: the dragging mode takes precedence |
| CameraController.PressPanIgnoresPointerPosition | Assets/test-playnera/Scripts/CameraController.cs:103-108 | without a drag, the pointer's position plays no part |
| CameraController.EdgeScrollDirection | Assets/test-playnera/Scripts/CameraController.cs:86-101 | edge scrolling never moves right in the left zone only, nor left in the right zone only |
| CameraController.UpdateStaysWithinLimits | Assets/test-playnera/Scripts/CameraController.cs:115-124 | a tick that moves the camera leaves it within its limits, and a camera within them stays within them |
| CameraController.SustainedPanStaysOnBackground | Assets/test-playnera/Scripts/CameraController.cs:115-124 | with limits from a background at least as wide as the view, the view stays on the background under any run of ticks |
| CameraController.AwakeKeepsViewOnBackground | Assets/test-playnera/Scripts/CameraController.cs:37-41 | with the corrected limits the view never leaves the background's bounds |
| CameraController.AsWrittenMatchesBoundsWhenCentredAtOrigin | Assets/test-playnera/Scripts/CameraController.cs:37-41 | the limits as written equal the background's bounds when the camera starts at x = 0 over a background centred on 0 |
| CameraController.AsWrittenLetsViewLeaveBackground | Assets/test-playnera/Scripts/CameraController.cs:37-41 | a concrete start (camera x 10, background 5 .. 15) where the limits as written let the view move entirely off the background |
| ColliderChecker.ProbeBox | Assets/test-playnera/Scripts/ColliderChecker.cs:35-46 | the box is as wide as the object and centred on it; its top is the object's bottom and its bottom the camera's; its height is non-negative exactly when the object is at or above the camera's bottom |
| ColliderChecker.GetCollidersBelow | Assets/test-playnera/Scripts/ColliderChecker.cs:27-53 | no collider gives no result; otherwise the query box spans the object's width and reaches from its bottom to the camera's bottom |
| ColliderChecker.OnDrawGizmos | Assets/test-playnera/Scripts/ColliderChecker.cs:58-73 | nothing is drawn exactly when the collider or camera is missing; otherwise the drawn box is the query box |
| ColliderChecker.ProbeBoxIsRegionBelow | Assets/test-playnera/Scripts/ColliderChecker.cs:42-46 | a point lies in the box exactly when it is within the object's horizontal extent and between the camera's bottom and the object's bottom |
| ColliderChecker.ProbeBoxFollowsObject | Assets/test-playnera/Scripts/ColliderChecker.cs:36-46 | moving the object vertically moves the box's top with it and leaves its bottom at the camera's edge |

## Left out

- `PlayerControls.cs`, the generated input bindings, and the subscription of handlers in `OnEnable`/`OnDisable`. A run of events is modelled directly as a sequence of press events.
- The engine queries are inputs rather than models: `Physics2D.OverlapPoint`, `Physics2D.OverlapBox`, `ScreenToWorldPoint`, `ViewportToWorldPoint`, `Camera.main` and `Screen.width`. `ColliderChecker.GetCollidersBelow` stops at the box it would query.
- DOTween: the scale tweens, the fall tween's frames, its `OutBounce` ease and `Kill(true)`. A landed object is shown at the tween's end point.
- The fall time `sqrt(2 * distance / 9.8)`. Only the fall distance is returned and proved non-negative, not the square root.
- Floating point: coordinates are exact reals, with no IEEE rounding.
- `CameraController.Update`: `Time.fixedDeltaTime` is fixed at Unity's default of 0.02 s. The time step is a project setting outside the scripts, and a fixed value keeps the arithmetic linear.
- `DraggableObject.StopDragging`: a surface collider is assumed to carry a `Shelf` component. Without one the code dereferences null, and that path is not modelled. A null collider list reaching `OrderByDescending` is likewise not modelled.
- `DraggableObject.StopDragging`: an item's `width` stands for its collider's width at release, and the probe box uses the same width. The code picks the object up with a scale tween towards 1.2 and reads the collider bounds while that scale may still apply. The scale at release depends on tween timing, which is not modelled, so the fit test compares the stored width.
- `DraggableObject.Follow`: the pointer's world position and `followSpeed * Time.deltaTime` are inputs.
- `CameraController.Update`: the code reads a `PointerDelta` action that the generated bindings do not define. Its x is an input.
- `ColliderChecker.GetCollidersBelow`: a missing main camera makes the code dereference null. The camera's bottom edge is therefore a required input.
- `Dragger`: `OnDragStarted` dereferences the main camera unconditionally. That path is not modelled.

## Findings

| source | as written | input that shows it | evidently intended | confidence | as-written member | corrected member |
|---|---|---|---|---|---|---|
| Assets/test-playnera/Scripts/CameraController.cs:38-41 | the background limits are the camera's x minus and plus the background's `bounds.max.x`, a world coordinate used as if it were a half width | camera at x = 10, background from x = 5 to 15, camera half width 1: the limits are [-4, 24], and one pressed tick moving 14 left puts the view at [-5, -3], entirely off the background | limits at the background's own `bounds.min.x` and `bounds.max.x`, so the view never leaves the background (the two agree only for a camera and a background both centred on x = 0) | not executed | CameraController.AwakeAsWritten, CameraController.AsWrittenLetsViewLeaveBackground | CameraController.Awake, CameraController.AwakeKeepsViewOnBackground |
