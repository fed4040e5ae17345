/** The panning camera (CameraController.cs): while an object is dragged the
    camera scrolls when the pointer is near a screen edge; otherwise a press
    drags the view by the pointer's motion. Every move is clamped so that the
    camera stays inside limits computed from the background sprite. */
module CameraController {
  import opened Scene

  /** The main camera's `orthographicSize` and `aspect`. */
  datatype Lens = Lens(orthographicSize: real, aspect: real)

  /** What `Awake` computes once: the background's horizontal limits
      (`_backgroundBounds`), the pointer x at or beyond which edge scrolling
      starts (`_draggingMoveBounds`, in screen pixels) and `_cameraHalfWidth`. */
  datatype Limits = Limits(bgLeft: real, bgRight: real, dragLeft: real, dragRight: real, halfWidth: real)

  /** The camera's transform position and `_isPointerPressed`. */
  datatype Camera = Camera(pos: Vec3, pointerPressed: bool)

  /** The smallest and largest x the camera may take. */
  function MinX(l: Limits): real { l.bgLeft + l.halfWidth }
  function MaxX(l: Limits): real { l.bgRight - l.halfWidth }

  /** `Awake` as written: the background limits are the camera's x plus and
      minus the background's `bounds.max.x`, the edge zones are a fraction
      `threshold` of the screen width from either side, and the half width is
      `orthographicSize * aspect`, or 0 when there is no main camera. */
  function AwakeAsWritten(cameraX: real, backgroundMaxX: real, screenWidth: real, threshold: real, mainCamera: Option<Lens>): (l: Limits)
    ensures (l.bgLeft + l.bgRight) / 2.0 == cameraX
    ensures l.bgRight - l.bgLeft == 2.0 * backgroundMaxX
    ensures l.dragLeft + l.dragRight == screenWidth
    ensures l.dragLeft == screenWidth * threshold
    ensures 0.0 <= threshold <= 0.5 && screenWidth >= 0.0 ==> 0.0 <= l.dragLeft <= l.dragRight <= screenWidth
    ensures mainCamera.None? ==> l.halfWidth == 0.0
    ensures mainCamera.Some? && mainCamera.value.orthographicSize >= 0.0 && mainCamera.value.aspect >= 0.0 ==> l.halfWidth >= 0.0
  {
    ZoneFacts(screenWidth, threshold);
    Limits(cameraX - backgroundMaxX, cameraX + backgroundMaxX,
           screenWidth * threshold, screenWidth - screenWidth * threshold,
           HalfWidth(mainCamera))
  }

  /** `_cameraHalfWidth`: `orthographicSize * aspect`, or 0 without a camera. */
  function HalfWidth(mainCamera: Option<Lens>): (h: real)
    ensures mainCamera.None? ==> h == 0.0
    ensures mainCamera.Some? && mainCamera.value.orthographicSize >= 0.0 && mainCamera.value.aspect >= 0.0 ==> h >= 0.0
  {
    if mainCamera.None? then 0.0
    else
      var lens := mainCamera.value;
      MulNonneg(lens.orthographicSize, lens.aspect);
      lens.orthographicSize * lens.aspect
  }

  lemma ZoneFacts(screenWidth: real, threshold: real)
    ensures 0.0 <= threshold <= 0.5 && screenWidth >= 0.0 ==>
            0.0 <= screenWidth * threshold <= screenWidth - screenWidth * threshold <= screenWidth
  {
    if 0.0 <= threshold <= 0.5 && screenWidth >= 0.0 {
      MulNonneg(screenWidth, threshold);
      MulNonneg(screenWidth, 0.5 - threshold);
    }
  }

  /** `Awake` with the background limits taken from the sprite's own bounds
      (`bounds.min.x`, `bounds.max.x`), which is what the camera limits are
      meant to follow. */
  function Awake(backgroundMinX: real, backgroundMaxX: real, screenWidth: real, threshold: real, mainCamera: Option<Lens>): (l: Limits)
    ensures l.bgLeft == backgroundMinX && l.bgRight == backgroundMaxX
    ensures l == AwakeAsWritten(0.0, 0.0, screenWidth, threshold, mainCamera).(bgLeft := backgroundMinX, bgRight := backgroundMaxX)
  {
    AwakeAsWritten(0.0, 0.0, screenWidth, threshold, mainCamera).(bgLeft := backgroundMinX, bgRight := backgroundMaxX)
  }

  /** The edge zones do not cross exactly when the threshold is at most one
      half (on a screen of positive width). */
  lemma DragZonesOrdered(screenWidth: real, threshold: real, cameraX: real, backgroundMaxX: real, mainCamera: Option<Lens>)
    requires screenWidth > 0.0
    ensures var l := AwakeAsWritten(cameraX, backgroundMaxX, screenWidth, threshold, mainCamera);
            l.dragLeft <= l.dragRight <==> threshold <= 0.5
  {
    var l := AwakeAsWritten(cameraX, backgroundMaxX, screenWidth, threshold, mainCamera);
    assert l.dragRight - l.dragLeft == screenWidth * (1.0 - 2.0 * threshold);
    if threshold <= 0.5 {
      MulNonneg(screenWidth, 1.0 - 2.0 * threshold);
    } else {
      MulNonneg(screenWidth, 2.0 * threshold - 1.0);
      assert screenWidth * (2.0 * threshold - 1.0) != 0.0;
    }
  }

  /** `Mathf.Clamp(value, min, max)`: a value below `min` gives `min`, else a
      value above `max` gives `max`. When `min > max` this returns `min` or
      `max`, never the value. */
  function Clamp(v: real, lo: real, hi: real): (r: real)
    ensures lo <= hi ==> lo <= r <= hi
    ensures lo <= v <= hi ==> r == v
    ensures lo <= hi && v < lo ==> r == lo
    ensures lo <= hi && v > hi ==> r == hi
    ensures r == v || r == lo || r == hi
    ensures lo > hi ==> r == (if v < lo then lo else hi)
  {
    if v < lo then lo else if v > hi then hi else v
  }

  lemma ClampMonotone(u: real, v: real, lo: real, hi: real)
    requires lo <= hi && u <= v
    ensures Clamp(u, lo, hi) <= Clamp(v, lo, hi)
  {
  }

  /** `MoveCamera`: shift x by `amount`, clamped to the camera limits; y and z
      stay. */
  function MoveCamera(pos: Vec3, l: Limits, amount: real): (r: Vec3)
    ensures r.y == pos.y && r.z == pos.z
    ensures MinX(l) <= MaxX(l) ==> MinX(l) <= r.x <= MaxX(l)
    ensures MinX(l) <= pos.x + amount <= MaxX(l) ==> r.x == pos.x + amount
    ensures MinX(l) <= MaxX(l) && pos.x + amount < MinX(l) ==> r.x == MinX(l)
    ensures MinX(l) <= MaxX(l) && pos.x + amount > MaxX(l) ==> r.x == MaxX(l)
    ensures MinX(l) > MaxX(l) ==> r.x == (if pos.x + amount < MinX(l) then MinX(l) else MaxX(l))
  {
    Vec3(Clamp(pos.x + amount, MinX(l), MaxX(l)), pos.y, pos.z)
  }

  /** `Time.fixedDeltaTime` at Unity's default fixed timestep of 0.02 s. */
  const FixedDeltaTime: real := 0.02

  /** One `Update` tick's inputs: the dragger's `IsDragging`, the pointer's
      screen x and the x of the pointer delta. */
  datatype Tick = Tick(isDragging: bool, pointerX: real, deltaX: real)

  predicate InLeftZone(l: Limits, t: Tick) { t.pointerX <= l.dragLeft }
  predicate InRightZone(l: Limits, t: Tick) { t.pointerX >= l.dragRight }

  /** The dragging branch of `Update`: scroll left by `step` in the left zone,
      then right by `step` in the right zone (both apply when the zones meet). */
  function EdgeScroll(pos: Vec3, l: Limits, step: real, pointerX: real): (r: Vec3)
    ensures r.y == pos.y && r.z == pos.z
    ensures l.dragLeft < pointerX < l.dragRight ==> r == pos
    ensures pointerX <= l.dragLeft && pointerX < l.dragRight ==> r == MoveCamera(pos, l, -step)
    ensures pointerX >= l.dragRight && pointerX > l.dragLeft ==> r == MoveCamera(pos, l, step)
    ensures pointerX <= l.dragLeft && pointerX >= l.dragRight ==> r == MoveCamera(MoveCamera(pos, l, -step), l, step)
  {
    var afterLeft := if pointerX <= l.dragLeft then MoveCamera(pos, l, -step) else pos;
    if pointerX >= l.dragRight then MoveCamera(afterLeft, l, step) else afterLeft
  }

  /** `Update`: while dragging, scroll by `dragSpeed * FixedDeltaTime` at the screen
      edges; otherwise, while pressed, move against the pointer delta. */
  function Update(cam: Camera, l: Limits, dragSpeed: real, t: Tick): (r: Camera)
    ensures r.pointerPressed == cam.pointerPressed
    ensures r.pos.y == cam.pos.y && r.pos.z == cam.pos.z
    ensures t.isDragging && !InLeftZone(l, t) && !InRightZone(l, t) ==> r == cam
    ensures !t.isDragging && !cam.pointerPressed ==> r == cam
    ensures t.isDragging && InLeftZone(l, t) && !InRightZone(l, t) ==> r.pos == MoveCamera(cam.pos, l, -(dragSpeed * FixedDeltaTime))
    ensures t.isDragging && InRightZone(l, t) && !InLeftZone(l, t) ==> r.pos == MoveCamera(cam.pos, l, dragSpeed * FixedDeltaTime)
    ensures t.isDragging && InLeftZone(l, t) && InRightZone(l, t) ==>
              r.pos == MoveCamera(MoveCamera(cam.pos, l, -(dragSpeed * FixedDeltaTime)), l, dragSpeed * FixedDeltaTime)
    ensures !t.isDragging && cam.pointerPressed ==> r.pos == MoveCamera(cam.pos, l, -(t.deltaX * FixedDeltaTime))
  {
    if t.isDragging then cam.(pos := EdgeScroll(cam.pos, l, dragSpeed * FixedDeltaTime, t.pointerX))
    else if cam.pointerPressed then cam.(pos := MoveCamera(cam.pos, l, -(t.deltaX * FixedDeltaTime)))
    else cam
  }

  /** `OnPointerPressStarted` / `OnPointerPressCancelled`. */
  function OnPointerPressStarted(cam: Camera): (r: Camera)
    ensures r.pointerPressed && r.pos == cam.pos
  {
    cam.(pointerPressed := true)
  }

  function OnPointerPressCancelled(cam: Camera): (r: Camera)
    ensures !r.pointerPressed && r.pos == cam.pos
  {
    cam.(pointerPressed := false)
  }

  /** The camera after a run of ticks. */
  function Pan(cam: Camera, l: Limits, dragSpeed: real, ticks: seq<Tick>): Camera
  {
    if ticks == [] then cam
    else Update(Pan(cam, l, dragSpeed, ticks[..|ticks| - 1]), l, dragSpeed, ticks[|ticks| - 1])
  }

  /** Once the press is cancelled, ticks without a drag leave the camera
      where it is. */
  lemma {:induction false} ReleasedCameraStaysPut(cam: Camera, l: Limits, dragSpeed: real, ticks: seq<Tick>)
    requires forall i :: 0 <= i < |ticks| ==> !ticks[i].isDragging
    ensures Pan(OnPointerPressCancelled(cam), l, dragSpeed, ticks) == OnPointerPressCancelled(cam)
  {
    if ticks != [] {
      ReleasedCameraStaysPut(cam, l, dragSpeed, ticks[..|ticks| - 1]);
    }
  }

  /** A press with no pointer motion leaves a camera within its limits where
      it is. */
  lemma StillPointerKeepsCamera(cam: Camera, l: Limits, dragSpeed: real, t: Tick)
    requires !t.isDragging && t.deltaX == 0.0
    requires MinX(l) <= cam.pos.x <= MaxX(l)
    ensures Update(OnPointerPressStarted(cam), l, dragSpeed, t) == OnPointerPressStarted(cam)
  {
  }

  /** The dragging mode takes precedence: while an object is dragged the
      pointer delta plays no part. */
  lemma DraggingIgnoresPointerDelta(cam: Camera, l: Limits, dragSpeed: real, t: Tick, deltaX: real)
    requires t.isDragging
    ensures Update(cam, l, dragSpeed, t) == Update(cam, l, dragSpeed, t.(deltaX := deltaX))
  {
  }

  /** Without a drag the pointer's position plays no part. */
  lemma PressPanIgnoresPointerPosition(cam: Camera, l: Limits, dragSpeed: real, t: Tick, pointerX: real)
    requires !t.isDragging
    ensures Update(cam, l, dragSpeed, t) == Update(cam, l, dragSpeed, t.(pointerX := pointerX))
  {
  }

  /** Edge scrolling moves towards the edge the pointer is in: never right in
      the left zone only, never left in the right zone only (for a camera
      within its limits and a non-negative step). */
  lemma EdgeScrollDirection(cam: Camera, l: Limits, dragSpeed: real, t: Tick)
    requires t.isDragging
    requires MinX(l) <= cam.pos.x <= MaxX(l)
    requires dragSpeed >= 0.0
    ensures InLeftZone(l, t) && !InRightZone(l, t) ==> Update(cam, l, dragSpeed, t).pos.x <= cam.pos.x
    ensures InRightZone(l, t) && !InLeftZone(l, t) ==> Update(cam, l, dragSpeed, t).pos.x >= cam.pos.x
  {
    ClampMonotone(cam.pos.x - (dragSpeed * FixedDeltaTime), cam.pos.x, MinX(l), MaxX(l));
    ClampMonotone(cam.pos.x, cam.pos.x + dragSpeed * FixedDeltaTime, MinX(l), MaxX(l));
  }

  /** Any tick that moves the camera leaves it within its limits, and a camera
      within its limits stays there. */
  lemma UpdateStaysWithinLimits(cam: Camera, l: Limits, dragSpeed: real, t: Tick)
    requires MinX(l) <= MaxX(l)
    ensures var r := Update(cam, l, dragSpeed, t);
            r.pos.x != cam.pos.x ==> MinX(l) <= r.pos.x <= MaxX(l)
    ensures MinX(l) <= cam.pos.x <= MaxX(l) ==> MinX(l) <= Update(cam, l, dragSpeed, t).pos.x <= MaxX(l)
  {
  }

  /** With limits taken from the background's own bounds, the camera's view
      `[x - halfWidth, x + halfWidth]` never leaves the background, however
      long the panning goes on. */
  lemma {:induction false} SustainedPanStaysOnBackground(cam: Camera, l: Limits, dragSpeed: real, ticks: seq<Tick>)
    requires 0.0 <= l.halfWidth && 2.0 * l.halfWidth <= l.bgRight - l.bgLeft
    requires MinX(l) <= cam.pos.x <= MaxX(l)
    ensures var x := Pan(cam, l, dragSpeed, ticks).pos.x;
            l.bgLeft <= x - l.halfWidth && x + l.halfWidth <= l.bgRight
    ensures Pan(cam, l, dragSpeed, ticks).pointerPressed == cam.pointerPressed
  {
    if ticks != [] {
      var init := ticks[..|ticks| - 1];
      SustainedPanStaysOnBackground(cam, l, dragSpeed, init);
      UpdateStaysWithinLimits(Pan(cam, l, dragSpeed, init), l, dragSpeed, ticks[|ticks| - 1]);
    }
  }

  /** With `Awake`'s limits, the view stays on the background after any run
      of ticks, provided the background is at least as wide as the view. */
  lemma AwakeKeepsViewOnBackground(backgroundMinX: real, backgroundMaxX: real, screenWidth: real, threshold: real,
                                    mainCamera: Option<Lens>, cam: Camera, dragSpeed: real, ticks: seq<Tick>)
    requires var l := Awake(backgroundMinX, backgroundMaxX, screenWidth, threshold, mainCamera);
             0.0 <= l.halfWidth && 2.0 * l.halfWidth <= backgroundMaxX - backgroundMinX && MinX(l) <= cam.pos.x <= MaxX(l)
    ensures var l := Awake(backgroundMinX, backgroundMaxX, screenWidth, threshold, mainCamera);
            var x := Pan(cam, l, dragSpeed, ticks).pos.x;
            backgroundMinX <= x - l.halfWidth && x + l.halfWidth <= backgroundMaxX
  {
    SustainedPanStaysOnBackground(cam, Awake(backgroundMinX, backgroundMaxX, screenWidth, threshold, mainCamera), dragSpeed, ticks);
  }

  /** The limits as written agree with the background's bounds only when the
      camera starts at x = 0 over a background centred on x = 0. */
  lemma AsWrittenMatchesBoundsWhenCentredAtOrigin(backgroundMaxX: real, screenWidth: real, threshold: real, mainCamera: Option<Lens>)
    ensures AwakeAsWritten(0.0, backgroundMaxX, screenWidth, threshold, mainCamera)
         == Awake(-backgroundMaxX, backgroundMaxX, screenWidth, threshold, mainCamera)
  {
  }

  /** A camera starting at x = 10 over a background spanning [5, 15], with
      half width 1: the limits as written are [-4, 24], and one pressed tick
      with pointer delta 700 (a move of 700 * 0.02 = 14) moves the camera to x = -4, whose view
      [-5, -3] lies entirely left of the background. */
  lemma AsWrittenLetsViewLeaveBackground()
    ensures var l := AwakeAsWritten(10.0, 15.0, 1000.0, 0.1, Some(Lens(1.0, 1.0)));
            var r := Update(Camera(Vec3(10.0, 0.0, -10.0), true), l, 1.0, Tick(false, 500.0, 700.0));
            && MinX(l) == -4.0 && MaxX(l) == 24.0
            && r.pos.x == -4.0
            && r.pos.x + l.halfWidth < 5.0
  {
  }
}
