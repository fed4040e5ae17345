/** The probe below a dragged object (ColliderChecker.cs): a box as wide as the
    object's collider, reaching from the collider's bottom edge down to the
    bottom edge of the camera's view. `GetCollidersBelow` queries the physics
    engine with this box; `OnDrawGizmos` draws the same box. */
module ColliderChecker {
  import opened Scene

  /** A 2D axis-aligned box given by centre and size, as Unity's `Bounds`
      (restricted to x and y) and the `boxCenter`/`boxSize` pair. */
  datatype Box = Box(centerX: real, centerY: real, sizeX: real, sizeY: real)

  function MinX(b: Box): real { b.centerX - b.sizeX / 2.0 }
  function MaxX(b: Box): real { b.centerX + b.sizeX / 2.0 }
  function MinY(b: Box): real { b.centerY - b.sizeY / 2.0 }
  function MaxY(b: Box): real { b.centerY + b.sizeY / 2.0 }

  /** The box `GetCollidersBelow` hands to the overlap query, for the
      object's collider bounds and the world y of the camera's bottom edge
      (`ViewportToWorldPoint((0, 0, 0)).y`). */
  function ProbeBox(objectBounds: Box, cameraBottomY: real): (r: Box)
    ensures r.sizeX == objectBounds.sizeX && r.centerX == objectBounds.centerX
    ensures MinX(r) == MinX(objectBounds) && MaxX(r) == MaxX(objectBounds)
    ensures MaxY(r) == MinY(objectBounds)
    ensures MinY(r) == cameraBottomY
    ensures r.sizeY >= 0.0 <==> MinY(objectBounds) >= cameraBottomY
  {
    var bottomY := MinY(objectBounds);
    Box(objectBounds.centerX, (bottomY + cameraBottomY) / 2.0, objectBounds.sizeX, bottomY - cameraBottomY)
  }

  /** `GetCollidersBelow` up to the overlap query: without a collider there is
      no box (the method logs an error and returns null); otherwise the probe
      box. */
  function GetCollidersBelow(collider: Option<Box>, cameraBottomY: real): (r: Option<Box>)
    ensures r.None? <==> collider.None?
    ensures r.Some? ==> MaxY(r.value) == MinY(collider.value) && MinY(r.value) == cameraBottomY
    ensures r.Some? ==> MinX(r.value) == MinX(collider.value) && MaxX(r.value) == MaxX(collider.value)
  {
    match collider
    case None => None
    case Some(bounds) => Some(ProbeBox(bounds, cameraBottomY))
  }

  /** `OnDrawGizmos`: nothing is drawn when the collider or the camera is
      missing; otherwise the box drawn is the probe box. */
  function OnDrawGizmos(collider: Option<Box>, cameraBottomY: Option<real>): (r: Option<Box>)
    ensures r.None? <==> collider.None? || cameraBottomY.None?
    ensures r.Some? ==> r == GetCollidersBelow(collider, cameraBottomY.value)
  {
    if collider.None? || cameraBottomY.None? then None
    else Some(ProbeBox(collider.value, cameraBottomY.value))
  }

  /** The probe box is the region directly under the object and above the
      camera's bottom edge: a point lies in it exactly when it lies within the
      object's horizontal extent and between the two edges. */
  lemma ProbeBoxIsRegionBelow(objectBounds: Box, cameraBottomY: real, x: real, y: real)
    requires objectBounds.sizeX >= 0.0 && MinY(objectBounds) >= cameraBottomY
    ensures var r := ProbeBox(objectBounds, cameraBottomY);
            (MinX(r) <= x <= MaxX(r) && MinY(r) <= y <= MaxY(r))
            <==> (MinX(objectBounds) <= x <= MaxX(objectBounds) && cameraBottomY <= y <= MinY(objectBounds))
  {
  }

  /** Moving the object vertically by `dy` moves the probe's top by `dy` and
      leaves its bottom at the camera's edge. */
  lemma ProbeBoxFollowsObject(objectBounds: Box, cameraBottomY: real, dy: real)
    ensures var moved := objectBounds.(centerY := objectBounds.centerY + dy);
            && MinY(ProbeBox(moved, cameraBottomY)) == MinY(ProbeBox(objectBounds, cameraBottomY))
            && MaxY(ProbeBox(moved, cameraBottomY)) == MaxY(ProbeBox(objectBounds, cameraBottomY)) + dy
            && ProbeBox(moved, cameraBottomY).sizeY == ProbeBox(objectBounds, cameraBottomY).sizeY + dy
  {
  }
}
