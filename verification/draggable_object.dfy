/** One draggable object (DraggableObject.cs): picking it up, following the
    pointer while held, and dropping it onto the highest surface below it that
    is wide enough. */
module DraggableObject {
  import opened Scene
  import Shelf

  /** The sorting order a picked-up object is raised to, so that it draws in
      front of every shelved object. */
  const DraggedSortingOrder: int := 50

  /** A collider found below a released object: the top edge of its bounds
      (`bounds.max.y`), its width (`bounds.size.x`) and the shelf it carries. */
  datatype Candidate = Candidate(top: real, width: real, shelf: ShelfId)

  /** The object fits: `!(colliderBelow.bounds.size.x < objectCollider.bounds.size.x)`. */
  predicate Fits(c: Candidate, width: real) {
    !(c.width < width)
  }

  /** Candidate `j` comes before candidate `i` in the stable
      `OrderByDescending(obj => obj.bounds.max.y)`. */
  predicate SortsBefore(cs: seq<Candidate>, j: nat, i: nat)
    requires j < |cs| && i < |cs|
  {
    cs[j].top > cs[i].top || (cs[j].top == cs[i].top && j < i)
  }

  /** Candidate `i` is what `.FirstOrDefault(fits)` picks from the sorted
      candidates: it fits, and no fitting candidate sorts before it. */
  predicate IsUpperFit(cs: seq<Candidate>, width: real, i: nat) {
    && i < |cs|
    && Fits(cs[i], width)
    && forall j :: 0 <= j < |cs| && Fits(cs[j], width) ==> !SortsBefore(cs, j, i)
  }

  /** The surface the object is dropped onto, as an index into the query
      results, or None when nothing below is wide enough. */
  function SelectSurface(cs: seq<Candidate>, width: real): (r: Option<nat>)
    ensures r.None? <==> forall j :: 0 <= j < |cs| ==> !Fits(cs[j], width)
    ensures r.Some? ==> IsUpperFit(cs, width, r.value)
  {
    if cs == [] then None
    else
      var prev := SelectSurface(cs[..|cs| - 1], width);
      var last := |cs| - 1;
      if Fits(cs[last], width) && (prev.None? || cs[last].top > cs[prev.value].top) then Some(last)
      else prev
  }

  /** At most one candidate is the upper fit, so the selection is determined. */
  lemma UpperFitIsUnique(cs: seq<Candidate>, width: real, i: nat, k: nat)
    requires IsUpperFit(cs, width, i) && IsUpperFit(cs, width, k)
    ensures i == k
  {
    assert !SortsBefore(cs, i, k) && !SortsBefore(cs, k, i);
  }

  /** The chosen surface is never narrower than the object and its top is the
      highest among those that fit. */
  lemma SelectedSurfaceFitsAndIsHighest(cs: seq<Candidate>, width: real, j: nat)
    requires SelectSurface(cs, width).Some?
    requires j < |cs| && Fits(cs[j], width)
    ensures var i := SelectSurface(cs, width).value;
            cs[i].width >= width && cs[j].top <= cs[i].top
  {
    var i := SelectSurface(cs, width).value;
    assert !SortsBefore(cs, j, i);
  }

  /** Where the object is sent on a surface whose top edge is `top`: the
      surface top when the object is at or above it, otherwise where it is. */
  function LandingPoint(pos: Vec3, top: real): (p: Vec3)
    ensures p.x == pos.x && p.z == 0.0
    ensures p.y <= pos.y && p.y <= top
    ensures p.y == pos.y || p.y == top
  {
    if pos.y >= top then Vec3(pos.x, top, 0.0) else Vec3(pos.x, pos.y, 0.0)
  }

  /** The object raised to the front as a held object. */
  function Raise(item: Item): Item {
    item.(isDragged := true, sortingOrder := DraggedSortingOrder)
  }

  /** Replacing one shelf's list and re-layering objects keeps every reference
      resolved, as long as the new list names existing objects and every
      object's shelf reference names an existing shelf. */
  lemma ShelfUpdateKeepsResolved(w: World, sh: ShelfId, objects: seq<ObjId>, items: map<ObjId, Item>)
    requires Resolved(w)
    requires sh in w.shelves
    requires items.Keys == w.items.Keys
    requires forall p :: p in items && items[p].currentShelf.Some? ==> items[p].currentShelf.value in w.shelves
    requires Members(items, objects)
    ensures Resolved(World(items, w.shelves[sh := objects]))
  {
  }

  /** Picking up an object that rests on shelf `sh`. */
  function PickUpFromShelf(w: World, o: ObjId, sh: ShelfId): (r: World)
    requires Resolved(w)
    requires o in w.items && w.items[o].currentShelf == Some(sh)
    ensures Resolved(r)
    ensures r.items.Keys == w.items.Keys && r.shelves.Keys == w.shelves.Keys
    ensures r.items[o] == Raise(w.items[o]).(sortingOrder := r.items[o].sortingOrder)
    ensures forall p :: p in w.items && p != o ==> r.items[p] == w.items[p].(sortingOrder := r.items[p].sortingOrder)
    ensures r.shelves == w.shelves[sh := r.shelves[sh]]
    ensures multiset(r.shelves[sh]) == multiset(w.shelves[sh]) - multiset{o}
    ensures NoDup(w.shelves[sh]) ==> NoDup(r.shelves[sh]) && o !in r.shelves[sh]
    ensures forall p :: p in r.shelves[sh] ==> p in w.shelves[sh]
    ensures o !in r.shelves[sh] ==> r.items[o].sortingOrder == DraggedSortingOrder
    ensures forall p :: p in w.items && p != o && p !in w.shelves[sh] ==> r.items[p] == w.items[p]
    ensures Shelf.Layered(w.items[o := Raise(w.items[o])], r.shelves[sh], r.items)
  {
    var raised := w.items[o := Raise(w.items[o])];
    var removed := Shelf.RemoveObjectFromShelf(w.shelves[sh], raised, o);
    PickedUpItems(w, o, sh, removed);
    World(removed.items, w.shelves[sh := removed.objects])
  }

  /** What a re-layering of shelf `sh` after raising `o` leaves for the
      objects: stated over any list drawn from the old one and any layering of
      it, so that `PickUpFromShelf` need not unfold the removal. */
  lemma PickedUpItems(w: World, o: ObjId, sh: ShelfId, removed: Shelf.Shelved)
    requires Resolved(w)
    requires o in w.items && w.items[o].currentShelf == Some(sh)
    requires forall p :: p in removed.objects ==> p in w.shelves[sh]
    requires Shelf.Layered(w.items[o := Raise(w.items[o])], removed.objects, removed.items)
    ensures Resolved(World(removed.items, w.shelves[sh := removed.objects]))
    ensures removed.items.Keys == w.items.Keys
    ensures removed.items[o] == Raise(w.items[o]).(sortingOrder := removed.items[o].sortingOrder)
    ensures forall p :: p in w.items && p != o ==> removed.items[p] == w.items[p].(sortingOrder := removed.items[p].sortingOrder)
    ensures o !in removed.objects ==> removed.items[o].sortingOrder == DraggedSortingOrder
    ensures forall p :: p in w.items && p != o && p !in w.shelves[sh] ==> removed.items[p] == w.items[p]
  {
    ShelfUpdateKeepsResolved(w, sh, removed.objects, removed.items);
  }

  /** `StartDragging`: raise the flag, bring the sprite to the front, and take
      the object off the shelf it was resting on. */
  function StartDragging(w: World, o: ObjId): (r: World)
    requires Resolved(w)
    requires o in w.items
    ensures Resolved(r)
    ensures r.items.Keys == w.items.Keys && r.shelves.Keys == w.shelves.Keys
    ensures r.items[o].isDragged
    ensures r.items[o] == w.items[o].(isDragged := true, sortingOrder := r.items[o].sortingOrder)
    ensures forall p :: p in w.items && p != o ==> r.items[p] == w.items[p].(sortingOrder := r.items[p].sortingOrder)
    ensures w.items[o].currentShelf.None? ==>
              r.shelves == w.shelves && r.items == w.items[o := Raise(w.items[o])]
    ensures w.items[o].currentShelf.Some? ==>
              var sh := w.items[o].currentShelf.value;
              && r.shelves == w.shelves[sh := r.shelves[sh]]
              && multiset(r.shelves[sh]) == multiset(w.shelves[sh]) - multiset{o}
              && (NoDup(w.shelves[sh]) ==> NoDup(r.shelves[sh]) && o !in r.shelves[sh])
              && (forall p :: p in r.shelves[sh] ==> p in w.shelves[sh])
              && (o !in r.shelves[sh] ==> r.items[o].sortingOrder == DraggedSortingOrder)
              && (forall p :: p in w.items && p != o && p !in w.shelves[sh] ==> r.items[p] == w.items[p])
              && Shelf.Layered(w.items[o := Raise(w.items[o])], r.shelves[sh], r.items)
  {
    match w.items[o].currentShelf
    case None => World(w.items[o := Raise(w.items[o])], w.shelves)
    case Some(sh) => PickUpFromShelf(w, o, sh)
  }

  /** A successful drop: the index of the chosen surface, the point the object
      is tweened to, and the fall distance fed to the fall-time formula. */
  datatype Fall = Fall(surface: nat, target: Vec3, distance: real)

  /** The scene after the drop, with a landed object shown at the end point of
      its fall tween, and the fall when there was one. */
  datatype Drop = Drop(world: World, fall: Option<Fall>)

  /** `StopDragging`: clear the flag and, if a surface below fits, put the
      object on that surface's shelf and send it down onto it. */
  function StopDragging(w: World, o: ObjId, cs: seq<Candidate>): (r: Drop)
    requires Resolved(w)
    requires o in w.items
    requires forall i :: 0 <= i < |cs| ==> cs[i].shelf in w.shelves
    ensures Resolved(r.world)
    ensures r.world.items.Keys == w.items.Keys && r.world.shelves.Keys == w.shelves.Keys
    ensures !r.world.items[o].isDragged
    ensures forall p :: p in w.items && p != o ==> r.world.items[p] == w.items[p].(sortingOrder := r.world.items[p].sortingOrder)
    ensures r.fall.None? <==> forall i :: 0 <= i < |cs| ==> !Fits(cs[i], w.items[o].width)
    ensures r.fall.None? ==>
              r.world == World(w.items[o := w.items[o].(isDragged := false)], w.shelves)
    ensures r.fall.Some? ==>
              var f := r.fall.value;
              var pos := w.items[o].pos;
              && IsUpperFit(cs, w.items[o].width, f.surface)
              && f.target == LandingPoint(pos, cs[f.surface].top)
              && f.target.y == (if pos.y >= cs[f.surface].top then cs[f.surface].top else pos.y)
              && f.distance == pos.y - f.target.y && f.distance >= 0.0
              && r.world == Land(w, o, cs[f.surface].shelf, f.target)
  {
    var item := w.items[o];
    match SelectSurface(cs, item.width)
    case None => Drop(World(w.items[o := item.(isDragged := false)], w.shelves), None)
    case Some(i) =>
      var target := LandingPoint(item.pos, cs[i].top);
      Drop(Land(w, o, cs[i].shelf, target), Some(Fall(i, target, item.pos.y - target.y)))
  }

  /** The scene after object `o` lands on shelf `sh` at `target`: the flag is
      cleared, the shelf recorded, the position set, the object appended to
      the shelf's list and the shelf re-layered. The layering reads only x,
      which the fall does not change, so placing the object first is the
      same as re-layering before the tween runs. */
  function Land(w: World, o: ObjId, sh: ShelfId, target: Vec3): (r: World)
    requires Resolved(w)
    requires o in w.items && sh in w.shelves
    ensures Resolved(r)
    ensures r.items.Keys == w.items.Keys && r.shelves.Keys == w.shelves.Keys
    ensures r.shelves == w.shelves[sh := w.shelves[sh] + [o]]
    ensures r.items[o] == w.items[o].(isDragged := false, currentShelf := Some(sh), pos := target, sortingOrder := r.items[o].sortingOrder)
    ensures forall p :: p in w.items && p != o ==> r.items[p] == w.items[p].(sortingOrder := r.items[p].sortingOrder)
    ensures Shelf.Layered(w.items[o := w.items[o].(isDragged := false, currentShelf := Some(sh), pos := target)],
                          w.shelves[sh] + [o], r.items)
  {
    var placed := w.items[o := w.items[o].(isDragged := false, currentShelf := Some(sh), pos := target)];
    var added := Shelf.AddObjectToShelf(w.shelves[sh], placed, o);
    ShelfUpdateKeepsResolved(w, sh, added.objects, added.items);
    World(added.items, w.shelves[sh := added.objects])
  }

  /** One coordinate of `Vector3.Lerp`, whose fraction is clamped to [0, 1]. */
  function LerpCoord(a: real, b: real, t: real): (v: real)
    ensures (a <= v <= b) || (b <= v <= a)
    ensures t >= 1.0 ==> v == b
    ensures t <= 0.0 ==> v == a
  {
    var u := if t < 0.0 then 0.0 else if t > 1.0 then 1.0 else t;
    var d := if a <= b then b - a else a - b;
    MulNonneg(d, u);
    MulNonneg(d, 1.0 - u);
    assert d * (1.0 - u) == d - d * u;
    a + (b - a) * u
  }

  function Lerp(a: Vec3, b: Vec3, t: real): Vec3 {
    Vec3(LerpCoord(a.x, b.x, t), LerpCoord(a.y, b.y, t), LerpCoord(a.z, b.z, t))
  }

  predicate Between(a: real, b: real, v: real) {
    (a <= v <= b) || (b <= v <= a)
  }

  /** `Update`: a held object moves towards the pointer's world position
      (flattened to z = 0) by the fraction `followSpeed * deltaTime`; an object
      that is not held does not move. */
  function Follow(item: Item, pointer: Vec3, followSpeed: real, dt: real): (r: Item)
    ensures !item.isDragged ==> r == item
    ensures item.isDragged ==> r == item.(pos := r.pos)
    ensures item.isDragged ==>
              && Between(item.pos.x, pointer.x, r.pos.x)
              && Between(item.pos.y, pointer.y, r.pos.y)
              && Between(item.pos.z, 0.0, r.pos.z)
    ensures item.isDragged && followSpeed * dt >= 1.0 ==> r.pos == Vec3(pointer.x, pointer.y, 0.0)
    ensures item.isDragged && followSpeed * dt <= 0.0 ==> r.pos == item.pos
  {
    if !item.isDragged then item
    else item.(pos := Lerp(item.pos, Vec3(pointer.x, pointer.y, 0.0), followSpeed * dt))
  }
}
