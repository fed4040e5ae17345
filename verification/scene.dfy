/** Shared vocabulary of the shelf game: object and shelf identities, positions,
    the per-object state the scripts keep, and the scene that ties them together. */
module Scene {

  /** A reference that may be null in the scripts. */
  datatype Option<+T> = None | Some(value: T)

  /** Identity of a `DraggableObject` in the scene. */
  type ObjId = nat

  /** Identity of a `Shelf` component in the scene. */
  type ShelfId = nat

  /** A world-space position (`transform.position`). */
  datatype Vec3 = Vec3(x: real, y: real, z: real)

  /** What one `DraggableObject` holds: its transform position, the width of its
      collider (`objectCollider.bounds.size.x`), the sprite's `sortingOrder`,
      the `_isDragged` flag and the `_currentShelf` reference. */
  datatype Item = Item(pos: Vec3, width: real, sortingOrder: int, isDragged: bool, currentShelf: Option<ShelfId>)

  /** The scene: every draggable object, and every shelf's `_objectsOnShelf` list. */
  datatype World = World(items: map<ObjId, Item>, shelves: map<ShelfId, seq<ObjId>>)

  predicate NoDup<T(==)>(s: seq<T>) {
    forall i, j :: 0 <= i < j < |s| ==> s[i] != s[j]
  }

  /** Every entry of a shelf list refers to an object of the scene. */
  predicate Members(items: map<ObjId, Item>, s: seq<ObjId>) {
    forall o :: o in s ==> o in items
  }

  /** The references the scripts follow resolve: shelf lists name existing objects
      and an object's `_currentShelf` names an existing shelf. */
  predicate Resolved(w: World) {
    && (forall sh :: sh in w.shelves ==> Members(w.items, w.shelves[sh]))
    && (forall o :: o in w.items && w.items[o].currentShelf.Some? ==> w.items[o].currentShelf.value in w.shelves)
  }

  /** A product of two non-negative reals is non-negative. */
  lemma MulNonneg(x: real, y: real)
    ensures x >= 0.0 && y >= 0.0 ==> x * y >= 0.0
  {
  }
}
