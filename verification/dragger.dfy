/** The drag session (Dragger.cs): a pointer press picks up the draggable
    object under the pointer, the release drops it. */
module Dragger {
  import opened Scene
  import Shelf
  import DraggableObject

  /** `_draggableObject` and `IsDragging`. */
  datatype Session = Session(held: Option<ObjId>, isDragging: bool)

  /** Nothing held, nothing being dragged: the state after `Awake`. */
  const Idle: Session := Session(None, false)

  /** A session together with the scene it acts on. */
  datatype State = State(session: Session, world: World)

  /** The colliders under the pointer, in query order, each given as the
      `DraggableObject` component it carries, if any. */
  predicate OverlapsResolve(w: World, overlaps: seq<Option<ObjId>>) {
    forall i :: 0 <= i < |overlaps| && overlaps[i].Some? ==> overlaps[i].value in w.items
  }

  /** The candidates below a released object each carry a shelf of the scene. */
  predicate CandidatesResolve(w: World, cs: seq<DraggableObject.Candidate>) {
    forall i :: 0 <= i < |cs| ==> cs[i].shelf in w.shelves
  }

  /** `OnDragStarted`: only the first collider under the pointer is looked at.
      If it carries a draggable object, that object is picked up; otherwise the
      held reference is cleared and `IsDragging` is left as it was. */
  function OnDragStarted(s: Session, w: World, overlaps: seq<Option<ObjId>>): (r: State)
    requires Resolved(w)
    requires OverlapsResolve(w, overlaps)
    ensures Resolved(r.world)
    ensures r.world.items.Keys == w.items.Keys && r.world.shelves.Keys == w.shelves.Keys
    ensures (|overlaps| == 0 || overlaps[0].None?) ==> r == State(Session(None, s.isDragging), w)
    ensures |overlaps| > 0 && overlaps[0].Some? ==>
              && r.session == Session(overlaps[0], true)
              && r.world == DraggableObject.StartDragging(w, overlaps[0].value)
              && r.world.items[overlaps[0].value].isDragged
  {
    var picked := if |overlaps| == 0 then None else overlaps[0];
    match picked
    case None => State(Session(None, s.isDragging), w)
    case Some(o) => State(Session(Some(o), true), DraggableObject.StartDragging(w, o))
  }

  /** `OnDragCanceled`: with nothing held nothing happens; otherwise the held
      object is dropped and the session returns to idle. */
  function OnDragCanceled(s: Session, w: World, cs: seq<DraggableObject.Candidate>): (r: State)
    requires Resolved(w)
    requires s.held.Some? ==> s.held.value in w.items
    requires CandidatesResolve(w, cs)
    ensures Resolved(r.world)
    ensures r.world.items.Keys == w.items.Keys && r.world.shelves.Keys == w.shelves.Keys
    ensures s.held.None? ==> r == State(s, w)
    ensures s.held.Some? ==>
              && r.session == Idle
              && r.world == DraggableObject.StopDragging(w, s.held.value, cs).world
              && !r.world.items[s.held.value].isDragged
  {
    match s.held
    case None => State(s, w)
    case Some(o) => State(Idle, DraggableObject.StopDragging(w, o, cs).world)
  }

  /** Only the first overlap decides: colliders further down the list are
      never looked at, so a draggable object behind a non-draggable collider
      is not picked up. */
  lemma OnlyFirstOverlapCounts(s: Session, w: World, overlaps: seq<Option<ObjId>>, k: nat)
    requires Resolved(w)
    requires OverlapsResolve(w, overlaps)
    requires 0 < k < |overlaps|
    ensures OnDragStarted(s, w, overlaps) == OnDragStarted(s, w, overlaps[..k])
    ensures overlaps[0].None? ==> OnDragStarted(s, w, overlaps).session.held.None?
  {
  }

  // ---------------------------------------------------------------------------
  // Sequences of pointer events.

  /** A pointer event: press started, with the colliders under the pointer, or
      press cancelled, with the colliders below the held object. */
  datatype Event =
    | PressStarted(overlaps: seq<Option<ObjId>>)
    | PressCanceled(candidates: seq<DraggableObject.Candidate>)

  /** The event's references name objects and shelves of the scene. */
  predicate EventResolves(w: World, e: Event) {
    match e
    case PressStarted(overlaps) => OverlapsResolve(w, overlaps)
    case PressCanceled(cs) => CandidatesResolve(w, cs)
  }

  function Handle(st: State, e: Event): (r: State)
    requires Resolved(st.world)
    requires st.session.held.Some? ==> st.session.held.value in st.world.items
    requires EventResolves(st.world, e)
    ensures Resolved(r.world)
    ensures r.world.items.Keys == st.world.items.Keys && r.world.shelves.Keys == st.world.shelves.Keys
    ensures r.session.held.Some? ==> r.session.held.value in r.world.items
  {
    match e
    case PressStarted(overlaps) => OnDragStarted(st.session, st.world, overlaps)
    case PressCanceled(cs) => OnDragCanceled(st.session, st.world, cs)
  }

  /** The state after handling `evs` in order. */
  function Run(st: State, evs: seq<Event>): (r: State)
    requires Resolved(st.world)
    requires st.session.held.Some? ==> st.session.held.value in st.world.items
    requires forall i :: 0 <= i < |evs| ==> EventResolves(st.world, evs[i])
    ensures Resolved(r.world)
    ensures r.world.items.Keys == st.world.items.Keys && r.world.shelves.Keys == st.world.shelves.Keys
    ensures r.session.held.Some? ==> r.session.held.value in r.world.items
  {
    if evs == [] then st
    else
      var before := Run(st, evs[..|evs| - 1]);
      var e := evs[|evs| - 1];
      assert EventResolves(before.world, e) by {
        assert EventResolves(st.world, e);
      }
      Handle(before, e)
  }

  /** Starts and cancels alternate, beginning with a start: what a single
      press action delivers. */
  predicate Alternating(evs: seq<Event>) {
    forall i :: 0 <= i < |evs| ==> (evs[i].PressStarted? <==> i % 2 == 0)
  }

  /** The session and the dragged flags agree: `IsDragging` holds exactly when
      an object is held, and exactly the held object has its flag raised. */
  predicate SessionAgrees(st: State) {
    var w := st.world;
    && (st.session.isDragging <==> st.session.held.Some?)
    && (st.session.held.Some? ==> st.session.held.value in w.items)
    && (forall o :: o in w.items ==> (w.items[o].isDragged <==> st.session.held == Some(o)))
  }

  /** The shelves agree with the objects: no shelf lists an object twice, an
      object on a shelf's list has that shelf as its current shelf (so it is on
      at most one shelf), and an object being dragged is on no shelf. */
  predicate ShelvesAgree(w: World) {
    && (forall sh :: sh in w.shelves ==> NoDup(w.shelves[sh]))
    && (forall sh, o :: sh in w.shelves && o in w.shelves[sh] ==> o in w.items && w.items[o].currentShelf == Some(sh))
    && (forall sh, o :: sh in w.shelves && o in w.shelves[sh] ==> !w.items[o].isDragged)
  }

  predicate Consistent(st: State) {
    Resolved(st.world) && SessionAgrees(st) && ShelvesAgree(st.world)
  }

  /** `r` differs from `w` only in sorting orders and in object `o`'s dragged
      flag, which is `flag`. */
  predicate OnlyOrdersAndFlagChange(w: World, r: World, o: ObjId, flag: bool)
    requires o in w.items
  {
    && r.items.Keys == w.items.Keys
    && r.items[o] == w.items[o].(isDragged := flag, sortingOrder := r.items[o].sortingOrder)
    && forall p :: p in w.items && p != o ==> r.items[p] == w.items[p].(sortingOrder := r.items[p].sortingOrder)
  }

  lemma PressKeepsConsistent(st: State, overlaps: seq<Option<ObjId>>)
    requires Consistent(st) && st.session.held.None?
    requires OverlapsResolve(st.world, overlaps)
    ensures Consistent(OnDragStarted(st.session, st.world, overlaps))
  {
    if |overlaps| > 0 && overlaps[0].Some? {
      PickUpKeepsConsistent(st.world, overlaps[0].value);
    }
  }

  lemma PickUpKeepsConsistent(w: World, o: ObjId)
    requires Consistent(State(Idle, w))
    requires o in w.items
    ensures Consistent(State(Session(Some(o), true), DraggableObject.StartDragging(w, o)))
  {
    var r := DraggableObject.StartDragging(w, o);
    FlagRaiseKeepsSession(w, r, o);
    ShelvesAgreeAfterPickUp(w, r, o);
  }

  /** Raising one object's flag while it becomes the held object keeps the
      session in agreement with the flags. */
  lemma FlagRaiseKeepsSession(w: World, r: World, o: ObjId)
    requires SessionAgrees(State(Idle, w))
    requires o in w.items
    requires OnlyOrdersAndFlagChange(w, r, o, true)
    ensures SessionAgrees(State(Session(Some(o), true), r))
  {
  }

  /** After a pick-up the object's shelf lists a subset of what it listed
      before, without duplicates and without the picked-up object, and every
      other shelf is as it was; so the shelves still agree with the objects. */
  lemma ShelvesAgreeAfterPickUp(w: World, r: World, o: ObjId)
    requires Resolved(w) && ShelvesAgree(w)
    requires o in w.items
    requires OnlyOrdersAndFlagChange(w, r, o, true)
    requires r.shelves.Keys == w.shelves.Keys
    requires w.items[o].currentShelf.None? ==> r.shelves == w.shelves
    requires w.items[o].currentShelf.Some? ==>
               var sh := w.items[o].currentShelf.value;
               && r.shelves == w.shelves[sh := r.shelves[sh]]
               && (NoDup(w.shelves[sh]) ==> NoDup(r.shelves[sh]) && o !in r.shelves[sh])
               && (forall p :: p in r.shelves[sh] ==> p in w.shelves[sh])
    ensures ShelvesAgree(r)
  {
    forall sh | sh in r.shelves
      ensures NoDup(r.shelves[sh]) && o !in r.shelves[sh]
      ensures forall p :: p in r.shelves[sh] ==> p in w.shelves[sh]
    {
      if w.items[o].currentShelf != Some(sh) {
        assert r.shelves[sh] == w.shelves[sh];
      }
    }
    forall sh, p | sh in r.shelves && p in r.shelves[sh]
      ensures p in r.items && r.items[p].currentShelf == Some(sh) && !r.items[p].isDragged
    {
      assert p in w.shelves[sh] && p != o;
    }
  }

  lemma CancelKeepsConsistent(st: State, cs: seq<DraggableObject.Candidate>)
    requires Consistent(st)
    requires CandidatesResolve(st.world, cs)
    ensures Consistent(OnDragCanceled(st.session, st.world, cs))
    ensures OnDragCanceled(st.session, st.world, cs).session.held.None?
  {
    if st.session.held.Some? {
      var o := st.session.held.value;
      var w := st.world;
      forall sh | sh in w.shelves
        ensures o !in w.shelves[sh]
      {
      }
      if DraggableObject.StopDragging(w, o, cs).fall.None? {
        DropInPlaceKeepsConsistent(w, o, cs);
      } else {
        LandingKeepsConsistent(w, o, cs);
      }
    }
  }

  lemma DropInPlaceKeepsConsistent(w: World, o: ObjId, cs: seq<DraggableObject.Candidate>)
    requires Consistent(State(Session(Some(o), true), w))
    requires CandidatesResolve(w, cs)
    requires forall sh :: sh in w.shelves ==> o !in w.shelves[sh]
    requires DraggableObject.StopDragging(w, o, cs).fall.None?
    ensures Consistent(State(Idle, DraggableObject.StopDragging(w, o, cs).world))
  {
    var r := DraggableObject.StopDragging(w, o, cs).world;
    assert OnlyOrdersAndFlagChange(w, r, o, false);
    assert SessionAgrees(State(Idle, r));
    assert ShelvesAgree(r);
  }

  lemma LandingKeepsConsistent(w: World, o: ObjId, cs: seq<DraggableObject.Candidate>)
    requires Consistent(State(Session(Some(o), true), w))
    requires CandidatesResolve(w, cs)
    requires forall sh :: sh in w.shelves ==> o !in w.shelves[sh]
    requires DraggableObject.StopDragging(w, o, cs).fall.Some?
    ensures Consistent(State(Idle, DraggableObject.StopDragging(w, o, cs).world))
  {
    var d := DraggableObject.StopDragging(w, o, cs);
    var sh := cs[d.fall.value.surface].shelf;
    ShelvesAgreeAfterLanding(w, d.world, o, sh);
  }

  /** After a landing the chosen shelf lists its old objects and then the
      landed one, which is no longer dragged and records that shelf; every
      other shelf is as it was; so the session is idle and consistent. */
  lemma ShelvesAgreeAfterLanding(w: World, r: World, o: ObjId, sh: ShelfId)
    requires Consistent(State(Session(Some(o), true), w))
    requires forall sh :: sh in w.shelves ==> o !in w.shelves[sh]
    requires sh in w.shelves
    requires Resolved(r)
    requires r.shelves == w.shelves[sh := w.shelves[sh] + [o]]
    requires r.items.Keys == w.items.Keys
    requires r.items[o].currentShelf == Some(sh) && !r.items[o].isDragged
    requires forall p :: p in w.items && p != o ==> r.items[p] == w.items[p].(sortingOrder := r.items[p].sortingOrder)
    ensures Consistent(State(Idle, r))
  {
    forall sh' | sh' in r.shelves
      ensures NoDup(r.shelves[sh'])
      ensures forall p :: p in r.shelves[sh'] ==> p == o || p in w.shelves[sh']
    {
      if sh' == sh {
        assert r.shelves[sh'] == w.shelves[sh'] + [o];
      }
    }
  }

  /** Starting from idle with a consistent scene, a run of alternating
      starts and cancels keeps the scene consistent — in particular
      `IsDragging` holds exactly when an object is held — and after each
      cancel nothing is held. */
  lemma {:induction false} AlternatingRunStaysConsistent(st: State, evs: seq<Event>)
    requires Consistent(st) && st.session == Idle
    requires forall i :: 0 <= i < |evs| ==> EventResolves(st.world, evs[i])
    requires Alternating(evs)
    ensures Consistent(Run(st, evs))
    ensures Run(st, evs).session.isDragging <==> Run(st, evs).session.held.Some?
    ensures |evs| % 2 == 0 ==> Run(st, evs).session == Idle
  {
    if evs != [] {
      var init := evs[..|evs| - 1];
      var e := evs[|evs| - 1];
      assert forall i :: 0 <= i < |init| ==> init[i] == evs[i];
      AlternatingRunStaysConsistent(st, init);
      var before := Run(st, init);
      assert EventResolves(before.world, e) by {
        assert EventResolves(st.world, e);
      }
      assert Run(st, evs) == Handle(before, e);
      LastEventOfAlternating(evs);
      HandleKeepsConsistent(before, e);
    }
  }

  /** In an alternating run the last event is a start exactly when the run
      has odd length; a start then finds nothing held. */
  lemma LastEventOfAlternating(evs: seq<Event>)
    requires Alternating(evs) && evs != []
    ensures evs[|evs| - 1].PressStarted? <==> |evs| % 2 == 1
    ensures evs[|evs| - 1].PressStarted? ==> |evs[..|evs| - 1]| % 2 == 0
  {
    var n := |evs| - 1;
    assert evs[n].PressStarted? <==> n % 2 == 0;
  }

  lemma HandleKeepsConsistent(st: State, e: Event)
    requires Consistent(st)
    requires EventResolves(st.world, e)
    requires e.PressStarted? ==> st.session.held.None?
    ensures Consistent(Handle(st, e))
    ensures e.PressCanceled? ==> Handle(st, e).session == Idle
  {
    match e
    case PressStarted(overlaps) =>
      PressKeepsConsistent(st, overlaps);
    case PressCanceled(cs) =>
      CancelKeepsConsistent(st, cs);
  }

  // ---------------------------------------------------------------------------
  // The layering of every shelf across a run.

  /** An object on no shelf may change: every shelf keeps its layering. */
  lemma OffShelfChangeKeepsLayering(w: World, r: World, o: ObjId, v: Item)
    requires Resolved(w) && Shelf.AllLayered(w) && Resolved(r)
    requires o in w.items && forall sh :: sh in w.shelves ==> o !in w.shelves[sh]
    requires r == World(w.items[o := v], w.shelves)
    ensures Shelf.AllLayered(r)
  {
    forall sh | sh in r.shelves
      ensures Shelf.ShelfLayered(r, sh)
    {
      Shelf.UntouchedShelfStaysLayered(w, r, sh);
    }
  }

  /** Shelf `sh` is laid out anew and no other shelf's list or members
      change: every shelf is layered afterwards. */
  lemma LayeringAfterRelayout(w: World, r: World, o: ObjId, sh: ShelfId, before: map<ObjId, Item>)
    requires Resolved(w) && ShelvesAgree(w) && Shelf.AllLayered(w) && Resolved(r)
    requires sh in w.shelves && r.shelves.Keys == w.shelves.Keys
    requires forall sh' :: sh' in w.shelves && sh' != sh ==> r.shelves[sh'] == w.shelves[sh'] && o !in w.shelves[sh']
    requires forall p :: p in w.items && p != o && p !in w.shelves[sh] ==> p in r.items && r.items[p] == w.items[p]
    requires Members(before, r.shelves[sh]) && Shelf.Layered(before, r.shelves[sh], r.items)
    ensures Shelf.AllLayered(r)
  {
    forall sh' | sh' in r.shelves
      ensures Shelf.ShelfLayered(r, sh')
    {
      if sh' == sh {
        Shelf.LayeredShelfIsLayered(r, sh, before);
      } else {
        OtherShelfUntouched(w, r, o, sh, sh');
        Shelf.UntouchedShelfStaysLayered(w, r, sh');
      }
    }
  }

  /** An object listed on one shelf is listed on no other. */
  lemma OnOneShelfOnly(w: World, p: ObjId, a: ShelfId, b: ShelfId)
    requires ShelvesAgree(w)
    requires a in w.shelves && b in w.shelves && a != b && p in w.shelves[a]
    ensures p !in w.shelves[b]
  {
    assert w.items[p].currentShelf == Some(a);
  }

  /** An object lists only on the shelf it records as its current one. */
  lemma ListedOnlyOnCurrentShelf(w: World, o: ObjId, sh: ShelfId)
    requires ShelvesAgree(w)
    requires sh in w.shelves && o in w.items && w.items[o].currentShelf != Some(sh)
    ensures o !in w.shelves[sh]
  {
  }

  /** An object is listed on no shelf but the one it records. */
  lemma NotListedElsewhere(w: World, o: ObjId, sh: ShelfId)
    requires ShelvesAgree(w)
    requires o in w.items && w.items[o].currentShelf == Some(sh)
    ensures forall sh' :: sh' in w.shelves && sh' != sh ==> o !in w.shelves[sh']
  {
    forall sh' | sh' in w.shelves && sh' != sh
      ensures o !in w.shelves[sh']
    {
      ListedOnlyOnCurrentShelf(w, o, sh');
    }
  }

  /** When only `o` and the members of shelf `sh` may change, the members of
      another shelf that does not list `o` are untouched. */
  lemma OtherShelfUntouched(w: World, r: World, o: ObjId, sh: ShelfId, sh': ShelfId)
    requires Resolved(w) && ShelvesAgree(w)
    requires sh in w.shelves && sh' in w.shelves && sh' != sh && o !in w.shelves[sh']
    requires forall p :: p in w.items && p != o && p !in w.shelves[sh] ==> p in r.items && r.items[p] == w.items[p]
    ensures forall p :: p in w.shelves[sh'] ==> p in r.items && r.items[p] == w.items[p]
  {
    forall p | p in w.shelves[sh']
      ensures p in r.items && r.items[p] == w.items[p]
    {
      OnOneShelfOnly(w, p, sh', sh);
    }
  }

  /** `StartDragging` keeps every shelf layered. */
  lemma PickUpKeepsLayering(w: World, o: ObjId)
    requires Resolved(w) && ShelvesAgree(w) && Shelf.AllLayered(w)
    requires o in w.items
    ensures Shelf.AllLayered(DraggableObject.StartDragging(w, o))
  {
    match w.items[o].currentShelf
    case None =>
      OffShelfChangeKeepsLayering(w, DraggableObject.StartDragging(w, o), o, DraggableObject.Raise(w.items[o]));
    case Some(sh) =>
      PickUpFromShelfKeepsLayering(w, o, sh);
  }

  /** Picking an object up from its shelf keeps every shelf layered. */
  lemma PickUpFromShelfKeepsLayering(w: World, o: ObjId, sh: ShelfId)
    requires Resolved(w) && ShelvesAgree(w) && Shelf.AllLayered(w)
    requires o in w.items && w.items[o].currentShelf == Some(sh)
    ensures Shelf.AllLayered(DraggableObject.PickUpFromShelf(w, o, sh))
  {
    NotListedElsewhere(w, o, sh);
    LayeringAfterRelayout(w, DraggableObject.PickUpFromShelf(w, o, sh), o, sh, w.items[o := DraggableObject.Raise(w.items[o])]);
  }

  /** Laying out `s + [o]` over objects where only `o` was replaced leaves
      every object off that list as it was. */
  lemma LandingLeavesOthers(items: map<ObjId, Item>, s: seq<ObjId>, o: ObjId, landed: Item, after: map<ObjId, Item>)
    requires o in items && Members(items, s)
    requires Shelf.Layered(items[o := landed], s + [o], after)
    ensures forall p :: p in items && p != o && p !in s ==> p in after && after[p] == items[p]
  {
    forall p | p in items && p != o && p !in s
      ensures p in after && after[p] == items[p]
    {
      assert p !in s + [o];
    }
  }

  /** `StopDragging` of an object on no shelf keeps every shelf layered. */
  lemma DropKeepsLayering(w: World, o: ObjId, cs: seq<DraggableObject.Candidate>)
    requires Resolved(w) && ShelvesAgree(w) && Shelf.AllLayered(w)
    requires o in w.items && forall sh :: sh in w.shelves ==> o !in w.shelves[sh]
    requires CandidatesResolve(w, cs)
    ensures Shelf.AllLayered(DraggableObject.StopDragging(w, o, cs).world)
  {
    var d := DraggableObject.StopDragging(w, o, cs);
    if d.fall.None? {
      OffShelfChangeKeepsLayering(w, d.world, o, w.items[o].(isDragged := false));
    } else {
      LandKeepsLayering(w, o, cs[d.fall.value.surface].shelf, d.fall.value.target);
    }
  }

  /** Landing an object that is on no shelf keeps every shelf layered. */
  lemma LandKeepsLayering(w: World, o: ObjId, sh: ShelfId, target: Vec3)
    requires Resolved(w) && ShelvesAgree(w) && Shelf.AllLayered(w)
    requires o in w.items && sh in w.shelves
    requires forall sh' :: sh' in w.shelves ==> o !in w.shelves[sh']
    ensures Shelf.AllLayered(DraggableObject.Land(w, o, sh, target))
  {
    var r := DraggableObject.Land(w, o, sh, target);
    var landed := w.items[o].(isDragged := false, currentShelf := Some(sh), pos := target);
    LandingLeavesOthers(w.items, w.shelves[sh], o, landed, r.items);
    LayeringAfterRelayout(w, r, o, sh, w.items[o := landed]);
  }

  /** One event from a consistent state keeps every shelf layered. */
  lemma HandleKeepsLayering(st: State, e: Event)
    requires Consistent(st) && Shelf.AllLayered(st.world)
    requires EventResolves(st.world, e)
    requires e.PressStarted? ==> st.session.held.None?
    ensures Shelf.AllLayered(Handle(st, e).world)
  {
    match e
    case PressStarted(overlaps) =>
      if |overlaps| > 0 && overlaps[0].Some? {
        PickUpKeepsLayering(st.world, overlaps[0].value);
      }
    case PressCanceled(cs) =>
      if st.session.held.Some? {
        var o := st.session.held.value;
        forall sh | sh in st.world.shelves
          ensures o !in st.world.shelves[sh]
        {
        }
        DropKeepsLayering(st.world, o, cs);
      }
  }

  /** Starting from idle with a consistent, layered scene, every shelf stays
      layered across a run of alternating starts and cancels: whichever
      shelf an object leaves or lands on, every shelf's members carry the
      ranks of their current x. */
  lemma {:induction false} AlternatingRunKeepsLayering(st: State, evs: seq<Event>)
    requires Consistent(st) && st.session == Idle && Shelf.AllLayered(st.world)
    requires forall i :: 0 <= i < |evs| ==> EventResolves(st.world, evs[i])
    requires Alternating(evs)
    ensures Shelf.AllLayered(Run(st, evs).world)
  {
    if evs != [] {
      var init := evs[..|evs| - 1];
      var e := evs[|evs| - 1];
      assert forall i :: 0 <= i < |init| ==> init[i] == evs[i];
      AlternatingRunKeepsLayering(st, init);
      AlternatingRunStaysConsistent(st, init);
      var before := Run(st, init);
      assert EventResolves(before.world, e) by {
        assert EventResolves(st.world, e);
      }
      assert Run(st, evs) == Handle(before, e);
      LastEventOfAlternating(evs);
      HandleKeepsLayering(before, e);
    }
  }

  /** The code does not ignore a press that starts while an object is held:
      if the first collider under the pointer carries no draggable object,
      the held reference is lost while `IsDragging` stays true and the old
      object keeps its dragged flag. */
  lemma SecondStartLosesHeldObject(w: World, o: ObjId)
    requires Resolved(w) && o in w.items && w.items[o].isDragged
    ensures var r := OnDragStarted(Session(Some(o), true), w, [None]);
            r.session.isDragging && r.session.held.None? && r.world.items[o].isDragged
  {
  }

  /** A second start over another draggable object switches the held object. */
  lemma SecondStartSwitchesHeldObject(w: World, o: ObjId, p: ObjId)
    requires Resolved(w) && o in w.items && p in w.items && o != p
    ensures var r := OnDragStarted(Session(Some(o), true), w, [Some(p)]);
            r.session.held == Some(p) && r.world.items[o] == w.items[o].(sortingOrder := r.world.items[o].sortingOrder)
  {
  }
}
