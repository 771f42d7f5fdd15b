/** Concrete walk-throughs of one gesture and one drag, with every
    collaborator fixed. */
module Scenarios {
  import opened Wrappers
  import opened Geometry
  import Gesture
  import GestureFacts
  import DragSessionFacts
  import DragSession
  import Connections

  /** Matching by pointer and view, records always alive, no clicks, a
      resolver that always supplies a creator which starts a drag in the
      workspace view and never calls back, a touch slop of 10 pixels, and a
      tap timeout of 100 milliseconds compared as the source writes it. */
  const Touch: Gesture.Env := Gesture.Env(
    (pd: Gesture.PendingDrag, ev: Gesture.MotionEvent) => pd.pointer == ev.pointer && pd.view == ev.view,
    (pd: Gesture.PendingDrag, ev: Gesture.MotionEvent) => true,
    (pd: Gesture.PendingDrag, ev: Gesture.MotionEvent) => false,
    (pd: Gesture.PendingDrag) => Some(Gesture.Creator(true, true)),
    (pd: Gesture.PendingDrag) => false,
    10,
    100,
    true)

  /** An event of pointer 0 on view 7, at the moment of its touch-down. */
  function At(action: Gesture.Action, x: int, y: int): Gesture.MotionEvent {
    Gesture.MotionEvent(action, 0, 7, Point(x, y), 0, 0)
  }

  /** A sloppy touch-down at (0, 0) followed by a direct move to (50, 0)
      posts one drag start; running it hands the drag to the platform. */
  lemma SloppyMoveBeyondSlopStartsDrag()
    ensures var r1 := Gesture.OnTouch(Touch, Gesture.Initial, Gesture.Sloppy, At(Gesture.Down, 0, 0), false);
            && r1.Success? && r1.value.handled && |r1.value.state.tasks| == 0
            && var r2 := Gesture.OnTouch(Touch, r1.value.state, Gesture.Sloppy, At(Gesture.Move, 50, 0), false);
            && r2.Success? && r2.value.handled && |r2.value.state.tasks| == 1
            && var r3 := Gesture.RunNextTask(r2.value.state, true);
            && r3.Success?
            && r3.value.platformDrags == [Gesture.PendingDrag(0, 7, Point(0, 0), true)]
  {
    var r1 := Gesture.OnTouch(Touch, Gesture.Initial, Gesture.Sloppy, At(Gesture.Down, 0, 0), false);
    var pd := r1.value.state.pending.value;
    GestureFacts.SquaredDistanceExact(0 - 50, 0);
    assert Gesture.IsBeyondSlopThreshold(Touch, pd, At(Gesture.Move, 50, 0));
  }

  /** A move of exactly the slop, to (10, 0), posts nothing; the direct
      event is still claimed. */
  lemma SloppyMoveAtSlopPostsNothing()
    ensures var r1 := Gesture.OnTouch(Touch, Gesture.Initial, Gesture.Sloppy, At(Gesture.Down, 0, 0), false);
            && r1.Success?
            && var r2 := Gesture.OnTouch(Touch, r1.value.state, Gesture.Sloppy, At(Gesture.Move, 10, 0), false);
            && r2.Success? && r2.value.handled && r2.value.state.tasks == []
  {
    var r1 := Gesture.OnTouch(Touch, Gesture.Initial, Gesture.Sloppy, At(Gesture.Down, 0, 0), false);
    var pd := r1.value.state.pending.value;
    GestureFacts.SquaredDistanceExact(0 - 10, 0);
    assert !Gesture.IsBeyondSlopThreshold(Touch, pd, At(Gesture.Move, 10, 0));
  }

  /** An event of pointer 0 on view 7 whose touch-down was an hour after
      boot, `dt` milliseconds after that touch-down. */
  function Late(action: Gesture.Action, x: int, y: int, dt: int): Gesture.MotionEvent {
    Gesture.MotionEvent(action, 0, 7, Point(x, y), 3_600_000, 3_600_000 + dt)
  }

  /** A direct immediate touch-down posts a drag start. A move 10 ms later
      at the same spot posts a second one under the test as written, and
      nothing under the intended test. */
  lemma ImmediateEarlyMoveTwoReadings()
    ensures var d := Gesture.OnTouch(Touch, Gesture.Initial, Gesture.Immediate, Late(Gesture.Down, 0, 0, 0), false);
            && d.Success? && |d.value.state.tasks| == 1
            && var m := Gesture.OnTouch(Touch, d.value.state, Gesture.Immediate, Late(Gesture.Move, 0, 0, 10), false);
            && m.Success? && m.value.handled && |m.value.state.tasks| == 2
    ensures var env := Touch.(tapAsWritten := false);
            var d := Gesture.OnTouch(env, Gesture.Initial, Gesture.Immediate, Late(Gesture.Down, 0, 0, 0), false);
            && d.Success? && |d.value.state.tasks| == 1
            && var m := Gesture.OnTouch(env, d.value.state, Gesture.Immediate, Late(Gesture.Move, 0, 0, 10), false);
            && m.Success? && m.value.handled && |m.value.state.tasks| == 1
  {
  }

  /** A direct immediate touch-down asks the resolver at once. A resolver
      that calls back into the arbiter makes the touch-down throw; a
      well-behaved one gets one drag start posted. */
  lemma NestedTouchThrows()
    ensures Gesture.OnTouch(Touch.(reenters := (pd: Gesture.PendingDrag) => true), Gesture.Initial,
                            Gesture.Immediate, At(Gesture.Down, 0, 0), false)
            == Failure(Gesture.Reentrant)
    ensures var r := Gesture.OnTouch(Touch, Gesture.Initial, Gesture.Immediate, At(Gesture.Down, 0, 0), false);
            r.Success? && r.value.handled && |r.value.state.tasks| == 1
  {
  }

  /** Identity coordinate transform and no connection within snap
      distance anywhere. */
  const Lonely: DragSession.Env := DragSession.Env(
    (p: Point) => p,
    (b: DragSession.Block, pos: map<nat, Point>, index: set<nat>) => None,
    (c: nat) => 0)

  const Root: DragSession.Block := DragSession.Block(3, true, [11, 12])

  const Record: DragSession.DragRecord := DragSession.DragRecord(Root, Point(0, 0), Point(100, 40))

  function Ev(action: DragSession.DragAction, x: int, y: int): DragSession.DragEvent {
    DragSession.DragEvent(action, true, Point(x, y), false, Record)
  }

  const Start: DragSession.Session :=
    DragSession.Session(None, [], None, map[], Connections.Pool({11, 12, 20}, {}, map[]), map[], [])

  /** Starting the drag takes the root's two connections out of the index. */
  lemma ScenarioStart()
    ensures var s1 := DragSession.OnDrag(Lonely, Start, Ev(DragSession.DragStarted, 0, 0)).state;
            s1 == Start.(pending := Some(Record), dragged := [11, 12],
                         pool := Connections.Pool({20}, {11, 12}, map[]))
  {
    assert Connections.Elems([11, 12]) == {11, 12};
    DragSessionFacts.DragStartedEffects(Lonely, Start, Ev(DragSession.DragStarted, 0, 0));
  }

  /** Dropping with nothing in snap distance bumps the neighbours, connects
      nothing, and re-indexes both of the root's connections. */
  lemma ScenarioDrop(s2: DragSession.Session)
    requires s2.pending == Some(Record) && DragSession.HighlightTracked(s2)
    requires s2.dragged == [11, 12] && s2.pool.index == {20} && s2.commits == []
    ensures var s3 := DragSession.OnDrag(Lonely, s2, Ev(DragSession.Drop, 50, 0)).state;
            s3.commits == [DragSession.BumpNeighbors(3)] && s3.pool.index == {11, 12, 20}
  {
    assert Connections.Elems([11, 12]) == {11, 12};
    DragSessionFacts.DropConnectsOrBumps(Lonely, s2, Ev(DragSession.Drop, 50, 0));
  }
}
