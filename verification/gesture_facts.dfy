/** Properties of the touch-gesture arbiter: the slop test, the outcome of
    each kind of event, the deferred drag-start task, and an invariant kept by
    every sequence of events and task runs. */
module GestureFacts {
  import opened Wrappers
  import opened Geometry
  import opened JavaInt
  import opened Gesture

  // ---------------------------------------------------------------- slop

  /** On a screen whose coordinates fit in 15 bits, nothing overflows: the
      Java test is exactly dx² + dy² > slop², a strict comparison. */
  lemma {:induction false} SlopIsStrictSquaredDistance(env: Env, pd: PendingDrag, ev: MotionEvent)
    requires 0 <= pd.downScreen.x <= 32767 && 0 <= pd.downScreen.y <= 32767
    requires 0 <= ev.screen.x <= 32767 && 0 <= ev.screen.y <= 32767
    ensures var dx := pd.downScreen.x - ev.screen.x;
            var dy := pd.downScreen.y - ev.screen.y;
            IsBeyondSlopThreshold(env, pd, ev) <==> dx * dx + dy * dy > env.touchSlop * env.touchSlop
  {
    var dx := pd.downScreen.x - ev.screen.x;
    var dy := pd.downScreen.y - ev.screen.y;
    SquaredDistanceExact(dx, dy);
  }

  /** For deltas of at most 32767 pixels the wrapped arithmetic is exact. */
  lemma SquaredDistanceExact(dx: int, dy: int)
    requires -32767 <= dx <= 32767 && -32767 <= dy <= 32767
    ensures SquaredDistance(dx, dy) == dx * dx + dy * dy
  {
    SquareBound(dx);
    SquareBound(dy);
    assert IsInt(dx) && IsInt(dy);
    assert Wrap(dx * dx) == dx * dx;
    assert Wrap(dy * dy) == dy * dy;
  }

  lemma SquareBound(x: int)
    requires -32767 <= x <= 32767
    ensures 0 <= x * x <= 32767 * 32767
  {
    var a := if x < 0 then -x else x;
    assert x * x == a * a;
    MulMonotone(a, 32767, a);
    MulMonotone(a, 32767, 32767);
  }

  lemma MulMonotone(a: int, b: int, c: int)
    requires a <= b && 0 <= c
    ensures a * c <= b * c
  {
  }

  /** The test only sees the squares: negating either delta, including the
      one value, `MIN_INT`, that Java cannot negate, never changes it. */
  lemma SlopIgnoresSigns(dx: int, dy: int, slopSquared: int)
    requires IsInt(dx) && IsInt(dy)
    ensures BeyondSlop(Wrap(-dx), dy, slopSquared) == BeyondSlop(dx, dy, slopSquared)
    ensures BeyondSlop(dx, Wrap(-dy), slopSquared) == BeyondSlop(dx, dy, slopSquared)
    ensures BeyondSlop(dy, dx, slopSquared) == BeyondSlop(dx, dy, slopSquared)
  {
    NegatedSquare(dx);
    NegatedSquare(dy);
  }

  lemma NegatedSquare(d: int)
    requires IsInt(d)
    ensures Wrap(-d) * Wrap(-d) == d * d
  {
  }

  /** Boundary: a move of exactly the slop does not qualify; one pixel
      more does. */
  lemma SlopBoundary(touchSlop: int)
    requires 0 <= touchSlop < 32767
    ensures !BeyondSlop(touchSlop, 0, SlopSquared(touchSlop))
    ensures BeyondSlop(touchSlop + 1, 0, SlopSquared(touchSlop))
  {
    SquaredDistanceExact(touchSlop, 0);
    SquaredDistanceExact(touchSlop + 1, 0);
    assert (touchSlop + 1) * (touchSlop + 1) == touchSlop * touchSlop + 2 * touchSlop + 1;
  }

  // ---------------------------------------------------------- tap timeout

  /** As written, the tap-timeout test never looks at how long the pointer
      has been down: two events that differ only in their event time get the
      same verdict. */
  lemma TapTimeoutAsWrittenIgnoresHold(env: Env, ev: MotionEvent, eventTime: int)
    ensures PastTapTimeoutAsWritten(env, ev.(eventTime := eventTime)) == PastTapTimeoutAsWritten(env, ev)
  {
  }

  /** A move one millisecond after a touch-down made an hour after boot
      passes the test as written, though it is well inside the tap timeout. */
  lemma TapTimeoutAsWrittenAcceptsEarlyMove(env: Env)
    requires 1 <= env.tapTimeout < 3_600_000
    ensures var ev := MotionEvent(Move, 0, 0, Origin, 3_600_000, 3_600_001);
            PastTapTimeoutAsWritten(env, ev) && !HeldPastTapTimeout(env, ev)
  {
  }

  /** With the intended reading, a move made within the tap timeout of its
      touch-down counts as a drag only beyond the slop, and a direct
      immediate move made after it always counts. */
  lemma EarlyMoveNeedsSlop(env: Env, mode: DragMode, pd: PendingDrag, ev: MotionEvent, intercept: bool)
    requires !env.tapAsWritten
    ensures ev.eventTime - ev.downTime <= env.tapTimeout ==>
              (IsDragGesture(env, mode, pd, ev, intercept) <==> IsBeyondSlopThreshold(env, pd, ev))
    ensures !intercept && mode == Immediate && ev.eventTime - ev.downTime > env.tapTimeout ==>
              IsDragGesture(env, mode, pd, ev, intercept)
  {
  }

  /** As written, once the touch-down time exceeds the tap timeout (that
      is, on a device up for longer than it), every direct immediate move of
      the pending gesture consults the resolver, however soon after the
      touch-down and however close to it: the move throws iff the resolver
      calls back, and otherwise posts a drag start iff the resolver supplies
      a creator. */
  lemma AsWrittenEveryImmediateMoveConsults(env: Env, s: Arbiter, ev: MotionEvent)
    requires env.tapAsWritten && ev.downTime > env.tapTimeout
    requires !s.inTouch && ev.action == Move && s.pending.Some?
    requires env.isMatch(s.pending.value, ev) && !s.pending.value.dragging
    ensures var pd := s.pending.value;
            var r := OnTouch(env, s, Immediate, ev, false);
            && Consulted(env, s, Immediate, ev, false) == Some(pd)
            && (r.Failure? <==> env.reenters(pd))
            && (r.Success? ==>
                  && r.value.handled
                  && r.value.state.tasks
                       == s.tasks + (if env.resolve(pd).Some? then [StartDragTask(pd, env.resolve(pd).value)] else []))
  {
  }

  /** With the intended reading, a move of the pending gesture made within
      the tap timeout and within the slop consults nobody, posts nothing and
      changes nothing; it is handled iff it arrived directly. */
  lemma IntendedEarlyMoveInsideSlopPostsNothing(env: Env, s: Arbiter, mode: DragMode, ev: MotionEvent,
                                                intercept: bool)
    requires !env.tapAsWritten && ev.eventTime - ev.downTime <= env.tapTimeout
    requires !s.inTouch && ev.action == Move && s.pending.Some?
    requires env.isMatch(s.pending.value, ev) && !s.pending.value.dragging
    requires !IsBeyondSlopThreshold(env, s.pending.value, ev)
    ensures Consulted(env, s, mode, ev, intercept).None?
    ensures OnTouch(env, s, mode, ev, intercept) == Success(Touched(s, !intercept))
  {
  }

  // ------------------------------------------------------------ touch-down

  /** A touch-down with no (live) pending drag always records a new one. An
      intercepted one is left to the child view; a direct sloppy one is
      claimed; a direct immediate one consults the resolver, and is claimed
      iff a drag start could be posted, or throws if the resolver calls back
      into the arbiter. */
  lemma DownWithoutPendingCreatesOne(env: Env, s: Arbiter, mode: DragMode, ev: MotionEvent, intercept: bool)
    requires !s.inTouch && ev.action == Down
    requires DiscardStale(env, s.pending, ev).None?
    ensures var r := OnTouch(env, s, mode, ev, intercept);
            var pd := NewPendingDrag(ev);
            && (intercept || mode == Sloppy ==>
                  && r.Success?
                  && r.value.state.pending == Some(pd)
                  && r.value.state.tasks == s.tasks
                  && r.value.handled == !intercept)
            && (!intercept && mode == Immediate ==>
                  && (r.Failure? <==> env.reenters(pd))
                  && (r.Success? ==>
                        && r.value.state.pending == Some(pd)
                        && (r.value.handled <==> env.resolve(pd).Some?)
                        && (r.value.handled ==> r.value.state.tasks == s.tasks + [StartDragTask(pd, env.resolve(pd).value)])
                        && (!r.value.handled ==> r.value.state.tasks == s.tasks)))
  {
  }

  /** A touch-down that does not belong to the live pending drag, or that
      only arrives by interception, is declined and changes nothing. */
  lemma DownOfAnotherGestureIgnored(env: Env, s: Arbiter, mode: DragMode, ev: MotionEvent, intercept: bool)
    requires !s.inTouch && ev.action == Down && s.pending.Some?
    requires env.isMatch(s.pending.value, ev) || env.isAlive(s.pending.value, ev)
    requires !env.isMatch(s.pending.value, ev) || intercept
    ensures OnTouch(env, s, mode, ev, intercept) == Success(Touched(s, false))
  {
  }

  /** Any other event that does not match a pending drag which is no longer
      alive drops that record and is declined. */
  lemma StaleRecordDropped(env: Env, s: Arbiter, mode: DragMode, ev: MotionEvent, intercept: bool)
    requires !s.inTouch && ev.action != Down && s.pending.Some?
    requires !env.isMatch(s.pending.value, ev) && !env.isAlive(s.pending.value, ev)
    ensures OnTouch(env, s, mode, ev, intercept) == Success(Touched(s.(pending := None), false))
  {
  }

  // ------------------------------------------------------------ move / up

  /** A move of a gesture that is already dragging is declined and starts
      nothing. */
  lemma MoveWhileDraggingIgnored(env: Env, s: Arbiter, mode: DragMode, ev: MotionEvent, intercept: bool)
    requires !s.inTouch && ev.action == Move && s.pending.Some?
    requires env.isMatch(s.pending.value, ev) && s.pending.value.dragging
    ensures OnTouch(env, s, mode, ev, intercept) == Success(Touched(s, false))
  {
  }

  /** A move of a gesture not yet dragging consults the resolver only when
      the gesture qualifies, and throws if the resolver calls back into the
      arbiter. Otherwise it posts a drag start iff the gesture qualifies and
      the resolver supplies a creator, and it is handled iff such a drag was
      posted or it arrived directly. */
  lemma MoveBeforeDrag(env: Env, s: Arbiter, mode: DragMode, ev: MotionEvent, intercept: bool)
    requires !s.inTouch && ev.action == Move && s.pending.Some?
    requires env.isMatch(s.pending.value, ev) && !s.pending.value.dragging
    ensures var pd := s.pending.value;
            var r := OnTouch(env, s, mode, ev, intercept);
            var isDragGesture := IsDragGesture(env, mode, pd, ev, intercept);
            var isNewDrag := isDragGesture && env.resolve(pd).Some?;
            && (r.Failure? <==> isDragGesture && env.reenters(pd))
            && (r.Success? ==>
                  && r.value.handled == (isNewDrag || !intercept)
                  && r.value.state.pending == s.pending
                  && (isNewDrag ==> r.value.state.tasks == s.tasks + [StartDragTask(pd, env.resolve(pd).value)])
                  && (!isNewDrag ==> r.value.state.tasks == s.tasks))
  {
  }

  /** Releasing (or cancelling) before a drag started ends the gesture; the
      click callback fires only for a direct event that `isClick` accepts; the
      event is handled iff it arrived directly. */
  lemma ReleaseBeforeDrag(env: Env, s: Arbiter, mode: DragMode, ev: MotionEvent, intercept: bool)
    requires !s.inTouch && ev.action in {Up, Cancel} && s.pending.Some?
    requires env.isMatch(s.pending.value, ev) && !s.pending.value.dragging
    ensures var pd := s.pending.value;
            var r := OnTouch(env, s, mode, ev, intercept);
            && r.Success?
            && r.value.state.pending.None?
            && r.value.handled == !intercept
            && r.value.state.tasks == s.tasks
            && (r.value.state.clicks == s.clicks + [pd] <==> !intercept && env.isClick(pd, ev))
            && (r.value.state.clicks == s.clicks <==> !(!intercept && env.isClick(pd, ev)))
  {
  }

  // ------------------------------------------------------------- resolver

  /** The record `maybeStartDrag` hands the resolver while this event is
      processed, if it is called at all: for a direct immediate touch-down
      that creates or claims the record, and for a matching move of a record
      not yet dragging that qualifies as a drag gesture. */
  function Consulted(env: Env, s: Arbiter, mode: DragMode, ev: MotionEvent, intercept: bool): Option<PendingDrag> {
    var matches := s.pending.Some? && env.isMatch(s.pending.value, ev);
    var pending := DiscardStale(env, s.pending, ev);
    if ev.action == Down && !intercept && mode == Immediate then
      if pending.None? then Some(NewPendingDrag(ev))
      else if matches then pending
      else None
    else if ev.action == Move && matches && !s.pending.value.dragging
            && IsDragGesture(env, mode, s.pending.value, ev, intercept) then s.pending
    else None
  }

  /** A touch call throws iff it finds the guard up or the resolver it
      consults calls back into it; when it returns, the only task it has
      posted is the consulted record with the creator the resolver gave. */
  lemma OnTouchConsultsResolver(env: Env, s: Arbiter, mode: DragMode, ev: MotionEvent, intercept: bool)
    ensures var r := OnTouch(env, s, mode, ev, intercept);
            var c := Consulted(env, s, mode, ev, intercept);
            && (r.Failure? <==> s.inTouch || (c.Some? && env.reenters(c.value)))
            && (r.Success? ==>
                  r.value.state.tasks
                    == s.tasks + (if c.Some? && env.resolve(c.value).Some?
                                  then [StartDragTask(c.value, env.resolve(c.value).value)] else []))
  {
  }

  // ------------------------------------------------------ deferred task

  /** A task that finds the current pending drag already dragging is
      dropped without effect. */
  lemma TaskIgnoredWhileDragging(s: Arbiter, encodeOk: bool)
    requires s.tasks != [] && s.pending.Some? && s.pending.value.dragging
    ensures RunNextTask(s, encodeOk) == Success(s.(tasks := s.tasks[1..]))
  {
  }

  /** A task whose creator starts no drag clears the pending drag. */
  lemma TaskWithoutDragClears(s: Arbiter, encodeOk: bool)
    requires s.tasks != [] && !(s.pending.Some? && s.pending.value.dragging)
    requires !s.tasks[0].creator.startsDrag && !s.tasks[0].stash.dragging
    ensures RunNextTask(s, encodeOk) == Success(s.(tasks := s.tasks[1..], pending := None))
  {
  }

  /** A drag that starts but whose data cannot be encoded is abandoned:
      the pending drag is cleared and nothing reaches the platform. */
  lemma TaskEncodingFailureClears(s: Arbiter)
    requires s.tasks != [] && !(s.pending.Some? && s.pending.value.dragging)
    requires s.tasks[0].creator.startsDrag && s.tasks[0].creator.inWorkspace
    ensures RunNextTask(s, false) == Success(s.(tasks := s.tasks[1..], pending := None))
  {
  }

  /** A drag that starts and encodes becomes the pending drag and is handed
      to the platform exactly once. */
  lemma TaskStartsPlatformDrag(s: Arbiter)
    requires s.tasks != [] && !(s.pending.Some? && s.pending.value.dragging)
    requires s.tasks[0].creator.startsDrag && s.tasks[0].creator.inWorkspace
    ensures var pd := s.tasks[0].stash.(dragging := true);
            RunNextTask(s, true)
              == Success(s.(tasks := s.tasks[1..], pending := Some(pd), platformDrags := s.platformDrags + [pd]))
  {
  }

  // ---------------------------------------------------------- traces

  /** One input to the arbiter: a touch event delivered through one of the
      two touch handlers, or the main handler running the oldest posted task. */
  datatype Input = Touch(mode: DragMode, ev: MotionEvent, intercept: bool) | RunTask(encodeOk: bool)

  function Step(env: Env, s: Arbiter, i: Input): Result<Arbiter, Fault> {
    match i
    case Touch(mode, ev, intercept) =>
      (match OnTouch(env, s, mode, ev, intercept)
       case Success(t) => Success(t.state)
       case Failure(e) => Failure(e))
    case RunTask(encodeOk) => RunNextTask(s, encodeOk)
  }

  /** Feed the inputs in order, stopping at the first exception. */
  function Run(env: Env, s: Arbiter, inputs: seq<Input>): Result<Arbiter, Fault>
    decreases |inputs|
  {
    if inputs == [] then Success(s)
    else
      match Step(env, s, inputs[0])
      case Success(s1) => Run(env, s1, inputs[1..])
      case Failure(e) => Failure(e)
  }

  /** What holds between events: the guard is down; every posted task holds
      the creator the resolver gave for its stashed record; a dragging pending
      drag has been handed to the platform, and only dragging records are;
      and the arbiter's own dragged-connection list, which nothing in the
      arbiter ever adds to, is empty. */
  ghost predicate Consistent(env: Env, s: Arbiter) {
    && !s.inTouch
    && (forall i :: 0 <= i < |s.tasks| ==> env.resolve(s.tasks[i].stash) == Some(s.tasks[i].creator))
    && (s.pending.Some? && s.pending.value.dragging ==> s.pending.value in s.platformDrags)
    && (forall k :: 0 <= k < |s.platformDrags| ==> s.platformDrags[k].dragging)
    && s.dragged == []
  }

  /** The handler never calls back into the arbiter. */
  ghost predicate NeverReenters(env: Env) {
    forall pd :: !env.reenters(pd)
  }

  lemma InitialConsistent(env: Env)
    ensures Consistent(env, Initial)
  {
  }

  /** The dispatch, run with the guard up on a consistent state, keeps
      every posted task faithful to the resolver. */
  lemma DispatchKeepsConsistent(env: Env, s: Arbiter, mode: DragMode, ev: MotionEvent, intercept: bool,
                                matches: bool)
    requires s.inTouch && (matches ==> s.pending.Some?)
    requires Consistent(env, s.(inTouch := false))
    ensures var r := Dispatch(env, s, mode, ev, intercept, matches);
            r.Success? ==> Consistent(env, r.value.state.(inTouch := false))
  {
    var r := Dispatch(env, s, mode, ev, intercept, matches);
    if r.Success? {
      var t := r.value.state;
      forall i | 0 <= i < |t.tasks|
        ensures env.resolve(t.tasks[i].stash) == Some(t.tasks[i].creator)
      {
        if i < |s.tasks| {
          assert t.tasks[i] == s.tasks[i];
        }
      }
    }
  }

  /** One event or task run keeps the invariant. Only a task run can throw
      the not-in-workspace error, and a touch event throws the reentrancy
      error only when the resolver it consults calls back into the arbiter. */
  lemma StepKeepsConsistent(env: Env, s: Arbiter, i: Input)
    requires Consistent(env, s)
    ensures Step(env, s, i).Success? ==> Consistent(env, Step(env, s, i).value)
    ensures Step(env, s, i).Failure? ==>
              || (i.RunTask? && Step(env, s, i).error == DragGroupNotInWorkspace)
              || (i.Touch? && Step(env, s, i).error == Reentrant
                  && var c := Consulted(env, s, i.mode, i.ev, i.intercept);
                  c.Some? && env.reenters(c.value))
  {
    match i
    case Touch(mode, ev, intercept) =>
      OnTouchConsultsResolver(env, s, mode, ev, intercept);
      var matches := s.pending.Some? && env.isMatch(s.pending.value, ev);
      var s1 := s.(inTouch := true, pending := DiscardStale(env, s.pending, ev));
      DispatchKeepsConsistent(env, s1, mode, ev, intercept, matches);
    case RunTask(encodeOk) =>
  }

  /** Every run from a consistent state stays consistent. With a handler
      that never calls back into the arbiter, the only exception a run can
      meet is a drag group outside the workspace view. */
  lemma {:induction false} RunKeepsConsistent(env: Env, s: Arbiter, inputs: seq<Input>)
    requires Consistent(env, s)
    ensures Run(env, s, inputs).Success? ==> Consistent(env, Run(env, s, inputs).value)
    ensures NeverReenters(env) && Run(env, s, inputs).Failure? ==>
              Run(env, s, inputs).error == DragGroupNotInWorkspace
    decreases |inputs|
  {
    if inputs != [] {
      StepKeepsConsistent(env, s, inputs[0]);
      match Step(env, s, inputs[0])
      case Success(s1) => RunKeepsConsistent(env, s1, inputs[1..]);
      case Failure(e) =>
    }
  }
}
