/** The touch-gesture arbiter of `BlockViewDragUtils`: it classifies each
    pointer event against the current pending drag, posts drag-group creation
    to a FIFO of deferred tasks, and guards against reentrant calls. */
module Gesture {
  import opened Wrappers
  import opened Geometry
  import opened JavaInt
  import opened Connections

  /** `DRAG_MODE_IMMEDIATE` or `DRAG_MODE_SLOPPY`. */
  datatype DragMode = Immediate | Sloppy

  /** The masked action of a `MotionEvent`. */
  datatype Action = Down | Move | Up | Cancel | OtherAction

  /** A pointer event as the arbiter sees it: its action, the pointer id and
      the block view it was delivered to, its screen location, and its
      `getDownTime()` and `getEventTime()` in milliseconds of uptime. */
  datatype MotionEvent = MotionEvent(action: Action, pointer: int, view: nat, screen: Point,
                                     downTime: int, eventTime: int)

  /** The part of a `PendingDrag` the arbiter reads or writes: the initiating
      pointer and view, the touch-down screen location, and whether a drag
      group has been assigned (`isDragging()`). */
  datatype PendingDrag = PendingDrag(pointer: int, view: nat, downScreen: Point, dragging: bool)

  /** The runnable a `GestureHandler` hands out: whether running it starts the
      drag, and whether the drag group it builds is a child of the workspace
      view. */
  datatype Creator = Creator(startsDrag: bool, inWorkspace: bool)

  /** The runnable `maybeStartDrag` posts, with the pending drag it stashed. */
  datatype Task = StartDragTask(stash: PendingDrag, creator: Creator)

  /** Collaborators the arbiter consults but whose code is not modelled.
      `PendingDrag` is a mutable object, so its verdicts `isMatchAndProcessed`,
      `isAlive` and `isClick` are those it gives while the given event is being
      processed. `resolve` is the handler's `maybeGetDragGroupCreator`;
      `reenters` says whether, asked about a record, it calls back into
      `onTouchBlockImpl` (by manipulating the view hierarchy) before it
      returns. `touchSlop` and `tapTimeout` are the platform's touch slop in
      pixels and tap timeout in milliseconds. `tapAsWritten` selects the
      reading of the tap-timeout test: the comparison the source makes, or
      the one it evidently intends. */
  datatype Env = Env(isMatch: (PendingDrag, MotionEvent) -> bool,
                     isAlive: (PendingDrag, MotionEvent) -> bool,
                     isClick: (PendingDrag, MotionEvent) -> bool,
                     resolve: PendingDrag -> Option<Creator>,
                     reenters: PendingDrag -> bool,
                     touchSlop: int,
                     tapTimeout: int,
                     tapAsWritten: bool)

  /** The arbiter's state: the reentrancy flag, the pending drag, the queue of
      posted tasks, the log of click callbacks, the log of drags handed to the
      platform (`startDrag`), and its own list of dragged connections. */
  datatype Arbiter = Arbiter(inTouch: bool, pending: Option<PendingDrag>, tasks: seq<Task>,
                             clicks: seq<PendingDrag>, platformDrags: seq<PendingDrag>,
                             dragged: seq<ConnId>)

  /** The state after a touch event and whether the event was handled. */
  datatype Touched = Touched(state: Arbiter, handled: bool)

  /** The `IllegalStateException`s the arbiter throws. */
  datatype Fault = Reentrant | DragGroupNotInWorkspace

  const Initial: Arbiter := Arbiter(false, None, [], [], [], [])

  /** The record a touch-down creates: not yet dragging, remembering the
      pointer, the view and the touch-down screen location. */
  function NewPendingDrag(ev: MotionEvent): (pd: PendingDrag)
    ensures !pd.dragging && pd.downScreen == ev.screen
    ensures pd.pointer == ev.pointer && pd.view == ev.view
  {
    PendingDrag(ev.pointer, ev.view, ev.screen, false)
  }

  /** `mTouchSlopSquared`: never negative, and zero only for a zero slop. */
  function SlopSquared(touchSlop: int): (r: int)
    ensures r >= 0
    ensures r == 0 <==> touchSlop == 0
  {
    touchSlop * touchSlop
  }

  /** Java's `deltaX * deltaX + deltaY * deltaY` on `int`s. */
  function SquaredDistance(dx: int, dy: int): int {
    Wrap(Wrap(dx * dx) + Wrap(dy * dy))
  }

  /** The slop comparison on the two deltas. */
  predicate BeyondSlop(dx: int, dy: int, slopSquared: int) {
    SquaredDistance(dx, dy) > slopSquared
  }

  /** `isBeyondSlopThreshold`: the touch-down location minus the current
      location, per axis, as Java `int`s, compared with the squared slop. */
  predicate IsBeyondSlopThreshold(env: Env, pd: PendingDrag, ev: MotionEvent)
    ensures ev.screen == pd.downScreen ==> !IsBeyondSlopThreshold(env, pd, ev)
  {
    BeyondSlop(Wrap(pd.downScreen.x - ev.screen.x), Wrap(pd.downScreen.y - ev.screen.y),
               SlopSquared(env.touchSlop))
  }

  /** The pending drag after the staleness check at the top of
      `onTouchBlockImpl`: a record the event does not match and that is no
      longer alive belongs to an earlier gesture and is dropped. */
  function DiscardStale(env: Env, pending: Option<PendingDrag>, ev: MotionEvent): (r: Option<PendingDrag>)
    ensures r.None? <==> pending.None? || (!env.isMatch(pending.value, ev) && !env.isAlive(pending.value, ev))
    ensures r.Some? ==> r == pending
  {
    if pending.Some? && !env.isMatch(pending.value, ev) && !env.isAlive(pending.value, ev) then None
    else pending
  }

  /** The tap-timeout test of the drag-gesture check as the source writes
      it: the event's `getDownTime()`, an absolute uptime, compared with the
      `TAP_TIMEOUT` duration. */
  predicate PastTapTimeoutAsWritten(env: Env, ev: MotionEvent) {
    ev.downTime > env.tapTimeout
  }

  /** The tap-timeout test as intended: the pointer has been down for longer
      than `TAP_TIMEOUT` when the event happens. */
  predicate HeldPastTapTimeout(env: Env, ev: MotionEvent) {
    ev.eventTime - ev.downTime > env.tapTimeout
  }

  /** The tap-timeout test under the reading the environment selects. */
  predicate PastTapTimeout(env: Env, ev: MotionEvent) {
    if env.tapAsWritten then PastTapTimeoutAsWritten(env, ev) else HeldPastTapTimeout(env, ev)
  }

  /** Whether a move of a gesture that is not yet dragging qualifies as a
      drag: a direct move in immediate mode once the tap timeout has passed,
      or any move beyond the touch slop. An intercepted or sloppy move
      qualifies only beyond the slop, and a move back at the touch-down
      point only by the tap timeout. */
  predicate IsDragGesture(env: Env, mode: DragMode, pd: PendingDrag, ev: MotionEvent, intercept: bool)
    ensures IsDragGesture(env, mode, pd, ev, intercept) && (intercept || mode == Sloppy) ==>
              IsBeyondSlopThreshold(env, pd, ev)
    ensures IsDragGesture(env, mode, pd, ev, intercept) && ev.screen == pd.downScreen ==>
              !intercept && mode == Immediate && PastTapTimeout(env, ev)
  {
    (!intercept && mode == Immediate && PastTapTimeout(env, ev)) || IsBeyondSlopThreshold(env, pd, ev)
  }

  /** The guard at the top of `onTouchBlockImpl`: a call made while another
      is in progress throws before anything is processed; otherwise the guard
      goes up. */
  function Enter(s: Arbiter): (r: Result<Arbiter, Fault>)
    ensures r.Failure? <==> s.inTouch
    ensures r.Failure? ==> r.error == Reentrant
    ensures r.Success? ==> r.value.inTouch && r.value == s.(inTouch := true)
  {
    if s.inTouch then Failure(Reentrant) else Success(s.(inTouch := true))
  }

  /** `maybeStartDrag`, which runs only inside `onTouchBlockImpl`: ask the
      resolver for a drag-group creator and, if there is one, post it together
      with the current pending drag. Nothing else changes now; the work
      happens when the task runs. A resolver that calls back into
      `onTouchBlockImpl` meets the raised guard, and the exception ends the
      outer call too. */
  function MaybeStartDrag(env: Env, s: Arbiter, pd: PendingDrag): (r: Result<Touched, Fault>)
    requires s.inTouch
    ensures r.Failure? <==> env.reenters(pd)
    ensures r.Failure? ==> r.error == Reentrant
    ensures r.Success? ==> (r.value.handled <==> env.resolve(pd).Some?)
    ensures r.Success? ==> r.value.state.pending == s.pending && r.value.state.clicks == s.clicks
    ensures r.Success? ==> r.value.state.platformDrags == s.platformDrags && r.value.state.dragged == s.dragged
    ensures r.Success? ==> r.value.state.inTouch == s.inTouch
    ensures r.Success? && r.value.handled ==>
              r.value.state.tasks == s.tasks + [StartDragTask(pd, env.resolve(pd).value)]
    ensures r.Success? && !r.value.handled ==> r.value.state.tasks == s.tasks
  {
    if env.reenters(pd) then
      var nested := Enter(s);
      Failure(nested.error)
    else
      match env.resolve(pd)
      case Some(creator) => Success(Touched(s.(tasks := s.tasks + [StartDragTask(pd, creator)]), true))
      case None => Success(Touched(s, false))
  }

  /** The action dispatch of `onTouchBlockImpl`, after the guard and the
      staleness check; `matches` is what `isMatchAndProcessed` said about the
      record the call started with. */
  function Dispatch(env: Env, s: Arbiter, mode: DragMode, ev: MotionEvent, intercept: bool,
                    matches: bool): (r: Result<Touched, Fault>)
    requires s.inTouch
    requires matches ==> s.pending.Some?
    ensures r.Failure? ==> r.error == Reentrant && ev.action in {Down, Move}
    ensures r.Success? ==> r.value.state.inTouch == s.inTouch && r.value.state.platformDrags == s.platformDrags
    ensures r.Success? ==> r.value.state.dragged == s.dragged
    ensures r.Success? ==>
              r.value.state.tasks == s.tasks
              || (|r.value.state.tasks| == |s.tasks| + 1 && r.value.state.tasks[..|s.tasks|] == s.tasks)
    ensures r.Success? ==>
              r.value.state.clicks == s.clicks
              || (ev.action in {Up, Cancel} && !intercept && s.pending.Some?
                  && r.value.state.clicks == s.clicks + [s.pending.value])
    ensures r.Success? && r.value.state.pending != s.pending ==> ev.action in {Down, Up, Cancel}
  {
    match ev.action
    case Down =>
      if s.pending.None? then
        var pd := NewPendingDrag(ev);
        var s1 := s.(pending := Some(pd));
        if intercept then Success(Touched(s1, false))
        else if mode == Immediate then MaybeStartDrag(env, s1, pd)
        else Success(Touched(s1, true))
      else if matches && !intercept then
        if mode == Immediate then MaybeStartDrag(env, s, s.pending.value) else Success(Touched(s, true))
      else Success(Touched(s, false))
    case Move =>
      if !matches then Success(Touched(s, false))
      else
        var pd := s.pending.value;
        if pd.dragging then Success(Touched(s, false))
        else if IsDragGesture(env, mode, pd, ev, intercept) then
          match MaybeStartDrag(env, s, pd)
          case Success(t) => Success(Touched(t.state, t.handled || !intercept))
          case Failure(e) => Failure(e)
        else Success(Touched(s, !intercept))
    case Up | Cancel =>
      if !matches then Success(Touched(s, false))
      else
        var pd := s.pending.value;
        if pd.dragging then Success(Touched(s, !intercept))
        else
          var clicks := if !intercept && env.isClick(pd, ev) then s.clicks + [pd] else s.clicks;
          Success(Touched(s.(pending := None, clicks := clicks), !intercept))
    case OtherAction => Success(Touched(s, false))
  }

  /** `onTouchBlockImpl`. A call made while another is in progress throws
      before anything is processed, and so does a call whose resolver calls
      back into it; every call that returns normally leaves the guard down
      again. */
  function OnTouch(env: Env, s: Arbiter, mode: DragMode, ev: MotionEvent, intercept: bool)
    : (r: Result<Touched, Fault>)
    ensures s.inTouch ==> r.Failure?
    ensures r.Failure? ==> r.error == Reentrant
    ensures r.Success? ==> !r.value.state.inTouch
    ensures r.Success? ==> r.value.state.platformDrags == s.platformDrags
    ensures r.Success? ==> r.value.state.dragged == s.dragged
  {
    match Enter(s)
    case Failure(e) => Failure(e)
    case Success(s1) =>
      var matches := s.pending.Some? && env.isMatch(s.pending.value, ev);
      var pending := DiscardStale(env, s.pending, ev);
      match Dispatch(env, s1.(pending := pending), mode, ev, intercept, matches)
      case Success(t) => Success(t.(state := t.state.(inTouch := false)))
      case Failure(e) => Failure(e)
  }

  /** Run the oldest posted drag-start task. It does nothing if the current
      pending drag is already dragging; otherwise it runs the creator on the
      stashed record and either hands the drag to the platform, or clears the
      pending drag when no drag started or the drag data could not be encoded
      (`encodeOk` is false). A drag group outside the workspace view throws. */
  function RunNextTask(s: Arbiter, encodeOk: bool): (r: Result<Arbiter, Fault>)
    ensures s.tasks == [] ==> r == Success(s)
    ensures r.Failure? ==> r.error == DragGroupNotInWorkspace
    ensures r.Success? && s.tasks != [] ==> r.value.tasks == s.tasks[1..]
    ensures r.Success? ==> r.value.inTouch == s.inTouch && r.value.clicks == s.clicks
    ensures r.Success? ==> r.value.dragged == s.dragged
    ensures r.Success? && s.tasks != [] ==> r.value.pending.None? || r.value.pending.value.dragging
    ensures r.Success? ==>
              (r.value.platformDrags == s.platformDrags
               || (r.value.pending.Some? && r.value.platformDrags == s.platformDrags + [r.value.pending.value]))
  {
    if s.tasks == [] then Success(s)
    else
      var t := s.tasks[0];
      var s0 := s.(tasks := s.tasks[1..]);
      if s0.pending.Some? && s0.pending.value.dragging then Success(s0)
      else
        var pd := if t.creator.startsDrag then t.stash.(dragging := true) else t.stash;
        if !pd.dragging then Success(s0.(pending := None))
        else if !t.creator.inWorkspace then Failure(DragGroupNotInWorkspace)
        else if encodeOk then Success(s0.(pending := Some(pd), platformDrags := s0.platformDrags + [pd]))
        else Success(s0.(pending := None))
  }

  /** `removeFromDraggingConnections`: without a pending drag nothing
      happens; otherwise each connection of the subtree (`rootConns`, as
      `getAllConnectionsRecursive` lists them) loses one occurrence in the
      dragged list and its drag mode is cleared. */
  method RemoveFromDraggingConnections(s: Arbiter, pool: Pool, rootConns: seq<ConnId>)
    returns (s': Arbiter, pool': Pool)
    ensures s.pending.None? ==> s' == s && pool' == pool
    ensures s.pending.Some? ==> multiset(s'.dragged) == multiset(s.dragged) - multiset(rootConns)
    ensures s.pending.Some? ==> pool'.dragMode == pool.dragMode - Elems(rootConns)
    ensures pool'.index == pool.index && pool'.position == pool.position
    ensures s' == s.(dragged := s'.dragged)
    ensures s.dragged == [] ==> s' == s
  {
    if s.pending.None? {
      return s, pool;
    }
    var dragged, dragMode := RemoveEach(s.dragged, pool.dragMode, rootConns);
    if s.dragged == [] {
      assert |dragged| == |multiset(dragged)| == 0;
    }
    s' := s.(dragged := dragged);
    pool' := pool.(dragMode := dragMode);
  }

  /** The loop of `removeFromDraggingConnections`: for each connection, in
      order, remove its first occurrence from the list and clear its drag
      mode. */
  method RemoveEach(dragged0: seq<ConnId>, dragMode0: set<ConnId>, conns: seq<ConnId>)
    returns (dragged: seq<ConnId>, dragMode: set<ConnId>)
    ensures multiset(dragged) == multiset(dragged0) - multiset(conns)
    ensures dragMode == dragMode0 - Elems(conns)
  {
    dragged, dragMode := dragged0, dragMode0;
    // The connections handled so far.
    ghost var removed: multiset<ConnId> := multiset{};
    var i := 0;
    while i < |conns|
      invariant 0 <= i <= |conns|
      invariant removed == multiset(conns[..i])
      invariant multiset(dragged) == multiset(dragged0) - removed
      invariant forall c :: c in dragMode <==> c in dragMode0 && c !in removed
    {
      var conn := conns[i];
      assert removed + multiset{conn} == multiset(conns[..i + 1]) by {
        assert conns[..i + 1] == conns[..i] + [conn];
      }
      RemoveStep(dragged, multiset(dragged0), removed, conn);
      dragged := RemoveFirst(dragged, conn);
      dragMode := dragMode - {conn};
      removed := removed + multiset{conn};
      i := i + 1;
    }
    assert conns[..i] == conns;
    assert dragMode == dragMode0 - Elems(conns);
  }

  /** Removing one more connection keeps the list equal to the original
      minus everything removed so far. */
  lemma RemoveStep(d: seq<ConnId>, original: multiset<ConnId>, removed: multiset<ConnId>, c: ConnId)
    requires multiset(d) == original - removed
    ensures multiset(RemoveFirst(d, c)) == original - (removed + multiset{c})
  {
  }
}
