# Block dragging in Blockly for Android, modelled in Dafny

This project models the two small state machines that drive block dragging
in Blockly's Android editor:

- **The touch-gesture arbiter** (`BlockViewDragUtils.onTouchBlockImpl` and its
  helpers), module `Gesture`. It classifies every pointer event (down, move,
  up, cancel) against the current pending drag. Events may arrive directly or
  by interception, and the mode may be immediate or sloppy. Each event
  creates a pending drag, posts a drag start, fires a click, discards a stale
  record, or is ignored. Drag-group creation is always deferred: the posted
  runnables are an explicit FIFO of tasks (`Arbiter.tasks`), run one at a
  time by `RunNextTask`. The arbiter refuses reentrant calls. Its slop test
  uses Java's 32-bit `int` arithmetic, written out in module `JavaInt`.
- **The workspace drag session** (`WorkspaceView.OnDragListener` and its
  private helpers), module `DragSession`:
  - On start, it takes the dragged subtree's connections out of the
    connection index and sets their drag mode.
  - While the drag goes on, it moves the root by the workspace delta and keeps
    at most one candidate connection highlighted.
  - On drop, it makes exactly one connect-or-bump call.
  - On finish, it puts every dragged connection back.
- **The blocks bounding box** computed by `WorkspaceView.onMeasure`, module
  `Bounds`.

Everything is a pure function over immutable datatypes, except for three
methods: `Gesture.RemoveFromDraggingConnections`, its loop
`Gesture.RemoveEach`, and the loop of `onMeasure`,
`Bounds.MeasureBoundingBox`. The two connection loops of `WorkspaceView`,
in `removeDraggedConnections` and `finishDragging`, are the recursive
functions `Connections.Detach` and `Connections.Reattach`. The
modules `GestureFacts` and `DragSessionFacts` hold lemmas relating several
calls:
- what each kind of event does;
- the round trip of the connection index across a whole drag;
- invariants kept by every sequence of events.

`Scenarios` walks through one concrete gesture and one concrete drag.

Collaborators whose code is not part of this model are parameters (records
of total functions):
- `PendingDrag.isMatchAndProcessed`, `isAlive` and `isClick`. A
  `PendingDrag` is a mutable object, so each verdict is the one it gives
  while a given event is processed, and may change from one event to the
  next;
- the gesture handler's `maybeGetDragGroupCreator`, together with whether it
  calls back into `onTouchBlockImpl` before returning (the nested call the
  reentrancy guard exists for);
- the platform's touch slop and tap timeout;
- `Env.tapAsWritten`, which selects the reading of the tap-timeout test: the
  comparison as the source writes it, or the one evidently intended (see
  "## Findings"). Every lemma about the arbiter that does not name a reading
  holds under both;
- `ConnectionManager.findBestConnection`;
- the `WorkspaceHelper` coordinate transforms;
- the owning view of a connection.

Whether a drag event carries block data is a field of the event, and so are
its result and the pending drag the clip helper recovers from it. Whether
building the drag clip data succeeds is an input to `RunNextTask`.

Behaviour of the code worth noting:
- A drag that ends without a successful result falls through to the drop
  handling, so it does call connect or bump. It does not only clean up.
- A drag that ends with a successful result does no cleanup at all. The
  lemma `DragSessionFacts.SuccessfulEndThenRestartKeepsConnectionsOut` shows
  the consequence. If another drag then starts, the earlier subtree's
  connections stay out of the index and in drag mode, and no later finish puts
  them back. The source marks this spot with a TODO.
- A direct move in immediate mode also needs the tap-timeout comparison
  before it counts as a drag gesture. That comparison is written against the
  wrong quantity; see "## Findings". As written, practically every direct
  immediate move of a pending gesture consults the resolver.
- `onMeasure` computes the child rectangles with Java `int` arithmetic. A
  right edge that overflows wraps below the left edge, so `Rect.union`
  ignores that child.
- A resolver that calls back into `onTouchBlockImpl` meets the raised guard,
  and the exception ends the outer call as well. The guard is lowered only
  on the normal return path.
- `BlockViewDragUtils` keeps its own list of dragged connections, but nothing
  ever adds to it: it is only removed from and cleared. So
  `removeFromDraggingConnections` removes nothing from any list. It only
  clears drag mode. The list that `finishDragging` re-adds belongs to
  `WorkspaceView` and is left untouched. `GestureFacts.Consistent` records
  that the arbiter's list stays empty.
- A release counts as a click when `isClick` says so and the event is direct.
  This is not decided by distance.
- `DRAG_STARTED` records the pending drag even when the root is not movable.

## Model

| member | source | states |
|---|---|---|
| `JavaInt.Wrap` | blocklylib-core/src/main/java/com/google/blockly/android/ui/BlockViewDragUtils.java:348-352 | the Java `int` a mathematical value wraps to: in range, congruent mod 2^32, identity on representable values |
| `Gesture.OnTouch` | blocklylib-core/src/main/java/com/google/blockly/android/ui/BlockViewDragUtils.java:232-328 | throws the reentrancy error whenever the guard is already up, and throws nothing else; every normal return leaves the guard down and the platform-drag log and dragged list unchanged |
| `Gesture.Enter` | blocklylib-core/src/main/java/com/google/blockly/android/ui/BlockViewDragUtils.java:234-239 | the guard check: throws the reentrancy error iff a call is in progress, otherwise raises the guard and changes nothing else |
| `Gesture.NewPendingDrag` | blocklylib-core/src/main/java/com/google/blockly/android/ui/BlockViewDragUtils.java:265 | a new pending drag is not dragging and remembers the event's pointer, view and touch-down screen location |
| `Gesture.SlopSquared` | blocklylib-core/src/main/java/com/google/blockly/android/ui/BlockViewDragUtils.java:123-124 | the squared slop is never negative and is zero only for a zero slop |
| `Gesture.IsBeyondSlopThreshold` | blocklylib-core/src/main/java/com/google/blockly/android/ui/BlockViewDragUtils.java:338-353 | a move back at the touch-down location is never beyond the slop (see `GestureFacts.SlopIsStrictSquaredDistance` for the exact comparison) |
| `Gesture.IsDragGesture` | blocklylib-core/src/main/java/com/google/blockly/android/ui/BlockViewDragUtils.java:297-300 | an intercepted or sloppy move qualifies only beyond the slop; a move at the touch-down point qualifies only when direct, immediate and past the tap-timeout test of the selected reading |
| `Gesture.DiscardStale` | blocklylib-core/src/main/java/com/google/blockly/android/ui/BlockViewDragUtils.java:243-249 | the record is dropped iff it exists, the event does not match it, and it is no longer alive; otherwise it is kept as it was |
| `Gesture.Dispatch` | blocklylib-core/src/main/java/com/google/blockly/android/ui/BlockViewDragUtils.java:262-323 | per event, at most one task is appended, at most one click is logged and only for a direct up or cancel of the pending record, the pending drag changes only on down, up or cancel, and only a down or move can throw, with the reentrancy error; under either reading of the tap-timeout test |
| `Gesture.MaybeStartDrag` | blocklylib-core/src/main/java/com/google/blockly/android/ui/BlockViewDragUtils.java:363-368 | throws iff the resolver calls back into the arbiter; otherwise returns true iff the resolver supplies a creator, then queues exactly one task with the stashed record and that creator, and changes nothing else synchronously |
| `Gesture.RunNextTask` | blocklylib-core/src/main/java/com/google/blockly/android/ui/BlockViewDragUtils.java:369-409 | pops the oldest task; afterwards the pending drag is absent or dragging; the platform receives at most one new drag, which is the new pending drag; the only exception is a drag group outside the workspace |
| `Gesture.RemoveFromDraggingConnections` | blocklylib-core/src/main/java/com/google/blockly/android/ui/BlockViewDragUtils.java:134-145 | without a pending drag nothing changes; otherwise the dragged list loses one occurrence per subtree connection (multiset difference) and their drag mode is cleared |
| `Gesture.RemoveEach` | blocklylib-core/src/main/java/com/google/blockly/android/ui/BlockViewDragUtils.java:140-144 | the loop removes one occurrence of each listed connection from the dragged list (multiset difference) and clears the drag mode of each |
| `GestureFacts.SlopIsStrictSquaredDistance` | blocklylib-core/src/main/java/com/google/blockly/android/ui/BlockViewDragUtils.java:338-353 | on 15-bit screen coordinates the Java test is exactly dx²+dy² > slop², a strict comparison |
| `GestureFacts.SquaredDistanceExact` | blocklylib-core/src/main/java/com/google/blockly/android/ui/BlockViewDragUtils.java:348-352 | for deltas of at most 32767 pixels the wrapped int arithmetic equals the mathematical squared distance |
| `GestureFacts.SlopIgnoresSigns` | blocklylib-core/src/main/java/com/google/blockly/android/ui/BlockViewDragUtils.java:348-352 | negating either delta, even MIN_INT, or swapping them never changes the slop decision |
| `GestureFacts.SlopBoundary` | blocklylib-core/src/main/java/com/google/blockly/android/ui/BlockViewDragUtils.java:352 | a move of exactly the slop does not qualify; one pixel more does |
| `GestureFacts.TapTimeoutAsWrittenIgnoresHold` | blocklylib-core/src/main/java/com/google/blockly/android/ui/BlockViewDragUtils.java:299 | as written, the tap-timeout verdict does not depend on the event time at all |
| `GestureFacts.TapTimeoutAsWrittenAcceptsEarlyMove` | blocklylib-core/src/main/java/com/google/blockly/android/ui/BlockViewDragUtils.java:299 | as written, a move 1 ms after a touch-down made an hour after boot passes the tap-timeout test though it is within the timeout |
| `GestureFacts.EarlyMoveNeedsSlop` | blocklylib-core/src/main/java/com/google/blockly/android/ui/BlockViewDragUtils.java:297-300 | under the intended reading of the tap-timeout test, a move within the tap timeout of its touch-down is a drag gesture iff it is beyond the slop, and a direct immediate move after it always is |
| `GestureFacts.AsWrittenEveryImmediateMoveConsults` | blocklylib-core/src/main/java/com/google/blockly/android/ui/BlockViewDragUtils.java:294-303 | under the reading as written, once the touch-down time exceeds the timeout, every direct immediate move of a pending gesture not yet dragging consults the resolver, however soon and however close: it throws iff the resolver calls back, is otherwise handled, and posts a drag start iff the resolver supplies a creator |
| `GestureFacts.IntendedEarlyMoveInsideSlopPostsNothing` | blocklylib-core/src/main/java/com/google/blockly/android/ui/BlockViewDragUtils.java:294-303 | under the intended reading, a move within the tap timeout and within the slop consults nobody, changes nothing and is handled iff direct |
| `GestureFacts.DownWithoutPendingCreatesOne` | blocklylib-core/src/main/java/com/google/blockly/android/ui/BlockViewDragUtils.java:263-277 | down with no live pending drag creates one; intercepted returns false, direct sloppy true; direct immediate throws iff the resolver calls back, and otherwise returns true iff the resolver supplies a creator, posting exactly that drag start |
| `GestureFacts.DownOfAnotherGestureIgnored` | blocklylib-core/src/main/java/com/google/blockly/android/ui/BlockViewDragUtils.java:278-288 | down against a live pending drag that it does not match, or that is intercepted, returns false and changes no state |
| `GestureFacts.StaleRecordDropped` | blocklylib-core/src/main/java/com/google/blockly/android/ui/BlockViewDragUtils.java:244-249 | any other event that does not match a record which is no longer alive when that event arrives drops the record and returns false |
| `GestureFacts.MoveWhileDraggingIgnored` | blocklylib-core/src/main/java/com/google/blockly/android/ui/BlockViewDragUtils.java:291-293 | a matching move during a drag returns false and starts nothing |
| `GestureFacts.MoveBeforeDrag` | blocklylib-core/src/main/java/com/google/blockly/android/ui/BlockViewDragUtils.java:294-303 | a matching move before a drag throws iff it qualifies as a drag gesture and the resolver calls back; otherwise it returns isNewDrag or direct, and posts a start only when the gesture qualifies and the resolver supplies a creator; this holds under both readings of the tap-timeout test |
| `GestureFacts.ReleaseBeforeDrag` | blocklylib-core/src/main/java/com/google/blockly/android/ui/BlockViewDragUtils.java:306-317 | a matching up or cancel before a drag clears the pending drag, clicks iff direct and isClick hold, and returns not-intercepted |
| `GestureFacts.OnTouchConsultsResolver` | blocklylib-core/src/main/java/com/google/blockly/android/ui/BlockViewDragUtils.java:263-303 | a touch call throws iff the guard is up or the resolver it consults (for a direct immediate touch-down, or a qualifying move) calls back; on return, the only task posted is the consulted record with the resolver's creator; under both readings of the tap-timeout test |
| `GestureFacts.TaskIgnoredWhileDragging` | blocklylib-core/src/main/java/com/google/blockly/android/ui/BlockViewDragUtils.java:372-374 | a task that finds the current pending drag dragging is dropped with no effect |
| `GestureFacts.TaskWithoutDragClears` | blocklylib-core/src/main/java/com/google/blockly/android/ui/BlockViewDragUtils.java:376-378 | a creator that starts no drag leaves no pending drag |
| `GestureFacts.TaskEncodingFailureClears` | blocklylib-core/src/main/java/com/google/blockly/android/ui/BlockViewDragUtils.java:387-404 | a started drag whose clip data cannot be built clears the pending drag and reaches no platform drag |
| `GestureFacts.TaskStartsPlatformDrag` | blocklylib-core/src/main/java/com/google/blockly/android/ui/BlockViewDragUtils.java:376-400 | a started, encodable drag becomes the pending drag and is handed to the platform exactly once |
| `GestureFacts.InitialConsistent` | blocklylib-core/src/main/java/com/google/blockly/android/ui/BlockViewDragUtils.java:91-93 | the initial arbiter (guard down, no pending drag) satisfies the between-events invariant |
| `GestureFacts.StepKeepsConsistent` | blocklylib-core/src/main/java/com/google/blockly/android/ui/BlockViewDragUtils.java:232-413 | one event or task run keeps the invariant (guard down, every queued task holds the resolver's creator, only dragging records reach the platform, the arbiter's dragged list empty); a task run throws only the not-in-workspace error, and a touch event throws only the reentrancy error, and only when the resolver it consults calls back; under both readings of the tap-timeout test |
| `GestureFacts.DispatchKeepsConsistent` | blocklylib-core/src/main/java/com/google/blockly/android/ui/BlockViewDragUtils.java:262-323 | the dispatch keeps every queued task faithful to the resolver and the rest of the invariant |
| `GestureFacts.RunKeepsConsistent` | blocklylib-core/src/main/java/com/google/blockly/android/ui/BlockViewDragUtils.java:232-239 | every sequence of events and task runs keeps the invariant; with a handler that never calls back, the reentrancy error never fires along it |
| `Connections.Detach` | blocklylib-core/src/main/java/com/google/blockly/android/ui/WorkspaceView.java:179-183 | the listed connections are removed from the index and put in drag mode; positions are untouched |
| `Connections.Reattach` | blocklylib-core/src/main/java/com/google/blockly/android/ui/WorkspaceView.java:268-274 | the listed connections are added back to the index at (0, 0) with drag mode cleared; other positions are unchanged |
| `Connections.RemoveFirst` | blocklylib-core/src/main/java/com/google/blockly/android/ui/BlockViewDragUtils.java:142 | removes exactly one occurrence when present (multiset difference), otherwise nothing |
| `DragSession.RemoveDraggedConnections` | blocklylib-core/src/main/java/com/google/blockly/android/ui/WorkspaceView.java:175-184 | the dragged list becomes exactly the subtree's connections; each is out of the index and in drag mode |
| `DragSession.UpdateBlockPosition` | blocklylib-core/src/main/java/com/google/blockly/android/ui/WorkspaceView.java:215-231 | the root's displacement from its original position equals the workspace displacement from the touch-down point; no other block moves |
| `DragSession.ClearHighlight` | blocklylib-core/src/main/java/com/google/blockly/android/ui/WorkspaceView.java:195-197 | clearing the remembered view leaves no highlighted connection |
| `DragSession.ContinueDragging` | blocklylib-core/src/main/java/com/google/blockly/android/ui/WorkspaceView.java:191-206 | after an update, at most one connection is highlighted: the best candidate's target if there is one, otherwise none |
| `DragSession.MaybeConnectDragGroup` | blocklylib-core/src/main/java/com/google/blockly/android/ui/WorkspaceView.java:240-253 | exactly one controller call is appended: connect to the candidate iff one exists, otherwise bump the root's neighbours |
| `DragSession.FinishDragging` | blocklylib-core/src/main/java/com/google/blockly/android/ui/WorkspaceView.java:260-288 | every dragged connection goes back into the index at (0, 0) with drag mode off; the dragged list, highlight and pending drag end up empty |
| `DragSession.DropDragGroup` | blocklylib-core/src/main/java/com/google/blockly/android/ui/WorkspaceView.java:340-346 | a drop is connect-or-bump followed by finish: one commit, and the dragged connections are back in the index |
| `DragSession.OnDrag` | blocklylib-core/src/main/java/com/google/blockly/android/ui/WorkspaceView.java:293-352 | non-block data is refused with no change; non-start events with no pending drag are ignored; the index never gains anything but dragged connections |
| `DragSessionFacts.DragStartedEffects` | blocklylib-core/src/main/java/com/google/blockly/android/ui/WorkspaceView.java:307-325 | a movable root makes the dragged list exactly its subtree's connections, removed from the index and in drag mode; an unmovable root returns false and changes only the pending drag |
| `DragSessionFacts.LocationMovesRoot` | blocklylib-core/src/main/java/com/google/blockly/android/ui/WorkspaceView.java:329-333 | a location update puts the root at original + (current − touch-down); a zero delta leaves it at its original position |
| `DragSessionFacts.DropConnectsOrBumps` | blocklylib-core/src/main/java/com/google/blockly/android/ui/WorkspaceView.java:340-346 | drop (or an unsuccessful end) makes exactly one of connect / bump, connect iff a candidate exists, then clears the session |
| `DragSessionFacts.SuccessfulEndChangesNothing` | blocklylib-core/src/main/java/com/google/blockly/android/ui/WorkspaceView.java:334-338 | DRAG_ENDED with a successful result changes nothing |
| `DragSessionFacts.FailedEndIsDrop` | blocklylib-core/src/main/java/com/google/blockly/android/ui/WorkspaceView.java:334-346 | DRAG_ENDED without success behaves exactly like DROP |
| `DragSessionFacts.FinishIdempotent` | blocklylib-core/src/main/java/com/google/blockly/android/ui/WorkspaceView.java:260-288 | a second finish adds nothing and changes nothing |
| `DragSessionFacts.StartFinishRoundTrip` | blocklylib-core/src/main/java/com/google/blockly/android/ui/WorkspaceView.java:268-274 | start then finish gives the index back with the subtree's connections added; it equals the index before iff they were all indexed |
| `DragSessionFacts.LocationsKeepSession` | blocklylib-core/src/main/java/com/google/blockly/android/ui/WorkspaceView.java:329-333 | any number of location updates leave the index, the dragged list, the pending drag and the commit log unchanged |
| `DragSessionFacts.DragCycleRestoresIndex` | blocklylib-core/src/main/java/com/google/blockly/android/ui/WorkspaceView.java:307-346 | start, any location updates, then drop restore the index exactly, with drag mode off, the session cleared and one commit made |
| `DragSessionFacts.AtMostOneHighlighted` | blocklylib-core/src/main/java/com/google/blockly/android/ui/WorkspaceView.java:194-203 | while the highlight is tracked, at most one connection is highlighted |
| `DragSessionFacts.EmptySessionInv` | blocklylib-core/src/main/java/com/google/blockly/android/ui/WorkspaceView.java:60-62 | a session with no pending drag, nothing dragged and nothing highlighted satisfies the drag-session invariant |
| `DragSessionFacts.OnDragKeepsInv` | blocklylib-core/src/main/java/com/google/blockly/android/ui/WorkspaceView.java:293-352 | every drag event keeps the invariant: highlight tracked, and each dragged connection out of the index and in drag mode |
| `DragSessionFacts.RunKeepsInv` | blocklylib-core/src/main/java/com/google/blockly/android/ui/WorkspaceView.java:291-353 | every sequence of drag events keeps the invariant, so at most one connection is highlighted at any point |
| `DragSessionFacts.SuccessfulEndThenRestartKeepsConnectionsOut` | blocklylib-core/src/main/java/com/google/blockly/android/ui/WorkspaceView.java:334-338 | after a successful end and a new start, the earlier subtree's connections stay out of the index and outside the dragged list |
| `Geometry.Union` | blocklylib-core/src/main/java/com/google/blockly/android/ui/WorkspaceView.java:104-106 | Rect.union: an empty argument is ignored, an empty receiver takes the argument, otherwise the result contains both and each of its edges is an edge of one of them, so it is the smallest such rectangle |
| `Bounds.ChildRect` | blocklylib-core/src/main/java/com/google/blockly/android/ui/WorkspaceView.java:99-106 | the computed edges are Java `int`s (32-bit wrap-around); a right edge that overflows makes the rectangle empty, so the union ignores that child |
| `Bounds.ChildRectSize` | blocklylib-core/src/main/java/com/google/blockly/android/ui/WorkspaceView.java:99-106 | when no edge overflows, a child's rectangle has its measured size and is anchored at the view delta of its position, on its right edge under RTL |
| `Bounds.MeasureBoundingBox` | blocklylib-core/src/main/java/com/google/blockly/android/ui/WorkspaceView.java:86-110 | the box is all zero when no child shows (no children, or every rectangle empty, overflowing ones included); otherwise it contains every showing child's rectangle and each edge is some child's edge |
| `Scenarios.SloppyMoveBeyondSlopStartsDrag` | blocklylib-core/src/main/java/com/google/blockly/android/ui/BlockViewDragUtils.java:291-303 | a sloppy down at (0, 0), a move to (50, 0) with slop 10, and one task run hand one drag to the platform |
| `Scenarios.SloppyMoveAtSlopPostsNothing` | blocklylib-core/src/main/java/com/google/blockly/android/ui/BlockViewDragUtils.java:297-302 | a move of exactly the slop posts nothing but is still claimed |
| `Scenarios.ImmediateEarlyMoveTwoReadings` | blocklylib-core/src/main/java/com/google/blockly/android/ui/BlockViewDragUtils.java:297-300 | after a direct immediate touch-down an hour after boot, a move 10 ms later at the same spot posts a second drag start as written and nothing under the intended reading |
| `Scenarios.NestedTouchThrows` | blocklylib-core/src/main/java/com/google/blockly/android/ui/BlockViewDragUtils.java:234-238 | a direct immediate touch-down whose resolver calls back into the arbiter throws the reentrancy error; with a well-behaved resolver it posts one drag start |
| `Scenarios.ScenarioStart` | blocklylib-core/src/main/java/com/google/blockly/android/ui/WorkspaceView.java:307-320 | starting a drag of a two-connection root leaves only the third connection indexed |
| `Scenarios.ScenarioDrop` | blocklylib-core/src/main/java/com/google/blockly/android/ui/WorkspaceView.java:240-288 | a drop with no candidate bumps, connects nothing, and re-indexes both connections |

## Left out

- Trash handling in `BlockViewDragUtils` (`touchingTrashView`, `dropInTrash`, `DragShadowBuilder`): screen rectangles, view measurement and platform calls; `dropInTrash` is not called in the modelled code.
- `PendingDrag`, `ConnectionManager`, `WorkspaceHelper`, `Block` and the clip data helpers are not part of this model. Their behaviour enters only as the uninterpreted functions and inputs described above.
- `getAllConnectionsRecursive` is the list stored in `DragSession.Block.connections`, or the argument of `RemoveFromDraggingConnections`. The block tree walk itself is not modelled.
- `Connections.Pool`: the connection index is a set, so duplicate insertions are not tracked. The spatial search and snap distance are inside the uninterpreted `findBest`.
- `DragSession.MaybeConnectDragGroup`: `connect` and `bumpNeighbors` are recorded in a call log. Their effect on the block tree is not modelled.
- `Gesture.IsBeyondSlopThreshold`: `mTouchSlopSquared` is a `float`. The squared distance and the squared slop are compared as exact integers, so float rounding above 2^24 is not modelled. Its own contract states only that a move back at the touch-down location is never beyond the slop; the exact comparison is proved in `GestureFacts.SlopIsStrictSquaredDistance`.
- `DragSession.UpdateBlockPosition`: workspace coordinates are unbounded integers. 32-bit overflow is not modelled, and the event's float coordinates arrive already cast to `int`.
- `Gesture.OnTouch` and `Gesture.RunNextTask`: after a thrown exception no state is returned, and a run stops there. The state the Java objects are left in is not modelled. In the source the guard stays raised after an exception thrown inside `onTouchBlockImpl`, so every later call would throw too.
- `Handler.post` is the task queue. Logging, `setPressed`, `requestLayout`, `startDrag` flags and the drag shadow are omitted. `startDrag` itself is recorded in `Arbiter.platformDrags`.
- `Gesture.HeldPastTapTimeout`: event times are unbounded integers, so `long` overflow of the subtraction is not modelled.
- `Gesture.MaybeStartDrag`: the nested call's exception is taken to propagate out of `maybeGetDragGroupCreator`. A handler that catches it is not modelled.
- `onLayout`, `setController` and the Fragment and view wiring are glue with no drag logic. The test of the trash drag listener exercises a class that is not part of this model.

## Findings

| source | as written | input that shows it | evidently intended | confidence | as-written member | corrected member |
|---|---|---|---|---|---|---|
| blocklylib-core/src/main/java/com/google/blockly/android/ui/BlockViewDragUtils.java:299 | `event.getDownTime() > TAP_TIMEOUT` compares the absolute uptime of the touch-down with a duration, so it holds on practically every device whatever the gesture | a direct immediate move 1 ms after a touch-down made 3,600,000 ms after boot, with `TAP_TIMEOUT` 100 ms: the test passes | the pointer has been down longer than the tap timeout: `event.getEventTime() - event.getDownTime() > TAP_TIMEOUT` | medium, not executed | `Gesture.PastTapTimeoutAsWritten`, used by `Gesture.IsDragGesture` when `Env.tapAsWritten` holds (`GestureFacts.TapTimeoutAsWrittenAcceptsEarlyMove`, `GestureFacts.TapTimeoutAsWrittenIgnoresHold`, `GestureFacts.AsWrittenEveryImmediateMoveConsults`) | `Gesture.HeldPastTapTimeout`, used by `Gesture.IsDragGesture` otherwise (`GestureFacts.EarlyMoveNeedsSlop`, `GestureFacts.IntendedEarlyMoveInsideSlopPostsNothing`) |
