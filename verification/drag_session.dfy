/** The drag listener of `WorkspaceView`: it takes the dragged subtree's
    connections out of the connection index when a drag starts, moves the
    dragged block and keeps one candidate connection highlighted while the
    drag goes on, connects or bumps on drop, and puts every connection back
    when the drag finishes. */
module DragSession {
  import opened Wrappers
  import opened Geometry
  import opened Connections

  /** A block as the session needs it: its id, whether it may be moved, and
      the connections of its whole subtree (`getAllConnectionsRecursive`). */
  datatype Block = Block(id: nat, movable: bool, connections: seq<ConnId>)

  /** The pending drag carried by the drag event: the root dragged block, the
      touch-down location in workspace coordinates, and the root's position
      before the drag. */
  datatype DragRecord = DragRecord(root: Block, touchDownWorkspace: Point, originalPosition: Point)

  /** The action of a platform `DragEvent`. */
  datatype DragAction = DragStarted | DragLocation | Drop | DragEnded | DragEntered | DragExited

  /** A drag event: its action, whether its clip data is block data, its
      location in view pixels, `getResult()`, and the pending drag the clip
      helper recovers from it. */
  datatype DragEvent = DragEvent(action: DragAction, isBlockData: bool, location: Point, result: bool,
                                 record: DragRecord)

  /** A best-connection pair: a connection of the dragged subtree and the
      connection it would snap to. */
  datatype Candidate = Candidate(source: ConnId, target: ConnId)

  /** A call into the controller on drop. */
  datatype Commit = Connect(source: ConnId, target: ConnId) | BumpNeighbors(block: nat)

  /** Collaborators whose code is not modelled: the view-to-workspace
      coordinate transform, `ConnectionManager.findBestConnection` (given the
      root block, the block positions and the indexed connections), and the
      block view owning a connection. */
  datatype Env = Env(toWorkspace: Point -> Point,
                     findBest: (Block, map<nat, Point>, set<ConnId>) -> Option<Candidate>,
                     viewOf: ConnId -> nat)

  /** The session state: the pending drag, the dragged connections, the
      block view last highlighted (`mHighlightedBlockView`), the connection
      each view currently highlights, the connection pool, the block positions
      and the log of connect / bump calls. */
  datatype Session = Session(pending: Option<DragRecord>, dragged: seq<ConnId>,
                             highlightView: Option<nat>, highlighted: map<nat, ConnId>,
                             pool: Pool, positions: map<nat, Point>, commits: seq<Commit>)

  /** The state after a drag event and the listener's return value. */
  datatype Reply = Reply(state: Session, accepted: bool)

  /** Views with a highlighted connection are at most the remembered one. */
  predicate HighlightTracked(s: Session) {
    s.highlighted.Keys <= (if s.highlightView.Some? then {s.highlightView.value} else {})
  }

  /** `removeDraggedConnectionsFromConnectionManager`: the dragged list
      becomes the subtree's connections, each out of the index and in drag
      mode. */
  function RemoveDraggedConnections(s: Session, root: Block): (r: Session)
    ensures r.dragged == root.connections
    ensures r.pool.index == s.pool.index - Elems(root.connections)
    ensures r.pool.dragMode == s.pool.dragMode + Elems(root.connections)
    ensures forall c :: c in r.dragged ==> c !in r.pool.index && c in r.pool.dragMode
    ensures r == s.(dragged := r.dragged, pool := r.pool)
  {
    s.(dragged := root.connections, pool := Detach(s.pool, root.connections))
  }

  /** `updateBlockPosition`: the root moves by the workspace distance from
      the touch-down point to the event's location, measured from where the
      root was before the drag. */
  function UpdateBlockPosition(env: Env, s: Session, ev: DragEvent): (r: Session)
    requires s.pending.Some?
    ensures r.positions.Keys == s.positions.Keys + {s.pending.value.root.id}
    ensures var d := s.pending.value;
            Sub(r.positions[d.root.id], d.originalPosition)
              == Sub(env.toWorkspace(ev.location), d.touchDownWorkspace)
    ensures forall b :: b in s.positions && b != s.pending.value.root.id ==> r.positions[b] == s.positions[b]
    ensures r == s.(positions := r.positions)
  {
    var d := s.pending.value;
    var delta := Sub(env.toWorkspace(ev.location), d.touchDownWorkspace);
    s.(positions := s.positions[d.root.id := Add(d.originalPosition, delta)])
  }

  /** `continueDragging`: move the block, clear the previous highlight, and
      highlight the target of the best candidate, if any. */
  function ContinueDragging(env: Env, s: Session, ev: DragEvent): (r: Session)
    requires s.pending.Some?
    requires HighlightTracked(s)
    ensures HighlightTracked(r)
    ensures |r.highlighted| <= 1
    ensures var c := env.findBest(s.pending.value.root, r.positions, s.pool.index);
            && (c.Some? ==> r.highlighted == map[env.viewOf(c.value.target) := c.value.target])
            && (c.None? ==> r.highlighted == map[])
    ensures r.positions == UpdateBlockPosition(env, s, ev).positions
    ensures r.pool == s.pool && r.dragged == s.dragged && r.pending == s.pending
    ensures r.commits == s.commits
  {
    var s1 := ClearHighlight(UpdateBlockPosition(env, s, ev));
    match env.findBest(s1.pending.value.root, s1.positions, s1.pool.index)
    case Some(c) =>
      var view := env.viewOf(c.target);
      s1.(highlightView := Some(view), highlighted := map[view := c.target])
    case None => s1
  }

  /** `setHighlightedConnection(null)` on the remembered view, which
      leaves no connection highlighted. */
  function ClearHighlight(s: Session): (r: Session)
    requires HighlightTracked(s)
    ensures r.highlighted == map[]
    ensures r == s.(highlighted := r.highlighted)
  {
    if s.highlightView.Some? then
      var rest := s.highlighted - {s.highlightView.value};
      assert rest.Keys == {};
      s.(highlighted := rest)
    else
      assert s.highlighted.Keys == {};
      s
  }

  /** `maybeConnectDragGroup`: exactly one controller call, a connect to
      the best candidate when there is one and a neighbour bump otherwise. */
  function MaybeConnectDragGroup(env: Env, s: Session): (r: Session)
    requires s.pending.Some?
    ensures |r.commits| == |s.commits| + 1 && r.commits[..|s.commits|] == s.commits
    ensures var c := env.findBest(s.pending.value.root, s.positions, s.pool.index);
            r.commits[|s.commits|] == (if c.Some? then Connect(c.value.source, c.value.target)
                                       else BumpNeighbors(s.pending.value.root.id))
    ensures r == s.(commits := r.commits)
  {
    var root := s.pending.value.root;
    var commit := match env.findBest(root, s.positions, s.pool.index)
                  case Some(c) => Connect(c.source, c.target)
                  case None => BumpNeighbors(root.id);
    s.(commits := s.commits + [commit])
  }

  /** `finishDragging`: every dragged connection goes back into the index
      at (0, 0) with drag mode off; then the dragged list, the highlight and
      the pending drag are cleared. */
  function FinishDragging(s: Session): (r: Session)
    ensures r.pool.index == s.pool.index + Elems(s.dragged)
    ensures r.pool.dragMode == s.pool.dragMode - Elems(s.dragged)
    ensures r.pool.position.Keys == s.pool.position.Keys + Elems(s.dragged)
    ensures forall c :: c in s.dragged ==> r.pool.position[c] == Origin
    ensures forall c :: c in s.pool.position && c !in s.dragged ==> r.pool.position[c] == s.pool.position[c]
    ensures r.dragged == [] && r.highlightView.None? && r.pending.None?
    ensures r.highlighted == (if s.highlightView.Some? then s.highlighted - {s.highlightView.value}
                              else s.highlighted)
    ensures r.positions == s.positions && r.commits == s.commits
  {
    var pool := Reattach(s.pool, s.dragged);
    var highlighted := if s.highlightView.Some? then s.highlighted - {s.highlightView.value}
                       else s.highlighted;
    s.(dragged := [], pool := pool, highlightView := None, highlighted := highlighted, pending := None)
  }

  /** Drop handling: connect or bump, then finish. */
  function DropDragGroup(env: Env, s: Session): (r: Session)
    requires s.pending.Some?
    ensures r.pool.index == s.pool.index + Elems(s.dragged)
    ensures |r.commits| == |s.commits| + 1
  {
    FinishDragging(MaybeConnectDragGroup(env, s))
  }

  /** `OnDragListener.onDrag`. */
  function OnDrag(env: Env, s: Session, ev: DragEvent): (r: Reply)
    requires HighlightTracked(s)
    ensures HighlightTracked(r.state)
    ensures !ev.isBlockData ==> r == Reply(s, false)
    ensures ev.action != DragStarted && s.pending.None? ==> r == Reply(s, false)
    ensures r.state.pool.index <= s.pool.index + Elems(s.dragged)
  {
    if !ev.isBlockData then Reply(s, false)
    else if ev.action == DragStarted then
      var root := ev.record.root;
      var s1 := s.(pending := Some(ev.record));
      if root.movable then Reply(RemoveDraggedConnections(s1, root), true)
      else Reply(s1, false)
    else if s.pending.None? then Reply(s, false)
    else
      match ev.action
      case DragLocation => Reply(ContinueDragging(env, s, ev), false)
      case DragEnded =>
        if ev.result then Reply(s, false) else Reply(DropDragGroup(env, s), true)
      case Drop => Reply(DropDragGroup(env, s), true)
      case _ => Reply(s, false)
  }
}
