/** Properties of the workspace drag session: what each drag event does,
    the one-commit rule on drop, the idempotent finish, the round trip of the
    connection index across a whole drag, and an invariant kept by every
    sequence of drag events. */
module DragSessionFacts {
  import opened Wrappers
  import opened Geometry
  import opened Connections
  import opened DragSession

  /** Starting a drag of a movable root takes exactly the subtree's
      connections out of the index, puts them in drag mode and makes them the
      dragged list; an unmovable root is declined with the index untouched
      (the pending drag is still recorded). */
  lemma DragStartedEffects(env: Env, s: Session, ev: DragEvent)
    requires HighlightTracked(s)
    requires ev.isBlockData && ev.action == DragStarted
    ensures var r := OnDrag(env, s, ev);
            var conns := ev.record.root.connections;
            && r.state.pending == Some(ev.record)
            && r.accepted == ev.record.root.movable
            && (ev.record.root.movable ==>
                  && r.state.dragged == conns
                  && r.state.pool.index == s.pool.index - Elems(conns)
                  && r.state.pool.dragMode == s.pool.dragMode + Elems(conns))
            && (!ev.record.root.movable ==> r.state == s.(pending := Some(ev.record)))
  {
  }

  /** A location update moves the root by the workspace delta from the
      touch-down point; with a zero delta the root stays where it started. The
      index and the dragged list are untouched. */
  lemma LocationMovesRoot(env: Env, s: Session, ev: DragEvent)
    requires HighlightTracked(s) && s.pending.Some?
    requires ev.isBlockData && ev.action == DragLocation
    ensures var r := OnDrag(env, s, ev);
            var d := s.pending.value;
            var at := env.toWorkspace(ev.location);
            && !r.accepted
            && r.state.positions[d.root.id] == Point(d.originalPosition.x + (at.x - d.touchDownWorkspace.x),
                                                     d.originalPosition.y + (at.y - d.touchDownWorkspace.y))
            && (at == d.touchDownWorkspace ==> r.state.positions[d.root.id] == d.originalPosition)
            && r.state.pool == s.pool && r.state.dragged == s.dragged
  {
  }

  /** A drop makes exactly one controller call: a connect iff there is a
      best candidate, a neighbour bump otherwise; then the session is
      finished. */
  lemma DropConnectsOrBumps(env: Env, s: Session, ev: DragEvent)
    requires HighlightTracked(s) && s.pending.Some?
    requires ev.isBlockData && (ev.action == Drop || (ev.action == DragEnded && !ev.result))
    ensures var r := OnDrag(env, s, ev);
            var c := env.findBest(s.pending.value.root, s.positions, s.pool.index);
            && r.accepted
            && |r.state.commits| == |s.commits| + 1
            && r.state.commits[..|s.commits|] == s.commits
            && (r.state.commits[|s.commits|].Connect? <==> c.Some?)
            && (r.state.commits[|s.commits|].BumpNeighbors? <==> c.None?)
            && (c.Some? ==> r.state.commits[|s.commits|] == Connect(c.value.source, c.value.target))
            && r.state.dragged == [] && r.state.pending.None? && r.state.highlightView.None?
  {
  }

  /** A drag that ends with a successful result changes nothing. */
  lemma SuccessfulEndChangesNothing(env: Env, s: Session, ev: DragEvent)
    requires HighlightTracked(s)
    requires ev.action == DragEnded && ev.result
    ensures OnDrag(env, s, ev) == Reply(s, false)
  {
  }

  /** A drag that ends without success takes the same path as a drop. */
  lemma FailedEndIsDrop(env: Env, s: Session, ev: DragEvent)
    requires HighlightTracked(s) && s.pending.Some?
    requires ev.isBlockData && ev.action == DragEnded && !ev.result
    ensures OnDrag(env, s, ev) == OnDrag(env, s, ev.(action := Drop))
  {
  }

  /** Finishing twice is finishing once: the second call re-adds nothing. */
  lemma FinishIdempotent(s: Session)
    ensures FinishDragging(FinishDragging(s)) == FinishDragging(s)
  {
  }

  /** Finishing after a start restores the index exactly when the subtree's
      connections were all indexed beforehand; their drag mode ends up off. */
  lemma StartFinishRoundTrip(env: Env, s: Session, ev: DragEvent)
    requires HighlightTracked(s)
    requires ev.isBlockData && ev.action == DragStarted && ev.record.root.movable
    ensures var conns := ev.record.root.connections;
            var f := FinishDragging(OnDrag(env, s, ev).state);
            && f.pool.index == s.pool.index + Elems(conns)
            && (f.pool.index == s.pool.index <==> Elems(conns) <= s.pool.index)
            && f.pool.dragMode == s.pool.dragMode - Elems(conns)
  {
  }

  /** Feed drag events in order. */
  function RunEvents(env: Env, s: Session, evs: seq<DragEvent>): (r: Session)
    requires HighlightTracked(s)
    ensures HighlightTracked(r)
    decreases |evs|
  {
    if evs == [] then s else RunEvents(env, OnDrag(env, s, evs[0]).state, evs[1..])
  }

  /** Location updates never touch the index, the dragged list, the
      pending drag or the commit log. */
  lemma {:induction false} LocationsKeepSession(env: Env, s: Session, locs: seq<DragEvent>)
    requires HighlightTracked(s) && s.pending.Some?
    requires forall i :: 0 <= i < |locs| ==> locs[i].action == DragLocation
    ensures var r := RunEvents(env, s, locs);
            r.pool == s.pool && r.dragged == s.dragged && r.pending == s.pending && r.commits == s.commits
    decreases |locs|
  {
    if locs != [] {
      var s1 := OnDrag(env, s, locs[0]).state;
      assert s1.pool == s.pool && s1.dragged == s.dragged && s1.pending == s.pending;
      LocationsKeepSession(env, s1, locs[1..]);
    }
  }

  /** A whole drag of a movable block, start, any number of location
      updates, drop, gives the index back exactly as it was (when the
      subtree's connections were indexed), with drag mode off, the session
      cleared and exactly one connect or bump made. */
  lemma DragCycleRestoresIndex(env: Env, s: Session, start: DragEvent, locs: seq<DragEvent>, drop: DragEvent)
    requires HighlightTracked(s)
    requires start.isBlockData && start.action == DragStarted && start.record.root.movable
    requires Elems(start.record.root.connections) <= s.pool.index
    requires forall i :: 0 <= i < |locs| ==> locs[i].action == DragLocation
    requires drop.isBlockData && drop.action == Drop
    ensures var s1 := OnDrag(env, s, start).state;
            var s2 := RunEvents(env, s1, locs);
            var s3 := OnDrag(env, s2, drop).state;
            && s3.pool.index == s.pool.index
            && s3.pool.dragMode == s.pool.dragMode - Elems(start.record.root.connections)
            && s3.dragged == [] && s3.pending.None? && s3.highlightView.None?
            && |s3.commits| == |s.commits| + 1
  {
    var s1 := OnDrag(env, s, start).state;
    LocationsKeepSession(env, s1, locs);
  }

  /** What holds between drag events: the highlight is tracked, and each
      dragged connection is out of the index and in drag mode. */
  predicate SessionInv(s: Session) {
    && HighlightTracked(s)
    && forall i :: 0 <= i < |s.dragged| ==> s.dragged[i] !in s.pool.index && s.dragged[i] in s.pool.dragMode
  }

  /** A session with no pending drag, nothing dragged and nothing
      highlighted satisfies the invariant, whatever the connection index
      holds, so every sequence of drag events from it keeps it. */
  lemma EmptySessionInv(pool: Pool, positions: map<nat, Point>, commits: seq<Commit>)
    ensures SessionInv(Session(None, [], None, map[], pool, positions, commits))
  {
  }

  /** With the highlight tracked, at most one connection is highlighted. */
  lemma AtMostOneHighlighted(s: Session)
    requires HighlightTracked(s)
    ensures |s.highlighted| <= 1
  {
    if s.highlightView.Some? {
      var v := s.highlightView.value;
      assert s.highlighted.Keys <= {v};
      if v in s.highlighted {
        assert s.highlighted.Keys == {v};
      } else {
        assert s.highlighted.Keys == {};
      }
    } else {
      assert s.highlighted.Keys == {};
    }
  }

  /** Every drag event, of whatever kind and in whatever state, keeps the
      invariant. */
  lemma OnDragKeepsInv(env: Env, s: Session, ev: DragEvent)
    requires SessionInv(s)
    ensures SessionInv(OnDrag(env, s, ev).state)
  {
  }

  /** Every sequence of drag events keeps the invariant, so at every point
      at most one connection is highlighted and no dragged connection can be
      matched against. */
  lemma {:induction false} RunKeepsInv(env: Env, s: Session, evs: seq<DragEvent>)
    requires SessionInv(s)
    ensures SessionInv(RunEvents(env, s, evs))
    ensures |RunEvents(env, s, evs).highlighted| <= 1
    decreases |evs|
  {
    if evs == [] {
      AtMostOneHighlighted(s);
    } else {
      OnDragKeepsInv(env, s, evs[0]);
      RunKeepsInv(env, OnDrag(env, s, evs[0]).state, evs[1..]);
    }
  }

  /** A drag that ends with a successful result leaves its connections out
      of the index; if another drag then starts, the earlier subtree's
      connections are no longer in the dragged list either, so no later
      finish puts them back. */
  lemma SuccessfulEndThenRestartKeepsConnectionsOut(env: Env, s: Session, start1: DragEvent,
                                                    ended: DragEvent, start2: DragEvent, c: ConnId)
    requires HighlightTracked(s)
    requires start1.isBlockData && start1.action == DragStarted && start1.record.root.movable
    requires ended.isBlockData && ended.action == DragEnded && ended.result
    requires start2.isBlockData && start2.action == DragStarted && start2.record.root.movable
    requires c in start1.record.root.connections && c !in start2.record.root.connections
    ensures var s1 := OnDrag(env, s, start1).state;
            var s2 := OnDrag(env, s1, ended).state;
            var s3 := OnDrag(env, s2, start2).state;
            c !in s3.pool.index && c !in s3.dragged && c in s3.pool.dragMode
  {
  }
}
