/** Connections, the connection manager's index and the per-connection
    drag-mode flag, shared by the gesture arbiter and the drag session. */
module Connections {
  import opened Geometry

  /** A connection, identified by an id; its owning block and type are not
      needed by the drag core. */
  type ConnId = nat

  /** The connection state the drag core reads and writes:
      `index` holds the connections the `ConnectionManager` currently knows,
      `dragMode` the connections whose drag-mode flag is set, and `position`
      each connection's location. */
  datatype Pool = Pool(index: set<ConnId>, dragMode: set<ConnId>, position: map<ConnId, Point>)

  /** The elements of a connection list. */
  function Elems(s: seq<ConnId>): set<ConnId> {
    set c | c in s
  }

  /** Take each connection of `conns`, in order, out of the manager and set its
      drag mode, as the drag-start loop of the workspace does. */
  function Detach(p: Pool, conns: seq<ConnId>): (r: Pool)
    ensures r.index == p.index - Elems(conns)
    ensures r.dragMode == p.dragMode + Elems(conns)
    ensures r.position == p.position
    decreases |conns|
  {
    if conns == [] then p
    else
      var c := conns[0];
      assert Elems(conns) == {c} + Elems(conns[1..]);
      Detach(Pool(p.index - {c}, p.dragMode + {c}, p.position), conns[1..])
  }

  /** Put each connection of `conns`, in order, at (0, 0), clear its drag mode
      and add it back to the manager, as the drag-finish loop does. */
  function Reattach(p: Pool, conns: seq<ConnId>): (r: Pool)
    ensures r.index == p.index + Elems(conns)
    ensures r.dragMode == p.dragMode - Elems(conns)
    ensures r.position.Keys == p.position.Keys + Elems(conns)
    ensures forall c :: c in conns ==> r.position[c] == Origin
    ensures forall c :: c in p.position && c !in conns ==> r.position[c] == p.position[c]
    decreases |conns|
  {
    if conns == [] then p
    else
      var c := conns[0];
      assert Elems(conns) == {c} + Elems(conns[1..]);
      Reattach(Pool(p.index + {c}, p.dragMode - {c}, p.position[c := Origin]), conns[1..])
  }

  /** `ArrayList.remove(Object)`: drop the first occurrence of `c`, if any. */
  function RemoveFirst(s: seq<ConnId>, c: ConnId): (r: seq<ConnId>)
    ensures multiset(r) == multiset(s) - multiset{c}
    ensures c !in s ==> r == s
    ensures c in s ==> |r| == |s| - 1
  {
    if s == [] then s
    else if s[0] == c then
      assert s == [c] + s[1..];
      s[1..]
    else
      assert s == [s[0]] + s[1..];
      [s[0]] + RemoveFirst(s[1..], c)
  }
}
