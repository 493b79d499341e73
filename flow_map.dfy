/**
 * The in-memory state of the mind map: a list of nodes and a list of directed
 * edges, and the handlers that change it (create, delete, move under,
 * relabel, clear all, and the keyboard dispatch onto them).
 *
 * The list transforms are functions over sequences; the class `MindMap` holds
 * the two lists as fields and its methods perform the steps the component
 * performs in place (the position update of a found node, the relabelling
 * loop, deleting the selected nodes one after another). Fresh uuids are
 * parameters with a freshness precondition, the browser prompt's answer is an
 * `Option<string>`, and each method returns the line it would log.
 */
module FlowMap {
  import opened Wrappers
  import opened Seqs
  import opened FlowElements
  import opened MapLogger

  const InitialNodes: seq<Node> := [Node("1", Position(0, 0), "Main Node", false)]
  const InitialEdges: seq<Edge> := []

  const NewNodeLabel: string := "New Node"
  /** A created child sits this far to the right of its parent. */
  const ChildOffsetX: int := 200
  /** A moved node sits this far to the right of and below its new parent. */
  const MoveOffsetX: int := 200
  const MoveOffsetY: int := 100

  // ----- invariant -----

  /** Every node has at most one incoming edge: no two edges share a target. */
  ghost predicate SingleParent(edges: seq<Edge>)
  {
    DistinctBy(EdgeTarget, edges)
  }

  /** The invariant the handlers keep: unique node ids, unique edge ids, one parent per node. */
  ghost predicate Invariant(nodes: seq<Node>, edges: seq<Edge>)
  {
    DistinctBy(NodeId, nodes) && DistinctBy(EdgeId, edges) && SingleParent(edges)
  }

  /** An id that no node and no edge uses yet: what a fresh uuid guarantees. */
  predicate Fresh(nodes: seq<Node>, edges: seq<Edge>, id: string)
  {
    && (forall n :: n in nodes ==> n.id != id)
    && (forall e :: e in edges ==> e.id != id && e.source != id && e.target != id)
  }

  predicate HasNode(nodes: seq<Node>, id: string)
  {
    exists n :: n in nodes && n.id == id
  }

  // ----- the tests the component filters by -----

  function IdIsNot(id: string): Node -> bool { (n: Node) => n.id != id }

  function IdNotIn(ids: seq<string>): Node -> bool { (n: Node) => n.id !in ids }

  function Untouched(id: string): Edge -> bool { (e: Edge) => e.source != id && e.target != id }

  function UntouchedBy(ids: seq<string>): Edge -> bool { (e: Edge) => e.source !in ids && e.target !in ids }

  function NotInto(id: string): Edge -> bool { (e: Edge) => e.target != id }

  function Into(id: string): Edge -> bool { (e: Edge) => e.target == id }

  function IsSelected(n: Node): bool { n.selected }

  /** The edges whose target is `t`: the parents of `t`. */
  function Incoming(edges: seq<Edge>, t: string): (r: seq<Edge>)
    ensures forall e :: e in r <==> e in edges && e.target == t
  {
    Filter(Into(t), edges)
  }

  // ----- deleteNode -----

  /** The nodes after `deleteNode(id)`. */
  function NodesWithout(nodes: seq<Node>, id: string): (r: seq<Node>)
    ensures forall n :: n in r ==> n.id != id
    ensures IsSubsequence(r, nodes)
    ensures forall n: Node :: n.id != id ==> multiset(r)[n] == multiset(nodes)[n]
  {
    Filter(IdIsNot(id), nodes)
  }

  /** The edges after `deleteNode(id)`: those that neither leave nor enter `id`. */
  function EdgesWithout(edges: seq<Edge>, id: string): (r: seq<Edge>)
    ensures forall e :: e in r ==> e.source != id && e.target != id
    ensures IsSubsequence(r, edges)
    ensures forall e: Edge :: e.source != id && e.target != id ==> multiset(r)[e] == multiset(edges)[e]
  {
    Filter(Untouched(id), edges)
  }

  // ----- createNode -----

  /**
   * The node `createNode(parent)` appends. Without a parent it is placed at
   * the viewport's (100, 100) converted to flow coordinates, or at (0, 0)
   * before the diagram instance exists.
   */
  function NewNode(id: string, parent: Option<Node>, viewport: Option<Position>): (n: Node)
    ensures n.id == id && n.text == NewNodeLabel && !n.selected
    ensures parent.Some? ==>
      n.position == Position(parent.value.position.x + ChildOffsetX, parent.value.position.y)
    ensures parent.None? && viewport.Some? ==> n.position == viewport.value
    ensures parent.None? && viewport.None? ==> n.position == Position(0, 0)
  {
    var position :=
      match parent
      case Some(p) => Position(p.position.x + ChildOffsetX, p.position.y)
      case None => if viewport.Some? then viewport.value else Position(0, 0);
    Node(id, position, NewNodeLabel, false)
  }

  /** The edges after `createNode(parent)`: one parent-to-child edge more when there is a parent. */
  function EdgesAfterCreate(edges: seq<Edge>, parent: Option<Node>, newId: string, edgeId: string): seq<Edge>
  {
    if parent.Some? then edges + [Edge(edgeId, parent.value.id, newId)] else edges
  }

  // ----- moveNodeUnder -----

  /** `Array.prototype.find` by id, as the index of the first match. */
  function FindNode(nodes: seq<Node>, id: string): (r: Option<nat>)
    ensures r.Some? ==> r.value < |nodes| && nodes[r.value].id == id
    ensures r.Some? ==> forall k :: 0 <= k < r.value ==> nodes[k].id != id
    ensures r.None? <==> !HasNode(nodes, id)
  {
    if nodes == [] then None
    else if nodes[0].id == id then Some(0)
    else
      match FindNode(nodes[1..], id)
      case None =>
        assert forall n :: n in nodes ==> n == nodes[0] || n in nodes[1..];
        None
      case Some(k) => Some(k + 1)
  }

  /**
   * The nodes after `moveNodeUnder(nodeId, targetId)`: when both nodes exist,
   * the (first) node `nodeId` is placed at the target's position plus
   * (200, 100); the list is otherwise the same list.
   */
  function MovedNodes(nodes: seq<Node>, nodeId: string, targetId: string): seq<Node>
  {
    var i, j := FindNode(nodes, nodeId), FindNode(nodes, targetId);
    if i.Some? && j.Some? then
      var target := nodes[j.value].position;
      nodes[i.value := nodes[i.value].(position := Position(target.x + MoveOffsetX, target.y + MoveOffsetY))]
    else
      nodes
  }

  /** The edges after `moveNodeUnder(nodeId, targetId)`: every edge into `nodeId` dropped, one from `targetId` appended. */
  function EdgesAfterMove(edges: seq<Edge>, edgeId: string, nodeId: string, targetId: string): seq<Edge>
  {
    Filter(NotInto(nodeId), edges) + [Edge(edgeId, targetId, nodeId)]
  }

  // ----- onNodeDoubleClick -----

  /** The nodes after relabelling: every node with id `id` gets the new label. */
  function Relabeled(nodes: seq<Node>, id: string, text: string): (r: seq<Node>)
    ensures |r| == |nodes|
    ensures forall k :: 0 <= k < |r| ==>
      r[k].id == nodes[k].id && r[k].position == nodes[k].position && r[k].selected == nodes[k].selected
    ensures forall k :: 0 <= k < |r| ==> r[k].text == if nodes[k].id == id then text else nodes[k].text
  {
    seq(|nodes|, k requires 0 <= k < |nodes| => if nodes[k].id == id then nodes[k].(text := text) else nodes[k])
  }

  // ----- onKeyDown: Delete -----

  /** The selected nodes, in list order. */
  function Selected(nodes: seq<Node>): (r: seq<Node>)
    ensures forall n :: n in r <==> n in nodes && n.selected
  {
    Filter(IsSelected, nodes)
  }

  function IdsOf(ns: seq<Node>): seq<string>
  {
    seq(|ns|, k requires 0 <= k < |ns| => ns[k].id)
  }

  /** The nodes after deleting every node whose id is in `ids`. */
  function NodesWithoutAll(nodes: seq<Node>, ids: seq<string>): (r: seq<Node>)
    ensures forall n :: n in r ==> n.id !in ids
    ensures IsSubsequence(r, nodes)
    ensures forall n: Node :: n.id !in ids ==> multiset(r)[n] == multiset(nodes)[n]
  {
    Filter(IdNotIn(ids), nodes)
  }

  /** The edges after deleting every node whose id is in `ids`. */
  function EdgesWithoutAll(edges: seq<Edge>, ids: seq<string>): (r: seq<Edge>)
    ensures forall e :: e in r ==> e.source !in ids && e.target !in ids
    ensures IsSubsequence(r, edges)
    ensures forall e: Edge :: e.source !in ids && e.target !in ids ==> multiset(r)[e] == multiset(edges)[e]
  {
    Filter(UntouchedBy(ids), edges)
  }

  // ----- logging of library changes -----

  /**
   * The lines `onNodeChange(changes)` logs before passing the changes on:
   * one line per change that `nodeLogger` has a line for, in order, and none
   * when logging is off.
   */
  function ChangeLog(log: bool, changes: seq<NodeChange>): (lines: seq<string>)
    ensures !log ==> lines == []
    ensures |lines| <= |changes|
    ensures log && (forall k :: 0 <= k < |changes| ==> NodeLogger(changes[k], false).Some?) ==>
      |lines| == |changes| && forall k :: 0 <= k < |changes| ==> lines[k] == NodeLogger(changes[k], false).value
  {
    if !log || changes == [] then []
    else
      var first := match NodeLogger(changes[0], false) case Some(line) => [line] case None => [];
      first + ChangeLog(log, changes[1..])
  }

  /** The changes `onNodesDelete(deleted)` logs: one removal per deleted node. */
  function RemovalChanges(deleted: seq<Node>): seq<NodeChange>
  {
    seq(|deleted|, k requires 0 <= k < |deleted| => RemoveChange(deleted[k].id))
  }

  /**
   * With logging on, `onNodesDelete` logs one `NodeRemoved:<id>:` line per
   * deleted node, in order, from which the id reads back when it has no ':'.
   */
  lemma RemovalLogReadsBack(deleted: seq<Node>)
    requires forall k :: 0 <= k < |deleted| ==> NoColon(deleted[k].id)
    ensures var lines := ChangeLog(true, RemovalChanges(deleted));
      && |lines| == |deleted|
      && forall k :: 0 <= k < |deleted| ==> Fields(lines[k]) == ["NodeRemoved", deleted[k].id, ""]
  {
    var changes := RemovalChanges(deleted);
    var lines := ChangeLog(true, changes);
    forall k | 0 <= k < |deleted| ensures Fields(lines[k]) == ["NodeRemoved", deleted[k].id, ""] {
      assert changes[k] == RemoveChange(deleted[k].id);
      MessageFields(changes[k], false);
    }
  }

  /** A single change logs its message, if it has one, and only when logging is on. */
  lemma ChangeLogOne(log: bool, change: NodeChange)
    ensures ChangeLog(log, [change]) ==
      if log && NodeLogger(change, false).Some? then [NodeLogger(change, false).value] else []
  {
    assert [change][1..] == [];
  }

  /** Logging a batch of changes logs the batch's parts one after the other. */
  lemma {:induction false} ChangeLogConcat(log: bool, a: seq<NodeChange>, b: seq<NodeChange>)
    ensures ChangeLog(log, a + b) == ChangeLog(log, a) + ChangeLog(log, b)
  {
    if !log {
    } else if a == [] {
      assert a + b == b;
    } else {
      assert (a + b)[0] == a[0];
      assert (a + b)[1..] == a[1..] + b;
      ChangeLogConcat(log, a[1..], b);
    }
  }

  // ----- properties -----

  /** Deleting no node changes nothing. */
  lemma DeleteNothing(nodes: seq<Node>, edges: seq<Edge>)
    ensures NodesWithoutAll(nodes, []) == nodes
    ensures EdgesWithoutAll(edges, []) == edges
  {
    FilterAll(IdNotIn([]), nodes);
    FilterAll(UntouchedBy([]), edges);
  }

  /** Deleting one more node after a batch is deleting the longer batch at once. */
  lemma DeleteOneMore(nodes: seq<Node>, edges: seq<Edge>, ids: seq<string>, id: string)
    ensures NodesWithout(NodesWithoutAll(nodes, ids), id) == NodesWithoutAll(nodes, ids + [id])
    ensures EdgesWithout(EdgesWithoutAll(edges, ids), id) == EdgesWithoutAll(edges, ids + [id])
  {
    var more := ids + [id];
    assert forall x :: x in more <==> x in ids || x == id;
    FilterFilter(IdIsNot(id), IdNotIn(ids), IdNotIn(more), nodes);
    FilterFilter(Untouched(id), UntouchedBy(ids), UntouchedBy(more), edges);
  }

  /**
   * After a move, `nodeId` has exactly one incoming edge, the new one from
   * `targetId`, and it is the last edge; the edges into other nodes are the
   * same edges in the same order. This holds whether or not either node exists.
   */
  lemma MoveEdges(edges: seq<Edge>, edgeId: string, nodeId: string, targetId: string)
    ensures var r := EdgesAfterMove(edges, edgeId, nodeId, targetId);
      && Incoming(r, nodeId) == [Edge(edgeId, targetId, nodeId)]
      && r[|r| - 1] == Edge(edgeId, targetId, nodeId)
      && Filter(NotInto(nodeId), r) == Filter(NotInto(nodeId), edges)
  {
    var kept := Filter(NotInto(nodeId), edges);
    var added := Edge(edgeId, targetId, nodeId);
    FilterConcat(Into(nodeId), kept, [added]);
    FilterNone(Into(nodeId), kept);
    FilterConcat(NotInto(nodeId), kept, [added]);
    FilterAll(NotInto(nodeId), kept);
  }

  /**
   * A move changes node positions only: ids, labels and selection stay, no
   * node other than `nodeId` changes, and `nodeId` gets the target's position
   * plus (200, 100) exactly when both nodes exist; otherwise the list is unchanged.
   */
  lemma MoveNodesPositions(nodes: seq<Node>, nodeId: string, targetId: string)
    ensures var r := MovedNodes(nodes, nodeId, targetId);
      && |r| == |nodes|
      && (forall k :: 0 <= k < |r| ==>
            r[k].id == nodes[k].id && r[k].text == nodes[k].text && r[k].selected == nodes[k].selected)
      && (forall k :: 0 <= k < |r| && nodes[k].id != nodeId ==> r[k] == nodes[k])
      && (!(HasNode(nodes, nodeId) && HasNode(nodes, targetId)) ==> r == nodes)
    ensures HasNode(nodes, nodeId) && HasNode(nodes, targetId) ==>
      var r, i, j := MovedNodes(nodes, nodeId, targetId), FindNode(nodes, nodeId).value, FindNode(nodes, targetId).value;
      && r[i].position == Position(nodes[j].position.x + MoveOffsetX, nodes[j].position.y + MoveOffsetY)
      && forall k :: 0 <= k < |r| && k != i ==> r[k] == nodes[k]
  {
  }

  /** The single-parent rule holds exactly when every id has at most one incoming edge. */
  lemma SingleParentIffOneIncoming(edges: seq<Edge>)
    ensures SingleParent(edges) <==> forall t :: |Incoming(edges, t)| <= 1
  {
    if SingleParent(edges) {
      forall t ensures |Incoming(edges, t)| <= 1 {
        AtMostOneIncoming(edges, t);
      }
    }
    if !SingleParent(edges) {
      var i, j :| 0 <= i < j < |edges| && EdgeTarget(edges[i]) == EdgeTarget(edges[j]);
      TwoIncoming(edges, i, j);
    }
  }

  lemma {:induction false} AtMostOneIncoming(edges: seq<Edge>, t: string)
    requires SingleParent(edges)
    ensures |Incoming(edges, t)| <= 1
  {
    if edges != [] {
      var rest := edges[1..];
      DistinctSplit(EdgeTarget, edges);
      assert edges == [edges[0]] + rest;
      FilterConcat(Into(t), [edges[0]], rest);
      if edges[0].target == t {
        FilterNone(Into(t), rest);
      } else {
        AtMostOneIncoming(rest, t);
      }
    }
  }

  lemma TwoIncoming(edges: seq<Edge>, i: nat, j: nat)
    requires i < j < |edges| && edges[i].target == edges[j].target
    ensures |Incoming(edges, edges[i].target)| >= 2
  {
    var t := edges[i].target;
    var before, after := edges[..j], edges[j..];
    assert edges == before + after;
    FilterConcat(Into(t), before, after);
    assert edges[i] in before && edges[i] in Incoming(before, t);
    assert after[0] == edges[j] && edges[j] in Incoming(after, t);
  }

  lemma CreateKeepsInvariant(nodes: seq<Node>, edges: seq<Edge>, newId: string, edgeId: string,
                             parent: Option<Node>, viewport: Option<Position>)
    requires Invariant(nodes, edges)
    requires Fresh(nodes, edges, newId)
    requires parent.Some? ==> Fresh(nodes, edges, edgeId)
    ensures Invariant(nodes + [NewNode(newId, parent, viewport)], EdgesAfterCreate(edges, parent, newId, edgeId))
  {
  }

  lemma DeleteKeepsInvariant(nodes: seq<Node>, edges: seq<Edge>, id: string)
    requires Invariant(nodes, edges)
    ensures Invariant(NodesWithout(nodes, id), EdgesWithout(edges, id))
  {
    FilterKeepsDistinct(IdIsNot(id), NodeId, nodes);
    FilterKeepsDistinct(Untouched(id), EdgeId, edges);
    FilterKeepsDistinct(Untouched(id), EdgeTarget, edges);
  }

  lemma MoveKeepsInvariant(nodes: seq<Node>, edges: seq<Edge>, edgeId: string, nodeId: string, targetId: string)
    requires Invariant(nodes, edges)
    requires Fresh(nodes, edges, edgeId)
    ensures Invariant(MovedNodes(nodes, nodeId, targetId), EdgesAfterMove(edges, edgeId, nodeId, targetId))
  {
    var kept := Filter(NotInto(nodeId), edges);
    var e := Edge(edgeId, targetId, nodeId);
    FilterKeepsDistinct(NotInto(nodeId), EdgeId, edges);
    FilterKeepsDistinct(NotInto(nodeId), EdgeTarget, edges);
    AppendKeepsDistinct(EdgeId, kept, e);
    AppendKeepsDistinct(EdgeTarget, kept, e);
    var moved := MovedNodes(nodes, nodeId, targetId);
    MoveNodesPositions(nodes, nodeId, targetId);
    forall i, j | 0 <= i < j < |moved| ensures NodeId(moved[i]) != NodeId(moved[j]) {
      assert NodeId(nodes[i]) != NodeId(nodes[j]);
    }
  }

  lemma RelabelKeepsInvariant(nodes: seq<Node>, edges: seq<Edge>, id: string, text: string)
    requires Invariant(nodes, edges)
    ensures Invariant(Relabeled(nodes, id, text), edges)
  {
  }

  lemma PrefixStep(ids: seq<string>, i: nat)
    requires i < |ids|
    ensures ids[..i + 1] == ids[..i] + [ids[i]]
  {
  }

  // ----- the component's state -----

  class MindMap {
    var nodes: seq<Node>
    var edges: seq<Edge>
    /** The component's `log` property: whether changes are written to the log. */
    const log: bool

    ghost predicate Valid()
      reads this
    {
      Invariant(nodes, edges)
    }

    constructor (log: bool)
      ensures nodes == InitialNodes && edges == InitialEdges && this.log == log
      ensures Valid()
    {
      nodes := InitialNodes;
      edges := InitialEdges;
      this.log := log;
    }

    /** `createNode(parent)`: append a new node, and a parent-to-child edge when there is a parent. */
    method CreateNode(parent: Option<Node>, viewport: Option<Position>, newId: string, edgeId: string)
      returns (message: Option<string>)
      requires Fresh(nodes, edges, newId)
      requires parent.Some? ==> Fresh(nodes, edges, edgeId)
      modifies this
      ensures nodes == old(nodes) + [NewNode(newId, parent, viewport)]
      ensures edges == EdgesAfterCreate(old(edges), parent, newId, edgeId)
      ensures message == if log then NodeLogger(AddChange(NewNode(newId, parent, viewport)), false) else None
      ensures old(Valid()) ==> Valid()
    {
      ghost var was := (nodes, edges);
      var newNode := NewNode(newId, parent, viewport);
      edges := EdgesAfterCreate(edges, parent, newId, edgeId);
      nodes := nodes + [newNode];
      message := if log then NodeLogger(AddChange(newNode), false) else None;
      if Invariant(was.0, was.1) {
        CreateKeepsInvariant(was.0, was.1, newId, edgeId, parent, viewport);
      }
    }

    /** `deleteNode(id)`: remove the node and every edge that leaves or enters it. */
    method DeleteNode(id: string)
      modifies this
      ensures nodes == NodesWithout(old(nodes), id)
      ensures edges == EdgesWithout(old(edges), id)
      ensures old(Valid()) ==> Valid()
    {
      if Valid() {
        DeleteKeepsInvariant(nodes, edges, id);
      }
      nodes := NodesWithout(nodes, id);
      edges := EdgesWithout(edges, id);
    }

    /**
     * `moveNodeUnder(nodeId, targetId)`: when both nodes exist, update the
     * found node's position in place and log the move; in every case replace
     * the edges into `nodeId` by one edge from `targetId`.
     */
    method MoveNodeUnder(nodeId: string, targetId: string, edgeId: string) returns (message: Option<string>)
      requires Fresh(nodes, edges, edgeId)
      modifies this
      ensures nodes == MovedNodes(old(nodes), nodeId, targetId)
      ensures edges == EdgesAfterMove(old(edges), edgeId, nodeId, targetId)
      ensures message ==
        if log && HasNode(old(nodes), nodeId) && HasNode(old(nodes), targetId)
        then NodeLogger(PositionChange(nodeId), false) else None
      ensures old(Valid()) ==> Valid()
    {
      ghost var was := (nodes, edges);
      message := None;
      var node := FindNode(nodes, nodeId);
      var target := FindNode(nodes, targetId);
      if node.Some? && target.Some? {
        var at := nodes[target.value].position;
        nodes := nodes[node.value := nodes[node.value].(position := Position(at.x + MoveOffsetX, at.y + MoveOffsetY))];
        assert nodes == MovedNodes(was.0, nodeId, targetId);
        if log {
          message := NodeLogger(PositionChange(nodeId), false);
        }
      }
      edges := EdgesAfterMove(edges, edgeId, nodeId, targetId);
      if Invariant(was.0, was.1) {
        MoveKeepsInvariant(was.0, was.1, edgeId, nodeId, targetId);
      }
    }

    /**
     * `onNodeDoubleClick(node)` once the prompt has answered `newLabel`:
     * a cancelled prompt changes nothing; otherwise every node with the
     * clicked node's id is relabelled in place and a text change is logged.
     */
    method OnNodeDoubleClick(node: Node, newLabel: Option<string>) returns (message: Option<string>)
      modifies this
      ensures edges == old(edges)
      ensures newLabel.None? ==> nodes == old(nodes) && message == None
      ensures newLabel.Some? ==> nodes == Relabeled(old(nodes), node.id, newLabel.value)
      ensures newLabel.Some? ==>
        message == if log then NodeLogger(ResetChange(node.(text := newLabel.value)), true) else None
      ensures old(Valid()) ==> Valid()
    {
      message := None;
      if newLabel.Some? {
        ghost var was := nodes;
        var text := newLabel.value;
        if Valid() {
          RelabelKeepsInvariant(nodes, edges, node.id, text);
        }
        var i := 0;
        while i < |nodes|
          invariant 0 <= i <= |nodes| == |was|
          invariant edges == old(edges)
          invariant forall k :: 0 <= k < i ==> nodes[k] == Relabeled(was, node.id, text)[k]
          invariant forall k :: i <= k < |nodes| ==> nodes[k] == was[k]
        {
          if nodes[i].id == node.id {
            nodes := nodes[i := nodes[i].(text := text)];
          }
          i := i + 1;
        }
        if log {
          message := NodeLogger(ResetChange(node.(text := text)), true);
        }
      }
    }

    /** The "Clear All" button: the node list becomes empty; the edges stay. */
    method ClearAll()
      modifies this
      ensures nodes == [] && edges == old(edges)
      ensures old(Valid()) ==> Valid()
    {
      nodes := [];
    }

    /** Delete the nodes with the given ids one after another, as `forEach` over `deleteNode`. */
    method DeleteNodes(ids: seq<string>)
      modifies this
      ensures nodes == NodesWithoutAll(old(nodes), ids)
      ensures edges == EdgesWithoutAll(old(edges), ids)
      ensures old(Valid()) ==> Valid()
    {
      ghost var was := (nodes, edges);
      ghost var valid := Valid();
      DeleteNothing(nodes, edges);
      var i := 0;
      while i < |ids|
        invariant 0 <= i <= |ids|
        invariant nodes == NodesWithoutAll(was.0, ids[..i])
        invariant edges == EdgesWithoutAll(was.1, ids[..i])
        invariant valid ==> Valid()
      {
        PrefixStep(ids, i);
        DeleteOneMore(was.0, was.1, ids[..i], ids[i]);
        DeleteNode(ids[i]);
        i := i + 1;
      }
      assert ids[..|ids|] == ids;
    }

    /**
     * `onKeyDown`: Ctrl+C creates a parentless node; Delete deletes the
     * selected nodes one after another; Ctrl+M moves the first selected node
     * under the second when exactly two are selected; any other key does nothing.
     */
    method OnKeyDown(key: string, ctrl: bool, viewport: Option<Position>, newId: string, edgeId: string)
      returns (message: Option<string>)
      requires Fresh(nodes, edges, newId) && Fresh(nodes, edges, edgeId)
      modifies this
      ensures ctrl && key == "c" ==>
        && nodes == old(nodes) + [NewNode(newId, None, viewport)]
        && edges == old(edges)
        && message == if log then NodeLogger(AddChange(NewNode(newId, None, viewport)), false) else None
      ensures key == "Delete" ==>
        var ids := IdsOf(Selected(old(nodes)));
        && nodes == NodesWithoutAll(old(nodes), ids)
        && edges == EdgesWithoutAll(old(edges), ids)
        && message == None
      ensures ctrl && key == "m" && |Selected(old(nodes))| == 2 ==>
        var sel := Selected(old(nodes));
        && nodes == MovedNodes(old(nodes), sel[0].id, sel[1].id)
        && edges == EdgesAfterMove(old(edges), edgeId, sel[0].id, sel[1].id)
        && message == if log && HasNode(old(nodes), sel[0].id) && HasNode(old(nodes), sel[1].id)
                      then NodeLogger(PositionChange(sel[0].id), false) else None
      ensures ((ctrl && key == "m" && |Selected(old(nodes))| != 2) || (key !in {"c", "m", "Delete"}) || (!ctrl && key != "Delete")) ==>
        nodes == old(nodes) && edges == old(edges) && message == None
      ensures old(Valid()) ==> Valid()
    {
      message := None;
      if ctrl && key == "c" {
        message := CreateNode(None, viewport, newId, edgeId);
      } else if key == "Delete" {
        DeleteNodes(IdsOf(Selected(nodes)));
      } else if ctrl && key == "m" {
        var selected := Selected(nodes);
        if |selected| == 2 {
          message := MoveNodeUnder(selected[0].id, selected[1].id, edgeId);
        }
      }
    }
  }
}
