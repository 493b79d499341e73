# Mind-map state, verified model

This project models the core of a browser mind-map editor. A canvas component (`MindMap`) keeps two lists:
- nodes, each with an id, a position, a label and a selection flag;
- directed edges, each with an id, a source and a target.

Its handlers change these lists:
- `createNode` appends a node. With a parent, it also places the node next to the parent and appends a parent-to-child edge.
- `deleteNode` removes a node and every edge touching it.
- `moveNodeUnder` re-parents a node.
- a double click relabels a node.
- "Clear All" empties the node list.
- `onKeyDown` maps Ctrl+C, Delete and Ctrl+M onto these handlers.

A small formatter, `nodeLogger`, turns a node change into a log line.

Files and modules:

- `wrappers.dfy` (`Wrappers`): `Option`, which stands for `null`, `undefined` and a cancelled prompt.
- `seqs.dfy` (`Seqs`): `Filter` models `Array.prototype.filter`. Its contract fixes the result exactly: it is a subsequence, and it keeps every occurrence of a value that passes the test and nothing else. The module also holds `DistinctBy` (a key is unique across a sequence) and lemmas about filtering: it keeps order, it composes, and it preserves uniqueness.
- `flow_elements.dfy` (`FlowElements`): the node, edge and position records of the diagramming library. `data.label` is called `text`, because `label` is a Dafny keyword. Coordinates are integers.
- `map_logger.dfy` (`MapLogger`): the `NodeChangeType` enum and the library's node-change union. The `console.log` of `nodeLogger` becomes a returned `Option<string>`. `Fields` splits a line on ':' and `Join` builds one. Lemmas show that every line is a colon-separated record. The leading fields (the message kind and the id) read back whenever the id has no ':'. The remaining fields join back to the label, which may itself contain ':'.
- `flow_map.dfy` (`FlowMap`): the pure list transforms for each handler and the lemmas about them. The class `MindMap` holds `nodes: seq<Node>` and `edges: seq<Edge>` as fields. Its methods do the steps the component does in place:
  - the position assignment on the node that `find` returns;
  - the label assignment inside `map`;
  - `forEach` over `deleteNode` for the selected nodes.
  Each method's contract equates the new state with a transform of the old state. It also promises that the invariant is kept.

The invariant (`FlowMap.Invariant`) has three parts:
- node ids are unique;
- edge ids are unique;
- every node has at most one incoming edge (`SingleParent`: no two edges share a target).

`SingleParentIffOneIncoming` proves that `SingleParent` means exactly that every id has at most one incoming edge. The handlers keep the invariant, given fresh ids. Methods do not require the invariant. They promise `old(Valid()) ==> Valid()`.

Effects become parameters:
- A uuid becomes an id argument. The `Fresh` precondition says no node or edge uses that id yet.
- The answer of `prompt()` becomes an `Option<string>`.
- The viewport transform `screenToFlowPosition` becomes an `Option<Position>`. `None` stands for the diagram instance not existing yet, and then the node goes to (0, 0).
- `console.log` becomes the line a method returns.
- The component's `log` property becomes a constant field of the class.

The handlers do no cycle detection, no recursive subtree deletion and no ancestor check:
- `deleteNode` removes one node. Its children only lose their incoming edge.
- `moveNodeUnder` adds the new edge without any check. Moving a node under itself adds a self-loop, and moving a node under a descendant closes a cycle.

No lemma claims that edges stay acyclic.

## Model

| member | source | states |
|---|---|---|
| `Seqs.Filter` | src/components/FlowMap/index.tsx:109-112 | `filter` keeps the passing elements in their original order. The result is a subsequence, every occurrence of a passing value is kept, and no failing value is kept. |
| `Seqs.FilterConcat` | src/components/FlowMap/index.tsx:109-112 | Filtering distributes over concatenation: what came first stays first. |
| `Seqs.FilterFilter` | src/components/FlowMap/index.tsx:164-165 | Two filters in a row equal one filter by both tests. Used for deletions done one after another. |
| `Seqs.FilterKeepsDistinct` | src/components/FlowMap/index.tsx:109-112 | A key that is unique before a filter is unique after it. |
| `Seqs.AppendKeepsDistinct` | src/components/FlowMap/index.tsx:89-101 | Appending an element with a new key keeps the key unique. |
| `MapLogger.NodeLogger` | src/components/FlowMap/MapLogger.tsx:11-25 | Text mode always logs a line. Otherwise there is no line exactly for select, dimensions and reset changes. |
| `MapLogger.FieldsOfJoin` | src/components/FlowMap/MapLogger.tsx:13-23 | Splitting a colon-joined line gives back its fields when none of them contains ':'. |
| `MapLogger.JoinFields` | src/components/FlowMap/MapLogger.tsx:13-23 | Joining the fields of any string with ':' gives the string back, whatever colons it holds. |
| `MapLogger.MessageFields` | src/components/FlowMap/MapLogger.tsx:12-23 | Assumes only that the id has no ':'. Text mode: the first three fields are `TextChanged`, `text` and the id, and the remaining fields join back to the label, whatever colons it holds. The id is `change.id` if the record has one, else `item.id`; the label is `item.data.label` if there is an item, else empty. Add: the fields start with `NodeAdded` and the id, and the rest join back to the label. Remove: exactly `NodeRemoved`, the id and an empty field. Position change: exactly `NodeMoved`, the id and an empty field. A label without ':' is exactly one last field. |
| `MapLogger.TextModePrecedence` | src/components/FlowMap/MapLogger.tsx:12-18 | Text mode comes before the change type. A reset change yields a `TextChanged:text:` line in text mode and nothing otherwise. |
| `FlowMap.Incoming` | src/components/FlowMap/index.tsx:131-134 | The incoming edges of `t` are exactly the edges whose target is `t`. |
| `FlowMap.NodesWithout` | src/components/FlowMap/index.tsx:109 | After `deleteNode(id)` no node has that id. Every other node is kept, with all its occurrences, in its original order. |
| `FlowMap.EdgesWithout` | src/components/FlowMap/index.tsx:110-112 | After `deleteNode(id)` no edge has `id` as source or target. Every edge not touching `id` is kept, in its original order. |
| `FlowMap.NewNode` | src/components/FlowMap/index.tsx:78-98 | The created node has the fresh id, the label "New Node" and is not selected. With a parent it sits at (parent.x + 200, parent.y); without one it sits at the viewport point, or at (0, 0) when there is no diagram instance. |
| `FlowMap.FindNode` | src/components/FlowMap/index.tsx:120-121 | `find` by id returns the first index whose node has the id. It returns nothing exactly when no node has it. |
| `FlowMap.MoveNodesPositions` | src/components/FlowMap/index.tsx:119-129 | A move keeps every id, label and selection flag and the list length. No node other than `nodeId` changes. `nodeId` gets the target's position + (200, 100) when both nodes exist; otherwise the list is unchanged. |
| `FlowMap.MoveEdges` | src/components/FlowMap/index.tsx:131-134 | After a move, `nodeId` has exactly one incoming edge: the new one from `targetId`, which is the last edge. The edges into other nodes are unchanged and in order. This holds whether or not the nodes exist. |
| `FlowMap.Relabeled` | src/components/FlowMap/index.tsx:142-148 | Relabelling changes only the labels of nodes whose id matches. Ids, positions, selection flags and other labels are unchanged. |
| `FlowMap.Selected` | src/components/FlowMap/index.tsx:164 | The selected nodes are exactly the nodes whose flag is set. |
| `FlowMap.NodesWithoutAll` | src/components/FlowMap/index.tsx:163-165 | After Delete no selected id remains. Every other node is kept in order. |
| `FlowMap.EdgesWithoutAll` | src/components/FlowMap/index.tsx:163-165 | After Delete no edge touches a selected node. Every other edge is kept in order. |
| `FlowMap.DeleteNothing` | src/components/FlowMap/index.tsx:165 | Deleting an empty selection changes nothing. |
| `FlowMap.DeleteOneMore` | src/components/FlowMap/index.tsx:165 | Deleting one more node after a batch is the same as deleting the longer batch at once. |
| `FlowMap.ChangeLog` | src/components/FlowMap/index.tsx:46-56 | `onNodeChange` logs nothing when logging is off. Otherwise it logs at most one line per change, in order: exactly `nodeLogger`'s line for each change when every change has one. |
| `FlowMap.ChangeLogOne` | src/components/FlowMap/index.tsx:46-56 | One change logs `nodeLogger`'s line when logging is on and the change has a line. Otherwise it logs nothing; this covers select, dimensions and reset changes. |
| `FlowMap.ChangeLogConcat` | src/components/FlowMap/index.tsx:46-56 | A batch logs the lines of its first part, then those of the rest. With `ChangeLogOne` this fixes the log of every batch. |
| `FlowMap.RemovalLogReadsBack` | src/components/FlowMap/index.tsx:65-74 | With logging on, one `NodeRemoved:<id>:` line is logged per deleted node, in order, and the id reads back from it. |
| `FlowMap.SingleParentIffOneIncoming` | src/components/FlowMap/index.tsx:131-134 | No two edges share a target exactly when every id has at most one incoming edge. |
| `FlowMap.CreateKeepsInvariant` | src/components/FlowMap/index.tsx:84-101 | With a fresh node id (and a fresh edge id when there is a parent), `createNode` keeps ids unique and every node's single parent. |
| `FlowMap.DeleteKeepsInvariant` | src/components/FlowMap/index.tsx:107-115 | `deleteNode` keeps ids unique and every node's single parent. |
| `FlowMap.MoveKeepsInvariant` | src/components/FlowMap/index.tsx:117-137 | With a fresh edge id, `moveNodeUnder` keeps ids unique and every node's single parent. |
| `FlowMap.RelabelKeepsInvariant` | src/components/FlowMap/index.tsx:141-149 | Relabelling keeps the invariant. |
| `FlowMap.MindMap.constructor` | src/components/FlowMap/index.tsx:22-36 | The state starts as the one node "1" ("Main Node" at (0, 0)) and no edges. That state satisfies the invariant. |
| `FlowMap.MindMap.CreateNode` | src/components/FlowMap/index.tsx:76-105 | Exactly one node is appended. Exactly one edge parent→new is appended when there is a parent, none otherwise; existing nodes and edges are untouched. The logged line is the node-added line. The invariant is kept. |
| `FlowMap.MindMap.DeleteNode` | src/components/FlowMap/index.tsx:107-115 | The new lists are the filtered old lists, and the invariant is kept. |
| `FlowMap.MindMap.MoveNodeUnder` | src/components/FlowMap/index.tsx:117-137 | The found node's position is updated in place. The edges are replaced as the transform says. A `NodeMoved` line is logged only when both nodes exist. The invariant is kept. |
| `FlowMap.MindMap.OnNodeDoubleClick` | src/components/FlowMap/index.tsx:139-156 | A cancelled prompt changes nothing and logs nothing. Otherwise the matching nodes are relabelled in place and the text-mode reset line is logged. The edges never change. |
| `FlowMap.MindMap.ClearAll` | src/components/FlowMap/index.tsx:197-203 | Clear All empties the node list and leaves the edges unchanged. |
| `FlowMap.MindMap.DeleteNodes` | src/components/FlowMap/index.tsx:164-165 | Deleting the given ids one after another equals deleting them all at once, and the invariant is kept. |
| `FlowMap.MindMap.OnKeyDown` | src/components/FlowMap/index.tsx:158-174 | Ctrl+C creates a parentless node. Delete removes every selected node, even with Ctrl held. Ctrl+M moves the first selected node under the second only when exactly two are selected. Any other key changes nothing. |

## Left out

- Rendering, `Controls`, `MiniMap`, `Background` and the diagramming library's own change application (`onNodesChange`, `onEdgesChange`, and so `onEdgeChange`). These are library code. `ChangeLog` models only what `onNodeChange` logs.
- The position change that `moveNodeUnder` passes to `onNodeChange`: only its log line is modelled. The library would apply a change without a position, and that application is not part of this model.
- `onConnect`/`addEdge`: its semantics live in the library, and it can bypass the single-parent rule. The invariant is therefore stated for the handlers above only.
- `screenToFlowPosition`: a viewport transform in the library, taken as an opaque `Option<Position>` input.
- uuid generation, `prompt()` and `console.log`: replaced by fresh-id arguments, an optional label and returned lines.
- React hook scheduling (`useCallback`, batching of updater functions) and event objects beyond the key and the Ctrl flag. Handlers apply their updates in program order.
- Changes to the selection flag: only the library's change application makes them, so the model takes `selected` as given.
- The disabled states of the two buttons. "Add Node" is enabled only once the diagram instance exists, which is the `viewport.Some?` case of `CreateNode`. "Clear All" is disabled on an empty list, where clearing changes nothing anyway.
- Node-change payloads that `nodeLogger` never reads: new position, dragging, dimensions, selection value and insertion index. The change union is modelled as the library types it: additions and resets carry an item, the others an id. So the JavaScript failures on a missing `item` cannot arise.
- Cycle detection, recursive subtree deletion and ancestor checks: the code does not have them.
- Floating-point coordinates: only integer offsets (+200, +100) are ever added, so coordinates are `int`.
- `vite.config.ts`, `src/pages/Home.tsx` and `src/app/app.tsx`: build configuration and page shell, with no logic.
