/**
 * The records of the diagramming library that the mind map stores: a node has
 * an id, a position, a label (`data.label`, called `text` here because `label` is a Dafny keyword) and a selection flag; an edge is a
 * directed connection from `source` to `target`. Coordinates are integers:
 * the map only ever adds whole offsets to them.
 */
module FlowElements {

  datatype Position = Position(x: int, y: int)

  datatype Node = Node(id: string, position: Position, text: string, selected: bool)

  datatype Edge = Edge(id: string, source: string, target: string)

  function NodeId(n: Node): string { n.id }

  function EdgeId(e: Edge): string { e.id }

  function EdgeTarget(e: Edge): string { e.target }
}
