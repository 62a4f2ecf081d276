/** The values a pipeline canvas is made of: reactflow nodes and edges. */
module GraphTypes {

  datatype Option<T> = None | Some(value: T)

  /** A point on the canvas (owned by the editing surface, ignored by validation). */
  datatype Position = Position(x: real, y: real)

  /** A stage of the pipeline. `caption` is the node's `data.label` (absent for a
      node built only to carry an id), `kind` is its reactflow `type`. */
  datatype Node = Node(id: string, caption: Option<string>, position: Position, kind: string)

  /** A directed connection from `source` to `target`; the handles name the
      side of each node it attaches to. */
  datatype Edge = Edge(id: string, source: string, target: string,
                       sourceHandle: Option<string>, targetHandle: Option<string>)
}
