/** The stored graph as its queries see it. */
module GraphStore {
  type Id = string
  type Kind = string

  datatype Node = Node(id: Id, kind: Kind)

  /** Edges are told apart by row, so there may be several alike. */
  datatype Edge = Edge(row: nat, source: Id, target: Id, kind: Kind)

  /** Edges may point to nodes that are not stored. */
  datatype Graph = Graph(nodes: map<Id, Node>, edges: seq<Edge>)

  /** Nodes are stored under their ids. */
  predicate Stored(g: Graph) {
    forall id :: id in g.nodes ==> g.nodes[id].id == id
  }

  /** No kinds at all means every kind. */
  predicate KindAllowed(kind: Kind, kinds: seq<Kind>) {
    kinds == [] || kind in kinds
  }

  function Outgoing(edges: seq<Edge>, id: Id, kinds: seq<Kind>): (r: seq<Edge>)
    ensures forall e :: e in r <==> e in edges && e.source == id && KindAllowed(e.kind, kinds)
  {
    if edges == [] then []
    else
      (if edges[0].source == id && KindAllowed(edges[0].kind, kinds) then [edges[0]] else [])
      + Outgoing(edges[1..], id, kinds)
  }

  function Incoming(edges: seq<Edge>, id: Id, kinds: seq<Kind>): (r: seq<Edge>)
    ensures forall e :: e in r <==> e in edges && e.target == id && KindAllowed(e.kind, kinds)
  {
    if edges == [] then []
    else
      (if edges[0].target == id && KindAllowed(edges[0].kind, kinds) then [edges[0]] else [])
      + Incoming(edges[1..], id, kinds)
  }
}
