/**
 * The inputs of the dataflow equation builder: a flow graph, the three kinds of
 * variable slot (IN and OUT of a node, and a flow edge), and the provider of
 * transfer functions and of the meet operator.
 */
module FlowGraph {

  /** A node of the flow graph, identified by its number. */
  type Node = nat

  ghost predicate Distinct<T>(s: seq<T>) {
    forall i, j | 0 <= i < j < |s| :: s[i] != s[j]
  }

  /**
   * A flow graph: the nodes in the order its iterator yields them, and for each
   * node its successor and predecessor lists in iteration order.
   */
  datatype Graph = Graph(nodes: seq<Node>, succs: map<Node, seq<Node>>, preds: map<Node, seq<Node>>)

  /** The contract a flow graph meets: the two edge lists describe the same edges. */
  ghost predicate Valid(g: Graph) {
    && Distinct(g.nodes)
    && (forall n | n in g.nodes :: n in g.succs && n in g.preds)
    && (forall n | n in g.nodes :: Distinct(g.succs[n]) && Distinct(g.preds[n]))
    && (forall p, s | p in g.nodes && s in g.succs[p] :: s in g.nodes && p in g.preds[s])
    && (forall n, p | n in g.nodes && p in g.preds[n] :: p in g.nodes && n in g.succs[p])
  }

  /** The edges `(src, dst)` of the graph: the keys of the edge-variable table. */
  function Edges(g: Graph): set<(Node, Node)> {
    set p, s | p in g.nodes && p in g.succs && s in g.succs[p] :: (p, s)
  }

  /** `getPredNodeCount`. */
  function PredCount(g: Graph, n: Node): nat
    requires n in g.preds
  {
    |g.preds[n]|
  }

  /** A variable slot: the IN or OUT value of a node, or the value on an edge. */
  datatype Slot = In(node: Node) | Out(node: Node) | Edge(src: Node, dst: Node)

  /**
   * The transfer-function provider of a dataflow problem. `F` is the type of
   * its unary operators; `isIdentity` is the operators' `isIdentity()`, and
   * `meetIsUnaryNoOp` the meet operator's `isUnaryNoOp()`.
   */
  datatype Provider<!F> = Provider(
    hasNodeTransferFunctions: bool,
    hasEdgeTransferFunctions: bool,
    nodeTransferFunction: Node -> F,
    edgeTransferFunction: (Node, Node) -> F,
    isIdentity: F -> bool,
    meetIsUnaryNoOp: bool)
}
