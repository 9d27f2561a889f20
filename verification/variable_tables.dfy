/**
 * The three variable tables of the solver (IN per node, OUT per node, one
 * variable per edge), their creation, and the accessors `getIn`, `getOut`
 * and `getEdge`.
 */
module VariableTables {
  import opened Wrappers
  import opened FlowGraph

  /**
   * A lattice variable, identified by the slot for which `makeNodeVariable` or
   * `makeEdgeVariable` created it: every created variable is a fresh object.
   */
  datatype Variable = Fresh(origin: Slot)

  datatype Tables = Tables(
    inVars: map<Node, Variable>,
    outVars: map<Node, Variable>,
    edgeVars: map<(Node, Node), Variable>)

  /** Whether the table for `s`'s kind has an entry for `s`. */
  predicate Has(t: Tables, s: Slot) {
    match s
    case In(n) => n in t.inVars
    case Out(n) => n in t.outVars
    case Edge(a, b) => (a, b) in t.edgeVars
  }

  /** The generic accessor: the variable stored for a slot, or `None` (null). */
  function Lookup(t: Tables, s: Slot): (r: Option<Variable>)
    ensures r.Some? <==> Has(t, s)
  {
    match s
    case In(n) => if n in t.inVars then Some(t.inVars[n]) else None
    case Out(n) => if n in t.outVars then Some(t.outVars[n]) else None
    case Edge(a, b) => if (a, b) in t.edgeVars then Some(t.edgeVars[(a, b)]) else None
  }

  function Get(t: Tables, s: Slot): Variable
    requires Has(t, s)
  {
    Lookup(t, s).value
  }

  /** `put` into the table for `s`'s kind. */
  function Put(t: Tables, s: Slot, v: Variable): (r: Tables)
    ensures Lookup(r, s) == Some(v)
    ensures forall s' | s' != s :: Lookup(r, s') == Lookup(t, s')
  {
    match s
    case In(n) => t.(inVars := t.inVars[n := v])
    case Out(n) => t.(outVars := t.outVars[n := v])
    case Edge(a, b) => t.(edgeVars := t.edgeVars[(a, b) := v])
  }

  /** Putting a slot's own fresh variable keeps every entry fresh. */
  lemma PutKeepsFresh(t: Tables, s: Slot)
    requires forall s' | Has(t, s') :: Get(t, s') == Fresh(s')
    ensures forall s' | Has(Put(t, s, Fresh(s)), s') :: Get(Put(t, s, Fresh(s)), s') == Fresh(s')
  {
    var r := Put(t, s, Fresh(s));
    forall s' | Has(r, s')
      ensures Get(r, s') == Fresh(s')
    {
      if s' != s {
        assert Lookup(r, s') == Lookup(t, s');
      }
    }
  }

  /** `getIn`. */
  function GetIn(t: Tables, node: Node): Option<Variable> {
    Lookup(t, In(node))
  }

  /** `getOut`. */
  function GetOut(t: Tables, node: Node): Option<Variable> {
    Lookup(t, Out(node))
  }

  /** `getEdge(key)`, keyed by the pair `(src, dst)`. */
  function GetEdge(t: Tables, key: (Node, Node)): Option<Variable> {
    Lookup(t, Edge(key.0, key.1))
  }

  /** `getEdge(src, dst)`, which builds the pair key and defers to `getEdge(key)`. */
  function GetEdgeBetween(t: Tables, src: Node, dst: Node): (r: Option<Variable>)
    ensures r == GetEdge(t, (src, dst))
    ensures r.Some? <==> (src, dst) in t.edgeVars
    ensures r.Some? ==> r.value == t.edgeVars[(src, dst)]
  {
    GetEdge(t, (src, dst))
  }

  /**
   * The accessors are plain lookups: a key the table does not hold yields
   * `None`, never a default variable, and a held key yields exactly its entry.
   */
  lemma AccessorsAreLookups(t: Tables, node: Node, src: Node, dst: Node)
    ensures GetIn(t, node) == (if node in t.inVars then Some(t.inVars[node]) else None)
    ensures GetOut(t, node) == (if node in t.outVars then Some(t.outVars[node]) else None)
    ensures GetEdgeBetween(t, src, dst)
         == (if (src, dst) in t.edgeVars then Some(t.edgeVars[(src, dst)]) else None)
  {
  }

  /** The entries `initializeVariables` adds for one node `n`. */
  function AddNode<F>(g: Graph, p: Provider<F>, t: Tables, n: Node): (r: Tables)
    requires n in g.succs
    requires forall s | Has(t, s) :: Get(t, s) == Fresh(s)
    ensures forall m :: m in r.inVars <==> m in t.inVars || m == n
    ensures forall m :: m in r.outVars <==> m in t.outVars || (p.hasNodeTransferFunctions && m == n)
    ensures forall a, b :: (a, b) in r.edgeVars <==>
              (a, b) in t.edgeVars || (p.hasEdgeTransferFunctions && a == n && b in g.succs[n])
    ensures forall s | Has(r, s) :: Get(r, s) == Fresh(s)
  {
    var t1 := Put(t, In(n), Fresh(In(n)));
    PutKeepsFresh(t, In(n));
    var t2 := if p.hasNodeTransferFunctions then Put(t1, Out(n), Fresh(Out(n))) else t1;
    PutKeepsFresh(t1, Out(n));
    if p.hasEdgeTransferFunctions then AddEdges(t2, n, g.succs[n]) else t2
  }

  /** A fresh variable for each edge from `n` to one of `succs`. */
  function AddEdges(t: Tables, n: Node, succs: seq<Node>): (r: Tables)
    requires forall s | Has(t, s) :: Get(t, s) == Fresh(s)
    ensures r.inVars == t.inVars && r.outVars == t.outVars
    ensures forall a, b :: (a, b) in r.edgeVars <==> (a, b) in t.edgeVars || (a == n && b in succs)
    ensures forall s | Has(r, s) :: Get(r, s) == Fresh(s)
  {
    var r := t.(edgeVars := t.edgeVars + map s | s in succs :: (n, s) := Fresh(Edge(n, s)));
    AddEdgesFresh(t, n, succs, r);
    r
  }

  lemma AddEdgesFresh(t: Tables, n: Node, succs: seq<Node>, r: Tables)
    requires forall s | Has(t, s) :: Get(t, s) == Fresh(s)
    requires r == t.(edgeVars := t.edgeVars + map s | s in succs :: (n, s) := Fresh(Edge(n, s)))
    ensures forall s | Has(r, s) :: Get(r, s) == Fresh(s)
  {
    forall s | Has(r, s)
      ensures Get(r, s) == Fresh(s)
    {
      if s.Edge? && s.src == n && s.dst in succs {
        assert r.edgeVars[(n, s.dst)] == Fresh(Edge(n, s.dst));
      } else {
        assert Has(t, s);
      }
    }
  }

  /**
   * The tables after `initializeVariables` has visited the first `k` nodes:
   * an IN variable for each, an OUT variable for each when the provider has
   * node transfer functions, and a variable for each of their outgoing edges
   * when it has edge transfer functions; every entry is a fresh variable.
   */
  function InitializeFirst<F>(g: Graph, p: Provider<F>, k: nat): (t: Tables)
    requires Valid(g) && k <= |g.nodes|
    ensures forall n :: n in t.inVars <==> n in g.nodes[..k]
    ensures forall n :: n in t.outVars <==> p.hasNodeTransferFunctions && n in g.nodes[..k]
    ensures forall a, b :: (a, b) in t.edgeVars <==>
              p.hasEdgeTransferFunctions && a in g.nodes[..k] && a in g.succs && b in g.succs[a]
    ensures forall s | Has(t, s) :: Get(t, s) == Fresh(s)
  {
    if k == 0 then Tables(map[], map[], map[])
    else
      var t := InitializeFirst(g, p, k - 1);
      var n := g.nodes[k - 1];
      assert g.nodes[..k] == g.nodes[..k - 1] + [n];
      AddNode(g, p, t, n)
  }

  /** `initializeVariables`: the tables after visiting every node of the graph. */
  function InitializeVariables<F>(g: Graph, p: Provider<F>): (t: Tables)
    requires Valid(g)
    ensures forall n :: n in t.inVars <==> n in g.nodes
    ensures forall n :: n in t.outVars <==> p.hasNodeTransferFunctions && n in g.nodes
    ensures forall a, b :: (a, b) in t.edgeVars <==> p.hasEdgeTransferFunctions && (a, b) in Edges(g)
    ensures forall s | Has(t, s) :: Get(t, s) == Fresh(s)
  {
    assert g.nodes[..|g.nodes|] == g.nodes;
    InitializeFirst(g, p, |g.nodes|)
  }
}
