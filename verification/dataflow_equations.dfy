/**
 * `buildEquations`: the short-circuited variable tables, and the meet and
 * transfer statements emitted for what the short circuits leave.
 */
module DataflowEquations {
  import opened Wrappers
  import opened FlowGraph
  import opened VariableTables
  import opened SlotLayout
  import opened UnionFind
  import opened ShortCircuit

  /** The operator of a statement: the problem's meet, or a transfer function. */
  datatype Operator<F> = Meet | Transfer(f: F)

  /**
   * One dataflow equation `lhs = op(rhs)`. `defines` records the slot the
   * statement was emitted for; it is not part of the Java statement.
   */
  datatype Statement<F> = Statement(defines: Slot, op: Operator<F>, lhs: Variable, rhs: seq<Variable>)

  /** The slots the statements of `ss` were emitted for. */
  function Defined<F>(ss: seq<Statement<F>>): set<Slot> {
    set k | 0 <= k < |ss| :: ss[k].defines
  }

  lemma DefinedOfConcat<F>(a: seq<Statement<F>>, b: seq<Statement<F>>)
    ensures Defined(a + b) == Defined(a) + Defined(b)
    ensures |a| == 1 ==> Defined(a) == {a[0].defines}
  {
    var ab := a + b;
    forall x | x in Defined(ab)
      ensures x in Defined(a) + Defined(b)
    {
      var k :| 0 <= k < |ab| && ab[k].defines == x;
      if k >= |a| {
        assert ab[k] == b[k - |a|];
      }
    }
    forall x | x in Defined(b)
      ensures x in Defined(ab)
    {
      var k :| 0 <= k < |b| && b[k].defines == x;
      assert ab[k + |a|] == b[k];
    }
    forall x | x in Defined(a)
      ensures x in Defined(ab)
    {
      var k :| 0 <= k < |a| && a[k].defines == x;
      assert ab[k] == a[k];
    }
  }

  /** The tables hold every slot the graph and provider call for. */
  ghost predicate HoldsSlots<F>(g: Graph, p: Provider<F>, t: Tables) {
    && Valid(g)
    && forall n | n in g.nodes ::
         && Has(t, In(n))
         && (p.hasNodeTransferFunctions ==> Has(t, Out(n)))
         && (p.hasEdgeTransferFunctions ==> forall s | s in g.succs[n] :: Has(t, Edge(n, s)))
  }

  lemma PredSlotHeld<F>(g: Graph, p: Provider<F>, t: Tables, n: Node, pred: Node)
    requires HoldsSlots(g, p, t) && n in g.nodes && pred in g.preds[n]
    ensures Has(t, PredSlot(p, pred, n))
  {
    assert pred in g.nodes && n in g.succs[pred];
  }

  /** A meet statement is due for slot `s`: the IN slot of a node of `ns` with enough predecessors. */
  ghost predicate MeetEmitted<F>(g: Graph, p: Provider<F>, ns: seq<Node>, s: Slot) {
    s.In? && s.node in ns && s.node in g.preds && PredCount(g, s.node) >= MeetThreshold(p)
  }

  /** A node transfer statement is due for `s`: the OUT slot of a node of `ns` with a non-identity function. */
  ghost predicate NodeTransferEmitted<F>(p: Provider<F>, ns: seq<Node>, s: Slot) {
    s.Out? && s.node in ns && !p.isIdentity(p.nodeTransferFunction(s.node))
  }

  /** An edge transfer statement is due for `s`: an edge leaving a node of `ns` with a non-identity function. */
  ghost predicate EdgeTransferEmitted<F>(g: Graph, p: Provider<F>, ns: seq<Node>, s: Slot) {
    && s.Edge? && s.src in ns && s.src in g.succs && s.dst in g.succs[s.src]
    && !p.isIdentity(p.edgeTransferFunction(s.src, s.dst))
  }

  /** The statements `buildEquations` emits are for exactly these slots. */
  ghost predicate Emitted<F>(g: Graph, p: Provider<F>, s: Slot) {
    || MeetEmitted(g, p, g.nodes, s)
    || (p.hasNodeTransferFunctions && NodeTransferEmitted(p, g.nodes, s))
    || (p.hasEdgeTransferFunctions && EdgeTransferEmitted(g, p, g.nodes, s))
  }

  /** The meet threshold: 2 when single-predecessor meets were short-circuited, else 1. */
  function MeetThreshold<F>(p: Provider<F>): nat {
    if p.meetIsUnaryNoOp then 2 else 1
  }

  /** The meet statement for node `n`: IN(n) = meet of one variable per predecessor. */
  function MeetFor<F>(g: Graph, p: Provider<F>, t: Tables, n: Node): Statement<F>
    requires HoldsSlots(g, p, t) && n in g.nodes
  {
    var ps := g.preds[n];
    Statement(In(n), Meet, Get(t, In(n)),
      seq(|ps|, k requires 0 <= k < |ps| =>
        PredSlotHeld(g, p, t, n, ps[k]);
        Get(t, PredSlot(p, ps[k], n))))
  }

  /** The meet statements for the nodes `ns`, in iteration order. */
  function MeetStatements<F>(g: Graph, p: Provider<F>, t: Tables, ns: seq<Node>): (r: seq<Statement<F>>)
    requires HoldsSlots(g, p, t) && forall n | n in ns :: n in g.nodes
    ensures forall k | 0 <= k < |r| ::
              && r[k].defines.In? && r[k].defines.node in ns
              && PredCount(g, r[k].defines.node) >= MeetThreshold(p)
              && r[k] == MeetFor(g, p, t, r[k].defines.node)
    ensures forall s :: s in Defined(r) <==> MeetEmitted(g, p, ns, s)
  {
    if ns == [] then []
    else
      var n := ns[0];
      var rest := MeetStatements(g, p, t, ns[1..]);
      if PredCount(g, n) >= MeetThreshold(p) then
        var r := [MeetFor(g, p, t, n)] + rest;
        DefinedOfConcat([r[0]], rest);
        assert [r[0]] + rest == r;
        r
      else
        rest
  }

  /** The node transfer statement for `n`: OUT(n) = f(IN(n)). */
  function NodeTransferFor<F>(g: Graph, p: Provider<F>, t: Tables, n: Node): Statement<F>
    requires HoldsSlots(g, p, t) && n in g.nodes && p.hasNodeTransferFunctions
  {
    Statement(Out(n), Transfer(p.nodeTransferFunction(n)), Get(t, Out(n)), [Get(t, In(n))])
  }

  /** The node transfer statements for the nodes `ns` whose function is not the identity. */
  function NodeTransferStatements<F>(g: Graph, p: Provider<F>, t: Tables, ns: seq<Node>): (r: seq<Statement<F>>)
    requires HoldsSlots(g, p, t) && p.hasNodeTransferFunctions && forall n | n in ns :: n in g.nodes
    ensures forall k | 0 <= k < |r| ::
              && r[k].defines.Out? && r[k].defines.node in ns
              && !p.isIdentity(p.nodeTransferFunction(r[k].defines.node))
              && r[k] == NodeTransferFor(g, p, t, r[k].defines.node)
    ensures forall s :: s in Defined(r) <==> NodeTransferEmitted(p, ns, s)
  {
    if ns == [] then []
    else
      var n := ns[0];
      var rest := NodeTransferStatements(g, p, t, ns[1..]);
      if !p.isIdentity(p.nodeTransferFunction(n)) then
        var r := [NodeTransferFor(g, p, t, n)] + rest;
        DefinedOfConcat([r[0]], rest);
        assert [r[0]] + rest == r;
        r
      else
        rest
  }

  /** The edge transfer statement for edge (n, s): edge(n, s) = f(OUT(n)), or f(IN(n)) without node functions. */
  function EdgeTransferFor<F>(g: Graph, p: Provider<F>, t: Tables, n: Node, s: Node): Statement<F>
    requires HoldsSlots(g, p, t) && n in g.nodes && s in g.succs[n] && p.hasEdgeTransferFunctions
  {
    Statement(Edge(n, s), Transfer(p.edgeTransferFunction(n, s)), Get(t, Edge(n, s)), [Get(t, SourceSlot(p, n))])
  }

  /** The edge transfer statements for the edges from `n` to each of `succs`. */
  function EdgeTransferStatementsFrom<F>(g: Graph, p: Provider<F>, t: Tables, n: Node, succs: seq<Node>)
    : (r: seq<Statement<F>>)
    requires HoldsSlots(g, p, t) && p.hasEdgeTransferFunctions && n in g.nodes
    requires forall s | s in succs :: s in g.succs[n]
    ensures forall k | 0 <= k < |r| ::
              && r[k].defines.Edge? && r[k].defines.src == n && r[k].defines.dst in succs
              && !p.isIdentity(p.edgeTransferFunction(n, r[k].defines.dst))
              && r[k] == EdgeTransferFor(g, p, t, n, r[k].defines.dst)
    ensures forall x :: x in Defined(r) <==>
              x.Edge? && x.src == n && x.dst in succs && !p.isIdentity(p.edgeTransferFunction(n, x.dst))
  {
    if succs == [] then []
    else
      var s := succs[0];
      var rest := EdgeTransferStatementsFrom(g, p, t, n, succs[1..]);
      if !p.isIdentity(p.edgeTransferFunction(n, s)) then
        var r := [EdgeTransferFor(g, p, t, n, s)] + rest;
        DefinedOfConcat([r[0]], rest);
        assert [r[0]] + rest == r;
        r
      else
        rest
  }

  /** The edge transfer statements for every edge leaving one of `ns`. */
  function EdgeTransferStatements<F>(g: Graph, p: Provider<F>, t: Tables, ns: seq<Node>): (r: seq<Statement<F>>)
    requires HoldsSlots(g, p, t) && p.hasEdgeTransferFunctions && forall n | n in ns :: n in g.nodes
    ensures forall k | 0 <= k < |r| ::
              && r[k].defines.Edge? && r[k].defines.src in ns && r[k].defines.dst in g.succs[r[k].defines.src]
              && !p.isIdentity(p.edgeTransferFunction(r[k].defines.src, r[k].defines.dst))
              && r[k] == EdgeTransferFor(g, p, t, r[k].defines.src, r[k].defines.dst)
    ensures forall s :: s in Defined(r) <==> EdgeTransferEmitted(g, p, ns, s)
  {
    if ns == [] then []
    else
      var n := ns[0];
      var here := EdgeTransferStatementsFrom(g, p, t, n, g.succs[n]);
      var rest := EdgeTransferStatements(g, p, t, ns[1..]);
      DefinedOfConcat(here, rest);
      here + rest
  }

  /** Tables with the keys `initializeVariables` creates hold every slot the graph calls for. */
  lemma InitialKeysHoldSlots<F>(g: Graph, p: Provider<F>, t: Tables)
    requires Valid(g)
    requires forall n :: n in t.inVars <==> n in g.nodes
    requires forall n :: n in t.outVars <==> p.hasNodeTransferFunctions && n in g.nodes
    requires forall a, b :: (a, b) in t.edgeVars <==> p.hasEdgeTransferFunctions && (a, b) in Edges(g)
    ensures HoldsSlots(g, p, t)
  {
    forall n, s | n in g.nodes && s in g.succs[n]
      ensures (n, s) in Edges(g)
    {
      assert n in g.succs;
    }
  }

  /** The slot numbers of the pairs of slots `us`. */
  function IndexPairs(l: Layout, us: seq<(Slot, Slot)>): (r: seq<(nat, nat)>)
    requires forall k | 0 <= k < |us| :: Numbers(l, us[k].0) && Numbers(l, us[k].1)
    ensures |r| == |us| && PairsWithin(r, Size(l))
    ensures forall k | 0 <= k < |r| :: SlotAt(l, r[k].0) == us[k].0 && SlotAt(l, r[k].1) == us[k].1
  {
    seq(|us|, k requires 0 <= k < |us| => (IndexOf(l, us[k].0), IndexOf(l, us[k].1)))
  }

  /** The slot numbers of the recorded unions, in the order they were recorded. */
  function UnionIndices<F>(g: Graph, p: Provider<F>, l: Layout): (r: seq<(nat, nat)>)
    requires Valid(g) && LaysOut(l, InitializeVariables(g, p))
    ensures |r| == |RecordedUnions(g, p)| && PairsWithin(r, Size(l))
    ensures forall k | 0 <= k < |r| ::
              && SlotAt(l, r[k].0) == RecordedUnions(g, p)[k].0
              && SlotAt(l, r[k].1) == RecordedUnions(g, p)[k].1
  {
    RecordedUnionsNumbered(g, p, l);
    IndexPairs(l, RecordedUnions(g, p))
  }

  /** The union-find after every recorded union. */
  function Representatives<F>(g: Graph, p: Provider<F>, l: Layout): (rep: seq<nat>)
    requires Valid(g) && LaysOut(l, InitializeVariables(g, p))
    ensures RepresentsLayout(rep, l)
  {
    UnionAll(Singletons(Size(l)), UnionIndices(g, p, l))
  }

  /**
   * The variable tables `buildEquations` leaves behind: the fresh tables, with
   * every slot redirected to its representative's variable when some union
   * was recorded.
   */
  function ShortCircuitedTables<F>(g: Graph, p: Provider<F>, l: Layout): (t: Tables)
    requires Valid(g) && LaysOut(l, InitializeVariables(g, p))
    ensures LaysOut(l, t) && HoldsSlots(g, p, t)
    ensures forall i | 0 <= i < Size(l) ::
              Lookup(t, SlotAt(l, i)) == Some(Fresh(SlotAt(l, Representatives(g, p, l)[i])))
  {
    var t0 := InitializeVariables(g, p);
    var rep := Representatives(g, p, l);
    InitialLookupsFresh(g, p, l);
    InitialKeysHoldSlots(g, p, t0);
    if |RecordedUnions(g, p)| > 0 then
      RedirectFresh(t0, l, rep);
      SameKeysHoldSlots(g, p, t0, Redirect(t0, l, rep));
      Redirect(t0, l, rep)
    else
      NoUnionsSingletons(g, p, l);
      t0
  }

  /** Redirecting tables whose slots hold their own fresh variables gives each slot its representative's. */
  lemma RedirectFresh(t0: Tables, l: Layout, rep: seq<nat>)
    requires LaysOut(l, t0) && RepresentsLayout(rep, l)
    requires forall i | 0 <= i < Size(l) :: Lookup(t0, SlotAt(l, i)) == Some(Fresh(SlotAt(l, i)))
    ensures forall i | 0 <= i < Size(l) ::
              Lookup(Redirect(t0, l, rep), SlotAt(l, i)) == Some(Fresh(SlotAt(l, rep[i])))
  {
  }

  /** Tables with the key sets of tables that hold every slot of `g` hold them too. */
  lemma SameKeysHoldSlots<F>(g: Graph, p: Provider<F>, t0: Tables, t: Tables)
    requires HoldsSlots(g, p, t0)
    requires t.inVars.Keys == t0.inVars.Keys && t.outVars.Keys == t0.outVars.Keys
    requires t.edgeVars.Keys == t0.edgeVars.Keys
    ensures HoldsSlots(g, p, t)
  {
    assert forall n :: n in t.inVars <==> n in t0.inVars;
    assert forall n :: n in t.outVars <==> n in t0.outVars;
    assert forall e :: e in t.edgeVars <==> e in t0.edgeVars;
  }

  /** With no unions recorded every slot is its own representative. */
  lemma NoUnionsSingletons<F>(g: Graph, p: Provider<F>, l: Layout)
    requires Valid(g) && LaysOut(l, InitializeVariables(g, p))
    requires |RecordedUnions(g, p)| == 0
    ensures forall i | 0 <= i < Size(l) :: Representatives(g, p, l)[i] == i
  {
    assert UnionIndices(g, p, l) == [];
  }

  /** Before any redirection, every numbered slot holds the variable created for it. */
  lemma InitialLookupsFresh<F>(g: Graph, p: Provider<F>, l: Layout)
    requires Valid(g) && LaysOut(l, InitializeVariables(g, p))
    ensures forall i | 0 <= i < Size(l) ::
              Lookup(InitializeVariables(g, p), SlotAt(l, i)) == Some(Fresh(SlotAt(l, i)))
  {
    LaidOutSlotsHeld(l, InitializeVariables(g, p));
  }

  /** The statements and tables `buildEquations` produces. */
  datatype Equations<F> = Equations(tables: Tables, statements: seq<Statement<F>>)

  /**
   * `buildEquations`: meet statements first, then node transfer statements,
   * then edge transfer statements, all over the short-circuited tables. A
   * statement is emitted for IN(n) iff n has at least the meet threshold of
   * predecessors, for OUT(n) iff node functions exist and n's is not the
   * identity, and for edge (n, s) iff edge functions exist and its function
   * is not the identity.
   */
  function BuildEquations<F>(g: Graph, p: Provider<F>, l: Layout): (e: Equations<F>)
    requires Valid(g) && LaysOut(l, InitializeVariables(g, p))
    ensures e.tables == ShortCircuitedTables(g, p, l)
    ensures forall s :: s in Defined(e.statements) <==> Emitted(g, p, s)
  {
    var t := ShortCircuitedTables(g, p, l);
    var meets := MeetStatements(g, p, t, g.nodes);
    var nodes := if p.hasNodeTransferFunctions then NodeTransferStatements(g, p, t, g.nodes) else [];
    var edges := if p.hasEdgeTransferFunctions then EdgeTransferStatements(g, p, t, g.nodes) else [];
    DefinedOfConcat(meets, nodes);
    DefinedOfConcat(meets + nodes, edges);
    Equations(t, meets + nodes + edges)
  }
}
