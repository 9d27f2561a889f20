/**
 * What the short circuits of `buildEquations` achieve: slots share a variable
 * exactly when the recorded unions put them in one class, every union the
 * optimisation justifies makes its two slots share a variable, and nothing
 * else is merged.
 */
module Aliasing {
  import opened Wrappers
  import opened FlowGraph
  import opened VariableTables
  import opened SlotLayout
  import opened UnionFind
  import opened ShortCircuit
  import opened DataflowEquations

  /** The preconditions of `buildEquations`: a valid graph and a layout of its fresh tables. */
  ghost predicate Setup<F>(g: Graph, p: Provider<F>, l: Layout) {
    Valid(g) && LaysOut(l, InitializeVariables(g, p))
  }

  /** Two numbered slots hold the same variable after `buildEquations` iff they share a class. */
  lemma AliasedIffSameClass<F>(g: Graph, p: Provider<F>, l: Layout, i: nat, j: nat)
    requires Setup(g, p, l) && i < Size(l) && j < Size(l)
    ensures var t := ShortCircuitedTables(g, p, l);
            var rep := Representatives(g, p, l);
            Lookup(t, SlotAt(l, i)) == Lookup(t, SlotAt(l, j)) <==> rep[i] == rep[j]
  {
    var t := ShortCircuitedTables(g, p, l);
    var rep := Representatives(g, p, l);
    if Lookup(t, SlotAt(l, i)) == Lookup(t, SlotAt(l, j)) {
      assert SlotAt(l, rep[i]) == SlotAt(l, rep[j]);
      SlotAtInjective(l, t, rep[i], rep[j]);
    }
  }

  /** Both slots of every recorded union hold the same variable after `buildEquations`. */
  lemma RecordedUnionAliases<F>(g: Graph, p: Provider<F>, l: Layout, k: nat)
    requires Setup(g, p, l) && k < |RecordedUnions(g, p)|
    ensures var t := ShortCircuitedTables(g, p, l);
            var u := RecordedUnions(g, p)[k];
            Has(t, u.0) && Lookup(t, u.0) == Lookup(t, u.1)
  {
    var pairs := UnionIndices(g, p, l);
    UnionAllJoins(Singletons(Size(l)), pairs);
    var i, j := pairs[k].0, pairs[k].1;
    AliasedIffSameClass(g, p, l, i, j);
  }

  /**
   * Every union the optimisation justifies — a unary meet, an identity node
   * function, an identity edge function — leaves its two slots sharing one
   * variable.
   */
  lemma JustifiedUnionAliases<F>(g: Graph, p: Provider<F>, l: Layout, u: (Slot, Slot))
    requires Setup(g, p, l) && Justified(g, p, u)
    ensures var t := ShortCircuitedTables(g, p, l);
            Has(t, u.0) && Lookup(t, u.0) == Lookup(t, u.1)
  {
    RecordedUnionsExactly(g, p, u);
    var us := RecordedUnions(g, p);
    var k :| 0 <= k < |us| && us[k] == u;
    RecordedUnionAliases(g, p, l, k);
  }

  /** An identity node function leaves IN(n) and OUT(n) the same variable. */
  lemma IdentityNodeAliases<F>(g: Graph, p: Provider<F>, l: Layout, n: Node)
    requires Setup(g, p, l) && n in g.nodes
    requires p.hasNodeTransferFunctions && p.isIdentity(p.nodeTransferFunction(n))
    ensures var t := ShortCircuitedTables(g, p, l);
            GetIn(t, n).Some? && GetIn(t, n) == GetOut(t, n)
  {
    var u := (In(n), Out(n));
    assert NodeIdentityJustified(g, p, u);
    JustifiedUnionAliases(g, p, l, u);
  }

  /** An identity edge function leaves edge(n, s) the same variable as the slot it reads. */
  lemma IdentityEdgeAliases<F>(g: Graph, p: Provider<F>, l: Layout, n: Node, s: Node)
    requires Setup(g, p, l) && n in g.nodes && s in g.succs[n]
    requires p.hasEdgeTransferFunctions && p.isIdentity(p.edgeTransferFunction(n, s))
    ensures var t := ShortCircuitedTables(g, p, l);
            GetEdgeBetween(t, n, s).Some?
            && GetEdgeBetween(t, n, s) == (if p.hasNodeTransferFunctions then GetOut(t, n) else GetIn(t, n))
  {
    var u := (Edge(n, s), SourceSlot(p, n));
    assert EdgeIdentityJustified(g, p, u);
    JustifiedUnionAliases(g, p, l, u);
  }

  /** When the meet is a no-op on one input, a single-predecessor node's IN is its predecessor's slot. */
  lemma UnaryMeetAliases<F>(g: Graph, p: Provider<F>, l: Layout, n: Node)
    requires Setup(g, p, l) && n in g.nodes && p.meetIsUnaryNoOp && PredCount(g, n) == 1
    ensures var t := ShortCircuitedTables(g, p, l);
            GetIn(t, n).Some? && GetIn(t, n) == Lookup(t, PredSlot(p, g.preds[n][0], n))
  {
    var u := (In(n), PredSlot(p, g.preds[n][0], n));
    assert UnaryMeetJustified(g, p, u);
    JustifiedUnionAliases(g, p, l, u);
  }

  /** A colouring of the numbered slots that gives the two slots of every justified union one colour. */
  ghost predicate RespectsJustified<F>(g: Graph, p: Provider<F>, l: Layout, colour: seq<int>)
    requires Valid(g)
  {
    && |colour| == Size(l)
    && forall i, j | 0 <= i < Size(l) && 0 <= j < Size(l) && Justified(g, p, (SlotAt(l, i), SlotAt(l, j))) ::
         colour[i] == colour[j]
  }

  /** A colouring that respects the justified unions gives the two slot numbers of a recorded union one colour. */
  lemma RecordedPairRespected<F>(g: Graph, p: Provider<F>, l: Layout, colour: seq<int>, k: nat)
    requires Setup(g, p, l) && RespectsJustified(g, p, l, colour) && k < |RecordedUnions(g, p)|
    ensures var pair := UnionIndices(g, p, l)[k];
            pair.0 < |colour| && pair.1 < |colour| && colour[pair.0] == colour[pair.1]
  {
    var pair := UnionIndices(g, p, l)[k];
    var u := RecordedUnions(g, p)[k];
    RecordedUnionsExactly(g, p, u);
    assert (SlotAt(l, pair.0), SlotAt(l, pair.1)) == u;
  }

  /**
   * The short circuits merge no more than the justified unions force: any
   * colouring that agrees on every justified union agrees on every two slots
   * that end up sharing a variable.
   */
  lemma AliasingIsFinest<F>(g: Graph, p: Provider<F>, l: Layout, colour: seq<int>, i: nat, j: nat)
    requires Setup(g, p, l) && RespectsJustified(g, p, l, colour) && i < Size(l) && j < Size(l)
    requires var t := ShortCircuitedTables(g, p, l); Lookup(t, SlotAt(l, i)) == Lookup(t, SlotAt(l, j))
    ensures colour[i] == colour[j]
  {
    var pairs := UnionIndices(g, p, l);
    forall k | 0 <= k < |pairs|
      ensures pairs[k].0 < |colour| && pairs[k].1 < |colour| && colour[pairs[k].0] == colour[pairs[k].1]
    {
      RecordedPairRespected(g, p, l, colour, k);
    }
    assert RespectsPairs(colour, pairs);
    UnionAllFinest(Singletons(Size(l)), pairs, colour);
    AliasedIffSameClass(g, p, l, i, j);
  }
}
