/**
 * The short-circuit optimisation of the equation builder: the unions recorded
 * for unary meets and identity transfer functions (`shortCircuitUnaryMeets`,
 * `shortCircuitIdentities`), and the redirection of every slot to its class
 * representative's variable (`fixShortCircuits`).
 */
module ShortCircuit {
  import opened Wrappers
  import opened FlowGraph
  import opened VariableTables
  import opened SlotLayout
  import opened UnionFind

  /**
   * The slot whose value flows from predecessor `p` into node `n`: the edge
   * variable when the provider has edge transfer functions, else OUT(p), else
   * (no OUT variables exist) IN(p). See `PredVariableAsWritten` for the Java
   * code's choice in the last case.
   */
  function PredSlot<F>(p: Provider<F>, pred: Node, n: Node): Slot {
    if p.hasEdgeTransferFunctions then Edge(pred, n)
    else if p.hasNodeTransferFunctions then Out(pred)
    else In(pred)
  }

  /**
   * The variable the Java code reads for predecessor `pred` of `n`:
   * `getEdge(pred, n)` with edge transfer functions, else `getOut(pred)`.
   */
  function PredVariableAsWritten<F>(t: Tables, p: Provider<F>, pred: Node, n: Node): Option<Variable> {
    if p.hasEdgeTransferFunctions then GetEdgeBetween(t, pred, n) else GetOut(t, pred)
  }

  /**
   * As written, a provider with neither node nor edge transfer functions makes
   * every predecessor variable null: the tables hold no OUT variables.
   */
  lemma PredVariableAsWrittenIsNull<F>(g: Graph, p: Provider<F>, pred: Node, n: Node)
    requires Valid(g) && pred in g.nodes && n in g.nodes && pred in g.preds[n]
    requires !p.hasNodeTransferFunctions && !p.hasEdgeTransferFunctions
    ensures PredVariableAsWritten(InitializeVariables(g, p), p, pred, n) == None
  {
  }

  /** With the corrected choice, every predecessor slot of a valid graph has a variable. */
  lemma PredSlotIsHeld<F>(g: Graph, p: Provider<F>, pred: Node, n: Node)
    requires Valid(g) && n in g.nodes && pred in g.preds[n]
    ensures Has(InitializeVariables(g, p), PredSlot(p, pred, n))
    ensures !p.hasEdgeTransferFunctions && p.hasNodeTransferFunctions ==>
              Lookup(InitializeVariables(g, p), PredSlot(p, pred, n)) == PredVariableAsWritten(InitializeVariables(g, p), p, pred, n)
    ensures p.hasEdgeTransferFunctions ==>
              Lookup(InitializeVariables(g, p), PredSlot(p, pred, n)) == PredVariableAsWritten(InitializeVariables(g, p), p, pred, n)
  {
    assert pred in g.nodes && n in g.succs[pred];
    assert pred in g.succs;
  }

  /** The slot an edge transfer function reads: OUT of the source with node functions, else IN. */
  function SourceSlot<F>(p: Provider<F>, n: Node): Slot {
    if p.hasNodeTransferFunctions then Out(n) else In(n)
  }

  /**
   * `shortCircuitUnaryMeets` over the nodes `ns`: a node with exactly one
   * predecessor has its IN slot unioned with that predecessor's slot.
   */
  function UnaryMeetUnions<F>(g: Graph, p: Provider<F>, ns: seq<Node>): (r: seq<(Slot, Slot)>)
    requires forall n | n in ns :: n in g.preds
    ensures forall k | 0 <= k < |r| ::
              && r[k].0.In? && r[k].0.node in ns
              && PredCount(g, r[k].0.node) == 1
              && r[k].1 == PredSlot(p, g.preds[r[k].0.node][0], r[k].0.node)
    ensures forall n | n in ns && PredCount(g, n) == 1 :: (In(n), PredSlot(p, g.preds[n][0], n)) in r
  {
    if ns == [] then []
    else
      var n := ns[0];
      var rest := UnaryMeetUnions(g, p, ns[1..]);
      if PredCount(g, n) == 1 then [(In(n), PredSlot(p, g.preds[n][0], n))] + rest else rest
  }

  /** The node half of `shortCircuitIdentities`: an identity node function unions IN(n) with OUT(n). */
  function NodeIdentityUnions<F>(p: Provider<F>, ns: seq<Node>): (r: seq<(Slot, Slot)>)
    requires p.hasNodeTransferFunctions
    ensures forall k | 0 <= k < |r| ::
              && r[k].0.In? && r[k] == (In(r[k].0.node), Out(r[k].0.node))
              && r[k].0.node in ns
              && p.isIdentity(p.nodeTransferFunction(r[k].0.node))
    ensures forall n | n in ns && p.isIdentity(p.nodeTransferFunction(n)) :: (In(n), Out(n)) in r
  {
    if ns == [] then []
    else
      var n := ns[0];
      var rest := NodeIdentityUnions(p, ns[1..]);
      if p.isIdentity(p.nodeTransferFunction(n)) then [(In(n), Out(n))] + rest else rest
  }

  /** Identity functions on the edges from `n` to each of `succs`. */
  function EdgeIdentityUnionsFrom<F>(p: Provider<F>, n: Node, succs: seq<Node>): (r: seq<(Slot, Slot)>)
    ensures forall k | 0 <= k < |r| ::
              && r[k].0.Edge? && r[k].0.src == n && r[k].0.dst in succs
              && r[k].1 == SourceSlot(p, n)
              && p.isIdentity(p.edgeTransferFunction(n, r[k].0.dst))
    ensures forall s | s in succs && p.isIdentity(p.edgeTransferFunction(n, s)) ::
              (Edge(n, s), SourceSlot(p, n)) in r
  {
    if succs == [] then []
    else
      var s := succs[0];
      var rest := EdgeIdentityUnionsFrom(p, n, succs[1..]);
      if p.isIdentity(p.edgeTransferFunction(n, s)) then [(Edge(n, s), SourceSlot(p, n))] + rest else rest
  }

  /**
   * The edge half of `shortCircuitIdentities`: an identity edge function unions
   * edge(n, s) with OUT(n) when node functions exist, else with IN(n).
   */
  function EdgeIdentityUnions<F>(g: Graph, p: Provider<F>, ns: seq<Node>): (r: seq<(Slot, Slot)>)
    requires forall n | n in ns :: n in g.succs
    ensures forall k | 0 <= k < |r| ::
              && r[k].0.Edge? && r[k].0.src in ns && r[k].0.dst in g.succs[r[k].0.src]
              && r[k].1 == SourceSlot(p, r[k].0.src)
              && p.isIdentity(p.edgeTransferFunction(r[k].0.src, r[k].0.dst))
    ensures forall n, s | n in ns && s in g.succs[n] && p.isIdentity(p.edgeTransferFunction(n, s)) ::
              (Edge(n, s), SourceSlot(p, n)) in r
  {
    if ns == [] then []
    else
      var rest := EdgeIdentityUnions(g, p, ns[1..]);
      EdgeIdentityUnionsFrom(p, ns[0], g.succs[ns[0]]) + rest
  }

  /** `shortCircuitIdentities`. */
  function IdentityUnions<F>(g: Graph, p: Provider<F>): seq<(Slot, Slot)>
    requires Valid(g)
  {
    (if p.hasNodeTransferFunctions then NodeIdentityUnions(p, g.nodes) else [])
    + (if p.hasEdgeTransferFunctions then EdgeIdentityUnions(g, p, g.nodes) else [])
  }

  /** Every union `buildEquations` records, in order: unary meets (when the meet allows it), then identities. */
  function RecordedUnions<F>(g: Graph, p: Provider<F>): seq<(Slot, Slot)>
    requires Valid(g)
  {
    (if p.meetIsUnaryNoOp then UnaryMeetUnions(g, p, g.nodes) else []) + IdentityUnions(g, p)
  }

  /** A unary-meet union: IN(n) of a single-predecessor node with that predecessor's slot. */
  ghost predicate UnaryMeetJustified<F>(g: Graph, p: Provider<F>, u: (Slot, Slot))
    requires Valid(g)
  {
    && u.0.In? && u.0.node in g.nodes && PredCount(g, u.0.node) == 1
    && u.1 == PredSlot(p, g.preds[u.0.node][0], u.0.node)
  }

  /** An identity-node union: IN(n) with OUT(n) for an identity node function. */
  ghost predicate NodeIdentityJustified<F>(g: Graph, p: Provider<F>, u: (Slot, Slot)) {
    && u.0.In? && u.0.node in g.nodes
    && p.isIdentity(p.nodeTransferFunction(u.0.node)) && u.1 == Out(u.0.node)
  }

  /** An identity-edge union: edge(n, s) with the slot its function reads, for an identity edge function. */
  ghost predicate EdgeIdentityJustified<F>(g: Graph, p: Provider<F>, u: (Slot, Slot))
    requires Valid(g)
  {
    && u.0.Edge? && u.0.src in g.nodes && u.0.dst in g.succs[u.0.src]
    && p.isIdentity(p.edgeTransferFunction(u.0.src, u.0.dst)) && u.1 == SourceSlot(p, u.0.src)
  }

  /** A union is recorded between two slots exactly in the cases the optimisation covers. */
  ghost predicate Justified<F>(g: Graph, p: Provider<F>, u: (Slot, Slot))
    requires Valid(g)
  {
    || (p.meetIsUnaryNoOp && UnaryMeetJustified(g, p, u))
    || (p.hasNodeTransferFunctions && NodeIdentityJustified(g, p, u))
    || (p.hasEdgeTransferFunctions && EdgeIdentityJustified(g, p, u))
  }

  /**
   * The recorded unions are exactly the justified ones: unary-meet unions only
   * when the meet is a unary no-op and only for single-predecessor nodes, and
   * identity unions only for identity node and edge functions.
   */
  lemma RecordedUnionsExactly<F>(g: Graph, p: Provider<F>, u: (Slot, Slot))
    requires Valid(g)
    ensures u in RecordedUnions(g, p) <==> Justified(g, p, u)
  {
    var um := if p.meetIsUnaryNoOp then UnaryMeetUnions(g, p, g.nodes) else [];
    var ni := if p.hasNodeTransferFunctions then NodeIdentityUnions(p, g.nodes) else [];
    var ei := if p.hasEdgeTransferFunctions then EdgeIdentityUnions(g, p, g.nodes) else [];
    assert RecordedUnions(g, p) == um + (ni + ei);
    if p.meetIsUnaryNoOp {
      UnaryMeetUnionsExactly(g, p, u);
    }
    if p.hasNodeTransferFunctions {
      NodeIdentityUnionsExactly(g, p, u);
    }
    if p.hasEdgeTransferFunctions {
      EdgeIdentityUnionsExactly(g, p, u);
    }
  }

  lemma UnaryMeetUnionsExactly<F>(g: Graph, p: Provider<F>, u: (Slot, Slot))
    requires Valid(g)
    ensures u in UnaryMeetUnions(g, p, g.nodes) <==> UnaryMeetJustified(g, p, u)
  {
    var um := UnaryMeetUnions(g, p, g.nodes);
    if u in um {
      var k :| 0 <= k < |um| && um[k] == u;
    }
  }

  lemma NodeIdentityUnionsExactly<F>(g: Graph, p: Provider<F>, u: (Slot, Slot))
    requires Valid(g) && p.hasNodeTransferFunctions
    ensures u in NodeIdentityUnions(p, g.nodes) <==> NodeIdentityJustified(g, p, u)
  {
    var ni := NodeIdentityUnions(p, g.nodes);
    if u in ni {
      var k :| 0 <= k < |ni| && ni[k] == u;
    }
  }

  lemma EdgeIdentityUnionsExactly<F>(g: Graph, p: Provider<F>, u: (Slot, Slot))
    requires Valid(g)
    ensures u in EdgeIdentityUnions(g, p, g.nodes) <==> EdgeIdentityJustified(g, p, u)
  {
    var ei := EdgeIdentityUnions(g, p, g.nodes);
    if u in ei {
      var k :| 0 <= k < |ei| && ei[k] == u;
    }
  }

  /** Every slot named by a recorded union is numbered by a layout of the initial tables. */
  lemma RecordedUnionsNumbered<F>(g: Graph, p: Provider<F>, l: Layout)
    requires Valid(g) && LaysOut(l, InitializeVariables(g, p))
    ensures forall k | 0 <= k < |RecordedUnions(g, p)| ::
              Numbers(l, RecordedUnions(g, p)[k].0) && Numbers(l, RecordedUnions(g, p)[k].1)
  {
    var us := RecordedUnions(g, p);
    var t := InitializeVariables(g, p);
    RecordedUnionsHeld(g, p);
    forall k | 0 <= k < |us|
      ensures Numbers(l, us[k].0) && Numbers(l, us[k].1)
    {
      NumbersExactlyTheTables(l, t, us[k].0);
      NumbersExactlyTheTables(l, t, us[k].1);
    }
  }

  /** Every slot named by a recorded union has a variable in the initial tables. */
  lemma RecordedUnionsHeld<F>(g: Graph, p: Provider<F>)
    requires Valid(g)
    ensures forall k | 0 <= k < |RecordedUnions(g, p)| ::
              && Has(InitializeVariables(g, p), RecordedUnions(g, p)[k].0)
              && Has(InitializeVariables(g, p), RecordedUnions(g, p)[k].1)
  {
    var us := RecordedUnions(g, p);
    var t := InitializeVariables(g, p);
    forall k | 0 <= k < |us|
      ensures Has(t, us[k].0) && Has(t, us[k].1)
    {
      var u := us[k];
      RecordedUnionsExactly(g, p, u);
      if p.meetIsUnaryNoOp && UnaryMeetJustified(g, p, u) {
        PredSlotIsHeld(g, p, g.preds[u.0.node][0], u.0.node);
      } else if p.hasEdgeTransferFunctions && EdgeIdentityJustified(g, p, u) {
        assert u.0.src in g.succs && (u.0.src, u.0.dst) in Edges(g);
      }
    }
  }

  /** Every numbered slot has a variable in tables the layout numbers. */
  lemma LaidOutSlotsHeld(l: Layout, t: Tables)
    requires LaysOut(l, t)
    ensures forall i | 0 <= i < Size(l) :: Has(t, SlotAt(l, i))
  {
    forall i | 0 <= i < Size(l)
      ensures Has(t, SlotAt(l, i))
    {
      IndexOfSlotAt(l, t, i);
      NumbersExactlyTheTables(l, t, SlotAt(l, i));
    }
  }

  /** Two tables over the same keys that agree on every numbered slot are equal. */
  lemma TablesExtensional(l: Layout, t1: Tables, t2: Tables)
    requires LaysOut(l, t1) && LaysOut(l, t2)
    requires forall i | 0 <= i < Size(l) :: Lookup(t1, SlotAt(l, i)) == Lookup(t2, SlotAt(l, i))
    ensures t1 == t2
  {
    forall n | n in t1.inVars.Keys
      ensures t1.inVars[n] == t2.inVars[n]
    {
      assert Lookup(t1, SlotAt(l, IndexOf(l, In(n)))) == Lookup(t2, SlotAt(l, IndexOf(l, In(n))));
    }
    forall n | n in t1.outVars.Keys
      ensures t1.outVars[n] == t2.outVars[n]
    {
      assert Lookup(t1, SlotAt(l, IndexOf(l, Out(n)))) == Lookup(t2, SlotAt(l, IndexOf(l, Out(n))));
    }
    forall e | e in t1.edgeVars.Keys
      ensures t1.edgeVars[e] == t2.edgeVars[e]
    {
      assert Lookup(t1, SlotAt(l, IndexOf(l, Edge(e.0, e.1)))) == Lookup(t2, SlotAt(l, IndexOf(l, Edge(e.0, e.1))));
    }
    assert t1.inVars == t2.inVars;
    assert t1.outVars == t2.outVars;
    assert t1.edgeVars == t2.edgeVars;
  }

  /** A representative function over the slots the layout numbers. */
  ghost predicate RepresentsLayout(rep: seq<nat>, l: Layout) {
    |rep| == Size(l) && IsRepresentative(rep)
  }

  /** The variable of slot `s`'s representative, read from `t`. */
  function RepresentativeVariable(t: Tables, l: Layout, rep: seq<nat>, s: Slot): Variable
    requires LaysOut(l, t) && RepresentsLayout(rep, l) && Numbers(l, s)
  {
    LaidOutSlotsHeld(l, t);
    Get(t, SlotAt(l, rep[IndexOf(l, s)]))
  }

  /** Tables with the keys of tables a layout numbers are numbered by it as well. */
  lemma SameKeysLaidOut(l: Layout, t: Tables, r: Tables)
    requires LaysOut(l, t)
    requires r.inVars.Keys == t.inVars.Keys && r.outVars.Keys == t.outVars.Keys
    requires r.edgeVars.Keys == t.edgeVars.Keys
    ensures LaysOut(l, r)
  {
  }

  /** The redirected entry of every slot of one table. */
  function RedirectTable<K>(keys: set<K>, t: Tables, l: Layout, rep: seq<nat>, slot: K -> Slot): (m: map<K, Variable>)
    requires LaysOut(l, t) && RepresentsLayout(rep, l)
    requires forall k | k in keys :: Numbers(l, slot(k))
    ensures m.Keys == keys
    ensures forall k | k in keys :: m[k] == RepresentativeVariable(t, l, rep, slot(k))
  {
    map k | k in keys :: RepresentativeVariable(t, l, rep, slot(k))
  }

  /**
   * The tables after redirection, defined key by key: every entry becomes the
   * variable its slot's representative held before the pass.
   */
  function Redirect(t: Tables, l: Layout, rep: seq<nat>): (r: Tables)
    requires LaysOut(l, t) && RepresentsLayout(rep, l)
    ensures LaysOut(l, r)
    ensures r.inVars.Keys == t.inVars.Keys && r.outVars.Keys == t.outVars.Keys
    ensures r.edgeVars.Keys == t.edgeVars.Keys
    ensures forall i | 0 <= i < Size(l) :: Lookup(r, SlotAt(l, i)) == Lookup(t, SlotAt(l, rep[i]))
  {
    var r := Tables(
      RedirectTable(t.inVars.Keys, t, l, rep, n => In(n)),
      RedirectTable(t.outVars.Keys, t, l, rep, n => Out(n)),
      RedirectTable(t.edgeVars.Keys, t, l, rep, (e: (Node, Node)) => Edge(e.0, e.1)));
    SameKeysLaidOut(l, t, r);
    RedirectLookups(t, l, rep, r);
    r
  }

  /** Tables holding each slot's representative variable answer every lookup with it. */
  lemma RedirectLookups(t: Tables, l: Layout, rep: seq<nat>, r: Tables)
    requires LaysOut(l, t) && RepresentsLayout(rep, l) && LaysOut(l, r)
    requires forall n | n in t.inVars :: n in r.inVars && r.inVars[n] == RepresentativeVariable(t, l, rep, In(n))
    requires forall n | n in t.outVars :: n in r.outVars && r.outVars[n] == RepresentativeVariable(t, l, rep, Out(n))
    requires forall e | e in t.edgeVars ::
               e in r.edgeVars && r.edgeVars[e] == RepresentativeVariable(t, l, rep, Edge(e.0, e.1))
    ensures forall i | 0 <= i < Size(l) :: Lookup(r, SlotAt(l, i)) == Lookup(t, SlotAt(l, rep[i]))
  {
    LaidOutSlotsHeld(l, t);
    forall i | 0 <= i < Size(l)
      ensures Lookup(r, SlotAt(l, i)) == Lookup(t, SlotAt(l, rep[i]))
    {
      IndexOfSlotAt(l, t, i);
      var s := SlotAt(l, i);
      assert Has(t, s);
      assert Lookup(r, s) == Some(RepresentativeVariable(t, l, rep, s));
    }
  }

  /** The first `i` slots are redirected and the rest still hold their variables from `t`. */
  ghost predicate RedirectedBelow(t': Tables, t: Tables, l: Layout, rep: seq<nat>, i: nat)
    requires LaysOut(l, t) && RepresentsLayout(rep, l)
  {
    && i <= Size(l)
    && t'.inVars.Keys == t.inVars.Keys && t'.outVars.Keys == t.outVars.Keys
    && t'.edgeVars.Keys == t.edgeVars.Keys
    && (forall j | 0 <= j < i :: Lookup(t', SlotAt(l, j)) == Lookup(t, SlotAt(l, rep[j])))
    && (forall j | i <= j < Size(l) :: Lookup(t', SlotAt(l, j)) == Lookup(t, SlotAt(l, j)))
  }

  /** One iteration of the redirection loop: slot `i` takes its representative's current variable. */
  lemma RedirectStep(t': Tables, t: Tables, l: Layout, rep: seq<nat>, i: nat)
    requires LaysOut(l, t) && RepresentsLayout(rep, l) && i < Size(l)
    requires RedirectedBelow(t', t, l, rep, i)
    ensures Has(t', SlotAt(l, rep[i]))
    ensures RedirectedBelow(Put(t', SlotAt(l, i), Get(t', SlotAt(l, rep[i]))), t, l, rep, i + 1)
  {
    LaidOutSlotsHeld(l, t);
    var t2 := Put(t', SlotAt(l, i), Get(t', SlotAt(l, rep[i])));
    forall j | 0 <= j < Size(l) && j != i
      ensures Lookup(t2, SlotAt(l, j)) == Lookup(t', SlotAt(l, j))
    {
      if SlotAt(l, j) == SlotAt(l, i) {
        SlotAtInjective(l, t, i, j);
      }
    }
  }

  /** A representative slot is left as it is. */
  lemma RedirectSkip(t': Tables, t: Tables, l: Layout, rep: seq<nat>, i: nat)
    requires LaysOut(l, t) && RepresentsLayout(rep, l) && i < Size(l) && rep[i] == i
    requires RedirectedBelow(t', t, l, rep, i)
    ensures RedirectedBelow(t', t, l, rep, i + 1)
  {
  }

  /** Once every slot is visited, the tables are the redirected ones. */
  lemma RedirectDone(t': Tables, t: Tables, l: Layout, rep: seq<nat>)
    requires LaysOut(l, t) && RepresentsLayout(rep, l)
    requires RedirectedBelow(t', t, l, rep, Size(l))
    ensures t' == Redirect(t, l, rep)
  {
    assert LaysOut(l, t');
    TablesExtensional(l, t', Redirect(t, l, rep));
  }

  /**
   * `fixShortCircuits`: when some union was recorded, visit every slot and store
   * in each non-representative slot the variable its representative holds.
   */
  method FixShortCircuits(t: Tables, l: Layout, rep: seq<nat>, didSomething: bool) returns (t': Tables)
    requires LaysOut(l, t) && RepresentsLayout(rep, l)
    ensures !didSomething ==> t' == t
    ensures didSomething ==> t' == Redirect(t, l, rep)
  {
    t' := t;
    if didSomething {
      var i := 0;
      while i < Size(l)
        invariant RedirectedBelow(t', t, l, rep, i)
      {
        var r := rep[i];
        if i != r {
          RedirectStep(t', t, l, rep, i);
          t' := Put(t', SlotAt(l, i), Get(t', SlotAt(l, r)));
        } else {
          RedirectSkip(t', t, l, rep, i);
        }
        i := i + 1;
      }
      RedirectDone(t', t, l, rep);
    }
  }

  /** Redirection never rewrites a representative slot. */
  lemma RedirectKeepsRepresentatives(t: Tables, l: Layout, rep: seq<nat>, i: nat)
    requires LaysOut(l, t) && RepresentsLayout(rep, l) && i < Size(l) && rep[i] == i
    ensures Lookup(Redirect(t, l, rep), SlotAt(l, i)) == Lookup(t, SlotAt(l, i))
  {
  }

  /**
   * After redirection no slot points through another non-representative slot:
   * each slot holds the variable its representative now holds, so two slots of
   * one class hold the same variable.
   */
  lemma RedirectResolvesClasses(t: Tables, l: Layout, rep: seq<nat>, i: nat, j: nat)
    requires LaysOut(l, t) && RepresentsLayout(rep, l) && i < Size(l) && j < Size(l)
    ensures Lookup(Redirect(t, l, rep), SlotAt(l, i)) == Lookup(Redirect(t, l, rep), SlotAt(l, rep[i]))
    ensures rep[i] == rep[j] ==>
              Lookup(Redirect(t, l, rep), SlotAt(l, i)) == Lookup(Redirect(t, l, rep), SlotAt(l, j))
  {
  }

  /** Running the redirection a second time changes nothing. */
  lemma RedirectIdempotent(t: Tables, l: Layout, rep: seq<nat>)
    requires LaysOut(l, t) && RepresentsLayout(rep, l)
    ensures Redirect(Redirect(t, l, rep), l, rep) == Redirect(t, l, rep)
  {
    var r := Redirect(t, l, rep);
    TablesExtensional(l, Redirect(r, l, rep), r);
  }

  /** With no class holding two slots, redirection changes nothing. */
  lemma RedirectSingletonsIsIdentity(t: Tables, l: Layout)
    requires LaysOut(l, t)
    ensures Redirect(t, l, Singletons(Size(l))) == t
  {
    TablesExtensional(l, Redirect(t, l, Singletons(Size(l))), t);
  }
}
