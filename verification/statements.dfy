/**
 * The shape of the equations `buildEquations` emits: what each statement reads
 * and writes, stated independently of the builders, and that no slot gets two
 * statements.
 */
module StatementShape {
  import opened Wrappers
  import opened FlowGraph
  import opened VariableTables
  import opened SlotLayout
  import opened ShortCircuit
  import opened DataflowEquations

  /**
   * The statement for slot `st.defines`, read off the tables `t`: a meet
   * IN(n) = meet(v_1, ..., v_k) with one variable per predecessor in order; a
   * node transfer OUT(n) = f_n(IN(n)); an edge transfer edge(n, s) = f_ns(x)
   * where x is OUT(n) with node functions and IN(n) without.
   */
  ghost predicate Describes<F>(g: Graph, p: Provider<F>, t: Tables, st: Statement<F>) {
    match st.defines
    case In(n) =>
      && st.op == Meet && Lookup(t, In(n)) == Some(st.lhs) && n in g.preds
      && |st.rhs| == PredCount(g, n)
      && forall k | 0 <= k < |st.rhs| :: Lookup(t, PredSlot(p, g.preds[n][k], n)) == Some(st.rhs[k])
    case Out(n) =>
      && st.op == Transfer(p.nodeTransferFunction(n)) && Lookup(t, Out(n)) == Some(st.lhs)
      && |st.rhs| == 1 && Lookup(t, In(n)) == Some(st.rhs[0])
    case Edge(a, b) =>
      && st.op == Transfer(p.edgeTransferFunction(a, b)) && Lookup(t, Edge(a, b)) == Some(st.lhs)
      && |st.rhs| == 1 && Lookup(t, SourceSlot(p, a)) == Some(st.rhs[0])
  }

  /** No two statements of `ss` are emitted for the same slot. */
  ghost predicate DefinesOnce<F>(ss: seq<Statement<F>>) {
    forall a, b | 0 <= a < b < |ss| :: ss[a].defines != ss[b].defines
  }

  /** The three groups of statements `buildEquations` emits, over the tables it builds. */
  function Meets<F>(g: Graph, p: Provider<F>, l: Layout): seq<Statement<F>>
    requires Valid(g) && LaysOut(l, InitializeVariables(g, p))
  {
    MeetStatements(g, p, ShortCircuitedTables(g, p, l), g.nodes)
  }

  function NodeTransfers<F>(g: Graph, p: Provider<F>, l: Layout): seq<Statement<F>>
    requires Valid(g) && LaysOut(l, InitializeVariables(g, p))
  {
    if p.hasNodeTransferFunctions then NodeTransferStatements(g, p, ShortCircuitedTables(g, p, l), g.nodes) else []
  }

  function EdgeTransfers<F>(g: Graph, p: Provider<F>, l: Layout): seq<Statement<F>>
    requires Valid(g) && LaysOut(l, InitializeVariables(g, p))
  {
    if p.hasEdgeTransferFunctions then EdgeTransferStatements(g, p, ShortCircuitedTables(g, p, l), g.nodes) else []
  }

  lemma BuildEquationsParts<F>(g: Graph, p: Provider<F>, l: Layout)
    requires Valid(g) && LaysOut(l, InitializeVariables(g, p))
    ensures BuildEquations(g, p, l).statements == Meets(g, p, l) + NodeTransfers(g, p, l) + EdgeTransfers(g, p, l)
  {
  }

  /** Every statement `buildEquations` emits has the shape its slot calls for. */
  lemma EmittedStatementsDescribed<F>(g: Graph, p: Provider<F>, l: Layout)
    requires Valid(g) && LaysOut(l, InitializeVariables(g, p))
    ensures var e := BuildEquations(g, p, l);
            forall k | 0 <= k < |e.statements| :: Describes(g, p, e.tables, e.statements[k])
  {
    var t := ShortCircuitedTables(g, p, l);
    MeetsDescribed(g, p, l);
    NodeTransfersDescribed(g, p, l);
    EdgeTransfersDescribed(g, p, l);
    BuildEquationsParts(g, p, l);
    ConcatDescribed(g, p, t, Meets(g, p, l), NodeTransfers(g, p, l));
    ConcatDescribed(g, p, t, Meets(g, p, l) + NodeTransfers(g, p, l), EdgeTransfers(g, p, l));
  }

  lemma MeetsDescribed<F>(g: Graph, p: Provider<F>, l: Layout)
    requires Valid(g) && LaysOut(l, InitializeVariables(g, p))
    ensures forall k | 0 <= k < |Meets(g, p, l)| :: Describes(g, p, ShortCircuitedTables(g, p, l), Meets(g, p, l)[k])
  {
    var t := ShortCircuitedTables(g, p, l);
    var meets := Meets(g, p, l);
    forall k | 0 <= k < |meets| ensures Describes(g, p, t, meets[k]) {
      MeetForDescribed(g, p, t, meets[k].defines.node);
    }
  }

  lemma NodeTransfersDescribed<F>(g: Graph, p: Provider<F>, l: Layout)
    requires Valid(g) && LaysOut(l, InitializeVariables(g, p))
    ensures forall k | 0 <= k < |NodeTransfers(g, p, l)| ::
              Describes(g, p, ShortCircuitedTables(g, p, l), NodeTransfers(g, p, l)[k])
  {
    var t := ShortCircuitedTables(g, p, l);
    var nodes := NodeTransfers(g, p, l);
    forall k | 0 <= k < |nodes| ensures Describes(g, p, t, nodes[k]) {
      NodeTransferForDescribed(g, p, t, nodes[k].defines.node);
    }
  }

  lemma EdgeTransfersDescribed<F>(g: Graph, p: Provider<F>, l: Layout)
    requires Valid(g) && LaysOut(l, InitializeVariables(g, p))
    ensures forall k | 0 <= k < |EdgeTransfers(g, p, l)| ::
              Describes(g, p, ShortCircuitedTables(g, p, l), EdgeTransfers(g, p, l)[k])
  {
    var t := ShortCircuitedTables(g, p, l);
    var edges := EdgeTransfers(g, p, l);
    forall k | 0 <= k < |edges| ensures Describes(g, p, t, edges[k]) {
      EdgeTransferForDescribed(g, p, t, edges[k].defines.src, edges[k].defines.dst);
    }
  }

  lemma ConcatDescribed<F>(g: Graph, p: Provider<F>, t: Tables, a: seq<Statement<F>>, b: seq<Statement<F>>)
    requires forall k | 0 <= k < |a| :: Describes(g, p, t, a[k])
    requires forall k | 0 <= k < |b| :: Describes(g, p, t, b[k])
    ensures forall k | 0 <= k < |a + b| :: Describes(g, p, t, (a + b)[k])
  {
    forall k | 0 <= k < |a + b| ensures Describes(g, p, t, (a + b)[k]) {
      if k >= |a| {
        assert (a + b)[k] == b[k - |a|];
      }
    }
  }

  lemma MeetForDescribed<F>(g: Graph, p: Provider<F>, t: Tables, n: Node)
    requires HoldsSlots(g, p, t) && n in g.nodes
    ensures Describes(g, p, t, MeetFor(g, p, t, n))
  {
    var st := MeetFor(g, p, t, n);
    forall k | 0 <= k < |st.rhs|
      ensures Lookup(t, PredSlot(p, g.preds[n][k], n)) == Some(st.rhs[k])
    {
      PredSlotHeld(g, p, t, n, g.preds[n][k]);
    }
  }

  lemma NodeTransferForDescribed<F>(g: Graph, p: Provider<F>, t: Tables, n: Node)
    requires HoldsSlots(g, p, t) && n in g.nodes && p.hasNodeTransferFunctions
    ensures Describes(g, p, t, NodeTransferFor(g, p, t, n))
  {
  }

  lemma EdgeTransferForDescribed<F>(g: Graph, p: Provider<F>, t: Tables, n: Node, s: Node)
    requires HoldsSlots(g, p, t) && n in g.nodes && s in g.succs[n] && p.hasEdgeTransferFunctions
    ensures Describes(g, p, t, EdgeTransferFor(g, p, t, n, s))
  {
  }

  /** `buildEquations` emits at most one statement per slot. */
  lemma EmittedStatementsDefineOnce<F>(g: Graph, p: Provider<F>, l: Layout)
    requires Valid(g) && LaysOut(l, InitializeVariables(g, p))
    ensures DefinesOnce(BuildEquations(g, p, l).statements)
  {
    var t := ShortCircuitedTables(g, p, l);
    var meets, nodes, edges := Meets(g, p, l), NodeTransfers(g, p, l), EdgeTransfers(g, p, l);
    MeetStatementsOnce(g, p, t, g.nodes);
    if p.hasNodeTransferFunctions {
      NodeTransferStatementsOnce(g, p, t, g.nodes);
    }
    if p.hasEdgeTransferFunctions {
      EdgeTransferStatementsOnce(g, p, t, g.nodes);
    }
    ThreeKindsDefineOnce(meets, nodes, edges);
    BuildEquationsParts(g, p, l);
  }

  /** Meets define IN slots, node transfers OUT slots and edge transfers edge slots, so they never clash. */
  lemma ThreeKindsDefineOnce<F>(meets: seq<Statement<F>>, nodes: seq<Statement<F>>, edges: seq<Statement<F>>)
    requires DefinesOnce(meets) && DefinesOnce(nodes) && DefinesOnce(edges)
    requires forall k | 0 <= k < |meets| :: meets[k].defines.In?
    requires forall k | 0 <= k < |nodes| :: nodes[k].defines.Out?
    requires forall k | 0 <= k < |edges| :: edges[k].defines.Edge?
    ensures DefinesOnce(meets + nodes + edges)
  {
    ConcatDefinesOnce(meets, nodes);
    var mn := meets + nodes;
    forall k | 0 <= k < |mn| ensures !mn[k].defines.Edge? {
      if k >= |meets| {
        assert mn[k] == nodes[k - |meets|];
      }
    }
    ConcatDefinesOnce(mn, edges);
  }

  /** Two statement lists over disjoint slots, each defining a slot at most once, concatenate to one. */
  lemma ConcatDefinesOnce<F>(a: seq<Statement<F>>, b: seq<Statement<F>>)
    requires DefinesOnce(a) && DefinesOnce(b)
    requires forall x, y | 0 <= x < |a| && 0 <= y < |b| :: a[x].defines != b[y].defines
    ensures DefinesOnce(a + b)
  {
    var ab := a + b;
    forall x, y | 0 <= x < y < |ab|
      ensures ab[x].defines != ab[y].defines
    {
      if y < |a| {
      } else if x < |a| {
        assert ab[y] == b[y - |a|];
      } else {
        assert ab[x] == b[x - |a|] && ab[y] == b[y - |a|];
      }
    }
  }

  lemma {:induction false} MeetStatementsOnce<F>(g: Graph, p: Provider<F>, t: Tables, ns: seq<Node>)
    requires HoldsSlots(g, p, t) && (forall n | n in ns :: n in g.nodes) && Distinct(ns)
    ensures DefinesOnce(MeetStatements(g, p, t, ns))
  {
    if ns != [] {
      var rest := MeetStatements(g, p, t, ns[1..]);
      assert Distinct(ns[1..]) by {
        forall i, j | 0 <= i < j < |ns[1..]| ensures ns[1..][i] != ns[1..][j] {
          assert ns[1..][i] == ns[i + 1] && ns[1..][j] == ns[j + 1];
        }
      }
      MeetStatementsOnce(g, p, t, ns[1..]);
      if PredCount(g, ns[0]) >= MeetThreshold(p) {
        NotInTail(ns);
        ConcatDefinesOnce([MeetFor(g, p, t, ns[0])], rest);
      }
    }
  }

  lemma {:induction false} NodeTransferStatementsOnce<F>(g: Graph, p: Provider<F>, t: Tables, ns: seq<Node>)
    requires HoldsSlots(g, p, t) && p.hasNodeTransferFunctions
    requires (forall n | n in ns :: n in g.nodes) && Distinct(ns)
    ensures DefinesOnce(NodeTransferStatements(g, p, t, ns))
  {
    if ns != [] {
      var rest := NodeTransferStatements(g, p, t, ns[1..]);
      TailDistinct(ns);
      NodeTransferStatementsOnce(g, p, t, ns[1..]);
      if !p.isIdentity(p.nodeTransferFunction(ns[0])) {
        NotInTail(ns);
        ConcatDefinesOnce([NodeTransferFor(g, p, t, ns[0])], rest);
      }
    }
  }

  lemma {:induction false} EdgeTransferStatementsFromOnce<F>(
    g: Graph, p: Provider<F>, t: Tables, n: Node, succs: seq<Node>)
    requires HoldsSlots(g, p, t) && p.hasEdgeTransferFunctions && n in g.nodes
    requires (forall s | s in succs :: s in g.succs[n]) && Distinct(succs)
    ensures DefinesOnce(EdgeTransferStatementsFrom(g, p, t, n, succs))
  {
    if succs != [] {
      var rest := EdgeTransferStatementsFrom(g, p, t, n, succs[1..]);
      TailDistinct(succs);
      EdgeTransferStatementsFromOnce(g, p, t, n, succs[1..]);
      if !p.isIdentity(p.edgeTransferFunction(n, succs[0])) {
        NotInTail(succs);
        ConcatDefinesOnce([EdgeTransferFor(g, p, t, n, succs[0])], rest);
      }
    }
  }

  lemma {:induction false} EdgeTransferStatementsOnce<F>(g: Graph, p: Provider<F>, t: Tables, ns: seq<Node>)
    requires HoldsSlots(g, p, t) && p.hasEdgeTransferFunctions
    requires (forall n | n in ns :: n in g.nodes) && Distinct(ns)
    ensures DefinesOnce(EdgeTransferStatements(g, p, t, ns))
  {
    if ns != [] {
      var here := EdgeTransferStatementsFrom(g, p, t, ns[0], g.succs[ns[0]]);
      var rest := EdgeTransferStatements(g, p, t, ns[1..]);
      TailDistinct(ns);
      EdgeTransferStatementsOnce(g, p, t, ns[1..]);
      EdgeTransferStatementsFromOnce(g, p, t, ns[0], g.succs[ns[0]]);
      NotInTail(ns);
      ConcatDefinesOnce(here, rest);
    }
  }

  /** The tail of a list without repeats has none. */
  lemma TailDistinct<T>(s: seq<T>)
    requires |s| > 0 && Distinct(s)
    ensures Distinct(s[1..])
  {
    forall i, j | 0 <= i < j < |s[1..]|
      ensures s[1..][i] != s[1..][j]
    {
      assert s[1..][i] == s[i + 1] && s[1..][j] == s[j + 1];
    }
  }

  /** The head of a list without repeats does not occur in its tail. */
  lemma NotInTail<T>(s: seq<T>)
    requires |s| > 0 && Distinct(s)
    ensures s[0] !in s[1..]
  {
  }
}
