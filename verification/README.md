# WALA dataflow equation builder and small core rules, in Dafny

This project models part of the WALA core (`com.ibm.wala.core`) and proves
properties of the model.

The main part is the equation builder of `DataflowSolver`, WALA's
Kildall-style dataflow solver. Given a flow graph and a transfer-function
provider, the builder works in four steps:

1. It creates IN, OUT and edge variables (`initializeVariables`).
2. It numbers every slot densely, IN slots first, then OUT slots, then edge
   slots (the inner `UnionFind` class).
3. It records aliasing, called short circuits, in a union-find:
   - a unary meet, when the meet operator is a no-op on one input;
   - an identity node transfer function;
   - an identity edge transfer function.
4. It redirects every slot to its class representative's variable
   (`fixShortCircuits`), then emits meet and transfer equations only for what
   remains (`buildEquations`).

Around the builder, the project models:

- the two bit-vector operators `BitVectorIdentity` and `BitVectorOr`;
- `CompoundIntIterator`;
- `HashCodeComparator`;
- the parameter-type rule of `ArgumentTypeEntrypoint`;
- the naming and hierarchy answers of `BypassSyntheticClass`;
- the use/def bookkeeping of four SSA instruction records.

Modules, one per file:

| module | what it holds |
|---|---|
| `Wrappers` | `Option`, `Result`, and the Java exceptions the code throws |
| `JavaInt` | Java `int`: the 32-bit wrap, `^`, and a proof that multiplying by an odd constant loses nothing |
| `FlowGraph` | the graph (nodes, successors, predecessors) and the transfer-function provider |
| `VariableTables` | the three variable tables and `initializeVariables`; the accessors |
| `SlotLayout` | the dense slot numbering: `isIn`/`isOut`, `getKey` |
| `UnionFind` | union-find as a representative function; quick-find `Union` |
| `ShortCircuit` | the recorded unions and `fixShortCircuits` |
| `DataflowEquations` | `buildEquations`: meets and transfers emitted, the short-circuited tables |
| `StatementShape` | the left- and right-hand sides of every emitted equation |
| `Aliasing` | which slots end up sharing a variable, and that no more are merged |
| `BitVectorOperators` | `BitVectorIdentity`, `BitVectorOr` |
| `CompoundIntIterator` | `CompoundIntIterator` |
| `HashCodeComparator` | `HashCodeComparator` |
| `ArgumentTypeEntrypoint` | `ArgumentTypeEntrypoint` |
| `BypassSyntheticClass` | `BypassSyntheticClass` |
| `SsaInstructions` | `SSAInstanceofInstruction`, `SSAArrayReferenceInstruction`, `ReflectiveMemberAccess`, `SSAFieldAccessInstruction` |

Modelling conventions:

- A variable is identified by the slot that created it: `Fresh(slot)`.
- Java `null` is `None` wherever the code checks for it or a caller may pass
  it; fields the code never checks hold plain values (see "Left out"). A thrown
  exception is a `Failure` that carries the exception and its message.
- The order in which Java hash maps yield their keys is a parameter. It is
  the `Layout` of key sequences, required to enumerate the tables.
- The class hierarchy and hash codes the code consults are inputs.
- Each equation carries the slot it defines before redirection (`defines`),
  so per-node and per-edge emission can be stated.

## Model

| member | source | states |
|---|---|---|
| VariableTables.InitializeVariables | com.ibm.wala.core/src/com/ibm/wala/dataflow/graph/DataflowSolver.java:75-97 | every node has an IN variable; a node has an OUT variable iff the provider has node transfer functions; edge (n, s) has a variable iff s is a successor of n and the provider has edge transfer functions; every entry is a fresh variable of its own slot |
| VariableTables.AddNode | com.ibm.wala.core/src/com/ibm/wala/dataflow/graph/DataflowSolver.java:76-95 | one iteration adds IN(n), OUT(n) if node functions exist, and edge(n, s) for each successor if edge functions exist; nothing else is added |
| VariableTables.AddEdges | com.ibm.wala.core/src/com/ibm/wala/dataflow/graph/DataflowSolver.java:88-94 | edge variables are added for exactly the successors of n; the IN and OUT tables are untouched |
| VariableTables.InitializeFirst | com.ibm.wala.core/src/com/ibm/wala/dataflow/graph/DataflowSolver.java:75-97 | after the first k nodes, the tables hold exactly the slots of those nodes, each with a fresh variable |
| VariableTables.AccessorsAreLookups | com.ibm.wala.core/src/com/ibm/wala/dataflow/graph/DataflowSolver.java:104-118 | `getIn`, `getOut` and `getEdge` are plain table lookups: an absent key gives null, not a default variable |
| VariableTables.GetEdgeBetween | com.ibm.wala.core/src/com/ibm/wala/dataflow/graph/DataflowSolver.java:112-118 | `getEdge(src, dst)` is non-null iff the edge table holds the pair (src, dst), and then it is that entry |
| VariableTables.Lookup | com.ibm.wala.core/src/com/ibm/wala/dataflow/graph/DataflowSolver.java:104-118 | a slot's lookup is non-null exactly when its table holds the key |
| VariableTables.Put | com.ibm.wala.core/src/com/ibm/wala/dataflow/graph/DataflowSolver.java:270-299 | writing one slot changes that slot's lookup and no other |
| SlotLayout.Partitioned | com.ibm.wala.core/src/com/ibm/wala/dataflow/graph/DataflowSolver.java:139-176 | the numbering is dense and partitioned: indices below the IN count are IN slots (`isIn`); the next OUT-count indices are OUT slots (`isOut`); the rest are edge slots; the total is the number of table entries |
| SlotLayout.NumbersExactlyTheTables | com.ibm.wala.core/src/com/ibm/wala/dataflow/graph/DataflowSolver.java:139-149 | the layout numbers a slot iff the tables hold it |
| SlotLayout.SlotAtInjective | com.ibm.wala.core/src/com/ibm/wala/dataflow/graph/DataflowSolver.java:129-149 | distinct numbers name distinct slots |
| SlotLayout.IndexOfSlotAt | com.ibm.wala.core/src/com/ibm/wala/dataflow/graph/DataflowSolver.java:129-149 | the number of a slot and the slot of a number are inverse |
| SlotLayout.IndexOf | com.ibm.wala.core/src/com/ibm/wala/dataflow/graph/DataflowSolver.java:129-137 | every slot the layout holds has a number that maps back to it |
| UnionFind.Singletons | com.ibm.wala.core/src/com/ibm/wala/dataflow/graph/DataflowSolver.java:139-149 | the fresh union-find puts every slot in a class of its own |
| UnionFind.Union | com.ibm.wala.core/src/com/ibm/wala/dataflow/graph/DataflowSolver.java:155-160 | after `union(x, y)`, x and y share a class, and two slots share a class iff they did before or one was with x and the other with y |
| UnionFind.UnionAllJoins | com.ibm.wala.core/src/com/ibm/wala/dataflow/graph/DataflowSolver.java:155-160 | after every recorded union, both slots of each recorded pair share a class, and earlier classes persist |
| UnionFind.UnionAllFinest | com.ibm.wala.core/src/com/ibm/wala/dataflow/graph/DataflowSolver.java:155-160 | the classes are the finest partition that joins the recorded pairs: any colouring constant on the pairs is constant on the classes |
| ShortCircuit.UnaryMeetUnions | com.ibm.wala.core/src/com/ibm/wala/dataflow/graph/DataflowSolver.java:308-318 | exactly the nodes with one predecessor p have IN(n) unioned with p's slot: edge(p, n) with edge functions, else OUT(p), and IN(p) when there are no node functions either (see Findings) |
| ShortCircuit.NodeIdentityUnions | com.ibm.wala.core/src/com/ibm/wala/dataflow/graph/DataflowSolver.java:241-249 | IN(n) is unioned with OUT(n) exactly for the identity node functions |
| ShortCircuit.EdgeIdentityUnions | com.ibm.wala.core/src/com/ibm/wala/dataflow/graph/DataflowSolver.java:251-262 | edge(n, s) is unioned with OUT(n), or IN(n) without node functions, exactly for the identity edge functions |
| ShortCircuit.EdgeIdentityUnionsFrom | com.ibm.wala.core/src/com/ibm/wala/dataflow/graph/DataflowSolver.java:251-262 | the same for the successors of one node |
| ShortCircuit.RecordedUnionsExactly | com.ibm.wala.core/src/com/ibm/wala/dataflow/graph/DataflowSolver.java:186-191 | a union is recorded iff it is justified: a unary meet when the meet is a unary no-op; an identity node function when node functions exist; an identity edge function when edge functions exist |
| ShortCircuit.UnaryMeetUnionsExactly | com.ibm.wala.core/src/com/ibm/wala/dataflow/graph/DataflowSolver.java:308-318 | the unary-meet unions are exactly the single-predecessor ones |
| ShortCircuit.NodeIdentityUnionsExactly | com.ibm.wala.core/src/com/ibm/wala/dataflow/graph/DataflowSolver.java:241-249 | the node-identity unions are exactly those of identity node functions |
| ShortCircuit.EdgeIdentityUnionsExactly | com.ibm.wala.core/src/com/ibm/wala/dataflow/graph/DataflowSolver.java:251-262 | the edge-identity unions are exactly those of identity edge functions |
| ShortCircuit.RecordedUnionsHeld | com.ibm.wala.core/src/com/ibm/wala/dataflow/graph/DataflowSolver.java:240-263 | both slots of every recorded union are held by the tables |
| ShortCircuit.RecordedUnionsNumbered | com.ibm.wala.core/src/com/ibm/wala/dataflow/graph/DataflowSolver.java:240-263 | both slots of every recorded union have a number in the layout |
| ShortCircuit.PredVariableAsWrittenIsNull | com.ibm.wala.core/src/com/ibm/wala/dataflow/graph/DataflowSolver.java:195-208 | as written, with neither node nor edge functions, the variable read for a predecessor is null (see Findings) |
| ShortCircuit.PredSlotIsHeld | com.ibm.wala.core/src/com/ibm/wala/dataflow/graph/DataflowSolver.java:195-208 | the corrected predecessor slot is always held, and agrees with the code wherever the code reads a held variable |
| ShortCircuit.Redirect | com.ibm.wala.core/src/com/ibm/wala/dataflow/graph/DataflowSolver.java:268-303 | redirection keeps the keys of all three tables, and every slot then holds its representative's original variable |
| ShortCircuit.FixShortCircuits | com.ibm.wala.core/src/com/ibm/wala/dataflow/graph/DataflowSolver.java:268-303 | the loop over all slot numbers is a no-op when no union was recorded, and otherwise computes `Redirect` |
| ShortCircuit.RedirectKeepsRepresentatives | com.ibm.wala.core/src/com/ibm/wala/dataflow/graph/DataflowSolver.java:276-299 | a representative's slot is never rewritten |
| ShortCircuit.RedirectResolvesClasses | com.ibm.wala.core/src/com/ibm/wala/dataflow/graph/DataflowSolver.java:276-299 | after redirection, two slots of one class hold the same variable |
| ShortCircuit.RedirectIdempotent | com.ibm.wala.core/src/com/ibm/wala/dataflow/graph/DataflowSolver.java:268-303 | running the redirection again changes nothing |
| ShortCircuit.RedirectSingletonsIsIdentity | com.ibm.wala.core/src/com/ibm/wala/dataflow/graph/DataflowSolver.java:268-303 | with no unions, redirection leaves the tables as they are |
| ShortCircuit.TablesExtensional | com.ibm.wala.core/src/com/ibm/wala/dataflow/graph/DataflowSolver.java:139-149 | two tables laid out alike and agreeing on every numbered slot are equal |
| DataflowEquations.MeetStatements | com.ibm.wala.core/src/com/ibm/wala/dataflow/graph/DataflowSolver.java:195-208 | a meet defining IN(n) is emitted iff n has at least the threshold number of predecessors: 2 when the meet is a unary no-op, else 1 |
| DataflowEquations.NodeTransferStatements | com.ibm.wala.core/src/com/ibm/wala/dataflow/graph/DataflowSolver.java:211-219 | a node transfer defining OUT(n) is emitted iff n's function is not an identity |
| DataflowEquations.EdgeTransferStatements | com.ibm.wala.core/src/com/ibm/wala/dataflow/graph/DataflowSolver.java:222-234 | an edge transfer defining edge(n, s) is emitted iff the edge's function is not an identity |
| DataflowEquations.EdgeTransferStatementsFrom | com.ibm.wala.core/src/com/ibm/wala/dataflow/graph/DataflowSolver.java:222-234 | the same for the successors of one node |
| DataflowEquations.ShortCircuitedTables | com.ibm.wala.core/src/com/ibm/wala/dataflow/graph/DataflowSolver.java:183-194 | the tables after the short circuits hold the same slots, and each holds the fresh variable of its class representative |
| DataflowEquations.BuildEquations | com.ibm.wala.core/src/com/ibm/wala/dataflow/graph/DataflowSolver.java:183-235 | equations are emitted for exactly the meets above threshold and the non-identity node and edge functions, over the short-circuited tables |
| DataflowEquations.UnionIndices | com.ibm.wala.core/src/com/ibm/wala/dataflow/graph/DataflowSolver.java:155-160 | each recorded union is translated to the numbers of its two slots |
| DataflowEquations.NoUnionsSingletons | com.ibm.wala.core/src/com/ibm/wala/dataflow/graph/DataflowSolver.java:268-272 | with no recorded union every slot represents itself |
| StatementShape.EmittedStatementsDescribed | com.ibm.wala.core/src/com/ibm/wala/dataflow/graph/DataflowSolver.java:195-234 | every emitted equation has the right shape: a meet has IN(n) on the left and one right-hand entry per predecessor, in predecessor order; a node transfer computes OUT(n) from IN(n); an edge transfer computes edge(n, s) from OUT(n), or IN(n) without node functions |
| StatementShape.BuildEquationsParts | com.ibm.wala.core/src/com/ibm/wala/dataflow/graph/DataflowSolver.java:195-234 | the meets come first, then the node transfers, then the edge transfers |
| StatementShape.MeetForDescribed | com.ibm.wala.core/src/com/ibm/wala/dataflow/graph/DataflowSolver.java:197-207 | one meet has the meet shape |
| StatementShape.NodeTransferForDescribed | com.ibm.wala.core/src/com/ibm/wala/dataflow/graph/DataflowSolver.java:213-218 | one node transfer has the node-transfer shape |
| StatementShape.EdgeTransferForDescribed | com.ibm.wala.core/src/com/ibm/wala/dataflow/graph/DataflowSolver.java:225-233 | one edge transfer has the edge-transfer shape |
| StatementShape.EmittedStatementsDefineOnce | com.ibm.wala.core/src/com/ibm/wala/dataflow/graph/DataflowSolver.java:195-234 | no two emitted equations define the same slot |
| StatementShape.MeetStatementsOnce | com.ibm.wala.core/src/com/ibm/wala/dataflow/graph/DataflowSolver.java:195-208 | no two meets define the same IN slot |
| StatementShape.NodeTransferStatementsOnce | com.ibm.wala.core/src/com/ibm/wala/dataflow/graph/DataflowSolver.java:211-219 | no two node transfers define the same OUT slot |
| StatementShape.EdgeTransferStatementsOnce | com.ibm.wala.core/src/com/ibm/wala/dataflow/graph/DataflowSolver.java:222-234 | no two edge transfers define the same edge slot |
| Aliasing.AliasedIffSameClass | com.ibm.wala.core/src/com/ibm/wala/dataflow/graph/DataflowSolver.java:268-303 | after `buildEquations`, two numbered slots hold the same variable iff the union-find put them in one class |
| Aliasing.RecordedUnionAliases | com.ibm.wala.core/src/com/ibm/wala/dataflow/graph/DataflowSolver.java:155-160 | both slots of every recorded union end up holding the same variable |
| Aliasing.JustifiedUnionAliases | com.ibm.wala.core/src/com/ibm/wala/dataflow/graph/DataflowSolver.java:186-191 | every justified union leaves its two slots sharing one variable |
| Aliasing.IdentityNodeAliases | com.ibm.wala.core/src/com/ibm/wala/dataflow/graph/DataflowSolver.java:241-249 | an identity node function leaves `getIn(n)` and `getOut(n)` the same variable |
| Aliasing.IdentityEdgeAliases | com.ibm.wala.core/src/com/ibm/wala/dataflow/graph/DataflowSolver.java:251-262 | an identity edge function leaves `getEdge(n, s)` the same variable as `getOut(n)`, or `getIn(n)` without node functions |
| Aliasing.UnaryMeetAliases | com.ibm.wala.core/src/com/ibm/wala/dataflow/graph/DataflowSolver.java:308-318 | with a unary no-op meet, a single-predecessor node's `getIn` is its predecessor's variable |
| Aliasing.AliasingIsFinest | com.ibm.wala.core/src/com/ibm/wala/dataflow/graph/DataflowSolver.java:240-318 | the short circuits merge no more than the justified unions force |
| BitVectorOperators.IdentityEvaluate | com.ibm.wala.core/src/com/ibm/wala/dataflow/graph/BitVectorIdentity.java:31-46 | a null left-hand side fails with IllegalArgumentException "lhs cannot be null"; otherwise the left-hand side becomes the right-hand side, and the verdict is CHANGED iff that differs from before |
| BitVectorOperators.IdentityCanShrink | com.ibm.wala.core/src/com/ibm/wala/dataflow/graph/BitVectorIdentity.java:42-45 | the identity copies rather than unions: the result is L ∪ R iff L is within R, and otherwise the bits of L missing from R are dropped |
| BitVectorOperators.IdentityJustifiesAliasing | com.ibm.wala.core/src/com/ibm/wala/dataflow/graph/BitVectorIdentity.java:40-69 | `isIdentity` holds for the identity, and rightly: evaluating it with both sides one variable gives NOT_CHANGED, and from any left-hand side it lands on the right-hand side |
| BitVectorOperators.IdentityForgetsLhs | com.ibm.wala.core/src/com/ibm/wala/dataflow/graph/BitVectorIdentity.java:40-45 | the identity's result depends only on the right-hand side |
| BitVectorOperators.OrEvaluate | com.ibm.wala.core/src/com/ibm/wala/dataflow/graph/BitVectorOr.java:31-45 | the new left-hand side is L ∪ R ∪ v: it contains all three and nothing else; the verdict is CHANGED iff it differs from L |
| BitVectorOperators.OrNotChangedIff | com.ibm.wala.core/src/com/ibm/wala/dataflow/graph/BitVectorOr.java:35-44 | NOT_CHANGED iff L already covers R and v, and then L is kept |
| BitVectorOperators.OrMonotone | com.ibm.wala.core/src/com/ibm/wala/dataflow/graph/BitVectorOr.java:35-38 | `BitVectorOr` is monotone in both inputs |
| BitVectorOperators.Evaluate | com.ibm.wala.core/src/com/ibm/wala/dataflow/graph/BitVectorOr.java:31-45 | for either operator, evaluation succeeds iff the left-hand side is non-null, and the verdict is CHANGED iff the left-hand side changed |
| BitVectorOperators.EvaluateIdempotent | com.ibm.wala.core/src/com/ibm/wala/dataflow/graph/BitVectorIdentity.java:40-45 | for either operator, evaluating again with the same right-hand side gives NOT_CHANGED and keeps the result |
| BitVectorOperators.HashCode | com.ibm.wala.core/src/com/ibm/wala/dataflow/graph/BitVectorOr.java:52-55 | the identity hashes to 9902; an or hashes to 9901 times its constant's hash, modulo 2^32 |
| BitVectorOperators.EqualsIsEquality | com.ibm.wala.core/src/com/ibm/wala/dataflow/graph/BitVectorOr.java:57-65 | all identities are equal, and two ors are equal iff their constants are |
| BitVectorOperators.HashConsistentWithEquals | com.ibm.wala.core/src/com/ibm/wala/dataflow/graph/BitVectorIdentity.java:53-61 | equal operators have equal hash codes |
| BitVectorOperators.OrHashLosesNothing | com.ibm.wala.core/src/com/ibm/wala/dataflow/graph/BitVectorOr.java:52-55 | two ors hash alike only if their constants hash alike |
| CompoundIntIterator.HasNext | com.ibm.wala.core/src/com/ibm/wala/util/collections/CompoundIntIterator.java:39-41 | `hasNext` iff something remains in A or B |
| CompoundIntIterator.Next | com.ibm.wala.core/src/com/ibm/wala/util/collections/CompoundIntIterator.java:44-50 | `next` yields the first remaining element of A then B; it takes from A while A has elements, and B only afterwards |
| CompoundIntIterator.Drain | com.ibm.wala.core/src/com/ibm/wala/util/collections/CompoundIntIterator.java:39-50 | a full traversal yields A's elements followed by B's, \|A\| + \|B\| of them |
| HashCodeComparator.Compare | com.ibm.wala.core/src/com/ibm/wala/util/collections/HashCodeComparator.java:28-30 | a null argument throws NullPointerException; otherwise the result is the hash difference modulo 2^32 |
| HashCodeComparator.CompareEqualHashes | com.ibm.wala.core/src/com/ibm/wala/util/collections/HashCodeComparator.java:28-30 | equal hashes compare as 0 |
| HashCodeComparator.CompareSignWithoutOverflow | com.ibm.wala.core/src/com/ibm/wala/util/collections/HashCodeComparator.java:28-30 | when the difference fits in an int, the sign orders the hashes |
| HashCodeComparator.CompareNotAntisymmetric | com.ibm.wala.core/src/com/ibm/wala/util/collections/HashCodeComparator.java:28-30 | the as-written comparison says each of MIN_VALUE and 0 is below the other (see Findings) |
| HashCodeComparator.CompareNotTransitive | com.ibm.wala.core/src/com/ibm/wala/util/collections/HashCodeComparator.java:28-30 | the as-written comparison is not transitive (see Findings) |
| HashCodeComparator.CompareCorrected | com.ibm.wala.core/src/com/ibm/wala/util/collections/HashCodeComparator.java:28-30 | the corrected comparison is negative, zero or positive exactly as the first hash is below, equal to or above the second |
| HashCodeComparator.CorrectedAntisymmetric | com.ibm.wala.core/src/com/ibm/wala/util/collections/HashCodeComparator.java:28-30 | the corrected comparison is antisymmetric |
| HashCodeComparator.CorrectedTransitive | com.ibm.wala.core/src/com/ibm/wala/util/collections/HashCodeComparator.java:28-30 | the corrected comparison is transitive |
| HashCodeComparator.CorrectedAgreesWithoutOverflow | com.ibm.wala.core/src/com/ibm/wala/util/collections/HashCodeComparator.java:28-30 | where the difference fits in an int, the corrected comparison has the sign of the original |
| ArgumentTypeEntrypoint.ChooseAnImplementor | com.ibm.wala.core/src/com/ibm/wala/ipa/callgraph/impl/ArgumentTypeEntrypoint.java:74-81 | the first implementor the hierarchy yields, or null iff there is none |
| ArgumentTypeEntrypoint.FirstConcrete | com.ibm.wala.core/src/com/ibm/wala/ipa/callgraph/impl/ArgumentTypeEntrypoint.java:83-92 | the first non-abstract class, with every earlier one abstract, or null iff all are abstract |
| ArgumentTypeEntrypoint.ChooseAConcreteSubClass | com.ibm.wala.core/src/com/ibm/wala/ipa/callgraph/impl/ArgumentTypeEntrypoint.java:83-92 | null iff every subclass is abstract |
| ArgumentTypeEntrypoint.ArrayOfImplementor | com.ibm.wala.core/src/com/ibm/wala/ipa/callgraph/impl/ArgumentTypeEntrypoint.java:60-63 | the array loop wraps the implementor once, then once per further dimension: the innermost element is kept and the dimensionality is the array's, at least one |
| ArgumentTypeEntrypoint.ArrayTypeFor | com.ibm.wala.core/src/com/ibm/wala/ipa/callgraph/impl/ArgumentTypeEntrypoint.java:60-63 | the same construction, as a function |
| ArgumentTypeEntrypoint.ParameterType | com.ibm.wala.core/src/com/ibm/wala/ipa/callgraph/impl/ArgumentTypeEntrypoint.java:43-66 | a primitive is kept; an unresolvable type gives null; an abstract class (interface or not) gives its first non-abstract subclass, null iff all are abstract; a non-abstract interface gives its first implementor, null iff there is none; an interface array gives null iff the interface has no implementor, else a type with the implementor's innermost element and the implementor's dimensions plus the array's (at least one); any other class is kept |
| ArgumentTypeEntrypoint.ParameterTypeNullIffNoCandidate | com.ibm.wala.core/src/com/ibm/wala/ipa/callgraph/impl/ArgumentTypeEntrypoint.java:43-69 | a parameter gets an empty entry exactly when it is unresolvable, or an abstract class with only abstract subclasses, or an interface or interface array without an implementor |
| ArgumentTypeEntrypoint.ParameterTypeChosenFromHierarchy | com.ibm.wala.core/src/com/ibm/wala/ipa/callgraph/impl/ArgumentTypeEntrypoint.java:43-69 | every chosen type comes from the hierarchy, case by case: the parameter type for a primitive or a concrete class, a non-abstract subclass for an abstract class, an implementor for an interface, and an array of an implementor of the innermost interface for an interface array |
| ArgumentTypeEntrypoint.AbstractBeforeInterface | com.ibm.wala.core/src/com/ibm/wala/ipa/callgraph/impl/ArgumentTypeEntrypoint.java:48-51 | an abstract interface is treated as an abstract class: it gets a concrete subclass |
| ArgumentTypeEntrypoint.InterfaceArrayKeepsDimensionality | com.ibm.wala.core/src/com/ibm/wala/ipa/callgraph/impl/ArgumentTypeEntrypoint.java:52-66 | an array of an interface with an implementor becomes an array of the first implementor with the same dimensionality |
| ArgumentTypeEntrypoint.Entry | com.ibm.wala.core/src/com/ibm/wala/ipa/callgraph/impl/ArgumentTypeEntrypoint.java:69 | an entry is empty for null and otherwise the singleton of the chosen type |
| ArgumentTypeEntrypoint.MakeParameterTypes | com.ibm.wala.core/src/com/ibm/wala/ipa/callgraph/impl/ArgumentTypeEntrypoint.java:40-72 | one entry per parameter, each the singleton of the type `ParameterType` chose, and empty exactly when no candidate is available |
| ArgumentTypeEntrypoint.MakeEntrypoint | com.ibm.wala.core/src/com/ibm/wala/ipa/callgraph/impl/ArgumentTypeEntrypoint.java:98-102 | the constructed entrypoint has one entry per parameter, and `getParameterTypes(i)` returns entry i |
| ArgumentTypeEntrypoint.GetParameterTypes | com.ibm.wala.core/src/com/ibm/wala/ipa/callgraph/impl/ArgumentTypeEntrypoint.java:104-107 | entry i, or an array-index failure iff i is out of range |
| BypassSyntheticClass.GetName | com.ibm.wala.core/src/com/ibm/wala/ipa/summaries/BypassSyntheticClass.java:43-49 | a null type fails with IllegalArgumentException "T is null"; an empty name fails at `substring(1)`; otherwise the name is `L$` followed by the name with its first character dropped |
| BypassSyntheticClass.GetNameInverse | com.ibm.wala.core/src/com/ibm/wala/ipa/summaries/BypassSyntheticClass.java:43-49 | a name starting with `L` is recovered from its synthetic name |
| BypassSyntheticClass.GetNameCollides | com.ibm.wala.core/src/com/ibm/wala/ipa/summaries/BypassSyntheticClass.java:43-49 | two names get the same synthetic name iff they agree after the first character |
| BypassSyntheticClass.GetSuperclass | com.ibm.wala.core/src/com/ibm/wala/ipa/summaries/BypassSyntheticClass.java:75-85 | an interface's stand-in extends `java.lang.Object`, and fails with ClassHierarchyException iff the loader cannot find it; any other stand-in extends the real type |
| BypassSyntheticClass.SuperclassIsAClass | com.ibm.wala.core/src/com/ibm/wala/ipa/summaries/BypassSyntheticClass.java:75-85 | when the loader's `java.lang.Object` is a class, a stand-in's superclass is never an interface, and it is the real type exactly for a synthetic subclass |
| BypassSyntheticClass.GetAllImplementedInterfaces | com.ibm.wala.core/src/com/ibm/wala/ipa/summaries/BypassSyntheticClass.java:90-99 | for an interface, its ancestor interfaces plus itself; otherwise the real type's implemented interfaces |
| BypassSyntheticClass.GetAllAncestorInterfaces | com.ibm.wala.core/src/com/ibm/wala/ipa/summaries/BypassSyntheticClass.java:104-111 | exactly the real type's ancestor interfaces; that the real type is an interface is checked only under `Assertions.verifyAssertions`, so any real type is answered |
| BypassSyntheticClass.ImplementedExtendsAncestors | com.ibm.wala.core/src/com/ibm/wala/ipa/summaries/BypassSyntheticClass.java:90-111 | an interface's stand-in implements its ancestors and exactly one more interface, itself |
| BypassSyntheticClass.IsSyntheticImplementor | com.ibm.wala.core/src/com/ibm/wala/ipa/summaries/BypassSyntheticClass.java:166-168 | true iff the real type is an interface; such a stand-in lists the interface among its interfaces and takes its superclass from the loader, and any other extends the real type and has its interfaces |
| BypassSyntheticClass.Equals | com.ibm.wala.core/src/com/ibm/wala/ipa/summaries/BypassSyntheticClass.java:179-189 | false for null and for other classes; two stand-ins are equal iff their real types are |
| BypassSyntheticClass.Hash | com.ibm.wala.core/src/com/ibm/wala/ipa/summaries/BypassSyntheticClass.java:191-194 | the real type's hash times 1621, modulo 2^32 |
| BypassSyntheticClass.EqualsIsEquivalence | com.ibm.wala.core/src/com/ibm/wala/ipa/summaries/BypassSyntheticClass.java:179-189 | `equals` is reflexive, symmetric and transitive on stand-ins |
| BypassSyntheticClass.HashConsistentWithEquals | com.ibm.wala.core/src/com/ibm/wala/ipa/summaries/BypassSyntheticClass.java:179-194 | equal stand-ins have equal hash codes |
| BypassSyntheticClass.HashSeparatesRealHashes | com.ibm.wala.core/src/com/ibm/wala/ipa/summaries/BypassSyntheticClass.java:191-194 | two stand-ins hash alike only if their real types hash alike |
| SsaInstructions.CopyForSSA | com.ibm.wala.core/src/com/ibm/wala/ssa/SSAInstanceofInstruction.java:36-40 | a null or empty `defs` keeps the old result, else `defs[0]`; a null `uses` keeps the old ref, else `uses[0]`; a non-null empty `uses` fails out of bounds; the checked type is kept |
| SsaInstructions.CopyForSSARoundTrip | com.ibm.wala.core/src/com/ibm/wala/ssa/SSAInstanceofInstruction.java:36-40 | copying with the instruction's own defs and uses, or with neither, gives it back |
| SsaInstructions.CopyForSSAIdempotent | com.ibm.wala.core/src/com/ibm/wala/ssa/SSAInstanceofInstruction.java:36-40 | copying twice with the same arrays is copying once |
| SsaInstructions.InstanceofHasDef | com.ibm.wala.core/src/com/ibm/wala/ssa/SSAInstanceofInstruction.java:58-61 | `hasDef` is true: the instruction defines a value |
| SsaInstructions.InstanceofDefCount | com.ibm.wala.core/src/com/ibm/wala/ssa/SSAInstanceofInstruction.java:81-84 | exactly one def |
| SsaInstructions.InstanceofUseCount | com.ibm.wala.core/src/com/ibm/wala/ssa/SSAInstanceofInstruction.java:86-89 | exactly one use |
| SsaInstructions.InstanceofGetDef | com.ibm.wala.core/src/com/ibm/wala/ssa/SSAInstanceofInstruction.java:68-72 | `getDef(0)` is the one def, the result |
| SsaInstructions.InstanceofGetUse | com.ibm.wala.core/src/com/ibm/wala/ssa/SSAInstanceofInstruction.java:94-99 | `getUse` yields the one use, the ref |
| SsaInstructions.InstanceofHashSeparatesRefs | com.ibm.wala.core/src/com/ibm/wala/ssa/SSAInstanceofInstruction.java:101-104 | with the result fixed, different refs give different hashes |
| SsaInstructions.InstanceofHashSeparatesResults | com.ibm.wala.core/src/com/ibm/wala/ssa/SSAInstanceofInstruction.java:101-104 | with the ref fixed, different results give different hashes |
| SsaInstructions.ArrayReferenceUseCount | com.ibm.wala.core/src/com/ibm/wala/ssa/SSAArrayReferenceInstruction.java:37-40 | exactly two uses |
| SsaInstructions.ArrayReferenceGetUse | com.ibm.wala.core/src/com/ibm/wala/ssa/SSAArrayReferenceInstruction.java:45-50 | use 0 is the array and use 1 the index; any other index also yields the index |
| SsaInstructions.ArrayReferenceGettersRoundTrip | com.ibm.wala.core/src/com/ibm/wala/ssa/SSAArrayReferenceInstruction.java:26-75 | what the constructor is given comes back: use 0 is the array, use 1 the index, and `typeIsPrimitive` asks the given element type |
| SsaInstructions.ReflectiveGetUse | com.ibm.wala.core/src/com/ibm/wala/ssa/ReflectiveMemberAccess.java:43-48 | use 0 is the object and use 1 the member; any other index also yields the member |
| SsaInstructions.ReflectiveHashSeparatesMembers | com.ibm.wala.core/src/com/ibm/wala/ssa/ReflectiveMemberAccess.java:58-61 | with the object fixed, different members give different hashes |
| SsaInstructions.ReflectiveHashSeparatesObjects | com.ibm.wala.core/src/com/ibm/wala/ssa/ReflectiveMemberAccess.java:58-61 | with the member fixed, different objects give different hashes |
| SsaInstructions.MakeFieldAccess | com.ibm.wala.core/src/com/ibm/wala/ssa/SSAFieldAccessInstruction.java:29-36 | a null field fails with IllegalArgumentException "field cannot be null"; otherwise field and ref are stored |
| SsaInstructions.FieldAccessGettersRoundTrip | com.ibm.wala.core/src/com/ibm/wala/ssa/SSAFieldAccessInstruction.java:29-58 | the getters return what the constructor was given |
| SsaInstructions.Overrides | com.ibm.wala.core/src/com/ibm/wala/ssa/SSAArrayReferenceInstruction.java:80-91 | array references and field accesses may raise (`isPEI`); `instanceof`, array references and reflective accesses fall through. Besides the array-reference overrides cited here, the member models `isFallThrough` of `SSAInstanceofInstruction` (lines 109-112), `isFallThrough` of `ReflectiveMemberAccess` (lines 66-69) and `isPEI` of `SSAFieldAccessInstruction` (lines 63-66) |

## Left out

- The worklist solver itself (`solve`, the fixed-point iteration) is not part of this model. Only the equation builder is.
- The union-find's internals (`IntegerUnionFind`, with its path compression) are replaced by quick-find over a representative function. The model proves the classes are the finest partition that joins the recorded pairs. That is what the Java code relies on.
- Hash-map iteration order is a parameter, the `Layout`. Which slot becomes a class representative, and so which fresh variable a class shares, depends on it. Which slots share a variable does not.
- `toString` methods, logging and the `Assertions` debug checks are left out. An assertion that is always made (`getDef(i)`) is a precondition. One made only under `Assertions.verifyAssertions` (the `getUse` methods, `getAllAncestorInterfaces`) is left out, and the unchecked path is modelled.
- `CompoundIntIterator.hashCode` is left out. It is deliberately unreachable: it asserts and has no defined result.
- `CompoundIntIterator.Next` on an exhausted iterator is excluded by its precondition. The underlying iterators' behaviour there belongs to them.
- BitVectorOperators.Evaluate: requires a non-null left-hand side for `BitVectorOr`. With a null one, the Java code fails inside `BitVectorVariable.copyState`, which is not part of this model. A null right-hand side is likewise outside the model.
- `BitVector.hashCode` and `IClass.hashCode` are inputs: a function parameter and a field.
- `IClass.equals` on real types is modelled as equality of the modelled value.
- `HashCodeComparator.instance` is a singleton of object identity and has no behaviour to model.
- BypassSyntheticClass.Equals: ignores the loader, as the Java code does.
- Constructor arguments the Java code stores without a null check are never null in the model, and the NullPointerExceptions they would cause are outside it. These are the constant vector of `BitVectorOr` (its `evaluate`, `hashCode` and `equals` would throw), the two iterators of `CompoundIntIterator` (`hasNext` would throw), and the element type of `SSAArrayReferenceInstruction` (`typeIsPrimitive` would throw). The datatypes hold plain values there, not `Option`s.
- `BypassSyntheticClass.getClassInitializer` always returns null. `BypassSyntheticClass.ClassInitializer` records that, and nothing in the model depends on it, so it has no row of its own.
- The `BypassSyntheticClass` members that delegate to the real type (`getMethod`, `getField`, the declared-member collections, `getSourceFileName`) have no logic of their own and are left out. So is the constructor's `TypeReference` creation.
- The `isPEI` and `isFallThrough` answers the SSA records inherit from `SSAInstruction` are not part of this model. So are the base classes' own `isIdentity` and `equals`.
- DataflowEquations.BuildEquations: with a provider that has neither node nor edge transfer functions, the meets and the unary-meet unions read the corrected slot IN(p) for a predecessor p, where the Java code reads a null `getOut(p)` (Findings, first row). What the Java code then does with that null is not part of this model. The as-written read is stated by `ShortCircuit.PredVariableAsWrittenIsNull`.
- The hash codes of the SSA records (`SSAInstanceofInstruction.hashCode`, `ReflectiveMemberAccess.hashCode`) are stated by the lemmas that they separate their fields, not by a contract of their own.
- The meet operator's and the transfer functions' `evaluate` are opaque, since the builder only stores them. Identity-ness is a predicate of the provider.

## Findings

| source | as written | input that shows it | evidently intended | confidence | as-written member | corrected member |
|---|---|---|---|---|---|---|
| com.ibm.wala.core/src/com/ibm/wala/dataflow/graph/DataflowSolver.java:195-208 | without edge transfer functions the meet's right-hand side and the unary-meet union read `getOut(p)` for a predecessor p | a provider with neither node nor edge transfer functions: no OUT variables exist, so every predecessor variable is null | read the slot that carries p's value out of p: edge(p, n), else OUT(p), else IN(p) | not executed | ShortCircuit.PredVariableAsWrittenIsNull | ShortCircuit.PredSlotIsHeld |
| com.ibm.wala.core/src/com/ibm/wala/util/collections/HashCodeComparator.java:28-30 | `compare` returns the 32-bit wrapped difference of the hash codes | hashes MIN_VALUE and 0: each compares below the other; with MIN_VALUE, 0 and 0x40000001 the order is not transitive | order by the sign of the exact difference, a total order | not executed | HashCodeComparator.CompareNotAntisymmetric | HashCodeComparator.CorrectedTransitive |
