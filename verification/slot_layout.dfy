/**
 * The dense numbering of variable slots the short-circuit pass uses: IN slots
 * first, then OUT slots, then edge slots, each group in its table's key
 * iteration order.
 */
module SlotLayout {
  import opened FlowGraph
  import opened VariableTables

  /**
   * The key order of the three tables. The Java code takes it from hash-map
   * iteration, so the model accepts any enumeration of the keys.
   */
  datatype Layout = Layout(inKeys: seq<Node>, outKeys: seq<Node>, edgeKeys: seq<(Node, Node)>)

  /** `size()`: the number of slots. */
  function Size(l: Layout): nat {
    |l.inKeys| + |l.outKeys| + |l.edgeKeys|
  }

  /** `isIn(i)`. */
  predicate IsIn(l: Layout, i: nat) {
    i < |l.inKeys|
  }

  /** `isOut(i)`. */
  predicate IsOut(l: Layout, i: nat) {
    !IsIn(l, i) && i < |l.inKeys| + |l.outKeys|
  }

  /** The slot numbered `i`: its table is chosen by the index range, its key by `getKey(i)`. */
  function SlotAt(l: Layout, i: nat): Slot
    requires i < Size(l)
  {
    if IsIn(l, i) then In(l.inKeys[i])
    else if IsOut(l, i) then Out(l.outKeys[i - |l.inKeys|])
    else
      var e := l.edgeKeys[i - |l.inKeys| - |l.outKeys|];
      Edge(e.0, e.1)
  }

  /** `ks` lists every key of `keys` exactly once. */
  ghost predicate Enumerates<K>(ks: seq<K>, keys: set<K>) {
    && Distinct(ks)
    && (forall i | 0 <= i < |ks| :: ks[i] in keys)
    && (forall k | k in keys :: k in ks)
  }

  /** The layout numbers exactly the slots the tables hold. */
  ghost predicate LaysOut(l: Layout, t: Tables) {
    && Enumerates(l.inKeys, t.inVars.Keys)
    && Enumerates(l.outKeys, t.outVars.Keys)
    && Enumerates(l.edgeKeys, t.edgeVars.Keys)
  }

  /** Whether the layout numbers slot `s`. */
  predicate Numbers(l: Layout, s: Slot) {
    match s
    case In(n) => n in l.inKeys
    case Out(n) => n in l.outKeys
    case Edge(a, b) => (a, b) in l.edgeKeys
  }

  /** The position of `k` in `ks`. */
  function Position<K(==)>(ks: seq<K>, k: K): (i: nat)
    requires k in ks
    ensures i < |ks| && ks[i] == k
  {
    if ks[0] == k then 0 else 1 + Position(ks[1..], k)
  }

  /** `getMappedIndex`: the number of a slot. */
  function IndexOf(l: Layout, s: Slot): (i: nat)
    requires Numbers(l, s)
    ensures i < Size(l) && SlotAt(l, i) == s
  {
    match s
    case In(n) => Position(l.inKeys, n)
    case Out(n) => |l.inKeys| + Position(l.outKeys, n)
    case Edge(a, b) => |l.inKeys| + |l.outKeys| + Position(l.edgeKeys, (a, b))
  }

  lemma {:induction false} DistinctCardinality<K>(ks: seq<K>)
    requires Distinct(ks)
    ensures |set k | k in ks| == |ks|
  {
    if ks != [] {
      var rest := ks[1..];
      assert Distinct(rest);
      DistinctCardinality(rest);
      assert (set k | k in ks) == (set k | k in rest) + {ks[0]};
      assert ks[0] !in rest;
    }
  }

  lemma EnumerationLength<K>(ks: seq<K>, keys: set<K>)
    requires Enumerates(ks, keys)
    ensures |ks| == |keys|
  {
    assert (set k | k in ks) == keys;
    DistinctCardinality(ks);
  }

  /**
   * The numbering is dense and partitioned: indices below `node2In.size()` are
   * exactly the IN slots, the next `node2Out.size()` the OUT slots, and the rest
   * up to the total size the edge slots.
   */
  lemma Partitioned(l: Layout, t: Tables, i: nat)
    requires LaysOut(l, t) && i < Size(l)
    ensures Size(l) == |t.inVars| + |t.outVars| + |t.edgeVars|
    ensures IsIn(l, i) <==> i < |t.inVars|
    ensures IsOut(l, i) <==> |t.inVars| <= i < |t.inVars| + |t.outVars|
    ensures SlotAt(l, i).In? <==> IsIn(l, i)
    ensures SlotAt(l, i).Out? <==> IsOut(l, i)
    ensures SlotAt(l, i).Edge? <==> !IsIn(l, i) && !IsOut(l, i)
  {
    EnumerationLength(l.inKeys, t.inVars.Keys);
    EnumerationLength(l.outKeys, t.outVars.Keys);
    EnumerationLength(l.edgeKeys, t.edgeVars.Keys);
  }

  /** The layout numbers a slot iff the tables hold it. */
  lemma NumbersExactlyTheTables(l: Layout, t: Tables, s: Slot)
    requires LaysOut(l, t)
    ensures Numbers(l, s) <==> Has(t, s)
  {
  }

  /** Distinct numbers name distinct slots. */
  lemma SlotAtInjective(l: Layout, t: Tables, i: nat, j: nat)
    requires LaysOut(l, t) && i < Size(l) && j < Size(l)
    requires SlotAt(l, i) == SlotAt(l, j)
    ensures i == j
  {
    var a, b := |l.inKeys|, |l.inKeys| + |l.outKeys|;
    if i < a && j < a {
      assert l.inKeys[i] == l.inKeys[j];
    } else if a <= i < b && a <= j < b {
      assert l.outKeys[i - a] == l.outKeys[j - a];
    } else if b <= i && b <= j {
      assert l.edgeKeys[i - b] == l.edgeKeys[j - b];
    }
  }

  /** Numbering a slot and reading the slot back are inverse. */
  lemma IndexOfSlotAt(l: Layout, t: Tables, i: nat)
    requires LaysOut(l, t) && i < Size(l)
    ensures Numbers(l, SlotAt(l, i)) && IndexOf(l, SlotAt(l, i)) == i
  {
    var s := SlotAt(l, i);
    assert Numbers(l, s);
    SlotAtInjective(l, t, IndexOf(l, s), i);
  }
}
