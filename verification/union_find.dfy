/**
 * The union-find over dense slot numbers, kept abstract as a representative
 * function `r`: slot `i` belongs to the class whose representative is `r[i]`.
 * `Union` and `UnionAll` are one concrete way of recording unions (quick-find);
 * the short-circuit pass works for every representative function.
 */
module UnionFind {

  /** `r` maps each of `|r|` slots to a representative that is its own representative. */
  ghost predicate IsRepresentative(r: seq<nat>) {
    forall i | 0 <= i < |r| :: r[i] < |r| && r[r[i]] == r[i]
  }

  /** A fresh union-find over `n` slots: every slot alone in its class. */
  function Singletons(n: nat): (r: seq<nat>)
    ensures |r| == n && IsRepresentative(r)
    ensures forall i | 0 <= i < n :: r[i] == i
  {
    seq(n, i => i)
  }

  /** `union(x, y)`: merge the classes of `x` and `y`, and nothing else. */
  function Union(r: seq<nat>, x: nat, y: nat): (r': seq<nat>)
    requires IsRepresentative(r) && x < |r| && y < |r|
    ensures |r'| == |r| && IsRepresentative(r')
    ensures r'[x] == r'[y]
    ensures forall i, j | 0 <= i < |r| && 0 <= j < |r| ::
              r'[i] == r'[j] <==> (|| r[i] == r[j]
                                    || (r[i] == r[x] && r[j] == r[y])
                                    || (r[i] == r[y] && r[j] == r[x]))
  {
    var rx, ry := r[x], r[y];
    seq(|r|, i requires 0 <= i < |r| => if r[i] == ry then rx else r[i])
  }

  /** Every pair of `pairs` names two slots below `n`. */
  ghost predicate PairsWithin(pairs: seq<(nat, nat)>, n: nat) {
    forall k | 0 <= k < |pairs| :: pairs[k].0 < n && pairs[k].1 < n
  }

  /** Record the unions `pairs` in order. */
  function UnionAll(r: seq<nat>, pairs: seq<(nat, nat)>): (r': seq<nat>)
    requires IsRepresentative(r) && PairsWithin(pairs, |r|)
    ensures |r'| == |r| && IsRepresentative(r')
    decreases |pairs|
  {
    if pairs == [] then r
    else UnionAll(Union(r, pairs[0].0, pairs[0].1), pairs[1..])
  }

  /** A colouring of slots is constant on each class of `r`. */
  ghost predicate ConstantOnClasses(colour: seq<int>, r: seq<nat>) {
    |colour| == |r| && forall i | 0 <= i < |r| :: r[i] < |r| && colour[i] == colour[r[i]]
  }

  /** A colouring of slots gives both slots of every pair the same colour. */
  ghost predicate RespectsPairs(colour: seq<int>, pairs: seq<(nat, nat)>) {
    forall k | 0 <= k < |pairs| ::
      pairs[k].0 < |colour| && pairs[k].1 < |colour| && colour[pairs[k].0] == colour[pairs[k].1]
  }

  /** After `UnionAll`, both slots of every recorded pair share a class, and old classes persist. */
  lemma {:induction false} UnionAllJoins(r: seq<nat>, pairs: seq<(nat, nat)>)
    requires IsRepresentative(r) && PairsWithin(pairs, |r|)
    ensures forall k | 0 <= k < |pairs| ::
              UnionAll(r, pairs)[pairs[k].0] == UnionAll(r, pairs)[pairs[k].1]
    ensures forall i, j | 0 <= i < |r| && 0 <= j < |r| && r[i] == r[j] ::
              UnionAll(r, pairs)[i] == UnionAll(r, pairs)[j]
    decreases |pairs|
  {
    if pairs != [] {
      var r1 := Union(r, pairs[0].0, pairs[0].1);
      UnionAllJoins(r1, pairs[1..]);
      var rAll := UnionAll(r, pairs);
      assert rAll == UnionAll(r1, pairs[1..]);
      forall k | 0 <= k < |pairs|
        ensures rAll[pairs[k].0] == rAll[pairs[k].1]
      {
        if k > 0 {
          assert pairs[k] == pairs[1..][k - 1];
        }
      }
    }
  }

  /**
   * `UnionAll` merges no more than it must: every colouring that is constant on
   * the starting classes and agrees on each recorded pair is constant on the
   * resulting classes. So two slots share a class only when a chain of
   * recorded unions connects them.
   */
  lemma {:induction false} UnionAllFinest(r: seq<nat>, pairs: seq<(nat, nat)>, colour: seq<int>)
    requires IsRepresentative(r) && PairsWithin(pairs, |r|)
    requires ConstantOnClasses(colour, r) && RespectsPairs(colour, pairs)
    ensures ConstantOnClasses(colour, UnionAll(r, pairs))
    decreases |pairs|
  {
    if pairs != [] {
      var x, y := pairs[0].0, pairs[0].1;
      var r1 := Union(r, x, y);
      forall i | 0 <= i < |r1|
        ensures colour[i] == colour[r1[i]]
      {
        if r[i] == r[y] {
          assert r1[i] == r[x];
          assert colour[i] == colour[r[i]] == colour[r[y]] == colour[y];
          assert colour[x] == colour[r[x]];
        }
      }
      assert RespectsPairs(colour, pairs[1..]) by {
        forall k | 0 <= k < |pairs[1..]|
          ensures colour[pairs[1..][k].0] == colour[pairs[1..][k].1]
        {
          assert pairs[1..][k] == pairs[k + 1];
        }
      }
      UnionAllFinest(r1, pairs[1..], colour);
    }
  }
}
