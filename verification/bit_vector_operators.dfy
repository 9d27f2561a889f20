/**
 * The two bit-vector transfer operators of the dataflow framework:
 * `BitVectorIdentity` (copy the right-hand side into the left) and
 * `BitVectorOr` (union a constant vector into the left). A bit vector is the
 * set of its set bits; a variable that may be null is an `Option`.
 */
module BitVectorOperators {
  import opened Wrappers
  import opened JavaInt

  /** A bit vector: the indices of its set bits. */
  type BitSet = set<nat>

  /** The verdict of `evaluate`: whether the left-hand side changed. */
  datatype Verdict = Changed | NotChanged

  /** What `evaluate` leaves behind: its verdict and the new left-hand side. */
  datatype Outcome = Outcome(verdict: Verdict, lhs: BitSet)

  /** A unary bit-vector operator: the identity singleton, or union with a constant `v`. */
  datatype Operator = Identity | Or(v: BitSet)

  /**
   * `BitVectorIdentity.evaluate`: a null left-hand side is rejected; otherwise
   * the left-hand side becomes a copy of the right, and the verdict says
   * whether that changed it.
   */
  function IdentityEvaluate(lhs: Option<BitSet>, rhs: BitSet): (r: Result<Outcome, JavaException>)
    ensures lhs.None? <==> r.Failure?
    ensures lhs.None? ==> r.error == IllegalArgumentException("lhs cannot be null")
    ensures r.Success? ==> r.value.lhs == rhs
    ensures r.Success? ==> (r.value.verdict == Changed <==> lhs.value != r.value.lhs)
  {
    if lhs.None? then Failure(IllegalArgumentException("lhs cannot be null"))
    else if lhs.value == rhs then Success(Outcome(NotChanged, lhs.value))
    else Success(Outcome(Changed, rhs))
  }

  /**
   * `BitVectorOr.evaluate`: the left-hand side becomes L ∪ R ∪ v, and the
   * verdict is `Changed` exactly when that differs from L. The union is built
   * in a fresh vector, so R and v are never touched.
   */
  function OrEvaluate(v: BitSet, lhs: BitSet, rhs: BitSet): (r: Outcome)
    ensures lhs <= r.lhs && rhs <= r.lhs && v <= r.lhs
    ensures forall b :: b in r.lhs ==> b in lhs || b in rhs || b in v
    ensures r.verdict == Changed <==> r.lhs != lhs
  {
    var u := lhs + rhs + v;
    if lhs != u then Outcome(Changed, u) else Outcome(NotChanged, lhs)
  }

  /** `evaluate` for either operator. */
  function Evaluate(op: Operator, lhs: Option<BitSet>, rhs: BitSet): (r: Result<Outcome, JavaException>)
    requires op.Or? ==> lhs.Some?
    ensures r.Success? <==> lhs.Some?
    ensures r.Success? ==> (r.value.verdict == Changed <==> lhs.value != r.value.lhs)
  {
    match op
    case Identity => IdentityEvaluate(lhs, rhs)
    case Or(v) => Success(OrEvaluate(v, lhs.value, rhs))
  }

  /** Evaluating again with the same right-hand side changes nothing, for either operator. */
  lemma EvaluateIdempotent(op: Operator, lhs: BitSet, rhs: BitSet)
    ensures var r := Evaluate(op, Some(lhs), rhs);
            r.Success? && Evaluate(op, Some(r.value.lhs), rhs) == Success(Outcome(NotChanged, r.value.lhs))
  {
  }

  /**
   * The identity copies, it does not union: its result is L ∪ R exactly when
   * L was already within R, and otherwise it drops the bits of L missing from R.
   */
  lemma IdentityCanShrink(lhs: BitSet, rhs: BitSet)
    ensures IdentityEvaluate(Some(lhs), rhs).value.lhs == lhs + rhs <==> lhs <= rhs
    ensures !(lhs <= rhs) ==> IdentityEvaluate(Some(lhs), rhs).value.lhs == lhs + rhs - (lhs - rhs)
  {
  }

  /** The identity's result depends on the right-hand side alone, whatever the left held before. */
  lemma IdentityForgetsLhs(l1: BitSet, l2: BitSet, rhs: BitSet)
    ensures IdentityEvaluate(Some(l1), rhs).value.lhs == IdentityEvaluate(Some(l2), rhs).value.lhs
  {
  }

  /** `BitVectorOr` is monotone: larger inputs give a larger result. */
  lemma OrMonotone(v: BitSet, l1: BitSet, l2: BitSet, r1: BitSet, r2: BitSet)
    requires l1 <= l2 && r1 <= r2
    ensures OrEvaluate(v, l1, r1).lhs <= OrEvaluate(v, l2, r2).lhs
  {
  }

  /** `BitVectorOr` reports no change exactly when L already covers R and v, and then leaves L alone. */
  lemma OrNotChangedIff(v: BitSet, lhs: BitSet, rhs: BitSet)
    ensures OrEvaluate(v, lhs, rhs).verdict == NotChanged <==> rhs <= lhs && v <= lhs
    ensures OrEvaluate(v, lhs, rhs).verdict == NotChanged ==> OrEvaluate(v, lhs, rhs).lhs == lhs
  {
  }

  /** `isIdentity`: true for the identity. `BitVectorOr` does not override the inherited answer. */
  function IsIdentity(op: Operator): (r: bool)
    requires op.Identity?
    ensures r
  {
    true
  }

  /**
   * What `isIdentity` licenses: the solver may let an identity's left- and
   * right-hand sides share one variable, because evaluating it on a shared
   * variable changes nothing, and from any start it lands on the right-hand side.
   */
  lemma IdentityJustifiesAliasing(op: Operator, lhs: BitSet, rhs: BitSet)
    requires op.Identity?
    ensures IsIdentity(op)
    ensures Evaluate(op, Some(rhs), rhs) == Success(Outcome(NotChanged, rhs))
    ensures Evaluate(op, Some(lhs), rhs).Success? && Evaluate(op, Some(lhs), rhs).value.lhs == rhs
  {
  }

  /** `equals`: every identity equals every identity; two ors are equal iff their constants are. */
  predicate Equals(a: Operator, b: Operator) {
    match a
    case Identity => b.Identity?
    case Or(v) => b.Or? && b.v == v
  }

  /**
   * `hashCode`: 9902 for the identity, and 9901 times the constant's hash,
   * wrapped to 32 bits, for an or. `vectorHash` is `BitVector.hashCode`, which
   * is not part of this model.
   */
  function HashCode(op: Operator, vectorHash: BitSet -> Int32): (h: Int32)
    ensures op.Identity? ==> h == 9902
    ensures op.Or? ==> (h - 9901 * vectorHash(op.v)) % Modulus == 0
  {
    match op
    case Identity => 9902
    case Or(v) => Wrap(9901 * vectorHash(v))
  }

  /** `equals` is the equality of the modelled values, so it is reflexive, symmetric and transitive. */
  lemma EqualsIsEquality(a: Operator, b: Operator)
    ensures Equals(a, b) <==> a == b
  {
  }

  /** Equal operators have equal hash codes. */
  lemma HashConsistentWithEquals(a: Operator, b: Operator, vectorHash: BitSet -> Int32)
    requires Equals(a, b)
    ensures HashCode(a, vectorHash) == HashCode(b, vectorHash)
  {
  }

  /** Two ors with equal hash codes have constants with equal hash codes: 9901 is invertible mod 2^32. */
  lemma OrHashLosesNothing(v1: BitSet, v2: BitSet, vectorHash: BitSet -> Int32)
    requires HashCode(Or(v1), vectorHash) == HashCode(Or(v2), vectorHash)
    ensures vectorHash(v1) == vectorHash(v2)
  {
    MulInjective(9901, 430320933, 992, vectorHash(v1), vectorHash(v2));
  }
}
