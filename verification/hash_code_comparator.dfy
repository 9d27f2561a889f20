/**
 * `HashCodeComparator`: orders objects by their hash codes, computing the
 * difference of the two codes in 32-bit arithmetic. An object is modelled by
 * its hash code, and a null reference by `None`.
 */
module HashCodeComparator {
  import opened Wrappers
  import opened JavaInt

  /**
   * `compare` as written: `o1.hashCode() - o2.hashCode()` with Java's
   * wrap-around, and a `NullPointerException` for a null argument.
   */
  function Compare(o1: Option<Int32>, o2: Option<Int32>): (r: Result<Int32, JavaException>)
    ensures r.Failure? <==> o1.None? || o2.None?
    ensures r.Failure? ==> r.error == NullPointerException
    ensures r.Success? ==> (r.value - (o1.value - o2.value)) % Modulus == 0
  {
    if o1.None? || o2.None? then Failure(NullPointerException)
    else Success(Wrap(o1.value - o2.value))
  }

  /** Equal hash codes, and in particular an object compared with itself, give 0. */
  lemma CompareEqualHashes(h: Int32)
    ensures Compare(Some(h), Some(h)) == Success(0)
  {
  }

  /** Without overflow, the sign of `compare` is the order of the hash codes. */
  lemma CompareSignWithoutOverflow(h1: Int32, h2: Int32)
    requires MinValue <= h1 - h2 <= MaxValue
    ensures Compare(Some(h1), Some(h2)).value < 0 <==> h1 < h2
    ensures Compare(Some(h1), Some(h2)).value == 0 <==> h1 == h2
    ensures Compare(Some(h1), Some(h2)).value > 0 <==> h1 > h2
  {
  }

  /**
   * The comparator contract needs sgn(compare(x, y)) = -sgn(compare(y, x)).
   * With overflow it fails: MIN_VALUE - 0 and 0 - MIN_VALUE both wrap to
   * MIN_VALUE, so each object is "less" than the other.
   */
  lemma CompareNotAntisymmetric()
    ensures Compare(Some(MinValue), Some(0)).value < 0
    ensures Compare(Some(0), Some(MinValue)).value < 0
  {
  }

  /**
   * The contract also needs transitivity. With a = MIN_VALUE, b = 0 and
   * c = 2^30 + 1: a < b and b < c by `compare`, yet a > c, because
   * MIN_VALUE - (2^30 + 1) wraps to a positive number.
   */
  lemma CompareNotTransitive()
    ensures Compare(Some(MinValue), Some(0)).value < 0
    ensures Compare(Some(0), Some(0x4000_0001)).value < 0
    ensures Compare(Some(MinValue), Some(0x4000_0001)).value > 0
  {
  }

  /** The sign of an integer, as `Integer.compare` reports it. */
  function Sign(x: int): int {
    if x < 0 then -1 else if x == 0 then 0 else 1
  }

  /** The evidently intended comparator: the sign of the exact difference of the hash codes. */
  function CompareCorrected(o1: Option<Int32>, o2: Option<Int32>): (r: Result<Int32, JavaException>)
    ensures r.Failure? <==> o1.None? || o2.None?
    ensures r.Failure? ==> r.error == NullPointerException
    ensures r.Success? ==> (r.value < 0 <==> o1.value < o2.value)
    ensures r.Success? ==> (r.value == 0 <==> o1.value == o2.value)
  {
    if o1.None? || o2.None? then Failure(NullPointerException)
    else Success(Sign(o1.value - o2.value))
  }

  /** The corrected comparator is antisymmetric. */
  lemma CorrectedAntisymmetric(h1: Int32, h2: Int32)
    ensures CompareCorrected(Some(h1), Some(h2)).value == -CompareCorrected(Some(h2), Some(h1)).value
  {
  }

  /** The corrected comparator is transitive. */
  lemma CorrectedTransitive(h1: Int32, h2: Int32, h3: Int32)
    requires CompareCorrected(Some(h1), Some(h2)).value < 0
    requires CompareCorrected(Some(h2), Some(h3)).value < 0
    ensures CompareCorrected(Some(h1), Some(h3)).value < 0
  {
  }

  /** Where the difference does not overflow, the corrected and the written comparator agree in sign. */
  lemma CorrectedAgreesWithoutOverflow(h1: Int32, h2: Int32)
    requires MinValue <= h1 - h2 <= MaxValue
    ensures Sign(Compare(Some(h1), Some(h2)).value) == CompareCorrected(Some(h1), Some(h2)).value
  {
  }
}
