/**
 * `CompoundIntIterator`: an iterator over the integers of iterator A followed
 * by those of iterator B. An iterator is modelled by the sequence of the
 * elements it has yet to yield.
 */
module CompoundIntIterator {

  /** The two underlying iterators, each as the elements it has left. */
  datatype Compound = Compound(a: seq<int>, b: seq<int>)

  /** Everything the compound iterator has left to yield, in order. */
  function Remaining(c: Compound): seq<int> {
    c.a + c.b
  }

  /** `hasNext`: either underlying iterator has an element left. */
  function HasNext(c: Compound): (r: bool)
    ensures r <==> |Remaining(c)| > 0
  {
    |c.a| > 0 || |c.b| > 0
  }

  /**
   * `next`: take from A while A has elements, and only then from B. The
   * result is the next element of the concatenation and the iterator that
   * is left yields the rest of it.
   */
  function Next(c: Compound): (r: (int, Compound))
    requires HasNext(c)
    ensures [r.0] + Remaining(r.1) == Remaining(c)
    ensures |c.a| > 0 ==> r.0 == c.a[0] && r.1.b == c.b
    ensures |c.a| == 0 ==> r.1.a == c.a
  {
    if |c.a| > 0 then (c.a[0], Compound(c.a[1..], c.b))
    else (c.b[0], Compound(c.a, c.b[1..]))
  }

  /**
   * Drain the iterator with the usual `while (hasNext()) next()` loop: the
   * elements come out as A's followed by B's, |A| + |B| of them.
   */
  method Drain(c: Compound) returns (out: seq<int>)
    ensures out == c.a + c.b
    ensures |out| == |c.a| + |c.b|
  {
    var it := c;
    out := [];
    while HasNext(it)
      invariant out + Remaining(it) == c.a + c.b
      decreases |Remaining(it)|
    {
      var step := Next(it);
      out := out + [step.0];
      it := step.1;
    }
  }
}
