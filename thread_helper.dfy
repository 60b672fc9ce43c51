/**
 * ThreadHelper: thread priorities clamped to the range Java allows, and the
 * per-thread description of an array of threads.
 */
module ThreadHelper {
  import opened Wrappers

  /** Thread.MIN_PRIORITY and Thread.MAX_PRIORITY. */
  const MinPriority: int := 1
  const MaxPriority: int := 10

  /** normalizePriority(priority): below the range gives the minimum, above it the maximum. */
  function NormalizePriority(priority: int): (r: int)
    ensures priority < MinPriority ==> r == MinPriority
    ensures priority > MaxPriority ==> r == MaxPriority
    ensures MinPriority <= priority <= MaxPriority ==> r == priority
  {
    if priority < MinPriority then MinPriority
    else if priority > MaxPriority then MaxPriority
    else priority
  }

  /** The result is always a valid priority, and valid priorities are exactly the fixed points. */
  lemma NormalizeInRange(priority: int)
    ensures MinPriority <= NormalizePriority(priority) <= MaxPriority
    ensures NormalizePriority(priority) == priority <==> MinPriority <= priority <= MaxPriority
  {
  }

  lemma NormalizeIdempotent(priority: int)
    ensures NormalizePriority(NormalizePriority(priority)) == NormalizePriority(priority)
  {
  }

  /** Normalising keeps the order of priorities. */
  lemma NormalizeMonotonic(a: int, b: int)
    requires a <= b
    ensures NormalizePriority(a) <= NormalizePriority(b)
  {
  }

  /** toIData(thread): null for a null thread, the per-thread description otherwise. */
  function DescribeOne<T, D>(thread: Option<T>, toIData: T -> D): (d: Option<D>)
    ensures d.None? <==> thread.None?
    ensures thread.Some? ==> d == Some(toIData(thread.value))
  {
    match thread
    case Some(t) => Some(toIData(t))
    case None => None
  }

  /** The descriptions toIDataArray puts in place, one per thread. */
  function Describe<T, D>(threads: seq<Option<T>>, toIData: T -> D): (ds: seq<Option<D>>)
    ensures |ds| == |threads|
    ensures forall i :: 0 <= i < |threads| ==> ds[i] == DescribeOne(threads[i], toIData)
  {
    if threads == [] then []
    else [DescribeOne(threads[0], toIData)] + Describe(threads[1..], toIData)
  }

  /** Describing a joined array is describing each part. */
  lemma {:induction false} DescribeConcat<T, D>(a: seq<Option<T>>, b: seq<Option<T>>, toIData: T -> D)
    ensures Describe(a + b, toIData) == Describe(a, toIData) + Describe(b, toIData)
    decreases |a|
  {
    if a == [] {
      assert a + b == b;
    } else {
      assert (a + b)[1..] == a[1..] + b;
      DescribeConcat(a[1..], b, toIData);
    }
  }

  /** toIDataArray(threads): null for null, otherwise one description per thread, in place. */
  method ToIDataArray<T, D>(threads: array?<Option<T>>, toIData: T -> D) returns (output: array?<Option<D>>)
    ensures threads == null <==> output == null
    ensures threads != null ==> output != null && fresh(output) && output[..] == Describe(threads[..], toIData)
  {
    if threads == null {
      return null;
    }
    output := new Option<D>[threads.Length](_ => None);
    for i := 0 to threads.Length
      invariant forall j :: 0 <= j < i ==> output[j] == DescribeOne(threads[j], toIData)
    {
      output[i] := DescribeOne(threads[i], toIData);
    }
    assert output[..] == Describe(threads[..], toIData);
  }
}
