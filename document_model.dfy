/**
 * The document model behind IDataHelper: a document is an ordered sequence of
 * (key, value) entries in which keys may repeat, and a value is null, a string,
 * a nested document or an array. Get, Put, Drop, Size, Remove, Copy, Rename and
 * Retain are defined on values here; DocumentHelper applies them to a
 * document object in place.
 */
module DocumentModel {
  import opened Wrappers
  import opened DocumentPath

  datatype Value = Null | Str(s: string) | Doc(entries: seq<Entry>) | Arr(items: seq<Value>)
  datatype Entry = Entry(key: string, value: Value)

  /** java.lang.ArrayIndexOutOfBoundsException, with the index and the array length. */
  datatype Error = IndexOutOfBounds(index: int, length: nat)

  // ---------------------------------------------------------------------------
  // Occurrences of a key

  /** The values of the entries with key `k`, in document order. */
  function Values(es: seq<Entry>, k: string): (vs: seq<Value>)
    ensures |vs| <= |es|
  {
    if es == [] then []
    else (if es[0].key == k then [es[0].value] else []) + Values(es[1..], k)
  }

  /** The number of occurrences of key `k`. */
  function Count(es: seq<Entry>, k: string): nat
  {
    |Values(es, k)|
  }

  /** The position of the n-th occurrence (from 0) of key `k`, if there is one. */
  function Occurrence(es: seq<Entry>, k: string, n: nat): (r: Option<nat>)
    ensures r.None? <==> n >= Count(es, k)
    ensures r.Some? ==> r.value < |es| && es[r.value].key == k && es[r.value].value == Values(es, k)[n]
    ensures r.Some? ==> Count(es[..r.value], k) == n
  {
    if es == [] then None
    else if es[0].key == k && n == 0 then Some(0)
    else
      var m := if es[0].key == k then n - 1 else n;
      var head := if es[0].key == k then [es[0].value] else [];
      assert Values(es, k) == head + Values(es[1..], k);
      match Occurrence(es[1..], k, m)
      case None => None
      case Some(j) =>
        OccurrenceShift(es, k, n, m, j);
        Some(j + 1)
  }

  /** The n-th occurrence in `es` is one place after the matching occurrence in its tail. */
  lemma OccurrenceShift(es: seq<Entry>, k: string, n: nat, m: nat, j: nat)
    requires es != [] && !(es[0].key == k && n == 0) && m == (if es[0].key == k then n - 1 else n)
    requires j < |es| - 1 && es[1..][j].key == k && m < Count(es[1..], k)
    requires es[1..][j].value == Values(es[1..], k)[m] && Count(es[1..][..j], k) == m
    ensures n < Count(es, k) && es[j + 1].key == k && es[j + 1].value == Values(es, k)[n]
    ensures Count(es[..j + 1], k) == n
  {
    assert Values(es, k)[n] == Values(es[1..], k)[m];
    assert es[..j + 1][1..] == es[1..][..j];
  }

  /** The value of the n-th occurrence of `k`; a missing occurrence reads as null. */
  function ValueOf(es: seq<Entry>, k: string, n: nat): Value
  {
    var vs := Values(es, k);
    if n < |vs| then vs[n] else Null
  }

  // ---------------------------------------------------------------------------
  // Reading

  /** An array index as written: -k is length-k. */
  function Index(i: int, length: nat): (j: int)
    ensures 0 <= j < length <==> -(length as int) <= i < length
  {
    if i < 0 then length + i else i
  }

  /** The value one path step addresses in a document. */
  function Locate(es: seq<Entry>, step: Step): Result<Value, Error>
  {
    match step.sel
    case First => Ok(ValueOf(es, step.key, 0))
    case Nth(n) => Ok(ValueOf(es, step.key, n))
    case At(i) =>
      match ValueOf(es, step.key, 0)
      case Arr(items) =>
        var j := Index(i, |items|);
        if 0 <= j < |items| then Ok(items[j]) else Err(IndexOutOfBounds(i, |items|))
      case _ => Ok(Null)
  }

  /** get(document, path). */
  function Get(es: seq<Entry>, p: Path): Result<Value, Error>
    decreases |p|
  {
    var v :- Locate(es, p[0]);
    if |p| == 1 then Ok(v)
    else
      match v
      case Doc(child) => Get(child, p[1..])
      case _ => Ok(Null)
  }

  /** The path without its last step, which addresses the document that holds the last step. */
  function Parent(p: Path): Path
    requires |p| > 1
  {
    p[..|p| - 1]
  }

  function Last(p: Path): Step
  {
    p[|p| - 1]
  }

  /** size(document, path): occurrences of the last key, or 1/0 when the path selects one value. */
  function Size(es: seq<Entry>, p: Path): Result<nat, Error>
  {
    var holder :- if |p| == 1 then Ok(Doc(es)) else Get(es, Parent(p));
    match holder
    case Doc(d) =>
      var last := Last(p);
      (match last.sel
       case First => Ok(Count(d, last.key))
       case Nth(n) => Ok(if n < Count(d, last.key) then 1 else 0)
       case At(i) =>
         match ValueOf(d, last.key, 0)
         case Arr(items) =>
           if -(|items| as int) <= i < |items| then Ok(1) else Err(IndexOutOfBounds(i, |items|))
         case _ => Ok(0))
    case _ => Ok(0)
  }

  // ---------------------------------------------------------------------------
  // Writing

  function Nulls(k: string, n: nat): (es: seq<Entry>)
    ensures |es| == n && forall i :: 0 <= i < n ==> es[i] == Entry(k, Null)
  {
    seq(n, _ => Entry(k, Null))
  }

  /**
   * Sets the n-th occurrence of `k` to `v`; when there are fewer occurrences,
   * null-valued entries with key `k` are appended first so that `v` becomes the n-th.
   */
  function PutOccurrence(es: seq<Entry>, k: string, n: nat, v: Value): seq<Entry>
  {
    match Occurrence(es, k, n)
    case Some(j) => es[j := Entry(k, v)]
    case None => es + Nulls(k, n - Count(es, k)) + [Entry(k, v)]
  }

  /** Sets array element `i`, growing the array with nulls when `i` is past its end. */
  function PutItem(items: seq<Value>, i: int, v: Value): Result<seq<Value>, Error>
  {
    var j := Index(i, |items|);
    if j < 0 then Err(IndexOutOfBounds(i, |items|))
    else if j < |items| then Ok(items[j := v])
    else Ok(items + seq(j - |items|, _ => Null) + [v])
  }

  /** Writes `v` at one path step; a missing or non-array value under `k[i]` counts as an empty array. */
  function PutStep(es: seq<Entry>, step: Step, v: Value): Result<seq<Entry>, Error>
  {
    match step.sel
    case First => Ok(PutOccurrence(es, step.key, 0, v))
    case Nth(n) => Ok(PutOccurrence(es, step.key, n, v))
    case At(i) =>
      var items := match ValueOf(es, step.key, 0) case Arr(items) => items case _ => [];
      var items' :- PutItem(items, i, v);
      Ok(PutOccurrence(es, step.key, 0, Arr(items')))
  }

  /** The nested document a step leads into, or an empty one that put will create. */
  function ChildOrEmpty(es: seq<Entry>, step: Step): seq<Entry>
  {
    match Locate(es, step)
    case Ok(Doc(child)) => child
    case _ => []
  }

  /** put(document, path, value), creating the documents along the path. */
  function Put(es: seq<Entry>, p: Path, v: Value): Result<seq<Entry>, Error>
    decreases |p|
  {
    if |p| == 1 then PutStep(es, p[0], v)
    else
      var child' :- Put(ChildOrEmpty(es, p[0]), p[1..], v);
      PutStep(es, p[0], Doc(child'))
  }

  /** Removes the n-th occurrence of `k`, if there is one. */
  function DropOccurrence(es: seq<Entry>, k: string, n: nat): seq<Entry>
  {
    match Occurrence(es, k, n)
    case Some(j) => es[..j] + es[j + 1..]
    case None => es
  }

  function DropStep(es: seq<Entry>, step: Step): Result<seq<Entry>, Error>
  {
    match step.sel
    case First => Ok(DropOccurrence(es, step.key, 0))
    case Nth(n) => Ok(DropOccurrence(es, step.key, n))
    case At(i) =>
      match ValueOf(es, step.key, 0)
      case Arr(items) =>
        var j := Index(i, |items|);
        if 0 <= j < |items| then Ok(PutOccurrence(es, step.key, 0, Arr(items[..j] + items[j + 1..])))
        else Err(IndexOutOfBounds(i, |items|))
      case _ => Ok(es)
  }

  /** drop(document, path): removes the addressed entry or array element. */
  function Drop(es: seq<Entry>, p: Path): Result<seq<Entry>, Error>
    decreases |p|
  {
    if |p| == 1 then DropStep(es, p[0])
    else
      var v :- Locate(es, p[0]);
      match v
      case Doc(child) =>
        var child' :- Drop(child, p[1..]);
        PutStep(es, p[0], Doc(child'))
      case _ => Ok(es)
  }

  /** remove(document, path): the value get would return, and the document after drop. */
  function Remove(es: seq<Entry>, p: Path): Result<(Value, seq<Entry>), Error>
  {
    var v :- Get(es, p);
    var es' :- Drop(es, p);
    Ok((v, es'))
  }

  /** copy(document, source, target): puts the source's value at the target unless it is null. */
  function Copy(es: seq<Entry>, source: Path, target: Path): Result<seq<Entry>, Error>
  {
    var v :- Get(es, source);
    if v == Null then Ok(es) else Put(es, target, v)
  }

  /** rename(document, source, target): copy, then drop the source. */
  function Rename(es: seq<Entry>, source: Path, target: Path): Result<seq<Entry>, Error>
  {
    var es' :- Copy(es, source, target);
    Drop(es', source)
  }

  /** clear(document, keep...): the entries whose key is listed, in their order. */
  function Retain(es: seq<Entry>, keep: seq<string>): seq<Entry>
  {
    if es == [] then []
    else (if es[0].key in keep then [es[0]] else []) + Retain(es[1..], keep)
  }
}
