/**
 * What get, put, drop, size, copy, rename and clear promise about each other,
 * proved on the document model.
 */
module DocumentProperties {
  import opened Wrappers
  import opened DocumentPath
  import opened DocumentModel

  // ---------------------------------------------------------------------------
  // Occurrence bookkeeping

  /** Sequence facts kept apart from the document functions, which makes them cheap to use. */
  lemma ConcatFront<T>(a: seq<T>, b: seq<T>)
    ensures a == [] ==> a + b == b
    ensures a != [] ==> (a + b)[0] == a[0] && (a + b)[1..] == a[1..] + b
  {
    if a != [] {
      assert (a + b)[1..] == a[1..] + b;
    }
  }

  lemma ConcatAssoc<T>(x: seq<T>, y: seq<T>, z: seq<T>)
    ensures x + (y + z) == (x + y) + z
  {
  }

  lemma {:induction false} ValuesConcat(a: seq<Entry>, b: seq<Entry>, k: string)
    ensures Values(a + b, k) == Values(a, k) + Values(b, k)
  {
    ConcatFront(a, b);
    if a != [] {
      ValuesConcat(a[1..], b, k);
      ConcatAssoc(if a[0].key == k then [a[0].value] else [], Values(a[1..], k), Values(b, k));
    }
  }

  lemma ValuesNulls(k: string, n: nat, k': string)
    ensures Values(Nulls(k, n), k') == if k' == k then seq(n, _ => Null) else []
    decreases n
  {
    if n > 0 {
      assert Nulls(k, n)[1..] == Nulls(k, n - 1);
      ValuesNulls(k, n - 1, k');
    }
  }

  /** The values of a key around the entry at position j. */
  lemma ValuesAround(es: seq<Entry>, j: nat, k: string)
    requires j < |es|
    ensures Values(es, k) == Values(es[..j], k) + Values([es[j]], k) + Values(es[j + 1..], k)
  {
    assert es == es[..j] + [es[j]] + es[j + 1..];
    ValuesConcat(es[..j] + [es[j]], es[j + 1..], k);
    ValuesConcat(es[..j], [es[j]], k);
  }

  lemma ValuesSingle(e: Entry, k: string)
    ensures Values([e], k) == if e.key == k then [e.value] else []
  {
    assert [e][1..] == [];
  }

  /** Replacing the n-th occurrence of k changes the n-th value of k and nothing else. */
  lemma ValuesReplace(es: seq<Entry>, k: string, n: nat, v: Value, k': string)
    requires Occurrence(es, k, n).Some?
    ensures var j := Occurrence(es, k, n).value;
      Values(es[j := Entry(k, v)], k') == if k' == k then Values(es, k)[n := v] else Values(es, k')
  {
    var j := Occurrence(es, k, n).value;
    var es' := es[j := Entry(k, v)];
    ValuesAround(es, j, k');
    ValuesAround(es', j, k');
    UpdateAround(es, j, Entry(k, v));
    ValuesSingle(es[j], k');
    ValuesSingle(es'[j], k');
    if k' == k {
      UpdateMiddle(Values(es[..j], k), es[j].value, Values(es[j + 1..], k), v);
    }
  }

  lemma UpdateAround<T>(x: seq<T>, j: nat, y: T)
    requires j < |x|
    ensures x[j := y][..j] == x[..j] && x[j := y][j + 1..] == x[j + 1..] && x[j := y][j] == y
  {
  }

  lemma UpdateMiddle<T>(x: seq<T>, y: T, z: seq<T>, w: T)
    ensures (x + [y] + z)[|x| := w] == x + [w] + z
  {
  }

  lemma SliceAround<T>(x: seq<T>, y: T, z: seq<T>)
    ensures (x + [y] + z)[..|x|] == x && (x + [y] + z)[|x| + 1..] == z
  {
  }

  /** The values of a key once the entry at position j is cut out. */
  lemma ValuesCut(es: seq<Entry>, j: nat, k': string)
    requires j < |es|
    ensures Values(es[..j] + es[j + 1..], k') == Values(es[..j], k') + Values(es[j + 1..], k')
    ensures Values(es, k') == Values(es[..j], k') + Values([es[j]], k') + Values(es[j + 1..], k')
  {
    ValuesConcat(es[..j], es[j + 1..], k');
    ValuesAround(es, j, k');
  }

  /** Removing the n-th occurrence of k, at position j, removes the n-th value of k and nothing else. */
  lemma ValuesRemove(es: seq<Entry>, k: string, n: nat, j: nat, k': string)
    requires j < |es| && es[j].key == k && Count(es[..j], k) == n && n < Count(es, k)
    ensures Values(es[..j] + es[j + 1..], k') ==
      if k' == k then Values(es, k)[..n] + Values(es, k)[n + 1..] else Values(es, k')
  {
    ValuesCut(es, j, k');
    ValuesSingle(es[j], k');
    if k' == k {
      SliceAround(Values(es[..j], k), es[j].value, Values(es[j + 1..], k));
    }
  }

  // ---------------------------------------------------------------------------
  // put

  /**
   * put at k(n): the n-th value of k becomes v, earlier values are kept, a gap is
   * filled with nulls, and every other key keeps its values.
   */
  lemma PutOccurrenceValues(es: seq<Entry>, k: string, n: nat, v: Value, k': string)
    ensures var es', vs := PutOccurrence(es, k, n, v), Values(es, k);
      && (k' != k ==> Values(es', k') == Values(es, k'))
      && (n < |vs| ==> Values(es', k) == vs[n := v] && |es'| == |es|)
      && (n >= |vs| ==> Values(es', k) == vs + seq(n - |vs|, _ => Null) + [v] && |es'| == |es| + n - |vs| + 1)
  {
    var vs := Values(es, k);
    if n < |vs| {
      ValuesReplace(es, k, n, v, k');
      ValuesReplace(es, k, n, v, k);
    } else {
      var pad := Nulls(k, n - |vs|);
      ValuesConcat(es + pad, [Entry(k, v)], k');
      ValuesConcat(es, pad, k');
      ValuesNulls(k, n - |vs|, k');
      ValuesSingle(Entry(k, v), k');
      ValuesConcat(es + pad, [Entry(k, v)], k);
      ValuesConcat(es, pad, k);
      ValuesNulls(k, n - |vs|, k);
      ValuesSingle(Entry(k, v), k);
    }
  }

  lemma ValueOfPutOccurrence(es: seq<Entry>, k: string, n: nat, v: Value)
    ensures ValueOf(PutOccurrence(es, k, n, v), k, n) == v
  {
    PutOccurrenceValues(es, k, n, v, k);
  }

  lemma PutItemAt(items: seq<Value>, i: int, v: Value)
    requires PutItem(items, i, v).Ok?
    ensures var items' := PutItem(items, i, v).value;
      0 <= Index(i, |items'|) < |items'| && items'[Index(i, |items'|)] == v
  {
  }

  /** Reading a step right after writing it gives the written value. */
  lemma LocatePutStep(es: seq<Entry>, step: Step, v: Value)
    requires PutStep(es, step, v).Ok?
    ensures Locate(PutStep(es, step, v).value, step) == Ok(v)
  {
    match step.sel
    case First => ValueOfPutOccurrence(es, step.key, 0, v);
    case Nth(n) => ValueOfPutOccurrence(es, step.key, n, v);
    case At(i) =>
      var items := match ValueOf(es, step.key, 0) case Arr(items) => items case _ => [];
      PutItemAt(items, i, v);
      ValueOfPutOccurrence(es, step.key, 0, Arr(PutItem(items, i, v).value));
  }

  /** k(n) reads the n-th value of k, and null when k occurs n times or fewer; a bare k is k(0). */
  lemma GetOccurrence(es: seq<Entry>, k: string, n: nat)
    ensures Get(es, [Step(k, Nth(n))]) == Ok(if n < Count(es, k) then Values(es, k)[n] else Null)
    ensures Get(es, [Step(k, First)]) == Get(es, [Step(k, Nth(0))])
  {
  }

  /** k[i] selects item i of the array k, -1 being the last; outside -length..length-1 it fails. */
  lemma GetArrayIndex(es: seq<Entry>, k: string, i: int, items: seq<Value>)
    requires ValueOf(es, k, 0) == Arr(items)
    ensures -(|items| as int) <= i < |items| ==> Get(es, [Step(k, At(i))]) == Ok(items[Index(i, |items|)])
    ensures !(-(|items| as int) <= i < |items|) ==> Get(es, [Step(k, At(i))]) == Err(IndexOutOfBounds(i, |items|))
    ensures i < 0 && -(|items| as int) <= i ==> Get(es, [Step(k, At(i))]) == Ok(items[|items| + i])
  {
  }

  /** a/rest reads rest inside the document a holds; a path through a non-document reads null. */
  lemma GetDescend(es: seq<Entry>, p: Path)
    requires |p| > 1
    ensures match Locate(es, p[0])
      case Ok(Doc(c)) => Get(es, p) == Get(c, p[1..])
      case Ok(_) => Get(es, p) == Ok(Null)
      case Err(e) => Get(es, p) == Err(e)
  {
  }

  /** get(put(d, p, v), p) == v, along any path. */
  lemma {:induction false} GetPut(es: seq<Entry>, p: Path, v: Value)
    requires Put(es, p, v).Ok?
    ensures Get(Put(es, p, v).value, p) == Ok(v)
    decreases |p|
  {
    if |p| == 1 {
      LocatePutStep(es, p[0], v);
    } else {
      var child := ChildOrEmpty(es, p[0]);
      var child' := Put(child, p[1..], v).value;
      LocatePutStep(es, p[0], Doc(child'));
      GetPut(child, p[1..], v);
    }
  }

  /** Reading a path depends only on the values of its first key. */
  lemma GetSameHead(es: seq<Entry>, es': seq<Entry>, p: Path)
    requires Values(es', p[0].key) == Values(es, p[0].key)
    ensures Get(es', p) == Get(es, p)
  {
    LocateSameValues(es, es', p[0]);
  }

  lemma LocateSameValues(es: seq<Entry>, es': seq<Entry>, step: Step)
    requires Values(es', step.key) == Values(es, step.key)
    ensures Locate(es', step) == Locate(es, step)
  {
    match step.sel
    case First =>
    case Nth(n) => assert ValueOf(es', step.key, n) == ValueOf(es, step.key, n);
    case At(i) => assert ValueOf(es', step.key, 0) == ValueOf(es, step.key, 0);
  }

  lemma {:induction false} PutOtherKeys(es: seq<Entry>, p: Path, v: Value, k': string)
    requires Put(es, p, v).Ok? && k' != p[0].key
    ensures Values(Put(es, p, v).value, k') == Values(es, k')
  {
    var w := if |p| == 1 then v else Doc(Put(ChildOrEmpty(es, p[0]), p[1..], v).value);
    match p[0].sel
    case First => PutOccurrenceValues(es, p[0].key, 0, w, k');
    case Nth(n) => PutOccurrenceValues(es, p[0].key, n, w, k');
    case At(i) =>
      var items := match ValueOf(es, p[0].key, 0) case Arr(items) => items case _ => [];
      PutOccurrenceValues(es, p[0].key, 0, Arr(PutItem(items, i, w).value), k');
  }

  predicate HasNoIndex(p: seq<Step>) {
    forall i :: 0 <= i < |p| ==> !p[i].sel.At?
  }

  /** Only an array index can make put fail. */
  lemma {:induction false} PutWithoutIndexSucceeds(es: seq<Entry>, p: Path, v: Value)
    requires HasNoIndex(p)
    ensures Put(es, p, v).Ok?
    decreases |p|
  {
    if |p| > 1 {
      assert HasNoIndex(p[1..]) by {
        forall i | 0 <= i < |p[1..]| ensures !p[1..][i].sel.At? {
          assert p[1..][i] == p[i + 1];
        }
      }
      PutWithoutIndexSucceeds(ChildOrEmpty(es, p[0]), p[1..], v);
    }
  }

  /** put at k[i] with -len <= i < len replaces element i; it fails only below -len. */
  lemma PutIndexBounds(items: seq<Value>, i: int, v: Value)
    ensures PutItem(items, i, v).Err? <==> i < -(|items| as int)
    ensures -(|items| as int) <= i < |items| ==> PutItem(items, i, v) == Ok(items[Index(i, |items|) := v])
    ensures i >= |items| ==> PutItem(items, i, v) == Ok(items + seq(i - |items|, _ => Null) + [v])
  {
  }

  // ---------------------------------------------------------------------------
  // drop

  /**
   * drop at k(n): the n-th value of k goes and later ones move down one place;
   * an occurrence that is not there leaves the document as it was.
   */
  lemma DropOccurrenceValues(es: seq<Entry>, k: string, n: nat, k': string)
    ensures var es', vs := DropOccurrence(es, k, n), Values(es, k);
      && (k' != k ==> Values(es', k') == Values(es, k'))
      && (n < |vs| ==> Values(es', k) == vs[..n] + vs[n + 1..] && |es'| == |es| - 1)
      && (n >= |vs| ==> es' == es)
  {
    if n < |Values(es, k)| {
      var j := Occurrence(es, k, n).value;
      ValuesRemove(es, k, n, j, k');
      ValuesRemove(es, k, n, j, k);
    }
  }

  /** drop at k[i]: element i of the array goes, or the drop fails when i is out of range. */
  lemma DropIndex(es: seq<Entry>, k: string, i: int, items: seq<Value>)
    requires ValueOf(es, k, 0) == Arr(items)
    ensures DropStep(es, Step(k, At(i))).Err? <==> !(-(|items| as int) <= i < |items|)
    ensures DropStep(es, Step(k, At(i))).Err? ==> DropStep(es, Step(k, At(i))).error == IndexOutOfBounds(i, |items|)
    ensures DropStep(es, Step(k, At(i))).Ok? ==>
      var j := Index(i, |items|);
      && ValueOf(DropStep(es, Step(k, At(i))).value, k, 0) == Arr(items[..j] + items[j + 1..])
      && |DropStep(es, Step(k, At(i))).value| == |es|
      && forall k' :: k' != k ==> Values(DropStep(es, Step(k, At(i))).value, k') == Values(es, k')
  {
    var j := Index(i, |items|);
    if 0 <= j < |items| {
      var rest := items[..j] + items[j + 1..];
      ValueOfPutOccurrence(es, k, 0, Arr(rest));
      PutOccurrenceValues(es, k, 0, Arr(rest), k);
      forall k' | k' != k ensures Values(PutOccurrence(es, k, 0, Arr(rest)), k') == Values(es, k') {
        PutOccurrenceValues(es, k, 0, Arr(rest), k');
      }
    }
  }

  /** A step that reads a nested document can be written back without an index error. */
  lemma PutStepAtDocument(es: seq<Entry>, step: Step, c: seq<Entry>, w: Value)
    requires Locate(es, step) == Ok(Doc(c))
    ensures PutStep(es, step, w).Ok?
  {
  }

  /** Writing back the document a step reads leaves the document as it was. */
  lemma PutStepLocated(es: seq<Entry>, step: Step, c: seq<Entry>)
    requires Locate(es, step) == Ok(Doc(c))
    ensures PutStep(es, step, Doc(c)) == Ok(es)
  {
    var k := step.key;
    match step.sel
    case First =>
      var j := Occurrence(es, k, 0).value;
      assert es[j := Entry(k, es[j].value)] == es;
    case Nth(n) =>
      var j := Occurrence(es, k, n).value;
      assert es[j := Entry(k, es[j].value)] == es;
    case At(i) =>
      var items := ValueOf(es, k, 0).items;
      var ji := Index(i, |items|);
      assert items[ji := items[ji]] == items;
      var j := Occurrence(es, k, 0).value;
      assert es[j := Entry(k, es[j].value)] == es;
  }

  lemma ParentTail(p: Path)
    requires |p| > 2
    ensures Parent(p)[0] == p[0] && Parent(p)[1..] == Parent(p[1..]) && Last(p) == Last(p[1..])
  {
  }

  /** A drop along a path leaves every other top-level key's values as they were. */
  lemma DropOtherKeys(es: seq<Entry>, p: Path, k': string)
    requires |p| > 1 && Drop(es, p).Ok? && k' != p[0].key
    ensures Values(Drop(es, p).value, k') == Values(es, k')
  {
    var v := Locate(es, p[0]).value;
    if v.Doc? {
      var w := Doc(Drop(v.entries, p[1..]).value);
      match p[0].sel
      case First => PutOccurrenceValues(es, p[0].key, 0, w, k');
      case Nth(n) => PutOccurrenceValues(es, p[0].key, n, w, k');
      case At(i) =>
        var items := match ValueOf(es, p[0].key, 0) case Arr(items) => items case _ => [];
        PutOccurrenceValues(es, p[0].key, 0, Arr(PutItem(items, i, w).value), k');
    }
  }

  /**
   * drop along a path acts on the document that holds the last step: that document
   * is replaced by the result of dropping the last step from it, an index error
   * there is the error of the whole drop, and if the path does not lead to a
   * document nothing changes.
   */
  lemma {:induction false} DropAddressed(es: seq<Entry>, p: Path)
    requires |p| > 1
    ensures match Get(es, Parent(p))
      case Err(e) => Drop(es, p) == Err(e)
      case Ok(Doc(d)) =>
        && (Drop(es, p).Err? <==> DropStep(d, Last(p)).Err?)
        && (Drop(es, p).Err? ==> Drop(es, p).error == DropStep(d, Last(p)).error)
        && (Drop(es, p).Ok? ==> Get(Drop(es, p).value, Parent(p)) == Ok(Doc(DropStep(d, Last(p)).value)))
      case Ok(_) => Drop(es, p) == Ok(es)
    decreases |p|
  {
    match Locate(es, p[0])
    case Err(e) =>
    case Ok(v) =>
      if v.Doc? {
        if |p| == 2 {
          assert Parent(p) == [p[0]] && Last(p) == p[1];
          match DropStep(v.entries, p[1])
          case Err(e) =>
          case Ok(c') =>
            PutStepAtDocument(es, p[0], v.entries, Doc(c'));
            LocatePutStep(es, p[0], Doc(c'));
        } else {
          ParentTail(p);
          DropAddressed(v.entries, p[1..]);
          match Drop(v.entries, p[1..])
          case Err(e) =>
          case Ok(c') =>
            PutStepAtDocument(es, p[0], v.entries, Doc(c'));
            LocatePutStep(es, p[0], Doc(c'));
            if !Get(v.entries, Parent(p[1..])).value.Doc? {
              PutStepLocated(es, p[0], v.entries);
            }
        }
      } else if |p| > 2 {
        ParentTail(p);
      }
  }

  // ---------------------------------------------------------------------------
  // size

  lemma SizeDescend(es: seq<Entry>, p: Path, c: seq<Entry>)
    requires |p| > 1 && Locate(es, p[0]) == Ok(Doc(c))
    ensures Size(es, p) == Size(c, p[1..])
  {
    if |p| > 2 {
      ParentTail(p);
    } else {
      assert Parent(p) == [p[0]];
    }
  }

  lemma SizeAfterPutNth(es: seq<Entry>, p: Path, v: Value)
    requires |p| == 1 && p[0].sel.Nth?
    ensures Put(es, p, v).Ok? && Size(Put(es, p, v).value, p) == Ok(1)
  {
    PutOccurrenceValues(es, p[0].key, p[0].sel.n, v, p[0].key);
  }

  /** After put along a path ending in k(n), size of that path is 1. */
  lemma {:induction false} SizeAfterPutOccurrence(es: seq<Entry>, p: Path, v: Value)
    requires Last(p).sel.Nth? && Put(es, p, v).Ok?
    ensures Size(Put(es, p, v).value, p) == Ok(1)
    decreases |p|
  {
    if |p| == 1 {
      SizeAfterPutNth(es, p, v);
    } else {
      SizeThroughPut(es, p, v);
      SizeAfterPutOccurrence(ChildOrEmpty(es, p[0]), p[1..], v);
    }
  }

  /** A put along a longer path reads back through its first step. */
  lemma SizeThroughPut(es: seq<Entry>, p: Path, v: Value)
    requires |p| > 1 && Put(es, p, v).Ok?
    ensures Put(ChildOrEmpty(es, p[0]), p[1..], v).Ok? && Last(p[1..]) == Last(p)
    ensures Size(Put(es, p, v).value, p) == Size(Put(ChildOrEmpty(es, p[0]), p[1..], v).value, p[1..])
  {
    var child' := Put(ChildOrEmpty(es, p[0]), p[1..], v).value;
    LocatePutStep(es, p[0], Doc(child'));
    SizeDescend(Put(es, p, v).value, p, child');
  }

  /** After put of a key, size of that key counts its occurrences, at least one more than none. */
  lemma SizeAfterPutKey(es: seq<Entry>, k: string, v: Value)
    ensures var es' := Put(es, [Step(k, First)], v).value;
      Size(es', [Step(k, First)]) == Ok(if Count(es, k) == 0 then 1 else Count(es, k))
      && |es'| == |es| + (if Count(es, k) == 0 then 1 else 0)
  {
    PutOccurrenceValues(es, k, 0, v, k);
  }

  // ---------------------------------------------------------------------------
  // copy, rename, remove, clear

  /**
   * copy of a key with a non-null value to a different key: the source is kept,
   * the target holds the value, every key but the target keeps its values, and
   * the document grows by one entry when the target was absent.
   */
  lemma CopyKey(es: seq<Entry>, s: string, t: string)
    requires s != t && ValueOf(es, s, 0) != Null
    ensures Copy(es, [Step(s, First)], [Step(t, First)]).Ok?
    ensures var es' := Copy(es, [Step(s, First)], [Step(t, First)]).value;
      && Values(es', s) == Values(es, s)
      && ValueOf(es', t, 0) == ValueOf(es, s, 0)
      && |es'| == |es| + (if Count(es, t) == 0 then 1 else 0)
      && forall k' :: k' != t ==> Values(es', k') == Values(es, k')
  {
    var v := ValueOf(es, s, 0);
    PutOccurrenceValues(es, t, 0, v, t);
    forall k' | k' != t
      ensures Values(Copy(es, [Step(s, First)], [Step(t, First)]).value, k') == Values(es, k')
    {
      PutOccurrenceValues(es, t, 0, v, k');
    }
  }

  /** copy whose source reads as null changes nothing. */
  lemma CopyNullSource(es: seq<Entry>, s: Path, t: Path)
    requires Get(es, s) == Ok(Null)
    ensures Copy(es, s, t) == Ok(es)
  {
  }

  /**
   * rename of a key with a non-null first value to a different key: the first
   * occurrence of the source goes and its later occurrences stay, the target
   * holds the value, every other key keeps its values, and the document
   * keeps its size when the target was absent and shrinks by one otherwise.
   */
  lemma RenameKey(es: seq<Entry>, s: string, t: string)
    requires s != t && ValueOf(es, s, 0) != Null
    ensures Rename(es, [Step(s, First)], [Step(t, First)]).Ok?
    ensures var es' := Rename(es, [Step(s, First)], [Step(t, First)]).value;
      && Values(es', s) == Values(es, s)[1..]
      && ValueOf(es', t, 0) == ValueOf(es, s, 0)
      && |es'| == |es| + (if Count(es, t) == 0 then 1 else 0) - 1
      && forall k' :: k' != s && k' != t ==> Values(es', k') == Values(es, k')
  {
    CopyKey(es, s, t);
    var es1 := Copy(es, [Step(s, First)], [Step(t, First)]).value;
    assert Drop(es1, [Step(s, First)]) == Ok(DropOccurrence(es1, s, 0));
    DropOccurrenceValues(es1, s, 0, s);
    DropOccurrenceValues(es1, s, 0, t);
    forall k' | k' != s && k' != t
      ensures Values(DropOccurrence(es1, s, 0), k') == Values(es, k')
    {
      DropOccurrenceValues(es1, s, 0, k');
    }
  }

  /** remove of a key returns its first value, null when absent, and drops that entry. */
  lemma RemoveKey(es: seq<Entry>, k: string)
    ensures Remove(es, [Step(k, First)]) == Ok((ValueOf(es, k, 0), DropOccurrence(es, k, 0)))
    ensures Count(es, k) == 0 ==> Remove(es, [Step(k, First)]) == Ok((Null, es))
  {
    DropOccurrenceValues(es, k, 0, k);
  }

  /** clear(d, keep...) keeps exactly the listed keys' values, and creates none. */
  lemma {:induction false} RetainValues(es: seq<Entry>, keep: seq<string>, k: string)
    ensures Values(Retain(es, keep), k) == if k in keep then Values(es, k) else []
  {
    if es != [] {
      RetainValues(es[1..], keep, k);
      var head := if es[0].key in keep then [es[0]] else [];
      ValuesConcat(head, Retain(es[1..], keep), k);
      if es[0].key in keep {
        ValuesSingle(es[0], k);
      }
    }
  }

  /** clear keeps entries in their order: every kept entry has a listed key. */
  lemma {:induction false} RetainKeys(es: seq<Entry>, keep: seq<string>)
    ensures forall i :: 0 <= i < |Retain(es, keep)| ==> Retain(es, keep)[i].key in keep
    ensures |Retain(es, keep)| <= |es|
  {
    if es != [] {
      RetainKeys(es[1..], keep);
    }
  }
}
