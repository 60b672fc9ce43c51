/**
 * The scenarios of IDataHelperTest replayed on the document model: the fixture
 * document is a=1, b=2, c=3.
 */
module DocumentExamples {
  import opened Wrappers
  import opened DocumentPath
  import opened DocumentModel
  import opened DocumentProperties
  import DocumentSort
  import IntegerHelper
  import JavaLang

  function Fixture(): seq<Entry> {
    [Entry("a", Str("1")), Entry("b", Str("2")), Entry("c", Str("3"))]
  }

  /** The values of each key in the fixture. */
  lemma FixtureValues(k: string)
    ensures Values(Fixture(), k) == (if k == "a" then [Str("1")] else []) +
      (if k == "b" then [Str("2")] else []) + (if k == "c" then [Str("3")] else [])
  {
    var f := Fixture();
    var c := (if k == "c" then [Str("3")] else []);
    assert Values(f[2..], k) == c by {
      assert f[2..][1..] == [];
    }
    assert Values(f[1..], k) == (if k == "b" then [Str("2")] else []) + c by {
      assert f[1..][1..] == f[2..];
    }
  }

  function Strings(ss: seq<string>): (vs: seq<Value>)
    ensures |vs| == |ss| && forall i :: 0 <= i < |ss| ==> vs[i] == Str(ss[i])
  {
    if ss == [] then [] else [Str(ss[0])] + Strings(ss[1..])
  }

  /** The path strings of the tests parse to the steps used below. */
  lemma ParseOccurrenceExample()
    ensures Parse("a(2)") == [Step("a", Nth(2))]
  {
    var p: Path := [Step("a", Nth(2))];
    assert IntegerHelper.ToDigits(2, 10) == "2";
    assert RenderStep(p[0]) == "a" + "(" + "2" + ")" == "a(2)";
    assert RenderSteps(p) == [RenderStep(p[0])] + RenderSteps([]);
    ParseRender(p);
  }

  lemma ParseIndexExample()
    ensures Parse("a[1]") == [Step("a", At(1))]
  {
    var p: Path := [Step("a", At(1))];
    assert IntegerHelper.ToDigits(1, 10) == "1";
    assert RenderStep(p[0]) == "a" + "[" + "1" + "]" == "a[1]";
    assert RenderSteps(p) == [RenderStep(p[0])] + RenderSteps([]);
    ParseRender(p);
  }

  lemma ParseNegativeIndexExample()
    ensures Parse("a[-1]") == [Step("a", At(-1))]
  {
    var p: Path := [Step("a", At(-1))];
    assert IntegerHelper.ToDigits(1, 10) == "1";
    assert RenderStep(p[0]) == "a" + "[-" + "1" + "]" == "a[-1]";
    assert RenderSteps(p) == [RenderStep(p[0])] + RenderSteps([]);
    ParseRender(p);
  }

  lemma ParseNestedExample()
    ensures Parse("a/b(2)") == [Step("a", First), Step("b", Nth(2))]
  {
    var p: Path := [Step("a", First), Step("b", Nth(2))];
    assert IntegerHelper.ToDigits(2, 10) == "2";
    assert RenderStep(p[1]) == "b" + "(" + "2" + ")" == "b(2)";
    assert RenderSteps(p[1..]) == [RenderStep(p[1])] + RenderSteps([]);
    assert RenderSteps(p) == ["a", "b(2)"];
    assert Render(p) == "a" + "/" + "b(2)" == "a/b(2)";
    ParseRender(p);
  }

  lemma PadOne(a: Value, b: Value)
    ensures [a] + seq(1, _ => Null) + [b] == [a, Null, b]
  {
  }

  /** put at k(n) past the last occurrence of k pads with nulls and appends. */
  lemma PutNthBeyond(es: seq<Entry>, k: string, n: nat, v: Value)
    requires n >= |Values(es, k)|
    ensures var r, vs := Put(es, [Step(k, Nth(n))], v), Values(es, k);
      && r.Ok? && |r.value| == |es| + n - |vs| + 1
      && Values(r.value, k) == vs + seq(n - |vs|, _ => Null) + [v]
  {
    PutOccurrenceValues(es, k, n, v, k);
  }

  /** put(document, "a(2)", "4"): five entries, a(0) kept, a(1) padded with null, a(2) written. */
  lemma PutWithIndex()
    ensures Put(Fixture(), [Step("a", Nth(2))], Str("4")).Ok?
    ensures var es := Put(Fixture(), [Step("a", Nth(2))], Str("4")).value;
      |es| == 5 && Values(es, "a") == [Str("1"), Null, Str("4")]
  {
    FixtureValues("a");
    PutNthBeyond(Fixture(), "a", 2, Str("4"));
    PadOne(Str("1"), Str("4"));
  }

  /** put(document, "a/b", "1") replaces the text a with a document holding b. */
  lemma PutWithPath()
    ensures var p := [Step("a", First), Step("b", First)];
      var es := Put(Fixture(), p, Str("1"));
      es.Ok? && Get(es.value, p) == Ok(Str("1"))
  {
    var p: Path := [Step("a", First), Step("b", First)];
    PutWithoutIndexSucceeds(Fixture(), p, Str("1"));
    GetPut(Fixture(), p, Str("1"));
  }

  /** put at k[0] when k is missing writes a one-element array under k. */
  lemma PutArrayMissing(es: seq<Entry>, k: string, v: Value)
    requires Values(es, k) == []
    ensures var r := Put(es, [Step(k, At(0))], v);
      r.Ok? && Get(r.value, [Step(k, First)]) == Ok(Arr([v]))
  {
    var p: Path := [Step(k, At(0))];
    assert ValueOf(es, k, 0) == Null;
    PutIndexBounds([], 0, v);
    assert [] + seq(0, _ => Null) + [v] == [v];
    assert Put(es, p, v) == Ok(PutOccurrence(es, k, 0, Arr([v])));
    ValueOfPutOccurrence(es, k, 0, Arr([v]));
  }

  /** put(document, "z[0]", "1") on a missing key: a one-element array. */
  lemma PutWithArrayIndex()
    ensures var es := Put(Fixture(), [Step("z", At(0))], Str("1"));
      es.Ok? && Get(es.value, [Step("z", First)]) == Ok(Arr([Str("1")]))
  {
    FixtureValues("z");
    PutArrayMissing(Fixture(), "z", Str("1"));
  }

  /** The nested document put(document, "a/b[0]", "1") creates. */
  function ArrayChild(): seq<Entry>
  {
    PutOccurrence([], "b", 0, Arr([Str("1")]))
  }

  lemma PutArrayChildResult()
    ensures Put(Fixture(), [Step("a", First), Step("b", At(0))], Str("1"))
      == Ok(PutOccurrence(Fixture(), "a", 0, Doc(ArrayChild())))
  {
    var f := Fixture();
    var p: Path := [Step("a", First), Step("b", At(0))];
    assert ChildOrEmpty(f, p[0]) == [];
    assert p[1..] == [Step("b", At(0))];
    PutIndexBounds([], 0, Str("1"));
    assert [] + seq(0, _ => Null) + [Str("1")] == [Str("1")];
  }

  /** put(document, "a/b[0]", "1"): get(document, "a/b") is the one-element array. */
  lemma PutWithPathAndArrayIndex()
    ensures var es := Put(Fixture(), [Step("a", First), Step("b", At(0))], Str("1"));
      es.Ok? && Get(es.value, [Step("a", First), Step("b", First)]) == Ok(Arr([Str("1")]))
  {
    PutArrayChildResult();
    ValueOfPutOccurrence(Fixture(), "a", 0, Doc(ArrayChild()));
    ValueOfPutOccurrence([], "b", 0, Arr([Str("1")]));
    var q: Path := [Step("a", First), Step("b", First)];
    assert q[1..] == [Step("b", First)];
  }

  /** The nested document put at k2(n) creates in an empty one: n nulls, then the value. */
  lemma PutNthIntoEmpty(k2: string, n: nat, v: Value)
    ensures var r := Put([], [Step(k2, Nth(n))], v);
      && r.Ok? && Values(r.value, k2) == seq(n, _ => Null) + [v]
  {
    PutOccurrenceValues([], k2, n, v, k2);
    assert [] + seq(n, _ => Null) + [v] == seq(n, _ => Null) + [v];
  }

  lemma PutNthIntoEmptyAt(k2: string, n: nat, v: Value, i: nat)
    ensures var r := Put([], [Step(k2, Nth(n))], v);
      r.Ok? && ValueOf(r.value, k2, i) == if i == n then v else Null
  {
    PutNthIntoEmpty(k2, n, v);
  }

  /** put at k/k2(n) when k is missing: one new entry k holding a document whose k2(n) is the value. */
  lemma PutNestedMissing(es: seq<Entry>, k: string, k2: string, n: nat, v: Value)
    requires Values(es, k) == []
    ensures var r := Put(es, [Step(k, First), Step(k2, Nth(n))], v);
      && r.Ok? && |r.value| == |es| + 1
      && Locate(r.value, Step(k, First)) == Ok(Doc(Put([], [Step(k2, Nth(n))], v).value))
  {
    var p: Path := [Step(k, First), Step(k2, Nth(n))];
    assert p[1..] == [Step(k2, Nth(n))];
    assert ChildOrEmpty(es, p[0]) == [];
    PutNthIntoEmpty(k2, n, v);
    var child := Put([], [Step(k2, Nth(n))], v).value;
    PutOccurrenceValues(es, k, 0, Doc(child), k);
    ValueOfPutOccurrence(es, k, 0, Doc(child));
  }

  /** The i-th occurrence of k2 in the nested document of PutNthIntoEmpty. */
  lemma NestedOccurrence(es: seq<Entry>, k: string, k2: string, child: seq<Entry>, i: nat)
    requires Locate(es, Step(k, First)) == Ok(Doc(child))
    ensures Get(es, [Step(k, First), Step(k2, Nth(i))]) == Ok(ValueOf(child, k2, i))
  {
    var q: Path := [Step(k, First), Step(k2, Nth(i))];
    assert q[1..] == [Step(k2, Nth(i))];
  }

  /** After that put, k/k2(i) reads the value at i == n and null elsewhere. */
  lemma PutNestedMissingReads(es: seq<Entry>, k: string, k2: string, n: nat, v: Value, i: nat)
    requires Values(es, k) == []
    ensures var r := Put(es, [Step(k, First), Step(k2, Nth(n))], v);
      r.Ok? && Get(r.value, [Step(k, First), Step(k2, Nth(i))]) == Ok(if i == n then v else Null)
  {
    PutNestedMissing(es, k, k2, n, v);
    var es' := Put(es, [Step(k, First), Step(k2, Nth(n))], v).value;
    NestedOccurrence(es', k, k2, Put([], [Step(k2, Nth(n))], v).value, i);
    PutNthIntoEmptyAt(k2, n, v, i);
  }

  /** put(document, "y/z(2)", "4"): a new nested document whose z(0) and z(1) are null. */
  lemma PutWithPathAndIndex()
    ensures Put(Fixture(), [Step("y", First), Step("z", Nth(2))], Str("4")).Ok?
    ensures var es := Put(Fixture(), [Step("y", First), Step("z", Nth(2))], Str("4")).value;
      && |es| == 4
      && Get(es, [Step("y", First), Step("z", Nth(2))]) == Ok(Str("4"))
      && Get(es, [Step("y", First), Step("z", Nth(0))]) == Ok(Null)
      && Get(es, [Step("y", First), Step("z", Nth(1))]) == Ok(Null)
  {
    FixtureValues("y");
    PutNestedMissing(Fixture(), "y", "z", 2, Str("4"));
    PutNestedMissingReads(Fixture(), "y", "z", 2, Str("4"), 0);
    PutNestedMissingReads(Fixture(), "y", "z", 2, Str("4"), 1);
    PutNestedMissingReads(Fixture(), "y", "z", 2, Str("4"), 2);
  }

  /** drop(parent, "a[1]") on a = [1, 2, 3] leaves a = [1, 3]. */
  lemma DropWithArrayIndex()
    ensures var parent := [Entry("a", Arr(Strings(["1", "2", "3"])))];
      Drop(parent, [Step("a", At(1))]).Ok? &&
      Get(Drop(parent, [Step("a", At(1))]).value, [Step("a", First)]) == Ok(Arr(Strings(["1", "3"])))
  {
    var items := Strings(["1", "2", "3"]);
    var parent := [Entry("a", Arr(items))];
    assert Values(parent, "a") == [Arr(items)] by {
      assert parent[1..] == [];
    }
    DropIndex(parent, "a", 1, items);
    assert items[..1] + items[2..] == Strings(["1", "3"]);
  }

  /** drop over two steps, the first of which leads into a nested document. */
  lemma DropTwoSteps(es: seq<Entry>, a: Step, b: Step, child: seq<Entry>)
    requires Locate(es, a) == Ok(Doc(child)) && !a.sel.At? && DropStep(child, b).Ok?
    ensures var d := Drop(es, [a, b]);
      d.Ok? && Get(d.value, [a, b]) == Locate(DropStep(child, b).value, b)
  {
    var p: Path := [a, b];
    assert p[1..] == [b];
    LocatePutStep(es, a, Doc(DropStep(child, b).value));
  }

  function FourB(): seq<Entry> {
    [Entry("b", Str("1")), Entry("b", Str("2")), Entry("b", Str("3")), Entry("b", Str("4"))]
  }

  lemma FourBValues()
    ensures Values(FourB(), "b") == [Str("1"), Str("2"), Str("3"), Str("4")]
  {
    var c := FourB();
    assert Values(c[3..], "b") == [Str("4")] by { assert c[3..][1..] == []; }
    assert Values(c[2..], "b") == [Str("3"), Str("4")] by { assert c[2..][1..] == c[3..]; }
    assert Values(c[1..], "b") == [Str("2"), Str("3"), Str("4")] by { assert c[1..][1..] == c[2..]; }
  }

  /** The value under the only entry of a one-entry document. */
  lemma SingleLocate(k: string, v: Value)
    ensures Locate([Entry(k, v)], Step(k, First)) == Ok(v)
  {
    var es := [Entry(k, v)];
    assert es[1..] == [];
  }

  /**
   * drop(parent, "a/b(2)") where a holds b=1, b=2, b=3, b=4: afterwards a is
   * the child without its third b, three entries long, and a/b(2) reads 4.
   */
  lemma DropNestedOccurrence()
    ensures Drop([Entry("a", Doc(FourB()))], [Step("a", First), Step("b", Nth(2))]).Ok?
    ensures var d := Drop([Entry("a", Doc(FourB()))], [Step("a", First), Step("b", Nth(2))]).value;
      && d == [Entry("a", Doc(DropOccurrence(FourB(), "b", 2)))]
      && |DropOccurrence(FourB(), "b", 2)| == 3
      && Get(d, [Step("a", First), Step("b", Nth(2))]) == Ok(Str("4"))
  {
    var child := FourB();
    SingleLocate("a", Doc(child));
    FourBValues();
    DropOccurrenceValues(child, "b", 2, "b");
    var vs := [Str("1"), Str("2"), Str("3"), Str("4")];
    assert (vs[..2] + vs[3..])[2] == Str("4");
    DropTwoSteps([Entry("a", Doc(child))], Step("a", First), Step("b", Nth(2)), child);
  }

  /** get(parent, "a[-1]") is the last element, and "a[3]" and "a[-4]" are out of bounds. */
  lemma GetWithArrayIndex()
    ensures var parent := [Entry("a", Arr(Strings(["1", "2", "3"])))];
      && Get(parent, [Step("a", At(-1))]) == Ok(Str("3"))
      && Get(parent, [Step("a", At(-3))]) == Ok(Str("1"))
      && Get(parent, [Step("a", At(3))]) == Err(IndexOutOfBounds(3, 3))
      && Get(parent, [Step("a", At(-4))]) == Err(IndexOutOfBounds(-4, 3))
  {
    var parent := [Entry("a", Arr(Strings(["1", "2", "3"])))];
    assert Values(parent, "a") == [Arr(Strings(["1", "2", "3"]))] by {
      assert parent[1..] == [];
    }
  }

  /** drop(document, "a(2)") when a occurs twice changes nothing. */
  lemma DropWithIndexOutOfBounds()
    ensures var d := [Entry("a", Str("1")), Entry("a", Str("2"))];
      Drop(d, [Step("a", Nth(2))]) == Ok(d)
  {
    var d := [Entry("a", Str("1")), Entry("a", Str("2"))];
    assert Values(d, "a") == [Str("1"), Str("2")] by {
      assert d[1..] == [Entry("a", Str("2"))];
      assert d[1..][1..] == [];
    }
    DropOccurrenceValues(d, "a", 2, "a");
  }

  /** rename(document, "c", "d") and copy(document, "c", "d") on the fixture. */
  lemma RenameAndCopy()
    ensures var r := Rename(Fixture(), [Step("c", First)], [Step("d", First)]);
      r.Ok? && |r.value| == 3 && ValueOf(r.value, "c", 0) == Null && ValueOf(r.value, "d", 0) == Str("3")
    ensures var c := Copy(Fixture(), [Step("c", First)], [Step("d", First)]);
      c.Ok? && |c.value| == 4 && ValueOf(c.value, "c", 0) == Str("3") && ValueOf(c.value, "d", 0) == Str("3")
  {
    var f := Fixture();
    FixtureValues("c");
    FixtureValues("d");
    RenameKey(f, "c", "d");
    CopyKey(f, "c", "d");
  }

  /** clear(document, "a", "z") keeps a and does not create z. */
  lemma ClearWithMissingKey()
    ensures Retain(Fixture(), ["a", "z"]) == [Entry("a", Str("1"))]
  {
    var f := Fixture();
    assert f[1..] == [Entry("b", Str("2")), Entry("c", Str("3"))];
    assert f[1..][1..] == [Entry("c", Str("3"))];
    assert f[1..][1..][1..] == [];
  }

  function Record(text: string, number: string): seq<Entry> {
    [Entry("string", Str(text)), Entry("integer", Str(number))]
  }

  lemma RecordKeys(text: string, number: string, n: int)
    requires IntegerHelper.ParseDecimal(Some(number)) == Ok(Some(n))
    ensures DocumentSort.KeyOf(Record(text, number), DocumentSort.Criterion("string", DocumentSort.Text, false)) == DocumentSort.Name(text)
    ensures DocumentSort.KeyOf(Record(text, number), DocumentSort.Criterion("integer", DocumentSort.Whole, false)) == DocumentSort.Number(n)
  {
    var r := Record(text, number);
    assert r[1..] == [Entry("integer", Str(number))] && r[1..][1..] == [];
    assert Values(r, "string") == [Str(text)];
    assert Values(r, "integer") == [] + Values(r[1..], "integer") == [Str(number)];
  }

  function Criteria(): seq<DocumentSort.Criterion> {
    [DocumentSort.Criterion("string", DocumentSort.Text, false),
     DocumentSort.Criterion("integer", DocumentSort.Whole, false)]
  }

  /** Records compare by their text first and their number second. */
  lemma CompareRecords(t1: string, n1: string, v1: int, t2: string, n2: string, v2: int)
    requires IntegerHelper.ParseDecimal(Some(n1)) == Ok(Some(v1))
    requires IntegerHelper.ParseDecimal(Some(n2)) == Ok(Some(v2))
    ensures DocumentSort.Compare(Record(t1, n1), Record(t2, n2), Criteria()) ==
      if t1 != t2 then JavaLang.CompareTo(t1, t2) else if v1 < v2 then -1 else if v1 == v2 then 0 else 1
  {
    RecordKeys(t1, n1, v1);
    RecordKeys(t2, n2, v2);
    var cs := Criteria();
    var x, y := Record(t1, n1), Record(t2, n2);
    assert cs[1..][1..] == [];
    assert DocumentSort.CompareBy(x, y, cs[0]) == JavaLang.CompareTo(t1, t2);
    assert DocumentSort.CompareBy(x, y, cs[1..][0]) == if v1 < v2 then -1 else if v1 == v2 then 0 else 1;
    assert DocumentSort.Compare(x, y, cs[1..][1..]) == 0;
  }

  lemma ParseNumbers()
    ensures IntegerHelper.ParseDecimal(Some("25")) == Ok(Some(25))
    ensures IntegerHelper.ParseDecimal(Some("26")) == Ok(Some(26))
    ensures IntegerHelper.ParseDecimal(Some("99")) == Ok(Some(99))
  {
    IntegerHelper.TwoDigitsValue('2', '5', 10);
    IntegerHelper.ParseDigits("25", 10);
    IntegerHelper.TwoDigitsValue('2', '6', 10);
    IntegerHelper.ParseDigits("26", 10);
    IntegerHelper.TwoDigitsValue('9', '9', 10);
    IntegerHelper.ParseDigits("99", 10);
  }

  /** Sorting three documents x, y, z with z < x < y. */
  lemma SortThree(x: seq<Entry>, y: seq<Entry>, z: seq<Entry>, cs: seq<DocumentSort.Criterion>)
    requires DocumentSort.Compare(y, z, cs) > 0 && DocumentSort.Compare(x, z, cs) > 0
    requires DocumentSort.Compare(x, y, cs) < 0
    ensures DocumentSort.Sort([x, y, z], cs) == [z, x, y]
  {
    SortTwo(y, z, cs);
    DocumentSort.SortStep([x, y, z], cs);
    assert [x, y, z][1..] == [y, z];
    InsertBetween(x, z, y, cs);
  }

  lemma SortTwo(y: seq<Entry>, z: seq<Entry>, cs: seq<DocumentSort.Criterion>)
    requires DocumentSort.Compare(y, z, cs) > 0
    ensures DocumentSort.Sort([y, z], cs) == [z, y]
  {
    DocumentSort.SortStep([y, z], cs);
    DocumentSort.SortStep([z], cs);
    assert [y, z][1..] == [z] && [z][1..] == [];
    DocumentSort.InsertAfter(y, [z], cs);
    assert [z][1..] == [];
  }

  lemma InsertBetween(x: seq<Entry>, z: seq<Entry>, y: seq<Entry>, cs: seq<DocumentSort.Criterion>)
    requires DocumentSort.Compare(x, z, cs) > 0 && DocumentSort.Compare(x, y, cs) < 0
    requires DocumentSort.Sorted([z, y], cs)
    ensures DocumentSort.Insert(x, [z, y], cs) == [z, x, y]
  {
    DocumentSort.InsertAfter(x, [z, y], cs);
    assert [z, y][1..] == [y];
    DocumentSort.InsertBefore(x, [y], cs);
  }

  /**
   * sort by "string" then "integer", both ascending, of (a, 26), (z, 99), (a, 25):
   * (a, 25), (a, 26), (z, 99).
   */
  lemma SortWithMultipleKeys()
    ensures DocumentSort.Sort([Record("a", "26"), Record("z", "99"), Record("a", "25")], Criteria()) ==
      [Record("a", "25"), Record("a", "26"), Record("z", "99")]
  {
    ParseNumbers();
    assert JavaLang.CompareTo("z", "a") > 0 && JavaLang.CompareTo("a", "z") < 0;
    CompareRecords("z", "99", 99, "a", "25", 25);
    CompareRecords("a", "26", 26, "a", "25", 25);
    CompareRecords("a", "26", 26, "z", "99", 99);
    SortThree(Record("a", "26"), Record("z", "99"), Record("a", "25"), Criteria());
  }
}
