/**
 * IDataHelper.sort(documents, criteria...): orders documents by a list of
 * criteria, the first deciding and each later one breaking ties of those
 * before it. A criterion names a key, how its value is compared (as text, or
 * as an integer) and whether the order is descending.
 */
module DocumentSort {
  import opened Wrappers
  import JavaLang
  import IntegerHelper
  import opened DocumentModel

  datatype Kind = Text | Whole
  datatype Criterion = Criterion(key: string, kind: Kind, descending: bool)

  /** What a criterion compares: nothing (missing or unreadable value), a number or a string. */
  datatype Key = Missing | Number(n: int) | Name(s: string)

  /** The comparison key of a document under a criterion. */
  function KeyOf(es: seq<Entry>, c: Criterion): (k: Key)
    ensures k.Name? ==> c.kind == Text && ValueOf(es, c.key, 0) == Str(k.s)
    ensures k.Number? ==>
              && c.kind == Whole && ValueOf(es, c.key, 0).Str?
              && IntegerHelper.ParseDecimal(Some(ValueOf(es, c.key, 0).s)) == Ok(Some(k.n))
  {
    match ValueOf(es, c.key, 0)
    case Str(s) =>
      (match c.kind
       case Text => Name(s)
       case Whole =>
         match IntegerHelper.ParseDecimal(Some(s))
         case Ok(Some(n)) => Number(n)
         case _ => Missing)
    case _ => Missing
  }

  /** A missing key first, then numbers by value, then strings by String.compareTo. */
  function KeyCompare(a: Key, b: Key): int
  {
    match (a, b)
    case (Missing, Missing) => 0
    case (Missing, _) => -1
    case (_, Missing) => 1
    case (Number(x), Number(y)) => if x < y then -1 else if x == y then 0 else 1
    case (Number(_), Name(_)) => -1
    case (Name(_), Number(_)) => 1
    case (Name(x), Name(y)) => JavaLang.CompareTo(x, y)
  }

  lemma KeyCompareZero(a: Key, b: Key)
    ensures KeyCompare(a, b) == 0 <==> a == b
  {
  }

  lemma KeyCompareAntisymmetric(a: Key, b: Key)
    ensures KeyCompare(a, b) == -KeyCompare(b, a)
  {
    if a.Name? && b.Name? {
      JavaLang.CompareToAntisymmetric(a.s, b.s);
    }
  }

  lemma KeyCompareTransitive(a: Key, b: Key, c: Key)
    requires KeyCompare(a, b) <= 0 && KeyCompare(b, c) <= 0
    ensures KeyCompare(a, c) <= 0
  {
    if a.Name? && b.Name? && c.Name? {
      JavaLang.CompareToTransitive(a.s, b.s, c.s);
    }
  }

  /** One criterion's verdict on two documents, reversed when descending. */
  function CompareBy(x: seq<Entry>, y: seq<Entry>, c: Criterion): int
  {
    var r := KeyCompare(KeyOf(x, c), KeyOf(y, c));
    if c.descending then -r else r
  }

  /** The lexicographic verdict of the criteria: the first that tells the documents apart decides. */
  function Compare(x: seq<Entry>, y: seq<Entry>, cs: seq<Criterion>): int
  {
    if cs == [] then 0
    else
      var r := CompareBy(x, y, cs[0]);
      if r != 0 then r else Compare(x, y, cs[1..])
  }

  lemma {:induction false} CompareAntisymmetric(x: seq<Entry>, y: seq<Entry>, cs: seq<Criterion>)
    ensures Compare(x, y, cs) == -Compare(y, x, cs)
  {
    if cs != [] {
      KeyCompareAntisymmetric(KeyOf(x, cs[0]), KeyOf(y, cs[0]));
      CompareAntisymmetric(x, y, cs[1..]);
    }
  }

  lemma {:induction false} CompareTransitive(x: seq<Entry>, y: seq<Entry>, z: seq<Entry>, cs: seq<Criterion>)
    requires Compare(x, y, cs) <= 0 && Compare(y, z, cs) <= 0
    ensures Compare(x, z, cs) <= 0
  {
    if cs != [] {
      var c := cs[0];
      var kx, ky, kz := KeyOf(x, c), KeyOf(y, c), KeyOf(z, c);
      KeyCompareZero(kx, ky);
      KeyCompareZero(ky, kz);
      KeyCompareZero(kx, kz);
      KeyCompareAntisymmetric(kx, ky);
      KeyCompareAntisymmetric(ky, kz);
      KeyCompareAntisymmetric(kx, kz);
      if CompareBy(x, y, c) == 0 && CompareBy(y, z, c) == 0 {
        CompareTransitive(x, y, z, cs[1..]);
      } else if c.descending {
        KeyCompareTransitive(kz, ky, kx);
      } else {
        KeyCompareTransitive(kx, ky, kz);
      }
    }
  }

  /** In order: every document compares at most equal to each later one. */
  predicate Sorted(ds: seq<seq<Entry>>, cs: seq<Criterion>) {
    forall i, j :: 0 <= i < j < |ds| ==> Compare(ds[i], ds[j], cs) <= 0
  }

  /** `x` compares at most equal to every document of `m`. */
  predicate Below(x: seq<Entry>, m: multiset<seq<Entry>>, cs: seq<Criterion>) {
    forall y :: y in m ==> Compare(x, y, cs) <= 0
  }

  lemma BelowElements(x: seq<Entry>, ds: seq<seq<Entry>>, cs: seq<Criterion>)
    requires Below(x, multiset(ds), cs)
    ensures forall j :: 0 <= j < |ds| ==> Compare(x, ds[j], cs) <= 0
  {
    forall j | 0 <= j < |ds| ensures Compare(x, ds[j], cs) <= 0 {
      assert ds[j] in multiset(ds);
    }
  }

  /** Putting in front a document that is below all the others keeps the order. */
  lemma SortedCons(x: seq<Entry>, ds: seq<seq<Entry>>, cs: seq<Criterion>)
    requires Sorted(ds, cs) && Below(x, multiset(ds), cs)
    ensures Sorted([x] + ds, cs)
  {
    BelowElements(x, ds, cs);
    var r := [x] + ds;
    forall i, j | 0 <= i < j < |r| ensures Compare(r[i], r[j], cs) <= 0 {
      if i > 0 {
        assert r[i] == ds[i - 1] && r[j] == ds[j - 1];
      }
    }
  }

  /** The first of a sorted sequence is below the rest. */
  lemma SortedHead(ds: seq<seq<Entry>>, cs: seq<Criterion>)
    requires ds != [] && Sorted(ds, cs)
    ensures Below(ds[0], multiset(ds[1..]), cs) && Sorted(ds[1..], cs)
  {
    forall y | y in multiset(ds[1..]) ensures Compare(ds[0], y, cs) <= 0 {
      var k :| 0 <= k < |ds[1..]| && ds[1..][k] == y;
      assert ds[1..][k] == ds[k + 1];
    }
  }

  /** Anything below the first of a sorted sequence is below all of it. */
  lemma BelowSorted(x: seq<Entry>, ds: seq<seq<Entry>>, cs: seq<Criterion>)
    requires ds != [] && Sorted(ds, cs) && Compare(x, ds[0], cs) <= 0
    ensures Below(x, multiset(ds), cs)
  {
    forall y | y in multiset(ds) ensures Compare(x, y, cs) <= 0 {
      var k :| 0 <= k < |ds| && ds[k] == y;
      if k > 0 {
        CompareTransitive(x, ds[0], y, cs);
      }
    }
  }

  /** Inserts before the first document that `x` comes before or equals, after those strictly before it. */
  function Insert(x: seq<Entry>, ds: seq<seq<Entry>>, cs: seq<Criterion>): (r: seq<seq<Entry>>)
    requires Sorted(ds, cs)
    ensures multiset(r) == multiset(ds) + multiset{x}
    ensures Sorted(r, cs)
  {
    if ds == [] then [x]
    else if Compare(x, ds[0], cs) <= 0 then
      BelowSorted(x, ds, cs);
      SortedCons(x, ds, cs);
      [x] + ds
    else
      SortedHead(ds, cs);
      var rest := Insert(x, ds[1..], cs);
      InsertBehind(x, ds, rest, cs);
      [ds[0]] + rest
  }

  /** The head of a sorted list stays in front when a larger document goes into its tail. */
  lemma InsertBehind(x: seq<Entry>, ds: seq<seq<Entry>>, rest: seq<seq<Entry>>, cs: seq<Criterion>)
    requires ds != [] && Compare(x, ds[0], cs) > 0
    requires Below(ds[0], multiset(ds[1..]), cs)
    requires multiset(rest) == multiset(ds[1..]) + multiset{x} && Sorted(rest, cs)
    ensures multiset([ds[0]] + rest) == multiset(ds) + multiset{x}
    ensures Sorted([ds[0]] + rest, cs)
  {
    CompareAntisymmetric(x, ds[0], cs);
    assert Below(ds[0], multiset(rest), cs);
    SortedCons(ds[0], rest, cs);
    assert ds == [ds[0]] + ds[1..];
  }

  /** sort(documents, criteria...): a sorted rearrangement of all the documents. */
  function Sort(ds: seq<seq<Entry>>, cs: seq<Criterion>): (r: seq<seq<Entry>>)
    ensures multiset(r) == multiset(ds) && |r| == |ds|
    ensures Sorted(r, cs)
  {
    if ds == [] then []
    else
      var r := Insert(ds[0], Sort(ds[1..], cs), cs);
      assert ds == [ds[0]] + ds[1..];
      assert |r| == |multiset(r)|;
      r
  }

  /** Sorting a non-empty list inserts its head into the sorted tail. */
  lemma SortStep(ds: seq<seq<Entry>>, cs: seq<Criterion>)
    requires ds != []
    ensures Sort(ds, cs) == Insert(ds[0], Sort(ds[1..], cs), cs)
  {
  }

  /** A document at most the head of a sorted list goes in front of it. */
  lemma InsertBefore(x: seq<Entry>, ds: seq<seq<Entry>>, cs: seq<Criterion>)
    requires Sorted(ds, cs) && ds != [] && Compare(x, ds[0], cs) <= 0
    ensures Insert(x, ds, cs) == [x] + ds
  {
  }

  /** A document above the head of a sorted list goes into its tail. */
  lemma InsertAfter(x: seq<Entry>, ds: seq<seq<Entry>>, cs: seq<Criterion>)
    requires Sorted(ds, cs) && ds != [] && Compare(x, ds[0], cs) > 0
    ensures Sorted(ds[1..], cs) && Insert(x, ds, cs) == [ds[0]] + Insert(x, ds[1..], cs)
  {
    SortedHead(ds, cs);
  }
}
