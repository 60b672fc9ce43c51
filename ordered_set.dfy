/**
 * java.util.LinkedHashSet as ObjectHelper uses it: a sequence without
 * repetitions that remembers the order in which elements were first added.
 */
module OrderedSet {

  predicate Distinct<T(==,!new)>(s: seq<T>) {
    forall i, j :: 0 <= i < j < |s| ==> s[i] != s[j]
  }

  /** add(x): appends x unless it is already present. */
  function Add<T(==,!new)>(s: seq<T>, x: T): (r: seq<T>)
    ensures forall y :: y in r <==> y in s || y == x
    ensures |s| <= |r| <= |s| + 1 && r[..|s|] == s
    ensures Distinct(s) ==> Distinct(r)
  {
    if x in s then s else s + [x]
  }

  /** addAll(xs): adds the elements of xs in their order. */
  function AddAll<T(==,!new)>(s: seq<T>, xs: seq<T>): (r: seq<T>)
    ensures forall y :: y in r <==> y in s || y in xs
    ensures |s| <= |r| && r[..|s|] == s
    ensures Distinct(s) ==> Distinct(r)
    decreases |xs|
  {
    if xs == [] then s
    else
      var t := Add(s, xs[0]);
      var r := AddAll(t, xs[1..]);
      assert r[..|s|] == r[..|t|][..|s|];
      assert forall y :: y in xs <==> y == xs[0] || y in xs[1..];
      r
  }

  lemma {:induction false} AddAllConcat<T(!new)>(s: seq<T>, a: seq<T>, b: seq<T>)
    ensures AddAll(s, a + b) == AddAll(AddAll(s, a), b)
    decreases |a|
  {
    if a != [] {
      assert (a + b)[0] == a[0] && (a + b)[1..] == a[1..] + b;
      AddAllConcat(Add(s, a[0]), a[1..], b);
    } else {
      assert a + b == b;
    }
  }

  /** Adding only elements already present changes nothing. */
  lemma {:induction false} AddAllPresent<T(!new)>(s: seq<T>, xs: seq<T>)
    requires forall y :: y in xs ==> y in s
    ensures AddAll(s, xs) == s
    decreases |xs|
  {
    if xs != [] {
      assert xs[0] in xs;
      assert forall y :: y in xs[1..] ==> y in xs;
      AddAllPresent(s, xs[1..]);
    }
  }

  /** The tail of a sequence without repetitions has none, and lacks the head. */
  lemma DistinctTail<T(!new)>(s: seq<T>)
    requires s != [] && Distinct(s)
    ensures Distinct(s[1..]) && s[0] !in s[1..]
  {
    forall i, j | 0 <= i < j < |s[1..]| ensures s[1..][i] != s[1..][j] {
      assert s[1..][i] == s[i + 1] && s[1..][j] == s[j + 1];
    }
    forall k | 0 <= k < |s[1..]| ensures s[1..][k] != s[0] {
      assert s[1..][k] == s[k + 1];
    }
  }

  lemma FreshTail<T(!new)>(s: seq<T>, xs: seq<T>)
    requires xs != [] && Distinct(xs) && forall i :: 0 <= i < |xs| ==> xs[i] !in s
    ensures xs[0] !in s
    ensures Distinct(xs[1..]) && forall i :: 0 <= i < |xs[1..]| ==> xs[1..][i] !in s + [xs[0]]
  {
    DistinctTail(xs);
    forall i | 0 <= i < |xs[1..]| ensures xs[1..][i] !in s + [xs[0]] {
      assert xs[1..][i] == xs[i + 1];
    }
  }

  lemma AddAllFresh<T(!new)>(s: seq<T>, xs: seq<T>)
    requires xs != [] && xs[0] !in s
    ensures AddAll(s, xs) == AddAll(s + [xs[0]], xs[1..])
  {
  }

  /** Adding a sequence without repetitions, none of it present yet, appends it. */
  lemma {:induction false} AddAllDistinct<T(!new)>(s: seq<T>, xs: seq<T>)
    requires Distinct(xs) && forall i :: 0 <= i < |xs| ==> xs[i] !in s
    ensures AddAll(s, xs) == s + xs
    decreases |xs|
  {
    if xs == [] {
      assert s + xs == s;
    } else {
      FreshTail(s, xs);
      AddAllFresh(s, xs);
      AddAllDistinct(s + [xs[0]], xs[1..]);
      ConsSplit(s, xs);
    }
  }

  lemma ConsSplit<T>(s: seq<T>, xs: seq<T>)
    requires xs != []
    ensures s + [xs[0]] + xs[1..] == s + xs
  {
    assert xs == [xs[0]] + xs[1..];
  }

  /** r is s with some of its elements dropped, the others kept in their order. */
  predicate IsSubsequence<T(==)>(r: seq<T>, s: seq<T>)
    decreases |s|
  {
    r == [] || (s != [] && ((r[0] == s[0] && IsSubsequence(r[1..], s[1..])) || IsSubsequence(r, s[1..])))
  }

  lemma {:induction false} SubsequenceReflexive<T>(s: seq<T>)
    ensures IsSubsequence(s, s)
    decreases |s|
  {
    if s != [] {
      SubsequenceReflexive(s[1..]);
    }
  }

  lemma {:induction false} SubsequenceTransitive<T>(a: seq<T>, b: seq<T>, c: seq<T>)
    requires IsSubsequence(a, b) && IsSubsequence(b, c)
    ensures IsSubsequence(a, c)
    decreases |c|
  {
    if a != [] {
      if IsSubsequence(b, c[1..]) {
        SubsequenceTransitive(a, b, c[1..]);
      } else if a[0] == b[0] && IsSubsequence(a[1..], b[1..]) {
        SubsequenceTransitive(a[1..], b[1..], c[1..]);
      } else {
        SubsequenceTransitive(a, b[1..], c[1..]);
      }
    }
  }

  /**
   * retainAll(t): keeps, in their order, the elements also in t: r is the
   * subsequence of s that holds every occurrence of an element of t and
   * nothing else.
   */
  function RetainAll<T(==,!new)>(s: seq<T>, t: seq<T>): (r: seq<T>)
    ensures forall y :: y in r <==> y in s && y in t
    ensures IsSubsequence(r, s)
    ensures forall y :: y in t ==> multiset(r)[y] == multiset(s)[y]
    ensures |r| <= |s|
    ensures Distinct(s) ==> Distinct(r)
  {
    if s == [] then []
    else
      var rest := RetainAll(s[1..], t);
      RetainStep(s, t, rest);
      if s[0] in t then [s[0]] + rest else rest
  }

  /** Keeping or dropping the head of `s` extends what holds of its tail to `s`. */
  lemma RetainStep<T(!new)>(s: seq<T>, t: seq<T>, rest: seq<T>)
    requires s != []
    requires forall y :: y in rest <==> y in s[1..] && y in t
    requires IsSubsequence(rest, s[1..])
    requires forall y :: y in t ==> multiset(rest)[y] == multiset(s[1..])[y]
    requires |rest| <= |s[1..]|
    requires Distinct(s[1..]) ==> Distinct(rest)
    ensures var r := if s[0] in t then [s[0]] + rest else rest;
      && (forall y :: y in r <==> y in s && y in t)
      && IsSubsequence(r, s)
      && (forall y :: y in t ==> multiset(r)[y] == multiset(s)[y])
      && |r| <= |s|
      && (Distinct(s) ==> Distinct(r))
  {
    assert forall y :: y in s <==> y == s[0] || y in s[1..];
    assert Distinct(s) ==> Distinct(s[1..]) && s[0] !in s[1..] by {
      if Distinct(s) {
        DistinctTail(s);
      }
    }
    assert s == [s[0]] + s[1..];
    var r := if s[0] in t then [s[0]] + rest else rest;
    assert s[0] in t ==> r[1..] == rest;
  }
}
