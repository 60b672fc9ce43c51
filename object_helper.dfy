/**
 * ObjectHelper: null-aware equality, coalescing, array and list views of a
 * value, and the ancestor classes of a class or of several classes, over an
 * abstract class graph.
 */
module ObjectHelper {
  import opened Wrappers
  import opened OrderedSet

  // ---------------------------------------------------------------------------
  // equal, coalesce

  /**
   * equal(a, b): two nulls are equal, a null and a non-null are not; two
   * documents compare as documents, anything else by its own equality.
   */
  function Equal<T>(a: Option<T>, b: Option<T>, isDocument: T -> bool,
                    documentEquals: (T, T) -> bool, equals: (T, T) -> bool): (r: bool)
    ensures a.None? || b.None? ==> (r <==> a.None? && b.None?)
    ensures a.Some? && b.Some? && isDocument(a.value) && isDocument(b.value) ==> r == documentEquals(a.value, b.value)
    ensures a.Some? && b.Some? && !(isDocument(a.value) && isDocument(b.value)) ==> r == equals(a.value, b.value)
  {
    match (a, b)
    case (Some(x), Some(y)) => if isDocument(x) && isDocument(y) then documentEquals(x, y) else equals(x, y)
    case _ => a.None? && b.None?
  }

  /** With symmetric element equalities, equal is symmetric. */
  lemma EqualSymmetric<T>(a: Option<T>, b: Option<T>, isDocument: T -> bool,
                          documentEquals: (T, T) -> bool, equals: (T, T) -> bool)
    requires forall x, y :: equals(x, y) == equals(y, x)
    requires forall x, y :: documentEquals(x, y) == documentEquals(y, x)
    ensures Equal(a, b, isDocument, documentEquals, equals) == Equal(b, a, isDocument, documentEquals, equals)
  {
    if a.Some? && b.Some? {
      assert equals(a.value, b.value) == equals(b.value, a.value);
      assert documentEquals(a.value, b.value) == documentEquals(b.value, a.value);
    }
  }

  /** With reflexive element equalities, equal is reflexive, null included. */
  lemma EqualReflexive<T>(a: Option<T>, isDocument: T -> bool,
                          documentEquals: (T, T) -> bool, equals: (T, T) -> bool)
    requires forall x :: equals(x, x) && documentEquals(x, x)
    ensures Equal(a, a, isDocument, documentEquals, equals)
  {
    if a.Some? {
      assert equals(a.value, a.value) && documentEquals(a.value, a.value);
    }
  }

  /** coalesce(objects...): the first non-null argument; null for a null or all-null argument list. */
  method Coalesce<T(==)>(objects: Option<seq<Option<T>>>) returns (r: Option<T>)
    ensures objects.None? ==> r.None?
    ensures objects.Some? ==> (r.None? <==> forall i :: 0 <= i < |objects.value| ==> objects.value[i].None?)
    ensures objects.Some? && r.Some? ==>
      exists i :: 0 <= i < |objects.value| && objects.value[i] == r && forall j :: 0 <= j < i ==> objects.value[j].None?
  {
    if objects.None? {
      return None;
    }
    var items := objects.value;
    r := None;
    var i := 0;
    while i < |items|
      invariant 0 <= i <= |items|
      invariant forall j :: 0 <= j < i ==> items[j].None?
    {
      if items[i].Some? {
        r := items[i];
        break;
      }
      i := i + 1;
    }
  }

  // ---------------------------------------------------------------------------
  // arrayify, listify

  /** A Java value as these helpers see it: an Object[] (of possibly null elements) or anything else. */
  datatype Object<T> = Plain(value: T) | Array(elements: seq<Option<Object<T>>>)

  /** arrayify(item): null stays null, an array is itself, anything else becomes a one-element array. */
  function Arrayify<T>(item: Option<Object<T>>): (r: Option<seq<Option<Object<T>>>>)
    ensures r.None? <==> item.None?
    ensures item.Some? && item.value.Array? ==> r == Some(item.value.elements)
    ensures item.Some? && item.value.Plain? ==> r == Some([item])
  {
    match item
    case None => None
    case Some(Array(elements)) => Some(elements)
    case Some(Plain(_)) => Some([item])
  }

  /** listify(item): the elements arrayify gives, and an empty list for null. */
  function Listify<T>(item: Option<Object<T>>): (r: seq<Option<Object<T>>>)
    ensures r == Arrayify(item).GetOr([])
    ensures item.None? ==> r == []
    ensures item.Some? && item.value.Plain? ==> r == [item]
  {
    match item
    case None => []
    case Some(Array(elements)) => elements
    case Some(Plain(_)) => [item]
  }

  /** arrayify is idempotent on what it returns, read again as an array. */
  lemma ArrayifyIdempotent<T>(item: Option<Object<T>>)
    requires item.Some?
    ensures Arrayify(Some(Array(Arrayify(item).value))) == Arrayify(item)
  {
  }

  // ---------------------------------------------------------------------------
  // The class graph

  /**
   * The classes as the reflection calls see them: getSuperclass (None for
   * Object and for interfaces), getInterfaces, and a depth that every parent
   * lies strictly below, which makes the graph acyclic.
   */
  datatype Hierarchy<!C> = Hierarchy(superclass: C -> Option<C>, interfaces: C -> seq<C>, depth: C -> nat)

  /** The direct parents of a class: its superclass, if any, then its interfaces. */
  function Parents<C>(h: Hierarchy<C>, c: C): seq<C> {
    (match h.superclass(c) case Some(s) => [s] case None => []) + h.interfaces(c)
  }

  ghost predicate WellFounded<C(!new)>(h: Hierarchy<C>) {
    forall c, i :: 0 <= i < |Parents(h, c)| ==> h.depth(Parents(h, c)[i]) < h.depth(c)
  }

  /** `to` is `from` or an ancestor of it. */
  predicate Reaches<C(==,!new)>(h: Hierarchy<C>, from: C, to: C)
    requires WellFounded(h)
    decreases h.depth(from)
  {
    from == to || exists i :: 0 <= i < |Parents(h, from)| && Reaches(h, Parents(h, from)[i], to)
  }

  /** Some class of `cs` reaches `to`. */
  predicate ReachedFrom<C(==,!new)>(h: Hierarchy<C>, cs: seq<C>, to: C)
    requires WellFounded(h)
  {
    exists j :: 0 <= j < |cs| && Reaches(h, cs[j], to)
  }

  /** Some class of `children` has `x` as a direct parent. */
  ghost predicate ParentOf<C(!new)>(h: Hierarchy<C>, children: seq<C>, x: C) {
    exists j :: 0 <= j < |children| && x in Parents(h, children[j])
  }

  /** One pass of the do-while: the parents of the classes of the last pass, first-seen order. */
  function Round<C(==,!new)>(h: Hierarchy<C>, children: seq<C>): (r: seq<C>)
    ensures Distinct(r)
  {
    if children == [] then []
    else AddAll(Round(h, children[..|children| - 1]), Parents(h, children[|children| - 1]))
  }

  /** A pass holds exactly the direct parents of the classes before it. */
  lemma {:induction false} RoundMembers<C(!new)>(h: Hierarchy<C>, children: seq<C>, x: C)
    ensures x in Round(h, children) <==> ParentOf(h, children, x)
    decreases |children|
  {
    if children != [] {
      var n := |children| - 1;
      RoundMembers(h, children[..n], x);
      RoundLast(h, children, x);
      ParentOfLast(h, children, x);
    }
  }

  lemma RoundLast<C(!new)>(h: Hierarchy<C>, children: seq<C>, x: C)
    requires children != []
    ensures var n := |children| - 1;
      x in Round(h, children) <==> x in Round(h, children[..n]) || x in Parents(h, children[n])
  {
  }

  lemma ParentOfLast<C(!new)>(h: Hierarchy<C>, children: seq<C>, x: C)
    requires children != []
    ensures var n := |children| - 1;
      ParentOf(h, children, x) <==> ParentOf(h, children[..n], x) || x in Parents(h, children[n])
  {
    var n := |children| - 1;
    var front := children[..n];
    if ParentOf(h, front, x) {
      var j :| 0 <= j < |front| && x in Parents(h, front[j]);
      assert children[j] == front[j];
    }
    if ParentOf(h, children, x) && x !in Parents(h, children[n]) {
      var j :| 0 <= j < |children| && x in Parents(h, children[j]);
      assert front[j] == children[j];
    }
  }

  /** The pass over `children` extended by one class. */
  lemma RoundSnoc<C(!new)>(h: Hierarchy<C>, children: seq<C>, c: C)
    ensures Round(h, children + [c]) == AddAll(Round(h, children), Parents(h, c))
  {
    assert (children + [c])[..|children|] == children;
  }

  /** The pass over one more class adds its superclass, then its interfaces. */
  lemma RoundStep<C(!new)>(h: Hierarchy<C>, children: seq<C>, j: nat)
    requires j < |children|
    ensures var superclass := match h.superclass(children[j]) case Some(s) => [s] case None => [];
      Round(h, children[..j + 1]) == AddAll(AddAll(Round(h, children[..j]), superclass), h.interfaces(children[j]))
  {
    var superclass := match h.superclass(children[j]) case Some(s) => [s] case None => [];
    assert children[..j + 1] == children[..j] + [children[j]];
    RoundSnoc(h, children[..j], children[j]);
    AddAllConcat(Round(h, children[..j]), superclass, h.interfaces(children[j]));
  }

  function MaxDepth<C>(h: Hierarchy<C>, cs: seq<C>): (m: nat)
    ensures forall i :: 0 <= i < |cs| ==> h.depth(cs[i]) <= m
    ensures cs != [] ==> exists i :: 0 <= i < |cs| && h.depth(cs[i]) == m
  {
    if cs == [] then 0
    else
      var m := MaxDepth(h, cs[1..]);
      assert forall i :: 1 <= i < |cs| ==> cs[i] == cs[1..][i - 1];
      if h.depth(cs[0]) >= m then h.depth(cs[0]) else m
  }

  /** What the do-while's termination rests on: each pass lies strictly below the last. */
  function Measure<C>(h: Hierarchy<C>, cs: seq<C>): nat {
    if cs == [] then 0 else 1 + MaxDepth(h, cs)
  }

  lemma RoundShallower<C(!new)>(h: Hierarchy<C>, children: seq<C>)
    requires WellFounded(h) && Round(h, children) != []
    ensures Measure(h, Round(h, children)) < Measure(h, children)
  {
    var r := Round(h, children);
    var k :| 0 <= k < |r| && h.depth(r[k]) == MaxDepth(h, r);
    RoundMembers(h, children, r[k]);
    var j :| 0 <= j < |children| && r[k] in Parents(h, children[j]);
    var i :| 0 <= i < |Parents(h, children[j])| && Parents(h, children[j])[i] == r[k];
    assert h.depth(children[j]) <= MaxDepth(h, children);
  }

  /** The closure the do-while computes from the ancestors so far and the classes of the current pass. */
  function Closure<C(==,!new)>(h: Hierarchy<C>, ancestors: seq<C>, parents: seq<C>): seq<C>
    requires WellFounded(h)
    decreases Measure(h, parents)
  {
    var ancestors' := AddAll(ancestors, parents);
    var parents' := Round(h, parents);
    if parents' == [] then ancestors'
    else
      RoundShallower(h, parents);
      Closure(h, ancestors', parents')
  }

  /** getAncestors(klass): the class and all its ancestors, nearest first. */
  function Ancestors<C(==,!new)>(h: Hierarchy<C>, klass: C): seq<C>
    requires WellFounded(h)
  {
    Closure(h, [], [klass])
  }

  /** The inner loop of getAncestors: superclass, then interfaces, of each class of the pass. */
  method NextPass<C(==,!new)>(h: Hierarchy<C>, children: seq<C>) returns (parents: seq<C>)
    ensures parents == Round(h, children)
  {
    parents := [];
    for j := 0 to |children|
      invariant parents == Round(h, children[..j])
    {
      var child := children[j];
      var superclass := match h.superclass(child) case Some(s) => [s] case None => [];
      match h.superclass(child) {
        case Some(parent) => parents := Add(parents, parent);
        case None =>
      }
      assert parents == AddAll(Round(h, children[..j]), superclass);
      parents := AddAll(parents, h.interfaces(child));
      RoundStep(h, children, j);
    }
    assert children[..|children|] == children;
  }

  /** getAncestors(klass) as the source runs it: a do-while over passes. */
  method GetAncestors<C(==,!new)>(h: Hierarchy<C>, klass: C) returns (ancestors: seq<C>)
    requires WellFounded(h)
    ensures ancestors == Ancestors(h, klass)
  {
    ancestors := [];
    var parents := [klass];
    while true
      invariant parents != [] && Closure(h, ancestors, parents) == Ancestors(h, klass)
      decreases Measure(h, parents)
    {
      var children := parents;
      ancestors := AddAll(ancestors, children);
      parents := NextPass(h, children);
      if parents == [] {
        break;
      }
      RoundShallower(h, children);
    }
  }

  // ---------------------------------------------------------------------------
  // What getAncestors(klass) computes

  /** A class reached from a pass is in the pass or reached from the next one. */
  lemma ReachedFromStep<C(!new)>(h: Hierarchy<C>, parents: seq<C>, x: C)
    requires WellFounded(h)
    ensures ReachedFrom(h, parents, x) <==> x in parents || ReachedFrom(h, Round(h, parents), x)
  {
    var next := Round(h, parents);
    if ReachedFrom(h, parents, x) && x !in parents {
      var j :| 0 <= j < |parents| && Reaches(h, parents[j], x);
      var i :| 0 <= i < |Parents(h, parents[j])| && Reaches(h, Parents(h, parents[j])[i], x);
      var p := Parents(h, parents[j])[i];
      RoundMembers(h, parents, p);
      var m :| 0 <= m < |next| && next[m] == p;
    }
    if x in parents {
      var j :| 0 <= j < |parents| && parents[j] == x;
      assert Reaches(h, parents[j], x);
    }
    if ReachedFrom(h, next, x) {
      var m :| 0 <= m < |next| && Reaches(h, next[m], x);
      RoundMembers(h, parents, next[m]);
      var j :| 0 <= j < |parents| && next[m] in Parents(h, parents[j]);
      var i :| 0 <= i < |Parents(h, parents[j])| && Parents(h, parents[j])[i] == next[m];
      assert Reaches(h, parents[j], x);
    }
  }

  /** The closure holds what it started with and everything reached from the current pass. */
  lemma {:induction false} ClosureMembers<C(!new)>(h: Hierarchy<C>, ancestors: seq<C>, parents: seq<C>, x: C)
    requires WellFounded(h)
    ensures x in Closure(h, ancestors, parents) <==> x in ancestors || ReachedFrom(h, parents, x)
    decreases Measure(h, parents)
  {
    ReachedFromStep(h, parents, x);
    if Round(h, parents) != [] {
      RoundShallower(h, parents);
      ClosureMembers(h, AddAll(ancestors, parents), Round(h, parents), x);
    }
  }

  /** The closure extends the ancestors it started with. */
  lemma {:induction false} ClosureExtends<C(!new)>(h: Hierarchy<C>, ancestors: seq<C>, parents: seq<C>)
    requires WellFounded(h)
    ensures ancestors <= Closure(h, ancestors, parents)
    decreases Measure(h, parents)
  {
    var ancestors' := AddAll(ancestors, parents);
    var next := Round(h, parents);
    assert ancestors <= ancestors';
    if next != [] {
      RoundShallower(h, parents);
      ClosureExtends(h, ancestors', next);
    }
  }

  lemma {:induction false} ClosureDistinct<C(!new)>(h: Hierarchy<C>, ancestors: seq<C>, parents: seq<C>)
    requires WellFounded(h) && Distinct(ancestors)
    ensures Distinct(Closure(h, ancestors, parents))
    decreases Measure(h, parents)
  {
    if Round(h, parents) != [] {
      RoundShallower(h, parents);
      ClosureDistinct(h, AddAll(ancestors, parents), Round(h, parents));
    }
  }

  /** getAncestors(klass) holds exactly the classes klass reaches, without repetition. */
  lemma AncestorsMembers<C(!new)>(h: Hierarchy<C>, klass: C, x: C)
    requires WellFounded(h)
    ensures x in Ancestors(h, klass) <==> Reaches(h, klass, x)
    ensures Distinct(Ancestors(h, klass))
  {
    ClosureMembers(h, [], [klass], x);
    ClosureDistinct(h, [], [klass]);
    assert [klass][0] == klass;
  }

  /** getAncestors(klass) starts with klass itself. */
  lemma AncestorsStart<C(!new)>(h: Hierarchy<C>, klass: C)
    requires WellFounded(h)
    ensures Ancestors(h, klass) != [] && Ancestors(h, klass)[0] == klass
  {
    var first := AddAll([], [klass]);
    AddAllDistinct([], [klass]);
    assert first == [klass];
    if Round(h, [klass]) != [] {
      RoundShallower(h, [klass]);
      ClosureExtends(h, first, Round(h, [klass]));
    }
  }

  lemma {:induction false} ReachesTransitive<C(!new)>(h: Hierarchy<C>, a: C, b: C, c: C)
    requires WellFounded(h) && Reaches(h, a, b) && Reaches(h, b, c)
    ensures Reaches(h, a, c)
    decreases h.depth(a)
  {
    if a != b {
      var i :| 0 <= i < |Parents(h, a)| && Reaches(h, Parents(h, a)[i], b);
      ReachesTransitive(h, Parents(h, a)[i], b, c);
    }
  }

  /** getAncestors(klass) is closed under getSuperclass and getInterfaces. */
  lemma AncestorsClosed<C(!new)>(h: Hierarchy<C>, klass: C, x: C, i: int)
    requires WellFounded(h) && x in Ancestors(h, klass) && 0 <= i < |Parents(h, x)|
    ensures Parents(h, x)[i] in Ancestors(h, klass)
  {
    var p := Parents(h, x)[i];
    AncestorsMembers(h, klass, x);
    AncestorsMembers(h, klass, p);
    assert Reaches(h, p, p);
    assert Reaches(h, x, p);
    ReachesTransitive(h, klass, x, p);
  }

  /** getAncestors(item): no classes for null, otherwise those of the object's class. */
  function AncestorsOf<O, C(==,!new)>(h: Hierarchy<C>, item: Option<O>, classOf: O -> C): (r: seq<C>)
    requires WellFounded(h)
    ensures item.None? ==> r == []
    ensures item.Some? ==> r == Ancestors(h, classOf(item.value))
    ensures item.Some? ==> r != [] && r[0] == classOf(item.value)
  {
    match item
    case None => []
    case Some(o) =>
      AncestorsStart(h, classOf(o));
      Ancestors(h, classOf(o))
  }

  // ---------------------------------------------------------------------------
  // getAncestors(classes), getNearestAncestor(classes)

  /**
   * The loop of getAncestors(classes): a running set, refilled with the
   * ancestors of the next class while it is empty, intersected with them
   * otherwise.
   */
  function Common<C(==,!new)>(h: Hierarchy<C>, classes: seq<C>): (r: seq<C>)
    requires WellFounded(h)
    ensures Distinct(r)
    decreases |classes|
  {
    if classes == [] then []
    else
      var running := Common(h, classes[..|classes| - 1]);
      var ancestors := Ancestors(h, classes[|classes| - 1]);
      if |running| == 0 then AddAll(running, ancestors) else RetainAll(running, ancestors)
  }

  method GetCommonAncestors<C(==,!new)>(h: Hierarchy<C>, classes: seq<C>) returns (intersection: seq<C>)
    requires WellFounded(h)
    ensures intersection == Common(h, classes)
  {
    intersection := [];
    for i := 0 to |classes|
      invariant intersection == Common(h, classes[..i])
    {
      var ancestors := GetAncestors(h, classes[i]);
      CommonStep(h, classes, i);
      if |intersection| == 0 {
        intersection := AddAll(intersection, ancestors);
      } else {
        intersection := RetainAll(intersection, ancestors);
      }
    }
    assert classes[..|classes|] == classes;
  }

  /** One more class starts the running set or intersects it with its ancestors. */
  lemma CommonStep<C(!new)>(h: Hierarchy<C>, classes: seq<C>, i: nat)
    requires WellFounded(h) && i < |classes|
    ensures var running := Common(h, classes[..i]);
      var ancestors := Ancestors(h, classes[i]);
      Common(h, classes[..i + 1]) == if |running| == 0 then AddAll(running, ancestors) else RetainAll(running, ancestors)
  {
    assert classes[..i + 1][..i] == classes[..i];
  }

  /** Every class of the result is an ancestor of the last class. */
  lemma CommonWithin<C(!new)>(h: Hierarchy<C>, classes: seq<C>, x: C)
    requires WellFounded(h) && classes != [] && x in Common(h, classes)
    ensures Reaches(h, classes[|classes| - 1], x)
  {
    AncestorsMembers(h, classes[|classes| - 1], x);
  }

  /** The running set was never empty after the first class. */
  ghost predicate NeverEmptied<C(!new)>(h: Hierarchy<C>, classes: seq<C>)
    requires WellFounded(h)
  {
    forall i :: 1 <= i < |classes| ==> Common(h, classes[..i]) != []
  }

  /** One more class intersects a running set that is not empty. */
  lemma CommonSnoc<C(!new)>(h: Hierarchy<C>, classes: seq<C>, x: C)
    requires WellFounded(h) && |classes| > 1 && Common(h, classes[..|classes| - 1]) != []
    ensures x in Common(h, classes) <==>
      x in Common(h, classes[..|classes| - 1]) && Reaches(h, classes[|classes| - 1], x)
  {
    AncestorsMembers(h, classes[|classes| - 1], x);
  }

  lemma NeverEmptiedFront<C(!new)>(h: Hierarchy<C>, classes: seq<C>)
    requires WellFounded(h) && NeverEmptied(h, classes) && classes != []
    ensures NeverEmptied(h, classes[..|classes| - 1])
    ensures |classes| > 1 ==> Common(h, classes[..|classes| - 1]) != []
  {
    var front := classes[..|classes| - 1];
    forall i | 1 <= i < |front| ensures Common(h, front[..i]) != [] {
      assert front[..i] == classes[..i];
    }
  }

  /** Every class of `classes` reaches x. */
  ghost predicate AllReach<C(!new)>(h: Hierarchy<C>, classes: seq<C>, x: C)
    requires WellFounded(h)
  {
    forall j :: 0 <= j < |classes| ==> Reaches(h, classes[j], x)
  }

  lemma AllReachSnoc<C(!new)>(h: Hierarchy<C>, classes: seq<C>, x: C)
    requires WellFounded(h) && classes != []
    ensures AllReach(h, classes, x) <==>
      AllReach(h, classes[..|classes| - 1], x) && Reaches(h, classes[|classes| - 1], x)
  {
    var front := classes[..|classes| - 1];
    assert forall j :: 0 <= j < |front| ==> front[j] == classes[j];
  }

  /** While the running set never empties, the result is the intersection of the ancestor sets. */
  lemma {:induction false} CommonIntersection<C(!new)>(h: Hierarchy<C>, classes: seq<C>, x: C)
    requires WellFounded(h) && NeverEmptied(h, classes)
    ensures x in Common(h, classes) <==> classes != [] && AllReach(h, classes, x)
    decreases |classes|
  {
    if classes != [] {
      var front := classes[..|classes| - 1];
      NeverEmptiedFront(h, classes);
      AllReachSnoc(h, classes, x);
      if front == [] {
        AncestorsMembers(h, classes[0], x);
      } else {
        CommonIntersection(h, front, x);
        CommonSnoc(h, classes, x);
      }
    }
  }

  /**
   * While the running set never empties, the result keeps the order of the
   * first class's ancestors: it is the subsequence of them that every class
   * shares.
   */
  lemma {:induction false} CommonOrdered<C(!new)>(h: Hierarchy<C>, classes: seq<C>, x: C)
    requires WellFounded(h) && NeverEmptied(h, classes) && classes != []
    ensures IsSubsequence(Common(h, classes), Ancestors(h, classes[0]))
    ensures x in Common(h, classes) <==> x in Ancestors(h, classes[0]) && AllReach(h, classes, x)
    decreases |classes|
  {
    CommonIntersection(h, classes, x);
    AncestorsMembers(h, classes[0], x);
    var front := classes[..|classes| - 1];
    if front == [] {
      CommonRefill(h, [], classes[0]);
      assert [] + [classes[0]] == classes;
      SubsequenceReflexive(Ancestors(h, classes[0]));
    } else {
      NeverEmptiedFront(h, classes);
      CommonOrdered(h, front, x);
      assert front[0] == classes[0];
      SubsequenceTransitive(Common(h, classes), Common(h, front), Ancestors(h, classes[0]));
    }
  }

  /** Once the running set is empty, the next class starts it afresh with all its ancestors. */
  lemma CommonRefill<C(!new)>(h: Hierarchy<C>, classes: seq<C>, c: C)
    requires WellFounded(h) && Common(h, classes) == []
    ensures Common(h, classes + [c]) == Ancestors(h, c)
  {
    assert (classes + [c])[..|classes|] == classes;
    AncestorsMembers(h, c, c);
    AddAllDistinct([], Ancestors(h, c));
    assert [] + Ancestors(h, c) == Ancestors(h, c);
  }

  /**
   * The intersection getAncestors(classes) evidently intends: the first
   * class's ancestors, intersected with those of each further class, with
   * no refill once the running set is empty.
   */
  function Shared<C(==,!new)>(h: Hierarchy<C>, classes: seq<C>): (r: seq<C>)
    requires WellFounded(h)
    ensures Distinct(r)
    decreases |classes|
  {
    if classes == [] then []
    else if |classes| == 1 then AddAll([], Ancestors(h, classes[0]))
    else RetainAll(Shared(h, classes[..|classes| - 1]), Ancestors(h, classes[|classes| - 1]))
  }

  /** The corrected result holds exactly the classes that every class reaches. */
  lemma {:induction false} SharedIntersection<C(!new)>(h: Hierarchy<C>, classes: seq<C>, x: C)
    requires WellFounded(h)
    ensures x in Shared(h, classes) <==> classes != [] && AllReach(h, classes, x)
    decreases |classes|
  {
    if classes != [] {
      var front := classes[..|classes| - 1];
      AllReachSnoc(h, classes, x);
      AncestorsMembers(h, classes[|classes| - 1], x);
      if front != [] {
        SharedIntersection(h, front, x);
      }
    }
  }

  /** The corrected result keeps the order of the first class's ancestors. */
  lemma {:induction false} SharedOrdered<C(!new)>(h: Hierarchy<C>, classes: seq<C>)
    requires WellFounded(h) && classes != []
    ensures IsSubsequence(Shared(h, classes), Ancestors(h, classes[0]))
    decreases |classes|
  {
    var front := classes[..|classes| - 1];
    if front == [] {
      AncestorsMembers(h, classes[0], classes[0]);
      AddAllDistinct([], Ancestors(h, classes[0]));
      assert [] + Ancestors(h, classes[0]) == Ancestors(h, classes[0]);
      SubsequenceReflexive(Ancestors(h, classes[0]));
    } else {
      SharedOrdered(h, front);
      assert front[0] == classes[0];
      SubsequenceTransitive(Shared(h, classes), Shared(h, front), Ancestors(h, classes[0]));
    }
  }

  /** While the running set never empties, the loop as written computes the corrected result. */
  lemma {:induction false} CommonShared<C(!new)>(h: Hierarchy<C>, classes: seq<C>)
    requires WellFounded(h) && NeverEmptied(h, classes)
    ensures Common(h, classes) == Shared(h, classes)
    decreases |classes|
  {
    if classes != [] {
      var front := classes[..|classes| - 1];
      NeverEmptiedFront(h, classes);
      if front != [] {
        CommonShared(h, front);
      }
    }
  }

  /** Two classes that share no ancestor leave the running set empty. */
  lemma CommonDisjoint<C(!new)>(h: Hierarchy<C>, a: C, b: C)
    requires WellFounded(h)
    requires forall x :: !(Reaches(h, a, x) && Reaches(h, b, x))
    ensures Common(h, [a, b]) == []
  {
    var ab := [a, b];
    CommonRefill(h, [], a);
    assert [] + [a] == [a] == ab[..1];
    AncestorsMembers(h, a, a);
    var r := Common(h, ab);
    if r != [] {
      CommonSnoc(h, ab, r[0]);
      AncestorsMembers(h, a, r[0]);
      assert false;
    }
  }

  /**
   * The refill as written: when a and b share no ancestor and a does not
   * reach c, the loop still answers c for [a, b, c], which the corrected
   * intersection leaves out.
   */
  lemma RefillCounterexample<C(!new)>(h: Hierarchy<C>, a: C, b: C, c: C)
    requires WellFounded(h)
    requires forall x :: !(Reaches(h, a, x) && Reaches(h, b, x))
    requires !Reaches(h, a, c)
    ensures Common(h, [a, b]) == []
    ensures c in Common(h, [a, b, c])
    ensures c !in Shared(h, [a, b, c])
  {
    CommonDisjoint(h, a, b);
    RefillKeeps(h, [a, b], c);
    assert [a, b] + [c] == [a, b, c];
    SharedMisses(h, [a, b, c], c);
  }

  /** A class the first class does not reach is not in the corrected result. */
  lemma SharedMisses<C(!new)>(h: Hierarchy<C>, classes: seq<C>, c: C)
    requires WellFounded(h) && classes != [] && !Reaches(h, classes[0], c)
    ensures c !in Shared(h, classes)
  {
    SharedIntersection(h, classes, c);
  }

  /** A few classes of java.lang and java.io, enough to show the refill. */
  datatype LangClass = Object | Serializable | Comparable | CharSequence | Runnable | String

  /** String extends Object and implements Serializable, Comparable and CharSequence; the rest are roots. */
  function Lang(): (h: Hierarchy<LangClass>)
    ensures WellFounded(h)
  {
    Hierarchy(
      c => if c == String then Some(Object) else None,
      c => if c == String then [Serializable, Comparable, CharSequence] else [],
      c => if c == String then 1 else 0)
  }

  /** A class without parents reaches only itself. */
  lemma RootReaches<C(!new)>(h: Hierarchy<C>, c: C, x: C)
    requires WellFounded(h) && Parents(h, c) == []
    ensures Reaches(h, c, x) <==> x == c
  {
  }

  /** Of the classes that matter here, String reaches Comparable and not Runnable. */
  lemma StringReaches()
    ensures Reaches(Lang(), String, Comparable)
    ensures !Reaches(Lang(), String, Runnable)
  {
    var h := Lang();
    var parents := Parents(h, String);
    assert parents == [Object, Serializable, Comparable, CharSequence];
    assert Reaches(h, parents[2], Comparable);
    forall i | 0 <= i < |parents| ensures !Reaches(h, parents[i], Runnable) {
      RootReaches(h, parents[i], Runnable);
    }
  }

  /**
   * getAncestors(Runnable, Comparable, String): Runnable and Comparable share
   * no ancestor, so the loop refills with all of String's, Comparable among
   * them but not Runnable, where the intended intersection is empty.
   */
  lemma RunnableComparableString()
    ensures Common(Lang(), [Runnable, Comparable, String]) == Ancestors(Lang(), String)
    ensures Comparable in Common(Lang(), [Runnable, Comparable, String])
    ensures Runnable !in Common(Lang(), [Runnable, Comparable, String])
    ensures Shared(Lang(), [Runnable, Comparable, String]) == []
  {
    StringReaches();
    TwoRootsThen(Lang(), Runnable, Comparable, String);
  }

  /** Two distinct roots share no ancestor. */
  lemma RootsApart<C(!new)>(h: Hierarchy<C>, a: C, b: C)
    requires WellFounded(h) && Parents(h, a) == [] && Parents(h, b) == [] && a != b
    ensures forall x :: !(Reaches(h, a, x) && Reaches(h, b, x))
  {
    forall x ensures !(Reaches(h, a, x) && Reaches(h, b, x)) {
      RootReaches(h, a, x);
      RootReaches(h, b, x);
    }
  }

  /** Two distinct roots a and b, then a class c that reaches b and not a. */
  lemma TwoRootsThen<C(!new)>(h: Hierarchy<C>, a: C, b: C, c: C)
    requires WellFounded(h) && Parents(h, a) == [] && Parents(h, b) == [] && a != b
    requires Reaches(h, c, b) && !Reaches(h, c, a)
    ensures Common(h, [a, b, c]) == Ancestors(h, c)
    ensures b in Common(h, [a, b, c]) && a !in Common(h, [a, b, c])
    ensures Shared(h, [a, b, c]) == []
  {
    var abc := [a, b, c];
    assert Common(h, abc) == Ancestors(h, c) by {
      RootsApart(h, a, b);
      CommonDisjoint(h, a, b);
      CommonRefill(h, [a, b], c);
      assert [a, b] + [c] == abc;
    }
    assert Shared(h, abc) == [] by {
      RootsApart(h, a, b);
      SharedEmpty(h, abc);
    }
    AncestorsMembers(h, c, b);
    AncestorsMembers(h, c, a);
  }

  /** Two first classes that share no ancestor leave the corrected result empty. */
  lemma SharedEmpty<C(!new)>(h: Hierarchy<C>, classes: seq<C>)
    requires WellFounded(h) && |classes| >= 2
    requires forall x :: !(Reaches(h, classes[0], x) && Reaches(h, classes[1], x))
    ensures Shared(h, classes) == []
  {
    var r := Shared(h, classes);
    if r != [] {
      SharedIntersection(h, classes, r[0]);
      assert false;
    }
  }

  /** After the running set empties, the next class is itself in the result. */
  lemma RefillKeeps<C(!new)>(h: Hierarchy<C>, classes: seq<C>, c: C)
    requires WellFounded(h) && Common(h, classes) == []
    ensures c in Common(h, classes + [c])
  {
    CommonRefill(h, classes, c);
    AncestorsMembers(h, c, c);
  }

  /** getNearestAncestor(classes): the first common ancestor, or the root class when there is none. */
  function NearestAncestor<C(==,!new)>(h: Hierarchy<C>, classes: seq<C>, root: C): (r: C)
    requires WellFounded(h)
    ensures Common(h, classes) == [] ==> r == root
    ensures Common(h, classes) != [] ==> r == Common(h, classes)[0]
  {
    var ancestors := Common(h, classes);
    if |ancestors| > 0 then ancestors[0] else root
  }

  /** The nearest ancestor of one class is that class. */
  lemma NearestOfOne<C(!new)>(h: Hierarchy<C>, c: C, root: C)
    requires WellFounded(h)
    ensures NearestAncestor(h, [c], root) == c
  {
    CommonRefill(h, [], c);
    assert [] + [c] == [c];
    AncestorsStart(h, c);
  }

  /** While the running set never empties, a non-root nearest ancestor is shared by all the classes. */
  lemma NearestShared<C(!new)>(h: Hierarchy<C>, classes: seq<C>, root: C, j: int)
    requires WellFounded(h) && NeverEmptied(h, classes) && Common(h, classes) != [] && 0 <= j < |classes|
    ensures Reaches(h, classes[j], NearestAncestor(h, classes, root))
  {
    CommonIntersection(h, classes, NearestAncestor(h, classes, root));
  }

  // ---------------------------------------------------------------------------
  // toClassSet

  /** The classes of the non-null objects, in order, repetitions kept. */
  function ClassesOf<O, C>(objects: seq<Option<O>>, classOf: O -> C): seq<C>
    decreases |objects|
  {
    if objects == [] then []
    else
      ClassesOf(objects[..|objects| - 1], classOf)
      + match objects[|objects| - 1] case Some(o) => [classOf(o)] case None => []
  }

  /** One more object adds its class, when it is not null. */
  lemma ClassesStep<O, C(!new)>(objects: seq<Option<O>>, classOf: O -> C, i: nat)
    requires i < |objects|
    ensures var before := AddAll([], ClassesOf(objects[..i], classOf));
      AddAll([], ClassesOf(objects[..i + 1], classOf))
        == match objects[i] case Some(o) => Add(before, classOf(o)) case None => before
  {
    var front := ClassesOf(objects[..i], classOf);
    assert objects[..i + 1][..i] == objects[..i];
    match objects[i] {
      case Some(o) =>
        AddAllConcat([], front, [classOf(o)]);
      case None =>
        assert front + [] == front;
    }
  }

  lemma {:induction false} ClassesOfMembers<O, C(!new)>(objects: seq<Option<O>>, classOf: O -> C, c: C)
    ensures c in ClassesOf(objects, classOf) <==>
      exists i :: 0 <= i < |objects| && objects[i].Some? && classOf(objects[i].value) == c
    decreases |objects|
  {
    if objects != [] {
      var n := |objects| - 1;
      var front := objects[..n];
      ClassesOfMembers(front, classOf, c);
      if exists i :: 0 <= i < |front| && front[i].Some? && classOf(front[i].value) == c {
        var i :| 0 <= i < |front| && front[i].Some? && classOf(front[i].value) == c;
        assert objects[i] == front[i];
      }
      if exists i :: 0 <= i < |objects| && objects[i].Some? && classOf(objects[i].value) == c {
        var i :| 0 <= i < |objects| && objects[i].Some? && classOf(objects[i].value) == c;
        if i < n {
          assert front[i] == objects[i];
        }
      }
    }
  }

  /** toClassSet(objects): the classes of the non-null objects, first-seen order, each once. */
  method ToClassSet<O, C(==,!new)>(objects: seq<Option<O>>, classOf: O -> C) returns (classes: seq<C>)
    ensures classes == AddAll([], ClassesOf(objects, classOf))
    ensures Distinct(classes)
    ensures forall c :: c in classes <==>
      exists i :: 0 <= i < |objects| && objects[i].Some? && classOf(objects[i].value) == c
  {
    classes := [];
    for i := 0 to |objects|
      invariant classes == AddAll([], ClassesOf(objects[..i], classOf))
    {
      ClassesStep(objects, classOf, i);
      match objects[i] {
        case Some(o) => classes := Add(classes, classOf(o));
        case None =>
      }
    }
    assert objects[..|objects|] == objects;
    forall c ensures c in classes <==>
      exists i :: 0 <= i < |objects| && objects[i].Some? && classOf(objects[i].value) == c
    {
      ClassesOfMembers(objects, classOf, c);
    }
  }

  // ---------------------------------------------------------------------------
  // getNearestAncestor(Class...)

  /** getClass() on a class object: every class object is a java.lang.Class (`classClass`). */
  function ClassObjectClass<C>(classClass: C): C -> C {
    c => classClass
  }

  /**
   * getNearestAncestor(Class...) as written: Arrays.asList hands the array
   * to the getNearestAncestor(Collection<?>) overload, which takes the class
   * of each non-null element, and each element is itself a class object.
   */
  function NearestOfClassArgsAsWritten<C(==,!new)>(h: Hierarchy<C>, classes: seq<Option<C>>, classClass: C, root: C): (r: C)
    requires WellFounded(h)
    ensures (forall i :: 0 <= i < |classes| ==> classes[i].None?) ==> r == root
  {
    var seen := ClassesOf(classes, ClassObjectClass(classClass));
    ClassObjectsClasses(classes, classClass);
    NearestAncestor(h, AddAll([], seen), root)
  }

  /** The classes of class objects are all java.lang.Class, one per non-null element. */
  lemma {:induction false} ClassObjectsClasses<C(!new)>(classes: seq<Option<C>>, classClass: C)
    ensures forall y :: y in ClassesOf(classes, ClassObjectClass(classClass)) ==> y == classClass
    ensures ClassesOf(classes, ClassObjectClass(classClass)) == [] <==>
      forall i :: 0 <= i < |classes| ==> classes[i].None?
    decreases |classes|
  {
    if classes != [] {
      var n := |classes| - 1;
      ClassObjectsClasses(classes[..n], classClass);
      assert forall i :: 0 <= i < n ==> classes[..n][i] == classes[i];
    }
  }

  /** Every non-null class object adds java.lang.Class, once. */
  lemma ClassObjectsSeen<C(!new)>(classes: seq<Option<C>>, classClass: C)
    requires exists i :: 0 <= i < |classes| && classes[i].Some?
    ensures AddAll([], ClassesOf(classes, ClassObjectClass(classClass))) == [classClass]
  {
    var seen := ClassesOf(classes, ClassObjectClass(classClass));
    ClassObjectsClasses(classes, classClass);
    assert seen != [];
    assert seen[0] in seen;
    assert Add([], seen[0]) == [classClass];
    assert AddAll([], seen) == AddAll([classClass], seen[1..]);
    forall y | y in seen[1..] ensures y in [classClass] {
      assert y in seen;
    }
    AddAllPresent([classClass], seen[1..]);
  }

  /**
   * The discrepancy: for any call with a non-null class, the overload
   * answers java.lang.Class, whatever the classes are.
   */
  lemma NearestOfClassArgsIsClassClass<C(!new)>(h: Hierarchy<C>, classes: seq<Option<C>>, classClass: C, root: C)
    requires WellFounded(h) && exists i :: 0 <= i < |classes| && classes[i].Some?
    ensures NearestOfClassArgsAsWritten(h, classes, classClass, root) == classClass
  {
    ClassObjectsSeen(classes, classClass);
    NearestOfOne(h, classClass, root);
  }

  /**
   * One class that is not java.lang.Class: as written the overload answers
   * java.lang.Class, while the nearest ancestor of one class is that class.
   */
  lemma NearestOfClassArgsCounterexample<C(!new)>(h: Hierarchy<C>, c: C, classClass: C, root: C)
    requires WellFounded(h) && c != classClass
    ensures NearestOfClassArgsAsWritten(h, [Some(c)], classClass, root) != NearestAncestor(h, [c], root)
  {
    assert [Some(c)][0].Some?;
    NearestOfClassArgsIsClassClass(h, [Some(c)], classClass, root);
    NearestOfOne(h, c, root);
  }

  // ---------------------------------------------------------------------------
  // toClassArray

  /** What toClassArray can throw: Class.forName(null) or a name the loader does not know. */
  datatype NameError =
    | NullPointer               // NullPointerException: Class.forName(null), Arrays.asList(null)
    | NotFound(name: string)    // ClassNotFoundException

  /** The class of one name: a null name throws, unlike ClassHelper.forName, which skips it. */
  function NamedOne<C>(name: Option<string>, lookup: string -> Option<C>): (r: Result<C, NameError>)
    ensures name.None? ==> r == Err(NullPointer)
    ensures name.Some? && lookup(name.value).Some? ==> r == Ok(lookup(name.value).value)
    ensures name.Some? && lookup(name.value).None? ==> r == Err(NotFound(name.value))
  {
    match name
    case None => Err(NullPointer)
    case Some(n) => match lookup(n) case Some(c) => Ok(c) case None => Err(NotFound(n))
  }

  /** The classes toClassArray(names) yields, or the exception of the first name that fails. */
  function Named<C>(names: seq<Option<string>>, lookup: string -> Option<C>): (r: Result<seq<C>, NameError>)
    ensures r.Ok? ==> |r.value| == |names|
    decreases |names|
  {
    if names == [] then Ok([])
    else
      var n := |names| - 1;
      var front :- Named(names[..n], lookup);
      var last :- NamedOne(names[n], lookup);
      Ok(front + [last])
  }

  /**
   * toClassArray succeeds exactly when every name is non-null and known; then
   * each position holds its class; otherwise the error is that of the first
   * name that fails.
   */
  lemma {:induction false} NamedMeaning<C>(names: seq<Option<string>>, lookup: string -> Option<C>)
    ensures Named(names, lookup).Ok? <==>
      forall i :: 0 <= i < |names| ==> names[i].Some? && lookup(names[i].value).Some?
    ensures Named(names, lookup).Ok? ==> forall i :: 0 <= i < |names| ==>
      Named(names, lookup).value[i] == lookup(names[i].value).value
    ensures Named(names, lookup).Err? ==> exists j ::
      && 0 <= j < |names| && NamedOne(names[j], lookup) == Err(Named(names, lookup).error)
      && forall i :: 0 <= i < j ==> NamedOne(names[i], lookup).Ok?
    decreases |names|
  {
    if names != [] {
      var n := |names| - 1;
      var front := names[..n];
      NamedMeaning(front, lookup);
      assert forall i :: 0 <= i < n ==> front[i] == names[i];
      if Named(front, lookup).Err? {
        var j :| 0 <= j < n && NamedOne(front[j], lookup) == Err(Named(front, lookup).error)
          && forall i :: 0 <= i < j ==> NamedOne(front[i], lookup).Ok?;
        assert NamedOne(names[j], lookup) == Err(Named(names, lookup).error);
      } else if NamedOne(names[n], lookup).Err? {
        assert forall i :: 0 <= i < n ==> NamedOne(names[i], lookup).Ok?;
      }
    }
  }

  /** One more name appends its class to those found so far, or stops with its exception. */
  lemma NamedStep<C>(names: seq<Option<string>>, i: nat, lookup: string -> Option<C>)
    requires i < |names| && Named(names[..i], lookup).Ok?
    ensures Named(names[..i + 1], lookup) == match NamedOne(names[i], lookup)
      case Ok(c) => Ok(Named(names[..i], lookup).value + [c])
      case Err(e) => Err(e)
  {
    assert names[..i + 1][..i] == names[..i];
  }

  /** Once a front of the names fails, the names after it change nothing. */
  lemma {:induction false} NamedPrefixError<C>(a: seq<Option<string>>, b: seq<Option<string>>, lookup: string -> Option<C>)
    requires Named(a, lookup).Err?
    ensures Named(a + b, lookup) == Named(a, lookup)
    decreases |b|
  {
    if b == [] {
      assert a + b == a;
    } else {
      var n := |b| - 1;
      assert (a + b)[..|a + b| - 1] == a + b[..n];
      NamedPrefixError(a, b[..n], lookup);
    }
  }

  /** toClassArray(classNames) as the source runs it: null for null, otherwise Class.forName on every name in order. */
  method ToClassArray<C(0)>(classNames: array?<Option<string>>, lookup: string -> Option<C>)
    returns (r: Result<array?<C>, NameError>)
    ensures classNames == null ==> r == Ok(null)
    ensures classNames != null ==> match Named(classNames[..], lookup)
      case Ok(classes) => r.Ok? && r.value != null && fresh(r.value) && r.value[..] == classes
      case Err(e) => r == Err(e)
  {
    if classNames == null {
      return Ok(null);
    }
    var classes := new C[classNames.Length];
    ghost var names := classNames[..];
    for i := 0 to classNames.Length
      invariant names == classNames[..]
      invariant Named(names[..i], lookup) == Ok(classes[..i])
    {
      NamedStep(names, i, lookup);
      var c := NamedOne(classNames[i], lookup);
      if c.Err? {
        NamedPrefixError(names[..i + 1], names[i + 1..], lookup);
        assert names[..i + 1] + names[i + 1..] == names;
        return Err(c.error);
      }
      classes[i] := c.value;
      assert classes[..i + 1] == classes[..i] + [classes[i]];
    }
    assert names[..classNames.Length] == names;
    r := Ok(classes);
  }

  /** The class names as optional classes, the element type getNearestAncestor(Class...) takes. */
  function Wrapped<C>(classes: seq<C>): (r: seq<Option<C>>)
    ensures |r| == |classes| && forall i :: 0 <= i < |r| ==> r[i] == Some(classes[i])
  {
    seq(|classes|, i requires 0 <= i < |classes| => Some(classes[i]))
  }

  /**
   * getAncestors(String...): toClassArray, then the common ancestors of the
   * classes; a null array reaches Arrays.asList and throws.
   */
  function AncestorsOfNames<C(==,!new)>(h: Hierarchy<C>, classNames: Option<seq<Option<string>>>, lookup: string -> Option<C>)
    : (r: Result<seq<C>, NameError>)
    requires WellFounded(h)
    ensures classNames.None? ==> r == Err(NullPointer)
    ensures classNames.Some? ==> (r.Ok? <==> Named(classNames.value, lookup).Ok?)
    ensures classNames.Some? && r.Err? ==> r.error == Named(classNames.value, lookup).error
    ensures r.Ok? ==> Distinct(r.value)
    ensures classNames.Some? && r.Ok? ==> r.value == Common(h, Named(classNames.value, lookup).value)
  {
    match classNames
    case None => Err(NullPointer)
    case Some(names) =>
      var classes :- Named(names, lookup);
      Ok(Common(h, classes))
  }

  /**
   * When every name resolves and the running set never empties, the result of
   * getAncestors(String...) holds exactly the classes that are ancestors of
   * the class of every name.
   */
  lemma AncestorsOfNamesShared<C(!new)>(h: Hierarchy<C>, names: seq<Option<string>>, lookup: string -> Option<C>, x: C)
    requires WellFounded(h) && Named(names, lookup).Ok? && NeverEmptied(h, Named(names, lookup).value)
    ensures AncestorsOfNames(h, Some(names), lookup).Ok?
    ensures x in AncestorsOfNames(h, Some(names), lookup).value <==>
      names != [] && forall i :: 0 <= i < |names| ==>
        names[i].Some? && lookup(names[i].value).Some? && Reaches(h, lookup(names[i].value).value, x)
  {
    var classes := Named(names, lookup).value;
    NamedMeaning(names, lookup);
    CommonIntersection(h, classes, x);
    assert AllReach(h, classes, x) <==> forall i :: 0 <= i < |names| ==>
      names[i].Some? && lookup(names[i].value).Some? && Reaches(h, lookup(names[i].value).value, x) by {
      assert forall i :: 0 <= i < |names| ==> classes[i] == lookup(names[i].value).value;
    }
  }

  /**
   * getNearestAncestor(String...) as written: toClassArray, then the
   * getNearestAncestor(Class...) overload, so any non-empty call that finds
   * its classes answers java.lang.Class.
   */
  function NearestOfNamesAsWritten<C(==,!new)>(h: Hierarchy<C>, classNames: Option<seq<Option<string>>>, lookup: string -> Option<C>, classClass: C, root: C)
    : (r: Result<C, NameError>)
    requires WellFounded(h)
    ensures classNames.None? ==> r == Err(NullPointer)
    ensures classNames.Some? && Named(classNames.value, lookup).Err? ==> r == Err(Named(classNames.value, lookup).error)
    ensures classNames == Some([]) ==> r == Ok(root)
    ensures classNames.Some? && classNames.value != [] && Named(classNames.value, lookup).Ok? ==> r == Ok(classClass)
  {
    match classNames
    case None => Err(NullPointer)
    case Some(names) =>
      var classes :- Named(names, lookup);
      var wrapped := Wrapped(classes);
      if classes == [] then Ok(NearestOfClassArgsAsWritten(h, wrapped, classClass, root))
      else
        assert wrapped[0].Some?;
        NearestOfClassArgsIsClassClass(h, wrapped, classClass, root);
        Ok(NearestOfClassArgsAsWritten(h, wrapped, classClass, root))
  }
}
