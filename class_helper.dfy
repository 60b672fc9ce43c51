/**
 * ClassHelper: class lookup by name for an array of names, and the class of
 * an array of a given component class and number of dimensions. The class
 * loader's lookup is a parameter: a name either resolves or it does not.
 */
module ClassHelper {
  import opened Wrappers

  datatype ClassError =
    | ClassNotFound(name: string)        // ClassNotFoundException from the lookup
    | IllegalDimensions(dimensions: int) // IllegalArgumentException: fewer than one dimension
    | IllegalComponent(name: string)     // IllegalArgumentException wrapping a failed lookup

  /** The class one name yields: null for a null name. */
  function ResolveOne<C>(name: Option<string>, lookup: string -> Option<C>): (r: Result<Option<C>, ClassError>)
    ensures name.None? ==> r == Ok(None)
    ensures name.Some? && lookup(name.value).Some? ==> r == Ok(lookup(name.value))
    ensures name.Some? && lookup(name.value).None? ==> r == Err(ClassNotFound(name.value))
  {
    match name
    case None => Ok(None)
    case Some(n) => match lookup(n) case Some(c) => Ok(Some(c)) case None => Err(ClassNotFound(n))
  }

  /**
   * The classes forName(classNames) yields: null for a null name, the
   * looked-up class otherwise; the first name that does not resolve is the
   * error.
   */
  function Resolve<C>(names: seq<Option<string>>, lookup: string -> Option<C>): (r: Result<seq<Option<C>>, ClassError>)
    ensures r.Ok? ==> |r.value| == |names|
    decreases |names|
  {
    if names == [] then Ok([])
    else
      var n := |names| - 1;
      var front :- Resolve(names[..n], lookup);
      var last :- ResolveOne(names[n], lookup);
      Ok(front + [last])
  }

  /**
   * Position by position: null for a null name, the looked-up class for
   * others, and on failure the first non-null name that does not resolve.
   */
  lemma {:induction false} ResolveMeaning<C>(names: seq<Option<string>>, lookup: string -> Option<C>)
    ensures var r := Resolve(names, lookup);
      && (r.Ok? ==> forall i :: 0 <= i < |names| ==> (r.value[i].None? <==> names[i].None?))
      && (r.Ok? ==> forall i :: 0 <= i < |names| && names[i].Some? ==>
            lookup(names[i].value).Some? && r.value[i] == lookup(names[i].value))
      && (r.Err? ==> exists i ::
            && 0 <= i < |names| && names[i].Some? && lookup(names[i].value).None?
            && r.error == ClassNotFound(names[i].value)
            && forall j :: 0 <= j < i ==> ResolveOne(names[j], lookup).Ok?)
    decreases |names|
  {
    if names != [] {
      var n := |names| - 1;
      var front := names[..n];
      ResolveMeaning(front, lookup);
      assert forall i :: 0 <= i < n ==> front[i] == names[i];
      if Resolve(front, lookup).Err? {
        var i :| 0 <= i < n && front[i].Some? && lookup(front[i].value).None?
          && Resolve(front, lookup).error == ClassNotFound(front[i].value)
          && forall j :: 0 <= j < i ==> ResolveOne(front[j], lookup).Ok?;
        assert names[i] == front[i];
      } else if ResolveOne(names[n], lookup).Err? {
        assert forall j :: 0 <= j < n ==> ResolveOne(names[j], lookup).Ok? by {
          forall j | 0 <= j < n ensures ResolveOne(names[j], lookup).Ok? {
            assert names[j] == front[j];
          }
        }
      }
    }
  }

  /** forName succeeds exactly when every non-null name resolves. */
  lemma {:induction false} ResolveSucceeds<C>(names: seq<Option<string>>, lookup: string -> Option<C>)
    ensures Resolve(names, lookup).Ok? <==>
      forall i :: 0 <= i < |names| && names[i].Some? ==> lookup(names[i].value).Some?
    decreases |names|
  {
    if names != [] {
      var n := |names| - 1;
      ResolveSucceeds(names[..n], lookup);
      assert forall i :: 0 <= i < n ==> names[..n][i] == names[i];
    }
  }

  /** Resolving one more name extends the classes resolved so far, or fails on that name. */
  lemma ResolveStep<C>(names: seq<Option<string>>, i: nat, lookup: string -> Option<C>)
    requires i < |names| && Resolve(names[..i], lookup).Ok?
    ensures Resolve(names[..i + 1], lookup) == match ResolveOne(names[i], lookup)
      case Ok(c) => Ok(Resolve(names[..i], lookup).value + [c])
      case Err(e) => Err(e)
  {
    assert names[..i + 1][..i] == names[..i];
  }

  /** Once a front of the names fails, the names after it change nothing. */
  lemma {:induction false} ResolvePrefixError<C>(a: seq<Option<string>>, b: seq<Option<string>>, lookup: string -> Option<C>)
    requires Resolve(a, lookup).Err?
    ensures Resolve(a + b, lookup) == Resolve(a, lookup)
    decreases |b|
  {
    if b == [] {
      assert a + b == a;
    } else {
      var n := |b| - 1;
      assert (a + b)[..|a + b| - 1] == a + b[..n];
      ResolvePrefixError(a, b[..n], lookup);
    }
  }

  /** forName(classNames) as the source runs it: one lookup per non-null name, in order. */
  method ForName<C>(classNames: array?<Option<string>>, lookup: string -> Option<C>)
    returns (r: Result<array?<Option<C>>, ClassError>)
    ensures classNames == null ==> r == Ok(null)
    ensures classNames != null ==> match Resolve(classNames[..], lookup)
      case Ok(classes) => r.Ok? && r.value != null && fresh(r.value) && r.value[..] == classes
      case Err(e) => r == Err(e)
  {
    if classNames == null {
      return Ok(null);
    }
    var classes := new Option<C>[classNames.Length](_ => None);
    ghost var names := classNames[..];
    for i := 0 to classNames.Length
      invariant names == classNames[..]
      invariant forall j :: i <= j < classes.Length ==> classes[j].None?
      invariant Resolve(names[..i], lookup) == Ok(classes[..i])
    {
      ResolveStep(names, i, lookup);
      match classNames[i] {
        case Some(n) =>
          match lookup(n) {
            case Some(c) => classes[i] := Some(c);
            case None =>
              ResolvePrefixError(names[..i + 1], names[i + 1..], lookup);
              assert names[..i + 1] + names[i + 1..] == names;
              return Err(ClassNotFound(n));
          }
        case None =>
      }
      assert classes[..i + 1] == classes[..i] + [classes[i]];
    }
    assert names[..classNames.Length] == names;
    r := Ok(classes);
  }

  /** `n` copies of `c`, as StringHelper.repeat writes them. */
  function Repeat(c: char, n: nat): (s: string)
    ensures |s| == n && forall i :: 0 <= i < n ==> s[i] == c
  {
    if n == 0 then [] else [c] + Repeat(c, n - 1)
  }

  /** The binary name of an array class: one '[' per dimension, then "L", the component name and ";". */
  function ArrayClassName(component: string, dimensions: nat): (s: string)
    ensures |s| == dimensions + |component| + 2
  {
    Repeat('[', dimensions) + "L" + component + ";"
  }

  /** The number of leading '[' characters. */
  function LeadingBrackets(s: string): (n: nat)
    ensures n <= |s| && forall i :: 0 <= i < n ==> s[i] == '['
    ensures n < |s| ==> s[n] != '['
  {
    if s == [] || s[0] != '[' then 0 else 1 + LeadingBrackets(s[1..])
  }

  /** Reads an array class name back into its component name and dimensions. */
  function ParseArrayClassName(s: string): (r: Option<(string, nat)>)
  {
    var n := LeadingBrackets(s);
    if n >= 1 && |s| >= n + 2 && s[n] == 'L' && s[|s| - 1] == ';' then Some((s[n + 1..|s| - 1], n)) else None
  }

  lemma {:induction false} LeadingBracketsOf(rest: string, n: nat)
    requires rest != [] && rest[0] != '['
    ensures LeadingBrackets(Repeat('[', n) + rest) == n
    decreases n
  {
    if n > 0 {
      assert (Repeat('[', n) + rest)[1..] == Repeat('[', n - 1) + rest;
      LeadingBracketsOf(rest, n - 1);
    } else {
      assert Repeat('[', n) + rest == rest;
    }
  }

  /** The array class name determines the component name and the dimensions. */
  lemma ParseArrayClassNameInverse(component: string, dimensions: nat)
    requires dimensions >= 1
    ensures ParseArrayClassName(ArrayClassName(component, dimensions)) == Some((component, dimensions))
  {
    var s := ArrayClassName(component, dimensions);
    var rest := "L" + component + ";";
    assert s == Repeat('[', dimensions) + rest;
    LeadingBracketsOf(rest, dimensions);
    assert s[dimensions + 1..|s| - 1] == component;
  }

  /** Every name the parser reads back is the array class name of what it returns. */
  lemma ParseArrayClassNameSound(s: string)
    requires ParseArrayClassName(s).Some?
    ensures var (component, dimensions) := ParseArrayClassName(s).value;
      dimensions >= 1 && ArrayClassName(component, dimensions) == s
  {
    var n := LeadingBrackets(s);
    var component := s[n + 1..|s| - 1];
    assert s[..n] == Repeat('[', n);
    assert s == s[..n] + [s[n]] + component + [s[|s| - 1]];
  }

  /**
   * getArrayClass(componentClass, dimensions): fewer than one dimension is an
   * illegal argument, and so is a class name the lookup cannot resolve.
   */
  function GetArrayClass<C>(component: string, dimensions: int, lookup: string -> Option<C>): (r: Result<C, ClassError>)
    ensures dimensions < 1 ==> r == Err(IllegalDimensions(dimensions))
    ensures dimensions >= 1 ==> var name := ArrayClassName(component, dimensions);
      && (lookup(name).Some? ==> r == Ok(lookup(name).value))
      && (lookup(name).None? ==> r == Err(IllegalComponent(name)))
  {
    if dimensions < 1 then Err(IllegalDimensions(dimensions))
    else
      var name := ArrayClassName(component, dimensions);
      match lookup(name)
      case Some(c) => Ok(c)
      case None => Err(IllegalComponent(name))
  }
}
