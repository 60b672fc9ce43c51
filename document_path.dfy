/**
 * The path syntax of IDataHelper's get/put/drop/size: `a/b` descends into the
 * nested document `a`, `k(n)` addresses the n-th occurrence of key `k`, and
 * `k[i]` element `i` of the array held by `k` (negative `i` counts from the end).
 * A segment with no selector addresses the first occurrence of its key.
 */
module DocumentPath {
  import IntegerHelper

  datatype Selector = First | Nth(n: nat) | At(i: int)
  datatype Step = Step(key: string, sel: Selector)

  /** A parsed path: one step per `/`-separated segment, never empty. */
  type Path = p: seq<Step> | |p| > 0 witness [Step("", First)]

  predicate IsDecimal(c: char) {
    IntegerHelper.Digit(c, 10).Some?
  }

  /** Splits a string at every '/'. */
  function Split(s: string): (parts: seq<string>)
    ensures |parts| > 0
    ensures forall i :: 0 <= i < |parts| ==> '/' !in parts[i]
  {
    if s == [] then [""]
    else if s[0] == '/' then [""] + Split(s[1..])
    else
      var rest := Split(s[1..]);
      [[s[0]] + rest[0]] + rest[1..]
  }

  /** Joins segments with '/'. */
  function Join(parts: seq<string>): string
    requires |parts| > 0
  {
    if |parts| == 1 then parts[0] else parts[0] + "/" + Join(parts[1..])
  }

  lemma JoinCons(c: char, parts: seq<string>)
    requires |parts| > 0
    ensures Join([[c] + parts[0]] + parts[1..]) == [c] + Join(parts)
  {
    if |parts| == 1 {
      JoinConsOne(c, parts[0]);
      assert parts == [parts[0]];
    } else {
      JoinConsMore(c, parts[0], parts[1..]);
      assert parts == [parts[0]] + parts[1..];
    }
  }

  lemma JoinConsOne(c: char, s: string)
    ensures Join([[c] + s]) == [c] + Join([s])
  {
  }

  lemma JoinConsMore(c: char, first: string, rest: seq<string>)
    requires |rest| > 0
    ensures Join([[c] + first] + rest) == [c] + Join([first] + rest)
  {
    var tail := "/" + Join(rest);
    ConsParts([c] + first, rest);
    assert Join([[c] + first] + rest) == ([c] + first) + tail;
    ConsParts(first, rest);
    assert Join([first] + rest) == first + tail;
    ConsConcat(c, first, tail);
  }

  lemma ConsParts<T>(x: T, ys: seq<T>)
    ensures ([x] + ys)[0] == x && ([x] + ys)[1..] == ys && |[x] + ys| == |ys| + 1
  {
  }

  lemma ConsConcat<T>(c: T, a: seq<T>, b: seq<T>)
    ensures [c] + a + b == [c] + (a + b)
  {
  }

  lemma {:induction false} JoinSplit(s: string)
    ensures Join(Split(s)) == s
  {
    if s != [] {
      JoinSplit(s[1..]);
      if s[0] == '/' {
        assert ([""] + Split(s[1..]))[1..] == Split(s[1..]);
      } else {
        JoinCons(s[0], Split(s[1..]));
      }
    }
  }

  lemma {:induction false} SplitAppend(a: string, b: string)
    requires '/' !in a
    ensures Split(a + "/" + b) == [a] + Split(b)
  {
    if a == [] {
      assert a + "/" + b == ['/'] + b;
      assert (['/'] + b)[1..] == b;
    } else {
      SplitAppend(a[1..], b);
      assert (a + "/" + b)[1..] == a[1..] + "/" + b;
      assert [a[0]] + a[1..] == a;
    }
  }

  lemma {:induction false} SplitNoSlash(a: string)
    requires '/' !in a
    ensures Split(a) == [a]
  {
    if a != [] {
      SplitNoSlash(a[1..]);
      assert [a[0]] + a[1..] == a;
    }
  }

  /** Splitting inverts joining, for segments without '/'. */
  lemma {:induction false} SplitJoin(parts: seq<string>)
    requires |parts| > 0
    requires forall i :: 0 <= i < |parts| ==> '/' !in parts[i]
    ensures Split(Join(parts)) == parts
  {
    if |parts| == 1 {
      SplitNoSlash(parts[0]);
    } else {
      SplitJoin(parts[1..]);
      SplitAppend(parts[0], Join(parts[1..]));
    }
  }

  /** The length of the run of decimal digits that ends `s`. */
  function TrailingDigits(s: string): (n: nat)
    ensures n <= |s|
    ensures forall i :: |s| - n <= i < |s| ==> IsDecimal(s[i])
    ensures n < |s| ==> !IsDecimal(s[|s| - n - 1])
  {
    if s == [] || !IsDecimal(s[|s| - 1]) then 0
    else 1 + TrailingDigits(s[..|s| - 1])
  }

  lemma {:induction false} TrailingDigitsOf(prefix: string, digits: string)
    requires forall i :: 0 <= i < |digits| ==> IsDecimal(digits[i])
    requires prefix != [] && !IsDecimal(prefix[|prefix| - 1])
    ensures TrailingDigits(prefix + digits) == |digits|
  {
    if digits != [] {
      var s := prefix + digits;
      assert s[..|s| - 1] == prefix + digits[..|digits| - 1];
      TrailingDigitsOf(prefix, digits[..|digits| - 1]);
    } else {
      assert prefix + digits == prefix;
    }
  }

  /** The decimal value of the `n` digits that end `s`. */
  function TrailingValue(s: string, n: nat): nat
    requires n <= |s| && forall i :: |s| - n <= i < |s| ==> IsDecimal(s[i])
  {
    var t := s[|s| - n..];
    assert IntegerHelper.AllDigits(t, 10) by {
      forall i | 0 <= i < |t| ensures IsDecimal(t[i]) {
        assert t[i] == s[|s| - n + i];
      }
    }
    IntegerHelper.DigitsValue(t, 10)
  }

  /** Reads one segment: `k(n)`, `k[i]`, `k[-i]`, or else a bare key. */
  function ParseStep(seg: string): Step
  {
    if seg != [] && seg[|seg| - 1] == ')' then ReadOccurrence(seg, seg[..|seg| - 1])
    else if seg != [] && seg[|seg| - 1] == ']' then ReadIndex(seg, seg[..|seg| - 1])
    else Step(seg, First)
  }

  /** `body` is `seg` without its closing ')': `k(n)` if it ends in '(' and digits. */
  function ReadOccurrence(seg: string, body: string): Step
  {
    var n := TrailingDigits(body);
    var k := |body| - n;
    if n > 0 && k > 0 && body[k - 1] == '(' then Step(body[..k - 1], Nth(TrailingValue(body, n)))
    else Step(seg, First)
  }

  /** `body` is `seg` without its closing ']': `k[i]` or `k[-i]`. */
  function ReadIndex(seg: string, body: string): Step
  {
    var n := TrailingDigits(body);
    var k := |body| - n;
    if n == 0 || k == 0 then Step(seg, First)
    else if body[k - 1] == '[' then Step(body[..k - 1], At(TrailingValue(body, n)))
    else if k > 1 && body[k - 1] == '-' && body[k - 2] == '[' then
      Step(body[..k - 2], At(-(TrailingValue(body, n) as int)))
    else Step(seg, First)
  }

  function ParseSteps(parts: seq<string>): (p: seq<Step>)
    ensures |p| == |parts|
  {
    if parts == [] then [] else [ParseStep(parts[0])] + ParseSteps(parts[1..])
  }

  /** Parses a path string; every string is a path. */
  function Parse(s: string): Path
  {
    ParseSteps(Split(s))
  }

  function RenderStep(step: Step): string
  {
    match step.sel
    case First => step.key
    case Nth(n) => step.key + "(" + IntegerHelper.ToDigits(n, 10) + ")"
    case At(i) =>
      if i < 0 then step.key + "[-" + IntegerHelper.ToDigits(-i, 10) + "]"
      else step.key + "[" + IntegerHelper.ToDigits(i, 10) + "]"
  }

  function RenderSteps(p: seq<Step>): (parts: seq<string>)
    ensures |parts| == |p|
  {
    if p == [] then [] else [RenderStep(p[0])] + RenderSteps(p[1..])
  }

  function Render(p: Path): string
  {
    Join(RenderSteps(p))
  }

  /** A step that can be written as a segment: no '/', and a bare key that does not end like a selector. */
  predicate Writable(step: Step)
  {
    '/' !in step.key &&
    (step.sel.First? ==> step.key == [] || (step.key[|step.key| - 1] != ')' && step.key[|step.key| - 1] != ']'))
  }

  /** The digits after a non-digit prefix are exactly the trailing digits, and they read back as `n`. */
  lemma SegmentDigits(prefix: string, n: nat)
    requires prefix != [] && !IsDecimal(prefix[|prefix| - 1])
    ensures var ds := IntegerHelper.ToDigits(n, 10);
      && |ds| > 0
      && TrailingDigits(prefix + ds) == |ds|
      && TrailingValue(prefix + ds, |ds|) == n
  {
    var ds := IntegerHelper.ToDigits(n, 10);
    var body := prefix + ds;
    TrailingDigitsOf(prefix, ds);
    assert body[|body| - |ds|..] == ds;
    IntegerHelper.ToDigitsValue(n, 10);
  }

  /** A segment `prefix + digits + close` splits back into its parts. */
  lemma SegmentParts(prefix: string, n: nat, close: char) returns (body: string)
    requires prefix != [] && !IsDecimal(prefix[|prefix| - 1])
    ensures var ds := IntegerHelper.ToDigits(n, 10);
      && body == prefix + ds
      && (prefix + ds + [close])[..|body|] == body
      && (prefix + ds + [close])[|body|] == close
      && |ds| > 0
      && TrailingDigits(body) == |ds|
      && body[..|prefix|] == prefix
      && TrailingValue(body, |ds|) == n
  {
    body := prefix + IntegerHelper.ToDigits(n, 10);
    SegmentDigits(prefix, n);
  }

  lemma ParseRenderNth(key: string, n: nat)
    ensures ParseStep(RenderStep(Step(key, Nth(n)))) == Step(key, Nth(n))
  {
    var prefix := key + "(";
    var body := SegmentParts(prefix, n, ')');
    var seg := RenderStep(Step(key, Nth(n)));
    assert seg == prefix + IntegerHelper.ToDigits(n, 10) + [')'];
    assert body[..|key|] == key;
  }

  lemma ParseRenderAtNonNegative(key: string, i: nat)
    ensures ParseStep(RenderStep(Step(key, At(i)))) == Step(key, At(i))
  {
    var prefix := key + "[";
    var body := SegmentParts(prefix, i, ']');
    var seg := RenderStep(Step(key, At(i)));
    assert seg == prefix + IntegerHelper.ToDigits(i, 10) + [']'];
    assert body[..|key|] == key;
  }

  lemma ParseRenderAtNegative(key: string, i: int)
    requires i < 0
    ensures ParseStep(RenderStep(Step(key, At(i)))) == Step(key, At(i))
  {
    var ds := IntegerHelper.ToDigits(-i, 10);
    NegativeSegment(key, ds);
    SegmentDigits(key + "[-", -i);
    RenderNegative(key, i);
    ParseClosed(key + "[-" + ds, ']');
    ReadNegativeIndex(key + "[-" + ds + "]", key, ds, -i);
  }

  lemma RenderNegative(key: string, i: int)
    requires i < 0
    ensures RenderStep(Step(key, At(i))) == key + "[-" + IntegerHelper.ToDigits(-i, 10) + [']']
  {
  }

  /** A segment that ends in `close` is read from the body before it. */
  lemma ParseClosed(body: string, close: char)
    requires close == ')' || close == ']'
    ensures close == ')' ==> ParseStep(body + [close]) == ReadOccurrence(body + [close], body)
    ensures close == ']' ==> ParseStep(body + [close]) == ReadIndex(body + [close], body)
  {
    assert (body + [close])[..|body|] == body;
  }

  /** `key[-ds]` reads as index -value(ds). */
  lemma ReadNegativeIndex(seg: string, key: string, ds: string, v: nat)
    requires ds != [] && TrailingDigits(key + "[-" + ds) == |ds|
    requires forall i :: |key + "[-" + ds| - |ds| <= i < |key + "[-" + ds| ==> IsDecimal((key + "[-" + ds)[i])
    requires TrailingValue(key + "[-" + ds, |ds|) == v
    ensures ReadIndex(seg, key + "[-" + ds) == Step(key, At(-(v as int)))
  {
    NegativeSegment(key, ds);
  }

  /** The characters of `key[-ds` around the selector. */
  lemma NegativeSegment(key: string, ds: string)
    ensures var b := key + "[-" + ds;
      && |b| == |key| + 2 + |ds|
      && b[|key|] == '[' && b[|key| + 1] == '-' && b[..|key|] == key
    ensures (key + "[-")[|key + "[-"| - 1] == '-'
  {
  }

  lemma ParseRenderStep(step: Step)
    requires Writable(step)
    ensures ParseStep(RenderStep(step)) == step
  {
    match step.sel
    case First =>
    case Nth(n) => ParseRenderNth(step.key, n);
    case At(i) =>
      if i < 0 {
        ParseRenderAtNegative(step.key, i);
      } else {
        ParseRenderAtNonNegative(step.key, i);
      }
  }

  lemma {:induction false} ParseRenderSteps(p: seq<Step>)
    requires forall i :: 0 <= i < |p| ==> Writable(p[i])
    ensures ParseSteps(RenderSteps(p)) == p
  {
    if p != [] {
      ParseRenderStep(p[0]);
      ParseRenderSteps(p[1..]);
      assert RenderSteps(p)[1..] == RenderSteps(p[1..]);
    }
  }

  lemma {:induction false} RenderedHaveNoSlash(p: seq<Step>)
    requires forall i :: 0 <= i < |p| ==> Writable(p[i])
    ensures forall i :: 0 <= i < |p| ==> '/' !in RenderSteps(p)[i]
  {
    if p != [] {
      RenderedHaveNoSlash(p[1..]);
      var ds := if p[0].sel.Nth? then IntegerHelper.ToDigits(p[0].sel.n, 10)
                else if p[0].sel.At? then IntegerHelper.ToDigits(if p[0].sel.i < 0 then -p[0].sel.i else p[0].sel.i, 10)
                else "";
      assert forall j :: 0 <= j < |ds| ==> IsDecimal(ds[j]);
      assert RenderSteps(p)[1..] == RenderSteps(p[1..]);
    }
  }

  /** Reading a written path gives the same path back. */
  lemma ParseRender(p: Path)
    requires forall i :: 0 <= i < |p| ==> Writable(p[i])
    ensures Parse(Render(p)) == p
  {
    RenderedHaveNoSlash(p);
    SplitJoin(RenderSteps(p));
    ParseRenderSteps(p);
  }
}
