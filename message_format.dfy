/**
 * A message format definition read from a document: its name, a recognition
 * condition, an optional route and whether it is enabled. Formats are
 * identified and ordered by name.
 */
module MessageFormat {
  import opened Wrappers
  import opened DocumentPath
  import opened DocumentModel
  import opened DocumentProperties
  import opened DocumentHelper
  import JavaLang

  datatype FormatError =
    | MissingDocument   // the document is null
    | MissingName       // "name" is absent
    | MissingRecognize  // "recognize/ref" is absent
    | Unsupported       // setIData

  /** The text a read yields; anything but a string counts as absent. */
  function Text(r: Result<Value, Error>): (t: Option<string>)
    ensures t.Some? <==> r.Ok? && r.value.Str?
    ensures t.Some? ==> r.value == Str(t.value)
  {
    match r
    case Ok(Str(s)) => Some(s)
    case _ => None
  }

  /** The paths the constructor reads, as the key strings "name", "recognize/ref" and so on parse. */
  const NamePath: Path := [Step("name", First)]
  const RecognizePath: Path := [Step("recognize", First), Step("ref", First)]
  const NamespacePath: Path := [Step("namespace", First)]
  const RouteTypePath: Path := [Step("route", First), Step("type", First)]
  const RouteRefPath: Path := [Step("route", First), Step("ref", First)]
  const EnabledPath: Path := [Step("enabled", First)]

  lemma ParseTopLevel(key: string)
    requires key != [] && '/' !in key && key[|key| - 1] != ')' && key[|key| - 1] != ']'
    ensures Parse(key) == [Step(key, First)]
  {
    var p: Path := [Step(key, First)];
    assert RenderSteps(p) == [RenderStep(p[0])] + RenderSteps([]);
    assert Render(p) == key;
    ParseRender(p);
  }

  lemma ParseNested(outer: string, inner: string)
    requires outer != [] && '/' !in outer && outer[|outer| - 1] != ')' && outer[|outer| - 1] != ']'
    requires inner != [] && '/' !in inner && inner[|inner| - 1] != ')' && inner[|inner| - 1] != ']'
    ensures Parse(outer + "/" + inner) == [Step(outer, First), Step(inner, First)]
  {
    var p: Path := [Step(outer, First), Step(inner, First)];
    assert RenderSteps(p[1..]) == [RenderStep(p[1])] + RenderSteps([]);
    assert RenderSteps(p) == [outer, inner];
    assert [outer, inner][1..] == [inner];
    assert Join([inner]) == inner;
    assert Join([outer, inner]) == outer + "/" + Join([inner]);
    assert Render(p) == outer + "/" + inner;
    ParseRender(p);
  }

  /** The key strings of the constructor parse to the paths above. */
  lemma NameKey()
    ensures Parse("name") == NamePath
  {
    ParseTopLevel("name");
  }

  lemma NamespaceKey()
    ensures Parse("namespace") == NamespacePath
  {
    ParseTopLevel("namespace");
  }

  lemma EnabledKey()
    ensures Parse("enabled") == EnabledPath
  {
    ParseTopLevel("enabled");
  }

  lemma RecognizeKey()
    ensures Parse("recognize/ref") == RecognizePath
  {
    ParseNested("recognize", "ref");
    assert "recognize" + "/" + "ref" == "recognize/ref";
  }

  lemma RouteTypeKey()
    ensures Parse("route/type") == RouteTypePath
  {
    ParseNested("route", "type");
    assert "route" + "/" + "type" == "route/type";
  }

  lemma RouteRefKey()
    ensures Parse("route/ref") == RouteRefPath
  {
    ParseNested("route", "ref");
    assert "route" + "/" + "ref" == "route/ref";
  }

  /** The string at a path, as get(document, key, String.class) reads it. */
  function ReadText(es: seq<Entry>, p: Path): Option<string> {
    Text(Get(es, p))
  }

  /** The document at a path, as get(document, key, IData.class) reads it. */
  function ReadDocument(es: seq<Entry>, p: Path): (d: Option<seq<Entry>>)
    ensures d.Some? <==> Get(es, p).Ok? && Get(es, p).value.Doc?
  {
    match Get(es, p)
    case Ok(Doc(child)) => Some(child)
    case _ => None
  }

  /**
   * enabled: true when the document has no value there, otherwise what the
   * boolean parser makes of the value, true when it makes nothing of it.
   */
  function EnabledOf(es: seq<Entry>, parseBoolean: Value -> Option<bool>): (b: bool)
    ensures Get(es, EnabledPath) == Ok(Null) ==> b
    ensures (match Get(es, EnabledPath) case Ok(v) => v != Null && parseBoolean(v) == Some(false) case _ => false) ==> !b
  {
    match Get(es, EnabledPath)
    case Ok(Null) => true
    case Ok(v) => parseBoolean(v).GetOr(true)
    case Err(_) => true
  }

  /** The text a boolean is written back as. */
  function Emit(b: bool): string {
    if b then "true" else "false"
  }

  /** The document after the constructor has written `enabled` back into it. */
  function Normalised(es: seq<Entry>, parseBoolean: Value -> Option<bool>): (r: seq<Entry>)
    ensures Put(es, EnabledPath, Str(Emit(EnabledOf(es, parseBoolean)))) == Ok(r)
  {
    PutWithoutIndexSucceeds(es, EnabledPath, Str(Emit(EnabledOf(es, parseBoolean))));
    Put(es, EnabledPath, Str(Emit(EnabledOf(es, parseBoolean)))).value
  }

  /** The normalised document holds the enabled flag as text. */
  lemma NormalisedEnabled(es: seq<Entry>, parseBoolean: Value -> Option<bool>)
    ensures Get(Normalised(es, parseBoolean), EnabledPath) == Ok(Str(Emit(EnabledOf(es, parseBoolean))))
  {
    GetPut(es, EnabledPath, Str(Emit(EnabledOf(es, parseBoolean))));
  }

  /** With a parser that reads back what Emit writes, normalising again keeps the flag. */
  lemma NormalisedStable(es: seq<Entry>, parseBoolean: Value -> Option<bool>)
    requires parseBoolean(Str("true")) == Some(true) && parseBoolean(Str("false")) == Some(false)
    ensures EnabledOf(Normalised(es, parseBoolean), parseBoolean) == EnabledOf(es, parseBoolean)
  {
    NormalisedEnabled(es, parseBoolean);
  }

  /** Writing `enabled` back changes nothing read through another top-level key. */
  lemma NormalisedKeepsPath(es: seq<Entry>, parseBoolean: Value -> Option<bool>, p: Path)
    requires p[0].key != "enabled"
    ensures Get(Normalised(es, parseBoolean), p) == Get(es, p)
  {
    PutOtherKeys(es, EnabledPath, Str(Emit(EnabledOf(es, parseBoolean))), p[0].key);
    GetSameHead(es, Normalised(es, parseBoolean), p);
  }

  /** Two documents agree on the name, the condition, the namespaces and the route. */
  predicate SameReads(a: seq<Entry>, b: seq<Entry>) {
    && ReadText(a, NamePath) == ReadText(b, NamePath)
    && ReadText(a, RecognizePath) == ReadText(b, RecognizePath)
    && ReadDocument(a, NamespacePath) == ReadDocument(b, NamespacePath)
    && ReadText(a, RouteTypePath) == ReadText(b, RouteTypePath)
    && ReadText(a, RouteRefPath) == ReadText(b, RouteRefPath)
  }

  /** Writing `enabled` back leaves the name, the condition, the namespaces and the route as they were. */
  lemma NormalisedKeepsFields(es: seq<Entry>, parseBoolean: Value -> Option<bool>)
    ensures SameReads(Normalised(es, parseBoolean), es)
  {
    NormalisedKeepsPath(es, parseBoolean, NamePath);
    NormalisedKeepsPath(es, parseBoolean, RecognizePath);
    NormalisedKeepsPath(es, parseBoolean, NamespacePath);
    NormalisedKeepsPath(es, parseBoolean, RouteTypePath);
    NormalisedKeepsPath(es, parseBoolean, RouteRefPath);
  }

  lemma SameReadsTransitive(a: seq<Entry>, b: seq<Entry>, c: seq<Entry>)
    requires SameReads(a, b) && SameReads(b, c)
    ensures SameReads(a, c)
  {
  }

  /**
   * The exception the constructor throws for a non-null document with these
   * entries: a missing name first, then a missing condition; none when both
   * are there.
   */
  function FirstError(es: seq<Entry>): (e: Option<FormatError>)
    ensures e.None? <==> ReadText(es, NamePath).Some? && ReadText(es, RecognizePath).Some?
    ensures ReadText(es, NamePath).None? ==> e == Some(MissingName)
    ensures ReadText(es, NamePath).Some? && ReadText(es, RecognizePath).None? ==> e == Some(MissingRecognize)
  {
    if ReadText(es, NamePath).None? then Some(MissingName)
    else if ReadText(es, RecognizePath).None? then Some(MissingRecognize)
    else None
  }

  /** Documents that read alike fail alike. */
  lemma SameReadsSameError(a: seq<Entry>, b: seq<Entry>)
    requires SameReads(a, b)
    ensures FirstError(a) == FirstError(b)
  {
  }

  /** The fields of a format, as the constructor reads them. */
  datatype Fields = Fields(name: string, condition: string, namespace: Option<seq<Entry>>,
                           routeType: Option<string>, routeRef: Option<string>, enabled: bool)

  /** What the constructor makes of these entries: the exception it throws, or the fields it reads. */
  function ReadFields(es: seq<Entry>, parseBoolean: Value -> Option<bool>): (r: Result<Fields, FormatError>)
    ensures r.Err? <==> FirstError(es).Some?
    ensures r.Err? ==> r.error == FirstError(es).value
  {
    match FirstError(es)
    case Some(e) => Err(e)
    case None =>
      Ok(Fields(ReadText(es, NamePath).value, ReadText(es, RecognizePath).value, ReadDocument(es, NamespacePath),
                ReadText(es, RouteTypePath), ReadText(es, RouteRefPath), EnabledOf(es, parseBoolean)))
  }

  /** Documents that read alike give the same fields, the enabled flag apart. */
  lemma SameReadsSameFields(a: seq<Entry>, b: seq<Entry>, parseBoolean: Value -> Option<bool>)
    requires SameReads(a, b) && ReadFields(a, parseBoolean).Ok?
    ensures ReadFields(b, parseBoolean).Ok?
    ensures ReadFields(a, parseBoolean).value.(enabled := ReadFields(b, parseBoolean).value.enabled)
            == ReadFields(b, parseBoolean).value
  {
  }

  class Format {
    const name: string
    /** The recognition condition's expression and the namespaces it is evaluated with. */
    const condition: string
    const namespace: Option<seq<Entry>>
    const routeType: Option<string>
    const routeRef: Option<string>
    const enabled: bool
    const document: Document

    constructor (name: string, condition: string, namespace: Option<seq<Entry>>,
                 routeType: Option<string>, routeRef: Option<string>, enabled: bool, document: Document)
      ensures this.name == name && this.condition == condition && this.namespace == namespace
      ensures this.routeType == routeType && this.routeRef == routeRef
      ensures this.enabled == enabled && this.document == document
    {
      this.name := name;
      this.condition := condition;
      this.namespace := namespace;
      this.routeType := routeType;
      this.routeRef := routeRef;
      this.enabled := enabled;
      this.document := document;
    }

    /** recognize(pipeline): a disabled format recognizes nothing; otherwise the condition decides. */
    function Recognize(pipeline: seq<Entry>, evaluate: (string, Option<seq<Entry>>, seq<Entry>) -> bool): (r: bool)
      ensures !enabled ==> !r
      ensures enabled ==> (r <==> evaluate(condition, namespace, pipeline))
    {
      enabled && evaluate(condition, namespace, pipeline)
    }

    /** equals(other): the same object, or another format with the same name. */
    predicate Equals(other: object?)
    {
      other == this || (other is Format && (other as Format).name == name)
    }

    function HashCode(): (h: int)
      ensures JavaLang.IsInt32(h)
    {
      JavaLang.HashCode(name)
    }

    function CompareTo(other: Format): int {
      JavaLang.CompareTo(name, other.name)
    }

    /** setIData(document) is not supported. */
    method SetIData(document: seq<Entry>) returns (r: Result<(), FormatError>)
      ensures r == Err(Unsupported)
    {
      r := Err(Unsupported);
    }
  }

  /** Two formats are equal exactly when their names are. */
  lemma EqualsByName(f: Format, g: Format)
    ensures f.Equals(g) <==> f.name == g.name
    ensures f.Equals(g) == g.Equals(f)
  {
  }

  lemma EqualsNull(f: Format)
    ensures !f.Equals(null)
  {
  }

  /** Equal formats have equal hash codes and compare as 0, and compareTo is 0 only for equal formats. */
  lemma EqualsConsistent(f: Format, g: Format)
    ensures f.Equals(g) ==> f.HashCode() == g.HashCode()
    ensures f.CompareTo(g) == 0 <==> f.Equals(g)
    ensures f.CompareTo(g) == -g.CompareTo(f)
  {
    JavaLang.CompareToAntisymmetric(f.name, g.name);
  }

  /** The fields of a format object. */
  function FieldsOf(f: Format): Fields {
    Fields(f.name, f.condition, f.namespace, f.routeType, f.routeRef, f.enabled)
  }

  /** A format holds the fields the constructor reads from these entries, over this document. */
  predicate BuiltFrom(f: Format, es: seq<Entry>, document: Document, parseBoolean: Value -> Option<bool>) {
    ReadFields(es, parseBoolean) == Ok(FieldsOf(f)) && f.document == document
  }

  /**
   * new Format(document): fails on a null document, a missing name or a
   * missing condition, in that order; otherwise reads the fields and writes
   * the enabled flag back into the document.
   */
  method New(document: Document?, parseBoolean: Value -> Option<bool>) returns (r: Result<Format, FormatError>)
    modifies document
    ensures document == null ==> r == Err(MissingDocument)
    ensures document != null ==> var es := old(document.entries);
      && (FirstError(es).Some? ==> r == Err(FirstError(es).value) && document.entries == es)
      && (FirstError(es).None? ==>
            && r.Ok? && fresh(r.value) && BuiltFrom(r.value, es, document, parseBoolean)
            && document.entries == Normalised(es, parseBoolean))
  {
    if document == null {
      return Err(MissingDocument);
    }
    var es := document.entries;
    var name := ReadText(es, NamePath);
    if name.None? {
      return Err(MissingName);
    }
    var condition := ReadText(es, RecognizePath);
    if condition.None? {
      return Err(MissingRecognize);
    }
    var enabled := EnabledOf(es, parseBoolean);
    document.entries := Normalised(es, parseBoolean);
    var format := new Format(name.value, condition.value, ReadDocument(es, NamespacePath),
                             ReadText(es, RouteTypePath), ReadText(es, RouteRefPath), enabled, document);
    r := Ok(format);
  }

  /** of(document): null for a null document, otherwise the constructor's format or its exception. */
  method Of(document: Document?, parseBoolean: Value -> Option<bool>) returns (r: Result<Option<Format>, FormatError>)
    modifies document
    ensures document == null ==> r == Ok(None)
    ensures document != null ==> var es := old(document.entries);
      && (FirstError(es).Some? ==> r == Err(FirstError(es).value) && document.entries == es)
      && (FirstError(es).None? ==>
            && r.Ok? && r.value.Some? && fresh(r.value.value)
            && BuiltFrom(r.value.value, es, document, parseBoolean)
            && document.entries == Normalised(es, parseBoolean))
  {
    if document == null {
      return Ok(None);
    }
    var format := New(document, parseBoolean);
    match format
    case Ok(f) => r := Ok(Some(f));
    case Err(e) => r := Err(e);
  }

  /** The non-null documents, in order. */
  function Present(documents: seq<Document?>): (ds: seq<Document>)
    ensures |ds| <= |documents|
    ensures forall i :: 0 <= i < |ds| ==> ds[i] in documents
    decreases |documents|
  {
    if documents == [] then []
    else
      var front := documents[..|documents| - 1];
      var last := documents[|documents| - 1];
      Present(front) + (if last == null then [] else [last])
  }

  /** Every non-null document of the input is kept. */
  lemma {:induction false} PresentMembers(documents: seq<Document?>)
    ensures var ds := Present(documents);
      forall i :: 0 <= i < |documents| && documents[i] != null ==> documents[i] in ds
    decreases |documents|
  {
    if documents != [] {
      var front := documents[..|documents| - 1];
      PresentMembers(front);
      assert forall i :: 0 <= i < |front| ==> front[i] == documents[i];
      assert documents == front + [documents[|documents| - 1]];
    }
  }

  /** Without nulls, nothing is skipped. */
  lemma {:induction false} PresentAll(documents: seq<Document?>)
    requires forall i :: 0 <= i < |documents| ==> documents[i] != null
    ensures Present(documents) == documents
    decreases |documents|
  {
    if documents != [] {
      var front := documents[..|documents| - 1];
      PresentAll(front);
      assert front + [documents[|documents| - 1]] == documents;
    }
  }

  /** One more document extends the non-null documents by it, unless it is null. */
  lemma PresentSnoc(items: seq<Document?>, i: nat)
    requires i < |items|
    ensures Present(items[..i + 1]) == Present(items[..i]) + (if items[i] == null then [] else [items[i]])
  {
    assert items[..i + 1][..i] == items[..i];
  }

  /** The non-null documents of two lists are those of each, in order. */
  lemma {:induction false} PresentConcat(a: seq<Document?>, b: seq<Document?>)
    ensures Present(a + b) == Present(a) + Present(b)
    decreases |b|
  {
    if b == [] {
      assert a + b == a;
    } else {
      var n := |b| - 1;
      PresentConcat(a, b[..n]);
      assert (a + b)[..|a + b| - 1] == a + b[..n];
    }
  }

  /** The entries recorded for a document, none when it has no record. */
  function At(entries: map<Document, seq<Entry>>, d: Document): seq<Entry> {
    if d in entries then entries[d] else []
  }

  /**
   * The state of the loop of of(documents): the fields of the formats built
   * so far or the first exception, and the entries every document then holds.
   */
  datatype Run = Run(formats: Result<seq<Fields>, FormatError>, entries: map<Document, seq<Entry>>)

  /**
   * One turn of the loop: after an exception nothing happens; otherwise the
   * document is read as it stands, and on success `enabled` is written back.
   */
  function Turn(prior: Run, d: Document, parseBoolean: Value -> Option<bool>): Run {
    match prior.formats
    case Err(_) => prior
    case Ok(fs) =>
      var es := At(prior.entries, d);
      match ReadFields(es, parseBoolean)
      case Err(e) => Run(Err(e), prior.entries)
      case Ok(f) => Run(Ok(fs + [f]), prior.entries[d := Normalised(es, parseBoolean)])
  }

  /**
   * The loop of of(documents) over the non-null documents, starting from
   * their entries; a document listed twice is read the second time with the
   * flag already written.
   */
  function RunOf(ds: seq<Document>, entries: map<Document, seq<Entry>>, parseBoolean: Value -> Option<bool>): (r: Run)
    ensures r.formats.Ok? ==> |r.formats.value| == |ds|
    decreases |ds|
  {
    if ds == [] then Run(Ok([]), entries)
    else Turn(RunOf(ds[..|ds| - 1], entries, parseBoolean), ds[|ds| - 1], parseBoolean)
  }

  /** A turn succeeds exactly when the loop has not failed and the document has a name and a condition. */
  lemma TurnOutcome(prior: Run, d: Document, parseBoolean: Value -> Option<bool>)
    ensures Turn(prior, d, parseBoolean).formats.Ok? <==>
      prior.formats.Ok? && FirstError(At(prior.entries, d)).None?
    ensures prior.formats.Ok? && FirstError(At(prior.entries, d)).Some? ==>
      Turn(prior, d, parseBoolean) == Run(Err(FirstError(At(prior.entries, d)).value), prior.entries)
    ensures prior.formats.Err? ==> Turn(prior, d, parseBoolean) == prior
  {
  }

  /** A successful turn appends the fields read and writes the flag back into that document alone. */
  lemma TurnSuccess(prior: Run, d: Document, parseBoolean: Value -> Option<bool>)
    requires Turn(prior, d, parseBoolean).formats.Ok?
    ensures prior.formats.Ok? && ReadFields(At(prior.entries, d), parseBoolean).Ok?
    ensures Turn(prior, d, parseBoolean).formats.value ==
      prior.formats.value + [ReadFields(At(prior.entries, d), parseBoolean).value]
    ensures At(Turn(prior, d, parseBoolean).entries, d) == Normalised(At(prior.entries, d), parseBoolean)
    ensures forall x :: x != d ==> At(Turn(prior, d, parseBoolean).entries, x) == At(prior.entries, x)
  {
  }

  /** A turn leaves every document reading as it did, the flag apart. */
  lemma TurnKeepsReads(prior: Run, d: Document, parseBoolean: Value -> Option<bool>, x: Document)
    ensures SameReads(At(Turn(prior, d, parseBoolean).entries, x), At(prior.entries, x))
  {
    if prior.formats.Ok? && ReadFields(At(prior.entries, d), parseBoolean).Ok? && x == d {
      NormalisedKeepsFields(At(prior.entries, d), parseBoolean);
    }
  }

  /** Once the loop has failed, later documents change nothing. */
  lemma {:induction false} RunPrefixError(a: seq<Document>, b: seq<Document>, entries: map<Document, seq<Entry>>,
                                          parseBoolean: Value -> Option<bool>)
    requires RunOf(a, entries, parseBoolean).formats.Err?
    ensures RunOf(a + b, entries, parseBoolean) == RunOf(a, entries, parseBoolean)
    decreases |b|
  {
    if b == [] {
      assert a + b == a;
    } else {
      var n := |b| - 1;
      assert (a + b)[..|a + b| - 1] == a + b[..n];
      RunPrefixError(a, b[..n], entries, parseBoolean);
      TurnOutcome(RunOf(a + b[..n], entries, parseBoolean), b[n], parseBoolean);
    }
  }

  /** The loop leaves every document reading as it did, the enabled flag apart. */
  lemma {:induction false} RunKeepsReads(ds: seq<Document>, entries: map<Document, seq<Entry>>,
                                         parseBoolean: Value -> Option<bool>, x: Document)
    ensures SameReads(At(RunOf(ds, entries, parseBoolean).entries, x), At(entries, x))
    decreases |ds|
  {
    if ds != [] {
      var front := ds[..|ds| - 1];
      var prior := RunOf(front, entries, parseBoolean);
      RunKeepsReads(front, entries, parseBoolean, x);
      TurnKeepsReads(prior, ds[|ds| - 1], parseBoolean, x);
      SameReadsTransitive(At(RunOf(ds, entries, parseBoolean).entries, x), At(prior.entries, x), At(entries, x));
    }
  }

  /** A document the loop never reaches keeps its entries. */
  lemma {:induction false} RunUntouched(ds: seq<Document>, entries: map<Document, seq<Entry>>,
                                        parseBoolean: Value -> Option<bool>, x: Document)
    requires x !in ds
    ensures At(RunOf(ds, entries, parseBoolean).entries, x) == At(entries, x)
    decreases |ds|
  {
    if ds != [] {
      var front := ds[..|ds| - 1];
      assert x !in front;
      RunUntouched(front, entries, parseBoolean, x);
      var prior := RunOf(front, entries, parseBoolean);
      if Turn(prior, ds[|ds| - 1], parseBoolean).formats.Ok? {
        TurnSuccess(prior, ds[|ds| - 1], parseBoolean);
      } else {
        TurnOutcome(prior, ds[|ds| - 1], parseBoolean);
      }
    }
  }

  /** The first exception the documents raise when read one after the other, as they were. */
  function FirstFailure(ds: seq<Document>, entries: map<Document, seq<Entry>>): (e: Option<FormatError>)
    decreases |ds|
  {
    if ds == [] then None
    else
      var prior := FirstFailure(ds[..|ds| - 1], entries);
      if prior.Some? then prior else FirstError(At(entries, ds[|ds| - 1]))
  }

  /**
   * There is no failure exactly when every document has a name and a
   * condition, and a failure is the exception of the first document without.
   */
  lemma {:induction false} FirstFailureMeans(ds: seq<Document>, entries: map<Document, seq<Entry>>)
    ensures FirstFailure(ds, entries).None? <==> forall k :: 0 <= k < |ds| ==> FirstError(At(entries, ds[k])).None?
    ensures FirstFailure(ds, entries).Some? ==> exists k ::
      && 0 <= k < |ds|
      && FirstError(At(entries, ds[k])) == FirstFailure(ds, entries)
      && forall j :: 0 <= j < k ==> FirstError(At(entries, ds[j])).None?
    decreases |ds|
  {
    if ds != [] {
      var front := ds[..|ds| - 1];
      FirstFailureMeans(front, entries);
      assert forall k :: 0 <= k < |front| ==> front[k] == ds[k];
      if FirstFailure(front, entries).None? {
        if FirstError(At(entries, ds[|ds| - 1])).Some? {
          assert FirstError(At(entries, ds[|ds| - 1])) == FirstFailure(ds, entries);
        }
      } else {
        var k :| 0 <= k < |front| && FirstError(At(entries, front[k])) == FirstFailure(front, entries)
          && forall j :: 0 <= j < k ==> FirstError(At(entries, front[j])).None?;
        assert FirstError(At(entries, ds[k])) == FirstFailure(ds, entries);
      }
    }
  }

  /** The loop fails exactly with the first document's exception. */
  lemma {:induction false} RunFailure(ds: seq<Document>, entries: map<Document, seq<Entry>>,
                                      parseBoolean: Value -> Option<bool>)
    ensures RunOf(ds, entries, parseBoolean).formats.Ok? <==> FirstFailure(ds, entries).None?
    ensures RunOf(ds, entries, parseBoolean).formats.Err? ==>
      FirstFailure(ds, entries) == Some(RunOf(ds, entries, parseBoolean).formats.error)
    decreases |ds|
  {
    if ds != [] {
      var front := ds[..|ds| - 1];
      var d := ds[|ds| - 1];
      var prior := RunOf(front, entries, parseBoolean);
      RunFailure(front, entries, parseBoolean);
      RunKeepsReads(front, entries, parseBoolean, d);
      SameReadsSameError(At(prior.entries, d), At(entries, d));
      TurnOutcome(prior, d, parseBoolean);
    }
  }

  /** of(documents) succeeds exactly when every non-null document has a name and a condition. */
  lemma RunSucceeds(ds: seq<Document>, entries: map<Document, seq<Entry>>, parseBoolean: Value -> Option<bool>)
    ensures RunOf(ds, entries, parseBoolean).formats.Ok? <==>
      forall k :: 0 <= k < |ds| ==> FirstError(At(entries, ds[k])).None?
  {
    RunFailure(ds, entries, parseBoolean);
    FirstFailureMeans(ds, entries);
  }

  /** On failure, the exception is that of the first document without a name or a condition. */
  lemma RunFirstError(ds: seq<Document>, entries: map<Document, seq<Entry>>, parseBoolean: Value -> Option<bool>)
    requires RunOf(ds, entries, parseBoolean).formats.Err?
    ensures exists k ::
      && 0 <= k < |ds|
      && FirstError(At(entries, ds[k])) == Some(RunOf(ds, entries, parseBoolean).formats.error)
      && forall j :: 0 <= j < k ==> FirstError(At(entries, ds[j])).None?
  {
    RunFailure(ds, entries, parseBoolean);
    FirstFailureMeans(ds, entries);
  }

  /**
   * A successful loop holds, at each index, the fields read from that
   * document as the earlier turns left it.
   */
  lemma RunFormatsSnoc(ds: seq<Document>, entries: map<Document, seq<Entry>>,
                       parseBoolean: Value -> Option<bool>, k: int)
    requires ds != [] && RunOf(ds, entries, parseBoolean).formats.Ok? && 0 <= k < |ds|
    ensures var prior := RunOf(ds[..|ds| - 1], entries, parseBoolean);
      && prior.formats.Ok?
      && (k < |ds| - 1 ==> RunOf(ds, entries, parseBoolean).formats.value[k] == prior.formats.value[k])
      && (k == |ds| - 1 ==> Ok(RunOf(ds, entries, parseBoolean).formats.value[k]) == ReadFields(At(prior.entries, ds[k]), parseBoolean))
  {
    var prior := RunOf(ds[..|ds| - 1], entries, parseBoolean);
    TurnSuccess(prior, ds[|ds| - 1], parseBoolean);
  }

  /**
   * Every format holds the name, the condition, the namespaces and the route
   * its document had before the loop.
   */
  lemma {:induction false} RunReadsFields(ds: seq<Document>, entries: map<Document, seq<Entry>>,
                                          parseBoolean: Value -> Option<bool>, k: int)
    requires RunOf(ds, entries, parseBoolean).formats.Ok? && 0 <= k < |ds|
    ensures ReadFields(At(entries, ds[k]), parseBoolean).Ok?
    ensures var f := RunOf(ds, entries, parseBoolean).formats.value[k];
      ReadFields(At(entries, ds[k]), parseBoolean).value.(enabled := f.enabled) == f
    decreases |ds|
  {
    var front := ds[..|ds| - 1];
    var prior := RunOf(front, entries, parseBoolean);
    RunFormatsSnoc(ds, entries, parseBoolean, k);
    if k < |front| {
      RunReadsFields(front, entries, parseBoolean, k);
      assert front[k] == ds[k];
    } else {
      RunKeepsReads(front, entries, parseBoolean, ds[k]);
      SameReadsSameFields(At(prior.entries, ds[k]), At(entries, ds[k]), parseBoolean);
    }
  }

  /** No document is listed twice. */
  predicate ListedOnce(ds: seq<Document>) {
    forall i, j :: 0 <= i < j < |ds| ==> ds[i] != ds[j]
  }

  lemma DistinctFront(ds: seq<Document>)
    requires ds != [] && ListedOnce(ds)
    ensures ListedOnce(ds[..|ds| - 1]) && ds[|ds| - 1] !in ds[..|ds| - 1]
  {
  }

  /**
   * With every document listed once, a successful loop reads each document
   * as it was, enabled flag included, and writes the flag back into each
   * listed document once.
   */
  lemma {:induction false} RunDistinctFields(ds: seq<Document>, entries: map<Document, seq<Entry>>,
                                             parseBoolean: Value -> Option<bool>, k: int)
    requires ListedOnce(ds) && RunOf(ds, entries, parseBoolean).formats.Ok? && 0 <= k < |ds|
    ensures Ok(RunOf(ds, entries, parseBoolean).formats.value[k]) == ReadFields(At(entries, ds[k]), parseBoolean)
    ensures At(RunOf(ds, entries, parseBoolean).entries, ds[k]) == Normalised(At(entries, ds[k]), parseBoolean)
    decreases |ds|
  {
    var front := ds[..|ds| - 1];
    var d := ds[|ds| - 1];
    var prior := RunOf(front, entries, parseBoolean);
    DistinctFront(ds);
    RunFormatsSnoc(ds, entries, parseBoolean, k);
    TurnSuccess(prior, d, parseBoolean);
    if k < |front| {
      RunDistinctFields(front, entries, parseBoolean, k);
      assert front[k] == ds[k];
    } else {
      RunUntouched(front, entries, parseBoolean, d);
    }
  }

  /** The documents hold the entries the map records for them. */
  ghost predicate HeapHolds(documents: set<Document>, entries: map<Document, seq<Entry>>)
    reads documents
  {
    forall d :: d in documents ==> d.entries == At(entries, d)
  }

  /** The documents a loop over these items may change. */
  function Touched(items: seq<Document?>): set<Document> {
    set d: Document | d in items
  }

  /** The entries each of the documents holds now. */
  function EntriesOf(documents: set<Document>): (m: map<Document, seq<Entry>>)
    reads documents
    ensures forall d :: d in documents ==> d in m && m[d] == d.entries
  {
    map d | d in documents :: d.entries
  }

  /** The non-null documents among the first n items, in order. */
  function PresentUpTo(items: seq<Document?>, n: nat): seq<Document>
    requires n <= |items|
    decreases n
  {
    if n == 0 then []
    else if items[n - 1] == null then PresentUpTo(items, n - 1)
    else PresentUpTo(items, n - 1) + [items[n - 1]]
  }

  /** The loop of of(documents) after the first n items, null items skipped. */
  function RunUpTo(items: seq<Document?>, n: nat, entries: map<Document, seq<Entry>>,
                   parseBoolean: Value -> Option<bool>): Run
    requires n <= |items|
    decreases n
  {
    if n == 0 then Run(Ok([]), entries)
    else
      var prior := RunUpTo(items, n - 1, entries, parseBoolean);
      if items[n - 1] == null then prior else Turn(prior, items[n - 1], parseBoolean)
  }

  /** Item by item, the loop is RunOf over the non-null documents. */
  lemma {:induction false} RunUpToIsRunOf(items: seq<Document?>, n: nat, entries: map<Document, seq<Entry>>,
                                          parseBoolean: Value -> Option<bool>)
    requires n <= |items|
    ensures PresentUpTo(items, n) == Present(items[..n])
    ensures RunUpTo(items, n, entries, parseBoolean) == RunOf(Present(items[..n]), entries, parseBoolean)
    decreases n
  {
    if n > 0 {
      RunUpToIsRunOf(items, n - 1, entries, parseBoolean);
      PresentSnoc(items, n - 1);
      if items[n - 1] != null {
        RunSnoc(Present(items[..n - 1]), items[n - 1], entries, parseBoolean);
      }
    }
  }

  /** Once the loop has failed, later items change nothing. */
  lemma {:induction false} RunUpToStops(items: seq<Document?>, i: nat, n: nat, entries: map<Document, seq<Entry>>,
                                        parseBoolean: Value -> Option<bool>)
    requires i <= n <= |items| && RunUpTo(items, i, entries, parseBoolean).formats.Err?
    ensures RunUpTo(items, n, entries, parseBoolean) == RunUpTo(items, i, entries, parseBoolean)
    decreases n
  {
    if n > i {
      RunUpToStops(items, i, n - 1, entries, parseBoolean);
      var prior := RunUpTo(items, n - 1, entries, parseBoolean);
      assert prior.formats.Err?;
      if items[n - 1] != null {
        assert Turn(prior, items[n - 1], parseBoolean) == prior;
      }
    }
  }

  /** Reading one more document is one more turn of the loop. */
  lemma RunSnoc(ds: seq<Document>, d: Document, entries: map<Document, seq<Entry>>, parseBoolean: Value -> Option<bool>)
    ensures RunOf(ds + [d], entries, parseBoolean) == Turn(RunOf(ds, entries, parseBoolean), d, parseBoolean)
  {
    assert (ds + [d])[..|ds + [d]| - 1] == ds;
  }

  /** The documents the formats were built over, in order. */
  function DocumentsOf(formats: seq<Format>): (ds: seq<Document>)
    ensures |ds| == |formats|
    decreases |formats|
  {
    if formats == [] then []
    else DocumentsOf(formats[..|formats| - 1]) + [formats[|formats| - 1].document]
  }

  /** The fields of the formats, in order. */
  function FieldsList(formats: seq<Format>): (fs: seq<Fields>)
    ensures |fs| == |formats|
    decreases |formats|
  {
    if formats == [] then []
    else FieldsList(formats[..|formats| - 1]) + [FieldsOf(formats[|formats| - 1])]
  }

  lemma {:induction false} ListsIndex(formats: seq<Format>)
    ensures forall k :: 0 <= k < |formats| ==>
      DocumentsOf(formats)[k] == formats[k].document && FieldsList(formats)[k] == FieldsOf(formats[k])
    decreases |formats|
  {
    if formats != [] {
      var front := formats[..|formats| - 1];
      ListsIndex(front);
      assert forall k :: 0 <= k < |front| ==> front[k] == formats[k];
    }
  }

  lemma ListsSnoc(formats: seq<Format>, f: Format)
    ensures DocumentsOf(formats + [f]) == DocumentsOf(formats) + [f.document]
    ensures FieldsList(formats + [f]) == FieldsList(formats) + [FieldsOf(f)]
  {
    assert (formats + [f])[..|formats + [f]| - 1] == formats;
  }

  /**
   * One turn of the loop of of(documents), on the heap: the constructor
   * applied to the next item, which is not null.
   */
  method ReadNext(items: seq<Document?>, i: nat, output: seq<Format>, ghost touched: set<Document>,
                  ghost e0: map<Document, seq<Entry>>, parseBoolean: Value -> Option<bool>)
    returns (r: Result<Format, FormatError>)
    requires i < |items| && items[i] != null && items[i] in touched
    requires RunUpTo(items, i, e0, parseBoolean).formats == Ok(FieldsList(output))
    requires HeapHolds(touched, RunUpTo(items, i, e0, parseBoolean).entries)
    modifies items[i]
    ensures var next := RunUpTo(items, i + 1, e0, parseBoolean);
      && (r.Err? ==> next.formats == Err(r.error) && RunUpTo(items, |items|, e0, parseBoolean) == next)
      && (r.Ok? ==> fresh(r.value) && r.value.document == items[i]
                    && next.formats == Ok(FieldsList(output + [r.value])))
      && HeapHolds(touched, next.entries)
  {
    var item := items[i];
    ghost var prior := RunUpTo(items, i, e0, parseBoolean);
    ghost var next := Turn(prior, item, parseBoolean);
    assert RunUpTo(items, i + 1, e0, parseBoolean) == next;
    TurnOutcome(prior, item, parseBoolean);
    r := New(item, parseBoolean);
    if r.Ok? {
      TurnSuccess(prior, item, parseBoolean);
      ListsSnoc(output, r.value);
    } else {
      RunUpToStops(items, i + 1, |items|, e0, parseBoolean);
    }
    forall d | d in touched
      ensures d.entries == At(next.entries, d)
    {
      if d != item {
        assert d.entries == old(d.entries);
        assert At(next.entries, d) == At(prior.entries, d);
      }
    }
  }

  /**
   * One item of the loop of of(documents): a null item is skipped, any other
   * is read; on success its format joins the output.
   */
  method Advance(items: seq<Document?>, i: nat, output: seq<Format>, ghost made: set<Format>,
                 ghost touched: set<Document>, ghost e0: map<Document, seq<Entry>>, parseBoolean: Value -> Option<bool>)
    returns (more: Result<seq<Format>, FormatError>, ghost made': set<Format>)
    requires i < |items| && Touched(items) <= touched
    requires RunUpTo(items, i, e0, parseBoolean).formats == Ok(FieldsList(output))
    requires DocumentsOf(output) == PresentUpTo(items, i)
    requires forall k :: 0 <= k < |output| ==> output[k] in made
    requires HeapHolds(touched, RunUpTo(items, i, e0, parseBoolean).entries)
    modifies touched
    ensures HeapHolds(touched, RunUpTo(items, i + 1, e0, parseBoolean).entries)
    ensures more.Err? ==>
      RunUpTo(items, i + 1, e0, parseBoolean).formats == Err(more.error)
      && RunUpTo(items, |items|, e0, parseBoolean) == RunUpTo(items, i + 1, e0, parseBoolean)
    ensures more.Ok? ==>
      && RunUpTo(items, i + 1, e0, parseBoolean).formats == Ok(FieldsList(more.value))
      && DocumentsOf(more.value) == PresentUpTo(items, i + 1)
      && made <= made' && fresh(made' - made) && forall k :: 0 <= k < |more.value| ==> more.value[k] in made'
  {
    var item := items[i];
    if item == null {
      return Ok(output), made;
    }
    assert item in Touched(items);
    var format := ReadNext(items, i, output, touched, e0, parseBoolean);
    if format.Err? {
      return Err(format.error), made;
    }
    ListsSnoc(output, format.value);
    more, made' := Ok(output + [format.value]), made + {format.value};
  }

  /**
   * The loop of of(documents) over these items, their documents holding the
   * entries recorded in `e0`: the loop RunUpTo describes, its exception or
   * one new format per non-null document.
   */
  method ReadAll(items: seq<Document?>, ghost touched: set<Document>, ghost e0: map<Document, seq<Entry>>,
                 parseBoolean: Value -> Option<bool>)
    returns (r: Result<seq<Format>, FormatError>)
    requires Touched(items) <= touched && HeapHolds(touched, e0)
    modifies touched
    ensures var run := RunUpTo(items, |items|, e0, parseBoolean);
      && (run.formats.Err? ==> r == Err(run.formats.error))
      && (run.formats.Ok? ==>
            && r.Ok? && DocumentsOf(r.value) == PresentUpTo(items, |items|) && FieldsList(r.value) == run.formats.value
            && forall k :: 0 <= k < |r.value| ==> fresh(r.value[k]))
      && HeapHolds(touched, run.entries)
  {
    ghost var made: set<Format> := {};
    var output: seq<Format> := [];
    for i := 0 to |items|
      invariant RunUpTo(items, i, e0, parseBoolean).formats == Ok(FieldsList(output))
      invariant DocumentsOf(output) == PresentUpTo(items, i)
      invariant fresh(made) && forall k :: 0 <= k < |output| ==> output[k] in made
      invariant HeapHolds(touched, RunUpTo(items, i, e0, parseBoolean).entries)
    {
      var more;
      more, made := Advance(items, i, output, made, touched, e0, parseBoolean);
      if more.Err? {
        return Err(more.error);
      }
      output := more.value;
    }
    r := Ok(output);
  }

  /**
   * of(documents): null for a null collection; otherwise the loop RunOf
   * describes, over the non-null documents and the entries they held on
   * entry: its exception, or one new format per document with the fields
   * read; every document ends with the entries the loop leaves it.
   */
  method OfAll(documents: Option<seq<Document?>>, parseBoolean: Value -> Option<bool>)
    returns (r: Result<Option<seq<Format>>, FormatError>)
    modifies Touched(documents.GetOr([]))
    ensures documents.None? ==> r == Ok(None)
    ensures documents.Some? ==>
      var ds := Present(documents.value);
      var run := RunOf(ds, old(EntriesOf(Touched(documents.value))), parseBoolean);
      && (run.formats.Err? ==> r == Err(run.formats.error))
      && (run.formats.Ok? ==>
            && r.Ok? && r.value.Some? && |r.value.value| == |ds|
            && forall k :: 0 <= k < |ds| ==>
                 fresh(r.value.value[k]) && r.value.value[k].document == ds[k] && FieldsOf(r.value.value[k]) == run.formats.value[k])
      && (forall d :: d in Touched(documents.value) ==> d.entries == At(run.entries, d))
  {
    if documents.None? {
      return Ok(None);
    }
    var items := documents.value;
    ghost var touched := Touched(items);
    ghost var e0 := EntriesOf(touched);
    assert e0 == old(EntriesOf(Touched(documents.value)));
    var formats := ReadAll(items, touched, e0, parseBoolean);
    RunUpToIsRunOf(items, |items|, e0, parseBoolean);
    assert items[..|items|] == items;
    if formats.Ok? {
      ListsIndex(formats.value);
    }
    match formats
    case Ok(fs) => r := Ok(Some(fs));
    case Err(e) => r := Err(e);
  }

  /** The view of one format's document that toIDataArray puts in place, null for a null format. */
  function ToIData(format: Format?): (r: Option<seq<Entry>>)
    reads if format == null then {} else {format.document}
    ensures r.None? <==> format == null
    ensures format != null ==> r == Some(format.document.entries)
  {
    if format == null then None else Some(format.document.entries)
  }

  /** toIDataArray(formats): same length, a null format giving a null document at its index. */
  method ToIDataArray(formats: array?<Format?>) returns (output: array?<Option<seq<Entry>>>)
    ensures formats == null <==> output == null
    ensures formats != null ==> output != null && fresh(output) && output.Length == formats.Length
    ensures formats != null ==> forall i :: 0 <= i < formats.Length ==>
      (output[i].None? <==> formats[i] == null) && (formats[i] != null ==> output[i] == Some(formats[i].document.entries))
  {
    if formats == null {
      return null;
    }
    output := new Option<seq<Entry>>[formats.Length](_ => None);
    for i := 0 to formats.Length
      invariant forall j :: 0 <= j < i ==> output[j] == ToIData(formats[j])
      invariant forall j :: i <= j < formats.Length ==> output[j] == None
    {
      if formats[i] != null {
        output[i] := Some(formats[i].document.entries);
      }
    }
  }
}
