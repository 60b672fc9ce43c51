/**
 * IDataHelper's static helpers over a document object that they change in
 * place. A null document is `null` here; a null key is `None`. Each method's
 * new state is given by the matching function of DocumentModel applied to the
 * parsed path.
 */
module DocumentHelper {
  import opened Wrappers
  import opened DocumentPath
  import opened DocumentModel

  /** A top-level document (IData): its entries in order. */
  class Document {
    var entries: seq<Entry>

    constructor Empty()
      ensures entries == []
    {
      entries := [];
    }

    constructor Of(es: seq<Entry>)
      ensures entries == es
    {
      entries := es;
    }
  }

  /** size(document): the number of entries, 0 for a null document. */
  function Size(doc: Document?): (n: nat)
    reads doc
    ensures doc == null ==> n == 0
    ensures doc != null ==> n == |doc.entries|
  {
    if doc == null then 0 else |doc.entries|
  }

  /** The keys of a document in entry order, repeated keys repeated. */
  function Keys(es: seq<Entry>): (ks: seq<string>)
    ensures |ks| == |es| && forall i :: 0 <= i < |es| ==> ks[i] == es[i].key
  {
    if es == [] then [] else [es[0].key] + Keys(es[1..])
  }

  /** getKeys(document): the keys in order, none for a null document. */
  function GetKeys(doc: Document?): (ks: seq<string>)
    reads doc
    ensures doc == null ==> ks == []
    ensures doc != null ==> |ks| == |doc.entries| && forall i :: 0 <= i < |ks| ==> ks[i] == doc.entries[i].key
  {
    if doc == null then [] else Keys(doc.entries)
  }

  /** clear keeping every key the document has leaves it as it was. */
  lemma {:induction false} RetainAll(es: seq<Entry>)
    ensures Retain(es, Keys(es)) == es
  {
    RetainSuperset(es, Keys(es));
  }

  lemma {:induction false} RetainSuperset(es: seq<Entry>, keep: seq<string>)
    requires forall i :: 0 <= i < |es| ==> es[i].key in keep
    ensures Retain(es, keep) == es
  {
    if es != [] {
      assert es[0].key in keep;
      assert forall i :: 0 <= i < |es[1..]| ==> es[1..][i] == es[i + 1];
      RetainSuperset(es[1..], keep);
      assert es == [es[0]] + es[1..];
    }
  }

  /** size(document, key): see DocumentModel.Size; a null document has size 0. */
  function SizeAt(doc: Document?, key: string): (r: Result<nat, Error>)
    reads doc
    ensures doc == null ==> r == Ok(0)
    ensures doc != null && Parse(key) == [Step(key, First)] ==> r == Ok(Count(doc.entries, key))
  {
    if doc == null then Ok(0) else DocumentModel.Size(doc.entries, Parse(key))
  }

  /** get(document, key): null for a null document or a null key. */
  function GetValue(doc: Document?, key: Option<string>): (r: Result<Value, Error>)
    reads doc
    ensures doc == null || key == None ==> r == Ok(Null)
    ensures doc != null && key.Some? && Parse(key.value) == [Step(key.value, First)] ==>
      r == Ok(ValueOf(doc.entries, key.value, 0))
  {
    if doc == null || key == None then Ok(Null) else Get(doc.entries, Parse(key.value))
  }

  /**
   * put(document, key, value): writes into the document, or into a new one when
   * the document is null, and returns the document written.
   */
  method PutValue(doc: Document?, key: string, value: Value) returns (r: Result<Document, Error>)
    modifies doc
    ensures var before := if doc == null then [] else old(doc.entries);
      match Put(before, Parse(key), value)
      case Ok(after) =>
        && r.Ok? && r.value.entries == after
        && (doc != null ==> r.value == doc)
        && (doc == null ==> fresh(r.value))
      case Err(e) =>
        r == Err(e) && (doc != null ==> doc.entries == old(doc.entries))
  {
    var target := doc;
    if target == null {
      target := new Document.Empty();
    }
    match Put(target.entries, Parse(key), value)
    case Ok(after) =>
      target.entries := after;
      r := Ok(target);
    case Err(e) =>
      r := Err(e);
  }

  /** drop(document, key): nothing happens to a null document. */
  method DropValue(doc: Document?, key: string) returns (r: Result<(), Error>)
    modifies doc
    ensures doc == null ==> r == Ok(())
    ensures doc != null ==> match Drop(old(doc.entries), Parse(key))
      case Ok(after) => r == Ok(()) && doc.entries == after
      case Err(e) => r == Err(e) && doc.entries == old(doc.entries)
  {
    if doc == null {
      return Ok(());
    }
    match Drop(doc.entries, Parse(key))
    case Ok(after) =>
      doc.entries := after;
      r := Ok(());
    case Err(e) =>
      r := Err(e);
  }

  /** remove(document, key): the value that was there, null for a null document. */
  method RemoveValue(doc: Document?, key: string) returns (r: Result<Value, Error>)
    modifies doc
    ensures doc == null ==> r == Ok(Null)
    ensures doc != null ==> match Remove(old(doc.entries), Parse(key))
      case Ok((v, after)) => r == Ok(v) && doc.entries == after
      case Err(e) => r == Err(e) && doc.entries == old(doc.entries)
  {
    if doc == null {
      return Ok(Null);
    }
    match Remove(doc.entries, Parse(key))
    case Ok((v, after)) =>
      doc.entries := after;
      r := Ok(v);
    case Err(e) =>
      r := Err(e);
  }

  /** The source and target a copy or rename acts on, when it acts at all. */
  predicate Moves(source: Option<string>, target: Option<string>) {
    source.Some? && target.Some? && source.value != target.value
  }

  /** rename(document, source, target): no-op for a null document, a null key or equal keys. */
  method RenameValue(doc: Document?, source: Option<string>, target: Option<string>) returns (r: Result<(), Error>)
    modifies doc
    ensures doc == null || !Moves(source, target) ==> r == Ok(()) && (doc != null ==> doc.entries == old(doc.entries))
    ensures doc != null && Moves(source, target) ==>
      match Rename(old(doc.entries), Parse(source.value), Parse(target.value))
      case Ok(after) => r == Ok(()) && doc.entries == after
      case Err(e) => r == Err(e) && doc.entries == old(doc.entries)
  {
    if doc == null || !Moves(source, target) {
      return Ok(());
    }
    match Rename(doc.entries, Parse(source.value), Parse(target.value))
    case Ok(after) =>
      doc.entries := after;
      r := Ok(());
    case Err(e) =>
      r := Err(e);
  }

  /** copy(document, source, target): no-op for a null document, a null key or equal keys. */
  method CopyValue(doc: Document?, source: Option<string>, target: Option<string>) returns (r: Result<(), Error>)
    modifies doc
    ensures doc == null || !Moves(source, target) ==> r == Ok(()) && (doc != null ==> doc.entries == old(doc.entries))
    ensures doc != null && Moves(source, target) ==>
      match Copy(old(doc.entries), Parse(source.value), Parse(target.value))
      case Ok(after) => r == Ok(()) && doc.entries == after
      case Err(e) => r == Err(e) && doc.entries == old(doc.entries)
  {
    if doc == null || !Moves(source, target) {
      return Ok(());
    }
    match Copy(doc.entries, Parse(source.value), Parse(target.value))
    case Ok(after) =>
      doc.entries := after;
      r := Ok(());
    case Err(e) =>
      r := Err(e);
  }

  /** clear(document, keep...): drops every entry whose key is not listed. */
  method Clear(doc: Document?, keep: seq<string>)
    modifies doc
    ensures doc != null ==> doc.entries == Retain(old(doc.entries), keep)
  {
    if doc != null {
      doc.entries := Retain(doc.entries, keep);
    }
  }
}
