/**
 * CopyOnWriteIDataMap: a wrapper around a document (IDataMap) that reads
 * through to it until the first change and then works on a private copy.
 * A nested document read through the wrapper is handed out wrapped in a
 * wrapper of its own, which the parent keeps in its copy, so that writes
 * into it reach neither the nested original nor the wrapped document.
 *
 * Isolation shows in the frames: no method here may change a Table.
 */
module CopyOnWrite {
  import opened Wrappers
  import IntegerHelper

  /** A plain document object (IDataMap): entries in order, nested documents by reference. */
  class Table {
    var entries: seq<Field>

    constructor (es: seq<Field>)
      ensures entries == es
    {
      entries := es;
    }
  }

  datatype Item = Nil | Text(s: string) | Nested(table: Table)
  datatype Field = Field(key: string, item: Item)

  /** What a wrapper holds at a position: the wrapped document's item, or a wrapper of its own. */
  datatype Slot = Shared(item: Item) | Own(wrapper: Wrapper)
  datatype Cell = Cell(key: string, slot: Slot)

  /** The wrapped document's entries as the wrapper shows them before any change. */
  function Lift(fs: seq<Field>): (cs: seq<Cell>)
    ensures |cs| == |fs| && forall i :: 0 <= i < |fs| ==> cs[i] == Cell(fs[i].key, Shared(fs[i].item))
  {
    if fs == [] then [] else [Cell(fs[0].key, Shared(fs[0].item))] + Lift(fs[1..])
  }

  /** The position of the first cell with the key, |cs| when there is none. */
  function FirstIndex(cs: seq<Cell>, key: string): (i: nat)
    ensures i <= |cs|
    ensures i < |cs| ==> cs[i].key == key
    ensures forall j :: 0 <= j < i ==> cs[j].key != key
  {
    if cs == [] || cs[0].key == key then 0 else 1 + FirstIndex(cs[1..], key)
  }

  /** Whether a slot holds a document (IData) that reading must wrap. */
  predicate NeedsWrapping(s: Slot) {
    s.Shared? && s.item.Nested?
  }

  /** CopyOnWriteIDataMap. */
  class Wrapper {
    const source: Table
    var copied: bool
    var local: seq<Cell>

    /** What the wrapper holds: the source until the first change, the private copy after. */
    function View(): seq<Cell>
      reads this, source
    {
      if copied then local else Lift(source.entries)
    }

    /** CopyOnWriteIDataMap.of(document): wraps without copying and without touching the document. */
    constructor Of(t: Table)
      ensures source == t && !copied && View() == Lift(t.entries)
    {
      source := t;
      copied := false;
      local := [];
    }

    /** Takes the private copy, if not taken yet; what the wrapper holds stays the same. */
    method Detach()
      modifies this
      ensures copied && View() == old(View()) && unchanged(source)
    {
      if !copied {
        local := Lift(source.entries);
        copied := true;
      }
    }

    /**
     * The value at position i. A nested document not yet wrapped is wrapped
     * now, and the parent keeps the new wrapper in its copy; anything else is
     * returned as it is held.
     */
    method ValueAt(i: nat) returns (s: Slot)
      requires i < |View()|
      modifies this
      ensures NeedsWrapping(old(View())[i].slot) ==>
        && s.Own? && fresh(s.wrapper)
        && s.wrapper.source == old(View())[i].slot.item.table
        && s.wrapper.View() == Lift(s.wrapper.source.entries)
        && View() == old(View())[i := Cell(old(View())[i].key, s)]
      ensures !NeedsWrapping(old(View())[i].slot) ==> s == old(View())[i].slot && View() == old(View())
      ensures unchanged(source)
    {
      var cell := View()[i];
      if NeedsWrapping(cell.slot) {
        var w := new Wrapper.Of(cell.slot.item.table);
        Detach();
        s := Own(w);
        local := local[i := Cell(cell.key, s)];
      } else {
        s := cell.slot;
      }
    }

    /** IDataUtil.get(cursor, key) through the wrapper: the first value with the key, read as ValueAt reads it. */
    method Get(key: string) returns (r: Option<Slot>)
      modifies this
      ensures var i := FirstIndex(old(View()), key);
        && (i == |old(View())| ==> r == None && View() == old(View()))
        && (i < |old(View())| ==>
              && r.Some?
              && (!NeedsWrapping(old(View())[i].slot) ==> r.value == old(View())[i].slot && View() == old(View()))
              && (NeedsWrapping(old(View())[i].slot) ==>
                    && r.value.Own? && fresh(r.value.wrapper)
                    && r.value.wrapper.source == old(View())[i].slot.item.table
                    && r.value.wrapper.View() == Lift(r.value.wrapper.source.entries)
                    && View() == old(View())[i := Cell(key, r.value)]))
    {
      var i := FirstIndex(View(), key);
      if i == |View()| {
        return None;
      }
      var s := ValueAt(i);
      r := Some(s);
    }

    /** Inserts a cell at position i, in the private copy. */
    method InsertAt(i: nat, cell: Cell)
      requires i <= |View()|
      modifies this
      ensures View() == old(View())[..i] + [cell] + old(View())[i..]
      ensures unchanged(source)
    {
      Detach();
      local := local[..i] + [cell] + local[i..];
    }
  }

  /** An IDataCursor over a wrapper: a position, -1 before the first element. */
  class Cursor {
    const target: Wrapper
    var position: int

    constructor (w: Wrapper)
      ensures target == w && position == -1
    {
      target := w;
      position := -1;
    }

    /** next(): moves to the following element, if there is one. */
    method Next() returns (more: bool)
      requires -1 <= position
      modifies this
      ensures more <==> old(position) + 1 < |target.View()|
      ensures position == if more then old(position) + 1 else |target.View()|
    {
      more := position + 1 < |target.View()|;
      position := if more then position + 1 else |target.View()|;
    }

    /** getKey(): the key at the cursor. */
    function Key(): string
      requires 0 <= position < |target.View()|
      reads this, target, target.source
    {
      target.View()[position].key
    }

    /** getValue(): the value at the cursor, read as ValueAt reads it. */
    method Value() returns (s: Slot)
      requires 0 <= position < |target.View()|
      modifies target
      ensures NeedsWrapping(old(target.View())[position].slot) ==>
        && s.Own? && fresh(s.wrapper)
        && s.wrapper.source == old(target.View())[position].slot.item.table
        && s.wrapper.View() == Lift(s.wrapper.source.entries)
        && target.View() == old(target.View())[position := Cell(old(target.View())[position].key, s)]
      ensures !NeedsWrapping(old(target.View())[position].slot) ==>
        s == old(target.View())[position].slot && target.View() == old(target.View())
    {
      s := target.ValueAt(position);
    }

    /** insertAfter(key, value): inserts after the cursor and moves onto the new element. */
    method InsertAfter(key: string, item: Item)
      requires -1 <= position < |target.View()|
      modifies this, target
      ensures position == old(position) + 1
      ensures target.View() == old(target.View())[..position] + [Cell(key, Shared(item))] + old(target.View())[position..]
    {
      target.InsertAt(position + 1, Cell(key, Shared(item)));
      position := position + 1;
    }
  }

  function Numeral(i: nat): string {
    IntegerHelper.ToDigits(i, 10)
  }

  /** The cell the scenario inserts in its i-th round: "d" + i holding i. */
  function Inserted(i: nat): Cell {
    Cell("d" + Numeral(i), Shared(Text(Numeral(i))))
  }

  /** The wrapper's contents before round i of the scenario; `c` is the wrapped child. */
  function Stage(i: nat, c: Wrapper): seq<Cell>
    requires 1 <= i <= 4
  {
    var a, b, child := Cell("a", Shared(Text("1"))), Cell("b", Shared(Text("2"))), Cell("child", Own(c));
    if i == 1 then [a, b, child]
    else if i == 2 then [a, Inserted(1), b, child]
    else if i == 3 then [a, Inserted(1), b, Inserted(2), child]
    else [a, Inserted(1), b, Inserted(2), child, Inserted(3)]
  }

  /** Round i inserts its cell right after the i-th original element. */
  lemma StageStep(i: nat, c: Wrapper)
    requires 1 <= i <= 3
    ensures var s := Stage(i, c);
      |s| == i + 2 && s[..2 * i - 1] + [Inserted(i)] + s[2 * i - 1..] == Stage(i + 1, c)
  {
  }

  lemma StageVisited(i: nat, c: Wrapper)
    requires 1 <= i <= 3
    ensures Stage(i, c)[2 * (i - 1)] == [Cell("a", Shared(Text("1"))), Cell("b", Shared(Text("2"))), Cell("child", Own(c))][i - 1]
  {
  }

  lemma StageChild(c: Wrapper)
    ensures FirstIndex(Stage(4, c), "child") == 4
  {
    var s := Stage(4, c);
    assert s[1].key[0] == 'd' && s[3].key[0] == 'd';
    assert s[1..][1..][1..][1..][0] == s[4];
  }

  /**
   * One round of the scenario's loop at the element the cursor is on: a child
   * document read there gets z=9, and d<i>=<i> is inserted after the element.
   */
  method Round(cursor: Cursor, w: Wrapper, child: Table, i: nat)
    requires 1 <= i <= 3 && cursor.target.View() == Stage(i, w) && cursor.position == 2 * (i - 1)
    requires w.source == child && w != cursor.target && |w.View()| == 1
    modifies cursor, cursor.target, w
    ensures cursor.target.View() == Stage(i + 1, w) && cursor.position == 2 * i - 1
    ensures |w.View()| == if i == 3 then 2 else 1
  {
    StageVisited(i, w);
    var key := cursor.Key();
    var value := cursor.Value();
    if key == "child" && value.Own? {
      var childCursor := new Cursor(value.wrapper);
      childCursor.InsertAfter("z", Text("9"));
    }
    StageStep(i, w);
    cursor.InsertAfter("d" + Numeral(i), Text(Numeral(i)));
  }

  /**
   * The copy-on-write scenario: a document a=1, b=2, child={c=3} is wrapped;
   * the child is read through the wrapper; then a cursor walks the wrapper,
   * writes z=9 into the child it reads, and inserts d<i>=<i> after each
   * element it visits.
   */
  method Scenario() returns (childKept: bool, childWrapped: bool, roundViewSize: nat, roundChildSize: nat,
                             childViewSize: nat, viewSize: nat, originalSize: nat, childSize: nat)
    ensures childKept && childWrapped
    ensures roundViewSize == 2 && roundChildSize == 1
    ensures childViewSize == 2 && viewSize == 6 && originalSize == 3 && childSize == 1
  {
    var child := new Table([Field("c", Text("3"))]);
    var document := new Table([Field("a", Text("1")), Field("b", Text("2")), Field("child", Nested(child))]);
    var cow := new Wrapper.Of(document);
    var cursor := new Cursor(cow);

    childKept := document.entries[2].item == Nested(child);
    var got := cow.Get("child");
    childWrapped := got.Some? && got.value.Own? && got.value.wrapper.source == child;
    var w := got.value.wrapper;
    assert cow.View() == Stage(1, w);

    var i := 1;
    var more := cursor.Next();
    roundViewSize, roundChildSize := 0, 0;
    while more
      invariant 1 <= i <= 4 && (more <==> i < 4)
      invariant cursor.target == cow && cow.source == document && w.source == child && w != cow
      invariant cow.View() == Stage(i, w)
      invariant more ==> cursor.position == 2 * (i - 1)
      invariant !more ==> cursor.position == 6
      invariant child.entries == [Field("c", Text("3"))]
      invariant |document.entries| == 3
      invariant |w.View()| == if i <= 3 then 1 else 2
      invariant i == 4 ==> roundViewSize == 2 && roundChildSize == 1
      decreases 4 - i
    {
      Round(cursor, w, child, i);
      if i == 3 {
        roundViewSize, roundChildSize := |w.View()|, |child.entries|;
      }
      i := i + 1;
      more := cursor.Next();
    }

    StageChild(w);
    var last := cow.Get("child");
    childViewSize := |last.value.wrapper.View()|;
    viewSize := |cow.View()|;
    originalSize := |document.entries|;
    childSize := |child.entries|;
  }
}
