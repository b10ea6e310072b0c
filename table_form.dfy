/** The field-list editor of the table form (components/table_form.js):
    an ordered list of field records identified by `id`, the handlers that
    reorder, insert and remove them (buttons and drag-and-drop), the three
    drag-state variables, and the commit step that folds the edited rows
    back into the table record. */
module TableForm {
  import opened Optional
  import opened Lists

  /** One column of a table. `name` and `fieldType` are
      always present (`fieldType` is the JavaScript record's `type`); the other
      attributes may be missing from a record. */
  datatype Field = Field(
    id: string,
    name: string,
    fieldType: string,
    note: Option<string>,
    dbdefault: Option<string>,
    pk: Option<bool>,
    unique: Option<bool>,
    notNull: Option<bool>,
    increment: Option<bool>)

  /** A value under a table key this editor does not interpret. */
  datatype Value = Text(text: string) | Number(n: int) | Flag(b: bool) | Null

  /** A table record: its id, name, note, field list, the diagram position
      `x`/`y` (owned by the canvas, absent once deleted) and every other key. */
  datatype Table = Table(
    id: string,
    name: string,
    note: string,
    fields: seq<Field>,
    x: Option<int>,
    y: Option<int>,
    others: map<string, Value>)

  /** The `droppingId` value that marks the table header as the drop target. */
  const RootTarget: string := "root"

  // ---------------------------------------------------------------------
  // Identity of fields

  /** No two fields share an id. */
  ghost predicate UniqueIds(s: seq<Field>)
  {
    forall i, j :: 0 <= i < j < |s| ==> s[i].id != s[j].id
  }

  /** No field has the id `id`. */
  ghost predicate Absent(s: seq<Field>, id: string)
  {
    forall k :: 0 <= k < |s| ==> s[k].id != id
  }

  /** `fields.findIndex(item => item.id === id)`: the first position holding
      `id`, or -1 when there is none. */
  function IndexOf(s: seq<Field>, id: string): (r: int)
    ensures -1 <= r < |s|
    ensures r < 0 ==> Absent(s, id)
    ensures 0 <= r ==> s[r].id == id && forall k :: 0 <= k < r ==> s[k].id != id
  {
    if |s| == 0 then -1
    else if s[0].id == id then 0
    else
      var k := IndexOf(s[1..], id);
      if k < 0 then -1 else k + 1
  }

  /** With unique ids, looking up the id found at `k` gives back `k`. */
  lemma IndexOfAt(s: seq<Field>, k: nat)
    requires UniqueIds(s) && k < |s|
    ensures IndexOf(s, s[k].id) == k
  {
  }

  /** Removing a field with another id shifts the found position by one when
      the removed field stood before it, and keeps it otherwise. */
  lemma IndexOfAfterRemove(s: seq<Field>, from: nat, id: string)
    requires from < |s| && s[from].id != id && 0 <= IndexOf(s, id)
    ensures IndexOf(RemoveAt(s, from), id) ==
      if IndexOf(s, id) < from then IndexOf(s, id) else IndexOf(s, id) - 1
  {
    var t := RemoveAt(s, from);
    var to := IndexOf(s, id);
    var k := if to < from then to else to - 1;
    assert t[k].id == id;
    assert forall j :: 0 <= j < k ==> t[j].id != id by {
      forall j | 0 <= j < k ensures t[j].id != id {
        if j >= from { assert t[j] == s[j + 1]; }
      }
    }
  }

  lemma RemoveAtKeepsUnique(s: seq<Field>, i: nat)
    requires UniqueIds(s) && i < |s|
    ensures UniqueIds(RemoveAt(s, i)) && Absent(RemoveAt(s, i), s[i].id)
  {
    var t := RemoveAt(s, i);
    forall a, b | 0 <= a < b < |t| ensures t[a].id != t[b].id {
      var a' := if a < i then a else a + 1;
      var b' := if b < i then b else b + 1;
      assert t[a] == s[a'] && t[b] == s[b'];
    }
    forall k | 0 <= k < |t| ensures t[k].id != s[i].id {
      var k' := if k < i then k else k + 1;
      assert t[k] == s[k'];
    }
  }

  /** One pair of positions after inserting a field with a fresh id. */
  lemma InsertFreshPair(s: seq<Field>, i: nat, f: Field, a: nat, b: nat)
    requires UniqueIds(s) && Absent(s, f.id) && a < b < |s| + 1
    ensures InsertAt(s, i, f)[a].id != InsertAt(s, i, f)[b].id
  {
    var r := InsertAt(s, i, f);
    var p := Clamp(i, |s|);
    InsertAtPositions(s, i, f);
    if a == p {
      assert r[b] == s[b - 1];
    } else if b == p {
      assert r[a] == s[a];
    } else {
      var a' := if a < p then a else a - 1;
      var b' := if b < p then b else b - 1;
      assert r[a] == s[a'] && r[b] == s[b'] && a' < b';
    }
  }

  lemma InsertFreshKeepsUnique(s: seq<Field>, i: nat, f: Field)
    requires UniqueIds(s) && Absent(s, f.id)
    ensures UniqueIds(InsertAt(s, i, f))
  {
    var r := InsertAt(s, i, f);
    forall a, b | 0 <= a < b < |r| ensures r[a].id != r[b].id {
      InsertFreshPair(s, i, f, a, b);
    }
  }

  lemma SwapKeepsUnique(s: seq<Field>, i: nat, j: nat)
    requires UniqueIds(s) && i < |s| && j < |s|
    ensures UniqueIds(Swap(s, i, j))
  {
    var r := Swap(s, i, j);
    forall a, b | 0 <= a < b < |r| ensures r[a].id != r[b].id {
      var a' := if a == i then j else if a == j then i else a;
      var b' := if b == i then j else if b == j then i else b;
      assert r[a] == s[a'] && r[b] == s[b'];
    }
  }

  // ---------------------------------------------------------------------
  // The list operations behind the handlers

  /** `moveUp` of the row at `i`: exchange it with the row above, unless it is the first. */
  function MovedUp(s: seq<Field>, i: nat): (r: seq<Field>)
    requires i < |s|
    ensures |r| == |s| && multiset(r) == multiset(s)
    ensures i == 0 ==> r == s
    ensures 0 < i ==> r[i - 1] == s[i] && r[i] == s[i - 1]
    ensures forall k :: 0 <= k < |s| && k != i && k + 1 != i ==> r[k] == s[k]
  {
    if i > 0 then Swap(s, i, i - 1) else s
  }

  /** `moveDown` of the row at `i`: exchange it with the row below, unless it is the last. */
  function MovedDown(s: seq<Field>, i: nat): (r: seq<Field>)
    requires i < |s|
    ensures |r| == |s| && multiset(r) == multiset(s)
    ensures i == |s| - 1 ==> r == s
    ensures i < |s| - 1 ==> r[i] == s[i + 1] && r[i + 1] == s[i]
    ensures forall k :: 0 <= k < |s| && k != i && k != i + 1 ==> r[k] == s[k]
  {
    if i < |s| - 1 then Swap(s, i, i + 1) else s
  }

  /** Moving a row up and then moving it back down restores the list. */
  lemma {:induction false} MoveDownUndoesMoveUp(s: seq<Field>, i: nat)
    requires 0 < i < |s|
    ensures MovedDown(MovedUp(s, i), i - 1) == s
  {
    var r := MovedDown(MovedUp(s, i), i - 1);
    forall k | 0 <= k < |s| ensures r[k] == s[k] {
    }
  }

  /** The number a string of decimal digits spells, read left to right. */
  function DigitsValue(s: string): nat
    requires forall k :: 0 <= k < |s| ==> '0' <= s[k] <= '9'
  {
    if s == [] then 0
    else DigitsValue(s[..|s| - 1]) * 10 + (s[|s| - 1] as int - '0' as int)
  }

  /** The decimal digits of `n`, as `String(n)` writes them: read back they
      give `n`, and there is no leading zero. */
  function DecimalString(n: nat): (r: string)
    ensures |r| >= 1
    ensures forall k :: 0 <= k < |r| ==> '0' <= r[k] <= '9'
    ensures DigitsValue(r) == n
    ensures r[0] == '0' ==> n == 0
  {
    if n < 10 then ["0123456789"[n]]
    else DecimalString(n / 10) + ["0123456789"[n % 10]]
  }

  /** The record `addItem` creates: a fresh id, the name `new item<n>`, an
      empty type and `unique: false`; no other attribute. */
  function NewItem(id: string, n: nat): (f: Field)
    ensures f.id == id && f.fieldType == "" && f.unique == Some(false)
    ensures |f.name| > 8 && f.name[..8] == "new item" && f.name[8..] == DecimalString(n)
  {
    Field(id, "new item" + DecimalString(n), "", None, None, None, Some(false), None, None)
  }

  /** `addItem(i)`: one new field right after position `i` (at the end when
      `i + 1` is past it), named after the old length. */
  function Added(s: seq<Field>, i: nat, freshId: string): (r: seq<Field>)
    ensures |r| == |s| + 1
    ensures r[Clamp(i + 1, |s|)] == NewItem(freshId, |s|)
    ensures RemoveAt(r, Clamp(i + 1, |s|)) == s
    ensures multiset(r) == multiset(s) + multiset{NewItem(freshId, |s|)}
  {
    InsertAt(s, i + 1, NewItem(freshId, |s|))
  }

  /** A fresh id keeps the ids unique, and the new id is then found exactly
      where the field was put. */
  lemma AddedKeepsUnique(s: seq<Field>, i: nat, freshId: string)
    requires UniqueIds(s) && Absent(s, freshId)
    ensures UniqueIds(Added(s, i, freshId))
    ensures IndexOf(Added(s, i, freshId), freshId) == Clamp(i + 1, |s|)
  {
    InsertFreshKeepsUnique(s, i + 1, NewItem(freshId, |s|));
    IndexOfAt(Added(s, i, freshId), Clamp(i + 1, |s|));
  }

  /** `state.filter(item => item.id !== id)`. */
  function Without(s: seq<Field>, id: string): (r: seq<Field>)
    ensures |r| <= |s|
    ensures Absent(r, id)
    ensures forall f :: f in r <==> f in s && f.id != id
    ensures Absent(s, id) ==> r == s
  {
    if s == [] then []
    else (if s[0].id == id then [] else [s[0]]) + Without(s[1..], id)
  }

  /** Filtering distributes over concatenation: the kept fields stay in
      their original relative order. */
  lemma {:induction false} WithoutAppend(a: seq<Field>, b: seq<Field>, id: string)
    ensures Without(a + b, id) == Without(a, id) + Without(b, id)
  {
    if a == [] {
      assert a + b == b;
    } else {
      assert (a + b)[1..] == a[1..] + b;
      WithoutAppend(a[1..], b, id);
    }
  }

  /** When ids are unique, removing by id is removing the one position that holds it. */
  lemma {:induction false} WithoutIsRemoveAt(s: seq<Field>, k: nat)
    requires UniqueIds(s) && k < |s|
    ensures Without(s, s[k].id) == RemoveAt(s, k)
  {
    var id := s[k].id;
    var tail := s[1..];
    assert Without(s, id) == (if s[0].id == id then [] else [s[0]]) + Without(tail, id);
    if k == 0 {
      forall j | 0 <= j < |tail| ensures tail[j].id != id {
        assert tail[j] == s[j + 1];
      }
      assert Without(tail, id) == tail;
      assert RemoveAt(s, 0) == tail;
    } else {
      assert s[0].id != id;
      assert UniqueIds(tail) by {
        forall i, j | 0 <= i < j < |tail| ensures tail[i].id != tail[j].id {
          assert tail[i] == s[i + 1] && tail[j] == s[j + 1];
        }
      }
      assert tail[k - 1] == s[k];
      WithoutIsRemoveAt(tail, k - 1);
      RemoveAtBehindHead(s, k);
    }
  }

  lemma {:induction false} WithoutKeepsUnique(s: seq<Field>, id: string)
    requires UniqueIds(s)
    ensures UniqueIds(Without(s, id))
  {
    if s != [] {
      assert UniqueIds(s[1..]);
      WithoutKeepsUnique(s[1..], id);
      var t := Without(s[1..], id);
      forall k | 0 <= k < |t| ensures t[k].id != s[0].id {
        assert t[k] in s[1..];
      }
    }
  }

  /** Where the dragged field lands in the general drop: right after the
      target, counted in the original positions. */
  function Landing(from: nat, to: nat): (p: nat)
    requires from != to
    ensures 0 < p
  {
    if to < from then to + 1 else to
  }

  /** The general drop: take the dragged field out, then put it back right
      after the target. */
  function MoveAfter<T>(s: seq<T>, from: nat, to: nat): (r: seq<T>)
    requires from < |s| && to < |s| && from != to
    ensures |r| == |s| && multiset(r) == multiset(s)
    ensures Landing(from, to) < |s|
    ensures r[Landing(from, to)] == s[from] && r[Landing(from, to) - 1] == s[to]
    ensures RemoveAt(r, Landing(from, to)) == RemoveAt(s, from)
    ensures to == |s| - 1 ==> r[|s| - 1] == s[from]
  {
    var t := RemoveAt(s, from);
    assert Clamp(Landing(from, to), |t|) == Landing(from, to);
    InsertAt(t, Landing(from, to), s[from])
  }

  /** `unShiftFields`: take the dragged field out and put it first. */
  function MoveToFront<T>(s: seq<T>, from: nat): (r: seq<T>)
    requires from < |s|
    ensures |r| == |s| && multiset(r) == multiset(s)
    ensures r[0] == s[from] && r[1..] == RemoveAt(s, from)
  {
    [s[from]] + RemoveAt(s, from)
  }

  /** A field already in front stays where it is: why dragging it over the
      header does not offer the header as a target. */
  lemma FrontToFrontIsIdentity<T>(s: seq<T>)
    requires 0 < |s|
    ensures MoveToFront(s, 0) == s
  {
    assert s == [s[0]] + s[1..];
  }

  lemma MoveToFrontKeepsUnique(s: seq<Field>, from: nat)
    requires UniqueIds(s) && from < |s|
    ensures UniqueIds(MoveToFront(s, from))
  {
    RemoveAtKeepsUnique(s, from);
    InsertFreshKeepsUnique(RemoveAt(s, from), 0, s[from]);
    assert MoveToFront(s, from) == InsertAt(RemoveAt(s, from), 0, s[from]);
  }

  /** `onDrop` of the field at `from` onto the field at `to`. */
  function Dropped(s: seq<Field>, from: nat, to: nat): (r: seq<Field>)
    requires from < |s| && to < |s|
    ensures |r| == |s| && multiset(r) == multiset(s)
    ensures to == from ==> r == s
  {
    if to == from then s
    else if to + 1 == from then Swap(s, from, from - 1)
    else MoveAfter(s, from, to)
  }

  /** Dropping onto the field just before the dragged one exchanges the two:
      the dragged field ends up BEFORE its target and nothing else moves. */
  lemma DropOnPredecessorSwaps(s: seq<Field>, from: nat)
    requires 0 < from < |s|
    ensures Dropped(s, from, from - 1)[from - 1] == s[from]
    ensures Dropped(s, from, from - 1)[from] == s[from - 1]
    ensures forall k :: 0 <= k < |s| && k != from && k != from - 1 ==>
      Dropped(s, from, from - 1)[k] == s[k]
  {
  }

  /** The general remove-and-reinsert-after rule applied to the predecessor
      gives the list back unchanged; this is why that case has its own swap,
      and why the swap is not equal to the general rule there. */
  lemma {:induction false} ReinsertAfterPredecessorIsIdentity<T>(s: seq<T>, from: nat)
    requires 0 < from < |s|
    ensures MoveAfter(s, from, from - 1) == s
    ensures s[from] != s[from - 1] ==> Swap(s, from, from - 1) != MoveAfter(s, from, from - 1)
  {
    InsertRemoved(s, from);
  }

  /** The general branch as `onDrop` runs it: splice the dragged
      field out, look the target up again, and re-insert after it, or push
      when it was last. */
  lemma GeneralDropIsMoveAfter(s: seq<Field>, from: nat, to: nat, id: string)
    requires from < |s| && to < |s| && from != to && to + 1 != from
    requires IndexOf(s, id) == to && s[from].id != id
    ensures IndexOf(RemoveAt(s, from), id) + 1 == Landing(from, to)
    ensures Landing(from, to) < |s| - 1 ==>
      InsertAt(RemoveAt(s, from), Landing(from, to), s[from]) == Dropped(s, from, to)
    ensures Landing(from, to) == |s| - 1 ==>
      RemoveAt(s, from) + [s[from]] == Dropped(s, from, to)
  {
    IndexOfAfterRemove(s, from, id);
    InsertAtEndIsPush(RemoveAt(s, from), s[from]);
  }

  lemma DroppedKeepsUnique(s: seq<Field>, from: nat, to: nat)
    requires UniqueIds(s) && from < |s| && to < |s|
    ensures UniqueIds(Dropped(s, from, to))
  {
    if to + 1 == from {
      SwapKeepsUnique(s, from, from - 1);
    } else if to != from {
      RemoveAtKeepsUnique(s, from);
      InsertFreshKeepsUnique(RemoveAt(s, from), Landing(from, to), s[from]);
    }
  }

  /** In the general drop, the dragged field is found immediately after its
      target afterwards (appended when the target was last), and the other
      fields keep their relative order. */
  lemma DropElsewhereLandsAfterTarget(s: seq<Field>, from: nat, to: nat)
    requires UniqueIds(s) && from < |s| && to < |s| && from != to && to + 1 != from
    ensures IndexOf(Dropped(s, from, to), s[from].id) == IndexOf(Dropped(s, from, to), s[to].id) + 1
    ensures to == |s| - 1 ==> Dropped(s, from, to)[|s| - 1] == s[from]
    ensures RemoveAt(Dropped(s, from, to), Landing(from, to)) == RemoveAt(s, from)
  {
    var r := Dropped(s, from, to);
    DroppedKeepsUnique(s, from, to);
    IndexOfAt(r, Landing(from, to));
    IndexOfAt(r, Landing(from, to) - 1);
  }

  /** The list updates `onDrop` hands to `setFields` once it has found the
      dragged field at `from` and the target `id` at `to`: the adjacent swap,
      or the splice out, the second look-up of the target and the re-insert
      (or push) after it. */
  method DropUpdate(state: seq<Field>, from: nat, to: nat, id: string) returns (next: seq<Field>)
    requires from < |state| && to < |state| && from != to
    requires IndexOf(state, id) == to && state[from].id != id
    ensures next == Dropped(state, from, to)
  {
    if to == from - 1 {
      next := Swap(state, from, from - 1);
    } else {
      var dragged := state[from];
      GeneralDropIsMoveAfter(state, from, to, id);
      next := RemoveAt(state, from);
      var at := IndexOf(next, id);
      if at + 1 < |next| {
        next := InsertAt(next, at + 1, dragged);
      } else {
        next := next + [dragged];
      }
    }
  }

  // ---------------------------------------------------------------------
  // Commit

  /** The form's two required rules on one row: a non-empty name and a
      non-empty type. */
  predicate PassesRequired(f: Field)
  {
    f.name != "" && f.fieldType != ""
  }

  /** The form validates when every row passes; it fails as soon as one
      field record in the rows fails. */
  predicate AllPassRequired(rows: seq<Field>)
  {
    forall k :: 0 <= k < |rows| ==> PassesRequired(rows[k])
  }

  /** A field just added has the empty type, so a form holding it does not
      validate until a type is chosen; its name alone would pass. */
  lemma AddedFieldBlocksCommit(s: seq<Field>, i: nat, freshId: string)
    ensures !PassesRequired(NewItem(freshId, |s|))
    ensures NewItem(freshId, |s|).name != ""
    ensures !AllPassRequired(Added(s, i, freshId))
  {
    var r := Added(s, i, freshId);
    assert r[Clamp(i + 1, |s|)] in r;
  }

  /** `save`: the table with the edited name, note and rows, and without its
      diagram position; every other key is carried over. */
  function Saved(t: Table, name: string, note: string, rows: seq<Field>): (r: Table)
    ensures r.id == t.id && r.others == t.others
    ensures r.name == name && r.note == note && r.fields == rows
    ensures r.x == None && r.y == None
  {
    t.(name := name, note := note, fields := rows, x := None, y := None)
  }

  /** Committing the same edits again changes nothing, and where the table
      sat on the diagram never shows in what is committed. */
  lemma SavedIgnoresPosition(t: Table, u: Table, name: string, note: string, rows: seq<Field>)
    requires t.id == u.id && t.others == u.others
    ensures Saved(t, name, note, rows) == Saved(u, name, note, rows)
    ensures Saved(Saved(t, name, note, rows), name, note, rows) == Saved(t, name, note, rows)
  {
  }

  /** The "+ Add field" button of an empty list calls `addItem(0)`: the
      result is the one new field. */
  lemma AddToEmptyList(freshId: string)
    ensures Added([], 0, freshId) == [NewItem(freshId, 0)]
  {
  }

  /** The worked example: one field, add a field after it, move the new one up. */
  lemma AddThenMoveUp(a: Field, newId: string)
    requires a.id != newId
    ensures Added([a], 0, newId) == [a, NewItem(newId, 1)]
    ensures MovedUp(Added([a], 0, newId), 1) == [NewItem(newId, 1), a]
  {
    assert Clamp(1, 1) == 1;
  }

  // ---------------------------------------------------------------------
  // The component's state and handlers

  /** The editor's state: the field list, the table name and note being
      edited, the drag state and the parent's `committing` flag. */
  class Editor {
    var table: Table
    var fields: seq<Field>
    var name: string
    var note: string
    var draggingId: Option<string>
    var draggingIndex: Option<int>
    var droppingId: Option<string>
    var committing: bool

    ghost predicate Valid()
      reads this
    {
      UniqueIds(fields)
    }

    /** Mounting the form on `table`. */
    constructor (table: Table, committing: bool)
      requires UniqueIds(table.fields)
      ensures Valid()
      ensures this.table == table && fields == table.fields
      ensures name == table.name && note == table.note
      ensures draggingId == None && draggingIndex == None && droppingId == None
      ensures this.committing == committing
    {
      this.table := table;
      fields := table.fields;
      name := table.name;
      note := table.note;
      draggingId := None;
      draggingIndex := None;
      droppingId := None;
      this.committing := committing;
    }

    /** The effect on a new `table` prop: the field list is replaced
        wholesale; the edited name and note are kept. */
    method TableChanged(t: Table)
      requires UniqueIds(t.fields)
      modifies this`table, this`fields
      ensures Valid() && table == t && fields == t.fields
    {
      table := t;
      fields := t.fields;
    }

    method EditName(value: string)
      modifies this`name
      ensures name == value
    {
      name := value;
    }

    method EditNote(value: string)
      modifies this`note
      ensures note == value
    {
      note := value;
    }

    method MoveUp(index: nat)
      requires Valid() && index < |fields|
      modifies this`fields
      ensures Valid() && fields == MovedUp(old(fields), index)
    {
      if index > 0 {
        SwapKeepsUnique(fields, index, index - 1);
        fields := Swap(fields, index, index - 1);
      }
    }

    method MoveDown(index: nat)
      requires Valid() && index < |fields|
      modifies this`fields
      ensures Valid() && fields == MovedDown(old(fields), index)
    {
      if index < |fields| - 1 {
        SwapKeepsUnique(fields, index, index + 1);
        fields := Swap(fields, index, index + 1);
      }
    }

    /** `addItem(index)`, with `freshId` standing for the generated id. */
    method AddItem(index: nat, freshId: string)
      requires Valid() && Absent(fields, freshId)
      modifies this`fields
      ensures Valid() && fields == Added(old(fields), index, freshId)
    {
      AddedKeepsUnique(fields, index, freshId);
      var copy := fields;
      copy := InsertAt(copy, index + 1, NewItem(freshId, |copy|));
      fields := copy;
    }

    method RemoveItem(id: string)
      requires Valid()
      modifies this`fields
      ensures Valid() && fields == Without(old(fields), id)
    {
      WithoutKeepsUnique(fields, id);
      fields := Without(fields, id);
    }

    method DragStart(id: string)
      modifies this`draggingId, this`draggingIndex
      ensures draggingId == Some(id) && draggingIndex == Some(IndexOf(fields, id))
    {
      draggingId := Some(id);
      draggingIndex := Some(IndexOf(fields, id));
    }

    /** Dragging over a row only records it as the drop target. */
    method DragOverRow(id: string)
      modifies this`droppingId
      ensures droppingId == Some(id)
    {
      droppingId := Some(id);
    }

    /** The end of a drag, dropped or not: both ids cleared, no list change. */
    method DragEnd()
      modifies this`draggingId, this`droppingId
      ensures draggingId == None && droppingId == None
    {
      draggingId := None;
      droppingId := None;
    }

    /** Dragging over the table header offers it as the target unless the
        dragged field started at the front. */
    method DragOverHeader()
      modifies this`droppingId
      ensures draggingIndex != Some(0) ==> droppingId == Some(RootTarget)
      ensures draggingIndex == Some(0) ==> droppingId == old(droppingId)
    {
      if draggingIndex != Some(0) {
        droppingId := Some(RootTarget);
      }
    }

    /** `onDrop` onto the row whose field id is `id`. */
    method Drop(id: string)
      requires Valid()
      requires draggingId.Some? && 0 <= IndexOf(fields, draggingId.value)
      requires 0 <= IndexOf(fields, id)
      modifies this`fields, this`draggingId, this`droppingId
      ensures Valid()
      ensures fields == Dropped(old(fields), IndexOf(old(fields), old(draggingId).value), IndexOf(old(fields), id))
      ensures draggingId == None && droppingId == None
    {
      droppingId := None;
      var index := IndexOf(fields, id);
      var from := IndexOf(fields, draggingId.value);
      if index == from {
        draggingId := None;
        return;
      }
      DroppedKeepsUnique(fields, from, index);
      fields := DropUpdate(fields, from, index, id);
      draggingId := None;
    }

    /** `unShiftFields`: the drop onto the table header. */
    method DropOnHeader()
      requires Valid()
      requires draggingId.Some? && 0 <= IndexOf(fields, draggingId.value)
      modifies this`fields, this`draggingId, this`droppingId
      ensures Valid()
      ensures fields == MoveToFront(old(fields), IndexOf(old(fields), old(draggingId).value))
      ensures draggingId == None && droppingId == None
    {
      var from := IndexOf(fields, draggingId.value);
      MoveToFrontKeepsUnique(fields, from);
      var copy := RemoveAt(fields, from);
      copy := [fields[from]] + copy;
      fields := copy;
      draggingId := None;
      droppingId := None;
    }

    /** `form.submit()`: `save` when every row passes the required rules,
        `onSubmitFailed` otherwise; both clear `committing`. The committed
        table is what `save` hands to the parent. */
    method Submit(rows: seq<Field>) returns (committed: Option<Table>)
      modifies this`committing
      ensures !committing
      ensures committed.Some? <==> AllPassRequired(rows)
      ensures committed.Some? ==> committed.value == Saved(table, name, note, rows)
    {
      if AllPassRequired(rows) {
        committed := Some(Saved(table, name, note, rows));
      } else {
        committed := None;
      }
      committing := false;
    }

    /** The effect on the `committing` prop: submit the form when it is set. */
    method CommittingChanged(rows: seq<Field>) returns (committed: Option<Table>)
      modifies this`committing
      ensures !old(committing) ==> committed == None && committing == old(committing)
      ensures old(committing) ==> !committing
      ensures old(committing) ==> (committed.Some? <==> AllPassRequired(rows))
      ensures committed.Some? ==> committed.value == Saved(table, name, note, rows)
    {
      committed := None;
      if committing {
        committed := Submit(rows);
      }
    }
  }
}
