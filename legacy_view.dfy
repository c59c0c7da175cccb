/**
 * The row controller of the older version (Anet/script.js). Rows carry no
 * id: the store is addressed by the text a row shows. Added rows are never
 * stored, the complete button only flips the marker, and the edit input has
 * no Escape handling.
 */
module LegacyView {
  import opened Options
  import opened JsText
  import opened Filter
  import opened LegacyStore
  import opened Events

  /**
   * A `.todo` row: the text its `.todo-item` shows, its `completed` marker,
   * the value of its edit input while one is swapped in, and whether its
   * display is not "none".
   */
  datatype Row = Row(shown: string, completed: bool, editing: Option<string>, visible: bool)

  /** The row built for a text: unmarked, not editing, displayed. */
  function RowOf(text: string): Row {
    Row(text, false, None, true)
  }

  /** The rows built for a list of texts, in order. */
  function Render(items: seq<string>): seq<Row> {
    seq(|items|, k requires 0 <= k < |items| => RowOf(items[k]))
  }

  class App {
    const store: Storage
    var rows: seq<Row>
    /** The value of the new-todo input. */
    var input: string

    constructor (store: Storage)
      ensures this.store == store && rows == [] && input == ""
    {
      this.store := store;
      rows := [];
      input := "";
    }

    /** getLocalTodos: one row per stored text; nothing when parsing throws. */
    method GetLocalTodos()
      modifies this
      ensures rows == old(rows) + (if old(store.stored).Unparsable? then [] else Render(Read(store.stored).value))
      ensures input == old(input)
    {
      var todos := Read(store.stored);
      if todos.None? {
        return;
      }
      var items := todos.value;
      ghost var before := rows;
      var k := 0;
      while k < |items|
        invariant 0 <= k <= |items|
        invariant rows == before + Render(items[..k])
        invariant input == old(input)
      {
        assert items[..k + 1] == items[..k] + [items[k]];
        rows := rows + [RowOf(items[k])];
        k := k + 1;
      }
      assert items[..k] == items;
    }

    /**
     * addTodo: append a row showing the input exactly as typed (neither
     * trimmed nor rejected when blank) and clear the input. The store is not
     * modified, so the row is lost on reload.
     */
    method AddTodo()
      modifies this
      ensures rows == old(rows) + [Row(old(input), false, None, true)]
      ensures input == ""
    {
      rows := rows + [RowOf(input)];
      input := "";
    }

    /**
     * editCheck: a click outside every row throws before anything changes;
     * otherwise the button decides.
     */
    method EditCheck(i: nat, target: Target)
      modifies this, store
      ensures i >= |old(rows)| || target.Elsewhere? ==> rows == old(rows) && store.stored == old(store.stored)
      ensures i < |old(rows)| && target.TrashButton? ==>
        && store.stored == (if old(store.stored).Unparsable? then old(store.stored)
                            else List(Removed(Read(old(store.stored)).value, old(rows)[i].shown)))
        && rows == (if old(store.stored).Unparsable? then old(rows) else old(rows)[..i] + old(rows)[i + 1..])
      ensures i < |old(rows)| && target.CompleteButton? ==>
        && store.stored == old(store.stored)
        && rows == old(rows)[i := old(rows)[i].(completed := !old(rows)[i].completed)]
      ensures i < |old(rows)| && target.EditButton? ==>
        && store.stored == old(store.stored)
        && rows == if old(rows)[i].editing.Some? then old(rows)
                   else old(rows)[i := old(rows)[i].(editing := Some(old(rows)[i].shown))]
      ensures input == old(input)
    {
      if i >= |rows| {
        return;
      }
      match target
      case TrashButton => Trash(i);
      case CompleteButton => Complete(i);
      case EditButton => BeginEdit(i);
      case Elsewhere =>
    }

    /**
     * The trash button: remove the entry found by the row's shown text, then
     * the row. When parsing throws, the removal listener is never attached
     * and the row stays.
     */
    method Trash(i: nat)
      requires i < |rows|
      modifies this, store
      ensures store.stored == if old(store.stored).Unparsable? then old(store.stored)
                              else List(Removed(Read(old(store.stored)).value, old(rows)[i].shown))
      ensures rows == if old(store.stored).Unparsable? then old(rows) else old(rows)[..i] + old(rows)[i + 1..]
      ensures input == old(input)
    {
      var ok := store.RemoveLocalTodos(rows[i].shown);
      if ok {
        rows := rows[..i] + rows[i + 1..];
      }
    }

    /** The complete button: flip the row's marker; the store is not touched. */
    method Complete(i: nat)
      requires i < |rows|
      modifies this
      ensures rows == old(rows)[i := old(rows)[i].(completed := !old(rows)[i].completed)]
      ensures input == old(input)
    {
      rows := rows[i := rows[i].(completed := !rows[i].completed)];
    }

    /** The edit button: swap in an input holding the shown text, unless the row is already editing. */
    method BeginEdit(i: nat)
      requires i < |rows|
      modifies this
      ensures old(rows)[i].editing.Some? ==> rows == old(rows)
      ensures old(rows)[i].editing.None? ==> rows == old(rows)[i := old(rows)[i].(editing := Some(old(rows)[i].shown))]
      ensures input == old(input)
    {
      if rows[i].editing.Some? {
        return;
      }
      rows := rows[i := rows[i].(editing := Some(rows[i].shown))];
    }

    /** Typing into a row's edit input changes its value. */
    method TypeDraft(i: nat, value: string)
      requires i < |rows| && rows[i].editing.Some?
      modifies this
      ensures rows == old(rows)[i := old(rows)[i].(editing := Some(value))]
      ensures input == old(input)
    {
      rows := rows[i := rows[i].(editing := Some(value))];
    }

    /**
     * saveEdit, on blur or Enter: a non-blank value replaces, trimmed, the
     * first stored entry equal to the row's original text and is shown; a
     * blank one restores the original text without touching the store.
     * When parsing throws, the row is left editing.
     */
    method Commit(i: nat)
      requires i < |rows| && rows[i].editing.Some?
      modifies this, store
      ensures var newText := Trim(old(rows)[i].editing.value);
        var oldText := old(rows)[i].shown;
        if newText == "" then
          rows == old(rows)[i := old(rows)[i].(editing := None)] && store.stored == old(store.stored)
        else if old(store.stored).Unparsable? then
          rows == old(rows) && store.stored == old(store.stored)
        else
          && rows == old(rows)[i := old(rows)[i].(shown := newText, editing := None)]
          && store.stored == if oldText in Read(old(store.stored)).value
                             then List(Replaced(Read(old(store.stored)).value, oldText, newText))
                             else old(store.stored)
      ensures input == old(input)
    {
      var newText := Trim(rows[i].editing.value);
      if newText != "" {
        var ok := store.UpdateLocalTodo(rows[i].shown, newText);
        if ok {
          rows := rows[i := rows[i].(shown := newText, editing := None)];
        }
      } else {
        rows := rows[i := rows[i].(editing := None)];
      }
    }

    /** A key pressed in a row's edit input: only Enter does something, by blurring it, which commits. */
    method KeyDown(i: nat, key: Key)
      requires i < |rows| && rows[i].editing.Some?
      modifies this, store
      ensures !key.Enter? ==> rows == old(rows) && store.stored == old(store.stored)
      ensures key.Enter? ==>
        var newText := Trim(old(rows)[i].editing.value);
        var oldText := old(rows)[i].shown;
        if newText == "" then
          rows == old(rows)[i := old(rows)[i].(editing := None)] && store.stored == old(store.stored)
        else if old(store.stored).Unparsable? then
          rows == old(rows) && store.stored == old(store.stored)
        else
          && rows == old(rows)[i := old(rows)[i].(shown := newText, editing := None)]
          && store.stored == if oldText in Read(old(store.stored)).value
                             then List(Replaced(Read(old(store.stored)).value, oldText, newText))
                             else old(store.stored)
      ensures input == old(input)
    {
      if key.Enter? {
        Commit(i);
      }
    }

    /** filterTodo: set each row's display from the choice and its marker; the store is not touched. */
    method FilterTodo(choice: string)
      modifies this
      ensures |rows| == |old(rows)|
      ensures forall k :: 0 <= k < |rows| ==>
        rows[k] == old(rows)[k].(visible := Displayed(choice, old(rows)[k].completed, old(rows)[k].visible))
      ensures input == old(input)
    {
      var k := 0;
      while k < |rows|
        invariant 0 <= k <= |rows| && |rows| == |old(rows)|
        invariant forall j :: 0 <= j < k ==>
          rows[j] == old(rows)[j].(visible := Displayed(choice, old(rows)[j].completed, old(rows)[j].visible))
        invariant forall j :: k <= j < |rows| ==> rows[j] == old(rows)[j]
        invariant input == old(input)
      {
        rows := rows[k := rows[k].(visible := Displayed(choice, rows[k].completed, rows[k].visible))];
        k := k + 1;
      }
    }
  }
}
