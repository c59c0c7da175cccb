/**
 * The row controller of the current version (anet/script.js): the rows of
 * the list, built from the store's records, and the handlers behind the add
 * button, the per-row buttons, the edit input and the filter selector.
 * A row is the record it shows plus its UI state; DOM construction is not
 * modelled.
 */
module TodoView {
  import opened Options
  import opened JsText
  import opened Filter
  import opened TodoStore
  import opened Events

  /**
   * A `.todo` row: its `data-id`, the text its `.todo-item` shows, its
   * `completed` marker, the value of its edit input while one is swapped in,
   * and whether its display is not "none".
   */
  datatype Row = Row(id: string, shown: string, completed: bool, editing: Option<string>, visible: bool)

  /** The row built for a record: not editing, displayed. */
  function RowOf(t: Todo): Row {
    Row(t.id, t.text, t.completed, None, true)
  }

  /** The rows built for a list of records, in order. */
  function Render(ts: seq<Todo>): seq<Row> {
    seq(|ts|, k requires 0 <= k < |ts| => RowOf(ts[k]))
  }

  class App {
    const store: Store
    var rows: seq<Row>
    /** The value of the new-todo input. */
    var input: string

    constructor (store: Store)
      ensures this.store == store && rows == [] && input == ""
    {
      this.store := store;
      rows := [];
      input := "";
    }

    /** getLocalTodos: append one row per loaded record. */
    method GetLocalTodos(ids: nat -> FreshId)
      modifies this, store
      ensures rows == old(rows) + Render(Load(old(store.storage), ids))
      ensures store.storage == AfterLoad(old(store.storage), ids)
      ensures input == old(input)
    {
      var todos := store.LoadTodos(ids);
      ghost var before := rows;
      var k := 0;
      while k < |todos|
        invariant 0 <= k <= |todos|
        invariant rows == before + Render(todos[..k])
        invariant store.storage == AfterLoad(old(store.storage), ids)
        invariant input == old(input)
      {
        assert todos[..k + 1] == todos[..k] + [todos[k]];
        rows := rows + [RowOf(todos[k])];
        k := k + 1;
      }
      assert todos[..k] == todos;
    }

    /**
     * addTodo: a blank input stores nothing and changes nothing; otherwise
     * the trimmed text is stored as a new record, its row is appended and
     * the input is cleared.
     */
    method AddTodo(ids: nat -> FreshId, newId: FreshId)
      modifies this, store
      ensures var text := Trim(old(input));
        if text == "" then
          rows == old(rows) && input == old(input) && store.storage == old(store.storage)
        else
          && rows == old(rows) + [Row(newId, text, false, None, true)]
          && input == ""
          && store.storage == Array(Encode(Load(old(store.storage), ids) + [Todo(newId, text, false)]))
    {
      var text := Trim(input);
      if text == "" {
        return;
      }
      var todo := store.SaveLocalTodoObj(text, ids, newId);
      rows := rows + [RowOf(todo)];
      input := "";
    }

    /** editCheck: a click outside every row does nothing; otherwise the button decides. */
    method EditCheck(i: nat, target: Target, ids: nat -> FreshId)
      modifies this, store
      ensures i >= |old(rows)| || target.Elsewhere? ==> rows == old(rows) && store.storage == old(store.storage)
      ensures i < |old(rows)| && target.TrashButton? ==>
        && rows == old(rows)[..i] + old(rows)[i + 1..]
        && store.storage == Array(Encode(RemoveById(Load(old(store.storage), ids), old(rows)[i].id)))
      ensures i < |old(rows)| && target.CompleteButton? ==>
        && rows == old(rows)[i := old(rows)[i].(completed := !old(rows)[i].completed)]
        && (var ts := Load(old(store.storage), ids);
            store.storage == if HasId(ts, rows[i].id) then Array(Encode(WithCompleted(ts, rows[i].id, rows[i].completed)))
                             else AfterLoad(old(store.storage), ids))
        && (HasId(Load(old(store.storage), ids), rows[i].id) ==>
              StoredCompleted(Load(store.storage, ids), rows[i].id) == Some(rows[i].completed))
      ensures i < |old(rows)| && target.EditButton? ==>
        && store.storage == old(store.storage)
        && rows == if old(rows)[i].editing.Some? then old(rows)
                   else old(rows)[i := old(rows)[i].(editing := Some(old(rows)[i].shown))]
      ensures input == old(input)
    {
      if i >= |rows| {
        return;
      }
      match target
      case TrashButton => Trash(i, ids);
      case CompleteButton => Complete(i, ids);
      case EditButton => BeginEdit(i);
      case Elsewhere =>
    }

    /** The trash button: remove the record by id and the row (at once: the transition is not modelled). */
    method Trash(i: nat, ids: nat -> FreshId)
      requires i < |rows|
      modifies this, store
      ensures rows == old(rows)[..i] + old(rows)[i + 1..]
      ensures store.storage == Array(Encode(RemoveById(Load(old(store.storage), ids), old(rows)[i].id)))
      ensures input == old(input)
    {
      store.RemoveLocalTodoById(rows[i].id, ids);
      rows := rows[..i] + rows[i + 1..];
    }

    /**
     * The complete button: flip the row's marker and store the new marker
     * under the row's id. When a record with that id is loaded, a reload
     * then shows exactly the marker's state for it.
     */
    method Complete(i: nat, ids: nat -> FreshId)
      requires i < |rows|
      modifies this, store
      ensures rows == old(rows)[i := old(rows)[i].(completed := !old(rows)[i].completed)]
      ensures var ts := Load(old(store.storage), ids);
        store.storage == if HasId(ts, rows[i].id) then Array(Encode(WithCompleted(ts, rows[i].id, rows[i].completed)))
                         else AfterLoad(old(store.storage), ids)
      ensures HasId(Load(old(store.storage), ids), rows[i].id) ==>
        StoredCompleted(Load(store.storage, ids), rows[i].id) == Some(rows[i].completed)
      ensures input == old(input)
    {
      ghost var ts := Load(store.storage, ids);
      var row := rows[i].(completed := !rows[i].completed);
      rows := rows[i := row];
      store.ToggleCompletedLocalTodoById(row.id, row.completed, ids);
      if HasId(ts, row.id) {
        LoadHasIds(old(store.storage), ids);
        ToggleReload(ts, ids, row.id, row.completed);
      }
    }

    /** The edit button: swap in an input holding the shown text, unless the row is already editing. */
    method BeginEdit(i: nat)
      requires i < |rows|
      modifies this
      ensures old(rows)[i].editing.Some? ==> rows == old(rows)
      ensures old(rows)[i].editing.None? ==> rows == old(rows)[i := old(rows)[i].(editing := Some(old(rows)[i].shown))]
      ensures input == old(input)
    {
      if rows[i].editing.Some? {
        return;
      }
      rows := rows[i := rows[i].(editing := Some(rows[i].shown))];
    }

    /** Typing into a row's edit input changes its value. */
    method TypeDraft(i: nat, value: string)
      requires i < |rows| && rows[i].editing.Some?
      modifies this
      ensures rows == old(rows)[i := old(rows)[i].(editing := Some(value))]
      ensures input == old(input)
    {
      rows := rows[i := rows[i].(editing := Some(value))];
    }

    /**
     * saveEdit, on blur or Enter: a non-blank value is stored, trimmed, under
     * the row's id and shown; a blank one restores the original text without
     * touching the store. Either way the row stops editing.
     */
    method Commit(i: nat, ids: nat -> FreshId)
      requires i < |rows| && rows[i].editing.Some?
      modifies this, store
      ensures var newText := Trim(old(rows)[i].editing.value);
        if newText == "" then
          rows == old(rows)[i := old(rows)[i].(editing := None)] && store.storage == old(store.storage)
        else
          var ts := Load(old(store.storage), ids);
          && rows == old(rows)[i := old(rows)[i].(shown := newText, editing := None)]
          && store.storage == if HasId(ts, rows[i].id) then Array(Encode(WithText(ts, rows[i].id, newText)))
                              else AfterLoad(old(store.storage), ids)
      ensures input == old(input)
    {
      var newText := Trim(rows[i].editing.value);
      if newText != "" {
        store.UpdateLocalTodoById(rows[i].id, newText, ids);
        rows := rows[i := rows[i].(shown := newText, editing := None)];
      } else {
        rows := rows[i := rows[i].(editing := None)];
      }
    }

    /** Escape: put the original text back; the store is not called. */
    method Cancel(i: nat)
      requires i < |rows| && rows[i].editing.Some?
      modifies this
      ensures rows == old(rows)[i := old(rows)[i].(editing := None)]
      ensures input == old(input)
    {
      rows := rows[i := rows[i].(editing := None)];
    }

    /** A key pressed in a row's edit input: Enter blurs it, which commits; Escape cancels. */
    method KeyDown(i: nat, key: Key, ids: nat -> FreshId)
      requires i < |rows| && rows[i].editing.Some?
      modifies this, store
      ensures key.OtherKey? ==> rows == old(rows) && store.storage == old(store.storage)
      ensures key.Escape? ==> rows == old(rows)[i := old(rows)[i].(editing := None)] && store.storage == old(store.storage)
      ensures key.Enter? ==>
        var newText := Trim(old(rows)[i].editing.value);
        if newText == "" then
          rows == old(rows)[i := old(rows)[i].(editing := None)] && store.storage == old(store.storage)
        else
          var ts := Load(old(store.storage), ids);
          && rows == old(rows)[i := old(rows)[i].(shown := newText, editing := None)]
          && store.storage == if HasId(ts, rows[i].id) then Array(Encode(WithText(ts, rows[i].id, newText)))
                              else AfterLoad(old(store.storage), ids)
      ensures input == old(input)
    {
      match key
      case Enter => Commit(i, ids);
      case Escape => Cancel(i);
      case OtherKey =>
    }

    /** filterTodo: set each row's display from the choice and its marker; the store is not touched. */
    method FilterTodo(choice: string)
      modifies this
      ensures |rows| == |old(rows)|
      ensures forall k :: 0 <= k < |rows| ==>
        rows[k] == old(rows)[k].(visible := Displayed(choice, old(rows)[k].completed, old(rows)[k].visible))
      ensures input == old(input)
    {
      var k := 0;
      while k < |rows|
        invariant 0 <= k <= |rows| && |rows| == |old(rows)|
        invariant forall j :: 0 <= j < k ==>
          rows[j] == old(rows)[j].(visible := Displayed(choice, old(rows)[j].completed, old(rows)[j].visible))
        invariant forall j :: k <= j < |rows| ==> rows[j] == old(rows)[j]
        invariant input == old(input)
      {
        rows := rows[k := rows[k].(visible := Displayed(choice, rows[k].completed, rows[k].visible))];
        k := k + 1;
      }
    }
  }
}
