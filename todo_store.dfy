/**
 * The object-record store of the current version of the to-do list
 * (anet/script.js): the key "todos" of localStorage holds a JSON array of
 * `{id, text, completed}` records. Every operation loads the array (with
 * fail-soft decoding and legacy migration), changes it and writes it back.
 *
 * JSON.parse and JSON.stringify are abstracted: the stored value is a `Raw`,
 * already seen through the truthiness tests the decoder applies, and a
 * written array is the `Raw` that a later parse would give back.
 */
module TodoStore {
  import opened Options

  /** An id minted from Date.now() and Math.random(): its decimal clock part is never empty. */
  type FreshId = s: string | s != "" witness "0"

  /**
   * One parsed element of the stored array.
   * `Obj` stands for an object or a non-string primitive: a field is `Some`
   * with its String() form when it is truthy and `None` when it is absent or
   * falsy; `completed` is `!!item.completed`. Reading a field of `Null` throws.
   */
  datatype Entry =
    | Str(s: string)
    | Obj(id: Option<string>, text: Option<string>, completed: bool)
    | Null

  /** What localStorage.getItem("todos") holds, as JSON.parse sees it. */
  datatype Raw =
    | Missing                    // getItem returned null
    | Empty                      // the empty string
    | Malformed                  // JSON.parse throws
    | NonArray                   // parses, but not to an array
    | Array(entries: seq<Entry>)

  /** A task record. */
  datatype Todo = Todo(id: string, text: string, completed: bool)

  /** Every record has a non-empty id, as every record the store hands out does. */
  predicate HasIds(ts: seq<Todo>) {
    forall k :: 0 <= k < |ts| ==> ts[k].id != ""
  }

  /* ---------------- decoding (loadTodos) ---------------- */

  /** The legacy shape: a non-empty array whose first element is a string. */
  predicate IsLegacy(es: seq<Entry>) {
    |es| > 0 && es[0].Str?
  }

  /** The text a legacy migration gives an element (a non-string one is not modelled: see README). */
  function LegacyText(e: Entry): string {
    if e.Str? then e.s else ""
  }

  /** The legacy migration: each element becomes a fresh, incomplete record. */
  function Migrate(es: seq<Entry>, ids: nat -> FreshId): seq<Todo> {
    seq(|es|, k requires 0 <= k < |es| => Todo(ids(k), LegacyText(es[k]), false))
  }

  /** True when some element is null, so that the sanitizing map throws. */
  predicate HasNull(es: seq<Entry>) {
    exists k :: 0 <= k < |es| && es[k].Null?
  }

  /** The sanitizing map applied to one non-null element, with `minted` ready if an id is needed. */
  function Sanitize(e: Entry, minted: FreshId): Todo
    requires !e.Null?
  {
    match e
    case Str(s) => Todo(minted, s, false)
    case Obj(id, text, completed) =>
      // A truthy id whose String() form is empty is treated as falsy.
      Todo(if id.Some? && id.value != "" then id.value else minted, text.GetOr(""), completed)
  }

  /** The sanitizing branch: an array of records, or the caught TypeError when an element is null. */
  function SanitizeAll(es: seq<Entry>, ids: nat -> FreshId): seq<Todo> {
    if HasNull(es) then []
    else seq(|es|, k requires 0 <= k < |es| => Sanitize(es[k], ids(k)))
  }

  /**
   * What loadTodos returns for the stored value `raw`, the k-th minted id
   * being ids(k).
   */
  function Load(raw: Raw, ids: nat -> FreshId): (ts: seq<Todo>)
    ensures !raw.Array? ==> ts == []
    ensures raw.Array? && (IsLegacy(raw.entries) || !HasNull(raw.entries)) ==> |ts| == |raw.entries|
    ensures raw.Array? && !IsLegacy(raw.entries) && HasNull(raw.entries) ==> ts == []
  {
    match raw
    case Array(es) => if IsLegacy(es) then Migrate(es, ids) else SanitizeAll(es, ids)
    case _ => []
  }

  /**
   * What localStorage holds after loadTodos: only a migration writes back,
   * and what it writes loads as the migrated list and is not migrated again.
   */
  function AfterLoad(raw: Raw, ids: nat -> FreshId): (after: Raw)
    ensures after != raw ==> raw.Array? && IsLegacy(raw.entries)
    ensures after.Array? ==> !IsLegacy(after.entries)
    ensures Load(after, ids) == Load(raw, ids)
  {
    if raw.Array? && IsLegacy(raw.entries) then
      var ts := Migrate(raw.entries, ids);
      ReloadAfterSave(ts, ids);
      Array(Encode(ts))
    else raw
  }

  /* ---------------- encoding (saveTodosArray) ---------------- */

  /** How a record reads back once JSON.stringify wrote it: empty strings are falsy. */
  function EncodeTodo(t: Todo): Entry {
    Obj(if t.id == "" then None else Some(t.id), if t.text == "" then None else Some(t.text), t.completed)
  }

  /**
   * The array saveTodosArray writes: one object per record, in order. It is
   * never taken for the legacy shape and holds no null.
   */
  function Encode(ts: seq<Todo>): (es: seq<Entry>)
    ensures |es| == |ts|
    ensures forall k :: 0 <= k < |es| ==> es[k].Obj?
    ensures !IsLegacy(es) && !HasNull(es)
  {
    seq(|ts|, k requires 0 <= k < |ts| => EncodeTodo(ts[k]))
  }

  /* ---------------- the pure steps of the mutations ---------------- */

  predicate HasId(ts: seq<Todo>, id: string) {
    exists k :: 0 <= k < |ts| && ts[k].id == id
  }

  /** The position `findIndex(t => t.id === id)` finds: the first record with that id. */
  function FirstIndex(ts: seq<Todo>, id: string): (k: nat)
    requires HasId(ts, id)
    ensures k < |ts| && ts[k].id == id
    ensures forall j :: 0 <= j < k ==> ts[j].id != id
  {
    if ts[0].id == id then 0
    else
      assert HasId(ts[1..], id) by {
        var k :| 0 <= k < |ts| && ts[k].id == id;
        assert ts[1..][k - 1] == ts[k];
      }
      1 + FirstIndex(ts[1..], id)
  }

  /** `todos.filter(t => t.id !== id)`: the records with another id, in their order. */
  function RemoveById(ts: seq<Todo>, id: string): (r: seq<Todo>)
    ensures forall t :: t in r <==> t in ts && t.id != id
    ensures !HasId(ts, id) ==> r == ts
    ensures |r| <= |ts|
  {
    if ts == [] then []
    else (if ts[0].id != id then [ts[0]] else []) + RemoveById(ts[1..], id)
  }

  /**
   * The record list after `todos[idx].text = newText`, idx being the first
   * match: only that record's text changes.
   */
  function WithText(ts: seq<Todo>, id: string, newText: string): (r: seq<Todo>)
    requires HasId(ts, id)
    ensures |r| == |ts|
    ensures forall j :: 0 <= j < |ts| ==> r[j].id == ts[j].id && r[j].completed == ts[j].completed
    ensures forall j :: 0 <= j < |ts| && r[j].text != ts[j].text ==> j == FirstIndex(ts, id)
    ensures r[FirstIndex(ts, id)].text == newText
  {
    var k := FirstIndex(ts, id);
    ts[k := ts[k].(text := newText)]
  }

  /**
   * The record list after `todos[idx].completed = !!completed`, idx being
   * the first match: only that record's flag changes.
   */
  function WithCompleted(ts: seq<Todo>, id: string, completed: bool): (r: seq<Todo>)
    requires HasId(ts, id)
    ensures |r| == |ts|
    ensures forall j :: 0 <= j < |ts| ==> r[j].id == ts[j].id && r[j].text == ts[j].text
    ensures forall j :: 0 <= j < |ts| && r[j].completed != ts[j].completed ==> j == FirstIndex(ts, id)
    ensures r[FirstIndex(ts, id)].completed == completed
  {
    var k := FirstIndex(ts, id);
    ts[k := ts[k].(completed := completed)]
  }

  /** The completed flag a reload shows for `id`: that of the first record with it. */
  function StoredCompleted(ts: seq<Todo>, id: string): Option<bool> {
    if HasId(ts, id) then Some(ts[FirstIndex(ts, id)].completed) else None
  }

  /** Array.prototype.findIndex with the predicate `t.id === id`. */
  method FindIndex(ts: seq<Todo>, id: string) returns (idx: int)
    ensures idx == -1 <==> !HasId(ts, id)
    ensures idx != -1 ==> 0 <= idx < |ts| && ts[idx].id == id
    ensures idx != -1 ==> forall j :: 0 <= j < idx ==> ts[j].id != id
  {
    var k := 0;
    while k < |ts|
      invariant 0 <= k <= |ts|
      invariant forall j :: 0 <= j < k ==> ts[j].id != id
    {
      if ts[k].id == id {
        return k;
      }
      k := k + 1;
    }
    return -1;
  }

  /* ---------------- the store ---------------- */

  /** The "todos" key of localStorage and the helpers that read and write it. */
  class Store {
    var storage: Raw

    constructor (initial: Raw)
      ensures storage == initial
    {
      storage := initial;
    }

    /** loadTodos: decode what is stored; a legacy array is migrated and written back. */
    method LoadTodos(ids: nat -> FreshId) returns (todos: seq<Todo>)
      modifies this
      ensures todos == Load(old(storage), ids)
      ensures storage == AfterLoad(old(storage), ids)
    {
      todos := Load(storage, ids);
      if storage.Array? && IsLegacy(storage.entries) {
        storage := Array(Encode(todos));
      }
    }

    /** saveTodosArray: overwrite the stored array. */
    method SaveTodosArray(todos: seq<Todo>)
      modifies this
      ensures storage == Array(Encode(todos))
    {
      storage := Array(Encode(todos));
    }

    /** saveLocalTodoObj: append a fresh incomplete record with `text` and return it. */
    method SaveLocalTodoObj(text: string, ids: nat -> FreshId, newId: FreshId) returns (todo: Todo)
      modifies this
      ensures todo == Todo(newId, text, false)
      ensures storage == Array(Encode(Load(old(storage), ids) + [todo]))
    {
      var todos := LoadTodos(ids);
      todo := Todo(newId, text, false);
      todos := todos + [todo];
      SaveTodosArray(todos);
    }

    /** removeLocalTodoById: drop every record with `id`; the result is written back in any case. */
    method RemoveLocalTodoById(id: string, ids: nat -> FreshId)
      modifies this
      ensures storage == Array(Encode(RemoveById(Load(old(storage), ids), id)))
    {
      var todos := LoadTodos(ids);
      todos := RemoveById(todos, id);
      SaveTodosArray(todos);
    }

    /** updateLocalTodoById: set the text of the first record with `id`; nothing is written when there is none. */
    method UpdateLocalTodoById(id: string, newText: string, ids: nat -> FreshId)
      modifies this
      ensures var ts := Load(old(storage), ids);
        storage == if HasId(ts, id) then Array(Encode(WithText(ts, id, newText))) else AfterLoad(old(storage), ids)
    {
      var todos := LoadTodos(ids);
      var idx := FindIndex(todos, id);
      if idx != -1 {
        todos := todos[idx := todos[idx].(text := newText)];
        SaveTodosArray(todos);
      }
    }

    /** toggleCompletedLocalTodoById: set the flag of the first record with `id`; nothing is written when there is none. */
    method ToggleCompletedLocalTodoById(id: string, completed: bool, ids: nat -> FreshId)
      modifies this
      ensures var ts := Load(old(storage), ids);
        storage == if HasId(ts, id) then Array(Encode(WithCompleted(ts, id, completed))) else AfterLoad(old(storage), ids)
    {
      var todos := LoadTodos(ids);
      var idx := FindIndex(todos, id);
      if idx != -1 {
        todos := todos[idx := todos[idx].(completed := completed)];
        SaveTodosArray(todos);
      }
    }
  }

  /* ---------------- what the store promises ---------------- */

  /**
   * loadTodos fails soft: a missing or empty key, unparsable JSON, a value
   * that is not an array, and an array whose sanitizing throws all give the
   * empty list, and none of them writes anything.
   */
  lemma LoadFailSoft(raw: Raw, ids: nat -> FreshId)
    ensures raw.Missing? || raw.Empty? || raw.Malformed? || raw.NonArray? ==> Load(raw, ids) == []
    ensures raw.Array? && !IsLegacy(raw.entries) && HasNull(raw.entries) ==> Load(raw, ids) == []
    ensures !(raw.Array? && IsLegacy(raw.entries)) ==> AfterLoad(raw, ids) == raw
  {
  }

  /**
   * Legacy migration: same length, element k becomes an incomplete record
   * with the k-th minted id and the element's string as text, and the
   * migrated list is what storage holds afterwards.
   */
  lemma MigrationShape(es: seq<Entry>, ids: nat -> FreshId)
    requires IsLegacy(es)
    ensures var ts := Load(Array(es), ids);
      && |ts| == |es|
      && (forall k :: 0 <= k < |es| ==> ts[k].id == ids(k) && !ts[k].completed)
      && (forall k :: 0 <= k < |es| && es[k].Str? ==> ts[k].text == es[k].s)
      && AfterLoad(Array(es), ids) == Array(Encode(ts))
  {
  }

  /**
   * Sanitizing: length and order are kept and storage is not rewritten;
   * strings become incomplete records; objects keep `!!completed`, get ""
   * for a falsy text, and keep a truthy id.
   */
  lemma SanitizeShape(es: seq<Entry>, ids: nat -> FreshId)
    requires !IsLegacy(es) && !HasNull(es)
    ensures var ts := Load(Array(es), ids);
      && |ts| == |es|
      && AfterLoad(Array(es), ids) == Array(es)
      && (forall k :: 0 <= k < |es| && es[k].Str? ==> ts[k].text == es[k].s && !ts[k].completed)
      && (forall k :: 0 <= k < |es| && es[k].Obj? ==> ts[k].completed == es[k].completed)
      && (forall k :: 0 <= k < |es| && es[k].Obj? && es[k].text.None? ==> ts[k].text == "")
      && (forall k :: 0 <= k < |es| && es[k].Obj? && es[k].text.Some? ==> ts[k].text == es[k].text.value)
      && (forall k :: 0 <= k < |es| && es[k].Obj? && es[k].id.Some? && es[k].id.value != "" ==> ts[k].id == es[k].id.value)
  {
    var ts := Load(Array(es), ids);
    forall k | 0 <= k < |es| ensures ts[k] == Sanitize(es[k], ids(k)) {
    }
  }

  /** Every record loadTodos hands out has a non-empty id. */
  lemma LoadHasIds(raw: Raw, ids: nat -> FreshId)
    ensures HasIds(Load(raw, ids))
  {
    var ts := Load(raw, ids);
    forall k | 0 <= k < |ts| ensures ts[k].id != "" {
      if raw.Array? && !IsLegacy(raw.entries) {
        var e := raw.entries[k];
        assert ts[k] == Sanitize(e, ids(k));
      }
    }
  }

  /**
   * saveTodosArray then loadTodos: texts and flags come back position by
   * position, and so does every non-empty id; no id needs minting.
   */
  lemma ReloadFields(ts: seq<Todo>, ids: nat -> FreshId)
    ensures var back := Load(Array(Encode(ts)), ids);
      && |back| == |ts|
      && (forall k :: 0 <= k < |ts| ==> back[k].text == ts[k].text && back[k].completed == ts[k].completed)
      && (forall k :: 0 <= k < |ts| && ts[k].id != "" ==> back[k].id == ts[k].id)
  {
    var es := Encode(ts);
    var back := Load(Array(es), ids);
    assert !IsLegacy(es);
    assert !HasNull(es);
    forall k | 0 <= k < |ts| ensures back[k] == Sanitize(EncodeTodo(ts[k]), ids(k)) {
      assert es[k] == EncodeTodo(ts[k]);
    }
  }

  /** What the store writes, a reload gives back unchanged, whatever ids it has at hand. */
  lemma ReloadAfterSave(ts: seq<Todo>, ids: nat -> FreshId)
    requires HasIds(ts)
    ensures Load(Array(Encode(ts)), ids) == ts
  {
    ReloadFields(ts, ids);
  }

  /**
   * saveLocalTodoObj as a reload sees it: the records already stored, then
   * exactly one new incomplete record at the end.
   */
  lemma AddReload(raw: Raw, ids: nat -> FreshId, ids': nat -> FreshId, text: string, newId: FreshId)
    ensures var ts := Load(raw, ids);
      var back := Load(Array(Encode(ts + [Todo(newId, text, false)])), ids');
      && |back| == |ts| + 1
      && back[..|ts|] == ts
      && back[|ts|] == Todo(newId, text, false)
  {
    var ts := Load(raw, ids);
    LoadHasIds(raw, ids);
    ReloadAfterSave(ts + [Todo(newId, text, false)], ids');
  }

  /** Filtering distributes over concatenation, so the kept records stay in their order. */
  lemma {:induction false} RemoveByIdAppend(a: seq<Todo>, b: seq<Todo>, id: string)
    ensures RemoveById(a + b, id) == RemoveById(a, id) + RemoveById(b, id)
  {
    if a == [] {
      assert a + b == b;
    } else {
      assert (a + b)[1..] == a[1..] + b;
      RemoveByIdAppend(a[1..], b, id);
    }
  }

  /** Filtering leaves no record with the id and keeps every record that has another one, as often as before. */
  lemma {:induction false} RemoveByIdCount(ts: seq<Todo>, id: string, t: Todo)
    ensures multiset(RemoveById(ts, id))[t] == if t.id == id then 0 else multiset(ts)[t]
  {
    if ts != [] {
      assert ts == [ts[0]] + ts[1..];
      RemoveByIdCount(ts[1..], id, t);
    }
  }

  /**
   * removeLocalTodoById as a reload sees it: the stored records without
   * those with `id`, in their order and as often as before; an absent id
   * leaves the list as it was.
   */
  lemma RemoveReload(raw: Raw, ids: nat -> FreshId, ids': nat -> FreshId, id: string)
    ensures var ts := Load(raw, ids);
      var back := Load(Array(Encode(RemoveById(ts, id))), ids');
      && back == RemoveById(ts, id)
      && (forall t :: t in back <==> t in ts && t.id != id)
      && (!HasId(ts, id) ==> back == ts)
  {
    var ts := Load(raw, ids);
    LoadHasIds(raw, ids);
    var r := RemoveById(ts, id);
    assert HasIds(r) by {
      forall k | 0 <= k < |r| ensures r[k].id != "" {
        assert r[k] in ts;
      }
    }
    ReloadAfterSave(r, ids');
  }

  /**
   * updateLocalTodoById as a reload sees it: the edited list comes back
   * as written, and the id now reads back with the new text.
   */
  lemma UpdateReload(ts: seq<Todo>, ids: nat -> FreshId, id: string, newText: string)
    requires HasIds(ts) && HasId(ts, id)
    ensures var back := Load(Array(Encode(WithText(ts, id, newText))), ids);
      && back == WithText(ts, id, newText)
      && HasId(back, id)
      && back[FirstIndex(back, id)].text == newText
  {
    var r := WithText(ts, id, newText);
    var k := FirstIndex(ts, id);
    assert r[k].id == id;
    ReloadAfterSave(r, ids);
    assert FirstIndex(r, id) == k;
  }

  /**
   * toggleCompletedLocalTodoById as a reload sees it: the edited list comes
   * back as written, and the id now reads back with the flag given.
   */
  lemma ToggleReload(ts: seq<Todo>, ids: nat -> FreshId, id: string, completed: bool)
    requires HasIds(ts) && HasId(ts, id)
    ensures var back := Load(Array(Encode(WithCompleted(ts, id, completed))), ids);
      && back == WithCompleted(ts, id, completed)
      && StoredCompleted(back, id) == Some(completed)
  {
    var r := WithCompleted(ts, id, completed);
    var k := FirstIndex(ts, id);
    assert r[k].id == id;
    ReloadAfterSave(r, ids);
    assert FirstIndex(r, id) == k;
  }

  /**
   * Two records added to an empty store, then the first one marked completed:
   * a reload gives both, in insertion order, with only the first completed.
   */
  lemma AddAddToggleScenario(ids: nat -> FreshId, idA: FreshId, idB: FreshId, a: string, b: string)
    ensures var s1 := Array(Encode(Load(Missing, ids) + [Todo(idA, a, false)]));
      var s2 := Array(Encode(Load(s1, ids) + [Todo(idB, b, false)]));
      var ts := Load(s2, ids);
      && HasId(ts, idA)
      && Load(Array(Encode(WithCompleted(ts, idA, true))), ids) == [Todo(idA, a, true), Todo(idB, b, false)]
  {
    var ts1 := [Todo(idA, a, false)];
    assert Load(Missing, ids) + [Todo(idA, a, false)] == ts1;
    ReloadAfterSave(ts1, ids);
    var ts2 := ts1 + [Todo(idB, b, false)];
    ReloadAfterSave(ts2, ids);
    assert ts2[0].id == idA;
    var ts3 := WithCompleted(ts2, idA, true);
    assert FirstIndex(ts2, idA) == 0;
    ReloadAfterSave(ts3, ids);
  }

  /** A record added to an empty store and then removed by its id leaves a reload empty. */
  lemma AddRemoveScenario(ids: nat -> FreshId, id: FreshId, text: string)
    ensures var s1 := Array(Encode(Load(Missing, ids) + [Todo(id, text, false)]));
      Load(Array(Encode(RemoveById(Load(s1, ids), id))), ids) == []
  {
    var ts1 := [Todo(id, text, false)];
    assert Load(Missing, ids) + [Todo(id, text, false)] == ts1;
    ReloadAfterSave(ts1, ids);
    assert RemoveById(ts1, id) == [] + RemoveById([], id);
  }
}
