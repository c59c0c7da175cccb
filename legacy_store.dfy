/**
 * The string store of the older version of the to-do list (Anet/script.js):
 * the key "todos" of localStorage holds a JSON array of the texts
 * themselves. Entries are found by value with indexOf, removed with splice
 * and replaced by assignment, and the whole array is written back.
 */
module LegacyStore {
  import opened Options

  /** What localStorage.getItem("todos") holds, as JSON.parse sees it. */
  datatype Stored =
    | Missing                    // getItem returned null
    | Unparsable                 // JSON.parse throws
    | List(items: seq<string>)

  /**
   * The array the helpers work on: a missing key reads as [] (by the explicit
   * null test, and in updateLocalTodo by `JSON.parse(null) || []`); None when
   * JSON.parse throws, which aborts the calling handler.
   */
  function Read(s: Stored): (r: Option<seq<string>>)
    ensures s.Missing? ==> r == Some([])
    ensures r.None? <==> s.Unparsable?
  {
    match s
    case Missing => Some([])
    case Unparsable => None
    case List(items) => Some(items)
  }

  /** Array.prototype.indexOf: the first position holding `x`, or -1. */
  function IndexOf(items: seq<string>, x: string): (idx: int)
    ensures -1 <= idx < |items|
    ensures idx == -1 <==> x !in items
    ensures idx != -1 ==> items[idx] == x
    ensures forall j :: 0 <= j < idx ==> items[j] != x
  {
    if items == [] then -1
    else if items[0] == x then 0
    else
      var r := IndexOf(items[1..], x);
      if r == -1 then -1 else r + 1
  }

  /**
   * Array.prototype.splice(start, 1): a negative start counts from the end
   * (clamped to 0), a start past the end is clamped to the length, and the
   * element there, if any, is removed.
   */
  function SpliceOne(items: seq<string>, start: int): (r: seq<string>)
    ensures items == [] ==> r == []
    ensures 0 <= start < |items| ==> r == items[..start] + items[start + 1..]
    ensures -|items| <= start < 0 ==> r == items[..|items| + start] + items[|items| + start + 1..]
    ensures start < -|items| && items != [] ==> r == items[1..]
    ensures start >= |items| ==> r == items
  {
    var from := if start < 0 then (if |items| + start < 0 then 0 else |items| + start)
                else (if start > |items| then |items| else start);
    if from < |items| then items[..from] + items[from + 1..] else items
  }

  /** The array removeLocalTodos writes for the text `text`. */
  function Removed(items: seq<string>, text: string): (r: seq<string>)
    ensures text in items ==> |r| == |items| - 1 && r == items[..IndexOf(items, text)] + items[IndexOf(items, text) + 1..]
    ensures text !in items && items != [] ==> r == items[..|items| - 1]
    ensures items == [] ==> r == []
  {
    SpliceOne(items, IndexOf(items, text))
  }

  /**
   * A text that is stored is removed at its first occurrence; the other
   * entries keep their order.
   */
  lemma RemovedPresent(items: seq<string>, text: string)
    requires text in items
    ensures var k := IndexOf(items, text);
      Removed(items, text) == items[..k] + items[k + 1..]
  {
  }

  /** A text that is stored is removed exactly once, and no other entry is lost or gained. */
  lemma RemovedOnce(items: seq<string>, text: string)
    requires text in items
    ensures multiset(Removed(items, text)) == multiset(items) - multiset{text}
  {
    var k := IndexOf(items, text);
    RemovedPresent(items, text);
    assert items == items[..k] + [text] + items[k + 1..];
  }

  /** A text that is not stored makes indexOf give -1, and splice(-1, 1) drops the last entry. */
  lemma RemovedAbsent(items: seq<string>, text: string)
    requires text !in items && items != []
    ensures Removed(items, text) == items[..|items| - 1]
  {
  }

  /** On a non-empty list removal always shortens it by exactly one; on [] it does nothing. */
  lemma RemovedLength(items: seq<string>, text: string)
    ensures items == [] ==> Removed(items, text) == []
    ensures items != [] ==> |Removed(items, text)| == |items| - 1
  {
  }

  /** The array updateLocalTodo writes: the first entry equal to `oldText` replaced. */
  function Replaced(items: seq<string>, oldText: string, newText: string): (r: seq<string>)
    requires oldText in items
    ensures |r| == |items|
    ensures r[IndexOf(items, oldText)] == newText
    ensures forall j :: 0 <= j < |items| && j != IndexOf(items, oldText) ==> r[j] == items[j]
  {
    items[IndexOf(items, oldText) := newText]
  }

  /** Replacement changes the first occurrence of `oldText` and no other entry. */
  lemma ReplacedSpec(items: seq<string>, oldText: string, newText: string)
    requires oldText in items
    ensures var r := Replaced(items, oldText, newText);
      && |r| == |items|
      && (exists k :: (0 <= k < |items| && items[k] == oldText && r[k] == newText
                       && (forall j :: 0 <= j < k ==> items[j] != oldText)
                       && (forall j :: 0 <= j < |items| && j != k ==> r[j] == items[j])))
  {
    var k := IndexOf(items, oldText);
    assert items[k] == oldText;
  }

  /** The "todos" key of localStorage and the helpers that read and write it. */
  class Storage {
    var stored: Stored

    constructor (initial: Stored)
      ensures stored == initial
    {
      stored := initial;
    }

    /** saveLocalTodos: append `todo`; `ok` is false when parsing threw and nothing was written. */
    method SaveLocalTodos(todo: string) returns (ok: bool)
      modifies this
      ensures ok <==> !old(stored).Unparsable?
      ensures stored == if ok then List(Read(old(stored)).value + [todo]) else old(stored)
    {
      var todos := Read(stored);
      if todos.None? {
        return false;
      }
      stored := List(todos.value + [todo]);
      return true;
    }

    /**
     * removeLocalTodos: splice out the entry at indexOf(text), which is the
     * last entry when `text` is absent; the result is written in any case.
     */
    method RemoveLocalTodos(text: string) returns (ok: bool)
      modifies this
      ensures ok <==> !old(stored).Unparsable?
      ensures stored == if ok then List(Removed(Read(old(stored)).value, text)) else old(stored)
    {
      var todos := Read(stored);
      if todos.None? {
        return false;
      }
      var items := todos.value;
      var index := IndexOf(items, text);
      items := SpliceOne(items, index);
      stored := List(items);
      return true;
    }

    /** updateLocalTodo: replace the first entry equal to `oldText`; nothing is written when there is none. */
    method UpdateLocalTodo(oldText: string, newText: string) returns (ok: bool)
      modifies this
      ensures ok <==> !old(stored).Unparsable?
      ensures stored == if ok && oldText in Read(old(stored)).value
                        then List(Replaced(Read(old(stored)).value, oldText, newText))
                        else old(stored)
    {
      var todos := Read(stored);
      if todos.None? {
        return false;
      }
      var items := todos.value;
      var index := IndexOf(items, oldText);
      if index != -1 {
        items := items[index := newText];
        stored := List(items);
      }
      return true;
    }
  }
}
