/**
 * The to-do records of the `App` component and its two list updates:
 * `addTodo` appends a record, `toggleTodo` maps over the list and negates
 * `isComplete` on every record with the given id.
 */
module Todos {

  /** A rendering hint chosen at random by the caller; no rule depends on it. */
  datatype Position = Position(x: real, y: real, z: real)

  /** `{id, text, position, isComplete}`; `id` is the clock reading in milliseconds. */
  datatype Todo = Todo(id: int, text: string, position: Position, isComplete: bool)

  /** `[...todos, newTodo]` with `newTodo = {id, text, position, isComplete: false}`. */
  function Added(todos: seq<Todo>, id: int, text: string, position: Position): (r: seq<Todo>)
    ensures |r| == |todos| + 1
    ensures r[..|todos|] == todos
    ensures r[|todos|].id == id && r[|todos|].text == text
    ensures r[|todos|].position == position && !r[|todos|].isComplete
  {
    todos + [Todo(id, text, position, false)]
  }

  /** `todo.id === id ? { ...todo, isComplete: !todo.isComplete } : todo`. */
  function Flip(t: Todo, id: int): (r: Todo)
    ensures r.id == t.id && r.text == t.text && r.position == t.position
    ensures r.isComplete != t.isComplete <==> t.id == id
  {
    if t.id == id then t.(isComplete := !t.isComplete) else t
  }

  /** `todos.map(...)` with `Flip`. */
  function Toggled(todos: seq<Todo>, id: int): (r: seq<Todo>)
    ensures |r| == |todos|
    ensures forall i :: 0 <= i < |todos| ==>
      r[i].id == todos[i].id && r[i].text == todos[i].text && r[i].position == todos[i].position
    ensures forall i :: 0 <= i < |todos| ==>
      r[i].isComplete == (if todos[i].id == id then !todos[i].isComplete else todos[i].isComplete)
    ensures forall i :: 0 <= i < |todos| && todos[i].id != id ==> r[i] == todos[i]
  {
    if todos == [] then [] else [Flip(todos[0], id)] + Toggled(todos[1..], id)
  }

  predicate HasId(todos: seq<Todo>, id: int) {
    exists i :: 0 <= i < |todos| && todos[i].id == id
  }

  /** Toggling an id that no record carries returns the list unchanged. */
  lemma ToggleUnknownId(todos: seq<Todo>, id: int)
    requires !HasId(todos, id)
    ensures Toggled(todos, id) == todos
  {
  }

  /** Toggling the same id twice restores the original list. */
  lemma ToggleInvolution(todos: seq<Todo>, id: int)
    ensures Toggled(Toggled(todos, id), id) == todos
  {
  }

  /** Toggles of two ids do not interfere with each other. */
  lemma ToggleCommutes(todos: seq<Todo>, a: int, b: int)
    ensures Toggled(Toggled(todos, a), b) == Toggled(Toggled(todos, b), a)
  {
  }

  ghost predicate UniqueIds(todos: seq<Todo>) {
    forall i, j :: 0 <= i < j < |todos| ==> todos[i].id != todos[j].id
  }

  ghost predicate IdsBelow(todos: seq<Todo>, bound: int) {
    forall i :: 0 <= i < |todos| ==> todos[i].id < bound
  }

  /** With ids unique, toggling the id of record k changes that record alone. */
  lemma ToggleExactlyOne(todos: seq<Todo>, k: nat)
    requires UniqueIds(todos) && k < |todos|
    ensures Toggled(todos, todos[k].id) == todos[k := todos[k].(isComplete := !todos[k].isComplete)]
  {
  }

  /** Toggling changes record k alone exactly when record k is the only carrier of its id. */
  lemma ToggleSingleCarrier(todos: seq<Todo>, k: nat)
    requires k < |todos|
    ensures Toggled(todos, todos[k].id) == todos[k := todos[k].(isComplete := !todos[k].isComplete)]
      <==> forall i :: 0 <= i < |todos| && todos[i].id == todos[k].id ==> i == k
  {
    var r := Toggled(todos, todos[k].id);
    var u := todos[k := todos[k].(isComplete := !todos[k].isComplete)];
    if r == u {
      forall i | 0 <= i < |todos| && todos[i].id == todos[k].id ensures i == k {
        assert r[i].isComplete != todos[i].isComplete;
      }
    }
  }

  /** Toggling keeps every id where it was, so uniqueness survives. */
  lemma ToggleKeepsUniqueIds(todos: seq<Todo>, id: int)
    requires UniqueIds(todos)
    ensures UniqueIds(Toggled(todos, id))
  {
  }

  /** A clock reading later than every existing id keeps the ids unique. */
  lemma AddKeepsUniqueIds(todos: seq<Todo>, now: int, text: string, position: Position)
    requires UniqueIds(todos) && IdsBelow(todos, now)
    ensures UniqueIds(Added(todos, now, text, position))
    ensures IdsBelow(Added(todos, now, text, position), now + 1)
  {
  }

  /** On a list with unique ids, an addition keeps them unique exactly when its id is new. */
  lemma AddUniqueExactly(todos: seq<Todo>, now: int, text: string, position: Position)
    requires UniqueIds(todos)
    ensures UniqueIds(Added(todos, now, text, position)) <==> !HasId(todos, now)
  {
    var r := Added(todos, now, text, position);
    if HasId(todos, now) {
      var i :| 0 <= i < |todos| && todos[i].id == now;
      assert r[i].id == r[|todos|].id;
    }
  }

  /** Two additions within the same millisecond produce equal ids. */
  lemma SameMillisecondCollides(now: int, a: string, b: string, p: Position, q: Position)
    ensures !UniqueIds(Added(Added([], now, a, p), now, b, q))
  {
  }
}
