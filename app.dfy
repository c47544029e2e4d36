/**
 * The state of the `App` component, `todos` and `transcript`, and the
 * event handlers that change it.  Each transcript update runs the
 * voice-command effect to completion before the next event.
 */
module AppState {
  import opened Wrappers
  import opened JsString
  import opened Todos
  import opened Voice

  /** A snapshot of the component's two pieces of state. */
  datatype State = State(todos: seq<Todo>, transcript: string)

  const Initial := State([], "")

  /**
   * One run of the effect on the current transcript, given the clock
   * reading and the position `addTodo` would draw.
   */
  function Effect(s: State, now: int, position: Position): (r: State)
    ensures r == s || (r.transcript == "" && |r.todos| == |s.todos| + 1 && r.todos[..|s.todos|] == s.todos)
  {
    match Command(s.transcript)
    case None => s
    case Some(text) => State(Added(s.todos, now, text, position), "")
  }

  /** Without the trigger in the lower-cased transcript, the effect changes nothing. */
  lemma NoTriggerNoChange(s: State, now: int, position: Position)
    requires !Triggered(s.transcript)
    ensures Effect(s, now, position) == s
  {
  }

  /** A trigger with nothing after trimming changes nothing, not even the transcript. */
  lemma EmptyCandidateNoChange(s: State, now: int, position: Position)
    requires Candidate(s.transcript) == []
    ensures Effect(s, now, position) == s
  {
  }

  /**
   * A dispatch appends exactly one record, with the candidate text, the
   * clock reading as id and `isComplete` false, and clears the transcript.
   */
  lemma DispatchAppendsOne(s: State, now: int, position: Position)
    requires Triggered(s.transcript) && Candidate(s.transcript) != []
    ensures var r := Effect(s, now, position);
      |r.todos| == |s.todos| + 1 && r.todos[..|s.todos|] == s.todos
      && r.todos[|s.todos|] == Todo(now, Candidate(s.transcript), position, false)
      && r.transcript == ""
  {
  }

  /**
   * Running the effect again on the state it produced changes nothing, at
   * any clock reading and position: a command is never dispatched twice.
   */
  lemma EffectSettles(s: State, now: int, position: Position, now': int, elsewhere: Position)
    ensures Effect(Effect(s, now, position), now', elsewhere) == Effect(s, now, position)
  {
  }

  /** A clock that reads later than every existing id keeps ids unique through the effect. */
  lemma EffectKeepsUniqueIds(s: State, now: int, position: Position)
    requires UniqueIds(s.todos) && IdsBelow(s.todos, now)
    ensures UniqueIds(Effect(s, now, position).todos)
    ensures IdsBelow(Effect(s, now, position).todos, now + 1)
  {
    if Command(s.transcript).Some? {
      AddKeepsUniqueIds(s.todos, now, Command(s.transcript).value, position);
    }
  }

  /** The `App` component: its state and the handlers it wires up. */
  class App {
    var todos: seq<Todo>
    var transcript: string

    function Snapshot(): State
      reads this
    {
      State(todos, transcript)
    }

    /** `useState([])`, with the speech service's transcript initially empty. */
    constructor ()
      ensures Snapshot() == Initial
    {
      todos := [];
      transcript := "";
    }

    /** `addTodo(text)`, with `Date.now()` read as `now`. */
    method AddTodo(text: string, now: int, position: Position)
      modifies this
      ensures todos == Added(old(todos), now, text, position)
      ensures transcript == old(transcript)
    {
      todos := todos + [Todo(now, text, position, false)];
    }

    /** `toggleTodo(id)`, the click handler of every rendered item. */
    method ToggleTodo(id: int)
      modifies this
      ensures todos == Toggled(old(todos), id)
      ensures transcript == old(transcript)
    {
      todos := Toggled(todos, id);
    }

    /** `resetTranscript()` of the speech service. */
    method ResetTranscript()
      modifies this
      ensures transcript == ""
      ensures todos == old(todos)
    {
      transcript := "";
    }

    /** The body of the effect that watches `transcript`. */
    method TranscriptEffect(now: int, position: Position)
      modifies this
      ensures Snapshot() == Effect(old(Snapshot()), now, position)
    {
      if Triggered(transcript) {
        var todoText := Candidate(transcript);
        if todoText != [] {
          AddTodo(todoText, now, position);
          ResetTranscript();
        }
      }
    }

    /**
     * The speech service delivers a transcript.  The effect depends on
     * `transcript` alone, so it runs only when the value changed.
     */
    method Hear(heard: string, now: int, position: Position)
      modifies this
      ensures heard == old(transcript) ==> Snapshot() == old(Snapshot())
      ensures heard != old(transcript) ==>
        Snapshot() == Effect(State(old(todos), heard), now, position)
    {
      if heard != transcript {
        transcript := heard;
        TranscriptEffect(now, position);
      }
    }
  }

  /** A session: a bare trigger is ignored, a full command adds one item, a click completes it. */
  method Session(now: int, p: Position, q: Position)
  {
    var app := new App();
    BareTrigger("Add todo   ");
    app.Hear("Add todo   ", now, p);
    assert app.todos == [] && app.transcript == "Add todo   ";
    UppercaseTrigger("ADD TODO Walk Dog");
    app.Hear("ADD TODO Walk Dog", now + 1, q);
    assert app.todos == [Todo(now + 1, "walk dog", q, false)] && app.transcript == "";
    app.ToggleTodo(now + 1);
    assert app.todos == [Todo(now + 1, "walk dog", q, true)];
  }
}
