# VoiceCommands: a verified model of the to-do core

VoiceCommands is a single React component, `App` (`src/App.jsx`), that draws
to-do items as spheres in a 3D scene. Items are added by voice ("add todo …")
and completed by clicking. Its logic is two pieces of state and three
updates:

- `todos`, a list of records `{id, text, position, isComplete}`;
- `transcript`, the text the speech-recognition service has heard since its
  last reset;
- an effect that runs on every new transcript. It lower-cases the transcript.
  If the result contains `"add todo"`, it removes the first occurrence, trims
  what is left, and, when that is non-empty, calls `addTodo` with it and
  resets the transcript;
- `addTodo(text)`, which appends a record whose id is the clock reading and
  whose `isComplete` is `false`;
- `toggleTodo(id)`, which maps over the list and negates `isComplete` on
  every record carrying `id`.

The model has five modules:

- `Wrappers` (wrappers.dfy): `Option`.
- `JsString` (jsstring.dfy): the JavaScript string operations the effect
  uses. These are `toLowerCase` (ASCII), `includes`/`indexOf`,
  `replace(pat, '')` and `trim`, with the ECMAScript whitespace set.
- `Todos` (todos.dfy): the `Todo` record, `Added` (`[...todos, newTodo]`),
  `Toggled` (the `todos.map`), and lemmas on ids, order and involution.
- `Voice` (voice.dfy): the trigger phrase, the candidate text, the command
  the effect dispatches, and worked examples.
- `AppState` (app.dfy): a snapshot `State`, `Effect` (one run of the
  effect as a function), and the class `App`. Its fields `todos` and
  `transcript` are updated by `AddTodo`, `ToggleTodo`, `ResetTranscript`,
  `TranscriptEffect` and `Hear`. Each method's `ensures` ties the new state
  to the functions above.

Four behaviours of the code are easy to misread:

- Text before the trigger stays in the command text:
  `"please add todo buy milk"` gives `"please  buy milk"` (two spaces), not
  `"buy milk"`.
- The command text is not case-preserving: `"ADD TODO Walk Dog"` gives
  `"walk dog"`, not `"Walk Dog"`.
- Ids are clock readings, and the code does not make them unique. Two
  additions in the same millisecond collide (`SameMillisecondCollides`).
  An addition keeps unique ids unique exactly when the clock reading is not
  already an id (`AddUniqueExactly`); a clock that reads later than every
  existing id is one way to ensure it (`AddKeepsUniqueIds`,
  `EffectKeepsUniqueIds`).
- `toggleTodo` flips every record with the id, not exactly one. Toggling the
  id of a record changes that record alone exactly when no other record
  carries its id (`ToggleSingleCarrier`); unique ids are enough
  (`ToggleExactlyOne`).

The clock (`Date.now()`) and the random position are parameters of the
operations that use them. The speech service becomes the `Hear` method,
which delivers a transcript, and `ResetTranscript`, which sets it to `""`.

## Model

| member | source | states |
|---|---|---|
| `JsString.Lower` | src/App.jsx:84-85 | the lower-cased string has the input's length, sends every ASCII capital `A`–`Z` to its own small letter `a`–`z`, keeps every other character, and so holds no capital |
| `JsString.LowerFixesExactlyLowercase` | src/App.jsx:85 | lower-casing leaves a string unchanged exactly when it holds no capital letter |
| `JsString.LowerIdempotent` | src/App.jsx:85 | lower-casing twice is lower-casing once |
| `JsString.IndexFrom` | src/App.jsx:84 | the result is an occurrence of the pattern at or after the start, with none between the start and it; None means no occurrence at or after the start |
| `JsString.Includes` | src/App.jsx:84 | holds exactly when the pattern occurs somewhere in the string |
| `JsString.IndexOf` | src/App.jsx:84 | Some exactly when the pattern occurs somewhere; the value is an occurrence and no smaller index is one |
| `JsString.RemoveFirst` | src/App.jsx:85 | without an occurrence the string is unchanged; with one, exactly the pattern's length is removed; no capital letter is introduced |
| `JsString.RemoveFirstSplit` | src/App.jsx:85 | for `a + pat + b` with no occurrence starting inside `a`, the result is `a + b` (text before the first occurrence is kept) |
| `JsString.Trim` | src/App.jsx:85 | the result is a slice of the input with only whitespace before and after it, has no whitespace at either end, is empty exactly when the input is all whitespace, and keeps a capital-free input capital-free |
| `JsString.TrimUnique` | src/App.jsx:85 | whitespace, a middle without whitespace at its ends, whitespace: trimming returns exactly the middle |
| `JsString.TrimIdempotent` | src/App.jsx:85 | trimming twice is trimming once |
| `Voice.Triggered` | src/App.jsx:84 | holds exactly when some eight consecutive characters of the transcript spell `"add todo"` in any mix of ASCII case |
| `Voice.TriggerAtLower` | src/App.jsx:84 | the trigger occurs at a position of the lower-cased transcript exactly when the transcript's characters there lower-case to the trigger |
| `Voice.Candidate` | src/App.jsx:85 | the candidate text holds no capital letter, has no whitespace at either end and is no longer than the transcript |
| `Voice.Command` | src/App.jsx:84-89 | a command is dispatched exactly when the lower-cased transcript contains the trigger and the candidate is non-empty; it carries the candidate, which is non-empty, capital-free and trimmed |
| `Voice.CaseInsensitive` | src/App.jsx:84-85 | transcripts that differ only in letter case dispatch the same command |
| `Voice.NoTriggerNoCommand` | src/App.jsx:84 | a transcript whose lower-cased form has no trigger occurrence dispatches nothing |
| `Voice.CandidateKeepsPrefix` | src/App.jsx:85 | when the lower-cased transcript is `a`, the trigger, then `b`, with no earlier occurrence, the candidate is `a + b` trimmed |
| `Voice.CommandFromParts` | src/App.jsx:84-89 | with that split and `a + b` as whitespace, a trimmed middle `m`, whitespace: the candidate is `m`, and the command is `m`, or nothing when `m` is empty |
| `Voice.BlankPayloadNoCommand` | src/App.jsx:86 | the trigger with only whitespace before and after it dispatches nothing |
| `Voice.EmptyTranscriptNoCommand` | src/App.jsx:84-88 | the empty transcript left by a reset dispatches nothing |
| `Voice.PleaseAddTodoBuyMilk` | src/App.jsx:84-87 | `"please add todo buy milk"` dispatches `"please  buy milk"` |
| `Voice.UppercaseTrigger` | src/App.jsx:84-87 | `"ADD TODO Walk Dog"` dispatches `"walk dog"` |
| `Voice.BareTrigger` | src/App.jsx:86 | `"add todo"` and `"Add todo   "` dispatch nothing |
| `Voice.NoTriggerExample` | src/App.jsx:84 | `"buy milk"` dispatches nothing |
| `Todos.Added` | src/App.jsx:93-104 | the list grows by one, the earlier records are unchanged and in order, and the last has the given id, text and position and is not complete |
| `Todos.Flip` | src/App.jsx:109 | id, text and position are kept; `isComplete` changes exactly when the record carries the id |
| `Todos.Toggled` | src/App.jsx:107-110 | same length and order; every record keeps id, text and position; `isComplete` is negated exactly on the records carrying the id; every other record is identical |
| `Todos.ToggleUnknownId` | src/App.jsx:107-110 | toggling an id that no record carries leaves the list unchanged |
| `Todos.ToggleInvolution` | src/App.jsx:107-110 | toggling the same id twice returns the original list |
| `Todos.ToggleCommutes` | src/App.jsx:107-110 | toggles of two ids can be applied in either order |
| `Todos.ToggleExactlyOne` | src/App.jsx:107-110 | with unique ids, toggling the id of record k changes record k only |
| `Todos.ToggleSingleCarrier` | src/App.jsx:107-110 | toggling the id of record k changes record k alone exactly when no other record carries that id |
| `Todos.ToggleKeepsUniqueIds` | src/App.jsx:107-110 | toggling keeps unique ids unique |
| `Todos.AddKeepsUniqueIds` | src/App.jsx:93-104 | adding with a clock reading above every existing id keeps ids unique, and all ids stay at or below that reading |
| `Todos.AddUniqueExactly` | src/App.jsx:93-104 | adding to a list with unique ids keeps them unique exactly when the clock reading is not already an id |
| `Todos.SameMillisecondCollides` | src/App.jsx:95 | two additions with the same clock reading give a list whose ids are not unique |
| `AppState.Effect` | src/App.jsx:83-91 | either the state is unchanged, or exactly one record is appended after the unchanged old ones and the transcript becomes empty |
| `AppState.NoTriggerNoChange` | src/App.jsx:84 | without the trigger nothing is added and the transcript is kept |
| `AppState.EmptyCandidateNoChange` | src/App.jsx:86-89 | an empty candidate adds nothing and keeps the transcript |
| `AppState.DispatchAppendsOne` | src/App.jsx:86-88 | a dispatch appends exactly one record (the candidate text, the clock reading as id, not complete) after the unchanged old ones, and empties the transcript |
| `AppState.EffectSettles` | src/App.jsx:83-91 | running the effect again on its own result, at any clock reading, changes nothing: no command is dispatched twice |
| `AppState.EffectKeepsUniqueIds` | src/App.jsx:87-88 | under a clock that reads above every existing id, the effect keeps ids unique |
| `AppState.App.constructor` | src/App.jsx:80-81 | the component starts with no items and an empty transcript |
| `AppState.App.AddTodo` | src/App.jsx:93-105 | `todos` becomes `Added` of the old list; the transcript is untouched |
| `AppState.App.ToggleTodo` | src/App.jsx:107-111 | `todos` becomes `Toggled` of the old list; the transcript is untouched |
| `AppState.App.ResetTranscript` | src/App.jsx:88 | the transcript becomes empty; `todos` is untouched |
| `AppState.App.TranscriptEffect` | src/App.jsx:83-91 | the new state is `Effect` of the old one |
| `AppState.App.Hear` | src/App.jsx:83-91 | a repeated transcript changes nothing; a new one is stored and the effect runs on it |

## Left out

- Rendering (`TodoItem`, `TodoList`, `Stars`, the canvas, lights, orbit controls, hover scale, colours, per-frame rotation): display only, no state the core reads.
- The random position (`randFloatSpread`, `randFloat`): floating point and random, and no rule depends on it. `Position` holds three reals supplied by the caller.
- `Date.now()`: a clock read. It becomes the `now` parameter; ids are modelled as integers (milliseconds).
- The speech-recognition library (`useSpeechRecognition`, `startListening`, `listening`): an external asynchronous service. Its transcript arrives through `Hear`, and its reset is `ResetTranscript`.
- React scheduling: each event runs to completion as one step. The stale `todos` captured by `addTodo` and `toggleTodo` closures is not modelled. The re-run of the effect that a reset causes is covered by `EffectSettles` rather than made a separate step.
- `JsString.Lower`: maps only ASCII `A`–`Z`. JavaScript's `toLowerCase` also maps other Unicode capitals, some of them to longer strings.
- `JsString.RemoveFirst`: models `replace` only with an empty replacement string, the only form used. `$` patterns in a replacement are therefore not modelled.
