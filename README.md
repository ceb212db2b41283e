# Customify undo manager in Dafny

This project models the undo manager of the Customify customizer script and
proves properties of it. The manager is a linear, optionally bounded history of
reversible commands. It keeps five pieces of state:

- `commands`, the array of commands;
- `index`, a cursor from -1 to length-1;
- `limit`, the capacity, where 0 means unbounded;
- `isExecuting`, a re-entrancy guard;
- one change observer.

The project also models the `Array.prototype.removeFromTo` extension that the
manager uses for eviction, and the `inObject` helper.

Files:

- `js_arrays.dfy` (module `JsArrays`). The JavaScript `splice` rules (start and
  delete-count clamping, negative starts counting from the end) as functions; the
  delete count `removeFromTo` computes; and a class `JsArray` whose `items` the
  methods `Splice`, `Push` and `RemoveFromTo` change in place.
- `undo_stack.dfy` (module `UndoStack`).
  - `History` is the abstract value of a manager. `Added`, `Undone`, `Redone`,
    `Cleared`, `WithLimit` and `WithCallback` are its transitions, and the
    lemmas state what those transitions promise.
  - The class `UndoManager` holds the closure variables as fields. It makes the
    same array calls the source makes, and each method is proved to follow its
    transition (`Model() == Added(old(Model()), c)` and so on).
- `js_objects.dfy` (module `JsObjects`). `inObject` as a loop over the keys that
  `for…in` visits, proved to answer "does some own enumerable property of the
  object hold `value`".

Modelling choices:

- The observer is reduced to whether one is registered (`hasCallback`) and how
  many times it has been called (`notifications`).
- A command is `Falsy` (standing for `undefined`, `null` and the like) or a
  `Cmd` with an id and an `undo` and a `redo` property. Each property is either
  not a function, or a function.
- A function is modelled by the `add` calls it makes back into the manager while
  it runs. Its other effects are an `Event(id, step)` appended to `trace`.
  `UndoManager.Execute` makes those `add` calls with the guard raised, and proves
  that they change nothing.
- Limits are plain integers and their truthiness is modelled exactly. A negative
  limit is not treated as unbounded. The code evicts `-limit` of the oldest
  commands on every `add`, and `Retained` states this. So
  `SetLimit` has no precondition on its argument.
- Following the code as written, after `setLimit(2)`, adding A, B and C, and
  one `undo`, the cursor is 0 and `hasUndo()` is true (`LimitTwo`). A reading under which
  nothing could then be undone does not match the code.

## Model

| member | source | states |
|---|---|---|
| JsArrays.SpliceStart | js/customizer.js:7-9 | the start `splice` uses is within the array, equals an in-range start and counts a negative start back from the end |
| JsArrays.SpliceCount | js/customizer.js:7-9 | the elements `splice` removes never reach past the end, and an in-range delete count is used as given |
| JsArrays.SplicedTail | js/customizer.js:48 | a splice at an in-range start whose count reaches the end keeps exactly the prefix before the start and returns the rest |
| JsArrays.RemovedFromToInclusive | js/customizer.js:6-11 | `removeFromTo(from, to)` removes positions `from` through `to` inclusive, with a negative `to` counting from the end |
| JsArrays.RemovedFromToKeepsNewest | js/customizer.js:6-11 | for `0 < limit < length`, `removeFromTo(0, -(limit+1))` keeps exactly the newest `limit` elements, in order |
| JsArrays.RemovedFromToNegativeLimit | js/customizer.js:6-11 | with a negative limit the same call removes the `-limit` oldest elements, or all of them when there are fewer |
| JsArrays.JsArray.constructor | js/customizer.js:16 | a new array holds the given contents |
| JsArrays.JsArray.Push | js/customizer.js:50 | `push` appends the element and returns the new length |
| JsArrays.JsArray.Splice | js/customizer.js:48 | `splice` leaves the clamped remainder in place and returns the removed slice |
| JsArrays.JsArray.RemoveFromTo | js/customizer.js:6-11 | `removeFromTo` splices with the count the source computes and returns the new length |
| UndoStack.AddAll | js/customizer.js:42-63 | a series of adds keeps the cursor within the history and leaves the guard and the limit unchanged |
| UndoStack.Apply | js/customizer.js:37-133 | every call of the interface keeps the cursor within the history and never leaves the guard raised |
| UndoStack.Newest | js/customizer.js:53-55 | keeping the newest `n` elements yields `n` of them, or all when there are fewer |
| UndoStack.AddArrayCalls | js/customizer.js:46-55 | the splice at the cursor leaves exactly the commands up to the cursor, and the eviction call leaves what `Retained` says |
| UndoStack.EvictionRetains | js/customizer.js:52-55 | the eviction made when a truthy limit is exceeded agrees with `Retained` for zero, positive and negative limits |
| UndoStack.AddedProperties | js/customizer.js:42-63 | after an add outside a command, the cursor is on the last command and nothing can be redone; the observer hears once; unbounded, the commands are those up to the cursor plus the new one; with a non-negative limit the new command is last; with a positive limit the length fits the limit |
| UndoStack.AddedWhileExecuting | js/customizer.js:43-45 | an add while a command's function runs changes nothing, the notification count included |
| UndoStack.AddAllUnbounded | js/customizer.js:46-58 | without a limit, a series of adds yields the commands up to the cursor followed by the new ones, with the cursor on the last and nothing to redo |
| UndoStack.NewestAppend | js/customizer.js:53-55 | trimming to the newest `n` before or after appending one element gives the same result |
| UndoStack.NewestAppendAll | js/customizer.js:53-55 | trimming to the newest `n` before or after appending any sequence gives the same result |
| UndoStack.AddAllBounded | js/customizer.js:52-58 | with a positive limit, a series of adds retains the newest `limit` commands of those up to the cursor followed by the new ones, in order, with the cursor on the last |
| UndoStack.UndoneProperties | js/customizer.js:75-86 | with no truthy command at the cursor (including cursor -1), undo changes nothing and notifies no one; otherwise the cursor drops by exactly one, the commands stay, the observer hears once and the undo event is traced when `undo` is a function |
| UndoStack.RedoneProperties | js/customizer.js:91-102 | with no truthy command above the cursor, redo changes nothing; otherwise the cursor rises by exactly one, the commands stay, the observer hears once and the redo event is traced when `redo` is a function |
| UndoStack.UndoThenRedo | js/customizer.js:75-102 | an effective undo followed by redo restores the cursor and commands, traces undo then redo of the same command and notifies twice |
| UndoStack.RedoThenUndo | js/customizer.js:75-102 | an effective redo followed by undo restores the cursor and commands and traces redo then undo |
| UndoStack.UndoRepeated | js/customizer.js:75-86 | `n` undos over `n` truthy applied commands lower the cursor by exactly `n` and keep the commands |
| UndoStack.ClearedProperties | js/customizer.js:107-124 | after clear the history is empty, neither undo nor redo is possible, and the observer is notified only if there was something to clear |
| UndoStack.RunStaysIdle | js/customizer.js:16-133 | whatever calls the interface makes, negative limits included, the cursor stays within the history and the guard is down between calls |
| UndoStack.DiscardRedoBranch | js/customizer.js:46-50 | with A, B, C added, two undos and adding D leave [A, D] with nothing to redo |
| UndoStack.LimitTwo | js/customizer.js:52-58 | with limit 2, adding A, B, C keeps [B, C] with the cursor on C, and after one undo B can still be undone |
| UndoStack.PushAtCursor | js/customizer.js:48-55 | the splice, push and eviction calls of `add` leave the array holding `Retained(commands up to the cursor + [c], limit)` |
| UndoStack.UndoManager.constructor | js/customizer.js:16-20 | a new manager has no commands, cursor -1, limit 0, guard down and no observer |
| UndoStack.UndoManager.Execute | js/customizer.js:25-35 | a falsy command or a missing function does nothing; otherwise the action runs with the guard raised, its adds change nothing and the guard is lowered |
| UndoStack.UndoManager.Add | js/customizer.js:42-63 | the manager's new state is `Added` of its old state, on the same array object |
| UndoStack.UndoManager.SetCallback | js/customizer.js:68-70 | only whether an observer is registered changes |
| UndoStack.UndoManager.Undo | js/customizer.js:75-86 | the manager's new state is `Undone` of its old state |
| UndoStack.UndoManager.Redo | js/customizer.js:91-102 | the manager's new state is `Redone` of its old state |
| UndoStack.UndoManager.Clear | js/customizer.js:107-116 | the manager gets a fresh empty array, an array handed out before keeps its contents, and the new state is `Cleared` of the old |
| UndoStack.UndoManager.HasUndo | js/customizer.js:118-120 | `index !== -1` holds exactly when the cursor is at a command of the history |
| UndoStack.UndoManager.HasRedo | js/customizer.js:122-124 | `index < length - 1` holds exactly when a command lies above the cursor |
| UndoStack.UndoManager.GetCommands | js/customizer.js:126-128 | returns the live array, not a copy, holding the history's commands |
| UndoStack.UndoManager.SetLimit | js/customizer.js:130-132 | only the limit changes; the history is not trimmed until the next add |
| JsObjects.InObject | js/customizer.js:526-534 | true exactly when some own enumerable property holds the value (inherited properties are skipped); false for an object with no own enumerable properties |

## Left out

- DOM and jQuery wiring (js/customizer.js:139-240, 320-323): user-interface glue over APIs that are not part of this model.
- The `wp.customize` change handler (js/customizer.js:271-318): timers and `sessionStorage` are host I/O.
- `init_customify_undo_manager` (js/customizer.js:492-507): a `sessionStorage` initialiser with no persisted state to reason about.
- Typography field synchronisation (js/customizer.js:326-489): JSON parsing and HTML building for the page.
- settings/general.php: a static configuration array with no logic.
- UndoStack.UndoManager.SetCallback: does not keep the callback's identity. Whether one is registered and how often it ran stand in for it.
- UndoStack.UndoManager.GetCommands: the model assumes callers never shorten the array it hands out below the cursor. Every state-changing method requires `Valid()` (the cursor lies within the array), so a caller that splices the returned array that way leaves a state the model does not cover. In that state the JavaScript still behaves sensibly: `commands[index]` or `commands[index + 1]` is `undefined`, so `undo` and `redo` return without effect (js/customizer.js:76-78, 92-94), and the next `add` recovers because `splice` clamps its start and count (js/customizer.js:48).
- UndoStack.UndoManager.Execute: a command function's body is modelled only through its `add` calls and one trace event. Calls to `undo`, `redo`, `clear`, `setLimit` or `setCallback` made from inside a command, and exceptions thrown by it, are not modelled.
- JsArrays.SpliceStart: does not model non-integer, `NaN` or string arguments, or the coercions JavaScript applies to them. The same holds for limits in `UndoStack.UndoManager.SetLimit`.
- JsObjects.InObject: strict equality is Dafny equality, so `NaN !== NaN` is not modelled. Calling it on `null` or `undefined` is not modelled.
- The `this` values that `add`, `undo` and `redo` return for chaining are not modelled.
