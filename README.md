# Todo list logic of the standalone todo component

This project models, in Dafny, the list manipulation at the heart of the
standalone todo component (`src/components/TodoApp.jsx`). The component
keeps an array of todos `{id, text, completed}`. Each handler turns the
current array into a new one and installs it whole:

- **add** (`addTodo`) trims the form text, refuses it when nothing is left,
  and otherwise puts a new, not completed todo in front of the list, with
  the clock reading as its id;
- **toggle** (`toggleTodo`) maps over the list and flips `completed` on the
  todos whose id matches;
- **delete** (`deleteTodo`) filters out the todos with a given id;
- **clear completed** (`clearCompleted`) filters out the completed todos.

The list on screen (`visible`) is the array filtered by the selected view
(All, Active or Completed), and the footer shows how many todos are not yet
completed.

The model has three modules:

- `Arrays` (`arrays.dfy`): `Array.prototype.filter` as `Filter(s, keep)`,
  with what it keeps, that it keeps the order (`SelectsInOrder`: the result
  is the input read at the increasing positions whose element passes, and
  at no others), idempotence, and the split by a predicate and its negation.
- `Text` (`text.dfy`): `String.prototype.trim` over the WhiteSpace and
  LineTerminator characters of ECMA-262, and when trimming leaves nothing.
- `TodoApp` (`todo_app.dfy`): the `Todo` record, the three views, the four
  handlers, the view and the footer count, and the lemmas relating them.

Ids come from `Date.now()` and nothing makes them unique, so the model
takes the id as a parameter `now` and assumes nothing about it: toggling
and deleting act on every todo that carries the id, and the lemmas hold
with repeated ids.

## Model

| member | source | states |
|---|---|---|
| `TodoApp.AddTodo` | src/components/TodoApp.jsx:29-34 | blank text (whitespace only after trimming) leaves the list unchanged; otherwise the list is one longer, its head has the given id, the trimmed (and nonempty) text and `completed = false`, and its tail is the old list |
| `TodoApp.ToggleTodo` | src/components/TodoApp.jsx:36-38 | length, order, and every todo's id and text are kept; `completed` changes exactly on the todos whose id equals the given id |
| `TodoApp.DeleteTodo` | src/components/TodoApp.jsx:40-42 | a todo is in the result exactly when it is in the list with another id; the length drops by the number of positions holding a todo with that id |
| `TodoApp.ClearCompleted` | src/components/TodoApp.jsx:44-46 | a todo is in the result exactly when it is in the list and not completed |
| `TodoApp.ItemsLeft` | src/components/TodoApp.jsx:71 | the count equals the number of positions of the list that hold a todo not yet completed |
| `TodoApp.Visible` | src/components/TodoApp.jsx:48 | every listed todo comes from the list; the Active view lists only todos not completed, the Completed view only completed ones |
| `TodoApp.AddThenDelete` | src/components/TodoApp.jsx:32 | deleting the id just added under gives the same list as deleting that id before the add |
| `TodoApp.AddThenDeleteFreshId` | src/components/TodoApp.jsx:32 | when no todo carried the new id, deleting it undoes the add |
| `TodoApp.AddRaisesItemsLeft` | src/components/TodoApp.jsx:31-32 | a successful add raises the items-left count by one; a refused add leaves it |
| `TodoApp.ToggleTwice` | src/components/TodoApp.jsx:37 | toggling the same id twice gives back the original list |
| `TodoApp.ToggleAbsentId` | src/components/TodoApp.jsx:37 | toggling an id no todo carries changes nothing |
| `TodoApp.DeleteKeepsOrder` | src/components/TodoApp.jsx:41 | the result is the list read at exactly the positions whose todo has another id, in increasing order |
| `TodoApp.DeleteIdempotent` | src/components/TodoApp.jsx:41 | deleting the same id twice equals deleting it once |
| `TodoApp.DeleteAbsentId` | src/components/TodoApp.jsx:41 | deleting an id no todo carries changes nothing |
| `TodoApp.ClearCompletedKeepsOrder` | src/components/TodoApp.jsx:45 | the result is the list read at exactly the positions of the todos not completed, in increasing order |
| `TodoApp.ClearCompletedIdempotent` | src/components/TodoApp.jsx:45 | clearing twice equals clearing once |
| `TodoApp.ClearCompletedDropsCompleted` | src/components/TodoApp.jsx:45 | clearing shortens the list by the length of the Completed view |
| `TodoApp.VisibleAllIsWhole` | src/components/TodoApp.jsx:48 | the All view is the whole list |
| `TodoApp.VisibleActiveIsCleared` | src/components/TodoApp.jsx:45-48 | the Active view equals the list "Clear completed" leaves |
| `TodoApp.ViewsPartition` | src/components/TodoApp.jsx:48 | the Active and Completed views each keep list order, share no todo, and together hold every todo as often as the list (equal multisets, lengths summing to the list length) |
| `TodoApp.ItemsLeftIsActiveCount` | src/components/TodoApp.jsx:71 | the items-left count equals the length of the Active view, the length of the list after "Clear completed", and the list length minus the Completed view's length |
| `Text.Trim` | src/components/TodoApp.jsx:31-32 | the result is a contiguous piece of the text with only whitespace before and after it, and neither of its ends is whitespace |
| `Text.TrimStart` | src/components/TodoApp.jsx:31-32 | the result is a suffix of the text, everything cut off is whitespace, and it does not start with whitespace |
| `Text.TrimEnd` | src/components/TodoApp.jsx:31-32 | the result is a prefix of the text, everything cut off is whitespace, and it does not end with whitespace |
| `Text.TrimBothEnds` | src/components/TodoApp.jsx:32 | trimming the start and then the end leaves the piece of the text after its leading whitespace and before its trailing whitespace, with no whitespace at either end |
| `Text.TrimEmptyIffBlank` | src/components/TodoApp.jsx:31 | trimming leaves the empty string exactly when every character is whitespace |
| `Text.TrimIdempotent` | src/components/TodoApp.jsx:32 | trimming trimmed text changes nothing |
| `Arrays.Filter` | src/components/TodoApp.jsx:41 | the result is no longer than the input, and every element of it is in the input and passes the predicate |
| `Arrays.FilterLength` | src/components/TodoApp.jsx:71 | a filter keeps as many elements as there are positions whose element passes |
| `Arrays.FilterKeepsPassing` | src/components/TodoApp.jsx:45 | every element of the input that passes the predicate is in the result |
| `Arrays.FilterSelectsInOrder` | src/components/TodoApp.jsx:48 | the result is the input read at exactly the positions whose element passes, in increasing order |
| `Arrays.FilterIdempotent` | src/components/TodoApp.jsx:45 | filtering twice with one predicate equals filtering once |
| `Arrays.FilterKeepsAll` | src/components/TodoApp.jsx:48 | a filter returns its input unchanged exactly when every element passes |
| `Arrays.FilterPointwise` | src/components/TodoApp.jsx:45-48 | predicates that agree on every element filter alike |
| `Arrays.FilterSplits` | src/components/TodoApp.jsx:71 | a predicate and its negation split the input: the two results' multisets add up to the input's, and so do their lengths |

## Left out

- Loading the list from `localStorage` on mount and saving it after every change, with `JSON.parse`/`JSON.stringify` (src/components/TodoApp.jsx:20-27): browser storage and a foreign serialiser.
- `Date.now()` (src/components/TodoApp.jsx:32): the clock reading is the parameter `now` of `AddTodo`; nothing is assumed about it.
- Clearing the input field after a successful add (`setText('')`, src/components/TodoApp.jsx:33), `e.preventDefault()`, the `setFilter` buttons and all rendering, including `TodoItem` and the "No todos" placeholder: user-interface state and markup.
- The view selector (`filter` in the source) is the datatype `View`, with the three values its buttons set. In the source it is a string, and any string other than `'all'` and `'active'` would behave as `'completed'`; no code path sets such a string.
- `src/services/todoService.js` and the signed-in variant that would use it: asynchronous calls to an external hosted backend and its realtime channel, with no logic of their own beyond rethrowing errors. The synced list reconciler is not in any source file of this model.
- `src/App.jsx`: markup only.
- Text is a sequence of Unicode scalar values, whereas JavaScript strings are sequences of UTF-16 code units, so text holding a lone surrogate cannot be represented. Trimming is unaffected: every WhiteSpace and LineTerminator code point lies in the Basic Multilingual Plane and none is a surrogate.
- Ids are modelled as unbounded integers; JavaScript numbers are doubles, which represent `Date.now()` readings exactly, so nothing is lost for the ids the component creates.
