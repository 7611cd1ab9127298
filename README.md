# To-do list: collection handlers and row component

This project models the core of a client-side to-do list web page. The page
(`src/app/page.tsx`) holds an ordered array of `Todo` records together with the
text of its add box and the id of the record whose detail panel is open. Each of
its handlers (add, toggle, delete, edit, memo update) builds a new array by
spreading, `map` or `filter`, and two derived views split the array into the
active and the completed records. The row component
(`my-app/src/components/TodoItem.tsx`) edits a record's text in place, opens
its detail panel, and checks an image file's name and size before taking it.

Modules:

- `Wrappers` (`wrappers.dfy`): `Option`, for the optional `memo`/`imageUrl`
  properties and for a file that may be absent.
- `Text` (`text.dfy`): the whitespace set of ECMAScript's
  `String.prototype.trim`, `Trim`, and `IsBlank` (the test `!s.trim()`).
- `Collections` (`collections.dfy`): `Map` and `Filter` (the array methods the
  handlers use), order-preserving subsequences, and lemmas about filters.
- `TodoStore` (`todo_store.dfy`): the `Todo` record, the page state `Page`, the
  handlers as total functions, the two views, the callbacks a row can fire
  (`Effect`) and how the page applies them (`Dispatch`, `DispatchAll`,
  `DispatchEvent`), and the invariants
  "ids are unique" and "every text is non-blank".
- `TodoItem` (`todo_item.dfy`): image validation as a pure function and the row's
  state as the class `Item`, whose methods update `isEditing`, `editText`,
  `memoText`, `imageFile` and `imagePreview` and return the callbacks they fire.

The clock is not modelled: `Date.now().toString()` and `new Date()` become the
`id` and `now` parameters of `HandleAddTodo`. Nothing makes ids unique, so the
toggle, delete, edit and memo handlers act on every record carrying the id;
the lemmas that need unique ids take `UniqueIds` and `FreshId` as
preconditions. Where one would expect otherwise (unique ids, texts never
blank, an attached image saved, an edit saved from the detail panel), the
model follows the code:

- The code does not check for blank text in `handleEditTodo`. The check is made
  only by the row's `handleSave`.
- Ids are not guaranteed unique.
- Toggle, edit and memo update act on all records that carry the id, not just
  one.
- No code path writes a record's `imageUrl`. `handleImageChange` sets only the
  row's own `imageFile` and `imagePreview`, and the page passes no image
  callback. The model therefore never changes `imageUrl` either.
- A double-click on a row's text does not start editing: the first click
  selects the record and the row gives way to the detail panel. Only the
  pencil button starts an inline edit.
- The detail panel's confirm button does not save an edited text. The
  Findings section below gives the details.

A click handler that fires several callbacks is applied with `DispatchEvent`.
Under it, every callback computes its array from the `todos` of the current
render, and the last value set wins. Callbacks fired by separate events are
applied one after another with `DispatchAll`.

## Model

| member | source | states |
|---|---|---|
| `Text.TrimStartSpec` | src/app/page.tsx:15 | leading trim keeps a suffix that is empty or starts with a non-whitespace character, and drops only whitespace |
| `Text.TrimEndSpec` | src/app/page.tsx:15 | trailing trim keeps a prefix that is empty or ends with a non-whitespace character, and drops only whitespace |
| `Text.TrimSpec` | src/app/page.tsx:15 | `trim` gives the slice of `s` between its leading and its trailing whitespace, both of which are all whitespace; a non-empty result begins and ends with a non-whitespace character |
| `Text.BlankIffAllWhitespace` | src/app/page.tsx:15 | `s.trim()` is empty (falsy) exactly when every character of `s` is whitespace, so `""` is blank |
| `Text.NotBlankWhenVisible` | src/app/page.tsx:15 | a string holding one non-whitespace character passes the `trim()` test |
| `TodoStore.HandleInputChange` | src/app/page.tsx:92 | typing replaces the box text and leaves the array and the selection alone |
| `TodoStore.HandleAddTodo` | src/app/page.tsx:14-25 | a blank box leaves the whole page unchanged; otherwise one record goes at the end (untrimmed text, not completed, the given id and time, no memo or image), earlier records stay as they were, and the box is emptied |
| `TodoStore.HandleToggleTodo` | src/app/page.tsx:27-33 | same length and order; `completed` flips exactly on the records carrying the id; every other field and record is unchanged |
| `TodoStore.HandleDeleteTodo` | src/app/page.tsx:35-37 | result is an order-preserving subsequence that holds every record without the id and none with it, and is shorter by the number of records carrying the id; with no match it is the array itself |
| `TodoStore.DeleteCount` | src/app/page.tsx:36 | the filter drops as many records as carry the id |
| `TodoStore.HandleEditTodo` | src/app/page.tsx:39-45 | same length and order; `text` becomes the new text exactly on the matching records; nothing else changes; no blank check |
| `TodoStore.HandleMemoUpdate` | src/app/page.tsx:47-53 | same length and order; `memo` becomes `Some(memo)`, the empty string included, exactly on the matching records; nothing else changes |
| `TodoStore.ActiveTodos` | src/app/page.tsx:55 | an order-preserving subsequence holding each record that is not completed as often as the array does, and no completed record |
| `TodoStore.CompletedTodos` | src/app/page.tsx:56 | an order-preserving subsequence holding each completed record as often as the array does, and no other record |
| `TodoStore.ViewsPartition` | src/app/page.tsx:55-56 | the two views together hold each record as often as the array does, their lengths sum to its length, and each record is in exactly one of them |
| `TodoStore.ToggleTwiceRestores` | src/app/page.tsx:27-33 | toggling the same id twice gives back the original array |
| `TodoStore.DeleteUniqueRemovesOne` | src/app/page.tsx:35-37 | with unique ids, deleting a present id removes exactly that record and keeps every other one |
| `TodoStore.CountIdUnique` | src/app/page.tsx:35-37 | with unique ids, a present id is carried by exactly one record |
| `TodoStore.CountIdFresh` | src/app/page.tsx:35-37 | an id no record carries is counted zero times |
| `TodoStore.Dispatch` | src/app/page.tsx:102-111 | one callback on its own: a selection changes only the selected id; toggle, delete, edit and memo update change only the array; the add box is never touched |
| `TodoStore.DispatchAll` | src/app/page.tsx:27-53 | callbacks from separate events, each seeing the previous result: the add box is untouched, and without a selection the selected id stays |
| `TodoStore.DispatchEventFrom` | src/app/page.tsx:39-53 | callbacks of one event, each computing from the rendered `todos`: the last array-writing callback decides the array and the last selection decides the selected id; where there is none, that part stays as it was |
| `TodoStore.DispatchEventSingle` | src/app/page.tsx:27-53 | a handler firing one callback gets what that callback gives alone |
| `TodoStore.DispatchEventSeparateState` | my-app/src/components/TodoItem.tsx:273-277 | delete-then-close in one click gives the same page as applying the two callbacks one after another |
| `TodoStore.AddFreshKeepsUniqueIds` | src/app/page.tsx:14-22 | adding under an id no record carries keeps the ids unique |
| `TodoStore.AddKeepsTextsNonBlank` | src/app/page.tsx:14-22 | adding keeps every record's text non-blank |
| `TodoStore.DispatchKeepsUniqueIds` | src/app/page.tsx:27-53 | toggle, delete, edit, memo update and selection all keep the ids unique |
| `TodoStore.DispatchKeepsTextsNonBlank` | src/app/page.tsx:27-53 | every callback keeps all texts non-blank provided an edit brings non-blank text |
| `TodoStore.DispatchAllKeepsTextsNonBlank` | src/app/page.tsx:27-53 | the same holds for a run of callbacks |
| `TodoStore.AddsCount` | src/app/page.tsx:14-25 | over any run of type-then-add attempts the array grows by the number of non-blank attempts, and the earlier records stay in front, in order |
| `TodoStore.BuyMilkScenario` | src/app/page.tsx:14-56 | adding "buy milk" gives one active record; toggling it makes the completed view that record and the active view empty |
| `TodoStore.BlankAddScenario` | src/app/page.tsx:14-15 | adding "   " leaves the array empty |
| `TodoItem.FilenamePatternIff` | my-app/src/components/TodoItem.tsx:49-50 | the anchored pattern `^[a-zA-Z0-9._-]+$` matches exactly the non-empty names made only of class characters |
| `TodoItem.ValidateImage` | my-app/src/components/TodoItem.tsx:48-62 | a name that does not match means `InvalidFilename`, whatever the size; a matching name with size over 5·1024·1024 means `FileTooLarge`; anything else is `Ok` |
| `TodoItem.ImageScenarios` | my-app/src/components/TodoItem.tsx:48-62 | "café.png" is refused for its name; a 6 MiB "photo.png" is too large; exactly 5 MiB passes |
| `TodoItem.ConfirmEffects` | my-app/src/components/TodoItem.tsx:257-262 | the confirm button fires, in order, the edit with the box's text (no blank check), the memo update, and closing the panel |
| `TodoItem.ConfirmLosesEdit` | my-app/src/components/TodoItem.tsx:258-262 | in one click, the memo update's array replaces the edit's: only the memo is saved, the panel closes, and no record's text changes |
| `TodoItem.ConfirmSavesTextAndMemo` | my-app/src/components/TodoItem.tsx:258-262 | with each callback seeing the previous result, every record carrying the id gets both the edited text and the memo, all others stay, and the panel closes |
| `TodoItem.Item.constructor` | my-app/src/components/TodoItem.tsx:22-27 | starts not editing, with the record's text, its memo or "", its image or "" as preview, and no file |
| `TodoItem.Item.ReceiveProps` | my-app/src/components/TodoSection.tsx:52-119 | a re-render that still shows the row (same id, same section, so same `completed`, and no panel open or this record's panel open) replaces the `todo` prop and keeps the row's own state; after a toggle, or while another record's panel is open, the row is unmounted and comes back new, as built by the constructor |
| `TodoItem.Item.ChangeEditText` | my-app/src/components/TodoItem.tsx:124 | typing sets the edit text |
| `TodoItem.Item.ChangeMemoText` | my-app/src/components/TodoItem.tsx:246 | typing sets the memo text |
| `TodoItem.Item.StartEditing` | my-app/src/components/TodoItem.tsx:134-146 | editing starts only on a record that is not completed |
| `TodoItem.Item.Save` | my-app/src/components/TodoItem.tsx:32-37 | with a blank edit text nothing changes and nothing is sent; otherwise the text is sent to `onEdit` for this record and editing ends |
| `TodoItem.Item.HandleKeyPress` | my-app/src/components/TodoItem.tsx:80-87 | Enter behaves exactly as `Save`; Escape restores the record's current text and ends editing; other keys change nothing |
| `TodoItem.Item.HandleImageChange` | my-app/src/components/TodoItem.tsx:44-64 | no file: nothing happens; a refused file leaves the chosen file as it was and reports the first failing check; an accepted file becomes the chosen file; the preview is never touched synchronously |
| `TodoItem.Item.HandleImageRemove` | my-app/src/components/TodoItem.tsx:75-78 | the chosen file becomes absent and the preview empty |
| `TodoItem.Item.ClickRow` | my-app/src/components/TodoItem.tsx:102 | while editing a click selects nothing; otherwise it selects this record |
| `TodoItem.Item.ClickCheckbox` | my-app/src/components/TodoItem.tsx:104-108 | while editing a click toggles nothing; otherwise it toggles this record |
| `TodoItem.Item.ClickDelete` | my-app/src/components/TodoItem.tsx:155-156 | the row's delete button deletes this record |
| `TodoItem.Item.ClickDetailsCheckbox` | my-app/src/components/TodoItem.tsx:180-182 | the panel's checkbox toggles this record with no editing guard |
| `TodoItem.Item.ClickDetailsDelete` | my-app/src/components/TodoItem.tsx:273-277 | the panel's delete button deletes this record, then closes the panel |
| `TodoItem.Item.ConfirmDetails` | my-app/src/components/TodoItem.tsx:257-262 | the panel's confirm button fires the edit with the box's text unchecked, then the memo update, then closes the panel |
| `TodoItem.CommitInlineEdit` | my-app/src/components/TodoItem.tsx:32-37 | saving an inline edit and applying it on the page keeps every text non-blank, and the array is either unchanged or edited with the saved text |

## Findings

| source | as written | input that shows it | evidently intended | confidence | as-written member | corrected member |
|---|---|---|---|---|---|---|
| my-app/src/components/TodoItem.tsx:258-262 | the confirm button calls `onEdit` and then `onMemoUpdate` in one click; both handlers call `setTodos(todos.map(...))` on the `todos` of the same render (src/app/page.tsx:39-53), so the memo update's array replaces the edit's | a record "milk"; open its panel, change the text to "bread" and confirm: the record still reads "milk" | both the text and the memo are saved, as functional updates (`setTodos(prev => prev.map(...))`) would do | high, not executed | `TodoItem.ConfirmLosesEdit` | `TodoItem.ConfirmSavesTextAndMemo` |

Under the corrected reading the panel's text has no blank check, so a blank text
would be saved from the panel. The inline editor's `Save` does not allow this.

## Left out

- `TodoItem.Item.HandleImageChange`: does not model the `FileReader` data-URL read or its asynchronous `onloadend` update of `imagePreview` (lines 65-69); this is browser I/O with a callback.
- `alert` and `e.target.value = ""` in `handleImageChange` are DOM effects. A refusal is returned as the verdict `Some(InvalidFilename)` or `Some(FileTooLarge)`, which stands for "refused, picker cleared".
- `Date.now()` and `new Date()` are clock reads. They are the `id` and `now` parameters, and `createdAt` is an integer timestamp.
- `window.location.reload()` on the logo (page.tsx lines 64 and 73) reloads the page, which discards all state.
- All JSX rendering, styling and image-asset selection in every component.
- The `showMemoModal` state (TodoItem.tsx line 24) is declared but never set, so it has no behaviour to model.
- my-app/src/components/TodoSection.tsx and my-app/src/components/TodoInput.tsx are not part of this model beyond which rows stay mounted (the requires of `TodoItem.Item.ReceiveProps`). They only choose views and enable buttons.
- my-app/3/js/book.js and 25-09-09-1/js/index.js are not part of this model. They are jQuery page scripts that are unrelated to the to-do collection.
- JavaScript strings are UTF-16 code units, while Dafny's `char` is a Unicode scalar value. All of `trim`'s whitespace characters lie in the Basic Multilingual Plane. The filename class holds only ASCII. So both tests give the same verdict under either reading.
