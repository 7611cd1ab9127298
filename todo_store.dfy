/** The home page's to-do collection: the `Todo` record, the page state
    (`inputValue`, `todos`, `selectedTodoId`) and the handlers that replace the
    array with a new one built by spread, `map` or `filter`. Every handler is a
    total function from the old state to the new one. */
module TodoStore {
  import opened Wrappers
  import opened Text
  import opened Collections

  /** One to-do record. `createdAt` is the creation time in milliseconds since
      the epoch; `memo` and `imageUrl` are the optional properties. */
  datatype Todo = Todo(
    id: string,
    text: string,
    completed: bool,
    createdAt: int,
    memo: Option<string>,
    imageUrl: Option<string>)

  /** The page component's state: the text of the add box, the ordered to-do
      array and the id of the record whose detail panel is open. */
  datatype Page = Page(inputValue: string, todos: seq<Todo>, selectedTodoId: Option<string>)

  /** The state before any event: empty box, no records, nothing selected. */
  const InitialPage := Page("", [], None)

  function IdOf(t: Todo): string { t.id }

  predicate IsActive(t: Todo) { !t.completed }

  predicate IsCompleted(t: Todo) { t.completed }

  function LacksId(id: string): Todo -> bool { (t: Todo) => t.id != id }

  /** Number of records carrying `id`. */
  function CountId(todos: seq<Todo>, id: string): nat {
    if todos == [] then 0 else (if todos[0].id == id then 1 else 0) + CountId(todos[1..], id)
  }

  /** `id` is carried by no record. */
  predicate FreshId(todos: seq<Todo>, id: string) {
    forall i :: 0 <= i < |todos| ==> todos[i].id != id
  }

  /** No two records share an id. */
  predicate UniqueIds(todos: seq<Todo>) {
    KeysDistinct(IdOf, todos)
  }

  /** Every record's text has a visible character. */
  predicate TextsNonBlank(todos: seq<Todo>) {
    forall i :: 0 <= i < |todos| ==> !IsBlank(todos[i].text)
  }

  /** `onChange={setInputValue}` on the add box. */
  function HandleInputChange(p: Page, value: string): (r: Page)
    ensures r.inputValue == value && r.todos == p.todos && r.selectedTodoId == p.selectedTodoId
  {
    p.(inputValue := value)
  }

  /** `handleAddTodo`: a blank box changes nothing; otherwise a new, not yet
      completed record with the untrimmed box text, the given id and creation
      time and no memo or image goes at the end, and the box is emptied. */
  function HandleAddTodo(p: Page, id: string, now: int): (r: Page)
    ensures IsBlank(p.inputValue) ==> r == p
    ensures !IsBlank(p.inputValue) ==>
      && r.todos == p.todos + [Todo(id, p.inputValue, false, now, None, None)]
      && r.inputValue == ""
    ensures r.selectedTodoId == p.selectedTodoId
  {
    if IsBlank(p.inputValue) then p
    else
      p.(todos := p.todos + [Todo(id, p.inputValue, false, now, None, None)], inputValue := "")
  }

  /** `handleToggleTodo`: same length and order; `completed` flips on exactly
      the records carrying `id` (all of them, should several share it) and
      nothing else changes. */
  function HandleToggleTodo(todos: seq<Todo>, id: string): (r: seq<Todo>)
    ensures |r| == |todos|
    ensures forall i :: 0 <= i < |todos| ==> r[i].completed == (todos[i].completed != (todos[i].id == id))
    ensures forall i :: 0 <= i < |todos| ==> r[i] == todos[i].(completed := r[i].completed)
  {
    Map((t: Todo) => if t.id == id then t.(completed := !t.completed) else t, todos)
  }

  /** `handleDeleteTodo`: the records not carrying `id`, in their original
      order; as many records go as carry `id`, so an unknown id is a no-op. */
  function HandleDeleteTodo(todos: seq<Todo>, id: string): (r: seq<Todo>)
    ensures IsSubsequence(r, todos)
    ensures forall i :: 0 <= i < |r| ==> r[i].id != id
    ensures forall i :: 0 <= i < |todos| && todos[i].id != id ==> todos[i] in r
    ensures |r| == |todos| - CountId(todos, id)
    ensures FreshId(todos, id) ==> r == todos
  {
    DeleteCount(todos, id);
    var kept := Filter(LacksId(id), todos);
    if FreshId(todos, id) then
      FilterAllKept(LacksId(id), todos);
      kept
    else kept
  }

  lemma {:induction false} DeleteCount(todos: seq<Todo>, id: string)
    ensures |Filter(LacksId(id), todos)| == |todos| - CountId(todos, id)
  {
    if todos != [] {
      DeleteCount(todos[1..], id);
    }
  }

  /** `handleEditTodo`: same length and order; `text` becomes `newText` on the
      records carrying `id` and nothing else changes. There is no blank check
      here: that guard is the caller's. */
  function HandleEditTodo(todos: seq<Todo>, id: string, newText: string): (r: seq<Todo>)
    ensures |r| == |todos|
    ensures forall i :: 0 <= i < |todos| ==> r[i].text == (if todos[i].id == id then newText else todos[i].text)
    ensures forall i :: 0 <= i < |todos| ==> r[i] == todos[i].(text := r[i].text)
  {
    Map((t: Todo) => if t.id == id then t.(text := newText) else t, todos)
  }

  /** `handleMemoUpdate`: same length and order; the records carrying `id`
      get `memo` (the empty string included) and nothing else changes. */
  function HandleMemoUpdate(todos: seq<Todo>, id: string, memo: string): (r: seq<Todo>)
    ensures |r| == |todos|
    ensures forall i :: 0 <= i < |todos| ==> r[i].memo == (if todos[i].id == id then Some(memo) else todos[i].memo)
    ensures forall i :: 0 <= i < |todos| ==> r[i] == todos[i].(memo := r[i].memo)
  {
    Map((t: Todo) => if t.id == id then t.(memo := Some(memo)) else t, todos)
  }

  /** `activeTodos`: the records not completed, in array order. */
  function ActiveTodos(todos: seq<Todo>): (r: seq<Todo>)
    ensures IsSubsequence(r, todos)
    ensures forall t :: multiset(r)[t] == if t.completed then 0 else multiset(todos)[t]
    ensures forall i :: 0 <= i < |r| ==> !r[i].completed
    ensures forall i :: 0 <= i < |todos| && !todos[i].completed ==> todos[i] in r
  {
    FilterCounts(IsActive, todos);
    Filter(IsActive, todos)
  }

  /** `completedTodos`: the completed records, in array order. */
  function CompletedTodos(todos: seq<Todo>): (r: seq<Todo>)
    ensures IsSubsequence(r, todos)
    ensures forall t :: multiset(r)[t] == if t.completed then multiset(todos)[t] else 0
    ensures forall i :: 0 <= i < |r| ==> r[i].completed
    ensures forall i :: 0 <= i < |todos| && todos[i].completed ==> todos[i] in r
  {
    FilterCounts(IsCompleted, todos);
    Filter(IsCompleted, todos)
  }

  /** The two views partition the array: every record is in exactly one of
      them, and together they hold each record as often as the array does. */
  lemma ViewsPartition(todos: seq<Todo>)
    ensures multiset(ActiveTodos(todos)) + multiset(CompletedTodos(todos)) == multiset(todos)
    ensures |ActiveTodos(todos)| + |CompletedTodos(todos)| == |todos|
    ensures forall i :: 0 <= i < |todos| ==>
      (todos[i] in ActiveTodos(todos) <==> todos[i] !in CompletedTodos(todos))
  {
    FilterSplit(IsActive, IsCompleted, todos);
  }

  /** Toggling the same id twice gives back the original array. */
  lemma ToggleTwiceRestores(todos: seq<Todo>, id: string)
    ensures HandleToggleTodo(HandleToggleTodo(todos, id), id) == todos
  {
    var once := HandleToggleTodo(todos, id);
    var twice := HandleToggleTodo(once, id);
    forall i | 0 <= i < |todos| ensures twice[i] == todos[i] {
      assert once[i].id == todos[i].id;
    }
  }

  /** With unique ids, deleting an id that is present removes exactly one
      record: the one carrying it. */
  lemma DeleteUniqueRemovesOne(todos: seq<Todo>, k: nat)
    requires UniqueIds(todos) && k < |todos|
    ensures |HandleDeleteTodo(todos, todos[k].id)| == |todos| - 1
    ensures todos[k] !in HandleDeleteTodo(todos, todos[k].id)
    ensures forall i :: 0 <= i < |todos| && i != k ==> todos[i] in HandleDeleteTodo(todos, todos[k].id)
  {
    CountIdUnique(todos, k);
    forall i | 0 <= i < |todos| && i != k ensures todos[i].id != todos[k].id {
      if i < k { assert IdOf(todos[i]) != IdOf(todos[k]); }
      else { assert IdOf(todos[k]) != IdOf(todos[i]); }
    }
  }

  lemma {:induction false} CountIdUnique(todos: seq<Todo>, k: nat)
    requires UniqueIds(todos) && k < |todos|
    ensures CountId(todos, todos[k].id) == 1
  {
    var rest := todos[1..];
    assert UniqueIds(rest) by {
      forall i, j | 0 <= i < j < |rest| ensures IdOf(rest[i]) != IdOf(rest[j]) {
        assert IdOf(todos[i + 1]) != IdOf(todos[j + 1]);
      }
    }
    if k == 0 {
      forall i | 0 <= i < |rest| ensures rest[i].id != todos[0].id {
        assert IdOf(todos[0]) != IdOf(todos[i + 1]);
      }
      CountIdFresh(rest, todos[0].id);
    } else {
      assert todos[0].id != todos[k].id by { assert IdOf(todos[0]) != IdOf(todos[k]); }
      CountIdUnique(rest, k - 1);
    }
  }

  lemma {:induction false} CountIdFresh(todos: seq<Todo>, id: string)
    requires FreshId(todos, id)
    ensures CountId(todos, id) == 0
  {
    if todos != [] {
      CountIdFresh(todos[1..], id);
    }
  }

  /** What a child component asks of the page through the callbacks it is
      handed (`onToggle`, `onDelete`, `onEdit`, `onMemoUpdate`, `onSelect`). */
  datatype Effect =
    | Toggle(id: string)
    | Delete(id: string)
    | Edit(id: string, newText: string)
    | UpdateMemo(id: string, memo: string)
    | Select(selection: Option<string>)

  /** The page's response to one callback taken on its own; `onSelect` is
      `setSelectedTodoId`. A selection touches only the selected id, every
      other callback only the array, and none the add box. */
  function Dispatch(p: Page, e: Effect): (r: Page)
    ensures r.inputValue == p.inputValue
    ensures e.Select? ==> r.todos == p.todos && r.selectedTodoId == e.selection
    ensures !e.Select? ==> r.selectedTodoId == p.selectedTodoId
  {
    match e
    case Toggle(id) => p.(todos := HandleToggleTodo(p.todos, id))
    case Delete(id) => p.(todos := HandleDeleteTodo(p.todos, id))
    case Edit(id, newText) => p.(todos := HandleEditTodo(p.todos, id, newText))
    case UpdateMemo(id, memo) => p.(todos := HandleMemoUpdate(p.todos, id, memo))
    case Select(selection) => p.(selectedTodoId := selection)
  }

  /** Callbacks fired by separate events, each seeing the state the previous
      one left; this is also what functional updates
      (`setTodos(prev => prev.map(...))`) would give within one event. The add
      box is never touched, and without a selection the selected id stays. */
  function DispatchAll(p: Page, es: seq<Effect>): (r: Page)
    ensures r.inputValue == p.inputValue
    ensures (forall k :: 0 <= k < |es| ==> !es[k].Select?) ==> r.selectedTodoId == p.selectedTodoId
    decreases |es|
  {
    if es == [] then p else DispatchAll(Dispatch(p, es[0]), es[1..])
  }

  /** Callbacks fired by one event handler. Each handler computes its new
      array from the `todos` of the render the handler belongs to (not from
      the previous callback's result), and React keeps the last value set, so
      the last array-writing callback decides the array and the last selection
      decides the selected id. `render` is the state at that render, `acc` the
      state being built. */
  function DispatchEventFrom(render: Page, acc: Page, es: seq<Effect>): (r: Page)
    ensures r.inputValue == acc.inputValue
    ensures (forall k :: 0 <= k < |es| ==> es[k].Select?) ==> r.todos == acc.todos
    ensures (forall k :: 0 <= k < |es| ==> !es[k].Select?) ==> r.selectedTodoId == acc.selectedTodoId
    ensures es != [] && !es[|es| - 1].Select? ==> r.todos == Dispatch(render, es[|es| - 1]).todos
    ensures es != [] && es[|es| - 1].Select? ==> r.selectedTodoId == es[|es| - 1].selection
    ensures forall k :: 0 <= k < |es| && !es[k].Select? && (forall j :: k < j < |es| ==> es[j].Select?) ==>
      r.todos == Dispatch(render, es[k]).todos
    ensures forall k :: 0 <= k < |es| && es[k].Select? && (forall j :: k < j < |es| ==> !es[j].Select?) ==>
      r.selectedTodoId == es[k].selection
    decreases |es|
  {
    if es == [] then acc
    else
      var e := es[0];
      var next := if e.Select? then acc.(selectedTodoId := e.selection)
                  else acc.(todos := Dispatch(render, e).todos);
      var rest := es[1..];
      assert |es| > 1 ==> es[|es| - 1] == rest[|rest| - 1];
      assert forall k :: 0 <= k < |rest| ==> rest[k] == es[k + 1];
      DispatchEventFrom(render, next, rest)
  }

  /** One event handler's callbacks applied to the page as rendered. */
  function DispatchEvent(p: Page, es: seq<Effect>): Page {
    DispatchEventFrom(p, p, es)
  }

  /** A handler firing one callback gets what that callback gives alone. */
  lemma DispatchEventSingle(p: Page, e: Effect)
    ensures DispatchEvent(p, [e]) == Dispatch(p, e)
  {
  }

  /** A handler that changes the array once and then the selection (the
      panel's delete button) gets the same page whether its callbacks see the
      render's state or each other's results. */
  lemma DispatchEventSeparateState(p: Page, e: Effect, selection: Option<string>)
    requires !e.Select?
    ensures DispatchEvent(p, [e, Select(selection)]) == DispatchAll(p, [e, Select(selection)])
  {
    var es := [e, Select(selection)];
    assert DispatchAll(p, es) == DispatchAll(Dispatch(p, e), es[1..]);
    assert DispatchAll(Dispatch(p, e), es[1..]) == DispatchAll(Dispatch(Dispatch(p, e), es[1]), es[2..]);
  }

  /** Adding under an id no record carries keeps the ids unique. */
  lemma AddFreshKeepsUniqueIds(p: Page, id: string, now: int)
    requires UniqueIds(p.todos) && FreshId(p.todos, id)
    ensures UniqueIds(HandleAddTodo(p, id, now).todos)
  {
    var r := HandleAddTodo(p, id, now).todos;
    if !IsBlank(p.inputValue) {
      forall i, j | 0 <= i < j < |r| ensures IdOf(r[i]) != IdOf(r[j]) {
        if j < |p.todos| {
          assert IdOf(p.todos[i]) != IdOf(p.todos[j]);
        }
      }
    }
  }

  /** Adding keeps every text non-blank, since a blank box adds nothing. */
  lemma AddKeepsTextsNonBlank(p: Page, id: string, now: int)
    requires TextsNonBlank(p.todos)
    ensures TextsNonBlank(HandleAddTodo(p, id, now).todos)
  {
    var r := HandleAddTodo(p, id, now).todos;
    if !IsBlank(p.inputValue) {
      forall i | 0 <= i < |r| ensures !IsBlank(r[i].text) {
        if i < |p.todos| {
          assert r[i] == p.todos[i];
        }
      }
    }
  }

  /** Every callback keeps ids unique: toggle, edit and memo update leave
      every id where it was and delete only drops records. */
  lemma DispatchKeepsUniqueIds(p: Page, e: Effect)
    requires UniqueIds(p.todos)
    ensures UniqueIds(Dispatch(p, e).todos)
  {
    var r := Dispatch(p, e).todos;
    match e
    case Delete(id) =>
      FilterKeepsKeysDistinct(LacksId(id), IdOf, p.todos);
    case Select(_) =>
    case _ =>
      assert |r| == |p.todos|;
      assert forall i :: 0 <= i < |r| ==> IdOf(r[i]) == IdOf(p.todos[i]);
  }

  /** Every callback keeps all texts non-blank, provided an edit brings a
      non-blank text. */
  lemma DispatchKeepsTextsNonBlank(p: Page, e: Effect)
    requires TextsNonBlank(p.todos)
    requires e.Edit? ==> !IsBlank(e.newText)
    ensures TextsNonBlank(Dispatch(p, e).todos)
  {
    var r := Dispatch(p, e).todos;
    match e
    case Delete(id) =>
      forall i | 0 <= i < |r| ensures !IsBlank(r[i].text) {
        assert r[i] in p.todos;
      }
    case _ =>
  }

  /** One add attempt: what was typed into the box, then the add button, with
      the id and time the clock would give. */
  datatype Entry = Entry(typed: string, id: string, now: int)

  /** Type-then-add, repeated over `entries`. */
  function TypeAndAddAll(p: Page, entries: seq<Entry>): Page
    decreases |entries|
  {
    if entries == [] then p
    else
      var e := entries[0];
      TypeAndAddAll(HandleAddTodo(HandleInputChange(p, e.typed), e.id, e.now), entries[1..])
  }

  /** Number of entries whose text is not blank. */
  function CountVisible(entries: seq<Entry>): nat {
    if entries == [] then 0
    else (if IsBlank(entries[0].typed) then 0 else 1) + CountVisible(entries[1..])
  }

  /** Over any run of add attempts the array grows by the number of attempts
      with a visible character, blank ones adding nothing, and the records
      already there stay in front, in order. */
  lemma {:induction false} AddsCount(p: Page, entries: seq<Entry>)
    ensures |TypeAndAddAll(p, entries).todos| == |p.todos| + CountVisible(entries)
    ensures TypeAndAddAll(p, entries).todos[..|p.todos|] == p.todos
    decreases |entries|
  {
    if entries != [] {
      var e := entries[0];
      var q := HandleAddTodo(HandleInputChange(p, e.typed), e.id, e.now);
      AddsCount(q, entries[1..]);
      var r := TypeAndAddAll(q, entries[1..]).todos;
      assert q.todos[..|p.todos|] == p.todos;
      assert r[..|p.todos|] == r[..|q.todos|][..|p.todos|];
    }
  }

  /** Adding "buy milk" to the empty page gives one active record; toggling it
      moves it to the completed view and leaves the active view empty. */
  lemma BuyMilkScenario(id: string, now: int)
    ensures
      var added := HandleAddTodo(HandleInputChange(InitialPage, "buy milk"), id, now);
      var milk := Todo(id, "buy milk", false, now, None, None);
      && added.todos == [milk]
      && added.inputValue == ""
      && CompletedTodos(HandleToggleTodo(added.todos, id)) == [milk.(completed := true)]
      && ActiveTodos(HandleToggleTodo(added.todos, id)) == []
  {
    NotBlankWhenVisible("buy milk", 0);
    var added := HandleAddTodo(HandleInputChange(InitialPage, "buy milk"), id, now);
    var toggled := HandleToggleTodo(added.todos, id);
    assert toggled == [added.todos[0].(completed := true)];
  }

  /** Adding whitespace only changes nothing. */
  lemma BlankAddScenario(id: string, now: int)
    ensures HandleAddTodo(HandleInputChange(InitialPage, "   "), id, now).todos == []
  {
    BlankIffAllWhitespace("   ");
  }

  /** A run of callbacks keeps every text visible when each edit in it
      brings a non-blank text. */
  lemma {:induction false} DispatchAllKeepsTextsNonBlank(p: Page, es: seq<Effect>)
    requires TextsNonBlank(p.todos)
    requires forall k :: 0 <= k < |es| && es[k].Edit? ==> !IsBlank(es[k].newText)
    ensures TextsNonBlank(DispatchAll(p, es).todos)
    decreases |es|
  {
    if es != [] {
      DispatchKeepsTextsNonBlank(p, es[0]);
      DispatchAllKeepsTextsNonBlank(Dispatch(p, es[0]), es[1..]);
    }
  }
}
