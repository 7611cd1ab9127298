/** One row of the list: the component that edits a record's text in place,
    opens its detail panel, and takes an image attachment after checking the
    file's name and size. Its state (`isEditing`, `editText`, `memoText`,
    `imagePreview`, `imageFile`) lives in the fields of an `Item`; what it asks
    of the page through its callbacks comes back from the methods as
    `TodoStore.Effect` values. */
module TodoItem {
  import opened Wrappers
  import opened Text
  import opened TodoStore

  /** A file chosen in the picker: its name and its size in bytes. */
  datatype File = File(name: string, size: nat)

  /** The largest accepted image, 5 MiB. */
  const MaxImageSize: nat := 5 * 1024 * 1024

  /** Verdict on a chosen image. */
  datatype ImageCheck = Ok | InvalidFilename | FileTooLarge

  /** A character of the class `[a-zA-Z0-9._-]`. */
  predicate IsFilenameChar(c: char) {
    ('a' <= c <= 'z') || ('A' <= c <= 'Z') || ('0' <= c <= '9') || c == '.' || c == '_' || c == '-'
  }

  /** The accepted names: at least one character, all of them from the class. */
  predicate FilenameAllowed(name: string) {
    name != [] && forall i :: 0 <= i < |name| ==> IsFilenameChar(name[i])
  }

  /** The test of the anchored pattern `^[a-zA-Z0-9._-]+$`, read as a matcher:
      one class character, then either the end of the input or another match. */
  function MatchesFilenamePattern(name: string): bool {
    name != [] && IsFilenameChar(name[0]) && (|name| == 1 || MatchesFilenamePattern(name[1..]))
  }

  /** The matcher accepts exactly the allowed names. */
  lemma {:induction false} FilenamePatternIff(name: string)
    ensures MatchesFilenamePattern(name) <==> FilenameAllowed(name)
  {
    if |name| > 1 {
      FilenamePatternIff(name[1..]);
      if FilenameAllowed(name) {
        assert forall i :: 0 <= i < |name| - 1 ==> name[1..][i] == name[i + 1];
      } else if MatchesFilenamePattern(name) {
        forall i | 0 <= i < |name| ensures IsFilenameChar(name[i]) {
          if i > 0 { assert name[i] == name[1..][i - 1]; }
        }
      }
    }
  }

  /** The checks of `handleImageChange`, in order: a bad name is reported as
      such whatever the size; a good name is refused only when the file is
      larger than 5 MiB, so exactly 5 MiB passes. */
  function ValidateImage(f: File): (r: ImageCheck)
    ensures r == InvalidFilename <==> !FilenameAllowed(f.name)
    ensures r == FileTooLarge <==> FilenameAllowed(f.name) && f.size > MaxImageSize
    ensures r == Ok <==> FilenameAllowed(f.name) && f.size <= MaxImageSize
  {
    FilenamePatternIff(f.name);
    if !MatchesFilenamePattern(f.name) then InvalidFilename
    else if f.size > MaxImageSize then FileTooLarge
    else Ok
  }

  /** A name with an accented letter is refused as a name; a 6 MiB picture
      with a plain name is refused as too large; a 5 MiB one passes. */
  lemma ImageScenarios(size: nat)
    ensures ValidateImage(File("café.png", size)) == InvalidFilename
    ensures ValidateImage(File("photo.png", 6 * 1024 * 1024)) == FileTooLarge
    ensures ValidateImage(File("photo.png", 5 * 1024 * 1024)) == Ok
  {
    assert !IsFilenameChar("café.png"[3]);
    FilenamePatternIff("photo.png");
  }

  /** The callbacks the detail panel's confirm button fires, in order: the
      edit box's text, whatever it is, then the memo, then closing the panel. */
  function ConfirmEffects(id: string, editText: string, memoText: string): (r: seq<Effect>)
    ensures r == [Edit(id, editText), UpdateMemo(id, memoText), Select(None)]
  {
    [Edit(id, editText), UpdateMemo(id, memoText), Select(None)]
  }

  /** As the page is written, the confirm button loses the edited text: the
      memo update's array is computed from the rendered `todos` and replaces
      the edit's, so only the memo is saved and the panel closes; no record's
      text changes. */
  lemma ConfirmLosesEdit(p: Page, id: string, editText: string, memoText: string)
    ensures DispatchEvent(p, ConfirmEffects(id, editText, memoText))
         == p.(todos := HandleMemoUpdate(p.todos, id, memoText), selectedTodoId := None)
    ensures forall i :: 0 <= i < |p.todos| ==>
      DispatchEvent(p, ConfirmEffects(id, editText, memoText)).todos[i].text == p.todos[i].text
  {
    var es := ConfirmEffects(id, editText, memoText);
    var afterEdit := p.(todos := HandleEditTodo(p.todos, id, editText));
    var afterMemo := afterEdit.(todos := HandleMemoUpdate(p.todos, id, memoText));
    assert DispatchEvent(p, es) == DispatchEventFrom(p, afterEdit, es[1..]);
    assert DispatchEventFrom(p, afterEdit, es[1..]) == DispatchEventFrom(p, afterMemo, es[2..]);
  }

  /** With each callback seeing the previous one's result (functional updates,
      `setTodos(prev => ...)`), confirming saves both: every record carrying
      the id gets the edited text and the memo, every other record stays as
      it was, and the panel closes. */
  lemma ConfirmSavesTextAndMemo(p: Page, id: string, editText: string, memoText: string)
    ensures
      var r := DispatchAll(p, ConfirmEffects(id, editText, memoText));
      && |r.todos| == |p.todos|
      && r.selectedTodoId == None
      && (forall i :: 0 <= i < |p.todos| && p.todos[i].id == id ==>
            r.todos[i] == p.todos[i].(text := editText, memo := Some(memoText)))
      && (forall i :: 0 <= i < |p.todos| && p.todos[i].id != id ==> r.todos[i] == p.todos[i])
  {
    var es := ConfirmEffects(id, editText, memoText);
    var afterEdit := Dispatch(p, es[0]);
    var afterMemo := Dispatch(afterEdit, es[1]);
    assert DispatchAll(p, es) == DispatchAll(afterEdit, es[1..]);
    assert DispatchAll(afterEdit, es[1..]) == DispatchAll(afterMemo, es[2..]);
    assert DispatchAll(afterMemo, es[2..]) == DispatchAll(Dispatch(afterMemo, es[2]), []);
  }

  /** The row component's state. `todo` is the record it shows, which the
      page passes in again after every change to the array. */
  class Item {
    var todo: Todo
    var isEditing: bool
    var editText: string
    var memoText: string
    var imagePreview: string
    var imageFile: Option<File>

    /** The initial state: not editing, the edit box holding the record's
        text, the memo box its memo, the preview its image, no file chosen. */
    constructor (todo: Todo)
      ensures this.todo == todo
      ensures !isEditing && editText == todo.text
      ensures memoText == todo.memo.GetOr("") && imagePreview == todo.imageUrl.GetOr("")
      ensures imageFile == None
    {
      this.todo := todo;
      isEditing := false;
      editText := todo.text;
      memoText := todo.memo.GetOr("");
      imagePreview := todo.imageUrl.GetOr("");
      imageFile := None;
    }

    /** A re-render with the record as it now is in the array, while this row
        stays mounted. The row is keyed by the id inside its section's list,
        and the list holds every record only while no detail panel is open
        (`selected == None`); while a panel is open it holds only the selected
        record. So the row keeps its state exactly when the record stays in
        the same section and the render shows it: only the `todo` prop
        changes, and the edit box, memo box, chosen file and preview keep what
        they hold. In every other case (a toggle moves the record to the other
        section's list, or another record's panel is opened) the row is
        unmounted, and when the record is shown again a new row is mounted
        from its initial state, as built by the constructor. */
    method ReceiveProps(t: Todo, selected: Option<string>)
      requires t.id == todo.id && t.completed == todo.completed
      requires selected == None || selected == Some(todo.id)
      modifies this`todo
      ensures todo == t
    {
      todo := t;
    }

    /** Typing in the edit box. */
    method ChangeEditText(value: string)
      modifies this`editText
      ensures editText == value
    {
      editText := value;
    }

    /** Typing in the memo box. */
    method ChangeMemoText(value: string)
      modifies this`memoText
      ensures memoText == value
    {
      memoText := value;
    }

    /** The pencil button (and the text's double-click handler): editing
        starts only on a record that is not completed. In the page a click on
        the text first selects the record and replaces the row by the detail
        panel, so only the pencil button, whose container stops the click,
        reaches this in practice. */
    method StartEditing()
      modifies this`isEditing
      ensures isEditing == (old(isEditing) || !todo.completed)
    {
      if !todo.completed {
        isEditing := true;
      }
    }

    /** `handleSave`: a blank edit box changes nothing and asks nothing of the
        page; otherwise the text goes to the page and editing ends. */
    method Save() returns (effect: Option<Effect>)
      modifies this`isEditing
      ensures IsBlank(editText) ==> effect == None && isEditing == old(isEditing)
      ensures !IsBlank(editText) ==> effect == Some(Edit(todo.id, editText)) && !isEditing
    {
      effect := None;
      if !IsBlank(editText) {
        effect := Some(Edit(todo.id, editText));
        isEditing := false;
      }
    }

    /** `handleKeyPress`: Enter is `handleSave`; Escape puts the record's text
        back in the edit box and ends editing; any other key does nothing. */
    method HandleKeyPress(key: string) returns (effect: Option<Effect>)
      modifies this`isEditing, this`editText
      ensures key == "Enter" ==> editText == old(editText)
      ensures key == "Enter" && IsBlank(editText) ==> effect == None && isEditing == old(isEditing)
      ensures key == "Enter" && !IsBlank(editText) ==> effect == Some(Edit(todo.id, editText)) && !isEditing
      ensures key == "Escape" ==> effect == None && editText == todo.text && !isEditing
      ensures key != "Enter" && key != "Escape" ==>
        effect == None && isEditing == old(isEditing) && editText == old(editText)
    {
      effect := None;
      if key == "Enter" {
        effect := Save();
      } else if key == "Escape" {
        editText := todo.text;
        isEditing := false;
      }
    }

    /** `handleImageChange`, up to the file being taken: no file means nothing
        happens; a refused file (bad name first, then size) leaves the chosen
        file and the preview as they were, the picker being cleared; an
        accepted file becomes the chosen file. The outcome is `None` when no
        file was given, otherwise the verdict. */
    method HandleImageChange(chosen: Option<File>) returns (outcome: Option<ImageCheck>)
      modifies this`imageFile
      ensures chosen == None ==> outcome == None
      ensures chosen.Some? ==> outcome == Some(ValidateImage(chosen.value))
      ensures outcome == Some(Ok) ==> imageFile == chosen
      ensures outcome != Some(Ok) ==> imageFile == old(imageFile)
    {
      if chosen == None {
        return None;
      }
      var f := chosen.value;
      if !MatchesFilenamePattern(f.name) {
        FilenamePatternIff(f.name);
        return Some(InvalidFilename);
      }
      if f.size > MaxImageSize {
        FilenamePatternIff(f.name);
        return Some(FileTooLarge);
      }
      FilenamePatternIff(f.name);
      imageFile := chosen;
      outcome := Some(Ok);
    }

    /** `handleImageRemove`: no file chosen and no preview. */
    method HandleImageRemove()
      modifies this`imageFile, this`imagePreview
      ensures imageFile == None && imagePreview == ""
    {
      imageFile := None;
      imagePreview := "";
    }

    /** A click on the row opens the detail panel, unless the text is being
        edited. */
    method ClickRow() returns (effect: Option<Effect>)
      ensures isEditing ==> effect == None
      ensures !isEditing ==> effect == Some(Select(Some(todo.id)))
    {
      effect := if isEditing then None else Some(Select(Some(todo.id)));
    }

    /** A click on the row's checkbox toggles the record, unless the text is
        being edited. */
    method ClickCheckbox() returns (effect: Option<Effect>)
      ensures isEditing ==> effect == None
      ensures !isEditing ==> effect == Some(Toggle(todo.id))
    {
      effect := if isEditing then None else Some(Toggle(todo.id));
    }

    /** The row's delete button: deletes the record, editing or not. */
    method ClickDelete() returns (effect: Effect)
      ensures effect == Delete(todo.id)
    {
      effect := Delete(todo.id);
    }

    /** The detail panel's checkbox: toggles the record with no editing guard
        (the inline editor is not shown while the panel is open). */
    method ClickDetailsCheckbox() returns (effect: Effect)
      ensures effect == Toggle(todo.id)
    {
      effect := Toggle(todo.id);
    }

    /** The detail panel's delete button: deletes the record, then closes the
        panel. */
    method ClickDetailsDelete() returns (effects: seq<Effect>)
      ensures effects == [Delete(todo.id), Select(None)]
    {
      effects := [Delete(todo.id), Select(None)];
    }

    /** The detail panel's confirm button: sends the edit box's text with no
        blank check, then the memo, then closes the panel. */
    method ConfirmDetails() returns (effects: seq<Effect>)
      ensures effects == [Edit(todo.id, editText), UpdateMemo(todo.id, memoText), Select(None)]
    {
      effects := ConfirmEffects(todo.id, editText, memoText);
    }
  }

  /** Saving an inline edit and handing the result to the page keeps every
      record's text visible. */
  method CommitInlineEdit(item: Item, p: Page) returns (q: Page)
    requires TextsNonBlank(p.todos)
    modifies item`isEditing
    ensures TextsNonBlank(q.todos)
    ensures q.todos == if IsBlank(item.editText) then p.todos
                       else HandleEditTodo(p.todos, item.todo.id, item.editText)
  {
    var effect := item.Save();
    q := p;
    if effect.Some? {
      var e := effect.value;
      assert e == Edit(item.todo.id, item.editText) && !IsBlank(e.newText);
      DispatchKeepsTextsNonBlank(p, e);
      q := p.(todos := HandleEditTodo(p.todos, e.id, e.newText));
    }
  }
}
