/**
 * The to-do screen as an object: the four pieces of state the screen keeps
 * (the task list, the loading flag, the search text and the add-task draft)
 * and the handlers that replace them. Each handler's contract gives the
 * whole new state in terms of the pure operations of module `Tasks`, where
 * their properties are proved.
 */
module Screen {
  import opened Text
  import opened Tasks

  class TaskScreen {
    var tasks: seq<Task>
    var isLoading: bool
    var searchText: string
    var draft: Draft

    /** The screen as first rendered: no tasks yet, loading, no search and
        an empty draft. */
    constructor()
      ensures tasks == [] && isLoading && searchText == "" && draft == EmptyDraft
    {
      tasks := [];
      isLoading := true;
      searchText := "";
      draft := EmptyDraft;
    }

    /** Loading (on mount and on pull-to-refresh): raise the loading flag,
        install the fixed list, lower the flag. The delay before the list
        arrives is not modelled. */
    method GetTasks()
      modifies this
      ensures tasks == Seed() && !isLoading
      ensures searchText == old(searchText) && draft == old(draft)
    {
      isLoading := true;
      tasks := Seed();
      isLoading := false;
    }

    /** Pressing a task's checkbox toggles that task. */
    method Press(id: int)
      modifies this
      ensures tasks == ToggleCompleted(old(tasks), id)
      ensures isLoading == old(isLoading) && searchText == old(searchText) && draft == old(draft)
    {
      tasks := ToggleCompleted(tasks, id);
    }

    /** A finished swipe deletes the task. */
    method Delete(id: int)
      modifies this
      ensures tasks == WithoutId(old(tasks), id)
      ensures isLoading == old(isLoading) && searchText == old(searchText) && draft == old(draft)
    {
      tasks := WithoutId(tasks, id);
    }

    /** The add handler: a draft whose title is blank after trimming is
        ignored and kept; otherwise the draft becomes a new open task at the
        end of the list and the draft is cleared, which disables the button
        until a new title is typed. The handler itself does not
        look at the loading flag (the button does). */
    method AddTask(newId: int)
      modifies this
      ensures IsBlank(old(draft.title)) ==> tasks == old(tasks) && draft == old(draft)
      ensures !IsBlank(old(draft.title)) ==>
        tasks == old(tasks) + [NewTask(newId, old(draft))] && draft == EmptyDraft && AddDisabled()
      ensures isLoading == old(isLoading) && searchText == old(searchText)
    {
      if IsBlank(draft.title) {
        return;
      }
      var newTask := NewTask(newId, draft);
      tasks := tasks + [newTask];
      draft := EmptyDraft;
    }

    /** The search bar reports new text. */
    method Search(text: string)
      modifies this
      ensures searchText == text
      ensures tasks == old(tasks) && isLoading == old(isLoading) && draft == old(draft)
    {
      searchText := text;
    }

    /** The title field reports new text; the description is kept. */
    method EditTitle(text: string)
      modifies this
      ensures draft == old(draft).(title := text)
      ensures tasks == old(tasks) && isLoading == old(isLoading) && searchText == old(searchText)
    {
      draft := draft.(title := text);
    }

    /** The list handed to the list view. */
    function Visible(): seq<Task>
      reads this
    {
      VisibleTasks(tasks, searchText)
    }

    /** Whether the add button is disabled. */
    function AddDisabled(): bool
      reads this
    {
      AddButtonDisabled(isLoading, draft.title)
    }

    /** What the list view shows when it has no rows. */
    function EmptyMessage(): Option<string>
      reads this
    {
      EmptyListMessage(isLoading, searchText, Visible())
    }
  }
}
