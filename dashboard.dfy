/**
 * The Task Board component: its four pieces of state and the handlers that
 * change them. The counts and category lists it renders are the functions of
 * module Tasks applied to `tasks`.
 */
module Dashboard {
  import opened Text
  import opened Tasks

  datatype Option<T> = None | Some(value: T)

  /** `task.category || "daily"`: a missing (empty) category falls back to
      the default. */
  function CategoryOrDefault(category: string): (c: string)
    ensures category != "" ==> c == category
    ensures category == "" ==> c == Daily
    ensures category in Labels ==> c in Labels
  {
    if category == "" then Daily else category
  }

  class TaskBoard {
    /** The task list, in the order the tasks were added. */
    var tasks: seq<Task>
    /** The text of the task name input. */
    var newTask: string
    /** The position of the task being edited, if any. */
    var editIndex: Option<nat>
    /** The category chosen in the form's select. */
    var taskCategory: string

    /** Every category on the board is one of the four labels, so every task
        appears in one of the four rendered lists. */
    predicate Labelled()
      reads this
    {
      taskCategory in Labels && AllLabelled(tasks)
    }

    /** The initial state of the component: no tasks, an empty input, no
        edit cursor and the default category. */
    constructor ()
      ensures tasks == [] && newTask == "" && editIndex == None && taskCategory == Daily
      ensures Labelled()
    {
      tasks := [];
      newTask := "";
      editIndex := None;
      taskCategory := Daily;
    }

    /** Typing into the task name input. */
    method SetNewTask(text: string)
      modifies this
      ensures newTask == text
      ensures tasks == old(tasks) && editIndex == old(editIndex) && taskCategory == old(taskCategory)
    {
      newTask := text;
    }

    /** Choosing one of the four options of the category select. */
    method SelectCategory(category: string)
      requires category in Labels
      modifies this
      ensures taskCategory == category
      ensures tasks == old(tasks) && newTask == old(newTask) && editIndex == old(editIndex)
      ensures old(Labelled()) ==> Labelled()
    {
      taskCategory := category;
    }

    /** handleAddTask, with `today` the timestamp the browser supplies. A
        blank name changes nothing; otherwise exactly one task, not completed,
        is appended and the form is reset. */
    method AddTask(today: string)
      modifies this
      ensures IsBlank(old(newTask)) ==>
        tasks == old(tasks) && newTask == old(newTask) && taskCategory == old(taskCategory)
      ensures !IsBlank(old(newTask)) ==>
        && tasks == old(tasks) + [Task(old(newTask), false, today, old(taskCategory))]
        && newTask == ""
        && taskCategory == Daily
      ensures editIndex == old(editIndex)
      ensures old(Labelled()) ==> Labelled()
    {
      var blank := TrimmedIsEmpty(newTask);
      if blank {
        return;
      }
      var added := Task(newTask, false, today, taskCategory);
      if Labelled() {
        AppendKeepsLabels(tasks, added);
      }
      tasks := tasks + [added];
      newTask := "";
      taskCategory := Daily;
    }

    /** handleDeleteTask, with `confirmed` the answer to the confirmation
        dialog. When confirmed, the task at `index` is removed and the others
        keep their order; an index outside the list removes nothing. The edit
        cursor is left as it is. */
    method DeleteTask(index: int, confirmed: bool)
      modifies this
      ensures tasks == if confirmed then WithoutIndex(old(tasks), index) else old(tasks)
      ensures newTask == old(newTask) && editIndex == old(editIndex) && taskCategory == old(taskCategory)
      ensures old(Labelled()) ==> Labelled()
    {
      if !confirmed {
        return;
      }
      if Labelled() {
        RemoveKeepsLabels(tasks, index);
      }
      tasks := WithoutIndex(tasks, index);
    }

    /** handleEditTask: loads the task at `index` into the form and makes it
        the edit cursor. */
    method EditTask(index: nat)
      requires index < |tasks|
      modifies this
      ensures newTask == old(tasks)[index].name
      ensures editIndex == Some(index)
      ensures taskCategory == CategoryOrDefault(old(tasks)[index].category)
      ensures tasks == old(tasks)
      ensures old(Labelled()) ==> Labelled()
    {
      newTask := tasks[index].name;
      editIndex := Some(index);
      taskCategory := CategoryOrDefault(tasks[index].category);
    }

    /** handleUpdateTask. A blank name changes nothing. Otherwise, when the
        edit cursor is missing or lies outside the list, the source's
        `updated[editIndex]` is undefined and the handler throws a TypeError
        before changing anything (`thrown`). Otherwise the name and category
        of the task at the cursor are overwritten and the form is reset. */
    method UpdateTask() returns (thrown: bool)
      modifies this
      ensures thrown <==>
        !IsBlank(old(newTask)) && !(old(editIndex).Some? && old(editIndex).value < |old(tasks)|)
      ensures IsBlank(old(newTask)) || thrown ==>
        tasks == old(tasks) && newTask == old(newTask)
        && editIndex == old(editIndex) && taskCategory == old(taskCategory)
      ensures !IsBlank(old(newTask)) && !thrown ==>
        && tasks == RenameAt(old(tasks), old(editIndex).value, old(newTask), old(taskCategory))
        && newTask == ""
        && editIndex == None
        && taskCategory == Daily
      ensures old(Labelled()) ==> Labelled()
    {
      thrown := false;
      var blank := TrimmedIsEmpty(newTask);
      if blank {
        return;
      }
      var inRange := editIndex.Some? && editIndex.value < |tasks|;
      if !inRange {
        thrown := true;
        return;
      }
      var i := editIndex.value;
      if Labelled() {
        RenameKeepsLabels(tasks, i, newTask, taskCategory);
      }
      tasks := RenameAt(tasks, i, newTask, taskCategory);
      newTask := "";
      editIndex := None;
      taskCategory := Daily;
    }

    /** handleCheckboxToggle: flips the completion of the task at `index`. */
    method ToggleTask(index: nat)
      requires index < |tasks|
      modifies this
      ensures tasks == ToggleAt(old(tasks), index)
      ensures newTask == old(newTask) && editIndex == old(editIndex) && taskCategory == old(taskCategory)
      ensures old(Labelled()) ==> Labelled()
    {
      if Labelled() {
        ToggleKeepsLabels(tasks, index);
      }
      tasks := ToggleAt(tasks, index);
    }
  }
}
