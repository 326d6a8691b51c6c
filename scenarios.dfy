/**
 * Sequences of user actions on a fresh Task Board, showing what the handler
 * contracts let a caller conclude. Both concern the edit cursor, which
 * DeleteTask leaves untouched.
 */
module Scenarios {
  import opened Text
  import opened Tasks
  import opened Dashboard

  /** Add one task, start editing it, delete it, then press Update: the
      cursor now points past the end of the list and the update handler
      throws instead of updating. */
  method DeleteWhileEditingThrows(today: string) returns (thrown: bool)
    ensures thrown
  {
    var board := new TaskBoard();
    board.SetNewTask("a");
    assert !IsWhitespace("a"[0]);
    board.AddTask(today);
    board.EditTask(0);
    board.DeleteTask(0, true);
    assert board.editIndex == Some(0) && board.tasks == [];
    thrown := board.UpdateTask();
  }

  /** Add tasks "a", "b" and "c", start editing "b", delete "a", then
      update: the cursor still says 1, which is now the position of "c", so
      "c" is overwritten with the edited name and "b" keeps its old one. */
  method DeleteWhileEditingRenamesNeighbour(today: string) returns (names: seq<string>)
    ensures names == ["b", "b"]
  {
    var board := new TaskBoard();
    board.SetNewTask("a");
    assert !IsWhitespace("a"[0]);
    board.AddTask(today);
    board.SetNewTask("b");
    assert !IsWhitespace("b"[0]);
    board.AddTask(today);
    board.SetNewTask("c");
    assert !IsWhitespace("c"[0]);
    board.AddTask(today);
    board.EditTask(1);
    board.DeleteTask(0, true);
    assert board.newTask == "b" && board.editIndex == Some(1) && |board.tasks| == 2;
    var thrown := board.UpdateTask();
    assert !thrown;
    names := [board.tasks[0].name, board.tasks[1].name];
  }
}
