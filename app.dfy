/**
 * The state of the to-do page component and its event handlers. The component
 * owns two pieces of state, the task list and the draft text of the input box;
 * each handler is one atomic transition of that state. The fresh identifier that
 * the page draws from a random generator, and the answer of the blocking yes/no
 * confirmation dialog, are parameters of the handlers that need them.
 */
module AppComponent {
  import opened Tasks

  class App<Id(==)> {
    var tasks: seq<Task<Id>>
    var inputValue: string

    /** The component invariant: task ids are unique and no task has empty text. */
    ghost predicate Valid()
      reads this
    {
      && UniqueIds(tasks)
      && forall i :: 0 <= i < |tasks| ==> tasks[i].text != ""
    }

    /** Initial state: no tasks and an empty draft. */
    constructor ()
      ensures Valid()
      ensures tasks == [] && inputValue == ""
    {
      tasks := [];
      inputValue := "";
    }

    /** The number shown as "completed" in the list header. */
    function CheckedTasksCounter(): (n: nat)
      reads this
      ensures n <= |tasks|
      ensures n == |CheckedTasks(tasks)|
      ensures n == 0 <==> forall i :: 0 <= i < |tasks| ==> !tasks[i].isChecked
      ensures n == |tasks| <==> forall i :: 0 <= i < |tasks| ==> tasks[i].isChecked
    {
      CheckedCountIsCheckedTasks(tasks);
      CheckedCountZero(tasks);
      CheckedCountAll(tasks);
      CheckedCount(tasks)
    }

    /** Whether the "create" button is disabled. */
    function IsInputEmpty(): (empty: bool)
      reads this
      ensures empty <==> inputValue == ""
    {
      |inputValue| == 0
    }

    /** The input box's change handler: replaces the draft, nothing else. */
    method SetInputValue(text: string)
      requires Valid()
      modifies this
      ensures Valid()
      ensures inputValue == text
      ensures tasks == old(tasks)
    {
      inputValue := text;
    }

    /**
     * Adds the draft as a new unchecked task at the end of the list and clears
     * the draft; an empty draft leaves the state as it is. `freshId` stands for
     * the random identifier the page generates, which is assumed not to clash.
     */
    method HandleAddTask(freshId: Id)
      requires Valid()
      requires inputValue != "" ==> !HasId(tasks, freshId)
      modifies this
      ensures Valid()
      ensures old(inputValue) == "" ==> tasks == old(tasks) && inputValue == old(inputValue)
      ensures old(inputValue) != "" ==>
        && |tasks| == |old(tasks)| + 1
        && tasks[..|old(tasks)|] == old(tasks)
        && tasks[|old(tasks)|] == Task(freshId, old(inputValue), false)
        && inputValue == ""
      ensures CheckedCount(tasks) == CheckedCount(old(tasks))
    {
      if inputValue == "" {
        return;
      }
      var newTask := Task(freshId, inputValue, false);
      CheckedCountSplit(tasks, newTask, []);
      assert tasks + [newTask] + [] == tasks + [newTask];
      tasks := tasks + [newTask];
      inputValue := "";
    }

    /**
     * Removes every task with id `id` when the user confirms, keeping the others
     * in order; a declined confirmation changes nothing.
     */
    method HandleRemoveTask(id: Id, confirmed: bool)
      requires Valid()
      modifies this
      ensures Valid()
      ensures tasks == if confirmed then RemoveById(old(tasks), id) else old(tasks)
      ensures inputValue == old(inputValue)
    {
      var filteredTasks := RemoveById(tasks, id);
      if !confirmed {
        return;
      }
      RemoveByIdKeepsUnique(tasks, id);
      RemoveByIdMembers(tasks, id);
      tasks := filteredTasks;
    }

    /**
     * Sets the completion flag of the first task with id `id` to `value`,
     * working on a copy of the list; an id not in the list changes nothing.
     */
    method HandleToggleTask(id: Id, value: bool)
      requires Valid()
      modifies this
      ensures Valid()
      ensures tasks == Toggle(old(tasks), id, value)
      ensures inputValue == old(inputValue)
    {
      var updatedTasks := tasks;
      var taskIndex := FindIndex(updatedTasks, id);
      if taskIndex != -1 {
        updatedTasks := updatedTasks[taskIndex := updatedTasks[taskIndex].(isChecked := value)];
      }
      ToggleKeepsIds(tasks, id, value);
      tasks := updatedTasks;
    }
  }

  /**
   * A session on the page: add "Buy milk", mark it done, decline and then
   * accept its removal. Only the handlers' contracts are used.
   */
  method Session<Id(==)>(a: Id)
  {
    var app := new App<Id>();
    app.SetInputValue("Buy milk");
    app.HandleAddTask(a);
    assert app.tasks == [Task(a, "Buy milk", false)] && app.inputValue == "";
    assert app.CheckedTasksCounter() == 0;
    app.HandleToggleTask(a, true);
    assert app.tasks == [Task(a, "Buy milk", true)];
    assert app.CheckedTasksCounter() == 1;
    app.HandleRemoveTask(a, false);
    assert |app.tasks| == 1;
    app.HandleRemoveTask(a, true);
    assert app.tasks == [];
  }
}
