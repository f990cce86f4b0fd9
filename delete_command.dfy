/**
 * The undo-enabled delete command: check the index, push a deep copy of the
 * whole list onto the undo history, remove the task, write the list through
 * to storage, then show and return the message.
 */
module Commands {
  import opened Outcomes
  import opened JavaText
  import opened Tasks
  import opened TaskLists
  import opened Effects

  const InvalidIndex := "INVALID INDEX"

  /** The message of a removal: the removed task's rendering and the new size. */
  function RemovalMessage(removed: string, size: nat): string
  {
    "TASK REMOVED:\n" + removed + "\n" + NatText(size) + " TASK(S) NOW."
  }

  /** The message names the removed task on its own line and ends with the count left. */
  lemma RemovalMessageReadsBack(removed: string, size: nat)
    ensures var m := RemovalMessage(removed, size);
            var k := 15 + |removed|;
            && |m| == k + |NatText(size)| + 13
            && m[..14] == "TASK REMOVED:\n"
            && m[14..14 + |removed|] == removed
            && m[14 + |removed|] == '\n'
            && m[k + |NatText(size)|..] == " TASK(S) NOW."
            && AllDigits(m[k..k + |NatText(size)|])
            && DigitsValue(m[k..k + |NatText(size)|]) == size
  {
    var m := RemovalMessage(removed, size);
    var k := 15 + |removed|;
    assert m[k..k + |NatText(size)|] == NatText(size);
    NatTextRoundTrip(size);
  }

  class DeleteCommand {
    /** 0-based position of the task to remove, unchecked until execution. */
    const index: int

    constructor (index: int)
      ensures this.index == index
    {
      this.index := index;
    }

    method Execute(taskList: TaskList, ui: Ui, storage: Storage, taskStack: TaskStack)
      returns (r: Result<string>)
      requires ui.log == storage.log
      modifies taskList, taskStack, ui.log
      // an index out of range: an error, and nothing pushed, removed, written or shown
      ensures !old(taskList.IsValidIndex(index)) ==>
        && r == Err(Duke(InvalidIndex))
        && unchanged(taskList, taskStack, ui.log)
      // otherwise exactly one snapshot, of the list before the removal, held by new objects
      ensures old(taskList.IsValidIndex(index)) ==>
        && |taskStack.snapshots| == |old(taskStack.snapshots)| + 1
        && taskStack.snapshots[..|old(taskStack.snapshots)|] == old(taskStack.snapshots)
        && var snapshot := taskStack.snapshots[|taskStack.snapshots| - 1];
           && fresh(snapshot) && fresh(snapshot.Elements())
           && snapshot.Values() == old(taskList.Values())
      // the task at `index` is gone, the others keep their order
      ensures old(taskList.IsValidIndex(index)) ==>
        && taskList.tasks == RemoveAt(old(taskList.tasks), index)
        && taskList.Values() == RemoveAt(old(taskList.Values()), index)
      // written first, then the same message shown and returned; a failed write throws
      ensures old(taskList.IsValidIndex(index)) ==>
        var message := RemovalMessage(Display(old(taskList.Values())[index]), |taskList.tasks|);
        && (storage.writable ==>
              && r == Ok(message)
              && ui.log.events == old(ui.log.events) + [Written(taskList.Values()), Shown(message)])
        && (!storage.writable ==> r == Err(WriteFailed) && ui.log.events == old(ui.log.events))
    {
      if !taskList.IsValidIndex(index) {
        return Err(Duke(InvalidIndex));
      }
      var task := taskList.Get(index).value;
      var copiedTaskList := PushSnapshot(taskList, taskStack);
      r := RemoveAndReport(task, index, taskList, ui, storage);
    }

    /**
     * The steps after the snapshot: remove the task at `index`, write the
     * list, then build, show and return the message; a failed write throws
     * before anything is shown.
     */
    static method RemoveAndReport(task: Task, index: int, taskList: TaskList, ui: Ui, storage: Storage)
      returns (r: Result<string>)
      requires taskList.IsValidIndex(index) && task == taskList.tasks[index]
      requires ui.log == storage.log
      modifies taskList, ui.log
      ensures taskList.tasks == RemoveAt(old(taskList.tasks), index)
      ensures taskList.Values() == RemoveAt(old(taskList.Values()), index)
      ensures var message := RemovalMessage(Display(old(taskList.Values())[index]), |taskList.tasks|);
        && (storage.writable ==>
              && r == Ok(message)
              && ui.log.events == old(ui.log.events) + [Written(taskList.Values()), Shown(message)])
        && (!storage.writable ==> r == Err(WriteFailed) && ui.log.events == old(ui.log.events))
    {
      ghost var before := taskList.Values();
      var _ := taskList.Remove(index);
      ghost var after := taskList.Values();
      var written := storage.WriteToFile(taskList);
      assert taskList.Values() == after;
      if written.Fail? {
        return Err(written.error);
      }
      assert task.Value() == before[index];
      var output := RemovalMessage(task.ToString(), taskList.Size());
      ui.ShowMessage(output);
      assert taskList.Values() == after;
      return Ok(output);
    }

    /** Pushes a deep copy of the list, taken before anything changes, onto the history. */
    static method PushSnapshot(taskList: TaskList, taskStack: TaskStack) returns (copiedTaskList: TaskList)
      modifies taskStack
      ensures taskStack.snapshots == old(taskStack.snapshots) + [copiedTaskList]
      ensures fresh(copiedTaskList) && fresh(copiedTaskList.Elements())
      ensures copiedTaskList.Values() == taskList.Values() == old(taskList.Values())
    {
      copiedTaskList := new TaskList();
      copiedTaskList.Copy(taskList);
      taskStack.Push(copiedTaskList);
      assert copiedTaskList.Values() == old(taskList.Values());
    }

    predicate IsExitCommand()
      ensures !IsExitCommand()
    {
      false
    }
  }
}
