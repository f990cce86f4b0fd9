/**
 * The older delete command, without undo: it takes the task out, shows the
 * message, writes the list, and answers `true`. It checks no index itself
 * and takes no snapshot.
 */
module LegacyCommands {
  import opened Outcomes
  import opened Tasks
  import opened TaskLists
  import opened Effects
  import Commands

  class DeleteCommand {
    const index: int

    constructor (index: int)
      ensures this.index == index
    {
      this.index := index;
    }

    method Execute(taskList: TaskList, ui: Ui, storage: Storage) returns (r: Result<bool>)
      requires ui.log == storage.log
      modifies taskList, ui.log
      // no guard of its own: the list's positional access throws, before anything changes
      ensures !old(taskList.IsValidIndex(index)) ==>
        r == Err(IndexOutOfBounds) && unchanged(taskList, ui.log)
      ensures old(taskList.IsValidIndex(index)) ==>
        && taskList.tasks == RemoveAt(old(taskList.tasks), index)
        && taskList.Values() == RemoveAt(old(taskList.Values()), index)
      // the message is shown before the write; a completed run answers true
      ensures old(taskList.IsValidIndex(index)) ==>
        var message := Commands.RemovalMessage(Display(old(taskList.Values())[index]), |taskList.tasks|);
        && (storage.writable ==>
              && r == Ok(true)
              && ui.log.events == old(ui.log.events) + [Shown(message), Written(taskList.Values())])
        && (!storage.writable ==>
              && r == Err(WriteFailed)
              && ui.log.events == old(ui.log.events) + [Shown(message)])
    {
      ghost var before := taskList.Values();
      var got := taskList.Get(index);
      if got.Err? {
        return Err(got.error);
      }
      var task := got.value;
      var _ := taskList.Remove(index);
      ghost var after := taskList.Values();
      assert task.Value() == before[index];
      ui.ShowMessage(Commands.RemovalMessage(task.ToString(), taskList.Size()));
      var written := storage.WriteToFile(taskList);
      assert taskList.Values() == after;
      if written.Fail? {
        return Err(written.error);
      }
      return Ok(true);
    }
  }
}
