/**
 * The two collaborators a command talks to: the user interface, which shows
 * a message, and the storage, which writes the whole list to the data file.
 * Neither is modelled beyond the order and content of what it was handed:
 * both append to one ghost log of observable effects.
 */
module Effects {
  import opened Outcomes
  import opened Tasks
  import opened TaskLists

  datatype Effect =
    | Shown(message: string)            // Ui.showMessage
    | Written(contents: seq<TaskValue>) // Storage.writeToFile succeeded with these tasks

  /** Everything shown to the user and written to the data file, oldest first. */
  class Log {
    ghost var events: seq<Effect>

    constructor ()
      ensures events == []
    {
      events := [];
    }
  }

  class Ui {
    const log: Log

    constructor (log: Log)
      ensures this.log == log
    {
      this.log := log;
    }

    method ShowMessage(message: string)
      modifies log
      ensures log.events == old(log.events) + [Shown(message)]
    {
      log.events := log.events + [Shown(message)];
    }
  }

  /** The data file; `writable` stands for whether the file system accepts the write. */
  class Storage {
    const log: Log
    const writable: bool

    constructor (log: Log, writable: bool)
      ensures this.log == log && this.writable == writable
    {
      this.log := log;
      this.writable := writable;
    }

    /** Writes every task of the list; a failed write throws and records nothing. */
    method WriteToFile(taskList: TaskList) returns (r: Outcome)
      modifies log
      ensures writable ==> r == Pass && log.events == old(log.events) + [Written(taskList.Values())]
      ensures !writable ==> r == Fail(WriteFailed) && log.events == old(log.events)
    {
      if writable {
        log.events := log.events + [Written(taskList.Values())];
        r := Pass;
      } else {
        r := Fail(WriteFailed);
      }
    }
  }
}
