# Duke task tracker: parser, tasks and delete commands in Dafny

This project models the core of a small command-line task tracker written in
Java. The user types one line per command. The first word names the command,
in any letter case, and the rest of the line is its argument. The parser turns
the line into a command object. Commands then act on an ordered list of tasks,
on an undo history of whole-list snapshots, on the user interface and on a data
file.

The model covers:

- **Tasks** (`tasks.dfy`, module `Tasks`). A task is a class with a
  description, a done flag that `MarkAsDone` and `MarkAsUndone` change in
  place, and a constant kind (to-do, deadline or event, the latter two with a
  time). The event's renderings are modelled: the storage line (`toData`) and
  the display line (`toString`). So is its copy, a fresh object that shares
  nothing with the original.
- **Date-times** (`date_time.dfy`, module `DateTimes`). This covers the input
  layout `dd-MM-yyyy HH:mm` that the parser's formatter reads. It also covers
  the ISO text `yyyy-MM-ddTHH:mm` that `LocalDateTime` prints into the storage
  line, and the display text `HH:mm, MMM dd yyyy`.
- **The Java library functions the parser relies on** (`java_text.dfy`, module
  `JavaText`): `String.split` with a literal divider (unlimited and with a
  limit of 2), `trim`, ASCII `toUpperCase`, `Integer.parseInt` with its 32-bit
  range, and the decimal text of numbers.
- **The parser** (`parser.dfy`, module `Parser`). This covers the command-word
  enumeration and its `valueOf` lookup, `parseIndex` with 32-bit wrap-around,
  `parseDescription`, `parseTime`, and `parse`. `parse` includes its switch
  and its handler that turns an index out of bounds into "too few arguments".
- **The task list and undo history** (`task_list.dfy`, module `TaskLists`),
  as far as the delete commands use them: range check, positional access,
  removal, deep copy, and push.
- **The user interface and the data file** (`effects.dfy`, module `Effects`).
  Both append what they were handed to one ghost log, so the order of "shown"
  and "written" can be stated.
- **The undo-enabled delete command** (`delete_command.dfy`, module
  `Commands`). It checks the index, pushes a deep copy of the list, removes the
  task, writes the list, then shows and returns the message.
- **The older delete command without undo** (`legacy_delete_command.dfy`,
  module `LegacyCommands`). It removes the task, shows the message, writes the
  list, and answers `true`.
- **Java exceptions** (`outcomes.dfy`). They become the `Err` side of a
  `Result`, and the `Failure` datatype names which exception it was:
  - `Duke(message)` is the program's own exception;
  - `NumberFormat(text)` is `Integer.parseInt`'s exception;
  - `IndexOutOfBounds` is an array or list index out of range;
  - `WriteFailed` is a failed write to the data file.

Behaviour worth knowing, as the code has it:

- **`mark`, `unmark` and `delete` accept any 32-bit number.** `0` and negative
  numbers become negative indices, left to the command's range check. Text
  that is not a number is not turned into a user error: the
  NumberFormatException escapes `parse` (`ParseIndexedNotANumber`).
- **`-2147483648` becomes index 2147483647.** `Integer.parseInt(...) - 1`
  wraps round in 32 bits (`ParseIndexWraps`).
- **A divider alone is "too few arguments".** An event or deadline argument
  such as `" /at "` splits into no pieces at all. `parseDescription` then reads
  past the end, and the line is reported as "too few arguments"
  (`ParseTimedOnlyDivider`), not as a missing time.
- **The time is the text up to the next divider.** In
  `deadline a /by b /by c`, the time text is `b`, so the line is an invalid
  time format. Only when nothing but dividers follows the first one is no
  time supplied (`ParseTime`).
- **A day past the end of its month is moved back to the month's last day.**
  The formatter resolves dates in its default "smart" style, so
  `31-02-2024 10:00` is read as 29 February 2024, 10:00 (`ClampDay`,
  `ParsePatternText`).
- **Empty descriptions are accepted** (`todo ` gives a to-do with an empty
  description).
- **A failed write is not rolled back.** When the data file cannot be written,
  the undo-enabled delete has already pushed the snapshot and removed the task.
  The error is raised after those changes, which are kept (`Execute`'s
  postcondition for `!storage.writable`). The legacy delete has also already
  shown its message by then.

## Model

The functions that compute the renderings and helpers have no rows of their
own. Their properties are stated by the lemma and method rows that cite the
same lines:

- `Tasks.TaskString` and `Tasks.Task.ToString`: `TaskStringReadsBack` and
  `TaskStringInjective`.
- `Tasks.EventString`: `EventStringStart`.
- `Tasks.EventData` and `Tasks.Task.ToData`: `EventDataLossless`, and
  `Task.Copy` for the copy's storage line.
- `DateTimes.IsoText`: `IsoTextInjective`.
- `DateTimes.DisplayText`: no lemma states its layout; it appears only inside
  the event display line, whose start `EventStringStart` states.
- `JavaText.ToUpper`: `ParseIgnoresCase` and `ParseCommandLine`.
- `JavaText.Trim`: `TrimKeepsCore`.
- `TaskLists.TaskList.IsValidIndex`: `TaskList.Get`, `TaskList.Remove` and
  `DeleteCommand.Execute`, whose contracts use it as their guard.
- `Parser.Catch`: `Parse`, and `MissingArgument` and `ParseTimedOnlyDivider`
  for the "too few arguments" it produces.
- `Commands.RemovalMessage`: `RemovalMessageReadsBack`.

| member | source | states |
|---|---|---|
| Tasks.Task.constructor | src/main/java/duke/task/Task.java:25-28 | the new task holds exactly the description, flag and kind it was given, with no check on the description |
| Tasks.Task.MarkAsDone | src/main/java/duke/task/Task.java:30-32 | afterwards the task is done whatever it was before (so marking is idempotent); the description is unchanged |
| Tasks.Task.MarkAsUndone | src/main/java/duke/task/Task.java:34-36 | afterwards the task is not done whatever it was before; the description is unchanged |
| Tasks.TaskStringReadsBack | src/main/java/duke/task/Task.java:45-48 | the display line is 4 characters longer than the description, starts with `[X] ` exactly when done (`[ ] ` otherwise), and ends with the description verbatim |
| Tasks.TaskStringInjective | src/main/java/duke/task/Task.java:45-48 | two display lines are equal if and only if flag and description are equal |
| Tasks.EventStringStart | src/main/java/duke/task/Event.java:54-59 | an event's display line starts with `[E][X] ` when done and `[E][ ] ` otherwise |
| Tasks.EventDataLossless | src/main/java/duke/task/Event.java:34-37 | for calendar dates with a four-digit year, equal storage lines mean equal description, flag and time, even when the description holds the field separator |
| DateTimes.IsoTextInjective | src/main/java/duke/task/Event.java:36 | for calendar dates with a four-digit year, the time's text in the storage line is 16 characters and determines the time |
| Tasks.Task.Copy | src/main/java/duke/task/Event.java:44-47 | the copy is a fresh object with the same description, flag and kind, and the same storage line |
| Tasks.MarkCopy | src/main/java/duke/task/Event.java:44-47 | marking a copy as done leaves the original's value unchanged |
| Tasks.UnmarkAfterCopy | src/main/java/duke/task/Event.java:44-47 | unmarking the original after copying it leaves the copy with the original's old value |
| DateTimes.ReadLayout | src/main/java/duke/logic/Parser.java:31-32 | the layout is read only from a text that is exactly the `dd-MM-yyyy HH:mm` text of the fields it yields, each field in its range |
| DateTimes.ClampDay | src/main/java/duke/logic/Parser.java:31-32 | the resolver's result is a calendar date; only the day changes, and only when it is past the month's end, to the month's last day |
| DateTimes.ParseDateTime | src/main/java/duke/logic/Parser.java:31-32 | a text is accepted exactly when its layout is read; the result is a calendar date with a four-digit year that agrees with the text in every field, except a day past the month's end, which becomes the month's last day |
| DateTimes.ParsePatternText | src/main/java/duke/logic/Parser.java:31-32 | the layout text of every in-range time with a four-digit year is read as that time with its day clamped, so every calendar date is read back unchanged |
| JavaText.ParseInt | src/main/java/duke/logic/Parser.java:35 | `Integer.parseInt` either yields a 32-bit value from a text starting with a digit or sign, or fails with a number format failure naming the text |
| JavaText.ParseIntText | src/main/java/duke/logic/Parser.java:35 | every 32-bit int is read back from its own decimal text |
| JavaText.ParseIntPositive | src/main/java/duke/logic/Parser.java:35 | a `+` before digits whose value fits gives that value |
| JavaText.ParseIntNeedsDigits | src/main/java/duke/logic/Parser.java:35 | the empty text and a lone sign are rejected |
| JavaText.ParseIntRejectsNonDigit | src/main/java/duke/logic/Parser.java:35 | a character that is neither a digit nor a sign in first place makes the text rejected |
| JavaText.ParseIntRejectsOverflow | src/main/java/duke/logic/Parser.java:35 | unsigned or `+` digits above 2147483647, and `-` digits above 2147483648, are rejected |
| JavaText.SplitLimit2 | src/main/java/duke/logic/Parser.java:83 | `split(" ", 2)` gives one piece, the whole text, exactly when the divider is absent; otherwise two pieces around the first occurrence, which rejoin to the text |
| JavaText.Split | src/main/java/duke/logic/Parser.java:46 | the unlimited split gives the whole text when the divider is absent; otherwise the pieces between leftmost occurrences, in order, with exactly the trailing empty ones dropped |
| JavaText.PiecesUnique | src/main/java/duke/logic/Parser.java:46 | the pieces are the only list that joins back to the text with every piece but the last ending at the divider after it and the last holding none |
| JavaText.SplitJoin | src/main/java/duke/logic/Parser.java:46 | pieces that end at their dividers, the last non-empty and divider-free, are split back out of their joining |
| JavaText.SplitFirstPieces | src/main/java/duke/logic/Parser.java:46-47 | the first piece is the text before the first divider, and the second the text between it and the next divider or the end |
| JavaText.TrimKeepsCore | src/main/java/duke/logic/Parser.java:128-129 | `trim` keeps exactly the text between leading and trailing blank margins |
| Parser.CommandTypeOf | src/main/java/duke/logic/Parser.java:88-92 | `valueOf` finds a constant exactly when one has that name, and then that constant |
| Parser.CommandTypeOfName | src/main/java/duke/logic/Parser.java:27-29 | every command word is found again by its name |
| Parser.NameInjective | src/main/java/duke/logic/Parser.java:27-29 | no two command words share a name |
| Parser.Predecessor | src/main/java/duke/logic/Parser.java:35 | the 32-bit `n - 1` is one below `n`, except that the least int wraps to the greatest |
| Parser.ParseIndex | src/main/java/duke/logic/Parser.java:34-36 | the index is a 32-bit value; the only failure is a number format failure naming the text |
| Parser.ParseIndexText | src/main/java/duke/logic/Parser.java:34-36 | the decimal text of any int other than the least names the 0-based index one below it |
| Parser.ParseIndexWraps | src/main/java/duke/logic/Parser.java:34-36 | the least int, written out, becomes the greatest index |
| Parser.ParseDescription | src/main/java/duke/logic/Parser.java:45-48 | the description is the text before the first divider, or the whole argument without one; it fails, with an index out of bounds, exactly when the argument is one or more dividers placed end to end and nothing else (the empty argument gives an empty description) |
| Parser.ParseTime | src/main/java/duke/logic/Parser.java:58-73 | "no time supplied" exactly when the split has fewer than two pieces, that is when there is no divider or nothing but dividers follows the first one; otherwise the text between the first and the next divider is read in the layout, and a rejected text is "invalid time format" |
| Parser.IndexedCommand | src/main/java/duke/logic/Parser.java:105-113 | mark, unmark and delete fail only with a number format failure naming their argument |
| Parser.TimedCommand | src/main/java/duke/logic/Parser.java:117-126 | a deadline or event is an unmarked added task, or fails with index out of bounds, no time supplied, or invalid time format |
| Parser.Build | src/main/java/duke/logic/Parser.java:94-136 | added tasks are unmarked; only timed commands raise the program's own errors; commands without arguments never read out of bounds |
| Parser.Parse | src/main/java/duke/logic/Parser.java:82-142 | the result is "invalid command" if and only if no command word matches the upper-cased first word; no index-out-of-bounds or write failure escapes; added tasks are unmarked |
| Parser.ParseCommandLine | src/main/java/duke/logic/Parser.java:83-95 | a line made of a command word, a space and a rest is the switch on that word with the rest verbatim; a word alone is the switch without argument |
| Parser.ParseIgnoresCase | src/main/java/duke/logic/Parser.java:89 | two spellings of the same command word in different letter case parse alike, with or without an argument |
| Parser.KeywordOnlyIgnoresRest | src/main/java/duke/logic/Parser.java:96-104 | bye, list, undo and clear yield the exit, list, undo and clear commands, whatever follows the word |
| Parser.MissingArgument | src/main/java/duke/logic/Parser.java:137-139 | every other command word alone is "too few arguments supplied" |
| Parser.ParseIndexedCommand | src/main/java/duke/logic/Parser.java:105-113 | `mark n`, `unmark n` and `delete n`, with `n` in its own decimal text, address index `n - 1`, marking done for `mark` and undone for `unmark` |
| Parser.ParseIndexedNumber | src/main/java/duke/logic/Parser.java:105-113 | every argument `parseInt` reads, in any form it accepts (`05`, `+5`, `-0`, the least int), addresses the 32-bit index one below its value |
| Parser.ParseMarkLeadingZero | src/main/java/duke/logic/Parser.java:34-36 | `mark 05` marks the task at index 4 |
| Parser.ParseIndexedNotANumber | src/main/java/duke/logic/Parser.java:105-113 | an argument `parseInt` rejects escapes as a number format failure |
| Parser.ParseTodo | src/main/java/duke/logic/Parser.java:114-116 | `todo` adds an unmarked to-do whose description is the rest of the line verbatim |
| Parser.ParseTimedLine | src/main/java/duke/logic/Parser.java:117-126 | a line starting with `event` or `deadline` in any letter case is the timed command on the rest of the line, with an out-of-bounds read reported as too few arguments |
| Parser.ParseTimedTask | src/main/java/duke/logic/Parser.java:117-126 | `event d /at t` and `deadline d /by t`, where `d` ends at its first divider and `t` is a calendar date's layout text, add an unmarked task with description `d` and time `t` |
| Parser.ParseTimedBadTime | src/main/java/duke/logic/Parser.java:66-70 | after a description ending at its first divider, a non-empty time text holding no divider that the layout rejects, such as `31/12/2024 23:59`, is "invalid time format" |
| Parser.ParseTimedNoDivider | src/main/java/duke/logic/Parser.java:58-62 | an argument holding no divider is "no time supplied" |
| Parser.ParseTimedTrailingDivider | src/main/java/duke/logic/Parser.java:58-62 | a non-empty description ending at a divider that is the first one and ends the line is "no time supplied" |
| Parser.ParseTimedOnlyDivider | src/main/java/duke/logic/Parser.java:45-48 | a divider alone as the argument reads past the split's end and is "too few arguments supplied" |
| Parser.ParseFindLine | src/main/java/duke/logic/Parser.java:127-130 | `find` searches for the trimmed pieces of the rest of the line split at commas |
| Parser.ParseFind | src/main/java/duke/logic/Parser.java:127-130 | `find` followed by comma-free terms joined by commas (the last non-empty when there are several) searches for each term trimmed, in order |
| TaskLists.TaskList.Get | src/main/java/duke/command/DeleteCommand.java:46 | positional access succeeds exactly on a valid index and yields the task there; otherwise an index out of bounds |
| TaskLists.TaskList.Remove | src/main/java/duke/command/DeleteCommand.java:52 | on a valid index the task there is taken out and the others keep their order; otherwise an index out of bounds and nothing changes |
| TaskLists.ValuesOfRemoveAt | src/main/java/duke/command/DeleteCommand.java:52 | removing a task removes its value and no other |
| TaskLists.TaskList.Copy | src/main/java/duke/command/DeleteCommand.java:48-49 | the list afterwards holds the source's values in order, held only by new objects |
| TaskLists.MarkAfterCopy | src/main/java/duke/command/DeleteCommand.java:48-49 | marking a task of the source after copying the list leaves every value of the copy as it was |
| TaskLists.TaskStack.Push | src/main/java/duke/command/DeleteCommand.java:50 | the snapshot goes on top and the older ones stay as they were |
| Effects.Storage.WriteToFile | src/main/java/duke/command/DeleteCommand.java:57 | a successful write records the list's values; a failed one records nothing and throws |
| Effects.Ui.ShowMessage | src/main/java/duke/command/DeleteCommand.java:61 | the message is recorded as shown |
| Commands.DeleteCommand.constructor | src/main/java/duke/command/DeleteCommand.java:26-29 | the command keeps the index as given, unchecked |
| Commands.DeleteCommand.Execute | src/main/java/duke/command/DeleteCommand.java:41-63 | an invalid index fails with "INVALID INDEX" and changes nothing; otherwise exactly one fresh snapshot of the old list is pushed and the task is removed; then either the list is written and the message is shown and returned, or the write fails and nothing is shown |
| Commands.DeleteCommand.PushSnapshot | src/main/java/duke/command/DeleteCommand.java:48-50 | the pushed snapshot is a fresh list of fresh tasks with the values the list had |
| Commands.DeleteCommand.RemoveAndReport | src/main/java/duke/command/DeleteCommand.java:52-62 | remove, then write, then show and return the message naming the removed task and the new size; a failed write throws before anything is shown |
| Commands.RemovalMessageReadsBack | src/main/java/duke/command/DeleteCommand.java:58-60 | the message names the removed task on its own line and ends with the decimal count of the tasks left |
| Commands.DeleteCommand.IsExitCommand | src/main/java/duke/command/DeleteCommand.java:65-68 | deleting never ends the session |
| LegacyCommands.DeleteCommand.constructor | src/main/java/DeleteCommand.java:4-7 | the command keeps the index as given |
| LegacyCommands.DeleteCommand.Execute | src/main/java/DeleteCommand.java:10-18 | an invalid index fails with an index out of bounds and changes nothing; otherwise the task is removed and the message is shown before the write; a completed run answers true, a failed write throws after the message was shown |

## Left out

- Files and the console are not modelled. `Ui` and `Storage` are stand-ins
  that only record what they were handed, in order, in a ghost log.
  `Storage.writable` stands for whether the file system accepts the write.
  Both share one log, which the commands require; this sharing is a
  modelling device, not something the Java code has.
- Commands.DeleteCommand.Execute: the result of `new TaskList()` plus `copy`
  is stated as a fresh list of fresh tasks with the same values. Whether a
  later `undo` restores it is not modelled, because the undo command and
  `TaskStack.pop` are outside this core.
- `Tasks.Display` renders to-dos and deadlines with the base task rendering.
  `Todo.java`, `Deadline.java` and their own `toString`/`toData` are not part
  of this model; only the event's renderings are.
- Tasks.EventDataLossless: proved only for years below 10000. Larger years
  print with a `+` sign and a variable width. The model never yields one,
  because it does not read such years (see `DateTimes.ParseDateTime` below).
- No reader of the storage line is modelled. The storage codec is not part of
  this model, so the line's losslessness is stated as injectivity instead.
- DateTimes.ParseDateTime: two forms the Java formatter accepts are rejected.
  - `24:00`: the smart resolver reads it as midnight at the start of the
    next day. Modelling it would need date arithmetic across month and year
    ends.
  - A year written as `+` followed by five or more digits: the `yyyy` field
    takes such years when the sign is present, as in `01-01-+10000 10:00`.
    The model reads exactly four year digits.
- JavaText.ToUpper maps only the ASCII letters `a` to `z`; every other
  character is kept. The Java code's `toUpperCase` applies the full Unicode
  case mapping of the default locale, and the two differ in two ways:
  - In every locale, some non-ASCII characters upper-case to ASCII letters:
    `ı` (dotless i) to `I`, `ſ` (long s) to `S`, and the ligature `ﬁ` to
    `FI`. So `lıst`, `liſt` and `ﬁnd x` are the commands LIST, LIST and FIND
    in Java, while the model reports them as invalid commands.
  - Under a Turkish or Azeri locale, `i` becomes a dotted capital I, so
    `list`, `find` and `deadline` typed in lower case are invalid commands
    there, while the model accepts them.

  `Integer.parseInt` also accepts non-ASCII digits, which the model rejects.
- `DisplayText` uses English month abbreviations. The Java formatter uses the
  default locale.
- The commands the parser builds (`ExitCommand`, `ListCommand`,
  `UndoCommand`, `MarkCommand`, `DeleteCommand`, `AddCommand`, `FindCommand`,
  `ClearCommand`) are modelled as the values they are constructed from.
  Their execution is outside this core, except for the delete command. That
  one is modelled on its own, as the class `Commands.DeleteCommand`, which
  the parser's `DeleteCommand(index)` value is not linked to.
- Parser.Parse: its own contract states the invalid-command equivalence and
  which failures can escape. The result for each kind of line is stated by the
  lemmas beside it, one group of command words at a time:
  - `KeywordOnlyIgnoresRest` for `bye`, `list`, `undo` and `clear`;
  - `MissingArgument` for every other word alone;
  - `ParseIndexedNumber` and `ParseIndexedNotANumber` for every argument of
    `mark`, `unmark` and `delete`;
  - `ParseTodo` and `ParseFindLine` for every argument of `todo` and `find`;
  - `ParseTimedLine` for every argument of `event` and `deadline`, whose
    result then follows from the contracts of `ParseDescription` and
    `ParseTime`. The other `ParseTimed...` lemmas spell it out for the
    common shapes of line.
