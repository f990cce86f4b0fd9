/**
 * The command parser: the first word of a line names the command (in any
 * letter case), the rest of the line is its argument. Indexed commands read
 * a 1-based number, deadlines and events split their argument at
 * " /by " and " /at " into a description and a `dd-MM-yyyy HH:mm` time,
 * and find splits its argument at commas.
 */
module Parser {
  import opened Outcomes
  import opened JavaText
  import opened DateTimes
  import Tasks

  const InvalidCommand := "INVALID COMMAND"
  const TooFewArguments := "TOO FEW ARGUMENTS SUPPLIED"
  const NoTimeSupplied := "NO TIME SUPPLIED"
  const InvalidTimeFormat := "INVALID TIME FORMAT (dd-MM-yyyy HH:mm)"

  const EventDivider := " /at "
  const DeadlineDivider := " /by "

  /** The command words. */
  datatype CommandType = Bye | List | Undo | Mark | Unmark | Delete | Todo | Deadline | Event | Find | Clear

  /** The constant name of each command word, as the enumeration declares it. */
  function Name(c: CommandType): string
  {
    match c
    case Bye => "BYE" case List => "LIST" case Undo => "UNDO" case Mark => "MARK"
    case Unmark => "UNMARK" case Delete => "DELETE" case Todo => "TODO"
    case Deadline => "DEADLINE" case Event => "EVENT" case Find => "FIND" case Clear => "CLEAR"
  }

  /** The constants in declaration order, as `values()` lists them. */
  const CommandTypes: seq<CommandType> :=
    [Bye, List, Undo, Mark, Unmark, Delete, Todo, Deadline, Event, Find, Clear]

  /** Every command word is listed. */
  lemma AllListed(c: CommandType)
    ensures c in CommandTypes
  {
  }

  /** No two command words share a name: length and first letter already tell them apart. */
  lemma NameInjective(a: CommandType, b: CommandType)
    requires Name(a) == Name(b)
    ensures a == b
  {
    assert |Name(a)| == |Name(b)| && Name(a)[0] == Name(b)[0];
  }

  /** The first constant of `types` with this name. */
  function Lookup(name: string, types: seq<CommandType>): (r: Option<CommandType>)
    ensures r.Some? ==> Name(r.value) == name && r.value in types
    ensures r.None? ==> forall k :: 0 <= k < |types| ==> Name(types[k]) != name
  {
    if types == [] then None
    else if Name(types[0]) == name then Some(types[0])
    else Lookup(name, types[1..])
  }

  /** `CommandType.valueOf`: the constant with exactly this name; any other text throws. */
  function CommandTypeOf(name: string): (r: Option<CommandType>)
    ensures r.Some? ==> Name(r.value) == name
    ensures r.None? ==> forall c :: Name(c) != name
  {
    var r := Lookup(name, CommandTypes);
    if r.None? then
      assert forall c :: Name(c) != name by {
        forall c ensures Name(c) != name {
          AllListed(c);
        }
      }
      r
    else r
  }

  /** Every command word is found again by its name. */
  lemma CommandTypeOfName(c: CommandType)
    ensures CommandTypeOf(Name(c)) == Some(c)
  {
    var r := CommandTypeOf(Name(c));
    assert r.Some?;
    NameInjective(r.value, c);
  }

  /** Command words that read no argument. */
  predicate TakesNoArgument(c: CommandType)
  {
    c == Bye || c == List || c == Undo || c == Clear
  }

  /** Command words whose argument is a 1-based task number. */
  predicate TakesIndex(c: CommandType)
  {
    c == Mark || c == Unmark || c == Delete
  }

  /** Command words whose argument is a description and a time. */
  predicate IsTimed(c: CommandType)
  {
    c == Deadline || c == Event
  }

  /** The commands the parser builds; a task to add is built unmarked. */
  datatype Command =
    | ExitCommand
    | ListCommand
    | UndoCommand
    | MarkCommand(index: int, isDone: bool)
    | DeleteCommand(index: int)
    | AddCommand(task: Tasks.TaskValue)
    | FindCommand(keywords: seq<string>)
    | ClearCommand

  /** The 32-bit result of `n - 1`: one below the least int wraps round to the greatest. */
  function Predecessor(n: int): (r: int)
    requires IsInt32(n)
    ensures IsInt32(r)
    ensures r + 1 == n || (n == MinInt && r == MaxInt)
  {
    if n == MinInt then MaxInt else n - 1
  }

  /** `parseIndex`: the 1-based number in the text, as a 0-based index. */
  function ParseIndex(index: string): (r: Result<int>)
    ensures r.Ok? ==> IsInt32(r.value)
    ensures r.Err? ==> r.error == NumberFormat(index)
  {
    match ParseInt(index)
    case Err(e) => Err(e)
    case Ok(n) => Ok(Predecessor(n))
  }

  /** The decimal text of a position names the index one below it. */
  lemma ParseIndexText(n: int)
    requires IsInt32(n) && n != MinInt
    ensures ParseIndex(IntText(n)) == Ok(n - 1)
  {
    ParseIntText(n);
  }

  /** The least int, written out, wraps round to the greatest index. */
  lemma ParseIndexWraps()
    ensures ParseIndex(IntText(MinInt)) == Ok(MaxInt)
  {
    ParseIntText(MinInt);
  }

  /**
   * `parseDescription`: the text before the first divider, or the whole
   * argument when there is none. Only an argument made of nothing but
   * dividers splits into no pieces at all, and then reading the first piece
   * is out of bounds.
   */
  function ParseDescription(options: string, divider: string): (r: Result<string>)
    requires |divider| > 0
    ensures r.Ok? ==> r.value == SplitLimit2(options, divider)[0] && Absent(r.value, divider)
    ensures r.Err? <==>
      !Absent(options, divider) && forall k :: 0 <= k < |Pieces(options, divider)| ==> Pieces(options, divider)[k] == ""
    ensures r.Err? ==> r.error == IndexOutOfBounds
  {
    var splitCommand := Split(options, divider);
    if |splitCommand| == 0 then Err(IndexOutOfBounds)
    else
      SplitFirstPieces(options, divider);
      assert !Absent(options, divider) ==> Pieces(options, divider)[|splitCommand| - 1] != "";
      Ok(splitCommand[0])
  }

  /**
   * `parseTime`: the text between the first divider and the next one (or the
   * end), read in the input layout. No time is supplied exactly when the
   * split yields fewer than two pieces, that is when nothing but dividers
   * follows the first divider; a text the layout rejects is an invalid time
   * format.
   */
  function ParseTime(options: string, divider: string): (r: Result<DateTime>)
    requires |divider| > 0
    ensures r == Err(Duke(NoTimeSupplied)) <==> |Split(options, divider)| < 2
    ensures r == Err(Duke(NoTimeSupplied)) <==>
      Absent(options, divider) || forall k :: 1 <= k < |Pieces(options, divider)| ==> Pieces(options, divider)[k] == ""
    ensures |Split(options, divider)| >= 2 ==>
      var time := SplitLimit2(SplitLimit2(options, divider)[1], divider)[0];
      && (r.Ok? <==> ParseDateTime(time).Some?)
      && (r.Ok? ==> r.value == ParseDateTime(time).value)
      && (r.Err? ==> r.error == Duke(InvalidTimeFormat))
    ensures r.Ok? ==> Writable(r.value)
  {
    var splitCommand := Split(options, divider);
    if |splitCommand| < 2 then Err(Duke(NoTimeSupplied))
    else
      SplitFirstPieces(options, divider);
      match ParseDateTime(splitCommand[1])
      case None => Err(Duke(InvalidTimeFormat))
      case Some(time) => Ok(time)
  }

  /** Description first, then time, as the arguments of the task's constructor are evaluated. */
  function ParseTimed(options: string, divider: string): Result<(string, DateTime)>
    requires |divider| > 0
  {
    match ParseDescription(options, divider)
    case Err(e) => Err(e)
    case Ok(description) =>
      match ParseTime(options, divider)
      case Err(e) => Err(e)
      case Ok(time) => Ok((description, time))
  }

  /** `trim` applied to every keyword. */
  function TrimAll(xs: seq<string>): seq<string>
  {
    seq(|xs|, k requires 0 <= k < |xs| => Trim(xs[k]))
  }

  /** The divider of a timed command word. */
  function DividerOf(c: CommandType): string
    requires IsTimed(c)
  {
    if c == Event then EventDivider else DeadlineDivider
  }

  /** A timed task's kind, built from its time. */
  function TimedKind(c: CommandType, t: DateTime): Tasks.Kind
    requires IsTimed(c)
  {
    if c == Event then Tasks.Event(t) else Tasks.Deadline(t)
  }

  /** An indexed command: mark, unmark or delete the task the argument numbers. */
  function IndexedCommand(commandType: CommandType, options: string): (r: Result<Command>)
    requires TakesIndex(commandType)
    ensures r.Err? ==> r.error == NumberFormat(options)
  {
    match ParseIndex(options)
    case Err(e) => Err(e)
    case Ok(i) => if commandType == Delete then Ok(DeleteCommand(i)) else Ok(MarkCommand(i, commandType == Mark))
  }

  /** A deadline or an event: the description and time the divider separates. */
  function TimedCommand(commandType: CommandType, options: string): (r: Result<Command>)
    requires IsTimed(commandType)
    ensures r.Ok? ==> r.value.AddCommand? && !r.value.task.isMarked
    ensures r.Err? ==> r.error == IndexOutOfBounds || r.error == Duke(NoTimeSupplied) || r.error == Duke(InvalidTimeFormat)
  {
    match ParseTimed(options, DividerOf(commandType))
    case Err(e) => Err(e)
    case Ok((d, t)) => Ok(AddCommand(Tasks.TaskValue(d, false, TimedKind(commandType, t))))
  }

  /**
   * The body of the command switch on the pieces of `split(" ", 2)`. Every
   * command that reads its argument throws an index out of bounds when
   * there is no second piece.
   */
  function Build(commandType: CommandType, splitInput: seq<string>): (r: Result<Command>)
    requires |splitInput| >= 1
    ensures r.Ok? && r.value.AddCommand? ==> !r.value.task.isMarked
    ensures r.Err? ==> r.error.Duke? || r.error.NumberFormat? || r.error == IndexOutOfBounds
    ensures r.Err? && r.error.Duke? ==> IsTimed(commandType)
    ensures r == Err(IndexOutOfBounds) ==> !TakesNoArgument(commandType)
  {
    var missing := |splitInput| < 2;
    match commandType
    case Bye => Ok(ExitCommand)
    case List => Ok(ListCommand)
    case Undo => Ok(UndoCommand)
    case Mark => if missing then Err(IndexOutOfBounds) else IndexedCommand(Mark, splitInput[1])
    case Unmark => if missing then Err(IndexOutOfBounds) else IndexedCommand(Unmark, splitInput[1])
    case Delete => if missing then Err(IndexOutOfBounds) else IndexedCommand(Delete, splitInput[1])
    case Todo =>
      if missing then Err(IndexOutOfBounds)
      else Ok(AddCommand(Tasks.TaskValue(splitInput[1], false, Tasks.Todo)))
    case Event => if missing then Err(IndexOutOfBounds) else TimedCommand(Event, splitInput[1])
    case Deadline => if missing then Err(IndexOutOfBounds) else TimedCommand(Deadline, splitInput[1])
    case Find => if missing then Err(IndexOutOfBounds) else Ok(FindCommand(TrimAll(Split(splitInput[1], ","))))
    case Clear => Ok(ClearCommand)
  }

  /** The command word: the text before the first space, in upper case. */
  function Keyword(input: string): string
  {
    ToUpper(SplitLimit2(input, " ")[0])
  }

  /**
   * `parse`: an unknown command word is an invalid command; an index out of
   * bounds inside the switch becomes "too few arguments"; a malformed number
   * escapes as a number format failure.
   */
  function Parse(input: string): (r: Result<Command>)
    ensures r == Err(Duke(InvalidCommand)) <==> forall c :: Name(c) != Keyword(input)
    ensures r.Err? ==> r.error != IndexOutOfBounds && r.error != WriteFailed
    ensures r.Ok? && r.value.AddCommand? ==> !r.value.task.isMarked
  {
    var splitInput := SplitLimit2(input, " ");
    match CommandTypeOf(ToUpper(splitInput[0]))
    case None => Err(Duke(InvalidCommand))
    case Some(commandType) =>
      CaughtIsNotInvalid(commandType, splitInput);
      Catch(Build(commandType, splitInput))
  }

  /** A known command word is never reported as invalid, and no bounds failure escapes. */
  lemma CaughtIsNotInvalid(commandType: CommandType, splitInput: seq<string>)
    requires |splitInput| >= 1
    ensures Catch(Build(commandType, splitInput)) != Err(Duke(InvalidCommand))
    ensures Catch(Build(commandType, splitInput)) != Err(IndexOutOfBounds)
  {
  }

  /** The handler around the switch: an index out of bounds means too few arguments. */
  function Catch(r: Result<Command>): Result<Command>
  {
    if r == Err(IndexOutOfBounds) then Err(Duke(TooFewArguments)) else r
  }

  // ------------------------------------------------------------- properties

  /** A command word holds no space, whatever its letter case. */
  lemma KeywordHasNoSpace(w: string, c: CommandType)
    requires ToUpper(w) == Name(c)
    ensures ' ' !in w
  {
    assert ' ' !in Name(c);
    forall k | 0 <= k < |w| ensures w[k] != ' ' {
      assert ToUpper(w)[k] == UpperChar(w[k]);
    }
  }

  /** The switch reads only whether there is an argument, and which. */
  lemma BuildIgnoresWord(c: CommandType, s: seq<string>, t: seq<string>)
    requires |s| >= 1 && |s| == |t|
    requires |s| >= 2 ==> s[1] == t[1]
    ensures Build(c, s) == Build(c, t)
  {
  }

  /** A line that is a command word followed by a space splits into the word and the rest. */
  lemma SplitCommandLine(w: string, c: CommandType, rest: string)
    requires ToUpper(w) == Name(c)
    ensures SplitLimit2(w + " " + rest, " ") == [w, rest]
    ensures SplitLimit2(w, " ") == [w]
  {
    KeywordHasNoSpace(w, c);
    FirstCut(w, ' ', rest);
    assert w + " " + rest == w + [' '] + rest;
    AbsentWithout(w, " ", 0);
  }

  /** A line starting with a command word is the switch on that word and the rest. */
  lemma ParseCommandLine(w: string, c: CommandType, rest: string)
    requires ToUpper(w) == Name(c)
    ensures Parse(w + " " + rest) == Catch(Build(c, [w, rest]))
    ensures Parse(w) == Catch(Build(c, [w]))
  {
    SplitCommandLine(w, c, rest);
    CommandTypeOfName(c);
  }

  /** The command word is read in any letter case. */
  lemma ParseIgnoresCase(w: string, v: string, c: CommandType, rest: string)
    requires ToUpper(w) == Name(c) && ToUpper(v) == Name(c)
    ensures Parse(w + " " + rest) == Parse(v + " " + rest)
    ensures Parse(w) == Parse(v)
  {
    ParseCommandLine(w, c, rest);
    ParseCommandLine(v, c, rest);
    BuildIgnoresWord(c, [w, rest], [v, rest]);
    BuildIgnoresWord(c, [w], [v]);
  }

  /**
   * Commands without arguments yield their own command, and ignore whatever
   * follows their word.
   */
  lemma KeywordOnlyIgnoresRest(w: string, c: CommandType, rest: string)
    requires ToUpper(w) == Name(c) && TakesNoArgument(c)
    ensures Parse(w) == Ok(match c
      case Bye => ExitCommand
      case List => ListCommand
      case Undo => UndoCommand
      case _ => ClearCommand)
    ensures Parse(w + " " + rest) == Parse(w)
  {
    ParseCommandLine(w, c, rest);
  }

  /** Every other command word alone, without a space after it, is too few arguments. */
  lemma MissingArgument(w: string, c: CommandType)
    requires ToUpper(w) == Name(c) && !TakesNoArgument(c)
    ensures Parse(w) == Err(Duke(TooFewArguments))
  {
    ParseCommandLine(w, c, "");
  }

  /** `mark n`, `unmark n` and `delete n` address the task at 0-based index n - 1. */
  lemma ParseIndexedCommand(w: string, c: CommandType, n: int)
    requires ToUpper(w) == Name(c) && TakesIndex(c)
    requires IsInt32(n) && n != MinInt
    ensures Parse(w + " " + IntText(n)) ==
      if c == Delete then Ok(DeleteCommand(n - 1)) else Ok(MarkCommand(n - 1, c == Mark))
  {
    ParseCommandLine(w, c, IntText(n));
    BuildIndexed(w, c, n);
  }

  /** The switch on `mark`, `unmark` or `delete` with a number. */
  lemma BuildIndexed(w: string, c: CommandType, n: int)
    requires TakesIndex(c) && IsInt32(n) && n != MinInt
    ensures Build(c, [w, IntText(n)]) ==
      if c == Delete then Ok(DeleteCommand(n - 1)) else Ok(MarkCommand(n - 1, c == Mark))
  {
    ParseIndexText(n);
  }

  /**
   * Any text `parseInt` reads, such as `05`, `+5` or `-0`, addresses the
   * 32-bit index one below its value.
   */
  lemma ParseIndexedNumber(w: string, c: CommandType, rest: string, n: int)
    requires ToUpper(w) == Name(c) && TakesIndex(c)
    requires ParseInt(rest) == Ok(n)
    ensures Parse(w + " " + rest) ==
      if c == Delete then Ok(DeleteCommand(Predecessor(n))) else Ok(MarkCommand(Predecessor(n), c == Mark))
  {
    ParseCommandLine(w, c, rest);
  }

  /** A leading zero is read like any other digit: `mark 05` marks the fifth task. */
  lemma ParseMarkLeadingZero()
    ensures Parse("mark 05") == Ok(MarkCommand(4, true))
  {
    var text := "05";
    assert text[..1] == "0" && DigitsValue(text) == 5;
    ParseIntDigits(text);
    assert ToUpper("mark") == Name(Mark);
    ParseIndexedNumber("mark", Mark, text, 5);
    assert "mark" + " " + text == "mark 05";
  }

  /** An argument that is not a number escapes as a number format failure, not a user error. */
  lemma ParseIndexedNotANumber(w: string, c: CommandType, rest: string)
    requires ToUpper(w) == Name(c) && TakesIndex(c)
    requires ParseInt(rest).Err?
    ensures Parse(w + " " + rest) == Err(NumberFormat(rest))
  {
    ParseCommandLine(w, c, rest);
  }

  /** `todo` keeps the rest of the line verbatim as the description, even an empty one. */
  lemma ParseTodo(w: string, rest: string)
    requires ToUpper(w) == "TODO"
    ensures Parse(w + " " + rest) == Ok(AddCommand(Tasks.TaskValue(rest, false, Tasks.Todo)))
  {
    ParseCommandLine(w, Todo, rest);
    BuildTodo(w, rest);
  }

  /** The switch on `todo` with an argument. */
  lemma BuildTodo(w: string, rest: string)
    ensures Build(Todo, [w, rest]) == Ok(AddCommand(Tasks.TaskValue(rest, false, Tasks.Todo)))
  {
  }

  /**
   * A description that ends at the first divider and a non-empty time text
   * holding no divider are split apart at that divider.
   */
  lemma SplitTimedOptions(description: string, c: CommandType, time: string)
    requires IsTimed(c)
    requires EndsAtDivider(description, DividerOf(c)) && Absent(time, DividerOf(c)) && time != ""
    ensures Split(description + DividerOf(c) + time, DividerOf(c)) == [description, time]
  {
    var d := DividerOf(c);
    assert Join([description, time], d) == description + d + time;
    SplitJoin([description, time], d);
  }

  /** A divider at the very end leaves a trailing empty piece, which the split drops. */
  lemma SplitTrailingDivider(description: string, c: CommandType)
    requires IsTimed(c)
    requires EndsAtDivider(description, DividerOf(c)) && description != ""
    ensures Split(description + DividerOf(c), DividerOf(c)) == [description]
  {
    var d := DividerOf(c);
    AbsentWithout("", d, 0);
    assert Join([description, ""], d) == description + d;
    PiecesUnique([description, ""], d);
    FirstDividerAfter(description, d, "");
    assert description + d + "" == description + d;
  }

  /** A divider alone splits into two empty pieces, and both are dropped. */
  lemma SplitDividerAlone(c: CommandType)
    requires IsTimed(c)
    ensures Split(DividerOf(c), DividerOf(c)) == []
  {
    var d := DividerOf(c);
    AbsentWithout("", d, 0);
    assert EndsAtDivider("", d);
    assert Join(["", ""], d) == d;
    PiecesUnique(["", ""], d);
    FirstDividerAfter("", d, "");
    assert "" + d + "" == d;
  }

  /** A line starting with a timed command word is that command on the rest of the line. */
  lemma ParseTimedLine(w: string, c: CommandType, options: string)
    requires ToUpper(w) == Name(c) && IsTimed(c)
    ensures Parse(w + " " + options) == Catch(TimedCommand(c, options))
  {
    ParseCommandLine(w, c, options);
    BuildTimed(c, [w, options]);
  }

  /** The description and the time of a well-formed argument, or the time's format error. */
  lemma ParseTimedReadsBoth(description: string, c: CommandType, time: string)
    requires IsTimed(c)
    requires EndsAtDivider(description, DividerOf(c)) && Absent(time, DividerOf(c)) && time != ""
    ensures ParseTimed(description + DividerOf(c) + time, DividerOf(c)) ==
      if ParseDateTime(time).None? then Err(Duke(InvalidTimeFormat))
      else Ok((description, ParseDateTime(time).value))
  {
    SplitTimedOptions(description, c, time);
  }

  /** Without any divider, the whole argument is the description and no time is supplied. */
  lemma ParseTimedWithoutDivider(options: string, c: CommandType)
    requires IsTimed(c)
    requires Absent(options, DividerOf(c))
    ensures ParseTimed(options, DividerOf(c)) == Err(Duke(NoTimeSupplied))
  {
  }

  /** The switch on a timed command word with an argument. */
  lemma BuildTimed(c: CommandType, splitInput: seq<string>)
    requires IsTimed(c) && |splitInput| == 2
    ensures Build(c, splitInput) == TimedCommand(c, splitInput[1])
  {
  }

  /** A deadline or event from a description, the divider and a time text. */
  lemma TimedCommandReadsBoth(c: CommandType, description: string, time: string)
    requires IsTimed(c)
    requires EndsAtDivider(description, DividerOf(c)) && Absent(time, DividerOf(c)) && time != ""
    ensures TimedCommand(c, description + DividerOf(c) + time) ==
      if ParseDateTime(time).None? then Err(Duke(InvalidTimeFormat))
      else Ok(AddCommand(Tasks.TaskValue(description, false, TimedKind(c, ParseDateTime(time).value))))
  {
    ParseTimedReadsBoth(description, c, time);
  }

  /** No '/' appears in the layout text of a time, so no divider does either. */
  lemma PatternTextHasNoDivider(t: DateTime, c: CommandType)
    requires IsTimed(c)
    ensures Absent(PatternText(t), DividerOf(c))
  {
    var s := PatternText(t);
    PatternTextLayout(t);
    forall k | 0 <= k < |s| ensures s[k] != '/' {
      if !IsSeparatorPlace(k) {
        assert IsDigit(s[k]);
      }
    }
    assert DividerOf(c)[1] == '/';
    AbsentWithout(s, DividerOf(c), 1);
  }

  /**
   * A deadline or event line whose description ends at the first divider
   * yields an unmarked task with that description and the time after the
   * divider.
   */
  lemma ParseTimedTask(w: string, c: CommandType, description: string, t: DateTime)
    requires ToUpper(w) == Name(c) && IsTimed(c)
    requires EndsAtDivider(description, DividerOf(c)) && Writable(t)
    ensures Parse(w + " " + (description + DividerOf(c) + PatternText(t))) ==
      Ok(AddCommand(Tasks.TaskValue(description, false, TimedKind(c, t))))
  {
    ParseTimedLine(w, c, description + DividerOf(c) + PatternText(t));
    PatternTextHasNoDivider(t, c);
    ParsePatternText(t);
    TimedCommandReadsBoth(c, description, PatternText(t));
  }

  /**
   * A non-empty time text holding no divider that the layout rejects is an
   * invalid time format, whatever '/' it holds.
   */
  lemma ParseTimedBadTime(w: string, c: CommandType, description: string, time: string)
    requires ToUpper(w) == Name(c) && IsTimed(c)
    requires EndsAtDivider(description, DividerOf(c)) && Absent(time, DividerOf(c)) && time != ""
    requires ParseDateTime(time).None?
    ensures Parse(w + " " + (description + DividerOf(c) + time)) == Err(Duke(InvalidTimeFormat))
  {
    ParseTimedLine(w, c, description + DividerOf(c) + time);
    TimedCommandBadTime(c, description, time);
  }

  /** The switch's result for a time text the layout rejects. */
  lemma TimedCommandBadTime(c: CommandType, description: string, time: string)
    requires IsTimed(c)
    requires EndsAtDivider(description, DividerOf(c)) && Absent(time, DividerOf(c)) && time != ""
    requires ParseDateTime(time).None?
    ensures TimedCommand(c, description + DividerOf(c) + time) == Err(Duke(InvalidTimeFormat))
  {
    TimedCommandReadsBoth(c, description, time);
  }

  /** An argument holding no divider: no time is supplied. */
  lemma ParseTimedNoDivider(w: string, c: CommandType, options: string)
    requires ToUpper(w) == Name(c) && IsTimed(c)
    requires Absent(options, DividerOf(c))
    ensures Parse(w + " " + options) == Err(Duke(NoTimeSupplied))
  {
    ParseTimedLine(w, c, options);
    ParseTimedWithoutDivider(options, c);
  }

  /**
   * The first divider at the very end of the line, after a non-empty
   * description: no time is supplied.
   */
  lemma ParseTimedTrailingDivider(w: string, c: CommandType, description: string)
    requires ToUpper(w) == Name(c) && IsTimed(c)
    requires EndsAtDivider(description, DividerOf(c)) && description != ""
    ensures Parse(w + " " + (description + DividerOf(c))) == Err(Duke(NoTimeSupplied))
  {
    ParseTimedLine(w, c, description + DividerOf(c));
    SplitTrailingDivider(description, c);
    assert ParseTimed(description + DividerOf(c), DividerOf(c)) == Err(Duke(NoTimeSupplied));
  }

  /**
   * A divider alone: the split has no pieces, so the description lookup is
   * out of bounds and too few arguments are reported.
   */
  lemma ParseTimedOnlyDivider(w: string, c: CommandType)
    requires ToUpper(w) == Name(c) && IsTimed(c)
    ensures Parse(w + " " + DividerOf(c)) == Err(Duke(TooFewArguments))
  {
    ParseTimedLine(w, c, DividerOf(c));
    SplitDividerAlone(c);
    assert ParseTimed(DividerOf(c), DividerOf(c)) == Err(IndexOutOfBounds);
  }

  /** The switch on `find` with an argument. */
  lemma BuildFind(w: string, options: string)
    ensures Build(Find, [w, options]) == Ok(FindCommand(TrimAll(Split(options, ","))))
  {
  }

  /** Comma-free terms joined by commas split back into those terms. */
  lemma SplitCommaTerms(terms: seq<string>)
    requires |terms| >= 1 && forall k :: 0 <= k < |terms| ==> ',' !in terms[k]
    requires |terms| > 1 ==> terms[|terms| - 1] != ""
    ensures Split(Join(terms, ","), ",") == terms
  {
    forall k | 0 <= k < |terms| - 1 ensures EndsAtDivider(terms[k], ",") {
      EndsAtCharacter(terms[k], ',');
    }
    AbsentWithout(terms[|terms| - 1], ",", 0);
    SplitJoin(terms, ",");
  }

  /** `find` searches for the trimmed pieces of the rest of the line split at commas. */
  lemma ParseFindLine(w: string, options: string)
    requires ToUpper(w) == "FIND"
    ensures Parse(w + " " + options) == Ok(FindCommand(TrimAll(Split(options, ","))))
  {
    ParseCommandLine(w, Find, options);
    BuildFind(w, options);
  }

  /**
   * `find` splits the rest of the line at every comma and searches for each
   * term trimmed, in order (a comma at the very end adds no term).
   */
  lemma ParseFind(w: string, terms: seq<string>)
    requires ToUpper(w) == "FIND"
    requires |terms| >= 1 && forall k :: 0 <= k < |terms| ==> ',' !in terms[k]
    requires |terms| > 1 ==> terms[|terms| - 1] != ""
    ensures Parse(w + " " + Join(terms, ",")) == Ok(FindCommand(TrimAll(terms)))
  {
    ParseFindLine(w, Join(terms, ","));
    SplitCommaTerms(terms);
  }
}
