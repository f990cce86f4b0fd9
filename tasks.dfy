/**
 * Tasks: a description and a done flag that can be set and cleared in place.
 * Deadlines and events also carry a time that never changes. An event
 * renders itself as a storage line and as a display line, and copies itself
 * into a fresh, independent object (the undo snapshots rely on that).
 */
module Tasks {
  import opened JavaText
  import opened DateTimes

  /** The task variants; the time of a deadline or an event is final. */
  datatype Kind = Todo | Deadline(byTime: DateTime) | Event(atTime: DateTime)

  /** What a task holds at one moment. */
  datatype TaskValue = TaskValue(description: string, isMarked: bool, kind: Kind)

  /** Java's text for a boolean in a string concatenation. */
  function BoolText(b: bool): string
  {
    if b then "true" else "false"
  }

  /** `Task.toString`: the completion box, a space, then the description. */
  function TaskString(description: string, isMarked: bool): string
  {
    "[" + (if isMarked then "X" else " ") + "] " + description
  }

  /** `Event.toData`: tag, flag, description and ISO time, separated by " | ". */
  function EventData(description: string, isMarked: bool, at: DateTime): string
  {
    "E | " + BoolText(isMarked) + " | " + description + " | " + IsoText(at)
  }

  /** `Event.toString`: the tag, the task rendering and the display time. */
  function EventString(description: string, isMarked: bool, at: DateTime): string
  {
    "[E]" + TaskString(description, isMarked) + " (at: " + DisplayText(at) + ")"
  }

  /**
   * The rendering a task's `toString` dispatches to. Only the event's own
   * rendering is part of this model; to-dos and deadlines render with the
   * base task rendering as a stand-in.
   */
  function Display(v: TaskValue): string
  {
    match v.kind
    case Event(at) => EventString(v.description, v.isMarked, at)
    case _ => TaskString(v.description, v.isMarked)
  }

  /** The display line starts with the box and reads back flag and description. */
  lemma TaskStringReadsBack(description: string, isMarked: bool)
    ensures |TaskString(description, isMarked)| == 4 + |description|
    ensures TaskString(description, isMarked)[..4] == if isMarked then "[X] " else "[ ] "
    ensures TaskString(description, isMarked)[4..] == description
  {
  }

  /** Two tasks render alike exactly when flag and description agree. */
  lemma TaskStringInjective(d1: string, m1: bool, d2: string, m2: bool)
    ensures TaskString(d1, m1) == TaskString(d2, m2) <==> d1 == d2 && m1 == m2
  {
    TaskStringReadsBack(d1, m1);
    TaskStringReadsBack(d2, m2);
    if TaskString(d1, m1) == TaskString(d2, m2) {
      assert TaskString(d1, m1)[1] == TaskString(d2, m2)[1];
    }
  }

  /** An event's display line starts with "[E][X] " when done and "[E][ ] " otherwise. */
  lemma EventStringStart(description: string, isMarked: bool, at: DateTime)
    ensures EventString(description, isMarked, at)[..7] == if isMarked then "[E][X] " else "[E][ ] "
  {
    TaskStringReadsBack(description, isMarked);
  }

  /** The three parts of a concatenation are read back by slicing. */
  lemma ConcatParts(x: string, y: string, z: string)
    ensures (x + y + z)[..|x|] == x
    ensures (x + y + z)[|x|..|x| + |y|] == y
    ensures (x + y + z)[|x| + |y|..] == z
  {
    var s := x + y + z;
    assert s[..|x|] == x;
    assert s[|x|..|x| + |y|] == y;
    assert s[|x| + |y|..] == z;
  }

  /** Where flag, description and time sit in an event's storage line. */
  lemma EventDataParts(d: string, m: bool, t: DateTime)
    requires Writable(t)
    ensures var a, n := EventData(d, m, t), 7 + |BoolText(m)|;
            && |a| == n + |d| + 19
            && a[4] == (if m then 't' else 'f')
            && a[n..n + |d|] == d
            && a[n + |d| + 3..] == IsoText(t)
  {
    IsoTextInjective(t, t);
    LineParts(d, m, IsoText(t));
  }

  /** The same places in a storage line built from any time text. */
  lemma LineParts(d: string, m: bool, iso: string)
    ensures var a, n := "E | " + BoolText(m) + " | " + d + " | " + iso, 7 + |BoolText(m)|;
            && |a| == n + |d| + 3 + |iso|
            && a[4] == (if m then 't' else 'f')
            && a[n..n + |d|] == d
            && a[n + |d| + 3..] == iso
  {
    var p, q := "E | " + BoolText(m) + " | ", " | " + iso;
    assert "E | " + BoolText(m) + " | " + d + " | " + iso == p + d + q;
    ConcatParts(p, d, q);
    assert q[3..] == iso;
  }

  /**
   * The storage line of an event is lossless for every writable time: the
   * flag sits at a fixed place, the time has a fixed width at the end, so
   * the description between them is determined too, even one holding " | ".
   */
  lemma EventDataLossless(d1: string, m1: bool, t1: DateTime, d2: string, m2: bool, t2: DateTime)
    requires Writable(t1) && Writable(t2)
    ensures EventData(d1, m1, t1) == EventData(d2, m2, t2) ==> d1 == d2 && m1 == m2 && t1 == t2
  {
    EventDataParts(d1, m1, t1);
    EventDataParts(d2, m2, t2);
    if EventData(d1, m1, t1) == EventData(d2, m2, t2) {
      assert m1 == m2;
      assert |d1| == |d2|;
      IsoTextInjective(t1, t2);
    }
  }

  /** A task whose flag is changed in place; description and kind are set at construction. */
  class Task {
    var description: string
    var isMarked: bool
    const kind: Kind

    /** Stores the fields as given; an empty description is accepted. */
    constructor (description: string, isMarked: bool, kind: Kind)
      ensures this.description == description && this.isMarked == isMarked
      ensures this.kind == kind
    {
      this.description := description;
      this.isMarked := isMarked;
      this.kind := kind;
    }

    function Value(): TaskValue
      reads this
    {
      TaskValue(description, isMarked, kind)
    }

    /** Sets the flag whatever it was, so marking twice is marking once. */
    method MarkAsDone()
      modifies this
      ensures isMarked
      ensures description == old(description)
    {
      isMarked := true;
    }

    /** Clears the flag whatever it was. */
    method MarkAsUndone()
      modifies this
      ensures !isMarked
      ensures description == old(description)
    {
      isMarked := false;
    }

    /** `toString`, dispatched on the variant. */
    function ToString(): string
      reads this
    {
      Display(Value())
    }

    /** `Event.toData`. */
    function ToData(): string
      reads this
      requires kind.Event?
    {
      EventData(description, isMarked, kind.atTime)
    }

    /** A new object with the same description, flag and time. */
    method Copy() returns (c: Task)
      ensures fresh(c)
      ensures c.Value() == Value()
      ensures kind.Event? ==> c.ToData() == ToData()
    {
      c := new Task(description, isMarked, kind);
    }
  }

  /** Marking a copy leaves the original's flag as it was. */
  method MarkCopy(original: Task) returns (c: Task)
    ensures fresh(c) && c.isMarked
    ensures c.description == original.description && c.kind == original.kind
    ensures original.Value() == old(original.Value())
  {
    c := original.Copy();
    c.MarkAsDone();
  }

  /** Unmarking the original after copying leaves the copy's flag as it was. */
  method UnmarkAfterCopy(original: Task) returns (c: Task)
    modifies original
    ensures fresh(c) && !original.isMarked
    ensures c.Value() == old(original.Value())
  {
    c := original.Copy();
    original.MarkAsUndone();
  }
}
