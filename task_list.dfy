/**
 * The live task list and the undo history. Only what the delete commands
 * use is modelled: the range check, positional access and removal, the
 * deep copy, and pushing a snapshot.
 */
module TaskLists {
  import opened Outcomes
  import opened Tasks

  /** The values the tasks hold right now, in list order. */
  function ValuesOf(ts: seq<Task>): (vs: seq<TaskValue>)
    reads ts
    ensures |vs| == |ts|
    ensures forall k :: 0 <= k < |ts| ==> vs[k] == ts[k].Value()
  {
    seq(|ts|, k requires 0 <= k < |ts| reads ts => ts[k].Value())
  }

  /** `s` without its `i`-th element: one shorter, the others in their old order. */
  function RemoveAt<T>(s: seq<T>, i: nat): (r: seq<T>)
    requires i < |s|
    ensures |r| == |s| - 1
    ensures forall k :: 0 <= k < i ==> r[k] == s[k]
    ensures forall k :: i <= k < |r| ==> r[k] == s[k + 1]
  {
    s[..i] + s[i + 1..]
  }

  /** Removing a task removes its value and nothing else. */
  lemma ValuesOfRemoveAt(ts: seq<Task>, i: nat)
    requires i < |ts|
    ensures ValuesOf(RemoveAt(ts, i)) == RemoveAt(ValuesOf(ts), i)
  {
    var a, b := ValuesOf(RemoveAt(ts, i)), RemoveAt(ValuesOf(ts), i);
    assert |a| == |b|;
    forall k | 0 <= k < |a| ensures a[k] == b[k] {
      if k < i {
        assert a[k] == ts[k].Value();
      } else {
        assert a[k] == ts[k + 1].Value();
      }
    }
  }

  /** An ordered list of tasks, addressed by 0-based position. */
  class TaskList {
    var tasks: seq<Task>

    constructor ()
      ensures tasks == []
    {
      tasks := [];
    }

    function Size(): nat
      reads this
    {
      |tasks|
    }

    /** The range check every indexed command makes before it touches the list. */
    predicate IsValidIndex(i: int)
      reads this
    {
      0 <= i < |tasks|
    }

    function Values(): seq<TaskValue>
      reads this, tasks
    {
      ValuesOf(tasks)
    }

    ghost function Elements(): set<Task>
      reads this
    {
      set t | t in tasks
    }

    /** The task at `i`; an index out of range throws. */
    function Get(i: int): (r: Result<Task>)
      reads this
      ensures r.Ok? <==> IsValidIndex(i)
      ensures r.Ok? ==> r.value == tasks[i]
      ensures r.Err? ==> r.error == IndexOutOfBounds
    {
      if IsValidIndex(i) then Ok(tasks[i]) else Err(IndexOutOfBounds)
    }

    /** Takes out the task at `i`; an index out of range throws and changes nothing. */
    method Remove(i: int) returns (r: Outcome)
      modifies this
      ensures old(IsValidIndex(i)) ==> r == Pass && tasks == RemoveAt(old(tasks), i)
      ensures old(IsValidIndex(i)) ==> Values() == RemoveAt(old(Values()), i)
      ensures !old(IsValidIndex(i)) ==> r == Fail(IndexOutOfBounds) && tasks == old(tasks)
    {
      if IsValidIndex(i) {
        ValuesOfRemoveAt(tasks, i);
        tasks := RemoveAt(tasks, i);
        r := Pass;
      } else {
        r := Fail(IndexOutOfBounds);
      }
    }

    /**
     * Replaces this list's contents with copies of `source`'s tasks: the
     * same values in the same order, held by new objects only.
     */
    method Copy(source: TaskList)
      modifies this
      ensures Values() == old(source.Values())
      ensures fresh(Elements())
    {
      var copies: seq<Task> := [];
      var i := 0;
      while i < |source.tasks|
        invariant source.tasks == old(source.tasks)
        invariant 0 <= i <= |source.tasks|
        invariant |copies| == i
        invariant forall k :: 0 <= k < i ==> fresh(copies[k])
        invariant forall k :: 0 <= k < i ==> copies[k].Value() == old(source.tasks[k].Value())
      {
        var c := source.tasks[i].Copy();
        copies := copies + [c];
        i := i + 1;
      }
      tasks := copies;
    }
  }

  /**
   * A copy shares no task with its source: marking a task of the source
   * afterwards leaves every value of the copy as it was.
   */
  method MarkAfterCopy(source: TaskList, j: int) returns (copy: TaskList)
    modifies source.tasks
    ensures fresh(copy)
    ensures copy.Values() == old(source.Values())
    ensures 0 <= j < |source.tasks| ==> source.tasks[j].isMarked
  {
    copy := new TaskList();
    copy.Copy(source);
    if 0 <= j < |source.tasks| {
      var t := source.tasks[j];
      forall k | 0 <= k < |copy.tasks| ensures copy.tasks[k] != t {
        assert copy.tasks[k] in copy.Elements();
      }
      t.MarkAsDone();
    }
  }

  /** The undo history: a stack of whole-list snapshots, the newest last. */
  class TaskStack {
    var snapshots: seq<TaskList>

    constructor ()
      ensures snapshots == []
    {
      snapshots := [];
    }

    method Push(snapshot: TaskList)
      modifies this
      ensures snapshots == old(snapshots) + [snapshot]
    {
      snapshots := snapshots + [snapshot];
    }
  }
}
