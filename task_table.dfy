/** The in-memory task table: a map from id to task and the counter `next` that hands
    out ids. Dates come from an RFC 3339 parser that is outside the model; it is passed
    in as the partial function `parse`. */
module TaskTable {
  import opened Wrappers
  import opened MapEnum

  /** A point in time: `instant` counts from Go's zero time (so `instant == 0` is what
      `IsZero` tests), `offset` is the zone offset the value carries. */
  datatype Date = Date(instant: int, offset: int)

  /** The zero value of a date (`time.Time{}`). */
  const ZeroDate: Date := Date(0, 0)

  predicate IsZero(d: Date)
  {
    d.instant == 0
  }

  datatype Task = Task(id: int, title: string, description: string, dueDate: Date, status: string)

  /** The payload of a create or update call; the due date is still text. */
  datatype TaskInput = TaskInput(title: string, description: string, dueDate: string, status: string)

  datatype TaskError = NotFound | InvalidDate

  /** The due date an input asks for: an empty string means the zero date, otherwise the
      text must parse. */
  function RequestedDue(text: string, parse: string -> Option<Date>): (r: Result<Date, TaskError>)
    ensures r.Err? ==> r.error == InvalidDate
    ensures r.Ok? && text != "" ==> parse(text) == Some(r.value)
  {
    if text == "" then Ok(ZeroDate)
    else match parse(text)
      case None => Err(InvalidDate)
      case Some(d) => Ok(d)
  }

  /** The due date an update leaves in the task, given the requested one: a non-zero date
      replaces the old one; a zero date keeps the old one when the text was empty and
      resets it to the zero value otherwise. */
  function UpdatedDue(existing: Date, text: string, due: Date): (d: Date)
    ensures d == due || (IsZero(due) && (d == existing || d == ZeroDate))
  {
    if !IsZero(due) then due
    else if text == "" then existing
    else ZeroDate
  }

  /** An empty due-date string preserves the existing date; a non-empty one that parses
      replaces it (a parsed date at the zero instant is stored as the zero value). */
  lemma DueDateRule(existing: Date, text: string, parse: string -> Option<Date>)
    requires RequestedDue(text, parse).Ok?
    ensures var due := UpdatedDue(existing, text, RequestedDue(text, parse).value);
      && (text == "" ==> due == existing)
      && (text != "" ==> parse(text).Some? &&
                         due == if IsZero(parse(text).value) then ZeroDate else parse(text).value)
  {
  }

  /** Only unparseable, non-empty text is refused. */
  lemma RequestedDueErrors(text: string, parse: string -> Option<Date>)
    ensures RequestedDue(text, parse).Err? <==> text != "" && parse(text) == None
  {
  }

  class TaskService {
    var tasks: map<int, Task>
    var next: int

    /** Every stored task sits under its own id, and `next` lies above every id in use. */
    ghost predicate Valid()
      reads this
    {
      && next >= 1
      && forall id :: id in tasks ==> 1 <= id < next && tasks[id].id == id
    }

    /** The service starts with no tasks and hands out 1 first. */
    constructor ()
      ensures Valid() && tasks == map[] && next == 1
    {
      tasks := map[];
      next := 1;
    }

    /** Create a task under the next id. A due date that does not parse is refused before
        the table is touched. */
    method CreateTask(input: TaskInput, parse: string -> Option<Date>) returns (r: Result<Task, TaskError>)
      requires Valid()
      modifies this
      ensures Valid()
      ensures RequestedDue(input.dueDate, parse).Err? ==>
                r == Err(InvalidDate) && tasks == old(tasks) && next == old(next)
      ensures RequestedDue(input.dueDate, parse).Ok? ==>
                && r == Ok(Task(old(next), input.title, input.description,
                                RequestedDue(input.dueDate, parse).value, input.status))
                && old(next) !in old(tasks)
                && tasks == old(tasks)[old(next) := r.value]
                && next == old(next) + 1
    {
      var due := ZeroDate;
      if input.dueDate != "" {
        var parsed := parse(input.dueDate);
        if parsed.None? {
          return Err(InvalidDate);
        }
        due := parsed.value;
      }
      var t := Task(next, input.title, input.description, due, input.status);
      tasks := tasks[next := t];
      next := next + 1;
      r := Ok(t);
    }

    /** All stored tasks, in the unspecified order `ids` of the map's keys. */
    method GetAllTasks() returns (out: seq<Task>, ghost ids: seq<int>)
      ensures Enumerates(ids, tasks)
      ensures |out| == |ids| == |tasks|
      ensures forall i :: 0 <= i < |ids| ==> ids[i] in tasks && out[i] == tasks[ids[i]]
      ensures forall t :: t in out <==> t in tasks.Values
    {
      out, ids := [], [];
      var rest := tasks.Keys;
      while rest != {}
        invariant rest <= tasks.Keys
        invariant forall id :: id in ids <==> id in tasks && id !in rest
        invariant Distinct(ids)
        invariant |out| == |ids|
        invariant forall i :: 0 <= i < |ids| ==> ids[i] in tasks && out[i] == tasks[ids[i]]
        decreases rest
      {
        var id := Pick(rest);
        out := out + [tasks[id]];
        ids := ids + [id];
        rest := rest - {id};
      }
      assert forall id :: id in ids <==> id in tasks;
      EnumerationLength(ids, tasks);
      forall t | t in tasks.Values ensures t in out {
        var id :| id in tasks && tasks[id] == t;
        var i :| 0 <= i < |ids| && ids[i] == id;
        assert out[i] == t;
      }
    }

    /** Replace title, description and status of an existing task and apply the due-date
        rule. The date is checked before the id is looked up. */
    method UpdateTask(id: int, input: TaskInput, parse: string -> Option<Date>) returns (r: Result<Task, TaskError>)
      requires Valid()
      modifies this
      ensures Valid() && next == old(next)
      ensures RequestedDue(input.dueDate, parse).Err? ==> r == Err(InvalidDate) && tasks == old(tasks)
      ensures RequestedDue(input.dueDate, parse).Ok? && id !in old(tasks) ==> r == Err(NotFound) && tasks == old(tasks)
      ensures RequestedDue(input.dueDate, parse).Ok? && id in old(tasks) ==>
                && r == Ok(Task(id, input.title, input.description,
                                UpdatedDue(old(tasks)[id].dueDate, input.dueDate, RequestedDue(input.dueDate, parse).value),
                                input.status))
                && tasks == old(tasks)[id := r.value]
    {
      var due := ZeroDate;
      if input.dueDate != "" {
        var parsed := parse(input.dueDate);
        if parsed.None? {
          return Err(InvalidDate);
        }
        due := parsed.value;
      }
      if id !in tasks {
        return Err(NotFound);
      }
      var t := tasks[id];
      t := t.(title := input.title, description := input.description);
      if !IsZero(due) {
        t := t.(dueDate := due);
      } else if input.dueDate == "" {
        // an empty date string keeps the stored date
      } else {
        t := t.(dueDate := ZeroDate);
      }
      t := t.(status := input.status);
      tasks := tasks[id := t];
      r := Ok(t);
    }

    /** Remove an existing task; `next` is left alone, so an id is never handed out twice. */
    method DeleteTask(id: int) returns (err: Option<TaskError>)
      requires Valid()
      modifies this
      ensures Valid() && next == old(next)
      ensures id !in old(tasks) ==> err == Some(NotFound) && tasks == old(tasks)
      ensures id in old(tasks) ==> err == None && tasks == old(tasks) - {id}
    {
      if id !in tasks {
        return Some(NotFound);
      }
      tasks := tasks - {id};
      err := None;
    }
  }

  /** Ids are never reused: after a task is deleted, the next create hands out a fresh id. */
  method NoReuseScenario(parse: string -> Option<Date>)
    returns (first: Result<Task, TaskError>, third: Result<Task, TaskError>, missing: Result<Task, TaskError>)
    ensures first == Ok(Task(1, "a", "", ZeroDate, "todo"))
    ensures third.Ok? && third.value.id == 3
    ensures missing == Err(NotFound)
  {
    var svc := new TaskService();
    first := svc.CreateTask(TaskInput("a", "", "", "todo"), parse);
    var second := svc.CreateTask(TaskInput("b", "", "", "todo"), parse);
    var e := svc.DeleteTask(2);
    assert e == None;
    third := svc.CreateTask(TaskInput("c", "", "", "todo"), parse);
    missing := svc.UpdateTask(2, TaskInput("x", "", "", "done"), parse);
  }
}
