/**
 * One tick of the reminder interval in utils/reminder.js (lines 6-35): select
 * the due rows of the `tasks` table, then, row by row, try to deliver a
 * reminder and mark the row reminded when the delivery went through.
 *
 * The clock reading is the parameter `now`; whether the query failed is the
 * parameter `queryFailed`; whether fetching the user and sending the message
 * succeeds for a row is the oracle `delivered`, asked with the row's id.
 */
module Reminder {
  import opened Wrappers

  /** A row of the `tasks` table as this module reads it; deadline is ms since the epoch. */
  datatype Task = Task(id: int, user: string, name: string, deadline: Option<int>, completed: bool, reminded: bool)

  /** How long before its deadline a task is reminded: 30 minutes. */
  const REMIND_BEFORE_MS: int := 1800000

  /** The selection of the tick's query: open, dated, not yet reminded, and due within 30 minutes. */
  predicate Due(t: Task, now: int) {
    !t.completed && t.deadline.Some? && !t.reminded && t.deadline.value <= now + REMIND_BEFORE_MS
  }

  /** The rows the query returns, in table order. */
  function Selected(tasks: seq<Task>, now: int): (rows: seq<Task>)
    ensures forall t :: t in rows <==> t in tasks && Due(t, now)
  {
    if tasks == [] then []
    else if Due(tasks[0], now) then [tasks[0]] + Selected(tasks[1..], now)
    else Selected(tasks[1..], now)
  }

  /** The flag update for one id: every row with that id gets reminded set. */
  function MarkReminded(tasks: seq<Task>, id: int): (r: seq<Task>)
    ensures |r| == |tasks|
    ensures forall k :: 0 <= k < |tasks| ==> r[k] == if tasks[k].id == id then tasks[k].(reminded := true) else tasks[k]
  {
    if tasks == [] then [] else [if tasks[0].id == id then tasks[0].(reminded := true) else tasks[0]] + MarkReminded(tasks[1..], id)
  }

  /** The table after the loop has handled the given rows in order: failures are skipped. */
  function Sweep(tasks: seq<Task>, rows: seq<Task>, delivered: int -> bool): seq<Task>
    decreases |rows|
  {
    if rows == [] then tasks
    else
      var before := Sweep(tasks, rows[..|rows| - 1], delivered);
      var last := rows[|rows| - 1];
      if delivered(last.id) then MarkReminded(before, last.id) else before
  }

  /** The table after one tick: a failed query, or one returning no rows, changes nothing. */
  function AfterTick(tasks: seq<Task>, now: int, queryFailed: bool, delivered: int -> bool): seq<Task> {
    var rows := Selected(tasks, now);
    if queryFailed || rows == [] then tasks else Sweep(tasks, rows, delivered)
  }

  /** Whether some of the rows carries this id and was delivered. */
  predicate AnyDelivered(rows: seq<Task>, id: int, delivered: int -> bool) {
    exists r :: r in rows && r.id == id && delivered(id)
  }

  /** After the sweep, a row is reminded when it was, or when a row with its id was delivered; nothing else changes. */
  lemma {:induction false} SweepAt(tasks: seq<Task>, rows: seq<Task>, delivered: int -> bool)
    ensures |Sweep(tasks, rows, delivered)| == |tasks|
    ensures forall k :: 0 <= k < |tasks| ==>
      Sweep(tasks, rows, delivered)[k] == tasks[k].(reminded := tasks[k].reminded || AnyDelivered(rows, tasks[k].id, delivered))
    decreases |rows|
  {
    if rows != [] {
      var init := rows[..|rows| - 1];
      var last := rows[|rows| - 1];
      SweepAt(tasks, init, delivered);
      assert rows == init + [last];
      forall k | 0 <= k < |tasks|
        ensures AnyDelivered(rows, tasks[k].id, delivered)
            == (AnyDelivered(init, tasks[k].id, delivered) || (last.id == tasks[k].id && delivered(last.id)))
      {
        if AnyDelivered(rows, tasks[k].id, delivered) {
          var r :| r in rows && r.id == tasks[k].id && delivered(tasks[k].id);
          if r != last {
            assert r in init;
          }
        }
        if AnyDelivered(init, tasks[k].id, delivered) {
          var r :| r in init && r.id == tasks[k].id && delivered(tasks[k].id);
          assert r in rows;
        }
        assert last in rows;
      }
    }
  }

  /** Ids tell the rows apart. */
  predicate DistinctIds(tasks: seq<Task>) {
    forall i, j :: 0 <= i < |tasks| && 0 <= j < |tasks| && tasks[i].id == tasks[j].id ==> i == j
  }

  /**
   * With distinct ids, a tick sets reminded exactly on the due rows whose
   * delivery succeeded, unless the query failed, and changes no other field
   * and no other row.
   */
  lemma TickAt(tasks: seq<Task>, now: int, queryFailed: bool, delivered: int -> bool)
    requires DistinctIds(tasks)
    ensures |AfterTick(tasks, now, queryFailed, delivered)| == |tasks|
    ensures forall k :: 0 <= k < |tasks| ==>
      AfterTick(tasks, now, queryFailed, delivered)[k]
      == tasks[k].(reminded := tasks[k].reminded || (!queryFailed && Due(tasks[k], now) && delivered(tasks[k].id)))
  {
    var rows := Selected(tasks, now);
    SweepAt(tasks, rows, delivered);
    forall k | 0 <= k < |tasks|
      ensures AnyDelivered(rows, tasks[k].id, delivered) == (Due(tasks[k], now) && delivered(tasks[k].id))
    {
      if AnyDelivered(rows, tasks[k].id, delivered) {
        var r :| r in rows && r.id == tasks[k].id && delivered(tasks[k].id);
        var j :| 0 <= j < |tasks| && tasks[j] == r;
        assert j == k;
      }
      if Due(tasks[k], now) && delivered(tasks[k].id) {
        assert tasks[k] in tasks;
        assert tasks[k] in rows;
      }
    }
    if rows == [] {
      forall k | 0 <= k < |tasks| ensures !Due(tasks[k], now) {
        assert tasks[k] in tasks;
      }
    }
  }

  /** The 30-minute bound is inclusive: a task due exactly 30 minutes from now is selected, one a millisecond later is not. */
  lemma DueBoundary(t: Task, now: int)
    requires !t.completed && !t.reminded && t.deadline.Some?
    ensures t.deadline.value == now + REMIND_BEFORE_MS ==> Due(t, now)
    ensures t.deadline.value == now + REMIND_BEFORE_MS + 1 ==> !Due(t, now)
  {
  }

  /** A reminded row stays reminded through any tick and no later tick selects it again. */
  lemma RemindedStaysOut(tasks: seq<Task>, now: int, queryFailed: bool, delivered: int -> bool, k: int, later: int)
    requires 0 <= k < |tasks| && tasks[k].reminded
    ensures |AfterTick(tasks, now, queryFailed, delivered)| == |tasks|
    ensures AfterTick(tasks, now, queryFailed, delivered)[k] == tasks[k]
    ensures !Due(AfterTick(tasks, now, queryFailed, delivered)[k], later)
  {
    SweepAt(tasks, Selected(tasks, now), delivered);
  }

  /** A failed delivery leaves its row unreminded, whatever happens to the other rows. */
  lemma FailedDeliveryStaysDue(tasks: seq<Task>, now: int, queryFailed: bool, delivered: int -> bool, k: int)
    requires 0 <= k < |tasks| && Due(tasks[k], now) && !delivered(tasks[k].id)
    ensures |AfterTick(tasks, now, queryFailed, delivered)| == |tasks|
    ensures Due(AfterTick(tasks, now, queryFailed, delivered)[k], now)
  {
    SweepAt(tasks, Selected(tasks, now), delivered);
  }

  /** The table the tick works on. */
  class TaskTable {
    var tasks: seq<Task>

    constructor (tasks: seq<Task>)
      ensures this.tasks == tasks
    {
      this.tasks := tasks;
    }

    /**
     * One tick: query the due rows; on an error or no rows stop; otherwise
     * try each selected row in turn and mark it reminded when its delivery
     * went through, going on to the next row after a failure.
     */
    method Tick(now: int, queryFailed: bool, delivered: int -> bool)
      modifies this
      ensures tasks == AfterTick(old(tasks), now, queryFailed, delivered)
    {
      var rows := Selected(tasks, now);
      if queryFailed || |rows| == 0 {
        return;
      }
      var i := 0;
      while i < |rows|
        invariant 0 <= i <= |rows|
        invariant tasks == Sweep(old(tasks), rows[..i], delivered)
      {
        var task := rows[i];
        assert rows[..i + 1][..i] == rows[..i];
        if delivered(task.id) {
          tasks := MarkReminded(tasks, task.id);
        }
        i := i + 1;
      }
      assert rows[..i] == rows;
    }
  }
}
