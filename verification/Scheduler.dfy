/** The task table and the round-robin scheduler. */
module Scheduler {

  const MAX_TASKS: nat := 64
  const FIRST_ID: nat := 1000

  datatype State = Dead | Ready | Idle | WaitForEvent | WaitForRedraw

  datatype Task = Task(id: nat, state: State)

  const FREE_SLOT: Task := Task(0, Dead)

  function Alive(tasks: seq<Task>): nat {
    if tasks == [] then 0 else Alive(tasks[..|tasks| - 1]) + (if tasks[|tasks| - 1].state == Dead then 0 else 1)
  }

  lemma {:induction false} AliveUpdate(tasks: seq<Task>, i: nat, t: Task)
    requires i < |tasks|
    ensures Alive(tasks[i := t]) + (if tasks[i].state == Dead then 0 else 1) ==
            Alive(tasks) + (if t.state == Dead then 0 else 1)
  {
    var n := |tasks| - 1;
    if i == n {
      assert tasks[i := t][..n] == tasks[..n];
    } else {
      assert tasks[i := t][..n] == tasks[..n][i := t];
      AliveUpdate(tasks[..n], i, t);
    }
  }

  lemma {:induction false} AliveAtLeast(tasks: seq<Task>, i: nat, j: nat)
    requires i < j < |tasks| && tasks[i].state != Dead && tasks[j].state != Dead
    ensures Alive(tasks) >= 2
  {
    var n := |tasks| - 1;
    if j < n {
      AliveAtLeast(tasks[..n], i, j);
    } else {
      AliveSome(tasks[..n], i);
    }
  }

  lemma {:induction false} AliveSome(tasks: seq<Task>, i: nat)
    requires i < |tasks| && tasks[i].state != Dead
    ensures Alive(tasks) >= 1
  {
    if i < |tasks| - 1 {
      AliveSome(tasks[..|tasks| - 1], i);
    }
  }

  /** The table: slot `i` holds the task with id `1000 + i`, the root task idles in slot 0, and
      `num` tasks are alive. */
  ghost predicate TableOk(tasks: seq<Task>, num: nat) {
    && |tasks| == MAX_TASKS && num == Alive(tasks) && tasks[0] == Task(FIRST_ID, Idle)
    && forall i :: 0 <= i < MAX_TASKS ==>
         tasks[i] == FREE_SLOT || (tasks[i].id == FIRST_ID + i && tasks[i].state != Dead)
  }

  /** The slot `d` steps behind `cur`, cyclically, is ready. */
  predicate ReadyAhead(tasks: seq<Task>, cur: nat, d: nat)
    requires |tasks| == MAX_TASKS
  {
    tasks[(cur + d) % MAX_TASKS].state == Ready
  }

  /** Some slot is ready. */
  predicate AnyReady(tasks: seq<Task>)
    requires |tasks| == MAX_TASKS
  {
    exists i :: 0 <= i < MAX_TASKS && tasks[i].state == Ready
  }

  /** Steps from slot `from` on, cyclically, to slot `to`: between 1 and 64. */
  function Distance(from: nat, to: nat): (d: nat)
    requires from < MAX_TASKS && to < MAX_TASKS
    ensures 1 <= d <= MAX_TASKS && (from + d) % MAX_TASKS == to
  {
    if to > from then to - from else to + MAX_TASKS - from
  }

  /** `next` is the first ready slot behind `cur`, cyclically. */
  ghost predicate FirstReady(tasks: seq<Task>, cur: nat, next: nat)
    requires |tasks| == MAX_TASKS && cur < MAX_TASKS
  {
    && next < MAX_TASKS && tasks[next].state == Ready
    && forall d :: 1 <= d < Distance(cur, next) ==> !ReadyAhead(tasks, cur, d)
  }

  /** What a call of the scheduler picks. */
  ghost predicate Picks(tasks: seq<Task>, num: nat, cur: nat, next: nat)
    requires |tasks| == MAX_TASKS && cur < MAX_TASKS
  {
    if num == 1 then next == 0 else FirstReady(tasks, cur, next)
  }

  /** Each pick brings the scheduler nearer to a ready slot, until it is picked itself. */
  lemma PickApproaches(tasks: seq<Task>, num: nat, cur: nat, next: nat, j: nat)
    requires TableOk(tasks, num) && cur < MAX_TASKS && Picks(tasks, num, cur, next)
    requires j < MAX_TASKS && tasks[j].state == Ready
    ensures next < MAX_TASKS && (next == j || Distance(next, j) == Distance(cur, j) - Distance(cur, next))
  {
    AliveAtLeast(tasks, 0, j);
    var d := Distance(cur, j);
    assert ReadyAhead(tasks, cur, d);
    assert Distance(cur, next) <= d;
    if next != j {
      DistanceUnique(cur, next, j);
    }
  }

  lemma DistanceUnique(cur: nat, a: nat, b: nat)
    requires cur < MAX_TASKS && a < MAX_TASKS && b < MAX_TASKS && a != b && Distance(cur, a) <= Distance(cur, b)
    ensures Distance(a, b) == Distance(cur, b) - Distance(cur, a)
  {
  }

  /** The table and the current slot before each call of the scheduler: between calls anything may
      happen to the tasks. */
  datatype Moment = Moment(tasks: seq<Task>, num: nat, cur: nat)

  /** A run of `|run| - 1` calls during which slot `j` stays ready. */
  ghost predicate ReadyThroughout(run: seq<Moment>, j: nat) {
    && j < MAX_TASKS
    && (forall k :: 0 <= k < |run| ==>
          TableOk(run[k].tasks, run[k].num) && run[k].cur < MAX_TASKS && run[k].tasks[j].state == Ready)
    && (forall k, l :: 0 <= k && l == k + 1 && l < |run| ==> Picks(run[k].tasks, run[k].num, run[k].cur, run[l].cur))
  }

  /** Until slot `j` is picked, every call brings the scheduler nearer to it. */
  lemma {:induction false} Approaches(run: seq<Moment>, j: nat, n: nat)
    requires ReadyThroughout(run, j) && n < |run| && forall k :: 1 <= k <= n ==> run[k].cur != j
    ensures Distance(run[n].cur, j) <= Distance(run[0].cur, j) - n
    ensures forall k :: 0 <= k < n ==> Distance(run[n].cur, j) < Distance(run[k].cur, j)
  {
    if n > 0 {
      Approaches(run, j, n - 1);
      var m := n - 1;
      PickApproaches(run[m].tasks, run[m].num, run[m].cur, run[n].cur, j);
    }
  }

  /** A slot that stays ready is picked within 64 calls, whatever the other tasks do. */
  lemma BoundedWaiting(run: seq<Moment>, j: nat)
    requires ReadyThroughout(run, j) && |run| > MAX_TASKS
    ensures exists k :: 1 <= k <= MAX_TASKS && run[k].cur == j
  {
    if forall k :: 1 <= k <= MAX_TASKS ==> run[k].cur != j {
      Approaches(run, j, MAX_TASKS);
      assert false;
    }
  }

  /** And no other slot is picked twice before it. */
  lemma NoneTwice(run: seq<Moment>, j: nat, k: nat, l: nat)
    requires ReadyThroughout(run, j) && 1 <= k < l < |run| && forall i :: 1 <= i <= l ==> run[i].cur != j
    ensures run[k].cur != run[l].cur
  {
    Approaches(run, j, l);
  }

  /** Without a ready slot every probe of the search fails, however long it runs. */
  lemma SearchNeverEnds(tasks: seq<Task>, cur: nat, n: nat)
    requires |tasks| == MAX_TASKS && !AnyReady(tasks)
    ensures !ReadyAhead(tasks, cur, n)
  {
  }

  /** A call of the scheduler answers: no other task is alive, or some probe of its search succeeds. */
  ghost predicate SearchEnds(tasks: seq<Task>, num: nat, cur: nat)
    requires |tasks| == MAX_TASKS
  {
    num == 1 || exists n: nat :: n >= 1 && ReadyAhead(tasks, cur, n)
  }

  /** The search ends exactly when the scheduler need not search or some task is ready. */
  lemma SearchEndsExactly(tasks: seq<Task>, num: nat, cur: nat)
    requires |tasks| == MAX_TASKS && cur < MAX_TASKS
    ensures SearchEnds(tasks, num, cur) <==> num == 1 || AnyReady(tasks)
  {
    if n: nat :| n >= 1 && ReadyAhead(tasks, cur, n) {
      assert tasks[(cur + n) % MAX_TASKS].state == Ready;
    }
    if i: nat :| i < MAX_TASKS && tasks[i].state == Ready {
      assert ReadyAhead(tasks, cur, Distance(cur, i));
    }
  }

  /** The table after one task was created and began to wait: in order, and the search never ends. */
  lemma AllWaiting(cur: nat)
    requires cur < MAX_TASKS
    ensures var tasks := seq(MAX_TASKS, i => if i == 0 then Task(FIRST_ID, Idle)
                                             else if i == 1 then Task(FIRST_ID + 1, WaitForEvent) else FREE_SLOT);
            TableOk(tasks, 2) && !SearchEnds(tasks, 2, cur)
  {
    var alone := seq(MAX_TASKS, i => if i == 0 then Task(FIRST_ID, Idle) else FREE_SLOT);
    var tasks := seq(MAX_TASKS, i => if i == 0 then Task(FIRST_ID, Idle)
                                     else if i == 1 then Task(FIRST_ID + 1, WaitForEvent) else FREE_SLOT);
    assert tasks == alone[1 := Task(FIRST_ID + 1, WaitForEvent)];
    AliveRoot(alone);
    AliveUpdate(alone, 1, Task(FIRST_ID + 1, WaitForEvent));
    SearchEndsExactly(tasks, 2, cur);
  }

  lemma {:induction false} AliveRoot(tasks: seq<Task>)
    requires |tasks| >= 1 && tasks[0].state != Dead && forall i :: 1 <= i < |tasks| ==> tasks[i].state == Dead
    ensures Alive(tasks) == 1
  {
    if |tasks| > 1 {
      AliveRoot(tasks[..|tasks| - 1]);
    } else {
      assert tasks[..0] == [];
    }
  }

  class TaskTable {
    const tasks: array<Task>
    var numTasks: nat
    var current: nat

    ghost predicate Valid()
      reads this, tasks
    {
      TableOk(tasks[..], numTasks) && current < MAX_TASKS
    }

    /** Only the root task exists. */
    constructor ()
      ensures Valid() && fresh(tasks) && numTasks == 1 && current == 0
      ensures forall i :: 1 <= i < MAX_TASKS ==> tasks[i] == FREE_SLOT
    {
      tasks := new Task[MAX_TASKS](i => if i == 0 then Task(FIRST_ID, Idle) else FREE_SLOT);
      numTasks := 1;
      current := 0;
      new;
      AliveRoot(tasks[..]);
    }

    /** Puts a new task in the first free slot. */
    method CreateTask() returns (id: nat)
      requires Valid()
      modifies this`numTasks, tasks
      ensures Valid()
      ensures id == 0 <==> forall i :: 0 <= i < MAX_TASKS ==> old(tasks[i]) != FREE_SLOT
      ensures id == 0 ==> tasks[..] == old(tasks[..]) && numTasks == old(numTasks)
      ensures id != 0 ==>
                && FIRST_ID < id < FIRST_ID + MAX_TASKS && old(tasks[id - FIRST_ID]) == FREE_SLOT
                && (forall i :: 0 <= i < id - FIRST_ID ==> old(tasks[i]) != FREE_SLOT)
                && tasks[..] == old(tasks[..])[id - FIRST_ID := Task(id, Ready)] && numTasks == old(numTasks) + 1
    {
      var i := 0;
      while i < MAX_TASKS && tasks[i].state != Dead
        invariant 0 <= i <= MAX_TASKS && Valid() && tasks[..] == old(tasks[..]) && numTasks == old(numTasks)
        invariant forall k :: 0 <= k < i ==> tasks[k] != FREE_SLOT
      {
        i := i + 1;
      }
      if i == MAX_TASKS {
        return 0;
      }
      AliveUpdate(tasks[..], i, Task(FIRST_ID + i, Ready));
      numTasks := numTasks + 1;
      tasks[i] := Task(FIRST_ID + i, Ready);
      return FIRST_ID + i;
    }

    /** Removes a task; the root task and dead tasks stay as they are. */
    method KillTask(id: nat)
      requires Valid() && id < FIRST_ID + MAX_TASKS
      modifies this`numTasks, tasks
      ensures Valid()
      ensures if id > FIRST_ID && old(tasks[id - FIRST_ID]) != FREE_SLOT then
                tasks[..] == old(tasks[..])[id - FIRST_ID := FREE_SLOT] && numTasks == old(numTasks) - 1
              else tasks[..] == old(tasks[..]) && numTasks == old(numTasks)
    {
      if id <= FIRST_ID {
        return;
      }
      var index := id - FIRST_ID;
      if tasks[index].state == Dead {
        return;
      }
      AliveUpdate(tasks[..], index, FREE_SLOT);
      tasks[index] := FREE_SLOT;
      numTasks := numTasks - 1;
    }

    /** A ready task other than the root begins to wait, or a waiting one becomes ready. */
    method SetState(i: nat, s: State)
      requires Valid() && 1 <= i < MAX_TASKS && tasks[i].state !in {Dead, Idle} && s !in {Dead, Idle}
      modifies tasks
      ensures Valid() && tasks[..] == old(tasks[..])[i := Task(old(tasks[i]).id, s)]
    {
      AliveUpdate(tasks[..], i, Task(tasks[i].id, s));
      tasks[i] := Task(tasks[i].id, s);
    }

    /** Searches the table for the next ready task. */
    method ChooseNextTask() returns (index: nat)
      requires Valid() && (numTasks == 1 || AnyReady(tasks[..]))
      ensures Picks(tasks[..], numTasks, current, index) && index < MAX_TASKS
    {
      if numTasks == 1 {
        return 0;
      }
      hide TableOk, Alive;
      ghost var goal: nat :| goal < MAX_TASKS && tasks[goal].state == Ready;
      ghost var d := 0;
      index := current;
      while true
        invariant index < MAX_TASKS && d < Distance(current, goal) && index == (current + d) % MAX_TASKS
        invariant forall k :: 1 <= k <= d ==> !ReadyAhead(tasks[..], current, k)
        decreases MAX_TASKS - d
      {
        index := index + 1;
        index := index % MAX_TASKS;
        d := d + 1;
        StepOne(current, d);
        if tasks[index].state == Ready {
          DistanceIs(current, d, index);
          break;
        }
        assert !ReadyAhead(tasks[..], current, d);
        assert d != Distance(current, goal);
      }
    }

    static lemma StepOne(cur: nat, d: nat)
      requires d >= 1
      ensures ((cur + d - 1) % MAX_TASKS + 1) % MAX_TASKS == (cur + d) % MAX_TASKS
    {
    }

    static lemma DistanceIs(cur: nat, d: nat, index: nat)
      requires cur < MAX_TASKS && 1 <= d <= MAX_TASKS && index == (cur + d) % MAX_TASKS
      ensures index < MAX_TASKS && Distance(cur, index) == d
    {
    }

    /** Makes the next ready task the current one. */
    method Schedule()
      requires Valid() && (numTasks == 1 || AnyReady(tasks[..]))
      modifies this`current
      ensures Valid() && Picks(tasks[..], numTasks, old(current), current)
    {
      var index := ChooseNextTask();
      current := index;
    }
  }

  /** That table is reached by creating a task that waits for its first event. */
  method WaitAtOnce() returns (t: TaskTable)
    ensures fresh(t) && t.Valid() && t.numTasks == 2 && !SearchEnds(t.tasks[..], t.numTasks, t.current)
  {
    t := new TaskTable();
    assert t.tasks[1] == FREE_SLOT;
    var id := t.CreateTask();
    t.SetState(1, WaitForEvent);
    SearchEndsExactly(t.tasks[..], t.numTasks, t.current);
  }
}
