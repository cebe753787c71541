/**
  The background task pool of the storage engine. A task is queued here and a closure that will take the front
  task is queued in a context pool beside it; cancelling drops tasks but leaves their closures behind.
  Each method is one step between two points at which control can change hands.
 */
module TaskPool {
  import opened Options

  datatype Task = Task(arg: int, id: nat)

  /** A context in `wait`: not there, asleep on the dock, or notified and about to look again. */
  datatype Waiter = Gone | Asleep | Noted

  ghost predicate Rising(s: seq<Task>) {
    forall i, j :: 0 <= i < j < |s| ==> s[i].id < s[j].id
  }

  ghost predicate Numbered(s: seq<Task>) {
    forall i :: 0 <= i < |s| ==> s[i].id == i + 1
  }

  /**
    Every scheduled task is queued, started or cancelled, and both tasks started and tasks cancelled come in the
    order of their numbers, with the queue still behind them.
   */
  ghost predicate Accounted(scheduled: seq<Task>, started: seq<Task>, cancelled: seq<Task>, tasks: seq<Task>) {
    && Numbered(scheduled)
    && multiset(started) + multiset(cancelled) + multiset(tasks) == multiset(scheduled)
    && Rising(started + tasks) && Rising(cancelled + tasks)
  }

  lemma FrontMoves(scheduled: seq<Task>, started: seq<Task>, cancelled: seq<Task>, tasks: seq<Task>)
    requires Accounted(scheduled, started, cancelled, tasks) && tasks != []
    ensures Accounted(scheduled, started + [tasks[0]], cancelled, tasks[1..])
    ensures Accounted(scheduled, started, cancelled + [tasks[0]], tasks[1..])
  {
    assert tasks == [tasks[0]] + tasks[1..];
    RisingWithout(started, tasks[0], tasks[1..]);
    RisingWithout(cancelled, tasks[0], tasks[1..]);
  }

  lemma BackJoins(scheduled: seq<Task>, started: seq<Task>, cancelled: seq<Task>, tasks: seq<Task>, t: Task)
    requires Accounted(scheduled, started, cancelled, tasks) && t.id == |scheduled| + 1
    ensures Accounted(scheduled + [t], started, cancelled, tasks + [t])
  {
    forall u | u in started + tasks || u in cancelled + tasks ensures u.id < t.id {
      assert u in multiset(started) + multiset(cancelled) + multiset(tasks);
      assert u in scheduled;
    }
    RisingThen(started + tasks, t);
    RisingThen(cancelled + tasks, t);
    assert started + tasks + [t] == started + (tasks + [t]) && cancelled + tasks + [t] == cancelled + (tasks + [t]);
  }

  lemma RisingWithout(a: seq<Task>, t: Task, b: seq<Task>)
    requires Rising(a + ([t] + b))
    ensures Rising(a + b) && a + [t] + b == a + ([t] + b)
  {
    var was, now := a + ([t] + b), a + b;
    forall i, j | 0 <= i < j < |now| ensures now[i].id < now[j].id {
      var p, q := if i < |a| then i else i + 1, if j < |a| then j else j + 1;
      assert was[p] == now[i] && was[q] == now[j];
    }
  }

  lemma RisingThen(s: seq<Task>, t: Task)
    requires Rising(s) && forall u :: u in s ==> u.id < t.id
    ensures Rising(s + [t])
  {
    forall i | 0 <= i < |s| ensures s[i].id < t.id {
      assert s[i] in s;
    }
  }

  /** Numbered tasks are all different. */
  lemma {:induction false} OneOfEach(s: seq<Task>, t: Task)
    requires Numbered(s)
    ensures multiset(s)[t] == if t in s then 1 else 0
  {
    if s != [] {
      var n := |s| - 1;
      assert s == s[..n] + [s[n]];
      OneOfEach(s[..n], t);
    }
  }

  class Pool {
    var taskctr: nat
    var tasks: seq<Task>
    var closures: nat
    var running: nat
    var waiter: Waiter
    ghost var scheduled: seq<Task>
    ghost var started: seq<Task>
    ghost var cancelled: seq<Task>

    /** The tasks are accounted for, and no queued task is without a closure. */
    ghost predicate Valid()
      reads this
    {
      && Accounted(scheduled, started, cancelled, tasks)
      && |scheduled| == taskctr && |tasks| <= closures
    }

    /** What `wait` waits for. */
    predicate Drained()
      reads this`tasks, this`closures, this`running
    {
      tasks == [] && closures + running == 0
    }

    /** The waiter sleeps although there is nothing left to wait for. */
    ghost predicate Stranded()
      reads this`tasks, this`closures, this`running, this`waiter
    {
      waiter == Asleep && Drained()
    }

    /** No task is lost, started and cancelled, started twice, or cancelled twice. */
    lemma ExactlyOnce(t: Task)
      requires Valid() && t in scheduled
      ensures multiset(started)[t] + multiset(cancelled)[t] + multiset(tasks)[t] == 1
    {
      OneOfEach(scheduled, t);
      assert (multiset(started) + multiset(cancelled) + multiset(tasks))[t] == 1;
    }

    /** When the wait is over every task has been started or cancelled. */
    lemma DrainedIsDone(t: Task)
      requires Valid() && Drained() && t in scheduled
      ensures t in started <==> t !in cancelled
    {
      ExactlyOnce(t);
      assert multiset(tasks)[t] == 0;
      assert multiset(started)[t] > 0 <==> t in started;
      assert multiset(cancelled)[t] > 0 <==> t in cancelled;
    }

    constructor ()
      ensures Valid() && Drained() && waiter == Gone && scheduled == []
    {
      taskctr, tasks, closures, running, waiter := 0, [], 0, 0, Gone;
      scheduled, started, cancelled := [], [], [];
    }

    method Schedule(arg: int)
      requires Valid()
      modifies this`taskctr, this`tasks, this`closures, this`scheduled
      ensures Valid() && !Drained()
      ensures taskctr == old(taskctr) + 1 && scheduled == old(scheduled) + [Task(arg, taskctr)]
      ensures tasks == old(tasks) + [Task(arg, taskctr)] && closures == old(closures) + 1
    {
      BackJoins(scheduled, started, cancelled, tasks, Task(arg, taskctr + 1));
      hide Accounted;
      taskctr := taskctr + 1;
      tasks := tasks + [Task(arg, taskctr)];
      closures := closures + 1;
      scheduled := scheduled + [Task(arg, taskctr)];
    }

    /**
      A worker takes a closure. The closure takes the front task and enters it, or finds none and returns at
      once, notifying nobody: a sleeping waiter is stranded exactly when that was the last closure there was.
     */
    method Enter() returns (task: Option<Task>)
      requires Valid() && closures > 0 && !Stranded()
      modifies this`tasks, this`closures, this`running, this`started
      ensures Valid() && closures == old(closures) - 1
      ensures old(tasks) == [] ==> task == None && tasks == [] && running == old(running) && started == old(started)
      ensures old(tasks) != [] ==> task == Some(old(tasks)[0]) && tasks == old(tasks)[1..]
      ensures old(tasks) != [] ==> running == old(running) + 1 && started == old(started) + [old(tasks)[0]]
      ensures Stranded() <==> waiter == Asleep && old(tasks) == [] && old(closures) == 1 && running == 0
    {
      closures := closures - 1;
      if tasks == [] {
        return None;
      }
      var front := tasks[0];
      FrontMoves(scheduled, started, cancelled, tasks);
      hide Accounted;
      tasks := tasks[1..];
      running := running + 1;
      started := started + [front];
      return Some(front);
    }

    /**
      A task returns, and everyone in `wait` looks again; or it ends by an exception, which the worker swallows, and
      nobody is notified: a sleeping waiter is stranded exactly when nothing was left but this task.
     */
    method Leave(throws: bool)
      requires Valid() && running > 0
      modifies this`running, this`waiter
      ensures Valid() && running == old(running) - 1
      ensures waiter == if old(waiter) == Asleep && !throws then Noted else old(waiter)
      ensures Stranded() <==> throws && old(waiter) == Asleep && Drained()
    {
      running := running - 1;
      if !throws {
        NotifyAll();
      }
    }

    method NotifyAll()
      modifies this`waiter
      ensures waiter == if old(waiter) == Asleep then Noted else old(waiter)
    {
      if waiter == Asleep {
        waiter := Noted;
      }
    }

    /** Drops every queued task, in order, whichever tag was asked for. The closures remain. */
    method Cancel(tag: int) returns (n: nat)
      requires Valid()
      modifies this`tasks, this`cancelled, this`waiter
      ensures Valid() && tasks == [] && n == |old(tasks)| && cancelled == old(cancelled) + old(tasks)
      ensures waiter == (if old(waiter) == Asleep then Noted else old(waiter)) && !Stranded()
    {
      hide Accounted;
      n := 0;
      while tasks != []
        invariant n <= |old(tasks)| && tasks == old(tasks)[n..]
        invariant cancelled == old(cancelled) + old(tasks)[..n]
        invariant Valid()
        decreases |tasks|
        modifies this`tasks, this`cancelled
      {
        CancelFront();
        n := n + 1;
      }
      NotifyAll();
    }

    method CancelFront()
      requires Valid() && tasks != []
      modifies this`tasks, this`cancelled
      ensures Valid() && tasks == old(tasks)[1..] && cancelled == old(cancelled) + [old(tasks)[0]]
    {
      var front := tasks[0];
      FrontMoves(scheduled, started, cancelled, tasks);
      hide Accounted;
      tasks := tasks[1..];
      cancelled := cancelled + [front];
    }

    /** Entered or, by a notified waiter, resumed: goes on only when nothing is left. */
    method Wait() returns (done: bool)
      requires Valid() && waiter != Asleep
      modifies this`waiter
      ensures Valid() && done == Drained() && waiter == if done then Gone else Asleep
      ensures !Stranded()
    {
      done := Drained();
      waiter := if done then Gone else Asleep;
    }
  }

  /** A task that is cancelled and then waited for leaves a waiter asleep with nothing to wait for. */
  method CancelThenWait(arg: int, tag: int) returns (p: Pool)
    ensures p.Valid() && p.Stranded() && fresh(p)
  {
    hide Accounted;
    p := new Pool();
    p.Schedule(arg);
    var n := p.Cancel(tag);
    var done := p.Wait();
    var task := p.Enter();
  }

  /** So does a task that is waited for and ends by an exception. */
  method ThrowWhileWaiting(arg: int) returns (p: Pool)
    ensures p.Valid() && p.Stranded() && fresh(p)
  {
    hide Accounted;
    p := new Pool();
    p.Schedule(arg);
    var task := p.Enter();
    var done := p.Wait();
    p.Leave(true);
  }
}
