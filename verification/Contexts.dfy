/** A user-space context: the fields that its own steps and other contexts change. */
module Contexts {

  /** The timer that a sleeping context waits on: not in use, waiting, or about to resume the context. */
  datatype Alarm = Idle | Armed | Queued

  datatype Life = NotStarted | Started | Finished

  class Ctx {
    var life: Life
    var notes: nat
    var alarm: Alarm
    var suspendedOnce: bool
    var interrupted: bool
    var terminated: bool
    var noInterrupt: bool

    // the node with which the context takes part in one list at a time
    var prev: Ctx?
    var next: Ctx?

    // what the run so far has done to the interrupt flag, and how the context went to sleep
    ghost var raised: nat
    ghost var delivered: nat
    ghost var unseen: bool
    ghost var deaf: bool

    constructor ()
      ensures life == NotStarted && notes == 0 && alarm == Idle && !suspendedOnce
      ensures !interrupted && !terminated && !noInterrupt
      ensures prev == null && next == null
      ensures raised == 0 && delivered == 0 && !unseen && !deaf
    {
      life, notes, alarm, suspendedOnce := NotStarted, 0, Idle, false;
      interrupted, terminated, noInterrupt := false, false, false;
      prev, next := null, null;
      raised, delivered, unseen, deaf := 0, 0, false, false;
    }

    /** Flagged for interruption or termination, and not suppressing it. */
    predicate Interruption()
      reads `interrupted, `terminated, `noInterrupt
    {
      (interrupted || terminated) && !noInterrupt
    }
  }
}
