/**
  The cooperative scheduler: notes, suspension and resumption, and the interrupt and termination flags. Each
  method is one step between two points at which control can change hands; any order of steps is a run.
 */
module Scheduler {
  import opened Contexts

  /** The exception that leaves an interruption point. */
  datatype Thrown = Nothing | Interrupted | Terminated

  class Scheduler {
    var current: Ctx?
    var quitting: bool
    ghost var ctxs: set<Ctx>

    /** A started context that is not running sleeps on its timer. */
    ghost predicate Asleep(c: Ctx)
      reads this, c`life
    {
      c.life == Started && c != current
    }

    /**
      What holds of one context between any two steps. Interrupts are conserved. A sleeping context with a note
      is about to be resumed; so is one with an interrupt or termination to deliver, unless it went to sleep with
      it, which it can only have done if no interruption point saw it.
     */
    ghost predicate Sane(c: Ctx)
      reads this, c`life, c`notes, c`alarm, c`suspendedOnce, c`interrupted, c`terminated
      reads c`noInterrupt, c`raised, c`delivered, c`unseen, c`deaf
    {
      && c.raised == c.delivered + (if c.interrupted then 1 else 0)
      && (c == current ==> c.life == Started && c.notes >= 1 && c.alarm == Idle && !c.deaf)
      && (c == current && c.Interruption() ==> c.unseen)
      && (Asleep(c) ==> c.alarm != Idle && c.suspendedOnce)
      && (Asleep(c) && c.notes > 0 ==> c.alarm == Queued)
      && (Asleep(c) && c.Interruption() && !c.deaf ==> c.alarm == Queued)
      && (c.life != Started ==> c.alarm == Idle && !c.deaf)
      && (c.life == NotStarted ==> !c.suspendedOnce)
      && (c.deaf ==> c.unseen)
    }

    ghost predicate Valid()
      reads this, ctxs`life, ctxs`notes, ctxs`alarm, ctxs`suspendedOnce, ctxs`interrupted, ctxs`terminated
      reads ctxs`noInterrupt, ctxs`raised, ctxs`delivered, ctxs`unseen, ctxs`deaf
    {
      && (current != null ==> current in ctxs)
      && forall c :: c in ctxs ==> Sane(c)
    }

    /** No wakeup is lost: a sleeping context with a note is about to be resumed. */
    lemma NotedIsQueued(c: Ctx)
      requires Valid() && c in ctxs && Asleep(c) && c.notes > 0
      ensures c.alarm == Queued
    {
      assert Sane(c);
    }

    /**
      Every interrupt that was raised has been delivered or is still flagged, and a sleeping context that is
      flagged is about to be resumed, unless it fell asleep with the flag set and unseen.
     */
    lemma InterruptsAreConserved(c: Ctx)
      requires Valid() && c in ctxs
      ensures c.raised == c.delivered + if c.interrupted then 1 else 0
      ensures Asleep(c) && c.Interruption() ==> c.alarm == Queued || (c.deaf && c.unseen)
    {
      assert Sane(c);
    }

    constructor ()
      ensures Valid() && current == null && ctxs == {} && !quitting
    {
      current, quitting, ctxs := null, false, {};
    }

    method Spawn() returns (c: Ctx)
      requires Valid()
      modifies this`ctxs
      ensures Valid() && fresh(c) && ctxs == old(ctxs) + {c}
      ensures c.life == NotStarted && c.prev == null && c.next == null
      ensures !c.interrupted && !c.terminated && !c.noInterrupt
    {
      c := new Ctx();
      ctxs := ctxs + {c};
    }

    // -------------------------------------------------------------- interruption

    /** Delivers a termination, or else an interrupt, unless the context suppresses both. */
    method InterruptionPoint(c: Ctx) returns (t: Thrown)
      requires Valid() && c == current
      modifies c`interrupted, c`noInterrupt, c`delivered
      ensures Valid() && !c.Interruption()
      ensures t == if old(c.noInterrupt) then Nothing else if c.terminated then Terminated
                   else if old(c.interrupted) then Interrupted else Nothing
      ensures c.interrupted == (old(c.interrupted) && t != Interrupted)
      ensures c.noInterrupt == (old(c.noInterrupt) || t == Terminated)
      ensures c.delivered == old(c.delivered) + if t == Interrupted then 1 else 0
    {
      if !c.Interruption() {
        return Nothing;
      }
      if c.terminated {
        c.noInterrupt := true;
        return Terminated;
      }
      c.interrupted := false;
      c.delivered := c.delivered + 1;
      return Interrupted;
    }

    /** Makes a timer that is waiting fire; anything else is left alone. */
    method Wake(c: Ctx)
      modifies c`alarm
      ensures c.alarm == if old(c.alarm) == Armed then Queued else old(c.alarm)
    {
      if c.alarm == Armed {
        c.alarm := Queued;
      }
    }

    /** Flags a context for termination and, if it may hear of it, gets it out of its sleep. */
    method Terminate(c: Ctx)
      requires Valid() && c in ctxs
      modifies c`terminated, c`alarm, c`unseen
      ensures Valid() && c.terminated == (old(c.terminated) || c.life != Finished)
      ensures var raised := c.terminated && !old(c.terminated);
              c.alarm == if raised && !c.noInterrupt && c != current && old(c.alarm) == Armed then Queued
                         else old(c.alarm)
    {
      if c.life == Finished || c.terminated {
        return;
      }
      c.terminated := true;
      c.unseen := c.unseen || c == current;
      if c.noInterrupt {
        return;
      }
      if c != current && c.suspendedOnce {
        Wake(c);
      }
    }

    /**
      Flags a context for interruption and, if it may hear of it, gets it out of its sleep. A context that is
      flagged already is left as it is. While the server quits, an interrupt is a termination.
     */
    method Interrupt(c: Ctx)
      requires Valid() && c in ctxs
      modifies c`terminated, c`interrupted, c`alarm, c`raised, c`unseen
      ensures Valid()
      ensures c.interrupted == (old(c.interrupted) || (!quitting && c.life != Finished))
      ensures c.terminated == (old(c.terminated) || (quitting && c.life != Finished))
      ensures c.raised == old(c.raised) + if c.interrupted && !old(c.interrupted) then 1 else 0
      ensures var raised := (c.interrupted && !old(c.interrupted)) || (c.terminated && !old(c.terminated));
              c.alarm == if raised && !c.noInterrupt && c != current && old(c.alarm) == Armed then Queued
                         else old(c.alarm)
    {
      if quitting {
        Terminate(c);
        return;
      }
      if c.life == Finished || c.interrupted {
        return;
      }
      c.interrupted := true;
      c.raised := c.raised + 1;
      c.unseen := c.unseen || c == current;
      if c.noInterrupt {
        return;
      }
      if c != current && c.suspendedOnce {
        Wake(c);
      }
    }

    /** Ends or begins suppression without an interruption point: what is pending stays pending, unseen. */
    method SetInterruptibleNothrow(b: bool)
      requires Valid() && current != null
      modifies current`noInterrupt, current`unseen
      ensures Valid() && current.noInterrupt == !b
    {
      current.noInterrupt := !b;
      current.unseen := current.unseen || current.Interruption();
    }

    /**
      Ends or begins suppression, with an interruption point before suppression begins and after it ends. When
      suppression ends whatever is pending is delivered, a termination before an interrupt.
     */
    method SetInterruptible(b: bool) returns (t: Thrown)
      requires Valid() && current != null
      modifies current`interrupted, current`noInterrupt, current`delivered, current`unseen
      ensures Valid()
      ensures t == if b == old(!current.noInterrupt) then Nothing else if current.terminated then Terminated
                   else if old(current.interrupted) then Interrupted else Nothing
      ensures current.noInterrupt == if t == Nothing then !b else t == Terminated
      ensures current.interrupted == (old(current.interrupted) && t != Interrupted)
      ensures current.delivered == old(current.delivered) + if t == Interrupted then 1 else 0
    {
      t := Nothing;
      var theirs := !current.noInterrupt;
      if theirs && !b {
        t := InterruptionPoint(current);
        if t != Nothing {
          return;
        }
      }
      SetInterruptibleNothrow(b);
      if !theirs && b {
        t := InterruptionPoint(current);
      }
    }

    // -------------------------------------------------------------- notes, sleeping and waking

    /** Adds a note; the first one gets a sleeping context resumed. */
    method Note(c: Ctx) returns (first: bool)
      requires Valid() && c in ctxs
      modifies c`notes, c`alarm
      ensures Valid() && c.notes == old(c.notes) + 1 && first == (old(c.notes) == 0)
      ensures Asleep(c) ==> c.alarm == Queued
      ensures c.alarm == old(c.alarm) || (old(c.alarm) == Armed && c.alarm == Queued)
    {
      first := c.notes == 0;
      c.notes := c.notes + 1;
      if !first || c == current {
        return;
      }
      Wake(c);
    }

    /** The base frame: the context becomes current, awake, and hears at once of an early interrupt. */
    method Enter(c: Ctx) returns (t: Thrown)
      requires Valid() && c in ctxs && current == null && c.life == NotStarted
      modifies this`current, c`life, c`notes, c`interrupted, c`noInterrupt, c`delivered, c`unseen
      ensures Valid() && current == c && c.life == Started && c.notes == 1 && !c.Interruption()
      ensures t == if !old(c.Interruption()) then Nothing else if c.terminated then Terminated else Interrupted
      ensures c.interrupted == (old(c.interrupted) && t != Interrupted)
      ensures c.noInterrupt == (old(c.noInterrupt) || t == Terminated)
      ensures c.delivered == old(c.delivered) + if t == Interrupted then 1 else 0
    {
      current := c;
      c.life := Started;
      c.notes := 1;
      c.unseen := true;
      t := InterruptionPoint(c);
      c.unseen := false;
    }

    /** The base frame returns. */
    method Finish()
      requires Valid() && current != null
      modifies this`current, current`life, current`notes
      ensures Valid() && current == null && old(current).life == Finished
    {
      current.notes := 0;
      current.life := Finished;
      current := null;
    }

    /**
      The running context goes to sleep: its notes are cleared and its timer is armed, whether or not an interrupt
      is pending for it. It misses that interrupt if and only if one is.
     */
    method Wait()
      requires Valid() && current != null && current.notes == 1
      modifies this`current, current`notes, current`alarm, current`suspendedOnce, current`deaf
      ensures Valid() && current == null && Asleep(old(current)) && old(current).alarm == Armed
      ensures old(current).notes == 0
      ensures old(current).deaf <==> old(current.Interruption())
    {
      current.notes := 0;
      current.suspendedOnce := true;
      current.alarm := Armed;
      current.deaf := current.Interruption();
      current := null;
    }

    /** The timer runs out. */
    method Expire(c: Ctx)
      requires Valid() && c in ctxs && c.alarm == Armed
      modifies c`alarm
      ensures Valid() && c.alarm == Queued
    {
      c.alarm := Queued;
    }

    /** The context is current again, awake, and has not looked yet at what happened meanwhile. */
    method Restore(c: Ctx)
      requires Valid() && c in ctxs && current == null && c.alarm == Queued
      modifies this`current, c`notes, c`alarm, c`deaf, c`unseen
      ensures Valid() && current == c && c.notes == 1 && c.unseen
    {
      current := c;
      c.alarm := Idle;
      c.deaf := false;
      c.notes := 1;
      c.unseen := true;
    }

    /** The queued resumption runs: the context is current again, awake, and hears of what happened meanwhile. */
    method Resume(c: Ctx) returns (t: Thrown)
      requires Valid() && c in ctxs && current == null && c.alarm == Queued
      modifies this`current, c`notes, c`alarm, c`deaf, c`interrupted, c`noInterrupt, c`delivered, c`unseen
      ensures Valid() && current == c && c.notes == 1 && !c.Interruption()
      ensures t == if !old(c.Interruption()) then Nothing else if c.terminated then Terminated else Interrupted
      ensures c.interrupted == (old(c.interrupted) && t != Interrupted)
      ensures c.noInterrupt == (old(c.noInterrupt) || t == Terminated)
      ensures c.delivered == old(c.delivered) + if t == Interrupted then 1 else 0
    {
      Restore(c);
      t := InterruptionPoint(c);
      c.unseen := false;
    }
  }

  /**
    A context that is interrupted while it suppresses interruption, stops suppressing it without an interruption
    point and then goes to sleep misses the interrupt, and interrupting it again does not wake it.
   */
  method SleepsThroughInterrupts() returns (s: Scheduler, c: Ctx)
    ensures fresh(s) && s.Valid() && c in s.ctxs && s.Asleep(c) && c.Interruption() && c.alarm == Armed
  {
    hide Scheduler.Sane;
    s := new Scheduler();
    c := s.Spawn();
    var t := s.Enter(c);
    s.SetInterruptibleNothrow(false);
    s.Interrupt(c);
    s.SetInterruptibleNothrow(true);
    s.Wait();
    s.Interrupt(c);
  }
}
