/**
  The dock: the queue of contexts that wait for a notification. A waiter joins at the back, may be woken any
  number of times before it leaves, and passes a notification on if it leaves by an exception.
 */
module Dock {
  import opened Contexts
  import CtxList
  import opened Seqs
  import S = Scheduler

  // ---------------------------------------------------------------- fairness, on sequences

  /** What one notify() does to the order of the waiters. */
  ghost function Rotate<T>(q: seq<T>): (r: seq<T>)
    ensures |r| == |q|
  {
    if q == [] then [] else q[1..] + [q[0]]
  }

  /** The order after n calls. */
  ghost function Rotated<T>(q: seq<T>, n: nat): (r: seq<T>)
    ensures |r| == |q|
  {
    if n == 0 then q else Rotate(Rotated(q, n - 1))
  }

  /** The waiters that n calls notify, in order: each call notifies the one at the front. */
  ghost function Notified<T>(q: seq<T>, n: nat): (r: seq<T>)
    requires q != []
    ensures |r| == n
  {
    if n == 0 then [] else Notified(q, n - 1) + [Rotated(q, n - 1)[0]]
  }

  lemma {:induction false} RotatedIs<T>(q: seq<T>, n: nat)
    requires n <= |q|
    ensures Rotated(q, n) == q[n..] + q[..n]
  {
    if n > 0 {
      RotatedIs(q, n - 1);
      assert q[n - 1..] == [q[n - 1]] + q[n..];
      assert q[..n] == q[..n - 1] + [q[n - 1]];
    }
  }

  lemma {:induction false} NotifiedIs<T>(q: seq<T>, n: nat)
    requires q != [] && n <= |q|
    ensures Notified(q, n) == q[..n]
  {
    if n > 0 {
      RotatedIs(q, n - 1);
      NotifiedIs(q, n - 1);
    }
  }

  /** As many calls as there are waiters notify each of them once, in their order, and restore that order. */
  lemma NotifyIsFair<T>(q: seq<T>)
    requires q != []
    ensures Notified(q, |q|) == q && Rotated(q, |q|) == q
  {
    RotatedIs(q, |q|);
    NotifiedIs(q, |q|);
  }

  // ---------------------------------------------------------------- hand-off, over runs

  /** The waiters, in order, and which of them are awake or about to be: those with a note. */
  datatype View<!C> = View(q: seq<C>, noted: set<C>)

  datatype Event<C> =
    | Arrive(c: C) | NotifyFront | NotifyFrontToBack | Noted(c: C) | Recheck(c: C) | Leave(c: C, byException: bool)

  ghost function Front<C>(q: seq<C>): set<C> {
    if q == [] then {} else {q[0]}
  }

  ghost function Step<C>(v: View<C>, e: Event<C>): View<C> {
    match e
    case Arrive(c) => View(v.q + [c], v.noted)
    case NotifyFront => View(v.q, v.noted + Front(v.q))
    case NotifyFrontToBack => View(Rotate(v.q), v.noted + Front(v.q))
    case Noted(c) => View(v.q, v.noted + {c})
    case Recheck(c) => View(v.q, v.noted - {c})
    case Leave(c, exceptional) =>
      var q := Filter(v.q, c);
      View(q, v.noted - {c} + if exceptional then Front(q) else {})
  }

  ghost function Run<C>(v: View<C>, es: seq<Event<C>>): View<C> {
    if es == [] then v else Step(Run(v, es[..|es| - 1]), es[|es| - 1])
  }

  /** Somebody is on the way to the notification, or nobody waits. */
  ghost predicate Handed<C>(v: View<C>) {
    v.q == [] || exists c :: c in v.q && c in v.noted
  }

  /** A waiter has come to the notification: it left satisfied, or looked and went back to sleep. */
  predicate Consumes<C>(e: Event<C>) {
    e.Recheck? || (e.Leave? && !e.byException)
  }

  lemma StepHands<C>(v: View<C>, e: Event<C>)
    requires Handed(v) && !Consumes(e) && (e.Arrive? ==> v.q != [])
    ensures Handed(Step(v, e))
  {
    if v.q != [] {
      var w :| w in v.q && w in v.noted;
      if e.NotifyFrontToBack? {
        assert v.q[0] in Step(v, e).q;
      } else if e.Leave? {
        FilterMembers(v.q, e.c);
        if Step(v, e).q != [] {
          assert Step(v, e).q[0] in Step(v, e).q;
        }
      } else {
        assert w in Step(v, e).q && w in Step(v, e).noted;
      }
    }
  }

  /**
    A notification given to a non-empty dock is not lost to exceptions: however many waiters leave by one, until
    some waiter comes to it, or nobody waits any more, a waiter with a note is left.
   */
  lemma {:induction false} NotificationSurvives<C>(v: View<C>, es: seq<Event<C>>)
    requires v.q != []
    requires forall i :: 0 <= i < |es| ==> !Consumes(es[i])
    ensures var u := Step(v, NotifyFront);
            Handed(Run(u, es)) || exists i :: 0 <= i < |es| && Run(u, es[..i]).q == []
  {
    var u := Step(v, NotifyFront);
    assert u.q[0] in u.q && u.q[0] in u.noted;
    if es != [] {
      var n := |es| - 1;
      NotificationSurvives(v, es[..n]);
      if Handed(Run(u, es[..n])) && Run(u, es[..n]).q != [] {
        StepHands(Run(u, es[..n]), es[n]);
      } else if Run(u, es[..n]).q != [] {
        var i :| 0 <= i < n && Run(u, es[..n][..i]).q == [];
        assert es[..n][..i] == es[..i];
      }
    }
  }

  // ---------------------------------------------------------------- the dock object

  class Dock {
    const q: CtxList.List

    /** The waiters, in order: started contexts, asleep or just resumed. */
    ghost predicate Valid(s: S.Scheduler)
      reads this, q, q.elems`prev, q.elems`next, q.elems`life, s
    {
      && q.Valid()
      && forall c :: c in q.elems ==> c in s.ctxs && c.life == Started
    }

    /** The dock as the value that the runs above are about. */
    ghost function Waiters(): View<Ctx>
      reads this, q, q.elems`notes
    {
      View(q.elems, set c | c in q.elems && c.notes > 0)
    }

    constructor ()
      ensures q.Valid() && q.elems == [] && fresh(q)
    {
      q := new CtxList.List();
    }

    /** Wakes the waiter at the front, and moves it to the back first. */
    method Notify(s: S.Scheduler)
      requires s.Valid() && Valid(s)
      modifies q, q.elems`prev, q.elems`next, q.elems`notes, q.elems`alarm
      ensures s.Valid() && Valid(s) && q.elems == Rotate(old(q.elems))
      ensures Waiters() == Step(old(Waiters()), NotifyFrontToBack)
      ensures old(q.elems) != [] ==> var c := old(q.elems)[0];
                c.notes == old(c.notes) + 1 && (s.Asleep(c) ==> c.alarm == Queued)
      ensures forall c :: c in q.elems && c != old(q.elems)[0] ==> c.notes == old(c.notes) && c.alarm == old(c.alarm)
    {
      hide S.Scheduler.Sane;
      hide CtxList.List.Valid;
      var c := Turn(s);
      if c != null {
        var _ := s.Note(c);
      }
    }

    /** The waiter at the front goes to the back. */
    method Turn(s: S.Scheduler) returns (c: Ctx?)
      requires s.Valid() && Valid(s)
      modifies q, q.elems`prev, q.elems`next
      ensures s.Valid() && Valid(s) && q.elems == Rotate(old(q.elems))
      ensures Waiters().noted == old(Waiters().noted)
      ensures if old(q.elems) == [] then c == null else c == old(q.elems)[0]
    {
      hide S.Scheduler.Sane;
      hide S.Scheduler.Valid;
      hide CtxList.List.Valid;
      c := FrontToBack();
      assert forall x :: x in q.elems <==> x in old(q.elems);
    }

    method FrontToBack() returns (c: Ctx?)
      requires q.Valid()
      modifies q, q.elems`prev, q.elems`next
      ensures q.Valid() && q.elems == Rotate(old(q.elems))
      ensures if old(q.elems) == [] then c == null else c == old(q.elems)[0]
    {
      assert q.elems != [] ==> q.elems[0] !in q.elems[1..];
      hide CtxList.List.Valid;
      c := q.PopFront();
      if c != null {
        q.PushBack(c);
      }
    }

    /** Wakes the waiter at the front, where it stays. */
    method NotifyOne(s: S.Scheduler)
      requires s.Valid() && Valid(s)
      modifies q.elems`notes, q.elems`alarm
      ensures s.Valid() && Valid(s) && q.elems == old(q.elems)
      ensures Waiters() == Step(old(Waiters()), NotifyFront)
      ensures q.elems != [] ==> var c := q.elems[0];
                c.notes == old(c.notes) + 1 && (s.Asleep(c) ==> c.alarm == Queued)
      ensures forall c :: c in q.elems && c != q.elems[0] ==> c.notes == old(c.notes) && c.alarm == old(c.alarm)
    {
      if q.IsEmpty() {
        return;
      }
      var _ := s.Note(q.head);
    }

    /** Wakes every waiter. */
    method NotifyAll(s: S.Scheduler)
      requires s.Valid() && Valid(s)
      modifies q.elems`notes, q.elems`alarm
      ensures s.Valid() && Valid(s) && q.elems == old(q.elems)
      ensures forall c :: c in q.elems ==> c.notes == old(c.notes) + 1 && (s.Asleep(c) ==> c.alarm == Queued)
    {
      hide S.Scheduler.Sane;
      hide CtxList.List.Valid;
      NoteEach(s);
      forall c | c in q.elems && s.Asleep(c) ensures c.alarm == Queued {
        s.NotedIsQueued(c);
      }
    }

    method NoteAt(s: S.Scheduler, c: Ctx, ghost n: nat)
      requires s.Valid() && Valid(s) && n < |q.elems| && q.elems[n] == c
      modifies c`notes, c`alarm
      ensures s.Valid() && Valid(s) && q.Valid() && c.notes == old(c.notes) + 1
    {
      assert c in q.elems;
      hide S.Scheduler.Sane;
      hide CtxList.List.Valid;
      var _ := s.Note(c);
    }

    method NoteEach(s: S.Scheduler)
      requires s.Valid() && Valid(s)
      modifies q.elems`notes, q.elems`alarm
      ensures s.Valid() && Valid(s) && q.elems == old(q.elems)
      ensures forall c :: c in q.elems ==> c.notes == old(c.notes) + 1
    {
      assert q.head == if q.elems != [] then q.elems[0] else null;
      assert Distinct(q.elems) && q.Valid() && forall c :: c in q.elems ==> c in s.ctxs;
      hide S.Scheduler.Sane;
      hide CtxList.List.Valid;
      hide Dock.Valid;
      hide S.Scheduler.Valid;
      ghost var all := q.elems;
      var cur := q.head;
      ghost var n := 0;
      while cur != null
        invariant s.Valid() && Valid(s) && q.Valid() && n <= |all|
        invariant cur == if n < |all| then all[n] else null
        invariant forall i :: 0 <= i < n ==> all[i].notes == old(all[i].notes) + 1
        invariant forall i :: n <= i < |all| ==> all[i].notes == old(all[i].notes)
        decreases |all| - n
      {
        NoteAt(s, cur, n);
        q.NextIs(n);
        cur := cur.next;
        n := n + 1;
      }
    }

    /** The running context joins at the back and goes to sleep. */
    method WaitBegin(s: S.Scheduler)
      requires s.Valid() && Valid(s) && s.current != null && s.current.notes == 1
      requires s.current !in q.elems && s.current.prev == null && s.current.next == null
      modifies q, q.elems`next, s`current
      modifies s.current`prev, s.current`next, s.current`notes, s.current`alarm, s.current`suspendedOnce, s.current`deaf
      ensures s.Valid() && Valid(s) && s.current == null && q.elems == old(q.elems) + [old(s.current)]
      ensures old(s.current).alarm == Armed && old(s.current).notes == 0
      ensures Waiters() == Step(old(Waiters()), Arrive(old(s.current)))
    {
      q.PushBack(s.current);
      s.Wait();
    }

    /** The predicate does not hold yet: the waiter keeps its place and goes back to sleep. */
    method WaitAgain(s: S.Scheduler)
      requires s.Valid() && Valid(s) && s.current != null && s.current.notes == 1 && s.current in q.elems
      modifies s`current, s.current`notes, s.current`alarm, s.current`suspendedOnce, s.current`deaf
      ensures s.Valid() && Valid(s) && s.current == null && q.elems == old(q.elems)
      ensures old(s.current).alarm == Armed && old(s.current).notes == 0
      ensures Waiters() == Step(old(Waiters()), Recheck(old(s.current)))
    {
      s.Wait();
    }

    method Depart(s: S.Scheduler, c: Ctx, ghost k: nat)
      requires s.Valid() && Valid(s) && k < |q.elems| && q.elems[k] == c
      modifies q, q.elems`prev, q.elems`next
      ensures s.Valid() && Valid(s) && q.elems == old(q.elems)[..k] + old(q.elems)[k + 1..]
      ensures c.prev == null && c.next == null && c !in q.elems
      ensures Waiters() == Step(old(Waiters()), Leave(c, false))
    {
      FilterDropsOne(q.elems, c, k);
      FilterMembers(q.elems, c);
      hide S.Scheduler.Sane;
      hide CtxList.List.Valid;
      hide Filter;
      q.Remove(c, k);
    }

    /**
      The waiter leaves. By an exception it first leaves the queue and then notifies the waiter that is now at
      the front, whose resumption is queued from then on.
     */
    method WaitEnd(s: S.Scheduler, byException: bool, ghost k: nat)
      requires s.Valid() && Valid(s) && s.current != null && k < |q.elems| && q.elems[k] == s.current
      modifies q, q.elems`prev, q.elems`next, q.elems`notes, q.elems`alarm
      ensures s.Valid() && Valid(s) && q.elems == old(q.elems)[..k] + old(q.elems)[k + 1..]
      ensures s.current.prev == null && s.current.next == null
      ensures Waiters() == Step(old(Waiters()), Leave(s.current, byException))
      ensures byException && q.elems != [] ==>
                var f := q.elems[0]; f.alarm == Queued && f.notes == old(f.notes) + 1
    {
      hide S.Scheduler.Sane;
      hide CtxList.List.Valid;
      hide Filter;
      Depart(s, s.current, k);
      if byException {
        NotifyOne(s);
      }
    }
  }
}
