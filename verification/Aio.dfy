/**
  The asynchronous I/O engine: a bounded user-space queue whose submission to the kernel is put off to a posted
  chaser, the requests in flight, and the three ways in which a request completes: an error dequeued before the
  kernel took it, a cancellation, and an event from the kernel.
 */
module Aio {
  import opened Options
  import opened Seqs

  const ECANCELED: int := 125
  const EBADF: int := 9
  const EINVAL: int := 22

  // ---------------------------------------------------------------- the places a request can be in

  /** The requests of a stretch of the queue. */
  ghost function Requests(s: seq<Request?>): set<Request> {
    Members(s) - {null}
  }

  /** They have completed with this error. */
  ghost predicate FailedWith(s: seq<Request?>, ec: int)
    reads Requests(s)
  {
    forall r: Request :: r in s ==> r.retval == -1 && r.errcode == ec
  }

  lemma RequestsNext(q: seq<Request?>, k: nat)
    requires k < |q| && null !in q
    ensures Requests(q[..k + 1]) == Requests(q[..k]) + {q[k]}
  {
    assert q[..k + 1] == q[..k] + [q[k]];
  }

  lemma RequestsSplit(q: seq<Request?>, k: nat)
    requires k <= |q|
    ensures Requests(q) == Requests(q[..k]) + Requests(q[k..])
  {
    assert q == q[..k] + q[k..];
  }

  // ---------------------------------------------------------------- requests

  class Request {
    const nodelay: bool
    var retval: int
    var errcode: int
    ghost var handled: nat

    constructor (nodelay: bool)
      ensures Waiting() && this.nodelay == nodelay
    {
      this.nodelay := nodelay;
      retval := -2;
      errcode := 0;
      handled := 0;
    }

    predicate Completed()
      reads this
    {
      retval >= -1
    }

    /** Not completed, and no event has been applied to it. */
    ghost predicate Waiting()
      reads this
    {
      retval == -2 && handled == 0
    }

    /** Completed, by exactly one event. */
    ghost predicate Settled()
      reads this
    {
      Completed() && handled == 1
    }

    /**
      Applies one event. It always completes the request. A kernel error comes as a negative res with a zero
      res2; its number survives unless it is 1, which is taken for one of the engine's own events.
     */
    method HandleEvent(res: int, res2: int)
      modifies this
      ensures Completed() && handled == old(handled) + 1
      ensures res >= 0 ==> retval == res && errcode == res2
      ensures res == -1 ==> retval == -1 && errcode == res2
      ensures res < -1 ==> retval == -1 && errcode == -res
      ensures res < 0 && res2 == 0 ==> retval == -1 && (errcode == -res <==> res != -1)
    {
      retval := if res > -1 then res else -1;
      errcode := if res >= -1 then res2 else -res;
      handled := handled + 1;
    }
  }

  /** Every request is in exactly one of the queue, the kernel and the completed ones. */
  ghost predicate Places(q: seq<Request?>, kernel: set<Request>, done: set<Request>, all: set<Request>) {
    && Distinct(q) && null !in q
    && (forall r: Request :: r in q ==> r in all && r !in kernel && r !in done)
    && kernel !! done && kernel <= all && done <= all
    && (forall r :: r in all ==> r in q || r in kernel || r in done)
  }

  lemma EnqueuePlaces(q: seq<Request?>, kernel: set<Request>, done: set<Request>, all: set<Request>, r: Request)
    requires Places(q, kernel, done, all) && r !in all
    ensures Places(q + [r], kernel, done, all + {r})
  {
    assert r !in q;
    assert forall x: Request :: x in q + [r] <==> x in q || x == r;
  }

  lemma DequeuePlaces(q: seq<Request?>, kernel: set<Request>, done: set<Request>, all: set<Request>, k: nat)
    requires Places(q, kernel, done, all) && k < |q|
    ensures q[k] != null && q[k] in all && q[k] !in done
    ensures Places(q[..k] + q[k + 1..], kernel, done + {q[k]}, all)
  {
    assert q[k] in q;
    WithoutDistinct(q, k);
  }

  /**
    The kernel takes the first k requests; the queue then drops its count by k but does not move what is left
    to the front. That loses track of requests exactly when the kernel takes only part of the batch.
   */
  lemma {:induction false} AcceptPlaces(q: seq<Request?>, kernel: set<Request>, done: set<Request>,
                                        all: set<Request>, k: nat)
    requires Places(q, kernel, done, all) && 0 < k <= |q|
    ensures Places(q[..|q| - k], kernel + Requests(q[..k]), done, all) <==> k == |q|
    ensures |kernel + Requests(q[..k])| == |kernel| + k
  {
    RequestsOf(q, kernel, done, all, k);
    if k < |q| {
      assert q[0] in q[..|q| - k] && q[0] in q[..k];
      assert q[0] in q;
    } else {
      assert q[..k] == q;
    }
  }

  lemma RequestsOf(q: seq<Request?>, kernel: set<Request>, done: set<Request>, all: set<Request>, k: nat)
    requires Places(q, kernel, done, all) && k <= |q|
    ensures Requests(q[..k]) !! kernel && |Requests(q[..k])| == k && |kernel + Requests(q[..k])| == |kernel| + k
    ensures forall r: Request :: r in q[..k] <==> r in Requests(q[..k])
  {
    CountMembers(q[..k]);
    assert Requests(q[..k]) == Members(q[..k]);
  }

  lemma FinishPlaces(q: seq<Request?>, kernel: set<Request>, done: set<Request>, all: set<Request>, rs: seq<Request>)
    requires Places(q, kernel, done, all) && Distinct(rs) && Members(rs) <= kernel
    ensures Places(q, kernel - Members(rs), done + Members(rs), all)
    ensures |kernel - Members(rs)| == |kernel| - |rs| && Members(rs) !! done && Members(rs) <= all
  {
    CountMembers(rs);
  }

  /** Taking one request out of the queue, or finding that it is not there. */
  lemma FilterQueue(q: seq<Request?>, kernel: set<Request>, done: set<Request>, all: set<Request>, r: Request)
    requires Places(q, kernel, done, all) && r in all && r !in done
    ensures r in q ==> |Filter(q, r)| == |q| - 1 && Places(Filter(q, r), kernel, done + {r}, all)
    ensures r !in q ==> Filter(q, r) == q && r in kernel && Places(q, kernel - {r}, done + {r}, all)
  {
    if r in q {
      var k :| 0 <= k < |q| && q[k] == r;
      FilterDropsOne(q, r as Request?, k);
      DequeuePlaces(q, kernel, done, all, k);
      WithoutDistinct(q, k);
    } else {
      FilterAbsent(q, r);
    }
  }

  datatype Answer = Taken(n: nat) | BadFd | Invalid

  datatype Signal = Interrupted | Canceled | Unforeseen

  datatype Waited = Done | Thrown | Again

  // ---------------------------------------------------------------- the system

  class System {
    const maxEvents: nat
    const coalesce: bool
    const queue: array<Request?>
    var qcount: nat
    var inFlight: nat
    var handleSet: bool
    var shut: bool
    var chasers: nat
    var curQueued: nat
    var curSubmits: nat

    ghost var all: set<Request>
    ghost var kernel: set<Request>
    ghost var done: set<Request>

    /** What the kernel has answered to each io_submit so far. */
    ghost var answers: seq<Answer>

    constructor (maxEvents: nat, maxSubmit: nat, coalesce: bool)
      requires maxEvents > 0
      ensures Valid() && all == {} && fresh(queue)
      ensures this.maxEvents == maxEvents && queue.Length == if maxSubmit > 0 then maxSubmit else maxEvents
    {
      this.maxEvents := maxEvents;
      this.coalesce := coalesce;
      queue := new Request?[if maxSubmit > 0 then maxSubmit else maxEvents](_ => null);
      qcount, inFlight, handleSet, shut, chasers := 0, 0, false, false, 0;
      curQueued, curSubmits := 0, 0;
      all, kernel, done, answers := {}, {}, {}, [];
    }

    /** The requests waiting in user space, oldest first. */
    ghost function Queued(): seq<Request?>
      reads this`qcount, queue
      requires qcount <= queue.Length
    {
      queue[..qcount]
    }

    /** One event has been applied to each completed request, and none to any other. */
    static ghost predicate Treated(all: set<Request>, done: set<Request>)
      reads all
    {
      forall r :: r in all ==> if r in done then r.Settled() else r.Waiting()
    }

    /** Every request is in exactly one place, and what has been done to it agrees with the place. */
    ghost predicate Sorted()
      reads this`qcount, this`inFlight, this`curQueued, this`curSubmits, this`all, this`kernel, this`done, queue, all
    {
      && qcount <= queue.Length
      && Places(Queued(), kernel, done, all)
      && Treated(all, done)
      && |kernel| == inFlight
      && curQueued == qcount && curSubmits == inFlight
    }

    /** What holds whenever control is outside the engine. */
    ghost predicate Valid()
      reads this, queue, all
    {
      && Sorted()
      && 0 < maxEvents && qcount < queue.Length && qcount + inFlight <= maxEvents
      && (qcount > 0 ==> chasers > 0)
      && (inFlight > 0 && !shut ==> handleSet)
    }

    /** Takes the oldest request off the queue and completes it with an error. */
    method DequeueOne(ec: int)
      requires Sorted() && qcount > 0
      modifies this`qcount, this`curQueued, this`done, queue, all
      ensures Sorted() && Queued() == old(Queued())[1..]
      ensures done == old(done) + {old(Queued())[0]} && qcount == old(qcount) - 1
      ensures old(Queued())[0].retval == -1 && old(Queued())[0].errcode == ec
      ensures Undisturbed(old(done))
    {
      DequeuePlaces(Queued(), kernel, done, all, 0);
      ghost var q := Queued();
      assert q[..0] + q[1..] == q[1..];
      hide Places;
      hide System.Treated;
      var cb := RotateQueue();
      Withdraw(cb, qcount - 1, ec);
    }

    /** Moves the first element of the queue's storage behind all others. */
    method RotateQueue() returns (cb: Request?)
      requires 0 < qcount <= queue.Length
      modifies queue
      ensures cb == old(Queued())[0] && queue[..qcount - 1] == old(Queued())[1..]
    {
      cb := queue[0];
      forall i | 0 <= i < queue.Length {
        queue[i] := if i + 1 < queue.Length then queue[i + 1] else cb;
      }
    }

    /** Requests completed earlier keep their results. */
    static twostate predicate Undisturbed(rs: set<Request>)
      reads rs
    {
      forall r :: r in rs ==> r.retval == old(r.retval) && r.errcode == old(r.errcode)
    }

    /** Does so until the queue is empty. */
    method DequeueAll(ec: int)
      requires Sorted()
      modifies this`qcount, this`curQueued, this`done, queue, all
      ensures Sorted() && qcount == 0 && Undisturbed(old(done))
      ensures done == old(done) + Requests(old(Queued())) && FailedWith(old(Queued()), ec)
    {
      ghost var q, was, k := Queued(), done, 0;
      assert null !in q && q[..0] == [] && q[..|q|] == q;
      hide Places;
      hide System.Treated;
      while qcount > 0
        invariant Sorted() && Undisturbed(old(done)) && was <= done
        invariant k + qcount == |q| && Queued() == q[k..] && Dropped(q, k, was, done, ec)
      {
        DequeueNext(q, k, was, ec);
        k := k + 1;
      }
    }

    /** The first k requests of what the queue was have failed with this error. */
    static ghost predicate Dropped(q: seq<Request?>, k: nat, was: set<Request>, done: set<Request>, ec: int)
      reads Requests(q)
    {
      k <= |q| && done == was + Requests(q[..k]) && FailedWith(q[..k], ec)
    }

    /** Takes request number k of what the queue was. */
    method DequeueNext(ghost q: seq<Request?>, ghost k: nat, ghost was: set<Request>, ec: int)
      requires Sorted() && qcount > 0 && null !in q && k + qcount == |q| && Queued() == q[k..]
      requires Dropped(q, k, was, done, ec)
      modifies this`qcount, this`curQueued, this`done, queue, all
      ensures Sorted() && qcount == old(qcount) - 1 && Queued() == q[k + 1..]
      ensures Dropped(q, k + 1, was, done, ec) && Undisturbed(old(done)) && old(done) <= done
    {
      RequestsNext(q, k);
      hide Places;
      hide Requests;
      hide System.Treated;
      DequeueOne(ec);
      assert q[..k + 1] == q[..k] + [q[k]];
    }

    /** The kernel's answer to one io_submit of the queue: it takes one request or more, or refuses. */
    method KernelSubmit() returns (answer: Answer)
      requires qcount > 0
      modifies this`answers
      ensures answers == old(answers) + [answer]
      ensures answer.Taken? ==> 0 < answer.n <= qcount
    {
      answer := *;
      if answer.Taken? && !(0 < answer.n <= qcount) {
        answer := Taken(qcount);
      }
      answers := answers + [answer];
    }

    /**
      One io_submit of the whole queue. A refusal completes the first request alone, if the file descriptor is bad,
      or every request, if an argument is invalid; what the kernel has taken stays in the queue for now.
     */
    method IoSubmit() returns (submitted: nat, answer: Answer)
      requires Sorted() && qcount > 0
      modifies this`qcount, this`curQueued, this`done, this`answers, queue, all
      ensures Sorted() && Undisturbed(old(done)) && answers == old(answers) + [answer]
      ensures answer.Taken? ==> submitted == answer.n && 0 < submitted <= qcount
      ensures answer.Taken? ==> Queued() == old(Queued()) && done == old(done)
      ensures !answer.Taken? ==> submitted == 0
      ensures answer.BadFd? ==> qcount == old(qcount) - 1 && Queued() == old(Queued())[1..]
      ensures answer.BadFd? ==> done == old(done) + {old(Queued())[0]}
      ensures answer.BadFd? ==> old(Queued())[0].retval == -1 && old(Queued())[0].errcode == EBADF
      ensures answer.Invalid? ==> qcount == 0 && done == old(done) + Requests(old(Queued()))
      ensures answer.Invalid? ==> FailedWith(old(Queued()), EINVAL)
    {
      answer := KernelSubmit();
      match answer
      case Taken(n) =>
        submitted := n;
      case BadFd =>
        DequeueOne(EBADF);
        submitted := 0;
      case Invalid =>
        DequeueAll(EINVAL);
        submitted := 0;
    }

    /**
      Tries again after every refusal; each one shrinks the queue. The first `bad` requests go because of bad file
      descriptors, one by one. Then there are none left, or the kernel calls the others invalid, or it takes some.
     */
    method Offer() returns (submitted: nat, ghost bad: nat, ghost last: Answer)
      requires Sorted() && qcount > 0
      modifies this`qcount, this`curQueued, this`done, this`answers, queue, all
      ensures Sorted() && qcount <= old(qcount) && Undisturbed(old(done)) && answers == old(answers) + Round(bad, last)
      ensures bad <= old(qcount) && (last.BadFd? <==> bad == old(qcount))
      ensures !last.Taken? ==> submitted == qcount == 0
      ensures last.Taken? ==> bad + qcount == old(qcount) && 0 < submitted == last.n <= qcount
      ensures Queued() == old(Queued())[old(qcount) - qcount..]
      ensures Refused(old(Queued()), bad, last, old(done), done)
    {
      ghost var q, was := Queued(), done;
      assert null !in q && q[..0] == [];
      hide Places;
      hide System.Treated;
      bad, last, submitted := 0, BadFd, 0;
      while qcount > 0 && submitted == 0
        invariant Sorted() && Undisturbed(old(done)) && answers == old(answers) + Round(bad, last)
        invariant Refused(q, bad, last, was, done)
        invariant if last.Invalid? then bad < |q| && qcount == 0 else bad + qcount == |q|
        invariant submitted == (if last.Taken? then last.n else 0) <= qcount && (last.Taken? ==> submitted > 0)
        invariant Queued() == q[|q| - qcount..]
        decreases qcount, submitted == 0
      {
        submitted, last := OfferOnce(q, bad, was);
        if last.BadFd? {
          bad := bad + 1;
        }
      }
    }

    /** One try, after the first requests of what the queue was have been refused. */
    method OfferOnce(ghost q: seq<Request?>, ghost bad: nat, ghost was: set<Request>)
        returns (submitted: nat, answer: Answer)
      requires Sorted() && qcount > 0 && null !in q && bad + qcount == |q| && Queued() == q[bad..]
      requires Dropped(q, bad, was, done, EBADF)
      modifies this`qcount, this`curQueued, this`done, this`answers, queue, all
      ensures Sorted() && Undisturbed(old(done)) && old(done) <= done && answers == old(answers) + [answer]
      ensures submitted == (if answer.Taken? then answer.n else 0) <= qcount && (answer.Taken? ==> submitted > 0)
      ensures qcount == if answer.Taken? then old(qcount) else if answer.BadFd? then old(qcount) - 1 else 0
      ensures Queued() == q[|q| - qcount..]
      ensures Refused(q, if answer.BadFd? then bad + 1 else bad, answer, was, done)
    {
      assert forall r: Request :: r in q[..bad] ==> r in Requests(q[..bad]);
      assert q[bad..][1..] == q[bad + 1..] && q[|q|..] == [];
      hide Places;
      hide Requests;
      hide System.Treated;
      hide System.Refused;
      submitted, answer := IoSubmit();
      assert FailedWith(q[..bad], EBADF);
      RefusedNext(q, bad, answer, was, old(done), done);
    }

    static lemma RefusedNext(q: seq<Request?>, bad: nat, answer: Answer, was: set<Request>, before: set<Request>,
                             done: set<Request>)
      requires null !in q && bad < |q| && before == was + Requests(q[..bad]) && FailedWith(q[..bad], EBADF)
      requires answer.BadFd? ==> done == before + {q[bad]} && q[bad].retval == -1 && q[bad].errcode == EBADF
      requires answer.Invalid? ==> done == before + Requests(q[bad..]) && FailedWith(q[bad..], EINVAL)
      requires answer.Taken? ==> done == before
      ensures Refused(q, if answer.BadFd? then bad + 1 else bad, answer, was, done)
    {
      RequestsNext(q, bad);
      RequestsSplit(q, bad);
      assert q[..bad + 1] == q[..bad] + [q[bad]];
    }

    /** What refusals have done to a queue: those up to bad had a bad descriptor; all others go if one is invalid. */
    static ghost predicate Refused(q: seq<Request?>, bad: nat, last: Answer, was: set<Request>, done: set<Request>)
      reads Requests(q)
    {
      && bad <= |q| && done == was + Requests(if last.Invalid? then q else q[..bad])
      && FailedWith(q[..bad], EBADF)
      && (last.Invalid? ==> FailedWith(q[bad..], EINVAL))
    }

    static lemma NothingRefused(was: set<Request>)
      ensures Refused([], 0, BadFd, was, was) && Round(0, BadFd) == [] && Accepted([], 0, BadFd) == {}
    {
    }

    /** What the kernel has got of it, when it has taken all that was left. */
    static ghost function Accepted(q: seq<Request?>, bad: nat, last: Answer): set<Request> {
      if last.Taken? && bad <= |q| then Requests(q[bad..]) else {}
    }

    /** So many refusals of a first request, and the answer that ended it, unless that is the last of those. */
    static ghost function Round(bad: nat, last: Answer): (r: seq<Answer>)
      ensures |r| == bad + if last.BadFd? then 0 else 1
      ensures forall i :: 0 <= i < |r| ==> r[i] == if i < bad then BadFd else last
    {
      seq(bad, _ => BadFd) + if last.BadFd? then [] else [last]
    }

    /**
      The kernel has taken this many requests from the front; the queue only lowers its count. If nothing was in
      flight before, the notification is armed.
     */
    method Commit(n: nat, idle: bool)
      requires Sorted() && 0 < n <= qcount <= queue.Length
      modifies this`qcount, this`curQueued, this`inFlight, this`curSubmits, this`kernel, this`handleSet, this`shut
      ensures Sorted() <==> n == old(qcount)
      ensures qcount == old(qcount) - n && inFlight == old(inFlight) + n
      ensures kernel == old(kernel) + Requests(old(Queued())[..n])
      ensures handleSet == (old(handleSet) || idle) && shut == (old(shut) && !(idle && !old(handleSet)))
    {
      hide Places;
      hide System.Treated;
      hide Requests;
      ghost var q := Queued();
      AcceptPlaces(q, kernel, done, all, n);
      kernel := kernel + Requests(q[..n]);
      inFlight := inFlight + n;
      qcount := qcount - n;
      curQueued := curQueued - n;
      curSubmits := curSubmits + n;
      if idle && !handleSet {
        SetHandle();
      }
      assert Queued() == q[..|q| - n];
    }

    /**
      Submits the queue. Nothing is lost or doubled if and only if the kernel took the whole of what was left
      after the refusals. All those requests are then in the kernel, and the others have failed.
     */
    method Flush() returns (ghost whole: bool, ghost bad: nat, ghost last: Answer)
      requires Sorted() && 0 < qcount <= queue.Length
      requires inFlight > 0 && !shut ==> handleSet
      modifies this`qcount, this`curQueued, this`done, this`inFlight, this`curSubmits, this`handleSet
      modifies this`shut, this`kernel, this`answers, queue, all
      ensures bad <= old(qcount) && (last.BadFd? <==> bad == old(qcount))
      ensures (whole <==> Sorted()) && (whole <==> (last.Taken? ==> last.n == old(qcount) - bad))
      ensures answers == old(answers) + Round(bad, last) && Undisturbed(old(done))
      ensures whole ==> qcount == 0 && kernel == old(kernel) + Accepted(old(Queued()), bad, last)
      ensures Refused(old(Queued()), bad, last, old(done), done)
      ensures handleSet == (old(handleSet) || (old(inFlight) == 0 && last.Taken?))
      ensures shut == (old(shut) && (old(inFlight) > 0 || !last.Taken? || old(handleSet)))
      ensures whole ==> (inFlight > 0 && !shut ==> handleSet) && inFlight <= old(inFlight) + old(qcount)
    {
      hide Places;
      hide System.Treated;
      hide System.Round;
      hide System.Sorted;
      hide FailedWith;
      hide Requests;
      var idle := inFlight == 0;
      ghost var q := Queued();
      var submitted;
      submitted, bad, last := Offer();
      whole := submitted == qcount;
      if submitted > 0 {
        assert whole ==> Queued()[..submitted] == q[bad..];
        Commit(submitted, idle);
      }
    }

    /**
      Queues a request. It goes to the kernel at once, with all that is queued, if coalescing is off, if it asks for
      that, or if the queue is full with it; otherwise it is left to the chaser, which the first one posts.
     */
    method Submit(r: Request) returns (ghost whole: bool, ghost bad: nat, ghost last: Answer)
      requires Valid() && r !in all && r.Waiting() && qcount + inFlight < maxEvents
      modifies this, queue, all, r
      ensures !whole ==> !Sorted()
      ensures whole ==> Valid() && all == old(all) + {r}
      ensures Undisturbed(old(done)) && chasers == old(chasers) + if qcount == 1 then 1 else 0
      ensures coalesce && !r.nodelay && old(qcount) + 1 < queue.Length ==>
                whole && Queued() == old(Queued()) + [r] && kernel == old(kernel) && done == old(done)
                && answers == old(answers)
      ensures !coalesce || r.nodelay || old(qcount) + 1 >= queue.Length ==>
                && Refused(old(Queued()) + [r], bad, last, old(done), done)
                && answers == old(answers) + Round(bad, last)
                && (whole <==> (last.Taken? ==> last.n == old(qcount) + 1 - bad))
                && (last.BadFd? <==> bad == old(qcount) + 1)
                && handleSet == (old(handleSet) || (old(inFlight) == 0 && last.Taken?))
                && (whole ==> qcount == 0 && kernel == old(kernel) + Accepted(old(Queued()) + [r], bad, last))
    {
      hide Places;
      hide Requests;
      hide FailedWith;
      hide System.Treated;
      hide System.Sorted;
      hide System.Round;
      hide System.Accepted;
      Enqueue(r);
      var now := !coalesce || r.nodelay || qcount >= queue.Length;
      whole, bad, last := true, 0, BadFd;
      if now {
        whole, bad, last := Flush();
      }
      if qcount == 1 {
        chasers := chasers + 1;
      }
    }

    /** Puts a new request at the back of the queue. */
    method Enqueue(r: Request)
      requires Sorted() && qcount < queue.Length && r !in all && r.Waiting()
      modifies this`qcount, this`curQueued, this`all, queue
      ensures Sorted() && Queued() == old(Queued()) + [r] && qcount == old(qcount) + 1 && all == old(all) + {r}
    {
      EnqueuePlaces(Queued(), kernel, done, all, r);
      hide Places;
      queue[qcount] := r;
      qcount := qcount + 1;
      curQueued := curQueued + 1;
      all := all + {r};
      assert Queued() == old(Queued()) + [r];
    }

    /** The posted handler runs: whatever is queued goes out. */
    method Chase() returns (ghost whole: bool, ghost bad: nat, ghost last: Answer)
      requires Valid() && chasers > 0
      modifies this, queue, all
      ensures whole <==> Sorted()
      ensures whole ==> Valid() && qcount == 0 && all == old(all)
      ensures whole ==> kernel == old(kernel) + Accepted(old(Queued()), bad, last)
      ensures Refused(old(Queued()), bad, last, old(done), done) && answers == old(answers) + Round(bad, last)
      ensures (whole <==> (last.Taken? ==> last.n == old(qcount) - bad)) && (last.BadFd? <==> bad == old(qcount))
      ensures Undisturbed(old(done)) && chasers == old(chasers) - 1
      ensures handleSet == (old(handleSet) || (old(inFlight) == 0 && last.Taken?))
    {
      hide Places;
      hide Requests;
      hide FailedWith;
      hide System.Treated;
      hide System.Sorted;
      hide System.Round;
      hide System.Accepted;
      NothingRefused(done);
      assert qcount == 0 ==> Queued() == [];
      chasers := chasers - 1;
      whole, bad, last := true, 0, BadFd;
      if qcount > 0 {
        whole, bad, last := Flush();
      }
    }

    /** std::remove over the live part of the queue; returns how much of it is left. */
    method Compact(cb: Request) returns (n: nat)
      requires qcount <= queue.Length
      modifies queue
      ensures n <= qcount && queue[..n] == Filter(old(Queued()), cb)
    {
      n := 0;
      var i := 0;
      while i < qcount
        invariant n <= i <= qcount
        invariant queue[..n] == Filter(old(Queued())[..i], cb)
        invariant forall j :: i <= j < queue.Length ==> queue[j] == old(queue[j])
      {
        assert old(Queued())[..i + 1][..i] == old(Queued())[..i];
        if queue[i] != cb {
          assert (queue[..n] + [queue[i]])[..n] == queue[..n];
          queue[n] := queue[i];
          assert queue[..n + 1] == old(Filter(queue[..qcount][..i], cb)) + [queue[n]];
          n := n + 1;
        }
        i := i + 1;
      }
      assert old(Queued())[..i] == old(Queued());
    }

    /**
      Cancels a request that is queued, completing it here and now, or asks the kernel to give it back with its
      result, which the kernel may refuse.
     */
    method Cancel(r: Request, given: Option<int>) returns (ok: bool)
      requires Valid() && r in all && r !in done
      modifies this`qcount, this`curQueued, this`inFlight, this`curSubmits, this`kernel, this`done, queue, all
      ensures Valid() && Undisturbed(old(done))
      ensures r in old(Queued()) ==> ok && r.retval == -1 && r.errcode == ECANCELED && kernel == old(kernel)
      ensures r !in old(Queued()) ==> (ok <==> given.Some?)
      ensures ok && r !in old(Queued()) && given.value >= 0 ==> r.retval == given.value && r.errcode == 0
      ensures ok && r !in old(Queued()) && given.value < -1 ==> r.retval == -1 && r.errcode == -given.value
      ensures !ok ==> r.Waiting()
      ensures done == (if ok then old(done) + {r} else old(done))
      ensures kernel == if ok then old(kernel) - {r} else old(kernel)
      ensures Queued() == Filter(old(Queued()), r)
    {
      hide Places;
      hide Filter;
      hide System.Treated;
      FilterQueue(Queued(), kernel, done, all, r);
      var n := Compact(r);
      if n < qcount {
        Withdraw(r, n, ECANCELED);
        return true;
      }
      ok := GiveBack(r, given);
    }

    /** Completes a request that has just been taken out of the queue. */
    method Withdraw(r: Request, n: nat, ec: int)
      requires n + 1 == qcount <= queue.Length && Places(queue[..n], kernel, done + {r}, all) && r in all && r !in done
      requires Treated(all, done) && |kernel| == inFlight && curQueued == qcount && curSubmits == inFlight
      modifies this`qcount, this`curQueued, this`done, r
      ensures Sorted() && qcount == n && done == old(done) + {r} && r.retval == -1 && r.errcode == ec
      ensures Undisturbed(old(done))
    {
      qcount := qcount - 1;
      curQueued := curQueued - 1;
      r.HandleEvent(-1, ec);
      done := done + {r};
    }

    /** Asks the kernel to give a request back; if it does, the request completes with the kernel's result. */
    method GiveBack(r: Request, given: Option<int>) returns (ok: bool)
      requires Sorted() && r in kernel && Places(Queued(), kernel - {r}, done + {r}, all)
      modifies this`inFlight, this`curSubmits, this`kernel, this`done, r
      ensures Sorted() && inFlight <= old(inFlight) && Undisturbed(old(done))
      ensures (ok <==> given.Some?) && if ok then Result(r, given.value) else r.Waiting()
      ensures if ok then done == old(done) + {r} && kernel == old(kernel) - {r}
              else done == old(done) && kernel == old(kernel)
    {
      match given
      case None =>
        return false;
      case Some(res) =>
        inFlight := inFlight - 1;
        curSubmits := curSubmits - 1;
        kernel := kernel - {r};
        r.HandleEvent(res, 0);
        done := done + {r};
        return true;
    }

    /** The notification handler, on success: the kernel's finished requests are completed with their results. */
    method HandleSuccess(rs: seq<Request>, res: seq<int>)
      requires Valid() && handleSet
      requires Distinct(rs) && Members(rs) <= kernel && |res| == |rs|
      modifies this`inFlight, this`curSubmits, this`handleSet, this`shut, this`kernel, this`done, all
      ensures Valid() && Undisturbed(old(done)) && Queued() == old(Queued()) && handleSet == (inFlight > 0)
      ensures shut == (old(shut) && inFlight == 0)
      ensures kernel == old(kernel) - Members(rs) && done == old(done) + Members(rs)
      ensures forall i :: 0 <= i < |rs| && res[i] >= 0 ==> rs[i].retval == res[i] && rs[i].errcode == 0
      ensures forall i :: 0 <= i < |rs| && res[i] < 0 ==> rs[i].retval == -1
      ensures forall i :: 0 <= i < |rs| && res[i] < 0 ==> rs[i].errcode == if res[i] == -1 then 0 else -res[i]
    {
      hide Places;
      hide Members;
      hide Distinct;
      hide System.Treated;
      hide System.Sorted;
      handleSet := false;
      HandleEvents(rs, res);
      Rearm();
    }

    /**
      The notification handler, on an error: an interruption only rearms it, a cancellation shuts it down, and
      anything else leaves a function that may not throw by an exception, which ends the process.
     */
    method HandleError(signal: Signal) returns (alive: bool)
      requires Valid() && handleSet
      modifies this`handleSet, this`shut
      ensures alive <==> signal != Unforeseen
      ensures alive ==> Valid() && shut == (signal == Canceled || (old(shut) && inFlight == 0))
      ensures alive ==> handleSet == (signal == Interrupted && inFlight > 0)
    {
      handleSet := false;
      if signal == Unforeseen {
        return false;
      }
      if signal == Canceled {
        shut := true;
      } else {
        Rearm();
      }
      return true;
    }

    /** Waits for the next notification while anything is in flight. */
    method Rearm()
      requires Sorted() && !handleSet
      modifies this`handleSet, this`shut
      ensures Sorted() && handleSet == (inFlight > 0) && shut == (old(shut) && inFlight == 0)
    {
      hide Places;
      if inFlight > 0 && !handleSet {
        SetHandle();
      }
    }

    /** Arms the notification, and with that forgets an earlier shutdown. */
    method SetHandle()
      requires !handleSet
      modifies this`handleSet, this`shut
      ensures handleSet && !shut
    {
      handleSet := true;
      shut := false;
    }

    /** The request carries the result of a kernel event: the count, or the number of the error, unless that is 1. */
    static ghost predicate Result(r: Request, res: int)
      reads r
    {
      if res >= 0 then r.retval == res && r.errcode == 0
      else r.retval == -1 && r.errcode == if res == -1 then 0 else -res
    }

    method Finish(r: Request, res: int)
      requires Treated(all, done) && r in all && r !in done
      modifies this`done, r
      ensures done == old(done) + {r} && Treated(all, done) && Undisturbed(old(done)) && Result(r, res)
    {
      r.HandleEvent(res, 0);
      done := done + {r};
    }

    method FinishAll(rs: seq<Request>, res: seq<int>)
      requires Treated(all, done) && Distinct(rs) && Members(rs) <= all && Members(rs) !! done && |res| == |rs|
      modifies this`done, all
      ensures done == old(done) + Members(rs) && Treated(all, done) && Undisturbed(old(done))
      ensures forall i :: 0 <= i < |rs| ==> Result(rs[i], res[i])
    {
      assert Members(rs[..0]) == {};
      hide Members;
      for n := 0 to |rs|
        invariant done == old(done) + Members(rs[..n])
        invariant Treated(all, done) && Undisturbed(old(done))
        invariant forall i :: 0 <= i < n ==> Result(rs[i], res[i])
      {
        MembersStep(rs, n);
        Finish(rs[n], res[n]);
      }
      assert rs[..|rs|] == rs;
    }

    /** The requests have left the kernel but are not completed yet. */
    ghost predicate Leaving(rs: seq<Request>)
      reads this, queue, all
    {
      && qcount <= queue.Length && Places(Queued(), kernel, done + Members(rs), all)
      && Treated(all, done) && Members(rs) !! done && Members(rs) <= all
      && |kernel| == inFlight && curQueued == qcount && curSubmits == inFlight
    }

    method Leave(rs: seq<Request>)
      requires Sorted() && Distinct(rs) && Members(rs) <= kernel
      modifies this`inFlight, this`curSubmits, this`kernel
      ensures Leaving(rs) && inFlight <= old(inFlight) && kernel == old(kernel) - Members(rs)
    {
      FinishPlaces(Queued(), kernel, done, all, rs);
      inFlight := inFlight - |rs|;
      curSubmits := curSubmits - |rs|;
      kernel := kernel - Members(rs);
    }

    /** The count in flight drops by the whole batch first; then each request is completed. */
    method HandleEvents(rs: seq<Request>, res: seq<int>)
      requires Sorted() && Distinct(rs) && Members(rs) <= kernel && |res| == |rs|
      modifies this`inFlight, this`curSubmits, this`kernel, this`done, all
      ensures Sorted() && Undisturbed(old(done)) && inFlight <= old(inFlight)
      ensures kernel == old(kernel) - Members(rs) && done == old(done) + Members(rs)
      ensures forall i :: 0 <= i < |rs| ==> Result(rs[i], res[i])
    {
      hide Places;
      hide Members;
      hide System.Treated;
      Leave(rs);
      FinishAll(rs, res);
    }

    /**
      One round of waiting for a request, which ends because the request has completed or because the waiting
      context was interrupted. The wait is over only when the request has completed: an interrupted wait on a
      queued request cancels it, and one on a request in the kernel must be entered again.
     */
    method Wait(r: Request, interrupted: bool) returns (w: Waited)
      requires Valid() && r in all && (!interrupted ==> r.Completed())
      modifies this`qcount, this`curQueued, this`inFlight, this`curSubmits, this`kernel, this`done, queue, all
      ensures Valid() && Undisturbed(old(done))
      ensures w == Again <==> r !in done
      ensures w == Again ==> r in kernel && Queued() == old(Queued()) && kernel == old(kernel) && done == old(done)
      ensures w == Done <==> !interrupted
      ensures w == Thrown && r !in old(done) ==> r in old(Queued()) && r.errcode == ECANCELED
    {
      if !interrupted {
        return Done;
      }
      if r.Completed() {
        return Thrown;
      }
      var queued := IsQueued(r);
      if queued {
        var ok := Cancel(r, None);
        return Thrown;
      }
      return Again;
    }

    method IsQueued(r: Request) returns (found: bool)
      requires qcount <= queue.Length
      ensures found <==> r in Queued()
    {
      for i := 0 to qcount
        invariant r !in queue[..i]
      {
        if queue[i] == r {
          assert queue[..qcount][i] == r;
          return true;
        }
      }
      return false;
    }

    /**
      Asks for shutdown: a pending notification is cancelled (its handler then finishes the shutdown), and
      without one it is final at once. Nothing is in flight in that second case.
     */
    method Interrupt() returns (cancelled: bool)
      requires Valid()
      modifies this`shut
      ensures Valid() && cancelled == handleSet && shut == (old(shut) || !handleSet)
      ensures !old(shut) && shut ==> inFlight == 0
    {
      cancelled := handleSet;
      if !handleSet {
        shut := true;
      }
    }
  }
}
