/**
  The promise and future graph: every promise of a group points at the first future, every future at the first
  promise, and each side is chained by next pointers. There is no shared control block, so copying, moving,
  destroying and fulfilling repair the pointers in place.
 */
module Promises {

  import opened Options
  import opened Seqs

  datatype Error = BrokenPromise | Other(code: int)

  /** The word a future shares between its state and the pointer to the first promise. */
  datatype Slot = Invalid | Pending(promise: Promise) | Ready | Observed | Retrieved

  // ---------------------------------------------------------------- the group

  /** The promises are chained by next in this order, and the last one ends the chain. */
  ghost predicate PromiseChain(ps: seq<Promise>)
    reads ps`next
  {
    && ps != [] && Distinct(ps)
    && (forall i :: 0 <= i < |ps| - 1 ==> ps[i].next == ps[i + 1])
    && ps[|ps| - 1].next == null
  }

  ghost predicate FutureChain(fs: seq<Future>)
    reads fs`next
  {
    && fs != [] && Distinct(fs)
    && (forall i :: 0 <= i < |fs| - 1 ==> fs[i].next == fs[i + 1])
    && fs[|fs| - 1].next == null
  }

  /** The two-list invariant of a live group. */
  ghost predicate Linked(ps: seq<Promise>, fs: seq<Future>)
    reads ps, fs
  {
    && PromiseChain(ps) && FutureChain(fs)
    && (forall p :: p in ps ==> p.st == fs[0])
    && (forall f :: f in fs ==> f.p == Pending(ps[0]))
  }

  lemma EndOfPromises(ps: seq<Promise>, k: nat)
    requires PromiseChain(ps) && k < |ps|
    ensures ps[k].next == null <==> k == |ps| - 1
  {
    if k < |ps| - 1 {
      assert ps[k].next == ps[k + 1];
    }
  }

  lemma EndOfFutures(fs: seq<Future>, k: nat)
    requires FutureChain(fs) && k < |fs|
    ensures fs[k].next == null <==> k == |fs| - 1
  {
    if k < |fs| - 1 {
      assert fs[k].next == fs[k + 1];
    }
  }

  /** A promise with a future sits in a live group; one without has none. */
  ghost predicate PromiseIn(p: Promise, ps: seq<Promise>, fs: seq<Future>, k: nat)
    reads p, ps, fs
  {
    if p.st == null then ps == [] && fs == [] else Linked(ps, fs) && k < |ps| && ps[k] == p
  }

  ghost predicate FutureIn(f: Future, ps: seq<Promise>, fs: seq<Future>, k: nat)
    reads f, ps, fs
  {
    if f.p.Pending? then Linked(ps, fs) && k < |fs| && fs[k] == f else ps == [] && fs == []
  }

  // ---------------------------------------------------------------- promises

  class Promise {
    var st: Future?
    var next: Promise?

    /** A promise that promises nothing yet. */
    constructor ()
      ensures st == null && next == null
    {
      st := null;
      next := null;
    }

    /** Copying joins the group at the tail of the promises. */
    constructor Copy(o: Promise, ghost ps: seq<Promise>, ghost fs: seq<Future>, ghost k: nat)
      requires Linked(ps, fs) && k < |ps| && ps[k] == o
      modifies ps`next
      ensures Linked(ps + [this], fs)
    {
      st := o.st;
      next := null;
      new;
      AppendPromise(this, o, ps, fs, k);
    }

    /** Moving takes the other promise's place in its group, if it has one. */
    constructor Move(o: Promise, ghost ps: seq<Promise>, ghost fs: seq<Future>, ghost k: nat)
      requires PromiseIn(o, ps, fs, k)
      modifies ps`next, o`next, o`st, fs`p
      ensures old(o.st) != null ==> Linked(ps[k := this], fs)
      ensures old(o.st) == null ==> st == null && next == old(o.next)
      ensures o.st == null && o.next == null
    {
      st := o.st;
      next := o.next;
      new;
      UpdatePromise(this, o, ps, fs, k);
    }

    /** Settles the promise with an exception for every future of the group; a promise without a future ignores it. */
    method SetException(e: Error, ghost ps: seq<Promise>, ghost fs: seq<Future>, ghost k: nat)
      requires PromiseIn(this, ps, fs, k)
      modifies ps`st, fs`eptr, fs`p, fs`wakeups
      ensures forall q :: q in ps ==> q.st == null
      ensures forall f :: f in fs ==> f.p == Ready && f.eptr == Some(e) && f.wakeups == old(f.wakeups) + 1
      ensures st == null
    {
      if st == null {
        return;
      }
      hide Linked, PromiseChain, FutureChain;
      StoreException(e, ps, fs, k);
      MakeReady(ps, fs, k);
    }

    /** Settles the promise with a value for every future of the group; a promise without a future ignores it. */
    method SetValue(v: int, ghost ps: seq<Promise>, ghost fs: seq<Future>, ghost k: nat)
      requires PromiseIn(this, ps, fs, k)
      modifies ps`st, fs`val, fs`p, fs`wakeups
      ensures forall q :: q in ps ==> q.st == null
      ensures forall f :: f in fs ==> f.p == Ready && f.val == Some(v) && f.wakeups == old(f.wakeups) + 1
      ensures st == null
    {
      if st == null {
        return;
      }
      hide Linked, PromiseChain, FutureChain;
      StoreValue(v, ps, fs, k);
      MakeReady(ps, fs, k);
    }

    method StoreException(e: Error, ghost ps: seq<Promise>, ghost fs: seq<Future>, ghost k: nat)
      requires Linked(ps, fs) && k < |ps| && ps[k] == this
      modifies fs`eptr
      ensures Linked(ps, fs)
      ensures forall f :: f in fs ==> f.eptr == Some(e)
    {
      var cur := st;
      ghost var i := 0;
      while cur != null
        invariant i <= |fs| && cur == (if i < |fs| then fs[i] else null)
        invariant forall j :: 0 <= j < i ==> fs[j].eptr == Some(e)
        decreases |fs| - i
      {
        cur.eptr := Some(e);
        cur := cur.next;
        i := i + 1;
      }
    }

    method StoreValue(v: int, ghost ps: seq<Promise>, ghost fs: seq<Future>, ghost k: nat)
      requires Linked(ps, fs) && k < |ps| && ps[k] == this
      modifies fs`val
      ensures Linked(ps, fs)
      ensures forall f :: f in fs ==> f.val == Some(v)
    {
      var cur := st;
      ghost var i := 0;
      while cur != null
        invariant i <= |fs| && cur == (if i < |fs| then fs[i] else null)
        invariant forall j :: 0 <= j < i ==> fs[j].val == Some(v)
        decreases |fs| - i
      {
        cur.val := Some(v);
        cur := cur.next;
        i := i + 1;
      }
    }

    /**
      Ends the pending group: first every promise is cut off, through the pointer that is about to be overwritten;
      then every future becomes ready and is woken once. The chains are left as they were.
     */
    method MakeReady(ghost ps: seq<Promise>, ghost fs: seq<Future>, ghost k: nat)
      requires Linked(ps, fs) && k < |ps| && ps[k] == this
      modifies ps`st, fs`p, fs`wakeups
      ensures forall q :: q in ps ==> q.st == null
      ensures forall f :: f in fs ==> f.p == Ready && f.wakeups == old(f.wakeups) + 1
    {
      PromiseInOrder(this, ps, fs, k);
      hide Linked, PromiseChain, FutureChain;
      var first: Promise := Head();
      var cur: Future := first.st;
      InvalidatePromises(cur, ps);
      SetReady(cur, fs);
      st := null;
    }

    /**
      Destroying one of several copies only unlinks it; destroying the last one delivers broken_promise to every
      future, once.
     */
    method Destroy(ghost ps: seq<Promise>, ghost fs: seq<Future>, ghost k: nat)
      requires PromiseIn(this, ps, fs, k)
      modifies ps`st, ps`next, fs`p, fs`eptr, fs`wakeups
      ensures st == null
      ensures |ps| > 1 ==> next == null && Linked(Without(ps, k), fs)
      ensures |ps| > 1 ==> forall f :: f in fs ==> f.eptr == old(f.eptr) && f.wakeups == old(f.wakeups)
      ensures |ps| == 1 ==> forall f :: f in fs ==>
                f.p == Ready && f.eptr == Some(BrokenPromise) && f.wakeups == old(f.wakeups) + 1
      ensures forall p :: p in ps && p != this ==> p.st == old(p.st)
    {
      var n := PromiseCount(st, ps, fs);
      if n == 1 {
        SetException(BrokenPromise, ps, fs, k);
      }
      if st != null {
        RemovePromise(this, ps, fs, k);
      }
    }

    /** What moving does to a promise that belongs to no group. */
    method Take(o: Promise, ghost ps: seq<Promise>, ghost fs: seq<Future>, ghost k: nat)
      requires PromiseIn(o, ps, fs, k) && this !in ps && this != o
      modifies this`st, this`next, ps`next, o`next, o`st, fs`p
      ensures old(o.st) != null ==> Linked(ps[k := this], fs)
      ensures old(o.st) == null ==> st == null && next == old(o.next)
      ensures o.st == null && o.next == null
    {
      st := o.st;
      next := o.next;
      UpdatePromise(this, o, ps, fs, k);
    }

    /** The first promise of the group; a promise without a pending future heads its own. */
    function Head(): Promise
      reads this, st
    {
      if st != null && st.p.Pending? then st.p.promise else this
    }
  }

  /** Makes every future of the list ready, and wakes it. */
  method SetReady(first: Future, ghost fs: seq<Future>)
    requires FutureChain(fs) && first == fs[0]
    modifies fs`p, fs`wakeups
    ensures forall f :: f in fs ==> f.p == Ready && f.wakeups == old(f.wakeups) + 1
  {
    var cur: Future? := first;
    ghost var i := 0;
    while cur != null
      invariant i <= |fs| && cur == (if i < |fs| then fs[i] else null)
      invariant forall j :: 0 <= j < i ==> fs[j].p == Ready && fs[j].wakeups == old(fs[j].wakeups) + 1
      invariant forall j :: i <= j < |fs| ==> fs[j].wakeups == old(fs[j].wakeups)
      decreases |fs| - i
    {
      cur.p := Ready;
      cur.wakeups := cur.wakeups + 1;
      cur := cur.next;
      i := i + 1;
    }
  }

  /** How many promises the group of a pending future has. */
  method PromiseCount(st: Future?, ghost ps: seq<Promise>, ghost fs: seq<Future>) returns (n: nat)
    requires st != null && st.p.Pending? ==> Linked(ps, fs) && st == fs[0]
    ensures n == if st != null && st.p.Pending? then |ps| else 0
  {
    n := 0;
    if st == null || !st.p.Pending? {
      return;
    }
    var cur: Promise? := st.p.promise;
    while cur != null
      invariant n <= |ps| && cur == (if n < |ps| then ps[n] else null)
      decreases |ps| - n
    {
      n := n + 1;
      cur := cur.next;
    }
  }

  /** Unlinks a promise. The last one out leaves the futures invalid. */
  method RemovePromise(p: Promise, ghost ps: seq<Promise>, ghost fs: seq<Future>, ghost k: nat)
    requires Linked(ps, fs) && k < |ps| && ps[k] == p
    modifies ps`next, p`st, fs`p
    ensures p.st == null && p.next == null
    ensures |ps| > 1 ==> Linked(Without(ps, k), fs)
    ensures |ps| == 1 ==> forall f :: f in fs ==> f.p == Invalid
  {
    assert fs != [] && fs[0] in fs;
    hide FutureChain;
    var last: Promise := p.Head();
    if last == p {
      assert k == 0;
      if p.next != null {
        assert p.next == ps[1] && ps[1] in ps;
        SetFuturesPromise(p.next, fs);
      } else {
        InvalidateFutures(p, fs);
      }
    } else {
      var cur := last.next;
      ghost var i := 1;
      while cur != null
        invariant 1 <= i <= k && cur == ps[i] && last == ps[i - 1]
        invariant forall j :: 0 <= j < |ps| - 1 ==> ps[j].next == ps[j + 1]
        decreases |ps| - i
      {
        if cur == p {
          last.next := cur.next;
          break;
        }
        last := cur;
        cur := cur.next;
        i := i + 1;
      }
    }
    p.st := null;
    p.next := null;
  }

  /** Links a new copy in at the end of the promises, walking there from any member. */
  method AppendPromise(n: Promise, o: Promise, ghost ps: seq<Promise>, ghost fs: seq<Future>, ghost k: nat)
    requires Linked(ps, fs) && k < |ps| && ps[k] == o
    requires n !in ps && n.st == fs[0] && n.next == null
    modifies ps`next
    ensures Linked(ps + [n], fs)
  {
    if o.next == null {
      EndOfPromises(ps, k);
      o.next := n;
      return;
    }
    var cur := o.next;
    ghost var i := k + 1;
    while cur.next != null
      invariant i < |ps| && cur == ps[i]
      decreases |ps| - i
    {
      cur := cur.next;
      i := i + 1;
    }
    EndOfPromises(ps, i);
    cur.next := n;
  }

  /** Makes the pointer behind the first promise that leads to o lead to n. */
  method RelinkPromise(first: Promise, o: Promise, n: Promise, ghost ps: seq<Promise>, ghost k: nat)
    requires PromiseChain(ps) && ps[0] == first && 0 < k < |ps| && ps[k] == o
    modifies {ps[k - 1]}`next
    ensures ps[k - 1].next == n
  {
    var last, cur := first, first.next;
    ghost var i := 1;
    while cur != null
      invariant 1 <= i <= k && cur == ps[i] && last == ps[i - 1]
      invariant forall j :: 0 <= j < |ps| - 1 ==> ps[j].next == ps[j + 1]
      decreases |ps| - i
    {
      if cur == o {
        last.next := n;
        break;
      }
      last := cur;
      cur := last.next;
      i := i + 1;
    }
  }

  /** What the links of a live group say about one of its promises. */
  lemma PromiseInOrder(o: Promise, ps: seq<Promise>, fs: seq<Future>, k: nat)
    requires Linked(ps, fs) && k < |ps| && ps[k] == o
    ensures PromiseChain(ps) && FutureChain(fs) && Distinct(ps) && fs != [] && fs[0] in fs && ps[0] in ps
    ensures o.st == fs[0] && fs[0].p == Pending(ps[0]) && (o == ps[0] <==> k == 0)
    ensures o.next == if k + 1 < |ps| then ps[k + 1] else null
    ensures (forall p :: p in ps ==> p.st == fs[0]) && (forall f :: f in fs ==> f.p == Pending(ps[0]))
  {
    EndOfPromises(ps, k);
  }

  /** Puts n where o was among the promises, if it was among any. */
  method UpdatePromise(n: Promise, o: Promise, ghost ps: seq<Promise>, ghost fs: seq<Future>, ghost k: nat)
    requires PromiseIn(o, ps, fs, k)
    requires n !in ps && n != o && n.st == o.st
    modifies n`next, ps`next, o`next, o`st, fs`p
    ensures old(o.st) != null ==> Linked(ps[k := n], fs)
    ensures old(o.st) == null ==> n.next == old(o.next)
    ensures o.st == null && o.next == null
  {
    ghost var attached := o.st != null;
    if attached {
      PromiseInOrder(o, ps, fs, k);
    }
    hide FutureChain, Linked;
    n.next := o.next;
    var last: Promise := o.Head();
    if last == o {
      SetFuturesPromise(n, fs);
    } else {
      RelinkPromise(last, o, n, ps, k);
    }
    if attached {
      PromiseReplaced(ps, n, k);
    }
    o.st := null;
    o.next := null;
    if attached {
      LinkedAgain(ps[k := n], fs);
    }
  }

  lemma PromiseReplaced(ps: seq<Promise>, n: Promise, k: nat)
    requires Distinct(ps) && n !in ps && k < |ps|
    requires forall i :: 0 <= i < |ps| - 1 && i != k - 1 && i != k ==> ps[i].next == ps[i + 1]
    requires k < |ps| - 1 ==> ps[|ps| - 1].next == null
    requires k > 0 ==> ps[k - 1].next == n
    requires n.next == if k + 1 < |ps| then ps[k + 1] else null
    ensures PromiseChain(ps[k := n])
  {
    var s := ps[k := n];
    forall i, j | 0 <= i < j < |s| ensures s[i] != s[j] {
      assert ps[i] in ps && ps[j] in ps && ps[i] != ps[j];
    }
  }

  /** Tells every future of the promise that p is the first promise now. */
  method SetFuturesPromise(p: Promise, ghost fs: seq<Future>)
    requires if p.st == null then fs == [] else FutureChain(fs) && p.st == fs[0]
    modifies fs`p
    ensures forall f :: f in fs ==> f.p == Pending(p)
  {
    var cur := p.st;
    ghost var i := 0;
    while cur != null
      invariant i <= |fs| && cur == (if i < |fs| then fs[i] else null)
      invariant forall j :: 0 <= j < i ==> fs[j].p == Pending(p)
      decreases |fs| - i
    {
      cur.p := Pending(p);
      cur := cur.next;
      i := i + 1;
    }
  }

  /** Takes the promise pointer away from every future of the promise. */
  method InvalidateFutures(p: Promise, ghost fs: seq<Future>)
    requires FutureChain(fs) && p.st == fs[0]
    modifies fs`p
    ensures forall f :: f in fs ==> f.p == Invalid
  {
    var cur := p.st;
    ghost var i := 0;
    while cur != null
      invariant i <= |fs| && cur == (if i < |fs| then fs[i] else null)
      invariant forall j :: 0 <= j < i ==> fs[j].p == Invalid
      decreases |fs| - i
    {
      cur.p := Invalid;
      cur := cur.next;
      i := i + 1;
    }
  }

  // ---------------------------------------------------------------- futures

  class Future {
    var next: Future?
    var p: Slot
    var eptr: Option<Error>
    var val: Option<int>
    var wakeups: nat

    constructor ()
      ensures p == Invalid && next == null && eptr == None && val == None && wakeups == 0
    {
      next := null;
      p := Invalid;
      eptr := None;
      val := None;
      wakeups := 0;
    }

    /** A future that is ready from the start. */
    constructor Already()
      ensures p == Ready && next == null && eptr == None && wakeups == 0
    {
      next := null;
      p := Ready;
      eptr := None;
      wakeups := 0;
    }

    /**
      A future for a promise. On a promise that has none yet it becomes the first future of that promise and of
      everything chained behind it; otherwise it joins at the tail of the futures.
     */
    constructor Attach(o: Promise, ghost ps: seq<Promise>, ghost fs: seq<Future>)
      requires if o.st == null then PromiseChain(ps) && ps[0] == o else Linked(ps, fs) && o in ps
      modifies ps`st, fs`next
      ensures Linked(ps, if old(o.st) == null then [this] else fs + [this])
      ensures wakeups == 0 && eptr == None && val == None
    {
      next := null;
      p := Pending(o.Head());
      eptr := None;
      val := None;
      wakeups := 0;
      new;
      assert o.st != null ==> ps != [] && fs != [];
      hide Linked, PromiseChain, FutureChain;
      if o.st == null {
        First(this, o, ps);
      } else {
        AppendFuture(this, o.st, ps, fs, 0);
      }
    }

    /**
      Moving takes the other future's place in the group, or just its settled state. A settled future may still
      have the next pointer that it had in its group; what it leads to must end and not come back to the future.
     */
    constructor Move(o: Future, ghost ps: seq<Promise>, ghost fs: seq<Future>, ghost k: nat, ghost stale: seq<Future>)
      requires FutureIn(o, ps, fs, k) && (!o.p.Pending? ==> Leads(o.next, stale) && o !in stale)
      modifies o`p, o`next, fs`next, ps`st
      ensures old(o.p).Pending? ==> Linked(ps, fs[k := this])
      ensures !old(o.p).Pending? ==> p == old(o.p) && next == old(o.next)
      ensures o.p == Invalid && o.next == null
      ensures eptr == old(o.eptr) && val == old(o.val) && wakeups == 0
    {
      eptr := o.eptr;
      val := o.val;
      next := o.next;
      p := o.p;
      wakeups := 0;
      new;
      UpdateFuture(this, o, ps, fs, k, stale);
    }

    /** Copying a pending future joins the group at the tail of the futures. */
    constructor Copy(o: Future, ghost ps: seq<Promise>, ghost fs: seq<Future>, ghost k: nat)
      requires Linked(ps, fs) && k < |fs| && fs[k] == o
      modifies fs`next
      ensures Linked(ps, fs + [this])
      ensures eptr == None && wakeups == 0
    {
      next := null;
      p := o.p;
      eptr := None;
      wakeups := 0;
      new;
      AppendFuture(this, o, ps, fs, k);
    }

    function Head(): Future
      reads this, if p.Pending? then {p.promise} else {}
    {
      if p.Pending? && p.promise.st != null then p.promise.st else this
    }
  }

  /** The first future of a promise, and of everything chained behind it. */
  method First(f: Future, o: Promise, ghost ps: seq<Promise>)
    requires PromiseChain(ps) && ps[0] == o && f.p == Pending(o) && f.next == null
    modifies ps`st
    ensures Linked(ps, [f])
  {
    o.st := f;
    SetPromisesState(f, ps);
  }

  /** Tells every promise chained from the future's first promise that the future comes first now. */
  method SetPromisesState(f: Future, ghost ps: seq<Promise>)
    requires PromiseChain(ps) && f.p == Pending(ps[0])
    modifies ps`st
    ensures forall p :: p in ps ==> p.st == f
  {
    var cur: Promise? := f.p.promise;
    ghost var i := 0;
    while cur != null
      invariant i <= |ps| && cur == (if i < |ps| then ps[i] else null)
      invariant forall j :: 0 <= j < i ==> ps[j].st == f
      decreases |ps| - i
    {
      cur.st := f;
      cur := cur.next;
      i := i + 1;
    }
  }

  /** Cuts every promise of a pending future off from the futures; their chain is left as it was. */
  method InvalidatePromises(f: Future, ghost ps: seq<Promise>)
    requires PromiseChain(ps) && f.p == Pending(ps[0])
    modifies ps`st
    ensures forall p :: p in ps ==> p.st == null
  {
    var cur: Promise? := f.p.promise;
    ghost var i := 0;
    while cur != null
      invariant i <= |ps| && cur == (if i < |ps| then ps[i] else null)
      invariant forall j :: 0 <= j < i ==> ps[j].st == null
      decreases |ps| - i
    {
      cur.st := null;
      cur := cur.next;
      i := i + 1;
    }
  }

  method AppendFuture(n: Future, o: Future, ghost ps: seq<Promise>, ghost fs: seq<Future>, ghost k: nat)
    requires Linked(ps, fs) && k < |fs| && fs[k] == o
    requires n !in fs && n.p == Pending(ps[0]) && n.next == null
    modifies fs`next
    ensures Linked(ps, fs + [n])
  {
    if o.next == null {
      EndOfFutures(fs, k);
      o.next := n;
      return;
    }
    var cur := o.next;
    ghost var i := k + 1;
    while cur.next != null
      invariant i < |fs| && cur == fs[i]
      decreases |fs| - i
    {
      cur := cur.next;
      i := i + 1;
    }
    EndOfFutures(fs, i);
    cur.next := n;
  }

  /** The futures reached by following next pointers to the end. */
  ghost predicate Leads(f: Future?, chain: seq<Future>)
    reads chain`next
  {
    && f == (if chain == [] then null else chain[0])
    && forall i :: 0 <= i < |chain| ==> chain[i].next == After(chain, i)
  }

  ghost function After(chain: seq<Future>, i: nat): Future?
    requires i < |chain|
  {
    if i + 1 < |chain| then chain[i + 1] else null
  }

  /** The chain from this future on, in which o is only at k and n is not. */
  ghost predicate InChain(first: Future, o: Future, n: Future, chain: seq<Future>, k: nat)
    reads chain`next
  {
    && Leads(first, chain) && k < |chain| && chain[k] == o && n !in chain
    && forall i :: 0 <= i < |chain| && i != k ==> chain[i] != o
  }

  /**
    Takes over o's next pointer, and makes the pointer in the chain that leads to o lead to n; none leads to the
    front.
   */
  method Relink(first: Future, o: Future, n: Future, ghost chain: seq<Future>, ghost k: nat)
    requires InChain(first, o, n, chain, k)
    modifies n`next, (if k > 0 then chain else [])`next
    ensures n.next == old(o.next) && o.next == old(o.next)
    ensures k > 0 ==> chain[k - 1].next == n
    ensures Distinct(chain) ==> forall i :: 0 <= i < |chain| && i != k - 1 ==> chain[i].next == After(chain, i)
  {
    n.next := o.next;
    assert chain[0].next == After(chain, 0);
    var last, cur := first, first.next;
    ghost var i := 1;
    while cur != null
      invariant 1 <= i <= |chain| && last == chain[i - 1] && cur == (if i < |chain| then chain[i] else null)
      invariant k == 0 || i <= k
      decreases |chain| - i
    {
      if cur == o {
        last.next := n;
        break;
      }
      last := cur;
      cur := last.next;
      i := i + 1;
    }
  }

  lemma ChainOfReplaced(fs: seq<Future>, n: Future, k: nat)
    requires Distinct(fs) && n !in fs && k < |fs|
    requires forall i :: 0 <= i < |fs| && i != k - 1 ==> fs[i].next == After(fs, i)
    requires k > 0 ==> fs[k - 1].next == n
    requires n.next == After(fs, k)
    ensures FutureChain(fs[k := n])
  {
    var s := fs[k := n];
    forall i, j | 0 <= i < j < |s| ensures s[i] != s[j] {
      assert fs[i] in fs && fs[j] in fs && fs[i] != fs[j];
    }
    forall i | 0 <= i < |s| ensures s[i].next == After(s, i) {
      if i == k {
        assert s[i].next == After(fs, i);
      } else if i != k - 1 {
        assert fs[i].next == After(fs, i);
      }
    }
  }

  /** Puts n where o was among the futures, if it was among any. */
  method UpdateFuture(n: Future, o: Future, ghost ps: seq<Promise>, ghost fs: seq<Future>, ghost k: nat,
                      ghost stale: seq<Future>)
    requires n != o && n !in fs && n.p == o.p
    requires FutureIn(o, ps, fs, k) && (!o.p.Pending? ==> Leads(o.next, stale) && o !in stale && n !in stale)
    modifies n`next, o`next, o`p, fs`next, ps`st
    ensures old(o.p).Pending? ==> Linked(ps, fs[k := n])
    ensures !old(o.p).Pending? ==> n.next == old(o.next)
    ensures o.p == Invalid && o.next == null
  {
    ghost var pending := o.p.Pending?;
    if pending {
      InOrder(o, ps, fs, k);
    }
    hide Linked, PromiseChain, FutureChain, Distinct, Leads;
    PointAt(n, o, ps, fs, k, stale);
    if pending {
      ChainOfReplaced(fs, n, k);
    }
    o.p := Invalid;
    o.next := null;
    if pending {
      LinkedAgain(ps, fs[k := n]);
    }
  }

  /** Makes every pointer that led to o, from a promise or a future, lead to n. */
  method PointAt(n: Future, o: Future, ghost ps: seq<Promise>, ghost fs: seq<Future>, ghost k: nat,
                 ghost stale: seq<Future>)
    requires n != o && n !in fs && n.p == o.p
    requires FutureIn(o, ps, fs, k) && (!o.p.Pending? ==> Leads(o.next, stale) && o !in stale && n !in stale)
    modifies n`next, fs`next, ps`st
    ensures o.next == old(o.next)
    ensures o.p.Pending? ==> forall i :: 0 <= i < |fs| && i != k - 1 ==> fs[i].next == After(fs, i)
    ensures o.p.Pending? ==> (k > 0 ==> fs[k - 1].next == n) && n.next == After(fs, k)
    ensures o.p.Pending? ==> PromiseChain(ps) && forall p :: p in ps ==> p.st == fs[k := n][0]
    ensures !o.p.Pending? ==> n.next == o.next
  {
    ghost var pending := o.p.Pending?;
    ghost var chain, at := if pending then fs else [o] + stale, if pending then k else 0;
    assert InChain(if pending then fs[0] else o, o, n, chain, at) by {
      if pending {
        InOrder(o, ps, fs, k);
      } else {
        LeadsBehind(o, stale);
      }
    }
    hide Linked, PromiseChain, FutureChain, Leads, InChain;
    var first := HeadMoves(n, o, ps, fs, k);
    Relink(first, o, n, chain, at);
  }

  /** The first future of o's group, which every promise is told if it is o that moves. */
  method HeadMoves(n: Future, o: Future, ghost ps: seq<Promise>, ghost fs: seq<Future>,
                   ghost k: nat) returns (first: Future)
    requires n.p == o.p && FutureIn(o, ps, fs, k)
    modifies ps`st
    ensures first == if o.p.Pending? then fs[0] else o
    ensures o.p.Pending? ==> PromiseChain(ps) && forall p :: p in ps ==> p.st == fs[k := n][0]
  {
    if o.p.Pending? {
      InOrder(o, ps, fs, k);
    }
    hide Linked, PromiseChain, FutureChain, Leads;
    first := o.Head();
    if first == o && first.p.Pending? {
      SetPromisesState(n, ps);
    }
  }

  /** What the links of a live group say about one of its futures. */
  lemma InOrder(o: Future, ps: seq<Promise>, fs: seq<Future>, k: nat)
    requires Linked(ps, fs) && k < |fs| && fs[k] == o
    ensures ps != [] && PromiseChain(ps) && Distinct(fs) && Leads(fs[0], fs)
    ensures o.p == Pending(ps[0]) && ps[0].st == fs[0] && (o == fs[0] <==> k == 0) && ps[0] in ps && fs[0] in fs
    ensures forall i :: 0 <= i < |fs| && i != k ==> fs[i] != o
    ensures forall i :: 0 <= i < |fs| ==> fs[i].next == After(fs, i)
    ensures (forall p :: p in ps ==> p.st == fs[0]) && (forall f :: f in fs ==> f.p == Pending(ps[0]))
  {
  }

  lemma LeadsBehind(o: Future, stale: seq<Future>)
    requires Leads(o.next, stale)
    ensures Leads(o, [o] + stale)
  {
    var s := [o] + stale;
    forall i | 0 <= i < |s| ensures s[i].next == After(s, i) {
      if i > 0 {
        assert stale[i - 1].next == After(stale, i - 1);
      }
    }
  }

  lemma LinkedAgain(ps: seq<Promise>, fs: seq<Future>)
    requires PromiseChain(ps) && FutureChain(fs)
    requires (forall i :: 0 <= i < |ps| ==> ps[i].st == fs[0])
    requires (forall i :: 0 <= i < |fs| ==> fs[i].p == Pending(ps[0]))
    ensures Linked(ps, fs)
  {
  }

  /** How many futures the group of a pending future has. */
  method FutureCount(f: Future, ghost ps: seq<Promise>, ghost fs: seq<Future>, ghost k: nat) returns (n: nat)
    requires FutureIn(f, ps, fs, k)
    ensures n == |fs|
  {
    n := 0;
    if !f.p.Pending? {
      return;
    }
    var cur: Future? := f.Head();
    while cur != null
      invariant n <= |fs| && cur == (if n < |fs| then fs[n] else null)
      decreases |fs| - n
    {
      n := n + 1;
      cur := cur.next;
    }
  }

  /** Unlinks a future. The last one out cuts the promises off. */
  method RemoveFuture(f: Future, ghost ps: seq<Promise>, ghost fs: seq<Future>, ghost k: nat)
    requires Linked(ps, fs) && k < |fs| && fs[k] == f
    modifies f`p, fs`next, ps`st
    ensures |fs| > 1 ==> Linked(ps, Without(fs, k))
    ensures |fs| == 1 ==> forall p :: p in ps ==> p.st == null
    ensures f.p == Invalid && f.next == null
  {
    assert ps != [] && ps[0] in ps;
    hide PromiseChain;
    var last: Future := f.Head();
    if last == f && f.p.Pending? {
      assert k == 0;
      EndOfFutures(fs, 0);
      if last.next != null {
        assert last.next == fs[1] && fs[1] in fs;
        SetPromisesState(last.next, ps);
      } else {
        InvalidatePromises(f, ps);
      }
    } else {
      var cur := last.next;
      ghost var i := 1;
      while cur != null
        invariant 1 <= i <= k && cur == fs[i] && last == fs[i - 1]
        invariant forall j :: 0 <= j < |fs| - 1 ==> fs[j].next == fs[j + 1]
        decreases |fs| - i
      {
        if cur == f {
          last.next := cur.next;
          break;
        }
        last := cur;
        cur := cur.next;
        i := i + 1;
      }
    }
    f.next := null;
    f.p := Invalid;
  }

  /** Destroying the only future cuts its promises off; otherwise the future just leaves the list. */
  method DestroyFuture(f: Future, ghost ps: seq<Promise>, ghost fs: seq<Future>, ghost k: nat)
    requires FutureIn(f, ps, fs, k)
    modifies f`p, fs`next, ps`st
    ensures |fs| > 1 ==> Linked(ps, Without(fs, k)) && f.p == Invalid && f.next == null
    ensures |fs| == 1 ==> forall p :: p in ps ==> p.st == null
    ensures |fs| == 0 ==> f.p == old(f.p)
  {
    var n := FutureCount(f, ps, fs, k);
    if n == 1 {
      InvalidatePromises(f, ps);
    } else if n > 1 {
      RemoveFuture(f, ps, fs, k);
    }
  }
}
