/**
  All the promises and futures there are, over every run of their operations. They fall into separate groups, each
  linked up; everything else is detached or settled; and no future is ever told twice.
 */
module PromiseWorld {
  import opened Options
  import opened Seqs
  import opened Promises

  datatype Group = Group(ps: seq<Promise>, fs: seq<Future>)

  /** What else a live group's links say. */
  lemma LinkedFacts(g: Group)
    requires Linked(g.ps, g.fs)
    ensures Distinct(g.ps) && Distinct(g.fs) && g.ps != [] && g.fs != []
    ensures (forall p :: p in g.ps ==> p.st != null) && (forall f :: f in g.fs ==> f.p.Pending?)
    ensures forall x :: x in Members(g.ps) <==> x in g.ps
    ensures forall x :: x in Members(g.fs) <==> x in g.fs
  {
  }

  // ---------------------------------------------------------------- groups side by side

  /** No two groups share a promise or a future, and all members are known. */
  ghost predicate Separate(groups: set<Group>, promises: set<Promise>, futures: set<Future>) {
    && (forall g :: g in groups ==> Members(g.ps) <= promises && Members(g.fs) <= futures)
    && (forall g, h :: g in groups && h in groups && g != h ==>
          Members(g.ps) !! Members(h.ps) && Members(g.fs) !! Members(h.fs))
  }

  /** Every group is linked up; a promise outside the groups has no future, and a future outside is not pending. */
  ghost predicate Linkage(groups: set<Group>, promises: set<Promise>, futures: set<Future>)
    reads promises, futures
  {
    && Separate(groups, promises, futures)
    && (forall g :: g in groups ==> Linked(g.ps, g.fs))
    && (forall p :: p in promises && p.st != null ==> exists g :: g in groups && p in Members(g.ps))
    && (forall f :: f in futures && f.p.Pending? ==> exists g :: g in groups && f in Members(g.fs))
  }

  /** A future has been told at most once, and not at all while it is pending. */
  ghost predicate Told(futures: set<Future>)
    reads futures
  {
    forall f :: f in futures ==> f.wakeups <= 1 && (f.p.Pending? ==> f.wakeups == 0)
  }

  lemma ToldMeans(futures: set<Future>)
    ensures Told(futures) <==> forall f :: f in futures ==> f.wakeups <= 1 && (f.p.Pending? ==> f.wakeups == 0)
  {
  }

  lemma ToldMore(futures: set<Future>, f: Future)
    requires Told(futures) && f.wakeups == 0
    ensures Told(futures + {f})
  {
  }

  /** What is left when one group is set aside. */
  lemma SetAside(groups: set<Group>, promises: set<Promise>, futures: set<Future>, g: Group)
    requires Linkage(groups, promises, futures) && g in groups
    ensures Linked(g.ps, g.fs) && Members(g.ps) <= promises && Members(g.fs) <= futures
    ensures Linkage(groups - {g}, promises - Members(g.ps), futures - Members(g.fs))
  {
    var rest, ps, fs := groups - {g}, promises - Members(g.ps), futures - Members(g.fs);
    forall p | p in ps && p.st != null ensures exists h :: h in rest && p in Members(h.ps) {
      var h :| h in groups && p in Members(h.ps);
      assert h in rest;
    }
    forall f | f in fs && f.p.Pending? ensures exists h :: h in rest && f in Members(h.fs) {
      var h :| h in groups && f in Members(h.fs);
      assert h in rest;
    }
  }

  /** Adding a group that is linked up. */
  lemma Join(groups: set<Group>, promises: set<Promise>, futures: set<Future>, g: Group)
    requires Linkage(groups, promises, futures) && Linked(g.ps, g.fs)
    requires Members(g.ps) !! promises && Members(g.fs) !! futures
    ensures Linkage(groups + {g}, promises + Members(g.ps), futures + Members(g.fs))
  {
    var all := groups + {g};
    forall p | p in promises + Members(g.ps) && p.st != null ensures exists h :: h in all && p in Members(h.ps) {
      if p in promises {
        var h :| h in groups && p in Members(h.ps);
        assert h in all;
      }
    }
    forall f | f in futures + Members(g.fs) && f.p.Pending? ensures exists h :: h in all && f in Members(h.fs) {
      if f in futures {
        var h :| h in groups && f in Members(h.fs);
        assert h in all;
      }
    }
  }

  /** Adding promises without a future and futures that are not pending. */
  lemma JoinLoose(groups: set<Group>, promises: set<Promise>, futures: set<Future>, ps: set<Promise>, fs: set<Future>)
    requires Linkage(groups, promises, futures)
    requires (forall p :: p in ps ==> p.st == null) && (forall f :: f in fs ==> !f.p.Pending?)
    ensures Linkage(groups, promises + ps, futures + fs)
  {
  }

  /** What is left when a promise without a future, or a future that is not pending, is set aside. */
  lemma SetLooseAside(groups: set<Group>, promises: set<Promise>, futures: set<Future>, ps: set<Promise>,
                      fs: set<Future>)
    requires Linkage(groups, promises, futures)
    requires (forall p :: p in ps ==> p.st == null) && (forall f :: f in fs ==> !f.p.Pending?)
    ensures Linkage(groups, promises - ps, futures - fs)
  {
    forall g | g in groups ensures Members(g.ps) !! ps && Members(g.fs) !! fs {
      assert Linked(g.ps, g.fs);
    }
  }

  /** And so are the futures that next pointers lead to. */
  lemma {:induction false} LeadsOnce(f: Future?, s: seq<Future>, t: seq<Future>)
    requires Leads(f, s) && Leads(f, t)
    ensures s == t
  {
    if s != [] && t != [] {
      LeadsOn(f, s);
      LeadsOn(f, t);
      LeadsOnce(s[0].next, s[1..], t[1..]);
      assert s == [s[0]] + s[1..] && t == [t[0]] + t[1..];
    }
  }

  lemma LeadsOn(f: Future?, s: seq<Future>)
    requires Leads(f, s) && s != []
    ensures f == s[0] && Leads(s[0].next, s[1..])
  {
    forall i | 0 <= i < |s| - 1 ensures s[1..][i].next == After(s[1..], i) {
      assert s[i + 1].next == After(s, i + 1);
    }
    assert s[0].next == After(s, 0);
  }

  /** A chain of promises is determined by its first one. */
  lemma {:induction false} ChainOnce(ps: seq<Promise>, qs: seq<Promise>, n: nat)
    requires PromiseChain(ps) && PromiseChain(qs) && ps[0] == qs[0] && n < |ps|
    ensures n < |qs| && ps[n] == qs[n]
  {
    if n > 0 {
      ChainOnce(ps, qs, n - 1);
      assert ps[n - 1].next == ps[n];
    }
  }

  lemma SameChain(ps: seq<Promise>, qs: seq<Promise>)
    requires PromiseChain(ps) && PromiseChain(qs) && ps[0] == qs[0]
    ensures ps == qs
  {
    ChainOnce(ps, qs, |ps| - 1);
    ChainOnce(qs, ps, |qs| - 1);
    forall n | 0 <= n < |ps| ensures ps[n] == qs[n] {
      ChainOnce(ps, qs, n);
    }
  }

  /** In any world the promises of a pending future's group are those chained from its promise. */
  lemma GroupOf(groups: set<Group>, promises: set<Promise>, futures: set<Future>, f: Future, chain: seq<Promise>)
    returns (g: Group)
    requires Linkage(groups, promises, futures) && f in futures && PromiseChain(chain) && f.p == Pending(chain[0])
    ensures g in groups && g.ps == chain && f in Members(g.fs) && Members(g.ps) <= promises
  {
    g :| g in groups && f in Members(g.fs);
    SameChain(g.ps, chain);
  }

  /** No world has a pending future whose promise's chain runs through a dead promise, or through another group. */
  lemma Spoiled(groups: set<Group>, promises: set<Promise>, futures: set<Future>, f: Future, chain: seq<Promise>,
                p: Promise, h: Group)
    requires f in futures && PromiseChain(chain) && f.p == Pending(chain[0]) && p in chain
    requires p in promises ==> World.InOtherGroup(p, h, futures, chain[0])
    ensures !Linkage(groups, promises, futures)
  {
    if Linkage(groups, promises, futures) {
      var g := GroupOf(groups, promises, futures, f, chain);
      assert p in Members(g.ps);
      var k := GroupOf(groups, promises, futures, h.fs[0], h.ps);
    }
  }

  lemma SpoiledAnyway(promises: set<Promise>, futures: set<Future>, f: Future, chain: seq<Promise>, p: Promise,
                      h: Group)
    requires f in futures && chain != [] && Linked(chain, [f]) && p in chain
    requires p in promises ==> World.InOtherGroup(p, h, futures, chain[0])
    ensures forall gs :: !Linkage(gs, promises, futures)
  {
    forall gs ensures !Linkage(gs, promises, futures) {
      Spoiled(gs, promises, futures, f, chain, p, h);
    }
  }

  // ---------------------------------------------------------------- the world

  class World {
    ghost var promises: set<Promise>
    ghost var futures: set<Future>
    ghost var groups: set<Group>

    ghost predicate Valid()
      reads this, promises, futures
    {
      Linkage(groups, promises, futures) && Told(futures)
    }

    lemma Whole()
      requires Linkage(groups, promises, futures) && Told(futures)
      ensures Valid()
    {
    }

    lemma InGroup(g: Group)
      requires Valid() && g in groups
      ensures Linked(g.ps, g.fs) && Members(g.ps) <= promises && Members(g.fs) <= futures
    {
      SetAside(groups, promises, futures, g);
    }

    /** In every reachable state no future has been told twice, and none that is pending has been told at all. */
    lemma ToldAtMostOnce(f: Future)
      requires Valid() && f in futures
      ensures f.wakeups <= 1 && (f.p.Pending? ==> f.wakeups == 0)
    {
      ToldMeans(futures);
    }

    /** A pending future has a promise left that can settle it, and a promise with a future has a pending one. */
    lemma PendingHasPromise(f: Future)
      requires Valid() && f in futures && f.p.Pending?
      ensures f.p.promise in promises && f.p.promise.st != null && f.p.promise.st in futures && f.p.promise.st.p == f.p
    {
      var g, k := FindFuture(f);
      assert g.ps[0] in g.ps && g.fs[0] in g.fs;
    }

    lemma PromisedIsPending(p: Promise)
      requires Valid() && p in promises && p.st != null
      ensures p.st in futures && p.st.p.Pending?
    {
      var g, k := FindPromise(p);
      assert g.fs[0] in g.fs;
    }

    /** The group that a promise is in, and its place there. */
    lemma FindPromise(o: Promise) returns (g: Group, k: nat)
      requires Valid() && o in promises && o.st != null
      ensures k < |g.ps| && g.ps[k] == o && Linked(g.ps, g.fs) && Aside(g) && Told(futures)
      ensures PromiseIn(o, g.ps, g.fs, k)
      ensures g in groups && (forall p :: p in g.ps ==> p in promises) && forall f :: f in g.fs ==> f in futures
    {
      g :| g in groups && o in Members(g.ps);
      k :| 0 <= k < |g.ps| && g.ps[k] == o;
      SetAside(groups, promises, futures, g);
    }

    lemma FindFuture(o: Future) returns (g: Group, k: nat)
      requires Valid() && o in futures && o.p.Pending?
      ensures k < |g.fs| && g.fs[k] == o && Linked(g.ps, g.fs) && Aside(g) && Told(futures)
      ensures g in groups && (forall p :: p in g.ps ==> p in promises) && forall f :: f in g.fs ==> f in futures
    {
      g :| g in groups && o in Members(g.fs);
      k :| 0 <= k < |g.fs| && g.fs[k] == o;
      SetAside(groups, promises, futures, g);
    }

    /** The world without a promise that has no future. */
    lemma WithoutLoose(o: Promise)
      requires Valid() && o in promises && o.st == null
      ensures Linkage(groups, promises - {o}, futures) && Told(futures) && promises - {o} + {o} == promises
    {
      SetLooseAside(groups, promises, futures, {o}, {});
      assert futures - {} == futures;
    }

    /** The world without promises that have no future. */
    lemma LooseAside(chain: seq<Promise>)
      requires Valid() && Loose(chain)
      ensures Members(chain) <= promises && Linkage(groups, promises - Members(chain), futures) && Told(futures)
    {
      SetLooseAside(groups, promises, futures, Members(chain), {});
      assert futures - {} == futures;
    }

    /**
      A promise of a chain that is not there, or belongs to a group, which is not that of the chain's first promise.
     */
    lemma InTheWay(o: Promise, chain: seq<Promise>) returns (p: Promise, h: Group)
      requires Valid() && !Loose(chain) && chain != [] && chain[0] == o && o.st == null
      ensures p in chain && Told(futures)
      ensures p in promises ==> p in h.ps && Linked(h.ps, h.fs) && h.fs[0] in futures && h.ps[0] != o
    {
      p :| p in chain && (p !in promises || p.st != null);
      h := Group([], []);
      if p in promises {
        var k;
        h, k := FindPromise(p);
        assert h.ps[0] in h.ps && h.fs[0] in h.fs;
      }
    }

    /** The world without one group. */
    ghost predicate Aside(g: Group)
      reads this, promises - Members(g.ps), futures - Members(g.fs)
    {
      && Members(g.ps) <= promises && Members(g.fs) <= futures && g in groups
      && Linkage(groups - {g}, promises - Members(g.ps), futures - Members(g.fs))
    }

    /**
      Puts a group back, with some new members; old ones that are left out have nothing to do with futures any more.
     */
    ghost method Replace(g: Group, h: Group, ps: set<Promise>, fs: set<Future>)
      requires Aside(g) && Linked(h.ps, h.fs) && ps !! promises && fs !! futures
      requires Members(h.ps) <= Members(g.ps) + ps && Members(h.fs) <= Members(g.fs) + fs
      requires forall p :: p in Members(g.ps) + ps - Members(h.ps) ==> p.st == null
      requires forall f :: f in Members(g.fs) + fs - Members(h.fs) ==> !f.p.Pending?
      modifies this
      ensures promises == old(promises) + ps && futures == old(futures) + fs && groups == old(groups) - {g} + {h}
      ensures Linkage(groups, promises, futures)
    {
      var restP, restF := promises - Members(g.ps), futures - Members(g.fs);
      var looseP, looseF := Members(g.ps) + ps - Members(h.ps), Members(g.fs) + fs - Members(h.fs);
      hide Linkage, Linked;
      Join(groups - {g}, restP, restF, h);
      JoinLoose(groups - {g} + {h}, restP + Members(h.ps), restF + Members(h.fs), looseP, looseF);
      promises := promises + ps;
      futures := futures + fs;
      groups := groups - {g} + {h};
      assert promises == restP + Members(h.ps) + looseP && futures == restF + Members(h.fs) + looseF;
    }

    /** Puts a group back without one promise, which is detached now. */
    ghost method Shrink(g: Group, k: nat)
      requires Aside(g) && Distinct(g.ps) && k < |g.ps| && g.ps[k].st == null && Linked(Without(g.ps, k), g.fs)
      modifies this
      ensures promises == old(promises) && futures == old(futures) && Linkage(groups, promises, futures)
      ensures groups == old(groups) - {g} + {Group(Without(g.ps, k), g.fs)}
    {
      hide *;
      MembersWithout(g.ps, k);
      LinkedFacts(Group(Without(g.ps, k), g.fs));
      Replace(g, Group(Without(g.ps, k), g.fs), {}, {});
    }

    /** Ends a group whose members are all cut off. */
    ghost method Dissolve(g: Group)
      requires Aside(g)
      requires (forall p :: p in Members(g.ps) ==> p.st == null) && (forall f :: f in Members(g.fs) ==> !f.p.Pending?)
      modifies this`groups
      ensures groups == old(groups) - {g} && Linkage(groups, promises, futures)
    {
      var restP, restF := promises - Members(g.ps), futures - Members(g.fs);
      JoinLoose(groups - {g}, restP, restF, Members(g.ps), Members(g.fs));
      groups := groups - {g};
      assert promises == restP + Members(g.ps) && futures == restF + Members(g.fs);
    }

    constructor ()
      ensures Valid() && promises == {} && futures == {} && groups == {}
    {
      promises, futures, groups := {}, {}, {};
    }

    // -------------------------------------------------------------- promises

    method NewPromise() returns (p: Promise)
      requires Valid()
      modifies this`promises
      ensures Valid() && fresh(p) && p.st == null && p.next == null && promises == old(promises) + {p}
    {
      p := new Promise();
      JoinLoose(groups, promises, futures, {p}, {});
      promises := promises + {p};
    }

    /** A copy joins the group of the original at the end; no future is told anything. */
    method CopyPromise(o: Promise) returns (n: Promise, ghost g: Group)
      requires Valid() && o in promises && o.st != null
      modifies this, promises`next
      ensures Valid() && fresh(n) && promises == old(promises) + {n} && futures == old(futures)
      ensures g in old(groups) && o in g.ps && groups == old(groups) - {g} + {Group(g.ps + [n], g.fs)}
    {
      hide *;
      ghost var k;
      g, k := FindPromise(o);
      LinkedFacts(g);
      n := new Promise.Copy(o, g.ps, g.fs, k);
      MembersPush(g.ps, n);
      Replace(g, Group(g.ps + [n], g.fs), {n}, {});
      Whole();
    }

    /** A promise that takes another's place. */
    static ghost predicate Moved(was: set<Group>, now: set<Group>, g: Group, k: nat, o: Promise, n: Promise) {
      g in was && k < |g.ps| && g.ps[k] == o && now == was - {g} + {Group(g.ps[k := n], g.fs)}
    }

    static lemma MovedIs(was: set<Group>, now: set<Group>, g: Group, k: nat, o: Promise, n: Promise)
      requires g in was && k < |g.ps| && g.ps[k] == o && now == was - {g} + {Group(g.ps[k := n], g.fs)}
      ensures Moved(was, now, g, k, o, n)
    {
    }

    /** A new promise takes the place of another one, which is left detached; no future is told anything. */
    method MovePromise(o: Promise) returns (n: Promise, ghost g: Group, ghost k: nat)
      requires Valid() && o in promises
      modifies this, promises`next, promises`st, futures`p
      ensures Valid() && fresh(n) && promises == old(promises) + {n} && futures == old(futures)
      ensures o.st == null && o.next == null
      ensures if old(o.st) == null then groups == old(groups) && n.st == null
              else Moved(old(groups), groups, g, k, o, n)
    {
      if o.st == null {
        g, k := Group([], []), 0;
        SetLooseAside(groups, promises, futures, {o}, {});
        assert promises - {o} + {o} == promises && futures - {} == futures;
        hide *;
        n := new Promise.Move(o, [], [], 0);
        JoinLoose(groups, promises - {o}, futures, {o, n}, {});
        promises := promises + {n};
        assert promises == old(promises) - {o} + {o, n} && futures == futures + {};
        Whole();
      } else {
        n, g, k := MoveAttached(o);
      }
    }

    method MoveAttached(o: Promise) returns (n: Promise, ghost g: Group, ghost k: nat)
      requires Valid() && o in promises && o.st != null
      modifies this, promises`next, promises`st, futures`p
      ensures Valid() && fresh(n) && promises == old(promises) + {n} && futures == old(futures)
      ensures o.st == null && o.next == null
      ensures g in old(groups) && k < |g.ps| && g.ps[k] == o
      ensures groups == old(groups) - {g} + {Group(g.ps[k := n], g.fs)}
    {
      hide *;
      g, k := FindPromise(o);
      LinkedFacts(g);
      ToldMeans(futures);
      n := new Promise.Move(o, g.ps, g.fs, k);
      MembersUpdate(g.ps, k, n);
      LinkedFacts(Group(g.ps[k := n], g.fs));
      ToldMeans(futures);
      Replace(g, Group(g.ps[k := n], g.fs), {n}, {});
      Whole();
    }

    /** What destroying a promise does before its memory is given back: it ends up detached. */
    method Vacate(o: Promise) returns (ghost g: Group, ghost k: nat)
      requires Valid() && o in promises
      modifies this, promises`st, promises`next, futures`p, futures`eptr, futures`wakeups
      ensures Valid() && o.st == null && promises == old(promises) && futures == old(futures)
      ensures Left(old(groups), groups, old(o.st), g, k, o)
      ensures forall f :: f in futures ==> f.wakeups == old(f.wakeups) + if Broken(old(o.st), g, f) then 1 else 0
      ensures forall f :: f in futures ==>
                f.eptr == if Broken(old(o.st), g, f) then Some(BrokenPromise) else old(f.eptr)
      ensures forall p :: p in promises && p != o ==> (p.st == null <==> old(p.st) == null)
    {
      if o.st == null {
        g, k := Group([], []), 0;
        o.Destroy([], [], 0);
      } else {
        g, k := VacateAttached(o);
      }
    }

    /** The group loses this promise; with its only promise it ends. */
    static ghost predicate Left(was: set<Group>, now: set<Group>, st: Future?, g: Group, k: nat, o: Promise) {
      if st == null then now == was else
      && g in was && k < |g.ps| && g.ps[k] == o
      && now == if |g.ps| == 1 then was - {g} else was - {g} + {Group(Without(g.ps, k), g.fs)}
    }

    /** Exactly the futures of a promise that was the only one left are told that it is broken. */
    static ghost predicate Broken(st: Future?, g: Group, f: Future) {
      st != null && |g.ps| == 1 && f in g.fs
    }

    method VacateAttached(o: Promise) returns (ghost g: Group, ghost k: nat)
      requires Valid() && o in promises && o.st != null
      modifies this, promises`st, promises`next, futures`p, futures`eptr, futures`wakeups
      ensures Valid() && o.st == null && promises == old(promises) && futures == old(futures)
      ensures g in old(groups) && k < |g.ps| && g.ps[k] == o
      ensures groups == if |g.ps| == 1 then old(groups) - {g} else old(groups) - {g} + {Group(Without(g.ps, k), g.fs)}
      ensures forall f :: f in futures ==> f.wakeups == old(f.wakeups) + if |g.ps| == 1 && f in g.fs then 1 else 0
      ensures forall f :: f in futures ==>
                f.eptr == if |g.ps| == 1 && f in g.fs then Some(BrokenPromise) else old(f.eptr)
      ensures forall p :: p in promises && p != o ==> (p.st == null <==> old(p.st) == null)
    {
      hide *;
      g, k := FindPromise(o);
      LinkedFacts(g);
      ToldMeans(futures);
      o.Destroy(g.ps, g.fs, k);
      ToldMeans(futures);
      if |g.ps| == 1 {
        Dissolve(g);
      } else {
        Shrink(g, k);
      }
      Whole();
    }

    /**
      Destroying a promise tells nobody while copies are left, and with the only one tells every future of its group.
     */
    method DestroyPromise(o: Promise) returns (ghost g: Group, ghost k: nat)
      requires Valid() && o in promises
      modifies this, promises`st, promises`next, futures`p, futures`eptr, futures`wakeups
      ensures Valid() && promises == old(promises) - {o} && futures == old(futures)
      ensures Left(old(groups), groups, old(o.st), g, k, o)
      ensures forall f :: f in futures ==> f.wakeups == old(f.wakeups) + if Broken(old(o.st), g, f) then 1 else 0
      ensures forall f :: f in futures ==>
                f.eptr == if Broken(old(o.st), g, f) then Some(BrokenPromise) else old(f.eptr)
    {
      hide *;
      g, k := Vacate(o);
      WithoutLoose(o);
      promises := promises - {o};
      Whole();
    }

    /**
      Move assignment: what the target's destruction tells is all that is told; then the target takes the other's
      place, in what is left of the other's group if that was also its own.
     */
    method AssignPromise(t: Promise, o: Promise)
        returns (ghost g: Group, ghost k: nat, ghost mid: set<Group>, ghost h: Group, ghost j: nat)
      requires Valid() && o in promises && t in promises && t != o
      modifies this, promises`st, promises`next, futures`p, futures`eptr, futures`wakeups
      ensures Valid() && promises == old(promises) && futures == old(futures) && o.st == null
      ensures Left(old(groups), mid, old(t.st), g, k, t)
      ensures if old(o.st) == null then groups == mid && t.st == null else Moved(mid, groups, h, j, o, t)
      ensures forall f :: f in futures ==> f.wakeups == old(f.wakeups) + if Broken(old(t.st), g, f) then 1 else 0
      ensures forall f :: f in futures ==>
                f.eptr == if Broken(old(t.st), g, f) then Some(BrokenPromise) else old(f.eptr)
    {
      g, k := Vacate(t);
      mid := groups;
      h, j := Occupy(t, o);
    }

    /** A detached promise takes another's place; no future is told anything. */
    method Occupy(t: Promise, o: Promise) returns (ghost g: Group, ghost k: nat)
      requires Valid() && o in promises && t in promises && t != o && t.st == null
      modifies this, promises`next, promises`st, futures`p
      ensures Valid() && promises == old(promises) && futures == old(futures) && o.st == null && o.next == null
      ensures if old(o.st) == null then groups == old(groups) && t.st == null
              else Moved(old(groups), groups, g, k, o, t)
    {
      if o.st == null {
        g, k := Group([], []), 0;
        OccupyDetached(t, o);
      } else {
        hide *;
        WithoutLoose(t);
        promises := promises - {t};
        Whole();
        g, k := OccupyAttached(t, o);
        MovedIs(old(groups), groups, g, k, o, t);
      }
    }

    method OccupyDetached(t: Promise, o: Promise)
      requires Valid() && o in promises && t in promises && t != o && t.st == null && o.st == null
      modifies promises`next, promises`st, futures`p
      ensures Valid() && o.st == null && o.next == null && t.st == null
    {
      SetLooseAside(groups, promises, futures, {o, t}, {});
      assert promises - {o, t} + {o, t} == promises && futures + {} == futures && futures - {} == futures;
      assert Told(futures);
      hide *;
      ToldMeans(futures);
      t.Take(o, [], [], 0);
      ToldMeans(futures);
      JoinLoose(groups, promises - {o, t}, futures, {o, t}, {});
      Whole();
    }

    method OccupyAttached(t: Promise, o: Promise) returns (ghost g: Group, ghost k: nat)
      requires Valid() && o in promises && o.st != null && t !in promises
      modifies this, promises`next, promises`st, futures`p, t`next, t`st
      ensures Valid() && promises == old(promises) + {t} && futures == old(futures) && o.st == null && o.next == null
      ensures g in old(groups) && k < |g.ps| && g.ps[k] == o
      ensures groups == old(groups) - {g} + {Group(g.ps[k := t], g.fs)}
    {
      hide *;
      g, k := FindPromise(o);
      LinkedFacts(g);
      ToldMeans(futures);
      t.Take(o, g.ps, g.fs, k);
      ToldMeans(futures);
      MembersUpdate(g.ps, k, t);
      LinkedFacts(Group(g.ps[k := t], g.fs));
      Replace(g, Group(g.ps[k := t], g.fs), {t}, {});
      Whole();
    }

    /** Settling tells every future of the group, once, and ends the group; a detached promise tells nobody. */
    method SetValue(o: Promise, v: int) returns (ghost g: Group)
      requires Valid() && o in promises
      modifies this`groups, promises`st, futures`val, futures`p, futures`wakeups
      ensures Valid() && o.st == null
      ensures if old(o.st) == null then groups == old(groups)
              else g in old(groups) && o in g.ps && groups == old(groups) - {g}
      ensures forall f :: f in futures ==> f.wakeups == old(f.wakeups) + if old(o.st) != null && f in g.fs then 1 else 0
      ensures old(o.st) != null ==> forall f :: f in g.fs ==> f in futures && f.p == Ready && f.val == Some(v)
    {
      if o.st == null {
        g := Group([], []);
        o.SetValue(v, [], [], 0);
      } else {
        g := SetValueAttached(o, v);
      }
    }

    method SetValueAttached(o: Promise, v: int) returns (ghost g: Group)
      requires Valid() && o in promises && o.st != null
      modifies this`groups, promises`st, futures`val, futures`p, futures`wakeups
      ensures Valid() && o.st == null && g in old(groups) && o in g.ps && groups == old(groups) - {g}
      ensures forall f :: f in futures ==> f.wakeups == old(f.wakeups) + if f in g.fs then 1 else 0
      ensures forall f :: f in g.fs ==> f in futures && f.p == Ready && f.val == Some(v)
    {
      hide *;
      ghost var k;
      g, k := FindPromise(o);
      LinkedFacts(g);
      ToldMeans(futures);
      o.SetValue(v, g.ps, g.fs, k);
      ToldMeans(futures);
      Dissolve(g);
      Whole();
    }

    method SetException(o: Promise, e: Error) returns (ghost g: Group)
      requires Valid() && o in promises
      modifies this`groups, promises`st, futures`eptr, futures`p, futures`wakeups
      ensures Valid() && o.st == null
      ensures if old(o.st) == null then groups == old(groups)
              else g in old(groups) && o in g.ps && groups == old(groups) - {g}
      ensures forall f :: f in futures ==> f.wakeups == old(f.wakeups) + if old(o.st) != null && f in g.fs then 1 else 0
      ensures old(o.st) != null ==> forall f :: f in g.fs ==> f in futures && f.p == Ready && f.eptr == Some(e)
    {
      if o.st == null {
        g := Group([], []);
        o.SetException(e, [], [], 0);
      } else {
        g := SetExceptionAttached(o, e);
      }
    }

    method SetExceptionAttached(o: Promise, e: Error) returns (ghost g: Group)
      requires Valid() && o in promises && o.st != null
      modifies this`groups, promises`st, futures`eptr, futures`p, futures`wakeups
      ensures Valid() && o.st == null && g in old(groups) && o in g.ps && groups == old(groups) - {g}
      ensures forall f :: f in futures ==> f.wakeups == old(f.wakeups) + if f in g.fs then 1 else 0
      ensures forall f :: f in g.fs ==> f in futures && f.p == Ready && f.eptr == Some(e)
    {
      hide *;
      ghost var k;
      g, k := FindPromise(o);
      LinkedFacts(g);
      ToldMeans(futures);
      o.SetException(e, g.ps, g.fs, k);
      ToldMeans(futures);
      Dissolve(g);
      Whole();
    }

    // -------------------------------------------------------------- futures

    /** A future of its own, or one that is ready from the start. */
    method NewFuture(already: bool) returns (f: Future)
      requires Valid()
      modifies this`futures
      ensures Valid() && fresh(f) && futures == old(futures) + {f} && f.p == (if already then Ready else Invalid)
      ensures f.wakeups == 0
    {
      if already {
        f := new Future.Already();
      } else {
        f := new Future();
      }
      JoinLoose(groups, promises, futures, {}, {f});
      assert promises + {} == promises;
      futures := futures + {f};
    }

    /** Every promise of the chain is there and without a future. */
    ghost predicate Loose(chain: seq<Promise>)
      reads this`promises, chain
    {
      forall p :: p in chain ==> p in promises && p.st == null
    }

    /**
      A future for a promise: it joins the promise's group, or makes one of a promise that has none and of whatever
      is chained behind it. After settling that can be promises that have another future by now, or none any more:
      the world is kept if and only if they all are there and without a future.
     */
    method AttachFuture(o: Promise, ghost chain: seq<Promise>) returns (f: Future, ghost g: Group)
      requires Valid() && o in promises && (o.st == null ==> PromiseChain(chain) && chain[0] == o)
      modifies this, promises`st, chain`st, futures`next
      ensures fresh(f) && futures == old(futures) + {f} && promises == old(promises) && f.wakeups == 0
      ensures old(o.st) != null ==> Valid() && g in old(groups) && o in g.ps
      ensures old(o.st) != null ==> groups == old(groups) - {g} + {Group(g.ps, g.fs + [f])}
      ensures old(o.st) == null && old(Loose(chain)) ==> Valid() && groups == old(groups) + {Group(chain, [f])}
      ensures old(o.st) == null && !old(Loose(chain)) ==> forall gs :: !Linkage(gs, promises, futures)
      ensures old(o.st) == null ==> forall p :: p in chain ==> p.st == f
    {
      if o.st == null {
        g := Group([], []);
        f := AttachFirst(o, chain);
      } else {
        f, g := AttachMore(o);
      }
    }

    method AttachMore(o: Promise) returns (f: Future, ghost g: Group)
      requires Valid() && o in promises && o.st != null
      modifies this, promises`st, futures`next
      ensures Valid() && fresh(f) && futures == old(futures) + {f} && promises == old(promises) && f.wakeups == 0
      ensures g in old(groups) && o in g.ps && groups == old(groups) - {g} + {Group(g.ps, g.fs + [f])}
    {
      hide *;
      ghost var k;
      g, k := FindPromise(o);
      LinkedFacts(g);
      ToldMeans(futures);
      f := new Future.Attach(o, g.ps, g.fs);
      MembersPush(g.fs, f);
      LinkedFacts(Group(g.ps, g.fs + [f]));
      Replace(g, Group(g.ps, g.fs + [f]), {}, {f});
      ToldMeans(futures);
      Whole();
    }

    method AttachFirst(o: Promise, ghost chain: seq<Promise>) returns (f: Future)
      requires Valid() && o in promises && o.st == null && PromiseChain(chain) && chain[0] == o
      modifies this, promises`st, chain`st
      ensures fresh(f) && futures == old(futures) + {f} && promises == old(promises) && f.wakeups == 0
      ensures old(Loose(chain)) ==> Valid() && groups == old(groups) + {Group(chain, [f])}
      ensures !old(Loose(chain)) ==> forall gs :: !Linkage(gs, promises, futures)
      ensures forall p :: p in chain ==> p.st == f
    {
      ghost var loose := Loose(chain);
      ghost var p, h := Prospect(o, chain);
      hide *;
      ToldMeans(futures);
      f := new Future.Attach(o, chain, []);
      AllPointAt(chain, f);
      ToldMeans(futures);
      Conclude(loose, chain, f, p, h);
    }

    /** Before attaching: what the world is without the chain, or what stands in the way. */
    lemma Prospect(o: Promise, chain: seq<Promise>) returns (p: Promise, h: Group)
      requires Valid() && o in promises && o.st == null && chain != [] && chain[0] == o
      ensures Told(futures) && forall x :: x in Members(chain) <==> x in chain
      ensures Loose(chain) ==> Members(chain) <= promises && Linkage(groups, promises - Members(chain), futures)
      ensures !Loose(chain) ==> p in chain && (p in promises ==> InOtherGroup(p, h, futures, o))
    {
      p, h := o, Group([], []);
      if Loose(chain) {
        LooseAside(chain);
      } else {
        p, h := InTheWay(o, chain);
      }
    }

    /** After attaching: the world with the new group, or none. */
    ghost method Conclude(loose: bool, chain: seq<Promise>, f: Future, p: Promise, h: Group)
      requires Told(futures) && Linked(chain, [f]) && f !in futures && f.wakeups == 0 && chain != []
      requires loose ==> Members(chain) <= promises && Linkage(groups, promises - Members(chain), futures)
      requires !loose ==> p in chain && (p in promises ==> InOtherGroup(p, h, futures, chain[0]))
      modifies this`groups, this`futures
      ensures futures == old(futures) + {f}
      ensures if loose then Valid() && groups == old(groups) + {Group(chain, [f])}
              else forall gs :: !Linkage(gs, promises, futures)
    {
      if loose {
        TakeIn(chain, f);
      } else {
        futures := futures + {f};
        SpoiledAnyway(promises, futures, f, chain, p, h);
      }
    }

    static lemma AllPointAt(chain: seq<Promise>, f: Future)
      requires Linked(chain, [f])
      ensures forall p :: p in chain ==> p.st == f
    {
    }

    /** The promise belongs to a group that begins with another promise than this one. */
    static ghost predicate InOtherGroup(p: Promise, h: Group, futures: set<Future>, o: Promise)
      reads h.ps`next, h.fs`p
    {
      && p in h.ps && PromiseChain(h.ps) && h.ps[0] != o
      && h.fs != [] && h.fs[0] in futures && h.fs[0].p == Pending(h.ps[0])
    }

    ghost method TakeIn(chain: seq<Promise>, f: Future)
      requires Members(chain) <= promises && Linkage(groups, promises - Members(chain), futures) && Told(futures)
      requires Linked(chain, [f]) && f !in futures && f.wakeups == 0
      modifies this`groups, this`futures
      ensures Valid() && futures == old(futures) + {f} && groups == old(groups) + {Group(chain, [f])}
    {
      ToldMore(futures, f);
      MembersOfOne(f);
      hide Linkage, Linked, Told;
      Join(groups, promises - Members(chain), futures, Group(chain, [f]));
      assert promises == promises - Members(chain) + Members(chain);
      futures := futures + {f};
      groups := groups + {Group(chain, [f])};
    }

    lemma MembersOfOne(f: Future)
      ensures Members([f]) == {f}
    {
      MembersPush([], f);
      assert [] + [f] == [f];
    }

    /** A copy of a pending future joins its group. */
    method CopyFuture(o: Future) returns (n: Future, ghost g: Group)
      requires Valid() && o in futures && o.p.Pending?
      modifies this, futures`next
      ensures Valid() && fresh(n) && futures == old(futures) + {n} && promises == old(promises) && n.wakeups == 0
      ensures g in old(groups) && o in g.fs && groups == old(groups) - {g} + {Group(g.ps, g.fs + [n])}
    {
      hide *;
      ghost var k;
      g, k := FindFuture(o);
      LinkedFacts(g);
      ToldMeans(futures);
      n := new Future.Copy(o, g.ps, g.fs, k);
      MembersPush(g.fs, n);
      LinkedFacts(Group(g.ps, g.fs + [n]));
      Replace(g, Group(g.ps, g.fs + [n]), {}, {n});
      ToldMeans(futures);
      Whole();
    }

    /** A new future takes a pending one's place. */
    method MovePending(o: Future) returns (n: Future, ghost g: Group, ghost k: nat)
      requires Valid() && o in futures && o.p.Pending?
      modifies this, futures`p, futures`next, promises`st
      ensures Valid() && fresh(n) && futures == old(futures) + {n} && promises == old(promises) && n.wakeups == 0
      ensures g in old(groups) && k < |g.fs| && g.fs[k] == o
      ensures groups == old(groups) - {g} + {Group(g.ps, g.fs[k := n])}
      ensures o.p == Invalid
    {
      hide *;
      g, k := FindFuture(o);
      LinkedFacts(g);
      ToldMeans(futures);
      n := new Future.Move(o, g.ps, g.fs, k, []);
      MembersUpdate(g.fs, k, n);
      LinkedFacts(Group(g.ps, g.fs[k := n]));
      Replace(g, Group(g.ps, g.fs[k := n]), {}, {n});
      ToldMeans(futures);
      Whole();
    }

    /**
      The futures that a settled one still leads to, over the next pointer it had in its group. Moving it follows
      them to the end, so they must all be there, and not lead back to it.
     */
    ghost predicate Movable(o: Future, stale: seq<Future>)
      reads this`futures, o`next, stale`next
    {
      Leads(o.next, stale) && o !in stale && Members(stale) <= futures
    }

    /** There is only one such chain; it is followed safely if and only if no future on it has been destroyed. */
    lemma MovableIff(o: Future, stale: seq<Future>)
      requires Leads(o.next, stale) && o !in stale
      ensures (exists s :: Movable(o, s)) <==> forall f :: f in stale ==> f in futures
    {
      forall s | Movable(o, s) ensures s == stale {
        LeadsOnce(o.next, s, stale);
      }
      if Members(stale) <= futures {
        assert Movable(o, stale);
      }
    }

    /** A settled future hands its state to a new one. */
    method MoveSettled(o: Future, ghost stale: seq<Future>) returns (n: Future)
      requires Valid() && o in futures && !o.p.Pending? && Movable(o, stale)
      modifies this`futures, futures`p, futures`next
      ensures Valid() && fresh(n) && futures == old(futures) + {n}
      ensures n.p == old(o.p) && o.p == Invalid && n.wakeups == 0
    {
      SetLooseAside(groups, promises, futures, {}, {o});
      assert promises - {} == promises && promises + {} == promises;
      ToldMeans(futures);
      hide Linkage, Linked, Told;
      n := new Future.Move(o, [], [], 0, stale);
      JoinLoose(groups, promises, futures - {o}, {}, {o, n});
      assert futures - {o} + {o, n} == futures + {n};
      futures := futures + {n};
      ToldMeans(futures);
    }

    /** Destroying a future: the only one of a group cuts its promises off and ends it; nobody is told anything. */
    method DestroyFuture(o: Future) returns (ghost g: Group, ghost k: nat)
      requires Valid() && o in futures
      modifies this, futures`p, futures`next, promises`st
      ensures Valid() && futures == old(futures) - {o} && promises == old(promises)
      ensures !old(o.p).Pending? ==> groups == old(groups)
      ensures !old(o.p).Pending? ==> forall f :: f in futures ==> f.next == old(f.next) && f.p == old(f.p)
      ensures old(o.p).Pending? ==> g in old(groups) && k < |g.fs| && g.fs[k] == o
      ensures old(o.p).Pending? ==>
                groups == if |g.fs| == 1 then old(groups) - {g} else old(groups) - {g} + {Group(g.ps, Without(g.fs, k))}
    {
      if !o.p.Pending? {
        g, k := Group([], []), 0;
        Promises.DestroyFuture(o, [], [], 0);
        SetLooseAside(groups, promises, futures, {}, {o});
        assert promises - {} == promises;
        futures := futures - {o};
      } else {
        g, k := DestroyPending(o);
      }
    }

    method DestroyPending(o: Future) returns (ghost g: Group, ghost k: nat)
      requires Valid() && o in futures && o.p.Pending?
      modifies this, futures`p, futures`next, promises`st
      ensures Valid() && futures == old(futures) - {o} && promises == old(promises)
      ensures g in old(groups) && k < |g.fs| && g.fs[k] == o
      ensures groups == if |g.fs| == 1 then old(groups) - {g} else old(groups) - {g} + {Group(g.ps, Without(g.fs, k))}
    {
      hide *;
      g, k := FindFuture(o);
      LinkedFacts(g);
      ToldMeans(futures);
      Promises.DestroyFuture(o, g.ps, g.fs, k);
      if |g.fs| == 1 {
        EndWithFuture(g, o);
      } else {
        MembersWithout(g.fs, k);
        LinkedFacts(Group(g.ps, Without(g.fs, k)));
        Replace(g, Group(g.ps, Without(g.fs, k)), {}, {});
        SetLooseAside(groups, promises, futures, {}, {o});
        assert promises - {} == promises;
        futures := futures - {o};
      }
      ToldMeans(futures);
      Whole();
    }

    ghost method EndWithFuture(g: Group, o: Future)
      requires Aside(g) && Members(g.fs) == {o} && forall p :: p in Members(g.ps) ==> p.st == null
      modifies this`groups, this`futures
      ensures groups == old(groups) - {g} && futures == old(futures) - {o} && Linkage(groups, promises, futures)
    {
      JoinLoose(groups - {g}, promises - Members(g.ps), futures - {o}, Members(g.ps), {});
      groups := groups - {g};
      futures := futures - {o};
      assert promises == promises - Members(g.ps) + Members(g.ps) && futures + {} == futures;
    }
  }

  // ---------------------------------------------------------------- runs that go wrong

  /** A world with one promise and its future. */
  method PromisedFuture() returns (w: World, p: Promise, f: Future)
    ensures fresh(w) && w.Valid() && fresh(w.promises) && fresh(w.futures)
    ensures w.promises == {p} && w.futures == {f} && w.groups == {Group([p], [f])} && p.st != null && f.p.Pending?
  {
    w := new World();
    p := w.NewPromise();
    assert PromiseChain([p]);
    ghost var g;
    f, g := w.AttachFuture(p, [p]);
    w.InGroup(Group([p], [f]));
    LinkedFacts(Group([p], [f]));
  }

  lemma FutureLinks(p: Promise, f: Future, b: Future)
    requires Linked([p], [f, b])
    ensures p.st == f && f.next == b && b.next == null && f != b
  {
  }

  lemma PromiseLinks(p: Promise, b: Promise, f: Future)
    requires Linked([p, b], [f])
    ensures p.st == f && p.next == b && b.next == null && p != b
  {
    assert [p, b][0].next == [p, b][1];
  }

  /** One promise with a future and a copy of it; the future leads to the copy. */
  method SharedFuture() returns (w: World, p: Promise, f: Future, b: Future)
    ensures fresh(w) && w.Valid() && p in w.promises && f in w.futures && b in w.futures && f != b
    ensures fresh(w.promises) && fresh(w.futures) && w.groups == {Group([p], [f, b])}
    ensures p.st == f && f.next == b && b.next == null
  {
    w, p, f := PromisedFuture();
    hide World.Valid;
    hide Linked;
    ghost var h;
    b, h := w.CopyFuture(f);
    assert [f] + [b] == [f, b];
    assert w.groups == {Group([p], [f, b])};
    w.InGroup(Group([p], [f, b]));
    FutureLinks(p, f, b);
  }

  /** The future and its copy are settled, and the copy is destroyed: the future may not be moved any more. */
  method LeadsToDestroyed() returns (w: World, f: Future)
    ensures fresh(w) && w.Valid() && f in w.futures && f.p == Ready && forall stale :: !w.Movable(f, stale)
  {
    var p, b;
    w, p, f, b := SharedFuture();
    ghost var g := w.SetValue(p, 1);
    ghost var h, k := w.DestroyFuture(b);
    forall stale ensures !w.Movable(f, stale) {
      assert Leads(f.next, stale) ==> b in stale;
    }
  }

  /**
    Of two copies of a settled promise the second gets a new future and then the first one: it takes the second
    away from its future, and no grouping makes a world of what is left.
   */
  method LeadsToAttached() returns (w: World, p: Promise, b: Promise, f: Future)
    ensures fresh(w) && p in w.promises && b in w.promises && f in w.futures && f.p == Pending(b) && b.st != f
    ensures forall gs :: !Linkage(gs, w.promises, w.futures)
  {
    w, p, b, f := SecondAttached();
    hide World.Valid;
    hide Linkage;
    assert b in [p, b];
    var last;
    ghost var h;
    last, h := w.AttachFuture(p, [p, b]);
  }

  method SecondAttached() returns (w: World, p: Promise, b: Promise, f: Future)
    ensures fresh(w) && w.Valid() && p in w.promises && b in w.promises && f in w.futures
    ensures fresh(w.promises) && fresh(w.futures) && p.st == null && PromiseChain([p, b]) && b.st == f
    ensures f.p == Pending(b)
  {
    w, p, b := SettledCopies();
    assert PromiseChain([b]) && PromiseChain([p, b]);
    hide World.Valid;
    hide Linkage;
    hide PromiseChain;
    ghost var g;
    f, g := w.AttachFuture(b, [b]);
    assert b in [b];
    w.InGroup(Group([b], [f]));
    PromiseOf(b, f);
  }

  lemma PromiseOf(b: Promise, f: Future)
    requires Linked([b], [f])
    ensures f.p == Pending(b) && b.st == f
  {
    assert f in [f] && b in [b];
  }

  /** Two copies of a promise that has been settled: the first still leads to the second. */
  method SettledCopies() returns (w: World, p: Promise, b: Promise)
    ensures fresh(w) && w.Valid() && p in w.promises && b in w.promises && p != b && w.groups == {}
    ensures fresh(w.promises) && fresh(w.futures) && p.st == null && b.st == null && p.next == b && b.next == null
  {
    var f;
    w, p, f := PromisedFuture();
    hide Linked;
    ghost var h;
    b, h := w.CopyPromise(p);
    assert [p] + [b] == [p, b];
    assert w.groups == {Group([p, b], [f])};
    w.InGroup(Group([p, b], [f]));
    PromiseLinks(p, b, f);
    h := w.SetValue(p, 1);
  }
}
