/** The intrusive doubly linked list of contexts. */
module CtxList {
  import opened Contexts
  import opened Seqs

  class List {
    var head: Ctx?
    var tail: Ctx?
    ghost var elems: seq<Ctx>

    /** The links spell out the sequence, in both directions. */
    ghost predicate Valid()
      reads this, elems`prev, elems`next
    {
      && Distinct(elems)
      && (elems == [] ==> head == null && tail == null)
      && (elems != [] ==>
            && head == elems[0] && tail == elems[|elems| - 1]
            && head.prev == null && tail.next == null)
      && (forall i {:trigger elems[i].next} :: 0 <= i < |elems| - 1 ==> elems[i].next == elems[i + 1])
      && (forall i {:trigger elems[i].prev} :: 0 < i < |elems| ==> elems[i].prev == elems[i - 1])
    }

    lemma NextIs(n: nat)
      requires Valid() && n < |elems|
      ensures elems[n].next == if n + 1 < |elems| then elems[n + 1] else null
    {
    }

    constructor ()
      ensures Valid() && elems == []
    {
      head, tail, elems := null, null, [];
    }

    method PushFront(c: Ctx)
      requires Valid() && c !in elems && c.prev == null && c.next == null
      modifies this, c`prev, c`next, elems`prev
      ensures Valid() && elems == [c] + old(elems)
    {
      elems := [c] + elems;
      if head == null {
        head := c;
        tail := c;
        return;
      }
      head.prev := c;
      c.next := head;
      head := c;
    }

    method PushBack(c: Ctx)
      requires Valid() && c !in elems && c.prev == null && c.next == null
      modifies this, c`prev, c`next, elems`next
      ensures Valid() && elems == old(elems) + [c]
    {
      elems := elems + [c];
      if tail == null {
        head := c;
        tail := c;
        return;
      }
      tail.next := c;
      c.prev := tail;
      tail := c;
    }

    method PopFront() returns (c: Ctx?)
      requires Valid()
      modifies this, elems`prev, elems`next
      ensures Valid()
      ensures old(elems) == [] ==> c == null && elems == []
      ensures old(elems) != [] ==> c == old(elems)[0] && elems == old(elems)[1..] && c.prev == null && c.next == null
    {
      c := head;
      if c == null {
        return;
      }
      if c.next == null {
        head := null;
        tail := null;
      } else {
        c.next.prev := null;
        head := c.next;
      }
      c.prev := null;
      c.next := null;
      elems := elems[1..];
    }

    method PopBack() returns (c: Ctx?)
      requires Valid()
      modifies this, elems`prev, elems`next
      ensures Valid()
      ensures old(elems) == [] ==> c == null && elems == []
      ensures old(elems) != [] ==> c == old(elems)[|old(elems)| - 1] && elems == old(elems)[..|old(elems)| - 1]
                                   && c.prev == null && c.next == null
    {
      c := tail;
      if c == null {
        return;
      }
      if c.prev == null {
        head := null;
        tail := null;
      } else {
        c.prev.next := null;
        tail := c.prev;
      }
      c.prev := null;
      c.next := null;
      elems := elems[..|elems| - 1];
    }

    method Remove(c: Ctx, ghost k: nat)
      requires Valid() && k < |elems| && elems[k] == c
      modifies this, elems`prev, elems`next
      ensures Valid() && elems == old(elems)[..k] + old(elems)[k + 1..]
      ensures c.prev == null && c.next == null
    {
      if c == head {
        var _ := PopFront();
        return;
      }
      if c == tail {
        var _ := PopBack();
        return;
      }
      c.next.prev := c.prev;
      c.prev.next := c.next;
      c.next := null;
      c.prev := null;
      elems := elems[..k] + elems[k + 1..];
    }

    predicate IsEmpty()
      reads this
    {
      head == null
    }

    /** The contexts that for_each hands to its closure, in order. */
    method ForEach() returns (visited: seq<Ctx>)
      requires Valid()
      ensures visited == elems
    {
      visited := [];
      var cur := head;
      while cur != null
        invariant |visited| <= |elems| && visited == elems[..|visited|]
        invariant cur == if |visited| < |elems| then elems[|visited|] else null
        decreases |elems| - |visited|
      {
        visited := visited + [cur];
        cur := cur.next;
      }
    }

    /** The contexts that rfor_each hands to its closure: the same ones, backwards. */
    method RForEach() returns (visited: seq<Ctx>)
      requires Valid()
      ensures |visited| == |elems| && forall k :: 0 <= k < |visited| ==> visited[k] == elems[|elems| - 1 - k]
    {
      visited := [];
      var cur := tail;
      while cur != null
        invariant |visited| <= |elems| && forall k :: 0 <= k < |visited| ==> visited[k] == elems[|elems| - 1 - k]
        invariant cur == if |visited| < |elems| then elems[|elems| - 1 - |visited|] else null
        decreases |elems| - |visited|
      {
        visited := visited + [cur];
        cur := cur.prev;
      }
    }

    method Size() returns (n: nat)
      requires Valid()
      ensures n == |elems|
    {
      var visited := ForEach();
      return |visited|;
    }

    /** Whether the context is among those listed. */
    method Contains(c: Ctx) returns (found: bool)
      requires Valid()
      ensures found <==> c in elems
    {
      var cur := head;
      ghost var n := 0;
      while cur != null
        invariant n <= |elems| && c !in elems[..n]
        invariant cur == if n < |elems| then elems[n] else null
        decreases |elems| - n
      {
        if cur == c {
          return true;
        }
        cur := cur.next;
        n := n + 1;
      }
      return false;
    }
  }
}
