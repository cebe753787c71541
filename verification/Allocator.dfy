/**
  The next-fit bitmap allocator. One bit stands for one element of a pool; a search for a window of clear bits
  begins where the previous allocation ended and wraps round once.
 */
module Allocator {
  import opened Options

  /** Counts and positions of the search are 32-bit. */
  const WIDTH: nat := 0x1_0000_0000

  datatype Block = Block(pos: nat, len: nat)

  // -------------------------------------------------------------- windows

  ghost predicate Clear(bits: seq<bool>, pos: nat, n: nat) {
    pos + n <= |bits| && forall k :: pos <= k < pos + n ==> !bits[k]
  }

  /** No window of n clear bits starts in [lo, until) and ends by hi. */
  ghost predicate NoneStarts(bits: seq<bool>, lo: nat, until: nat, hi: nat, n: nat) {
    forall q: nat :: lo <= q < until && q + n <= hi ==> !Clear(bits, q, n)
  }

  ghost predicate NoWindow(bits: seq<bool>, lo: nat, hi: nat, n: nat) {
    NoneStarts(bits, lo, hi + 1, hi, n)
  }

  /** The lowest clear window of n bits within [lo, hi) is at p. */
  ghost predicate Lowest(bits: seq<bool>, lo: nat, hi: nat, n: nat, p: nat) {
    lo <= p && p + n <= hi && Clear(bits, p, n) && NoneStarts(bits, lo, p, hi, n)
  }

  /** What the search answers: first at or above `last`, then wholly below it, else past the end. */
  ghost predicate Answer(bits: seq<bool>, last: nat, n: nat, p: nat) {
    || Lowest(bits, last, |bits|, n, p)
    || (NoWindow(bits, last, |bits|, n) && Lowest(bits, 0, last, n, p))
    || (NoWindow(bits, last, |bits|, n) && NoWindow(bits, 0, last, n) && p == |bits|)
  }

  /** The search has one answer. */
  lemma AnswerIsUnique(bits: seq<bool>, last: nat, n: nat, p: nat, q: nat)
    requires last <= |bits| && Answer(bits, last, n, p) && Answer(bits, last, n, q)
    ensures p == q
  {
    assert Lowest(bits, last, |bits|, n, p) ==> !NoWindow(bits, last, |bits|, n);
    assert Lowest(bits, last, |bits|, n, q) ==> !NoWindow(bits, last, |bits|, n);
    assert Lowest(bits, 0, last, n, p) ==> !NoWindow(bits, 0, last, n);
    assert Lowest(bits, 0, last, n, q) ==> !NoWindow(bits, 0, last, n);
  }

  lemma NoOther(bits: seq<bool>, last: nat, n: nat)
    requires last <= |bits| && Answer(bits, last, n, |bits|)
    ensures forall p: nat :: Answer(bits, last, n, p) ==> p == |bits|
  {
    forall p: nat | Answer(bits, last, n, p) ensures p == |bits| {
      AnswerIsUnique(bits, last, n, p, |bits|);
    }
  }

  /** The search fails exactly when every clear window that is left straddles `last`. */
  lemma FailsIffOnlyStraddling(bits: seq<bool>, last: nat, n: nat, p: nat)
    requires 1 <= n && last <= |bits| && Answer(bits, last, n, p)
    ensures p == |bits| <==> forall q: nat :: Clear(bits, q, n) ==> q < last < q + n
  {
    if p == |bits| {
      assert NoWindow(bits, last, |bits|, n) && NoWindow(bits, 0, last, n);
      forall q: nat | Clear(bits, q, n) ensures q < last < q + n {
      }
    } else {
      assert Clear(bits, p, n);
    }
  }

  /** A single element is refused exactly when none is free. */
  lemma OneFailsIffFull(bits: seq<bool>, last: nat, p: nat)
    requires last <= |bits| && Answer(bits, last, 1, p)
    ensures p == |bits| <==> forall k :: 0 <= k < |bits| ==> bits[k]
  {
    FailsIffOnlyStraddling(bits, last, 1, p);
    forall k: nat | k < |bits| ensures Clear(bits, k, 1) <==> !bits[k] {
    }
    if forall k :: 0 <= k < |bits| ==> bits[k] {
      forall q: nat ensures !Clear(bits, q, 1) {
        assert q < |bits| ==> bits[q];
      }
    }
  }

  /** An empty pool of 2n - 2 elements refuses n of them when the search begins in its middle. */
  lemma EmptyPoolRefuses(n: nat)
    requires n >= 2
    ensures var bits := seq(2 * n - 2, _ => false);
            Clear(bits, 0, n) && Answer(bits, n - 1, n, |bits|)
  {
    var bits := seq(2 * n - 2, _ => false);
    assert Clear(bits, 0, n);
    assert NoWindow(bits, n - 1, |bits|, n) && NoWindow(bits, 0, n - 1, n);
  }

  /** Straight after a block is given back, any request it can hold is answered with its place. */
  lemma FreedIsReused(bits: seq<bool>, pos: nat, n: nat, m: nat, p: nat)
    requires Clear(bits, pos, n) && 1 <= m <= n && Answer(bits, pos, m, p)
    ensures p == pos
  {
    assert Clear(bits, pos, m);
    assert Lowest(bits, pos, |bits|, m, pos);
    AnswerIsUnique(bits, pos, m, p, pos);
  }

  // -------------------------------------------------------------- live blocks

  ghost predicate Within(b: Block, k: int) {
    b.pos <= k < b.pos + b.len
  }

  /** The live blocks are in range and disjoint, and together they are the set bits. */
  ghost predicate Tiled(bits: seq<bool>, live: set<Block>) {
    && (forall b :: b in live ==> 1 <= b.len && b.pos + b.len <= |bits|)
    && (forall b, c :: b in live && c in live && b != c ==> b.pos + b.len <= c.pos || c.pos + c.len <= b.pos)
    && (forall b, k :: b in live && Within(b, k) ==> bits[k])
    && (forall k :: 0 <= k < |bits| && bits[k] ==> exists b :: b in live && Within(b, k))
  }

  /** The bits with the window [pos, pos + n) all set to `to`. */
  ghost predicate Painted(was: seq<bool>, bits: seq<bool>, pos: nat, n: nat, to: bool) {
    && |bits| == |was|
    && forall k :: 0 <= k < |bits| ==> bits[k] == if pos <= k < pos + n then to else was[k]
  }

  lemma TiledAdd(was: seq<bool>, bits: seq<bool>, live: set<Block>, b: Block)
    requires Tiled(was, live) && b.len >= 1 && Clear(was, b.pos, b.len) && Painted(was, bits, b.pos, b.len, true)
    ensures Tiled(bits, live + {b}) && b !in live
  {
    assert Within(b, b.pos);
    forall c | c in live ensures b.pos + b.len <= c.pos || c.pos + c.len <= b.pos {
      assert Within(c, c.pos);
      assert !Within(c, b.pos);
    }
    forall k | 0 <= k < |bits| && bits[k] ensures exists c :: c in live + {b} && Within(c, k) {
      if Within(b, k) {
        assert b in live + {b};
      } else {
        var c :| c in live && Within(c, k);
        assert c in live + {b};
      }
    }
  }

  lemma TiledRemove(was: seq<bool>, bits: seq<bool>, live: set<Block>, b: Block)
    requires Tiled(was, live) && b in live && Painted(was, bits, b.pos, b.len, false)
    ensures Tiled(bits, live - {b})
  {
    forall c, k | c in live - {b} && Within(c, k) ensures bits[k] {
      assert was[k];
    }
    forall k | 0 <= k < |bits| && bits[k] ensures exists c :: c in live - {b} && Within(c, k) {
      var c :| c in live && Within(c, k);
      assert c in live - {b};
    }
  }

  // -------------------------------------------------------------- the allocator

  class State {
    const avail: array<bool>
    var last: nat
    ghost var live: set<Block>

    ghost predicate Valid()
      reads this, avail
    {
      avail.Length < WIDTH && last <= avail.Length && Tiled(avail[..], live)
    }

    constructor (size: nat)
      requires size < WIDTH
      ensures Valid() && fresh(avail) && avail.Length == size && last == 0 && live == {}
      ensures forall k :: 0 <= k < size ==> !avail[k]
    {
      avail := new bool[size](_ => false);
      last, live := 0, {};
    }

    /** Where [from, ret) ends in a run of n - rem clear bits and holds no window of n that starts before it. */
    ghost predicate Scanned(from: nat, ret: nat, rem: nat, n: nat)
      reads avail
    {
      && rem <= n && from + (n - rem) <= ret <= avail.Length
      && Clear(avail[..], ret - (n - rem), n - rem)
      && NoneStarts(avail[..], from, ret - (n - rem), avail.Length, n)
    }

    lemma ScanStep(from: nat, ret: nat, rem: nat, n: nat)
      requires Scanned(from, ret, rem, n) && ret < avail.Length && 0 < rem
      ensures avail[ret] ==> Scanned(from, ret + 1, n, n)
      ensures !avail[ret] ==> Scanned(from, ret + 1, rem - 1, n)
    {
      var bits := avail[..];
      if bits[ret] {
        forall q: nat | from <= q < ret + 1 && q + n <= |bits| ensures !Clear(bits, q, n) {
          assert q < ret - (n - rem) || q <= ret < q + n;
        }
      }
    }

    lemma ScanFound(from: nat, hi: nat, ret: nat, n: nat)
      requires Scanned(from, ret, 0, n) && ret <= hi <= avail.Length
      ensures Lowest(avail[..], from, hi, n, ret - n)
    {
    }

    lemma ScanMissed(from: nat, hi: nat, rem: nat, n: nat)
      requires Scanned(from, hi, rem, n) && 0 < rem && hi <= avail.Length
      ensures NoWindow(avail[..], from, hi, n)
    {
    }

    /** A count that does not fit 32 bits is searched for as its remainder. */
    method Next(n: nat) returns (pos: nat)
      requires Valid()
      ensures Answer(avail[..], last, n % WIDTH, pos)
    {
      var count := n % WIDTH;
      var ret: nat, rem: nat := last, count;
      while ret < avail.Length && rem != 0
        invariant Scanned(last, ret, rem, count)
      {
        ScanStep(last, ret, rem, count);
        if avail[ret] {
          rem := count;
        } else {
          rem := rem - 1;
        }
        ret := ret + 1;
      }
      if rem == 0 {
        ScanFound(last, avail.Length, ret, count);
        return ret - count;
      }
      ScanMissed(last, avail.Length, rem, count);

      ret, rem := 0, count;
      while ret < last && rem != 0
        invariant ret <= last && Scanned(0, ret, rem, count)
      {
        ScanStep(0, ret, rem, count);
        if avail[ret] {
          rem := count;
        } else {
          rem := rem - 1;
        }
        ret := ret + 1;
      }
      if rem != 0 {
        ScanMissed(0, last, rem, count);
        return avail.Length;
      }
      ScanFound(0, last, ret, count);
      return ret - count;
    }

    /**
      There is room, as far as the search can tell, exactly when some clear window does not straddle `last`.
      Nothing asked for is found unless the last allocation ended at the end of the pool.
     */
    method Available(n: nat) returns (yes: bool)
      requires Valid()
      ensures var m := n % WIDTH;
              yes <==> if m == 0 then last < avail.Length
                       else exists q: nat :: Clear(avail[..], q, m) && !(q < last < q + m)
    {
      var pos := Next(n);
      if n % WIDTH != 0 {
        FailsIffOnlyStraddling(avail[..], last, n % WIDTH, pos);
      } else {
        assert Lowest(avail[..], last, avail.Length, 0, last);
        AnswerIsUnique(avail[..], last, 0, pos, last);
      }
      yes := pos < avail.Length;
    }

    /**
      Marks the window the search found; a failed search changes nothing. A count that does not fit 32 bits is
      searched for as its remainder but marked in full: if that finds anything it overruns the bits.
     */
    method Allocate(n: nat) returns (r: Option<nat>)
      requires Valid()
      modifies this`last, this`live, avail
      ensures Valid()
      ensures r.Some? ==> Answer(old(avail[..]), old(last), n % WIDTH, r.value) && r.value <= avail.Length
      ensures r.None? <==>
                n >= WIDTH && exists p: nat :: p < avail.Length && Answer(old(avail[..]), old(last), n % WIDTH, p)
      ensures r.None? || r.value == avail.Length ==>
                last == old(last) && live == old(live) && avail[..] == old(avail[..])
      ensures r.Some? && r.value < avail.Length ==> Marked(old(avail[..]), old(live), r.value, n)
    {
      ghost var was := avail[..];
      var pos := Next(n);
      if avail.Length <= pos {
        NoOther(was, last, n % WIDTH);
        return Some(pos);
      }
      if n >= WIDTH {
        return None;
      }
      r := Some(pos);
      for i := 0 to n
        invariant Painted(was, avail[..], pos, i, true)
        modifies avail
      {
        avail[pos + i] := true;
      }
      last := pos + n;
      if 1 <= n {
        TiledAdd(was, avail[..], live, Block(pos, n));
        live := live + {Block(pos, n)};
      } else {
        assert avail[..] == was;
      }
    }

    /** The window at pos was clear and is marked, as a live block if there is anything in it. */
    ghost predicate Marked(was: seq<bool>, wasLive: set<Block>, pos: nat, n: nat)
      reads this, avail
    {
      && last == pos + n && Clear(was, pos, n) && Painted(was, avail[..], pos, n, true)
      && if n == 0 then live == wasLive else Block(pos, n) !in wasLive && live == wasLive + {Block(pos, n)}
    }

    /** Gives back a block; the next search begins there. */
    method Deallocate(pos: nat, n: nat)
      requires Valid() && pos <= avail.Length && (n == 0 || Block(pos, n) in live)
      modifies this`last, this`live, avail
      ensures Valid() && last == pos
      ensures live == if n == 0 then old(live) else old(live) - {Block(pos, n)}
      ensures Painted(old(avail[..]), avail[..], pos, n, false)
      ensures Clear(avail[..], pos, n)
    {
      ghost var was := avail[..];
      for i := 0 to n
        invariant Painted(was, avail[..], pos, i, false)
        modifies avail
      {
        assert Within(Block(pos, n), pos + i);
        avail[pos + i] := false;
      }
      last := pos;
      if n == 0 {
        assert avail[..] == was;
      } else {
        TiledRemove(was, avail[..], live, Block(pos, n));
        live := live - {Block(pos, n)};
      }
    }

    /** A request that fits where the search begins is answered there. */
    method AllocateHere(n: nat) returns (r: Option<nat>)
      requires Valid() && 1 <= n < WIDTH && Clear(avail[..], last, n)
      modifies this`last, this`live, avail
      ensures Valid() && r == Some(old(last)) && Marked(old(avail[..]), old(live), old(last), n)
    {
      ghost var was := avail[..];
      ghost var from := last;
      r := Allocate(n);
      if r.Some? {
        FreedIsReused(was, from, n, n, r.value);
      }
    }

    /** A block given back and asked for again, in the same size or a smaller one, comes back at its own place. */
    method Recycle(pos: nat, n: nat, m: nat) returns (r: Option<nat>)
      requires Valid() && n < WIDTH && 1 <= m <= n && Block(pos, n) in live
      modifies this`last, this`live, avail
      ensures Valid() && r == Some(pos) && live == old(live) - {Block(pos, n)} + {Block(pos, m)}
    {
      Deallocate(pos, n);
      assert Clear(avail[..], pos, m);
      r := AllocateHere(m);
    }
  }

  /** Two blocks of n - 1 elements fill a pool; given back, the first and then the second, they leave it empty. */
  method FilledAndEmptied(n: nat) returns (s: State)
    requires n >= 2 && 2 * n - 2 < WIDTH
    ensures fresh(s) && fresh(s.avail) && s.Valid() && s.live == {} && s.last == n - 1
    ensures s.avail[..] == seq(2 * n - 2, _ => false)
  {
    s := new State(2 * n - 2);
    var a := s.AllocateHere(n - 1);
    var b := s.AllocateHere(n - 1);
    hide Answer, State.Valid;
    s.Deallocate(a.value, n - 1);
    s.Deallocate(b.value, n - 1);
  }

  /** But the search then begins in its middle, and a block of n elements is refused. */
  method EmptyPoolRefusal(n: nat) returns (s: State, r: Option<nat>)
    requires n >= 2 && 2 * n - 2 < WIDTH
    ensures fresh(s) && s.Valid() && s.live == {} && s.avail.Length == 2 * n - 2 >= n
    ensures r == Some(s.avail.Length) && forall k :: 0 <= k < s.avail.Length ==> !s.avail[k]
  {
    s := FilledAndEmptied(n);
    ghost var empty := s.avail[..];
    EmptyPoolRefuses(n);
    r := s.Allocate(n);
    AnswerIsUnique(empty, n - 1, n, r.value, |empty|);
    assert s.avail[..] == empty;
  }
}
