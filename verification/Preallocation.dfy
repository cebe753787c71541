/** The tracker that extends a file's allocation ahead of its writer, a whole number of blocks at a time. */
module Preallocation {
  import opened Arithmetic

  /** The bytes [start, end) of a file. */
  datatype Range = Range(start: nat, end: nat)

  ghost predicate Contiguous(granted: seq<Range>) {
    && (granted != [] ==> granted[0].start == 0)
    && (forall i :: 0 <= i < |granted| ==> granted[i].start < granted[i].end)
    && (forall i :: 0 < i < |granted| ==> granted[i].start == granted[i - 1].end)
  }

  ghost function End(granted: seq<Range>): nat {
    if granted == [] then 0 else granted[|granted| - 1].end
  }

  /** Contiguous ranges are disjoint, in order, and together reach from 0 to their end. */
  lemma {:induction false} EachByteOnce(granted: seq<Range>, x: nat)
    requires Contiguous(granted) && x < End(granted)
    ensures exists i :: 0 <= i < |granted| && granted[i].start <= x < granted[i].end
    ensures forall i, j :: (0 <= i < |granted| && 0 <= j < |granted| && granted[i].start <= x < granted[i].end
                            && granted[j].start <= x < granted[j].end) ==> i == j
  {
    var n := |granted| - 1;
    Ordered(granted, n);
    if granted[n].start <= x {
    } else {
      var front := granted[..n];
      EachByteOnce(front, x);
      var i :| 0 <= i < n && front[i].start <= x < front[i].end;
      assert granted[i] == front[i];
      forall j | 0 <= j < |granted| && granted[j].start <= x < granted[j].end ensures i == j {
        assert j < n && front[j] == granted[j];
      }
    }
  }

  lemma {:induction false} Ordered(granted: seq<Range>, n: nat)
    requires Contiguous(granted) && n < |granted|
    ensures forall i :: 0 <= i < n ==> granted[i].end <= granted[n].start
  {
    if n > 0 {
      Ordered(granted, n - 1);
    }
  }

  class WritableFile {
    var blockSize: nat
    var lastBlock: int
    ghost var granted: seq<Range>
    ghost var asked: set<Range>

    /**
      The ranges granted run contiguously from 0 to the end of the last block, which lies beyond every range
      asked for and no further than the block one of them ends in.
     */
    ghost predicate Valid()
      reads this
    {
      && blockSize > 0 && lastBlock >= -1
      && Contiguous(granted) && End(granted) == (lastBlock + 1) * blockSize
      && (forall r :: r in asked ==> r.start <= r.end < End(granted))
      && (granted != [] ==> exists r :: r in asked && End(granted) <= r.end + blockSize)
      && (granted == [] ==> lastBlock == -1)
    }

    constructor (size: nat)
      requires size > 0
      ensures Valid() && blockSize == size && lastBlock == -1 && granted == [] && asked == {}
    {
      blockSize, lastBlock, granted, asked := size, -1, [], {};
    }

    /**
      A call is answered at once if its last block lies behind, and otherwise unless the device refuses, by one
      grant of the blocks that are missing up to it. At a fixed block size that covers the call.
     */
    method Allocate(offset: nat, length: nat, refused: bool) returns (ok: bool)
      requires blockSize > 0 && lastBlock >= -1
      modifies this`lastBlock, this`granted, this`asked
      ensures old(Valid()) ==> Valid() && (ok ==> offset + length < End(granted))
      ensures var last := (offset + length) / blockSize;
              && ok == (last <= old(lastBlock) || !refused)
              && lastBlock == (if ok && last > old(lastBlock) then last else old(lastBlock))
              && granted == old(granted)
                 + if lastBlock == old(lastBlock) then [] else [NextGrant(old(lastBlock), last, blockSize)]
      ensures asked == old(asked) + if ok then {Range(offset, offset + length)} else {}
    {
      var last := (offset + length) / blockSize;
      var missing := last - lastBlock;
      if missing > 0 && refused {
        return false;
      }
      if missing > 0 {
        if Valid() {
          GrantFits(this, offset + length);
        }
        BlocksOf(lastBlock, last, blockSize);
        granted := granted + [NextGrant(lastBlock, last, blockSize)];
        lastBlock := last;
      } else if Valid() {
        BehindIff(offset + length, blockSize, lastBlock + 1);
      }
      asked := asked + {Range(offset, offset + length)};
      return true;
    }

    /**
      Any block size is taken. Unless it is the old one, or nothing was granted before, the ranges are out of step
      with it from then on.
     */
    method SetPreallocationBlockSize(size: nat)
      modifies this`blockSize
      ensures blockSize == size
      ensures old(Valid()) && size > 0 ==> (Valid() <==> granted == [] || size == old(blockSize))
    {
      if Valid() && granted != [] {
        EndIsPositive(granted);
        SameProduct(lastBlock + 1, blockSize, size);
      }
      hide Contiguous, End;
      blockSize := size;
    }
  }

  /** The range from behind the last block granted to the end of the last block needed. */
  function NextGrant(granted: int, last: nat, blockSize: nat): (r: Range)
    requires granted >= -1
  {
    Range((granted + 1) * blockSize, (last + 1) * blockSize)
  }

  /** Its start and length are those of the system call. */
  lemma BlocksOf(granted: int, last: nat, blockSize: nat)
    requires -1 <= granted < last
    ensures var r := NextGrant(granted, last, blockSize);
            r.end - r.start == (last - granted) * blockSize && (blockSize > 0 ==> r.start < r.end)
  {
    MulSub(last + 1, granted + 1, blockSize);
    if blockSize > 0 {
      MulGe(last - granted, blockSize);
    }
  }

  lemma GrantFits(f: WritableFile, end: nat)
    requires f.Valid() && end / f.blockSize > f.lastBlock
    ensures var g := f.granted + [NextGrant(f.lastBlock, end / f.blockSize, f.blockSize)];
            Contiguous(g) && End(f.granted) < End(g) && end < End(g) <= end + f.blockSize
  {
    var last := end / f.blockSize;
    BlocksOf(f.lastBlock, last, f.blockSize);
    DivIdentity(end, f.blockSize);
    Distribute(last, 1, f.blockSize);
  }

  /** After a change of block size with something granted, the next grant leaves a gap or overlaps. */
  lemma NextGrantMisses(f: WritableFile, size: nat, last: nat)
    requires f.Valid() && f.granted != [] && size != f.blockSize && last > f.lastBlock
    ensures var r := NextGrant(f.lastBlock, last, size);
            && !Contiguous(f.granted + [r])
            && (if size > f.blockSize then r.start > End(f.granted) else r.start < End(f.granted))
  {
    EndIsPositive(f.granted);
    var n := f.lastBlock + 1;
    SameProduct(n, f.blockSize, size);
    if size > f.blockSize {
      MulMonotone(n, n, f.blockSize, size);
    } else {
      MulMonotone(n, n, size, f.blockSize);
    }
    var r := NextGrant(f.lastBlock, last, size);
    var all := f.granted + [r];
    assert all[|f.granted|].start == r.start && all[|f.granted| - 1].end == End(f.granted);
  }

  /** And with a greater size, a call that is not covered can be answered as lying behind: exactly such a call. */
  lemma BehindButNotCovered(f: WritableFile, size: nat, end: nat)
    requires f.Valid() && size > f.blockSize
    ensures end / size <= f.lastBlock && end >= End(f.granted) <==> End(f.granted) <= end < (f.lastBlock + 1) * size
  {
    BehindIff(end, size, f.lastBlock + 1);
  }

  /**
    Blocks of 4096 bytes, a call, blocks of 8192 bytes, two calls: the first of them is answered although nothing
    holds its last byte, and the grant for the second leaves the bytes from 4096 to 8191 out.
   */
  method ResizeLeavesGap() returns (f: WritableFile)
    ensures fresh(f) && f.granted == [Range(0, 4096), Range(8192, 16384)] && Range(0, 5000) in f.asked
    ensures !Contiguous(f.granted)
    ensures forall r :: r in f.granted ==> !(r.start <= 5000 < r.end)
  {
    f := new WritableFile(4096);
    var first := f.Allocate(0, 100, false);
    assert f.granted == [Range(0, 4096)];
    f.SetPreallocationBlockSize(8192);
    var behind := f.Allocate(0, 5000, false);
    assert behind && f.granted == [Range(0, 4096)];
    var second := f.Allocate(8192, 100, false);
    assert f.granted == [Range(0, 4096)] + [Range(8192, 16384)];
    assert f.granted[1].start != f.granted[0].end;
  }

  lemma EndIsPositive(granted: seq<Range>)
    requires Contiguous(granted) && granted != []
    ensures End(granted) > 0
  {
  }

  lemma SameProduct(n: nat, a: nat, b: nat)
    requires n > 0
    ensures n * a == n * b <==> a == b
  {
    Commute(n, a);
    Commute(n, b);
    MulSub(a, b, n);
    if a > b {
      MulGe(a - b, n);
    } else if b > a {
      MulSub(b, a, n);
      MulGe(b - a, n);
    }
  }

  lemma BehindIff(end: nat, blockSize: nat, blocks: nat)
    requires blockSize > 0
    ensures end < blocks * blockSize <==> end / blockSize < blocks
  {
    DivBelow(end, blockSize, blocks);
    Commute(blocks, blockSize);
  }
}
