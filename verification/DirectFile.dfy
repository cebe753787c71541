/**
  The direct-I/O append engine: appends of any length, from any address, become writes whose address,
  length and offset are all multiples of the device block, through a one-block bounce buffer.
 */
module DirectFile {
  import opened Arithmetic
  import opened Bytes
  import opened Options

  /** A caller's buffer: its bytes, and the address the branches test for alignment. */
  datatype Slice = Slice(addr: nat, bytes: seq<byte>) {
    function Drop(n: nat): (r: Slice)
      requires n <= |bytes|
    {
      Slice(addr + n, bytes[n..])
    }
  }

  /** The fields of the open file, taken as one value. */
  datatype State = State(al: nat, off: nat, buf: seq<byte>, file: seq<byte>)

  predicate Ok(st: State) {
    st.al > 0 && |st.buf| == st.al && st.off <= |st.file|
  }

  function Align(al: nat, n: nat): (r: nat)
    requires al > 0
    ensures r <= n < r + al && r % al == 0
  {
    FloorIsMultiple(n, al);
    n - n % al
  }

  function RoundUp(al: nat, n: nat): (r: nat)
    requires al > 0
    ensures n <= r < n + al && r % al == 0
  {
    FloorIsMultiple(n, al);
    ModSum(Align(al, n), al, al);
    if n % al == 0 then n else Align(al, n) + al
  }

  /** The length of the whole blocks among the first n bytes. */
  function WholeBytes(al: nat, n: nat): (m: nat)
    requires al > 0
    ensures m <= n < m + al && m % al == 0
  {
    BlocksFit(n, al);
    n / al * al
  }

  /** What the file is for its user: the bytes below the logical offset. */
  function Logical(st: State): seq<byte>
    requires Ok(st)
  {
    st.file[..st.off]
  }

  /** What the next append will lay down in front of its own bytes: the last partial block comes from the buffer. */
  function Image(st: State): seq<byte>
    requires Ok(st)
  {
    st.file[..Align(st.al, st.off)] + st.buf[..st.off % st.al]
  }

  /** The buffer-prefix invariant. */
  ghost predicate Coherent(st: State)
    requires Ok(st)
  {
    st.buf[..st.off % st.al] == st.file[Align(st.al, st.off)..st.off]
  }

  lemma CoherentIffImage(st: State)
    requires Ok(st)
    ensures Coherent(st) <==> Image(st) == Logical(st)
  {
    var a, c := Align(st.al, st.off), st.off % st.al;
    assert Logical(st) == st.file[..a] + st.file[a..st.off];
    assert Image(st)[a..] == st.buf[..c];
    assert Logical(st)[a..] == st.file[a..st.off];
  }

  /** The file never reaches past the block that holds the logical offset. */
  predicate Tight(st: State)
    requires Ok(st)
  {
    |st.file| <= RoundUp(st.al, st.off)
  }

  /** The file ends at a block boundary and holds only zeros past the logical offset. */
  predicate Padded(st: State)
    requires Ok(st)
  {
    && |st.file| == RoundUp(st.al, st.off)
    && forall i :: st.off <= i < |st.file| ==> st.file[i] == 0
  }

  // ---------------------------------------------------------------- writes, on values

  /** Writing one block whose prefix is the buffer's and that goes on with s commits s. */
  lemma BlockCommits(st: State, blk: seq<byte>, s: seq<byte>)
    requires Ok(st) && |blk| == st.al && st.off % st.al + |s| <= st.al
    requires blk[..st.off % st.al] == st.buf[..st.off % st.al]
    requires blk[st.off % st.al..st.off % st.al + |s|] == s
    ensures var st' := State(st.al, st.off + |s|, blk, Overlay(st.file, Align(st.al, st.off), blk));
            Ok(st') && Logical(st') == Image(st) + s && Coherent(st')
  {
    var al, a, c := st.al, Align(st.al, st.off), st.off % st.al;
    var f := Overlay(st.file, a, blk);
    var st' := State(al, st.off + |s|, blk, f);
    ModAdvance(st.off, |s|, al);
    assert f[a..a + al] == blk;
    assert f[..a] == st.file[..a];
    assert f[..st.off + |s|] == f[..a] + f[a..a + al][..c + |s|];
    assert blk[..c + |s|] == blk[..c] + blk[c..c + |s|];
    assert Logical(st') == Image(st) + s;
    if c + |s| < al {
      assert Align(al, st'.off) == a;
      assert f[a..st'.off] == f[a..a + al][..c + |s|];
    }
  }

  lemma BlockPads(st: State, blk: seq<byte>, n: nat)
    requires Ok(st) && |blk| == st.al && st.off % st.al + n <= st.al && 0 < n
    requires Tight(st)
    ensures var st' := State(st.al, st.off + n, blk, Overlay(st.file, Align(st.al, st.off), blk));
            && Ok(st') && Tight(st')
            && ((forall i :: st.off % st.al + n <= i < st.al ==> blk[i] == 0) ==> Padded(st'))
  {
    var al, a, c := st.al, Align(st.al, st.off), st.off % st.al;
    var f := Overlay(st.file, a, blk);
    ModAdvance(st.off, n, al);
    assert |f| == a + al;
    if forall i :: c + n <= i < al ==> blk[i] == 0 {
      forall i | st.off + n <= i < |f| ensures f[i] == 0 {
        assert f[i] == f[a..a + al][i - a] == blk[i - a];
      }
    }
  }

  /** A block write cut short by an error leaves the committed bytes alone, if the invariant held. */
  lemma BlockFails(st: State, blk: seq<byte>, k: nat)
    requires Ok(st) && |blk| == st.al && k <= |blk| && Coherent(st)
    requires blk[..st.off % st.al] == st.buf[..st.off % st.al]
    ensures var st' := State(st.al, st.off, blk, Overlay(st.file, Align(st.al, st.off), blk[..k]));
            Ok(st') && Logical(st') == Logical(st) && Coherent(st')
  {
    var a, c := Align(st.al, st.off), st.off % st.al;
    var f := Overlay(st.file, a, blk[..k]);
    assert f[a..a + k] == blk[..k];
    forall i | 0 <= i < st.off ensures f[i] == st.file[i] {
      if i < a {
        assert f[..a][i] == st.file[..a][i];
      } else if i < a + k {
        assert f[i] == f[a..a + k][i - a] == blk[i - a] == blk[..c][i - a];
        assert st.buf[..c][i - a] == st.file[a..st.off][i - a];
      } else {
        assert f[a + k..][i - a - k] == st.file[a + k..][i - a - k];
      }
    }
    assert Logical(State(st.al, st.off, blk, f)) == Logical(st);
    assert f[a..st.off] == st.file[a..st.off];
  }

  lemma WholeBlocksCommit(st: State, d: seq<byte>)
    requires Ok(st) && st.off % st.al == 0 && |d| % st.al == 0
    ensures var st' := st.(off := st.off + |d|, file := Overlay(st.file, st.off, d));
            && Ok(st') && st'.off % st.al == 0 && Logical(st') == Image(st) + d && Coherent(st')
            && (Tight(st) ==> Tight(st') && Padded(st'))
  {
    ModSum(st.off, |d|, st.al);
    var f := Overlay(st.file, st.off, d);
    assert f[..st.off + |d|] == f[..st.off] + f[st.off..st.off + |d|];
    assert st.buf[..0] == f[st.off + |d|..st.off + |d|];
  }

  lemma AlignedFails(st: State, d: seq<byte>)
    requires Ok(st) && st.off % st.al == 0
    ensures var st' := st.(file := Overlay(st.file, st.off, d));
            Ok(st') && Logical(st') == Logical(st) && Coherent(st')
  {
    assert st.buf[..0] == Overlay(st.file, st.off, d)[st.off..st.off];
  }

  /** What every write step promises: it commits exactly the bytes by which the logical offset moved. */
  ghost predicate Stepped(pre: State, s: Slice, ok: bool, rest: Slice, post: State)
    requires Ok(pre)
  {
    && Ok(post) && post.al == pre.al
    && pre.off <= post.off <= pre.off + |s.bytes|
    && (ok ==> pre.off < post.off && rest == s.Drop(post.off - pre.off))
    && (ok ==> Logical(post) == Image(pre) + s.bytes[..post.off - pre.off] && Coherent(post))
    && (ok && Tight(pre) ==> Tight(post) && (rest.bytes == [] ==> Padded(post)))
    && (!ok && Coherent(pre) ==>
          Coherent(post) && Logical(post) == Logical(pre) + s.bytes[..post.off - pre.off])
  }

  lemma Chain(pre: State, s: Slice, mid: State, more: Slice, ok: bool, rest: Slice, post: State)
    requires Ok(pre) && Stepped(pre, s, true, more, mid) && Stepped(mid, more, ok, rest, post)
    ensures Stepped(pre, s, ok, rest, post)
  {
    CoherentIffImage(pre);
    CoherentIffImage(mid);
    var m, n := mid.off - pre.off, post.off - mid.off;
    assert s.bytes[..m + n] == s.bytes[..m] + more.bytes[..n];
    assert (Image(pre) + s.bytes[..m]) + more.bytes[..n] == Image(pre) + (s.bytes[..m] + more.bytes[..n]);
    if ok {
      assert more.bytes[n..] == s.bytes[m + n..];
    }
  }

  /** The bounce buffer after src was copied in at index at, as far as it fits, and the rest zeroed. */
  function Filled(buf: seq<byte>, at: nat, src: seq<byte>): (r: seq<byte>)
    requires at <= |buf|
    ensures |r| == |buf| && r[..at] == buf[..at]
    ensures var n := Min(|src|, |buf| - at);
            r[at..at + n] == src[..n] && forall i :: at + n <= i < |r| ==> r[i] == 0
  {
    var n := Min(|src|, |buf| - at);
    buf[..at] + src[..n] + Zeros(|buf| - at - n)
  }

  /** The block to be written holds the buffer's prefix, n bytes of s, and then only zeros if s ends there. */
  ghost predicate Ready(pre: State, s: Slice, n: nat, blk: seq<byte>)
    requires Ok(pre)
  {
    var c := pre.off % pre.al;
    && |blk| == pre.al && 0 < n <= |s.bytes| && c + n <= pre.al
    && blk[..c] == pre.buf[..c] && blk[c..c + n] == s.bytes[..n]
    && (n == |s.bytes| ==> forall i :: c + n <= i < |blk| ==> blk[i] == 0)
  }

  /** Copying in the n bytes that fit and zeroing the rest makes the block ready. */
  lemma FillReady(pre: State, s: Slice, n: nat)
    requires Ok(pre) && 0 < n == Min(|s.bytes|, pre.al - pre.off % pre.al)
    ensures Ready(pre, s, n, Filled(pre.buf, pre.off % pre.al, s.bytes[..n]))
  {
    assert s.bytes[..n][..n] == s.bytes[..n];
  }

  /** At an aligned offset the block may carry look-ahead: bytes of s past the n that are to count. */
  lemma LookAheadReady(pre: State, s: Slice, n: nat)
    requires Ok(pre) && pre.off % pre.al == 0 && 0 < n <= Min(|s.bytes|, pre.al)
    ensures Ready(pre, s, n, Filled(pre.buf, 0, s.bytes))
  {
    var blk, m := Filled(pre.buf, 0, s.bytes), Min(|s.bytes|, pre.al);
    assert blk[0..n] == blk[0..0 + m][..n] == s.bytes[..m][..n];
  }

  /** A block written from the buffer, of which the first n new bytes of s are to count. */
  lemma BlockStep(pre: State, s: Slice, blk: seq<byte>, n: nat, ok: bool, done: nat)
    requires Ok(pre) && Ready(pre, s, n, blk) && done <= |blk| && (ok ==> done == |blk|)
    ensures Stepped(pre, s, ok, s.Drop(n),
                    State(pre.al, if ok then pre.off + n else pre.off, blk,
                          Overlay(pre.file, Align(pre.al, pre.off), blk[..done])))
  {
    hide Logical, Image, Coherent, Tight, Padded, Overlay;
    if ok {
      assert blk[..done] == blk;
      BlockCommits(pre, blk, s.bytes[..n]);
      if Tight(pre) {
        BlockPads(pre, blk, n);
      }
    } else if Coherent(pre) {
      BlockFails(pre, blk, done);
    }
  }

  lemma AlignedStep(pre: State, s: Slice, m: nat)
    requires Ok(pre) && pre.off % pre.al == 0 && 0 < m <= |s.bytes| && m % pre.al == 0
    ensures Stepped(pre, s, true, s.Drop(m),
                    pre.(off := pre.off + m, file := Overlay(pre.file, pre.off, s.bytes[..m])))
  {
    WholeBlocksCommit(pre, s.bytes[..m]);
  }

  lemma Finished(pre: State, s: Slice, ok: bool, rest: Slice, post: State)
    requires Ok(pre) && Stepped(pre, s, ok, rest, post) && (ok ==> rest.bytes == [])
    ensures Stepped(pre, s, ok, s.Drop(|s.bytes|), post)
    ensures ok ==> post.off == pre.off + |s.bytes|
  {
    if ok {
      assert |rest.bytes| == |s.bytes| - (post.off - pre.off);
    }
  }

  // ---------------------------------------------------------------- truncation

  /** Truncate moves the offset and the file's end, but never reloads the buffer. */
  function Truncated(st: State, size: nat): (r: State)
    requires Ok(st)
    ensures Ok(r)
  {
    st.(off := size, file := Resize(st.file, size))
  }

  /** A new size the buffer can stand for: a block boundary, or a point inside the partial block it holds. */
  predicate Buffered(st: State, size: nat)
    requires Ok(st)
  {
    && size <= st.off
    && (size % st.al == 0 || Align(st.al, size) == Align(st.al, st.off))
  }

  lemma BufferedTruncateKeeps(st: State, size: nat)
    requires Ok(st) && Coherent(st) && Buffered(st, size)
    ensures Coherent(Truncated(st, size)) && Tight(Truncated(st, size))
    ensures Logical(Truncated(st, size)) == Logical(st)[..size]
  {
    var a, c := Align(st.al, size), size % st.al;
    var f := Resize(st.file, size);
    assert f == st.file[..size];
    if c > 0 {
      assert f[a..size] == st.file[a..st.off][..c] == st.buf[..st.off % st.al][..c] == st.buf[..c];
    }
  }

  /** A greater size that the buffer can stand for, with nothing but zeros between the old offset and it. */
  predicate Extended(st: State, size: nat)
    requires Ok(st)
  {
    && st.off < size && (forall i :: st.off <= i < |st.file| && i < size ==> st.file[i] == 0)
    && (size % st.al != 0 ==>
        && Align(st.al, size) == Align(st.al, st.off)
        && forall i :: st.off % st.al <= i < size % st.al ==> st.buf[i] == 0)
  }

  lemma ExtendedTruncateKeeps(st: State, size: nat)
    requires Ok(st) && Coherent(st) && Extended(st, size)
    ensures Coherent(Truncated(st, size)) && Tight(Truncated(st, size))
    ensures Logical(Truncated(st, size)) == Logical(st) + Zeros(size - st.off)
  {
    var a, c := Align(st.al, size), size % st.al;
    var f := Resize(st.file, size);
    if c > 0 {
      forall i | 0 <= i < c ensures st.buf[i] == f[a + i] {
        if i < st.off % st.al {
          assert st.buf[..st.off % st.al][i] == st.file[a..st.off][i];
        }
      }
      assert st.buf[..c] == f[a..size];
    }
  }

  /** Whatever is in the file past the logical offset is zero. */
  predicate ZeroTail(st: State) {
    forall i :: st.off <= i < |st.file| ==> st.file[i] == 0
  }

  /** Then growing to a block boundary extends the contents with zeros. */
  lemma GrowToBoundary(st: State, size: nat)
    requires Ok(st) && Coherent(st) && ZeroTail(st) && st.off < size && size % st.al == 0
    ensures Coherent(Truncated(st, size)) && Logical(Truncated(st, size)) == Logical(st) + Zeros(size - st.off)
  {
    ExtendedTruncateKeeps(st, size);
  }

  /**
    Exactly when an append that follows a truncation extends the truncated contents: when the buffer happens
    to hold the new last partial block.
   */
  lemma AppendAfterTruncateIff(st: State, size: nat, s: Slice, rest: Slice, post: State)
    requires Ok(st) && Stepped(Truncated(st, size), s, true, rest, post)
    ensures Logical(post) == Resize(st.file, size) + s.bytes[..post.off - size]
       <==> st.buf[..size % st.al] == Resize(st.file, size)[Align(st.al, size)..]
  {
    var t, d := Truncated(st, size), s.bytes[..post.off - size];
    var a := Align(st.al, size);
    CoherentIffImage(t);
    assert Logical(t) == t.file;
    assert t.file[a..size] == t.file[a..];
    assert Logical(post) == Image(t) + d;
    if Image(t) + d == Logical(t) + d {
      assert (Image(t) + d)[..size] == Image(t);
      assert (Logical(t) + d)[..size] == Logical(t);
    }
  }

  lemma FirstBlock(al: nat, d: seq<byte>)
    requires al > 0 && |d| == al
    ensures Stepped(State(al, 0, Zeros(al), []), Slice(0, d), true, Slice(al, []), State(al, al, Zeros(al), d))
  {
    FloorIsMultiple(0, al);
    AlignedStep(State(al, 0, Zeros(al), []), Slice(0, d), al);
    assert d[..al] == d && d[al..] == [] && Overlay([], 0, d) == d;
  }

  /**
    The failing case, from a fresh file: append one whole block from an aligned address, cut it to one byte,
    append x. Unless the byte kept is zero it is gone: the buffer's zero is written in its place.
   */
  lemma TruncateLosesByte(al: nat, d: seq<byte>, x: byte, post: State)
    requires al > 1 && |d| == al && d[0] != 0
    requires Stepped(Truncated(State(al, al, Zeros(al), d), 1), Slice(0, [x]), true, Slice(1, []), post)
    ensures Stepped(State(al, 0, Zeros(al), []), Slice(0, d), true, Slice(al, []), State(al, al, Zeros(al), d))
    ensures Logical(post) == [0, x] != d[..1] + [x]
  {
    FirstBlock(al, d);
    DivUnique(1, al, 0, 1);
    var cut := Truncated(State(al, al, Zeros(al), d), 1);
    assert Image(cut) == [0];
    assert [x][..post.off - 1] == [x] by {
      assert Slice(1, []) == Slice(0, [x]).Drop(post.off - 1);
      assert |[x][post.off - 1..]| == 0;
    }
    assert (d[..1] + [x])[0] == d[0];
  }

  // ---------------------------------------------------------------- runs

  /** A request and its outcome; committed is how many of the slice's bytes count from now on. */
  datatype Op = Append(s: Slice, ok: bool, committed: nat) | Truncate(size: nat)

  ghost predicate Step(pre: State, op: Op, post: State) {
    && Ok(pre) && Ok(post) && post.al == pre.al
    && match op
       case Append(s, ok, n) =>
         && n <= |s.bytes| && post.off == pre.off + n && (ok ==> n == |s.bytes|)
         && (if s.bytes == [] then post == pre else Stepped(pre, s, ok, s.Drop(|s.bytes|), post))
       case Truncate(size) => post == Truncated(pre, size)
  }

  ghost predicate Run(sts: seq<State>, ops: seq<Op>) {
    && |sts| == |ops| + 1
    && forall i :: 0 <= i < |ops| ==> Step(sts[i], ops[i], sts[i + 1])
  }

  /** The reference: a plain byte string that is appended to, cut, and extended with zeros. */
  function Plain(contents: seq<byte>, ops: seq<Op>): seq<byte> {
    if ops == [] then contents else PlainStep(Plain(contents, ops[..|ops| - 1]), ops[|ops| - 1])
  }

  function PlainStep(c: seq<byte>, op: Op): seq<byte> {
    match op
    case Append(s, _, n) => if n <= |s.bytes| then c + s.bytes[..n] else c
    case Truncate(size) => if size <= |c| then c[..size] else c + Zeros(size - |c|)
  }

  /** One request does to the logical contents what it does to a plain byte string, and keeps the invariant. */
  lemma StepRefinesPlain(pre: State, op: Op, post: State)
    requires Step(pre, op, post) && Coherent(pre)
    requires op.Truncate? ==> Buffered(pre, op.size) || Extended(pre, op.size)
    ensures Coherent(post) && Logical(post) == PlainStep(Logical(pre), op)
  {
    CoherentIffImage(pre);
    match op
    case Append(s, ok, n) =>
      if s.bytes == [] {
        assert s.bytes[..n] == [];
        assert Logical(pre) + [] == Logical(pre);
      }
    case Truncate(size) =>
      if size <= pre.off {
        BufferedTruncateKeeps(pre, size);
      } else {
        ExtendedTruncateKeeps(pre, size);
      }
  }

  /**
    In every run whose truncations stay within what the buffer can stand for, failures included, the file's
    bytes below the logical offset are those of the plain byte string.
   */
  lemma {:induction false} RunRefinesPlain(sts: seq<State>, ops: seq<Op>)
    requires Run(sts, ops) && Ok(sts[0]) && Coherent(sts[0])
    requires forall i :: 0 <= i < |ops| && ops[i].Truncate? ==>
               Ok(sts[i]) && (Buffered(sts[i], ops[i].size) || Extended(sts[i], ops[i].size))
    ensures Ok(sts[|ops|]) && Coherent(sts[|ops|])
    ensures Logical(sts[|ops|]) == Plain(Logical(sts[0]), ops)
  {
    hide Stepped, Logical, Coherent, PlainStep, Buffered, Extended;
    if ops != [] {
      var n := |ops| - 1;
      RunRefinesPlain(sts[..n + 1], ops[..n]);
      assert Step(sts[n], ops[n], sts[n + 1]);
      StepRefinesPlain(sts[n], ops[n], sts[n + 1]);
    }
  }

  /** In a run without failures the file always ends, zero padded, in the block of its last byte. */
  lemma {:induction false} RunPads(sts: seq<State>, ops: seq<Op>)
    requires Run(sts, ops) && Ok(sts[0]) && Tight(sts[0])
    requires forall i :: 0 <= i < |ops| && ops[i].Append? ==> ops[i].ok
    ensures Ok(sts[|ops|]) && Tight(sts[|ops|]) && (ZeroTail(sts[0]) ==> ZeroTail(sts[|ops|]))
    ensures ops != [] && ops[|ops| - 1].Append? && ops[|ops| - 1].s.bytes != [] ==> Padded(sts[|ops|])
  {
    if ops != [] {
      var n := |ops| - 1;
      RunPads(sts[..n + 1], ops[..n]);
      assert Step(sts[n], ops[n], sts[n + 1]);
    }
  }

  /** All the bytes of a run of appends. */
  ghost function Joined(ss: seq<Slice>): seq<byte> {
    if ss == [] then [] else Joined(ss[..|ss| - 1]) + ss[|ss| - 1].bytes
  }

  lemma {:induction false} JoinedStep(ss: seq<Slice>, k: nat)
    requires k < |ss|
    ensures Joined(ss[..k + 1]) == Joined(ss[..k]) + ss[k].bytes <= Joined(ss)
  {
    assert ss[..k + 1][..k] == ss[..k];
    if k + 1 == |ss| {
      assert ss[..k + 1] == ss;
    } else {
      JoinedStep(ss[..|ss| - 1], k);
      assert ss[..|ss| - 1][..k + 1] == ss[..k + 1] && ss[..|ss| - 1][..k] == ss[..k];
    }
  }

  /** Nothing has become of the contents but that some first bytes of d follow them. */
  ghost predicate AddsPrefix(pre: State, d: seq<byte>, post: State)
    requires Ok(pre) && Ok(post)
  {
    exists n :: 0 <= n <= |d| && Logical(post) == Logical(pre) + d[..n]
  }

  /** An append behind others: all of its bytes follow, or those of a prefix. */
  lemma OneMore(pre: State, d: seq<byte>, mid: State, s: Slice, ok: bool, n: nat, post: State, all: seq<byte>)
    requires Ok(pre) && Step(mid, Op.Append(s, ok, n), post) && Coherent(mid)
    requires Logical(mid) == Logical(pre) + d && d + s.bytes <= all
    ensures Coherent(post)
    ensures if ok then Logical(post) == Logical(pre) + (d + s.bytes) else AddsPrefix(pre, all, post)
  {
    hide Stepped, Logical, Coherent;
    StepRefinesPlain(mid, Op.Append(s, ok, n), post);
    assert (Logical(pre) + d) + s.bytes[..n] == Logical(pre) + (d + s.bytes[..n]);
    if ok {
      assert s.bytes[..n] == s.bytes;
    } else {
      assert all[..|d| + n] == (d + s.bytes)[..|d| + n] == d + s.bytes[..n];
    }
  }

  // ---------------------------------------------------------------- what closing leaves behind

  /**
    Closing cuts the file to its logical bytes except at logical offset zero, which is no matter if nothing is there.
   */
  predicate CutOnClose(st: State) {
    st.off > 0 || st.file == []
  }

  /** Successful appends and truncations never leave anything behind at logical offset zero. */
  lemma {:induction false} RunIsCutOnClose(sts: seq<State>, ops: seq<Op>)
    requires Run(sts, ops) && CutOnClose(sts[0])
    requires forall i :: 0 <= i < |ops| && ops[i].Append? ==> ops[i].ok
    ensures CutOnClose(sts[|ops|])
  {
    if ops != [] {
      var n := |ops| - 1;
      RunIsCutOnClose(sts[..n + 1], ops[..n]);
      assert Step(sts[n], ops[n], sts[n + 1]);
    }
  }

  /**
    The failing family, from a fresh file: the first append, of whole blocks from an aligned address, fails after k
    bytes have reached the device. They stay in the file, but none of them counts, so closing does not cut them off.
   */
  lemma FailedFirstAppendStays(al: nat, d: seq<byte>, k: nat)
    requires al > 0 && 0 < k <= |d| && |d| % al == 0
    ensures var before := State(al, 0, Zeros(al), []);
            var left := before.(file := Overlay([], 0, d[..k]));
            && Step(before, Append(Slice(0, d), false, 0), left) && left.file == d[..k] && !CutOnClose(left)
  {
    var before := State(al, 0, Zeros(al), []);
    assert Overlay([], 0, d[..k]) == d[..k];
    AlignedFailStep(before, Slice(0, d), d[..k]);
    hide Stepped, Overlay;
  }

  lemma AlignedFailStep(pre: State, s: Slice, d: seq<byte>)
    requires Ok(pre) && pre.off % pre.al == 0
    ensures Stepped(pre, s, false, s.Drop(|s.bytes|), pre.(file := Overlay(pre.file, pre.off, d)))
  {
    AlignedFails(pre, d);
    assert s.bytes[..0] == [];
    hide Overlay, Coherent;
  }

  // ---------------------------------------------------------------- the file object

  class DirectFile {
    const alignment: nat
    const buffer: array<byte>
    const bufferAddr: nat
    /** What the device does each time it is called: it works, or fails after that many bytes. */
    const device: nat -> Option<nat>
    var calls: nat
    var logicalOffset: nat
    var file: seq<byte>
    var open: bool

    ghost predicate Valid()
      reads this, buffer
    {
      && Ok(S())
      && bufferAddr % alignment == 0
    }

    ghost function S(): State
      reads this, buffer
    {
      State(alignment, logicalOffset, buffer[..], file)
    }

    /** The device has worked every time it was called since then. */
    predicate Served(since: nat)
      reads this`calls
    {
      forall n :: since <= n < calls ==> device(n).None?
    }

    /** The success of an operation that began then: it fails only on a closed file, or when the device has failed. */
    predicate Answered(since: nat, ok: bool)
      reads this`calls, this`open
    {
      since <= calls && (ok <==> open && Served(since))
    }

    constructor (contents: seq<byte>, trunc: bool, block: nat, addr: nat, device: nat -> Option<nat>)
      requires block > 0 && addr % block == 0
      ensures fresh(buffer) && Ok(S()) && Valid() && open && alignment == block && bufferAddr == addr
      ensures this.device == device && calls == 0
      ensures file == if trunc then [] else contents
      ensures logicalOffset == |file|
      ensures buffer[..] == Zeros(block)
    {
      alignment := block;
      bufferAddr := addr;
      buffer := new byte[block](_ => 0);
      this.device := device;
      calls := 0;
      file := if trunc then [] else contents;
      logicalOffset := if trunc then 0 else |contents|;
      open := true;
    }

    /** Opening an existing file whose size is not a whole number of blocks is refused with a panic. */
    static method Open(contents: seq<byte>, trunc: bool, block: nat, addr: nat, device: nat -> Option<nat>)
        returns (r: DirectFile?)
      requires block > 0 && addr % block == 0
      ensures r == null <==> !trunc && |contents| % block != 0
      ensures r != null ==> fresh(r) && fresh(r.buffer) && r.Valid() && r.open && r.alignment == block
      ensures r != null ==> r.file == (if trunc then [] else contents) && Logical(r.S()) == r.file
      ensures r != null ==> Coherent(r.S()) && Padded(r.S()) && r.device == device && r.calls == 0
    {
      var f := new DirectFile(contents, trunc, block, addr, device);
      if f.logicalOffset % block != 0 {
        return null;
      }
      return f;
    }

    function Remain(n: nat): nat
      requires alignment > 0
    {
      alignment - (n - Align(alignment, n))
    }

    /** Calls the device, or fails on a closed descriptor; done is how many of the n bytes it got to. */
    method Call(n: nat) returns (ok: bool, done: nat)
      modifies this`calls
      ensures calls == old(calls) + (if open then 1 else 0) && (ok <==> open && device(old(calls)).None?)
      ensures Answered(old(calls), ok)
      ensures done <= n && (ok ==> done == n) && (!open ==> done == 0)
    {
      if !open {
        return false, 0;
      }
      var answer := device(calls);
      calls := calls + 1;
      match answer
      case None =>
        return true, n;
      case Some(k) =>
        assert device(calls - 1).Some?;
        return false, Min(k, n);
    }

    /**
      The device write. Address, length and offset must all be aligned. It may fail, after any number of bytes; on a
      closed descriptor it always fails.
     */
    method PWrite(s: Slice, off: nat) returns (ok: bool, ghost done: nat)
      requires Valid() && off <= |file|
      requires s.addr % alignment == 0 && |s.bytes| % alignment == 0 && off % alignment == 0
      modifies this`file, this`calls
      ensures done <= |s.bytes| && (ok ==> done == |s.bytes|)
      ensures Answered(old(calls), ok)
      ensures file == Overlay(old(file), off, s.bytes[..done])
    {
      var k;
      ok, k := Call(|s.bytes|);
      done := k;
      file := Overlay(file, off, s.bytes[..k]);
    }

    method Fill(at: nat, src: seq<byte>)
      requires at <= buffer.Length
      modifies buffer
      ensures buffer[..] == Filled(old(buffer[..]), at, src)
    {
      var n := Min(|src|, buffer.Length - at);
      forall i | 0 <= i < n {
        buffer[at + i] := src[i];
      }
      forall i | at + n <= i < buffer.Length {
        buffer[i] := 0;
      }
      assert buffer[..] == buffer[..at] + buffer[at..at + n] + buffer[at + n..];
      assert buffer[at..at + n] == src[..n];
      assert buffer[at + n..] == Zeros(buffer.Length - at - n);
    }

    /** Writes the whole bounce buffer at an aligned offset and, when that works, counts n more bytes. */
    method Flush(ghost pre: State, s: Slice, n: nat) returns (ok: bool)
      requires Ok(pre) && pre == S().(buf := pre.buf) && Valid() && Ready(pre, s, n, buffer[..])
      modifies this`file, this`logicalOffset, this`calls
      ensures Valid() && Stepped(pre, s, ok, s.Drop(n), S()) && Answered(old(calls), ok)
      ensures ok ==> logicalOffset == pre.off + n
    {
      ghost var done;
      FloorIsMultiple(logicalOffset, alignment);
      ok, done := PWrite(Slice(bufferAddr, buffer[..]), Align(alignment, logicalOffset));
      BlockStep(pre, s, buffer[..], n, ok, done);
      if ok {
        logicalOffset := logicalOffset + n;
      }
    }

    /** Unaligned offset, any data: completes the partial block kept in the buffer and rewrites that block. */
    method WriteUnalignedOff(s: Slice) returns (ok: bool, rest: Slice)
      requires Valid() && logicalOffset % alignment != 0 && s.bytes != []
      modifies this`file, this`logicalOffset, this`calls, buffer
      ensures Valid() && Stepped(old(S()), s, ok, rest, S()) && Answered(old(calls), ok)
      ensures ok ==> rest.bytes == [] || logicalOffset % alignment == 0
    {
      ghost var pre := S();
      var n := Min(|s.bytes|, Remain(logicalOffset));
      hide Ready, Stepped, Filled;
      FillReady(pre, s, n);
      Fill(logicalOffset % alignment, s.bytes[..n]);
      ok := Flush(pre, s, n);
      rest := s.Drop(n);
      ModAdvance(pre.off, n, alignment);
    }

    /**
      Aligned offset, unaligned data: writes a whole block but only counts the bytes up to the data's next
      address boundary; the bytes after it in the block are look-ahead that the next step writes again.
     */
    method WriteUnalignedBuf(s: Slice) returns (ok: bool, rest: Slice)
      requires Valid() && logicalOffset % alignment == 0 && s.addr % alignment != 0 && s.bytes != []
      modifies this`file, this`logicalOffset, this`calls, buffer
      ensures Valid() && Stepped(old(S()), s, ok, rest, S()) && Answered(old(calls), ok)
      ensures ok ==> rest.bytes == [] || rest.addr % alignment == 0
    {
      ghost var pre := S();
      var n := Min(Remain(s.addr), |s.bytes|);
      ModAdvance(s.addr, n, alignment);
      assert 0 < n <= Min(|s.bytes|, alignment);
      rest := s.Drop(n);
      assert rest.bytes == [] || rest.addr % alignment == 0;
      hide Ready, Stepped, Filled, Align, RoundUp, Slice.Drop, DirectFile.Remain;
      LookAheadReady(pre, s, n);
      Fill(0, s.bytes);
      ok := Flush(pre, s, n);
    }

    /** Aligned offset and data: the whole blocks go straight out; what is left over goes through the buffer. */
    method WriteAligned(s: Slice) returns (ok: bool, rest: Slice)
      requires Valid() && logicalOffset % alignment == 0 && s.addr % alignment == 0 && s.bytes != []
      modifies this`file, this`logicalOffset, this`calls, buffer
      ensures Valid() && Stepped(old(S()), s, ok, rest, S()) && Answered(old(calls), ok)
      ensures ok ==> rest.bytes == []
    {
      ghost var pre := S();
      var over := WriteBlocks(s);
      if over.None? {
        return false, s;
      }
      ok, rest := true, over.value;
      if rest.bytes != [] {
        ghost var mid, more := S(), rest;
        LookAheadReady(mid, rest, |rest.bytes|);
        Fill(0, rest.bytes);
        ok := Flush(mid, rest, |rest.bytes|);
        rest := rest.Drop(|rest.bytes|);
        if mid != pre || more != s {
          Chain(pre, s, mid, more, ok, rest, S());
        }
      }
    }

    /** The whole blocks of the slice, if it has any; returns the trailing part that fills no block. */
    method WriteBlocks(s: Slice) returns (over: Option<Slice>)
      requires Valid() && logicalOffset % alignment == 0 && s.addr % alignment == 0 && s.bytes != []
      modifies this`file, this`logicalOffset, this`calls
      ensures Valid() && buffer[..] == old(buffer[..]) && logicalOffset % alignment == 0
      ensures over.None? ==> Stepped(old(S()), s, false, s, S()) && Answered(old(calls), false)
      ensures over.Some? ==> |over.value.bytes| < alignment
      ensures over.Some? && over.value == s ==> S() == old(S()) && calls == old(calls)
      ensures over.Some? && over.value != s ==> Stepped(old(S()), s, true, over.value, S())
      ensures over.Some? && over.value != s ==> Answered(old(calls), true)
    {
      ghost var pre := S();
      var m := WholeBytes(alignment, |s.bytes|);
      if m > 0 {
        var ok, done := PWrite(Slice(s.addr, s.bytes[..m]), logicalOffset);
        if !ok {
          AlignedFails(pre, s.bytes[..m][..done]);
          return None;
        }
        assert s.bytes[..m][..done] == s.bytes[..m];
        logicalOffset := logicalOffset + m;
        AlignedStep(pre, s, m);
        WholeBlocksCommit(pre, s.bytes[..m]);
      }
      return Some(s.Drop(m));
    }

    /** One round of the append loop; it always commits something, or fails. */
    method Write(s: Slice) returns (ok: bool, rest: Slice)
      requires Valid() && s.bytes != []
      modifies this`file, this`logicalOffset, this`calls, buffer
      ensures Valid() && Stepped(old(S()), s, ok, rest, S()) && Answered(old(calls), ok)
    {
      ghost var pre := S();
      if logicalOffset % alignment == 0 && s.addr % alignment == 0 {
        ok, rest := WriteAligned(s);
      } else if logicalOffset % alignment != 0 {
        ok, rest := WriteUnalignedOff(s);
      } else {
        ok, rest := WriteUnalignedBuf(s);
        return;
      }
      if !ok || rest.bytes == [] {
        return;
      }
      ghost var mid, more := S(), rest;
      if rest.addr % alignment == 0 {
        ok, rest := WriteAligned(rest);
      } else {
        ok, rest := WriteUnalignedBuf(rest);
      }
      Chain(pre, s, mid, more, ok, rest, S());
    }

    /** Appends the slice. On failure a prefix of it has been committed. */
    method Append(s: Slice) returns (ok: bool)
      requires Valid()
      modifies this`file, this`logicalOffset, this`calls, buffer
      ensures Valid() && old(logicalOffset) <= logicalOffset
      ensures Step(old(S()), Op.Append(s, ok, logicalOffset - old(logicalOffset)), S())
      ensures s.bytes == [] ==> ok && calls == old(calls)
      ensures s.bytes != [] ==> Answered(old(calls), ok)
    {
      ghost var pre, moved := S(), false;
      var buf := s;
      ok := true;
      while ok && buf.bytes != []
        invariant Valid()
        invariant !moved ==> ok && buf == s && S() == pre && calls == old(calls)
        invariant moved ==> Stepped(pre, s, ok, buf, S()) && Answered(old(calls), ok)
        invariant moved ==> s.bytes != []
        decreases ok, |buf.bytes|
      {
        ghost var mid, more := S(), buf;
        ok, buf := Write(buf);
        if moved {
          Chain(pre, s, mid, more, ok, buf, S());
        }
        moved := true;
      }
      if moved {
        Finished(pre, s, ok, buf, S());
      }
    }

    /**
      A client that appends one slice after the other until one fails. While the device works that never happens, and
      every byte of every slice counts; otherwise those of a prefix do.
     */
    method AppendAll(ss: seq<Slice>) returns (ok: bool)
      requires Valid() && Coherent(S()) && open
      modifies this`file, this`logicalOffset, this`calls, buffer
      ensures Valid() && Coherent(S()) && old(calls) <= calls
      ensures ok <==> Served(old(calls))
      ensures ok ==> Logical(S()) == old(Logical(S())) + Joined(ss)
      ensures !ok ==> AddsPrefix(old(S()), Joined(ss), S())
    {
      hide Step, Stepped, Logical, Coherent;
      ghost var pre := S();
      ok := true;
      assert ss[..0] == [];
      assert Logical(pre) + [] == Logical(pre);
      for k := 0 to |ss|
        invariant Valid() && Coherent(S()) && ok && old(calls) <= calls && Served(old(calls))
        invariant Logical(S()) == Logical(pre) + Joined(ss[..k])
      {
        ghost var mid := S();
        JoinedStep(ss, k);
        ok := Append(ss[k]);
        OneMore(pre, Joined(ss[..k]), mid, ss[k], ok, logicalOffset - mid.off, S(), Joined(ss));
        if !ok {
          return;
        }
      }
      assert ss[..|ss|] == ss;
    }

    /** Truncates; a failing ftruncate changes nothing. */
    method Truncate(size: nat) returns (ok: bool)
      requires Valid()
      modifies this`file, this`logicalOffset, this`calls
      ensures Valid() && Answered(old(calls), ok)
      ensures if ok then Step(old(S()), Op.Truncate(size), S()) else S() == old(S())
      ensures ok ==> logicalOffset == |file| == size
      ensures ok ==> forall i :: 0 <= i < size ==> file[i] == if i < |old(file)| then old(file)[i] else 0
    {
      var done;
      ok, done := Call(0);
      if ok {
        file := Resize(file, size);
        logicalOffset := size;
      }
    }

    /**
      Cuts the padding off and closes. The cut is skipped at logical offset zero, so the file is left with
      exactly its logical bytes if and only if some byte was committed or the file is empty anyway.
     */
    method Close() returns (ok: bool)
      requires Valid()
      modifies this`file, this`open, this`calls
      ensures Valid() && Logical(S()) == old(Logical(S())) && logicalOffset == old(logicalOffset)
      ensures ok ==> !open
      ensures !ok ==> open == old(open) && file == old(file)
      ensures !old(open) ==> ok && file == old(file)
      ensures old(calls) <= calls && (ok <==> !old(open) || Served(old(calls)))
      ensures ok && old(open) ==> (file == old(Logical(S())) <==> old(CutOnClose(S())))
    {
      if !open {
        return true;
      }
      if logicalOffset > 0 && |file| != logicalOffset {
        var done;
        ok, done := Call(0);
        if !ok {
          return;
        }
        file := Resize(file, logicalOffset);
      }
      open := false;
      return true;
    }
  }
}
