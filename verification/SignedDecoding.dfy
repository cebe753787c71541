/**
  The decoder's loops where characters are signed: a working cell from 128 on is read as a negative number when the
  next character of the input is added. What that does is followed by the power of two in the error it leaves.
 */
module SignedDecoding {
  import opened Arithmetic
  import opened Radix
  import opened Conversion

  // ---------------------------------------------------------------- odd multiples of powers of two

  ghost predicate OddTimes(x: int, a: nat, h: int) {
    x == Pow(2, a) * (2 * h + 1)
  }

  /** The power of two in x is exactly the a-th. */
  ghost predicate Odd(x: int, a: nat) {
    exists h :: OddTimes(x, a, h)
  }

  lemma OddNonzero(x: int, a: nat)
    requires Odd(x, a)
    ensures x != 0
  {
    var h :| OddTimes(x, a, h);
    Nonzero(Pow(2, a), 2 * h + 1);
  }

  lemma Nonzero(p: int, q: int)
    requires p != 0 && q != 0
    ensures p * q != 0
  {
  }

  /** Adding a multiple of a greater power of two changes nothing. */
  lemma OddPlusMultiple(x: int, a: nat, m: nat, k: int)
    requires Odd(x, a) && a < m
    ensures Odd(x + k * Pow(2, m), a)
  {
    var h :| OddTimes(x, a, h);
    PowAdd(2, a, m - a);
    PowPush(2, m - a - 1);
    var p, q := Pow(2, a), Pow(2, m - a - 1);
    Regroup(p, q, k);
    Distribute(2 * h + 1, 2 * (k * q), p);
    assert OddTimes(x + k * Pow(2, m), a, h + k * q);
  }

  lemma Regroup(p: int, q: int, k: int)
    ensures k * (p * (2 * q)) == p * (2 * (k * q))
  {
    Associate(p, 2, q);
    assert k * (p * (2 * q)) == (k * p) * (2 * q);
    Associate(k, p, 2 * q);
    Commute(k, p);
    Associate(p, k, 2 * q);
  }

  lemma OddPlusOdd(x: int, a: nat, y: int, b: nat)
    requires Odd(x, a) && Odd(y, b) && a < b
    ensures Odd(x + y, a)
  {
    var h :| OddTimes(y, b, h);
    Commute(Pow(2, b), 2 * h + 1);
    OddPlusMultiple(x, a, b, 2 * h + 1);
  }

  /** An odd number times the n-th power of two raises the power by n. */
  lemma OddScaled(x: int, a: nat, n: nat, k: int)
    requires Odd(x, a)
    ensures Odd(Pow(2, n) * (2 * k + 1) * x, n + a)
  {
    var h :| OddTimes(x, a, h);
    PowAdd(2, n, a);
    var p, q, u, v := Pow(2, n), Pow(2, a), 2 * k + 1, 2 * h + 1;
    Products(p, q, u, v);
    var j := 2 * k * h + k + h;
    assert u * v == 2 * j + 1;
    assert OddTimes(p * u * x, n + a, j);
  }

  lemma Products(p: int, q: int, u: int, v: int)
    ensures p * u * (q * v) == p * q * (u * v)
  {
    Associate(p, u, q * v);
    assert u * (q * v) == q * (u * v);
    Associate(p, q, u * v);
  }

  // ---------------------------------------------------------------- what one sweep gets wrong

  /** How many cells come after the last one from 128 on. */
  ghost function LowestBad(o: seq<nat>): (i: nat)
    requires !IsDigits(128, o)
    ensures i < |o|
  {
    var n := |o| - 1;
    if o[n] >= 128 then 0 else 1 + LowestBad(o[..n])
  }

  lemma {:induction false} LowestBadWeighs(o: seq<nat>)
    requires !IsDigits(128, o)
    ensures 128 * Pow(256, LowestBad(o)) <= Val(256, o)
  {
    var n := |o| - 1;
    if o[n] < 128 {
      LowestBadWeighs(o[..n]);
      PowPush(256, LowestBad(o[..n]));
    }
  }

  const BOUND: nat := 0x100_0000_0000_0000

  lemma BadCell(carry: nat, x: nat)
    requires carry < BOUND && x < 256
    ensures Next(true, 58, 256, carry, x) < BOUND
    ensures x < 128 ==> Miss(true, 58, carry, x) == 0
    ensures x >= 128 ==> Miss(true, 58, carry, x) in {WORD - 14848, 0 - 14848}
  {
    if x >= 128 {
      var u := carry + 58 * x;
      assert carry + 58 * (WORD - 256 + x) == 58 * WORD - 14848 + u;
    }
  }

  lemma MissIsOdd(m: int)
    requires m in {WORD - 14848, 0 - 14848}
    ensures Odd(m, 9)
  {
    assert Pow(2, 9) == 512 by { PowersOfTwo(); }
    assert OddTimes(m, 9, if m < 0 then -15 else 0x80_0000_0000_0000 / 2 - 15);
  }

  lemma PowersOfTwo()
    ensures Pow(2, 1) == 2 && Pow(2, 7) == 128 && Pow(2, 8) == 256 && Pow(2, 9) == 512
  {
  }

  /**
    A sweep is exact if all cells are below 128; otherwise the power of two in its error tells the last cell that is
    not.
   */
  lemma {:induction false} BadExcess(o: seq<nat>, carry: nat, length: nat)
    requires Tidy(256, o, length) && carry < BOUND
    ensures var e := Excess(true, 58, 256, o, carry, length);
            if IsDigits(128, o) then e == 0 else Odd(e, 8 * LowestBad(o) + 9)
    decreases |o|
  {
    if o != [] && (carry > 0 || length > 0) {
      hide Next, Miss, Odd;
      var x, front := o[|o| - 1], o[..|o| - 1];
      var c := Next(true, 58, 256, carry, x);
      BadCell(carry, x);
      BadExcess(front, c, Less(length));
      var e := Excess(true, 58, 256, front, c, Less(length));
      assert Excess(true, 58, 256, o, carry, length) == e * 256 + Miss(true, 58, carry, x);
      if !IsDigits(128, front) {
        OddShift(e, 8 * LowestBad(front) + 9);
      }
      if x >= 128 {
        MissIsOdd(Miss(true, 58, carry, x));
        if !IsDigits(128, front) {
          OddPlusOdd(Miss(true, 58, carry, x), 9, e * 256, 8 * LowestBad(front) + 17);
        }
      }
    }
  }

  lemma OddShift(e: int, a: nat)
    requires Odd(e, a)
    ensures Odd(e * 256, a + 8)
  {
    PowersOfTwo();
    OddScaled(e, a, 8, 0);
  }

  // ---------------------------------------------------------------- the error over a run

  ghost function DecodeRun(cap: nat, ds: seq<nat>): (h: Held)
    ensures |h.cells| == cap && h.length <= cap
  {
    Run(true, 58, 256, cap, ds)
  }

  /** By how much the cells miss the number that has been read. */
  ghost function DecodeGap(cap: nat, ds: seq<nat>): int {
    Val(256, DecodeRun(cap, ds).cells) - Val(58, ds)
  }

  ghost predicate AllSmall(cap: nat, ds: seq<nat>) {
    CleanRun(true, 58, 256, cap, ds)
  }

  /** The cells were all below 128 whenever a digit was added to them, up to the last one. */
  ghost predicate FirstBad(cap: nat, ds: seq<nat>, k: nat) {
    k < |ds| && AllSmall(cap, ds[..k]) && !IsDigits(128, DecodeRun(cap, ds[..k]).cells)
  }

  lemma {:induction false} FindFirstBad(cap: nat, ds: seq<nat>) returns (k: nat)
    requires !AllSmall(cap, ds)
    ensures FirstBad(cap, ds, k)
  {
    var n := |ds| - 1;
    if AllSmall(cap, ds[..n]) {
      k := n;
    } else {
      k := FindFirstBad(cap, ds[..n]);
      assert ds[..n][..k] == ds[..k];
    }
  }

  lemma GapStep(cap: nat, ds: seq<nat>, d: nat) returns (left: nat, e: int)
    requires d < 58
    ensures DecodeGap(cap, ds + [d]) == 58 * DecodeGap(cap, ds) + e - left * Pow(256, cap)
    ensures var o := DecodeRun(cap, ds).cells;
            if IsDigits(128, o) then e == 0 else LowestBad(o) < cap && Odd(e, 8 * LowestBad(o) + 9)
  {
    var all := ds + [d];
    assert all[..|ds|] == ds;
    var h := DecodeRun(cap, ds);
    RunTidy(true, 58, 256, cap, ds);
    var r := Sweep(true, 58, 256, h.cells, d, h.length);
    SweepValue(true, 58, 256, h.cells, d, h.length);
    BadExcess(h.cells, d, h.length);
    left, e := r.left, Excess(true, 58, 256, h.cells, d, h.length);
    ValPush(58, ds, d);
    assert DecodeRun(cap, all) == Held(r.cells, r.length);
  }

  lemma SmallHolds(cap: nat, ds: seq<nat>)
    requires IsDigits(58, ds) && AllSmall(cap, ds) && Val(58, ds) < Pow(256, cap)
    ensures DecodeGap(cap, ds) == 0
    ensures var h := DecodeRun(cap, ds); Holds(h.cells, 256, h.length, Val(58, ds))
  {
    CleanRunHolds(true, 58, 256, cap, ds);
    var h := DecodeRun(cap, ds);
    HeldDigits(h.cells, 256, h.length, Val(58, ds));
  }

  lemma {:induction false} BytesAreBits(n: nat)
    ensures Pow(256, n) == Pow(2, 8 * n)
  {
    PowersOfTwo();
    if n > 0 {
      BytesAreBits(n - 1);
      PowAdd(2, 8, 8 * (n - 1));
    }
  }

  lemma PowBelow(a: nat, b: nat)
    requires Pow(2, a) < Pow(2, b)
    ensures a < b
  {
    if b <= a {
      PowMonotone(2, b, a);
    }
  }

  /** An error with a low power of two outlasts what is lost at the end of the cells. */
  lemma KeptInCells(x: int, a: nat, left: nat, cap: nat, w: nat)
    requires Odd(x, a) && Pow(2, a) <= w < Pow(256, cap)
    ensures Odd(x - left * Pow(256, cap), a)
  {
    BytesAreBits(cap);
    PowBelow(a, 8 * cap);
    OddPlusMultiple(x, a, 8 * cap, 0 - left);
    Negate(left, Pow(2, 8 * cap));
  }

  lemma Negate(a: int, b: int)
    ensures (0 - a) * b == 0 - a * b
  {
  }

  lemma WeightOfError(i: nat, v: nat)
    requires 128 * Pow(256, i) <= v
    ensures Pow(2, 8 * i + 9) <= 58 * v
  {
    BytesAreBits(i);
    PowersOfTwo();
    PowAdd(2, 8 * i, 9);
    hide Pow;
  }

  /** The first sweep over a cell from 128 on goes wrong, even where only so many cells are kept. */
  lemma GapOpens(cap: nat, ds: seq<nat>, d: nat) returns (a: nat)
    requires IsDigits(58, ds) && d < 58 && AllSmall(cap, ds) && !IsDigits(128, DecodeRun(cap, ds).cells)
    requires Val(58, ds + [d]) < Pow(256, cap)
    ensures Odd(DecodeGap(cap, ds + [d]), a) && Pow(2, a) <= Val(58, ds + [d]) && a % 8 == 1
  {
    hide *;
    ValPush(58, ds, d);
    var v, w := Val(58, ds), Val(58, ds + [d]);
    assert w == v * 58 + d;
    SmallHolds(cap, ds);
    var left, e := GapStep(cap, ds, d);
    LowestBadWeighs(DecodeRun(cap, ds).cells);
    var i := LowestBad(DecodeRun(cap, ds).cells);
    WeightOfError(i, Val(58, ds));
    a := 8 * i + 9;
    KeptInCells(e, a, left, cap, w);
    assert DecodeGap(cap, ds + [d]) == e - left * Pow(256, cap);
  }

  /** An old error and a new one: the lower power of two prevails. */
  lemma TwoErrors(g: int, a: nat, e: int, c: nat) returns (b: nat)
    requires Odd(g, a) && Odd(e, c) && c % 8 == 1 && a % 8 != 0
    ensures Odd(58 * g + e, b) && (b == a + 1 || b % 8 == 1) && b <= a + 1
  {
    PowersOfTwo();
    OddScaled(g, a, 1, 14);
    hide *;
    if c < a + 1 {
      OddPlusOdd(e, c, 58 * g, a + 1);
      assert e + 58 * g == 58 * g + e;
      b := c;
    } else {
      OddPlusOdd(58 * g, a + 1, e, c);
      b := a + 1;
    }
  }

  lemma OldError(g: int, a: nat)
    requires Odd(g, a)
    ensures Odd(58 * g, a + 1)
  {
    PowersOfTwo();
    OddScaled(g, a, 1, 14);
  }

  lemma WeightGrows(a: nat, b: nat, v: nat, w: nat)
    requires Pow(2, a) <= v && b <= a + 1 && w >= 58 * v
    ensures Pow(2, b) <= w
  {
    PowPush(2, a);
    PowMonotone(2, b, a + 1);
    hide Pow;
  }

  /** One more digit keeps the error or makes a new one; the two can only meet when the powers of two in them do. */
  lemma GapMoves(cap: nat, ds: seq<nat>, d: nat, a: nat) returns (b: nat)
    requires IsDigits(58, ds) && d < 58 && Val(58, ds + [d]) < Pow(256, cap)
    requires Odd(DecodeGap(cap, ds), a) && Pow(2, a) <= Val(58, ds) && a % 8 != 0
    ensures Odd(DecodeGap(cap, ds + [d]), b) && Pow(2, b) <= Val(58, ds + [d]) && (b == a + 1 || b % 8 == 1)
  {
    hide *;
    ValPush(58, ds, d);
    var left, e := GapStep(cap, ds, d);
    var small := IsDigits(128, DecodeRun(cap, ds).cells);
    var g, w := DecodeGap(cap, ds), Val(58, ds + [d]);
    if small {
      OldError(g, a);
      b := a + 1;
      WeightGrows(a, b, Val(58, ds), w);
      KeptInCells(58 * g, b, left, cap, w);
    } else {
      b := TwoErrors(g, a, e, 8 * LowestBad(DecodeRun(cap, ds).cells) + 9);
      WeightGrows(a, b, Val(58, ds), w);
      KeptInCells(58 * g + e, b, left, cap, w);
    }
  }

  lemma FirstBadFront(cap: nat, ds: seq<nat>, k: nat)
    requires IsDigits(58, ds) && FirstBad(cap, ds, k)
    ensures var n := |ds| - 1;
            && ds[n] < 58 && IsDigits(58, ds[..n])
            && if k == n then AllSmall(cap, ds[..n]) && !IsDigits(128, DecodeRun(cap, ds[..n]).cells)
               else FirstBad(cap, ds[..n], k)
  {
    hide AllSmall, DecodeRun;
    assert ds[..k] == ds[..|ds| - 1][..k];
  }

  /** For eight characters after it has opened, the error cannot close again. */
  lemma {:induction false} GapStays(cap: nat, ds: seq<nat>, k: nat) returns (a: nat)
    requires IsDigits(58, ds) && FirstBad(cap, ds, k) && |ds| <= k + 8 && Val(58, ds) < Pow(256, cap)
    ensures Odd(DecodeGap(cap, ds), a) && Pow(2, a) <= Val(58, ds) && (a + 7) % 8 <= |ds| - k - 1
    decreases |ds|
  {
    var n := |ds| - 1;
    var front, d := ds[..n], ds[n];
    assert k <= n;
    hide *;
    FirstBadFront(cap, ds, k);
    ValPrefix(58, ds, n);
    assert ds == front + [d];
    assert Val(58, front + [d]) < Pow(256, cap);
    if k == n {
      a := GapOpens(cap, front, d);
      InStep(a, 0);
    } else {
      var b := GapStays(cap, front, k);
      InStep(b, n - k - 1);
      a := GapMoves(cap, front, d, b);
      InStep(a, n - k);
    }
  }

  lemma InStep(a: nat, n: nat)
    requires n <= 7
    ensures (a + 7) % 8 <= n && n < 7 ==> a % 8 != 0 && (a + 8) % 8 <= n + 1
    ensures a % 8 == 1 ==> (a + 7) % 8 == 0
  {
  }

  // ---------------------------------------------------------------- when decoding is right

  ghost predicate SmallNumber(ds: seq<nat>) {
    IsDigits(128, Digits(256, Val(58, ds)))
  }

  /** The digits of every proper prefix of the input are below 128. */
  ghost predicate SmallPrefixes(ds: seq<nat>) {
    forall p :: 0 <= p < |ds| ==> SmallNumber(ds[..p])
  }

  /** Clean cells hold digits below 128 exactly when the number has only such digits. */
  lemma SmallCellsIff(cap: nat, ds: seq<nat>)
    requires IsDigits(58, ds) && AllSmall(cap, ds) && Val(58, ds) < Pow(256, cap)
    ensures IsDigits(128, DecodeRun(cap, ds).cells) <==> SmallNumber(ds)
  {
    assert SmallNumber(ds) <==> IsDigits(128, Digits(256, Val(58, ds)));
    hide *;
    SmallHolds(cap, ds);
    var h := DecodeRun(cap, ds);
    HeldDigits(h.cells, 256, h.length, Val(58, ds));
    TailDigits(h.cells, h.length, Val(58, ds));
  }

  lemma TailDigits(cells: seq<nat>, length: nat, v: nat)
    requires Holds(cells, 256, length, v)
    ensures IsDigits(128, cells) <==> IsDigits(128, cells[|cells| - length..])
  {
    hide Val, Pow;
    var m := |cells| - length;
    assert forall i :: m <= i < |cells| ==> cells[i] == cells[m..][i - m];
  }

  /** Every sweep is clean when that holds, as far as the cells can hold the numbers. */
  lemma {:induction false} AllSmallIff(cap: nat, ds: seq<nat>)
    requires IsDigits(58, ds) && Val(58, ds) < Pow(256, cap)
    ensures AllSmall(cap, ds) <==> SmallPrefixes(ds)
  {
    if ds != [] {
      var n := |ds| - 1;
      var front := ds[..n];
      ValPrefix(58, ds, n);
      AllSmallIff(cap, front);
      assert AllSmall(cap, ds) <==> AllSmall(cap, front) && IsDigits(128, DecodeRun(cap, front).cells);
      if AllSmall(cap, front) {
        SmallCellsIff(cap, front);
      }
      hide Val, Digits, Pow, DecodeRun, AllSmall, IsDigits;
      assert forall p :: 0 <= p < n ==> front[..p] == ds[..p];
    }
  }

  ghost predicate DecodesEachCharacter(cap: nat, ds: seq<nat>) {
    forall p :: 0 <= p <= |ds| ==> DecodeGap(cap, ds[..p]) == 0
  }

  lemma {:induction false} AllSmallPrefix(cap: nat, ds: seq<nat>, p: nat)
    requires AllSmall(cap, ds) && p <= |ds|
    ensures AllSmall(cap, ds[..p])
  {
    if p < |ds| {
      AllSmallPrefix(cap, ds[..|ds| - 1], p);
      assert ds[..|ds| - 1][..p] == ds[..p];
    } else {
      assert ds[..p] == ds;
    }
  }

  /**
    The cells hold the number read after every character if and only if every proper prefix stands for bytes below
    128.
   */
  lemma DecodesEachCharacterIff(cap: nat, ds: seq<nat>)
    requires IsDigits(58, ds) && Val(58, ds) < Pow(256, cap)
    ensures DecodesEachCharacter(cap, ds) <==> SmallPrefixes(ds)
  {
    AllSmallIff(cap, ds);
    if AllSmall(cap, ds) {
      forall p | 0 <= p <= |ds| ensures DecodeGap(cap, ds[..p]) == 0 {
        AllSmallPrefix(cap, ds, p);
        ValPrefix(58, ds, p);
        SmallHolds(cap, ds[..p]);
      }
    } else {
      var k := FindFirstBad(cap, ds);
      var some := ds[..k + 1];
      assert some[..k] == ds[..k];
      ValPrefix(58, ds, k + 1);
      var a := GapStays(cap, some, k);
      OddNonzero(DecodeGap(cap, some), a);
    }
  }

  /** When that holds of all prefixes but the last eight, it decides whether the cells are right in the end. */
  lemma DecodesIff(cap: nat, ds: seq<nat>)
    requires IsDigits(58, ds) && Val(58, ds) < Pow(256, cap) && (|ds| > 8 ==> SmallPrefixes(ds[..|ds| - 8]))
    ensures DecodeGap(cap, ds) == 0 <==> SmallPrefixes(ds)
  {
    AllSmallIff(cap, ds);
    if AllSmall(cap, ds) {
      SmallHolds(cap, ds);
    } else {
      var k := FindFirstBad(cap, ds);
      if |ds| > k + 8 {
        assert ds[..|ds| - 8][..k] == ds[..k];
        ValPrefix(58, ds, k);
        SmallCellsIff(cap, ds[..k]);
        assert false;
      }
      var a := GapStays(cap, ds, k);
      OddNonzero(DecodeGap(cap, ds), a);
    }
  }
}
